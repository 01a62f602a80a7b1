/** Re-encoding the main framebuffer into the memory of a Linux framebuffer device. */
module LinuxFb {
  import opened Arith
  import opened Bytes
  import opened Numbers
  import opened Pixels
  import opened Framebuffers

  /**
   The part of the device's screen description that the update uses.  `depth` is the number of
   bytes of a pixel, `offset` the configured offset in bytes.
   */
  datatype VScreen = VScreen(depth: nat, xres: nat, yres: nat, xresVirtual: nat, yresVirtual: nat,
                             xoffset: nat, yoffset: nat, offset: nat)
  {
    predicate Supported() {
      1 <= depth <= 4
    }

    /** Columns and rows that are both drawn and visible. */
    function Columns(fb: Framebuffer): (n: nat)
      ensures n <= fb.width && n <= xres && (n == fb.width || n == xres)
    {
      if fb.width < xres then fb.width else xres
    }

    function Rows(fb: Framebuffer): (n: nat)
      ensures n <= fb.height && n <= yres && (n == fb.height || n == yres)
    {
      if fb.height < yres then fb.height else yres
    }

    /** The number of bytes allocated for the screen. */
    function Allocated(): nat {
      (xresVirtual * yresVirtual + offset) * depth
    }

    /** From one row to the next: the horizontal offset is added again for every row. */
    ghost function Stride(): int {
      (xoffset + xresVirtual) * depth
    }

    /** Where the update puts the first byte of row `y`. */
    ghost function Start(y: int): int {
      offset + yoffset * xresVirtual + y * Stride() + xoffset * depth
    }

    /** Where the device expects pixel `(x, y)` of the visible area. */
    ghost function Expected(x: int, y: int): int {
      offset + ((yoffset + y) * xresVirtual + (xoffset + x)) * depth
    }
  }

  /**
   One pixel in device format: grey (the red channel), BGR 565, BGR 888 or ABGR 8888.  The bit
   fields that the 16-bit format joins do not overlap, so joining them is adding them.
   */
  function Encode(p: Pixel, depth: nat): (s: seq<byte>)
    requires 1 <= depth <= 4
    ensures |s| == depth
  {
    if depth == 1 then [p.red]
    else if depth == 2 then
      var b, g, r := p.blue / 8, p.green / 4, p.red / 8;
      var low, high := g % 8, g / 8;
      [b + 32 * low, high + 8 * r]
    else if depth == 3 then [p.blue, p.green, p.red]
    else [p.alpha, p.blue, p.green, p.red]
  }

  /** The number that the bytes of a pixel form on the device. */
  function LittleEndian(s: seq<byte>): nat {
    if s == [] then 0 else s[0] + 0x100 * LittleEndian(s[1..])
  }

  /** The bit fields of each format: grey, or blue lowest and red above green, and alpha below all. */
  ghost predicate Represents(word: nat, depth: nat, p: Pixel) {
    && (depth == 1 ==> word == p.red)
    && (depth == 2 ==> word == p.blue / 8 + 0x20 * (p.green / 4) + 0x800 * (p.red / 8))
    && (depth == 3 ==> word == p.blue + 0x100 * p.green + 0x1_0000 * p.red)
    && (depth == 4 ==> word == p.alpha + 0x100 * p.blue + 0x1_0000 * p.green + 0x100_0000 * p.red)
  }

  /** What the device reads from an encoded pixel. */
  lemma EncodedReads(p: Pixel, depth: nat)
    requires 1 <= depth <= 4
    ensures Represents(LittleEndian(Encode(p, depth)), depth, p)
  {
    var s := Encode(p, depth);
    LittleEndianBytes(s);
  }

  lemma LittleEndianBytes(s: seq<byte>)
    requires 1 <= |s| <= 4
    ensures |s| == 1 ==> LittleEndian(s) == s[0]
    ensures |s| == 2 ==> LittleEndian(s) == s[0] + 0x100 * (s[1] as int)
    ensures |s| == 3 ==> LittleEndian(s) == s[0] + 0x100 * (s[1] as int) + 0x1_0000 * (s[2] as int)
    ensures |s| == 4 ==>
      LittleEndian(s) == s[0] + 0x100 * (s[1] as int) + 0x1_0000 * (s[2] as int) + 0x100_0000 * (s[3] as int)
  {
    if |s| > 1 {
      LittleEndianBytes(s[1..]);
    } else {
      assert s[1..] == [];
    }
  }

  /** The three fields of a 16-bit pixel, read as one little-endian word. */
  function Decode565(s: seq<byte>): (rgb: (nat, nat, nat))
    requires |s| == 2
  {
    var word := (s[0] as int) + 0x100 * (s[1] as int);
    (word / 2048, word / 32 % 64, word % 32)
  }

  /** The 16-bit format keeps exactly the high bits of each channel. */
  lemma Decode565Exact(p: Pixel)
    ensures Decode565(Encode(p, 2)) == (p.red / 8, p.green / 4, p.blue / 8)
  {
    var g := p.green / 4;
    Fields(p.blue / 8, g % 8, g / 8, p.red / 8);
  }

  lemma Fields(b: nat, low: nat, high: nat, r: nat)
    requires b < 32 && low < 8 && high < 8 && r < 32
    ensures
      var word := (b + 32 * low) + 0x100 * (high + 8 * r);
      word / 2048 == r && word / 32 % 64 == low + 8 * high && word % 32 == b
  {
    var word := (b + 32 * low) + 0x100 * (high + 8 * r);
    assert word == b + 32 * (low + 8 * high + 64 * r);
    assert word / 32 == low + 8 * high + 64 * r;
  }

  /** The first `n` encoded pixels of row `y`. */
  ghost function RowBytes(px: seq<Pixel>, width: uint32, depth: nat, y: nat, n: nat): (s: seq<byte>)
    requires 1 <= depth <= 4 && n <= width && y * width + width <= |px| && y * width >= 0
    ensures |s| == n * depth
  {
    if n == 0 then [] else
    Distribute(n - 1, 1, depth);
    RowBytes(px, width, depth, y, n - 1) + Encode(px[y * width + (n - 1)], depth)
  }

  function Splice(mem: seq<byte>, at: nat, s: seq<byte>): (r: seq<byte>)
    requires at + |s| <= |mem|
    ensures |r| == |mem|
  {
    mem[..at] + s + mem[at + |s|..]
  }

  lemma EmptyRow(mem: seq<byte>, at: nat, px: seq<Pixel>, width: uint32, depth: nat, y: nat)
    requires at <= |mem| && 1 <= depth <= 4 && y * width + width <= |px| && y * width >= 0
    ensures RowBytes(px, width, depth, y, 0) == [] && Splice(mem, at, RowBytes(px, width, depth, y, 0)) == mem
  {
  }

  /** Writes one row from `start` on. */
  method UpdateRow(mem: array<byte>, fb: Framebuffer, depth: nat, y: nat, columns: nat, start: nat)
    requires fb.Valid() && 1 <= depth <= 4 && y < fb.height && columns <= fb.width
    requires start + columns * depth <= mem.Length
    modifies mem
    ensures y * fb.width >= 0 && y * fb.width + fb.width <= fb.pixels.Length
    ensures mem[..] == Splice(old(mem[..]), start, RowBytes(fb.pixels[..], fb.width, depth, y, columns))
    ensures fb.pixels[..] == old(fb.pixels[..])
  {
    hide Encode, Index, RowBytes;
    RowFits(fb.width, fb.height, y);
    ghost var was, px := mem[..], fb.pixels[..];
    var pxIndex := start;
    EmptyRow(was, start, px, fb.width, depth, y);
    assert was[..start] + [] == was[..start];
    for x := 0 to columns
      invariant pxIndex == start + x * depth <= start + columns * depth
      invariant fb.pixels[..] == px
      invariant mem[..pxIndex] == was[..start] + RowBytes(px, fb.width, depth, y, x)
      invariant mem[pxIndex..] == was[pxIndex..]
    {
      NextIndex(x, columns, depth);
      StorePixel(mem, fb, depth, x, y, pxIndex, was, start);
      pxIndex := pxIndex + depth;
    }
    assert mem[..] == mem[..pxIndex] + mem[pxIndex..];
  }

  lemma NextIndex(x: nat, columns: nat, depth: nat)
    requires x < columns
    ensures (x + 1) * depth == x * depth + depth <= columns * depth
  {
    MulLe(x + 1, columns, depth);
    Distribute(x, 1, depth);
  }

  /** Writes one pixel behind those of its row that are already there. */
  method StorePixel(mem: array<byte>, fb: Framebuffer, depth: nat, x: nat, y: nat, at: nat,
                    ghost was: seq<byte>, ghost start: nat)
    requires fb.Valid() && 1 <= depth <= 4 && y < fb.height && x < fb.width
    requires at + depth <= mem.Length == |was| && start <= at
    requires y * fb.width >= 0 && y * fb.width + fb.width <= fb.pixels.Length
    requires mem[..at] == was[..start] + RowBytes(fb.pixels[..], fb.width, depth, y, x) && mem[at..] == was[at..]
    modifies mem
    ensures fb.pixels[..] == old(fb.pixels[..])
    ensures mem[..at + depth] == was[..start] + RowBytes(fb.pixels[..], fb.width, depth, y, x + 1)
    ensures mem[at + depth..] == was[at + depth..]
  {
    hide Encode, Index, RowBytes;
    IndexInRange(fb.width, fb.height, x, y);
    var s := Encode(fb.GetPixel(x, y), depth);
    ghost var row := RowBytes(fb.pixels[..], fb.width, depth, y, x);
    RowBytesNext(fb.pixels[..], fb.width, depth, y, x);
    StoreBytes(mem, at, s);
    Extend(was, start, row, s, at);
  }

  lemma Extend(was: seq<byte>, start: nat, row: seq<byte>, s: seq<byte>, i: nat)
    requires start <= |was| && i + |s| <= |was|
    ensures (was[..start] + row) + s == was[..start] + (row + s)
    ensures was[i..][|s|..] == was[i + |s|..]
  {
  }

  lemma RowBytesNext(px: seq<Pixel>, width: uint32, depth: nat, y: nat, n: nat)
    requires 1 <= depth <= 4 && n < width && y * width + width <= |px| && y * width >= 0
    ensures RowBytes(px, width, depth, y, n + 1)
         == RowBytes(px, width, depth, y, n) + Encode(px[y * width + n], depth)
  {
    hide Encode;
  }

  lemma RowFits(width: nat, height: nat, y: nat)
    requires y < height
    ensures 0 <= y * width && y * width + width <= width * height
  {
    MulLe(0, y, width);
    MulLe(y + 1, height, width);
    Distribute(y, 1, width);
  }

  method StoreBytes(mem: array<byte>, at: nat, s: seq<byte>)
    requires at + |s| <= mem.Length
    modifies mem
    ensures mem[..at + |s|] == old(mem[..at]) + s
    ensures mem[at + |s|..] == old(mem[at..])[|s|..]
  {
    forall i | 0 <= i < |s| { mem[at + i] := s[i]; }
    assert forall i :: at <= i < at + |s| ==> mem[i] == s[i - at];
  }

  // ----- All rows

  /** The pixels, as far as they exist, have the framebuffer's size. */
  ghost predicate Fills(px: seq<Pixel>, width: uint32, height: uint32) {
    |px| == width * height
  }

  /** Every byte that the update writes is in the buffer. */
  ghost predicate InBuffer(v: VScreen, columns: nat, rows: nat, length: nat) {
    forall y :: 0 <= y < rows ==> 0 <= v.Start(y) && v.Start(y) + columns * v.depth <= length
  }

  /** Device memory after the first `rows` rows. */
  ghost function Updated(v: VScreen, mem: seq<byte>, px: seq<Pixel>, width: uint32, height: uint32,
                         columns: nat, rows: nat): (r: seq<byte>)
    requires v.Supported() && Fills(px, width, height) && columns <= width && rows <= height
    requires InBuffer(v, columns, rows, |mem|)
    ensures |r| == |mem|
    decreases rows
  {
    if rows == 0 then mem else
    RowFits(width, height, rows - 1);
    Splice(Updated(v, mem, px, width, height, columns, rows - 1), v.Start(rows - 1),
           RowBytes(px, width, v.depth, rows - 1, columns))
  }

  /**
   Re-encodes the visible part of the main framebuffer; fails for an unknown pixel format.  `mem`
   is the memory from the start of the buffer on, as far as it is written: for some screens that
   is more than was allocated.  The running index has 32 bits and wraps, also where a row is wider
   than the virtual screen and the way to the next row is negative.
   */
  method Update(mem: array<byte>, fb: Framebuffer, v: VScreen) returns (ok: bool)
    requires fb.Valid() && mem.Length <= TWO_32
    requires InBuffer(v, v.Columns(fb), v.Rows(fb), mem.Length)
    modifies mem
    ensures v.Supported() ==>
      && ok && Fills(fb.pixels[..], fb.width, fb.height)
      && mem[..] == Updated(v, old(mem[..]), fb.pixels[..], fb.width, fb.height, v.Columns(fb), v.Rows(fb))
    ensures v.Supported() && v.Columns(fb) <= v.xresVirtual ==>
      forall x, y | 0 <= x < v.Columns(fb) && 0 <= y < v.Rows(fb) ::
        x < fb.width && y < fb.height && Shows(v, mem[..], x, y, fb.GetPixel(x, y))
    ensures !v.Supported() ==> mem[..] == old(mem[..]) && (ok <==> v.Columns(fb) == 0 || v.Rows(fb) == 0)
  {
    hide RowBytes, Splice, VScreen.Start, Shows, Index;
    var columns, rows := v.Columns(fb), v.Rows(fb);
    if v.depth < 1 || v.depth > 4 {
      return columns == 0 || rows == 0;
    }
    ghost var was, px := mem[..], fb.pixels[..];
    var pxIndex := Wrap32(v.offset + v.yoffset * v.xresVirtual);
    FirstStart(v);
    for y := 0 to rows
      invariant pxIndex == Wrap32(v.Start(y) - v.xoffset * v.depth)
      invariant fb.pixels[..] == px
      invariant mem[..] == Updated(v, was, px, fb.width, fb.height, columns, y)
    {
      WrapAdd(v.Start(y) - v.xoffset * v.depth, v.xoffset * v.depth);
      pxIndex := Wrap32(pxIndex + v.xoffset * v.depth);
      ghost var at := v.Start(y);
      if columns > 0 {
        Unwrapped(at, columns, v.depth);
        UpdateRow(mem, fb, v.depth, y, columns, pxIndex);
      } else {
        RowFits(fb.width, fb.height, y);
        EmptyRow(mem[..], at, px, fb.width, v.depth, y);
      }
      WrapAdd(at, columns * v.depth);
      pxIndex := Wrap32(pxIndex + columns * v.depth);
      NextStart(v, columns, y);
      WrapAdd(at + columns * v.depth, (v.xresVirtual - columns) * v.depth);
      pxIndex := Wrap32(pxIndex + (v.xresVirtual - columns) * v.depth);
    }
    if columns <= v.xresVirtual {
      AllShown(mem, fb, v, was);
    }
    return true;
  }

  lemma AllShown(mem: array<byte>, fb: Framebuffer, v: VScreen, was: seq<byte>)
    requires fb.Valid() && v.Supported() && Fills(fb.pixels[..], fb.width, fb.height)
    requires v.Columns(fb) <= v.xresVirtual && InBuffer(v, v.Columns(fb), v.Rows(fb), |was|)
    requires mem[..] == Updated(v, was, fb.pixels[..], fb.width, fb.height, v.Columns(fb), v.Rows(fb))
    ensures forall x, y | 0 <= x < v.Columns(fb) && 0 <= y < v.Rows(fb) :: Shows(v, mem[..], x, y, fb.GetPixel(x, y))
  {
    hide Shows, Updated, InBuffer, Index, VScreen.Start;
    forall x, y | 0 <= x < v.Columns(fb) && 0 <= y < v.Rows(fb) ensures Shows(v, mem[..], x, y, fb.GetPixel(x, y)) {
      IndexInRange(fb.width, fb.height, x, y);
      UpdatedReads(v, was, fb.pixels[..], fb.width, fb.height, v.Columns(fb), v.Rows(fb), x, y);
    }
  }

  /** What an `unsigned int` keeps of a number. */
  function Wrap32(n: int): uint32 {
    n % TWO_32
  }

  lemma WrapAdd(a: int, b: int)
    ensures Wrap32(Wrap32(a) + b) == Wrap32(a + b)
  {
    ModAbsorb(a, b);
  }

  lemma Unwrapped(start: int, columns: nat, depth: nat)
    requires 0 <= start && columns > 0 && depth > 0 && start + columns * depth <= TWO_32
    ensures Wrap32(start) == start
  {
    MulLe(1, columns, depth);
    ModSmall(start);
  }

  lemma FirstStart(v: VScreen)
    ensures v.Start(0) - v.xoffset * v.depth == v.offset + v.yoffset * v.xresVirtual
  {
  }

  lemma NextStart(v: VScreen, columns: nat, y: nat)
    ensures v.Start(y) + columns * v.depth + (v.xresVirtual - columns) * v.depth == v.Start(y + 1) - v.xoffset * v.depth
  {
    Distribute(columns, v.xresVirtual - columns, v.depth);
    Distribute(v.xoffset, v.xresVirtual, v.depth);
    Distribute(y, 1, v.Stride());
  }

  lemma {:induction false} RowBytesAt(px: seq<Pixel>, width: uint32, depth: nat, y: nat, n: nat, x: nat, k: nat)
    requires 1 <= depth <= 4 && n <= width && y * width + width <= |px| && y * width >= 0
    requires x < n && k < depth
    ensures 0 <= x * depth && x * depth + k < n * depth
    ensures RowBytes(px, width, depth, y, n)[x * depth + k] == Encode(px[y * width + x], depth)[k]
    decreases n
  {
    hide Encode, RowBytes;
    MulLe(0, x, depth);
    MulLe(x + 1, n, depth);
    Distribute(x, 1, depth);
    RowBytesNext(px, width, depth, y, n - 1);
    Distribute(n - 1, 1, depth);
    if x < n - 1 {
      RowBytesAt(px, width, depth, y, n - 1, x, k);
    }
  }

  /** Rows follow each other without overlap. */
  lemma StartsApart(v: VScreen, columns: nat, y: nat, z: nat)
    requires columns <= v.xresVirtual && y < z
    ensures v.Start(y) + columns * v.depth <= v.Start(z)
  {
    MulLe(0, v.xoffset + v.xresVirtual, v.depth);
    MulLe(columns, v.xoffset + v.xresVirtual, v.depth);
    MulLe(y + 1, z, v.Stride());
    Distribute(y, 1, v.Stride());
  }

  /** After the update the bytes of every drawn pixel are in place. */
  lemma {:induction false} UpdatedPixel(v: VScreen, mem: seq<byte>, px: seq<Pixel>, width: uint32, height: uint32,
                                       columns: nat, rows: nat, x: nat, y: nat, k: nat)
    requires v.Supported() && Fills(px, width, height) && columns <= width && rows <= height
    requires InBuffer(v, columns, rows, |mem|) && columns <= v.xresVirtual
    requires x < columns && y < rows && k < v.depth
    ensures 0 <= v.Start(y) + x * v.depth + k < |mem| && 0 <= y * width + x < |px|
    ensures Updated(v, mem, px, width, height, columns, rows)[v.Start(y) + x * v.depth + k]
         == Encode(px[y * width + x], v.depth)[k]
    decreases rows
  {
    hide RowBytes, Encode, VScreen.Start;
    RowFits(width, height, y);
    RowFits(width, height, rows - 1);
    RowBytesAt(px, width, v.depth, y, columns, x, k);
    if y < rows - 1 {
      StartsApart(v, columns, y, rows - 1);
      UpdatedPixel(v, mem, px, width, height, columns, rows - 1, x, y, k);
    }
  }

  /** Where the update puts pixel `(x, y)` the device reads `p`. */
  ghost predicate Shows(v: VScreen, mem: seq<byte>, x: nat, y: nat, p: Pixel) {
    var at := v.Start(y) + x * v.depth;
    0 <= at && at + v.depth <= |mem| && Represents(LittleEndian(mem[at..at + v.depth]), v.depth, p)
  }

  /** So the device reads every drawn pixel at its place. */
  lemma UpdatedReads(v: VScreen, mem: seq<byte>, px: seq<Pixel>, width: uint32, height: uint32,
                     columns: nat, rows: nat, x: nat, y: nat)
    requires v.Supported() && Fills(px, width, height) && columns <= width && rows <= height
    requires InBuffer(v, columns, rows, |mem|) && columns <= v.xresVirtual
    requires x < columns && y < rows
    ensures
      && 0 <= y * width + x < |px|
      && Shows(v, Updated(v, mem, px, width, height, columns, rows), x, y, px[y * width + x])
  {
    hide VScreen.Start, Updated, Encode, InBuffer, LittleEndian, Represents;
    UpdatedPixel(v, mem, px, width, height, columns, rows, x, y, 0);
    UpdatedPixel(v, mem, px, width, height, columns, rows, x, y, v.depth - 1);
    var at := v.Start(y) + x * v.depth;
    MulLe(0, x, v.depth);
    var r, p := Updated(v, mem, px, width, height, columns, rows), px[y * width + x];
    forall k | 0 <= k < v.depth ensures r[at + k] == Encode(p, v.depth)[k] {
      UpdatedPixel(v, mem, px, width, height, columns, rows, x, y, k);
    }
    assert r[at..at + v.depth] == Encode(p, v.depth);
    EncodedReads(p, v.depth);
  }

  /** All other bytes of the buffer keep their value. */
  lemma {:induction false} UpdatedElsewhere(v: VScreen, mem: seq<byte>, px: seq<Pixel>, width: uint32, height: uint32,
                                           columns: nat, rows: nat, i: nat)
    requires v.Supported() && Fills(px, width, height) && columns <= width && rows <= height
    requires InBuffer(v, columns, rows, |mem|) && i < |mem|
    requires forall y :: 0 <= y < rows ==> i < v.Start(y) || v.Start(y) + columns * v.depth <= i
    ensures Updated(v, mem, px, width, height, columns, rows)[i] == mem[i]
    decreases rows
  {
    hide RowBytes, VScreen.Start;
    if rows > 0 {
      RowFits(width, height, rows - 1);
      UpdatedElsewhere(v, mem, px, width, height, columns, rows - 1, i);
    }
  }

  /** The writes stay within `length` bytes if and only if the last row does. */
  lemma LastRowDecides(v: VScreen, columns: nat, rows: nat, length: nat)
    requires columns <= v.xresVirtual
    ensures InBuffer(v, columns, rows, length)
      <==> rows == 0 || v.Start(rows - 1) + columns * v.depth <= length
  {
    hide VScreen.Start;
    forall y | 0 <= y < rows
      ensures 0 <= v.Start(y) && v.Start(y) + columns * v.depth <= v.Start(rows - 1) + columns * v.depth
    {
      StartIsNat(v, y);
      if y < rows - 1 {
        StartsApart(v, columns, y, rows - 1);
        MulLe(0, columns, v.depth);
      }
    }
  }

  lemma StartIsNat(v: VScreen, y: nat)
    ensures v.Start(y) >= 0
  {
    MulLe(0, v.xoffset + v.xresVirtual, v.depth);
    MulLe(0, v.xoffset, v.depth);
    MulLe(0, y, v.Stride());
    MulLe(0, v.yoffset, v.xresVirtual);
  }

  /** If the last row does not fit, the last byte of the last pixel is written behind the buffer. */
  lemma OverrunIsWritten(v: VScreen, mem: seq<byte>, px: seq<Pixel>, width: uint32, height: uint32,
                         columns: nat, rows: nat)
    requires v.Supported() && Fills(px, width, height) && columns <= width && rows <= height
    requires columns <= v.xresVirtual && InBuffer(v, columns, rows, |mem|)
    requires columns > 0 && !InBuffer(v, columns, rows, v.Allocated())
    ensures
      var i := v.Start(rows - 1) + columns * v.depth - 1;
      && rows > 0 && v.Allocated() <= i < |mem| && 0 <= (rows - 1) * width + (columns - 1) < |px|
      && Updated(v, mem, px, width, height, columns, rows)[i]
         == Encode(px[(rows - 1) * width + (columns - 1)], v.depth)[v.depth - 1]
  {
    hide VScreen.Start, Updated, Encode, InBuffer;
    LastRowDecides(v, columns, rows, v.Allocated());
    Distribute(columns - 1, 1, v.depth);
    UpdatedPixel(v, mem, px, width, height, columns, rows, columns - 1, rows - 1, v.depth - 1);
  }

  /** A full-HD screen that is panned ten pixels to the right. */
  const PANNED := VScreen(4, 1920, 1080, 1930, 1080, 10, 0, 0)

  /** On this screen the update writes behind the buffer and puts the second row in a wrong place. */
  lemma PannedScreenFails()
    ensures PANNED.Supported() && PANNED.xoffset + PANNED.xres <= PANNED.xresVirtual
    ensures !InBuffer(PANNED, PANNED.xres, PANNED.yres, PANNED.Allocated())
    ensures PANNED.Start(1) != PANNED.Expected(0, 1)
  {
    assert PANNED.Start(1079) + 1920 * 4 > PANNED.Allocated();
  }

  /** Without screen offsets the allocated buffer is large enough. */
  lemma BufferLargeEnough(v: VScreen, columns: nat, rows: nat)
    requires v.Supported() && v.xoffset == 0 && v.yoffset == 0
    requires columns <= v.xresVirtual && rows <= v.yresVirtual
    ensures InBuffer(v, columns, rows, v.Allocated())
  {
    var w, d := v.xresVirtual, v.depth;
    forall y | 0 <= y < rows
      ensures 0 <= v.Start(y) && v.Start(y) + columns * d <= (w * v.yresVirtual + v.offset) * d
    {
      MulLe(0, w, d);
      MulLe(columns, w, d);
      MulLe(0, y, w * d);
      MulLe(y + 1, v.yresVirtual, w * d);
      Distribute(y, 1, w * d);
      Reassociate(v.yresVirtual, w, d);
      Distribute(w * v.yresVirtual, v.offset, d);
      MulLe(1, d, v.offset);
    }
  }

  /**
   The pixels end up where the device expects them if and only if there is nothing to draw, or
   the vertical offset is zero or pixels are single bytes, and the horizontal offset is zero or
   only one row is drawn: the vertical offset is counted in bytes instead of pixels, and the
   horizontal offset is added once per row on top of it.
   */
  lemma PlacedAsExpected(v: VScreen, columns: nat, rows: nat)
    requires v.Supported() && columns <= v.xresVirtual
    ensures
      (forall x, y :: 0 <= x < columns && 0 <= y < rows ==> v.Start(y) + x * v.depth == v.Expected(x, y))
      <==> columns == 0 || rows == 0
           || ((v.yoffset == 0 || v.depth == 1) && (v.xoffset == 0 || rows == 1))
  {
    forall x, y | 0 <= x < columns && 0 <= y < rows
      ensures v.Expected(x, y) - (v.Start(y) + x * v.depth)
           == v.yoffset * v.xresVirtual * (v.depth - 1) - y * (v.xoffset * v.depth)
    {
      Misplacement(v, x, y);
    }
    if columns > 0 && rows > 0 {
      Misplacement(v, 0, 0);
      Positive(v.yoffset, v.xresVirtual, v.depth - 1);
      if rows > 1 {
        Misplacement(v, 0, 1);
        Positive(1, v.xoffset, v.depth);
        assert v.Start(0) + 0 * v.depth == v.Expected(0, 0) && v.Start(1) + 0 * v.depth == v.Expected(0, 1)
          ==> v.xoffset * v.depth == 0;
      }
      assert (forall x, y :: 0 <= x < columns && 0 <= y < rows ==> v.Start(y) + x * v.depth == v.Expected(x, y))
        ==> v.Start(0) + 0 * v.depth == v.Expected(0, 0);
    }
  }

  lemma Positive(a: nat, b: nat, c: nat)
    ensures a * b * c == 0 <==> a == 0 || b == 0 || c == 0
  {
  }

  lemma Misplacement(v: VScreen, x: nat, y: nat)
    ensures v.Expected(x, y) - (v.Start(y) + x * v.depth)
         == v.yoffset * v.xresVirtual * (v.depth - 1) - y * (v.xoffset * v.depth)
  {
    var w, d := v.xresVirtual, v.depth;
    Distribute(v.yoffset, y, w);
    Distribute((v.yoffset + y) * w, v.xoffset + x, d);
    Distribute(v.yoffset * w, y * w, d);
    Distribute(v.xoffset, x, d);
    Distribute(v.xoffset, w, d);
    Distribute(v.xoffset * d, w * d, y);
    Reassociate(y, w, d);
    Distribute(d, -1, v.yoffset * w);
  }
}
