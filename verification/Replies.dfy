/** What the server writes back, and that a client may send it again. */
module Replies {
  import opened Bytes
  import opened Numbers
  import opened Pixels
  import opened Protocol
  import opened Grammar
  import Arith
  import Framebuffers

  /** Size of the buffer that replies are formatted in. */
  const SCRATCH_STR_MAX: nat := 32

  /** `"PX %u %u %06x\n"`; the alpha byte is shifted out. */
  function PixelReply(x: uint32, y: uint32, p: Pixel): seq<byte> {
    PX + [SPACE] + Decimal(x) + [SPACE] + Decimal(y) + [SPACE] + HexPadded(p.Abgr() / 0x100, 6) + [LF]
  }

  /** `"SIZE %u %u\n"` */
  function SizeReply(width: uint32, height: uint32): seq<byte> {
    SIZE + [SPACE] + Decimal(width) + [SPACE] + Decimal(height) + [LF]
  }

  /** Formatting fails if the text and its terminator do not fit. */
  predicate Fits(reply: seq<byte>) {
    |reply| < SCRATCH_STR_MAX
  }

  lemma TenDigits(n: uint32)
    ensures |Decimal(n)| <= 10
    ensures |Decimal(n)| <= 9 <==> n < 1_000_000_000
  {
    PowersOfTen();
    DecimalLength(n, 10);
    DecimalLength(n, 9);
  }

  lemma PowersOfTen()
    ensures Power(10, 9) == 1_000_000_000 && Power(10, 10) == 10_000_000_000
  {
    assert Power(10, 2) == 100;
    assert Power(10, 4) == 10_000;
    assert Power(10, 6) == 1_000_000;
    assert Power(10, 8) == 100_000_000;
  }

  /** A pixel reply fails to fit only if both coordinates have ten digits. */
  lemma PixelReplyFits(x: uint32, y: uint32, p: Pixel)
    ensures Fits(PixelReply(x, y, p)) <==> x < 1_000_000_000 || y < 1_000_000_000
  {
    TenDigits(x);
    TenDigits(y);
  }

  /** So every reply about an existing pixel fits. */
  lemma InBoundsReplyFits(width: uint32, height: uint32, x: uint32, y: uint32, p: Pixel)
    requires width * height < TWO_32 && x < width && y < height
    ensures Fits(PixelReply(x, y, p))
  {
    PixelReplyFits(x, y, p);
    if x >= 1_000_000_000 && y >= 1_000_000_000 {
      Framebuffers.RowMajor(width, height, x, y);
      Arith.MulLe(1_000_000_000, y, width);
      assert false;
    }
  }

  lemma SizeReplyFits(width: uint32, height: uint32)
    ensures Fits(SizeReply(width, height))
  {
    TenDigits(width);
    TenDigits(height);
  }

  lemma NumberIsArgument(n: uint32)
    ensures Argument(Decimal(n)) && Dec(Decimal(n)) == n
  {
    TenDigits(n);
    DecimalNoWhitespace(n);
    DecimalRoundTrip(n);
  }

  lemma SixDigits(v: nat)
    requires v < 0x100_0000
    ensures Argument(HexPadded(v, 6)) && Hex(HexPadded(v, 6)) == v
  {
    HexNoWhitespace(v, 6);
    assert Power(16, 2) == 256;
    assert Power(16, 4) == 65536;
    assert Power(16, 6) == 0x100_0000;
    HexRoundTrip(v, 6);
  }

  lemma WithoutAlpha(p: Pixel)
    ensures p.Abgr() / 0x100 < 0x100_0000
    ensures p.Abgr() / 0x100 * 0x100 == Pixel(0, p.blue, p.green, p.red).Abgr()
  {
    assert p.Abgr() / 0x100 == p.blue + 0x100 * p.green + 0x1_0000 * p.red;
  }

  /** Six printed digits name the opaque pixel of the same colour. */
  lemma ColourRoundTrip(p: Pixel)
    ensures
      var t := HexPadded(p.Abgr() / 0x100, 6);
      Argument(t) && Colour(t) == p.(alpha := 0xff)
  {
    hide FromAbgr, Hex, HexPadded, Pixel.Abgr, Argument;
    var v, q := p.Abgr() / 0x100, Pixel(0, p.blue, p.green, p.red);
    WithoutAlpha(p);
    SixDigits(v);
    Arith.ModSmall(v * 0x100);
    AbgrRoundTrip(q);
  }

  /** Eight digits name a pixel with its alpha, in the order red, green, blue, alpha. */
  lemma ColourWithAlpha(p: Pixel)
    ensures Colour(HexPadded(p.Abgr(), 8)) == p
  {
    hide FromAbgr, Hex, HexPadded, Pixel.Abgr;
    assert Power(16, 2) == 256;
    assert Power(16, 4) == 65536;
    assert Power(16, 6) == 0x100_0000;
    assert Power(16, 8) == 0x1_0000_0000;
    HexRoundTrip(p.Abgr(), 8);
    Arith.ModSmall(p.Abgr());
    AbgrRoundTrip(p);
  }

  /** `k` hexadecimal digits of a number: up to six are red, green and blue, more also the alpha. */
  lemma ColourOfNumber(n: nat, k: nat)
    requires 0 < k <= 8 && n < Power(16, k)
    ensures
      var p := Colour(HexPadded(n, k));
      if k <= 6 then p.alpha == 0xff && p.blue + 0x100 * p.green + 0x1_0000 * p.red == n
      else p.alpha + 0x100 * p.blue + 0x1_0000 * p.green + 0x100_0000 * p.red == n
  {
    hide FromAbgr, Hex, HexPadded;
    PowersOfSixteen(k);
    HexRoundTrip(n, k);
    Arith.ModSmall(n);
    ChannelsOfAbgr(n);
    if k <= 6 {
      Arith.ModSmall(n * 0x100);
      ChannelsOfAbgr(n * 0x100);
    }
  }

  lemma PowersOfSixteen(k: nat)
    requires k <= 8
    ensures k <= 6 ==> Power(16, k) <= 0x100_0000
    ensures Power(16, k) <= 0x1_0000_0000 && Power(16, 6) == 0x100_0000 && Power(16, 8) == 0x1_0000_0000
  {
    assert Power(16, 2) == 256 && Power(16, 3) == 4096;
    assert Power(16, 4) == 65536 && Power(16, 5) == 0x10_0000;
    assert Power(16, 6) == 0x100_0000 && Power(16, 7) == 0x1000_0000;
    assert Power(16, 8) == 0x1_0000_0000;
    assert k == 0 || k == 1 || k == 2 || k == 3 || k == 4 || k == 5 || k == 6 || k == 7 || k == 8;
  }

  /** The two digits of each channel, in the order red, green, blue. */
  function RedGreenBlue(r: byte, g: byte, b: byte): seq<byte> {
    HexPadded(r, 2) + HexPadded(g, 2) + HexPadded(b, 2)
  }

  lemma RedGreenBlueIs(r: byte, g: byte, b: byte)
    ensures RedGreenBlue(r, g, b) == HexPadded(r * 0x1_0000 + g * 0x100 + b, 6)
  {
    hide HexPadded;
    HexByte(r, 2, g);
    HexByte(r * 256 + g, 4, b);
  }

  /** A number determines its four bytes. */
  lemma SameBytes(a: byte, b: byte, c: byte, d: byte, e: byte, f: byte, g: byte, h: byte)
    requires a + 0x100 * b + 0x1_0000 * c + 0x100_0000 * d == e + 0x100 * f + 0x1_0000 * g + 0x100_0000 * h
    ensures a == e && b == f && c == g && d == h
  {
  }

  /** What a client writes: `rrggbb` is the opaque pixel with just these channels. */
  lemma SixDigitColour(r: byte, g: byte, b: byte)
    ensures Colour(RedGreenBlue(r, g, b)) == Pixel(0xff, b, g, r)
  {
    hide Colour, RedGreenBlue, HexPadded, Power;
    var n := r * 0x1_0000 + g * 0x100 + b;
    RedGreenBlueIs(r, g, b);
    PowersOfSixteen(6);
    ColourOfNumber(n, 6);
    var p := Colour(HexPadded(n, 6));
    SameBytes(0, p.blue, p.green, p.red, 0, b, g, r);
  }

  /** `rrggbbaa` is the pixel with these channels and this alpha. */
  lemma EightDigitColour(r: byte, g: byte, b: byte, a: byte)
    ensures Colour(RedGreenBlue(r, g, b) + HexPadded(a, 2)) == Pixel(a, b, g, r)
  {
    hide Colour, RedGreenBlue, HexPadded, Power;
    var rgb := r * 0x1_0000 + g * 0x100 + b;
    RedGreenBlueIs(r, g, b);
    HexByte(rgb, 6, a);
    PowersOfSixteen(8);
    ColourOfNumber(rgb * 256 + a, 8);
    var p := Colour(HexPadded(rgb * 256 + a, 8));
    SameBytes(p.alpha, p.blue, p.green, p.red, a, b, g, r);
  }

  /** A pixel reply names the coordinates in order and the channels as `rrggbb`. */
  lemma PixelReplyReads(x: uint32, y: uint32, p: Pixel)
    ensures
      var s := PixelReply(x, y, p);
      var args := TwoArgs(s, |PX|);
      && StartsWith(s, PX) && args.Both? && args.x == x && args.y == y
      && s[args.end..] == [SPACE] + RedGreenBlue(p.red, p.green, p.blue) + [LF]
  {
    hide TwoArgs, HexPadded, Pixel.Abgr, RedGreenBlue, Decimal, Argument, Dec;
    var t := HexPadded(p.Abgr() / 0x100, 6);
    NumberIsArgument(x);
    NumberIsArgument(y);
    HighBytes(p);
    RedGreenBlueIs(p.red, p.green, p.blue);
    var at, more := Pair([SPACE], Decimal(x), [SPACE], Decimal(y)), [SPACE] + t + [LF];
    var s := PX + at.Bytes() + more;
    PairAfter(PX, at, more);
    ReplyShape(Decimal(x), Decimal(y), t);
    var e := TwoArgs(s, |PX|).end;
    assert s[e..] == more;
  }

  lemma HighBytes(p: Pixel)
    ensures p.Abgr() / 0x100 == p.red * 0x1_0000 + p.green * 0x100 + p.blue
  {
  }

  /** A size reply names the width first and then the height, and ends with a newline. */
  lemma SizeReplyReads(width: uint32, height: uint32)
    ensures
      var s := SizeReply(width, height);
      && StartsWith(s, SIZE) && TwoArgs(s, |SIZE|) == Both(width, height, |s| - 1) && s[|s| - 1] == LF
  {
    hide TwoArgs, Decimal, Argument, Dec;
    NumberIsArgument(width);
    NumberIsArgument(height);
    var at := Pair([SPACE], Decimal(width), [SPACE], Decimal(height));
    PairAfter(SIZE, at, [LF]);
    assert SizeReply(width, height) == SIZE + at.Bytes() + [LF];
  }

  lemma ReplyShape(x: seq<byte>, y: seq<byte>, t: seq<byte>)
    ensures
      PX + [SPACE] + x + [SPACE] + y + [SPACE] + t + [LF]
      == SetWire(Pair([SPACE], x, [SPACE], y), [SPACE], t, [LF]).Bytes()
  {
    var a := [SPACE] + x + [SPACE] + y;
    assert PX + [SPACE] + x + [SPACE] + y == PX + a;
    assert PX + a + [SPACE] + t + [LF] == PX + a + ([SPACE] + t + [LF]);
  }

  /**
   Main result: sending a pixel reply back to the server sets the same pixel to the same colour,
   fully opaque.
   */
  lemma GetSetRoundTrip(x: uint32, y: uint32, p: Pixel)
    ensures Run(PixelReply(x, y, p)) == Result([Set(x, y, p.(alpha := 0xff))], Waiting, [])
  {
    hide Step, Colour, Wire.Bytes, Pair.Bytes;
    var t := HexPadded(p.Abgr() / 0x100, 6);
    NumberIsArgument(x);
    NumberIsArgument(y);
    ColourRoundTrip(p);
    var w := SetWire(Pair([SPACE], Decimal(x), [SPACE], Decimal(y)), [SPACE], t, [LF]);
    var s := PixelReply(x, y, p);
    ReplyShape(Decimal(x), Decimal(y), t);
    WireAccepted(w);
    assert s[|s|..] == [];
  }
}
