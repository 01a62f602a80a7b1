/** Framebuffers: row-major pixel arrays, drawing and optional alpha blending. */
module Framebuffers {
  import opened Arith
  import opened Bytes
  import opened Pixels

  // ----- Alpha blending

  /** Alpha of the composite, before it is stored in one byte. */
  function OutAlpha(oldA: byte, newA: byte): (a: nat)
    ensures newA <= a <= 255
    ensures oldA == 255 ==> a == 255
  {
    MulLe(0, oldA, 255 - newA);
    MulLe(oldA, 255, 255 - newA);
    newA + oldA * (255 - newA) / 255
  }

  /** One composite channel, before it is stored in one byte. */
  function Channel(oldC: byte, newC: byte, oldA: byte, newA: byte, outA: nat): int
    requires outA > 0
  {
    (newC * newA + oldC * oldA * (255 - newA) / 255) / outA
  }

  /** The composite of `over` on `under`; every channel is truncated to one byte. */
  function Blend(over: Pixel, under: Pixel): Pixel {
    var a := OutAlpha(under.alpha, over.alpha);
    if a == 0 then Pixel(0, 0, 0, 0)
    else
      Pixel(a,
            Channel(under.blue, over.blue, under.alpha, over.alpha, a) % 0x100,
            Channel(under.green, over.green, under.alpha, over.alpha, a) % 0x100,
            Channel(under.red, over.red, under.alpha, over.alpha, a) % 0x100)
  }

  /** Scaling before a truncating division keeps at most 254 more than scaling after it. */
  lemma ScaledDivision(c: byte, w: nat)
    ensures c * (w / 255) <= c * w / 255 <= c * (w / 255) + 254
    ensures w % 255 == 0 ==> c * w / 255 == c * (w / 255)
  {
    var q, r := w / 255, w % 255;
    var cq, cr := c * q, c * r;
    assert w == 255 * q + r;
    Distribute(255 * q, r, c);
    Reassociate(255, q, c);
    assert c * w == 255 * cq + cr;
    MulLe(r, 254, c);
    MulLe(c, 255, 254);
    DivBounds(255 * cq + cr, 255, cq, cq + 254);
    if r == 0 {
      DivBounds(255 * cq, 255, cq, cq);
    }
  }

  /** A weighted sum with weights `a` and `b` lies between the bounds of its terms. */
  lemma WeightedSum(lo: nat, hi: nat, x: nat, y: nat, a: nat, b: nat)
    requires lo <= x <= hi && lo <= y <= hi
    ensures lo * (a + b) <= x * a + y * b <= hi * (a + b)
  {
    MulLe(lo, x, a);
    MulLe(lo, y, b);
    MulLe(x, hi, a);
    MulLe(y, hi, b);
    Distribute(a, b, lo);
    Distribute(a, b, hi);
  }

  lemma QuotientBounds(sum: nat, a: nat, lo: nat, hi: nat, extra: nat)
    requires a > 0 && lo * a <= sum <= hi * a + extra
    ensures lo <= sum / a <= hi + extra / a
  {
    var e := extra / a;
    DivRemainder(extra, a);
    Distribute(hi, e + 1, a);
    DivBounds(sum, a, lo, hi + e);
  }

  ghost function Min(a: nat, b: nat): nat { if a < b then a else b }
  ghost function Max(a: nat, b: nat): nat { if a < b then b else a }

  /**
   Before truncation a channel never falls below the smaller input, and exceeds the larger one
   by at most the rounding of the old weight; over an opaque pixel it lies between the inputs.
   */
  lemma ChannelBounds(oldC: byte, newC: byte, oldA: byte, newA: byte)
    requires OutAlpha(oldA, newA) > 0
    ensures
      var a := OutAlpha(oldA, newA);
      var c := Channel(oldC, newC, oldA, newA, a);
      && Min(oldC, newC) <= c <= Max(oldC, newC) + 254 / a
      && (oldA == 255 ==> c <= Max(oldC, newC))
  {
    var lo, hi, a := Min(oldC, newC), Max(oldC, newC), OutAlpha(oldA, newA);
    var w := oldA * (255 - newA);
    var q := w / 255;
    WeightIs(oldC, newC, oldA, newA);
    ScaledDivision(oldC, w);
    WeightedSum(lo, hi, newC, oldC, newA, q);
    var extra := if oldA == 255 then 0 else 254;
    QuotientBounds(newC * newA + oldC * w / 255, a, lo, hi, extra);
  }

  lemma WeightIs(oldC: byte, newC: byte, oldA: byte, newA: byte)
    requires OutAlpha(oldA, newA) > 0
    ensures
      var w := oldA * (255 - newA);
      && w >= 0 && OutAlpha(oldA, newA) == newA + w / 255
      && oldC * w >= 0 && newC * newA >= 0
      && Channel(oldC, newC, oldA, newA, OutAlpha(oldA, newA))
         == (newC * newA + oldC * w / 255) / OutAlpha(oldA, newA)
      && (oldA == 255 ==> w % 255 == 0)
  {
    Reassociate(oldC, oldA, 255 - newA);
  }

  /** White over white at alpha 1 comes out as 509, stored as 253. */
  lemma BlendWraps()
    ensures Channel(255, 255, 1, 1, 1) == 509 && OutAlpha(1, 1) == 1
  {
  }

  /** So all three channels of white over white end up darker. */
  lemma WhiteDarkens(white: Pixel)
    requires white.alpha == 1 && white.blue == white.green == white.red == 255
    ensures Blend(white, white) == Pixel(1, 253, 253, 253)
  {
    hide Channel, OutAlpha;
    BlendWraps();
  }

  /**
   The alphas alone decide whether some colours are truncated: none is if and only if the
   remainder of the old weight is smaller than the resulting alpha.
   */
  lemma TruncationFree(oldA: byte, newA: byte)
    requires OutAlpha(oldA, newA) > 0
    ensures
      var a := OutAlpha(oldA, newA);
      (forall oldC: byte, newC: byte :: Channel(oldC, newC, oldA, newA, a) <= 255)
      <==> oldA * (255 - newA) % 255 < a
  {
    hide Channel, OutAlpha;
    var a := OutAlpha(oldA, newA);
    MulLe(0, oldA, 255 - newA);
    var w: nat := oldA * (255 - newA);
    if w % 255 < a {
      forall oldC: byte, newC: byte ensures Channel(oldC, newC, oldA, newA, a) <= 255 {
        WeightIs(oldC, newC, oldA, newA);
        MulLe(newC, 255, newA);
        MulLe(oldC, 255, w);
        DivMonotone(oldC * w, 255 * w, 255);
        DivBounds(newC * newA + oldC * w / 255, a, 0, 255);
      }
    } else {
      WeightIs(255, 255, oldA, newA);
      DivBounds(255 * w, 255, w, w);
      assert 255 * newA + w >= 256 * a;
      AtLeast(255 * newA + w, a, 256);
      assert Channel(255, 255, oldA, newA, a) > 255;
    }
  }

  /** Over an opaque pixel nothing is lost in truncation, and the result is opaque again. */
  lemma BlendOverOpaque(over: Pixel, under: Pixel)
    requires under.alpha == 255
    ensures
      var p := Blend(over, under);
      && p.alpha == 255
      && p.blue == Channel(under.blue, over.blue, 255, over.alpha, 255)
      && p.green == Channel(under.green, over.green, 255, over.alpha, 255)
      && p.red == Channel(under.red, over.red, 255, over.alpha, 255)
  {
    hide Channel, OutAlpha;
    ChannelBounds(under.blue, over.blue, 255, over.alpha);
    ChannelBounds(under.green, over.green, 255, over.alpha);
    ChannelBounds(under.red, over.red, 255, over.alpha);
  }

  /** Over an opaque pixel a channel is the weighted mean of both, rounded down. */
  lemma OverOpaqueIsMean(oldC: byte, newC: byte, newA: byte)
    ensures Channel(oldC, newC, 255, newA, 255) == (newC * newA + oldC * (255 - newA)) / 255
  {
    var n := 255 - newA;
    Reassociate(oldC, 255, n);
    MulLe(0, oldC, n);
    assert oldC * 255 * n == oldC * n * 255;
  }

  /** `p` is opaque, and each channel is the mean of both, weighted by the alpha of `over`. */
  ghost predicate IsMean(p: Pixel, over: Pixel, under: Pixel) {
    && p.alpha == 255
    && p.blue == Mean(over.blue, under.blue, over.alpha)
    && p.green == Mean(over.green, under.green, over.alpha)
    && p.red == Mean(over.red, under.red, over.alpha)
  }

  ghost function Mean(over: byte, under: byte, alpha: byte): int {
    (over * alpha + under * (255 - alpha)) / 255
  }

  lemma MeanEnds(over: byte, under: byte)
    ensures Mean(over, under, 255) == over && Mean(over, under, 0) == under
  {
  }

  lemma BlendIsMean(over: Pixel, under: Pixel)
    requires under.alpha == 255
    ensures IsMean(Blend(over, under), over, under)
  {
    hide Blend, Channel;
    BlendOverOpaque(over, under);
    OverOpaqueIsMean(under.blue, over.blue, over.alpha);
    OverOpaqueIsMean(under.green, over.green, over.alpha);
    OverOpaqueIsMean(under.red, over.red, over.alpha);
  }

  /** What both pixels let through is the product of what each lets through, rounded up. */
  lemma AlphaIsComplement(oldA: byte, newA: byte)
    ensures
      var through := (255 - oldA) * (255 - newA);
      through <= 255 * (255 - OutAlpha(oldA, newA)) < through + 255
  {
    var n: nat, o: int := 255 - newA, oldA;
    MulLe(0, o, n);
    var w: nat := o * n;
    DivRemainder(w, 255);
    Distribute(255, -o, n);
    assert (255 - oldA) * n == 255 * n - w;
  }

  /** The two divisions of a channel amount to one: the exact weighted mean is rounded down once. */
  lemma ChannelRoundsOnce(oldC: byte, newC: byte, oldA: byte, newA: byte)
    requires OutAlpha(oldA, newA) > 0
    ensures
      var a := OutAlpha(oldA, newA);
      var c := Channel(oldC, newC, oldA, newA, a);
      c * (255 * a) <= 255 * (newC * newA) + oldC * (oldA * (255 - newA)) < (c + 1) * (255 * a)
  {
    hide Channel, OutAlpha;
    WeightIs(oldC, newC, oldA, newA);
    var a := OutAlpha(oldA, newA);
    var m: nat, u: nat := newC * newA, oldC * (oldA * (255 - newA));
    DivTwice(m, u, a);
  }

  /** 255 times the sum of both colours, each with its weight. */
  ghost function Weighted(newC: byte, oldC: byte, newA: byte, oldA: byte): int {
    255 * (newC * newA) + oldC * (oldA * (255 - newA))
  }

  /** For all alphas: each channel is the weighted mean of just that channel, cut to one byte. */
  lemma BlendIsComposite(over: Pixel, under: Pixel)
    requires OutAlpha(under.alpha, over.alpha) > 0
    ensures
      var p, a := Blend(over, under), OutAlpha(under.alpha, over.alpha);
      && p.alpha == a
      && p.blue == Weighted(over.blue, under.blue, over.alpha, under.alpha) / (255 * a) % 0x100
      && p.green == Weighted(over.green, under.green, over.alpha, under.alpha) / (255 * a) % 0x100
      && p.red == Weighted(over.red, under.red, over.alpha, under.alpha) / (255 * a) % 0x100
  {
    hide Channel, OutAlpha;
    ChannelIsQuotient(under.blue, over.blue, under.alpha, over.alpha);
    ChannelIsQuotient(under.green, over.green, under.alpha, over.alpha);
    ChannelIsQuotient(under.red, over.red, under.alpha, over.alpha);
  }

  lemma ChannelIsQuotient(oldC: byte, newC: byte, oldA: byte, newA: byte)
    requires OutAlpha(oldA, newA) > 0
    ensures
      var a := OutAlpha(oldA, newA);
      Channel(oldC, newC, oldA, newA, a) == Weighted(newC, oldC, newA, oldA) / (255 * a)
  {
    hide Channel, OutAlpha;
    var a := OutAlpha(oldA, newA);
    var c := Channel(oldC, newC, oldA, newA, a);
    ChannelRoundsOnce(oldC, newC, oldA, newA);
    WeightIs(oldC, newC, oldA, newA);
    DivBounds(Weighted(newC, oldC, newA, oldA), 255 * a, c, c);
  }

  lemma DivTwice(m: nat, u: nat, a: nat)
    requires a > 0
    ensures var c := (m + u / 255) / a; c * (255 * a) <= 255 * m + u < (c + 1) * (255 * a)
  {
    var h := m + u / 255;
    var c := h / a;
    DivRemainder(h, a);
    assert c * a <= h < (c + 1) * a;
    Reassociate(c, a, 255);
    Reassociate(c + 1, a, 255);
  }

  /** An opaque pixel replaces, and a transparent one keeps, what is visible below it. */
  lemma BlendIdentities(over: Pixel, under: Pixel)
    ensures over.alpha == 255 ==> Blend(over, under) == over
    ensures over.alpha == 0 && under.alpha > 0 ==> Blend(over, under) == under
  {
    hide Channel;
    OpaqueReplaces(under.blue, over.blue, under.alpha);
    OpaqueReplaces(under.green, over.green, under.alpha);
    OpaqueReplaces(under.red, over.red, under.alpha);
    if under.alpha > 0 {
      TransparentShowsThrough(under.blue, over.blue, under.alpha);
      TransparentShowsThrough(under.green, over.green, under.alpha);
      TransparentShowsThrough(under.red, over.red, under.alpha);
    }
  }

  lemma OpaqueReplaces(oldC: byte, newC: byte, oldA: byte)
    ensures Channel(oldC, newC, oldA, 255, 255) == newC
  {
    assert oldC * oldA * 0 == 0;
    DivBounds(newC * 255, 255, newC, newC);
  }

  lemma TransparentShowsThrough(oldC: byte, newC: byte, oldA: byte)
    requires oldA > 0
    ensures Channel(oldC, newC, oldA, 0, oldA) == oldC
  {
    MulLe(0, oldC, oldA);
    var w := oldC * oldA;
    DivBounds(w * 255, 255, w, w);
    DivBounds(w, oldA, oldC, oldC);
  }

  /** A transparent destination takes the colour of the new pixel, whatever its alpha. */
  lemma BlendOverTransparent(over: Pixel, under: Pixel)
    requires under.alpha == 0 && over.alpha > 0
    ensures Blend(over, under) == over
  {
    hide Channel;
    ChannelOverTransparent(under.blue, over.blue, over.alpha);
    ChannelOverTransparent(under.green, over.green, over.alpha);
    ChannelOverTransparent(under.red, over.red, over.alpha);
  }

  lemma ChannelOverTransparent(oldC: byte, newC: byte, newA: byte)
    requires newA > 0
    ensures Channel(oldC, newC, 0, newA, newA) == newC
  {
    DivBounds(newC * newA, newA, newC, newC);
  }

  /**
   The blending macro assigns one byte after the other; the pixels it reads and the pixel it
   writes may be the same in any combination.
   */
  method BlendInto(px: array<Pixel>, o: nat, n: nat, p: nat)
    requires o < px.Length && n < px.Length && p < px.Length
    modifies px
    ensures px[..] == old(px[..])[o := Blend(old(px[n]), old(px[p]))]
  {
    hide Channel, OutAlpha;
    var outA := OutAlpha(px[p].alpha, px[n].alpha);
    if outA != 0 {
      px[o] := px[o].(blue := Channel(px[p].blue, px[n].blue, px[p].alpha, px[n].alpha, outA) % 0x100);
      px[o] := px[o].(green := Channel(px[p].green, px[n].green, px[p].alpha, px[n].alpha, outA) % 0x100);
      px[o] := px[o].(red := Channel(px[p].red, px[n].red, px[p].alpha, px[n].alpha, outA) % 0x100);
    } else {
      px[o] := FromAbgr(0);
    }
    px[o] := px[o].(alpha := outA);
  }

  // ----- Pixel addressing

  /** The index expression, in 32-bit arithmetic. */
  function Index(width: uint32, x: uint32, y: uint32): uint32 {
    (y * width % TWO_32 + x) % TWO_32
  }

  /** Row-major positions of different rows do not overlap. */
  lemma RowMajor(width: nat, height: nat, x: nat, y: nat)
    requires x < width && y < height
    ensures 0 <= y * width && y * width + x < width * height
  {
    MulLe(y + 1, height, width);
    Distribute(y, 1, width);
  }

  /** With less than 2^32 pixels the index neither wraps nor leaves the array. */
  lemma IndexInRange(width: uint32, height: uint32, x: uint32, y: uint32)
    requires width * height < TWO_32 && x < width && y < height
    ensures Index(width, x, y) == y * width + x < width * height
  {
    RowMajor(width, height, x, y);
    var row := y * width;
    ModSmall(row);
    ModSmall(row + x);
  }

  /** Different pixels have different indices. */
  lemma IndexInjective(width: uint32, height: uint32, x: uint32, y: uint32, u: uint32, v: uint32)
    requires width * height < TWO_32 && x < width && u < width && y < height && v < height
    ensures Index(width, x, y) == Index(width, u, v) ==> x == u && y == v
  {
    IndexInRange(width, height, x, y);
    IndexInRange(width, height, u, v);
    if y < v {
      MulLe(y + 1, v, width);
      Distribute(y, 1, width);
    } else if v < y {
      MulLe(v + 1, y, width);
      Distribute(v, 1, width);
    }
  }

  /** Every index belongs to a pixel. */
  lemma IndexSurjective(width: uint32, height: uint32, j: nat) returns (x: uint32, y: uint32)
    requires width * height < TWO_32 && j < width * height
    ensures x < width && y < height && Index(width, x, y) == j
  {
    assert width > 0;
    x, y := j % width, j / width;
    assert y * width + x == j;
    if y >= height {
      MulLe(height, y, width);
    }
    IndexInRange(width, height, x, y);
  }

  class Framebuffer {
    const width: uint32
    const height: uint32
    const pixels: array<Pixel>

    /** Pixel counts beyond 32 bits are not supported. */
    ghost predicate Valid() {
      width * height < TWO_32 && pixels.Length == width * height
    }

    /** A new framebuffer is opaque black. */
    constructor (width: uint32, height: uint32)
      requires width * height < TWO_32
      ensures Valid() && fresh(pixels) && this.width == width && this.height == height
      ensures forall j :: 0 <= j < pixels.Length ==> pixels[j] == Pixel(255, 0, 0, 0)
    {
      var n := width * height;
      var px := new Pixel[n](_ => Pixel(0, 0, 0, 0));
      while n > 0
        invariant 0 <= n <= px.Length
        invariant forall j :: 0 <= j < n ==> px[j] == Pixel(0, 0, 0, 0)
        invariant forall j :: n <= j < px.Length ==> px[j] == Pixel(255, 0, 0, 0)
      {
        n := n - 1;
        px[n] := px[n].(alpha := 0xff);
      }
      this.width, this.height, pixels := width, height, px;
    }

    method SetPixel(x: uint32, y: uint32, p: Pixel)
      requires Valid() && x < width && y < height
      modifies pixels
      ensures Index(width, x, y) < pixels.Length && pixels[..] == old(pixels[..])[Index(width, x, y) := p]
    {
      IndexInRange(width, height, x, y);
      pixels[Index(width, x, y)] := p;
    }

    function GetPixel(x: uint32, y: uint32): (p: Pixel)
      requires Valid() && x < width && y < height
      reads pixels
    {
      IndexInRange(width, height, x, y);
      pixels[Index(width, x, y)]
    }
  }
}
