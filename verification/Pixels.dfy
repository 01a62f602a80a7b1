/** Pixel layout: `abgr` is a little-endian view of the bytes alpha, blue, green, red. */
module Pixels {
  import opened Bytes

  datatype Pixel = Pixel(alpha: byte, blue: byte, green: byte, red: byte) {

    /** The pixel as one 32-bit number; the alpha byte comes first in memory. */
    function Abgr(): (v: uint32) {
      alpha + 0x100 * blue + 0x1_0000 * green + 0x100_0000 * red
    }
  }

  /** The pixel whose four bytes a store to `abgr` writes. */
  function FromAbgr(v: uint32): (p: Pixel) {
    Pixel(v % 0x100, v / 0x100 % 0x100, v / 0x1_0000 % 0x100, v / 0x100_0000)
  }

  /** The two views of a pixel describe the same four bytes. */
  lemma AbgrRoundTrip(p: Pixel)
    ensures FromAbgr(p.Abgr()) == p
  {
    var v := p.Abgr();
    assert v / 0x100 == p.blue + 0x100 * p.green + 0x1_0000 * p.red;
    assert v / 0x1_0000 == p.green + 0x100 * p.red;
    assert v / 0x100_0000 == p.red;
  }

  /** Which byte of a stored number becomes which channel: alpha is the lowest, red the highest. */
  lemma ChannelsOfAbgr(v: uint32)
    ensures var p := FromAbgr(v); p.alpha + 0x100 * p.blue + 0x1_0000 * p.green + 0x100_0000 * p.red == v
  {
    var a, b := v / 0x100, v / 0x1_0000;
    assert v == v % 0x100 + 0x100 * a && a == a % 0x100 + 0x100 * b && b == b % 0x100 + 0x100 * (v / 0x100_0000);
  }
}
