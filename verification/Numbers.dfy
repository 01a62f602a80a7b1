/** Reading and printing of the decimal and hexadecimal arguments. */
module Numbers {
  import opened Bytes

  /** Value of a decimal token, with 32-bit wrap-around; any byte counts as a digit. */
  function Dec(t: seq<byte>): (v: uint32) {
    if t == [] then 0
    else (Dec(t[..|t| - 1]) * 10 + (Signed(t[|t| - 1]) - 48)) % TWO_32
  }

  /** `c | 0x20` on a signed `char`: sets bit 5. */
  function Lower(c: int): int {
    if c / 32 % 2 == 0 then c + 32 else c
  }

  /** `Lower` is the bitwise `or` for every value of a `char`. */
  lemma LowerIsBitwise(c: bv8)
    ensures Lower(Signed(c as int)) == Signed((c | 0x20) as int)
  {
  }

  /** What one hexadecimal digit adds; bytes that are no digit add something, too. */
  function Nibble(c: byte): int {
    var l := Lower(Signed(c));
    if l >= 97 then l - 97 + 10 else l - 48
  }

  /** Value of a hexadecimal token, with 32-bit wrap-around. */
  function Hex(t: seq<byte>): (v: uint32) {
    if t == [] then 0
    else (Hex(t[..|t| - 1]) * 16 + Nibble(t[|t| - 1])) % TWO_32
  }

  /** Reading one more digit of a token. */
  lemma NextDigit(s: seq<byte>, i: nat, j: nat)
    requires i <= j < |s|
    ensures Dec(s[i..j + 1]) == (Dec(s[i..j]) * 10 + (Signed(s[j]) - 48)) % TWO_32
    ensures Hex(s[i..j + 1]) == (Hex(s[i..j]) * 16 % TWO_32 + Nibble(s[j])) % TWO_32
  {
    var t := s[i..j + 1];
    assert t[..|t| - 1] == s[i..j];
    ModAbsorb(Hex(s[i..j]) * 16, Nibble(s[j]));
  }

  lemma ModAbsorb(a: int, n: int)
    ensures (a % TWO_32 + n) % TWO_32 == (a + n) % TWO_32
  {
    ModShift(a % TWO_32 + n, a / TWO_32);
  }

  lemma ModShift(a: int, k: int)
    ensures (a + TWO_32 * k) % TWO_32 == a % TWO_32
  {
  }

  // ----- What `printf` writes

  function Digit(d: nat): byte
    requires d < 16
  {
    if d < 10 then 48 + d else 97 + (d - 10)
  }

  /** `%u` */
  function Decimal(n: nat): (t: seq<byte>)
    ensures t != []
  {
    if n < 10 then [Digit(n)] else Decimal(n / 10) + [Digit(n % 10)]
  }

  /** The last `digits` hexadecimal digits, with leading zeros: `%06x` for six of them. */
  function HexPadded(n: nat, digits: nat): (t: seq<byte>)
    ensures |t| == digits
  {
    if digits == 0 then [] else HexPadded(n / 16, digits - 1) + [Digit(n % 16)]
  }

  function Power(base: nat, n: nat): nat {
    if n == 0 then 1 else base * Power(base, n - 1)
  }

  lemma {:induction false} DecimalNoWhitespace(n: nat)
    ensures forall k :: 0 <= k < |Decimal(n)| ==> !IsWhitespace(Decimal(n)[k])
  {
    if n >= 10 {
      DecimalNoWhitespace(n / 10);
    }
  }

  lemma {:induction false} HexNoWhitespace(n: nat, digits: nat)
    ensures forall k :: 0 <= k < digits ==> !IsWhitespace(HexPadded(n, digits)[k])
    decreases digits
  {
    if digits > 0 {
      HexNoWhitespace(n / 16, digits - 1);
    }
  }

  /** One digit more, with the wrap-around taken early or late. */
  lemma DigitStep(m: nat, base: nat, d: nat)
    requires base == 10 || base == 16
    ensures (m % TWO_32 * base + d) % TWO_32 == (m * base + d) % TWO_32
  {
    var q, r := m / TWO_32, m % TWO_32;
    assert m * base + d == r * base + d + TWO_32 * (q * base);
    ModShift(r * base + d, q * base);
  }

  /** Reading back a printed number of any size gives that number, wrapped to 32 bits. */
  lemma {:induction false} DecimalRoundTrip(n: nat)
    ensures Dec(Decimal(n)) == n % TWO_32
    decreases n
  {
    var t := Decimal(n);
    if n < 10 {
      assert t[..0] == [];
    } else {
      var h := Decimal(n / 10);
      assert t[..|t| - 1] == h;
      DecimalRoundTrip(n / 10);
      DigitStep(n / 10, 10, n % 10);
    }
  }

  /** Hexadecimal digits may be written in lower or upper case. */
  lemma HexDigitValue(d: nat)
    requires d < 16
    ensures Nibble(Digit(d)) == d
    ensures d >= 10 ==> Nibble(Digit(d) - 32) == d
  {
  }

  /** Reading back `digits` hexadecimal digits gives what fits in them, wrapped to 32 bits. */
  lemma {:induction false} HexRoundTrip(n: nat, digits: nat)
    requires n < Power(16, digits)
    ensures Hex(HexPadded(n, digits)) == n % TWO_32
    decreases digits
  {
    if digits > 0 {
      var t := HexPadded(n, digits);
      assert t[..|t| - 1] == HexPadded(n / 16, digits - 1);
      HexRoundTrip(n / 16, digits - 1);
      HexDigitValue(n % 16);
      DigitStep(n / 16, 16, n % 16);
    }
  }

  /** Two more digits are one more byte. */
  lemma HexByte(m: nat, digits: nat, n: nat)
    requires n < 256
    ensures HexPadded(m * 256 + n, digits + 2) == HexPadded(m, digits) + HexPadded(n, 2)
  {
    var v := m * 256 + n;
    assert v / 16 == m * 16 + n / 16 && v % 16 == n % 16;
    assert v / 16 / 16 == m && v / 16 % 16 == n / 16;
    assert HexPadded(n, 1) == HexPadded(n / 16, 0) + [Digit(n % 16)];
    assert HexPadded(n, 2) == [Digit(n / 16), Digit(n % 16)] by {
      assert HexPadded(n / 16, 1) == HexPadded(n / 16 / 16, 0) + [Digit(n / 16 % 16)];
    }
    assert HexPadded(v, digits + 2) == HexPadded(v / 16, digits + 1) + [Digit(v % 16)];
    assert HexPadded(v / 16, digits + 1) == HexPadded(m, digits) + [Digit(n / 16)];
  }

  /** A single byte counts as the difference to the digit zero, also if it is no digit. */
  lemma AnyByteCounts(c: byte)
    ensures Dec([c]) == (if c < 128 then c - 48 else c - 304) % TWO_32
  {
    assert [c][..0] == [];
  }

  /** A number has at most `d` decimal digits exactly if it is below ten to the `d`. */
  lemma {:induction false} DecimalLength(n: nat, d: nat)
    requires d > 0
    ensures |Decimal(n)| <= d <==> n < Power(10, d)
    decreases n
  {
    if n >= 10 {
      if d > 1 {
        DecimalLength(n / 10, d - 1);
      } else {
        assert Power(10, 1) == 10 * Power(10, 0);
      }
    } else {
      PowerAtLeast(d);
    }
  }

  lemma {:induction false} PowerAtLeast(d: nat)
    requires d > 0
    ensures Power(10, d) >= 10
    decreases d
  {
    if d > 1 {
      PowerAtLeast(d - 1);
    } else {
      assert Power(10, 1) == 10 * Power(10, 0);
    }
  }
}
