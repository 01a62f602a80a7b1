/** A concrete stream, byte by byte. */
module Examples {
  import opened Bytes
  import opened Numbers
  import opened Pixels
  import opened Protocol
  import opened Segmentation
  import opened Grammar
  import opened Streams
  import opened Replies

  /**
   `PX 12 7` with a tab and a carriage return, and `PX 30 5 ff8001`, `SIZE` and `OFFSET 34 6`, each
   with a line feed.
   */
  const QUERY: seq<byte> := [80, 88, 9, 49, 50, 32, 55, 13]
  const DRAW: seq<byte> := [80, 88, 32, 51, 48, 32, 53, 32, 102, 102, 56, 48, 48, 49, 10]
  const MEASURE: seq<byte> := [83, 73, 90, 69, 10]
  const MOVE: seq<byte> := [79, 70, 70, 83, 69, 84, 32, 51, 52, 32, 54, 10]

  ghost predicate Writes(w: Wire, s: seq<byte>, c: Command) {
    w.Valid() && s != [] && !IsWhitespace(s[0]) && w.Bytes() == s && w.Meaning() == c
  }

  lemma QueryIsWritten() returns (w: Wire)
    ensures Writes(w, QUERY, Get(12, 7))
  {
    hide Dec;
    w := GetWire(Pair([9], [49, 50], [32], [55]), [13]);
    TwoDigits(49, 50);
    OneDigit(55);
  }

  /** Red 255, green 128 and blue 1, opaque. */
  lemma DrawIsWritten() returns (w: Wire)
    ensures Writes(w, DRAW, Set(30, 5, Pixel(255, 1, 128, 255)))
  {
    hide Dec, Colour;
    w := SetWire(Pair([32], [51, 48], [32], [53]), [32], [102, 102, 56, 48, 48, 49], [10]);
    TwoDigits(51, 48);
    OneDigit(53);
    ExampleColour();
  }

  lemma MeasureIsWritten() returns (w: Wire)
    ensures Writes(w, MEASURE, Size)
  {
    w := SizeWire([10]);
  }

  lemma MoveIsWritten() returns (w: Wire)
    ensures Writes(w, MOVE, Offset(34, 6))
  {
    hide Dec;
    w := OffsetWire(Pair([32], [51, 52], [32], [54]), [10]);
    TwoDigits(51, 52);
    OneDigit(54);
  }

  lemma TwoDigits(c: byte, d: byte)
    requires 48 <= c < 58 && 48 <= d < 58
    ensures Dec([c, d]) == 10 * (c - 48) + (d - 48)
  {
    hide Dec;
    var t := [c, d];
    AnyByteCounts(c);
    assert t[..1] == [c];
    DecSnoc(t);
  }

  lemma DecSnoc(t: seq<byte>)
    requires t != []
    ensures Dec(t) == (Dec(t[..|t| - 1]) * 10 + (Signed(t[|t| - 1]) - 48)) % TWO_32
  {
  }

  lemma ExampleColour()
    ensures Colour([102, 102, 56, 48, 48, 49]) == Pixel(255, 1, 128, 255)
  {
    hide Colour;
    TwoHexDigits(255);
    TwoHexDigits(128);
    TwoHexDigits(1);
    assert RedGreenBlue(255, 128, 1) == [102, 102, 56, 48, 48, 49];
    SixDigitColour(255, 128, 1);
  }

  lemma TwoHexDigits(n: nat)
    requires n < 256
    ensures HexPadded(n, 2) == [Digit(n / 16), Digit(n % 16)]
  {
    assert HexPadded(n / 16, 1) == HexPadded(n / 16 / 16, 0) + [Digit(n / 16 % 16)];
  }

  /** Bytes that write a command, in front of other bytes. */
  lemma RunWritten(w: Wire, s: seq<byte>, c: Command, part: seq<byte>)
    requires Writes(w, s, c) && !c.Unknown? && (part == [] || !IsWhitespace(part[0]))
    ensures Run(s + part) == Run(part).(cmds := [c] + Run(part).cmds)
  {
    hide Run, Wire.Bytes, Wire.Valid, Wire.Meaning;
    FirstWire(w, part);
  }

  /** The stream means what it says: every keyword, both orders of arguments, digits and channels. */
  lemma ExampleIsParsed()
    ensures Run(QUERY + (DRAW + (MEASURE + (MOVE + []))))
         == Result([Get(12, 7), Set(30, 5, Pixel(255, 1, 128, 255)), Size, Offset(34, 6)], Waiting, [])
  {
    hide Run, Writes;
    var query := QueryIsWritten();
    var draw := DrawIsWritten();
    var measure := MeasureIsWritten();
    var move := MoveIsWritten();
    RunWritten(move, MOVE, Offset(34, 6), []);
    RunWritten(measure, MEASURE, Size, MOVE + []);
    RunWritten(draw, DRAW, Set(30, 5, Pixel(255, 1, 128, 255)), MEASURE + (MOVE + []));
    RunWritten(query, QUERY, Get(12, 7), DRAW + (MEASURE + (MOVE + [])));
    RunNothing();
  }
}
