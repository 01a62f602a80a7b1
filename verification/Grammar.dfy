/**
 An independent description of the command language: how a client writes each command.  The
 parse loop accepts exactly these byte sequences.
 */
module Grammar {
  import opened Bytes
  import opened Numbers
  import opened Protocol
  import opened Segmentation

  /** A nonempty run of whitespace. */
  ghost predicate Separator(s: seq<byte>) {
    s != [] && forall k :: 0 <= k < |s| ==> IsWhitespace(s[k])
  }

  /** A token that the whitespace search accepts. */
  ghost predicate Word(s: seq<byte>) {
    |s| <= MAX_TOKEN && forall k :: 0 <= k < |s| ==> !IsWhitespace(s[k])
  }

  ghost predicate Argument(s: seq<byte>) {
    s != [] && Word(s)
  }

  /** The arguments of a command: a separator before each and one after the last. */
  datatype Pair = Pair(sep: seq<byte>, x: seq<byte>, mid: seq<byte>, y: seq<byte>) {
    ghost predicate Valid() {
      Separator(sep) && Argument(x) && Separator(mid) && Argument(y)
    }
    ghost function Bytes(): seq<byte> {
      sep + x + mid + y
    }
  }

  datatype Wire =
    | GetWire(at: Pair, end: seq<byte>)
    | SetWire(at: Pair, gap: seq<byte>, colour: seq<byte>, end: seq<byte>)
    | SizeWire(end: seq<byte>)
    | OffsetWire(at: Pair, end: seq<byte>)
    | JunkWire(word: seq<byte>, end: seq<byte>)
  {
    /** Only the last byte of the whitespace after Y tells a get from a set. */
    ghost predicate Valid() {
      match this
      case GetWire(at, end) => at.Valid() && Separator(end) && IsNewline(end[|end| - 1])
      case SetWire(at, gap, colour, end) =>
        && at.Valid() && Separator(gap) && !IsNewline(gap[|gap| - 1])
        && Argument(colour) && Separator(end)
      case SizeWire(end) => end == [] || Separator(end)
      case OffsetWire(at, end) => at.Valid() && Separator(end)
      case JunkWire(word, end) =>
        && Word(word) && Separator(end)
        && !StartsWith(word, PX) && !StartsWith(word, SIZE) && !StartsWith(word, OFFSET)
    }

    ghost function Bytes(): seq<byte> {
      match this
      case GetWire(at, end) => PX + at.Bytes() + end
      case SetWire(at, gap, colour, end) => PX + at.Bytes() + (gap + colour + end)
      case SizeWire(end) => SIZE + end
      case OffsetWire(at, end) => OFFSET + at.Bytes() + end
      case JunkWire(word, end) => word + end
    }

    ghost function Meaning(): Command {
      match this
      case GetWire(at, _) => Get(Dec(at.x), Dec(at.y))
      case SetWire(at, _, colour, _) => Set(Dec(at.x), Dec(at.y), Colour(colour))
      case SizeWire(_) => Size
      case OffsetWire(at, _) => Offset(Dec(at.x), Dec(at.y))
      case JunkWire(_, _) => Unknown
    }
  }

  // ----- What a client writes is accepted

  /** `part` stands in `s` at position `i`. */
  ghost predicate At(s: seq<byte>, i: nat, part: seq<byte>) {
    i + |part| <= |s| && forall k :: i <= k < i + |part| ==> s[k] == part[k - i]
  }

  lemma WsEndAt(s: seq<byte>, i: nat, sep: seq<byte>)
    requires At(s, i, sep) && forall k :: 0 <= k < |sep| ==> IsWhitespace(sep[k])
    ensures WsEnd(s, i) == WsEnd(s, i + |sep|)
  {
    WsEndFrom(s, i, i + |sep|);
  }

  lemma {:induction false} TokEndAt(s: seq<byte>, i: nat, tok: seq<byte>)
    requires At(s, i, tok) && Word(tok)
    requires i + |tok| == |s| || IsWhitespace(s[i + |tok|])
    ensures TokEnd(s, i) == i + |tok|
    decreases |tok|
  {
    if tok != [] {
      TokEndAt(s, i + 1, tok[1..]);
    }
  }

  lemma ArgAt(s: seq<byte>, i: nat, sep: seq<byte>, tok: seq<byte>)
    requires Separator(sep) && Argument(tok)
    requires At(s, i, sep) && At(s, i + |sep|, tok)
    requires i + |sep| + |tok| < |s| && IsWhitespace(s[i + |sep| + |tok|])
    ensures Arg(s, i) == Found(i + |sep|, i + |sep| + |tok|)
    ensures s[i + |sep|..i + |sep| + |tok|] == tok
  {
    hide WsEnd, TokEnd;
    WsEndAt(s, i, sep);
    TokEndAt(s, i + |sep|, tok);
    WsEndHere(s, i + |sep|);
  }

  lemma WsEndHere(s: seq<byte>, i: nat)
    requires i == |s| || (i < |s| && !IsWhitespace(s[i]))
    ensures WsEnd(s, i) == i
  {
  }

  lemma FirstByte(s: seq<byte>, i: nat, sep: seq<byte>)
    requires At(s, i, sep) && Separator(sep)
    ensures i < |s| && IsWhitespace(s[i])
  {
    assert s[i] == sep[0];
  }

  lemma PairParts(p: Pair)
    ensures At(p.Bytes(), 0, p.sep)
    ensures At(p.Bytes(), |p.sep|, p.x)
    ensures At(p.Bytes(), |p.sep| + |p.x|, p.mid)
    ensures At(p.Bytes(), |p.sep| + |p.x| + |p.mid|, p.y)
    ensures |p.Bytes()| == |p.sep| + |p.x| + |p.mid| + |p.y|
  {
  }

  lemma PairPartsAt(s: seq<byte>, i: nat, p: Pair)
    requires At(s, i, p.Bytes())
    ensures At(s, i, p.sep) && At(s, i + |p.sep|, p.x)
    ensures At(s, i + |p.sep| + |p.x|, p.mid) && At(s, i + |p.sep| + |p.x| + |p.mid|, p.y)
    ensures |p.Bytes()| == |p.sep| + |p.x| + |p.mid| + |p.y|
  {
    hide Pair.Bytes, At;
    var b := p.Bytes();
    PairParts(p);
    AtPart(s, i, b, 0, p.sep);
    AtPart(s, i, b, |p.sep|, p.x);
    AtPart(s, i, b, |p.sep| + |p.x|, p.mid);
    AtPart(s, i, b, |p.sep| + |p.x| + |p.mid|, p.y);
  }

  lemma PairAt(s: seq<byte>, i: nat, p: Pair)
    requires p.Valid() && At(s, i, p.Bytes())
    requires i + |p.Bytes()| < |s| && IsWhitespace(s[i + |p.Bytes()|])
    ensures TwoArgs(s, i) == Both(Dec(p.x), Dec(p.y), i + |p.Bytes()|)
  {
    hide WsEnd, TokEnd, Arg, Pair.Bytes, At, Separator, Argument;
    PairPartsAt(s, i, p);
    FirstByte(s, i + |p.sep| + |p.x|, p.mid);
    ArgAt(s, i, p.sep, p.x);
    ArgAt(s, i + |p.sep| + |p.x|, p.mid, p.y);
  }

  /** A keyword, two arguments and more, beginning with whitespace. */
  lemma PairAfter(keyword: seq<byte>, p: Pair, more: seq<byte>)
    requires p.Valid() && more != [] && IsWhitespace(more[0])
    ensures
      var s, e := keyword + p.Bytes() + more, |keyword| + |p.Bytes()|;
      && StartsWith(s, keyword) && TwoArgs(s, |keyword|) == Both(Dec(p.x), Dec(p.y), e)
      && At(s, e, more) && |s| == e + |more|
  {
    hide TwoArgs, Pair.Bytes;
    var s := keyword + p.Bytes() + more;
    assert s[..|keyword|] == keyword;
    assert s[|keyword| + |p.Bytes()|] == more[0];
    PairAt(s, |keyword|, p);
  }

  /** A part of a part. */
  lemma AtPart(s: seq<byte>, i: nat, b: seq<byte>, j: nat, part: seq<byte>)
    requires At(s, i, b) && At(b, j, part)
    ensures At(s, i + j, part)
  {
    forall k | i + j <= k < i + j + |part| ensures s[k] == part[k - (i + j)] {
      assert s[k] == b[k - i];
    }
  }

  /** Every valid wire form is consumed by one pass and means what it should. */
  lemma WireAccepted(w: Wire)
    requires w.Valid()
    ensures w.Bytes() != [] && Step(w.Bytes()) == Done(w.Meaning(), |w.Bytes()|)
  {
    hide StepPx, StepOffset, StepUnknown, WsEnd, Pair.Bytes;
    var s := w.Bytes();
    match w
    case GetWire(at, end) => GetAccepted(at, end);
    case SetWire(at, gap, colour, end) => SetAccepted(at, gap, colour, end);
    case SizeWire(end) =>
      assert s[..4] == SIZE && s[..2] == [83, 73];
      WsEndAt(s, 4, end);
    case OffsetWire(at, end) => OffsetAccepted(at, end);
    case JunkWire(word, end) => JunkAccepted(word, end);
  }

  lemma GetAccepted(at: Pair, end: seq<byte>)
    requires GetWire(at, end).Valid()
    ensures
      var s := GetWire(at, end).Bytes();
      StartsWith(s, PX) && StepPx(s) == Done(Get(Dec(at.x), Dec(at.y)), |s|)
  {
    hide WsEnd, TwoArgs, Arg, Colour, Pair.Bytes, Pair.Valid, StartsWith;
    var s, e := GetWire(at, end).Bytes(), 2 + |at.Bytes()|;
    PairAfter(PX, at, end);
    WsEndAt(s, e, end);
    assert s[e + |end| - 1] == end[|end| - 1];
  }

  lemma SetAccepted(at: Pair, gap: seq<byte>, colour: seq<byte>, end: seq<byte>)
    requires SetWire(at, gap, colour, end).Valid()
    ensures
      var s := SetWire(at, gap, colour, end).Bytes();
      StartsWith(s, PX) && StepPx(s) == Done(Set(Dec(at.x), Dec(at.y), Colour(colour)), |s|)
  {
    hide WsEnd, TwoArgs, Arg, Colour, Pair.Bytes, Pair.Valid, StartsWith;
    var s, g := SetWire(at, gap, colour, end).Bytes(), 2 + |at.Bytes()|;
    PairAfter(PX, at, gap + colour + end);
    ColourAt(s, g, gap, colour, end);
  }

  lemma ColourAt(s: seq<byte>, g: nat, gap: seq<byte>, colour: seq<byte>, end: seq<byte>)
    requires Separator(gap) && Argument(colour) && Separator(end)
    requires At(s, g, gap + colour + end) && |s| == g + |gap| + |colour| + |end|
    ensures
      var f := Arg(s, g);
      && f.Found? && s[f.start..f.end] == colour && WsEnd(s, f.end) == |s|
      && WsEnd(s, g) == g + |gap| && s[g + |gap| - 1] == gap[|gap| - 1]
  {
    hide WsEnd, Arg;
    var more, c := gap + colour + end, g + |gap|;
    assert At(more, 0, gap) && At(more, |gap|, colour) && At(more, |gap| + |colour|, end);
    AtPart(s, g, more, 0, gap);
    AtPart(s, g, more, |gap|, colour);
    AtPart(s, g, more, |gap| + |colour|, end);
    assert s[c] == colour[0] && s[c + |colour|] == end[0];
    WsEndAt(s, g, gap);
    ArgAt(s, g, gap, colour);
    WsEndAt(s, c + |colour|, end);
    WsEndHere(s, c);
  }

  lemma OffsetAccepted(at: Pair, end: seq<byte>)
    requires OffsetWire(at, end).Valid()
    ensures
      var s := OffsetWire(at, end).Bytes();
      && StartsWith(s, OFFSET) && !StartsWith(s, PX) && !StartsWith(s, SIZE)
      && StepOffset(s) == Done(Offset(Dec(at.x), Dec(at.y)), |s|)
  {
    hide WsEnd, TwoArgs, Pair.Bytes, Pair.Valid;
    var s := OffsetWire(at, end).Bytes();
    PairAfter(OFFSET, at, end);
    assert s[0] == s[..6][0] == 79 && s[..2][0] == 79 && s[..4][0] == 79;
    WsEndAt(s, 6 + |at.Bytes()|, end);
  }

  lemma JunkAccepted(word: seq<byte>, end: seq<byte>)
    requires JunkWire(word, end).Valid()
    ensures
      var s := JunkWire(word, end).Bytes();
      && !StartsWith(s, PX) && !StartsWith(s, SIZE) && !StartsWith(s, OFFSET)
      && StepUnknown(s) == Done(Unknown, |s|)
  {
    hide WsEnd, TokEnd, StartsWith;
    var s := word + end;
    assert s[|word|] == end[0];
    assert At(s, 0, word) && At(s, |word|, end);
    TokEndAt(s, 0, word);
    WsEndAt(s, |word|, end);
    KeywordInWord(word, end, PX);
    KeywordInWord(word, end, SIZE);
    KeywordInWord(word, end, OFFSET);
  }

  lemma KeywordInWord(word: seq<byte>, end: seq<byte>, keyword: seq<byte>)
    requires Separator(end) && forall k :: 0 <= k < |keyword| ==> !IsWhitespace(keyword[k])
    ensures StartsWith(word + end, keyword) <==> StartsWith(word, keyword)
  {
    var s := word + end;
    if |keyword| <= |word| {
      assert s[..|keyword|] == word[..|keyword|];
    } else {
      assert s[|word|] != keyword[|word|];
    }
  }

  // ----- Only what a client may write is accepted

  lemma SepSlice(s: seq<byte>, i: nat)
    requires i <= |s|
    ensures WsEnd(s, i) > i ==> Separator(s[i..WsEnd(s, i)])
  {
  }

  lemma ArgSlices(s: seq<byte>, i: nat)
    requires i <= |s| && Arg(s, i).Found?
    ensures var f := Arg(s, i); Separator(s[i..f.start]) && Argument(s[f.start..f.end])
  {
  }

  lemma PairSlices(s: seq<byte>, i: nat) returns (p: Pair)
    requires i <= |s| && TwoArgs(s, i).Both?
    ensures p.Valid() && p.Bytes() == s[i..TwoArgs(s, i).end]
    ensures TwoArgs(s, i) == Both(Dec(p.x), Dec(p.y), TwoArgs(s, i).end)
  {
    hide Arg;
    var fx := Arg(s, i);
    var fy := Arg(s, fx.end);
    ArgSlices(s, i);
    ArgSlices(s, fx.end);
    p := Pair(s[i..fx.start], s[fx.start..fx.end], s[fx.end..fy.start], s[fy.start..fy.end]);
    assert p.sep + p.x == s[i..fx.end];
    assert s[i..fx.end] + p.mid == s[i..fy.start];
    assert s[i..fy.start] + p.y == s[i..fy.end];
  }

  lemma Splice(s: seq<byte>, keyword: seq<byte>, j: nat, k: nat)
    requires StartsWith(s, keyword) && |keyword| <= j <= k <= |s|
    ensures keyword + s[|keyword|..j] + s[j..k] == s[..k]
  {
    assert s[..|keyword|] + s[|keyword|..j] == s[..j];
    assert s[..j] + s[j..k] == s[..k];
  }

  /** Whatever one completed pass consumed has a valid wire form with that meaning. */
  lemma AcceptedIsWire(s: seq<byte>) returns (w: Wire)
    requires s != [] && Step(s).Done?
    ensures w.Valid() && w.Bytes() == s[..Step(s).used] && w.Meaning() == Step(s).cmd
  {
    hide StepPx, StepUnknown, WsEnd, TwoArgs, Pair.Valid, Pair.Bytes;
    var u := Step(s).used;
    if StartsWith(s, PX) {
      w := PxIsWire(s);
    } else if StartsWith(s, SIZE) {
      SepSlice(s, 4);
      w := SizeWire(s[4..u]);
      Splice(s, SIZE, 4, u);
    } else if StartsWith(s, OFFSET) {
      var at := PairSlices(s, 6);
      SepSlice(s, TwoArgs(s, 6).end);
      w := OffsetWire(at, s[TwoArgs(s, 6).end..u]);
      Splice(s, OFFSET, TwoArgs(s, 6).end, u);
    } else {
      w := JunkIsWire(s);
    }
  }

  lemma PxIsWire(s: seq<byte>) returns (w: Wire)
    requires StartsWith(s, PX) && StepPx(s).Done?
    ensures w.Valid() && w.Bytes() == s[..StepPx(s).used] && w.Meaning() == StepPx(s).cmd
  {
    hide WsEnd, TokEnd, TwoArgs, Arg, Pair.Valid, Pair.Bytes, Colour;
    var u, e := StepPx(s).used, TwoArgs(s, 2).end;
    var at := PairSlices(s, 2);
    SepSlice(s, e);
    var g := WsEnd(s, e);
    if IsNewline(s[g - 1]) {
      w := GetWire(at, s[e..u]);
      Splice(s, PX, e, u);
    } else {
      w := ColourIsWire(s, at, e);
      Splice(s, PX, e, u);
    }
  }

  lemma ColourIsWire(s: seq<byte>, at: Pair, e: nat) returns (w: Wire)
    requires at.Valid() && e <= |s| && WsEnd(s, e) > e && !IsNewline(s[WsEnd(s, e) - 1])
    requires Arg(s, e).Found?
    ensures w.Valid() && w.SetWire? && w.at == at
    ensures w.gap + w.colour + w.end == s[e..WsEnd(s, Arg(s, e).end)]
    ensures w.colour == s[Arg(s, e).start..Arg(s, e).end]
  {
    hide WsEnd, TokEnd, Arg, Pair.Valid, Argument;
    var g, f := WsEnd(s, e), Arg(s, e);
    var u := WsEnd(s, f.end);
    ArgSlices(s, e);
    ArgStart(s, e);
    SepSlice(s, e);
    SepSlice(s, f.end);
    w := SetWire(at, s[e..g], s[g..f.end], s[f.end..u]);
    SpliceThree(s, e, g, f.end, u);
  }

  lemma SpliceThree(s: seq<byte>, a: nat, b: nat, c: nat, d: nat)
    requires a <= b <= c <= d <= |s|
    ensures s[a..b] + s[b..c] + s[c..d] == s[a..d]
  {
    assert s[a..b] + s[b..c] == s[a..c];
  }

  lemma JunkIsWire(s: seq<byte>) returns (w: Wire)
    requires s != [] && StepUnknown(s).Done?
    requires !StartsWith(s, PX) && !StartsWith(s, SIZE) && !StartsWith(s, OFFSET)
    ensures w.Valid() && w.Bytes() == s[..StepUnknown(s).used] && w.Meaning().Unknown?
  {
    hide WsEnd, TokEnd, StartsWith;
    var b, u := TokEnd(s, 0), StepUnknown(s).used;
    w := JunkWire(s[..b], s[b..u]);
    SepSlice(s, b);
    assert u > b;
    assert s[..b] + s[b..u] == s[..u];
    KeywordPrefix(s, b, PX);
    KeywordPrefix(s, b, SIZE);
    KeywordPrefix(s, b, OFFSET);
  }

  lemma KeywordPrefix(s: seq<byte>, b: nat, keyword: seq<byte>)
    requires b <= |s|
    ensures StartsWith(s[..b], keyword) ==> StartsWith(s, keyword)
  {
    if |keyword| <= b {
      assert s[..b][..|keyword|] == s[..|keyword|];
    }
  }

  /**
   Main result: one pass executes `c` and consumes `n` bytes if and only if these bytes are a
   valid wire form of `c` and no further whitespace follows.
   */
  lemma StepIsGrammar(s: seq<byte>, c: Command, n: nat)
    requires s != []
    ensures Step(s) == Done(c, n) <==>
      && n <= |s| && (n < |s| ==> !IsWhitespace(s[n]))
      && exists w: Wire :: w.Valid() && w.Bytes() == s[..n] && w.Meaning() == c
  {
    hide Step, Ambiguous, Wire.Valid, Wire.Bytes, Wire.Meaning, WsEnd;
    if Step(s) == Done(c, n) {
      var w := AcceptedIsWire(s);
      assert w.Valid();
    }
    if n <= |s| && (n < |s| ==> !IsWhitespace(s[n])) {
      forall w: Wire | w.Valid() && w.Bytes() == s[..n] && w.Meaning() == c
        ensures Step(s) == Done(c, n)
      {
        WireAccepted(w);
        assert forall k :: 0 <= k < n ==> s[k] == s[..n][k];
        StepLocal(w.Bytes(), s);
        WsEndHere(s, n);
      }
    }
  }
}
