/**
 Where the stream is cut into reads must not matter.  It does matter for one shape of `PX`
 command; `SegmentationIndependent` shows that this shape is the only exception.
 */
module Segmentation {
  import opened Bytes
  import opened Protocol

  /**
   `s` begins with a `PX` command whose whitespace after the Y coordinate contains a newline but
   ends with a space or a tab.
   */
  ghost predicate Ambiguous(s: seq<byte>) {
    StartsWith(s, PX) && TwoArgs(s, |PX|).Both? &&
    var y := TwoArgs(s, |PX|).end;
    var w := WsEnd(s, y);
    !IsNewline(s[w - 1]) && exists k :: y <= k < w && IsNewline(s[k])
  }

  /** No command that the loop meets in `s` is ambiguous. */
  ghost predicate Unambiguous(s: seq<byte>)
    decreases |s|
  {
    s == [] ||
    (!Ambiguous(s) && (Step(s).Done? ==> Unambiguous(s[Step(s).used..])))
  }

  /** No newline byte is directly followed by a space or a tab. */
  ghost predicate NoNewlineGap(s: seq<byte>) {
    forall k :: 0 < k < |s| && IsNewline(s[k - 1]) && IsWhitespace(s[k]) ==> IsNewline(s[k])
  }

  // ----- How one pass depends on the bytes it sees

  lemma ArgAgree(s: seq<byte>, t: seq<byte>, n: nat, i: nat)
    requires Agree(s, t, n) && i <= n
    requires Arg(s, i).Found? && Arg(s, i).end < n
    ensures Arg(t, i) == Arg(s, i)
  {
    WsEndAgree(s, t, n, i);
    TokEndAgree(s, t, n, WsEnd(s, i));
  }

  lemma TwoArgsAgree(s: seq<byte>, t: seq<byte>, n: nat, i: nat)
    requires Agree(s, t, n) && i <= n
    requires TwoArgs(s, i).Both? && TwoArgs(s, i).end < n
    ensures TwoArgs(t, i) == TwoArgs(s, i)
  {
    var fx := Arg(s, i);
    var fy := Arg(s, fx.end);
    ArgAgree(s, t, n, i);
    ArgAgree(s, t, n, fx.end);
    assert t[fx.start..fx.end] == s[fx.start..fx.end];
    assert t[fy.start..fy.end] == s[fy.start..fy.end];
  }

  lemma KeywordAgree(s: seq<byte>, t: seq<byte>, n: nat, keyword: seq<byte>)
    requires Agree(s, t, n) && |keyword| <= n
    ensures StartsWith(s, keyword) == StartsWith(t, keyword)
  {
    assert s[..|keyword|] == t[..|keyword|];
  }

  /** A keyword contains no whitespace, so whitespace at `b` decides the match. */
  lemma NoKeyword(s: seq<byte>, t: seq<byte>, b: nat, keyword: seq<byte>)
    requires b < |s| && Agree(s, t, b + 1) && IsWhitespace(s[b])
    requires forall k :: 0 <= k < |keyword| ==> !IsWhitespace(keyword[k])
    requires !StartsWith(s, keyword)
    ensures !StartsWith(t, keyword)
  {
    if |keyword| <= b {
      KeywordAgree(s, t, b + 1, keyword);
    } else {
      assert keyword[b] != t[b];
    }
  }

  /**
   A completed pass depends only on the bytes it used: any stream that begins with them makes
   the same step, and then skips whatever whitespace follows.
   */
  lemma StepLocal(s: seq<byte>, t: seq<byte>)
    requires s != [] && t != [] && Step(s).Done?
    requires Agree(s, t, Step(s).used)
    requires Ambiguous(t) ==> Step(s).used == |t| || !IsWhitespace(t[Step(s).used])
    ensures Step(t) == Done(Step(s).cmd, WsEnd(t, Step(s).used))
  {
    hide WsEnd, StepPx, StepOffset, StepUnknown, Ambiguous;
    var u := Step(s).used;
    if StartsWith(s, PX) {
      StepLocalPx(s, t);
      KeywordAgree(s, t, u, PX);
    } else if StartsWith(s, SIZE) {
      KeywordAgree(s, t, u, PX);
      KeywordAgree(s, t, u, SIZE);
      WsEndFrom(t, 4, u);
    } else if StartsWith(s, OFFSET) {
      KeywordAgree(s, t, u, PX);
      KeywordAgree(s, t, u, SIZE);
      KeywordAgree(s, t, u, OFFSET);
      StepLocalOffset(s, t);
    } else {
      StepLocalUnknown(s, t);
    }
  }

  lemma StepLocalPx(s: seq<byte>, t: seq<byte>)
    requires StartsWith(s, PX) && StepPx(s).Done?
    requires Agree(s, t, StepPx(s).used)
    requires Ambiguous(t) ==> StepPx(s).used == |t| || !IsWhitespace(t[StepPx(s).used])
    ensures StartsWith(t, PX)
    ensures StepPx(t) == Done(StepPx(s).cmd, WsEnd(t, StepPx(s).used))
  {
    hide WsEnd, TokEnd, TwoArgs, Arg, Colour, StartsWith;
    var u := StepPx(s).used;
    KeywordAgree(s, t, u, PX);
    var p := TwoArgs(s, |PX|);
    TwoArgsAgree(s, t, u, |PX|);
    var w := WsEnd(s, p.end);
    if IsNewline(s[w - 1]) {
      WsEndFrom(t, p.end, u);
      assert IsNewline(t[u - 1]);
      assert !IsNewline(t[WsEnd(t, p.end) - 1]) ==> Ambiguous(t);
    } else {
      hide Ambiguous;
      ColourLocal(s, t, u, p.end);
    }
  }

  lemma ColourLocal(s: seq<byte>, t: seq<byte>, u: nat, i: nat)
    requires Agree(s, t, u) && i <= u && Arg(s, i).Found? && u == WsEnd(s, Arg(s, i).end)
    ensures WsEnd(t, i) == WsEnd(s, i) < u && Arg(t, i) == Arg(s, i)
    ensures t[Arg(s, i).start..Arg(s, i).end] == s[Arg(s, i).start..Arg(s, i).end]
    ensures WsEnd(t, Arg(s, i).end) == WsEnd(t, u)
  {
    hide WsEnd, TokEnd, Arg;
    var f := Arg(s, i);
    ArgStart(s, i);
    WsEndAgree(s, t, u, i);
    ArgAgree(s, t, u, i);
    WsEndFrom(t, f.end, u);
  }

  lemma ArgStart(s: seq<byte>, i: nat)
    requires i <= |s| && Arg(s, i).Found?
    ensures Arg(s, i).start == WsEnd(s, i)
  {
  }

  lemma StepLocalOffset(s: seq<byte>, t: seq<byte>)
    requires StartsWith(s, OFFSET) && StartsWith(t, OFFSET) && StepOffset(s).Done?
    requires Agree(s, t, StepOffset(s).used)
    ensures StepOffset(t) == Done(StepOffset(s).cmd, WsEnd(t, StepOffset(s).used))
  {
    var u := StepOffset(s).used;
    TwoArgsAgree(s, t, u, |OFFSET|);
    WsEndFrom(t, TwoArgs(s, |OFFSET|).end, u);
  }

  lemma StepLocalUnknown(s: seq<byte>, t: seq<byte>)
    requires s != [] && !StartsWith(s, PX) && !StartsWith(s, SIZE) && !StartsWith(s, OFFSET)
    requires t != [] && StepUnknown(s).Done?
    requires Agree(s, t, StepUnknown(s).used)
    ensures !StartsWith(t, PX) && !StartsWith(t, SIZE) && !StartsWith(t, OFFSET)
    ensures StepUnknown(t) == Done(Unknown, WsEnd(t, StepUnknown(s).used))
  {
    var b, u := TokEnd(s, 0), StepUnknown(s).used;
    TokEndAgree(s, t, u, 0);
    NoKeyword(s, t, b, PX);
    NoKeyword(s, t, b, SIZE);
    NoKeyword(s, t, b, OFFSET);
    WsEndFrom(t, b, u);
  }

  lemma ArgExtend(s: seq<byte>, t: seq<byte>, i: nat)
    requires i <= |s| && !Arg(s, i).Missing?
    ensures Arg(s + t, i) == Arg(s, i)
  {
    var st := s + t;
    var a := WsEnd(s, i);
    WsEndFrom(st, i, a);
    if a > i {
      TokEndExtend(s, t, a);
    }
  }

  lemma {:induction false} TokEndExtend(s: seq<byte>, t: seq<byte>, i: nat)
    requires i <= |s|
    ensures TokEnd(s + t, i) >= TokEnd(s, i)
    ensures TokEnd(s, i) < |s| ==> TokEnd(s + t, i) == TokEnd(s, i)
    decreases |s| - i
  {
    if i < |s| && !IsWhitespace(s[i]) {
      TokEndExtend(s, t, i + 1);
    }
  }

  lemma TwoArgsExtend(s: seq<byte>, t: seq<byte>, i: nat)
    requires i <= |s|
    requires TwoArgs(s, i).Both? || TwoArgs(s, i).o.Stuck?
    ensures TwoArgs(s + t, i) == TwoArgs(s, i)
  {
    var st, fx := s + t, Arg(s, i);
    ArgExtend(s, t, i);
    if fx.Found? {
      ArgExtend(s, t, fx.end);
      var fy := Arg(s, fx.end);
      assert st[fx.start..fx.end] == s[fx.start..fx.end];
      if fy.Found? {
        assert st[fy.start..fy.end] == s[fy.start..fy.end];
      }
    }
  }

  /** A stuck or aborted pass stays so whatever arrives later. */
  lemma StopsForGood(s: seq<byte>, t: seq<byte>)
    requires s != [] && (Step(s).Stuck? || Step(s).Abort?)
    ensures Step(s + t) == Step(s)
  {
    hide StepPx, StepOffset, StartsWith;
    var st := s + t;
    if |OFFSET| <= |s| || StartsWith(s, PX) || StartsWith(s, SIZE) {
      KeywordsExtend(s, t);
    }
    if StartsWith(s, PX) {
      StuckPx(s, t);
    } else if StartsWith(s, OFFSET) {
      StuckOffset(s, t);
    } else {
      TokEndExtend(s, t, 0);
    }
  }

  /** With six bytes at hand every keyword is decided, and a keyword once seen stays. */
  lemma KeywordsExtend(s: seq<byte>, t: seq<byte>)
    requires |s| >= |OFFSET| || StartsWith(s, PX) || StartsWith(s, SIZE)
    ensures StartsWith(s + t, PX) == StartsWith(s, PX)
    ensures StartsWith(s, PX) || StartsWith(s + t, SIZE) == StartsWith(s, SIZE)
    ensures StartsWith(s, PX) || StartsWith(s, SIZE) || StartsWith(s + t, OFFSET) == StartsWith(s, OFFSET)
  {
    KeywordAgree(s, s + t, |s|, PX);
    if |s| >= |SIZE| {
      KeywordAgree(s, s + t, |s|, SIZE);
    }
    if |s| >= |OFFSET| {
      KeywordAgree(s, s + t, |s|, OFFSET);
    }
  }

  lemma StuckOffset(s: seq<byte>, t: seq<byte>)
    requires StartsWith(s, OFFSET) && StepOffset(s).Stuck? && StartsWith(s + t, OFFSET)
    ensures StepOffset(s + t).Stuck?
  {
    TwoArgsExtend(s, t, |OFFSET|);
  }

  lemma StuckPx(s: seq<byte>, t: seq<byte>)
    requires StartsWith(s, PX) && StepPx(s).Stuck? && StartsWith(s + t, PX)
    ensures StepPx(s + t).Stuck?
  {
    hide TwoArgs, TokEnd;
    var p := TwoArgs(s, |PX|);
    TwoArgsExtend(s, t, |PX|);
    if p.Both? {
      ArgExtend(s, t, p.end);
      WsEndAgree(s, s + t, |s|, p.end);
    }
  }

  /** Where the command of a pass ends before the end of `s`, further bytes do not matter. */
  lemma AmbiguousExtend(s: seq<byte>, t: seq<byte>)
    requires StartsWith(s, PX) && (StepPx(s).Stuck? || (StepPx(s).Done? && StepPx(s).used < |s|))
    ensures Ambiguous(s + t) == Ambiguous(s)
  {
    hide TwoArgs, TokEnd, WsEnd;
    var p := TwoArgs(s, |PX|);
    KeywordAgree(s, s + t, |s|, PX);
    TwoArgsExtend(s, t, |PX|);
    if p.Both? {
      assert WsEnd(s, p.end) < |s|;
      WsEndAgree(s, s + t, |s|, p.end);
    }
  }

  lemma AmbiguousKept(s: seq<byte>, t: seq<byte>)
    requires s != [] && !Step(s).NeedMore? && (Step(s).Done? ==> Step(s).used < |s|)
    ensures Ambiguous(s + t) == Ambiguous(s)
  {
    hide TwoArgs, WsEnd, TokEnd, StepOffset;
    if StartsWith(s, PX) {
      hide Ambiguous, StepPx;
      AmbiguousExtend(s, t);
    } else if |s| >= |PX| {
      KeywordAgree(s, s + t, |s|, PX);
    }
  }

  /** What follows a stuck or aborting command is never looked at. */
  lemma {:induction false} StopUnambiguous(s: seq<byte>, t: seq<byte>)
    requires Unambiguous(s) && !Run(s).status.Waiting?
    ensures Unambiguous(s + t)
    decreases |s|
  {
    hide Step, Ambiguous, WsEnd;
    if Step(s).Done? {
      var u := Step(s).used;
      var tail := s[u..];
      assert |tail| == 0 ==> tail == [];
      AmbiguousKept(s, t);
      StepLocal(s, s + t);
      assert !IsWhitespace((s + t)[u]);
      assert WsEnd(s + t, u) == u by { WsEndFrom(s + t, u, u); }
      DropAppend(s, t, u);
      StopUnambiguous(s[u..], t);
    } else {
      AmbiguousKept(s, t);
      StopsForGood(s, t);
    }
  }

  // ----- Independence of the cuts

  /** Leading whitespace is consumed by a pass without effect. */
  lemma RunSkipsWhitespace(t: seq<byte>)
    ensures Run(t) == Run(t[WsEnd(t, 0)..])
    ensures Unambiguous(t) == Unambiguous(t[WsEnd(t, 0)..])
  {
    hide Step, WsEnd;
    if t != [] && IsWhitespace(t[0]) {
      StepWhitespace(t);
    } else {
      assert t[0..] == t;
    }
  }

  lemma StepWhitespace(t: seq<byte>)
    requires t != [] && IsWhitespace(t[0])
    ensures Step(t) == Done(Unknown, WsEnd(t, 0)) && !Ambiguous(t)
  {
    hide StepPx, StepOffset, TwoArgs;
  }

  /** One unfolding of the parse loop. */
  lemma RunOnce(s: seq<byte>)
    requires s != [] && Step(s).Done?
    ensures var q := Run(s[Step(s).used..]); Run(s) == q.(cmds := Effective(Step(s).cmd) + q.cmds)
    ensures Unambiguous(s) ==> Unambiguous(s[Step(s).used..])
  {
    hide Step, Ambiguous, Effective;
  }

  lemma DropAppend(s: seq<byte>, t: seq<byte>, u: nat)
    requires u <= |s|
    ensures (s + t)[u..] == s[u..] + t
  {
  }

  lemma DropDrop(s: seq<byte>, u: nat, v: nat)
    requires u <= v <= |s|
    ensures s[u..][v - u..] == s[v..]
  {
  }

  /** Parsing `s` first and `t` later gives the same result as parsing them together. */
  lemma {:induction false} RunAppend(s: seq<byte>, t: seq<byte>)
    requires Unambiguous(s + t)
    ensures Run(s + t) == Continue(Run(s), t)
    ensures !Run(s).status.Aborted? ==> Unambiguous(Run(s).rest + t)
    decreases |s|
  {
    hide Step, Ambiguous, WsEnd, Effective, Unambiguous;
    if s == [] {
      assert s + t == t && [] + t == t;
    } else if Step(s).Done? {
      hide Run;
      FirstPassSurvives(s, t);
      RunAppendDone(s, t);
      RunOnce(s);
      var tail := s[Step(s).used..];
      RunAppend(tail, t);
      PrefixContinue(Effective(Step(s).cmd), Run(tail), t);
    } else if !Step(s).NeedMore? {
      StopsForGood(s, t);
    }
  }

  lemma PrefixContinue(e: seq<Command>, r: Result, t: seq<byte>)
    ensures Continue(r.(cmds := e + r.cmds), t) == Continue(r, t).(cmds := e + Continue(r, t).cmds)
  {
    hide Run;
    var q := Run(r.rest + t);
    assert (e + r.cmds) + q.cmds == e + (r.cmds + q.cmds);
  }

  lemma FirstPassSurvives(s: seq<byte>, t: seq<byte>)
    requires s != [] && Step(s).Done? && Unambiguous(s + t)
    ensures Step(s + t) == Done(Step(s).cmd, WsEnd(s + t, Step(s).used))
  {
    hide Step, Ambiguous, WsEnd;
    StepLocal(s, s + t);
  }

  /** The inductive step of `RunAppend`: the first pass on `s` is also the first pass on `s + t`. */
  lemma RunAppendDone(s: seq<byte>, t: seq<byte>)
    requires s != [] && Step(s).Done? && Step(s + t) == Done(Step(s).cmd, WsEnd(s + t, Step(s).used))
    requires Unambiguous(s + t)
    ensures Unambiguous(s[Step(s).used..] + t)
    ensures
      var q := Run(s[Step(s).used..] + t);
      Run(s + t) == q.(cmds := Effective(Step(s).cmd) + q.cmds)
  {
    hide Step, Ambiguous, WsEnd, Run, Unambiguous, Effective;
    var st, u := s + t, Step(s).used;
    DropAppend(s, t, u);
    WsEndDrop(st, u, 0);
    RunOnce(st);
    RunSkipsWhitespace(st[u..]);
    DropDrop(st, u, WsEnd(st, u));
  }

  /** Two chunks in a row amount to one; the loop is idle in between. */
  lemma ContinueTwice(r: Result, c: seq<byte>, t: seq<byte>)
    requires !r.status.Aborted? ==> Unambiguous(r.rest + (c + t))
    ensures
      var q := Continue(r, c);
      && Continue(q, t) == Continue(r, c + t)
      && (!q.status.Aborted? ==> Unambiguous(q.rest + t) && Run(q.rest) == Result([], q.status, q.rest))
  {
    hide Run, Unambiguous;
    assert r.rest + c + t == r.rest + (c + t);
    if !r.status.Aborted? {
      RunAppend(r.rest + c, t);
      RunIdle(r.rest + c);
      var q := Run(r.rest + c);
      PrefixContinue(r.cmds, q, t);
    }
  }

  /** Feeding chunks to an idle parser is the same as feeding their concatenation. */
  lemma {:induction false} FeedIsContinue(r: Result, chunks: seq<seq<byte>>)
    requires !r.status.Aborted? ==> Unambiguous(r.rest + Concat(chunks))
    requires !r.status.Aborted? ==> Run(r.rest) == Result([], r.status, r.rest)
    ensures Feed(r, chunks) == Continue(r, Concat(chunks))
    decreases |chunks|
  {
    hide Run, Unambiguous, Step;
    if chunks == [] {
      assert r.rest + [] == r.rest;
    } else {
      hide Continue;
      ContinueTwice(r, chunks[0], Concat(chunks[1..]));
      FeedIsContinue(Continue(r, chunks[0]), chunks[1..]);
    }
  }

  /** One more chunk at the end. */
  lemma {:induction false} FeedSnoc(r: Result, chunks: seq<seq<byte>>, c: seq<byte>)
    ensures Feed(r, chunks + [c]) == Continue(Feed(r, chunks), c)
    ensures Concat(chunks + [c]) == Concat(chunks) + c
    decreases |chunks|
  {
    hide Continue;
    var all := chunks + [c];
    if chunks == [] {
      assert all == [c] && all[1..] == [];
      assert Concat(all) == c + [];
      assert Feed(r, all) == Feed(Continue(r, c), []);
    } else {
      assert all[0] == chunks[0] && all[1..] == chunks[1..] + [c];
      FeedSnoc(Continue(r, chunks[0]), chunks[1..], c);
    }
  }

  /** What the loop leaves in the ring makes no progress on its own. */
  lemma {:induction false} RunIdle(s: seq<byte>)
    ensures var r := Run(s); Run(r.rest) == Result([], r.status, r.rest)
    decreases |s|
  {
    hide Step, Ambiguous, WsEnd;
    if s != [] && Step(s).Done? {
      RunIdle(s[Step(s).used..]);
    }
  }

  /** A stream that is ambiguous at its first command is parsed differently after a cut. */
  lemma CutAmbiguous(s: seq<byte>) returns (n: nat)
    requires Ambiguous(s)
    ensures 0 < n <= |s|
    ensures Continue(Run(s[..n]), s[n..]).cmds != Run(s).cmds
  {
    hide TwoArgs, Arg, TokEnd, StepOffset, StepUnknown, Colour;
    var p := TwoArgs(s, |PX|);
    var w := WsEnd(s, p.end);
    var k :| p.end <= k < w && IsNewline(s[k]);
    n := k + 1;
    var t := s[..n];
    KeywordAgree(s, t, n, PX);
    TwoArgsAgree(s, t, n, |PX|);
    WsEndFrom(t, p.end, n);
    assert Step(t) == Done(Get(p.x, p.y), n);
    OneCommand(t, s[n..]);
    assert Step(s).Done? ==> Step(s).cmd.Set? && Run(s).cmds[0].Set?;
  }

  lemma OneCommand(t: seq<byte>, more: seq<byte>)
    requires t != [] && Step(t).Done? && Step(t).used == |t| && !Step(t).cmd.Unknown?
    ensures Continue(Run(t), more).cmds != [] && Continue(Run(t), more).cmds[0] == Step(t).cmd
  {
    hide Step;
    assert t[|t|..] == [];
  }

  lemma {:induction false} CutExists(s: seq<byte>) returns (n: nat)
    requires !Unambiguous(s)
    ensures 0 < n <= |s|
    ensures Continue(Run(s[..n]), s[n..]).cmds != Run(s).cmds
    decreases |s|
  {
    hide Step, Ambiguous, WsEnd;
    if Ambiguous(s) {
      n := CutAmbiguous(s);
    } else {
      var u := Step(s).used;
      var m := CutExists(s[u..]);
      n := u + m;
      var t := s[..n];
      assert !IsWhitespace(t[u]);
      StepLocal(s, t);
      assert t[u..] == s[u..][..m] && s[n..] == s[u..][m..];
      var e, q := Effective(Step(s).cmd), Run(t[u..]);
      assert Run(t) == q.(cmds := e + q.cmds);
      var p := Continue(q, s[n..]).cmds;
      assert Continue(Run(t), s[n..]).cmds == e + p;
      assert (e + p)[|e|..] == p && (e + Run(s[u..]).cmds)[|e|..] == Run(s[u..]).cmds;
    }
  }

  /**
   Main result: the commands executed, the final status and the unread bytes are the same for
   every way of cutting the stream into reads if and only if no command in it is ambiguous.
   */
  lemma SegmentationIndependent(s: seq<byte>)
    ensures Unambiguous(s) <==> forall chunks :: Concat(chunks) == s ==> Feed(START, chunks) == Run(s)
  {
    hide Unambiguous, Run, Feed, Continue;
    if Unambiguous(s) {
      forall chunks | Concat(chunks) == s ensures Feed(START, chunks) == Run(s) {
        FeedIsRun(chunks);
      }
    } else {
      var n := CutExists(s);
      var chunks := [s[..n], s[n..]];
      FeedTwo(s[..n], s[n..]);
      assert Concat(chunks) == s;
    }
  }

  lemma FeedIsRun(chunks: seq<seq<byte>>)
    requires Unambiguous(Concat(chunks))
    ensures Feed(START, chunks) == Run(Concat(chunks))
  {
    hide Unambiguous, Feed, Concat, Run;
    ContinueStart(Concat(chunks));
    assert [] + Concat(chunks) == Concat(chunks);
    RunNothing();
    FeedIsContinue(START, chunks);
  }

  lemma RunNothing()
    ensures Run([]) == START
  {
  }

  lemma ContinueStart(s: seq<byte>)
    ensures Continue(START, s) == Run(s)
  {
    hide Run;
    assert [] + s == s;
  }

  lemma FeedTwo(a: seq<byte>, b: seq<byte>)
    ensures Feed(START, [a, b]) == Continue(Run(a), b)
    ensures Concat([a, b]) == a + b
  {
    hide Run;
    assert [a, b][1..] == [b];
    assert [b][1..] == [];
    assert Concat([b]) == b + [];
    assert b + [] == b;
    ContinueStart(a);
    assert Feed(Run(a), [b]) == Feed(Continue(Run(a), b), []);
  }

  /** The condition holds of every stream in which newlines end their whitespace run. */
  lemma {:induction false} NoGapUnambiguous(s: seq<byte>)
    requires NoNewlineGap(s)
    ensures Unambiguous(s)
    decreases |s|
  {
    hide Step, TwoArgs, WsEnd;
    if s != [] {
      if Ambiguous(s) {
        var y := TwoArgs(s, |PX|).end;
        var w := WsEnd(s, y);
        var k :| y <= k < w && IsNewline(s[k]);
        NewlineReachesEnd(s, k, w);
        assert false;
      }
      if Step(s).Done? {
        var u := Step(s).used;
        forall k | 0 < k < |s[u..]| && IsNewline(s[u..][k - 1]) && IsWhitespace(s[u..][k])
          ensures IsNewline(s[u..][k])
        {
          assert s[u..][k - 1] == s[(u + k) - 1] && s[u..][k] == s[u + k];
        }
        NoGapUnambiguous(s[u..]);
      }
    }
  }

  lemma {:induction false} NewlineReachesEnd(s: seq<byte>, k: nat, w: nat)
    requires NoNewlineGap(s)
    requires k < w <= |s| && IsNewline(s[k]) && forall j :: k <= j < w ==> IsWhitespace(s[j])
    ensures IsNewline(s[w - 1])
    decreases w - k
  {
    if k + 1 < w {
      assert IsNewline(s[(k + 1) - 1]);
      NewlineReachesEnd(s, k + 1, w);
    }
  }
}
