/**
 Whole streams: well-formed clients are understood completely, and an unfinished command
 never needs more than a bounded part of the ring.
 */
module Streams {
  import opened Bytes
  import opened Protocol
  import opened Segmentation
  import opened Grammar
  import opened Numbers

  ghost function Written(ws: seq<Wire>): seq<byte> {
    if ws == [] then [] else ws[0].Bytes() + Written(ws[1..])
  }

  ghost function Meant(ws: seq<Wire>): seq<Command> {
    if ws == [] then [] else Effective(ws[0].Meaning()) + Meant(ws[1..])
  }

  /**
   Valid wire forms.  Whitespace behind a command belongs to that command, so none but the first
   begins with whitespace; a stream may begin with an empty word.
   */
  ghost predicate WellFormed(ws: seq<Wire>) {
    && (forall w <- ws :: w.Valid() && w.Bytes() != [])
    && forall i :: 0 < i < |ws| ==> !IsWhitespace(ws[i].Bytes()[0])
  }

  lemma WrittenHead(ws: seq<Wire>)
    requires ws != [] && ws[0].Bytes() != [] && !IsWhitespace(ws[0].Bytes()[0])
    ensures Written(ws) != [] && !IsWhitespace(Written(ws)[0])
  {
    assert Written(ws)[0] == ws[0].Bytes()[0];
  }

  /** A wire form in front of other bytes is parsed first. */
  lemma FirstWire(w: Wire, part: seq<byte>)
    requires w.Valid() && w.Bytes() != [] && (part == [] || !IsWhitespace(part[0]))
    ensures var q := Run(part); Run(w.Bytes() + part) == q.(cmds := Effective(w.Meaning()) + q.cmds)
  {
    hide Step, Run, Wire.Bytes, Wire.Valid, Wire.Meaning, WsEnd;
    var b := w.Bytes();
    var p, m := b + part, |b|;
    assert p[..m] == b && p[m..] == part;
    StepIsGrammar(p, w.Meaning(), m);
    RunOnce(p);
  }

  /** Parsing what a client wrote recovers exactly the commands it meant, with nothing left. */
  lemma {:induction false} WellFormedIsParsed(ws: seq<Wire>)
    requires WellFormed(ws)
    ensures Run(Written(ws)) == Result(Meant(ws), Waiting, [])
    decreases |ws|
  {
    hide Step, Wire.Bytes, Wire.Valid, Wire.Meaning, WsEnd;
    if ws != [] {
      var w := ws[0];
      assert w in ws && forall v <- ws[1..] :: v in ws;
      if ws[1..] != [] {
        WrittenHead(ws[1..]);
      }
      FirstWire(w, Written(ws[1..]));
      WellFormedIsParsed(ws[1..]);
    }
  }

  /** The first `n` bytes of a wire form stop the loop with nothing left or with a pending command. */
  lemma PartNeverBlocks(w: Wire, n: nat)
    requires w.Valid() && n < |w.Bytes()|
    ensures Run(w.Bytes()[..n]).status.Waiting?
  {
    hide Step, Wire.Bytes, Wire.Valid, Wire.Meaning, WsEnd, Ambiguous;
    var b := w.Bytes();
    var p := b[..n];
    WireAccepted(w);
    if p != [] {
      assert p + b[n..] == b;
      if Step(p).Done? {
        DoneInside(p, b);
        assert p[n..] == [];
      } else if !Step(p).NeedMore? {
        StopsForGood(p, b[n..]);
      }
    }
  }

  /** A pass that completes within a single command leaves nothing behind. */
  lemma DoneInside(p: seq<byte>, b: seq<byte>)
    requires p != [] && Step(p).Done? && Agree(p, b, |p|) && |p| < |b|
    requires Step(b).Done? && Step(b).used == |b|
    ensures Step(p).used == |p|
  {
    hide Step, Ambiguous;
    var u := Step(p).used;
    if u < |p| {
      assert b[u] == p[u];
      StepLocal(p, b);
    }
  }

  /** No moment in a well-formed stream is blocked or aborted. */
  lemma {:induction false} PrefixNeverBlocks(ws: seq<Wire>, n: nat)
    requires WellFormed(ws) && n <= |Written(ws)|
    ensures Run(Written(ws)[..n]).status.Waiting?
    decreases |ws|
  {
    hide Step, Run, Wire.Bytes, Wire.Valid, Wire.Meaning, WsEnd;
    if ws == [] {
      RunNothing();
    } else {
      var w, s, m := ws[0], Written(ws), |ws[0].Bytes()|;
      assert w in ws && forall v <- ws[1..] :: v in ws;
      assert s[..m] == w.Bytes() && s[m..] == Written(ws[1..]);
      if n < m {
        PartNeverBlocks(w, n);
        assert s[..n] == w.Bytes()[..n];
      } else {
        FirstOfMany(ws, n);
        PrefixNeverBlocks(ws[1..], n - m);
      }
    }
  }

  /** A prefix that contains the first command is parsed like that command and the rest. */
  lemma FirstOfMany(ws: seq<Wire>, n: nat)
    requires WellFormed(ws) && ws != [] && |ws[0].Bytes()| <= n <= |Written(ws)|
    ensures n - |ws[0].Bytes()| <= |Written(ws[1..])|
    ensures
      var q := Run(Written(ws[1..])[..n - |ws[0].Bytes()|]);
      Run(Written(ws)[..n]) == q.(cmds := Effective(ws[0].Meaning()) + q.cmds)
  {
    hide Step, Run, Wire.Bytes, Wire.Valid, Wire.Meaning, WsEnd;
    var w, rest := ws[0], Written(ws[1..]);
    var m := |w.Bytes()|;
    var part := rest[..n - m];
    assert w in ws && forall v <- ws[1..] :: v in ws;
    assert Written(ws)[..n] == w.Bytes() + part;
    if part != [] {
      WrittenHead(ws[1..]);
    }
    FirstWire(w, part);
  }

  /** Once stopped, the parser executes nothing more and keeps every byte. */
  lemma {:induction false} StaysStopped(s: seq<byte>, t: seq<byte>)
    requires !Run(s).status.Waiting?
    ensures Continue(Run(s), t) == Run(s).(rest := Run(s).rest + t)
    decreases |s|
  {
    hide Step, Effective;
    if Step(s).Done? {
      var q := Run(s[Step(s).used..]);
      StaysStopped(s[Step(s).used..], t);
      PrefixContinue(Effective(Step(s).cmd), q, t);
    } else {
      StopsForGood(s, t);
      assert Run(s).rest == s;
    }
  }

  /** Another run of the loop without new bytes would change nothing. */
  ghost predicate Idle(r: Result) {
    !r.status.Aborted? ==> Run(r.rest) == Result([], r.status, r.rest)
  }

  lemma {:induction false} FeedIsIdle(r: Result, chunks: seq<seq<byte>>)
    requires Idle(r)
    ensures Idle(Feed(r, chunks))
    decreases |chunks|
  {
    hide Run;
    if chunks != [] {
      RunIdle(r.rest + chunks[0]);
      FeedIsIdle(Continue(r, chunks[0]), chunks[1..]);
    }
  }

  /** A stopped parser ignores everything that follows. */
  lemma StoppedIgnores(r: Result, t: seq<byte>)
    requires Idle(r) && !r.status.Waiting?
    ensures Continue(r, t) == r.(rest := r.rest + t)
  {
    hide Run;
    if !r.status.Aborted? {
      StaysStopped(r.rest, t);
      PrefixContinue(r.cmds, Run(r.rest), t);
    }
  }

  // ----- How long an unfinished command can be

  /** No whitespace run in `s` is longer than `k`. */
  ghost predicate RunsAtMost(s: seq<byte>, k: nat) {
    forall i :: 0 <= i <= |s| ==> WsEnd(s, i) - i <= k
  }

  lemma RunsAtMostSlice(s: seq<byte>, k: nat, a: nat, b: nat)
    requires RunsAtMost(s, k) && a <= b <= |s|
    ensures RunsAtMost(s[a..b], k)
  {
    hide WsEnd;
    forall i | 0 <= i <= b - a ensures WsEnd(s[a..b], i) - i <= k {
      assert s[a..b] == s[..b][a..];
      WsEndDrop(s[..b], a, i);
      WsEndTake(s, b, a + i);
    }
  }

  lemma MissingBound(s: seq<byte>, k: nat, i: nat)
    requires i <= |s| && RunsAtMost(s, k)
    ensures Arg(s, i).Missing? ==> |s| <= i + k + MAX_TOKEN
    ensures Arg(s, i).Found? ==> Arg(s, i).end <= i + k + MAX_TOKEN
  {
    hide WsEnd, TokEnd;
    assert WsEnd(s, i) - i <= k;
  }

  lemma LackingBound(s: seq<byte>, k: nat, i: nat)
    requires i <= |s| && RunsAtMost(s, k)
    ensures TwoArgs(s, i) == Lacking(NeedMore) ==> |s| <= i + 2 * (k + MAX_TOKEN)
    ensures TwoArgs(s, i).Both? ==> TwoArgs(s, i).end <= i + 2 * (k + MAX_TOKEN)
  {
    hide RunsAtMost, Arg;
    MissingBound(s, k, i);
    if Arg(s, i).Found? {
      MissingBound(s, k, Arg(s, i).end);
    }
  }

  /** The length of the longest unfinished command: a keyword and three padded arguments. */
  ghost function LongestPending(k: nat): nat {
    |PX| + 3 * (k + MAX_TOKEN)
  }

  lemma PendingBound(s: seq<byte>, k: nat)
    requires s != [] && Step(s).NeedMore? && RunsAtMost(s, k)
    ensures |s| <= LongestPending(k)
  {
    hide RunsAtMost, TwoArgs, Arg;
    if StartsWith(s, PX) {
      LackingBound(s, k, 2);
      if TwoArgs(s, 2).Both? {
        MissingBound(s, k, TwoArgs(s, 2).end);
      }
    } else if StartsWith(s, OFFSET) {
      LackingBound(s, k, 6);
    }
  }

  function Repeat(c: byte, n: nat): (s: seq<byte>)
    ensures |s| == n && forall i :: 0 <= i < n ==> s[i] == c
  {
    if n == 0 then [] else Repeat(c, n - 1) + [c]
  }

  lemma {:induction false} WsEndBefore(s: seq<byte>, i: nat, j: nat)
    requires i <= j < |s| && !IsWhitespace(s[j])
    ensures WsEnd(s, i) <= j
    decreases j - i
  {
    if i < j {
      WsEndBefore(s, i + 1, j);
    }
  }

  /** A keyword, two padded arguments of full length, and a third one that is not closed. */
  function Longest(k: nat): seq<byte> {
    var w, d := Repeat(SPACE, k), Repeat(48, MAX_TOKEN);
    PX + (w + d + w + d) + (w + d)
  }

  /** The bound is reached for every `k`. */
  lemma PendingBoundReached(k: nat)
    requires k > 0
    ensures var s := Longest(k); s != [] && Step(s).NeedMore? && RunsAtMost(s, k) && |s| == LongestPending(k)
  {
    hide Pair.Bytes, TwoArgs, WsEnd, TokEnd, Arg, RunsAtMost, Repeat;
    var w, d, s := Repeat(SPACE, k), Repeat(48, MAX_TOKEN), Longest(k);
    var p := Pair(w, d, w, d);
    LongestParts(p);
    assert |p.Bytes()| == 2 * (k + MAX_TOKEN) by { PairParts(p); }
    PairAfter(PX, p, w + d);
    TailMissing(s, TwoArgs(s, 2).end, w, d);
    LongestRuns(k);
    assert s == (s + [SPACE])[0..|s|];
    RunsAtMostSlice(s + [SPACE], k, 0, |s|);
  }

  lemma LongestParts(p: Pair)
    ensures p.Bytes() == p.sep + p.x + p.mid + p.y
  {
  }

  lemma TailMissing(s: seq<byte>, e: nat, w: seq<byte>, d: seq<byte>)
    requires Separator(w) && Argument(d) && At(s, e, w + d) && |s| == e + |w| + |d|
    ensures WsEnd(s, e) == e + |w| && s[e + |w| - 1] == w[|w| - 1]
    ensures Arg(s, e).Missing?
  {
    hide WsEnd, TokEnd;
    assert At(w + d, 0, w) && At(w + d, |w|, d);
    AtPart(s, e, w + d, 0, w);
    AtPart(s, e, w + d, |w|, d);
    WsEndAt(s, e, w);
    TokEndAt(s, e + |w|, d);
    WsEndHere(s, e + |w|);
  }

  lemma LongestRuns(k: nat)
    requires k > 0
    ensures RunsAtMost(Longest(k) + [SPACE], k)
  {
    hide WsEnd, Longest;
    var n, s := k + MAX_TOKEN, Longest(k) + [SPACE];
    LongestBytes(k, 2);
    LongestBytes(k, 2 + n);
    LongestBytes(k, 2 + 2 * n);
    forall i | 0 <= i <= |s| ensures WsEnd(s, i) - i <= k {
      if i < |s| - 1 && IsWhitespace(s[i]) {
        var start := if i < 2 + n then 2 else if i < 2 + 2 * n then 2 + n else 2 + 2 * n;
        WsEndBefore(s, i, start + k);
      } else if i < |s| - 1 {
        WsEndHere(s, i);
      }
    }
  }

  /** At `start` there is a separator of `k` bytes and an argument of full length. */
  lemma LongestBytes(k: nat, start: nat)
    requires var n := k + MAX_TOKEN; start in {2, 2 + n, 2 + 2 * n}
    ensures |Longest(k)| == LongestPending(k) && !IsWhitespace(Longest(k)[0]) && !IsWhitespace(Longest(k)[1])
    ensures forall j :: start <= j < start + k ==> Longest(k)[j] == SPACE
    ensures forall j :: start + k <= j < start + k + MAX_TOKEN ==> Longest(k)[j] == 48
  {
  }

  /** With one more byte it is the stream of a well-formed client with plain gaps. */
  lemma LongestIsClient(k: nat) returns (ws: seq<Wire>)
    requires k > 0
    ensures WellFormed(ws) && (forall w <- ws :: PlainGap(w))
    ensures Written(ws) == Longest(k) + [SPACE] && RunsAtMost(Written(ws), k)
  {
    hide RunsAtMost, Repeat;
    var w, d := Repeat(SPACE, k), Repeat(48, MAX_TOKEN);
    var wire := SetWire(Pair(w, d, w, d), w, d, [SPACE]);
    assert wire.Bytes() == Longest(k) + [SPACE];
    assert wire.Bytes()[0] == PX[0];
    ws := [wire];
    assert ws[1..] == [];
    assert Written(ws) == wire.Bytes() + [] == wire.Bytes();
    LongestRuns(k);
  }

  lemma LongestIsPending(k: nat)
    requires k > 0
    ensures Unambiguous(Longest(k)) && Run(Longest(k)) == Result([], Waiting, Longest(k))
  {
    hide Step, Unambiguous, RunsAtMost;
    PendingBoundReached(k);
    NoGapUnambiguous(Longest(k));
  }

  /** What the loop leaves in the ring is a part of what was received. */
  lemma {:induction false} RestIsSuffix(s: seq<byte>)
    ensures |Run(s).rest| <= |s| && Run(s).rest == s[|s| - |Run(s).rest|..]
    decreases |s|
  {
    hide Step;
    if s != [] && Step(s).Done? {
      RestIsSuffix(s[Step(s).used..]);
    }
  }

  ghost predicate IsSuffix(p: seq<byte>, s: seq<byte>) {
    |p| <= |s| && p == s[|s| - |p|..]
  }

  lemma {:induction false} WrittenAppend(a: seq<Wire>, b: seq<Wire>)
    ensures Written(a + b) == Written(a) + Written(b) && Meant(a + b) == Meant(a) + Meant(b)
    decreases |a|
  {
    hide Wire.Bytes, Wire.Meaning, Effective;
    if a == [] {
      assert a + b == b;
    } else {
      assert (a + b)[1..] == a[1..] + b;
      WrittenAppend(a[1..], b);
    }
  }

  /**
   The received bytes `got` are those of valid commands, which are exactly the commands executed,
   followed by the unread bytes: every byte is used once or still there.
   */
  ghost predicate Accounted(got: seq<byte>, r: Result) {
    exists ws: seq<Wire> :: AllValid(ws) && got == Written(ws) + r.rest && r.cmds == Meant(ws)
  }

  ghost predicate AllValid(ws: seq<Wire>) {
    forall w <- ws :: w.Valid()
  }

  /** The bytes that one run of the loop uses up are those of the commands it executes. */
  lemma {:induction false} RunIsWires(s: seq<byte>) returns (ws: seq<Wire>)
    ensures AllValid(ws) && s == Written(ws) + Run(s).rest && Run(s).cmds == Meant(ws)
    decreases |s|
  {
    hide Step, Run, Written, Meant, AllValid, Wire.Bytes, Wire.Valid, Wire.Meaning, Effective;
    if s != [] && Step(s).Done? {
      var w := AcceptedIsWire(s);
      var u := Step(s).used;
      var more := RunIsWires(s[u..]);
      ws := [w] + more;
      OneMoreWire(w, more);
      RunOnce(s);
      SplitThree(s, u, Written(more), Run(s).rest);
    } else {
      ws := [];
      NoWires(s);
    }
  }

  lemma NoWires(s: seq<byte>)
    requires s != [] ==> !Step(s).Done?
    ensures AllValid([]) && s == Written([]) + Run(s).rest && Run(s).cmds == Meant([])
  {
    hide Step;
  }

  lemma OneMoreWire(w: Wire, more: seq<Wire>)
    requires w.Valid() && AllValid(more)
    ensures
      var ws := [w] + more;
      AllValid(ws) && Written(ws) == w.Bytes() + Written(more) && Meant(ws) == Effective(w.Meaning()) + Meant(more)
  {
    hide Wire.Bytes, Wire.Valid, Wire.Meaning, Effective;
    assert ([w] + more)[1..] == more;
  }

  lemma SplitThree(s: seq<byte>, u: nat, mid: seq<byte>, rest: seq<byte>)
    requires u <= |s| && s[u..] == mid + rest
    ensures s == s[..u] + mid + rest
  {
    assert s == s[..u] + s[u..];
  }

  lemma AccountedMore(got: seq<byte>, r: Result, c: seq<byte>)
    requires Accounted(got, r)
    ensures Accounted(got + c, Continue(r, c))
  {
    hide Run, Written, Meant, AllValid;
    var ws: seq<Wire> :| AllValid(ws) && got == Written(ws) + r.rest && r.cmds == Meant(ws);
    assert got + c == Written(ws) + (r.rest + c);
    if !r.status.Aborted? {
      var more := RunIsWires(r.rest + c);
      WrittenAppend(ws, more);
      AllValidAppend(ws, more);
      assert got + c == Written(ws) + Written(more) + Run(r.rest + c).rest;
    }
  }

  lemma AllValidAppend(a: seq<Wire>, b: seq<Wire>)
    requires AllValid(a) && AllValid(b)
    ensures AllValid(a + b)
  {
  }

  lemma AccountedStart()
    ensures Accounted([], START)
  {
    assert AllValid([]) && [] == Written([]) + START.rest && START.cmds == Meant([]);
  }

  lemma AccountedIsSuffix(got: seq<byte>, r: Result)
    requires Accounted(got, r)
    ensures IsSuffix(r.rest, got)
  {
  }

  lemma {:induction false} FeedAccounts(got: seq<byte>, r: Result, chunks: seq<seq<byte>>)
    requires Accounted(got, r)
    ensures Accounted(got + Concat(chunks), Feed(r, chunks))
    decreases |chunks|
  {
    hide Accounted, Continue;
    if chunks == [] {
      assert got + [] == got;
    } else {
      AccountedMore(got, r, chunks[0]);
      FeedAccounts(got + chunks[0], Continue(r, chunks[0]), chunks[1..]);
      assert got + chunks[0] + Concat(chunks[1..]) == got + Concat(chunks);
    }
  }

  /**
   Conservation, for every stream and all cuts, ambiguous or not: what was received is the wire
   forms of exactly the commands that were executed, in order, and then the unread bytes.
   */
  lemma FeedConserves(chunks: seq<seq<byte>>)
    ensures Accounted(Concat(chunks), Feed(START, chunks))
    ensures IsSuffix(Feed(START, chunks).rest, Concat(chunks))
  {
    hide Accounted, Feed, Concat;
    AccountedStart();
    FeedAccounts([], START, chunks);
    assert [] + Concat(chunks) == Concat(chunks);
    AccountedIsSuffix(Concat(chunks), Feed(START, chunks));
  }

  /** Why the loop stopped can be seen from the bytes it left. */
  lemma {:induction false} StatusMeans(s: seq<byte>)
    ensures
      var r := Run(s);
      if r.rest == [] then r.status.Waiting?
      else
        && (r.status.Waiting? <==> Step(r.rest).NeedMore?)
        && (r.status.Blocked? <==> Step(r.rest).Stuck?)
        && (r.status.Aborted? <==> Step(r.rest).Abort?)
    decreases |s|
  {
    hide Step;
    if s != [] && Step(s).Done? {
      StatusMeans(s[Step(s).used..]);
    }
  }

  /**
   The loop is never left with more unread bytes than the longest pending command, so a ring
   of `LongestPending(k) + 2` bytes always has room for another read.
   */
  lemma NoStall(s: seq<byte>, n: nat, k: nat)
    requires n <= |s| && RunsAtMost(s, k) && Run(s[..n]).status.Waiting?
    ensures |Run(s[..n]).rest| <= LongestPending(k)
  {
    hide Run, Step;
    RestIsSuffix(s[..n]);
    var rest := Run(s[..n]).rest;
    if rest != [] {
      StatusMeans(s[..n]);
      assert rest == s[n - |rest|..n];
      RunsAtMostSlice(s, k, n - |rest|, n);
      PendingBound(rest, k);
    }
  }

  // ----- A stuck command is one that no further input can complete

  /** A separator, a digit and a separator complete whatever part of an argument is missing. */
  const FILL: seq<byte> := [SPACE, 48, SPACE]

  lemma ArgFill(s: seq<byte>, i: nat)
    requires i <= |s| && Arg(s, i).Missing?
    ensures Arg(s + FILL, i).Found?
  {
    var st, a := s + FILL, WsEnd(s, i);
    if a < |s| {
      WsEndAgree(s, st, |s|, i);
      TokFill(s, a);
    } else {
      assert st[|s|] == SPACE && st[|s| + 1] == 48 && st[|s| + 2] == SPACE;
      WsEndFrom(st, i, |s| + 1);
      assert WsEnd(st, |s| + 1) == |s| + 1;
      assert TokEnd(st, |s| + 2) == |s| + 2;
    }
  }

  lemma {:induction false} TokFill(s: seq<byte>, i: nat)
    requires i <= |s| && TokEnd(s, i) == |s|
    ensures TokEnd(s + FILL, i) == |s|
    decreases |s| - i
  {
    if i < |s| {
      TokFill(s, i + 1);
    }
  }

  /** None of the next `n` arguments is garbled; a missing one ends the list. */
  ghost predicate Fillable(s: seq<byte>, i: nat, n: nat)
    requires i <= |s|
    decreases n
  {
    n == 0 ||
    match Arg(s, i)
    case Found(_, e) => Fillable(s, e, n - 1)
    case Missing => true
    case Garbled => false
  }

  ghost predicate Filled(s: seq<byte>, i: nat, n: nat)
    requires i <= |s|
    decreases n
  {
    n == 0 || (Arg(s, i).Found? && Filled(s, Arg(s, i).end, n - 1))
  }

  /** After one filling at most a separator, a digit and a separator are left over. */
  lemma FillLeavesFillable(s: seq<byte>, i: nat, n: nat)
    requires i <= |s| && Arg(s, i).Missing?
    ensures Arg(s + FILL, i).Found? && Fillable(s + FILL, Arg(s + FILL, i).end, n)
  {
    var st, a := s + FILL, WsEnd(s, i);
    ArgFill(s, i);
    assert st[|s|] == SPACE && st[|s| + 1] == 48 && st[|s| + 2] == SPACE;
    assert Arg(st, |s| + 2).Missing?;
    assert Fillable(st, |s| + 2, n);
    if a < |s| {
      WsEndAgree(s, st, |s|, i);
      TokFill(s, a);
      assert Arg(st, |s|) == Found(|s| + 1, |s| + 2);
      assert n > 0 ==> Fillable(st, |s| + 2, n - 1);
    } else {
      WsEndFrom(st, i, |s| + 1);
    }
  }

  lemma {:induction false} FillAll(s: seq<byte>, i: nat, n: nat) returns (t: seq<byte>)
    requires i <= |s| && Fillable(s, i, n)
    ensures Filled(s + t, i, n)
    decreases n
  {
    hide Arg;
    t := [];
    if n > 0 {
      if Arg(s, i).Found? {
        t := FillAll(s, Arg(s, i).end, n - 1);
        ArgExtend(s, t, i);
      } else {
        FillLeavesFillable(s, i, n - 1);
        var u := FillAll(s + FILL, Arg(s + FILL, i).end, n - 1);
        ArgExtend(s + FILL, u, i);
        t := FILL + u;
        assert s + t == s + FILL + u;
      }
    }
  }

  lemma FilledIsBoth(s: seq<byte>, i: nat)
    requires i <= |s| && Filled(s, i, 2)
    ensures TwoArgs(s, i).Both? && Filled(s, i, 3) ==> Arg(s, TwoArgs(s, i).end).Found?
    ensures TwoArgs(s, i).Both?
  {
    hide Arg;
    assert Filled(s, Arg(s, i).end, 1);
    assert Filled(s, i, 3) ==> Filled(s, Arg(s, i).end, 2);
  }

  lemma NeedMoreIsFillable(s: seq<byte>, i: nat)
    requires i <= |s|
    ensures TwoArgs(s, i) == Lacking(NeedMore) ==> Fillable(s, i, 2) && Fillable(s, i, 3)
    ensures TwoArgs(s, i).Both? && Arg(s, TwoArgs(s, i).end).Missing? ==> Fillable(s, i, 3)
  {
    hide Arg;
    var f := Arg(s, i);
    if f.Found? {
      assert TwoArgs(s, i) == Lacking(NeedMore) ==> Fillable(s, f.end, 1) && Fillable(s, f.end, 2);
      if TwoArgs(s, i).Both? && Arg(s, TwoArgs(s, i).end).Missing? {
        assert Fillable(s, TwoArgs(s, i).end, 1);
        assert Fillable(s, f.end, 2);
      }
    }
  }

  /** More input can complete every command that is not stuck. */
  lemma CanFinish(s: seq<byte>) returns (t: seq<byte>)
    requires s != [] && Step(s).NeedMore?
    ensures Step(s + t).Done?
  {
    hide TwoArgs, Arg, Filled, Fillable;
    if StartsWith(s, PX) {
      NeedMoreIsFillable(s, 2);
      t := FillAll(s, 2, 3);
      KeywordAgree(s, s + t, |s|, PX);
      FilledFewer(s + t, 2);
      FilledIsBoth(s + t, 2);
    } else if StartsWith(s, OFFSET) {
      NeedMoreIsFillable(s, 6);
      t := FillAll(s, 6, 2);
      KeywordsExtend(s, t);
      FilledIsBoth(s + t, 6);
    } else {
      t := [SPACE];
      UnknownFinishes(s);
    }
  }

  lemma FilledFewer(s: seq<byte>, i: nat)
    requires i <= |s| && Filled(s, i, 3)
    ensures Filled(s, i, 2)
  {
    hide Arg;
    assert Filled(s, Arg(s, i).end, 2);
    assert Filled(s, Arg(s, i).end, 1);
  }

  lemma UnknownFinishes(s: seq<byte>)
    requires s != [] && TokEnd(s, 0) == |s| && |s| <= MAX_TOKEN
    ensures !StartsWith(s, PX) && !StartsWith(s, SIZE) && !StartsWith(s, OFFSET) ==> Step(s + [SPACE]).Done?
  {
    hide StepPx, StepOffset, StartsWith;
    TokEndExtend(s, [SPACE], 0);
    assert (s + [SPACE])[|s|] == SPACE;
    KeywordInWord(s, [SPACE], PX);
    KeywordInWord(s, [SPACE], SIZE);
    KeywordInWord(s, [SPACE], OFFSET);
  }

  /** A rolled-back command can never complete exactly if the parser calls it stuck. */
  lemma StuckExactly(s: seq<byte>)
    requires s != [] && (Step(s).Stuck? || Step(s).NeedMore?)
    ensures Step(s).Stuck? <==> forall t :: !Step(s + t).Done?
  {
    hide Step;
    if Step(s).Stuck? {
      forall t ensures !Step(s + t).Done? {
        StopsForGood(s, t);
      }
    } else {
      var t := CanFinish(s);
      assert Step(s + t).Done?;
    }
  }

  /** The client is disconnected for a token of more than 32 bytes that begins with no keyword. */
  lemma AbortExactly(s: seq<byte>)
    requires s != []
    ensures Step(s).Abort? <==>
      && !StartsWith(s, PX) && !StartsWith(s, SIZE) && !StartsWith(s, OFFSET)
      && |s| > 32 && forall k :: 0 <= k <= 32 ==> !IsWhitespace(s[k])
  {
    hide StepPx, StepOffset, StartsWith;
    var b := TokEnd(s, 0);
    if b <= 32 && |s| > 32 {
      assert IsWhitespace(s[b]);
    }
  }

  // ----- Well-formed streams and the ambiguity condition

  /** Nothing but spaces and tabs between the Y coordinate and the colour. */
  ghost predicate PlainGap(w: Wire) {
    w.SetWire? ==> forall k :: 0 <= k < |w.gap| ==> !IsNewline(w.gap[k])
  }

  lemma PlainNotAmbiguous(w: Wire, s: seq<byte>)
    requires w.Valid() && PlainGap(w) && Agree(w.Bytes(), s, |w.Bytes()|)
    requires s != [] && Step(s) == Done(w.Meaning(), |w.Bytes()|)
    ensures !Ambiguous(s)
  {
    hide TwoArgs, Arg, Colour, WsEnd, TokEnd, Pair.Valid, Pair.Bytes;
    if StartsWith(s, PX) && w.SetWire? {
      GapAt(w.at, w.gap, w.colour, w.end, s);
    }
  }

  lemma GapAt(at: Pair, gap: seq<byte>, colour: seq<byte>, end: seq<byte>, s: seq<byte>)
    requires var w := SetWire(at, gap, colour, end); w.Valid() && Agree(w.Bytes(), s, |w.Bytes()|)
    ensures TwoArgs(s, 2).Both?
    ensures var y := TwoArgs(s, 2).end; WsEnd(s, y) == y + |gap| && At(s, y, gap)
  {
    hide TwoArgs, Arg, WsEnd, Pair.Valid, Pair.Bytes, Separator, Argument;
    var b, more := SetWire(at, gap, colour, end).Bytes(), gap + colour + end;
    assert Separator(gap) && Argument(colour) && Separator(end);
    NonEmpty(gap, colour, end);
    PairAfter(PX, at, more);
    var y := TwoArgs(b, 2).end;
    ColourAt(b, y, gap, colour, end);
    TwoArgsAgree(b, s, |b|, 2);
    WsEndAgree(b, s, |b|, y);
    AtPart(b, y, more, 0, gap);
  }

  lemma NonEmpty(gap: seq<byte>, colour: seq<byte>, end: seq<byte>)
    requires Separator(gap) && Argument(colour) && Separator(end)
    ensures var more := gap + colour + end; more != [] && IsWhitespace(more[0]) && At(more, 0, gap)
    ensures gap != [] && colour != [] && end != []
  {
  }

  /** A set whose gap contains a newline is read as a get if a read ends behind the newline. */
  lemma NewlineGapIsAmbiguous(w: Wire, s: seq<byte>)
    requires w.Valid() && !PlainGap(w) && Agree(w.Bytes(), s, |w.Bytes()|)
    ensures Ambiguous(s)
  {
    hide TwoArgs, WsEnd, Pair.Valid, Wire.Bytes, StepPx, StartsWith, Separator, Argument, Colour, Ambiguous, At, Agree;
    SetAccepted(w.at, w.gap, w.colour, w.end);
    KeywordAgree(w.Bytes(), s, |w.Bytes()|, PX);
    GapAt(w.at, w.gap, w.colour, w.end, s);
    var k :| 0 <= k < |w.gap| && IsNewline(w.gap[k]);
    GapIsAmbiguous(s, w.gap, k);
  }

  lemma GapIsAmbiguous(s: seq<byte>, gap: seq<byte>, k: nat)
    requires StartsWith(s, PX) && TwoArgs(s, |PX|).Both?
    requires var y := TwoArgs(s, |PX|).end; WsEnd(s, y) == y + |gap| && At(s, y, gap)
    requires k < |gap| && IsNewline(gap[k]) && !IsNewline(gap[|gap| - 1])
    ensures Ambiguous(s)
  {
    hide TwoArgs, WsEnd, StartsWith, IsNewline;
    var y := TwoArgs(s, |PX|).end;
    ByteOfGap(s, y, gap, k);
    ByteOfGap(s, y, gap, |gap| - 1);
  }

  lemma ByteOfGap(s: seq<byte>, y: nat, gap: seq<byte>, k: nat)
    requires At(s, y, gap) && k < |gap|
    ensures y + k < |s| && s[y + k] == gap[k]
  {
  }

  /**
   The exact condition for a well-formed client: its stream is understood however the bytes are
   cut if and only if no gap before a colour contains a newline.
   */
  lemma {:induction false} PlainIsUnambiguous(ws: seq<Wire>)
    requires WellFormed(ws)
    ensures Unambiguous(Written(ws)) <==> forall w <- ws :: PlainGap(w)
    decreases |ws|
  {
    hide Step, Wire.Bytes, Wire.Valid, Wire.Meaning, WsEnd, PlainGap, Ambiguous;
    if ws != [] {
      var w, s, n := ws[0], Written(ws), |ws[0].Bytes()|;
      assert w in ws && forall v <- ws[1..] :: v in ws;
      assert s[..n] == w.Bytes() && s[n..] == Written(ws[1..]);
      if ws[1..] != [] {
        WrittenHead(ws[1..]);
        assert s[n] == s[n..][0];
      }
      StepIsGrammar(s, w.Meaning(), n);
      assert forall k :: 0 <= k < n ==> w.Bytes()[k] == s[..n][k];
      if PlainGap(w) {
        PlainNotAmbiguous(w, s);
      } else {
        NewlineGapIsAmbiguous(w, s);
      }
      PlainIsUnambiguous(ws[1..]);
      assert forall v <- ws :: v == w || v in ws[1..];
    }
  }

  /** `PX 1 2`, a newline, a space, `ff` and a newline. */
  const SPLIT_SET: seq<byte> := [80, 88, 32, 49, 32, 50, 10, 32, 102, 102, 10]

  /**
   The meaning of a stream does depend on the reads: received at once this is a set of one
   pixel; if the first read ends behind the first newline it is a get and an unknown token.
   */
  lemma CutsMatter()
    ensures Run(SPLIT_SET) == Result([Set(1, 2, Colour([102, 102]))], Waiting, [])
    ensures Feed(START, [SPLIT_SET[..7], SPLIT_SET[7..]]) == Result([Get(1, 2)], Waiting, [])
  {
    hide Run, Feed, Colour, Continue;
    var at := Pair([SPACE], [49], [SPACE], [50]);
    var put, get := SetWire(at, [LF, SPACE], [102, 102], [LF]), GetWire(at, [LF]);
    OneWire(put);
    OneWire(get);
    SplitWires(at);
    OneDigit(49);
    OneDigit(50);
    SplitTail();
    FeedTwo(SPLIT_SET[..7], SPLIT_SET[7..]);
    GetThenNothing(SPLIT_SET[7..]);
  }

  lemma SplitWires(at: Pair)
    requires at == Pair([SPACE], [49], [SPACE], [50])
    ensures SetWire(at, [LF, SPACE], [102, 102], [LF]).Valid() && GetWire(at, [LF]).Valid()
    ensures SetWire(at, [LF, SPACE], [102, 102], [LF]).Bytes() == SPLIT_SET
    ensures GetWire(at, [LF]).Bytes() == SPLIT_SET[..7]
  {
  }

  lemma OneDigit(d: byte)
    requires 48 <= d < 58
    ensures Dec([d]) == d - 48
  {
  }

  lemma SplitTail()
    ensures Run(SPLIT_SET[7..]) == START
  {
    hide Run, Wire.Valid, Wire.Bytes, WsEnd, Unambiguous;
    var t, junk := SPLIT_SET[7..], JunkWire([102, 102], [LF]);
    OneSpace(t);
    RunSkipsWhitespace(t);
    assert t[1..] == [102, 102, 10];
    JunkWord([102, 102]);
    OneWire(junk);
  }

  lemma OneSpace(t: seq<byte>)
    requires |t| > 1 && IsWhitespace(t[0]) && !IsWhitespace(t[1])
    ensures WsEnd(t, 0) == 1
  {
  }

  lemma JunkWord(word: seq<byte>)
    requires word == [102, 102]
    ensures var w := JunkWire(word, [LF]); w.Valid() && w.Bytes() == [102, 102, 10]
  {
    assert word[..2][0] == 102;
  }

  lemma GetThenNothing(t: seq<byte>)
    requires Run(t) == START
    ensures Continue(Result([Get(1, 2)], Waiting, []), t) == Result([Get(1, 2)], Waiting, [])
  {
    hide Run;
    assert [] + t == t;
  }

  lemma OneWire(w: Wire)
    requires w.Valid() && w.Bytes() != [] && !IsWhitespace(w.Bytes()[0])
    ensures Run(w.Bytes()) == Result(Effective(w.Meaning()), Waiting, [])
  {
    hide Run, Wire.Bytes, Wire.Valid, Wire.Meaning;
    var ws := [w];
    assert ws[1..] == [];
    assert Written(ws) == w.Bytes() + [] == w.Bytes();
    assert Meant(ws) == Effective(w.Meaning()) + [] == Effective(w.Meaning());
    WellFormedIsParsed(ws);
  }

  /**
   Main result for clients: however a well-formed stream with plain gaps is cut, at every moment
   the parser is waiting with at most one pending command, and at the end every command has
   been executed.
   */
  lemma WellFormedClient(ws: seq<Wire>, chunks: seq<seq<byte>>, k: nat)
    requires WellFormed(ws) && (forall w <- ws :: PlainGap(w)) && RunsAtMost(Written(ws), k)
    requires Concat(chunks) <= Written(ws)
    ensures
      var r := Feed(START, chunks);
      && r.status.Waiting? && |r.rest| <= LongestPending(k)
      && (Concat(chunks) == Written(ws) ==> r == Result(Meant(ws), Waiting, []))
  {
    hide *;
    var r, s, p := Feed(START, chunks), Written(ws), Concat(chunks);
    var tail := s[|p|..];
    PlainIsUnambiguous(ws);
    WellFormedIsParsed(ws);
    FeedSnoc(START, chunks, tail);
    assert p + tail == s;
    FeedIsRun(chunks + [tail]);
    IdleStart();
    FeedIsIdle(START, chunks);
    if !r.status.Waiting? {
      StoppedIgnores(r, tail);
    }
    FeedConserves(chunks);
    assert p == s[..|p|];
    PendingInside(r, s, |p|, k);
    if p == s {
      FeedIsRun(chunks);
    }
  }

  lemma IdleStart()
    ensures Idle(START)
  {
  }

  lemma PendingInside(r: Result, s: seq<byte>, n: nat, k: nat)
    requires Idle(r) && r.status.Waiting? && n <= |s| && IsSuffix(r.rest, s[..n])
    requires RunsAtMost(s, k)
    ensures |r.rest| <= LongestPending(k)
  {
    hide Run, Step, RunsAtMost;
    if r.rest != [] {
      StatusMeans(r.rest);
      assert r.rest == s[n - |r.rest|..n];
      RunsAtMostSlice(s, k, n - |r.rest|, n);
      PendingBound(r.rest, k);
    }
  }

  /** With single whitespace bytes the reads never matter. */
  lemma SinglesHaveNoGap(s: seq<byte>)
    requires RunsAtMost(s, 1)
    ensures NoNewlineGap(s) && Unambiguous(s)
  {
    hide Unambiguous;
    forall k | 0 < k < |s| && IsNewline(s[k - 1]) ensures !IsWhitespace(s[k]) {
      assert WsEnd(s, k - 1) - (k - 1) <= 1;
      assert WsEnd(s, k - 1) == WsEnd(s, k);
    }
    NoGapUnambiguous(s);
  }

  /** A well-formed client with single whitespace bytes has plain gaps; 103 bytes of ring do for it. */
  lemma SinglesArePlain(ws: seq<Wire>)
    requires WellFormed(ws) && RunsAtMost(Written(ws), 1)
    ensures (forall w <- ws :: PlainGap(w)) && LongestPending(1) + 2 == 103
  {
    hide RunsAtMost, WellFormed, PlainGap, Unambiguous, Written;
    SinglesHaveNoGap(Written(ws));
    PlainIsUnambiguous(ws);
  }

  lemma {:induction false} ChunksAreBytes(chunks: seq<seq<byte>>)
    requires forall c <- chunks :: c != []
    ensures |Concat(chunks)| >= |chunks|
    decreases |chunks|
  {
    if chunks != [] {
      assert chunks[0] in chunks && forall c <- chunks[1..] :: c in chunks;
      ChunksAreBytes(chunks[1..]);
    }
  }

  // ----- Clients that fill the ring

  /** What the reads up to any moment leave, continued by the rest of the first `n` bytes. */
  lemma FeedThenRest(s: seq<byte>, chunks: seq<seq<byte>>)
    requires Unambiguous(s) && Concat(chunks) <= s
    ensures Continue(Feed(START, chunks), s[|Concat(chunks)|..]) == Run(s)
  {
    hide Unambiguous, Feed, Concat, Run, Continue;
    var p := Concat(chunks);
    var tail := s[|p|..];
    assert p + tail == s;
    FeedSnoc(START, chunks, tail);
    FeedIsRun(chunks + [tail]);
  }

  /** Continuing never leaves more than the bytes left before and the new ones. */
  lemma ContinueLeaves(r: Result, t: seq<byte>)
    requires !Continue(r, t).status.Aborted?
    ensures !r.status.Aborted? && |Continue(r, t).rest| <= |r.rest| + |t|
  {
    hide Run;
    if !r.status.Aborted? {
      RestIsSuffix(r.rest + t);
    }
  }

  /** A read that goes beyond the first `n` bytes would not have fitted. */
  lemma NoReadBeyond(s: seq<byte>, n: nat, before: seq<seq<byte>>, chunk: seq<byte>, capacity: int)
    requires n <= |s| && Unambiguous(s[..n]) && !Run(s[..n]).status.Aborted? && |Run(s[..n]).rest| >= capacity
    requires Concat(before) + chunk <= s && |Feed(START, before).rest| + |chunk| <= capacity
    requires |Concat(before)| <= n
    ensures |Concat(before)| + |chunk| <= n
  {
    hide Unambiguous, Feed, Concat, Run, Continue;
    var p := Concat(before);
    assert p <= s;
    assert p <= s[..n];
    FeedThenRest(s[..n], before);
    ContinueLeaves(Feed(START, before), s[..n][|p|..]);
  }

  /** The bytes left by the reads before it and each chunk fit in `capacity`; no chunk is empty. */
  ghost predicate AllFit(chunks: seq<seq<byte>>, capacity: int) {
    forall i :: 0 <= i < |chunks| ==>
      chunks[i] != [] && |Feed(START, chunks[..i]).rest| + |chunks[i]| <= capacity
  }

  lemma FitIsBytes(chunks: seq<seq<byte>>, capacity: int)
    requires AllFit(chunks, capacity)
    ensures |Concat(chunks)| >= |chunks|
  {
    hide Feed;
    ChunksAreBytes(chunks);
  }

  lemma NothingRead(capacity: int)
    ensures Concat([]) == [] && Feed(START, []) == START && AllFit([], capacity)
  {
  }

  lemma OneMoreRead(chunks: seq<seq<byte>>, chunk: seq<byte>, capacity: int)
    requires AllFit(chunks, capacity) && chunk != [] && |Feed(START, chunks).rest| + |chunk| <= capacity
    ensures AllFit(chunks + [chunk], capacity)
    ensures Feed(START, chunks + [chunk]) == Continue(Feed(START, chunks), chunk)
    ensures Concat(chunks + [chunk]) == Concat(chunks) + chunk
  {
    hide Feed, Concat, Continue;
    FeedSnoc(START, chunks, chunk);
    var all := chunks + [chunk];
    forall i | 0 <= i < |all|
      ensures all[i] != [] && |Feed(START, all[..i]).rest| + |all[i]| <= capacity
    {
      if i < |chunks| {
        assert all[..i] == chunks[..i] && all[i] == chunks[i];
      } else {
        assert all[..i] == chunks;
      }
    }
  }

  /** Whatever is read fits, so nothing is read behind the first `n` bytes. */
  lemma {:induction false} FitStaysWithin(s: seq<byte>, n: nat, chunks: seq<seq<byte>>, capacity: int)
    requires n <= |s| && Unambiguous(s[..n]) && !Run(s[..n]).status.Aborted? && |Run(s[..n]).rest| >= capacity
    requires AllFit(chunks, capacity) && Concat(chunks) <= s
    ensures |Concat(chunks)| <= n
    decreases |chunks|
  {
    hide Unambiguous, Run, Continue, Concat, Feed, AllFit;
    if chunks == [] {
      NothingRead(capacity);
    } else {
      var before, last := chunks[..|chunks| - 1], chunks[|chunks| - 1];
      assert chunks == before + [last];
      FeedSnoc(START, before, last);
      FitsBefore(chunks, capacity);
      assert Concat(before) <= Concat(chunks) <= s;
      FitStaysWithin(s, n, before, capacity);
      NoReadBeyond(s, n, before, last, capacity);
    }
  }

  lemma FitsBefore(chunks: seq<seq<byte>>, capacity: int)
    requires AllFit(chunks, capacity) && chunks != []
    ensures
      var before, last := chunks[..|chunks| - 1], chunks[|chunks| - 1];
      AllFit(before, capacity) && |Feed(START, before).rest| + |last| <= capacity
  {
    hide Feed;
    var before := chunks[..|chunks| - 1];
    forall i | 0 <= i < |before|
      ensures before[i] != [] && |Feed(START, before[..i]).rest| + |before[i]| <= capacity
    {
      assert before[..i] == chunks[..i] && before[i] == chunks[i];
    }
  }

  /**
   If the parser leaves `capacity` bytes or more after the first `n`, then reads that fit never get
   further, the parser has not aborted, and if the input ends there the ring is full.
   */
  lemma OverfullStops(s: seq<byte>, n: nat, chunks: seq<seq<byte>>, capacity: int)
    requires n <= |s| && Unambiguous(s[..n]) && !Run(s[..n]).status.Aborted? && |Run(s[..n]).rest| >= capacity
    requires AllFit(chunks, capacity) && Concat(chunks) <= s
    ensures |Concat(chunks)| <= n && !Feed(START, chunks).status.Aborted?
    ensures Concat(chunks) == s ==> |Feed(START, chunks).rest| >= capacity
  {
    hide Unambiguous, Run, Continue, Concat, Feed, AllFit;
    FitStaysWithin(s, n, chunks, capacity);
    assert Concat(chunks) <= s[..n];
    FeedThenRest(s[..n], chunks);
    ContinueLeaves(Feed(START, chunks), s[..n][|Concat(chunks)|..]);
  }

  /** After a stuck command every further byte stays unread. */
  lemma StuckFills(s: seq<byte>, n: nat, capacity: nat)
    requires n + capacity <= |s| && Unambiguous(s[..n]) && Run(s[..n]).status.Blocked?
    ensures
      var m := n + capacity;
      Unambiguous(s[..m]) && Run(s[..m]).status.Blocked? && |Run(s[..m]).rest| >= capacity
  {
    hide Unambiguous, Run;
    var t := s[n..n + capacity];
    assert s[..n + capacity] == s[..n] + t;
    StopUnambiguous(s[..n], t);
    RunAppend(s[..n], t);
    StaysStopped(s[..n], t);
  }
}
