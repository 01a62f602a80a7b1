/** The connection thread: scanning the ring, parsing, executing and the receive loop. */
module Connections {
  import opened Bytes
  import opened Numbers
  import opened Pixels
  import opened Protocol
  import opened Segmentation
  import opened Grammar
  import opened Streams
  import opened RingBuffer
  import opened Framebuffers
  import opened Coalescing
  import opened Replies
  import opened Drawing

  const EINVAL: int := 22

  // ----- Scanning.  The ghost arguments say that the ring holds the bytes of `s` from `i` on.

  /** The number of whitespace bytes consumed, or -1 if there are none. */
  method SkipWhitespace(ring: Ring, ghost s: seq<byte>, ghost i: nat) returns (r: int)
    requires ring.Valid() && i <= |s| && ring.Contents() == s[i..]
    modifies ring`rd
    ensures ring.Valid() && ring.Contents() == s[WsEnd(s, i)..]
    ensures r == if WsEnd(s, i) > i then WsEnd(s, i) - i else -1
    ensures WsEnd(s, i) > i ==> ring.PeekPrev() == s[WsEnd(s, i) - 1]
  {
    hide Ring.Contents, Ring.PeekPrev, Ring.PeekOne, Ring.AnyAvailable;
    var cnt := 0;
    while ring.AnyAvailable()
      invariant 0 <= cnt && i + cnt <= |s| && ring.Valid() && ring.Contents() == s[i + cnt..]
      invariant WsEnd(s, i) == WsEnd(s, i + cnt)
      invariant cnt > 0 ==> ring.PeekPrev() == s[i + cnt - 1]
      decreases |s| - i - cnt
    {
      var c := ring.PeekOne();
      if !IsWhitespace(c) {
        break;
      }
      ring.IncRead();
      cnt := cnt + 1;
    }
    r := if cnt != 0 then cnt else -1;
  }

  /** The length of the token at the read pointer, -1 if it is unfinished, -EINVAL if too long. */
  method NextWhitespace(ring: Ring, ghost s: seq<byte>, ghost i: nat) returns (r: int)
    requires ring.Valid() && i <= |s| && ring.Contents() == s[i..]
    modifies ring`rd
    ensures ring.Valid() && ring.rd == old(ring.rd) && ring.Contents() == s[i..]
    ensures r ==
      if TokEnd(s, i) - i > MAX_TOKEN then -EINVAL
      else if TokEnd(s, i) == |s| then -1
      else TokEnd(s, i) - i
  {
    hide Ring.Contents, Ring.PeekPrev, Ring.AnyAvailable;
    var offset, before := 0, ring.rd;
    while ring.AnyAvailable()
      invariant 0 <= offset <= MAX_TOKEN && i + offset <= |s|
      invariant ring.Valid() && ring.Contents() == s[i + offset..]
      invariant TokEnd(s, i) == TokEnd(s, i + offset)
      decreases |s| - i - offset
    {
      var c := ring.ReadOne();
      if IsWhitespace(c) {
        ring.rd := before;
        return offset;
      }
      offset := offset + 1;
      if offset > MAX_TOKEN {
        ring.rd := before;
        return -EINVAL;
      }
    }
    ring.rd := before;
    return -1;
  }

  lemma EmptyToken()
    ensures Dec([]) == 0 && Hex([]) == 0
  {
  }

  method StrToUint32Base10(ring: Ring, len: nat, ghost s: seq<byte>, ghost i: nat) returns (val: uint32)
    requires ring.Valid() && i + len <= |s| && ring.Contents() == s[i..]
    modifies ring`rd
    ensures ring.Valid() && ring.Contents() == s[i + len..]
    ensures val == Dec(s[i..i + len])
  {
    hide Dec, Hex, Ring.Contents, Ring.PeekPrev;
    assert s[i..i] == [] && Dec([]) == 0 && Hex([]) == 0 by { EmptyToken(); }
    val := 0;
    for radix := 0 to len
      invariant ring.Valid() && ring.Contents() == s[i + radix..]
      invariant val == Dec(s[i..i + radix])
    {
      var c := ring.ReadOne();
      assert c == s[i + radix];
      NextDigit(s, i, i + radix);
      val := (val * 10 + (Signed(c) - 48)) % TWO_32;
    }
  }

  method StrToUint32Base16(ring: Ring, len: nat, ghost s: seq<byte>, ghost i: nat) returns (val: uint32)
    requires ring.Valid() && i + len <= |s| && ring.Contents() == s[i..]
    modifies ring`rd
    ensures ring.Valid() && ring.Contents() == s[i + len..]
    ensures val == Hex(s[i..i + len])
  {
    hide Dec, Hex, Ring.Contents, Ring.PeekPrev;
    assert s[i..i] == [] && Dec([]) == 0 && Hex([]) == 0 by { EmptyToken(); }
    val := 0;
    for radix := 0 to len
      invariant ring.Valid() && ring.Contents() == s[i + radix..]
      invariant val == Hex(s[i..i + radix])
    {
      val := val * 16 % TWO_32;
      var c := ring.ReadOne();
      assert c == s[i + radix];
      NextDigit(s, i, i + radix);
      var lower := Lower(Signed(c));
      if lower >= 97 {
        val := (val + (lower - 97 + 10)) % TWO_32;
      } else {
        val := (val + (lower - 48)) % TWO_32;
      }
    }
  }

  // ----- Parsing one command whose keyword has been consumed

  /** Two decimal arguments; on failure the read pointer is anywhere in the unread bytes. */
  method ParseTwo(ring: Ring, ghost s: seq<byte>, ghost i: nat)
    returns (ok: bool, x: uint32, y: uint32)
    requires ring.Valid() && i <= |s| && ring.Contents() == s[i..]
    modifies ring`rd
    ensures ring.Valid()
    ensures ok <==> TwoArgs(s, i).Both?
    ensures ok ==> TwoArgs(s, i) == Both(x, y, TwoArgs(s, i).end) && ring.Contents() == s[TwoArgs(s, i).end..]
  {
    hide Ring.Contents, Dec, WsEnd, TokEnd, Ring.PeekPrev, Arg;
    ok, x, y := false, 0, 0;
    var f;
    ok, f := ParseArg(ring, s, i);
    if !ok {
      return;
    }
    x := StrToUint32Base10(ring, f, s, Arg(s, i).start);
    ghost var fx := Arg(s, i);
    ok, f := ParseArg(ring, s, fx.end);
    if !ok {
      return;
    }
    y := StrToUint32Base10(ring, f, s, Arg(s, fx.end).start);
  }

  /** Skips a separator and measures the argument behind it. */
  method ParseArg(ring: Ring, ghost s: seq<byte>, ghost i: nat) returns (ok: bool, len: nat)
    requires ring.Valid() && i <= |s| && ring.Contents() == s[i..]
    modifies ring`rd
    ensures ring.Valid()
    ensures ok <==> Arg(s, i).Found?
    ensures ok ==> len == Arg(s, i).end - Arg(s, i).start && ring.Contents() == s[Arg(s, i).start..]
  {
    hide Ring.Contents, WsEnd, TokEnd, Ring.PeekPrev;
    ok, len := false, 0;
    var err := SkipWhitespace(ring, s, i);
    if err < 0 {
      return;
    }
    var offset := NextWhitespace(ring, s, WsEnd(s, i));
    if offset < 0 {
      return;
    }
    ok, len := true, offset;
  }

  /** The rest of a `PX` command; the whitespace behind a colour is left to the caller. */
  method ParsePx(ring: Ring, ghost s: seq<byte>) returns (ok: bool, cmd: Command, ghost e: nat)
    requires ring.Valid() && StartsWith(s, PX) && ring.Contents() == s[2..]
    modifies ring`rd
    ensures ring.Valid()
    ensures ok <==> StepPx(s).Done?
    ensures ok ==> e <= |s| && StepPx(s) == Done(cmd, WsEnd(s, e)) && ring.Contents() == s[e..]
  {
    hide Ring.Contents, WsEnd, TokEnd, Ring.PeekPrev, Arg, TwoArgs, Hex;
    cmd, e := Unknown, 0;
    var x, y;
    ok, x, y := ParseTwo(ring, s, 2);
    if !ok {
      return;
    }
    ghost var p := TwoArgs(s, 2).end;
    var err := SkipWhitespace(ring, s, p);
    if IsNewline(ring.PeekPrev()) {
      cmd, e := Get(x, y), WsEnd(s, p);
      WsEndTwice(s, p);
    } else {
      var len;
      ok, len := ParseColour(ring, s, p);
      if !ok {
        return;
      }
      ghost var f := Arg(s, p);
      var v := StrToUint32Base16(ring, len, s, f.start);
      if len > 6 {
        cmd := Set(x, y, FromAbgr(v));
      } else {
        cmd := Set(x, y, FromAbgr(v * 0x100 % TWO_32).(alpha := 0xff));
      }
      e := f.end;
    }
  }

  lemma WsEndTwice(s: seq<byte>, i: nat)
    requires i <= |s|
    ensures WsEnd(s, WsEnd(s, i)) == WsEnd(s, i)
  {
  }

  /** The colour argument, after its separator has been skipped. */
  method ParseColour(ring: Ring, ghost s: seq<byte>, ghost i: nat) returns (ok: bool, len: nat)
    requires ring.Valid() && i <= |s| && i < WsEnd(s, i) && ring.Contents() == s[WsEnd(s, i)..]
    modifies ring`rd
    ensures ring.Valid() && (ok <==> Arg(s, i).Found?)
    ensures ok ==> len == Arg(s, i).end - Arg(s, i).start && ring.Contents() == s[Arg(s, i).start..]
  {
    hide Ring.Contents, WsEnd, TokEnd;
    ok, len := false, 0;
    var offset := NextWhitespace(ring, s, WsEnd(s, i));
    if offset < 0 {
      return;
    }
    ok, len := true, offset;
  }

  datatype PassResult = Completed | RolledBack | Failed

  /** A token that is no command is consumed, waited for or, if too long, an error. */
  method ParseUnknown(ring: Ring, ghost s: seq<byte>) returns (r: PassResult, ghost e: nat)
    requires ring.Valid() && s != [] && ring.Contents() == s
    modifies ring`rd
    ensures ring.Valid()
    ensures r.Completed? <==> StepUnknown(s).Done?
    ensures r.Failed? <==> StepUnknown(s).Abort?
    ensures r.Completed? ==> e <= |s| && StepUnknown(s) == Done(Unknown, WsEnd(s, e)) && ring.Contents() == s[e..]
    ensures !r.Completed? ==> ring.rd == old(ring.rd)
  {
    hide Ring.Contents, WsEnd, TokEnd;
    e := 0;
    assert s[0..] == s;
    var offset := NextWhitespace(ring, s, 0);
    if offset >= 0 {
      ring.AdvanceRead(offset);
      r, e := Completed, offset;
    } else if offset == -EINVAL {
      r := Failed;
    } else {
      r := RolledBack;
    }
  }

  /** Recognizes the command at the read pointer; unless it is complete, nothing is consumed. */
  method ParseCommand(ring: Ring, ghost s: seq<byte>) returns (r: PassResult, cmd: Command, ghost e: nat)
    requires ring.Valid() && s != [] && ring.Contents() == s
    modifies ring`rd
    ensures ring.Valid()
    ensures r.Completed? <==> Step(s).Done?
    ensures r.Failed? <==> Step(s).Abort?
    ensures r.Completed? ==> e <= |s| && Step(s) == Done(cmd, WsEnd(s, e)) && ring.Contents() == s[e..]
    ensures !r.Completed? ==> ring.rd == old(ring.rd)
  {
    hide Ring.Contents, WsEnd, TokEnd, TwoArgs, StepPx, StepUnknown;
    var lastCmd, ok := ring.rd, true;
    r, cmd, e := Completed, Unknown, 0;
    var m := ring.Memcmp(PX);
    if m == 0 {
      ok, cmd, e := ParsePx(ring, s);
    } else {
      m := ring.Memcmp(SIZE);
      if m == 0 {
        cmd, e := Size, 4;
      } else {
        m := ring.Memcmp(OFFSET);
        if m == 0 {
          var x, y;
          ok, x, y := ParseTwo(ring, s, 6);
          if ok {
            cmd, e := Offset(x, y), TwoArgs(s, 6).end;
          }
        } else {
          r, e := ParseUnknown(ring, s);
        }
      }
    }
    if !ok {
      ring.rd := lastCmd;
      r := RolledBack;
    }
  }

  // ----- The connection

  /** Why the receive loop ended: no more reads, the ring was full, or the client misbehaved. */
  datatype Ending = EndOfInput | RingFull | Closed

  class Connection {
    const ring: Ring
    /** The framebuffer of this thread's node, drawn to. */
    const fb: Framebuffer
    /** The main framebuffer, reported from. */
    const shown: Framebuffer
    const blend: bool
    /** Offset of this connection. */
    var origin: Origin
    /** Everything written to the socket. */
    var sent: seq<byte>

    ghost predicate Valid()
      reads this, ring
    {
      && ring.Valid() && fb.Valid() && shown.Valid()
      && fb.width == shown.width && fb.height == shown.height
      && fb.pixels != shown.pixels
    }

    constructor (ringSize: nat, fb: Framebuffer, shown: Framebuffer, blend: bool)
      requires ringSize > 0 && fb.Valid() && shown.Valid()
      requires fb.width == shown.width && fb.height == shown.height && fb.pixels != shown.pixels
      ensures Valid() && fresh(ring) && fresh(ring.data)
      ensures this.fb == fb && this.shown == shown && this.blend == blend
      ensures ring.size == ringSize && ring.Contents() == []
      ensures origin == Origin(0, 0) && sent == []
    {
      ring := new Ring(ringSize);
      this.fb, this.shown, this.blend := fb, shown, blend;
      origin, sent := Origin(0, 0), [];
    }

    ghost function S(): Screen {
      Screen(blend, fb.width, fb.height)
    }

    ghost function W(): (w: World)
      requires Valid()
      reads this, ring, fb.pixels, shown.pixels
      ensures WorldSized(S(), w)
    {
      World(origin, sent, fb.pixels[..], shown.pixels[..])
    }

    /** Executes one parsed command; fails if a reply does not fit its buffer, which never happens. */
    method Execute(cmd: Command) returns (ok: bool)
      requires Valid()
      modifies this`origin, this`sent, fb.pixels
      ensures ok && Valid()
      ensures W() == After(S(), old(W()), [cmd])
      ensures ring.Contents() == old(ring.Contents())
    {
      hide Screen.Draw, Screen.Reply, Screen.DrawAll, Screen.ReplyAll, Screen.Sized, Shift, After, Ring.Contents;
      AfterOne(S(), W(), cmd);
      SingleEvents(S(), fb.pixels[..], EventOf(origin, cmd));
      SingleEvents(S(), shown.pixels[..], EventOf(origin, cmd));
      ok := true;
      match cmd {
        case Set(x, y, pixel) =>
          SetPixelAt(Shift(x, origin.x), Shift(y, origin.y), pixel);
        case Get(x, y) =>
          ok := ReportPixel(Shift(x, origin.x), Shift(y, origin.y));
        case Size =>
          SizeReplyFits(fb.width, fb.height);
          assert S().Reply(shown.pixels[..], ReportSize) == SizeReply(fb.width, fb.height) by {
            ReplyCases(S(), shown.pixels[..], ReportSize);
          }
          ok := Send(SizeReply(fb.width, fb.height));
        case Offset(x, y) =>
          origin := Origin(x, y);
        case Unknown =>
      }
    }

    method SetPixelAt(x: uint32, y: uint32, pixel: Pixel)
      requires Valid()
      modifies fb.pixels
      ensures S().Sized(old(fb.pixels[..]))
      ensures fb.pixels[..] == S().Draw(old(fb.pixels[..]), Event.SetPixel(x, y, pixel))
    {
      hide Blend, Index;
      if x < fb.width && y < fb.height {
        IndexInRange(fb.width, fb.height, x, y);
        var p := pixel;
        if blend && p.alpha != 0xff {
          p := Blend(p, fb.GetPixel(x, y));
        }
        fb.SetPixel(x, y, p);
      }
    }

    method ReportPixel(x: uint32, y: uint32) returns (ok: bool)
      requires Valid()
      modifies this`sent
      ensures ok && S().Sized(shown.pixels[..])
      ensures sent == old(sent) + S().Reply(shown.pixels[..], Event.GetPixel(x, y))
    {
      hide PixelReply, SizeReply, Index;
      ok := true;
      if x < fb.width && y < fb.height {
        IndexInRange(fb.width, fb.height, x, y);
        InBoundsReplyFits(fb.width, fb.height, x, y, shown.GetPixel(x, y));
        ok := Send(PixelReply(x, y, shown.GetPixel(x, y)));
      }
    }

    /** Writes a reply that was formatted in the scratch buffer; each write may take only a part. */
    method Send(reply: seq<byte>) returns (ok: bool)
      modifies this`sent
      ensures ok <==> Fits(reply)
      ensures sent == if ok then old(sent) + reply else old(sent)
    {
      ok := |reply| < SCRATCH_STR_MAX;
      if !ok {
        return;
      }
      var writeCnt := 0;
      assert reply[..0] == [];
      while writeCnt < |reply|
        invariant writeCnt <= |reply| && sent == old(sent) + reply[..writeCnt]
      {
        var writeLen: nat :| true;
        if writeLen == 0 || writeLen > |reply| - writeCnt {
          writeLen := |reply| - writeCnt;
        }
        sent := sent + reply[writeCnt..writeCnt + writeLen];
        assert reply[..writeCnt] + reply[writeCnt..writeCnt + writeLen] == reply[..writeCnt + writeLen];
        writeCnt := writeCnt + writeLen;
      }
      assert reply[..writeCnt] == reply;
    }

    /** Whatever other threads do to the framebuffers before this thread goes on. */
    method Others() returns (ghost log: seq<Action>)
      requires Valid()
      modifies fb.pixels, shown.pixels
      ensures Valid() && ring.Contents() == old(ring.Contents())
      ensures Executed(log) == [] && W() == Replay(S(), old(W()), log)
    {
      hide Ring.Contents, Act, WorldSized;
      ghost var w := W();
      log := [];
      var n: nat :| true;
      for i := 0 to n
        invariant Valid() && Executed(log) == [] && W() == Replay(S(), w, log)
      {
        ghost var u := W();
        ghost var a := OtherAction();
        ReplayAppend(S(), w, log, [a]);
        ReplayOne(S(), u, a);
        log := log + [a];
      }
    }

    method OtherAction() returns (ghost a: Action)
      requires Valid()
      modifies fb.pixels, shown.pixels
      ensures Valid() && !a.Exec? && W() == Act(S(), old(W()), a)
    {
      hide MergePixel, Screen.Draw;
      var x: uint32, y: uint32, p: Pixel :| true;
      var i: nat :| true;
      if * {
        SetPixelAt(x, y, p);
        a := Other(Event.SetPixel(x, y, p));
      } else if * {
        a := MergeCell(i);
        if i < fb.pixels.Length {
          MergeOne(shown, fb, blend, i);
        }
      } else {
        a := Repaint(i, p);
        if i < shown.pixels.Length {
          shown.pixels[i] := p;
        }
      }
    }

    /**
     One pass of the parse loop.  An incomplete or stuck command is rolled back: the read pointer
     returns to the command's first byte and nothing else has changed.
     */
    method Pass() returns (r: PassResult)
      requires Valid() && ring.Contents() != []
      modifies ring`rd, this`origin, this`sent, fb.pixels
      ensures Valid()
      ensures r.Completed? <==> Step(old(ring.Contents())).Done?
      ensures r.Failed? <==> Step(old(ring.Contents())).Abort?
      ensures r.Completed? ==>
        var s := old(ring.Contents());
        && ring.Contents() == s[Step(s).used..]
        && W() == After(S(), old(W()), [Step(s).cmd])
      ensures !r.Completed? ==> ring.rd == old(ring.rd) && ring.Contents() == old(ring.Contents()) && W() == old(W())
    {
      hide Ring.Contents, Step, WsEnd, After, Screen.Sized;
      ghost var s := ring.Contents();
      var cmd;
      ghost var e;
      r, cmd, e := ParseCommand(ring, s);
      if !r.Completed? {
        return;
      }
      var ok := Execute(cmd);
      if !ok {
        return Failed;
      }
      var _ := SkipWhitespace(ring, s, e);
    }

    /**
     The parse loop after a read: it computes `Run` on the unread bytes and executes the commands
     one by one, with actions of other threads in between.
     */
    method ParseLoop() returns (ok: bool, ghost log: seq<Action>)
      requires Valid()
      modifies ring`rd, this`origin, this`sent, fb.pixels, shown.pixels
      ensures Valid()
      ensures
        var r := Run(old(ring.Contents()));
        && ring.Contents() == r.rest
        && Executed(log) == r.cmds && W() == Replay(S(), old(W()), log)
        && (ok <==> !r.status.Aborted?)
    {
      hide Ring.Contents, Step, After, Effective, Replay, Executed, WorldSized, ExecOf;
      ghost var s, w := ring.Contents(), W();
      log := [];
      ReplayNothing(S(), w);
      assert [] + Run(s).cmds == Run(s).cmds;
      while ring.AnyAvailable()
        invariant Valid()
        invariant W() == Replay(S(), w, log)
        invariant Run(s) == Run(ring.Contents()).(cmds := Executed(log) + Run(ring.Contents()).cmds)
        decreases |ring.Contents()|
      {
        ghost var c := ring.Contents();
        ghost var more := Others();
        ReplayAppend(S(), w, log, more);
        assert Executed(log) + [] == Executed(log);
        log := log + more;
        ghost var u := W();
        var r := Pass();
        if r.Completed? {
          ghost var e := ExecOf(Step(c).cmd);
          ReplayExec(S(), u, Step(c).cmd);
          ReplayAppend(S(), w, log, e);
          ConcatReassociate(Executed(log), Executed(e), Run(ring.Contents()).cmds);
          log := log + e;
        } else {
          assert Executed(log) + [] == Executed(log);
          return !r.Failed?, log;
        }
      }
      assert Executed(log) + [] == Executed(log);
      return true, log;
    }

    /**
     The receive loop.  The client's bytes are `input`; the environment decides by `cuts` how many
     bytes each read returns (at least one, at most what fits), and how many reads there are.  Any
     sequence of reads is possible, so every run of the thread is covered.
     */
    method Serve(input: seq<byte>, cuts: seq<nat>)
      returns (ending: Ending, ghost chunks: seq<seq<byte>>, ghost log: seq<Action>)
      requires Valid() && ring.Contents() == []
      modifies ring`rd, ring`wr, ring.data, this`origin, this`sent, fb.pixels, shown.pixels
      ensures Valid()
      ensures Concat(chunks) <= input
      ensures
        var r := Feed(START, chunks);
        && ring.Contents() == r.rest
        && Executed(log) == r.cmds && W() == Replay(S(), old(W()), log)
        && (ending.Closed? <==> r.status.Aborted?)
        && (ending.RingFull? <==> !r.status.Aborted? && |chunks| < |cuts| && |r.rest| == ring.size - 1)
      ensures ending.EndOfInput? ==> |chunks| == |cuts| || Concat(chunks) == input
      ensures AllFit(chunks, ring.size - 1)
      ensures Accounted(Concat(chunks), Feed(START, chunks))
      ensures Unambiguous(Concat(chunks)) ==> Feed(START, chunks) == Run(Concat(chunks))
    {
      hide Ring.Contents, Run, After, Feed, Concat, Unambiguous, Replay, Executed, WorldSized, AllFit, Continue,
           Accounted;
      ghost var w := W();
      var got: nat := 0;
      chunks, log := [], [];
      NothingRead(ring.size - 1);
      ReplayNothing(S(), w);
      ending := EndOfInput;
      for k := 0 to |cuts|
        invariant Valid() && got <= |input| && |chunks| == k
        invariant Concat(chunks) == input[..got]
        invariant AllFit(chunks, ring.size - 1)
        invariant ring.Contents() == Feed(START, chunks).rest
        invariant Executed(log) == Feed(START, chunks).cmds && W() == Replay(S(), w, log)
        invariant !Feed(START, chunks).status.Aborted?
      {
        var n := ring.FreeSpaceContig();
        if n == 0 {
          ending := RingFull;
          break;
        }
        if got == |input| {
          break;
        }
        n := if cuts[k] < n then (if cuts[k] == 0 then 1 else cuts[k]) else n;
        n := if n < |input| - got then n else |input| - got;
        var chunk := input[got..got + n];
        ghost var r := Feed(START, chunks);
        OneMoreRead(chunks, chunk, ring.size - 1);
        ring.Receive(chunk);
        var ok;
        ghost var more;
        ok, more := ParseLoop();
        ReplayAppend(S(), w, log, more);
        ContinueRunning(r, chunk);
        assert input[..got] + chunk == input[..got + n];
        chunks, log := chunks + [chunk], log + more;
        got := got + n;
        if !ok {
          ending := Closed;
          break;
        }
      }
      FeedConserves(chunks);
      if Unambiguous(Concat(chunks)) {
        FeedIsRun(chunks);
      }
    }

    /**
     A well-formed client whose whitespace runs have at most `k` bytes: with a ring that holds one
     pending command the thread neither stalls nor drops the client, and once every byte has been
     read every command has been executed.
     */
    method ServeWellFormed(ghost ws: seq<Wire>, ghost k: nat, input: seq<byte>, cuts: seq<nat>)
      returns (ending: Ending, ghost log: seq<Action>)
      requires Valid() && ring.Contents() == [] && ring.size >= LongestPending(k) + 2
      requires WellFormed(ws) && (forall w <- ws :: PlainGap(w))
      requires Written(ws) == input && RunsAtMost(input, k)
      modifies ring`rd, ring`wr, ring.data, this`origin, this`sent, fb.pixels, shown.pixels
      ensures Valid() && ending.EndOfInput? && W() == Replay(S(), old(W()), log)
      ensures |cuts| >= |input| ==> ring.Contents() == [] && Executed(log) == Meant(ws)
    {
      hide *;
      ghost var chunks;
      ending, chunks, log := Serve(input, cuts);
      WellFormedClient(ws, chunks, k);
      FitIsBytes(chunks, ring.size - 1);
    }

    lemma AtMostFull()
      requires Valid()
      ensures 0 < ring.size && |ring.Contents()| <= ring.size - 1
    {
      hide Ring.Contents;
    }

    /**
     If after some part of the input the parser has left as many bytes as the ring can hold, then
     however the input is cut the ring fills up and the thread gives up.
     */
    method ServeOverfull(input: seq<byte>, ghost n: nat, cuts: seq<nat>) returns (ending: Ending)
      requires Valid() && ring.Contents() == []
      requires n <= |input| && |cuts| > n && Unambiguous(input[..n])
      requires !Run(input[..n]).status.Aborted? && |Run(input[..n]).rest| >= ring.size - 1
      modifies ring`rd, ring`wr, ring.data, this`origin, this`sent, fb.pixels, shown.pixels
      ensures Valid() && ending.RingFull?
    {
      hide *;
      ghost var chunks, log;
      ending, chunks, log := Serve(input, cuts);
      FitIsBytes(chunks, ring.size - 1);
      OverfullStops(input, n, chunks, ring.size - 1);
      AtMostFull();
    }

    /** A stuck client fills the ring with whatever it sends later, and is then dropped. */
    method ServeStuck(input: seq<byte>, ghost n: nat, cuts: seq<nat>) returns (ending: Ending)
      requires Valid() && ring.Contents() == []
      requires n <= |input| && Unambiguous(input[..n]) && Run(input[..n]).status.Blocked?
      requires |input| >= n + ring.size - 1 && |cuts| >= n + ring.size
      modifies ring`rd, ring`wr, ring.data, this`origin, this`sent, fb.pixels, shown.pixels
      ensures Valid() && ending.RingFull?
    {
      hide *;
      AtMostFull();
      StuckFills(input, n, ring.size - 1);
      ending := ServeOverfull(input, n + ring.size - 1, cuts);
    }

    /**
     No smaller ring than that of `ServeWellFormed` is enough: there is a well-formed client with
     plain gaps and whitespace runs of at most `k` bytes that stalls for all cuts.
     */
    method ServeLongest(k: nat, cuts: seq<nat>) returns (ending: Ending, ghost ws: seq<Wire>)
      requires Valid() && ring.Contents() == [] && k > 0 && ring.size <= LongestPending(k) + 1
      requires |cuts| > LongestPending(k)
      modifies ring`rd, ring`wr, ring.data, this`origin, this`sent, fb.pixels, shown.pixels
      ensures Valid() && ending.RingFull?
      ensures WellFormed(ws) && (forall w <- ws :: PlainGap(w)) && RunsAtMost(Written(ws), k)
      ensures Written(ws) == Longest(k) + [SPACE]
    {
      hide *;
      var input := Longest(k) + [SPACE];
      ws := LongestIsClient(k);
      PendingBoundReached(k);
      LongestIsPending(k);
      assert input[..LongestPending(k)] == Longest(k);
      ending := ServeOverfull(input, LongestPending(k), cuts);
    }
  }

  lemma ContinueRunning(r: Result, t: seq<byte>)
    requires !r.status.Aborted?
    ensures
      var q := Run(r.rest + t);
      Continue(r, t) == Result(r.cmds + q.cmds, q.status, q.rest)
  {
  }

  lemma ConcatReassociate<T>(a: seq<T>, b: seq<T>, c: seq<T>)
    ensures a + (b + c) == (a + b) + c
  {
  }
}
