/**
 The effect of executed commands on framebuffers and socket, interleaved in any way with what other
 threads do to the same framebuffers.
 */
module Drawing {
  import opened Arith
  import opened Bytes
  import opened Pixels
  import opened Protocol
  import opened Framebuffers
  import opened Coalescing
  import opened Replies

  /** The pixel stored for a set command; only with blending does the old pixel matter. */
  function Drawn(blend: bool, over: Pixel, under: Pixel): Pixel {
    if blend && over.alpha != 0xff then Blend(over, under) else over
  }

  /** Over an opaque pixel a blended one leaves the mean of both. */
  lemma DrawnIsMean(over: Pixel, under: Pixel)
    requires under.alpha == 255
    ensures IsMean(Drawn(true, over, under), over, under)
  {
    hide Blend, Mean;
    if over.alpha == 255 {
      MeanEnds(over.blue, under.blue);
      MeanEnds(over.green, under.green);
      MeanEnds(over.red, under.red);
    } else {
      BlendIsMean(over, under);
    }
  }

  datatype Screen = Screen(blend: bool, width: uint32, height: uint32) {
    predicate Contains(x: uint32, y: uint32) {
      x < width && y < height
    }

    /** The place of a pixel in the array. */
    function Pos(x: uint32, y: uint32): (i: nat)
      requires Contains(x, y) && width * height < TWO_32
      ensures i < width * height
    {
      IndexInRange(width, height, x, y);
      Index(width, x, y)
    }

    /** `px` has the size of this screen. */
    predicate Sized(px: seq<Pixel>) {
      |px| == width * height < TWO_32
    }

    /** Set commands outside the screen are ignored. */
    function Draw(px: seq<Pixel>, e: Event): (r: seq<Pixel>)
      requires Sized(px)
      ensures Sized(r)
    {
      if e.SetPixel? && Contains(e.x, e.y) then
        var i := Pos(e.x, e.y);
        px[i := Drawn(blend, e.pixel, px[i])]
      else px
    }

    function DrawAll(px: seq<Pixel>, es: seq<Event>): (r: seq<Pixel>)
      requires Sized(px)
      ensures Sized(r)
      decreases |es|
    {
      if es == [] then px else DrawAll(Draw(px, es[0]), es[1..])
    }

    /** Pixels outside the screen are not reported; the others as the main framebuffer shows them. */
    function Reply(shown: seq<Pixel>, e: Event): seq<byte>
      requires Sized(shown)
    {
      match e
      case SetPixel(_, _, _) => []
      case GetPixel(x, y) =>
        if Contains(x, y) then PixelReply(x, y, shown[Pos(x, y)]) else []
      case ReportSize => SizeReply(width, height)
    }

    function ReplyAll(shown: seq<Pixel>, es: seq<Event>): seq<byte>
      requires Sized(shown)
    {
      if es == [] then [] else Reply(shown, es[0]) + ReplyAll(shown, es[1..])
    }
  }

  /**
   What a connection works on: its offset, its socket, the framebuffer of its node and the main
   framebuffer.
   */
  datatype World = World(origin: Origin, sent: seq<byte>, px: seq<Pixel>, shown: seq<Pixel>)

  ghost predicate WorldSized(s: Screen, w: World) {
    s.Sized(w.px) && s.Sized(w.shown)
  }

  /**
   One atomic action: a command of this connection; an event of another client on the same node;
   one step of a frame, which merges and clears a single pixel of the node framebuffer; or a
   change of one pixel of the main framebuffer by anyone else, such as the merge of another node.
   */
  datatype Action = Exec(cmd: Command) | Other(e: Event) | MergeCell(i: nat) | Repaint(i: nat, p: Pixel)

  ghost function Act(s: Screen, w: World, a: Action): (r: World)
    requires WorldSized(s, w)
    ensures WorldSized(s, r)
  {
    match a
    case Exec(c) => After(s, w, [c])
    case Other(e) => w.(px := s.Draw(w.px, e))
    case MergeCell(i) => if i < |w.px| then Merged(s, w, i) else w
    case Repaint(i, p) => if i < |w.shown| then w.(shown := w.shown[i := p]) else w
  }

  ghost function Merged(s: Screen, w: World, i: nat): (r: World)
    requires WorldSized(s, w) && i < |w.px|
    ensures WorldSized(s, r)
  {
    w.(px := w.px[i := Clear(w.px[i])], shown := w.shown[i := MergePixel(s.blend, w.shown[i], w.px[i])])
  }

  ghost function Replay(s: Screen, w: World, log: seq<Action>): (r: World)
    requires WorldSized(s, w)
    ensures WorldSized(s, r)
    decreases |log|
  {
    if log == [] then w else Replay(s, Act(s, w, log[0]), log[1..])
  }

  /** The commands of this connection in a log. */
  ghost function Executed(log: seq<Action>): seq<Command>
    decreases |log|
  {
    if log == [] then []
    else (if log[0].Exec? then [log[0].cmd] else []) + Executed(log[1..])
  }

  ghost function ExecOf(c: Command): seq<Action> {
    if c.Unknown? then [] else [Exec(c)]
  }

  /** Logs can be replayed in two portions. */
  lemma {:induction false} ReplayAppend(s: Screen, w: World, log: seq<Action>, more: seq<Action>)
    requires WorldSized(s, w)
    ensures Replay(s, w, log + more) == Replay(s, Replay(s, w, log), more)
    ensures Executed(log + more) == Executed(log) + Executed(more)
    decreases |log|
  {
    hide Act, WorldSized;
    if log == [] {
      assert log + more == more;
    } else {
      assert (log + more)[1..] == log[1..] + more;
      ReplayAppend(s, Act(s, w, log[0]), log[1..], more);
    }
  }

  lemma ReplayOne(s: Screen, w: World, a: Action)
    requires WorldSized(s, w)
    ensures Replay(s, w, [a]) == Act(s, w, a) && Executed([a]) == if a.Exec? then [a.cmd] else []
  {
    hide Act;
    assert [a][1..] == [];
  }

  lemma ReplayNothing(s: Screen, w: World)
    requires WorldSized(s, w)
    ensures Replay(s, w, []) == w && Executed([]) == []
  {
  }

  /** Executing one command adds it to the log, unless it is an unknown token. */
  lemma ReplayExec(s: Screen, w: World, c: Command)
    requires WorldSized(s, w)
    ensures Replay(s, w, ExecOf(c)) == After(s, w, [c]) && Executed(ExecOf(c)) == Effective(c)
  {
    hide After;
    ReplayOne(s, w, Exec(c));
    ReplayNothing(s, w);
    AfterOne(s, w, c);
    AfterNothing(s, w);
  }

  /** Without other actions the world after a log is that after its commands. */
  lemma {:induction false} QuietReplay(s: Screen, w: World, log: seq<Action>)
    requires WorldSized(s, w) && forall a <- log :: a.Exec?
    ensures Replay(s, w, log) == After(s, w, Executed(log))
    decreases |log|
  {
    hide After, WorldSized;
    if log == [] {
      AfterNothing(s, w);
    } else {
      assert log[0] in log && forall a <- log[1..] :: a in log;
      QuietReplay(s, Act(s, w, log[0]), log[1..]);
      AfterAppend(s, w, [log[0].cmd], Executed(log[1..]));
    }
  }

  /** The world after executing `cmds` with nothing in between. */
  function After(s: Screen, w: World, cmds: seq<Command>): (r: World)
    requires s.Sized(w.px) && s.Sized(w.shown)
    ensures s.Sized(r.px) && r.shown == w.shown
  {
    var es := Events(w.origin, cmds);
    World(Origins(w.origin, cmds), w.sent + s.ReplyAll(w.shown, es), s.DrawAll(w.px, es), w.shown)
  }

  /** Executing commands in two portions is executing them all. */
  lemma AfterAppend(s: Screen, w: World, cs: seq<Command>, ds: seq<Command>)
    requires WorldSized(s, w)
    ensures After(s, After(s, w, cs), ds) == After(s, w, cs + ds)
  {
    hide Screen.DrawAll, Screen.ReplyAll, Events, Origins, Screen.Sized;
    EventsAppend(w.origin, cs, ds);
    var es, fs := Events(w.origin, cs), Events(Origins(w.origin, cs), ds);
    DrawAppend(s, w.px, es, fs);
    ReplyAppend(s, w.shown, es, fs);
    assert w.sent + s.ReplyAll(w.shown, es) + s.ReplyAll(w.shown, fs)
        == w.sent + (s.ReplyAll(w.shown, es) + s.ReplyAll(w.shown, fs));
  }

  lemma AfterNothing(s: Screen, w: World)
    requires WorldSized(s, w)
    ensures After(s, w, []) == w
  {
    assert Events(w.origin, []) == [] && Origins(w.origin, []) == w.origin;
    SingleEvents(s, w.px, []);
    SingleEvents(s, w.shown, []);
    assert w.sent + [] == w.sent;
  }

  /** One command, and an unknown one changes nothing. */
  lemma AfterOne(s: Screen, w: World, c: Command)
    requires WorldSized(s, w)
    ensures
      var es := EventOf(w.origin, c);
      After(s, w, [c])
      == World(OriginAfter(w.origin, c), w.sent + s.ReplyAll(w.shown, es), s.DrawAll(w.px, es), w.shown)
    ensures After(s, w, [c]) == After(s, w, Effective(c))
  {
    hide Screen.Sized, Screen.Draw, Screen.Reply, EventOf, OriginAfter;
    assert [c][1..] == [];
    var es := EventOf(w.origin, c);
    assert es + [] == es;
    assert Events(w.origin, [c]) == es;
    assert Origins(w.origin, [c]) == OriginAfter(w.origin, c);
    if c.Unknown? {
      UnknownHasNoEffect(w.origin);
      assert Events(w.origin, [c]) == Events(w.origin, []);
      assert Origins(w.origin, [c]) == Origins(w.origin, []);
    }
  }

  /**
   What each command does, in absolute coordinates: a set changes one cell of the node
   framebuffer and a query appends one report, both only on the screen; a size query appends the
   size; an offset replaces the offset.
   */
  lemma CommandEffects(s: Screen, w: World, c: Command)
    requires WorldSized(s, w)
    ensures c.Set? || c.Get? ==>
      var x, y := (c.x + w.origin.x) % TWO_32, (c.y + w.origin.y) % TWO_32;
      x < s.width && y < s.height ==> 0 <= y * s.width + x < |w.px| == |w.shown|
    ensures c.Set? ==>
      var x, y := (c.x + w.origin.x) % TWO_32, (c.y + w.origin.y) % TWO_32;
      After(s, w, [c]) ==
        if x < s.width && y < s.height then
          var i := y * s.width + x;
          w.(px := w.px[i := if s.blend && c.pixel.alpha < 255 then Blend(c.pixel, w.px[i]) else c.pixel])
        else w
    ensures c.Get? ==>
      var x, y := (c.x + w.origin.x) % TWO_32, (c.y + w.origin.y) % TWO_32;
      After(s, w, [c]) ==
        if x < s.width && y < s.height then
          w.(sent := w.sent + PixelReply(x, y, w.shown[y * s.width + x]))
        else w
    ensures c.Size? ==> After(s, w, [c]) == w.(sent := w.sent + SizeReply(s.width, s.height))
    ensures c.Offset? ==> After(s, w, [c]) == w.(origin := Origin(c.x, c.y))
    ensures c.Unknown? ==> After(s, w, [c]) == w
  {
    hide After, Blend, PixelReply, SizeReply, Index;
    AfterOne(s, w, c);
    var es := EventOf(w.origin, c);
    SingleEvents(s, w.px, es);
    SingleEvents(s, w.shown, es);
    assert w.sent + [] == w.sent;
    if c.Set? || c.Get? {
      var x, y := Shift(c.x, w.origin.x), Shift(c.y, w.origin.y);
      if x < s.width && y < s.height {
        IndexInRange(s.width, s.height, x, y);
      }
    }
  }

  lemma UnknownHasNoEffect(o: Origin)
    ensures EventOf(o, Unknown) == [] && OriginAfter(o, Unknown) == o
  {
  }

  lemma {:induction false} DrawAppend(s: Screen, px: seq<Pixel>, es: seq<Event>, fs: seq<Event>)
    requires s.Sized(px)
    ensures s.DrawAll(px, es + fs) == s.DrawAll(s.DrawAll(px, es), fs)
    decreases |es|
  {
    hide Screen.Draw, Screen.Sized;
    if es == [] {
      assert es + fs == fs;
    } else {
      assert (es + fs)[1..] == es[1..] + fs;
      DrawAppend(s, s.Draw(px, es[0]), es[1..], fs);
    }
  }

  lemma {:induction false} ReplyAppend(s: Screen, shown: seq<Pixel>, es: seq<Event>, fs: seq<Event>)
    requires s.Sized(shown)
    ensures s.ReplyAll(shown, es + fs) == s.ReplyAll(shown, es) + s.ReplyAll(shown, fs)
    decreases |es|
  {
    hide Screen.Reply, Screen.Sized;
    if es == [] {
      assert es + fs == fs;
    } else {
      assert (es + fs)[1..] == es[1..] + fs;
      ReplyAppend(s, shown, es[1..], fs);
    }
  }

  lemma {:induction false} EventsAppend(o: Origin, cs: seq<Command>, ds: seq<Command>)
    ensures Origins(o, cs + ds) == Origins(Origins(o, cs), ds)
    ensures Events(o, cs + ds) == Events(o, cs) + Events(Origins(o, cs), ds)
    decreases |cs|
  {
    if cs == [] {
      assert cs + ds == ds;
    } else {
      assert (cs + ds)[1..] == cs[1..] + ds;
      EventsAppend(OriginAfter(o, cs[0]), cs[1..], ds);
    }
  }

  /** The event at the place that the offset `o` moves it to. */
  ghost function Moved(o: Origin, e: Event): Event {
    match e
    case SetPixel(x, y, p) => Event.SetPixel((x + o.x) % TWO_32, (y + o.y) % TWO_32, p)
    case GetPixel(x, y) => Event.GetPixel((x + o.x) % TWO_32, (y + o.y) % TWO_32)
    case ReportSize => ReportSize
  }

  /** Until the next offset command all events are moved by the offset in force. */
  lemma {:induction false} OffsetMoves(o: Origin, cmds: seq<Command>)
    requires forall c <- cmds :: !c.Offset?
    ensures |Events(o, cmds)| == |Events(Origin(0, 0), cmds)|
    ensures forall i :: 0 <= i < |Events(o, cmds)| ==> Events(o, cmds)[i] == Moved(o, Events(Origin(0, 0), cmds)[i])
    decreases |cmds|
  {
    if cmds != [] {
      assert cmds[0] in cmds && forall c <- cmds[1..] :: c in cmds;
      OffsetMoves(o, cmds[1..]);
      MovedOne(o, cmds[0]);
    }
  }

  lemma MovedOne(o: Origin, c: Command)
    ensures |EventOf(o, c)| == |EventOf(Origin(0, 0), c)| <= 1
    ensures EventOf(o, c) != [] ==> EventOf(o, c)[0] == Moved(o, EventOf(Origin(0, 0), c)[0])
  {
    if c.Set? || c.Get? {
      ModSmall(c.x);
      ModSmall(c.y);
      assert Shift(c.x, 0) == c.x && Shift(c.y, 0) == c.y;
    }
  }

  /** An offset command replaces the offset in force; it does not add to it. */
  lemma OffsetReplaces(o: Origin, before: seq<Command>, x: uint32, y: uint32, after: seq<Command>)
    ensures
      Events(o, before + [Offset(x, y)] + after) == Events(o, before) + Events(Origin(x, y), after)
  {
    var c := Offset(x, y);
    assert before + [c] + after == before + ([c] + after);
    EventsAppend(o, before, [c] + after);
    assert ([c] + after)[1..] == after;
  }

  /** Sending back the answer to a pixel query draws the pixel that was shown, fully opaque. */
  lemma ReplyRestores(s: Screen, shown: seq<Pixel>, x: uint32, y: uint32)
    requires s.Sized(shown) && s.Contains(x, y)
    ensures
      var r := Run(s.Reply(shown, Event.GetPixel(x, y)));
      && r.status.Waiting? && r.rest == []
      && Events(Origin(0, 0), r.cmds) == [Event.SetPixel(x, y, shown[s.Pos(x, y)].(alpha := 0xff))]
  {
    hide Run, PixelReply, Screen.Pos;
    var p := shown[s.Pos(x, y)];
    GetSetRoundTrip(x, y, p);
    var c := Set(x, y, p.(alpha := 0xff));
    assert [c][1..] == [];
    assert EventOf(Origin(0, 0), c) == [Event.SetPixel(x, y, p.(alpha := 0xff))];
  }

  lemma SingleEvents(s: Screen, px: seq<Pixel>, es: seq<Event>)
    requires s.Sized(px)
    ensures es == [] ==> s.DrawAll(px, es) == px && s.ReplyAll(px, es) == []
    ensures |es| == 1 ==> s.DrawAll(px, es) == s.Draw(px, es[0]) && s.ReplyAll(px, es) == s.Reply(px, es[0])
    ensures |es| == 1 && !es[0].SetPixel? ==> s.DrawAll(px, es) == px
    ensures |es| == 1 && es[0].SetPixel? ==> s.ReplyAll(px, es) == []
  {
    hide PixelReply, SizeReply, Screen.Pos;
    assert |es| == 1 ==> es[1..] == [];
  }

  lemma ReplyCases(s: Screen, shown: seq<Pixel>, e: Event)
    requires s.Sized(shown)
    ensures e.ReportSize? ==> s.Reply(shown, e) == SizeReply(s.width, s.height)
  {
  }

  /** The last set command that hits pixel `(x, y)`. */
  ghost predicate IsLastSet(es: seq<Event>, x: uint32, y: uint32, k: int) {
    && 0 <= k < |es| && es[k].SetPixel? && es[k].x == x && es[k].y == y
    && forall j :: k < j < |es| && es[j].SetPixel? ==> es[j].x != x || es[j].y != y
  }

  /** Without blending a pixel is what the last set command made it. */
  lemma {:induction false} LastSetWins(s: Screen, px: seq<Pixel>, es: seq<Event>, x: uint32, y: uint32, k: int)
    requires s.Sized(px) && !s.blend && s.Contains(x, y) && IsLastSet(es, x, y, k)
    ensures s.DrawAll(px, es)[s.Pos(x, y)] == es[k].pixel
    decreases |es|
  {
    hide Screen.Pos;
    if k == 0 {
      NoSetKeeps(s, s.Draw(px, es[0]), es[1..], x, y);
    } else {
      assert IsLastSet(es[1..], x, y, k - 1);
      LastSetWins(s, s.Draw(px, es[0]), es[1..], x, y, k - 1);
    }
  }

  /** A pixel that no set command hits keeps its value. */
  lemma {:induction false} NoSetKeeps(s: Screen, px: seq<Pixel>, es: seq<Event>, x: uint32, y: uint32)
    requires s.Sized(px) && s.Contains(x, y)
    requires forall e <- es :: e.SetPixel? ==> e.x != x || e.y != y
    ensures s.DrawAll(px, es)[s.Pos(x, y)] == px[s.Pos(x, y)]
    decreases |es|
  {
    hide Screen.Pos;
    if es != [] {
      DrawElsewhere(s, px, es[0], x, y);
      NoSetKeeps(s, s.Draw(px, es[0]), es[1..], x, y);
    }
  }

  lemma DrawElsewhere(s: Screen, px: seq<Pixel>, e: Event, x: uint32, y: uint32)
    requires s.Sized(px) && s.Contains(x, y)
    requires e.SetPixel? ==> e.x != x || e.y != y
    ensures s.Draw(px, e)[s.Pos(x, y)] == px[s.Pos(x, y)]
  {
    hide Index;
    if e.SetPixel? && s.Contains(e.x, e.y) {
      IndexInjective(s.width, s.height, x, y, e.x, e.y);
    }
  }

  // ----- Frames

  /** The steps of a frame that merges the first `n` pixels, without anything in between. */
  ghost function FrameLog(n: nat): (log: seq<Action>)
    ensures |log| == n && forall i :: 0 <= i < n ==> log[i] == MergeCell(i)
  {
    if n == 0 then [] else FrameLog(n - 1) + [MergeCell(n - 1)]
  }

  lemma {:induction false} FramePart(s: Screen, w: World, n: nat)
    requires WorldSized(s, w) && n <= |w.px|
    ensures
      var r := Replay(s, w, FrameLog(n));
      && Executed(FrameLog(n)) == [] && r == w.(px := r.px, shown := r.shown)
      && (forall i :: 0 <= i < n ==>
            r.px[i] == Clear(w.px[i]) && r.shown[i] == MergePixel(s.blend, w.shown[i], w.px[i]))
      && forall i :: n <= i < |w.px| ==> r.px[i] == w.px[i] && r.shown[i] == w.shown[i]
    decreases n
  {
    hide Clear, MergePixel, Replay, Executed;
    if n == 0 {
      ReplayNothing(s, w);
    } else {
      FramePart(s, w, n - 1);
      ReplayAppend(s, w, FrameLog(n - 1), [MergeCell(n - 1)]);
      ReplayOne(s, Replay(s, w, FrameLog(n - 1)), MergeCell(n - 1));
    }
  }

  /** A frame without anything in between is a merge of the whole framebuffer. */
  lemma FrameMerges(s: Screen, w: World)
    requires WorldSized(s, w)
    ensures Replay(s, w, FrameLog(|w.px|)) == w.(px := ClearAll(w.px), shown := Merge(s.blend, w.shown, w.px))
    ensures Executed(FrameLog(|w.px|)) == []
  {
    hide Clear, MergePixel, Replay, Executed, FrameLog;
    FramePart(s, w, |w.px|);
    var r := Replay(s, w, FrameLog(|w.px|));
    assert r.px == ClearAll(w.px) && r.shown == Merge(s.blend, w.shown, w.px);
  }

  // ----- What the next frame will show

  /** Pixel `j` of the main framebuffer if it were merged now. */
  ghost function Visible(s: Screen, w: World, j: nat): Pixel
    requires WorldSized(s, w) && j < |w.px|
  {
    MergePixel(s.blend, w.shown[j], w.px[j])
  }

  /** The pixel that an action draws at `(x, y)`, if any, with the offset `o` in force. */
  ghost predicate Sets(o: Origin, a: Action, x: uint32, y: uint32, p: Pixel) {
    match a
    case Exec(c) => EventOf(o, c) == [Event.SetPixel(x, y, p)]
    case Other(e) => e == Event.SetPixel(x, y, p)
    case _ => false
  }

  /** The action neither draws at `(x, y)` nor repaints this pixel of the main framebuffer. */
  ghost predicate Spares(s: Screen, o: Origin, a: Action, x: uint32, y: uint32)
    requires s.Contains(x, y) && s.width * s.height < TWO_32
  {
    !(a.Repaint? && a.i == s.Pos(x, y)) && forall p :: !Sets(o, a, x, y, p)
  }

  /** No action in the log changes what is to be shown at `(x, y)`.  Frames may occur. */
  ghost predicate Untouched(s: Screen, o: Origin, log: seq<Action>, x: uint32, y: uint32)
    requires s.Contains(x, y) && s.width * s.height < TWO_32
    decreases |log|
  {
    log != [] ==>
      && Spares(s, o, log[0], x, y)
      && Untouched(s, if log[0].Exec? then OriginAfter(o, log[0].cmd) else o, log[1..], x, y)
  }

  lemma ActKeepsVisible(s: Screen, w: World, a: Action, x: uint32, y: uint32)
    requires WorldSized(s, w) && s.Contains(x, y) && Spares(s, w.origin, a, x, y)
    ensures Visible(s, Act(s, w, a), s.Pos(x, y)) == Visible(s, w, s.Pos(x, y))
    ensures w.px[s.Pos(x, y)].alpha == 0 || a == MergeCell(s.Pos(x, y)) ==> Act(s, w, a).px[s.Pos(x, y)].alpha == 0
  {
    hide Screen.Pos, Screen.Draw, After, Blend;
    match a {
      case Exec(c) =>
        AfterOne(s, w, c);
        var es := EventOf(w.origin, c);
        SingleEvents(s, w.px, es);
        if es != [] && es[0].SetPixel? {
          assert !Sets(w.origin, a, x, y, es[0].pixel);
          DrawElsewhere(s, w.px, es[0], x, y);
        }
      case Other(e) =>
        if e.SetPixel? {
          assert !Sets(w.origin, a, x, y, e.pixel);
        }
        DrawElsewhere(s, w.px, e, x, y);
      case MergeCell(_) =>
      case Repaint(_, _) =>
    }
  }

  /**
   What will be shown at a pixel changes only by drawing there, or by repainting it; how far any
   frame has got does not matter.  Once a frame has merged the pixel, it is what is shown.
   */
  lemma {:induction false} UntouchedKeepsVisible(s: Screen, w: World, log: seq<Action>, x: uint32, y: uint32)
    requires WorldSized(s, w) && s.Contains(x, y) && Untouched(s, w.origin, log, x, y)
    ensures Visible(s, Replay(s, w, log), s.Pos(x, y)) == Visible(s, w, s.Pos(x, y))
    ensures w.px[s.Pos(x, y)].alpha == 0 || MergeCell(s.Pos(x, y)) in log
      ==> Replay(s, w, log).px[s.Pos(x, y)].alpha == 0
    decreases |log|
  {
    hide Screen.Pos, Visible, WorldSized, Spares;
    if log != [] {
      ActKeepsVisible(s, w, log[0], x, y);
      ActOrigin(s, w, log[0]);
      UntouchedKeepsVisible(s, Act(s, w, log[0]), log[1..], x, y);
    }
  }

  lemma ActOrigin(s: Screen, w: World, a: Action)
    requires WorldSized(s, w)
    ensures Act(s, w, a).origin == if a.Exec? then OriginAfter(w.origin, a.cmd) else w.origin
  {
    hide Screen.Sized, Screen.DrawAll, Screen.ReplyAll, OriginAfter, Screen.Draw;
    if a.Exec? {
      AfterOne(s, w, a.cmd);
    }
  }

  /** A drawn pixel is composited on what the node framebuffer held, and that on what was shown. */
  lemma SetIsVisible(s: Screen, w: World, a: Action, x: uint32, y: uint32, p: Pixel)
    requires WorldSized(s, w) && s.Contains(x, y) && Sets(w.origin, a, x, y, p)
    ensures
      var j := s.Pos(x, y);
      Visible(s, Act(s, w, a), j) == MergePixel(s.blend, w.shown[j], Drawn(s.blend, p, w.px[j]))
  {
    hide Screen.Pos, After, Blend;
    if a.Exec? {
      AfterOne(s, w, a.cmd);
      SingleEvents(s, w.px, EventOf(w.origin, a.cmd));
    }
  }

  /**
   Main result, for every interleaving of this client, the other clients on the node and the
   single steps of any number of frames: once a frame has merged a pixel after it was last drawn,
   it shows what was drawn (composited, when blending), as long as nobody repaints it.
   */
  lemma LastDrawnIsShown(s: Screen, w: World, before: seq<Action>, a: Action, after: seq<Action>,
                         x: uint32, y: uint32, p: Pixel)
    requires WorldSized(s, w) && s.Contains(x, y)
    ensures
      var j, u := s.Pos(x, y), Replay(s, w, before);
      Sets(u.origin, a, x, y, p) && Untouched(s, Act(s, u, a).origin, after, x, y) && MergeCell(j) in after ==>
        Replay(s, w, before + [a] + after).shown[j] == MergePixel(s.blend, u.shown[j], Drawn(s.blend, p, u.px[j]))
  {
    hide Screen.Pos, Replay, Sets, Untouched, Executed, MergePixel, Drawn;
    var j, u := s.Pos(x, y), Replay(s, w, before);
    ReplayAppend(s, w, before + [a], after);
    ReplayAppend(s, w, before, [a]);
    ReplayOne(s, u, a);
    if Sets(u.origin, a, x, y, p) && Untouched(s, Act(s, u, a).origin, after, x, y) && MergeCell(j) in after {
      SetIsVisible(s, u, a, x, y, p);
      UntouchedKeepsVisible(s, Act(s, u, a), after, x, y);
      MergedIsShown(s, Replay(s, w, before + [a] + after), j);
    }
  }

  lemma MergedIsShown(s: Screen, w: World, j: nat)
    requires WorldSized(s, w) && j < |w.px| && w.px[j].alpha == 0
    ensures w.shown[j] == Visible(s, w, j)
  {
  }

  /** Two equal white set commands at alpha 1 on a cleared pixel leave a darker one: 253 of 255. */
  lemma EqualSetsDarken(s: Screen, px: seq<Pixel>, x: uint32, y: uint32, white: Pixel)
    requires s.Sized(px) && s.Contains(x, y) && s.blend && px[s.Pos(x, y)].alpha == 0
    requires white.alpha == 1 && white.blue == white.green == white.red == 255
    ensures
      var e := Event.SetPixel(x, y, white);
      && s.Draw(px, e)[s.Pos(x, y)] == white
      && s.DrawAll(px, [e, e])[s.Pos(x, y)] == Pixel(1, 253, 253, 253)
  {
    hide Screen.Pos, Blend;
    var e := Event.SetPixel(x, y, white);
    BlendOverTransparent(white, px[s.Pos(x, y)]);
    WhiteDarkens(white);
    assert [e, e][1..] == [e] && [e][1..] == [];
    assert s.DrawAll(px, [e, e]) == s.DrawAll(s.Draw(px, e), [e]) == s.Draw(s.Draw(px, e), e);
  }
}
