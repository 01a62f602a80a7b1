/** From the events of the clients on one node to what the main framebuffer shows. */
module EndToEnd {
  import opened Bytes
  import opened Pixels
  import opened Protocol
  import opened Framebuffers
  import opened Drawing
  import opened Coalescing
  import opened LinkedLists
  import opened Grammar
  import opened Streams
  import opened Connections

  /** The main framebuffer after drawing on the one node framebuffer and merging it. */
  ghost function Displayed(s: Screen, main: seq<Pixel>, px: seq<Pixel>, es: seq<Event>): (r: seq<Pixel>)
    requires s.Sized(px)
    ensures |r| == |main|
  {
    MergeAll(s.blend, main, [s.DrawAll(px, es)], [0])
  }

  ghost predicate Transparent(px: seq<Pixel>) {
    forall j :: 0 <= j < |px| ==> px[j].alpha == 0
  }

  lemma DisplayedAt(s: Screen, main: seq<Pixel>, px: seq<Pixel>, es: seq<Event>, j: nat)
    requires s.Sized(px) && |main| == |px| && j < |px|
    ensures Displayed(s, main, px, es)[j] == MergePixel(s.blend, main[j], s.DrawAll(px, es)[j])
  {
    hide Screen.DrawAll, MergePixel;
    var layer := s.DrawAll(px, es);
    assert |layer| == |px|;
    MergeIsPointwise(s.blend, main, [layer], [0], j);
    assert [0][1..] == [];
    assert LayerPixel([layer], [0][0], j) == layer[j];
    assert Column(s.blend, MergePixel(s.blend, main[j], layer[j]), [layer], [], j)
        == MergePixel(s.blend, main[j], layer[j]);
  }

  /**
   Main result, without blending: for any interleaving of the clients' events, a pixel shows the
   colour of the last set command that hit it; if that was transparent, or there was none, it
   shows what it showed before.
   */
  lemma ShowsLastSet(s: Screen, main: seq<Pixel>, px: seq<Pixel>, es: seq<Event>, x: uint32, y: uint32)
    requires s.Sized(px) && |main| == |px| && Transparent(px) && !s.blend && s.Contains(x, y)
    ensures
      var j := s.Pos(x, y);
      var shown := Displayed(s, main, px, es)[j];
      && (forall k :: IsLastSet(es, x, y, k) ==>
            shown == if es[k].pixel.alpha != 0 then es[k].pixel else main[j])
      && ((forall e <- es :: e.SetPixel? ==> e.x != x || e.y != y) ==> shown == main[j])
  {
    hide Screen.Pos, Displayed, Screen.DrawAll;
    var j := s.Pos(x, y);
    DisplayedAt(s, main, px, es, j);
    forall k | IsLastSet(es, x, y, k)
      ensures Displayed(s, main, px, es)[j] == if es[k].pixel.alpha != 0 then es[k].pixel else main[j]
    {
      LastSetWins(s, px, es, x, y, k);
    }
    if forall e <- es :: e.SetPixel? ==> e.x != x || e.y != y {
      NoSetKeeps(s, px, es, x, y);
    }
  }

  /**
   With or without blending, a pixel that was set once is composited with what the main
   framebuffer showed: the detour through the node framebuffer loses nothing.
   */
  lemma ShowsSingleSet(s: Screen, main: seq<Pixel>, px: seq<Pixel>, es: seq<Event>, x: uint32, y: uint32, k: nat)
    requires s.Sized(px) && |main| == |px| && Transparent(px) && s.Contains(x, y)
    requires IsLastSet(es, x, y, k)
    requires forall i :: 0 <= i < k && es[i].SetPixel? ==> es[i].x != x || es[i].y != y
    ensures
      var j := s.Pos(x, y);
      && Displayed(s, main, px, es)[j] == MergePixel(s.blend, main[j], es[k].pixel)
      && (s.blend && main[j].alpha == 255 ==> IsMean(Displayed(s, main, px, es)[j], es[k].pixel, main[j]))
  {
    hide Screen.Pos, Displayed, Screen.DrawAll, Blend;
    var j := s.Pos(x, y);
    DisplayedAt(s, main, px, es, j);
    var before, after := es[..k], es[k + 1..];
    assert es == before + ([es[k]] + after);
    DrawAppend(s, px, before, [es[k]] + after);
    var mid := s.DrawAll(px, before);
    NoSetKeeps(s, px, before, x, y);
    DrawAppend(s, mid, [es[k]], after);
    SingleEvents(s, mid, [es[k]]);
    var drawn := s.Draw(mid, es[k]);
    DrawHits(s, mid, es[k]);
    NoSetKeeps(s, drawn, after, x, y);
    DrawnOverTransparent(s.blend, es[k].pixel, mid[j], main[j]);
    if s.blend && main[j].alpha == 255 {
      MergeIsMean(main[j], es[k].pixel);
    }
  }

  lemma DrawHits(s: Screen, px: seq<Pixel>, e: Event)
    requires s.Sized(px) && e.SetPixel? && s.Contains(e.x, e.y)
    ensures s.Draw(px, e)[s.Pos(e.x, e.y)] == Drawn(s.blend, e.pixel, px[s.Pos(e.x, e.y)])
  {
  }

  lemma DrawnOverTransparent(blend: bool, p: Pixel, below: Pixel, under: Pixel)
    requires below.alpha == 0
    ensures MergePixel(blend, under, Drawn(blend, p, below)) == MergePixel(blend, under, p)
  {
    hide Channel;
    if blend && p.alpha > 0 {
      BlendOverTransparent(p, below);
    }
  }

  /** If nothing but this client's commands happens, the next frame shows just these. */
  lemma QuietClient(s: Screen, w: World, log: seq<Action>)
    requires WorldSized(s, w) && forall a <- log :: a.Exec?
    ensures Replay(s, w, log + FrameLog(|w.px|)).shown
         == Displayed(s, w.shown, w.px, Events(w.origin, Executed(log)))
  {
    hide Screen.DrawAll, Screen.ReplyAll, Events, Origins, MergeAll, Merge, Replay, Executed, FrameLog;
    ReplayAppend(s, w, log, FrameLog(|w.px|));
    QuietReplay(s, w, log);
    var u := After(s, w, Executed(log));
    FrameMerges(s, u);
    OneLayer(s.blend, u.shown, u.px);
  }

  lemma OneLayer(blend: bool, main: seq<Pixel>, px: seq<Pixel>)
    ensures MergeAll(blend, main, [px], [0]) == Merge(blend, main, px)
  {
    hide Merge;
    assert [0][1..] == [];
  }

  /**
   From the socket to the screen: a well-formed client is served completely, however its bytes are
   cut into reads and whatever other clients and frames do in between, and the coalesce that
   follows is the next frame.
   */
  method ShowClient(conn: Connection, fbs: LList<Framebuffer>, ghost ws: seq<Wire>, ghost k: nat,
                    input: seq<byte>, cuts: seq<nat>, rands: seq<nat>, randMax: nat)
    returns (ghost log: seq<Action>)
    requires conn.Valid() && conn.ring.Contents() == [] && conn.ring.size >= LongestPending(k) + 2
    requires WellFormed(ws) && (forall w <- ws :: PlainGap(w))
    requires Written(ws) == input && RunsAtMost(input, k)
    requires |cuts| >= |input|
    requires fbs.Valid() && |fbs.nodes| == 1 && fbs.nodes[0].value == conn.fb
    requires Outcomes(rands, 1, randMax)
    modifies conn.ring`rd, conn.ring`wr, conn.ring.data, conn`origin, conn`sent, conn.fb.pixels, conn.shown.pixels
    ensures conn.Valid() && Executed(log) == Meant(ws)
    ensures conn.W() == Replay(conn.S(), old(conn.W()), log + FrameLog(conn.fb.pixels.Length))
    ensures Transparent(conn.fb.pixels[..])
  {
    hide Replay, Executed, FrameLog, Merge, ClearAll, WellFormed, RunsAtMost, PlainGap, Outcomes, Transparent;
    ghost var w := conn.W();
    var ending;
    ending, log := conn.ServeWellFormed(ws, k, input, cuts);
    ghost var u := conn.W();
    CoalesceOne(conn, fbs, rands, randMax);
    FrameReplayed(conn.S(), w, log, u);
    AllTransparent(u.px);
  }

  /** With a single node framebuffer a coalesce is one merge of it. */
  method CoalesceOne(conn: Connection, fbs: LList<Framebuffer>, rands: seq<nat>, randMax: nat)
    requires conn.Valid() && fbs.Valid() && |fbs.nodes| == 1 && fbs.nodes[0].value == conn.fb
    requires Outcomes(rands, 1, randMax)
    modifies conn.fb.pixels, conn.shown.pixels
    ensures conn.Valid()
    ensures
      var u := old(conn.W());
      conn.W() == u.(px := ClearAll(u.px), shown := Merge(conn.blend, u.shown, u.px))
  {
    hide MergeAll, ClearAll, Merge, Order, Outcomes, WorldSized;
    ghost var u := conn.W();
    ghost var layers := Layers(Values(fbs));
    assert layers == [u.px];
    var ok, order, visited := Coalesce(conn.shown, fbs, conn.blend, rands, randMax);
    OrderFacts(order, 1);
    assert order == [0] && order[..visited] == order;
    assert Layers(Values(fbs))[0] == ClearAll(u.px);
    OneLayer(conn.blend, u.shown, u.px);
  }

  lemma FrameReplayed(s: Screen, w: World, log: seq<Action>, u: World)
    requires WorldSized(s, w) && u == Replay(s, w, log)
    ensures WorldSized(s, u)
    ensures Replay(s, w, log + FrameLog(|u.px|))
         == u.(px := ClearAll(u.px), shown := Merge(s.blend, u.shown, u.px))
  {
    hide Replay, FrameLog, Merge, ClearAll, Executed;
    FrameMerges(s, u);
    ReplayAppend(s, w, log, FrameLog(|u.px|));
  }

  lemma AllTransparent(px: seq<Pixel>)
    ensures Transparent(ClearAll(px))
  {
  }
}
