/** Merging the per-node framebuffers into the main framebuffer, in random order. */
module Coalescing {
  import opened Arith
  import opened Pixels
  import opened Framebuffers
  import opened LinkedLists

  // ----- The shuffle

  /** The offset that one random outcome selects among `n` cells. */
  function Pick(r: nat, randMax: nat, n: nat): int
    requires n > 0
  {
    PickDivisor(randMax, n);
    r / (randMax / n + 1)
  }

  lemma PickDivisor(randMax: nat, n: nat)
    requires n > 0
    ensures randMax / n >= 0
  {
    AtLeast(randMax, n, 0);
  }

  /** Every outcome selects one of the cells. */
  lemma PickInRange(r: nat, randMax: nat, n: nat)
    requires r <= randMax && n > 0
    ensures 0 <= Pick(r, randMax, n) < n
    ensures Pick(r, randMax, n) <= Pick(randMax, randMax, n)
  {
    PickDivisor(randMax, n);
    var d := randMax / n + 1;
    DivRemainder(randMax, n);
    assert randMax < d * n;
    DivBounds(r, d, 0, n - 1);
    DivMonotone(r, randMax, d);
  }

  /** The outcomes are cut into blocks of equal size, in order, one for each cell. */
  lemma PickBlocks(r: nat, randMax: nat, n: nat, c: nat)
    requires n > 0
    ensures
      var size := randMax / n + 1;
      Pick(r, randMax, n) == c <==> c * size <= r < (c + 1) * size
  {
    PickDivisor(randMax, n);
    var size := randMax / n + 1;
    DivRemainder(r, size);
    if c * size <= r < (c + 1) * size {
      DivBounds(r, size, c, c);
    }
  }

  function Swap<T>(s: seq<T>, i: nat, j: nat): seq<T>
    requires i < |s| && j < |s|
  {
    s[i := s[j]][j := s[i]]
  }

  /** The cells from `i` on after shuffling with the outcomes `rands`. */
  function Shuffled<T>(s: seq<T>, i: nat, rands: seq<nat>, randMax: nat): seq<T>
    requires i <= |s| && |s| <= |rands| && forall r <- rands :: r <= randMax
    decreases |s| - i
  {
    if i + 1 >= |s| then s else
    assert rands[i] in rands;
    PickInRange(rands[i], randMax, |s| - i);
    Shuffled(Swap(s, i, i + Pick(rands[i], randMax, |s| - i)), i + 1, rands, randMax)
  }

  /** Shuffling permutes, whatever the outcomes. */
  lemma {:induction false} ShuffledPermutes<T>(s: seq<T>, i: nat, rands: seq<nat>, randMax: nat)
    requires i <= |s| && |s| <= |rands| && forall r <- rands :: r <= randMax
    ensures |Shuffled(s, i, rands, randMax)| == |s|
    ensures multiset(Shuffled(s, i, rands, randMax)) == multiset(s)
    decreases |s| - i
  {
    hide Pick;
    if i + 1 < |s| {
      assert rands[i] in rands;
      PickInRange(rands[i], randMax, |s| - i);
      ShuffledPermutes(Swap(s, i, i + Pick(rands[i], randMax, |s| - i)), i + 1, rands, randMax);
    }
  }

  method ArrayShuffle<T>(arr: array<T>, rands: seq<nat>, randMax: nat)
    requires arr.Length <= |rands| && forall r <- rands :: r <= randMax
    modifies arr
    ensures arr[..] == Shuffled(old(arr[..]), 0, rands, randMax)
  {
    hide Pick;
    var len, i := arr.Length, 0;
    while i + 1 < len
      invariant i <= len
      invariant Shuffled(arr[..], i, rands, randMax) == Shuffled(old(arr[..]), 0, rands, randMax)
    {
      assert rands[i] in rands;
      PickInRange(rands[i], randMax, len - i);
      var j := i + Pick(rands[i], randMax, len - i);
      ghost var s := arr[..];
      var tmp := arr[j];
      arr[j] := arr[i];
      arr[i] := tmp;
      assert arr[..] == Swap(s, i, j);
      i := i + 1;
    }
  }

  ghost function Identity(n: nat): seq<nat> {
    seq(n, i requires 0 <= i < n => i)
  }

  /** Each of the numbers below `n` once. */
  ghost predicate IsOrder(p: seq<nat>, n: nat) {
    multiset(p) == multiset(Identity(n))
  }

  ghost predicate Indices(order: seq<nat>, n: nat) {
    forall i :: 0 <= i < |order| ==> order[i] < n
  }

  /** A shuffled index array visits every layer exactly once. */
  lemma OrderFacts(p: seq<nat>, n: nat)
    requires IsOrder(p, n)
    ensures |p| == n && Distinct(p) && Indices(p, n)
    ensures forall a :: 0 <= a < n ==> a in p
  {
    var id := Identity(n);
    assert |multiset(p)| == |p| && |multiset(id)| == n;
    forall i | 0 <= i < |p| ensures p[i] < n {
      assert p[i] in multiset(p);
      assert p[i] in id;
    }
    forall a | 0 <= a < n ensures a in p {
      assert id[a] in multiset(id);
    }
    forall i, j | 0 <= i < j < |p| ensures p[i] != p[j] {
      CountAtMostOne(n, p[i]);
      if p[i] == p[j] {
        CountTwo(p, i, j);
      }
    }
  }

  lemma {:induction false} CountAtMostOne(n: nat, k: nat)
    ensures multiset(Identity(n))[k] <= 1
    decreases n
  {
    if n > 0 {
      CountAtMostOne(n - 1, k);
      assert Identity(n) == Identity(n - 1) + [n - 1];
      if k == n - 1 {
        assert k !in Identity(n - 1);
      }
    }
  }

  lemma CountTwo<T>(p: seq<T>, i: nat, j: nat)
    requires i < j < |p| && p[i] == p[j]
    ensures multiset(p)[p[i]] >= 2
  {
    assert p == p[..i + 1] + p[i + 1..];
    assert p[i] in p[..i + 1] && p[i + 1..][j - i - 1] == p[j];
    assert p[j] in p[i + 1..];
  }

  // ----- Which orders can come out?

  /** Among up to `n` cells the largest outcome selects the last one. */
  ghost predicate EveryPick(n: nat, randMax: nat) {
    forall m :: 1 <= m <= n ==> Pick(randMax, randMax, m) == m - 1
  }

  /** If the largest outcome selects the last cell, every cell is selected by some outcome. */
  lemma PickReaches(randMax: nat, n: nat, c: nat) returns (r: nat)
    requires c < n && Pick(randMax, randMax, n) == n - 1
    ensures r <= randMax && Pick(r, randMax, n) == c
  {
    PickDivisor(randMax, n);
    var d := randMax / n + 1;
    r := c * d;
    DivRemainder(randMax, d);
    MulLe(c, n - 1, d);
    DivBounds(r, d, c, c);
  }

  /** Enough random outcomes for up to 46340 framebuffers if `randMax` is 2^31 - 1. */
  lemma EnoughOutcomes(n: nat, randMax: nat)
    requires randMax >= n * n
    ensures EveryPick(n, randMax)
  {
    hide Pick;
    forall m | 1 <= m <= n ensures Pick(randMax, randMax, m) == m - 1 {
      MulLe(m, n, m);
      MulLe(m, n, n);
      LargestPick(randMax, m);
    }
  }

  lemma LargestPick(randMax: nat, m: nat)
    requires m >= 1 && randMax >= m * m
    ensures Pick(randMax, randMax, m) == m - 1
  {
    PickDivisor(randMax, m);
    var q := randMax / m;
    DivRemainder(randMax, m);
    AtLeast(randMax, m, m);
    assert (m - 1) * (q + 1) == m * q + m - q - 1;
    DivBounds(randMax, q + 1, m - 1, m - 1);
  }

  ghost predicate Outcomes(rands: seq<nat>, n: nat, randMax: nat) {
    n <= |rands| && forall r <- rands :: r <= randMax
  }

  /** The visiting order that random outcomes give. */
  ghost function Order(n: nat, rands: seq<nat>, randMax: nat): (p: seq<nat>)
    requires Outcomes(rands, n, randMax)
    ensures IsOrder(p, n) && |p| == n && Indices(p, n)
  {
    var p := Shuffled(Identity(n), 0, rands, randMax);
    ShuffledPermutes(Identity(n), 0, rands, randMax);
    OrderFacts(p, n);
    p
  }

  /** Cells before `i` stay, and outcomes before `i` are not looked at. */
  lemma {:induction false} ShuffledFrom<T>(s: seq<T>, i: nat, rands: seq<nat>, more: seq<nat>, randMax: nat)
    requires i <= |s| && Outcomes(rands, |s|, randMax) && Outcomes(more, |s|, randMax) && rands[i..] == more[i..]
    ensures |Shuffled(s, i, rands, randMax)| == |s| && Shuffled(s, i, rands, randMax)[..i] == s[..i]
    ensures Shuffled(s, i, rands, randMax) == Shuffled(s, i, more, randMax)
    ensures i + 1 < |s| ==>
      var c := Pick(rands[i], randMax, |s| - i);
      0 <= c < |s| - i && Shuffled(s, i, rands, randMax)[i] == s[i + c]
    decreases |s| - i
  {
    hide Pick;
    if i + 1 < |s| {
      assert rands[i] in rands && rands[i] == rands[i..][0] == more[i];
      PickInRange(rands[i], randMax, |s| - i);
      var t := Swap(s, i, i + Pick(rands[i], randMax, |s| - i));
      assert rands[i + 1..] == rands[i..][1..] == more[i..][1..] == more[i + 1..];
      ShuffledFrom(t, i + 1, rands, more, randMax);
      var u := Shuffled(t, i + 1, rands, randMax);
      assert u[..i] == u[..i + 1][..i] == t[..i + 1][..i] == s[..i];
      assert u[i] == u[..i + 1][i] == t[..i + 1][i] == t[i];
    }
  }

  /** Where an element of the rest of a permutation stands. */
  lemma FindInRest<T>(s: seq<T>, p: seq<T>, i: nat) returns (j: nat)
    requires i < |s| == |p| && s[..i] == p[..i] && multiset(s) == multiset(p)
    ensures i <= j < |s| && s[j] == p[i]
  {
    assert s == s[..i] + s[i..] && p == p[..i] + p[i..];
    assert multiset(s[i..]) == multiset(s) - multiset(s[..i]) && multiset(p[i..]) == multiset(p) - multiset(p[..i]);
    assert p[i] == p[i..][0] && p[i] in multiset(p[i..]);
    assert p[i] in s[i..];
    var k :| 0 <= k < |s[i..]| && s[i..][k] == p[i];
    j := i + k;
  }

  lemma OneCellLeft<T>(s: seq<T>, p: seq<T>, i: nat)
    requires i <= |s| <= i + 1 && |s| == |p| && s[..i] == p[..i] && multiset(s) == multiset(p)
    ensures s == p
  {
    if i < |s| {
      var j := FindInRest(s, p, i);
      assert s == s[..i] + [s[i]] && p == p[..i] + [p[i]];
    }
  }

  lemma SwapExtends<T>(s: seq<T>, p: seq<T>, i: nat, j: nat)
    requires i <= j < |s| == |p| && s[..i] == p[..i] && s[j] == p[i]
    ensures |Swap(s, i, j)| == |s| && multiset(Swap(s, i, j)) == multiset(s)
    ensures Swap(s, i, j)[..i + 1] == p[..i + 1]
  {
    var t := Swap(s, i, j);
    assert t[..i + 1] == s[..i] + [p[i]] == p[..i + 1];
  }

  /** Suitable outcomes lead to any given permutation. */
  lemma {:induction false} Reaches<T>(s: seq<T>, p: seq<T>, i: nat, randMax: nat) returns (rands: seq<nat>)
    requires i <= |s| == |p| && s[..i] == p[..i] && multiset(s) == multiset(p) && EveryPick(|s|, randMax)
    ensures Outcomes(rands, |s|, randMax) && Shuffled(s, i, rands, randMax) == p
    decreases |s| - i
  {
    hide Pick, Swap;
    var n := |s|;
    if i + 1 >= n {
      rands := seq(n, _ => 0);
      OneCellLeft(s, p, i);
    } else {
      var j := FindInRest(s, p, i);
      var r := PickReaches(randMax, n - i, j - i);
      var t := Swap(s, i, j);
      SwapExtends(s, p, i, j);
      var more := Reaches(t, p, i + 1, randMax);
      rands := more[i := r];
      assert forall k :: 0 <= k < |more| ==> more[k] in more;
      assert rands[i + 1..] == more[i + 1..];
      ShuffledFrom(t, i + 1, rands, more, randMax);
    }
  }

  /** The order that begins like the identity and then takes the last cell. */
  ghost function TakeLast(n: nat, i: nat): seq<nat>
    requires i < n
  {
    Swap(Identity(n), i, n - 1)
  }

  lemma TakeLastIsOrder(n: nat, i: nat)
    requires i < n
    ensures IsOrder(TakeLast(n, i), n) && TakeLast(n, i)[..i] == Identity(n)[..i] && TakeLast(n, i)[i] == n - 1
  {
  }

  /** Only the largest pick at cell `i` leads there. */
  lemma {:induction false} TakeLastNeeds(n: nat, i: nat, k: nat, rands: seq<nat>, randMax: nat)
    requires k <= i && i + 1 < n && Outcomes(rands, n, randMax)
    requires Shuffled(Identity(n), k, rands, randMax) == TakeLast(n, i)
    ensures Pick(randMax, randMax, n - i) == n - i - 1
    decreases i - k
  {
    hide Pick, TakeLast, IsOrder;
    var id := Identity(n);
    assert rands[k] in rands;
    PickInRange(rands[k], randMax, n - k);
    PickInRange(randMax, randMax, n - i);
    var c := Pick(rands[k], randMax, n - k);
    var t := Swap(id, k, k + c);
    ShuffledFrom(t, k + 1, rands, rands, randMax);
    TakeLastIsOrder(n, i);
    var p := TakeLast(n, i);
    assert p[k] == p[..k + 1][k] == t[..k + 1][k] == k + c;
    if k < i {
      assert p[k] == p[..i][k] == id[k];
      assert t == id;
      TakeLastNeeds(n, i, k + 1, rands, randMax);
    }
  }

  /**
   The shuffle can produce every visiting order if and only if for up to `n` cells the largest
   outcome selects the last one; with too few outcomes some orders never occur.
   */
  lemma EveryOrder(n: nat, randMax: nat)
    ensures EveryPick(n, randMax) <==>
      forall p | IsOrder(p, n) :: exists rands :: Outcomes(rands, n, randMax) && Order(n, rands, randMax) == p
  {
    hide Pick, IsOrder, TakeLast, Outcomes;
    if EveryPick(n, randMax) {
      forall p | IsOrder(p, n)
        ensures exists rands :: Outcomes(rands, n, randMax) && Order(n, rands, randMax) == p
      {
        var rands := OrderReached(n, p, randMax);
      }
    } else {
      var m :| 1 <= m <= n && Pick(randMax, randMax, m) != m - 1;
      if forall p | IsOrder(p, n) :: exists rands :: Outcomes(rands, n, randMax) && Order(n, rands, randMax) == p {
        TakeLastIsOrder(n, n - m);
        var rands :| Outcomes(rands, n, randMax) && Order(n, rands, randMax) == TakeLast(n, n - m);
        OnePick(randMax);
        TakeLastNeeds(n, n - m, 0, rands, randMax);
      }
    }
  }

  lemma OnePick(randMax: nat)
    ensures Pick(randMax, randMax, 1) == 0
  {
    PickInRange(randMax, randMax, 1);
  }

  lemma OrderReached(n: nat, p: seq<nat>, randMax: nat) returns (rands: seq<nat>)
    requires IsOrder(p, n) && EveryPick(n, randMax)
    ensures Outcomes(rands, n, randMax) && Order(n, rands, randMax) == p
  {
    hide Pick, EveryPick;
    OrderFacts(p, n);
    rands := Reaches(Identity(n), p, 0, randMax);
  }

  // ----- Merging on pixel values

  /** A transparent pixel contributes nothing; with blending a partly opaque one is composited. */
  function MergePixel(blend: bool, under: Pixel, over: Pixel): Pixel {
    if over.alpha == 0 then under
    else if blend && over.alpha != 0xff then Blend(over, under)
    else over
  }

  /** With blending, a contribution to an opaque pixel is mixed in by its alpha. */
  lemma MergeIsMean(under: Pixel, over: Pixel)
    requires under.alpha == 255
    ensures IsMean(MergePixel(true, under, over), over, under)
  {
    hide Blend, Mean;
    if over.alpha == 0 || over.alpha == 255 {
      MeanEnds(over.blue, under.blue);
      MeanEnds(over.green, under.green);
      MeanEnds(over.red, under.red);
    } else {
      BlendIsMean(over, under);
    }
  }

  /** A contribution after it has been merged. */
  function Clear(p: Pixel): Pixel {
    p.(alpha := 0)
  }

  /** Pixel `j` of a layer; outside of it there is nothing to see. */
  ghost function PixelAt(layer: seq<Pixel>, j: nat): Pixel {
    if j < |layer| then layer[j] else Pixel(0, 0, 0, 0)
  }

  ghost function Merge(blend: bool, main: seq<Pixel>, layer: seq<Pixel>): (r: seq<Pixel>)
    ensures |r| == |main|
  {
    seq(|main|, j requires 0 <= j < |main| => MergePixel(blend, main[j], PixelAt(layer, j)))
  }

  ghost function ClearAll(layer: seq<Pixel>): (r: seq<Pixel>)
    ensures |r| == |layer|
  {
    seq(|layer|, j requires 0 <= j < |layer| => Clear(layer[j]))
  }

  /** Merges the layers in visiting order. */
  ghost function MergeAll(blend: bool, main: seq<Pixel>, layers: seq<seq<Pixel>>, order: seq<nat>): (r: seq<Pixel>)
    requires Indices(order, |layers|)
    ensures |r| == |main|
    decreases |order|
  {
    if order == [] then main else
    MergeAll(blend, Merge(blend, main, layers[order[0]]), layers, order[1..])
  }

  /** What happens to pixel `j`, alone. */
  ghost function Column(blend: bool, under: Pixel, layers: seq<seq<Pixel>>, order: seq<nat>, j: nat): Pixel
    requires Indices(order, |layers|)
    decreases |order|
  {
    if order == [] then under else
    Column(blend, MergePixel(blend, under, LayerPixel(layers, order[0], j)), layers, order[1..], j)
  }

  /** Pixels do not influence each other. */
  lemma {:induction false} MergeIsPointwise(blend: bool, main: seq<Pixel>, layers: seq<seq<Pixel>>, order: seq<nat>,
                                            j: nat)
    requires Indices(order, |layers|) && j < |main|
    ensures MergeAll(blend, main, layers, order)[j] == Column(blend, main[j], layers, order, j)
    decreases |order|
  {
    if order != [] {
      MergeIsPointwise(blend, Merge(blend, main, layers[order[0]]), layers, order[1..], j);
    }
  }

  /** `k` is the last position in the order whose layer is not transparent at pixel `j`. */
  ghost predicate LastOpaque(layers: seq<seq<Pixel>>, order: seq<nat>, j: nat, k: nat)
    requires Indices(order, |layers|)
  {
    && k < |order| && LayerPixel(layers, order[k], j).alpha != 0
    && forall i :: k < i < |order| ==> LayerPixel(layers, order[i], j).alpha == 0
  }

  ghost function LayerPixel(layers: seq<seq<Pixel>>, i: nat, j: nat): Pixel
    requires i < |layers|
  {
    PixelAt(layers[i], j)
  }

  /** Without blending the last contribution that is not transparent wins. */
  lemma {:induction false} LastOpaqueWins(under: Pixel, layers: seq<seq<Pixel>>, order: seq<nat>, j: nat, k: nat)
    requires Indices(order, |layers|)
    requires LastOpaque(layers, order, j, k)
    ensures Column(false, under, layers, order, j) == LayerPixel(layers, order[k], j)
    decreases |order|
  {
    var next := MergePixel(false, under, LayerPixel(layers, order[0], j));
    if k == 0 {
      TransparentKeeps(false, next, layers, order[1..], j);
    } else {
      assert LastOpaque(layers, order[1..], j, k - 1);
      LastOpaqueWins(next, layers, order[1..], j, k - 1);
    }
  }

  /** Transparent contributions change nothing, with or without blending. */
  lemma {:induction false} TransparentKeeps(blend: bool, under: Pixel, layers: seq<seq<Pixel>>, order: seq<nat>, j: nat)
    requires Indices(order, |layers|)
    requires forall i :: 0 <= i < |order| ==> LayerPixel(layers, order[i], j).alpha == 0
    ensures Column(blend, under, layers, order, j) == under
    decreases |order|
  {
    if order != [] {
      assert LayerPixel(layers, order[0], j).alpha == 0;
      TransparentKeeps(blend, under, layers, order[1..], j);
    }
  }

  /** If only one layer contributes to a pixel, that one is merged into it, wherever it is visited. */
  lemma {:induction false} OneContribution(blend: bool, under: Pixel, layers: seq<seq<Pixel>>, order: seq<nat>,
                                          j: nat, k: nat)
    requires Indices(order, |layers|) && k < |order|
    requires forall i :: 0 <= i < |order| && i != k ==> LayerPixel(layers, order[i], j).alpha == 0
    ensures Column(blend, under, layers, order, j) == MergePixel(blend, under, LayerPixel(layers, order[k], j))
    decreases |order|
  {
    hide Blend;
    var next := MergePixel(blend, under, LayerPixel(layers, order[0], j));
    if k == 0 {
      TransparentKeeps(blend, next, layers, order[1..], j);
    } else {
      assert LayerPixel(layers, order[0], j).alpha == 0;
      OneContribution(blend, next, layers, order[1..], j, k - 1);
    }
  }

  /** So with blending an opaque pixel becomes the mean of itself and the one contribution. */
  lemma OneContributionIsMean(under: Pixel, layers: seq<seq<Pixel>>, order: seq<nat>, j: nat, k: nat)
    requires Indices(order, |layers|) && k < |order| && under.alpha == 255
    requires forall i :: 0 <= i < |order| && i != k ==> LayerPixel(layers, order[i], j).alpha == 0
    ensures IsMean(Column(true, under, layers, order, j), LayerPixel(layers, order[k], j), under)
  {
    hide MergePixel, IsMean;
    OneContribution(true, under, layers, order, j, k);
    MergeIsMean(under, LayerPixel(layers, order[k], j));
  }

  /** After a coalesce every layer is cleared, and a second one changes nothing. */
  lemma SecondCoalesceIsNoOp(blend: bool, main: seq<Pixel>, layers: seq<seq<Pixel>>, order: seq<nat>)
    requires Indices(order, |layers|)
    requires forall i, j :: 0 <= i < |layers| && 0 <= j < |layers[i]| ==> layers[i][j].alpha == 0
    ensures MergeAll(blend, main, layers, order) == main
  {
    forall j | 0 <= j < |main| ensures MergeAll(blend, main, layers, order)[j] == main[j] {
      MergeIsPointwise(blend, main, layers, order, j);
      assert forall i :: 0 <= i < |order| ==> LayerPixel(layers, order[i], j).alpha == 0;
      TransparentKeeps(blend, main[j], layers, order, j);
    }
  }

  /** With blending, an opaque main framebuffer stays opaque under any number of layers. */
  lemma {:induction false} StaysOpaque(blend: bool, under: Pixel, layers: seq<seq<Pixel>>, order: seq<nat>, j: nat)
    requires Indices(order, |layers|)
    requires blend && under.alpha == 0xff
    ensures Column(blend, under, layers, order, j).alpha == 0xff
    decreases |order|
  {
    hide Blend;
    if order != [] {
      BlendOverOpaque(LayerPixel(layers, order[0], j), under);
      StaysOpaque(blend, MergePixel(blend, under, LayerPixel(layers, order[0], j)), layers, order[1..], j);
    }
  }

  // ----- Does the order matter?

  /** All contributions to pixel `j` that are not transparent are the same. */
  ghost predicate Agreed(layers: seq<seq<Pixel>>, j: nat)
  {
    forall a, b :: 0 <= a < |layers| && 0 <= b < |layers|
      && LayerPixel(layers, a, j).alpha != 0 && LayerPixel(layers, b, j).alpha != 0
      ==> LayerPixel(layers, a, j) == LayerPixel(layers, b, j)
  }

  /** If they agree, the outcome is the agreed pixel, or the old one if there is none. */
  lemma {:induction false} AgreedOutcome(under: Pixel, layers: seq<seq<Pixel>>, order: seq<nat>, j: nat, a: nat)
    requires Indices(order, |layers|) && Agreed(layers, j)
    requires a in order && LayerPixel(layers, a, j).alpha != 0
    ensures Column(false, under, layers, order, j) == LayerPixel(layers, a, j)
    decreases |order|
  {
    var next := MergePixel(false, under, LayerPixel(layers, order[0], j));
    if a in order[1..] {
      AgreedOutcome(next, layers, order[1..], j, a);
    } else {
      AgreedKeeps(next, layers, order[1..], j, a);
    }
  }

  /** Once the agreed pixel is there it stays. */
  lemma {:induction false} AgreedKeeps(under: Pixel, layers: seq<seq<Pixel>>, order: seq<nat>, j: nat, a: nat)
    requires Indices(order, |layers|) && Agreed(layers, j)
    requires a < |layers| && LayerPixel(layers, a, j).alpha != 0 && under == LayerPixel(layers, a, j)
    ensures Column(false, under, layers, order, j) == under
    decreases |order|
  {
    if order != [] {
      assert LayerPixel(layers, order[0], j).alpha != 0 ==> LayerPixel(layers, order[0], j) == under;
      AgreedKeeps(under, layers, order[1..], j, a);
    }
  }

  /** A complete order that visits layer `a` last. */
  ghost function VisitLast(n: nat, a: nat): seq<nat>
    requires a < n
  {
    Without(Identity(n), a) + [a]
  }

  lemma VisitLastIsOrder(n: nat, a: nat)
    requires a < n
    ensures IsOrder(VisitLast(n, a), n) && |VisitLast(n, a)| == n && VisitLast(n, a)[n - 1] == a
  {
    var id := Identity(n);
    assert id == id[..a] + [a] + id[a + 1..];
    assert multiset(id) == multiset(id[..a]) + multiset{a} + multiset(id[a + 1..]);
  }

  ghost function MergedBy(main: seq<Pixel>, layers: seq<seq<Pixel>>, rands: seq<nat>, randMax: nat): seq<Pixel>
    requires Outcomes(rands, |layers|, randMax)
  {
    MergeAll(false, main, layers, Order(|layers|, rands, randMax))
  }

  /** The picture is the same for all random outcomes of the shuffle. */
  ghost predicate SameForAll(main: seq<Pixel>, layers: seq<seq<Pixel>>, randMax: nat) {
    forall a, b | Outcomes(a, |layers|, randMax) && Outcomes(b, |layers|, randMax) ::
      MergedBy(main, layers, a, randMax) == MergedBy(main, layers, b, randMax)
  }

  /**
   Main result: without blending, if at every pixel all contributions that are not transparent
   agree, the merged picture is the same for all random outcomes.  If the outcomes suffice to
   produce every order this is the only case: otherwise two outcomes give different pictures.
   */
  lemma OrderIndependent(main: seq<Pixel>, layers: seq<seq<Pixel>>, randMax: nat)
    ensures (forall j | 0 <= j < |main| :: Agreed(layers, j)) ==> SameForAll(main, layers, randMax)
    ensures EveryPick(|layers|, randMax) && SameForAll(main, layers, randMax)
      ==> forall j | 0 <= j < |main| :: Agreed(layers, j)
  {
    hide VisitLast, MergeAll, IsOrder, Order, EveryPick, Outcomes, Agreed;
    var n := |layers|;
    if forall j | 0 <= j < |main| :: Agreed(layers, j) {
      forall a, b | Outcomes(a, n, randMax) && Outcomes(b, n, randMax)
        ensures MergedBy(main, layers, a, randMax) == MergedBy(main, layers, b, randMax)
      {
        AgreedIndependent(main, layers, Order(n, a, randMax), Order(n, b, randMax));
      }
    } else if EveryPick(n, randMax) {
      var j :| 0 <= j < |main| && !Agreed(layers, j);
      var a, b := TwoPictures(main, layers, j, randMax);
      assert MergedBy(main, layers, a, randMax) != MergedBy(main, layers, b, randMax);
    }
  }

  /** Each of two contributions that disagree can be the one that is shown. */
  lemma TwoPictures(main: seq<Pixel>, layers: seq<seq<Pixel>>, j: nat, randMax: nat) returns (a: seq<nat>, b: seq<nat>)
    requires EveryPick(|layers|, randMax) && j < |main| && !Agreed(layers, j)
    ensures Outcomes(a, |layers|, randMax) && Outcomes(b, |layers|, randMax)
    ensures MergedBy(main, layers, a, randMax)[j] != MergedBy(main, layers, b, randMax)[j]
  {
    hide VisitLast, MergeAll, IsOrder, Order, EveryPick, Outcomes;
    var n := |layers|;
    var k, l :| 0 <= k < n && 0 <= l < n && LayerPixel(layers, k, j).alpha != 0 && LayerPixel(layers, l, j).alpha != 0
      && LayerPixel(layers, k, j) != LayerPixel(layers, l, j);
    LastIsShown(main, layers, j, k);
    LastIsShown(main, layers, j, l);
    a := OrderReached(n, VisitLast(n, k), randMax);
    b := OrderReached(n, VisitLast(n, l), randMax);
  }

  lemma LastIsShown(main: seq<Pixel>, layers: seq<seq<Pixel>>, j: nat, a: nat)
    requires j < |main| && a < |layers| && LayerPixel(layers, a, j).alpha != 0
    ensures IsOrder(VisitLast(|layers|, a), |layers|) && Indices(VisitLast(|layers|, a), |layers|)
    ensures MergeAll(false, main, layers, VisitLast(|layers|, a))[j] == LayerPixel(layers, a, j)
  {
    var p := VisitLast(|layers|, a);
    VisitLastIsOrder(|layers|, a);
    OrderFacts(p, |layers|);
    MergeIsPointwise(false, main, layers, p, j);
    LastOpaqueWins(main[j], layers, p, j, |p| - 1);
  }

  lemma AgreedIndependent(main: seq<Pixel>, layers: seq<seq<Pixel>>, p: seq<nat>, q: seq<nat>)
    requires IsOrder(p, |layers|) && IsOrder(q, |layers|)
    requires forall j | 0 <= j < |main| :: Agreed(layers, j)
    ensures Indices(p, |layers|) && Indices(q, |layers|)
    ensures MergeAll(false, main, layers, p) == MergeAll(false, main, layers, q)
  {
    var n := |layers|;
    OrderFacts(p, n);
    OrderFacts(q, n);
    var mp, mq := MergeAll(false, main, layers, p), MergeAll(false, main, layers, q);
    forall j | 0 <= j < |main| ensures mp[j] == mq[j] {
      MergeIsPointwise(false, main, layers, p, j);
      MergeIsPointwise(false, main, layers, q, j);
      if a: nat :| a < n && LayerPixel(layers, a, j).alpha != 0 {
        AgreedOutcome(main[j], layers, p, j, a);
        AgreedOutcome(main[j], layers, q, j, a);
      } else {
        TransparentKeeps(false, main[j], layers, p, j);
        TransparentKeeps(false, main[j], layers, q, j);
      }
    }
  }

  // ----- The framebuffers on the list

  /** Pixel arrays are shared neither with the main framebuffer nor with each other. */
  ghost predicate Separate(main: Framebuffer, fbs: seq<Framebuffer>) {
    && main.Valid() && (forall i :: 0 <= i < |fbs| ==> fbs[i].Valid() && fbs[i].pixels != main.pixels)
    && forall i, j :: 0 <= i < j < |fbs| ==> fbs[i].pixels != fbs[j].pixels
  }

  ghost function Arrays(fbs: seq<Framebuffer>): set<array<Pixel>> {
    set f | f in fbs :: f.pixels
  }

  ghost function Layers(fbs: seq<Framebuffer>): (r: seq<seq<Pixel>>)
    reads Arrays(fbs)
    ensures |r| == |fbs| && forall i :: 0 <= i < |fbs| ==> r[i] == fbs[i].pixels[..]
  {
    seq(|fbs|, i requires 0 <= i < |fbs| reads Arrays(fbs) => fbs[i].pixels[..])
  }

  predicate SameSize(a: Framebuffer, b: Framebuffer) {
    a.width == b.width && a.height == b.height
  }

  /** Merges one pixel and makes it transparent. */
  method MergeOne(main: Framebuffer, other: Framebuffer, blend: bool, j: nat)
    requires main.pixels != other.pixels && j < main.pixels.Length && j < other.pixels.Length
    modifies main.pixels, other.pixels
    ensures main.pixels[..] == old(main.pixels[..])[j := MergePixel(blend, old(main.pixels[j]), old(other.pixels[j]))]
    ensures other.pixels[..] == old(other.pixels[..])[j := old(other.pixels[j]).(alpha := 0)]
  {
    hide Blend;
    if other.pixels[j].alpha == 0 {
      return;
    }
    if blend {
      if other.pixels[j].alpha == 0xff {
        main.pixels[j] := other.pixels[j];
      } else {
        main.pixels[j] := Blend(other.pixels[j], main.pixels[j]);
      }
    } else {
      main.pixels[j] := other.pixels[j];
    }
    other.pixels[j] := other.pixels[j].(alpha := 0);
  }

  /** Merges one framebuffer and makes it transparent. */
  method MergeFrom(main: Framebuffer, other: Framebuffer, blend: bool)
    requires main.Valid() && other.Valid() && SameSize(main, other) && main.pixels != other.pixels
    modifies main.pixels, other.pixels
    ensures main.pixels[..] == Merge(blend, old(main.pixels[..]), old(other.pixels[..]))
    ensures other.pixels[..] == ClearAll(old(other.pixels[..]))
  {
    hide MergePixel;
    ghost var m, o := main.pixels[..], other.pixels[..];
    for j := 0 to main.pixels.Length
      invariant forall i :: 0 <= i < j ==>
        main.pixels[..][i] == MergePixel(blend, m[i], o[i]) && other.pixels[..][i] == Clear(o[i])
      invariant forall i :: j <= i < main.pixels.Length ==> main.pixels[..][i] == m[i] && other.pixels[..][i] == o[i]
    {
      assert main.pixels[..][j] == m[j] && other.pixels[..][j] == o[j];
      MergeOne(main, other, blend, j);
    }
  }

  /** The same for one of several framebuffers; the others are not touched. */
  method MergeNth(main: Framebuffer, other: Framebuffer, blend: bool, ghost vs: seq<Framebuffer>, ghost k: nat)
    requires Separate(main, vs) && k < |vs| && vs[k] == other && SameSize(main, other)
    modifies main.pixels, other.pixels
    ensures main.pixels[..] == Merge(blend, old(main.pixels[..]), old(Layers(vs))[k])
    ensures Layers(vs) == old(Layers(vs))[k := ClearAll(old(Layers(vs))[k])]
  {
    hide Merge, ClearAll;
    ghost var layers := Layers(vs);
    MergeFrom(main, other, blend);
    forall i | 0 <= i < |vs| && i != k ensures vs[i].pixels[..] == layers[i] {
      assert vs[i].pixels != other.pixels;
    }
  }

  /** The layers after those in `visited` have been merged. */
  ghost function Cleared(layers: seq<seq<Pixel>>, visited: seq<nat>): (r: seq<seq<Pixel>>)
    ensures |r| == |layers|
  {
    seq(|layers|, i requires 0 <= i < |layers| => if i in visited then ClearAll(layers[i]) else layers[i])
  }

  lemma ClearedSnoc(layers: seq<seq<Pixel>>, order: seq<nat>, i: nat)
    requires Distinct(order) && i < |order| && order[i] < |layers|
    ensures Cleared(layers, order[..i])[order[i]] == layers[order[i]]
    ensures Cleared(layers, order[..i + 1]) == Cleared(layers, order[..i])[order[i] := ClearAll(layers[order[i]])]
  {
    hide ClearAll;
    assert order[..i + 1] == order[..i] + [order[i]];
  }

  /**
   Merges the framebuffers on the list into `main` in shuffled order, up to the first one of a
   different size.  `order` is the order and `visited` the number of framebuffers merged.
   */
  method Coalesce(main: Framebuffer, fbs: LList<Framebuffer>, blend: bool, rands: seq<nat>, randMax: nat)
    returns (ok: bool, ghost order: seq<nat>, ghost visited: nat)
    requires fbs.Valid() && Separate(main, Values(fbs))
    requires Outcomes(rands, |fbs.nodes|, randMax)
    modifies main.pixels, Arrays(Values(fbs))
    ensures order == Order(|fbs.nodes|, rands, randMax)
    ensures visited <= |order| && (ok <==> visited == |order|)
    ensures !ok ==> !SameSize(main, Values(fbs)[order[visited]])
    ensures forall k :: 0 <= k < visited ==> SameSize(main, Values(fbs)[order[k]])
    ensures main.pixels[..] == MergeAll(blend, old(main.pixels[..]), old(Layers(Values(fbs))), order[..visited])
    ensures Layers(Values(fbs)) == Cleared(old(Layers(Values(fbs))), order[..visited])
  {
    hide MergeAll, Merge, Cleared, ClearAll, IsOrder, Pick, Shuffled, Identity, Separate, Distinct, Indices;
    var numFbs := fbs.Length();
    var indices := new nat[numFbs](i => i);
    assert indices[..] == Identity(numFbs) by { IsIdentity(indices[..]); }
    ArrayShuffle(indices, rands, randMax);
    order := indices[..];
    assert order == Order(numFbs, rands, randMax);
    OrderFacts(order, numFbs);
    ok, visited := VisitAll(main, fbs, blend, indices);
  }

  /** So a second coalesce, in whatever order, changes nothing. */
  lemma CoalesceTwice(blend: bool, main: seq<Pixel>, layers: seq<seq<Pixel>>, order: seq<nat>, again: seq<nat>)
    requires IsOrder(order, |layers|) && Indices(again, |layers|)
    ensures MergeAll(blend, main, Cleared(layers, order), again) == main
  {
    OrderFacts(order, |layers|);
    SecondCoalesceIsNoOp(blend, main, Cleared(layers, order), again);
  }

  lemma IsIdentity(s: seq<nat>)
    requires forall i :: 0 <= i < |s| ==> s[i] == i
    ensures s == Identity(|s|) && |Identity(|s|)| == |s|
  {
  }

  /** The loop over the shuffled indices. */
  method VisitAll(main: Framebuffer, fbs: LList<Framebuffer>, blend: bool, indices: array<nat>)
    returns (ok: bool, ghost visited: nat)
    requires fbs.Valid() && Separate(main, Values(fbs)) && indices.Length == |fbs.nodes|
    requires Distinct(indices[..]) && Indices(indices[..], |fbs.nodes|)
    modifies main.pixels, Arrays(Values(fbs))
    ensures visited <= indices.Length && (ok <==> visited == indices.Length)
    ensures !ok ==> !SameSize(main, Values(fbs)[indices[visited]])
    ensures forall k :: 0 <= k < visited ==> SameSize(main, Values(fbs)[indices[k]])
    ensures main.pixels[..] == MergeAll(blend, old(main.pixels[..]), old(Layers(Values(fbs))), indices[..visited])
    ensures Layers(Values(fbs)) == Cleared(old(Layers(Values(fbs))), indices[..visited])
  {
    hide MergeAll, Merge, Cleared, ClearAll, Distinct, SameSize, Layers, LList.Valid, Separate, Arrays;
    ghost var vs, px, layers, order := Values(fbs), main.pixels[..], Layers(Values(fbs)), indices[..];
    assert order[..0] == [];
    assert MergeAll(blend, px, layers, []) == px && Cleared(layers, []) == layers by {
      NothingVisited(blend, px, layers);
    }
    visited := 0;
    for i := 0 to indices.Length
      invariant visited == i
      invariant main.pixels[..] == MergeAll(blend, px, layers, order[..i])
      invariant Layers(vs) == Cleared(layers, order[..i])
      invariant forall k :: 0 <= k < i ==> SameSize(main, vs[order[k]])
    {
      var cursor := fbs.GetEntry(indices[i]);
      var other := cursor.value;
      if main.width != other.width || main.height != other.height {
        assert !SameSize(main, other) by { SizeDecides(main, other); }
        return false, visited;
      }
      assert SameSize(main, other) by { SizeDecides(main, other); }
      InArrays(vs, indices[i]);
      MergeNth(main, other, blend, vs, indices[i]);
      MergeAllSnoc(blend, px, layers, order, i);
      ClearedSnoc(layers, order, i);
      visited := visited + 1;
    }
    return true, visited;
  }

  lemma SizeDecides(a: Framebuffer, b: Framebuffer)
    ensures SameSize(a, b) <==> a.width == b.width && a.height == b.height
  {
  }

  lemma InArrays(vs: seq<Framebuffer>, k: nat)
    requires k < |vs|
    ensures vs[k].pixels in Arrays(vs)
  {
  }

  lemma NothingVisited(blend: bool, px: seq<Pixel>, layers: seq<seq<Pixel>>)
    ensures MergeAll(blend, px, layers, []) == px && Cleared(layers, []) == layers
  {
  }

  lemma {:induction false} MergeAllSnoc(blend: bool, main: seq<Pixel>, layers: seq<seq<Pixel>>, order: seq<nat>, i: nat)
    requires Indices(order, |layers|) && i < |order|
    ensures MergeAll(blend, main, layers, order[..i + 1])
         == Merge(blend, MergeAll(blend, main, layers, order[..i]), layers[order[i]])
    decreases i
  {
    if i == 0 {
      assert order[..1][1..] == [] && order[..0] == [];
    } else {
      var tail := order[1..];
      assert order[..i + 1][1..] == tail[..i] && order[..i][1..] == tail[..i - 1];
      MergeAllSnoc(blend, Merge(blend, main, layers[order[0]]), layers, tail, i - 1);
    }
  }
}
