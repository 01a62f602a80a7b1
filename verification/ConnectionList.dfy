/**
 The list of connection threads of one listening thread: creation, self-removal and shutdown as
 atomic steps of the listening thread and any number of connection threads.
 */
module ConnectionLists {
  import opened LinkedLists

  type Tid = nat

  /** Who holds the lock that creation and self-removal share. */
  datatype Holder = Nobody | Listener | Connection(t: Tid)

  /** Where the listening thread is. */
  datatype Listening =
    | Accepting
    | Locked
    | ThreadCreated(t: Tid)
    | Appended
    | Draining
    | Joining(t: Tid)
    | Finished

  /** Where a connection thread is: serving, unlocking its removal step by step, or gone. */
  datatype Life = Serving | Ending | Removing | Unlinked | Gone

  datatype State = State(
    lock: Holder, listener: Listening, life: map<Tid, Life>,
    list: seq<Tid>, created: seq<Tid>, removed: set<Tid>)

  const START := State(Nobody, Accepting, map[], [], [], {})

  datatype Step =
    | Lock | Create(t: Tid) | CreateFails | Append | Unlock
    | End(t: Tid) | LockSelf(t: Tid) | RemoveSelf(t: Tid, at: nat) | UnlockSelf(t: Tid)
    | BeginShutdown | CancelHead | Join | EndShutdown

  predicate Is(s: State, t: Tid, l: Life) {
    t in s.life && s.life[t] == l
  }

  /**
   When a step is possible.  A connection thread may end at any time, by itself or cancelled,
   and removes itself at the place where it is in the list.  The listening thread is cancelled
   where it accepts.
   */
  predicate Enabled(s: State, st: Step) {
    match st
    case Lock => s.listener.Accepting? && s.lock.Nobody?
    case Create(t) => s.listener.Locked? && t !in s.life
    case CreateFails => s.listener.Locked?
    case Append => s.listener.ThreadCreated?
    case Unlock => s.listener.Appended?
    case End(t) => Is(s, t, Serving)
    case LockSelf(t) => Is(s, t, Ending) && s.lock.Nobody?
    case RemoveSelf(t, at) => Is(s, t, Removing) && at < |s.list| && s.list[at] == t
    case UnlockSelf(t) => Is(s, t, Unlinked)
    case BeginShutdown => s.listener.Accepting?
    case CancelHead => s.listener.Draining? && s.list != []
    case Join => s.listener.Joining? && Is(s, s.listener.t, Gone)
    case EndShutdown => s.listener.Draining? && s.list == []
  }

  function Do(s: State, st: Step): State
    requires Enabled(s, st)
  {
    match st
    case Lock => s.(lock := Listener, listener := Locked)
    case Create(t) => s.(listener := ThreadCreated(t), life := s.life[t := Serving], created := s.created + [t])
    case CreateFails => s.(lock := Nobody, listener := Accepting)
    case Append => s.(listener := Appended, list := s.list + [s.listener.t])
    case Unlock => s.(lock := Nobody, listener := Accepting)
    case End(t) => s.(life := s.life[t := Ending])
    case LockSelf(t) => s.(lock := Connection(t), life := s.life[t := Removing])
    case RemoveSelf(t, at) =>
      s.(list := s.list[..at] + s.list[at + 1..], removed := s.removed + {t}, life := s.life[t := Unlinked])
    case UnlockSelf(t) => s.(lock := Nobody, life := s.life[t := Gone])
    case BeginShutdown => s.(listener := Draining)
    case CancelHead => s.(listener := Joining(s.list[0]))
    case Join => s.(listener := Draining)
    case EndShutdown => s.(listener := Finished)
  }

  /** Steps that are not possible do not happen. */
  function Trace(s: State, steps: seq<Step>): State
    decreases |steps|
  {
    if steps == [] then s
    else Trace(if Enabled(s, steps[0]) then Do(s, steps[0]) else s, steps[1..])
  }

  /** The threads that have been appended: all created ones, except one just created. */
  ghost function EverAppended(s: State): seq<Tid> {
    if s.listener.ThreadCreated? && s.created != [] then s.created[..|s.created| - 1] else s.created
  }

  /** `ts` without the threads in `gone`, in the same order. */
  ghost function Minus(ts: seq<Tid>, gone: set<Tid>): seq<Tid> {
    if ts == [] then [] else
    var last := ts[|ts| - 1];
    Minus(ts[..|ts| - 1], gone) + (if last in gone then [] else [last])
  }

  /** The lock is held exactly in the critical sections, and removed threads are past theirs. */
  ghost predicate LockInv(s: State) {
    && Distinct(s.created) && (forall t :: t in s.created <==> t in s.life)
    && (s.listener.ThreadCreated? ==>
          s.created != [] && s.listener.t == s.created[|s.created| - 1] && s.listener.t !in s.removed)
    && (s.lock.Listener? <==> s.listener.Locked? || s.listener.ThreadCreated? || s.listener.Appended?)
    && (forall t :: t in s.removed <==> Is(s, t, Unlinked) || Is(s, t, Gone))
    && (forall t :: s.lock == Connection(t) <==> Is(s, t, Removing) || Is(s, t, Unlinked))
  }

  /** The list holds the appended threads that have not removed themselves, oldest first. */
  ghost predicate Inv(s: State) {
    && LockInv(s) && s.list == Minus(EverAppended(s), s.removed)
    && (s.listener.Joining? ==> s.listener.t in s.life)
  }

  lemma {:induction false} MinusMembers(ts: seq<Tid>, gone: set<Tid>)
    ensures forall t :: t in Minus(ts, gone) <==> t in ts && t !in gone
    ensures Distinct(ts) ==> Distinct(Minus(ts, gone))
    decreases |ts|
  {
    if ts != [] {
      var last := ts[|ts| - 1];
      MinusMembers(ts[..|ts| - 1], gone);
      assert ts == ts[..|ts| - 1] + [last];
    }
  }

  /** Removing one more thread removes it from its place in the list. */
  lemma {:induction false} MinusOne(ts: seq<Tid>, gone: set<Tid>, t: Tid, at: nat)
    requires Distinct(ts) && at < |Minus(ts, gone)| && Minus(ts, gone)[at] == t
    ensures Minus(ts, gone + {t}) == Without(Minus(ts, gone), at)
    decreases |ts|
  {
    var last, init := ts[|ts| - 1], ts[..|ts| - 1];
    var m, x := Minus(init, gone), if last in gone then [] else [last];
    MinusMembers(init, gone);
    if at < |m| {
      assert m[at] == t && t in init && last != t;
      MinusOne(init, gone, t, at);
      WithoutFront(m, x, at);
    } else {
      assert x == [t] && at == |m|;
      MinusStranger(init, gone, t);
      assert Without(m + [t], at) == m;
    }
  }

  lemma WithoutFront(a: seq<Tid>, b: seq<Tid>, at: nat)
    requires at < |a|
    ensures Without(a + b, at) == Without(a, at) + b
  {
  }

  lemma {:induction false} MinusStranger(ts: seq<Tid>, gone: set<Tid>, t: Tid)
    requires t !in ts
    ensures Minus(ts, gone + {t}) == Minus(ts, gone)
    decreases |ts|
  {
    if ts != [] {
      MinusStranger(ts[..|ts| - 1], gone, t);
    }
  }

  /**
   Because creation and self-removal share a lock, a thread that is about to remove itself is in
   the list, even if it ended before the listening thread had appended it.
   */
  lemma RemovalFindsItself(s: State, t: Tid)
    requires Inv(s) && Is(s, t, Removing)
    ensures exists at :: Enabled(s, RemoveSelf(t, at))
  {
    MinusMembers(EverAppended(s), s.removed);
    assert s.lock == Connection(t);
    assert t in s.list;
    var at :| 0 <= at < |s.list| && s.list[at] == t;
    assert Enabled(s, RemoveSelf(t, at));
  }

  lemma ListenerKeepsLocks(s: State, st: Step)
    requires LockInv(s) && Enabled(s, st)
    requires !(st.End? || st.LockSelf? || st.RemoveSelf? || st.UnlockSelf?)
    ensures LockInv(Do(s, st))
  {
  }

  lemma ConnectionKeepsLocks(s: State, st: Step)
    requires LockInv(s) && Enabled(s, st)
    requires st.End? || st.LockSelf? || st.RemoveSelf? || st.UnlockSelf?
    ensures LockInv(Do(s, st))
  {
  }

  lemma StepKeeps(s: State, st: Step)
    requires Inv(s) && Enabled(s, st)
    ensures Inv(Do(s, st))
  {
    hide Minus;
    if st.End? || st.LockSelf? || st.RemoveSelf? || st.UnlockSelf? {
      ConnectionKeepsLocks(s, st);
    } else {
      ListenerKeepsLocks(s, st);
    }
    hide LockInv;
    match st {
      case CancelHead =>
        HeadIsKnown(s);
      case Create(t) =>
        assert (s.created + [t])[..|s.created|] == s.created;
      case Append =>
        AppendKeeps(s);
      case RemoveSelf(t, at) =>
        MinusOne(EverAppended(s), s.removed, t, at);
      case _ =>
    }
  }

  lemma HeadIsKnown(s: State)
    requires Inv(s) && s.list != []
    ensures s.list[0] in s.created && s.list[0] in s.life && s.list[0] !in s.removed
  {
    MinusMembers(EverAppended(s), s.removed);
    assert s.list[0] in s.list;
    assert EverAppended(s) <= s.created;
  }

  lemma AppendKeeps(s: State)
    requires Inv(s) && s.listener.ThreadCreated?
    ensures s.list + [s.listener.t] == Minus(s.created, s.removed)
  {
  }

  /** Main result: in every state of every interleaving the list is created minus removed. */
  lemma {:induction false} TraceKeeps(s: State, steps: seq<Step>)
    requires Inv(s)
    ensures Inv(Trace(s, steps))
    decreases |steps|
  {
    hide Inv;
    if steps != [] {
      if Enabled(s, steps[0]) {
        StepKeeps(s, steps[0]);
        TraceKeeps(Do(s, steps[0]), steps[1..]);
      } else {
        TraceKeeps(s, steps[1..]);
      }
    }
  }

  lemma StartInv()
    ensures Inv(START)
  {
  }

  // ----- Shutdown

  ghost predicate ShuttingDown(s: State) {
    s.listener.Draining? || s.listener.Joining? || s.listener.Finished?
  }

  /** While shutting down no thread is added and removals are never taken back. */
  lemma {:induction false} ShutdownOnlyRemoves(s: State, steps: seq<Step>)
    requires ShuttingDown(s)
    ensures
      var r := Trace(s, steps);
      ShuttingDown(r) && r.created == s.created && s.removed <= r.removed
    decreases |steps|
  {
    if steps != [] {
      ShutdownOnlyRemoves(if Enabled(s, steps[0]) then Do(s, steps[0]) else s, steps[1..]);
    }
  }

  lemma {:induction false} MinusShrinks(ts: seq<Tid>, gone: set<Tid>, more: set<Tid>)
    requires gone <= more
    ensures |Minus(ts, more)| <= |Minus(ts, gone)|
    ensures forall t :: t in ts && t !in gone && t in more ==> |Minus(ts, more)| < |Minus(ts, gone)|
    decreases |ts|
  {
    if ts != [] {
      var init := ts[..|ts| - 1];
      MinusShrinks(init, gone, more);
      assert ts == init + [ts[|ts| - 1]];
    }
  }

  lemma GoneIsRemoved(s: State, t: Tid)
    requires Inv(s)
    ensures Is(s, t, Gone) ==> t in s.removed
  {
  }

  /**
   Each round of the shutdown, from choosing the head of the list to having joined it, makes the
   list shorter, whatever the other threads do in between.
   */
  lemma RoundShrinksList(s: State, steps: seq<Step>)
    requires Inv(s) && Enabled(s, CancelHead)
    ensures Do(s, CancelHead).listener == Joining(s.list[0])
    ensures
      var r := Trace(Do(s, CancelHead), steps);
      r.listener == Joining(s.list[0]) && Enabled(r, Join) ==> |Do(r, Join).list| < |s.list|
  {
    hide Minus, Trace, LockInv, Distinct;
    var c, t := Do(s, CancelHead), s.list[0];
    var r := Trace(c, steps);
    StepKeeps(s, CancelHead);
    TraceKeeps(c, steps);
    ShutdownOnlyRemoves(c, steps);
    HeadIsKnown(s);
    GoneIsRemoved(r, t);
    MinusShrinks(s.created, s.removed, r.removed);
  }

  /** When the shutdown has ended, every thread ever created has removed itself. */
  lemma ShutdownComplete(steps: seq<Step>)
    ensures
      var s := Trace(START, steps);
      s.listener.Finished? ==> s.list == [] && forall t <- s.created :: t in s.removed
  {
    hide Minus, Trace;
    StartInv();
    TraceKeeps(START, steps);
    var s := Trace(START, steps);
    FinishedIsEmpty(START, steps);
    MinusMembers(s.created, s.removed);
    if s.listener.Finished? {
      forall t | t in s.created ensures t in s.removed {
        assert t !in s.list;
      }
    }
  }

  lemma {:induction false} FinishedIsEmpty(s: State, steps: seq<Step>)
    requires Inv(s) && (s.listener.Finished? ==> s.list == [])
    ensures Trace(s, steps).listener.Finished? ==> Trace(s, steps).list == []
    decreases |steps|
  {
    if steps != [] {
      if Enabled(s, steps[0]) {
        StepKeeps(s, steps[0]);
        FinishedIsEmpty(Do(s, steps[0]), steps[1..]);
      } else {
        FinishedIsEmpty(s, steps[1..]);
      }
    }
  }

  // ----- The shutdown cannot deadlock

  /** The steps that a connection thread still has to take. */
  function Rank(l: Life): nat {
    match l
    case Serving => 4
    case Ending => 3
    case Removing => 2
    case Unlinked => 1
    case Gone => 0
  }

  ghost function Work(ts: seq<Tid>, life: map<Tid, Life>): nat
    requires forall t <- ts :: t in life
  {
    if ts == [] then 0 else
    assert forall t <- ts[..|ts| - 1] :: t in ts;
    Work(ts[..|ts| - 1], life) + Rank(life[ts[|ts| - 1]])
  }

  lemma {:induction false} WorkDrops(ts: seq<Tid>, life: map<Tid, Life>, t: Tid, l: Life)
    requires (forall u <- ts :: u in life) && t in life && Rank(l) < Rank(life[t])
    ensures Work(ts, life[t := l]) <= Work(ts, life)
    ensures t in ts ==> Work(ts, life[t := l]) < Work(ts, life)
    decreases |ts|
  {
    if ts != [] {
      var init := ts[..|ts| - 1];
      assert forall u <- init :: u in ts;
      WorkDrops(init, life, t, l);
      assert ts == init + [ts[|ts| - 1]];
    }
  }

  /** How far the listening thread is from the end of the round, given the connection threads. */
  ghost function Round(s: State): nat {
    match s.listener
    case Joining(t) => if Is(s, t, Gone) then 3 else 1
    case Draining => if s.list != [] then 2 else 1
    case _ => 0
  }

  /** The step that a thread in its critical section or the thread to be joined takes next. */
  lemma ThreadStep(s: State) returns (st: Step, t: Tid, l: Life)
    requires Inv(s) && s.listener.Joining? && !Is(s, s.listener.t, Gone)
    ensures Enabled(s, st) && t in s.life && Rank(l) < Rank(s.life[t])
    ensures Do(s, st).life == s.life[t := l] && Do(s, st).listener == s.listener && Do(s, st).created == s.created
  {
    hide Minus, Rank;
    if s.lock.Connection? {
      t := s.lock.t;
      if Is(s, t, Removing) {
        RemovalFindsItself(s, t);
        var at :| Enabled(s, RemoveSelf(t, at));
        st, l := RemoveSelf(t, at), Unlinked;
      } else {
        st, l := UnlockSelf(t), Gone;
      }
    } else {
      t := s.listener.t;
      assert s.lock != Connection(t);
      if Is(s, t, Serving) {
        st, l := End(t), Ending;
      } else {
        st, l := LockSelf(t), Removing;
      }
    }
    RankOrder();
  }

  lemma RankOrder()
    ensures Rank(Serving) > Rank(Ending) > Rank(Removing) > Rank(Unlinked) > Rank(Gone)
  {
  }

  /** During the shutdown there is always a step that brings its end nearer. */
  lemma ShutdownStep(s: State) returns (st: Step)
    requires Inv(s) && ShuttingDown(s) && !s.listener.Finished?
    ensures Enabled(s, st) && Inv(Do(s, st)) && ShuttingDown(Do(s, st)) && Do(s, st).created == s.created
    ensures Work(s.created, Do(s, st).life) <= Work(s.created, s.life)
    ensures Work(s.created, Do(s, st).life) < Work(s.created, s.life) || Round(Do(s, st)) < Round(s)
  {
    hide Work, Minus, Rank;
    if s.listener.Joining? && !Is(s, s.listener.t, Gone) {
      var t, l;
      st, t, l := ThreadStep(s);
      WorkDrops(s.created, s.life, t, l);
    } else if s.listener.Joining? {
      st := Join;
    } else if s.list == [] {
      st := EndShutdown;
    } else {
      st := CancelHead;
      HeadIsKnown(s);
      assert !Is(s, s.list[0], Gone);
    }
    StepKeeps(s, st);
  }

  /** In every reachable state of a shutdown some continuation reaches its end. */
  lemma {:induction false} CanFinish(s: State) returns (steps: seq<Step>)
    requires Inv(s) && ShuttingDown(s)
    ensures Trace(s, steps).listener.Finished?
    decreases Work(s.created, s.life), Round(s)
  {
    hide Work, Round, Inv, Do, Enabled, ShuttingDown;
    steps := [];
    if !s.listener.Finished? {
      var st := ShutdownStep(s);
      var more := CanFinish(Do(s, st));
      steps := [st] + more;
      assert steps[1..] == more;
    }
  }

  /** The shutdown cannot deadlock, whatever happened before. */
  lemma ShutdownCanFinish(steps: seq<Step>)
    ensures ShuttingDown(Trace(START, steps)) ==>
      exists more :: Trace(Trace(START, steps), more).listener.Finished?
  {
    hide Inv, Trace, ShuttingDown;
    StartInv();
    TraceKeeps(START, steps);
    var s := Trace(START, steps);
    if ShuttingDown(s) {
      var more := CanFinish(s);
    }
  }

  // ----- The threads on the linked list

  /** The list itself, with the state of all threads; every thread has its own entry. */
  class ThreadList {
    const entries: LList<Tid>
    ghost var state: State
    ghost var own: map<Tid, Entry<Tid>>

    ghost predicate Valid()
      reads this, entries, entries.nodes
    {
      && entries.Valid() && Inv(state) && Values(entries) == state.list
      && (forall t :: t in own <==> t in state.life)
      && (forall t :: t in own ==> own[t].value == t)
      && forall i :: 0 <= i < |entries.nodes| ==> Owns(entries.nodes[i])
    }

    /** The entry is that of the thread whose number it carries. */
    ghost predicate Owns(entry: Entry<Tid>)
      reads this
    {
      entry.value in own && own[entry.value] == entry
    }

    lemma NodesAreListed()
      requires Valid()
      ensures forall i :: 0 <= i < |entries.nodes| ==> entries.nodes[i].value in state.list
    {
      hide Inv, LList.Valid;
      assert forall i :: 0 <= i < |entries.nodes| ==> entries.nodes[i].value == Values(entries)[i];
    }

    constructor ()
      ensures Valid() && state == START && fresh(entries)
    {
      entries := new LList<Tid>();
      state, own := START, map[];
      new;
      hide Inv;
      StartInv();
      assert Values(entries) == [];
    }

    /** A step that does not touch the list. */
    ghost method Take(st: Step)
      requires Valid() && Enabled(state, st) && !st.Create? && !st.Append? && !st.RemoveSelf?
      modifies this`state
      ensures Valid() && state == Do(old(state), st)
    {
      hide Inv;
      StepKeeps(state, st);
      state := Do(state, st);
    }

    /** The step `Create`: the listening thread allocates an entry and starts a thread with it. */
    method Create(t: Tid) returns (entry: Entry<Tid>)
      requires Valid() && Enabled(state, Step.Create(t))
      modifies this`state, this`own
      ensures Valid() && state == Do(old(state), Step.Create(t)) && own == old(own)[t := entry]
      ensures fresh(entry)
    {
      hide Inv;
      StepKeeps(state, Step.Create(t));
      NotListed(state, t);
      NodesAreListed();
      entry := new Entry<Tid>(t);
      state, own := Do(state, Step.Create(t)), own[t := entry];
    }

    /** The step `Append`, whether or not the new thread has ended already. */
    method AppendThread(t: Tid, entry: Entry<Tid>)
      requires Valid() && state.listener == ThreadCreated(t) && t in own && own[t] == entry
      modifies this`state, entries, entry, entries.nodes
      ensures Valid() && entries.nodes == old(entries.nodes) + [entry]
      ensures state == old(state).(listener := Appended, list := old(state).list + [t])
    {
      hide Inv;
      StepKeeps(state, Append);
      NewestNotListed(state);
      NodesAreListed();
      entries.Append(entry);
      state := Do(state, Append);
      assert Values(entries) == old(Values(entries)) + [entry.value];
    }

    /** An ending thread removes its own entry, wherever that is in the list. */
    method RemoveOwn(t: Tid, entry: Entry<Tid>) returns (ghost at: nat)
      requires Valid() && Is(state, t, Removing) && t in own && own[t] == entry
      modifies this`state, entries, entries.nodes
      ensures Valid() && Enabled(old(state), Step.RemoveSelf(t, at))
      ensures state == Do(old(state), Step.RemoveSelf(t, at)) && entry.list == null
    {
      hide Inv;
      RemovalFindsItself(state, t);
      at :| Enabled(state, Step.RemoveSelf(t, at));
      StepKeeps(state, Step.RemoveSelf(t, at));
      ghost var nodes := entries.nodes;
      assert nodes[at].value == Values(entries)[at] == t;
      assert entries.nodes[at].list == entries;
      Remove(entry, at);
      state := Do(state, Step.RemoveSelf(t, at));
      assert Values(entries) == old(Values(entries))[..at] + old(Values(entries))[at + 1..];
    }

    /** The shutdown cancels the thread at the head of the list and is going to join it. */
    method CancelFirst() returns (t: Tid)
      requires Valid() && state.listener.Draining? && !entries.IsEmpty()
      modifies this`state
      ensures Valid() && Enabled(old(state), CancelHead) && state == Do(old(state), CancelHead)
      ensures t == old(Values(entries))[0] && state.listener == Joining(t)
    {
      hide Inv;
      t := entries.head.value;
      assert Values(entries)[0] == t;
      Take(CancelHead);
    }
  }

  lemma NotListed(s: State, t: Tid)
    requires Inv(s) && t !in s.life
    ensures t !in s.list
  {
    MinusMembers(EverAppended(s), s.removed);
  }

  lemma NewestNotListed(s: State)
    requires Inv(s) && s.listener.ThreadCreated?
    ensures s.listener.t in s.life && s.listener.t !in s.list
  {
    hide Minus;
    MinusMembers(EverAppended(s), s.removed);
    var n := |s.created| - 1;
    assert s.created[n] in s.created;
    assert forall i :: 0 <= i < n ==> s.created[..n][i] == s.created[i] != s.created[n];
  }
}
