/**
 The work queues: any number of queues, each with its worker thread, any number of enqueuing
 threads, and the shutdown of each queue.  Every critical section is one atomic step; the steps
 of all threads interleave in any order.
 */
module WorkQueues {
  import opened LinkedLists

  /** An entry; `hasErr` and `hasCleanup` say which of the optional callbacks are set. */
  datatype Job = Job(id: nat, hasErr: bool, hasCleanup: bool)

  /** Where a worker thread is.  It holds the queue's lock except before, while waiting and failed. */
  datatype Phase =
    | Starting
    | AtOuterLoop
    | WaitingForSignal
    | AtInnerLoop
    | Executing(job: Job)
    | Returned
    | ReturnedFailed

  type ErrorCode = e: int | e != 0 witness -1

  /** Result of an entry's callback and, if it failed, of its error handler. */
  datatype CallResult = Succeeded | Errored(err: ErrorCode, handlerFails: bool)

  datatype Cleanup = Cleanup(job: Job, err: int)

  /**
   A queue with its history: entries enqueued, taken by the worker and taken by the shutdown, in
   order, entries freed in order, cleanup callbacks made, and results of the entries' callbacks.
   */
  datatype Queue = Queue(
    pending: seq<Job>, worker: Phase, locked: bool, doExit: bool, joined: bool,
    enqueued: seq<Job>, taken: seq<Job>, drained: seq<Job>, freed: seq<Job>, cleaned: seq<Cleanup>,
    results: seq<CallResult>)

  const EMPTY := Queue([], Starting, false, false, false, [], [], [], [], [], [])

  function CleanupOf(j: Job, err: int): seq<Cleanup> {
    if j.hasCleanup then [Cleanup(j, err)] else []
  }

  // ----- Steps of one queue.  A step that is not possible leaves the queue as it is.

  /** Appends under the lock.  The caller must not enqueue once the queue has been shut down. */
  function EnqueueStep(q: Queue, j: Job): Queue {
    if q.locked || q.joined then q
    else q.(pending := q.pending + [j], enqueued := q.enqueued + [j])
  }

  /** The worker acquires the lock, for the first time or after being woken. */
  function AcquireStep(q: Queue): Queue {
    if q.locked then q
    else if q.worker.Starting? then q.(worker := AtOuterLoop, locked := true)
    else if q.worker.WaitingForSignal? then q.(worker := AtInnerLoop, locked := true)
    else q
  }

  /** The outer loop ends with the lock still held, or waits and gives the lock up. */
  function OuterStep(q: Queue): Queue {
    if !q.worker.AtOuterLoop? then q
    else if q.doExit then q.(worker := Returned)
    else q.(worker := WaitingForSignal, locked := false)
  }

  /** The inner loop ends, or takes the first entry. */
  function InnerStep(q: Queue): Queue {
    if !q.worker.AtInnerLoop? then q
    else if q.pending == [] || q.doExit then q.(worker := AtOuterLoop)
    else q.(pending := q.pending[1..], taken := q.taken + [q.pending[0]], worker := Executing(q.pending[0]))
  }

  /** The callback returns; a failing error handler ends the worker, which gives the lock up. */
  function FinishStep(q: Queue, r: CallResult): Queue {
    if !q.worker.Executing? then q else
    var j, rs := q.worker.job, q.results + [r];
    match r
    case Succeeded => q.(worker := AtInnerLoop, freed := q.freed + [j], results := rs)
    case Errored(err, handlerFails) =>
      if !j.hasErr then
        q.(worker := AtInnerLoop, freed := q.freed + [j], cleaned := q.cleaned + CleanupOf(j, err), results := rs)
      else if handlerFails then
        q.(worker := ReturnedFailed, locked := false, freed := q.freed + [j],
           cleaned := q.cleaned + CleanupOf(j, err), results := rs)
      else q.(worker := AtInnerLoop, freed := q.freed + [j], results := rs)
  }

  /** The shutdown sets the exit flag, without the lock. */
  function StopStep(q: Queue): Queue {
    q.(doExit := true)
  }

  function JoinStep(q: Queue): Queue {
    if q.doExit && (q.worker.Returned? || q.worker.ReturnedFailed?) then q.(joined := true) else q
  }

  /** After the join the shutdown removes the entries that are left. */
  function DrainStep(q: Queue): Queue {
    if !q.joined || q.pending == [] then q else
    var j := q.pending[0];
    q.(pending := q.pending[1..], drained := q.drained + [j], freed := q.freed + [j],
       cleaned := q.cleaned + CleanupOf(j, 0))
  }

  // ----- All queues together

  /** The shared item counter is incremented by enqueuers and decremented by workers only. */
  datatype System = System(queues: seq<Queue>, items: int)

  datatype Step =
    | Enqueue(k: nat, job: Job)
    | Acquire(k: nat)
    | Outer(k: nat)
    | Inner(k: nat)
    | Finish(k: nat, result: CallResult)
    | Stop(k: nat)
    | Join(k: nat)
    | Drain(k: nat)

  function QueueStep(q: Queue, st: Step): Queue {
    match st
    case Enqueue(_, j) => EnqueueStep(q, j)
    case Acquire(_) => AcquireStep(q)
    case Outer(_) => OuterStep(q)
    case Inner(_) => InnerStep(q)
    case Finish(_, r) => FinishStep(q, r)
    case Stop(_) => StopStep(q)
    case Join(_) => JoinStep(q)
    case Drain(_) => DrainStep(q)
  }

  /** A queue number that does not exist is refused; entries are freshly allocated. */
  function Next(s: System, st: Step): System {
    if st.k >= |s.queues| || (st.Enqueue? && Known(s, st.job)) then s else
    var q := s.queues[st.k];
    var r := QueueStep(q, st);
    System(s.queues[st.k := r], s.items + (|r.enqueued| - |q.enqueued|) - (|r.taken| - |q.taken|))
  }

  predicate Known(s: System, j: Job) {
    exists k :: 0 <= k < |s.queues| && j in s.queues[k].enqueued
  }

  function Trace(s: System, steps: seq<Step>): System
    decreases |steps|
  {
    if steps == [] then s else Trace(Next(s, steps[0]), steps[1..])
  }

  function Start(n: nat): System {
    System(seq(n, _ => EMPTY), 0)
  }

  // ----- What every step keeps

  ghost predicate HoldsLock(p: Phase) {
    p.AtOuterLoop? || p.AtInnerLoop? || p.Executing? || p.Returned?
  }

  /** The entries that have been taken and finished. */
  ghost function Finished(q: Queue): seq<Job> {
    if q.worker.Executing? && q.taken != [] then q.taken[..|q.taken| - 1] else q.taken
  }

  /** The cleanups that the shutdown owes to drained entries. */
  ghost function Cleanups(js: seq<Job>): seq<Cleanup> {
    if js == [] then [] else Cleanups(js[..|js| - 1]) + CleanupOf(js[|js| - 1], 0)
  }

  /** The worker gives up if the error handler of an entry fails. */
  ghost predicate Fatal(j: Job, r: CallResult) {
    r.Errored? && j.hasErr && r.handlerFails
  }

  /** A failed entry is cleaned unless its error handler took care of it. */
  ghost function Owed(j: Job, r: CallResult): seq<Cleanup> {
    if r.Errored? && (!j.hasErr || r.handlerFails) then CleanupOf(j, r.err) else []
  }

  /** The cleanups that the worker owes to the entries `js` that ended with the results `rs`. */
  ghost function Failures(js: seq<Job>, rs: seq<CallResult>): seq<Cleanup>
    requires |js| == |rs|
  {
    if js == [] then [] else
    var n := |js| - 1;
    Failures(js[..n], rs[..n]) + Owed(js[n], rs[n])
  }

  /**
   The queue is first-in first-out, taken entries are exactly the oldest, every finished or
   drained entry has been freed once, in order, the lock is held exactly in the critical phases,
   and drained entries come only after the worker is gone.
   */
  ghost predicate QueueInv(q: Queue) {
    && q.enqueued == q.taken + q.drained + q.pending
    && q.freed == Finished(q) + q.drained
    && Distinct(q.enqueued)
    && (q.worker.Executing? ==> q.taken != [] && q.worker.job == q.taken[|q.taken| - 1])
    && (q.locked <==> HoldsLock(q.worker))
    && (q.joined ==> q.doExit && (q.worker.Returned? || q.worker.ReturnedFailed?))
    && (!q.joined ==> q.drained == [])
    && CleanupsInv(q) && FailureInv(q)
  }

  /** Cleaned are, in order, the failed entries whose errors were not handled, and the drained ones. */
  ghost predicate CleanupsInv(q: Queue) {
    && |q.results| == |Finished(q)|
    && q.cleaned == Failures(Finished(q), q.results) + Cleanups(q.drained)
  }

  /** The worker has given up exactly if the last entry's error handler failed. */
  ghost predicate FailureInv(q: Queue) {
    && (q.worker.ReturnedFailed? ==> q.results != [])
    && forall i :: 0 <= i < |q.results| && i < |q.taken| ==>
         (Fatal(q.taken[i], q.results[i]) <==> i == |q.results| - 1 && q.worker.ReturnedFailed?)
  }

  ghost function Backlog(qs: seq<Queue>): nat {
    if qs == [] then 0 else Backlog(qs[..|qs| - 1]) + |qs[|qs| - 1].pending| + |qs[|qs| - 1].drained|
  }

  /** The counter is the number of entries waiting, plus those that a shutdown has discarded. */
  ghost predicate Inv(s: System) {
    && (forall k :: 0 <= k < |s.queues| ==> QueueInv(s.queues[k]))
    && s.items == Backlog(s.queues)
  }

  lemma EnqueueKeeps(q: Queue, j: Job)
    requires QueueInv(q) && j !in q.enqueued
    ensures QueueInv(EnqueueStep(q, j))
  {
    var r := EnqueueStep(q, j);
    assert q.taken + q.drained + (q.pending + [j]) == q.taken + q.drained + q.pending + [j];
  }

  lemma InnerKeeps(q: Queue)
    requires QueueInv(q)
    ensures QueueInv(InnerStep(q))
  {
    var r := InnerStep(q);
    if r.worker.Executing? && !q.worker.Executing? {
      assert q.drained == [] && q.pending == [q.pending[0]] + q.pending[1..];
      assert r.taken[..|r.taken| - 1] == q.taken;
    }
  }

  /** The three results of a callback in one form. */
  lemma FinishOutcome(q: Queue, res: CallResult)
    requires q.worker.Executing?
    ensures
      var j := q.worker.job;
      FinishStep(q, res) == q.(
        worker := if Fatal(j, res) then ReturnedFailed else AtInnerLoop,
        locked := if Fatal(j, res) then false else q.locked,
        freed := q.freed + [j], cleaned := q.cleaned + Owed(j, res), results := q.results + [res])
  {
    assert q.cleaned + [] == q.cleaned;
  }

  lemma FinishKeeps(q: Queue, res: CallResult)
    requires QueueInv(q)
    ensures QueueInv(FinishStep(q, res))
  {
    hide Fatal, Owed, Failures, Distinct;
    if q.worker.Executing? {
      hide FinishStep;
      var j, n := q.worker.job, |q.taken| - 1;
      FinishOutcome(q, res);
      assert q.drained == [] && Cleanups([]) == [];
      assert q.taken == q.taken[..n] + [j];
      FailuresSnoc(q.taken[..n], q.results, j, res);
      FinishFails(q, res);
      var f, o := Failures(q.taken[..n], q.results), Owed(j, res);
      assert f + [] == f && (f + o) + [] == f + o;
      assert (q.taken[..n] + []) + [j] == q.taken + [];
    }
  }

  lemma FailuresSnoc(js: seq<Job>, rs: seq<CallResult>, j: Job, r: CallResult)
    requires |js| == |rs|
    ensures Failures(js + [j], rs + [r]) == Failures(js, rs) + Owed(j, r)
  {
    hide Owed;
    assert (js + [j])[..|js|] == js && (rs + [r])[..|rs|] == rs;
  }

  lemma FinishFails(q: Queue, res: CallResult)
    requires q.worker.Executing? && FailureInv(q) && q.taken != [] && |q.results| == |q.taken| - 1
    requires q.worker.job == q.taken[|q.taken| - 1]
    ensures FailureInv(FinishStep(q, res))
  {
    hide FinishStep, Fatal, Owed;
    FinishOutcome(q, res);
    var r, n := FinishStep(q, res), |q.results|;
    forall i | 0 <= i < |r.results| && i < |r.taken|
      ensures Fatal(r.taken[i], r.results[i]) <==> i == |r.results| - 1 && r.worker.ReturnedFailed?
    {
      if i < n {
        assert r.results[i] == q.results[i];
      } else {
        assert r.results[n] == res;
      }
    }
  }

  lemma DrainKeeps(q: Queue)
    requires QueueInv(q)
    ensures QueueInv(DrainStep(q))
  {
    if q.joined && q.pending != [] {
      var r, j := DrainStep(q), q.pending[0];
      assert q.pending == [j] + q.pending[1..];
      assert r.enqueued == r.taken + r.drained + r.pending;
      DrainKeepsCleanups(q);
    }
  }

  lemma DrainKeepsCleanups(q: Queue)
    requires CleanupsInv(q) && q.joined && q.pending != []
    ensures CleanupsInv(DrainStep(q))
  {
    var r, c := DrainStep(q), CleanupOf(q.pending[0], 0);
    assert r.drained[..|r.drained| - 1] == q.drained;
    assert Cleanups(r.drained) == Cleanups(q.drained) + c;
    assert Finished(r) == Finished(q);
  }

  /** Steps that only move the worker or set a flag leave the history as it is. */
  lemma HistoryKept(q: Queue, r: Queue)
    requires CleanupsInv(q) && FailureInv(q)
    requires r.taken == q.taken && r.drained == q.drained && r.cleaned == q.cleaned && r.results == q.results
    requires r.worker.Executing? == q.worker.Executing? && r.worker.ReturnedFailed? == q.worker.ReturnedFailed?
    ensures CleanupsInv(r) && FailureInv(r) && Finished(r) == Finished(q)
  {
    hide Failures, Cleanups, Fatal;
  }

  lemma WorkerKeeps(q: Queue, st: Step)
    requires QueueInv(q) && (st.Acquire? || st.Outer? || st.Stop? || st.Join?)
    ensures QueueInv(QueueStep(q, st))
  {
    hide CleanupsInv, FailureInv, Finished, Distinct;
    HistoryKept(q, QueueStep(q, st));
  }

  lemma QueueStepKeeps(q: Queue, st: Step)
    requires QueueInv(q) && (st.Enqueue? ==> st.job !in q.enqueued)
    ensures QueueInv(QueueStep(q, st))
  {
    hide EnqueueStep, InnerStep, FinishStep, DrainStep, QueueInv;
    match st
    case Enqueue(_, j) => EnqueueKeeps(q, j);
    case Inner(_) => InnerKeeps(q);
    case Finish(_, r) => FinishKeeps(q, r);
    case Drain(_) => DrainKeeps(q);
    case _ => WorkerKeeps(q, st);
  }

  lemma StopKeeps(q: Queue)
    requires QueueInv(q)
    ensures QueueInv(StopStep(q))
  {
    WorkerKeeps(q, Stop(0));
  }

  lemma FinishFacts(q: Queue, res: CallResult)
    requires q.worker.Executing?
    ensures
      var r := FinishStep(q, res);
      && r.taken == q.taken && r.pending == q.pending && r.doExit == q.doExit
      && (r.worker.AtInnerLoop? || r.worker.ReturnedFailed?)
  {
  }

  /** How one step changes the number of waiting and discarded entries. */
  lemma StepCounts(q: Queue, st: Step)
    requires QueueInv(q)
    ensures
      var r := QueueStep(q, st);
      |r.pending| + |r.drained| - |q.pending| - |q.drained|
      == |r.enqueued| - |q.enqueued| - (|r.taken| - |q.taken|)
  {
    hide QueueInv;
  }

  lemma {:induction false} BacklogUpdate(qs: seq<Queue>, k: nat, r: Queue)
    requires k < |qs|
    ensures Backlog(qs[k := r]) == Backlog(qs) + |r.pending| + |r.drained| - |qs[k].pending| - |qs[k].drained|
    decreases |qs|
  {
    var n := |qs| - 1;
    if k < n {
      assert qs[k := r][..n] == qs[..n][k := r];
      BacklogUpdate(qs[..n], k, r);
    } else {
      assert qs[k := r][..n] == qs[..n];
    }
  }

  lemma NextKeeps(s: System, st: Step)
    requires Inv(s)
    ensures Inv(Next(s, st)) && |Next(s, st).queues| == |s.queues|
  {
    hide QueueInv, QueueStep;
    if st.k < |s.queues| && !(st.Enqueue? && Known(s, st.job)) {
      var q := s.queues[st.k];
      QueueStepKeeps(q, st);
      StepCounts(q, st);
      BacklogUpdate(s.queues, st.k, QueueStep(q, st));
    }
  }

  lemma EmptyInv()
    ensures QueueInv(EMPTY)
  {
    assert Cleanups([]) == [] && Failures([], []) == [];
  }

  lemma {:induction false} StartInv(n: nat)
    ensures Inv(Start(n))
    decreases n
  {
    hide QueueInv;
    EmptyInv();
    var qs := Start(n).queues;
    if n > 0 {
      StartInv(n - 1);
      assert qs[..n - 1] == Start(n - 1).queues;
    }
  }

  /** Main result: the invariant holds in every state of every interleaving. */
  lemma {:induction false} TraceKeeps(s: System, steps: seq<Step>)
    requires Inv(s)
    ensures Inv(Trace(s, steps)) && |Trace(s, steps).queues| == |s.queues|
    decreases |steps|
  {
    if steps != [] {
      NextKeeps(s, steps[0]);
      TraceKeeps(Next(s, steps[0]), steps[1..]);
    }
  }

  // ----- What it means

  /** Before any shutdown the counter is the sum of the queue lengths. */
  ghost function Waiting(qs: seq<Queue>): nat {
    if qs == [] then 0 else Waiting(qs[..|qs| - 1]) + |qs[|qs| - 1].pending|
  }

  lemma {:induction false} BacklogIsWaiting(qs: seq<Queue>)
    requires forall k :: 0 <= k < |qs| ==> QueueInv(qs[k]) && !qs[k].joined
    ensures Backlog(qs) == Waiting(qs)
    decreases |qs|
  {
    if qs != [] {
      BacklogIsWaiting(qs[..|qs| - 1]);
    }
  }

  lemma CounterExact(n: nat, steps: seq<Step>)
    ensures
      var s := Trace(Start(n), steps);
      (forall k :: 0 <= k < |s.queues| ==> !s.queues[k].joined) ==> s.items == Waiting(s.queues)
  {
    hide QueueInv, Trace, Start;
    StartInv(n);
    TraceKeeps(Start(n), steps);
    var s := Trace(Start(n), steps);
    if forall k :: 0 <= k < |s.queues| ==> !s.queues[k].joined {
      BacklogIsWaiting(s.queues);
    }
  }

  /** Callbacks start in the order of enqueuing, and each entry at most once. */
  lemma CallbacksInOrder(n: nat, steps: seq<Step>, k: nat)
    requires k < n
    ensures
      var s := Trace(Start(n), steps);
      && |s.queues| == n
      && s.queues[k].taken <= s.queues[k].enqueued && Distinct(s.queues[k].taken)
  {
    hide Trace;
    StartInv(n);
    TraceKeeps(Start(n), steps);
  }

  /**
   Once a queue has been joined and drained, every entry that was ever enqueued has been freed
   exactly once, and was either executed or discarded, never both; it was cleaned with error 0
   exactly if it was discarded and has a cleanup callback.  All other cleanups are those owed to
   executed entries that failed.
   */
  lemma ShutdownComplete(n: nat, steps: seq<Step>, k: nat, j: Job)
    requires k < n
    ensures
      var s := Trace(Start(n), steps);
      |s.queues| == n &&
      var q := s.queues[k];
      q.joined && q.pending == [] ==>
        && q.freed == q.enqueued && Distinct(q.freed)
        && (j in q.enqueued <==> j in q.taken || j in q.drained)
        && !(j in q.taken && j in q.drained)
        && (Cleanup(j, 0) in q.cleaned <==> j in q.drained && j.hasCleanup)
        && |q.results| == |q.taken| && q.cleaned == Failures(q.taken, q.results) + Cleanups(q.drained)
  {
    hide Trace;
    StartInv(n);
    TraceKeeps(Start(n), steps);
    var q := Trace(Start(n), steps).queues[k];
    if q.joined && q.pending == [] {
      assert q.enqueued == q.taken + q.drained;
      NotInBoth(q.taken, q.drained, j);
      DrainedAreCleaned(q, j);
    }
  }

  lemma DrainedAreCleaned(q: Queue, j: Job)
    requires CleanupsInv(q)
    ensures Cleanup(j, 0) in q.cleaned <==> j in q.drained && j.hasCleanup
  {
    CleanupsOf(q.drained, j);
    FailuresHaveErrors(Finished(q), q.results);
  }

  lemma {:induction false} FailuresHaveErrors(js: seq<Job>, rs: seq<CallResult>)
    requires |js| == |rs|
    ensures forall c <- Failures(js, rs) :: c.err != 0
    decreases |js|
  {
    if js != [] {
      FailuresHaveErrors(js[..|js| - 1], rs[..|js| - 1]);
    }
  }

  lemma NotInBoth(a: seq<Job>, b: seq<Job>, j: Job)
    requires Distinct(a + b)
    ensures !(j in a && j in b)
  {
    forall i, k | 0 <= i < |a| && 0 <= k < |b| ensures a[i] != b[k] {
      assert (a + b)[i] == a[i] && (a + b)[|a| + k] == b[k];
    }
  }

  lemma {:induction false} CleanupsOf(js: seq<Job>, j: Job)
    ensures Cleanup(j, 0) in Cleanups(js) <==> j in js && j.hasCleanup
    decreases |js|
  {
    if js != [] {
      var t := js[..|js| - 1];
      CleanupsOf(t, j);
      assert js == t + [js[|js| - 1]];
    }
  }

  /** Whatever happens later, a queue that is locked by a worker that has returned stays as it is. */
  lemma {:induction false} LockedForGood(s: System, steps: seq<Step>, k: nat)
    requires k < |s.queues| && s.queues[k].worker.Returned? && s.queues[k].locked
    ensures
      var r := Trace(s, steps);
      && |r.queues| == |s.queues| && r.queues[k].worker.Returned? && r.queues[k].locked
      && r.queues[k].enqueued == s.queues[k].enqueued && r.queues[k].taken == s.queues[k].taken
    decreases |steps|
  {
    if steps != [] {
      LockedForGood(Next(s, steps[0]), steps[1..], k);
    }
  }

  /**
   A worker that ends normally keeps the lock: in every continuation of every run no entry is
   added to its queue any more, and none is executed.  Threads that enqueue wait forever.
   */
  lemma NormalExitKeepsLock(n: nat, before: seq<Step>, after: seq<Step>, k: nat)
    requires k < n
    ensures
      var s := Trace(Start(n), before);
      var r := Trace(s, after);
      |s.queues| == |r.queues| == n &&
      (s.queues[k].worker.Returned? ==>
         && r.queues[k].locked && r.queues[k].worker.Returned?
         && r.queues[k].enqueued == s.queues[k].enqueued && r.queues[k].taken == s.queues[k].taken)
  {
    hide Trace, Start;
    StartInv(n);
    StartSize(n);
    TraceKeeps(Start(n), before);
    var s := Trace(Start(n), before);
    TraceKeeps(s, after);
    if s.queues[k].worker.Returned? {
      LockedForGood(s, after, k);
    }
  }

  lemma StartSize(n: nat)
    ensures |Start(n).queues| == n
  {
  }

  /** This does happen, for one, to a worker that is told to stop before it first waits. */
  lemma NormalExitHappens()
    ensures
      var s := Trace(Start(1), [Acquire(0), Stop(0), Outer(0)]);
      |s.queues| == 1 && s.queues[0].worker.Returned? && s.queues[0].locked
  {
    hide Known;
    var a, b, c := Acquire(0), Stop(0), Outer(0);
    assert [a, b, c][1..] == [b, c] && [b, c][1..] == [c] && [c][1..] == [];
    var s := Next(Next(Next(Start(1), a), b), c);
    assert Trace(Start(1), [a, b, c]) == Trace(Next(Start(1), a), [b, c]);
    assert Trace(Next(Next(Start(1), a), b), [c]) == Trace(s, []);
  }

  /**
   The lock of a queue is free, or its worker will wait again, or it is executing an entry whose
   error handler may fail.
   */
  predicate CanFree(q: Queue) {
    || !q.locked
    || (!q.doExit && !q.worker.Returned?)
    || (q.worker.Executing? && q.worker.job.hasErr)
  }

  lemma {:induction false} KeptForGood(s: System, steps: seq<Step>, k: nat)
    requires k < |s.queues| && !CanFree(s.queues[k])
    ensures |Trace(s, steps).queues| == |s.queues| && Trace(s, steps).queues[k].locked
    decreases |steps|
  {
    hide Known;
    if steps != [] {
      KeptForGood(Next(s, steps[0]), steps[1..], k);
    }
  }

  /** The worker's next step towards giving up the lock. */
  function Freeing(q: Queue, k: nat): Step {
    match q.worker
    case Executing(j) => Finish(k, if j.hasErr then Errored(1, true) else Succeeded)
    case AtOuterLoop => Outer(k)
    case _ => Inner(k)
  }

  function Busy(p: Phase): nat {
    match p
    case Executing(_) => 2
    case AtInnerLoop => 1
    case _ => 0
  }

  lemma FreeingHelps(q: Queue, k: nat)
    requires QueueInv(q) && CanFree(q) && q.locked
    ensures
      var r := QueueStep(q, Freeing(q, k));
      && CanFree(r)
      && (!r.locked || |r.pending| < |q.pending|
          || (r.pending == q.pending && Busy(r.worker) < Busy(q.worker)))
  {
    hide CleanupsInv, Distinct;
  }

  lemma {:induction false} FreeLock(s: System, k: nat) returns (steps: seq<Step>)
    requires k < |s.queues| && QueueInv(s.queues[k]) && CanFree(s.queues[k])
    ensures k < |Trace(s, steps).queues| && !Trace(s, steps).queues[k].locked
    decreases s.queues[k].locked, |s.queues[k].pending|, Busy(s.queues[k].worker)
  {
    hide QueueInv, CanFree, QueueStep, Known, Busy;
    var q := s.queues[k];
    steps := [];
    if q.locked {
      var st := Freeing(q, k);
      FreeingHelps(q, k);
      QueueStepKeeps(q, st);
      var more := FreeLock(Next(s, st), k);
      steps := [st] + more;
      assert steps[1..] == more;
    }
  }

  /**
   The exact condition, in every reachable state: the lock of a queue can come free again if and
   only if it is free, or the worker has neither been told to stop nor returned, or it is
   executing an entry with an error handler.  Once a worker that holds the lock has been told to
   stop, only a failing error handler gives the lock back.
   */
  lemma LockComesFree(n: nat, before: seq<Step>, k: nat)
    requires k < n
    ensures
      var s := Trace(Start(n), before);
      |s.queues| == n &&
      (CanFree(s.queues[k]) <==>
        exists after :: k < |Trace(s, after).queues| && !Trace(s, after).queues[k].locked)
  {
    hide Trace, Start, QueueInv, CanFree;
    StartInv(n);
    StartSize(n);
    TraceKeeps(Start(n), before);
    var s := Trace(Start(n), before);
    if CanFree(s.queues[k]) {
      var after := FreeLock(s, k);
    } else {
      forall after ensures k < |Trace(s, after).queues| && Trace(s, after).queues[k].locked {
        KeptForGood(s, after, k);
      }
    }
  }

  // ----- Entries are executed unless the worker is told to stop or gives up

  /** All entries enqueued so far are executed or are going to be. */
  predicate MayRun(q: Queue) {
    q.enqueued == q.taken || (!q.doExit && !q.worker.Returned? && !q.worker.ReturnedFailed?)
  }

  /** The worker's next step towards executing an entry. */
  function Working(q: Queue, k: nat): Step {
    match q.worker
    case AtOuterLoop => Outer(k)
    case AtInnerLoop => Inner(k)
    case Executing(_) => Finish(k, Succeeded)
    case _ => Acquire(k)
  }

  function StepsToEntry(p: Phase): nat {
    match p
    case Starting => 4
    case AtOuterLoop => 3
    case WaitingForSignal => 2
    case Executing(_) => 1
    case _ => 0
  }

  lemma WorkingHelps(q: Queue, k: nat)
    requires QueueInv(q) && MayRun(q) && q.pending != [] && q.drained == []
    ensures
      var r := QueueStep(q, Working(q, k));
      && MayRun(r) && r.enqueued == q.enqueued && r.drained == []
      && (|r.pending| < |q.pending| || (r.pending == q.pending && StepsToEntry(r.worker) < StepsToEntry(q.worker)))
  {
    hide CleanupsInv, FailureInv, Distinct;
    assert |q.enqueued| == |q.taken| + |q.pending|;
  }

  lemma {:induction false} RunAll(s: System, k: nat) returns (steps: seq<Step>)
    requires k < |s.queues| && QueueInv(s.queues[k]) && MayRun(s.queues[k]) && s.queues[k].drained == []
    ensures k < |Trace(s, steps).queues| && Trace(s, steps).queues[k].taken == s.queues[k].enqueued
    decreases |s.queues[k].pending|, StepsToEntry(s.queues[k].worker)
  {
    hide CleanupsInv, FailureInv, Distinct, MayRun, QueueStep, Known, StepsToEntry;
    var q := s.queues[k];
    steps := [];
    if q.pending != [] {
      var st := Working(q, k);
      WorkingHelps(q, k);
      QueueStepKeeps(q, st);
      var more := RunAll(Next(s, st), k);
      steps := [st] + more;
      assert steps[1..] == more;
    }
  }

  /** A worker that has been told to stop, or has ended, takes no entry any more. */
  lemma {:induction false} TakesNoMore(s: System, steps: seq<Step>, k: nat)
    requires k < |s.queues|
    requires s.queues[k].doExit || s.queues[k].worker.Returned? || s.queues[k].worker.ReturnedFailed?
    ensures |Trace(s, steps).queues| == |s.queues| && Trace(s, steps).queues[k].taken == s.queues[k].taken
    decreases |steps|
  {
    hide Known;
    if steps != [] {
      TakesNoMore(Next(s, steps[0]), steps[1..], k);
    }
  }

  /**
   In every reachable state: some continuation executes all entries enqueued so far if and only if
   they have been taken already, or the worker has neither been told to stop nor ended.
   */
  lemma ExecutionPossible(n: nat, before: seq<Step>, k: nat)
    requires k < n
    ensures
      var s := Trace(Start(n), before);
      |s.queues| == n &&
      (MayRun(s.queues[k]) <==>
        exists after :: k < |Trace(s, after).queues| && s.queues[k].enqueued <= Trace(s, after).queues[k].taken)
  {
    hide Trace, Start, CleanupsInv, FailureInv, Distinct;
    StartInv(n);
    StartSize(n);
    TraceKeeps(Start(n), before);
    var s := Trace(Start(n), before);
    var q := s.queues[k];
    if q.enqueued == q.taken {
      NoSteps(s);
    } else if MayRun(q) {
      var after := RunAll(s, k);
    } else {
      forall after
        ensures k < |Trace(s, after).queues| && !(q.enqueued <= Trace(s, after).queues[k].taken)
      {
        TakesNoMore(s, after, k);
        assert |q.enqueued| == |q.taken| + |q.drained| + |q.pending|;
        assert |q.enqueued| == |q.taken| ==> q.enqueued == q.taken;
      }
    }
  }

  lemma NoSteps(s: System)
    ensures Trace(s, []) == s
  {
  }

  // ----- The shutdown can always be completed

  /** The next step of the shutdown of a queue that has been told to stop. */
  function Ending(q: Queue, k: nat): Step {
    match q.worker
    case Starting => Acquire(k)
    case WaitingForSignal => Acquire(k)
    case AtOuterLoop => Outer(k)
    case AtInnerLoop => Inner(k)
    case Executing(_) => Finish(k, Succeeded)
    case _ => if q.joined then Drain(k) else Join(k)
  }

  function StepsToJoin(q: Queue): nat {
    match q.worker
    case Starting => 4
    case WaitingForSignal => 4
    case Executing(_) => 4
    case AtInnerLoop => 3
    case AtOuterLoop => 2
    case _ => if q.joined then 0 else 1
  }

  lemma EndingHelps(q: Queue, k: nat)
    requires QueueInv(q) && q.doExit && !(q.joined && q.pending == [])
    ensures
      var r := QueueStep(q, Ending(q, k));
      && r.doExit
      && (StepsToJoin(r) < StepsToJoin(q) || (StepsToJoin(r) == StepsToJoin(q) && |r.pending| < |q.pending|))
  {
    hide CleanupsInv, Distinct;
  }

  lemma {:induction false} CanFinish(s: System, k: nat) returns (steps: seq<Step>)
    requires k < |s.queues| && QueueInv(s.queues[k]) && s.queues[k].doExit
    ensures
      var r := Trace(s, steps);
      k < |r.queues| && r.queues[k].joined && r.queues[k].pending == []
    decreases StepsToJoin(s.queues[k]), |s.queues[k].pending|
  {
    hide QueueInv, QueueStep, Known, StepsToJoin;
    var q := s.queues[k];
    steps := [];
    if !(q.joined && q.pending == []) {
      var st := Ending(q, k);
      EndingHelps(q, k);
      QueueStepKeeps(q, st);
      var more := CanFinish(Next(s, st), k);
      steps := [st] + more;
      assert steps[1..] == more;
    }
  }

  /**
   From every reachable state in which a queue has been told to stop some continuation joins and
   drains it, so that `ShutdownComplete` applies.  A waiting worker is woken up at some time.
   */
  lemma ShutdownCanFinish(n: nat, before: seq<Step>, k: nat)
    requires k < n
    ensures
      var s := Trace(Start(n), before);
      |s.queues| == n &&
      (s.queues[k].doExit ==>
        exists after :: k < |Trace(s, after).queues| &&
          Trace(s, after).queues[k].joined && Trace(s, after).queues[k].pending == [])
  {
    hide Trace, Start, QueueInv;
    StartInv(n);
    StartSize(n);
    TraceKeeps(Start(n), before);
    var s := Trace(Start(n), before);
    if s.queues[k].doExit {
      var after := CanFinish(s, k);
    }
  }

  // ----- One queue on the linked list

  class Counter {
    var n: int
  }

  class WorkQueue {
    const entries: LList<Job>
    const items: Counter
    var worker: Phase
    var locked: bool
    var doExit: bool
    var joined: bool
    ghost var enqueued: seq<Job>
    ghost var taken: seq<Job>
    ghost var drained: seq<Job>
    ghost var freed: seq<Job>
    ghost var cleaned: seq<Cleanup>
    ghost var results: seq<CallResult>

    ghost predicate Valid()
      reads this, entries, entries.nodes
    {
      entries.Valid() && QueueInv(Q())
    }

    /** The state of the queue as the steps above see it. */
    ghost function Q(): Queue
      reads this, entries
    {
      Queue(Values(entries), worker, locked, doExit, joined, enqueued, taken, drained, freed, cleaned, results)
    }

    constructor (items: Counter)
      ensures Valid() && Q() == EMPTY && this.items == items && fresh(entries)
    {
      entries := new LList<Job>();
      this.items := items;
      worker, locked, doExit, joined := Starting, false, false, false;
      enqueued, taken, drained, freed, cleaned, results := [], [], [], [], [], [];
      new;
      hide *;
      NewIsEmpty();
    }

    lemma NewIsEmpty()
      requires entries.Valid() && entries.nodes == [] && worker == Starting && !locked && !doExit && !joined
      requires enqueued == taken == drained == freed == [] && cleaned == [] && results == []
      ensures Valid() && Q() == EMPTY
    {
      hide QueueInv;
      assert Values(entries) == [];
      EmptyInv();
    }

    method Enqueue(job: Job)
      requires Valid() && !locked && !joined && job !in enqueued
      modifies this, items, entries, entries.nodes
      ensures Valid() && Q() == EnqueueStep(old(Q()), job)
      ensures Values(entries) == old(Values(entries)) + [job] && enqueued == old(enqueued) + [job]
      ensures items.n == old(items.n) + 1 && !locked
    {
      hide QueueInv;
      EnqueueKeeps(Q(), job);
      locked := true;
      var entry := new Entry<Job>(job);
      entries.Append(entry);
      items.n := items.n + 1;
      locked := false;
      enqueued := enqueued + [job];
      assert Values(entries) == old(Values(entries)) + [job];
    }

    /** The worker's inner loop, up to the call of the entry's callback. */
    method TakeNext() returns (job: Job)
      requires Valid() && worker.AtInnerLoop? && !entries.IsEmpty() && !doExit
      modifies this, items, entries, entries.nodes
      ensures Valid() && Q() == InnerStep(old(Q())) && Q().worker == Executing(job)
      ensures job == old(Values(entries))[0] && Values(entries) == old(Values(entries))[1..]
      ensures taken == old(taken) + [job]
      ensures items.n == old(items.n) - 1 && entries.nodes == old(entries.nodes)[1..]
    {
      hide QueueInv;
      InnerKeeps(Q());
      job := RemoveFirst();
      items.n := items.n - 1;
      worker, taken := Executing(job), taken + [job];
    }

    method RemoveFirst() returns (job: Job)
      requires entries.Valid() && entries.nodes != []
      modifies entries, entries.nodes
      ensures entries.Valid() && job == old(Values(entries))[0]
      ensures Values(entries) == old(Values(entries))[1..] && entries.nodes == old(entries.nodes)[1..]
    {
      var entry := entries.GetEntry(0);
      job := entry.value;
      assert entries.nodes[0].list == entries;
      ghost var nodes := entries.nodes;
      Remove(entry, 0);
      assert entries.nodes == nodes[1..];
    }

    /** The rest of the inner loop's body: error handling and freeing. */
    method Finish(job: Job, r: CallResult)
      requires Valid() && worker == Executing(job)
      modifies this
      ensures Valid() && Q() == FinishStep(old(Q()), r)
      ensures freed == old(freed) + [job] && results == old(results) + [r]
      ensures cleaned == old(cleaned) + Owed(job, r)
      ensures worker == (if Fatal(job, r) then ReturnedFailed else AtInnerLoop)
      ensures locked == if Fatal(job, r) then false else old(locked)
    {
      hide QueueInv, LList.Valid, FinishStep;
      FinishKeeps(Q(), r);
      FinishOutcome(Q(), r);
      freed, results := freed + [job], results + [r];
      assert cleaned + [] == cleaned;
      if r.Errored? {
        if !job.hasErr {
          cleaned := cleaned + CleanupOf(job, r.err);
        } else if r.handlerFails {
          cleaned := cleaned + CleanupOf(job, r.err);
          locked := false;
          worker := ReturnedFailed;
          return;
        }
      }
      worker := AtInnerLoop;
    }

    /**
     The worker's inner loop.  The lock is held throughout, so that only the exit flag can change
     meanwhile: `turns` says what each callback returns and whether the shutdown came during it.
     */
    method InnerLoop(turns: seq<Turn>)
      requires Valid() && worker.AtInnerLoop? && |turns| >= |entries.nodes|
      modifies this, items, entries, entries.nodes
      ensures Valid() && Q() == InnerRun(old(Q()), turns)
      ensures items.n == old(items.n) - (|Q().taken| - |old(Q()).taken|)
    {
      hide QueueInv, TurnStep;
      ghost var q, n := Q(), items.n;
      var left := turns;
      while !(entries.IsEmpty() || doExit)
        invariant Valid() && worker.AtInnerLoop? && |left| >= |entries.nodes|
        invariant InnerRun(Q(), left) == InnerRun(q, turns)
        invariant forall i :: 0 <= i < |entries.nodes| ==> entries.nodes[i] in old(entries.nodes)
        invariant items.n == n - (|taken| - |q.taken|)
        decreases |entries.nodes|
      {
        RunOne(left[0]);
        if worker.ReturnedFailed? {
          return;
        }
        left := left[1..];
      }
      InnerKeeps(Q());
      worker := AtOuterLoop;
    }

    /** One pass of the inner loop: take an entry, call it back, handle errors and free it. */
    method RunOne(turn: Turn)
      requires Valid() && worker.AtInnerLoop? && !entries.IsEmpty() && !doExit
      modifies this, items, entries, entries.nodes
      ensures Valid() && Q() == TurnStep(old(Q()), turn) && (worker.AtInnerLoop? || worker.ReturnedFailed?)
      ensures items.n == old(items.n) - 1 && |taken| == |old(taken)| + 1
      ensures entries.nodes == old(entries.nodes)[1..]
    {
      hide QueueInv, FinishStep;
      var job := TakeNext();
      if turn.stopped {
        StopKeeps(Q());
        doExit := true;
      }
      FinishFacts(Q(), turn.result);
      Finish(job, turn.result);
    }

    /** The loop after the join in the shutdown: every entry left is cleaned with error 0 and freed. */
    method DrainAll()
      requires Valid() && joined
      modifies this, entries, entries.nodes
      ensures Valid() && Q() == DrainedQueue(old(Q())) && Q().pending == []
    {
      hide QueueInv, DrainStep;
      ghost var q := Q();
      while !entries.IsEmpty()
        invariant Valid() && joined
        invariant DrainedQueue(Q()) == DrainedQueue(q)
        invariant forall i :: 0 <= i < |entries.nodes| ==> entries.nodes[i] in old(entries.nodes)
        decreases |entries.nodes|
      {
        DrainOne();
      }
    }

    method DrainOne()
      requires Valid() && joined && !entries.IsEmpty()
      modifies this, entries, entries.nodes
      ensures Valid() && joined && Q() == DrainStep(old(Q()))
      ensures entries.nodes == old(entries.nodes)[1..]
    {
      hide QueueInv;
      DrainKeeps(Q());
      var job := RemoveFirst();
      if job.hasCleanup {
        cleaned := cleaned + [Cleanup(job, 0)];
      }
      freed, drained := freed + [job], drained + [job];
      assert cleaned + [] == cleaned;
    }
  }

  /** Repeated drain steps until nothing is left. */
  function DrainedQueue(q: Queue): Queue
    decreases |q.pending|
  {
    if !q.joined || q.pending == [] then q else DrainedQueue(DrainStep(q))
  }

  /** What happens during one callback. */
  datatype Turn = Turn(result: CallResult, stopped: bool)

  function TurnStep(q: Queue, turn: Turn): Queue {
    var r := InnerStep(q);
    FinishStep(if turn.stopped then StopStep(r) else r, turn.result)
  }

  /** The worker's inner loop as a sequence of steps of the worker and the shutdown. */
  function InnerRun(q: Queue, turns: seq<Turn>): Queue
    decreases |turns|
  {
    if q.pending == [] || q.doExit || turns == [] then InnerStep(q) else
    var f := TurnStep(q, turns[0]);
    if f.worker.AtInnerLoop? then InnerRun(f, turns[1..]) else f
  }
}
