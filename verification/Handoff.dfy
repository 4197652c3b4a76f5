/** How the work queues and the allocator use the semaphores: each of their steps that takes or
    puts is one call of the atomic semaphore that the instructions of arm.S implement. */
module Handoff {
  import opened Wrappers
  import S = Semaphore
  import Q = WorkQueue
  import L = AllocatorLock

  type Event = (nat, S.Act, S.Atomic)

  /** No core is inside a semaphore routine. */
  function Quiet(words: seq<nat>, cores: nat): S.Atomic {
    S.Atomic(words, seq(cores, i => S.Outside))
  }

  /** A call of core c for word a, from its invocation to its return. */
  function CallOf(words: seq<nat>, cores: nat, c: nat, op: S.Op, a: nat): seq<Event>
    requires c < cores && a < |words|
  {
    var quiet := Quiet(words, cores);
    var after := words[a := if op == S.Take then 1 else 0];
    [(c, S.Invoke(op, a), quiet.(phases := quiet.phases[c := S.Called(op, a)])),
     (c, S.Effect, S.Atomic(after, quiet.phases[c := S.Done(op, a)])),
     (c, S.Return, Quiet(after, cores))]
  }

  lemma CallIsRun(words: seq<nat>, cores: nat, c: nat, op: S.Op, a: nat)
    requires c < cores && a < |words| && (op == S.Take ==> words[a] == 0)
    ensures S.AtomicRun(Quiet(words, cores), CallOf(words, cores, c, op, a),
                        Quiet(words[a := if op == S.Take then 1 else 0], cores))
  {
    var quiet := Quiet(words, cores);
    var acts: seq<Event> := CallOf(words, cores, c, op, a);
    var back: seq<Event> := acts[2..];
    var after := words[a := if op == S.Take then 1 else 0];
    var called := quiet.(phases := quiet.phases[c := S.Called(op, a)]);
    var done := S.Atomic(after, quiet.phases[c := S.Done(op, a)]);
    assert done.phases[c := S.Outside] == Quiet(after, cores).phases;
    assert S.Acts(quiet, c, S.Invoke(op, a), called);
    assert called.phases[c := S.Done(op, a)] == done.phases;
    assert S.Acts(called, c, S.Effect, done);
    assert S.Acts(done, c, S.Return, Quiet(after, cores));
    assert |back[1..]| == 0 && acts[1..][1..] == back;
    assert S.AtomicRun(done, back, Quiet(after, cores));
    assert S.AtomicRun(called, acts[1..], Quiet(after, cores));
  }

  lemma {:induction false} RunsAppend(s: S.Atomic, e1: seq<Event>, s1: S.Atomic, e2: seq<Event>, s2: S.Atomic)
    requires S.AtomicRun(s, e1, s1) && S.AtomicRun(s1, e2, s2)
    ensures S.AtomicRun(s, e1 + e2, s2)
    decreases |e1|
  {
    if e1 == [] {
      assert e1 + e2 == e2;
    } else {
      assert (e1 + e2)[1..] == e1[1..] + e2;
      RunsAppend(e1[0].2, e1[1..], s1, e2, s2);
    }
  }

  // ----- the work queues

  /** The submission words of all queues, then the completion words. */
  function Words(s: Q.State): (w: seq<nat>)
    ensures |w| == 2 * |s.lanes|
  {
    seq(|s.lanes|, q requires 0 <= q < |s.lanes| => Q.Bit(s.lanes[q].subTaken))
    + seq(|s.lanes|, q requires 0 <= q < |s.lanes| => Q.Bit(s.lanes[q].compTaken))
  }

  /** Core 0 posts and waits; the others each work for one queue. */
  function CoreOf(e: Q.Step): nat {
    match e case Main => 0 case Work(q) => q + 1
  }

  /** The step is the next of its core, whether or not the semaphore it may take is free. */
  predicate IsNext(s: Q.State, e: Q.Step) {
    match e
    case Main => s.todo != [] && Q.OpFits(s.todo[0], |s.memory|, |s.lanes|)
    case Work(q) =>
      && q < |s.lanes|
      && (s.lanes[q].worker.AtFirst? ==> s.lanes[q].worker.params < |s.memory|)
      && (s.lanes[q].worker.AtSecond? ==> s.lanes[q].worker.params + 1 < |s.memory|)
  }

  /** The semaphore routine a step calls, if any, and its word. */
  function RoutineOf(s: Q.State, e: Q.Step): (r: Option<(S.Op, nat)>)
    requires IsNext(s, e)
    ensures r.Some? ==> r.value.1 < 2 * |s.lanes|
  {
    match e
    case Work(q) =>
      if s.lanes[q].worker == Q.AtTake then Some((S.Take, q))
      else if s.lanes[q].worker == Q.AtPut then Some((S.Put, |s.lanes| + q))
      else None
    case Main =>
      match s.todo[0]
      case SetParam(_, _) => None
      case Post(q, _, _) =>
        if s.phase == 0 then Some((S.Take, |s.lanes| + q)) else if s.phase >= 3 then Some((S.Put, q)) else None
      case Wait(q) =>
        if s.phase == 0 then Some((S.Take, |s.lanes| + q)) else Some((S.Put, |s.lanes| + q))
  }

  /** A step waits exactly while it is to take a word that is set. */
  lemma TakesWait(s: Q.State, e: Q.Step)
    ensures Q.Enabled(s, e) <==>
            IsNext(s, e) && (RoutineOf(s, e).Some? && RoutineOf(s, e).value.0 == S.Take ==>
                             Words(s)[RoutineOf(s, e).value.1] == 0)
  {
  }

  /** A routine takes the words from w to w'. */
  predicate Moves(w: seq<nat>, r: Option<(S.Op, nat)>, w': seq<nat>) {
    match r
    case None => w' == w
    case Some((op, a)) =>
      a < |w| && (op == S.Take ==> w[a] == 0) && w' == w[a := if op == S.Take then 1 else 0]
  }

  lemma MainMoves(s: Q.State)
    requires Q.Enabled(s, Q.Main)
    ensures Moves(Words(s), RoutineOf(s, Q.Main), Words(Q.MainStep(s)))
  {
    var r, w, w' := RoutineOf(s, Q.Main), Words(s), Words(Q.MainStep(s));
    match r {
      case None => assert w' == w;
      case Some((op, a)) => assert w' == w[a := if op == S.Take then 1 else 0];
    }
  }

  lemma WorkMoves(tasks: Q.Tasks, s: Q.State, q: nat)
    requires Q.Enabled(s, Q.Work(q))
    ensures Moves(Words(s), RoutineOf(s, Q.Work(q)), Words(Q.Apply(tasks, s, Q.Work(q))))
  {
    var r, w, w' := RoutineOf(s, Q.Work(q)), Words(s), Words(Q.Apply(tasks, s, Q.Work(q)));
    match r {
      case None => assert w' == w;
      case Some((op, a)) => assert w' == w[a := if op == S.Take then 1 else 0];
    }
  }

  /** A take finds its word clear and sets it, a put clears its word, and every other step leaves
      all words alone. */
  lemma StepCallsRoutine(tasks: Q.Tasks, s: Q.State, e: Q.Step)
    requires Q.Enabled(s, e)
    ensures |Q.Apply(tasks, s, e).lanes| == |s.lanes|
    ensures Moves(Words(s), RoutineOf(s, e), Words(Q.Apply(tasks, s, e)))
  {
    match e
    case Main => MainMoves(s);
    case Work(q) => WorkMoves(tasks, s, q);
  }

  /** The calls of the atomic semaphore a run makes. */
  function Calls(tasks: Q.Tasks, s: Q.State, run: seq<Q.Step>): seq<Event>
    requires Q.IsRun(tasks, s, run)
    decreases |run|
  {
    if run == [] then [] else
    var rest := Calls(tasks, Q.Apply(tasks, s, run[0]), run[1..]);
    match RoutineOf(s, run[0])
    case None => rest
    case Some((op, a)) =>
      StepCallsRoutine(tasks, s, run[0]);
      CallOf(Words(s), |s.lanes| + 1, CoreOf(run[0]), op, a) + rest
  }

  /** Every interleaving of core 0 and the workers is a run of the atomic semaphore. */
  lemma {:induction false} QueuesUseSemaphores(tasks: Q.Tasks, s: Q.State, run: seq<Q.Step>)
    requires Q.IsRun(tasks, s, run)
    ensures S.AtomicRun(Quiet(Words(s), |s.lanes| + 1), Calls(tasks, s, run),
                        Quiet(Words(Q.Final(tasks, s, run)), |s.lanes| + 1))
    decreases |run|
  {
    if run != [] {
      var s' := Q.Apply(tasks, s, run[0]);
      StepCallsRoutine(tasks, s, run[0]);
      QueuesUseSemaphores(tasks, s', run[1..]);
      match RoutineOf(s, run[0])
      case None =>
      case Some((op, a)) =>
        var n := |s.lanes| + 1;
        CallIsRun(Words(s), n, CoreOf(run[0]), op, a);
        RunsAppend(Quiet(Words(s), n), CallOf(Words(s), n, CoreOf(run[0]), op, a), Quiet(Words(s'), n),
                   Calls(tasks, s', run[1..]), Quiet(Words(Q.Final(tasks, s, run)), n));
    }
  }

  // ----- the page table

  function LockCalls(mallocs: seq<bool>, s: L.State, run: seq<L.Step>): seq<Event>
    requires L.IsRun(mallocs, s, run)
    decreases |run|
  {
    if run == [] then [] else
    var op := if run[0].Enter? then S.Take else S.Put;
    CallOf([Q.Bit(s.taken)], |mallocs|, run[0].core, op, 0) + LockCalls(mallocs, L.Apply(mallocs, s, run[0]), run[1..])
  }

  /** So is every interleaving of the allocator's calls, on a single word. */
  lemma {:induction false} AllocatorUsesSemaphore(mallocs: seq<bool>, s: L.State, run: seq<L.Step>)
    requires L.IsRun(mallocs, s, run)
    ensures S.AtomicRun(Quiet([Q.Bit(s.taken)], |mallocs|), LockCalls(mallocs, s, run),
                        Quiet([Q.Bit(L.Final(mallocs, s, run).taken)], |mallocs|))
    decreases |run|
  {
    if run != [] {
      var s' := L.Apply(mallocs, s, run[0]);
      var op := if run[0].Enter? then S.Take else S.Put;
      AllocatorUsesSemaphore(mallocs, s', run[1..]);
      CallIsRun([Q.Bit(s.taken)], |mallocs|, run[0].core, op, 0);
      assert [Q.Bit(s.taken)][0 := if op == S.Take then 1 else 0] == [Q.Bit(s'.taken)];
      RunsAppend(Quiet([Q.Bit(s.taken)], |mallocs|), CallOf([Q.Bit(s.taken)], |mallocs|, run[0].core, op, 0),
                 Quiet([Q.Bit(s'.taken)], |mallocs|), LockCalls(mallocs, s', run[1..]),
                 Quiet([Q.Bit(L.Final(mallocs, s, run).taken)], |mallocs|));
    }
  }
}
