/** work_queue.c: core 0 hands tasks to one worker core per queue through two semaphores.

    A step is one take or put of a semaphore or one access to shared memory, and the cores
    interleave freely.  Core 0 runs any program of parameter writes, posts and waits; each
    worker runs execute_work forever.  `tasks` is the code the posted functions run: its value
    for a task and two argument words. */
module WorkQueue {

  type Tasks = (nat, nat, nat) -> int

  const RESULT_INVALID: int := 0xFFFF

  /** What core 0 does: write a parameter word, post_work_blocking, wait_work_done. */
  datatype Op =
    | SetParam(slot: nat, value: nat)
    | Post(queue: nat, task: nat, params: nat)
    | Wait(queue: nat)

  datatype Job = Job(task: nat, params: nat)
  datatype Args = Args(x: nat, y: nat)

  /** Where a worker is in execute_work. */
  datatype Worker =
    | AtTake
    | AtTask
    | AtParams(task: nat)
    | AtFirst(task: nat, params: nat)
    | AtSecond(task: nat, params: nat, x: nat)
    | AtCall(task: nat, params: nat, args: Args)
    | AtPut

  /** One queue entry with its worker.  The last four fields record history: the jobs posted
      and the words their parameters held then, and the jobs run and the words they read. */
  datatype Lane = Lane(
    subTaken: bool, compTaken: bool, task: nat, params: nat, result: int,
    worker: Worker,
    posted: seq<Job>, sent: seq<Args>, executed: seq<Job>, received: seq<Args>)

  /** `phase` counts the accesses core 0 has made for the first operation left to do.  `busy`
      remembers which queues may still run a job posted to them, and where its parameters are. */
  datatype State = State(
    memory: seq<nat>, lanes: seq<Lane>,
    todo: seq<Op>, phase: nat, busy: map<nat, nat>)

  datatype Step = Main | Work(queue: nat)

  /** The entry create_work_queue_entry returns: submission taken, completion free. */
  function CreateWorkQueueEntry(task: nat, params: nat): Lane {
    Lane(true, false, task, params, RESULT_INVALID, AtTake, [], [], [], [])
  }

  predicate OpFits(op: Op, words: nat, queues: nat) {
    match op
    case SetParam(slot, _) => slot < words
    case Post(q, _, p) => q < queues && p + 1 < words
    case Wait(q) => q < queues
  }

  predicate Fits(s: State) {
    forall i :: 0 <= i < |s.todo| ==> OpFits(s.todo[i], |s.memory|, |s.lanes|)
  }

  /** A take waits until its semaphore is free; every other step is always possible. */
  predicate Enabled(s: State, e: Step) {
    match e
    case Main =>
      && s.todo != [] && OpFits(s.todo[0], |s.memory|, |s.lanes|)
      && (!s.todo[0].SetParam? && s.phase == 0 ==> !s.lanes[s.todo[0].queue].compTaken)
    case Work(q) =>
      && q < |s.lanes|
      && (s.lanes[q].worker == AtTake ==> !s.lanes[q].subTaken)
      && (s.lanes[q].worker.AtFirst? ==> s.lanes[q].worker.params < |s.memory|)
      && (s.lanes[q].worker.AtSecond? ==> s.lanes[q].worker.params + 1 < |s.memory|)
  }

  function Next(s: State): State
    requires s.todo != []
  {
    s.(todo := s.todo[1..], phase := 0)
  }

  function MainStep(s: State): State
    requires Enabled(s, Main)
  {
    match s.todo[0]
    case SetParam(slot, v) => Next(s.(memory := s.memory[slot := v]))
    case Post(q, task, params) =>
      var k := s.lanes[q];
      if s.phase == 0 then s.(phase := 1, lanes := s.lanes[q := k.(compTaken := true)])
      else if s.phase == 1 then s.(phase := 2, lanes := s.lanes[q := k.(task := task)])
      else if s.phase == 2 then s.(phase := 3, lanes := s.lanes[q := k.(params := params)])
      else
        var args := Args(s.memory[params], s.memory[params + 1]);
        Next(s.(busy := s.busy[q := params],
                lanes := s.lanes[q := k.(subTaken := false,
                                         posted := k.posted + [Job(task, params)],
                                         sent := k.sent + [args])]))
    case Wait(q) =>
      var k := s.lanes[q];
      if s.phase == 0 then s.(phase := 1, lanes := s.lanes[q := k.(compTaken := true)])
      else Next(s.(busy := s.busy - {q}, lanes := s.lanes[q := k.(compTaken := false)]))
  }

  function WorkerStep(tasks: Tasks, memory: seq<nat>, k: Lane): Lane
    requires k.worker.AtFirst? ==> k.worker.params < |memory|
    requires k.worker.AtSecond? ==> k.worker.params + 1 < |memory|
  {
    match k.worker
    case AtTake => k.(subTaken := true, worker := AtTask)
    case AtTask => k.(worker := AtParams(k.task))
    case AtParams(t) => k.(worker := AtFirst(t, k.params))
    case AtFirst(t, p) => k.(worker := AtSecond(t, p, memory[p]))
    case AtSecond(t, p, x) => k.(worker := AtCall(t, p, Args(x, memory[p + 1])))
    case AtCall(t, p, a) =>
      k.(worker := AtPut, result := tasks(t, a.x, a.y),
         executed := k.executed + [Job(t, p)], received := k.received + [a])
    case AtPut => k.(compTaken := false, worker := AtTake)
  }

  function Apply(tasks: Tasks, s: State, e: Step): State
    requires Enabled(s, e)
  {
    match e
    case Main => MainStep(s)
    case Work(q) => s.(lanes := s.lanes[q := WorkerStep(tasks, s.memory, s.lanes[q])])
  }

  /** An interleaving is any sequence of enabled steps. */
  predicate IsRun(tasks: Tasks, s: State, run: seq<Step>)
    decreases |run|
  {
    run == [] || (Enabled(s, run[0]) && IsRun(tasks, Apply(tasks, s, run[0]), run[1..]))
  }

  function Final(tasks: Tasks, s: State, run: seq<Step>): State
    requires IsRun(tasks, s, run)
    decreases |run|
  {
    if run == [] then s else Final(tasks, Apply(tasks, s, run[0]), run[1..])
  }

  ghost predicate Initial(s: State) {
    && Fits(s) && s.phase == 0 && s.busy == map[]
    && forall q :: 0 <= q < |s.lanes| ==> s.lanes[q] == CreateWorkQueueEntry(s.lanes[q].task, s.lanes[q].params)
  }

  // ----- the baton

  /** Core 0 is past a take of the queue's completion semaphore and before the put that follows. */
  predicate MainHolds(s: State, q: nat) {
    s.todo != [] && !s.todo[0].SetParam? && s.todo[0].queue == q && s.phase > 0
  }

  function Bit(b: bool): nat {
    if b then 1 else 0
  }

  /** Exactly one of: completion free, core 0 holds, submission free, the worker holds. */
  predicate Baton(s: State, q: nat)
    requires q < |s.lanes|
  {
    var k := s.lanes[q];
    Bit(!k.compTaken) + Bit(MainHolds(s, q)) + Bit(!k.subTaken) + Bit(k.worker != AtTake) == 1
  }

  /** A job is posted and not finished. */
  predicate InFlight(k: Lane) {
    !k.subTaken || (k.worker != AtTake && k.worker != AtPut)
  }

  /** What the worker has read of the entry so far. */
  predicate WorkerRead(k: Lane) {
    match k.worker
    case AtParams(t) => t == k.task
    case AtFirst(t, p) => t == k.task && p == k.params
    case AtSecond(t, p, _) => t == k.task && p == k.params
    case AtCall(t, p, _) => t == k.task && p == k.params
    case _ => true
  }

  /** Every posted job but one in flight has been executed, in order, and the result is the value
      of the last one. */
  predicate History(tasks: Tasks, k: Lane) {
    && k.posted == k.executed + (if InFlight(k) then [Job(k.task, k.params)] else [])
    && |k.sent| == |k.posted| && |k.received| == |k.executed|
    && k.result == ResultOf(tasks, k.executed, k.received)
  }

  function ResultOf(tasks: Tasks, jobs: seq<Job>, args: seq<Args>): int
    requires |jobs| == |args|
  {
    if jobs == [] then RESULT_INVALID
    else tasks(jobs[|jobs| - 1].task, args[|jobs| - 1].x, args[|jobs| - 1].y)
  }

  /** How far core 0 is with the entry it holds. */
  predicate MainWrote(s: State) {
    && (s.todo == [] ==> s.phase == 0)
    && (s.todo != [] ==>
          match s.todo[0]
          case SetParam(_, _) => s.phase == 0
          case Wait(q) => s.phase <= 1
          case Post(q, task, params) =>
            && s.phase <= 3
            && (q < |s.lanes| && s.phase >= 2 ==> s.lanes[q].task == task)
            && (q < |s.lanes| && s.phase >= 3 ==> s.lanes[q].params == params))
  }

  ghost predicate LaneOk(tasks: Tasks, s: State, q: nat) {
    && q < |s.lanes|
    && Baton(s, q)
    && WorkerRead(s.lanes[q])
    && History(tasks, s.lanes[q])
    && (InFlight(s.lanes[q]) ==> s.lanes[q].params + 1 < |s.memory|)
  }

  ghost predicate Inv(tasks: Tasks, s: State) {
    Fits(s) && MainWrote(s) && forall q :: 0 <= q < |s.lanes| ==> LaneOk(tasks, s, q)
  }

  lemma MainKeepsInv(tasks: Tasks, s: State)
    requires Inv(tasks, s) && Enabled(s, Main)
    ensures Inv(tasks, MainStep(s))
  {
    var s' := MainStep(s);
    if !s.todo[0].SetParam? { assert LaneOk(tasks, s, s.todo[0].queue); }
    assert Fits(s') by {
      if s'.todo != s.todo { assert forall i :: 0 <= i < |s'.todo| ==> s'.todo[i] == s.todo[i + 1]; }
    }
    forall q | 0 <= q < |s'.lanes| ensures LaneOk(tasks, s', q) {
      assert LaneOk(tasks, s, q);
    }
  }

  lemma WorkKeepsInv(tasks: Tasks, s: State, q: nat)
    requires Inv(tasks, s) && Enabled(s, Work(q))
    ensures Inv(tasks, Apply(tasks, s, Work(q)))
  {
    var s' := Apply(tasks, s, Work(q));
    assert LaneOk(tasks, s, q);
    forall p | 0 <= p < |s'.lanes| ensures LaneOk(tasks, s', p) {
      assert LaneOk(tasks, s, p);
    }
  }

  lemma {:induction false} RunKeepsInv(tasks: Tasks, s: State, run: seq<Step>)
    requires Inv(tasks, s) && IsRun(tasks, s, run)
    ensures Inv(tasks, Final(tasks, s, run)) && |Final(tasks, s, run).lanes| == |s.lanes|
    decreases |run|
  {
    if run != [] {
      match run[0]
      case Main => MainKeepsInv(tasks, s); RunKeepsInv(tasks, MainStep(s), run[1..]);
      case Work(q) => WorkKeepsInv(tasks, s, q); RunKeepsInv(tasks, Apply(tasks, s, run[0]), run[1..]);
    }
  }

  lemma InitialInv(tasks: Tasks, s: State)
    requires Initial(s)
    ensures Inv(tasks, s)
  {
    forall q | 0 <= q < |s.lanes| ensures LaneOk(tasks, s, q) {
      assert s.lanes[q] == CreateWorkQueueEntry(s.lanes[q].task, s.lanes[q].params);
    }
  }

  /** In every interleaving, whatever core 0 posts: each queue's jobs have been executed once
      each and in posting order, all but at most the last; and one party holds the baton. */
  lemma ExactlyOnceInOrder(tasks: Tasks, s: State, run: seq<Step>, q: nat)
    requires Initial(s) && IsRun(tasks, s, run) && q < |s.lanes|
    ensures var s' := Final(tasks, s, run);
            |s'.lanes| == |s.lanes| && Baton(s', q)
    ensures var k := Final(tasks, s, run).lanes[q];
            k.executed <= k.posted && |k.posted| <= |k.executed| + 1
  {
    InitialInv(tasks, s);
    RunKeepsInv(tasks, s, run);
    assert LaneOk(tasks, Final(tasks, s, run), q);
  }

  /** The step puts a semaphore. */
  predicate Puts(s: State, e: Step) {
    Enabled(s, e) &&
    match e
    case Main => (s.todo[0].Post? && s.phase == 3) || (s.todo[0].Wait? && s.phase == 1)
    case Work(q) => s.lanes[q].worker == AtPut
  }

  /** The step reads or writes next_task, params or result. */
  predicate Touches(s: State, e: Step, q: nat) {
    Enabled(s, e) &&
    match e
    case Main => s.todo[0].Post? && s.todo[0].queue == q && 1 <= s.phase <= 2
    case Work(p) => p == q && (s.lanes[q].worker == AtTask || s.lanes[q].worker.AtParams? || s.lanes[q].worker.AtCall?)
  }

  /** No put finds its semaphore free, so no signal is lost; and the two sides of a queue are
      never both about to access its entry. */
  lemma NoSignalLostNoRace(tasks: Tasks, s: State, run: seq<Step>)
    requires Initial(s) && IsRun(tasks, s, run)
    ensures var s' := Final(tasks, s, run);
            Puts(s', Main) ==>
              var q := s'.todo[0].queue;
              if s'.todo[0].Post? then s'.lanes[q].subTaken else s'.lanes[q].compTaken
    ensures var s' := Final(tasks, s, run);
            forall q: nat :: Puts(s', Work(q)) ==> s'.lanes[q].compTaken
    ensures var s' := Final(tasks, s, run);
            forall q: nat :: Touches(s', Main, q) ==> !Touches(s', Work(q), q)
  {
    InitialInv(tasks, s);
    RunKeepsInv(tasks, s, run);
    var s' := Final(tasks, s, run);
    forall q: nat
      ensures Puts(s', Work(q)) ==> s'.lanes[q].compTaken
      ensures Touches(s', Main, q) ==> !Touches(s', Work(q), q)
    {
      if q < |s'.lanes| { assert LaneOk(tasks, s', q); }
    }
    if Puts(s', Main) {
      assert LaneOk(tasks, s', s'.todo[0].queue);
    }
  }

  /** When wait_work_done is about to return, every job posted to the queue has finished and
      `result` is the value of the last one. */
  lemma WaitMeansDone(tasks: Tasks, s: State, run: seq<Step>)
    requires Initial(s) && IsRun(tasks, s, run)
    ensures var s' := Final(tasks, s, run);
            Puts(s', Main) && s'.todo[0].Wait? ==>
              var k := s'.lanes[s'.todo[0].queue];
              k.executed == k.posted && |k.received| == |k.executed|
              && k.result == ResultOf(tasks, k.executed, k.received)
  {
    InitialInv(tasks, s);
    RunKeepsInv(tasks, s, run);
    var s' := Final(tasks, s, run);
    if Puts(s', Main) {
      assert LaneOk(tasks, s', s'.todo[0].queue);
    }
  }

  // ----- progress

  /** Steps a worker still has to make for the job posted to it. */
  function WorkLeft(k: Lane): nat {
    if !k.subTaken then 7 else
    match k.worker
    case AtTake => 0
    case AtTask => 6
    case AtParams(_) => 5
    case AtFirst(_, _) => 4
    case AtSecond(_, _, _) => 3
    case AtCall(_, _, _) => 2
    case AtPut => 1
  }

  function SumLeft(lanes: seq<Lane>): nat {
    if lanes == [] then 0 else WorkLeft(lanes[0]) + SumLeft(lanes[1..])
  }

  /** Steps an operation takes, with those of the job it posts. */
  function OpCost(op: Op): nat {
    match op case SetParam(_, _) => 1 case Post(_, _, _) => 11 case Wait(_) => 2
  }

  function TodoCost(todo: seq<Op>): nat {
    if todo == [] then 0 else OpCost(todo[0]) + TodoCost(todo[1..])
  }

  function Measure(s: State): int {
    TodoCost(s.todo) - s.phase + SumLeft(s.lanes)
  }

  lemma {:induction false} SumLeftUpdate(lanes: seq<Lane>, q: nat, k: Lane)
    requires q < |lanes|
    ensures SumLeft(lanes[q := k]) == SumLeft(lanes) - WorkLeft(lanes[q]) + WorkLeft(k)
  {
    var l := lanes[q := k];
    if q == 0 {
      assert l[1..] == lanes[1..];
    } else {
      assert l[1..] == lanes[1..][q - 1 := k];
      SumLeftUpdate(lanes[1..], q - 1, k);
    }
  }

  /** Every step uses up exactly one of the steps left. */
  lemma StepCosts(tasks: Tasks, s: State, e: Step)
    requires Inv(tasks, s) && Enabled(s, e)
    ensures Measure(Apply(tasks, s, e)) == Measure(s) - 1
  {
    var s' := Apply(tasks, s, e);
    match e
    case Work(q) =>
      assert LaneOk(tasks, s, q);
      SumLeftUpdate(s.lanes, q, s'.lanes[q]);
    case Main =>
      if !s.todo[0].SetParam? {
        var q := s.todo[0].queue;
        assert LaneOk(tasks, s, q);
        SumLeftUpdate(s.lanes, q, s'.lanes[q]);
      }
  }

  /** Nothing is left to do: core 0 is done and every worker waits for a submission. */
  predicate Idle(s: State) {
    s.todo == [] && forall q :: 0 <= q < |s.lanes| ==> s.lanes[q].subTaken && s.lanes[q].worker == AtTake
  }

  lemma {:induction false} SomeWorkLeft(lanes: seq<Lane>)
    ensures SumLeft(lanes) == 0 <==> forall q :: 0 <= q < |lanes| ==> WorkLeft(lanes[q]) == 0
  {
    if lanes != [] {
      SomeWorkLeft(lanes[1..]);
      assert forall q :: 1 <= q < |lanes| ==> lanes[q] == lanes[1..][q - 1];
      assert forall q :: 0 <= q < |lanes| - 1 ==> lanes[1..][q] == lanes[q + 1];
    }
  }

  /** No deadlock: as long as anything is left to do, some core can take a step. */
  lemma SomeStepEnabled(tasks: Tasks, s: State)
    requires Inv(tasks, s) && !Idle(s)
    ensures exists e :: Enabled(s, e)
  {
    if s.todo != [] && !Enabled(s, Main) {
      var q := s.todo[0].queue;
      assert LaneOk(tasks, s, q);
      assert Enabled(s, Work(q));
    } else if s.todo != [] {
      assert Enabled(s, Main);
    } else {
      var q :| 0 <= q < |s.lanes| && !(s.lanes[q].subTaken && s.lanes[q].worker == AtTake);
      assert LaneOk(tasks, s, q);
      assert Enabled(s, Work(q));
    }
  }

  lemma IdleIsZero(tasks: Tasks, s: State)
    requires Inv(tasks, s)
    ensures Measure(s) >= 0 && (Measure(s) == 0 <==> Idle(s))
  {
    SomeWorkLeft(s.lanes);
    if s.todo == [] {
      forall q: nat | q < |s.lanes|
        ensures WorkLeft(s.lanes[q]) == 0 <==> s.lanes[q].subTaken && s.lanes[q].worker == AtTake
      {
        assert LaneOk(tasks, s, q);
      }
    }
  }

  /** Every interleaving makes progress: a run of n steps leaves exactly n fewer to make, it
      cannot get stuck before everything is done, and it cannot go on after. */
  lemma {:induction false} RunsTerminate(tasks: Tasks, s: State, run: seq<Step>)
    requires Inv(tasks, s) && IsRun(tasks, s, run)
    ensures |run| + Measure(Final(tasks, s, run)) == Measure(s)
    ensures Measure(Final(tasks, s, run)) >= 0
    ensures (exists e :: Enabled(Final(tasks, s, run), e)) <==> !Idle(Final(tasks, s, run))
    ensures Measure(Final(tasks, s, run)) == 0 <==> Idle(Final(tasks, s, run))
    decreases |run|
  {
    if run == [] {
      IdleIsZero(tasks, s);
      if !Idle(s) { SomeStepEnabled(tasks, s); }
    } else {
      StepCosts(tasks, s, run[0]);
      match run[0]
      case Main => MainKeepsInv(tasks, s); RunsTerminate(tasks, MainStep(s), run[1..]);
      case Work(q) => WorkKeepsInv(tasks, s, q); RunsTerminate(tasks, Apply(tasks, s, run[0]), run[1..]);
    }
  }

  // ----- waiting for everything

  /** A queue that core 0 has not posted to since it last waited for it is at rest. */
  predicate Settled(s: State, q: nat) {
    q < |s.lanes| && (q !in s.busy ==> s.lanes[q].subTaken && s.lanes[q].worker == AtTake)
  }

  ghost predicate AllSettled(tasks: Tasks, s: State) {
    Inv(tasks, s) && forall q :: 0 <= q < |s.lanes| ==> Settled(s, q)
  }

  lemma MainKeepsSettled(tasks: Tasks, s: State, q: nat)
    requires AllSettled(tasks, s) && Enabled(s, Main) && q < |s.lanes|
    ensures Settled(MainStep(s), q)
  {
    assert Settled(s, q) && LaneOk(tasks, s, q);
  }

  lemma StepKeepsSettled(tasks: Tasks, s: State, e: Step)
    requires AllSettled(tasks, s) && Enabled(s, e)
    ensures AllSettled(tasks, Apply(tasks, s, e))
  {
    var s' := Apply(tasks, s, e);
    match e {
      case Main => MainKeepsInv(tasks, s);
      case Work(p) => WorkKeepsInv(tasks, s, p);
    }
    forall q | 0 <= q < |s'.lanes| ensures Settled(s', q) {
      assert Settled(s, q);
      if e == Main { MainKeepsSettled(tasks, s, q); }
    }
  }

  /** The queues posted to and not waited for when the operations have been done. */
  function BusyAfter(todo: seq<Op>, busy: map<nat, nat>): map<nat, nat> {
    if todo == [] then busy else
    match todo[0]
    case SetParam(_, _) => BusyAfter(todo[1..], busy)
    case Post(q, _, p) => BusyAfter(todo[1..], busy[q := p])
    case Wait(q) => BusyAfter(todo[1..], busy - {q})
  }

  lemma MainKeepsBusyAfter(s: State)
    requires Enabled(s, Main) && MainWrote(s)
    ensures var s' := MainStep(s); BusyAfter(s'.todo, s'.busy) == BusyAfter(s.todo, s.busy)
  {
  }

  lemma {:induction false} RunKeepsSettled(tasks: Tasks, s: State, run: seq<Step>)
    requires AllSettled(tasks, s) && IsRun(tasks, s, run)
    ensures AllSettled(tasks, Final(tasks, s, run))
    ensures var s' := Final(tasks, s, run); BusyAfter(s'.todo, s'.busy) == BusyAfter(s.todo, s.busy)
    decreases |run|
  {
    if run != [] {
      StepKeepsSettled(tasks, s, run[0]);
      if run[0] == Main { MainKeepsBusyAfter(s); }
      RunKeepsSettled(tasks, Apply(tasks, s, run[0]), run[1..]);
    }
  }

  /** A program that waits for every queue it has posted to is not over before the last job is: when
      core 0 is done, in whatever interleaving, so are all the workers. */
  lemma DoneMeansIdle(tasks: Tasks, s: State, run: seq<Step>)
    requires Initial(s) && IsRun(tasks, s, run) && BusyAfter(s.todo, map[]) == map[]
    ensures Final(tasks, s, run).todo == [] <==> Idle(Final(tasks, s, run))
  {
    InitialInv(tasks, s);
    forall q | 0 <= q < |s.lanes| ensures Settled(s, q) {
      assert s.lanes[q] == CreateWorkQueueEntry(s.lanes[q].task, s.lanes[q].params);
    }
    RunKeepsSettled(tasks, s, run);
    var s' := Final(tasks, s, run);
    if s'.todo == [] {
      forall q | 0 <= q < |s'.lanes| ensures s'.lanes[q].subTaken && s'.lanes[q].worker == AtTake {
        assert Settled(s', q);
      }
    }
  }

  // ----- parameters

  /** Core 0 never writes a parameter word of a job that may still be running: between the post
      of a job and a write to its words there is a wait for, or another post to, that queue. */
  predicate Stable(todo: seq<Op>, busy: map<nat, nat>) {
    todo == [] ||
    match todo[0]
    case SetParam(slot, _) =>
      (forall q :: q in busy ==> slot != busy[q] && slot != busy[q] + 1) && Stable(todo[1..], busy)
    case Post(q, _, p) => Stable(todo[1..], busy[q := p])
    case Wait(q) => Stable(todo[1..], busy - {q})
  }

  /** The words the worker has read, and those it has still to read, are the words posted. */
  predicate ArgsOk(s: State, q: nat) {
    q < |s.lanes| &&
    var k := s.lanes[q];
    && k.received <= k.sent
    && (InFlight(k) ==>
          && q in s.busy && s.busy[q] == k.params && k.params + 1 < |s.memory|
          && k.sent == k.received + [Args(s.memory[k.params], s.memory[k.params + 1])])
    && (k.worker.AtSecond? && k.params < |s.memory| ==> k.worker.x == s.memory[k.params])
    && (k.worker.AtCall? && k.params + 1 < |s.memory| ==>
          k.worker.args == Args(s.memory[k.params], s.memory[k.params + 1]))
  }

  ghost predicate StableInv(tasks: Tasks, s: State) {
    Inv(tasks, s) && Stable(s.todo, s.busy) && forall q :: 0 <= q < |s.lanes| ==> ArgsOk(s, q)
  }

  lemma MainKeepsStable(tasks: Tasks, s: State)
    requires StableInv(tasks, s) && Enabled(s, Main)
    ensures StableInv(tasks, MainStep(s))
  {
    MainKeepsInv(tasks, s);
    var s' := MainStep(s);
    forall q | 0 <= q < |s'.lanes| ensures ArgsOk(s', q) {
      MainKeepsArgs(tasks, s, q);
    }
  }

  lemma MainKeepsArgs(tasks: Tasks, s: State, q: nat)
    requires StableInv(tasks, s) && Enabled(s, Main) && q < |s.lanes|
    ensures ArgsOk(MainStep(s), q)
  {
    assert ArgsOk(s, q) && LaneOk(tasks, s, q);
    var s' := MainStep(s);
    if s.todo[0].SetParam? {
      assert InFlight(s.lanes[q]) ==> s.todo[0].slot != s.lanes[q].params && s.todo[0].slot != s.lanes[q].params + 1;
    } else if s.todo[0].queue != q {
      assert s'.lanes[q] == s.lanes[q] && s'.memory == s.memory;
    } else {
      assert !InFlight(s.lanes[q]);
      assert s.lanes[q].received == s.lanes[q].sent;
    }
  }

  lemma WorkKeepsStable(tasks: Tasks, s: State, q: nat)
    requires StableInv(tasks, s) && Enabled(s, Work(q))
    ensures StableInv(tasks, Apply(tasks, s, Work(q)))
  {
    WorkKeepsInv(tasks, s, q);
    var s' := Apply(tasks, s, Work(q));
    forall p | 0 <= p < |s'.lanes| ensures ArgsOk(s', p) {
      assert ArgsOk(s, p) && LaneOk(tasks, s, p) && LaneOk(tasks, s', p);
    }
  }

  /** The jobs a program posts to a queue, and the words their parameters hold when it does. */
  function PostsOf(todo: seq<Op>, q: nat): seq<Job> {
    if todo == [] then [] else
    match todo[0]
    case Post(p, task, params) => if p == q then [Job(task, params)] + PostsOf(todo[1..], q) else PostsOf(todo[1..], q)
    case _ => PostsOf(todo[1..], q)
  }

  predicate WordsFit(op: Op, words: nat) {
    match op
    case SetParam(slot, _) => slot < words
    case Post(_, _, p) => p + 1 < words
    case Wait(_) => true
  }

  function SentBy(todo: seq<Op>, memory: seq<nat>, q: nat): seq<Args>
    requires forall i :: 0 <= i < |todo| ==> WordsFit(todo[i], |memory|)
  {
    if todo == [] then [] else
    assert WordsFit(todo[0], |memory|);
    match todo[0]
    case SetParam(slot, v) => SentBy(todo[1..], memory[slot := v], q)
    case Post(p, _, a) =>
      if p == q then [Args(memory[a], memory[a + 1])] + SentBy(todo[1..], memory, q) else SentBy(todo[1..], memory, q)
    case Wait(_) => SentBy(todo[1..], memory, q)
  }

  /** Whatever happens, what has been posted and what is left to post add up to the program. */
  lemma MainKeepsTotals(s: State, q: nat)
    requires Fits(s) && Enabled(s, Main) && MainWrote(s) && q < |s.lanes|
    ensures forall i :: 0 <= i < |s.todo| ==> WordsFit(s.todo[i], |s.memory|)
    ensures var s' := MainStep(s);
            && Fits(s') && (forall i :: 0 <= i < |s'.todo| ==> WordsFit(s'.todo[i], |s'.memory|))
            && |s'.lanes| == |s.lanes|
            && s'.lanes[q].posted + PostsOf(s'.todo, q) == s.lanes[q].posted + PostsOf(s.todo, q)
            && s'.lanes[q].sent + SentBy(s'.todo, s'.memory, q) == s.lanes[q].sent + SentBy(s.todo, s.memory, q)
  {
    var s' := MainStep(s);
    assert forall i :: 0 <= i < |s.todo| - 1 ==> s.todo[1..][i] == s.todo[i + 1];
    if s.todo[0].Post? && s.phase == 3 && s.todo[0].queue == q {
      assert PostsOf(s.todo, q) == [Job(s.todo[0].task, s.todo[0].params)] + PostsOf(s.todo[1..], q);
    }
  }

  lemma {:induction false} RunKeepsTotals(tasks: Tasks, s: State, run: seq<Step>, q: nat)
    requires StableInv(tasks, s) && IsRun(tasks, s, run) && q < |s.lanes|
    ensures forall i :: 0 <= i < |s.todo| ==> WordsFit(s.todo[i], |s.memory|)
    ensures var s' := Final(tasks, s, run);
            && StableInv(tasks, s') && (forall i :: 0 <= i < |s'.todo| ==> WordsFit(s'.todo[i], |s'.memory|))
            && |s'.lanes| == |s.lanes|
            && s'.lanes[q].posted + PostsOf(s'.todo, q) == s.lanes[q].posted + PostsOf(s.todo, q)
            && s'.lanes[q].sent + SentBy(s'.todo, s'.memory, q) == s.lanes[q].sent + SentBy(s.todo, s.memory, q)
    decreases |run|
  {
    if run != [] {
      match run[0]
      case Main =>
        MainKeepsStable(tasks, s);
        MainKeepsTotals(s, q);
        RunKeepsTotals(tasks, MainStep(s), run[1..], q);
      case Work(p) =>
        WorkKeepsStable(tasks, s, p);
        RunKeepsTotals(tasks, Apply(tasks, s, run[0]), run[1..], q);
    }
  }

  /** When a stable program has run to its end, in whatever interleaving, each worker has
      executed exactly the jobs posted to it, in order, on exactly the words their parameters
      held when they were posted. */
  lemma EveryJobSeesItsParameters(tasks: Tasks, s: State, run: seq<Step>, q: nat)
    requires Initial(s) && Stable(s.todo, map[]) && IsRun(tasks, s, run) && q < |s.lanes|
    requires Idle(Final(tasks, s, run))
    ensures forall i :: 0 <= i < |s.todo| ==> WordsFit(s.todo[i], |s.memory|)
    ensures var s' := Final(tasks, s, run);
            && |s'.lanes| == |s.lanes|
            && s'.lanes[q].executed == PostsOf(s.todo, q)
            && s'.lanes[q].received == SentBy(s.todo, s.memory, q)
  {
    InitialInv(tasks, s);
    forall p | 0 <= p < |s.lanes| ensures ArgsOk(s, p) {}
    RunKeepsTotals(tasks, s, run, q);
    var k := Final(tasks, s, run).lanes[q];
    assert LaneOk(tasks, Final(tasks, s, run), q) && ArgsOk(Final(tasks, s, run), q);
    assert s.lanes[q].posted == [] && s.lanes[q].sent == [];
    assert k.posted + [] == k.posted && k.sent + [] == k.sent;
    assert [] + PostsOf(s.todo, q) == PostsOf(s.todo, q);
    assert [] + SentBy(s.todo, s.memory, q) == SentBy(s.todo, s.memory, q);
  }

  /** In a stable program core 0 never writes a word that a worker may still read. */
  lemma NoParameterRace(tasks: Tasks, s: State, run: seq<Step>, q: nat)
    requires Initial(s) && Stable(s.todo, map[]) && IsRun(tasks, s, run) && q < |s.lanes|
    ensures var s' := Final(tasks, s, run);
            |s'.lanes| == |s.lanes| && (
            var k := s'.lanes[q];
            Enabled(s', Main) && s'.todo[0].SetParam? && InFlight(k) ==>
              s'.todo[0].slot != k.params && s'.todo[0].slot != k.params + 1)
  {
    InitialInv(tasks, s);
    forall p | 0 <= p < |s.lanes| ensures ArgsOk(s, p) {}
    RunKeepsTotals(tasks, s, run, q);
    assert ArgsOk(Final(tasks, s, run), q);
  }
}
