/** The code of work_queue.c on top of the instructions of arm.S: a core whose next access is a take
    or a put executes the semaphore routine instruction by instruction, interleaved with everybody
    else, and loses its reservation at any time.  Nothing but the runs of the queue model comes of it. */
module QueueCode {
  import opened Wrappers
  import opened Primes
  import S = Semaphore
  import Q = WorkQueue
  import H = Handoff
  import P = PrimeTest
  import opened Word

  datatype State = State(queues: Q.State, machine: S.State)

  /** A core calls the routine its next access is, executes one of its instructions, loses its
      reservation, or makes an access that is no take or put. */
  datatype Step = Call(core: nat) | Exec(core: nat) | Lose(core: nat) | Access(core: nat)

  /** What core c does next in the queues: core 0 posts and waits, the others work. */
  function StepOf(c: nat): (e: Q.Step)
    ensures H.CoreOf(e) == c
  {
    if c == 0 then Q.Main else Q.Work(c - 1)
  }

  predicate Enabled(s: State, e: Step) {
    e.core < |s.machine.cores| &&
    match e
    case Call(c) =>
      && H.IsNext(s.queues, StepOf(c)) && H.RoutineOf(s.queues, StepOf(c)).Some?
      && var (op, a) := H.RoutineOf(s.queues, StepOf(c)).value; S.Enabled(s.machine, S.Call(c, op, a))
    case Exec(c) => S.Enabled(s.machine, S.Exec(c))
    case Lose(c) => S.Enabled(s.machine, S.Lose(c))
    case Access(c) =>
      && s.machine.cores[c].pc == S.Idle
      && Q.Enabled(s.queues, StepOf(c)) && H.RoutineOf(s.queues, StepOf(c)) == None
  }

  function InstructionOf(s: State, e: Step): (r: Option<S.Step>)
    requires Enabled(s, e)
    ensures r.Some? ==> S.Enabled(s.machine, r.value)
  {
    match e
    case Call(c) =>
      var (op, a) := H.RoutineOf(s.queues, StepOf(c)).value;
      Some(S.Call(c, op, a))
    case Exec(c) => Some(S.Exec(c))
    case Lose(c) => Some(S.Lose(c))
    case Access(_) => None
  }

  /** The step of the queues that happens: an access, or the exclusive store that succeeds. */
  function QueueStepOf(s: State, e: Step): Option<Q.Step>
    requires Enabled(s, e)
  {
    match e
    case Access(c) => Some(StepOf(c))
    case Exec(c) => if S.ActOf(s.machine, S.Exec(c)) == Some(S.Effect) then Some(StepOf(c)) else None
    case _ => None
  }

  /** A step the queue model does not allow would change nothing; there is none, by `StepIsAllowed`. */
  function Advance(tasks: Q.Tasks, q: Q.State, x: Option<Q.Step>): Q.State {
    if x.Some? && Q.Enabled(q, x.value) then Q.Apply(tasks, q, x.value) else q
  }

  function Apply(tasks: Q.Tasks, s: State, e: Step): State
    requires Enabled(s, e)
  {
    State(Advance(tasks, s.queues, QueueStepOf(s, e)),
          match InstructionOf(s, e) case Some(i) => S.Apply(s.machine, i) case None => s.machine)
  }

  predicate IsRun(tasks: Q.Tasks, s: State, run: seq<Step>)
    decreases |run|
  {
    run == [] || (Enabled(s, run[0]) && IsRun(tasks, Apply(tasks, s, run[0]), run[1..]))
  }

  function Final(tasks: Q.Tasks, s: State, run: seq<Step>): State
    requires IsRun(tasks, s, run)
    decreases |run|
  {
    if run == [] then s else Final(tasks, Apply(tasks, s, run[0]), run[1..])
  }

  /** The queue steps of a run, and its instructions. */
  function QueueRun(tasks: Q.Tasks, s: State, run: seq<Step>): seq<Q.Step>
    requires IsRun(tasks, s, run)
    decreases |run|
  {
    if run == [] then [] else
    var rest := QueueRun(tasks, Apply(tasks, s, run[0]), run[1..]);
    match QueueStepOf(s, run[0]) case Some(x) => [x] + rest case None => rest
  }

  function Instructions(tasks: Q.Tasks, s: State, run: seq<Step>): seq<S.Step>
    requires IsRun(tasks, s, run)
    decreases |run|
  {
    if run == [] then [] else
    var rest := Instructions(tasks, Apply(tasks, s, run[0]), run[1..]);
    match InstructionOf(s, run[0]) case Some(i) => [i] + rest case None => rest
  }

  /** A core that has called a routine and not had its effect yet is still to make that access. */
  predicate Pending(s: State, c: nat) {
    c < |s.machine.cores| &&
    var p := S.PhaseOf(s.machine.cores[c]);
    p.Called? ==>
      H.IsNext(s.queues, StepOf(c)) && H.RoutineOf(s.queues, StepOf(c)) == Some((p.op, p.sem))
  }

  ghost predicate Inv(s: State) {
    && S.Inv(s.machine) && |s.machine.cores| == |s.queues.lanes| + 1
    && s.machine.words == H.Words(s.queues)
    && forall c :: 0 <= c < |s.machine.cores| ==> Pending(s, c)
  }

  /** No core is in a routine, and the words are those of the queues. */
  ghost predicate Initial(s: State) {
    && Q.Initial(s.queues) && S.Shaped(s.machine) && |s.machine.cores| == |s.queues.lanes| + 1
    && s.machine.words == H.Words(s.queues)
    && forall c :: 0 <= c < |s.machine.cores| ==> s.machine.cores[c].pc == S.Idle
  }

  lemma InitialInv(s: State)
    requires Initial(s)
    ensures Inv(s)
  {
    forall c | 0 <= c < |s.machine.cores|
      ensures S.CoreOk(s.machine.words, s.machine.cores[c]) && Pending(s, c)
    {
    }
  }

  /** A step of one core does not change what another is to do next. */
  lemma OthersNext(tasks: Q.Tasks, q: Q.State, c: nat, d: nat)
    requires c != d && Q.Enabled(q, StepOf(c)) && H.IsNext(q, StepOf(d))
    ensures var q' := Q.Apply(tasks, q, StepOf(c));
            && |q'.lanes| == |q.lanes|
            && H.IsNext(q', StepOf(d)) && H.RoutineOf(q', StepOf(d)) == H.RoutineOf(q, StepOf(d))
  {
  }

  /** Every step of the queues is one the queue model allows: a store that succeeds finds the word
      as the model has it. */
  lemma StepIsAllowed(s: State, e: Step)
    requires Inv(s) && Enabled(s, e)
    ensures var x := QueueStepOf(s, e); x.Some? ==> Q.Enabled(s.queues, x.value)
  {
    if e.Exec? && QueueStepOf(s, e).Some? {
      S.StepRefines(s.machine, S.Exec(e.core));
      assert Pending(s, e.core);
      H.TakesWait(s.queues, StepOf(e.core));
    }
  }

  /** What a step makes of the words: the instructions change them as the queue step does. */
  lemma StepKeepsWords(tasks: Q.Tasks, s: State, e: Step)
    requires Inv(s) && Enabled(s, e)
    ensures var s' := Apply(tasks, s, e);
            && s'.machine.words == H.Words(s'.queues)
            && |s'.machine.cores| == |s.machine.cores| && |s'.queues.lanes| == |s.queues.lanes|
  {
    StepIsAllowed(s, e);
    var x, i := QueueStepOf(s, e), InstructionOf(s, e);
    if i.Some? { S.StepRefines(s.machine, i.value); }
    if x.Some? {
      H.StepCallsRoutine(tasks, s.queues, x.value);
      assert Pending(s, e.core);
    }
  }

  lemma StepKeepsOthers(tasks: Q.Tasks, s: State, e: Step, d: nat)
    requires Inv(s) && Enabled(s, e) && d < |s.machine.cores| && d != e.core
    ensures Pending(Apply(tasks, s, e), d)
  {
    StepIsAllowed(s, e);
    StepKeepsWords(tasks, s, e);
    assert Pending(s, d);
    var x, i := QueueStepOf(s, e), InstructionOf(s, e);
    if i.Some? { PhaseStays(s.machine, i.value, d); }
    if x.Some? && S.PhaseOf(s.machine.cores[d]).Called? { OthersNext(tasks, s.queues, e.core, d); }
  }

  lemma PhaseStays(m: S.State, i: S.Step, d: nat)
    requires S.Inv(m) && S.Enabled(m, i) && d < |m.cores| && d != i.core
    ensures |S.Apply(m, i).cores| == |m.cores| && S.PhaseOf(S.Apply(m, i).cores[d]) == S.PhaseOf(m.cores[d])
  {
    S.StepRefines(m, i);
    var t, t' := S.Abstract(m), S.Abstract(S.Apply(m, i));
    assert t.phases[d] == S.PhaseOf(m.cores[d]) && t'.phases[d] == S.PhaseOf(S.Apply(m, i).cores[d]);
  }

  lemma StepKeepsOwn(tasks: Q.Tasks, s: State, e: Step)
    requires Inv(s) && Enabled(s, e)
    ensures Pending(Apply(tasks, s, e), e.core)
  {
    StepKeepsWords(tasks, s, e);
    assert Pending(s, e.core);
    var i := InstructionOf(s, e);
    if i.Some? {
      S.StepRefines(s.machine, i.value);
      var t, t' := S.Abstract(s.machine), S.Abstract(S.Apply(s.machine, i.value));
      assert t.phases[e.core] == S.PhaseOf(s.machine.cores[e.core]);
      assert t'.phases[e.core] == S.PhaseOf(S.Apply(s.machine, i.value).cores[e.core]);
    }
  }

  lemma StepKeepsInv(tasks: Q.Tasks, s: State, e: Step)
    requires Inv(s) && Enabled(s, e)
    ensures Inv(Apply(tasks, s, e))
  {
    var s', i := Apply(tasks, s, e), InstructionOf(s, e);
    if i.Some? { S.StepKeepsInv(s.machine, i.value); }
    StepKeepsWords(tasks, s, e);
    StepKeepsOwn(tasks, s, e);
    forall d | 0 <= d < |s'.machine.cores| ensures Pending(s', d) {
      if d != e.core { StepKeepsOthers(tasks, s, e, d); }
    }
  }

  /** Whatever the interleaving of instructions and accesses, what happens to the queues is a run of
      the queue model, and what the cores execute is a run of the semaphore routines. */
  lemma {:induction false} RunStaysInQueues(tasks: Q.Tasks, s: State, run: seq<Step>)
    requires Inv(s) && IsRun(tasks, s, run)
    ensures Inv(Final(tasks, s, run))
    ensures var steps := QueueRun(tasks, s, run);
            Q.IsRun(tasks, s.queues, steps) && Q.Final(tasks, s.queues, steps) == Final(tasks, s, run).queues
    ensures var code := Instructions(tasks, s, run);
            S.IsRun(s.machine, code) && S.Final(s.machine, code) == Final(tasks, s, run).machine
    decreases |run|
  {
    if run != [] {
      StepIsAllowed(s, run[0]);
      StepKeepsInv(tasks, s, run[0]);
      RunStaysInQueues(tasks, Apply(tasks, s, run[0]), run[1..]);
    }
  }

  /** The machine does not get stuck: while the queues have anything left to do, some core can make
      an access or execute an instruction. */
  lemma SomethingMoves(tasks: Q.Tasks, s: State)
    requires Inv(s) && Q.Inv(tasks, s.queues) && !Q.Idle(s.queues)
    ensures exists e :: Enabled(s, e) && !e.Lose?
  {
    Q.SomeStepEnabled(tasks, s.queues);
    var x :| Q.Enabled(s.queues, x);
    var c := H.CoreOf(x);
    assert StepOf(c) == x && c < |s.machine.cores|;
    H.TakesWait(s.queues, x);
    if s.machine.cores[c].pc == S.Idle {
      if H.RoutineOf(s.queues, x) == None {
        assert Enabled(s, Access(c));
      } else {
        assert Enabled(s, Call(c));
      }
    } else {
      assert Pending(s, c) && S.CoreOk(s.machine.words, s.machine.cores[c]);
      assert Enabled(s, Exec(c));
    }
  }

  // ----- everything can be finished

  /** No reservation is lost but to the stores of other cores. */
  predicate Lossless(run: seq<Step>) {
    forall i :: 0 <= i < |run| ==> !run[i].Lose?
  }

  /** Core c is inside a semaphore routine that can have its effect: the queues allow its access. */
  predicate CanReturn(s: State, c: nat) {
    && S.CanReturn(s.machine, c)
    && (S.PhaseOf(s.machine.cores[c]).Called? ==> Q.Enabled(s.queues, StepOf(c)))
  }

  /** The routine of core c is over, and its access has been made. */
  ghost predicate Returned(tasks: Q.Tasks, s: State, c: nat, s': State)
    requires c < |s.machine.cores|
  {
    && c < |s'.machine.cores| && s'.machine.cores[c].pc == S.Idle
    && s'.queues == (if S.PhaseOf(s.machine.cores[c]).Called? then Advance(tasks, s.queues, Some(StepOf(c)))
                     else s.queues)
  }

  lemma ReturnStep(tasks: Q.Tasks, s: State, c: nat)
    requires Inv(s) && CanReturn(s, c)
    ensures Enabled(s, Exec(c))
    ensures var s' := Apply(tasks, s, Exec(c));
            && |s'.machine.cores| == |s.machine.cores|
            && S.Left(s'.machine.cores[c]) + 1 == S.Left(s.machine.cores[c])
            && (S.Left(s'.machine.cores[c]) > 0 ==> CanReturn(s', c))
            && (S.Left(s'.machine.cores[c]) == 0 ==> Returned(tasks, s, c, s'))
  {
    S.StepTowardsReturn(s.machine, c);
    S.StepIsCloser(s.machine, c);
  }

  lemma ReturnedAfter(tasks: Q.Tasks, s: State, c: nat, s': State)
    requires Inv(s) && CanReturn(s, c) && Enabled(s, Exec(c)) && CanReturn(Apply(tasks, s, Exec(c)), c)
    requires Returned(tasks, Apply(tasks, s, Exec(c)), c, s')
    ensures Returned(tasks, s, c, s')
  {
    S.StepIsCloser(s.machine, c);
  }

  /** Some run in which no reservation is lost at random finishes everything. */
  ghost predicate Finishable(tasks: Q.Tasks, s: State) {
    exists run :: IsRun(tasks, s, run) && Lossless(run) && Q.Idle(Final(tasks, s, run).queues)
  }

  lemma {:induction false} StepBack(tasks: Q.Tasks, s: State, e: Step)
    requires Enabled(s, e) && !e.Lose? && Finishable(tasks, Apply(tasks, s, e))
    ensures Finishable(tasks, s)
  {
    var s' := Apply(tasks, s, e);
    var rest :| IsRun(tasks, s', rest) && Lossless(rest) && Q.Idle(Final(tasks, s', rest).queues);
    RunCons(tasks, s, e, rest);
    assert Lossless([e] + rest);
  }

  lemma RunCons(tasks: Q.Tasks, s: State, e: Step, rest: seq<Step>)
    requires Enabled(s, e) && IsRun(tasks, Apply(tasks, s, e), rest)
    ensures IsRun(tasks, s, [e] + rest) && Final(tasks, s, [e] + rest) == Final(tasks, Apply(tasks, s, e), rest)
  {
    assert ([e] + rest)[1..] == rest;
  }

  /** Behind what a core is inside of: its access made and the routine over.  Everything can be finished
      if it can be from there, since the core gets there on its own. */
  lemma {:induction false} FinishRoutine(tasks: Q.Tasks, s: State, c: nat) returns (s': State)
    requires Inv(s) && CanReturn(s, c)
    ensures Inv(s') && Returned(tasks, s, c, s') && (Finishable(tasks, s') ==> Finishable(tasks, s))
    decreases S.Left(s.machine.cores[c])
  {
    ReturnStep(tasks, s, c);
    StepKeepsInv(tasks, s, Exec(c));
    s' := Apply(tasks, s, Exec(c));
    if S.Left(s'.machine.cores[c]) > 0 {
      s' := FinishRoutine(tasks, s', c);
      ReturnedAfter(tasks, s, c, s');
    }
    if Finishable(tasks, s') { StepBack(tasks, s, Exec(c)); }
  }

  /** A core that is in no routine can make its next access. */
  lemma {:induction false} AccessFromIdle(tasks: Q.Tasks, s: State, c: nat) returns (s': State)
    requires Inv(s) && c < |s.machine.cores| && s.machine.cores[c].pc == S.Idle && Q.Enabled(s.queues, StepOf(c))
    ensures Inv(s') && s'.queues == Q.Apply(tasks, s.queues, StepOf(c))
    ensures Finishable(tasks, s') ==> Finishable(tasks, s)
  {
    H.TakesWait(s.queues, StepOf(c));
    var e := if H.RoutineOf(s.queues, StepOf(c)) == None then Access(c) else Call(c);
    assert Enabled(s, e);
    StepKeepsInv(tasks, s, e);
    s' := Apply(tasks, s, e);
    if e.Call? {
      s' := FinishRoutine(tasks, s', c);
    }
    if Finishable(tasks, s') { StepBack(tasks, s, e); }
  }

  /** So can a core anywhere inside a routine. */
  lemma {:induction false} NextAccess(tasks: Q.Tasks, s: State, c: nat) returns (s': State)
    requires Inv(s) && c < |s.machine.cores| && Q.Enabled(s.queues, StepOf(c))
    ensures Inv(s') && s'.queues == Q.Apply(tasks, s.queues, StepOf(c))
    ensures Finishable(tasks, s') ==> Finishable(tasks, s)
  {
    if s.machine.cores[c].pc == S.Idle {
      s' := AccessFromIdle(tasks, s, c);
    } else {
      NextCanReturn(s, c);
      s' := FinishRoutine(tasks, s, c);
      if !S.PhaseOf(s.machine.cores[c]).Called? {
        s' := AccessFromIdle(tasks, s', c);
      }
    }
  }

  lemma NextCanReturn(s: State, c: nat)
    requires Inv(s) && c < |s.machine.cores| && Q.Enabled(s.queues, StepOf(c)) && s.machine.cores[c].pc != S.Idle
    ensures CanReturn(s, c)
  {
    assert Pending(s, c) && S.CoreOk(s.machine.words, s.machine.cores[c]);
    H.TakesWait(s.queues, StepOf(c));
  }

  /** Whatever has happened so far, whichever reservations were lost and wherever the cores are inside
      the routines: some way of going on finishes everything, and no further loss is needed for it. */
  lemma {:induction false} CanFinish(tasks: Q.Tasks, s: State)
    requires Inv(s) && Q.Inv(tasks, s.queues)
    ensures Finishable(tasks, s)
    decreases Q.Measure(s.queues)
  {
    Q.IdleIsZero(tasks, s.queues);
    if Q.Idle(s.queues) {
      assert IsRun(tasks, s, []) && Lossless([]) && Q.Idle(Final(tasks, s, []).queues);
    } else {
      Q.SomeStepEnabled(tasks, s.queues);
      var x :| Q.Enabled(s.queues, x);
      var c := H.CoreOf(x);
      assert StepOf(c) == x && c < |s.machine.cores|;
      var s' := NextAccess(tasks, s, c);
      Q.StepCosts(tasks, s.queues, x);
      QueueStepKeepsInv(tasks, s.queues, x);
      CanFinish(tasks, s');
    }
  }

  lemma QueueStepKeepsInv(tasks: Q.Tasks, q: Q.State, x: Q.Step)
    requires Q.Inv(tasks, q) && Q.Enabled(q, x)
    ensures Q.Inv(tasks, Q.Apply(tasks, q, x))
  {
    match x
    case Main => Q.MainKeepsInv(tasks, q);
    case Work(i) => Q.WorkKeepsInv(tasks, q, i);
  }

  /** From the instructions of arm.S to the primes: in every interleaving of the machine, the command
      can still be finished from wherever it is, and once core 0 has done its last access all workers
      are at rest and what their calls of calculate_primes have logged adds up to the number of primes
      below the covered bound, for every bound but 2. */
  lemma PrimeCountOnMachine(tasks: Q.Tasks, counts: (nat, nat) -> nat, s: State, run: seq<Step>,
                            primes: nat, cores: nat, work: nat)
    requires 1 <= cores <= 3 && work > 0 && P.Covered(0, (primes / cores) * cores, cores, work) < WORD
    requires P.RunsCalculatePrimes(tasks, counts)
    requires Initial(s) && P.Ready(s.queues, primes, cores, work) && IsRun(tasks, s, run)
    ensures var s', n := Final(tasks, s, run), P.Covered(0, (primes / cores) * cores, cores, work);
            s'.queues.todo == [] ==>
              && Q.Idle(s'.queues) && |s'.queues.lanes| == 3
              && P.Logged(s'.queues.lanes, counts, 3) == PrimesBelow(n) + (if n == 2 then 1 else 0)
    ensures Finishable(tasks, Final(tasks, s, run))
  {
    InitialInv(s);
    RunStaysInQueues(tasks, s, run);
    var s', steps := Final(tasks, s, run), QueueRun(tasks, s, run);
    P.PrimeCountIsCorrect(tasks, counts, s.queues, steps, primes, cores, work);
    P.CommandWaitsForWorkers(tasks, s.queues, steps, primes, cores, work);
    Q.InitialInv(tasks, s.queues);
    Q.RunKeepsInv(tasks, s.queues, steps);
    CanFinish(tasks, s');
  }
}
