/** The take and put routines of arm.S, one instruction at a time, on any number of cores.

    Memory is sequentially consistent.  Each core has one exclusive monitor, which may lose
    its reservation at any time, and one event register, which is set by SEV and whenever the
    monitor loses its reservation to another core (Arm Architecture Reference Manual DDI 0487,
    sections B2.9 and D1.6). */
module Semaphore {
  import opened Wrappers

  datatype Op = Take | Put

  /** The instruction a core executes next. */
  datatype Pc =
    | Idle
    | TakeLoad | TakeBranch | TakeSet | TakeStore | TakeFence | TakeCheck | TakeWait
    | PutFence | ClearLoad | ClearSet | ClearStore | ClearFence | ClearCheck | PutSignal

  datatype Core = Core(pc: Pc, op: Op, sem: nat, x1: nat, w2: nat, reserved: Option<nat>, event: bool)

  /** `holders[a]` remembers which cores are past a take of word a with no put since. */
  datatype State = State(words: seq<nat>, cores: seq<Core>, holders: seq<set<nat>>)

  /** A core calls a routine, executes one instruction, or loses its reservation. */
  datatype Step = Call(core: nat, op: Op, sem: nat) | Exec(core: nat) | Lose(core: nat)

  predicate Shaped(s: State) {
    |s.holders| == |s.words| && forall c :: 0 <= c < |s.cores| ==> s.cores[c].sem < |s.words|
  }

  /** WFE waits while the event register is clear. */
  predicate Enabled(s: State, e: Step) {
    && Shaped(s) && e.core < |s.cores|
    && match e
       case Call(c, op, a) => s.cores[c].pc == Idle && a < |s.words|
       case Exec(c) => s.cores[c].pc != Idle && (s.cores[c].pc == TakeWait ==> s.cores[c].event)
       case Lose(c) => true
  }

  function First(op: Op): Pc {
    match op case Take => TakeLoad case Put => PutFence
  }

  function SetCore(s: State, c: nat, k: Core): State
    requires c < |s.cores|
  {
    s.(cores := s.cores[c := k])
  }

  /** What a store to word a does to the monitor of another core. */
  function Snoop(k: Core, a: nat): Core {
    if k.reserved == Some(a) then k.(reserved := None, event := true) else k
  }

  /** STLXR: store x1 and succeed if the reservation is still there; either way it is gone. */
  function StoreExclusive(s: State, c: nat, next: Pc): State
    requires Shaped(s) && c < |s.cores|
  {
    var k := s.cores[c];
    var a := k.sem;
    if k.reserved == Some(a) then
      State(
        s.words[a := k.x1],
        seq(|s.cores|, i requires 0 <= i < |s.cores| =>
          if i == c then k.(pc := next, w2 := 0, reserved := None) else Snoop(s.cores[i], a)),
        s.holders[a := if k.op == Take then s.holders[a] + {c} else s.holders[a] - {c}])
    else
      SetCore(s, c, k.(pc := next, w2 := 1, reserved := None))
  }

  function Execute(s: State, c: nat): State
    requires Enabled(s, Exec(c))
  {
    var k := s.cores[c];
    var load := k.(x1 := s.words[k.sem], reserved := Some(k.sem));
    match k.pc
    case TakeLoad => SetCore(s, c, load.(pc := TakeBranch))
    case TakeBranch => SetCore(s, c, k.(pc := if k.x1 != 0 then TakeWait else TakeSet))
    case TakeSet => SetCore(s, c, k.(pc := TakeStore, x1 := 1))
    case TakeStore => StoreExclusive(s, c, TakeFence)
    case TakeFence => SetCore(s, c, k.(pc := TakeCheck))
    case TakeCheck => SetCore(s, c, k.(pc := if k.w2 != 0 then TakeWait else Idle))
    case TakeWait => SetCore(s, c, k.(pc := TakeLoad, event := false))
    case PutFence => SetCore(s, c, k.(pc := ClearLoad))
    case ClearLoad => SetCore(s, c, load.(pc := ClearSet))
    case ClearSet => SetCore(s, c, k.(pc := ClearStore, x1 := 0))
    case ClearStore => StoreExclusive(s, c, ClearFence)
    case ClearFence => SetCore(s, c, k.(pc := ClearCheck))
    case ClearCheck =>
      SetCore(s, c, k.(pc := if k.w2 != 0 then PutFence else PutSignal))
    case PutSignal =>
      s.(cores := seq(|s.cores|, i requires 0 <= i < |s.cores| =>
        if i == c then k.(pc := Idle, event := true) else s.cores[i].(event := true)))
  }

  function Apply(s: State, e: Step): State
    requires Enabled(s, e)
  {
    match e
    case Call(c, op, a) => SetCore(s, c, s.cores[c].(pc := First(op), op := op, sem := a))
    case Exec(c) => Execute(s, c)
    case Lose(c) => SetCore(s, c, s.cores[c].(reserved := None, event := true))
  }

  /** An interleaving is any sequence of enabled steps. */
  predicate IsRun(s: State, run: seq<Step>)
    decreases |run|
  {
    run == [] || (Enabled(s, run[0]) && IsRun(Apply(s, run[0]), run[1..]))
  }

  function Final(s: State, run: seq<Step>): State
    requires IsRun(s, run)
    decreases |run|
  {
    if run == [] then s else Final(Apply(s, run[0]), run[1..])
  }

  predicate Initial(s: State) {
    && Shaped(s)
    && (forall c :: 0 <= c < |s.cores| ==> s.cores[c].pc == Idle)
    && (forall a :: 0 <= a < |s.words| ==> s.words[a] == 0 && s.holders[a] == {})
  }

  /** What a reservation and the event register tell about the word. */
  predicate CoreOk(words: seq<nat>, k: Core)
    requires k.sem < |words|
  {
    var a := k.sem;
    var mine := k.reserved == Some(a);
    match k.pc
    case TakeBranch => (mine ==> words[a] == k.x1) && (mine || k.event) && k.op == Take
    case TakeSet => (mine ==> words[a] == 0) && (mine || k.event) && k.op == Take
    case TakeStore => (mine ==> words[a] == 0) && (mine || k.event) && k.x1 == 1 && k.op == Take
    case TakeFence => !mine && (k.w2 != 0 ==> k.event) && k.op == Take
    case TakeCheck => !mine && (k.w2 != 0 ==> k.event) && k.op == Take
    case TakeWait => (mine ==> words[a] != 0) && (mine || k.event) && k.op == Take
    case TakeLoad => k.op == Take
    case ClearStore => k.x1 == 0 && k.op == Put
    case PutSignal => k.op == Put && k.w2 == 0
    case Idle => true
    case _ => k.op == Put
  }

  ghost predicate Inv(s: State) {
    Shaped(s) && forall c :: 0 <= c < |s.cores| ==> CoreOk(s.words, s.cores[c])
  }

  /** The core that steps keeps its invariant. */
  lemma StepOwnCore(s: State, e: Step)
    requires Inv(s) && Enabled(s, e)
    ensures var s' := Apply(s, e);
            && |s'.cores| == |s.cores| && |s'.words| == |s.words| == |s'.holders|
            && s'.cores[e.core].sem < |s'.words| && CoreOk(s'.words, s'.cores[e.core])
  {
    assert CoreOk(s.words, s.cores[e.core]);
  }

  /** So does every other core: a store it did not make costs it a reservation it relied on. */
  lemma StepOtherCore(s: State, e: Step, i: nat)
    requires Inv(s) && Enabled(s, e) && i < |s.cores| && i != e.core
    ensures var s' := Apply(s, e);
            && |s'.cores| == |s.cores| && |s'.words| == |s.words|
            && s'.cores[i].sem < |s'.words| && CoreOk(s'.words, s'.cores[i])
  {
    assert CoreOk(s.words, s.cores[i]);
  }

  lemma StepKeepsInv(s: State, e: Step)
    requires Inv(s) && Enabled(s, e)
    ensures Inv(Apply(s, e))
  {
    StepOwnCore(s, e);
    var s' := Apply(s, e);
    forall i | 0 <= i < |s'.cores| ensures s'.cores[i].sem < |s'.words| && CoreOk(s'.words, s'.cores[i]) {
      if i != e.core {
        StepOtherCore(s, e, i);
      }
    }
  }

  lemma {:induction false} RunKeepsInv(s: State, run: seq<Step>)
    requires Inv(s) && IsRun(s, run)
    ensures Inv(Final(s, run))
    decreases |run|
  {
    if run != [] {
      StepKeepsInv(s, run[0]);
      RunKeepsInv(Apply(s, run[0]), run[1..]);
    }
  }

  /** No wake-up is lost: in every interleaving, a core that waits with its event register clear
      waits for a semaphore that is taken at that moment. */
  lemma NoLostWakeUp(s: State, run: seq<Step>, c: nat)
    requires Initial(s) && IsRun(s, run) && c < |s.cores|
    ensures var s' := Final(s, run);
            c < |s'.cores| && (
            var k := s'.cores[c];
            k.pc == TakeWait && !k.event ==> k.sem < |s'.words| && s'.words[k.sem] != 0)
  {
    RunKeepsInv(s, run);
    RunKeepsShape(s, run);
    var s' := Final(s, run);
    assert CoreOk(s'.words, s'.cores[c]);
  }

  lemma {:induction false} RunKeepsShape(s: State, run: seq<Step>)
    requires IsRun(s, run)
    ensures |Final(s, run).cores| == |s.cores| && |Final(s, run).words| == |s.words|
    decreases |run|
  {
    if run != [] { RunKeepsShape(Apply(s, run[0]), run[1..]); }
  }

  // ----- the atomic semaphore the routines implement

  /** A core is outside, has called a routine, or has had its effect and not yet returned. */
  datatype Phase = Outside | Called(op: Op, sem: nat) | Done(op: Op, sem: nat)

  datatype Atomic = Atomic(words: seq<nat>, phases: seq<Phase>)

  datatype Act = Invoke(op: Op, sem: nat) | Effect | Return

  /** Test-and-set and clear in one step. */
  predicate Acts(s: Atomic, c: nat, act: Act, s': Atomic) {
    && c < |s.phases|
    && match act
       case Invoke(op, a) =>
         s.phases[c] == Outside && a < |s.words| && s' == s.(phases := s.phases[c := Called(op, a)])
       case Effect =>
         s.phases[c].Called? && (
         var Called(op, a) := s.phases[c];
         && a < |s.words| && (op == Take ==> s.words[a] == 0)
         && s' == Atomic(s.words[a := if op == Take then 1 else 0], s.phases[c := Done(op, a)]))
       case Return =>
         s.phases[c].Done? && s' == s.(phases := s.phases[c := Outside])
  }

  /** The phase of a core: its effect is the exclusive store that succeeded. */
  function PhaseOf(k: Core): Phase {
    match k.pc
    case Idle => Outside
    case TakeFence => if k.w2 == 0 then Done(k.op, k.sem) else Called(k.op, k.sem)
    case TakeCheck => if k.w2 == 0 then Done(k.op, k.sem) else Called(k.op, k.sem)
    case ClearFence => if k.w2 == 0 then Done(k.op, k.sem) else Called(k.op, k.sem)
    case ClearCheck => if k.w2 == 0 then Done(k.op, k.sem) else Called(k.op, k.sem)
    case PutSignal => Done(k.op, k.sem)
    case _ => Called(k.op, k.sem)
  }

  function Abstract(s: State): (r: Atomic)
    ensures |r.phases| == |s.cores|
  {
    Atomic(s.words, seq(|s.cores|, i requires 0 <= i < |s.cores| => PhaseOf(s.cores[i])))
  }

  /** The action of the atomic semaphore that a step performs, if any. */
  function ActOf(s: State, e: Step): Option<Act>
    requires Enabled(s, e)
  {
    match e
    case Call(c, op, a) => Some(Invoke(op, a))
    case Lose(c) => None
    case Exec(c) =>
      var k := s.cores[c];
      match k.pc
      case TakeStore => if k.reserved == Some(k.sem) then Some(Effect) else None
      case ClearStore => if k.reserved == Some(k.sem) then Some(Effect) else None
      case TakeCheck => if k.w2 == 0 then Some(Return) else None
      case PutSignal => Some(Return)
      case _ => None
  }

  /** Every step is one action of the atomic semaphore, or none at all. */
  lemma StepRefines(s: State, e: Step)
    requires Inv(s) && Enabled(s, e)
    ensures match ActOf(s, e)
            case Some(act) => Acts(Abstract(s), e.core, act, Abstract(Apply(s, e)))
            case None => Abstract(Apply(s, e)) == Abstract(s)
  {
    var s' := Apply(s, e);
    assert CoreOk(s.words, s.cores[e.core]);
    var t, t' := Abstract(s), Abstract(s');
    assert |t'.phases| == |t.phases|;
    forall i | 0 <= i < |s.cores| && i != e.core ensures t'.phases[i] == t.phases[i] {}
    match ActOf(s, e) {
      case Some(Invoke(op, a)) => assert t'.phases == t.phases[e.core := Called(op, a)];
      case Some(Effect) =>
        var k := s.cores[e.core];
        assert t'.phases == t.phases[e.core := Done(k.op, k.sem)];
      case Some(Return) => assert t'.phases == t.phases[e.core := Outside];
      case None => assert t'.phases == t.phases;
    }
  }

  /** The runs of the atomic semaphore: each action by some core. */
  predicate AtomicRun(s: Atomic, acts: seq<(nat, Act, Atomic)>, s': Atomic)
    decreases |acts|
  {
    if acts == [] then s == s'
    else Acts(s, acts[0].0, acts[0].1, acts[0].2) && AtomicRun(acts[0].2, acts[1..], s')
  }

  /** What a run of instructions does, seen as a run of the atomic semaphore. */
  function Trace(s: State, run: seq<Step>): seq<(nat, Act, Atomic)>
    requires IsRun(s, run)
    decreases |run|
  {
    if run == [] then []
    else
      var rest := Trace(Apply(s, run[0]), run[1..]);
      match ActOf(s, run[0])
      case Some(act) => [(run[0].core, act, Abstract(Apply(s, run[0])))] + rest
      case None => rest
  }

  /** Every interleaving of the instruction sequences on any number of cores is a run of the
      atomic semaphore. */
  lemma {:induction false} RunRefines(s: State, run: seq<Step>)
    requires Inv(s) && IsRun(s, run)
    ensures AtomicRun(Abstract(s), Trace(s, run), Abstract(Final(s, run)))
    decreases |run|
  {
    if run != [] {
      StepRefines(s, run[0]);
      StepKeepsInv(s, run[0]);
      RunRefines(Apply(s, run[0]), run[1..]);
    }
  }

  // ----- every routine can finish

  /** Instructions core k has to execute until it returns, when no other core gets in between. */
  function Left(k: Core): nat {
    var mine := k.reserved == Some(k.sem);
    match k.pc
    case Idle => 0
    case TakeLoad => 6
    case TakeBranch => if k.x1 != 0 then 8 else if mine then 5 else 12
    case TakeSet => if mine then 4 else 11
    case TakeStore => if mine then 3 else 10
    case TakeFence => if k.w2 == 0 then 2 else 9
    case TakeCheck => if k.w2 == 0 then 1 else 8
    case TakeWait => 7
    case PutFence => 7
    case ClearLoad => 6
    case ClearSet => if mine then 5 else 11
    case ClearStore => if mine then 4 else 10
    case ClearFence => if k.w2 == 0 then 3 else 9
    case ClearCheck => if k.w2 == 0 then 2 else 8
    case PutSignal => 1
  }

  /** Core c is inside a routine, and a take that has not had its effect yet finds its word clear. */
  predicate CanReturn(s: State, c: nat) {
    && Shaped(s) && c < |s.cores| && s.cores[c].pc != Idle
    && (PhaseOf(s.cores[c]).Called? && s.cores[c].op == Take ==> s.words[s.cores[c].sem] == 0)
  }

  /** The routine core c was inside in state s is over in s': its effect, if still to come, has come,
      nothing else has happened to the words, and a put has woken everybody. */
  ghost predicate Returned(s: State, c: nat, s': State)
    requires Shaped(s) && c < |s.cores|
  {
    var k := s.cores[c];
    && |s'.cores| == |s.cores| && s'.cores[c].pc == Idle
    && s'.words == (if PhaseOf(k).Called? then s.words[k.sem := if k.op == Take then 1 else 0] else s.words)
    && s'.holders == (if !PhaseOf(k).Called? then s.holders
                      else s.holders[k.sem := if k.op == Take then s.holders[k.sem] + {c} else s.holders[k.sem] - {c}])
    && (forall d :: 0 <= d < |s.cores| && d != c ==> PhaseOf(s'.cores[d]) == PhaseOf(s.cores[d]))
    && (k.op == Put ==> forall d :: 0 <= d < |s.cores| ==> s'.cores[d].event)
  }

  function Alone(c: nat, n: nat): seq<Step> {
    if n == 0 then [] else [Exec(c)] + Alone(c, n - 1)
  }

  /** Nothing has happened to the words, or the effect of core c has just come. */
  predicate EffectOf(s: State, c: nat, s': State)
    requires Shaped(s) && c < |s.cores| == |s'.cores|
  {
    var k, k' := s.cores[c], s'.cores[c];
    if PhaseOf(k).Called? && !PhaseOf(k').Called? then
      && s'.words == s.words[k.sem := if k.op == Take then 1 else 0]
      && s'.holders == s.holders[k.sem := if k.op == Take then s.holders[k.sem] + {c} else s.holders[k.sem] - {c}]
    else PhaseOf(k').Called? == PhaseOf(k).Called? && s'.words == s.words && s'.holders == s.holders
  }

  /** What an instruction of core c leaves to do. */
  predicate Closer(s: State, c: nat, s': State)
    requires Shaped(s) && c < |s.cores|
  {
    && |s'.cores| == |s.cores| && s'.cores[c].op == s.cores[c].op && s'.cores[c].sem == s.cores[c].sem
    && EffectOf(s, c, s')
    && forall d :: 0 <= d < |s.cores| && d != c ==> PhaseOf(s'.cores[d]) == PhaseOf(s.cores[d])
  }

  /** One instruction brings the core one instruction closer to its return. */
  lemma StepTowardsReturn(s: State, c: nat)
    requires Inv(s) && CanReturn(s, c)
    ensures Enabled(s, Exec(c))
    ensures Left(Execute(s, c).cores[c]) + 1 == Left(s.cores[c]) <= 12
    ensures Left(s.cores[c]) > 1 ==> CanReturn(Execute(s, c), c)
  {
    assert CoreOk(s.words, s.cores[c]);
  }

  lemma StepIsCloser(s: State, c: nat)
    requires Inv(s) && CanReturn(s, c) && Enabled(s, Exec(c))
    ensures Closer(s, c, Execute(s, c))
  {
    OwnEffect(s, c);
    forall d | 0 <= d < |s.cores| && d != c ensures PhaseOf(Execute(s, c).cores[d]) == PhaseOf(s.cores[d]) {
      OtherPhase(s, c, d);
    }
  }

  lemma OtherPhase(s: State, c: nat, d: nat)
    requires Enabled(s, Exec(c)) && d < |s.cores| && d != c
    ensures |Execute(s, c).cores| == |s.cores| && PhaseOf(Execute(s, c).cores[d]) == PhaseOf(s.cores[d])
  {
  }

  lemma OwnEffect(s: State, c: nat)
    requires Inv(s) && CanReturn(s, c) && Enabled(s, Exec(c))
    ensures var s' := Execute(s, c);
            && |s'.cores| == |s.cores| && s'.cores[c].op == s.cores[c].op && s'.cores[c].sem == s.cores[c].sem
            && EffectOf(s, c, s')
  {
    assert CoreOk(s.words, s.cores[c]);
  }

  lemma LastStep(s: State, c: nat)
    requires Inv(s) && CanReturn(s, c) && Enabled(s, Exec(c)) && Left(s.cores[c]) == 1
    ensures Returned(s, c, Execute(s, c))
  {
    assert CoreOk(s.words, s.cores[c]);
  }

  lemma CloserReturns(s: State, c: nat, s': State, s'': State)
    requires Shaped(s) && c < |s.cores| && Closer(s, c, s') && Shaped(s') && Returned(s', c, s'')
    ensures Returned(s, c, s'')
  {
  }

  /** From wherever a core is inside take or put, waiting after it found the word taken or going back
      after a store that failed, it returns within twelve instructions of its own, provided that a
      take still to come finds its word clear.  Then a take has set the word and made the core a
      holder, a put has cleared it, and nothing else has happened to the words. */
  lemma {:induction false} RoutineFinishes(s: State, c: nat)
    requires Inv(s) && CanReturn(s, c)
    ensures 1 <= Left(s.cores[c]) <= 12
    ensures var run := Alone(c, Left(s.cores[c])); IsRun(s, run) && Returned(s, c, Final(s, run))
    decreases Left(s.cores[c])
  {
    StepTowardsReturn(s, c);
    StepKeepsInv(s, Exec(c));
    var n := Left(s.cores[c]);
    assert Alone(c, n)[0] == Exec(c) && Alone(c, n)[1..] == Alone(c, n - 1);
    if n > 1 {
      StepIsCloser(s, c);
      RoutineFinishes(Execute(s, c), c);
      CloserReturns(s, c, Execute(s, c), Final(s, Alone(c, n)));
    } else {
      LastStep(s, c);
      assert Alone(c, n - 1) == [];
    }
  }

  // ----- mutual exclusion

  /** Only a core that holds a semaphore calls put on it. */
  predicate Disciplined(s: State, e: Step)
    requires Enabled(s, e)
  {
    e.Call? && e.op == Put ==> e.core in s.holders[e.sem]
  }

  predicate DisciplinedRun(s: State, run: seq<Step>)
    requires IsRun(s, run)
    decreases |run|
  {
    run == [] || (Disciplined(s, run[0]) && DisciplinedRun(Apply(s, run[0]), run[1..]))
  }

  /** A word is clear exactly when nobody holds it, otherwise one core does; and a core on its
      way to clear it still holds it. */
  ghost predicate Exclusive(s: State) {
    && Inv(s)
    && (forall a :: 0 <= a < |s.words| ==> WordOwned(s, a))
    && (forall c :: 0 <= c < |s.cores| ==> Clearing(s, c))
  }

  ghost predicate WordOwned(s: State, a: nat)
    requires |s.holders| == |s.words|
  {
    a < |s.words| &&
    if s.words[a] == 0 then s.holders[a] == {} else exists c :: s.holders[a] == {c}
  }

  predicate Clearing(s: State, c: nat)
    requires Shaped(s)
  {
    c < |s.cores| &&
    var k := s.cores[c];
    PhaseOf(k).Called? && k.op == Put ==> c in s.holders[k.sem]
  }

  lemma StepKeepsExclusive(s: State, e: Step)
    requires Exclusive(s) && Enabled(s, e) && Disciplined(s, e)
    ensures Exclusive(Apply(s, e))
  {
    StepKeepsInv(s, e);
    var s' := Apply(s, e);
    var k := s.cores[e.core];
    assert CoreOk(s.words, k) && Clearing(s, e.core) && WordOwned(s, k.sem);
    forall a | 0 <= a < |s'.words| ensures WordOwned(s', a) {
      assert WordOwned(s, a);
      if s'.words[a] != 0 && s.words[a] == 0 {
        assert s'.holders[a] == {e.core};
      }
    }
    forall i | 0 <= i < |s'.cores| ensures Clearing(s', i) {
      assert Clearing(s, i) && CoreOk(s.words, s.cores[i]);
      if i != e.core {
        OthersKeep(s, e, i);
      }
    }
  }

  /** A disciplined step takes a semaphore away from no core but the one that steps. */
  lemma OthersKeep(s: State, e: Step, i: nat)
    requires Exclusive(s) && Enabled(s, e) && i < |s.cores| && i != e.core
    ensures var s' := Apply(s, e); |s'.cores| == |s.cores| && s'.cores[i].sem == s.cores[i].sem
    ensures var s' := Apply(s, e); i in s.holders[s.cores[i].sem] ==> i in s'.holders[s.cores[i].sem]
    ensures PhaseOf(Apply(s, e).cores[i]) == PhaseOf(s.cores[i]) && Apply(s, e).cores[i].op == s.cores[i].op
  {
  }

  lemma {:induction false} RunKeepsExclusive(s: State, run: seq<Step>)
    requires Exclusive(s) && IsRun(s, run) && DisciplinedRun(s, run)
    ensures Exclusive(Final(s, run)) && |Final(s, run).words| == |s.words|
    decreases |run|
  {
    if run != [] {
      StepKeepsExclusive(s, run[0]);
      RunKeepsExclusive(Apply(s, run[0]), run[1..]);
    }
  }

  lemma InitialIsExclusive(s: State)
    requires Initial(s)
    ensures Exclusive(s)
  {
    forall a | 0 <= a < |s.words| ensures WordOwned(s, a) {}
    forall c | 0 <= c < |s.cores| ensures Clearing(s, c) {}
  }

  /** In every interleaving in which only holders put, a word is clear exactly when nobody is past
      a take with no put since, and otherwise exactly one core is. */
  lemma MutualExclusion(s: State, run: seq<Step>, a: nat)
    requires Initial(s) && IsRun(s, run) && DisciplinedRun(s, run) && a < |s.words|
    ensures |Final(s, run).words| == |s.words| && |Final(s, run).holders| == |s.words|
    ensures |Final(s, run).holders[a]| == if Final(s, run).words[a] == 0 then 0 else 1
  {
    InitialIsExclusive(s);
    RunKeepsExclusive(s, run);
    var s' := Final(s, run);
    assert WordOwned(s', a);
    if s'.words[a] != 0 {
      var c :| s'.holders[a] == {c};
    }
  }
}
