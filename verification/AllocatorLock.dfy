/** The semaphore around the page table, which malloc.c puts twice when an allocation succeeds,
    on several cores. */
module AllocatorLock {

  /** Outside the calls, between take and put, or between the two puts of a successful malloc. */
  datatype Where = Outside | Inside | Between

  datatype State = State(taken: bool, cores: seq<Where>)

  /** Take the semaphore; put it once (a free, or a malloc that failed); put it the first and
      the second time. */
  datatype Step = Enter(core: nat) | Leave(core: nat) | FirstPut(core: nat) | SecondPut(core: nat)

  /** Only some of the cores have allocations that succeed. */
  predicate Enabled(mallocs: seq<bool>, s: State, e: Step) {
    e.core < |s.cores| == |mallocs| &&
    match e
    case Enter(c) => s.cores[c] == Outside && !s.taken
    case Leave(c) => s.cores[c] == Inside
    case FirstPut(c) => s.cores[c] == Inside && mallocs[c]
    case SecondPut(c) => s.cores[c] == Between
  }

  function Apply(mallocs: seq<bool>, s: State, e: Step): (r: State)
    requires Enabled(mallocs, s, e)
  {
    match e
    case Enter(c) => State(true, s.cores[c := Inside])
    case Leave(c) => State(false, s.cores[c := Outside])
    case FirstPut(c) => State(false, s.cores[c := Between])
    case SecondPut(c) => State(false, s.cores[c := Outside])
  }

  predicate IsRun(mallocs: seq<bool>, s: State, run: seq<Step>)
    decreases |run|
  {
    run == [] || (Enabled(mallocs, s, run[0]) && IsRun(mallocs, Apply(mallocs, s, run[0]), run[1..]))
  }

  function Final(mallocs: seq<bool>, s: State, run: seq<Step>): State
    requires IsRun(mallocs, s, run)
    decreases |run|
  {
    if run == [] then s else Final(mallocs, Apply(mallocs, s, run[0]), run[1..])
  }

  function Start(cores: nat): State {
    State(false, seq(cores, i => Outside))
  }

  predicate AtMostOneInside(s: State) {
    forall c, d :: 0 <= c < d < |s.cores| ==> !(s.cores[c] == Inside && s.cores[d] == Inside)
  }

  /** The semaphore is taken exactly while a core uses the table, and one core does. */
  predicate Exclusive(s: State) {
    AtMostOneInside(s) && (s.taken <==> exists c :: 0 <= c < |s.cores| && s.cores[c] == Inside)
  }

  ghost predicate AlwaysExclusive(mallocs: seq<bool>) {
    forall run :: IsRun(mallocs, Start(|mallocs|), run) ==> Exclusive(Final(mallocs, Start(|mallocs|), run))
  }

  predicate NoMalloc(mallocs: seq<bool>) {
    forall c :: 0 <= c < |mallocs| ==> !mallocs[c]
  }

  /** The semaphore protects the table in every interleaving if and only if there is one core, or
      no allocation ever succeeds: then nobody is ever between two puts. */
  lemma ExclusiveIffNoDoublePut(mallocs: seq<bool>)
    ensures AlwaysExclusive(mallocs) <==> |mallocs| <= 1 || NoMalloc(mallocs)
  {
    var start := Start(|mallocs|);
    if |mallocs| <= 1 || NoMalloc(mallocs) {
      forall run | IsRun(mallocs, start, run) ensures Exclusive(Final(mallocs, start, run)) {
        RunStaysExclusive(mallocs, start, run);
      }
    } else {
      var m :| 0 <= m < |mallocs| && mallocs[m];
      SecondPutFreesOtherCore(mallocs, m, if m == 0 then 1 else 0);
    }
  }

  /** What every step keeps: the semaphore protects the table, and only a core that allocates is
      between two puts. */
  predicate Safe(mallocs: seq<bool>, s: State) {
    && |s.cores| == |mallocs| && Exclusive(s)
    && forall c :: 0 <= c < |s.cores| && s.cores[c] == Between ==> mallocs[c]
  }

  lemma StepStaysSafe(mallocs: seq<bool>, s: State, e: Step)
    requires (|mallocs| <= 1 || NoMalloc(mallocs)) && Safe(mallocs, s) && Enabled(mallocs, s, e)
    ensures Safe(mallocs, Apply(mallocs, s, e))
  {
    var s' := Apply(mallocs, s, e);
    if e.Enter? { assert s'.cores[e.core] == Inside; }
  }

  lemma {:induction false} RunStaysExclusive(mallocs: seq<bool>, s: State, run: seq<Step>)
    requires (|mallocs| <= 1 || NoMalloc(mallocs)) && Safe(mallocs, s) && IsRun(mallocs, s, run)
    ensures Exclusive(Final(mallocs, s, run))
    decreases |run|
  {
    if run != [] {
      StepStaysSafe(mallocs, s, run[0]);
      RunStaysExclusive(mallocs, Apply(mallocs, s, run[0]), run[1..]);
    }
  }

  /** Whenever a core m allocates and there is another core, which need not: that one enters
      between the two puts, and the second put lets core m in again beside it. */
  lemma {:induction false} SecondPutFreesOtherCore(mallocs: seq<bool>, m: nat, other: nat)
    requires m < |mallocs| && mallocs[m] && other < |mallocs| && other != m
    ensures exists run ::
              IsRun(mallocs, Start(|mallocs|), run) && !AtMostOneInside(Final(mallocs, Start(|mallocs|), run))
  {
    var s0 := Start(|mallocs|);
    var s1 := Apply(mallocs, s0, Enter(m));
    var s2 := Apply(mallocs, s1, FirstPut(m));
    var s3 := Apply(mallocs, s2, Enter(other));
    var s4 := Apply(mallocs, s3, SecondPut(m));
    var s5 := Apply(mallocs, s4, Enter(m));
    var r4 := Prepend(mallocs, s4, Enter(m), []);
    var r3 := Prepend(mallocs, s3, SecondPut(m), r4);
    var r2 := Prepend(mallocs, s2, Enter(other), r3);
    var r1 := Prepend(mallocs, s1, FirstPut(m), r2);
    var run := Prepend(mallocs, s0, Enter(m), r1);
    assert s5.cores[m] == s5.cores[other] == Inside;
    assert m < other || other < m;
    assert Final(mallocs, s0, run) == s5;
  }

  lemma Prepend(mallocs: seq<bool>, s: State, e: Step, run: seq<Step>) returns (more: seq<Step>)
    requires Enabled(mallocs, s, e) && IsRun(mallocs, Apply(mallocs, s, e), run)
    ensures IsRun(mallocs, s, more) && Final(mallocs, s, more) == Final(mallocs, Apply(mallocs, s, e), run)
  {
    more := [e] + run;
    assert more[1..] == run;
  }
}
