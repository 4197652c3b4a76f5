/** The allocator's takes and puts as instructions of arm.S: every interleaving of its calls can
    happen on the machine, the bad ones included. */
module LockCode {
  import opened Wrappers
  import S = Semaphore
  import L = AllocatorLock
  import Q = WorkQueue

  /** No core is in a semaphore routine. */
  predicate Quiet(m: S.State) {
    S.Shaped(m) && forall c :: 0 <= c < |m.cores| ==> m.cores[c].pc == S.Idle
  }

  /** Nothing but the word and its holders differs between two quiet states. */
  predicate Moved(m: S.State, m': S.State, a: nat, value: nat, holders: set<nat>)
    requires a < |m.words| == |m.holders|
  {
    && Quiet(m') && |m'.cores| == |m.cores|
    && m'.words == m.words[a := value] && m'.holders == m.holders[a := holders]
  }

  lemma Prepend(m: S.State, e: S.Step, run: seq<S.Step>) returns (more: seq<S.Step>)
    requires S.Enabled(m, e) && S.IsRun(S.Apply(m, e), run)
    ensures S.IsRun(m, more) && S.Final(m, more) == S.Final(S.Apply(m, e), run)
  {
    more := [e] + run;
    assert more[1..] == run;
  }

  lemma {:induction false} Append(m: S.State, r1: seq<S.Step>, r2: seq<S.Step>)
    requires S.IsRun(m, r1) && S.IsRun(S.Final(m, r1), r2)
    ensures S.IsRun(m, r1 + r2) && S.Final(m, r1 + r2) == S.Final(S.Final(m, r1), r2)
    decreases |r1|
  {
    if r1 == [] {
      assert r1 + r2 == r2;
    } else {
      assert (r1 + r2)[1..] == r1[1..] + r2;
      Append(S.Apply(m, r1[0]), r1[1..], r2);
    }
  }

  /** An instruction that only concerns its own core, and what it makes of the core. */
  predicate Local(k: S.Core) {
    k.pc != S.Idle && k.pc != S.TakeStore && k.pc != S.ClearStore && k.pc != S.PutSignal && k.pc != S.TakeWait
  }

  function After(words: seq<nat>, k: S.Core): S.Core
    requires Local(k) && k.sem < |words|
  {
    var load := k.(x1 := words[k.sem], reserved := Some(k.sem));
    match k.pc
    case TakeLoad => load.(pc := S.TakeBranch)
    case TakeBranch => k.(pc := if k.x1 != 0 then S.TakeWait else S.TakeSet)
    case TakeSet => k.(pc := S.TakeStore, x1 := 1)
    case TakeFence => k.(pc := S.TakeCheck)
    case TakeCheck => k.(pc := if k.w2 != 0 then S.TakeWait else S.Idle)
    case PutFence => k.(pc := S.ClearLoad)
    case ClearLoad => load.(pc := S.ClearSet)
    case ClearSet => k.(pc := S.ClearStore, x1 := 0)
    case ClearFence => k.(pc := S.ClearCheck)
    case ClearCheck => k.(pc := if k.w2 != 0 then S.PutFence else S.PutSignal)
  }

  lemma LocalStep(m: S.State, c: nat, k: S.Core)
    requires S.Shaped(m) && c < |m.cores| && k.sem < |m.words| && Local(k)
    ensures S.Enabled(S.SetCore(m, c, k), S.Exec(c))
    ensures S.Apply(S.SetCore(m, c, k), S.Exec(c)) == S.SetCore(m, c, After(m.words, k))
  {
    assert m.cores[c := k][c := After(m.words, k)] == m.cores[c := After(m.words, k)];
  }

  /** Two and three such instructions in a row. */
  lemma TwoLocal(m: S.State, c: nat, k: S.Core) returns (run: seq<S.Step>)
    requires S.Shaped(m) && c < |m.cores| && k.sem < |m.words| && Local(k) && Local(After(m.words, k))
    ensures S.IsRun(S.SetCore(m, c, k), run)
    ensures S.Final(S.SetCore(m, c, k), run) == S.SetCore(m, c, After(m.words, After(m.words, k)))
  {
    LocalStep(m, c, After(m.words, k));
    run := Prepend(S.SetCore(m, c, After(m.words, k)), S.Exec(c), []);
    LocalStep(m, c, k);
    run := Prepend(S.SetCore(m, c, k), S.Exec(c), run);
  }

  lemma ThreeLocal(m: S.State, c: nat, k: S.Core) returns (run: seq<S.Step>)
    requires S.Shaped(m) && c < |m.cores| && k.sem < |m.words| && Local(k) && Local(After(m.words, k))
    requires Local(After(m.words, After(m.words, k)))
    ensures S.IsRun(S.SetCore(m, c, k), run)
    ensures S.Final(S.SetCore(m, c, k), run)
         == S.SetCore(m, c, After(m.words, After(m.words, After(m.words, k))))
  {
    run := TwoLocal(m, c, After(m.words, k));
    LocalStep(m, c, k);
    run := Prepend(S.SetCore(m, c, k), S.Exec(c), run);
  }

  /** From the call to the exclusive store. */
  lemma ReachesStore(m: S.State, c: nat, op: S.Op, a: nat) returns (run: seq<S.Step>, k: S.Core)
    requires Quiet(m) && c < |m.cores| && a < |m.words| && (op == S.Take ==> m.words[a] == 0)
    ensures S.IsRun(m, run) && S.Final(m, run) == S.SetCore(m, c, k)
    ensures k.pc == (if op == S.Take then S.TakeStore else S.ClearStore) && k.op == op && k.sem == a
    ensures k.reserved == Some(a) && k.x1 == if op == S.Take then 1 else 0
  {
    var k0 := m.cores[c].(pc := S.First(op), op := op, sem := a);
    run := ThreeLocal(m, c, k0);
    assert S.Apply(m, S.Call(c, op, a)) == S.SetCore(m, c, k0);
    run := Prepend(m, S.Call(c, op, a), run);
    k := After(m.words, After(m.words, After(m.words, k0)));
  }

  /** The exclusive store succeeds. */
  lemma StoreStep(m: S.State, c: nat, k: S.Core)
    requires Quiet(m) && c < |m.cores| && k.sem < |m.words| && k.reserved == Some(k.sem)
    requires (k.pc == S.TakeStore && k.op == S.Take) || (k.pc == S.ClearStore && k.op == S.Put)
    ensures S.Enabled(S.SetCore(m, c, k), S.Exec(c))
    ensures var m' := S.Apply(S.SetCore(m, c, k), S.Exec(c));
            && S.Shaped(m') && |m'.cores| == |m.cores| && m'.words == m.words[k.sem := k.x1]
            && m'.holders
               == m.holders[k.sem := if k.op == S.Take then m.holders[k.sem] + {c} else m.holders[k.sem] - {c}]
            && m'.cores[c]
               == k.(pc := if k.op == S.Take then S.TakeFence else S.ClearFence, w2 := 0, reserved := None)
            && forall i :: 0 <= i < |m'.cores| && i != c ==> m'.cores[i].pc == S.Idle
  {
  }

  /** The store, and the two instructions behind it. */
  lemma Stores(m: S.State, c: nat, k: S.Core) returns (run: seq<S.Step>, m': S.State)
    requires Quiet(m) && c < |m.cores| && k.sem < |m.words| && k.reserved == Some(k.sem)
    requires (k.pc == S.TakeStore && k.op == S.Take) || (k.pc == S.ClearStore && k.op == S.Put)
    ensures S.IsRun(S.SetCore(m, c, k), run) && S.Final(S.SetCore(m, c, k), run) == m'
    ensures S.Shaped(m') && |m'.cores| == |m.cores| && m'.words == m.words[k.sem := k.x1]
    ensures m'.holders == m.holders[k.sem := if k.op == S.Take then m.holders[k.sem] + {c} else m.holders[k.sem] - {c}]
    ensures forall i :: 0 <= i < |m'.cores| && i != c ==> m'.cores[i].pc == S.Idle
    ensures m'.cores[c].pc == (if k.op == S.Take then S.Idle else S.PutSignal)
  {
    StoreStep(m, c, k);
    m' := FromStore(S.Apply(S.SetCore(m, c, k), S.Exec(c)), c);
    run := TailRun(S.Apply(S.SetCore(m, c, k), S.Exec(c)), c);
    run := Prepend(S.SetCore(m, c, k), S.Exec(c), run);
  }

  /** The state two instructions later. */
  function FromStore(m: S.State, c: nat): (m': S.State)
    requires S.Shaped(m) && c < |m.cores| && m.cores[c].w2 == 0
    requires m.cores[c].pc == S.TakeFence || m.cores[c].pc == S.ClearFence
    ensures S.Shaped(m')
  {
    S.SetCore(m, c, m.cores[c].(pc := if m.cores[c].pc == S.TakeFence then S.Idle else S.PutSignal))
  }

  lemma TailRun(m: S.State, c: nat) returns (run: seq<S.Step>)
    requires S.Shaped(m) && c < |m.cores| && m.cores[c].w2 == 0
    requires m.cores[c].pc == S.TakeFence || m.cores[c].pc == S.ClearFence
    ensures S.IsRun(m, run) && S.Final(m, run) == FromStore(m, c)
  {
    assert S.SetCore(m, c, m.cores[c]) == m;
    run := TwoLocal(m, c, m.cores[c]);
  }

  /** A take of a clear word by a core that nobody interferes with. */
  lemma TakeRuns(m: S.State, c: nat, a: nat) returns (run: seq<S.Step>)
    requires Quiet(m) && c < |m.cores| && a < |m.words| && m.words[a] == 0
    ensures S.IsRun(m, run) && Moved(m, S.Final(m, run), a, 1, m.holders[a] + {c})
  {
    var r1, k := ReachesStore(m, c, S.Take, a);
    var r2, m' := Stores(m, c, k);
    Append(m, r1, r2);
    run := r1 + r2;
  }

  /** A put by a core that nobody interferes with, whether it holds the word or not. */
  lemma PutRuns(m: S.State, c: nat, a: nat) returns (run: seq<S.Step>)
    requires Quiet(m) && c < |m.cores| && a < |m.words|
    ensures S.IsRun(m, run) && Moved(m, S.Final(m, run), a, 0, m.holders[a] - {c})
  {
    var r1, k := ReachesStore(m, c, S.Put, a);
    var r2, m' := Stores(m, c, k);
    Append(m, r1, r2);
    var r3 := Prepend(m', S.Exec(c), []);
    Append(m, r1 + r2, r3);
    run := r1 + r2 + r3;
  }

  function Inside(s: L.State): set<nat> {
    set c: nat | c < |s.cores| && s.cores[c] == L.Inside
  }

  /** The machine is in the allocator's state: one word, held by the cores at the table. */
  predicate Shows(m: S.State, s: L.State) {
    Quiet(m) && |m.cores| == |s.cores| && m.words == [Q.Bit(s.taken)] && m.holders == [Inside(s)]
  }

  lemma StepOnMachine(mallocs: seq<bool>, s: L.State, e: L.Step, m: S.State) returns (run: seq<S.Step>)
    requires L.Enabled(mallocs, s, e) && Shows(m, s)
    ensures S.IsRun(m, run) && Shows(S.Final(m, run), L.Apply(mallocs, s, e))
  {
    var s' := L.Apply(mallocs, s, e);
    if e.Enter? {
      run := TakeRuns(m, e.core, 0);
      assert Inside(s') == Inside(s) + {e.core};
    } else {
      run := PutRuns(m, e.core, 0);
      assert Inside(s') == Inside(s) - {e.core};
    }
  }

  /** Every interleaving of allocator calls is one of the machine. */
  lemma {:induction false} RunOnMachine(mallocs: seq<bool>, s: L.State, run: seq<L.Step>, m: S.State)
    returns (code: seq<S.Step>)
    requires L.IsRun(mallocs, s, run) && Shows(m, s)
    ensures S.IsRun(m, code) && Shows(S.Final(m, code), L.Final(mallocs, s, run))
    decreases |run|
  {
    if run == [] {
      code := [];
    } else {
      var first := StepOnMachine(mallocs, s, run[0], m);
      var rest := RunOnMachine(mallocs, L.Apply(mallocs, s, run[0]), run[1..], S.Final(m, first));
      Append(m, first, rest);
      code := first + rest;
    }
  }

  /** When a core m allocates and there is another, the machine can execute the allocator's code so
      that two cores hold the semaphore. */
  lemma TwoHoldersOnMachine(mallocs: seq<bool>, core: nat, other: nat, m: S.State) returns (code: seq<S.Step>)
    requires core < |mallocs| && mallocs[core] && other < |mallocs| && other != core
    requires Shows(m, L.Start(|mallocs|))
    ensures S.IsRun(m, code) && |S.Final(m, code).holders| == 1
    ensures exists c: nat, d: nat :: c != d && c in S.Final(m, code).holders[0] && d in S.Final(m, code).holders[0]
  {
    L.SecondPutFreesOtherCore(mallocs, core, other);
    var start := L.Start(|mallocs|);
    var run :| L.IsRun(mallocs, start, run) && !L.AtMostOneInside(L.Final(mallocs, start, run));
    code := RunOnMachine(mallocs, start, run, m);
    var s := L.Final(mallocs, start, run);
    var c: nat, d: nat :| c < d < |s.cores| && s.cores[c] == L.Inside && s.cores[d] == L.Inside;
    assert S.Final(m, code).holders == [Inside(s)];
    assert c in S.Final(m, code).holders[0] && d in S.Final(m, code).holders[0];
  }
}
