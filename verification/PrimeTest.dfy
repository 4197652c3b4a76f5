/** The prime_multicore_test command of console.c: work partition, posting and waiting, and what
    the worker cores count in total. */
module PrimeTest {
  import opened Word
  import opened Primes
  import opened WorkQueue

  /** The task handle that runs calculate_primes on its two parameter words. */
  const CALCULATE_PRIMES: nat := 1

  /** The parameter words and posts for queues q and up of a round that starts at i. */
  function PostOps(i: nat, q: nat, cores: nat, work: nat): seq<Op>
    decreases cores - q
  {
    if q >= cores then [] else
    [SetParam(2 * q, i + q * work), SetParam(2 * q + 1, i + (q + 1) * work), Post(q, CALCULATE_PRIMES, 2 * q)]
    + PostOps(i, q + 1, cores, work)
  }

  function WaitOps(q: nat, cores: nat): seq<Op>
    decreases cores - q
  {
    if q >= cores then [] else [Wait(q)] + WaitOps(q + 1, cores)
  }

  /** Everything core 0 does from the round that starts at i on. */
  function Program(i: nat, limit: nat, cores: nat, work: nat): seq<Op>
    requires cores > 0 && work > 0
    decreases if i < limit then limit - i else 0
  {
    if i >= limit then [] else
    Stride(work, cores);
    PostOps(i, 0, cores, work) + WaitOps(0, cores) + Program(i + work * cores, limit, cores, work)
  }

  lemma Stride(work: nat, cores: nat)
    requires work > 0 && cores > 0
    ensures work * cores >= 1
  {
    MulGe(work, cores);
  }

  /** Where the last round ends. */
  function Covered(i: nat, limit: nat, cores: nat, work: nat): (n: nat)
    requires cores > 0 && work > 0
    ensures i <= n && limit <= n
    decreases if i < limit then limit - i else 0
  {
    if i >= limit then i else
    Stride(work, cores);
    Covered(i + work * cores, limit, cores, work)
  }

  /** The last number of a round is covered. */
  lemma RoundIsCovered(i: nat, limit: nat, cores: nat, work: nat)
    requires cores > 0 && work > 0 && i < limit
    ensures Covered(i + work * cores, limit, cores, work) == Covered(i, limit, cores, work) >= i + work * cores
  {
    Stride(work, cores);
  }

  /** The accesses core 0 makes.  The last round must end before the range of a u64. */
  method PrimeMulticoreTest(primes: u64, numCores: nat, minimumWorkSize: u64) returns (ops: seq<Op>)
    requires 1 <= numCores <= 3 && minimumWorkSize > 0
    requires Covered(0, (primes / numCores) * numCores, numCores, minimumWorkSize) < WORD
    ensures ops == Program(0, (primes / numCores) * numCores, numCores, minimumWorkSize)
  {
    DivModParts(primes, numCores);
    var primesPerCore := primes / numCores;
    ops := Rounds(primesPerCore * numCores, numCores, minimumWorkSize);
  }

  /** The outer loop. */
  method Rounds(limit: nat, numCores: nat, work: nat) returns (ops: seq<Op>)
    requires 1 <= numCores && work > 0 && Covered(0, limit, numCores, work) < WORD
    ensures ops == Program(0, limit, numCores, work)
  {
    ops := [];
    var i := 0;
    while i < limit
      invariant 0 <= i && Covered(i, limit, numCores, work) < WORD
      invariant Emitted(ops, i, limit, numCores, work)
      decreases limit - i
    {
      Stride(work, numCores);
      RoundIsCovered(i, limit, numCores, work);
      RoundGoes(ops, i, limit, numCores, work);
      var posts := PostRound(i, numCores, work);
      ops := ops + posts;
      var waits := WaitRound(numCores);
      ops := ops + waits;
      Word.Fits(i + work * numCores);
      i := (i + work * numCores) % WORD;
    }
    AllEmitted(ops, i, limit, numCores, work);
  }

  /** What the loop has done and what it still has to do are the program. */
  predicate Emitted(ops: seq<Op>, i: nat, limit: nat, cores: nat, work: nat)
    requires cores > 0 && work > 0
  {
    ops + Program(i, limit, cores, work) == Program(0, limit, cores, work)
  }

  lemma AllEmitted(ops: seq<Op>, i: nat, limit: nat, cores: nat, work: nat)
    requires cores > 0 && work > 0 && i >= limit && Emitted(ops, i, limit, cores, work)
    ensures ops == Program(0, limit, cores, work)
  {
    assert ops + [] == ops;
  }

  /** The first inner loop of a round: fill in the parameters of each queue and post. */
  method PostRound(i: nat, numCores: nat, work: nat) returns (ops: seq<Op>)
    requires i + work * numCores < WORD
    ensures ops == PostOps(i, 0, numCores, work)
  {
    ops := [];
    var qidx := 0;
    while qidx < numCores
      invariant 0 <= qidx <= numCores
      invariant ops + PostOps(i, qidx, numCores, work) == PostOps(i, 0, numCores, work)
    {
      ghost var before := ops;
      RangeFits(i, qidx, numCores, work);
      ops := ops + [SetParam(qidx * 2, (i + qidx * work) % WORD)];
      ops := ops + [SetParam(qidx * 2 + 1, (i + (qidx + 1) * work) % WORD)];
      ops := ops + [Post(qidx, CALCULATE_PRIMES, qidx * 2)];
      PostsGo(before, i, qidx, numCores, work);
      qidx := qidx + 1;
    }
    assert ops + [] == ops;
  }

  lemma RoundGoes(ops: seq<Op>, i: nat, limit: nat, cores: nat, work: nat)
    requires cores > 0 && work > 0 && i < limit && Emitted(ops, i, limit, cores, work)
    ensures Emitted(ops + PostOps(i, 0, cores, work) + WaitOps(0, cores), i + work * cores, limit, cores, work)
  {
    var posts, waits := PostOps(i, 0, cores, work), WaitOps(0, cores);
    var rest := Program(i + work * cores, limit, cores, work);
    assert Program(i, limit, cores, work) == posts + waits + rest;
    assert ops + posts + waits + rest == ops + (posts + waits + rest);
  }

  lemma RangeFits(i: nat, q: nat, cores: nat, work: nat)
    requires q < cores && i + work * cores < WORD
    ensures (i + q * work) % WORD == i + q * work && (i + (q + 1) * work) % WORD == i + (q + 1) * work
  {
    MulMonotone(q, cores, work);
    MulMonotone(q + 1, cores, work);
  }

  lemma PostsGo(before: seq<Op>, i: nat, q: nat, cores: nat, work: nat)
    requires q < cores
    ensures before + PostOps(i, q, cores, work)
         == before + [SetParam(q * 2, i + q * work)] + [SetParam(q * 2 + 1, i + (q + 1) * work)]
            + [Post(q, CALCULATE_PRIMES, q * 2)] + PostOps(i, q + 1, cores, work)
  {
  }

  /** The second inner loop: wait for each queue. */
  method WaitRound(numCores: nat) returns (ops: seq<Op>)
    ensures ops == WaitOps(0, numCores)
  {
    ops := [];
    var qidx := 0;
    while qidx < numCores
      invariant 0 <= qidx <= numCores
      invariant ops + WaitOps(qidx, numCores) == WaitOps(0, numCores)
    {
      ghost var before := ops;
      ops := ops + [Wait(qidx)];
      assert before + ([Wait(qidx)] + WaitOps(qidx + 1, numCores)) == ops + WaitOps(qidx + 1, numCores);
      qidx := qidx + 1;
    }
    assert ops + [] == ops;
  }

  /** A program is its first round and the rest. */
  lemma RoundThenRest(i: nat, limit: nat, cores: nat, work: nat, rest: seq<Op>)
    requires cores > 0 && work > 0 && i < limit && rest == Program(i + work * cores, limit, cores, work)
    ensures work * cores >= 1
    ensures Program(i, limit, cores, work) == PostOps(i, 0, cores, work) + (WaitOps(0, cores) + rest)
  {
    Stride(work, cores);
    var posts, waits := PostOps(i, 0, cores, work), WaitOps(0, cores);
    assert posts + waits + rest == posts + (waits + rest);
  }

  // ----- parameter words are never rewritten under a worker

  /** Queues a and up to b may be running, each on its own pair of words. */
  function Running(a: nat, b: nat): map<nat, nat> {
    map q: nat | a <= q < b :: 2 * q
  }

  lemma RunningLess(q: nat, cores: nat)
    requires q < cores
    ensures Running(q, cores) - {q} == Running(q + 1, cores)
  {
  }

  lemma RunningMore(q: nat)
    ensures Running(0, q)[q := 2 * q] == Running(0, q + 1)
  {
  }

  lemma {:induction false} WaitsAreStable(q: nat, cores: nat, rest: seq<Op>)
    requires q <= cores && Stable(rest, map[])
    ensures Stable(WaitOps(q, cores) + rest, Running(q, cores))
    decreases cores - q
  {
    if q == cores {
      assert WaitOps(q, cores) + rest == rest;
      assert Running(q, cores) == map[];
    } else {
      WaitsAreStable(q + 1, cores, rest);
      WaitOpsHead(q, cores, rest);
      RunningLess(q, cores);
    }
  }

  lemma WaitOpsHead(q: nat, cores: nat, rest: seq<Op>)
    requires q < cores
    ensures var ops := WaitOps(q, cores) + rest;
            ops != [] && ops[0] == Wait(q) && ops[1..] == WaitOps(q + 1, cores) + rest
  {
  }

  lemma {:induction false} PostsAreStable(i: nat, q: nat, cores: nat, work: nat, rest: seq<Op>)
    requires q <= cores && Stable(rest, Running(0, cores))
    ensures Stable(PostOps(i, q, cores, work) + rest, Running(0, q))
    decreases cores - q
  {
    var ops := PostOps(i, q, cores, work) + rest;
    if q == cores {
      assert ops == rest;
    } else {
      PostsAreStable(i, q + 1, cores, work, rest);
      var tail := PostOps(i, q + 1, cores, work) + rest;
      RunningMore(q);
      PostOpsHead(i, q, cores, work, rest);
      assert ops[1..][1..][1..] == tail;
      assert ops[1..][1..][0] == Post(q, CALCULATE_PRIMES, 2 * q);
      assert Stable(ops[1..][1..], Running(0, q));
      assert ops[1..][0] == SetParam(2 * q + 1, i + (q + 1) * work);
      assert Stable(ops[1..], Running(0, q));
    }
  }

  /** A parameter slot is written again only after its queue has been waited for. */
  lemma {:induction false} ProgramIsStable(i: nat, limit: nat, cores: nat, work: nat)
    requires cores > 0 && work > 0
    ensures Stable(Program(i, limit, cores, work), map[])
    decreases if i < limit then limit - i else 0
  {
    if i < limit {
      var rest := Program(i + work * cores, limit, cores, work);
      RoundThenRest(i, limit, cores, work, rest);
      ProgramIsStable(i + work * cores, limit, cores, work);
      WaitsAreStable(0, cores, rest);
      PostsAreStable(i, 0, cores, work, WaitOps(0, cores) + rest);
      assert Running(0, 0) == map[];
    }
  }

  lemma {:induction false} WaitsSettle(q: nat, cores: nat, rest: seq<Op>)
    requires q <= cores && BusyAfter(rest, map[]) == map[]
    ensures BusyAfter(WaitOps(q, cores) + rest, Running(q, cores)) == map[]
    decreases cores - q
  {
    if q == cores {
      assert WaitOps(q, cores) + rest == rest;
      assert Running(q, cores) == map[];
    } else {
      WaitsSettle(q + 1, cores, rest);
      WaitOpsHead(q, cores, rest);
      RunningLess(q, cores);
    }
  }

  lemma {:induction false} PostsSettle(i: nat, q: nat, cores: nat, work: nat, rest: seq<Op>)
    requires q <= cores && BusyAfter(rest, Running(0, cores)) == map[]
    ensures BusyAfter(PostOps(i, q, cores, work) + rest, Running(0, q)) == map[]
    decreases cores - q
  {
    var ops := PostOps(i, q, cores, work) + rest;
    if q == cores {
      assert ops == rest;
    } else {
      PostsSettle(i, q + 1, cores, work, rest);
      RunningMore(q);
      PostOpsHead(i, q, cores, work, rest);
      assert ops[1..][1..][1..] == PostOps(i, q + 1, cores, work) + rest;
      assert ops[1..][1..][0] == Post(q, CALCULATE_PRIMES, 2 * q);
      assert BusyAfter(ops[1..][1..], Running(0, q)) == map[];
      assert ops[1..][0] == SetParam(2 * q + 1, i + (q + 1) * work);
      assert BusyAfter(ops[1..], Running(0, q)) == map[];
    }
  }

  /** The program waits for every queue it posts to. */
  lemma {:induction false} ProgramSettles(i: nat, limit: nat, cores: nat, work: nat)
    requires cores > 0 && work > 0
    ensures BusyAfter(Program(i, limit, cores, work), map[]) == map[]
    decreases if i < limit then limit - i else 0
  {
    if i < limit {
      var rest := Program(i + work * cores, limit, cores, work);
      RoundThenRest(i, limit, cores, work, rest);
      ProgramSettles(i + work * cores, limit, cores, work);
      WaitsSettle(0, cores, rest);
      PostsSettle(i, 0, cores, work, WaitOps(0, cores) + rest);
      assert Running(0, 0) == map[];
    }
  }

  ghost predicate AllFit(ops: seq<Op>, words: nat, queues: nat) {
    forall k :: 0 <= k < |ops| ==> OpFits(ops[k], words, queues)
  }

  lemma {:induction false} PostsFit(i: nat, q: nat, cores: nat, work: nat)
    ensures AllFit(PostOps(i, q, cores, work), 2 * cores, cores)
    decreases cores - q
  {
    if q < cores { PostsFit(i, q + 1, cores, work); }
  }

  lemma {:induction false} WaitsFit(q: nat, cores: nat, words: nat)
    ensures AllFit(WaitOps(q, cores), words, cores)
    decreases cores - q
  {
    if q < cores { WaitsFit(q + 1, cores, words); }
  }

  lemma {:induction false} ProgramFits(i: nat, limit: nat, cores: nat, work: nat)
    requires cores > 0 && work > 0
    ensures AllFit(Program(i, limit, cores, work), 2 * cores, cores)
    decreases if i < limit then limit - i else 0
  {
    if i < limit {
      Stride(work, cores);
      ProgramFits(i + work * cores, limit, cores, work);
      PostsFit(i, 0, cores, work);
      WaitsFit(0, cores, 2 * cores);
    }
  }

  // ----- what is counted in total

  ghost function Sum(args: seq<Args>): nat {
    if args == [] then 0 else CountRange(args[0].x, args[0].y) + Sum(args[1..])
  }

  /** The ranges posted to all queues together, in program order. */
  function AllSent(todo: seq<Op>, memory: seq<nat>): seq<Args>
    requires forall k :: 0 <= k < |todo| ==> WordsFit(todo[k], |memory|)
  {
    if todo == [] then [] else
    assert WordsFit(todo[0], |memory|);
    match todo[0]
    case SetParam(slot, v) => AllSent(todo[1..], memory[slot := v])
    case Post(_, _, a) => [Args(memory[a], memory[a + 1])] + AllSent(todo[1..], memory)
    case Wait(_) => AllSent(todo[1..], memory)
  }

  /** The counts of the ranges sent to queues 0 to n - 1. */
  ghost function SumOverQueues(todo: seq<Op>, memory: seq<nat>, n: nat): nat
    requires forall k :: 0 <= k < |todo| ==> WordsFit(todo[k], |memory|)
  {
    if n == 0 then 0 else SumOverQueues(todo, memory, n - 1) + Sum(SentBy(todo, memory, n - 1))
  }

  lemma {:induction false} HeadCounts(todo: seq<Op>, memory: seq<nat>, n: nat)
    requires todo != [] && forall k :: 0 <= k < |todo| ==> WordsFit(todo[k], |memory|)
    ensures WordsFit(todo[0], |memory|)
    ensures forall k :: 0 <= k < |todo[1..]| ==> WordsFit(todo[1..][k], |memory|)
    ensures match todo[0]
            case SetParam(slot, v) => SumOverQueues(todo, memory, n) == SumOverQueues(todo[1..], memory[slot := v], n)
            case Wait(_) => SumOverQueues(todo, memory, n) == SumOverQueues(todo[1..], memory, n)
            case Post(q, _, a) =>
              SumOverQueues(todo, memory, n)
              == SumOverQueues(todo[1..], memory, n) + (if q < n then CountRange(memory[a], memory[a + 1]) else 0)
  {
    assert WordsFit(todo[0], |memory|);
    if n > 0 {
      HeadCounts(todo, memory, n - 1);
      if todo[0].Post? && todo[0].queue == n - 1 {
        var head := Args(memory[todo[0].params], memory[todo[0].params + 1]);
        var rest := SentBy(todo[1..], memory, n - 1);
        assert ([head] + rest)[1..] == rest;
      }
    }
  }

  /** Splitting the ranges over the queues loses and repeats nothing. */
  lemma {:induction false} QueuesAddUp(todo: seq<Op>, memory: seq<nat>, n: nat)
    requires AllFit(todo, |memory|, n)
    ensures forall k :: 0 <= k < |todo| ==> WordsFit(todo[k], |memory|)
    ensures SumOverQueues(todo, memory, n) == Sum(AllSent(todo, memory))
  {
    assert forall k :: 0 <= k < |todo| ==> OpFits(todo[k], |memory|, n) && WordsFit(todo[k], |memory|);
    if todo == [] {
      NothingSent(memory, n);
    } else {
      HeadCounts(todo, memory, n);
      match todo[0]
      case SetParam(slot, v) => QueuesAddUp(todo[1..], memory[slot := v], n);
      case Wait(_) => QueuesAddUp(todo[1..], memory, n);
      case Post(q, _, a) =>
        QueuesAddUp(todo[1..], memory, n);
        var head, rest := Args(memory[a], memory[a + 1]), AllSent(todo[1..], memory);
        assert ([head] + rest)[1..] == rest;
    }
  }

  lemma {:induction false} NothingSent(memory: seq<nat>, n: nat)
    ensures SumOverQueues([], memory, n) == 0
  {
    if n > 0 { NothingSent(memory, n - 1); }
  }

  lemma {:induction false} WaitsSendNothing(q: nat, cores: nat, rest: seq<Op>, memory: seq<nat>)
    requires forall k :: 0 <= k < |rest| ==> WordsFit(rest[k], |memory|)
    ensures var ops := WaitOps(q, cores) + rest;
            (forall k :: 0 <= k < |ops| ==> WordsFit(ops[k], |memory|)) && AllSent(ops, memory) == AllSent(rest, memory)
    decreases cores - q
  {
    var ops := WaitOps(q, cores) + rest;
    if q >= cores {
      assert ops == rest;
    } else {
      WaitsSendNothing(q + 1, cores, rest, memory);
      WaitOpsHead(q, cores, rest);
    }
  }

  /** The ranges posted from queue q of a round on cover everything from its first number to
      the end of the last round, without gap or overlap. */
  lemma {:induction false} PostsCover(i: nat, q: nat, limit: nat, cores: nat, work: nat, memory: seq<nat>)
    requires cores > 0 && work > 0 && q <= cores && i < limit && 2 * cores <= |memory|
    ensures var ops := PostOps(i, q, cores, work) + RoundEnd(i, limit, cores, work);
            && (forall k :: 0 <= k < |ops| ==> WordsFit(ops[k], |memory|))
            && i + q * work <= Covered(i, limit, cores, work)
            && Sum(AllSent(ops, memory)) == CountRange(i + q * work, Covered(i, limit, cores, work))
    decreases limit - i, cores - q, 1
  {
    if q == cores {
      RoundEndCovers(i, q, limit, cores, work, memory);
    } else {
      var m2 := memory[2 * q := i + q * work][2 * q + 1 := i + (q + 1) * work];
      PostsCover(i, q + 1, limit, cores, work, m2);
      PostsStep(i, q, cores, work, RoundEnd(i, limit, cores, work), memory, Covered(i, limit, cores, work));
    }
  }

  /** The waits of a round send nothing, and the rounds that follow cover the rest. */
  lemma RoundEndCovers(i: nat, q: nat, limit: nat, cores: nat, work: nat, memory: seq<nat>)
    requires cores > 0 && work > 0 && q == cores && i < limit && 2 * cores <= |memory|
    ensures var ops := PostOps(i, q, cores, work) + RoundEnd(i, limit, cores, work);
            && (forall k :: 0 <= k < |ops| ==> WordsFit(ops[k], |memory|))
            && i + q * work <= Covered(i, limit, cores, work)
            && Sum(AllSent(ops, memory)) == CountRange(i + q * work, Covered(i, limit, cores, work))
    decreases limit - i, 0, 0
  {
    var next := i + work * cores;
    Stride(work, cores);
    RoundIsCovered(i, limit, cores, work);
    RestCovers(next, limit, cores, work, memory);
    assert i + q * work == next by { MulCommutes(q, cores, work); }
    assert [] + RoundEnd(i, limit, cores, work) == RoundEnd(i, limit, cores, work);
  }

  lemma RestCovers(next: nat, limit: nat, cores: nat, work: nat, memory: seq<nat>)
    requires cores > 0 && work > 0 && 2 * cores <= |memory|
    ensures var ops := WaitOps(0, cores) + Program(next, limit, cores, work);
            && (forall k :: 0 <= k < |ops| ==> WordsFit(ops[k], |memory|))
            && Sum(AllSent(ops, memory)) == CountRange(next, Covered(next, limit, cores, work))
    decreases if next < limit then limit - next else 0, cores + 2, 0
  {
    ProgramCovers(next, limit, cores, work, memory);
    WaitsSendNothing(0, cores, Program(next, limit, cores, work), memory);
  }

  lemma MulCommutes(q: nat, cores: nat, work: nat)
    requires q == cores
    ensures q * work == work * cores
  {
  }

  /** One post more in front of the rest of a round. */
  lemma PostsStep(i: nat, q: nat, cores: nat, work: nat, rest: seq<Op>, memory: seq<nat>, end: nat)
    requires q < cores && 2 * cores <= |memory| && i + (q + 1) * work <= end
    requires var tail := PostOps(i, q + 1, cores, work) + rest;
             && (forall k :: 0 <= k < |tail| ==> WordsFit(tail[k], |memory|))
             && Sum(AllSent(tail, memory[2 * q := i + q * work][2 * q + 1 := i + (q + 1) * work]))
                == CountRange(i + (q + 1) * work, end)
    ensures var ops := PostOps(i, q, cores, work) + rest;
            && (forall k :: 0 <= k < |ops| ==> WordsFit(ops[k], |memory|))
            && i + q * work <= end && Sum(AllSent(ops, memory)) == CountRange(i + q * work, end)
  {
    PostOpsHead(i, q, cores, work, rest);
    PostHead(i, q, cores, work, PostOps(i, q + 1, cores, work) + rest, PostOps(i, q, cores, work) + rest, memory);
    MulMonotone(q, q + 1, work);
    CountRangeSplits(i + q * work, i + (q + 1) * work, end);
  }

  lemma PostOpsHead(i: nat, q: nat, cores: nat, work: nat, rest: seq<Op>)
    requires q < cores
    ensures PostOps(i, q, cores, work) + rest
         == [SetParam(2 * q, i + q * work), SetParam(2 * q + 1, i + (q + 1) * work), Post(q, CALCULATE_PRIMES, 2 * q)]
            + (PostOps(i, q + 1, cores, work) + rest)
  {
  }

  function RoundEnd(i: nat, limit: nat, cores: nat, work: nat): seq<Op>
    requires cores > 0 && work > 0
  {
    WaitOps(0, cores) + Program(i + work * cores, limit, cores, work)
  }

  lemma PostHead(i: nat, q: nat, cores: nat, work: nat, tail: seq<Op>, ops: seq<Op>, memory: seq<nat>)
    requires 2 * q + 1 < |memory|
    requires forall k :: 0 <= k < |tail| ==> WordsFit(tail[k], |memory|)
    requires ops == [SetParam(2 * q, i + q * work), SetParam(2 * q + 1, i + (q + 1) * work),
                     Post(q, CALCULATE_PRIMES, 2 * q)] + tail
    ensures forall k :: 0 <= k < |ops| ==> WordsFit(ops[k], |memory|)
    ensures var a, b := i + q * work, i + (q + 1) * work;
            Sum(AllSent(ops, memory))
            == CountRange(a, b) + Sum(AllSent(tail, memory[2 * q := a][2 * q + 1 := b]))
  {
    var a, b := i + q * work, i + (q + 1) * work;
    var m1 := memory[2 * q := a];
    var m2 := m1[2 * q + 1 := b];
    assert ops[1..][1..][1..] == tail;
    assert ops[1..][1..][0] == Post(q, CALCULATE_PRIMES, 2 * q);
    assert AllSent(ops[1..][1..], m2) == [Args(a, b)] + AllSent(tail, m2);
    assert ops[1..][0] == SetParam(2 * q + 1, b);
    assert AllSent(ops[1..], m1) == AllSent(ops[1..][1..], m2);
    assert AllSent(ops, memory) == AllSent(ops[1..], m1);
    assert ([Args(a, b)] + AllSent(tail, m2))[1..] == AllSent(tail, m2);
  }

  lemma {:induction false} ProgramCovers(i: nat, limit: nat, cores: nat, work: nat, memory: seq<nat>)
    requires cores > 0 && work > 0 && 2 * cores <= |memory|
    ensures var ops := Program(i, limit, cores, work);
            && (forall k :: 0 <= k < |ops| ==> WordsFit(ops[k], |memory|))
            && Sum(AllSent(ops, memory)) == CountRange(i, Covered(i, limit, cores, work))
    decreases if i < limit then limit - i else 0, cores + 1, 1
  {
    if i < limit {
      Stride(work, cores);
      PostsCover(i, 0, limit, cores, work, memory);
      assert i + 0 * work == i;
      assert PostOps(i, 0, cores, work) + RoundEnd(i, limit, cores, work) == Program(i, limit, cores, work);
    }
  }

  /** What calculate_primes is proved to do for ranges of u64 numbers: `counts` is what it logs,
      and the value of the task is 0. */
  ghost predicate RunsCalculatePrimes(tasks: Tasks, counts: (nat, nat) -> nat) {
    forall x: nat, y: nat :: y < WORD ==> counts(x, y) == CountRange(x, y) && tasks(CALCULATE_PRIMES, x, y) == 0
  }

  function LoggedFor(args: seq<Args>, counts: (nat, nat) -> nat): nat {
    if args == [] then 0 else counts(args[0].x, args[0].y) + LoggedFor(args[1..], counts)
  }

  /** What all the workers have logged. */
  function Logged(lanes: seq<Lane>, counts: (nat, nat) -> nat, n: nat): nat
    requires n <= |lanes|
  {
    if n == 0 then 0 else Logged(lanes, counts, n - 1) + LoggedFor(lanes[n - 1].received, counts)
  }

  predicate RangesFit(args: seq<Args>) {
    forall k :: 0 <= k < |args| ==> args[k].x < WORD && args[k].y < WORD
  }

  lemma {:induction false} LoggedIsCounted(args: seq<Args>, tasks: Tasks, counts: (nat, nat) -> nat)
    requires RunsCalculatePrimes(tasks, counts) && RangesFit(args)
    ensures LoggedFor(args, counts) == Sum(args)
  {
    if args != [] {
      assert counts(args[0].x, args[0].y) == CountRange(args[0].x, args[0].y);
      assert forall k :: 0 <= k < |args[1..]| ==> args[1..][k] == args[k + 1];
      LoggedIsCounted(args[1..], tasks, counts);
    }
  }

  lemma {:induction false} LoggedIsSent(lanes: seq<Lane>, todo: seq<Op>, memory: seq<nat>, n: nat,
                                        tasks: Tasks, counts: (nat, nat) -> nat)
    requires n <= |lanes| && forall k :: 0 <= k < |todo| ==> WordsFit(todo[k], |memory|)
    requires RunsCalculatePrimes(tasks, counts)
    requires forall q :: 0 <= q < n ==> lanes[q].received == SentBy(todo, memory, q) && RangesFit(lanes[q].received)
    ensures Logged(lanes, counts, n) == SumOverQueues(todo, memory, n)
  {
    if n > 0 {
      LoggedIsSent(lanes, todo, memory, n - 1, tasks, counts);
      LoggedIsCounted(lanes[n - 1].received, tasks, counts);
    }
  }

  // ----- every range is one of u64 numbers

  predicate ValuesFit(ops: seq<Op>) {
    forall k :: 0 <= k < |ops| && ops[k].SetParam? ==> ops[k].value < WORD
  }

  lemma {:induction false} PostValuesFit(i: nat, q: nat, cores: nat, work: nat)
    requires i + work * cores < WORD
    ensures ValuesFit(PostOps(i, q, cores, work))
    decreases cores - q
  {
    if q < cores {
      MulMonotone(q, cores, work);
      MulMonotone(q + 1, cores, work);
      PostValuesFit(i, q + 1, cores, work);
    }
  }

  lemma {:induction false} WaitValuesFit(q: nat, cores: nat)
    ensures ValuesFit(WaitOps(q, cores))
    decreases cores - q
  {
    if q < cores { WaitValuesFit(q + 1, cores); }
  }

  /** No parameter word of the program wraps around when the last round ends below 2^64. */
  lemma {:induction false} ProgramValuesFit(i: nat, limit: nat, cores: nat, work: nat)
    requires cores > 0 && work > 0 && Covered(i, limit, cores, work) < WORD
    ensures ValuesFit(Program(i, limit, cores, work))
    decreases if i < limit then limit - i else 0
  {
    if i < limit {
      Stride(work, cores);
      RoundIsCovered(i, limit, cores, work);
      PostValuesFit(i, 0, cores, work);
      WaitValuesFit(0, cores);
      ProgramValuesFit(i + work * cores, limit, cores, work);
    }
  }

  lemma {:induction false} SentFits(todo: seq<Op>, memory: seq<nat>, q: nat)
    requires forall k :: 0 <= k < |todo| ==> WordsFit(todo[k], |memory|)
    requires ValuesFit(todo) && forall k :: 0 <= k < |memory| ==> memory[k] < WORD
    ensures RangesFit(SentBy(todo, memory, q))
    decreases |todo|
  {
    if todo != [] {
      assert WordsFit(todo[0], |memory|);
      assert forall k :: 0 <= k < |todo[1..]| ==> todo[1..][k] == todo[k + 1];
      match todo[0]
      case SetParam(slot, v) => SentFits(todo[1..], memory[slot := v], q);
      case Post(_, _, _) => SentFits(todo[1..], memory, q);
      case Wait(_) => SentFits(todo[1..], memory, q);
    }
  }

  lemma {:induction false} OnlyPrimeJobs(i: nat, limit: nat, cores: nat, work: nat)
    requires cores > 0 && work > 0
    ensures forall k :: 0 <= k < |Program(i, limit, cores, work)| && Program(i, limit, cores, work)[k].Post? ==>
              Program(i, limit, cores, work)[k].task == CALCULATE_PRIMES
    decreases if i < limit then limit - i else 0
  {
    if i < limit {
      Stride(work, cores);
      OnlyPrimeJobs(i + work * cores, limit, cores, work);
      OnlyPrimePosts(i, 0, cores, work);
      NoPostsInWaits(0, cores);
    }
  }

  lemma {:induction false} JobsArePosts(todo: seq<Op>, q: nat)
    requires forall k :: 0 <= k < |todo| && todo[k].Post? ==> todo[k].task == CALCULATE_PRIMES
    ensures forall k :: 0 <= k < |PostsOf(todo, q)| ==> PostsOf(todo, q)[k].task == CALCULATE_PRIMES
  {
    if todo != [] { JobsArePosts(todo[1..], q); }
  }

  lemma {:induction false} OnlyPrimePosts(i: nat, q: nat, cores: nat, work: nat)
    ensures forall k :: 0 <= k < |PostOps(i, q, cores, work)| && PostOps(i, q, cores, work)[k].Post? ==>
              PostOps(i, q, cores, work)[k].task == CALCULATE_PRIMES
    decreases cores - q
  {
    if q < cores { OnlyPrimePosts(i, q + 1, cores, work); }
  }

  lemma {:induction false} NoPostsInWaits(q: nat, cores: nat)
    ensures forall k :: 0 <= k < |WaitOps(q, cores)| ==> !WaitOps(q, cores)[k].Post?
    decreases cores - q
  {
    if q < cores { NoPostsInWaits(q + 1, cores); }
  }

  // ----- which ranges a queue gets

  predicate AllWordsFit(ops: seq<Op>, words: nat) {
    forall k :: 0 <= k < |ops| ==> WordsFit(ops[k], words)
  }

  lemma FitJoin(a: seq<Op>, b: seq<Op>, words: nat)
    ensures AllWordsFit(a + b, words) <==> AllWordsFit(a, words) && AllWordsFit(b, words)
  {
    if AllWordsFit(a + b, words) {
      forall k | 0 <= k < |a| ensures WordsFit(a[k], words) { assert (a + b)[k] == a[k]; }
      forall k | 0 <= k < |b| ensures WordsFit(b[k], words) { assert (a + b)[|a| + k] == b[k]; }
    }
  }

  /** The first operation of a program, when it is no post to queue q. */
  lemma SendsLater(op: Op, rest: seq<Op>, memory: seq<nat>, q: nat)
    requires WordsFit(op, |memory|) && AllWordsFit(rest, |memory|) && !(op.Post? && op.queue == q)
    ensures AllWordsFit([op] + rest, |memory|)
    ensures SentBy([op] + rest, memory, q)
         == SentBy(rest, if op.SetParam? then memory[op.slot := op.value] else memory, q)
  {
    FitJoin([op], rest, |memory|);
    assert ([op] + rest)[1..] == rest;
  }

  lemma SendsNow(q: nat, task: nat, p: nat, rest: seq<Op>, memory: seq<nat>)
    requires p + 1 < |memory| && AllWordsFit(rest, |memory|)
    ensures AllWordsFit([Post(q, task, p)] + rest, |memory|)
    ensures SentBy([Post(q, task, p)] + rest, memory, q) == [Args(memory[p], memory[p + 1])] + SentBy(rest, memory, q)
  {
    FitJoin([Post(q, task, p)], rest, |memory|);
    assert ([Post(q, task, p)] + rest)[1..] == rest;
  }

  lemma {:induction false} WaitsSend(p: nat, cores: nat, rest: seq<Op>, memory: seq<nat>, q: nat)
    requires AllWordsFit(rest, |memory|)
    ensures AllWordsFit(WaitOps(p, cores) + rest, |memory|)
    ensures SentBy(WaitOps(p, cores) + rest, memory, q) == SentBy(rest, memory, q)
    decreases cores - p
  {
    if p < cores {
      WaitsSend(p + 1, cores, rest, memory, q);
      WaitOpsHead(p, cores, rest);
      SendsLater(Wait(p), WaitOps(p + 1, cores) + rest, memory, q);
    } else {
      assert [] + rest == rest;
    }
  }

  /** The range posted to queue q in a round that starts at i. */
  function Chunk(i: nat, q: nat, work: nat): Args {
    Args(i + q * work, i + (q + 1) * work)
  }

  /** Memory with the parameter words of queue p written. */
  function Written(i: nat, p: nat, work: nat, memory: seq<nat>): (m: seq<nat>)
    requires 2 * p + 1 < |memory|
    ensures |m| == |memory|
  {
    memory[2 * p := Chunk(i, p, work).x][2 * p + 1 := Chunk(i, p, work).y]
  }

  lemma FirstPostSends(i: nat, p: nat, cores: nat, work: nat, rest: seq<Op>, tail: seq<Op>, memory: seq<nat>, q: nat)
    requires p < cores && 2 * cores <= |memory| && tail == PostOps(i, p + 1, cores, work) + rest
    requires AllWordsFit(tail, |memory|)
    ensures AllWordsFit(PostOps(i, p, cores, work) + rest, |memory|)
    ensures SentBy(PostOps(i, p, cores, work) + rest, memory, q)
         == (if p == q then [Chunk(i, q, work)] else []) + SentBy(tail, Written(i, p, work, memory), q)
  {
    var args := Chunk(i, p, work);
    PostSends(p, args.x, args.y, tail, memory, q);
    PostOpsHead(i, p, cores, work, rest);
  }

  lemma Concat3(a: seq<Args>, b: seq<Args>, c: seq<Args>)
    ensures a + (b + c) == a + b + c
  {
  }

  /** The posts of a round send each queue one range. */
  lemma {:induction false} PostsSend(i: nat, p: nat, cores: nat, work: nat, rest: seq<Op>, memory: seq<nat>, q: nat)
    returns (after: seq<nat>)
    requires 2 * cores <= |memory| && AllWordsFit(rest, |memory|)
    ensures |after| == |memory| && AllWordsFit(PostOps(i, p, cores, work) + rest, |memory|)
    ensures SentBy(PostOps(i, p, cores, work) + rest, memory, q)
         == (if p <= q < cores then [Chunk(i, q, work)] else []) + SentBy(rest, after, q)
    decreases cores - p
  {
    if p < cores {
      var tail := PostOps(i, p + 1, cores, work) + rest;
      var written := Written(i, p, work, memory);
      after := PostsSend(i, p + 1, cores, work, rest, written, q);
      FirstPostSends(i, p, cores, work, rest, tail, memory, q);
      Concat3(if p == q then [Chunk(i, q, work)] else [], if p < q < cores then [Chunk(i, q, work)] else [],
              SentBy(rest, after, q));
    } else {
      after := memory;
      assert [] + rest == rest;
    }
  }

  lemma PostSends(p: nat, a: nat, b: nat, tail: seq<Op>, memory: seq<nat>, q: nat)
    requires 2 * p + 1 < |memory| && AllWordsFit(tail, |memory|)
    ensures var ops := [SetParam(2 * p, a), SetParam(2 * p + 1, b), Post(p, CALCULATE_PRIMES, 2 * p)] + tail;
            && AllWordsFit(ops, |memory|)
            && SentBy(ops, memory, q)
               == (if p == q then [Args(a, b)] else []) + SentBy(tail, memory[2 * p := a][2 * p + 1 := b], q)
  {
    var m1 := memory[2 * p := a];
    var m2 := m1[2 * p + 1 := b];
    var post: Op := Post(p, CALCULATE_PRIMES, 2 * p);
    if p == q { SendsNow(q, CALCULATE_PRIMES, 2 * p, tail, m2); } else { SendsLater(post, tail, m2, q); }
    SendsLater(SetParam(2 * p + 1, b), [post] + tail, m1, q);
    SendsLater(SetParam(2 * p, a), [SetParam(2 * p + 1, b)] + ([post] + tail), memory, q);
    assert [SetParam(2 * p, a), SetParam(2 * p + 1, b), post] + tail
        == [SetParam(2 * p, a)] + ([SetParam(2 * p + 1, b)] + ([post] + tail));
  }

  /** The range of queue q in round k. */
  function RangeOf(i: nat, k: nat, q: nat, cores: nat, work: nat): Args {
    var start := i + k * (work * cores) + q * work;
    Args(start, start + work)
  }

  lemma NextRound(i: nat, k: nat, q: nat, cores: nat, work: nat)
    ensures RangeOf(i, k + 1, q, cores, work) == RangeOf(i + work * cores, k, q, cores, work)
    ensures RangeOf(i, 0, q, cores, work) == Chunk(i, q, work)
  {
    MulSum(k, 1, work * cores);
    MulSum(q, 1, work);
  }

  /** The work is shared out evenly: in each round each queue is sent one range of the size asked for,
      the queues one behind the other. */
  lemma {:induction false} QueueRanges(i: nat, limit: nat, cores: nat, work: nat, memory: seq<nat>, q: nat)
    requires cores > 0 && work > 0 && q < cores && 2 * cores <= |memory|
    ensures AllWordsFit(Program(i, limit, cores, work), |memory|)
    ensures var r := SentBy(Program(i, limit, cores, work), memory, q);
            && |r| * (work * cores) == Covered(i, limit, cores, work) - i
            && forall k :: 0 <= k < |r| ==> r[k] == RangeOf(i, k, q, cores, work)
    decreases if i < limit then limit - i else 0
  {
    if i < limit {
      var next := i + work * cores;
      var rest := Program(next, limit, cores, work);
      RoundThenRest(i, limit, cores, work, rest);
      QueueRanges(next, limit, cores, work, memory, q);
      WaitsSend(0, cores, rest, memory, q);
      var after := PostsSend(i, 0, cores, work, WaitOps(0, cores) + rest, memory, q);
      QueueRanges(next, limit, cores, work, after, q);
      WaitsSend(0, cores, rest, after, q);
      var later := SentBy(rest, after, q);
      RoundIsCovered(i, limit, cores, work);
      RoundInFront(i, q, cores, work, later);
    }
  }

  lemma RoundInFront(i: nat, q: nat, cores: nat, work: nat, later: seq<Args>)
    requires forall k :: 0 <= k < |later| ==> later[k] == RangeOf(i + work * cores, k, q, cores, work)
    ensures var r := [Chunk(i, q, work)] + later;
            && |r| * (work * cores) == |later| * (work * cores) + work * cores
            && forall k :: 0 <= k < |r| ==> r[k] == RangeOf(i, k, q, cores, work)
  {
    MulSum(|later|, 1, work * cores);
    var r := [Chunk(i, q, work)] + later;
    forall k | 0 <= k < |r| ensures r[k] == RangeOf(i, k, q, cores, work) {
      NextRound(i, if k == 0 then 0 else k - 1, q, cores, work);
    }
  }

  /** The state in which core 0 enters the command's loop: idle queues, its program, and the
      array of six u64 parameters on its stack. */
  ghost predicate Ready(s: State, primes: nat, cores: nat, work: nat)
    requires cores > 0 && work > 0
  {
    && Initial(s) && |s.memory| == 6 && |s.lanes| == 3
    && (forall k :: 0 <= k < |s.memory| ==> s.memory[k] < WORD)
    && s.todo == Program(0, (primes / cores) * cores, cores, work)
  }

  /** When the program has run, each worker has called calculate_primes, on the ranges posted to
      it, all of them ranges of u64 numbers; one range in each round, if it takes part. */
  lemma WorkersRunRanges(tasks: Tasks, s: State, run: seq<Step>, primes: nat, cores: nat, work: nat, q: nat)
    requires 1 <= cores <= 3 && work > 0 && q < 3 && Covered(0, (primes / cores) * cores, cores, work) < WORD
    requires Ready(s, primes, cores, work) && IsRun(tasks, s, run) && Idle(Final(tasks, s, run))
    ensures forall k :: 0 <= k < |s.todo| ==> WordsFit(s.todo[k], |s.memory|)
    ensures var s' := Final(tasks, s, run);
            && |s'.lanes| == 3
            && s'.lanes[q].received == SentBy(s.todo, s.memory, q) && RangesFit(s'.lanes[q].received)
            && |s'.lanes[q].executed| == |s'.lanes[q].received|
            && s'.lanes[q].result == ResultOf(tasks, s'.lanes[q].executed, s'.lanes[q].received)
            && forall k :: 0 <= k < |s'.lanes[q].executed| ==> s'.lanes[q].executed[k].task == CALCULATE_PRIMES
    ensures var r := Final(tasks, s, run).lanes[q].received;
            q < cores ==>
              && |r| * (work * cores) == Covered(0, (primes / cores) * cores, cores, work)
              && forall k :: 0 <= k < |r| ==> r[k] == RangeOf(0, k, q, cores, work)
  {
    var limit := (primes / cores) * cores;
    DivModParts(primes, cores);
    ProgramIsStable(0, limit, cores, work);
    OnlyPrimeJobs(0, limit, cores, work);
    EveryJobSeesItsParameters(tasks, s, run, q);
    JobsArePosts(s.todo, q);
    ProgramValuesFit(0, limit, cores, work);
    SentFits(s.todo, s.memory, q);
    if q < cores { QueueRanges(0, limit, cores, work, s.memory, q); }
    InitialInv(tasks, s);
    RunKeepsInv(tasks, s, run);
    assert LaneOk(tasks, Final(tasks, s, run), q);
  }

  /** End to end: in every interleaving of core 0 and the workers the command runs to its end,
      every job is a call of calculate_primes on a range of u64 numbers, and what these calls log
      adds up to the number of primes below the covered bound, for every bound but 2. */
  lemma PrimeCountIsCorrect(tasks: Tasks, counts: (nat, nat) -> nat, s: State, run: seq<Step>,
                            primes: nat, cores: nat, work: nat)
    requires 1 <= cores <= 3 && work > 0 && Covered(0, (primes / cores) * cores, cores, work) < WORD
    requires RunsCalculatePrimes(tasks, counts)
    requires Ready(s, primes, cores, work) && IsRun(tasks, s, run)
    ensures |Final(tasks, s, run).lanes| == 3
    ensures (exists e :: Enabled(Final(tasks, s, run), e)) <==> !Idle(Final(tasks, s, run))
    ensures |run| <= Measure(s) && (|run| == Measure(s) <==> Idle(Final(tasks, s, run)))
    ensures var n := Covered(0, (primes / cores) * cores, cores, work);
            Idle(Final(tasks, s, run)) ==>
              Logged(Final(tasks, s, run).lanes, counts, 3) == PrimesBelow(n) + (if n == 2 then 1 else 0)
    ensures Idle(Final(tasks, s, run)) ==>
              forall q {:trigger Final(tasks, s, run).lanes[q]} :: 0 <= q < 3 ==>
                var k := Final(tasks, s, run).lanes[q];
                RangesFit(k.received) && k.result == if k.received == [] then RESULT_INVALID else 0
  {
    InitialInv(tasks, s);
    RunsTerminate(tasks, s, run);
    RunKeepsInv(tasks, s, run);
    var s' := Final(tasks, s, run);
    if Idle(s') {
      forall q: nat | q < 3
        ensures s'.lanes[q].received == SentBy(s.todo, s.memory, q) && RangesFit(s'.lanes[q].received)
        ensures s'.lanes[q].result == if s'.lanes[q].received == [] then RESULT_INVALID else 0
      {
        WorkersRunRanges(tasks, s, run, primes, cores, work, q);
        ResultIsZero(tasks, counts, s'.lanes[q].executed, s'.lanes[q].received);
      }
      CountsAddUp(s, primes, cores, work);
      LoggedIsSent(s'.lanes, s.todo, s.memory, 3, tasks, counts);
    }
  }

  /** The command returns on core 0 only after all the work is done, so what has been logged by then is
      complete. */
  lemma CommandWaitsForWorkers(tasks: Tasks, s: State, run: seq<Step>, primes: nat, cores: nat, work: nat)
    requires 1 <= cores <= 3 && work > 0
    requires Ready(s, primes, cores, work) && IsRun(tasks, s, run)
    ensures Final(tasks, s, run).todo == [] <==> Idle(Final(tasks, s, run))
  {
    ProgramSettles(0, (primes / cores) * cores, cores, work);
    DoneMeansIdle(tasks, s, run);
  }

  lemma ResultIsZero(tasks: Tasks, counts: (nat, nat) -> nat, jobs: seq<Job>, args: seq<Args>)
    requires RunsCalculatePrimes(tasks, counts) && |jobs| == |args| && RangesFit(args)
    requires forall k :: 0 <= k < |jobs| ==> jobs[k].task == CALCULATE_PRIMES
    ensures ResultOf(tasks, jobs, args) == if jobs == [] then RESULT_INVALID else 0
  {
    if jobs != [] {
      var a := args[|args| - 1];
      assert counts(a.x, a.y) == CountRange(a.x, a.y) && tasks(CALCULATE_PRIMES, a.x, a.y) == 0;
    }
  }

  /** The ranges the program sends to its queues hold all primes below the covered bound. */
  lemma CountsAddUp(s: State, primes: nat, cores: nat, work: nat)
    requires 1 <= cores <= 3 && work > 0 && Ready(s, primes, cores, work)
    ensures forall k :: 0 <= k < |s.todo| ==> WordsFit(s.todo[k], |s.memory|)
    ensures var n := Covered(0, (primes / cores) * cores, cores, work);
            SumOverQueues(s.todo, s.memory, 3) == PrimesBelow(n) + (if n == 2 then 1 else 0)
  {
    var limit := (primes / cores) * cores;
    ProgramFits(0, limit, cores, work);
    ProgramCovers(0, limit, cores, work, s.memory);
    assert AllFit(s.todo, 6, 3) by {
      forall k | 0 <= k < |s.todo| ensures OpFits(s.todo[k], 6, 3) {
        assert OpFits(s.todo[k], 2 * cores, cores);
      }
    }
    QueuesAddUp(s.todo, s.memory, 3);
    CountIsPrimesBelow(Covered(0, limit, cores, work));
  }

  /** The covered bound is the first multiple of a round's work at or above the limit. */
  lemma {:induction false} CoveredIsRoundedUp(i: nat, limit: nat, cores: nat, work: nat)
    requires cores > 0 && work > 0
    ensures var n := Covered(i, limit, cores, work);
            work * cores >= 1 && (n - i) % (work * cores) == 0 && n >= limit && (n > i ==> n < limit + work * cores)
    decreases if i < limit then limit - i else 0
  {
    Stride(work, cores);
    var step := work * cores;
    if i < limit {
      CoveredIsRoundedUp(i + step, limit, cores, work);
      var n := Covered(i, limit, cores, work);
      var q := (n - i - step) / step;
      DivModParts(n - i - step, step);
      assert (q + 1) * step == q * step + step;
      ModUnique(n - i, step, q + 1, 0);
    } else {
      assert 0 % step == 0;
    }
  }
}
