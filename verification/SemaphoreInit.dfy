/** arm64_init_semaphore of arm.S, run by one core with nobody else using the word.

    The routine overwrites x0, its pointer, with the status of the exclusive store before it
    reads the word back.  So it reads address 0 after a store that succeeded and address 1 after
    one that failed, and starts over there when the low half of what it finds is not zero. */
module SemaphoreInit {
  import opened Word

  /** LDAXR of the odd address 1 is an alignment fault. */
  datatype End = Returned | AlignmentFault

  /** Memory holds the doublewords from address 0 on, least significant byte first. */
  function LoadAtOne(m: seq<u64>): nat
    requires |m| >= 2
  {
    m[0] / 256 + (m[1] % 256) * 0x100_0000_0000_0000
  }

  /** CMP w2 looks at the low half of the register. */
  function LowHalf(x: nat): nat {
    x % WORD32
  }

  /** The low half of the doubleword at address 1. */
  function Middle(m: seq<u64>): nat
    requires m != []
  {
    LowHalf(m[0] / 256)
  }

  /** What a call for the semaphore at doubleword `sem` does.  `first` and `second` say whether
      the reservation lasts until the exclusive store of each round. */
  function AfterInit(m: seq<u64>, sem: nat, first: bool, second: bool): (End, seq<u64>)
    requires sem < |m|
  {
    if !first then (if Middle(m) == 0 then Returned else AlignmentFault, m)
    else
      var m1 := m[sem := 0];
      if LowHalf(m1[0]) == 0 then (Returned, m1)
      else if second then (Returned, m1[0 := 0])
      else (if Middle(m1) == 0 then Returned else AlignmentFault, m1)
  }

  /** The retry loop.  `keeps` says for each round whether its store succeeds. */
  method InitSemaphore(memory: array<u64>, sem: nat, keeps: nat -> bool) returns (end: End)
    requires sem < memory.Length && memory.Length >= 2
    modifies memory
    ensures (end, memory[..]) == AfterInit(old(memory[..]), sem, keeps(0), keeps(1))
  {
    ghost var m := memory[..];
    var x0, round := sem, 0;
    while true
      invariant x0 < memory.Length && round <= 1
      invariant round == 0 ==> x0 == sem && memory[..] == m
      invariant round == 1 ==> x0 == 0 && keeps(0) && memory[..] == m[sem := 0] && LowHalf(memory[0]) != 0
      decreases 1 - round
    {
      var w2: nat := 1;
      if keeps(round) {
        memory[x0] := 0;
        w2 := 0;
      }
      LowHalfAtOne(memory[..]);
      var x2: nat := if w2 == 0 then memory[0] else LoadAtOne(memory[..]);
      if LowHalf(x2) == 0 {
        return Returned;
      }
      if w2 == 1 {
        return AlignmentFault;
      }
      x0, round := w2, round + 1;
    }
  }

  lemma LowHalfAtOne(m: seq<u64>)
    requires |m| >= 2
    ensures LowHalf(LoadAtOne(m)) == Middle(m)
  {
    var x, k := m[0] / 256, (m[1] % 256) * 0x100_0000;
    assert LoadAtOne(m) == k * WORD32 + x;
    DivModParts(x, WORD32);
    MulSum(k, x / WORD32, WORD32);
    ModUnique(LoadAtOne(m), WORD32, k + x / WORD32, x % WORD32);
  }

  /** A call returns with its word clear and no other word changed exactly when: the first store
      succeeds and the doubleword at address 0 is the semaphore itself, or has a clear low half,
      or is saved by a second store that fails unnoticed; or the first store fails unnoticed and
      the word was clear before. */
  lemma InitMeetsIntent(m: seq<u64>, sem: nat, first: bool, second: bool)
    requires sem < |m|
    ensures AfterInit(m, sem, first, second) == (Returned, m[sem := 0])
            <==> if first then sem == 0 || LowHalf(m[0]) == 0 || (!second && Middle(m) == 0)
                 else m[sem] == 0 && Middle(m) == 0
  {
    if first && sem != 0 {
      assert m[sem := 0][0] == m[0];
      assert second && LowHalf(m[0]) != 0 ==> m[sem := 0][0 := 0][0] != m[sem := 0][0];
    }
    if !first {
      assert m == m[sem := 0] <==> m[sem] == 0;
    }
  }

  /** A word other than the semaphore is lost: with code at address 0 the call clears it. */
  lemma InitClearsAddressZero()
    ensures AfterInit([0x1400_0001, 1], 1, true, true) == (Returned, [0, 0])
  {
    assert [0x1400_0001, 1][1 := 0] == [0x1400_0001, 0];
    assert [0x1400_0001, 0][0 := 0] == [0, 0];
  }
}
