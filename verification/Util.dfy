/** The integer helpers of include/util.h. */
module Util {
  import opened Word

  /** Number of one bits. */
  function Ones(v: nat): nat {
    if v == 0 then 0 else v % 2 + Ones(v / 2)
  }

  lemma {:induction false} OnesBound(v: nat, k: nat)
    requires v < Pow2(k)
    ensures Ones(v) <= k
    decreases k
  {
    if v > 0 { OnesBound(v / 2, k - 1); }
  }

  lemma {:induction false} OnesOfPow2(k: nat)
    ensures Ones(Pow2(k)) == 1
  {
    if k == 0 {
      assert Ones(1) == 1 + Ones(0);
    } else {
      OnesOfPow2(k - 1);
      assert (2 * Pow2(k - 1)) / 2 == Pow2(k - 1) && (2 * Pow2(k - 1)) % 2 == 0;
    }
  }

  lemma {:induction false} OneBit(v: nat, w: nat) returns (k: nat)
    requires v < Pow2(w) && Ones(v) == 1
    ensures k < w && v == Pow2(k)
    decreases w
  {
    if v % 2 == 1 {
      if v / 2 > 0 { NoOnes(v / 2); }
      k := 0;
    } else {
      k := OneBit(v / 2, w - 1);
      k := k + 1;
    }
  }

  lemma {:induction false} NoOnes(v: nat)
    requires v > 0
    ensures Ones(v) > 0
  {
    if v % 2 == 0 { NoOnes(v / 2); }
  }

  lemma OnesStep(v: nat)
    requires v > 0
    ensures Ones(v) == And(v, 1) + Ones(v / 2)
  {
    AndOne(v);
  }

  ghost predicate IsPowerOfTwo(v: nat) {
    exists k: nat :: k < 64 && v == Pow2(k)
  }

  lemma OnesOfPowers(val: nat)
    requires val < WORD
    ensures Ones(val) < 2 <==> val == 0 || IsPowerOfTwo(val)
  {
    if val != 0 { NoOnes(val); }
    if Ones(val) == 1 {
      assert Pow2(64) == WORD by { Pow2Values(); }
      var k := OneBit(val, 64);
    }
    if IsPowerOfTwo(val) {
      var k: nat :| k < 64 && val == Pow2(k);
      OnesOfPow2(k);
    }
  }

  lemma CountFits(count: nat, bit: nat, rest: nat)
    requires count + (bit + rest) <= 64
    ensures (count + bit) % 256 == count + bit
  {
  }

  /** Shifts the value right, adding up the bits that fall out in a u8. */
  method IsPow2(val: nat) returns (r: bool)
    requires val < WORD
    ensures r <==> val == 0 || IsPowerOfTwo(val)
  {
    assert Ones(val) <= 64 by { Pow2Values(); OnesBound(val, 64); }
    var count, v := 0, val;
    while v != 0
      invariant 0 <= count && count + Ones(v) == Ones(val) && Ones(val) <= 64
    {
      OnesStep(v);
      var bit := And(v, 1);
      CountFits(count, bit, Ones(v / 2));
      count := (count + bit) % 256;
      v := v / 2;
    }
    r := count < 2;
    OnesOfPowers(val);
  }

  function CeilDiv(a: nat, b: nat): nat
    requires b > 0
  {
    ((a + (b - 1)) % WORD) / b
  }

  function AlignUp(a: nat, align: nat): nat
    requires 0 < align < WORD
  {
    And((a + (align - 1)) % WORD, Not64(align - 1))
  }

  function AlignDown(a: nat, align: nat): nat
    requires 0 < align < WORD
  {
    And(a, Not64(align - 1))
  }

  /** Rounding down and up are the nearest multiples, for the alignments ispow2 accepts. */
  lemma AlignDownRounds(a: nat, align: nat)
    requires a < WORD && IsPowerOfTwo(align)
    ensures align < WORD && AlignDown(a, align) == (a / align) * align
    ensures AlignDown(a, align) % align == 0 && AlignDown(a, align) <= a < AlignDown(a, align) + align
  {
    var k: nat :| k < 64 && align == Pow2(k);
    Pow2Values();
    Pow2Strict(k, 64);
    assert Not64(align - 1) == Pow2(64) - Pow2(k);
    assert AlignDown(a, align) == a - a % align by { AndHighMask(a, k, 64); }
    DivModParts(a, align);
  }

  lemma AlignUpRounds(a: nat, align: nat)
    requires IsPowerOfTwo(align) && a + (align - 1) < WORD
    ensures align < WORD && AlignUp(a, align) == CeilDiv(a, align) * align
    ensures AlignUp(a, align) % align == 0 && a <= AlignUp(a, align) < a + align
  {
    Fits(a + (align - 1));
    AlignDownRounds(a + (align - 1), align);
    assert AlignUp(a, align) == AlignDown(a + (align - 1), align);
  }
}
