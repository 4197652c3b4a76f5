/** Machine words as natural numbers.  The bitwise operators are defined bit by bit, and
    the lemmas turn the masks the kernel uses into division and remainder. */
module Word {

  /** One more than the largest u64. */
  const WORD: nat := 0x1_0000_0000_0000_0000

  /** One more than the largest u32. */
  const WORD32: nat := 0x1_0000_0000

  /** Addresses have 40 bits: the early boot code maps no more. */
  const ADDRESS_SPACE: nat := 0x100_0000_0000

  type u64 = x: nat | x < WORD

  function Pow2(k: nat): (p: nat)
    ensures p >= 1
  {
    if k == 0 then 1 else 2 * Pow2(k - 1)
  }

  /** C's `x & y`. */
  function And(x: nat, y: nat): nat {
    if x == 0 || y == 0 then 0
    else 2 * And(x / 2, y / 2) + (if x % 2 == 1 && y % 2 == 1 then 1 else 0)
  }

  /** C's `x | y`. */
  function Or(x: nat, y: nat): nat
    decreases x + y
  {
    if x == 0 then y else if y == 0 then x
    else 2 * Or(x / 2, y / 2) + (if x % 2 == 1 || y % 2 == 1 then 1 else 0)
  }

  /** C's `~x` on a u64. */
  function Not64(x: nat): nat
    requires x < WORD
  {
    WORD - 1 - x
  }

  lemma Pow2Monotone(a: nat, b: nat)
    requires a <= b
    ensures Pow2(a) <= Pow2(b)
  {
    if a < b { Pow2Monotone(a, b - 1); }
  }

  lemma Pow2Strict(a: nat, b: nat)
    requires a < b
    ensures Pow2(a) < Pow2(b)
  {
    Pow2Monotone(a + 1, b);
  }

  lemma ModDouble(x: nat, m: nat)
    requires m > 0
    ensures x % (2 * m) == 2 * ((x / 2) % m) + x % 2
  {
    var q, r := (x / 2) / m, (x / 2) % m;
    assert x == q * (2 * m) + (2 * r + x % 2) by {
      assert x / 2 == q * m + r;
      assert x == 2 * (x / 2) + x % 2;
      assert 2 * (q * m + r) == q * (2 * m) + 2 * r;
    }
    ModUnique(x, 2 * m, q, 2 * r + x % 2);
  }

  /** Quotient and remainder are unique. */
  lemma ModUnique(x: int, m: int, q: int, r: int)
    requires m > 0 && x == q * m + r && 0 <= r < m
    ensures x / m == q && x % m == r
  {
    var q', r' := x / m, x % m;
    assert (q - q') * m == r' - r && (q' - q) * m == r - r';
    if q > q' { MulGe(q - q', m); }
    if q < q' { MulGe(q' - q, m); }
  }

  lemma MulGe(a: int, m: int)
    requires a >= 1 && m >= 0
    ensures a * m >= m
  {
  }

  /** The k low bits of x. */
  function Low(x: nat, k: nat): nat {
    if k == 0 then 0 else 2 * Low(x / 2, k - 1) + x % 2
  }

  lemma {:induction false} LowIsMod(x: nat, k: nat)
    ensures Low(x, k) == x % Pow2(k)
  {
    if k > 0 {
      LowIsMod(x / 2, k - 1);
      ModDouble(x, Pow2(k - 1));
    }
  }

  /** The w-bit word whose low k bits are clear and whose other bits are set. */
  function Mask(k: nat, w: nat): nat
    requires k <= w
  {
    if w == 0 then 0 else if k == 0 then 2 * Mask(0, w - 1) + 1 else 2 * Mask(k - 1, w - 1)
  }

  lemma {:induction false} MaskIs(k: nat, w: nat)
    requires k <= w
    ensures Pow2(w) == Mask(k, w) + Pow2(k)
    decreases w
  {
    if k > 0 {
      MaskIs(k - 1, w - 1);
    } else if w > 0 {
      MaskIs(0, w - 1);
    }
  }

  lemma {:induction false} HighMask(x: nat, k: nat, w: nat)
    requires k <= w && x < Pow2(w)
    ensures And(x, Mask(k, w)) == x - Low(x, k)
    decreases w
  {
    if k > 0 {
      HighMask(x / 2, k - 1, w - 1);
      AndStep(x, Mask(k - 1, w - 1));
    } else if w > 0 {
      HighMask(x / 2, 0, w - 1);
      AndStep(x, Mask(0, w - 1));
    }
  }

  /** Masking a w-bit number with 2^w - 2^k clears its low k bits. */
  lemma AndHighMask(x: nat, k: nat, w: nat)
    requires k <= w && x < Pow2(w)
    ensures Pow2(k) <= Pow2(w) && And(x, Pow2(w) - Pow2(k)) == x - x % Pow2(k)
  {
    MaskIs(k, w);
    HighMask(x, k, w);
    LowIsMod(x, k);
  }

  lemma AndStep(x: nat, z: nat)
    ensures And(x, 2 * z) == 2 * And(x / 2, z)
    ensures And(x, 2 * z + 1) == 2 * And(x / 2, z) + x % 2
  {
    assert (2 * z) / 2 == z && (2 * z) % 2 == 0;
    assert (2 * z + 1) / 2 == z && (2 * z + 1) % 2 == 1;
  }

  /** Or-ing bit fields that do not overlap adds them. */
  lemma {:induction false} OrDisjoint(x: nat, y: nat, k: nat)
    requires x < Pow2(k)
    ensures Or(x, y * Pow2(k)) == x + y * Pow2(k)
    decreases k
  {
    if k == 0 || x == 0 || y == 0 {
    } else {
      var m := Pow2(k - 1);
      var z := y * m;
      OrDisjoint(x / 2, y, k - 1);
      assert y * Pow2(k) == 2 * z by { DoubleFactor(y, m); }
      assert z >= 1 by { MulGe(y, m); }
      OrStep(x, z);
    }
  }

  lemma AndOne(x: nat)
    ensures And(x, 1) == x % 2
  {
    AndStep(x, 0);
  }

  lemma DivModParts(a: nat, m: nat)
    requires m > 0
    ensures a == (a / m) * m + a % m && ((a / m) * m) % m == 0
  {
    ModUnique((a / m) * m, m, a / m, 0);
  }

  lemma MulMonotone(a: nat, b: nat, m: nat)
    requires a <= b
    ensures a * m <= b * m
  {
  }

  lemma MulSum(a: int, b: int, m: int)
    ensures (a + b) * m == a * m + b * m
  {
  }

  /** A value that fits a word is not changed by wrapping. */
  lemma Fits(x: nat)
    requires x < WORD
    ensures x % WORD == x
  {
  }

  lemma DoubleFactor(y: nat, m: nat)
    ensures y * (2 * m) == 2 * (y * m)
  {
  }

  lemma OrStep(x: nat, z: nat)
    requires x > 0 && z > 0
    ensures Or(x, 2 * z) == 2 * Or(x / 2, z) + x % 2
  {
    assert (2 * z) / 2 == z && (2 * z) % 2 == 0;
  }

  lemma Pow2Values()
    ensures Pow2(8) == 256 && Pow2(12) == 4096 && Pow2(29) == 0x2000_0000
    ensures Pow2(32) == WORD32 && Pow2(40) == 0x100_0000_0000 && Pow2(64) == WORD
  {
    assert Pow2(12) == 4096;
    assert Pow2(20) == 0x10_0000;
    assert Pow2(29) == 0x2000_0000;
    assert Pow2(40) == 0x100_0000_0000;
    assert Pow2(52) == 0x10_0000_0000_0000;
    assert Pow2(64) == 0x1_0000_0000_0000_0000;
  }
}
