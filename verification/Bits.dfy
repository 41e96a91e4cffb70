/** Bitwise operators on natural numbers, defined bit by bit, and the arithmetic they amount to. */
module Bits {

  function Pow2(k: nat): (r: nat)
    ensures r > 0
  {
    if k == 0 then 1 else 2 * Pow2(k - 1)
  }

  function And(a: nat, b: nat): nat
  {
    if a == 0 || b == 0 then 0
    else 2 * And(a / 2, b / 2) + (if a % 2 == 1 && b % 2 == 1 then 1 else 0)
  }

  function Or(a: nat, b: nat): nat
    decreases a + b
  {
    if a == 0 then b
    else if b == 0 then a
    else 2 * Or(a / 2, b / 2) + (if a % 2 == 1 || b % 2 == 1 then 1 else 0)
  }

  function Xor(a: nat, b: nat): nat
    decreases a + b
  {
    if a == 0 then b
    else if b == 0 then a
    else 2 * Xor(a / 2, b / 2) + (if a % 2 != b % 2 then 1 else 0)
  }

  function Shl(a: nat, k: nat): nat
  {
    if k == 0 then a else 2 * Shl(a, k - 1)
  }

  function Shr(a: nat, k: nat): nat
  {
    if k == 0 then a else Shr(a / 2, k - 1)
  }

  /** The low k bits: what a register of k bits keeps. */
  function Low(a: nat, k: nat): (r: nat)
    ensures r < Pow2(k) && r <= a
  {
    if k == 0 then 0 else 2 * Low(a / 2, k - 1) + a % 2
  }

  // ---------------------------------------------------------------- powers of two

  lemma {:induction false} Pow2Monotone(j: nat, k: nat)
    requires j <= k
    ensures Pow2(j) <= Pow2(k)
  {
    if j < k {
      Pow2Monotone(j, k - 1);
    }
  }

  /** Seven doublings at once. */
  lemma Pow2Seven(k: nat)
    ensures Pow2(k + 7) == 128 * Pow2(k)
  {
    assert Pow2(k + 2) == 4 * Pow2(k);
    assert Pow2(k + 4) == 4 * Pow2(k + 2);
    assert Pow2(k + 6) == 4 * Pow2(k + 4);
  }

  lemma Pow2Eight(k: nat)
    ensures Pow2(k + 8) == 256 * Pow2(k)
  {
    Pow2Seven(k + 1);
  }

  lemma Pow2Of8()
    ensures Pow2(8) == 256
  {
    Pow2Eight(0);
  }

  lemma Pow2Of16()
    ensures Pow2(16) == 0x1_0000
  {
    Pow2Of8();
    Pow2Eight(8);
  }

  lemma Pow2Of32()
    ensures Pow2(32) == 0x1_0000_0000
  {
    Pow2Of16();
    Pow2Eight(16);
    Pow2Eight(24);
  }

  lemma Pow2Of64()
    ensures Pow2(64) == 0x1_0000_0000_0000_0000
  {
    Pow2Of32();
    Pow2Eight(32);
    Pow2Eight(40);
    Pow2Eight(48);
    Pow2Eight(56);
  }

  // ---------------------------------------------------------------- masks, shifts and carries

  lemma {:induction false} LowFits(a: nat, k: nat)
    requires a < Pow2(k)
    ensures Low(a, k) == a
  {
    if k > 0 {
      LowFits(a / 2, k - 1);
    }
  }

  /** A multiple of 2^k above the low bits is dropped. */
  lemma {:induction false} LowDrops(a: nat, q: nat, k: nat)
    ensures Low(a + Shl(q, k), k) == Low(a, k)
  {
    if k > 0 {
      LowDrops(a / 2, q, k - 1);
      assert (a + Shl(q, k)) / 2 == a / 2 + Shl(q, k - 1);
    }
  }

  /** Masking with k ones keeps the low k bits. */
  lemma {:induction false} AndMask(a: nat, k: nat)
    ensures And(a, Pow2(k) - 1) == Low(a, k)
  {
    if k > 0 && a > 0 {
      AndMask(a / 2, k - 1);
      assert (Pow2(k) - 1) / 2 == Pow2(k - 1) - 1 && (Pow2(k) - 1) % 2 == 1;
    } else if k > 0 {
      LowFits(0, k);
    }
  }

  /** Testing one bit. */
  lemma {:induction false} AndBit(a: nat, k: nat)
    ensures And(a, Pow2(k)) == (if Shr(a, k) % 2 == 1 then Pow2(k) else 0)
  {
    if k > 0 {
      AndBit(a / 2, k - 1);
      assert Pow2(k) / 2 == Pow2(k - 1) && Pow2(k) % 2 == 0;
    } else {
      assert And(a / 2, 0) == 0;
    }
  }

  /** Or-ing in bits above the top of `a` is addition. */
  lemma {:induction false} OrDisjoint(a: nat, b: nat, k: nat)
    requires a < Pow2(k)
    ensures Or(a, Shl(b, k)) == a + Shl(b, k)
  {
    if k > 0 && a > 0 && b > 0 {
      OrDisjoint(a / 2, b, k - 1);
      ShlPositive(b, k);
    } else if b == 0 {
      ShlZero(k);
    }
  }

  lemma {:induction false} ShlPositive(b: nat, k: nat)
    ensures Shl(b, k) >= b
  {
    if k > 0 {
      ShlPositive(b, k - 1);
    }
  }

  lemma {:induction false} ShlZero(k: nat)
    ensures Shl(0, k) == 0
  {
    if k > 0 {
      ShlZero(k - 1);
    }
  }

  lemma {:induction false} ShlOne(k: nat)
    ensures Shl(1, k) == Pow2(k)
  {
    if k > 0 {
      ShlOne(k - 1);
    }
  }

  /** Shifting by k: additive, monotone, and at most 2^(m + k) for m bits. */
  lemma {:induction false} ShlAdd(a: nat, b: nat, k: nat)
    ensures Shl(a + b, k) == Shl(a, k) + Shl(b, k)
  {
    if k > 0 {
      ShlAdd(a, b, k - 1);
    }
  }

  lemma {:induction false} ShlSeven(a: nat, k: nat)
    ensures Shl(128 * a, k) == Shl(a, k + 7)
  {
    if k > 0 {
      ShlSeven(a, k - 1);
    } else {
      assert Shl(a, 1) == 2 * a;
      assert Shl(a, 2) == 4 * a;
      assert Shl(a, 4) == 4 * Shl(a, 2);
      assert Shl(a, 6) == 4 * Shl(a, 4);
    }
  }

  /** A register of n bits keeps the bits of `a` that the shift leaves inside it. */
  lemma {:induction false} LowOfShl(a: nat, k: nat, n: nat)
    requires k <= n
    ensures Low(Shl(a, k), n) == Shl(Low(a, n - k), k)
  {
    if k > 0 {
      LowOfShl(a, k - 1, n - 1);
      var y := Shl(a, k - 1);
      assert 2 * y / 2 == y && 2 * y % 2 == 0;
    }
  }

  lemma {:induction false} ShlBound(a: nat, m: nat, k: nat)
    requires a < Pow2(m)
    ensures Shl(a, k) + Pow2(k) <= Pow2(m + k)
  {
    if k > 0 {
      ShlBound(a, m, k - 1);
    }
  }

  lemma {:induction false} ShlPow2(m: nat, k: nat)
    ensures Shl(Pow2(m), k) == Pow2(m + k)
  {
    if k > 0 {
      ShlPow2(m, k - 1);
    }
  }

  lemma LowBit(a: nat)
    ensures And(a, 1) == a % 2
  {
    assert a / 2 == 0 || And(a / 2, 0) == 0;
  }

  lemma {:induction false} XorOnes(a: nat, k: nat)
    requires a < Pow2(k)
    ensures Xor(a, Pow2(k) - 1) == Pow2(k) - 1 - a
  {
    if k > 0 {
      XorOnes(a / 2, k - 1);
      assert (Pow2(k) - 1) / 2 == Pow2(k - 1) - 1;
    }
  }

  lemma XorZero(a: nat)
    ensures Xor(a, 0) == a
  {
  }

  /** A number is its low bits and the others shifted back into place; shifting multiplies. */
  lemma {:induction false} LowAndHigh(a: nat, k: nat)
    ensures a == Low(a, k) + Shl(Shr(a, k), k)
  {
    if k > 0 {
      LowAndHigh(a / 2, k - 1);
    }
  }

  lemma {:induction false} ShlIsProduct(a: nat, k: nat)
    ensures Shl(a, k) == a * Pow2(k)
  {
    if k > 0 {
      ShlIsProduct(a, k - 1);
      assert 2 * (a * Pow2(k - 1)) == a * (2 * Pow2(k - 1));
    }
  }
}
