/**
 Bits of natural numbers, and JavaScript's bitwise operators on 32-bit words. A word
 is represented by its unsigned value; every use in the codecs (`<<`, `|`, `>>>`, `&`)
 depends on that value only.
 */
module Words {

  const WORD: nat := 0x1_0000_0000

  function Pow2(k: nat): (p: nat)
    ensures p > 0
  {
    if k == 0 then 1 else 2 * Pow2(k - 1)
  }

  /** v times 2^k. */
  function Lsh(v: nat, k: nat): nat {
    if k == 0 then v else 2 * Lsh(v, k - 1)
  }

  /** v divided by 2^k; on words, `v >>> k`. */
  function Ushr(v: nat, k: nat): nat
    decreases k
  {
    if k == 0 then v else Ushr(v / 2, k - 1)
  }

  /** The low k bits of v. */
  function Low(v: nat, k: nat): (r: nat)
    ensures r < Pow2(k)
    decreases k
  {
    if k == 0 then 0 else v % 2 + 2 * Low(v / 2, k - 1)
  }

  /** `v << k`: the bits pushed past bit 31 are lost. */
  function Shl(v: nat, k: nat): nat {
    Low(Lsh(v, k), 32)
  }

  function Or(a: nat, b: nat): nat
    decreases a + b
  {
    if a == 0 && b == 0 then 0
    else (if a % 2 == 1 || b % 2 == 1 then 1 else 0) + 2 * Or(a / 2, b / 2)
  }

  function And(a: nat, b: nat): nat {
    if a == 0 then 0
    else (if a % 2 == 1 && b % 2 == 1 then 1 else 0) + 2 * And(a / 2, b / 2)
  }

  function Xor(a: nat, b: nat): nat
    decreases a + b
  {
    if a == 0 && b == 0 then 0
    else (if a % 2 != b % 2 then 1 else 0) + 2 * Xor(a / 2, b / 2)
  }

  // ---- shifting and cutting --------------------------------------------------------

  lemma {:induction false} LshTimes(v: nat, k: nat)
    ensures Lsh(v, k) == v * Pow2(k)
  {
    if k > 0 {
      LshTimes(v, k - 1);
      Doubled(v, Pow2(k - 1));
    }
  }

  lemma Doubled(v: nat, p: nat)
    ensures 2 * (v * p) == v * (2 * p)
  {}

  lemma {:induction false} LshAdd(a: nat, b: nat, k: nat)
    ensures Lsh(a + b, k) == Lsh(a, k) + Lsh(b, k)
  {
    if k > 0 {
      LshAdd(a, b, k - 1);
    }
  }

  lemma {:induction false} LshLsh(v: nat, a: nat, b: nat)
    ensures Lsh(Lsh(v, a), b) == Lsh(v, a + b)
  {
    if b > 0 {
      LshLsh(v, a, b - 1);
    }
  }

  lemma {:induction false} LshBound(v: nat, a: nat, k: nat, x: nat)
    requires v < Pow2(a) && x < Pow2(k)
    ensures Lsh(v, k) + x < Pow2(a + k)
  {
    if k > 0 {
      LshBound(v, a, k - 1, x / 2);
    }
  }

  /** A number is its high bits over its low bits. */
  lemma {:induction false} Split(v: nat, k: nat)
    ensures v == Lsh(Ushr(v, k), k) + Low(v, k)
    decreases k
  {
    if k > 0 {
      Split(v / 2, k - 1);
    }
  }

  /** Bits appended below are the low bits, and shifting them out restores the rest. */
  lemma {:induction false} Append(v: nat, k: nat, x: nat)
    requires x < Pow2(k)
    ensures Ushr(Lsh(v, k) + x, k) == v && Low(Lsh(v, k) + x, k) == x
  {
    if k > 0 {
      AppendBit(v, k, x);
      Append(v, k - 1, x / 2);
    }
  }

  lemma AppendBit(v: nat, k: nat, x: nat)
    requires k > 0
    ensures (Lsh(v, k) + x) / 2 == Lsh(v, k - 1) + x / 2 && (Lsh(v, k) + x) % 2 == x % 2
  {}

  /** The low a + k bits after appending k bits are the low a bits and those. */
  lemma {:induction false} LowAppend(v: nat, a: nat, k: nat, x: nat)
    requires x < Pow2(k)
    ensures Low(Lsh(v, k) + x, a + k) == Lsh(Low(v, a), k) + x
  {
    if k > 0 {
      AppendBit(v, k, x);
      LowAppend(v, a, k - 1, x / 2);
    }
  }

  /** The low a + b bits are the middle b bits over the low a bits. */
  lemma {:induction false} LowSplit(v: nat, a: nat, b: nat)
    ensures Low(v, a + b) == Lsh(Low(Ushr(v, a), b), a) + Low(v, a)
    decreases a
  {
    if a > 0 {
      LowSplit(v / 2, a - 1, b);
    }
  }

  /** Forgetting high bits first does not change the low ones. */
  lemma {:induction false} LowLow(v: nat, a: nat, b: nat)
    requires a <= b
    ensures Low(Low(v, b), a) == Low(v, a)
    decreases a
  {
    if a > 0 {
      LowLow(v / 2, a - 1, b - 1);
    }
  }

  lemma {:induction false} LowOfSmall(v: nat, k: nat)
    requires v < Pow2(k)
    ensures Low(v, k) == v
    decreases k
  {
    if k > 0 {
      LowOfSmall(v / 2, k - 1);
    }
  }

  lemma {:induction false} UshrBound(v: nat, a: nat, k: nat)
    requires v < Pow2(a + k)
    ensures Ushr(v, k) < Pow2(a)
    decreases k
  {
    if k > 0 {
      UshrBound(v / 2, a, k - 1);
    }
  }

  // ---- bitwise operators ----------------------------------------------------------

  /** Or-ing into cleared low bits is addition. */
  lemma {:induction false} OrLow(a: nat, b: nat, k: nat)
    requires b < Pow2(k)
    ensures Or(Lsh(a, k), b) == Lsh(a, k) + b
  {
    if k == 0 {
      OrZeroRight(a);
    } else {
      OrLow(a, b / 2, k - 1);
    }
  }

  lemma {:induction false} OrZeroRight(a: nat)
    ensures Or(a, 0) == a
  {
    if a > 0 {
      OrZeroRight(a / 2);
    }
  }

  lemma AndOdd(a: nat, m: nat)
    ensures And(a, 2 * m + 1) == a % 2 + 2 * And(a / 2, m)
  {}

  /** And-ing with k ones keeps the low k bits. */
  lemma {:induction false} AndMask(a: nat, k: nat)
    ensures And(a, Pow2(k) - 1) == Low(a, k)
    decreases k
  {
    if k == 0 {
      AndZero(a);
    } else if a > 0 {
      AndMask(a / 2, k - 1);
      AndOdd(a, Pow2(k - 1) - 1);
    } else {
      LowOfSmall(0, k);
    }
  }

  lemma {:induction false} AndZero(a: nat)
    ensures And(a, 0) == 0
  {
    if a > 0 {
      AndZero(a / 2);
    }
  }

  lemma {:induction false} OrIsZero(a: nat, b: nat)
    ensures Or(a, b) == 0 <==> a == 0 && b == 0
  {
    if a != 0 || b != 0 {
      OrIsZero(a / 2, b / 2);
    }
  }

  lemma {:induction false} XorIsZero(a: nat, b: nat)
    ensures Xor(a, b) == 0 <==> a == b
    decreases a + b
  {
    if a != 0 || b != 0 {
      XorIsZero(a / 2, b / 2);
    }
  }

  lemma ShlKeeps(v: nat, k: nat)
    requires k <= 32
    ensures Shl(v, k) == Lsh(Low(v, 32 - k), k)
  {
    hide Lsh, Low;
    assert Pow2(k) > 0;
    LowAppend(v, 32 - k, k, 0);
  }

  /** One accumulator step `(v << k) | x`: the low `a + k` bits of the new word are the
      low `a` bits of the old one followed by `x`, although the word itself wraps. */
  lemma ShiftIn(v: nat, k: nat, x: nat, a: nat)
    requires x < Pow2(k) && a + k <= 32
    ensures var w := Or(Shl(v, k), x);
            w < Pow2(32) == WORD && Low(w, a + k) == Lsh(Low(v, a), k) + x
  {
    hide Pow2, Lsh, Low, Shl, Or;
    var kept := Low(v, 32 - k);
    ShlKeeps(v, k);
    OrLow(kept, x, k);
    LshBound(kept, 32 - k, k, x);
    LowAppend(kept, a, k, x);
    LowLow(v, a, 32 - k);
    Pow32();
  }

  lemma Pow32()
    ensures Pow2(32) == WORD
  {
    assert Pow2(8) == 0x100;
    assert Pow2(16) == 0x1_0000;
    assert Pow2(24) == 0x100_0000;
  }
}
