/** Bit-level arithmetic on unbounded naturals, one bit at a time.
    Machine words of the program are naturals below 2^32. */
module Bits {

  function Pow2(n: nat): (p: nat)
    ensures p >= 1
  {
    if n == 0 then 1 else 2 * Pow2(n - 1)
  }

  /** The low `k` bits of `a` are zero. */
  predicate Aligned(a: nat, k: nat) {
    k == 0 || (a % 2 == 0 && Aligned(a / 2, k - 1))
  }

  /** The C operator `^`. */
  function Xor(a: nat, b: nat): nat
    decreases a + b
  {
    if a == 0 && b == 0 then 0
    else 2 * Xor(a / 2, b / 2) + (if a % 2 == b % 2 then 0 else 1)
  }

  /** The C operator `&`. */
  function And(a: nat, b: nat): nat
    decreases a + b
  {
    if a == 0 && b == 0 then 0
    else 2 * And(a / 2, b / 2) + (if a % 2 == 1 && b % 2 == 1 then 1 else 0)
  }

  lemma {:induction false} Pow2Mono(j: nat, k: nat)
    requires j <= k
    ensures Pow2(j) <= Pow2(k)
    decreases k
  {
    if j < k {
      Pow2Mono(j, k - 1);
    }
  }

  /** Zero low bits and divisibility by a power of two are the same thing. */
  lemma {:induction false} AlignedIsDivisible(a: nat, k: nat)
    ensures Aligned(a, k) <==> a % Pow2(k) == 0
  {
    if k > 0 {
      AlignedIsDivisible(a / 2, k - 1);
      HalvedRemainder(a, Pow2(k - 1));
    }
  }

  lemma HalvedRemainder(a: nat, p: nat)
    requires p > 0
    ensures a % (2 * p) == 2 * ((a / 2) % p) + a % 2
  {
    var q, r := (a / 2) / p, (a / 2) % p;
    assert a / 2 == p * q + r;
    Regroup(p, q);
    DivisionUnique(a, 2 * p, q, 2 * r + a % 2);
  }

  lemma Regroup(p: int, q: int)
    ensures 2 * (p * q) == (2 * p) * q
  {
  }

  lemma SmallMultiple(d: int, x: int)
    requires d > 0
    ensures x >= 1 ==> d * x >= d
    ensures x <= -1 ==> d * x <= -d
  {
    if x >= 1 {
      assert d * x == d * (x - 1) + d;
    } else if x <= -1 {
      assert d * x == d * (x + 1) - d;
    }
  }

  lemma DivisionUnique(a: int, d: int, q: int, r: int)
    requires d > 0 && 0 <= r < d && a == d * q + r
    ensures a % d == r
  {
    var q', r' := a / d, a % d;
    assert d * q - d * q' == d * (q - q');
    SmallMultiple(d, q - q');
  }

  lemma {:induction false} AlignedWeaken(a: nat, j: nat, k: nat)
    requires j <= k && Aligned(a, k)
    ensures Aligned(a, j)
  {
    if j > 0 {
      AlignedWeaken(a / 2, j - 1, k - 1);
    }
  }

  lemma {:induction false} AlignedSum(a: nat, b: nat, k: nat)
    requires Aligned(a, k) && Aligned(b, k)
    ensures Aligned(a + b, k)
    ensures a >= b ==> Aligned(a - b, k)
  {
    if k > 0 {
      AlignedSum(a / 2, b / 2, k - 1);
    }
  }

  lemma {:induction false} AlignedPow2(j: nat, k: nat)
    requires j <= k
    ensures Aligned(Pow2(k), j)
  {
    if j > 0 {
      AlignedPow2(j - 1, k - 1);
    }
  }

  /** Two naturally aligned windows that meet are nested. */
  lemma {:induction false} AlignedNest(a: nat, j: nat, b: nat, k: nat)
    requires j <= k && Aligned(a, j) && Aligned(b, k)
    requires a < b + Pow2(k) && b < a + Pow2(j)
    ensures b <= a && a + Pow2(j) <= b + Pow2(k)
  {
    if j > 0 {
      AlignedNest(a / 2, j - 1, b / 2, k - 1);
    }
  }

  lemma {:induction false} XorZero(a: nat)
    ensures Xor(a, 0) == a
  {
    if a != 0 {
      XorZero(a / 2);
    }
  }

  /** Flipping bit `k` adds `2^k` when the bit is clear and takes it away when it is set. */
  lemma {:induction false} XorBit(a: nat, k: nat)
    ensures Xor(a, Pow2(k)) == if (a / Pow2(k)) % 2 == 0 then a + Pow2(k) else a - Pow2(k)
  {
    if k == 0 {
      XorZero(a / 2);
      assert Xor(a, 1) == 2 * Xor(a / 2, 0) + (if a % 2 == 1 then 0 else 1);
    } else {
      var h, q := a / 2, Pow2(k - 1);
      XorBit(h, k - 1);
      XorDouble(a, q);
      DivideTwice(a, q);
      assert a == 2 * h + a % 2 && Pow2(k) == 2 * q;
    }
  }

  lemma XorDouble(a: nat, q: nat)
    ensures Xor(a, 2 * q) == 2 * Xor(a / 2, q) + a % 2
  {
    assert (2 * q) / 2 == q && (2 * q) % 2 == 0;
  }

  lemma DivideTwice(a: nat, q: nat)
    requires q > 0
    ensures a / (2 * q) == (a / 2) / q
  {
    var h := a / 2;
    var t := h / q;
    assert h == q * t + h % q;
    assert 2 * (q * t) == (2 * q) * t;
    QuotientUnique(a, 2 * q, t, 2 * (h % q) + a % 2);
  }

  lemma QuotientUnique(a: int, d: int, q: int, r: int)
    requires d > 0 && 0 <= r < d && a == d * q + r
    ensures a / d == q
  {
    var q', r' := a / d, a % d;
    assert d * q - d * q' == d * (q - q');
    SmallMultiple(d, q - q');
  }

  lemma {:induction false} AlignedNext(a: nat, k: nat)
    requires Aligned(a, k)
    ensures Aligned(a, k + 1) <==> (a / Pow2(k)) % 2 == 0
  {
    if k > 0 {
      AlignedNext(a / 2, k - 1);
      DivideTwice(a, Pow2(k - 1));
    } else {
      assert Aligned(a, 1) <==> a % 2 == 0;
    }
  }

  lemma {:induction false} AlignedOdd(a: nat, k: nat)
    requires Aligned(a, k) && !Aligned(a, k + 1)
    ensures a >= Pow2(k) && Aligned(a - Pow2(k), k + 1)
  {
    if k == 0 {
      assert Aligned(a - 1, 1) <==> (a - 1) % 2 == 0;
    } else {
      AlignedOdd(a / 2, k - 1);
      assert (a - Pow2(k)) / 2 == a / 2 - Pow2(k - 1);
    }
  }

  lemma {:induction false} AlignedEven(a: nat, k: nat)
    requires Aligned(a, k + 1)
    ensures !Aligned(a + Pow2(k), k + 1)
  {
    if k > 0 {
      AlignedEven(a / 2, k - 1);
      assert (a + Pow2(k)) / 2 == a / 2 + Pow2(k - 1);
    }
  }

  /** The window that starts at `a` and the one that starts at `a ^ 2^k` are the two halves of
      one window of twice the size. */
  lemma XorFlipsBit(a: nat, k: nat)
    requires Aligned(a, k)
    ensures Xor(a, Pow2(k)) == if Aligned(a, k + 1) then a + Pow2(k) else a - Pow2(k)
    ensures !Aligned(a, k + 1) ==> a >= Pow2(k) && Aligned(a - Pow2(k), k + 1)
    ensures Aligned(a, k + 1) ==> !Aligned(a + Pow2(k), k + 1)
    ensures Aligned(Xor(a, Pow2(k)), k)
    ensures Xor(Xor(a, Pow2(k)), Pow2(k)) == a
  {
    var b := Xor(a, Pow2(k));
    XorBit(a, k);
    AlignedNext(a, k);
    AlignedPow2(k, k);
    if Aligned(a, k + 1) {
      AlignedEven(a, k);
      AlignedSum(a, Pow2(k), k);
    } else {
      AlignedOdd(a, k);
      AlignedWeaken(a - Pow2(k), k, k + 1);
    }
    XorBit(b, k);
    AlignedNext(b, k);
  }

  lemma {:induction false} AndZero(b: nat)
    ensures And(0, b) == 0
    decreases b
  {
    if b != 0 {
      AndZero(b / 2);
    }
  }

  lemma {:induction false} AndSelf(a: nat)
    ensures And(a, a) == a
  {
    if a != 0 {
      AndSelf(a / 2);
    }
  }

  predicate IsPow2(s: nat) {
    s == 1 || (s > 0 && s % 2 == 0 && IsPow2(s / 2))
  }

  lemma {:induction false} IsPow2Exponent(s: nat)
    requires IsPow2(s)
    ensures exists k: nat :: s == Pow2(k)
  {
    if s == 1 {
      assert s == Pow2(0);
    } else {
      IsPow2Exponent(s / 2);
      var k: nat :| s / 2 == Pow2(k);
      assert s == Pow2(k + 1);
    }
  }

  lemma {:induction false} Pow2IsPow2(k: nat)
    ensures IsPow2(Pow2(k))
  {
    if k > 0 {
      Pow2IsPow2(k - 1);
    }
  }

  /** `s & (s - 1)` vanishes exactly on powers of two. */
  lemma {:induction false} AndPredecessor(s: nat)
    requires s > 0
    ensures And(s, s - 1) == 0 <==> IsPow2(s)
  {
    if s == 1 {
      assert And(1, 0) == 2 * And(0, 0);
    } else if s % 2 == 1 {
      AndSelf(s / 2);
      assert And(s, s - 1) == 2 * And(s / 2, s / 2);
    } else {
      AndPredecessor(s / 2);
      assert (s - 1) / 2 == s / 2 - 1;
      assert And(s, s - 1) == 2 * And(s / 2, s / 2 - 1);
    }
  }

  /** So the test decides whether a size is a power of two. */
  lemma PowerOfTwoTest(s: nat)
    requires s > 0
    ensures And(s, s - 1) == 0 <==> exists k: nat :: s == Pow2(k)
  {
    AndPredecessor(s);
    if IsPow2(s) {
      IsPow2Exponent(s);
    }
    forall k: nat | s == Pow2(k) ensures IsPow2(s) {
      Pow2IsPow2(k);
    }
  }
}
