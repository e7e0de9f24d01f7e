/** Words as sets of bits: masks, shifts, and counting. */
module BitWords {
  import opened Bits

  predicate Bit(x: nat, k: nat)
    decreases k
  {
    if k == 0 then x % 2 == 1 else Bit(x / 2, k - 1)
  }

  /** The number of bits set. */
  function Count(x: nat): nat {
    if x == 0 then 0 else x % 2 + Count(x / 2)
  }

  /** The C operator `|`. */
  function Or(a: nat, b: nat): nat
    decreases a + b
  {
    if a == 0 && b == 0 then 0
    else 2 * Or(a / 2, b / 2) + (if a % 2 == 1 || b % 2 == 1 then 1 else 0)
  }

  /** `a & ~b`. */
  function AndNot(a: nat, b: nat): nat {
    if a == 0 then 0
    else 2 * AndNot(a / 2, b / 2) + (if a % 2 == 1 && b % 2 == 0 then 1 else 0)
  }

  /** `MASK(n)`: the low `n` bits. */
  function Mask(n: nat): nat {
    Pow2(n) - 1
  }

  // ----- bits of results -----

  lemma {:induction false} ZeroBit(k: nat)
    ensures !Bit(0, k)
  {
    if k > 0 {
      ZeroBit(k - 1);
    }
  }

  lemma {:induction false} AndBit(a: nat, b: nat, k: nat)
    ensures Bit(And(a, b), k) <==> Bit(a, k) && Bit(b, k)
    decreases k
  {
    if a == 0 && b == 0 {
      ZeroBit(k);
    } else if k > 0 {
      AndBit(a / 2, b / 2, k - 1);
    }
  }

  lemma {:induction false} OrBit(a: nat, b: nat, k: nat)
    ensures Bit(Or(a, b), k) <==> Bit(a, k) || Bit(b, k)
    decreases k
  {
    if a == 0 && b == 0 {
      ZeroBit(k);
    } else if k > 0 {
      OrBit(a / 2, b / 2, k - 1);
    }
  }

  lemma {:induction false} AndNotBit(a: nat, b: nat, k: nat)
    ensures Bit(AndNot(a, b), k) <==> Bit(a, k) && !Bit(b, k)
    decreases k
  {
    if a == 0 {
      ZeroBit(k);
    } else if k > 0 {
      AndNotBit(a / 2, b / 2, k - 1);
    }
  }

  lemma {:induction false} MaskBit(n: nat, k: nat)
    ensures Bit(Mask(n), k) <==> k < n
    decreases n
  {
    if n == 0 {
      ZeroBit(k);
    } else {
      assert Mask(n) == 2 * Mask(n - 1) + 1;
      if k > 0 {
        MaskBit(n - 1, k - 1);
      }
    }
  }

  lemma {:induction false} ShiftBit(x: nat, o: nat, k: nat)
    ensures Bit(x * Pow2(o), k) <==> k >= o && Bit(x, k - o)
    decreases o
  {
    if o > 0 {
      Doubled(x, o);
      if k > 0 {
        ShiftBit(x, o - 1, k - 1);
      }
    }
  }

  lemma Doubled(x: nat, o: nat)
    requires o > 0
    ensures x * Pow2(o) == 2 * (x * Pow2(o - 1))
  {
    assert Pow2(o) == 2 * Pow2(o - 1);
  }

  /** The bits `o` to `o + n`. */
  lemma {:induction false} FieldBit(n: nat, o: nat, k: nat)
    ensures Bit(Mask(n) * Pow2(o), k) <==> o <= k < o + n
  {
    ShiftBit(Mask(n), o, k);
    if k >= o {
      MaskBit(n, k - o);
    }
  }

  /** A set bit of a word that is not zero. */
  lemma {:induction false} SomeBit(x: nat) returns (k: nat)
    requires x > 0
    ensures Bit(x, k)
  {
    if x % 2 == 1 {
      k := 0;
    } else {
      k := SomeBit(x / 2);
      k := k + 1;
    }
  }

  lemma {:induction false} HighBit(x: nat, n: nat, k: nat)
    requires x < Pow2(n) && k >= n
    ensures !Bit(x, k)
    decreases n
  {
    if n == 0 {
      ZeroBit(k);
    } else {
      HighBit(x / 2, n - 1, k - 1);
    }
  }

  /** A word is determined by its bits. */
  lemma {:induction false} SameBits(x: nat, y: nat)
    requires forall k: nat :: Bit(x, k) == Bit(y, k)
    ensures x == y
    decreases x + y
  {
    if x == 0 && y > 0 {
      var k := SomeBit(y);
      ZeroBit(k);
    } else if y == 0 && x > 0 {
      var k := SomeBit(x);
      ZeroBit(k);
    } else if x > 0 {
      assert Bit(x, 0) == Bit(y, 0);
      forall k: nat ensures Bit(x / 2, k) == Bit(y / 2, k) {
        assert Bit(x, k + 1) == Bit(y, k + 1);
      }
      SameBits(x / 2, y / 2);
    }
  }

  // ----- bounds -----

  lemma {:induction false} OrBound(a: nat, b: nat, n: nat)
    requires a < Pow2(n) && b < Pow2(n)
    ensures Or(a, b) < Pow2(n)
    decreases n
  {
    if n > 0 {
      OrBound(a / 2, b / 2, n - 1);
    }
  }

  lemma {:induction false} AndNotBound(a: nat, b: nat)
    ensures AndNot(a, b) <= a
  {
    if a > 0 {
      AndNotBound(a / 2, b / 2);
    }
  }

  lemma {:induction false} FieldBound(n: nat, o: nat)
    ensures Mask(n) * Pow2(o) < Pow2(n + o)
    decreases o
  {
    if o > 0 {
      Doubled(Mask(n), o);
      FieldBound(n, o - 1);
    }
  }

  // ----- counting -----

  lemma {:induction false} CountMask(n: nat)
    ensures Count(Mask(n)) == n
  {
    if n > 0 {
      assert Mask(n) == 2 * Mask(n - 1) + 1;
      CountMask(n - 1);
    }
  }

  lemma {:induction false} CountShift(x: nat, o: nat)
    ensures Count(x * Pow2(o)) == Count(x)
  {
    if o > 0 {
      Doubled(x, o);
      CountShift(x, o - 1);
    }
  }

  lemma {:induction false} CountOr(a: nat, b: nat)
    requires And(a, b) == 0
    ensures Count(Or(a, b)) == Count(a) + Count(b)
    decreases a + b
  {
    if a > 0 || b > 0 {
      CountOr(a / 2, b / 2);
    }
  }

  lemma {:induction false} CountAndNot(a: nat, b: nat)
    requires And(a, b) == b
    ensures Count(b) <= Count(a) && Count(AndNot(a, b)) == Count(a) - Count(b)
    decreases a
  {
    if a == 0 {
      AndZero(b);
    } else {
      assert And(a, b) / 2 == And(a / 2, b / 2) && (b % 2 == 1 ==> a % 2 == 1);
      hide And;
      CountAndNot(a / 2, b / 2);
      assert AndNot(a, b) / 2 == AndNot(a / 2, b / 2);
    }
  }

  lemma {:induction false} CountBound(x: nat, n: nat)
    requires x < Pow2(n)
    ensures Count(x) <= n
    decreases n
  {
    if x > 0 {
      CountBound(x / 2, n - 1);
    }
  }

  // ----- fields -----

  /** The bits `o` to `o + n` are clear. */
  ghost predicate Clear(x: nat, o: nat, n: nat) {
    forall k :: o <= k < o + n ==> !Bit(x, k)
  }

  ghost predicate AllSet(x: nat, o: nat, n: nat) {
    forall k :: o <= k < o + n ==> Bit(x, k)
  }

  /** `is_free`. */
  lemma {:induction false} ClearIsFree(x: nat, o: nat, n: nat)
    ensures And(x, Mask(n) * Pow2(o)) == 0 <==> Clear(x, o, n)
  {
    var m := Mask(n) * Pow2(o);
    if And(x, m) == 0 {
      forall k | o <= k < o + n ensures !Bit(x, k) {
        AndBit(x, m, k);
        FieldBit(n, o, k);
        ZeroBit(k);
      }
    } else if Clear(x, o, n) {
      var k := SomeBit(And(x, m));
      AndBit(x, m, k);
      FieldBit(n, o, k);
    }
  }

  /** Setting a clear field. */
  lemma {:induction false} FieldSet(x: nat, o: nat, n: nat)
    requires x < Pow2(32) && o + n <= 32 && Clear(x, o, n)
    ensures var y := Or(x, Mask(n) * Pow2(o));
            && y < Pow2(32) && Count(y) == Count(x) + n
            && forall k: nat :: Bit(y, k) <==> Bit(x, k) || o <= k < o + n
  {
    hide Or, And, Count, Pow2, Bit, Mask;
    var m := Mask(n) * Pow2(o);
    ClearIsFree(x, o, n);
    CountOr(x, m);
    CountShift(Mask(n), o);
    CountMask(n);
    FieldBound(n, o);
    Pow2Mono(n + o, 32);
    OrBound(x, m, 32);
    forall k: nat ensures Bit(Or(x, m), k) <==> Bit(x, k) || o <= k < o + n {
      OrBit(x, m, k);
      FieldBit(n, o, k);
    }
  }

  /** Clearing a field that is set. */
  lemma {:induction false} FieldCleared(x: nat, o: nat, n: nat)
    requires x < Pow2(32) && AllSet(x, o, n)
    ensures var y := AndNot(x, Mask(n) * Pow2(o));
            && y < Pow2(32) && Count(y) + n == Count(x)
            && forall k: nat :: Bit(y, k) <==> Bit(x, k) && !(o <= k < o + n)
  {
    hide AndNot, And, Count, Pow2, Bit, Mask;
    var m := Mask(n) * Pow2(o);
    forall k: nat ensures Bit(And(x, m), k) == Bit(m, k) {
      AndBit(x, m, k);
      FieldBit(n, o, k);
    }
    SameBits(And(x, m), m);
    CountAndNot(x, m);
    CountShift(Mask(n), o);
    CountMask(n);
    AndNotBound(x, m);
    forall k: nat ensures Bit(AndNot(x, m), k) <==> Bit(x, k) && !(o <= k < o + n) {
      AndNotBit(x, m, k);
      FieldBit(n, o, k);
    }
  }
}
