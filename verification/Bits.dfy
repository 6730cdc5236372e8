/** Unsigned machine words as natural numbers, with C's bitwise operators defined bit by bit. */
module Bits {

  /** 1 << n */
  function Shift(n: nat): (m: nat)
    ensures m >= 1
  {
    if n == 0 then 1 else 2 * Shift(n - 1)
  }

  /** Bit I of W. */
  predicate Bit(w: nat, i: nat) {
    if i == 0 then w % 2 == 1 else Bit(w / 2, i - 1)
  }

  function Or(a: nat, b: nat): nat
    decreases a + b
  {
    if a == 0 && b == 0 then 0
    else 2 * Or(a / 2, b / 2) + (if a % 2 == 1 || b % 2 == 1 then 1 else 0)
  }

  function And(a: nat, b: nat): nat
    decreases a + b
  {
    if a == 0 && b == 0 then 0
    else 2 * And(a / 2, b / 2) + (if a % 2 == 1 && b % 2 == 1 then 1 else 0)
  }

  function Xor(a: nat, b: nat): nat
    decreases a + b
  {
    if a == 0 && b == 0 then 0
    else 2 * Xor(a / 2, b / 2) + (if a % 2 != b % 2 then 1 else 0)
  }

  /** Complement of a word of N bits. */
  function Not(w: nat, n: nat): nat {
    if n == 0 then 0
    else 2 * Not(w / 2, n - 1) + (if w % 2 == 1 then 0 else 1)
  }

  lemma OrHalf(a: nat, b: nat)
    ensures Or(a, b) / 2 == Or(a / 2, b / 2) && (Or(a, b) % 2 == 1 <==> a % 2 == 1 || b % 2 == 1)
  {
  }

  lemma {:induction false} OrBit(a: nat, b: nat, i: nat)
    ensures Bit(Or(a, b), i) == (Bit(a, i) || Bit(b, i))
    decreases i
  {
    OrHalf(a, b);
    if i > 0 {
      OrBit(a / 2, b / 2, i - 1);
    }
  }

  lemma AndHalf(a: nat, b: nat)
    ensures And(a, b) / 2 == And(a / 2, b / 2) && (And(a, b) % 2 == 1 <==> a % 2 == 1 && b % 2 == 1)
  {
  }

  lemma {:induction false} AndBit(a: nat, b: nat, i: nat)
    ensures Bit(And(a, b), i) == (Bit(a, i) && Bit(b, i))
    decreases i
  {
    AndHalf(a, b);
    if i > 0 {
      AndBit(a / 2, b / 2, i - 1);
    }
  }

  lemma XorHalf(a: nat, b: nat)
    ensures Xor(a, b) / 2 == Xor(a / 2, b / 2) && (Xor(a, b) % 2 == 1 <==> a % 2 != b % 2)
  {
  }

  lemma {:induction false} XorBit(a: nat, b: nat, i: nat)
    ensures Bit(Xor(a, b), i) == (Bit(a, i) != Bit(b, i))
    decreases i
  {
    XorHalf(a, b);
    if i > 0 {
      XorBit(a / 2, b / 2, i - 1);
    }
  }

  lemma {:induction false} NotBit(w: nat, n: nat, i: nat)
    ensures Bit(Not(w, n), i) == (i < n && !Bit(w, i))
    decreases i
  {
    if n == 0 {
      ZeroBit(i);
    } else if i > 0 {
      NotBit(w / 2, n - 1, i - 1);
      assert Not(w, n) / 2 == Not(w / 2, n - 1);
    }
  }

  lemma {:induction false} ZeroBit(i: nat)
    ensures !Bit(0, i)
  {
    if i > 0 {
      ZeroBit(i - 1);
    }
  }

  lemma {:induction false} ShiftBit(n: nat, i: nat)
    ensures Bit(Shift(n), i) == (i == n)
    decreases i
  {
    if i > 0 {
      if n == 0 {
        ZeroBit(i - 1);
      } else {
        ShiftBit(n - 1, i - 1);
      }
    }
  }

  /** (1 << n) - 1 has its N low bits set. */
  lemma {:induction false} LowOnes(n: nat, i: nat)
    ensures Bit(Shift(n) - 1, i) == (i < n)
    decreases i
  {
    if n == 0 {
      ZeroBit(i);
    } else if i > 0 {
      LowOnes(n - 1, i - 1);
      assert (Shift(n) - 1) / 2 == Shift(n - 1) - 1;
    }
  }

  /** A word of N bits is determined by them. */
  lemma {:induction false} SameBits(a: nat, b: nat, n: nat)
    requires a < Shift(n) && b < Shift(n)
    requires forall i :: 0 <= i < n ==> Bit(a, i) == Bit(b, i)
    ensures a == b
  {
    if n > 0 {
      forall i | 0 <= i < n - 1
        ensures Bit(a / 2, i) == Bit(b / 2, i)
      {
        assert Bit(a, i + 1) == Bit(b, i + 1);
      }
      SameBits(a / 2, b / 2, n - 1);
      assert Bit(a, 0) == Bit(b, 0);
    }
  }

  lemma {:induction false} OrFits(a: nat, b: nat, n: nat)
    requires a < Shift(n) && b < Shift(n)
    ensures Or(a, b) < Shift(n)
  {
    if n > 0 && a + b > 0 {
      OrFits(a / 2, b / 2, n - 1);
    }
  }

  lemma {:induction false} AndFits(a: nat, b: nat, n: nat)
    requires a < Shift(n)
    ensures And(a, b) < Shift(n)
    decreases n
  {
    if n > 0 && a + b > 0 {
      AndFits(a / 2, b / 2, n - 1);
    } else if n == 0 && b > 0 {
      ZeroAnd(b);
    }
  }

  lemma {:induction false} ZeroAnd(b: nat)
    ensures And(0, b) == 0
  {
    if b > 0 {
      ZeroAnd(b / 2);
    }
  }

  lemma {:induction false} XorFits(a: nat, b: nat, n: nat)
    requires a < Shift(n) && b < Shift(n)
    ensures Xor(a, b) < Shift(n)
  {
    if n > 0 && a + b > 0 {
      XorFits(a / 2, b / 2, n - 1);
    }
  }

  lemma {:induction false} ShiftGrows(m: nat, n: nat)
    requires m < n
    ensures Shift(m) < Shift(n)
  {
    if m + 1 < n {
      ShiftGrows(m, n - 1);
    }
  }

  lemma {:induction false} NotFits(w: nat, n: nat)
    ensures Not(w, n) < Shift(n)
  {
    if n > 0 {
      NotFits(w / 2, n - 1);
    }
  }

  lemma {:induction false} NoBits(w: nat)
    requires forall i: nat :: !Bit(w, i)
    ensures w == 0
  {
    if w > 0 {
      assert !Bit(w, 0);
      forall i: nat
        ensures !Bit(w / 2, i)
      {
        assert !Bit(w, i + 1);
      }
      NoBits(w / 2);
    }
  }

  lemma DivTwice(w: nat, s: nat)
    requires s >= 1
    ensures w / 2 / s == w / (2 * s) && w / 2 % s == w % (2 * s) / 2
    ensures w % (2 * s) % 2 == w % 2
  {
    var q, r := w / 2 / s, w / 2 % s;
    assert w / 2 == q * s + r;
    assert w == q * (2 * s) + (2 * r + w % 2);
    QuotientIs(w, 2 * s, q, 2 * r + w % 2);
  }

  lemma QuotientIs(w: nat, d: nat, q: nat, r: nat)
    requires w == q * d + r && r < d
    ensures w / d == q && w % d == r
  {
    var x := w / d - q;
    assert x * d == r - w % d;
    Multiple(x, d);
  }

  lemma Multiple(x: int, d: nat)
    ensures x >= 1 ==> x * d >= d
    ensures x <= -1 ==> x * d + d <= 0
  {
    if x >= 1 {
      assert x * d == d + (x - 1) * d;
    } else if x <= -1 {
      assert x * d + d == (x + 1) * d;
    }
  }

  lemma QuotientSign(w: nat, d: nat)
    requires d >= 1
    ensures w / d >= 0
  {
    Multiple(w / d, d);
    assert w == w / d * d + w % d;
  }

  function Quotient(w: nat, d: nat): (q: nat)
    requires d >= 1
    ensures q == w / d
  {
    QuotientSign(w, d);
    w / d
  }

  /** Shifting right moves the bits down. */
  lemma {:induction false} ShiftedBit(w: nat, k: nat, j: nat)
    ensures Bit(Quotient(w, Shift(k)), j) == Bit(w, k + j)
    decreases k
  {
    if k == 0 {
      assert Quotient(w, 1) == w;
    } else {
      ShiftedBit(w / 2, k - 1, j);
      DivTwice(w, Shift(k - 1));
      assert Quotient(w, Shift(k)) == Quotient(w / 2, Shift(k - 1));
    }
  }

  /** Bit I of W is the parity of W / 2^I. */
  lemma BitIs(w: nat, i: nat)
    ensures Bit(w, i) <==> Quotient(w, Shift(i)) % 2 == 1
  {
    ShiftedBit(w, i, 0);
  }

  /** Cutting a word off keeps the bits below. */
  lemma {:induction false} CutBit(w: nat, n: nat, j: nat)
    requires j < n
    ensures Bit(w % Shift(n), j) == Bit(w, j)
    decreases j
  {
    DivTwice(w, Shift(n - 1));
    if j > 0 {
      CutBit(w / 2, n - 1, j - 1);
    }
  }
}
