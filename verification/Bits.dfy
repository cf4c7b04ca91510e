/** Python's bitwise operators on non-negative integers, as recursive functions
    on the binary expansion, with the facts the other modules need about masks,
    disjoint unions and splitting a number into a low and a high part. */
module Bits {

  function Pow2(k: nat): (r: nat)
    ensures r > 0
  {
    if k == 0 then 1 else 2 * Pow2(k - 1)
  }

  function And(x: nat, y: nat): nat {
    if x == 0 || y == 0 then 0 else 2 * And(x / 2, y / 2) + (if x % 2 == 1 && y % 2 == 1 then 1 else 0)
  }

  function Or(x: nat, y: nat): nat
    decreases x + y
  {
    if x == 0 && y == 0 then 0
    else 2 * Or(x / 2, y / 2) + (if x % 2 == 1 || y % 2 == 1 then 1 else 0)
  }

  function Xor(x: nat, y: nat): nat
    decreases x + y
  {
    if x == 0 && y == 0 then 0
    else 2 * Xor(x / 2, y / 2) + (x % 2 + y % 2) % 2
  }

  /** `x << n` */
  function Shl(x: nat, n: nat): nat {
    if n == 0 then x else 2 * Shl(x, n - 1)
  }

  lemma {:induction false} ShlIsMul(x: nat, n: nat)
    ensures Shl(x, n) == Pow2(n) * x
  {
    if n > 0 {
      ShlIsMul(x, n - 1);
      Twice(Pow2(n - 1), x);
    }
  }

  /** Bit k of v, as the source writes it: `(v >> k) & 1`. */
  function Bit(v: nat, k: nat): (r: nat)
    ensures r <= 1
  {
    if k == 0 then v % 2 else Bit(v / 2, k - 1)
  }

  lemma Pow2Values()
    ensures Pow2(1) == 2 && Pow2(2) == 4 && Pow2(3) == 8 && Pow2(4) == 16
    ensures Pow2(5) == 32 && Pow2(6) == 64 && Pow2(7) == 128 && Pow2(8) == 256
  {
    assert Pow2(4) == 16;
  }

  lemma {:induction false} Pow2Add(j: nat, k: nat)
    ensures Pow2(j + k) == Pow2(j) * Pow2(k)
  {
    if j > 0 {
      Pow2Add(j - 1, k);
      assert Pow2(j + k) == 2 * Pow2(j - 1 + k);
    }
  }

  /** No bitwise operator leaves the width of its operands. */
  lemma {:induction false} Width(x: nat, y: nat, n: nat)
    requires x < Pow2(n) && y < Pow2(n)
    ensures And(x, y) < Pow2(n) && Or(x, y) < Pow2(n) && Xor(x, y) < Pow2(n)
  {
    if n > 0 {
      Width(x / 2, y / 2, n - 1);
    }
  }

  lemma {:induction false} XorCancels(x: nat, k: nat)
    ensures Xor(Xor(x, k), k) == x
    decreases x + k
  {
    if x > 0 || k > 0 {
      hide Xor;
      XorCancels(x / 2, k / 2);
      XorStep(x, k);
      XorStep(Xor(x, k), k);
      ParityCancels(x % 2, k % 2);
    }
  }

  lemma ParityCancels(a: nat, b: nat)
    requires a < 2 && b < 2
    ensures ((a + b) % 2 + b) % 2 == a
  {
  }

  lemma XorStep(x: nat, y: nat)
    ensures Xor(x, y) / 2 == Xor(x / 2, y / 2) && Xor(x, y) % 2 == (x % 2 + y % 2) % 2
  {
  }

  lemma {:induction false} XorCommutes(x: nat, y: nat)
    ensures Xor(x, y) == Xor(y, x)
    decreases x + y
  {
    if x > 0 || y > 0 {
      XorCommutes(x / 2, y / 2);
    }
  }

  lemma {:induction false} AndMask(x: nat, n: nat)
    ensures And(x, Pow2(n) - 1) == x % Pow2(n)
  {
    if n == 0 {
    } else {
      AndMask(x / 2, n - 1);
      ModStep(x, Pow2(n - 1));
      var m := Pow2(n) - 1;
      assert m / 2 == Pow2(n - 1) - 1 && m % 2 == 1;
    }
  }

  lemma ModStep(x: nat, p: nat)
    requires p > 0
    ensures x % (2 * p) == 2 * ((x / 2) % p) + x % 2
  {
    var q, r := (x / 2) / p, (x / 2) % p;
    assert x == 2 * (x / 2) + x % 2;
    assert x / 2 == p * q + r;
    assert x == (2 * p) * q + (2 * r + x % 2) by {
      assert 2 * (p * q) == (2 * p) * q;
    }
    DivModUnique(x, 2 * p, q, 2 * r + x % 2);
  }

  lemma DivModUnique(x: nat, m: nat, q: nat, r: nat)
    requires m > 0 && r < m && x == m * q + r
    ensures x / m == q && x % m == r
  {
    SameQuotient(m, q, r, x / m, x % m);
  }

  lemma SameQuotient(m: nat, q: int, r: int, q': int, r': int)
    requires 0 <= r < m && 0 <= r' < m && m * q + r == m * q' + r'
    ensures q == q' && r == r'
  {
    if q < q' {
      MulGrows(m, q + 1, q');
    } else if q' < q {
      MulGrows(m, q' + 1, q);
    }
  }

  lemma MulGrows(m: nat, q: int, q': int)
    requires q <= q'
    ensures m * q <= m * q'
  {
  }

  /** Each operator works on a low part of n bits and a high part separately. */
  lemma {:induction false} SplitAt(a: nat, b: nat, c: nat, d: nat, n: nat)
    requires a < Pow2(n) && c < Pow2(n)
    ensures And(a + Shl(b, n), c + Shl(d, n)) == And(a, c) + Shl(And(b, d), n)
    ensures Or(a + Shl(b, n), c + Shl(d, n)) == Or(a, c) + Shl(Or(b, d), n)
  {
    hide And, Or;
    if n == 0 {
      NoBits();
    } else {
      SplitAt(a / 2, b, c / 2, d, n - 1);
      SplitStep(a, c, Shl(b, n - 1), Shl(d, n - 1), Shl(And(b, d), n - 1), Shl(Or(b, d), n - 1));
    }
  }

  lemma NoBits()
    ensures And(0, 0) == 0 && Or(0, 0) == 0
  {
  }

  lemma SplitStep(a: nat, c: nat, hb: nat, hd: nat, hAnd: nat, hOr: nat)
    requires And(a / 2 + hb, c / 2 + hd) == And(a / 2, c / 2) + hAnd
    requires Or(a / 2 + hb, c / 2 + hd) == Or(a / 2, c / 2) + hOr
    ensures And(a + 2 * hb, c + 2 * hd) == And(a, c) + 2 * hAnd
    ensures Or(a + 2 * hb, c + 2 * hd) == Or(a, c) + 2 * hOr
  {
    var x, y := a + 2 * hb, c + 2 * hd;
    AndStep(x, y); AndStep(a, c);
    OrStep(x, y); OrStep(a, c);
  }

  lemma Twice(p: nat, b: nat)
    ensures (2 * p) * b == 2 * (p * b)
  {
  }

  lemma AndStep(x: nat, y: nat)
    ensures And(x, y) == 2 * And(x / 2, y / 2) + (if x % 2 == 1 && y % 2 == 1 then 1 else 0)
  {
  }

  lemma OrStep(x: nat, y: nat)
    ensures Or(x, y) == 2 * Or(x / 2, y / 2) + (if x % 2 == 1 || y % 2 == 1 then 1 else 0)
  {
  }

  /** A union of disjoint bit ranges is a sum: `(hi << n) | lo`. */
  lemma OrDisjoint(hi: nat, lo: nat, n: nat)
    requires lo < Pow2(n)
    ensures Or(Shl(hi, n), lo) == Shl(hi, n) + lo == Pow2(n) * hi + lo
  {
    hide Or, Shl, Pow2, And;
    SplitAt(0, hi, lo, 0, n);
    ShlIsMul(0, n);
    ShlIsMul(hi, n);
    OrZero(hi);
    OrZero(lo);
  }

  lemma {:induction false} OrZero(x: nat)
    ensures Or(x, 0) == x && Or(0, x) == x
  {
    if x > 0 {
      OrZero(x / 2);
    }
  }

  lemma {:induction false} BitOfSum(v: nat, k: nat)
    ensures v % Pow2(k + 1) == v % Pow2(k) + Pow2(k) * Bit(v, k)
  {
    if k > 0 {
      BitOfSum(v / 2, k - 1);
      ModStep(v, Pow2(k));
      ModStep(v, Pow2(k - 1));
      Twice(Pow2(k - 1), Bit(v, k));
    } else {
      assert Pow2(1) == 2;
    }
  }

  /** `x >> n` */
  function Shr(x: nat, n: nat): nat {
    if n == 0 then x else Shr(x / 2, n - 1)
  }

  /** The low n bits of x. */
  function Low(x: nat, n: nat): nat {
    if n == 0 then 0 else 2 * Low(x / 2, n - 1) + x % 2
  }

  lemma {:induction false} SplitLow(x: nat, n: nat)
    ensures x == Shl(Shr(x, n), n) + Low(x, n) && Low(x, n) < Pow2(n)
  {
    if n > 0 {
      SplitLow(x / 2, n - 1);
    }
  }

  lemma {:induction false} JoinLow(h: nat, l: nat, n: nat)
    requires l < Pow2(n)
    ensures Shr(Shl(h, n) + l, n) == h && Low(Shl(h, n) + l, n) == l
  {
    if n > 0 {
      JoinLow(h, l / 2, n - 1);
      assert (Shl(h, n) + l) / 2 == Shl(h, n - 1) + l / 2;
    }
  }

  lemma {:induction false} ShrBound(x: nat, n: nat, m: nat)
    requires x < Pow2(n + m)
    ensures Shr(x, m) < Pow2(n)
  {
    if m > 0 {
      ShrBound(x / 2, n, m - 1);
    }
  }

  lemma {:induction false} ShlAdd(x: nat, y: nat, n: nat)
    ensures Shl(x + y, n) == Shl(x, n) + Shl(y, n)
  {
    if n > 0 {
      ShlAdd(x, y, n - 1);
    }
  }

  lemma {:induction false} ShlShl(x: nat, m: nat, n: nat)
    ensures Shl(Shl(x, m), n) == Shl(x, m + n)
  {
    if n > 0 {
      ShlShl(x, m, n - 1);
    }
  }

  lemma {:induction false} ShlBound(x: nat, m: nat, n: nat)
    requires x < Pow2(m)
    ensures Shl(x, n) + Pow2(n) <= Pow2(m + n)
  {
    if n > 0 {
      ShlBound(x, m, n - 1);
    }
  }
}
