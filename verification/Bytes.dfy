/** Byte strings and their little- and big-endian integer values
    (`int.from_bytes`, `int.to_bytes`, `struct`). */
module Bytes {
  import opened Bits

  type Byte = b: int | 0 <= b < 256

  function Pow256(n: nat): (r: nat)
    ensures r > 0
  {
    if n == 0 then 1 else 256 * Pow256(n - 1)
  }

  function Le(bs: seq<Byte>): nat {
    if |bs| == 0 then 0 else bs[0] + 256 * Le(bs[1..])
  }

  function ToLe(v: nat, n: nat): (bs: seq<Byte>)
    ensures |bs| == n
  {
    if n == 0 then [] else [v % 256] + ToLe(v / 256, n - 1)
  }

  function Be(bs: seq<Byte>): nat {
    if |bs| == 0 then 0 else 256 * Be(bs[..|bs| - 1]) + bs[|bs| - 1]
  }

  lemma {:induction false} Pow256IsPow2(n: nat)
    ensures Pow256(n) == Pow2(8 * n)
  {
    if n > 0 {
      Pow256IsPow2(n - 1);
      Pow2Add(8, 8 * (n - 1));
      Pow2Values();
    }
  }

  lemma {:induction false} LeBound(bs: seq<Byte>)
    ensures Le(bs) < Pow256(|bs|)
  {
    if |bs| > 0 {
      LeBound(bs[1..]);
    }
  }

  lemma {:induction false} LeInverse(bs: seq<Byte>)
    ensures ToLe(Le(bs), |bs|) == bs
  {
    if |bs| > 0 {
      LeInverse(bs[1..]);
      LeHead(bs);
      hide Le;
      assert bs == [bs[0]] + bs[1..];
    }
  }

  lemma LeHead(bs: seq<Byte>)
    requires |bs| > 0
    ensures Le(bs) % 256 == bs[0] && Le(bs) / 256 == Le(bs[1..])
  {
  }

  lemma {:induction false} ToLeInverse(v: nat, n: nat)
    requires v < Pow256(n)
    ensures Le(ToLe(v, n)) == v
  {
    if n > 0 {
      ToLeInverse(v / 256, n - 1);
      assert ToLe(v, n)[1..] == ToLe(v / 256, n - 1);
    }
  }

  lemma {:induction false} LeInjective(xs: seq<Byte>, ys: seq<Byte>)
    requires |xs| == |ys| && Le(xs) == Le(ys)
    ensures xs == ys
  {
    LeInverse(xs);
    LeInverse(ys);
  }

  lemma {:induction false} LeAppend(xs: seq<Byte>, ys: seq<Byte>)
    ensures Le(xs + ys) == Le(xs) + Pow256(|xs|) * Le(ys)
  {
    if |xs| == 0 {
      assert xs + ys == ys;
    } else {
      LeAppend(xs[1..], ys);
      assert (xs + ys)[1..] == xs[1..] + ys;
      assert 256 * (Pow256(|xs| - 1) * Le(ys)) == Pow256(|xs|) * Le(ys);
    }
  }

  lemma {:induction false} BeBound(bs: seq<Byte>)
    ensures Be(bs) < Pow256(|bs|)
  {
    if |bs| > 0 {
      BeBound(bs[..|bs| - 1]);
    }
  }

  /** Lexicographic order on byte strings of one length. */
  predicate LexLess(xs: seq<Byte>, ys: seq<Byte>)
    requires |xs| == |ys|
  {
    exists k :: 0 <= k < |xs| && xs[..k] == ys[..k] && xs[k] < ys[k]
  }

  /** Order is decided by the last byte or before it. */
  lemma LexLessStep(xs: seq<Byte>, ys: seq<Byte>)
    requires |xs| == |ys| > 0
    ensures var n, px, py := |xs| - 1, xs[..|xs| - 1], ys[..|ys| - 1];
      LexLess(xs, ys) <==> LexLess(px, py) || (px == py && xs[n] < ys[n])
  {
    var n := |xs| - 1;
    var px, py := xs[..n], ys[..n];
    if LexLess(px, py) {
      var k :| 0 <= k < n && px[..k] == py[..k] && px[k] < py[k];
      assert px[..k] == xs[..k] && py[..k] == ys[..k];
      assert xs[..k] == ys[..k] && xs[k] < ys[k];
    } else if px == py && xs[n] < ys[n] {
      assert xs[..n] == ys[..n];
    }
    if LexLess(xs, ys) {
      var k :| 0 <= k <= n && xs[..k] == ys[..k] && xs[k] < ys[k];
      if k < n {
        assert px[..k] == xs[..k] && py[..k] == ys[..k];
        assert px[..k] == py[..k] && px[k] < py[k];
      }
    }
  }

  /** Comparing equal-length strings as big-endian integers, as the greatest-seen
      rule does, is comparing them lexicographically. */
  lemma {:induction false} BeOrderIsLex(xs: seq<Byte>, ys: seq<Byte>)
    requires |xs| == |ys|
    ensures Be(xs) < Be(ys) <==> LexLess(xs, ys)
    ensures Be(xs) == Be(ys) ==> xs == ys
  {
    var n := |xs|;
    if n > 0 {
      LexLessStep(xs, ys);
      hide LexLess;
      var px, py := xs[..n - 1], ys[..n - 1];
      BeOrderIsLex(px, py);
      DigitOrder(Be(px), xs[n - 1], Be(py), ys[n - 1]);
      assert Be(xs) == 256 * Be(px) + xs[n - 1] && Be(ys) == 256 * Be(py) + ys[n - 1];
      hide Be;
      assert xs == px + [xs[n - 1]] && ys == py + [ys[n - 1]];
    }
  }

  lemma DigitOrder(a: nat, b: Byte, c: nat, d: Byte)
    ensures 256 * a + b < 256 * c + d <==> a < c || (a == c && b < d)
    ensures 256 * a + b == 256 * c + d ==> a == c && b == d
  {
  }
}
