/** Laws of the interpreter's operations over programs of any length: carry chains
    compute integer arithmetic. */
module Mos6502Laws {
  import opened Mos6502Spec
  import opened Bytes

  // ---- carry chains -------------------------------------------------------

  /** LDA x / ADC y, or LDA x / SBC y, once per pair of bytes from the least
      significant up: the accumulators left behind, and the machine after the last. */
  function Chain(s: Cpu, op: Mnemonic, xs: seq<Byte>, ys: seq<Byte>): (r: (seq<Byte>, Cpu))
    requires s.Valid() && |xs| == |ys| && op in {ADC, SBC}
    ensures |r.0| == |xs| && r.1.Valid()
    decreases |xs|
  {
    if |xs| == 0 then ([], s)
    else
      var s1 := Consume(Consume(s, LDA, xs[0]), op, ys[0]);
      var (zs, t) := Chain(s1, op, xs[1..], ys[1..]);
      ([s1.a] + zs, t)
  }

  /** The two's-complement value of a little-endian byte string. */
  function Signed(bs: seq<Byte>): int
    requires |bs| > 0
  {
    if |bs| == 1 then (if bs[0] >= 0x80 then bs[0] - 0x100 else bs[0])
    else bs[0] + 256 * Signed(bs[1..])
  }

  /** v is a signed n-byte integer: -2^(8n-1) <= v < 2^(8n-1). */
  predicate FitsSigned(v: int, n: nat)
    requires n > 0
  {
    -128 * Pow256(n - 1) <= v < 128 * Pow256(n - 1)
  }

  /** A byte more at the low end does not decide whether a signed value fits. */
  lemma LowByteIsIrrelevant(low: int, high: int, n: nat)
    requires 0 <= low < 256 && n > 0
    ensures FitsSigned(low + 256 * high, n + 1) <==> FitsSigned(high, n)
  {
    assert Pow256(n) == 256 * Pow256(n - 1);
  }

  lemma OneByteFits(v: int)
    ensures FitsSigned(v, 1) <==> -128 <= v < 128
  {
  }

  lemma SignedStep(bs: seq<Byte>)
    requires |bs| > 0
    ensures if |bs| == 1 then bs == [bs[0]] else Signed(bs) == bs[0] + 256 * Signed(bs[1..])
  {
  }

  lemma {:induction false} SignedIsUnsignedShifted(bs: seq<Byte>)
    requires |bs| > 0
    ensures Signed(bs) == Le(bs) - (if bs[|bs| - 1] >= 0x80 then Pow256(|bs|) else 0)
  {
    if |bs| == 1 {
      assert Le(bs[1..]) == 0 && Pow256(1) == 256;
    } else {
      SignedIsUnsignedShifted(bs[1..]);
    }
  }

  /** One byte of either chain: the sum of the pair and the carry in, as a byte, a
      carry out and, through V, whether the signed sum left the signed byte range. */
  lemma OneByte(s: Cpu, op: Mnemonic, x: Byte, y: Byte) returns (s1: Cpu)
    requires s.Valid() && op in {ADC, SBC}
    ensures s1 == Consume(Consume(s, LDA, x), op, y) && s1.Valid() && IsByte(s1.a) && IsFlag(s1.c)
    ensures op == ADC ==> s1.a + 256 * s1.c == x + y + s.c
    ensures op == SBC ==> s1.a + 256 * (s1.c - 1) == x - y - (1 - s.c)
    ensures op == ADC ==> (s1.v == 0 <==> -128 <= Signed([x]) + Signed([y]) + s.c < 128)
    ensures op == SBC ==> (s1.v == 0 <==> -128 <= Signed([x]) - Signed([y]) - (1 - s.c) < 128)
    ensures s1.n == 0 <==> s1.a < 0x80
  {
    s1 := Consume(Consume(s, LDA, x), op, y);
  }

  /** A chain is its first byte and the chain from there. */
  lemma FirstOfChain(s: Cpu, op: Mnemonic, xs: seq<Byte>, ys: seq<Byte>) returns (s1: Cpu)
    requires s.Valid() && |xs| == |ys| > 0 && op in {ADC, SBC}
    ensures s1 == Consume(Consume(s, LDA, xs[0]), op, ys[0]) && s1.Valid()
    ensures var (zs, t) := Chain(s1, op, xs[1..], ys[1..]); Chain(s, op, xs, ys) == ([s1.a] + zs, t)
  {
    hide Cpu.Valid, Consume;
    s1 := Consume(Consume(s, LDA, xs[0]), op, ys[0]);
  }

  lemma ChainOfNone(s: Cpu, op: Mnemonic, xs: seq<Byte>, ys: seq<Byte>)
    requires s.Valid() && |xs| == |ys| == 0 && op in {ADC, SBC}
    ensures Chain(s, op, xs, ys) == ([], s)
  {
  }

  /** Over n bytes ADC adds integers: the accumulators are the sum mod 256^n and C is
      the carry out of the top byte. */
  lemma {:induction false} AdcChainAdds(s: Cpu, xs: seq<Byte>, ys: seq<Byte>)
    requires s.Valid() && |xs| == |ys|
    ensures var (zs, t) := Chain(s, ADC, xs, ys);
      Le(zs) + (if t.c == 1 then Pow256(|xs|) else 0) == Le(xs) + Le(ys) + s.c
    decreases |xs|
  {
    if |xs| > 0 {
      var s1 := OneByte(s, ADC, xs[0], ys[0]);
      hide Consume;
      AdcChainAdds(s1, xs[1..], ys[1..]);
      var (zs, t) := Chain(s1, ADC, xs[1..], ys[1..]);
      assert ([s1.a] + zs)[1..] == zs;
    }
  }

  /** V of the top byte says exactly that the signed n-byte sum does not fit. */
  lemma {:induction false} AdcChainOverflow(s: Cpu, xs: seq<Byte>, ys: seq<Byte>)
    requires s.Valid() && |xs| == |ys| > 0
    ensures Chain(s, ADC, xs, ys).1.v == 0 <==> FitsSigned(Signed(xs) + Signed(ys) + s.c, |xs|)
    decreases |xs|
  {
    hide Cpu.Valid, Consume, Chain, FitsSigned, Signed;
    var s1 := FirstOfChain(s, ADC, xs, ys);
    var same := OneByte(s, ADC, xs[0], ys[0]);
    SignedStep(xs);
    SignedStep(ys);
    OneByteFits(Signed(xs) + Signed(ys) + s.c);
    if |xs| == 1 {
      ChainOfNone(s1, ADC, xs[1..], ys[1..]);
    } else {
      AdcChainOverflow(s1, xs[1..], ys[1..]);
      LowByteIsIrrelevant(s1.a, Signed(xs[1..]) + Signed(ys[1..]) + s1.c, |xs| - 1);
    }
  }

  /** Over n bytes SBC subtracts integers, C clear meaning a borrow in and out. */
  lemma {:induction false} SbcChainSubtracts(s: Cpu, xs: seq<Byte>, ys: seq<Byte>)
    requires s.Valid() && |xs| == |ys|
    ensures var (zs, t) := Chain(s, SBC, xs, ys);
      Le(zs) - (if t.c == 0 then Pow256(|xs|) else 0) == Le(xs) - Le(ys) - (1 - s.c)
    decreases |xs|
  {
    if |xs| > 0 {
      var s1 := OneByte(s, SBC, xs[0], ys[0]);
      hide Consume;
      SbcChainSubtracts(s1, xs[1..], ys[1..]);
      var (zs, t) := Chain(s1, SBC, xs[1..], ys[1..]);
      assert ([s1.a] + zs)[1..] == zs;
    }
  }

  /** V of the top byte says exactly that the signed n-byte difference does not fit. */
  lemma {:induction false} SbcChainOverflow(s: Cpu, xs: seq<Byte>, ys: seq<Byte>)
    requires s.Valid() && |xs| == |ys| > 0
    ensures Chain(s, SBC, xs, ys).1.v == 0 <==> FitsSigned(Signed(xs) - Signed(ys) - (1 - s.c), |xs|)
    decreases |xs|
  {
    hide Cpu.Valid, Consume, Chain, FitsSigned, Signed;
    var s1 := FirstOfChain(s, SBC, xs, ys);
    var same := OneByte(s, SBC, xs[0], ys[0]);
    SignedStep(xs);
    SignedStep(ys);
    OneByteFits(Signed(xs) - Signed(ys) - (1 - s.c));
    if |xs| == 1 {
      ChainOfNone(s1, SBC, xs[1..], ys[1..]);
    } else {
      SbcChainOverflow(s1, xs[1..], ys[1..]);
      LowByteIsIrrelevant(s1.a, Signed(xs[1..]) - Signed(ys[1..]) - (1 - s1.c), |xs| - 1);
    }
  }
}
