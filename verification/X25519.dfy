/** The host's X25519 (section 5 of RFC 7748): scalar clamping and a Montgomery
    ladder whose conditional swaps are deferred from one bit to the next. */
module X25519 {
  import opened Bits
  import opened Bytes

  const P: nat := 0x7fff_ffff_ffff_ffff_ffff_ffff_ffff_ffff_ffff_ffff_ffff_ffff_ffff_ffff_ffff_ffed  // 2^255 - 19
  const BITS: nat := 255

  // ---- clamping -----------------------------------------------------------

  function ClampLow(b: Byte): Byte {
    Pow2Values();
    Width(b, 248, 8);
    And(b, 248)
  }

  function ClampHigh(b: Byte): Byte {
    Pow2Values();
    Width(b, 127, 8);
    Width(And(b, 127), 64, 8);
    Or(And(b, 127), 64)
  }

  function Clamped(scalar: seq<Byte>): (r: seq<Byte>)
    requires |scalar| == 32
    ensures |r| == 32
  {
    scalar[0 := ClampLow(scalar[0])][31 := ClampHigh(scalar[31])]
  }

  /** `k[0] &= 248; k[31] &= 127; k[31] |= 64` on a copy of the scalar. */
  method Clamp(scalar: seq<Byte>) returns (k: seq<Byte>)
    requires |scalar| == 32
    ensures k == Clamped(scalar)
  {
    Pow2Values();
    Width(scalar[0], 248, 8);
    Width(scalar[31], 127, 8);
    Width(And(scalar[31], 127), 64, 8);
    k := scalar;
    k := k[0 := And(k[0], 248)];
    k := k[31 := And(k[31], 127)];
    k := k[31 := Or(k[31], 64)];
  }

  /** The masks clear the low three bits, clear the top bit and set the one below. */
  lemma ClampedBytes(b: Byte)
    ensures ClampLow(b) == b - b % 8
    ensures ClampHigh(b) == 64 + b % 64
  {
    hide And, Or, Pow2;
    Pow2Values();
    LowMask(b);
    AndMask(b, 7);
    HighMask(b % 128);
    TopBits(b);
  }

  lemma TopBits(b: Byte)
    ensures b % 128 % 64 == b % 64
  {
  }

  lemma ClampedBytesInRange(b: Byte)
    ensures ClampLow(b) % 8 == 0 && (ClampLow(b) == b <==> b % 8 == 0)
    ensures 64 <= ClampHigh(b) < 128 && (ClampHigh(b) == b <==> 64 <= b < 128)
  {
    ClampedBytes(b);
    hide ClampLow, ClampHigh;
    RoundDown(b);
    SecondBit(b);
  }

  lemma RoundDown(b: Byte)
    ensures (b - b % 8) % 8 == 0
  {
  }

  lemma SecondBit(b: Byte)
    ensures 64 + b % 64 == b <==> 64 <= b < 128
  {
  }

  lemma LowMask(b: Byte)
    ensures And(b, 248) == b - b % 8
  {
    KeepsHigh(b % 8, b / 8);
  }

  lemma KeepsHigh(low: nat, high: nat)
    requires low < 8 && high < 32
    ensures And(low + 8 * high, 248) == 8 * high
  {
    hide And, Pow2, Shl;
    Pow2Values();
    HighPart(low, high);
    AndMask(high, 5);
    AndZero(low);
  }

  lemma HighPart(low: nat, high: nat)
    requires low < 8
    ensures And(low + 8 * high, 248) == And(low, 0) + 8 * And(high, 31)
  {
    hide And, Pow2, Shl;
    Pow2Values();
    ShlIsMul(31, 3);
    ShlIsMul(high, 3);
    ShlIsMul(And(high, 31), 3);
    SplitAt(low, high, 0, 31, 3);
  }

  lemma {:induction false} AndZero(x: nat)
    ensures And(x, 0) == 0
  {
    if x > 0 {
      AndZero(x / 2);
    }
  }

  lemma HighMask(y: nat)
    requires y < 128
    ensures Or(y, 64) == 64 + y % 64
  {
    hide Or, Pow2, Shl;
    Pow2Values();
    ShlIsMul(y / 64, 6);
    ShlIsMul(1, 6);
    SplitAt(y % 64, y / 64, 0, 1, 6);
    OrZero(y % 64);
    OrOne(y / 64);
  }

  lemma OrOne(bit: nat)
    requires bit < 2
    ensures Or(bit, 1) == 1
  {
    assert Or(0, 1) == 1 && Or(1, 1) == 1;
  }

  /** Low byte, the thirty in between, high byte. */
  lemma ThreeParts(s: seq<Byte>)
    requires |s| == 32
    ensures Le(s) == s[0] + 256 * Le(s[1..31]) + Pow256(31) * s[31]
  {
    assert s == [s[0]] + (s[1..31] + [s[31]]);
    LeAppend([s[0]], s[1..31] + [s[31]]);
    LeAppend(s[1..31], [s[31]]);
    Single(s[0]);
    Single(s[31]);
    assert Pow256(31) == 256 * Pow256(30) && Pow256(1) == 256;
    Reassociate(Pow256(30), s[31]);
  }

  lemma Single(b: Byte)
    ensures Le([b]) == b
  {
    assert [b][1..] == [];
  }

  lemma Reassociate(p: nat, b: nat)
    ensures 256 * (p * b) == (256 * p) * b
  {
  }

  predicate IsClamped(k: nat) {
    k % 8 == 0 && Pow2(254) <= k < Pow2(255)
  }

  lemma TopBitValues()
    ensures 64 * Pow256(31) == Pow2(254) && Pow2(255) == 2 * Pow2(254)
    ensures Pow256(31) == 256 * Pow256(30)
  {
    Pow256IsPow2(31);
    Pow2Add(6, 248);
    Pow2Values();
  }

  lemma ClampedIff(s: seq<Byte>)
    requires |s| == 32
    ensures IsClamped(Le(s)) <==> s[0] % 8 == 0 && 64 <= s[31] < 128
  {
    hide Le, Pow2, Pow256;
    ThreeParts(s);
    LeBound(s[1..31]);
    TopBitValues();
    RangeOfParts(s[0], Le(s[1..31]), s[31], Pow256(30));
  }

  lemma OnlyTheEnds(s: seq<Byte>, low: Byte, high: Byte)
    requires |s| == 32
    ensures s[0 := low][31 := high] == s <==> s[0] == low && s[31] == high
    ensures s[0 := low][31 := high][0] == low && s[0 := low][31 := high][31] == high
  {
    var t := s[0 := low][31 := high];
    assert t[0] == low && t[31] == high;
    if s[0] == low && s[31] == high {
      assert t == s;
    }
  }

  /** Clamping gives a multiple of 8 in [2^254, 2^255), and changes exactly the scalars
      that are not one already. */
  lemma ClampedIsInRange(scalar: seq<Byte>)
    requires |scalar| == 32
    ensures IsClamped(Le(Clamped(scalar)))
    ensures IsClamped(Le(scalar)) <==> Clamped(scalar) == scalar
  {
    hide IsClamped, Le, ClampLow, ClampHigh;
    var low, high := ClampLow(scalar[0]), ClampHigh(scalar[31]);
    var k := Clamped(scalar);
    ClampedBytesInRange(scalar[0]);
    ClampedBytesInRange(scalar[31]);
    OnlyTheEnds(scalar, low, high);
    ClampedIff(scalar);
    ClampedIff(k);
  }

  /** When a number of three parts is a multiple of 8 with bit 254 its highest. */
  lemma RangeOfParts(low: nat, mid: nat, high: nat, p: nat)
    requires low < 256 && high < 256 && mid < p && p > 0
    ensures var k := low + 256 * mid + (256 * p) * high;
      && (k % 8 == 0 <==> low % 8 == 0)
      && (64 * (256 * p) <= k < 128 * (256 * p) <==> 64 <= high < 128)
  {
    var q := 256 * p;
    assert low + 256 * mid < q;
    Reassociate(p, high);
    MultipleOfEight(low, mid, p * high);
    if high < 64 {
      MulGrows(q, high, 63);
    } else if high < 128 {
      MulGrows(q, 64, high);
      MulGrows(q, high, 127);
    } else {
      MulGrows(q, 128, high);
    }
  }

  lemma MultipleOfEight(low: nat, mid: nat, high: nat)
    ensures (low + 256 * mid + 256 * high) % 8 == 0 <==> low % 8 == 0
  {
    DivModUnique(low + 256 * mid + 256 * high, 8, low / 8 + 32 * mid + 32 * high, low % 8);
  }

  // ---- one ladder step ----------------------------------------------------

  datatype Regs = Regs(x2: int, z2: int, x3: int, z3: int)

  function CSwap(swap: bool, r: Regs): Regs {
    if swap then Regs(r.x3, r.z3, r.x2, r.z2) else r
  }

  /** `v % _P` */
  function Rem(v: int): (r: nat)
    ensures r < P
  {
    v % P
  }

  /** `a * b % _P` */
  function RemMul(a: int, b: int): (r: nat)
    ensures r < P
  {
    a * b % P
  }

  /** RemMul as a function value. What it gives on a, b is known only where RemMul(a, b)
      is mentioned, so that a formula of many products stays a formula. */
  ghost function FieldMul(): (f: (int, int) -> int)
    ensures forall a, b {:trigger RemMul(a, b)} :: f(a, b) == RemMul(a, b)
  {
    var mul: (int, int) -> int := (a, b) => RemMul(a, b);
    assert forall a, b {:trigger RemMul(a, b)} :: mul(a, b) == RemMul(a, b);
    var f: (int, int) -> int :| forall a, b {:trigger RemMul(a, b)} :: f(a, b) == RemMul(a, b);
    f
  }

  ghost function Mul(a: int, b: int): int {
    FieldMul()(a, b)
  }

  /** x-only doubling of (x : z), as the source computes it. */
  ghost function DoubleX(x: int, z: int): int {
    var a, b := Rem(x + z), Rem(x - z);
    Mul(Mul(a, a), Mul(b, b))
  }

  ghost function DoubleZ(x: int, z: int): int {
    var a, b := Rem(x + z), Rem(x - z);
    var aa, bb := Mul(a, a), Mul(b, b);
    var e := Rem(aa - bb);
    Mul(e, aa + 121665 * e)
  }

  /** Differential addition of (x2 : z2) and (x3 : z3), whose difference is (x1 : 1). */
  ghost function AddX(x2: int, z2: int, x3: int, z3: int): int {
    var da, cb := Mul(Rem(x3 - z3), Rem(x2 + z2)), Mul(Rem(x3 + z3), Rem(x2 - z2));
    Mul(da + cb, da + cb)
  }

  ghost function AddZ(x1: int, x2: int, z2: int, x3: int, z3: int): int {
    var da, cb := Mul(Rem(x3 - z3), Rem(x2 + z2)), Mul(Rem(x3 + z3), Rem(x2 - z2));
    Mul(x1, Mul(da - cb, da - cb))
  }

  ghost function Step(x1: int, r: Regs): Regs {
    Regs(DoubleX(r.x2, r.z2), DoubleZ(r.x2, r.z2),
         AddX(r.x2, r.z2, r.x3, r.z3), AddZ(x1, r.x2, r.z2, r.x3, r.z3))
  }

  // ---- the formulas, mod p ------------------------------------------------

  function TimesP(k: int): int {
    P * k
  }

  /** TimesP as a function value, known at k only where TimesP(k) is mentioned. */
  ghost function Multiples(): (f: int -> int)
    ensures forall k {:trigger TimesP(k)} :: f(k) == TimesP(k)
  {
    var times: int -> int := k => TimesP(k);
    assert forall k {:trigger TimesP(k)} :: times(k) == TimesP(k);
    var f: int -> int :| forall k {:trigger TimesP(k)} :: f(k) == TimesP(k);
    f
  }

  ghost function Multiple(k: int): int {
    Multiples()(k)
  }

  lemma MultipleIs(k: int)
    ensures Multiple(k) == P * k
  {
    assert Multiple(k) == TimesP(k);
  }

  /** Congruence mod p. */
  ghost predicate Same(a: int, b: int) {
    exists k :: a == b + Multiple(k)
  }

  /** That is, equal remainders. */
  lemma SameIsRemainder(a: int, b: int)
    ensures Same(a, b) <==> a % P == b % P
  {
    hide Multiple;
    if a % P == b % P {
      SameBy(a, b, a / P - b / P);
    } else if Same(a, b) {
      var k :| a == b + Multiple(k);
      MultipleIs(k);
      RemOfSum(b, k);
    }
  }

  lemma RemOfSum(b: int, k: int)
    ensures (b + P * k) % P == b % P
  {
  }

  lemma SameBy(a: int, b: int, k: int)
    requires a == b + P * k
    ensures Same(a, b)
  {
    MultipleIs(k);
    assert a == b + Multiple(k);
  }

  lemma SameRem(a: int)
    ensures Same(Rem(a), a)
  {
    SameBy(Rem(a), a, -(a / P));
  }

  lemma SameRemMul(a: int, b: int)
    ensures Same(RemMul(a, b), a * b)
  {
    SameRem(a * b);
    assert RemMul(a, b) == Rem(a * b);
  }

  lemma SameMul(a: int, b: int)
    ensures Same(Mul(a, b), a * b) && 0 <= Mul(a, b) < P
  {
    hide RemMul, Same;
    assert Mul(a, b) == RemMul(a, b);
    SameRemMul(a, b);
  }

  lemma SameTransitive(a: int, b: int, c: int)
    ensures Same(a, a)
    ensures Same(a, b) && Same(b, c) ==> Same(a, c)
  {
    hide Multiple;
    SameBy(a, a, 0);
    if Same(a, b) && Same(b, c) {
      var j, k :| a == b + Multiple(j) && b == c + Multiple(k);
      MultipleIs(j);
      MultipleIs(k);
      SameBy(a, c, j + k);
    }
  }

  lemma SameSum(a: int, b: int, c: int, d: int)
    requires Same(a, b) && Same(c, d)
    ensures Same(a + c, b + d) && Same(a - c, b - d)
  {
    hide Multiple;
    var j, k :| a == b + Multiple(j) && c == d + Multiple(k);
    MultipleIs(j);
    MultipleIs(k);
    SameBy(a + c, b + d, j + k);
    SameBy(a - c, b - d, j - k);
  }

  lemma SameProduct(a: int, b: int, c: int, d: int)
    requires Same(a, b) && Same(c, d)
    ensures Same(a * c, b * d) && Same(Mul(a, c), b * d)
  {
    hide Multiple;
    var j, k :| a == b + Multiple(j) && c == d + Multiple(k);
    MultipleIs(j);
    MultipleIs(k);
    Expand(b, P, j, d, k);
    SameBy(a * c, b * d, b * k + j * d + P * (j * k));
    SameMul(a, c);
    SameTransitive(Mul(a, c), a * c, b * d);
  }

  lemma Expand(b: int, p: int, j: int, d: int, k: int)
    ensures (b + p * j) * (d + p * k) == b * d + p * (b * k + j * d + p * (j * k))
  {
  }

  /** Montgomery's x-only doubling on y^2 = x^3 + 486662x^2 + x, over the integers. */
  function DblX(x: int, z: int): int {
    (x * x - z * z) * (x * x - z * z)
  }

  function DblZ(x: int, z: int): int {
    (4 * (x * z)) * (x * x + 486662 * (x * z) + z * z)
  }

  /** And his differential addition, for a difference of (x1 : 1). */
  function SumX(x2: int, z2: int, x3: int, z3: int): int {
    4 * ((x2 * x3 - z2 * z3) * (x2 * x3 - z2 * z3))
  }

  function SumZ(x1: int, x2: int, z2: int, x3: int, z3: int): int {
    x1 * (4 * ((x3 * z2 - z3 * x2) * (x3 * z2 - z3 * x2)))
  }

  /** The source's doubling is the textbook's, mod p. */
  lemma DoublingFormula(x: int, z: int)
    ensures Same(DoubleX(x, z), DblX(x, z)) && Same(DoubleZ(x, z), DblZ(x, z))
  {
    hide Rem, Mul, Same;
    var a, b := Rem(x + z), Rem(x - z);
    var aa, bb := Mul(a, a), Mul(b, b);
    var e: int := Rem(aa - bb);
    var s, d := (x + z) * (x + z), (x - z) * (x - z);
    SameRem(x + z);
    SameRem(x - z);
    SameProduct(a, x + z, a, x + z);
    SameProduct(b, x - z, b, x - z);
    SameProduct(aa, s, bb, d);
    SameSum(aa, s, bb, d);
    SameRem(aa - bb);
    SameTransitive(e, aa - bb, s - d);
    SameTransitive(121665, 121665, 121665);
    SameProduct(121665, 121665, e, s - d);
    SameSum(aa, s, 121665 * e, 121665 * (s - d));
    SameProduct(e, s - d, aa + 121665 * e, s + 121665 * (s - d));
    Squares(x, z);
  }

  lemma Squares(x: int, z: int)
    ensures var s, d := (x + z) * (x + z), (x - z) * (x - z);
      && s * d == (x * x - z * z) * (x * x - z * z)
      && s - d == 4 * (x * z)
      && s + 121665 * (s - d) == x * x + 486662 * (x * z) + z * z
  {
    var s, d := (x + z) * (x + z), (x - z) * (x - z);
    assert s == x * x + 2 * (x * z) + z * z && d == x * x - 2 * (x * z) + z * z;
    SquareOfProduct(x + z, x - z);
    assert (x + z) * (x - z) == x * x - z * z;
  }

  lemma SquareOfProduct(a: int, b: int)
    ensures (a * a) * (b * b) == (a * b) * (a * b)
  {
  }

  /** The source's differential addition is the textbook's, mod p. */
  lemma AdditionFormula(x1: int, x2: int, z2: int, x3: int, z3: int)
    ensures Same(AddX(x2, z2, x3, z3), 4 * ((x2 * x3 - z2 * z3) * (x2 * x3 - z2 * z3)))
    ensures Same(AddZ(x1, x2, z2, x3, z3), x1 * (4 * ((x3 * z2 - z3 * x2) * (x3 * z2 - z3 * x2))))
  {
    hide Rem, Mul, Same;
    var da, cb := Mul(Rem(x3 - z3), Rem(x2 + z2)), Mul(Rem(x3 + z3), Rem(x2 - z2));
    var u, v := (x3 - z3) * (x2 + z2), (x3 + z3) * (x2 - z2);
    SameRem(x3 - z3);
    SameRem(x2 + z2);
    SameRem(x3 + z3);
    SameRem(x2 - z2);
    SameProduct(Rem(x3 - z3), x3 - z3, Rem(x2 + z2), x2 + z2);
    SameProduct(Rem(x3 + z3), x3 + z3, Rem(x2 - z2), x2 - z2);
    SameSum(da, u, cb, v);
    SumAndDifference(x2, z2, x3, z3);
    var p, q := x2 * x3 - z2 * z3, x3 * z2 - z3 * x2;
    SameProduct(da + cb, 2 * p, da + cb, 2 * p);
    SameProduct(da - cb, 2 * q, da - cb, 2 * q);
    FourTimes(p);
    FourTimes(q);
    SameTransitive(x1, x1, x1);
    SameProduct(x1, x1, Mul(da - cb, da - cb), 4 * (q * q));
  }

  lemma SumAndDifference(x2: int, z2: int, x3: int, z3: int)
    ensures var u, v := (x3 - z3) * (x2 + z2), (x3 + z3) * (x2 - z2);
      u + v == 2 * (x2 * x3 - z2 * z3) && u - v == 2 * (x3 * z2 - z3 * x2)
  {
  }

  lemma FourTimes(p: int)
    ensures (2 * p) * (2 * p) == 4 * (p * p)
  {
  }

  // ---- the two ladders ----------------------------------------------------

  function Start(x1: int): Regs {
    Regs(1, 0, x1, 1)
  }

  predicate BitOf(k: nat, t: nat) {
    Shr(k, t) % 2 == 1
  }

  /** The textbook ladder after bits 254 down to 255 - n: swap, step, swap back. */
  ghost function Textbook(x1: int, k: nat, n: nat): Regs
    requires n <= BITS
  {
    if n == 0 then Start(x1)
    else
      var bit := BitOf(k, BITS - n);
      CSwap(bit, Step(x1, CSwap(bit, Textbook(x1, k, n - 1))))
  }

  /** The source's ladder after the same bits: the registers and the pending swap. */
  ghost function Deferred(x1: int, k: nat, n: nat): (Regs, bool)
    requires n <= BITS
  {
    if n == 0 then (Start(x1), false)
    else
      var (r, swap) := Deferred(x1, k, n - 1);
      var bit := BitOf(k, BITS - n);
      (Step(x1, CSwap(swap != bit, r)), bit)
  }

  lemma DeferredStarts(x1: int, k: nat)
    ensures Deferred(x1, k, 0) == (Start(x1), false)
  {
  }

  lemma DeferredNext(x1: int, k: nat, n: nat)
    requires n < BITS
    ensures var (r, swap) := Deferred(x1, k, n);
      var bit := BitOf(k, BITS - 1 - n);
      Deferred(x1, k, n + 1) == (Step(x1, CSwap(swap != bit, r)), bit)
  {
    hide Step;
  }

  /** Carrying the pending swap out gives the textbook registers, after every bit. */
  lemma {:induction false} DeferredRefinesTextbook(x1: int, k: nat, n: nat)
    requires n <= BITS
    ensures CSwap(Deferred(x1, k, n).1, Deferred(x1, k, n).0) == Textbook(x1, k, n)
    decreases n
  {
    hide Step, BitOf;
    if n > 0 {
      DeferredRefinesTextbook(x1, k, n - 1);
    }
  }

  // ---- what the ladder computes -------------------------------------------

  /** A group given by its addition, a base point and the statement that (x : z) are
      x-only coordinates of a group element. */
  datatype Curve<!G(!new)> = Curve(zero: G, point: G, add: (G, G) -> G, at: (G, int, int) -> bool)
  {
    ghost predicate IsMonoid() {
      && (forall a: G, b: G, c: G :: add(add(a, b), c) == add(a, add(b, c)))
      && (forall a: G :: add(zero, a) == a && add(a, zero) == a)
    }

    /** The textbook formulas are those of the group: doubling for every element, and
        addition for elements that differ by the base point; and coordinates are
        coordinates mod p. */
    ghost predicate HasXOnlyLaw(x1: int) {
      && at(zero, 1, 0) && at(point, x1, 1)
      && (forall q: G, x: int, z: int, x': int, z': int {:trigger at(q, x, z), at(q, x', z')} ::
            at(q, x, z) && Same(x, x') && Same(z, z') ==> at(q, x', z'))
      && (forall q: G, x: int, z: int {:trigger at(q, x, z), DblX(x, z)} ::
            at(q, x, z) ==> at(add(q, q), DblX(x, z), DblZ(x, z)))
      && (forall q: G, x: int, z: int, x': int, z': int {:trigger at(q, x, z), SumX(x, z, x', z')} ::
            at(q, x, z) && at(add(q, point), x', z') ==>
              at(add(q, add(q, point)), SumX(x, z, x', z'), SumZ(x1, x, z, x', z')))
    }

    /** Coordinates are projective: never both zero, and the same point for the same ratio. */
    ghost predicate IsProjective() {
      && (forall q: G, x: int, z: int :: at(q, x, z) ==> !(Same(x, 0) && Same(z, 0)))
      && (forall q: G, x: int, z: int, x': int, z': int {:trigger at(q, x, z), at(q, x', z')} ::
            at(q, x, z) && at(q, x', z') ==> Same(x * z', x' * z))
    }

    /** n times the base point. */
    ghost function Times(n: nat): G {
      if n == 0 then zero else add(Times(n - 1), point)
    }
  }

  lemma {:induction false} TimesAdds<G(!new)>(c: Curve<G>, m: nat, n: nat)
    requires c.IsMonoid()
    ensures c.add(c.Times(m), c.Times(n)) == c.Times(m + n)
    decreases n
  {
    if n > 0 {
      TimesAdds(c, m, n - 1);
      assert c.add(c.add(c.Times(m), c.Times(n - 1)), c.point) == c.add(c.Times(m), c.add(c.Times(n - 1), c.point));
    }
  }

  /** The registers hold m and m + 1 times the base point. */
  ghost predicate Holds<G(!new)>(c: Curve<G>, r: Regs, m: nat) {
    c.at(c.Times(m), r.x2, r.z2) && c.at(c.Times(m + 1), r.x3, r.z3)
  }

  /** The source's doubling is the group's. */
  lemma DoublesAt<G(!new)>(c: Curve<G>, x1: int, q: G, x: int, z: int)
    requires c.HasXOnlyLaw(x1) && c.at(q, x, z)
    ensures c.at(c.add(q, q), DoubleX(x, z), DoubleZ(x, z))
  {
    hide DblX, DblZ, DoubleX, DoubleZ, Same;
    DoublingFormula(x, z);
    assert c.at(c.add(q, q), DblX(x, z), DblZ(x, z));
    SameSymmetric(DoubleX(x, z), DblX(x, z));
    SameSymmetric(DoubleZ(x, z), DblZ(x, z));
  }

  /** And its differential addition. */
  lemma AddsAt<G(!new)>(c: Curve<G>, x1: int, q: G, x: int, z: int, x': int, z': int)
    requires c.HasXOnlyLaw(x1) && c.at(q, x, z) && c.at(c.add(q, c.point), x', z')
    ensures c.at(c.add(q, c.add(q, c.point)), AddX(x, z, x', z'), AddZ(x1, x, z, x', z'))
  {
    hide SumX, SumZ, AddX, AddZ, Same;
    AdditionFormula(x1, x, z, x', z');
    SumUnfolds(x1, x, z, x', z');
    assert c.at(c.add(q, c.add(q, c.point)), SumX(x, z, x', z'), SumZ(x1, x, z, x', z'));
    SameSymmetric(AddX(x, z, x', z'), SumX(x, z, x', z'));
    SameSymmetric(AddZ(x1, x, z, x', z'), SumZ(x1, x, z, x', z'));
  }

  lemma SumUnfolds(x1: int, x2: int, z2: int, x3: int, z3: int)
    ensures SumX(x2, z2, x3, z3) == 4 * ((x2 * x3 - z2 * z3) * (x2 * x3 - z2 * z3))
    ensures SumZ(x1, x2, z2, x3, z3) == x1 * (4 * ((x3 * z2 - z3 * x2) * (x3 * z2 - z3 * x2)))
  {
  }

  lemma SameSymmetric(a: int, b: int)
    requires Same(a, b)
    ensures Same(b, a)
  {
    hide Multiple;
    var k :| a == b + Multiple(k);
    MultipleIs(k);
    SameBy(b, a, -k);
  }

  /** One textbook step: from m, m + 1 to 2m + bit, 2m + bit + 1. */
  lemma StepDoubles<G(!new)>(c: Curve<G>, x1: int, r: Regs, m: nat, bit: bool)
    requires c.IsMonoid() && c.HasXOnlyLaw(x1) && Holds(c, r, m)
    ensures Holds(c, CSwap(bit, Step(x1, CSwap(bit, r))), 2 * m + (if bit then 1 else 0))
  {
    hide DoubleX, DoubleZ, AddX, AddZ, Curve.IsMonoid, Curve.HasXOnlyLaw;
    var q := c.Times(m);
    assert c.Times(m + 1) == c.add(q, c.point);
    TimesAdds(c, m, m);
    TimesAdds(c, m, m + 1);
    TimesAdds(c, m + 1, m + 1);
    AddSymmetric(x1, r.x2, r.z2, r.x3, r.z3);
    AddsAt(c, x1, q, r.x2, r.z2, r.x3, r.z3);
    if bit {
      DoublesAt(c, x1, c.Times(m + 1), r.x3, r.z3);
    } else {
      DoublesAt(c, x1, q, r.x2, r.z2);
    }
  }

  /** Differential addition does not care which operand comes first. */
  lemma AddSymmetric(x1: int, x2: int, z2: int, x3: int, z3: int)
    ensures AddX(x3, z3, x2, z2) == AddX(x2, z2, x3, z3)
    ensures AddZ(x1, x3, z3, x2, z2) == AddZ(x1, x2, z2, x3, z3)
  {
    hide Rem, Mul;
    var da, cb := Mul(Rem(x3 - z3), Rem(x2 + z2)), Mul(Rem(x3 + z3), Rem(x2 - z2));
    MulCommutes(Rem(x2 - z2), Rem(x3 + z3));
    MulCommutes(Rem(x2 + z2), Rem(x3 - z3));
    assert cb + da == da + cb && cb - da == -(da - cb);
    MulNegations(da - cb);
  }

  lemma MulCommutes(a: int, b: int)
    ensures Mul(a, b) == Mul(b, a)
  {
    Commute(a, b);
    assert Mul(a, b) == RemMul(a, b) && Mul(b, a) == RemMul(b, a);
  }

  lemma MulNegations(a: int)
    ensures Mul(-a, -a) == Mul(a, a)
  {
    SquareOfNegation(a);
    assert Mul(a, a) == RemMul(a, a) && Mul(-a, -a) == RemMul(-a, -a);
  }

  lemma Commute(a: int, b: int)
    ensures a * b == b * a
  {
  }

  lemma SquareOfNegation(a: int)
    ensures a * a == (-a) * (-a)
  {
  }

  lemma ShrStep(k: nat, t: nat)
    ensures Shr(k, t) == 2 * Shr(k, t + 1) + Shr(k, t) % 2
  {
    ShrHalf(k, t);
  }

  lemma {:induction false} ShrHalf(k: nat, t: nat)
    ensures Shr(k, t + 1) == Shr(k, t) / 2
    decreases t
  {
    if t > 0 {
      ShrHalf(k / 2, t - 1);
    }
  }

  /** After n bits the registers differ by the base point and x2 : z2 is the multiple
      by the top n bits of the scalar. */
  lemma {:induction false} TextbookInvariant<G(!new)>(c: Curve<G>, x1: int, k: nat, n: nat)
    requires c.IsMonoid() && c.HasXOnlyLaw(x1) && k < Pow2(BITS) && n <= BITS
    ensures Holds(c, Textbook(x1, k, n), Shr(k, BITS - n))
    decreases n
  {
    hide Step, CSwap, Shr, Pow2, Curve.IsMonoid, Curve.HasXOnlyLaw, Holds;
    if n == 0 {
      StartHolds(c, x1, k);
    } else {
      TextbookInvariant(c, x1, k, n - 1);
      ShrStep(k, BITS - n);
      StepDoubles(c, x1, Textbook(x1, k, n - 1), Shr(k, BITS - n + 1), BitOf(k, BITS - n));
    }
  }

  lemma ShrAll(k: nat, bits: nat)
    requires k < Pow2(bits)
    ensures Shr(k, bits) == 0
  {
    ShrBound(k, 0, bits);
  }

  lemma StartHolds<G(!new)>(c: Curve<G>, x1: int, k: nat)
    requires c.IsMonoid() && c.HasXOnlyLaw(x1) && k < Pow2(BITS)
    ensures Holds(c, Start(x1), Shr(k, BITS))
  {
    hide Shr, Pow2;
    ShrAll(k, BITS);
    TimesSmall(c);
  }

  lemma TimesSmall<G(!new)>(c: Curve<G>)
    requires c.IsMonoid()
    ensures c.Times(0) == c.zero && c.Times(1) == c.point
  {
    assert c.Times(1) == c.add(c.Times(0), c.point);
  }

  /** The source's ladder ends at k times the base point, for every 255-bit scalar. */
  lemma LadderMultiplies<G(!new)>(c: Curve<G>, x1: int, k: nat)
    requires c.IsMonoid() && c.HasXOnlyLaw(x1) && k < Pow2(BITS)
    ensures var (r, swap) := Deferred(x1, k, BITS); Holds(c, CSwap(swap, r), k)
  {
    DeferredRefinesTextbook(x1, k, BITS);
    TextbookInvariant(c, x1, k, BITS);
    hide Textbook, Deferred, CSwap;
  }

  // ---- the whole function -------------------------------------------------

  /** `pow(b, e, P)` */
  function PowMod(b: int, e: nat): nat {
    if e == 0 then 1 % P else RemMul(b, PowMod(b, e - 1))
  }

  /** The registers the source has when its loop is done and the last swap made. */
  ghost function Ladder(x1: int, k: nat): Regs {
    var (r, swap) := Deferred(x1, k, BITS);
    CSwap(swap, r)
  }

  /** The step with each of its products carried out. */
  lemma StepReduced(x1: int, r: Regs)
    ensures var a, b, c, d := Rem(r.x2 + r.z2), Rem(r.x2 - r.z2), Rem(r.x3 + r.z3), Rem(r.x3 - r.z3);
      var aa: int, bb: int := RemMul(a, a), RemMul(b, b);
      var e: int, da: int, cb: int := Rem(aa - bb), RemMul(d, a), RemMul(c, b);
      Step(x1, r) == Regs(RemMul(aa, bb), RemMul(e, aa + 121665 * e),
                          RemMul(da + cb, da + cb), RemMul(x1, RemMul(da - cb, da - cb)))
  {
    hide Rem, RemMul;
  }

  /** The bytes the source returns. */
  ghost function HostResult(scalar: seq<Byte>, u: seq<Byte>): seq<Byte>
    requires |scalar| == 32
  {
    var r := Ladder(Le(u) % Pow2(255), Le(Clamped(scalar)));
    ToLe(RemMul(r.x2, PowMod(r.z2, P - 2)), 32)
  }

  method HostX25519(scalar: seq<Byte>, u: seq<Byte>) returns (result: seq<Byte>)
    requires |scalar| == 32
    ensures result == HostResult(scalar, u)
  {
    hide Rem, RemMul, Mul, Step, BitOf, ToLe, Le, PowMod, Clamped, Pow2, And, Deferred;
    var clamped := Clamp(scalar);
    var k := Le(clamped);
    AndMask(Le(u), BITS);
    var x1 := And(Le(u), Pow2(BITS) - 1);
    var x2: int, z2: int, x3: int, z3: int := 1, 0, x1, 1;
    var swap := false;
    var n := 0;
    DeferredStarts(x1, k);
    while n < BITS
      invariant n <= BITS
      invariant (Regs(x2, z2, x3, z3), swap) == Deferred(x1, k, n)
    {
      var kt := BitOf(k, BITS - 1 - n);
      swap := swap != kt;
      if swap {
        x2, x3 := x3, x2;
        z2, z3 := z3, z2;
      }
      swap := kt;
      ghost var swapped := Regs(x2, z2, x3, z3);
      DeferredNext(x1, k, n);
      StepReduced(x1, swapped);
      var a: int := Rem(x2 + z2);
      var aa: int := RemMul(a, a);
      var b: int := Rem(x2 - z2);
      var bb: int := RemMul(b, b);
      var e: int := Rem(aa - bb);
      var c: int := Rem(x3 + z3);
      var d: int := Rem(x3 - z3);
      var da: int := RemMul(d, a);
      var cb: int := RemMul(c, b);
      x3 := RemMul(da + cb, da + cb);
      z3 := RemMul(x1, RemMul(da - cb, da - cb));
      x2 := RemMul(aa, bb);
      z2 := RemMul(e, aa + 121665 * e);
      assert Regs(x2, z2, x3, z3) == Step(x1, swapped);
      n := n + 1;
    }
    if swap {
      x2, x3 := x3, x2;
      z2, z3 := z3, z2;
    }
    result := ToLe(RemMul(x2, PowMod(z2, P - 2)), 32);
  }

  /** A point whose x is 0 mod p: both z registers are 0 after any bit, ... */
  lemma {:induction false} ZeroPointKeepsZeroZ(x1: int, k: nat, n: nat)
    requires Same(x1, 0) && 0 < n <= BITS
    ensures Textbook(x1, k, n).z2 == 0 && Textbook(x1, k, n).z3 == 0
    decreases n
  {
    hide Step, BitOf, Same;
    var bit := BitOf(k, BITS - n);
    var r := CSwap(bit, Textbook(x1, k, n - 1));
    if n > 1 {
      ZeroPointKeepsZeroZ(x1, k, n - 1);
    }
    ZeroZ(x1, r);
  }

  lemma ZeroZ(x1: int, r: Regs)
    requires Same(x1, 0) && (r.z2 == 0 || Same(r.x2, 0))
    ensures Step(x1, r).z2 == 0 && Step(x1, r).z3 == 0
  {
    hide Same, DoubleX, DoubleZ, AddX, AddZ;
    DoublingFormula(r.x2, r.z2);
    AdditionFormula(x1, r.x2, r.z2, r.x3, r.z3);
    var cross := r.x3 * r.z2 - r.z3 * r.x2;
    ZeroTimes(x1, 4 * (cross * cross));
    ZeroTimes(r.x2, r.z2);
    ZeroTimes(r.z2, r.x2);
    Commute(r.x2, r.z2);
    SameTransitive(r.z2, 0, 0);
    var xz, rest := r.x2 * r.z2, r.x2 * r.x2 + 486662 * (r.x2 * r.z2) + r.z2 * r.z2;
    ZeroTimes(xz, 4);
    ZeroTimes(4 * xz, rest);
    DoubleZReduced(r.x2, r.z2);
    AddZReduced(x1, r.x2, r.z2, r.x3, r.z3);
    ReducedIsZero(DoubleZ(r.x2, r.z2), (4 * xz) * rest);
    ReducedIsZero(AddZ(x1, r.x2, r.z2, r.x3, r.z3), x1 * (4 * (cross * cross)));
  }

  lemma DoubleZReduced(x: int, z: int)
    ensures 0 <= DoubleZ(x, z) < P
  {
    hide Rem, Mul, Same;
    var aa, bb := Mul(Rem(x + z), Rem(x + z)), Mul(Rem(x - z), Rem(x - z));
    var e: int := Rem(aa - bb);
    SameMul(e, aa + 121665 * e);
  }

  lemma AddZReduced(x1: int, x2: int, z2: int, x3: int, z3: int)
    ensures 0 <= AddZ(x1, x2, z2, x3, z3) < P
  {
    hide Rem, Mul, Same;
    var da, cb := Mul(Rem(x3 - z3), Rem(x2 + z2)), Mul(Rem(x3 + z3), Rem(x2 - z2));
    SameMul(x1, Mul(da - cb, da - cb));
  }

  lemma ZeroTimes(a: int, b: int)
    ensures Same(a, 0) ==> Same(a * b, 0) && Same(b * a, 0)
  {
    if Same(a, 0) {
      SameTransitive(b, b, b);
      SameProduct(a, 0, b, b);
      Commute(a, b);
    }
  }

  lemma ReducedIsZero(v: int, w: int)
    requires 0 <= v < P && Same(v, w) && Same(w, 0)
    ensures v == 0
  {
    hide Same;
    SameTransitive(v, w, 0);
    SameIsRemainder(v, 0);
  }

  lemma PowOfZero(z: int, e: nat)
    requires Same(z, 0) && e > 0
    ensures PowMod(z, e) == 0
  {
    hide Same;
    var rest := PowMod(z, e - 1);
    ZeroTimes(z, rest);
    SameRemMul(z, rest);
    SameTransitive(RemMul(z, rest), z * rest, 0);
    SameTransitive(0, 0, 0);
    ReducedIsZero(RemMul(z, rest), 0);
  }

  /** ... so the shared secret of such a point is all zero bytes, whatever the scalar
      (section 6.1 of RFC 7748 has the caller check for this). */
  lemma ZeroPointGivesZero(x1: int, k: nat)
    requires Same(x1, 0)
    ensures var r := Ladder(x1, k); r.z2 == 0 && RemMul(r.x2, PowMod(r.z2, P - 2)) == 0
  {
    hide Same, PowMod, CSwap, Textbook, Deferred, RemMul;
    DeferredRefinesTextbook(x1, k, BITS);
    ZeroPointKeepsZeroZ(x1, k, BITS);
    SameTransitive(0, 0, 0);
    PowOfZero(0, P - 2);
    RemMulZero(Ladder(x1, k).x2);
  }

  lemma RemMulZero(a: int)
    ensures RemMul(a, 0) == 0
  {
  }

  /** Where pow(z, P-2, P) inverts z, as Fermat's little theorem says it does for every
      z not divisible by the prime P, the result is the affine coordinate x / z. */
  lemma ResultIsAffine(x: int, z: int)
    requires Same(z * PowMod(z, P - 2), 1)
    ensures Same(z * RemMul(x, PowMod(z, P - 2)), x)
  {
    hide PowMod, Same;
    var w := PowMod(z, P - 2);
    SameRemMul(x, w);
    SameTransitive(z, z, z);
    SameTransitive(x, x, x);
    SameProduct(z, z, RemMul(x, w), x * w);
    Rearrange(x, z, w);
    SameProduct(x, x, z * w, 1);
    SameTransitive(z * RemMul(x, w), x * (z * w), x);
  }

  lemma Rearrange(x: int, z: int, w: int)
    ensures z * (x * w) == x * (z * w)
  {
  }

  /** Fermat's little theorem for p, by which pow(z, P-2, P) inverts z. */
  ghost predicate Fermat() {
    forall z: int :: !Same(z, 0) ==> Same(z * PowMod(z, P - 2), 1)
  }

  /** v is the affine x coordinate of q, 0 standing for the point at infinity, whatever
      coordinates of q one looks at. */
  ghost predicate IsAffine<G(!new)>(c: Curve<G>, q: G, v: int) {
    forall x: int, z: int :: c.at(q, x, z) ==> if Same(z, 0) then v == 0 else Same(z * v, x)
  }

  /** The whole function: the 32 bytes are the affine x coordinate of the clamped scalar
      times the point, that scalar being a multiple of 8 in [2^254, 2^255). */
  lemma HostMultiplies<G(!new)>(c: Curve<G>, scalar: seq<Byte>, u: seq<Byte>)
    requires |scalar| == 32 && Fermat()
    requires c.IsMonoid() && c.IsProjective() && c.HasXOnlyLaw(Le(u) % Pow2(255))
    ensures var k, result := Le(Clamped(scalar)), HostResult(scalar, u);
      && IsClamped(k) && |result| == 32 && Le(result) < P
      && IsAffine(c, c.Times(k), Le(result))
  {
    hide Fermat, Curve.HasXOnlyLaw, Curve.IsMonoid, RemMul, PowMod, Le, ToLe, Clamped, IsAffine, Pow2;
    var k, x1 := Le(Clamped(scalar)), Le(u) % Pow2(255);
    ClampedIsInRange(scalar);
    LadderMultiplies(c, x1, k);
    var r := Ladder(x1, k);
    var v := RemMul(r.x2, PowMod(r.z2, P - 2));
    FieldFits(v);
    ToLeInverse(v, 32);
    assert c.at(c.Times(k), r.x2, r.z2);
    AffineOfRegisters(c, c.Times(k), r.x2, r.z2);
  }

  lemma FieldFits(v: nat)
    requires v < P
    ensures v < Pow256(32)
  {
    assert Pow256(4) == 0x1_0000_0000;
    Pow256Adds(4, 4);
    Pow256Adds(8, 8);
    Pow256Adds(16, 16);
  }

  lemma {:induction false} Pow256Adds(m: nat, n: nat)
    ensures Pow256(m + n) == Pow256(m) * Pow256(n)
  {
    if m > 0 {
      Pow256Adds(m - 1, n);
      Reassociate(Pow256(m - 1), Pow256(n));
    }
  }

  /** x2 * z2^(p-2) is the affine x coordinate of the point at (x2 : z2). */
  lemma AffineOfRegisters<G(!new)>(c: Curve<G>, q: G, x2: int, z2: int)
    requires Fermat() && c.IsProjective() && c.at(q, x2, z2)
    ensures IsAffine(c, q, RemMul(x2, PowMod(z2, P - 2)))
  {
    hide Same, RemMul, PowMod, Multiple;
    var v := RemMul(x2, PowMod(z2, P - 2));
    forall x: int, z: int | c.at(q, x, z)
      ensures if Same(z, 0) then v == 0 else Same(z * v, x)
    {
      assert Same(x2 * z, x * z2) && !(Same(x2, 0) && Same(z2, 0)) && !(Same(x, 0) && Same(z, 0));
      if Same(z2, 0) {
        InfinityGivesZero(x2, z2);
        ZeroAtInfinity(x2, z2, x, z);
      } else {
        assert Same(z2 * PowMod(z2, P - 2), 1);
        ResultIsAffine(x2, z2);
        SameRatio(x2, z2, x, z, v, PowMod(z2, P - 2));
        if Same(z, 0) {
          ZeroAtInfinity(x, z, x2, z2);
        }
      }
    }
  }

  lemma InfinityGivesZero(x: int, z: int)
    requires Same(z, 0)
    ensures RemMul(x, PowMod(z, P - 2)) == 0
  {
    hide PowMod;
    PowOfZero(z, P - 2);
    RemMulZero(x);
  }

  /** Of two coordinates of one point neither or both have z = 0. */
  lemma ZeroAtInfinity(x: int, z: int, x': int, z': int)
    requires Fermat() && Same(z, 0) && !Same(x, 0) && Same(x * z', x' * z)
    ensures Same(z', 0)
  {
    hide Same, PowMod;
    var w := PowMod(x, P - 2);
    assert Same(x * w, 1);
    ZeroTimes(z, x');
    SameTransitive(x * z', x' * z, 0);
    ZeroTimes(x * z', w);
    Rearrange(w, x, z');
    assert w * (x * z') == (x * w) * z' by { Regroup(w, x, z'); }
    SameTransitive(z', z', z');
    SameProduct(x * w, 1, z', z');
    SameSymmetric((x * w) * z', 1 * z');
    SameTransitive(z', (x * w) * z', 0);
  }

  lemma Regroup(w: int, x: int, z: int)
    ensures w * (x * z) == (x * w) * z
  {
  }

  /** From z2 v = x2 and x2 z = x z2 it follows that z v = x, z2 having an inverse. */
  lemma SameRatio(x2: int, z2: int, x: int, z: int, v: int, w: int)
    requires Same(z2 * v, x2) && Same(x2 * z, x * z2) && Same(z2 * w, 1)
    ensures Same(z * v, x)
  {
    hide Same;
    SameTransitive(z, z, z);
    SameTransitive(w, w, w);
    SameTransitive(x, x, x);
    SameTransitive(z * v, z * v, z * v);
    SameProduct(z2 * v, x2, z, z);
    SameTransitive((z2 * v) * z, x2 * z, x * z2);
    SameProduct((z2 * v) * z, x * z2, w, w);
    Shuffle(z2, v, z, w, x);
    SameProduct(z2 * w, 1, z * v, z * v);
    SameProduct(x, x, z2 * w, 1);
    SameSymmetric((z2 * w) * (z * v), 1 * (z * v));
    SameTransitive(z * v, (z2 * w) * (z * v), x * (z2 * w));
    SameTransitive(z * v, x * (z2 * w), x);
  }

  lemma Shuffle(z2: int, v: int, z: int, w: int, x: int)
    ensures ((z2 * v) * z) * w == (z2 * w) * (z * v)
    ensures (x * z2) * w == x * (z2 * w)
  {
    assert ((z2 * v) * z) * w == z2 * v * z * w;
    assert (z2 * w) * (z * v) == z2 * v * z * w;
  }
}
