/** The ChaCha20 reference of the host (section 2 of RFC 8439), on Python integers:
    words are naturals masked where the source masks them. */
module ChaCha20 {
  import opened Bits
  import opened Bytes

  const WORD: nat := 0x1_0000_0000

  /** `((v << n) | (v >> (32 - n))) & 0xFFFFFFFF` */
  function Rotl32(v: nat, n: nat): (r: nat)
    requires 0 < n < 32
    ensures r < WORD
  {
    Or(Shl(v, n), Shr(v, 32 - n)) % WORD
  }

  predicate Words(s: seq<nat>) {
    |s| == 16 && forall k :: 0 <= k < 16 ==> s[k] < WORD
  }

  // ---- the quarter round --------------------------------------------------

  /** s[x] += s[y]; s[z] = rotl(s[z] ^ s[x], n) */
  function Mix(s: seq<nat>, x: nat, y: nat, z: nat, n: nat): (t: seq<nat>)
    requires |s| == 16 && x < 16 && y < 16 && z < 16 && 0 < n < 32
    ensures |t| == 16
  {
    var s1 := s[x := (s[x] + s[y]) % WORD];
    s1[z := Rotl32(Xor(s1[z], s1[x]), n)]
  }

  function Unmix(s: seq<nat>, x: nat, y: nat, z: nat, n: nat): (t: seq<nat>)
    requires |s| == 16 && x < 16 && y < 16 && z < 16 && 0 < n < 32
    ensures |t| == 16
  {
    var s1 := s[z := Xor(Rotl32(s[z], 32 - n), s[x])];
    s1[x := (s1[x] - s1[y]) % WORD]
  }

  function QuarterRound(s: seq<nat>, a: nat, b: nat, c: nat, d: nat): (t: seq<nat>)
    requires |s| == 16 && a < 16 && b < 16 && c < 16 && d < 16
    ensures |t| == 16
  {
    Mix(Mix(Mix(Mix(s, a, b, d, 16), c, d, b, 12), a, b, d, 8), c, d, b, 7)
  }

  function UnquarterRound(s: seq<nat>, a: nat, b: nat, c: nat, d: nat): (t: seq<nat>)
    requires |s| == 16 && a < 16 && b < 16 && c < 16 && d < 16
    ensures |t| == 16
  {
    Unmix(Unmix(Unmix(Unmix(s, c, d, b, 7), a, b, d, 8), c, d, b, 12), a, b, d, 16)
  }

  method QuarterRoundRef(state: array<nat>, a: nat, b: nat, c: nat, d: nat)
    requires state.Length == 16 && a < 16 && b < 16 && c < 16 && d < 16
    modifies state
    ensures state[..] == QuarterRound(old(state[..]), a, b, c, d)
  {
    MixRef(state, a, b, d, 16);
    MixRef(state, c, d, b, 12);
    MixRef(state, a, b, d, 8);
    MixRef(state, c, d, b, 7);
  }

  /** One line group of the quarter round: add, exclusive-or, rotate. */
  method MixRef(state: array<nat>, x: nat, y: nat, z: nat, n: nat)
    requires state.Length == 16 && x < 16 && y < 16 && z < 16 && 0 < n < 32
    modifies state
    ensures state[..] == Mix(old(state[..]), x, y, z, n)
  {
    state[x] := (state[x] + state[y]) % WORD;
    state[z] := Xor(state[z], state[x]);
    state[z] := Rotl32(state[z], n);
  }

  // ---- rotation is a permutation of words ---------------------------------

  lemma WordIsPow2()
    ensures Pow2(32) == WORD
  {
    Pow2Values();
    Pow2Add(8, 8);
    Pow2Add(16, 16);
  }

  lemma ShiftedHalves(v: nat, n: nat)
    requires v < WORD && 0 < n < 32
    ensures var hi, lo := Shr(v, 32 - n), Low(v, 32 - n);
      && hi < Pow2(n) && lo < Pow2(32 - n)
      && Shl(v, n) == WORD * hi + Shl(lo, n) && Shl(lo, n) + hi < WORD
  {
    var m := 32 - n;
    var hi, lo := Shr(v, m), Low(v, m);
    WordIsPow2();
    SplitLow(v, m);
    ShrBound(v, n, m);
    ShlAdd(Shl(hi, m), lo, n);
    ShlShl(hi, m, n);
    ShlIsMul(hi, 32);
    ShlBound(lo, m, n);
  }

  /** A rotation swaps the high n bits with the rest. */
  lemma RotlSwaps(v: nat, n: nat)
    requires v < WORD && 0 < n < 32
    ensures Shr(v, 32 - n) < Pow2(n) && Low(v, 32 - n) < Pow2(32 - n)
    ensures Rotl32(v, n) == Shl(Low(v, 32 - n), n) + Shr(v, 32 - n)
  {
    ShiftedHalves(v, n);
    OrDisjoint(v, Shr(v, 32 - n), n);
    var hi, low := Shr(v, 32 - n), Shl(Low(v, 32 - n), n) + Shr(v, 32 - n);
    assert Or(Shl(v, n), hi) == WORD * hi + low;
    DivModUnique(WORD * hi + low, WORD, hi, low);
    hide Or, Shl, Shr, Low, Pow2;
  }

  lemma RotlInverse(v: nat, n: nat)
    requires v < WORD && 0 < n < 32
    ensures Rotl32(Rotl32(v, n), 32 - n) == v
  {
    var m := 32 - n;
    var hi, lo := Shr(v, m), Low(v, m);
    RotlSwaps(v, n);
    RotlSwaps(Rotl32(v, n), m);
    JoinLow(lo, hi, n);
    SplitLow(v, m);
  }

  // ---- the quarter round is a permutation of states -----------------------

  lemma XorWord(x: nat, y: nat)
    requires x < WORD && y < WORD
    ensures Xor(x, y) < WORD
  {
    WordIsPow2();
    Width(x, y, 32);
  }

  lemma AddSub(x: nat, y: nat)
    requires x < WORD && y < WORD
    ensures ((x + y) % WORD - y) % WORD == x
    ensures ((x - y) % WORD + y) % WORD == x
  {
  }

  lemma MixUnmix(s: seq<nat>, x: nat, y: nat, z: nat, n: nat)
    requires Words(s) && x < 16 && y < 16 && z < 16 && x != y && x != z && y != z && 0 < n < 32
    ensures Words(Mix(s, x, y, z, n)) && Unmix(Mix(s, x, y, z, n), x, y, z, n) == s
  {
    hide Xor, Rotl32;
    var sum := (s[x] + s[y]) % WORD;
    XorWord(s[z], sum);
    RotlInverse(Xor(s[z], sum), n);
    XorCancels(s[z], sum);
    AddSub(s[x], s[y]);
  }

  lemma UnmixMix(s: seq<nat>, x: nat, y: nat, z: nat, n: nat)
    requires Words(s) && x < 16 && y < 16 && z < 16 && x != y && x != z && y != z && 0 < n < 32
    ensures Words(Unmix(s, x, y, z, n)) && Mix(Unmix(s, x, y, z, n), x, y, z, n) == s
  {
    hide Xor, Rotl32;
    var w := Rotl32(s[z], 32 - n);
    XorWord(w, s[x]);
    XorCancels(w, s[x]);
    RotlInverse(s[z], 32 - n);
    AddSub(s[x], s[y]);
  }

  predicate Distinct(a: nat, b: nat, c: nat, d: nat) {
    a < 16 && b < 16 && c < 16 && d < 16 && a != b && a != c && a != d && b != c && b != d && c != d
  }

  /** On any four distinct slots the quarter round is a bijection of word states. */
  lemma QuarterRoundBijective(s: seq<nat>, a: nat, b: nat, c: nat, d: nat)
    requires Words(s) && Distinct(a, b, c, d)
    ensures Words(QuarterRound(s, a, b, c, d)) && Words(UnquarterRound(s, a, b, c, d))
    ensures UnquarterRound(QuarterRound(s, a, b, c, d), a, b, c, d) == s
    ensures QuarterRound(UnquarterRound(s, a, b, c, d), a, b, c, d) == s
  {
    assert |s| == 16;
    hide Mix, Unmix, Words;
    var s1 := Mix(s, a, b, d, 16);
    MixUnmix(s, a, b, d, 16);
    var s2 := Mix(s1, c, d, b, 12);
    MixUnmix(s1, c, d, b, 12);
    var s3 := Mix(s2, a, b, d, 8);
    MixUnmix(s2, a, b, d, 8);
    MixUnmix(s3, c, d, b, 7);
    var u1 := Unmix(s, c, d, b, 7);
    UnmixMix(s, c, d, b, 7);
    var u2 := Unmix(u1, a, b, d, 8);
    UnmixMix(u1, a, b, d, 8);
    var u3 := Unmix(u2, c, d, b, 12);
    UnmixMix(u2, c, d, b, 12);
    UnmixMix(u3, a, b, d, 16);
  }

  // ---- the rounds ---------------------------------------------------------

  /** The slots of one double round: four columns, then four diagonals. */
  const SCHEDULE: seq<(nat, nat, nat, nat)> := [
    (0, 4, 8, 12), (1, 5, 9, 13), (2, 6, 10, 14), (3, 7, 11, 15),
    (0, 5, 10, 15), (1, 6, 11, 12), (2, 7, 8, 13), (3, 4, 9, 14)]

  lemma ScheduleIsDistinct(k: nat)
    requires k < 8
    ensures var (a, b, c, d) := SCHEDULE[k]; Distinct(a, b, c, d)
  {
  }

  /** The first k quarter rounds of a double round. */
  function Quarters(s: seq<nat>, k: nat): (t: seq<nat>)
    requires |s| == 16 && k <= 8
    ensures |t| == 16
    decreases k, s
  {
    hide QuarterRound;
    if k == 0 then s
    else
      ScheduleIsDistinct(k - 1);
      var (a, b, c, d) := SCHEDULE[k - 1];
      QuarterRound(Quarters(s, k - 1), a, b, c, d)
  }

  function Unquarters(s: seq<nat>, k: nat): (t: seq<nat>)
    requires |s| == 16 && k <= 8
    ensures |t| == 16
    decreases k, s
  {
    hide UnquarterRound;
    if k == 0 then s
    else
      ScheduleIsDistinct(k - 1);
      var (a, b, c, d) := SCHEDULE[k - 1];
      Unquarters(UnquarterRound(s, a, b, c, d), k - 1)
  }

  function DoubleRound(s: seq<nat>): (t: seq<nat>)
    requires |s| == 16
    ensures |t| == 16
  {
    Quarters(s, 8)
  }

  function UndoubleRound(s: seq<nat>): (t: seq<nat>)
    requires |s| == 16
    ensures |t| == 16
  {
    Unquarters(s, 8)
  }

  function Rounds(s: seq<nat>, n: nat): (t: seq<nat>)
    requires |s| == 16
    ensures |t| == 16
    decreases n, s
  {
    hide DoubleRound;
    if n == 0 then s else DoubleRound(Rounds(s, n - 1))
  }

  function Unrounds(s: seq<nat>, n: nat): (t: seq<nat>)
    requires |s| == 16
    ensures |t| == 16
    decreases n, s
  {
    hide UndoubleRound;
    if n == 0 then s else Unrounds(UndoubleRound(s), n - 1)
  }

  lemma QuartersStep(s: seq<nat>, k: nat)
    requires |s| == 16 && k < 8
    ensures var (a, b, c, d) := SCHEDULE[k];
      && Distinct(a, b, c, d)
      && Quarters(s, k + 1) == QuarterRound(Quarters(s, k), a, b, c, d)
      && Unquarters(s, k + 1) == Unquarters(UnquarterRound(s, a, b, c, d), k)
  {
    hide QuarterRound, UnquarterRound;
    ScheduleIsDistinct(k);
  }

  lemma QuartersNone(s: seq<nat>)
    requires |s| == 16
    ensures Quarters(s, 0) == s && Unquarters(Quarters(s, 0), 0) == s
    ensures Unquarters(s, 0) == s && Quarters(Unquarters(s, 0), 0) == s
  {
  }

  lemma UndoOneQuarter(s: seq<nat>, k: nat)
    requires Words(s) && k < 8 && Words(Quarters(s, k)) && Unquarters(Quarters(s, k), k) == s
    ensures Words(Quarters(s, k + 1)) && Unquarters(Quarters(s, k + 1), k + 1) == s
  {
    assert |s| == 16;
    hide Quarters, Unquarters, QuarterRound, UnquarterRound, Words;
    var (a, b, c, d) := SCHEDULE[k];
    var q, t := Quarters(s, k), Quarters(s, k + 1);
    QuartersStep(s, k);
    QuarterRoundBijective(q, a, b, c, d);
    assert UnquarterRound(t, a, b, c, d) == q;
    QuartersStep(t, k);
    assert Unquarters(t, k + 1) == Unquarters(q, k);
  }

  lemma RedoOneQuarter(s: seq<nat>, k: nat)
    requires |s| == 16 && k < 8
    requires var (a, b, c, d) := SCHEDULE[k];
      && Distinct(a, b, c, d) && Words(s)
      && var r := UnquarterRound(s, a, b, c, d);
         Words(r) && Words(Unquarters(r, k)) && Quarters(Unquarters(r, k), k) == r
    ensures Words(Unquarters(s, k + 1)) && Quarters(Unquarters(s, k + 1), k + 1) == s
  {
    hide Quarters, Unquarters, QuarterRound, UnquarterRound, Words;
    var (a, b, c, d) := SCHEDULE[k];
    var r, u := UnquarterRound(s, a, b, c, d), Unquarters(s, k + 1);
    QuartersStep(s, k);
    QuarterRoundBijective(s, a, b, c, d);
    assert Quarters(u, k) == r;
    QuartersStep(u, k);
    assert Quarters(u, k + 1) == QuarterRound(r, a, b, c, d);
  }

  lemma {:induction false} UnquartersUndoes(s: seq<nat>, k: nat)
    requires Words(s) && k <= 8
    ensures Words(Quarters(s, k)) && Unquarters(Quarters(s, k), k) == s
    decreases k
  {
    assert |s| == 16;
    hide Quarters, Unquarters, Words;
    if k == 0 {
      QuartersNone(s);
    } else {
      UnquartersUndoes(s, k - 1);
      UndoOneQuarter(s, k - 1);
    }
  }

  lemma {:induction false} QuartersRedoes(s: seq<nat>, k: nat)
    requires Words(s) && k <= 8
    ensures Words(Unquarters(s, k)) && Quarters(Unquarters(s, k), k) == s
    decreases k
  {
    assert |s| == 16;
    hide Quarters, Unquarters, QuarterRound, UnquarterRound, Words;
    if k == 0 {
      QuartersNone(s);
    } else {
      ScheduleIsDistinct(k - 1);
      var (a, b, c, d) := SCHEDULE[k - 1];
      var r := UnquarterRound(s, a, b, c, d);
      QuarterRoundBijective(s, a, b, c, d);
      QuartersRedoes(r, k - 1);
      RedoOneQuarter(s, k - 1);
    }
  }

  /** A double round, or any part of one, is undone from both sides. */
  lemma QuartersInvert(s: seq<nat>, k: nat)
    requires Words(s) && k <= 8
    ensures Words(Quarters(s, k)) && Unquarters(Quarters(s, k), k) == s
    ensures Words(Unquarters(s, k)) && Quarters(Unquarters(s, k), k) == s
  {
    UnquartersUndoes(s, k);
    QuartersRedoes(s, k);
  }

  lemma DoubleRoundBijective(s: seq<nat>)
    requires Words(s)
    ensures Words(DoubleRound(s)) && UndoubleRound(DoubleRound(s)) == s
    ensures Words(UndoubleRound(s)) && DoubleRound(UndoubleRound(s)) == s
  {
    QuartersInvert(s, 8);
    hide Quarters, Unquarters;
  }

  lemma RoundsStep(s: seq<nat>, n: nat)
    requires |s| == 16 && n > 0
    ensures Rounds(s, n) == DoubleRound(Rounds(s, n - 1))
    ensures Unrounds(s, n) == Unrounds(UndoubleRound(s), n - 1)
  {
    hide DoubleRound, UndoubleRound;
  }

  lemma RoundsNone(s: seq<nat>)
    requires |s| == 16
    ensures Rounds(s, 0) == s && Unrounds(Rounds(s, 0), 0) == s
    ensures Unrounds(s, 0) == s && Rounds(Unrounds(s, 0), 0) == s
  {
  }

  lemma UndoOneMore(s: seq<nat>, n: nat)
    requires Words(s) && n > 0 && Words(Rounds(s, n - 1)) && Unrounds(Rounds(s, n - 1), n - 1) == s
    ensures Words(Rounds(s, n)) && Unrounds(Rounds(s, n), n) == s
  {
    assert |s| == 16;
    hide Rounds, Unrounds, DoubleRound, UndoubleRound, Words;
    var r, t := Rounds(s, n - 1), Rounds(s, n);
    RoundsStep(s, n);
    DoubleRoundBijective(r);
    assert UndoubleRound(t) == r;
    RoundsStep(t, n);
    assert Unrounds(t, n) == Unrounds(r, n - 1);
  }

  lemma RedoOneMore(s: seq<nat>, n: nat)
    requires Words(s) && n > 0
    requires var r := UndoubleRound(s); Words(r) && Words(Unrounds(r, n - 1)) && Rounds(Unrounds(r, n - 1), n - 1) == r
    ensures Words(Unrounds(s, n)) && Rounds(Unrounds(s, n), n) == s
  {
    assert |s| == 16;
    hide Rounds, Unrounds, DoubleRound, UndoubleRound, Words;
    DoubleRoundBijective(s);
    var r, t := UndoubleRound(s), Unrounds(s, n);
    RoundsStep(s, n);
    assert Rounds(t, n - 1) == r;
    RoundsStep(t, n);
    assert Rounds(t, n) == DoubleRound(r);
  }

  lemma {:induction false} UnroundsUndoes(s: seq<nat>, n: nat)
    requires Words(s)
    ensures Words(Rounds(s, n)) && Unrounds(Rounds(s, n), n) == s
    decreases n
  {
    assert |s| == 16;
    hide Rounds, Unrounds, DoubleRound, UndoubleRound, Words;
    if n == 0 {
      RoundsNone(s);
    } else {
      UnroundsUndoes(s, n - 1);
      UndoOneMore(s, n);
    }
  }

  lemma UndoneWords(s: seq<nat>)
    requires Words(s)
    ensures Words(UndoubleRound(s))
  {
    DoubleRoundBijective(s);
  }

  lemma {:induction false} RoundsRedoes(s: seq<nat>, n: nat)
    requires Words(s)
    ensures Words(Unrounds(s, n)) && Rounds(Unrounds(s, n), n) == s
    decreases n
  {
    SixteenWords(s);
    hide Rounds, Unrounds, DoubleRound, UndoubleRound, Words;
    if n == 0 {
      RoundsNone(s);
    } else {
      UndoneWords(s);
      RoundsRedoes(UndoubleRound(s), n - 1);
      RedoOneMore(s, n);
    }
  }

  lemma SixteenWords(s: seq<nat>)
    requires Words(s)
    ensures |s| == 16
  {
  }

  /** The working permutation of the block function, any number of double rounds, is a
      bijection of word states: Unrounds undoes it from both sides. */
  lemma RoundsBijective(s: seq<nat>, n: nat)
    requires Words(s)
    ensures Words(Rounds(s, n)) && Unrounds(Rounds(s, n), n) == s
    ensures Words(Unrounds(s, n)) && Rounds(Unrounds(s, n), n) == s
  {
    UnroundsUndoes(s, n);
    RoundsRedoes(s, n);
  }

  // ---- one block ----------------------------------------------------------

  /** `struct.unpack('<nI', bs)` */
  function LeWords(bs: seq<Byte>): (r: seq<nat>)
    requires |bs| % 4 == 0
    ensures |r| == |bs| / 4
  {
    if |bs| == 0 then [] else [Le(bs[..4])] + LeWords(bs[4..])
  }

  /** `struct.pack('<nI', ws)` */
  function PackWords(ws: seq<nat>): (r: seq<Byte>)
    ensures |r| == 4 * |ws|
  {
    if |ws| == 0 then [] else ToLe(ws[0], 4) + PackWords(ws[1..])
  }

  const CONSTANTS: seq<nat> := [0x61707865, 0x3320646e, 0x79622d32, 0x6b206574]

  function InitialState(key: seq<Byte>, counter: nat, nonce: seq<Byte>): (s: seq<nat>)
    requires |key| == 32 && |nonce| == 12
    ensures |s| == 16
  {
    CONSTANTS + LeWords(key) + [counter] + LeWords(nonce)
  }

  function AddStates(w: seq<nat>, s: seq<nat>): (r: seq<nat>)
    requires |w| == 16 && |s| == 16
    ensures |r| == 16
  {
    seq(16, i requires 0 <= i < 16 => (w[i] + s[i]) % WORD)
  }

  function Block(key: seq<Byte>, counter: nat, nonce: seq<Byte>): (r: seq<Byte>)
    requires |key| == 32 && |nonce| == 12
    ensures |r| == 64
  {
    var s := InitialState(key, counter, nonce);
    PackWords(AddStates(Rounds(s, 10), s))
  }

  method BlockRef(key: seq<Byte>, counter: nat, nonce: seq<Byte>) returns (block: seq<Byte>)
    requires |key| == 32 && |nonce| == 12
    ensures block == Block(key, counter, nonce)
  {
    var state := InitialState(key, counter, nonce);
    var working := new nat[16](i requires 0 <= i < 16 => state[i]);
    assert working[..] == state;
    for n := 0 to 10
      invariant working[..] == Rounds(state, n)
    {
      ghost var before := working[..];
      hide QuarterRound;
      QuarterRoundRef(working, 0, 4, 8, 12);
      QuarterRoundRef(working, 1, 5, 9, 13);
      QuarterRoundRef(working, 2, 6, 10, 14);
      QuarterRoundRef(working, 3, 7, 11, 15);
      QuarterRoundRef(working, 0, 5, 10, 15);
      QuarterRoundRef(working, 1, 6, 11, 12);
      QuarterRoundRef(working, 2, 7, 8, 13);
      QuarterRoundRef(working, 3, 4, 9, 14);
      DoubleRoundUnrolled(before);
    }
    block := PackWords(AddStates(working[..], state));
  }

  lemma DoubleRoundUnrolled(s: seq<nat>)
    requires |s| == 16
    ensures DoubleRound(s) ==
      QuarterRound(QuarterRound(QuarterRound(QuarterRound(
        QuarterRound(QuarterRound(QuarterRound(QuarterRound(s,
          0, 4, 8, 12), 1, 5, 9, 13), 2, 6, 10, 14), 3, 7, 11, 15),
          0, 5, 10, 15), 1, 6, 11, 12), 2, 7, 8, 13), 3, 4, 9, 14)
  {
    hide QuarterRound;
    QuartersStep(s, 0);
    QuartersStep(s, 1);
    QuartersStep(s, 2);
    QuartersStep(s, 3);
    QuartersStep(s, 4);
    QuartersStep(s, 5);
    QuartersStep(s, 6);
    QuartersStep(s, 7);
    assert Quarters(s, 0) == s;
    hide Quarters;
  }

  // ---- encryption ---------------------------------------------------------

  function XorByte(x: Byte, k: Byte): Byte {
    Pow2Values();
    Width(x, k, 8);
    Xor(x, k)
  }

  /** `bytes(b ^ k for b, k in zip(chunk, block))` */
  function XorZip(chunk: seq<Byte>, block: seq<Byte>): (r: seq<Byte>)
    requires |chunk| <= |block|
    ensures |r| == |chunk|
  {
    seq(|chunk|, i requires 0 <= i < |chunk| => XorByte(chunk[i], block[i]))
  }

  function Encrypt(key: seq<Byte>, counter: nat, nonce: seq<Byte>, text: seq<Byte>): (r: seq<Byte>)
    requires |key| == 32 && |nonce| == 12
    ensures |r| == |text|
    decreases |text|
  {
    hide Block, XorZip;
    if |text| <= 64 then (if |text| == 0 then [] else XorZip(text, Block(key, counter, nonce)))
    else XorZip(text[..64], Block(key, counter, nonce)) + Encrypt(key, counter + 1, nonce, text[64..])
  }

  lemma EncryptStep(key: seq<Byte>, counter: nat, nonce: seq<Byte>, text: seq<Byte>)
    requires |key| == 32 && |nonce| == 12 && |text| > 0
    ensures var n := if |text| < 64 then |text| else 64;
      Encrypt(key, counter, nonce, text)
      == XorZip(text[..n], Block(key, counter, nonce)) + Encrypt(key, counter + 1, nonce, text[n..])
  {
    hide Block, XorZip;
    if |text| <= 64 {
      assert text[..|text|] == text && Encrypt(key, counter + 1, nonce, text[|text|..]) == [];
    }
  }

  method EncryptRef(key: seq<Byte>, counter: nat, nonce: seq<Byte>, text: seq<Byte>) returns (result: seq<Byte>)
    requires |key| == 32 && |nonce| == 12
    ensures result == Encrypt(key, counter, nonce, text)
  {
    hide Block, XorZip, Encrypt;
    result := [];
    var i := 0;
    ghost var done, k := 0, 0;
    assert text[0..] == text;
    while i < |text|
      invariant i == 64 * k && done == if i < |text| then i else |text|
      invariant result + Encrypt(key, counter + k, nonce, text[done..]) == Encrypt(key, counter, nonce, text)
      decreases |text| - i
    {
      WholeBlocks(k);
      var block := BlockRef(key, counter + i / 64, nonce);
      var end := if i + 64 <= |text| then i + 64 else |text|;
      var more := XorZip(text[i..end], block);
      OneChunk(key, counter + k, nonce, text, i, end, result);
      done := end;
      result := result + more;
      i, k := i + 64, k + 1;
    }
    NothingLeft(key, counter + k, nonce, text, result);
  }

  lemma NothingLeft(key: seq<Byte>, counter: nat, nonce: seq<Byte>, text: seq<Byte>, result: seq<Byte>)
    requires |key| == 32 && |nonce| == 12
    ensures result + Encrypt(key, counter, nonce, text[|text|..]) == result
  {
    hide Block, XorZip;
    assert text[|text|..] == [];
    EncryptNone(key, counter, nonce);
  }

  /** One chunk more in the result, one less to encrypt. */
  lemma OneChunk(key: seq<Byte>, counter: nat, nonce: seq<Byte>, text: seq<Byte>, i: nat, end: nat, result: seq<Byte>)
    requires |key| == 32 && |nonce| == 12 && i < |text| && end == if i + 64 <= |text| then i + 64 else |text|
    ensures result + Encrypt(key, counter, nonce, text[i..])
         == result + XorZip(text[i..end], Block(key, counter, nonce)) + Encrypt(key, counter + 1, nonce, text[end..])
  {
    hide Block, XorZip, Encrypt;
    EncryptStep(key, counter, nonce, text[i..]);
    RestSlices(text, i, end);
    Associates(result, XorZip(text[i..end], Block(key, counter, nonce)), Encrypt(key, counter + 1, nonce, text[end..]));
  }

  lemma Associates(a: seq<Byte>, b: seq<Byte>, c: seq<Byte>)
    ensures a + (b + c) == (a + b) + c
  {
  }

  lemma RestSlices(text: seq<Byte>, i: nat, end: nat)
    requires i <= end <= |text|
    ensures text[i..][..end - i] == text[i..end] && text[i..][end - i..] == text[end..]
  {
  }

  lemma WholeBlocks(k: nat)
    ensures 64 * k / 64 == k
  {
  }

  lemma EncryptNone(key: seq<Byte>, counter: nat, nonce: seq<Byte>)
    requires |key| == 32 && |nonce| == 12
    ensures Encrypt(key, counter, nonce, []) == []
  {
  }

  /** Each byte is the text's exclusive-or'd with its own keystream byte: byte i uses
      byte i % 64 of block number counter + i / 64. */
  lemma {:induction false} EncryptAt(key: seq<Byte>, counter: nat, nonce: seq<Byte>, text: seq<Byte>, i: nat)
    requires |key| == 32 && |nonce| == 12 && i < |text|
    ensures Encrypt(key, counter, nonce, text)[i] == XorByte(text[i], Block(key, counter + i / 64, nonce)[i % 64])
    decreases |text|
  {
    hide Block, XorByte;
    if i >= 64 {
      EncryptAt(key, counter + 1, nonce, text[64..], i - 64);
      assert (i - 64) % 64 == i % 64 && (i - 64) / 64 == i / 64 - 1;
    }
  }

  /** Encrypting twice under one key, counter and nonce gives the text back, whatever
      its length and whatever the counter. */
  lemma EncryptIsOwnInverse(key: seq<Byte>, counter: nat, nonce: seq<Byte>, text: seq<Byte>)
    requires |key| == 32 && |nonce| == 12
    ensures Encrypt(key, counter, nonce, Encrypt(key, counter, nonce, text)) == text
  {
    hide Block, Encrypt;
    var once := Encrypt(key, counter, nonce, text);
    var twice := Encrypt(key, counter, nonce, once);
    forall i | 0 <= i < |text|
      ensures twice[i] == text[i]
    {
      EncryptAt(key, counter, nonce, text, i);
      EncryptAt(key, counter, nonce, once, i);
      XorCancels(text[i], Block(key, counter + i / 64, nonce)[i % 64]);
    }
  }

  /** A text may be encrypted in two parts, cut at any multiple of 64 bytes, with the
      counter advanced by the number of whole blocks. */
  lemma EncryptSplits(key: seq<Byte>, counter: nat, nonce: seq<Byte>, text: seq<Byte>, k: nat)
    requires |key| == 32 && |nonce| == 12 && 64 * k <= |text|
    ensures Encrypt(key, counter, nonce, text)
         == Encrypt(key, counter, nonce, text[..64 * k]) + Encrypt(key, counter + k, nonce, text[64 * k..])
  {
    hide Block, Encrypt, XorByte;
    var whole := Encrypt(key, counter, nonce, text);
    var parts := Encrypt(key, counter, nonce, text[..64 * k]) + Encrypt(key, counter + k, nonce, text[64 * k..]);
    forall i | 0 <= i < |text|
      ensures whole[i] == parts[i]
    {
      EncryptAt(key, counter, nonce, text, i);
      if i < 64 * k {
        EncryptAt(key, counter, nonce, text[..64 * k], i);
      } else {
        EncryptAt(key, counter + k, nonce, text[64 * k..], i - 64 * k);
        assert (i - 64 * k) % 64 == i % 64 && (i - 64 * k) / 64 == i / 64 - k;
      }
    }
  }
}
