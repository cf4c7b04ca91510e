/** The Poly1305 and AEAD references of the host (sections 2.5 and 2.8 of RFC 8439). */
module Poly1305 {
  import opened Bits
  import opened Bytes
  import ChaCha20

  const P: nat := 0x3_ffff_ffff_ffff_ffff_ffff_ffff_ffff_fffb   // 2^130 - 5

  // ---- clamping -----------------------------------------------------------

  /** The byte masks the source applies: 0x0f at 3, 7, 11, 15 and 0xfc at 4, 8, 12. */
  const CLAMP_FIRST: seq<Byte> := [0xff, 0xff, 0xff, 0x0f]
  const CLAMP_OTHER: seq<Byte> := [0xfc, 0xff, 0xff, 0x0f]
  const CLAMP: seq<Byte> := CLAMP_FIRST + (CLAMP_OTHER + (CLAMP_OTHER + CLAMP_OTHER))

  const CLAMP_MASK: nat := 0x0ffffffc0ffffffc0ffffffc0fffffff

  function AndByte(x: Byte, m: Byte): Byte {
    Pow2Values();
    Width(x, m, 8);
    And(x, m)
  }

  function AndBytes(xs: seq<Byte>, ms: seq<Byte>): (r: seq<Byte>)
    requires |xs| == |ms|
    ensures |r| == |xs| && forall k :: 0 <= k < |r| ==> r[k] == AndByte(xs[k], ms[k])
  {
    seq(|xs|, k requires 0 <= k < |xs| => AndByte(xs[k], ms[k]))
  }

  /** `r_bytes[i] &= ...`, byte by byte; the bytes not named stay as they are. */
  method ClampBytes(bs: seq<Byte>) returns (r: seq<Byte>)
    requires |bs| == 16
    ensures r == AndBytes(bs, CLAMP)
  {
    r := bs;
    r := r[3 := AndByte(r[3], 0x0f)];
    r := r[7 := AndByte(r[7], 0x0f)];
    r := r[11 := AndByte(r[11], 0x0f)];
    r := r[15 := AndByte(r[15], 0x0f)];
    r := r[4 := AndByte(r[4], 0xfc)];
    r := r[8 := AndByte(r[8], 0xfc)];
    r := r[12 := AndByte(r[12], 0xfc)];
    forall k | 0 <= k < 16
      ensures r[k] == AndByte(bs[k], CLAMP[k])
    {
      AndAll(bs[k]);
    }
  }

  lemma AndAll(x: Byte)
    ensures AndByte(x, 0xff) == x
  {
    hide And, Pow2;
    Pow2Values();
    AndMask(x, 8);
    assert And(x, 255) == x % 256;
  }

  /** Masking bytes one at a time masks the little-endian integer. */
  lemma {:induction false} MaskIsBytewise(xs: seq<Byte>, ms: seq<Byte>)
    requires |xs| == |ms|
    ensures Le(AndBytes(xs, ms)) == And(Le(xs), Le(ms))
  {
    if |xs| > 0 {
      Pow2Values();
      MaskIsBytewise(xs[1..], ms[1..]);
      assert AndBytes(xs, ms)[1..] == AndBytes(xs[1..], ms[1..]);
      SplitAt(xs[0], Le(xs[1..]), ms[0], Le(ms[1..]), 8);
      ShlIsMul(Le(xs[1..]), 8);
      ShlIsMul(Le(ms[1..]), 8);
      ShlIsMul(And(Le(xs[1..]), Le(ms[1..])), 8);
    }
  }

  lemma LeOf4(a: Byte, b: Byte, c: Byte, d: Byte)
    ensures Le([a, b, c, d]) == a + 0x100 * b + 0x1_0000 * c + 0x100_0000 * d
  {
    assert [d][1..] == [] && Le([d]) == d;
    assert [c, d][1..] == [d] && Le([c, d]) == c + 256 * Le([d]);
    assert [b, c, d][1..] == [c, d] && Le([b, c, d]) == b + 256 * Le([c, d]);
    assert [a, b, c, d][1..] == [b, c, d];
  }

  lemma FourWords(w: seq<Byte>, x: seq<Byte>)
    requires |w| == 4 && |x| == 4
    ensures Le(w + (x + (x + x))) == Le(w) + 0x1_0000_0000 * (Le(x) + 0x1_0000_0000 * (Le(x) + 0x1_0000_0000 * Le(x)))
  {
    hide Le;
    WordAppend(x, x);
    WordAppend(x, x + x);
    WordAppend(w, x + (x + x));
  }

  lemma WordAppend(w: seq<Byte>, rest: seq<Byte>)
    requires |w| == 4
    ensures Le(w + rest) == Le(w) + 0x1_0000_0000 * Le(rest)
  {
    assert Pow256(4) == 0x1_0000_0000 by { assert Pow256(2) == 0x1_0000; }
    hide Le, Pow256;
    LeAppend(w, rest);
  }

  lemma ClampMaskValue()
    ensures Le(CLAMP) == CLAMP_MASK
  {
    LeOf4(0xff, 0xff, 0xff, 0x0f);
    LeOf4(0xfc, 0xff, 0xff, 0x0f);
    FourWords(CLAMP_FIRST, CLAMP_OTHER);
  }

  lemma {:induction false} AndAtMost(x: nat, y: nat)
    ensures And(x, y) <= y
  {
    if x > 0 && y > 0 {
      AndAtMost(x / 2, y / 2);
    }
  }

  /** The byte-wise clamp is the 128-bit mask of the standard, so r is below 2^124. */
  lemma ClampIsMask(bs: seq<Byte>)
    requires |bs| == 16
    ensures Le(AndBytes(bs, CLAMP)) == And(Le(bs), CLAMP_MASK)
    ensures Le(AndBytes(bs, CLAMP)) < Pow2(124)
  {
    MaskIsBytewise(bs, CLAMP);
    ClampMaskValue();
    AndAtMost(Le(bs), CLAMP_MASK);
    Pow2Values();
    Pow2Add(8, 8);
    Pow2Add(16, 16);
    Pow2Add(32, 32);
    Pow2Add(64, 32);
    Pow2Add(8, 4);
    Pow2Add(16, 12);
    Pow2Add(96, 28);
  }

  // ---- blocks of a message ------------------------------------------------

  /** A chunk of up to 16 bytes with its high bit: its length is part of its value. */
  function BlockValue(chunk: seq<Byte>): nat {
    Le(chunk) + Pow256(|chunk|)
  }

  function Blocks(message: seq<Byte>): (r: seq<nat>)
    ensures |r| == (|message| + 15) / 16
  {
    if |message| == 0 then []
    else if |message| <= 16 then [BlockValue(message)]
    else [BlockValue(message[..16])] + Blocks(message[16..])
  }

  lemma {:induction false} Pow256Grows(m: nat, n: nat)
    requires m < n
    ensures 256 * Pow256(m) <= Pow256(n)
  {
    if m < n - 1 {
      Pow256Grows(m, n - 1);
    }
  }

  lemma BlockValueInjective(x: seq<Byte>, y: seq<Byte>)
    requires BlockValue(x) == BlockValue(y)
    ensures x == y
  {
    LeBound(x);
    LeBound(y);
    if |x| < |y| {
      Pow256Grows(|x|, |y|);
    } else if |y| < |x| {
      Pow256Grows(|y|, |x|);
    }
    LeInjective(x, y);
  }

  /** Messages with the same blocks are the same message: nothing the polynomial is
      evaluated on can be read two ways. */
  lemma {:induction false} BlocksInjective(m: seq<Byte>, m': seq<Byte>)
    requires Blocks(m) == Blocks(m')
    ensures m == m'
    decreases |m|
  {
    if |m| > 0 && |m'| > 0 {
      var n, n' := if |m| <= 16 then |m| else 16, if |m'| <= 16 then |m'| else 16;
      FirstBlock(m, n);
      FirstBlock(m', n');
      BlockValueInjective(m[..n], m'[..n']);
      BlocksInjective(m[n..], m'[n'..]);
      assert m == m[..n] + m[n..] && m' == m'[..n'] + m'[n'..];
    }
  }

  lemma FirstBlock(m: seq<Byte>, n: nat)
    requires |m| > 0 && n == if |m| <= 16 then |m| else 16
    ensures Blocks(m) == [BlockValue(m[..n])] + Blocks(m[n..])
    ensures Blocks(m)[0] == BlockValue(m[..n]) && Blocks(m)[1..] == Blocks(m[n..])
  {
    if |m| <= 16 {
      assert m[..n] == m && m[n..] == [];
    }
  }

  // ---- the polynomial -----------------------------------------------------

  /** The source's loop: h = ((h + n) * r) % p over the blocks. */
  function Horner(blocks: seq<nat>, r: nat): nat {
    if |blocks| == 0 then 0
    else ((Horner(blocks[..|blocks| - 1], r) + blocks[|blocks| - 1]) * r) % P
  }

  function Pow(r: nat, e: nat): nat {
    if e == 0 then 1 else r * Pow(r, e - 1)
  }

  /** The closed form: the sum of block_i * r^(n-i). */
  function Polynomial(blocks: seq<nat>, r: nat): nat {
    if |blocks| == 0 then 0
    else blocks[0] * Pow(r, |blocks|) + Polynomial(blocks[1..], r)
  }

  lemma {:induction false} PolynomialStep(blocks: seq<nat>, r: nat)
    requires |blocks| > 0
    ensures Polynomial(blocks, r) == (Polynomial(blocks[..|blocks| - 1], r) + blocks[|blocks| - 1]) * r
    decreases |blocks|
  {
    var n := |blocks|;
    var init, last := blocks[..n - 1], blocks[n - 1];
    if n == 1 {
      assert Pow(r, 1) == r * Pow(r, 0) && Polynomial(blocks[1..], r) == 0;
    } else {
      PolynomialStep(blocks[1..], r);
      assert blocks[1..][..n - 2] == init[1..] && blocks[1..][n - 2] == last;
      Factor(blocks[0], Pow(r, n - 1), Polynomial(init[1..], r), last, r);
    }
  }

  lemma Factor(b: nat, p: nat, q: nat, last: nat, r: nat)
    ensures b * (r * p) + (q + last) * r == (b * p + q + last) * r
  {
  }

  lemma ModMul(x: nat, n: nat, r: nat, m: nat)
    requires m > 0
    ensures ((x % m + n) * r) % m == ((x + n) * r) % m
  {
    DropMultiple(x / m, x % m, n, r, m);
    Euclid(x, m);
  }

  lemma Euclid(x: nat, m: nat)
    requires m > 0
    ensures x == m * (x / m) + x % m
  {
  }

  lemma DropMultiple(k: nat, y: nat, n: nat, r: nat, m: nat)
    requires m > 0
    ensures ((y + n) * r) % m == ((m * k + y + n) * r) % m
  {
    Spread(m, k, y + n, r);
    AddMultiple((y + n) * r, k * r, m);
  }

  lemma Spread(m: nat, k: nat, y: nat, r: nat)
    ensures (m * k + y) * r == y * r + m * (k * r)
  {
  }

  lemma AddMultiple(x: nat, k: nat, m: nat)
    requires m > 0
    ensures (x + m * k) % m == x % m
  {
    Euclid(x, m);
    assert m * (x / m + k) == m * (x / m) + m * k;
    DivModUnique(x + m * k, m, x / m + k, x % m);
  }

  /** The reduced Horner loop computes the closed form mod 2^130 - 5, whatever the
      number of blocks. */
  lemma {:induction false} HornerIsPolynomial(blocks: seq<nat>, r: nat)
    ensures Horner(blocks, r) == Polynomial(blocks, r) % P
    decreases |blocks|
  {
    if |blocks| > 0 {
      var init, last := blocks[..|blocks| - 1], blocks[|blocks| - 1];
      HornerIsPolynomial(init, r);
      PolynomialStep(blocks, r);
      ModMul(Polynomial(init, r), last, r, P);
    }
  }

  /** The tag as the standard defines it: clamp, evaluate, add s, keep 128 bits. */
  function Tag(key: seq<Byte>, message: seq<Byte>): (t: seq<Byte>)
    requires |key| == 32
    ensures |t| == 16
  {
    var r, s := And(Le(key[..16]), CLAMP_MASK), Le(key[16..]);
    ToLe((Polynomial(Blocks(message), r) % P + s) % Pow2(128), 16)
  }

  /** One pass of the block loop. */
  lemma HornerStep(message: seq<Byte>, k: nat, end: nat, r: nat)
    requires 16 * k < |message| && end == if 16 * k + 16 <= |message| then 16 * k + 16 else |message|
    requires k <= |Blocks(message)| && Blocks(message)[k..] == Blocks(message[16 * k..])
    ensures var all := Blocks(message);
      && k < |all| && all[k + 1..] == Blocks(message[end..])
      && Horner(all[..k + 1], r) == ((Horner(all[..k], r) + BlockValue(message[16 * k..end])) * r) % P
  {
    hide Blocks, BlockValue, Horner;
    var all, i := Blocks(message), 16 * k;
    FirstBlock(message[i..], end - i);
    assert message[i..][..end - i] == message[i..end] && message[i..][end - i..] == message[end..];
    assert all[k] == all[k..][0] && all[k + 1..] == all[k..][1..];
    assert all[..k + 1] == all[..k] + [all[k]];
    HornerSnoc(all[..k], all[k], r);
  }

  lemma HornerSnoc(blocks: seq<nat>, b: nat, r: nat)
    ensures Horner(blocks + [b], r) == ((Horner(blocks, r) + b) * r) % P
  {
    assert (blocks + [b])[..|blocks|] == blocks;
  }

  lemma HornerOfNone(r: nat)
    ensures Horner([], r) == 0
  {
  }

  lemma NoBlocks()
    ensures Blocks([]) == []
  {
  }

  method Poly1305Ref(key: seq<Byte>, message: seq<Byte>) returns (tag: seq<Byte>)
    requires |key| == 32
    ensures tag == Tag(key, message)
  {
    hide Blocks, Horner, Polynomial, Le, ToLe, And, AndBytes;
    var clamped := ClampBytes(key[..16]);
    ClampIsMask(key[..16]);
    var r, s := Le(clamped), Le(key[16..]);
    var h := 0;
    var i := 0;
    ghost var all, k := Blocks(message), 0;
    assert message[0..] == message && all[..0] == [];
    HornerOfNone(r);
    while i < |message|
      invariant i == 16 * k && k <= |all|
      invariant all[k..] == Blocks(message[if i < |message| then i else |message|..])
      invariant h == Horner(all[..k], r)
      decreases |message| - i
    {
      var end := if i + 16 <= |message| then i + 16 else |message|;
      var block := message[i..end];
      HornerStep(message, k, end, r);
      h := ((h + (Le(block) + Pow256(|block|))) * r) % P;
      i, k := i + 16, k + 1;
    }
    assert k == |all| by { NoBlocks(); }
    assert all[..|all|] == all;
    HornerIsPolynomial(all, r);
    h := (h + s) % Pow2(128);
    tag := ToLe(h, 16);
  }

  // ---- the AEAD -----------------------------------------------------------

  function Zeros(n: nat): (r: seq<Byte>)
    ensures |r| == n
  {
    seq(n, _ => 0)
  }

  /** Zero bytes up to the next multiple of 16. */
  function Padding(n: nat): (r: seq<Byte>)
    ensures (n + |r|) % 16 == 0 && |r| < 16
  {
    if n % 16 == 0 then [] else Zeros(16 - n % 16)
  }

  /** What is authenticated; the lengths are packed as 64-bit integers. */
  function MacData(aad: seq<Byte>, text: seq<Byte>): (r: seq<Byte>)
    requires |aad| < Pow256(8) && |text| < Pow256(8)
  {
    aad + Padding(|aad|) + text + Padding(|text|) + ToLe(|aad|, 8) + ToLe(|text|, 8)
  }

  lemma MacDataLayout(aad: seq<Byte>, text: seq<Byte>)
    requires |aad| < Pow256(8) && |text| < Pow256(8)
    ensures var m, start := MacData(aad, text), |aad| + |Padding(|aad|)|;
      && |m| == start + |text| + |Padding(|text|)| + 16 && |m| % 16 == 0
      && m[..|aad|] == aad && m[start..start + |text|] == text
  {
    hide Padding, ToLe;
  }

  lemma MacDataLengths(aad: seq<Byte>, text: seq<Byte>)
    requires |aad| < Pow256(8) && |text| < Pow256(8)
    ensures var m := MacData(aad, text);
      |m| >= 16 && Le(m[|m| - 16..|m| - 8]) == |aad| && Le(m[|m| - 8..]) == |text|
  {
    ToLeInverse(|aad|, 8);
    ToLeInverse(|text|, 8);
    hide Padding, ToLe, Le, Pow256;
    var m := MacData(aad, text);
    assert m[|m| - 16..|m| - 8] == ToLe(|aad|, 8) && m[|m| - 8..] == ToLe(|text|, 8);
  }

  /** The MAC input is a whole number of 16-byte blocks and no two pairs of associated
      data and ciphertext share one. */
  lemma MacDataInjective(aad: seq<Byte>, text: seq<Byte>, aad': seq<Byte>, text': seq<Byte>)
    requires |aad| < Pow256(8) && |text| < Pow256(8) && |aad'| < Pow256(8) && |text'| < Pow256(8)
    ensures |MacData(aad, text)| % 16 == 0
    ensures MacData(aad, text) == MacData(aad', text') ==> aad == aad' && text == text'
  {
    hide MacData, Padding, Le, Pow256;
    MacDataLayout(aad, text);
    MacDataLayout(aad', text');
    MacDataLengths(aad, text);
    MacDataLengths(aad', text');
  }

  /** Encrypt with counter 1, authenticate with the one-time key of counter 0. */
  method AeadEncryptRef(key: seq<Byte>, nonce: seq<Byte>, aad: seq<Byte>, plaintext: seq<Byte>)
    returns (ciphertext: seq<Byte>, tag: seq<Byte>)
    requires |key| == 32 && |nonce| == 12 && |aad| < Pow256(8) && |plaintext| < Pow256(8)
    ensures |ciphertext| == |plaintext| && ChaCha20.Encrypt(key, 1, nonce, ciphertext) == plaintext
    ensures tag == Tag(ChaCha20.Block(key, 0, nonce)[..32], MacData(aad, ciphertext))
  {
    hide Tag, ToLe, Zeros, ChaCha20.Block, ChaCha20.Encrypt;
    var otkBlock := ChaCha20.BlockRef(key, 0, nonce);
    ciphertext := ChaCha20.EncryptRef(key, 1, nonce, plaintext);
    ChaCha20.EncryptIsOwnInverse(key, 1, nonce, plaintext);
    var macData := aad;
    if |aad| % 16 != 0 {
      macData := macData + Zeros(16 - |aad| % 16);
    }
    macData := macData + ciphertext;
    if |ciphertext| % 16 != 0 {
      macData := macData + Zeros(16 - |ciphertext| % 16);
    }
    macData := macData + ToLe(|aad|, 8);
    macData := macData + ToLe(|ciphertext|, 8);
    assert Padding(|aad|) == if |aad| % 16 != 0 then Zeros(16 - |aad| % 16) else [];
    assert macData == MacData(aad, ciphertext);
    tag := Poly1305Ref(otkBlock[..32], macData);
  }
}
