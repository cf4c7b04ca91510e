/** The host's WireGuard responder: type-1 initiations in, type-2 responses and
    type-4 transport packets out (section 5.4 of the WireGuard whitepaper). The
    Noise library is an oracle: what each call gives or raises is a parameter. */
module Responder {
  import opened Bytes
  import opened Results

  const MSG_TYPE_INITIATION: Byte := 1
  const MSG_TYPE_RESPONSE: Byte := 2
  const MSG_TYPE_TRANSPORT: Byte := 4
  const T1_TOTAL: nat := 148
  const T1_OFF_SENDER: nat := 4
  const T1_OFF_NOISE: nat := 8
  const T1_OFF_MAC1: nat := 116
  const T2_TOTAL: nat := 92
  const NOISE_MSG2_LEN: nat := 48
  const T4_HDR_LEN: nat := 16
  const TAI64N_LEN: nat := 12

  const COUNTER_LIMIT: nat := 0x1_0000_0000_0000_0000

  type Mac = m: seq<Byte> | |m| == 16 witness [0, 0, 0, 0, 0, 0, 0, 0, 0, 0, 0, 0, 0, 0, 0, 0]

  /** Our side's fixed values: the peer's key, our session index, and the two keyed
      hashes (`_mac1_key_for_t1`, `_mac1_key_for_t2`). */
  datatype Identity = Identity(peerStaticPub: seq<Byte>, mySenderIdx: nat,
                               macIn: seq<Byte> -> Mac, macOut: seq<Byte> -> Mac)

  /** What a library call does: give a value, or raise. */
  datatype Attempt<+T> = Gives(value: T) | Raises(valueError: bool)

  /** A Noise responder: decrypting an initiation's payload in a fresh one, and producing
      the (empty) reply from the state that leaves. */
  datatype Handshake<!N> = Handshake(read: seq<Byte> -> Attempt<(N, seq<Byte>)>,
                                     write: N -> Attempt<(N, seq<Byte>)>)

  /** A cipher call: the Noise state it leaves, and its result. */
  datatype Crypt<+N> = Crypt(after: N, result: Attempt<seq<Byte>>)

  type Cipher<!N> = (N, seq<Byte>) -> Crypt<N>

  datatype Fault =
    | BadLength | NotInitiation | ReservedNotZero | Mac1Mismatch | NoiseRefused | PayloadNotTai64n
    | TimestampReplay | NoiseFailed | WrongType2Size
    | HandshakeIncomplete | TooShort | NotTransport | CounterTooBig
  {
    /** What `except ValueError` catches. */
    predicate IsValueError() {
      BadLength? || NotInitiation? || ReservedNotZero? || Mac1Mismatch? || NoiseRefused?
      || PayloadNotTai64n? || TimestampReplay? || TooShort? || NotTransport?
    }
  }

  datatype State<+N> = State(noise: Option<N>, peerIdx: Option<nat>, sendCounter: nat,
                             greatest: map<seq<Byte>, seq<Byte>>, lastTimestamp: Option<seq<Byte>>,
                             complete: bool)

  function Fresh<N>(): State<N> {
    State(None, None, 0, map[], None, false)
  }

  function RaisedBy<T>(a: Attempt<T>): Fault
    requires a.Raises?
  {
    if a.valueError then NoiseRefused else NoiseFailed
  }

  predicate IsReplay<N>(id: Identity, s: State<N>, timestamp: seq<Byte>) {
    id.peerStaticPub in s.greatest && Be(timestamp) <= Be(s.greatest[id.peerStaticPub])
  }

  /** Why the checks before the commit point stop this initiation, if they do. */
  function Refusal<N>(id: Identity, s: State<N>, packet: seq<Byte>, noise: Handshake<N>): Option<Fault> {
    if |packet| != T1_TOTAL then Some(BadLength)
    else if packet[0] != MSG_TYPE_INITIATION then Some(NotInitiation)
    else if packet[1..4] != [0, 0, 0] then Some(ReservedNotZero)
    else if id.macIn(packet[..T1_OFF_MAC1]) != packet[T1_OFF_MAC1..T1_OFF_MAC1 + 16] then Some(Mac1Mismatch)
    else
      var read := noise.read(NoiseField(packet));
      if read.Raises? then Some(RaisedBy(read))
      else if |read.value.1| != TAI64N_LEN then Some(PayloadNotTai64n)
      else if IsReplay(id, s, read.value.1) then Some(TimestampReplay)
      else if noise.write(read.value.0).Raises? then Some(RaisedBy(noise.write(read.value.0)))
      else None
  }

  function SenderField(packet: seq<Byte>): seq<Byte>
    requires |packet| == T1_TOTAL
  {
    packet[T1_OFF_SENDER..T1_OFF_SENDER + 4]
  }

  function NoiseField(packet: seq<Byte>): seq<Byte>
    requires |packet| == T1_TOTAL
  {
    packet[T1_OFF_NOISE..T1_OFF_MAC1]
  }

  function Committed<N>(id: Identity, s: State<N>, packet: seq<Byte>, noise: N, timestamp: seq<Byte>): State<N>
    requires |packet| == T1_TOTAL
  {
    State(Some(noise), Some(Le(SenderField(packet))), 0, s.greatest[id.peerStaticPub := timestamp],
          Some(timestamp), true)
  }

  function Type2(id: Identity, peerIdx: nat, noiseMsg: seq<Byte>): seq<Byte> {
    var body := [MSG_TYPE_RESPONSE, 0, 0, 0] + ToLe(id.mySenderIdx, 4) + ToLe(peerIdx, 4) + noiseMsg;
    body + id.macOut(body) + ToLe(0, 16)
  }

  /** One call of `handle_initiation`: the state it leaves and what it returns or raises. */
  function Initiation<N>(id: Identity, s: State<N>, packet: seq<Byte>,
                         noise: Handshake<N>)
    : (State<N>, Result<seq<Byte>, Fault>)
  {
    match Refusal(id, s, packet, noise)
    case Some(fault) => (s, Err(fault))
    case None =>
      var (after, timestamp) := noise.read(NoiseField(packet)).value;
      var reply := noise.write(after).value;
      var response := Type2(id, Le(SenderField(packet)), reply.1);
      (Committed(id, s, packet, reply.0, timestamp),
       if |response| == T2_TOTAL then Ok(response) else Err(WrongType2Size))
  }

  function Type4Header(peerIdx: nat, counter: nat): seq<Byte> {
    [MSG_TYPE_TRANSPORT, 0, 0, 0] + ToLe(peerIdx, 4) + ToLe(counter, 8)
  }

  /** One call of `encrypt_transport`. */
  function Encryption<N>(s: State<N>, plaintext: seq<Byte>, encrypt: Cipher<N>)
    : (State<N>, Result<seq<Byte>, Fault>)
  {
    if !s.complete || s.noise.None? then (s, Err(HandshakeIncomplete))
    else
      var c := encrypt(s.noise.value, plaintext);
      if c.result.Raises? then (s.(noise := Some(c.after)), Err(RaisedBy(c.result)))
      else (s.(noise := Some(c.after), sendCounter := s.sendCounter + 1),
            if s.sendCounter < COUNTER_LIMIT
            then Ok(Type4Header(if s.peerIdx.Some? then s.peerIdx.value else 0, s.sendCounter) + c.result.value)
            else Err(CounterTooBig))
  }

  /** One call of `decrypt_transport`. */
  function Decryption<N>(s: State<N>, packet: seq<Byte>, decrypt: Cipher<N>)
    : (State<N>, Result<seq<Byte>, Fault>)
  {
    if !s.complete || s.noise.None? then (s, Err(HandshakeIncomplete))
    else if |packet| < T4_HDR_LEN + 16 then (s, Err(TooShort))
    else if packet[0] != MSG_TYPE_TRANSPORT then (s, Err(NotTransport))
    else
      var c := decrypt(s.noise.value, packet[T4_HDR_LEN..]);
      (s.(noise := Some(c.after)), if c.result.Gives? then Ok(c.result.value) else Err(RaisedBy(c.result)))
  }

  class WireGuardResponder<N> {
    const id: Identity
    var noise: Option<N>
    var c64SenderIdx: Option<nat>
    var sendCounter: nat
    var greatestTimestamp: map<seq<Byte>, seq<Byte>>
    var lastTimestamp: Option<seq<Byte>>
    var handshakeComplete: bool

    function Contents(): State<N>
      reads this
    {
      State(noise, c64SenderIdx, sendCounter, greatestTimestamp, lastTimestamp, handshakeComplete)
    }

    constructor (identity: Identity)
      ensures id == identity && Contents() == Fresh()
    {
      id := identity;
      noise, c64SenderIdx, sendCounter := None, None, 0;
      greatestTimestamp, lastTimestamp, handshakeComplete := map[], None, false;
    }

    method HandleInitiation(packet: seq<Byte>, candidate: Handshake<N>) returns (r: Result<seq<Byte>, Fault>)
      modifies this
      ensures (Contents(), r) == Initiation(id, old(Contents()), packet, candidate)
    {
      if |packet| != T1_TOTAL {
        return Err(BadLength);
      }
      if packet[0] != MSG_TYPE_INITIATION {
        return Err(NotInitiation);
      }
      if packet[1..4] != [0, 0, 0] {
        return Err(ReservedNotZero);
      }
      var expected := id.macIn(packet[..T1_OFF_MAC1]);
      if expected != packet[T1_OFF_MAC1..T1_OFF_MAC1 + 16] {
        return Err(Mac1Mismatch);
      }
      var senderIdx := Le(packet[T1_OFF_SENDER..T1_OFF_SENDER + 4]);
      var noisePayload := packet[T1_OFF_NOISE..T1_OFF_MAC1];
      var read := candidate.read(noisePayload);
      if read.Raises? {
        return Err(RaisedBy(read));
      }
      var timestamp := read.value.1;
      if |timestamp| != TAI64N_LEN {
        return Err(PayloadNotTai64n);
      }
      if id.peerStaticPub in greatestTimestamp && Be(timestamp) <= Be(greatestTimestamp[id.peerStaticPub]) {
        return Err(TimestampReplay);
      }
      var write := candidate.write(read.value.0);
      if write.Raises? {
        return Err(RaisedBy(write));
      }
      noise := Some(write.value.0);
      c64SenderIdx := Some(senderIdx);
      greatestTimestamp := greatestTimestamp[id.peerStaticPub := timestamp];
      lastTimestamp := Some(timestamp);
      handshakeComplete := true;
      sendCounter := 0;
      r := BuildType2(write.value.1);
    }

    method BuildType2(noiseMsg: seq<Byte>) returns (r: Result<seq<Byte>, Fault>)
      ensures var pkt := Type2(id, if c64SenderIdx.Some? then c64SenderIdx.value else 0, noiseMsg);
        r == if |pkt| == T2_TOTAL then Ok(pkt) else Err(WrongType2Size)
    {
      var peerIdx := if c64SenderIdx.Some? then c64SenderIdx.value else 0;
      var header := [MSG_TYPE_RESPONSE, 0, 0, 0] + ToLe(id.mySenderIdx, 4) + ToLe(peerIdx, 4);
      var body := header + noiseMsg;
      var mac1 := id.macOut(body);
      var mac2 := ToLe(0, 16);
      var pkt := body + mac1 + mac2;
      r := if |pkt| == T2_TOTAL then Ok(pkt) else Err(WrongType2Size);
    }

    method EncryptTransport(plaintext: seq<Byte>, encrypt: Cipher<N>) returns (r: Result<seq<Byte>, Fault>)
      modifies this
      ensures (Contents(), r) == Encryption(old(Contents()), plaintext, encrypt)
    {
      if !handshakeComplete || noise.None? {
        return Err(HandshakeIncomplete);
      }
      var encrypted := encrypt(noise.value, plaintext);
      noise := Some(encrypted.after);
      if encrypted.result.Raises? {
        return Err(RaisedBy(encrypted.result));
      }
      var receiverIdx := if c64SenderIdx.Some? then c64SenderIdx.value else 0;
      var counter := sendCounter;
      sendCounter := sendCounter + 1;
      if counter >= COUNTER_LIMIT {
        return Err(CounterTooBig);
      }
      r := Ok(Type4Header(receiverIdx, counter) + encrypted.result.value);
    }

    method DecryptTransport(packet: seq<Byte>, decrypt: Cipher<N>) returns (r: Result<seq<Byte>, Fault>)
      modifies this
      ensures (Contents(), r) == Decryption(old(Contents()), packet, decrypt)
    {
      if !handshakeComplete || noise.None? {
        return Err(HandshakeIncomplete);
      }
      if |packet| < T4_HDR_LEN + 16 {
        return Err(TooShort);
      }
      if packet[0] != MSG_TYPE_TRANSPORT {
        return Err(NotTransport);
      }
      var decrypted := decrypt(noise.value, packet[T4_HDR_LEN..]);
      noise := Some(decrypted.after);
      r := if decrypted.result.Gives? then Ok(decrypted.result.value) else Err(RaisedBy(decrypted.result));
    }
  }

  // ---- what an initiation does --------------------------------------------

  /** An initiation that is well formed, authentic, readable and newer than any before. */
  ghost predicate Acceptable<N>(id: Identity, s: State<N>, packet: seq<Byte>, noise: Handshake<N>) {
    && |packet| == T1_TOTAL && packet[..4] == [MSG_TYPE_INITIATION, 0, 0, 0]
    && packet[T1_OFF_MAC1..T1_OFF_MAC1 + 16] == id.macIn(packet[..T1_OFF_MAC1])
    && var read := noise.read(NoiseField(packet));
    && read.Gives? && |read.value.1| == TAI64N_LEN
    && (id.peerStaticPub in s.greatest ==> Be(s.greatest[id.peerStaticPub]) < Be(read.value.1))
    && noise.write(read.value.0).Gives?
  }

  function TimestampOf<N>(packet: seq<Byte>, noise: Handshake<N>): seq<Byte>
    requires |packet| == T1_TOTAL && noise.read(NoiseField(packet)).Gives?
  {
    noise.read(NoiseField(packet)).value.1
  }

  function ReplyOf<N>(packet: seq<Byte>, noise: Handshake<N>): seq<Byte>
    requires |packet| == T1_TOTAL && noise.read(NoiseField(packet)).Gives?
    requires noise.write(noise.read(NoiseField(packet)).value.0).Gives?
  {
    noise.write(noise.read(NoiseField(packet)).value.0).value.1
  }

  lemma RefusalIff<N>(id: Identity, s: State<N>, packet: seq<Byte>, noise: Handshake<N>)
    ensures Refusal(id, s, packet, noise).None? <==> Acceptable(id, s, packet, noise)
  {
    if |packet| == T1_TOTAL {
      assert packet[..4] == [packet[0]] + packet[1..4];
      if packet[..4] == [MSG_TYPE_INITIATION, 0, 0, 0] {
        assert packet[1..4] == packet[..4][1..];
      }
    }
  }

  lemma Type2Length(id: Identity, peerIdx: nat, noiseMsg: seq<Byte>)
    ensures |Type2(id, peerIdx, noiseMsg)| == T2_TOTAL <==> |noiseMsg| == NOISE_MSG2_LEN
  {
  }

  /** An initiation is answered exactly when it is acceptable and the reply has its
      48 bytes; ... */
  lemma AcceptedExactlyWhen<N>(id: Identity, s: State<N>, packet: seq<Byte>, noise: Handshake<N>)
    ensures Initiation(id, s, packet, noise).1.Ok? <==>
            Acceptable(id, s, packet, noise) && |ReplyOf(packet, noise)| == NOISE_MSG2_LEN
  {
    RefusalIff(id, s, packet, noise);
    if Refusal(id, s, packet, noise).None? {
      Type2Length(id, Le(SenderField(packet)), ReplyOf(packet, noise));
    }
    hide Committed, Type2;
  }

  /** ... one that raises changes no field, unless the reply was the wrong size: that
      assertion fires after the commit, so the new session is kept with no answer sent. */
  lemma RejectedChangesNothing<N>(id: Identity, s: State<N>, packet: seq<Byte>, noise: Handshake<N>)
    requires Initiation(id, s, packet, noise).1.Err?
    ensures var (s', r) := Initiation(id, s, packet, noise);
      && (s' == s <==> r.error != WrongType2Size)
      && (r.error == WrongType2Size <==>
          Acceptable(id, s, packet, noise) && |ReplyOf(packet, noise)| != NOISE_MSG2_LEN)
      && (r.error.IsValueError() ==> s' == s)
  {
    RefusalIff(id, s, packet, noise);
    if Refusal(id, s, packet, noise).None? {
      Type2Length(id, Le(SenderField(packet)), ReplyOf(packet, noise));
      AcceptedAdvances(id, s, packet, noise);
    }
  }

  function ZeroMac(): Mac {
    [0, 0, 0, 0, 0, 0, 0, 0, 0, 0, 0, 0, 0, 0, 0, 0]
  }

  function Zeros(n: nat): (r: seq<Byte>)
    ensures |r| == n && forall k | 0 <= k < n :: r[k] == 0
  {
    seq(n, _ => 0)
  }

  /** A library whose replies are this long. The real one's empty-payload reply always has
      48 bytes, so only such a stand-in takes the branch below. */
  function Replying(length: nat): Handshake<int> {
    Handshake(payload => Gives((0, Zeros(TAI64N_LEN))), state => Gives((1, Zeros(length))))
  }

  /** The failing case: with a reply one byte short, a first initiation is committed and
      then refused. */
  lemma ShortReplyCommits()
    ensures var id := Identity(Zeros(32), 0, body => ZeroMac(), body => ZeroMac());
      var packet := [MSG_TYPE_INITIATION] + Zeros(T1_TOTAL - 1);
      var (s', r) := Initiation(id, Fresh(), packet, Replying(NOISE_MSG2_LEN - 1));
      && r == Err(WrongType2Size) && s' != Fresh()
      && s'.complete && s'.greatest == map[Zeros(32) := Zeros(TAI64N_LEN)]
  {
    var id := Identity(Zeros(32), 0, body => ZeroMac(), body => ZeroMac());
    var packet := [MSG_TYPE_INITIATION] + Zeros(T1_TOTAL - 1);
    var noise := Replying(NOISE_MSG2_LEN - 1);
    assert packet[..4] == [MSG_TYPE_INITIATION, 0, 0, 0];
    assert packet[T1_OFF_MAC1..T1_OFF_MAC1 + 16] == ZeroMac();
    assert Acceptable(id, Fresh(), packet, noise);
    RefusalIff(id, Fresh(), packet, noise);
    Type2Length(id, Le(SenderField(packet)), ReplyOf(packet, noise));
  }

  /** Committing strictly advances the peer's greatest timestamp and leaves other keys'. */
  lemma AcceptedAdvances<N>(id: Identity, s: State<N>, packet: seq<Byte>, noise: Handshake<N>)
    requires Acceptable(id, s, packet, noise)
    ensures var s' := Initiation(id, s, packet, noise).0;
      var ts := TimestampOf(packet, noise);
      && s'.complete && s'.noise.Some? && s'.sendCounter == 0 && s'.lastTimestamp == Some(ts)
      && s'.peerIdx == Some(Le(SenderField(packet)))
      && id.peerStaticPub in s'.greatest && s'.greatest[id.peerStaticPub] == ts
      && (id.peerStaticPub in s.greatest ==> Be(s.greatest[id.peerStaticPub]) < Be(ts))
      && (forall k | k != id.peerStaticPub :: (k in s'.greatest <==> k in s.greatest)
            && (k in s.greatest ==> s'.greatest[k] == s.greatest[k]))
  {
    RefusalIff(id, s, packet, noise);
  }

  /** A response is 92 bytes: type 2, our index, the initiation's own sender field
      echoed, the Noise message, its MAC1, and a zero MAC2. */
  lemma Type2Layout<N>(id: Identity, s: State<N>, packet: seq<Byte>, noise: Handshake<N>)
    requires Initiation(id, s, packet, noise).1.Ok?
    ensures Acceptable(id, s, packet, noise)
    ensures var p := Initiation(id, s, packet, noise).1.value;
      && |p| == T2_TOTAL && p[..4] == [MSG_TYPE_RESPONSE, 0, 0, 0]
      && (id.mySenderIdx < Pow256(4) ==> Le(p[4..8]) == id.mySenderIdx)
      && p[8..12] == packet[4..8]
      && p[12..60] == ReplyOf(packet, noise)
      && p[60..76] == id.macOut(p[..60])
      && p[76..92] == ToLe(0, 16)
  {
    RefusalIff(id, s, packet, noise);
    Type2Bytes(id, SenderField(packet), ReplyOf(packet, noise));
    hide Type2, Committed, Le, ToLe;
  }

  lemma Type2Bytes(id: Identity, sender: seq<Byte>, msg: seq<Byte>)
    requires |sender| == 4 && |Type2(id, Le(sender), msg)| == T2_TOTAL
    ensures var p := Type2(id, Le(sender), msg);
      && p[..4] == [MSG_TYPE_RESPONSE, 0, 0, 0]
      && (id.mySenderIdx < Pow256(4) ==> Le(p[4..8]) == id.mySenderIdx)
      && p[8..12] == sender && p[12..60] == msg
      && p[60..76] == id.macOut(p[..60]) && p[76..92] == ToLe(0, 16)
  {
    hide Le, ToLe, Pow256;
    var mine, theirs := ToLe(id.mySenderIdx, 4), ToLe(Le(sender), 4);
    LeInverse(sender);
    Type2Length(id, Le(sender), msg);
    var head: seq<Byte> := [MSG_TYPE_RESPONSE, 0, 0, 0];
    var body := head + mine + theirs + msg;
    var p := body + id.macOut(body) + ToLe(0, 16);
    assert p == Type2(id, Le(sender), msg);
    assert p[..60] == body;
    assert p[..4] == head && p[4..8] == mine && p[8..12] == theirs && p[12..60] == msg;
    if id.mySenderIdx < Pow256(4) {
      ToLeInverse(id.mySenderIdx, 4);
    }
  }

  /** A transport packet is addressed to the index the last initiation gave and carries
      the counter from before the call, which goes up by one; then the ciphertext. */
  lemma Type4Layout<N>(s: State<N>, plaintext: seq<Byte>, encrypt: Cipher<N>)
    requires Encryption(s, plaintext, encrypt).1.Ok?
    requires s.peerIdx.Some? && s.peerIdx.value < Pow256(4)
    ensures var (s', r) := Encryption(s, plaintext, encrypt);
      var ciphertext := encrypt(s.noise.value, plaintext).result;
      && ciphertext.Gives? && |r.value| == T4_HDR_LEN + |ciphertext.value|
      && r.value[..4] == [MSG_TYPE_TRANSPORT, 0, 0, 0]
      && Le(r.value[4..8]) == s.peerIdx.value
      && Le(r.value[8..16]) == s.sendCounter && s'.sendCounter == s.sendCounter + 1
      && r.value[16..] == ciphertext.value
  {
    Type4Bytes(s.peerIdx.value, s.sendCounter, encrypt(s.noise.value, plaintext).result.value);
    hide Le, ToLe, Type4Header;
  }

  lemma Type4Bytes(peerIdx: nat, counter: nat, ciphertext: seq<Byte>)
    requires peerIdx < Pow256(4) && counter < COUNTER_LIMIT
    ensures var p := Type4Header(peerIdx, counter) + ciphertext;
      && |p| == T4_HDR_LEN + |ciphertext| && p[..4] == [MSG_TYPE_TRANSPORT, 0, 0, 0]
      && Le(p[4..8]) == peerIdx && Le(p[8..16]) == counter && p[16..] == ciphertext
  {
    CounterFits(counter);
    hide Le, ToLe, Pow256;
    var idx, ctr := ToLe(peerIdx, 4), ToLe(counter, 8);
    var head: seq<Byte> := [MSG_TYPE_TRANSPORT, 0, 0, 0];
    var p := head + idx + ctr + ciphertext;
    assert p == Type4Header(peerIdx, counter) + ciphertext;
    assert p[..4] == head && p[4..8] == idx && p[8..16] == ctr && p[16..] == ciphertext;
    ToLeInverse(peerIdx, 4);
    ToLeInverse(counter, 8);
  }

  lemma CounterFits(counter: nat)
    requires counter < COUNTER_LIMIT
    ensures counter < Pow256(8)
  {
    assert Pow256(4) == 0x1_0000_0000;
    assert Pow256(8) == 256 * (256 * (256 * (256 * Pow256(4))));
  }
}
