/** The responder's server: a state machine over received datagrams and typed lines. */
module Server {
  import opened Bytes
  import opened Results
  import opened Responder

  type Addr = (seq<char>, int)

  /** The fixed parts: the responder's identity, the key map for typed characters and
      the largest payload the C64 can receive. */
  datatype Config = Config(id: Identity, petscii: char -> Option<Byte>, maxChat: nat)

  /** What reaches the server, with what the calls it causes would do. */
  datatype Event<!N> =
    | Datagram(data: seq<Byte>, from: Addr, noise: Handshake<N>, decrypt: Cipher<N>, delivered: bool)
    | Line(text: string, encrypt: Cipher<N>, delivered: bool)

  /** What the server did that others can see. */
  datatype Entry =
    | Accepted(initiation: seq<Byte>, timestamp: seq<Byte>, from: Addr, response: seq<Byte>)
    | Transport(packet: seq<Byte>, to: Addr, delivered: bool)

  datatype Server<+N> = Server(responder: State<N>, active: bool, peer: Option<Addr>,
                               sessionActive: bool, sessionPeer: Option<Addr>, sent: nat, alive: bool)

  function Started<N>(): Server<N> {
    Server(Fresh(), false, None, false, None, 0, true)
  }

  function AsciiToPetscii(text: string, petscii: char -> Option<Byte>): (r: seq<Byte>)
    ensures |r| == |text|
  {
    if text == "" then []
    else
      var last := petscii(text[|text| - 1]);
      AsciiToPetscii(text[..|text| - 1], petscii) + [if last.Some? then last.value else '.' as int]
  }

  /** The bytes `send_text` encrypts for a line. */
  function ChatPayload(cfg: Config, text: string): seq<Byte> {
    var payload := AsciiToPetscii(text, cfg.petscii);
    if |payload| > cfg.maxChat then payload[..cfg.maxChat] else payload
  }

  /** A type-1 datagram. An exception that is not a ValueError ends the server. */
  function OnInitiation<N>(cfg: Config, s: Server<N>, e: Event<N>): (Server<N>, seq<Entry>)
    requires e.Datagram?
  {
    var (responder, r) := Initiation(cfg.id, s.responder, e.data, e.noise);
    match r
    case Err(fault) => (s.(responder := responder, alive := fault.IsValueError()), [])
    case Ok(response) =>
      var entry := [Accepted(e.data, if responder.lastTimestamp.Some? then responder.lastTimestamp.value else [],
                             e.from, response)];
      if e.delivered then
        (s.(responder := responder, peer := Some(e.from), active := true,
            sessionPeer := Some(e.from), sessionActive := true), entry)
      else (s.(responder := responder, peer := Some(e.from), alive := false), entry)
  }

  function OnTransport<N>(s: Server<N>, e: Event<N>): Server<N>
    requires e.Datagram?
  {
    if !s.active then s else s.(responder := Decryption(s.responder, e.data, e.decrypt).0)
  }

  /** A typed line: every exception of the encryption or of the socket is swallowed. */
  function OnLine<N>(cfg: Config, s: Server<N>, e: Event<N>): (Server<N>, seq<Entry>)
    requires e.Line?
  {
    if !s.sessionActive || s.sessionPeer.None? then (s, [])
    else
      var (responder, r) := Encryption(s.responder, ChatPayload(cfg, e.text), e.encrypt);
      match r
      case Err(_) => (s.(responder := responder), [])
      case Ok(packet) =>
        (s.(responder := responder, sent := s.sent + (if e.delivered then 1 else 0)),
         [Transport(packet, s.sessionPeer.value, e.delivered)])
  }

  function Step<N>(cfg: Config, s: Server<N>, e: Event<N>): (Server<N>, seq<Entry>) {
    if !s.alive then (s, [])
    else if e.Line? then OnLine(cfg, s, e)
    else if e.data == [] then (s, [])
    else if e.data[0] == MSG_TYPE_INITIATION then OnInitiation(cfg, s, e)
    else if e.data[0] == MSG_TYPE_TRANSPORT then (OnTransport(s, e), [])
    else (s, [])
  }

  /** The server and everything it did after these events. */
  function Run<N>(cfg: Config, events: seq<Event<N>>): (Server<N>, seq<Entry>) {
    if |events| == 0 then (Started(), [])
    else
      var (s, log) := Run(cfg, events[..|events| - 1]);
      var (s', more) := Step(cfg, s, events[|events| - 1]);
      (s', log + more)
  }

  lemma RunNext<N>(cfg: Config, events: seq<Event<N>>, n: nat)
    requires n < |events|
    ensures var before, next := Run(cfg, events[..n]), Run(cfg, events[..n + 1]);
      && next.0 == Step(cfg, before.0, events[n]).0
      && next.1 == before.1 + Step(cfg, before.0, events[n]).1
  {
    hide Step;
    var upTo := events[..n + 1];
    assert upTo[..|upTo| - 1] == events[..n] && upTo[|upTo| - 1] == events[n];
  }

  lemma RunNone<N>(cfg: Config, events: seq<Event<N>>)
    ensures Run(cfg, events[..0]) == (Started(), [])
  {
  }

  lemma {:induction false} DeadStaysDead<N>(cfg: Config, events: seq<Event<N>>, n: nat)
    requires n <= |events| && !Run(cfg, events[..n]).0.alive
    ensures Run(cfg, events) == Run(cfg, events[..n])
    decreases |events| - n
  {
    if n == |events| {
      assert events[..n] == events;
    } else {
      RunNext(cfg, events, n);
      var log := Run(cfg, events[..n]).1;
      assert log + [] == log;
      assert Run(cfg, events[..n + 1]) == Run(cfg, events[..n]);
      DeadStaysDead(cfg, events, n + 1);
    }
  }

  // ---- the server itself --------------------------------------------------

  /** The state the receive loop shares with the keyboard thread. */
  class Session<N> {
    const responder: WireGuardResponder<N>
    var peerAddr: Option<Addr>
    var active: bool
    var sent: nat

    constructor (r: WireGuardResponder<N>)
      ensures responder == r && peerAddr == None && !active && sent == 0
    {
      responder := r;
      peerAddr, active, sent := None, false, 0;
    }

    /** Send a typed line to the C64 if there is a session. */
    method SendText(cfg: Config, text: string, encrypt: Cipher<N>, delivered: bool)
      returns (ok: bool, out: seq<Entry>)
      modifies this`sent, responder
      ensures var r := Encryption(old(responder.Contents()), ChatPayload(cfg, text), encrypt);
        if active && peerAddr.Some? then
          && responder.Contents() == r.0
          && out == (if r.1.Ok? then [Transport(r.1.value, peerAddr.value, delivered)] else [])
        else responder.Contents() == old(responder.Contents()) && out == []
      ensures ok <==> out != [] && delivered
      ensures sent == old(sent) + if ok then 1 else 0
    {
      var payload := [];
      for i := 0 to |text|
        invariant payload == AsciiToPetscii(text[..i], cfg.petscii)
      {
        assert text[..i + 1][..i] == text[..i];
        var code := cfg.petscii(text[i]);
        payload := payload + [if code.Some? then code.value else '.' as int];
      }
      assert text[..|text|] == text;
      if |payload| > cfg.maxChat {
        payload := payload[..cfg.maxChat];
      }
      ok, out := false, [];
      if !active || peerAddr.None? {
        return;
      }
      var pkt := responder.EncryptTransport(payload, encrypt);
      if pkt.Ok? {
        out := [Transport(pkt.value, peerAddr.value, delivered)];
        if delivered {
          sent := sent + 1;
          ok := true;
        }
      }
    }
  }

  /** The receive loop over the events so far, with typed lines in between; it ends
      early only when an exception escapes it. */
  method RunServer<N>(cfg: Config, responder: WireGuardResponder<N>, events: seq<Event<N>>)
    returns (final: Server<N>, log: seq<Entry>)
    requires responder.id == cfg.id && responder.Contents() == Fresh()
    modifies responder
    ensures final == Run(cfg, events).0 && log == Run(cfg, events).1
    ensures responder.Contents() == final.responder
  {
    hide Run, Initiation, Encryption, Decryption, ChatPayload;
    RunNone(cfg, events);
    var session := new Session(responder);
    var peerAddr: Option<Addr> := None;
    var waiting := true;
    var alive := true;
    log := [];
    final := Started();
    for n := 0 to |events|
      invariant session.responder == responder && fresh(session)
      invariant alive
      invariant final == Server(responder.Contents(), !waiting, peerAddr, session.active, session.peerAddr,
                                session.sent, alive)
      invariant final == Run(cfg, events[..n]).0 && log == Run(cfg, events[..n]).1
    {
      var e := events[n];
      ghost var before, logged := final, log;
      RunNext(cfg, events, n);
      match e {
        case Line(text, encrypt, delivered) =>
          var ok, out := session.SendText(cfg, text, encrypt, delivered);
          log := log + out;
        case Datagram(data, from, noise, decrypt, delivered) =>
          if data == [] {
          } else if data[0] == MSG_TYPE_INITIATION {
            var response := responder.HandleInitiation(data, noise);
            if response.Err? {
              alive := response.error.IsValueError();
            } else {
              peerAddr := Some(from);
              var ts := if responder.lastTimestamp.Some? then responder.lastTimestamp.value else [];
              log := log + [Accepted(data, ts, from, response.value)];
              if delivered {
                waiting := false;
                session.peerAddr := peerAddr;
                session.active := true;
              } else {
                alive := false;
              }
            }
          } else if data[0] == MSG_TYPE_TRANSPORT {
            if !waiting {
              var text := responder.DecryptTransport(data, decrypt);
            }
          }
      }
      final := Server(responder.Contents(), !waiting, peerAddr, session.active, session.peerAddr, session.sent, alive);
      assert final == Step(cfg, before, e).0;
      assert log == logged + Step(cfg, before, e).1;
      if !alive {
        DeadStaysDead(cfg, events, n + 1);
        return;
      }
    }
    assert events[..|events|] == events;
  }

  // ---- what holds over every run ------------------------------------------

  function LastAccepted(log: seq<Entry>): (r: Option<Entry>)
    ensures r.Some? ==> r.value.Accepted?
  {
    if |log| == 0 then None
    else if log[|log| - 1].Accepted? then Some(log[|log| - 1])
    else LastAccepted(log[..|log| - 1])
  }

  /** The transport packets built since the last accepted initiation. */
  function SessionPackets(log: seq<Entry>): seq<Entry> {
    if |log| == 0 || log[|log| - 1].Accepted? then []
    else SessionPackets(log[..|log| - 1]) + [log[|log| - 1]]
  }

  function Delivered(log: seq<Entry>): nat {
    if |log| == 0 then 0
    else
      var e := log[|log| - 1];
      Delivered(log[..|log| - 1]) + if e.Transport? && e.delivered then 1 else 0
  }

  /** Timestamps of accepted initiations strictly increase, as 96-bit integers. */
  ghost predicate Increasing(log: seq<Entry>) {
    forall i, j | 0 <= i < j < |log| && log[i].Accepted? && log[j].Accepted? ::
      Be(log[i].timestamp) < Be(log[j].timestamp)
  }

  /** An accepted initiation was answered with 92 bytes that echo its sender field. */
  predicate Answered(e: Entry)
    requires e.Accepted?
  {
    && |e.initiation| == T1_TOTAL && |e.timestamp| == TAI64N_LEN
    && |e.response| == T2_TOTAL && e.response[..4] == [MSG_TYPE_RESPONSE, 0, 0, 0]
    && e.response[8..12] == e.initiation[4..8]
  }

  /** Packet number k of the session that initiation e opened. */
  predicate IsSessionPacket(t: Entry, e: Entry, k: nat)
    requires e.Accepted? && Answered(e)
  {
    && t.Transport? && t.to == e.from && |t.packet| >= T4_HDR_LEN
    && t.packet[..4] == [MSG_TYPE_TRANSPORT, 0, 0, 0]
    && Le(t.packet[4..8]) == Le(SenderField(e.initiation)) && Le(t.packet[8..16]) == k
  }

  ghost predicate NumberedFromZero(packets: seq<Entry>, e: Entry)
    requires e.Accepted? && Answered(e)
  {
    forall k | 0 <= k < |packets| :: IsSessionPacket(packets[k], e, k)
  }

  /** The responder is in the session that e opened, and e is the newest of the log. */
  ghost predicate InSession<N>(cfg: Config, r: State<N>, log: seq<Entry>, e: Entry) {
    && e.Accepted? && Answered(e)
    && r.complete && r.noise.Some?
    && cfg.id.peerStaticPub in r.greatest && r.greatest[cfg.id.peerStaticPub] == e.timestamp
    && r.peerIdx == Some(Le(SenderField(e.initiation)))
    && (forall i | 0 <= i < |log| && log[i].Accepted? :: Be(log[i].timestamp) <= Be(e.timestamp))
    && |SessionPackets(log)| == (if r.sendCounter < COUNTER_LIMIT then r.sendCounter else COUNTER_LIMIT)
    && NumberedFromZero(SessionPackets(log), e)
  }

  ghost predicate Invariant<N>(cfg: Config, s: Server<N>, log: seq<Entry>) {
    && Increasing(log)
    && (forall i | 0 <= i < |log| && log[i].Accepted? :: Answered(log[i]))
    && s.sent == Delivered(log)
    && (s.alive ==>
          && s.sessionActive == s.active && s.sessionPeer == s.peer
          && s.active == LastAccepted(log).Some?
          && if s.active
             then s.peer == Some(LastAccepted(log).value.from)
                  && InSession(cfg, s.responder, log, LastAccepted(log).value)
             else s.peer.None? && s.responder == Fresh() && log == [])
  }

  lemma Logged(log: seq<Entry>, e: Entry)
    ensures LastAccepted(log + [e]) == if e.Accepted? then Some(e) else LastAccepted(log)
    ensures SessionPackets(log + [e]) == if e.Accepted? then [] else SessionPackets(log) + [e]
    ensures Delivered(log + [e]) == Delivered(log) + if e.Transport? && e.delivered then 1 else 0
  {
    assert (log + [e])[..|log|] == log;
  }

  lemma KeepsOnInitiation<N>(cfg: Config, s: Server<N>, log: seq<Entry>, e: Event<N>)
    requires Invariant(cfg, s, log) && s.alive && e.Datagram?
    ensures var (s', more) := OnInitiation(cfg, s, e); Invariant(cfg, s', log + more)
  {
    hide Initiation;
    var (responder, r) := Initiation(cfg.id, s.responder, e.data, e.noise);
    assert log + [] == log;
    if r.Err? {
      RejectedChangesNothing(cfg.id, s.responder, e.data, e.noise);
    } else {
      Type2Layout(cfg.id, s.responder, e.data, e.noise);
      AcceptedAdvances(cfg.id, s.responder, e.data, e.noise);
      var entry := Accepted(e.data, TimestampOf(e.data, e.noise), e.from, r.value);
      assert Answered(entry);
      NewSession(cfg, s, log, responder, entry);
      hide Invariant, Acceptable, Le, Be;
    }
  }

  /** A newer accepted initiation opens a session with no packets yet. */
  lemma NewSession<N>(cfg: Config, s: Server<N>, log: seq<Entry>, r: State<N>, e: Entry)
    requires Invariant(cfg, s, log) && s.alive && e.Accepted? && Answered(e)
    requires r.complete && r.noise.Some? && r.sendCounter == 0 && r.peerIdx == Some(Le(SenderField(e.initiation)))
    requires cfg.id.peerStaticPub in r.greatest && r.greatest[cfg.id.peerStaticPub] == e.timestamp
    requires cfg.id.peerStaticPub in s.responder.greatest ==>
               Be(s.responder.greatest[cfg.id.peerStaticPub]) < Be(e.timestamp)
    ensures Invariant(cfg, s.(responder := r, peer := Some(e.from), active := true,
                              sessionPeer := Some(e.from), sessionActive := true), log + [e])
    ensures Invariant(cfg, s.(responder := r, peer := Some(e.from), alive := false), log + [e])
  {
    hide Be, Le, IsSessionPacket, SessionPackets, LastAccepted, Delivered, Answered;
    Logged(log, e);
    forall i | 0 <= i < |log| && log[i].Accepted? ensures Be(log[i].timestamp) < Be(e.timestamp) {
    }
    assert Increasing(log + [e]);
    assert InSession(cfg, r, log + [e], e);
  }

  lemma KeepsOnLine<N>(cfg: Config, s: Server<N>, log: seq<Entry>, e: Event<N>)
    requires Invariant(cfg, s, log) && s.alive && e.Line?
    ensures var (s', more) := OnLine(cfg, s, e); Invariant(cfg, s', log + more)
  {
    assert log + [] == log;
    if s.active {
      var payload := ChatPayload(cfg, e.text);
      var (responder, r) := Encryption(s.responder, payload, e.encrypt);
      if r.Ok? {
        var first := LastAccepted(log).value;
        var entry := Transport(r.value, s.sessionPeer.value, e.delivered);
        NextPacket(s.responder, payload, e.encrypt, first, entry);
        hide Invariant, LastAccepted, IsSessionPacket, Type4Header, ChatPayload;
        PacketLogged(cfg, s, log, responder, entry);
      }
    }
  }

  lemma PacketLogged<N>(cfg: Config, s: Server<N>, log: seq<Entry>, r: State<N>, t: Entry)
    requires Invariant(cfg, s, log) && s.alive && s.active && t.Transport?
    requires s.responder.sendCounter < COUNTER_LIMIT && r.noise.Some?
    requires r == s.responder.(noise := r.noise, sendCounter := s.responder.sendCounter + 1)
    requires IsSessionPacket(t, LastAccepted(log).value, s.responder.sendCounter)
    ensures Invariant(cfg, s.(responder := r, sent := s.sent + if t.delivered then 1 else 0), log + [t])
  {
    hide Be, Le, IsSessionPacket, SessionPackets, LastAccepted, Delivered;
    Logged(log, t);
    assert InSession(cfg, r, log + [t], LastAccepted(log).value);
  }

  lemma NextPacket<N>(s: State<N>, plaintext: seq<Byte>, encrypt: Cipher<N>, first: Entry, t: Entry)
    requires Encryption(s, plaintext, encrypt).1.Ok?
    requires first.Accepted? && Answered(first) && s.peerIdx == Some(Le(SenderField(first.initiation)))
    requires t.Transport? && t.packet == Encryption(s, plaintext, encrypt).1.value && t.to == first.from
    ensures IsSessionPacket(t, first, s.sendCounter)
  {
    LeBound(SenderField(first.initiation));
    Type4Layout(s, plaintext, encrypt);
    hide Encryption, Le;
  }

  lemma KeepsOnTransport<N>(cfg: Config, s: Server<N>, log: seq<Entry>, e: Event<N>)
    requires Invariant(cfg, s, log) && s.alive && e.Datagram?
    ensures Invariant(cfg, OnTransport(s, e), log)
  {
  }

  /** Every step of a live server keeps the invariant. */
  lemma StepKeeps<N>(cfg: Config, s: Server<N>, log: seq<Entry>, e: Event<N>)
    requires Invariant(cfg, s, log)
    ensures var (s', more) := Step(cfg, s, e); Invariant(cfg, s', log + more)
  {
    hide Invariant, OnInitiation, OnLine, OnTransport;
    assert log + [] == log;
    if s.alive {
      if e.Line? {
        KeepsOnLine(cfg, s, log, e);
      } else {
        KeepsOnInitiation(cfg, s, log, e);
        KeepsOnTransport(cfg, s, log, e);
      }
    }
  }

  lemma {:induction false} RunKeeps<N>(cfg: Config, events: seq<Event<N>>)
    ensures Invariant(cfg, Run(cfg, events).0, Run(cfg, events).1)
  {
    if |events| > 0 {
      hide Invariant, Step;
      var before := events[..|events| - 1];
      RunKeeps(cfg, before);
      StepKeeps(cfg, Run(cfg, before).0, Run(cfg, before).1, events[|events| - 1]);
    }
  }

  /** Whatever arrives in whatever order, accepted timestamps strictly increase: as
      integers, and so as byte strings. */
  lemma AcceptedTimestampsIncrease<N>(cfg: Config, events: seq<Event<N>>, i: nat, j: nat)
    requires i < j < |Run(cfg, events).1|
    requires Run(cfg, events).1[i].Accepted? && Run(cfg, events).1[j].Accepted?
    ensures var log := Run(cfg, events).1;
      && |log[i].timestamp| == |log[j].timestamp| == TAI64N_LEN
      && Be(log[i].timestamp) < Be(log[j].timestamp) && LexLess(log[i].timestamp, log[j].timestamp)
  {
    hide Run, Be;
    RunKeeps(cfg, events);
    var log := Run(cfg, events).1;
    BeOrderIsLex(log[i].timestamp, log[j].timestamp);
  }

  /** While the loop runs, the server is active exactly when some initiation was
      accepted, its peer is the latest one's address, and the packets built for that peer
      since carry the counters 0, 1, 2, ... */
  lemma ActiveExactlyWhenAccepted<N>(cfg: Config, events: seq<Event<N>>)
    requires Run(cfg, events).0.alive
    ensures var (s, log) := Run(cfg, events);
      && (s.active <==> exists i :: 0 <= i < |log| && log[i].Accepted?)
      && s.sessionActive == s.active && s.sessionPeer == s.peer
      && (s.active ==>
            exists n :: 0 <= n < |log| && log[n].Accepted? && s.peer == Some(log[n].from) && Answered(log[n])
                        && (forall k | n < k < |log| :: IsSessionPacket(log[k], log[n], k - n - 1)))
  {
    RunKeeps(cfg, events);
    hide Run, Be, Le, IsSessionPacket;
    var (s, log) := Run(cfg, events);
    if s.active {
      var n := SessionStart(log);
      assert log[n].Accepted?;
      forall k | n < k < |log| ensures IsSessionPacket(log[k], log[n], k - n - 1) {
        assert log[k] == SessionPackets(log)[k - n - 1];
      }
    }
  }

  lemma {:induction false} SessionStart(log: seq<Entry>) returns (n: nat)
    requires LastAccepted(log).Some?
    ensures n < |log| && log[n] == LastAccepted(log).value && log[n].Accepted?
    ensures SessionPackets(log) == log[n + 1..]
    decreases |log|
  {
    var last := |log| - 1;
    if log[last].Accepted? {
      n := last;
    } else {
      n := SessionStart(log[..last]);
      assert log[n + 1..] == log[..last][n + 1..] + [log[last]];
    }
  }

  /** An initiation refused with a ValueError leaves the server, its session and its
      responder as they were. */
  lemma RefusedInitiationIsNoOp<N>(cfg: Config, s: Server<N>, e: Event<N>)
    requires e.Datagram? && Initiation(cfg.id, s.responder, e.data, e.noise).1.Err?
    requires Initiation(cfg.id, s.responder, e.data, e.noise).1.error.IsValueError() && s.alive
    ensures OnInitiation(cfg, s, e) == (s, [])
  {
    RejectedChangesNothing(cfg.id, s.responder, e.data, e.noise);
  }

  /** A line is encrypted whole up to the receive limit, one byte a character. */
  lemma {:induction false} ChatPayloadIsPrefix(cfg: Config, text: string, k: nat)
    requires k < |ChatPayload(cfg, text)|
    ensures |ChatPayload(cfg, text)| == (if |text| > cfg.maxChat then cfg.maxChat else |text|)
    ensures ChatPayload(cfg, text)[k] ==
            (if cfg.petscii(text[k]).Some? then cfg.petscii(text[k]).value else '.' as int)
  {
    PetsciiAt(cfg, text, k);
  }

  lemma {:induction false} PetsciiAt(cfg: Config, text: string, k: nat)
    requires k < |text|
    ensures AsciiToPetscii(text, cfg.petscii)[k] ==
            (if cfg.petscii(text[k]).Some? then cfg.petscii(text[k]).value else '.' as int)
    decreases |text|
  {
    if k < |text| - 1 {
      PetsciiAt(cfg, text[..|text| - 1], k);
    }
  }
}
