/** Ethernet frames as the capture decoder leaves them. */
module Packets {
  import opened Bytes
  import opened Results

  const ETHERTYPE_IPV4: int := 0x0800
  const ETHERTYPE_ARP: int := 0x0806
  const ETHERTYPE_VLAN: int := 0x8100
  const IPPROTO_ICMP: int := 1
  const IPPROTO_UDP: int := 17
  const ICMP_ECHO_REQUEST: int := 8
  const ICMP_ECHO_REPLY: int := 0

  datatype Ip = Ip(
    src: seq<Byte>, dst: seq<Byte>, proto: int, id: int,
    fragOff: nat, moreFrags: bool, payload: seq<Byte>,
    ports: Option<(int, int)>)

  datatype Echo = Echo(kind: int, id: int, sequence: int, data: seq<Byte>)

  /** One captured frame; `ip` is absent for ARP and everything else that is not a
      well-formed IPv4 packet, `echo` for everything that is not an ICMP echo. */
  datatype Frame = Frame(
    index: int, ethSrc: seq<Byte>, ethertype: int, raw: seq<Byte>,
    ip: Option<Ip>, echo: Option<Echo>)
  {
    predicate IsIp() {
      ethertype == ETHERTYPE_IPV4 && ip.Some?
    }
  }

  function Be16(b: seq<Byte>, at: nat): int
    requires at + 2 <= |b|
  {
    256 * (b[at] as int) + b[at + 1]
  }

  function Ports(proto: int, off: int, payload: seq<Byte>): Option<(int, int)> {
    if proto == IPPROTO_UDP && off == 0 && |payload| >= 8 then
      Some((Be16(payload, 0), Be16(payload, 2)))
    else None
  }

  function EchoOf(proto: int, off: int, payload: seq<Byte>): Option<Echo> {
    if proto == IPPROTO_ICMP && off == 0 && |payload| >= 8
       && (payload[0] == ICMP_ECHO_REQUEST || payload[0] == ICMP_ECHO_REPLY) then
      Some(Echo(payload[0], Be16(payload, 4), Be16(payload, 6), payload[8..]))
    else None
  }

  /** `plain` with the IPv4 fields of its body, when that is a well-formed packet. */
  function DecodeBody(plain: Frame, body: seq<Byte>): (f: Frame)
    requires plain.ethertype == ETHERTYPE_IPV4 && plain.ip == None
  {
    if |body| < 20 then plain
    else
      var ihl := 4 * (body[0] % 16);
      if ihl < 20 || |body| < ihl then plain
      else
        var total := Be16(body, 2);
        var packet := if 20 <= total <= |body| then body[..total] else body;
        var flags := Be16(packet, 6);
        var payload := if ihl <= |packet| then packet[ihl..] else [];
        var off := 8 * (flags % 0x2000);
        var ip := Ip(packet[12..16], packet[16..20], packet[9], Be16(packet, 4),
                     off, flags / 0x2000 % 2 == 1, payload, Ports(packet[9], off, payload));
        plain.(ip := Some(ip), echo := EchoOf(packet[9], off, payload))
  }

  /** One raw frame, decoded; None when it is too short for an Ethernet header. A
      frame that claims to be IPv4 and is not keeps its ethertype without IP fields. */
  function DecodeFrame(index: int, raw: seq<Byte>): Option<Frame> {
    if |raw| < 14 then None
    else
      var outer := Be16(raw, 12);
      var tagged := outer == ETHERTYPE_VLAN && |raw| >= 18;
      var etype := if tagged then Be16(raw, 16) else outer;
      var plain := Frame(index, raw[6..12], etype, raw, None, None);
      if etype != ETHERTYPE_IPV4 then Some(plain)
      else Some(DecodeBody(plain, if tagged then raw[18..] else raw[14..]))
  }

  /** Bytes `raw` holds after its Ethernet header: what follows the IP length for a
      decoded IPv4 frame, everything otherwise. These are searched frame by frame. */
  function Remainder(f: Frame): seq<Byte> {
    if |f.raw| < 14 then []
    else
      var body := f.raw[14..];
      if !f.IsIp() then body
      else if |body| < 4 then []
      else
        var total := Be16(body, 2);
        if total <= |body| then body[total..] else []
  }

  function RemainderBase(f: Frame): int {
    if f.IsIp() && |f.raw| >= 18 then 14 + Be16(f.raw, 16) else 14
  }

  // ---- what of a raw frame is searched ------------------------------------

  predicate Tagged(raw: seq<Byte>) {
    |raw| >= 18 && Be16(raw, 12) == ETHERTYPE_VLAN
  }

  /** Where the IP packet of a raw frame starts. */
  function PacketAt(raw: seq<Byte>): nat {
    if Tagged(raw) then 18 else 14
  }

  /** Where it ends: by the IP length if that is a packet inside the frame, else with the frame. */
  function PacketEnd(raw: seq<Byte>): (e: nat)
    requires |raw| >= PacketAt(raw) + 20
    ensures PacketAt(raw) + 20 <= e <= |raw|
  {
    var p, total := PacketAt(raw), Be16(raw, PacketAt(raw) + 2);
    if 20 <= total <= |raw| - p then p + total else |raw|
  }

  /** Where its payload starts: past the header, which an IHL above the IP length cuts short. */
  function PayloadAt(raw: seq<Byte>): (s: nat)
    requires |raw| >= PacketAt(raw) + 20
    ensures PacketAt(raw) <= s <= PacketEnd(raw)
  {
    var p := PacketAt(raw);
    var s := p + 4 * (raw[p] as int % 16);
    if s <= PacketEnd(raw) then s else PacketEnd(raw)
  }

  /** Where the frame-by-frame search begins: the IP length as the tag-blind code reads it. */
  function TailAt(raw: seq<Byte>): nat
    requires |raw| >= 18
  {
    14 + Be16(raw, 16)
  }

  lemma Kept(index: int, raw: seq<Byte>)
    requires |raw| >= 14
    ensures DecodeFrame(index, raw).value.raw == raw && DecodeFrame(index, raw).value.index == index
  {
    hide Ports, EchoOf;
  }

  lemma BodyStretch(plain: Frame, body: seq<Byte>)
    requires plain.ethertype == ETHERTYPE_IPV4 && plain.ip == None && DecodeBody(plain, body).IsIp()
    ensures |body| >= 20
    ensures var total := Be16(body, 2);
      var end := if 20 <= total <= |body| then total else |body|;
      var ihl := 4 * (body[0] % 16);
      DecodeBody(plain, body).ip.value.payload == body[if ihl <= end then ihl else end..end]
  {
    hide Ports, EchoOf;
  }

  lemma DecodedBody(index: int, raw: seq<Byte>) returns (plain: Frame)
    requires |raw| >= 14 && DecodeFrame(index, raw).value.IsIp()
    ensures plain.ethertype == ETHERTYPE_IPV4 && plain.ip == None && PacketAt(raw) <= |raw|
    ensures DecodeFrame(index, raw).value == DecodeBody(plain, raw[PacketAt(raw)..])
  {
    hide DecodeBody;
    plain := Frame(index, raw[6..12], ETHERTYPE_IPV4, raw, None, None);
  }

  lemma Be16Moves(raw: seq<Byte>, p: nat, at: nat)
    requires p + at + 2 <= |raw|
    ensures Be16(raw[p..], at) == Be16(raw, p + at) && raw[p..][at] == raw[p + at]
  {
  }

  lemma SliceMoves(raw: seq<Byte>, p: nat, from: nat, to: nat)
    requires from <= to && p + to <= |raw|
    ensures raw[p..][from..to] == raw[p + from..p + to]
  {
  }

  lemma PayloadStretch(index: int, raw: seq<Byte>)
    requires |raw| >= 14 && DecodeFrame(index, raw).value.IsIp()
    ensures |raw| >= PacketAt(raw) + 20
    ensures DecodeFrame(index, raw).value.ip.value.payload == raw[PayloadAt(raw)..PacketEnd(raw)]
  {
    var p := PacketAt(raw);
    var plain := DecodedBody(index, raw);
    BodyStretch(plain, raw[p..]);
    hide DecodeBody, DecodeFrame, Be16, Tagged, PacketAt;
    Be16Moves(raw, p, 0);
    Be16Moves(raw, p, 2);
    SliceMoves(raw, p, PayloadAt(raw) - p, PacketEnd(raw) - p);
  }

  /** An IPv4 frame is searched in two stretches: the payload, as part of its datagram, and
      the tail, on its own. */
  lemma IpBodyIsSearched(index: int, raw: seq<Byte>)
    requires |raw| >= 14 && DecodeFrame(index, raw).value.IsIp()
    ensures |raw| >= PacketAt(raw) + 20
    ensures var f := DecodeFrame(index, raw).value;
      && f.raw == raw && f.index == index
      && f.ip.value.payload == raw[PayloadAt(raw)..PacketEnd(raw)]
      && RemainderBase(f) == TailAt(raw)
      && Remainder(f) == if TailAt(raw) <= |raw| then raw[TailAt(raw)..] else []
  {
    hide DecodeFrame;
    Kept(index, raw);
    PayloadStretch(index, raw);
    assert Be16(raw[14..], 2) == Be16(raw, 16);
  }

  /** Any other frame is searched from the end of its Ethernet header. */
  lemma OtherBody(index: int, raw: seq<Byte>)
    requires |raw| >= 14 && !DecodeFrame(index, raw).value.IsIp()
    ensures Remainder(DecodeFrame(index, raw).value) == raw[14..]
  {
    hide DecodeFrame;
    Kept(index, raw);
  }

  /** Without a tag the two stretches leave no gap: whatever follows the payload is in the
      tail. With one the tail starts at byte 2062, so the bytes from the packet's end up to
      there are in neither. */
  lemma TailFollowsPayload(index: int, raw: seq<Byte>)
    requires |raw| >= 14 && DecodeFrame(index, raw).value.IsIp() && |raw| >= PacketAt(raw) + 20
    ensures !Tagged(raw) ==> TailAt(raw) <= PacketEnd(raw) || PacketEnd(raw) == |raw|
    ensures Tagged(raw) ==> TailAt(raw) == 14 + 0x800
  {
    hide Ports, EchoOf;
  }
}
