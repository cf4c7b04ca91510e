/** What a clean verdict of `LeakSearch` says about the bytes on the wire, and what it
    does not. */
module WireLeaks {
  import opened Bytes
  import opened Results
  import opened Packets
  import opened Reassembly
  import opened ByteSearch
  import opened FragmentLoss
  import opened LeakSearch

  // ---- the capture as recorded --------------------------------------------

  /** The frames of a capture, numbered by record; a record too short for an Ethernet
      header is numbered and dropped. */
  function DecodeCapture(raws: seq<seq<Byte>>): seq<Frame> {
    if |raws| == 0 then []
    else
      var before := DecodeCapture(raws[..|raws| - 1]);
      match DecodeFrame(|raws| - 1, raws[|raws| - 1])
      case None => before
      case Some(f) => before + [f]
  }

  /** Record i decodes to f. */
  predicate Records(raws: seq<seq<Byte>>, i: int, f: Frame) {
    0 <= i < |raws| && DecodeFrame(i, raws[i]) == Some(f)
  }

  /** Every record long enough is among the frames, no frame comes from elsewhere, and no
      two have one index. */
  lemma {:induction false} CaptureFrames(raws: seq<seq<Byte>>)
    ensures forall i, f :: Records(raws, i, f) ==> f in DecodeCapture(raws)
    ensures forall f :: f in DecodeCapture(raws) ==> Records(raws, f.index, f)
    ensures Numbered(DecodeCapture(raws), |raws|)
  {
    hide DecodeFrame, Numbered;
    if |raws| == 0 {
      NoneNumbered();
    } else {
      var init, last := raws[..|raws| - 1], |raws| - 1;
      CaptureFrames(init);
      LastRecord(last, raws[last]);
      forall i, f | Records(raws, i, f)
        ensures f in DecodeCapture(raws)
      {
        assert i == last || Records(init, i, f);
      }
      forall f | f in DecodeCapture(raws)
        ensures Records(raws, f.index, f)
      {
        assert f in DecodeCapture(init) ==> Records(init, f.index, f);
      }
      NumberedOn(DecodeCapture(init), last, DecodeFrame(last, raws[last]));
    }
  }

  /** Indices rise, and stay below `limit`. */
  predicate Numbered(fs: seq<Frame>, limit: int) {
    && (forall a :: 0 <= a < |fs| ==> fs[a].index < limit)
    && forall a, b :: 0 <= a < b < |fs| ==> fs[a].index < fs[b].index
  }

  lemma NoneNumbered()
    ensures Numbered([], 0)
  {
  }

  lemma LastRecord(i: int, raw: seq<Byte>)
    ensures DecodeFrame(i, raw).Some? ==> DecodeFrame(i, raw).value.index == i
  {
    if |raw| >= 14 {
      Kept(i, raw);
    }
  }

  lemma NumberedOn(fs: seq<Frame>, limit: int, next: Option<Frame>)
    requires Numbered(fs, limit) && (next.Some? ==> next.value.index == limit)
    ensures Numbered(fs, limit + 1) && (next.Some? ==> Numbered(fs + [next.value], limit + 1))
  {
  }

  // ---- payload bytes ------------------------------------------------------

  ghost predicate IsForm(text: seq<Byte>, pat: seq<Byte>) {
    exists i :: 0 <= i < |SEARCHED| && pat == Encoded(SEARCHED[i], text)
  }

  ghost predicate IsPiece(text: seq<Byte>, pat: seq<Byte>, least: int) {
    exists start, len :: Slice(text, start, len, pat) && least <= len
  }

  predicate Slice(text: seq<Byte>, start: int, len: int, pat: seq<Byte>) {
    0 <= start && 0 <= len && start + len <= |text| && pat == text[start..start + len]
  }

  /** What the search looks for in a datagram: a form of the needle or a long enough piece. */
  ghost predicate Sought(n: Needle, pat: seq<Byte>, partialMin: int) {
    n.text != [] && (IsForm(n.text, pat) || IsPiece(n.text, pat, partialMin))
  }

  lemma FormLeaks(hay: seq<Byte>, text: seq<Byte>, pat: seq<Byte>, at: int)
    requires IsForm(text, pat) && Matches(hay, pat, at)
    ensures Leaks(hay, text)
  {
    assert AppearsAt(hay, text, at);
  }

  lemma PieceDribbles(hay: seq<Byte>, text: seq<Byte>, pat: seq<Byte>, least: int, at: int)
    requires IsPiece(text, pat, least) && Matches(hay, pat, at)
    ensures Dribbles(hay, text, least)
  {
    var start, len :| Slice(text, start, len, pat) && least <= len;
    assert RunsAt(hay, text, start, len);
  }

  /** Nothing sought matches anywhere in a clean datagram. */
  lemma CleanHoldsNone(d: Datagram, n: Needle, partialMin: int, pat: seq<Byte>, at: int)
    requires DatagramClean(d, n, partialMin) && Sought(n, pat, partialMin)
    ensures !Matches(d.data, pat, at)
  {
    hide Matches, IsForm, IsPiece, Leaks, Dribbles;
    if Matches(d.data, pat, at) && IsForm(n.text, pat) {
      FormLeaks(d.data, n.text, pat, at);
    } else if Matches(d.data, pat, at) {
      PieceDribbles(d.data, n.text, pat, partialMin, at);
    }
  }

  /** On a clean capture a needle form, or a long enough piece, in the payload of any frame
      has a byte that is not in the frame's datagram: another fragment's byte is. */
  lemma PayloadIsClean(frames: seq<Frame>, needles: seq<Needle>, partialMin: int,
                       f: Frame, n: Needle, pat: seq<Byte>, at: int)
    requires Clean(Reassembled(frames), frames, needles, partialMin)
    requires f in frames && f.IsIp() && n in needles && Sought(n, pat, partialMin)
    requires Matches(f.ip.value.payload, pat, at)
    ensures Lost(frames, f, at, |pat|)
  {
    hide Clean, DatagramClean, Sought, Lost, Matches, Reassembled, Home, Keys, KeyOf;
    StretchIsSeenIff(frames, f, pat, at);
    var k := HomeIs(frames, f);
    var d := Home(frames, f);
    DatagramIsClean(Reassembled(frames), frames, needles, partialMin, k, n);
    CleanHoldsNone(d, n, partialMin, pat, f.ip.value.fragOff + at);
  }

  lemma DatagramIsClean(dgs: seq<Datagram>, frames: seq<Frame>, needles: seq<Needle>, partialMin: int, k: nat, n: Needle)
    requires Clean(dgs, frames, needles, partialMin) && k < |dgs| && n in needles
    ensures DatagramClean(dgs[k], n, partialMin)
  {
    hide DatagramClean, FrameCleanOfAll;
    assert dgs[k] in dgs && DatagramCleanOfAll(dgs[k], needles, partialMin);
  }

  /** No payload of a datagram reported complete holds anything sought. */
  lemma CompleteIsClean(frames: seq<Frame>, needles: seq<Needle>, partialMin: int,
                        f: Frame, n: Needle, pat: seq<Byte>, at: int)
    requires Clean(Reassembled(frames), frames, needles, partialMin)
    requires f in frames && f.IsIp() && n in needles && Sought(n, pat, partialMin)
    requires Home(frames, f).complete
    ensures !Matches(f.ip.value.payload, pat, at)
  {
    hide Clean, Sought, Lost, Matches, Reassembled, Home;
    CompleteLosesNothing(frames, f, at, |pat|);
    if Matches(f.ip.value.payload, pat, at) {
      PayloadIsClean(frames, needles, partialMin, f, n, pat, at);
    }
  }

  /** Nor does any payload at all where no two overlapping fragments disagree. */
  lemma ConsistentIsClean(frames: seq<Frame>, needles: seq<Needle>, partialMin: int,
                          f: Frame, n: Needle, pat: seq<Byte>, at: int)
    requires Clean(Reassembled(frames), frames, needles, partialMin) && NoConflict(frames)
    requires f in frames && f.IsIp() && n in needles && Sought(n, pat, partialMin)
    ensures !Matches(f.ip.value.payload, pat, at)
  {
    hide Clean, Sought, Lost, Matches, Reassembled, NoConflict;
    NoConflictNoLoss(frames, f, at, |pat|);
    if Matches(f.ip.value.payload, pat, at) {
      PayloadIsClean(frames, needles, partialMin, f, n, pat, at);
    }
  }

  /** Nor does the payload of an unfragmented frame, which shares its datagram with nobody. */
  lemma UnfragmentedIsClean(raws: seq<seq<Byte>>, needles: seq<Needle>, partialMin: int,
                            f: Frame, n: Needle, pat: seq<Byte>, at: int)
    requires Clean(Reassembled(DecodeCapture(raws)), DecodeCapture(raws), needles, partialMin)
    requires f in DecodeCapture(raws) && f.IsIp() && KeyOf(f) == Whole(f.index)
    requires n in needles && Sought(n, pat, partialMin)
    ensures !Matches(f.ip.value.payload, pat, at)
  {
    hide Clean, Sought, Lost, Matches, Reassembled, DecodeCapture;
    CaptureFrames(raws);
    UnfragmentedIsComplete(DecodeCapture(raws), |raws|, f);
    CompleteIsClean(DecodeCapture(raws), needles, partialMin, f, n, pat, at);
  }

  lemma UnfragmentedIsComplete(frames: seq<Frame>, limit: int, f: Frame)
    requires Numbered(frames, limit) && f in frames && f.IsIp() && KeyOf(f) == Whole(f.index)
    ensures Home(frames, f).complete
  {
    hide Reassembled, Home, Keys;
    var i :| 0 <= i < |frames| && frames[i] == f;
    var k := HomeIs(frames, f);
    UnfragmentedStandsAlone(frames, i, k);
  }

  // ---- raw frames ---------------------------------------------------------

  lemma MatchWithin(hay: seq<Byte>, pat: seq<Byte>, at: int, from: int, to: int)
    requires Matches(hay, pat, at) && 0 <= from <= at && at + |pat| <= to <= |hay|
    ensures Matches(hay[from..to], pat, at - from)
  {
    var part := hay[from..to];
    forall j | 0 <= j < |pat|
      ensures part[at - from..at - from + |pat|][j] == pat[j]
    {
      assert hay[at..at + |pat|][j] == pat[j];
    }
    assert part[at - from..at - from + |pat|] == pat;
  }

  /** A stretch of hay is matched exactly where hay itself is matched inside it. */
  lemma MatchShifts(hay: seq<Byte>, pat: seq<Byte>, at: int, from: int, to: int)
    requires Matches(hay, pat, at) && 0 <= from <= to <= |hay|
    ensures Matches(hay[from..to], pat, at - from) <==> from <= at && at + |pat| <= to
  {
    if from <= at && at + |pat| <= to {
      MatchWithin(hay, pat, at, from, to);
    }
  }

  /** The search comes across these bytes where they stand in f's record: in what is left of
      the record, or, being payload, at their place in f's datagram. */
  ghost predicate Seen(frames: seq<Frame>, f: Frame, pat: seq<Byte>, at: int)
    requires f in frames && (f.IsIp() ==> |f.raw| >= PacketAt(f.raw) + 20)
  {
    || Matches(Remainder(f), pat, at - RemainderBase(f))
    || (f.IsIp()
        && var inside := at - PayloadAt(f.raw);
           Matches(f.ip.value.payload, pat, inside)
           && Matches(Home(frames, f).data, pat, f.ip.value.fragOff + inside))
  }

  /** Bytes at `at` of f's record that the search does not come across. Of a frame that is
      not IPv4, those that begin in the Ethernet header. Of an IPv4 frame those that begin
      before the tail and also begin before the payload, or end past the IP packet, or have
      a byte that reassembly loses. */
  ghost predicate Unsearched(frames: seq<Frame>, f: Frame, at: int, length: int)
    requires f.IsIp() ==> |f.raw| >= PacketAt(f.raw) + 20
  {
    if !f.IsIp() then at < 14
    else
      && at < TailAt(f.raw)
      && (at < PayloadAt(f.raw) || PacketEnd(f.raw) < at + length
          || Lost(frames, f, at - PayloadAt(f.raw), length))
  }

  lemma IpFrameSeenIff(raws: seq<seq<Byte>>, i: nat, f: Frame, pat: seq<Byte>, at: int)
    requires Records(raws, i, f) && f in DecodeCapture(raws) && f.IsIp() && |raws[i]| >= 14
    requires |pat| > 0 && Matches(raws[i], pat, at)
    ensures f.raw == raws[i] && |f.raw| >= PacketAt(f.raw) + 20
    ensures Seen(DecodeCapture(raws), f, pat, at) <==> !Unsearched(DecodeCapture(raws), f, at, |pat|)
  {
    hide DecodeFrame, DecodeCapture, Lost, Home, Matches, Remainder, RemainderBase;
    IpBodyIsSearched(i, raws[i]);
    var raw, frames := raws[i], DecodeCapture(raws);
    InBounds(raw, pat, at);
    MatchShifts(raw, pat, at, PayloadAt(raw), PacketEnd(raw));
    if Matches(f.ip.value.payload, pat, at - PayloadAt(raw)) {
      StretchIsSeenIff(frames, f, pat, at - PayloadAt(raw));
    }
    TailSeenIff(raw, pat, at, TailAt(raw));
  }

  lemma TailSeenIff(raw: seq<Byte>, pat: seq<Byte>, at: int, from: nat)
    requires |pat| > 0 && Matches(raw, pat, at)
    ensures Matches(if from <= |raw| then raw[from..] else [], pat, at - from) <==> from <= at
  {
    if from <= |raw| {
      MatchShifts(raw, pat, at, from, |raw|);
      assert raw[from..] == raw[from..|raw|];
    }
  }

  lemma InBounds(hay: seq<Byte>, pat: seq<Byte>, at: int)
    requires Matches(hay, pat, at)
    ensures 0 <= at && at + |pat| <= |hay|
  {
  }

  lemma OtherFrameSeenIff(raws: seq<seq<Byte>>, i: nat, f: Frame, pat: seq<Byte>, at: int)
    requires Records(raws, i, f) && f in DecodeCapture(raws) && !f.IsIp() && |raws[i]| >= 14
    requires |pat| > 0 && Matches(raws[i], pat, at)
    ensures Seen(DecodeCapture(raws), f, pat, at) <==> !Unsearched(DecodeCapture(raws), f, at, |pat|)
  {
    hide DecodeFrame, DecodeCapture, Matches, Remainder;
    OtherBody(i, raws[i]);
    TailSeenIff(raws[i], pat, at, 14);
  }

  lemma LongEnough(raws: seq<seq<Byte>>, i: nat, f: Frame)
    requires Records(raws, i, f)
    ensures |raws[i]| >= 14 && f.raw == raws[i] && (f.IsIp() ==> |f.raw| >= PacketAt(f.raw) + 20)
  {
    Kept(i, raws[i]);
    if f.IsIp() {
      PayloadStretch(i, raws[i]);
    }
  }

  /** The search comes across any bytes of any record exactly when they are not in one of
      its unsearched places. */
  lemma SeenIff(raws: seq<seq<Byte>>, i: nat, f: Frame, pat: seq<Byte>, at: int)
    requires Records(raws, i, f) && |pat| > 0 && Matches(raws[i], pat, at)
    ensures f in DecodeCapture(raws) && (f.IsIp() ==> |f.raw| >= PacketAt(f.raw) + 20)
    ensures Seen(DecodeCapture(raws), f, pat, at) <==> !Unsearched(DecodeCapture(raws), f, at, |pat|)
  {
    hide DecodeFrame, DecodeCapture, Matches, Seen, Unsearched;
    CaptureFrames(raws);
    LongEnough(raws, i, f);
    if f.IsIp() {
      IpFrameSeenIff(raws, i, f, pat, at);
    } else {
      OtherFrameSeenIff(raws, i, f, pat, at);
    }
  }

  lemma RemainderIsClean(dgs: seq<Datagram>, frames: seq<Frame>, needles: seq<Needle>, partialMin: int,
                         f: Frame, n: Needle, pat: seq<Byte>, at: int)
    requires Clean(dgs, frames, needles, partialMin) && f in frames && n in needles && n.text != []
    requires IsForm(n.text, pat)
    ensures !Matches(Remainder(f), pat, at)
  {
    hide Remainder, DatagramCleanOfAll, Leaks, Encoded;
    assert FrameCleanOfAll(f, needles) && FrameClean(f, n);
    if Matches(Remainder(f), pat, at) {
      FormLeaks(Remainder(f), n.text, pat, at);
    }
  }

  /** A clean verdict sees no form of any needle in any record. */
  lemma CleanSeesNone(frames: seq<Frame>, needles: seq<Needle>, partialMin: int,
                      f: Frame, n: Needle, pat: seq<Byte>, at: int)
    requires Clean(Reassembled(frames), frames, needles, partialMin)
    requires f in frames && (f.IsIp() ==> |f.raw| >= PacketAt(f.raw) + 20)
    requires n in needles && n.text != [] && IsForm(n.text, pat)
    ensures !Seen(frames, f, pat, at)
  {
    hide Clean, IsForm, Matches, Home, Lost, Reassembled, Remainder, RemainderBase;
    RemainderIsClean(Reassembled(frames), frames, needles, partialMin, f, n, pat, at - RemainderBase(f));
    if f.IsIp() {
      var inside := at - PayloadAt(f.raw);
      if Matches(f.ip.value.payload, pat, inside) {
        PayloadIsClean(frames, needles, partialMin, f, n, pat, inside);
        StretchIsSeenIff(frames, f, pat, inside);
      }
    }
  }

  /** A clean verdict, said of the recorded bytes: any form of any needle, at any offset of
      any record, stands in one of the unsearched places. */
  lemma WireIsClean(raws: seq<seq<Byte>>, needles: seq<Needle>, partialMin: int,
                    i: nat, f: Frame, n: Needle, form: Form, at: int)
    requires Clean(Reassembled(DecodeCapture(raws)), DecodeCapture(raws), needles, partialMin)
    requires n in needles && n.text != [] && form in SEARCHED
    requires Records(raws, i, f) && Matches(raws[i], Encoded(form, n.text), at)
    ensures f.IsIp() ==> |f.raw| >= PacketAt(f.raw) + 20
    ensures Unsearched(DecodeCapture(raws), f, at, |n.text|)
  {
    var pat := Encoded(form, n.text);
    assert IsForm(n.text, pat);
    hide DecodeFrame, DecodeCapture, Clean, Reassembled, Unsearched, Encoded, IsForm, Matches, Seen;
    SeenIff(raws, i, f, pat, at);
    CleanSeesNone(DecodeCapture(raws), needles, partialMin, f, n, pat, at);
  }

  // ---- each unsearched place, at an input ---------------------------------

  const STATION: seq<Byte> := [2, 0, 0, 0, 0, 1]

  /** The headers of a raw UDP packet at offset 0 from one fixed station: with or without an
      802.1Q tag, with or without more fragments to follow. */
  function Headers(tag: bool, more: bool, total: nat): (h: seq<Byte>)
    requires total < 0x10000
    ensures |h| == if tag then 38 else 34
  {
    (if tag then [2, 0, 0, 0, 0, 2, 2, 0, 0, 0, 0, 1, 0x81, 0x00, 0x00, 0x01, 0x08, 0x00]
     else [2, 0, 0, 0, 0, 2, 2, 0, 0, 0, 0, 1, 0x08, 0x00])
    + IpHeader(more, total)
  }

  function IpHeader(more: bool, total: nat): (h: seq<Byte>)
    requires total < 0x10000
    ensures |h| == 20
  {
    [0x45, 0x00, total / 256, total % 256, 0x12, 0x34, if more then 0x20 else 0x00, 0x00,
     64, 17, 0, 0, 10, 0, 0, 1, 10, 0, 0, 2]
  }

  /** Such a packet, and what pads its frame. */
  function Packet(tag: bool, more: bool, data: seq<Byte>, pad: seq<Byte>): (raw: seq<Byte>)
    requires |data| <= 1480
  {
    Headers(tag, more, 20 + |data|) + data + pad
  }

  /** At p stands an IPv4 header of 20 bytes with this length, from 10.0.0.1 to 10.0.0.2. */
  predicate IpAt(raw: seq<Byte>, p: nat, more: bool, total: int) {
    && |raw| >= p + 20 && raw[p] == 0x45 && Be16(raw, p + 2) == total
    && Be16(raw, p + 4) == 0x1234 && Be16(raw, p + 6) == (if more then 0x2000 else 0) && raw[p + 9] == 17
    && Four(raw, p + 12, 1) && Four(raw, p + 16, 2)
  }

  /** raw begins with the headers of such a packet. */
  predicate Headed(raw: seq<Byte>, more: bool, total: int) {
    && |raw| >= PacketAt(raw) + 20
    && raw[6] == 2 && raw[7] == raw[8] == raw[9] == raw[10] == 0 && raw[11] == 1
    && Be16(raw, PacketAt(raw) - 2) == ETHERTYPE_IPV4 && IpAt(raw, PacketAt(raw), more, total)
  }

  /** The address 10.0.0.last stands at `at`. */
  predicate Four(raw: seq<Byte>, at: int, last: Byte) {
    0 <= at && at + 4 <= |raw| && raw[at] == 10 && raw[at + 1] == 0 && raw[at + 2] == 0 && raw[at + 3] == last
  }

  lemma FourIs(raw: seq<Byte>, at: int, last: Byte)
    requires Four(raw, at, last)
    ensures raw[at..at + 4] == [10, 0, 0, last]
  {
  }

  lemma IpHeaderIs(more: bool, total: nat)
    requires total < 0x10000
    ensures IpAt(IpHeader(more, total), 0, more, total)
  {
  }

  /** The same header further on. */
  lemma IpAtMoves(raw: seq<Byte>, p: nat, h: seq<Byte>, more: bool, total: int)
    requires IpAt(h, 0, more, total) && |raw| >= p + |h| && raw[p..p + |h|] == h
    ensures IpAt(raw, p, more, total)
  {
    assert forall k :: 0 <= k < |h| ==> h[k] == raw[p + k];
  }

  lemma HeadersHead(tag: bool, more: bool, length: nat, rest: seq<Byte>)
    requires length <= 1480
    ensures var raw := Headers(tag, more, 20 + length) + rest;
      Tagged(raw) == tag && Headed(raw, more, 20 + length)
  {
    var total := 20 + length;
    var raw, p := Headers(tag, more, total) + rest, if tag then 18 else 14;
    IpHeaderIs(more, total);
    assert raw[p..p + 20] == IpHeader(more, total);
    hide IpHeader, IpAt;
    IpAtMoves(raw, p, IpHeader(more, total), more, total);
    assert raw[12] == if tag then 0x81 else 0x08;
    assert raw[p - 2] == 0x08 && raw[p - 1] == 0x00;
  }

  lemma StationIs(raw: seq<Byte>)
    requires |raw| >= 12 && raw[6] == 2 && raw[7] == raw[8] == raw[9] == raw[10] == 0 && raw[11] == 1
    ensures raw[6..12] == STATION
  {
  }

  lemma PacketBytes(tag: bool, more: bool, data: seq<Byte>, pad: seq<Byte>)
    requires |data| <= 1480
    ensures var raw := Packet(tag, more, data, pad);
      var p := if tag then 18 else 14;
      && |raw| == p + 20 + |data| + |pad| && PacketAt(raw) == p && Tagged(raw) == tag
      && Headed(raw, more, 20 + |data|) && raw[6..12] == STATION
      && raw[p + 20..p + 20 + |data|] == data && raw[p + 20 + |data|..] == pad
  {
    var raw := Packet(tag, more, data, pad);
    assert raw == Headers(tag, more, 20 + |data|) + (data + pad);
    HeadersHead(tag, more, |data|, data + pad);
    hide Headers, IpAt;
    StationIs(raw);
  }

  /** f has the fields of the IPv4 header at p. */
  predicate FieldsAt(f: Frame, raw: seq<Byte>, p: nat)
    requires f.IsIp() && |raw| >= p + 20
  {
    var ip := f.ip.value;
    ip.src == raw[p + 12..p + 16] && ip.dst == raw[p + 16..p + 20] && ip.proto == raw[p + 9]
    && ip.id == Be16(raw, p + 4) && ip.fragOff == 8 * (Be16(raw, p + 6) % 0x2000)
    && ip.moreFrags == (Be16(raw, p + 6) / 0x2000 % 2 == 1)
  }

  /** The fields of a packet with a 20-byte header, where they stand in the record. */
  lemma PacketFields(i: nat, raw: seq<Byte>)
    requires |raw| >= PacketAt(raw) + 20 && Be16(raw, PacketAt(raw) - 2) == ETHERTYPE_IPV4 && raw[PacketAt(raw)] == 0x45
    ensures DecodeFrame(i, raw).Some?
    ensures var f := DecodeFrame(i, raw).value; f.IsIp() && f.ethSrc == raw[6..12] && FieldsAt(f, raw, PacketAt(raw))
  {
    var p := PacketAt(raw);
    var plain := Frame(i, raw[6..12], ETHERTYPE_IPV4, raw, None, None);
    Be16Moves(raw, p, 0);
    BodyFields(plain, raw[p..]);
    FieldsMove(DecodeBody(plain, raw[p..]), raw, p);
    hide DecodeBody, FieldsAt;
  }

  /** What the decoder makes of an IPv4 body with a 20-byte header. */
  lemma BodyFields(plain: Frame, body: seq<Byte>)
    requires plain.ethertype == ETHERTYPE_IPV4 && plain.ip == None && |body| >= 20 && body[0] == 0x45
    ensures var f := DecodeBody(plain, body); f.IsIp() && f.ethSrc == plain.ethSrc && FieldsAt(f, body, 0)
  {
    hide Ports, EchoOf;
  }

  lemma FieldsMove(f: Frame, raw: seq<Byte>, p: nat)
    requires f.IsIp() && |raw| >= p + 20 && FieldsAt(f, raw[p..], 0)
    ensures FieldsAt(f, raw, p)
  {
    Be16Moves(raw, p, 4);
    Be16Moves(raw, p, 6);
    Be16Moves(raw, p, 9);
    SliceMoves(raw, p, 12, 16);
    SliceMoves(raw, p, 16, 20);
    hide Be16;
  }

  lemma PacketDecodes(i: nat, tag: bool, more: bool, data: seq<Byte>, pad: seq<Byte>) returns (f: Frame)
    requires |data| <= 1480 && (tag ==> |data| + |pad| <= 2024)
    ensures DecodeFrame(i, Packet(tag, more, data, pad)) == Some(f) && f.IsIp() && f.ethSrc == STATION && f.index == i
    ensures KeyOf(f) == if more then Fragments([10, 0, 0, 1], [10, 0, 0, 2], 17, 0x1234) else Whole(i)
    ensures f.ip.value.fragOff == 0 && f.ip.value.payload == data && Remainder(f) == if tag then [] else pad
  {
    var raw := Packet(tag, more, data, pad);
    PacketBytes(tag, more, data, pad);
    hide Packet, DecodeFrame, Remainder, RemainderBase;
    PacketFields(i, raw);
    f := DecodeFrame(i, raw).value;
    IpBodyIsSearched(i, raw);
    PacketStretches(tag, more, data, pad);
    HeadedKey(raw, more, 20 + |data|, f);
    hide Headed, KeyOf;
    if tag {
      TailFollowsPayload(i, raw);
    }
  }

  /** The key of a frame with such headers. */
  lemma HeadedKey(raw: seq<Byte>, more: bool, total: int, f: Frame)
    requires Headed(raw, more, total) && f.IsIp() && FieldsAt(f, raw, PacketAt(raw))
    ensures KeyOf(f) == if more then Fragments([10, 0, 0, 1], [10, 0, 0, 2], 17, 0x1234) else Whole(f.index)
    ensures f.ip.value.fragOff == 0
  {
    FourIs(raw, PacketAt(raw) + 12, 1);
    FourIs(raw, PacketAt(raw) + 16, 2);
    hide Four, Be16;
  }

  /** Where such a packet's payload and tail are. */
  lemma PacketStretches(tag: bool, more: bool, data: seq<Byte>, pad: seq<Byte>)
    requires |data| <= 1480
    ensures var raw := Packet(tag, more, data, pad);
      && |raw| >= PacketAt(raw) + 20
      && raw[PayloadAt(raw)..PacketEnd(raw)] == data && (!tag ==> TailAt(raw) <= |raw| && raw[TailAt(raw)..] == pad)
  {
    PacketBytes(tag, more, data, pad);
    StretchesOf(Packet(tag, more, data, pad), more, |data|);
    hide Packet;
  }

  lemma StretchesOf(raw: seq<Byte>, more: bool, length: nat)
    requires Headed(raw, more, 20 + length) && |raw| >= PacketAt(raw) + 20 + length
    ensures PayloadAt(raw) == PacketAt(raw) + 20 && PacketEnd(raw) == PacketAt(raw) + 20 + length
    ensures !Tagged(raw) ==> TailAt(raw) == PacketEnd(raw)
  {
    hide Four;
  }

  /** What the verdict needs of a capture that is one unfragmented frame. */
  lemma OneFramePasses(raw: seq<Byte>, f: Frame, n: Needle, partialMin: int)
    requires DecodeFrame(0, raw) == Some(f) && f.IsIp() && KeyOf(f) == Whole(0) && f.index == 0 && n.text != []
    requires !Leaks(f.ip.value.payload, n.text) && !Dribbles(f.ip.value.payload, n.text, partialMin)
    requires !Leaks(Remainder(f), n.text)
    ensures Passes(DecodeCapture([raw]), [n], Some(f.ethSrc), 1, None, partialMin)
  {
    OneRecord(raw, f);
    hide DecodeFrame, DecodeCapture, Reassembled, Leaks, Dribbles, Remainder, KeyOf, Clean, Passes;
    OneDatagram(f);
    OneIsClean(Reassembled([f]), [f], n, partialMin);
    CleanPasses([f], n, partialMin, f.ethSrc);
  }

  lemma OneRecord(raw: seq<Byte>, f: Frame)
    requires DecodeFrame(0, raw) == Some(f)
    ensures DecodeCapture([raw]) == [f]
  {
    hide DecodeFrame;
    assert [raw][..0] == [];
    assert DecodeCapture([]) == [];
  }

  lemma OneDatagram(f: Frame)
    requires f.IsIp() && KeyOf(f) == Whole(f.index)
    ensures |Reassembled([f])| == 1 && Reassembled([f])[0].data == f.ip.value.payload
    ensures f.ethSrc in Reassembled([f])[0].srcs
  {
    assert [f][..0] == [] && Keys([]) == [] && Members([], KeyOf(f)) == [];
    assert Keys([f]) == [KeyOf(f)] && Members([f], KeyOf(f)) == [f];
    hide Keys, Members, KeyOf, Reassembled;
    UnfragmentedStandsAlone([f], 0, 0);
    ReassembledDatagrams([f], 0);
    assert f in [f];
  }

  /** One clean datagram from this station is enough for the verdict. */
  lemma CleanPasses(frames: seq<Frame>, n: Needle, partialMin: int, mac: seq<Byte>)
    requires |Reassembled(frames)| == 1 && mac in Reassembled(frames)[0].srcs && n.text != []
    requires Clean(Reassembled(frames), frames, [n], partialMin)
    ensures Passes(frames, [n], Some(mac), 1, None, partialMin)
  {
    hide Reassembled, Clean, FromStation;
    OneFromStation(Reassembled(frames), mac);
    assert n in [n];
  }

  lemma OneFromStation(dgs: seq<Datagram>, mac: seq<Byte>)
    requires |dgs| == 1 && mac in dgs[0].srcs
    ensures |FromStation(dgs, mac)| >= 1
  {
    assert dgs[0] in FromStation(dgs, mac);
  }

  lemma OneIsClean(dgs: seq<Datagram>, frames: seq<Frame>, n: Needle, partialMin: int)
    requires |dgs| == 1 && DatagramClean(dgs[0], n, partialMin)
    requires forall f :: f in frames ==> FrameClean(f, n)
    ensures Clean(dgs, frames, [n], partialMin)
  {
    hide DatagramClean, FrameClean;
    assert forall d :: d in dgs ==> d == dgs[0];
    assert forall m :: m in [n] ==> m == n;
  }

  /** Text that does not fit in hay is not there, nor is any piece too long for it. */
  lemma TooShort(hay: seq<Byte>, text: seq<Byte>, least: int)
    requires |hay| < |text|
    ensures !Leaks(hay, text) && (least > |hay| ==> !Dribbles(hay, text, least))
  {
    forall at, i | 0 <= i < |SEARCHED|
      ensures !Matches(hay, Encoded(SEARCHED[i], text), at)
    {
    }
    if least > |hay| {
      forall start, len | least <= len
        ensures !RunsAt(hay, text, start, len)
      {
      }
    }
  }

  /** In a header: the sender's own Ethernet address stands in every frame it sends, and the
      check for it passes over any payload that does not hold it too. */
  lemma HeaderPasses(data: seq<Byte>, partialMin: int)
    requires |data| <= 1480 && !Leaks(data, STATION) && !Dribbles(data, STATION, partialMin)
    ensures var raw := Packet(false, false, data, []);
      && Matches(raw, STATION, 6)
      && Passes(DecodeCapture([raw]), [Needle("text", STATION)], Some(STATION), 1, None, partialMin)
  {
    var raw := Packet(false, false, data, []);
    var f := PacketDecodes(0, false, false, data, []);
    PacketBytes(false, false, data, []);
    hide Packet, DecodeFrame, DecodeCapture, Leaks, Dribbles, Remainder, KeyOf, Passes;
    TooShort([], STATION, 1);
    OneFramePasses(raw, f, Needle("text", STATION), partialMin);
  }

  lemma TwoParts(raw: seq<Byte>, at: nat, mid: nat, text: seq<Byte>, cut: nat)
    requires at <= mid <= |raw| && cut <= |text| && raw[at..mid] == text[..cut] && raw[mid..] == text[cut..]
    ensures Matches(raw, text, at)
  {
    assert raw[at..] == raw[at..mid] + raw[mid..];
    assert text == text[..cut] + text[cut..];
    assert raw[at..] == text;
  }

  /** Across the end of the IP packet: any text cut in two, its beginning the payload and its
      end the padding, when the beginning is shorter than the pieces looked for. */
  lemma StraddlePasses(text: seq<Byte>, cut: nat, partialMin: int)
    requires 0 < cut < |text| && cut <= 1480 && cut < partialMin
    ensures var raw := Packet(false, false, text[..cut], text[cut..]);
      && Matches(raw, text, 34)
      && Passes(DecodeCapture([raw]), [Needle("text", text)], Some(STATION), 1, None, partialMin)
  {
    var raw := Packet(false, false, text[..cut], text[cut..]);
    var f := PacketDecodes(0, false, false, text[..cut], text[cut..]);
    PacketBytes(false, false, text[..cut], text[cut..]);
    hide Packet, DecodeFrame, DecodeCapture, Leaks, Dribbles, Remainder, KeyOf, Passes, Matches, Headed;
    TwoParts(raw, 34, 34 + cut, text, cut);
    TooShort(text[..cut], text, partialMin);
    TooShort(text[cut..], text, partialMin);
    OneFramePasses(raw, f, Needle("text", text), partialMin);
  }

  /** Behind the packet of an 802.1Q frame: any text at all, as padding. */
  lemma TaggedPasses(text: seq<Byte>, data: seq<Byte>, partialMin: int)
    requires text != [] && |data| <= 1480 && |data| + |text| <= 2024
    requires !Leaks(data, text) && !Dribbles(data, text, partialMin)
    ensures var raw := Packet(true, false, data, text);
      && Matches(raw, text, 38 + |data|)
      && Passes(DecodeCapture([raw]), [Needle("text", text)], Some(STATION), 1, None, partialMin)
  {
    var raw := Packet(true, false, data, text);
    var f := PacketDecodes(0, true, false, data, text);
    PacketBytes(true, false, data, text);
    hide Packet, DecodeFrame, DecodeCapture, Leaks, Dribbles, Remainder, KeyOf, Passes;
    assert raw[38 + |data|..38 + |data| + |text|] == raw[38 + |data|..] == text;
    TooShort([], text, 1);
    OneFramePasses(raw, f, Needle("text", text), partialMin);
  }

  /** Two whole fragments at offset 0 of one datagram: the second is what is reassembled. */
  lemma SecondWins(p: Piece, q: Piece, buf: seq<Byte>)
    requires p.off == q.off == 0 && p.arrival < q.arrival && |p.data| == |q.data|
    requires HoldsWinners([p, q], buf)
    ensures buf == q.data
  {
    var ps := [p, q];
    assert forall r :: r in ps <==> r == p || r == q;
    assert q in ps && q.End() <= |buf|;
    assert |buf| == |q.data|;
    forall o | 0 <= o < |buf|
      ensures buf[o] == q.data[o]
    {
      assert q.Covers(o) && ByteOf(ps, o, buf[o]);
      var w :| Wins(ps, w, o) && buf[o] == w.data[o - w.off];
      assert w == q || Before(q, w);
    }
  }

  lemma TwoMembers(f: Frame, g: Frame)
    requires f.IsIp() && g.IsIp() && KeyOf(f) == KeyOf(g)
    ensures Keys([f, g]) == [KeyOf(f)] && Members([f, g], KeyOf(f)) == [f, g]
  {
    assert [f, g][..1] == [f] && [f][..0] == [];
    assert Keys([]) == [] && Members([], KeyOf(f)) == [];
    assert Keys([f]) == [KeyOf(f)] && Members([f], KeyOf(f)) == [f];
  }

  /** The datagram of two such fragments. */
  lemma Overlapped(f: Frame, g: Frame)
    requires f.IsIp() && g.IsIp() && KeyOf(f) == KeyOf(g)
    requires f.ip.value.fragOff == g.ip.value.fragOff == 0 && |f.ip.value.payload| == |g.ip.value.payload|
    ensures |Reassembled([f, g])| == 1
    ensures var d := Reassembled([f, g])[0]; d.data == g.ip.value.payload && f.ethSrc in d.srcs
  {
    TwoMembers(f, g);
    TwoPieces(f, g);
    hide Keys, Members, KeyOf, Reassembled, HoldsWinners, PiecesOf, IndicesOf, Tiles, SortByOffset;
    ReassembledDatagrams([f, g], 0);
    SecondWins(Piece(0, 0, f.ip.value.payload), Piece(0, 1, g.ip.value.payload), Reassembled([f, g])[0].data);
    assert f in [f, g];
  }

  lemma TwoPieces(f: Frame, g: Frame)
    requires f.IsIp() && g.IsIp() && f.ip.value.fragOff == g.ip.value.fragOff == 0
    ensures PiecesOf([f, g]) == [Piece(0, 0, f.ip.value.payload), Piece(0, 1, g.ip.value.payload)]
  {
  }

  /** In payload that a later fragment replaces: for any text, and any equally long cover
      that does not itself hold it. */
  lemma OverlapPasses(text: seq<Byte>, cover: seq<Byte>, partialMin: int)
    requires 0 < |text| == |cover| <= 1480
    requires !Leaks(cover, text) && !Dribbles(cover, text, partialMin)
    ensures var raws := [Packet(false, true, text, []), Packet(false, true, cover, [])];
      && Matches(raws[0], text, 34)
      && Passes(DecodeCapture(raws), [Needle("text", text)], Some(STATION), 1, None, partialMin)
  {
    var raws := [Packet(false, true, text, []), Packet(false, true, cover, [])];
    var f := PacketDecodes(0, false, true, text, []);
    var g := PacketDecodes(1, false, true, cover, []);
    PacketBytes(false, true, text, []);
    hide DecodeCapture, DecodeFrame, Packet, Leaks, Dribbles, Remainder, KeyOf, Frame.IsIp, Reassembled, Passes;
    TwoRecords(raws, f, g);
    Overlapped(f, g);
    OverlapIsClean(f, g, Needle("text", text), partialMin);
  }

  lemma TwoRecords(raws: seq<seq<Byte>>, f: Frame, g: Frame)
    requires |raws| == 2 && DecodeFrame(0, raws[0]) == Some(f) && DecodeFrame(1, raws[1]) == Some(g)
    ensures DecodeCapture(raws) == [f, g]
  {
    hide DecodeFrame;
    assert raws[..1][..0] == [] && raws[..1][0] == raws[0];
    assert DecodeCapture([]) == [];
    assert DecodeCapture(raws[..1]) == [f];
  }

  lemma OverlapIsClean(f: Frame, g: Frame, n: Needle, partialMin: int)
    requires |Reassembled([f, g])| == 1 && f.ethSrc in Reassembled([f, g])[0].srcs
    requires !Leaks(Reassembled([f, g])[0].data, n.text) && !Dribbles(Reassembled([f, g])[0].data, n.text, partialMin)
    requires Remainder(f) == Remainder(g) == [] && n.text != []
    ensures Passes([f, g], [n], Some(f.ethSrc), 1, None, partialMin)
  {
    hide Reassembled, Leaks, Dribbles, Remainder, Clean, Passes;
    OneIsClean(Reassembled([f, g]), [f, g], n, partialMin);
    CleanPasses([f, g], n, partialMin, f.ethSrc);
  }

  /** One such pair. */
  lemma OverlapExample(partialMin: int)
    requires partialMin >= 1
    ensures Passes(DecodeCapture([Packet(false, true, [7, 7], []), Packet(false, true, [9, 9], [])]),
                   [Needle("text", [7, 7])], Some(STATION), 1, None, partialMin)
  {
    hide Packet, DecodeCapture, Passes;
    assert !Leaks([9, 9], [7, 7]) by {
      forall at, i | 0 <= i < |SEARCHED|
        ensures !Matches([9, 9], Encoded(SEARCHED[i], [7, 7]), at)
      {
        NoSevens(Encoded(SEARCHED[i], [7, 7]), at);
      }
    }
    assert !Dribbles([9, 9], [7, 7], partialMin) by {
      forall start, len | partialMin <= len
        ensures !RunsAt([9, 9], [7, 7], start, len)
      {
        if 0 <= start && start + len <= 2 {
          NoSevensOccur([7, 7][start..start + len]);
        }
      }
    }
    OverlapPasses([7, 7], [9, 9], partialMin);
  }

  lemma NoSevens(pat: seq<Byte>, at: int)
    requires |pat| > 0 && pat[0] == 7
    ensures !Matches([9, 9], pat, at)
  {
    if 0 <= at && at + |pat| <= 2 {
      assert [9, 9][at..at + |pat|][0] == [9, 9][at];
    }
  }

  lemma NoSevensOccur(pat: seq<Byte>)
    requires |pat| > 0 && pat[0] == 7
    ensures !Occurs([9, 9], pat)
  {
    forall at
      ensures !Matches([9, 9], pat, at)
    {
      NoSevens(pat, at);
    }
  }
}
