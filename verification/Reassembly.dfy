/** IP fragment reassembly over a whole capture. */
module Reassembly {
  import opened Bytes
  import opened Results
  import opened Packets

  // ---- laying pieces into one buffer -------------------------------------

  /** A fragment's payload and where it goes; `arrival` is its place in the group. */
  datatype Piece = Piece(off: nat, arrival: nat, data: seq<Byte>) {
    function End(): nat { off + |data| }
    predicate Covers(i: int) { off <= i < End() }
  }

  /** p before q in (offset, arrival) order. */
  predicate Before(p: Piece, q: Piece) {
    p.off < q.off || (p.off == q.off && p.arrival < q.arrival)
  }

  predicate Ordered(ps: seq<Piece>) {
    forall j, k :: 0 <= j < k < |ps| ==> Before(ps[j], ps[k])
  }

  predicate ArrivalOrder(ps: seq<Piece>) {
    forall j, k :: 0 <= j < k < |ps| ==> ps[j].arrival < ps[k].arrival
  }

  /** p put after every piece of the sorted list whose offset is not above its own. */
  function Insert(ps: seq<Piece>, p: Piece): (r: seq<Piece>)
    ensures |r| == |ps| + 1
  {
    if |ps| == 0 || ps[|ps| - 1].off <= p.off then ps + [p]
    else Insert(ps[..|ps| - 1], p) + [ps[|ps| - 1]]
  }

  /** `sorted(pieces, key=offset)`, a stable sort. */
  function SortByOffset(ps: seq<Piece>): (r: seq<Piece>)
    ensures |r| == |ps|
  {
    if |ps| == 0 then [] else Insert(SortByOffset(ps[..|ps| - 1]), ps[|ps| - 1])
  }

  lemma {:induction false} InsertKeepsOrder(ps: seq<Piece>, p: Piece)
    requires Ordered(ps) && forall q :: q in ps ==> q.arrival < p.arrival
    ensures Ordered(Insert(ps, p)) && multiset(Insert(ps, p)) == multiset(ps) + multiset{p}
  {
    if |ps| == 0 || ps[|ps| - 1].off <= p.off {
    } else {
      var init, last := ps[..|ps| - 1], ps[|ps| - 1];
      InsertKeepsOrder(init, p);
      var more := Insert(init, p);
      assert multiset(ps) == multiset(init) + multiset{last} by { assert ps == init + [last]; }
      forall q | q in more
        ensures Before(q, last)
      {
        assert q in multiset(more);
        if q != p {
          assert q in init;
        }
      }
      assert Insert(ps, p) == more + [last];
    }
  }

  lemma SortStep(ps: seq<Piece>)
    requires |ps| > 0
    ensures SortByOffset(ps) == Insert(SortByOffset(ps[..|ps| - 1]), ps[|ps| - 1])
  {
  }

  /** Sorting by offset alone sorts by (offset, arrival), losing and inventing nothing. */
  lemma {:induction false} SortIsStable(ps: seq<Piece>)
    requires ArrivalOrder(ps)
    ensures Ordered(SortByOffset(ps)) && multiset(SortByOffset(ps)) == multiset(ps)
  {
    if |ps| > 0 {
      var init, last := ps[..|ps| - 1], ps[|ps| - 1];
      SortIsStable(init);
      var sorted := SortByOffset(init);
      assert multiset(ps) == multiset(init) + multiset{last} by { assert ps == init + [last]; }
      forall q | q in sorted
        ensures q.arrival < last.arrival
      {
        assert q in multiset(sorted);
        assert q in init;
      }
      hide Ordered, SortByOffset;
      InsertKeepsOrder(sorted, last);
      assert SortByOffset(ps) == Insert(sorted, last) by { SortStep(ps); }
    }
  }

  function Zeros(n: nat): (r: seq<Byte>)
    ensures |r| == n && forall k :: 0 <= k < n ==> r[k] == 0
  {
    seq(n, _ => 0)
  }

  /** `buf[off:off + len(data)] = data`, after zero-filling up to off. */
  function Place(buf: seq<Byte>, off: nat, data: seq<Byte>): (r: seq<Byte>)
    ensures |r| == if off + |data| > |buf| then off + |data| else |buf|
    ensures forall i :: 0 <= i < |r| ==>
      r[i] == if off <= i < off + |data| then data[i - off] else if i < |buf| then buf[i] else 0
  {
    var b := if off > |buf| then buf + Zeros(off - |buf|) else buf;
    b[..off] + data + (if off + |data| < |b| then b[off + |data|..] else [])
  }

  /** The buffer after all of ps, and whether every piece went exactly at its end. */
  function Lay(ps: seq<Piece>): (r: (seq<Byte>, bool)) {
    if |ps| == 0 then ([], true)
    else
      var (buf, tight) := Lay(ps[..|ps| - 1]);
      var p := ps[|ps| - 1];
      (Place(buf, p.off, p.data), tight && p.off == |buf|)
  }

  method AssembleBuffer(sorted: seq<Piece>, lastSeen: bool) returns (buf: seq<Byte>, complete: bool)
    ensures (buf, complete) == (Lay(sorted).0, lastSeen && Lay(sorted).1)
  {
    buf, complete := [], lastSeen;
    for i := 0 to |sorted|
      invariant (buf, complete) == (Lay(sorted[..i]).0, lastSeen && Lay(sorted[..i]).1)
    {
      var p := sorted[i];
      assert sorted[..i + 1][..i] == sorted[..i];
      ghost var before := buf;
      if p.off != |buf| {
        complete := false;
        if p.off > |buf| {
          buf := buf + Zeros(p.off - |buf|);
        }
        buf := buf[..p.off] + p.data + (if p.End() < |buf| then buf[p.End()..] else []);
        assert buf == Place(before, p.off, p.data);
      } else {
        buf := buf + p.data;
        assert buf == Place(before, p.off, p.data);
      }
    }
    assert sorted[..|sorted|] == sorted;
  }

  // ---- what the buffer then holds -----------------------------------------

  /** w is the piece whose byte survives at i: it covers i and is last, in (offset,
      arrival) order, among those that do. */
  ghost predicate Wins(ps: seq<Piece>, w: Piece, i: int) {
    w in ps && w.Covers(i) && forall q :: q in ps && q.Covers(i) ==> q == w || Before(q, w)
  }

  ghost predicate ByteOf(ps: seq<Piece>, i: int, b: Byte) {
    if exists q :: q in ps && q.Covers(i) then exists w :: Wins(ps, w, i) && b == w.data[i - w.off]
    else b == 0
  }

  ghost predicate HoldsWinners(ps: seq<Piece>, buf: seq<Byte>) {
    && (forall q :: q in ps ==> q.End() <= |buf|)
    && (buf == [] || exists q :: q in ps && q.End() == |buf|)
    && forall i :: 0 <= i < |buf| ==> ByteOf(ps, i, buf[i])
  }

  lemma {:induction false} LaidInOrder(ps: seq<Piece>)
    requires Ordered(ps)
    ensures HoldsWinners(ps, Lay(ps).0)
  {
    if |ps| > 0 {
      var init, p := ps[..|ps| - 1], ps[|ps| - 1];
      assert forall q | q in init :: Before(q, p);
      LaidInOrder(init);
      hide HoldsWinners;
      OneMorePiece(init, p, Lay(init).0);
      assert ps == init + [p];
    }
  }

  /** Placing a piece that comes after the others. */
  lemma OneMorePiece(init: seq<Piece>, p: Piece, was: seq<Byte>)
    requires HoldsWinners(init, was) && forall q | q in init :: Before(q, p)
    ensures HoldsWinners(init + [p], Place(was, p.off, p.data))
  {
    var buf := Place(was, p.off, p.data);
    forall i | 0 <= i < |buf| ensures ByteOf(init + [p], i, buf[i]) {
      OneMoreByte(init, p, was, i);
    }
    hide ByteOf;
    assert p in init + [p] && p.End() <= |buf|;
    if |was| < |buf| {
      assert p.End() == |buf|;
    } else if buf != [] {
      var q :| q in init && q.End() == |was|;
      assert q in init + [p];
    }
  }

  lemma OneMoreByte(init: seq<Piece>, p: Piece, was: seq<Byte>, i: nat)
    requires HoldsWinners(init, was) && i < |Place(was, p.off, p.data)|
    requires forall q | q in init :: Before(q, p)
    ensures ByteOf(init + [p], i, Place(was, p.off, p.data)[i])
  {
    var buf := Place(was, p.off, p.data);
    hide Place;
    if p.Covers(i) {
      assert Wins(init + [p], p, i);
    } else if i < |was| {
      assert ByteOf(init, i, was[i]);
      if w :| Wins(init, w, i) && was[i] == w.data[i - w.off] {
        assert Wins(init + [p], w, i);
      }
    } else {
      assert forall q | q in init :: q.End() <= |was|;
    }
  }

  lemma SameMembers(ps: seq<Piece>, qs: seq<Piece>, buf: seq<Byte>)
    requires multiset(ps) == multiset(qs) && HoldsWinners(ps, buf)
    ensures HoldsWinners(qs, buf)
  {
    assert forall p :: p in ps <==> p in qs by {
      forall p
        ensures p in ps <==> p in qs
      {
        assert p in ps <==> p in multiset(ps);
        assert p in qs <==> p in multiset(qs);
      }
    }
    forall i | 0 <= i < |buf|
      ensures ByteOf(qs, i, buf[i])
    {
      assert ByteOf(ps, i, buf[i]);
      if w :| Wins(ps, w, i) && buf[i] == w.data[i - w.off] {
        assert Wins(qs, w, i);
      }
    }
  }

  /** Whatever the pieces - gaps, overlaps, equal offsets - the buffer ends where the
      furthest piece ends, each byte is the last covering piece's in (offset, arrival)
      order, and a byte nothing covers is zero. */
  lemma BufferHoldsWinners(ps: seq<Piece>)
    requires ArrivalOrder(ps)
    ensures HoldsWinners(ps, Lay(SortByOffset(ps)).0)
  {
    SortIsStable(ps);
    LaidInOrder(SortByOffset(ps));
    SameMembers(SortByOffset(ps), ps, Lay(SortByOffset(ps)).0);
  }

  function EndOfLast(ps: seq<Piece>): nat {
    if |ps| == 0 then 0 else ps[|ps| - 1].End()
  }

  /** Each piece starts where the one before it ends, the first at zero. */
  predicate Tiles(ps: seq<Piece>) {
    forall k :: 0 <= k < |ps| ==> ps[k].off == EndOfLast(ps[..k])
  }

  lemma TilesStep(ps: seq<Piece>)
    requires |ps| > 0
    ensures Tiles(ps) <==> Tiles(ps[..|ps| - 1]) && ps[|ps| - 1].off == EndOfLast(ps[..|ps| - 1])
  {
    var init := ps[..|ps| - 1];
    assert forall k :: 0 <= k < |init| ==> ps[k] == init[k] && ps[..k] == init[..k];
  }

  /** The buffer was never written out of step exactly when the pieces tile it. */
  lemma {:induction false} TightIsTiling(ps: seq<Piece>)
    ensures Lay(ps).1 <==> Tiles(ps)
    ensures Tiles(ps) ==> |Lay(ps).0| == EndOfLast(ps)
  {
    if |ps| > 0 {
      TightIsTiling(ps[..|ps| - 1]);
      TilesStep(ps);
    }
  }

  // ---- grouping frames into datagrams -------------------------------------

  datatype Key = Whole(index: int) | Fragments(src: seq<Byte>, dst: seq<Byte>, proto: int, id: int)

  function KeyOf(f: Frame): Key
    requires f.IsIp()
  {
    var ip := f.ip.value;
    if ip.moreFrags || ip.fragOff != 0 then Fragments(ip.src, ip.dst, ip.proto, ip.id)
    else Whole(f.index)
  }

  datatype Group = Group(
    pieces: seq<Piece>, srcs: seq<seq<Byte>>, indices: seq<int>, lastSeen: bool,
    ports: Option<(int, int)>, src: seq<Byte>, dst: seq<Byte>, proto: int)

  function NewGroup(f: Frame): Group
    requires f.IsIp()
  {
    Group([], [], [], false, None, f.ip.value.src, f.ip.value.dst, f.ip.value.proto)
  }

  /** One more frame in its group. */
  function Join(g: Group, f: Frame): Group
    requires f.IsIp()
  {
    var ip := f.ip.value;
    g.(pieces := g.pieces + [Piece(ip.fragOff, |g.pieces|, ip.payload)],
       indices := g.indices + [f.index],
       srcs := if f.ethSrc in g.srcs then g.srcs else g.srcs + [f.ethSrc],
       lastSeen := g.lastSeen || !ip.moreFrags,
       ports := if ip.fragOff == 0 then ip.ports else g.ports)
  }

  /** The frames of a capture that belong to key, in capture order. */
  function Members(frames: seq<Frame>, key: Key): (r: seq<Frame>)
    ensures forall f :: f in r ==> f in frames && f.IsIp() && KeyOf(f) == key
  {
    if |frames| == 0 then []
    else
      var init, f := frames[..|frames| - 1], frames[|frames| - 1];
      if f.IsIp() && KeyOf(f) == key then Members(init, key) + [f] else Members(init, key)
  }

  function GroupOf(fs: seq<Frame>): Group
    requires |fs| > 0 && forall f :: f in fs ==> f.IsIp()
  {
    var f := fs[|fs| - 1];
    Join(if |fs| == 1 then NewGroup(f) else GroupOf(fs[..|fs| - 1]), f)
  }

  /** The keys of a capture in order of first appearance. */
  function Keys(frames: seq<Frame>): seq<Key> {
    if |frames| == 0 then []
    else
      var init, f := frames[..|frames| - 1], frames[|frames| - 1];
      if f.IsIp() && KeyOf(f) !in Keys(init) then Keys(init) + [KeyOf(f)] else Keys(init)
  }

  datatype Datagram = Datagram(
    key: Key, data: seq<Byte>, indices: seq<int>, srcs: seq<seq<Byte>>,
    src: seq<Byte>, dst: seq<Byte>, proto: int, complete: bool, ports: Option<(int, int)>)
  {
    /** The UDP payload, cut to the UDP length where that says at least a header. */
    function UdpPayload(): seq<Byte> {
      if proto != IPPROTO_UDP || |data| < 8 then []
      else
        var ulen := Be16(data, 4);
        if ulen < 8 || ulen > |data| then data[8..] else data[8..ulen]
    }
  }

  function DatagramOf(key: Key, g: Group): Datagram {
    var (buf, tight) := Lay(SortByOffset(g.pieces));
    Datagram(key, buf, g.indices, g.srcs, g.src, g.dst, g.proto, g.lastSeen && tight, g.ports)
  }

  lemma {:induction false} KeysAreMembers(frames: seq<Frame>)
    ensures forall key :: key in Keys(frames) <==> Members(frames, key) != []
    ensures forall j, k :: 0 <= j < k < |Keys(frames)| ==> Keys(frames)[j] != Keys(frames)[k]
  {
    if |frames| > 0 {
      KeysAreMembers(frames[..|frames| - 1]);
    }
  }

  /** The reassembled capture, as a function of the frames. */
  function Reassembled(frames: seq<Frame>): (r: seq<Datagram>)
    ensures |r| == |Keys(frames)|
    ensures forall k :: 0 <= k < |r| ==>
      Members(frames, Keys(frames)[k]) != []
      && r[k] == DatagramOf(Keys(frames)[k], GroupOf(Members(frames, Keys(frames)[k])))
  {
    KeysAreMembers(frames);
    var keys := Keys(frames);
    seq(|keys|, k requires 0 <= k < |keys| =>
      assert keys[k] in keys;
      DatagramOf(keys[k], GroupOf(Members(frames, keys[k]))))
  }

  /** The grouping loop's state after some frames. */
  ghost predicate GroupedAs(groups: map<Key, Group>, order: seq<Key>, frames: seq<Frame>) {
    && order == Keys(frames)
    && groups.Keys == (set k | k in order)
    && forall k :: k in groups ==> Members(frames, k) != [] && groups[k] == GroupOf(Members(frames, k))
  }

  lemma MembersStep(frames: seq<Frame>, f: Frame, key: Key)
    ensures Members(frames + [f], key)
         == if f.IsIp() && KeyOf(f) == key then Members(frames, key) + [f] else Members(frames, key)
    ensures Keys(frames + [f])
         == if f.IsIp() && KeyOf(f) !in Keys(frames) then Keys(frames) + [KeyOf(f)] else Keys(frames)
  {
    assert (frames + [f])[..|frames|] == frames;
  }

  lemma GroupOfStep(fs: seq<Frame>, f: Frame)
    requires f.IsIp() && forall e :: e in fs ==> e.IsIp()
    ensures GroupOf(fs + [f]) == Join(if fs == [] then NewGroup(f) else GroupOf(fs), f)
  {
    assert (fs + [f])[..|fs|] == fs;
  }

  lemma GroupedStep(groups: map<Key, Group>, order: seq<Key>, frames: seq<Frame>, f: Frame)
    requires GroupedAs(groups, order, frames)
    ensures !f.IsIp() ==> GroupedAs(groups, order, frames + [f])
    ensures f.IsIp() ==>
      var key := KeyOf(f);
      var g := if key in groups then groups[key] else NewGroup(f);
      GroupedAs(groups[key := Join(g, f)], if key in groups then order else order + [key], frames + [f])
  {
    hide GroupedAs;
    if f.IsIp() {
      GroupedJoin(groups, order, frames, f);
    } else {
      GroupedPast(groups, order, frames, f);
    }
  }

  lemma GroupedPast(groups: map<Key, Group>, order: seq<Key>, frames: seq<Frame>, f: Frame)
    requires GroupedAs(groups, order, frames) && !f.IsIp()
    ensures GroupedAs(groups, order, frames + [f])
  {
    hide Members, Keys, GroupOf;
    MembersStep(frames, f, Whole(0));
    forall k: Key
      ensures Members(frames + [f], k) == Members(frames, k)
    {
      MembersStep(frames, f, k);
    }
  }

  lemma GroupedJoin(groups: map<Key, Group>, order: seq<Key>, frames: seq<Frame>, f: Frame)
    requires GroupedAs(groups, order, frames) && f.IsIp()
    ensures var key := KeyOf(f);
      var g := if key in groups then groups[key] else NewGroup(f);
      GroupedAs(groups[key := Join(g, f)], if key in groups then order else order + [key], frames + [f])
  {
    hide Members, Keys, Join, NewGroup, GroupOf, KeyOf;
    var key := KeyOf(f);
    KeysAreMembers(frames);
    MembersStep(frames, f, key);
    GroupOfStep(Members(frames, key), f);
    forall k: Key | k != key
      ensures Members(frames + [f], k) == Members(frames, k)
    {
      MembersStep(frames, f, k);
    }
  }

  method GroupFrames(frames: seq<Frame>) returns (groups: map<Key, Group>, order: seq<Key>)
    ensures GroupedAs(groups, order, frames)
  {
    groups, order := map[], [];
    for i := 0 to |frames|
      invariant GroupedAs(groups, order, frames[..i])
    {
      var f := frames[i];
      GroupedStep(groups, order, frames[..i], f);
      assert frames[..i + 1] == frames[..i] + [f];
      hide GroupedAs;
      if f.IsIp() {
        var key := KeyOf(f);
        var g;
        if key in groups {
          g := groups[key];
        } else {
          g := NewGroup(f);
          order := order + [key];
        }
        groups := groups[key := Join(g, f)];
      }
    }
    assert frames[..|frames|] == frames;
  }

  method Reassemble(frames: seq<Frame>) returns (out: seq<Datagram>)
    ensures out == Reassembled(frames)
  {
    var groups, order := GroupFrames(frames);
    ghost var all := Reassembled(frames);
    hide SortByOffset, Lay, Members, GroupOf, Keys, Reassembled;
    out := [];
    for k := 0 to |order|
      invariant out == all[..k]
    {
      assert order[k] in groups;
      var g := groups[order[k]];
      var buf, complete := AssembleBuffer(SortByOffset(g.pieces), g.lastSeen);
      out := out + [Datagram(order[k], buf, g.indices, g.srcs, g.src, g.dst, g.proto, complete, g.ports)];
    }
  }

  // ---- what every capture gives -------------------------------------------

  /** The pieces of a group in capture order. */
  function PiecesOf(fs: seq<Frame>): (r: seq<Piece>)
    requires forall f :: f in fs ==> f.IsIp()
    ensures |r| == |fs| && ArrivalOrder(r)
  {
    seq(|fs|, i requires 0 <= i < |fs| =>
      assert fs[i].IsIp();
      Piece(fs[i].ip.value.fragOff, i, fs[i].ip.value.payload))
  }

  function IndicesOf(fs: seq<Frame>): (r: seq<int>)
    ensures |r| == |fs|
  {
    seq(|fs|, i requires 0 <= i < |fs| => fs[i].index)
  }

  /** Folding the grouping step over a group's frames loses none of them. */
  lemma {:induction false} GroupHoldsItsFrames(fs: seq<Frame>)
    requires |fs| > 0 && forall f :: f in fs ==> f.IsIp()
    ensures var g := GroupOf(fs);
      && g.pieces == PiecesOf(fs) && g.indices == IndicesOf(fs)
      && (g.lastSeen <==> exists f :: f in fs && !f.ip.value.moreFrags)
      && (forall m :: m in g.srcs <==> exists f :: f in fs && f.ethSrc == m)
  {
    var init, f := fs[..|fs| - 1], fs[|fs| - 1];
    assert fs == init + [f];
    if |fs| > 1 {
      GroupHoldsItsFrames(init);
    }
  }

  /** Every datagram of every capture: its buffer holds the winning bytes of its own
      frames' pieces, and it is complete exactly when some piece had MF clear and the
      pieces, sorted, tile the buffer. */
  lemma ReassembledDatagrams(frames: seq<Frame>, k: nat)
    requires k < |Keys(frames)|
    ensures var d, ms := Reassembled(frames)[k], Members(frames, Keys(frames)[k]);
      && ms != [] && d.key == Keys(frames)[k] && d.indices == IndicesOf(ms)
      && HoldsWinners(PiecesOf(ms), d.data)
      && (d.complete <==> (exists f :: f in ms && !f.ip.value.moreFrags) && Tiles(SortByOffset(PiecesOf(ms))))
      && (forall m :: m in d.srcs <==> exists f :: f in ms && f.ethSrc == m)
  {
    var ms := Members(frames, Keys(frames)[k]);
    GroupHoldsItsFrames(ms);
    BufferHoldsWinners(PiecesOf(ms));
    TightIsTiling(SortByOffset(PiecesOf(ms)));
  }

  /** How many frames carry IPv4. */
  function IpCount(frames: seq<Frame>): nat {
    if |frames| == 0 then 0
    else IpCount(frames[..|frames| - 1]) + (if frames[|frames| - 1].IsIp() then 1 else 0)
  }

  function MemberTotal(frames: seq<Frame>, keys: seq<Key>): nat {
    if |keys| == 0 then 0
    else MemberTotal(frames, keys[..|keys| - 1]) + |Members(frames, keys[|keys| - 1])|
  }

  lemma {:induction false} MemberTotalStep(frames: seq<Frame>, f: Frame, keys: seq<Key>)
    requires forall j, k :: 0 <= j < k < |keys| ==> keys[j] != keys[k]
    ensures MemberTotal(frames + [f], keys)
         == MemberTotal(frames, keys) + (if f.IsIp() && KeyOf(f) in keys then 1 else 0)
  {
    if |keys| > 0 {
      var init, last := keys[..|keys| - 1], keys[|keys| - 1];
      MemberTotalStep(frames, f, init);
      MembersStep(frames, f, last);
      assert keys == init + [last];
    }
  }

  /** Each IPv4 frame lands in exactly one datagram: its key names one entry of the
      output, it is among that entry's frames, and over all entries the frames add up
      to the IPv4 frames of the capture. */
  lemma {:induction false} EveryFrameOnce(frames: seq<Frame>)
    ensures forall j, k :: 0 <= j < k < |Keys(frames)| ==> Keys(frames)[j] != Keys(frames)[k]
    ensures forall f :: f in frames && f.IsIp() ==>
      KeyOf(f) in Keys(frames) && f in Members(frames, KeyOf(f))
    ensures MemberTotal(frames, Keys(frames)) == IpCount(frames)
  {
    KeysAreMembers(frames);
    if |frames| > 0 {
      var init, f := frames[..|frames| - 1], frames[|frames| - 1];
      assert frames == init + [f];
      EveryFrameOnce(init);
      KeysAreMembers(init);
      MemberTotalStep(init, f, Keys(init));
      if f.IsIp() && KeyOf(f) !in Keys(init) {
        MembersStep(init, f, KeyOf(f));
        assert Keys(frames)[..|Keys(init)|] == Keys(init);
      }
    }
  }

  /** With distinct frame indices an unfragmented frame is never joined to another:
      its datagram is its own payload, complete. */
  lemma UnfragmentedStandsAlone(frames: seq<Frame>, i: nat, k: nat)
    requires forall a, b :: 0 <= a < b < |frames| ==> frames[a].index != frames[b].index
    requires i < |frames| && frames[i].IsIp() && KeyOf(frames[i]) == Whole(frames[i].index)
    requires k < |Keys(frames)| && Keys(frames)[k] == KeyOf(frames[i])
    ensures var d := Reassembled(frames)[k];
      d.data == frames[i].ip.value.payload && d.complete && d.indices == [frames[i].index]
  {
    LoneMember(frames, i);
    var f := frames[i];
    GroupHoldsItsFrames([f]);
    var ps := PiecesOf([f]);
    assert ps == [Piece(0, 0, f.ip.value.payload)];
    assert ps[..0] == [] && SortByOffset(ps) == ps by { assert SortByOffset(ps[..0]) == []; }
    assert Lay(ps) == (Place([], 0, f.ip.value.payload), true);
    assert Place([], 0, f.ip.value.payload) == f.ip.value.payload;
    assert IndicesOf([f]) == [f.index];
  }

  lemma {:induction false} LoneMember(frames: seq<Frame>, i: nat)
    requires forall a, b :: 0 <= a < b < |frames| ==> frames[a].index != frames[b].index
    requires i < |frames| && frames[i].IsIp() && KeyOf(frames[i]) == Whole(frames[i].index)
    ensures Members(frames, Whole(frames[i].index)) == [frames[i]]
  {
    var init := frames[..|frames| - 1];
    if i < |init| {
      LoneMember(init, i);
    } else {
      NoMember(init, frames[i].index);
    }
  }

  lemma {:induction false} NoMember(frames: seq<Frame>, index: int)
    requires forall f :: f in frames ==> f.index != index
    ensures Members(frames, Whole(index)) == []
  {
    if |frames| > 0 {
      NoMember(frames[..|frames| - 1], index);
    }
  }

  // ---- cutting and reassembling -------------------------------------------

  function Joined(parts: seq<seq<Byte>>): (r: seq<Byte>) {
    if |parts| == 0 then [] else Joined(parts[..|parts| - 1]) + parts[|parts| - 1]
  }

  /** fs are the fragments of a datagram cut into `parts`, captured in the order
      `which` says: fragment which[i] goes at the total length of the parts before it
      and all but the last one have MF set. */
  ghost predicate FragmentsOf(fs: seq<Frame>, parts: seq<seq<Byte>>, which: seq<nat>) {
    && |fs| == |parts| == |which| > 0
    && (forall i :: 0 <= i < |parts| ==> |parts[i]| > 0)
    && (forall i :: 0 <= i < |which| ==> which[i] < |parts|)
    && (forall i, j :: 0 <= i < j < |which| ==> which[i] != which[j])
    && (forall j :: 0 <= j < |parts| ==> j in which)
    && forall i :: 0 <= i < |fs| ==>
         && fs[i].IsIp()
         && fs[i].ip.value.fragOff == |Joined(parts[..which[i]])|
         && fs[i].ip.value.payload == parts[which[i]]
         && (fs[i].ip.value.moreFrags <==> which[i] < |parts| - 1)
  }

  lemma {:induction false} JoinedGrows(parts: seq<seq<Byte>>, j: nat, k: nat)
    requires forall i :: 0 <= i < |parts| ==> |parts[i]| > 0
    requires j < k <= |parts|
    ensures |Joined(parts[..j])| + |parts[j]| <= |Joined(parts[..k])|
    decreases k
  {
    assert parts[..k][..k - 1] == parts[..k - 1];
    if j < k - 1 {
      JoinedGrows(parts, j, k - 1);
    }
  }

  /** p is the piece of part j. */
  predicate IsPart(parts: seq<seq<Byte>>, p: Piece, j: nat) {
    j < |parts| && p.off == |Joined(parts[..j])| && p.data == parts[j]
  }

  /** Ranks that rise strictly through 0..n-1 are the identity. */
  lemma {:induction false} RisingRanks(r: seq<nat>, k: nat)
    requires forall i :: 0 <= i < |r| ==> r[i] < |r|
    requires forall i, j :: 0 <= i < j < |r| ==> r[i] < r[j]
    requires k < |r|
    ensures r[k] == k
  {
    AtLeastRank(r, k);
    AtMostRank(r, k);
  }

  lemma {:induction false} AtLeastRank(r: seq<nat>, k: nat)
    requires forall i, j :: 0 <= i < j < |r| ==> r[i] < r[j]
    requires k < |r|
    ensures k <= r[k]
    decreases k
  {
    if k > 0 {
      AtLeastRank(r, k - 1);
      assert r[k - 1] < r[k];
    }
  }

  lemma {:induction false} AtMostRank(r: seq<nat>, k: nat)
    requires forall i :: 0 <= i < |r| ==> r[i] < |r|
    requires forall i, j :: 0 <= i < j < |r| ==> r[i] < r[j]
    requires k < |r|
    ensures r[k] <= k
    decreases |r| - k
  {
    if k < |r| - 1 {
      AtMostRank(r, k + 1);
      assert r[k] < r[k + 1];
    }
  }

  lemma PieceIsPart(fs: seq<Frame>, parts: seq<seq<Byte>>, which: seq<nat>, p: Piece) returns (i: nat)
    requires FragmentsOf(fs, parts, which) && p in SortByOffset(PiecesOf(fs))
    ensures i < |fs| && p == PiecesOf(fs)[i] && IsPart(parts, p, which[i])
  {
    var ps := PiecesOf(fs);
    SortIsStable(ps);
    assert p in multiset(SortByOffset(ps));
    assert p in ps;
    i :| 0 <= i < |ps| && ps[i] == p;
  }

  /** Whatever order the fragments arrive in, sorting puts part k in place k. */
  lemma SortRestoresOrder(fs: seq<Frame>, parts: seq<seq<Byte>>, which: seq<nat>)
    requires FragmentsOf(fs, parts, which)
    ensures var sorted := SortByOffset(PiecesOf(fs));
      |sorted| == |parts| && forall k :: 0 <= k < |sorted| ==> IsPart(parts, sorted[k], k)
  {
    var sorted := SortByOffset(PiecesOf(fs));
    SortIsStable(PiecesOf(fs));
    var r: seq<nat> := [];
    while |r| < |sorted|
      invariant |r| <= |sorted|
      invariant forall k :: 0 <= k < |r| ==> IsPart(parts, sorted[k], r[k])
      invariant forall j, k :: 0 <= j < k < |r| ==> r[j] < r[k]
    {
      var k := |r|;
      var i := PieceIsPart(fs, parts, which, sorted[k]);
      var rk := which[i];
      forall j | 0 <= j < k
        ensures r[j] < rk
      {
        var i' := PieceIsPart(fs, parts, which, sorted[j]);
        assert Before(sorted[j], sorted[k]);
        if r[j] > rk {
          JoinedGrows(parts, rk, r[j]);
        } else if r[j] == rk {
          SamePartSamePiece(fs, parts, which, i', i);
        }
      }
      r := r + [rk];
    }
    forall k | 0 <= k < |sorted|
      ensures IsPart(parts, sorted[k], k)
    {
      RisingRanks(r, k);
    }
  }

  lemma SamePartSamePiece(fs: seq<Frame>, parts: seq<seq<Byte>>, which: seq<nat>, i: nat, j: nat)
    requires FragmentsOf(fs, parts, which) && i < |fs| && j < |fs|
    requires fs[i].ip.value.fragOff == fs[j].ip.value.fragOff
    ensures i == j
  {
    if which[i] < which[j] {
      JoinedGrows(parts, which[i], which[j]);
    } else if which[j] < which[i] {
      JoinedGrows(parts, which[j], which[i]);
    }
  }

  lemma {:induction false} LayingPartsJoins(parts: seq<seq<Byte>>, sorted: seq<Piece>, k: nat)
    requires k <= |sorted| == |parts| && forall i :: 0 <= i < |sorted| ==> IsPart(parts, sorted[i], i)
    ensures Lay(sorted[..k]) == (Joined(parts[..k]), true)
  {
    if k > 0 {
      LayingPartsJoins(parts, sorted, k - 1);
      assert sorted[..k][..k - 1] == sorted[..k - 1] && parts[..k][..k - 1] == parts[..k - 1];
      var buf := Joined(parts[..k - 1]);
      assert IsPart(parts, sorted[k - 1], k - 1);
      assert Place(buf, |buf|, parts[k - 1]) == buf + parts[k - 1];
    }
  }

  /** A datagram cut into non-empty fragments, captured in any order and under a key
      of its own, is reassembled to what it was and reported complete. */
  lemma CutAndReassembled(frames: seq<Frame>, k: nat, parts: seq<seq<Byte>>, which: seq<nat>)
    requires k < |Keys(frames)|
    requires FragmentsOf(Members(frames, Keys(frames)[k]), parts, which)
    ensures Reassembled(frames)[k].data == Joined(parts) && Reassembled(frames)[k].complete
  {
    var fs := Members(frames, Keys(frames)[k]);
    FragmentsAssemble(fs, parts, which);
    GroupHoldsItsFrames(fs);
    LastFragmentSeen(fs, parts, which);
  }

  lemma LastFragmentSeen(fs: seq<Frame>, parts: seq<seq<Byte>>, which: seq<nat>)
    requires FragmentsOf(fs, parts, which)
    ensures exists f :: f in fs && f.IsIp() && !f.ip.value.moreFrags
  {
    assert |parts| - 1 in which;
    var i :| 0 <= i < |which| && which[i] == |parts| - 1;
    assert fs[i] in fs && fs[i].IsIp() && !fs[i].ip.value.moreFrags;
  }

  lemma FragmentsAssemble(fs: seq<Frame>, parts: seq<seq<Byte>>, which: seq<nat>)
    requires FragmentsOf(fs, parts, which)
    ensures Lay(SortByOffset(PiecesOf(fs))) == (Joined(parts), true)
  {
    var sorted := SortByOffset(PiecesOf(fs));
    SortRestoresOrder(fs, parts, which);
    LayingPartsJoins(parts, sorted, |sorted|);
    assert sorted[..|sorted|] == sorted && parts[..|parts|] == parts;
  }
}
