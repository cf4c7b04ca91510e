/** What reassembly keeps of the payloads it is given, byte for byte: everything that no
    conflicting overlap overwrites, and everything of a complete datagram. */
module FragmentLoss {
  import opened Bytes
  import opened Results
  import opened Packets
  import opened Reassembly
  import opened ByteSearch

  // ---- one buffer ---------------------------------------------------------

  /** The byte that p puts at o is not the one that ends up there. */
  ghost predicate Beaten(ps: seq<Piece>, p: Piece, o: int) {
    p.Covers(o) && exists w :: Wins(ps, w, o) && w.data[o - w.off] != p.data[o - p.off]
  }

  /** Of the bytes of p from offset `from` up to offset `to`, one is beaten. */
  ghost predicate LosesByte(ps: seq<Piece>, p: Piece, from: int, to: int) {
    exists o :: from <= o < to && Beaten(ps, p, o)
  }

  /** A piece with p's offset and data is among ps. */
  ghost predicate Laid(ps: seq<Piece>, p: Piece) {
    exists q :: q in ps && q.off == p.off && q.data == p.data
  }

  lemma OneWinner(ps: seq<Piece>, v: Piece, w: Piece, o: int)
    requires Wins(ps, v, o) && Wins(ps, w, o)
    ensures v == w
  {
  }

  /** One byte: what is in the buffer is p's byte unless p is beaten there. */
  lemma ByteStaysIff(ps: seq<Piece>, buf: seq<Byte>, p: Piece, o: int)
    requires HoldsWinners(ps, buf) && Laid(ps, p) && p.Covers(o)
    ensures o < |buf| && (buf[o] == p.data[o - p.off] <==> !Beaten(ps, p, o))
  {
    var q :| q in ps && q.off == p.off && q.data == p.data;
    assert q.End() <= |buf| && q.Covers(o) && ByteOf(ps, o, buf[o]);
    var w :| Wins(ps, w, o) && buf[o] == w.data[o - w.off];
    forall v | Wins(ps, v, o)
      ensures v == w
    {
      OneWinner(ps, v, w, o);
    }
  }

  lemma PieceFits(ps: seq<Piece>, buf: seq<Byte>, p: Piece)
    requires HoldsWinners(ps, buf) && Laid(ps, p)
    ensures p.End() <= |buf|
  {
    var q :| q in ps && q.off == p.off && q.data == p.data;
    assert q.End() <= |buf|;
  }

  lemma UnbeatenStays(ps: seq<Piece>, buf: seq<Byte>, p: Piece, pat: seq<Byte>, at: int)
    requires HoldsWinners(ps, buf) && Laid(ps, p) && Matches(p.data, pat, at)
    requires !LosesByte(ps, p, p.off + at, p.off + at + |pat|)
    ensures Matches(buf, pat, p.off + at)
  {
    var from := p.off + at;
    hide LosesByte, HoldsWinners, Laid;
    PieceFits(ps, buf, p);
    forall j | 0 <= j < |pat|
      ensures buf[from..from + |pat|][j] == pat[j]
    {
      UnbeatenByte(ps, buf, p, pat, at, j);
    }
  }

  lemma UnbeatenByte(ps: seq<Piece>, buf: seq<Byte>, p: Piece, pat: seq<Byte>, at: int, j: nat)
    requires HoldsWinners(ps, buf) && Laid(ps, p) && Matches(p.data, pat, at) && j < |pat|
    requires !LosesByte(ps, p, p.off + at, p.off + at + |pat|)
    ensures p.off + at + j < |buf| && buf[p.off + at + j] == pat[j]
  {
    hide Beaten, HoldsWinners, Laid, Matches;
    MatchAt(p.data, pat, at, j);
    assert !Beaten(ps, p, p.off + at + j);
    ByteStaysIff(ps, buf, p, p.off + at + j);
  }

  lemma BeatenDiffers(ps: seq<Piece>, buf: seq<Byte>, p: Piece, pat: seq<Byte>, at: int)
    requires HoldsWinners(ps, buf) && Laid(ps, p) && Matches(p.data, pat, at)
    requires LosesByte(ps, p, p.off + at, p.off + at + |pat|)
    ensures !Matches(buf, pat, p.off + at)
  {
    hide Beaten, HoldsWinners, Laid, Matches, Before;
    var from := p.off + at;
    var o :| from <= o < from + |pat| && Beaten(ps, p, o);
    BeatenCovers(ps, p, o);
    ByteStaysIff(ps, buf, p, o);
    MatchAt(p.data, pat, at, o - from);
    if Matches(buf, pat, from) {
      MatchAt(buf, pat, from, o - from);
    }
  }

  lemma BeatenCovers(ps: seq<Piece>, p: Piece, o: int)
    requires Beaten(ps, p, o)
    ensures p.Covers(o)
  {
  }

  lemma MatchAt(hay: seq<Byte>, pat: seq<Byte>, at: int, j: int)
    requires Matches(hay, pat, at) && 0 <= j < |pat|
    ensures 0 <= at && at + j < |hay| && hay[at + j] == pat[j]
  {
    assert hay[at..at + |pat|][j] == pat[j];
  }

  /** A stretch of a piece's bytes is in the buffer, at its place, exactly when none of
      them is beaten. */
  lemma StretchStaysIff(ps: seq<Piece>, buf: seq<Byte>, p: Piece, pat: seq<Byte>, at: int)
    requires HoldsWinners(ps, buf) && Laid(ps, p) && Matches(p.data, pat, at)
    ensures Matches(buf, pat, p.off + at) <==> !LosesByte(ps, p, p.off + at, p.off + at + |pat|)
  {
    hide HoldsWinners, Laid, LosesByte, Matches;
    if LosesByte(ps, p, p.off + at, p.off + at + |pat|) {
      BeatenDiffers(ps, buf, p, pat, at);
    } else {
      UnbeatenStays(ps, buf, p, pat, at);
    }
  }

  // ---- one capture --------------------------------------------------------

  /** f's payload where reassembly puts it. */
  function PieceFor(f: Frame): Piece
    requires f.IsIp()
  {
    Piece(f.ip.value.fragOff, 0, f.ip.value.payload)
  }

  /** The pieces of f's datagram. */
  function Siblings(frames: seq<Frame>, f: Frame): seq<Piece>
    requires f.IsIp()
  {
    PiecesOf(Members(frames, KeyOf(f)))
  }

  /** Of `length` payload bytes of f from `at`, one is not in f's datagram: another piece's
      byte is. */
  ghost predicate Lost(frames: seq<Frame>, f: Frame, at: int, length: int)
    requires f.IsIp()
  {
    var from := f.ip.value.fragOff + at;
    LosesByte(Siblings(frames, f), PieceFor(f), from, from + length)
  }

  /** The datagram that f's payload went into. */
  ghost function Home(frames: seq<Frame>, f: Frame): (d: Datagram)
    requires f in frames && f.IsIp()
  {
    HomeExists(frames, f);
    var d :| d in Reassembled(frames) && d.key == KeyOf(f);
    d
  }

  lemma HomeIs(frames: seq<Frame>, f: Frame) returns (k: nat)
    requires f in frames && f.IsIp()
    ensures k < |Reassembled(frames)| && Reassembled(frames)[k] == Home(frames, f)
    ensures k < |Keys(frames)| && Keys(frames)[k] == KeyOf(f)
  {
    HomeExists(frames, f);
    var d := Home(frames, f);
    hide Keys, Members, KeyOf, Reassembled, Home;
    k :| 0 <= k < |Reassembled(frames)| && Reassembled(frames)[k] == d;
    ReassembledDatagrams(frames, k);
  }

  lemma HomeExists(frames: seq<Frame>, f: Frame)
    requires f in frames && f.IsIp()
    ensures exists d :: d in Reassembled(frames) && d.key == KeyOf(f)
  {
    EveryFrameOnce(frames);
    hide Keys, Members, KeyOf, Reassembled;
    var k :| 0 <= k < |Keys(frames)| && Keys(frames)[k] == KeyOf(f);
    ReassembledDatagrams(frames, k);
    assert Reassembled(frames)[k] in Reassembled(frames);
  }

  lemma HomeHolds(frames: seq<Frame>, f: Frame)
    requires f in frames && f.IsIp()
    ensures HoldsWinners(Siblings(frames, f), Home(frames, f).data)
    ensures Home(frames, f).complete ==> Tiles(SortByOffset(Siblings(frames, f)))
  {
    hide Keys, Members, KeyOf, Reassembled, Home, HoldsWinners, Tiles;
    var k := HomeIs(frames, f);
    ReassembledDatagrams(frames, k);
  }

  lemma {:induction false} PieceOfMember(fs: seq<Frame>, f: Frame)
    requires (forall m :: m in fs ==> m.IsIp()) && f in fs
    ensures Laid(PiecesOf(fs), PieceFor(f))
  {
    var a :| 0 <= a < |fs| && fs[a] == f;
    assert PiecesOf(fs)[a] in PiecesOf(fs);
  }

  lemma FrameIsLaid(frames: seq<Frame>, f: Frame)
    requires f in frames && f.IsIp()
    ensures Laid(Siblings(frames, f), PieceFor(f))
  {
    EveryFrameOnce(frames);
    PieceOfMember(Members(frames, KeyOf(f)), f);
  }

  /** A stretch of a frame's payload is in its datagram, at its place, exactly when none of
      its bytes is lost. */
  lemma StretchIsSeenIff(frames: seq<Frame>, f: Frame, pat: seq<Byte>, at: int)
    requires f in frames && f.IsIp() && Matches(f.ip.value.payload, pat, at)
    ensures Matches(Home(frames, f).data, pat, f.ip.value.fragOff + at) <==> !Lost(frames, f, at, |pat|)
  {
    hide Siblings, HoldsWinners, Laid, LosesByte, Home, Matches, Tiles;
    HomeHolds(frames, f);
    FrameIsLaid(frames, f);
    StretchStaysIff(Siblings(frames, f), Home(frames, f).data, PieceFor(f), pat, at);
  }

  // ---- when nothing is lost -----------------------------------------------

  /** Two frames of one datagram put different bytes at o. */
  predicate Conflict(f: Frame, g: Frame, o: int) {
    && f.IsIp() && g.IsIp() && KeyOf(f) == KeyOf(g)
    && PieceFor(f).Covers(o) && PieceFor(g).Covers(o)
    && PieceFor(f).data[o - PieceFor(f).off] != PieceFor(g).data[o - PieceFor(g).off]
  }

  /** No two overlapping fragments of one datagram disagree. */
  ghost predicate NoConflict(frames: seq<Frame>) {
    forall f, g, o :: f in frames && g in frames ==> !Conflict(f, g, o)
  }

  /** Every stretch of every payload is in its datagram, at its place. */
  ghost predicate AllSeen(frames: seq<Frame>) {
    forall f, pat, at :: f in frames && f.IsIp() && Matches(f.ip.value.payload, pat, at) ==>
      Matches(Home(frames, f).data, pat, f.ip.value.fragOff + at)
  }

  lemma {:induction false} PieceIsFrames(fs: seq<Frame>, w: Piece) returns (g: Frame)
    requires (forall m :: m in fs ==> m.IsIp()) && w in PiecesOf(fs)
    ensures g in fs && w.off == PieceFor(g).off && w.data == PieceFor(g).data
  {
    var b :| 0 <= b < |fs| && PiecesOf(fs)[b] == w;
    g := fs[b];
  }

  /** A byte that is lost is lost to another frame's. */
  lemma LostToConflict(frames: seq<Frame>, f: Frame, o: int) returns (g: Frame)
    requires f in frames && f.IsIp() && Beaten(Siblings(frames, f), PieceFor(f), o)
    ensures g in frames && Conflict(f, g, o)
  {
    var w :| Wins(Siblings(frames, f), w, o) && w.data[o - w.off] != PieceFor(f).data[o - PieceFor(f).off];
    g := PieceIsFrames(Members(frames, KeyOf(f)), w);
  }

  /** Where two frames disagree, one of the two bytes is not in the datagram. */
  lemma ConflictLoses(frames: seq<Frame>, f: Frame, g: Frame, o: int)
    requires f in frames && g in frames && Conflict(f, g, o)
    ensures !AllSeen(frames)
  {
    hide Home, KeyOf, Matches, AllSeen;
    if AllSeen(frames) {
      SameHome(frames, f, g);
      SeenByte(frames, f, o);
      SeenByte(frames, g, o);
    }
  }

  lemma SeenStretch(frames: seq<Frame>, f: Frame, pat: seq<Byte>, at: int)
    requires AllSeen(frames) && f in frames && f.IsIp() && Matches(f.ip.value.payload, pat, at)
    ensures Matches(Home(frames, f).data, pat, f.ip.value.fragOff + at)
  {
    hide Home, Matches;
  }

  lemma SeenByte(frames: seq<Frame>, f: Frame, o: int)
    requires AllSeen(frames) && f in frames && f.IsIp() && PieceFor(f).Covers(o)
    ensures o < |Home(frames, f).data| && Home(frames, f).data[o] == f.ip.value.payload[o - f.ip.value.fragOff]
  {
    hide AllSeen, Home;
    var i := o - f.ip.value.fragOff;
    var x := [f.ip.value.payload[i]];
    assert Matches(f.ip.value.payload, x, i);
    SeenStretch(frames, f, x, i);
    hide Matches;
    MatchAt(Home(frames, f).data, x, f.ip.value.fragOff + i, 0);
  }

  lemma SameHome(frames: seq<Frame>, f: Frame, g: Frame)
    requires f in frames && g in frames && f.IsIp() && g.IsIp() && KeyOf(f) == KeyOf(g)
    ensures Home(frames, f) == Home(frames, g)
  {
    EveryFrameOnce(frames);
    hide Keys, Members, KeyOf, Reassembled, Home;
    var k := HomeIs(frames, f);
    var l := HomeIs(frames, g);
  }

  /** Everything on the wire is in the datagrams exactly when no two overlapping fragments
      of one datagram disagree: a condition on the frames alone. */
  lemma AllSeenIff(frames: seq<Frame>)
    ensures AllSeen(frames) <==> NoConflict(frames)
  {
    hide Conflict, Matches, Home, Lost;
    if NoConflict(frames) {
      forall f, pat, at | f in frames && f.IsIp() && Matches(f.ip.value.payload, pat, at)
        ensures Matches(Home(frames, f).data, pat, f.ip.value.fragOff + at)
      {
        StretchIsSeenIff(frames, f, pat, at);
        NoConflictNoLoss(frames, f, at, |pat|);
      }
    } else {
      var f, g, o :| f in frames && g in frames && Conflict(f, g, o);
      ConflictLoses(frames, f, g, o);
    }
  }

  lemma NoConflictNoLoss(frames: seq<Frame>, f: Frame, at: int, length: int)
    requires NoConflict(frames) && f in frames && f.IsIp()
    ensures !Lost(frames, f, at, length)
  {
    hide Conflict, Beaten;
    if Lost(frames, f, at, length) {
      var o :| Beaten(Siblings(frames, f), PieceFor(f), o);
      var g := LostToConflict(frames, f, o);
    }
  }

  /** Pieces that tile do not overlap. */
  lemma {:induction false} TilesApart(ps: seq<Piece>, j: nat, k: nat)
    requires Tiles(ps) && j < k <= |ps|
    ensures ps[j].End() <= EndOfLast(ps[..k]) && (k < |ps| ==> ps[j].End() <= ps[k].off)
    decreases k
  {
    assert ps[..k][k - 1] == ps[k - 1];
    if j < k - 1 {
      TilesApart(ps, j, k - 1);
    }
    assert k < |ps| ==> ps[k].off == EndOfLast(ps[..k]);
  }

  lemma TilesOverlapNot(ps: seq<Piece>, p: Piece, q: Piece, o: int)
    requires Tiles(ps) && p in ps && q in ps && p.Covers(o) && q.Covers(o)
    ensures p == q
  {
    var j :| 0 <= j < |ps| && ps[j] == p;
    var k :| 0 <= k < |ps| && ps[k] == q;
    hide Tiles;
    if j < k {
      TilesApart(ps, j, k);
    } else if k < j {
      TilesApart(ps, k, j);
    }
  }

  /** Pieces that tile the buffer in sorted order keep every byte. */
  lemma TilingLosesNothing(ps: seq<Piece>, p: Piece, o: int)
    requires ArrivalOrder(ps) && Tiles(SortByOffset(ps)) && Laid(ps, p)
    ensures !Beaten(ps, p, o)
  {
    hide SortByOffset, Tiles, ArrivalOrder, Before;
    if Beaten(ps, p, o) {
      var w :| Wins(ps, w, o) && w.data[o - w.off] != p.data[o - p.off];
      hide Beaten, Wins;
      var q :| q in ps && q.off == p.off && q.data == p.data;
      TilingWinner(ps, q, w, o);
    }
  }

  lemma TilingWinner(ps: seq<Piece>, q: Piece, w: Piece, o: int)
    requires ArrivalOrder(ps) && Tiles(SortByOffset(ps)) && q in ps && q.Covers(o) && Wins(ps, w, o)
    ensures w == q
  {
    hide SortByOffset, Tiles, ArrivalOrder, Before;
    SortedMember(ps, q);
    SortedMember(ps, w);
    TilesOverlapNot(SortByOffset(ps), w, q, o);
  }

  lemma SortedMember(ps: seq<Piece>, q: Piece)
    requires ArrivalOrder(ps) && q in ps
    ensures q in SortByOffset(ps)
  {
    SortIsStable(ps);
    hide SortByOffset, ArrivalOrder, Ordered;
    assert q in multiset(ps);
    assert q in multiset(SortByOffset(ps));
  }

  /** A datagram reported complete lost nothing of any of its frames. */
  lemma CompleteLosesNothing(frames: seq<Frame>, f: Frame, at: int, length: int)
    requires f in frames && f.IsIp() && Home(frames, f).complete
    ensures !Lost(frames, f, at, length)
  {
    hide Home, SortByOffset, Tiles, Laid, Beaten;
    HomeHolds(frames, f);
    FrameIsLaid(frames, f);
    forall o
      ensures !Beaten(Siblings(frames, f), PieceFor(f), o)
    {
      TilingLosesNothing(Siblings(frames, f), PieceFor(f), o);
    }
  }
}
