/** Pairing ICMP echo replies with the requests they answer. */
module EchoPairs {
  import opened Bytes
  import opened Results
  import opened Packets

  /** (identifier, sequence) */
  type Key = (int, int)

  datatype Pair = Pair(key: Key, requestFrame: int, replyFrame: int, payloadMatches: bool)

  datatype Audit = Audit(pairs: seq<Pair>, unanswered: seq<Key>, unmatched: seq<Key>)

  function KeyOf(f: Frame): Key
    requires f.echo.Some?
  {
    (f.echo.value.id, f.echo.value.sequence)
  }

  /** An echo request, from the C64 if its address is known. */
  predicate IsRequest(f: Frame, c64: Option<seq<Byte>>) {
    f.echo.Some? && f.echo.value.kind == ICMP_ECHO_REQUEST && (c64.None? || f.ethSrc == c64.value)
  }

  predicate IsReply(f: Frame) {
    f.echo.Some? && f.echo.value.kind == ICMP_ECHO_REPLY
  }

  predicate IsHostReply(f: Frame, host: Option<seq<Byte>>) {
    IsReply(f) && (host.None? || f.ethSrc == host.value)
  }

  function ReplyCount(frames: seq<Frame>): nat {
    if |frames| == 0 then 0
    else ReplyCount(frames[..|frames| - 1]) + (if IsReply(frames[|frames| - 1]) then 1 else 0)
  }

  predicate Distinct(keys: seq<Key>) {
    forall i, j :: 0 <= i < j < |keys| ==> keys[i] != keys[j]
  }

  datatype Stations = Stations(c64: Option<seq<Byte>>, host: Option<seq<Byte>>)

  /** Frame p is the first accepted request with this key. */
  ghost predicate FirstRequest(frames: seq<Frame>, st: Stations, key: Key, p: int) {
    && 0 <= p < |frames| && IsRequest(frames[p], st.c64) && KeyOf(frames[p]) == key
    && forall k :: 0 <= k < p && IsRequest(frames[k], st.c64) ==> KeyOf(frames[k]) != key
  }

  ghost predicate Requested(frames: seq<Frame>, st: Stations, key: Key) {
    exists p :: FirstRequest(frames, st, key, p)
  }

  /** Frame q is the first reply from the host with this key after request p. */
  ghost predicate Answers(frames: seq<Frame>, st: Stations, key: Key, p: int, q: int) {
    && FirstRequest(frames, st, key, p) && p < q < |frames|
    && IsHostReply(frames[q], st.host) && KeyOf(frames[q]) == key
    && forall k :: p < k < q && IsHostReply(frames[k], st.host) ==> KeyOf(frames[k]) != key
  }

  /** The host answered this key after it was requested. */
  ghost predicate Answered(frames: seq<Frame>, st: Stations, key: Key) {
    exists p, q :: Answers(frames, st, key, p, q)
  }

  ghost predicate PairIs(frames: seq<Frame>, st: Stations, pr: Pair, p: int, q: int) {
    && Answers(frames, st, pr.key, p, q)
    && pr.requestFrame == frames[p].index && pr.replyFrame == frames[q].index
    && (pr.payloadMatches <==> frames[p].echo.value.data == frames[q].echo.value.data)
  }

  ghost predicate PairOk(frames: seq<Frame>, st: Stations, pr: Pair) {
    exists p, q :: PairIs(frames, st, pr, p, q)
  }

  // ---- facts that survive more frames -------------------------------------

  lemma MoreFrames(frames: seq<Frame>, f: Frame, st: Stations)
    ensures forall key, p :: FirstRequest(frames, st, key, p) ==> FirstRequest(frames + [f], st, key, p)
    ensures forall key, p, q :: Answers(frames, st, key, p, q) ==> Answers(frames + [f], st, key, p, q)
    ensures forall pr :: PairOk(frames, st, pr) ==> PairOk(frames + [f], st, pr)
  {
    var more := frames + [f];
    assert forall k :: 0 <= k < |frames| ==> more[k] == frames[k];
    forall pr | PairOk(frames, st, pr)
      ensures PairOk(more, st, pr)
    {
      var p, q :| PairIs(frames, st, pr, p, q);
      assert PairIs(more, st, pr, p, q);
    }
  }

  /** A key is requested once the new frame is its first request or it already was. */
  lemma RequestedStep(frames: seq<Frame>, f: Frame, st: Stations, key: Key)
    ensures Requested(frames + [f], st, key) <==>
      Requested(frames, st, key) || (IsRequest(f, st.c64) && KeyOf(f) == key)
  {
    var more := frames + [f];
    MoreFrames(frames, f, st);
    if p :| FirstRequest(more, st, key, p) {
      if p < |frames| {
        assert forall k :: 0 <= k < p ==> more[k] == frames[k];
        assert FirstRequest(frames, st, key, p);
      }
    }
    if Requested(frames, st, key) {
      var p :| FirstRequest(frames, st, key, p);
      assert FirstRequest(more, st, key, p);
    } else if IsRequest(f, st.c64) && KeyOf(f) == key {
      NoneEarlier(frames, st, key, |frames|);
      assert FirstRequest(more, st, key, |frames|);
    }
  }

  lemma {:induction false} NoneEarlier(frames: seq<Frame>, st: Stations, key: Key, n: nat)
    requires !Requested(frames, st, key) && n <= |frames|
    ensures forall k :: 0 <= k < n && IsRequest(frames[k], st.c64) ==> KeyOf(frames[k]) != key
  {
    if n > 0 {
      NoneEarlier(frames, st, key, n - 1);
      if IsRequest(frames[n - 1], st.c64) && KeyOf(frames[n - 1]) == key {
        assert FirstRequest(frames, st, key, n - 1);
      }
    }
  }

  lemma AnsweredStep(frames: seq<Frame>, f: Frame, st: Stations, key: Key)
    ensures Answered(frames + [f], st, key) <==>
      Answered(frames, st, key) || (Requested(frames, st, key) && IsHostReply(f, st.host) && KeyOf(f) == key)
  {
    var more := frames + [f];
    MoreFrames(frames, f, st);
    if Answered(more, st, key) {
      var p, q :| Answers(more, st, key, p, q);
      assert forall k :: 0 <= k < |frames| ==> more[k] == frames[k];
      assert FirstRequest(frames, st, key, p);
      if q < |frames| {
        assert Answers(frames, st, key, p, q);
      }
    }
    if Answered(frames, st, key) {
      var p, q :| Answers(frames, st, key, p, q);
      assert Answers(more, st, key, p, q);
    } else if Requested(frames, st, key) && IsHostReply(f, st.host) && KeyOf(f) == key {
      var p :| FirstRequest(frames, st, key, p);
      FirstAnswer(frames, f, st, key, p);
    }
  }

  /** The new frame is the first answer of a key that had none. */
  lemma FirstAnswer(frames: seq<Frame>, f: Frame, st: Stations, key: Key, p: int)
    requires FirstRequest(frames, st, key, p) && !Answered(frames, st, key)
    requires IsHostReply(f, st.host) && KeyOf(f) == key
    ensures Answers(frames + [f], st, key, p, |frames|)
  {
    MoreFrames(frames, f, st);
    NoAnswerYet(frames, st, key, p, |frames|);
    assert forall k :: 0 <= k < |frames| ==> (frames + [f])[k] == frames[k];
  }

  lemma {:induction false} NoAnswerYet(frames: seq<Frame>, st: Stations, key: Key, p: int, n: nat)
    requires FirstRequest(frames, st, key, p) && !Answered(frames, st, key) && n <= |frames|
    ensures forall k :: p < k < n && IsHostReply(frames[k], st.host) ==> KeyOf(frames[k]) != key
  {
    if n > 0 {
      NoAnswerYet(frames, st, key, p, n - 1);
      var k := n - 1;
      if p < k && IsHostReply(frames[k], st.host) && KeyOf(frames[k]) == key {
        assert Answers(frames, st, key, p, k);
      }
    }
  }

  // ---- the loop -----------------------------------------------------------

  function KeysOf(pairs: seq<Pair>): set<Key> {
    set k | 0 <= k < |pairs| :: pairs[k].key
  }

  /** The state of the pairing loop after some frames: `order` lists the requested keys
      as first seen, `requests` where, `pairs` the answered ones. */
  ghost predicate PairedUpTo(frames: seq<Frame>, st: Stations, requests: map<Key, nat>, order: seq<Key>,
                             pairs: seq<Pair>, unmatched: seq<Key>)
  {
    && (forall key :: key in requests <==> Requested(frames, st, key))
    && (forall key :: key in requests ==> FirstRequest(frames, st, key, requests[key]))
    && (forall key :: key in order <==> key in requests)
    && Distinct(order)
    && (forall i :: 0 <= i < |pairs| ==> PairOk(frames, st, pairs[i]))
    && (forall i, j :: 0 <= i < j < |pairs| ==> pairs[i].key != pairs[j].key)
    && (forall key :: key in KeysOf(pairs) <==> Answered(frames, st, key))
    && |pairs| + |unmatched| == ReplyCount(frames)
  }

  /** What a finished audit says. Each key is paired at most once, with its first
      request and the host's first reply after that; the keys paired are exactly the
      ones the host answered; and both balances hold. */
  ghost predicate Sound(frames: seq<Frame>, st: Stations, a: Audit) {
    && (forall i :: 0 <= i < |a.pairs| ==> PairOk(frames, st, a.pairs[i]))
    && (forall i, j :: 0 <= i < j < |a.pairs| ==> a.pairs[i].key != a.pairs[j].key)
    && (forall key :: key in KeysOf(a.pairs) <==> Answered(frames, st, key))
    && (forall key :: key in a.unanswered <==> Requested(frames, st, key) && !Answered(frames, st, key))
    && Distinct(a.unanswered)
    && |a.pairs| + |a.unmatched| == ReplyCount(frames)
  }

  method PairEchoes(frames: seq<Frame>, st: Stations) returns (a: Audit, requested: seq<Key>)
    ensures Sound(frames, st, a)
    ensures forall key :: key in requested <==> Requested(frames, st, key)
    ensures Distinct(requested)
    ensures |requested| == |a.pairs| + |a.unanswered|
  {
    var requests: map<Key, nat> := map[];
    var pairs: seq<Pair> := [];
    var unmatched: seq<Key> := [];
    requested := [];
    for i := 0 to |frames|
      invariant PairedUpTo(frames[..i], st, requests, requested, pairs, unmatched)
      invariant forall key :: key in requests ==> requests[key] < i
    {
      var f := frames[i];
      ghost var seen := frames[..i];
      assert frames[..i + 1] == seen + [f];
      StepOf(seen, f, st, requests, requested, pairs, unmatched);
      hide PairedUpTo;
      if f.echo.Some? {
        var key := KeyOf(f);
        if IsRequest(f, st.c64) {
          if key !in requests {
            requests := requests[key := i];
            requested := requested + [key];
          }
        } else if IsReply(f) {
          if key in requests && (forall k | 0 <= k < |pairs| :: pairs[k].key != key) && IsHostReply(f, st.host) {
            var r := frames[requests[key]];
            assert r == seen[requests[key]];
            pairs := pairs + [Pair(key, r.index, f.index, PayloadOf(f) == PayloadOf(r))];
          } else {
            unmatched := unmatched + [key];
          }
        }
      }
    }
    assert frames[..|frames|] == frames;
    var unanswered := Unanswered(requested, pairs);
    a := Audit(pairs, unanswered, unmatched);
    Balance(requested, pairs);
  }

  function PayloadOf(f: Frame): seq<Byte> {
    if f.echo.Some? then f.echo.value.data else []
  }

  /** `[k for k in requests if k not in replied]` */
  function Unanswered(order: seq<Key>, pairs: seq<Pair>): (r: seq<Key>)
    ensures forall key :: key in r <==> key in order && key !in KeysOf(pairs)
  {
    if |order| == 0 then []
    else
      var init, key := order[..|order| - 1], order[|order| - 1];
      if key in KeysOf(pairs) then Unanswered(init, pairs) else Unanswered(init, pairs) + [key]
  }

  lemma StepOf(seen: seq<Frame>, f: Frame, st: Stations, requests: map<Key, nat>, order: seq<Key>,
               pairs: seq<Pair>, unmatched: seq<Key>)
    requires PairedUpTo(seen, st, requests, order, pairs, unmatched)
    ensures forall key :: key in requests ==> requests[key] < |seen|
    ensures !IsRequest(f, st.c64) && !IsReply(f) ==>
      PairedUpTo(seen + [f], st, requests, order, pairs, unmatched)
    ensures IsRequest(f, st.c64) ==>
      var key := KeyOf(f);
      if key in requests then PairedUpTo(seen + [f], st, requests, order, pairs, unmatched)
      else PairedUpTo(seen + [f], st, requests[key := |seen|], order + [key], pairs, unmatched)
    ensures IsReply(f) ==>
      var key := KeyOf(f);
      if key in requests && (forall k :: 0 <= k < |pairs| ==> pairs[k].key != key) && IsHostReply(f, st.host) then
        var r := seen[requests[key]];
        PairedUpTo(seen + [f], st, requests, order,
                   pairs + [Pair(key, r.index, f.index, PayloadOf(f) == PayloadOf(r))], unmatched)
      else PairedUpTo(seen + [f], st, requests, order, pairs, unmatched + [key])
  {
    if IsRequest(f, st.c64) {
      RequestCase(seen, f, st, requests, order, pairs, unmatched);
    } else if IsReply(f) {
      ReplyCase(seen, f, st, requests, order, pairs, unmatched);
    } else {
      QuietCase(seen, f, st, requests, order, pairs, unmatched);
    }
  }

  lemma QuietCase(seen: seq<Frame>, f: Frame, st: Stations, requests: map<Key, nat>, order: seq<Key>,
                  pairs: seq<Pair>, unmatched: seq<Key>)
    requires PairedUpTo(seen, st, requests, order, pairs, unmatched) && !IsReply(f)
    requires !IsRequest(f, st.c64) || KeyOf(f) in requests
    ensures PairedUpTo(seen + [f], st, requests, order, pairs, unmatched)
  {
    var more := seen + [f];
    assert more[..|more| - 1] == seen;
    MoreFrames(seen, f, st);
    forall key: Key
      ensures key in requests <==> Requested(more, st, key)
      ensures key in KeysOf(pairs) <==> Answered(more, st, key)
    {
      RequestedStep(seen, f, st, key);
      AnsweredStep(seen, f, st, key);
    }
  }

  lemma RequestCase(seen: seq<Frame>, f: Frame, st: Stations, requests: map<Key, nat>, order: seq<Key>,
                    pairs: seq<Pair>, unmatched: seq<Key>)
    requires PairedUpTo(seen, st, requests, order, pairs, unmatched) && IsRequest(f, st.c64)
    ensures var key := KeyOf(f);
      if key in requests then PairedUpTo(seen + [f], st, requests, order, pairs, unmatched)
      else PairedUpTo(seen + [f], st, requests[key := |seen|], order + [key], pairs, unmatched)
  {
    var key := KeyOf(f);
    if key in requests {
      QuietCase(seen, f, st, requests, order, pairs, unmatched);
    } else {
      var more := seen + [f];
      assert more[..|more| - 1] == seen;
      MoreFrames(seen, f, st);
      NoneEarlier(seen, st, key, |seen|);
      assert FirstRequest(more, st, key, |seen|) by {
        assert forall k :: 0 <= k < |seen| ==> more[k] == seen[k];
      }
      forall k: Key
        ensures k in requests[key := |seen|] <==> Requested(more, st, k)
        ensures k in KeysOf(pairs) <==> Answered(more, st, k)
      {
        RequestedStep(seen, f, st, k);
        AnsweredStep(seen, f, st, k);
      }
    }
  }

  lemma ReplyCase(seen: seq<Frame>, f: Frame, st: Stations, requests: map<Key, nat>, order: seq<Key>,
                  pairs: seq<Pair>, unmatched: seq<Key>)
    requires PairedUpTo(seen, st, requests, order, pairs, unmatched) && IsReply(f)
    ensures var key := KeyOf(f);
      if key in requests && (forall k :: 0 <= k < |pairs| ==> pairs[k].key != key) && IsHostReply(f, st.host) then
        var r := seen[requests[key]];
        PairedUpTo(seen + [f], st, requests, order,
                   pairs + [Pair(key, r.index, f.index, PayloadOf(f) == PayloadOf(r))], unmatched)
      else PairedUpTo(seen + [f], st, requests, order, pairs, unmatched + [key])
  {
    var key := KeyOf(f);
    if key in requests && (forall k :: 0 <= k < |pairs| ==> pairs[k].key != key) && IsHostReply(f, st.host) {
      PairedReply(seen, f, st, requests, order, pairs, unmatched);
    } else {
      UnmatchedReply(seen, f, st, requests, order, pairs, unmatched);
    }
  }

  lemma PairedReply(seen: seq<Frame>, f: Frame, st: Stations, requests: map<Key, nat>, order: seq<Key>,
                    pairs: seq<Pair>, unmatched: seq<Key>)
    requires PairedUpTo(seen, st, requests, order, pairs, unmatched) && IsReply(f) && IsHostReply(f, st.host)
    requires KeyOf(f) in requests && forall k :: 0 <= k < |pairs| ==> pairs[k].key != KeyOf(f)
    ensures var key := KeyOf(f);
      var r := seen[requests[key]];
      PairedUpTo(seen + [f], st, requests, order,
                 pairs + [Pair(key, r.index, f.index, PayloadOf(f) == PayloadOf(r))], unmatched)
  {
    var more, key := seen + [f], KeyOf(f);
    assert more[..|more| - 1] == seen;
    MoreFrames(seen, f, st);
    forall k: Key
      ensures k in requests <==> Requested(more, st, k)
    {
      RequestedStep(seen, f, st, k);
    }
    var p := requests[key];
    var pr := Pair(key, seen[p].index, f.index, PayloadOf(f) == PayloadOf(seen[p]));
    assert key !in KeysOf(pairs);
    FirstAnswer(seen, f, st, key, p);
    assert PairIs(more, st, pr, p, |seen|);
    assert KeysOf(pairs + [pr]) == KeysOf(pairs) + {key} by { KeysOfStep(pairs, pr); }
    forall k: Key
      ensures k in KeysOf(pairs + [pr]) <==> Answered(more, st, k)
    {
      AnsweredStep(seen, f, st, k);
    }
  }

  lemma UnmatchedReply(seen: seq<Frame>, f: Frame, st: Stations, requests: map<Key, nat>, order: seq<Key>,
                       pairs: seq<Pair>, unmatched: seq<Key>)
    requires PairedUpTo(seen, st, requests, order, pairs, unmatched) && IsReply(f)
    requires !(KeyOf(f) in requests && (forall k :: 0 <= k < |pairs| ==> pairs[k].key != KeyOf(f)) && IsHostReply(f, st.host))
    ensures PairedUpTo(seen + [f], st, requests, order, pairs, unmatched + [KeyOf(f)])
  {
    var more := seen + [f];
    assert more[..|more| - 1] == seen;
    MoreFrames(seen, f, st);
    forall k: Key
      ensures k in requests <==> Requested(more, st, k)
    {
      RequestedStep(seen, f, st, k);
    }
    forall k: Key
      ensures k in KeysOf(pairs) <==> Answered(more, st, k)
    {
      AnsweredStep(seen, f, st, k);
    }
  }

  lemma KeysOfStep(pairs: seq<Pair>, pr: Pair)
    ensures KeysOf(pairs + [pr]) == KeysOf(pairs) + {pr.key}
  {
    var more := pairs + [pr];
    assert more[|pairs|] == pr;
    forall key | key in KeysOf(pairs)
      ensures key in KeysOf(more)
    {
      var k :| 0 <= k < |pairs| && pairs[k].key == key;
      assert more[k].key == key;
    }
  }

  // ---- the balance --------------------------------------------------------

  function SetOf(order: seq<Key>): set<Key> {
    set k | k in order
  }

  lemma {:induction false} DistinctCount(order: seq<Key>)
    requires Distinct(order)
    ensures |SetOf(order)| == |order|
  {
    if |order| > 0 {
      var init, last := order[..|order| - 1], order[|order| - 1];
      DistinctCount(init);
      assert order == init + [last];
      assert SetOf(order) == SetOf(init) + {last} && last !in init;
    }
  }

  lemma {:induction false} UnansweredDistinct(order: seq<Key>, pairs: seq<Pair>)
    requires Distinct(order)
    ensures Distinct(Unanswered(order, pairs))
  {
    if |order| > 0 {
      var init, last := order[..|order| - 1], order[|order| - 1];
      UnansweredDistinct(init, pairs);
      assert order == init + [last] && last !in init;
      var u, v := Unanswered(order, pairs), Unanswered(init, pairs);
      forall i, j | 0 <= i < j < |u|
        ensures u[i] != u[j]
      {
        assert v[i] == u[i] && v[i] in init;
        if j < |v| {
          assert v[j] == u[j] && v[i] != v[j];
        }
      }
    }
  }

  lemma Balance(order: seq<Key>, pairs: seq<Pair>)
    requires Distinct(order)
    requires forall i, j :: 0 <= i < j < |pairs| ==> pairs[i].key != pairs[j].key
    requires forall key :: key in KeysOf(pairs) ==> key in order
    ensures |order| == |pairs| + |Unanswered(order, pairs)|
    ensures Distinct(Unanswered(order, pairs))
  {
    var u := Unanswered(order, pairs);
    UnansweredDistinct(order, pairs);
    var keys := seq(|pairs|, i requires 0 <= i < |pairs| => pairs[i].key);
    assert SetOf(keys) == KeysOf(pairs) by {
      forall key | key in KeysOf(pairs)
        ensures key in keys
      {
        var k :| 0 <= k < |pairs| && pairs[k].key == key;
        assert keys[k] == key;
      }
    }
    forall i, j | 0 <= i < j < |keys|
      ensures keys[i] != keys[j]
    {
      assert pairs[i].key != pairs[j].key;
    }
    DistinctCount(keys);
    DistinctCount(order);
    DistinctCount(u);
    assert SetOf(u) == SetOf(order) - SetOf(keys);
    assert SetOf(keys) <= SetOf(order);
  }
}
