/** The absence check behind the wire-encryption claims, and its positive control. */
module WireAbsence {
  import opened Bytes
  import opened Results
  import opened ByteSearch

  const T4_HDR_LEN: nat := 16

  /** The ways a search is refused because it would have examined nothing. */
  datatype Refusal = EmptyHaystack | NoNeedles | NotAscii | EmptyNeedle | NeedleTooLong | ShortDatagram

  datatype Text = Str(s: string) | Raw(b: seq<Byte>)

  datatype Named = Named(name: string, text: Text)

  datatype Hit = Hit(name: string, form: Form, at: int, length: int)

  const WIRE_FORMS: seq<Form> := [Exact, Petscii, PetsciiShifted, ScreenCode, Reversed]

  /** The bytes a needle stands for: ASCII only for text, and never empty. */
  function RawBytes(text: Text): (r: Result<seq<Byte>, Refusal>)
    ensures r.Ok? ==> r.value != []
  {
    match text
    case Str(s) =>
      if exists i | 0 <= i < |s| :: s[i] as int >= 128 then Err(NotAscii)
      else if s == [] then Err(EmptyNeedle)
      else Ok(seq(|s|, i requires 0 <= i < |s| => s[i] as int))
    case Raw(b) => if b == [] then Err(EmptyNeedle) else Ok(b)
  }

  /** Why this needle cannot be looked for in a buffer of this length, if it cannot. */
  function NeedleRefusal(length: nat, n: Named): Option<Refusal> {
    match RawBytes(n.text)
    case Err(e) => Some(e)
    case Ok(raw) => if |raw| > length then Some(NeedleTooLong) else None
  }

  function FirstRefusal(length: nat, needles: seq<Named>): Option<Refusal> {
    if needles == [] then None
    else
      match NeedleRefusal(length, needles[0])
      case Some(e) => Some(e)
      case None => FirstRefusal(length, needles[1..])
  }

  function SearchRefusal(buf: seq<Byte>, needles: seq<Named>): Option<Refusal> {
    if buf == [] then Some(EmptyHaystack)
    else if needles == [] then Some(NoNeedles)
    else FirstRefusal(|buf|, needles)
  }

  lemma {:induction false} FirstRefusalAt(length: nat, needles: seq<Named>, k: nat)
    requires k <= |needles| && forall j :: 0 <= j < k ==> NeedleRefusal(length, needles[j]).None?
    ensures FirstRefusal(length, needles) == FirstRefusal(length, needles[k..])
  {
    if k > 0 {
      FirstRefusalAt(length, needles[1..], k - 1);
      assert needles[1..][k - 1..] == needles[k..];
    }
  }

  /** Form f of needle n starts at this offset of buf. */
  ghost predicate FormAt(buf: seq<Byte>, n: Named, f: Form, at: int) {
    RawBytes(n.text).Ok? && Matches(buf, Encoded(f, RawBytes(n.text).value), at)
  }

  /** Some of the five forms of some needle starts somewhere in buf. */
  ghost predicate Present(buf: seq<Byte>, needles: seq<Named>) {
    exists n, f, at :: n in needles && f in WIRE_FORMS && FormAt(buf, n, f, at)
  }

  ghost predicate HitOf(buf: seq<Byte>, needles: seq<Named>, h: Hit) {
    exists n :: n in needles && n.name == h.name && h.form in WIRE_FORMS && FormAt(buf, n, h.form, h.at)
                && h.length == |RawBytes(n.text).value|
  }

  /** The hit that reports form f of n at this offset. */
  function HitFor(n: Named, f: Form, at: int): Hit
    requires RawBytes(n.text).Ok?
  {
    Hit(n.name, f, at, |RawBytes(n.text).value|)
  }

  /** Every appearance of n, in each of the first `forms` forms, is among the hits. */
  ghost predicate Reported(buf: seq<Byte>, n: Named, forms: int, hits: seq<Hit>)
    requires forms <= |WIRE_FORMS|
  {
    forall i, at | 0 <= i < forms && FormAt(buf, n, WIRE_FORMS[i], at) :: HitFor(n, WIRE_FORMS[i], at) in hits
  }

  lemma StillReported(buf: seq<Byte>, n: Named, forms: int, hits: seq<Hit>, more: seq<Hit>)
    requires forms <= |WIRE_FORMS| && (Reported(buf, n, forms, hits) || Reported(buf, n, forms, more))
    ensures Reported(buf, n, forms, hits + more)
  {
  }

  /** Of what `search_forms` reports for a pattern, the exact entries are its matches. */
  lemma ExactEntries(hay: seq<Byte>, pat: seq<Byte>, found: seq<Appearance>)
    requires forall k :: 0 <= k < |found| ==> Justified(hay, pat, found[k], |SEARCHED|)
    requires forall at :: AppearsAt(hay, pat, at) <==> HasEntry(found, at)
    ensures forall k :: 0 <= k < |found| && found[k].form == Exact ==>
      Matches(hay, pat, found[k].at) && found[k].length == |pat|
    ensures forall at :: Matches(hay, pat, at) ==>
      exists k :: 0 <= k < |found| && found[k].form == Exact && found[k].at == at
  {
    assert Encoded(SEARCHED[0], pat) == pat;
    forall k | 0 <= k < |found| && found[k].form == Exact
      ensures Matches(hay, pat, found[k].at) && found[k].length == |pat|
    {
      assert Justified(hay, pat, found[k], |SEARCHED|);
    }
    forall at | Matches(hay, pat, at)
      ensures exists k :: 0 <= k < |found| && found[k].form == Exact && found[k].at == at
    {
      assert AppearsAt(hay, pat, at);
      assert HasEntry(found, at);
      var k :| 0 <= k < |found| && found[k].at == at;
      assert Justified(hay, pat, found[k], |SEARCHED|);
      var i :| 0 <= i < |SEARCHED| && FirstMatch(hay, pat, i, at) && found[k].form == SEARCHED[i];
      assert i == 0;
    }
  }

  /** The hits of one pattern: the exact entries of the shared searcher. */
  method ExactHits(hay: seq<Byte>, name: string, form: Form, pat: seq<Byte>) returns (hits: seq<Hit>)
    ensures forall k :: 0 <= k < |hits| ==>
      hits[k] == Hit(name, form, hits[k].at, |pat|) && Matches(hay, pat, hits[k].at)
    ensures hits == [] <==> forall at :: !Matches(hay, pat, at)
    ensures forall at :: Matches(hay, pat, at) ==> Hit(name, form, at, |pat|) in hits
  {
    hide Matches, Justified, AppearsAt, HasEntry;
    var found := SearchForms(hay, pat);
    ExactEntries(hay, pat, found);
    hits := [];
    for k := 0 to |found|
      invariant forall j :: 0 <= j < |hits| ==>
        hits[j] == Hit(name, form, hits[j].at, |pat|) && Matches(hay, pat, hits[j].at)
      invariant hits == [] <==> forall j :: 0 <= j < k ==> found[j].form != Exact
      invariant forall j :: 0 <= j < k && found[j].form == Exact ==> Hit(name, form, found[j].at, |pat|) in hits
    {
      if found[k].form == Exact {
        hits := hits + [Hit(name, form, found[k].at, found[k].length)];
      }
    }
  }

  ghost predicate NeedlePresent(buf: seq<Byte>, n: Named, forms: int)
    requires forms <= |WIRE_FORMS|
  {
    exists i, at :: 0 <= i < forms && FormAt(buf, n, WIRE_FORMS[i], at)
  }

  method NeedleHits(hay: seq<Byte>, n: Named) returns (hits: seq<Hit>)
    requires RawBytes(n.text).Ok?
    ensures forall k :: 0 <= k < |hits| ==> HitOf(hay, [n], hits[k])
    ensures hits == [] <==> !NeedlePresent(hay, n, |WIRE_FORMS|)
    ensures Reported(hay, n, |WIRE_FORMS|, hits)
  {
    hide HitOf, FormAt, HitFor, Matches, Encoded, Reported, NeedlePresent;
    var raw := RawBytes(n.text).value;
    hits := [];
    NothingSought(hay, n);
    for i := 0 to |WIRE_FORMS|
      invariant forall k :: 0 <= k < |hits| ==> HitOf(hay, [n], hits[k])
      invariant hits == [] <==> !NeedlePresent(hay, n, i)
      invariant Reported(hay, n, i, hits)
    {
      var pat := Encoded(WIRE_FORMS[i], raw);
      var more := ExactHits(hay, n.name, WIRE_FORMS[i], pat);
      FormHits(hay, n, i, more);
      OneFormMore(hay, n, i, hits, more);
      hits := hits + more;
    }
  }

  lemma NothingSought(hay: seq<Byte>, n: Named)
    ensures !NeedlePresent(hay, n, 0) && (RawBytes(n.text).Ok? ==> Reported(hay, n, 0, []))
  {
  }

  /** The hits for one form are real and all there. */
  lemma FormHits(hay: seq<Byte>, n: Named, i: nat, more: seq<Hit>)
    requires RawBytes(n.text).Ok? && i < |WIRE_FORMS|
    requires var pat := Encoded(WIRE_FORMS[i], RawBytes(n.text).value);
      && (forall k :: 0 <= k < |more| ==>
            more[k] == Hit(n.name, WIRE_FORMS[i], more[k].at, |pat|) && Matches(hay, pat, more[k].at))
      && (more == [] <==> forall at :: !Matches(hay, pat, at))
      && (forall at :: Matches(hay, pat, at) ==> Hit(n.name, WIRE_FORMS[i], at, |pat|) in more)
    ensures forall k :: 0 <= k < |more| ==> HitOf(hay, [n], more[k])
    ensures more == [] <==> forall at :: !FormAt(hay, n, WIRE_FORMS[i], at)
    ensures forall at :: FormAt(hay, n, WIRE_FORMS[i], at) ==> HitFor(n, WIRE_FORMS[i], at) in more
  {
    hide Matches;
    forall k | 0 <= k < |more|
      ensures HitOf(hay, [n], more[k])
    {
      assert FormAt(hay, n, WIRE_FORMS[i], more[k].at) && n in [n];
    }
  }

  /** And so, form by form, are all the needle's. */
  lemma OneFormMore(hay: seq<Byte>, n: Named, i: nat, hits: seq<Hit>, more: seq<Hit>)
    requires RawBytes(n.text).Ok? && i < |WIRE_FORMS|
    requires more == [] <==> forall at :: !FormAt(hay, n, WIRE_FORMS[i], at)
    requires forall at :: FormAt(hay, n, WIRE_FORMS[i], at) ==> HitFor(n, WIRE_FORMS[i], at) in more
    ensures NeedlePresent(hay, n, i + 1) <==> NeedlePresent(hay, n, i) || more != []
    ensures Reported(hay, n, i, hits) ==> Reported(hay, n, i + 1, hits + more)
  {
    hide FormAt, HitFor, WIRE_FORMS;
    if Reported(hay, n, i, hits) {
      forall j, at | 0 <= j < i + 1 && FormAt(hay, n, WIRE_FORMS[j], at)
        ensures HitFor(n, WIRE_FORMS[j], at) in hits + more
      {
        assert j == i || HitFor(n, WIRE_FORMS[j], at) in hits;
      }
    }
  }

  /** Every appearance of every named text in every form, or the first refusal. */
  method FindPlaintext(buf: seq<Byte>, needles: seq<Named>) returns (r: Result<seq<Hit>, Refusal>)
    ensures match SearchRefusal(buf, needles)
            case Some(e) => r == Err(e)
            case None => r.Ok? && (r.value == [] <==> !Present(buf, needles))
    ensures r.Ok? ==> forall k :: 0 <= k < |r.value| ==> HitOf(buf, needles, r.value[k])
    ensures r.Ok? ==> forall n | n in needles :: Reported(buf, n, |WIRE_FORMS|, r.value)
  {
    hide HitOf, Reported, FormAt, NeedlePresent, NeedleRefusal, RawBytes;
    if buf == [] {
      return Err(EmptyHaystack);
    }
    if needles == [] {
      return Err(NoNeedles);
    }
    var hits: seq<Hit> := [];
    for j := 0 to |needles|
      invariant forall i :: 0 <= i < j ==> NeedleRefusal(|buf|, needles[i]).None?
      invariant forall k :: 0 <= k < |hits| ==> HitOf(buf, needles, hits[k])
      invariant hits == [] <==> forall i :: 0 <= i < j ==> !NeedlePresent(buf, needles[i], |WIRE_FORMS|)
      invariant forall i | 0 <= i < j :: Reported(buf, needles[i], |WIRE_FORMS|, hits)
    {
      var n := needles[j];
      FirstRefusalAt(|buf|, needles, j);
      if NeedleRefusal(|buf|, n).Some? {
        return Err(NeedleRefusal(|buf|, n).value);
      }
      NotRefused(|buf|, n);
      var more := NeedleHits(buf, n);
      forall k | 0 <= k < |more|
        ensures HitOf(buf, needles, more[k])
      {
        HitOfOne(buf, needles, n, more[k]);
      }
      forall i | 0 <= i <= j ensures Reported(buf, needles[i], |WIRE_FORMS|, hits + more) {
        StillReported(buf, needles[i], |WIRE_FORMS|, hits, more);
      }
      hits := hits + more;
    }
    FirstRefusalAt(|buf|, needles, |needles|);
    assert needles[|needles|..] == [];
    PresentByIndex(buf, needles);
    return Ok(hits);
  }

  lemma NotRefused(length: nat, n: Named)
    requires NeedleRefusal(length, n).None?
    ensures RawBytes(n.text).Ok?
  {
  }

  lemma HitOfOne(buf: seq<Byte>, needles: seq<Named>, n: Named, h: Hit)
    requires n in needles && HitOf(buf, [n], h)
    ensures HitOf(buf, needles, h)
  {
  }

  lemma PresentByIndex(buf: seq<Byte>, needles: seq<Named>)
    ensures Present(buf, needles) <==>
      exists i :: 0 <= i < |needles| && NeedlePresent(buf, needles[i], |WIRE_FORMS|)
  {
    if Present(buf, needles) {
      var n, f, at :| n in needles && f in WIRE_FORMS && FormAt(buf, n, f, at);
      var i :| 0 <= i < |needles| && needles[i] == n;
      var k :| 0 <= k < |WIRE_FORMS| && WIRE_FORMS[k] == f;
      assert FormAt(buf, needles[i], WIRE_FORMS[k], at);
      assert NeedlePresent(buf, needles[i], |WIRE_FORMS|);
    }
  }

  /** The absence check: refused exactly when the search would be vacuous, and
      otherwise true exactly when none of the five forms of any needle is in buf. */
  method PlaintextAbsent(buf: seq<Byte>, needles: seq<Named>) returns (r: Result<bool, Refusal>)
    ensures match SearchRefusal(buf, needles)
            case Some(e) => r == Err(e)
            case None => r.Ok? && (r.value <==> !Present(buf, needles))
  {
    var hits := FindPlaintext(buf, needles);
    match hits {
      case Err(e) => return Err(e);
      case Ok(found) => return Ok(found == []);
    }
  }

  /** A search that is not refused leaves nothing unexamined: there is a needle, and
      every needle is ASCII, non-empty and no longer than the buffer. */
  lemma {:induction false} AcceptedSearchIsNotVacuous(buf: seq<Byte>, needles: seq<Named>)
    ensures SearchRefusal(buf, needles).None? <==>
      && buf != [] && needles != []
      && forall n :: n in needles ==> RawBytes(n.text).Ok? && |RawBytes(n.text).value| <= |buf|
  {
    if buf != [] && needles != [] {
      NoFirstRefusal(|buf|, needles);
    }
  }

  lemma {:induction false} NoFirstRefusal(length: nat, needles: seq<Named>)
    ensures FirstRefusal(length, needles).None? <==> forall n :: n in needles ==> NeedleRefusal(length, n).None?
  {
    if needles != [] {
      NoFirstRefusal(length, needles[1..]);
      assert needles == [needles[0]] + needles[1..];
    }
  }

  /** The datagram the sender would have emitted had it not encrypted. */
  function Counterfactual(datagram: seq<Byte>, body: seq<Byte>, hdrLen: nat): Result<seq<Byte>, Refusal> {
    if datagram == [] || body == [] then Err(EmptyHaystack)
    else if |datagram| < hdrLen then Err(ShortDatagram)
    else Ok(datagram[..hdrLen] + body)
  }

  /** (control, absence) from one searcher, over the counterfactual and the datagram. */
  method AbsenceAndControl(datagram: seq<Byte>, body: seq<Byte>, needles: seq<Named>, hdrLen: nat)
    returns (r: Result<(bool, bool), Refusal>)
    ensures match Counterfactual(datagram, body, hdrLen)
      case Err(e) => r == Err(e)
      case Ok(clear) =>
        match SearchRefusal(clear, needles)
        case Some(e) => r == Err(e)
        case None =>
          match SearchRefusal(datagram, needles)
          case Some(e) => r == Err(e)
          case None => r.Ok? && (r.value.0 <==> Present(clear, needles)) && (r.value.1 <==> !Present(datagram, needles))
  {
    match Counterfactual(datagram, body, hdrLen) {
      case Err(e) => return Err(e);
      case Ok(clear) =>
        var control := PlaintextAbsent(clear, needles);
        if control.Err? {
          return Err(control.error);
        }
        var absent := PlaintextAbsent(datagram, needles);
        if absent.Err? {
          return Err(absent.error);
        }
        return Ok((!control.value, absent.value));
    }
  }

  lemma MatchAfterHeader(hdr: seq<Byte>, body: seq<Byte>, pat: seq<Byte>, at: int)
    requires Matches(body, pat, at)
    ensures Matches(hdr + body, pat, |hdr| + at)
  {
    assert (hdr + body)[|hdr| + at..|hdr| + at + |pat|] == body[at..at + |pat|];
  }

  /** The control fires whenever the body it is given holds a needle in any form, and
      a datagram that went out in the clear can never turn both arms green. */
  lemma ControlSeesTheBody(datagram: seq<Byte>, body: seq<Byte>, needles: seq<Named>, hdrLen: nat)
    requires Counterfactual(datagram, body, hdrLen).Ok?
    ensures var clear := Counterfactual(datagram, body, hdrLen).value;
      && (Present(body, needles) ==> Present(clear, needles))
      && (datagram[hdrLen..] == body ==> clear == datagram)
  {
    hide Encoded, Matches, RawBytes;
    var hdr := datagram[..hdrLen];
    if Present(body, needles) {
      var n, f, at :| n in needles && f in WIRE_FORMS && FormAt(body, n, f, at);
      MatchAfterHeader(hdr, body, Encoded(f, RawBytes(n.text).value), at);
      assert FormAt(hdr + body, n, f, |hdr| + at);
    }
    if datagram[hdrLen..] == body {
      assert hdr + datagram[hdrLen..] == datagram;
    }
  }
}
