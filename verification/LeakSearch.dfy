/** Every appearance of a named plaintext in a capture, and the verdict on it. */
module LeakSearch {
  import opened Bytes
  import opened Results
  import opened Packets
  import opened Reassembly
  import opened ByteSearch

  /** The named plaintexts, in the order the caller's dictionary lists them. */
  datatype Needle = Needle(name: string, text: seq<Byte>)

  datatype Finding =
    | InDatagram(form: Form, datagram: int, at: int, length: int, name: string)
    | Partial(datagram: int, at: int, length: int, name: string)
    | InFrame(form: Form, pad: bool, frame: int, at: int, length: int, name: string)

  // ---- what is a leak -----------------------------------------------------

  /** Some form of the text starts at some offset of hay. */
  ghost predicate Leaks(hay: seq<Byte>, text: seq<Byte>) {
    exists at :: AppearsAt(hay, text, at)
  }

  /** A proper piece of the text, of at least `least` bytes, lies in hay. */
  ghost predicate Dribbles(hay: seq<Byte>, text: seq<Byte>, least: int) {
    exists start, len :: least <= len && RunsAt(hay, text, start, len)
  }

  ghost predicate DatagramClean(d: Datagram, n: Needle, partialMin: int) {
    n.text != [] ==> !Leaks(d.data, n.text) && !Dribbles(d.data, n.text, partialMin)
  }

  ghost predicate FrameClean(f: Frame, n: Needle) {
    n.text != [] && Remainder(f) != [] ==> !Leaks(Remainder(f), n.text)
  }

  ghost predicate DatagramCleanOfAll(d: Datagram, needles: seq<Needle>, partialMin: int) {
    forall n :: n in needles ==> DatagramClean(d, n, partialMin)
  }

  ghost predicate FrameCleanOfAll(f: Frame, needles: seq<Needle>) {
    forall n :: n in needles ==> FrameClean(f, n)
  }

  /** No needle is in what the search looks at, the datagrams as reassembled and the frame
      remainders: whole in any form, or, in a datagram, in part. `WireLeaks` says what that
      means for the bytes on the wire. */
  ghost predicate Clean(dgs: seq<Datagram>, frames: seq<Frame>, needles: seq<Needle>, partialMin: int) {
    && (forall d :: d in dgs ==> DatagramCleanOfAll(d, needles, partialMin))
    && (forall f :: f in frames ==> FrameCleanOfAll(f, needles))
  }

  // ---- the search ---------------------------------------------------------

  /** What a finding claims is so. */
  ghost predicate Grounded(x: Finding, dgs: seq<Datagram>, frames: seq<Frame>, needles: seq<Needle>, partialMin: int) {
    match x
    case InDatagram(form, di, at, length, name) =>
      && 0 <= di < |dgs|
      && exists n :: n in needles && n.name == name && n.text != [] && length == |n.text|
           && Matches(dgs[di].data, Encoded(form, n.text), at)
    case Partial(di, at, length, name) =>
      && 0 <= di < |dgs|
      && exists n, start :: n in needles && n.name == name && partialMin <= length < |n.text|
           && !Leaks(dgs[di].data, n.text)
           && IsLongestRun(dgs[di].data, n.text, length, start) && FirstRun(dgs[di].data, n.text, start, length, at)
    case InFrame(form, pad, index, at, length, name) =>
      exists f, n :: f in frames && f.index == index && pad == f.IsIp() && n in needles && n.name == name
        && n.text != [] && length == |n.text|
        && Matches(Remainder(f), Encoded(form, n.text), at - RemainderBase(f))
  }

  /** `at` is the first offset of hay with the `length` bytes of text from `start`; an empty
      run is at the front of any hay. */
  ghost predicate FirstRun(hay: seq<Byte>, text: seq<Byte>, start: int, length: int, at: int) {
    if length == 0 then at == 0
    else
      && 0 <= start && 0 < length && start + length <= |text|
      && FirstAt(hay, text[start..start + length], at)
  }

  ghost predicate FirstAt(hay: seq<Byte>, pat: seq<Byte>, at: int) {
    Matches(hay, pat, at) && forall earlier :: 0 <= earlier < at ==> !Matches(hay, pat, earlier)
  }

  ghost predicate AllGrounded(xs: seq<Finding>, dgs: seq<Datagram>, frames: seq<Frame>, needles: seq<Needle>, partialMin: int) {
    forall k :: 0 <= k < |xs| ==> Grounded(xs[k], dgs, frames, needles, partialMin)
  }

  ghost predicate ReportedInDatagram(xs: seq<Finding>, di: int, at: int, name: string) {
    exists k :: 0 <= k < |xs| && xs[k].InDatagram? && xs[k].datagram == di && xs[k].at == at && xs[k].name == name
  }

  ghost predicate PartReported(xs: seq<Finding>, di: int, name: string) {
    exists k :: 0 <= k < |xs| && xs[k].Partial? && xs[k].datagram == di && xs[k].name == name
  }

  /** Every full appearance in datagram di is among the findings, and where there is none
      but a long enough part, so is that. */
  ghost predicate DatagramReported(xs: seq<Finding>, d: Datagram, di: int, n: Needle, partialMin: int) {
    && (forall at :: n.text != [] && AppearsAt(d.data, n.text, at) ==> ReportedInDatagram(xs, di, at, n.name))
    && (n.text != [] && !Leaks(d.data, n.text) && Dribbles(d.data, n.text, partialMin) ==> PartReported(xs, di, n.name))
  }

  ghost predicate ReportedInFrame(xs: seq<Finding>, index: int, at: int, name: string) {
    exists k :: 0 <= k < |xs| && xs[k].InFrame? && xs[k].frame == index && xs[k].at == at && xs[k].name == name
  }

  ghost predicate FrameReported(xs: seq<Finding>, f: Frame, n: Needle) {
    forall at :: n.text != [] && Remainder(f) != [] && AppearsAt(Remainder(f), n.text, at) ==>
      ReportedInFrame(xs, f.index, RemainderBase(f) + at, n.name)
  }

  ghost predicate DatagramReportedForAll(xs: seq<Finding>, d: Datagram, di: int, needles: seq<Needle>, partialMin: int) {
    forall n :: n in needles ==> DatagramReported(xs, d, di, n, partialMin)
  }

  ghost predicate FrameReportedForAll(xs: seq<Finding>, f: Frame, needles: seq<Needle>) {
    forall n :: n in needles ==> FrameReported(xs, f, n)
  }

  lemma MoreFindings(xs: seq<Finding>, ys: seq<Finding>)
    ensures forall di, at, name | ReportedInDatagram(xs, di, at, name) || ReportedInDatagram(ys, di, at, name) ::
      ReportedInDatagram(xs + ys, di, at, name)
    ensures forall di, name | PartReported(xs, di, name) || PartReported(ys, di, name) :: PartReported(xs + ys, di, name)
    ensures forall index, at, name | ReportedInFrame(xs, index, at, name) || ReportedInFrame(ys, index, at, name) ::
      ReportedInFrame(xs + ys, index, at, name)
  {
    var zs := xs + ys;
    assert forall k :: 0 <= k < |xs| ==> zs[k] == xs[k];
    assert forall k :: 0 <= k < |ys| ==> zs[|xs| + k] == ys[k];
  }

  lemma StillReportedIn(xs: seq<Finding>, ys: seq<Finding>, d: Datagram, di: int, needles: seq<Needle>, partialMin: int)
    requires DatagramReportedForAll(xs, d, di, needles, partialMin) || DatagramReportedForAll(ys, d, di, needles, partialMin)
    ensures DatagramReportedForAll(xs + ys, d, di, needles, partialMin)
  {
    hide ReportedInDatagram, ReportedInFrame, PartReported, AppearsAt, Leaks, Dribbles;
    MoreFindings(xs, ys);
    forall n | n in needles
      ensures DatagramReported(xs + ys, d, di, n, partialMin)
    {
      assert DatagramReported(xs, d, di, n, partialMin) || DatagramReported(ys, d, di, n, partialMin);
    }
  }

  lemma StillReportedInFrame(xs: seq<Finding>, ys: seq<Finding>, f: Frame, needles: seq<Needle>)
    requires FrameReportedForAll(xs, f, needles) || FrameReportedForAll(ys, f, needles)
    ensures FrameReportedForAll(xs + ys, f, needles)
  {
    hide ReportedInDatagram, ReportedInFrame, PartReported, AppearsAt, Remainder, RemainderBase;
    MoreFindings(xs, ys);
    forall n | n in needles
      ensures FrameReported(xs + ys, f, n)
    {
      assert FrameReported(xs, f, n) || FrameReported(ys, f, n);
    }
  }

  /** Adding findings keeps what was reported. */
  lemma StillReported(xs: seq<Finding>, ys: seq<Finding>, needles: seq<Needle>, partialMin: int)
    ensures forall d, di | DatagramReportedForAll(xs, d, di, needles, partialMin)
                           || DatagramReportedForAll(ys, d, di, needles, partialMin) ::
      DatagramReportedForAll(xs + ys, d, di, needles, partialMin)
    ensures forall f | FrameReportedForAll(xs, f, needles) || FrameReportedForAll(ys, f, needles) ::
      FrameReportedForAll(xs + ys, f, needles)
  {
    hide DatagramReportedForAll, FrameReportedForAll;
    forall d, di | DatagramReportedForAll(xs, d, di, needles, partialMin)
                   || DatagramReportedForAll(ys, d, di, needles, partialMin)
      ensures DatagramReportedForAll(xs + ys, d, di, needles, partialMin)
    {
      StillReportedIn(xs, ys, d, di, needles, partialMin);
    }
    forall f | FrameReportedForAll(xs, f, needles) || FrameReportedForAll(ys, f, needles)
      ensures FrameReportedForAll(xs + ys, f, needles)
    {
      StillReportedInFrame(xs, ys, f, needles);
    }
  }

  lemma OccurringTextLeaks(hay: seq<Byte>, text: seq<Byte>)
    requires Occurs(hay, text)
    ensures Leaks(hay, text)
  {
    assert Encoded(SEARCHED[0], text) == text;
    var at :| 0 <= at <= |hay| && Matches(hay, text, at);
    assert AppearsAt(hay, text, at);
  }

  /** A run as long as the text would be a full appearance. */
  lemma NoFullRun(hay: seq<Byte>, text: seq<Byte>, run: int, start: int)
    requires IsLongestRun(hay, text, run, start) && text != [] && !Leaks(hay, text)
    ensures run < |text|
  {
    if Occurs(hay, text) {
      OccurringTextLeaks(hay, text);
    }
    assert text[0..|text|] == text;
  }

  /** The longest run decides whether any run reaches `least`. */
  lemma LongestDecides(hay: seq<Byte>, text: seq<Byte>, run: int, start: int, least: int)
    requires IsLongestRun(hay, text, run, start)
    ensures Dribbles(hay, text, least) <==> least <= run
  {
    if least <= run {
      if run == 0 {
        assert text[0..0] == [] && Matches(hay, [], 0);
        assert RunsAt(hay, text, 0, 0);
      } else {
        assert RunsAt(hay, text, start, run);
      }
    }
  }

  /** The findings for one needle in one datagram. */
  method SearchDatagram(dgs: seq<Datagram>, di: nat, n: Needle, partialMin: int,
                        ghost frames: seq<Frame>, ghost needles: seq<Needle>)
    returns (found: seq<Finding>)
    requires di < |dgs| && n in needles
    ensures found == [] <==> DatagramClean(dgs[di], n, partialMin)
    ensures DatagramReported(found, dgs[di], di, n, partialMin)
    ensures AllGrounded(found, dgs, frames, needles, partialMin)
  {
    found := [];
    if n.text == [] {
      return;
    }
    var hay := dgs[di].data;
    var hits := SearchForms(hay, n.text);
    for k := 0 to |hits|
      invariant |found| == k
      invariant forall j :: 0 <= j < k ==>
        found[j] == InDatagram(hits[j].form, di, hits[j].at, hits[j].length, n.name)
    {
      found := found + [InDatagram(hits[k].form, di, hits[k].at, hits[k].length, n.name)];
    }
    if hits != [] {
      assert HasEntry(hits, hits[0].at);
      HitsAreFindings(hits, found, dgs, di, n, frames, needles, partialMin);
      return;
    }
    assert !Leaks(hay, n.text);
    var run, start := LongestRun(hay, n.text);
    NoFullRun(hay, n.text, run, start);
    LongestDecides(hay, n.text, run, start, partialMin);
    if partialMin <= run < |n.text| {
      var at := 0;
      if run > 0 {
        assert RunsAt(hay, n.text, start, run);
        at := Find(hay, n.text[start..start + run], 0);
      }
      assert FirstRun(hay, n.text, start, run, at);
      found := [Partial(di, at, run, n.name)];
      assert found[0].Partial?;
    }
  }

  lemma HitsAreFindings(hits: seq<Appearance>, found: seq<Finding>, dgs: seq<Datagram>, di: nat, n: Needle,
                        frames: seq<Frame>, needles: seq<Needle>, partialMin: int)
    requires di < |dgs| && n in needles && n.text != [] && |found| == |hits| && Leaks(dgs[di].data, n.text)
    requires forall k :: 0 <= k < |hits| ==> Justified(dgs[di].data, n.text, hits[k], |SEARCHED|)
    requires forall at :: AppearsAt(dgs[di].data, n.text, at) <==> HasEntry(hits, at)
    requires forall j :: 0 <= j < |found| ==>
      found[j] == InDatagram(hits[j].form, di, hits[j].at, hits[j].length, n.name)
    ensures DatagramReported(found, dgs[di], di, n, partialMin)
    ensures AllGrounded(found, dgs, frames, needles, partialMin)
  {
    forall k | 0 <= k < |found|
      ensures Grounded(found[k], dgs, frames, needles, partialMin)
    {
      assert Justified(dgs[di].data, n.text, hits[k], |SEARCHED|);
    }
    forall at | AppearsAt(dgs[di].data, n.text, at)
      ensures ReportedInDatagram(found, di, at, n.name)
    {
      var k :| 0 <= k < |hits| && hits[k].at == at;
      assert found[k].at == at;
    }
  }

  /** The findings for one needle in what a frame holds beyond its datagram. */
  method SearchFrame(f: Frame, n: Needle, ghost dgs: seq<Datagram>, ghost frames: seq<Frame>,
                     ghost needles: seq<Needle>, ghost partialMin: int)
    returns (found: seq<Finding>)
    requires f in frames && n in needles
    ensures found == [] <==> FrameClean(f, n)
    ensures FrameReported(found, f, n)
    ensures AllGrounded(found, dgs, frames, needles, partialMin)
  {
    found := [];
    var hay := Remainder(f);
    if n.text == [] || hay == [] {
      return;
    }
    var hits := SearchForms(hay, n.text);
    for k := 0 to |hits|
      invariant |found| == k
      invariant forall j :: 0 <= j < k ==>
        found[j] == InFrame(hits[j].form, f.IsIp(), f.index, RemainderBase(f) + hits[j].at, hits[j].length, n.name)
    {
      found := found + [InFrame(hits[k].form, f.IsIp(), f.index, RemainderBase(f) + hits[k].at, hits[k].length, n.name)];
    }
    HitsAreFrameFindings(hits, found, f, n, dgs, frames, needles, partialMin);
    if hits != [] {
      assert HasEntry(hits, hits[0].at);
    }
  }

  lemma HitsAreFrameFindings(hits: seq<Appearance>, found: seq<Finding>, f: Frame, n: Needle, dgs: seq<Datagram>,
                             frames: seq<Frame>, needles: seq<Needle>, partialMin: int)
    requires f in frames && n in needles && n.text != [] && |found| == |hits|
    requires forall k :: 0 <= k < |hits| ==> Justified(Remainder(f), n.text, hits[k], |SEARCHED|)
    requires forall at :: AppearsAt(Remainder(f), n.text, at) <==> HasEntry(hits, at)
    requires forall j :: 0 <= j < |found| ==>
      found[j] == InFrame(hits[j].form, f.IsIp(), f.index, RemainderBase(f) + hits[j].at, hits[j].length, n.name)
    ensures FrameReported(found, f, n)
    ensures AllGrounded(found, dgs, frames, needles, partialMin)
  {
    hide Remainder, RemainderBase;
    forall k | 0 <= k < |found|
      ensures Grounded(found[k], dgs, frames, needles, partialMin)
    {
      assert Justified(Remainder(f), n.text, hits[k], |SEARCHED|);
    }
    forall at | AppearsAt(Remainder(f), n.text, at)
      ensures ReportedInFrame(found, f.index, RemainderBase(f) + at, n.name)
    {
      assert HasEntry(hits, at);
      var k :| 0 <= k < |hits| && hits[k].at == at;
      assert found[k].at == RemainderBase(f) + at;
    }
  }

  /** Every appearance of a named plaintext in the datagrams, then in the frames. */
  method FindPlaintext(dgs: seq<Datagram>, frames: seq<Frame>, needles: seq<Needle>, partialMin: int)
    returns (findings: seq<Finding>)
    ensures findings == [] <==> Clean(dgs, frames, needles, partialMin)
    ensures AllGrounded(findings, dgs, frames, needles, partialMin)
    ensures forall di :: 0 <= di < |dgs| ==> DatagramReportedForAll(findings, dgs[di], di, needles, partialMin)
    ensures forall f :: f in frames ==> FrameReportedForAll(findings, f, needles)
  {
    hide DatagramCleanOfAll, FrameCleanOfAll, DatagramReportedForAll, FrameReportedForAll, Grounded;
    findings := [];
    for di := 0 to |dgs|
      invariant AllGrounded(findings, dgs, frames, needles, partialMin)
      invariant findings == [] <==> forall a :: 0 <= a < di ==> DatagramCleanOfAll(dgs[a], needles, partialMin)
      invariant forall a :: 0 <= a < di ==> DatagramReportedForAll(findings, dgs[a], a, needles, partialMin)
    {
      var more := AllNeedlesInDatagram(dgs, di, frames, needles, partialMin);
      StillReported(findings, more, needles, partialMin);
      findings := findings + more;
    }
    for i := 0 to |frames|
      invariant AllGrounded(findings, dgs, frames, needles, partialMin)
      invariant findings == [] <==>
        && (forall a :: 0 <= a < |dgs| ==> DatagramCleanOfAll(dgs[a], needles, partialMin))
        && (forall a :: 0 <= a < i ==> FrameCleanOfAll(frames[a], needles))
      invariant forall a :: 0 <= a < |dgs| ==> DatagramReportedForAll(findings, dgs[a], a, needles, partialMin)
      invariant forall a :: 0 <= a < i ==> FrameReportedForAll(findings, frames[a], needles)
    {
      var more := AllNeedlesInFrame(frames[i], dgs, frames, needles, partialMin);
      StillReported(findings, more, needles, partialMin);
      findings := findings + more;
    }
  }

  method AllNeedlesInDatagram(dgs: seq<Datagram>, di: nat, ghost frames: seq<Frame>, needles: seq<Needle>, partialMin: int)
    returns (findings: seq<Finding>)
    requires di < |dgs|
    ensures findings == [] <==> DatagramCleanOfAll(dgs[di], needles, partialMin)
    ensures AllGrounded(findings, dgs, frames, needles, partialMin)
    ensures DatagramReportedForAll(findings, dgs[di], di, needles, partialMin)
  {
    hide DatagramClean, Grounded, ReportedInDatagram, ReportedInFrame, PartReported, Leaks, Dribbles;
    findings := [];
    for j := 0 to |needles|
      invariant AllGrounded(findings, dgs, frames, needles, partialMin)
      invariant findings == [] <==> forall b :: 0 <= b < j ==> DatagramClean(dgs[di], needles[b], partialMin)
      invariant forall b :: 0 <= b < j ==> DatagramReported(findings, dgs[di], di, needles[b], partialMin)
    {
      var more := SearchDatagram(dgs, di, needles[j], partialMin, frames, needles);
      MoreFindings(findings, more);
      findings := findings + more;
    }
  }

  method AllNeedlesInFrame(f: Frame, ghost dgs: seq<Datagram>, ghost frames: seq<Frame>, needles: seq<Needle>, ghost partialMin: int)
    returns (findings: seq<Finding>)
    requires f in frames
    ensures findings == [] <==> FrameCleanOfAll(f, needles)
    ensures AllGrounded(findings, dgs, frames, needles, partialMin)
    ensures FrameReportedForAll(findings, f, needles)
  {
    hide FrameClean, Grounded, ReportedInDatagram, ReportedInFrame, PartReported;
    findings := [];
    for j := 0 to |needles|
      invariant AllGrounded(findings, dgs, frames, needles, partialMin)
      invariant findings == [] <==> forall b :: 0 <= b < j ==> FrameClean(f, needles[b])
      invariant forall b :: 0 <= b < j ==> FrameReported(findings, f, needles[b])
    {
      var more := SearchFrame(f, needles[j], dgs, frames, needles, partialMin);
      MoreFindings(findings, more);
      findings := findings + more;
    }
  }

  // ---- the verdict --------------------------------------------------------

  datatype Verdict = Pass | Fail | Inconclusive

  /** The datagrams that some frame from this station helped carry. */
  function FromStation(dgs: seq<Datagram>, mac: seq<Byte>): (r: seq<Datagram>)
    ensures forall d :: d in r <==> d in dgs && mac in d.srcs
  {
    if |dgs| == 0 then []
    else
      var init, d := dgs[..|dgs| - 1], dgs[|dgs| - 1];
      if mac in d.srcs then FromStation(init, mac) + [d] else FromStation(init, mac)
  }

  /** A Type-4 transport datagram on the given UDP port, or on any if none is given. */
  predicate IsType4(d: Datagram, port: Option<int>) {
    && (port.None? || (d.ports.Some? && (d.ports.value.0 == port.value || d.ports.value.1 == port.value)))
    && |d.UdpPayload()| > 0 && d.UdpPayload()[0] == 4
  }

  /** There was something to look for, the C64 spoke as much as demanded, and nothing was found. */
  ghost predicate Passes(frames: seq<Frame>, needles: seq<Needle>, c64Mac: Option<seq<Byte>>,
                         minDatagrams: int, type4Port: Option<int>, partialMin: int) {
    && (exists n :: n in needles && n.text != [])
    && Reassembled(frames) != []
    && Clean(Reassembled(frames), frames, needles, partialMin)
    && c64Mac.Some?
    && |FromStation(Reassembled(frames), c64Mac.value)| >= minDatagrams
    && (type4Port.Some? ==>
          exists d :: d in FromStation(Reassembled(frames), c64Mac.value) && IsType4(d, type4Port))
  }

  method CheckPlaintextAbsent(frames: seq<Frame>, needles: seq<Needle>, c64Mac: Option<seq<Byte>>,
                              minDatagrams: int, type4Port: Option<int>, partialMin: int)
    returns (v: Verdict)
    ensures v == Pass <==> Passes(frames, needles, c64Mac, minDatagrams, type4Port, partialMin)
    ensures v == Fail <==>
      (exists n :: n in needles && n.text != [])
      ==> Reassembled(frames) != [] && !Clean(Reassembled(frames), frames, needles, partialMin)
  {
    hide Clean, FromStation, IsType4;
    if forall n :: n in needles ==> n.text == [] {
      return Fail;
    }
    assert exists n :: n in needles && n.text != [];
    if frames == [] {
      return Inconclusive;
    }
    var dgs := Reassemble(frames);
    if dgs == [] {
      return Inconclusive;
    }
    var fromC64 := if c64Mac.None? then [] else FromStation(dgs, c64Mac.value);
    var findings := FindPlaintext(dgs, frames, needles, partialMin);
    if findings != [] {
      return Fail;
    }
    if c64Mac.None? {
      return Inconclusive;
    }
    if |fromC64| < minDatagrams {
      return Inconclusive;
    }
    if type4Port.Some? && !(exists d :: d in fromC64 && IsType4(d, type4Port)) {
      return Inconclusive;
    }
    return Pass;
  }

  /** A pass is never bought by cutting a datagram up: a plaintext anywhere in a
      datagram, in any searched form, is found however that datagram was fragmented. */
  lemma TornPlaintextIsNotClean(frames: seq<Frame>, needles: seq<Needle>, partialMin: int, k: nat,
                                parts: seq<seq<Byte>>, which: seq<nat>, n: Needle, at: int)
    requires k < |Keys(frames)| && FragmentsOf(Members(frames, Keys(frames)[k]), parts, which)
    requires n in needles && n.text != [] && AppearsAt(Joined(parts), n.text, at)
    ensures AppearsAt(Reassembled(frames)[k].data, n.text, at)
    ensures !Clean(Reassembled(frames), frames, needles, partialMin)
  {
    CutAndReassembled(frames, k, parts, which);
    var d := Reassembled(frames)[k];
    assert d in Reassembled(frames) && !DatagramClean(d, n, partialMin) && !DatagramCleanOfAll(d, needles, partialMin);
  }
}
