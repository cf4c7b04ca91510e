/** Searching byte strings for a plaintext: the encodings it may take on the wire,
    every full appearance of it, and its longest run inside a buffer. */
module ByteSearch {
  import opened Bytes

  predicate Matches(hay: seq<Byte>, pat: seq<Byte>, at: int) {
    0 <= at && at + |pat| <= |hay| && hay[at..at + |pat|] == pat
  }

  /** `pat in hay` */
  predicate Occurs(hay: seq<Byte>, pat: seq<Byte>) {
    exists at :: 0 <= at <= |hay| && Matches(hay, pat, at)
  }

  /** `hay.find(pat, from)`: the first match at or after `from`, or -1. */
  function Find(hay: seq<Byte>, pat: seq<Byte>, from: nat): (r: int)
    ensures r == -1 || (from <= r && Matches(hay, pat, r))
    ensures forall at :: from <= at && Matches(hay, pat, at) ==> r != -1 && r <= at
    decreases |hay| + 1 - from
  {
    if from + |pat| > |hay| then -1
    else if Matches(hay, pat, from) then from
    else Find(hay, pat, from + 1)
  }

  // ---- the longest run ----------------------------------------------------

  /** `len` bytes of needle from `start` appear in hay. */
  predicate RunsAt(hay: seq<Byte>, needle: seq<Byte>, start: int, len: int) {
    0 <= start && 0 <= len && start + len <= |needle| && Occurs(hay, needle[start..start + len])
  }

  /** best is the length of the longest non-empty piece of needle that occurs in hay
      and `at` the first place in needle where one that long starts; (0, -1) if none. */
  ghost predicate IsLongestRun(hay: seq<Byte>, needle: seq<Byte>, best: int, at: int) {
    && (if at == -1 then best == 0 else 0 < best && RunsAt(hay, needle, at, best))
    && forall start, len :: 0 < len && RunsAt(hay, needle, start, len) ==>
         len < best || (len == best && at <= start)
  }

  lemma LongestRunIsUnique(hay: seq<Byte>, needle: seq<Byte>, b: int, a: int, b': int, a': int)
    requires IsLongestRun(hay, needle, b, a) && IsLongestRun(hay, needle, b', a')
    ensures b == b' && a == a'
  {
    if a != -1 {
      assert RunsAt(hay, needle, a, b);
    }
    if a' != -1 {
      assert RunsAt(hay, needle, a', b');
    }
  }

  /** A piece of a run is a run, which is what lets the search bisect. */
  lemma ShorterRuns(hay: seq<Byte>, needle: seq<Byte>, start: int, len: int, shorter: int)
    requires RunsAt(hay, needle, start, len) && 0 <= shorter <= len
    ensures RunsAt(hay, needle, start, shorter)
  {
    var p, q := needle[start..start + len], needle[start..start + shorter];
    var at :| 0 <= at <= |hay| && Matches(hay, p, at);
    assert q == p[..shorter] && hay[at..at + shorter] == hay[at..at + len][..shorter];
    assert Matches(hay, q, at);
  }

  /** The length of the longest run starting at `start` if it beats `best`, else 0. */
  method LongestFrom(hay: seq<Byte>, needle: seq<Byte>, start: nat, best: nat) returns (found: nat)
    requires best < |needle| - start
    ensures found == 0 || (best < found && RunsAt(hay, needle, start, found))
    ensures forall len :: RunsAt(hay, needle, start, len) ==> len <= best || len <= found
  {
    var lo, hi := best + 1, |needle| - start;
    found := 0;
    while lo <= hi
      invariant best + 1 <= lo <= hi + 1 <= |needle| - start + 1
      invariant if found == 0 then lo == best + 1 else best < found == lo - 1 && RunsAt(hay, needle, start, found)
      invariant forall len :: hi < len <= |needle| - start ==> !RunsAt(hay, needle, start, len)
    {
      var mid := (lo + hi) / 2;
      if Occurs(hay, needle[start..start + mid]) {
        found, lo := mid, mid + 1;
      } else {
        forall len | mid <= len && RunsAt(hay, needle, start, len)
          ensures false
        {
          ShorterRuns(hay, needle, start, len, mid);
        }
        hi := mid - 1;
      }
    }
  }

  method LongestRun(hay: seq<Byte>, needle: seq<Byte>) returns (best: nat, bestAt: int)
    ensures IsLongestRun(hay, needle, best, bestAt)
  {
    best, bestAt := 0, -1;
    var start := 0;
    while start < |needle|
      invariant 0 <= start <= |needle|
      invariant if bestAt == -1 then best == 0 else 0 < best && RunsAt(hay, needle, bestAt, best)
      invariant bestAt < start
      invariant forall s, len :: 0 <= s < start && 0 < len && RunsAt(hay, needle, s, len) ==>
        len < best || (len == best && bestAt <= s)
    {
      if |needle| - start <= best {
        break;
      }
      var found := LongestFrom(hay, needle, start, best);
      if found > best {
        best, bestAt := found, start;
      }
      start := start + 1;
    }
  }

  // ---- encodings ----------------------------------------------------------

  datatype Form = Exact | Petscii | PetsciiShifted | ScreenCode | Reversed

  function FoldByte(b: Byte): Byte {
    if 0x61 <= b <= 0x7A then b - 0x20 else b
  }

  function ShiftByte(b: Byte): Byte {
    var f := FoldByte(b);
    if 0x41 <= f <= 0x5A then f + 0x80 else f
  }

  function ScreenByte(b: Byte): Byte {
    if 0x41 <= b <= 0x5A then b - 0x40
    else if 0x61 <= b <= 0x7A then b - 0x60
    else b
  }

  /** The bytes `needle` takes in one encoding. */
  function Encoded(form: Form, needle: seq<Byte>): (r: seq<Byte>)
    ensures |r| == |needle|
  {
    match form
    case Exact => needle
    case Petscii => seq(|needle|, i requires 0 <= i < |needle| => FoldByte(needle[i]))
    case PetsciiShifted => seq(|needle|, i requires 0 <= i < |needle| => ShiftByte(needle[i]))
    case ScreenCode => seq(|needle|, i requires 0 <= i < |needle| => ScreenByte(needle[i]))
    case Reversed => seq(|needle|, i requires 0 <= i < |needle| => needle[|needle| - 1 - i])
  }

  method PetsciiForm(needle: seq<Byte>) returns (out: seq<Byte>)
    ensures out == Encoded(Petscii, needle)
  {
    out := needle;
    for i := 0 to |out|
      invariant |out| == |needle|
      invariant forall k :: 0 <= k < |out| ==> out[k] == if k < i then FoldByte(needle[k]) else needle[k]
    {
      if 0x61 <= out[i] <= 0x7A {
        out := out[i := out[i] - 0x20];
      }
    }
  }

  method ScreenCodeForm(needle: seq<Byte>) returns (out: seq<Byte>)
    ensures out == Encoded(ScreenCode, needle)
  {
    out := needle;
    for i := 0 to |out|
      invariant |out| == |needle|
      invariant forall k :: 0 <= k < |out| ==> out[k] == if k < i then ScreenByte(needle[k]) else needle[k]
    {
      if 0x41 <= out[i] <= 0x5A {
        out := out[i := out[i] - 0x40];
      } else if 0x61 <= out[i] <= 0x7A {
        out := out[i := out[i] - 0x60];
      }
    }
  }

  /** Every form is idempotent but the reversal, which undoes itself; and texts with
      one PETSCII form, such as those that differ only in the case of their letters,
      have one shifted and one screen form too. */
  lemma FormLaws(needle: seq<Byte>, other: seq<Byte>)
    ensures forall f | f != Reversed :: Encoded(f, Encoded(f, needle)) == Encoded(f, needle)
    ensures Encoded(Reversed, Encoded(Reversed, needle)) == needle
    ensures Encoded(Petscii, needle) == Encoded(Petscii, other) ==>
      && Encoded(PetsciiShifted, needle) == Encoded(PetsciiShifted, other)
      && Encoded(ScreenCode, needle) == Encoded(ScreenCode, other)
  {
    assert Encoded(Petscii, Encoded(Petscii, needle)) == Encoded(Petscii, needle);
    assert Encoded(PetsciiShifted, Encoded(PetsciiShifted, needle)) == Encoded(PetsciiShifted, needle);
    assert Encoded(ScreenCode, Encoded(ScreenCode, needle)) == Encoded(ScreenCode, needle);
    if Encoded(Petscii, needle) == Encoded(Petscii, other) {
      forall k | 0 <= k < |needle|
        ensures ShiftByte(needle[k]) == ShiftByte(other[k]) && ScreenByte(needle[k]) == ScreenByte(other[k])
      {
        assert Encoded(Petscii, needle)[k] == Encoded(Petscii, other)[k];
        SameFold(needle[k], other[k]);
      }
    }
  }

  lemma SameFold(b: Byte, c: Byte)
    requires FoldByte(b) == FoldByte(c)
    ensures ShiftByte(b) == ShiftByte(c) && ScreenByte(b) == ScreenByte(c)
  {
  }

  // ---- every full appearance ---------------------------------------------

  /** The forms `search_forms` tries, in its order. */
  const SEARCHED: seq<Form> := [Exact, Petscii, PetsciiShifted, Reversed]

  datatype Appearance = Appearance(form: Form, at: int, length: int)

  /** The i-th searched form is the first one that matches at this offset. */
  ghost predicate FirstMatch(hay: seq<Byte>, needle: seq<Byte>, i: int, at: int) {
    && 0 <= i < |SEARCHED| && Matches(hay, Encoded(SEARCHED[i], needle), at)
    && forall j :: 0 <= j < i ==> !Matches(hay, Encoded(SEARCHED[j], needle), at)
  }

  /** Entry k of the search's output is what the first `forms` forms give. */
  ghost predicate Justified(hay: seq<Byte>, needle: seq<Byte>, e: Appearance, forms: int) {
    exists i :: 0 <= i < forms && FirstMatch(hay, needle, i, e.at)
                && e == Appearance(SEARCHED[i], e.at, |needle|)
  }

  /** Some form of needle starts at this offset of hay. */
  ghost predicate AppearsAt(hay: seq<Byte>, needle: seq<Byte>, at: int) {
    exists i :: 0 <= i < |SEARCHED| && Matches(hay, Encoded(SEARCHED[i], needle), at)
  }

  /** Every entry is justified by the first `forms` forms, no offset has two entries,
      and `seen` is the set of offsets. */
  ghost predicate Ledger(hay: seq<Byte>, needle: seq<Byte>, forms: int, out: seq<Appearance>, seen: set<int>) {
    && (forall k :: 0 <= k < |out| ==> Justified(hay, needle, out[k], forms) && out[k].at in seen)
    && (forall j, k :: 0 <= j < k < |out| ==> out[j].at != out[k].at)
    && (forall a :: a in seen ==> HasEntry(out, a))
  }

  ghost predicate HasEntry(out: seq<Appearance>, a: int) {
    exists k :: 0 <= k < |out| && out[k].at == a
  }

  lemma LedgerAdd(hay: seq<Byte>, needle: seq<Byte>, forms: int, out: seq<Appearance>, seen: set<int>, e: Appearance)
    requires Ledger(hay, needle, forms, out, seen) && e.at !in seen && Justified(hay, needle, e, forms)
    ensures Ledger(hay, needle, forms, out + [e], seen + {e.at})
  {
    hide Justified;
    var out' := out + [e];
    assert out'[|out|].at == e.at;
    forall a | a in seen
      ensures HasEntry(out', a)
    {
      var k :| 0 <= k < |out| && out[k].at == a;
      assert out'[k].at == a;
    }
  }

  /** Matches of the first `forms` forms all have their offset in `seen`. */
  ghost predicate Covered(hay: seq<Byte>, needle: seq<Byte>, forms: int, seen: set<int>)
    requires forms <= |SEARCHED|
  {
    forall j, at :: 0 <= j < forms && Matches(hay, Encoded(SEARCHED[j], needle), at) ==> at in seen
  }

  /** (form, offset, length) of every appearance, one entry an offset, labelled with
      the first form that matches there. */
  method SearchForms(hay: seq<Byte>, needle: seq<Byte>) returns (out: seq<Appearance>)
    ensures forall k :: 0 <= k < |out| ==> Justified(hay, needle, out[k], |SEARCHED|)
    ensures forall at :: AppearsAt(hay, needle, at) <==> HasEntry(out, at)
    ensures forall j, k :: 0 <= j < k < |out| ==> out[j].at != out[k].at
  {
    out := [];
    var seen: set<int> := {};
    for i := 0 to |SEARCHED|
      invariant Ledger(hay, needle, i, out, seen) && Covered(hay, needle, i, seen)
    {
      var pat := Encoded(SEARCHED[i], needle);
      LedgerGrows(hay, needle, i, out, seen);
      if i == 0 || pat != needle {
        out, seen := SearchOne(hay, needle, i, out, seen);
      } else {
        assert SEARCHED[0] == Exact && Encoded(Exact, needle) == pat;
      }
    }
    forall at
      ensures AppearsAt(hay, needle, at) <==> HasEntry(out, at)
    {
      if HasEntry(out, at) {
        var k :| 0 <= k < |out| && out[k].at == at;
        assert Justified(hay, needle, out[k], |SEARCHED|);
      }
    }
  }

  lemma LedgerGrows(hay: seq<Byte>, needle: seq<Byte>, forms: int, out: seq<Appearance>, seen: set<int>)
    requires Ledger(hay, needle, forms, out, seen)
    ensures Ledger(hay, needle, forms + 1, out, seen)
  {
    forall k | 0 <= k < |out|
      ensures Justified(hay, needle, out[k], forms + 1)
    {
      assert Justified(hay, needle, out[k], forms);
    }
  }

  lemma LateMatch(hay: seq<Byte>, pat: seq<Byte>, at: int)
    ensures Matches(hay, pat, at) ==> 0 <= at <= |hay|
  {
  }

  /** The scan for one form: appends the offsets no earlier form has claimed. */
  method SearchOne(hay: seq<Byte>, needle: seq<Byte>, i: nat, out0: seq<Appearance>, seen0: set<int>)
    returns (out: seq<Appearance>, seen: set<int>)
    requires i < |SEARCHED| && Ledger(hay, needle, i + 1, out0, seen0) && Covered(hay, needle, i, seen0)
    ensures Ledger(hay, needle, i + 1, out, seen) && Covered(hay, needle, i + 1, seen)
  {
    hide Encoded, Ledger, Find, Matches;
    out, seen := out0, seen0;
    var pat := Encoded(SEARCHED[i], needle);
    var at := Find(hay, pat, 0);
    ghost var done := 0;
    while at >= 0
      invariant at == Find(hay, pat, done) && 0 <= done <= |hay| + 1
      invariant Ledger(hay, needle, i + 1, out, seen) && seen0 <= seen
      invariant forall a :: a in seen && a !in seen0 ==> a < done
      invariant forall a :: 0 <= a < done && Matches(hay, pat, a) ==> a in seen
      decreases |hay| + 1 - done
    {
      LateMatch(hay, pat, at);
      if at !in seen {
        var e := Appearance(SEARCHED[i], at, |pat|);
        assert FirstMatch(hay, needle, i, at);
        assert Justified(hay, needle, e, i + 1);
        LedgerAdd(hay, needle, i + 1, out, seen, e);
        out, seen := out + [e], seen + {at};
      }
      done := at + 1;
      at := Find(hay, pat, at + 1);
    }
    forall a | Matches(hay, pat, a)
      ensures a in seen
    {
      LateMatch(hay, pat, a);
    }
  }
}
