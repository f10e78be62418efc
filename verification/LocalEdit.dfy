/** Text edits on one snapshot (src/providers/local-edit.ts): every anchor is resolved against
    the original, then all ranges are replaced at once, within a UTF-8 byte limit. */
module LocalEdit {
  import opened Utf16
  import opened Alignment
  import opened Wrappers

  const MAX_FILE_BYTES := 2 * 1024 * 1024
  const MAX_OCCURRENCES := 10000

  datatype Edit = Edit(oldText: Text, newText: Text, all: bool)
  datatype Range = Range(start: nat, end: nat, text: Text)
  datatype Error = OriginalTooLarge | EmptyAnchor | NotFound | NotUnique | Overlap | TooMany | ProposedTooLarge
  datatype Outcome = Applied(text: Text, regions: seq<Region>) | Failed(error: Error)

  // ----- anchors

  predicate OccursAt(s: Text, anchor: Text, i: nat) {
    i + |anchor| <= |s| && s[i..i + |anchor|] == anchor
  }

  /** String.prototype.indexOf for a nonempty anchor. */
  function IndexOf(s: Text, anchor: Text, from: nat): (r: int)
    requires anchor != []
    ensures -1 <= r
    ensures r >= 0 ==> from <= r && r + |anchor| <= |s|
    decreases |s| - from
  {
    if from + |anchor| > |s| then -1
    else if s[from..from + |anchor|] == anchor then from
    else IndexOf(s, anchor, from + 1)
  }

  lemma {:induction false} IndexOfIsFirst(s: Text, anchor: Text, from: nat)
    requires anchor != []
    ensures var r := IndexOf(s, anchor, from);
            if r >= 0 then OccursAt(s, anchor, r) && forall i: nat | from <= i < r :: !OccursAt(s, anchor, i)
            else forall i: nat | from <= i :: !OccursAt(s, anchor, i)
    decreases |s| - from
  {
    if from + |anchor| <= |s| && s[from..from + |anchor|] != anchor {
      IndexOfIsFirst(s, anchor, from + 1);
    }
  }

  lemma FoundAtStart(s: Text, anchor: Text, i: nat)
    requires anchor != [] && OccursAt(s, anchor, i)
    ensures IndexOf(s, anchor, i) == i
  {
  }

  /** The occurrences that replacing all takes, from a position on. */
  function Occurrences(s: Text, anchor: Text, from: nat): seq<nat>
    requires anchor != []
    decreases |s| - from
  {
    var i := IndexOf(s, anchor, from);
    if i < 0 then [] else [i as nat] + Occurrences(s, anchor, i + |anchor|)
  }

  lemma UnfoldOccurrences(s: Text, anchor: Text, from: nat)
    requires anchor != []
    ensures var next := IndexOf(s, anchor, from);
            Occurrences(s, anchor, from) == if next < 0 then [] else [next as nat] + Occurrences(s, anchor, next + |anchor|)
  {
    hide IndexOf;
  }

  /** Leftmost and non-overlapping: no occurrence was skipped before the first choice, between
      two consecutive ones, or after the last. */
  ghost predicate IsLeftmostChoice(s: Text, anchor: Text, from: nat, chosen: seq<nat>)
    decreases |chosen|
  {
    if chosen == [] then NoneBetween(s, anchor, from, |s|)
    else
      && from <= chosen[0] && OccursAt(s, anchor, chosen[0])
      && NoneBetween(s, anchor, from, chosen[0])
      && IsLeftmostChoice(s, anchor, chosen[0] + |anchor|, chosen[1..])
  }

  ghost predicate NoneBetween(s: Text, anchor: Text, from: nat, to: nat) {
    forall i: nat | from <= i < to :: !OccursAt(s, anchor, i)
  }

  lemma IndexOfIff(s: Text, anchor: Text, from: nat, i: nat)
    requires anchor != []
    ensures IndexOf(s, anchor, from) == i <==> from <= i && OccursAt(s, anchor, i) && NoneBetween(s, anchor, from, i)
    ensures IndexOf(s, anchor, from) < 0 <==> NoneBetween(s, anchor, from, |s|)
  {
    hide IndexOf;
    IndexOfIsFirst(s, anchor, from);
  }

  lemma {:induction false} OccurrencesAreLeftmost(s: Text, anchor: Text, from: nat)
    requires anchor != []
    ensures IsLeftmostChoice(s, anchor, from, Occurrences(s, anchor, from))
    decreases |s| - from
  {
    hide OccursAt, IndexOf, NoneBetween, Occurrences;
    var i := IndexOf(s, anchor, from);
    UnfoldOccurrences(s, anchor, from);
    IndexOfIff(s, anchor, from, if i < 0 then 0 else i);
    if i >= 0 {
      OccurrencesAreLeftmost(s, anchor, i + |anchor|);
      assert Occurrences(s, anchor, from)[1..] == Occurrences(s, anchor, i + |anchor|);
    }
  }

  /** There is only one leftmost choice. */
  lemma {:induction false} LeftmostChoiceIsUnique(s: Text, anchor: Text, from: nat, chosen: seq<nat>)
    requires anchor != [] && IsLeftmostChoice(s, anchor, from, chosen)
    ensures chosen == Occurrences(s, anchor, from)
    decreases |chosen|
  {
    hide OccursAt, IndexOf, NoneBetween, Occurrences;
    UnfoldOccurrences(s, anchor, from);
    IndexOfIff(s, anchor, from, if chosen == [] then 0 else chosen[0]);
    if chosen != [] {
      LeftmostChoiceIsUnique(s, anchor, chosen[0] + |anchor|, chosen[1..]);
      assert chosen == [chosen[0]] + chosen[1..];
    }
  }

  lemma {:induction false} ChoicesOccur(s: Text, anchor: Text, from: nat)
    requires anchor != []
    ensures forall k | 0 <= k < |Occurrences(s, anchor, from)| :: OccursAt(s, anchor, Occurrences(s, anchor, from)[k])
    decreases |s| - from
  {
    hide OccursAt, IndexOf, Occurrences;
    var i := IndexOf(s, anchor, from);
    UnfoldOccurrences(s, anchor, from);
    IndexOfIsFirst(s, anchor, from);
    if i >= 0 {
      ChoicesOccur(s, anchor, i + |anchor|);
    }
  }

  // ----- what a list of edits asks for

  /** The anchor is nonempty, present, and unique unless all occurrences are wanted. */
  predicate EditResolves(original: Text, e: Edit) {
    && e.oldText != []
    && IndexOf(original, e.oldText, 0) >= 0
    && (e.all || IndexOf(original, e.oldText, IndexOf(original, e.oldText, 0) + 1) < 0)
  }

  function Claims(e: Edit, at: seq<nat>): (ranges: seq<Range>)
    ensures |ranges| == |at|
    ensures forall k | 0 <= k < |at| :: ranges[k] == Range(at[k], at[k] + |e.oldText|, e.newText)
  {
    seq(|at|, k requires 0 <= k < |at| => Range(at[k], at[k] + |e.oldText|, e.newText))
  }

  function EditRanges(original: Text, e: Edit): seq<Range>
    requires EditResolves(original, e)
  {
    Claims(e, if e.all then Occurrences(original, e.oldText, 0) else [IndexOf(original, e.oldText, 0) as nat])
  }

  function AllRanges(original: Text, edits: seq<Edit>): seq<Range>
    requires forall e | e in edits :: EditResolves(original, e)
  {
    if edits == [] then []
    else AllRanges(original, edits[..|edits| - 1]) + EditRanges(original, edits[|edits| - 1])
  }

  predicate Apart(a: Range, b: Range) {
    a.end <= b.start || b.end <= a.start
  }

  ghost predicate Disjoint(ranges: seq<Range>) {
    forall i, j | 0 <= i < j < |ranges| :: Apart(ranges[i], ranges[j])
  }

  ghost predicate InText(original: Text, ranges: seq<Range>) {
    forall i | 0 <= i < |ranges| :: ranges[i].start < ranges[i].end <= |original|
  }

  /** The edits can all be made on the same snapshot. */
  ghost predicate Resolvable(original: Text, edits: seq<Edit>) {
    && (forall e | e in edits :: EditResolves(original, e))
    && Disjoint(AllRanges(original, edits))
    && |AllRanges(original, edits)| <= MAX_OCCURRENCES
  }

  lemma EditRangesInText(original: Text, e: Edit)
    requires EditResolves(original, e)
    ensures InText(original, EditRanges(original, e))
  {
    hide IndexOf, Occurrences;
    IndexOfIsFirst(original, e.oldText, 0);
    ChoicesOccur(original, e.oldText, 0);
    forall i | 0 <= i < |EditRanges(original, e)|
      ensures OccursAt(original, e.oldText, EditRanges(original, e)[i].start)
    {
    }
  }

  lemma {:induction false} AllRangesInText(original: Text, edits: seq<Edit>)
    requires forall e | e in edits :: EditResolves(original, e)
    ensures InText(original, AllRanges(original, edits))
  {
    if edits != [] {
      AllRangesInText(original, edits[..|edits| - 1]);
      EditRangesInText(original, edits[|edits| - 1]);
    }
  }

  /** Earlier edits keep their ranges as more edits follow. */
  lemma {:induction false} AllRangesGrow(original: Text, edits: seq<Edit>, n: nat)
    requires n <= |edits| && forall e | e in edits :: EditResolves(original, e)
    ensures AllRanges(original, edits[..n]) <= AllRanges(original, edits)
    decreases |edits| - n
  {
    if n == |edits| {
      assert edits[..n] == edits;
    } else {
      AllRangesGrow(original, edits, n + 1);
      assert edits[..n + 1][..n] == edits[..n];
    }
  }

  // ----- sorting by start

  function Insert(r: Range, sorted: seq<Range>): (res: seq<Range>)
    ensures multiset(res) == multiset(sorted) + multiset{r}
  {
    if sorted == [] || r.start < sorted[0].start then [r] + sorted
    else
      assert sorted == [sorted[0]] + sorted[1..];
      [sorted[0]] + Insert(r, sorted[1..])
  }

  function SortByStart(ranges: seq<Range>): (res: seq<Range>)
    ensures multiset(res) == multiset(ranges)
  {
    if ranges == [] then []
    else
      var n := |ranges| - 1;
      assert ranges == ranges[..n] + [ranges[n]];
      Insert(ranges[n], SortByStart(ranges[..n]))
  }

  ghost predicate SortedByStart(rs: seq<Range>) {
    forall i, j | 0 <= i < j < |rs| :: rs[i].start <= rs[j].start
  }

  lemma {:induction false} InsertSorts(r: Range, sorted: seq<Range>)
    requires SortedByStart(sorted)
    ensures SortedByStart(Insert(r, sorted))
  {
    if sorted != [] && r.start >= sorted[0].start {
      InsertSorts(r, sorted[1..]);
      var rest := Insert(r, sorted[1..]);
      forall j | 0 <= j < |rest|
        ensures sorted[0].start <= rest[j].start
      {
        assert rest[j] in multiset(rest);
        assert rest[j] == r || rest[j] in sorted[1..];
      }
    }
  }

  lemma {:induction false} SortSorts(ranges: seq<Range>)
    ensures SortedByStart(SortByStart(ranges))
  {
    if ranges != [] {
      SortSorts(ranges[..|ranges| - 1]);
      InsertSorts(ranges[|ranges| - 1], SortByStart(ranges[..|ranges| - 1]));
    }
  }

  /** Sorted, nonempty and disjoint: each range ends before the next begins. */
  ghost predicate Chain(original: Text, from: nat, rs: seq<Range>)
    decreases |rs|
  {
    if rs == [] then from <= |original|
    else from <= rs[0].start < rs[0].end && Chain(original, rs[0].end, rs[1..])
  }

  /** Disjointness does not depend on order: no two members, and no member twice, overlap. */
  ghost predicate MembersApart(m: multiset<Range>) {
    && (forall r | r in m :: m[r] == 1)
    && (forall a, b | a in m && b in m && a != b :: Apart(a, b))
  }

  lemma {:induction false} NoRepeats(ranges: seq<Range>)
    requires Disjoint(ranges) && forall i | 0 <= i < |ranges| :: ranges[i].start < ranges[i].end
    ensures MembersApart(multiset(ranges))
  {
    if ranges != [] {
      var n := |ranges| - 1;
      var init, r := ranges[..n], ranges[n];
      NoRepeats(init);
      assert ranges == init + [r];
      forall i | 0 <= i < n
        ensures init[i] != r
      {
        assert Apart(ranges[i], ranges[n]);
      }
      forall a | a in init
        ensures Apart(a, r)
      {
        var i :| 0 <= i < n && ranges[i] == a;
        assert Apart(ranges[i], ranges[n]);
      }
    }
  }

  lemma LaterStartsAfterFirst(rs: seq<Range>, i: nat)
    requires 0 < i < |rs| && SortedByStart(rs) && MembersApart(multiset(rs))
    requires rs[i].start < rs[i].end
    ensures rs[0].end <= rs[i].start
  {
    var rest := rs[1..];
    assert rs == [rs[0]] + rest;
    assert rest[i - 1] == rs[i];
    assert rs[i] in multiset(rest) && rs[i] in multiset(rs);
    assert multiset(rs)[rs[0]] == 1 + multiset(rest)[rs[0]];
    assert Apart(rs[0], rs[i]);
  }

  lemma ApartTail(rs: seq<Range>)
    requires rs != [] && MembersApart(multiset(rs))
    ensures MembersApart(multiset(rs[1..]))
  {
    assert rs == [rs[0]] + rs[1..];
    forall r | r in multiset(rs[1..])
      ensures multiset(rs[1..])[r] == 1 && r in multiset(rs)
    {
      assert multiset(rs)[r] >= multiset(rs[1..])[r];
    }
  }

  lemma {:induction false} SortedChain(original: Text, from: nat, rs: seq<Range>)
    requires SortedByStart(rs) && InText(original, rs) && MembersApart(multiset(rs))
    requires from <= |original| && forall i | 0 <= i < |rs| :: from <= rs[i].start
    ensures Chain(original, from, rs)
    decreases |rs|
  {
    hide MembersApart;
    if rs != [] {
      forall i | 0 < i < |rs|
        ensures rs[0].end <= rs[i].start
      {
        LaterStartsAfterFirst(rs, i);
      }
      ApartTail(rs);
      SortedChain(original, rs[0].end, rs[1..]);
    }
  }

  /** Disjoint ranges, once sorted, form a chain: the second overlap check cannot fire. */
  lemma SortMakesChain(original: Text, ranges: seq<Range>)
    requires Disjoint(ranges) && InText(original, ranges)
    ensures Chain(original, 0, SortByStart(ranges))
  {
    NoRepeats(ranges);
    SortSorts(ranges);
    var sorted := SortByStart(ranges);
    forall i | 0 <= i < |sorted|
      ensures sorted[i].start < sorted[i].end <= |original|
    {
      assert sorted[i] in multiset(sorted);
      assert sorted[i] in ranges;
    }
    SortedChain(original, 0, sorted);
  }

  // ----- simultaneous substitution

  /** The original from a position on, with the ranges of a chain replaced. */
  function Substitute(original: Text, from: nat, rs: seq<Range>): Text
    requires Chain(original, from, rs)
    decreases |rs|
  {
    if rs == [] then original[from..]
    else
      ChainFits(original, rs[0].end, rs[1..]);
      original[from..rs[0].start] + rs[0].text + Substitute(original, rs[0].end, rs[1..])
  }

  lemma {:induction false} ChainFits(original: Text, from: nat, rs: seq<Range>)
    requires Chain(original, from, rs)
    ensures from <= |original|
    ensures rs != [] ==> rs[0].end <= |original|
    decreases |rs|
  {
    if rs != [] {
      ChainFits(original, rs[0].end, rs[1..]);
    }
  }

  ghost function Substituted(original: Text, edits: seq<Edit>): Text
    requires Resolvable(original, edits)
  {
    AllRangesInText(original, edits);
    SortMakesChain(original, AllRanges(original, edits));
    Substitute(original, 0, SortByStart(AllRanges(original, edits)))
  }

  function Texts(rs: seq<Range>): (texts: seq<Text>)
    ensures |texts| == |rs| && forall i | 0 <= i < |rs| :: texts[i] == rs[i].text
  {
    seq(|rs|, i requires 0 <= i < |rs| => rs[i].text)
  }

  // ----- UTF-8 accounting

  predicate EndsHigh(s: Text) {
    s != [] && IsHigh(s[|s| - 1])
  }

  /** Bytes that no later text can take back: a trailing high surrogate may still pair up. */
  function Stable(s: Text): int {
    ByteLength(s) - if EndsHigh(s) then 2 else 0
  }

  lemma EndsHighBytes(s: Text)
    requires EndsHigh(s)
    ensures ByteLength(s) >= 3
  {
    var init, last := s[..|s| - 1], [s[|s| - 1]];
    assert s == init + last;
    ByteLengthOfJoin(init, last);
    assert ByteLength(last) == 3;
    assert !Joins(init, last);
  }

  lemma LowThenHighBytes(s: Text)
    requires EndsHigh(s) && IsLow(s[0])
    ensures ByteLength(s) >= 6
  {
    assert s == [s[0]] + s[1..];
    ByteLengthOfJoin([s[0]], s[1..]);
    EndsHighBytes(s[1..]);
  }

  /** Appending never lowers the stable size, and adds all but four bytes of the addition. */
  lemma StableGrows(a: Text, b: Text)
    ensures Stable(a + b) >= Stable(a) + Max0(ByteLength(b) - 4)
  {
    hide ByteLength;
    ByteLengthOfJoin(a, b);
    if b == [] {
      assert a + b == a;
      assert ByteLength(b) == 0 by { ByteLengthBounds(b); }
    } else {
      assert (a + b)[|a + b| - 1] == b[|b| - 1];
      ByteLengthBounds(b);
      if EndsHigh(b) {
        EndsHighBytes(b);
        if IsLow(b[0]) {
          LowThenHighBytes(b);
        }
      } else if IsLow(b[0]) {
        LowBytes(b);
      }
    }
  }

  lemma LowBytes(s: Text)
    requires s != [] && IsLow(s[0])
    ensures ByteLength(s) >= 3
  {
  }

  /** The least size a replacement can contribute to any text it ends up in. */
  function Weight(r: Range): nat {
    Max0(ByteLength(r.text) - 4)
  }

  function Minimum(rs: seq<Range>): nat {
    if rs == [] then 0 else Weight(rs[0]) + Minimum(rs[1..])
  }

  lemma {:induction false} MinimumOfConcat(a: seq<Range>, b: seq<Range>)
    ensures Minimum(a + b) == Minimum(a) + Minimum(b)
  {
    if a == [] {
      assert a + b == b;
    } else {
      assert (a + b)[1..] == a[1..] + b;
      MinimumOfConcat(a[1..], b);
    }
  }

  lemma {:induction false} MinimumOfInsert(r: Range, sorted: seq<Range>)
    ensures Minimum(Insert(r, sorted)) == Weight(r) + Minimum(sorted)
  {
    if sorted == [] || r.start < sorted[0].start {
      assert ([r] + sorted)[1..] == sorted;
    } else {
      MinimumOfInsert(r, sorted[1..]);
      assert Insert(r, sorted)[1..] == Insert(r, sorted[1..]);
    }
  }

  lemma {:induction false} MinimumOfSort(ranges: seq<Range>)
    ensures Minimum(SortByStart(ranges)) == Minimum(ranges)
  {
    hide Insert, Weight;
    if ranges != [] {
      var n := |ranges| - 1;
      MinimumOfSort(ranges[..n]);
      MinimumOfInsert(ranges[n], SortByStart(ranges[..n]));
      MinimumOfConcat(ranges[..n], [ranges[n]]);
      assert ranges == ranges[..n] + [ranges[n]];
      assert [ranges[n]][1..] == [];
      assert Minimum([ranges[n]]) == Weight(ranges[n]);
    }
  }

  lemma StableGrows2(a: Text, b: Text, c: Text)
    ensures Stable(a + b + c) >= Stable(a) + Max0(ByteLength(c) - 4)
  {
    StableGrows(a, b);
    StableGrows(a + b, c);
  }

  lemma Regroup(a: Text, b: Text, c: Text, d: Text)
    ensures a + b + c + d == a + (b + c + d)
  {
  }

  /** Whatever text stands before, the substituted rest adds at least the minimum. */
  lemma {:induction false} SubstituteBytes(original: Text, from: nat, rs: seq<Range>, prefix: Text)
    requires Chain(original, from, rs)
    ensures Stable(prefix + Substitute(original, from, rs)) >= Stable(prefix) + Minimum(rs)
    decreases |rs|
  {
    ChainFits(original, from, rs);
    if rs == [] {
      StableGrows(prefix, original[from..]);
    } else {
      var gap, text := original[from..rs[0].start], rs[0].text;
      StableGrows2(prefix, gap, text);
      SubstituteBytes(original, rs[0].end, rs[1..], prefix + gap + text);
      Regroup(prefix, gap, text, Substitute(original, rs[0].end, rs[1..]));
    }
  }

  /** An edit whose final text fits is never refused early, from any subset of its ranges. */
  lemma EarlyRefusalIsSound(original: Text, edits: seq<Edit>, some: seq<Range>, more: seq<Range>)
    requires Resolvable(original, edits) && AllRanges(original, edits) == some + more
    ensures Minimum(some) <= ByteLength(Substituted(original, edits))
  {
    var ranges := AllRanges(original, edits);
    AllRangesInText(original, edits);
    SortMakesChain(original, ranges);
    MinimumOfConcat(some, more);
    MinimumOfSort(ranges);
    SubstituteBytes(original, 0, SortByStart(ranges), []);
    assert [] + Substituted(original, edits) == Substituted(original, edits);
  }

  // ----- joining pieces with a running byte count

  function Join(pieces: seq<Text>): Text {
    if pieces == [] then [] else Join(pieces[..|pieces| - 1]) + pieces[|pieces| - 1]
  }

  /** The pieces written so far, their exact UTF-8 size, and the last code unit. */
  class PieceBuffer {
    var pieces: seq<Text>
    var bytes: int
    var lastCode: Unit

    ghost predicate Valid()
      reads this
    {
      var text := Join(pieces);
      bytes == ByteLength(text) && lastCode == (if text == [] then 0 else text[|text| - 1])
    }

    constructor ()
      ensures Valid() && Join(pieces) == []
    {
      pieces, bytes, lastCode := [], 0, 0;
    }

    lemma BytesAreExact()
      requires Valid()
      ensures bytes == ByteLength(Join(pieces))
    {
    }

    /** Appends a text; false when the stable size is over the limit. */
    method Append(text: Text) returns (ok: bool)
      requires Valid()
      requires Stable(Join(pieces)) <= MAX_FILE_BYTES
      modifies this
      ensures ok <==> Stable(old(Join(pieces)) + text) <= MAX_FILE_BYTES
      ensures ok ==> Valid() && Join(pieces) == old(Join(pieces)) + text
    {
      ghost var before := Join(pieces);
      if |text| == 0 {
        assert before + text == before;
        return true;
      }
      ByteLengthOfJoin(before, text);
      assert (before + text)[|before + text| - 1] == text[|text| - 1];
      var firstCode := text[0];
      bytes := bytes + ByteLength(text) - (if IsHigh(lastCode) && IsLow(firstCode) then 2 else 0);
      lastCode := text[|text| - 1];
      if bytes - (if IsHigh(lastCode) then 2 else 0) > MAX_FILE_BYTES {
        return false;
      }
      assert (pieces + [text])[..|pieces|] == pieces;
      pieces := pieces + [text];
      return true;
    }
  }

  // ----- regions

  /** The regions of a chain that starts at position from of the original, with the text so
      far at position at of the result. */
  function RegionsOf(from: nat, at: nat, rs: seq<Range>): (regions: seq<Region>)
    ensures |regions| == |rs|
    decreases |rs|
  {
    if rs == [] then []
    else
      var start := at + Max0(rs[0].start - from);
      var end := start + |rs[0].text|;
      [Region(rs[0].start, rs[0].end, start, end)] + RegionsOf(rs[0].end, end, rs[1..])
  }

  lemma SubstituteSlices(original: Text, from: nat, rs: seq<Range>, final: Text, at: nat)
    requires rs != [] && Chain(original, from, rs)
    requires at <= |final| && final[at..] == Substitute(original, from, rs)
    ensures from <= rs[0].start <= rs[0].end <= |original|
    ensures var start := at + (rs[0].start - from);
            var end := start + |rs[0].text|;
            && end <= |final| && final[at..start] == original[from..rs[0].start]
            && final[start..end] == rs[0].text
            && final[end..] == Substitute(original, rs[0].end, rs[1..])
  {
    ChainFits(original, from, rs);
    var gap, text, rest := original[from..rs[0].start], rs[0].text, Substitute(original, rs[0].end, rs[1..]);
    assert final[at..] == gap + text + rest;
    var start := at + |gap|;
    var end := start + |text|;
    assert final[at..start] == final[at..][..|gap|];
    assert final[start..end] == final[at..][|gap|..|gap| + |text|];
    assert final[end..] == final[at..][|gap| + |text|..];
  }

  lemma {:induction false} SubstituteAligned(original: Text, from: nat, rs: seq<Range>, final: Text, at: nat)
    requires Chain(original, from, rs)
    requires at <= |final| && final[at..] == Substitute(original, from, rs)
    ensures Aligned(original, final, from, at, RegionsOf(from, at, rs))
    decreases |rs|
  {
    hide Substitute;
    ChainFits(original, from, rs);
    if rs == [] {
      ChainDone(original, from, at);
    } else {
      SubstituteSlices(original, from, rs, final, at);
      var end := at + (rs[0].start - from) + |rs[0].text|;
      SubstituteAligned(original, rs[0].end, rs[1..], final, end);
      assert RegionsOf(from, at, rs)[1..] == RegionsOf(rs[0].end, end, rs[1..]);
    }
  }

  lemma {:induction false} SubstituteReplaces(original: Text, from: nat, rs: seq<Range>, final: Text, at: nat, i: nat)
    requires Chain(original, from, rs) && i < |rs|
    requires at <= |final| && final[at..] == Substitute(original, from, rs)
    ensures var region := RegionsOf(from, at, rs)[i];
            && region.beforeStart == rs[i].start && region.beforeEnd == rs[i].end
            && region.afterStart <= region.afterEnd <= |final|
            && final[region.afterStart..region.afterEnd] == rs[i].text
    decreases |rs|
  {
    hide Substitute;
    SubstituteSlices(original, from, rs, final, at);
    if i > 0 {
      var end := at + (rs[0].start - from) + |rs[0].text|;
      ChainFits(original, from, rs);
      SubstituteReplaces(original, rs[0].end, rs[1..], final, end, i - 1);
      assert RegionsOf(from, at, rs)[i] == RegionsOf(rs[0].end, end, rs[1..])[i - 1];
    }
  }

  lemma ChainDone(original: Text, end: nat, written: nat)
    requires Chain(original, end, [])
    ensures end <= |original| && Substitute(original, end, []) == original[end..] && RegionsOf(end, written, []) == []
  {
  }

  // ----- resolving anchors

  ghost predicate Covered(ranges: seq<Range>, i: int) {
    exists k | 0 <= k < |ranges| :: ranges[k].start <= i < ranges[k].end
  }

  /** The occupancy map marks exactly the claimed positions. */
  ghost predicate Marks(occupied: seq<bool>, ranges: seq<Range>) {
    forall i | 0 <= i < |occupied| :: occupied[i] <==> Covered(ranges, i)
  }

  lemma FreeMeansApart(occupied: seq<bool>, ranges: seq<Range>, r: Range)
    requires Marks(occupied, ranges)
    requires forall k | 0 <= k < |ranges| :: ranges[k].start < ranges[k].end <= |occupied|
    requires r.start < r.end <= |occupied|
    ensures true !in occupied[r.start..r.end] <==> forall k | 0 <= k < |ranges| :: Apart(ranges[k], r)
  {
    if true in occupied[r.start..r.end] {
      var i :| r.start <= i < r.end && occupied[i];
      var k :| 0 <= k < |ranges| && ranges[k].start <= i < ranges[k].end;
      assert !Apart(ranges[k], r);
    } else {
      forall i | r.start <= i < r.end
        ensures !Covered(ranges, i)
      {
        assert occupied[r.start..r.end][i - r.start] == occupied[i];
      }
      forall k | 0 <= k < |ranges|
        ensures Apart(ranges[k], r)
      {
        var i := if ranges[k].start < r.start then r.start else ranges[k].start;
        assert ranges[k].start <= i < ranges[k].end ==> Covered(ranges, i);
      }
    }
  }

  lemma MarksMore(occupied: seq<bool>, ranges: seq<Range>, r: Range, marked: seq<bool>)
    requires Marks(occupied, ranges) && |marked| == |occupied|
    requires forall i | 0 <= i < |marked| :: marked[i] == (occupied[i] || r.start <= i < r.end)
    ensures Marks(marked, ranges + [r])
  {
    forall i | 0 <= i < |marked|
      ensures marked[i] <==> Covered(ranges + [r], i)
    {
      if Covered(ranges, i) {
        var k :| 0 <= k < |ranges| && ranges[k].start <= i < ranges[k].end;
        assert (ranges + [r])[k] == ranges[k];
      }
      if r.start <= i < r.end {
        assert (ranges + [r])[|ranges|] == r;
      }
      if Covered(ranges + [r], i) {
        var k :| 0 <= k < |ranges + [r]| && (ranges + [r])[k].start <= i < (ranges + [r])[k].end;
        assert k < |ranges| ==> Covered(ranges, i);
      }
    }
  }

  /** Occurrences still to claim, the next one being at start. */
  function Pending(original: Text, e: Edit, start: int): seq<nat>
    requires e.oldText != []
  {
    if start < 0 then [] else if e.all then Occurrences(original, e.oldText, start) else [start as nat]
  }

  lemma PendingStep(original: Text, e: Edit, start: nat)
    requires e.oldText != [] && OccursAt(original, e.oldText, start)
    ensures var next := if e.all then IndexOf(original, e.oldText, start + |e.oldText|) else -1;
            && Pending(original, e, start) == [start] + Pending(original, e, next)
            && if next < 0 then Pending(original, e, next) == [] else OccursAt(original, e.oldText, next)
  {
    hide IndexOf, OccursAt, Occurrences;
    FoundAtStart(original, e.oldText, start);
    if e.all {
      var next := IndexOf(original, e.oldText, start + |e.oldText|);
      UnfoldOccurrences(original, e.oldText, start);
      UnfoldOccurrences(original, e.oldText, start + |e.oldText|);
      IndexOfIsFirst(original, e.oldText, start + |e.oldText|);
      if next >= 0 {
        FoundAtStart(original, e.oldText, next);
        UnfoldOccurrences(original, e.oldText, next);
      }
    }
  }

  lemma PendingAtFirst(original: Text, e: Edit)
    requires EditResolves(original, e)
    ensures e.oldText != [] && IndexOf(original, e.oldText, 0) >= 0
    ensures OccursAt(original, e.oldText, IndexOf(original, e.oldText, 0))
    ensures Claims(e, Pending(original, e, IndexOf(original, e.oldText, 0))) == EditRanges(original, e)
  {
    hide IndexOf, OccursAt, Occurrences, Claims;
    var first := IndexOf(original, e.oldText, 0);
    IndexOfIsFirst(original, e.oldText, 0);
    FoundAtStart(original, e.oldText, first);
    UnfoldOccurrences(original, e.oldText, 0);
    UnfoldOccurrences(original, e.oldText, first);
  }

  datatype Claim = Claimed(ranges: seq<Range>, minimum: nat) | Refused(error: Error)

  /** The ranges claimed so far are usable and fully accounted. */
  ghost predicate Ledger(original: Text, ranges: seq<Range>, minimum: nat) {
    && InText(original, ranges) && Disjoint(ranges) && |ranges| <= MAX_OCCURRENCES
    && minimum == Minimum(ranges) && minimum <= MAX_FILE_BYTES
  }

  ghost predicate RefusalReason(original: Text, claimed: seq<Range>, error: Error) {
    || (error == Overlap && !Disjoint(claimed))
    || (error == TooMany && |claimed| > MAX_OCCURRENCES)
    || (error == ProposedTooLarge && exists n :: 0 <= n <= |claimed| && Minimum(claimed[..n]) > MAX_FILE_BYTES)
  }

  /** Claims one occurrence of an edit, or says why it cannot be claimed. */
  method ClaimOne(original: Text, e: Edit, start: nat, ranges: seq<Range>, occupied: array<bool>, minimum: nat)
    returns (claim: Claim)
    requires e.oldText != [] && OccursAt(original, e.oldText, start)
    requires Ledger(original, ranges, minimum)
    requires occupied.Length == |original| && Marks(occupied[..], ranges)
    modifies occupied
    ensures var r := Range(start, start + |e.oldText|, e.newText);
            match claim
            case Claimed(more, m) =>
              more == ranges + [r] && Ledger(original, more, m) && Marks(occupied[..], more)
            case Refused(error) => RefusalReason(original, ranges + [r], error)
  {
    var end := start + |e.oldText|;
    var r := Range(start, end, e.newText);
    ghost var was := occupied[..];
    FreeMeansApart(was, ranges, r);
    assert was[start..end] == occupied[start..end];
    if true in occupied[start..end] {
      ghost var k :| 0 <= k < |ranges| && !Apart(ranges[k], r);
      assert (ranges + [r])[k] == ranges[k] && (ranges + [r])[|ranges|] == r;
      return Refused(Overlap);
    }
    if |ranges| >= MAX_OCCURRENCES {
      return Refused(TooMany);
    }
    var m := minimum + Max0(ByteLength(e.newText) - 4);
    MinimumOfConcat(ranges, [r]);
    assert Minimum([r]) == Weight(r) by {
      assert [r][1..] == [];
    }
    if m > MAX_FILE_BYTES {
      assert (ranges + [r])[..|ranges| + 1] == ranges + [r];
      return Refused(ProposedTooLarge);
    }
    forall i | start <= i < end {
      occupied[i] := true;
    }
    MarksMore(was, ranges, r, occupied[..]);
    return Claimed(ranges + [r], m);
  }

  lemma RefusalExtends(original: Text, claimed: seq<Range>, more: seq<Range>, error: Error)
    requires RefusalReason(original, claimed, error)
    ensures RefusalReason(original, claimed + more, error)
  {
    if error == Overlap {
      var i, j :| 0 <= i < j < |claimed| && !Apart(claimed[i], claimed[j]);
      assert (claimed + more)[i] == claimed[i] && (claimed + more)[j] == claimed[j];
    } else if error == ProposedTooLarge {
      var n :| 0 <= n <= |claimed| && Minimum(claimed[..n]) > MAX_FILE_BYTES;
      assert (claimed + more)[..n] == claimed[..n];
    }
  }

  lemma ClaimsStep(e: Edit, ranges: seq<Range>, start: nat, rest: seq<nat>)
    ensures ranges + Claims(e, [start] + rest) == ranges + [Range(start, start + |e.oldText|, e.newText)] + Claims(e, rest)
  {
    assert Claims(e, [start] + rest) == [Range(start, start + |e.oldText|, e.newText)] + Claims(e, rest);
  }

  /** Claims every wanted occurrence of one edit. */
  method ClaimEdit(original: Text, e: Edit, before: seq<Range>, occupied: array<bool>, minimum: nat)
    returns (claim: Claim)
    requires EditResolves(original, e)
    requires Ledger(original, before, minimum)
    requires occupied.Length == |original| && Marks(occupied[..], before)
    modifies occupied
    ensures match claim
            case Claimed(more, m) =>
              more == before + EditRanges(original, e) && Ledger(original, more, m) && Marks(occupied[..], more)
            case Refused(error) => RefusalReason(original, before + EditRanges(original, e), error)
  {
    hide *;
    PendingAtFirst(original, e);
    var start := IndexOf(original, e.oldText, 0);
    claim := Claimed(before, minimum);
    ghost var target := before + EditRanges(original, e);
    while start >= 0
      invariant claim.Claimed? && target == claim.ranges + Claims(e, Pending(original, e, start))
      invariant if start < 0 then Pending(original, e, start) == [] else OccursAt(original, e.oldText, start)
      invariant Ledger(original, claim.ranges, claim.minimum) && Marks(occupied[..], claim.ranges)
      decreases |Pending(original, e, start)|
    {
      PendingStep(original, e, start);
      var next := if e.all then IndexOf(original, e.oldText, start + |e.oldText|) else -1;
      ghost var rest := Pending(original, e, next);
      ClaimsStep(e, claim.ranges, start, rest);
      ghost var more := claim.ranges + [Range(start, start + |e.oldText|, e.newText)];
      claim := ClaimOne(original, e, start, claim.ranges, occupied, claim.minimum);
      if claim.Refused? {
        RefusalExtends(original, more, Claims(e, rest), claim.error);
        return;
      }
      start := next;
    }
    assert claim.ranges + [] == claim.ranges;
  }

  // ----- the whole edit

  ghost predicate Acceptable(original: Text, edits: seq<Edit>) {
    && ByteLength(original) <= MAX_FILE_BYTES
    && Resolvable(original, edits)
    && ByteLength(Substituted(original, edits)) <= MAX_FILE_BYTES
  }

  /** What each refusal says about its input. */
  ghost predicate Reason(original: Text, edits: seq<Edit>, error: Error) {
    match error
    case OriginalTooLarge => ByteLength(original) > MAX_FILE_BYTES
    case EmptyAnchor => exists e :: e in edits && e.oldText == []
    case NotFound => exists e :: e in edits && e.oldText != [] && IndexOf(original, e.oldText, 0) < 0
    case NotUnique => exists e :: e in edits && e.oldText != [] && !e.all && !EditResolves(original, e) && IndexOf(original, e.oldText, 0) >= 0
    case Overlap => (forall e | e in edits :: EditResolves(original, e)) ==> !Disjoint(AllRanges(original, edits))
    case TooMany => (forall e | e in edits :: EditResolves(original, e)) ==> |AllRanges(original, edits)| > MAX_OCCURRENCES
    case ProposedTooLarge => Resolvable(original, edits) ==> ByteLength(Substituted(original, edits)) > MAX_FILE_BYTES
  }

  lemma EarlyRefusal(original: Text, edits: seq<Edit>)
    requires forall e | e in edits :: EditResolves(original, e)
    requires RefusalReason(original, AllRanges(original, edits), ProposedTooLarge)
    ensures Resolvable(original, edits) ==> ByteLength(Substituted(original, edits)) > MAX_FILE_BYTES
  {
    if Resolvable(original, edits) {
      hide *;
      var all := AllRanges(original, edits);
      var k := SomeEarlySum(original, all);
      assert all == all[..k] + all[k..];
      EarlyRefusalIsSound(original, edits, all[..k], all[k..]);
    }
  }

  lemma SomeEarlySum(original: Text, claimed: seq<Range>) returns (k: nat)
    requires RefusalReason(original, claimed, ProposedTooLarge)
    ensures k <= |claimed| && Minimum(claimed[..k]) > MAX_FILE_BYTES
  {
    k :| 0 <= k <= |claimed| && Minimum(claimed[..k]) > MAX_FILE_BYTES;
  }

  lemma RefusedPrefix(original: Text, edits: seq<Edit>, n: nat, error: Error)
    requires n <= |edits| && forall e | e in edits :: EditResolves(original, e)
    requires RefusalReason(original, AllRanges(original, edits[..n]), error)
    ensures RefusalReason(original, AllRanges(original, edits), error)
  {
    hide RefusalReason;
    AllRangesGrow(original, edits, n);
    var claimed, all := AllRanges(original, edits[..n]), AllRanges(original, edits);
    RefusalExtends(original, claimed, all[|claimed|..], error);
    assert claimed + all[|claimed|..] == all;
  }

  lemma RefusalIsReason(original: Text, edits: seq<Edit>, n: nat, error: Error)
    requires n <= |edits| && forall e | e in edits[..n] :: EditResolves(original, e)
    requires RefusalReason(original, AllRanges(original, edits[..n]), error)
    ensures Reason(original, edits, error) && !Acceptable(original, edits)
  {
    hide Substituted, AllRanges, EditResolves;
    if forall e | e in edits :: EditResolves(original, e) {
      RefusedPrefix(original, edits, n, error);
      if error == ProposedTooLarge {
        EarlyRefusal(original, edits);
      }
    }
  }

  /** An edit that does not resolve is refused for the first of its three faults. */
  lemma UnresolvedIsReason(original: Text, edits: seq<Edit>, e: Edit)
    requires e in edits && !EditResolves(original, e)
    ensures !Acceptable(original, edits)
    ensures Reason(original, edits,
                   if e.oldText == [] then EmptyAnchor else if IndexOf(original, e.oldText, 0) < 0 then NotFound else NotUnique)
  {
    hide Substituted, AllRanges, IndexOf;
  }

  datatype Resolution = Resolved(ranges: seq<Range>) | Unresolved(error: Error)

  /** Resolves every anchor against the original snapshot. */
  method ResolveAnchors(original: Text, edits: seq<Edit>) returns (res: Resolution)
    ensures res.Resolved? ==> Resolvable(original, edits) && res.ranges == AllRanges(original, edits)
    ensures res.Unresolved? ==> Reason(original, edits, res.error) && !Acceptable(original, edits)
  {
    hide Disjoint, InText, Reason, RefusalReason, Acceptable, Substituted, IndexOf;
    var occupied := new bool[|original|](i => false);
    var claim := Claimed([], 0);
    NothingClaimed(original, occupied[..]);
    for k := 0 to |edits|
      invariant forall e | e in edits[..k] :: EditResolves(original, e)
      invariant claim.Claimed? && claim.ranges == AllRanges(original, edits[..k])
      invariant Ledger(original, claim.ranges, claim.minimum) && Marks(occupied[..], claim.ranges)
    {
      var e := edits[k];
      assert edits[..k + 1] == edits[..k] + [e];
      if !EditResolves(original, e) {
        UnresolvedIsReason(original, edits, e);
      }
      if e.oldText == [] {
        return Unresolved(EmptyAnchor);
      }
      var first := IndexOf(original, e.oldText, 0);
      if first < 0 {
        return Unresolved(NotFound);
      }
      if !e.all && IndexOf(original, e.oldText, first + 1) >= 0 {
        return Unresolved(NotUnique);
      }
      claim := ClaimEdit(original, e, claim.ranges, occupied, claim.minimum);
      assert edits[..k + 1][..k] == edits[..k];
      if claim.Refused? {
        RefusalIsReason(original, edits, k + 1, claim.error);
        return Unresolved(claim.error);
      }
    }
    assert edits[..|edits|] == edits;
    return Resolved(claim.ranges);
  }

  lemma NothingClaimed(original: Text, occupied: seq<bool>)
    requires |occupied| == |original| && forall i | 0 <= i < |occupied| :: !occupied[i]
    ensures Ledger(original, [], 0) && Marks(occupied, [])
  {
  }

  /** Replaces every resolved range at once. The outcome is decided by the input alone: the edit
      is made exactly when it is acceptable, and then the text is the simultaneous substitution. */
  method ApplyLocalEditsWithRegions(original: Text, edits: seq<Edit>) returns (outcome: Outcome)
    ensures outcome.Applied? <==> Acceptable(original, edits)
    ensures outcome.Applied? ==>
              && outcome.text == Substituted(original, edits)
              && outcome.regions == RegionsOf(0, 0, SortByStart(AllRanges(original, edits)))
    ensures outcome.Applied? ==>
              exists choices ::
                && Chosen(original, edits, choices) && Makeable(original, edits, choices)
                && Delivers(original, edits, choices, outcome.text, outcome.regions)
    ensures outcome.Failed? ==> Reason(original, edits, outcome.error)
  {
    hide Disjoint, InText, Substitute, RegionsOf, SortByStart, AllRanges, EditResolves;
    if ByteLength(original) > MAX_FILE_BYTES {
      return Failed(OriginalTooLarge);
    }
    var res := ResolveAnchors(original, edits);
    if res.Unresolved? {
      return Failed(res.error);
    }
    AllRangesInText(original, edits);
    SortMakesChain(original, res.ranges);
    var ranges := SortByStart(res.ranges);
    outcome := ReplaceRanges(original, ranges);
    if outcome.Applied? {
      AppliedIsChosen(original, edits);
    }
  }

  lemma AppliedIsChosen(original: Text, edits: seq<Edit>)
    requires Resolvable(original, edits)
    ensures exists choices ::
              && Chosen(original, edits, choices) && Makeable(original, edits, choices)
              && Delivers(original, edits, choices, Substituted(original, edits), RegionsOf(0, 0, SortByStart(AllRanges(original, edits))))
  {
    var choices := ChoicesOf(original, edits);
    hide *;
    ResolvableResolves(original, edits);
    ChoicesAreChosen(original, edits);
    ResolvableMeans(original, edits, choices);
    AppliedDelivers(original, edits, choices);
  }

  /** One step of the substitution and of its regions. */
  lemma ChainStep(original: Text, end: nat, written: nat, rs: seq<Range>)
    requires rs != [] && Chain(original, end, rs)
    ensures end <= rs[0].start <= rs[0].end <= |original| && Chain(original, rs[0].end, rs[1..])
    ensures Substitute(original, end, rs) == original[end..rs[0].start] + rs[0].text + Substitute(original, rs[0].end, rs[1..])
    ensures var start := written + (rs[0].start - end);
            RegionsOf(end, written, rs)
            == [Region(rs[0].start, rs[0].end, start, start + |rs[0].text|)] + RegionsOf(rs[0].end, start + |rs[0].text|, rs[1..])
  {
    ChainFits(original, end, rs);
  }

  /** The second loop: copies gaps and replacements in order, counting bytes as it goes. */
  method ReplaceRanges(original: Text, ranges: seq<Range>) returns (outcome: Outcome)
    requires Chain(original, 0, ranges)
    ensures outcome.Applied? <==> ByteLength(Substitute(original, 0, ranges)) <= MAX_FILE_BYTES
    ensures outcome == if outcome.Applied? then Applied(Substitute(original, 0, ranges), RegionsOf(0, 0, ranges))
                       else Failed(ProposedTooLarge)
  {
    hide *;
    EmptyIsStable();
    var buffer := new PieceBuffer();
    var end: nat, written: nat := 0, 0;
    var regions: seq<Region> := [];
    ghost var final := Substitute(original, 0, ranges);
    assert ranges[0..] == ranges;
    for k := 0 to |ranges|
      invariant buffer.Valid() && Stable(Join(buffer.pieces)) <= MAX_FILE_BYTES
      invariant Chain(original, end, ranges[k..])
      invariant final == Join(buffer.pieces) + Substitute(original, end, ranges[k..])
      invariant written == |Join(buffer.pieces)|
      invariant RegionsOf(0, 0, ranges) == regions + RegionsOf(end, written, ranges[k..])
    {
      var range := ranges[k];
      ghost var rest := ranges[k + 1..];
      assert ranges[k..][0] == range && ranges[k..][1..] == rest;
      ChainStep(original, end, written, ranges[k..]);
      if range.start < end {
        assert false;
      }
      var gap := original[end..range.start];
      ghost var built, tail := Join(buffer.pieces), Substitute(original, range.end, rest);
      Regroup(built, gap, range.text, tail);
      var ok := buffer.Append(gap);
      if !ok {
        TooLargeStaysTooLarge(built + gap, range.text + tail);
        Regroup3(built, gap, range.text, tail);
        return Failed(ProposedTooLarge);
      }
      ok := buffer.Append(range.text);
      if !ok {
        TooLargeStaysTooLarge(built + gap + range.text, tail);
        return Failed(ProposedTooLarge);
      }
      written := written + |gap|;
      var afterStart := written;
      written := written + |range.text|;
      regions := regions + [Region(range.start, range.end, afterStart, written)];
      end := range.end;
    }
    assert ranges[|ranges|..] == [];
    ChainDone(original, end, written);
    ghost var built := Join(buffer.pieces);
    var ok := buffer.Append(original[end..]);
    if !ok {
      TooLargeStaysTooLarge(final, []);
      assert final + [] == final;
      return Failed(ProposedTooLarge);
    }
    buffer.BytesAreExact();
    if buffer.bytes > MAX_FILE_BYTES {
      return Failed(ProposedTooLarge);
    }
    return Applied(Join(buffer.pieces), regions);
  }

  lemma EmptyIsStable()
    ensures Stable([]) <= MAX_FILE_BYTES
  {
  }

  lemma Regroup3(a: Text, b: Text, c: Text, d: Text)
    ensures a + b + (c + d) == a + (b + c + d)
  {
  }

  lemma TooLargeStaysTooLarge(a: Text, b: Text)
    requires Stable(a) > MAX_FILE_BYTES
    ensures ByteLength(a + b) > MAX_FILE_BYTES
  {
    StableGrows(a, b);
  }

  /** What an applied edit delivers: sorted disjoint regions, each the replacement of an anchor
      occurrence, and everything between them copied. */
  lemma AppliedEditIsSimultaneous(original: Text, edits: seq<Edit>)
    requires Resolvable(original, edits)
    ensures var sorted := SortByStart(AllRanges(original, edits));
            var regions := RegionsOf(0, 0, sorted);
            && multiset(sorted) == multiset(AllRanges(original, edits))
            && Aligned(original, Substituted(original, edits), 0, 0, regions)
            && Replaced(Substituted(original, edits), regions, Texts(sorted))
            && forall i | 0 <= i < |sorted| ::
                 regions[i].beforeStart == sorted[i].start && regions[i].beforeEnd == sorted[i].end
  {
    AllRangesInText(original, edits);
    SortMakesChain(original, AllRanges(original, edits));
    var final := Substituted(original, edits);
    assert final[0..] == final;
    var sorted := SortByStart(AllRanges(original, edits));
    SubstituteAligned(original, 0, sorted, final, 0);
    forall i | 0 <= i < |sorted|
      ensures var region := RegionsOf(0, 0, sorted)[i];
              && region.beforeStart == sorted[i].start && region.beforeEnd == sorted[i].end
              && region.afterStart <= region.afterEnd <= |final|
              && final[region.afterStart..region.afterEnd] == sorted[i].text
    {
      SubstituteReplaces(original, 0, sorted, final, 0, i);
    }
  }

  /** The range is an occurrence of the edit's anchor, to be replaced by its new text. */
  predicate Anchors(original: Text, e: Edit, r: Range) {
    r.text == e.newText && r.end == r.start + |e.oldText| && OccursAt(original, e.oldText, r.start)
  }

  lemma EditRangesAreAnchors(original: Text, e: Edit)
    requires EditResolves(original, e)
    ensures forall r | r in EditRanges(original, e) :: Anchors(original, e, r)
  {
    hide IndexOf, Occurrences, OccursAt;
    IndexOfIsFirst(original, e.oldText, 0);
    ChoicesOccur(original, e.oldText, 0);
  }

  /** Every range of an edit list anchors some edit of the list. */
  lemma {:induction false} RangesAreAnchors(original: Text, edits: seq<Edit>, i: nat) returns (e: Edit)
    requires forall e | e in edits :: EditResolves(original, e)
    requires i < |AllRanges(original, edits)|
    ensures e in edits && Anchors(original, e, AllRanges(original, edits)[i])
  {
    hide Anchors, EditResolves, EditRanges;
    var n := |edits| - 1;
    assert edits[n] in edits;
    var earlier := AllRanges(original, edits[..n]);
    if i < |earlier| {
      e := RangesAreAnchors(original, edits[..n], i);
    } else {
      e := edits[n];
      EditRangesAreAnchors(original, e);
      assert AllRanges(original, edits)[i] == EditRanges(original, e)[i - |earlier|];
    }
  }

  // ----- the edit in terms of the anchors' leftmost choices alone

  /** A leftmost choice of occurrences for every edit; there is exactly one if no anchor is empty. */
  ghost predicate Chosen(original: Text, edits: seq<Edit>, choices: seq<seq<nat>>) {
    && |choices| == |edits|
    && forall k | 0 <= k < |edits| :: edits[k].oldText != [] && IsLeftmostChoice(original, edits[k].oldText, 0, choices[k])
  }

  function Lengths(choices: seq<seq<nat>>): nat {
    if choices == [] then 0 else Lengths(choices[..|choices| - 1]) + |choices[|choices| - 1]|
  }

  /** Some region replaces this stretch of the original by this text. */
  ghost predicate HasRegion(text: Text, regions: seq<Region>, start: nat, end: nat, newText: Text) {
    exists n | 0 <= n < |regions| ::
      && regions[n].beforeStart == start && regions[n].beforeEnd == end
      && regions[n].afterStart <= regions[n].afterEnd <= |text|
      && text[regions[n].afterStart..regions[n].afterEnd] == newText
  }

  /** Every chosen occurrence of every anchor is replaced by its edit's new text, nothing else is,
      and all the rest is copied. */
  ghost predicate Delivers(original: Text, edits: seq<Edit>, choices: seq<seq<nat>>, text: Text, regions: seq<Region>)
    requires |choices| == |edits|
  {
    && Aligned(original, text, 0, 0, regions)
    && |regions| == Lengths(choices)
    && forall k, i | 0 <= k < |edits| && 0 <= i < |choices[k]| ::
         HasRegion(text, regions, choices[k][i], choices[k][i] + |edits[k].oldText|, edits[k].newText)
  }

  /** Every anchor occurs, once only unless all occurrences are wanted; no two chosen occurrences
      overlap; and there are not too many. */
  ghost predicate Makeable(original: Text, edits: seq<Edit>, choices: seq<seq<nat>>)
    requires |choices| == |edits|
  {
    && (forall k | 0 <= k < |edits| :: choices[k] != [] && (edits[k].all || IsOnlyOccurrence(original, edits[k].oldText, choices[k][0])))
    && (forall k, i, l, j | 0 <= k < |edits| && 0 <= i < |choices[k]| && 0 <= l < |edits| && 0 <= j < |choices[l]| && (k != l || i != j) ::
          choices[k][i] + |edits[k].oldText| <= choices[l][j] || choices[l][j] + |edits[l].oldText| <= choices[k][i])
    && Lengths(choices) <= MAX_OCCURRENCES
  }

  ghost predicate IsOnlyOccurrence(s: Text, anchor: Text, at: nat) {
    forall i: nat :: OccursAt(s, anchor, i) <==> i == at
  }

  function ChoicesOf(original: Text, edits: seq<Edit>): (choices: seq<seq<nat>>)
    requires forall e | e in edits :: e.oldText != []
    ensures |choices| == |edits| && forall k | 0 <= k < |edits| :: choices[k] == Occurrences(original, edits[k].oldText, 0)
  {
    seq(|edits|, k requires 0 <= k < |edits| => Occurrences(original, edits[k].oldText, 0))
  }

  lemma ChoicesAreChosen(original: Text, edits: seq<Edit>)
    requires forall e | e in edits :: e.oldText != []
    ensures Chosen(original, edits, ChoicesOf(original, edits))
  {
    hide Occurrences, IsLeftmostChoice;
    forall k | 0 <= k < |edits|
      ensures IsLeftmostChoice(original, edits[k].oldText, 0, ChoicesOf(original, edits)[k])
    {
      OccurrencesAreLeftmost(original, edits[k].oldText, 0);
    }
  }

  /** An edit resolves exactly if its anchor occurs, once only unless all are wanted. */
  lemma EditResolvesMeans(original: Text, e: Edit, at: seq<nat>)
    requires e.oldText != [] && IsLeftmostChoice(original, e.oldText, 0, at)
    ensures EditResolves(original, e) <==> at != [] && (e.all || IsOnlyOccurrence(original, e.oldText, at[0]))
    ensures EditResolves(original, e) ==> EditRanges(original, e) == Claims(e, at)
  {
    hide OccursAt, IndexOf, Occurrences;
    LeftmostChoiceIsUnique(original, e.oldText, 0, at);
    UnfoldOccurrences(original, e.oldText, 0);
    IndexOfIsFirst(original, e.oldText, 0);
    var first := IndexOf(original, e.oldText, 0);
    if first >= 0 {
      IndexOfIsFirst(original, e.oldText, first + 1);
      IndexOfIsFirst(original, e.oldText, first + |e.oldText|);
      UnfoldOccurrences(original, e.oldText, first + |e.oldText|);
    }
  }

  /** The range of the i-th choice of the k-th edit. */
  function RangeAt(edits: seq<Edit>, choices: seq<seq<nat>>, k: nat, i: nat): Range
    requires |choices| == |edits| && k < |edits| && i < |choices[k]|
  {
    Range(choices[k][i], choices[k][i] + |edits[k].oldText|, edits[k].newText)
  }

  ghost predicate IsPlace(choices: seq<seq<nat>>, n: nat, k: nat, i: nat) {
    k < |choices| && i < |choices[k]| && n == Lengths(choices[..k]) + i
  }

  lemma {:induction false} PlaceFits(choices: seq<seq<nat>>, k: nat)
    requires k < |choices|
    ensures Lengths(choices[..k]) + |choices[k]| == Lengths(choices[..k + 1]) <= Lengths(choices)
    decreases |choices| - k
  {
    assert choices[..k + 1][..k] == choices[..k];
    if k + 1 == |choices| {
      assert choices[..k + 1] == choices;
    } else {
      PlaceFits(choices, k + 1);
    }
  }

  /** No two choices have the same place. */
  lemma PlacesDiffer(choices: seq<seq<nat>>, n: nat, m: nat, k: nat, i: nat, l: nat, j: nat)
    requires IsPlace(choices, n, k, i) && IsPlace(choices, m, l, j) && (k != l || i != j)
    ensures n != m && n < Lengths(choices) && m < Lengths(choices)
  {
    hide Lengths;
    PlaceFits(choices, k);
    PlaceFits(choices, l);
    if k < l {
      PlacesGrow(choices, k + 1, l);
    } else if l < k {
      PlacesGrow(choices, l + 1, k);
    }
  }

  lemma {:induction false} PlacesGrow(choices: seq<seq<nat>>, k: nat, l: nat)
    requires k <= l <= |choices|
    ensures Lengths(choices[..k]) <= Lengths(choices[..l])
    decreases l - k
  {
    if k < l {
      PlaceFits(choices, k);
      PlacesGrow(choices, k + 1, l);
    }
  }

  lemma {:induction false} SomePlace(choices: seq<seq<nat>>, n: nat) returns (k: nat, i: nat)
    requires n < Lengths(choices)
    ensures IsPlace(choices, n, k, i)
  {
    var last := |choices| - 1;
    if n < Lengths(choices[..last]) {
      k, i := SomePlace(choices[..last], n);
      assert choices[..last][..k] == choices[..k];
    } else {
      k, i := last, n - Lengths(choices[..last]);
    }
  }

  /** The claimed ranges are those of the choices, in order. */
  lemma {:induction false} AllRangesAreChoices(original: Text, edits: seq<Edit>, choices: seq<seq<nat>>)
    requires Chosen(original, edits, choices) && forall e | e in edits :: EditResolves(original, e)
    ensures |choices| == |edits| && |AllRanges(original, edits)| == Lengths(choices)
    ensures forall n: nat, k: nat, i: nat | IsPlace(choices, n, k, i) ::
              n < |AllRanges(original, edits)| && AllRanges(original, edits)[n] == RangeAt(edits, choices, k, i)
  {
    hide IsLeftmostChoice, EditResolves, EditRanges;
    if edits != [] {
      var last := |edits| - 1;
      var e := edits[last];
      assert e in edits;
      AllRangesAreChoices(original, edits[..last], choices[..last]);
      EditResolvesMeans(original, e, choices[last]);
      assert choices[..|choices| - 1] == choices[..last];
      forall n: nat, k: nat, i: nat | IsPlace(choices, n, k, i)
        ensures n < |AllRanges(original, edits)| && AllRanges(original, edits)[n] == RangeAt(edits, choices, k, i)
      {
        if k < last {
          assert choices[..last][..k] == choices[..k];
          assert IsPlace(choices[..last], n, k, i);
        }
      }
    }
  }

  lemma ApartMeans(original: Text, edits: seq<Edit>, choices: seq<seq<nat>>)
    requires Chosen(original, edits, choices) && forall e | e in edits :: EditResolves(original, e)
    ensures Disjoint(AllRanges(original, edits)) <==>
            forall k, i, l, j | 0 <= k < |edits| && 0 <= i < |choices[k]| && 0 <= l < |edits| && 0 <= j < |choices[l]| && (k != l || i != j) ::
              choices[k][i] + |edits[k].oldText| <= choices[l][j] || choices[l][j] + |edits[l].oldText| <= choices[k][i]
  {
    hide IsLeftmostChoice, EditResolves, EditRanges, AllRanges, Lengths;
    var all := AllRanges(original, edits);
    AllRangesAreChoices(original, edits, choices);
    if Disjoint(all) {
      forall k, i, l, j | 0 <= k < |edits| && 0 <= i < |choices[k]| && 0 <= l < |edits| && 0 <= j < |choices[l]| && (k != l || i != j)
        ensures choices[k][i] + |edits[k].oldText| <= choices[l][j] || choices[l][j] + |edits[l].oldText| <= choices[k][i]
      {
        var n, m := Lengths(choices[..k]) + i, Lengths(choices[..l]) + j;
        assert IsPlace(choices, n, k, i) && IsPlace(choices, m, l, j);
        PlacesDiffer(choices, n, m, k, i, l, j);
        assert Apart(all[n], all[m]) || Apart(all[m], all[n]);
      }
    }
    if forall k, i, l, j | 0 <= k < |edits| && 0 <= i < |choices[k]| && 0 <= l < |edits| && 0 <= j < |choices[l]| && (k != l || i != j) ::
         choices[k][i] + |edits[k].oldText| <= choices[l][j] || choices[l][j] + |edits[l].oldText| <= choices[k][i]
    {
      forall n, m | 0 <= n < m < |all|
        ensures Apart(all[n], all[m])
      {
        var k, i := SomePlace(choices, n);
        var l, j := SomePlace(choices, m);
        assert k != l || i != j;
        assert all[n] == RangeAt(edits, choices, k, i) && all[m] == RangeAt(edits, choices, l, j);
      }
    }
  }

  /** What an edit needs, without the claims: stated on the leftmost choices. */
  lemma ResolvableMeans(original: Text, edits: seq<Edit>, choices: seq<seq<nat>>)
    requires Chosen(original, edits, choices)
    ensures Resolvable(original, edits) <==> Makeable(original, edits, choices)
  {
    hide IsLeftmostChoice, EditRanges, AllRanges, Lengths, IsOnlyOccurrence, Disjoint, EditResolves;
    forall k | 0 <= k < |edits|
      ensures EditResolves(original, edits[k]) <==> choices[k] != [] && (edits[k].all || IsOnlyOccurrence(original, edits[k].oldText, choices[k][0]))
    {
      EditResolvesMeans(original, edits[k], choices[k]);
    }
    if forall e | e in edits :: EditResolves(original, e) {
      AllRangesAreChoices(original, edits, choices);
      ApartMeans(original, edits, choices);
    }
  }

  /** An applied edit replaces every chosen occurrence, and no more. */
  lemma AppliedDelivers(original: Text, edits: seq<Edit>, choices: seq<seq<nat>>)
    requires Resolvable(original, edits) && Chosen(original, edits, choices)
    ensures Delivers(original, edits, choices, Substituted(original, edits), RegionsOf(0, 0, SortByStart(AllRanges(original, edits))))
  {
    hide *;
    ResolvableResolves(original, edits);
    var all := AllRanges(original, edits);
    var sorted, text := SortByStart(all), Substituted(original, edits);
    var regions := RegionsOf(0, 0, sorted);
    AppliedEditIsSimultaneous(original, edits);
    AllRangesAreChoices(original, edits, choices);
    SameSize(sorted, all);
    forall k, i | 0 <= k < |edits| && 0 <= i < |choices[k]|
      ensures HasRegion(text, regions, choices[k][i], choices[k][i] + |edits[k].oldText|, edits[k].newText)
    {
      var n := Lengths(choices[..k]) + i;
      PlaceHolds(choices, n, k, i);
      var m := Position(sorted, all, n);
      RegionFound(text, regions, sorted, m);
      RangeAtMeans(edits, choices, k, i);
    }
    DeliversHolds(original, edits, choices, text, regions);
  }

  lemma ResolvableResolves(original: Text, edits: seq<Edit>)
    requires Resolvable(original, edits)
    ensures forall e | e in edits :: EditResolves(original, e) && e.oldText != []
  {
  }

  lemma SameSize(a: seq<Range>, b: seq<Range>)
    requires multiset(a) == multiset(b)
    ensures |a| == |b|
  {
    assert |multiset(a)| == |multiset(b)|;
  }

  lemma PlaceHolds(choices: seq<seq<nat>>, n: nat, k: nat, i: nat)
    requires k < |choices| && i < |choices[k]| && n == Lengths(choices[..k]) + i
    ensures IsPlace(choices, n, k, i)
  {
  }

  lemma RangeAtMeans(edits: seq<Edit>, choices: seq<seq<nat>>, k: nat, i: nat)
    requires |choices| == |edits| && k < |edits| && i < |choices[k]|
    ensures RangeAt(edits, choices, k, i) == Range(choices[k][i], choices[k][i] + |edits[k].oldText|, edits[k].newText)
  {
  }

  lemma Position(sorted: seq<Range>, all: seq<Range>, n: nat) returns (m: nat)
    requires multiset(sorted) == multiset(all) && n < |all|
    ensures m < |sorted| && sorted[m] == all[n]
  {
    assert all[n] in multiset(sorted);
    m :| 0 <= m < |sorted| && sorted[m] == all[n];
  }

  lemma RegionFound(text: Text, regions: seq<Region>, sorted: seq<Range>, m: nat)
    requires Replaced(text, regions, Texts(sorted)) && m < |sorted| == |regions|
    requires regions[m].beforeStart == sorted[m].start && regions[m].beforeEnd == sorted[m].end
    ensures HasRegion(text, regions, sorted[m].start, sorted[m].end, sorted[m].text)
  {
  }

  lemma DeliversHolds(original: Text, edits: seq<Edit>, choices: seq<seq<nat>>, text: Text, regions: seq<Region>)
    requires |choices| == |edits| && Aligned(original, text, 0, 0, regions) && |regions| == Lengths(choices)
    requires forall k, i | 0 <= k < |edits| && 0 <= i < |choices[k]| ::
               HasRegion(text, regions, choices[k][i], choices[k][i] + |edits[k].oldText|, edits[k].newText)
    ensures Delivers(original, edits, choices, text, regions)
  {
  }
}
