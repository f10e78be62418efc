/** The approval diff of a local effect (#review in src/providers/local-provider.ts), as the
    structured sections whose text is shown to the approver. */
module LocalReview {
  import opened Utf16
  import opened Alignment

  const MAX_CONTEXT := 200
  const MAX_CONTEXT_LINES := 3
  const MAX_REVIEW_CHARS := 11000

  datatype Omission = Nothing | Omitted(chars: nat, breaks: int, startLine: nat, endLine: nat)

  /** One change as printed: its coordinates and line numbers, and the four JSON texts. */
  datatype Hunk = Hunk(
    omission: Omission, index: nat, total: nat,
    beforeLines: (nat, nat), beforeStart: nat, beforeEnd: nat,
    afterLines: (nat, nat), afterStart: nat, afterEnd: nat,
    contextBefore: Text, minus: Text, plus: Text, contextAfter: Text)

  datatype Review = NoContentChange | Reviewed(hunks: seq<Hunk>, suffixOmitted: nat) | TooLong

  function LineFeeds(s: Text): nat {
    if s == [] then 0 else LineFeeds(s[..|s| - 1]) + if s[|s| - 1] == LF then 1 else 0
  }

  /** The one-based number of the line that holds the offset. */
  function LineAt(s: Text, offset: nat): nat
    requires offset <= |s|
  {
    1 + LineFeeds(s[..offset])
  }

  lemma LineFeedsNext(s: Text, i: nat)
    requires i < |s|
    ensures LineFeeds(s[..i + 1]) == LineFeeds(s[..i]) + if s[i] == LF then 1 else 0
  {
    assert s[..i + 1][..i] == s[..i];
  }

  /** A forward-only line counter over one text. */
  class LineCounter {
    const text: Text
    var position: nat
    var line: nat

    ghost predicate Valid()
      reads this
    {
      position <= |text| && line == LineAt(text, position)
    }

    constructor (text: Text)
      ensures Valid() && this.text == text && position == 0
    {
      this.text := text;
      position, line := 0, 1;
    }

    /** Scans on to an offset; an offset already passed reports the line reached. */
    method At(end: nat) returns (n: nat)
      requires Valid() && end <= |text|
      modifies this
      ensures Valid() && position == (if old(position) < end then end else old(position))
      ensures n == LineAt(text, position)
    {
      while position < end
        invariant Valid() && old(position) <= position
        invariant position <= end || position == old(position)
      {
        LineFeedsNext(text, position);
        position := position + 1;
        if text[position - 1] == LF {
          line := line + 1;
        }
      }
      n := line;
    }
  }

  // ----- trimming equal edges

  /** t is r without equal text at its edges; nothing equal is left at an edge of t. */
  ghost predicate TrimOf(before: Text, after: Text, r: Region, t: Region) {
    && r.beforeStart <= t.beforeStart <= t.beforeEnd <= r.beforeEnd <= |before|
    && r.afterStart <= t.afterStart <= t.afterEnd <= r.afterEnd <= |after|
    && before[r.beforeStart..t.beforeStart] == after[r.afterStart..t.afterStart]
    && before[t.beforeEnd..r.beforeEnd] == after[t.afterEnd..r.afterEnd]
    && (t.beforeStart < t.beforeEnd && t.afterStart < t.afterEnd ==>
          before[t.beforeStart] != after[t.afterStart] && before[t.beforeEnd - 1] != after[t.afterEnd - 1])
  }

  lemma ExtendRight(x: Text, y: Text, i0: nat, i: nat, j0: nat, j: nat)
    requires i0 <= i < |x| && j0 <= j < |y| && x[i0..i] == y[j0..j] && x[i] == y[j]
    ensures x[i0..i + 1] == y[j0..j + 1]
  {
    assert x[i0..i + 1] == x[i0..i] + [x[i]];
    assert y[j0..j + 1] == y[j0..j] + [y[j]];
  }

  lemma ExtendLeft(x: Text, y: Text, i: nat, i1: nat, j: nat, j1: nat)
    requires 0 < i <= i1 <= |x| && 0 < j <= j1 <= |y| && x[i..i1] == y[j..j1] && x[i - 1] == y[j - 1]
    ensures x[i - 1..i1] == y[j - 1..j1]
  {
    assert x[i - 1..i1] == [x[i - 1]] + x[i..i1];
    assert y[j - 1..j1] == [y[j - 1]] + y[j..j1];
  }

  method Trim(before: Text, after: Text, r: Region) returns (t: Region)
    requires r.beforeStart <= r.beforeEnd <= |before| && r.afterStart <= r.afterEnd <= |after|
    ensures TrimOf(before, after, r, t)
  {
    var bs, fs := TrimLeft(before, after, r);
    var be, fe := TrimRight(before, after, r, bs, fs);
    return Region(bs, be, fs, fe);
  }

  method TrimLeft(before: Text, after: Text, r: Region) returns (bs: nat, fs: nat)
    requires r.beforeStart <= r.beforeEnd <= |before| && r.afterStart <= r.afterEnd <= |after|
    ensures r.beforeStart <= bs <= r.beforeEnd && r.afterStart <= fs <= r.afterEnd
    ensures before[r.beforeStart..bs] == after[r.afterStart..fs]
    ensures bs < r.beforeEnd && fs < r.afterEnd ==> before[bs] != after[fs]
  {
    bs, fs := r.beforeStart, r.afterStart;
    while bs < r.beforeEnd && fs < r.afterEnd && before[bs] == after[fs]
      invariant r.beforeStart <= bs <= r.beforeEnd && r.afterStart <= fs <= r.afterEnd
      invariant before[r.beforeStart..bs] == after[r.afterStart..fs]
    {
      ExtendRight(before, after, r.beforeStart, bs, r.afterStart, fs);
      bs, fs := bs + 1, fs + 1;
    }
  }

  method TrimRight(before: Text, after: Text, r: Region, bs: nat, fs: nat) returns (be: nat, fe: nat)
    requires bs <= r.beforeEnd <= |before| && fs <= r.afterEnd <= |after|
    ensures bs <= be <= r.beforeEnd && fs <= fe <= r.afterEnd
    ensures before[be..r.beforeEnd] == after[fe..r.afterEnd]
    ensures bs < be && fs < fe ==> before[be - 1] != after[fe - 1]
  {
    be, fe := r.beforeEnd, r.afterEnd;
    while be > bs && fe > fs && before[be - 1] == after[fe - 1]
      invariant bs <= be <= r.beforeEnd && fs <= fe <= r.afterEnd
      invariant before[be..r.beforeEnd] == after[fe..r.afterEnd]
    {
      ExtendLeft(before, after, be, r.beforeEnd, fe, r.afterEnd);
      be, fe := be - 1, fe - 1;
    }
  }

  predicate IsEmptyRegion(r: Region) {
    r.beforeStart == r.beforeEnd && r.afterStart == r.afterEnd
  }

  /** Putting one trimmed region in front keeps the alignment, kept or dropped. */
  lemma PrependTrimmed(before: Text, after: Text, b: nat, a: nat, r: Region, t: Region, rest: seq<Region>)
    requires b <= r.beforeStart && a <= r.afterStart && TrimOf(before, after, r, t)
    requires before[b..r.beforeStart] == after[a..r.afterStart]
    requires Aligned(before, after, r.beforeEnd, r.afterEnd, rest)
    ensures Aligned(before, after, b, a, if IsEmptyRegion(t) then rest else [t] + rest)
  {
    Widen(before, after, t.beforeEnd, t.afterEnd, r.beforeEnd, r.afterEnd, rest);
    assert before[b..t.beforeStart] == before[b..r.beforeStart] + before[r.beforeStart..t.beforeStart];
    assert after[a..t.afterStart] == after[a..r.afterStart] + after[r.afterStart..t.afterStart];
    if IsEmptyRegion(t) {
      Widen(before, after, b, a, t.beforeEnd, t.afterEnd, rest);
    } else {
      assert ([t] + rest)[1..] == rest;
    }
  }

  function Kept(ts: seq<Region>): seq<Region> {
    if ts == [] then [] else (if IsEmptyRegion(ts[0]) then [] else [ts[0]]) + Kept(ts[1..])
  }

  lemma {:induction false} KeptConcat(a: seq<Region>, b: seq<Region>)
    ensures Kept(a + b) == Kept(a) + Kept(b)
  {
    if a == [] {
      assert a + b == b;
    } else {
      assert (a + b)[1..] == a[1..] + b;
      KeptConcat(a[1..], b);
    }
  }

  ghost predicate TrimsOf(before: Text, after: Text, regions: seq<Region>, trimmed: seq<Region>) {
    |trimmed| == |regions| && forall i | 0 <= i < |regions| :: TrimOf(before, after, regions[i], trimmed[i])
  }

  lemma TrimsOfTail(before: Text, after: Text, regions: seq<Region>, trimmed: seq<Region>)
    requires regions != [] && TrimsOf(before, after, regions, trimmed)
    ensures TrimsOf(before, after, regions[1..], trimmed[1..])
  {
    hide TrimOf;
    assert forall i | 0 <= i < |regions[1..]| :: regions[1..][i] == regions[i + 1] && trimmed[1..][i] == trimmed[i + 1];
  }

  /** Dropping the regions that trimming empties loses no change. */
  lemma {:induction false} KeptAligned(before: Text, after: Text, b: nat, a: nat, regions: seq<Region>, trimmed: seq<Region>)
    requires Aligned(before, after, b, a, regions) && TrimsOf(before, after, regions, trimmed)
    ensures Aligned(before, after, b, a, Kept(trimmed))
    decreases |regions|
  {
    hide TrimOf;
    if regions != [] {
      var r := regions[0];
      TrimsOfTail(before, after, regions, trimmed);
      KeptAligned(before, after, r.beforeEnd, r.afterEnd, regions[1..], trimmed[1..]);
      PrependTrimmed(before, after, b, a, r, trimmed[0], Kept(trimmed[1..]));
      assert [] + Kept(trimmed[1..]) == Kept(trimmed[1..]);
    }
  }

  lemma {:induction false} AlignedMember(before: Text, after: Text, b: nat, a: nat, regions: seq<Region>, i: nat)
    requires Aligned(before, after, b, a, regions) && i < |regions|
    ensures var r := regions[i];
            r.beforeStart <= r.beforeEnd <= |before| && r.afterStart <= r.afterEnd <= |after|
    decreases |regions|
  {
    if i > 0 {
      AlignedMember(before, after, regions[0].beforeEnd, regions[0].afterEnd, regions[1..], i - 1);
    }
  }

  /** The changes to show: every region trimmed, the empty ones dropped. */
  method TrimAll(before: Text, after: Text, regions: seq<Region>) returns (changes: seq<Region>)
    requires Aligned(before, after, 0, 0, regions)
    ensures Aligned(before, after, 0, 0, changes)
    ensures exists trimmed :: TrimsOf(before, after, regions, trimmed) && changes == Kept(trimmed)
  {
    hide TrimOf, Aligned;
    changes := [];
    ghost var trimmed: seq<Region> := [];
    for k := 0 to |regions|
      invariant TrimsOf(before, after, regions[..k], trimmed)
      invariant changes == Kept(trimmed)
    {
      AlignedMember(before, after, 0, 0, regions, k);
      var t := Trim(before, after, regions[k]);
      KeptConcat(trimmed, [t]);
      KeptOne(t);
      trimmed := trimmed + [t];
      if !(t.beforeStart == t.beforeEnd && t.afterStart == t.afterEnd) {
        changes := changes + [t];
      }
    }
    assert regions[..|regions|] == regions;
    KeptAligned(before, after, 0, 0, regions, trimmed);
  }

  lemma KeptOne(t: Region)
    ensures Kept([t]) == if IsEmptyRegion(t) then [] else [t]
  {
    assert [t][1..] == [];
  }

  // ----- context

  /** The context reaches back as far as it may: to the cursor, over 200 units, or to just behind a
      fourth line break. */
  predicate StopsBack(before: Text, cursor: nat, c: nat, start: nat)
    requires cursor <= c <= start <= |before|
  {
    c == cursor || start - c == MAX_CONTEXT || (before[c - 1] == LF && LineFeeds(before[c..start]) == MAX_CONTEXT_LINES)
  }

  /** And ahead: to the next change, over 200 units, or past a third line break. */
  predicate StopsAhead(before: Text, end: nat, c: nat, next: nat)
    requires end <= c <= next <= |before|
  {
    c == next || c - end == MAX_CONTEXT || (end < c && before[c - 1] == LF && LineFeeds(before[end..c]) == MAX_CONTEXT_LINES)
  }

  /** The start of the context before a change: at most 200 units and 3 line breaks back,
      never past the cursor. */
  method ContextStart(before: Text, cursor: nat, start: nat) returns (c: nat)
    requires cursor <= start <= |before|
    ensures cursor <= c <= start && start - c <= MAX_CONTEXT
    ensures LineFeeds(before[c..start]) <= MAX_CONTEXT_LINES
    ensures StopsBack(before, cursor, c, start)
  {
    hide LineFeeds;
    c := start;
    var lines := 0;
    NoFeeds(before, start);
    while c > cursor && start - c < MAX_CONTEXT
      invariant cursor <= c <= start && start - c <= MAX_CONTEXT
      invariant lines == LineFeeds(before[c..start]) && lines <= MAX_CONTEXT_LINES
    {
      FeedsBack(before, c, start);
      if before[c - 1] == LF {
        if lines == MAX_CONTEXT_LINES {
          break;
        }
        lines := lines + 1;
      }
      c := c - 1;
    }
  }

  method ContextEnd(before: Text, end: nat, next: nat) returns (c: nat)
    requires end <= next <= |before|
    ensures end <= c <= next && c - end <= MAX_CONTEXT
    ensures LineFeeds(before[end..c]) <= MAX_CONTEXT_LINES
    ensures StopsAhead(before, end, c, next)
  {
    hide LineFeeds;
    c := end;
    var lines := 0;
    NoFeeds(before, end);
    while c < next && c - end < MAX_CONTEXT && lines < MAX_CONTEXT_LINES
      invariant end <= c <= next && c - end <= MAX_CONTEXT
      invariant lines == LineFeeds(before[end..c]) && lines <= MAX_CONTEXT_LINES
      invariant lines == MAX_CONTEXT_LINES ==> end < c && before[c - 1] == LF
    {
      FeedsAhead(before, end, c);
      c := c + 1;
      if before[c - 1] == LF {
        lines := lines + 1;
      }
    }
  }

  lemma NoFeeds(before: Text, at: nat)
    requires at <= |before|
    ensures LineFeeds(before[at..at]) == 0
  {
  }

  lemma FeedsBack(before: Text, from: nat, to: nat)
    requires 0 < from <= to <= |before|
    ensures LineFeeds(before[from - 1..to]) == LineFeeds(before[from..to]) + if before[from - 1] == LF then 1 else 0
  {
    hide LineFeeds;
    LineFeedsConcat([before[from - 1]], before[from..to]);
    LineFeedsOne(before[from - 1]);
    assert before[from - 1..to] == [before[from - 1]] + before[from..to];
  }

  lemma FeedsAhead(before: Text, from: nat, to: nat)
    requires from <= to < |before|
    ensures LineFeeds(before[from..to + 1]) == LineFeeds(before[from..to]) + if before[to] == LF then 1 else 0
  {
    hide LineFeeds;
    LineFeedsConcat(before[from..to], [before[to]]);
    LineFeedsOne(before[to]);
    assert before[from..to + 1] == before[from..to] + [before[to]];
  }

  lemma LineFeedsOne(u: Unit)
    ensures LineFeeds([u]) == if u == LF then 1 else 0
  {
    assert [u][..0] == [];
  }

  lemma {:induction false} LineFeedsConcat(a: Text, b: Text)
    ensures LineFeeds(a + b) == LineFeeds(a) + LineFeeds(b)
  {
    if b == [] {
      assert a + b == a;
    } else {
      assert (a + b)[..|a + b| - 1] == a + b[..|b| - 1];
      LineFeedsConcat(a, b[..|b| - 1]);
    }
  }

  // ----- hunks

  /** Where the shown stretch of the original before hunk i ends. */
  function ShownTo(hunks: seq<Hunk>, i: nat): nat
    requires i <= |hunks|
  {
    if i == 0 then 0 else hunks[i - 1].beforeEnd + |hunks[i - 1].contextAfter|
  }

  /** What a printed hunk tells about the two texts, the original being shown up to the cursor. */
  ghost predicate Truthful(before: Text, after: Text, cursor: nat, h: Hunk) {
    && |h.contextBefore| <= h.beforeStart <= h.beforeEnd <= |before|
    && h.afterStart <= h.afterEnd <= |after| && |h.contextBefore| <= h.afterStart
    && h.beforeEnd + |h.contextAfter| <= |before| && h.afterEnd + |h.contextAfter| <= |after|
    // the coordinates hold what is printed, and the context is unchanged text
    && h.minus == before[h.beforeStart..h.beforeEnd] && h.plus == after[h.afterStart..h.afterEnd]
    && h.contextBefore == before[h.beforeStart - |h.contextBefore|..h.beforeStart]
    && h.contextBefore == after[h.afterStart - |h.contextBefore|..h.afterStart]
    && h.contextAfter == before[h.beforeEnd..h.beforeEnd + |h.contextAfter|]
    && h.contextAfter == after[h.afterEnd..h.afterEnd + |h.contextAfter|]
    && |h.contextBefore| <= MAX_CONTEXT && LineFeeds(h.contextBefore) <= MAX_CONTEXT_LINES
    && |h.contextAfter| <= MAX_CONTEXT && LineFeeds(h.contextAfter) <= MAX_CONTEXT_LINES
    // line numbers
    && h.beforeLines == (LineAt(before, h.beforeStart), LineAt(before, h.beforeEnd))
    && h.afterLines == (LineAt(after, h.afterStart), LineAt(after, h.afterEnd))
    // nothing shown before is shown again; what lies between is counted
    && cursor <= h.beforeStart - |h.contextBefore|
    && var from := h.beforeStart - |h.contextBefore|;
       h.omission == if from == cursor then Nothing else OmissionOf(before, cursor, from)
  }

  /** The counts printed for an unchanged stretch that is not shown. */
  function OmissionOf(before: Text, cursor: nat, from: nat): Omission
    requires cursor <= from <= |before|
  {
    Omitted(from - cursor, LineAt(before, from) as int - LineAt(before, cursor), LineAt(before, cursor), LineAt(before, from))
  }

  /** What an approver would publish: the original with each minus text replaced in place. */
  function Publish(before: Text, from: nat, hunks: seq<Hunk>): Text
    decreases |hunks|
  {
    if hunks == [] then before[if from <= |before| then from else |before|..]
    else
      var h := hunks[0];
      (if from <= h.beforeStart <= |before| then before[from..h.beforeStart] else [])
      + h.plus + Publish(before, h.beforeEnd, hunks[1..])
  }

  /** The hunk's context is as long as the limits allow. */
  predicate Ample(before: Text, cursor: nat, next: nat, h: Hunk) {
    var from, to: int := h.beforeStart - |h.contextBefore|, h.beforeEnd + |h.contextAfter|;
    && cursor <= from <= h.beforeStart <= h.beforeEnd <= to <= next <= |before|
    && StopsBack(before, cursor, from, h.beforeStart) && StopsAhead(before, h.beforeEnd, to, next)
  }

  predicate Shows(after: Text, h: Hunk, change: Region) {
    && h.beforeStart == change.beforeStart && h.beforeEnd == change.beforeEnd
    && h.afterStart == change.afterStart && h.afterEnd == change.afterEnd
    && change.afterStart <= change.afterEnd <= |after|
    && h.plus == after[change.afterStart..change.afterEnd]
  }

  /** The hunks alone rebuild the proposed text. */
  lemma {:induction false} HunksPublish(before: Text, after: Text, b: nat, a: nat, changes: seq<Region>, hunks: seq<Hunk>)
    requires Aligned(before, after, b, a, changes)
    requires |hunks| == |changes| && forall i | 0 <= i < |hunks| :: Shows(after, hunks[i], changes[i])
    ensures a <= |after| && Publish(before, b, hunks) == after[a..]
    decreases |changes|
  {
    if changes != [] {
      var c := changes[0];
      assert Shows(after, hunks[0], c);
      assert forall i | 0 <= i < |hunks[1..]| :: hunks[1..][i] == hunks[i + 1] && changes[1..][i] == changes[i + 1];
      HunksPublish(before, after, c.beforeEnd, c.afterEnd, changes[1..], hunks[1..]);
      assert after[a..] == after[a..c.afterStart] + after[c.afterStart..c.afterEnd] + after[c.afterEnd..];
    }
  }

  /** The ends of the gap in front of change k, in both texts. */
  function EndBefore(changes: seq<Region>, k: nat): nat
    requires k <= |changes|
  {
    if k == 0 then 0 else changes[k - 1].beforeEnd
  }

  function EndAfter(changes: seq<Region>, k: nat): nat
    requires k <= |changes|
  {
    if k == 0 then 0 else changes[k - 1].afterEnd
  }

  function StartBefore(before: Text, changes: seq<Region>, k: nat): nat
    requires k <= |changes|
  {
    if k == |changes| then |before| else changes[k].beforeStart
  }

  function StartAfter(after: Text, changes: seq<Region>, k: nat): nat
    requires k <= |changes|
  {
    if k == |changes| then |after| else changes[k].afterStart
  }

  ghost predicate GapCopied(before: Text, after: Text, changes: seq<Region>, k: nat)
    requires k <= |changes|
  {
    var bf, bt := EndBefore(changes, k), StartBefore(before, changes, k);
    var af, at := EndAfter(changes, k), StartAfter(after, changes, k);
    bf <= bt <= |before| && af <= at <= |after| && before[bf..bt] == after[af..at]
  }

  lemma {:induction false} GapFrom(before: Text, after: Text, b: nat, a: nat, changes: seq<Region>, k: nat)
    requires Aligned(before, after, b, a, changes) && k <= |changes|
    ensures var bf, af := if k == 0 then b else EndBefore(changes, k), if k == 0 then a else EndAfter(changes, k);
            var bt, at := StartBefore(before, changes, k), StartAfter(after, changes, k);
            bf <= bt <= |before| && af <= at <= |after| && before[bf..bt] == after[af..at]
    decreases |changes|
  {
    if k > 0 {
      GapFrom(before, after, changes[0].beforeEnd, changes[0].afterEnd, changes[1..], k - 1);
    } else if changes == [] {
      assert before[b..|before|] == before[b..] && after[a..|after|] == after[a..];
    }
  }

  lemma GapAt(before: Text, after: Text, changes: seq<Region>, k: nat)
    requires Aligned(before, after, 0, 0, changes) && k <= |changes|
    ensures GapCopied(before, after, changes, k)
  {
    hide Aligned;
    GapFrom(before, after, 0, 0, changes, k);
  }

  /** Text inside a copied gap is copied: the last n units of it, and the first n. */
  lemma CopiedEnds(before: Text, after: Text, bf: nat, bt: nat, af: nat, at: nat, n: nat)
    requires bf <= bt <= |before| && af <= at <= |after| && before[bf..bt] == after[af..at]
    requires n <= bt - bf
    ensures bt - bf == at - af
    ensures before[bt - n..bt] == after[at - n..at]
    ensures before[bf..bf + n] == after[af..af + n]
  {
    assert |before[bf..bt]| == |after[af..at]|;
    assert before[bt - n..bt] == before[bf..bt][bt - bf - n..];
    assert after[at - n..at] == after[af..at][bt - bf - n..];
    assert before[bf..bf + n] == before[bf..bt][..n];
    assert after[af..af + n] == after[af..at][..n];
  }

  lemma GapOrder(before: Text, after: Text, changes: seq<Region>, k: nat)
    requires Aligned(before, after, 0, 0, changes) && k <= |changes|
    ensures EndAfter(changes, k) <= StartAfter(after, changes, k) <= |after|
    ensures EndBefore(changes, k) <= StartBefore(before, changes, k) <= |before|
    ensures k == 0 ==> EndBefore(changes, k) == EndAfter(changes, k) == 0
    ensures k < |changes| ==> StartBefore(before, changes, k) == changes[k].beforeStart && StartAfter(after, changes, k) == changes[k].afterStart
    ensures k == |changes| ==> StartBefore(before, changes, k) == |before|
    ensures k > 0 ==> EndBefore(changes, k) == changes[k - 1].beforeEnd && EndAfter(changes, k) == changes[k - 1].afterEnd
  {
    hide Aligned;
    GapAt(before, after, changes, k);
  }

  /** The stretch around a change that its hunk shows lies in the two gaps beside it. */
  ghost predicate IsContext(before: Text, after: Text, cursor: nat, c: Region, contextStart: nat, contextEnd: nat) {
    && c.beforeStart <= c.beforeEnd <= |before| && c.afterStart <= c.afterEnd <= |after|
    && cursor <= contextStart <= c.beforeStart && c.beforeEnd <= contextEnd <= |before|
    && c.beforeStart - contextStart <= c.afterStart && c.afterEnd + (contextEnd - c.beforeEnd) <= |after|
    && before[contextStart..c.beforeStart] == after[c.afterStart - (c.beforeStart - contextStart)..c.afterStart]
    && before[c.beforeEnd..contextEnd] == after[c.afterEnd..c.afterEnd + (contextEnd - c.beforeEnd)]
    && c.beforeStart - contextStart <= MAX_CONTEXT && LineFeeds(before[contextStart..c.beforeStart]) <= MAX_CONTEXT_LINES
    && contextEnd - c.beforeEnd <= MAX_CONTEXT && LineFeeds(before[c.beforeEnd..contextEnd]) <= MAX_CONTEXT_LINES
  }

  method FindContext(before: Text, ghost after: Text, cursor: nat, index: nat, changes: seq<Region>) returns (contextStart: nat, contextEnd: nat)
    requires Aligned(before, after, 0, 0, changes) && index < |changes|
    requires EndBefore(changes, index) <= cursor <= changes[index].beforeStart
    ensures IsContext(before, after, cursor, changes[index], contextStart, contextEnd)
    ensures cursor <= contextStart <= changes[index].beforeStart <= changes[index].beforeEnd <= contextEnd
    ensures contextEnd <= StartBefore(before, changes, index + 1) <= |before|
    ensures changes[index].afterStart <= changes[index].afterEnd <= |after|
    ensures StopsBack(before, cursor, contextStart, changes[index].beforeStart)
    ensures StopsAhead(before, changes[index].beforeEnd, contextEnd, StartBefore(before, changes, index + 1))
  {
    hide Aligned, LineFeeds, IsContext;
    var c := changes[index];
    GapAt(before, after, changes, index);
    GapAt(before, after, changes, index + 1);
    AlignedMember(before, after, 0, 0, changes, index);
    contextStart := ContextStart(before, cursor, c.beforeStart);
    var nextStart := StartBefore(before, changes, index + 1);
    contextEnd := ContextEnd(before, c.beforeEnd, nextStart);
    GapsGiveContext(before, after, cursor, index, changes, contextStart, contextEnd);
  }

  lemma GapsGiveContext(before: Text, after: Text, cursor: nat, index: nat, changes: seq<Region>, contextStart: nat, contextEnd: nat)
    requires index < |changes| && GapCopied(before, after, changes, index) && GapCopied(before, after, changes, index + 1)
    requires var c := changes[index]; c.beforeStart <= c.beforeEnd <= |before| && c.afterStart <= c.afterEnd <= |after|
    requires EndBefore(changes, index) <= cursor <= contextStart <= changes[index].beforeStart
    requires changes[index].beforeEnd <= contextEnd <= StartBefore(before, changes, index + 1)
    requires changes[index].beforeStart - contextStart <= MAX_CONTEXT && contextEnd - changes[index].beforeEnd <= MAX_CONTEXT
    requires LineFeeds(before[contextStart..changes[index].beforeStart]) <= MAX_CONTEXT_LINES
    requires LineFeeds(before[changes[index].beforeEnd..contextEnd]) <= MAX_CONTEXT_LINES
    ensures IsContext(before, after, cursor, changes[index], contextStart, contextEnd)
  {
    hide LineFeeds;
    var c := changes[index];
    CopiedEnds(before, after, EndBefore(changes, index), c.beforeStart, EndAfter(changes, index), c.afterStart, c.beforeStart - contextStart);
    CopiedEnds(before, after, c.beforeEnd, StartBefore(before, changes, index + 1), c.afterEnd, StartAfter(after, changes, index + 1), contextEnd - c.beforeEnd);
  }

  /** One hunk, printed with both line counters moving forward. */
  method PrintHunk(before: Text, after: Text, cursor: nat, index: nat, changes: seq<Region>, beforeLine: LineCounter, afterLine: LineCounter)
    returns (h: Hunk)
    requires Aligned(before, after, 0, 0, changes) && index < |changes|
    requires beforeLine.Valid() && beforeLine.text == before && beforeLine.position <= cursor
    requires afterLine.Valid() && afterLine.text == after && beforeLine != afterLine
    requires afterLine.position <= EndAfter(changes, index)
    requires EndBefore(changes, index) <= cursor <= changes[index].beforeStart
    modifies beforeLine, afterLine
    ensures Truthful(before, after, cursor, h) && Shows(after, h, changes[index])
    ensures h.index == index + 1 && h.total == |changes|
    ensures h.beforeEnd + |h.contextAfter| <= StartBefore(before, changes, index + 1)
    ensures Ample(before, cursor, StartBefore(before, changes, index + 1), h)
    ensures beforeLine.Valid() && beforeLine.position == changes[index].beforeEnd
    ensures afterLine.Valid() && afterLine.position == changes[index].afterEnd
  {
    hide *;
    var c := changes[index];
    var contextStart, contextEnd := FindContext(before, after, cursor, index, changes);
    GapOrder(before, after, changes, index);
    var omission := Nothing;
    if contextStart - cursor > 0 {
      omission := CountOmitted(cursor, contextStart, beforeLine);
    }
    var b0 := beforeLine.At(c.beforeStart);
    var b1 := beforeLine.At(c.beforeEnd);
    var a0 := afterLine.At(c.afterStart);
    var a1 := afterLine.At(c.afterEnd);
    h := Hunk(omission, index + 1, |changes|, (b0, b1), c.beforeStart, c.beforeEnd,
              (a0, a1), c.afterStart, c.afterEnd,
              before[contextStart..c.beforeStart], before[c.beforeStart..c.beforeEnd],
              after[c.afterStart..c.afterEnd], before[c.beforeEnd..contextEnd]);
    HunkIsTruthful(before, after, cursor, contextStart, contextEnd, c, h);
    HunkIsAmple(before, cursor, contextStart, contextEnd, StartBefore(before, changes, index + 1), h);
  }

  lemma HunkIsAmple(before: Text, cursor: nat, contextStart: nat, contextEnd: nat, next: nat, h: Hunk)
    requires cursor <= contextStart <= h.beforeStart <= h.beforeEnd <= contextEnd <= next <= |before|
    requires |h.contextBefore| == h.beforeStart - contextStart && |h.contextAfter| == contextEnd - h.beforeEnd
    requires StopsBack(before, cursor, contextStart, h.beforeStart) && StopsAhead(before, h.beforeEnd, contextEnd, next)
    ensures Ample(before, cursor, next, h)
  {
    hide StopsBack, StopsAhead;
  }

  method CountOmitted(cursor: nat, contextStart: nat, beforeLine: LineCounter) returns (omission: Omission)
    requires beforeLine.Valid() && beforeLine.position <= cursor < contextStart <= |beforeLine.text|
    modifies beforeLine
    ensures beforeLine.Valid() && beforeLine.position == contextStart
    ensures omission == OmissionOf(beforeLine.text, cursor, contextStart)
  {
    var startLine := beforeLine.At(cursor);
    var endLine := beforeLine.At(contextStart);
    var breaks: int := endLine as int - startLine;
    omission := Omitted(contextStart - cursor, breaks, startLine, endLine);
  }

  lemma HunkIsTruthful(before: Text, after: Text, cursor: nat, contextStart: nat, contextEnd: nat, c: Region, h: Hunk)
    requires IsContext(before, after, cursor, c, contextStart, contextEnd)
    requires h == Hunk(h.omission, h.index, h.total,
                       (LineAt(before, c.beforeStart), LineAt(before, c.beforeEnd)), c.beforeStart, c.beforeEnd,
                       (LineAt(after, c.afterStart), LineAt(after, c.afterEnd)), c.afterStart, c.afterEnd,
                       before[contextStart..c.beforeStart], before[c.beforeStart..c.beforeEnd],
                       after[c.afterStart..c.afterEnd], before[c.beforeEnd..contextEnd])
    requires h.omission == if contextStart == cursor then Nothing else OmissionOf(before, cursor, contextStart)
    ensures Truthful(before, after, cursor, h) && Shows(after, h, c)
    ensures h.beforeEnd + |h.contextAfter| == contextEnd
  {
    hide LineFeeds;
  }

  function Widths(hunks: seq<Hunk>, width: Hunk -> nat): nat {
    if hunks == [] then 0 else Widths(hunks[..|hunks| - 1], width) + width(hunks[|hunks| - 1]) + 1
  }

  lemma WidthsNext(hunks: seq<Hunk>, h: Hunk, width: Hunk -> nat)
    ensures Widths(hunks + [h], width) == Widths(hunks, width) + width(h) + 1
  {
    assert (hunks + [h])[..|hunks|] == hunks;
  }

  /** The hunks printed so far: truthful, one for each of the first changes. */
  ghost predicate Printed(before: Text, after: Text, changes: seq<Region>, hunks: seq<Hunk>)
    decreases |hunks|
  {
    hunks == [] ||
    var n := |hunks| - 1;
    && n < |changes| && Printed(before, after, changes, hunks[..n])
    && Truthful(before, after, ShownTo(hunks, n), hunks[n]) && Shows(after, hunks[n], changes[n])
    && Ample(before, ShownTo(hunks, n), StartBefore(before, changes, n + 1), hunks[n])
  }

  lemma PrintOneMore(before: Text, after: Text, changes: seq<Region>, hunks: seq<Hunk>, h: Hunk)
    requires Printed(before, after, changes, hunks) && |hunks| < |changes|
    requires Truthful(before, after, ShownTo(hunks, |hunks|), h) && Shows(after, h, changes[|hunks|])
    requires Ample(before, ShownTo(hunks, |hunks|), StartBefore(before, changes, |hunks| + 1), h)
    ensures Printed(before, after, changes, hunks + [h])
    ensures ShownTo(hunks + [h], |hunks| + 1) == h.beforeEnd + |h.contextAfter|
    ensures h.beforeEnd == changes[|hunks|].beforeEnd
  {
    hide Truthful, Ample;
    assert (hunks + [h])[..|hunks|] == hunks;
  }

  lemma {:induction false} PrintedAt(before: Text, after: Text, changes: seq<Region>, hunks: seq<Hunk>, i: nat)
    requires Printed(before, after, changes, hunks) && i < |hunks|
    ensures |hunks| <= |changes|
    ensures Truthful(before, after, ShownTo(hunks, i), hunks[i]) && Shows(after, hunks[i], changes[i])
    decreases |hunks|
  {
    hide Truthful, Shows, Ample;
    var n := |hunks| - 1;
    if i < n {
      PrintedAt(before, after, changes, hunks[..n], i);
      assert ShownTo(hunks[..n], i) == ShownTo(hunks, i);
    } else if n > 0 {
      PrintedAt(before, after, changes, hunks[..n], 0);
    }
  }

  /** The review of a proposed text whose regions are known. headerChars and width are the sizes
      of the header and of a printed section. */
  method MakeReview(before: Text, after: Text, regions: seq<Region>, headerChars: nat, width: Hunk -> nat)
    returns (review: Review)
    requires Aligned(before, after, 0, 0, regions)
    ensures review.NoContentChange? <==> before == after
    ensures review.Reviewed? ==>
              && (forall i | 0 <= i < |review.hunks| :: Truthful(before, after, ShownTo(review.hunks, i), review.hunks[i]))
              && ShownTo(review.hunks, |review.hunks|) + review.suffixOmitted == |before|
              && Publish(before, 0, review.hunks) == after
              && (review.hunks != [] ==> headerChars + Widths(review.hunks, width) <= MAX_REVIEW_CHARS)
              && exists trimmed :: TrimsOf(before, after, regions, trimmed) && PrintsAll(before, after, Kept(trimmed), review.hunks)
    ensures review.TooLong? ==>
              exists trimmed, hunks :: TrimsOf(before, after, regions, trimmed) && Printed(before, after, Kept(trimmed), hunks)
                                       && headerChars + Widths(hunks, width) > MAX_REVIEW_CHARS
  {
    if before == after {
      return NoContentChange;
    }
    hide *;
    var changes := TrimAll(before, after, regions);
    ghost var trimmed :| TrimsOf(before, after, regions, trimmed) && changes == Kept(trimmed);
    var fits, hunks := PrintAll(before, after, changes, headerChars, width);
    if !fits {
      return TooLong;
    }
    PrintedAll(before, after, changes, hunks);
    AllPrinted(before, after, changes, hunks);
    return Reviewed(hunks, |before| - ShownTo(hunks, |hunks|));
  }

  /** One truthful hunk, with ample context, for each change. */
  ghost predicate PrintsAll(before: Text, after: Text, changes: seq<Region>, hunks: seq<Hunk>) {
    |hunks| == |changes| && Printed(before, after, changes, hunks)
  }

  lemma AllPrinted(before: Text, after: Text, changes: seq<Region>, hunks: seq<Hunk>)
    requires |hunks| == |changes| && Printed(before, after, changes, hunks)
    ensures PrintsAll(before, after, changes, hunks)
  {
  }

  /** Prints every change in order, giving up once the review is over its budget. */
  method PrintAll(before: Text, after: Text, changes: seq<Region>, headerChars: nat, width: Hunk -> nat)
    returns (fits: bool, hunks: seq<Hunk>)
    requires Aligned(before, after, 0, 0, changes)
    ensures Printed(before, after, changes, hunks)
    ensures fits ==> |hunks| == |changes| && ShownTo(hunks, |hunks|) <= |before|
    ensures fits ==> hunks == [] || headerChars + Widths(hunks, width) <= MAX_REVIEW_CHARS
    ensures !fits ==> headerChars + Widths(hunks, width) > MAX_REVIEW_CHARS
  {
    hide *;
    var beforeLine := new LineCounter(before);
    var afterLine := new LineCounter(after);
    hunks := [];
    var cursor: nat, reviewChars := 0, headerChars;
    NonePrinted(before, after, changes, width);
    GapOrder(before, after, changes, 0);
    for index := 0 to |changes|
      invariant |hunks| == index && cursor == ShownTo(hunks, index)
      invariant Printed(before, after, changes, hunks)
      invariant EndBefore(changes, index) <= cursor <= StartBefore(before, changes, index)
      invariant beforeLine.Valid() && beforeLine.text == before && beforeLine.position <= cursor
      invariant afterLine.Valid() && afterLine.text == after && afterLine.position <= EndAfter(changes, index)
      invariant fresh(afterLine) && fresh(beforeLine)
      invariant reviewChars == headerChars + Widths(hunks, width)
      invariant hunks == [] || reviewChars <= MAX_REVIEW_CHARS
    {
      GapOrder(before, after, changes, index);
      var h := PrintHunk(before, after, cursor, index, changes, beforeLine, afterLine);
      PrintOneMore(before, after, changes, hunks, h);
      WidthsNext(hunks, h, width);
      GapOrder(before, after, changes, index + 1);
      hunks := hunks + [h];
      reviewChars := reviewChars + width(h) + 1;
      if reviewChars > MAX_REVIEW_CHARS {
        return false, hunks;
      }
      cursor := h.beforeEnd + |h.contextAfter|;
    }
    GapOrder(before, after, changes, |changes|);
    return true, hunks;
  }

  lemma NonePrinted(before: Text, after: Text, changes: seq<Region>, width: Hunk -> nat)
    ensures Printed(before, after, changes, []) && ShownTo([], 0) == 0 && Widths([], width) == 0
  {
  }

  lemma PrintedAll(before: Text, after: Text, changes: seq<Region>, hunks: seq<Hunk>)
    requires Aligned(before, after, 0, 0, changes) && Printed(before, after, changes, hunks) && |hunks| == |changes|
    ensures Publish(before, 0, hunks) == after
    ensures forall i | 0 <= i < |hunks| :: Truthful(before, after, ShownTo(hunks, i), hunks[i])
  {
    hide *;
    forall i | 0 <= i < |hunks|
      ensures Truthful(before, after, ShownTo(hunks, i), hunks[i]) && Shows(after, hunks[i], changes[i])
    {
      PrintedAt(before, after, changes, hunks, i);
    }
    HunksPublish(before, after, 0, 0, changes, hunks);
    assert after[0..] == after;
  }
}
