/** Ranking search matches (src/core/ranked-actions.ts): a full sort, and the bounded heap that
    keeps only the first matches of that sort. */
module RankedActions {
  import opened Utf16
  import opened Wrappers

  /** A scored action, known by its reference. */
  datatype Match = Match(ref: Text, score: int)

  /** JavaScript string order: by code unit, a proper prefix first. */
  function CompareText(a: Text, b: Text): (c: int)
    ensures -1 <= c <= 1
  {
    if a == [] then (if b == [] then 0 else -1)
    else if b == [] then 1
    else if a[0] < b[0] then -1
    else if a[0] > b[0] then 1
    else CompareText(a[1..], b[1..])
  }

  /** Higher scores first, then by reference. */
  function Compare(left: Match, right: Match): int {
    if right.score - left.score != 0 then right.score - left.score else CompareText(left.ref, right.ref)
  }

  /** a does not come before b. */
  predicate Worse(a: Match, b: Match) {
    Compare(a, b) >= 0
  }

  lemma {:induction false} CompareTextOrder(a: Text, b: Text)
    ensures CompareText(a, b) == -CompareText(b, a)
    ensures CompareText(a, b) == 0 <==> a == b
  {
    if a != [] && b != [] {
      CompareTextOrder(a[1..], b[1..]);
      assert a == [a[0]] + a[1..] && b == [b[0]] + b[1..];
    }
  }

  lemma {:induction false} CompareTextTransitive(a: Text, b: Text, c: Text)
    requires CompareText(a, b) >= 0 && CompareText(b, c) >= 0
    ensures CompareText(a, c) >= 0
  {
    if a != [] && b != [] && c != [] {
      if a[0] == b[0] == c[0] {
        CompareTextTransitive(a[1..], b[1..], c[1..]);
      }
    }
  }

  lemma WorseTransitive(a: Match, b: Match, c: Match)
    requires Worse(a, b) && Worse(b, c)
    ensures Worse(a, c)
  {
    if a.score == b.score == c.score {
      CompareTextTransitive(a.ref, b.ref, c.ref);
    }
  }

  /** The order is total, and antisymmetric. */
  lemma WorseTotal(a: Match, b: Match)
    ensures Worse(a, b) || Worse(b, a)
    ensures Worse(a, b) && Worse(b, a) <==> a == b
    ensures Compare(a, b) == -Compare(b, a)
  {
    CompareTextOrder(a.ref, b.ref);
  }

  // ----- the full sort

  function Insert(m: Match, sorted: seq<Match>): (res: seq<Match>)
    ensures multiset(res) == multiset(sorted) + multiset{m}
  {
    if sorted == [] || !Worse(m, sorted[0]) then [m] + sorted
    else
      assert sorted == [sorted[0]] + sorted[1..];
      [sorted[0]] + Insert(m, sorted[1..])
  }

  function SortByRank(ms: seq<Match>): (res: seq<Match>)
    ensures multiset(res) == multiset(ms)
    ensures |res| == |ms|
  {
    if ms == [] then []
    else
      var n := |ms| - 1;
      assert ms == ms[..n] + [ms[n]];
      var res := Insert(ms[n], SortByRank(ms[..n]));
      assert |multiset(res)| == |multiset(ms)|;
      res
  }

  ghost predicate IsRanked(s: seq<Match>) {
    forall i, j | 0 <= i < j < |s| :: Worse(s[j], s[i])
  }

  lemma {:induction false} InsertRanks(m: Match, sorted: seq<Match>)
    requires IsRanked(sorted)
    ensures IsRanked(Insert(m, sorted))
  {
    if sorted == [] {
    } else if !Worse(m, sorted[0]) {
      WorseTotal(sorted[0], m);
      forall j | 0 <= j < |sorted|
        ensures Worse(sorted[j], m)
      {
        if j > 0 {
          WorseTransitive(sorted[j], sorted[0], m);
        }
      }
    } else {
      InsertRanks(m, sorted[1..]);
      var rest := Insert(m, sorted[1..]);
      forall j | 0 <= j < |rest|
        ensures Worse(rest[j], sorted[0])
      {
        assert rest[j] in multiset(rest);
        assert rest[j] == m || rest[j] in sorted[1..];
      }
    }
  }

  lemma {:induction false} SortRanks(ms: seq<Match>)
    ensures IsRanked(SortByRank(ms))
  {
    if ms != [] {
      SortRanks(ms[..|ms| - 1]);
      InsertRanks(ms[|ms| - 1], SortByRank(ms[..|ms| - 1]));
    }
  }

  // ----- what the order is, on scores and code units

  /** a comes before b in the order of code units: as a proper prefix, or by a smaller unit at the
      first place where they differ. */
  ghost predicate RefBefore(a: Text, b: Text) {
    || (|a| < |b| && a == b[..|a|])
    || exists k | 0 <= k < |a| && k < |b| :: a[..k] == b[..k] && a[k] < b[k]
  }

  lemma {:induction false} CompareTextMeans(a: Text, b: Text)
    ensures CompareText(a, b) < 0 <==> RefBefore(a, b)
  {
    if a != [] && b != [] && a[0] == b[0] {
      CompareTextMeans(a[1..], b[1..]);
      RefBeforeTail(a, b);
    } else if a != [] && b != [] && a[0] < b[0] {
      assert a[..0] == b[..0];
    }
  }

  lemma RefBeforeTail(a: Text, b: Text)
    requires a != [] && b != [] && a[0] == b[0]
    ensures RefBefore(a[1..], b[1..]) <==> RefBefore(a, b)
  {
    var x, y := a[1..], b[1..];
    assert a == [a[0]] + x && b == [a[0]] + y;
    if |x| < |y| && x == y[..|x|] {
      assert b[..|a|] == [a[0]] + y[..|x|];
    }
    if |a| < |b| && a == b[..|a|] {
      assert x == b[..|a|][1..] == y[..|x|];
    }
    if k :| 0 <= k < |x| && k < |y| && x[..k] == y[..k] && x[k] < y[k] {
      assert a[..k + 1] == [a[0]] + x[..k] && b[..k + 1] == [a[0]] + y[..k];
      assert a[k + 1] < b[k + 1];
    }
    if k :| 0 <= k < |a| && k < |b| && a[..k] == b[..k] && a[k] < b[k] {
      assert x[..k - 1] == a[..k][1..] == b[..k][1..] == y[..k - 1];
      assert x[k - 1] < y[k - 1];
    }
  }

  /** A higher score comes earlier, and among equal scores the reference that is first in the order
      of code units. */
  ghost predicate BestFirst(s: seq<Match>) {
    forall i, j | 0 <= i < j < |s| ::
      && s[i].score >= s[j].score
      && (s[i].score == s[j].score ==> s[i].ref == s[j].ref || RefBefore(s[i].ref, s[j].ref))
  }

  lemma SortIsBestFirst(ms: seq<Match>)
    ensures BestFirst(SortByRank(ms))
  {
    var s := SortByRank(ms);
    SortRanks(ms);
    forall i, j | 0 <= i < j < |s|
      ensures s[i].score >= s[j].score
      ensures s[i].score == s[j].score ==> s[i].ref == s[j].ref || RefBefore(s[i].ref, s[j].ref)
    {
      assert Worse(s[j], s[i]);
      CompareTextOrder(s[i].ref, s[j].ref);
      CompareTextMeans(s[i].ref, s[j].ref);
    }
  }

  lemma SameFirst(a: seq<Match>, b: seq<Match>)
    requires IsRanked(a) && IsRanked(b) && multiset(a) == multiset(b) && a != [] && b != []
    ensures a[0] == b[0]
  {
    hide Worse;
    assert a[0] in multiset(b) && b[0] in multiset(a);
    var i :| 0 <= i < |b| && b[i] == a[0];
    var j :| 0 <= j < |a| && a[j] == b[0];
    WorseTotal(a[0], b[0]);
  }

  lemma RankedTail(s: seq<Match>)
    requires IsRanked(s) && s != []
    ensures IsRanked(s[1..]) && multiset(s[1..]) == multiset(s) - multiset{s[0]}
  {
    hide Worse;
    assert s == [s[0]] + s[1..];
  }

  /** There is one ranked order of a collection of matches. */
  lemma {:induction false} RankedIsUnique(a: seq<Match>, b: seq<Match>)
    requires IsRanked(a) && IsRanked(b) && multiset(a) == multiset(b)
    ensures a == b
  {
    hide IsRanked;
    SameSize(a, b);
    if a != [] {
      SameFirst(a, b);
      RankedTail(a);
      RankedTail(b);
      RankedIsUnique(a[1..], b[1..]);
      assert a == [a[0]] + a[1..] && b == [b[0]] + b[1..];
    }
  }

  /** Whatever is split off behind a collection does not change its ranking. */
  lemma SplitRanking(kept: seq<Match>, dropped: seq<Match>, all: seq<Match>)
    requires multiset(kept) + multiset(dropped) == multiset(all)
    requires forall d, m | d in multiset(dropped) && m in multiset(kept) :: Worse(d, m)
    ensures |kept| <= |all| && SortByRank(kept) == SortByRank(all)[..|kept|]
  {
    var front, back := SortByRank(kept), SortByRank(dropped);
    SortRanks(kept);
    SortRanks(dropped);
    SortRanks(all);
    forall i, j | 0 <= i < j < |front + back|
      ensures Worse((front + back)[j], (front + back)[i])
    {
      if i < |front| <= j {
        assert front[i] in multiset(front) && back[j - |front|] in multiset(back);
      }
    }
    assert multiset(front + back) == multiset(all);
    RankedIsUnique(front + back, SortByRank(all));
  }

  // ----- the heap

  function Parent(i: nat): nat
    requires i > 0
  {
    (i - 1) / 2
  }

  /** No match is worse than its parent: the worst is at the root. */
  ghost predicate IsHeap(h: seq<Match>) {
    forall i | 0 < i < |h| :: Worse(h[Parent(i)], h[i])
  }

  lemma {:induction false} RootIsWorst(h: seq<Match>, i: nat)
    requires IsHeap(h) && i < |h|
    ensures Worse(h[0], h[i])
  {
    if i == 0 {
      WorseTotal(h[0], h[0]);
    } else {
      RootIsWorst(h, Parent(i));
      WorseTransitive(h[0], h[Parent(i)], h[i]);
    }
  }

  /** A heap with a misplaced match at one index, which may only be too bad for its place. */
  ghost predicate RisingAt(h: seq<Match>, index: nat) {
    && index < |h|
    && (forall i | 0 < i < |h| && i != index :: Worse(h[Parent(i)], h[i]))
    && (index > 0 ==> forall c | 0 < c < |h| && Parent(c) == index :: Worse(h[Parent(index)], h[c]))
  }

  /** A heap with a misplaced match at one index, which may only be too good for its place. */
  ghost predicate SinkingAt(h: seq<Match>, index: nat) {
    && index < |h|
    && (forall i | 0 < i < |h| && Parent(i) != index :: Worse(h[Parent(i)], h[i]))
    && (index > 0 ==> forall c | 0 < c < |h| && Parent(c) == index :: Worse(h[Parent(index)], h[c]))
  }

  lemma RiseStep(h: seq<Match>, index: nat)
    requires RisingAt(h, index) && index > 0 && !Worse(h[Parent(index)], h[index])
    ensures RisingAt(h[index := h[Parent(index)]][Parent(index) := h[index]], Parent(index))
  {
    var p := Parent(index);
    var g := h[index := h[p]][p := h[index]];
    WorseTotal(h[p], h[index]);
    forall i | 0 < i < |g| && i != p
      ensures Worse(g[Parent(i)], g[i])
    {
      if i != index && Parent(i) == p {
        WorseTransitive(h[index], h[p], h[i]);
      }
    }
    if p > 0 {
      forall c | 0 < c < |g| && Parent(c) == p
        ensures Worse(g[Parent(p)], g[c])
      {
        if c != index {
          WorseTransitive(h[Parent(p)], h[p], h[c]);
        }
      }
    }
  }

  lemma SinkStep(h: seq<Match>, index: nat, child: nat)
    requires SinkingAt(h, index) && 0 < child < |h| && Parent(child) == index
    requires forall c | 0 < c < |h| && Parent(c) == index :: Worse(h[child], h[c])
    requires !Worse(h[index], h[child])
    ensures SinkingAt(h[index := h[child]][child := h[index]], child)
  {
    var g := h[index := h[child]][child := h[index]];
    WorseTotal(h[index], h[child]);
    forall i | 0 < i < |g| && Parent(i) != child
      ensures Worse(g[Parent(i)], g[i])
    {
    }
    forall c | 0 < c < |g| && Parent(c) == child
      ensures Worse(g[Parent(child)], g[c])
    {
      assert Worse(h[Parent(c)], h[c]);
    }
  }

  lemma SwapKeepsMultiset(h: seq<Match>, i: nat, j: nat)
    requires i < |h| && j < |h| && i != j
    ensures multiset(h[i := h[j]][j := h[i]]) == multiset(h)
  {
  }

  lemma StartRising(heap: seq<Match>, m: Match)
    requires IsHeap(heap)
    ensures RisingAt(heap + [m], |heap|)
  {
    hide Worse;
  }

  lemma RiseDone(h: seq<Match>, index: nat)
    requires RisingAt(h, index) && (index > 0 ==> Worse(h[Parent(index)], h[index]))
    ensures IsHeap(h)
  {
    hide Worse;
  }

  /** Pushes a match onto the heap and lets it rise. */
  method Push(heap: seq<Match>, match_: Match) returns (h: seq<Match>)
    requires IsHeap(heap)
    ensures IsHeap(h) && multiset(h) == multiset(heap) + multiset{match_}
    ensures |h| == |heap| + 1
  {
    hide Compare, IsHeap, RisingAt;
    h := heap + [match_];
    var index := |heap|;
    // the array with the match put where the hole is
    ghost var filled := h;
    StartRising(heap, match_);
    while index > 0
      invariant 0 <= index < |h| == |heap| + 1 && filled == h[index := match_]
      invariant RisingAt(filled, index) && multiset(filled) == multiset(heap) + multiset{match_}
    {
      var parent := (index - 1) / 2;
      if Compare(h[parent], match_) >= 0 {
        break;
      }
      RiseStep(filled, index);
      SwapKeepsMultiset(filled, index, parent);
      filled := filled[index := filled[parent]][parent := filled[index]];
      h := h[index := h[parent]];
      index := parent;
    }
    RiseDone(filled, index);
    h := h[index := match_];
  }

  ghost predicate WorstOf(h: seq<Match>, index: nat, child: nat)
    requires child < |h|
  {
    0 < child && Parent(child) == index && forall c | 0 < c < |h| && Parent(c) == index :: Worse(h[child], h[c])
  }

  /** The child chosen for comparison is no better than its sibling. */
  lemma WorstChild(h: seq<Match>, index: nat, child: nat)
    requires index * 2 + 1 <= child <= index * 2 + 2 && child < |h|
    requires if index * 2 + 2 < |h| && Compare(h[index * 2 + 2], h[index * 2 + 1]) > 0 then child == index * 2 + 2 else child == index * 2 + 1
    ensures WorstOf(h, index, child)
  {
    hide Compare;
    forall c | 0 < c < |h| && Parent(c) == index
      ensures Worse(h[child], h[c])
    {
      assert c == index * 2 + 1 || c == index * 2 + 2;
      WorseTotal(h[child], h[c]);
      WorseTotal(h[c], h[child]);
    }
  }

  lemma SinkDone(h: seq<Match>, index: nat, child: nat)
    requires SinkingAt(h, index) && child < |h| && Worse(h[index], h[child]) && WorstOf(h, index, child)
    ensures IsHeap(h)
  {
    hide Worse;
    forall i | 0 < i < |h|
      ensures Worse(h[Parent(i)], h[i])
    {
      if Parent(i) == index {
        WorseTransitive(h[index], h[child], h[i]);
      }
    }
  }

  lemma StartSinking(heap: seq<Match>, m: Match)
    requires IsHeap(heap) && heap != []
    ensures SinkingAt(heap[0 := m], 0)
    ensures multiset(heap[0 := m]) == multiset(heap) - multiset{heap[0]} + multiset{m}
  {
    hide Worse;
  }

  lemma SinkMove(h: seq<Match>, index: nat, child: nat)
    requires SinkingAt(h, index) && child < |h| && WorstOf(h, index, child) && !Worse(h[index], h[child])
    ensures SinkingAt(h[index := h[child]][child := h[index]], child)
    ensures multiset(h[index := h[child]][child := h[index]]) == multiset(h)
  {
    hide Worse;
    SinkStep(h, index, child);
    SwapKeepsMultiset(h, index, child);
  }

  lemma LeafDone(h: seq<Match>, index: nat)
    requires SinkingAt(h, index) && index * 2 + 1 >= |h|
    ensures IsHeap(h)
  {
    hide Worse;
  }

  /** Replaces the root, the worst match kept, by a better one and lets it sink. */
  method ReplaceRoot(heap: seq<Match>, match_: Match) returns (h: seq<Match>)
    requires IsHeap(heap) && heap != []
    ensures IsHeap(h) && multiset(h) == multiset(heap) - multiset{heap[0]} + multiset{match_}
    ensures |h| == |heap|
  {
    hide *;
    h := heap;
    var index := 0;
    ghost var filled := h[0 := match_];
    ghost var members := multiset(heap) - multiset{heap[0]} + multiset{match_};
    StartSinking(heap, match_);
    while index * 2 + 1 < |h|
      invariant index < |h| == |heap| && filled == h[index := match_]
      invariant SinkingAt(filled, index) && multiset(filled) == members
      decreases |h| - index
    {
      var child := index * 2 + 1;
      if child + 1 < |h| && Compare(h[child + 1], h[child]) > 0 {
        child := child + 1;
      }
      assert child < |filled| && filled[child] == h[child] && filled[index] == match_;
      WorstChild(filled, index, child);
      WorseIff(match_, h[child]);
      if Compare(match_, h[child]) >= 0 {
        SinkDone(filled, index, child);
        break;
      }
      SinkMove(filled, index, child);
      filled := filled[index := filled[child]][child := filled[index]];
      h := h[index := h[child]];
      index := child;
    }
    if index * 2 + 1 >= |h| {
      LeafDone(filled, index);
    }
    h := h[index := match_];
  }

  // ----- the selection

  /** What the heap holds after some matches: the best of them, the worst at the root. */
  ghost predicate Selects(heap: seq<Match>, dropped: seq<Match>, seen: seq<Match>) {
    && IsHeap(heap) && multiset(heap) + multiset(dropped) == multiset(seen)
    && forall d, m | d in multiset(dropped) && m in multiset(heap) :: Worse(d, m)
  }

  lemma SelectPushed(heap: seq<Match>, seen: seq<Match>, m: Match, h: seq<Match>)
    requires Selects(heap, [], seen) && IsHeap(h) && multiset(h) == multiset(heap) + multiset{m}
    ensures Selects(h, [], seen + [m])
  {
    hide Worse;
  }

  lemma SelectDropped(heap: seq<Match>, dropped: seq<Match>, seen: seq<Match>, m: Match)
    requires Selects(heap, dropped, seen) && heap != [] && Worse(m, heap[0])
    ensures Selects(heap, dropped + [m], seen + [m])
  {
    hide Worse;
    forall o | o in multiset(heap)
      ensures Worse(m, o)
    {
      var i :| 0 <= i < |heap| && heap[i] == o;
      RootIsWorst(heap, i);
      WorseTransitive(m, heap[0], o);
    }
  }

  lemma SelectReplaced(heap: seq<Match>, dropped: seq<Match>, seen: seq<Match>, m: Match, h: seq<Match>)
    requires Selects(heap, dropped, seen) && heap != [] && !Worse(m, heap[0])
    requires IsHeap(h) && multiset(h) == multiset(heap) - multiset{heap[0]} + multiset{m}
    ensures Selects(h, dropped + [heap[0]], seen + [m])
  {
    hide Worse;
    var root := heap[0];
    WorseTotal(m, root);
    forall o | o in multiset(heap)
      ensures Worse(root, o)
    {
      var i :| 0 <= i < |heap| && heap[i] == o;
      RootIsWorst(heap, i);
    }
    forall d, o | d in multiset(dropped + [root]) && o in multiset(h)
      ensures Worse(d, o)
    {
      if d != root {
        assert d in multiset(dropped) && root in multiset(heap);
        assert Worse(d, root);
        if o == m {
          WorseTransitive(d, root, m);
        }
      }
    }
    assert multiset(dropped + [root]) == multiset(dropped) + multiset{root};
    assert root in multiset(heap);
  }

  function Refs(ms: seq<Match>): (refs: seq<Text>)
    ensures |refs| == |ms| && forall i | 0 <= i < |ms| :: refs[i] == ms[i].ref
  {
    seq(|ms|, i requires 0 <= i < |ms| => ms[i].ref)
  }

  /** How many of so many matches are returned. */
  function Allowed(limit: Option<int>, matches: nat): nat {
    if limit.None? then matches else if limit.value <= 0 then 0 else if limit.value < matches then limit.value else matches
  }

  /** The first limit matches of the full ranking, all of them without a limit, none for a limit
      that is not positive. No match that is left out would come before one that is returned. */
  method RankActions(matches: seq<Match>, limit: Option<int>) returns (actions: seq<Text>)
    ensures var all := Refs(SortByRank(matches));
            actions == match limit
                       case None => all
                       case Some(k) => if k <= 0 then [] else if k < |all| then all[..k] else all
    ensures exists all: seq<Match> ::
              && multiset(all) == multiset(matches) && BestFirst(all) && |actions| == Allowed(limit, |matches|) <= |all|
              && forall i | 0 <= i < |actions| :: actions[i] == all[i].ref
  {
    hide CompareText, Compare, SortByRank, BestFirst;
    SortIsBestFirst(matches);
    ghost var all := SortByRank(matches);
    assert multiset(all) == multiset(matches) && BestFirst(all);
    if limit.None? {
      return Refs(SortByRank(matches));
    }
    if limit.value <= 0 {
      return [];
    }
    var heap := SelectBest(matches, limit.value);
    return Refs(SortByRank(heap));
  }

  /** The heap after every match: as good a choice of that many matches as there is. */
  method SelectBest(matches: seq<Match>, limit: nat) returns (heap: seq<Match>)
    requires limit > 0
    ensures |heap| == (if |matches| < limit then |matches| else limit)
    ensures SortByRank(heap) == SortByRank(matches)[..|heap|]
  {
    hide *;
    heap := [];
    ghost var dropped: seq<Match> := [];
    NothingSelected();
    for n := 0 to |matches|
      invariant Selects(heap, dropped, matches[..n])
      invariant |heap| == if n < limit then n else limit
      invariant n <= limit ==> dropped == []
    {
      var m := matches[n];
      ghost var seen := matches[..n];
      assert matches[..n + 1] == seen + [m];
      SelectedHeap(heap, dropped, seen);
      if |heap| < limit {
        var h := Push(heap, m);
        SelectPushed(heap, seen, m, h);
        heap := h;
      } else {
        WorseIff(m, heap[0]);
        if Compare(m, heap[0]) < 0 {
          var h := ReplaceRoot(heap, m);
          SelectReplaced(heap, dropped, seen, m, h);
          dropped := dropped + [heap[0]];
          heap := h;
        } else {
          SelectDropped(heap, dropped, seen, m);
          dropped := dropped + [m];
        }
      }
    }
    assert matches[..|matches|] == matches;
    SelectedRanking(heap, dropped, matches);
  }

  lemma WorseIff(a: Match, b: Match)
    ensures Worse(a, b) <==> Compare(a, b) >= 0
  {
  }

  lemma NothingSelected()
    ensures Selects([], [], [])
  {
  }

  lemma SelectedHeap(heap: seq<Match>, dropped: seq<Match>, seen: seq<Match>)
    requires Selects(heap, dropped, seen)
    ensures IsHeap(heap)
  {
  }

  lemma SelectedRanking(heap: seq<Match>, dropped: seq<Match>, seen: seq<Match>)
    requires Selects(heap, dropped, seen)
    ensures |heap| <= |seen| && SortByRank(heap) == SortByRank(seen)[..|heap|]
  {
    hide Worse, IsHeap;
    SplitRanking(heap, dropped, seen);
  }

  lemma SameSize(a: seq<Match>, b: seq<Match>)
    requires multiset(a) == multiset(b)
    ensures |a| == |b|
  {
    assert |multiset(a)| == |multiset(b)|;
  }
}
