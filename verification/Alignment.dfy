/** Where a text was changed: regions in before/after coordinates, and what it means for
    one text to be the other with exactly those regions replaced. */
module Alignment {
  import opened Utf16

  datatype Region = Region(beforeStart: nat, beforeEnd: nat, afterStart: nat, afterEnd: nat)

  /** From position b of the before text and a of the after text on, the regions are sorted and
      disjoint, and everything outside them is copied verbatim. */
  ghost predicate Aligned(before: Text, after: Text, b: nat, a: nat, regions: seq<Region>)
    decreases |regions|
  {
    if regions == [] then b <= |before| && a <= |after| && before[b..] == after[a..]
    else
      var r := regions[0];
      && b <= r.beforeStart <= r.beforeEnd <= |before|
      && a <= r.afterStart <= r.afterEnd <= |after|
      && before[b..r.beforeStart] == after[a..r.afterStart]
      && Aligned(before, after, r.beforeEnd, r.afterEnd, regions[1..])
  }

  /** Equal text in front of aligned texts can be added to the first gap. */
  lemma Widen(before: Text, after: Text, b0: nat, a0: nat, b: nat, a: nat, regions: seq<Region>)
    requires Aligned(before, after, b, a, regions)
    requires b0 <= b <= |before| && a0 <= a <= |after| && before[b0..b] == after[a0..a]
    ensures Aligned(before, after, b0, a0, regions)
  {
    if regions == [] {
      assert before[b0..] == before[b0..b] + before[b..];
      assert after[a0..] == after[a0..a] + after[a..];
    } else {
      var r := regions[0];
      assert before[b0..r.beforeStart] == before[b0..b] + before[b..r.beforeStart];
      assert after[a0..r.afterStart] == after[a0..a] + after[a..r.afterStart];
    }
  }

  /** Each region of the after text is the given replacement. */
  ghost predicate Replaced(after: Text, regions: seq<Region>, replacements: seq<Text>) {
    && |regions| == |replacements|
    && (forall i | 0 <= i < |regions| ::
          regions[i].afterStart <= regions[i].afterEnd <= |after|
          && after[regions[i].afterStart..regions[i].afterEnd] == replacements[i])
  }

  lemma AlignedFits(before: Text, after: Text, b: nat, a: nat, regions: seq<Region>)
    requires Aligned(before, after, b, a, regions)
    ensures b <= |before| && a <= |after|
  {
  }

  /** Before coordinates and replacements determine the after text: two texts aligned with
      the same original regions, holding the same replacements, are equal. */
  lemma {:induction false} AlignedIsUnique(before: Text, after1: Text, after2: Text, b: nat, a: nat, regions: seq<Region>, replacements: seq<Text>)
    requires Aligned(before, after1, b, a, regions) && Replaced(after1, regions, replacements)
    requires Aligned(before, after2, b, a, regions) && Replaced(after2, regions, replacements)
    ensures after1[a..] == after2[a..]
    decreases |regions|
  {
    if regions != [] {
      var r := regions[0];
      AlignedFits(before, after1, r.beforeEnd, r.afterEnd, regions[1..]);
      assert forall i | 0 <= i < |regions[1..]| :: regions[1..][i] == regions[i + 1] && replacements[1..][i] == replacements[i + 1];
      AlignedIsUnique(before, after1, after2, r.beforeEnd, r.afterEnd, regions[1..], replacements[1..]);
      assert after1[a..] == after1[a..r.afterStart] + after1[r.afterStart..r.afterEnd] + after1[r.afterEnd..];
      assert after2[a..] == after2[a..r.afterStart] + after2[r.afterStart..r.afterEnd] + after2[r.afterEnd..];
    }
  }
}
