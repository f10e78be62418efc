/** The reader's side of the journal (bridgeProvenance in src/fovea/engine.ts): the gap decision
    and the records handed on, grouped by owner. */
module ProvenanceBridge {
  import opened Utf16
  import opened ProvenanceJournal
  import opened Wrappers

  /** The host's report: who observed, whether it already knows of a gap, and the journal. */
  datatype Report = Report(origin: Option<Text>, gap: bool, journal: Option<Journal>)

  datatype Bridge = Bridge(sequence: nat, gap: bool, byOwner: map<Text, seq<Record>>)

  /** The report itself admits to a gap or names no observer. */
  predicate Unreliable(input: Option<Report>) {
    input.None? || input.value.gap || input.value.origin.None? || !IsHash(input.value.origin.value)
  }

  ghost predicate Readable(input: Option<Report>, worktree: Text) {
    input.Some? && input.value.journal.Some? && Valid(input.value.journal.value, worktree)
  }

  /** The rows of each owner are its recent records, in commit order; no other owner has rows. */
  ghost predicate RowsOf(byOwner: map<Text, seq<Record>>, recent: seq<Record>) {
    && (forall o | o in byOwner :: byOwner[o] == OfOwner(recent, o) && byOwner[o] != [])
    && (forall r | r in recent :: r.origin in byOwner)
  }

  method BridgeProvenance(input: Option<Report>, worktree: Text, previous: Option<nat>, hasBaseline: bool) returns (result: Bridge)
    ensures result.sequence == if Readable(input, worktree) then input.value.journal.value.sequence else 0
    ensures result.gap <==>
              || Unreliable(input)
              || (input.Some? && input.value.journal.Some?
                  && (!Readable(input, worktree)
                      || (previous.Some? && hasBaseline && Lost(previous.value, input.value.journal.value))))
    ensures if !result.gap && Readable(input, worktree) && previous.Some? && hasBaseline
            then RowsOf(result.byOwner, Fresh(input.value.journal.value.records, previous.value))
            else result.byOwner == map[]
  {
    hide Valid, IsHash, RowsOf, Fresh, Unreliable;
    var gap := Unreliable(input);
    result := Bridge(0, gap, map[]);
    if input.None? || input.value.journal.None? {
      return;
    }
    var journal := input.value.journal.value;
    var valid := ValidateProvenanceJournal(journal, worktree);
    if !valid {
      return result.(gap := true);
    }
    result := result.(sequence := journal.sequence);
    if previous.None? || !hasBaseline {
      return;
    }
    if previous.value > journal.sequence || previous.value < journal.sequence - |journal.records| {
      return result.(gap := true);
    }
    if gap {
      return;
    }
    var byOwner: map<Text, seq<Record>> := map[];
    NoRowsYet(journal.records, previous.value);
    for k := 0 to |journal.records|
      invariant RowsOf(byOwner, Fresh(journal.records[..k], previous.value))
    {
      var r := journal.records[k];
      ghost var so := Fresh(journal.records[..k], previous.value);
      FreshNext(journal.records, k, previous.value);
      if r.sequence <= previous.value {
        continue;
      }
      AddRow(byOwner, so, r);
      var rows := if r.origin in byOwner then byOwner[r.origin] else [];
      byOwner := byOwner[r.origin := rows + [r]];
    }
    assert journal.records[..|journal.records|] == journal.records;
    result := result.(byOwner := byOwner);
  }

  lemma NoRowsYet(records: seq<Record>, previous: nat)
    ensures RowsOf(map[], Fresh(records[..0], previous))
  {
  }

  lemma FreshNext(records: seq<Record>, k: nat, previous: nat)
    requires k < |records|
    ensures var before := Fresh(records[..k], previous);
            Fresh(records[..k + 1], previous) == if records[k].sequence > previous then before + [records[k]] else before
  {
    assert records[..k + 1][..k] == records[..k];
    assert Fresh(records[..k], previous) + [] == Fresh(records[..k], previous);
  }

  lemma {:induction false} NoRows(recent: seq<Record>, owner: Text)
    requires forall r | r in recent :: r.origin != owner
    ensures OfOwner(recent, owner) == []
  {
    if recent != [] {
      NoRows(recent[..|recent| - 1], owner);
    }
  }

  lemma AddRow(byOwner: map<Text, seq<Record>>, recent: seq<Record>, r: Record)
    requires RowsOf(byOwner, recent)
    ensures RowsOf(byOwner[r.origin := (if r.origin in byOwner then byOwner[r.origin] else []) + [r]], recent + [r])
  {
    assert (recent + [r])[..|recent|] == recent;
    if r.origin !in byOwner {
      NoRows(recent, r.origin);
    }
  }

  /** Grouping loses and invents nothing: each record stands in its owner's row as often as it was recent. */
  lemma {:induction false} GroupingKeepsRecords(recent: seq<Record>, owner: Text, r: Record)
    ensures multiset(OfOwner(recent, owner))[r] == if r.origin == owner then multiset(recent)[r] else 0
  {
    if recent != [] {
      GroupingKeepsRecords(recent[..|recent| - 1], owner, r);
      assert recent == recent[..|recent| - 1] + [recent[|recent| - 1]];
    }
  }

  /** The rows of an owner are in commit order. */
  lemma {:induction false} RowsInOrder(recent: seq<Record>, base: int, owner: Text)
    requires Numbered(recent, base)
    ensures forall r | r in OfOwner(recent, owner) :: r in recent && r.origin == owner
    ensures forall i, j | 0 <= i < j < |OfOwner(recent, owner)| :: OfOwner(recent, owner)[i].sequence < OfOwner(recent, owner)[j].sequence
  {
    if recent != [] {
      var n := |recent| - 1;
      RowsInOrder(recent[..n], base, owner);
      var before := OfOwner(recent[..n], owner);
      forall i | 0 <= i < |before|
        ensures before[i].sequence < recent[n].sequence
      {
        assert before[i] in recent[..n];
      }
    }
  }
}
