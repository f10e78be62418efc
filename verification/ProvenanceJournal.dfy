/** The per-worktree provenance ledger (src/fovea/provenance-journal.ts): a bounded journal of
    numbered records, its validation and its extension. */
module ProvenanceJournal {
  import opened Utf16
  import opened Json
  import opened Wrappers

  datatype Transition = Transition(path: Text, before: Option<Text>, after: Option<Text>)
  datatype Record = Record(transition: Transition, origin: Text, sequence: nat)
  datatype Journal = Journal(worktree: Text, sequence: nat, records: seq<Record>)

  const MAX_RECORDS := 128
  const MAX_BYTES := 48_000
  const MAX_SAFE := 0x1F_FFFF_FFFF_FFFF

  // ----- validity

  /** 64 lower-case hexadecimal digits. */
  predicate IsHash(h: Text) {
    |h| == 64 && forall i | 0 <= i < 64 :: 0x30 <= h[i] <= 0x39 || 0x61 <= h[i] <= 0x66
  }

  predicate IsHashOrNull(h: Option<Text>) {
    h.None? || IsHash(h.value)
  }

  const SLASH: Unit := 0x2F
  const DOT: Unit := 0x2E
  const BACKSLASH: Unit := 0x5C

  /** No component of a slash-separated path is empty, "." or ".."; current is the component read so far. */
  predicate ComponentsFrom(path: Text, current: Text) {
    if path == [] then current != [] && current != [DOT] && current != [DOT, DOT]
    else if path[0] == SLASH then
      current != [] && current != [DOT] && current != [DOT, DOT] && ComponentsFrom(path[1..], [])
    else ComponentsFrom(path[1..], current + [path[0]])
  }

  predicate GoodName(name: Text) {
    name != [] && name != [DOT] && name != [DOT, DOT]
  }

  /** A stretch of the path between two slashes, or an end of it. */
  ghost predicate IsComponent(path: Text, i: nat, j: nat) {
    && i <= j <= |path| && SLASH !in path[i..j]
    && (i == 0 || path[i - 1] == SLASH) && (j == |path| || path[j] == SLASH)
  }

  ghost predicate GoodNames(path: Text) {
    forall i: nat, j: nat | IsComponent(path, i, j) :: GoodName(path[i..j])
  }

  /** What the check comes to: no stretch between two slashes is empty, "." or "..". */
  lemma {:induction false} ComponentsMean(path: Text, current: Text)
    requires SLASH !in current
    ensures ComponentsFrom(path, current) <==> GoodNames(current + path)
    decreases |path|
  {
    hide IsComponent, GoodNames;
    if path == [] {
      assert current + path == current;
      OneName(current);
    } else if path[0] == SLASH {
      ComponentsMean(path[1..], []);
      assert [] + path[1..] == path[1..];
      assert current + path == current + [SLASH] + path[1..];
      FirstName(current, path[1..]);
    } else {
      ComponentsMean(path[1..], current + [path[0]]);
      assert current + path == current + [path[0]] + path[1..];
    }
  }

  lemma OneName(name: Text)
    requires SLASH !in name
    ensures GoodNames(name) <==> GoodName(name)
  {
    assert name[0..|name|] == name;
    assert IsComponent(name, 0, |name|);
    assert forall k | 0 <= k < |name| :: name[k] != SLASH;
  }

  lemma Inside(path: Text, i: nat, j: nat, k: nat)
    requires j <= |path|
    ensures i <= k < j ==> path[k] in path[i..j]
  {
    if i <= k < j {
      assert path[i..j][k - i] == path[k];
    }
  }

  lemma FirstName(name: Text, rest: Text)
    requires SLASH !in name
    ensures GoodNames(name + [SLASH] + rest) <==> GoodName(name) && GoodNames(rest)
  {
    var path := name + [SLASH] + rest;
    var c := |name| + 1;
    assert path[0..|name|] == name;
    assert IsComponent(path, 0, |name|);
    forall i: nat, j: nat | IsComponent(rest, i, j)
      ensures IsComponent(path, c + i, c + j) && path[c + i..c + j] == rest[i..j]
    {
      assert path[c + i..c + j] == rest[i..j];
    }
    assert forall k | 0 <= k < |name| :: name[k] != SLASH && path[k] == name[k];
    forall i: nat, j: nat | IsComponent(path, i, j)
      ensures if i < c then i == 0 && j == |name| else IsComponent(rest, i - c, j - c) && path[i..j] == rest[i - c..j - c]
    {
      if i < c {
        Inside(path, i, j, |name|);
      } else {
        assert path[i..j] == rest[i - c..j - c];
      }
    }
  }

  predicate ValidTransition(t: Transition) {
    && 0 < |t.path| <= 512
    && (forall u | u in t.path :: u != BACKSLASH && u >= 0x20 && u != 0x7F)
    && ComponentsFrom(t.path, [])
    && IsHashOrNull(t.before) && IsHashOrNull(t.after)
  }

  function HashBytes(h: Option<Text>): nat {
    if h.None? then 4 else StringBytes(h.value)
  }

  function RecordBytes(r: Record): nat {
    62 + StringBytes(r.transition.path) + HashBytes(r.transition.before) + HashBytes(r.transition.after)
    + StringBytes(r.origin) + Digits(r.sequence)
  }

  function RecordsBytes(rs: seq<Record>): nat {
    if rs == [] then 0 else RecordBytes(rs[0]) + (if |rs| > 1 then 1 else 0) + RecordsBytes(rs[1..])
  }

  /** UTF-8 size of the serialized journal. */
  function JournalBytes(j: Journal): nat {
    50 + StringBytes(j.worktree) + Digits(j.sequence) + RecordsBytes(j.records)
  }

  ghost predicate Numbered(rs: seq<Record>, base: int) {
    forall i | 0 <= i < |rs| :: rs[i].sequence == base + i + 1
  }

  ghost predicate RecordsValid(rs: seq<Record>) {
    forall i | 0 <= i < |rs| :: ValidTransition(rs[i].transition) && IsHash(rs[i].origin)
  }

  /** What a journal must be to be read at all. */
  ghost predicate Valid(j: Journal, worktree: Text) {
    && IsHash(worktree) && j.worktree == worktree
    && j.sequence <= MAX_SAFE && |j.records| <= MAX_RECORDS && |j.records| <= j.sequence
    && RecordsValid(j.records) && Numbered(j.records, j.sequence - |j.records|)
    && JournalBytes(j) <= MAX_BYTES
  }

  /** validateProvenanceJournal on a journal-shaped value. */
  method ValidateProvenanceJournal(j: Journal, worktree: Text) returns (ok: bool)
    ensures ok <==> Valid(j, worktree)
  {
    if !IsHash(worktree) || j.worktree != worktree || j.sequence > MAX_SAFE || |j.records| > MAX_RECORDS {
      return false;
    }
    var previous: int := j.sequence - |j.records|;
    if previous < 0 {
      return false;
    }
    for k := 0 to |j.records|
      invariant previous == j.sequence - |j.records| + k
      invariant RecordsValid(j.records[..k]) && Numbered(j.records[..k], j.sequence - |j.records|)
    {
      var r := j.records[k];
      previous := previous + 1;
      if !ValidTransition(r.transition) || !IsHash(r.origin) || r.sequence != previous {
        return false;
      }
    }
    assert j.records[..|j.records|] == j.records;
    return previous == j.sequence && JournalBytes(j) <= MAX_BYTES;
  }

  // ----- extension

  /** The records that a list of transitions adds after a sequence number: no-ops are skipped. */
  function Admitted(sequence: nat, origin: Text, ts: seq<Transition>): (rs: seq<Record>)
    ensures |rs| <= |ts|
  {
    if ts == [] then []
    else
      var n := |ts| - 1;
      var rs := Admitted(sequence, origin, ts[..n]);
      if ts[n].before == ts[n].after then rs else rs + [Record(ts[n], origin, sequence + |rs| + 1)]
  }

  lemma {:induction false} AdmittedNumbered(sequence: nat, origin: Text, ts: seq<Transition>)
    ensures Numbered(Admitted(sequence, origin, ts), sequence)
  {
    if ts != [] {
      AdmittedNumbered(sequence, origin, ts[..|ts| - 1]);
    }
  }

  lemma {:induction false} AdmittedValid(sequence: nat, origin: Text, ts: seq<Transition>)
    requires IsHash(origin) && forall t | t in ts :: ValidTransition(t)
    ensures RecordsValid(Admitted(sequence, origin, ts))
  {
    if ts != [] {
      hide ValidTransition, IsHash;
      AdmittedValid(sequence, origin, ts[..|ts| - 1]);
    }
  }

  /** What is recorded for a list of transitions behind a sequence number: those that change their
      path, at these places of the list, in order, as they are, numbered on. */
  ghost predicate Recorded(added: seq<Record>, at: seq<nat>, base: nat, origin: Text, ts: seq<Transition>) {
    && |at| == |added|
    && (forall k, l | 0 <= k < l < |at| :: at[k] < at[l])
    && (forall n: nat :: n in at <==> n < |ts| && ts[n].before != ts[n].after)
    && (forall k | 0 <= k < |added| ::
          && at[k] < |ts| && added[k].transition == ts[at[k]]
          && added[k].origin == origin && added[k].sequence == base + k + 1)
  }

  lemma {:induction false} AdmittedIsRecorded(sequence: nat, origin: Text, ts: seq<Transition>) returns (at: seq<nat>)
    ensures Recorded(Admitted(sequence, origin, ts), at, sequence, origin, ts)
  {
    hide Recorded, Admitted;
    if ts == [] {
      at := [];
      NothingAdmitted(sequence, origin);
    } else {
      var n := |ts| - 1;
      at := AdmittedIsRecorded(sequence, origin, ts[..n]);
      AdmittedNext(sequence, origin, ts);
      if ts[n].before != ts[n].after {
        RecordedNext(Admitted(sequence, origin, ts[..n]), at, sequence, origin, ts);
        at := at + [n];
      } else {
        RecordedStill(Admitted(sequence, origin, ts[..n]), at, sequence, origin, ts);
      }
    }
  }

  lemma RecordedStill(added: seq<Record>, at: seq<nat>, base: nat, origin: Text, ts: seq<Transition>)
    requires ts != [] && Recorded(added, at, base, origin, ts[..|ts| - 1]) && ts[|ts| - 1].before == ts[|ts| - 1].after
    ensures Recorded(added, at, base, origin, ts)
  {
    forall m: nat
      ensures m in at <==> m < |ts| && ts[m].before != ts[m].after
    {
      assert m < |ts| - 1 ==> ts[..|ts| - 1][m] == ts[m];
    }
  }

  lemma RecordedNext(added: seq<Record>, at: seq<nat>, base: nat, origin: Text, ts: seq<Transition>)
    requires ts != [] && Recorded(added, at, base, origin, ts[..|ts| - 1]) && ts[|ts| - 1].before != ts[|ts| - 1].after
    ensures Recorded(added + [Record(ts[|ts| - 1], origin, base + |added| + 1)], at + [|ts| - 1], base, origin, ts)
  {
    var n := |ts| - 1;
    forall m: nat
      ensures m in at + [n] <==> m < |ts| && ts[m].before != ts[m].after
    {
      assert m in at + [n] <==> m in at || m == n;
      assert m < n ==> ts[..n][m] == ts[m];
    }
  }

  /** Nothing else can be recorded for these transitions. */
  lemma {:induction false} RecordedIsAdmitted(added: seq<Record>, at: seq<nat>, base: nat, origin: Text, ts: seq<Transition>)
    requires Recorded(added, at, base, origin, ts)
    ensures added == Admitted(base, origin, ts)
    decreases |ts|
  {
    hide Admitted, Recorded;
    if ts == [] {
      NothingAdmitted(base, origin);
      RecordedNeedsSome(added, at, base, origin, ts);
    } else {
      AdmittedNext(base, origin, ts);
      var n := |ts| - 1;
      if ts[n].before == ts[n].after {
        RecordedWithoutLast(added, at, base, origin, ts);
        RecordedIsAdmitted(added, at, base, origin, ts[..n]);
      } else {
        RecordedBefore(added, at, base, origin, ts);
        var last := |at| - 1;
        RecordedIsAdmitted(added[..last], at[..last], base, origin, ts[..n]);
        assert added == added[..last] + [Record(ts[n], origin, base + last + 1)];
      }
    }
  }

  lemma RecordedNeedsSome(added: seq<Record>, at: seq<nat>, base: nat, origin: Text, ts: seq<Transition>)
    requires Recorded(added, at, base, origin, ts)
    ensures added != [] ==> ts != []
  {
    if added != [] {
      assert at[0] < |ts|;
    }
  }

  lemma NothingAdmitted(base: nat, origin: Text)
    ensures Admitted(base, origin, []) == [] && Recorded([], [], base, origin, [])
  {
  }

  lemma AdmittedNext(base: nat, origin: Text, ts: seq<Transition>)
    requires ts != []
    ensures var n := |ts| - 1;
            var rs := Admitted(base, origin, ts[..n]);
            Admitted(base, origin, ts) == if ts[n].before == ts[n].after then rs else rs + [Record(ts[n], origin, base + |rs| + 1)]
  {
  }

  lemma RecordedWithoutLast(added: seq<Record>, at: seq<nat>, base: nat, origin: Text, ts: seq<Transition>)
    requires Recorded(added, at, base, origin, ts) && ts != [] && ts[|ts| - 1].before == ts[|ts| - 1].after
    ensures Recorded(added, at, base, origin, ts[..|ts| - 1])
  {
    var n := |ts| - 1;
    forall k | 0 <= k < |at|
      ensures at[k] < n
    {
      assert at[k] in at;
    }
  }

  lemma RecordedBefore(added: seq<Record>, at: seq<nat>, base: nat, origin: Text, ts: seq<Transition>)
    requires Recorded(added, at, base, origin, ts) && ts != [] && ts[|ts| - 1].before != ts[|ts| - 1].after
    ensures at != [] && |added| == |at| && added[|at| - 1] == Record(ts[|ts| - 1], origin, base + |at|)
    ensures Recorded(added[..|at| - 1], at[..|at| - 1], base, origin, ts[..|ts| - 1])
  {
    var n := |ts| - 1;
    assert n in at;
    var k :| 0 <= k < |at| && at[k] == n;
    assert at[|at| - 1] in at;
    var front := at[..|at| - 1];
    assert at == front + [n];
    forall m: nat
      ensures m in front <==> m < n && ts[..n][m].before != ts[..n][m].after
    {
      assert m in at <==> m in front || m == n;
    }
  }

  /** A journal within the record and byte bounds. */
  predicate Fits(j: Journal) {
    |j.records| <= MAX_RECORDS && JournalBytes(j) <= MAX_BYTES
  }

  /** Drops the oldest records until the journal fits; the empty journal is as small as it gets. */
  function Trim(j: Journal): Journal
    decreases |j.records|
  {
    if Fits(j) || j.records == [] then j else Trim(j.(records := j.records[1..]))
  }

  /** The extended journal, unless the sequence numbers run out. */
  function Extended(j: Journal, origin: Text, ts: seq<Transition>): Option<Journal> {
    var more := Admitted(j.sequence, origin, ts);
    if j.sequence + |more| > MAX_SAFE then None
    else Some(Trim(Journal(j.worktree, j.sequence + |more|, j.records + more)))
  }

  /** The journal after a list of transitions, without the functions that compute it: what was
      recorded is added, and the oldest records go as long as a bound is exceeded. */
  ghost predicate Extends(before: Journal, origin: Text, ts: seq<Transition>, after: Journal) {
    exists added, at, dropped: nat ::
      && Recorded(added, at, before.sequence, origin, ts)
      && after.worktree == before.worktree && after.sequence == before.sequence + |added| <= MAX_SAFE
      && Kept(before.records + added, dropped, after)
  }

  ghost predicate Kept(all: seq<Record>, dropped: nat, after: Journal) {
    && dropped <= |all| && after.records == all[dropped..]
    && |after.records| <= MAX_RECORDS && JournalBytes(after) <= MAX_BYTES
    && forall i | 0 <= i < dropped :: |all| - i > MAX_RECORDS || JournalBytes(after.(records := all[i..])) > MAX_BYTES
  }

  /** The transitions would take more sequence numbers than there are. */
  ghost predicate Exhausts(before: Journal, origin: Text, ts: seq<Transition>) {
    exists added, at :: Recorded(added, at, before.sequence, origin, ts) && before.sequence + |added| > MAX_SAFE
  }

  lemma ExtendedMeans(j: Journal, origin: Text, ts: seq<Transition>)
    requires IsHash(j.worktree) && j.sequence <= MAX_SAFE
    ensures Extended(j, origin, ts).None? ==> Exhausts(j, origin, ts)
    ensures Extended(j, origin, ts).Some? ==> Extends(j, origin, ts, Extended(j, origin, ts).value)
  {
    hide Recorded, Admitted, IsHash, Trim, JournalBytes;
    var at := AdmittedIsRecorded(j.sequence, origin, ts);
    var added := Admitted(j.sequence, origin, ts);
    if Extended(j, origin, ts).Some? {
      var full := Journal(j.worktree, j.sequence + |added|, j.records + added);
      TrimKeepsLongestSuffix(full);
      var dropped: nat := |full.records| - |Trim(full).records|;
      assert forall i | 0 <= i < dropped :: full.(records := full.records[i..]) == Trim(full).(records := full.records[i..]);
      assert Kept(j.records + added, dropped, Trim(full));
    }
  }

  lemma EmptyFits(j: Journal)
    requires IsHash(j.worktree) && j.sequence <= MAX_SAFE && j.records == []
    ensures Fits(j)
  {
    ContentBounds(j.worktree);
    SafeIntegerDigits(j.sequence);
  }

  /** Trimming keeps the longest suffix that fits: every longer one is over a bound. */
  lemma {:induction false} TrimKeepsLongestSuffix(j: Journal)
    requires IsHash(j.worktree) && j.sequence <= MAX_SAFE
    ensures |Trim(j).records| <= |j.records| && Fits(Trim(j))
    ensures var k := |j.records| - |Trim(j).records|;
            Trim(j) == j.(records := j.records[k..]) && forall i | 0 <= i < k :: !Fits(j.(records := j.records[i..]))
    decreases |j.records|
  {
    hide Fits, IsHash;
    assert j.records[0..] == j.records;
    if Fits(j) {
    } else if j.records == [] {
      EmptyFits(j);
    } else {
      var shorter := j.(records := j.records[1..]);
      TrimKeepsLongestSuffix(shorter);
      assert forall i | 0 < i <= |j.records| :: j.records[i..] == shorter.records[i - 1..];
    }
  }

  /** The journal object that append mutates before publishing it. */
  class Ledger {
    const worktree: Text
    var sequence: nat
    var records: seq<Record>

    function Value(): Journal
      reads this
    {
      Journal(worktree, sequence, records)
    }

    constructor (j: Journal)
      ensures Value() == j
    {
      worktree, sequence, records := j.worktree, j.sequence, j.records;
    }

    /** Pushes the effective transitions, then shifts old records out until the bounds hold.
        False when the sequence numbers are exhausted; the object is then abandoned. */
    method Extend(origin: Text, transitions: seq<Transition>) returns (ok: bool)
      requires IsHash(worktree) && sequence <= MAX_SAFE
      modifies this
      ensures ok <==> Extended(old(Value()), origin, transitions).Some?
      ensures ok ==> Value() == Extended(old(Value()), origin, transitions).value
      ensures ok ==> Extends(old(Value()), origin, transitions, Value())
      ensures !ok ==> Exhausts(old(Value()), origin, transitions)
    {
      hide IsHash, Fits, Extends, Exhausts;
      ExtendedMeans(Value(), origin, transitions);
      ghost var start := sequence;
      for k := 0 to |transitions|
        invariant sequence == start + |Admitted(start, origin, transitions[..k])| <= MAX_SAFE
        invariant records == old(records) + Admitted(start, origin, transitions[..k])
      {
        var t := transitions[k];
        assert transitions[..k + 1][..k] == transitions[..k];
        if t.before == t.after {
          continue;
        }
        if sequence + 1 > MAX_SAFE {
          AdmittedGrows(start, origin, transitions, k + 1);
          return false;
        }
        sequence := sequence + 1;
        records := records + [Record(t, origin, sequence)];
      }
      assert transitions[..|transitions|] == transitions;
      ghost var full := Value();
      while !Fits(Value())
        invariant sequence == full.sequence && Trim(Value()) == Trim(full)
        decreases |records|
      {
        if records == [] {
          EmptyFits(Value());
        }
        records := records[1..];
      }
      return true;
    }
  }

  lemma {:induction false} AdmittedGrows(sequence: nat, origin: Text, ts: seq<Transition>, k: nat)
    requires k <= |ts|
    ensures |Admitted(sequence, origin, ts[..k])| <= |Admitted(sequence, origin, ts)|
    decreases |ts| - k
  {
    if k == |ts| {
      assert ts[..k] == ts;
    } else {
      AdmittedGrows(sequence, origin, ts, k + 1);
      assert ts[..k + 1][..k] == ts[..k];
    }
  }

  /** Extending a valid journal gives a valid one whose records are the newest part of the old
      and new ones, in order and without a hole. */
  lemma ExtendKeepsValid(j: Journal, worktree: Text, origin: Text, ts: seq<Transition>)
    requires Valid(j, worktree) && IsHash(origin) && forall t | t in ts :: ValidTransition(t)
    requires Extended(j, origin, ts).Some?
    ensures var e := Extended(j, origin, ts).value;
            var all := j.records + Admitted(j.sequence, origin, ts);
            && Valid(e, worktree)
            && e.sequence == j.sequence + |Admitted(j.sequence, origin, ts)|
            && |e.records| <= |all| && e.records == all[|all| - |e.records|..]
  {
    hide IsHash, ValidTransition, JournalBytes, Admitted, Trim;
    var more := Admitted(j.sequence, origin, ts);
    var all := j.records + more;
    var full := Journal(j.worktree, j.sequence + |more|, all);
    AdmittedNumbered(j.sequence, origin, ts);
    AdmittedValid(j.sequence, origin, ts);
    TrimKeepsLongestSuffix(full);
    JoinValid(j.records, more, j.sequence - |j.records|);
    SuffixValid(all, |all| - |Trim(full).records|, j.sequence - |j.records|);
  }

  lemma JoinValid(a: seq<Record>, b: seq<Record>, base: int)
    requires Numbered(a, base) && RecordsValid(a) && Numbered(b, base + |a|) && RecordsValid(b)
    ensures Numbered(a + b, base) && RecordsValid(a + b)
  {
    hide ValidTransition, IsHash;
  }

  lemma SuffixValid(all: seq<Record>, k: nat, base: int)
    requires k <= |all| && Numbered(all, base) && RecordsValid(all)
    ensures Numbered(all[k..], base + k) && RecordsValid(all[k..])
  {
    hide ValidTransition, IsHash;
  }

  // ----- the reader's decision

  /** Records after a sequence number, in order. */
  function Fresh(rs: seq<Record>, after: nat): seq<Record> {
    if rs == [] then []
    else Fresh(rs[..|rs| - 1], after) + if rs[|rs| - 1].sequence > after then [rs[|rs| - 1]] else []
  }

  function OfOwner(rs: seq<Record>, owner: Text): seq<Record> {
    if rs == [] then []
    else OfOwner(rs[..|rs| - 1], owner) + if rs[|rs| - 1].origin == owner then [rs[|rs| - 1]] else []
  }

  /** History between the stored baseline and the journal is lost, or the journal went backwards. */
  predicate Lost(previous: nat, j: Journal) {
    previous > j.sequence || previous < j.sequence - |j.records|
  }

  lemma {:induction false} FreshIsSuffix(rs: seq<Record>, base: nat, after: nat)
    requires Numbered(rs, base) && base <= after <= base + |rs|
    ensures Fresh(rs, after) == rs[after - base..]
    decreases |rs|
  {
    if rs == [] {
    } else {
      var n := |rs| - 1;
      if after == base + |rs| {
        FreshIsNone(rs, base, after);
      } else {
        FreshIsSuffix(rs[..n], base, after);
        assert rs[after - base..] == rs[..n][after - base..] + [rs[n]];
      }
    }
  }

  lemma {:induction false} FreshIsNone(rs: seq<Record>, base: nat, after: nat)
    requires Numbered(rs, base) && base + |rs| <= after
    ensures Fresh(rs, after) == []
  {
    if rs != [] {
      FreshIsNone(rs[..|rs| - 1], base, after);
    }
  }
}
