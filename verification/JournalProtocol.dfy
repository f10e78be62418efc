/** The append protocol of the provenance journal as a state machine: any number of appends on
    one worktree, each under the exclusive lock (src/fovea/provenance-journal.ts) or by
    compare-and-replace (src/fovea/source-platform-native.c), interleaved step by step, any of
    them failing or crashing at any step. */
module JournalProtocol {
  import opened ProvenanceJournal
  import opened Wrappers

  /** What is stored under the journal's name. */
  datatype Content = Absent | Stored(journal: Journal) | Unreadable

  /** Whether the append reads under the lock, or proposes first and compares under the lock. */
  datatype Mode = LockedRead | Native

  datatype Request = Request(mode: Mode, origin: Text, transitions: seq<Transition>)

  datatype Phase =
    | Ready
    | Proposed(before: Content, next: Journal)
    | Locked
    | LockedProposal(before: Content, next: Journal)
    | Prepared(next: Journal)
    | Written(next: Journal)
    | Renamed
    | Closing(ok: bool)
    | Done(ok: bool)
    | Crashed

  datatype Append = Append(request: Request, phase: Phase)

  datatype Publication = Publication(id: nat, request: Request, before: Content, after: Journal)

  /** The shared directory and the appends so far; history and log only record what happened. */
  datatype State = State(
    worktree: Text, file: Content, lock: Option<nat>, appends: map<nat, Append>,
    history: seq<Publication>, log: seq<Record>)

  type Text = ProvenanceJournal.Utf16.Text

  datatype Step =
    | Arrive(id: nat, request: Request)
    | ReadBefore(id: nat)
    | Acquire(id: nat)
    | Load(id: nat)
    | Compare(id: nat)
    | WriteTemporary(id: nat)
    | Rename(id: nat)
    | SyncDirectory(id: nat)
    | Unlock(id: nat)
    | LateFailure(id: nat)
    | Fault(id: nat)
    | Crash(id: nat)

  ghost function Decode(content: Content, worktree: Text): Option<Journal> {
    match content
    case Absent => Some(Journal(worktree, 0, []))
    case Stored(j) => if Valid(j, worktree) then Some(j) else None
    case Unreadable => None
  }

  ghost predicate ValidRequest(r: Request) {
    IsHash(r.origin) && |r.transitions| <= MAX_RECORDS && forall t | t in r.transitions :: ValidTransition(t)
  }

  /** The journal an append would publish over a content. */
  ghost function Proposal(content: Content, worktree: Text, r: Request): Option<Journal> {
    match Decode(content, worktree)
    case None => None
    case Some(j) => Extended(j, r.origin, r.transitions)
  }

  predicate HoldsLock(p: Phase) {
    p.Locked? || p.LockedProposal? || p.Prepared? || p.Written? || p.Renamed? || p.Closing?
  }

  predicate Over(p: Phase) {
    p.Done? || p.Crashed?
  }

  ghost predicate Enabled(s: State, step: Step) {
    match step
    case Arrive(id, _) => id !in s.appends
    case _ =>
      && step.id in s.appends
      && var a := s.appends[step.id];
         match step
         case Arrive(_, _) => false
         case ReadBefore(_) => a.phase.Ready? && a.request.mode.Native?
         case Acquire(_) => (a.phase.Ready? && a.request.mode.LockedRead?) || a.phase.Proposed?
         case Load(_) => a.phase.Locked?
         case Compare(_) => a.phase.LockedProposal?
         case WriteTemporary(_) => a.phase.Prepared?
         case Rename(_) => a.phase.Written?
         case SyncDirectory(_) => a.phase.Renamed?
         case Unlock(_) => a.phase.Closing?
         case LateFailure(_) => a.phase.Closing?
         case Fault(_) => !Over(a.phase)
         case Crash(_) => !Over(a.phase)
  }

  function Move(s: State, id: nat, phase: Phase): State
    requires id in s.appends
  {
    s.(appends := s.appends[id := s.appends[id].(phase := phase)])
  }

  ghost function Apply(s: State, step: Step): State
    requires Enabled(s, step)
  {
    match step
    case Arrive(id, r) => s.(appends := s.appends[id := Append(r, if ValidRequest(r) then Ready else Done(false))])
    case ReadBefore(id) =>
      var next := Proposal(s.file, s.worktree, s.appends[id].request);
      Move(s, id, if next.None? then Done(false) else Proposed(s.file, next.value))
    case Acquire(id) =>
      var p := s.appends[id].phase;
      // contention is a failure: no waiting and no stale-lock recovery
      if s.lock.Some? then Move(s, id, Done(false))
      else Move(s.(lock := Some(id)), id, if p.Proposed? then LockedProposal(p.before, p.next) else Locked)
    case Load(id) =>
      var next := Proposal(s.file, s.worktree, s.appends[id].request);
      Move(s, id, if next.None? then Closing(false) else Prepared(next.value))
    case Compare(id) =>
      var p := s.appends[id].phase;
      Move(s, id, if s.file == p.before then Prepared(p.next) else Closing(false))
    case WriteTemporary(id) => Move(s, id, Written(s.appends[id].phase.next))
    case Rename(id) => Publish(s, id)
    case SyncDirectory(id) => Move(s, id, Closing(true))
    case Unlock(id) => Move(s.(lock := None), id, Done(s.appends[id].phase.ok))
    // the lock is removed but the closing checks fail
    case LateFailure(id) => Move(s.(lock := None), id, Done(false))
    // an operation fails: before the lock nothing is held, under it cleanup follows, and a
    // failed cleanup leaves the lock behind
    case Fault(id) =>
      var p := s.appends[id].phase;
      Move(s, id, if HoldsLock(p) && !p.Closing? then Closing(false) else Done(false))
    case Crash(id) => Move(s, id, Crashed)
  }

  ghost function Publish(s: State, id: nat): State
    requires id in s.appends && s.appends[id].phase.Written?
  {
    var a := s.appends[id];
    var before := Decode(s.file, s.worktree);
    Move(s.(file := Stored(a.phase.next),
            history := s.history + [Publication(id, a.request, s.file, a.phase.next)],
            log := s.log + if before.None? then [] else Admitted(before.value.sequence, a.request.origin, a.request.transitions)),
         id, Renamed)
  }

  /** The state after a run; steps that are not enabled are impossible and change nothing. */
  ghost function Run(s: State, steps: seq<Step>): State {
    if steps == [] then s
    else
      var t := Run(s, steps[..|steps| - 1]);
      if Enabled(t, steps[|steps| - 1]) then Apply(t, steps[|steps| - 1]) else t
  }

  /** Any content may be found at the start. */
  ghost predicate Init(s: State) {
    && ProvenanceJournal.IsHash(s.worktree)
    && s.lock.None? && s.appends == map[] && s.history == []
    && s.log == (match Decode(s.file, s.worktree) case None => [] case Some(j) => j.records)
  }

  /** Sequence number before the first logged record. */
  ghost function Base(start: State): int {
    match Decode(start.file, start.worktree)
    case None => 0
    case Some(j) => j.sequence - |j.records|
  }

  // ----- what every run keeps

  function Times(history: seq<Publication>, id: nat): nat {
    if history == [] then 0
    else Times(history[..|history| - 1], id) + if history[|history| - 1].id == id then 1 else 0
  }

  /** How often an append in a phase may have been published. */
  predicate TimesAllowed(p: Phase, times: nat) {
    match p
    case Renamed => times == 1
    case Closing(ok) => if ok then times == 1 else times <= 1
    case Done(ok) => if ok then times == 1 else times <= 1
    case Crashed => times <= 1
    case _ => times == 0
  }

  ghost predicate PhaseMatches(file: Content, worktree: Text, a: Append) {
    && (!Over(a.phase) ==> ValidRequest(a.request))
    && match a.phase
       case Proposed(before, next) => Proposal(before, worktree, a.request) == Some(next)
       case LockedProposal(before, next) => Proposal(before, worktree, a.request) == Some(next)
       case Prepared(next) => Proposal(file, worktree, a.request) == Some(next)
       case Written(next) => Proposal(file, worktree, a.request) == Some(next)
       case _ => true
  }

  ghost predicate AppendOk(s: State, id: nat)
    requires id in s.appends
  {
    var a := s.appends[id];
    && (HoldsLock(a.phase) ==> s.lock == Some(id))
    && PhaseMatches(s.file, s.worktree, a)
    && TimesAllowed(a.phase, Times(s.history, id))
  }

  /** The content left by a history. */
  function Latest(start: Content, history: seq<Publication>): Content {
    if history == [] then start else Stored(history[|history| - 1].after)
  }

  /** Every publication extends exactly the content published just before it. */
  ghost predicate Linear(start: Content, worktree: Text, history: seq<Publication>) {
    if history == [] then true
    else
      var n := |history| - 1;
      && Linear(start, worktree, history[..n])
      && history[n].before == Latest(start, history[..n])
      && ValidRequest(history[n].request)
      && Proposal(history[n].before, worktree, history[n].request) == Some(history[n].after)
  }

  /** The stored records are the newest part of everything ever admitted. */
  ghost predicate LogMatches(base: int, log: seq<Record>, j: Journal) {
    && Numbered(log, base) && base + |log| == j.sequence && 0 <= base
    && |j.records| <= |log| && j.records == log[|log| - |j.records|..]
  }

  ghost predicate StoreOk(start: State, s: State) {
    && s.worktree == start.worktree
    && s.file == Latest(start.file, s.history)
    && Linear(start.file, s.worktree, s.history)
    && (Decode(start.file, start.worktree).None? ==> s.history == [])
    && (Decode(start.file, start.worktree).Some? ==>
          && Decode(s.file, s.worktree).Some?
          && LogMatches(Base(start), s.log, Decode(s.file, s.worktree).value))
  }

  ghost predicate Inv(start: State, s: State) {
    && StoreOk(start, s)
    && (forall id | id in s.appends :: AppendOk(s, id))
    && (forall id | id !in s.appends :: Times(s.history, id) == 0)
  }

  lemma InitInv(s: State)
    requires Init(s)
    ensures Inv(s, s)
  {
    hide JournalBytes, RecordsValid, IsHash, AppendOk;
    var d := Decode(s.file, s.worktree);
    if d.Some? {
      var j := d.value;
      assert j.records[0..] == j.records;
      assert Base(s) == j.sequence - |j.records|;
      assert LogMatches(Base(s), s.log, j);
    }
    assert StoreOk(s, s);
  }

  /** A step that moves one append and touches neither the file nor the history. */
  lemma MoveKeepsInv(start: State, s: State, t: State, id: nat)
    requires Inv(start, s)
    requires t == s.(lock := t.lock, appends := t.appends)
    requires id in t.appends && t.appends.Keys == s.appends.Keys + {id} && AppendOk(t, id)
    requires forall o | o in s.appends && o != id :: t.appends[o] == s.appends[o]
    requires t.lock == s.lock || s.lock.None? || s.lock == Some(id)
    ensures Inv(start, t)
  {
    hide PhaseMatches, TimesAllowed, StoreOk;
    StoreUntouched(start, s, t);
    forall o | o in t.appends
      ensures AppendOk(t, o)
    {
      if o != id {
        assert o in s.appends && AppendOk(s, o);
      }
    }
  }

  lemma StoreUntouched(start: State, s: State, t: State)
    requires StoreOk(start, s)
    requires t == s.(lock := t.lock, appends := t.appends)
    ensures StoreOk(start, t)
  {
  }

  lemma TimesNext(history: seq<Publication>, p: Publication, id: nat)
    ensures Times(history + [p], id) == Times(history, id) + if p.id == id then 1 else 0
  {
    assert (history + [p])[..|history|] == history;
  }

  /** Extending keeps the log in step with the stored records. */
  lemma LogExtends(base: int, log: seq<Record>, j: Journal, worktree: Text, r: Request, next: Journal)
    requires LogMatches(base, log, j) && Valid(j, worktree) && ValidRequest(r)
    requires Extended(j, r.origin, r.transitions) == Some(next)
    ensures Valid(next, worktree)
    ensures LogMatches(base, log + Admitted(j.sequence, r.origin, r.transitions), next)
  {
    hide Valid, Extended, Admitted, ValidTransition, IsHash;
    var more := Admitted(j.sequence, r.origin, r.transitions);
    ExtendKeepsValid(j, worktree, r.origin, r.transitions);
    AdmittedNumbered(j.sequence, r.origin, r.transitions);
    var all := j.records + more;
    var k := |log| - |j.records|;
    assert (log + more)[k..] == all;
    assert (log + more)[|log + more| - |next.records|..] == all[|all| - |next.records|..];
  }

  lemma EmptyJournalValid(worktree: Text)
    requires IsHash(worktree)
    ensures Valid(Journal(worktree, 0, []), worktree)
  {
    EmptyFits(Journal(worktree, 0, []));
  }

  lemma DecodedIsValid(content: Content, worktree: Text)
    requires IsHash(worktree) && Decode(content, worktree).Some?
    ensures Valid(Decode(content, worktree).value, worktree)
  {
    hide Valid;
    EmptyJournalValid(worktree);
  }

  lemma PublishKeepsStore(start: State, s: State, id: nat)
    requires Init(start) && StoreOk(start, s)
    requires id in s.appends && s.appends[id].phase.Written? && AppendOk(s, id)
    ensures StoreOk(start, Publish(s, id))
  {
    hide Valid, Extended, Admitted, LogMatches, Times, ValidRequest;
    var a := s.appends[id];
    var t := Publish(s, id);
    var p := Publication(id, a.request, s.file, a.phase.next);
    assert t.history[..|s.history|] == s.history;
    assert t.history[|s.history|] == p;
    DecodedIsValid(s.file, s.worktree);
    var j := Decode(s.file, s.worktree).value;
    LogExtends(Base(start), s.log, j, s.worktree, a.request, a.phase.next);
  }

  lemma PublishKeepsAppends(start: State, s: State, id: nat)
    requires Inv(start, s)
    requires id in s.appends && s.appends[id].phase.Written?
    ensures var t := Publish(s, id);
            (forall o | o in t.appends :: AppendOk(t, o)) && (forall o | o !in t.appends :: Times(t.history, o) == 0)
  {
    hide StoreOk, Proposal, Times, Admitted, ValidRequest, Decode;
    var a := s.appends[id];
    var t := Publish(s, id);
    var p := Publication(id, a.request, s.file, a.phase.next);
    assert t.history == s.history + [p];
    assert AppendOk(s, id);
    forall o | o in t.appends
      ensures AppendOk(t, o)
    {
      TimesNext(s.history, p, o);
      assert AppendOk(s, o);
    }
    forall o | o !in t.appends
      ensures Times(t.history, o) == 0
    {
      TimesNext(s.history, p, o);
    }
  }

  lemma StepKeepsInv(start: State, s: State, step: Step)
    requires Init(start) && Inv(start, s) && Enabled(s, step)
    ensures Inv(start, Apply(s, step))
  {
    match step
    case Rename(id) =>
      assert AppendOk(s, id);
      PublishKeepsStore(start, s, id);
      PublishKeepsAppends(start, s, id);
    case Arrive(id, r) => ArriveKeepsInv(start, s, id, r);
    case _ => OtherKeepsInv(start, s, step);
  }

  lemma ArriveKeepsInv(start: State, s: State, id: nat, r: Request)
    requires Inv(start, s) && Enabled(s, Arrive(id, r))
    ensures Inv(start, Apply(s, Arrive(id, r)))
  {
    hide StoreOk, Proposal, Times, ValidRequest, Decode;
    MoveKeepsInv(start, s, Apply(s, Arrive(id, r)), id);
  }

  lemma OtherKeepsInv(start: State, s: State, step: Step)
    requires Inv(start, s) && Enabled(s, step) && !step.Rename? && !step.Arrive?
    ensures Inv(start, Apply(s, step))
  {
    hide StoreOk, AppendOk, Apply, Decode, Enabled, Times;
    OtherIsKnown(s, step);
    OtherMoves(s, step);
    OtherKeepsAppend(s, step);
    MoveKeepsInv(start, s, Apply(s, step), step.id);
  }

  lemma OtherIsKnown(s: State, step: Step)
    requires Enabled(s, step) && !step.Rename? && !step.Arrive?
    ensures step.id in s.appends
  {
  }

  /** The step moves its append alone, and takes or gives only its own lock. */
  lemma OtherMoves(s: State, step: Step)
    requires Enabled(s, step) && !step.Rename? && !step.Arrive? && step.id in s.appends && AppendOk(s, step.id)
    ensures var t := Apply(s, step);
            && t == s.(lock := t.lock, appends := t.appends)
            && step.id in t.appends && t.appends.Keys == s.appends.Keys + {step.id}
            && (forall o | o in s.appends && o != step.id :: t.appends[o] == s.appends[o])
            && (t.lock == s.lock || s.lock.None? || s.lock == Some(step.id))
  {
    hide Proposal, Times, PhaseMatches, TimesAllowed;
  }

  lemma OtherKeepsAppend(s: State, step: Step)
    requires Enabled(s, step) && !step.Rename? && !step.Arrive? && step.id in s.appends && AppendOk(s, step.id)
    ensures step.id in Apply(s, step).appends && AppendOk(Apply(s, step), step.id)
  {
    hide Proposal, Times, ValidRequest;
  }

  lemma {:induction false} RunKeepsInv(start: State, steps: seq<Step>)
    requires Init(start)
    ensures Inv(start, Run(start, steps))
  {
    hide Inv, Enabled, Apply, Init;
    if steps == [] {
      InitInv(start);
    } else {
      var before := steps[..|steps| - 1];
      RunKeepsInv(start, before);
      if Enabled(Run(start, before), steps[|steps| - 1]) {
        StepKeepsInv(start, Run(start, before), steps[|steps| - 1]);
      }
    }
  }

  // ----- safety over whole runs

  /** Every published journal is the extension of the content published immediately before it. */
  lemma PublishedExtendsPrevious(start: State, steps: seq<Step>, i: nat)
    requires Init(start) && i < |Run(start, steps).history|
    ensures var s := Run(start, steps);
            var p := s.history[i];
            && p.before == (if i == 0 then start.file else Stored(s.history[i - 1].after))
            && Proposal(p.before, s.worktree, p.request) == Some(p.after)
            && s.file == Stored(s.history[|s.history| - 1].after)
  {
    hide Init, Run, Proposal;
    RunKeepsInv(start, steps);
    LinearAt(start.file, start.worktree, Run(start, steps).history, i);
  }

  lemma {:induction false} LinearAt(start: Content, worktree: Text, history: seq<Publication>, i: nat)
    requires Linear(start, worktree, history) && i < |history|
    ensures history[i].before == Latest(start, history[..i])
    ensures Proposal(history[i].before, worktree, history[i].request) == Some(history[i].after)
    decreases |history|
  {
    hide Proposal, ValidRequest;
    var n := |history| - 1;
    if i < n {
      LinearAt(start, worktree, history[..n], i);
      assert history[..n][..i] == history[..i];
    }
  }

  /** An append that reports success is in the history exactly once; one that fails, crashes or
      has not arrived is in it at most once, and not before its rename. */
  lemma OutcomesAreTrue(start: State, steps: seq<Step>, id: nat)
    requires Init(start)
    ensures var s := Run(start, steps);
            && Times(s.history, id) <= 1
            && (id in s.appends && s.appends[id].phase == Done(true) ==> Times(s.history, id) == 1)
            && (id !in s.appends ==> Times(s.history, id) == 0)
            && (id in s.appends && !Over(s.appends[id].phase) && !s.appends[id].phase.Renamed? && !s.appends[id].phase.Closing?
                ==> Times(s.history, id) == 0)
  {
    hide Init, Run, StoreOk, PhaseMatches;
    RunKeepsInv(start, steps);
    var s := Run(start, steps);
    if id in s.appends {
      assert AppendOk(s, id);
    }
  }

  /** No two appends are inside the lock at once. */
  lemma LockIsExclusive(start: State, steps: seq<Step>, a: nat, b: nat)
    requires Init(start)
    requires var s := Run(start, steps);
             a in s.appends && b in s.appends && HoldsLock(s.appends[a].phase) && HoldsLock(s.appends[b].phase)
    ensures a == b
  {
    hide Init, Run, StoreOk, PhaseMatches, TimesAllowed;
    RunKeepsInv(start, steps);
    var s := Run(start, steps);
    assert AppendOk(s, a) && AppendOk(s, b);
  }

  // ----- what the log holds

  function Concat(parts: seq<seq<Record>>): seq<Record> {
    if parts == [] then [] else Concat(parts[..|parts| - 1]) + parts[|parts| - 1]
  }

  /** Behind the records found at the start, the log holds for every publication in turn exactly the
      transitions of its request that change their path, as they are, in order, under the request's
      origin, numbered on from the journal it was made from. */
  ghost predicate Logged(start: State, s: State, parts: seq<seq<Record>>, places: seq<seq<nat>>) {
    && |parts| == |places| == |s.history|
    && s.log == start.log + Concat(parts)
    && forall i | 0 <= i < |s.history| :: PartOk(s.worktree, s.history[i], parts[i], places[i])
  }

  ghost predicate PartOk(worktree: Text, p: Publication, part: seq<Record>, at: seq<nat>) {
    && Decode(p.before, worktree).Some?
    && Recorded(part, at, Decode(p.before, worktree).value.sequence, p.request.origin, p.request.transitions)
  }

  lemma RenameLogs(start: State, s: State, id: nat, parts: seq<seq<Record>>, places: seq<seq<nat>>)
    returns (part: seq<Record>, at: seq<nat>)
    requires id in s.appends && s.appends[id].phase.Written? && AppendOk(s, id) && Logged(start, s, parts, places)
    ensures Logged(start, Publish(s, id), parts + [part], places + [at])
  {
    hide Recorded, Admitted, Valid, Times, Extended, ValidRequest;
    var r, j := s.appends[id].request, Decode(s.file, s.worktree).value;
    part := Admitted(j.sequence, r.origin, r.transitions);
    at := AdmittedIsRecorded(j.sequence, r.origin, r.transitions);
    assert (parts + [part])[..|parts|] == parts;
    assert Concat(parts + [part]) == Concat(parts) + part;
  }

  lemma OtherLogsNothing(s: State, step: Step)
    requires Enabled(s, step) && !step.Rename?
    ensures var t := Apply(s, step); t.log == s.log && t.history == s.history && t.worktree == s.worktree
  {
    hide Proposal, ValidRequest;
  }

  /** What a run has logged is what it has published. */
  lemma {:induction false} LogIsWhatWasPublished(start: State, steps: seq<Step>)
    returns (parts: seq<seq<Record>>, places: seq<seq<nat>>)
    requires Init(start)
    ensures Logged(start, Run(start, steps), parts, places)
  {
    hide Inv, Init, Enabled, Apply, Logged, Publish;
    if steps == [] {
      parts, places := [], [];
      NothingLogged(start);
    } else {
      var before, step := steps[..|steps| - 1], steps[|steps| - 1];
      var s := Run(start, before);
      parts, places := LogIsWhatWasPublished(start, before);
      if Enabled(s, step) {
        if step.Rename? {
          RunKeepsInv(start, before);
          RenameIsPublish(start, s, step.id);
          var part, at := RenameLogs(start, s, step.id, parts, places);
          parts, places := parts + [part], places + [at];
        } else {
          OtherLogsNothing(s, step);
          SameLogged(start, s, Apply(s, step), parts, places);
        }
      }
    }
  }

  lemma NothingLogged(start: State)
    requires Init(start)
    ensures Logged(start, start, [], [])
  {
  }

  lemma RenameIsPublish(start: State, s: State, id: nat)
    requires Inv(start, s) && Enabled(s, Rename(id))
    ensures id in s.appends && s.appends[id].phase.Written? && AppendOk(s, id) && Apply(s, Rename(id)) == Publish(s, id)
  {
    hide AppendOk, StoreOk, Publish;
  }

  lemma SameLogged(start: State, s: State, t: State, parts: seq<seq<Record>>, places: seq<seq<nat>>)
    requires Logged(start, s, parts, places) && t.log == s.log && t.history == s.history && t.worktree == s.worktree
    ensures Logged(start, t, parts, places)
  {
    hide PartOk;
  }

  // ----- what a reader can conclude

  lemma StepGrowsLog(s: State, step: Step)
    requires Enabled(s, step)
    ensures s.log <= Apply(s, step).log && Apply(s, step).worktree == s.worktree
  {
    hide Proposal, Admitted, Decode;
  }

  lemma {:induction false} RunGrowsLog(s: State, steps: seq<Step>)
    ensures s.log <= Run(s, steps).log
  {
    hide Enabled, Apply;
    if steps != [] {
      var before := steps[..|steps| - 1];
      RunGrowsLog(s, before);
      if Enabled(Run(s, before), steps[|steps| - 1]) {
        StepGrowsLog(Run(s, before), steps[|steps| - 1]);
      }
    }
  }

  lemma {:induction false} RunConcat(s: State, a: seq<Step>, b: seq<Step>)
    ensures Run(s, a + b) == Run(Run(s, a), b)
  {
    hide Enabled, Apply;
    if b == [] {
      assert a + b == a;
    } else {
      assert (a + b)[..|a + b| - 1] == a + b[..|b| - 1];
      RunConcat(s, a, b[..|b| - 1]);
    }
  }

  /** The journal a reader decodes is never ahead of, and never out of step with, the log. */
  lemma ReadMatchesLog(start: State, steps: seq<Step>)
    requires Init(start)
    requires var s := Run(start, steps); Decode(s.file, s.worktree).Some?
    ensures var s := Run(start, steps); LogMatches(Base(start), s.log, Decode(s.file, s.worktree).value)
  {
    hide Run, Linear, Decode, Base, Init, LogMatches;
    RunKeepsInv(start, steps);
    UndecodableNeverChanges(start, Run(start, steps));
  }

  lemma UndecodableNeverChanges(start: State, s: State)
    requires StoreOk(start, s) && Decode(s.file, s.worktree).Some?
    ensures Decode(start.file, start.worktree).Some?
  {
    hide Linear, LogMatches, Valid;
  }

  /** A reader that keeps the sequence number p of an earlier read and later reads journal j
      decides from the numbers alone. If it reports no gap, the records after p are exactly those
      admitted between the two reads, in commit order; and it reports a gap exactly when some of
      them are no longer in the journal. */
  lemma ReaderDecisionIsExact(start: State, a: seq<Step>, b: seq<Step>)
    requires Init(start)
    requires var s := Run(start, a); Decode(s.file, s.worktree).Some?
    requires var t := Run(start, a + b); Decode(t.file, t.worktree).Some?
    ensures var s, t := Run(start, a), Run(start, a + b);
            var p, j := Decode(s.file, s.worktree).value.sequence, Decode(t.file, t.worktree).value;
            && s.log <= t.log
            && (!Lost(p, j) ==> t.log == s.log + Fresh(j.records, p))
            && (Lost(p, j) <==> |t.log| - |s.log| > |j.records|)
  {
    hide Run, Decode, Valid, Init, Enabled, Apply, Fresh;
    var s, t := Run(start, a), Run(start, a + b);
    RunConcat(start, a, b);
    RunGrowsLog(s, b);
    ReadMatchesLog(start, a);
    ReadMatchesLog(start, a + b);
    FreshOfLog(Base(start), s.log, t.log, Decode(s.file, s.worktree).value.sequence, Decode(t.file, t.worktree).value);
  }

  lemma FreshOfLog(base: int, early: seq<Record>, late: seq<Record>, p: nat, j: Journal)
    requires LogMatches(base, late, j) && early <= late && base + |early| == p
    ensures !Lost(p, j) ==> late == early + Fresh(j.records, p)
    ensures Lost(p, j) <==> |late| - |early| > |j.records|
  {
    hide Fresh;
    var first := |late| - |j.records|;
    if !Lost(p, j) {
      assert Numbered(j.records, base + first);
      FreshIsSuffix(j.records, base + first, p);
      assert j.records[p - (base + first)..] == late[|early|..];
    }
  }

  // ----- progress

  /** The steps of an append that has its proposal and the lock. */
  function Finish(id: nat): seq<Step> {
    [WriteTemporary(id), Rename(id), SyncDirectory(id), Unlock(id)]
  }

  /** The steps of one append, uninterrupted. */
  function Uninterrupted(id: nat, r: Request): seq<Step> {
    (if r.mode.LockedRead? then [Arrive(id, r), Acquire(id), Load(id)] else [Arrive(id, r), ReadBefore(id), Acquire(id), Compare(id)]) + Finish(id)
  }

  function With(s: State, id: nat, r: Request, phase: Phase, lock: Option<nat>): State {
    s.(lock := lock, appends := s.appends[id := Append(r, phase)])
  }

  lemma RunNext(s: State, steps: seq<Step>, k: nat)
    requires k < |steps| && Enabled(Run(s, steps[..k]), steps[k])
    ensures Run(s, steps[..k + 1]) == Apply(Run(s, steps[..k]), steps[k])
  {
    hide Enabled, Apply;
    assert steps[..k + 1][..k] == steps[..k];
  }

  lemma Finishes(s: State, id: nat, r: Request, next: Journal)
    requires id in s.appends && s.appends[id] == Append(r, Prepared(next)) && s.lock == Some(id)
    ensures var t := Run(s, Finish(id));
            && t.lock.None? && id in t.appends && t.appends[id].phase == Done(true)
            && t.file == Stored(next) && t.history == s.history + [Publication(id, r, s.file, next)]
  {
    hide Run, Admitted, Decode;
    var steps := Finish(id);
    assert steps[..0] == [];
    RunNothing(s);
    RunNext(s, steps, 0);
    RunNext(s, steps, 1);
    RunNext(s, steps, 2);
    RunNext(s, steps, 3);
    assert steps[..4] == steps;
  }

  lemma RunNothing(s: State)
    ensures Run(s, []) == s
  {
  }

  lemma Prepares(s: State, id: nat, r: Request)
    requires s.lock.None? && id !in s.appends && ValidRequest(r) && Proposal(s.file, s.worktree, r).Some?
    ensures var steps := Uninterrupted(id, r);
            Run(s, steps[..|steps| - 4]) == With(s, id, r, Prepared(Proposal(s.file, s.worktree, r).value), Some(id))
  {
    hide Run, ValidRequest, Proposal, Admitted, Decode;
    var steps := Uninterrupted(id, r);
    assert steps[..0] == [];
    RunNothing(s);
    RunNext(s, steps, 0);
    RunNext(s, steps, 1);
    RunNext(s, steps, 2);
    if r.mode.Native? {
      RunNext(s, steps, 3);
    }
  }

  /** A valid append that meets a free lock and a readable journal, and is not disturbed, reports
      success and publishes the extension of that journal, whatever happened before. */
  lemma UndisturbedAppendSucceeds(s: State, id: nat, r: Request)
    requires s.lock.None? && id !in s.appends && ValidRequest(r) && Proposal(s.file, s.worktree, r).Some?
    ensures var t := Run(s, Uninterrupted(id, r));
            && t.lock.None? && id in t.appends && t.appends[id].phase == Done(true)
            && t.file == Stored(Proposal(s.file, s.worktree, r).value)
            && t.history == s.history + [Publication(id, r, s.file, Proposal(s.file, s.worktree, r).value)]
  {
    hide Run, ValidRequest, Proposal;
    var steps := Uninterrupted(id, r);
    var first := steps[..|steps| - 4];
    Prepares(s, id, r);
    assert steps == first + Finish(id);
    RunConcat(s, first, Finish(id));
    Finishes(Run(s, first), id, r, Proposal(s.file, s.worktree, r).value);
  }

  // ----- failing under the lock

  /** An undisturbed append that finds a conflict under the lock lets the lock go: it ends without
      success, and nothing else has changed. */
  lemma ConflictLetsGo(s: State, id: nat, r: Request, before: Content, next: Journal)
    requires s.lock.None? && id in s.appends && s.appends[id] == Append(r, Proposed(before, next)) && s.file != before
    ensures Run(s, [Acquire(id), Compare(id), Unlock(id)]) == With(s, id, r, Done(false), None)
  {
    hide Run, Proposal, Decode;
    var steps := [Acquire(id), Compare(id), Unlock(id)];
    FirstSteps(s, steps);
    RunNext(s, steps, 0);
    RunNext(s, steps, 1);
    RunNext(s, steps, 2);
  }

  /** So does one that finds a journal under the lock that it cannot read or extend. */
  lemma UnreadableLetsGo(s: State, id: nat, r: Request)
    requires s.lock.None? && id in s.appends && s.appends[id] == Append(r, Ready) && r.mode.LockedRead?
    requires Proposal(s.file, s.worktree, r).None?
    ensures Run(s, [Acquire(id), Load(id), Unlock(id)]) == With(s, id, r, Done(false), None)
  {
    hide Run, Proposal, Decode;
    var steps := [Acquire(id), Load(id), Unlock(id)];
    FirstSteps(s, steps);
    RunNext(s, steps, 0);
    RunNext(s, steps, 1);
    RunNext(s, steps, 2);
  }

  /** A fault under the lock, before the closing, is cleaned up after: the lock is let go. */
  lemma FaultLetsGo(s: State, id: nat)
    requires id in s.appends && HoldsLock(s.appends[id].phase) && !s.appends[id].phase.Closing? && s.lock == Some(id)
    ensures Run(s, [Fault(id), Unlock(id)]) == With(s, id, s.appends[id].request, Done(false), None)
  {
    hide Run, Proposal, Decode;
    var steps := [Fault(id), Unlock(id)];
    FirstSteps(s, steps);
    RunNext(s, steps, 0);
    RunNext(s, steps, 1);
  }

  /** A lock that is held fails the append at once, and stays as it is. */
  lemma ContentionFails(s: State, id: nat)
    requires Enabled(s, Acquire(id)) && s.lock.Some?
    ensures Apply(s, Acquire(id)) == With(s, id, s.appends[id].request, Done(false), s.lock)
  {
  }

  lemma FirstSteps(s: State, steps: seq<Step>)
    ensures steps[..0] == [] && steps[..|steps|] == steps && Run(s, []) == s
  {
  }
}
