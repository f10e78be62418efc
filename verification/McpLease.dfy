/** Leases on one configured MCP server (#withServerLease, #bounded and #closeServer in
    src/kiro/mcp-provider.ts) as a state machine. Promises are the flags of their settlement;
    time-outs, cancellations and transport behaviour are steps that may come at any moment. */
module McpLease {
  import opened Wrappers

  /** One raw transport operation run inside a lease: its own settlement, whether it was
      terminated early and its transport close has settled, and whether the lease still waits
      for the bounded result. */
  datatype Raw = Raw(settled: bool, terminated: bool, closed: bool, awaited: bool)

  datatype Phase = Waiting | Running | Returned

  /** One lease: the tail it queued behind, and whether its own link of the chain is released. */
  datatype Lease = Lease(previous: Option<nat>, phase: Phase, raws: seq<Raw>, released: bool)

  /** All leases of the server in order of arrival, the current tail, and the order of starts. */
  datatype State = State(leases: seq<Lease>, tail: Option<nat>, closed: bool, starts: seq<nat>)

  datatype Step =
    | Enqueue
    | Start(i: nat)
    | Reject(i: nat)
    | Issue(i: nat)
    | Settle(i: nat, r: nat)
    | Terminate(i: nat, r: nat)
    | CloseSettles(i: nat, r: nat)
    | GiveUp(i: nat, r: nat)
    | Return(i: nat)
    | Release(i: nat)
    | Close

  const Initial: State := State([], None, false, [])

  /** The promise previous.then(() => current): both links are settled. */
  predicate TailSettled(leases: seq<Lease>, i: nat)
    requires i < |leases|
    decreases i
  {
    var l := leases[i];
    l.released && (l.previous.Some? ==> l.previous.value < i && TailSettled(leases, l.previous.value))
  }

  predicate PreviousSettled(leases: seq<Lease>, i: nat)
    requires i < |leases|
  {
    var p := leases[i].previous;
    p.Some? ==> p.value < i && TailSettled(leases, p.value)
  }

  /** All raw work of a lease has settled, and so has every transport close it began. */
  predicate Quiet(l: Lease) {
    forall r | 0 <= r < |l.raws| :: l.raws[r].settled && (l.raws[r].terminated ==> l.raws[r].closed)
  }

  /** lease.quiescence: what termination added to it. */
  predicate QuiescenceSettled(l: Lease) {
    forall r | 0 <= r < |l.raws| :: l.raws[r].terminated ==> l.raws[r].settled && l.raws[r].closed
  }

  predicate NothingAwaited(l: Lease) {
    forall r | 0 <= r < |l.raws| :: !l.raws[r].awaited
  }

  predicate Enabled(s: State, step: Step) {
    match step
    case Enqueue => true
    case Close => true
    case Start(i) => i < |s.leases| && s.leases[i].phase.Waiting? && PreviousSettled(s.leases, i) && !s.closed
    // aborted while queued, or refused once its turn came
    case Reject(i) => i < |s.leases| && s.leases[i].phase.Waiting?
    case Issue(i) => i < |s.leases| && s.leases[i].phase.Running? && NothingAwaited(s.leases[i])
    case Settle(i, r) => i < |s.leases| && r < |s.leases[i].raws| && !s.leases[i].raws[r].settled
    case Terminate(i, r) =>
      i < |s.leases| && r < |s.leases[i].raws| && s.leases[i].raws[r].awaited && !s.leases[i].raws[r].terminated
    case CloseSettles(i, r) => i < |s.leases| && r < |s.leases[i].raws| && s.leases[i].raws[r].terminated
    // the grace period after a termination is over: the caller is told, settled or not
    case GiveUp(i, r) => i < |s.leases| && r < |s.leases[i].raws| && s.leases[i].raws[r].terminated
    case Return(i) => i < |s.leases| && s.leases[i].phase.Running? && NothingAwaited(s.leases[i])
    case Release(i) =>
      i < |s.leases| && s.leases[i].phase.Returned? && !s.leases[i].released
      && PreviousSettled(s.leases, i) && QuiescenceSettled(s.leases[i])
  }

  function SetLease(s: State, i: nat, l: Lease): State
    requires i < |s.leases|
  {
    s.(leases := s.leases[i := l])
  }

  function SetRaw(s: State, i: nat, r: nat, raw: Raw): State
    requires i < |s.leases| && r < |s.leases[i].raws|
  {
    SetLease(s, i, s.leases[i].(raws := s.leases[i].raws[r := raw]))
  }

  function Apply(s: State, step: Step): State
    requires Enabled(s, step)
  {
    match step
    case Enqueue => s.(leases := s.leases + [Lease(s.tail, Waiting, [], false)], tail := Some(|s.leases|))
    case Close => s.(closed := true)
    case Start(i) => SetLease(s, i, s.leases[i].(phase := Running)).(starts := s.starts + [i])
    case Reject(i) => SetLease(s, i, s.leases[i].(phase := Returned))
    case Issue(i) => SetLease(s, i, s.leases[i].(raws := s.leases[i].raws + [Raw(false, false, false, true)]))
    // a bounded operation that is not being terminated delivers its result
    case Settle(i, r) =>
      var raw := s.leases[i].raws[r];
      SetRaw(s, i, r, raw.(settled := true, awaited := raw.awaited && raw.terminated))
    case Terminate(i, r) => SetRaw(s, i, r, s.leases[i].raws[r].(terminated := true))
    case CloseSettles(i, r) => SetRaw(s, i, r, s.leases[i].raws[r].(closed := true))
    case GiveUp(i, r) => SetRaw(s, i, r, s.leases[i].raws[r].(awaited := false))
    case Return(i) => SetLease(s, i, s.leases[i].(phase := Returned))
    case Release(i) => SetLease(s, i, s.leases[i].(released := true)).(tail := if s.tail == Some(i) then None else s.tail)
  }

  function Run(steps: seq<Step>): State {
    if steps == [] then Initial
    else
      var s := Run(steps[..|steps| - 1]);
      if Enabled(s, steps[|steps| - 1]) then Apply(s, steps[|steps| - 1]) else s
  }

  // ----- what every schedule keeps

  predicate RawOk(raw: Raw) {
    raw.awaited || raw.settled || raw.terminated
  }

  predicate AllReleased(leases: seq<Lease>, n: nat)
    requires n <= |leases|
  {
    forall j | 0 <= j < n :: leases[j].released
  }

  ghost predicate LeaseOk(leases: seq<Lease>, i: nat)
    requires i < |leases|
  {
    var l := leases[i];
    && (forall r | 0 <= r < |l.raws| :: RawOk(l.raws[r]))
    && (l.phase.Returned? ==> NothingAwaited(l))
    && (l.phase.Waiting? ==> l.raws == [])
    && (l.released ==> l.phase.Returned? && Quiet(l))
    && (match l.previous case Some(p) => p + 1 == i case None => AllReleased(leases, i))
    // behind a lease that is released, running or has run, every link is released
    && (l.released || l.phase.Running? || l.raws != [] ==> AllReleased(leases, i))
  }

  ghost predicate StartsOk(s: State) {
    && (forall k | 0 <= k < |s.starts| :: s.starts[k] < |s.leases| && !s.leases[s.starts[k]].phase.Waiting? && AllReleased(s.leases, s.starts[k]))
    && (forall k, m | 0 <= k < m < |s.starts| :: s.starts[k] < s.starts[m])
  }

  ghost predicate Inv(s: State) {
    && (forall i | 0 <= i < |s.leases| :: LeaseOk(s.leases, i))
    && (match s.tail case Some(t) => t + 1 == |s.leases| case None => AllReleased(s.leases, |s.leases|))
    && StartsOk(s)
  }

  /** A settled tail means that every link up to it is released. */
  lemma {:induction false} SettledMeansReleased(leases: seq<Lease>, i: nat)
    requires i < |leases| && TailSettled(leases, i)
    requires forall j | 0 <= j < |leases| :: LeaseOk(leases, j)
    ensures AllReleased(leases, i + 1)
    decreases i
  {
    hide Quiet, NothingAwaited, RawOk;
    assert LeaseOk(leases, i);
  }

  lemma PreviousMeansReleased(leases: seq<Lease>, i: nat)
    requires i < |leases| && PreviousSettled(leases, i)
    requires forall j | 0 <= j < |leases| :: LeaseOk(leases, j)
    ensures AllReleased(leases, i)
  {
    hide Quiet, NothingAwaited, RawOk;
    assert LeaseOk(leases, i);
    if leases[i].previous.Some? {
      SettledMeansReleased(leases, i - 1);
    }
  }

  /** Changing one lease keeps the others in order, as long as nothing released is taken back. */
  lemma OthersKeepOk(leases: seq<Lease>, i: nat, l: Lease, j: nat)
    requires i < |leases| && j < |leases| && j != i && LeaseOk(leases, j)
    requires leases[i].released ==> l.released
    ensures LeaseOk(leases[i := l], j)
  {
    hide Quiet, NothingAwaited, RawOk;
    var after := leases[i := l];
    forall n: nat | n <= |leases| && AllReleased(leases, n)
      ensures AllReleased(after, n)
    {
    }
  }

  lemma ChangeKeepsInv(s: State, i: nat, l: Lease)
    requires Inv(s) && i < |s.leases|
    requires (s.leases[i].released ==> l.released) && (l.phase.Waiting? ==> s.leases[i].phase.Waiting?)
    requires LeaseOk(s.leases[i := l], i)
    ensures Inv(SetLease(s, i, l))
  {
    hide LeaseOk;
    var after := s.leases[i := l];
    forall j | 0 <= j < |after|
      ensures LeaseOk(after, j)
    {
      if j != i {
        OthersKeepOk(s.leases, i, l, j);
      }
    }
    forall n: nat | n <= |after| && AllReleased(s.leases, n)
      ensures AllReleased(after, n)
    {
    }
  }

  lemma RawKeepsInv(s: State, i: nat, r: nat, raw: Raw)
    requires Inv(s) && i < |s.leases| && r < |s.leases[i].raws|
    requires var was := s.leases[i].raws[r];
             && RawOk(raw) && (raw.awaited ==> was.awaited)
             && (was.settled ==> raw.settled) && (was.closed ==> raw.closed)
             && (raw.terminated ==> was.terminated || was.awaited)
    ensures Inv(SetRaw(s, i, r, raw))
  {
    hide StartsOk;
    var l := s.leases[i];
    assert LeaseOk(s.leases, i);
    var m := l.(raws := l.raws[r := raw]);
    if l.released {
      assert l.raws[r].settled && !l.raws[r].awaited;
      assert Quiet(m);
    }
    assert LeaseOk(s.leases[i := m], i);
    ChangeKeepsInv(s, i, m);
  }

  lemma EnqueueKeepsInv(s: State)
    requires Inv(s)
    ensures Inv(Apply(s, Enqueue))
  {
    hide Quiet, NothingAwaited, RawOk;
    var t := Apply(s, Enqueue);
    forall j | 0 <= j < |t.leases|
      ensures LeaseOk(t.leases, j)
    {
      if j < |s.leases| {
        assert LeaseOk(s.leases, j);
        assert t.leases[j] == s.leases[j];
        assert AllReleased(s.leases, j) ==> AllReleased(t.leases, j);
      }
    }
  }

  lemma StartKeepsInv(s: State, i: nat)
    requires Inv(s) && Enabled(s, Start(i))
    ensures Inv(Apply(s, Start(i)))
  {
    hide Quiet, NothingAwaited, RawOk;
    PreviousMeansReleased(s.leases, i);
    var l := s.leases[i].(phase := Running);
    assert LeaseOk(s.leases, i);
    assert AllReleased(s.leases[i := l], i);
    ChangeKeepsInv(s, i, l);
    var t := Apply(s, Start(i));
    forall k | 0 <= k < |s.starts|
      ensures s.starts[k] < i
    {
      var j := s.starts[k];
      assert LeaseOk(s.leases, i);
      // a later start would have found this lease released, and with it returned
      assert AllReleased(s.leases, j) && !s.leases[i].released;
    }
    assert StartsOk(t);
  }

  lemma ReleaseKeepsInv(s: State, i: nat)
    requires Inv(s) && Enabled(s, Release(i))
    ensures Inv(Apply(s, Release(i)))
  {
    PreviousMeansReleased(s.leases, i);
    var l := s.leases[i].(released := true);
    assert LeaseOk(s.leases, i);
    assert Quiet(l) by {
      forall r | 0 <= r < |l.raws|
        ensures l.raws[r].settled && (l.raws[r].terminated ==> l.raws[r].closed)
      {
        assert RawOk(l.raws[r]) && !l.raws[r].awaited;
      }
    }
    assert LeaseOk(s.leases[i := l], i);
    ChangeKeepsInv(s, i, l);
  }

  lemma IssueKeepsInv(s: State, i: nat)
    requires Inv(s) && Enabled(s, Issue(i))
    ensures Inv(Apply(s, Issue(i)))
  {
    var l := s.leases[i].(raws := s.leases[i].raws + [Raw(false, false, false, true)]);
    assert LeaseOk(s.leases, i);
    assert LeaseOk(s.leases[i := l], i);
    ChangeKeepsInv(s, i, l);
  }

  lemma PhaseKeepsInv(s: State, i: nat)
    requires Inv(s) && i < |s.leases| && !s.leases[i].phase.Returned? && NothingAwaited(s.leases[i])
    ensures Inv(SetLease(s, i, s.leases[i].(phase := Returned)))
  {
    hide RawOk;
    var l := s.leases[i].(phase := Returned);
    assert LeaseOk(s.leases, i);
    assert LeaseOk(s.leases[i := l], i);
    ChangeKeepsInv(s, i, l);
  }

  lemma StepKeepsInv(s: State, step: Step)
    requires Inv(s) && Enabled(s, step)
    ensures Inv(Apply(s, step))
  {
    hide LeaseOk, StartsOk, Quiet, AllReleased, TailSettled;
    match step
    case Enqueue => EnqueueKeepsInv(s);
    case Close =>
      CloseKeepsInv(s);
    case Start(i) => StartKeepsInv(s, i);
    case Reject(i) =>
      WaitingHasNoRaws(s, i);
      PhaseKeepsInv(s, i);
    case Issue(i) => IssueKeepsInv(s, i);
    case Settle(i, r) =>
      RawFacts(s, i, r);
      RawKeepsInv(s, i, r, s.leases[i].raws[r].(settled := true, awaited := s.leases[i].raws[r].awaited && s.leases[i].raws[r].terminated));
    case Terminate(i, r) =>
      RawFacts(s, i, r);
      RawKeepsInv(s, i, r, s.leases[i].raws[r].(terminated := true));
    case CloseSettles(i, r) =>
      RawFacts(s, i, r);
      RawKeepsInv(s, i, r, s.leases[i].raws[r].(closed := true));
    case GiveUp(i, r) =>
      RawFacts(s, i, r);
      RawKeepsInv(s, i, r, s.leases[i].raws[r].(awaited := false));
    case Return(i) => PhaseKeepsInv(s, i);
    case Release(i) => ReleaseKeepsInv(s, i);
  }

  lemma CloseKeepsInv(s: State)
    requires Inv(s)
    ensures Inv(s.(closed := true))
  {
    hide LeaseOk, AllReleased;
  }

  lemma WaitingHasNoRaws(s: State, i: nat)
    requires Inv(s) && i < |s.leases| && s.leases[i].phase.Waiting?
    ensures NothingAwaited(s.leases[i])
  {
    assert LeaseOk(s.leases, i);
  }

  lemma RawFacts(s: State, i: nat, r: nat)
    requires Inv(s) && i < |s.leases| && r < |s.leases[i].raws|
    ensures RawOk(s.leases[i].raws[r])
  {
    assert LeaseOk(s.leases, i);
  }

  lemma {:induction false} RunKeepsInv(steps: seq<Step>)
    ensures Inv(Run(steps))
  {
    hide Inv, Enabled, Apply;
    if steps == [] {
      InitialInv();
    } else {
      RunKeepsInv(steps[..|steps| - 1]);
      var s := Run(steps[..|steps| - 1]);
      if Enabled(s, steps[|steps| - 1]) {
        StepKeepsInv(s, steps[|steps| - 1]);
      }
    }
  }

  lemma InitialInv()
    ensures Inv(Initial)
  {
  }

  // ----- safety over every schedule

  /** When a lease may start, every earlier one has returned, and all its raw work and every
      transport close it began have settled. */
  lemma StartsOnlyAfterQuiet(steps: seq<Step>, i: nat, j: nat)
    requires j < i && Enabled(Run(steps), Start(i))
    ensures Run(steps).leases[j].phase.Returned? && Quiet(Run(steps).leases[j])
  {
    hide Run, StartsOk, NothingAwaited, RawOk;
    RunKeepsInv(steps);
    var s := Run(steps);
    PreviousMeansReleased(s.leases, i);
    assert LeaseOk(s.leases, j);
  }

  /** At no moment do two leases have unsettled work: while one runs, or still has raw work or a
      close outstanding, every earlier one is quiet and no later one has begun. */
  lemma OneLeaseIsActive(steps: seq<Step>, i: nat, j: nat)
    requires j < i < |Run(steps).leases|
    requires Run(steps).leases[i].phase.Running? || !Quiet(Run(steps).leases[i])
    ensures Run(steps).leases[j].phase.Returned? && Quiet(Run(steps).leases[j])
  {
    hide Run, StartsOk, NothingAwaited, RawOk;
    RunKeepsInv(steps);
    var s := Run(steps);
    assert LeaseOk(s.leases, i) && LeaseOk(s.leases, j);
  }

  /** Leases start in the order in which they were queued. */
  lemma StartsFollowQueueOrder(steps: seq<Step>, k: nat, m: nat)
    requires k < m < |Run(steps).starts|
    ensures Run(steps).starts[k] < Run(steps).starts[m]
  {
    hide Run, LeaseOk, AllReleased;
    RunKeepsInv(steps);
  }

  /** What close() waits for is enough: once the tail it saw has settled, every lease up to it is
      quiet, and later ones can never start. */
  lemma CloseSeesAllWork(steps: seq<Step>, more: seq<Step>, t: nat, j: nat)
    requires Run(steps).closed && Run(steps).tail == Some(t)
    requires j <= t < |Run(steps + more).leases| && TailSettled(Run(steps + more).leases, t)
    ensures Quiet(Run(steps + more).leases[j]) && Run(steps + more).leases[j].phase.Returned?
    ensures forall i :: !Enabled(Run(steps + more), Start(i))
  {
    hide Run, StartsOk, NothingAwaited, RawOk, TailSettled;
    RunKeepsInv(steps + more);
    var s := Run(steps + more);
    SettledMeansReleased(s.leases, t);
    assert LeaseOk(s.leases, j);
    ClosedStays(steps, more);
  }

  lemma {:induction false} ClosedStays(steps: seq<Step>, more: seq<Step>)
    requires Run(steps).closed
    ensures Run(steps + more).closed
  {
    hide Enabled;
    if more == [] {
      assert steps + more == steps;
    } else {
      assert (steps + more)[..|steps + more| - 1] == steps + more[..|more| - 1];
      ClosedStays(steps, more[..|more| - 1]);
    }
  }

  // ----- progress

  lemma {:induction false} ReleasedMeansSettled(leases: seq<Lease>, i: nat)
    requires i < |leases| && AllReleased(leases, i + 1)
    requires forall j | 0 <= j < |leases| :: LeaseOk(leases, j)
    ensures TailSettled(leases, i)
    decreases i
  {
    hide Quiet, NothingAwaited, RawOk;
    assert LeaseOk(leases, i);
    if leases[i].previous.Some? {
      ReleasedMeansSettled(leases, i - 1);
    }
  }

  lemma ReleasedBeforeMeansPrevious(leases: seq<Lease>, i: nat)
    requires i < |leases| && AllReleased(leases, i)
    requires forall j | 0 <= j < |leases| :: LeaseOk(leases, j)
    ensures PreviousSettled(leases, i)
  {
    hide Quiet, NothingAwaited, RawOk, TailSettled;
    assert LeaseOk(leases, i);
    if leases[i].previous.Some? {
      ReleasedMeansSettled(leases, i - 1);
    }
  }

  /** The leases are as before, but for what is released. */
  predicate SameButReleased(a: seq<Lease>, b: seq<Lease>) {
    |a| == |b| && forall j | 0 <= j < |a| :: b[j] == a[j].(released := b[j].released)
  }

  /** The releases that the chain performs by itself once the first n leases are quiet. */
  lemma {:induction false} QuietGetReleased(steps: seq<Step>, n: nat) returns (more: seq<Step>)
    requires n <= |Run(steps).leases|
    requires forall j | 0 <= j < n :: Run(steps).leases[j].phase.Returned? && Quiet(Run(steps).leases[j])
    ensures forall step | step in more :: step.Release?
    ensures SameButReleased(Run(steps).leases, Run(steps + more).leases) && Run(steps + more).closed == Run(steps).closed
    ensures AllReleased(Run(steps + more).leases, n)
    decreases n
  {
    hide Run, Quiet, TailSettled, Inv;
    if n == 0 {
      more := [];
      assert steps + [] == steps;
    } else {
      var before := QuietGetReleased(steps, n - 1);
      var t := Run(steps + before);
      if t.leases[n - 1].released {
        more := before;
      } else {
        RunKeepsInv(steps + before);
        SameQuiet(Run(steps).leases[n - 1], t.leases[n - 1]);
        MayRelease(t, n - 1);
        more := before + [Release(n - 1)];
        RunOne(steps + before, Release(n - 1));
        assert steps + more == (steps + before) + [Release(n - 1)];
      }
    }
  }

  lemma SameQuiet(a: Lease, b: Lease)
    requires b == a.(released := b.released)
    ensures Quiet(a) <==> Quiet(b)
  {
  }

  lemma RunOne(steps: seq<Step>, step: Step)
    requires Enabled(Run(steps), step)
    ensures Run(steps + [step]) == Apply(Run(steps), step)
  {
    hide Enabled, Apply;
    assert (steps + [step])[..|steps|] == steps;
  }

  lemma MayRelease(s: State, i: nat)
    requires Inv(s) && i < |s.leases| && AllReleased(s.leases, i) && !s.leases[i].released
    requires s.leases[i].phase.Returned? && Quiet(s.leases[i])
    ensures Enabled(s, Release(i))
  {
    hide LeaseOk, StartsOk, TailSettled, PreviousSettled;
    ReleasedBeforeMeansPrevious(s.leases, i);
  }

  /** No waiter is forgotten: once every earlier lease has returned and its work and closes have
      settled, the chain lets the next one start without any further call. */
  lemma WaiterIsServed(steps: seq<Step>, i: nat) returns (more: seq<Step>)
    requires i < |Run(steps).leases| && Run(steps).leases[i].phase.Waiting? && !Run(steps).closed
    requires forall j | 0 <= j < i :: Run(steps).leases[j].phase.Returned? && Quiet(Run(steps).leases[j])
    ensures forall step | step in more :: step.Release?
    ensures Enabled(Run(steps + more), Start(i))
  {
    hide Run, Quiet, TailSettled, Inv, PreviousSettled;
    more := QuietGetReleased(steps, i);
    RunKeepsInv(steps + more);
    ReadyToStart(Run(steps + more), i);
  }

  lemma ReadyToStart(s: State, i: nat)
    requires Inv(s) && i < |s.leases| && AllReleased(s.leases, i) && s.leases[i].phase.Waiting? && !s.closed
    ensures Enabled(s, Start(i))
  {
    hide LeaseOk, StartsOk, TailSettled, PreviousSettled;
    ReleasedBeforeMeansPrevious(s.leases, i);
  }
}
