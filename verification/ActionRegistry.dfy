/** The index budget of the action registry: discovery and description loads, their two raw
    producer slots, retries, cancellation and shutdown (src/core/action-registry.ts). Each public
    method is one synchronous step between two awaits. */
module ActionRegistry {
  import opened IndexLedger
  import opened RegistryState
  import opened Wrappers

  /** What one entry of an index takes: while it is made, and to keep it. */
  datatype Cost = Cost(scratch: Size, kept: Size, succeeds: bool)

  datatype Listing = Listing(raw: Size, costs: seq<Cost>)

  predicate AllSucceed(costs: seq<Cost>) {
    forall i | 0 <= i < |costs| :: costs[i].succeeds
  }

  /** The most that the entries take at one time: those made so far, and the scratch of one more. */
  function PeakBytes(costs: seq<Cost>): nat {
    if costs == [] then 0 else costs[0].kept.bytes + Larger(costs[0].scratch.bytes, PeakBytes(costs[1..]))
  }

  function PeakNodes(costs: seq<Cost>): nat {
    if costs == [] then 0 else costs[0].kept.nodes + Larger(costs[0].scratch.nodes, PeakNodes(costs[1..]))
  }

  function Larger(a: nat, b: nat): nat { if a < b then b else a }

  /** No entry fails, and in place of the raw reservation there is room for all of it, even without
      evicting anything. */
  predicate Affordable(bytes: int, nodes: int, listing: Listing) {
    && listing.raw.bytes <= RAW_BYTES && listing.raw.nodes <= RAW_NODES && AllSucceed(listing.costs)
    && Fits(bytes - RAW_BYTES + listing.raw.bytes + 1024 + PeakBytes(listing.costs),
            nodes - RAW_NODES + listing.raw.nodes + 16 + PeakNodes(listing.costs))
  }

  /** In place of the raw reservation there is room for a descriptor and the scratch work on it, even
      without evicting anything. */
  predicate Retainable(bytes: int, nodes: int, weight: Size) {
    && weight.bytes + 4096 <= RAW_BYTES && weight.nodes + 16 <= RAW_NODES
    && Fits(bytes - RAW_BYTES + weight.bytes * 3 + 8192, nodes - RAW_NODES + weight.nodes * 3 + 48)
  }

  /** What an index holds: its own first reservation, and one for each entry, of the size it asked for. */
  ghost predicate HoldsEntries(held: seq<Ticket>, costs: seq<Cost>) {
    && |held| == 1 + |costs|
    && held[0].bytes == 1024 && held[0].nodes == 16
    && forall i | 0 <= i < |costs| :: held[1 + i].bytes == costs[i].kept.bytes && held[1 + i].nodes == costs[i].kept.nodes
  }

  /** The reservation does not fit, and none of the cached records is idle. */
  ghost predicate NoRoom(bytes: int, nodes: int, discovery: seq<nat>, records: seq<Record>) {
    !Fits(bytes, nodes) && forall i | 0 <= i < |discovery| :: discovery[i] < |records| && !Idle(records[discovery[i]])
  }

  /** What that many raw producers reserve before they return anything. */
  function RawBytes(active: int): int { active * RAW_BYTES }

  function RawNodes(active: int): int { active * RAW_NODES }

  /** Room for a query's own reservation, one for each provider, and two raw producers, even without
      evicting anything. */
  predicate QueryFits(bytes: int, nodes: int, own: Size, providers: nat) {
    Fits(bytes + own.bytes + providers * 1024 + 2 * RAW_BYTES, nodes + own.nodes + providers * 16 + 2 * RAW_NODES)
  }

  class Registry {
    var bytes: int
    var nodes: int
    var live: seq<Ticket>
    var nextTicket: nat
    var records: seq<Record>
    var discovery: seq<nat>
    var descriptions: seq<nat>
    var queue: seq<nat>
    var rawActive: int
    var admissions: seq<Admission>
    var consumers: seq<Consumer>
    var closed: bool
    ghost var owner: map<nat, Owner>

    /** What holds inside a step that has the loose reservations in its variables and is about to
        remove the leaving description. */
    ghost predicate Inner(loose: set<nat>, leaving: int)
      reads this
    {
      && LedgerOk(live, nextTicket, bytes, nodes)
      && HoldersOk(live, loose, World(owner, records, admissions, consumers, discovery, descriptions))
      && ShapeOk(queue, rawActive, leaving, World(owner, records, admissions, consumers, discovery, descriptions))
      && (closed ==> queue == [])
    }

    /** What holds between steps. In particular, an open registry never rests with queued producers
        and none active. */
    ghost predicate Valid()
      reads this
    {
      Inner({}, -1) && (queue != [] ==> rawActive > 0)
    }

    lemma InnerMeans(loose: set<nat>, leaving: int)
      ensures Inner(loose, leaving) <==>
                && LedgerOk(live, nextTicket, bytes, nodes)
                && HoldersOk(live, loose, World(owner, records, admissions, consumers, discovery, descriptions))
                && ShapeOk(queue, rawActive, leaving, World(owner, records, admissions, consumers, discovery, descriptions))
                && (closed ==> queue == [])
    {
      hide LedgerOk, HoldersOk, ShapeOk;
    }

    lemma ValidMeans()
      ensures Valid() <==> Inner({}, -1) && (queue != [] ==> rawActive > 0)
    {
      hide Inner;
    }

    constructor ()
      ensures Valid() && records == [] && consumers == [] && admissions == [] && !closed
    {
      bytes, nodes, live, nextTicket := 0, 0, [], 0;
      records, discovery, descriptions, queue, rawActive, admissions, consumers := [], [], [], [], 0, [], [];
      closed, owner := false, map[];
    }

    // ----- reservations

    /** Calling a release closure; a second call does nothing. */
    method Give(t: Ticket)
      requires LedgerOk(live, nextTicket, bytes, nodes)
      modifies this`live, this`bytes, this`nodes
      ensures LedgerOk(live, nextTicket, bytes, nodes) && live == Less(old(live), {t.id})
      ensures t in old(live) ==> bytes == old(bytes) - t.bytes && nodes == old(nodes) - t.nodes
      ensures t !in live && OnlyNewer(old(live), live, old(nextTicket))
      ensures bytes <= old(bytes) && nodes <= old(nodes)
    {
      hide *;
      var i := At(live, t.id);
      NotHeld(live, t.id);
      LessIsOld(live, {t.id}, nextTicket);
      NotInLess(live, t);
      if i < |live| {
        GivingKeepsOk(live, nextTicket, bytes, nodes, i);
        OnlyThere(live, nextTicket, bytes, nodes, i);
        bytes, nodes := bytes - live[i].bytes, nodes - live[i].nodes;
        live := live[..i] + live[i + 1..];
      }
    }

    method GiveAll(ts: seq<Ticket>)
      requires LedgerOk(live, nextTicket, bytes, nodes)
      modifies this`live, this`bytes, this`nodes
      ensures LedgerOk(live, nextTicket, bytes, nodes) && live == Less(old(live), Ids(ts))
      ensures OnlyNewer(old(live), live, old(nextTicket))
      ensures bytes <= old(bytes) && nodes <= old(nodes)
    {
      hide *;
      IdsOfNone();
      LessNone(live);
      LessIsOld(live, Ids(ts), nextTicket);
      var i := 0;
      while i < |ts|
        invariant 0 <= i <= |ts|
        invariant LedgerOk(live, nextTicket, bytes, nodes) && live == Less(old(live), Ids(ts[..i]))
        invariant bytes <= old(bytes) && nodes <= old(nodes)
      {
        Give(ts[i]);
        LessTwice(old(live), Ids(ts[..i]), {ts[i].id});
        IdsOfMore(ts[..i], ts[i]);
        assert ts[..i + 1] == ts[..i] + [ts[i]];
        i := i + 1;
      }
      assert ts[..i] == ts;
    }

    /** An idle discovery record goes, and gives back what it holds. */
    method RemoveIdle(i: nat, ghost loose: set<nat>, ghost leaving: int)
      requires Inner(loose, leaving) && i < |discovery| && discovery[i] < |records| && Idle(records[discovery[i]])
      modifies this`live, this`bytes, this`nodes, this`discovery
      ensures Inner(loose, leaving) && discovery == Cut(old(discovery), i)
      ensures forall q :: q in discovery <==> q in old(discovery) && q != old(discovery)[i]
      ensures live == Less(old(live), Ids(records[old(discovery)[i]].held))
      ensures Untouched(old(live), live, loose) && OnlyNewer(old(live), live, old(nextTicket))
      ensures bytes <= old(bytes) && nodes <= old(nodes)
    {
      hide *;
      InnerMeans(loose, leaving);
      ghost var w := World(owner, records, admissions, consumers, discovery, descriptions);
      var r := discovery[i];
      ghost var ids := Ids(records[r].held);
      DiscoveryCut(queue, rawActive, leaving, w, i);
      CutOnce(queue, rawActive, leaving, w, i);
      DiscoveryLeaves(live, loose, w, i);
      DiscoveryIsNoDescription(queue, rawActive, leaving, w, i);
      IdleLoses(w, Cut(discovery, i), descriptions, r);
      CachedHolds(live, loose, w, r);
      KeptApart(live, loose, records[r].held);
      discovery := Cut(discovery, i);
      GiveAll(records[r].held);
      Given(old(live), loose, w.(discovery := discovery), ids);
      InnerMeans(loose, leaving);
    }

    /** There is no room for the reservation, although no cached record is idle. */
    ghost predicate Full(b: nat, n: nat)
      reads this
    {
      NoRoom(bytes + b, nodes + n, discovery, records)
    }

    lemma FullMeans(b: nat, n: nat)
      ensures Full(b, n) <==>
                && !Fits(bytes + b, nodes + n)
                && forall i | 0 <= i < |discovery| :: discovery[i] < |records| && !Idle(records[discovery[i]])
    {
    }

    lemma FullIsNoRoom(b: nat, n: nat)
      ensures Full(b, n) <==> NoRoom(bytes + b, nodes + n, discovery, records)
    {
    }

    /** Idle discovery records give way, oldest first, until the reservation fits; it is refused only
        when none is left and it still does not fit. What is live afterwards is what was, but for what
        the records held that gave way, and the new reservation with its full share. */
    method Reserve(b: nat, n: nat, ghost loose: set<nat>, ghost leaving: int) returns (ticket: Option<Ticket>)
      requires Inner(loose, leaving)
      modifies this`live, this`bytes, this`nodes, this`nextTicket, this`discovery
      ensures ticket.None? ==> Inner(loose, leaving)
      ensures ticket.Some? ==> Inner(loose + {ticket.value.id}, leaving)
      ensures ticket.Some? ==> ticket.value.bytes == b && ticket.value.nodes == n && ticket.value.id == old(nextTicket)
      ensures nextTicket == if ticket.Some? then old(nextTicket) + 1 else old(nextTicket)
      ensures OnlyNewer(old(live), live, old(nextTicket))
      ensures var kept := Less(old(live), Released(records, old(discovery), discovery));
              live == if ticket.Some? then kept + [ticket.value] else kept
      ensures var gone := Only(old(live), Released(records, old(discovery), discovery));
              && bytes == old(bytes) - Bytes(gone) + (if ticket.Some? then b else 0)
              && nodes == old(nodes) - Nodes(gone) + (if ticket.Some? then n else 0)
      ensures discovery == old(discovery) ==>
                && live == (if ticket.Some? then old(live) + [ticket.value] else old(live))
                && bytes == old(bytes) + (if ticket.Some? then b else 0)
                && nodes == old(nodes) + (if ticket.Some? then n else 0)
      ensures Untouched(old(live), live, loose)
      ensures Trimmed(old(discovery), discovery, records)
      ensures old(Fits(bytes + b, nodes + n)) ==> ticket.Some? && discovery == old(discovery)
      ensures bytes <= old(bytes) + (if ticket.Some? then b else 0) && nodes <= old(nodes) + (if ticket.Some? then n else 0)
      ensures ticket.None? ==> Full(b, n)
      ensures old(Full(b, n)) ==> ticket.None?
    {
      hide *;
      FullMeans(b, n);
      InnerLedger(loose, leaving);
      TrimmedNothing(discovery, records);
      ReleasedNothing(records, discovery);
      LessNone(live);
      SameLive(live, loose, nextTicket);
      var i := 0;
      while i < |discovery| && !Fits(bytes + b, nodes + n)
        invariant 0 <= i <= |discovery| && Inner(loose, leaving) && nextTicket == old(nextTicket)
        invariant Trimmed(old(discovery), discovery, records)
        invariant live == Less(old(live), Released(records, old(discovery), discovery))
        invariant |discovery| <= |old(discovery)| && forall q | q in discovery :: q in old(discovery)
        invariant discovery == old(discovery) ==> live == old(live)
        invariant Untouched(old(live), live, loose) && OnlyNewer(old(live), live, old(nextTicket))
        invariant forall k | 0 <= k < i :: discovery[k] < |records| && !Idle(records[discovery[k]])
        invariant bytes <= old(bytes) && nodes <= old(nodes)
        invariant old(Fits(bytes + b, nodes + n)) ==> discovery == old(discovery) && Fits(bytes + b, nodes + n)
        invariant old(Full(b, n)) ==> discovery == old(discovery) && !Fits(bytes + b, nodes + n)
        decreases |discovery| - i
      {
        DiscoveryRange(loose, leaving, i);
        if Idle(records[discovery[i]]) {
          TrimmedMore(old(discovery), discovery, records, i);
          ghost var before, r, was := discovery, discovery[i], live;
          RemoveIdle(i, loose, leaving);
          ReleasedMore(records, old(discovery), before, discovery, r);
          LessTwice(old(live), Released(records, old(discovery), before), Ids(records[r].held));
          LiveTwice(old(live), was, live, loose, nextTicket, nextTicket);
          CutPrefix(before, i);
        } else {
          i := i + 1;
        }
      }
      InnerLedger(loose, leaving);
      ReservedSums(old(live), old(nextTicket), old(bytes), old(nodes), Released(records, old(discovery), discovery), live, nextTicket, bytes, nodes);
      if !Fits(bytes + b, nodes + n) {
        FullMeans(b, n);
        return None;
      }
      InnerMeans(loose, leaving);
      var t := Ticket(nextTicket, b, n);
      ghost var before := live;
      TakingKeepsOk(live, nextTicket, bytes, nodes, t);
      LedgerOrdered(live + [t], nextTicket + 1, bytes + b, nodes + n);
      Taken(live, loose, World(owner, records, admissions, consumers, discovery, descriptions), t);
      LiveMore(old(live), live, loose, nextTicket, t);
      bytes, nodes, live, nextTicket := bytes + b, nodes + n, live + [t], nextTicket + 1;
      InnerMeans(loose + {t.id}, leaving);
      return Some(t);
    }

    // ----- the two raw slots

    /** A job leaves the queue unstarted, and its producer fails. */
    method CancelAt(i: nat, ghost loose: set<nat>, ghost leaving: int)
      requires Inner(loose, leaving) && i < |queue|
      modifies this`queue, this`records
      ensures Inner(loose, leaving) && queue == Cut(old(queue), i)
      ensures old(queue)[i] < |old(records)| && old(records)[old(queue)[i]].stage.Queued?
      ensures records == old(records)[old(queue)[i] := old(records)[old(queue)[i]].(stage := Failing)]
    {
      hide *;
      InnerMeans(loose, leaving);
      ghost var w := World(owner, records, admissions, consumers, discovery, descriptions);
      QueueRange(queue, rawActive, leaving, w, i);
      var r := queue[i];
      DequeuedShape(queue, rawActive, leaving, w, i, Failing);
      WaitingHoldsNone(queue, rawActive, leaving, w, r);
      WaitingMayMove(w, r, Failing);
      RecordChanged(live, loose, w, r, records[r].(stage := Failing));
      assert loose + {} == loose;
      CutNothing(queue, i);
      records := records[r := records[r].(stage := Failing)];
      queue := Cut(queue, i);
      InnerMeans(loose, leaving);
    }

    /** The first job starts under an admission that owns the raw reservation. */
    method Start(ticket: Ticket)
      requires Inner({ticket.id}, -1) && queue != [] && rawActive < 2
      requires ticket in live && ticket.bytes == RAW_BYTES && ticket.nodes == RAW_NODES
      modifies this`queue, this`records, this`admissions, this`rawActive, this`owner
      ensures Inner({}, -1) && queue == old(queue)[1..] && rawActive == old(rawActive) + 1
      ensures old(queue)[0] < |old(records)| && old(records)[old(queue)[0]].stage.Queued?
      ensures records == old(records)[old(queue)[0] := old(records)[old(queue)[0]].(stage := Running(|old(admissions)|))]
      ensures admissions == old(admissions) + [Admission(old(queue)[0], Some(ticket), None, false, false)]
    {
      hide *;
      InnerMeans({ticket.id}, -1);
      ghost var w := World(owner, records, admissions, consumers, discovery, descriptions);
      QueueRange(queue, rawActive, -1, w, 0);
      var r := queue[0];
      RawSize(ticket);
      StartedShape(queue, rawActive, -1, w, ticket);
      WaitingHoldsNone(queue, rawActive, -1, w, r);
      ghost var adopted := OwnAll(owner, {ticket.id}, OfAdmission(|admissions|));
      AnyOwner(queue[1..], rawActive + 1, -1,
               w.(records := records[r := records[r].(stage := Running(|admissions|))], admissions := admissions + [Admission(r, Some(ticket), None, false, false)]),
               adopted);
      assert {} + {ticket.id} == {ticket.id};
      AdmissionAdded(live, {}, w, r, ticket);
      ghost var v := w.(owner := adopted, admissions := admissions + [Admission(r, Some(ticket), None, false, false)]);
      WaitingMayMove(v, r, Running(|admissions|));
      RecordChanged(live, {}, v, r, records[r].(stage := Running(|admissions|)));
      PlusNone({});
      queue := queue[1..];
      rawActive := rawActive + 1;
      records := records[r := records[r].(stage := Running(|admissions|))];
      owner := adopted;
      admissions := admissions + [Admission(r, Some(ticket), None, false, false)];
      InnerMeans({}, -1);
    }

    /** Starts what fits, from the front of the queue. A job that does not fit waits for a running
        producer; only with none running, and no idle index left to evict, does the queue fail, and
        then all of it, so that it cannot be stuck. */
    method Pump()
      requires Inner({}, -1)
      modifies this`live, this`bytes, this`nodes, this`nextTicket, this`discovery, this`queue, this`records, this`admissions, this`rawActive, this`owner
      ensures Valid() && Pumped(old(records), records) && Trimmed(old(discovery), discovery, old(records))
      ensures closed ==> records == old(records) && discovery == old(discovery) && rawActive == old(rawActive)
      ensures old(admissions) <= admissions && rawActive == old(rawActive) + |admissions| - |old(admissions)|
      ensures || Pumps(old(records), old(queue), old(admissions), records, queue, admissions)
              || (GivesUp(old(records), old(queue), |old(queue)|, records, queue)
                  && admissions == old(admissions) && rawActive == 0 && Full(RAW_BYTES, RAW_NODES))
      ensures !closed && queue != [] && rawActive < 2 ==> Full(RAW_BYTES, RAW_NODES)
      ensures OnlyNewer(old(live), live, old(nextTicket))
      ensures bytes - RawBytes(rawActive) <= old(bytes) - RawBytes(old(rawActive))
      ensures nodes - RawNodes(rawActive) <= old(nodes) - RawNodes(old(rawActive))
    {
      hide *;
      PumpedNothing(records);
      TrimmedNothing(discovery, records);
      PumpsNothing(records, queue, admissions);
      SameLive(live, {}, nextTicket);
      InnerMeans({}, -1);
      ActiveIsNat(queue, rawActive, -1, World(owner, records, admissions, consumers, discovery, descriptions));
      if closed {
        InnerMeans({}, -1);
        ValidMeans();
        return;
      }
      ghost var failed: nat := 0;
      while queue != [] && rawActive < 2
        invariant Inner({}, -1) && Pumped(old(records), records) && Trimmed(old(discovery), discovery, old(records))
        invariant old(admissions) <= admissions && rawActive == old(rawActive) + |admissions| - |old(admissions)|
        invariant failed == 0 ==> Pumps(old(records), old(queue), old(admissions), records, queue, admissions)
        invariant failed > 0 ==> GivesUp(old(records), old(queue), failed, records, queue)
                                 && admissions == old(admissions) && rawActive == 0 && Full(RAW_BYTES, RAW_NODES)
        invariant nextTicket >= old(nextTicket) && OnlyNewer(old(live), live, old(nextTicket))
        invariant bytes - RawBytes(rawActive) <= old(bytes) - RawBytes(old(rawActive))
        invariant nodes - RawNodes(rawActive) <= old(nodes) - RawNodes(old(rawActive))
        decreases |queue|
      {
        ghost var before, liveBefore, nextBefore := discovery, live, nextTicket;
        var ticket := Reserve(RAW_BYTES, RAW_NODES, {}, -1);
        NewerTwice(old(live), liveBefore, live, old(nextTicket), nextBefore);
        TrimmedOn(old(discovery), before, discovery, old(records), records);
        ghost var was, waiting, r := records, queue, queue[0];
        if ticket.None? {
          if rawActive > 0 {
            ValidMeans();
            return;
          }
          if failed == 0 {
            NothingStarted(old(records), old(queue), old(admissions), records, queue, admissions);
          }
          FullIsNoRoom(RAW_BYTES, RAW_NODES);
          CancelAt(0, {}, -1);
          CutHead(waiting);
          PumpedOne(old(records), was, r, Failing);
          GivesUpMore(old(records), old(queue), failed, was, waiting);
          NoRoomStays(bytes + RAW_BYTES, nodes + RAW_NODES, discovery, was, r);
          FullIsNoRoom(RAW_BYTES, RAW_NODES);
          failed := failed + 1;
        } else {
          assert {} + {ticket.value.id} == {ticket.value.id};
          assert ticket.value in live;
          RawSize(ticket.value);
          ghost var admitted := admissions;
          RawStep(rawActive);
          Start(ticket.value);
          PumpedOne(old(records), was, r, Running(|admitted|));
          PumpsMore(old(records), old(queue), old(admissions), was, waiting, admitted, ticket.value);
        }
      }
      InnerMeans({}, -1);
      ActiveIsNat(queue, rawActive, -1, World(owner, records, admissions, consumers, discovery, descriptions));
      if failed > 0 {
        GaveUpAll(old(records), old(queue), failed, records, queue);
      }
      ValidMeans();
    }

    // ----- what a step holds in its variables

    /** Gives back what a step holds. */
    method Return(t: Ticket, ghost loose: set<nat>, ghost leaving: int)
      requires Inner(loose + {t.id}, leaving)
      modifies this`live, this`bytes, this`nodes
      ensures Inner(loose, leaving) && live == Less(old(live), {t.id})
      ensures t in old(live) ==> bytes == old(bytes) - t.bytes && nodes == old(nodes) - t.nodes
      ensures t !in live && OnlyNewer(old(live), live, old(nextTicket)) && (t.id !in loose ==> Untouched(old(live), live, loose))
      ensures bytes <= old(bytes) && nodes <= old(nodes)
    {
      hide *;
      InnerMeans(loose + {t.id}, leaving);
      ghost var w := World(owner, records, admissions, consumers, discovery, descriptions);
      Give(t);
      UntouchedByOne(old(live), t, loose);
      Given(old(live), loose, w, {t.id});
      InnerMeans(loose, leaving);
    }

    method ReturnAll(ts: seq<Ticket>, ghost loose: set<nat>, ghost leaving: int)
      requires Inner(loose + Ids(ts), leaving)
      modifies this`live, this`bytes, this`nodes
      ensures Inner(loose, leaving) && live == Less(old(live), Ids(ts)) && bytes <= old(bytes) && nodes <= old(nodes)
      ensures OnlyNewer(old(live), live, old(nextTicket))
    {
      hide *;
      InnerMeans(loose + Ids(ts), leaving);
      ghost var w := World(owner, records, admissions, consumers, discovery, descriptions);
      GiveAll(ts);
      Given(old(live), loose, w, Ids(ts));
      InnerMeans(loose, leaving);
    }

    /** The producer of a record moves on; it keeps what it holds. */
    method Advance(r: nat, stage: Stage, revision: Option<nat>)
      requires Inner({}, -1) && r < |records| && !records[r].stage.Queued? && Pending(records[r])
      requires stage.Done? || stage.Failing?
      modifies this`records
      ensures Inner({}, -1) && records == old(records)[r := old(records)[r].(stage := stage, revision := revision)]
    {
      hide *;
      InnerMeans({}, -1);
      ghost var w := World(owner, records, admissions, consumers, discovery, descriptions);
      var rec := records[r].(stage := stage, revision := revision);
      AdvanceMeans(queue, rawActive, -1, w, r, rec);
      StageShape(queue, rawActive, -1, w, r, rec);
      RecordChanged(live, {}, w, r, rec);
      PlusNone({});
      records := records[r := rec];
      InnerMeans({}, -1);
    }

    method Fail(r: nat)
      requires Inner({}, -1) && r < |records| && !records[r].stage.Queued? && Pending(records[r])
      modifies this`records
      ensures Inner({}, -1) && records == old(records)[r := old(records)[r].(stage := Failing)]
      ensures old(records)[r].stage.Running? ==> records[r].held == []
    {
      hide *;
      InnerMeans({}, -1);
      RunningHoldsNone(queue, rawActive, -1, World(owner, records, admissions, consumers, discovery, descriptions), r);
      Advance(r, Failing, records[r].revision);
    }

    // ----- producers

    /** The slot's reservation is about to be given back: from now on the slot has none. */
    method Empty(a: nat, size: Size) returns (ticket: Option<Ticket>)
      requires Inner({}, -1) && a < |admissions| && !admissions[a].finished && !admissions[a].transferred
      requires Settled(World(owner, records, admissions, consumers, discovery, descriptions), a)
      requires size.bytes <= RAW_BYTES && size.nodes <= RAW_NODES
      modifies this`admissions
      ensures Inner(if ticket.Some? then {ticket.value.id} else {}, -1) && ticket == old(admissions)[a].ticket
      ensures admissions == old(admissions)[a := old(admissions)[a].(ticket := None, resized := Some(size))]
      ensures ticket.Some? ==> ticket.value in live
    {
      hide *;
      InnerMeans({}, -1);
      ghost var w := World(owner, records, admissions, consumers, discovery, descriptions);
      var admission := admissions[a].(ticket := None, resized := Some(size));
      ticket := admissions[a].ticket;
      EmptiedForm(admission);
      SlotIsLive(live, {}, w, a);
      AdmissionShape(queue, rawActive, -1, w, a, admission);
      AdmissionEmptied(live, {}, w, a, admission);
      LetByMeans(admissions[a], admission);
      assert {} + LetBy(admissions[a], admission) == LetBy(admissions[a], admission);
      admissions := admissions[a := admission];
      InnerMeans(if ticket.Some? then {ticket.value.id} else {}, -1);
    }

    /** The slot takes its new reservation over. */
    method Fill(a: nat, ticket: Ticket)
      requires Inner({} + {ticket.id}, -1) && ticket in live && a < |admissions| && !admissions[a].finished && !admissions[a].transferred
      requires Settled(World(owner, records, admissions, consumers, discovery, descriptions), a)
      requires admissions[a].ticket.None? && admissions[a].resized == Some(Size(ticket.bytes, ticket.nodes))
      requires ticket.bytes <= RAW_BYTES && ticket.nodes <= RAW_NODES
      modifies this`admissions, this`owner
      ensures Inner({}, -1) && admissions == old(admissions)[a := old(admissions)[a].(ticket := Some(ticket))]
    {
      hide *;
      InnerMeans({} + {ticket.id}, -1);
      ghost var w := World(owner, records, admissions, consumers, discovery, descriptions);
      var admission := admissions[a].(ticket := Some(ticket));
      FilledForm(admission, ticket);
      AdmissionShape(queue, rawActive, -1, w, a, admission);
      AdmissionFilled(live, {}, w, a, ticket);
      ghost var adopted := OwnAll(owner, {ticket.id}, OfAdmission(a));
      AnyOwner(queue, rawActive, -1, w.(admissions := admissions[a := admission]), adopted);
      admissions := admissions[a := admission];
      owner := adopted;
      InnerMeans({}, -1);
    }

    /** The raw reservation becomes one of the size of what was returned. It is given back first, so
        there is always room: this fails exactly when more was returned than the raw reservation covers. */
    method Resize(a: nat, b: nat, n: nat) returns (ok: bool)
      requires Inner({}, -1) && a < |admissions| && !admissions[a].finished && !admissions[a].transferred && admissions[a].resized.None?
      requires Settled(World(owner, records, admissions, consumers, discovery, descriptions), a)
      modifies this`live, this`bytes, this`nodes, this`nextTicket, this`discovery, this`admissions, this`owner
      ensures Inner({}, -1) && discovery == old(discovery)
      ensures ok <==> b <= RAW_BYTES && n <= RAW_NODES
      ensures !ok ==> admissions == old(admissions) && live == old(live) && bytes == old(bytes) && nodes == old(nodes)
      ensures ok ==>
                && |admissions| == |old(admissions)| && admissions[a].ticket.Some?
                && admissions == old(admissions)[a := old(admissions)[a].(ticket := admissions[a].ticket, resized := Some(Size(b, n)))]
                && admissions[a].ticket.value.bytes == b && admissions[a].ticket.value.nodes == n
                && bytes == old(bytes) - RAW_BYTES + b && nodes == old(nodes) - RAW_NODES + n
                && old(admissions)[a].ticket.Some?
                && live == Less(old(live), {old(admissions)[a].ticket.value.id}) + [admissions[a].ticket.value]
    {
      hide *;
      if b > RAW_BYTES || n > RAW_NODES {
        return false;
      }
      InnerMeans({}, -1);
      RawForm(queue, rawActive, -1, World(owner, records, admissions, consumers, discovery, descriptions), a);
      var raw := Empty(a, Size(b, n));
      assert {} + {raw.value.id} == {raw.value.id};
      InnerLimits({raw.value.id}, -1);
      Return(raw.value, {}, -1);
      RoomForLess(old(bytes), old(nodes), b, n);
      SameSettled(old(World(owner, records, admissions, consumers, discovery, descriptions)), World(owner, records, admissions, consumers, discovery, descriptions), a);
      var ticket := Reserve(b, n, {}, -1);
      SameSettled(old(World(owner, records, admissions, consumers, discovery, descriptions)), World(owner, records, admissions, consumers, discovery, descriptions), a);
      assert ticket.value in live;
      Fill(a, ticket.value);
      return true;
    }

    /** The index of a provider's list: the list's own size replaces the raw reservation, and the
        entries' reservations are handed to the record if all of them succeed, and given back if
        not. None stands for a provider, or a size check, that failed. Until the index is there its
        producer counts as failed. */
    method BuildIndex(a: nat, listing: Option<Listing>) returns (ok: bool)
      requires Valid() && a < |admissions| && admissions[a].record < |records| && records[admissions[a].record].stage == Running(a)
      modifies this`live, this`bytes, this`nodes, this`nextTicket, this`discovery, this`admissions, this`owner, this`records
      ensures Valid() && Trimmed(old(discovery), discovery, old(records))
      ensures var r := old(admissions)[a].record;
              && |records| == |old(records)|
              && records == old(records)[r := old(records)[r].(stage := if ok then Built else Failing, held := records[r].held)]
      ensures ok ==> !closed && listing.Some? && AllSucceed(listing.value.costs)
                     && HoldsEntries(records[old(admissions)[a].record].held, listing.value.costs)
      ensures !ok ==> records[old(admissions)[a].record].held == []
      ensures !closed && listing.Some? && old(Affordable(bytes, nodes, listing.value)) ==> ok
      ensures |admissions| == |old(admissions)|
      ensures var trades := !closed && listing.Some? && listing.value.raw.bytes <= RAW_BYTES && listing.value.raw.nodes <= RAW_NODES;
              && (ok ==> trades)
              && (!trades ==> admissions == old(admissions))
              && (trades ==>
                    && admissions[a].ticket.Some?
                    && admissions == old(admissions)[a := old(admissions)[a].(ticket := admissions[a].ticket, resized := Some(listing.value.raw))]
                    && admissions[a].ticket.value.bytes == listing.value.raw.bytes && admissions[a].ticket.value.nodes == listing.value.raw.nodes)
    {
      hide *;
      ValidMeans();
      TrimmedNothing(discovery, records);
      var r := admissions[a].record;
      RunningIsPending(records[r]);
      InnerMeans({}, -1);
      RunningSlot(queue, rawActive, -1, World(owner, records, admissions, consumers, discovery, descriptions), r);
      Fail(r);
      ValidMeans();
      if closed || listing.None? {
        return false;
      }
      FailedIsSettled(World(owner, records, admissions, consumers, discovery, descriptions), a);
      AffordableMeans(bytes, nodes, listing.value);
      var resized := Resize(a, listing.value.raw.bytes, listing.value.raw.nodes);
      ValidMeans();
      if !resized {
        return false;
      }
      var releases := Index(listing.value.costs);
      TrimmedFailing(old(discovery), discovery, old(records), records, r);
      if releases.None? {
        ValidMeans();
        return false;
      }
      Hold(r, releases.value);
      ValidMeans();
      return true;
    }

    method Index(costs: seq<Cost>) returns (releases: Option<seq<Ticket>>)
      requires Inner({}, -1)
      modifies this`live, this`bytes, this`nodes, this`nextTicket, this`discovery
      ensures releases.None? ==> Inner({}, -1)
      ensures releases.Some? ==> Inner(Ids(releases.value), -1) && HoldsEntries(releases.value, costs) && AllSucceed(costs)
                                 && AllLive(releases.value, live)
      ensures Trimmed(old(discovery), discovery, records)
      ensures AllSucceed(costs) && old(Fits(bytes + 1024 + PeakBytes(costs), nodes + 16 + PeakNodes(costs))) ==> releases.Some?
    {
      hide *;
      TrimmedNothing(discovery, records);
      FitsLess(bytes + 1024, nodes + 16, bytes + 1024 + PeakBytes(costs), nodes + 16 + PeakNodes(costs));
      var base := Reserve(1024, 16, {}, -1);
      if base.None? {
        return None;
      }
      var held := [base.value];
      IdsOfOne(base.value);
      assert {} + {base.value.id} == {base.value.id};
      HoldsFirst(base.value);
      OneLive(base.value, live);
      var i := 0;
      assert costs[0..] == costs && costs[..0] == [];
      while i < |costs|
        invariant 0 <= i <= |costs| && Inner(Ids(held), -1) && HoldsEntries(held, costs[..i]) && AllSucceed(costs[..i])
        invariant AllLive(held, live)
        invariant Trimmed(old(discovery), discovery, records)
        invariant AllSucceed(costs) ==> AllSucceed(costs[i..])
        invariant bytes + PeakBytes(costs[i..]) <= old(bytes) + 1024 + PeakBytes(costs)
        invariant nodes + PeakNodes(costs[i..]) <= old(nodes) + 16 + PeakNodes(costs)
      {
        CostStep(costs, i);
        FitsLess(bytes + costs[i].scratch.bytes + costs[i].kept.bytes, nodes + costs[i].scratch.nodes + costs[i].kept.nodes,
                 old(bytes) + 1024 + PeakBytes(costs), old(nodes) + 16 + PeakNodes(costs));
        ghost var before := discovery;
        var more := Entry(costs[i], held);
        TrimmedTwice(old(discovery), before, discovery, records);
        if more.None? {
          assert {} + Ids(held) == Ids(held);
          ReturnAll(held, {}, -1);
          return None;
        }
        HoldsNext(held, costs, i, more.value);
        held := held + [more.value];
        i := i + 1;
      }
      assert costs[..i] == costs;
      return Some(held);
    }

    /** One entry of an index: its scratch reservation is taken before the entry's own, beside it, and
        never outlives the step. */
    method Entry(cost: Cost, held: seq<Ticket>) returns (kept: Option<Ticket>)
      requires Inner(Ids(held), -1) && AllLive(held, live)
      modifies this`live, this`bytes, this`nodes, this`nextTicket, this`discovery
      ensures kept.None? ==> Inner(Ids(held), -1) && AllLive(held, live)
      ensures kept.Some? ==> Inner(Ids(held + [kept.value]), -1) && AllLive(held + [kept.value], live)
      ensures Trimmed(old(discovery), discovery, records)
      ensures kept.Some? ==> cost.succeeds && kept.value.bytes == cost.kept.bytes && kept.value.nodes == cost.kept.nodes
      ensures kept.Some? ==> Fits(bytes + cost.scratch.bytes, nodes + cost.scratch.nodes)
      ensures bytes <= old(bytes) + (if kept.Some? then cost.kept.bytes else 0)
      ensures nodes <= old(nodes) + (if kept.Some? then cost.kept.nodes else 0)
      ensures cost.succeeds && old(Fits(bytes + cost.scratch.bytes + cost.kept.bytes, nodes + cost.scratch.nodes + cost.kept.nodes)) ==> kept.Some?
    {
      hide *;
      TrimmedNothing(discovery, records);
      ghost var ids, next := Ids(held), nextTicket;
      FitsLess(bytes + cost.scratch.bytes, nodes + cost.scratch.nodes,
               bytes + cost.scratch.bytes + cost.kept.bytes, nodes + cost.scratch.nodes + cost.kept.nodes);
      InnerLedger(ids, -1);
      HeldIsOlder(held, live, nextTicket, bytes, nodes);
      var scratch := Reserve(cost.scratch.bytes, cost.scratch.nodes, ids, -1);
      StaysLive(held, old(live), live, ids);
      if scratch.None? {
        return None;
      }
      assert scratch.value in live && scratch.value.id !in ids;
      if !cost.succeeds {
        ghost var was := live;
        Return(scratch.value, ids, -1);
        StaysLive(held, was, live, ids);
        return None;
      }
      FitsLess(bytes + cost.kept.bytes, nodes + cost.kept.nodes,
               old(bytes) + cost.scratch.bytes + cost.kept.bytes, old(nodes) + cost.scratch.nodes + cost.kept.nodes);
      ghost var before := discovery;
      kept := Keep(cost.kept, held, scratch.value);
      TrimmedTwice(old(discovery), before, discovery, records);
    }

    /** The entry's own reservation is taken beside the scratch one, which then goes. */
    method Keep(own: Size, held: seq<Ticket>, scratch: Ticket) returns (kept: Option<Ticket>)
      requires Inner(Ids(held) + {scratch.id}, -1) && AllLive(held, live) && scratch in live && scratch.id !in Ids(held)
      modifies this`live, this`bytes, this`nodes, this`nextTicket, this`discovery
      ensures kept.None? ==> Inner(Ids(held), -1) && AllLive(held, live)
      ensures kept.Some? ==> Inner(Ids(held + [kept.value]), -1) && AllLive(held + [kept.value], live)
      ensures kept.Some? ==> kept.value.bytes == own.bytes && kept.value.nodes == own.nodes
      ensures kept.Some? ==> Fits(bytes + scratch.bytes, nodes + scratch.nodes)
      ensures Trimmed(old(discovery), discovery, records)
      ensures bytes <= old(bytes) - scratch.bytes + (if kept.Some? then own.bytes else 0)
      ensures nodes <= old(nodes) - scratch.nodes + (if kept.Some? then own.nodes else 0)
      ensures old(Fits(bytes + own.bytes, nodes + own.nodes)) ==> kept.Some?
    {
      hide *;
      ghost var ids := Ids(held);
      InnerLedger(ids + {scratch.id}, -1);
      HeldIsOlder(held, live, nextTicket, bytes, nodes);
      LessNumbers(live, nextTicket, bytes, nodes);
      kept := Reserve(own.bytes, own.nodes, ids + {scratch.id}, -1);
      StaysLive(held, old(live), live, ids + {scratch.id});
      StillLive(scratch, old(live), live, ids + {scratch.id});
      ghost var was := live;
      if kept.None? {
        Return(scratch, ids, -1);
        StaysLive(held, was, live, ids);
        return;
      }
      assert kept.value in live;
      IdsOfMore(held, kept.value);
      OneMoreLive(held, kept.value, live);
      assert ids + {scratch.id} + {kept.value.id} == Ids(held + [kept.value]) + {scratch.id};
      InnerLimits(Ids(held + [kept.value]) + {scratch.id}, -1);
      Return(scratch, Ids(held + [kept.value]), -1);
      StaysLive(held + [kept.value], was, live, Ids(held + [kept.value]));
    }

    /** The record's release closure takes over the entries' reservations. */
    method Hold(r: nat, releases: seq<Ticket>)
      requires Inner(Ids(releases), -1) && r < |records| && records[r].stage.Failing? && records[r].held == []
      requires AllLive(releases, live)
      modifies this`records, this`owner
      ensures Inner({}, -1) && records == old(records)[r := old(records)[r].(stage := Built, held := releases)]
    {
      hide *;
      assert {} + Ids(releases) == Ids(releases);
      InnerMeans(Ids(releases), -1);
      ghost var w := World(owner, records, admissions, consumers, discovery, descriptions);
      var rec := records[r].(stage := Built, held := releases);
      MadeMeans(w, r, rec);
      AllLiveMeans(releases, live);
      StageShape(queue, rawActive, -1, w, r, rec);
      ghost var adopted := OwnAll(owner, Ids(releases), OfRecord(r));
      AnyOwner(queue, rawActive, -1, w.(records := records[r := rec]), adopted);
      RecordHolds(live, {}, w, r, rec);
      records := records[r := rec];
      owner := adopted;
      InnerMeans({}, -1);
    }

    /** A descriptor is retained: its admission's reservation, resized, becomes the record's own,
        independently of the producer slot, while a scratch reservation covers the work on it. Until
        then its producer counts as failed. */
    method BuildDescriptor(a: nat, weight: Option<Size>, cloned: bool) returns (ok: bool)
      requires Valid() && a < |admissions| && admissions[a].record < |records| && records[admissions[a].record].stage == Running(a)
      modifies this`live, this`bytes, this`nodes, this`nextTicket, this`discovery, this`admissions, this`owner, this`records
      ensures Valid() && Trimmed(old(discovery), discovery, old(records))
      ensures var r := old(admissions)[a].record;
              && |records| == |old(records)|
              && records == old(records)[r := old(records)[r].(stage := if ok then Done else Failing, held := records[r].held)]
      ensures |admissions| == |old(admissions)|
      ensures var trades := !closed && weight.Some? && weight.value.bytes + 4096 <= RAW_BYTES && weight.value.nodes + 16 <= RAW_NODES;
              && (ok ==> trades && cloned)
              && (!trades ==> admissions == old(admissions))
              && (trades ==>
                    && admissions[a].ticket.Some?
                    && admissions == old(admissions)[a := old(admissions)[a].(ticket := admissions[a].ticket, transferred := ok,
                                                     resized := Some(Size(weight.value.bytes + 4096, weight.value.nodes + 16)))]
                    && admissions[a].ticket.value.bytes == weight.value.bytes + 4096 && admissions[a].ticket.value.nodes == weight.value.nodes + 16
                    && records[old(admissions)[a].record].held == if ok then [admissions[a].ticket.value] else [])
      ensures ok ==> Fits(bytes + weight.value.bytes * 2 + 4096, nodes + weight.value.nodes * 2 + 32)
      ensures !closed && cloned && weight.Some? && old(Retainable(bytes, nodes, weight.value)) ==> ok
    {
      hide *;
      ValidMeans();
      TrimmedNothing(discovery, records);
      var r := admissions[a].record;
      RunningIsPending(records[r]);
      InnerMeans({}, -1);
      RunningSlot(queue, rawActive, -1, World(owner, records, admissions, consumers, discovery, descriptions), r);
      Fail(r);
      ValidMeans();
      if closed || weight.None? {
        return false;
      }
      ghost var was := records;
      FailedIsSettled(World(owner, records, admissions, consumers, discovery, descriptions), a);
      RetainableMeans(bytes, nodes, weight.value);
      var resized := Resize(a, weight.value.bytes + 4096, weight.value.nodes + 16);
      ValidMeans();
      if !resized {
        return false;
      }
      ok := Retain(a, r, weight.value, cloned);
      TrimmedFailing(old(discovery), discovery, old(records), was, r);
      ValidMeans();
    }

    /** Scratch covers the source, its clone and the digest at the same time. */
    method Retain(a: nat, r: nat, weight: Size, cloned: bool) returns (ok: bool)
      requires Inner({}, -1) && a < |admissions| && r < |records| && admissions[a].record == r
      requires !admissions[a].finished && !admissions[a].transferred && admissions[a].ticket.Some?
      requires records[r].stage.Failing? && records[r].held == []
      modifies this`live, this`bytes, this`nodes, this`nextTicket, this`discovery, this`admissions, this`owner, this`records
      ensures Inner({}, -1) && Trimmed(old(discovery), discovery, old(records))
      ensures ok ==>
                && cloned && Fits(bytes + weight.bytes * 2 + 4096, nodes + weight.nodes * 2 + 32)
                && records == old(records)[r := old(records)[r].(stage := Done, held := [old(admissions)[a].ticket.value])]
                && admissions == old(admissions)[a := old(admissions)[a].(transferred := true)]
      ensures !ok ==> records == old(records) && admissions == old(admissions)
      ensures cloned && old(Fits(bytes + (weight.bytes * 2 + 4096), nodes + (weight.nodes * 2 + 32))) ==> ok
    {
      hide *;
      var scratch := Reserve(weight.bytes * 2 + 4096, weight.nodes * 2 + 32, {}, -1);
      if scratch.None? {
        return false;
      }
      assert scratch.value in live;
      if !cloned {
        Return(scratch.value, {}, -1);
        return false;
      }
      Transfer(a, r, {} + {scratch.value.id});
      InnerLimits({} + {scratch.value.id}, -1);
      Return(scratch.value, {}, -1);
      return true;
    }

    method Transfer(a: nat, r: nat, ghost loose: set<nat>)
      requires Inner(loose, -1) && a < |admissions| && r < |records| && admissions[a].record == r
      requires !admissions[a].finished && !admissions[a].transferred && admissions[a].ticket.Some?
      requires records[r].stage.Failing? && records[r].held == []
      modifies this`admissions, this`owner, this`records
      ensures Inner(loose, -1)
      ensures records == old(records)[r := old(records)[r].(stage := Done, held := [old(admissions)[a].ticket.value])]
      ensures admissions == old(admissions)[a := old(admissions)[a].(transferred := true)]
    {
      hide *;
      InnerMeans(loose, -1);
      ghost var w := World(owner, records, admissions, consumers, discovery, descriptions);
      var t := admissions[a].ticket.value;
      var rec := records[r].(stage := Done, held := [t]);
      var admission := admissions[a].(transferred := true);
      MadeMeans(w, r, rec);
      StageShape(queue, rawActive, -1, w, r, rec);
      ghost var v := w.(records := records[r := rec]);
      FailedIsSettled(v, a);
      SameForm(queue, rawActive, -1, v, a, admission);
      AdmissionShape(queue, rawActive, -1, v, a, admission);
      ghost var adopted := OwnAll(owner, {t.id}, OfRecord(r));
      AnyOwner(queue, rawActive, -1, v.(admissions := admissions[a := admission]), adopted);
      Transferred(live, loose, w, a, r, rec);
      owner := adopted;
      records := records[r := rec];
      admissions := admissions[a := admission];
      InnerMeans(loose, -1);
    }

    /** Once the operation has settled its slot is freed, with its reservation unless a record took
        that over, and the queue moves on. */
    method FinishAdmission(a: nat)
      requires Valid() && a < |admissions| && !admissions[a].finished
      requires Settled(World(owner, records, admissions, consumers, discovery, descriptions), a)
      modifies this`live, this`bytes, this`nodes, this`nextTicket, this`discovery, this`queue, this`records, this`admissions, this`rawActive, this`owner
      ensures Valid() && Pumped(old(records), records) && Trimmed(old(discovery), discovery, old(records))
      ensures closed ==> rawActive == old(rawActive) - 1 && records == old(records)
      ensures a < |admissions| && admissions[a] == old(admissions)[a].(finished := true)
      ensures !old(admissions)[a].transferred && old(admissions)[a].ticket.Some? ==> old(admissions)[a].ticket.value !in live
      ensures !closed && queue != [] && rawActive < 2 ==> Full(RAW_BYTES, RAW_NODES)
      ensures NoneFails(old(records), records) || (queue == [] && rawActive == 0 && Full(RAW_BYTES, RAW_NODES))
    {
      hide *;
      ValidMeans();
      Free(a);
      ghost var waiting, admitted, was, next := queue, admissions, live, nextTicket;
      Pump();
      PumpsFailNone(old(records), waiting, admitted, records, queue, admissions);
      if !old(admissions)[a].transferred && old(admissions)[a].ticket.Some? {
        NeverBack(was, live, next, old(admissions)[a].ticket.value);
      }
      NothingWaits(old(records), waiting, records, queue);
    }

    method Free(a: nat)
      requires Inner({}, -1) && a < |admissions| && !admissions[a].finished
      requires Settled(World(owner, records, admissions, consumers, discovery, descriptions), a)
      modifies this`live, this`bytes, this`nodes, this`admissions, this`rawActive
      ensures Inner({}, -1) && rawActive == old(rawActive) - 1
      ensures !old(admissions)[a].transferred && old(admissions)[a].ticket.Some? ==>
                old(admissions)[a].ticket.value !in live && old(admissions)[a].ticket.value.id < nextTicket
      ensures admissions == old(admissions)[a := old(admissions)[a].(finished := true)]
    {
      hide *;
      InnerMeans({}, -1);
      ghost var w := World(owner, records, admissions, consumers, discovery, descriptions);
      var before, admission := admissions[a], admissions[a].(finished := true);
      SlotIsLive(live, {}, w, a);
      LessNumbers(live, nextTicket, bytes, nodes);
      SameForm(queue, rawActive, -1, w, a, admission);
      AdmissionShape(queue, rawActive, -1, w, a, admission);
      AdmissionEmptied(live, {}, w, a, admission);
      LetByMeans(before, admission);
      assert {} + LetBy(before, admission) == LetBy(before, admission);
      rawActive := rawActive - 1;
      admissions := admissions[a := admission];
      InnerMeans(LetBy(before, admission), -1);
      if !before.transferred && before.ticket.Some? {
        assert {} + {before.ticket.value.id} == {before.ticket.value.id};
        Return(before.ticket.value, {}, -1);
      }
    }

    /** The load looks at the provider's revision again. If it moved, the index is discarded and the
        load retried, once. */
    method ContinueLoad(r: nat, after: Option<nat>)
      requires Valid() && r < |records| && records[r].stage.Built?
      modifies this`live, this`bytes, this`nodes, this`nextTicket, this`discovery, this`queue, this`records, this`admissions, this`rawActive, this`owner
      ensures Valid() && |records| == |old(records)|
      ensures var rec := old(records)[r];
              && (closed ==> records[r] == rec.(stage := Failing))
              && (!closed && rec.before == after ==> records[r] == rec.(stage := Done, revision := after))
              && (!closed && rec.before != after && rec.attempt >= 1 ==> records[r] == rec.(stage := Failing, held := []))
              && (!closed && rec.before != after && rec.attempt == 0 ==>
                    Moved(rec.(stage := Queued, held := [], before := after, attempt := 1), records[r]))
    {
      hide *;
      ValidMeans();
      BuiltIsPending(records[r]);
      if closed {
        Fail(r);
        ValidMeans();
        return;
      }
      if records[r].before == after {
        Advance(r, Done, after);
        ValidMeans();
        return;
      }
      Discard(r);
      BuiltIsPending(records[r]);
      if records[r].attempt >= 1 {
        Fail(r);
        ValidMeans();
        return;
      }
      Enqueue(r, records[r].(stage := Queued, before := after, attempt := 1));
      ghost var was := records;
      Pump();
      PumpedAt(was, records, r);
    }

    /** Calls the release closure of a record whose index is not wanted any more. */
    method Discard(r: nat)
      requires Inner({}, -1) && r < |records| && records[r].stage.Built?
      modifies this`live, this`bytes, this`nodes, this`records
      ensures Inner({}, -1) && records == old(records)[r := old(records)[r].(held := [])]
      ensures live == Less(old(live), Ids(old(records)[r].held))
    {
      hide *;
      InnerMeans({}, -1);
      ghost var w := World(owner, records, admissions, consumers, discovery, descriptions);
      var held, rec := records[r].held, records[r].(held := []);
      BuiltKeeps(w, r);
      StageShape(queue, rawActive, -1, w, r, rec);
      RecordEmptied(live, {}, w, r);
      records := records[r := rec];
      InnerMeans({} + Ids(held), -1);
      ReturnAll(held, {}, -1);
    }

    /** The producer of a record joins the queue again; what the record held has been given back. */
    method Enqueue(r: nat, rec: Record)
      requires Inner({}, -1) && !closed && r < |records| && records[r].stage.Built? && records[r].held == []
      requires rec == records[r].(stage := Queued, before := rec.before, attempt := rec.attempt)
      modifies this`queue, this`records
      ensures Inner({}, -1) && queue == old(queue) + [r] && records == old(records)[r := rec]
    {
      hide *;
      InnerMeans({}, -1);
      ghost var w := World(owner, records, admissions, consumers, discovery, descriptions);
      RetryMeans(w, r, rec);
      EnqueuedShape(queue, rawActive, -1, w, r, rec);
      RecordChanged(live, {}, w, r, rec);
      PlusNone({});
      queue := queue + [r];
      records := records[r := rec];
      InnerMeans({}, -1);
    }

    // ----- records are left and released

    /** Cancels the record's job if it still waits. */
    method CancelQueued(r: nat, ghost loose: set<nat>, ghost leaving: int)
      requires Inner(loose, leaving) && r < |records|
      modifies this`queue, this`records
      ensures Inner(loose, leaving) && |queue| <= |old(queue)|
      ensures records == if old(records)[r].stage.Queued? then old(records)[r := old(records)[r].(stage := Failing)] else old(records)
    {
      hide *;
      InnerMeans(loose, leaving);
      InQueue(queue, rawActive, leaving, World(owner, records, admissions, consumers, discovery, descriptions), r);
      var i := 0;
      while i < |queue| && queue[i] != r
        invariant 0 <= i <= |queue| && forall k | 0 <= k < i :: queue[k] != r
      {
        i := i + 1;
      }
      if i < |queue| {
        CutNothing(queue, i);
        CancelAt(i, loose, leaving);
      }
    }

    /** The record is of no further use: nobody uses it, and it failed, has no revision to be found
        by, or is not the cached one. */
    ghost predicate Spent(r: nat)
      requires r < |records|
      reads this
    {
      Idle(records[r]) && (!records[r].stage.ok || records[r].revision.None? || r !in discovery)
    }

    /** What a record holds that it has no use for: a running step gives it back. */
    ghost function Dropped(r: nat): set<nat>
      requires r < |records|
      reads this
    {
      if Keeps(World(owner, records, admissions, consumers, discovery, descriptions), r) then {} else Ids(records[r].held)
    }

    lemma DroppedMeans(r: nat)
      requires r < |records|
      ensures Dropped(r) == if Keeps(World(owner, records, admissions, consumers, discovery, descriptions), r) then {} else Ids(records[r].held)
    {
    }

    /** Only a record that is through, unused and not cached drops anything. */
    lemma DropsOnlyAtEnd(r: nat, loose: set<nat>, leaving: int)
      requires Inner(loose, leaving) && r < |records|
      ensures if Idle(records[r]) && r !in discovery && r !in descriptions then Dropped(r) == Ids(records[r].held) else Dropped(r) == {}
    {
      hide *;
      InnerMeans(loose, leaving);
      DroppedMeans(r);
      DropsAtEnd(queue, rawActive, leaving, World(owner, records, admissions, consumers, discovery, descriptions), r);
    }

    method ReleaseIndex(r: nat, ghost loose: set<nat>)
      requires Inner(loose, -1) && r < |records| && records[r].discovery && loose == Dropped(r)
      modifies this`live, this`bytes, this`nodes, this`discovery, this`queue, this`records
      ensures OnlyNewer(old(live), live, old(nextTicket))
      ensures Inner({}, -1) && |queue| <= |old(queue)|
      ensures Trimmed(old(discovery), discovery, old(records))
      ensures old(Spent(r)) ==> r !in discovery
      ensures records == if old(records)[r].stage.Queued? && old(records)[r].users == 0
                         then old(records)[r := old(records)[r].(stage := Failing)] else old(records)
    {
      hide *;
      SameLive(live, {}, nextTicket);
      SpentMeans(r);
      IdleMeans(records[r]);
      DropsOnlyAtEnd(r, loose, -1);
      DescribesNot(loose, -1, r);
      TrimmedNothing(discovery, records);
      if !records[r].stage.Ended? {
        if records[r].users == 0 {
          CancelQueued(r, {}, -1);
        }
        return;
      }
      StageOfEnded(records[r]);
      if records[r].users == 0 && (!records[r].stage.ok || records[r].revision.None? || r !in discovery) {
        if r in discovery {
          Uncache(r);
        }
        TrimmedWithout(old(discovery), discovery, records, r);
        assert {} + Ids(records[r].held) == Ids(records[r].held);
        ReturnAll(records[r].held, {}, -1);
      }
    }

    /** Takes the record out of discovery if it is there. */
    method Uncache(r: nat)
      requires Inner({}, -1) && r < |records| && records[r].discovery
      modifies this`discovery
      ensures Inner(if Idle(records[r]) && r in old(discovery) then Ids(records[r].held) else {}, -1) && r !in discovery
      ensures (forall q | q in discovery :: q in old(discovery)) && (forall q | q in old(discovery) && q != r :: q in discovery)
    {
      hide *;
      InnerMeans({}, -1);
      ghost var w := World(owner, records, admissions, consumers, discovery, descriptions);
      var i := Position(discovery, r);
      if i < |discovery| {
        DiscoveryCut(queue, rawActive, -1, w, i);
        CutOnce(queue, rawActive, -1, w, i);
        DiscoveryLeaves(live, {}, w, i);
        DiscoveryIsNoDescription(queue, rawActive, -1, w, i);
        IdleLoses(w, Cut(discovery, i), descriptions, r);
        assert r in old(discovery);
        assert {} + Lost(w, Cut(discovery, i), descriptions) == Lost(w, Cut(discovery, i), descriptions);
        discovery := Cut(discovery, i);
        InnerMeans(if Idle(records[r]) then Ids(records[r].held) else {}, -1);
      }
    }

    method Position(s: seq<nat>, r: nat) returns (i: nat)
      ensures i <= |s| && (i < |s| ==> s[i] == r) && (i == |s| ==> r !in s)
    {
      i := 0;
      while i < |s| && s[i] != r
        invariant 0 <= i <= |s| && forall k | 0 <= k < i :: s[k] != r
      {
        i := i + 1;
      }
    }

    lemma SpentMeans(r: nat)
      requires r < |records|
      ensures Spent(r) <==> records[r].stage.Ended? && records[r].users == 0 && (!records[r].stage.ok || records[r].revision.None? || r !in discovery)
    {
    }

    /** More than 32 records are kept only while they are under production or in use. */
    method TrimDiscovery()
      requires Inner({}, -1)
      modifies this`live, this`bytes, this`nodes, this`discovery
      ensures OnlyNewer(old(live), live, old(nextTicket))
      ensures Inner({}, -1) && Trimmed(old(discovery), discovery, records)
      ensures |discovery| <= 32 || forall i | 0 <= i < |discovery| :: discovery[i] < |records| && !Idle(records[discovery[i]])
      ensures |old(discovery)| <= 32 ==> discovery == old(discovery)
    {
      hide *;
      SameLive(live, {}, nextTicket);
      TrimmedNothing(discovery, records);
      var i := 0;
      while i < |discovery| && |discovery| > 32
        invariant 0 <= i <= |discovery| && Inner({}, -1) && Trimmed(old(discovery), discovery, records)
        invariant forall k | 0 <= k < i :: discovery[k] < |records| && !Idle(records[discovery[k]])
        invariant |old(discovery)| <= 32 ==> discovery == old(discovery)
        invariant OnlyNewer(old(live), live, old(nextTicket))
        decreases |discovery| - i
      {
        DiscoveryRange({}, -1, i);
        if Idle(records[discovery[i]]) {
          TrimmedMore(old(discovery), discovery, records, i);
          ghost var before, was := discovery, live;
          RemoveIdle(i, {}, -1);
          CutPrefix(before, i);
          NewerTwice(old(live), was, live, nextTicket, nextTicket);
        } else {
          i := i + 1;
        }
      }
    }

    /** A load is complete: its record has an index or an error, and may no longer be wanted. */
    method CompleteLoad(r: nat)
      requires Valid() && r < |records| && records[r].discovery && (records[r].stage.Done? || records[r].stage.Failing?)
      modifies this`live, this`bytes, this`nodes, this`discovery, this`queue, this`records
      ensures Valid() && records == old(records)[r := old(records)[r].(stage := Ended(old(records)[r].stage.Done?))]
      ensures old(records)[r].stage.Failing? ==> r !in discovery
      ensures old(records)[r].initial !in live
      ensures |discovery| <= 32 || forall i | 0 <= i < |discovery| :: discovery[i] < |records| && !Idle(records[discovery[i]])
    {
      hide *;
      ValidMeans();
      var ok := records[r].stage.Done?;
      EndedSteps(records[r], ok);
      PendingIsBusy(records[r]);
      if !ok {
        Uncache(r);
      }
      End(r, ok, -1);
      ghost var before, was := discovery, live;
      ReleaseIndex(r, Dropped(r));
      NeverBack(was, live, nextTicket, records[r].initial);
      TrimmedStays(before, discovery, records, r);
      before, was := discovery, live;
      TrimDiscovery();
      NeverBack(was, live, nextTicket, records[r].initial);
      TrimmedStays(before, discovery, records, r);
      ValidMeans();
    }

    /** The producer of a record is through: it gives its own reservation back. What the record holds
        is loose if the record has no more use for it. */
    method End(r: nat, ok: bool, ghost leaving: int)
      requires Inner({}, -1) && r < |records| && (records[r].stage.Done? || records[r].stage.Failing?)
      requires leaving == r || !Idle(records[r].(stage := Ended(ok))) || records[r].discovery
      requires leaving == r || leaving == -1
      modifies this`live, this`bytes, this`nodes, this`records
      ensures records == old(records)[r := old(records)[r].(stage := Ended(ok))]
      ensures Inner(Dropped(r), leaving)
      ensures old(records)[r].initial !in live && old(records)[r].initial.id < nextTicket
    {
      hide *;
      InnerMeans({}, -1);
      ghost var w := World(owner, records, admissions, consumers, discovery, descriptions);
      var initial, rec := records[r].initial, records[r].(stage := Ended(ok));
      EndMeans(w, r, rec);
      ProducerIsLive(live, {}, w, r);
      LessNumbers(live, nextTicket, bytes, nodes);
      AnyLeaving(queue, rawActive, leaving, w);
      NotDescription(queue, rawActive, leaving, w, r);
      StageShape(queue, rawActive, leaving, w, r, rec);
      RecordChanged(live, {}, w, r, rec);
      records := records[r := rec];
      DroppedMeans(r);
      assert {} + GivenUp(w, r, rec) == Dropped(r) + {initial.id};
      InnerMeans(Dropped(r) + {initial.id}, leaving);
      ghost var dropped := Dropped(r);
      Return(initial, dropped, leaving);
      DroppedMeans(r);
    }

    method ReleaseDescription(r: nat, ghost loose: set<nat>)
      requires Inner(loose, r) && r < |records| && !records[r].discovery && loose == Dropped(r)
      modifies this`live, this`bytes, this`nodes, this`descriptions, this`queue, this`records
      ensures OnlyNewer(old(live), live, old(nextTicket))
      ensures Inner({}, -1) && |queue| <= |old(queue)|
      ensures Idle(old(records)[r]) ==> r !in descriptions
      ensures records == if old(records)[r].stage.Queued? && old(records)[r].users == 0
                         then old(records)[r := old(records)[r].(stage := Failing)] else old(records)
    {
      hide *;
      SameLive(live, {}, nextTicket);
      IdleMeans(records[r]);
      DropsOnlyAtEnd(r, loose, r);
      if records[r].users > 0 {
        Stay(r);
        return;
      }
      if !records[r].stage.Ended? {
        Stay(r);
        CancelQueued(r, {}, -1);
        return;
      }
      StageOfEnded(records[r]);
      IndexesNot(loose, r, r);
      InnerMeans(loose, r);
      ghost var w := World(owner, records, admissions, consumers, discovery, descriptions);
      var i := Position(descriptions, r);
      if i < |descriptions| {
        DescriptionsCut(queue, rawActive, r, w, i);
        DescriptionOnce(queue, rawActive, r, w, i);
        DescriptionLeaves(live, {}, w, i);
        IdleLoses(w, discovery, Cut(descriptions, i), r);
        descriptions := Cut(descriptions, i);
      } else {
        LeavingDone(queue, rawActive, r, w);
      }
      assert {} + Ids(records[r].held) == Ids(records[r].held);
      InnerMeans(Ids(records[r].held), -1);
      ReturnAll(records[r].held, {}, -1);
    }

    lemma Stay(r: nat)
      requires Inner({}, r) && r < |records| && !Idle(records[r])
      ensures Inner({}, -1)
    {
      hide *;
      InnerMeans({}, r);
      LeavingDone(queue, rawActive, r, World(owner, records, admissions, consumers, discovery, descriptions));
      InnerMeans({}, -1);
    }

    method CompleteDescription(r: nat)
      requires Valid() && r < |records| && !records[r].discovery && (records[r].stage.Done? || records[r].stage.Failing?)
      modifies this`live, this`bytes, this`nodes, this`descriptions, this`queue, this`records
      ensures Valid() && records == old(records)[r := old(records)[r].(stage := Ended(old(records)[r].stage.Done?))]
      ensures old(records)[r].initial !in live
      ensures old(records)[r].users == 0 ==> r !in descriptions
    {
      hide *;
      ValidMeans();
      var ok := records[r].stage.Done?;
      EndedSteps(records[r], ok);
      End(r, ok, r);
      StageOfEnded(records[r]);
      ghost var was := live;
      ReleaseDescription(r, Dropped(r));
      NeverBack(was, live, nextTicket, records[r].initial);
      ValidMeans();
    }

    // ----- consumers

    method Lookup(cache: seq<nat>, key: nat) returns (i: nat)
      requires forall k | 0 <= k < |cache| :: cache[k] < |records|
      ensures i <= |cache| && (i < |cache| ==> records[cache[i]].key == key)
      ensures i == |cache| ==> forall k | 0 <= k < |cache| :: records[cache[k]].key != key
    {
      i := 0;
      while i < |cache| && records[cache[i]].key != key
        invariant 0 <= i <= |cache| && forall k | 0 <= k < i :: records[cache[k]].key != key
      {
        i := i + 1;
      }
    }

    method Begin(query: bool, ticket: Ticket) returns (c: nat)
      requires Inner({} + {ticket.id}, -1) && ticket in live
      modifies this`consumers, this`owner
      ensures Inner({}, -1) && c == |old(consumers)| && consumers == old(consumers) + [Consumer(query, ticket, [], false)]
    {
      hide *;
      InnerMeans({} + {ticket.id}, -1);
      ghost var w := World(owner, records, admissions, consumers, discovery, descriptions);
      var consumer := Consumer(query, ticket, [], false);
      ConsumerBegun(queue, rawActive, -1, w, consumer);
      ghost var adopted := OwnAll(owner, {ticket.id}, OfConsumer(|consumers|));
      AnyOwner(queue, rawActive, -1, w.(consumers := consumers + [consumer]), adopted);
      ConsumerAdded(live, {}, w, consumer);
      c := |consumers|;
      owner := adopted;
      consumers := consumers + [consumer];
      InnerMeans({}, -1);
    }

    method Join(c: nat, r: nat)
      requires Inner({}, -1) && c < |consumers| && !consumers[c].ended && r < |records| && (r in discovery || r in descriptions)
      modifies this`consumers, this`records
      ensures Inner({}, -1)
      ensures records == old(records)[r := old(records)[r].(users := old(records)[r].users + 1)]
      ensures consumers == old(consumers)[c := old(consumers)[c].(records := old(consumers)[c].records + [r])]
    {
      hide *;
      InnerMeans({}, -1);
      ghost var w := World(owner, records, admissions, consumers, discovery, descriptions);
      var rec := records[r].(users := records[r].users + 1);
      var consumer := consumers[c].(records := consumers[c].records + [r]);
      Joined(queue, rawActive, -1, w, c, r);
      UsedMeans(w, r, rec);
      RecordChanged(live, {}, w, r, rec);
      PlusNone({});
      ConsumerUpdated(live, {}, w.(records := records[r := rec]), c, consumer);
      records := records[r := rec];
      consumers := consumers[c := consumer];
      InnerMeans({}, -1);
    }

    /** A new record: its producer's job joins the queue. */
    method Create(c: nat, rec: Record)
      requires Inner({} + {rec.initial.id}, -1) && rec.initial in live && c < |consumers| && !consumers[c].ended && !closed
      requires rec.stage.Queued? && rec.users == 1 && rec.held == []
      requires rec.discovery ==> rec.initial.bytes == 1024 && rec.initial.nodes == 16
      modifies this`consumers, this`records, this`queue, this`owner
      ensures Inner({}, -1) && records == old(records) + [rec] && queue == old(queue) + [|old(records)|]
      ensures consumers == old(consumers)[c := old(consumers)[c].(records := old(consumers)[c].records + [|old(records)|])]
    {
      hide *;
      InnerMeans({} + {rec.initial.id}, -1);
      ghost var w := World(owner, records, admissions, consumers, discovery, descriptions);
      var r := |records|;
      var consumer := consumers[c].(records := consumers[c].records + [r]);
      NewForm(rec);
      Created(queue, rawActive, -1, w, c, rec);
      ghost var adopted := OwnAll(owner, {rec.initial.id}, OfProducer(r));
      AnyOwner(queue + [r], rawActive, -1, w.(records := records + [rec], consumers := consumers[c := consumer]), adopted);
      QueuedMeans(rec);
      RecordAdded(live, {}, w, rec);
      ConsumerUpdated(live, {}, w.(owner := adopted, records := records + [rec]), c, consumer);
      owner := adopted;
      records := records + [rec];
      queue := queue + [r];
      consumers := consumers[c := consumer];
      InnerMeans({}, -1);
    }

    /** A consumer leaves the first of its records. */
    method Leave(c: nat)
      requires Inner({}, -1) && c < |consumers| && consumers[c].records != []
      modifies this`live, this`bytes, this`nodes, this`discovery, this`descriptions, this`queue, this`records, this`consumers
      ensures Inner({}, -1) && |records| == |old(records)|
      ensures consumers == old(consumers)[c := old(consumers)[c].(records := old(consumers)[c].records[1..])]
    {
      hide *;
      InnerMeans({}, -1);
      ghost var w := World(owner, records, admissions, consumers, discovery, descriptions);
      Left(queue, rawActive, w, c);
      var r := consumers[c].records[0];
      var rec := records[r].(users := records[r].users - 1);
      var consumer := consumers[c].(records := consumers[c].records[1..]);
      LeftMeans(queue, rawActive, -1, w, r, rec);
      RecordChanged(live, {}, w, r, rec);
      ghost var loose := GivenUp(w, r, rec);
      assert {} + loose == loose;
      ConsumerUpdated(live, loose, w.(records := records[r := rec]), c, consumer);
      records := records[r := rec];
      consumers := consumers[c := consumer];
      InnerMeans(loose, r);
      DroppedMeans(r);
      SameKeeps(w, World(owner, records, admissions, consumers, discovery, descriptions), r, rec);
      if records[r].discovery {
        NotLeaving(loose, r);
        ReleaseIndex(r, loose);
      } else {
        ReleaseDescription(r, loose);
      }
    }

    lemma NotLeaving(loose: set<nat>, r: nat)
      requires Inner(loose, r) && r < |records| && records[r].discovery
      ensures Inner(loose, -1)
    {
      hide *;
      InnerMeans(loose, r);
      ghost var w := World(owner, records, admissions, consumers, discovery, descriptions);
      NotDescription(queue, rawActive, r, w, r);
      LeavingDone(queue, rawActive, r, w);
      InnerMeans(loose, -1);
    }

    /** The i-th record becomes the most recent. */
    method ToBack(i: nat)
      requires Inner({}, -1) && i < |discovery|
      modifies this`discovery
      ensures Inner({}, -1) && discovery == Cut(old(discovery), i) + [old(discovery)[i]]
    {
      hide *;
      InnerMeans({}, -1);
      ghost var w := World(owner, records, admissions, consumers, discovery, descriptions);
      var r := discovery[i];
      DiscoveryRange({}, -1, i);
      KeyOnce({}, -1, i);
      DiscoveryCut(queue, rawActive, -1, w, i);
      DiscoveryAppended(queue, rawActive, -1, w.(discovery := Cut(discovery, i)), r);
      CacheTurns(live, w, i);
      discovery := Cut(discovery, i) + [r];
      InnerMeans({}, -1);
    }

    method CutUsed(i: nat)
      requires Inner({}, -1) && i < |discovery| && discovery[i] < |records| && records[discovery[i]].users > 0
      modifies this`discovery
      ensures Inner({}, -1) && discovery == Cut(old(discovery), i)
    {
      hide *;
      InnerMeans({}, -1);
      ghost var w := World(owner, records, admissions, consumers, discovery, descriptions);
      DiscoveryCut(queue, rawActive, -1, w, i);
      CutOnce(queue, rawActive, -1, w, i);
      DiscoveryLeaves(live, {}, w, i);
      DiscoveryIsNoDescription(queue, rawActive, -1, w, i);
      IdleLoses(w, Cut(discovery, i), descriptions, discovery[i]);
      IdleMeans(records[discovery[i]]);
      PlusNone({});
      discovery := Cut(discovery, i);
      InnerMeans({}, -1);
    }

    method CacheIndex(r: nat)
      requires Inner({}, -1) && r < |records| && records[r].discovery && Pending(records[r])
      requires forall q | q in discovery :: q < |records| && records[q].key != records[r].key
      modifies this`discovery
      ensures Inner({}, -1) && discovery == old(discovery) + [r]
    {
      hide *;
      InnerMeans({}, -1);
      ghost var w := World(owner, records, admissions, consumers, discovery, descriptions);
      DiscoveryAppended(queue, rawActive, -1, w, r);
      CacheGrows(live, w, r, discovery + [r], descriptions);
      discovery := discovery + [r];
      InnerMeans({}, -1);
    }

    method CacheDescription(r: nat)
      requires Inner({}, -1) && r < |records| && !records[r].discovery && Pending(records[r])
      requires forall q | q in descriptions :: q < |records| && records[q].key != records[r].key
      modifies this`descriptions
      ensures Inner({}, -1) && descriptions == old(descriptions) + [r]
    {
      hide *;
      InnerMeans({}, -1);
      ghost var w := World(owner, records, admissions, consumers, discovery, descriptions);
      PendingIsBusy(records[r]);
      DescriptionAppended(queue, rawActive, -1, w, r);
      CacheGrows(live, w, r, discovery, descriptions + [r]);
      descriptions := descriptions + [r];
      InnerMeans({}, -1);
    }

    /** A query joins the cached record of a provider, if that is under production or has the
        provider's revision, or starts a new load. */
    method Acquire(c: nat, provider: nat, revision: Option<nat>) returns (ok: bool)
      requires Valid() && c < |consumers| && !consumers[c].ended
      modifies this`live, this`bytes, this`nodes, this`nextTicket, this`discovery, this`queue, this`records, this`admissions, this`rawActive, this`owner, this`consumers
      ensures Valid() && |records| >= |old(records)|
      ensures ok ==> Joins(c, old(consumers), provider)
      ensures ok ==> || (|records| == |old(records)|
                         && exists r :: r in old(discovery) && r < |old(records)| && old(records)[r].key == provider
                                        && (Pending(old(records)[r]) || old(records)[r].revision == revision)
                                        && records == old(records)[r := old(records)[r].(users := old(records)[r].users + 1)])
                     || (|records| == |old(records)| + 1 && IsNew(records[|old(records)|], provider, revision))
      ensures !ok ==> consumers == old(consumers) && (closed || Full(1024, 16))
      ensures !closed && old(Fits(bytes + 1024, nodes + 16)) ==> ok
      ensures ok ==> bytes - RawBytes(rawActive) <= old(bytes) - RawBytes(old(rawActive)) + 1024
                     && nodes - RawNodes(rawActive) <= old(nodes) - RawNodes(old(rawActive)) + 16
    {
      hide *;
      ValidMeans();
      if closed {
        return false;
      }
      DiscoveryInRange({}, -1);
      var i := Lookup(discovery, provider);
      if i < |discovery| {
        var r := discovery[i];
        if !records[r].stage.Ended? || records[r].revision == revision {
          DiscoveryRange({}, -1, i);
          PendingMeans(records[r]);
          assert r in old(discovery);
          Join(c, r);
          ToBack(i);
          ValidMeans();
          JoinsMeans(c, old(consumers), provider, r);
          return true;
        }
        Forget(i);
      }
      ValidMeans();
      FitsLess(bytes + 1024, nodes + 16, old(bytes) + 1024, old(nodes) + 16);
      ok := Load(c, provider, revision);
    }

    /** A cached record whose provider has moved on is replaced. It is released now, or by its last
        user. */
    method Forget(i: nat)
      requires Inner({}, -1) && i < |discovery| && discovery[i] < |records| && records[discovery[i]].stage.Ended?
      modifies this`live, this`bytes, this`nodes, this`discovery
      ensures Inner({}, -1) && discovery == Cut(old(discovery), i) && bytes <= old(bytes) && nodes <= old(nodes)
      ensures forall r | r in discovery :: r < |records| && records[r].key != records[old(discovery)[i]].key
    {
      hide *;
      KeyOnce({}, -1, i);
      IdleMeans(records[discovery[i]]);
      if records[discovery[i]].users == 0 {
        RemoveIdle(i, {}, -1);
      } else {
        CutUsed(i);
      }
    }

    method Load(c: nat, provider: nat, revision: Option<nat>) returns (ok: bool)
      requires Valid() && !closed && c < |consumers| && !consumers[c].ended
      requires forall r | r in discovery :: r < |records| && records[r].key != provider
      modifies this`live, this`bytes, this`nodes, this`nextTicket, this`discovery, this`queue, this`records, this`admissions, this`rawActive, this`owner, this`consumers
      ensures Valid() && |records| >= |old(records)|
      ensures ok ==> Joins(c, old(consumers), provider)
      ensures ok ==> |records| == |old(records)| + 1 && IsNew(records[|old(records)|], provider, revision)
      ensures !ok ==> consumers == old(consumers) && (closed || Full(1024, 16))
      ensures !closed && old(Fits(bytes + 1024, nodes + 16)) ==> ok
      ensures ok ==> bytes - RawBytes(rawActive) <= old(bytes) - RawBytes(old(rawActive)) + 1024
                     && nodes - RawNodes(rawActive) <= old(nodes) - RawNodes(old(rawActive)) + 16
    {
      hide *;
      ValidMeans();
      ghost var before := discovery;
      var initial := Reserve(1024, 16, {}, -1);
      if initial.None? {
        ValidMeans();
        return false;
      }
      KeyStaysGone(before, discovery, records, provider);
      var r := |records|;
      var rec := Record(true, provider, Queued, 1, [], initial.value, revision, revision, 0);
      assert initial.value in live;
      Create(c, rec);
      QueuedMeans(rec);
      CacheIndex(r);
      ghost var was := records;
      ghost var cached := discovery;
      Pump();
      PumpedAt(was, records, r);
      MovedMeans(was[r], records[r]);
      CachedStays(cached, discovery, was, r);
      JoinsMeans(c, old(consumers), provider, r);
      NewMeans(records[r], provider, revision);
      return true;
    }

    /** A load that has just begun, or been cancelled at once: it has taken nothing but its own first
        reservation. */
    ghost predicate IsNew(rec: Record, provider: nat, revision: Option<nat>) {
      && rec.discovery && rec.key == provider && rec.users == 1 && rec.held == [] && rec.attempt == 0
      && rec.revision == revision && rec.before == revision
      && rec.initial.bytes == 1024 && rec.initial.nodes == 16
    }

    lemma NewMeans(rec: Record, provider: nat, revision: Option<nat>)
      requires rec.discovery && rec.key == provider && rec.users == 1 && rec.held == [] && rec.attempt == 0
      requires rec.revision == revision && rec.before == revision && rec.initial.bytes == 1024 && rec.initial.nodes == 16
      ensures IsNew(rec, provider, revision)
    {
    }

    /** The consumer has come to use the provider's cached record. */
    ghost predicate Joins(c: nat, before: seq<Consumer>, provider: nat)
      requires c < |before|
      reads this
    {
      exists r: nat :: r < |records| && records[r].key == provider && records[r].discovery && r in discovery
                       && consumers == before[c := before[c].(records := before[c].records + [r])]
    }

    lemma JoinsMeans(c: nat, before: seq<Consumer>, provider: nat, r: nat)
      requires c < |before| && r < |records| && records[r].key == provider && records[r].discovery && r in discovery
      requires consumers == before[c := before[c].(records := before[c].records + [r])]
      ensures Joins(c, before, provider)
    {
    }

    lemma JoinsAdds(c: nat, before: seq<Consumer>, provider: nat)
      requires c < |before| && Joins(c, before, provider)
      ensures |consumers| == |before| && |consumers[c].records| == |before[c].records| + 1
      ensures consumers[c] == before[c].(records := consumers[c].records)
    {
    }

    /** A query takes one record of every provider, or, if one cannot be had, none. An open registry
        refuses it only if there is no room for the query's own reservation, one for each provider
        and two raw producers beside what is live. */
    method BeginQuery(own: Size, providers: seq<(nat, Option<nat>)>) returns (c: Option<nat>)
      requires Valid()
      modifies this
      ensures Valid() && closed == old(closed)
      ensures c.Some? ==> !closed && c.value == |old(consumers)| == |consumers| - 1
                          && consumers[c.value].query && !consumers[c.value].ended && |consumers[c.value].records| == |providers|
                          && consumers[c.value].ticket.bytes == own.bytes && consumers[c.value].ticket.nodes == own.nodes
      ensures c.None? ==> |consumers| == |old(consumers)| || (|consumers| == |old(consumers)| + 1 && consumers[|old(consumers)|].ended)
      ensures c.None? ==> closed || !old(QueryFits(bytes, nodes, own, |providers|))
    {
      hide *;
      ValidMeans();
      if closed {
        return None;
      }
      SlotsAreFew();
      QueryFitsFrom(bytes, nodes, own, |providers|);
      var ticket := Reserve(own.bytes, own.nodes, {}, -1);
      if ticket.None? {
        ValidMeans();
        return None;
      }
      assert ticket.value in live;
      var n := Begin(true, ticket.value);
      ValidMeans();
      var i := 0;
      while i < |providers|
        invariant 0 <= i <= |providers| && Valid() && closed == old(closed)
        invariant n == |old(consumers)| == |consumers| - 1 && |consumers[n].records| == i
        invariant consumers[n] == Consumer(true, ticket.value, consumers[n].records, false)
        invariant bytes - RawBytes(rawActive) <= old(bytes) - RawBytes(old(rawActive)) + own.bytes + i * 1024
        invariant nodes - RawNodes(rawActive) <= old(nodes) - RawNodes(old(rawActive)) + own.nodes + i * 16
      {
        SlotsAreFew();
        assert 0 <= old(rawActive);
        QueryFitsAt(bytes, nodes, old(bytes), old(nodes), own, |providers|, i, old(rawActive), rawActive);
        ghost var before := consumers;
        var ok := Acquire(n, providers[i].0, providers[i].1);
        if !ok {
          var _ := Finish(n, None);
          return None;
        }
        JoinsAdds(n, before, providers[i].0);
        i := i + 1;
      }
      return Some(n);
    }

    lemma SlotsAreFew()
      requires Valid()
      ensures 0 <= rawActive <= 2
    {
      hide *;
      ValidMeans();
      InnerMeans({}, -1);
      ActiveIsNat(queue, rawActive, -1, World(owner, records, admissions, consumers, discovery, descriptions));
    }

    /** The end of a query or a description, whatever ended its wait: a result needs room for its
        clones, for a moment; then every record is left, and what nobody wants any more goes. */
    method Finish(c: nat, clones: Option<Size>) returns (ok: bool)
      requires Valid() && c < |consumers| && !consumers[c].ended
      modifies this`live, this`bytes, this`nodes, this`nextTicket, this`discovery, this`descriptions, this`queue, this`records, this`admissions, this`rawActive, this`owner, this`consumers
      ensures Valid() && consumers == old(consumers)[c := old(consumers)[c].(records := [], ended := true)]
      ensures old(consumers)[c].ticket !in live
      ensures ok ==> clones.Some? && !closed && Fits(clones.value.bytes, clones.value.nodes)
      ensures clones.Some? && !closed && old(Fits(bytes + clones.value.bytes, nodes + clones.value.nodes)) ==> ok
    {
      hide *;
      ValidMeans();
      ok := false;
      if !closed && clones.Some? {
        ok := Clone(clones.value);
      }
      while consumers[c].records != []
        invariant Inner({}, -1) && c < |consumers|
        invariant consumers == old(consumers)[c := old(consumers)[c].(records := consumers[c].records)]
        decreases |consumers[c].records|
      {
        Leave(c);
      }
      EndConsumer(c);
      ghost var ticket, was, next := consumers[c].ticket, live, nextTicket;
      if consumers[c].query {
        TrimDiscovery();
        NeverBack(was, live, next, ticket);
        was := live;
      }
      Pump();
      NeverBack(was, live, next, ticket);
    }

    /** The clones are made under a reservation beside all that is live, which goes at once. */
    method Clone(clones: Size) returns (ok: bool)
      requires Inner({}, -1)
      modifies this`live, this`bytes, this`nodes, this`nextTicket, this`discovery
      ensures Inner({}, -1) && Trimmed(old(discovery), discovery, records)
      ensures live == Less(old(live), Released(records, old(discovery), discovery))
      ensures ok ==> Fits(bytes + clones.bytes, nodes + clones.nodes) && Fits(clones.bytes, clones.nodes)
      ensures !ok ==> Full(clones.bytes, clones.nodes)
      ensures old(Fits(bytes + clones.bytes, nodes + clones.nodes)) ==> ok && discovery == old(discovery)
    {
      hide *;
      InnerLedger({}, -1);
      LessNumbers(live, nextTicket, bytes, nodes);
      var ticket := Reserve(clones.bytes, clones.nodes, {}, -1);
      if ticket.None? {
        return false;
      }
      ghost var kept := Less(old(live), Released(records, old(discovery), discovery));
      InnerLimits({} + {ticket.value.id}, -1);
      LastGoes(old(live), Released(records, old(discovery), discovery), kept, ticket.value);
      assert ticket.value in live;
      Return(ticket.value, {}, -1);
      InnerLimits({}, -1);
      FitsLess(clones.bytes, clones.nodes, bytes + clones.bytes, nodes + clones.nodes);
      return true;
    }

    method EndConsumer(c: nat)
      requires Inner({}, -1) && c < |consumers| && consumers[c].records == [] && !consumers[c].ended
      modifies this`live, this`bytes, this`nodes, this`consumers
      ensures Inner({}, -1) && consumers == old(consumers)[c := old(consumers)[c].(ended := true)]
      ensures old(consumers)[c].ticket !in live && old(consumers)[c].ticket.id < nextTicket
    {
      hide *;
      InnerMeans({}, -1);
      ghost var w := World(owner, records, admissions, consumers, discovery, descriptions);
      var ticket := consumers[c].ticket;
      ConsumerIsLive(live, {}, w, c);
      LessNumbers(live, nextTicket, bytes, nodes);
      ConsumerEnded(queue, rawActive, -1, w, c);
      ConsumerEmptied(live, {}, w, c);
      consumers := consumers[c := consumers[c].(ended := true)];
      InnerMeans({} + {ticket.id}, -1);
      Return(ticket, {}, -1);
    }

    /** A description joins the record of its reference, or starts a new load. */
    method BeginDescription(own: Size, reference: nat) returns (c: Option<nat>)
      requires Valid()
      modifies this
      ensures Valid() && closed == old(closed)
      ensures c.Some? ==> !closed && c.value == |old(consumers)| == |consumers| - 1
                          && !consumers[c.value].query && !consumers[c.value].ended
                          && consumers[c.value].ticket.bytes == own.bytes && consumers[c.value].ticket.nodes == own.nodes
                          && Describes(consumers[c.value], reference)
      ensures c.Some? ==> |records| == |old(records)| || (|records| == |old(records)| + 1 && StartsWith(records[|old(records)|], own))
      ensures c.None? ==> |consumers| == |old(consumers)| || (|consumers| == |old(consumers)| + 1 && consumers[|old(consumers)|].ended)
      ensures !closed && old(Fits(bytes + 2 * own.bytes, nodes + 2 * own.nodes)) ==> c.Some?
    {
      hide *;
      ValidMeans();
      if closed {
        return None;
      }
      FitsLess(bytes + own.bytes, nodes + own.nodes, bytes + 2 * own.bytes, nodes + 2 * own.nodes);
      var ticket := Reserve(own.bytes, own.nodes, {}, -1);
      if ticket.None? {
        ValidMeans();
        return None;
      }
      FitsLess(bytes + own.bytes, nodes + own.nodes, old(bytes) + 2 * own.bytes, old(nodes) + 2 * own.nodes);
      assert ticket.value in live;
      var n := Begin(false, ticket.value);
      ValidMeans();
      var ok := Describe(n, own, reference);
      if !ok {
        ValidMeans();
        var _ := Finish(n, None);
        return None;
      }
      return Some(n);
    }

    /** The consumer joins the record kept for the reference, or one that starts under production. */
    method Describe(n: nat, own: Size, reference: nat) returns (ok: bool)
      requires Valid() && !closed && n < |consumers| && consumers[n].records == [] && !consumers[n].ended
      modifies this`live, this`bytes, this`nodes, this`nextTicket, this`discovery, this`descriptions, this`queue, this`records, this`admissions, this`rawActive, this`owner, this`consumers
      ensures Valid()
      ensures !ok ==> consumers == old(consumers) && Full(own.bytes, own.nodes)
      ensures ok ==> |consumers| == |old(consumers)|
                     && consumers == old(consumers)[n := old(consumers)[n].(records := consumers[n].records)] && Describes(consumers[n], reference)
      ensures ok ==> |records| == |old(records)| || (|records| == |old(records)| + 1 && StartsWith(records[|old(records)|], own))
      ensures old(Fits(bytes + own.bytes, nodes + own.nodes)) ==> ok
    {
      hide *;
      ValidMeans();
      DiscoveryInRange({}, -1);
      var i := Lookup(descriptions, reference);
      if i < |descriptions| {
        IndexesNoDescription({}, -1, i);
        Join(n, descriptions[i]);
        ValidMeans();
        DescribesMeans(consumers[n], descriptions[i], reference);
        return true;
      }
      var pending := Reserve(own.bytes, own.nodes, {}, -1);
      if pending.None? {
        ValidMeans();
        return false;
      }
      assert pending.value in live;
      LoadDescription(n, reference, pending.value);
      DescribesMeans(consumers[n], |old(records)|, reference);
      StartsMeans(records[|old(records)|], own);
      return true;
    }

    /** A description has just begun, and its producer has a reservation of its own. */
    ghost predicate StartsWith(rec: Record, own: Size) {
      !rec.discovery && rec.users == 1 && rec.held == [] && rec.initial.bytes == own.bytes && rec.initial.nodes == own.nodes
    }

    lemma StartsMeans(rec: Record, own: Size)
      requires !rec.discovery && rec.users == 1 && rec.held == [] && rec.initial.bytes == own.bytes && rec.initial.nodes == own.nodes
      ensures StartsWith(rec, own)
    {
    }

    /** The consumer uses one record, the one kept for the reference. */
    ghost predicate Describes(consumer: Consumer, reference: nat)
      reads this
    {
      && |consumer.records| == 1 && consumer.records[0] < |records|
      && var rec := records[consumer.records[0]]; !rec.discovery && rec.key == reference && consumer.records[0] in descriptions
    }

    lemma DescribesMeans(consumer: Consumer, r: nat, reference: nat)
      requires consumer.records == [r] && r < |records| && !records[r].discovery && records[r].key == reference && r in descriptions
      ensures Describes(consumer, reference)
    {
    }

    method LoadDescription(c: nat, reference: nat, pending: Ticket)
      requires Inner({} + {pending.id}, -1) && pending in live && !closed && c < |consumers| && !consumers[c].ended
      requires forall r | r in descriptions :: r < |records| && records[r].key != reference
      modifies this`live, this`bytes, this`nodes, this`nextTicket, this`discovery, this`descriptions, this`queue, this`records, this`admissions, this`rawActive, this`owner, this`consumers
      ensures Valid() && descriptions == old(descriptions) + [|old(records)|]
      ensures consumers == old(consumers)[c := old(consumers)[c].(records := old(consumers)[c].records + [|old(records)|])]
      ensures |records| == |old(records)| + 1
      ensures var rec := records[|old(records)|];
              !rec.discovery && rec.key == reference && rec.users == 1 && rec.held == [] && rec.initial == pending
    {
      hide *;
      var r := |records|;
      var rec := Record(false, reference, Queued, 1, [], pending, None, None, 0);
      Create(c, rec);
      QueuedMeans(rec);
      CacheDescription(r);
      ghost var was := records;
      Pump();
      PumpedAt(was, records, r);
      MovedMeans(was[r], records[r]);
    }

    // ----- shutdown

    /** Nothing is admitted any more, and what waits in the queue fails. */
    method Close()
      requires Valid()
      modifies this`closed, this`queue, this`records
      ensures Valid() && closed && queue == []
      ensures old(closed) ==> records == old(records)
      ensures GivesUp(old(records), old(queue), |old(queue)|, records, queue)
    {
      hide *;
      PumpsNothing(records, queue, admissions);
      if closed {
        ValidMeans();
        InnerMeans({}, -1);
        return;
      }
      ValidMeans();
      ghost var failed: nat := 0;
      while queue != []
        invariant Inner({}, -1) && closed == old(closed) && GivesUp(old(records), old(queue), failed, records, queue)
        decreases |queue|
      {
        ghost var was, waiting := records, queue;
        CutHead(queue);
        CancelAt(0, {}, -1);
        GivesUpMore(old(records), old(queue), failed, was, waiting);
        failed := failed + 1;
      }
      GaveUpAll(old(records), old(queue), failed, records, queue);
      InnerMeans({}, -1);
      closed := true;
      InnerMeans({}, -1);
      ValidMeans();
    }

    /** After the providers have been closed: the cached indexes go; what is still in use or under
        production is released by those that end it. */
    method FinishClose()
      requires Valid() && closed
      modifies this`live, this`bytes, this`nodes, this`discovery
      ensures Valid() && discovery == []
    {
      hide *;
      ValidMeans();
      InnerMeans({}, -1);
      ghost var w := World(owner, records, admissions, consumers, discovery, descriptions);
      DiscoveryInRange({}, -1);
      var before := discovery;
      ghost var loose := Lost(w, [], descriptions);
      DiscoveryEmptied(queue, rawActive, -1, w);
      CacheCleared(live, w);
      LostAreIdle(queue, rawActive, -1, w);
      LessNone(live);
      discovery := [];
      ghost var given: set<nat> := {};
      var i := 0;
      while i < |before|
        invariant 0 <= i <= |before| && LedgerOk(live, nextTicket, bytes, nodes) && live == Less(old(live), given)
        invariant forall k | 0 <= k < i && Idle(records[before[k]]) :: Ids(records[before[k]].held) <= given
        invariant given <= loose && discovery == []
      {
        if Idle(records[before[i]]) {
          GiveAll(records[before[i]].held);
          LessTwice(old(live), given, Ids(records[before[i]].held));
          given := given + Ids(records[before[i]].held);
        }
        i := i + 1;
      }
      AllGiven(w, given);
      assert given == loose;
      assert {} + loose == loose;
      Given(old(live), {}, w.(discovery := []), loose);
      InnerMeans({}, -1);
      ValidMeans();
    }

    // ----- what every run keeps

    /** The counters are the sums of the live reservations, within the limits, at every step. */
    lemma UsageIsTheSumOfWhatIsLive()
      requires Valid()
      ensures bytes == Bytes(live) <= INDEX_BYTES && nodes == Nodes(live) <= INDEX_NODES
    {
      hide HoldersOk, ShapeOk, Bytes, Nodes;
    }

    /** What is live between two steps is what is held, with its full size, each by one holder: every
        running slot its raw reservation, or one of the size of what was returned; every load its first
        one; every record all its entries' as long as it is cached, used or under production; every
        query and description its own. */
    lemma WhatIsLiveIsHeld()
      requires Valid()
      ensures forall t :: t in live <==> exists o :: HeldBy(o, t)
      ensures forall o, p, t | HeldBy(o, t) && HeldBy(p, t) :: o == p
      ensures forall r: nat | r < |records| && records[r].stage.Running? ::
                var a := records[r].stage.admission;
                && a < |admissions| && admissions[a].ticket.Some? && admissions[a].ticket.value in live
                && admissions[a].ticket.value.bytes == RAW_BYTES && admissions[a].ticket.value.nodes == RAW_NODES
      ensures forall a | 0 <= a < |admissions| && !admissions[a].finished && !admissions[a].transferred && admissions[a].ticket.Some? ::
                var t := admissions[a].ticket.value;
                && t in live
                && (admissions[a].resized.None? ==> t.bytes == RAW_BYTES && t.nodes == RAW_NODES)
                && (admissions[a].resized.Some? ==> t.bytes == admissions[a].resized.value.bytes && t.nodes == admissions[a].resized.value.nodes)
      ensures forall r: nat | r < |records| && Pending(records[r]) ::
                && records[r].initial in live
                && (records[r].discovery ==> records[r].initial.bytes == 1024 && records[r].initial.nodes == 16)
      ensures forall r: nat, t | r < |records| && (records[r].users > 0 || r in discovery || r in descriptions) && t in records[r].held :: t in live
      ensures forall c | 0 <= c < |consumers| && !consumers[c].ended :: consumers[c].ticket in live
    {
      hide *;
      ValidMeans();
      InnerMeans({}, -1);
      ghost var w := World(owner, records, admissions, consumers, discovery, descriptions);
      LiveIsHeld(live, w);
      forall o, t
        ensures HeldBy(o, t) <==> Holds(w, o, t)
      {
        HeldByMeans(o, t);
      }
      RunningAreRaw(queue, rawActive, w, live);
      SlotsAreLive(queue, rawActive, w, live);
      ProducersAreLive(queue, rawActive, w, live);
      RecordsAreLive(queue, rawActive, w, live);
      ConsumersAreLive(w, live);
    }

    /** No two raw producers too many, and no queue that waits for nobody. */
    lemma QueueIsServed()
      requires Valid() && queue != []
      ensures !closed && 0 < rawActive == Active(admissions) <= 2
    {
      hide HoldersOk, LedgerOk, FormOk, QueueOk, RunningOk, CachedOk, UsersOk, Active;
    }

    /** Nothing is in flight: no producer, no slot in use, no query or description under way. */
    ghost predicate Quiet()
      reads this
    {
      && (forall r: nat | r < |records| :: !Pending(records[r]))
      && (forall a | 0 <= a < |admissions| :: admissions[a].finished)
      && (forall c | 0 <= c < |consumers| :: consumers[c].ended)
    }

    /** When nothing is in flight, whatever succeeded, failed or was cancelled on the way: only cached
        indexes hold anything, no description is kept, and with no index cached usage is zero. */
    lemma NothingLeaks()
      requires Valid() && Quiet()
      ensures forall t | t in live :: exists r :: r in discovery && r < |records| && t in records[r].held
      ensures descriptions == [] && queue == []
      ensures discovery == [] ==> live == [] && bytes == 0 && nodes == 0
    {
      hide *;
      ValidMeans();
      InnerMeans({}, -1);
      ghost var w := World(owner, records, admissions, consumers, discovery, descriptions);
      QuietMeans();
      NobodyUses(queue, rawActive, w);
      forall t | t in live
        ensures exists r :: r in discovery && r < |records| && t in records[r].held
      {
        LiveIsOwned(live, w, t);
        OwnedAtRest(w, t);
        var r :| r in w.discovery && r < |w.records| && t in w.records[r].held;
      }
      if discovery == [] {
        EmptyIfNone(live);
        SumsOfNothing(live, nextTicket, bytes, nodes);
      }
    }

    lemma QuietMeans()
      requires Quiet()
      ensures AtRest(World(owner, records, admissions, consumers, discovery, descriptions))
    {
    }

    lemma HeldByMeans(o: Owner, t: Ticket)
      ensures HeldBy(o, t) <==> Holds(World(owner, records, admissions, consumers, discovery, descriptions), o, t)
    {
      hide Keeps;
    }

    ghost predicate HeldBy(o: Owner, t: Ticket)
      reads this
    {
      Holds(World(owner, records, admissions, consumers, discovery, descriptions), o, t)
    }

    lemma DiscoveryInRange(loose: set<nat>, leaving: int)
      requires Inner(loose, leaving)
      ensures forall k | 0 <= k < |discovery| :: discovery[k] < |records|
      ensures forall k | 0 <= k < |descriptions| :: descriptions[k] < |records|
    {
      hide LedgerOk, HoldersOk, FormOk, QueueOk, RunningOk, UsersOk, Active;
    }

    /** The keys of the other cached records differ from that of the i-th. */
    lemma KeyOnce(loose: set<nat>, leaving: int, i: nat)
      requires Inner(loose, leaving) && i < |discovery|
      ensures discovery[i] < |records|
      ensures forall r | r in Cut(discovery, i) :: r < |records| && records[r].key != records[discovery[i]].key
    {
      hide *;
      InnerMeans(loose, leaving);
      KeysDistinct(queue, rawActive, leaving, World(owner, records, admissions, consumers, discovery, descriptions), i);
    }

    lemma DiscoveryRange(loose: set<nat>, leaving: int, i: nat)
      requires Inner(loose, leaving) && i < |discovery|
      ensures discovery[i] < |records| && records[discovery[i]].discovery && discovery[i] !in descriptions && discovery[i] in discovery
    {
      hide LedgerOk, HoldersOk, FormOk, QueueOk, RunningOk, UsersOk, Active, CachedOk;
      DiscoveryMember(records, discovery, descriptions, leaving, i);
    }

    lemma IndexesNoDescription(loose: set<nat>, leaving: int, i: nat)
      requires Inner(loose, leaving) && i < |descriptions|
      ensures descriptions[i] < |records| && !records[descriptions[i]].discovery && descriptions[i] in descriptions
    {
      hide LedgerOk, HoldersOk, FormOk, QueueOk, RunningOk, UsersOk, Active;
    }

    lemma IndexesNot(loose: set<nat>, leaving: int, r: nat)
      requires Inner(loose, leaving) && r < |records| && !records[r].discovery
      ensures r !in discovery
    {
      hide LedgerOk, HoldersOk, FormOk, QueueOk, RunningOk, UsersOk, Active;
    }

    lemma DescribesNot(loose: set<nat>, leaving: int, r: nat)
      requires Inner(loose, leaving) && r < |records| && records[r].discovery
      ensures r !in descriptions
    {
      hide LedgerOk, HoldersOk, FormOk, QueueOk, RunningOk, UsersOk, Active;
    }

    lemma InnerLedger(loose: set<nat>, leaving: int)
      requires Inner(loose, leaving)
      ensures LedgerOk(live, nextTicket, bytes, nodes)
    {
      hide *;
      InnerMeans(loose, leaving);
    }

    lemma InnerLimits(loose: set<nat>, leaving: int)
      requires Inner(loose, leaving)
      ensures Fits(bytes, nodes) && bytes >= 0 && nodes >= 0 && bytes <= INDEX_BYTES && nodes <= INDEX_NODES
    {
      hide HoldersOk, ShapeOk, Ordered, Bytes, Nodes;
    }
  }

  lemma PlusNone(loose: set<nat>)
    ensures loose + {} == loose
  {
  }

  lemma CutPrefix(s: seq<nat>, i: nat)
    requires i < |s|
    ensures |Cut(s, i)| == |s| - 1 && forall k | 0 <= k < i :: Cut(s, i)[k] == s[k]
  {
  }

  lemma QueueRange(queue: seq<nat>, rawActive: int, leaving: int, w: World, i: nat)
    requires ShapeOk(queue, rawActive, leaving, w) && i < |queue|
    ensures queue[i] < |w.records| && w.records[queue[i]].stage.Queued?
  {
    hide RunningOk, CachedOk, UsersOk, Active, FormOk;
  }

  /** A waiting record holds nothing that its next stage could lose. */
  lemma WaitingMayMove(w: World, r: nat, stage: Stage)
    requires r < |w.records| && w.records[r].stage.Queued? && w.records[r].held == [] && !stage.Ended?
    ensures Pending(w.records[r]) && Pending(w.records[r].(stage := stage))
    ensures GivenUp(w, r, w.records[r].(stage := stage)) == {}
  {
  }

  lemma WaitingHoldsNone(queue: seq<nat>, rawActive: int, leaving: int, w: World, r: nat)
    requires ShapeOk(queue, rawActive, leaving, w) && r < |w.records| && w.records[r].stage.Queued?
    ensures w.records[r].held == []
  {
    hide QueueOk, RunningOk, CachedOk, UsersOk, Active;
    assert RecordForm(w.records[r]);
  }

  lemma RunningHoldsNone(queue: seq<nat>, rawActive: int, leaving: int, w: World, r: nat)
    requires ShapeOk(queue, rawActive, leaving, w) && r < |w.records|
    ensures w.records[r].stage.Running? ==> w.records[r].held == []
  {
    hide QueueOk, RunningOk, CachedOk, UsersOk, Active;
    assert RecordForm(w.records[r]);
  }

  lemma RunningSlot(queue: seq<nat>, rawActive: int, leaving: int, w: World, r: nat)
    requires ShapeOk(queue, rawActive, leaving, w) && r < |w.records| && w.records[r].stage.Running?
    ensures var a := w.records[r].stage.admission;
            && a < |w.admissions| && w.admissions[a].record == r && !w.admissions[a].finished && !w.admissions[a].transferred
            && w.admissions[a].resized.None?
  {
    hide QueueOk, FormOk, CachedOk, UsersOk, Active;
  }

  lemma RawForm(queue: seq<nat>, rawActive: int, leaving: int, w: World, a: nat)
    requires ShapeOk(queue, rawActive, leaving, w) && a < |w.admissions| && w.admissions[a].resized.None?
    ensures w.admissions[a].ticket.Some? && w.admissions[a].ticket.value.bytes == RAW_BYTES && w.admissions[a].ticket.value.nodes == RAW_NODES
  {
    hide QueueOk, RunningOk, CachedOk, UsersOk, Active;
    assert AdmissionForm(w.admissions[a]);
  }

  lemma SameForm(queue: seq<nat>, rawActive: int, leaving: int, w: World, a: nat, admission: Admission)
    requires ShapeOk(queue, rawActive, leaving, w) && a < |w.admissions|
    requires admission.ticket == w.admissions[a].ticket && admission.resized == w.admissions[a].resized
    ensures AdmissionForm(admission)
  {
    hide QueueOk, RunningOk, CachedOk, UsersOk, Active;
    assert AdmissionForm(w.admissions[a]);
  }

  lemma EmptiedForm(admission: Admission)
    requires admission.ticket.None? && admission.resized.Some?
    requires admission.resized.value.bytes <= RAW_BYTES && admission.resized.value.nodes <= RAW_NODES
    ensures AdmissionForm(admission)
  {
  }

  lemma FilledForm(admission: Admission, ticket: Ticket)
    requires admission.ticket == Some(ticket) && admission.resized == Some(Size(ticket.bytes, ticket.nodes))
    requires ticket.bytes <= RAW_BYTES && ticket.nodes <= RAW_NODES
    ensures AdmissionForm(admission)
  {
  }

  lemma NewForm(rec: Record)
    requires rec.held == [] && (rec.discovery ==> rec.initial.bytes == 1024 && rec.initial.nodes == 16)
    ensures RecordForm(rec)
  {
  }

  lemma RawSize(t: Ticket)
    requires t.bytes == RAW_BYTES && t.nodes == RAW_NODES
    ensures HasSize(t, Size(RAW_BYTES, RAW_NODES))
  {
  }

  lemma SlotIsLive(live: seq<Ticket>, loose: set<nat>, w: World, a: nat)
    requires HoldersOk(live, loose, w) && a < |w.admissions| && !w.admissions[a].finished
    ensures !w.admissions[a].transferred && w.admissions[a].ticket.Some? ==> w.admissions[a].ticket.value in live
  {
    if !w.admissions[a].transferred && w.admissions[a].ticket.Some? {
      assert Holds(w, OfAdmission(a), w.admissions[a].ticket.value);
    }
  }

  lemma ConsumerIsLive(live: seq<Ticket>, loose: set<nat>, w: World, c: nat)
    requires HoldersOk(live, loose, w) && c < |w.consumers| && !w.consumers[c].ended
    ensures w.consumers[c].ticket in live
  {
    assert Holds(w, OfConsumer(c), w.consumers[c].ticket);
  }

  lemma ProducerIsLive(live: seq<Ticket>, loose: set<nat>, w: World, r: nat)
    requires HoldersOk(live, loose, w) && r < |w.records| && Pending(w.records[r])
    ensures w.records[r].initial in live
  {
    assert Holds(w, OfProducer(r), w.records[r].initial);
  }

  lemma LetByMeans(before: Admission, after: Admission)
    ensures LetBy(before, after) == if before.finished || before.transferred || before.ticket.None? then {} else {before.ticket.value.id}
  {
  }

  lemma RoomForLess(bytes: int, nodes: int, b: nat, n: nat)
    requires Fits(bytes, nodes) && b <= RAW_BYTES && n <= RAW_NODES
    ensures Fits(bytes - RAW_BYTES + b, nodes - RAW_NODES + n)
  {
  }

  lemma SameSettled(w: World, v: World, a: nat)
    requires a < |w.admissions| && Settled(w, a) && a < |v.admissions| && v.records == w.records && v.admissions[a].record == w.admissions[a].record
    ensures Settled(v, a)
  {
  }

  lemma FailedIsSettled(w: World, a: nat)
    requires a < |w.admissions| && w.admissions[a].record < |w.records| && !w.records[w.admissions[a].record].stage.Running?
    ensures Settled(w, a)
  {
  }

  lemma MadeMeans(w: World, r: nat, rec: Record)
    requires r < |w.records| && w.records[r].stage.Failing? && (rec.stage.Built? || rec.stage.Done?)
    ensures Pending(w.records[r]) && Pending(rec) && !Idle(rec) && Keeps(w.(records := w.records[r := rec]), r)
  {
  }

  lemma BuiltKeeps(w: World, r: nat)
    requires r < |w.records| && w.records[r].stage.Built?
    ensures Keeps(w, r) && !Idle(w.records[r].(held := []))
  {
  }

  /** Only a record that is through, unused and not cached has no use for what it holds. */
  lemma DropsAtEnd(queue: seq<nat>, rawActive: int, leaving: int, w: World, r: nat)
    requires ShapeOk(queue, rawActive, leaving, w) && r < |w.records|
    ensures if Idle(w.records[r]) && r !in w.discovery && r !in w.descriptions then !Keeps(w, r) else Keeps(w, r) || w.records[r].held == []
    ensures w.records[r].held == [] ==> Ids(w.records[r].held) == {}
  {
    hide QueueOk, RunningOk, CachedOk, UsersOk, Active;
    assert RecordForm(w.records[r]);
  }

  lemma DiscoveryIsNoDescription(queue: seq<nat>, rawActive: int, leaving: int, w: World, i: nat)
    requires ShapeOk(queue, rawActive, leaving, w) && i < |w.discovery|
    ensures w.discovery[i] !in w.descriptions && w.discovery[i] in w.discovery
  {
    hide QueueOk, RunningOk, UsersOk, Active, FormOk, CachedOk;
    DiscoveryMember(w.records, w.discovery, w.descriptions, leaving, i);
  }

  lemma DescriptionOnce(queue: seq<nat>, rawActive: int, leaving: int, w: World, i: nat)
    requires ShapeOk(queue, rawActive, leaving, w) && i < |w.descriptions|
    ensures w.descriptions[i] < |w.records| && w.descriptions[i] !in Cut(w.descriptions, i)
  {
    hide QueueOk, RunningOk, UsersOk, Active, FormOk;
    var rest := Cut(w.descriptions, i);
    forall k | 0 <= k < |rest|
      ensures rest[k] != w.descriptions[i]
    {
      assert rest[k] == w.descriptions[if k < i then k else k + 1];
    }
  }

  lemma CachedHolds(live: seq<Ticket>, loose: set<nat>, w: World, r: nat)
    requires HoldersOk(live, loose, w) && r < |w.records| && r in w.discovery && Idle(w.records[r])
    ensures forall t | t in w.records[r].held :: t in live && t.id !in loose
  {
    forall t | t in w.records[r].held
      ensures t in live && t.id !in loose
    {
      assert Holds(w, OfRecord(r), t);
    }
  }

  lemma KeptApart(live: seq<Ticket>, loose: set<nat>, held: seq<Ticket>)
    requires forall t | t in held :: t in live && t.id !in loose
    ensures Untouched(live, Less(live, Ids(held)), loose)
  {
    LessMembers(live, Ids(held));
  }

  lemma LessIsOld(live: seq<Ticket>, gone: set<nat>, next: nat)
    ensures OnlyNewer(live, Less(live, gone), next)
  {
    LessMembers(live, gone);
  }

  lemma NotInLess(live: seq<Ticket>, t: Ticket)
    ensures t !in Less(live, {t.id})
  {
    LessMembers(live, {t.id});
  }

  lemma SameLive(live: seq<Ticket>, loose: set<nat>, next: nat)
    ensures OnlyNewer(live, live, next) && Untouched(live, live, loose)
  {
  }

  lemma NewerTwice(a: seq<Ticket>, b: seq<Ticket>, c: seq<Ticket>, next: nat, later: nat)
    requires OnlyNewer(a, b, next) && OnlyNewer(b, c, later) && next <= later
    ensures OnlyNewer(a, c, next)
  {
  }

  lemma LiveTwice(a: seq<Ticket>, b: seq<Ticket>, c: seq<Ticket>, loose: set<nat>, next: nat, later: nat)
    requires OnlyNewer(a, b, next) && OnlyNewer(b, c, later) && next <= later
    requires Untouched(a, b, loose) && Untouched(b, c, loose)
    ensures OnlyNewer(a, c, next) && Untouched(a, c, loose)
  {
  }

  lemma LiveMore(before: seq<Ticket>, live: seq<Ticket>, loose: set<nat>, next: nat, t: Ticket)
    requires OnlyNewer(before, live, next) && Untouched(before, live, loose) && t.id == next
    ensures OnlyNewer(before, live + [t], next) && Untouched(before, live + [t], loose)
  {
  }

  lemma UntouchedByOne(live: seq<Ticket>, t: Ticket, loose: set<nat>)
    ensures t.id !in loose ==> Untouched(live, Less(live, {t.id}), loose)
  {
    LessMembers(live, {t.id});
  }

  /** What has gone does not come back. */
  lemma NeverBack(before: seq<Ticket>, live: seq<Ticket>, next: nat, t: Ticket)
    requires OnlyNewer(before, live, next) && t !in before && t.id < next
    ensures t !in live
  {
  }

  lemma OneLive(t: Ticket, live: seq<Ticket>)
    requires t in live
    ensures AllLive([t], live)
  {
  }

  lemma AllLiveMeans(ts: seq<Ticket>, live: seq<Ticket>)
    ensures AllLive(ts, live) <==> forall t | t in ts :: t in live
  {
  }

  /** The entries' reservations outlast what a step does beside them. */
  lemma StaysLive(held: seq<Ticket>, before: seq<Ticket>, live: seq<Ticket>, loose: set<nat>)
    requires AllLive(held, before) && Untouched(before, live, loose) && Ids(held) <= loose
    ensures AllLive(held, live)
  {
  }

  lemma StillLive(t: Ticket, before: seq<Ticket>, live: seq<Ticket>, loose: set<nat>)
    requires t in before && t.id in loose && Untouched(before, live, loose)
    ensures t in live
  {
  }

  lemma OneMoreLive(held: seq<Ticket>, t: Ticket, live: seq<Ticket>)
    requires AllLive(held, live) && t in live
    ensures AllLive(held + [t], live)
  {
  }

  lemma HeldIsOlder(held: seq<Ticket>, live: seq<Ticket>, next: nat, bytes: int, nodes: int)
    requires AllLive(held, live) && LedgerOk(live, next, bytes, nodes)
    ensures forall id | id in Ids(held) :: id < next
  {
  }

  lemma LastGoes(before: seq<Ticket>, gone: set<nat>, kept: seq<Ticket>, t: Ticket)
    requires kept == Less(before, gone) && forall s | s in before :: s.id != t.id
    ensures Less(kept + [t], {t.id}) == kept
  {
    LessMembers(before, gone);
    LessOfConcat(kept, [t], {t.id});
    LessNothing(kept, {t.id});
    assert Less([t], {t.id}) == [];
    assert kept + [] == kept;
  }

  lemma {:induction false} LessOfConcat(a: seq<Ticket>, b: seq<Ticket>, gone: set<nat>)
    ensures Less(a + b, gone) == Less(a, gone) + Less(b, gone)
  {
    if a == [] {
      assert a + b == b;
    } else {
      assert (a + b)[1..] == a[1..] + b;
      LessOfConcat(a[1..], b, gone);
    }
  }

  lemma LessNone(live: seq<Ticket>)
    ensures Less(live, {}) == live
  {
    LessNothing(live, {});
  }

  lemma IdsOfNone()
    ensures Ids([]) == {}
  {
  }

  lemma IdsOfMore(held: seq<Ticket>, t: Ticket)
    ensures Ids(held + [t]) == Ids(held) + {t.id}
  {
  }

  lemma LedgerOrdered(live: seq<Ticket>, next: nat, bytes: int, nodes: int)
    requires LedgerOk(live, next, bytes, nodes)
    ensures Ordered(live)
  {
  }

  lemma LessNumbers(live: seq<Ticket>, next: nat, bytes: int, nodes: int)
    requires LedgerOk(live, next, bytes, nodes)
    ensures forall t | t in live :: t.id < next
  {
  }

  lemma OnlyThere(live: seq<Ticket>, next: nat, bytes: int, nodes: int, i: nat)
    requires LedgerOk(live, next, bytes, nodes) && i < |live|
    ensures forall t | t in live && t.id == live[i].id :: t == live[i]
  {
  }

  /** The counters fall by what those that gave way held. */
  lemma ReservedSums(before: seq<Ticket>, nextBefore: nat, bytesBefore: int, nodesBefore: int, gone: set<nat>,
                     live: seq<Ticket>, next: nat, bytes: int, nodes: int)
    requires LedgerOk(before, nextBefore, bytesBefore, nodesBefore) && LedgerOk(live, next, bytes, nodes) && live == Less(before, gone)
    ensures bytes == bytesBefore - Bytes(Only(before, gone)) && nodes == nodesBefore - Nodes(Only(before, gone))
    ensures live == before ==> bytes == bytesBefore && nodes == nodesBefore
  {
    LessSums(before, gone);
  }

  lemma CutNothing(s: seq<nat>, i: nat)
    requires i < |s|
    ensures |Cut(s, i)| == |s| - 1
  {
  }

  lemma TrimmedOn(first: seq<nat>, before: seq<nat>, after: seq<nat>, records: seq<Record>, now: seq<Record>)
    requires Trimmed(first, before, records) && Trimmed(before, after, now) && Pumped(records, now)
    ensures Trimmed(first, after, records)
  {
    forall r: nat | r < |records| && r in first && !Idle(records[r])
      ensures r in after
    {
      assert Moved(records[r], now[r]);
    }
  }

  lemma ActiveIsNat(queue: seq<nat>, rawActive: int, leaving: int, w: World)
    requires ShapeOk(queue, rawActive, leaving, w)
    ensures 0 <= rawActive <= 2
  {
    hide QueueOk, RunningOk, CachedOk, UsersOk, FormOk;
  }

  lemma AdvanceMeans(queue: seq<nat>, rawActive: int, leaving: int, w: World, r: nat, rec: Record)
    requires ShapeOk(queue, rawActive, leaving, w) && r < |w.records| && (rec.stage.Done? || rec.stage.Failing?)
    requires !w.records[r].stage.Queued? && Pending(w.records[r]) && rec.held == w.records[r].held
    ensures Pending(rec) && !Idle(rec) && !rec.stage.Queued? && !rec.stage.Running?
    ensures Keeps(w, r) || rec.held == []
    ensures GivenUp(w, r, rec) == {}
  {
    hide QueueOk, RunningOk, CachedOk, UsersOk, Active;
    assert RecordForm(w.records[r]);
  }

  lemma RunningIsPending(rec: Record)
    requires rec.stage.Running?
    ensures Pending(rec)
  {
  }

  lemma TrimmedTwice(first: seq<nat>, before: seq<nat>, after: seq<nat>, records: seq<Record>)
    requires Trimmed(first, before, records) && Trimmed(before, after, records)
    ensures Trimmed(first, after, records)
  {
  }

  lemma BuiltIsPending(rec: Record)
    requires rec.stage.Built?
    ensures Pending(rec) && !rec.stage.Queued?
  {
  }

  lemma RetryMeans(w: World, r: nat, rec: Record)
    requires r < |w.records| && w.records[r].stage.Built? && w.records[r].held == []
    requires rec == w.records[r].(stage := Queued, before := rec.before, attempt := rec.attempt)
    ensures Pending(rec) && Pending(w.records[r]) && rec.initial == w.records[r].initial && rec.held == [] && rec.stage.Queued?
    ensures GivenUp(w, r, rec) == {}
  {
  }

  lemma PumpedAt(before: seq<Record>, after: seq<Record>, r: nat)
    requires Pumped(before, after) && r < |before|
    ensures |after| == |before| && Moved(before[r], after[r])
  {
    hide Moved;
  }

  lemma InQueue(queue: seq<nat>, rawActive: int, leaving: int, w: World, r: nat)
    requires ShapeOk(queue, rawActive, leaving, w) && r < |w.records|
    ensures w.records[r].stage.Queued? <==> r in queue
  {
    hide RunningOk, CachedOk, UsersOk, Active, FormOk;
  }

  lemma StageOfEnded(rec: Record)
    requires rec.stage.Ended?
    ensures !rec.stage.Queued? && !Pending(rec)
  {
  }

  lemma CutOnce(queue: seq<nat>, rawActive: int, leaving: int, w: World, i: nat)
    requires ShapeOk(queue, rawActive, leaving, w) && i < |w.discovery|
    ensures w.discovery[i] !in Cut(w.discovery, i)
    ensures forall q | q in Cut(w.discovery, i) :: q in w.discovery
    ensures forall q | q in w.discovery && q != w.discovery[i] :: q in Cut(w.discovery, i)
  {
    hide QueueOk, RunningOk, UsersOk, Active, Cut, FormOk;
    CutDistinct(w.records, w.discovery, w.descriptions, leaving, i);
    forall q
      ensures q in Cut(w.discovery, i) ==> q in w.discovery
      ensures q in w.discovery && q != w.discovery[i] ==> q in Cut(w.discovery, i)
    {
      CutMembers(w.discovery, i, q);
    }
  }

  lemma CutDistinct(records: seq<Record>, discovery: seq<nat>, descriptions: seq<nat>, leaving: int, i: nat)
    requires CachedOk(records, discovery, descriptions, leaving) && i < |discovery|
    ensures discovery[i] !in Cut(discovery, i)
  {
    var rest := Cut(discovery, i);
    forall k | 0 <= k < |rest|
      ensures rest[k] != discovery[i]
    {
      assert rest[k] == discovery[if k < i then k else k + 1];
    }
  }

  lemma EndedSteps(rec: Record, ok: bool)
    requires rec.stage.Done? || rec.stage.Failing?
    ensures Pending(rec) && !rec.stage.Queued?
    ensures Idle(rec.(stage := Ended(ok))) <==> rec.users == 0
  {
  }

  lemma IdleMeans(rec: Record)
    ensures Idle(rec) <==> rec.stage.Ended? && rec.users == 0
  {
  }

  lemma TrimmedStays(before: seq<nat>, after: seq<nat>, records: seq<Record>, r: nat)
    requires Trimmed(before, after, records)
    ensures r !in before ==> r !in after
  {
  }

  lemma EndMeans(w: World, r: nat, rec: Record)
    requires r < |w.records| && rec == w.records[r].(stage := rec.stage) && rec.stage.Ended?
    requires w.records[r].stage.Done? || w.records[r].stage.Failing?
    ensures Pending(w.records[r]) && !Pending(rec) && Keeps(w, r)
    ensures GivenUp(w, r, rec) == (if Keeps(w.(records := w.records[r := rec]), r) then {} else Ids(rec.held)) + {rec.initial.id}
  {
  }

  lemma AnyLeaving(queue: seq<nat>, rawActive: int, leaving: int, w: World)
    requires ShapeOk(queue, rawActive, -1, w)
    ensures ShapeOk(queue, rawActive, leaving, w)
  {
    hide QueueOk, RunningOk, UsersOk, Active, FormOk;
  }

  lemma NotDescription(queue: seq<nat>, rawActive: int, leaving: int, w: World, r: nat)
    requires ShapeOk(queue, rawActive, leaving, w) && r < |w.records|
    ensures w.records[r].discovery ==> r !in w.descriptions
  {
    hide QueueOk, RunningOk, UsersOk, Active, FormOk;
  }

  lemma TrimmedWithout(before: seq<nat>, after: seq<nat>, records: seq<Record>, r: nat)
    requires r < |records| && records[r].stage.Ended? && records[r].users == 0
    requires (forall q | q in after :: q in before) && (forall q | q in before && q != r :: q in after)
    ensures Trimmed(before, after, records)
  {
  }

  lemma UsedMeans(w: World, r: nat, rec: Record)
    requires r < |w.records| && rec == w.records[r].(users := w.records[r].users + 1) && (r in w.discovery || r in w.descriptions)
    ensures Keeps(w.(records := w.records[r := rec]), r) <==> Keeps(w, r)
    ensures Pending(w.records[r]) <==> Pending(rec)
    ensures GivenUp(w, r, rec) == {}
  {
  }

  lemma QueuedMeans(rec: Record)
    requires rec.stage.Queued?
    ensures Pending(rec)
  {
  }

  lemma LeftMeans(queue: seq<nat>, rawActive: int, leaving: int, w: World, r: nat, rec: Record)
    requires ShapeOk(queue, rawActive, leaving, w)
    requires r < |w.records| && w.records[r].users > 0 && rec == w.records[r].(users := w.records[r].users - 1)
    ensures Pending(w.records[r]) <==> Pending(rec)
    ensures Keeps(w.(records := w.records[r := rec]), r) ==> Keeps(w, r)
    ensures GivenUp(w, r, rec) == if Keeps(w.(records := w.records[r := rec]), r) then {} else Ids(rec.held)
  {
    hide QueueOk, RunningOk, CachedOk, UsersOk, Active;
    assert RecordForm(w.records[r]);
    assert Ids([]) == {};
  }

  lemma SameKeeps(w: World, v: World, r: nat, rec: Record)
    requires r < |w.records| && v.records == w.records[r := rec] && v.discovery == w.discovery && v.descriptions == w.descriptions
    ensures Keeps(v, r) <==> Keeps(w.(records := w.records[r := rec]), r)
  {
  }

  /** A record under production enters a cache. */
  lemma CacheGrows(live: seq<Ticket>, w: World, r: nat, discovery: seq<nat>, descriptions: seq<nat>)
    requires HoldersOk(live, {}, w) && r < |w.records| && Pending(w.records[r])
    requires (discovery == w.discovery && descriptions == w.descriptions + [r]) || (discovery == w.discovery + [r] && descriptions == w.descriptions)
    ensures HoldersOk(live, {}, w.(discovery := discovery, descriptions := descriptions))
  {
    hide HoldersOk;
    var v := w.(discovery := discovery, descriptions := descriptions);
    assert forall q | q != r :: (q in discovery <==> q in w.discovery) && (q in descriptions <==> q in w.descriptions);
    assert forall q: nat | q < |w.records| :: Keeps(v, q) <==> Keeps(w, q);
    CachesChanged(live, {}, w, discovery, descriptions);
    NothingLost(w, discovery, descriptions);
    assert {} + Lost(w, discovery, descriptions) == {};
  }

  lemma NothingLost(w: World, discovery: seq<nat>, descriptions: seq<nat>)
    requires var v := w.(discovery := discovery, descriptions := descriptions); forall q: nat | q < |w.records| :: Keeps(v, q) <==> Keeps(w, q)
    ensures Lost(w, discovery, descriptions) == {}
  {
    hide Keeps;
  }

  lemma CacheTurns(live: seq<Ticket>, w: World, i: nat)
    requires HoldersOk(live, {}, w) && i < |w.discovery|
    ensures HoldersOk(live, {}, w.(discovery := Cut(w.discovery, i) + [w.discovery[i]]))
  {
    hide HoldersOk, Cut;
    var discovery := Cut(w.discovery, i) + [w.discovery[i]];
    forall r
      ensures r in discovery <==> r in w.discovery
    {
      CutMembers(w.discovery, i, r);
    }
    var v := w.(discovery := discovery, descriptions := w.descriptions);
    assert forall q: nat | q < |w.records| :: Keeps(v, q) <==> Keeps(w, q);
    CachesChanged(live, {}, w, discovery, w.descriptions);
    NothingLost(w, discovery, w.descriptions);
    assert {} + Lost(w, discovery, w.descriptions) == {};
  }

  lemma KeyStaysGone(before: seq<nat>, after: seq<nat>, records: seq<Record>, key: nat)
    requires Trimmed(before, after, records) && forall r | r in before :: r < |records| && records[r].key != key
    ensures forall r | r in after :: r < |records| && records[r].key != key
  {
  }

  lemma MovedMeans(before: Record, after: Record)
    requires Moved(before, after)
    ensures after == before.(stage := after.stage)
  {
  }

  lemma CachedStays(before: seq<nat>, after: seq<nat>, records: seq<Record>, r: nat)
    requires Trimmed(before, after, records) && r in before && r < |records| && records[r].users > 0
    ensures r in after
  {
  }

  lemma KeysDistinct(queue: seq<nat>, rawActive: int, leaving: int, w: World, i: nat)
    requires ShapeOk(queue, rawActive, leaving, w) && i < |w.discovery|
    ensures w.discovery[i] < |w.records|
    ensures forall r | r in Cut(w.discovery, i) :: r < |w.records| && w.records[r].key != w.records[w.discovery[i]].key
  {
    hide QueueOk, RunningOk, UsersOk, Active, FormOk;
    var rest := Cut(w.discovery, i);
    forall k | 0 <= k < |rest|
      ensures rest[k] == w.discovery[if k < i then k else k + 1]
    {
    }
  }

  lemma PendingIsBusy(rec: Record)
    requires Pending(rec)
    ensures !Idle(rec)
  {
  }

  /** With all indexes gone from the cache, the idle ones have no use for what they hold. */
  lemma CacheCleared(live: seq<Ticket>, w: World)
    requires HoldersOk(live, {}, w)
    ensures HoldersOk(live, Lost(w, [], w.descriptions), w.(discovery := []))
  {
    hide HoldersOk;
    CachesChanged(live, {}, w, [], w.descriptions);
    assert {} + Lost(w, [], w.descriptions) == Lost(w, [], w.descriptions);
  }

  lemma LostAreIdle(queue: seq<nat>, rawActive: int, leaving: int, w: World)
    requires ShapeOk(queue, rawActive, leaving, w)
    ensures forall k | 0 <= k < |w.discovery| && w.discovery[k] < |w.records| && Idle(w.records[w.discovery[k]]) ::
              Ids(w.records[w.discovery[k]].held) <= Lost(w, [], w.descriptions)
  {
    hide QueueOk, RunningOk, UsersOk, Active, FormOk;
    forall k | 0 <= k < |w.discovery| && w.discovery[k] < |w.records| && Idle(w.records[w.discovery[k]])
      ensures Ids(w.records[w.discovery[k]].held) <= Lost(w, [], w.descriptions)
    {
      var r := w.discovery[k];
      assert r in w.discovery && r !in w.descriptions;
      assert Loses(w, [], w.descriptions, r);
    }
  }

  lemma AllGiven(w: World, given: set<nat>)
    requires forall k | 0 <= k < |w.discovery| :: w.discovery[k] < |w.records|
    requires forall k | 0 <= k < |w.discovery| && Idle(w.records[w.discovery[k]]) :: Ids(w.records[w.discovery[k]].held) <= given
    ensures Lost(w, [], w.descriptions) <= given
  {
    forall id | id in Lost(w, [], w.descriptions)
      ensures id in given
    {
      var r: nat, t :| r < |w.records| && t in w.records[r].held && Loses(w, [], w.descriptions, r) && t.id == id;
      var k :| 0 <= k < |w.discovery| && w.discovery[k] == r;
      assert id in Ids(w.records[r].held);
    }
  }

  ghost predicate AtRest(w: World) {
    && (forall r: nat | r < |w.records| :: !Pending(w.records[r]))
    && (forall a | 0 <= a < |w.admissions| :: w.admissions[a].finished)
    && (forall c | 0 <= c < |w.consumers| :: w.consumers[c].ended)
  }

  lemma NobodyUses(queue: seq<nat>, rawActive: int, w: World)
    requires ShapeOk(queue, rawActive, -1, w) && AtRest(w)
    ensures queue == [] && w.descriptions == [] && forall r: nat | r < |w.records| :: w.records[r].users == 0
  {
    hide RunningOk, Active, Uses, FormOk;
    forall r: nat | r < |w.records|
      ensures w.records[r].users == 0
    {
      Unused(w.consumers, r);
    }
    FirstWaits(queue, w.records);
    FirstDescribed(w.records, w.discovery, w.descriptions);
  }

  lemma FirstWaits(queue: seq<nat>, records: seq<Record>)
    requires QueueOk(queue, records)
    ensures queue != [] ==> queue[0] < |records| && Pending(records[queue[0]])
  {
  }

  lemma FirstDescribed(records: seq<Record>, discovery: seq<nat>, descriptions: seq<nat>)
    requires CachedOk(records, discovery, descriptions, -1)
    ensures descriptions != [] ==> descriptions[0] < |records| && !Idle(records[descriptions[0]])
  {
  }

  lemma LiveIsOwned(live: seq<Ticket>, w: World, t: Ticket)
    requires HoldersOk(live, {}, w) && t in live
    ensures t.id in w.owner && Holds(w, w.owner[t.id], t)
  {
    hide Holds, Ordered;
  }

  lemma LiveIsHeld(live: seq<Ticket>, w: World)
    requires HoldersOk(live, {}, w)
    ensures forall t :: t in live <==> exists o :: Holds(w, o, t)
    ensures forall o, p, t | Holds(w, o, t) && Holds(w, p, t) :: o == p
  {
    hide Holds, Ordered;
  }

  lemma RunningAreRaw(queue: seq<nat>, rawActive: int, w: World, live: seq<Ticket>)
    requires ShapeOk(queue, rawActive, -1, w) && HoldersOk(live, {}, w)
    ensures forall r: nat | r < |w.records| && w.records[r].stage.Running? ::
              var a := w.records[r].stage.admission;
              && a < |w.admissions| && w.admissions[a].ticket.Some? && w.admissions[a].ticket.value in live
              && w.admissions[a].ticket.value.bytes == RAW_BYTES && w.admissions[a].ticket.value.nodes == RAW_NODES
  {
    hide ShapeOk, HoldersOk;
    forall r: nat | r < |w.records| && w.records[r].stage.Running?
      ensures var a := w.records[r].stage.admission;
              && a < |w.admissions| && w.admissions[a].ticket.Some? && w.admissions[a].ticket.value in live
              && w.admissions[a].ticket.value.bytes == RAW_BYTES && w.admissions[a].ticket.value.nodes == RAW_NODES
    {
      RunningSlot(queue, rawActive, -1, w, r);
      RawForm(queue, rawActive, -1, w, w.records[r].stage.admission);
      SlotIsLive(live, {}, w, w.records[r].stage.admission);
    }
  }

  lemma SlotsAreLive(queue: seq<nat>, rawActive: int, w: World, live: seq<Ticket>)
    requires ShapeOk(queue, rawActive, -1, w) && HoldersOk(live, {}, w)
    ensures forall a | 0 <= a < |w.admissions| && !w.admissions[a].finished && !w.admissions[a].transferred && w.admissions[a].ticket.Some? ::
              var t := w.admissions[a].ticket.value;
              && t in live
              && (w.admissions[a].resized.None? ==> t.bytes == RAW_BYTES && t.nodes == RAW_NODES)
              && (w.admissions[a].resized.Some? ==> t.bytes == w.admissions[a].resized.value.bytes && t.nodes == w.admissions[a].resized.value.nodes)
  {
    hide HoldersOk, QueueOk, RunningOk, CachedOk, UsersOk, Active;
    forall a | 0 <= a < |w.admissions| && !w.admissions[a].finished && !w.admissions[a].transferred && w.admissions[a].ticket.Some?
      ensures w.admissions[a].ticket.value in live && AdmissionForm(w.admissions[a])
    {
      SlotIsLive(live, {}, w, a);
    }
  }

  lemma ProducersAreLive(queue: seq<nat>, rawActive: int, w: World, live: seq<Ticket>)
    requires ShapeOk(queue, rawActive, -1, w) && HoldersOk(live, {}, w)
    ensures forall r: nat | r < |w.records| && Pending(w.records[r]) ::
              && w.records[r].initial in live
              && (w.records[r].discovery ==> w.records[r].initial.bytes == 1024 && w.records[r].initial.nodes == 16)
  {
    hide QueueOk, RunningOk, CachedOk, UsersOk, Active, Keeps, Ordered;
    forall r: nat | r < |w.records| && Pending(w.records[r])
      ensures w.records[r].initial in live && RecordForm(w.records[r])
    {
      assert Holds(w, OfProducer(r), w.records[r].initial);
    }
  }

  lemma RecordsAreLive(queue: seq<nat>, rawActive: int, w: World, live: seq<Ticket>)
    requires ShapeOk(queue, rawActive, -1, w) && HoldersOk(live, {}, w)
    ensures forall r: nat, t | r < |w.records| && (w.records[r].users > 0 || r in w.discovery || r in w.descriptions) && t in w.records[r].held :: t in live
  {
    hide QueueOk, RunningOk, CachedOk, UsersOk, Active, Ordered;
    forall r: nat, t | r < |w.records| && (w.records[r].users > 0 || r in w.discovery || r in w.descriptions) && t in w.records[r].held
      ensures t in live
    {
      assert RecordForm(w.records[r]);
      assert Holds(w, OfRecord(r), t);
    }
  }

  lemma ConsumersAreLive(w: World, live: seq<Ticket>)
    requires HoldersOk(live, {}, w)
    ensures forall c | 0 <= c < |w.consumers| && !w.consumers[c].ended :: w.consumers[c].ticket in live
  {
    hide Keeps, Ordered;
    forall c | 0 <= c < |w.consumers| && !w.consumers[c].ended
      ensures w.consumers[c].ticket in live
    {
      assert Holds(w, OfConsumer(c), w.consumers[c].ticket);
    }
  }

  lemma OwnedAtRest(w: World, t: Ticket)
    requires t.id in w.owner && Holds(w, w.owner[t.id], t) && AtRest(w) && w.descriptions == []
    requires forall r: nat | r < |w.records| :: w.records[r].users == 0
    ensures exists r :: r in w.discovery && r < |w.records| && t in w.records[r].held
  {
  }

  lemma EmptyIfNone(live: seq<Ticket>)
    ensures (forall t | t in live :: false) ==> live == []
  {
    if live != [] {
      assert live[0] in live;
    }
  }

  lemma SumsOfNothing(live: seq<Ticket>, next: nat, bytes: int, nodes: int)
    requires LedgerOk(live, next, bytes, nodes)
    ensures live == [] ==> bytes == 0 && nodes == 0
  {
  }

  lemma FitsLess(bytes: int, nodes: int, more: int, moreNodes: int)
    requires bytes <= more && nodes <= moreNodes
    ensures Fits(more, moreNodes) ==> Fits(bytes, nodes)
  {
  }

  lemma AffordableMeans(bytes: int, nodes: int, listing: Listing)
    ensures Affordable(bytes, nodes, listing) <==>
              && listing.raw.bytes <= RAW_BYTES && listing.raw.nodes <= RAW_NODES && AllSucceed(listing.costs)
              && Fits(bytes - RAW_BYTES + listing.raw.bytes + 1024 + PeakBytes(listing.costs),
                      nodes - RAW_NODES + listing.raw.nodes + 16 + PeakNodes(listing.costs))
  {
  }

  lemma RetainableMeans(bytes: int, nodes: int, weight: Size)
    ensures Retainable(bytes, nodes, weight) <==>
              && weight.bytes + 4096 <= RAW_BYTES && weight.nodes + 16 <= RAW_NODES
              && Fits(bytes - RAW_BYTES + (weight.bytes + 4096) + (weight.bytes * 2 + 4096),
                      nodes - RAW_NODES + (weight.nodes + 16) + (weight.nodes * 2 + 32))
  {
  }

  lemma CostStep(costs: seq<Cost>, i: nat)
    requires i < |costs|
    ensures AllSucceed(costs[i..]) ==> costs[i].succeeds && AllSucceed(costs[i + 1..])
    ensures AllSucceed(costs[..i]) && costs[i].succeeds ==> AllSucceed(costs[..i + 1])
    ensures costs[i].scratch.bytes + costs[i].kept.bytes <= PeakBytes(costs[i..])
    ensures costs[i].scratch.nodes + costs[i].kept.nodes <= PeakNodes(costs[i..])
    ensures costs[i].kept.bytes + PeakBytes(costs[i + 1..]) <= PeakBytes(costs[i..])
    ensures costs[i].kept.nodes + PeakNodes(costs[i + 1..]) <= PeakNodes(costs[i..])
  {
    assert costs[i..][1..] == costs[i + 1..];
  }

  lemma HoldsFirst(t: Ticket)
    requires t.bytes == 1024 && t.nodes == 16
    ensures HoldsEntries([t], []) && AllSucceed([])
  {
  }

  lemma HoldsNext(held: seq<Ticket>, costs: seq<Cost>, i: nat, t: Ticket)
    requires i < |costs| && HoldsEntries(held, costs[..i]) && t.bytes == costs[i].kept.bytes && t.nodes == costs[i].kept.nodes
    ensures HoldsEntries(held + [t], costs[..i + 1])
  {
  }

  lemma PendingMeans(rec: Record)
    ensures Pending(rec) <==> !rec.stage.Ended?
  {
  }

  lemma TrimmedFailing(first: seq<nat>, after: seq<nat>, before: seq<Record>, records: seq<Record>, r: nat)
    requires r < |before| && Pending(before[r]) && records == before[r := before[r].(stage := Failing)] && Trimmed(first, after, records)
    ensures Trimmed(first, after, before)
  {
    forall q: nat | q < |before| && q in first && !Idle(before[q])
      ensures q in after
    {
      assert !Idle(records[q]);
    }
  }

  lemma CutHead(s: seq<nat>)
    requires s != []
    ensures Cut(s, 0) == s[1..] && |Cut(s, 0)| == |s| - 1
  {
  }

  lemma NoRoomStays(bytes: int, nodes: int, discovery: seq<nat>, records: seq<Record>, r: nat)
    requires NoRoom(bytes, nodes, discovery, records) && r < |records|
    ensures NoRoom(bytes, nodes, discovery, records[r := records[r].(stage := Failing)])
  {
  }

  lemma RawStep(active: int)
    ensures RawBytes(active + 1) == RawBytes(active) + RAW_BYTES && RawNodes(active + 1) == RawNodes(active) + RAW_NODES
  {
  }

  lemma GaveUpAll(before: seq<Record>, queue: seq<nat>, m: nat, after: seq<Record>, rest: seq<nat>)
    requires GivesUp(before, queue, m, after, rest) && rest == []
    ensures GivesUp(before, queue, |queue|, after, rest)
  {
  }

  lemma PumpsFailNone(before: seq<Record>, queue: seq<nat>, admitted: seq<Admission>, after: seq<Record>, rest: seq<nat>, admissions: seq<Admission>)
    ensures Pumps(before, queue, admitted, after, rest, admissions) ==> NoneFails(before, after)
  {
    if Pumps(before, queue, admitted, after, rest, admissions) {
      StartsFailNone(before, queue, |admissions| - |admitted|, |admitted|);
    }
  }

  lemma NothingWaits(before: seq<Record>, queue: seq<nat>, after: seq<Record>, rest: seq<nat>)
    ensures GivesUp(before, queue, |queue|, after, rest) ==> rest == []
  {
  }

  lemma QueryFitsFrom(bytes: int, nodes: int, own: Size, providers: nat)
    ensures QueryFits(bytes, nodes, own, providers) ==> Fits(bytes + own.bytes, nodes + own.nodes)
  {
  }

  lemma QueryFitsAt(bytes: int, nodes: int, atFirst: int, nodesAtFirst: int, own: Size, providers: nat, i: nat, before: int, active: int)
    requires i < providers && 0 <= before && active <= 2
    requires bytes - RawBytes(active) <= atFirst - RawBytes(before) + own.bytes + i * 1024
    requires nodes - RawNodes(active) <= nodesAtFirst - RawNodes(before) + own.nodes + i * 16
    ensures QueryFits(atFirst, nodesAtFirst, own, providers) ==> Fits(bytes + 1024, nodes + 16)
  {
  }
}
