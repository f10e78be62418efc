/** What the action registry keeps between the steps of its asynchronous operations, and who holds
    each of its reservations (src/core/action-registry.ts). */
module RegistryState {
  import opened IndexLedger
  import opened Wrappers

  /** Where the producer of a record stands: its job waits in the queue, runs under an admission,
      has left an index that awaits the check of its revision, or has a value or an error that
      awaits the record's completion. */
  datatype Stage = Queued | Running(admission: nat) | Built | Done | Failing | Ended(ok: bool)

  /** A discovery record of a provider, or a description record of a reference. Held are the
      reservations behind its release closure, initial the one its producer gives back at the end,
      before the provider revision that the producer last saw. */
  datatype Record = Record(
    discovery: bool, key: nat, stage: Stage, users: nat, held: seq<Ticket>, initial: Ticket,
    revision: Option<nat>, before: Option<nat>, attempt: nat)

  /** A raw producer slot, held until it is finished. Resized is what was returned, once that is
      known; a slot whose resized reservation was refused has none. */
  datatype Admission = Admission(record: nat, ticket: Option<Ticket>, resized: Option<Size>, transferred: bool, finished: bool)

  /** A query over all providers, or a description of one reference, under way: its own reservation
      and the records it uses. */
  datatype Consumer = Consumer(query: bool, ticket: Ticket, records: seq<nat>, ended: bool)

  datatype Owner = OfAdmission(admission: nat) | OfProducer(record: nat) | OfRecord(record: nat) | OfConsumer(consumer: nat)

  /** Records, admissions and consumers are numbered in the order they came about; discovery and
      descriptions are maps in insertion order. */
  datatype World = World(
    owner: map<nat, Owner>, records: seq<Record>, admissions: seq<Admission>, consumers: seq<Consumer>,
    discovery: seq<nat>, descriptions: seq<nat>)

  predicate Pending(rec: Record) { !rec.stage.Ended? }

  predicate Idle(rec: Record) { rec.stage.Ended? && rec.users == 0 }

  // ----- ownership

  /** The record still has use for what it holds: it is cached, in use, or under production. */
  ghost predicate Keeps(w: World, r: nat)
    requires r < |w.records|
  {
    var rec := w.records[r];
    rec.stage.Built? || rec.stage.Done? || rec.stage.Failing? || (rec.stage.Ended? && (rec.users > 0 || r in w.discovery || r in w.descriptions))
  }

  /** Who holds a reservation: an unfinished slot that has not transferred it, a record under
      production its first one, a record what it has use for, a consumer under way its own. */
  ghost predicate Holds(w: World, o: Owner, t: Ticket) {
    match o
    case OfAdmission(a) => a < |w.admissions| && !w.admissions[a].finished && !w.admissions[a].transferred && w.admissions[a].ticket == Some(t)
    case OfProducer(r) => r < |w.records| && Pending(w.records[r]) && w.records[r].initial == t
    case OfRecord(r) => r < |w.records| && t in w.records[r].held && Keeps(w, r)
    case OfConsumer(c) => c < |w.consumers| && !w.consumers[c].ended && w.consumers[c].ticket == t
  }

  /** Every live reservation is held by its owner, but for those that a running step has in its variables. */
  ghost predicate OwnersOk(live: seq<Ticket>, loose: set<nat>, w: World) {
    forall t | t in live :: t.id in loose || (t.id in w.owner && Holds(w, w.owner[t.id], t))
  }

  /** Whatever is held is live, with its full size, and held by its owner alone. */
  ghost predicate ClaimsOk(live: seq<Ticket>, loose: set<nat>, w: World) {
    forall o, t | Holds(w, o, t) :: t in live && t.id !in loose && t.id in w.owner && w.owner[t.id] == o
  }

  ghost predicate HoldersOk(live: seq<Ticket>, loose: set<nat>, w: World) {
    Ordered(live) && OwnersOk(live, loose, w) && ClaimsOk(live, loose, w)
  }

  /** Nobody else holds what somebody holds. */
  lemma OneHolder(live: seq<Ticket>, loose: set<nat>, w: World, o: Owner, t: Ticket, p: Owner, s: Ticket)
    requires HoldersOk(live, loose, w) && Holds(w, o, t) && Holds(w, p, s)
    ensures t in live && t.id !in loose && t.id in w.owner && w.owner[t.id] == o
    ensures s.id == t.id ==> p == o && s == t
  {
    hide Holds, Ordered;
    LiveOnce(live, s, t);
  }

  /** Reservations that nobody holds may be given back. */
  lemma Given(live: seq<Ticket>, loose: set<nat>, w: World, gone: set<nat>)
    requires HoldersOk(live, loose + gone, w)
    ensures HoldersOk(Less(live, gone), loose, w)
  {
    hide Holds, Less, Ordered;
    LessMembers(live, gone);
    LessOrdered(live, gone);
  }

  lemma {:induction false} LessOrdered(live: seq<Ticket>, gone: set<nat>)
    requires Ordered(live)
    ensures Ordered(Less(live, gone))
  {
    if live != [] {
      LessOrdered(live[1..], gone);
      LessMembers(live[1..], gone);
      var rest := Less(live[1..], gone);
      hide Less;
      forall k | 0 <= k < |rest|
        ensures live[0].id < rest[k].id
      {
        assert rest[k] in live[1..];
      }
    }
  }

  /** A reservation just taken is in nobody's hands yet. */
  lemma Taken(live: seq<Ticket>, loose: set<nat>, w: World, t: Ticket)
    requires HoldersOk(live, loose, w) && Ordered(live + [t]) && t.id !in Ids(live)
    ensures HoldersOk(live + [t], loose + {t.id}, w)
  {
    hide Holds, Ordered;
  }

  /** The world changes, but not who holds what. */
  lemma SameHolders(live: seq<Ticket>, loose: set<nat>, w: World, v: World)
    requires HoldersOk(live, loose, w) && v.owner == w.owner
    requires forall o, t :: Holds(v, o, t) <==> Holds(w, o, t)
    ensures HoldersOk(live, loose, v)
  {
    hide Holds, Ordered;
  }

  /** Some holders let go of all they hold: a running step has it in its variables. */
  lemma LetGo(live: seq<Ticket>, loose: set<nat>, w: World, v: World, os: set<Owner>, more: set<nat>)
    requires HoldersOk(live, loose, w) && v.owner == w.owner
    requires forall o, t :: Holds(v, o, t) <==> Holds(w, o, t) && o !in os
    requires forall o, t | Holds(w, o, t) && o in os :: t.id in more
    requires forall id | id in more :: id in w.owner && w.owner[id] in os
    ensures HoldersOk(live, loose + more, v)
  {
    hide Holds, Ordered;
  }

  ghost function OwnAll(owner: map<nat, Owner>, ids: set<nat>, o: Owner): map<nat, Owner> {
    owner + map id | id in ids :: o
  }

  /** A holder takes over what a running step had in its variables. */
  lemma Adopted(live: seq<Ticket>, loose: set<nat>, w: World, v: World, o: Owner, ts: seq<Ticket>)
    requires HoldersOk(live, loose + Ids(ts), w) && loose !! Ids(ts) && forall t | t in ts :: t in live
    requires v.owner == OwnAll(w.owner, Ids(ts), o)
    requires forall p, t :: Holds(v, p, t) <==> Holds(w, p, t) || (p == o && t in ts)
    ensures HoldersOk(live, loose, v)
  {
    hide Holds, Ordered;
    forall t | t in live && t.id !in loose
      ensures t.id in v.owner && Holds(v, v.owner[t.id], t)
    {
      if t.id in Ids(ts) {
        var s :| s in ts && s.id == t.id;
        LiveOnce(live, s, t);
      }
    }
  }

  lemma IdsOfOne(t: Ticket)
    ensures Ids([t]) == {t.id}
  {
  }

  /** What a record and its producer let go of when it changes so. */
  ghost function GivenUp(w: World, r: nat, rec: Record): set<nat>
    requires r < |w.records|
  {
    (if Pending(w.records[r]) && !Pending(rec) then {w.records[r].initial.id} else {})
    + (if Keeps(w, r) && !Keeps(w.(records := w.records[r := rec]), r) then Ids(w.records[r].held) else {})
  }

  /** A record changes, but not what it holds. */
  lemma RecordChanged(live: seq<Ticket>, loose: set<nat>, w: World, r: nat, rec: Record)
    requires HoldersOk(live, loose, w) && r < |w.records|
    requires rec.held == w.records[r].held && rec.initial == w.records[r].initial
    requires Pending(rec) ==> Pending(w.records[r])
    requires Keeps(w.(records := w.records[r := rec]), r) ==> Keeps(w, r) || rec.held == []
    ensures HoldersOk(live, loose + GivenUp(w, r, rec), w.(records := w.records[r := rec]))
  {
    var v := w.(records := w.records[r := rec]);
    var producer := if Pending(w.records[r]) && !Pending(rec) then {OfProducer(r)} else {};
    var holder := if Keeps(w, r) && !Keeps(v, r) then {OfRecord(r)} else {};
    RecordHolders(w, r, rec, producer + holder);
    forall o, t | Holds(w, o, t) && o in producer + holder
      ensures t.id in GivenUp(w, r, rec)
    {
    }
    forall id | id in GivenUp(w, r, rec)
      ensures id in w.owner && w.owner[id] in producer + holder
    {
      if Pending(w.records[r]) && !Pending(rec) && id == w.records[r].initial.id {
        assert Holds(w, OfProducer(r), w.records[r].initial);
      } else {
        var t :| t in w.records[r].held && t.id == id;
        assert Holds(w, OfRecord(r), t);
      }
    }
    hide Holds, GivenUp, Keeps;
    LetGo(live, loose, w, v, producer + holder, GivenUp(w, r, rec));
  }

  lemma RecordHolders(w: World, r: nat, rec: Record, os: set<Owner>)
    requires r < |w.records| && rec.held == w.records[r].held && rec.initial == w.records[r].initial
    requires Pending(rec) ==> Pending(w.records[r])
    requires var v := w.(records := w.records[r := rec]);
             && (Keeps(v, r) ==> Keeps(w, r) || rec.held == [])
             && os == (if Pending(w.records[r]) && !Pending(rec) then {OfProducer(r)} else {}) + (if Keeps(w, r) && !Keeps(v, r) then {OfRecord(r)} else {})
    ensures var v := w.(records := w.records[r := rec]);
            forall o, t :: Holds(v, o, t) <==> Holds(w, o, t) && o !in os
  {
    var v := w.(records := w.records[r := rec]);
    assert forall q: nat | q < |w.records| && q != r :: Keeps(v, q) <==> Keeps(w, q);
    hide Keeps, Pending;
  }

  /** A record lets go of what it holds, as its release closure is called. */
  lemma RecordEmptied(live: seq<Ticket>, loose: set<nat>, w: World, r: nat)
    requires HoldersOk(live, loose, w) && r < |w.records| && Keeps(w, r)
    ensures HoldersOk(live, loose + Ids(w.records[r].held), w.(records := w.records[r := w.records[r].(held := [])]))
  {
    var v := w.(records := w.records[r := w.records[r].(held := [])]);
    forall o, t
      ensures Holds(v, o, t) <==> Holds(w, o, t) && o !in {OfRecord(r)}
    {
    }
    forall id | id in Ids(w.records[r].held)
      ensures id in w.owner && w.owner[id] in {OfRecord(r)}
    {
      var t :| t in w.records[r].held && t.id == id;
      assert Holds(w, OfRecord(r), t);
    }
    LetGo(live, loose, w, v, {OfRecord(r)}, Ids(w.records[r].held));
  }

  /** What records hold that leave the caches and have no other use for it. */
  ghost function Lost(w: World, discovery: seq<nat>, descriptions: seq<nat>): set<nat> {
    set r: nat, t | r < |w.records| && t in w.records[r].held && Loses(w, discovery, descriptions, r) :: t.id
  }

  ghost predicate Loses(w: World, discovery: seq<nat>, descriptions: seq<nat>, r: nat)
    requires r < |w.records|
  {
    Keeps(w, r) && !Keeps(w.(discovery := discovery, descriptions := descriptions), r)
  }

  /** The caches change; a record that comes in holds nothing yet. */
  lemma CachesChanged(live: seq<Ticket>, loose: set<nat>, w: World, discovery: seq<nat>, descriptions: seq<nat>)
    requires HoldersOk(live, loose, w)
    requires var v := w.(discovery := discovery, descriptions := descriptions);
             forall r: nat | r < |w.records| :: Keeps(v, r) ==> Keeps(w, r) || w.records[r].held == []
    ensures HoldersOk(live, loose + Lost(w, discovery, descriptions), w.(discovery := discovery, descriptions := descriptions))
  {
    var v := w.(discovery := discovery, descriptions := descriptions);
    var os := set r: nat | r < |w.records| && Loses(w, discovery, descriptions, r) :: OfRecord(r);
    hide Keeps;
    forall o, t | Holds(w, o, t) && o in os
      ensures t.id in Lost(w, discovery, descriptions)
    {
    }
    forall id | id in Lost(w, discovery, descriptions)
      ensures id in w.owner && w.owner[id] in os
    {
      var r: nat, t :| r < |w.records| && t in w.records[r].held && Loses(w, discovery, descriptions, r) && t.id == id;
      assert Holds(w, OfRecord(r), t);
    }
    forall o, t
      ensures Holds(v, o, t) <==> Holds(w, o, t) && o !in os
    {
    }
    hide Holds, Lost, Loses;
    LetGo(live, loose, w, v, os, Lost(w, discovery, descriptions));
  }

  lemma AdmissionAdded(live: seq<Ticket>, loose: set<nat>, w: World, r: nat, ticket: Ticket)
    requires HoldersOk(live, loose + {ticket.id}, w) && ticket.id !in loose && ticket in live
    ensures HoldersOk(live, loose, w.(owner := OwnAll(w.owner, {ticket.id}, OfAdmission(|w.admissions|)),
                                      admissions := w.admissions + [Admission(r, Some(ticket), None, false, false)]))
  {
    var v := w.(owner := OwnAll(w.owner, {ticket.id}, OfAdmission(|w.admissions|)),
                admissions := w.admissions + [Admission(r, Some(ticket), None, false, false)]);
    IdsOfOne(ticket);
    assert forall q: nat | q < |w.records| :: Keeps(v, q) <==> Keeps(w, q);
    forall o, t
      ensures Holds(v, o, t) <==> Holds(w, o, t) || (o == OfAdmission(|w.admissions|) && t in [ticket])
    {
      hide Keeps;
    }
    hide Holds, Keeps, Ids, OwnAll;
    Adopted(live, loose, w, v, OfAdmission(|w.admissions|), [ticket]);
  }

  /** What a slot lets go of when it changes so. */
  ghost function LetBy(before: Admission, after: Admission): set<nat> {
    if before.finished || before.transferred || before.ticket.None? then {} else {before.ticket.value.id}
  }

  /** A slot lets go of its reservation. */
  lemma AdmissionEmptied(live: seq<Ticket>, loose: set<nat>, w: World, a: nat, admission: Admission)
    requires HoldersOk(live, loose, w) && a < |w.admissions|
    requires admission.finished || admission.transferred || admission.ticket.None?
    ensures HoldersOk(live, loose + LetBy(w.admissions[a], admission), w.(admissions := w.admissions[a := admission]))
  {
    var v := w.(admissions := w.admissions[a := admission]);
    assert forall q: nat | q < |w.records| :: Keeps(v, q) <==> Keeps(w, q);
    var before := w.admissions[a];
    forall o, t
      ensures Holds(v, o, t) <==> Holds(w, o, t) && o !in {OfAdmission(a)}
    {
      hide Keeps;
    }
    if LetBy(before, admission) != {} {
      assert Holds(w, OfAdmission(a), before.ticket.value);
      LetGo(live, loose, w, v, {OfAdmission(a)}, LetBy(before, admission));
    } else {
      assert loose + {} == loose;
      SameHolders(live, loose, w, v);
    }
  }

  /** A slot that holds nothing takes a reservation over. */
  lemma AdmissionFilled(live: seq<Ticket>, loose: set<nat>, w: World, a: nat, ticket: Ticket)
    requires HoldersOk(live, loose + {ticket.id}, w) && ticket.id !in loose && ticket in live
    requires a < |w.admissions| && !w.admissions[a].finished && !w.admissions[a].transferred && w.admissions[a].ticket.None?
    ensures HoldersOk(live, loose, w.(owner := OwnAll(w.owner, {ticket.id}, OfAdmission(a)),
                                      admissions := w.admissions[a := w.admissions[a].(ticket := Some(ticket))]))
  {
    var v := w.(owner := OwnAll(w.owner, {ticket.id}, OfAdmission(a)),
                admissions := w.admissions[a := w.admissions[a].(ticket := Some(ticket))]);
    IdsOfOne(ticket);
    assert forall q: nat | q < |w.records| :: Keeps(v, q) <==> Keeps(w, q);
    forall o, t
      ensures Holds(v, o, t) <==> Holds(w, o, t) || (o == OfAdmission(a) && t in [ticket])
    {
      hide Keeps;
    }
    hide Holds, Keeps, Ids, OwnAll;
    Adopted(live, loose, w, v, OfAdmission(a), [ticket]);
  }

  /** A record that held nothing comes to hold these. */
  lemma RecordHolds(live: seq<Ticket>, loose: set<nat>, w: World, r: nat, rec: Record)
    requires HoldersOk(live, loose + Ids(rec.held), w) && loose !! Ids(rec.held) && forall t | t in rec.held :: t in live
    requires r < |w.records| && w.records[r].held == [] && Pending(w.records[r]) && Pending(rec) && rec.initial == w.records[r].initial
    requires Keeps(w.(records := w.records[r := rec]), r)
    ensures HoldersOk(live, loose, w.(owner := OwnAll(w.owner, Ids(rec.held), OfRecord(r)), records := w.records[r := rec]))
  {
    var v := w.(owner := OwnAll(w.owner, Ids(rec.held), OfRecord(r)), records := w.records[r := rec]);
    assert forall q: nat | q < |w.records| && q != r :: Keeps(v, q) <==> Keeps(w, q);
    forall o, t
      ensures Holds(v, o, t) <==> Holds(w, o, t) || (o == OfRecord(r) && t in rec.held)
    {
      hide Keeps;
    }
    hide Holds, Keeps, Ids, OwnAll;
    Adopted(live, loose, w, v, OfRecord(r), rec.held);
  }

  /** The descriptor takes its slot's reservation over, without a moment in which nobody has it. */
  lemma Transferred(live: seq<Ticket>, loose: set<nat>, w: World, a: nat, r: nat, rec: Record)
    requires HoldersOk(live, loose, w) && r < |w.records| && a < |w.admissions|
    requires !w.admissions[a].finished && !w.admissions[a].transferred && w.admissions[a].ticket.Some?
    requires w.records[r].held == [] && Pending(w.records[r]) && Pending(rec) && rec.initial == w.records[r].initial
    requires Keeps(w.(records := w.records[r := rec]), r) && rec.held == [w.admissions[a].ticket.value]
    ensures HoldersOk(live, loose, w.(owner := OwnAll(w.owner, {w.admissions[a].ticket.value.id}, OfRecord(r)), records := w.records[r := rec],
                                      admissions := w.admissions[a := w.admissions[a].(transferred := true)]))
  {
    var t := w.admissions[a].ticket.value;
    var admission := w.admissions[a].(transferred := true);
    var u := w.(admissions := w.admissions[a := admission]);
    assert Holds(w, OfAdmission(a), t);
    OneHolder(live, loose, w, OfAdmission(a), t, OfAdmission(a), t);
    AdmissionEmptied(live, loose, w, a, admission);
    assert LetBy(w.admissions[a], admission) == {t.id};
    IdsOfOne(t);
    assert Keeps(u.(records := u.records[r := rec]), r) <==> Keeps(w.(records := w.records[r := rec]), r);
    hide Holds, Keeps, HoldersOk;
    RecordHolds(live, loose, u, r, rec);
  }

  lemma RecordAdded(live: seq<Ticket>, loose: set<nat>, w: World, rec: Record)
    requires HoldersOk(live, loose + {rec.initial.id}, w) && rec.initial.id !in loose && rec.initial in live
    requires Pending(rec) && rec.held == []
    ensures HoldersOk(live, loose, w.(owner := OwnAll(w.owner, {rec.initial.id}, OfProducer(|w.records|)), records := w.records + [rec]))
  {
    var v := w.(owner := OwnAll(w.owner, {rec.initial.id}, OfProducer(|w.records|)), records := w.records + [rec]);
    IdsOfOne(rec.initial);
    assert forall q: nat | q < |w.records| :: Keeps(v, q) <==> Keeps(w, q);
    forall o, t
      ensures Holds(v, o, t) <==> Holds(w, o, t) || (o == OfProducer(|w.records|) && t in [rec.initial])
    {
      hide Keeps;
    }
    hide Holds, Keeps, Ids, OwnAll;
    Adopted(live, loose, w, v, OfProducer(|w.records|), [rec.initial]);
  }

  lemma ConsumerAdded(live: seq<Ticket>, loose: set<nat>, w: World, consumer: Consumer)
    requires HoldersOk(live, loose + {consumer.ticket.id}, w) && consumer.ticket.id !in loose && consumer.ticket in live && !consumer.ended
    ensures HoldersOk(live, loose, w.(owner := OwnAll(w.owner, {consumer.ticket.id}, OfConsumer(|w.consumers|)), consumers := w.consumers + [consumer]))
  {
    var v := w.(owner := OwnAll(w.owner, {consumer.ticket.id}, OfConsumer(|w.consumers|)), consumers := w.consumers + [consumer]);
    IdsOfOne(consumer.ticket);
    assert forall q: nat | q < |w.records| :: Keeps(v, q) <==> Keeps(w, q);
    forall o, t
      ensures Holds(v, o, t) <==> Holds(w, o, t) || (o == OfConsumer(|w.consumers|) && t in [consumer.ticket])
    {
      hide Keeps;
    }
    hide Holds, Keeps, Ids, OwnAll;
    Adopted(live, loose, w, v, OfConsumer(|w.consumers|), [consumer.ticket]);
  }

  /** A consumer changes, but neither its reservation nor whether it has ended. */
  lemma ConsumerUpdated(live: seq<Ticket>, loose: set<nat>, w: World, c: nat, consumer: Consumer)
    requires HoldersOk(live, loose, w) && c < |w.consumers|
    requires consumer.ticket == w.consumers[c].ticket && consumer.ended == w.consumers[c].ended
    ensures HoldersOk(live, loose, w.(consumers := w.consumers[c := consumer]))
  {
    var v := w.(consumers := w.consumers[c := consumer]);
    assert forall q: nat | q < |w.records| :: Keeps(v, q) <==> Keeps(w, q);
    forall o, t
      ensures Holds(v, o, t) <==> Holds(w, o, t)
    {
      hide Keeps;
    }
    SameHolders(live, loose, w, v);
  }

  lemma ConsumerEmptied(live: seq<Ticket>, loose: set<nat>, w: World, c: nat)
    requires HoldersOk(live, loose, w) && c < |w.consumers| && !w.consumers[c].ended
    ensures HoldersOk(live, loose + {w.consumers[c].ticket.id}, w.(consumers := w.consumers[c := w.consumers[c].(ended := true)]))
  {
    var v := w.(consumers := w.consumers[c := w.consumers[c].(ended := true)]);
    assert forall q: nat | q < |w.records| :: Keeps(v, q) <==> Keeps(w, q);
    forall o, t
      ensures Holds(v, o, t) <==> Holds(w, o, t) && o !in {OfConsumer(c)}
    {
      hide Keeps;
    }
    assert Holds(w, OfConsumer(c), w.consumers[c].ticket);
    LetGo(live, loose, w, v, {OfConsumer(c)}, {w.consumers[c].ticket.id});
  }

  // ----- the shape of the rest

  /** The queue names each record that waits in it, once. */
  ghost predicate QueueOk(queue: seq<nat>, records: seq<Record>) {
    && (forall i | 0 <= i < |queue| :: queue[i] < |records| && records[queue[i]].stage.Queued?)
    && (forall i, j | 0 <= i < j < |queue| :: queue[i] != queue[j])
    && (forall r: nat | r < |records| :: records[r].stage.Queued? ==> r in queue)
  }

  /** A running producer has an admission of its own, which is not finished and still has the raw reservation. */
  ghost predicate RunningOk(records: seq<Record>, admissions: seq<Admission>) {
    && (forall r: nat | r < |records| :: records[r].stage.Running? ==>
          && records[r].stage.admission < |admissions|
          && var a := admissions[records[r].stage.admission];
             a.record == r && !a.finished && !a.transferred && a.resized.None?)
    && (forall a | 0 <= a < |admissions| :: admissions[a].record < |records|)
  }

  function Active(admissions: seq<Admission>): nat {
    if admissions == [] then 0 else (if admissions[0].finished then 0 else 1) + Active(admissions[1..])
  }

  lemma {:induction false} ActiveSplit(a: seq<Admission>, b: seq<Admission>)
    ensures Active(a + b) == Active(a) + Active(b)
  {
    if a == [] {
      assert a + b == b;
    } else {
      assert (a + b)[1..] == a[1..] + b;
      ActiveSplit(a[1..], b);
    }
  }

  lemma ActiveUpdated(admissions: seq<Admission>, a: nat, admission: Admission)
    requires a < |admissions|
    ensures Active(admissions[a := admission]) == Active(admissions) - (if admissions[a].finished then 0 else 1) + (if admission.finished then 0 else 1)
  {
    assert admissions == admissions[..a] + ([admissions[a]] + admissions[a + 1..]);
    assert admissions[a := admission] == admissions[..a] + ([admission] + admissions[a + 1..]);
    ActiveSplit(admissions[..a], [admissions[a]] + admissions[a + 1..]);
    ActiveSplit(admissions[..a], [admission] + admissions[a + 1..]);
    ActiveSplit([admissions[a]], admissions[a + 1..]);
    ActiveSplit([admission], admissions[a + 1..]);
  }

  /** Discovery caches one record a provider, descriptions one a reference; a description is only
      kept while it is under production or in use, or while a running step is about to remove it. */
  ghost predicate CachedOk(records: seq<Record>, discovery: seq<nat>, descriptions: seq<nat>, leaving: int) {
    && (forall i | 0 <= i < |discovery| :: discovery[i] < |records| && records[discovery[i]].discovery)
    && (forall i, j | 0 <= i < j < |discovery| :: records[discovery[i]].key != records[discovery[j]].key)
    && (forall i | 0 <= i < |descriptions| :: descriptions[i] < |records| && !records[descriptions[i]].discovery && (!Idle(records[descriptions[i]]) || descriptions[i] == leaving))
    && (forall i, j | 0 <= i < j < |descriptions| :: records[descriptions[i]].key != records[descriptions[j]].key)
  }

  function Uses(consumers: seq<Consumer>, r: nat): nat {
    if consumers == [] then 0 else multiset(consumers[0].records)[r] + Uses(consumers[1..], r)
  }

  /** A record has as many users as consumers use it. */
  ghost predicate UsersOk(records: seq<Record>, consumers: seq<Consumer>) {
    && (forall r: nat | r < |records| :: records[r].users == Uses(consumers, r))
    && (forall c | 0 <= c < |consumers| :: (forall r | r in consumers[c].records :: r < |records|) && (consumers[c].ended ==> consumers[c].records == []))
  }

  lemma {:induction false} UsesSplit(a: seq<Consumer>, b: seq<Consumer>, r: nat)
    ensures Uses(a + b, r) == Uses(a, r) + Uses(b, r)
  {
    if a == [] {
      assert a + b == b;
    } else {
      assert (a + b)[1..] == a[1..] + b;
      UsesSplit(a[1..], b, r);
    }
  }

  lemma UsesOfOne(consumer: Consumer, r: nat)
    ensures Uses([consumer], r) == multiset(consumer.records)[r]
  {
  }

  lemma UsesUpdated(consumers: seq<Consumer>, c: nat, consumer: Consumer, r: nat)
    requires c < |consumers|
    ensures Uses(consumers[c := consumer], r) == Uses(consumers, r) - multiset(consumers[c].records)[r] + multiset(consumer.records)[r]
  {
    hide Uses;
    assert consumers == consumers[..c] + ([consumers[c]] + consumers[c + 1..]);
    assert consumers[c := consumer] == consumers[..c] + ([consumer] + consumers[c + 1..]);
    UsesSplit(consumers[..c], [consumers[c]] + consumers[c + 1..], r);
    UsesSplit(consumers[..c], [consumer] + consumers[c + 1..], r);
    UsesSplit([consumers[c]], consumers[c + 1..], r);
    UsesSplit([consumer], consumers[c + 1..], r);
    UsesOfOne(consumers[c], r);
    UsesOfOne(consumer, r);
  }

  lemma {:induction false} Unused(consumers: seq<Consumer>, r: nat)
    requires forall c | 0 <= c < |consumers| :: r !in consumers[c].records
    ensures Uses(consumers, r) == 0
  {
    if consumers != [] {
      Unused(consumers[1..], r);
    }
  }

  /** The pump only starts or cancels what waits in the queue. */
  ghost predicate Pumped(before: seq<Record>, after: seq<Record>) {
    |before| == |after| && forall r | 0 <= r < |before| :: Moved(before[r], after[r])
  }

  ghost predicate Moved(before: Record, after: Record) {
    after == before
    || (before.stage.Queued? && (after.stage.Running? || after.stage.Failing?) && after == before.(stage := after.stage))
  }

  lemma PumpedOne(before: seq<Record>, records: seq<Record>, r: nat, stage: Stage)
    requires Pumped(before, records) && r < |records| && records[r].stage.Queued? && (stage.Running? || stage.Failing?)
    ensures Pumped(before, records[r := records[r].(stage := stage)])
  {
    assert Moved(before[r], records[r]);
  }

  lemma PumpedNothing(records: seq<Record>)
    ensures Pumped(records, records)
  {
  }

  /** The first k jobs of the queue start, under the admissions from the a-th on. */
  ghost function Starts(records: seq<Record>, queue: seq<nat>, k: nat, a: nat): (after: seq<Record>)
    requires k <= |queue|
    ensures |after| == |records|
  {
    if k == 0 then records
    else
      var started, r := Starts(records, queue, k - 1, a), queue[k - 1];
      if r < |started| then started[r := started[r].(stage := Running(a + k - 1))] else started
  }

  /** The producers of the first k jobs of the queue fail. */
  ghost function Cancels(records: seq<Record>, queue: seq<nat>, k: nat): (after: seq<Record>)
    requires k <= |queue|
    ensures |after| == |records|
  {
    if k == 0 then records
    else
      var cancelled, r := Cancels(records, queue, k - 1), queue[k - 1];
      if r < |cancelled| then cancelled[r := cancelled[r].(stage := Failing)] else cancelled
  }

  /** A slot just taken for a record: it holds a reservation of the raw size. */
  predicate IsRaw(r: nat, admission: Admission) {
    && admission.record == r && !admission.transferred && !admission.finished && admission.resized.None?
    && admission.ticket.Some? && admission.ticket.value.bytes == RAW_BYTES && admission.ticket.value.nodes == RAW_NODES
  }

  /** Jobs leave the queue from the front, each to start under an admission of its own, with a
      reservation of the raw size; no producer fails. */
  ghost predicate Pumps(before: seq<Record>, queue: seq<nat>, admitted: seq<Admission>, after: seq<Record>, rest: seq<nat>, admissions: seq<Admission>) {
    admitted <= admissions &&
    var k := |admissions| - |admitted|;
    && k <= |queue| && rest == queue[k..] && after == Starts(before, queue, k, |admitted|)
    && forall j: nat | j < k :: IsRaw(queue[j], admissions[|admitted| + j])
  }

  /** The first m jobs leave the queue unstarted, and their producers fail. */
  ghost predicate GivesUp(before: seq<Record>, queue: seq<nat>, m: nat, after: seq<Record>, rest: seq<nat>) {
    m <= |queue| && rest == queue[m..] && after == Cancels(before, queue, m)
  }

  lemma PumpsNothing(records: seq<Record>, queue: seq<nat>, admitted: seq<Admission>)
    ensures Pumps(records, queue, admitted, records, queue, admitted)
    ensures GivesUp(records, queue, 0, records, queue)
  {
    assert queue[0..] == queue;
  }

  lemma PumpsMore(before: seq<Record>, queue: seq<nat>, admitted: seq<Admission>, after: seq<Record>, rest: seq<nat>, admissions: seq<Admission>, ticket: Ticket)
    requires Pumps(before, queue, admitted, after, rest, admissions) && rest != [] && rest[0] < |after|
    requires HasSize(ticket, Size(RAW_BYTES, RAW_NODES))
    ensures Pumps(before, queue, admitted, after[rest[0] := after[rest[0]].(stage := Running(|admissions|))], rest[1..],
                  admissions + [Admission(rest[0], Some(ticket), None, false, false)])
  {
    var k := |admissions| - |admitted|;
    assert rest[0] == queue[k] && rest[1..] == queue[k + 1..];
  }

  /** A pump that has started nothing has left everything as it was. */
  lemma NothingStarted(before: seq<Record>, queue: seq<nat>, admitted: seq<Admission>, after: seq<Record>, rest: seq<nat>, admissions: seq<Admission>)
    requires Pumps(before, queue, admitted, after, rest, admissions) && |admissions| == |admitted|
    ensures after == before && rest == queue && admissions == admitted
  {
  }

  lemma GivesUpMore(before: seq<Record>, queue: seq<nat>, m: nat, after: seq<Record>, rest: seq<nat>)
    requires GivesUp(before, queue, m, after, rest) && rest != [] && rest[0] < |after|
    ensures GivesUp(before, queue, m + 1, after[rest[0] := after[rest[0]].(stage := Failing)], rest[1..])
  {
    assert rest[0] == queue[m] && rest[1..] == queue[m + 1..];
  }

  ghost predicate NoneFails(before: seq<Record>, after: seq<Record>) {
    |before| == |after| && forall r | 0 <= r < |after| :: after[r].stage.Failing? ==> before[r].stage.Failing?
  }

  lemma {:induction false} StartsFailNone(records: seq<Record>, queue: seq<nat>, k: nat, a: nat)
    requires k <= |queue|
    ensures NoneFails(records, Starts(records, queue, k, a))
  {
    if k > 0 {
      StartsFailNone(records, queue, k - 1, a);
    }
  }

  /** A load starts from 1024 bytes and 16 nodes, and holds no index while it waits or runs. */
  predicate RecordForm(rec: Record) {
    && (rec.discovery ==> HasSize(rec.initial, Size(1024, 16)))
    && (rec.stage.Queued? || rec.stage.Running? ==> rec.held == [])
  }

  /** A slot's reservation has the raw size until something has been returned, and then its size. */
  predicate AdmissionForm(admission: Admission) {
    && (admission.ticket.Some? ==>
          HasSize(admission.ticket.value, if admission.resized.Some? then admission.resized.value else Size(RAW_BYTES, RAW_NODES)))
    && (admission.resized.None? ==> admission.ticket.Some?)
    && (admission.resized.Some? ==> admission.resized.value.bytes <= RAW_BYTES && admission.resized.value.nodes <= RAW_NODES)
  }

  ghost predicate FormOk(records: seq<Record>, admissions: seq<Admission>) {
    && (forall r | 0 <= r < |records| :: RecordForm(records[r]))
    && (forall a | 0 <= a < |admissions| :: AdmissionForm(admissions[a]))
  }

  ghost predicate ShapeOk(queue: seq<nat>, rawActive: int, leaving: int, w: World) {
    && FormOk(w.records, w.admissions)
    && QueueOk(queue, w.records) && RunningOk(w.records, w.admissions)
    && CachedOk(w.records, w.discovery, w.descriptions, leaving) && UsersOk(w.records, w.consumers)
    && rawActive == Active(w.admissions) <= 2
  }

  lemma AnyOwner(queue: seq<nat>, rawActive: int, leaving: int, w: World, owner: map<nat, Owner>)
    requires ShapeOk(queue, rawActive, leaving, w)
    ensures ShapeOk(queue, rawActive, leaving, w.(owner := owner))
  {
  }

  function Cut(s: seq<nat>, i: nat): seq<nat>
    requires i < |s|
  {
    s[..i] + s[i + 1..]
  }

  lemma CutMembers(s: seq<nat>, i: nat, r: nat)
    requires i < |s|
    ensures r in Cut(s, i) ==> r in s
    ensures r in s && r != s[i] ==> r in Cut(s, i)
  {
    if r in s && r != s[i] {
      var k :| 0 <= k < |s| && s[k] == r;
      assert r == Cut(s, i)[if k < i then k else k - 1];
    }
  }

  /** Neither entering nor leaving the queue, nor starting: what a producer that runs, or ran, does. */
  lemma StageShape(queue: seq<nat>, rawActive: int, leaving: int, w: World, r: nat, rec: Record)
    requires ShapeOk(queue, rawActive, leaving, w) && r < |w.records|
    requires !w.records[r].stage.Queued? && !rec.stage.Queued? && !rec.stage.Running?
    requires rec.discovery == w.records[r].discovery && rec.key == w.records[r].key && rec.users == w.records[r].users
    requires rec.initial == w.records[r].initial
    requires Idle(rec) && r in w.descriptions ==> leaving == r
    ensures ShapeOk(queue, rawActive, leaving, w.(records := w.records[r := rec]))
  {
    hide Active, Uses;
  }

  lemma DequeuedShape(queue: seq<nat>, rawActive: int, leaving: int, w: World, i: nat, stage: Stage)
    requires ShapeOk(queue, rawActive, leaving, w) && i < |queue| && stage.Failing?
    ensures ShapeOk(Cut(queue, i), rawActive, leaving, w.(records := w.records[queue[i] := w.records[queue[i]].(stage := stage)]))
  {
    hide Active, Uses, UsersOk, RunningOk, CachedOk, QueueOk, FormOk;
    QueueMember(queue, w.records, i);
    var r := queue[i];
    FormOfStage(w.records, w.admissions, r, stage);
    DequeuedQueue(queue, w.records, i, w.records[r].(stage := stage));
    StageElsewhere(w, leaving, r, stage, queue);
  }

  lemma FormOfStage(records: seq<Record>, admissions: seq<Admission>, r: nat, stage: Stage)
    requires FormOk(records, admissions) && r < |records| && records[r].stage.Queued?
    ensures FormOk(records[r := records[r].(stage := stage)], admissions)
  {
    assert RecordForm(records[r]);
  }

  lemma DequeuedQueue(queue: seq<nat>, records: seq<Record>, i: nat, rec: Record)
    requires QueueOk(queue, records) && i < |queue| && !rec.stage.Queued?
    ensures queue[i] < |records| && QueueOk(Cut(queue, i), records[queue[i] := rec])
  {
    var rest := Cut(queue, i);
    forall k | 0 <= k < |rest|
      ensures rest[k] == queue[if k < i then k else k + 1]
    {
    }
    forall r: nat | r < |records| && records[r].stage.Queued? && r != queue[i]
      ensures r in rest
    {
      CutMembers(queue, i, r);
    }
  }

  lemma StageElsewhere(w: World, leaving: int, r: nat, stage: Stage, queue: seq<nat>)
    requires RunningOk(w.records, w.admissions) && CachedOk(w.records, w.discovery, w.descriptions, leaving) && UsersOk(w.records, w.consumers)
    requires r < |w.records| && stage.Failing?
    ensures var records := w.records[r := w.records[r].(stage := stage)];
            RunningOk(records, w.admissions) && CachedOk(records, w.discovery, w.descriptions, leaving) && UsersOk(records, w.consumers)
  {
    hide Uses;
  }

  lemma StartedShape(queue: seq<nat>, rawActive: int, leaving: int, w: World, ticket: Ticket)
    requires ShapeOk(queue, rawActive, leaving, w) && queue != [] && rawActive < 2 && HasSize(ticket, Size(RAW_BYTES, RAW_NODES))
    ensures var r := queue[0];
            && r < |w.records| && w.records[r].stage.Queued?
            && ShapeOk(queue[1..], rawActive + 1, leaving,
                       w.(records := w.records[r := w.records[r].(stage := Running(|w.admissions|))],
                          admissions := w.admissions + [Admission(r, Some(ticket), None, false, false)]))
  {
    hide Active, Uses, UsersOk, RunningOk, CachedOk, QueueOk, FormOk;
    var r := queue[0];
    var stage := Running(|w.admissions|);
    QueueMember(queue, w.records, 0);
    FormOfStage(w.records, w.admissions, r, stage);
    FormOfRaw(w.records[r := w.records[r].(stage := stage)], w.admissions, r, ticket);
    DequeuedQueue(queue, w.records, 0, w.records[r].(stage := stage));
    assert Cut(queue, 0) == queue[1..];
    StartedElsewhere(w, leaving, r, ticket);
    ActiveSplit(w.admissions, [Admission(r, Some(ticket), None, false, false)]);
    OneActive(Admission(r, Some(ticket), None, false, false));
  }

  lemma FormOfRaw(records: seq<Record>, admissions: seq<Admission>, r: nat, ticket: Ticket)
    requires FormOk(records, admissions) && HasSize(ticket, Size(RAW_BYTES, RAW_NODES))
    ensures FormOk(records, admissions + [Admission(r, Some(ticket), None, false, false)])
  {
  }

  lemma QueueMember(queue: seq<nat>, records: seq<Record>, i: nat)
    requires QueueOk(queue, records) && i < |queue|
    ensures queue[i] < |records| && records[queue[i]].stage.Queued?
  {
  }

  lemma OneActive(admission: Admission)
    ensures Active([admission]) == if admission.finished then 0 else 1
  {
  }

  lemma StartedElsewhere(w: World, leaving: int, r: nat, ticket: Ticket)
    requires RunningOk(w.records, w.admissions) && CachedOk(w.records, w.discovery, w.descriptions, leaving) && UsersOk(w.records, w.consumers)
    requires r < |w.records| && w.records[r].stage.Queued?
    ensures var records := w.records[r := w.records[r].(stage := Running(|w.admissions|))];
            && RunningOk(records, w.admissions + [Admission(r, Some(ticket), None, false, false)])
            && CachedOk(records, w.discovery, w.descriptions, leaving) && UsersOk(records, w.consumers)
  {
    hide Uses;
  }

  lemma EnqueuedShape(queue: seq<nat>, rawActive: int, leaving: int, w: World, r: nat, rec: Record)
    requires ShapeOk(queue, rawActive, leaving, w) && r < |w.records|
    requires !w.records[r].stage.Queued? && rec.stage.Queued?
    requires rec.discovery == w.records[r].discovery && rec.key == w.records[r].key && rec.users == w.records[r].users
    requires rec.initial == w.records[r].initial && rec.held == []
    ensures ShapeOk(queue + [r], rawActive, leaving, w.(records := w.records[r := rec]))
  {
    hide Active, Uses;
    var records := w.records[r := rec];
    assert r !in queue;
    assert (queue + [r])[|queue|] == r;
    forall q: nat | q < |records| && records[q].stage.Queued?
      ensures q in queue + [r]
    {
    }
  }

  /** The operation of the admission has settled. */
  predicate Settled(w: World, a: nat)
    requires a < |w.admissions|
  {
    var r := w.admissions[a].record;
    r < |w.records| && w.records[r].stage != Running(a)
  }

  lemma AdmissionShape(queue: seq<nat>, rawActive: int, leaving: int, w: World, a: nat, admission: Admission)
    requires ShapeOk(queue, rawActive, leaving, w) && a < |w.admissions| && admission.record == w.admissions[a].record
    requires Settled(w, a) || (!admission.finished && !admission.transferred && admission.resized.None?)
    requires !w.admissions[a].finished && AdmissionForm(admission)
    ensures ShapeOk(queue, if admission.finished then rawActive - 1 else rawActive, leaving, w.(admissions := w.admissions[a := admission]))
  {
    hide Active, Uses, UsersOk, CachedOk, QueueOk;
    ActiveUpdated(w.admissions, a, admission);
  }

  /** Records leave discovery, or move within it. */
  lemma DiscoveryCut(queue: seq<nat>, rawActive: int, leaving: int, w: World, i: nat)
    requires ShapeOk(queue, rawActive, leaving, w) && i < |w.discovery|
    ensures ShapeOk(queue, rawActive, leaving, w.(discovery := Cut(w.discovery, i)))
  {
    hide Active, Uses, UsersOk, RunningOk, QueueOk, FormOk;
    var rest := Cut(w.discovery, i);
    forall k | 0 <= k < |rest|
      ensures rest[k] == w.discovery[if k < i then k else k + 1]
    {
    }
  }

  lemma DiscoveryAppended(queue: seq<nat>, rawActive: int, leaving: int, w: World, r: nat)
    requires ShapeOk(queue, rawActive, leaving, w) && r < |w.records| && w.records[r].discovery
    requires forall i | 0 <= i < |w.discovery| :: w.records[w.discovery[i]].key != w.records[r].key
    ensures ShapeOk(queue, rawActive, leaving, w.(discovery := w.discovery + [r]))
  {
    hide Active, Uses, UsersOk, RunningOk, QueueOk, FormOk;
  }

  lemma DiscoveryEmptied(queue: seq<nat>, rawActive: int, leaving: int, w: World)
    requires ShapeOk(queue, rawActive, leaving, w)
    ensures ShapeOk(queue, rawActive, leaving, w.(discovery := []))
  {
    hide Active, Uses, UsersOk, RunningOk, QueueOk, FormOk;
  }

  lemma DescriptionsCut(queue: seq<nat>, rawActive: int, leaving: int, w: World, i: nat)
    requires ShapeOk(queue, rawActive, leaving, w) && i < |w.descriptions|
    ensures ShapeOk(queue, rawActive, if leaving == w.descriptions[i] then -1 else leaving, w.(descriptions := Cut(w.descriptions, i)))
  {
    hide Active, Uses, UsersOk, RunningOk, QueueOk, FormOk;
    var rest := Cut(w.descriptions, i);
    forall k | 0 <= k < |rest|
      ensures rest[k] == w.descriptions[if k < i then k else k + 1]
    {
    }
  }

  lemma DescriptionAppended(queue: seq<nat>, rawActive: int, leaving: int, w: World, r: nat)
    requires ShapeOk(queue, rawActive, leaving, w) && r < |w.records| && !w.records[r].discovery && !Idle(w.records[r])
    requires forall i | 0 <= i < |w.descriptions| :: w.records[w.descriptions[i]].key != w.records[r].key
    ensures ShapeOk(queue, rawActive, leaving, w.(descriptions := w.descriptions + [r]))
  {
    hide Active, Uses, UsersOk, RunningOk, QueueOk, FormOk;
  }

  // ----- consumers come and go

  lemma ConsumerBegun(queue: seq<nat>, rawActive: int, leaving: int, w: World, consumer: Consumer)
    requires ShapeOk(queue, rawActive, leaving, w) && consumer.records == []
    ensures ShapeOk(queue, rawActive, leaving, w.(consumers := w.consumers + [consumer]))
  {
    hide Active, FormOk, RunningOk, QueueOk, CachedOk;
    hide Uses;
    var more := w.consumers + [consumer];
    forall r: nat | r < |w.records|
      ensures Uses(more, r) == Uses(w.consumers, r)
    {
      UsesSplit(w.consumers, [consumer], r);
      UsesOfOne(consumer, r);
    }
  }

  lemma ConsumerEnded(queue: seq<nat>, rawActive: int, leaving: int, w: World, c: nat)
    requires ShapeOk(queue, rawActive, leaving, w) && c < |w.consumers| && w.consumers[c].records == []
    ensures ShapeOk(queue, rawActive, leaving, w.(consumers := w.consumers[c := w.consumers[c].(ended := true)]))
  {
    hide Active, FormOk, RunningOk, QueueOk, CachedOk, Uses;
    forall r: nat | r < |w.records|
      ensures Uses(w.consumers[c := w.consumers[c].(ended := true)], r) == Uses(w.consumers, r)
    {
      UsesUpdated(w.consumers, c, w.consumers[c].(ended := true), r);
    }
  }

  lemma JoinedUsers(records: seq<Record>, consumers: seq<Consumer>, c: nat, r: nat)
    requires UsersOk(records, consumers) && c < |consumers| && !consumers[c].ended && r < |records|
    ensures UsersOk(records[r := records[r].(users := records[r].users + 1)],
                    consumers[c := consumers[c].(records := consumers[c].records + [r])])
  {
    hide Uses;
    var consumer := consumers[c].(records := consumers[c].records + [r]);
    forall q: nat | q < |records|
      ensures Uses(consumers[c := consumer], q) == Uses(consumers, q) + if q == r then 1 else 0
    {
      UsesUpdated(consumers, c, consumer, q);
    }
  }

  lemma Joined(queue: seq<nat>, rawActive: int, leaving: int, w: World, c: nat, r: nat)
    requires ShapeOk(queue, rawActive, leaving, w) && c < |w.consumers| && !w.consumers[c].ended && r < |w.records|
    ensures ShapeOk(queue, rawActive, leaving,
                    w.(records := w.records[r := w.records[r].(users := w.records[r].users + 1)],
                       consumers := w.consumers[c := w.consumers[c].(records := w.consumers[c].records + [r])]))
  {
    hide Active, UsersOk;
    JoinedUsers(w.records, w.consumers, c, r);
  }

  lemma LeftUsers(records: seq<Record>, consumers: seq<Consumer>, c: nat)
    requires UsersOk(records, consumers) && c < |consumers| && consumers[c].records != []
    ensures var r := consumers[c].records[0];
            && r < |records| && records[r].users > 0
            && UsersOk(records[r := records[r].(users := records[r].users - 1)],
                       consumers[c := consumers[c].(records := consumers[c].records[1..])])
  {
    hide Uses;
    var r := consumers[c].records[0];
    var consumer := consumers[c].(records := consumers[c].records[1..]);
    assert consumers[c].records == [r] + consumers[c].records[1..];
    assert r in consumers[c].records;
    forall x | x in consumer.records
      ensures x < |records|
    {
      assert x in consumers[c].records;
    }
    UsesUpdated(consumers, c, consumer, r);
    forall q: nat | q < |records|
      ensures Uses(consumers[c := consumer], q) == Uses(consumers, q) - if q == r then 1 else 0
    {
      UsesUpdated(consumers, c, consumer, q);
    }
  }

  lemma Left(queue: seq<nat>, rawActive: int, w: World, c: nat)
    requires ShapeOk(queue, rawActive, -1, w) && c < |w.consumers| && w.consumers[c].records != []
    ensures var r := w.consumers[c].records[0];
            && r < |w.records| && w.records[r].users > 0
            && ShapeOk(queue, rawActive, r, w.(records := w.records[r := w.records[r].(users := w.records[r].users - 1)],
                                               consumers := w.consumers[c := w.consumers[c].(records := w.consumers[c].records[1..])]))
  {
    hide Active, UsersOk;
    LeftUsers(w.records, w.consumers, c);
  }

  lemma LeavingDone(queue: seq<nat>, rawActive: int, r: nat, w: World)
    requires ShapeOk(queue, rawActive, r, w) && r < |w.records| && (r !in w.descriptions || !Idle(w.records[r]))
    ensures ShapeOk(queue, rawActive, -1, w)
  {
    hide Active, UsersOk, QueueOk, RunningOk, FormOk;
  }

  /** A new record waits in the queue, and is used by the consumer that asked for it. */
  lemma Created(queue: seq<nat>, rawActive: int, leaving: int, w: World, c: nat, rec: Record)
    requires ShapeOk(queue, rawActive, leaving, w) && c < |w.consumers| && !w.consumers[c].ended
    requires rec.stage.Queued? && rec.users == 1 && RecordForm(rec)
    ensures var r := |w.records|;
            ShapeOk(queue + [r], rawActive, leaving,
                    w.(records := w.records + [rec],
                       consumers := w.consumers[c := w.consumers[c].(records := w.consumers[c].records + [r])]))
  {
    hide Active, UsersOk, CachedOk;
    CreatedUsers(w.records, w.consumers, c, rec);
    CreatedCached(w.records, w.discovery, w.descriptions, leaving, rec);
    var r, records := |w.records|, w.records + [rec];
    assert (queue + [r])[|queue|] == r;
    forall q: nat | q < |records| && records[q].stage.Queued?
      ensures q in queue + [r]
    {
    }
  }

  lemma CreatedCached(records: seq<Record>, discovery: seq<nat>, descriptions: seq<nat>, leaving: int, rec: Record)
    requires CachedOk(records, discovery, descriptions, leaving)
    ensures CachedOk(records + [rec], discovery, descriptions, leaving)
  {
  }

  lemma CreatedUsers(records: seq<Record>, consumers: seq<Consumer>, c: nat, rec: Record)
    requires UsersOk(records, consumers) && c < |consumers| && !consumers[c].ended && rec.users == 1
    ensures UsersOk(records + [rec], consumers[c := consumers[c].(records := consumers[c].records + [|records|])])
  {
    hide Uses;
    var r := |records|;
    var consumer := consumers[c].(records := consumers[c].records + [r]);
    Unused(consumers, r);
    forall q: nat | q <= |records|
      ensures Uses(consumers[c := consumer], q) == Uses(consumers, q) + if q == r then 1 else 0
    {
      UsesUpdated(consumers, c, consumer, q);
    }
  }

  // ----- a record leaves a cache

  /** Of all cached records only the one that goes can lose its last use for what it holds. */
  lemma DiscoveryLeaves(live: seq<Ticket>, loose: set<nat>, w: World, i: nat)
    requires HoldersOk(live, loose, w) && i < |w.discovery| && w.discovery[i] < |w.records|
    ensures HoldersOk(live, loose + Lost(w, Cut(w.discovery, i), w.descriptions), w.(discovery := Cut(w.discovery, i)))
    ensures Lost(w, Cut(w.discovery, i), w.descriptions) == if Loses(w, Cut(w.discovery, i), w.descriptions, w.discovery[i]) then Ids(w.records[w.discovery[i]].held) else {}
  {
    hide HoldersOk, Cut;
    var v := w.(discovery := Cut(w.discovery, i));
    forall r: nat | r < |w.records|
      ensures Keeps(v, r) ==> Keeps(w, r)
      ensures r != w.discovery[i] ==> (Keeps(w, r) <==> Keeps(v, r))
    {
      CutMembers(w.discovery, i, r);
    }
    LostByOne(w, Cut(w.discovery, i), w.descriptions, w.discovery[i]);
    CachesChanged(live, loose, w, Cut(w.discovery, i), w.descriptions);
  }

  lemma LostByOne(w: World, discovery: seq<nat>, descriptions: seq<nat>, r: nat)
    requires r < |w.records|
    requires var v := w.(discovery := discovery, descriptions := descriptions);
             forall q: nat | q < |w.records| && q != r :: Keeps(w, q) <==> Keeps(v, q)
    ensures Lost(w, discovery, descriptions) == if Loses(w, discovery, descriptions, r) then Ids(w.records[r].held) else {}
  {
    hide Keeps;
  }

  /** Once it has left its cache, an idle record has no use for what it holds. */
  lemma IdleLoses(w: World, discovery: seq<nat>, descriptions: seq<nat>, r: nat)
    requires r < |w.records| && (r in w.discovery || r in w.descriptions) && r !in discovery && r !in descriptions
    ensures Loses(w, discovery, descriptions, r) <==> Idle(w.records[r])
  {
  }

  lemma DescriptionLeaves(live: seq<Ticket>, loose: set<nat>, w: World, i: nat)
    requires HoldersOk(live, loose, w) && i < |w.descriptions| && w.descriptions[i] < |w.records|
    ensures HoldersOk(live, loose + Lost(w, w.discovery, Cut(w.descriptions, i)), w.(descriptions := Cut(w.descriptions, i)))
    ensures Lost(w, w.discovery, Cut(w.descriptions, i)) == if Loses(w, w.discovery, Cut(w.descriptions, i), w.descriptions[i]) then Ids(w.records[w.descriptions[i]].held) else {}
  {
    hide HoldersOk, Cut;
    var v := w.(descriptions := Cut(w.descriptions, i));
    forall r: nat | r < |w.records|
      ensures Keeps(v, r) ==> Keeps(w, r)
      ensures r != w.descriptions[i] ==> (Keeps(w, r) <==> Keeps(v, r))
    {
      CutMembers(w.descriptions, i, r);
    }
    LostByOne(w, w.discovery, Cut(w.descriptions, i), w.descriptions[i]);
    CachesChanged(live, loose, w, w.discovery, Cut(w.descriptions, i));
  }

  /** What the records hold that have left discovery. */
  ghost function Released(records: seq<Record>, before: seq<nat>, after: seq<nat>): set<nat> {
    set r: nat, t | r < |records| && r in before && r !in after && t in records[r].held :: t.id
  }

  lemma ReleasedNothing(records: seq<Record>, discovery: seq<nat>)
    ensures Released(records, discovery, discovery) == {}
  {
  }

  lemma ReleasedMore(records: seq<Record>, first: seq<nat>, before: seq<nat>, after: seq<nat>, r: nat)
    requires r < |records| && r in first && r in before && forall q :: q in after <==> q in before && q != r
    ensures Released(records, first, after) == Released(records, first, before) + Ids(records[r].held)
  {
    forall id
      ensures id in Released(records, first, after) <==> id in Released(records, first, before) + Ids(records[r].held)
    {
    }
  }

  /** Records may leave discovery only when nobody uses or produces them. */
  ghost predicate Trimmed(before: seq<nat>, after: seq<nat>, records: seq<Record>) {
    && (forall r | r in after :: r in before)
    && (forall r: nat | r < |records| && r in before && !Idle(records[r]) :: r in after)
  }

  lemma TrimmedNothing(discovery: seq<nat>, records: seq<Record>)
    ensures Trimmed(discovery, discovery, records)
  {
  }

  lemma TrimmedMore(before: seq<nat>, after: seq<nat>, records: seq<Record>, i: nat)
    requires Trimmed(before, after, records) && i < |after| && after[i] < |records| && Idle(records[after[i]])
    ensures Trimmed(before, Cut(after, i), records)
  {
    hide Idle, Cut;
    forall r | r in Cut(after, i)
      ensures r in before
    {
      CutMembers(after, i, r);
    }
    forall r: nat | r < |records| && r in before && !Idle(records[r])
      ensures r in Cut(after, i)
    {
      CutMembers(after, i, r);
    }
  }

  lemma DiscoveryMember(records: seq<Record>, discovery: seq<nat>, descriptions: seq<nat>, leaving: int, i: nat)
    requires CachedOk(records, discovery, descriptions, leaving) && i < |discovery|
    ensures discovery[i] < |records| && records[discovery[i]].discovery
    ensures discovery[i] !in descriptions
  {
  }
}
