/** Catalog snapshots: reservations, eviction and publication within one policy
    (src/core/catalog-snapshot-store.ts). */
module CatalogStore {
  import opened Utf16
  import opened CatalogPages
  import opened CatalogWalk
  import opened Wrappers

  datatype Policy = Policy(
    maxSnapshots: int, maxBytes: int, maxNodes: int, reservationBytes: int, reservationNodes: int,
    softExpiry: int, idle: int, absolute: int)

  predicate PolicyOk(p: Policy) {
    && p.maxSnapshots > 0 && p.maxBytes > 0 && p.maxNodes > 0 && p.reservationBytes > 0 && p.reservationNodes > 0
    && p.softExpiry > 0 && p.idle > 0 && p.absolute > 0
  }

  const MAX_DEPENDENCIES := 256

  datatype Snapshot = Snapshot(
    id: nat, dependencies: set<nat>, published: Option<Publication>, bytes: int, nodes: int,
    created: int, touched: int, expires: int)

  // ----- the snapshots in the order they were reserved

  function Bytes(s: seq<Snapshot>): int {
    if s == [] then 0 else s[0].bytes + Bytes(s[1..])
  }

  function NodesHeld(s: seq<Snapshot>): int {
    if s == [] then 0 else s[0].nodes + NodesHeld(s[1..])
  }

  lemma {:induction false} SumsSplit(a: seq<Snapshot>, b: seq<Snapshot>)
    ensures Bytes(a + b) == Bytes(a) + Bytes(b) && NodesHeld(a + b) == NodesHeld(a) + NodesHeld(b)
  {
    if a == [] {
      assert a + b == b;
    } else {
      assert (a + b)[1..] == a[1..] + b;
      SumsSplit(a[1..], b);
    }
  }

  lemma SumsOfOne(t: Snapshot)
    ensures Bytes([t]) == t.bytes && NodesHeld([t]) == t.nodes
  {
  }

  /** Where the snapshot of that id stands, or the length if it is not held. */
  function At(s: seq<Snapshot>, id: nat): (i: nat)
    ensures i <= |s| && (i < |s| ==> s[i].id == id)
  {
    if s == [] || s[0].id == id then 0 else 1 + At(s[1..], id)
  }

  predicate Holds(s: seq<Snapshot>, id: nat) { At(s, id) < |s| }

  function Drop(s: seq<Snapshot>, i: nat): seq<Snapshot>
    requires i < |s|
  {
    s[..i] + s[i + 1..]
  }

  function Without(s: seq<Snapshot>, id: nat): seq<Snapshot> {
    if Holds(s, id) then Drop(s, At(s, id)) else s
  }

  predicate Stale(p: Policy, t: Snapshot, now: int, current: nat -> bool) {
    (exists d | d in t.dependencies :: !current(d)) || now - t.created >= p.absolute || now - t.touched >= p.idle
  }

  function Live(p: Policy, s: seq<Snapshot>, now: int, current: nat -> bool): seq<Snapshot> {
    if s == [] then []
    else if Stale(p, s[0], now, current) then Live(p, s[1..], now, current)
    else [s[0]] + Live(p, s[1..], now, current)
  }

  function Unpublished(s: seq<Snapshot>): seq<Snapshot> {
    if s == [] then []
    else if s[0].published.None? then [s[0]] + Unpublished(s[1..])
    else Unpublished(s[1..])
  }

  // ----- what every operation keeps

  ghost predicate SnapshotOk(p: Policy, nextId: nat, t: Snapshot) {
    && t.id < nextId
    && 0 <= t.bytes <= p.reservationBytes && 0 <= t.nodes <= p.reservationNodes
    && (t.published.None? ==> t.bytes == p.reservationBytes && t.nodes == p.reservationNodes)
    && |t.dependencies| <= MAX_DEPENDENCIES && |t.dependencies| * 64 <= p.reservationBytes && |t.dependencies| <= p.reservationNodes
    && (t.published.Some? && Describes(t.published.value.catalog) ==> |t.published.value.entries| == 1)
  }

  ghost predicate AllOk(p: Policy, nextId: nat, s: seq<Snapshot>) {
    forall i | 0 <= i < |s| :: SnapshotOk(p, nextId, s[i])
  }

  ghost predicate Ordered(s: seq<Snapshot>) {
    forall i, j | 0 <= i < j < |s| :: s[i].id < s[j].id
  }

  /** Count, bytes and nodes are within the policy. */
  ghost predicate Within(p: Policy, s: seq<Snapshot>) {
    |s| <= p.maxSnapshots && Bytes(s) <= p.maxBytes && NodesHeld(s) <= p.maxNodes
  }

  /** A reservation that is still active has not been published. */
  ghost predicate Awaiting(s: seq<Snapshot>, active: set<nat>) {
    forall i | 0 <= i < |s| :: s[i].id in active ==> s[i].published.None?
  }

  ghost predicate StoreOk(p: Policy, s: seq<Snapshot>, active: set<nat>, nextId: nat, closed: bool) {
    && PolicyOk(p) && AllOk(p, nextId, s) && Ordered(s) && Within(p, s) && Awaiting(s, active)
    && (forall id | id in active :: id < nextId)
    && (closed ==> s == [])
  }

  lemma DropKeepsOk(p: Policy, s: seq<Snapshot>, active: set<nat>, nextId: nat, closed: bool, i: nat)
    requires StoreOk(p, s, active, nextId, closed) && i < |s|
    ensures StoreOk(p, Drop(s, i), active, nextId, closed)
    ensures Bytes(Drop(s, i)) == Bytes(s) - s[i].bytes && NodesHeld(Drop(s, i)) == NodesHeld(s) - s[i].nodes
  {
    hide SnapshotOk, Bytes, NodesHeld, PolicyOk;
    DropSums(s, i);
    var rest := Drop(s, i);
    forall k | 0 <= k < |rest|
      ensures rest[k] == s[if k < i then k else k + 1]
    {
    }
    assert SnapshotOk(p, nextId, s[i]);
    ChargeIsPositive(p, nextId, s[i]);
  }

  lemma ChargeIsPositive(p: Policy, nextId: nat, t: Snapshot)
    requires SnapshotOk(p, nextId, t)
    ensures t.bytes >= 0 && t.nodes >= 0
  {
  }

  lemma DropSums(s: seq<Snapshot>, i: nat)
    requires i < |s|
    ensures Bytes(Drop(s, i)) == Bytes(s) - s[i].bytes && NodesHeld(Drop(s, i)) == NodesHeld(s) - s[i].nodes
  {
    hide Bytes, NodesHeld;
    assert s == s[..i] + ([s[i]] + s[i + 1..]);
    SumsSplit(s[..i], [s[i]] + s[i + 1..]);
    SumsSplit([s[i]], s[i + 1..]);
    SumsSplit(s[..i], s[i + 1..]);
    SumsOfOne(s[i]);
  }

  /** A snapshot may be replaced by one that is charged no more. */
  lemma UpdateKeepsOk(p: Policy, s: seq<Snapshot>, active: set<nat>, nextId: nat, closed: bool, i: nat, t: Snapshot, still: set<nat>)
    requires StoreOk(p, s, active, nextId, closed) && i < |s|
    requires SnapshotOk(p, nextId, t) && t.id == s[i].id && t.bytes <= s[i].bytes && t.nodes <= s[i].nodes
    requires still <= active && (t.published.Some? ==> t.id !in still)
    ensures StoreOk(p, s[i := t], still, nextId, closed)
  {
    hide SnapshotOk, Bytes, NodesHeld, PolicyOk;
    var more := s[i := t];
    assert Drop(more, i) == Drop(s, i);
    DropSums(s, i);
    DropSums(more, i);
    forall k | 0 <= k < |more|
      ensures more[k] == if k == i then t else s[k]
    {
    }
  }

  lemma AppendKeepsOk(p: Policy, s: seq<Snapshot>, active: set<nat>, nextId: nat, closed: bool, t: Snapshot)
    requires StoreOk(p, s, active, nextId, closed) && !closed
    requires SnapshotOk(p, nextId + 1, t) && t.id == nextId && t.published.None?
    requires |s| < p.maxSnapshots && Bytes(s) + t.bytes <= p.maxBytes && NodesHeld(s) + t.nodes <= p.maxNodes
    ensures StoreOk(p, s + [t], active + {nextId}, nextId + 1, closed)
  {
    hide Bytes, NodesHeld, PolicyOk, SnapshotOk;
    SumsSplit(s, [t]);
    SumsOfOne(t);
    forall k | 0 <= k < |s|
      ensures s[k].id < nextId && SnapshotOk(p, nextId + 1, s[k])
    {
      LaterOk(p, nextId, s[k]);
    }
  }

  lemma LaterOk(p: Policy, nextId: nat, t: Snapshot)
    requires SnapshotOk(p, nextId, t)
    ensures SnapshotOk(p, nextId + 1, t) && t.id < nextId
  {
  }

  lemma FewerActiveOk(p: Policy, s: seq<Snapshot>, active: set<nat>, nextId: nat, closed: bool, still: set<nat>)
    requires StoreOk(p, s, active, nextId, closed) && still <= active
    ensures StoreOk(p, s, still, nextId, closed)
  {
    hide Within, PolicyOk, AllOk, Ordered;
  }

  // ----- eviction

  /** Room for one more reservation. */
  predicate Room(p: Policy, s: seq<Snapshot>) {
    && |s| < p.maxSnapshots
    && p.reservationBytes + Bytes(s) <= p.maxBytes
    && p.reservationNodes + NodesHeld(s) <= p.maxNodes
  }

  /** Used less recently, or reserved first when used at the same time. */
  predicate Older(a: Snapshot, b: Snapshot) {
    a.touched < b.touched || (a.touched == b.touched && a.id < b.id)
  }

  predicate IsOldest(s: seq<Snapshot>, i: nat)
    requires i < |s|
  {
    s[i].published.Some? && forall j | 0 <= j < |s| && j != i && s[j].published.Some? :: Older(s[i], s[j])
  }

  /** The published snapshot that a stable sort by last use puts first, or the length if none is
      published. */
  function Oldest(s: seq<Snapshot>): (i: nat)
    ensures i <= |s| && (i < |s| ==> s[i].published.Some?)
  {
    if s == [] then 0
    else
      var later := 1 + Oldest(s[1..]);
      if s[0].published.Some? && (later == |s| || s[0].touched <= s[later].touched) then 0 else later
  }

  /** What is left once published snapshots made room, or all of them are gone. */
  function Evicted(p: Policy, s: seq<Snapshot>): seq<Snapshot>
    decreases |s|
  {
    if Room(p, s) || Oldest(s) == |s| then s else Evicted(p, Drop(s, Oldest(s)))
  }

  lemma {:induction false} OldestIsOldest(s: seq<Snapshot>)
    requires Ordered(s)
    ensures Oldest(s) < |s| ==> IsOldest(s, Oldest(s))
    ensures Oldest(s) == |s| ==> Unpublished(s) == s
  {
    if s != [] {
      var rest := s[1..];
      OldestIsOldest(rest);
      var i := Oldest(s);
      forall j | 0 <= j < |s| && i < |s| && j != i && s[j].published.Some?
        ensures Older(s[i], s[j])
      {
        if j > 0 {
          assert rest[j - 1] == s[j];
          if Oldest(rest) < |rest| && j - 1 != Oldest(rest) {
            assert Older(rest[Oldest(rest)], rest[j - 1]);
          }
          if Oldest(rest) == |rest| {
            NonePublished(rest, j - 1);
          }
        }
      }
    }
  }

  lemma {:induction false} NonePublished(s: seq<Snapshot>, j: nat)
    requires Unpublished(s) == s && j < |s|
    ensures s[j].published.None?
  {
    UnpublishedIsLess(s[1..]);
    if j > 0 {
      NonePublished(s[1..], j - 1);
    }
  }

  lemma {:induction false} UnpublishedIsLess(s: seq<Snapshot>)
    ensures |Unpublished(s)| <= |s|
  {
    if s != [] {
      UnpublishedIsLess(s[1..]);
    }
  }

  ghost predicate Charged(s: seq<Snapshot>) {
    forall i | 0 <= i < |s| :: s[i].bytes >= 0 && s[i].nodes >= 0
  }

  lemma {:induction false} UnpublishedChargeIsLess(s: seq<Snapshot>)
    requires Charged(s)
    ensures |Unpublished(s)| <= |s| && Bytes(Unpublished(s)) <= Bytes(s) && NodesHeld(Unpublished(s)) <= NodesHeld(s)
  {
    if s != [] {
      UnpublishedChargeIsLess(s[1..]);
    }
  }

  lemma {:induction false} UnpublishedSplits(a: seq<Snapshot>, b: seq<Snapshot>)
    ensures Unpublished(a + b) == Unpublished(a) + Unpublished(b)
  {
    if a == [] {
      assert a + b == b;
    } else {
      assert (a + b)[1..] == a[1..] + b;
      UnpublishedSplits(a[1..], b);
    }
  }

  lemma DropSpares(s: seq<Snapshot>, i: nat)
    requires i < |s| && s[i].published.Some?
    ensures Unpublished(Drop(s, i)) == Unpublished(s)
  {
    hide Unpublished;
    assert s == s[..i] + ([s[i]] + s[i + 1..]);
    UnpublishedSplits(s[..i], [s[i]] + s[i + 1..]);
    UnpublishedSplits([s[i]], s[i + 1..]);
    UnpublishedSplits(s[..i], s[i + 1..]);
    PublishedAlone(s[i]);
  }

  lemma PublishedAlone(t: Snapshot)
    requires t.published.Some?
    ensures Unpublished([t]) == []
  {
  }

  /** Eviction never removes an unpublished reservation. */
  lemma {:induction false} EvictionSparesReservations(p: Policy, s: seq<Snapshot>)
    ensures Unpublished(Evicted(p, s)) == Unpublished(s)
    decreases |s|
  {
    hide Unpublished, Room;
    if !Room(p, s) && Oldest(s) < |s| {
      DropSpares(s, Oldest(s));
      EvictionSparesReservations(p, Drop(s, Oldest(s)));
    }
  }

  lemma {:induction false} EvictionEnds(p: Policy, s: seq<Snapshot>)
    requires Charged(s) && Ordered(s)
    ensures Charged(Evicted(p, s)) && Ordered(Evicted(p, s))
    ensures Room(p, Evicted(p, s)) || Unpublished(Evicted(p, s)) == Evicted(p, s)
    decreases |s|
  {
    hide Unpublished, Room;
    OldestIsOldest(s);
    if !Room(p, s) && Oldest(s) < |s| {
      EvictionEnds(p, Drop(s, Oldest(s)));
    }
  }

  /** Eviction makes room exactly if the unpublished reservations leave room. */
  lemma EvictionMakesRoom(p: Policy, s: seq<Snapshot>)
    requires Charged(s) && Ordered(s)
    ensures Room(p, Evicted(p, s)) <==> Room(p, Unpublished(s))
  {
    hide Unpublished, Evicted;
    EvictionSparesReservations(p, s);
    EvictionEnds(p, s);
    UnpublishedChargeIsLess(Evicted(p, s));
  }

  lemma {:induction false} EvictedIsPart(p: Policy, s: seq<Snapshot>, t: Snapshot)
    requires t in Evicted(p, s)
    ensures t in s
    decreases |s|
  {
    if !Room(p, s) && Oldest(s) < |s| {
      EvictedIsPart(p, Drop(s, Oldest(s)), t);
    }
  }

  lemma DropMembers(s: seq<Snapshot>, i: nat, t: Snapshot)
    requires i < |s| && Ordered(s)
    ensures Ordered(Drop(s, i))
    ensures t in Drop(s, i) <==> t in s && t != s[i]
  {
    if t in s && t != s[i] {
      var k :| 0 <= k < |s| && s[k] == t;
      assert t == Drop(s, i)[if k < i then k else k - 1];
    }
  }

  lemma OldestComesFirst(s: seq<Snapshot>, t: Snapshot)
    requires Ordered(s) && Oldest(s) < |s| && t in s && t != s[Oldest(s)] && t.published.Some?
    ensures Older(s[Oldest(s)], t)
  {
    hide Oldest, Unpublished, Ordered, Older;
    OldestIsOldest(s);
  }

  /** The evicted snapshots are the least recently used: whatever goes is published, and older
      than every published one that stays. */
  lemma {:induction false} EvictsLeastRecent(p: Policy, s: seq<Snapshot>, gone: Snapshot, stays: Snapshot)
    requires Ordered(s) && gone in s && gone !in Evicted(p, s)
    ensures gone.published.Some?
    ensures stays in Evicted(p, s) && stays.published.Some? ==> Older(gone, stays)
    decreases |s|
  {
    hide Room, Unpublished, Older, Ordered, Drop, Oldest;
    if !Room(p, s) && Oldest(s) < |s| {
      var i := Oldest(s);
      var rest := Drop(s, i);
      DropLength(s, i);
      DropMembers(s, i, gone);
      if gone in rest {
        EvictsLeastRecent(p, rest, gone, stays);
      } else if stays in Evicted(p, s) && stays.published.Some? {
        EvictedIsPart(p, rest, stays);
        DropMembers(s, i, stays);
        OldestComesFirst(s, stays);
      }
    }
  }

  lemma DropLength(s: seq<Snapshot>, i: nat)
    requires i < |s|
    ensures |Drop(s, i)| == |s| - 1
  {
  }

  // ----- what a publication weighs

  datatype Query = Absent | Query(units: nat) | NotText

  datatype Weight = Weight(entries: seq<Entry>, bytes: int, nodes: int)

  function EntryBytes(e: Entry): nat { 2 * |e.text| + ByteLength(e.text) + 256 }

  function EntriesBytes(entries: seq<Entry>): nat {
    if entries == [] then 0 else EntryBytes(entries[0]) + EntriesBytes(entries[1..])
  }

  function StoredText(entries: seq<Entry>): Text {
    if entries == [] then [] else entries[0].text + StoredText(entries[1..])
  }

  function StoredBytes(entries: seq<Entry>): nat {
    if entries == [] then 0 else ByteLength(entries[0].text) + StoredBytes(entries[1..])
  }

  /** A publication is charged for its texts as they are kept, two bytes a unit, for their UTF-8
      form, and 256 bytes for each entry. */
  lemma {:induction false} EntriesCharge(entries: seq<Entry>)
    ensures EntriesBytes(entries) == 2 * |StoredText(entries)| + StoredBytes(entries) + 256 * |entries|
  {
    if entries != [] {
      EntriesCharge(entries[1..]);
    }
  }

  predicate AllRender(render: Value -> Option<Entry>, fields: seq<Field>) {
    fields == [] || (render(fields[0].value).Some? && AllRender(render, fields[1..]))
  }

  function Rendered(render: Value -> Option<Entry>, fields: seq<Field>): seq<Entry>
    requires AllRender(render, fields)
  {
    if fields == [] then [] else [render(fields[0].value).value] + Rendered(render, fields[1..])
  }

  function BaseBytes(dependencies: nat, nodes: int, query: Query): int {
    512 + dependencies * 64 + nodes * 32 + if query.Query? then query.units * 4 else 0
  }

  /** What publish promises to accept. The inventory itself takes no depth. */
  ghost predicate Publishable(p: Policy, dependencies: nat, catalog: Option<Catalog>, descriptors: Value, query: Query, render: Value -> Option<Entry>) {
    && catalog.Some? && !query.NotText?
    && descriptors.Composite? && descriptors.shape.Array?
    && Acceptable(descriptors, -1, {}, p.reservationNodes - dependencies, p.reservationBytes - dependencies * 64)
    && (Describes(catalog.value) ==> |descriptors.fields| == 1)
    && AllRender(render, descriptors.fields)
    && BaseBytes(dependencies, dependencies + Nodes(descriptors), query) + EntriesBytes(Rendered(render, descriptors.fields)) <= p.reservationBytes
  }

  /** Neither the walk nor the running totals refuse a catalog whose whole weight is within the
      reservation. */
  method Weigh(p: Policy, dependencies: nat, catalog: Option<Catalog>, descriptors: Value, query: Query, render: Value -> Option<Entry>)
    returns (weight: Option<Weight>)
    requires PolicyOk(p) && dependencies * 64 <= p.reservationBytes && dependencies <= p.reservationNodes
    ensures weight.Some? <==> Publishable(p, dependencies, catalog, descriptors, query, render)
    ensures weight.Some? ==>
              && weight.value.nodes == dependencies + Nodes(descriptors) <= p.reservationNodes
              && weight.value.bytes == BaseBytes(dependencies, weight.value.nodes, query) + EntriesBytes(weight.value.entries) <= p.reservationBytes
              && weight.value.entries == Rendered(render, descriptors.fields)
  {
    hide Acceptable, PolicyOk, Nodes, AllRender, Rendered, EntriesBytes;
    if catalog.None? || query.NotText? || !descriptors.Composite? || !descriptors.shape.Array? {
      return None;
    }
    var walk := new Walk(p.reservationNodes, p.reservationBytes, dependencies, dependencies * 64);
    var admitted := walk.Visit(descriptors, -1);
    if !admitted || (Describes(catalog.value) && |descriptors.fields| != 1) {
      return None;
    }
    var base := BaseBytes(dependencies, walk.nodes, query);
    var entries := Render(descriptors.fields, render, base, p.reservationBytes);
    if entries.None? {
      return None;
    }
    return Some(Weight(entries.value, base + EntriesBytes(entries.value), walk.nodes));
  }

  method Render(fields: seq<Field>, render: Value -> Option<Entry>, base: int, limit: int) returns (entries: Option<seq<Entry>>)
    ensures entries.Some? <==> AllRender(render, fields) && base + EntriesBytes(Rendered(render, fields)) <= limit
    ensures entries.Some? ==> entries.value == Rendered(render, fields)
  {
    hide *;
    RenderedNothing(render);
    var bytes, done := base, [];
    if bytes > limit {
      return None;
    }
    var i := 0;
    while i < |fields|
      invariant 0 <= i <= |fields|
      invariant AllRender(render, fields) <==> AllRender(render, fields[i..])
      invariant AllRender(render, fields) ==>
                  && Rendered(render, fields) == done + Rendered(render, fields[i..])
                  && base + EntriesBytes(Rendered(render, fields)) == bytes + EntriesBytes(Rendered(render, fields[i..]))
      invariant bytes <= limit
    {
      RenderedStep(render, fields, i);
      var rendered := render(fields[i].value);
      if rendered.None? {
        return None;
      }
      bytes := bytes + EntryBytes(rendered.value);
      if bytes > limit {
        return None;
      }
      done := done + [rendered.value];
      i := i + 1;
    }
    assert fields[i..] == [];
    return Some(done);
  }

  lemma RenderedNothing(render: Value -> Option<Entry>)
    ensures AllRender(render, []) && Rendered(render, []) == [] && EntriesBytes([]) == 0
  {
  }

  lemma RenderedStep(render: Value -> Option<Entry>, fields: seq<Field>, i: nat)
    requires i < |fields|
    ensures AllRender(render, fields[i..]) <==> render(fields[i].value).Some? && AllRender(render, fields[i + 1..])
    ensures AllRender(render, fields[i..]) ==>
              && Rendered(render, fields[i..]) == [render(fields[i].value).value] + Rendered(render, fields[i + 1..])
              && EntriesBytes(Rendered(render, fields[i..])) == EntryBytes(render(fields[i].value).value) + EntriesBytes(Rendered(render, fields[i + 1..]))
  {
    hide EntryBytes;
    assert fields[i..][1..] == fields[i + 1..];
  }

  // ----- the store

  datatype Reserved = Reserved(id: nat) | ReserveQuota | ReserveUnavailable

  datatype Depended = Depended | DependQuota | DependUnavailable

  datatype Published = Published(cursor: Cursor) | PublishQuota | PublishUnavailable

  predicate AllCurrent(dependencies: seq<nat>, current: nat -> bool) {
    forall d | d in dependencies :: current(d)
  }

  /** What reserve checks before it looks at the snapshots. */
  predicate Admissible(p: Policy, dependencies: seq<nat>) {
    && |dependencies| <= MAX_DEPENDENCIES
    && |dependencies| * 64 <= p.reservationBytes && |dependencies| <= p.reservationNodes
    && p.reservationBytes <= p.maxBytes && p.reservationNodes <= p.maxNodes
  }

  function Fresh(p: Policy, id: nat, dependencies: set<nat>, now: int): Snapshot {
    Snapshot(id, dependencies, None, p.reservationBytes, p.reservationNodes, now, now, now + p.softExpiry)
  }

  function AsSet(dependencies: seq<nat>): set<nat> {
    set d | d in dependencies
  }

  function Combined(t: Snapshot, dependencies: seq<nat>): set<nat> {
    t.dependencies + AsSet(dependencies)
  }

  predicate Dependable(p: Policy, t: Snapshot, dependencies: seq<nat>) {
    && |dependencies| <= MAX_DEPENDENCIES
    && |Combined(t, dependencies)| <= MAX_DEPENDENCIES && |Combined(t, dependencies)| * 64 <= p.reservationBytes
    && |Combined(t, dependencies)| <= p.reservationNodes
  }

  function FirstCursor(key: nat, t: Snapshot, catalog: Catalog): Cursor {
    Signed(key, t.id, catalog, if Describes(catalog) then 0 else -1, 0, t.expires)
  }

  /** The cursor was signed by this store since it last changed its key, and the publication it
      points into is still held. */
  predicate Opens(s: seq<Snapshot>, key: nat, c: Cursor) {
    && c.Signed? && c.key == key && Holds(s, c.id)
    && s[At(s, c.id)].published.Some? && Addresses(s[At(s, c.id)].published.value, c)
  }

  function Touch(p: Policy, t: Snapshot, now: int): Snapshot {
    t.(touched := now, expires := if t.expires <= now then now + p.softExpiry else t.expires)
  }

  datatype PageResult<+T> = Delivered(value: T) | PageUnavailable | PageBudget

  predicate BudgetOk(maxBytes: Option<int>, maxChars: int) {
    (maxBytes.Some? ==> 1000 <= maxBytes.value <= 2_000_000) && maxChars >= 1000
  }

  function BudgetOf(maxBytes: Option<int>, maxChars: int): Budget {
    Budget(if maxBytes.Some? then maxBytes.value else 65536, if maxChars < 2_000_000 then maxChars else 2_000_000)
  }

  predicate LimitOk(limit: Option<int>) { limit.Some? ==> 1 <= limit.value <= 100 }

  function LimitOf(limit: Option<int>): nat
    requires LimitOk(limit)
  {
    if limit.Some? then limit.value else 30
  }

  function SourceOf(key: nat, t: Snapshot): Source
    requires t.published.Some?
  {
    Source(key, t.id, t.published.value, t.expires)
  }

  // ----- publications are final

  /** The later snapshots are earlier ones, with what those had published, or new ones. */
  ghost predicate Continues(before: seq<Snapshot>, nextId: nat, after: seq<Snapshot>) {
    forall t | t in after :: t.id >= nextId || Descends(before, t)
  }

  ghost predicate Descends(before: seq<Snapshot>, t: Snapshot) {
    exists b :: b in before && b.id == t.id && (b.published.Some? ==> t.published == b.published)
  }

  /** A cursor that still opens opens the publication it did. */
  lemma CursorMeansTheSame(before: seq<Snapshot>, nextId: nat, after: seq<Snapshot>, key: nat, c: Cursor)
    requires Continues(before, nextId, after) && Ordered(before)
    requires c.Signed? && c.id < nextId && Opens(before, key, c) && Opens(after, key, c)
    ensures after[At(after, c.id)].published == before[At(before, c.id)].published
  {
    hide Addresses, At;
    var t := after[At(after, c.id)];
    assert Descends(before, t);
    var b :| b in before && b.id == t.id && (b.published.Some? ==> t.published == b.published);
    var i :| 0 <= i < |before| && before[i] == b;
    AtIsIndex(before, i);
  }

  lemma ContinuesOn(a: seq<Snapshot>, n: nat, b: seq<Snapshot>, m: nat, c: seq<Snapshot>)
    requires Continues(a, n, b) && Continues(b, m, c) && n <= m
    ensures Continues(a, n, c)
  {
    forall t | t in c && t.id < n
      ensures Descends(a, t)
    {
      assert Descends(b, t);
      var u :| u in b && u.id == t.id && (u.published.Some? ==> t.published == u.published);
      assert Descends(a, u);
    }
  }

  /** What the store holds between two operations. */
  datatype Moment = Moment(snapshots: seq<Snapshot>, nextId: nat)

  ghost predicate Follows(moments: seq<Moment>, k: nat)
    requires 0 < k < |moments|
  {
    moments[k - 1].nextId <= moments[k].nextId && Continues(moments[k - 1].snapshots, moments[k - 1].nextId, moments[k].snapshots)
  }

  /** Each moment continues the one before, as every operation ensures. */
  ghost predicate IsHistory(moments: seq<Moment>) {
    forall k | 0 < k < |moments| :: Follows(moments, k)
  }

  lemma {:induction false} HistoryContinues(moments: seq<Moment>, i: nat, j: nat)
    requires IsHistory(moments) && i <= j < |moments|
    ensures moments[i].nextId <= moments[j].nextId && Continues(moments[i].snapshots, moments[i].nextId, moments[j].snapshots)
    decreases j
  {
    hide Continues;
    var first := moments[i];
    if i == j {
      PartContinues(first.snapshots, first.nextId, first.snapshots);
    } else {
      HistoryContinues(moments, i, j - 1);
      assert Follows(moments, j);
      ContinuesOn(first.snapshots, first.nextId, moments[j - 1].snapshots, moments[j - 1].nextId, moments[j].snapshots);
    }
  }

  /** Over any run, a cursor that opens at two moments opens the same publication. */
  lemma CursorMeansTheSameForEver(moments: seq<Moment>, i: nat, j: nat, key: nat, c: Cursor)
    requires IsHistory(moments) && i <= j < |moments| && Ordered(moments[i].snapshots)
    requires c.Signed? && c.id < moments[i].nextId
    requires Opens(moments[i].snapshots, key, c) && Opens(moments[j].snapshots, key, c)
    ensures var before, after := moments[i].snapshots, moments[j].snapshots;
            after[At(after, c.id)].published == before[At(before, c.id)].published
  {
    hide Continues, Opens, At, Ordered;
    HistoryContinues(moments, i, j);
    CursorMeansTheSame(moments[i].snapshots, moments[i].nextId, moments[j].snapshots, key, c);
  }

  lemma PartContinues(s: seq<Snapshot>, n: nat, part: seq<Snapshot>)
    requires forall t | t in part :: t in s
    ensures Continues(s, n, part)
  {
    forall t | t in part
      ensures Descends(s, t)
    {
    }
  }

  lemma {:induction false} LiveIsPart(p: Policy, s: seq<Snapshot>, now: int, current: nat -> bool, t: Snapshot)
    requires t in Live(p, s, now, current)
    ensures t in s
  {
    hide Stale;
    if t != s[0] {
      LiveIsPart(p, s[1..], now, current, t);
    }
  }

  /** What stays: every dependency is current, and it is neither too old nor unused for too long. */
  lemma {:induction false} LiveMeans(p: Policy, s: seq<Snapshot>, now: int, current: nat -> bool)
    ensures forall t :: t in Live(p, s, now, current) <==>
              t in s && (forall d | d in t.dependencies :: current(d)) && now - t.created < p.absolute && now - t.touched < p.idle
  {
    if s != [] {
      LiveMeans(p, s[1..], now, current);
      assert forall t :: t in s <==> t == s[0] || t in s[1..];
    }
  }

  lemma {:induction false} UnpublishedMembers(s: seq<Snapshot>)
    ensures forall t :: t in Unpublished(s) <==> t in s && t.published.None?
  {
    if s != [] {
      UnpublishedMembers(s[1..]);
      assert forall t :: t in s <==> t == s[0] || t in s[1..];
    }
  }

  lemma {:induction false} UnpublishedCharge(p: Policy, nextId: nat, s: seq<Snapshot>)
    requires AllOk(p, nextId, s)
    ensures Bytes(Unpublished(s)) == |Unpublished(s)| * p.reservationBytes && NodesHeld(Unpublished(s)) == |Unpublished(s)| * p.reservationNodes
  {
    if s != [] {
      assert SnapshotOk(p, nextId, s[0]);
      var rest := Unpublished(s[1..]);
      UnpublishedCharge(p, nextId, s[1..]);
      if s[0].published.None? {
        ChargeOneMore(p, s[0], rest);
      }
    }
  }

  lemma ChargeOneMore(p: Policy, t: Snapshot, rest: seq<Snapshot>)
    requires t.bytes == p.reservationBytes && t.nodes == p.reservationNodes
    requires Bytes(rest) == |rest| * p.reservationBytes && NodesHeld(rest) == |rest| * p.reservationNodes
    ensures Bytes([t] + rest) == |[t] + rest| * p.reservationBytes && NodesHeld([t] + rest) == |[t] + rest| * p.reservationNodes
  {
    assert ([t] + rest)[1..] == rest;
    assert (|rest| + 1) * p.reservationBytes == |rest| * p.reservationBytes + p.reservationBytes;
    assert (|rest| + 1) * p.reservationNodes == |rest| * p.reservationNodes + p.reservationNodes;
  }

  /** The unpublished reservations leave room exactly if one more of their kind is within the policy. */
  lemma RoomByCount(p: Policy, s: seq<Snapshot>, active: set<nat>, nextId: nat, closed: bool)
    requires StoreOk(p, s, active, nextId, closed)
    ensures var n := |Unpublished(s)| + 1;
            Room(p, Unpublished(s)) <==> n <= p.maxSnapshots && n * p.reservationBytes <= p.maxBytes && n * p.reservationNodes <= p.maxNodes
  {
    hide AllOk, Ordered, Within, Awaiting, Unpublished;
    UnpublishedCharge(p, nextId, s);
  }

  lemma LiveContinues(p: Policy, s: seq<Snapshot>, now: int, current: nat -> bool, n: nat)
    ensures Continues(s, n, Live(p, s, now, current))
  {
    hide *;
    forall t | t in Live(p, s, now, current)
      ensures t in s
    {
      LiveIsPart(p, s, now, current, t);
    }
    PartContinues(s, n, Live(p, s, now, current));
  }

  lemma EvictedContinues(p: Policy, s: seq<Snapshot>, n: nat)
    ensures Continues(s, n, Evicted(p, s))
  {
    hide *;
    forall t | t in Evicted(p, s)
      ensures t in s
    {
      EvictedIsPart(p, s, t);
    }
    PartContinues(s, n, Evicted(p, s));
  }

  lemma WithoutContinues(s: seq<Snapshot>, n: nat, id: nat)
    ensures Continues(s, n, Without(s, id))
  {
    hide Continues;
    PartContinues(s, n, Without(s, id));
  }

  lemma UpdateContinues(s: seq<Snapshot>, n: nat, i: nat, t: Snapshot)
    requires i < |s| && t.id == s[i].id && (s[i].published.Some? ==> t.published == s[i].published)
    ensures Continues(s, n, s[i := t])
  {
    forall u | u in s[i := t]
      ensures Descends(s, u)
    {
      if u == t {
        assert s[i] in s;
      } else {
        assert u in s;
      }
    }
  }

  lemma AppendContinues(s: seq<Snapshot>, t: Snapshot)
    ensures Continues(s, t.id, s + [t])
  {
    forall u | u in s + [t] && u != t
      ensures Descends(s, u)
    {
      assert u in s;
    }
  }

  class Store {
    const policy: Policy
    var key: nat
    var closed: bool
    // insertion order, as a Map has it; ids are random and never repeat: here they are numbered
    var snapshots: seq<Snapshot>
    var nextId: nat
    // the flags that the reservations close over: those that are still set
    var active: set<nat>

    ghost predicate Valid()
      reads this
    {
      StoreOk(policy, snapshots, active, nextId, closed)
    }

    constructor (policy: Policy)
      requires PolicyOk(policy)
      ensures Valid() && this.policy == policy && snapshots == [] && !closed && active == {}
    {
      this.policy, key, closed, snapshots, nextId, active := policy, 0, false, [], 0, {};
    }

    method Prune(now: int, current: nat -> bool)
      requires Valid()
      modifies this`snapshots
      ensures Valid() && snapshots == Live(policy, old(snapshots), now, current)
      ensures forall t :: t in snapshots <==>
                && t in old(snapshots) && (forall d | d in t.dependencies :: current(d))
                && now - t.created < policy.absolute && now - t.touched < policy.idle
      ensures Continues(old(snapshots), old(nextId), snapshots)
    {
      hide *;
      ValidMeans();
      var i := 0;
      assert snapshots[0..] == snapshots && snapshots[..0] == [];
      while i < |snapshots|
        invariant 0 <= i <= |snapshots|
        invariant StoreOk(policy, snapshots, active, nextId, closed)
        invariant snapshots[..i] + Live(policy, snapshots[i..], now, current) == Live(policy, old(snapshots), now, current)
        decreases |snapshots| - i
      {
        LiveStep(policy, snapshots, i, now, current);
        if Stale(policy, snapshots[i], now, current) {
          DropKeepsOk(policy, snapshots, active, nextId, closed, i);
          DropParts(snapshots, i);
          snapshots := Drop(snapshots, i);
        } else {
          i := i + 1;
        }
      }
      LiveNothing(policy, now, current);
      assert snapshots[i..] == [];
      assert snapshots[..i] == snapshots;
      LiveMeans(policy, old(snapshots), now, current);
      LiveContinues(policy, old(snapshots), now, current, nextId);
      ValidMeans();
    }

    /** Old published snapshots give way until the reservation fits. It is refused only for what
        its dependencies are, or because the unpublished reservations alone leave no room. */
    method Reserve(dependencies: seq<nat>, now: int, current: nat -> bool, later: int) returns (r: Reserved)
      requires Valid()
      modifies this
      ensures Valid() && key == old(key) && closed == old(closed)
      ensures var live := Live(policy, old(snapshots), now, current);
              && (r.Reserved? <==> !closed && AllCurrent(dependencies, current) && Admissible(policy, dependencies) && Room(policy, Unpublished(live)))
              && (r.ReserveUnavailable? <==> |dependencies| <= MAX_DEPENDENCIES && (closed || !AllCurrent(dependencies, current)))
              && (r.Reserved? ==>
                    && r.id == old(nextId) && nextId == r.id + 1 && active == old(active) + {r.id}
                    && snapshots == Evicted(policy, live) + [Fresh(policy, r.id, AsSet(dependencies), later)])
              && (!r.Reserved? ==> nextId == old(nextId) && active == old(active)
                                   && (snapshots == old(snapshots) || snapshots == live || snapshots == Unpublished(live)))
      ensures var waiting := |Unpublished(Live(policy, old(snapshots), now, current))|;
              r.Reserved? <==>
                && !closed && (forall d | d in dependencies :: current(d))
                && |dependencies| <= 256 && |dependencies| * 64 <= policy.reservationBytes && |dependencies| <= policy.reservationNodes
                && waiting + 1 <= policy.maxSnapshots
                && (waiting + 1) * policy.reservationBytes <= policy.maxBytes && (waiting + 1) * policy.reservationNodes <= policy.maxNodes
      ensures r.Reserved? ==>
                && snapshots != []
                && var t := snapshots[|snapshots| - 1];
                   && t.id == r.id && t.published.None? && t.bytes == policy.reservationBytes && t.nodes == policy.reservationNodes
                   && t.created == t.touched == later && t.expires == later + policy.softExpiry
                   && forall d :: d in t.dependencies <==> d in dependencies
      ensures Continues(old(snapshots), old(nextId), snapshots)
    {
      hide *;
      PartContinues(snapshots, nextId, snapshots);
      UnfoldAdmissible(policy, dependencies);
      AdmissibleByCount(policy, dependencies, current, |Unpublished(Live(policy, snapshots, now, current))|);
      if |dependencies| > MAX_DEPENDENCIES {
        return ReserveQuota;
      }
      if !AllCurrent(dependencies, current) || closed {
        return ReserveUnavailable;
      }
      Prune(now, current);
      var p := policy;
      if |dependencies| * 64 > p.reservationBytes || |dependencies| > p.reservationNodes {
        return ReserveQuota;
      }
      if p.reservationBytes > p.maxBytes || p.reservationNodes > p.maxNodes {
        return ReserveQuota;
      }
      ghost var live := snapshots;
      ValidMeans();
      OkMeansCharged(p, live, active, nextId, closed);
      RoomByCount(p, live, active, nextId, closed);
      var room := Evict();
      ValidMeans();
      EvictionOutcome(p, live, active, nextId, closed, snapshots);
      EvictedContinues(p, live, nextId);
      ContinuesOn(old(snapshots), nextId, live, nextId, snapshots);
      if !room {
        return ReserveQuota;
      }
      var fresh_ := Fresh(p, nextId, AsSet(dependencies), later);
      FreshFits(p, snapshots, active, nextId, closed, dependencies, later);
      FreshMeans(p, nextId, dependencies, later);
      FreshContinues(p, old(snapshots), snapshots, nextId, dependencies, later);
      snapshots := snapshots + [fresh_];
      r := Reserved(nextId);
      active := active + {nextId};
      nextId := nextId + 1;
      ValidMeans();
    }

    method Evict() returns (room: bool)
      requires Valid()
      modifies this`snapshots
      ensures Valid() && snapshots == Evicted(policy, old(snapshots))
      ensures room <==> Room(policy, snapshots)
    {
      hide *;
      ValidMeans();
      while !Room(policy, snapshots)
        invariant StoreOk(policy, snapshots, active, nextId, closed)
        invariant Evicted(policy, snapshots) == Evicted(policy, old(snapshots))
        decreases |snapshots|
      {
        EvictedStep(policy, snapshots);
        var oldest := Oldest(snapshots);
        if oldest == |snapshots| {
          ValidMeans();
          return false;
        }
        DropKeepsOk(policy, snapshots, active, nextId, closed, oldest);
        DropParts(snapshots, oldest);
        snapshots := Drop(snapshots, oldest);
      }
      EvictedStep(policy, snapshots);
      ValidMeans();
      return true;
    }

    lemma ValidMeans()
      ensures Valid() <==> StoreOk(policy, snapshots, active, nextId, closed)
    {
    }

    /** Adds dependencies to a reservation that is still held and active. Too many of them cost it
        its place. */
    method Depend(id: nat, dependencies: seq<nat>, now: int, current: nat -> bool, later: int, stillCurrent: nat -> bool)
      returns (r: Depended)
      requires Valid()
      modifies this
      ensures Valid() && key == old(key) && closed == old(closed) && nextId == old(nextId)
      ensures var live := Live(policy, old(snapshots), now, current);
              if id !in old(active) || !Holds(live, id) then
                r == DependUnavailable && snapshots == live && active == old(active)
              else if !Dependable(policy, live[At(live, id)], dependencies) then
                r == DependQuota && snapshots == Without(live, id) && active == old(active) - {id}
              else
                var t := live[At(live, id)];
                && snapshots == Live(policy, live[At(live, id) := t.(dependencies := Combined(t, dependencies))], later, stillCurrent)
                && active == old(active)
                && (r == if Holds(snapshots, id) then Depended else DependUnavailable)
      ensures r.Depended? ==> |dependencies| <= 256 && forall t | t in snapshots && t.id == id :: DependsMore(policy, old(snapshots), t, dependencies)
      ensures Continues(old(snapshots), old(nextId), snapshots)
    {
      hide *;
      Prune(now, current);
      ghost var live := snapshots;
      if id !in active || !Holds(snapshots, id) {
        HoldsMeans(snapshots, id);
        return DependUnavailable;
      }
      HoldsMeans(snapshots, id);
      var i := At(snapshots, id);
      UnfoldDependable(policy, snapshots[i], dependencies);
      if |dependencies| > MAX_DEPENDENCIES {
        Discard(id);
        ContinuesOn(old(snapshots), nextId, live, nextId, snapshots);
        return DependQuota;
      }
      var combined := Combined(snapshots[i], dependencies);
      if |combined| > MAX_DEPENDENCIES || |combined| * 64 > policy.reservationBytes || |combined| > policy.reservationNodes {
        Discard(id);
        ContinuesOn(old(snapshots), nextId, live, nextId, snapshots);
        return DependQuota;
      }
      ValidMeans();
      assert StoreOk(policy, live, active, nextId, closed);
      CombinedKeepsOk(policy, snapshots, active, nextId, closed, i, combined);
      UpdateContinues(live, nextId, i, live[i].(dependencies := combined));
      snapshots := snapshots[i := snapshots[i].(dependencies := combined)];
      ContinuesOn(old(snapshots), nextId, live, nextId, snapshots);
      ghost var updated := snapshots;
      ValidMeans();
      Prune(later, stillCurrent);
      ContinuesOn(old(snapshots), nextId, updated, nextId, snapshots);
      OkMeansCharged(policy, live, active, nextId, closed);
      DependedMeans(policy, old(snapshots), live, i, dependencies, snapshots, now, current, later, stillCurrent);
      r := if Holds(snapshots, id) then Depended else DependUnavailable;
    }

    method Discard(id: nat)
      requires Valid()
      modifies this`snapshots, this`active
      ensures Valid() && snapshots == Without(old(snapshots), id) && active == old(active) - {id}
      ensures Continues(old(snapshots), old(nextId), snapshots)
    {
      hide *;
      WithoutContinues(snapshots, nextId, id);
      ValidMeans();
      WithoutKeepsOk(policy, snapshots, active, nextId, closed, id);
      snapshots := Without(snapshots, id);
      FewerActiveOk(policy, snapshots, active, nextId, closed, active - {id});
      active := active - {id};
      ValidMeans();
    }

    method Release(id: nat)
      requires Valid()
      modifies this`snapshots, this`active
      ensures Valid() && active == old(active) - {id}
      ensures snapshots == if id in old(active) then Without(old(snapshots), id) else old(snapshots)
      ensures Continues(old(snapshots), old(nextId), snapshots)
    {
      hide *;
      PartContinues(snapshots, nextId, snapshots);
      if id in active {
        Discard(id);
      }
    }

    /** Publishing shrinks the reservation to what the catalog weighs, or gives its place up. */
    method Publish(id: nat, catalog: Option<Catalog>, descriptors: Value, query: Query, render: Value -> Option<Entry>,
                   now: int, current: nat -> bool, later: int)
      returns (r: Published)
      requires Valid()
      modifies this
      ensures Valid() && key == old(key) && closed == old(closed) && nextId == old(nextId)
      ensures var live := Live(policy, old(snapshots), now, current);
              if id !in old(active) || !Holds(live, id) then
                r == PublishUnavailable && snapshots == live && active == old(active)
              else if !Publishable(policy, |live[At(live, id)].dependencies|, catalog, descriptors, query, render) then
                r == PublishQuota && snapshots == Without(live, id) && active == old(active) - {id}
              else
                var t, i := live[At(live, id)], At(live, id);
                && active == old(active) - {id}
                && |snapshots| == |live| && snapshots == live[i := snapshots[i]]
                && var now := snapshots[i];
                   && now.published == Some(Publication(catalog.value, Rendered(render, descriptors.fields)))
                   && now.bytes <= t.bytes && now.nodes <= t.nodes
                   && now == t.(published := now.published, bytes := now.bytes, nodes := now.nodes, touched := later)
                   && r == Published(FirstCursor(key, now, catalog.value)) && Opens(snapshots, key, r.cursor)
                   && now.nodes == |t.dependencies| + Nodes(descriptors)
                   && now.bytes == 512 + |t.dependencies| * 64 + now.nodes * 32 + (if query.Query? then query.units * 4 else 0)
                                   + 2 * |StoredText(now.published.value.entries)| + StoredBytes(now.published.value.entries)
                                   + 256 * |now.published.value.entries|
                   && Points(r.cursor, key, id, catalog.value, if Describes(catalog.value) then 0 else -1, 0)
      ensures Continues(old(snapshots), old(nextId), snapshots)
    {
      hide *;
      Prune(now, current);
      ghost var live := snapshots;
      if id !in active || !Holds(snapshots, id) {
        HoldsMeans(snapshots, id);
        return PublishUnavailable;
      }
      HoldsMeans(snapshots, id);
      var i := At(snapshots, id);
      var t := snapshots[i];
      ValidMeans();
      ReservationMeans(policy, snapshots, active, nextId, closed, i);
      var weight := Weigh(policy, |t.dependencies|, catalog, descriptors, query, render);
      if weight.None? {
        Discard(id);
        ContinuesOn(old(snapshots), nextId, live, nextId, snapshots);
        return PublishQuota;
      }
      PublishableMeans(policy, |t.dependencies|, catalog, descriptors, query, render);
      var published := t.(published := Some(Publication(catalog.value, weight.value.entries)),
                          bytes := weight.value.bytes, nodes := weight.value.nodes, touched := later);
      EntriesCharge(weight.value.entries);
      BaseMeans(|t.dependencies|, weight.value.nodes, query);
      FirstCursorMeans(key, published, catalog.value);
      PublicationIsOk(policy, nextId, t, query, later, catalog.value, weight.value);
      PublishedKeepsOk(policy, snapshots, active, nextId, closed, i, published, active - {id});
      UpdateContinues(live, nextId, i, published);
      snapshots := snapshots[i := published];
      ContinuesOn(old(snapshots), nextId, live, nextId, snapshots);
      active := active - {id};
      ValidMeans();
      r := Published(FirstCursor(key, published, catalog.value));
      FirstCursorOpens(policy, snapshots, active, nextId, closed, key, i);
    }

    /** Only a cursor of this store opens a snapshot, and opening one renews it. */
    method Authenticate(cursor: Cursor, now: int, current: nat -> bool, later: int) returns (found: Option<nat>)
      requires Valid()
      modifies this`snapshots
      ensures Valid()
      ensures var live := Live(policy, old(snapshots), now, current);
              && (found.Some? <==> Opens(live, key, cursor))
              && (if found.Some? then
                    found.value == At(live, cursor.id) < |live|
                    && snapshots == live[found.value := Touch(policy, live[found.value], later)]
                  else snapshots == live)
      ensures found.Some? ==>
                && found.value < |snapshots| && Opens(snapshots, key, cursor) && found.value == At(snapshots, cursor.id)
                && exists t | t in old(snapshots) && t.id == cursor.id ::
                     snapshots[found.value] == t.(touched := later, expires := if t.expires <= later then later + policy.softExpiry else t.expires)
      ensures Continues(old(snapshots), old(nextId), snapshots)
    {
      hide *;
      Prune(now, current);
      ghost var live := snapshots;
      UnfoldOpens(snapshots, key, cursor);
      if !cursor.Signed? || cursor.key != key {
        return None;
      }
      var i := At(snapshots, cursor.id);
      if i == |snapshots| || snapshots[i].published.None? {
        return None;
      }
      if !Addresses(snapshots[i].published.value, cursor) {
        return None;
      }
      ValidMeans();
      TouchKeepsOk(policy, snapshots, active, nextId, closed, i, later);
      TouchKeepsPublication(policy, live[i], later);
      LiveIsPart(policy, old(snapshots), now, current, live[i]);
      TouchMeans(policy, live[i], later);
      OpensTouched(policy, live, active, nextId, closed, key, cursor, later);
      UpdateContinues(live, nextId, i, Touch(policy, live[i], later));
      snapshots := snapshots[i := Touch(policy, snapshots[i], later)];
      ContinuesOn(old(snapshots), nextId, live, nextId, snapshots);
      ValidMeans();
      return Some(i);
    }

    /** One page of a catalog: it fits, and it moves on, completes, or is refused because not even
        a put-off entry fits. */
    method CatalogPage(cursor: Cursor, maxBytes: Option<int>, maxChars: int, limit: Option<int>, fits: Page -> bool,
                       now: int, current: nat -> bool, later: int)
      returns (r: PageResult<Page>)
      requires Valid()
      modifies this`snapshots
      ensures Valid()
      ensures var live := Live(policy, old(snapshots), now, current);
              && (r.PageUnavailable? <==> !Opens(live, key, cursor) || cursor.descriptor != -1)
              && (!Opens(live, key, cursor) ==> snapshots == live)
              && (Opens(live, key, cursor) ==>
                    var i := At(live, cursor.id);
                    var pub := live[i].published.value;
                    var source := SourceOf(key, Touch(policy, live[i], later));
                    && snapshots == live[i := Touch(policy, live[i], later)]
                    && (r.Delivered? ==>
                          && BudgetOk(maxBytes, maxChars) && LimitOk(limit) && fits(r.value)
                          && |r.value.items| <= (if limit.Some? then limit.value else 30)
                          && ItemsAt(source, cursor.position, BudgetOf(maxBytes, maxChars), fits, r.value.items)
                          && PageFollows(key, cursor.id, pub, cursor.position, r.value)
                          && (|r.value.items| == (if limit.Some? then limit.value else 30) || r.value.complete
                              || Blocked(source, cursor.position, BudgetOf(maxBytes, maxChars), fits, r.value.items))
                          && (r.value.nextCursor.Some? ==> Opens(snapshots, key, r.value.nextCursor.value))
                          && (forall k | 0 <= k < |r.value.items| && r.value.items[k].Deferred? :: Opens(snapshots, key, r.value.items[k].cursor)))
                    && (r.PageBudget? && BudgetOk(maxBytes, maxChars) && LimitOk(limit) ==>
                          if cursor.position == |pub.entries| then !fits(PageOf(source, [], cursor.position))
                          else Blocked(source, cursor.position, BudgetOf(maxBytes, maxChars), fits, [])))
      ensures Continues(old(snapshots), old(nextId), snapshots)
    {
      hide *;
      var found := Authenticate(cursor, now, current, later);
      if found.None? {
        return PageUnavailable;
      }
      ghost var live := Live(policy, old(snapshots), now, current);
      OpensMeans(policy, live, key, cursor, later);
      if cursor.descriptor != -1 {
        return PageUnavailable;
      }
      if !BudgetOk(maxBytes, maxChars) || !LimitOk(limit) {
        return PageBudget;
      }
      LimitIsPositive(limit);
      BudgetMeans(maxBytes, maxChars);
      var source := SourceOf(key, snapshots[found.value]);
      var items := FillPage(source, cursor.position, LimitOf(limit), BudgetOf(maxBytes, maxChars), fits);
      ItemsAreWithin(source, cursor.position, BudgetOf(maxBytes, maxChars), fits, items);
      var next := cursor.position + |items|;
      var page := PageOf(source, items, next);
      if (items == [] && next < |source.pub.entries|) || !fits(page) {
        return PageBudget;
      }
      SourceMeans(key, snapshots[found.value]);
      FilledPageFollows(source, cursor.position, BudgetOf(maxBytes, maxChars), fits, items);
      PageHoldsItems(source, items, next);
      OpensMeans(policy, snapshots, key, cursor, later);
      PageCursorsOpen(snapshots, key, cursor.id, source.pub, cursor.position, page);
      return Delivered(page);
    }

    /** One chunk of a descriptor: it fits, splits no surrogate pair, and moves on, completes, or is
        refused because not even one more code point fits. */
    method DescribePage(cursor: Cursor, maxBytes: Option<int>, maxChars: int, fits: Chunk -> bool,
                        now: int, current: nat -> bool, later: int)
      returns (r: PageResult<Chunk>)
      requires Valid()
      modifies this`snapshots
      ensures Valid()
      ensures var live := Live(policy, old(snapshots), now, current);
              && (r.PageUnavailable? <==> !Opens(live, key, cursor) || cursor.descriptor < 0)
              && (!Opens(live, key, cursor) ==> snapshots == live)
              && (Opens(live, key, cursor) ==>
                    var i := At(live, cursor.id);
                    var pub := live[i].published.value;
                    && snapshots == live[i := Touch(policy, live[i], later)]
                    && (r.Delivered? ==>
                          && BudgetOk(maxBytes, maxChars) && fits(r.value)
                          && ChunkFollows(key, cursor.id, pub, cursor.descriptor, cursor.position, r.value)
                          && (r.value.nextCursor.Some? ==> Opens(snapshots, key, r.value.nextCursor.value)))
                    && (BudgetOk(maxBytes, maxChars) && cursor.descriptor >= 0 ==>
                          var source, text := SourceOf(key, Touch(policy, live[i], later)), pub.entries[cursor.descriptor].text;
                          FitsTo(source, cursor.descriptor, cursor.position, fits, |text|)
                          && |text| - cursor.position <= BudgetOf(maxBytes, maxChars).bytes && |text| - cursor.position <= BudgetOf(maxBytes, maxChars).chars
                          ==> r.Delivered? && r.value.complete)
                    && (r.PageBudget? && BudgetOk(maxBytes, maxChars) ==>
                          ChunkBlocked(SourceOf(key, Touch(policy, live[i], later)), cursor.descriptor, cursor.position, fits)))
      ensures Continues(old(snapshots), old(nextId), snapshots)
    {
      hide *;
      var found := Authenticate(cursor, now, current, later);
      if found.None? {
        return PageUnavailable;
      }
      ghost var live := Live(policy, old(snapshots), now, current);
      OpensMeans(policy, live, key, cursor, later);
      if cursor.descriptor < 0 {
        return PageUnavailable;
      }
      if !BudgetOk(maxBytes, maxChars) {
        return PageBudget;
      }
      BudgetIsPositive(maxBytes, maxChars);
      var source := SourceOf(key, snapshots[found.value]);
      var end := CutChunk(source, cursor.descriptor, cursor.position, BudgetOf(maxBytes, maxChars), fits);
      if end.None? {
        return PageBudget;
      }
      FitsToMeans(source, cursor.descriptor, cursor.position, fits, end.value);
      SourceMeans(key, snapshots[found.value]);
      CutChunkFollows(source, cursor.descriptor, cursor.position, end.value);
      OpensMeans(policy, snapshots, key, cursor, later);
      ChunkCursorOpens(snapshots, key, cursor.id, source.pub, cursor.descriptor, cursor.position,
                       ChunkOf(source, cursor.descriptor, cursor.position, end.value));
      ChunkEnds(source, cursor.descriptor, cursor.position, end.value);
      return Delivered(ChunkOf(source, cursor.descriptor, cursor.position, end.value));
    }

    /** Every cursor ever issued is void from here on, and no reservation succeeds. */
    method Invalidate()
      requires Valid()
      modifies this
      ensures Valid() && closed && snapshots == [] && key > old(key) && nextId == old(nextId) && active == old(active)
      ensures Continues(old(snapshots), old(nextId), snapshots)
    {
      closed := true;
      snapshots := [];
      key := key + 1;
    }
  }

  lemma UnfoldAdmissible(p: Policy, dependencies: seq<nat>)
    ensures Admissible(p, dependencies) <==>
              && |dependencies| <= MAX_DEPENDENCIES
              && |dependencies| * 64 <= p.reservationBytes && |dependencies| <= p.reservationNodes
              && p.reservationBytes <= p.maxBytes && p.reservationNodes <= p.maxNodes
  {
  }

  /** If one more reservation can be within the policy, a single one is. */
  lemma AdmissibleByCount(p: Policy, dependencies: seq<nat>, current: nat -> bool, waiting: nat)
    ensures AllCurrent(dependencies, current) <==> forall d | d in dependencies :: current(d)
    ensures (waiting + 1) * p.reservationBytes <= p.maxBytes && p.reservationBytes > 0 ==> p.reservationBytes <= p.maxBytes
    ensures (waiting + 1) * p.reservationNodes <= p.maxNodes && p.reservationNodes > 0 ==> p.reservationNodes <= p.maxNodes
    ensures MAX_DEPENDENCIES == 256
  {
    MoreIsMore(p.reservationBytes, waiting);
    MoreIsMore(p.reservationNodes, waiting);
  }

  lemma {:induction false} MoreIsMore(size: int, n: nat)
    ensures size > 0 ==> size <= (n + 1) * size
  {
    if n > 0 {
      MoreIsMore(size, n - 1);
    }
  }

  lemma FreshMeans(p: Policy, id: nat, dependencies: seq<nat>, now: int)
    ensures var t := Fresh(p, id, AsSet(dependencies), now);
            && t.id == id && t.published.None? && t.bytes == p.reservationBytes && t.nodes == p.reservationNodes
            && t.created == t.touched == now && t.expires == now + p.softExpiry
            && forall d :: d in t.dependencies <==> d in dependencies
  {
  }

  lemma UnfoldDependable(p: Policy, t: Snapshot, dependencies: seq<nat>)
    ensures var combined := Combined(t, dependencies);
            Dependable(p, t, dependencies) <==>
              && |dependencies| <= MAX_DEPENDENCIES
              && |combined| <= MAX_DEPENDENCIES && |combined| * 64 <= p.reservationBytes && |combined| <= p.reservationNodes
  {
    hide Combined;
  }

  lemma HoldsMeans(s: seq<Snapshot>, id: nat)
    ensures Holds(s, id) <==> At(s, id) < |s|
  {
  }

  lemma EvictedStep(p: Policy, s: seq<Snapshot>)
    ensures Evicted(p, s) == if Room(p, s) || Oldest(s) == |s| then s else Evicted(p, Drop(s, Oldest(s)))
  {
    hide Room, Oldest, Drop;
  }

  lemma EvictionOutcome(p: Policy, live: seq<Snapshot>, active: set<nat>, nextId: nat, closed: bool, left: seq<Snapshot>)
    requires StoreOk(p, left, active, nextId, closed) && left == Evicted(p, live)
    requires Charged(live) && Ordered(live)
    ensures Room(p, left) <==> Room(p, Unpublished(live))
    ensures !Room(p, left) ==> left == Unpublished(live)
  {
    hide *;
    EvictionMakesRoom(p, live);
    EvictionEnds(p, live);
    EvictionSparesReservations(p, live);
  }
  /** The snapshot is an earlier one with these dependencies added, and not too many in all. */
  ghost predicate DependsMore(p: Policy, before: seq<Snapshot>, t: Snapshot, dependencies: seq<nat>) {
    exists b | b in before ::
      && t == b.(dependencies := t.dependencies) && b.id == t.id
      && (forall d :: d in t.dependencies <==> d in b.dependencies || d in dependencies)
      && |t.dependencies| <= 256 && |t.dependencies| * 64 <= p.reservationBytes && |t.dependencies| <= p.reservationNodes
  }

  lemma DependedMeans(p: Policy, before: seq<Snapshot>, live: seq<Snapshot>, i: nat, dependencies: seq<nat>, after: seq<Snapshot>,
                      now: int, current: nat -> bool, later: int, stillCurrent: nat -> bool)
    requires live == Live(p, before, now, current) && Ordered(live) && i < |live| && Dependable(p, live[i], dependencies)
    requires after == Live(p, live[i := live[i].(dependencies := Combined(live[i], dependencies))], later, stillCurrent)
    ensures |dependencies| <= 256
    ensures forall t | t in after && t.id == live[i].id :: DependsMore(p, before, t, dependencies)
  {
    hide Live;
    var t0 := live[i].(dependencies := Combined(live[i], dependencies));
    LiveIsPart(p, before, now, current, live[i]);
    forall t | t in after && t.id == live[i].id
      ensures DependsMore(p, before, t, dependencies)
    {
      LiveIsPart(p, live[i := t0], later, stillCurrent, t);
      var k :| 0 <= k < |live| && live[i := t0][k] == t;
      assert k != i ==> live[k].id != live[i].id;
      assert t == t0;
    }
  }

  lemma UnfoldOpens(s: seq<Snapshot>, key: nat, c: Cursor)
    ensures Opens(s, key, c) <==>
              && c.Signed? && c.key == key && At(s, c.id) < |s|
              && s[At(s, c.id)].published.Some? && Addresses(s[At(s, c.id)].published.value, c)
  {
    hide At, Addresses;
  }

  lemma OpensMeans(p: Policy, s: seq<Snapshot>, key: nat, c: Cursor, later: int)
    requires Opens(s, key, c)
    ensures c.Signed? && c.key == key && At(s, c.id) < |s|
    ensures var t := s[At(s, c.id)];
            && t.published.Some?
            && Touch(p, t, later).published == t.published && Touch(p, t, later).id == t.id == c.id
            && SourceOf(key, Touch(p, t, later)).pub == t.published.value
            && SourceOf(key, Touch(p, t, later)).key == key
            && SourceOf(key, Touch(p, t, later)).id == c.id
            && (c.descriptor == -1 ==> !Describes(t.published.value.catalog))
            && (c.descriptor == -1 ==> 0 <= c.position <= |t.published.value.entries|)
            && (c.descriptor != -1 ==> 0 <= c.descriptor < |t.published.value.entries|
                                       && 0 <= c.position <= |t.published.value.entries[c.descriptor].text|)
  {
    hide At;
  }

  lemma TouchKeepsOk(p: Policy, s: seq<Snapshot>, active: set<nat>, nextId: nat, closed: bool, i: nat, later: int)
    requires StoreOk(p, s, active, nextId, closed) && i < |s| && s[i].published.Some?
    ensures StoreOk(p, s[i := Touch(p, s[i], later)], active, nextId, closed)
  {
    hide StoreOk;
    ReservationMeans(p, s, active, nextId, closed, i);
    UpdateKeepsOk(p, s, active, nextId, closed, i, Touch(p, s[i], later), active);
  }

  lemma LimitIsPositive(limit: Option<int>)
    requires LimitOk(limit)
    ensures 1 <= LimitOf(limit) <= 100 && LimitOf(limit) == if limit.Some? then limit.value else 30
  {
  }

  /** 64 KiB unless told otherwise, and never more than two million of either. */
  lemma BudgetMeans(maxBytes: Option<int>, maxChars: int)
    requires BudgetOk(maxBytes, maxChars)
    ensures var b := BudgetOf(maxBytes, maxChars);
            && b.bytes == (if maxBytes.Some? then maxBytes.value else 64 * 1024) && 1000 <= b.bytes <= 2_000_000
            && b.chars == (if maxChars <= 2_000_000 then maxChars else 2_000_000) && 1000 <= b.chars
  {
  }

  lemma SourceMeans(key: nat, t: Snapshot)
    requires t.published.Some?
    ensures SourceOf(key, t).key == key && SourceOf(key, t).id == t.id && SourceOf(key, t).pub == t.published.value && SourceOf(key, t).expires == t.expires
  {
  }

  lemma BudgetIsPositive(maxBytes: Option<int>, maxChars: int)
    requires BudgetOk(maxBytes, maxChars)
    ensures BudgetOf(maxBytes, maxChars).bytes >= 1000 && BudgetOf(maxBytes, maxChars).chars >= 1000
  {
  }

  lemma ItemsAreWithin(s: Source, position: nat, budget: Budget, fits: Page -> bool, items: seq<Item>)
    requires ItemsAt(s, position, budget, fits, items)
    ensures position + |items| <= |s.pub.entries|
  {
  }

  lemma PageHoldsItems(s: Source, items: seq<Item>, next: nat)
    ensures PageOf(s, items, next).items == items && (PageOf(s, items, next).complete <==> next == |s.pub.entries|)
  {
  }

  lemma FitsToMeans(s: Source, descriptor: nat, position: nat, fits: Chunk -> bool, end: nat)
    requires descriptor < |s.pub.entries| && FitsTo(s, descriptor, position, fits, end)
    ensures position <= end <= |s.pub.entries[descriptor].text| && fits(ChunkOf(s, descriptor, position, end))
  {
  }

  lemma ChunkEnds(s: Source, descriptor: nat, position: nat, end: nat)
    requires descriptor < |s.pub.entries| && position <= end <= |s.pub.entries[descriptor].text|
    ensures ChunkOf(s, descriptor, position, end).complete <==> end == |s.pub.entries[descriptor].text|
  {
  }

  lemma TouchKeepsPublication(p: Policy, t: Snapshot, later: int)
    ensures Touch(p, t, later).id == t.id && Touch(p, t, later).published == t.published
  {
  }

  lemma TouchMeans(p: Policy, t: Snapshot, later: int)
    ensures Touch(p, t, later) == t.(touched := later, expires := if t.expires <= later then later + p.softExpiry else t.expires)
  {
  }

  /** Renewing a snapshot does not move it. */
  lemma OpensTouched(p: Policy, s: seq<Snapshot>, active: set<nat>, nextId: nat, closed: bool, key: nat, c: Cursor, later: int)
    requires StoreOk(p, s, active, nextId, closed) && Opens(s, key, c)
    ensures c.Signed? && At(s, c.id) < |s| && s[At(s, c.id)].id == c.id
    ensures var after := s[At(s, c.id) := Touch(p, s[At(s, c.id)], later)];
            Opens(after, key, c) && At(after, c.id) == At(s, c.id)
  {
    hide At, Addresses, PolicyOk, AllOk, Within, Awaiting;
    var i := At(s, c.id);
    var after := s[i := Touch(p, s[i], later)];
    UpdatedOrder(s, i, Touch(p, s[i], later));
    AtIsIndex(after, i);
  }

  lemma UpdatedOrder(s: seq<Snapshot>, i: nat, t: Snapshot)
    requires Ordered(s) && i < |s| && t.id == s[i].id
    ensures Ordered(s[i := t])
  {
  }

  /** The cursors that a delivered page names open the same snapshot. */
  lemma PageCursorsOpen(s: seq<Snapshot>, key: nat, id: nat, pub: Publication, position: nat, page: Page)
    requires At(s, id) < |s| && s[At(s, id)].published == Some(pub) && !Describes(pub.catalog)
    requires PageFollows(key, id, pub, position, page)
    ensures page.nextCursor.Some? ==> Opens(s, key, page.nextCursor.value)
    ensures forall k | 0 <= k < |page.items| && page.items[k].Deferred? :: Opens(s, key, page.items[k].cursor)
  {
    hide At;
  }

  lemma ChunkCursorOpens(s: seq<Snapshot>, key: nat, id: nat, pub: Publication, descriptor: nat, position: nat, chunk: Chunk)
    requires At(s, id) < |s| && s[At(s, id)].published == Some(pub) && descriptor < |pub.entries|
    requires ChunkFollows(key, id, pub, descriptor, position, chunk)
    ensures chunk.nextCursor.Some? ==> Opens(s, key, chunk.nextCursor.value)
  {
    hide At, SplitsPair;
  }

  /** A cursor opens for as long as its snapshot is held and the key does not change. */
  lemma OpensWhileHeld(before: seq<Snapshot>, nextId: nat, after: seq<Snapshot>, key: nat, c: Cursor)
    requires Continues(before, nextId, after) && Ordered(before)
    requires c.Signed? && c.id < nextId && Opens(before, key, c) && Holds(after, c.id)
    ensures Opens(after, key, c)
  {
    hide Addresses, At;
    var t := after[At(after, c.id)];
    assert t in after && t.id == c.id;
    assert Descends(before, t);
    var b :| b in before && b.id == t.id && (b.published.Some? ==> t.published == b.published);
    var i :| 0 <= i < |before| && before[i] == b;
    AtIsIndex(before, i);
  }

  lemma FreshContinues(p: Policy, before: seq<Snapshot>, s: seq<Snapshot>, n: nat, dependencies: seq<nat>, now: int)
    requires Continues(before, n, s)
    ensures Continues(before, n, s + [Fresh(p, n, AsSet(dependencies), now)])
  {
    hide Continues;
    AppendContinues(s, Fresh(p, n, AsSet(dependencies), now));
    ContinuesOn(before, n, s, n, s + [Fresh(p, n, AsSet(dependencies), now)]);
  }

  lemma OkMeansCharged(p: Policy, s: seq<Snapshot>, active: set<nat>, nextId: nat, closed: bool)
    requires StoreOk(p, s, active, nextId, closed)
    ensures Charged(s) && Ordered(s)
  {
    hide Within, Awaiting, Ordered, PolicyOk, SnapshotOk;
    forall i | 0 <= i < |s|
      ensures s[i].bytes >= 0 && s[i].nodes >= 0
    {
      ChargeIsPositive(p, nextId, s[i]);
    }
  }

  lemma {:induction false} SetIsNoLarger(dependencies: seq<nat>)
    ensures |AsSet(dependencies)| <= |dependencies|
  {
    if dependencies != [] {
      SetIsNoLarger(dependencies[1..]);
      assert AsSet(dependencies) == {dependencies[0]} + AsSet(dependencies[1..]);
    }
  }

  lemma FreshFits(p: Policy, s: seq<Snapshot>, active: set<nat>, nextId: nat, closed: bool, dependencies: seq<nat>, now: int)
    requires StoreOk(p, s, active, nextId, closed) && !closed && Room(p, s) && Admissible(p, dependencies)
    ensures StoreOk(p, s + [Fresh(p, nextId, AsSet(dependencies), now)], active + {nextId}, nextId + 1, closed)
  {
    hide AllOk, Ordered, Within, Awaiting, Bytes, NodesHeld;
    SetIsNoLarger(dependencies);
    AppendKeepsOk(p, s, active, nextId, closed, Fresh(p, nextId, AsSet(dependencies), now));
  }

  lemma CombinedKeepsOk(p: Policy, s: seq<Snapshot>, active: set<nat>, nextId: nat, closed: bool, i: nat, combined: set<nat>)
    requires StoreOk(p, s, active, nextId, closed) && i < |s| && s[i].id in active
    requires |combined| <= MAX_DEPENDENCIES && |combined| * 64 <= p.reservationBytes && |combined| <= p.reservationNodes
    ensures StoreOk(p, s[i := s[i].(dependencies := combined)], active, nextId, closed)
  {
    hide Within, Ordered, StoreOk;
    ReservationMeans(p, s, active, nextId, closed, i);
    UpdateKeepsOk(p, s, active, nextId, closed, i, s[i].(dependencies := combined), active);
  }

  lemma WithoutKeepsOk(p: Policy, s: seq<Snapshot>, active: set<nat>, nextId: nat, closed: bool, id: nat)
    requires StoreOk(p, s, active, nextId, closed)
    ensures StoreOk(p, Without(s, id), active, nextId, closed)
  {
    hide StoreOk, Drop;
    if Holds(s, id) {
      DropKeepsOk(p, s, active, nextId, closed, At(s, id));
    }
  }

  /** An active reservation still has its full charge. */
  lemma ReservationMeans(p: Policy, s: seq<Snapshot>, active: set<nat>, nextId: nat, closed: bool, i: nat)
    requires StoreOk(p, s, active, nextId, closed) && i < |s|
    ensures SnapshotOk(p, nextId, s[i]) && PolicyOk(p)
    ensures |s[i].dependencies| * 64 <= p.reservationBytes && |s[i].dependencies| <= p.reservationNodes
    ensures s[i].id in active ==> s[i].published.None? && s[i].bytes == p.reservationBytes && s[i].nodes == p.reservationNodes
  {
    hide Within, Ordered, PolicyOk;
    assert SnapshotOk(p, nextId, s[i]);
  }

  lemma {:induction false} RenderedLength(render: Value -> Option<Entry>, fields: seq<Field>)
    requires AllRender(render, fields)
    ensures |Rendered(render, fields)| == |fields|
  {
    if fields != [] {
      RenderedLength(render, fields[1..]);
    }
  }

  lemma PublishableMeans(p: Policy, dependencies: nat, catalog: Option<Catalog>, descriptors: Value, query: Query, render: Value -> Option<Entry>)
    requires Publishable(p, dependencies, catalog, descriptors, query, render)
    ensures catalog.Some? && descriptors.Composite? && AllRender(render, descriptors.fields)
    ensures Describes(catalog.value) ==> |Rendered(render, descriptors.fields)| == 1
  {
    hide Acceptable, AllRender, Rendered, EntriesBytes, Nodes;
    RenderedLength(render, descriptors.fields);
  }

  lemma BaseMeans(dependencies: nat, nodes: int, query: Query)
    ensures BaseBytes(dependencies, nodes, query) == 512 + dependencies * 64 + nodes * 32 + if query.Query? then query.units * 4 else 0
  {
  }

  lemma FirstCursorMeans(key: nat, t: Snapshot, catalog: Catalog)
    ensures Points(FirstCursor(key, t, catalog), key, t.id, catalog, if Describes(catalog) then 0 else -1, 0)
  {
  }

  lemma PublicationIsOk(p: Policy, nextId: nat, t: Snapshot, query: Query, later: int, catalog: Catalog, weight: Weight)
    requires SnapshotOk(p, nextId, t) && 0 <= weight.nodes <= p.reservationNodes
    requires weight.bytes == BaseBytes(|t.dependencies|, weight.nodes, query) + EntriesBytes(weight.entries) <= p.reservationBytes
    requires Describes(catalog) ==> |weight.entries| == 1
    ensures SnapshotOk(p, nextId, t.(published := Some(Publication(catalog, weight.entries)), bytes := weight.bytes, nodes := weight.nodes, touched := later))
  {
    hide EntriesBytes;
  }

  lemma PublishedKeepsOk(p: Policy, s: seq<Snapshot>, active: set<nat>, nextId: nat, closed: bool, i: nat, t: Snapshot, still: set<nat>)
    requires StoreOk(p, s, active, nextId, closed) && i < |s| && s[i].id in active
    requires SnapshotOk(p, nextId, t) && t.id == s[i].id && still == active - {t.id}
    ensures StoreOk(p, s[i := t], still, nextId, closed) && t.bytes <= s[i].bytes && t.nodes <= s[i].nodes
  {
    hide StoreOk;
    ReservationMeans(p, s, active, nextId, closed, i);
    UpdateKeepsOk(p, s, active, nextId, closed, i, t, still);
  }

  lemma {:induction false} AtIsIndex(s: seq<Snapshot>, i: nat)
    requires Ordered(s) && i < |s|
    ensures At(s, s[i].id) == i
  {
    if i > 0 {
      assert s[0].id < s[i].id;
      AtIsIndex(s[1..], i - 1);
    }
  }

  lemma FirstCursorOpens(p: Policy, s: seq<Snapshot>, active: set<nat>, nextId: nat, closed: bool, key: nat, i: nat)
    requires StoreOk(p, s, active, nextId, closed) && i < |s| && s[i].published.Some?
    ensures Opens(s, key, FirstCursor(key, s[i], s[i].published.value.catalog))
  {
    hide Within, Awaiting, PolicyOk, AllOk, Ordered, At, StoreOk;
    OkMeansCharged(p, s, active, nextId, closed);
    ReservationMeans(p, s, active, nextId, closed, i);
    AtIsIndex(s, i);
  }

  lemma LiveStep(p: Policy, s: seq<Snapshot>, i: nat, now: int, current: nat -> bool)
    requires i < |s|
    ensures Live(p, s[i..], now, current)
            == (if Stale(p, s[i], now, current) then [] else [s[i]]) + Live(p, s[i + 1..], now, current)
    ensures s[..i + 1] == s[..i] + [s[i]]
  {
    hide Stale;
    assert s[i..][1..] == s[i + 1..];
  }

  lemma LiveNothing(p: Policy, now: int, current: nat -> bool)
    ensures Live(p, [], now, current) == []
  {
  }

  lemma DropParts(s: seq<Snapshot>, i: nat)
    requires i < |s|
    ensures |Drop(s, i)| == |s| - 1 && Drop(s, i)[..i] == s[..i] && Drop(s, i)[i..] == s[i + 1..]
  {
  }
}
