/** Reservations of the action registry's index budget (#reserve in src/core/action-registry.ts):
    each is a closure that gives its share back once. */
module IndexLedger {
  const INDEX_BYTES := 16 * 1024 * 1024
  const INDEX_NODES := 300_000

  /** What a raw producer reserves before it returns anything. */
  const RAW_BYTES: nat := 7 * 1024 * 1024
  const RAW_NODES: nat := 100_000

  datatype Size = Size(bytes: nat, nodes: nat)

  /** A release closure with its share; it is live until it has been called. */
  datatype Ticket = Ticket(id: nat, bytes: nat, nodes: nat)

  predicate HasSize(t: Ticket, size: Size) {
    t.bytes == size.bytes && t.nodes == size.nodes
  }

  function Bytes(live: seq<Ticket>): nat {
    if live == [] then 0 else live[0].bytes + Bytes(live[1..])
  }

  function Nodes(live: seq<Ticket>): nat {
    if live == [] then 0 else live[0].nodes + Nodes(live[1..])
  }

  function Ids(live: seq<Ticket>): set<nat> {
    set t | t in live :: t.id
  }

  /** The reservations but for those that are gone. */
  function Less(live: seq<Ticket>, gone: set<nat>): seq<Ticket> {
    if live == [] then [] else (if live[0].id in gone then [] else [live[0]]) + Less(live[1..], gone)
  }

  /** Those that are gone. */
  function Only(live: seq<Ticket>, gone: set<nat>): seq<Ticket> {
    if live == [] then [] else (if live[0].id in gone then [live[0]] else []) + Only(live[1..], gone)
  }

  /** Where the reservation stands, or the length if it has been given back. */
  function At(live: seq<Ticket>, id: nat): (i: nat)
    ensures i <= |live| && (i < |live| ==> live[i].id == id)
  {
    if live == [] || live[0].id == id then 0 else 1 + At(live[1..], id)
  }

  ghost predicate Ordered(live: seq<Ticket>) {
    forall i, j | 0 <= i < j < |live| :: live[i].id < live[j].id
  }

  predicate Fits(bytes: int, nodes: int) {
    bytes <= INDEX_BYTES && nodes <= INDEX_NODES
  }

  /** Nothing is live that was not, but for reservations taken since. */
  ghost predicate OnlyNewer(before: seq<Ticket>, after: seq<Ticket>, next: nat) {
    forall t | t in after :: t in before || t.id >= next
  }

  /** What a running step has in its variables stays live. */
  ghost predicate Untouched(before: seq<Ticket>, after: seq<Ticket>, loose: set<nat>) {
    forall t | t in before && t.id in loose :: t in after
  }

  ghost predicate AllLive(ts: seq<Ticket>, live: seq<Ticket>) {
    forall t | t in ts :: t in live
  }

  /** The counters are the sums of what is live, and within the limits. */
  ghost predicate LedgerOk(live: seq<Ticket>, next: nat, bytes: int, nodes: int) {
    && Ordered(live) && (forall t | t in live :: t.id < next)
    && bytes == Bytes(live) && nodes == Nodes(live) && Fits(bytes, nodes)
  }

  lemma {:induction false} SumsSplit(a: seq<Ticket>, b: seq<Ticket>)
    ensures Bytes(a + b) == Bytes(a) + Bytes(b) && Nodes(a + b) == Nodes(a) + Nodes(b)
  {
    if a == [] {
      assert a + b == b;
    } else {
      assert (a + b)[1..] == a[1..] + b;
      SumsSplit(a[1..], b);
    }
  }

  lemma SumsOfOne(t: Ticket)
    ensures Bytes([t]) == t.bytes && Nodes([t]) == t.nodes
  {
  }

  lemma {:induction false} NotHeld(live: seq<Ticket>, id: nat)
    ensures At(live, id) == |live| ==> (forall t | t in live :: t.id != id) && Less(live, {id}) == live
  {
    if live != [] && live[0].id != id {
      NotHeld(live[1..], id);
      assert forall t | t in live :: t == live[0] || t in live[1..];
      assert live == [live[0]] + live[1..];
    }
  }

  lemma {:induction false} LessMembers(live: seq<Ticket>, gone: set<nat>)
    ensures forall t :: t in Less(live, gone) <==> t in live && t.id !in gone
    ensures forall t :: t in Only(live, gone) <==> t in live && t.id in gone
  {
    if live != [] {
      LessMembers(live[1..], gone);
      assert forall t :: t in live <==> t == live[0] || t in live[1..];
    }
  }

  lemma {:induction false} LessTwice(live: seq<Ticket>, a: set<nat>, b: set<nat>)
    ensures Less(Less(live, a), b) == Less(live, a + b)
  {
    if live != [] {
      LessTwice(live[1..], a, b);
      var rest := Less(live[1..], a);
      if live[0].id !in a {
        assert ([live[0]] + rest)[1..] == rest;
      } else {
        assert [] + rest == rest;
      }
    }
  }

  lemma {:induction false} LessNothing(live: seq<Ticket>, gone: set<nat>)
    requires forall t | t in live :: t.id !in gone
    ensures Less(live, gone) == live && Only(live, gone) == []
  {
    if live != [] {
      LessNothing(live[1..], gone);
      assert live == [live[0]] + live[1..];
    }
  }

  lemma {:induction false} LessSums(live: seq<Ticket>, gone: set<nat>)
    ensures Bytes(live) == Bytes(Less(live, gone)) + Bytes(Only(live, gone))
    ensures Nodes(live) == Nodes(Less(live, gone)) + Nodes(Only(live, gone))
  {
    if live != [] {
      LessSums(live[1..], gone);
      var rest, out := Less(live[1..], gone), Only(live[1..], gone);
      if live[0].id in gone {
        assert ([live[0]] + out)[1..] == out && [] + rest == rest;
      } else {
        assert ([live[0]] + rest)[1..] == rest && [] + out == out;
      }
    }
  }

  /** Taking out the i-th reservation leaves all the others. */
  lemma {:induction false} CutIsLess(live: seq<Ticket>, i: nat)
    requires Ordered(live) && i < |live|
    ensures live[..i] + live[i + 1..] == Less(live, {live[i].id})
  {
    var rest := live[1..];
    if i == 0 {
      LessNothing(rest, {live[0].id});
      assert live[..0] + live[1..] == rest;
      assert [] + rest == rest;
    } else {
      CutIsLess(rest, i - 1);
      assert live[..i] + live[i + 1..] == [live[0]] + (rest[..i - 1] + rest[i..]);
    }
  }

  /** No two live reservations have the same number. */
  lemma LiveOnce(live: seq<Ticket>, s: Ticket, t: Ticket)
    requires Ordered(live) && s in live && t in live
    ensures s.id == t.id ==> s == t
  {
  }

  /** Giving back subtracts what was taken. */
  lemma GivingKeepsOk(live: seq<Ticket>, next: nat, bytes: int, nodes: int, i: nat)
    requires LedgerOk(live, next, bytes, nodes) && i < |live|
    ensures var rest := live[..i] + live[i + 1..];
            && LedgerOk(rest, next, bytes - live[i].bytes, nodes - live[i].nodes)
            && Ids(rest) == Ids(live) - {live[i].id}
            && rest == Less(live, {live[i].id})
  {
    hide Bytes, Nodes, Ids, Less, Ordered;
    CutIsLess(live, i);
    CutOrdered(live, i, next);
    CutSums(live, i);
    IdsWithout(live, i);
  }

  lemma CutOrdered(live: seq<Ticket>, i: nat, next: nat)
    requires Ordered(live) && i < |live| && forall t | t in live :: t.id < next
    ensures Ordered(live[..i] + live[i + 1..]) && forall t | t in live[..i] + live[i + 1..] :: t.id < next
  {
    var rest := live[..i] + live[i + 1..];
    forall k | 0 <= k < |rest|
      ensures rest[k] == live[if k < i then k else k + 1]
    {
    }
  }

  lemma CutSums(live: seq<Ticket>, i: nat)
    requires i < |live|
    ensures var rest := live[..i] + live[i + 1..];
            Bytes(rest) == Bytes(live) - live[i].bytes && Nodes(rest) == Nodes(live) - live[i].nodes
  {
    hide Bytes, Nodes;
    assert live == live[..i] + ([live[i]] + live[i + 1..]);
    SumsSplit(live[..i], [live[i]] + live[i + 1..]);
    SumsSplit([live[i]], live[i + 1..]);
    SumsSplit(live[..i], live[i + 1..]);
    SumsOfOne(live[i]);
  }

  lemma IdsWithout(live: seq<Ticket>, i: nat)
    requires Ordered(live) && i < |live|
    ensures Ids(live[..i] + live[i + 1..]) == Ids(live) - {live[i].id}
  {
    hide Ordered, Ids;
    var rest := live[..i] + live[i + 1..];
    forall id
      ensures id in Ids(rest) <==> id in Ids(live) && id != live[i].id
    {
      if id in Ids(live) && id != live[i].id {
        IdStays(live, i, id);
      }
      if id in Ids(rest) {
        IdWasThere(live, i, id);
      }
    }
  }

  lemma IdStays(live: seq<Ticket>, i: nat, id: nat)
    requires i < |live| && id in Ids(live) && id != live[i].id
    ensures id in Ids(live[..i] + live[i + 1..])
  {
    var k :| 0 <= k < |live| && live[k].id == id;
    assert live[k] == (live[..i] + live[i + 1..])[if k < i then k else k - 1];
  }

  lemma IdWasThere(live: seq<Ticket>, i: nat, id: nat)
    requires Ordered(live) && i < |live| && id in Ids(live[..i] + live[i + 1..])
    ensures id in Ids(live) && id != live[i].id
  {
    var rest := live[..i] + live[i + 1..];
    var k :| 0 <= k < |rest| && rest[k].id == id;
    assert rest[k] == live[if k < i then k else k + 1];
  }

  lemma TakingKeepsOk(live: seq<Ticket>, next: nat, bytes: int, nodes: int, t: Ticket)
    requires LedgerOk(live, next, bytes, nodes) && t.id == next && Fits(bytes + t.bytes, nodes + t.nodes)
    ensures LedgerOk(live + [t], next + 1, bytes + t.bytes, nodes + t.nodes)
    ensures Ids(live + [t]) == Ids(live) + {t.id} && t.id !in Ids(live)
  {
    hide Bytes, Nodes;
    SumsSplit(live, [t]);
    SumsOfOne(t);
  }
}
