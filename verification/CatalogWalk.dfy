/** The check that admits descriptors to a catalog: a walk over the original object graph
    (publish in src/core/catalog-snapshot-store.ts). */
module CatalogWalk {
  import opened Utf16

  const MAX_DEPTH := 64
  const MAX_ARRAY_INDEX := 4_294_967_294

  /** A JavaScript value. Foreign is whatever JSON cannot hold: undefined, functions, symbols,
      numbers that are not finite, and proxies. An object has an identity, and a further
      occurrence of it, on a cycle or not, bears the identity of the first. */
  datatype Value =
    | Str(text: Text)
    | Atom
    | Foreign
    | Composite(id: nat, shape: Shape, symbols: bool, fields: seq<Field>)

  datatype Shape = Array(length: nat) | Plain | Exotic

  /** An own property other than an array's length. Plain means an enumerable data property. */
  datatype Field = Field(key: Text, plain: bool, value: Value)

  // ----- what the limits speak of

  function Nodes(v: Value): (n: nat)
    ensures n >= 1
  {
    if v.Composite? then 1 + NodesOf(v.fields) else 1
  }

  function NodesOf(fields: seq<Field>): (n: nat)
    ensures n >= |fields|
  {
    if fields == [] then 0 else Nodes(fields[0].value) + NodesOf(fields[1..])
  }

  /** Two bytes for every unit of a string or of a key. */
  function Raw(v: Value): nat {
    match v
    case Str(text) => 2 * |text|
    case Composite(_, _, _, fields) => RawOf(fields)
    case _ => 0
  }

  function RawOf(fields: seq<Field>): nat {
    if fields == [] then 0 else 2 * |fields[0].key| + Raw(fields[0].value) + RawOf(fields[1..])
  }

  function Height(v: Value): nat {
    if v.Composite? then 1 + HeightOf(v.fields) else 0
  }

  function HeightOf(fields: seq<Field>): nat {
    if fields == [] then 0
    else var rest := HeightOf(fields[1..]);
         if Height(fields[0].value) > rest then Height(fields[0].value) else rest
  }

  /** The objects reached, each as often as it is reached. */
  function Objects(v: Value): multiset<nat> {
    if v.Composite? then multiset{v.id} + ObjectsOf(v.fields) else multiset{}
  }

  function ObjectsOf(fields: seq<Field>): multiset<nat> {
    if fields == [] then multiset{} else Objects(fields[0].value) + ObjectsOf(fields[1..])
  }

  predicate IsArrayIndex(key: Text) {
    key != [] && (key[0] == 0x30 ==> |key| == 1) && AllDigits(key) && Decimal(key) <= MAX_ARRAY_INDEX
  }

  predicate AllDigits(key: Text) {
    forall i | 0 <= i < |key| :: 0x30 <= key[i] <= 0x39
  }

  function Decimal(key: Text): int {
    if key == [] then 0 else var last: int := key[|key| - 1]; 10 * Decimal(key[..|key| - 1]) + last - 0x30
  }

  predicate KeyOk(list: bool, field: Field) {
    field.plain && (list ==> IsArrayIndex(field.key))
  }

  predicate ShapeOk(v: Value)
    requires v.Composite?
  {
    !v.shape.Exotic? && !v.symbols && (v.shape.Array? ==> v.shape.length == |v.fields|)
  }

  /** Nothing but plain data inside. */
  predicate Clean(v: Value)
    decreases v
  {
    match v
    case Str(_) => true
    case Atom => true
    case Foreign => false
    case Composite(_, shape, _, fields) => ShapeOk(v) && CleanOf(shape.Array?, fields)
  }

  predicate CleanOf(list: bool, fields: seq<Field>)
    decreases fields
  {
    fields == [] || (KeyOk(list, fields[0]) && Clean(fields[0].value) && CleanOf(list, fields[1..]))
  }

  ghost predicate Once(objects: multiset<nat>, seen: set<nat>) {
    forall o | o in objects :: objects[o] == 1 && o !in seen
  }

  /** What the walk promises to accept: plain data, no deeper than allowed, no object reached
      twice, and within the two limits that are left. */
  ghost predicate Acceptable(v: Value, depth: int, seen: set<nat>, nodes: int, raw: int) {
    && Clean(v)
    && (v.Composite? ==> depth + Height(v) <= MAX_DEPTH)
    && Once(Objects(v), seen)
    && Nodes(v) <= nodes
    && Raw(v) <= raw
  }

  ghost predicate AcceptableOf(list: bool, fields: seq<Field>, depth: int, seen: set<nat>, nodes: int, raw: int) {
    && CleanOf(list, fields)
    && (HeightOf(fields) > 0 ==> depth + HeightOf(fields) <= MAX_DEPTH)
    && Once(ObjectsOf(fields), seen)
    && NodesOf(fields) <= nodes
    && RawOf(fields) <= raw
  }

  ghost function SetOf(objects: multiset<nat>): set<nat> {
    set o | o in objects
  }

  lemma OnceSplits(a: multiset<nat>, b: multiset<nat>, seen: set<nat>)
    ensures Once(a + b, seen) <==> Once(a, seen) && Once(b, seen + SetOf(a))
  {
    if Once(a + b, seen) {
      forall o | o in a
        ensures a[o] == 1 && o !in seen
      {
        assert o in a + b;
      }
      forall o | o in b
        ensures b[o] == 1 && o !in seen + SetOf(a)
      {
        assert o in a + b;
      }
    }
    if Once(a, seen) && Once(b, seen + SetOf(a)) {
      forall o | o in a + b
        ensures (a + b)[o] == 1 && o !in seen
      {
        if o in a && o in b {
          assert false;
        }
      }
    }
  }

  /** The fields are acceptable exactly if the first one is, and the others are after it. */
  lemma AcceptableStep(list: bool, fields: seq<Field>, depth: int, seen: set<nat>, nodes: int, raw: int)
    requires fields != []
    ensures var v, key := fields[0].value, 2 * |fields[0].key|;
            AcceptableOf(list, fields, depth, seen, nodes, raw) <==>
              && KeyOk(list, fields[0])
              && Acceptable(v, depth, seen, nodes, raw - key)
              && AcceptableOf(list, fields[1..], depth, seen + SetOf(Objects(v)), nodes - Nodes(v), raw - key - Raw(v))
  {
    hide Once, KeyOk;
    OnceSplits(Objects(fields[0].value), ObjectsOf(fields[1..]), seen);
    var v, key := fields[0].value, 2 * |fields[0].key|;
    assert CleanOf(list, fields) <==> KeyOk(list, fields[0]) && Clean(v) && CleanOf(list, fields[1..]);
    assert NodesOf(fields) <= nodes <==> Nodes(v) <= nodes && NodesOf(fields[1..]) <= nodes - Nodes(v);
    assert RawOf(fields) <= raw <==> Raw(v) <= raw - key && RawOf(fields[1..]) <= raw - key - Raw(v);
    assert HeightOf(fields) > 0 && depth + HeightOf(fields) > MAX_DEPTH <==>
           (Height(v) > 0 && depth + Height(v) > MAX_DEPTH) || (HeightOf(fields[1..]) > 0 && depth + HeightOf(fields[1..]) > MAX_DEPTH);
  }

  lemma AcceptableComposite(v: Value, depth: int, seen: set<nat>, nodes: int, raw: int)
    requires v.Composite?
    ensures Acceptable(v, depth, seen, nodes, raw) <==>
              && depth < MAX_DEPTH && v.id !in seen && ShapeOk(v)
              && AcceptableOf(v.shape.Array?, v.fields, depth + 1, seen + {v.id}, nodes - 1, raw)
  {
    hide Once, ShapeOk;
    OnceSplits(multiset{v.id}, ObjectsOf(v.fields), seen);
    assert SetOf(multiset{v.id}) == {v.id};
    assert Once(multiset{v.id}, seen) <==> v.id !in seen by {
      OnceOne(v.id, seen);
    }
  }

  lemma OnceOne(id: nat, seen: set<nat>)
    ensures Once(multiset{id}, seen) <==> id !in seen
  {
    assert id in multiset{id};
  }

  // ----- the walk

  class Walk {
    const maxNodes: nat
    const maxRaw: nat
    var nodes: nat
    var raw: nat
    var seen: set<nat>

    constructor (maxNodes: nat, maxRaw: nat, nodes: nat, raw: nat)
      ensures this.maxNodes == maxNodes && this.maxRaw == maxRaw && this.nodes == nodes && this.raw == raw && seen == {}
    {
      this.maxNodes, this.maxRaw, this.nodes, this.raw, seen := maxNodes, maxRaw, nodes, raw, {};
    }

    /** Every early refusal is sound: the walk accepts exactly what is acceptable. */
    method Visit(v: Value, depth: int) returns (ok: bool)
      requires raw <= maxRaw
      modifies this
      ensures ok <==> old(Acceptable(v, depth, seen, maxNodes - nodes, maxRaw - raw))
      ensures ok ==> nodes == old(nodes) + Nodes(v) && nodes <= maxNodes && raw == old(raw) + Raw(v) && raw <= maxRaw
                     && seen == old(seen) + SetOf(Objects(v))
      decreases v
    {
      nodes := nodes + 1;
      if nodes > maxNodes {
        return false;
      }
      match v {
        case Str(text) =>
          raw := raw + 2 * |text|;
          return raw <= maxRaw;
        case Atom =>
          return true;
        case Foreign =>
          return false;
        case Composite(id, shape, symbols, fields) =>
          AcceptableComposite(v, depth, seen, maxNodes - nodes + 1, maxRaw - raw);
          if depth >= MAX_DEPTH || id in seen || shape.Exotic? || symbols {
            return false;
          }
          seen := seen + {id};
          var keys := |fields| + if shape.Array? then 1 else 0;
          if keys + nodes > maxNodes + 1 {
            return false;
          }
          if shape.Array? && shape.length != keys - 1 {
            return false;
          }
          ok := VisitFields(v, depth);
      }
    }

    method VisitFields(v: Value, depth: int) returns (ok: bool)
      requires v.Composite? && raw <= maxRaw && nodes <= maxNodes
      modifies this
      ensures ok <==> old(AcceptableOf(v.shape.Array?, v.fields, depth + 1, seen, maxNodes - nodes, maxRaw - raw))
      ensures ok ==> nodes == old(nodes) + NodesOf(v.fields) && nodes <= maxNodes && raw == old(raw) + RawOf(v.fields) && raw <= maxRaw
                     && seen == old(seen) + SetOf(ObjectsOf(v.fields))
      decreases v, 0
    {
      hide *;
      var list, fields := v.shape.Array?, v.fields;
      var i := 0;
      while i < |fields|
        invariant 0 <= i <= |fields| && raw <= maxRaw && nodes <= maxNodes
        invariant old(AcceptableOf(list, fields, depth + 1, seen, maxNodes - nodes, maxRaw - raw)) <==>
                  AcceptableOf(list, fields[i..], depth + 1, seen, maxNodes - nodes, maxRaw - raw)
        invariant nodes + NodesOf(fields[i..]) == old(nodes) + NodesOf(fields)
        invariant raw + RawOf(fields[i..]) == old(raw) + RawOf(fields)
        invariant seen + SetOf(ObjectsOf(fields[i..])) == old(seen) + SetOf(ObjectsOf(fields))
      {
        AcceptableStep(list, fields[i..], depth + 1, seen, maxNodes - nodes, maxRaw - raw);
        Unfold(fields, i);
        if !KeyOk(list, fields[i]) {
          return false;
        }
        raw := raw + 2 * |fields[i].key|;
        if raw > maxRaw {
          NothingLeft(fields[i].value, depth + 1, seen, maxNodes - nodes, maxRaw - raw);
          return false;
        }
        var accepted := Visit(fields[i].value, depth + 1);
        if !accepted {
          return false;
        }
        i := i + 1;
      }
      assert fields[|fields|..] == [];
      EmptyAcceptable(list, depth + 1, seen, maxNodes - nodes, maxRaw - raw);
      return true;
    }
  }

  lemma Unfold(fields: seq<Field>, i: nat)
    requires i < |fields|
    ensures fields[i..][0] == fields[i] && fields[i..][1..] == fields[i + 1..] && fields[i..] != []
    ensures NodesOf(fields[i..]) == Nodes(fields[i].value) + NodesOf(fields[i + 1..])
    ensures RawOf(fields[i..]) == 2 * |fields[i].key| + Raw(fields[i].value) + RawOf(fields[i + 1..])
    ensures SetOf(ObjectsOf(fields[i..])) == SetOf(Objects(fields[i].value)) + SetOf(ObjectsOf(fields[i + 1..]))
  {
    assert fields[i..][1..] == fields[i + 1..];
  }

  lemma NothingLeft(v: Value, depth: int, seen: set<nat>, nodes: int, raw: int)
    requires raw < 0
    ensures !Acceptable(v, depth, seen, nodes, raw)
  {
  }

  lemma EmptyAcceptable(list: bool, depth: int, seen: set<nat>, nodes: int, raw: int)
    requires nodes >= 0 && raw >= 0
    ensures AcceptableOf(list, [], depth, seen, nodes, raw)
    ensures NodesOf([]) == RawOf([]) == 0 && SetOf(ObjectsOf([])) == {}
  {
  }
}
