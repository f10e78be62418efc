/** Write intents and the audit-byte ledger of invocations that share one audit budget
    (invoke in src/core/action-registry.ts). */
module AuditLedger {
  import opened Utf16
  import opened Json
  import opened Wrappers

  const TERMINAL_BYTES := 8192
  const MAX_ERROR_UNITS := 1000
  const SAFE_INTEGER := 0x20_0000_0000_0000

  datatype Operation = SetKey | DeleteKey | WriteFile | EditFile

  /** What a call's audit says once the call has ended. */
  datatype Terminal = Terminal(
    endedAt: nat, success: bool, error: Option<Text>, resultChars: Option<nat>, resultTruncated: Option<bool>,
    acknowledged: Option<Operation>, uncertain: bool)

  /** One call: Some resources if it writes, and whether its reservation has been settled. */
  datatype Audit = Audit(ref: Text, startedAt: nat, writes: Option<seq<Text>>, terminal: Option<Terminal>, settled: bool)

  // ----- UTF-8 sizes of the JSON of an audit, property by property

  /** {"ref":…,"nestedToolCallId":"fabric_…","startedAt":…} with an identifier of 43 characters. */
  function OpenBytes(a: Audit): nat {
    7 + StringBytes(a.ref) + 20 + 45 + 13 + Digits(a.startedAt) + 1
  }

  function BoolBytes(b: bool): nat { if b then 4 else 5 }

  function OperationUnits(o: Operation): nat {
    match o
    case SetKey => 3
    case DeleteKey => 6
    case WriteFile => 5
    case EditFile => 4
  }

  function TerminalBytes(t: Terminal): nat {
    11 + Digits(t.endedAt) + 11 + BoolBytes(t.success)
    + (if t.error.Some? then 9 + StringBytes(t.error.value) else 0)
    + (if t.resultChars.Some? then 15 + Digits(t.resultChars.value) else 0)
    + (if t.resultTruncated.Some? then 19 + BoolBytes(t.resultTruncated.value) else 0)
    + (if t.acknowledged.Some? then 53 + OperationUnits(t.acknowledged.value) else 0)
    + (if t.uncertain then 28 else 0)
  }

  function AuditBytes(a: Audit): nat {
    OpenBytes(a) + if a.terminal.Some? then TerminalBytes(a.terminal.value) else 0
  }

  /** Numbers are safe integers, and error texts are cut to their first thousand units. */
  predicate Recordable(t: Terminal) {
    && t.endedAt < SAFE_INTEGER
    && (t.error.Some? ==> |t.error.value| <= MAX_ERROR_UNITS)
    && (t.resultChars.Some? ==> t.resultChars.value < SAFE_INTEGER)
  }

  /** The reservation for what a call may yet say about its end is enough: a thousand units escape
      to at most six bytes each. */
  lemma TerminalFits(t: Terminal)
    requires Recordable(t)
    ensures TerminalBytes(t) < TERMINAL_BYTES
  {
    hide Digits, ContentBytes, ContentUnits;
    SafeIntegerDigits(t.endedAt);
    if t.error.Some? {
      ContentBounds(t.error.value);
    }
    if t.resultChars.Some? {
      SafeIntegerDigits(t.resultChars.value);
    }
  }

  function Cut(message: Text): (t: Text)
    ensures |t| <= MAX_ERROR_UNITS
  {
    if |message| <= MAX_ERROR_UNITS then message else message[..MAX_ERROR_UNITS]
  }

  /** How a call ends, as it is recorded. */
  datatype Ending =
    | Returned(at: nat, chars: nat, truncated: bool)
    | Threw(at: nat, message: Text, acknowledged: Option<Operation>, uncertain: bool)
    | CleanupThrew(at: nat, earlier: Option<Operation>, published: Option<Operation>, uncertain: bool)

  predicate SafeEnding(e: Ending) {
    e.at < SAFE_INTEGER && (e.Returned? ==> e.chars < SAFE_INTEGER)
  }

  function TerminalOf(e: Ending): Terminal {
    match e
    case Returned(at, chars, truncated) => Terminal(at, true, None, Some(chars), Some(truncated), None, false)
    case Threw(at, message, acknowledged, uncertain) => Terminal(at, false, Some(Cut(message)), None, None, acknowledged, uncertain)
    case CleanupThrew(at, earlier, published, uncertain) =>
      Terminal(at, false, Some(FromAscii("Effect reservation cleanup failed; inspect state before retrying")), None, None,
               if published.Some? then published else earlier, uncertain)
  }

  lemma EndingsAreRecordable(e: Ending)
    requires SafeEnding(e)
    ensures Recordable(TerminalOf(e))
    ensures TerminalOf(e).endedAt == e.at && (TerminalOf(e).success <==> e.Returned?)
    ensures e.Returned? ==> TerminalOf(e).resultChars == Some(e.chars) && TerminalOf(e).error.None?
    ensures e.Threw? ==> TerminalOf(e).error.Some? && TerminalOf(e).error.value <= e.message
    ensures e.Threw? && |e.message| <= MAX_ERROR_UNITS ==> TerminalOf(e).error == Some(e.message)
  {
    assert |"Effect reservation cleanup failed; inspect state before retrying"| <= 100;
  }

  // ----- the ledger

  function Reservation(a: Audit): nat { OpenBytes(a) + 2 + TERMINAL_BYTES }

  /** What a call is charged: its worst case until it is settled, and then its size. */
  function Charge(a: Audit): nat {
    if a.settled then AuditBytes(a) + 2 else Reservation(a)
  }

  function Charges(audits: seq<Audit>): nat {
    if audits == [] then 0 else Charge(audits[0]) + Charges(audits[1..])
  }

  function Texts(audits: seq<Audit>): nat {
    if audits == [] then 0 else AuditBytes(audits[0]) + Texts(audits[1..])
  }

  /** UTF-8 bytes of the JSON array of the audits: brackets, and commas between. */
  function JsonBytes(audits: seq<Audit>): nat {
    2 + Texts(audits) + if audits == [] then 0 else |audits| - 1
  }

  predicate Overlaps(a: seq<Text>, b: seq<Text>) {
    [0x2A] in a || [0x2A] in b || exists r | r in a :: r in b
  }

  lemma OverlapMeans(a: seq<Text>, b: seq<Text>)
    ensures !Overlaps(a, b) <==> [0x2A] !in a && [0x2A] !in b && forall t | t in a :: t !in b
    ensures Overlaps(a, b) <==> Overlaps(b, a)
  {
  }

  /** A call that writes and is not settled. */
  ghost predicate IsWriting(a: Audit) {
    !a.settled && a.writes.Some?
  }

  ghost predicate AuditOk(a: Audit) {
    (a.terminal.Some? ==> Recordable(a.terminal.value)) && (a.settled ==> a.terminal.Some?)
  }

  ghost predicate AuditsOk(audits: seq<Audit>) {
    forall k | 0 <= k < |audits| :: AuditOk(audits[k])
  }

  /** The intents held are those of the calls that write and are not settled. */
  ghost predicate IntentsOk(audits: seq<Audit>, intents: map<nat, seq<Text>>) {
    && (forall k | k in intents :: k < |audits| && !audits[k].settled && audits[k].writes == Some(intents[k]))
    && (forall k: nat | k < |audits| :: !audits[k].settled && audits[k].writes.Some? ==> k in intents)
  }

  /** No two calls that write the same resource are under way. */
  ghost predicate Disjoint(intents: map<nat, seq<Text>>) {
    forall i, j | i in intents && j in intents && i != j :: !Overlaps(intents[i], intents[j])
  }

  lemma {:induction false} ChargesSplit(a: seq<Audit>, b: seq<Audit>)
    ensures Charges(a + b) == Charges(a) + Charges(b) && Texts(a + b) == Texts(a) + Texts(b)
  {
    if a == [] {
      assert a + b == b;
    } else {
      assert (a + b)[1..] == a[1..] + b;
      ChargesSplit(a[1..], b);
    }
  }

  lemma ChargeOfOne(a: Audit)
    ensures Charges([a]) == Charge(a)
  {
  }

  lemma ChargesUpdate(audits: seq<Audit>, i: nat, a: Audit)
    requires i < |audits|
    ensures Charges(audits[i := a]) == Charges(audits) - Charge(audits[i]) + Charge(a)
  {
    hide Charge, Charges, Texts;
    var before, after := audits[..i], audits[i + 1..];
    assert audits == before + ([audits[i]] + after);
    assert audits[i := a] == before + ([a] + after);
    ChargesSplit(before, [audits[i]] + after);
    ChargesSplit(before, [a] + after);
    ChargesSplit([audits[i]], after);
    ChargesSplit([a], after);
    ChargeOfOne(a);
    ChargeOfOne(audits[i]);
  }

  /** No audit ever says more than it is charged for, less two. */
  lemma AuditIsCovered(a: Audit)
    requires AuditOk(a)
    ensures AuditBytes(a) + 2 <= Charge(a)
  {
    hide TerminalBytes, OpenBytes, Recordable;
    if a.terminal.Some? {
      TerminalFits(a.terminal.value);
    }
  }

  lemma {:induction false} TextsAreCovered(audits: seq<Audit>)
    requires AuditsOk(audits)
    ensures Texts(audits) + 2 * |audits| <= Charges(audits)
  {
    hide AuditOk, AuditBytes, Charge;
    if audits != [] {
      assert AuditOk(audits[0]);
      AuditIsCovered(audits[0]);
      TextsAreCovered(audits[1..]);
    }
  }

  datatype Admission = Admitted(call: nat) | EntryQuota | ByteQuota | OverlappingWrite(active: nat)

  class Ledger {
    const initial: nat
    const maxEntries: Option<nat>
    const maxBytes: Option<nat>
    var audits: seq<Audit>
    var bytes: int
    var intents: map<nat, seq<Text>>

    ghost predicate Valid()
      reads this
    {
      && AuditsOk(audits) && IntentsOk(audits, intents) && Disjoint(intents)
      && bytes == initial + Charges(audits)
      && (maxEntries.Some? ==> |audits| <= maxEntries.value)
      && (maxBytes.Some? ==> bytes <= if initial < maxBytes.value then maxBytes.value else initial)
    }

    constructor (initial: nat, maxEntries: Option<nat>, maxBytes: Option<nat>)
      ensures Valid() && audits == [] && bytes == initial && intents == map[]
      ensures this.initial == initial && this.maxEntries == maxEntries && this.maxBytes == maxBytes
    {
      this.initial, this.maxEntries, this.maxBytes := initial, maxEntries, maxBytes;
      audits, bytes, intents := [], initial, map[];
    }

    /** Admission comes before the approval prompt: it reserves the worst case, and for a call that
        writes, its resources. */
    method Admit(ref: Text, startedAt: nat, writes: Option<seq<Text>>) returns (r: Admission)
      requires Valid()
      modifies this
      ensures Valid()
      ensures var a := Audit(ref, startedAt, writes, None, false);
              && (r.EntryQuota? <==> maxEntries.Some? && |old(audits)| >= maxEntries.value)
              && (r.ByteQuota? <==> !r.EntryQuota? && maxBytes.Some? && old(bytes) + Reservation(a) > maxBytes.value)
              && (r.OverlappingWrite? <==>
                    && !(maxEntries.Some? && |old(audits)| >= maxEntries.value)
                    && !(maxBytes.Some? && old(bytes) + Reservation(a) > maxBytes.value)
                    && writes.Some?
                    && exists k: nat | k < |old(audits)| && IsWriting(old(audits)[k]) ::
                         var w := old(audits)[k].writes.value;
                         [0x2A] in w || [0x2A] in writes.value || exists t | t in w :: t in writes.value)
              && (r.OverlappingWrite? ==>
                    && r.active < |old(audits)| && IsWriting(old(audits)[r.active])
                    && var w := old(audits)[r.active].writes.value;
                       [0x2A] in w || [0x2A] in writes.value || exists t | t in w :: t in writes.value)
              && (if r.Admitted? then
                    && r.call == |old(audits)| && audits == old(audits) + [a] && bytes == old(bytes) + Reservation(a)
                    && intents == if writes.Some? then old(intents)[r.call := writes.value] else old(intents)
                  else audits == old(audits) && bytes == old(bytes) && intents == old(intents))
    {
      hide Reservation, Overlaps, Charges, Charge, AuditsOk, IntentsOk, Disjoint;
      var a := Audit(ref, startedAt, writes, None, false);
      if maxEntries.Some? && |audits| >= maxEntries.value {
        return EntryQuota;
      }
      if maxBytes.Some? && bytes + Reservation(a) > maxBytes.value {
        return ByteQuota;
      }
      if writes.Some? {
        IntentsMean(audits, intents);
        var conflict := Conflict(writes.value);
        if conflict.Some? {
          return OverlappingWrite(conflict.value);
        }
      }
      AdmissionKeepsIntents(audits, intents, a);
      AdmissionCharges(audits, a);
      if writes.Some? {
        intents := intents[|audits| := writes.value];
      }
      r := Admitted(|audits|);
      audits := audits + [a];
      bytes := bytes + Reservation(a);
    }

    /** The loop over the active writes, in whatever order. */
    method Conflict(resources: seq<Text>) returns (conflict: Option<nat>)
      ensures conflict.None? ==> forall k | k in intents ::
                [0x2A] !in intents[k] && [0x2A] !in resources && forall t | t in intents[k] :: t !in resources
      ensures conflict.Some? ==>
                && conflict.value in intents
                && ([0x2A] in intents[conflict.value] || [0x2A] in resources || exists t | t in intents[conflict.value] :: t in resources)
    {
      hide Overlaps;
      var left := intents.Keys;
      while left != {}
        invariant left <= intents.Keys
        invariant forall k | k in intents && k !in left :: !Overlaps(resources, intents[k])
        decreases |left|
      {
        var k :| k in left;
        OverlapMeans(intents[k], resources);
        if Overlaps(resources, intents[k]) {
          return Some(k);
        }
        left := left - {k};
      }
      forall k | k in intents
        ensures !Overlaps(intents[k], resources)
      {
        OverlapMeans(intents[k], resources);
      }
      NoneOverlaps(intents, resources);
      return None;
    }

    /** What a call records of its end changes no charge: other calls may run before it settles. */
    method Record(call: nat, ending: Ending)
      requires Valid() && call < |audits| && !audits[call].settled && SafeEnding(ending)
      modifies this`audits
      ensures Valid()
      ensures audits == old(audits)[call := old(audits)[call].(terminal := Some(TerminalOf(ending)))]
    {
      hide TerminalOf, Recordable, Charges, Charge, Disjoint, AuditsOk, IntentsOk;
      EndingsAreRecordable(ending);
      var a := audits[call].(terminal := Some(TerminalOf(ending)));
      ChargesUpdate(audits, call, a);
      RecordKeepsCharge(audits[call], TerminalOf(ending));
      RecordKeepsIntents(audits, intents, call, a);
      audits := audits[call := a];
    }

    /** Settlement gives the write intent up and never raises the charge. */
    method Settle(call: nat)
      requires Valid() && call < |audits| && !audits[call].settled && audits[call].terminal.Some?
      modifies this
      ensures Valid() && bytes <= old(bytes)
      ensures audits == old(audits)[call := old(audits)[call].(settled := true)]
      ensures bytes == old(bytes) + AuditBytes(old(audits)[call]) + 2 - Reservation(old(audits)[call])
      ensures intents == old(intents) - {call}
    {
      hide Charges, Charge, Disjoint, AuditsOk, IntentsOk, AuditBytes, Reservation;
      var a := audits[call].(settled := true);
      ChargesUpdate(audits, call, a);
      SettlementLowersCharge(audits, call);
      SettlementKeepsIntents(audits, intents, call);
      intents := intents - {call};
      bytes := bytes + AuditBytes(a) + 2 - Reservation(a);
      audits := audits[call := a];
    }

    /** The JSON of the audits, at any moment of any run, is no larger than what is charged. */
    lemma LogIsCovered()
      requires Valid() && audits != []
      ensures JsonBytes(audits) <= bytes
    {
      hide AuditsOk, IntentsOk, Disjoint, Texts, Charges;
      TextsAreCovered(audits);
    }

    /** Two calls that write the same resource, or anything beside a call that writes everything,
        are never under way together. */
    lemma WritersAreDisjoint(i: nat, j: nat)
      requires Valid() && i < j < |audits|
      requires !audits[i].settled && !audits[j].settled && audits[i].writes.Some? && audits[j].writes.Some?
      ensures [0x2A] !in audits[i].writes.value && [0x2A] !in audits[j].writes.value
      ensures forall t | t in audits[i].writes.value :: t !in audits[j].writes.value
    {
      hide AuditsOk, Charges, Overlaps;
      OverlapMeans(audits[i].writes.value, audits[j].writes.value);
    }

    /** When every call has settled, nothing is held and the charge is the size of what was said. */
    lemma QuietMeansSettled()
      requires Valid() && forall k | 0 <= k < |audits| :: audits[k].settled
      ensures intents == map[] && bytes == initial + Texts(audits) + 2 * |audits|
    {
      hide AuditsOk, Charges, Texts, Disjoint;
      SettledCharges(audits);
      assert forall k | k in intents :: false;
      assert intents.Keys == {};
    }
  }

  lemma AdmissionCharges(audits: seq<Audit>, a: Audit)
    requires a.terminal.None? && !a.settled
    ensures Charges(audits + [a]) == Charges(audits) + Reservation(a)
    ensures AuditsOk(audits) ==> AuditsOk(audits + [a])
  {
    hide Charges, Reservation, Texts;
    ChargesSplit(audits, [a]);
    ChargeOfOne(a);
  }

  lemma IntentsMean(audits: seq<Audit>, intents: map<nat, seq<Text>>)
    requires IntentsOk(audits, intents)
    ensures forall k: nat :: k in intents <==> k < |audits| && IsWriting(audits[k])
    ensures forall k | k in intents :: audits[k].writes.value == intents[k]
  {
  }

  lemma NoneOverlaps(intents: map<nat, seq<Text>>, resources: seq<Text>)
    requires forall k | k in intents :: !Overlaps(intents[k], resources)
    ensures forall k | k in intents ::
              [0x2A] !in intents[k] && [0x2A] !in resources && forall t | t in intents[k] :: t !in resources
  {
  }

  lemma AdmissionKeepsIntents(audits: seq<Audit>, intents: map<nat, seq<Text>>, a: Audit)
    requires IntentsOk(audits, intents) && Disjoint(intents) && !a.settled
    requires a.writes.Some? ==> forall k | k in intents ::
               [0x2A] !in intents[k] && [0x2A] !in a.writes.value && forall t | t in intents[k] :: t !in a.writes.value
    ensures var more := if a.writes.Some? then intents[|audits| := a.writes.value] else intents;
            IntentsOk(audits + [a], more) && Disjoint(more)
  {
    hide Overlaps;
    if a.writes.Some? {
      forall k | k in intents
        ensures !Overlaps(intents[k], a.writes.value) && !Overlaps(a.writes.value, intents[k])
      {
        OverlapMeans(intents[k], a.writes.value);
      }
    }
  }

  lemma RecordKeepsCharge(a: Audit, t: Terminal)
    requires !a.settled
    ensures Charge(a.(terminal := Some(t))) == Charge(a)
  {
    hide Digits, StringBytes;
  }

  lemma RecordKeepsIntents(audits: seq<Audit>, intents: map<nat, seq<Text>>, call: nat, a: Audit)
    requires call < |audits| && a == audits[call].(terminal := a.terminal)
    requires AuditsOk(audits) && AuditOk(a) && IntentsOk(audits, intents)
    ensures AuditsOk(audits[call := a]) && IntentsOk(audits[call := a], intents)
  {
    hide AuditOk;
  }

  lemma SettlementLowersCharge(audits: seq<Audit>, call: nat)
    requires AuditsOk(audits) && call < |audits| && !audits[call].settled && audits[call].terminal.Some?
    ensures var a := audits[call].(settled := true);
            && Charge(a) == AuditBytes(a) + 2 <= Charge(audits[call]) == Reservation(a)
            && AuditBytes(a) == AuditBytes(audits[call]) && Reservation(a) == Reservation(audits[call])
            && AuditsOk(audits[call := a])
  {
    hide Digits, StringBytes, TerminalBytes, Recordable;
    assert AuditOk(audits[call]);
    AuditIsCovered(audits[call]);
  }

  lemma SettlementKeepsIntents(audits: seq<Audit>, intents: map<nat, seq<Text>>, call: nat)
    requires IntentsOk(audits, intents) && Disjoint(intents) && call < |audits|
    ensures IntentsOk(audits[call := audits[call].(settled := true)], intents - {call}) && Disjoint(intents - {call})
  {
    hide Overlaps;
  }

  lemma {:induction false} SettledCharges(audits: seq<Audit>)
    requires forall k | 0 <= k < |audits| :: audits[k].settled
    ensures Charges(audits) == Texts(audits) + 2 * |audits|
  {
    hide AuditBytes;
    if audits != [] {
      SettledCharges(audits[1..]);
    }
  }
}
