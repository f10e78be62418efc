/** Paging through a captured local search (#searchPage in src/providers/local-provider.ts): one
    page of records within a result budget, and the cache of single-use cursors. */
module SearchPages {
  import opened Utf16
  import opened Json
  import opened Wrappers

  datatype Record = PathRecord(path: Text) | MatchRecord(path: Text, line: nat, text: Text)

  datatype Reason = MatchText | Count | Output | OversizedFiles

  /** A result as delivered; cursor holds the token of the next page. */
  datatype Result = Result(records: seq<Record>, truncated: bool, scopeExhausted: bool, cursor: Option<nat>, reasons: seq<Reason>)

  /** What a search captured: all its records, and the reasons it can carry into its pages. */
  datatype Captured = Captured(scopeUnits: nat, matches: bool, records: seq<Record>, truncated: bool, scopeExhausted: bool, reasons: seq<Reason>)

  datatype Entry = Entry(key: Text, fingerprint: Text, result: Captured, offset: nat, expires: int)

  datatype PageOutcome = Page(result: Result, offset: nat) | CannotAdvance | OverBudget

  const MAX_SNAPSHOTS := 8
  const LIFETIME := 60000

  // ----- serialized size

  function RecordUnits(r: Record): nat {
    match r
    case PathRecord(path) => StringUnits(path)
    case MatchRecord(path, line, text) => 25 + StringUnits(path) + Digits(line) + StringUnits(text)
  }

  function RecordsUnits(rs: seq<Record>): nat {
    if rs == [] then 0
    else RecordsUnits(rs[..|rs| - 1]) + RecordUnits(rs[|rs| - 1]) + if |rs| > 1 then 1 else 0
  }

  function ReasonUnits(r: Reason): nat {
    match r case MatchText => 12 case Count => 7 case Output => 8 case OversizedFiles => 17
  }

  function ReasonsUnits(rs: seq<Reason>): nat {
    if rs == [] then 0
    else ReasonsUnits(rs[..|rs| - 1]) + ReasonUnits(rs[|rs| - 1]) + if |rs| > 1 then 1 else 0
  }

  function BoolUnits(b: bool): nat { if b then 4 else 5 }

  /** Characters of the serialized result; an absent list of reasons is not written. */
  function ResultUnits(captured: Captured, r: Result): nat {
    47 + (if captured.matches then 7 else 5) + captured.scopeUnits + RecordsUnits(r.records)
    + BoolUnits(r.truncated) + BoolUnits(r.scopeExhausted)
    + (if r.cursor.Some? then 52 else 0)
    + (if r.reasons == [] then 0 else 23 + ReasonsUnits(r.reasons))
  }

  /** Collection admits only clipped match text as an omission, and finishes consistently. */
  predicate CapturedOk(c: Captured) {
    && (forall r | r in c.reasons :: r == MatchText)
    && c.truncated == (c.reasons != []) && c.scopeExhausted == !c.truncated
  }

  /** The page that delivers the records from an offset up to another one. */
  function PageOf(c: Captured, from: nat, to: nat, limit: nat, next: nat): Result
    requires from <= to <= |c.records|
  {
    var reasons := c.reasons + if to < |c.records| then [if to - from == limit then Count else Output] else [];
    Result(c.records[from..to], reasons != [], reasons == [], if to < |c.records| then Some(next) else None, reasons)
  }

  /** The page as measured while it fills: with its cursor and both resumable reasons. */
  function Draft(c: Captured, records: seq<Record>, next: nat): Result {
    Result(records, true, false, Some(next), c.reasons + [Count, Output])
  }

  lemma ReasonsAppend(rs: seq<Reason>, r: Reason)
    ensures ReasonsUnits(rs + [r]) == ReasonsUnits(rs) + ReasonUnits(r) + if rs != [] then 1 else 0
  {
    assert (rs + [r])[..|rs|] == rs;
  }

  /** Finishing a page never makes it larger than its draft. */
  lemma FinishedIsSmaller(c: Captured, from: nat, to: nat, limit: nat, next: nat)
    requires from <= to <= |c.records|
    ensures ResultUnits(c, PageOf(c, from, to, limit, next)) <= ResultUnits(c, Draft(c, c.records[from..to], next))
  {
    ReasonsAppend(c.reasons, Count);
    ReasonsAppend(c.reasons, Output);
    ReasonsAppend(c.reasons + [Count], Output);
    assert c.reasons + [Count] + [Output] == c.reasons + [Count, Output];
    assert c.reasons + [] == c.reasons;
  }

  /** What a page says of itself: it has a cursor exactly if records are left, and then says whether the
      count or the budget ended it; the scope is exhausted exactly if none are left and the capture
      had omitted nothing. */
  lemma PageTells(c: Captured, from: nat, to: nat, limit: nat, next: nat)
    requires CapturedOk(c) && from <= to <= |c.records|
    ensures var r := PageOf(c, from, to, limit, next);
            && r.records == c.records[from..to]
            && r.cursor == (if to < |c.records| then Some(next) else None)
            && (r.scopeExhausted <==> to == |c.records| && c.scopeExhausted)
            && r.truncated == !r.scopeExhausted
            && (Count in r.reasons <==> to < |c.records| && to - from == limit)
            && (Output in r.reasons <==> to < |c.records| && to - from != limit)
            && (MatchText in r.reasons <==> !c.scopeExhausted)
            && OversizedFiles !in r.reasons
  {
    assert c.reasons != [] ==> c.reasons[0] in c.reasons;
  }

  /** One page of a captured result. It holds the next records in order, at least one unless none
      is left, and it fits the budget; the last page has no cursor. The final budget check can
      fail only for a result without any record left whose bare envelope is over the budget. */
  method FillPage(c: Captured, from: nat, limit: nat, budget: nat, next: nat) returns (outcome: PageOutcome)
    requires CapturedOk(c) && from <= |c.records| && limit >= 1
    ensures match outcome
            case Page(result, to) =>
              && from <= to <= |c.records| && to - from <= limit && (from < |c.records| ==> from < to)
              && result == PageOf(c, from, to, limit, next)
              && ResultUnits(c, result) <= budget
              && (to < |c.records| && to - from < limit ==> ResultUnits(c, Draft(c, c.records[from..to + 1], next)) > budget)
            case CannotAdvance => from < |c.records| && ResultUnits(c, Draft(c, [c.records[from]], next)) > budget
            case OverBudget => true
    ensures outcome.OverBudget? <==> from == |c.records| && ResultUnits(c, PageOf(c, from, from, limit, next)) > budget
  {
    hide RecordsUnits, ReasonsUnits;
    var all := c.records;
    var offset := from;
    var records: seq<Record> := [];
    var result := Result([], true, false, None, []);
    if |all| - offset <= limit {
      records := all[offset..];
      result := Result(records, c.truncated, c.scopeExhausted, None, c.reasons);
      if ResultUnits(c, result) <= budget {
        offset := |all|;
      } else {
        records := [];
      }
    }
    assert offset == |all| && from < |all| ==> records == all[from..];
    if offset < |all| {
      ghost var draft := Draft(c, records, next);
      while offset < |all| && |records| < limit
        invariant from <= offset <= |all| && records == all[from..offset] && |records| <= limit
        invariant offset > from ==> ResultUnits(c, Draft(c, records, next)) <= budget
      {
        assert all[from..offset + 1] == records + [all[offset]];
        var more := records + [all[offset]];
        assert more == all[from..offset + 1];
        if ResultUnits(c, Draft(c, more, next)) > budget {
          break;
        }
        records, offset := more, offset + 1;
      }
    }
    if offset == from && offset < |all| {
      assert all[from..from + 1] == [all[from]];
      return CannotAdvance;
    }
    var reasons := c.reasons;
    if offset < |all| {
      reasons := reasons + [if |records| == limit then Count else Output];
    }
    result := Result(records, reasons != [], reasons == [], if offset < |all| then Some(next) else None, reasons);
    assert result == PageOf(c, from, offset, limit, next);
    FinishedIsSmaller(c, from, offset, limit, next);
    if ResultUnits(c, result) > budget {
      return OverBudget;
    }
    return Page(result, offset);
  }

  /** The final check is not dead code: a search that found nothing, in a scope described by more
      characters than the budget has, fails it. */
  lemma EmptyCaptureCanExceedBudget()
    ensures var c := Captured(2100, false, [], false, true, []);
            CapturedOk(c) && ResultUnits(c, PageOf(c, 0, 0, 100, 0)) > 1000
  {
  }

  // ----- the cursor cache

  datatype Request = Request(key: Text, cursor: Option<nat>, entry: Option<Entry>, started: int)

  datatype Begun = Begun(request: Request) | BadCursor | CacheFull

  datatype Answer = Answered(result: Result) | Refused

  /** One successful page: the cursor it consumed, the entry it was cut from, where it ended, and
      the cursor it issued. */
  datatype Served = Served(cursor: Option<nat>, entry: Entry, to: nat, issued: Option<nat>, result: Result)

  ghost predicate EntryOk(e: Entry) {
    CapturedOk(e.result) && e.offset < |e.result.records|
  }

  /** A served page is the stretch of its capture from the entry's offset to where it ended. */
  ghost predicate ServedOk(v: Served, budget: nat) {
    && CapturedOk(v.entry.result)
    && v.entry.offset <= v.to <= |v.entry.result.records|
    && v.result.records == v.entry.result.records[v.entry.offset..v.to]
    && (v.entry.offset < |v.entry.result.records| ==> v.entry.offset < v.to)
    && (v.issued.Some? <==> v.to < |v.entry.result.records|)
    && v.result.cursor == v.issued
    && (v.result.scopeExhausted <==> v.issued.None? && v.entry.result.scopeExhausted)
    && v.result.truncated == !v.result.scopeExhausted
    && ResultUnits(v.entry.result, v.result) <= budget
  }

  /** A page before the n-th issued the token, and e is what it left behind. */
  ghost predicate IssuedBefore(served: seq<Served>, t: nat, e: Entry, n: nat)
    requires n <= |served|
  {
    exists k :: 0 <= k < n && served[k].issued == Some(t) && e == served[k].entry.(offset := served[k].to)
  }

  ghost predicate ConsumedBefore(served: seq<Served>, t: nat, n: nat)
    requires n <= |served|
  {
    exists k :: 0 <= k < n && served[k].cursor == Some(t)
  }

  /** A cached cursor was issued, not yet consumed, and stands for what its page left behind. */
  ghost predicate CachedOk(pages: map<nat, Entry>, nextToken: nat, served: seq<Served>, t: nat)
    requires t in pages
  {
    t < nextToken && EntryOk(pages[t]) && IssuedBefore(served, t, pages[t], |served|) && !ConsumedBefore(served, t, |served|)
  }

  /** The k-th page is within its budget, and the cursor it consumed had been issued for exactly
      its entry and not been consumed before. */
  ghost predicate HistoryOk(budget: nat, nextToken: nat, served: seq<Served>, k: nat)
    requires k < |served|
  {
    var v := served[k];
    && ServedOk(v, budget)
    && (v.issued.Some? ==> v.issued.value < nextToken && forall j | 0 <= j < k :: served[j].issued != v.issued)
    && (v.cursor.Some? ==>
          && v.cursor.value < nextToken
          && IssuedBefore(served, v.cursor.value, v.entry, k) && !ConsumedBefore(served, v.cursor.value, k))
  }

  ghost predicate CacheOk(budget: nat, pages: map<nat, Entry>, nextToken: nat, served: seq<Served>) {
    && |pages| <= MAX_SNAPSHOTS
    && (forall t | t in pages :: CachedOk(pages, nextToken, served, t))
    && (forall k | 0 <= k < |served| :: HistoryOk(budget, nextToken, served, k))
  }

  lemma DroppingKeepsCacheOk(budget: nat, pages: map<nat, Entry>, nextToken: nat, served: seq<Served>, fewer: map<nat, Entry>)
    requires CacheOk(budget, pages, nextToken, served)
    requires forall t | t in fewer :: t in pages && fewer[t] == pages[t]
    ensures CacheOk(budget, fewer, nextToken, served)
  {
    hide HistoryOk, IssuedBefore, ConsumedBefore, EntryOk;
    assert fewer.Keys <= pages.Keys;
    SubsetIsNoLarger(fewer.Keys, pages.Keys);
    forall t | t in fewer
      ensures CachedOk(fewer, nextToken, served, t)
    {
      assert CachedOk(pages, nextToken, served, t);
    }
  }

  lemma HistoryExtends(budget: nat, nextToken: nat, served: seq<Served>, v: Served, later: nat, k: nat)
    requires k < |served| && HistoryOk(budget, nextToken, served, k) && nextToken <= later
    ensures HistoryOk(budget, later, served + [v], k)
  {
    hide ServedOk;
    var more := served + [v];
    assert forall j | 0 <= j <= k :: more[j] == served[j];
    var c := served[k].cursor;
    if c.Some? {
      var j :| 0 <= j < k && served[j].issued == c && served[k].entry == served[j].entry.(offset := served[j].to);
      assert more[j] == served[j];
    }
  }

  lemma CachedExtends(pages: map<nat, Entry>, nextToken: nat, served: seq<Served>, v: Served, later: nat, more: map<nat, Entry>, t: nat)
    requires t in pages && CachedOk(pages, nextToken, served, t) && nextToken <= later
    requires t in more && more[t] == pages[t] && v.cursor != Some(t)
    ensures CachedOk(more, later, served + [v], t)
  {
    hide EntryOk;
    var j :| 0 <= j < |served| && served[j].issued == Some(t) && pages[t] == served[j].entry.(offset := served[j].to);
    assert (served + [v])[j] == served[j];
    forall k | 0 <= k < |served + [v]|
      ensures (served + [v])[k].cursor != Some(t)
    {
      if k < |served| {
        assert served[k].cursor != Some(t);
      }
    }
  }

  /** Tokens not issued yet are in no page's past. */
  lemma FreshToken(budget: nat, pages: map<nat, Entry>, nextToken: nat, served: seq<Served>)
    requires CacheOk(budget, pages, nextToken, served)
    ensures nextToken !in pages
    ensures forall k | 0 <= k < |served| :: served[k].cursor != Some(nextToken)
  {
    hide IssuedBefore, ConsumedBefore, EntryOk, ServedOk;
    forall k | 0 <= k < |served|
      ensures served[k].cursor != Some(nextToken)
    {
      assert HistoryOk(budget, nextToken, served, k);
    }
    forall t | t in pages
      ensures t != nextToken
    {
      assert CachedOk(pages, nextToken, served, t);
    }
  }

  function Remaining(pages: map<nat, Entry>, v: Served): map<nat, Entry> {
    if v.cursor.Some? then pages - {v.cursor.value} else pages
  }

  /** What is cached once the page is served: its cursor goes, and what is left is cached under a new one. */
  function Cached(pages: map<nat, Entry>, v: Served): map<nat, Entry> {
    if v.issued.Some? then Remaining(pages, v)[v.issued.value := v.entry.(offset := v.to)] else Remaining(pages, v)
  }

  lemma ServingKeepsHistory(budget: nat, pages: map<nat, Entry>, nextToken: nat, served: seq<Served>, v: Served, later: nat)
    requires CacheOk(budget, pages, nextToken, served) && ServedOk(v, budget)
    requires v.cursor.Some? ==> v.cursor.value in pages && pages[v.cursor.value] == v.entry
    requires nextToken <= later && (v.issued.Some? ==> nextToken == v.issued.value < later)
    ensures forall k | 0 <= k < |served + [v]| :: HistoryOk(budget, later, served + [v], k)
  {
    hide HistoryOk, CachedOk, ServedOk;
    NewestOk(budget, pages, nextToken, served, v, later);
    forall k | 0 <= k < |served + [v]|
      ensures HistoryOk(budget, later, served + [v], k)
    {
      if k < |served| {
        HistoryExtends(budget, nextToken, served, v, later, k);
      }
    }
  }

  lemma ServingKeepsCached(budget: nat, pages: map<nat, Entry>, nextToken: nat, served: seq<Served>, v: Served, later: nat, t: nat)
    requires CacheOk(budget, pages, nextToken, served) && ServedOk(v, budget)
    requires v.cursor.Some? ==> v.cursor.value in pages && pages[v.cursor.value] == v.entry
    requires later == (if v.issued.Some? then nextToken + 1 else nextToken) && (v.issued.Some? ==> v.issued.value == nextToken)
    requires t in Cached(pages, v)
    ensures CachedOk(Cached(pages, v), later, served + [v], t)
  {
    hide HistoryOk, CachedOk, ServedOk;
    FreshToken(budget, pages, nextToken, served);
    if v.issued == Some(t) {
      NewestCached(budget, nextToken, served, v, Cached(pages, v));
    } else {
      CachedExtends(pages, nextToken, served, v, later, Cached(pages, v), t);
    }
  }

  lemma ServingKeepsSize(pages: map<nat, Entry>, v: Served)
    requires |pages| <= MAX_SNAPSHOTS && (v.issued.Some? ==> |Remaining(pages, v)| < MAX_SNAPSHOTS)
    ensures |Cached(pages, v)| <= MAX_SNAPSHOTS
  {
    SubsetIsNoLarger(Remaining(pages, v).Keys, pages.Keys);
    if v.issued.Some? {
      assert Cached(pages, v).Keys == Remaining(pages, v).Keys + {v.issued.value};
    }
  }

  lemma ServingKeepsCacheOk(budget: nat, pages: map<nat, Entry>, nextToken: nat, served: seq<Served>, v: Served)
    requires CacheOk(budget, pages, nextToken, served) && ServedOk(v, budget)
    requires v.cursor.Some? ==> v.cursor.value in pages && pages[v.cursor.value] == v.entry
    requires v.issued.Some? ==> v.issued.value == nextToken && |Remaining(pages, v)| < MAX_SNAPSHOTS
    ensures CacheOk(budget, Cached(pages, v), if v.issued.Some? then nextToken + 1 else nextToken, served + [v])
  {
    hide HistoryOk, CachedOk, ServedOk, Cached, Remaining;
    var later := if v.issued.Some? then nextToken + 1 else nextToken;
    ServingKeepsHistory(budget, pages, nextToken, served, v, later);
    ServingKeepsSize(pages, v);
    forall t | t in Cached(pages, v)
      ensures CachedOk(Cached(pages, v), later, served + [v], t)
    {
      ServingKeepsCached(budget, pages, nextToken, served, v, later, t);
    }
  }

  lemma NewestOk(budget: nat, pages: map<nat, Entry>, nextToken: nat, served: seq<Served>, v: Served, later: nat)
    requires CacheOk(budget, pages, nextToken, served) && ServedOk(v, budget)
    requires v.cursor.Some? ==> v.cursor.value in pages && pages[v.cursor.value] == v.entry
    requires nextToken <= later && (v.issued.Some? ==> nextToken == v.issued.value < later)
    ensures HistoryOk(budget, later, served + [v], |served|)
  {
    hide ServedOk, EntryOk, HistoryOk;
    var more := served + [v];
    if v.cursor.Some? {
      var t := v.cursor.value;
      assert CachedOk(pages, nextToken, served, t);
      var j :| 0 <= j < |served| && served[j].issued == Some(t) && v.entry == served[j].entry.(offset := served[j].to);
      assert more[j] == served[j];
      forall k | 0 <= k < |served|
        ensures more[k].cursor != Some(t)
      {
        assert served[k].cursor != Some(t);
      }
    }
    assert more[|served|] == v;
    forall k | 0 <= k < |served|
      ensures served[k].issued != Some(nextToken)
    {
      IssuedIsOld(budget, nextToken, served, k);
    }
    FoldNewest(budget, later, served, v);
  }

  lemma IssuedIsOld(budget: nat, nextToken: nat, served: seq<Served>, k: nat)
    requires k < |served| && HistoryOk(budget, nextToken, served, k)
    ensures served[k].issued != Some(nextToken)
  {
  }

  lemma FoldNewest(budget: nat, later: nat, served: seq<Served>, v: Served)
    requires ServedOk(v, budget)
    requires v.issued.Some? ==> v.issued.value < later && forall j | 0 <= j < |served| :: served[j].issued != v.issued
    requires v.cursor.Some? ==>
               && v.cursor.value < later
               && IssuedBefore(served + [v], v.cursor.value, v.entry, |served|) && !ConsumedBefore(served + [v], v.cursor.value, |served|)
    ensures HistoryOk(budget, later, served + [v], |served|)
  {
    hide ServedOk, IssuedBefore, ConsumedBefore;
  }

  lemma NewestCached(budget: nat, nextToken: nat, served: seq<Served>, v: Served, more: map<nat, Entry>)
    requires ServedOk(v, budget) && v.issued == Some(nextToken) && v.cursor != Some(nextToken)
    requires forall k | 0 <= k < |served| :: served[k].cursor != Some(nextToken)
    requires nextToken in more && more[nextToken] == v.entry.(offset := v.to)
    ensures CachedOk(more, nextToken + 1, served + [v], nextToken)
  {
    assert (served + [v])[|served|] == v;
  }

  /** The entry a request pages through: the one its cursor found, or that of its own capture. */
  function EntryOf(request: Request, fingerprint: Text, captured: Captured): Entry {
    if request.entry.Some? then request.entry.value
    else Entry(request.key, fingerprint, captured, 0, request.started + LIFETIME)
  }

  /** Not even one record, or the bare envelope, is within the budget. */
  ghost predicate PageRefused(c: Captured, offset: nat, limit: nat, budget: nat, next: nat) {
    && offset <= |c.records|
    && if offset < |c.records| then ResultUnits(c, Draft(c, [c.records[offset]], next)) > budget
       else ResultUnits(c, PageOf(c, offset, offset, limit, next)) > budget
  }

  /** Why a request is refused: the files changed, the entry expired or was consumed by another
      request, the page cannot advance, or a new search finds the cache full. */
  ghost predicate Refusable(budget: nat, pages: map<nat, Entry>, request: Request, fingerprint: Text, captured: Captured, limit: nat, now: int, next: nat) {
    || (request.cursor.None? && |pages| >= MAX_SNAPSHOTS)
    || if request.entry.None? then now >= request.started + LIFETIME || PageRefused(captured, 0, limit, budget, next)
       else
         var e := request.entry.value;
         || e.fingerprint != fingerprint || now >= e.expires
         || (request.cursor.Some? && (request.cursor.value !in pages || pages[request.cursor.value] != e))
         || PageRefused(e.result, e.offset, limit, budget, next)
  }

  lemma UnfoldRefusable(budget: nat, pages: map<nat, Entry>, request: Request, fingerprint: Text, captured: Captured, limit: nat, now: int, next: nat)
    requires request.entry.Some? <==> request.cursor.Some?
    ensures var e := EntryOf(request, fingerprint, captured);
            var c := e.result;
            Refusable(budget, pages, request, fingerprint, captured, limit, now, next) <==>
              || e.fingerprint != fingerprint || now >= e.expires
              || (request.cursor.Some? && (request.cursor.value !in pages || pages[request.cursor.value] != e))
              || (e.offset < |c.records| && ResultUnits(c, Draft(c, [c.records[e.offset]], next)) > budget)
              || (e.offset == |c.records| && ResultUnits(c, PageOf(c, e.offset, e.offset, limit, next)) > budget)
              || (request.cursor.None? && |pages| >= MAX_SNAPSHOTS)
  {
    hide ResultUnits, Draft, PageOf;
  }

  class SearchCache {
    const budget: nat
    var pages: map<nat, Entry>
    // cursors are random and never repeat: here they are numbered
    var nextToken: nat
    ghost var served: seq<Served>

    ghost predicate Valid()
      reads this
    {
      CacheOk(budget, pages, nextToken, served)
    }

    constructor (budget: nat)
      ensures Valid() && this.budget == budget && pages == map[] && served == []
    {
      this.budget := budget;
      pages, nextToken, served := map[], 0, [];
    }

    /** The synchronous part of a request up to its first wait: expired snapshots go, and the
        entry of the cursor is looked up. */
    method Begin(key: Text, cursor: Option<nat>, now: int) returns (begun: Begun)
      requires Valid()
      modifies this`pages
      ensures Valid()
      ensures pages == map t | t in old(pages) && old(pages)[t].expires > now :: old(pages)[t]
      ensures begun == if cursor.Some? && (cursor.value !in pages || pages[cursor.value].key != key) then BadCursor
                       else if cursor.None? && |pages| >= MAX_SNAPSHOTS then CacheFull
                       else Begun(Request(key, cursor, if cursor.Some? then Some(pages[cursor.value]) else None, now))
    {
      hide CacheOk;
      ghost var before := pages;
      pages := map t | t in pages && pages[t].expires > now :: pages[t];
      DroppingKeepsCacheOk(budget, before, nextToken, served, pages);
      if cursor.Some? && (cursor.value !in pages || pages[cursor.value].key != key) {
        return BadCursor;
      }
      if cursor.None? && |pages| >= MAX_SNAPSHOTS {
        return CacheFull;
      }
      return Begun(Request(key, cursor, if cursor.Some? then Some(pages[cursor.value]) else None, now));
    }

    /** The synchronous part behind the waits, with the fingerprint taken and, for a new search,
        its capture; other requests may have run since Begin. A page is delivered only by
        consuming the cursor it was asked for, and caches what is left under a new one. */
    method Finish(request: Request, fingerprint: Text, captured: Captured, limit: nat, now: int) returns (answer: Answer)
      requires Valid() && limit >= 1 && CapturedOk(captured)
      requires request.entry.Some? <==> request.cursor.Some?
      requires request.entry.Some? ==> EntryOk(request.entry.value)
      modifies this
      ensures Valid()
      ensures answer.Refused? ==> pages == old(pages) && served == old(served)
                                  && Refusable(budget, pages, request, fingerprint, captured, limit, now, nextToken)
      ensures answer.Answered? ==>
                && |served| == |old(served)| + 1 && served[..|old(served)|] == old(served)
                && var v := served[|old(served)|];
                   && v.result == answer.result && v.cursor == request.cursor
                   && (request.cursor.Some? ==> request.cursor.value in old(pages) && v.entry == old(pages)[request.cursor.value]
                                                && v.entry.fingerprint == fingerprint && now < v.entry.expires)
                   && (request.cursor.None? ==> v.entry.result == captured && v.entry.offset == 0 && now < request.started + LIFETIME)
                   && pages == Cached(old(pages), v)
      ensures answer.Answered? && answer.result.cursor.Some? ==>
                && answer.result.cursor.value !in old(pages) && answer.result.cursor.value in pages
                && var left := pages[answer.result.cursor.value];
                   && left.fingerprint == fingerprint
                   && left.offset == served[|old(served)|].to
                   && left.result == served[|old(served)|].entry.result
                   && (request.entry.None? ==> left.key == request.key && left.expires == request.started + LIFETIME)
                   && (request.entry.Some? ==> left.key == request.entry.value.key && left.expires == request.entry.value.expires)
    {
      hide CacheOk, ServedOk, ResultUnits, CapturedOk;
      UnfoldRefusable(budget, pages, request, fingerprint, captured, limit, now, nextToken);
      hide Refusable, PageRefused;
      if request.entry.Some? && request.entry.value.fingerprint != fingerprint {
        return Refused;
      }
      var entry := EntryOf(request, fingerprint, captured);
      var next := nextToken;
      var outcome := FillPage(entry.result, entry.offset, limit, budget, next);
      if !outcome.Page? || now >= entry.expires {
        return Refused;
      }
      if request.cursor.Some? && (request.cursor.value !in pages || pages[request.cursor.value] != entry) {
        return Refused;
      }
      var remaining := if request.cursor.Some? then pages - {request.cursor.value} else pages;
      var issued := outcome.result.cursor;
      CacheIsBounded(budget, pages, nextToken, served);
      RemovalShrinks(pages, request.cursor);
      FreshToken(budget, pages, nextToken, served);
      if issued.Some? && |remaining| >= MAX_SNAPSHOTS {
        assert request.cursor.None?;
        return Refused;
      }
      ghost var v := Served(request.cursor, entry, outcome.offset, issued, outcome.result);
      PageIsServed(budget, v, limit, next);
      assert remaining == Remaining(pages, v);
      ServingKeepsCacheOk(budget, pages, nextToken, served, v);
      pages := remaining;
      if issued.Some? {
        pages := pages[next := entry.(offset := outcome.offset)];
        nextToken := nextToken + 1;
      }
      served := served + [v];
      return Answered(outcome.result);
    }

    /** A page and the request that follows its cursor, for the same key and before the snapshot
        expires: the cursor is accepted, and stands for what the page left behind. */
    method FinishThenFollow(request: Request, fingerprint: Text, captured: Captured, limit: nat, now: int, later: int)
      returns (answer: Answer, begun: Begun)
      requires Valid() && limit >= 1 && CapturedOk(captured)
      requires request.entry.Some? <==> request.cursor.Some?
      requires request.entry.Some? ==> EntryOk(request.entry.value) && request.entry.value.key == request.key
      modifies this
      ensures Valid()
      ensures answer.Answered? && answer.result.cursor.Some? ==>
                |served| > 0 &&
                var expires := if request.entry.Some? then request.entry.value.expires else request.started + LIFETIME;
                var v := served[|served| - 1];
                && v.result == answer.result
                && if later >= expires then begun.BadCursor?
                   else begun == Begun(Request(request.key, answer.result.cursor,
                                               Some(Entry(request.key, fingerprint, v.entry.result, v.to, expires)), later))
    {
      hide CacheOk, ServedOk, ResultUnits, CapturedOk, Refusable, PageRefused, EntryOf, EntryOk, Cached;
      answer := Finish(request, fingerprint, captured, limit, now);
      begun := Begin(request.key, if answer.Answered? then answer.result.cursor else None, later);
    }

    /** Under any interleaving of requests, a cursor yields at most one page. */
    lemma CursorServesOnce(t: nat, j: nat, k: nat)
      requires Valid() && j < |served| && k < |served|
      requires served[j].cursor == Some(t) && served[k].cursor == Some(t)
      ensures j == k
    {
      hide ServedOk, IssuedBefore;
      assert HistoryOk(budget, nextToken, served, j) && HistoryOk(budget, nextToken, served, k);
    }

    /** A page that follows a cursor continues where the page that issued it ended. */
    lemma CursorContinues(k: nat) returns (j: nat)
      requires Valid() && k < |served| && served[k].cursor.Some?
      ensures j < k && served[j].issued == served[k].cursor
      ensures served[k].entry.result == served[j].entry.result && served[k].entry.offset == served[j].to
    {
      hide ServedOk, ConsumedBefore;
      assert HistoryOk(budget, nextToken, served, k);
      j :| 0 <= j < k && served[j].issued == served[k].cursor && served[k].entry == served[j].entry.(offset := served[j].to);
    }

    /** The records delivered along a chain of pages, in the order of the chain. */
    ghost function Delivered(chain: seq<nat>): seq<Record>
      requires forall i | 0 <= i < |chain| :: chain[i] < |served|
      reads this
    {
      if chain == [] then []
      else Delivered(chain[..|chain| - 1]) + served[chain[|chain| - 1]].result.records
    }

    /** From a new search on, each page follows the cursor of the page before it. */
    ghost predicate IsChain(chain: seq<nat>)
      reads this
    {
      && chain != [] && (forall i | 0 <= i < |chain| :: chain[i] < |served|)
      && var n := |chain| - 1;
         if n == 0 then served[chain[0]].entry.offset == 0
         else
           && IsChain(chain[..n])
           && served[chain[n]].cursor.Some? && served[chain[n]].cursor == served[chain[n - 1]].issued
    }

    /** Following cursors delivers the captured records once each, in order; all of them when the
        last page has no cursor. */
    lemma {:induction false} ChainDelivers(chain: seq<nat>)
      requires Valid() && IsChain(chain)
      ensures var first, last := served[chain[0]], served[chain[|chain| - 1]];
              && last.to <= |first.entry.result.records| && last.entry.result == first.entry.result
              && Delivered(chain) == first.entry.result.records[..last.to]
              && (last.issued.None? ==> Delivered(chain) == first.entry.result.records)
      decreases |chain|
    {
      hide HistoryOk, CacheOk;
      var n := |chain| - 1;
      var k := chain[n];
      ServedAt(k);
      if n == 0 {
        assert chain[..0] == [];
        assert Delivered(chain[..0]) == [];
      } else {
        ChainDelivers(chain[..n]);
        var p := chain[n - 1];
        var j := CursorContinues(k);
        IssuedOnce(j, p);
        var all := served[p].entry.result.records;
        assert all[..served[p].to] + all[served[p].to..served[k].to] == all[..served[k].to];
      }
    }

    lemma ServedAt(k: nat)
      requires Valid() && k < |served|
      ensures var v := served[k];
              && v.entry.offset <= v.to <= |v.entry.result.records|
              && v.result.records == v.entry.result.records[v.entry.offset..v.to]
              && (v.issued.Some? <==> v.to < |v.entry.result.records|)
    {
      hide IssuedBefore, ConsumedBefore;
      assert HistoryOk(budget, nextToken, served, k);
    }

    /** No two pages issue the same cursor. */
    lemma IssuedOnce(j: nat, p: nat)
      requires Valid() && j < |served| && p < |served|
      requires served[j].issued.Some? && served[j].issued == served[p].issued
      ensures j == p
    {
      hide IssuedBefore, ConsumedBefore, ServedOk;
      assert HistoryOk(budget, nextToken, served, j) && HistoryOk(budget, nextToken, served, p);
    }
  }

  lemma CacheIsBounded(budget: nat, pages: map<nat, Entry>, nextToken: nat, served: seq<Served>)
    requires CacheOk(budget, pages, nextToken, served)
    ensures |pages| <= MAX_SNAPSHOTS
  {
  }

  lemma PageIsServed(budget: nat, v: Served, limit: nat, next: nat)
    requires CapturedOk(v.entry.result) && v.entry.offset <= v.to <= |v.entry.result.records|
    requires v.entry.offset < |v.entry.result.records| ==> v.entry.offset < v.to
    requires v.result == PageOf(v.entry.result, v.entry.offset, v.to, limit, next) && v.issued == v.result.cursor
    requires ResultUnits(v.entry.result, v.result) <= budget
    ensures ServedOk(v, budget) && (v.issued.Some? ==> v.issued == Some(next))
  {
    PageTells(v.entry.result, v.entry.offset, v.to, limit, next);
    hide ResultUnits, CapturedOk;
  }

  lemma SubsetIsNoLarger(a: set<nat>, b: set<nat>)
    requires a <= b
    ensures |a| <= |b|
  {
    var rest := b - a;
    assert b == a + rest && a !! rest;
  }

  lemma RemovalShrinks(pages: map<nat, Entry>, cursor: Option<nat>)
    requires cursor.Some? ==> cursor.value in pages
    ensures cursor.Some? ==> |pages - {cursor.value}| == |pages| - 1
  {
    if cursor.Some? {
      var rest := pages - {cursor.value};
      assert pages.Keys == rest.Keys + {cursor.value};
    }
  }
}
