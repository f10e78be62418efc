/** Pages of a published catalog, and chunks of one descriptor
    (catalogPage and describePage in src/core/catalog-snapshot-store.ts). */
module CatalogPages {
  import opened BoundedSearch
  import opened Utf16
  import opened Wrappers

  datatype Catalog = ListTools | SearchTools | DescribeTools | ListMcp | DescribeMcp

  predicate Describes(c: Catalog) { c.DescribeTools? || c.DescribeMcp? }

  datatype Entry = Entry(text: Text, digest: Text)

  datatype Publication = Publication(catalog: Catalog, entries: seq<Entry>)

  /** A cursor is a record signed with the store's key; text that was not signed so is Forged. */
  datatype Cursor = Signed(key: nat, id: nat, catalog: Catalog, descriptor: int, position: int, expires: int) | Forged

  function DescribeOf(c: Catalog): Catalog {
    if c.ListMcp? || c.DescribeMcp? then DescribeMcp else DescribeTools
  }

  predicate Addresses(pub: Publication, c: Cursor)
    requires c.Signed?
  {
    if c.descriptor == -1 then
      c.catalog == pub.catalog && !Describes(c.catalog) && 0 <= c.position <= |pub.entries|
    else
      && c.catalog == DescribeOf(pub.catalog) && 0 <= c.descriptor < |pub.entries|
      && 0 <= c.position <= |pub.entries[c.descriptor].text|
  }

  // ----- catalog pages

  /** A descriptor whole, by its JSON text, or put off to a cursor of its own. */
  datatype Item = Inline(text: Text) | Deferred(digest: Text, cursor: Cursor)

  datatype Page = Page(items: seq<Item>, total: nat, returned: nat, complete: bool, nextCursor: Option<Cursor>)

  /** What the pages of a snapshot are cut from. */
  datatype Source = Source(key: nat, id: nat, pub: Publication, expires: int)

  function DeferredItem(s: Source, at: nat): Item
    requires at < |s.pub.entries|
  {
    Deferred(s.pub.entries[at].digest, Signed(s.key, s.id, DescribeOf(s.pub.catalog), at, 0, s.expires))
  }

  function PageOf(s: Source, items: seq<Item>, next: nat): Page {
    var n := |s.pub.entries|;
    Page(items, n, |items|, next == n, if next < n then Some(Signed(s.key, s.id, s.pub.catalog, -1, next, s.expires)) else None)
  }

  datatype Budget = Budget(bytes: int, chars: int)

  predicate Oversize(e: Entry, budget: Budget) {
    |e.text| > budget.chars || ByteLength(e.text) > budget.bytes
  }

  /** The k-th item of the page is the k-th entry from the position on: whole if that fits, and
      otherwise put off. */
  predicate ItemAt(s: Source, position: nat, budget: Budget, fits: Page -> bool, items: seq<Item>, k: nat)
    requires k < |items| && position + |items| <= |s.pub.entries|
  {
    var at := position + k;
    var e := s.pub.entries[at];
    if !Oversize(e, budget) && fits(PageOf(s, items[..k] + [Inline(e.text)], at + 1)) then items[k] == Inline(e.text)
    else items[k] == DeferredItem(s, at) && fits(PageOf(s, items[..k] + [items[k]], at + 1))
  }

  predicate ItemsAt(s: Source, position: nat, budget: Budget, fits: Page -> bool, items: seq<Item>) {
    position + |items| <= |s.pub.entries| && forall k | 0 <= k < |items| :: ItemAt(s, position, budget, fits, items, k)
  }

  /** Not even a put-off entry fits behind the items. */
  predicate Blocked(s: Source, position: nat, budget: Budget, fits: Page -> bool, items: seq<Item>)
    requires position + |items| < |s.pub.entries|
  {
    var at := position + |items|;
    var e := s.pub.entries[at];
    && (Oversize(e, budget) || !fits(PageOf(s, items + [Inline(e.text)], at + 1)))
    && !fits(PageOf(s, items + [DeferredItem(s, at)], at + 1))
  }

  /** For any measure of fitting: the items are the entries from the position on, each inline where
      it fits; the page stops only at the end, at the limit, or where nothing more fits. */
  method FillPage(s: Source, position: nat, limit: nat, budget: Budget, fits: Page -> bool) returns (items: seq<Item>)
    requires position <= |s.pub.entries|
    ensures ItemsAt(s, position, budget, fits, items) && |items| <= limit
    ensures items != [] ==> fits(PageOf(s, items, position + |items|))
    ensures position + |items| < |s.pub.entries| && |items| < limit ==> Blocked(s, position, budget, fits, items)
  {
    hide PageOf, DeferredItem, Oversize;
    items := [];
    var next := position;
    while next < |s.pub.entries| && |items| < limit
      invariant next == position + |items| <= |s.pub.entries| && |items| <= limit
      invariant ItemsAt(s, position, budget, fits, items)
      invariant items != [] ==> fits(PageOf(s, items, next))
    {
      var e := s.pub.entries[next];
      if Oversize(e, budget) {
        var more := items + [DeferredItem(s, next)];
        if !fits(PageOf(s, more, next + 1)) {
          break;
        }
        ItemAdded(s, position, budget, fits, items, more[|items|]);
        items, next := more, next + 1;
        continue;
      }
      var more := items + [Inline(e.text)];
      if !fits(PageOf(s, more, next + 1)) {
        more := items + [DeferredItem(s, next)];
        if !fits(PageOf(s, more, next + 1)) {
          break;
        }
      }
      ItemAdded(s, position, budget, fits, items, more[|items|]);
      items, next := more, next + 1;
    }
  }

  lemma ItemAdded(s: Source, position: nat, budget: Budget, fits: Page -> bool, items: seq<Item>, item: Item)
    requires ItemsAt(s, position, budget, fits, items) && position + |items| < |s.pub.entries|
    requires var e := s.pub.entries[position + |items|];
             && fits(PageOf(s, items + [item], position + |items| + 1))
             && ((item == Inline(e.text) && !Oversize(e, budget))
                 || (item == DeferredItem(s, position + |items|)
                    && (Oversize(e, budget) || !fits(PageOf(s, items + [Inline(e.text)], position + |items| + 1)))))
    ensures ItemsAt(s, position, budget, fits, items + [item])
  {
    hide PageOf, DeferredItem, Oversize;
    var more := items + [item];
    forall k | 0 <= k < |more|
      ensures ItemAt(s, position, budget, fits, more, k)
    {
      assert more[..k] == items[..k];
      if k < |items| {
        assert ItemAt(s, position, budget, fits, items, k);
      } else {
        assert items[..k] == items;
      }
    }
  }

  // ----- descriptor chunks

  datatype Chunk = Chunk(text: Text, totalChars: nat, digest: Text, complete: bool, nextCursor: Option<Cursor>)

  function ChunkOf(s: Source, descriptor: nat, position: nat, end: nat): Chunk
    requires descriptor < |s.pub.entries| && position <= end <= |s.pub.entries[descriptor].text|
  {
    var e := s.pub.entries[descriptor];
    Chunk(e.text[position..end], |e.text|, e.digest, end == |e.text|,
          if end < |e.text| then Some(Signed(s.key, s.id, DescribeOf(s.pub.catalog), descriptor, end, s.expires)) else None)
  }

  predicate SplitsPair(text: Text, i: nat) {
    0 < i < |text| && IsHigh(text[i - 1]) && IsLow(text[i])
  }

  /** The chunk up to end fits. */
  predicate FitsTo(s: Source, descriptor: nat, position: nat, fits: Chunk -> bool, end: int)
    requires descriptor < |s.pub.entries|
  {
    position <= end <= |s.pub.entries[descriptor].text| && fits(ChunkOf(s, descriptor, position, end))
  }

  /** Not even one more code point fits: its one unit, or its two; or else the search ended inside a
      pair, and the chunk that stops before the pair is one that does not fit. */
  ghost predicate ChunkBlocked(s: Source, descriptor: nat, position: nat, fits: Chunk -> bool)
    requires descriptor < |s.pub.entries|
  {
    var text := s.pub.entries[descriptor].text;
    if position == |text| then !FitsTo(s, descriptor, position, fits, position)
    else
      || !FitsTo(s, descriptor, position, fits, position + 1)
      || (SplitsPair(text, position + 1) && !FitsTo(s, descriptor, position, fits, position + 2))
      || exists end: nat :: position + 1 < end && SplitsPair(text, end)
                            && FitsTo(s, descriptor, position, fits, end) && !FitsTo(s, descriptor, position, fits, end - 1)
  }

  /** For any measure of fitting: a chunk fits, moves on or completes, and splits no pair. All of the
      rest is delivered where it fits and is short enough to be tried. */
  method CutChunk(s: Source, descriptor: nat, position: nat, budget: Budget, fits: Chunk -> bool) returns (end: Option<nat>)
    requires descriptor < |s.pub.entries| && position <= |s.pub.entries[descriptor].text|
    requires budget.bytes >= 1000 && budget.chars >= 1000
    ensures var text := s.pub.entries[descriptor].text;
            && (end.Some? ==> FitsTo(s, descriptor, position, fits, end.value) && !SplitsPair(text, end.value)
                              && (position < end.value || position == |text|))
            && (end.None? ==> ChunkBlocked(s, descriptor, position, fits))
            && (FitsTo(s, descriptor, position, fits, |text|) && |text| - position <= budget.bytes && |text| - position <= budget.chars
                ==> end == Some(|text|))
  {
    hide ChunkOf;
    var text := s.pub.entries[descriptor].text;
    var most := if budget.bytes < budget.chars then budget.bytes else budget.chars;
    if |text| - position <= most {
      if FitsTo(s, descriptor, position, fits, |text|) {
        return Some(|text|);
      }
    }
    var upper := if |text| - 1 < position + most then |text| - 1 else position + most;
    var low := LargestFittingInteger(position, upper, end => FitsTo(s, descriptor, position, fits, end));
    if low < |text| && low > position && IsHigh(text[low - 1]) && IsLow(text[low]) {
      low := low - 1;
    }
    if (low == position && position < |text|) || !FitsTo(s, descriptor, position, fits, low) {
      return None;
    }
    return Some(low);
  }

  // ----- following cursors

  predicate Points(c: Cursor, key: nat, id: nat, catalog: Catalog, descriptor: int, position: int) {
    c.Signed? && c.key == key && c.id == id && c.catalog == catalog && c.descriptor == descriptor && c.position == position
  }

  predicate ItemFollows(key: nat, id: nat, pub: Publication, at: nat, item: Item)
    requires at < |pub.entries|
  {
    || item == Inline(pub.entries[at].text)
    || (item.Deferred? && item.digest == pub.entries[at].digest && Points(item.cursor, key, id, DescribeOf(pub.catalog), at, 0))
  }

  /** A page that a cursor at the position may yield, whatever the budgets: it moves on unless the
      position is the end, and names where to go on unless it is complete. */
  ghost predicate PageFollows(key: nat, id: nat, pub: Publication, position: nat, page: Page) {
    && position + |page.items| <= |pub.entries|
    && page.total == |pub.entries| && page.returned == |page.items|
    && (forall k | 0 <= k < |page.items| :: ItemFollows(key, id, pub, position + k, page.items[k]))
    && (page.items != [] || position == |pub.entries|)
    && (page.complete <==> position + |page.items| == |pub.entries|)
    && (if page.complete then page.nextCursor.None?
        else page.nextCursor.Some? && Points(page.nextCursor.value, key, id, pub.catalog, -1, position + |page.items|))
  }

  lemma FilledPageFollows(s: Source, position: nat, budget: Budget, fits: Page -> bool, items: seq<Item>)
    requires ItemsAt(s, position, budget, fits, items)
    requires items != [] || position == |s.pub.entries|
    ensures PageFollows(s.key, s.id, s.pub, position, PageOf(s, items, position + |items|))
  {
    hide Oversize;
    forall k | 0 <= k < |items|
      ensures ItemFollows(s.key, s.id, s.pub, position + k, items[k])
    {
      assert ItemAt(s, position, budget, fits, items, k);
    }
  }

  /** Each page is cut where the one before it left off: its cursor is the one that page named. */
  ghost predicate PagesFollow(key: nat, id: nat, pub: Publication, position: nat, pages: seq<Page>)
    decreases |pages|
  {
    pages == []
    || (PageFollows(key, id, pub, position, pages[0])
        && (|pages| > 1 ==> pages[0].nextCursor.Some?)
        && PagesFollow(key, id, pub, position + |pages[0].items|, pages[1..]))
  }

  function AllItems(pages: seq<Page>): seq<Item> {
    if pages == [] then [] else pages[0].items + AllItems(pages[1..])
  }

  /** Following the cursors, under whatever budgets, delivers each entry once and in order; only the
      last page can be complete, and it is where all are delivered; and there are no more pages
      than entries left, or one. */
  lemma {:induction false} PagesCover(key: nat, id: nat, pub: Publication, position: nat, pages: seq<Page>)
    requires PagesFollow(key, id, pub, position, pages) && position <= |pub.entries| && pages != []
    ensures position + |AllItems(pages)| <= |pub.entries|
    ensures forall k | 0 <= k < |AllItems(pages)| :: ItemFollows(key, id, pub, position + k, AllItems(pages)[k])
    ensures pages[|pages| - 1].complete <==> position + |AllItems(pages)| == |pub.entries|
    ensures |pages| <= |pub.entries| - position || |pages| == 1
    decreases |pages|
  {
    hide ItemFollows, Points;
    var first, rest := pages[0], pages[1..];
    if rest == [] {
      assert AllItems(pages) == first.items;
    } else {
      assert rest[|rest| - 1] == pages[|pages| - 1];
      PagesCover(key, id, pub, position + |first.items|, rest);
      forall k | 0 <= k < |AllItems(pages)|
        ensures ItemFollows(key, id, pub, position + k, AllItems(pages)[k])
      {
        if k >= |first.items| {
          assert AllItems(pages)[k] == AllItems(rest)[k - |first.items|];
        }
      }
    }
  }

  /** A chunk that a descriptor cursor at the position may yield. */
  ghost predicate ChunkFollows(key: nat, id: nat, pub: Publication, descriptor: nat, position: nat, chunk: Chunk)
    requires descriptor < |pub.entries|
  {
    var text := pub.entries[descriptor].text;
    && position + |chunk.text| <= |text|
    && chunk.text == text[position..position + |chunk.text|] && !SplitsPair(text, position + |chunk.text|)
    && chunk.totalChars == |text| && chunk.digest == pub.entries[descriptor].digest
    && (chunk.text != [] || position == |text|)
    && (chunk.complete <==> position + |chunk.text| == |text|)
    && (if chunk.complete then chunk.nextCursor.None?
        else chunk.nextCursor.Some? && Points(chunk.nextCursor.value, key, id, DescribeOf(pub.catalog), descriptor, position + |chunk.text|))
  }

  lemma CutChunkFollows(s: Source, descriptor: nat, position: nat, end: nat)
    requires descriptor < |s.pub.entries| && position <= end <= |s.pub.entries[descriptor].text|
    requires !SplitsPair(s.pub.entries[descriptor].text, end) && (position < end || position == |s.pub.entries[descriptor].text|)
    ensures ChunkFollows(s.key, s.id, s.pub, descriptor, position, ChunkOf(s, descriptor, position, end))
  {
  }

  ghost predicate ChunksFollow(key: nat, id: nat, pub: Publication, descriptor: nat, position: nat, chunks: seq<Chunk>)
    requires descriptor < |pub.entries|
    decreases |chunks|
  {
    chunks == []
    || (ChunkFollows(key, id, pub, descriptor, position, chunks[0])
        && (|chunks| > 1 ==> chunks[0].nextCursor.Some?)
        && ChunksFollow(key, id, pub, descriptor, position + |chunks[0].text|, chunks[1..]))
  }

  function AllText(chunks: seq<Chunk>): Text {
    if chunks == [] then [] else chunks[0].text + AllText(chunks[1..])
  }

  function AllBytes(chunks: seq<Chunk>): nat {
    if chunks == [] then 0 else ByteLength(chunks[0].text) + AllBytes(chunks[1..])
  }

  /** The chunks joined are the stored text from the position on. */
  lemma {:induction false} ChunksJoin(key: nat, id: nat, pub: Publication, descriptor: nat, position: nat, chunks: seq<Chunk>)
    requires descriptor < |pub.entries| && position <= |pub.entries[descriptor].text|
    requires ChunksFollow(key, id, pub, descriptor, position, chunks)
    ensures var text := pub.entries[descriptor].text;
            position + |AllText(chunks)| <= |text| && AllText(chunks) == text[position..position + |AllText(chunks)|]
    decreases |chunks|
  {
    hide Points, ByteLength, SplitsPair;
    if chunks != [] {
      var text := pub.entries[descriptor].text;
      var next := position + |chunks[0].text|;
      ChunksJoin(key, id, pub, descriptor, next, chunks[1..]);
      var end := next + |AllText(chunks[1..])|;
      assert text[position..next] + text[next..end] == text[position..end];
    }
  }

  /** As no chunk splits a pair, the UTF-8 sizes add up. */
  lemma {:induction false} ChunksWeigh(key: nat, id: nat, pub: Publication, descriptor: nat, position: nat, chunks: seq<Chunk>)
    requires descriptor < |pub.entries| && position <= |pub.entries[descriptor].text|
    requires ChunksFollow(key, id, pub, descriptor, position, chunks)
    ensures AllBytes(chunks) == ByteLength(AllText(chunks))
    decreases |chunks|
  {
    hide Points, ByteLength, SplitsPair;
    if chunks == [] {
      NoBytes();
    } else {
      var text := pub.entries[descriptor].text;
      var next := position + |chunks[0].text|;
      ChunksWeigh(key, id, pub, descriptor, next, chunks[1..]);
      ChunksJoin(key, id, pub, descriptor, next, chunks[1..]);
      JoinOfChunks(text, position, next, next + |AllText(chunks[1..])|);
    }
  }

  lemma NoBytes()
    ensures ByteLength([]) == 0
  {
  }

  /** Only the last chunk can be complete, and each but it moves on. */
  lemma {:induction false} ChunksEnd(key: nat, id: nat, pub: Publication, descriptor: nat, position: nat, chunks: seq<Chunk>)
    requires descriptor < |pub.entries| && position <= |pub.entries[descriptor].text| && chunks != []
    requires ChunksFollow(key, id, pub, descriptor, position, chunks)
    ensures chunks[|chunks| - 1].complete <==> position + |AllText(chunks)| == |pub.entries[descriptor].text|
    ensures |chunks| <= |pub.entries[descriptor].text| - position || |chunks| == 1
    decreases |chunks|
  {
    hide Points, ByteLength, SplitsPair;
    var first, rest := chunks[0], chunks[1..];
    if rest == [] {
      assert AllText(chunks) == first.text;
    } else {
      assert rest[|rest| - 1] == chunks[|chunks| - 1];
      ChunksEnd(key, id, pub, descriptor, position + |first.text|, rest);
    }
  }

  /** The chunks joined are the stored text from the position on, up to its end exactly when the last
      one says so; and since none splits a pair, their UTF-8 sizes add up to that of the text. */
  lemma ChunksCover(key: nat, id: nat, pub: Publication, descriptor: nat, position: nat, chunks: seq<Chunk>)
    requires descriptor < |pub.entries| && position <= |pub.entries[descriptor].text| && chunks != []
    requires ChunksFollow(key, id, pub, descriptor, position, chunks)
    ensures var text := pub.entries[descriptor].text;
            && position + |AllText(chunks)| <= |text|
            && AllText(chunks) == text[position..position + |AllText(chunks)|]
            && (chunks[|chunks| - 1].complete <==> position + |AllText(chunks)| == |text|)
            && AllBytes(chunks) == ByteLength(AllText(chunks))
            && (|chunks| <= |text| - position || |chunks| == 1)
  {
    hide *;
    ChunksJoin(key, id, pub, descriptor, position, chunks);
    ChunksWeigh(key, id, pub, descriptor, position, chunks);
    ChunksEnd(key, id, pub, descriptor, position, chunks);
  }

  lemma JoinOfChunks(text: Text, from: nat, middle: nat, to: nat)
    requires from <= middle <= to <= |text| && !SplitsPair(text, middle)
    ensures ByteLength(text[from..middle] + text[middle..to]) == ByteLength(text[from..middle]) + ByteLength(text[middle..to])
  {
    hide ByteLength;
    ByteLengthOfJoin(text[from..middle], text[middle..to]);
  }
}
