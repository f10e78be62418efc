/** The JSON sizes of catalog pages and descriptor chunks (page, token and fits in
    src/core/catalog-snapshot-store.ts), and what they mean for the budgets that are admitted. */
module CatalogSizes {
  import opened Utf16
  import opened Json
  import opened CatalogPages
  import opened Wrappers

  const SAFE_INTEGER := 0x20_0000_0000_0000
  const MIN_BUDGET := 1000
  const MAX_CURSOR_UNITS := 400

  function IntUnits(i: int): nat { if i < 0 then 1 + Digits(-i) else Digits(i) }

  function BoolUnits(b: bool): nat { if b then 4 else 5 }

  /** The array [1,"…",family,descriptor,position,expires] with an identifier of 16 characters in
      unpadded base64url, a dot, and a MAC of 43 characters. */
  function CursorUnits(c: Cursor): nat {
    if c.Forged? then 0
    else (4 * (27 + IntUnits(c.descriptor) + IntUnits(c.position) + IntUnits(c.expires)) + 2) / 3 + 1 + 43
  }

  function NextUnits(next: Option<Cursor>): nat {
    if next.Some? then 16 + CursorUnits(next.value) else 0
  }

  function ChunkEnvelope(c: Chunk): nat {
    73 + Digits(c.totalChars) + BoolUnits(c.complete) + NextUnits(c.nextCursor)
  }

  function ChunkUnits(c: Chunk): nat { ChunkEnvelope(c) + StringUnits(c.text) + StringUnits(c.digest) }

  function ChunkBytes(c: Chunk): nat { ChunkEnvelope(c) + StringBytes(c.text) + StringBytes(c.digest) }

  function ChunkFits(budget: Budget): Chunk -> bool {
    c => ChunkUnits(c) <= budget.chars && ChunkBytes(c) <= budget.bytes
  }

  /** An inline descriptor is written as its JSON text. */
  function ItemUnits(item: Item): nat {
    match item
    case Inline(text) => 15 + |text|
    case Deferred(digest, cursor) => 43 + StringUnits(digest) + CursorUnits(cursor)
  }

  function ItemBytes(item: Item): nat {
    match item
    case Inline(text) => 15 + ByteLength(text)
    case Deferred(digest, cursor) => 43 + StringBytes(digest) + CursorUnits(cursor)
  }

  /** With the comma or bracket behind each item. */
  function ItemsUnits(items: seq<Item>): nat {
    if items == [] then 0 else 1 + ItemUnits(items[0]) + ItemsUnits(items[1..])
  }

  function ItemsBytes(items: seq<Item>): nat {
    if items == [] then 0 else 1 + ItemBytes(items[0]) + ItemsBytes(items[1..])
  }

  function PageEnvelope(p: Page): nat {
    44 + (if p.items == [] then 1 else 0) + Digits(p.total) + Digits(p.returned) + BoolUnits(p.complete) + NextUnits(p.nextCursor)
  }

  function PageUnits(p: Page): nat { PageEnvelope(p) + ItemsUnits(p.items) }

  function PageBytes(p: Page): nat { PageEnvelope(p) + ItemsBytes(p.items) }

  function PageFits(budget: Budget): Page -> bool {
    p => PageUnits(p) <= budget.chars && PageBytes(p) <= budget.bytes
  }

  /** Lengths and times are safe integers, and digests have 64 hexadecimal digits. */
  ghost predicate Measurable(s: Source) {
    && |s.pub.entries| < SAFE_INTEGER && 0 <= s.expires < SAFE_INTEGER
    && forall i | 0 <= i < |s.pub.entries| :: |s.pub.entries[i].text| < SAFE_INTEGER && |s.pub.entries[i].digest| <= 64
  }

  predicate Admitted(budget: Budget) {
    budget.bytes >= MIN_BUDGET && budget.chars >= MIN_BUDGET
  }

  lemma IntUnitsBound(i: int)
    requires -1 <= i < SAFE_INTEGER
    ensures IntUnits(i) <= 16
  {
    hide Digits;
    SafeIntegerDigits(if i < 0 then 1 else i);
    if i == -1 {
      DigitOfOne();
    }
  }

  lemma DigitOfOne()
    ensures Digits(1) == 1
  {
  }

  predicate SafeCursor(c: Cursor) {
    c.Signed? && -1 <= c.descriptor < SAFE_INTEGER && 0 <= c.position < SAFE_INTEGER && 0 <= c.expires < SAFE_INTEGER
  }

  /** A cursor that was issued is never too long to be looked at. */
  lemma CursorIsShort(c: Cursor)
    requires SafeCursor(c)
    ensures CursorUnits(c) <= 145 < MAX_CURSOR_UNITS
  {
    hide IntUnits;
    IntUnitsBound(c.descriptor);
    IntUnitsBound(c.position);
    IntUnitsBound(c.expires);
  }

  lemma NextIsShort(next: Option<Cursor>)
    requires next.Some? ==> SafeCursor(next.value)
    ensures NextUnits(next) <= 161
  {
    hide CursorUnits, SafeCursor;
    if next.Some? {
      CursorIsShort(next.value);
    }
  }

  // ----- chunks

  lemma SmallChunkFits(c: Chunk, budget: Budget)
    requires Admitted(budget) && |c.text| <= 2 && |c.digest| <= 64 && c.totalChars < SAFE_INTEGER
    requires c.nextCursor.Some? ==> SafeCursor(c.nextCursor.value)
    ensures ChunkFits(budget)(c)
  {
    hide Digits, ContentUnits, ContentBytes, NextUnits, SafeCursor;
    ContentBounds(c.text);
    ContentBounds(c.digest);
    SafeIntegerDigits(c.totalChars);
    NextIsShort(c.nextCursor);
  }

  lemma SmallStepFits(s: Source, descriptor: nat, position: nat, end: nat, budget: Budget)
    requires Measurable(s) && Admitted(budget) && descriptor < |s.pub.entries|
    requires position <= end <= position + 2 && end <= |s.pub.entries[descriptor].text|
    ensures FitsTo(s, descriptor, position, ChunkFits(budget), end)
  {
    hide ChunkFits;
    SmallChunkFits(ChunkOf(s, descriptor, position, end), budget);
  }

  /** A high surrogate at the end stands alone, and is written in six characters. */
  lemma {:induction false} LoneAtEnd(s: Text, u: Unit)
    requires IsHigh(u)
    ensures ContentUnits(s + [u]) == ContentUnits(s) + 6 && ContentBytes(s + [u]) == ContentBytes(s) + 6
  {
    if s == [] {
      assert [u][1..] == [];
      assert s + [u] == [u];
    } else if PairFirst(s) {
      LoneAtEnd(s[2..], u);
      assert (s + [u])[2..] == s[2..] + [u];
    } else {
      LoneAtEnd(s[1..], u);
      assert (s + [u])[1..] == s[1..] + [u];
    }
  }

  lemma {:induction false} DigitsGrow(a: nat, b: nat)
    requires a <= b
    ensures Digits(a) <= Digits(b)
    decreases b
  {
    if b >= 10 && a >= 10 {
      DigitsGrow(a / 10, b / 10);
    }
  }

  lemma CursorGrows(a: Cursor, b: Cursor)
    requires a.Signed? && b.Signed? && 0 <= a.position && b == a.(position := b.position) && a.position <= b.position
    ensures CursorUnits(a) <= CursorUnits(b)
  {
    hide Digits;
    DigitsGrow(a.position, b.position);
  }

  /** A chunk that ends inside a pair is larger than the one that ends before the pair: its lone
      surrogate is escaped. */
  lemma BeforeThePairFits(s: Source, descriptor: nat, position: nat, end: nat, budget: Budget)
    requires descriptor < |s.pub.entries| && position < end && SplitsPair(s.pub.entries[descriptor].text, end)
    requires FitsTo(s, descriptor, position, ChunkFits(budget), end)
    ensures FitsTo(s, descriptor, position, ChunkFits(budget), end - 1)
  {
    hide Digits, ContentUnits, ContentBytes, CursorUnits;
    var text := s.pub.entries[descriptor].text;
    var shorter, longer := ChunkOf(s, descriptor, position, end - 1), ChunkOf(s, descriptor, position, end);
    assert longer.text == shorter.text + [text[end - 1]];
    LoneAtEnd(shorter.text, text[end - 1]);
    CursorGrows(shorter.nextCursor.value, longer.nextCursor.value);
  }

  /** With the sizes that are measured, no admitted budget ever refuses a chunk: each call for one
      moves on or completes. */
  lemma ChunkIsNeverRefused(s: Source, descriptor: nat, position: nat, budget: Budget)
    requires Measurable(s) && Admitted(budget) && descriptor < |s.pub.entries| && position <= |s.pub.entries[descriptor].text|
    ensures !ChunkBlocked(s, descriptor, position, ChunkFits(budget))
  {
    hide Measurable, Admitted, FitsTo, ChunkFits;
    var text := s.pub.entries[descriptor].text;
    SmallStepFits(s, descriptor, position, position, budget);
    if position < |text| {
      SmallStepFits(s, descriptor, position, position + 1, budget);
      if SplitsPair(text, position + 1) {
        SmallStepFits(s, descriptor, position, position + 2, budget);
      }
      forall end: nat | position + 1 < end && SplitsPair(text, end) && FitsTo(s, descriptor, position, ChunkFits(budget), end)
        ensures FitsTo(s, descriptor, position, ChunkFits(budget), end - 1)
      {
        BeforeThePairFits(s, descriptor, position, end, budget);
      }
    }
  }

  // ----- pages

  lemma SmallItem(items: seq<Item>)
    requires |items| == 1 && items[0].Deferred? && |items[0].digest| <= 64 && SafeCursor(items[0].cursor)
    ensures ItemsUnits(items) <= 576 && ItemsBytes(items) <= 576
  {
    hide ContentUnits, ContentBytes, SafeCursor, CursorUnits;
    assert items[1..] == [];
    ContentBounds(items[0].digest);
    CursorIsShort(items[0].cursor);
  }

  lemma SmallPageFits(p: Page, budget: Budget)
    requires Admitted(budget) && p.total < SAFE_INTEGER && p.returned == |p.items| <= 1
    requires p.nextCursor.Some? ==> SafeCursor(p.nextCursor.value)
    requires p.items != [] ==> p.items[0].Deferred? && |p.items[0].digest| <= 64 && SafeCursor(p.items[0].cursor)
    ensures PageFits(budget)(p)
  {
    hide Digits, ContentUnits, ContentBytes, NextUnits, SafeCursor, CursorUnits;
    SafeIntegerDigits(p.total);
    SafeIntegerDigits(p.returned);
    NextIsShort(p.nextCursor);
    if p.items != [] {
      SmallItem(p.items);
    }
    assert PageEnvelope(p) <= 300;
  }

  /** Nor does any admitted budget refuse a catalog page: an entry can always be put off, and the
      empty page behind the last entry fits. */
  lemma PageIsNeverRefused(s: Source, position: nat, budget: Budget)
    requires Measurable(s) && Admitted(budget) && position <= |s.pub.entries|
    ensures if position < |s.pub.entries| then !Blocked(s, position, budget, PageFits(budget), [])
            else PageFits(budget)(PageOf(s, [], position))
  {
    hide PageFits, Oversize;
    if position < |s.pub.entries| {
      var item := DeferredItem(s, position);
      assert [] + [item] == [item];
      SmallPageFits(PageOf(s, [item], position + 1), budget);
    } else {
      SmallPageFits(PageOf(s, [], position), budget);
    }
  }

  lemma {:induction false} ItemsGrow(items: seq<Item>, item: Item)
    ensures ItemsUnits(items + [item]) == ItemsUnits(items) + 1 + ItemUnits(item)
    ensures ItemsBytes(items + [item]) == ItemsBytes(items) + 1 + ItemBytes(item)
  {
    hide ItemUnits, ItemBytes;
    if items == [] {
      assert items + [item] == [item] && [item][1..] == [];
    } else {
      ItemsGrow(items[1..], item);
      assert (items + [item])[1..] == items[1..] + [item];
    }
  }

  /** The shortcut for a descriptor that is larger than the budget gives the page that trying it would
      give: with their JSON sizes no page could hold it. */
  lemma OversizeNeverFits(s: Source, items: seq<Item>, e: Entry, budget: Budget, next: nat)
    requires Oversize(e, budget)
    ensures !PageFits(budget)(PageOf(s, items + [Inline(e.text)], next))
  {
    hide Digits, CursorUnits, NextUnits, ByteLength;
    ItemsGrow(items, Inline(e.text));
  }

  /** So an entry of a page is whole exactly if the page fits with it whole. */
  lemma InlineExactlyIfItFits(s: Source, position: nat, budget: Budget, items: seq<Item>, k: nat)
    requires ItemsAt(s, position, budget, PageFits(budget), items) && k < |items|
    ensures var e := s.pub.entries[position + k];
            items[k].Inline? <==> PageFits(budget)(PageOf(s, items[..k] + [Inline(e.text)], position + k + 1))
  {
    hide PageFits, Oversize, PageOf;
    assert ItemAt(s, position, budget, PageFits(budget), items, k);
    if Oversize(s.pub.entries[position + k], budget) {
      OversizeNeverFits(s, items[..k], s.pub.entries[position + k], budget, position + k + 1);
    }
  }
}
