/** Reading a range of whole lines within a budget (#read in src/providers/local-provider.ts). */
module LocalRead {
  import opened Utf16
  import opened BoundedSearch
  import opened LineIndex
  import opened Wrappers

  datatype ReadResult = ReadResult(
    path: Text, text: Text, totalLines: nat, truncated: bool, sha256: Text,
    requestedRangeDelivered: bool, fileExhausted: bool, nextOffset: Option<nat>)

  datatype Outcome = Read(result: ReadResult) | MetadataTooLarge | LineTooLarge

  /** The zero-based lines asked for: from start up to end, within the file. */
  function RangeStart(offset: Option<nat>): nat
    requires offset.Some? ==> offset.value >= 1
  {
    (if offset.Some? then offset.value else 1) - 1
  }

  function RangeEnd(total: nat, offset: Option<nat>, limit: Option<nat>): nat
    requires offset.Some? ==> offset.value >= 1
  {
    var end := RangeStart(offset) + if limit.Some? then limit.value else 200;
    if total < end then total else end
  }

  /** The result that delivers the first count lines of the range. */
  function Page(path: Text, sha256: Text, lines: seq<Text>, start: nat, end: nat, count: nat): ReadResult
    requires start + count <= |lines|
  {
    var truncated := start + count < |lines|;
    ReadResult(path, Concat(lines[start..start + count]), |lines|, truncated, sha256,
               !truncated || start + count >= end, !truncated,
               if truncated then Some(start + count + 1) else None)
  }

  function EmptyPage(path: Text, sha256: Text, total: nat): ReadResult {
    ReadResult(path, [], total, false, sha256, true, true, None)
  }

  /** What a page says of itself: reading on from its next offset begins with the first line that it
      does not hold; without one it ends the file; and it says that the range is delivered exactly if
      it holds all of it. */
  lemma PageTells(path: Text, sha256: Text, lines: seq<Text>, start: nat, end: nat, count: nat)
    requires start + count <= |lines| && start < end <= |lines|
    ensures var page := Page(path, sha256, lines, start, end, count);
            && page.totalLines == |lines| && page.path == path && page.sha256 == sha256
            && page.truncated == page.nextOffset.Some? && page.fileExhausted == !page.truncated
            && (page.nextOffset.Some? ==> page.nextOffset.value >= 1 && RangeStart(page.nextOffset) == start + count < |lines|)
            && (page.nextOffset.None? ==> start + count == |lines|)
            && (page.requestedRangeDelivered <==> start + count >= end)
            && page.text + Concat(lines[start + count..]) == Concat(lines[start..])
  {
    ConcatJoin(lines[start..start + count], lines[start + count..]);
    assert lines[start..start + count] + lines[start + count..] == lines[start..];
  }

  /** For any measure of fitting: what is returned fits and is whole lines of the range, from its
      first on; a nonempty range delivers at least one line or fails; and it delivers all of the
      range if that fits. */
  method ReadLines(path: Text, sha256: Text, text: Text, offset: Option<nat>, limit: Option<nat>, fits: ReadResult -> bool)
    returns (outcome: Outcome)
    requires offset.Some? ==> offset.value >= 1
    ensures var lines := Lines(text);
            var start, end := RangeStart(offset), RangeEnd(|lines|, offset, limit);
            && (outcome.MetadataTooLarge? <==> !fits(EmptyPage(path, sha256, |lines|)))
            && (outcome.Read? ==> fits(outcome.result))
            && (outcome.Read? && start >= end ==> outcome.result == EmptyPage(path, sha256, |lines|))
            && (outcome.Read? && start < end ==>
                  exists count :: 1 <= count <= end - start && outcome.result == Page(path, sha256, lines, start, end, count))
            && (outcome.Read? && start < end && fits(Page(path, sha256, lines, start, end, end - start)) ==>
                  outcome.result == Page(path, sha256, lines, start, end, end - start))
            && (outcome.LineTooLarge? ==> start < end && !fits(Page(path, sha256, lines, start, end, end - start))
                                          && (end - start > 1 ==> !fits(Page(path, sha256, lines, start, end, 1))))
  {
    hide LinesFrom, Concat;
    var index := new LocalLineIndex(text);
    var lines := Lines(text);
    var start, end := RangeStart(offset), RangeEnd(index.TotalLines(), offset, limit);
    var empty := EmptyPage(path, sha256, index.TotalLines());
    if !fits(empty) {
      return MetadataTooLarge;
    }
    if start >= end {
      return Read(empty);
    }
    var complete := SlicePage(path, sha256, index, start, end, end - start);
    if fits(complete) {
      return Read(complete);
    }
    var low := LargestFittingInteger(0, end - start - 1,
      count => 0 <= count <= end - start && fits(Page(path, sha256, lines, start, end, count)));
    if low == 0 {
      return LineTooLarge;
    }
    var page := SlicePage(path, sha256, index, start, end, low);
    return Read(page);
  }

  /** One page, cut out of the text by the line index. */
  method SlicePage(path: Text, sha256: Text, index: LocalLineIndex, start: nat, end: nat, count: nat) returns (page: ReadResult)
    requires index.Valid() && start + count <= index.TotalLines()
    ensures page == Page(path, sha256, Lines(index.text), start, end, count)
  {
    hide LinesFrom;
    var truncated := start + count < index.TotalLines();
    assert count == 0 ==> Lines(index.text)[start..start + count] == [];
    page := ReadResult(path, index.Slice(start, start + count), index.TotalLines(), truncated, sha256,
                       !truncated || start + count >= end, !truncated,
                       if truncated then Some(start + count + 1) else None);
  }
}
