/** Reading many windows of many files within one budget (src/providers/local-read-many.ts),
    over files that do not change. */
module ReadMany {
  import opened Utf16
  import opened BoundedSearch
  import opened LineIndex
  import opened LocalRead
  import opened Wrappers

  datatype Window = Window(path: Text, offset: Option<nat>, limit: Option<nat>, expectedSha256: Option<Text>)

  /** What reading a path finds; an ordinary failure is one that a partial batch reports. */
  datatype Source = File(text: Text, sha256: Text) | Unreadable(ordinary: bool)

  type Disk = Text -> Source

  datatype Line = Line(path: Text, number: nat, content: Text)

  datatype SourceWindow = SourceWindow(
    path: Text, startLine: nat, endLine: Option<nat>, totalLines: nat, sha256: Text,
    source: seq<Line>, truncated: bool, nextOffset: Option<nat>)

  datatype Code = ReadFailed | StaleHash
  datatype Failure = Failure(index: nat, path: Text, code: Code)

  datatype Batch = Batch(
    complete: bool, unreadTails: seq<Window>, files: seq<SourceWindow>, remaining: seq<Window>,
    failures: Option<seq<Failure>>)

  datatype Error = BatchMetadata | FailureMetadata | SingleLine | ReadError
  datatype Outcome = Delivered(batch: Batch) | Threw(error: Error)

  /** What the argument schema admits. */
  predicate ValidWindow(w: Window) {
    (w.offset.Some? ==> w.offset.value >= 1) && (w.limit.Some? ==> w.limit.value >= 1)
  }

  predicate ValidWindows(ws: seq<Window>) {
    forall i | 0 <= i < |ws| :: ValidWindow(ws[i])
  }

  // ----- lines as delivered

  const CR: Unit := 13

  function StripCr(s: Text): Text {
    if s != [] && s[|s| - 1] == CR then s[..|s| - 1] else s
  }

  /** A line without its terminator. */
  function Display(line: Text): Text {
    if line != [] && line[|line| - 1] == LF then StripCr(line[..|line| - 1]) else line
  }

  function Displays(lines: seq<Text>): (d: seq<Text>)
    ensures |d| == |lines| && forall i | 0 <= i < |lines| :: d[i] == Display(lines[i])
  {
    seq(|lines|, i requires 0 <= i < |lines| => Display(lines[i]))
  }

  /** Splitting at every CRLF or LF. */
  function SplitFrom(text: Text, from: nat): (parts: seq<Text>)
    requires from <= |text|
    ensures parts != []
    decreases |text| - from
  {
    var at := IndexOfLf(text, from);
    if at < 0 then [text[from..]] else [StripCr(text[from..at])] + SplitFrom(text, at + 1)
  }

  /** The split of the raw text, without the empty part behind a final LF. */
  function RawLines(text: Text): seq<Text> {
    if text == [] then []
    else
      var parts := SplitFrom(text, 0);
      if text[|text| - 1] == LF then parts[..|parts| - 1] else parts
  }

  lemma SplitStep(text: Text, from: nat)
    requires from <= |text|
    ensures var at := IndexOfLf(text, from);
            SplitFrom(text, from) == if at < 0 then [text[from..]] else [StripCr(text[from..at])] + SplitFrom(text, at + 1)
  {
    hide IndexOfLf, StripCr;
  }

  lemma {:induction false} SplitIsDisplays(text: Text, from: nat)
    requires from <= |text|
    ensures SplitFrom(text, from)
         == Displays(LinesFrom(text, from)) + if from == |text| || text[|text| - 1] == LF then [[]] else []
    decreases |text| - from
  {
    hide IndexOfLf, StripCr, LinesFrom, SplitFrom, Displays, Display;
    LinesStep(text, from);
    SplitStep(text, from);
    var at := IndexOfLf(text, from);
    IndexOfLfIsFirst(text, from);
    if at >= 0 {
      SplitIsDisplays(text, at + 1);
      DisplayOfLine(text, from, at);
      DisplaysCons(text[from..at + 1], LinesFrom(text, at + 1));
    } else if from < |text| {
      DisplayOfTail(text, from);
    } else {
      assert text[from..] == [];
      assert Displays([]) == [];
    }
  }

  lemma DisplayOfLine(text: Text, from: nat, at: nat)
    requires from <= at < |text| && text[at] == LF
    ensures Display(text[from..at + 1]) == StripCr(text[from..at])
  {
    var line := text[from..at + 1];
    assert line[..|line| - 1] == text[from..at];
  }

  lemma DisplayOfTail(text: Text, from: nat)
    requires from < |text| && text[|text| - 1] != LF
    ensures Displays([text[from..]]) == [text[from..]]
  {
    var line := text[from..];
    assert line[|line| - 1] == text[|text| - 1];
  }

  lemma DisplaysCons(first: Text, rest: seq<Text>)
    ensures Displays([first] + rest) == [Display(first)] + Displays(rest)
  {
    hide Display;
  }

  /** The split of a run of lines is those lines, displayed. */
  lemma RawLinesOfRun(text: Text, start: nat, end: nat)
    requires start < end <= |Lines(text)|
    ensures RawLines(Concat(Lines(text)[start..end])) == Displays(Lines(text)[start..end])
  {
    hide LinesFrom, Concat, IndexOfLf, SplitFrom, Display;
    var run := Lines(text)[start..end];
    var raw := Concat(run);
    LinesOfRun(text, start, end);
    SplitIsDisplays(raw, 0);
    if raw == [] {
      EndOfText(raw);
    }
  }

  // ----- what a window asks for

  predicate Fails(disk: Disk, w: Window) {
    match disk(w.path)
    case Unreadable(ordinary) => ordinary
    case File(_, sha256) => w.expectedSha256.Some? && w.expectedSha256.value != sha256
  }

  function NumberLines(path: Text, first: nat, contents: seq<Text>): (lines: seq<Line>)
    ensures |lines| == |contents|
    ensures forall i | 0 <= i < |contents| :: lines[i] == Line(path, first + i, contents[i])
  {
    seq(|contents|, i requires 0 <= i < |contents| => Line(path, first + i, contents[i]))
  }

  /** The requested lines of a window, clipped to the end of its file. */
  ghost function Requested(disk: Disk, w: Window): seq<Line>
    requires ValidWindow(w)
  {
    match disk(w.path)
    case Unreadable(_) => []
    case File(text, _) =>
      var lines := Lines(text);
      var start, end := RangeStart(w.offset), RangeEnd(|lines|, w.offset, w.limit);
      if start >= end then [] else NumberLines(w.path, start + 1, Displays(lines[start..end]))
  }

  /** The lines of all windows that can be read. */
  ghost function RequestedAll(disk: Disk, ws: seq<Window>): seq<Line>
    requires ValidWindows(ws)
  {
    if ws == [] then []
    else (if Fails(disk, ws[0]) then [] else Requested(disk, ws[0])) + RequestedAll(disk, ws[1..])
  }

  ghost function FailingOf(disk: Disk, ws: seq<Window>): seq<Window> {
    if ws == [] then [] else (if Fails(disk, ws[0]) then [ws[0]] else []) + FailingOf(disk, ws[1..])
  }

  /** Lines and windows still to be read. */
  ghost function Work(disk: Disk, ws: seq<Window>): nat
    requires ValidWindows(ws)
  {
    if ws == [] then 0
    else (if Fails(disk, ws[0]) then 0 else 1 + |Requested(disk, ws[0])|) + Work(disk, ws[1..])
  }

  function LinesOf(files: seq<SourceWindow>): seq<Line> {
    if files == [] then [] else LinesOf(files[..|files| - 1]) + files[|files| - 1].source
  }

  /** What one window contributes: requested lines, failing windows, work. */
  ghost function Share(disk: Disk, w: Window): (seq<Line>, seq<Window>, nat)
    requires ValidWindow(w)
  {
    if Fails(disk, w) then ([], [w], 0) else (Requested(disk, w), [], 1 + |Requested(disk, w)|)
  }

  ghost function Total(disk: Disk, ws: seq<Window>): (seq<Line>, seq<Window>, nat)
    requires ValidWindows(ws)
  {
    (RequestedAll(disk, ws), FailingOf(disk, ws), Work(disk, ws))
  }

  function Plus(a: (seq<Line>, seq<Window>, nat), b: (seq<Line>, seq<Window>, nat)): (seq<Line>, seq<Window>, nat) {
    (a.0 + b.0, a.1 + b.1, a.2 + b.2)
  }

  lemma PlusAssociates(a: (seq<Line>, seq<Window>, nat), b: (seq<Line>, seq<Window>, nat), c: (seq<Line>, seq<Window>, nat))
    ensures Plus(Plus(a, b), c) == Plus(a, Plus(b, c))
  {
    assert a.0 + b.0 + c.0 == a.0 + (b.0 + c.0);
    assert a.1 + b.1 + c.1 == a.1 + (b.1 + c.1);
  }

  lemma PlusNothing(a: (seq<Line>, seq<Window>, nat))
    ensures Plus(a, ([], [], 0)) == a && Plus(([], [], 0), a) == a
  {
    assert a.0 + [] == a.0 && [] + a.0 == a.0;
    assert a.1 + [] == a.1 && [] + a.1 == a.1;
  }

  lemma NoWindows(disk: Disk)
    ensures ValidWindows([]) && Total(disk, []) == ([], [], 0)
  {
  }

  lemma HeadWindow(disk: Disk, ws: seq<Window>)
    requires ValidWindows(ws) && ws != []
    ensures ValidWindow(ws[0]) && Total(disk, ws) == Plus(Share(disk, ws[0]), Total(disk, ws[1..]))
  {
    hide Requested, Fails;
  }

  lemma {:induction false} SplitWindows(disk: Disk, a: seq<Window>, b: seq<Window>)
    requires ValidWindows(a) && ValidWindows(b)
    ensures ValidWindows(a + b) && Total(disk, a + b) == Plus(Total(disk, a), Total(disk, b))
  {
    hide Total, Share, ValidWindow, Plus;
    if a == [] {
      assert a + b == b;
      NoWindows(disk);
      PlusNothing(Total(disk, b));
    } else {
      assert (a + b)[1..] == a[1..] + b;
      SplitWindows(disk, a[1..], b);
      PlusAssociates(Share(disk, a[0]), Total(disk, a[1..]), Total(disk, b));
      HeadWindow(disk, a);
      HeadWindow(disk, a + b);
    }
  }

  lemma OneWindow(disk: Disk, w: Window)
    requires ValidWindow(w)
    ensures ValidWindows([w]) && Total(disk, [w]) == Share(disk, w)
  {
    hide Total, Share, ValidWindow, Plus;
    assert [w][1..] == [];
    HeadWindow(disk, [w]);
    NoWindows(disk);
    PlusNothing(Share(disk, w));
  }

  /** Failing windows ask for nothing that can be delivered. */
  lemma {:induction false} FailingAsksNothing(disk: Disk, ws: seq<Window>)
    requires ValidWindows(ws)
    ensures ValidWindows(FailingOf(disk, ws)) && |FailingOf(disk, ws)| <= |ws|
    ensures RequestedAll(disk, FailingOf(disk, ws)) == [] && Work(disk, FailingOf(disk, ws)) == 0
    ensures FailingOf(disk, FailingOf(disk, ws)) == FailingOf(disk, ws)
  {
    if ws != [] {
      hide Requested, Fails, ValidWindow;
      FailingAsksNothing(disk, ws[1..]);
      var rest := FailingOf(disk, ws[1..]);
      if Fails(disk, ws[0]) {
        assert ([ws[0]] + rest)[1..] == rest;
      } else {
        assert [] + rest == rest;
      }
    }
  }

  // ----- summaries

  /** The delivered window of each snapshot that ends last, in order of first appearance. */
  function Absorb(last: seq<SourceWindow>, file: SourceWindow): seq<SourceWindow> {
    if file.endLine.None? then last
    else if last == [] then [file]
    else if last[0].path == file.path && last[0].sha256 == file.sha256 then
      (if last[0].endLine.Some? && last[0].endLine.value >= file.endLine.value then last else [file] + last[1..])
    else [last[0]] + Absorb(last[1..], file)
  }

  function LastOf(files: seq<SourceWindow>): seq<SourceWindow> {
    if files == [] then [] else Absorb(LastOf(files[..|files| - 1]), files[|files| - 1])
  }

  function TailOf(file: SourceWindow): seq<Window> {
    if file.endLine.None? || file.endLine.value + 1 > file.totalLines then []
    else
      var offset := file.endLine.value + 1;
      var rest := file.totalLines - offset + 1;
      [Window(file.path, Some(offset), Some(if rest < 2000 then rest else 2000), Some(file.sha256))]
  }

  function Tails(last: seq<SourceWindow>): seq<Window> {
    if last == [] then [] else Tails(last[..|last| - 1]) + TailOf(last[|last| - 1])
  }

  function Summarize(files: seq<SourceWindow>, failed: seq<Window>, pending: seq<Window>, failures: Option<seq<Failure>>): Batch {
    Batch(failed + pending == [], Tails(LastOf(files)), files, failed + pending, failures)
  }

  /** The summary loop, with its map kept as a sequence in insertion order. */
  method SummarizeWindows(files: seq<SourceWindow>, failed: seq<Window>, pending: seq<Window>, failures: Option<seq<Failure>>) returns (batch: Batch)
    ensures batch == Summarize(files, failed, pending, failures)
  {
    var last: seq<SourceWindow> := [];
    for k := 0 to |files|
      invariant last == LastOf(files[..k])
    {
      assert files[..k + 1][..k] == files[..k];
      last := Absorb(last, files[k]);
    }
    assert files[..|files|] == files;
    var unreadTails: seq<Window> := [];
    for k := 0 to |last|
      invariant unreadTails == Tails(last[..k])
    {
      assert last[..k + 1][..k] == last[..k];
      unreadTails := unreadTails + TailOf(last[k]);
    }
    assert last[..|last|] == last;
    return Batch(failed + pending == [], unreadTails, files, failed + pending, failures);
  }

  lemma SummaryKeepsLists(files: seq<SourceWindow>, failed: seq<Window>, pending: seq<Window>, failures: Option<seq<Failure>>)
    ensures var b := Summarize(files, failed, pending, failures);
            b.failures == failures && b.files == files && b.remaining == failed + pending
  {
  }

  predicate SameSnapshot(a: SourceWindow, b: SourceWindow) {
    a.path == b.path && a.sha256 == b.sha256
  }

  ghost predicate Members(last: seq<SourceWindow>, files: seq<SourceWindow>) {
    forall k | 0 <= k < |last| :: last[k] in files
  }

  ghost predicate OnePerSnapshot(last: seq<SourceWindow>) {
    forall j, k | 0 <= j < k < |last| :: !SameSnapshot(last[j], last[k])
  }

  /** Some entry of the same snapshot ends no earlier. */
  ghost predicate Covered(last: seq<SourceWindow>, f: SourceWindow) {
    f.endLine.Some? ==>
      exists k :: 0 <= k < |last| && SameSnapshot(last[k], f) && last[k].endLine.Some? && f.endLine.value <= last[k].endLine.value
  }

  /** One entry per snapshot, a delivered window that ends last. */
  ghost predicate IsLastOf(last: seq<SourceWindow>, files: seq<SourceWindow>) {
    Members(last, files) && Ended(last) && OnePerSnapshot(last) && forall f | f in files :: Covered(last, f)
  }

  predicate Ended(last: seq<SourceWindow>) {
    forall k | 0 <= k < |last| :: last[k].endLine.Some?
  }

  lemma {:induction false} AbsorbLength(last: seq<SourceWindow>, f: SourceWindow)
    requires f.endLine.Some?
    ensures var a := Absorb(last, f);
            |a| == |last| || (|a| == |last| + 1 && a[|last|] == f && forall k | 0 <= k < |last| :: !SameSnapshot(last[k], f))
  {
    if last != [] && !SameSnapshot(last[0], f) {
      AbsorbLength(last[1..], f);
      assert forall k | 0 < k < |last| :: last[k] == last[1..][k - 1];
    }
  }

  lemma {:induction false} AbsorbEntry(last: seq<SourceWindow>, f: SourceWindow, k: nat)
    requires Ended(last) && f.endLine.Some? && k < |last|
    ensures var a := Absorb(last, f);
            && k < |a| && SameSnapshot(a[k], last[k]) && (a[k] == last[k] || a[k] == f)
            && a[k].endLine.Some? && last[k].endLine.value <= a[k].endLine.value
  {
    if k > 0 && !SameSnapshot(last[0], f) {
      AbsorbEntry(last[1..], f, k - 1);
    }
  }

  lemma {:induction false} AbsorbHolds(last: seq<SourceWindow>, f: SourceWindow) returns (at: nat)
    requires Ended(last) && f.endLine.Some?
    ensures var a := Absorb(last, f);
            at < |a| && SameSnapshot(a[at], f) && a[at].endLine.Some? && f.endLine.value <= a[at].endLine.value
  {
    if last == [] || SameSnapshot(last[0], f) {
      at := 0;
    } else {
      at := AbsorbHolds(last[1..], f);
      at := at + 1;
    }
  }

  /** Absorbing changes at most the entry of the same snapshot, and only to end later. */
  lemma AbsorbSteps(last: seq<SourceWindow>, f: SourceWindow) returns (at: nat)
    requires Ended(last) && f.endLine.Some?
    ensures var a := Absorb(last, f);
            && Ended(a) && (|a| == |last| || (|a| == |last| + 1 && a[|last|] == f && forall k | 0 <= k < |last| :: !SameSnapshot(last[k], f)))
            && (forall k | 0 <= k < |last| ::
                  SameSnapshot(a[k], last[k]) && last[k].endLine.value <= a[k].endLine.value && (a[k] == last[k] || a[k] == f))
            && at < |a| && SameSnapshot(a[at], f) && f.endLine.value <= a[at].endLine.value
  {
    hide Absorb, SameSnapshot;
    AbsorbLength(last, f);
    at := AbsorbHolds(last, f);
    forall k | 0 <= k < |last|
      ensures var a := Absorb(last, f);
              && SameSnapshot(a[k], last[k]) && (a[k] == last[k] || a[k] == f)
              && a[k].endLine.Some? && last[k].endLine.value <= a[k].endLine.value
    {
      AbsorbEntry(last, f, k);
    }
  }

  lemma CoverageGrows(last: seq<SourceWindow>, f: SourceWindow, g: SourceWindow)
    requires Ended(last) && f.endLine.Some? && Covered(last, g)
    ensures Covered(Absorb(last, f), g)
  {
    var at := AbsorbSteps(last, f);
    hide Absorb;
    if g.endLine.Some? {
      var k :| 0 <= k < |last| && SameSnapshot(last[k], g) && last[k].endLine.Some? && g.endLine.value <= last[k].endLine.value;
      assert SameSnapshot(Absorb(last, f)[k], g);
    }
  }

  lemma AbsorbKeepsEntries(last: seq<SourceWindow>, files: seq<SourceWindow>, f: SourceWindow)
    requires Members(last, files) && Ended(last) && OnePerSnapshot(last) && f.endLine.Some?
    ensures Members(Absorb(last, f), files + [f]) && Ended(Absorb(last, f)) && OnePerSnapshot(Absorb(last, f))
    ensures Covered(Absorb(last, f), f)
  {
    var at := AbsorbSteps(last, f);
    hide Absorb;
  }

  lemma AbsorbIsLast(last: seq<SourceWindow>, files: seq<SourceWindow>, f: SourceWindow)
    requires IsLastOf(last, files)
    ensures IsLastOf(Absorb(last, f), files + [f])
  {
    if f.endLine.Some? {
      hide Absorb, Members, Ended, OnePerSnapshot, Covered;
      AbsorbKeepsEntries(last, files, f);
      forall g | g in files + [f]
        ensures Covered(Absorb(last, f), g)
      {
        if g in files {
          CoverageGrows(last, f, g);
        }
      }
    }
  }

  /** The unread tails start behind the furthest delivered line of each snapshot, one tail each. */
  lemma {:induction false} LastOfIsLast(files: seq<SourceWindow>)
    ensures IsLastOf(LastOf(files), files)
  {
    hide IsLastOf, Absorb;
    if files == [] {
      NoneIsLast();
    } else {
      LastOfIsLast(files[..|files| - 1]);
      AbsorbIsLast(LastOf(files[..|files| - 1]), files[..|files| - 1], files[|files| - 1]);
      assert files == files[..|files| - 1] + [files[|files| - 1]];
    }
  }

  lemma NoneIsLast()
    ensures IsLastOf([], [])
  {
  }

  /** A line is its displayed content and its terminator: LF or CRLF, or none at the end of a text. */
  lemma DisplayDropsTerminator(line: Text)
    ensures line == Display(line) + [LF] || line == Display(line) + [CR, LF] || (line == Display(line) && (line == [] || line[|line| - 1] != LF))
    ensures |line| >= 2 && line[|line| - 1] == LF && line[|line| - 2] == CR ==> line == Display(line) + [CR, LF]
  {
  }

  /** The requested lines by their numbers: from the offset on, the first line without one, as many as
      the limit says, 200 without one, up to the end of the file. */
  lemma RequestedByNumber(disk: Disk, w: Window)
    requires ValidWindow(w) && disk(w.path).File?
    ensures var lines := Lines(disk(w.path).text);
            var first: int := if w.offset.Some? then w.offset.value else 1;
            var count: int := if w.limit.Some? then w.limit.value else 200;
            && |Requested(disk, w)| == (if first > |lines| then 0 else if first + count - 1 <= |lines| then count else |lines| - first + 1)
            && forall i | 0 <= i < |Requested(disk, w)| ::
                 first + i <= |lines| && Requested(disk, w)[i] == Line(w.path, first + i, Display(lines[first + i - 1]))
  {
    hide LinesFrom, Display;
  }

  /** A delivered window says what it holds: whole lines of its snapshot as it stands, by their numbers. */
  ghost predicate Genuine(disk: Disk, f: SourceWindow) {
    && disk(f.path).File? && f.sha256 == disk(f.path).sha256
    && var lines := Lines(disk(f.path).text);
       && f.totalLines == |lines| && f.startLine >= 1
       && f.endLine == (if f.source == [] then None else Some(f.startLine + |f.source| - 1))
       && (forall i | 0 <= i < |f.source| ::
             f.startLine + i <= |lines| && f.source[i] == Line(f.path, f.startLine + i, Display(lines[f.startLine + i - 1])))
       && (f.truncated <==> f.endLine.Some? && f.endLine.value < |lines|)
       && f.nextOffset == (if f.truncated then Some(f.endLine.value + 1) else None)
  }

  ghost predicate AllGenuine(disk: Disk, files: seq<SourceWindow>) {
    forall f | f in files :: Genuine(disk, f)
  }

  /** No delivered window of the same snapshot ends later. */
  ghost predicate EndsLast(f: SourceWindow, files: seq<SourceWindow>) {
    && f.endLine.Some?
    && forall g | g in files && SameSnapshot(f, g) && g.endLine.Some? :: g.endLine.value <= f.endLine.value
  }

  ghost predicate LeavesUnread(f: SourceWindow, files: seq<SourceWindow>) {
    EndsLast(f, files) && f.endLine.value < f.totalLines
  }

  /** The window asks for the lines behind the last one of f, 2000 of them at most, of the same snapshot. */
  ghost predicate AsksBehind(disk: Disk, f: SourceWindow, w: Window) {
    && f.endLine.Some? && f.endLine.value < f.totalLines && w.path == f.path
    && ValidWindow(w) && !Fails(disk, w) && w.expectedSha256 == Some(f.sha256)
    && disk(f.path).File? && f.totalLines == |Lines(disk(f.path).text)|
    && var asked, unread := Requested(disk, w), f.totalLines - f.endLine.value;
       && |asked| == (if unread < 2000 then unread else 2000)
       && forall i | 0 <= i < |asked| ::
            asked[i] == Line(f.path, f.endLine.value + 1 + i, Display(Lines(disk(f.path).text)[f.endLine.value + i]))
  }

  /** The unread tails: one for each file whose last delivered line is not its last line. */
  ghost predicate TailsAsk(disk: Disk, files: seq<SourceWindow>, tails: seq<Window>) {
    && (forall w | w in tails :: exists f :: f in files && EndsLast(f, files) && AsksBehind(disk, f, w))
    && (forall f | f in files && LeavesUnread(f, files) :: exists w :: w in tails && AsksBehind(disk, f, w))
    && (forall i, j | 0 <= i < j < |tails| :: tails[i].path != tails[j].path)
  }

  lemma TailAsksBehind(disk: Disk, f: SourceWindow)
    requires Genuine(disk, f) && f.endLine.Some?
    ensures if f.endLine.value < f.totalLines then |TailOf(f)| == 1 && AsksBehind(disk, f, TailOf(f)[0]) else TailOf(f) == []
  {
    hide LinesFrom, Display, Requested;
    if f.endLine.value < f.totalLines {
      RequestedByNumber(disk, TailOf(f)[0]);
    }
  }

  lemma AtMostOneTail(f: SourceWindow)
    ensures |TailOf(f)| <= 1
  {
  }

  /** The tails come from these entries, one from each that has one. */
  ghost predicate ComeFrom(last: seq<SourceWindow>, from: seq<nat>) {
    && |from| == |Tails(last)|
    && (forall n | 0 <= n < |from| :: from[n] < |last| && TailOf(last[from[n]]) == [Tails(last)[n]])
    && (forall n, m | 0 <= n < m < |from| :: from[n] < from[m])
    && (forall k: nat | k < |last| && TailOf(last[k]) != [] :: k in from)
  }

  lemma {:induction false} TailPlaces(last: seq<SourceWindow>) returns (from: seq<nat>)
    ensures ComeFrom(last, from)
  {
    hide *;
    if last == [] {
      from := [];
      NoPlaces();
    } else {
      var end := |last| - 1;
      var before := TailPlaces(last[..end]);
      from := before + if TailOf(last[end]) == [] then [] else [end];
      PlacesFollow(last[..end], last[end], before);
      assert last[..end] + [last[end]] == last;
    }
  }

  lemma NoPlaces()
    ensures ComeFrom([], [])
  {
  }

  lemma PlacesFollow(init: seq<SourceWindow>, f: SourceWindow, before: seq<nat>)
    requires ComeFrom(init, before)
    ensures ComeFrom(init + [f], before + if TailOf(f) == [] then [] else [|init|])
  {
    var last := init + [f];
    assert last[..|init|] == init;
    assert Tails(last) == Tails(init) + TailOf(f);
    AtMostOneTail(f);
    hide Tails, TailOf;
  }

  lemma EntryEndsLast(last: seq<SourceWindow>, files: seq<SourceWindow>, k: nat)
    requires IsLastOf(last, files) && k < |last|
    ensures last[k] in files && EndsLast(last[k], files)
  {
    hide Members, Ended, OnePerSnapshot, Covered, SameSnapshot;
    EntryIsMember(last, files, k);
    forall g | g in files && SameSnapshot(last[k], g) && g.endLine.Some?
      ensures g.endLine.value <= last[k].endLine.value
    {
      assert Covered(last, g);
      var j := CoveringEntry(last, g);
      OnePlace(last, g, j, k);
    }
  }

  lemma EntryIsMember(last: seq<SourceWindow>, files: seq<SourceWindow>, k: nat)
    requires Members(last, files) && Ended(last) && k < |last|
    ensures last[k] in files && last[k].endLine.Some?
  {
  }

  lemma CoveringEntry(last: seq<SourceWindow>, g: SourceWindow) returns (j: nat)
    requires Covered(last, g) && g.endLine.Some?
    ensures j < |last| && SameSnapshot(last[j], g) && last[j].endLine.Some? && g.endLine.value <= last[j].endLine.value
  {
    hide SameSnapshot;
    j :| 0 <= j < |last| && SameSnapshot(last[j], g) && last[j].endLine.Some? && g.endLine.value <= last[j].endLine.value;
  }

  lemma OnePlace(last: seq<SourceWindow>, g: SourceWindow, j: nat, k: nat)
    requires OnePerSnapshot(last) && j < |last| && k < |last| && SameSnapshot(last[j], g) && SameSnapshot(last[k], g)
    ensures j == k
  {
  }

  lemma EntryOf(disk: Disk, last: seq<SourceWindow>, files: seq<SourceWindow>, f: SourceWindow) returns (k: nat)
    requires IsLastOf(last, files) && AllGenuine(disk, files) && f in files && EndsLast(f, files)
    ensures k < |last| && last[k].endLine == f.endLine && last[k].path == f.path && last[k].sha256 == f.sha256 && last[k].totalLines == f.totalLines
  {
    hide Requested, LinesFrom, Display, Members, Ended, OnePerSnapshot, Covered, AllGenuine, EndsLast, Genuine;
    EndsLastEnds(f, files);
    assert Covered(last, f);
    k := CoveringEntry(last, f);
    EntryIsMember(last, files, k);
    GenuineMember(disk, files, f);
    GenuineMember(disk, files, last[k]);
    SameTotal(disk, f, last[k]);
    LastIsFurthest(f, files, last[k]);
  }

  lemma SameTotal(disk: Disk, f: SourceWindow, g: SourceWindow)
    requires Genuine(disk, f) && Genuine(disk, g)
    ensures f.path == g.path ==> f.totalLines == g.totalLines && f.sha256 == g.sha256
  {
    hide LinesFrom, Display;
  }

  lemma LastIsFurthest(f: SourceWindow, files: seq<SourceWindow>, g: SourceWindow)
    requires EndsLast(f, files) && g in files && SameSnapshot(f, g)
    ensures f.endLine.Some? && (g.endLine.Some? ==> g.endLine.value <= f.endLine.value)
  {
  }

  lemma SameTail(disk: Disk, f: SourceWindow, g: SourceWindow, w: Window)
    requires AsksBehind(disk, f, w)
    requires g.endLine == f.endLine && g.path == f.path && g.sha256 == f.sha256 && g.totalLines == f.totalLines
    ensures AsksBehind(disk, g, w)
  {
    hide Requested, LinesFrom, Display, Fails;
  }

  lemma EntryAsks(disk: Disk, files: seq<SourceWindow>, last: seq<SourceWindow>, k: nat)
    requires AllGenuine(disk, files) && IsLastOf(last, files) && k < |last|
    ensures last[k] in files && EndsLast(last[k], files) && last[k].endLine.Some?
    ensures if last[k].endLine.value < last[k].totalLines then |TailOf(last[k])| == 1 && AsksBehind(disk, last[k], TailOf(last[k])[0]) else TailOf(last[k]) == []
  {
    hide *;
    EntryEndsLast(last, files, k);
    GenuineMember(disk, files, last[k]);
    EndsLastEnds(last[k], files);
    TailAsksBehind(disk, last[k]);
  }

  lemma UnreadIsAsked(disk: Disk, files: seq<SourceWindow>, last: seq<SourceWindow>, from: seq<nat>, f: SourceWindow) returns (w: Window)
    requires AllGenuine(disk, files) && IsLastOf(last, files) && f in files && LeavesUnread(f, files)
    requires ComeFrom(last, from)
    ensures w in Tails(last) && AsksBehind(disk, f, w)
  {
    hide *;
    UnreadEnds(f, files);
    var k := EntryOf(disk, last, files, f);
    EntryAsks(disk, files, last, k);
    var n := PlaceOf(last, from, k);
    w := Tails(last)[n];
    SameTail(disk, last[k], f, w);
  }

  lemma PlaceOf(last: seq<SourceWindow>, from: seq<nat>, k: nat) returns (n: nat)
    requires ComeFrom(last, from) && k < |last| && TailOf(last[k]) != []
    ensures n < |Tails(last)| && TailOf(last[k]) == [Tails(last)[n]]
  {
    hide Tails, TailOf;
    assert k in from;
    n :| 0 <= n < |from| && from[n] == k;
  }

  lemma UnreadEnds(f: SourceWindow, files: seq<SourceWindow>)
    requires LeavesUnread(f, files)
    ensures EndsLast(f, files) && f.endLine.Some? && f.endLine.value < f.totalLines
  {
  }

  lemma TailsAreAsked(disk: Disk, files: seq<SourceWindow>)
    requires AllGenuine(disk, files)
    ensures TailsAsk(disk, files, Tails(LastOf(files)))
  {
    hide Requested, LinesFrom, Display, Fails, TailOf, Tails, LastOf, IsLastOf, EndsLast, LeavesUnread, AsksBehind, Genuine, AllGenuine;
    var last := LastOf(files);
    LastOfIsLast(files);
    var tails := Tails(last);
    var from := TailPlaces(last);
    forall n | 0 <= n < |tails|
      ensures last[from[n]] in files && EndsLast(last[from[n]], files) && AsksBehind(disk, last[from[n]], tails[n])
    {
      EntryAsks(disk, files, last, from[n]);
    }
    forall f | f in files && LeavesUnread(f, files)
      ensures exists w :: w in tails && AsksBehind(disk, f, w)
    {
      var w := UnreadIsAsked(disk, files, last, from, f);
    }
    forall i, j | 0 <= i < j < |tails|
      ensures tails[i].path != tails[j].path
    {
      OneTailEach(disk, files, last, from[i], from[j], tails[i], tails[j]);
    }
  }

  lemma GenuineMember(disk: Disk, files: seq<SourceWindow>, f: SourceWindow)
    requires AllGenuine(disk, files) && f in files
    ensures Genuine(disk, f)
  {
  }

  lemma EndsLastEnds(f: SourceWindow, files: seq<SourceWindow>)
    requires EndsLast(f, files)
    ensures f.endLine.Some?
  {
  }

  lemma TwoSnapshots(last: seq<SourceWindow>, j: nat, k: nat)
    requires OnePerSnapshot(last) && j < k < |last|
    ensures !SameSnapshot(last[j], last[k])
  {
  }

  lemma OneTailEach(disk: Disk, files: seq<SourceWindow>, last: seq<SourceWindow>, j: nat, k: nat, v: Window, w: Window)
    requires AllGenuine(disk, files) && IsLastOf(last, files) && j < k < |last|
    requires AsksBehind(disk, last[j], v) && AsksBehind(disk, last[k], w)
    ensures v.path != w.path
  {
    hide Requested, LinesFrom, Display, Fails, Members, Ended, Covered, AllGenuine, Genuine;
    EntryIsMember(last, files, j);
    EntryIsMember(last, files, k);
    GenuineMember(disk, files, last[j]);
    GenuineMember(disk, files, last[k]);
    SameTotal(disk, last[j], last[k]);
    TwoSnapshots(last, j, k);
  }

  /** What a batch says of itself: its windows are genuine, and its unread tails ask for what follows them. */
  ghost predicate Describes(disk: Disk, batch: Batch) {
    AllGenuine(disk, batch.files) && TailsAsk(disk, batch.files, batch.unreadTails)
  }

  lemma SummaryDescribes(disk: Disk, files: seq<SourceWindow>, failed: seq<Window>, pending: seq<Window>, failures: Option<seq<Failure>>)
    requires AllGenuine(disk, files)
    ensures Describes(disk, Summarize(files, failed, pending, failures))
  {
    hide AllGenuine, TailsAsk, Tails, LastOf;
    TailsAreAsked(disk, files);
  }

  // ----- one batch

  /** One delivered window holding the first count of its lines. */
  function FileWindow(path: Text, sha256: Text, total: nat, start: nat, lines: seq<Text>, count: nat): SourceWindow
    requires start >= 1 && count <= |lines|
  {
    var next := start + count;
    SourceWindow(path, start, if count > 0 then Some(next - 1) else None, total, sha256,
                 NumberLines(path, start, lines[..count]), count > 0 && next <= total,
                 if count > 0 && next <= total then Some(next) else None)
  }

  /** What is left of the window, in front of the windows not yet begun. */
  function Remainder(path: Text, sha256: Text, start: nat, end: nat, count: nat, rest: seq<Window>): seq<Window>
    requires start >= 1
  {
    var next := start + count;
    if next <= end then [Window(path, Some(next), Some(end - next + 1), Some(sha256))] + rest else rest
  }

  /** The batch so far, as every step of the loop leaves it. */
  ghost predicate Progress(disk: Disk, done: seq<Window>, files: seq<SourceWindow>, failed: seq<Window>) {
    && ValidWindows(done) && ValidWindows(failed) && |failed| <= |done|
    && Total(disk, done) == (LinesOf(files), failed, Work(disk, done))
    && (files != [] ==> Work(disk, done) > 0)
    && Total(disk, failed) == ([], failed, 0)
  }

  /** What a delivered batch owes the caller. */
  ghost predicate Conserves(disk: Disk, windows: seq<Window>, batch: Batch) {
    && ValidWindows(windows) && ValidWindows(batch.remaining)
    && |batch.remaining| <= |windows|
    && (batch.complete <==> batch.remaining == [])
    && RequestedAll(disk, windows) == LinesOf(batch.files) + RequestedAll(disk, batch.remaining)
    && FailingOf(disk, windows) == FailingOf(disk, batch.remaining)
    && (Work(disk, batch.remaining) < Work(disk, windows) || Work(disk, batch.remaining) == Work(disk, windows) == 0)
  }

  lemma StartProgress(disk: Disk)
    ensures Progress(disk, [], [], [])
  {
  }

  lemma ProgressFailed(disk: Disk, done: seq<Window>, files: seq<SourceWindow>, failed: seq<Window>, w: Window)
    requires Progress(disk, done, files, failed) && ValidWindow(w) && Fails(disk, w)
    ensures Progress(disk, done + [w], files, failed + [w])
  {
    hide Fails, ValidWindow, LinesOf;
    SplitWindows(disk, done, [w]);
    SplitWindows(disk, failed, [w]);
    OneWindow(disk, w);
    assert LinesOf(files) + [] == LinesOf(files);
  }

  lemma ProgressRead(disk: Disk, done: seq<Window>, files: seq<SourceWindow>, failed: seq<Window>, w: Window, file: SourceWindow)
    requires Progress(disk, done, files, failed) && ValidWindow(w) && !Fails(disk, w)
    requires file.source == Requested(disk, w)
    ensures Progress(disk, done + [w], files + [file], failed)
  {
    hide Fails, ValidWindow, Requested;
    SplitWindows(disk, done, [w]);
    OneWindow(disk, w);
    assert (files + [file])[..|files|] == files;
    assert failed + [] == failed;
  }

  /** Stopping with the windows not yet begun as remainder. */
  lemma StopsBetween(disk: Disk, done: seq<Window>, rest: seq<Window>, files: seq<SourceWindow>, failed: seq<Window>, failures: Option<seq<Failure>>)
    requires Progress(disk, done, files, failed) && ValidWindows(rest)
    requires files != [] || Work(disk, done) > 0 || rest == []
    ensures Conserves(disk, done + rest, Summarize(files, failed, rest, failures))
  {
    hide Fails, ValidWindow, LinesOf, LastOf, Tails;
    SplitWindows(disk, done, rest);
    SplitWindows(disk, failed, rest);
    NoWindows(disk);
    assert [] + RequestedAll(disk, rest) == RequestedAll(disk, rest);
  }

  // ----- one window

  /** What a successful raw read holds: nothing for an empty range, else its first lines. */
  ghost predicate RawOk(disk: Disk, w: Window, raw: ReadResult, count: nat)
    requires ValidWindow(w)
  {
    disk(w.path).File? &&
    var lines := Lines(disk(w.path).text);
    var start, end := RangeStart(w.offset), RangeEnd(|lines|, w.offset, w.limit);
    && raw.path == w.path && raw.sha256 == disk(w.path).sha256 && raw.totalLines == |lines|
    && (if start >= end then count == 0 && raw.text == []
        else 1 <= count <= end - start && raw.text == Concat(lines[start..start + count]))
  }

  /** The raw lines are the first requested lines, displayed. */
  lemma RawIsRequested(disk: Disk, w: Window, raw: ReadResult, count: nat)
    requires ValidWindow(w) && RawOk(disk, w, raw, count)
    ensures |RawLines(raw.text)| == count <= |Requested(disk, w)|
    ensures NumberLines(w.path, RangeStart(w.offset) + 1, RawLines(raw.text)) == Requested(disk, w)[..count]
    ensures count == 0 <==> RangeStart(w.offset) >= RangeEnd(raw.totalLines, w.offset, w.limit)
    ensures |Requested(disk, w)| == Max0(RangeEnd(raw.totalLines, w.offset, w.limit) - RangeStart(w.offset))
  {
    hide LinesFrom, Concat, SplitFrom, Display;
    var lines := Lines(disk(w.path).text);
    var start, end := RangeStart(w.offset), RangeEnd(|lines|, w.offset, w.limit);
    if start < end {
      hide RawLines;
      RawLinesOfRun(disk(w.path).text, start, start + count);
      var all := lines[start..end];
      assert all[..count] == lines[start..start + count];
      assert Displays(all)[..count] == Displays(all[..count]);
    }
  }

  lemma NumberPrefix(path: Text, first: nat, contents: seq<Text>, count: nat)
    requires count <= |contents|
    ensures NumberLines(path, first, contents[..count]) == NumberLines(path, first, contents)[..count]
  {
  }

  lemma RequestedStep(disk: Disk, w: Window)
    requires ValidWindow(w) && disk(w.path).File?
    ensures w.offset.Some? ==> w.offset.value >= 1
    ensures var lines := Lines(disk(w.path).text);
            var start, end := RangeStart(w.offset), RangeEnd(|lines|, w.offset, w.limit);
            && end <= |lines|
            && (start < end ==> Requested(disk, w) == NumberLines(w.path, start + 1, Displays(lines[start..end])))
            && |Requested(disk, w)| == Max0(end - start)
            && (|Requested(disk, w)| > 0 ==> start < end && |Requested(disk, w)| == end - start)
  {
    hide LinesFrom;
  }

  /** A window that expects the hash its file has does not fail. */
  lemma FreshReads(disk: Disk, w: Window)
    requires disk(w.path).File? && w.expectedSha256 == Some(disk(w.path).sha256)
    ensures !Fails(disk, w)
  {
  }

  /** A continuation asks for exactly what was not delivered. */
  lemma ContinuationAsksRest(disk: Disk, w: Window, count: nat, c: Window)
    requires ValidWindow(w) && disk(w.path).File?
    requires 1 <= count < |Requested(disk, w)|
    requires c.path == w.path && c.expectedSha256 == Some(disk(w.path).sha256) && c.offset.Some? && c.limit.Some?
    requires c.offset.value == RangeStart(w.offset) + 1 + count
    requires c.offset.value + c.limit.value == RangeEnd(|Lines(disk(w.path).text)|, w.offset, w.limit) + 1
    ensures ValidWindow(c) && !Fails(disk, c) && Requested(disk, c) == Requested(disk, w)[count..]
  {
    hide *;
    var lines := Lines(disk(w.path).text);
    RequestedStep(disk, w);
    var start, end := RangeStart(w.offset), RangeEnd(|lines|, w.offset, w.limit);
    RangeOfRest(|lines|, w, count, c);
    FreshReads(disk, c);
    RequestedStep(disk, c);
    NumberTail(w.path, start + 1, lines[start..end], count);
    assert lines[start..end][count..] == lines[start + count..end];
  }

  lemma RangeOfRest(total: nat, w: Window, count: nat, c: Window)
    requires ValidWindow(w) && 1 <= count < RangeEnd(total, w.offset, w.limit) - RangeStart(w.offset)
    requires c.offset.Some? && c.limit.Some? && c.offset.value == RangeStart(w.offset) + 1 + count
    requires c.offset.value + c.limit.value == RangeEnd(total, w.offset, w.limit) + 1
    ensures ValidWindow(c) && RangeStart(c.offset) == RangeStart(w.offset) + count
    ensures RangeEnd(total, c.offset, c.limit) == RangeEnd(total, w.offset, w.limit) <= total
  {
  }

  lemma NumberTail(path: Text, first: nat, lines: seq<Text>, count: nat)
    requires count <= |lines|
    ensures NumberLines(path, first, Displays(lines))[count..] == NumberLines(path, first + count, Displays(lines[count..]))
  {
    hide Display;
  }

  /** Stopping inside a window hands back the rest of it and everything behind it. */
  lemma StopsInside(disk: Disk, done: seq<Window>, w: Window, c: Window, rest: seq<Window>, files: seq<SourceWindow>, failed: seq<Window>,
                    file: SourceWindow, failures: Option<seq<Failure>>)
    requires Progress(disk, done, files, failed) && ValidWindow(w) && ValidWindows(rest) && !Fails(disk, w)
    requires ValidWindow(c) && !Fails(disk, c) && file.source + Requested(disk, c) == Requested(disk, w) && file.source != []
    ensures Conserves(disk, done + ([w] + rest), Summarize(files + [file], failed, [c] + rest, failures))
  {
    hide Fails, ValidWindow, Requested, LastOf, Tails;
    OneWindow(disk, w);
    OneWindow(disk, c);
    SplitWindows(disk, [w], rest);
    SplitWindows(disk, [c], rest);
    SplitWindows(disk, done, [w] + rest);
    SplitWindows(disk, failed, [c] + rest);
    assert (files + [file])[..|files|] == files;
    Reassociate(LinesOf(files), file.source, Requested(disk, c), RequestedAll(disk, rest));
  }

  lemma Reassociate(a: seq<Line>, b: seq<Line>, c: seq<Line>, d: seq<Line>)
    ensures a + (b + c + d) == a + b + ([] + (c + d))
  {
  }

  lemma FileIsGenuine(disk: Disk, w: Window, raw: ReadResult, high: nat, count: nat)
    requires ValidWindow(w) && RawOk(disk, w, raw, high) && count <= |RawLines(raw.text)|
    ensures Genuine(disk, FileWindow(raw.path, raw.sha256, raw.totalLines, RangeStart(w.offset) + 1, RawLines(raw.text), count))
  {
    hide RawOk, RawLines, Requested, LinesFrom, Display;
    RawIsRequested(disk, w, raw, high);
    RawNames(disk, w, raw, high);
    RequestedByNumber(disk, w);
    var start := RangeStart(w.offset) + 1;
    NumberPrefix(w.path, start, RawLines(raw.text), count);
    var f := FileWindow(raw.path, raw.sha256, raw.totalLines, start, RawLines(raw.text), count);
    assert forall i | 0 <= i < count :: f.source[i] == Requested(disk, w)[i];
  }

  lemma NoneIsGenuine(disk: Disk)
    ensures AllGenuine(disk, [])
  {
  }

  lemma RawNames(disk: Disk, w: Window, raw: ReadResult, count: nat)
    requires ValidWindow(w) && RawOk(disk, w, raw, count)
    ensures disk(w.path).File? && raw.path == w.path && raw.sha256 == disk(w.path).sha256 && raw.totalLines == |Lines(disk(w.path).text)|
  {
  }

  lemma GenuineMore(disk: Disk, files: seq<SourceWindow>, f: SourceWindow)
    requires AllGenuine(disk, files) && Genuine(disk, f)
    ensures AllGenuine(disk, files + [f])
  {
    hide Genuine;
  }

  datatype Turn = Full(file: SourceWindow) | Stop(batch: Batch) | Fail

  /** The batch if count lines of the current window are delivered. */
  function BatchWith(files: seq<SourceWindow>, failed: seq<Window>, failures: Option<seq<Failure>>, rest: seq<Window>,
                     raw: ReadResult, start: nat, end: nat, lines: seq<Text>, count: nat): Batch
    requires start >= 1 && count <= |lines|
  {
    Summarize(files + [FileWindow(raw.path, raw.sha256, raw.totalLines, start, lines, count)], failed,
              Remainder(raw.path, raw.sha256, start, end, count, rest), failures)
  }

  lemma PartIsConserved(disk: Disk, done: seq<Window>, w: Window, rest: seq<Window>, files: seq<SourceWindow>, failed: seq<Window>,
                        failures: Option<seq<Failure>>, raw: ReadResult, high: nat, count: nat)
    requires Progress(disk, done, files, failed) && ValidWindow(w) && ValidWindows(rest) && !Fails(disk, w)
    requires RawOk(disk, w, raw, high) && 1 <= count <= high && count < |Requested(disk, w)|
    requires |RawLines(raw.text)| == high
    ensures Conserves(disk, done + ([w] + rest),
                      BatchWith(files, failed, failures, rest, raw, RangeStart(w.offset) + 1,
                                RangeEnd(raw.totalLines, w.offset, w.limit), RawLines(raw.text), count))
  {
    hide Fails, Requested, LastOf, Tails, RawLines, LinesFrom, Concat, Progress, Conserves;
    var start, end := RangeStart(w.offset) + 1, RangeEnd(raw.totalLines, w.offset, w.limit);
    RawIsRequested(disk, w, raw, high);
    NumberPrefix(w.path, start, RawLines(raw.text), count);
    var c := Window(w.path, Some(start + count), Some(end - (start + count) + 1), Some(raw.sha256));
    ContinuationAsksRest(disk, w, count, c);
    var file := FileWindow(raw.path, raw.sha256, raw.totalLines, start, RawLines(raw.text), count);
    assert file.source == Requested(disk, w)[..count];
    StopsInside(disk, done, w, c, rest, files, failed, file, failures);
  }

  /** Not even the first line of the window fits as the only one of its batch. */
  predicate LineRefused(failed: seq<Window>, failures: Option<seq<Failure>>, rest: seq<Window>, w: Window, raw: ReadResult, fits: Batch -> bool)
    requires ValidWindow(w)
  {
    var lines := RawLines(raw.text);
    !fits(BatchWith([], failed, failures, rest, raw, RangeStart(w.offset) + 1, RangeEnd(raw.totalLines, w.offset, w.limit), lines,
                    if lines == [] then 0 else 1))
  }

  /** Delivers as much of one window as fits, for any measure of fitting. */
  method DeliverWindow(disk: Disk, ghost done: seq<Window>, w: Window, rest: seq<Window>, files: seq<SourceWindow>, failed: seq<Window>,
                       failures: Option<seq<Failure>>, raw: ReadResult, ghost high: nat, fits: Batch -> bool)
    returns (turn: Turn)
    requires Progress(disk, done, files, failed) && ValidWindow(w) && ValidWindows(rest) && !Fails(disk, w)
    requires RawOk(disk, w, raw, high) && AllGenuine(disk, files)
    requires fits(Summarize(files, failed, [w] + rest, failures))
    ensures turn.Full? ==> Genuine(disk, turn.file)
    ensures turn.Stop? ==> Describes(disk, turn.batch)
    ensures match turn
            case Full(file) => file.source == Requested(disk, w) && fits(Summarize(files + [file], failed, rest, failures))
            case Stop(batch) => fits(batch) && batch.failures == failures && failed <= batch.remaining && Conserves(disk, done + ([w] + rest), batch)
            case Fail => files == [] && LineRefused(failed, failures, rest, w, raw, fits)
  {
    hide Fails, Requested, LastOf, Tails, RawLines, LinesFrom, Concat, Progress, Conserves, RawOk, Summarize, Genuine, AllGenuine, Describes;
    RawIsRequested(disk, w, raw, high);
    var lines := RawLines(raw.text);
    var start := (if w.offset.Some? then w.offset.value else 1);
    var end := RangeEnd(raw.totalLines, w.offset, w.limit);
    var count := |lines|;
    var result := BatchWith(files, failed, failures, rest, raw, start, end, lines, count);
    if !fits(result) {
      count := LargestFittingInteger(0, |lines|,
        c => 0 <= c <= |lines| && fits(BatchWith(files, failed, failures, rest, raw, start, end, lines, c)));
      if count == 0 {
        if files != [] {
          StopsBetweenWindows(disk, done, w, rest, files, failed, failures);
          SummaryKeepsLists(files, failed, [w] + rest, failures);
          SummaryDescribes(disk, files, failed, [w] + rest, failures);
          return Stop(Summarize(files, failed, [w] + rest, failures));
        }
        return Fail;
      }
      result := BatchWith(files, failed, failures, rest, raw, start, end, lines, count);
    }
    var file := FileWindow(raw.path, raw.sha256, raw.totalLines, start, lines, count);
    FileIsGenuine(disk, w, raw, high, count);
    if (if file.endLine.Some? then file.endLine.value as int else start - 1) < end {
      PartIsConserved(disk, done, w, rest, files, failed, failures, raw, high, count);
      SummaryKeepsLists(files + [file], failed, Remainder(raw.path, raw.sha256, start, end, count, rest), failures);
      GenuineMore(disk, files, file);
      SummaryDescribes(disk, files + [file], failed, Remainder(raw.path, raw.sha256, start, end, count, rest), failures);
      return Stop(result);
    }
    WholeIsRequested(disk, w, raw, high, count);
    return Full(file);
  }

  lemma StopsBetweenWindows(disk: Disk, done: seq<Window>, w: Window, rest: seq<Window>, files: seq<SourceWindow>, failed: seq<Window>, failures: Option<seq<Failure>>)
    requires Progress(disk, done, files, failed) && ValidWindow(w) && ValidWindows(rest) && files != []
    ensures Conserves(disk, done + ([w] + rest), Summarize(files, failed, [w] + rest, failures))
  {
    hide ValidWindow, Conserves;
    OneWindow(disk, w);
    SplitWindows(disk, [w], rest);
    StopsBetween(disk, done, [w] + rest, files, failed, failures);
  }

  lemma WholeIsRequested(disk: Disk, w: Window, raw: ReadResult, high: nat, count: nat)
    requires ValidWindow(w) && RawOk(disk, w, raw, high) && |RawLines(raw.text)| == high && count <= high
    requires RangeStart(w.offset) + count >= RangeEnd(raw.totalLines, w.offset, w.limit)
    ensures FileWindow(raw.path, raw.sha256, raw.totalLines, RangeStart(w.offset) + 1, RawLines(raw.text), count).source == Requested(disk, w)
  {
    hide Requested, RawLines, LinesFrom, Concat;
    RawIsRequested(disk, w, raw, high);
    NumberPrefix(w.path, RangeStart(w.offset) + 1, RawLines(raw.text), count);
    assert Requested(disk, w)[..count] == Requested(disk, w);
  }

  // ----- the batch

  datatype Raw = Raw(result: ReadResult) | Ordinary(code: Code) | Broken

  /** A failure that is never part of a batch: of the file system, or because the window's range does
      not fit in a read, not even one line of it. */
  predicate Unservable(disk: Disk, w: Window, readFits: ReadResult -> bool)
    requires ValidWindow(w)
  {
    match disk(w.path)
    case Unreadable(ordinary) => !ordinary
    case File(text, sha256) =>
      var lines := Lines(text);
      var start, end := RangeStart(w.offset), RangeEnd(|lines|, w.offset, w.limit);
      || !readFits(EmptyPage(w.path, sha256, |lines|))
      || (start < end && !readFits(Page(w.path, sha256, lines, start, end, end - start))
          && (end - start > 1 ==> !readFits(Page(w.path, sha256, lines, start, end, 1))))
  }

  /** Reads one window; a stale snapshot counts as an ordinary failure. */
  method ReadWindow(disk: Disk, w: Window, readFits: ReadResult -> bool) returns (raw: Raw, ghost high: nat)
    requires ValidWindow(w)
    ensures match raw
            case Raw(result) => !Fails(disk, w) && RawOk(disk, w, result, high)
            case Ordinary(_) => Fails(disk, w)
            case Broken => Unservable(disk, w, readFits)
  {
    hide LinesFrom, Concat;
    high := 0;
    match disk(w.path)
    case Unreadable(ordinary) =>
      return if ordinary then Ordinary(ReadFailed) else Broken, 0;
    case File(text, sha256) =>
      var outcome := ReadLines(w.path, sha256, text, w.offset, w.limit, readFits);
      if !outcome.Read? {
        return Broken, 0;
      }
      if w.expectedSha256.Some? && sha256 != w.expectedSha256.value {
        return Ordinary(StaleHash), 0;
      }
      ghost var lines := Lines(text);
      ghost var start, end := RangeStart(w.offset), RangeEnd(|lines|, w.offset, w.limit);
      if start < end {
        high :| 1 <= high <= end - start && outcome.result == Page(w.path, sha256, lines, start, end, high);
      }
      return Raw(outcome.result), high;
  }

  /** The failures name the windows at the head of what remains, by their place in the request. */
  ghost predicate Names(windows: seq<Window>, failures: seq<Failure>, failed: seq<Window>) {
    |failures| == |failed| &&
    forall k | 0 <= k < |failures| ::
      failures[k].index < |windows| && windows[failures[k].index] == failed[k] && failures[k].path == failed[k].path
  }

  ghost predicate ListsFailures(windows: seq<Window>, partial_: bool, batch: Batch) {
    if !partial_ then batch.failures == None
    else
      && batch.failures.Some? && |batch.failures.value| <= |batch.remaining|
      && Names(windows, batch.failures.value, batch.remaining[..|batch.failures.value|])
  }

  /** Nothing is left to be had once only failing windows remain: whatever batch a further call
      returns, it delivers no line and hands back the same windows. */
  lemma FinishedStaysFinished(disk: Disk, windows: seq<Window>, remaining: seq<Window>, again: Batch)
    requires ValidWindows(windows) && remaining == FailingOf(disk, windows)
    requires Conserves(disk, remaining, again)
    ensures LinesOf(again.files) == [] && again.remaining == remaining
  {
    hide RequestedAll, FailingOf, Work, LinesOf, Conserves;
    FailingAsksNothing(disk, windows);
    FailingNeverCompletes(disk, remaining, again);
    ConservesMeans(disk, remaining, again);
  }

  lemma ConservesMeans(disk: Disk, windows: seq<Window>, batch: Batch)
    requires Conserves(disk, windows, batch)
    ensures ValidWindows(windows) && ValidWindows(batch.remaining)
    ensures RequestedAll(disk, windows) == LinesOf(batch.files) + RequestedAll(disk, batch.remaining)
  {
    hide RequestedAll, FailingOf, Work, LinesOf;
  }

  /** Why a whole batch is refused. */
  ghost predicate Refusal(disk: Disk, windows: seq<Window>, readFits: ReadResult -> bool, fits: Batch -> bool, partial_: bool, error: Error)
    requires ValidWindows(windows)
  {
    match error
    case BatchMetadata => !fits(Summarize([], [], windows, if partial_ then Some([]) else None))
    case ReadError => exists n :: 0 <= n < |windows| && (Unservable(disk, windows[n], readFits) || (!partial_ && Fails(disk, windows[n])))
    case FailureMetadata => partial_ && exists n, files, failed, failures :: CrowdedOut(disk, windows, fits, n, files, failed, failures)
    case SingleLine => exists n, failed, failures, raw, high :: Stuck(disk, windows, fits, partial_, n, failed, failures, raw, high)
  }

  /** The first n windows are done, and listing their failures leaves no room for the result. */
  ghost predicate CrowdedOut(disk: Disk, windows: seq<Window>, fits: Batch -> bool, n: nat, files: seq<SourceWindow>, failed: seq<Window>, failures: seq<Failure>) {
    && n <= |windows| && Progress(disk, windows[..n], files, failed) && Names(windows, failures, failed)
    && !fits(Summarize(files, failed, windows[n..], Some(failures)))
  }

  /** All windows before the n-th fail, and not even the first line of that one fits. */
  ghost predicate Stuck(disk: Disk, windows: seq<Window>, fits: Batch -> bool, partial_: bool, n: nat, failed: seq<Window>, failures: seq<Failure>,
                        raw: ReadResult, high: nat)
    requires ValidWindows(windows)
  {
    && n < |windows| && Progress(disk, windows[..n], [], failed) && Names(windows, failures, failed)
    && !Fails(disk, windows[n]) && RawOk(disk, windows[n], raw, high)
    && LineRefused(failed, if partial_ then Some(failures) else None, windows[n + 1..], windows[n], raw, fits)
  }

  /** readManyWindows over files that do not change, for any measure of fitting: every batch fits
      and conserves what was asked for. In a batch that is not partial any failure throws. */
  method ReadManyWindows(disk: Disk, windows: seq<Window>, readFits: ReadResult -> bool, fits: Batch -> bool, partial_: bool)
    returns (outcome: Outcome)
    requires ValidWindows(windows)
    ensures outcome.Delivered? ==> fits(outcome.batch) && Conserves(disk, windows, outcome.batch)
    ensures outcome.Delivered? ==> ListsFailures(windows, partial_, outcome.batch) && Describes(disk, outcome.batch)
    ensures outcome.Threw? ==> Refusal(disk, windows, readFits, fits, partial_, outcome.error)
  {
    hide Progress, Conserves, Fails, RawOk, Requested, Summarize, LineRefused, Unservable, CrowdedOut, Stuck, Genuine, AllGenuine, Describes;
    var files: seq<SourceWindow> := [];
    var failures: seq<Failure> := [];
    var failed: seq<Window> := [];
    StartProgress(disk);
    NoneIsGenuine(disk);
    assert windows[0..] == windows;
    if !fits(Summarize(files, failed, windows, if partial_ then Some(failures) else None)) {
      return Threw(BatchMetadata);
    }
    for index := 0 to |windows|
      invariant Progress(disk, windows[..index], files, failed)
      invariant fits(Summarize(files, failed, windows[index..], if partial_ then Some(failures) else None))
      invariant Names(windows, failures, failed) && (!partial_ ==> failed == []) && AllGenuine(disk, files)
    {
      var window := windows[index];
      ghost var done := windows[..index];
      var rest := windows[index + 1..];
      assert windows[index..] == [window] + rest && windows[..index + 1] == done + [window];
      assert windows == done + ([window] + rest);
      var raw, high := ReadWindow(disk, window, readFits);
      if raw.Broken? || (raw.Ordinary? && !partial_) {
        return Threw(ReadError);
      }
      if raw.Ordinary? {
        failures := failures + [Failure(index, window.path, raw.code)];
        ProgressFailed(disk, done, files, failed, window);
        failed := failed + [window];
        if !fits(Summarize(files, failed, rest, Some(failures))) {
          TooManyFailures(disk, windows, fits, index + 1, files, failed, failures);
          return Threw(FailureMetadata);
        }
      } else {
        var listed := if partial_ then Some(failures) else None;
        var turn := DeliverWindow(disk, done, window, rest, files, failed, listed, raw.result, high, fits);
        match turn
        case Fail =>
          LineTooLong(disk, windows, fits, partial_, index, failed, failures, raw.result, high);
          return Threw(SingleLine);
        case Stop(batch) => return Delivered(batch);
        case Full(file) =>
          ProgressRead(disk, done, files, failed, window, file);
          GenuineMore(disk, files, file);
          files := files + [file];
      }
    }
    assert windows[..|windows|] == windows && windows[|windows|..] == [];
    AllRead(disk, windows, files, failed, if partial_ then Some(failures) else None);
    SummaryKeepsLists(files, failed, [], if partial_ then Some(failures) else None);
    SummaryDescribes(disk, files, failed, [], if partial_ then Some(failures) else None);
    return Delivered(Summarize(files, failed, [], if partial_ then Some(failures) else None));
  }

  lemma TooManyFailures(disk: Disk, windows: seq<Window>, fits: Batch -> bool, n: nat, files: seq<SourceWindow>, failed: seq<Window>, failures: seq<Failure>)
    requires n <= |windows| && Progress(disk, windows[..n], files, failed) && Names(windows, failures, failed)
    requires !fits(Summarize(files, failed, windows[n..], Some(failures)))
    ensures CrowdedOut(disk, windows, fits, n, files, failed, failures)
  {
  }

  lemma LineTooLong(disk: Disk, windows: seq<Window>, fits: Batch -> bool, partial_: bool, n: nat, failed: seq<Window>, failures: seq<Failure>,
                    raw: ReadResult, high: nat)
    requires ValidWindows(windows) && n < |windows| && Progress(disk, windows[..n], [], failed) && Names(windows, failures, failed)
    requires !Fails(disk, windows[n]) && RawOk(disk, windows[n], raw, high)
    requires LineRefused(failed, if partial_ then Some(failures) else None, windows[n + 1..], windows[n], raw, fits)
    ensures Stuck(disk, windows, fits, partial_, n, failed, failures, raw, high)
  {
  }

  lemma AllRead(disk: Disk, windows: seq<Window>, files: seq<SourceWindow>, failed: seq<Window>, failures: Option<seq<Failure>>)
    requires ValidWindows(windows) && Progress(disk, windows, files, failed)
    ensures Conserves(disk, windows, Summarize(files, failed, [], failures))
  {
    hide Progress, Conserves, Summarize;
    StopsBetween(disk, windows, [], files, failed, failures);
    assert windows + [] == windows;
  }

  predicate AnyReadable(disk: Disk, ws: seq<Window>) {
    exists i | 0 <= i < |ws| :: !Fails(disk, ws[i])
  }

  lemma {:induction false} ReadableMeansWork(disk: Disk, ws: seq<Window>)
    requires ValidWindows(ws) && AnyReadable(disk, ws)
    ensures Work(disk, ws) > 0
  {
    hide Requested, Fails, ValidWindow;
    if Fails(disk, ws[0]) {
      var i :| 0 <= i < |ws| && !Fails(disk, ws[i]);
      assert ws[1..][i - 1] == ws[i];
      ReadableMeansWork(disk, ws[1..]);
    }
  }

  lemma {:induction false} OnlyFailingLeft(disk: Disk, ws: seq<Window>)
    requires ValidWindows(ws) && !AnyReadable(disk, ws)
    ensures FailingOf(disk, ws) == ws && RequestedAll(disk, ws) == []
  {
    hide Requested, Fails, ValidWindow;
    if ws != [] {
      assert forall i | 0 <= i < |ws[1..]| :: ws[1..][i] == ws[i + 1];
      OnlyFailingLeft(disk, ws[1..]);
      assert ws == [ws[0]] + ws[1..];
    }
  }

  lemma {:induction false} AllFailing(disk: Disk, ws: seq<Window>)
    ensures |FailingOf(disk, ws)| <= |ws|
    ensures |FailingOf(disk, ws)| == |ws| ==> FailingOf(disk, ws) == ws
  {
    hide Fails;
    if ws != [] {
      AllFailing(disk, ws[1..]);
      assert ws == [ws[0]] + ws[1..];
    }
  }

  /** A batch of windows that all fail hands all of them back: asking again never completes. */
  lemma FailingNeverCompletes(disk: Disk, windows: seq<Window>, batch: Batch)
    requires Conserves(disk, windows, batch) && FailingOf(disk, windows) == windows
    ensures batch.remaining == windows
  {
    hide RequestedAll, Work;
    AllFailing(disk, batch.remaining);
  }

  /** The last call was refused, with its cause; what the calls before it delivered is the beginning
      of what was asked for, and the refused call asked for all the rest. */
  ghost predicate Interrupted(disk: Disk, windows: seq<Window>, readFits: ReadResult -> bool, fits: nat -> Batch -> bool, partial_: bool,
                              error: Error, delivered: seq<Line>, calls: nat)
    requires ValidWindows(windows) && calls >= 1
  {
    exists rest: seq<Window> :: Asks(disk, windows, delivered, rest) && Refusal(disk, rest, readFits, fits(calls - 1), partial_, error)
  }

  /** The rest asks for all that has not been delivered. */
  ghost predicate Asks(disk: Disk, windows: seq<Window>, delivered: seq<Line>, rest: seq<Window>)
    requires ValidWindows(windows)
  {
    ValidWindows(rest) && RequestedAll(disk, windows) == delivered + RequestedAll(disk, rest)
  }

  lemma StopsShort(disk: Disk, windows: seq<Window>, readFits: ReadResult -> bool, fits: nat -> Batch -> bool, partial_: bool,
                   error: Error, delivered: seq<Line>, calls: nat, rest: seq<Window>)
    requires ValidWindows(windows) && calls >= 1 && ValidWindows(rest)
    requires RequestedAll(disk, windows) == delivered + RequestedAll(disk, rest)
    requires Refusal(disk, rest, readFits, fits(calls - 1), partial_, error)
    ensures Interrupted(disk, windows, readFits, fits, partial_, error, delivered, calls)
  {
    hide RequestedAll, Refusal;
    assert Asks(disk, windows, delivered, rest);
  }

  /** Calling again with what remains, until nothing that can be read remains: it terminates, and
      every requested line has then been delivered exactly once, in order. Each call may have its
      own budget. What remains at the end are the windows that fail, so the batch is complete
      exactly when none does. */
  method ReadUntilDone(disk: Disk, windows: seq<Window>, readFits: ReadResult -> bool, fits: nat -> Batch -> bool, partial_: bool)
    returns (outcome: Outcome, delivered: seq<Line>, calls: nat)
    requires ValidWindows(windows)
    ensures outcome.Delivered? ==>
              && delivered == RequestedAll(disk, windows)
              && outcome.batch.remaining == FailingOf(disk, windows)
              && (outcome.batch.complete <==> FailingOf(disk, windows) == [])
              && 1 <= calls <= 1 + Work(disk, windows)
    ensures outcome.Threw? ==> calls >= 1 && Interrupted(disk, windows, readFits, fits, partial_, outcome.error, delivered, calls)
  {
    hide RequestedAll, FailingOf, Work, Names, ValidWindow, Refusal, Interrupted;
    outcome := ReadManyWindows(disk, windows, readFits, fits(0), partial_);
    delivered, calls := [], 1;
    if outcome.Threw? {
      assert [] + RequestedAll(disk, windows) == RequestedAll(disk, windows);
      StopsShort(disk, windows, readFits, fits, partial_, outcome.error, delivered, calls, windows);
      return;
    }
    delivered := LinesOf(outcome.batch.files);
    while AnyReadable(disk, outcome.batch.remaining)
      invariant outcome.Delivered? && ValidWindows(outcome.batch.remaining)
      invariant outcome.batch.complete <==> outcome.batch.remaining == []
      invariant RequestedAll(disk, windows) == delivered + RequestedAll(disk, outcome.batch.remaining)
      invariant FailingOf(disk, windows) == FailingOf(disk, outcome.batch.remaining)
      invariant 1 <= calls <= 1 + Work(disk, windows) - Work(disk, outcome.batch.remaining)
      decreases Work(disk, outcome.batch.remaining)
    {
      var before := outcome.batch.remaining;
      ReadableMeansWork(disk, before);
      outcome := ReadManyWindows(disk, before, readFits, fits(calls), partial_);
      calls := calls + 1;
      if outcome.Threw? {
        StopsShort(disk, windows, readFits, fits, partial_, outcome.error, delivered, calls, before);
        return;
      }
      var more := LinesOf(outcome.batch.files);
      assert delivered + more + RequestedAll(disk, outcome.batch.remaining) == delivered + (more + RequestedAll(disk, outcome.batch.remaining));
      delivered := delivered + more;
    }
    OnlyFailingLeft(disk, outcome.batch.remaining);
  }
}
