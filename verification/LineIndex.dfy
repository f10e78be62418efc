/** Line ends of one captured text (src/providers/local-line-index.ts). A line runs up to and
    including its LF; the last one may lack it. */
module LineIndex {
  import opened Utf16

  /** Position of the first LF from a position on, or -1. */
  function IndexOfLf(text: Text, from: nat): (r: int)
    ensures -1 <= r < |text|
    ensures r >= 0 ==> from <= r && text[r] == LF
    decreases |text| - from
  {
    if from >= |text| then -1 else if text[from] == LF then from else IndexOfLf(text, from + 1)
  }

  /** It is the first: no LF lies before it, or anywhere when there is none. */
  lemma {:induction false} IndexOfLfIsFirst(text: Text, from: nat)
    ensures var r := IndexOfLf(text, from);
            forall i | from <= i < (if r >= 0 then r else |text|) :: text[i] != LF
    decreases |text| - from
  {
    if from < |text| && text[from] != LF {
      IndexOfLfIsFirst(text, from + 1);
    }
  }

  /** The lines of the text from a position on. */
  function LinesFrom(text: Text, from: nat): seq<Text>
    requires from <= |text|
    decreases |text| - from
  {
    if from == |text| then []
    else
      var at := IndexOfLf(text, from);
      if at < 0 then [text[from..]] else [text[from..at + 1]] + LinesFrom(text, at + 1)
  }

  function Lines(text: Text): seq<Text> { LinesFrom(text, 0) }

  lemma LinesStep(text: Text, from: nat)
    requires from <= |text|
    ensures var at := IndexOfLf(text, from);
            LinesFrom(text, from) == if from == |text| then [] else if at < 0 then [text[from..]] else [text[from..at + 1]] + LinesFrom(text, at + 1)
  {
    hide IndexOfLf;
  }

  function Concat(lines: seq<Text>): Text {
    if lines == [] then [] else lines[0] + Concat(lines[1..])
  }

  /** Total length of the first k lines. */
  function Offset(lines: seq<Text>, k: nat): nat
    requires k <= |lines|
  {
    if k == 0 then 0 else Offset(lines, k - 1) + |lines[k - 1]|
  }

  /** The lines are the text, cut. */
  lemma {:induction false} LinesConcat(text: Text, from: nat)
    requires from <= |text|
    ensures Concat(LinesFrom(text, from)) == text[from..]
    decreases |text| - from
  {
    hide IndexOfLf, LinesFrom;
    LinesStep(text, from);
    if from < |text| {
      var at := IndexOfLf(text, from);
      if at >= 0 {
        LinesConcat(text, at + 1);
        assert LinesFrom(text, from)[1..] == LinesFrom(text, at + 1);
        assert text[from..] == text[from..at + 1] + text[at + 1..];
      } else {
        ConcatOne(text[from..]);
      }
    }
  }

  lemma {:induction false} ConcatJoin(a: seq<Text>, b: seq<Text>)
    ensures Concat(a + b) == Concat(a) + Concat(b)
  {
    if a == [] {
      assert a + b == b;
    } else {
      assert (a + b)[1..] == a[1..] + b;
      ConcatJoin(a[1..], b);
    }
  }

  lemma ConcatOne(line: Text)
    ensures Concat([line]) == line
  {
    var one: seq<Text> := [line];
    assert one[1..] == [] && Concat(one[1..]) == [];
  }

  lemma {:induction false} OffsetIsLength(lines: seq<Text>, k: nat)
    requires k <= |lines|
    ensures Offset(lines, k) == |Concat(lines[..k])|
  {
    if k > 0 {
      OffsetIsLength(lines, k - 1);
      assert lines[..k] == lines[..k - 1] + [lines[k - 1]];
      ConcatJoin(lines[..k - 1], [lines[k - 1]]);
      ConcatOne(lines[k - 1]);
    }
  }

  /** A run of lines is the stretch of text between two line ends. */
  lemma SliceIsLines(text: Text, start: nat, end: nat)
    requires start <= end <= |Lines(text)|
    ensures Offset(Lines(text), start) <= Offset(Lines(text), end) <= |text|
    ensures text[Offset(Lines(text), start)..Offset(Lines(text), end)] == Concat(Lines(text)[start..end])
  {
    hide Concat, LinesFrom;
    var lines := Lines(text);
    LinesConcat(text, 0);
    var a, b, c := lines[..start], lines[start..end], lines[end..];
    assert lines == a + (b + c) && lines[..end] == a + b;
    ConcatJoin(a, b + c);
    ConcatJoin(b, c);
    ConcatJoin(a, b);
    OffsetIsLength(lines, start);
    OffsetIsLength(lines, end);
    assert text[0..] == text;
    Stretch(text, Concat(a), Concat(b), Concat(c));
  }

  lemma Stretch(whole: Text, a: Text, b: Text, c: Text)
    requires whole == a + (b + c)
    ensures whole[|a|..|a + b|] == b
  {
  }

  /** How many LFs lie from a position on. */
  function Feeds(text: Text, from: nat): nat
    decreases |text| - from
  {
    var at := IndexOfLf(text, from);
    if at < 0 then 0 else 1 + Feeds(text, at + 1)
  }

  /** Lines are counted by LFs, plus an unterminated last one. */
  lemma {:induction false} LineCount(text: Text, from: nat)
    requires from <= |text|
    ensures |LinesFrom(text, from)| == Feeds(text, from) + if from < |text| && text[|text| - 1] != LF then 1 else 0
    decreases |text| - from
  {
    hide IndexOfLf, LinesFrom;
    LinesStep(text, from);
    if from < |text| {
      var at := IndexOfLf(text, from);
      if at >= 0 {
        LineCount(text, at + 1);
      } else {
        IndexOfLfIsFirst(text, from);
      }
    }
  }

  // ----- runs of lines

  /** One line: an LF only at its end. */
  ghost predicate OneLine(line: Text) {
    line != [] && forall i | 0 <= i < |line| - 1 :: line[i] != LF
  }

  /** Lines cut from a text: only the last may lack its LF. */
  ghost predicate WellCut(lines: seq<Text>) {
    forall k | 0 <= k < |lines| :: OneLine(lines[k]) && (k < |lines| - 1 ==> lines[k][|lines[k]| - 1] == LF)
  }

  lemma {:induction false} LinesWellCut(text: Text, from: nat)
    requires from <= |text|
    ensures WellCut(LinesFrom(text, from))
    decreases |text| - from
  {
    hide IndexOfLf, LinesFrom;
    LinesStep(text, from);
    if from < |text| {
      var at := IndexOfLf(text, from);
      IndexOfLfIsFirst(text, from);
      if at >= 0 {
        LinesWellCut(text, at + 1);
        var rest := LinesFrom(text, at + 1);
        assert forall k | 0 < k < |LinesFrom(text, from)| :: LinesFrom(text, from)[k] == rest[k - 1];
      }
    }
  }

  lemma {:induction false} IndexOfLfShift(a: Text, b: Text, from: nat)
    requires from <= |b|
    ensures IndexOfLf(a + b, |a| + from) == if IndexOfLf(b, from) < 0 then -1 else |a| + IndexOfLf(b, from)
    decreases |b| - from
  {
    if from < |b| && b[from] != LF {
      IndexOfLfShift(a, b, from + 1);
    }
  }

  lemma {:induction false} LinesShift(a: Text, b: Text, from: nat)
    requires from <= |b|
    ensures LinesFrom(a + b, |a| + from) == LinesFrom(b, from)
    decreases |b| - from
  {
    hide *;
    IndexOfLfShift(a, b, from);
    LinesStep(a + b, |a| + from);
    LinesStep(b, from);
    if from < |b| {
      var at := IndexOfLf(b, from);
      assert (a + b)[|a| + from..] == b[from..];
      if at >= 0 {
        LinesShift(a, b, at + 1);
        assert (a + b)[|a| + from..|a| + at + 1] == b[from..at + 1];
      }
    }
  }

  lemma FirstLine(line: Text, rest: Text)
    requires OneLine(line) && (rest == [] || line[|line| - 1] == LF)
    ensures Lines(line + rest) == [line] + Lines(rest)
  {
    var text := line + rest;
    IndexOfLfIsFirst(text, 0);
    var at := IndexOfLf(text, 0);
    if line[|line| - 1] == LF {
      FirstLf(text, |line| - 1);
      LinesShift(line, rest, 0);
      assert text[0..|line|] == line;
    } else {
      assert text == line;
      assert at < 0;
      assert text[0..] == line;
    }
  }

  lemma FirstLf(text: Text, i: nat)
    requires i < |text| && text[i] == LF && forall k | 0 <= k < i :: text[k] != LF
    ensures IndexOfLf(text, 0) == i
  {
    IndexOfLfIsFirst(text, 0);
  }

  /** Joining lines and cutting again gives the same lines. */
  lemma {:induction false} LinesOfConcat(lines: seq<Text>)
    requires WellCut(lines)
    ensures Lines(Concat(lines)) == lines
  {
    if lines != [] {
      hide LinesFrom;
      LinesOfConcat(lines[1..]);
      if |lines| == 1 {
        assert lines[1..] == [] && Concat(lines[1..]) == [];
      }
      FirstLine(lines[0], Concat(lines[1..]));
      assert lines == [lines[0]] + lines[1..];
    } else {
      assert Lines([]) == [];
    }
  }

  /** A stretch of the lines of a text is cut the same way on its own. */
  lemma LinesOfRun(text: Text, start: nat, end: nat)
    requires start <= end <= |Lines(text)|
    ensures Lines(Concat(Lines(text)[start..end])) == Lines(text)[start..end]
  {
    hide LinesFrom;
    LinesWellCut(text, 0);
    var run := Lines(text)[start..end];
    assert forall k | 0 <= k < |run| :: run[k] == Lines(text)[start + k];
    LinesOfConcat(run);
  }

  class LocalLineIndex {
    const text: Text
    const ends: array<nat>

    ghost predicate Valid()
      reads this, ends
    {
      ends.Length == |Lines(text)| && forall k | 0 <= k < ends.Length :: ends[k] == Offset(Lines(text), k + 1)
    }

    /** Counts the lines, then fills in their ends. */
    constructor (text: Text)
      ensures Valid() && this.text == text && fresh(ends)
    {
      hide LinesFrom, IndexOfLf, Offset;
      var count := 0;
      var at := IndexOfLf(text, 0);
      while at != -1
        invariant -1 <= at < |text|
        invariant count + (if at == -1 then 0 else 1 + Feeds(text, at + 1)) == Feeds(text, 0)
        decreases if at == -1 then 0 else |text| - at
      {
        count := count + 1;
        at := IndexOfLf(text, at + 1);
      }
      if |text| > 0 && text[|text| - 1] != LF {
        count := count + 1;
      }
      LineCount(text, 0);
      this.text := text;
      this.ends := new nat[count](_ => 0);
      new;
      Fill(this);
    }

    function TotalLines(): nat
      reads this
    {
      ends.Length
    }

    /** Lines start to end as one text. */
    function Slice(start: nat, end: nat): (s: Text)
      requires Valid() && end <= TotalLines()
      reads this, ends
      ensures s == if start < end then Concat(Lines(text)[start..end]) else []
    {
      if end <= start then []
      else
        SliceIsLines(text, start, end);
        text[if start > 0 then ends[start - 1] else 0..ends[end - 1]]
    }
  }

  /** What the second pass has written: the ends of the first n lines, the rest starting at a position. */
  ghost predicate Filled(index: LocalLineIndex, n: nat, at: nat)
    reads index, index.ends
  {
    && at <= |index.text| && n <= index.ends.Length == |Lines(index.text)|
    && Lines(index.text)[n..] == LinesFrom(index.text, at)
    && Offset(Lines(index.text), n) == at
    && forall k | 0 <= k < n :: index.ends[k] == Offset(Lines(index.text), k + 1)
  }

  lemma NextLine(index: LocalLineIndex, n: nat, from: nat)
    requires Filled(index, n, from) && from < |index.text|
    ensures n < index.ends.Length
    ensures var at := IndexOfLf(index.text, from);
            var next := if at >= 0 then at + 1 else |index.text|;
            Lines(index.text)[n + 1..] == LinesFrom(index.text, next) && Offset(Lines(index.text), n + 1) == next
  {
    hide IndexOfLf;
    var lines := Lines(index.text);
    var at := IndexOfLf(index.text, from);
    var rest := LinesFrom(index.text, from);
    assert rest != [] && lines[n] == lines[n..][0] == rest[0];
    assert lines[n + 1..] == lines[n..][1..] == rest[1..];
    assert at >= 0 ==> rest[1..] == LinesFrom(index.text, at + 1);
  }

  method Fill(index: LocalLineIndex)
    requires index.ends.Length == |Lines(index.text)|
    modifies index.ends
    ensures index.Valid()
  {
    hide IndexOfLf, LinesFrom, Offset;
    var text := index.text;
    var i: nat, from: nat := 0, 0;
    StartFilled(index);
    var at := IndexOfLf(text, 0);
    while at != -1
      invariant Filled(index, i, from) && at == IndexOfLf(text, from) && from <= |text|
      decreases |text| - from
    {
      NextLine(index, i, from);
      index.ends[i] := at + 1;
      i, from := i + 1, at + 1;
      at := IndexOfLf(text, at + 1);
    }
    if from < |text| {
      NextLine(index, i, from);
      EndOfText(text);
    } else {
      EndOfText(text);
    }
    if i < index.ends.Length {
      index.ends[i] := |text|;
    }
  }

  lemma StartFilled(index: LocalLineIndex)
    requires index.ends.Length == |Lines(index.text)|
    ensures Filled(index, 0, 0)
  {
  }

  lemma EndOfText(text: Text)
    ensures LinesFrom(text, |text|) == []
  {
  }
}
