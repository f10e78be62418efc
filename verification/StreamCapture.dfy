/** Bounded capture of a child's output (runLocalProcess in src/providers/local-shell.ts): the
    stream arrives in chunks; only a head and a tail are kept. */
module StreamCapture {
  import opened Utf16
  import opened Json

  /** A line break, an ellipsis on both sides of the word, a line break. */
  const MARKER: Text := [0x0A, 0x2026, 0x20, 0x74, 0x72, 0x75, 0x6E, 0x63, 0x61, 0x74, 0x65, 0x64, 0x20, 0x2026, 0x0A]

  function CeilHalf(n: nat): nat { (n + 1) / 2 }

  function Min(a: nat, b: nat): nat { if a < b then a else b }

  /** The first and last n units of a text, all of it when it is shorter. */
  function First(s: Text, n: nat): Text { s[..Min(n, |s|)] }

  function Last(s: Text, n: nat): Text { s[|s| - Min(n, |s|)..] }

  /** What is delivered of a whole stream: the stream itself within the limit, otherwise a
      prefix and a suffix of it around the marker, of exactly the limit together. A limit that
      cannot hold the marker drops it. */
  function Captured(stream: Text, limit: nat): (out: Text)
    ensures |out| == Min(|stream|, limit)
  {
    if |stream| <= limit then stream
    else if |MARKER| <= limit then
      var room := limit - |MARKER|;
      First(stream, CeilHalf(room)) + MARKER + Last(stream, room - CeilHalf(room))
    else First(stream, CeilHalf(limit)) + Last(stream, limit - CeilHalf(limit))
  }

  class Capture {
    const limit: nat
    var head: Text
    var tail: Text
    var total: nat
    var output: Text
    var truncated: bool

    /** The fields stand for the whole stream received so far. */
    ghost predicate Holds(stream: Text)
      reads this
    {
      var headLimit := CeilHalf(limit);
      && total == |stream|
      && head == First(stream, headLimit)
      && tail == Last(stream[|head|..], limit - headLimit)
      && output == Captured(stream, limit)
      && truncated == (|stream| > limit)
    }

    constructor (limit: nat)
      ensures this.limit == limit && Holds([])
    {
      this.limit := limit;
      head, tail, total, output, truncated := [], [], 0, [], false;
    }

    /** One data event. */
    method Data(data: Text, ghost stream: Text)
      requires Holds(stream)
      modifies this
      ensures Holds(stream + data)
    {
      hide *;
      var headLimit := CeilHalf(limit);
      var tailLimit := limit - headLimit;
      HalfBound(limit);
      Received(stream, limit);
      total := total + |data|;
      var take := Min(headLimit - |head|, |data|);
      KeepsEnds(stream, data, limit, head, tail, take);
      head := head + data[..take];
      if tailLimit > 0 {
        tail := Last(tail + data[take..], tailLimit);
      }
      var over := total > limit;
      Assembled(stream + data, limit, head, tail);
      Room(limit);
      if !over {
        output := head + tail;
      } else {
        var room := if limit >= |MARKER| then limit - |MARKER| else 0;
        var prefix := CeilHalf(room);
        var suffix := room - prefix;
        output := if limit >= |MARKER| then First(head, prefix) + MARKER + (if suffix > 0 then Last(tail, suffix) else [])
                  else head + tail;
        truncated := true;
      }
      Sent(stream + data);
    }

    lemma Received(stream: Text, limit: nat)
      requires Holds(stream) && limit == this.limit
      ensures total == |stream| && truncated == (|stream| > limit)
      ensures head == First(stream, CeilHalf(limit)) && |head| <= |stream| && |head| <= CeilHalf(limit)
      ensures tail == Last(stream[|head|..], limit - CeilHalf(limit))
    {
    }

    lemma Delivered(stream: Text)
      requires Holds(stream)
      ensures output == Captured(stream, limit) && truncated == (|stream| > limit)
    {
    }

    lemma Sent(stream: Text)
      requires total == |stream| && truncated == (|stream| > limit) && output == Captured(stream, limit)
      requires head == First(stream, CeilHalf(limit)) && |head| <= |stream|
      requires tail == Last(stream[|head|..], limit - CeilHalf(limit))
      ensures Holds(stream)
    {
    }
  }

  lemma HalfBound(n: nat)
    ensures CeilHalf(n) <= n
  {
  }

  lemma Room(limit: nat)
    ensures limit >= |MARKER| ==> CeilHalf(limit - |MARKER|) <= limit - |MARKER|
  {
  }

  /** The next head and tail are those of the longer stream. */
  lemma KeepsEnds(stream: Text, data: Text, limit: nat, head: Text, tail: Text, take: nat)
    requires head == First(stream, CeilHalf(limit)) && |head| <= |stream| && |head| <= CeilHalf(limit)
    requires tail == Last(stream[|head|..], limit - CeilHalf(limit))
    requires take == Min(CeilHalf(limit) - |head|, |data|)
    ensures take <= |data|
    ensures var h := head + data[..take];
            && h == First(stream + data, CeilHalf(limit)) && |h| <= |stream + data|
            && var tailLimit := limit - CeilHalf(limit);
               (if tailLimit > 0 then Last(tail + data[take..], tailLimit) else tail) == Last((stream + data)[|h|..], tailLimit)
  {
    var tailLimit := limit - CeilHalf(limit);
    HeadTakes(stream, data, CeilHalf(limit));
    MoreThanHead(stream, data, CeilHalf(limit), take);
    hide *;
    HalfBound(limit);
    TailTakes(stream[|head|..], data[take..], tailLimit);
    RestGrows(stream, data, |head|, take);
  }

  lemma MoreThanHead(stream: Text, data: Text, headLimit: nat, take: nat)
    requires take == Min(headLimit - |First(stream, headLimit)|, |data|)
    ensures take <= |data| && (|First(stream, headLimit)| < |stream| ==> take == 0)
    ensures |First(stream, headLimit)| <= |stream|
  {
  }

  lemma HeadTakes(stream: Text, data: Text, headLimit: nat)
    ensures |First(stream, headLimit)| <= headLimit
    ensures First(stream, headLimit) + data[..Min(headLimit - |First(stream, headLimit)|, |data|)] == First(stream + data, headLimit)
  {
  }

  lemma TailTakes(rest: Text, more: Text, tailLimit: nat)
    ensures Last(Last(rest, tailLimit) + more, tailLimit) == Last(rest + more, tailLimit)
    ensures tailLimit == 0 ==> Last(rest, tailLimit) == [] == Last(rest + more, tailLimit)
  {
  }

  lemma RestGrows(stream: Text, data: Text, h: nat, take: nat)
    requires h <= |stream| && take <= |data| && (h < |stream| ==> take == 0)
    ensures stream[h..] + data[take..] == (stream + data)[h + take..]
  {
  }

  lemma LastOfRest(stream: Text, h: nat, n: nat)
    requires h <= |stream| && n <= |stream| - h
    ensures Last(stream[h..], n) == Last(stream, n)
  {
  }

  lemma InnerEnds(stream: Text, outer: nat, inner: nat)
    requires inner <= outer <= |stream|
    ensures First(First(stream, outer), inner) == First(stream, inner)
    ensures Last(Last(stream, outer), inner) == Last(stream, inner)
  {
  }

  lemma WholeStream(stream: Text, h: nat, n: nat)
    requires |stream| <= h + n
    ensures First(stream, h) + Last(stream[|First(stream, h)|..], n) == stream
  {
  }

  /** Head and tail are enough to write the capture, without the stream. */
  lemma Assembled(stream: Text, limit: nat, head: Text, tail: Text)
    requires head == First(stream, CeilHalf(limit)) && |head| <= |stream|
    requires tail == Last(stream[|head|..], limit - CeilHalf(limit))
    ensures |stream| <= limit ==> head + tail == stream == Captured(stream, limit)
    ensures |stream| > limit && limit < |MARKER| ==> head + tail == Captured(stream, limit)
    ensures |stream| > limit && |MARKER| <= limit ==>
              var room := limit - |MARKER|;
              var suffix := room - CeilHalf(room);
              First(head, CeilHalf(room)) + MARKER + (if suffix > 0 then Last(tail, suffix) else []) == Captured(stream, limit)
  {
    hide First, Last;
    var tailLimit := limit - CeilHalf(limit);
    if |stream| <= limit {
      WholeStream(stream, CeilHalf(limit), tailLimit);
    } else {
      FirstLength(stream, CeilHalf(limit));
      LastOfRest(stream, |head|, tailLimit);
      if |MARKER| <= limit {
        var room := limit - |MARKER|;
        var suffix := room - CeilHalf(room);
        InnerEnds(stream, CeilHalf(limit), CeilHalf(room));
        InnerEnds(stream, tailLimit, suffix);
        LastNone(stream);
      }
    }
  }

  lemma LastNone(s: Text)
    ensures Last(s, 0) == []
  {
  }

  lemma FirstLength(s: Text, n: nat)
    requires n <= |s|
    ensures |First(s, n)| == n
  {
  }

  function Joined(chunks: seq<Text>): Text {
    if chunks == [] then [] else Joined(chunks[..|chunks| - 1]) + chunks[|chunks| - 1]
  }

  /** The whole stream within the limit, and otherwise its first p and its last q units, with the
      marker between them if that fits the limit: p is q, or one more. */
  ghost predicate EndsOf(stream: Text, limit: nat, out: Text, p: nat, q: nat) {
    && p + q <= |stream| && q <= p <= q + 1
    && out == stream[..p] + (if limit >= 15 then MARKER else []) + stream[|stream| - q..]
    && |out| == limit
  }

  lemma FirstIs(s: Text, n: nat)
    requires n <= |s|
    ensures First(s, n) == s[..n] && Last(s, n) == s[|s| - n..]
  {
  }

  lemma CapturedOver(stream: Text, limit: nat, p: nat, q: nat)
    requires |stream| > limit && p == CeilHalf(if limit >= 15 then limit - 15 else limit) && p + q == (if limit >= 15 then limit - 15 else limit)
    ensures Captured(stream, limit) == if limit >= 15 then First(stream, p) + MARKER + Last(stream, q) else First(stream, p) + Last(stream, q)
  {
    hide First, Last;
  }

  lemma CapturedMeans(stream: Text, limit: nat) returns (p: nat, q: nat)
    ensures |stream| <= limit ==> Captured(stream, limit) == stream
    ensures |stream| > limit ==> EndsOf(stream, limit, Captured(stream, limit), p, q)
  {
    var room := if limit >= 15 then limit - 15 else limit;
    p, q := CeilHalf(room), room - CeilHalf(room);
    assert q <= p <= q + 1;
    if |stream| > limit {
      CapturedOver(stream, limit, p, q);
      FirstIs(stream, p);
      FirstIs(stream, q);
      hide First, Last, Captured, CeilHalf;
      assert stream[..p] + [] == stream[..p];
    }
  }

  /** However a stream is cut into chunks, the capture is that of the whole stream. */
  method CaptureStream(chunks: seq<Text>, limit: nat) returns (output: Text, truncated: bool)
    ensures output == Captured(Joined(chunks), limit) && truncated == (|Joined(chunks)| > limit)
    ensures !truncated ==> output == Joined(chunks)
    ensures truncated ==> exists p, q :: EndsOf(Joined(chunks), limit, output, p, q)
  {
    hide *;
    assert Joined(chunks[..0]) == [] by { JoinedNone(); }
    var capture := new Capture(limit);
    for k := 0 to |chunks|
      invariant fresh(capture) && capture.limit == limit && capture.Holds(Joined(chunks[..k]))
    {
      JoinedNext(chunks, k);
      capture.Data(chunks[k], Joined(chunks[..k]));
    }
    assert chunks[..|chunks|] == chunks;
    capture.Delivered(Joined(chunks));
    ghost var p, q := CapturedMeans(Joined(chunks), limit);
    return capture.output, capture.truncated;
  }

  lemma JoinedNone()
    ensures Joined([]) == []
  {
  }

  lemma JoinedNext(chunks: seq<Text>, k: nat)
    requires k < |chunks|
    ensures Joined(chunks[..k + 1]) == Joined(chunks[..k]) + chunks[k]
  {
    assert chunks[..k + 1][..k] == chunks[..k];
  }

  // ----- the serialized result

  datatype ShellResult = ShellResult(ok: bool, exitCode: int, stdout: Text, stderr: Text, stdoutTruncated: bool, stderrTruncated: bool)

  function BoolUnits(b: bool): nat { if b then 4 else 5 }

  function IntUnits(i: int): nat { if i < 0 then 1 + Digits(-i) else Digits(i) }

  /** Characters of the serialized result of a child that exited without a signal. */
  function ResultUnits(r: ShellResult): nat {
    100 + BoolUnits(r.ok) + IntUnits(r.exitCode) + 4 + StringUnits(r.stdout) + StringUnits(r.stderr)
    + BoolUnits(r.stdoutTruncated || r.stderrTruncated) + BoolUnits(r.stdoutTruncated) + BoolUnits(r.stderrTruncated)
  }

  function StreamLimit(budget: nat): nat
    requires budget >= 256
  {
    (budget - 256) / 12
  }

  /** Whatever the two streams hold, the serialized result is within the configured budget: the
      provider's own bound on the result never rejects it. */
  lemma ResultFitsBudget(budget: nat, stdout: Text, stderr: Text, exitCode: int)
    requires budget >= 256 && -0x8000_0000 <= exitCode < 0x8000_0000
    ensures 12 * StreamLimit(budget) <= budget - 256 < 12 * (StreamLimit(budget) + 1)
    ensures var limit := StreamLimit(budget);
            ResultUnits(ShellResult(exitCode == 0, exitCode, Captured(stdout, limit), Captured(stderr, limit),
                                    |stdout| > limit, |stderr| > limit)) <= budget
  {
    hide Captured;
    var limit := StreamLimit(budget);
    ContentBounds(Captured(stdout, limit));
    ContentBounds(Captured(stderr, limit));
    assert Pow10(5) == 100_000;
    assert Pow10(10) == 10_000_000_000;
    DigitsBound(if exitCode < 0 then -exitCode else exitCode, 10);
  }
}
