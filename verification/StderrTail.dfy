/** The ring buffer that keeps the last bytes a server wrote to stderr
    (runMcpConnectionWorker in src/kiro/mcp-provider.ts). */
module StderrTail {
  import opened Utf8

  /** The last n elements, or all of them. */
  function Last(s: seq<Byte>, n: nat): (r: seq<Byte>)
    ensures |r| == if |s| < n then |s| else n
  {
    if |s| <= n then s else s[|s| - n..]
  }

  /** Where the k-th of the length kept bytes lies. */
  function Slot(n: nat, offset: nat, length: nat, k: nat): int {
    if offset + k >= length then offset + k - length else offset + k - length + n
  }

  /** The buffer holds the last length bytes of what was seen, in a ring that ends at the offset. */
  ghost predicate Holds(a: seq<Byte>, offset: nat, length: nat, seen: seq<Byte>) {
    && offset < |a| && length == |Last(seen, |a|)|
    && forall k: nat | k < length :: 0 <= Slot(|a|, offset, length, k) < |a| && a[Slot(|a|, offset, length, k)] == seen[|seen| - length + k]
  }

  function Next(n: nat, offset: nat, r: nat): int {
    if offset + r < n then offset + r else offset + r - n
  }

  function Kept(n: nat, length: nat, r: nat): nat {
    if length + r < n then length + r else n
  }

  /** The bytes lie in b from the offset on, around the end, and the rest is as in a. */
  ghost predicate Rewritten(a: seq<Byte>, offset: nat, bytes: seq<Byte>, b: seq<Byte>) {
    && offset < |a| == |b| && |bytes| <= |a|
    && (forall j: nat | j < |bytes| :: 0 <= Next(|a|, offset, j) < |a| && b[Next(|a|, offset, j)] == bytes[j])
    && (forall i | 0 <= i < |a| && Untouched(|a|, offset, |bytes|, i) :: b[i] == a[i])
  }

  predicate Untouched(n: nat, offset: nat, r: nat, i: int) {
    (i < offset || i >= offset + r) && i + n >= offset + r
  }

  /** The last r slots are those just written. */
  lemma NewSlot(n: nat, offset: nat, length: nat, r: nat, k: nat)
    requires offset < n && length <= n && r <= n && Kept(n, length, r) - r <= k < Kept(n, length, r) && (length < n ==> offset == length)
    ensures Next(n, offset, r) >= 0
    ensures Slot(n, Next(n, offset, r), Kept(n, length, r), k) == Next(n, offset, k + r - Kept(n, length, r))
  {
  }

  /** The others are old ones, not written over. */
  lemma OldSlot(n: nat, offset: nat, length: nat, r: nat, k: nat)
    requires offset < n && length <= n && r <= n && k < Kept(n, length, r) - r && (length < n ==> offset == length)
    ensures Next(n, offset, r) >= 0 && 0 <= k + r + length - Kept(n, length, r) < length
    ensures var i := Slot(n, Next(n, offset, r), Kept(n, length, r), k);
            i == Slot(n, offset, length, k + r + length - Kept(n, length, r)) && 0 <= i < n && Untouched(n, offset, r, i)
  {
  }

  lemma LastOfMore(seen: seq<Byte>, chunk: seq<Byte>, n: nat, k: nat)
    requires k < Kept(n, |Last(seen, n)|, |Last(chunk, n)|)
    ensures Kept(n, |Last(seen, n)|, |Last(chunk, n)|) == |Last(seen + chunk, n)|
    ensures var r, length, kept := |Last(chunk, n)|, |Last(seen, n)|, |Last(seen + chunk, n)|;
            (seen + chunk)[|seen + chunk| - kept + k] == if k >= kept - r then Last(chunk, n)[k + r - kept] else seen[|seen| + k + r - kept]
  {
  }

  ghost predicate Ring(a: seq<Byte>, offset: nat, length: nat, seen: seq<Byte>) {
    Holds(a, offset, length, seen) && (length < |a| ==> offset == length)
  }

  lemma Written(a: seq<Byte>, offset: nat, length: nat, seen: seq<Byte>, chunk: seq<Byte>, b: seq<Byte>)
    requires Ring(a, offset, length, seen) && Rewritten(a, offset, Last(chunk, |a|), b)
    ensures var r := |Last(chunk, |a|)|;
            Next(|a|, offset, r) >= 0 && Ring(b, Next(|a|, offset, r), Kept(|a|, length, r), seen + chunk)
  {
    var n, r := |a|, |Last(chunk, |a|)|;
    var next, kept := Next(n, offset, r), Kept(n, length, r);
    forall k: nat | k < kept
      ensures 0 <= Slot(n, next, kept, k) < n && b[Slot(n, next, kept, k)] == (seen + chunk)[|seen + chunk| - kept + k]
      ensures kept == |Last(seen + chunk, n)|
    {
      WrittenAt(a, offset, length, seen, chunk, b, k);
    }
    if kept == 0 {
      assert seen + chunk == [];
    }
  }

  lemma WrittenAt(a: seq<Byte>, offset: nat, length: nat, seen: seq<Byte>, chunk: seq<Byte>, b: seq<Byte>, k: nat)
    requires Ring(a, offset, length, seen) && Rewritten(a, offset, Last(chunk, |a|), b)
    requires k < Kept(|a|, length, |Last(chunk, |a|)|)
    ensures var n, r := |a|, |Last(chunk, |a|)|;
            var next, kept := Next(n, offset, r), Kept(n, length, r);
            && kept == |Last(seen + chunk, n)| && next >= 0
            && 0 <= Slot(n, next, kept, k) < n && b[Slot(n, next, kept, k)] == (seen + chunk)[|seen + chunk| - kept + k]
  {
    hide Slot, Next, Untouched, Kept, Last;
    var n, r := |a|, |Last(chunk, |a|)|;
    LastOfMore(seen, chunk, n, k);
    if k >= Kept(n, length, r) - r {
      NewSlot(n, offset, length, r, k);
    } else {
      OldSlot(n, offset, length, r, k);
    }
  }

  class Tail {
    const size: nat
    const tail: array<Byte>
    var offset: nat
    var length: nat
    ghost var seen: seq<Byte>

    ghost predicate Valid()
      reads this, tail
    {
      tail.Length == size > 0 && Ring(tail[..], offset, length, seen)
    }

    constructor (size: nat)
      requires size > 0
      ensures Valid() && fresh(tail) && this.size == size && seen == []
    {
      this.size, offset, length, seen := size, 0, 0, [];
      tail := new Byte[size](_ => 0);
    }

    /** Copies the bytes to the buffer from the position on. */
    method Copy(bytes: seq<Byte>, at: nat)
      requires at + |bytes| <= tail.Length
      modifies tail
      ensures tail[..] == old(tail[..])[..at] + bytes + old(tail[..])[at + |bytes|..]
    {
      var i := 0;
      while i < |bytes|
        invariant 0 <= i <= |bytes|
        invariant tail[..] == old(tail[..])[..at] + bytes[..i] + old(tail[..])[at + i..]
      {
        tail[at + i] := bytes[i];
        i := i + 1;
      }
    }

    method Append(chunk: seq<Byte>)
      requires Valid()
      modifies this`offset, this`length, this`seen, tail
      ensures Valid() && seen == old(seen) + chunk
    {
      hide *;
      ValidMeans();
      var retained := chunk[if |chunk| < tail.Length then 0 else |chunk| - tail.Length..];
      LastIs(chunk, tail.Length);
      Overwrite(retained);
      Written(old(tail[..]), offset, length, seen, chunk, tail[..]);
      NextIs(tail.Length, offset, length, |retained|);
      offset := (offset + |retained|) % tail.Length;
      length := if tail.Length < length + |retained| then tail.Length else length + |retained|;
      seen := seen + chunk;
      ValidMeans();
    }

    method Overwrite(retained: seq<Byte>)
      requires offset < tail.Length && |retained| <= tail.Length
      modifies tail
      ensures Rewritten(old(tail[..]), offset, retained, tail[..])
    {
      hide Rewritten;
      var first := if |retained| < tail.Length - offset then |retained| else tail.Length - offset;
      Copy(retained[..first], offset);
      ghost var half := tail[..];
      Copy(retained[first..], 0);
      TwoCopies(old(tail[..]), retained, offset, first, half, tail[..]);
    }

    lemma ValidMeans()
      ensures Valid() <==> tail.Length == size > 0 && Ring(tail[..], offset, length, seen)
      ensures Valid() ==> offset < tail.Length && length <= tail.Length
    {
    }

    /** What is reported when the server has ended: the last bytes it wrote, in order. */
    method Report() returns (bytes: seq<Byte>)
      requires Valid()
      ensures bytes == Last(seen, size)
    {
      var n := tail.Length;
      Wrap(offset + n - length, n);
      var start := (offset + n - length) % n;
      var first := if length < n - start then length else n - start;
      bytes := tail[start..start + first] + tail[..length - first];
      forall k | 0 <= k < length
        ensures bytes[k] == Last(seen, size)[k]
      {
        assert bytes[k] == tail[..][Slot(n, offset, length, k)];
      }
    }
  }

  lemma LastIs(s: seq<Byte>, n: nat)
    ensures Last(s, n) == s[if |s| < n then 0 else |s| - n..]
  {
  }

  lemma NextIs(n: nat, offset: nat, length: nat, r: nat)
    requires offset < n && r <= n
    ensures (offset + r) % n == Next(n, offset, r)
    ensures Kept(n, length, r) == if n < length + r then n else length + r
  {
    Wrap(offset + r, n);
  }

  lemma Wrap(x: nat, n: nat)
    requires n > 0 && x <= 2 * n
    ensures x % n == if x < n then x else if x < 2 * n then x - n else 0
  {
    if n <= x < 2 * n {
      assert x == n + (x - n) && (x - n) / n == 0;
    }
  }

  lemma TwoCopies(a: seq<Byte>, retained: seq<Byte>, offset: nat, first: nat, half: seq<Byte>, b: seq<Byte>)
    requires |retained| <= |a| && offset < |a| && first == if |retained| < |a| - offset then |retained| else |a| - offset
    requires half == a[..offset] + retained[..first] + a[offset + first..]
    requires b == half[..0] + retained[first..] + half[|retained| - first..]
    ensures Rewritten(a, offset, retained, b)
  {
  }
}
