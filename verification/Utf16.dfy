/** JavaScript strings: sequences of UTF-16 code units, with the UTF-8 size that
    Buffer.byteLength reports and the size JSON.stringify gives them. */
module Utf16 {
  import opened Utf8

  type Unit = u: int | 0 <= u < 0x10000
  type Text = seq<Unit>

  const LF: Unit := 10

  predicate IsHigh(u: Unit) { 0xD800 <= u < 0xDC00 }

  predicate IsLow(u: Unit) { 0xDC00 <= u < 0xE000 }

  /** A surrogate pair stands at the head of the text. */
  predicate PairFirst(s: Text) {
    |s| >= 2 && IsHigh(s[0]) && IsLow(s[1])
  }

  function Combine(high: Unit, low: Unit): Scalar
    requires IsHigh(high) && IsLow(low)
  {
    0x10000 + (high - 0xD800) * 0x400 + (low - 0xDC00)
  }

  /** The units of one scalar value. */
  function Units(c: Scalar): (s: Text)
    ensures 1 <= |s| <= 2
  {
    if c < 0x10000 then [c] else [0xD800 + (c - 0x10000) / 0x400, 0xDC00 + (c - 0x10000) % 0x400]
  }

  function UnitsAll(cs: seq<Scalar>): Text {
    if cs == [] then [] else Units(cs[0]) + UnitsAll(cs[1..])
  }

  /** Code points, a lone surrogate read as the replacement character. */
  function Scalars(s: Text): seq<Scalar> {
    if s == [] then []
    else if PairFirst(s) then [Combine(s[0], s[1])] + Scalars(s[2..])
    else if IsHigh(s[0]) || IsLow(s[0]) then [REPLACEMENT] + Scalars(s[1..])
    else [s[0]] + Scalars(s[1..])
  }

  /** No lone surrogate. */
  predicate WellPaired(s: Text) {
    if s == [] then true
    else if PairFirst(s) then WellPaired(s[2..])
    else !IsHigh(s[0]) && !IsLow(s[0]) && WellPaired(s[1..])
  }

  function UnitBytes(u: Unit): nat {
    if u < 0x80 then 1 else if u < 0x800 then 2 else 3
  }

  function ByteLength(s: Text): nat {
    if s == [] then 0
    else if PairFirst(s) then 4 + ByteLength(s[2..])
    else UnitBytes(s[0]) + ByteLength(s[1..])
  }

  /** The size is that of the UTF-8 encoding of the code points. */
  lemma {:induction false} ByteLengthIsEncodedLength(s: Text)
    ensures ByteLength(s) == |EncodeAll(Scalars(s))|
  {
    if s == [] {
    } else if PairFirst(s) {
      ByteLengthIsEncodedLength(s[2..]);
      assert Scalars(s)[1..] == Scalars(s[2..]);
    } else {
      ByteLengthIsEncodedLength(s[1..]);
      assert Scalars(s)[1..] == Scalars(s[1..]);
    }
  }

  /** A surrogate pair forms where the two texts meet. */
  predicate Joins(a: Text, b: Text) {
    a != [] && b != [] && IsHigh(a[|a| - 1]) && IsLow(b[0])
  }

  /** Sizes add up, less two bytes when a pair forms at the join. */
  lemma {:induction false} ByteLengthOfJoin(a: Text, b: Text)
    ensures ByteLength(a + b) == ByteLength(a) + ByteLength(b) - (if Joins(a, b) then 2 else 0)
  {
    if a == [] {
      assert a + b == b;
    } else if PairFirst(a) {
      assert (a + b)[2..] == a[2..] + b;
      ByteLengthOfJoin(a[2..], b);
    } else if |a| == 1 {
      assert (a + b)[1..] == b;
      if Joins(a, b) {
        assert (a + b)[2..] == b[1..];
      }
    } else {
      assert (a + b)[1..] == a[1..] + b;
      ByteLengthOfJoin(a[1..], b);
    }
  }

  /** Each unit takes at least one byte and at most three. */
  lemma {:induction false} ByteLengthBounds(s: Text)
    ensures |s| <= ByteLength(s) <= 3 * |s|
  {
    if s == [] {
    } else if PairFirst(s) {
      ByteLengthBounds(s[2..]);
    } else {
      ByteLengthBounds(s[1..]);
    }
  }

  function Ascii(c: char): Unit {
    if c < 128 as char then c as int else 0
  }

  /** An ASCII literal as a JavaScript string. */
  function FromAscii(s: string): (t: Text)
    ensures |t| == |s|
  {
    seq(|s|, i requires 0 <= i < |s| => Ascii(s[i]))
  }
}
