/** Sizes of JSON texts as JSON.stringify writes them (RFC 8259 section 7, lone surrogates
    escaped): in UTF-16 units and in UTF-8 bytes. */
module Json {
  import opened Utf16

  /** The escape of a unit that is not part of a surrogate pair. */
  function EscapedUnit(u: Unit): (n: nat)
    ensures 1 <= n <= 6
  {
    if u == 0x22 || u == 0x5C then 2
    else if u < 0x20 then (if u == 8 || u == 9 || u == 10 || u == 12 || u == 13 then 2 else 6)
    else if IsHigh(u) || IsLow(u) then 6
    else 1
  }

  /** Characters between the quotes. */
  function ContentUnits(s: Text): nat {
    if s == [] then 0
    else if PairFirst(s) then 2 + ContentUnits(s[2..])
    else EscapedUnit(s[0]) + ContentUnits(s[1..])
  }

  /** UTF-8 bytes between the quotes. */
  function ContentBytes(s: Text): nat {
    if s == [] then 0
    else if PairFirst(s) then 4 + ContentBytes(s[2..])
    else (if EscapedUnit(s[0]) == 1 then UnitBytes(s[0]) else EscapedUnit(s[0])) + ContentBytes(s[1..])
  }

  function StringUnits(s: Text): nat { 2 + ContentUnits(s) }

  function StringBytes(s: Text): nat { 2 + ContentBytes(s) }

  /** No unit costs more than six characters, or six bytes. */
  lemma {:induction false} ContentBounds(s: Text)
    ensures |s| <= ContentUnits(s) <= 6 * |s| && |s| <= ContentBytes(s) <= 6 * |s|
  {
    if s == [] {
    } else if PairFirst(s) {
      ContentBounds(s[2..]);
    } else {
      ContentBounds(s[1..]);
    }
  }

  /** Decimal digits of a natural number. */
  function Digits(n: nat): (d: nat)
    ensures d >= 1
  {
    if n < 10 then 1 else 1 + Digits(n / 10)
  }

  function Pow10(d: nat): nat {
    if d == 0 then 1 else 10 * Pow10(d - 1)
  }

  lemma {:induction false} DigitsBound(n: nat, d: nat)
    requires d >= 1 && n < Pow10(d)
    ensures Digits(n) <= d
    decreases d
  {
    assert Pow10(d) == 10 * Pow10(d - 1);
    if n >= 10 {
      DigitsBound(n / 10, d - 1);
    }
  }

  lemma SafeIntegerDigits(n: nat)
    requires n < 0x20_0000_0000_0000
    ensures Digits(n) <= 16
  {
    assert Pow10(4) == 10_000;
    assert Pow10(8) == 100_000_000 by { assert Pow10(6) == 1_000_000; }
    assert Pow10(12) == 1_000_000_000_000 by { assert Pow10(10) == 10_000_000_000; }
    assert Pow10(16) == 10_000_000_000_000_000 by { assert Pow10(14) == 100_000_000_000_000; }
    DigitsBound(n, 16);
  }
}
