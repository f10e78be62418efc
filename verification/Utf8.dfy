/** UTF-8 as RFC 3629 sections 3 and 4 define it, and the byte checker of the native
    source platform. Bit operations are written as arithmetic on byte values. */
module Utf8 {
  type Byte = b: int | 0 <= b < 0x100
  type Scalar = c: int | (0 <= c < 0xD800) || (0xE000 <= c < 0x110000)

  const REPLACEMENT: Scalar := 0xFFFD

  /** The one, two, three or four bytes of a scalar value. */
  function Encode(c: Scalar): (bytes: seq<Byte>)
    ensures 1 <= |bytes| <= 4
  {
    if c < 0x80 then [c]
    else if c < 0x800 then [0xC0 + c / 0x40, 0x80 + c % 0x40]
    else if c < 0x10000 then [0xE0 + c / 0x40 / 0x40, 0x80 + c / 0x40 % 0x40, 0x80 + c % 0x40]
    else [0xF0 + c / 0x40 / 0x40 / 0x40, 0x80 + c / 0x40 / 0x40 % 0x40, 0x80 + c / 0x40 % 0x40, 0x80 + c % 0x40]
  }

  function EncodeAll(cs: seq<Scalar>): seq<Byte>
  {
    if cs == [] then [] else Encode(cs[0]) + EncodeAll(cs[1..])
  }

  /** What the checker is for: some text without NUL has exactly these bytes. */
  ghost predicate IsText(s: seq<Byte>) {
    exists cs: seq<Scalar> :: Encodes(cs, s)
  }

  ghost predicate Encodes(cs: seq<Scalar>, s: seq<Byte>) {
    0 !in cs && EncodeAll(cs) == s
  }

  /** Number of continuation bytes a lead byte announces; none for a byte that cannot lead. */
  function Continuations(lead: Byte): (n: int)
  {
    if lead < 0x80 then 0
    else if 0xC2 <= lead <= 0xDF then 1
    else if 0xE0 <= lead <= 0xEF then 2
    else if 0xF0 <= lead <= 0xF4 then 3
    else -1
  }

  lemma LeadAnnouncesLength(c: Scalar)
    ensures |Encode(c)| == 1 + Continuations(Encode(c)[0])
  {
  }

  /** The value spelled by the payload bits of a sequence, whether or not it is well formed. */
  function Payload(s: seq<Byte>): (v: nat)
    requires 1 <= |s| <= 4
  {
    if |s| == 1 then s[0] else Fold(LeadPayload(s[0], |s| - 1), s[1..])
  }

  /** The payload bits of a lead byte announcing n continuations. */
  function LeadPayload(lead: Byte, n: int): nat {
    if n == 1 then lead % 0x20 else if n == 2 then lead % 0x10 else lead % 8
  }

  /** Six more payload bits for each continuation byte. */
  function Fold(v: nat, tail: seq<Byte>): nat {
    if tail == [] then v
    else
      var last: int := tail[|tail| - 1];
      Fold(v, tail[..|tail| - 1]) * 0x40 + last % 0x40
  }

  lemma Fold1(v: nat, a: Byte)
    ensures Fold(v, [a]) == v * 0x40 + a % 0x40
  {
    assert Fold(v, [a][..0]) == v;
  }

  lemma Fold2(v: nat, a: Byte, b: Byte)
    ensures Fold(v, [a, b]) == (v * 0x40 + a % 0x40) * 0x40 + b % 0x40
  {
    Fold1(v, a);
    assert [a, b][..1] == [a];
  }

  lemma Fold3(v: nat, a: Byte, b: Byte, c: Byte)
    ensures Fold(v, [a, b, c]) == ((v * 0x40 + a % 0x40) * 0x40 + b % 0x40) * 0x40 + c % 0x40
  {
    Fold2(v, a, b);
    assert [a, b, c][..2] == [a, b];
  }

  lemma PayloadOf2(c: Scalar)
    requires 0x80 <= c < 0x800
    ensures Payload(Encode(c)) == c
  {
    var e := Encode(c);
    assert e[1..] == [e[1]];
    Fold1(LeadPayload(e[0], 1), e[1]);
  }

  lemma PayloadOf3(c: Scalar)
    requires 0x800 <= c < 0x10000
    ensures Payload(Encode(c)) == c
  {
    var e := Encode(c);
    var x := c / 0x40 / 0x40;
    assert e[1..] == [e[1], e[2]];
    Fold2(LeadPayload(e[0], 2), e[1], e[2]);
    Digit(2, c / 0x40 % 0x40);
    Digit(2, c % 0x40);
    assert LeadPayload(e[0], 2) == x;
  }

  lemma PayloadOf4(c: Scalar)
    requires 0x10000 <= c
    ensures Payload(Encode(c)) == c
  {
    var e := Encode(c);
    var x := c / 0x40 / 0x40 / 0x40;
    assert e[1..] == [e[1], e[2], e[3]];
    Fold3(LeadPayload(e[0], 3), e[1], e[2], e[3]);
    Digit(2, c / 0x40 / 0x40 % 0x40);
    Digit(2, c / 0x40 % 0x40);
    Digit(2, c % 0x40);
    assert LeadPayload(e[0], 3) == x;
  }

  lemma PayloadInvertsEncode(c: Scalar)
    ensures Payload(Encode(c)) == c
  {
    if c < 0x80 {
    } else if c < 0x800 {
      PayloadOf2(c);
    } else if c < 0x10000 {
      PayloadOf3(c);
    } else {
      PayloadOf4(c);
    }
  }

  lemma Digit(q: nat, r: nat)
    requires r < 0x40
    ensures (q * 0x40 + r) / 0x40 == q && (q * 0x40 + r) % 0x40 == r
  {
  }

  predicate WellFormed(s: seq<Byte>)
    requires 1 <= |s| <= 4
  {
    && Continuations(s[0]) == |s| - 1
    && (forall k | 1 <= k < |s| :: s[k] / 0x40 == 2)
    && (var v := Payload(s);
        && (|s| == 2 ==> 0x80 <= v) && (|s| == 3 ==> 0x800 <= v) && (|s| == 4 ==> 0x10000 <= v)
        && v < 0x110000 && !(0xD800 <= v < 0xE000))
  }

  lemma EncodePayload2(s: seq<Byte>)
    requires |s| == 2 && WellFormed(s)
    ensures Encode(Payload(s)) == s
  {
    assert s[1..] == [s[1]];
    Fold1(LeadPayload(s[0], 1), s[1]);
    Digit(LeadPayload(s[0], 1), s[1] % 0x40);
  }

  lemma EncodePayload3(s: seq<Byte>)
    requires |s| == 3 && WellFormed(s)
    ensures Encode(Payload(s)) == s
  {
    var x := LeadPayload(s[0], 2);
    assert s[1..] == [s[1], s[2]];
    Fold2(x, s[1], s[2]);
    Digit(x, s[1] % 0x40);
    Digit(x * 0x40 + s[1] % 0x40, s[2] % 0x40);
  }

  lemma EncodePayload4(s: seq<Byte>)
    requires |s| == 4 && WellFormed(s)
    ensures Encode(Payload(s)) == s
  {
    var x := LeadPayload(s[0], 3);
    var y := x * 0x40 + s[1] % 0x40;
    var z := y * 0x40 + s[2] % 0x40;
    assert s[1..] == [s[1], s[2], s[3]];
    Fold3(x, s[1], s[2], s[3]);
    Digit(x, s[1] % 0x40);
    Digit(y, s[2] % 0x40);
    Digit(z, s[3] % 0x40);
  }

  lemma EncodePayload(s: seq<Byte>)
    requires 1 <= |s| <= 4 && WellFormed(s)
    ensures var v := Payload(s); (v < 0xD800 || 0xE000 <= v < 0x110000) && Encode(v) == s
  {
    if |s| == 1 {
    } else if |s| == 2 {
      EncodePayload2(s);
    } else if |s| == 3 {
      EncodePayload3(s);
    } else {
      EncodePayload4(s);
    }
  }

  /** A sequence is well formed exactly when it is the encoding of its payload. */
  lemma WellFormedIsEncoding(s: seq<Byte>)
    requires 1 <= |s| <= 4
    ensures WellFormed(s) <==> exists c: Scalar :: Encode(c) == s
    ensures WellFormed(s) ==> var v := Payload(s); (v < 0xD800 || 0xE000 <= v < 0x110000) && Encode(v) == s
  {
    if WellFormed(s) {
      EncodePayload(s);
    }
    if c: Scalar :| Encode(c) == s {
      PayloadInvertsEncode(c);
      LeadAnnouncesLength(c);
    }
  }

  /** No encoding is a proper prefix of another: a byte string has at most one first scalar. */
  lemma FirstScalarIsUnique(a: Scalar, b: Scalar, s: seq<Byte>)
    requires Encode(a) <= s && Encode(b) <= s
    ensures a == b
  {
    LeadAnnouncesLength(a);
    LeadAnnouncesLength(b);
    assert Encode(a)[0] == s[0] == Encode(b)[0];
    assert Encode(a) == s[..|Encode(a)|] == Encode(b);
    PayloadInvertsEncode(a);
    PayloadInvertsEncode(b);
  }

  /** Removing a first well-formed character does not change whether the bytes are text. */
  lemma StripFirst(c: Scalar, s: seq<Byte>)
    requires Encode(c) <= s && c != 0
    ensures IsText(s) <==> IsText(s[|Encode(c)|..])
  {
    var rest := s[|Encode(c)|..];
    assert s == Encode(c) + rest;
    if cs :| Encodes(cs, rest) {
      assert ([c] + cs)[1..] == cs;
      assert Encodes([c] + cs, s);
    }
    if cs :| Encodes(cs, s) {
      FirstScalarIsUnique(cs[0], c, s);
      assert Encodes(cs[1..], rest);
    }
  }

  /** Bytes whose first character is malformed are not text. */
  lemma BadFirst(s: seq<Byte>)
    requires s != []
    requires forall c: Scalar | c != 0 :: !(Encode(c) <= s)
    ensures !IsText(s)
  {
    forall cs: seq<Scalar> | 0 !in cs
      ensures EncodeAll(cs) != s
    {
      if cs != [] {
        assert Encode(cs[0]) <= EncodeAll(cs);
      }
    }
  }

  /** A first character is malformed when its announced sequence is missing or ill formed. */
  lemma NoFirst(s: seq<Byte>)
    requires s != []
    requires var n := Continuations(s[0]);
             n < 0 || |s| <= n || !WellFormed(s[..n + 1]) || s[0] == 0
    ensures !IsText(s)
  {
    forall c: Scalar | c != 0
      ensures !(Encode(c) <= s)
    {
      if Encode(c) <= s {
        LeadAnnouncesLength(c);
        assert Encode(c)[0] == s[0];
        assert Encode(c) == s[..|Encode(c)|];
        WellFormedIsEncoding(Encode(c));
      }
    }
    BadFirst(s);
  }

  lemma RejectTail(t: seq<Byte>, k: nat)
    requires t != [] && 1 <= k <= Continuations(t[0]) < |t|
    requires t[k] / 0x40 != 2
    ensures !IsText(t)
  {
    assert t[..Continuations(t[0]) + 1][k] == t[k];
    NoFirst(t);
  }

  /** Whether a value spelled with n continuations is one the encoding allows. */
  predicate ValueAllowed(n: nat, v: int) {
    && (if n == 1 then 0x80 else if n == 2 then 0x800 else 0x10000) <= v < 0x110000
    && !(0xD800 <= v < 0xE000)
  }

  lemma JudgeValue(t: seq<Byte>, n: nat, v: int)
    requires t != [] && 1 <= n == Continuations(t[0]) < |t|
    requires forall k | 1 <= k <= n :: t[k] / 0x40 == 2
    requires v == Fold(LeadPayload(t[0], n), t[1..n + 1])
    ensures if ValueAllowed(n, v) then IsText(t) <==> IsText(t[n + 1..]) else !IsText(t)
  {
    var first := t[..n + 1];
    assert first[1..] == t[1..n + 1];
    assert v == Payload(first);
    if ValueAllowed(n, v) {
      EncodePayload(first);
      StripFirst(v, t);
    } else {
      NoFirst(t);
    }
  }

  lemma JudgeAscii(t: seq<Byte>)
    requires t != [] && t[0] < 0x80
    ensures if t[0] == 0 then !IsText(t) else IsText(t) <==> IsText(t[1..])
  {
    if t[0] == 0 {
      NoFirst(t);
    } else {
      StripFirst(t[0], t);
    }
  }

  /** The inner loop: shifts in the payloads of extra continuation bytes from position i. */
  method ShiftTail(s: seq<Byte>, i: nat, extra: nat, lead: nat) returns (ok: bool, c: nat)
    requires i + extra <= |s|
    ensures ok <==> forall k | i <= k < i + extra :: s[k] / 0x40 == 2
    ensures ok ==> c == Fold(lead, s[i..i + extra])
  {
    c := lead;
    var j := i;
    assert s[i..i] == [];
    while j < i + extra
      invariant i <= j <= i + extra
      invariant forall k | i <= k < j :: s[k] / 0x40 == 2
      invariant c == Fold(lead, s[i..j])
    {
      var b: int := s[j];
      j := j + 1;
      if b / 0x40 != 2 {
        return false, c;
      }
      assert s[i..j][..j - 1 - i] == s[i..j - 1];
      c := c * 0x40 + b % 0x40;
    }
    return true, c;
  }

  lemma RejectSomeTail(s: seq<Byte>, i: nat, n: nat)
    requires 1 <= n && i + n < |s| && Continuations(s[i]) == n
    requires !forall k | i + 1 <= k < i + 1 + n :: s[k] / 0x40 == 2
    ensures !IsText(s[i..])
  {
    var k :| i + 1 <= k < i + 1 + n && s[k] / 0x40 != 2;
    RejectTail(s[i..], k - i);
  }

  lemma JudgeAt(s: seq<Byte>, i: nat, n: nat, v: nat)
    requires 1 <= n && i + n < |s| && Continuations(s[i]) == n
    requires forall k | i + 1 <= k < i + 1 + n :: s[k] / 0x40 == 2
    requires v == Fold(LeadPayload(s[i], n), s[i + 1..i + 1 + n])
    ensures if ValueAllowed(n, v) then IsText(s[i..]) <==> IsText(s[i + n + 1..]) else !IsText(s[i..])
  {
    var t := s[i..];
    assert t[1..n + 1] == s[i + 1..i + 1 + n];
    assert forall k | 1 <= k <= n :: t[k] == s[i + k];
    assert t[n + 1..] == s[i + n + 1..];
    JudgeValue(t, n, v);
  }

  /** The native checker: accepts exactly the UTF-8 encodings of text without NUL. */
  method Utf8Valid(s: seq<Byte>) returns (ok: bool)
    ensures ok <==> IsText(s)
  {
    var i := 0;
    while i < |s|
      invariant 0 <= i <= |s|
      invariant IsText(s) <==> IsText(s[i..])
    {
      ghost var t := s[i..];
      var c: nat := s[i];
      i := i + 1;
      assert t[1..] == s[i..];
      if c < 0x80 {
        JudgeAscii(t);
        if c == 0 {
          return false;
        }
      } else {
        var extra: nat, minimum: nat;
        if 0xC2 <= c <= 0xDF { extra, minimum, c := 1, 0x80, c % 0x20; }
        else if 0xE0 <= c <= 0xEF { extra, minimum, c := 2, 0x800, c % 0x10; }
        else if 0xF0 <= c <= 0xF4 { extra, minimum, c := 3, 0x10000, c % 8; }
        else {
          NoFirst(t);
          return false;
        }
        if |s| - i < extra {
          NoFirst(t);
          return false;
        }
        var good;
        good, c := ShiftTail(s, i, extra, c);
        if !good {
          RejectSomeTail(s, i - 1, extra);
          return false;
        }
        JudgeAt(s, i - 1, extra, c);
        if c < minimum || c > 0x10FFFF || 0xD800 <= c <= 0xDFFF {
          return false;
        }
        i := i + extra;
      }
    }
    assert Encodes([], s[i..]);
    return true;
  }
}
