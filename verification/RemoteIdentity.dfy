/** Canonical references to remote tools (src/core/remote-identity.ts): two names,
    percent-encoded, joined by a slash under a fixed prefix. */
module RemoteIdentity {
  import opened Utf8
  import opened Utf16

  datatype Error = NameLength | InvalidUnicode | TooLong | Malformed
  datatype Result<+T> = Ok(value: T) | Err(error: Error)
  datatype Remote = Remote(server: Text, tool: Text)
  datatype Parsed = NotRemote | IsRemote(remote: Remote) | Rejected(error: Error)

  const MAX_REMOTE_REF_CHARS := 4620
  const SLASH: Unit := 0x2F
  const PERCENT: Unit := 0x25
  const PREFIX: Text := [0x6D, 0x63, 0x70, 0x2E, 0x72, 0x65, 0x6D, 0x6F, 0x74, 0x65, 0x2F]

  predicate IsAlphanumeric(u: int) {
    0x30 <= u <= 0x39 || 0x41 <= u <= 0x5A || 0x61 <= u <= 0x7A
  }

  /** RFC 3986 section 2.3: ALPHA, DIGIT, "-", ".", "_" and "~". */
  predicate IsUnreserved(u: int) {
    IsAlphanumeric(u) || u == 0x2D || u == 0x2E || u == 0x5F || u == 0x7E
  }

  /** The marks that encodeURIComponent keeps although RFC 3986 reserves them. */
  predicate IsKeptMark(u: int) {
    u == 0x21 || u == 0x27 || u == 0x28 || u == 0x29 || u == 0x2A
  }

  function HexDigit(d: nat): (u: Unit)
    requires d < 16
  {
    if d < 10 then 0x30 + d else 0x41 + d - 10
  }

  function HexValue(u: Unit): (v: int)
    ensures -1 <= v < 16
  {
    if 0x30 <= u <= 0x39 then u - 0x30
    else if 0x41 <= u <= 0x46 then u - 0x41 + 10
    else if 0x61 <= u <= 0x66 then u - 0x61 + 10
    else -1
  }

  function Percent(b: Byte): (s: Text)
    ensures |s| == 3
  {
    [PERCENT, HexDigit(b / 16), HexDigit(b % 16)]
  }

  function PercentAll(bytes: seq<Byte>): (s: Text)
    ensures |s| == 3 * |bytes|
  {
    if bytes == [] then [] else Percent(bytes[0]) + PercentAll(bytes[1..])
  }

  /** encodeURIComponent on one scalar value. */
  function UriEncodeScalar(c: Scalar): Text {
    if IsUnreserved(c) || IsKeptMark(c) then [c] else PercentAll(Encode(c))
  }

  function UriEncode(cs: seq<Scalar>): Text {
    if cs == [] then [] else UriEncodeScalar(cs[0]) + UriEncode(cs[1..])
  }

  /** The replacement pass over the kept marks. */
  function EscapeMarks(s: Text): Text {
    if s == [] then []
    else (if IsKeptMark(s[0]) then Percent(s[0]) else [s[0]]) + EscapeMarks(s[1..])
  }

  function RemoteComponent(value: Text): Result<Text> {
    if value == [] || |value| > 256 then Err(NameLength)
    else if !WellPaired(value) then Err(InvalidUnicode)
    else Ok(EscapeMarks(UriEncode(Scalars(value))))
  }

  function RemoteRef(server: Text, tool: Text): Result<Text> {
    match RemoteComponent(server)
    case Err(e) => Err(e)
    case Ok(s) =>
      match RemoteComponent(tool)
      case Err(e) => Err(e)
      case Ok(t) => Ok(PREFIX + s + [SLASH] + t)
  }

  function Split(s: Text): (parts: seq<Text>)
    ensures |parts| >= 1
  {
    if s == [] then [[]]
    else if s[0] == SLASH then [[]] + Split(s[1..])
    else
      var rest := Split(s[1..]);
      [[s[0]] + rest[0]] + rest[1..]
  }

  datatype Octets = NoOctets | Octets(bytes: seq<Byte>)

  /** Exactly n percent-encoded bytes at the head of s. */
  function ReadOctets(s: Text, n: nat): (o: Octets)
    ensures o.Octets? ==> |o.bytes| == n && 3 * n <= |s|
  {
    if n == 0 then Octets([])
    else if |s| < 3 || s[0] != PERCENT || HexValue(s[1]) < 0 || HexValue(s[2]) < 0 then NoOctets
    else
      var b: Byte := HexValue(s[1]) * 16 + HexValue(s[2]);
      match ReadOctets(s[3..], n - 1)
      case NoOctets => NoOctets
      case Octets(rest) => Octets([b] + rest)
  }

  /** decodeURIComponent: None where it throws. */
  function UriDecode(s: Text): Result<Text> {
    if s == [] then Ok([])
    else if s[0] != PERCENT then
      match UriDecode(s[1..])
      case Err(e) => Err(e)
      case Ok(rest) => Ok([s[0]] + rest)
    else
      match ReadOctets(s, 1)
      case NoOctets => Err(Malformed)
      case Octets(lead) =>
        var n := Continuations(lead[0]);
        if n < 0 then Err(Malformed)
        else
          match ReadOctets(s, n + 1)
          case NoOctets => Err(Malformed)
          case Octets(bytes) =>
            if !WellFormed(bytes) then Err(Malformed)
            else
              match UriDecode(s[3 * (n + 1)..])
              case Err(e) => Err(e)
              case Ok(rest) => Ok(Units(Payload(bytes)) + rest)
  }

  function ParseRemoteRef(ref: Text): Parsed {
    if !(PREFIX <= ref) then NotRemote
    else if |ref| > MAX_REMOTE_REF_CHARS then Rejected(TooLong)
    else
      var parts := Split(ref[|PREFIX|..]);
      if |parts| != 2 then Rejected(Malformed)
      else
        var server, tool := UriDecode(parts[0]), UriDecode(parts[1]);
        if server.Ok? && tool.Ok? && RemoteRef(server.value, tool.value) == Ok(ref)
        then IsRemote(Remote(server.value, tool.value))
        else Rejected(Malformed)
  }

  // ----- one scalar value at a time

  /** What both encoding passes make of one scalar value. */
  function Escaped(c: Scalar): Text {
    if IsUnreserved(c) then [c] else PercentAll(Encode(c))
  }

  function EscapedAll(cs: seq<Scalar>): Text {
    if cs == [] then [] else Escaped(cs[0]) + EscapedAll(cs[1..])
  }

  lemma {:induction false} EscapeMarksConcat(a: Text, b: Text)
    ensures EscapeMarks(a + b) == EscapeMarks(a) + EscapeMarks(b)
  {
    if a == [] {
      assert a + b == b;
    } else {
      assert (a + b)[1..] == a[1..] + b;
      EscapeMarksConcat(a[1..], b);
    }
  }

  lemma EscapeMarksKeepsPercent(b: Byte)
    ensures EscapeMarks(Percent(b)) == Percent(b)
  {
    var p := Percent(b);
    assert EscapeMarks(p[3..]) == [];
    assert p[2..][1..] == p[3..];
    assert EscapeMarks(p[2..]) == p[2..];
    assert p[1..][1..] == p[2..];
    assert EscapeMarks(p[1..]) == p[1..];
  }

  lemma {:induction false} EscapeMarksKeepsPercents(bytes: seq<Byte>)
    ensures EscapeMarks(PercentAll(bytes)) == PercentAll(bytes)
  {
    if bytes != [] {
      EscapeMarksKeepsPercents(bytes[1..]);
      EscapeMarksConcat(Percent(bytes[0]), PercentAll(bytes[1..]));
      EscapeMarksKeepsPercent(bytes[0]);
    }
  }

  lemma EscapeMarksOfScalar(c: Scalar)
    ensures EscapeMarks(UriEncodeScalar(c)) == Escaped(c)
  {
    if IsUnreserved(c) {
      assert [c][1..] == [];
    } else if IsKeptMark(c) {
      assert [c][1..] == [];
      assert Encode(c) == [c] && Encode(c)[1..] == [];
      assert PercentAll(Encode(c)) == Percent(c) + PercentAll([]);
    } else {
      EscapeMarksKeepsPercents(Encode(c));
    }
  }

  lemma {:induction false} TwoPassesAreOne(cs: seq<Scalar>)
    ensures EscapeMarks(UriEncode(cs)) == EscapedAll(cs)
  {
    if cs != [] {
      TwoPassesAreOne(cs[1..]);
      EscapeMarksOfScalar(cs[0]);
      EscapeMarksConcat(UriEncodeScalar(cs[0]), UriEncode(cs[1..]));
    }
  }

  // ----- decoding inverts encoding

  lemma HexRoundTrip(b: Byte)
    ensures HexValue(HexDigit(b / 16)) == b / 16 && HexValue(HexDigit(b % 16)) == b % 16
    ensures b == b / 16 * 16 + b % 16
  {
  }

  lemma {:induction false} ReadOctetsOfPercents(bytes: seq<Byte>, rest: Text, n: nat)
    requires n <= |bytes|
    ensures ReadOctets(PercentAll(bytes) + rest, n) == Octets(bytes[..n])
  {
    if n > 0 {
      HexRoundTrip(bytes[0]);
      ReadOctetsOfPercents(bytes[1..], rest, n - 1);
      var s := PercentAll(bytes) + rest;
      assert s[3..] == PercentAll(bytes[1..]) + rest;
      assert s[0] == PERCENT && s[1] == HexDigit(bytes[0] / 16) && s[2] == HexDigit(bytes[0] % 16);
      assert bytes[..n] == [bytes[0]] + bytes[1..][..n - 1];
    }
  }

  lemma DecodeOne(c: Scalar, rest: Text)
    requires UriDecode(rest).Ok?
    ensures UriDecode(Escaped(c) + rest) == Ok(Units(c) + UriDecode(rest).value)
  {
    var s := Escaped(c) + rest;
    if IsUnreserved(c) {
      assert s[1..] == rest;
    } else {
      var bytes := Encode(c);
      var n := Continuations(bytes[0]);
      LeadAnnouncesLength(c);
      WellFormedIsEncoding(bytes);
      PayloadInvertsEncode(c);
      ReadOctetsOfPercents(bytes, rest, 1);
      ReadOctetsOfPercents(bytes, rest, n + 1);
      assert bytes[..n + 1] == bytes;
      assert s[3 * (n + 1)..] == rest;
      assert s[0] == PERCENT;
    }
  }

  lemma {:induction false} DecodeAll(cs: seq<Scalar>)
    ensures UriDecode(EscapedAll(cs)) == Ok(UnitsAll(cs))
  {
    if cs != [] {
      DecodeAll(cs[1..]);
      DecodeOne(cs[0], EscapedAll(cs[1..]));
    }
  }

  lemma CombineUnits(high: Unit, low: Unit)
    requires IsHigh(high) && IsLow(low)
    ensures Units(Combine(high, low)) == [high, low]
  {
    var h, l := high - 0xD800, low - 0xDC00;
    assert (h * 0x400 + l) / 0x400 == h && (h * 0x400 + l) % 0x400 == l;
  }

  lemma {:induction false} UnitsOfScalars(s: Text)
    requires WellPaired(s)
    ensures UnitsAll(Scalars(s)) == s
  {
    if s == [] {
    } else if PairFirst(s) {
      CombineUnits(s[0], s[1]);
      UnitsOfScalars(s[2..]);
      assert Scalars(s)[1..] == Scalars(s[2..]);
    } else {
      UnitsOfScalars(s[1..]);
      assert Scalars(s)[1..] == Scalars(s[1..]);
    }
  }

  lemma ComponentRoundTrip(value: Text)
    requires RemoteComponent(value).Ok?
    ensures UriDecode(RemoteComponent(value).value) == Ok(value)
  {
    var cs := Scalars(value);
    TwoPassesAreOne(cs);
    DecodeAll(cs);
    UnitsOfScalars(value);
  }

  // ----- shape of a component

  /** RFC 3986: unreserved characters and upper-case percent triplets only. */
  predicate IsCanonicalComponent(s: Text) {
    if s == [] then true
    else if IsUnreserved(s[0]) then IsCanonicalComponent(s[1..])
    else
      && |s| >= 3 && s[0] == PERCENT
      && IsUpperHex(s[1]) && IsUpperHex(s[2])
      && IsCanonicalComponent(s[3..])
  }

  predicate IsUpperHex(u: Unit) {
    0x30 <= u <= 0x39 || 0x41 <= u <= 0x46
  }

  lemma {:induction false} PercentsAreCanonical(bytes: seq<Byte>, rest: Text)
    requires IsCanonicalComponent(rest)
    ensures IsCanonicalComponent(PercentAll(bytes) + rest)
  {
    var s := PercentAll(bytes) + rest;
    if bytes == [] {
      assert s == rest;
    } else {
      PercentsAreCanonical(bytes[1..], rest);
      assert s[3..] == PercentAll(bytes[1..]) + rest;
      assert s[0] == PERCENT;
      assert s[1] == HexDigit(bytes[0] / 16) && s[2] == HexDigit(bytes[0] % 16);
    }
  }

  lemma {:induction false} EscapedIsCanonical(cs: seq<Scalar>)
    ensures IsCanonicalComponent(EscapedAll(cs))
  {
    if cs != [] {
      EscapedIsCanonical(cs[1..]);
      var rest := EscapedAll(cs[1..]);
      if IsUnreserved(cs[0]) {
        assert EscapedAll(cs)[1..] == rest;
      } else {
        PercentsAreCanonical(Encode(cs[0]), rest);
      }
    }
  }

  lemma {:induction false} CanonicalHasNoSlash(s: Text)
    requires IsCanonicalComponent(s)
    ensures SLASH !in s
  {
    if s == [] {
    } else if IsUnreserved(s[0]) {
      CanonicalHasNoSlash(s[1..]);
      assert s == [s[0]] + s[1..];
    } else {
      CanonicalHasNoSlash(s[3..]);
      assert s == [s[0], s[1], s[2]] + s[3..];
    }
  }

  lemma EscapedLength(c: Scalar)
    ensures |Escaped(c)| <= 9 * |Units(c)|
  {
  }

  lemma {:induction false} EscapedAllLength(s: Text)
    requires WellPaired(s)
    ensures |EscapedAll(Scalars(s))| <= 9 * |s|
  {
    if s == [] {
    } else if PairFirst(s) {
      EscapedAllLength(s[2..]);
      EscapedLength(Combine(s[0], s[1]));
      assert Scalars(s)[1..] == Scalars(s[2..]);
    } else {
      EscapedAllLength(s[1..]);
      EscapedLength(s[0]);
      assert Scalars(s)[1..] == Scalars(s[1..]);
    }
  }

  lemma ComponentShape(value: Text)
    requires RemoteComponent(value).Ok?
    ensures var c := RemoteComponent(value).value;
            IsCanonicalComponent(c) && |c| <= 9 * 256 && SLASH !in c
  {
    var cs := Scalars(value);
    TwoPassesAreOne(cs);
    EscapedIsCanonical(cs);
    EscapedAllLength(value);
    CanonicalHasNoSlash(EscapedAll(cs));
  }

  // ----- main results

  /** Every issued reference is short and made of canonical components. */
  lemma RemoteRefShape(server: Text, tool: Text)
    requires RemoteRef(server, tool).Ok?
    ensures var ref := RemoteRef(server, tool).value;
            && PREFIX <= ref && |ref| <= MAX_REMOTE_REF_CHARS
            && exists s, t :: ref == PREFIX + s + [SLASH] + t && IsCanonicalComponent(s) && IsCanonicalComponent(t)
  {
    ComponentShape(server);
    ComponentShape(tool);
    var s, t := RemoteComponent(server).value, RemoteComponent(tool).value;
    assert RemoteRef(server, tool).value == PREFIX + s + [SLASH] + t;
  }

  /** A reference is issued exactly for two well-formed names of 1 to 256 units. */
  lemma RemoteRefAccepts(server: Text, tool: Text)
    ensures RemoteRef(server, tool).Ok? <==>
            1 <= |server| <= 256 && WellPaired(server) && 1 <= |tool| <= 256 && WellPaired(tool)
  {
  }

  lemma {:induction false} SplitNoSlash(s: Text)
    requires SLASH !in s
    ensures Split(s) == [s]
  {
    if s != [] {
      SplitNoSlash(s[1..]);
      assert [s[0]] + s[1..] == s;
    }
  }

  lemma {:induction false} SplitPair(s: Text, t: Text)
    requires SLASH !in s && SLASH !in t
    ensures Split(s + [SLASH] + t) == [s, t]
  {
    var whole := s + [SLASH] + t;
    if s == [] {
      assert whole[1..] == t;
      SplitNoSlash(t);
    } else {
      assert whole[1..] == s[1..] + [SLASH] + t;
      SplitPair(s[1..], t);
      assert [s[0]] + s[1..] == s;
    }
  }

  lemma IssuedParts(ref: Text, remote: Remote)
    requires RemoteRef(remote.server, remote.tool) == Ok(ref)
    ensures PREFIX <= ref
    ensures RemoteComponent(remote.server).Ok? && RemoteComponent(remote.tool).Ok?
    ensures Split(ref[|PREFIX|..]) == [RemoteComponent(remote.server).value, RemoteComponent(remote.tool).value]
  {
    hide RemoteComponent, Split, IsCanonicalComponent;
    ComponentShape(remote.server);
    ComponentShape(remote.tool);
    var s, t := RemoteComponent(remote.server).value, RemoteComponent(remote.tool).value;
    Behind(PREFIX, s, t);
    SplitPair(s, t);
  }

  lemma Behind(prefix: Text, s: Text, t: Text)
    ensures (prefix + s + [SLASH] + t)[|prefix|..] == s + [SLASH] + t
  {
  }

  lemma IssuedParses(ref: Text, remote: Remote)
    requires RemoteRef(remote.server, remote.tool) == Ok(ref)
    ensures ParseRemoteRef(ref) == IsRemote(remote)
  {
    IssuedParts(ref, remote);
    RemoteRefShape(remote.server, remote.tool);
    ComponentRoundTrip(remote.server);
    ComponentRoundTrip(remote.tool);
  }

  /** Parsing inverts issuing, and accepts nothing that was not issued. */
  lemma ParseAcceptsExactlyIssued(ref: Text, remote: Remote)
    ensures ParseRemoteRef(ref) == IsRemote(remote) <==> RemoteRef(remote.server, remote.tool) == Ok(ref)
    ensures ParseRemoteRef(ref) == NotRemote <==> !(PREFIX <= ref)
  {
    if RemoteRef(remote.server, remote.tool) == Ok(ref) {
      IssuedParses(ref, remote);
    }
  }

  /** Distinct names get distinct references. */
  lemma RemoteRefInjective(a: Remote, b: Remote)
    requires RemoteRef(a.server, a.tool).Ok?
    requires RemoteRef(a.server, a.tool) == RemoteRef(b.server, b.tool)
    ensures a == b
  {
    var ref := RemoteRef(a.server, a.tool).value;
    ParseAcceptsExactlyIssued(ref, a);
    ParseAcceptsExactlyIssued(ref, b);
  }
}
