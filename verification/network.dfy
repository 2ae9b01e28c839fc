/** Addresses of flow/network.cpp: IPv4/IPv6 addresses with their equality and
    order, the `ip:port[:tls]` text form and its parser, and address lists. */
module Network {
  import opened Base

  type Ipv6Bytes = b: Bytes | |b| == 16 witness [0, 0, 0, 0, 0, 0, 0, 0, 0, 0, 0, 0, 0, 0, 0, 0]

  /** An address is either a 32-bit IPv4 number or the sixteen bytes of an IPv6 address. */
  datatype IPAddress = V4(v4: uint32) | V6(v6: Ipv6Bytes)
  {
    predicate IsV6() { V6? }
  }

  /** The text form of IPv6 addresses is the platform library's; the model
      takes its printer and parser as parameters. */
  datatype Ipv6Codec = Ipv6Codec(render: Ipv6Bytes -> string, parse: string -> Option<IPAddress>)

  // ---------------------------------------------------------------------------
  // Equality, order, validity

  /** operator==: same family and same stored address. */
  predicate IPEqual(a: IPAddress, b: IPAddress) {
    a.IsV6() == b.IsV6() && (if a.IsV6() then a.v6 == b.v6 else a.v4 == b.v4)
  }

  lemma IPEqualIsIdentity(a: IPAddress, b: IPAddress)
    ensures IPEqual(a, b) <==> a == b
  {
  }

  /** operator<: IPv4 before IPv6, then numeric order for IPv4 and byte-wise
      lexicographic order for IPv6. */
  predicate IPLess(a: IPAddress, b: IPAddress) {
    if a.IsV6() != b.IsV6() then !a.IsV6() && b.IsV6()
    else if a.IsV6() then LexLess(a.v6, b.v6)
    else a.v4 < b.v4
  }

  /** operator< is a strict total order that puts every IPv4 address first. */
  lemma IPLessIsStrictTotalOrder(a: IPAddress, b: IPAddress, c: IPAddress)
    ensures !IPLess(a, a)
    ensures IPLess(a, b) && IPLess(b, c) ==> IPLess(a, c)
    ensures a != b ==> IPLess(a, b) || IPLess(b, a)
    ensures IPLess(a, b) ==> !IPLess(b, a)
    ensures a.V4? && b.V6? ==> IPLess(a, b)
  {
    if a.V6? {
      LexIrreflexive(a.v6);
    }
    if a.V6? && b.V6? && c.V6? && IPLess(a, b) && IPLess(b, c) {
      LexTransitive(a.v6, b.v6, c.v6);
    }
    if a.V6? && b.V6? && a != b {
      LexTotal(a.v6, b.v6);
    }
    if a.V6? && b.V6? && IPLess(a, b) {
      LexAsymmetric(a.v6, b.v6);
    }
  }

  /** isValid: not the all-zero address. */
  predicate IsValid(a: IPAddress) {
    if a.IsV6() then exists i :: 0 <= i < 16 && a.v6[i] != 0 else a.v4 != 0
  }

  const ZeroV6: Ipv6Bytes := [0, 0, 0, 0, 0, 0, 0, 0, 0, 0, 0, 0, 0, 0, 0, 0]

  lemma IsValidIffNonZero(a: IPAddress)
    ensures IsValid(a) <==> a != V4(0) && a != V6(ZeroV6)
  {
    if a.V6? && !IsValid(a) {
      assert a.v6 == ZeroV6;
    }
  }

  // ---------------------------------------------------------------------------
  // Text

  /** The four octets of an IPv4 number, most significant first. */
  function Octets(ip: uint32): (o: seq<nat>)
    ensures |o| == 4
    ensures forall i :: 0 <= i < 4 ==> o[i] < 0x100
  {
    var t1 := ip / 0x100;
    var t2 := t1 / 0x100;
    [t2 / 0x100, t2 % 0x100, t1 % 0x100, ip % 0x100]
  }

  /** The octets, shifted back into place, are the number they came from. */
  lemma OctetsRecombine(ip: uint32)
    ensures var o := Octets(ip); CombineOctets(o[0], o[1], o[2], o[3]) == ip
  {
    var o := Octets(ip);
    var t1 := ip / 0x100;
    var t2 := t1 / 0x100;
    assert ip == t1 * 0x100 + o[3];
    assert t1 == t2 * 0x100 + o[2];
    assert t2 == o[0] * 0x100 + o[1];
    assert o[0] * 0x100_0000 + o[1] * 0x1_0000 + o[2] * 0x100 + o[3] == ip;
  }

  /** The conversion of an int to the uint16 port field. */
  function ToPort(x: int): uint16 {
    x % 0x1_0000
  }

  /** `(a << 24) + (b << 16) + (c << 8) + d` converted to uint32. */
  function CombineOctets(a: int, b: int, c: int, d: int): uint32 {
    (a * 0x100_0000 + b * 0x1_0000 + c * 0x100 + d) % TWO_32
  }

  /** `%d.%d.%d.%d` of the octets: the four numbers with a dot between each. */
  function DottedQuad(ip: uint32): string {
    Interleave(Octets(ip), "...")
  }

  function IPToString(a: IPAddress, codec: Ipv6Codec): string {
    if a.IsV6() then codec.render(a.v6) else DottedQuad(a.v4)
  }

  /** formatIpPort: IPv6 addresses are bracketed so the port's colon is unambiguous. */
  function FormatIpPort(a: IPAddress, port: uint16, codec: Ipv6Codec): string {
    var ip := CStr(IPToString(a, codec));
    if a.IsV6() then "[" + ip + "]:" + NatToDecimal(port) else ip + ":" + NatToDecimal(port)
  }

  datatype NetworkAddress = NetworkAddress(ip: IPAddress, port: uint16, isPublic: bool, isTLS: bool)

  const TLS_SUFFIX: string := ":tls"

  function AddressToString(a: NetworkAddress, codec: Ipv6Codec): string {
    FormatIpPort(a.ip, a.port, codec) + (if a.isTLS then TLS_SUFFIX else "")
  }

  /** toIPVectorString over IPv4 numbers: the dotted quads separated by spaces. */
  function IPv4VectorString(ips: seq<uint32>): (s: string)
  {
    Join(" ", seq(|ips|, i requires 0 <= i < |ips| => DottedQuad(ips[i])))
  }

  /** toIPVectorString over addresses: their texts separated by spaces. */
  function IPVectorString(ips: seq<IPAddress>, codec: Ipv6Codec): (s: string)
  {
    Join(" ", seq(|ips|, i requires 0 <= i < |ips| => CStr(IPToString(ips[i], codec))))
  }

  lemma DottedQuadHasNoSpace(ip: uint32)
    ensures ' ' !in DottedQuad(ip)
  {
    InterleaveAvoids(Octets(ip), "...", ' ');
  }

  /** A non-empty IPv4 vector string splits at its spaces back into the
      addresses' dotted quads, one per address. */
  lemma IPv4VectorStringSplits(ips: seq<uint32>)
    requires |ips| > 0
    ensures Split(IPv4VectorString(ips), ' ') == seq(|ips|, i requires 0 <= i < |ips| => DottedQuad(ips[i]))
  {
    var parts := seq(|ips|, i requires 0 <= i < |ips| => DottedQuad(ips[i]));
    forall i | 0 <= i < |parts| ensures ' ' !in parts[i] {
      DottedQuadHasNoSpace(ips[i]);
    }
    SplitJoin(parts, ' ');
  }

  /** An address vector string splits back into the addresses' texts when
      none of them contains a space. */
  lemma IPVectorStringSplits(ips: seq<IPAddress>, codec: Ipv6Codec)
    requires |ips| > 0
    requires forall i :: 0 <= i < |ips| ==> ' ' !in CStr(IPToString(ips[i], codec))
    ensures Split(IPVectorString(ips, codec), ' ')
         == seq(|ips|, i requires 0 <= i < |ips| => CStr(IPToString(ips[i], codec)))
  {
    SplitJoin(seq(|ips|, i requires 0 <= i < |ips| => CStr(IPToString(ips[i], codec))), ' ');
  }

  // ---------------------------------------------------------------------------
  // Parsing

  datatype ParseError =
    | ConnectionStringInvalid  // connection_string_invalid()
    | InvalidArgument          // std::invalid_argument from stoi: no number
    | OutOfRange               // std::out_of_range from stoi: beyond int

  const INT_MIN: int := -0x8000_0000
  const INT_MAX: int := 0x7fff_ffff

  /** std::stoi: a `%d`-style number at the start (trailing text is ignored),
      which must fit an int. */
  function Stoi(s: string): (r: Result<int, ParseError>)
    ensures r.Ok? ==> INT_MIN <= r.value <= INT_MAX
    ensures r.Err? ==> r.error != ConnectionStringInvalid
  {
    match ScanInt(CStr(s))
    case Scanned(v, _) => if v < INT_MIN || v > INT_MAX then Err(OutOfRange) else Ok(v)
    case _ => Err(InvalidArgument)
  }

  /** Successive `%d` conversions, each after the next literal of `seps`:
      `%d.%d.%d.%d:%d` is ScanInts(s, "...:"). */
  function ScanInts(s: string, seps: string): (r: Option<(seq<int>, string)>)
    ensures r.Some? ==> |r.value.0| == |seps| + 1 && |r.value.1| < |s|
    decreases |seps|
  {
    var first := ScanInt(s);
    if !first.Scanned? then None
    else if |seps| == 0 then Some(([first.value], first.rest))
    else if |first.rest| > 0 && first.rest[0] == seps[0] then
      var more := ScanInts(first.rest[1..], seps[1..]);
      if more.None? then None else Some(([first.value] + more.value.0, more.value.1))
    else None
  }

  /** The literals between the five conversions of `%d.%d.%d.%d:%d`. */
  const V4_SEPARATORS: string := "...:"

  /** The bracketed IPv6 form `[ip]:port`. */
  function ParseBracketed(f: string, isTLS: bool, codec: Ipv6Codec): (r: Result<NetworkAddress, ParseError>)
    requires |f| > 0 && f[0] == '['
  {
    var addrEnd := IndexOf(f, ']');
    if addrEnd + 1 >= |f| || f[addrEnd + 1] != ':' then Err(ConnectionStringInvalid)
    else match Stoi(f[addrEnd + 2..])
      case Err(e) => Err(e)
      case Ok(port) =>
        match codec.parse(f[1..addrEnd])
        case None => Err(ConnectionStringInvalid)
        case Some(ip) => Ok(NetworkAddress(ip, ToPort(port), true, isTLS))
  }

  /** The IPv4 form `a.b.c.d:port`, which must be read to the very end. The
      octets are combined with shifts and the sums truncated to 32 and 16 bits,
      as the int arithmetic and the conversions to uint32/uint16 do. */
  function ParseDotted(f: string, isTLS: bool): (r: Result<NetworkAddress, ParseError>)
    ensures r.Ok? ==> r.value.ip.V4? && r.value.isPublic && r.value.isTLS == isTLS
  {
    match DottedFields(f)
    case None => Err(ConnectionStringInvalid)
    case Some(vs) => Ok(DottedAddress(vs, isTLS))
  }

  /** The address `%d.%d.%d.%d:%d` describes. */
  function DottedAddress(vs: seq<int>, isTLS: bool): (a: NetworkAddress)
    requires |vs| == 5
    ensures a.ip.V4? && a.isPublic && a.isTLS == isTLS
  {
    NetworkAddress(V4(CombineOctets(vs[0], vs[1], vs[2], vs[3])), ToPort(vs[4]), true, isTLS)
  }

  /** The five numbers of `%d.%d.%d.%d:%d`, when that pattern reads all of f. */
  function DottedFields(f: string): (r: Option<seq<int>>)
    ensures r.Some? ==> |r.value| == 5
  {
    var c := CStr(f);
    var scanned := ScanInts(c, V4_SEPARATORS);
    if scanned.None? || |c| - |scanned.value.1| != |f| then None
    else Some(scanned.value.0)
  }

  predicate HasTLSSuffix(s: string) {
    |s| > 4 && s[|s| - 4..] == TLS_SUFFIX
  }

  /** NetworkAddress::parse. */
  function Parse(s: string, codec: Ipv6Codec): (r: Result<NetworkAddress, ParseError>)
    ensures s == "" ==> r == Err(ConnectionStringInvalid)
    ensures r.Ok? ==> r.value.isPublic && (r.value.isTLS <==> HasTLSSuffix(s))
    ensures r.Ok? && s[0] != '[' ==> r.value.ip.V4?
  {
    if s == "" then Err(ConnectionStringInvalid)
    else
      var isTLS := HasTLSSuffix(s);
      var f := if isTLS then s[..|s| - 4] else s;
      if f[0] == '[' then ParseBracketed(f, isTLS, codec) else ParseDotted(f, isTLS)
  }

  /** parseList: one address per comma-separated piece; the first piece that
      does not parse makes the whole list fail with its error. */
  function ParseList(addrs: string, codec: Ipv6Codec): (r: Result<seq<NetworkAddress>, ParseError>)
    ensures r.Ok? ==> |r.value| == Count(addrs, ',') + 1
    ensures r.Ok? ==> forall i :: 0 <= i < |r.value| ==> Parse(Split(addrs, ',')[i], codec) == Ok(r.value[i])
    ensures r.Err? ==> FirstFailure(Split(addrs, ','), codec, r.error)
  {
    ParseAll(Split(addrs, ','), codec)
  }

  /** `e` is the error of the first piece that does not parse. */
  ghost predicate FirstFailure(pieces: seq<string>, codec: Ipv6Codec, e: ParseError) {
    exists i :: FirstFailureAt(pieces, codec, e, i)
  }

  /** Piece `i` fails with `e` and every piece before it parses. */
  ghost predicate FirstFailureAt(pieces: seq<string>, codec: Ipv6Codec, e: ParseError, i: int) {
    0 <= i < |pieces| && Parse(pieces[i], codec) == Err(e)
    && forall j :: 0 <= j < i ==> Parse(pieces[j], codec).Ok?
  }

  /** A first piece that does not parse is the first failure. */
  lemma FirstFailureAtFront(pieces: seq<string>, codec: Ipv6Codec, e: ParseError)
    requires |pieces| > 0 && Parse(pieces[0], codec) == Err(e)
    ensures FirstFailure(pieces, codec, e)
    ensures !forall i :: 0 <= i < |pieces| ==> Parse(pieces[i], codec).Ok?
  {
    assert FirstFailureAt(pieces, codec, e, 0);
  }

  /** Behind a piece that parses, the first failure of the rest is the first
      failure of the whole. */
  lemma FirstFailureBehind(pieces: seq<string>, codec: Ipv6Codec, e: ParseError)
    requires |pieces| > 0 && Parse(pieces[0], codec).Ok? && FirstFailure(pieces[1..], codec, e)
    ensures FirstFailure(pieces, codec, e)
    ensures !forall i :: 0 <= i < |pieces| ==> Parse(pieces[i], codec).Ok?
  {
    var tail := pieces[1..];
    var k :| FirstFailureAt(tail, codec, e, k);
    assert tail[k] == pieces[k + 1];
    forall j | 0 <= j < k + 1 ensures Parse(pieces[j], codec).Ok? {
      if j > 0 {
        assert tail[j - 1] == pieces[j];
        assert Parse(tail[j - 1], codec).Ok?;
      }
    }
    assert FirstFailureAt(pieces, codec, e, k + 1);
  }

  /** The parses of the first piece and of the rest make the parse of all. */
  lemma AllParsedCons(pieces: seq<string>, codec: Ipv6Codec, a: NetworkAddress, rest: seq<NetworkAddress>)
    requires |pieces| > 0 && Parse(pieces[0], codec) == Ok(a) && |rest| == |pieces| - 1
    requires forall i :: 0 <= i < |pieces[1..]| ==> Parse(pieces[1..][i], codec) == Ok(rest[i])
    ensures |[a] + rest| == |pieces|
    ensures forall i :: 0 <= i < |pieces| ==> Parse(pieces[i], codec) == Ok(([a] + rest)[i])
    ensures forall i :: 0 <= i < |pieces| ==> Parse(pieces[i], codec).Ok?
  {
    var all := [a] + rest;
    forall i | 0 <= i < |pieces| ensures Parse(pieces[i], codec) == Ok(all[i]) {
      if i > 0 {
        var t := pieces[1..];
        assert t[i - 1] == pieces[i] && all[i] == rest[i - 1];
        assert Parse(t[i - 1], codec) == Ok(rest[i - 1]);
      }
    }
  }

  function ParseAll(pieces: seq<string>, codec: Ipv6Codec): (r: Result<seq<NetworkAddress>, ParseError>)
    ensures r.Ok? ==> |r.value| == |pieces|
    ensures r.Ok? ==> forall i :: 0 <= i < |pieces| ==> Parse(pieces[i], codec) == Ok(r.value[i])
    ensures r.Ok? <==> forall i :: 0 <= i < |pieces| ==> Parse(pieces[i], codec).Ok?
    ensures r.Err? ==> FirstFailure(pieces, codec, r.error)
  {
    if |pieces| == 0 then Ok([])
    else
      var tail := pieces[1..];
      match Parse(pieces[0], codec)
      case Err(e) =>
        FirstFailureAtFront(pieces, codec, e);
        Err(e)
      case Ok(a) =>
        match ParseAll(tail, codec)
        case Err(e) =>
          FirstFailureBehind(pieces, codec, e);
          Err(e)
        case Ok(rest) =>
          AllParsedCons(pieces, codec, a, rest);
          Ok([a] + rest)
  }

  // ---------------------------------------------------------------------------
  // Round trips

  /** Numbers printed by `%d` with the given literals between them. */
  function Interleave(ns: seq<nat>, seps: string): (s: string)
    requires |ns| == |seps| + 1
    decreases |seps|
  {
    if |seps| == 0 then NatToDecimal(ns[0])
    else NatToDecimal(ns[0]) + [seps[0]] + Interleave(ns[1..], seps[1..])
  }

  predicate NoDigitNoNul(seps: string) {
    forall i :: 0 <= i < |seps| ==> !IsDigit(seps[i]) && seps[i] != '\0'
  }

  lemma {:induction false} InterleaveNoNul(ns: seq<nat>, seps: string)
    requires |ns| == |seps| + 1 && NoDigitNoNul(seps)
    ensures forall i :: 0 <= i < |Interleave(ns, seps)| ==> Interleave(ns, seps)[i] != '\0'
    ensures IsDigit(Interleave(ns, seps)[0])
    decreases |seps|
  {
    var d := NatToDecimal(ns[0]);
    assert forall i :: 0 <= i < |d| ==> IsDigit(d[i]);
    if |seps| > 0 {
      InterleaveNoNul(ns[1..], seps[1..]);
      var t := Interleave(ns[1..], seps[1..]);
      var s := Interleave(ns, seps);
      assert s == d + [seps[0]] + t;
      forall i | 0 <= i < |s| ensures s[i] != '\0' {
        if i < |d| { assert s[i] == d[i]; }
        else if i == |d| { assert s[i] == seps[0]; }
        else { assert s[i] == t[i - |d| - 1]; }
      }
    }
  }

  /** The `%d` conversions read back what `%d` printed, literal by literal. */
  lemma {:induction false} ScanIntsOfInterleave(ns: seq<nat>, seps: string, rest: string)
    requires |ns| == |seps| + 1 && NoDigitNoNul(seps)
    requires |rest| == 0 || !IsDigit(rest[0])
    ensures ScanInts(Interleave(ns, seps) + rest, seps) == Some((ns, rest))
    decreases |seps|
  {
    if |seps| == 0 {
      ScanIntsLast(ns[0], rest);
      assert ns == [ns[0]];
    } else {
      var tail := Interleave(ns[1..], seps[1..]) + rest;
      var text := NatToDecimal(ns[0]) + [seps[0]] + tail;
      assert Interleave(ns, seps) + rest == text;
      ScanIntsOfInterleave(ns[1..], seps[1..], rest);
      ScanIntsDecimalStep(ns[0], seps, tail);
      var more := ScanInts(tail, seps[1..]);
      assert more == Some((ns[1..], rest));
      assert ScanInts(text, seps) == Some(([ns[0]] + more.value.0, rest));
      ConsTail(ns);
    }
  }

  lemma ScanIntsLast(n: nat, rest: string)
    requires |rest| == 0 || !IsDigit(rest[0])
    ensures ScanInts(NatToDecimal(n) + rest, "") == Some(([n], rest))
  {
    ScanIntOfDecimal(n, rest);
  }

  /** A printed number and the next literal, then the rest of the pattern. */
  lemma ScanIntsDecimalStep(n: nat, seps: string, tail: string)
    requires |seps| > 0 && !IsDigit(seps[0])
    ensures var more := ScanInts(tail, seps[1..]);
      ScanInts(NatToDecimal(n) + [seps[0]] + tail, seps)
        == if more.None? then None else Some(([n] + more.value.0, more.value.1))
  {
    var after := [seps[0]] + tail;
    assert NatToDecimal(n) + [seps[0]] + tail == NatToDecimal(n) + after;
    ScanIntOfDecimal(n, after);
    assert after[1..] == tail;
  }

  /** The IPv4 text is the octets and the port printed with the separators of
      the parse pattern between them. */
  lemma DottedText(ip: uint32, port: uint16)
    ensures DottedQuad(ip) + ":" + NatToDecimal(port) == Interleave(Octets(ip) + [port], V4_SEPARATORS)
  {
    InterleaveSnoc(Octets(ip), "...", port, ':');
    assert "..." + [':'] == V4_SEPARATORS;
  }

  /** One more number, after one more literal, extends the printed text at its end. */
  lemma {:induction false} InterleaveSnoc(ns: seq<nat>, seps: string, n: nat, c: char)
    requires |ns| == |seps| + 1
    ensures Interleave(ns, seps) + [c] + NatToDecimal(n) == Interleave(ns + [n], seps + [c])
    decreases |seps|
  {
    var ns', seps' := ns + [n], seps + [c];
    if |seps| == 0 {
      assert ns'[1..] == [n];
    } else {
      assert ns'[1..] == ns[1..] + [n];
      assert seps'[1..] == seps[1..] + [c];
      InterleaveSnoc(ns[1..], seps[1..], n, c);
    }
  }

  /** Dotted-quad text has no NUL, so its C string is itself. */
  lemma DottedQuadNoNul(ip: uint32)
    ensures CStr(DottedQuad(ip)) == DottedQuad(ip)
  {
    InterleaveNoNul(Octets(ip), "...");
    CStrNoNul(DottedQuad(ip));
  }

  /** The `:tls` suffix is recognised exactly when it was appended to a text
      ending in a digit, and is stripped before the address is read. */
  lemma ParseWithTLSSuffix(t: string, tls: bool, codec: Ipv6Codec)
    requires |t| > 0 && IsDigit(t[|t| - 1])
    ensures Parse(t + (if tls then TLS_SUFFIX else ""), codec)
         == if t[0] == '[' then ParseBracketed(t, tls, codec) else ParseDotted(t, tls)
  {
    var s := t + (if tls then TLS_SUFFIX else "");
    if tls {
      assert s[|s| - 4..] == TLS_SUFFIX;
      assert s[..|s| - 4] == t;
    } else {
      assert s == t;
    }
    assert s[0] == t[0];
  }

  lemma DottedFieldsOfText(ip: uint32, port: uint16)
    ensures var t := Interleave(Octets(ip) + [port], V4_SEPARATORS);
      DottedFields(t) == Some(Octets(ip) + [port])
  {
    var ns := Octets(ip) + [port];
    var t := Interleave(ns, V4_SEPARATORS);
    InterleaveNoNul(ns, V4_SEPARATORS);
    CStrNoNul(t);
    ScanIntsOfInterleave(ns, V4_SEPARATORS, "");
    assert t + "" == t;
  }

  lemma DottedAddressOfOctets(ip: uint32, port: uint16, tls: bool)
    ensures DottedAddress(Octets(ip) + [port], tls) == NetworkAddress(V4(ip), port, true, tls)
  {
    var o := Octets(ip);
    var vs := o + [port];
    assert vs[0] == o[0] && vs[1] == o[1] && vs[2] == o[2] && vs[3] == o[3] && vs[4] == port;
    OctetsRecombine(ip);
  }

  /** Parsing the text of an IPv4 address gives back the address, marked public. */
  lemma ParseV4RoundTrip(a: NetworkAddress, codec: Ipv6Codec)
    requires a.ip.V4?
    ensures Parse(AddressToString(a, codec), codec) == Ok(a.(isPublic := true))
  {
    var ns := Octets(a.ip.v4) + [a.port];
    var t := Interleave(ns, V4_SEPARATORS);
    DottedText(a.ip.v4, a.port);
    DottedQuadNoNul(a.ip.v4);
    assert FormatIpPort(a.ip, a.port, codec) == t;
    LastIsDigit(ns, V4_SEPARATORS);
    InterleaveNoNul(ns, V4_SEPARATORS);
    ParseWithTLSSuffix(t, a.isTLS, codec);
    DottedFieldsOfText(a.ip.v4, a.port);
    DottedAddressOfOctets(a.ip.v4, a.port, a.isTLS);
  }

  lemma {:induction false} LastIsDigit(ns: seq<nat>, seps: string)
    requires |ns| == |seps| + 1
    ensures IsDigit(Interleave(ns, seps)[|Interleave(ns, seps)| - 1])
    decreases |seps|
  {
    var d := NatToDecimal(ns[0]);
    assert IsDigit(d[|d| - 1]);
    if |seps| > 0 {
      LastIsDigit(ns[1..], seps[1..]);
    }
  }

  /** `[x]:port` is read as the bracketed address x and the port. */
  lemma ParseBracketedOfText(x: string, port: uint16, tls: bool, codec: Ipv6Codec)
    requires ']' !in x
    ensures var t := "[" + x + "]:" + NatToDecimal(port);
      ParseBracketed(t, tls, codec)
        == match codec.parse(x)
           case None => Err(ConnectionStringInvalid)
           case Some(ip) => Ok(NetworkAddress(ip, port, true, tls))
  {
    var p := NatToDecimal(port);
    BracketedPieces(x, p);
    IndexOfAfter("[" + x, ']', ":" + p);
    StoiOfDecimal(port);
    ParseBracketedAt("[" + x + "]:" + p, x, p, tls, codec);
    ToPortOfPort(port);
  }

  lemma ToPortOfPort(port: uint16)
    ensures ToPort(port) == port
  {
  }

  /** ParseBracketed on a text already cut into its address and port pieces. */
  lemma ParseBracketedAt(f: string, x: string, p: string, tls: bool, codec: Ipv6Codec)
    requires |f| == |x| + 3 + |p| && f[0] == '[' && IndexOf(f, ']') == |x| + 1 && f[|x| + 2] == ':'
    requires f[1..|x| + 1] == x && f[|x| + 3..] == p
    ensures Stoi(p).Err? ==> ParseBracketed(f, tls, codec) == Err(Stoi(p).error)
    ensures Stoi(p).Ok? && codec.parse(x).None? ==> ParseBracketed(f, tls, codec) == Err(ConnectionStringInvalid)
    ensures Stoi(p).Ok? && codec.parse(x).Some? ==>
      ParseBracketed(f, tls, codec) == Ok(NetworkAddress(codec.parse(x).value, ToPort(Stoi(p).value), true, tls))
  {
  }

  /** Where the pieces of "[x]:p" sit. */
  lemma BracketedPieces(x: string, p: string)
    requires ']' !in x
    ensures var t := "[" + x + "]:" + p;
      t == ("[" + x) + [']'] + (":" + p) && ']' !in "[" + x
      && t[1..1 + |x|] == x && t[|x| + 1] == ']' && t[|x| + 2] == ':' && t[|x| + 3..] == p
  {
    var t := "[" + x + "]:" + p;
    assert t == ("[" + x) + [']'] + (":" + p);
    assert t[1..1 + |x|] == x;
    assert t[|x| + 3..] == p;
  }

  lemma StoiOfDecimal(n: uint16)
    ensures Stoi(NatToDecimal(n)) == Ok(n)
  {
    DecimalCStr(n);
    ScanDecimal(n);
  }

  /** Parsing the text of an IPv6 address gives back the address, marked
      public, when the address library reads back what it prints and its text
      has no closing bracket. */
  lemma ParseV6RoundTrip(a: NetworkAddress, codec: Ipv6Codec)
    requires a.ip.V6?
    requires codec.parse(CStr(codec.render(a.ip.v6))) == Some(a.ip)
    requires ']' !in CStr(codec.render(a.ip.v6))
    ensures Parse(AddressToString(a, codec), codec) == Ok(a.(isPublic := true))
  {
    var x := CStr(codec.render(a.ip.v6));
    var p := NatToDecimal(a.port);
    var t := "[" + x + "]:" + p;
    assert FormatIpPort(a.ip, a.port, codec) == t;
    assert t[|t| - 1] == p[|p| - 1];
    ParseWithTLSSuffix(t, a.isTLS, codec);
    ParseBracketedOfText(x, a.port, a.isTLS, codec);
  }

  /** parseList reads back a comma-joined list of IPv4 address texts. */
  lemma ParseListRoundTrip(addrs: seq<NetworkAddress>, codec: Ipv6Codec)
    requires |addrs| > 0
    requires forall i :: 0 <= i < |addrs| ==> addrs[i].ip.V4?
    ensures ParseList(Join(",", seq(|addrs|, i requires 0 <= i < |addrs| => AddressToString(addrs[i], codec))), codec)
         == Ok(seq(|addrs|, i requires 0 <= i < |addrs| => addrs[i].(isPublic := true)))
  {
    var texts := seq(|addrs|, i requires 0 <= i < |addrs| => AddressToString(addrs[i], codec));
    forall i | 0 <= i < |addrs|
      ensures ',' !in texts[i]
      ensures Parse(texts[i], codec) == Ok(addrs[i].(isPublic := true))
    {
      ParseV4RoundTrip(addrs[i], codec);
      V4TextHasNoComma(addrs[i], codec);
    }
    SplitJoin(texts, ',');
    ParseAllOfParsed(texts, seq(|addrs|, i requires 0 <= i < |addrs| => addrs[i].(isPublic := true)), codec);
  }

  /** Pieces that each parse make ParseAll return exactly their addresses. */
  lemma ParseAllOfParsed(pieces: seq<string>, want: seq<NetworkAddress>, codec: Ipv6Codec)
    requires |pieces| == |want|
    requires forall i :: 0 <= i < |pieces| ==> Parse(pieces[i], codec) == Ok(want[i])
    ensures ParseAll(pieces, codec) == Ok(want)
  {
    var r := ParseAll(pieces, codec);
    assert r.Ok?;
    assert r.value == want;
  }

  lemma V4TextHasNoComma(a: NetworkAddress, codec: Ipv6Codec)
    requires a.ip.V4?
    ensures ',' !in AddressToString(a, codec)
  {
    var ns := Octets(a.ip.v4) + [a.port];
    DottedText(a.ip.v4, a.port);
    DottedQuadNoNul(a.ip.v4);
    InterleaveAvoids(ns, V4_SEPARATORS, ',');
  }

  lemma {:induction false} InterleaveAvoids(ns: seq<nat>, seps: string, c: char)
    requires |ns| == |seps| + 1 && c !in seps && !IsDigit(c)
    ensures c !in Interleave(ns, seps)
    decreases |seps|
  {
    var d := NatToDecimal(ns[0]);
    assert forall i :: 0 <= i < |d| ==> IsDigit(d[i]);
    if |seps| > 0 {
      InterleaveAvoids(ns[1..], seps[1..], c);
    }
  }
}
