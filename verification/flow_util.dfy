/** The string and number utilities of flow/flow.cpp: UID text, byte-unit
    parsing, the byte-string successor `strinc`, the version-stamp suffix
    and the memoised buggify switches. */
module FlowUtil {
  import opened Base

  // ---------------------------------------------------------------------------
  // Hexadecimal text

  predicate IsHexDigit(c: char) {
    ('0' <= c <= '9') || ('a' <= c <= 'f') || ('A' <= c <= 'F')
  }

  predicate IsLowerHexDigit(c: char) {
    ('0' <= c <= '9') || ('a' <= c <= 'f')
  }

  predicate AllHex(s: string) {
    forall i :: 0 <= i < |s| ==> IsHexDigit(s[i])
  }

  function HexDigitValue(c: char): (v: nat)
    requires IsHexDigit(c)
    ensures v < 16
  {
    if '0' <= c <= '9' then (c as int) - ('0' as int)
    else if 'a' <= c <= 'f' then (c as int) - ('a' as int) + 10
    else (c as int) - ('A' as int) + 10
  }

  function HexDigitChar(d: nat): (c: char)
    requires d < 16
    ensures IsLowerHexDigit(c) && IsHexDigit(c) && HexDigitValue(c) == d
  {
    if d < 10 then (('0' as int) + d) as char else (('a' as int) + d - 10) as char
  }

  /** A hex digit in the case `%x` prints. */
  function LowerHex(c: char): (r: char)
    requires IsHexDigit(c)
    ensures IsLowerHexDigit(r) && HexDigitValue(r) == HexDigitValue(c)
  {
    HexDigitChar(HexDigitValue(c))
  }

  function LowerHexString(s: string): (r: string)
    requires AllHex(s)
    ensures |r| == |s|
    ensures forall i :: 0 <= i < |s| ==> r[i] == LowerHex(s[i])
  {
    if |s| == 0 then "" else LowerHexString(s[..|s| - 1]) + [LowerHex(s[|s| - 1])]
  }

  /** The low `width` hex digits of x, zero padded: `%0<width>llx`. */
  function HexFixed(x: nat, width: nat): (s: string)
    ensures |s| == width
    ensures forall i :: 0 <= i < |s| ==> IsLowerHexDigit(s[i]) && IsHexDigit(s[i])
  {
    if width == 0 then "" else HexFixed(x / 16, width - 1) + [HexDigitChar(x % 16)]
  }

  /** The number a hex digit string denotes, most significant digit first. */
  function HexValue(s: string): (v: nat)
    requires AllHex(s)
    ensures v < Pow(16, |s|)
  {
    if |s| == 0 then 0 else HexValue(s[..|s| - 1]) * 16 + HexDigitValue(s[|s| - 1])
  }

  lemma {:induction false} HexFixedRoundTrip(x: nat, width: nat)
    requires x < Pow(16, width)
    ensures HexValue(HexFixed(x, width)) == x
  {
    if width > 0 {
      var s := HexFixed(x, width);
      var q, d := x / 16, x % 16;
      assert x == q * 16 + d;
      assert q < Pow(16, width - 1);
      assert s[..|s| - 1] == HexFixed(q, width - 1);
      assert HexDigitValue(s[|s| - 1]) == d;
      HexFixedRoundTrip(q, width - 1);
    }
  }

  /** Printing the value of a digit string at its own width gives back the
      string, in lower case. */
  lemma {:induction false} HexValueRoundTrip(s: string)
    requires AllHex(s)
    ensures HexFixed(HexValue(s), |s|) == LowerHexString(s)
  {
    if |s| > 0 {
      var init := s[..|s| - 1];
      HexValueRoundTrip(init);
      var v := HexValue(s);
      assert v / 16 == HexValue(init);
      assert v % 16 == HexDigitValue(s[|s| - 1]);
    }
  }

  /** Length of the longest run of hex digits at the start of s. */
  function HexRun(s: string): (k: nat)
    ensures k <= |s|
    ensures forall i :: 0 <= i < k ==> IsHexDigit(s[i])
    ensures k < |s| ==> !IsHexDigit(s[k])
  {
    if |s| == 0 || !IsHexDigit(s[0]) then 0 else 1 + HexRun(s[1..])
  }

  lemma HexRunAtLeast(s: string, n: nat)
    requires n <= |s| && AllHex(s[..n])
    ensures HexRun(s) >= n
  {
    if n > 0 {
      assert s[1..][..n - 1] == s[..n][1..];
      HexRunAtLeast(s[1..], n - 1);
    }
  }

  /** One `%<width>llx` conversion of sscanf: leading white space, an optional
      sign and hex digits, the sign and the digits together at most `width`
      characters. A minus sign negates the value modulo 2^64. The `0x` prefix
      the C library also accepts is not modelled. */
  function ScanHexField(s: string, width: nat): (r: Option<(uint64, string)>)
    requires width >= 2
    ensures r.Some? ==> |r.value.1| < |s|
  {
    var t := SkipSpace(s);
    var signed := |t| > 0 && (t[0] == '-' || t[0] == '+');
    var u := if signed then t[1..] else t;
    var room := if signed then width - 1 else width;
    var k := if HexRun(u) < room then HexRun(u) else room;
    assert |u| <= |s|;
    if k == 0 then None
    else
      var v: int := HexValue(u[..k]);
      var w: int := if t[0] == '-' then -v else v;
      var x: uint64 := w % TWO_64;
      Some((x, u[k..]))
  }

  // ---------------------------------------------------------------------------
  // UID

  datatype UID = UID(first: uint64, second: uint64)

  /** `%016llx%016llx` of the two halves. */
  function UidToString(u: UID): (s: string)
    ensures |s| == 32
    ensures forall i :: 0 <= i < |s| ==> IsLowerHexDigit(s[i])
    ensures AllHex(s) && HexValue(s[..16]) == u.first && HexValue(s[16..]) == u.second
  {
    var s := HexFixed(u.first, 16) + HexFixed(u.second, 16);
    SixteenHexDigits();
    HexFixedRoundTrip(u.first, 16);
    HexFixedRoundTrip(u.second, 16);
    assert s[..16] == HexFixed(u.first, 16) && s[16..] == HexFixed(u.second, 16);
    s
  }

  /** `%016llx` of the first half. */
  function UidShortString(u: UID): (s: string)
    ensures s == UidToString(u)[..16]
  {
    var t := UidToString(u);
    SixteenHexDigits();
    HexValueRoundTrip(t[..16]);
    HexFixedRoundTrip(u.first, 16);
    assert LowerHexString(t[..16]) == t[..16];
    HexFixed(u.first, 16)
  }

  /** UID::fromString. None stands for a failed ASSERT: a length other than 32,
      or fewer than two successful `%16llx` conversions of the C string. */
  function UidFromString(s: string): (r: Option<UID>)
    ensures |s| != 32 ==> r.None?
  {
    if |s| != 32 then None
    else match ScanHexField(CStr(s), 16)
      case None => None
      case Some((a, rest)) =>
        match ScanHexField(rest, 16)
        case None => None
        case Some((b, _)) => Some(UID(a, b))
  }

  /** Thirty-two hex digits of either case are read as two 16-digit halves. */
  lemma UidFromHexDigits(s: string)
    requires |s| == 32 && AllHex(s)
    ensures UidFromString(s) == Some(UID(HexValue64(s[..16]), HexValue64(s[16..])))
  {
    CStrOfHex(s);
    var rest := s[16..];
    AllHexSlices(s);
    ScanHexFieldOfDigits(s);
    ScanHexFieldWhole(rest);
    UidFromFields(s, HexValue64(s[..16]), rest, HexValue64(rest), "");
  }

  lemma CStrOfHex(s: string)
    requires AllHex(s)
    ensures CStr(s) == s
  {
    HexNoNul(s);
    CStrNoNul(s);
  }

  /** UID::fromString once both conversions are known. */
  lemma UidFromFields(s: string, a: uint64, rest: string, b: uint64, rest2: string)
    requires |s| == 32
    requires ScanHexField(CStr(s), 16) == Some((a, rest)) && ScanHexField(rest, 16) == Some((b, rest2))
    ensures UidFromString(s) == Some(UID(a, b))
  {
  }

  lemma AllHexSlices(s: string)
    requires |s| == 32 && AllHex(s)
    ensures AllHex(s[..16]) && AllHex(s[16..])
  {
  }

  lemma ScanHexFieldWhole(s: string)
    requires |s| == 16 && AllHex(s)
    ensures ScanHexField(s, 16) == Some((HexValue64(s), ""))
  {
    assert s[..16] == s;
    ScanHexFieldOfDigits(s);
  }

  lemma HexNoNul(s: string)
    requires AllHex(s)
    ensures forall i :: 0 <= i < |s| ==> s[i] != '\0'
  {
    forall i | 0 <= i < |s| ensures s[i] != '\0' { assert IsHexDigit(s[i]); }
  }

  /** Sixteen hex digits span exactly the uint64 range. */
  lemma SixteenHexDigits()
    ensures Pow(16, 16) == TWO_64
  {
    assert Pow(16, 4) == 65536;
    assert Pow(16, 8) == Pow(16, 4) * Pow(16, 4) by { PowAdd(16, 4, 4); }
    assert Pow(16, 16) == Pow(16, 8) * Pow(16, 8) by { PowAdd(16, 8, 8); }
  }

  /** The value of sixteen hex digits, as the uint64 `%llx` stores. */
  function HexValue64(s: string): (v: uint64)
    requires AllHex(s) && |s| == 16
    ensures v == HexValue(s)
  {
    SixteenHexDigits();
    HexValue(s)
  }

  /** A field of sixteen hex digits is read whole by `%16llx`. */
  lemma ScanHexFieldOfDigits(s: string)
    requires |s| >= 16 && AllHex(s[..16])
    ensures ScanHexField(s, 16) == Some((HexValue64(s[..16]), s[16..]))
  {
    assert IsHexDigit(s[..16][0]);
    assert !IsSpace(s[0]) && s[0] != '-' && s[0] != '+';
    SkipSpaceOfNonSpace(s);
    HexRunAtLeast(s, 16);
    var v: int := HexValue(s[..16]);
    SixteenHexDigits();
    assert 0 <= v < TWO_64;
    assert v % TWO_64 == v;
  }

  lemma {:induction false} PowAdd(b: nat, x: nat, y: nat)
    ensures Pow(b, x + y) == Pow(b, x) * Pow(b, y)
  {
    if x > 0 {
      PowAdd(b, x - 1, y);
      var p, q := Pow(b, x - 1), Pow(b, y);
      assert Pow(b, x + y) == b * Pow(b, (x - 1) + y);
      MulAssoc(b, p, q);
    }
  }

  lemma MulAssoc(a: int, b: int, c: int)
    ensures a * (b * c) == (a * b) * c
  {
  }

  /** fromString inverts toString. */
  lemma UidRoundTrip(u: UID)
    ensures UidFromString(UidToString(u)) == Some(u)
  {
    UidFromHexDigits(UidToString(u));
  }

  lemma LowerHexStringAppend(a: string, b: string)
    requires AllHex(a) && AllHex(b)
    ensures AllHex(a + b)
    ensures LowerHexString(a + b) == LowerHexString(a) + LowerHexString(b)
  {
    assert AllHex(a + b) by {
      forall i | 0 <= i < |a + b| ensures IsHexDigit((a + b)[i]) {
        if i >= |a| { assert (a + b)[i] == b[i - |a|]; }
      }
    }
    var l := LowerHexString(a + b);
    var r := LowerHexString(a) + LowerHexString(b);
    forall i | 0 <= i < |l| ensures l[i] == r[i] {
      if i >= |a| { assert (a + b)[i] == b[i - |a|]; }
    }
  }

  /** toString inverts fromString on 32 hex digits, up to letter case. */
  lemma UidCanonicalText(s: string)
    requires |s| == 32 && AllHex(s)
    ensures UidFromString(s).Some?
    ensures UidToString(UidFromString(s).value) == LowerHexString(s)
  {
    UidFromHexDigits(s);
    var u := UidFromString(s).value;
    HexValueRoundTrip(s[..16]);
    HexValueRoundTrip(s[16..]);
    assert s == s[..16] + s[16..];
    LowerHexStringAppend(s[..16], s[16..]);
  }

  // ---------------------------------------------------------------------------
  // parse_with_suffix

  /** strtoull in base 10: leading white space, an optional sign, digits,
      which is what a `%d` conversion reads. None means no digits were found
      (the end pointer stays at the start). A value beyond 2^64-1 saturates; a
      minus sign negates modulo 2^64. */
  function StrToULL(s: string): (r: Option<(uint64, string)>)
    ensures r.Some? ==> |r.value.1| < |s| && IsTail(r.value.1, s)
  {
    match ScanInt(s)
    case Scanned(v, rest) => Some((Saturate(if v < 0 then -v else v, v < 0), rest))
    case _ => None
  }

  /** The uint64 strtoull returns for a magnitude and a sign. */
  function Saturate(m: nat, negative: bool): uint64
  {
    if m >= TWO_64 then TWO_64 - 1 else if negative then (TWO_64 - m) % TWO_64 else m
  }

  /** The multiplier a unit suffix names, or None for an unknown suffix. */
  function UnitMultiplier(unit: string): (r: Option<nat>)
  {
    if unit == "B" then Some(1)
    else if unit == "KB" then Some(1000)
    else if unit == "KiB" then Some(0x400)
    else if unit == "MB" then Some(1000_000)
    else if unit == "MiB" then Some(0x10_0000)
    else if unit == "GB" then Some(1000_000_000)
    else if unit == "GiB" then Some(0x4000_0000)
    else if unit == "TB" then Some(1000_000_000_000)
    else if unit == "TiB" then Some(0x100_0000_0000)
    else None
  }

  const SiPrefixes: seq<string> := ["", "K", "M", "G", "T"]

  /** The nine units are "B" and the SI and IEC prefixes K, M, G, T: an SI
      unit is a power of 1000 and an IEC unit the same power of 1024. */
  lemma UnitMultiplierTable(unit: string)
    ensures forall k :: 0 <= k < 5 ==> UnitMultiplier(SiPrefixes[k] + "B") == Some(Pow(1000, k))
    ensures forall k :: 1 <= k < 5 ==> UnitMultiplier(SiPrefixes[k] + "iB") == Some(Pow(1024, k))
    ensures UnitMultiplier(unit).Some? <==>
      exists k :: 0 <= k < 5 && (unit == SiPrefixes[k] + "B" || (k > 0 && unit == SiPrefixes[k] + "iB"))
  {
    forall k | 0 <= k < 5
      ensures UnitMultiplier(SiPrefixes[k] + "B") == Some(Pow(1000, k))
      ensures k >= 1 ==> UnitMultiplier(SiPrefixes[k] + "iB") == Some(Pow(1024, k))
    {
      UnitsWithPrefix(k);
    }
    if UnitMultiplier(unit).Some? {
      UnitNamesAPrefix(unit);
    }
  }

  lemma UnitsWithPrefix(k: nat)
    requires k < 5
    ensures UnitMultiplier(SiPrefixes[k] + "B") == Some(Pow(1000, k))
    ensures k >= 1 ==> UnitMultiplier(SiPrefixes[k] + "iB") == Some(Pow(1024, k))
  {
    PowersOf1000And1024();
    if k == 0 {
      assert SiPrefixes[0] + "B" == "B";
    } else if k == 1 {
      assert SiPrefixes[1] + "B" == "KB" && SiPrefixes[1] + "iB" == "KiB";
    } else if k == 2 {
      assert SiPrefixes[2] + "B" == "MB" && SiPrefixes[2] + "iB" == "MiB";
    } else if k == 3 {
      assert SiPrefixes[3] + "B" == "GB" && SiPrefixes[3] + "iB" == "GiB";
    } else {
      assert SiPrefixes[4] + "B" == "TB" && SiPrefixes[4] + "iB" == "TiB";
    }
  }

  lemma PowersOf1000And1024()
    ensures Pow(1000, 0) == 1 && Pow(1024, 0) == 1
    ensures Pow(1000, 1) == 1000 && Pow(1024, 1) == 0x400
    ensures Pow(1000, 2) == 1000_000 && Pow(1024, 2) == 0x10_0000
    ensures Pow(1000, 3) == 1000_000_000 && Pow(1024, 3) == 0x4000_0000
    ensures Pow(1000, 4) == 1000_000_000_000 && Pow(1024, 4) == 0x100_0000_0000
  {
    assert Pow(1000, 2) == 1000 * Pow(1000, 1) && Pow(1024, 2) == 1024 * Pow(1024, 1);
    assert Pow(1000, 3) == 1000 * Pow(1000, 2) && Pow(1024, 3) == 1024 * Pow(1024, 2);
    assert Pow(1000, 4) == 1000 * Pow(1000, 3) && Pow(1024, 4) == 1024 * Pow(1024, 3);
  }

  lemma UnitNamesAPrefix(unit: string)
    requires UnitMultiplier(unit).Some?
    ensures exists k :: 0 <= k < 5 && (unit == SiPrefixes[k] + "B" || (k > 0 && unit == SiPrefixes[k] + "iB"))
  {
    if unit == "B" { assert unit == SiPrefixes[0] + "B"; }
    else if unit == "KB" || unit == "KiB" { assert unit == SiPrefixes[1] + "B" || unit == SiPrefixes[1] + "iB"; }
    else if unit == "MB" || unit == "MiB" { assert unit == SiPrefixes[2] + "B" || unit == SiPrefixes[2] + "iB"; }
    else if unit == "GB" || unit == "GiB" { assert unit == SiPrefixes[3] + "B" || unit == SiPrefixes[3] + "iB"; }
    else { assert unit == SiPrefixes[4] + "B" || unit == SiPrefixes[4] + "iB"; }
  }

  /** parse_with_suffix: a number, then a unit, or no unit and the default one.
      The product wraps modulo 2^64 like the uint64 multiplication it models. */
  function ParseWithSuffix(toparse: string, defaultUnit: string): (r: Option<uint64>)
    ensures var t := SkipSpace(CStr(toparse));
      var u := if |t| > 0 && (t[0] == '-' || t[0] == '+') then t[1..] else t;
      (|u| == 0 || !IsDigit(u[0])) ==> r.None?
    ensures r.Some? <==>
      (StrToULL(CStr(toparse)).Some? &&
       var (ret, rest) := StrToULL(CStr(toparse)).value;
       var unit := if rest == "" then defaultUnit else rest;
       unit != "" && UnitMultiplier(unit).Some?)
    ensures r.Some? ==>
      var (ret, rest) := StrToULL(CStr(toparse)).value;
      var unit := if rest == "" then defaultUnit else rest;
      r.value == (ret * UnitMultiplier(unit).value) % TWO_64
  {
    match StrToULL(CStr(toparse))
    case None => None
    case Some((ret, rest)) =>
      if rest == "" && defaultUnit == "" then None
      else
        var unit := if rest == "" then defaultUnit else rest;
        match UnitMultiplier(unit)
        case None => None
        case Some(m) => Some((ret * m) % TWO_64)
  }

  lemma StrToULLOfDecimal(n: nat, rest: string)
    requires n < TWO_64
    requires |rest| == 0 || !IsDigit(rest[0])
    ensures StrToULL(NatToDecimal(n) + rest) == Some((n, rest))
  {
    ScanIntOfDecimal(n, rest);
  }

  /** Every known unit is a non-empty text of letters. */
  lemma UnitShape(unit: string)
    requires UnitMultiplier(unit).Some?
    ensures |unit| > 0 && !IsDigit(unit[0])
    ensures forall i :: 0 <= i < |unit| ==> unit[i] != '\0'
  {
  }

  lemma DecimalNoNul(d: string, unit: string)
    requires AllDigits(d)
    requires forall i :: 0 <= i < |unit| ==> unit[i] != '\0'
    ensures CStr(d + unit) == d + unit
  {
    var s := d + unit;
    forall i | 0 <= i < |s| ensures s[i] != '\0' {
      if i < |d| { assert IsDigit(d[i]); } else { assert s[i] == unit[i - |d|]; }
    }
    CStrNoNul(s);
  }

  /** A printed number followed by a known unit parses to the number times the
      unit's multiplier, whatever the default unit. */
  lemma ParseWithSuffixOfDecimal(n: nat, unit: string, defaultUnit: string)
    requires n < TWO_64
    requires UnitMultiplier(unit).Some?
    ensures ParseWithSuffix(NatToDecimal(n) + unit, defaultUnit)
         == Some((n * UnitMultiplier(unit).value) % TWO_64)
  {
    UnitShape(unit);
    DecimalNoNul(NatToDecimal(n), unit);
    StrToULLOfDecimal(n, unit);
  }

  /** A bare number takes the default unit, and is refused when there is none. */
  lemma ParseWithSuffixBare(n: nat, defaultUnit: string)
    requires n < TWO_64
    ensures defaultUnit == "" ==> ParseWithSuffix(NatToDecimal(n), defaultUnit).None?
    ensures defaultUnit != "" ==>
      ParseWithSuffix(NatToDecimal(n), defaultUnit)
        == (match UnitMultiplier(defaultUnit)
            case None => None
            case Some(m) => Some((n * m) % TWO_64))
  {
    var d := NatToDecimal(n);
    DecimalNoNul(d, "");
    assert d + "" == d;
    StrToULLOfDecimal(n, "");
  }

  // ---------------------------------------------------------------------------
  // strinc

  /** Some byte is below 0xff, so the string has a successor. */
  predicate Incrementable(s: Bytes) {
    exists i :: 0 <= i < |s| && s[i] != 0xff
  }

  /** Position of the last byte that is not 0xff, or -1. */
  function LastNonMax(s: Bytes): (i: int)
    ensures -1 <= i < |s|
    ensures i >= 0 ==> s[i] != 0xff
    ensures forall j :: i < j < |s| ==> s[j] == 0xff
  {
    if |s| == 0 then -1
    else if s[|s| - 1] != 0xff then |s| - 1
    else LastNonMax(s[..|s| - 1])
  }

  /** strinc: drop the trailing 0xff bytes and increment the last remaining one. */
  function Strinc(s: Bytes): (r: Bytes)
    requires Incrementable(s)
    ensures 0 < |r| <= |s|
    ensures r[..|r| - 1] == s[..|r| - 1]
    ensures s[|r| - 1] < 0xff && r[|r| - 1] == s[|r| - 1] + 1
    ensures forall j :: |r| <= j < |s| ==> s[j] == 0xff
  {
    var i := LastNonMax(s);
    if i < 0 then
      assert false; s
    else
      s[..i] + [s[i] + 1]
  }

  /** The successor sorts after the string itself and after every extension of it. */
  lemma StrincAboveExtensions(s: Bytes, t: Bytes)
    requires Incrementable(s) && HasPrefix(t, s)
    ensures LexLess(t, Strinc(s))
  {
    var r := Strinc(s);
    var k := |r| - 1;
    assert t[..k] == s[..k] == r[..k];
    LexLessAt(t, r, k);
  }

  /** The strings from s (inclusive) up to strinc(s) (exclusive) are exactly
      the strings that start with s. */
  lemma StrincRange(s: Bytes, t: Bytes)
    requires Incrementable(s)
    ensures HasPrefix(t, s) <==> !LexLess(t, s) && LexLess(t, Strinc(s))
  {
    var r := Strinc(s);
    if HasPrefix(t, s) {
      LexNotLessThanPrefix(t, s);
      StrincAboveExtensions(s, t);
    } else {
      var k := CommonPrefix(t, s);
      LexLessByCommonPrefix(t, s);
      if !LexLess(t, s) {
        // t leaves s at position k with a larger byte
        assert k < |t| && k < |s| && t[k] > s[k];
        var i := |r| - 1;
        if k < i {
          assert r[..k] == s[..k] == t[..k];
          LexLessAt(r, t, k);
          LexAsymmetric(r, t);
        } else if k == i {
          assert r[..k] == t[..k];
          if t[k] > r[k] {
            LexLessAt(r, t, k);
            LexAsymmetric(r, t);
          } else {
            assert t[..|r|] == r;
            LexNotLessThanPrefix(t, r);
          }
        }
      }
    }
  }

  // ---------------------------------------------------------------------------
  // addVersionStampAtEnd

  /** Four bytes of x, least significant first: the in-memory image of an
      int32 on a little-endian host. */
  function LittleEndian32(x: nat): (b: Bytes)
    ensures |b| == 4
  {
    [x % 0x100, x / 0x100 % 0x100, x / 0x1_0000 % 0x100, x / 0x100_0000 % 0x100]
  }

  function FromLittleEndian32(b: Bytes): nat
    requires |b| == 4
  {
    b[0] as int + 0x100 * (b[1] as int) + 0x1_0000 * (b[2] as int) + 0x100_0000 * (b[3] as int)
  }

  lemma LittleEndian32RoundTrip(x: nat)
    requires x < TWO_32
    ensures FromLittleEndian32(LittleEndian32(x)) == x
  {
    var t1 := x / 0x100;
    var t2 := t1 / 0x100;
    var t3 := t2 / 0x100;
    assert x == t1 * 0x100 + x % 0x100;
    assert t1 == t2 * 0x100 + t1 % 0x100;
    assert t2 == t3 * 0x100 + t2 % 0x100;
    assert t3 < 0x100;
    assert x / 0x1_0000 == t2 && x / 0x100_0000 == t3;
    var b := LittleEndian32(x);
    assert b[0] == x % 0x100 && b[1] == t1 % 0x100 && b[2] == t2 % 0x100 && b[3] == t3;
  }

  const VERSION_STAMP_PAD: nat := 10

  /** The string followed by ten zero bytes (the stamp's place) and the
      string's length as a little-endian int32. */
  function AddVersionStampAtEnd(s: Bytes): (r: Bytes)
    requires |s| + 14 < 0x8000_0000
    ensures |r| == |s| + 14
    ensures r[..|s|] == s
    ensures forall i :: |s| <= i < |s| + VERSION_STAMP_PAD ==> r[i] == 0
    ensures FromLittleEndian32(r[|s| + VERSION_STAMP_PAD..]) == |s|
  {
    var pad: Bytes := [0, 0, 0, 0, 0, 0, 0, 0, 0, 0];
    var r := s + pad + LittleEndian32(|s|);
    assert r[..|s|] == s;
    assert r[|s| + VERSION_STAMP_PAD..] == LittleEndian32(|s|);
    LittleEndian32RoundTrip(|s|);
    r
  }

  /** Reads back a stamped string: the payload, if the suffix has the layout
      addVersionStampAtEnd writes. */
  function StripVersionStamp(r: Bytes): (s: Option<Bytes>)
    ensures s.Some? ==> |r| == |s.value| + 14 && r[..|s.value|] == s.value
  {
    if |r| < 14 then None
    else
      var n := |r| - 14;
      if FromLittleEndian32(r[n + VERSION_STAMP_PAD..]) == n
         && forall i :: n <= i < n + VERSION_STAMP_PAD ==> r[i] == 0
      then Some(r[..n])
      else None
  }

  lemma VersionStampRoundTrip(s: Bytes)
    requires |s| + 14 < 0x8000_0000
    ensures StripVersionStamp(AddVersionStampAtEnd(s)) == Some(s)
  {
  }

  /** Stamping loses nothing: different strings get different stamped forms. */
  lemma VersionStampInjective(s: Bytes, t: Bytes)
    requires |s| + 14 < 0x8000_0000 && |t| + 14 < 0x8000_0000
    requires AddVersionStampAtEnd(s) == AddVersionStampAtEnd(t)
    ensures s == t
  {
    VersionStampRoundTrip(s);
    VersionStampRoundTrip(t);
  }

  // ---------------------------------------------------------------------------
  // getSBVar

  /** Whether buggify is on, and the decision already drawn for each
      (file, line) section. */
  datatype BuggifyState = BuggifyState(activated: bool, sections: map<(string, int), int>)

  /** getSBVar. `draw` is the outcome of the random draw (random01() is below
      the activation probability), used only for a section seen the first time. */
  function GetSBVar(st: BuggifyState, file: string, line: int, draw: bool): (r: (int, BuggifyState))
    ensures r.0 == 0 || r.0 == 1
    ensures !st.activated ==> r.0 == 0 && r.1 == st
    ensures r.1.activated == st.activated
    ensures st.activated ==> (file, line) in r.1.sections && r.0 == r.1.sections[(file, line)]
    ensures (file, line) in st.sections ==> r.1 == st
    ensures st.activated && (file, line) !in st.sections ==>
      r.1.sections == st.sections[(file, line) := r.0] && (r.0 == 1 <==> draw)
    requires WellFormedBuggify(st)
  {
    if !st.activated then (0, st)
    else if (file, line) in st.sections then (st.sections[(file, line)], st)
    else
      var v := if draw then 1 else 0;
      (v, st.(sections := st.sections[(file, line) := v]))
  }

  datatype SBQuery = SBQuery(file: string, line: int, draw: bool)

  predicate WellFormedBuggify(st: BuggifyState) {
    forall k :: k in st.sections ==> st.sections[k] == 0 || st.sections[k] == 1
  }

  /** A sequence of getSBVar calls: the answers and the final state. */
  function RunSBVars(st: BuggifyState, qs: seq<SBQuery>): (r: (seq<int>, BuggifyState))
    requires WellFormedBuggify(st)
    ensures |r.0| == |qs| && WellFormedBuggify(r.1)
    ensures st.sections.Keys <= r.1.sections.Keys
    decreases |qs|
  {
    if |qs| == 0 then ([], st)
    else
      var (v, st1) := GetSBVar(st, qs[0].file, qs[0].line, qs[0].draw);
      var (vs, st2) := RunSBVars(st1, qs[1..]);
      ([v] + vs, st2)
  }

  /** Once a section's decision is drawn, every later call for that section
      answers it, whatever the later draws are. */
  lemma {:induction false} SBVarStable(st: BuggifyState, qs: seq<SBQuery>, file: string, line: int)
    requires WellFormedBuggify(st) && st.activated && (file, line) in st.sections
    ensures var (vs, fin) := RunSBVars(st, qs);
      fin.sections[(file, line)] == st.sections[(file, line)]
      && forall i :: 0 <= i < |qs| && qs[i].file == file && qs[i].line == line ==>
           vs[i] == st.sections[(file, line)]
    decreases |qs|
  {
    if |qs| > 0 {
      var (v, st1) := GetSBVar(st, qs[0].file, qs[0].line, qs[0].draw);
      assert st1.sections[(file, line)] == st.sections[(file, line)];
      SBVarStable(st1, qs[1..], file, line);
      var (vs, fin) := RunSBVars(st, qs);
      forall i | 0 <= i < |qs| && qs[i].file == file && qs[i].line == line
        ensures vs[i] == st.sections[(file, line)]
      {
        if i > 0 {
          assert qs[1..][i - 1] == qs[i];
        }
      }
    }
  }

  /** With buggify off every call answers 0 and nothing is remembered. */
  lemma {:induction false} SBVarOff(st: BuggifyState, qs: seq<SBQuery>)
    requires WellFormedBuggify(st) && !st.activated
    ensures var (vs, fin) := RunSBVars(st, qs);
      fin == st && forall i :: 0 <= i < |vs| ==> vs[i] == 0
    decreases |qs|
  {
    if |qs| > 0 {
      SBVarOff(st, qs[1..]);
    }
  }
}
