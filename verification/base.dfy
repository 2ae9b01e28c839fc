/** Shared vocabulary for the flow model: failure-carrying results, fixed-width
    integers, decimal and hexadecimal text, joining, lexicographic order and
    the `%d` conversion of the C library's scanf family. */
module Base {

  datatype Option<T> = None | Some(value: T)

  datatype Result<T, E> = Ok(value: T) | Err(error: E)

  type byte = x: int | 0 <= x < 0x100
  type Bytes = seq<byte>
  type uint16 = x: int | 0 <= x < 0x1_0000
  type uint32 = x: int | 0 <= x < 0x1_0000_0000
  type uint64 = x: int | 0 <= x < 0x1_0000_0000_0000_0000

  const TWO_32: int := 0x1_0000_0000
  const TWO_64: int := 0x1_0000_0000_0000_0000

  function Pow(b: nat, e: nat): (r: nat)
    ensures b > 0 ==> r > 0
  {
    if e == 0 then 1 else b * Pow(b, e - 1)
  }

  // ---------------------------------------------------------------------------
  // Decimal text

  predicate IsDigit(c: char) { '0' <= c <= '9' }

  predicate AllDigits(s: string) {
    forall i :: 0 <= i < |s| ==> IsDigit(s[i])
  }

  function DigitValue(c: char): nat
    requires IsDigit(c)
  {
    (c as int) - ('0' as int)
  }

  function DigitChar(d: nat): (c: char)
    requires d < 10
    ensures IsDigit(c) && DigitValue(c) == d
  {
    (('0' as int) + d) as char
  }

  /** The text printf's `%d` produces for a non-negative value: no sign, no leading zeros. */
  function NatToDecimal(n: nat): (s: string)
    ensures 1 <= |s|
    ensures AllDigits(s)
    ensures |s| > 1 ==> s[0] != '0'
    decreases n
  {
    if n < 10 then [DigitChar(n)] else NatToDecimal(n / 10) + [DigitChar(n % 10)]
  }

  /** The text printf's `%d` produces for any int. */
  function IntToDecimal(i: int): string
  {
    if i < 0 then "-" + NatToDecimal(-i) else NatToDecimal(i)
  }

  /** The number a digit string denotes, most significant digit first. */
  function DecimalValue(s: string): nat
    requires AllDigits(s)
  {
    if |s| == 0 then 0 else DecimalValue(s[..|s| - 1]) * 10 + DigitValue(s[|s| - 1])
  }

  lemma {:induction false} DecimalRoundTrip(n: nat)
    ensures DecimalValue(NatToDecimal(n)) == n
    decreases n
  {
    if n >= 10 {
      var s := NatToDecimal(n);
      assert s[..|s| - 1] == NatToDecimal(n / 10);
      DecimalRoundTrip(n / 10);
    }
  }

  /** Length of the longest run of digits at the start of s. */
  function DigitRun(s: string): (k: nat)
    ensures k <= |s|
    ensures forall i :: 0 <= i < k ==> IsDigit(s[i])
    ensures k < |s| ==> !IsDigit(s[k])
  {
    if |s| == 0 || !IsDigit(s[0]) then 0 else 1 + DigitRun(s[1..])
  }

  lemma DigitRunAll(d: string, rest: string)
    requires AllDigits(d)
    requires |rest| == 0 || !IsDigit(rest[0])
    ensures DigitRun(d + rest) == |d|
  {
    if |d| > 0 {
      DropFirstOfAppend(d, rest);
      DigitRunAll(d[1..], rest);
    }
  }

  lemma DropFirstOfAppend<T>(a: seq<T>, b: seq<T>)
    requires |a| > 0
    ensures (a + b)[0] == a[0] && (a + b)[1..] == a[1..] + b
  {
  }

  // ---------------------------------------------------------------------------
  // The `%d` conversion of sscanf, also the front end of strtol/stoi

  /** isspace in the C locale. */
  predicate IsSpace(c: char) { c == ' ' || ('\t' <= c <= '\r') }

  function SkipSpace(s: string): (t: string)
    ensures IsTail(t, s)
    ensures |t| > 0 ==> !IsSpace(t[0])
  {
    if |s| > 0 && IsSpace(s[0]) then SkipSpace(s[1..]) else s
  }

  lemma SkipSpaceOfNonSpace(s: string)
    requires |s| > 0 && !IsSpace(s[0])
    ensures SkipSpace(s) == s
  {
  }

  datatype ScanResult =
    | ScanEof                            // input ended before a conversion started
    | ScanNoMatch                        // no digits where the number should be
    | Scanned(value: int, rest: string)  // the number and the unread text

  /** One `%d` conversion: leading white space, an optional sign, one or more digits. */
  function ScanInt(s: string): (r: ScanResult)
    ensures r.Scanned? ==> |r.rest| < |s| && IsTail(r.rest, s)
  {
    var t := SkipSpace(s);
    if |t| == 0 then ScanEof
    else
      var signed := t[0] == '-' || t[0] == '+';
      var u := if signed then t[1..] else t;
      var k := DigitRun(u);
      if k == 0 then ScanNoMatch
      else
        var magnitude: int := DecimalValue(u[..k]);
        TailOfDrop(t, if signed then 1 else 0);
        TailOfDrop(u, k);
        TailTrans(u, t, s);
        TailTrans(u[k..], u, s);
        Scanned(if t[0] == '-' then -magnitude else magnitude, u[k..])
  }

  /** A number printed by `%d` followed by a non-digit is read back by `%d`. */
  lemma ScanIntOfDecimal(n: nat, rest: string)
    requires |rest| == 0 || !IsDigit(rest[0])
    ensures ScanInt(NatToDecimal(n) + rest) == Scanned(n, rest)
  {
    var d := NatToDecimal(n);
    var s := d + rest;
    assert s[0] == d[0];
    ScanIntOfDigits(s);
    DigitRunAll(d, rest);
    assert s[..|d|] == d;
    assert s[|d|..] == rest;
    DecimalRoundTrip(n);
  }

  /** Text starting with a digit is read as its leading run of digits. */
  /** A decimal numeral alone scans back to its value. */
  lemma ScanDecimal(n: nat)
    ensures ScanInt(NatToDecimal(n)) == Scanned(n, "")
  {
    ScanIntOfDecimal(n, "");
    AppendNothing(NatToDecimal(n));
  }

  /** A decimal numeral holds no NUL, so it is its own C string. */
  lemma DecimalCStr(n: nat)
    ensures CStr(NatToDecimal(n)) == NatToDecimal(n)
  {
    var p := NatToDecimal(n);
    forall i | 0 <= i < |p|
      ensures p[i] != '\0'
    {
      assert IsDigit(p[i]);
    }
    CStrNoNul(p);
  }

  lemma ScanIntOfDigits(s: string)
    requires |s| > 0 && IsDigit(s[0])
    ensures ScanInt(s) == Scanned(DecimalValue(s[..DigitRun(s)]), s[DigitRun(s)..])
  {
    SkipSpaceOfNonSpace(s);
    assert s[0] != '-' && s[0] != '+';
  }

  // ---------------------------------------------------------------------------
  // Strings

  /** The C-string view of a std::string: everything before the first NUL. */
  function CStr(s: string): (r: string)
    ensures |r| <= |s| && r == s[..|r|]
    ensures forall i :: 0 <= i < |r| ==> r[i] != '\0'
    ensures |r| < |s| ==> s[|r|] == '\0'
  {
    if |s| == 0 || s[0] == '\0' then "" else [s[0]] + CStr(s[1..])
  }

  /** A string without NUL is its own C-string view. */
  lemma {:induction false} CStrNoNul(s: string)
    requires forall i :: 0 <= i < |s| ==> s[i] != '\0'
    ensures CStr(s) == s
  {
    if |s| > 0 {
      CStrNoNul(s[1..]);
    }
  }

  lemma ConcatAssoc<T>(a: seq<T>, b: seq<T>, c: seq<T>)
    ensures (a + b) + c == a + (b + c)
  {
  }

  lemma ConsTail<T>(s: seq<T>)
    requires |s| > 0
    ensures [s[0]] + s[1..] == s
  {
  }

  /** What follows a prefix, and the prefix itself. */
  lemma SplitAtPrefix<T>(a: seq<T>, b: seq<T>)
    ensures (a + b)[|a|..] == b && (a + b)[..|a|] == a
  {
  }

  lemma SliceSplit<T>(s: seq<T>, i: nat, j: nat, k: nat)
    requires i <= j <= k <= |s|
    ensures s[i..k] == s[i..j] + s[j..k]
  {
  }

  lemma AppendNothing<T>(s: seq<T>)
    ensures s + [] == s
  {
  }

  lemma TakeOfAppend<T>(a: seq<T>, b: seq<T>)
    ensures (a + b)[..|a|] == a
  {
  }

  lemma TakeOfAppend2<T>(a: seq<T>, b: seq<T>, c: seq<T>)
    ensures (a + b + c)[..|a|] == a
  {
    assert (a + b + c)[..|a|] == (a + b)[..|a + b|][..|a|];
  }

  lemma TakeAll<T>(s: seq<T>)
    ensures s[..|s|] == s
  {
  }

  /** Appending a sequence in two pieces, split at b. */
  lemma AppendInTwo<T>(c: seq<T>, d: seq<T>, b: nat)
    requires b <= |d|
    ensures (c + d[..b]) + d[b..] == c + d
  {
    ConcatAssoc(c, d[..b], d[b..]);
    assert d[..b] + d[b..] == d;
  }

  /** a is what is left of b once some prefix of b is dropped. */
  predicate IsTail<T(==)>(a: seq<T>, b: seq<T>) {
    |a| <= |b| && a == b[|b| - |a|..]
  }

  lemma TailOfDrop<T>(s: seq<T>, i: nat)
    requires i <= |s|
    ensures IsTail(s[i..], s)
  {
  }

  lemma TailTrans<T>(a: seq<T>, b: seq<T>, c: seq<T>)
    requires IsTail(a, b) && IsTail(b, c)
    ensures IsTail(a, c)
  {
    assert c[|c| - |b|..][|b| - |a|..] == c[|c| - |a|..];
  }

  predicate HasPrefix<T(==)>(s: seq<T>, p: seq<T>) {
    |p| <= |s| && s[..|p|] == p
  }

  /** The parts separated by sep, as a string join does it. */
  function Join(sep: string, parts: seq<string>): (r: string)
  {
    if |parts| == 0 then ""
    else if |parts| == 1 then parts[0]
    else parts[0] + sep + Join(sep, parts[1..])
  }

  function Count<T(==)>(s: seq<T>, x: T): (n: nat)
    ensures n <= |s|
  {
    if |s| == 0 then 0 else (if s[0] == x then 1 else 0) + Count(s[1..], x)
  }

  lemma {:induction false} CountAppend<T>(a: seq<T>, b: seq<T>, x: T)
    ensures Count(a + b, x) == Count(a, x) + Count(b, x)
  {
    if |a| > 0 {
      assert (a + b)[1..] == a[1..] + b;
      CountAppend(a[1..], b, x);
    } else {
      assert a + b == b;
    }
  }

  lemma {:induction false} CountAbsent<T>(s: seq<T>, x: T)
    requires x !in s
    ensures Count(s, x) == 0
  {
    if |s| > 0 {
      CountAbsent(s[1..], x);
    }
  }

  /** Position of the first x in s, or |s| when there is none. */
  function IndexOf<T(==)>(s: seq<T>, x: T): (k: nat)
    ensures k <= |s|
    ensures k < |s| ==> s[k] == x
    ensures x !in s[..k]
  {
    if |s| == 0 then 0 else if s[0] == x then 0 else 1 + IndexOf(s[1..], x)
  }

  /** The pieces of s between occurrences of sep, as a find-and-substr loop
      cuts them: one more piece than there are separators. */
  function Split(s: string, sep: char): (parts: seq<string>)
    ensures |parts| == Count(s, sep) + 1
    ensures forall i :: 0 <= i < |parts| ==> sep !in parts[i]
    decreases |s|
  {
    var k := IndexOf(s, sep);
    if k == |s| then
      assert s[..k] == s;
      CountAbsent(s, sep);
      [s]
    else
      assert s == s[..k] + [sep] + s[k + 1..];
      CountAppend(s[..k] + [sep], s[k + 1..], sep);
      CountAppend(s[..k], [sep], sep);
      CountAbsent(s[..k], sep);
      [s[..k]] + Split(s[k + 1..], sep)
  }

  /** Joining the pieces with the separator gives back the text. */
  lemma {:induction false} JoinSplit(s: string, sep: char)
    ensures Join([sep], Split(s, sep)) == s
    decreases |s|
  {
    var k := IndexOf(s, sep);
    if k < |s| {
      JoinSplit(s[k + 1..], sep);
      JoinCons([sep], s[..k], Split(s[k + 1..], sep));
      CutAround(s, k);
    } else {
      TakeAll(s);
    }
  }

  lemma JoinCons(sep: string, first: string, rest: seq<string>)
    requires |rest| > 0
    ensures Join(sep, [first] + rest) == first + sep + Join(sep, rest)
  {
    assert ([first] + rest)[1..] == rest;
  }

  /** A sequence is what comes before position k, the element there, and what follows. */
  lemma CutAround<T>(s: seq<T>, k: nat)
    requires k < |s|
    ensures s[..k] + [s[k]] + s[k + 1..] == s
  {
  }

  /** Splitting a join of separator-free pieces gives back the pieces. */
  lemma {:induction false} SplitJoin(parts: seq<string>, sep: char)
    requires |parts| > 0
    requires forall i :: 0 <= i < |parts| ==> sep !in parts[i]
    ensures Split(Join([sep], parts), sep) == parts
  {
    var p := parts[0];
    if |parts| == 1 {
      assert p[..|p|] == p;
    } else {
      var s := Join([sep], parts);
      var tail := Join([sep], parts[1..]);
      assert s == p + [sep] + tail;
      IndexOfAfter(p, sep, tail);
      assert s[..|p|] == p;
      assert s[|p| + 1..] == tail;
      SplitJoin(parts[1..], sep);
    }
  }

  lemma {:induction false} IndexOfAfter(p: string, sep: char, tail: string)
    requires sep !in p
    ensures IndexOf(p + [sep] + tail, sep) == |p|
  {
    if |p| > 0 {
      assert (p + [sep] + tail)[1..] == p[1..] + [sep] + tail;
      IndexOfAfter(p[1..], sep, tail);
    }
  }

  /** The pieces laid end to end. */
  function Flatten<T>(parts: seq<seq<T>>): seq<T>
    decreases |parts|
  {
    if |parts| == 0 then [] else Flatten(parts[..|parts| - 1]) + parts[|parts| - 1]
  }

  lemma FlattenSnoc<T>(parts: seq<seq<T>>, last: seq<T>)
    ensures Flatten(parts + [last]) == Flatten(parts) + last
  {
    assert (parts + [last])[..|parts|] == parts;
  }

  lemma {:induction false} FlattenCons<T>(first: seq<T>, rest: seq<seq<T>>)
    ensures Flatten([first] + rest) == first + Flatten(rest)
    decreases |rest|
  {
    if |rest| > 0 {
      var front := rest[..|rest| - 1];
      FlattenCons(first, front);
      assert ([first] + rest)[..|rest|] == [first] + front;
      assert rest[..|rest| - 1] == front;
    }
  }

  // ---------------------------------------------------------------------------
  // Lexicographic order: std::string and StringRef compare byte by byte,
  // and a proper prefix sorts first.

  function Codes(s: string): (r: seq<int>)
    ensures |r| == |s|
    ensures forall i :: 0 <= i < |s| ==> r[i] == s[i] as int
  {
    if |s| == 0 then [] else [s[0] as int] + Codes(s[1..])
  }

  predicate LexLess(a: seq<int>, b: seq<int>)
  {
    if |a| == 0 then |b| > 0
    else if |b| == 0 then false
    else if a[0] != b[0] then a[0] < b[0]
    else LexLess(a[1..], b[1..])
  }

  predicate StrLess(a: string, b: string) {
    LexLess(Codes(a), Codes(b))
  }

  lemma LexIrreflexive(a: seq<int>)
    ensures !LexLess(a, a)
  {
  }

  lemma LexTransitive(a: seq<int>, b: seq<int>, c: seq<int>)
    requires LexLess(a, b) && LexLess(b, c)
    ensures LexLess(a, c)
  {
    if |a| > 0 && |b| > 0 && |c| > 0 && a[0] == b[0] && b[0] == c[0] {
      LexTransitive(a[1..], b[1..], c[1..]);
    }
  }

  lemma LexTotal(a: seq<int>, b: seq<int>)
    requires a != b
    ensures LexLess(a, b) || LexLess(b, a)
  {
    if |a| > 0 && |b| > 0 && a[0] == b[0] {
      assert a == [a[0]] + a[1..] && b == [b[0]] + b[1..];
      LexTotal(a[1..], b[1..]);
    }
  }

  lemma LexAsymmetric(a: seq<int>, b: seq<int>)
    requires LexLess(a, b)
    ensures !LexLess(b, a)
  {
    if |a| > 0 && |b| > 0 && a[0] == b[0] {
      LexAsymmetric(a[1..], b[1..]);
    }
  }

  lemma CodesInjective(a: string, b: string)
    requires Codes(a) == Codes(b)
    ensures a == b
  {
    assert |a| == |b|;
    forall i | 0 <= i < |a|
      ensures a[i] == b[i]
    {
      assert Codes(a)[i] == Codes(b)[i];
    }
  }

  lemma StrTotal(a: string, b: string)
    requires a != b
    ensures StrLess(a, b) || StrLess(b, a)
  {
    if Codes(a) == Codes(b) {
      CodesInjective(a, b);
    }
    LexTotal(Codes(a), Codes(b));
  }

  /** Length of the longest common prefix of a and b. */
  function CommonPrefix(a: seq<int>, b: seq<int>): (k: nat)
    ensures k <= |a| && k <= |b|
    ensures a[..k] == b[..k]
    ensures k < |a| && k < |b| ==> a[k] != b[k]
  {
    if |a| == 0 || |b| == 0 || a[0] != b[0] then 0
    else
      var k := 1 + CommonPrefix(a[1..], b[1..]);
      assert a[..k] == [a[0]] + a[1..][..k - 1];
      assert b[..k] == [b[0]] + b[1..][..k - 1];
      k
  }

  /** a sorts before b exactly when a is a proper prefix of b, or at the
      first position where they differ a holds the smaller value. */
  lemma LexLessByCommonPrefix(a: seq<int>, b: seq<int>)
    ensures var k := CommonPrefix(a, b);
      LexLess(a, b) <==> (k == |a| && |a| < |b|) || (k < |a| && k < |b| && a[k] < b[k])
  {
    if |a| > 0 && |b| > 0 && a[0] == b[0] {
      LexLessByCommonPrefix(a[1..], b[1..]);
    }
  }

  /** Sequences agreeing on a prefix compare by what follows it. */
  lemma LexLessAt(a: seq<int>, b: seq<int>, k: nat)
    requires k <= |a| && k <= |b| && a[..k] == b[..k]
    requires (k == |a| && k < |b|) || (k < |a| && k < |b| && a[k] < b[k])
    ensures LexLess(a, b)
  {
    if k > 0 {
      assert a[0] == a[..k][0] && b[0] == b[..k][0];
      assert a[1..][..k - 1] == a[..k][1..] && b[1..][..k - 1] == b[..k][1..];
      LexLessAt(a[1..], b[1..], k - 1);
    }
  }

  /** Strings agreeing on a prefix compare by the character after it. */
  lemma StrLessAt(a: string, b: string, k: nat)
    requires k < |a| && k < |b| && a[..k] == b[..k] && a[k] < b[k]
    ensures StrLess(a, b)
  {
    var ca, cb := Codes(a), Codes(b);
    assert ca[..k] == cb[..k] by {
      forall i | 0 <= i < k
        ensures ca[i] == cb[i]
      {
        assert a[i] == a[..k][i] && b[i] == b[..k][i];
      }
    }
    LexLessAt(ca, cb, k);
  }

  /** No sequence sorts before one of its own prefixes. */
  lemma LexNotLessThanPrefix(a: seq<int>, p: seq<int>)
    requires HasPrefix(a, p)
    ensures !LexLess(a, p)
  {
    if |p| > 0 {
      assert a[1..][..|p| - 1] == p[1..];
      LexNotLessThanPrefix(a[1..], p[1..]);
    }
  }
}
