/** Trace files on disk (flow/FileTraceLogWriter.cpp): error reporting, the
    write loop, choosing the next file name, and deleting old files to stay
    within a size budget. System calls appear as the sequence of results they
    return; directory listings and file sizes are inputs. */
module TraceFiles {
  import opened Base

  const EINTR: int := 4
  const EEXIST: int := 17

  /** lastError: whether the error is reported to onError. Success and an
      interrupted call are not. */
  function LastError(err: int): (reported: bool)
    ensures reported <==> err != 0 && err != EINTR
  {
    err != 0 && err != EINTR
  }

  // ---------------------------------------------------------------------------
  // write

  /** What one write(2) call did: wrote `count` > 0 bytes, or returned
      nothing with errno set. */
  datatype WriteReturn = Wrote(count: nat) | WriteFailed(errno: int)

  /** The system honours the request: a successful call writes at least one
      byte and no more than it was asked for. */
  predicate HonoursRequests(rets: seq<WriteReturn>, remaining: nat)
    decreases |rets|
  {
    |rets| == 0 || remaining == 0 ||
    (if rets[0].Wrote? then 1 <= rets[0].count <= remaining && HonoursRequests(rets[1..], remaining - rets[0].count)
     else HonoursRequests(rets[1..], remaining))
  }

  /** How many failed calls among the first n are reported to onError. */
  function ReportedFailures(rets: seq<WriteReturn>, n: nat): nat
    requires n <= |rets|
  {
    if n == 0 then 0
    else ReportedFailures(rets, n - 1) + (if rets[n - 1].WriteFailed? && LastError(rets[n - 1].errno) then 1 else 0)
  }

  /** write: call write(2) until every byte is out. Each successful call emits
      the next piece of the string; a failure is reported (unless EINTR) and
      retried. The model stops early only when the given call results run out. */
  method Write(str: string, rets: seq<WriteReturn>) returns (chunks: seq<string>, calls: nat, reported: nat, remaining: nat)
    requires HonoursRequests(rets, |str|)
    ensures remaining <= |str| && calls <= |rets|
    ensures Flatten(chunks) == str[..|str| - remaining]
    ensures remaining == 0 || calls == |rets|
    ensures reported == ReportedFailures(rets, calls)
    ensures |str| == 0 ==> calls == 0 && chunks == []
  {
    chunks := [];
    calls := 0;
    reported := 0;
    remaining := |str|;
    while remaining != 0 && calls < |rets|
      invariant remaining <= |str| && calls <= |rets|
      invariant HonoursRequests(rets[calls..], remaining)
      invariant Flatten(chunks) == str[..|str| - remaining]
      invariant reported == ReportedFailures(rets, calls)
      invariant |str| == 0 ==> calls == 0 && chunks == []
      decreases |rets| - calls
    {
      var ret := rets[calls];
      assert rets[calls..][1..] == rets[calls + 1..];
      if ret.Wrote? {
        var pos := |str| - remaining;
        var piece := str[pos..pos + ret.count];
        FlattenSnoc(chunks, piece);
        assert str[..pos] + piece == str[..pos + ret.count];
        chunks := chunks + [piece];
        remaining := remaining - ret.count;
      } else if LastError(ret.errno) {
        reported := reported + 1;
      }
      calls := calls + 1;
    }
  }

  // ---------------------------------------------------------------------------
  // open

  /** What one open(2) call with O_CREAT|O_EXCL did. */
  datatype OpenReturn = OpenOk | OpenFailed(errno: int)

  /** `%s.%d.%s` of the base name, index and extension. */
  function TraceFileName(basename: string, index: int, extension: string): string {
    CStr(basename) + "." + IntToDecimal(index) + "." + CStr(extension)
  }

  /** The indices of the names open tried (name i is
      TraceFileName(basename, indices[i], extension)), the index it ended
      with, whether it got a file, and how many failures it reported. */
  datatype OpenAttempts = OpenAttempts(indices: seq<int>, index: int, success: bool, reported: nat)

  /** How many of the first n failed opens are reported to onError. */
  function ReportedOpenFailures(rets: seq<OpenReturn>, n: nat): nat
    requires n <= |rets|
  {
    if n == 0 then 0
    else ReportedOpenFailures(rets, n - 1) + (if rets[n - 1].OpenFailed? && LastError(rets[n - 1].errno) then 1 else 0)
  }

  /** open's loop once `index` names the file to try: an existing file moves
      on to the next index, any other failure retries the same name, and the
      first success ends the loop. */
  function OpenLoop(index: int, rets: seq<OpenReturn>): (r: OpenAttempts)
    ensures |r.indices| <= |rets|
    ensures !r.success ==> |r.indices| == |rets|
    ensures |r.indices| > 0 ==> r.indices[0] == index
    ensures r.success ==> |r.indices| > 0 && r.index == r.indices[|r.indices| - 1]
    decreases |rets|
  {
    if |rets| == 0 then OpenAttempts([], index, false, 0)
    else if rets[0].OpenOk? then OpenAttempts([index], index, true, 0)
    else
      var next := if rets[0].errno == EEXIST then index + 1 else index;
      var rest := OpenLoop(next, rets[1..]);
      OpenAttempts([index] + rest.indices, rest.index, rest.success,
                   rest.reported + (if LastError(rets[0].errno) then 1 else 0))
  }

  /** open stops at the first success and only there; every attempt before it failed. */
  lemma {:induction false} OpenLoopOutcomes(index: int, rets: seq<OpenReturn>)
    ensures var r := OpenLoop(index, rets);
      (r.success <==> OpenOk in rets)
      && (r.success ==> |r.indices| > 0 && rets[|r.indices| - 1] == OpenOk)
      && (forall i :: 0 <= i < |r.indices| - 1 ==> rets[i].OpenFailed?)
      && (!r.success ==> forall i :: 0 <= i < |rets| ==> rets[i].OpenFailed?)
    decreases |rets|
  {
    if |rets| > 0 && rets[0].OpenFailed? {
      var next := if rets[0].errno == EEXIST then index + 1 else index;
      OpenLoopOutcomes(next, rets[1..]);
      FailedHead(rets);
    }
  }

  /** After a failed first open, the rest of the returns decide the outcome. */
  lemma FailedHead(rets: seq<OpenReturn>)
    requires |rets| > 0 && rets[0].OpenFailed?
    ensures OpenOk in rets <==> OpenOk in rets[1..]
    ensures forall i :: 0 < i < |rets| ==> rets[i] == rets[1..][i - 1]
  {
    ConsTail(rets);
  }

  /** Each index follows the one before it: one higher after EEXIST, the
      same after any other failure. */
  predicate StepsFollow(indices: seq<int>, rets: seq<OpenReturn>)
    requires |indices| <= |rets|
  {
    forall i :: 0 < i < |indices| ==>
      indices[i] == indices[i - 1] + (if rets[i - 1] == OpenFailed(EEXIST) then 1 else 0)
  }

  /** The index advances by one after EEXIST and stays after any other failure. */
  lemma {:induction false} OpenLoopSteps(index: int, rets: seq<OpenReturn>)
    ensures StepsFollow(OpenLoop(index, rets).indices, rets)
    decreases |rets|
  {
    if |rets| > 0 && rets[0].OpenFailed? {
      var next := if rets[0].errno == EEXIST then index + 1 else index;
      OpenLoopSteps(next, rets[1..]);
      var r := OpenLoop(index, rets);
      var rest := OpenLoop(next, rets[1..]);
      assert StepsFollow(rest.indices, rets[1..]);
      forall i | 0 < i < |r.indices|
        ensures r.indices[i] == r.indices[i - 1] + (if rets[i - 1] == OpenFailed(EEXIST) then 1 else 0)
      {
        assert r.indices[i] == rest.indices[i - 1];
        if i > 1 {
          assert rets[i - 1] == rets[1..][i - 2];
          assert r.indices[i - 1] == rest.indices[i - 2];
        }
      }
    }
  }

  /** Every failure open meets, except EINTR, is reported once. */
  lemma {:induction false} OpenLoopReported(index: int, rets: seq<OpenReturn>)
    ensures var r := OpenLoop(index, rets); r.reported == ReportedOpenFailures(rets, |r.indices|)
    decreases |rets|
  {
    if |rets| > 0 && rets[0].OpenFailed? {
      var next := if rets[0].errno == EEXIST then index + 1 else index;
      OpenLoopReported(next, rets[1..]);
      ReportedShift(rets, |OpenLoop(next, rets[1..]).indices|);
    }
  }

  lemma {:induction false} ReportedShift(rets: seq<OpenReturn>, n: nat)
    requires |rets| > 0 && n < |rets|
    ensures ReportedOpenFailures(rets, n + 1)
         == ReportedOpenFailures(rets[1..], n) + (if rets[0].OpenFailed? && LastError(rets[0].errno) then 1 else 0)
  {
    if n > 0 {
      ReportedShift(rets, n - 1);
      assert rets[1..][n - 1] == rets[n];
    }
  }

  /** open: the first name uses the index after the previous file's. */
  function OpenTraceFile(previousIndex: int, rets: seq<OpenReturn>): (r: OpenAttempts)
    ensures r.index >= previousIndex + 1
    ensures |r.indices| > 0 ==> r.indices[0] == previousIndex + 1
  {
    IndicesAscend(previousIndex + 1, rets);
    OpenLoop(previousIndex + 1, rets)
  }

  /** The indices open tries never go down and never fall below where it started. */
  lemma {:induction false} IndicesAscend(index: int, rets: seq<OpenReturn>)
    ensures var r := OpenLoop(index, rets);
      (forall i :: 0 <= i < |r.indices| ==> r.indices[i] >= index) && r.index >= index
    decreases |rets|
  {
    if |rets| > 0 && rets[0].OpenFailed? {
      var next := if rets[0].errno == EEXIST then index + 1 else index;
      IndicesAscend(next, rets[1..]);
    }
  }

  /** Each EEXIST moves to a fresh name: the names tried after one are all
      numbered above every name before it. */
  lemma ExistingNamesAreSkipped(index: int, rets: seq<OpenReturn>, i: nat, j: nat)
    requires var r := OpenLoop(index, rets); i < j < |r.indices| && rets[i] == OpenFailed(EEXIST)
    ensures var r := OpenLoop(index, rets); r.indices[j] > r.indices[i]
  {
    var r := OpenLoop(index, rets);
    OpenLoopSteps(index, rets);
    var k := i + 1;
    while k < j
      invariant i + 1 <= k <= j
      invariant r.indices[k] > r.indices[i]
    {
      k := k + 1;
    }
  }

  // ---------------------------------------------------------------------------
  // extractTraceFileNameInfo and compareTraceFileName

  datatype NameInfo = NameInfo(root: string, index: int)

  /** find_last_of(c, pos): the last position at most pos holding c, or -1
      (npos); a pos past the end searches the whole string. */
  function LastIndexAtOrBefore(s: string, c: char, pos: int): (k: int)
    ensures -1 <= k < |s| && (k == -1 || k <= pos)
    ensures k >= 0 ==> s[k] == c
    ensures forall j :: k < j < |s| && j <= pos ==> s[j] != c
    decreases pos
  {
    if pos < 0 then -1
    else if pos >= |s| then LastIndexAtOrBefore(s, c, |s| - 1)
    else if s[pos] == c then pos
    else LastIndexAtOrBefore(s, c, pos - 1)
  }

  /** What the `%d` conversion leaves in the index: the number read, -1 when
      the text is empty, and otherwise the value the variable already had. */
  function ScanIndex(text: string, prior: int): int {
    var r := ScanInt(CStr(text));
    if r.ScanEof? then -1 else if r.ScanNoMatch? then prior else r.value
  }

  /** extractTraceFileNameInfo as written: the last '.' at or before size-5
      splits root from index, and the index text runs up to size-3. */
  function ExtractAsWritten(filename: string, prior: int): (info: NameInfo)
  {
    var split := AsWrittenSplit(filename);
    var root := if split < 0 then filename else filename[..split];
    NameInfo(root, ScanIndex(AsWrittenIndexText(filename, split), prior))
  }

  /** find_last_of('.', size - 5) with the unsigned arithmetic spelled out:
      size-5 wraps below 5 (searching the whole name) and npos turns into -1. */
  function AsWrittenSplit(filename: string): (split: int)
    ensures -1 <= split < |filename|
  {
    var n := |filename|;
    var searchFrom := if n >= 5 then n - 5 else TWO_64 + n - 5;
    LastIndexAtOrBefore(filename, '.', searchFrom)
  }

  /** substr(split + 1, size - split - 4): the count is unsigned, and substr
      clamps a count that runs past the end. */
  function AsWrittenIndexText(filename: string, split: int): string
    requires -1 <= split < |filename|
  {
    var n := |filename|;
    var from := split + 1;
    var count := (n - split - 4) % TWO_64;
    var to := if from + count > n then n else from + count;
    filename[from..to]
  }

  /** compareTraceFileName as written; each index variable starts out with
      whatever value it happens to hold. */
  predicate CompareAsWritten(f1: string, f2: string, prior1: int, prior2: int) {
    var a := ExtractAsWritten(f1, prior1);
    var b := ExtractAsWritten(f2, prior2);
    if a.root != b.root then StrLess(a.root, b.root)
    else if a.index != b.index then a.index < b.index
    else StrLess(f1, f2)
  }

  /** The name without its ".extension", when it ends in one. */
  function Stem(filename: string, extension: string): (stem: string)
    ensures HasPrefix(filename, stem)
  {
    var suffix := "." + extension;
    if |filename| >= |suffix| && filename[|filename| - |suffix|..] == suffix
    then filename[..|filename| - |suffix|] else filename
  }

  /** The last '.' of the stem separates root and index; an index that does
      not read as a number is -1. */
  function SplitName(stem: string): (info: NameInfo)
  {
    var split := LastIndexAtOrBefore(stem, '.', |stem| - 1);
    var root := if split < 0 then stem else stem[..split];
    NameInfo(root, ScanIndex(stem[split + 1..], -1))
  }

  /** The extraction the comparator needs, for any extension: drop
      ".extension", then split at the last '.'. */
  function ExtractTraceFileNameInfo(filename: string, extension: string): (info: NameInfo)
  {
    SplitName(Stem(filename, extension))
  }

  /** compareTraceFileName: by root, then by index, then by the whole name. */
  predicate CompareTraceFileName(f1: string, f2: string, extension: string) {
    var a := ExtractTraceFileNameInfo(f1, extension);
    var b := ExtractTraceFileNameInfo(f2, extension);
    if a.root != b.root then StrLess(a.root, b.root)
    else if a.index != b.index then a.index < b.index
    else StrLess(f1, f2)
  }

  /** reverseCompareTraceFileName. */
  predicate ReverseCompareTraceFileName(f1: string, f2: string, extension: string) {
    CompareTraceFileName(f2, f1, extension)
  }

  lemma CompareIrreflexive(f: string, extension: string)
    ensures !CompareTraceFileName(f, f, extension)
  {
    LexIrreflexive(Codes(f));
  }

  lemma CompareTransitive(f1: string, f2: string, f3: string, extension: string)
    requires CompareTraceFileName(f1, f2, extension) && CompareTraceFileName(f2, f3, extension)
    ensures CompareTraceFileName(f1, f3, extension)
  {
    var a := ExtractTraceFileNameInfo(f1, extension);
    var b := ExtractTraceFileNameInfo(f2, extension);
    var c := ExtractTraceFileNameInfo(f3, extension);
    if a.root != b.root && b.root != c.root {
      LexTransitive(Codes(a.root), Codes(b.root), Codes(c.root));
      if a.root == c.root {
        LexAsymmetric(Codes(a.root), Codes(b.root));
      }
    } else if a.root == b.root && b.root == c.root && a.index == b.index && b.index == c.index {
      LexTransitive(Codes(f1), Codes(f2), Codes(f3));
    }
  }

  /** Any two different names are ordered one way or the other. */
  lemma CompareTotal(f1: string, f2: string, extension: string)
    requires f1 != f2
    ensures CompareTraceFileName(f1, f2, extension) || CompareTraceFileName(f2, f1, extension)
  {
    var a := ExtractTraceFileNameInfo(f1, extension);
    var b := ExtractTraceFileNameInfo(f2, extension);
    if a.root != b.root {
      StrTotal(a.root, b.root);
    } else {
      StrTotal(f1, f2);
    }
  }

  lemma LastDotOfName(b: string, d: string)
    requires '.' !in d
    ensures var stem := b + "." + d;
      LastIndexAtOrBefore(stem, '.', |stem| - 1) == |b|
  {
    var stem := b + "." + d;
    var k := LastIndexAtOrBefore(stem, '.', |stem| - 1);
    assert stem[|b|] == '.';
  }

  lemma DecimalHasNoDot(i: int)
    ensures '.' !in IntToDecimal(i)
  {
    NatToDecimalDigits(if i < 0 then -i else i);
  }

  lemma NatToDecimalDigits(n: nat)
    ensures AllDigits(NatToDecimal(n))
  {
  }

  /** `%d` reads back a decimal numeral followed by a non-digit. */
  lemma ScanIndexOfDecimal(n: nat, rest: string, prior: int)
    requires |rest| == 0 || !IsDigit(rest[0])
    requires forall i :: 0 <= i < |rest| ==> rest[i] != '\0'
    ensures ScanIndex(NatToDecimal(n) + rest, prior) == n
  {
    var d := NatToDecimal(n);
    NatToDecimalDigits(n);
    CStrNoNul(d + rest);
    ScanIntOfDecimal(n, rest);
  }

  lemma StemOfName(stem: string, extension: string)
    ensures Stem(stem + "." + extension, extension) == stem
  {
    var name := stem + "." + extension;
    assert name[|name| - |"." + extension|..] == "." + extension;
    assert name[..|stem|] == stem;
  }

  lemma SplitOfStem(b: string, d: string)
    requires '.' !in d
    ensures SplitName(b + "." + d) == NameInfo(b, ScanIndex(d, -1))
  {
    var stem := b + "." + d;
    LastDotOfName(b, d);
    assert stem[..|b|] == b;
    assert stem[|b| + 1..] == d;
  }

  /** A name open creates reads back as its base name and index. */
  lemma ExtractOfTraceFileName(basename: string, n: nat, extension: string)
    requires forall i :: 0 <= i < |basename| ==> basename[i] != '\0'
    requires forall i :: 0 <= i < |extension| ==> extension[i] != '\0'
    ensures ExtractTraceFileNameInfo(TraceFileName(basename, n, extension), extension) == NameInfo(basename, n)
  {
    CStrNoNul(basename);
    CStrNoNul(extension);
    var d := NatToDecimal(n);
    assert TraceFileName(basename, n, extension) == (basename + "." + d) + "." + extension;
    StemOfName(basename + "." + d, extension);
    DecimalHasNoDot(n);
    SplitOfStem(basename, d);
    ScanIndexOfDecimal(n, "", -1);
    assert d + "" == d;
  }

  /** Files of one base name sort by the number open gave them. */
  lemma CompareOrdersByIndex(basename: string, n1: nat, n2: nat, extension: string)
    requires forall i :: 0 <= i < |basename| ==> basename[i] != '\0'
    requires forall i :: 0 <= i < |extension| ==> extension[i] != '\0'
    ensures CompareTraceFileName(TraceFileName(basename, n1, extension), TraceFileName(basename, n2, extension), extension)
            <==> n1 < n2
  {
    ExtractOfTraceFileName(basename, n1, extension);
    ExtractOfTraceFileName(basename, n2, extension);
    if n1 == n2 {
      LexIrreflexive(Codes(TraceFileName(basename, n1, extension)));
    }
  }

  /** For the ".xml" files the comparator was written for, the code as written
      reads the same root and index. */
  lemma AsWrittenAgreesForXml(basename: string, n: nat, prior: int)
    requires forall i :: 0 <= i < |basename| ==> basename[i] != '\0'
    requires |TraceFileName(basename, n, "xml")| < TWO_64
    ensures ExtractAsWritten(TraceFileName(basename, n, "xml"), prior) == NameInfo(basename, n)
  {
    var d := NatToDecimal(n);
    var name := TraceFileName(basename, n, "xml");
    XmlNameLayout(basename, n);
    assert name[..|basename|] == basename;
    ScanIndexOfDecimal(n, ".", prior);
  }

  /** In `base.N.xml` the code as written splits at the dot after the base
      name and reads the index from "N.". */
  lemma XmlNameLayout(basename: string, n: nat)
    requires forall i :: 0 <= i < |basename| ==> basename[i] != '\0'
    requires |TraceFileName(basename, n, "xml")| < TWO_64
    ensures var name := TraceFileName(basename, n, "xml");
      name == basename + "." + NatToDecimal(n) + ".xml"
      && AsWrittenSplit(name) == |basename|
      && AsWrittenIndexText(name, |basename|) == NatToDecimal(n) + "."
  {
    CStrNoNul(basename);
    CStrNoNul("xml");
    DecimalHasNoDot(n);
    assert TraceFileName(basename, n, "xml") == basename + "." + NatToDecimal(n) + ".xml";
    ThreeLetterSplit(basename, NatToDecimal(n), "xml");
  }

  /** The size-5 and size-3 arithmetic fits a three-letter extension. */
  lemma ThreeLetterSplit(b: string, d: string, e: string)
    requires '.' !in d && |d| > 0 && |e| == 3
    requires |d| + 1 < TWO_64
    ensures var name := b + "." + d + "." + e;
      AsWrittenSplit(name) == |b| && AsWrittenIndexText(name, |b|) == d + "."
  {
    var name := b + "." + d + "." + e;
    forall j | |b| < j <= |name| - 5
      ensures name[j] != '.'
    {
      assert name[j] == d[j - |b| - 1];
    }
    assert name[|b|] == '.';
    LastIndexFound(name, '.', |b|, |name| - 5);
    assert name[|b| + 1..|name| - 3] == d + ".";
  }

  /** find_last_of finds c at k when nothing after k, up to pos, is c. */
  lemma LastIndexFound(s: string, c: char, k: nat, pos: nat)
    requires k <= pos < |s| && s[k] == c
    requires forall j :: k < j <= pos ==> s[j] != c
    ensures LastIndexAtOrBefore(s, c, pos) == k
  {
  }

  /** On ".json" files the code as written splits at the extension's dot:
      "trace.10.json" is ranked older than "trace.9.json", whatever the
      uninitialised indices hold, so cleanup keeps the ninth file and
      deletes the tenth. */
  lemma AsWrittenMisordersJson(prior1: int, prior2: int)
    ensures CompareAsWritten("trace.10.json", "trace.9.json", prior1, prior2)
    ensures !CompareTraceFileName("trace.10.json", "trace.9.json", "json")
    ensures TraceFileName("trace", 10, "json") == "trace.10.json"
    ensures TraceFileName("trace", 9, "json") == "trace.9.json"
  {
    JsonExampleNames();
    JsonExampleAsWritten(prior1, prior2);
    JsonExampleCorrected();
  }

  /** The corrected comparator ranks the tenth file after the ninth. */
  lemma JsonExampleCorrected()
    ensures !CompareTraceFileName("trace.10.json", "trace.9.json", "json")
  {
    JsonExampleNames();
    CompareOrdersByIndex("trace", 10, 9, "json");
  }

  lemma JsonExampleNames()
    ensures TraceFileName("trace", 10, "json") == "trace.10.json"
    ensures TraceFileName("trace", 9, "json") == "trace.9.json"
  {
    CStrNoNul("trace");
    CStrNoNul("json");
    JsonExampleTenth();
    JsonExampleNinth();
  }

  lemma JsonExampleTenth()
    requires CStr("trace") == "trace" && CStr("json") == "json"
    ensures TraceFileName("trace", 10, "json") == "trace.10.json"
  {
    assert IntToDecimal(10) == "10";
  }

  lemma JsonExampleNinth()
    requires CStr("trace") == "trace" && CStr("json") == "json"
    ensures TraceFileName("trace", 9, "json") == "trace.9.json"
  {
    assert IntToDecimal(9) == "9";
  }

  /** As written, the roots are "trace.10" and "trace.9", and '1' < '9'. */
  lemma JsonExampleAsWritten(prior1: int, prior2: int)
    ensures CompareAsWritten("trace.10.json", "trace.9.json", prior1, prior2)
  {
    LastIndexFound("trace.10.json", '.', 8, 8);
    LastIndexFound("trace.9.json", '.', 7, 7);
    assert "trace.10.json"[..8] == "trace.10";
    assert "trace.9.json"[..7] == "trace.9";
    StrLessAt("trace.10", "trace.9", 6);
  }

  // ---------------------------------------------------------------------------
  // cleanupTraceFiles

  /** A comparator std::sort can use: irreflexive, transitive, and total on
      distinct names. */
  ghost predicate StrictTotalOrder(less: (string, string) -> bool) {
    (forall a :: !less(a, a))
    && (forall a, b, c :: less(a, b) && less(b, c) ==> less(a, c))
    && (forall a, b :: a != b ==> less(a, b) || less(b, a))
  }

  /** compareTraceFileName is such a comparator. */
  lemma CompareIsStrictTotalOrder(extension: string)
    ensures StrictTotalOrder((a, b) => CompareTraceFileName(a, b, extension))
  {
    forall a
      ensures !CompareTraceFileName(a, a, extension)
    {
      CompareIrreflexive(a, extension);
    }
    forall a, b, c | CompareTraceFileName(a, b, extension) && CompareTraceFileName(b, c, extension)
      ensures CompareTraceFileName(a, c, extension)
    {
      CompareTransitive(a, b, c, extension);
    }
    forall a, b | a != b
      ensures CompareTraceFileName(a, b, extension) || CompareTraceFileName(b, a, extension)
    {
      CompareTotal(a, b, extension);
    }
  }

  /** Sorted with the reversed comparator: nothing sorts below a later element. */
  predicate Descending(s: seq<string>, less: (string, string) -> bool) {
    forall i, j :: 0 <= i < j < |s| ==> !less(s[i], s[j])
  }

  function InsertDescending(x: string, s: seq<string>, less: (string, string) -> bool): (r: seq<string>)
    requires StrictTotalOrder(less) && Descending(s, less)
    ensures Descending(r, less)
    ensures multiset(r) == multiset(s) + multiset{x}
    decreases |s|
  {
    if |s| == 0 then [x]
    else if less(s[0], x) then
      InsertInFront(x, s, less);
      [x] + s
    else
      var tail := InsertDescending(x, s[1..], less);
      InsertBehind(x, s, tail, less);
      [s[0]] + tail
  }

  /** x goes first when the head sorts below it. */
  lemma InsertInFront(x: string, s: seq<string>, less: (string, string) -> bool)
    requires StrictTotalOrder(less) && Descending(s, less) && |s| > 0 && less(s[0], x)
    ensures Descending([x] + s, less)
  {
    var r := [x] + s;
    forall i, j | 0 <= i < j < |r|
      ensures !less(r[i], r[j])
    {
      if i == 0 {
        assert r[j] == s[j - 1];
        if j > 1 {
          assert !less(s[0], s[j - 1]);
        }
      } else {
        assert r[i] == s[i - 1] && r[j] == s[j - 1];
      }
    }
  }

  /** The head stays in front of the tail x was inserted into. */
  lemma InsertBehind(x: string, s: seq<string>, tail: seq<string>, less: (string, string) -> bool)
    requires StrictTotalOrder(less) && Descending(s, less) && |s| > 0 && !less(s[0], x)
    requires Descending(tail, less) && multiset(tail) == multiset(s[1..]) + multiset{x}
    ensures Descending([s[0]] + tail, less)
    ensures multiset([s[0]] + tail) == multiset(s) + multiset{x}
  {
    var r := [s[0]] + tail;
    ConsTail(s);
    forall j | 0 < j < |r|
      ensures !less(s[0], r[j])
    {
      assert r[j] == tail[j - 1];
      assert r[j] in multiset(tail);
      if r[j] != x {
        assert r[j] in multiset(s[1..]);
        var k :| 0 <= k < |s[1..]| && s[1..][k] == r[j];
        assert s[k + 1] == r[j];
      }
    }
    forall i, j | 0 <= i < j < |r|
      ensures !less(r[i], r[j])
    {
      if i > 0 {
        assert r[i] == tail[i - 1] && r[j] == tail[j - 1];
      }
    }
  }

  /** std::sort: the same names, in descending order of the comparator. */
  function SortDescending(s: seq<string>, less: (string, string) -> bool): (r: seq<string>)
    requires StrictTotalOrder(less)
    ensures Descending(r, less)
    ensures multiset(r) == multiset(s)
    decreases |s|
  {
    if |s| == 0 then []
    else
      assert s == [s[0]] + s[1..];
      InsertDescending(s[0], SortDescending(s[1..], less), less)
  }

  /** The listed files that belong to this process: substr(0, len) == processName. */
  function Candidates(listing: seq<string>, processName: string): (r: seq<string>)
    ensures forall i :: 0 <= i < |r| ==> HasPrefix(r[i], processName)
    ensures multiset(r) <= multiset(listing)
    ensures forall f :: f in listing && HasPrefix(f, processName) ==> f in r
    decreases |listing|
  {
    if |listing| == 0 then []
    else
      var rest := Candidates(listing[1..], processName);
      assert listing == [listing[0]] + listing[1..];
      if HasPrefix(listing[0], processName) then [listing[0]] + rest else rest
  }

  /** Total size counted for a list of files, each padded. */
  function CountedSize(files: seq<string>, sizeOf: string -> nat, pad: nat): nat
    decreases |files|
  {
    if |files| == 0 then 0 else CountedSize(files[..|files| - 1], sizeOf, pad) + sizeOf(files[|files| - 1]) + pad
  }

  /** How many files, newest first, the first loop walks past: it stops once
      the running total reaches the budget. */
  function KeptCount(files: seq<string>, sizeOf: string -> nat, pad: nat, maxLogsSize: nat): (k: nat)
    ensures k <= |files|
    ensures k == |files| || CountedSize(files[..k], sizeOf, pad) >= maxLogsSize
    ensures k > 0 ==> CountedSize(files[..k - 1], sizeOf, pad) < maxLogsSize
  {
    KeptFrom(files, sizeOf, pad, maxLogsSize, 0)
  }

  function KeptFrom(files: seq<string>, sizeOf: string -> nat, pad: nat, maxLogsSize: nat, i: nat): (k: nat)
    requires i <= |files|
    requires i == 0 || CountedSize(files[..i - 1], sizeOf, pad) < maxLogsSize
    ensures i <= k <= |files|
    ensures k == |files| || CountedSize(files[..k], sizeOf, pad) >= maxLogsSize
    ensures k > 0 ==> CountedSize(files[..k - 1], sizeOf, pad) < maxLogsSize
    decreases |files| - i
  {
    if CountedSize(files[..i], sizeOf, pad) >= maxLogsSize || i == |files| then i
    else KeptFrom(files, sizeOf, pad, maxLogsSize, i + 1)
  }

  /** The outcome of a cleanup: the files it walked past, newest first, and
      the files it deleted, in the order it deleted them. */
  datatype Cleanup = Cleanup(kept: seq<string>, deleted: seq<string>)

  /** Both loops of cleanupTraceFiles over the sorted names: walk past files
      until the running total reaches the budget, delete the rest. */
  function BudgetSplit(sorted: seq<string>, sizeOf: string -> nat, pad: nat, maxLogsSize: nat): (r: Cleanup)
    ensures r.kept + r.deleted == sorted
    ensures |r.deleted| == 0 || CountedSize(r.kept, sizeOf, pad) >= maxLogsSize
    ensures |r.kept| == 0 || CountedSize(r.kept[..|r.kept| - 1], sizeOf, pad) < maxLogsSize
  {
    var k := KeptCount(sorted, sizeOf, pad, maxLogsSize);
    assert sorted[..k] + sorted[k..] == sorted;
    assert k > 0 ==> sorted[..k][..k - 1] == sorted[..k - 1];
    Cleanup(sorted[..k], sorted[k..])
  }

  /** Newest first: no name sorts after a later one under compareTraceFileName. */
  predicate NewestFirst(s: seq<string>, extension: string) {
    forall i, j :: 0 <= i < j < |s| ==> !CompareTraceFileName(s[i], s[j], extension)
  }

  /** std::sort with reverseCompareTraceFileName. */
  function SortNewestFirst(files: seq<string>, extension: string): (r: seq<string>)
    ensures NewestFirst(r, extension)
    ensures multiset(r) == multiset(files)
  {
    CompareIsStrictTotalOrder(extension);
    var less := (a, b) => CompareTraceFileName(a, b, extension);
    var r := SortDescending(files, less);
    assert Descending(r, less);
    r
  }

  /** cleanupTraceFiles. Nothing happens in simulation or with a budget of 0.
      Otherwise the process's files are split into kept and deleted: no kept
      file is older than a deleted one, the kept files reach the budget (or
      are all there is), and without the oldest of them they stay below it. */
  function CleanupTraceFiles(listing: seq<string>, sizeOf: string -> nat, processName: string, extension: string,
                             maxLogsSize: uint64, pad: nat, isSimulated: bool): (r: Cleanup)
    ensures isSimulated || maxLogsSize == 0 ==> r == Cleanup([], [])
    ensures !isSimulated && maxLogsSize > 0 ==>
      multiset(r.kept) + multiset(r.deleted) == multiset(Candidates(listing, processName))
    ensures forall f :: f in r.deleted ==> HasPrefix(f, processName)
    ensures multiset(r.deleted) <= multiset(listing)
    ensures forall x, y :: x in r.kept && y in r.deleted ==> !CompareTraceFileName(x, y, extension)
    ensures |r.deleted| == 0 || CountedSize(r.kept, sizeOf, pad) >= maxLogsSize
    ensures |r.kept| == 0 || CountedSize(r.kept[..|r.kept| - 1], sizeOf, pad) < maxLogsSize
  {
    if isSimulated || maxLogsSize == 0 then Cleanup([], [])
    else
      CleanupOfSorted(listing, sizeOf, processName, extension, maxLogsSize, pad);
      BudgetSplit(SortNewestFirst(Candidates(listing, processName), extension), sizeOf, pad, maxLogsSize)
  }

  lemma CleanupOfSorted(listing: seq<string>, sizeOf: string -> nat, processName: string, extension: string,
                        maxLogsSize: nat, pad: nat)
    ensures var r := BudgetSplit(SortNewestFirst(Candidates(listing, processName), extension), sizeOf, pad, maxLogsSize);
      multiset(r.kept) + multiset(r.deleted) == multiset(Candidates(listing, processName))
      && (forall f :: f in r.deleted ==> HasPrefix(f, processName))
      && multiset(r.deleted) <= multiset(listing)
      && (forall x, y :: x in r.kept && y in r.deleted ==> !CompareTraceFileName(x, y, extension))
  {
    var r := BudgetSplit(SortNewestFirst(Candidates(listing, processName), extension), sizeOf, pad, maxLogsSize);
    NewestFirstParts(r.kept, r.deleted, extension);
    DeletedAreCandidates(listing, processName, r.kept, r.deleted);
  }

  /** Splitting the candidates in two: together the parts are the candidates,
      and every deleted file was listed and belongs to the process. */
  lemma DeletedAreCandidates(listing: seq<string>, processName: string, kept: seq<string>, deleted: seq<string>)
    requires multiset(kept + deleted) == multiset(Candidates(listing, processName))
    ensures multiset(kept) + multiset(deleted) == multiset(Candidates(listing, processName))
    ensures forall f :: f in deleted ==> HasPrefix(f, processName)
    ensures multiset(deleted) <= multiset(listing)
  {
    var candidates := Candidates(listing, processName);
    assert multiset(kept + deleted) == multiset(kept) + multiset(deleted);
    forall f | f in deleted
      ensures HasPrefix(f, processName)
    {
      assert f in multiset(candidates);
    }
  }

  /** Cut a newest-first sequence anywhere: nothing in the front part is
      older than anything in the back part. */
  lemma NewestFirstParts(front: seq<string>, back: seq<string>, extension: string)
    requires NewestFirst(front + back, extension)
    ensures forall x, y :: x in front && y in back ==> !CompareTraceFileName(x, y, extension)
  {
    var s := front + back;
    forall x, y | x in front && y in back
      ensures !CompareTraceFileName(x, y, extension)
    {
      var i :| 0 <= i < |front| && front[i] == x;
      var j :| 0 <= j < |back| && back[j] == y;
      assert s[i] == x && s[|front| + j] == y;
    }
  }
}
