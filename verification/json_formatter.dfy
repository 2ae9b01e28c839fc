/** The JSON trace formatter (flow/JsonTraceLogFormatter.cpp): one event per
    line as a flat JSON object of string fields, with a byte escaper. The
    strings are std::string contents, so every character is one byte. */
module JsonFormatter {
  import opened Base
  import opened FlowUtil
  import opened TraceFields

  const EXTENSION: string := "json"
  const HEADER: string := ""
  const FOOTER: string := ""

  /** A std::string's contents: characters 0 to 255. */
  predicate IsByteString(s: string) {
    forall i :: 0 <= i < |s| ==> s[i] as int < 0x100
  }

  /** isprint in the C locale: space to tilde. */
  predicate IsPrint(c: char) {
    ' ' <= c <= '~'
  }

  /** The escape of one byte. */
  function EscapeChar(c: char): (e: string)
    requires c as int < 0x100
    ensures |e| >= 1
    ensures e[0] == '\\' || (IsPrint(c) && c != '"' && c != '\\' && e == [c])
    ensures forall i :: 0 <= i < |e| ==> e[i] != '\n' && e[i] != '\r' && (e[i] != '"' || (i == 1 && c == '"'))
  {
    if c == '"' then "\\\""
    else if c == '\\' then "\\\\"
    else if c == '\n' then "\\n"
    else if c == '\r' then "\\r"
    else if IsPrint(c) then [c]
    else "\\x" + [HexDigitChar(c as int / 16), HexDigitChar(c as int % 16)]
  }

  /** escapeString: the bytes' escapes in order. */
  function Escape(s: string): (e: string)
    requires IsByteString(s)
    ensures |e| >= |s|
    decreases |s|
  {
    if |s| == 0 then "" else EscapeChar(s[0]) + Escape(s[1..])
  }

  /** Escaped text has no raw line break, and every quote in it is the second
      character of a backslash escape. */
  lemma {:induction false} EscapeIsQuoteSafe(s: string)
    requires IsByteString(s)
    ensures forall i :: 0 <= i < |Escape(s)| ==> Escape(s)[i] != '\n' && Escape(s)[i] != '\r'
    ensures forall i :: 0 <= i < |Escape(s)| && Escape(s)[i] == '"' ==> i > 0 && Escape(s)[i - 1] == '\\'
    decreases |s|
  {
    if |s| > 0 {
      EscapeIsQuoteSafe(s[1..]);
      var h := EscapeChar(s[0]);
      var e := Escape(s);
      assert e == h + Escape(s[1..]);
      forall i | 0 <= i < |e| && e[i] == '"'
        ensures i > 0 && e[i - 1] == '\\'
      {
        if i < |h| {
          assert i == 1 && s[0] == '"';
        } else {
          assert e[i] == Escape(s[1..])[i - |h|];
        }
      }
    }
  }

  // ---------------------------------------------------------------------------
  // Reading escaped text back

  /** The byte an escape sequence after a backslash stands for, and how many
      characters (after the backslash) it takes. */
  function DecodeEscape(t: string): (r: Option<(char, nat)>)
    ensures r.Some? ==> 1 <= r.value.1 <= |t|
  {
    if |t| == 0 then None
    else if t[0] == '"' then Some(('"', 1))
    else if t[0] == '\\' then Some(('\\', 1))
    else if t[0] == 'n' then Some(('\n', 1))
    else if t[0] == 'r' then Some(('\r', 1))
    else if t[0] == 'x' && |t| >= 3 && IsLowerHexDigit(t[1]) && IsLowerHexDigit(t[2]) then
      Some(((HexDigitValue(t[1]) * 16 + HexDigitValue(t[2])) as char, 3))
    else None
  }

  /** Reads a quoted string's body up to its closing quote, undoing the escapes;
      returns the text and what follows the quote. */
  function ReadQuoted(t: string): (r: Option<(string, string)>)
    ensures r.Some? ==> |r.value.1| < |t|
    decreases |t|
  {
    if |t| == 0 then None
    else if t[0] == '"' then Some(("", t[1..]))
    else if t[0] == '\\' then
      var d := DecodeEscape(t[1..]);
      if d.None? then None
      else
        var r := ReadQuoted(t[1 + d.value.1..]);
        if r.None? then None else Some(([d.value.0] + r.value.0, r.value.1))
    else if IsPrint(t[0]) then
      var r := ReadQuoted(t[1..]);
      if r.None? then None else Some(([t[0]] + r.value.0, r.value.1))
    else None
  }

  lemma DecodeEscapeChar(c: char, rest: string)
    requires c as int < 0x100
    requires EscapeChar(c)[0] == '\\'
    ensures DecodeEscape(EscapeChar(c)[1..] + rest) == Some((c, |EscapeChar(c)| - 1))
  {
    if !(c == '"' || c == '\\' || c == '\n' || c == '\r' || IsPrint(c)) {
      var t := EscapeChar(c)[1..] + rest;
      assert t[0] == 'x' && t[1] == HexDigitChar(c as int / 16) && t[2] == HexDigitChar(c as int % 16);
    }
  }

  lemma ReadOneChar(c: char, tail: string)
    requires c as int < 0x100
    ensures ReadQuoted(EscapeChar(c) + tail)
         == (var r := ReadQuoted(tail); if r.None? then None else Some(([c] + r.value.0, r.value.1)))
  {
    var t := EscapeChar(c) + tail;
    if EscapeChar(c)[0] == '\\' {
      DecodeEscapeChar(c, tail);
      assert t[1..] == EscapeChar(c)[1..] + tail;
      assert t[1 + |EscapeChar(c)| - 1..] == tail;
    } else {
      assert t[1..] == tail;
    }
  }

  /** Escaping, then reading back up to the closing quote, recovers the string
      and the text after the quote. */
  lemma {:induction false} ReadQuotedEscape(s: string, rest: string)
    requires IsByteString(s)
    ensures ReadQuoted(Escape(s) + "\"" + rest) == Some((s, rest))
    decreases |s|
  {
    if |s| == 0 {
      ReadQuotedClose(rest);
    } else {
      var tail := Escape(s[1..]) + "\"" + rest;
      ReadQuotedEscape(s[1..], rest);
      EscapeCons(s, rest);
      ReadOneChar(s[0], tail);
      assert [s[0]] + s[1..] == s;
    }
  }

  lemma ReadQuotedClose(rest: string)
    ensures ReadQuoted(Escape("") + "\"" + rest) == Some(("", rest))
  {
    assert Escape("") + "\"" + rest == "\"" + rest;
    assert ("\"" + rest)[1..] == rest;
  }

  lemma EscapeCons(s: string, rest: string)
    requires IsByteString(s) && |s| > 0
    ensures Escape(s) + "\"" + rest == EscapeChar(s[0]) + (Escape(s[1..]) + "\"" + rest)
  {
    var h, e, q := EscapeChar(s[0]), Escape(s[1..]), "\"";
    assert Escape(s) == h + e;
    ConcatAssoc(h, e, q);
    ConcatAssoc(h, e + q, rest);
  }

  /** Distinct byte strings escape to distinct texts. */
  lemma EscapeInjective(a: string, b: string)
    requires IsByteString(a) && IsByteString(b)
    requires Escape(a) == Escape(b)
    ensures a == b
  {
    ReadQuotedEscape(a, "");
    ReadQuotedEscape(b, "");
  }

  // ---------------------------------------------------------------------------
  // formatEvent

  const EVENT_OPEN: string := "{  "
  const EVENT_CLOSE: string := " }\r\n"
  const FIELD_SEPARATOR: string := ", "
  const KEY_VALUE_SEPARATOR: string := ": \""

  predicate ByteFields(fs: seq<Field>) {
    forall i :: 0 <= i < |fs| ==> IsByteString(fs[i].key) && IsByteString(fs[i].value)
  }

  /** One field as `"key": "value"` with both sides escaped. */
  function FieldJson(f: Field): string
    requires IsByteString(f.key) && IsByteString(f.value)
  {
    "\"" + Escape(f.key) + "\": \"" + Escape(f.value) + "\""
  }

  /** formatEvent: the fields in order inside braces, one event per CRLF line. */
  function FormatEvent(fs: seq<Field>): (t: string)
    requires ByteFields(fs)
    ensures HasPrefix(t, EVENT_OPEN)
    ensures |t| >= |EVENT_OPEN| + |EVENT_CLOSE| && t[|t| - |EVENT_CLOSE|..] == EVENT_CLOSE
  {
    EVENT_OPEN + Join(FIELD_SEPARATOR, FieldTexts(fs)) + EVENT_CLOSE
  }

  function FieldTexts(fs: seq<Field>): (r: seq<string>)
    requires ByteFields(fs)
    ensures |r| == |fs| && forall i :: 0 <= i < |fs| ==> r[i] == FieldJson(fs[i])
  {
    seq(|fs|, i requires 0 <= i < |fs| => FieldJson(fs[i]))
  }

  /** The formatted field list, split after its first field. */
  lemma BodyCons(fs: seq<Field>)
    requires |fs| >= 2 && ByteFields(fs)
    ensures Join(FIELD_SEPARATOR, FieldTexts(fs)) + EVENT_CLOSE
         == FieldJson(fs[0]) + (FIELD_SEPARATOR + (Join(FIELD_SEPARATOR, FieldTexts(fs[1..])) + EVENT_CLOSE))
  {
    assert FieldTexts(fs)[1..] == FieldTexts(fs[1..]);
  }

  lemma BodySingle(fs: seq<Field>)
    requires |fs| == 1 && ByteFields(fs)
    ensures Join(FIELD_SEPARATOR, FieldTexts(fs)) + EVENT_CLOSE == FieldJson(fs[0]) + EVENT_CLOSE
  {
  }

  lemma EmptyEvent()
    ensures FormatEvent([]) == "{   }\r\n"
  {
  }

  /** Reads `"key": "value"` pairs separated by ", " up to the closing " }\r\n". */
  function ParseFieldList(t: string): (r: Option<seq<Field>>)
    decreases |t|
  {
    if |t| == 0 || t[0] != '"' then None
    else
      var k := ReadQuoted(t[1..]);
      if k.None? || !HasPrefix(k.value.1, KEY_VALUE_SEPARATOR) then None
      else
        var v := ReadQuoted(k.value.1[|KEY_VALUE_SEPARATOR|..]);
        if v.None? then None
        else if v.value.1 == EVENT_CLOSE then Some([Field(k.value.0, v.value.0)])
        else if HasPrefix(v.value.1, FIELD_SEPARATOR) then
          var more := ParseFieldList(v.value.1[|FIELD_SEPARATOR|..]);
          if more.None? then None else Some([Field(k.value.0, v.value.0)] + more.value)
        else None
  }

  /** Reads back one formatted event line. */
  function ParseEvent(t: string): (r: Option<seq<Field>>)
  {
    if !HasPrefix(t, EVENT_OPEN) then None
    else if t[|EVENT_OPEN|..] == EVENT_CLOSE then Some([])
    else ParseFieldList(t[|EVENT_OPEN|..])
  }

  /** The layout of `"k": "v"` followed by more text, regrouped for reading. */
  lemma FieldLayout(ek: string, ev: string, after: string)
    ensures var t := "\"" + ek + "\": \"" + ev + "\"" + after;
      t[1..] == ek + "\"" + (KEY_VALUE_SEPARATOR + ev + "\"" + after)
      && (KEY_VALUE_SEPARATOR + ev + "\"" + after)[|KEY_VALUE_SEPARATOR|..] == ev + "\"" + after
  {
  }

  lemma ParseFieldJson(f: Field, after: string)
    requires IsByteString(f.key) && IsByteString(f.value)
    ensures var t := FieldJson(f) + after;
      var k := ReadQuoted(t[1..]);
      k.Some? && k.value.0 == f.key && HasPrefix(k.value.1, KEY_VALUE_SEPARATOR)
      && ReadQuoted(k.value.1[|KEY_VALUE_SEPARATOR|..]) == Some((f.value, after))
  {
    var ek := Escape(f.key);
    var ev := Escape(f.value);
    FieldLayout(ek, ev, after);
    ReadQuotedEscape(f.key, KEY_VALUE_SEPARATOR + ev + "\"" + after);
    ReadQuotedEscape(f.value, after);
  }

  /** Reading a field list that starts with one formatted field. */
  lemma ParseFieldListStep(f: Field, after: string)
    requires IsByteString(f.key) && IsByteString(f.value)
    ensures ParseFieldList(FieldJson(f) + after)
         == if after == EVENT_CLOSE then Some([f])
            else if HasPrefix(after, FIELD_SEPARATOR) then
              (var more := ParseFieldList(after[|FIELD_SEPARATOR|..]);
               if more.None? then None else Some([f] + more.value))
            else None
  {
    ParseFieldJson(f, after);
    assert (FieldJson(f) + after)[0] == '"';
  }

  lemma {:induction false} ParseFieldListJoin(fs: seq<Field>)
    requires |fs| > 0 && ByteFields(fs)
    ensures ParseFieldList(Join(FIELD_SEPARATOR, FieldTexts(fs)) + EVENT_CLOSE) == Some(fs)
    decreases |fs|
  {
    if |fs| == 1 {
      BodySingle(fs);
      ParseFieldListStep(fs[0], EVENT_CLOSE);
      assert fs == [fs[0]];
    } else {
      var rest := Join(FIELD_SEPARATOR, FieldTexts(fs[1..])) + EVENT_CLOSE;
      BodyCons(fs);
      ParseFieldListJoin(fs[1..]);
      ParseFieldListMore(fs[0], rest);
      ConsTail(fs);
    }
  }

  /** A formatted field, the separator, then the rest of the list. */
  lemma ParseFieldListMore(f: Field, rest: string)
    requires IsByteString(f.key) && IsByteString(f.value)
    ensures var more := ParseFieldList(rest);
      ParseFieldList(FieldJson(f) + (FIELD_SEPARATOR + rest))
        == if more.None? then None else Some([f] + more.value)
  {
    var after := FIELD_SEPARATOR + rest;
    ParseFieldListStep(f, after);
    assert after[0] != EVENT_CLOSE[0];
    SplitAtPrefix(FIELD_SEPARATOR, rest);
  }

  /** formatEvent loses nothing: the line reads back as the same fields in
      the same order. */
  lemma FormatEventRoundTrip(fs: seq<Field>)
    requires ByteFields(fs)
    ensures ParseEvent(FormatEvent(fs)) == Some(fs)
  {
    var t := FormatEvent(fs);
    var j := Join(FIELD_SEPARATOR, FieldTexts(fs));
    ConcatAssoc(EVENT_OPEN, j, EVENT_CLOSE);
    SplitAtPrefix(EVENT_OPEN, j + EVENT_CLOSE);
    if |fs| > 0 {
      ParseFieldListJoin(fs);
      if |fs| == 1 {
        BodySingle(fs);
      } else {
        BodyCons(fs);
      }
      assert (j + EVENT_CLOSE)[0] == '"';
    } else {
      assert j + EVENT_CLOSE == EVENT_CLOSE;
    }
  }
}
