/** The fields of a trace event (flow/Trace.cpp): an ordered list of
    key/value pairs with a running byte count, lookup by key, the `"k"="v"`
    rendering, the detail-name rule and the per-detail truncation. */
module TraceFields {
  import opened Base

  datatype Field = Field(key: string, value: string)

  /** TraceEventFields: the fields in insertion order and `bytes`, the
      running total sizeBytes() reports. */
  datatype EventFields = EventFields(fields: seq<Field>, bytes: nat)

  /** Total length of all keys and values. */
  function FieldBytes(fields: seq<Field>): nat
  {
    if |fields| == 0 then 0
    else FieldBytes(fields[..|fields| - 1]) + |fields[|fields| - 1].key| + |fields[|fields| - 1].value|
  }

  /** The byte count agrees with the fields. */
  predicate Valid(e: EventFields) {
    e.bytes == FieldBytes(e.fields)
  }

  const NoFields: EventFields := EventFields([], 0)

  /** addField: append the pair and add its length to the byte count. */
  function AddField(e: EventFields, key: string, value: string): (r: EventFields)
    ensures r.fields == e.fields + [Field(key, value)]
    ensures Valid(e) ==> Valid(r)
  {
    var r := EventFields(e.fields + [Field(key, value)], e.bytes + |key| + |value|);
    assert r.fields[..|r.fields| - 1] == e.fields;
    r
  }

  /** Adds the pairs one after the other, as a sequence of addField calls does. */
  function AddFields(e: EventFields, pairs: seq<Field>): (r: EventFields)
    decreases |pairs|
  {
    if |pairs| == 0 then e
    else AddFields(AddField(e, pairs[0].key, pairs[0].value), pairs[1..])
  }

  /** The pairs land after the existing fields, and the byte count stays right. */
  lemma {:induction false} AddFieldsAppends(e: EventFields, pairs: seq<Field>)
    ensures AddFields(e, pairs).fields == e.fields + pairs
    ensures Valid(e) ==> Valid(AddFields(e, pairs))
    decreases |pairs|
  {
    if |pairs| == 0 {
      assert e.fields + pairs == e.fields;
    } else {
      var e1 := AddField(e, pairs[0].key, pairs[0].value);
      AddFieldsAppends(e1, pairs[1..]);
      ConsTail(pairs);
      ConcatAssoc(e.fields, [pairs[0]], pairs[1..]);
    }
  }

  lemma {:induction false} FieldBytesAppend(a: seq<Field>, b: seq<Field>)
    ensures FieldBytes(a + b) == FieldBytes(a) + FieldBytes(b)
    decreases |b|
  {
    if |b| == 0 {
      assert a + b == a;
    } else {
      FieldBytesAppend(a, b[..|b| - 1]);
      assert (a + b)[..|a + b| - 1] == a + b[..|b| - 1];
    }
  }

  /** After any sequence of addField calls from an empty event, size() is the
      number of calls, the fields are the pairs in call order, and sizeBytes()
      is the total length of all keys and values. */
  lemma {:induction false} AddFieldsAccounting(e: EventFields, pairs: seq<Field>)
    requires Valid(e)
    ensures AddFields(e, pairs).fields == e.fields + pairs
    ensures |AddFields(e, pairs).fields| == |e.fields| + |pairs|
    ensures AddFields(e, pairs).bytes == e.bytes + FieldBytes(pairs)
    decreases |pairs|
  {
    if |pairs| > 0 {
      var e1 := AddField(e, pairs[0].key, pairs[0].value);
      AddFieldsAccounting(e1, pairs[1..]);
      assert [pairs[0]] + pairs[1..] == pairs;
      FieldBytesAppend([pairs[0]], pairs[1..]);
      assert FieldBytes([pairs[0]]) == |pairs[0].key| + |pairs[0].value| by {
        assert [pairs[0]][..0] == [];
      }
    } else {
      assert e.fields + pairs == e.fields;
    }
  }

  // ---------------------------------------------------------------------------
  // Lookup

  predicate HasKey(e: EventFields, key: string) {
    exists i :: 0 <= i < |e.fields| && e.fields[i].key == key
  }

  /** tryGetValue: the value of the first field with the key; when there is
      none, `outValue` comes back as it was passed in. */
  function TryGetValue(e: EventFields, key: string, outValue: string): (r: (bool, string))
    ensures r.0 <==> HasKey(e, key)
    ensures !r.0 ==> r.1 == outValue
    ensures r.0 ==> exists i :: 0 <= i < |e.fields| && e.fields[i].key == key && r.1 == e.fields[i].value
                          && (forall j :: 0 <= j < i ==> e.fields[j].key != key)
    decreases |e.fields|
  {
    if |e.fields| == 0 then (false, outValue)
    else if e.fields[0].key == key then (true, e.fields[0].value)
    else
      var rest := EventFields(e.fields[1..], 0);
      var r := TryGetValue(rest, key, outValue);
      assert forall i :: 1 <= i < |e.fields| ==> e.fields[i] == rest.fields[i - 1];
      if r.0 then
        var i :| 0 <= i < |rest.fields| && rest.fields[i].key == key && r.1 == rest.fields[i].value
          && forall j :: 0 <= j < i ==> rest.fields[j].key != key;
        assert e.fields[i + 1].key == key && forall j :: 0 <= j < i + 1 ==> e.fields[j].key != key;
        r
      else
        r
  }

  datatype FieldError = AttributeNotFound

  /** getValue: tryGetValue, or attribute_not_found. */
  function GetValue(e: EventFields, key: string): (r: Result<string, FieldError>)
    ensures r.Err? <==> !HasKey(e, key)
    ensures r.Ok? ==> r.value == TryGetValue(e, key, "").1
  {
    var (found, value) := TryGetValue(e, key, "");
    if found then Ok(value) else Err(AttributeNotFound)
  }

  /** The first field with a key is the one lookup finds: adding another field
      with the same key later does not change the answer. */
  lemma LookupIgnoresLaterDuplicates(e: EventFields, key: string, value: string, outValue: string)
    requires HasKey(e, key)
    ensures TryGetValue(AddField(e, key, value), key, outValue) == TryGetValue(e, key, outValue)
  {
    LookupInPrefix(e.fields, [Field(key, value)], e.bytes, e.bytes + |key| + |value|, key, outValue);
  }

  /** Lookup of a key the front part holds never looks past the front part. */
  lemma {:induction false} LookupInPrefix(front: seq<Field>, back: seq<Field>, bytes1: nat, bytes2: nat,
                                          key: string, outValue: string)
    requires HasKey(EventFields(front, bytes1), key)
    ensures TryGetValue(EventFields(front + back, bytes2), key, outValue)
         == TryGetValue(EventFields(front, bytes1), key, outValue)
    decreases |front|
  {
    if front[0].key != key {
      var i :| 0 <= i < |front| && front[i].key == key;
      assert front[1..][i - 1].key == key;
      assert (front + back)[1..] == front[1..] + back;
      LookupInPrefix(front[1..], back, 0, 0, key, outValue);
    }
  }

  /** Lookup of a key the front part lacks reads the back part alone; the
      byte count plays no part in lookup. */
  lemma {:induction false} LookupPastFront(front: seq<Field>, back: seq<Field>, bytes1: nat, bytes2: nat,
                                           key: string, outValue: string)
    requires !HasKey(EventFields(front, bytes1), key)
    ensures TryGetValue(EventFields(front + back, bytes2), key, outValue)
         == TryGetValue(EventFields(back, 0), key, outValue)
    decreases |front|
  {
    if |front| == 0 {
      assert front + back == back;
      LookupIgnoresBytes(back, bytes2, key, outValue);
    } else {
      assert front[0].key != key;
      assert (front + back)[1..] == front[1..] + back;
      assert !HasKey(EventFields(front[1..], 0), key) by {
        forall i | 0 <= i < |front[1..]| ensures front[1..][i].key != key {
          assert front[1..][i] == front[i + 1];
        }
      }
      LookupPastFront(front[1..], back, 0, 0, key, outValue);
    }
  }

  lemma LookupIgnoresBytes(fields: seq<Field>, bytes: nat, key: string, outValue: string)
    ensures TryGetValue(EventFields(fields, bytes), key, outValue) == TryGetValue(EventFields(fields, 0), key, outValue)
  {
  }

  /** A key added to an event without it is found with the added value. */
  lemma LookupFindsNewKey(e: EventFields, key: string, value: string, outValue: string)
    requires !HasKey(e, key)
    ensures TryGetValue(AddField(e, key, value), key, outValue) == (true, value)
  {
    var e2 := AddField(e, key, value);
    assert e2.fields[|e.fields|].key == key;
    assert forall j :: 0 <= j < |e.fields| ==> e2.fields[j] == e.fields[j];
  }

  // ---------------------------------------------------------------------------
  // toString

  /** One field as `"%s"="%s"` of the key's and value's C strings. */
  function RenderField(f: Field): string {
    "\"" + CStr(f.key) + "\"=\"" + CStr(f.value) + "\""
  }

  /** toString: the rendered fields in order, separated by ", ". */
  function FieldsToString(e: EventFields): string {
    Join(", ", seq(|e.fields|, i requires 0 <= i < |e.fields| => RenderField(e.fields[i])))
  }

  lemma {:induction false} JoinAppend(sep: string, parts: seq<string>, last: string)
    ensures Join(sep, parts + [last]) == if |parts| == 0 then last else Join(sep, parts) + sep + last
    decreases |parts|
  {
    if |parts| == 1 {
      assert parts + [last] == [parts[0], last];
    } else if |parts| > 1 {
      assert (parts + [last])[1..] == parts[1..] + [last];
      JoinAppend(sep, parts[1..], last);
    }
  }

  /** Adding a field extends the text by its rendering, after a ", " when the
      event already had fields: separators only ever sit between fields. */
  lemma ToStringAfterAdd(e: EventFields, key: string, value: string)
    ensures FieldsToString(AddField(e, key, value))
         == if |e.fields| == 0 then RenderField(Field(key, value))
            else FieldsToString(e) + ", " + RenderField(Field(key, value))
  {
    var e2 := AddField(e, key, value);
    var parts := seq(|e.fields|, i requires 0 <= i < |e.fields| => RenderField(e.fields[i]));
    var parts2 := seq(|e2.fields|, i requires 0 <= i < |e2.fields| => RenderField(e2.fields[i]));
    assert parts2 == parts + [RenderField(Field(key, value))];
    JoinAppend(", ", parts, RenderField(Field(key, value)));
  }

  // ---------------------------------------------------------------------------
  // validateField

  predicate IsUpper(c: char) { 'A' <= c <= 'Z' }

  /** The detail-name rule, read declaratively on the C string k: it starts
      with an upper-case letter or an underscore; every underscore is allowed
      only when underscores are, and then must be followed by an upper-case
      letter unless the whole name starts with an underscore. */
  predicate WellFormedName(k: string, allowUnderscores: bool) {
    |k| > 0 && (IsUpper(k[0]) || k[0] == '_')
    && forall j :: 0 <= j < |k| && k[j] == '_' ==> UnderscoreAllowed(k, j, allowUnderscores)
  }

  /** The underscore at position j of k is acceptable. */
  predicate UnderscoreAllowed(k: string, j: nat, allowUnderscores: bool)
    requires j < |k|
  {
    allowUnderscores && (k[0] == '_' || (j + 1 < |k| && IsUpper(k[j + 1])))
  }

  /** validateField: the first-character test, then a scan from underscore to
      underscore. The character after a final underscore is the terminating NUL. */
  method ValidateField(key: string, allowUnderscores: bool) returns (ok: bool)
    ensures ok <==> WellFormedName(CStr(key), allowUnderscores)
  {
    var k := CStr(key);
    var first := if |k| > 0 then k[0] else '\0';
    if !IsUpper(first) && first != '_' {
      return false;
    }
    var i := 0;
    while i < |k|
      invariant 0 <= i <= |k|
      invariant forall j :: 0 <= j < i && k[j] == '_' ==> UnderscoreAllowed(k, j, allowUnderscores)
    {
      if k[i] == '_' {
        var next := if i + 1 < |k| then k[i + 1] else '\0';
        if !allowUnderscores || (!IsUpper(next) && first != '_' && first != '\0') {
          assert !UnderscoreAllowed(k, i, allowUnderscores);
          return false;
        }
      }
      i := i + 1;
    }
    return true;
  }

  /** The three rules, one by one: the empty name is refused; without
      underscores a name is an upper-case letter followed by no underscore;
      a name that starts with an underscore passes whenever underscores do. */
  lemma WellFormedNameRules(k: string, allowUnderscores: bool)
    ensures !WellFormedName("", allowUnderscores)
    ensures WellFormedName(k, false) <==> |k| > 0 && IsUpper(k[0]) && '_' !in k
    ensures |k| > 0 && k[0] == '_' ==> WellFormedName(k, true)
  {
  }

  // ---------------------------------------------------------------------------
  // detail

  const MAX_DETAIL_LENGTH: nat := 495
  const TRACE_EVENT_MAX_SIZE: nat := 4000

  /** The part of a trace event this model follows: whether it still records
      details, and its fields. */
  datatype TraceEvent = TraceEvent(enabled: bool, fields: EventFields)

  /** The value a detail stores: at most 495 characters of it, and "..." when
      it was cut. */
  function TruncateDetail(value: string): (v: string)
    ensures |value| <= MAX_DETAIL_LENGTH ==> v == value
    ensures |value| > MAX_DETAIL_LENGTH ==>
      |v| == MAX_DETAIL_LENGTH + 3 && v[..MAX_DETAIL_LENGTH] == value[..MAX_DETAIL_LENGTH]
      && v[MAX_DETAIL_LENGTH..] == "..."
  {
    if |value| > MAX_DETAIL_LENGTH then value[..MAX_DETAIL_LENGTH] + "..." else value
  }

  /** detailImpl: a disabled event ignores the detail; an enabled one records
      the truncated value and disables itself once its fields pass 4000 bytes. */
  function DetailImpl(ev: TraceEvent, key: string, value: string): (r: TraceEvent)
    ensures !ev.enabled ==> r == ev
    ensures ev.enabled ==>
      r.fields == AddField(ev.fields, key, TruncateDetail(value))
      && (r.enabled <==> r.fields.bytes <= TRACE_EVENT_MAX_SIZE)
  {
    if !ev.enabled then ev
    else
      var fields := AddField(ev.fields, key, TruncateDetail(value));
      TraceEvent(fields.bytes <= TRACE_EVENT_MAX_SIZE, fields)
  }

  function Details(ev: TraceEvent, pairs: seq<Field>): TraceEvent
    decreases |pairs|
  {
    if |pairs| == 0 then ev else Details(DetailImpl(ev, pairs[0].key, pairs[0].value), pairs[1..])
  }

  /** Over any sequence of details, an event that is still enabled is within
      4000 bytes, and once disabled it never records anything again. */
  lemma {:induction false} DetailsBounded(ev: TraceEvent, pairs: seq<Field>)
    requires ev.enabled ==> ev.fields.bytes <= TRACE_EVENT_MAX_SIZE
    ensures var r := Details(ev, pairs);
      (r.enabled ==> r.fields.bytes <= TRACE_EVENT_MAX_SIZE)
      && (!ev.enabled ==> r == ev)
      && (r.enabled ==> ev.enabled)
    decreases |pairs|
  {
    if |pairs| > 0 {
      DetailsBounded(DetailImpl(ev, pairs[0].key, pairs[0].value), pairs[1..]);
    }
  }
}
