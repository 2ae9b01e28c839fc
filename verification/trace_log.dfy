/** The trace log's bookkeeping (flow/Trace.cpp): event suppression, the
    role multiset and its rendering, buffering before the log is open, the
    latest-event cache and the choice of output format. */
module TraceLog {
  import opened Base
  import opened FlowUtil
  import opened Network
  import opened TraceFields

  // ---------------------------------------------------------------------------
  // SuppressionMap

  /** When the current suppression window ends and how many events it has swallowed. */
  datatype SuppressionInfo = SuppressionInfo(endTime: real, suppressedEventCount: nat)

  type SuppressionMap = map<string, SuppressionInfo>

  /** The map the insertion works on: emptied once it holds `maxSuppressions` types. */
  function Pruned(m: SuppressionMap, maxSuppressions: nat): (p: SuppressionMap)
    ensures |m| >= maxSuppressions ==> p == map[]
    ensures |m| < maxSuppressions ==> p == m
  {
    if |m| >= maxSuppressions then map[] else m
  }

  /** checkAndInsertSuppression: -1 while `eventType` is inside its window
      (counting the event), otherwise the number of events the expired window
      swallowed, and a fresh window ending at now + duration. */
  function CheckAndInsertSuppression(m: SuppressionMap, eventType: string, duration: real, now: real,
                                     maxSuppressions: nat): (r: (int, SuppressionMap))
    ensures var p := Pruned(m, maxSuppressions);
      (r.0 == -1 <==> eventType in p && p[eventType].endTime > now)
      && (r.0 == -1 ==> r.1 == p[eventType := p[eventType].(suppressedEventCount := p[eventType].suppressedEventCount + 1)])
      && (r.0 != -1 ==> (r.1 == p[eventType := SuppressionInfo(now + duration, 0)]
                         && r.0 == (if eventType in p then p[eventType].suppressedEventCount else 0)))
  {
    var p := Pruned(m, maxSuppressions);
    if eventType !in p then
      (0 as int, p[eventType := SuppressionInfo(now + duration, 0)])
    else if p[eventType].endTime <= now then
      (p[eventType].suppressedEventCount as int, p[eventType := SuppressionInfo(now + duration, 0)])
    else
      (-1, p[eventType := p[eventType].(suppressedEventCount := p[eventType].suppressedEventCount + 1)])
  }

  /** The map never grows past its limit (a limit of 0 still lets one type in). */
  lemma SuppressionMapBounded(m: SuppressionMap, eventType: string, duration: real, now: real, maxSuppressions: nat)
    requires |m| <= maxSuppressions || |m| <= 1
    ensures var m2 := CheckAndInsertSuppression(m, eventType, duration, now, maxSuppressions).1;
      |m2| <= maxSuppressions || |m2| <= 1
  {
    var p := Pruned(m, maxSuppressions);
    var m2 := CheckAndInsertSuppression(m, eventType, duration, now, maxSuppressions).1;
    assert m2.Keys == p.Keys + {eventType};
    if |m| >= maxSuppressions {
      assert m2.Keys == {eventType};
    } else {
      assert |p.Keys + {eventType}| <= |p.Keys| + 1;
    }
  }

  /** The results of events of one type arriving at the given times. */
  function SuppressionRun(m: SuppressionMap, eventType: string, duration: real, times: seq<real>,
                          maxSuppressions: nat): (r: (seq<int>, SuppressionMap))
    ensures |r.0| == |times|
    decreases |times|
  {
    if |times| == 0 then ([], m)
    else
      var (x, m1) := CheckAndInsertSuppression(m, eventType, duration, times[0], maxSuppressions);
      var (xs, m2) := SuppressionRun(m1, eventType, duration, times[1..], maxSuppressions);
      ([x] + xs, m2)
  }

  /** Inside an open window every event is suppressed and counted, and the
      first event after the window reports exactly how many were swallowed. */
  lemma {:induction false} SuppressionWindow(m: SuppressionMap, eventType: string, duration: real,
                                             times: seq<real>, later: real, maxSuppressions: nat)
    requires |m| < maxSuppressions && eventType in m
    requires forall i :: 0 <= i < |times| ==> times[i] < m[eventType].endTime
    requires later >= m[eventType].endTime
    ensures var (xs, m2) := SuppressionRun(m, eventType, duration, times, maxSuppressions);
      (forall i :: 0 <= i < |xs| ==> xs[i] == -1)
      && eventType in m2 && |m2| == |m| && m2[eventType].endTime == m[eventType].endTime
      && m2[eventType].suppressedEventCount == m[eventType].suppressedEventCount + |times|
      && CheckAndInsertSuppression(m2, eventType, duration, later, maxSuppressions).0
         == m[eventType].suppressedEventCount + |times|
    decreases |times|
  {
    if |times| > 0 {
      var m1 := CheckAndInsertSuppression(m, eventType, duration, times[0], maxSuppressions).1;
      assert m1.Keys == m.Keys;
      SuppressionWindow(m1, eventType, duration, times[1..], later, maxSuppressions);
    }
  }

  // ---------------------------------------------------------------------------
  // RoleInfo

  /** One entry of the role map: a role and how many times it was added. */
  datatype RoleCount = RoleCount(role: string, count: nat)

  /** The role map as its entries in key order, and the cached text. */
  datatype RoleInfo = RoleInfo(roles: seq<RoleCount>, rolesString: string)

  function RoleNames(rs: seq<RoleCount>): (names: seq<string>)
    ensures |names| == |rs| && forall i :: 0 <= i < |rs| ==> names[i] == rs[i].role
  {
    seq(|rs|, i requires 0 <= i < |rs| => rs[i].role)
  }

  /** Keys strictly increasing, as std::map keeps them. */
  predicate SortedRoles(rs: seq<RoleCount>) {
    forall i, j :: 0 <= i < j < |rs| ==> StrLess(rs[i].role, rs[j].role)
  }

  /** Entries that reach zero are erased, so every count is positive. */
  predicate PositiveCounts(rs: seq<RoleCount>) {
    forall i :: 0 <= i < |rs| ==> rs[i].count > 0
  }

  /** refreshRolesString's result: the roles in key order, comma separated. */
  function RolesText(rs: seq<RoleCount>): string {
    Join(",", RoleNames(rs))
  }

  predicate ValidRoleInfo(r: RoleInfo) {
    SortedRoles(r.roles) && PositiveCounts(r.roles) && r.rolesString == RolesText(r.roles)
  }

  /** How many times the role is held: its count, or 0 without an entry. */
  function Multiplicity(rs: seq<RoleCount>, role: string): nat
    decreases |rs|
  {
    if |rs| == 0 then 0
    else if rs[0].role == role then rs[0].count
    else Multiplicity(rs[1..], role)
  }

  function RoleSet(rs: seq<RoleCount>): set<string> {
    set i | 0 <= i < |rs| :: rs[i].role
  }

  lemma SortedTail(rs: seq<RoleCount>)
    requires |rs| > 0 && SortedRoles(rs)
    ensures SortedRoles(rs[1..])
    ensures forall x :: x in RoleSet(rs[1..]) ==> StrLess(rs[0].role, x)
  {
    forall x | x in RoleSet(rs[1..])
      ensures StrLess(rs[0].role, x)
    {
      var i :| 0 <= i < |rs[1..]| && rs[1..][i].role == x;
      assert rs[i + 1].role == x;
    }
  }

  lemma SortedCons(c: RoleCount, rs: seq<RoleCount>)
    requires SortedRoles(rs)
    requires forall x :: x in RoleSet(rs) ==> StrLess(c.role, x)
    ensures SortedRoles([c] + rs)
  {
    var s := [c] + rs;
    forall i, j | 0 <= i < j < |s|
      ensures StrLess(s[i].role, s[j].role)
    {
      if i == 0 {
        assert s[j].role == rs[j - 1].role && rs[j - 1].role in RoleSet(rs);
      } else {
        assert s[i] == rs[i - 1] && s[j] == rs[j - 1];
      }
    }
  }

  lemma RoleSetCons(c: RoleCount, rs: seq<RoleCount>)
    ensures RoleSet([c] + rs) == {c.role} + RoleSet(rs)
  {
    var s := [c] + rs;
    forall x | x in RoleSet(s)
      ensures x in {c.role} + RoleSet(rs)
    {
      var i :| 0 <= i < |s| && s[i].role == x;
      if i > 0 {
        assert rs[i - 1].role == x;
      }
    }
    forall x | x in RoleSet(rs)
      ensures x in RoleSet(s)
    {
      var i :| 0 <= i < |rs| && rs[i].role == x;
      assert s[i + 1].role == x;
    }
    assert s[0].role == c.role;
  }

  /** ++roles[role]: increment the entry, inserting it in key order with count 1. */
  function IncrementRole(rs: seq<RoleCount>, role: string): (r: seq<RoleCount>)
    requires SortedRoles(rs)
    ensures SortedRoles(r)
    ensures RoleSet(r) == RoleSet(rs) + {role}
    ensures PositiveCounts(rs) ==> PositiveCounts(r)
    decreases |rs|
  {
    if |rs| == 0 then
      RoleSetCons(RoleCount(role, 1), rs);
      [RoleCount(role, 1)] + rs
    else if rs[0].role == role then
      ReplaceHead(rs, RoleCount(role, rs[0].count + 1));
      [RoleCount(role, rs[0].count + 1)] + rs[1..]
    else if StrLess(role, rs[0].role) then
      InsertFirst(rs, role);
      [RoleCount(role, 1)] + rs
    else
      SortedTail(rs);
      var tail := IncrementRole(rs[1..], role);
      InsertLater(rs, role, tail);
      [rs[0]] + tail
  }

  /** A key above the first one goes into the tail. */
  lemma InsertLater(rs: seq<RoleCount>, role: string, tail: seq<RoleCount>)
    requires |rs| > 0 && SortedRoles(rs) && role != rs[0].role && !StrLess(role, rs[0].role)
    requires SortedRoles(tail) && RoleSet(tail) == RoleSet(rs[1..]) + {role}
    ensures SortedRoles([rs[0]] + tail) && RoleSet([rs[0]] + tail) == RoleSet(rs) + {role}
    ensures PositiveCounts(rs) && PositiveCounts(tail) ==> PositiveCounts([rs[0]] + tail)
  {
    StrTotal(role, rs[0].role);
    KeepHead(rs, tail, {role});
  }

  /** A new entry for the head's key, with any count, keeps the keys and their order. */
  lemma ReplaceHead(rs: seq<RoleCount>, c: RoleCount)
    requires |rs| > 0 && SortedRoles(rs) && c.role == rs[0].role
    ensures SortedRoles([c] + rs[1..]) && RoleSet([c] + rs[1..]) == RoleSet(rs)
    ensures PositiveCounts(rs) && c.count > 0 ==> PositiveCounts([c] + rs[1..])
  {
    SortedTail(rs);
    SortedCons(c, rs[1..]);
    RoleSetCons(c, rs[1..]);
    RoleSetCons(rs[0], rs[1..]);
    ConsTail(rs);
  }

  /** Dropping the head keeps the order and loses only keys. */
  lemma DropFirst(rs: seq<RoleCount>)
    requires |rs| > 0 && SortedRoles(rs)
    ensures SortedRoles(rs[1..]) && RoleSet(rs[1..]) <= RoleSet(rs)
  {
    SortedTail(rs);
    RoleSetCons(rs[0], rs[1..]);
    ConsTail(rs);
  }

  /** A key below the first one goes in front. */
  lemma InsertFirst(rs: seq<RoleCount>, role: string)
    requires |rs| > 0 && SortedRoles(rs) && StrLess(role, rs[0].role)
    ensures SortedRoles([RoleCount(role, 1)] + rs)
    ensures RoleSet([RoleCount(role, 1)] + rs) == RoleSet(rs) + {role}
    ensures PositiveCounts(rs) ==> PositiveCounts([RoleCount(role, 1)] + rs)
  {
    forall x | x in RoleSet(rs)
      ensures StrLess(role, x)
    {
      if x != rs[0].role {
        SortedTail(rs);
        RoleSetCons(rs[0], rs[1..]);
        ConsTail(rs);
        LexTransitive(Codes(role), Codes(rs[0].role), Codes(x));
      }
    }
    SortedCons(RoleCount(role, 1), rs);
    RoleSetCons(RoleCount(role, 1), rs);
  }

  /** The head stays in front of a new tail drawn from the old tail's keys
      and keys above the head. */
  lemma KeepHead(rs: seq<RoleCount>, tail: seq<RoleCount>, extra: set<string>)
    requires |rs| > 0 && SortedRoles(rs) && SortedRoles(tail)
    requires RoleSet(tail) <= RoleSet(rs[1..]) + extra
    requires forall x :: x in extra ==> StrLess(rs[0].role, x)
    ensures SortedRoles([rs[0]] + tail)
    ensures RoleSet([rs[0]] + tail) == {rs[0].role} + RoleSet(tail)
    ensures RoleSet(rs) == {rs[0].role} + RoleSet(rs[1..])
    ensures PositiveCounts(rs) && PositiveCounts(tail) ==> PositiveCounts([rs[0]] + tail)
  {
    SortedTail(rs);
    SortedCons(rs[0], tail);
    RoleSetCons(rs[0], tail);
    RoleSetCons(rs[0], rs[1..]);
    ConsTail(rs);
  }

  /** --roles[role], erasing the entry when it reaches zero. */
  function DecrementRole(rs: seq<RoleCount>, role: string): (r: seq<RoleCount>)
    requires SortedRoles(rs)
    ensures SortedRoles(r)
    ensures RoleSet(r) <= RoleSet(rs)
    ensures PositiveCounts(rs) ==> PositiveCounts(r)
    decreases |rs|
  {
    if |rs| == 0 then rs
    else if rs[0].role == role then
      if rs[0].count <= 1 then
        DropFirst(rs);
        rs[1..]
      else
        ReplaceHead(rs, RoleCount(role, rs[0].count - 1));
        [RoleCount(role, rs[0].count - 1)] + rs[1..]
    else
      DropFirst(rs);
      var tail := DecrementRole(rs[1..], role);
      KeepHead(rs, tail, {});
      [rs[0]] + tail
  }

  /** addRole: count the role once more and refresh the text. */
  function AddRole(r: RoleInfo, role: string): (r2: RoleInfo)
    requires ValidRoleInfo(r)
    ensures ValidRoleInfo(r2)
    ensures Multiplicity(r2.roles, role) == Multiplicity(r.roles, role) + 1
    ensures forall other :: other != role ==> Multiplicity(r2.roles, other) == Multiplicity(r.roles, other)
  {
    var rs := IncrementRole(r.roles, role);
    IncrementMultiplicity(r.roles, role);
    RoleInfo(rs, RolesText(rs))
  }

  datatype RoleError = RoleNotFound

  /** removeRole: removing a role that is not held fails the assertion unless
      the process runs in simulation at the default address, where it is a no-op.
      Only an erased entry refreshes the text. */
  function RemoveRole(r: RoleInfo, role: string, simulatedAtDefaultAddress: bool): (res: Result<RoleInfo, RoleError>)
    requires ValidRoleInfo(r)
    ensures res.Err? <==> Multiplicity(r.roles, role) == 0 && !simulatedAtDefaultAddress
    ensures res.Ok? ==> ValidRoleInfo(res.value)
    ensures res.Ok? ==> Multiplicity(res.value.roles, role) == if Multiplicity(r.roles, role) == 0 then 0 else Multiplicity(r.roles, role) - 1
    ensures res.Ok? ==> forall other :: other != role ==> Multiplicity(res.value.roles, other) == Multiplicity(r.roles, other)
  {
    DecrementMultiplicity(r.roles, role);
    if Multiplicity(r.roles, role) == 0 then
      if simulatedAtDefaultAddress then Ok(r) else Err(RoleNotFound)
    else
      var rs := DecrementRole(r.roles, role);
      if Multiplicity(r.roles, role) == 1 then
        Ok(RoleInfo(rs, RolesText(rs)))
      else
        DecrementKeepsNames(r.roles, role);
        Ok(RoleInfo(rs, r.rolesString))
  }

  lemma {:induction false} IncrementMultiplicity(rs: seq<RoleCount>, role: string)
    requires SortedRoles(rs)
    ensures Multiplicity(IncrementRole(rs, role), role) == Multiplicity(rs, role) + 1
    ensures forall other :: other != role ==> Multiplicity(IncrementRole(rs, role), other) == Multiplicity(rs, other)
    decreases |rs|
  {
    if |rs| > 0 && rs[0].role != role {
      if StrLess(role, rs[0].role) {
        AbsentBelowFirst(rs, role);
      } else {
        SortedTail(rs);
        IncrementMultiplicity(rs[1..], role);
      }
    }
  }

  /** A role sorting before the first key of a sorted map is not held. */
  lemma AbsentBelowFirst(rs: seq<RoleCount>, role: string)
    requires |rs| > 0 && SortedRoles(rs) && StrLess(role, rs[0].role)
    ensures Multiplicity(rs, role) == 0
  {
    MultiplicityInSet(rs, role);
    if role in RoleSet(rs) {
      var i :| 0 <= i < |rs| && rs[i].role == role;
      if i == 0 {
        LexIrreflexive(Codes(role));
      } else {
        LexAsymmetric(Codes(role), Codes(rs[0].role));
      }
    }
  }

  lemma {:induction false} DecrementMultiplicity(rs: seq<RoleCount>, role: string)
    requires SortedRoles(rs)
    ensures Multiplicity(DecrementRole(rs, role), role) == if Multiplicity(rs, role) == 0 then 0 else Multiplicity(rs, role) - 1
    ensures forall other :: other != role ==> Multiplicity(DecrementRole(rs, role), other) == Multiplicity(rs, other)
    decreases |rs|
  {
    if |rs| > 0 {
      SortedTail(rs);
      if rs[0].role == role {
        if rs[0].count <= 1 {
          NotInTail(rs);
        }
      } else {
        DecrementMultiplicity(rs[1..], role);
      }
    }
  }

  /** In a sorted map the first key does not occur again. */
  lemma NotInTail(rs: seq<RoleCount>)
    requires |rs| > 0 && SortedRoles(rs)
    ensures Multiplicity(rs[1..], rs[0].role) == 0
  {
    SortedTail(rs);
    if Multiplicity(rs[1..], rs[0].role) != 0 {
      MultiplicityInSet(rs[1..], rs[0].role);
      LexIrreflexive(Codes(rs[0].role));
    }
  }

  /** A held role has an entry, and an entry is held. */
  lemma {:induction false} MultiplicityInSet(rs: seq<RoleCount>, role: string)
    ensures Multiplicity(rs, role) != 0 ==> role in RoleSet(rs)
    ensures PositiveCounts(rs) && role in RoleSet(rs) ==> Multiplicity(rs, role) > 0
    decreases |rs|
  {
    if |rs| > 0 {
      MultiplicityInSet(rs[1..], role);
      RoleSetCons(rs[0], rs[1..]);
      ConsTail(rs);
    }
  }

  /** A decrement that does not reach zero keeps every key: the text stays right
      without a refresh. */
  lemma {:induction false} DecrementKeepsNames(rs: seq<RoleCount>, role: string)
    requires SortedRoles(rs) && Multiplicity(rs, role) > 1
    ensures RoleNames(DecrementRole(rs, role)) == RoleNames(rs)
    decreases |rs|
  {
    ConsTail(rs);
    RoleNamesCons(rs[0], rs[1..]);
    if rs[0].role != role {
      SortedTail(rs);
      DecrementKeepsNames(rs[1..], role);
      RoleNamesCons(rs[0], DecrementRole(rs[1..], role));
    } else {
      RoleNamesCons(RoleCount(role, rs[0].count - 1), rs[1..]);
    }
  }

  lemma RoleNamesCons(c: RoleCount, rs: seq<RoleCount>)
    ensures RoleNames([c] + rs) == [c.role] + RoleNames(rs)
  {
  }

  /** The text lists exactly the held roles, each once, in sorted order. */
  lemma RolesStringListsHeldRoles(r: RoleInfo, role: string)
    requires ValidRoleInfo(r)
    ensures role in RoleNames(r.roles) <==> Multiplicity(r.roles, role) > 0
    ensures forall i, j :: 0 <= i < j < |RoleNames(r.roles)| ==> StrLess(RoleNames(r.roles)[i], RoleNames(r.roles)[j])
  {
    MultiplicityInSet(r.roles, role);
    if role in RoleNames(r.roles) {
      var i :| 0 <= i < |r.roles| && RoleNames(r.roles)[i] == role;
      assert role in RoleSet(r.roles);
    }
    if role in RoleSet(r.roles) {
      var i :| 0 <= i < |r.roles| && r.roles[i].role == role;
      assert RoleNames(r.roles)[i] == role;
    }
  }

  lemma {:induction false} IncrementThenDecrement(rs: seq<RoleCount>, role: string)
    requires SortedRoles(rs) && PositiveCounts(rs)
    ensures DecrementRole(IncrementRole(rs, role), role) == rs
    decreases |rs|
  {
    if |rs| > 0 {
      ConsTail(rs);
      if rs[0].role != role && !StrLess(role, rs[0].role) {
        SortedTail(rs);
        IncrementThenDecrement(rs[1..], role);
      }
    }
  }

  /** Removing a role right after adding it restores the role information exactly. */
  lemma RemoveAfterAdd(r: RoleInfo, role: string, simulatedAtDefaultAddress: bool)
    requires ValidRoleInfo(r)
    ensures RemoveRole(AddRole(r, role), role, simulatedAtDefaultAddress) == Ok(r)
  {
    IncrementThenDecrement(r.roles, role);
  }

  // ---------------------------------------------------------------------------
  // Buffering before the log is open

  const TRACE_LOG_MAX_PREOPEN_BUFFER: nat := 1000000

  /** The latest-event cache of the local address: events by tracking key. */
  type LatestCache = map<Bytes, EventFields>

  datatype LogState = LogState(
    isOpen: bool,
    eventBuffer: seq<EventFields>,
    bufferLength: int,
    preopenOverflowCount: nat,
    latest: LatestCache,
    latestError: Option<EventFields>,
    localAddress: Option<NetworkAddress>,
    logGroup: string,
    roleInfo: RoleInfo)

  /** Total size of a sequence of events. */
  function BufferBytes(events: seq<EventFields>): nat
    decreases |events|
  {
    if |events| == 0 then 0 else BufferBytes(events[..|events| - 1]) + events[|events| - 1].bytes
  }

  /** Before the log opens, bufferLength is the size of what is buffered and
      stays within the preopen limit; overflow leaves the buffer as it was. */
  predicate PreopenAccounted(st: LogState) {
    !st.isOpen ==> st.bufferLength == BufferBytes(st.eventBuffer) && st.bufferLength <= TRACE_LOG_MAX_PREOPEN_BUFFER
  }

  /** The fields annotateEvent appends: the machine address if known, the log
      group, and the roles when there are any. */
  function Annotations(st: LogState, codec: Ipv6Codec): (a: seq<Field>)
    ensures |a| == (if st.localAddress.Some? then 1 else 0) + 1 + (if |st.roleInfo.rolesString| > 0 then 1 else 0)
    ensures st.localAddress.Some? <==> a[0].key == "Machine"
    ensures st.localAddress.Some? ==>
      a[0] == Field("Machine", FormatIpPort(st.localAddress.value.ip, st.localAddress.value.port, codec))
    ensures a[if st.localAddress.Some? then 1 else 0] == Field("LogGroup", st.logGroup)
    ensures |st.roleInfo.rolesString| > 0 ==> a[|a| - 1] == Field("Roles", st.roleInfo.rolesString)
    ensures Field("Roles", st.roleInfo.rolesString) in a <==> |st.roleInfo.rolesString| > 0
  {
    var machine := if st.localAddress.Some? then
        [Field("Machine", FormatIpPort(st.localAddress.value.ip, st.localAddress.value.port, codec))]
      else [];
    var roles := if |st.roleInfo.rolesString| > 0 then [Field("Roles", st.roleInfo.rolesString)] else [];
    var a := machine + [Field("LogGroup", st.logGroup)] + roles;
    assert a[|machine|] == Field("LogGroup", st.logGroup);
    assert |roles| > 0 ==> a[|a| - 1] == Field("Roles", st.roleInfo.rolesString);
    a
  }

  /** annotateEvent: the annotations appended after the event's own fields. */
  function AnnotateEvent(st: LogState, fields: EventFields, codec: Ipv6Codec): (r: EventFields)
    ensures r.fields == fields.fields + Annotations(st, codec)
    ensures Valid(fields) ==> Valid(r)
  {
    AddFieldsAppends(fields, Annotations(st, codec));
    AddFields(fields, Annotations(st, codec))
  }

  /** Lookup over the annotations, and whatever follows them, finds the log
      group, and the machine address when it is known. */
  lemma AnnotationLookup(st: LogState, codec: Ipv6Codec, tail: seq<Field>, bytes: nat, outValue: string)
    ensures TryGetValue(EventFields(Annotations(st, codec) + tail, bytes), "LogGroup", outValue) == (true, st.logGroup)
    ensures st.localAddress.Some? ==>
      TryGetValue(EventFields(Annotations(st, codec) + tail, bytes), "Machine", outValue)
        == (true, FormatIpPort(st.localAddress.value.ip, st.localAddress.value.port, codec))
  {
    var fs := Annotations(st, codec) + tail;
    LookupIgnoresBytes(fs, bytes, "LogGroup", outValue);
    LookupIgnoresBytes(fs, bytes, "Machine", outValue);
    if st.localAddress.Some? {
      assert fs[0].key == "Machine" && fs[1] == Field("LogGroup", st.logGroup);
      assert TryGetValue(EventFields(fs, 0), "LogGroup", outValue) == TryGetValue(EventFields(fs[1..], 0), "LogGroup", outValue);
      assert fs[1..][0] == fs[1];
    } else {
      assert fs[0] == Field("LogGroup", st.logGroup);
    }
  }

  /** annotateEvent never hides the caller's fields: a key the event already
      has reads back as before. A log group or machine the event lacks is
      read from the annotations. */
  lemma AnnotateEventLookup(st: LogState, e: EventFields, codec: Ipv6Codec, key: string, outValue: string)
    ensures HasKey(e, key) ==>
      TryGetValue(AnnotateEvent(st, e, codec), key, outValue) == TryGetValue(e, key, outValue)
    ensures !HasKey(e, "LogGroup") ==>
      TryGetValue(AnnotateEvent(st, e, codec), "LogGroup", outValue) == (true, st.logGroup)
    ensures st.localAddress.Some? && !HasKey(e, "Machine") ==>
      TryGetValue(AnnotateEvent(st, e, codec), "Machine", outValue)
        == (true, FormatIpPort(st.localAddress.value.ip, st.localAddress.value.port, codec))
  {
    var r := AnnotateEvent(st, e, codec);
    var a := Annotations(st, codec);
    AppendNothing(a);
    AnnotationLookup(st, codec, [], 0, outValue);
    if HasKey(e, key) {
      LookupInPrefix(e.fields, a, e.bytes, r.bytes, key, outValue);
    }
    if !HasKey(e, "LogGroup") {
      LookupPastFront(e.fields, a, e.bytes, r.bytes, "LogGroup", outValue);
    }
    if st.localAddress.Some? && !HasKey(e, "Machine") {
      LookupPastFront(e.fields, a, e.bytes, r.bytes, "Machine", outValue);
    }
  }

  /** The event as writeEvent buffers it: annotated if the log is open, then
      marked when it is tracked. Its own fields stay in front. */
  function Marked(st: LogState, fields: EventFields, trackLatestKey: Bytes, codec: Ipv6Codec): (f: EventFields)
    ensures var marker := if |trackLatestKey| > 0 then [Field("TrackLatestType", "Original")] else [];
      f.fields == fields.fields + (if st.isOpen then Annotations(st, codec) else []) + marker
    ensures |f.fields| >= |fields.fields| && f.fields[..|fields.fields|] == fields.fields
  {
    var f1 := if st.isOpen then AnnotateEvent(st, fields, codec) else fields;
    var f2 := if |trackLatestKey| > 0 then AddField(f1, "TrackLatestType", "Original") else f1;
    var marker := if |trackLatestKey| > 0 then [Field("TrackLatestType", "Original")] else [];
    var extra := if st.isOpen then Annotations(st, codec) else [];
    AppendNothing(fields.fields);
    AppendNothing(f1.fields);
    TakeOfAppend2(fields.fields, extra, marker);
    f2
  }

  /** Bytes the "TrackLatestType"="Original" marker adds to a tracked event. */
  const TRACK_LATEST_BYTES: nat := 23

  /** writeEvent: annotate if open, mark tracked events, then either count an
      overflow (not open, and overflow has begun or the buffer would pass its
      limit) or buffer the event and record it in the latest-event cache. */
  function WriteEvent(st: LogState, fields: EventFields, trackLatestKey: Bytes, trackError: bool,
                      isNetworkThread: bool, codec: Ipv6Codec): (r: LogState)
    ensures PreopenAccounted(st) ==> PreopenAccounted(r)
    ensures r.isOpen == st.isOpen
    ensures var extra := if |trackLatestKey| > 0 then TRACK_LATEST_BYTES else 0;
      r.preopenOverflowCount != st.preopenOverflowCount
      <==> !st.isOpen && (st.preopenOverflowCount > 0 || st.bufferLength + fields.bytes + extra > TRACE_LOG_MAX_PREOPEN_BUFFER)
    ensures r.preopenOverflowCount != st.preopenOverflowCount ==>
      r == st.(preopenOverflowCount := st.preopenOverflowCount + 1)
    ensures r.preopenOverflowCount == st.preopenOverflowCount ==>
      |r.eventBuffer| == |st.eventBuffer| + 1 && r.eventBuffer[..|st.eventBuffer|] == st.eventBuffer
      && r.bufferLength == st.bufferLength + r.eventBuffer[|st.eventBuffer|].bytes
      && |r.eventBuffer[|st.eventBuffer|].fields| >= |fields.fields|
      && r.eventBuffer[|st.eventBuffer|].fields[..|fields.fields|] == fields.fields
      && (!st.isOpen ==> (r.eventBuffer[|st.eventBuffer|].fields
            == fields.fields + if |trackLatestKey| > 0 then [Field("TrackLatestType", "Original")] else []))
      && (|trackLatestKey| > 0 ==> r.latest == st.latest[trackLatestKey := r.eventBuffer[|st.eventBuffer|]])
      && (|trackLatestKey| == 0 ==> r.latest == st.latest)
      && (r.latestError == if trackError && isNetworkThread then Some(r.eventBuffer[|st.eventBuffer|]) else st.latestError)
  {
    var f2 := Marked(st, fields, trackLatestKey, codec);
    if !st.isOpen && (st.preopenOverflowCount > 0 || st.bufferLength + f2.bytes > TRACE_LOG_MAX_PREOPEN_BUFFER) then
      st.(preopenOverflowCount := st.preopenOverflowCount + 1)
    else
      var buffer := st.eventBuffer + [f2];
      TakeOfAppend(st.eventBuffer, [f2]);
      st.(eventBuffer := buffer,
          bufferLength := st.bufferLength + f2.bytes,
          latestError := if trackError && isNetworkThread then Some(f2) else st.latestError,
          latest := if |trackLatestKey| > 0 then st.latest[trackLatestKey := f2] else st.latest)
  }

  /** Once the preopen buffer has overflowed, every later event before the log
      opens is dropped and counted: the buffer keeps a prefix of the stream. */
  lemma {:induction false} OverflowIsSticky(st: LogState, events: seq<EventFields>, codec: Ipv6Codec)
    requires !st.isOpen && st.preopenOverflowCount > 0
    ensures WriteEvents(st, events, codec) == st.(preopenOverflowCount := st.preopenOverflowCount + |events|)
    decreases |events|
  {
    if |events| > 0 {
      var st1 := WriteEvent(st, events[0], [], false, false, codec);
      OverflowIsSticky(st1, events[1..], codec);
    }
  }

  /** A stream of untracked events written one after the other. */
  function WriteEvents(st: LogState, events: seq<EventFields>, codec: Ipv6Codec): (r: LogState)
    ensures r.isOpen == st.isOpen
    decreases |events|
  {
    if |events| == 0 then st
    else WriteEvents(WriteEvent(st, events[0], [], false, false, codec), events[1..], codec)
  }

  /** Before opening, any stream of events keeps the byte accounting and the
      1000000-byte bound. */
  lemma {:induction false} PreopenBounded(st: LogState, events: seq<EventFields>, codec: Ipv6Codec)
    requires PreopenAccounted(st)
    ensures PreopenAccounted(WriteEvents(st, events, codec))
    decreases |events|
  {
    if |events| > 0 {
      PreopenBounded(WriteEvent(st, events[0], [], false, false, codec), events[1..], codec);
    }
  }

  datatype OpenError = AlreadyOpen  // ASSERT(!writer && !opened) failing

  /** The log as open sees it once it has recorded the log group and the
      local address it was given. */
  function Named(st: LogState, logGroup: string, na: Option<NetworkAddress>): LogState {
    st.(logGroup := logGroup, localAddress := na)
  }

  /** open: the log group and the local address are recorded first, then the
      events buffered before opening are annotated with them; in simulation
      those events are discarded instead. The overflow count is reported once
      and reset, and bufferLength is left as it was. Opening a log that is
      already open fails its assertion. */
  function Open(st: LogState, logGroup: string, na: Option<NetworkAddress>, isSimulated: bool, codec: Ipv6Codec)
    : (r: Result<(LogState, Option<nat>), OpenError>)
    ensures r.Err? <==> st.isOpen
    ensures r.Ok? ==>
      var s := r.value.0;
      s.isOpen && s.preopenOverflowCount == 0
      && s.logGroup == logGroup && s.localAddress == na && s.roleInfo == st.roleInfo
      && s.bufferLength == st.bufferLength && s.latest == st.latest
      && r.value.1 == (if st.preopenOverflowCount > 0 then Some(st.preopenOverflowCount) else None)
      && (isSimulated ==> s.eventBuffer == [])
      && (!isSimulated ==> |s.eventBuffer| == |st.eventBuffer|)
    ensures r.Ok? && !isSimulated ==> forall i :: 0 <= i < |st.eventBuffer| ==>
      r.value.0.eventBuffer[i].fields == st.eventBuffer[i].fields + Annotations(Named(st, logGroup, na), codec)
  {
    if st.isOpen then Err(AlreadyOpen)
    else
      var named := Named(st, logGroup, na);
      var buffer := if isSimulated then [] else
        seq(|st.eventBuffer|, i requires 0 <= i < |st.eventBuffer| => AnnotateEvent(named, st.eventBuffer[i], codec));
      Ok((named.(isOpen := true, eventBuffer := buffer, preopenOverflowCount := 0),
          if st.preopenOverflowCount > 0 then Some(st.preopenOverflowCount) else None))
  }

  /** Every event buffered before open reads back the log group open was
      given, and the machine address when there is one, unless the event
      carried its own. */
  lemma OpenAnnotatesBuffered(st: LogState, logGroup: string, na: Option<NetworkAddress>, codec: Ipv6Codec,
                              i: nat, outValue: string)
    requires !st.isOpen && i < |st.eventBuffer|
    ensures var s := Open(st, logGroup, na, false, codec).value.0;
      (!HasKey(st.eventBuffer[i], "LogGroup") ==>
         TryGetValue(s.eventBuffer[i], "LogGroup", outValue) == (true, logGroup))
      && (na.Some? && !HasKey(st.eventBuffer[i], "Machine") ==>
         TryGetValue(s.eventBuffer[i], "Machine", outValue) == (true, FormatIpPort(na.value.ip, na.value.port, codec)))
  {
    var named := Named(st, logGroup, na);
    assert Open(st, logGroup, na, false, codec).value.0.eventBuffer[i] == AnnotateEvent(named, st.eventBuffer[i], codec);
    AnnotateEventLookup(named, st.eventBuffer[i], codec, "LogGroup", outValue);
    AnnotateEventLookup(named, st.eventBuffer[i], codec, "Machine", outValue);
  }

  /** Once the log is open, every event written reads back its log group, and
      its machine address when there is one, unless the event carried its own. */
  lemma WriteAfterOpenAnnotated(st: LogState, fields: EventFields, trackLatestKey: Bytes, trackError: bool,
                                isNetworkThread: bool, codec: Ipv6Codec, outValue: string)
    requires st.isOpen
    ensures var r := WriteEvent(st, fields, trackLatestKey, trackError, isNetworkThread, codec);
      |r.eventBuffer| == |st.eventBuffer| + 1
      && (!HasKey(fields, "LogGroup") ==>
         TryGetValue(r.eventBuffer[|st.eventBuffer|], "LogGroup", outValue) == (true, st.logGroup))
      && (st.localAddress.Some? && !HasKey(fields, "Machine") ==>
         TryGetValue(r.eventBuffer[|st.eventBuffer|], "Machine", outValue)
           == (true, FormatIpPort(st.localAddress.value.ip, st.localAddress.value.port, codec)))
  {
    var f := Marked(st, fields, trackLatestKey, codec);
    var a := Annotations(st, codec);
    var marker := if |trackLatestKey| > 0 then [Field("TrackLatestType", "Original")] else [];
    assert WriteEvent(st, fields, trackLatestKey, trackError, isNetworkThread, codec).eventBuffer == st.eventBuffer + [f];
    ConcatAssoc(fields.fields, a, marker);
    AnnotationLookup(st, codec, marker, 0, outValue);
    if !HasKey(fields, "LogGroup") {
      LookupPastFront(fields.fields, a + marker, fields.bytes, f.bytes, "LogGroup", outValue);
    }
    if st.localAddress.Some? && !HasKey(fields, "Machine") {
      LookupPastFront(fields.fields, a + marker, fields.bytes, f.bytes, "Machine", outValue);
    }
  }

  // ---------------------------------------------------------------------------
  // LatestEventCache

  /** set: the tag now maps to the contents. */
  function CacheSet(cache: LatestCache, tag: Bytes, contents: EventFields): (r: LatestCache)
    ensures tag in r && r[tag] == contents
    ensures forall t :: t in cache && t != tag ==> t in r && r[t] == cache[t]
    ensures r.Keys == cache.Keys + {tag}
  {
    cache[tag := contents]
  }

  /** get: std::map's operator[], so a missing tag is inserted with empty
      fields and those are returned. */
  function CacheGet(cache: LatestCache, tag: Bytes): (r: (EventFields, LatestCache))
    ensures r.1.Keys == cache.Keys + {tag}
    ensures tag in r.1 && r.0 == r.1[tag]
    ensures forall t :: t in cache ==> r.1[t] == cache[t]
    ensures tag !in cache ==> r.0 == NoFields
  {
    if tag in cache then (cache[tag], cache) else (NoFields, cache[tag := NoFields])
  }

  /** A second get of the same tag returns the same fields and leaves the
      cache as the first get left it. */
  lemma GetTwice(cache: LatestCache, tag: Bytes)
    ensures var first := CacheGet(cache, tag);
      CacheGet(first.1, tag) == first
  {
  }

  lemma GetAfterSet(cache: LatestCache, tag: Bytes, contents: EventFields)
    ensures CacheGet(CacheSet(cache, tag, contents), tag) == (contents, CacheSet(cache, tag, contents))
  {
  }

  /** clearPrefix_internal: erase the keys from lower_bound(prefix) up to
      lower_bound(strinc(prefix)). strinc rejects a prefix of only 0xff bytes,
      the empty prefix included, so that case is an error. */
  function ClearPrefix<V>(data: map<Bytes, V>, prefix: Bytes): (r: Option<map<Bytes, V>>)
    ensures r.Some? <==> Incrementable(prefix)
    ensures r.Some? ==> r.value.Keys <= data.Keys && forall k :: k in r.value ==> r.value[k] == data[k]
  {
    if !Incrementable(prefix) then None
    else
      var hi := Strinc(prefix);
      Some(map k | k in data && !(!LexLess(k, prefix) && LexLess(k, hi)) :: data[k])
  }

  /** The range erase removes exactly the keys that start with the prefix. */
  lemma ClearPrefixRemovesPrefixed<V>(data: map<Bytes, V>, prefix: Bytes, k: Bytes)
    requires Incrementable(prefix)
    ensures k in ClearPrefix(data, prefix).value <==> k in data && !HasPrefix(k, prefix)
  {
    StrincRange(prefix, k);
  }

  // ---------------------------------------------------------------------------
  // traceFormatImpl

  datatype TraceFormat = XmlFormat | JsonFormat

  /** ::tolower in the C locale. */
  function ToLowerChar(c: char): (d: char)
    ensures 'A' <= c <= 'Z' ==> d as int == c as int + 32
    ensures !('A' <= c <= 'Z') ==> d == c
  {
    if 'A' <= c <= 'Z' then (c as int + 32) as char else c
  }

  function ToLower(s: string): (t: string)
    ensures |t| == |s| && forall i :: 0 <= i < |s| ==> t[i] == ToLowerChar(s[i])
  {
    seq(|s|, i requires 0 <= i < |s| => ToLowerChar(s[i]))
  }

  /** The two names, compared without regard to ASCII case. */
  predicate SameIgnoringCase(a: string, b: string) {
    |a| == |b| && forall i :: 0 <= i < |a| ==> ToLowerChar(a[i]) == ToLowerChar(b[i])
  }

  /** traceFormatImpl: "xml" and "json" in any case are recognized; anything
      else falls back to XML and reports that it was not recognized. */
  function TraceFormatImpl(format: string): (r: (bool, TraceFormat))
    ensures r.0 <==> SameIgnoringCase(format, "xml") || SameIgnoringCase(format, "json")
    ensures r.1 == JsonFormat <==> SameIgnoringCase(format, "json")
  {
    var lower := ToLower(format);
    if lower == "xml" then (true, XmlFormat)
    else if lower == "json" then (true, JsonFormat)
    else
      assert !SameIgnoringCase(format, "xml") by {
        assert SameIgnoringCase(format, "xml") ==> lower == "xml";
      }
      (false, XmlFormat)
  }

  /** Lower-casing first changes nothing: the choice depends only on the
      lower-cased name. */
  lemma TraceFormatCaseInsensitive(format: string)
    ensures TraceFormatImpl(ToLower(format)) == TraceFormatImpl(format)
  {
    assert ToLower(ToLower(format)) == ToLower(format);
  }
}
