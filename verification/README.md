# A Dafny model of the flow runtime's sequential core

This project models the deterministic logic at the core of
FoundationDB's `flow` runtime, and of the C# driver of its actor compiler, and
proves properties of that model. One Dafny module corresponds to each source
file:

- `ActorCompiler` (actorcompiler/Program.cs): the compile-and-publish driver.
  The translator is an abstract function from the call it receives to
  `Translated | SourceError | InternalError`. The file system is a map from a
  path to its contents and read-only attribute. Every mutation is recorded as a
  snapshot, so that intermediate states can be reasoned about.
- `FlowUtil` (flow/flow.cpp): UID text, `parse_with_suffix`, `strinc`,
  `addVersionStampAtEnd` and the buggify memo `getSBVar`.
- `Network` (flow/network.cpp): IP address equality, order and validity, the
  `ip:port[:tls]` text form, its parser, and address lists.
- `TraceFields` (flow/Trace.cpp): the ordered field list of a trace event, its
  byte count, lookup, text form, the field-name rule, and detail truncation.
- `TraceLog` (flow/Trace.cpp): event suppression, the role multiset and its
  text, buffering before the log opens, the latest-event cache with
  `clearPrefix_internal`, and the choice of formatter.
- `JsonFormatter` (flow/JsonTraceLogFormatter.cpp): the byte escaper and the
  one-line JSON event. The formatter's extension is `"json"`; its header and
  footer are empty (the constants `EXTENSION`, `HEADER` and `FOOTER`).
- `TraceFiles` (flow/FileTraceLogWriter.cpp): `lastError`, the write loop, the
  numbering of new trace files, file-name decomposition, the comparator, and
  size-budget cleanup.
- `Packet` (flow/Net2Packet.cpp): the packet writer over a chain of
  `DATA_SIZE` buffers, the split write region, and the unsent queue.
- `FastAlloc` (flow/FastAlloc.cpp): the per-thread magazine state machine and
  the global magazine accounting, for one size class and one thread.
- `Serialize` (flow/serialize.cpp): the bounds-checked binary reader and the
  protocol-version guard.

`Base` holds what these share: `Option` and `Result`, fixed-width integer
types, decimal text, and the `%d` conversion of `sscanf`. It also has the C
string view of a `std::string`, `Join` and `Split`, `Flatten`, and the
lexicographic order of `std::string`.

Thrown exceptions become `Err`/`None` results. A failed `ASSERT` becomes an
`Err` where a caller can reach it (`RemoveRole`, `Sent`, `Open` and the two
serialization checks). Where the source documents it as a condition its
callers meet, it is a precondition instead (`Strinc`, `NextBuffer`,
`GetMagazine`, and the allocator's `Valid` state, which includes the
assertion of `releaseThreadMagazines`). A failed `ASSERT` in simulation is
kept apart from the error it precedes, where the source distinguishes them.
Of the .NET file exceptions the driver can meet, only the one for a
read-only temporary file is modelled (see "Left out").

The driver follows the code rather than the description of its behaviour. On
either failure path it deletes `output` as well as `output + ".tmp"`. That
includes an output left by an earlier successful run (Program.cs lines 65-69
and 77-81). `ActorCompiler.Main` states this:
`r.fs == fs - {args[1], TempPath(args[1])}`.

`TraceLog.Open` follows the code in another respect. It annotates the buffered
events but leaves `bufferLength` unchanged, so after opening `bufferLength` no
longer counts the annotation bytes.

## Model

| member | source | states |
|---|---|---|
| ActorCompiler.Outcome | actorcompiler/Program.cs:40-81 | with enough arguments: the translator is called iff the input exists and no read-only temporary file is in the way, with the input text, both paths normalised and the flag; 0 exactly on a translation, and then the output holds the text read-only with no temporary file; 1 exactly on a source error, with its diagnostic; 3 otherwise, with a FAC2000 diagnostic for line 1, carrying the access error when the temporary file is read-only; after a failure neither the output nor the temporary file is left |
| ActorCompiler.Main | actorcompiler/Program.cs:31-84 | the exit code is one of 0, 1, 3, 100; 100 exactly for fewer than two arguments, with no file-system change and the usage text; the translator is called iff the input exists and the temporary file is not read-only, and gets the input text, both paths with `\` turned into `/`, and the warning flag iff the literal flag is among the arguments; 0 exactly when translation succeeds, and then the output holds the text read-only and the temporary file is gone; 1 exactly on a source error, with the one diagnostic `input(L): error FAC1000: M`; 3 with one `input(1): error FAC2000: Internal ...` diagnostic, which a read-only temporary file always gives; after a failure neither the output nor the temporary file exists |
| ActorCompiler.Normalize | actorcompiler/Program.cs:50 | the path has every backslash replaced by a slash and nothing else changed |
| ActorCompiler.ClearAndDelete | actorcompiler/Program.cs:51-55 | an existing file is first made writable, then deleted; a missing one is left alone |
| ActorCompiler.Cleanup | actorcompiler/Program.cs:63-69 | after cleanup neither the output nor its temporary file exists, whatever existed before |
| ActorCompiler.Publish | actorcompiler/Program.cs:49-57 | publishing ends with the text at the output, read-only, and no temporary file |
| ActorCompiler.TempPathDiffers | actorcompiler/Program.cs:40 | the temporary path never coincides with the output path |
| ActorCompiler.NoPartialOutput | actorcompiler/Program.cs:46-83 | at every intermediate step the output path holds nothing, the old contents, or the whole translated text: no reader ever sees partial output |
| ActorCompiler.OutcomeIntact | actorcompiler/Program.cs:46-83 | every file-system state of a run with at least two arguments keeps the output intact in that sense |
| ActorCompiler.ClearAndDeleteIntact | actorcompiler/Program.cs:51-55 | deleting the output keeps it intact in that sense |
| ActorCompiler.CleanupIntact | actorcompiler/Program.cs:63-69 | the cleanup's steps keep the output intact in that sense |
| ActorCompiler.PublishIntact | actorcompiler/Program.cs:49-57 | the publication's steps keep the output intact in that sense |
| ActorCompiler.RunOnPublished | actorcompiler/Program.cs:51-58 | a read-only output already holding the translation does not block success, and the run changes nothing |
| ActorCompiler.RerunIsIdempotent | actorcompiler/Program.cs:51-58 | running the driver twice succeeds the second time despite the read-only output, and leaves the same file system |
| FlowUtil.UidToString | flow/flow.cpp:32-34 | the text is 32 lower-case hex digits whose halves denote the two 64-bit parts |
| FlowUtil.UidShortString | flow/flow.cpp:44-46 | the short form is the first 16 characters of the full text |
| FlowUtil.UidFromString | flow/flow.cpp:36-42 | a length other than 32 fails the assertion |
| FlowUtil.UidRoundTrip | flow/flow.cpp:32-42 | fromString inverts toString for every UID |
| FlowUtil.UidCanonicalText | flow/flow.cpp:32-42 | 32 hex digits of either case parse, and print back as the same digits in lower case |
| FlowUtil.UidFromHexDigits | flow/flow.cpp:36-42 | 32 hex digits are read as two 16-digit halves |
| FlowUtil.HexFixedRoundTrip | flow/flow.cpp:33 | `%0Nllx` of a value below 16^N reads back as that value |
| FlowUtil.HexValueRoundTrip | flow/flow.cpp:33 | a hex digit string printed back at its own width is itself in lower case |
| FlowUtil.ScanHexFieldOfDigits | flow/flow.cpp:39 | `%16llx` reads exactly sixteen leading hex digits |
| FlowUtil.HexFixed | flow/flow.cpp:33 | `%0Nllx` yields exactly N lower-case hex digits |
| FlowUtil.ParseWithSuffix | flow/flow.cpp:50-94 | none when no digits are read; it succeeds exactly when strtoull reads a number and the unit (what follows the number, or the default unit when nothing does) is non-empty and known; the value is then the number times the unit's multiplier, modulo 2^64 |
| FlowUtil.UnitMultiplierTable | flow/flow.cpp:71-91 | exactly nine units are known: B and the SI units KB..TB are 1000^k, the IEC units KiB..TiB are 1024^k |
| FlowUtil.ParseWithSuffixOfDecimal | flow/flow.cpp:50-94 | a printed number followed by a known unit parses to the number times its multiplier |
| FlowUtil.ParseWithSuffixBare | flow/flow.cpp:61-66 | a bare number takes the default unit, and is refused when the default is empty |
| FlowUtil.StrToULLOfDecimal | flow/flow.cpp:53 | strtoull reads back a printed number and stops at the first non-digit |
| FlowUtil.Strinc | flow/flow.cpp:144-157 | the trailing 0xff bytes are dropped and the last other byte incremented; the rest is unchanged |
| FlowUtil.StrincAboveExtensions | flow/flow.cpp:144-157 | the successor sorts after the string and after every string it prefixes |
| FlowUtil.StrincRange | flow/flow.cpp:144-157 | a string has the prefix exactly when it lies in [prefix, strinc(prefix)) |
| FlowUtil.AddVersionStampAtEnd | flow/flow.cpp:174-181 | the result is size+14 bytes: the string, ten zeros, then the size as four little-endian bytes |
| FlowUtil.VersionStampRoundTrip | flow/flow.cpp:174-181 | stripping the stamp recovers the string |
| FlowUtil.VersionStampInjective | flow/flow.cpp:174-181 | different strings get different stamped forms |
| FlowUtil.LittleEndian32RoundTrip | flow/flow.cpp:179 | the four-byte image of a 32-bit size decodes to that size |
| FlowUtil.GetSBVar | flow/flow.cpp:196-207 | 0 with buggify off and no state change; otherwise the stored decision, drawn once for a new (file, line) and never redrawn |
| FlowUtil.RunSBVars | flow/flow.cpp:196-207 | a sequence of calls only ever adds sections to the memo |
| FlowUtil.SBVarStable | flow/flow.cpp:200-206 | once a section is decided, every later call returns the same value |
| FlowUtil.SBVarOff | flow/flow.cpp:197 | with buggify off every call returns 0 and nothing is remembered |
| Network.IPEqualIsIdentity | flow/network.cpp:39-41 | `IPEqual` (operator==) holds iff the family and the stored address both match, that is iff the two addresses are the same |
| Network.IPLessIsStrictTotalOrder | flow/network.cpp:47-55 | `IPLess` (operator<) is irreflexive, transitive, total and asymmetric, with every IPv4 address before every IPv6 one |
| Network.IsValidIffNonZero | flow/network.cpp:74-79 | `IsValid` holds iff the address is not all zeros |
| Network.Octets | flow/network.cpp:61 | an address has four octets, each below 256 |
| Network.OctetsRecombine | flow/network.cpp:61 | the four octets, most significant first, recombine to the address they were taken from |
| Network.DottedText | flow/network.cpp:61 | the dotted quad and port are the octets and port printed between `.`, `.`, `.`, `:` |
| Network.Parse | flow/network.cpp:81-115 | the empty string is invalid; TLS iff the text ends in `:tls` with more before it; a non-bracketed text gives an IPv4 address; a parsed address is public |
| Network.ParseWithTLSSuffix | flow/network.cpp:86-93 | the `:tls` suffix is recognised exactly when it was appended, and stripped before the address is parsed |
| Network.ParseV4RoundTrip | flow/network.cpp:108-115 | parsing `AddressToString` of any IPv4 address (`FormatIpPort`, then `:tls` when set) gives it back, marked public |
| Network.ParseV6RoundTrip | flow/network.cpp:95-107 | the bracketed text of an IPv6 address parses back to it when the address library round-trips |
| Network.ParseBracketedOfText | flow/network.cpp:95-107 | `[x]:port` is read as address text x and the port |
| Network.DottedFieldsOfText | flow/network.cpp:110-113 | `%d.%d.%d.%d:%d%n` reads the whole printed text back as its five numbers |
| Network.DottedAddressOfOctets | flow/network.cpp:113 | the shifted sum of the octets is the address they came from |
| Network.ScanIntsOfInterleave | flow/network.cpp:111 | successive `%d` conversions read back what `%d` printed between the literals |
| Network.Stoi | flow/network.cpp:102 | a port within int range or an invalid-argument or out-of-range error, never the connection-string error |
| Network.StoiOfDecimal | flow/network.cpp:102 | stoi reads back a printed port |
| Network.ParseList | flow/network.cpp:117-128 | on success one address per comma-separated piece, count(',')+1 of them, each the parse of its piece; on failure the error of the first piece that does not parse |
| Network.ParseAll | flow/network.cpp:120-126 | succeeds iff every piece parses, and then yields each piece's address in order; otherwise fails with the error of the first piece that does not parse, every earlier piece parsing |
| Network.ParseListRoundTrip | flow/network.cpp:117-132 | a comma-joined list of IPv4 address texts parses back to the addresses |
| Network.IPv4VectorStringSplits | flow/network.cpp:134-142 | `IPv4VectorString` splits at its spaces into the dotted quads, one per address |
| Network.IPVectorStringSplits | flow/network.cpp:144-152 | `IPVectorString` splits at its spaces into the addresses' texts |
| Network.DottedQuadNoNul | flow/network.cpp:154-157 | the dotted quad passes through `%s` unchanged |
| TraceFields.AddField | flow/Trace.cpp:1089-1097 | a field is appended at the end, and the byte count stays equal to the total key and value length |
| TraceFields.AddFieldsAccounting | flow/Trace.cpp:1089-1105 | after any sequence of addField calls the fields are the pairs in insertion order, size() grew by their number and sizeBytes() by their lengths |
| TraceFields.FieldBytesAppend | flow/Trace.cpp:1090 | the byte total of concatenated field lists is the sum of their totals |
| TraceFields.TryGetValue | flow/Trace.cpp:1120-1129 | true iff some field has the key, and then the value of such a field; on false the output is untouched |
| TraceFields.LookupIgnoresLaterDuplicates | flow/Trace.cpp:1120-1129 | lookup returns the first field with the key: a later duplicate changes nothing |
| TraceFields.LookupFindsNewKey | flow/Trace.cpp:1120-1129 | a key added to an event without it is found with the added value |
| TraceFields.LookupPastFront | flow/Trace.cpp:1120-1129 | lookup of a key the front fields lack reads the fields behind them alone |
| TraceFields.GetValue | flow/Trace.cpp:1131-1146 | attribute_not_found exactly when tryGetValue fails, otherwise its value |
| TraceFields.ToStringAfterAdd | flow/Trace.cpp:1227-1240 | `FieldsToString` is the `"k"="v"` renderings in order with `, ` only between fields; adding a field appends its rendering |
| TraceFields.JoinAppend | flow/Trace.cpp:1230-1237 | the separator goes only between consecutive parts |
| TraceFields.ValidateField | flow/Trace.cpp:1242-1257 | the strchr loop accepts exactly the names of the declarative rule |
| TraceFields.WellFormedNameRules | flow/Trace.cpp:1242-1257 | the empty name is invalid; without underscores allowed, a name is valid iff it starts with A-Z and has no `_`; a name starting with `_` is valid when underscores are allowed |
| TraceFields.TruncateDetail | flow/Trace.cpp:774-776 | a value over 495 characters becomes its first 495 characters and `...`; shorter ones are kept |
| TraceFields.DetailImpl | flow/Trace.cpp:771-790 | a disabled event ignores the detail; an enabled one records the truncated value and is disabled iff its size passes 4000 bytes |
| TraceFields.DetailsBounded | flow/Trace.cpp:771-790 | over any sequence of details an enabled event stays within 4000 bytes, and a disabled one never changes again |
| TraceLog.CheckAndInsertSuppression | flow/Trace.cpp:94-112 | -1 iff the type is inside its window, and then the count rises by one; otherwise the swallowed count is returned (0 for a new type), reset, and the window ends at now + duration |
| TraceLog.SuppressionMapBounded | flow/Trace.cpp:94-112 | the map never grows past its limit |
| TraceLog.SuppressionRun | flow/Trace.cpp:94-112 | one result per event |
| TraceLog.SuppressionWindow | flow/Trace.cpp:94-112 | every event inside an open window is suppressed and counted, and the first one after it reports exactly how many were swallowed |
| TraceLog.IncrementRole | flow/Trace.cpp:480 | `++roles[role]` keeps the keys sorted and positive, and the key set gains the role |
| TraceLog.DecrementRole | flow/Trace.cpp:492-493 | the decrement keeps the keys sorted and positive and adds no key |
| TraceLog.AddRole | flow/Trace.cpp:476-482 | the role's multiplicity rises by one, every other role's is unchanged, and the text is refreshed |
| TraceLog.RemoveRole | flow/Trace.cpp:484-496 | removing an absent role fails the assertion unless simulated at the default address; otherwise the multiplicity falls by one (a missing role stays at 0), every other role is unchanged, and the text stays right |
| TraceLog.IncrementMultiplicity | flow/Trace.cpp:480 | the increment adds one occurrence of exactly this role |
| TraceLog.DecrementMultiplicity | flow/Trace.cpp:489-495 | the decrement removes one occurrence of exactly this role, erasing it at zero |
| TraceLog.RolesStringListsHeldRoles | flow/Trace.cpp:159-167 | the text lists exactly the held roles, each once, in strictly increasing order |
| TraceLog.DecrementKeepsNames | flow/Trace.cpp:492-495 | a decrement that does not reach zero leaves the key list, hence the text, as it was |
| TraceLog.IncrementThenDecrement | flow/Trace.cpp:476-496 | a decrement undoes an increment of the same role |
| TraceLog.RemoveAfterAdd | flow/Trace.cpp:476-496 | removeRole right after addRole restores the role information exactly |
| TraceLog.MultiplicityInSet | flow/Trace.cpp:155-157 | a role is held iff the map has an entry for it |
| TraceLog.Annotations | flow/Trace.cpp:336-347 | one, two or three fields: `Machine` = formatIpPort(ip, port) first exactly when the address is known, then `LogGroup` with the log group, then `Roles` last exactly when the roles text is non-empty |
| TraceLog.AnnotateEvent | flow/Trace.cpp:336-347 | the annotations are appended after the event's own fields, with bytes counted |
| TraceLog.AnnotationLookup | flow/Trace.cpp:336-347 | lookup over the annotations finds the log group, and the machine address when it is known |
| TraceLog.AnnotateEventLookup | flow/Trace.cpp:336-347 | annotation never hides the caller's fields: every key the event had reads back as before; an event without a log group or machine field reads back the log's |
| TraceLog.Marked | flow/Trace.cpp:352-358 | the event as buffered keeps the caller's fields in front, then the annotations when the log is open, then the TrackLatestType marker when the event is tracked |
| TraceLog.WriteEvent | flow/Trace.cpp:349-375 | an event is dropped and counted iff the log is not open and overflow has begun or the buffer would pass 1000000 bytes; otherwise it is appended and bufferLength grows by its size; a tracked event gets the TrackLatestType marker and is cached under its key; a tracked error is recorded only on the network thread |
| TraceLog.OverflowIsSticky | flow/Trace.cpp:360-363 | once overflow has begun, every later event before opening is dropped and counted |
| TraceLog.PreopenBounded | flow/Trace.cpp:360-367 | before opening, bufferLength stays the size of the buffered events and within the limit |
| TraceLog.WriteEvents | flow/Trace.cpp:349-375 | a stream of writes does not open the log |
| TraceLog.Open | flow/Trace.cpp:290-333 | fails iff the log is already open; otherwise the log is open, records the log group and address it was given, and keeps the roles; the overflow count, reported once if positive, is reset; buffered events are annotated with the new group and address, or discarded in simulation |
| TraceLog.OpenAnnotatesBuffered | flow/Trace.cpp:290-333 | every event buffered before open reads back the log group open was given, and the machine address when given one, unless it carried its own |
| TraceLog.WriteAfterOpenAnnotated | flow/Trace.cpp:336-358 | once the log is open, every event written reads back the log's group and machine address unless it carried its own |
| TraceLog.CacheSet | flow/Trace.cpp:527-529 | the tag maps to the contents and every other tag is unchanged |
| TraceLog.CacheGet | flow/Trace.cpp:531-533 | the tag is now in the cache and the fields returned are its entry there; existing entries are unchanged and no other tag is added; a missing tag gives empty fields |
| TraceLog.GetTwice | flow/Trace.cpp:531-533 | a second get of the same tag returns the same fields and leaves the cache as the first get left it |
| TraceLog.GetAfterSet | flow/Trace.cpp:527-533 | get after set returns the contents set |
| TraceLog.ClearPrefix | flow/Trace.cpp:513-517 | defined iff strinc accepts the prefix; only removes keys and changes no value |
| TraceLog.ClearPrefixRemovesPrefixed | flow/Trace.cpp:513-517 | the range erase removes exactly the keys starting with the prefix |
| TraceLog.ToLower | flow/Trace.cpp:572 | ::tolower maps A-Z to a-z and keeps every other character |
| TraceLog.TraceFormatImpl | flow/Trace.cpp:570-589 | recognised iff the name is `xml` or `json` in any case; JSON is chosen iff the name is `json`, XML otherwise |
| TraceLog.TraceFormatCaseInsensitive | flow/Trace.cpp:572 | lower-casing the name first changes nothing |
| JsonFormatter.EscapeChar | flow/JsonTraceLogFormatter.cpp:49-64 | a byte's escape has no raw line break and no unescaped quote; it is the byte itself only when printable and neither `"` nor `\` |
| JsonFormatter.DecodeEscapeChar | flow/JsonTraceLogFormatter.cpp:50-64 | each escape sequence (`\"`, `\\`, `\n`, `\r`, `\xHH` with lower-case hex of b/16 and b%16) decodes to the byte it came from |
| JsonFormatter.EscapeIsQuoteSafe | flow/JsonTraceLogFormatter.cpp:48-66 | text passed through `Escape` has no newline or CR, and every quote in it follows a backslash |
| JsonFormatter.ReadQuotedEscape | flow/JsonTraceLogFormatter.cpp:48-66 | reading back the escaped text up to its closing quote recovers the string |
| JsonFormatter.EscapeInjective | flow/JsonTraceLogFormatter.cpp:48-66 | distinct strings escape to distinct texts |
| JsonFormatter.FormatEvent | flow/JsonTraceLogFormatter.cpp:70-85 | the line opens with `{  ` and ends with ` }\r\n` |
| JsonFormatter.FormatEventRoundTrip | flow/JsonTraceLogFormatter.cpp:70-85 | the formatted line reads back as the same fields in the same order |
| JsonFormatter.ParseFieldListJoin | flow/JsonTraceLogFormatter.cpp:73-83 | the `, `-separated `"k": "v"` pairs read back as the fields |
| JsonFormatter.EmptyEvent | flow/JsonTraceLogFormatter.cpp:72-84 | no fields format to `{   }\r\n` |
| TraceFiles.Write | flow/FileTraceLogWriter.cpp:70-85 | the chunks written are the string's prefix up to what remains, and the loop exits only when nothing remains (or the modelled calls run out); each failure other than EINTR is reported |
| TraceFiles.OpenLoop | flow/FileTraceLogWriter.cpp:91-107 | the first attempt uses the given index; a successful open uses the last index tried |
| TraceFiles.OpenLoopOutcomes | flow/FileTraceLogWriter.cpp:91-107 | open stops at the first success and only there |
| TraceFiles.OpenLoopSteps | flow/FileTraceLogWriter.cpp:91-94 | the index rises by one after EEXIST and stays after any other failure |
| TraceFiles.OpenLoopReported | flow/FileTraceLogWriter.cpp:91-92 | every failed open except EINTR is reported once |
| TraceFiles.OpenTraceFile | flow/FileTraceLogWriter.cpp:87-110 | the first name tried uses the index after the previous file's |
| TraceFiles.IndicesAscend | flow/FileTraceLogWriter.cpp:90-95 | the indices tried never go down, from the starting one |
| TraceFiles.ExistingNamesAreSkipped | flow/FileTraceLogWriter.cpp:93-94 | after EEXIST every later name has a strictly higher index |
| TraceFiles.LastIndexAtOrBefore | flow/FileTraceLogWriter.cpp:128 | find_last_of gives the last position at or before pos holding the character, or -1 |
| TraceFiles.AsWrittenSplit | flow/FileTraceLogWriter.cpp:128 | the split position as the unsigned arithmetic computes it |
| TraceFiles.Stem | flow/FileTraceLogWriter.cpp:127-133 | the name without its extension is a prefix of the name |
| TraceFiles.ExtractOfTraceFileName | flow/FileTraceLogWriter.cpp:127-133 | a name open creates (`TraceFileName`) reads back through `ExtractTraceFileNameInfo` as its base name and index, for any extension |
| TraceFiles.CompareOrdersByIndex | flow/FileTraceLogWriter.cpp:135-151 | files of one base name sort by the number open gave them |
| TraceFiles.AsWrittenAgreesForXml | flow/FileTraceLogWriter.cpp:127-133 | for `.xml` names the size-5 arithmetic as written (`ExtractAsWritten`) extracts the same base name and index |
| TraceFiles.AsWrittenMisordersJson | flow/FileTraceLogWriter.cpp:127-151 | on `.json` names the code as written (`CompareAsWritten`) ranks trace.10.json before trace.9.json, the opposite of the corrected comparator |
| TraceFiles.CompareIrreflexive | flow/FileTraceLogWriter.cpp:135-151 | no name sorts before itself under `CompareTraceFileName` |
| TraceFiles.CompareTransitive | flow/FileTraceLogWriter.cpp:135-151 | the comparator is transitive |
| TraceFiles.CompareTotal | flow/FileTraceLogWriter.cpp:135-151 | any two different names are ordered one way or the other |
| TraceFiles.CompareIsStrictTotalOrder | flow/FileTraceLogWriter.cpp:135-155 | compareTraceFileName is irreflexive, transitive and total on distinct names, as std::sort needs of a comparator |
| TraceFiles.SortDescending | flow/FileTraceLogWriter.cpp:171 | the same names, as a multiset, in descending order |
| TraceFiles.SortNewestFirst | flow/FileTraceLogWriter.cpp:171 | sorting with the reversed comparator permutes the names into newest-first order |
| TraceFiles.Candidates | flow/FileTraceLogWriter.cpp:164-168 | exactly the listed files whose names start with the process name |
| TraceFiles.KeptCount | flow/FileTraceLogWriter.cpp:173-179 | the first loop walks past the shortest prefix whose padded size reaches the budget, or every file |
| TraceFiles.BudgetSplit | flow/FileTraceLogWriter.cpp:173-184 | kept then deleted is the sorted list; something is deleted only if the kept files reach the budget, and the kept files without the last stay under it |
| TraceFiles.CleanupTraceFiles | flow/FileTraceLogWriter.cpp:157-187 | nothing happens in simulation or with a budget of 0; otherwise the candidates are split into kept and deleted; only this process's listed files are deleted; no kept file is older than a deleted one; the budget rule above |
| TraceFiles.NewestFirstParts | flow/FileTraceLogWriter.cpp:171-184 | cutting a newest-first list anywhere leaves nothing in front older than anything behind |
| Packet.Init | flow/Net2Packet.cpp:23-32 | the writer starts on the buffer with length minus its bytes already written |
| Packet.Finish | flow/Net2Packet.cpp:34-41 | the final length is everything in the chain after the starting bytes |
| Packet.NextBuffer | flow/Net2Packet.cpp:56-69 | the full buffer is left behind, writing moves to an empty one, and length gains DATA_SIZE |
| Packet.SerializeBytesAcrossBoundary | flow/Net2Packet.cpp:43-54 | exactly the bytes are appended to the chain's contents, the earlier buffers are kept, and every buffer left behind is full |
| Packet.InitWriteFinish | flow/Net2Packet.cpp:23-58 | after init, writes and finish, length is the number of bytes written and the chain holds the old bytes followed by them |
| Packet.WriteAllAppends | flow/Net2Packet.cpp:43-58 | successive writes append their bytes in order and keep the length accounting |
| Packet.WriteAhead | flow/Net2Packet.cpp:71-86 | exactly `bytes` are reserved at the chain's end; one segment with no next iff they fit; otherwise the first segment is the rest of the current buffer and the remainder starts a new one |
| Packet.Overwrite | flow/Net2Packet.cpp:94 | memcpy changes exactly the target positions |
| Packet.SplitWriteAt | flow/Net2Packet.cpp:88-104 | after write, each byte of memory holds the data byte for its place in the region when that place is in [offset, offset+len), and is unchanged otherwise |
| Packet.SplitWriteIsWindowWrite | flow/Net2Packet.cpp:88-104 | `SplitWrite` overwrites positions [offset, offset+len) of the two segments read as one run, and nothing else |
| Packet.ShrinkDropsFront | flow/Net2Packet.cpp:109-117 | the region `Shrink` leaves is the rest of the old region |
| Packet.WriteAndShrinkFillsFront | flow/Net2Packet.cpp:106-119 | `WriteAndShrink` fills the first len positions of the region, advances the region past them, and changes nothing outside |
| Packet.Sent | flow/Net2Packet.cpp:138-157 | the assertion fails iff more is sent than is unsent; otherwise unsent bytes fall by exactly that amount, bytes_sent <= bytes_written <= DATA_SIZE holds, fully sent buffers are dropped from the front, and unsent_last is null iff the queue is empty |
| Packet.UnsentNonNegative | flow/Net2Packet.cpp:138-157 | the unsent count is never negative |
| Packet.DiscardAll | flow/Net2Packet.cpp:159-166 | both ends of the queue are null and nothing is unsent |
| Packet.SentNewHead | flow/Net2Packet.cpp:138-157 | after a send that leaves buffers, the head is the first buffer not dropped: the dropped buffers' unsent bytes add up to at most the bytes sent, and the remainder is added to the new head's bytes_sent |
| Packet.SentAfterDiscard | flow/Net2Packet.cpp:138-166 | after discardAll, reporting zero bytes sent succeeds and changes nothing, and reporting any positive number fails |
| FastAlloc.GetSizeCode | flow/FastAlloc.cpp:236-250 | every size gets a code from 1 to 11 |
| FastAlloc.SizeCodeOfPowers | flow/FastAlloc.cpp:236-250 | 2^k for k in 4..13 gets code k-3, and exactly these get a code below 11 |
| FastAlloc.NewMagazine | flow/FastAlloc.cpp:450-458 | a new magazine has magazine_size slots starting at the block |
| FastAlloc.NewMagazineSlots | flow/FastAlloc.cpp:450-458 | the slots are distinct and in address order, each Size bytes after the one before |
| FastAlloc.GetMagazine | flow/FastAlloc.cpp:397-459 | a full global magazine first; else the last partial one, its slots subtracted from the unallocated memory; else a new block, with totalMemory up by magazine_size*Size |
| FastAlloc.Allocate | flow/FastAlloc.cpp:252-293 | the count falls by one and the freelist head is handed out; an empty freelist first adopts the alternate as full, and only otherwise calls getMagazine; freelist empty iff count 0 afterwards |
| FastAlloc.Release | flow/FastAlloc.cpp:295-328 | the slot becomes the freelist head; a full freelist first becomes the alternate and a previous alternate goes to the global list; the count stays within magazine_size |
| FastAlloc.ReleaseMagazine | flow/FastAlloc.cpp:461-466 | pushing a full magazine keeps the global lists well formed and adds its slots to the full magazines' count |
| FastAlloc.ReleasePartial | flow/FastAlloc.cpp:475-478 | pushing a partial freelist keeps the global lists well formed, adds its count to the partial slots, and its bytes to the unallocated memory |
| FastAlloc.ReleaseThreadMagazines | flow/FastAlloc.cpp:467-491 | the partial freelist is pushed with its count and its bytes added to the unallocated memory; the alternate is pushed as full; activeThreads falls by one; the thread state is reset |
| FastAlloc.InitThread | flow/FastAlloc.cpp:382-395 | the thread is initialised and counted among the active threads, with the global lists untouched and the allocator kept valid |
| FastAlloc.InitThenRelease | flow/FastAlloc.cpp:382-395 | a thread that joins and leaves again without allocating leaves the allocator exactly as it found it |
| FastAlloc.ApproximateUnusedIsGlobalSlots | flow/FastAlloc.cpp:226-229 | `GetApproximateMemoryUnused` is exactly the bytes of the free slots held by the global lists |
| FastAlloc.AllocateAccounted | flow/FastAlloc.cpp:252-293 | free slots plus outstanding ones always make up totalMemory: allocate moves one slot out |
| FastAlloc.GetMagazineAccounted | flow/FastAlloc.cpp:397-459 | fetching a magazine only moves slots from the global lists, or from a new block, to the thread: the balance is kept |
| FastAlloc.ReleaseAccounted | flow/FastAlloc.cpp:295-328 | release moves one slot back, keeping that balance |
| FastAlloc.ReleaseThreadAccounted | flow/FastAlloc.cpp:467-491 | a thread leaving moves its slots to the global lists, keeping that balance |
| FastAlloc.ReleaseUndoesAllocate | flow/FastAlloc.cpp:252-328 | releasing the slot just allocated from a non-empty freelist restores the allocator exactly |
| Serialize.AcceptedVersionsUpwardClosed | flow/serialize.cpp:24-29 | the versions the guard accepts are exactly those from the oldest valid protocol on: that version passes, later versions pass unchanged, earlier ones are all refused alike, with the same error a failed read raises in that environment |
| Serialize.ReadBytes | flow/serialize.cpp:31-39 | the bytes start at the old cursor and the cursor moves by exactly n; a read past the end fails and leaves the reader as it was |
| Serialize.ReadsAreContiguous | flow/serialize.cpp:31-39 | successive reads fail exactly when the counts exceed what is left; otherwise they return contiguous slices of the asked lengths that make up the bytes between the first and last cursor, which never passes the end |

## Left out

- The translator inside `ActorParser`, the .NET file API and console are not part of this model. The translator is an abstract function; the file system is a map. A missing input is an internal error with an abstract message.
- ActorCompiler.Outcome: the file system has no directories, permissions or sharing. Apart from a read-only temporary file, creating, deleting and moving files never fail, so a missing output directory (exit 3 without a translator call in the source) is not modelled.
- ActorCompiler.Outcome: deleting a read-only temporary file in the catch blocks succeeds, as unlink does on POSIX systems. On Windows, `File.Delete` would throw from inside the catch block and end the process.
- ActorCompiler.Main: inherits both limits of `ActorCompiler.Outcome`.
- Threads, mutexes and the critical sections in FastAlloc.cpp and Trace.cpp are not modelled. Each critical section is one atomic step on one thread.
- The non-thread-safe branch of `allocate`/`release`, `check`, valgrind and allocation instrumentation are left out. They are debugging builds.
- `magazine_size`, `minValidProtocolVersion`, `MAX_TRACE_SUPPRESSIONS` and `ZERO_LENGTH_FILE_PAD` come from headers and knobs that are not part of this model. They are parameters.
- `PacketBuffer::DATA_SIZE` is defined in Net2Packet.h, which is not part of this model. It is the constant 4068; only its positivity matters to the proofs.
- `ReliablePacket` bookkeeping and `ReliablePacketList::compact` (Net2Packet.cpp) are left out. `init`, `finish` and `nextBuffer` are modelled without a reliable packet.
- Packet.WriteAhead: the reserved bytes' contents are unspecified in the source; the model fills them with zeros.
- Packet.SplitBuffer: the source keeps no length for the second segment. The model records the part of the next buffer that writeAhead reserved, and `write`/`writeAndShrink` require callers to stay within it.
- Serialize.ReadBytes: requires the new cursor not to fall before the start of the buffer. A negative count that moves the pointer before the buffer is undefined behaviour in the source.
- IPv6 text is produced and parsed by the Boost library, which is not part of this model. `Network` takes its printer and parser as parameters.
- FlowUtil.UidFromString: the `0x` prefix that `%llx` also accepts is not modelled.
- Network.Parse: the `%d` conversions are unbounded integers, and the shifted octets are reduced modulo 2^32. The signed overflow of `a << 24` in int arithmetic is not modelled separately.
- Network.Stoi: the range check is modelled; the C library's white-space and sign handling follow `%d`.
- FlowUtil.AddVersionStampAtEnd: requires the size plus 14 to fit an int32. The source's `int32_t size` would otherwise overflow.
- TraceFiles.CleanupTraceFiles: sorts with the corrected comparator `CompareTraceFileName`. As written the source sorts with the size-5 split (`CompareAsWritten`), which misorders `.json` names (see "Findings"); for `.xml` names the two agree.
- TraceFiles.CleanupTraceFiles: the uint64 `runningTotal` is an unbounded sum. It does not wrap.
- TraceFiles.CleanupTraceFiles: file listing, `fileSize` and deletion are left out. The listing and a size function are inputs, and the files to delete are the output. An error thrown during cleanup is not modelled.
- TraceFiles.Write: the loop is modelled over a finite sequence of write(2) results. The source's loop would spin forever if the system never wrote; `threadSleep` is left out.
- TraceFiles.OpenLoop: the open(2) results are a finite sequence. The error message, the TraceFileOpenError event and the retry sleep are left out.
- TraceFiles.AsWrittenAgreesForXml: requires the name's length to fit a size_t, as any real file name does.
- TraceLog.AddRole: in simulation the source keeps one role table per local address (`roleInfoMap`, flow/Trace.cpp:173-181); the model keeps the one table of the current address. The same holds for TraceLog.RemoveRole and TraceLog.Annotations.
- TraceLog.WriteEvent: the per-address maps of the latest-event cache are one map, for the local address. The event metrics and the `log` call are left out.
- TraceLog.Open: the directory, process name, timestamp, roll size and size budget, the writer thread, file creation and the TraceLogPreopenOverflow event are left out. The overflow count is returned instead of traced.
- The trace event throttler, `TraceEvent` construction, severity filtering, flushing, rolling and closing (Trace.cpp) are not modelled.
- TraceFields.DetailImpl: the TraceEventOverflow event and the event-metric field are left out. Only the disabling is modelled.
- TraceFields.GetValue: the TraceEventFieldNotFound warning is left out. Only the thrown error is modelled.
- TraceLog.CheckAndInsertSuppression: `now()` is a real-number parameter rather than a floating-point clock. The ClearingTraceSuppressionMap event is left out.
- Counters declared as `int`, `int64_t` or `size_t` (`bufferLength`, `bytes`, `preopenOverflowCount`, `totalMemory`) are unbounded. Overflow is not modelled.
- FlowUtil.GetSBVar: the random draw is a boolean parameter, and the buggify trace batch is left out.
- `vsformat`/`format` (flow.cpp) are used only through the `%d`, `%s` and `%llx` conversions the models spell out.
- The characters of a `std::string` are Dafny characters. Byte-level operations use byte sequences; JSON escaping requires every character to be below 256.

## Findings

| source | as written | input that shows it | evidently intended | confidence | as-written member | corrected member |
|---|---|---|---|---|---|---|
| flow/FileTraceLogWriter.cpp:127-151 | `extractTraceFileNameInfo` looks for the last `.` at or before `size - 5`, which fits only a three-letter extension such as `xml`. With the JSON formatter's `json` extension the split lands on the extension's dot: `trace.10.json` gets root `trace.10`, and `%d` reads no index from `j`. Roots then decide the comparison, and `"trace.10" < "trace.9"` | `trace.10.json` and `trace.9.json`, the tenth and ninth files of one base name | root `trace`, index 10 and 9, so the ninth file sorts before the tenth and cleanup deletes the oldest files first. As written, cleanup keeps `trace.9.json` and deletes the newer `trace.10.json` | high (not executed) | TraceFiles.AsWrittenMisordersJson | TraceFiles.CompareOrdersByIndex |

The as-written extraction is `TraceFiles.ExtractAsWritten`, compared by
`TraceFiles.CompareAsWritten`. `TraceFiles.AsWrittenAgreesForXml` shows it
agrees with the corrected extraction on `.xml` names. The corrected extraction
`TraceFiles.ExtractTraceFileNameInfo` removes the actual extension before
splitting. `TraceFiles.CleanupTraceFiles` sorts with the comparator built on
it.
