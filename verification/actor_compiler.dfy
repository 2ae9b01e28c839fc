/** The command-line driver of the actor compiler: it checks its arguments,
    translates `input` into `output + ".tmp"`, replaces any read-only `output`
    with the temporary file, marks the result read-only, and maps the two kinds
    of translation failure to stable diagnostics and exit codes. The translator
    and the file system are abstract: the translator is a function of the call
    it receives, and the file system is a map from path to contents and the
    read-only attribute. */
module ActorCompiler {
  import opened Base

  datatype FileEntry = FileEntry(contents: string, readOnly: bool)
  type FileSystem = map<string, FileEntry>

  const DISABLE_WARNING_FLAG: string := "--disable-actor-without-wait-warning"

  /** The banner echoed before the arguments, and what follows the input
      path in an internal-error diagnostic. */
  const BANNER: string := "actorcompiler "
  const INTERNAL_MARK: string := "(1): error FAC2000: Internal "

  const EXIT_SUCCESS: int := 0
  const EXIT_SOURCE_ERROR: int := 1
  const EXIT_INTERNAL_ERROR: int := 3
  const EXIT_USAGE: int := 100

  /** Everything the driver hands to the translator. */
  datatype EngineCall = EngineCall(
    source: string,
    inputPath: string,
    disableActorWithoutWaitWarning: bool,
    outputPath: string)

  /** What the translator does with a call: produce the text, or raise an
      error attributed to a source line, or fail in any other way. */
  datatype Translation =
    | Translated(text: string)
    | SourceError(sourceLine: int, message: string)
    | InternalError(details: string)

  /** The driver's collaborators: the translator, the text of the exception
      raised when the input file cannot be read, and the text of the one
      raised when a file cannot be opened for writing. */
  datatype Environment = Environment(
    engine: EngineCall -> Translation,
    missingInputText: string -> string,
    deniedText: string -> string)

  /** The observable outcome of one invocation; `snapshots` lists the file
      system after every mutation, in order. */
  datatype Run = Run(
    exitCode: int,
    fs: FileSystem,
    stdout: seq<string>,
    stderr: seq<string>,
    call: Option<EngineCall>,
    snapshots: seq<FileSystem>)

  function TempPath(output: string): string {
    output + ".tmp"
  }

  /** A read-only temporary file left behind: the StreamWriter that should
      truncate it is refused access. */
  predicate TempBlocked(fs: FileSystem, output: string) {
    TempPath(output) in fs && fs[TempPath(output)].readOnly
  }

  lemma TempPathDiffers(output: string)
    ensures TempPath(output) != output
  {
    assert |TempPath(output)| == |output| + 4;
  }

  /** string.Replace('\\', '/'). */
  function Normalize(path: string): (r: string)
    ensures |r| == |path|
    ensures forall i :: 0 <= i < |path| ==> r[i] == (if path[i] == '\\' then '/' else path[i])
  {
    if |path| == 0 then "" else [if path[0] == '\\' then '/' else path[0]] + Normalize(path[1..])
  }

  /** The two lines printed for a bad invocation. */
  const USAGE_TEXT: seq<string> := ["Usage:", "  actorcompiler <input> <output> [--disable-actor-without-wait-warning]"]

  function SourceDiagnostic(input: string, line: int, message: string): string {
    input + "(" + IntToDecimal(line) + "): error FAC1000: " + message
  }

  function InternalDiagnostic(input: string, details: string): string {
    input + INTERNAL_MARK + details
  }

  function LastOr(fs: FileSystem, steps: seq<FileSystem>): FileSystem {
    if |steps| == 0 then fs else steps[|steps| - 1]
  }

  /** Deleting `path` when it exists, after clearing its read-only attribute. */
  function ClearAndDelete(fs: FileSystem, path: string): (steps: seq<FileSystem>)
    ensures LastOr(fs, steps) == fs - {path}
    ensures path in fs ==> |steps| == 2 && steps[0] == fs[path := FileEntry(fs[path].contents, false)]
    ensures path !in fs ==> steps == []
  {
    if path in fs then
      var cleared := fs[path := FileEntry(fs[path].contents, false)];
      [cleared, cleared - {path}]
    else []
  }

  /** The cleanup both catch blocks perform: the temporary file, then the output. */
  function Cleanup(fs: FileSystem, output: string): (steps: seq<FileSystem>)
    ensures LastOr(fs, steps) == fs - {output, TempPath(output)}
  {
    var tmp := TempPath(output);
    var afterTmp := if tmp in fs then [fs - {tmp}] else [];
    var fs1 := LastOr(fs, afterTmp);
    var tail := ClearAndDelete(fs1, output);
    assert LastOr(fs, afterTmp + tail) == LastOr(fs1, tail);
    afterTmp + tail
  }

  /** The publication of a successful translation: the temporary file holds
      the text, any existing output is cleared and deleted, the temporary file
      is renamed into place and marked read-only. */
  function Publish(created: FileSystem, output: string, text: string): (steps: seq<FileSystem>)
    requires TempPath(output) in created
    ensures |steps| >= 3
    ensures LastOr(created, steps) == (created - {TempPath(output)})[output := FileEntry(text, true)]
  {
    var tmp := TempPath(output);
    var written := created[tmp := FileEntry(text, false)];
    var replaced := ClearAndDelete(written, output);
    var gone := LastOr(written, replaced);
    TempPathDiffers(output);
    var moved := (gone - {tmp})[output := FileEntry(text, false)];
    [written] + replaced + [moved, moved[output := FileEntry(text, true)]]
  }

  /** The call the driver makes for these arguments. */
  function CallFor(fs: FileSystem, args: seq<string>): EngineCall
    requires |args| >= 2 && args[0] in fs
  {
    EngineCall(fs[args[0]].contents, Normalize(args[0]), DISABLE_WARNING_FLAG in args, Normalize(args[1]))
  }

  /** The exit code, the diagnostics, the translator call and the file-system
      steps of a run with enough arguments, by cases on the translator's answer. */
  function Outcome(fs: FileSystem, args: seq<string>, env: Environment): (r: (int, seq<string>, Option<EngineCall>, seq<FileSystem>))
    requires |args| >= 2
    ensures r.2.Some? <==> args[0] in fs && !TempBlocked(fs, args[1])
    ensures r.2.Some? ==> r.2.value == CallFor(fs, args)
    ensures r.0 in {EXIT_SUCCESS, EXIT_SOURCE_ERROR, EXIT_INTERNAL_ERROR}
    ensures r.0 == EXIT_SUCCESS <==> r.2.Some? && env.engine(r.2.value).Translated?
    ensures r.0 == EXIT_SOURCE_ERROR <==> r.2.Some? && env.engine(r.2.value).SourceError?
    ensures r.0 == EXIT_SUCCESS ==>
      r.1 == [] && LastOr(fs, r.3) == (fs - {TempPath(args[1])})[args[1] := FileEntry(env.engine(r.2.value).text, true)]
    ensures r.0 == EXIT_SOURCE_ERROR ==>
      r.1 == [SourceDiagnostic(args[0], env.engine(r.2.value).sourceLine, env.engine(r.2.value).message)]
    ensures r.0 == EXIT_INTERNAL_ERROR ==>
      |r.1| == 1 && HasPrefix(r.1[0], args[0] + INTERNAL_MARK)
      && (r.2.Some? ==> r.1 == [InternalDiagnostic(args[0], env.engine(r.2.value).details)])
    ensures args[0] in fs && TempBlocked(fs, args[1]) ==>
      r.0 == EXIT_INTERNAL_ERROR && r.1 == [InternalDiagnostic(args[0], env.deniedText(TempPath(args[1])))]
    ensures r.0 != EXIT_SUCCESS ==> LastOr(fs, r.3) == fs - {args[1], TempPath(args[1])}
  {
    var input := args[0];
    var output := args[1];
    var tmp := TempPath(output);
    if input !in fs then
      InternalPrefix(input, env.missingInputText(input));
      (EXIT_INTERNAL_ERROR, [InternalDiagnostic(input, env.missingInputText(input))], None, Cleanup(fs, output))
    else if TempBlocked(fs, output) then
      InternalPrefix(input, env.deniedText(tmp));
      (EXIT_INTERNAL_ERROR, [InternalDiagnostic(input, env.deniedText(tmp))], None, Cleanup(fs, output))
    else
      var call := CallFor(fs, args);
      var created := fs[tmp := FileEntry("", false)];
      CreatedThenRemoved(fs, tmp, output);
      match env.engine(call)
      case Translated(text) =>
        LastOrCons(fs, created, Publish(created, output, text));
        (EXIT_SUCCESS, [], Some(call), [created] + Publish(created, output, text))
      case SourceError(line, message) =>
        LastOrCons(fs, created, Cleanup(created, output));
        (EXIT_SOURCE_ERROR, [SourceDiagnostic(input, line, message)], Some(call), [created] + Cleanup(created, output))
      case InternalError(details) =>
        InternalPrefix(input, details);
        LastOrCons(fs, created, Cleanup(created, output));
        (EXIT_INTERNAL_ERROR, [InternalDiagnostic(input, details)], Some(call), [created] + Cleanup(created, output))
  }

  lemma InternalPrefix(input: string, details: string)
    ensures HasPrefix(InternalDiagnostic(input, details), input + INTERNAL_MARK)
  {
    var p := input + INTERNAL_MARK;
    assert InternalDiagnostic(input, details) == p + details;
    TakeOfAppend(p, details);
  }

  lemma LastOrCons(fs: FileSystem, first: FileSystem, steps: seq<FileSystem>)
    ensures LastOr(fs, [first] + steps) == LastOr(first, steps)
  {
  }

  /** Creating the temporary file and removing it again leaves no trace. */
  lemma CreatedThenRemoved(fs: FileSystem, tmp: string, output: string)
    ensures fs[tmp := FileEntry("", false)] - {tmp} == fs - {tmp}
    ensures fs[tmp := FileEntry("", false)] - {output, tmp} == fs - {output, tmp}
  {
  }

  /** Program.Main. */
  function Main(args: seq<string>, fs: FileSystem, env: Environment): (r: Run)
    // the exit code is one of the four documented ones, and 100 means a bad invocation
    ensures r.exitCode in {EXIT_SUCCESS, EXIT_SOURCE_ERROR, EXIT_INTERNAL_ERROR, EXIT_USAGE}
    ensures r.exitCode == EXIT_USAGE <==> |args| < 2
    ensures |args| < 2 ==>
      r.fs == fs && r.snapshots == [] && r.stdout == USAGE_TEXT && r.stderr == [] && r.call == None
    ensures |args| >= 2 ==> r.stdout == [BANNER + Join(" ", args)]
    // the translator is called exactly when the input can be read and the
    // temporary file written, with normalised paths
    ensures r.call.Some? <==> |args| >= 2 && args[0] in fs && !TempBlocked(fs, args[1])
    ensures r.call.Some? ==>
      && r.call.value.source == fs[args[0]].contents
      && r.call.value.inputPath == Normalize(args[0])
      && r.call.value.outputPath == Normalize(args[1])
      && (r.call.value.disableActorWithoutWaitWarning <==> DISABLE_WARNING_FLAG in args)
      && r.call.value == CallFor(fs, args)
    // success: the output holds the translated text, read-only, and the temporary file is gone
    ensures r.exitCode == EXIT_SUCCESS <==> r.call.Some? && env.engine(r.call.value).Translated?
    ensures r.exitCode == EXIT_SUCCESS ==>
      && r.fs == (fs - {TempPath(args[1])})[args[1] := FileEntry(env.engine(r.call.value).text, true)]
      && r.stderr == []
    // a source error: one FAC1000 diagnostic with the translator's line and message
    ensures r.exitCode == EXIT_SOURCE_ERROR <==> r.call.Some? && env.engine(r.call.value).SourceError?
    ensures r.exitCode == EXIT_SOURCE_ERROR ==>
      r.stderr == [SourceDiagnostic(args[0], env.engine(r.call.value).sourceLine, env.engine(r.call.value).message)]
    // any other failure: one FAC2000 diagnostic attributed to line 1
    ensures r.exitCode == EXIT_INTERNAL_ERROR ==>
      && |r.stderr| == 1
      && HasPrefix(r.stderr[0], args[0] + INTERNAL_MARK)
      && (r.call.Some? ==> r.stderr == [InternalDiagnostic(args[0], env.engine(r.call.value).details)])
    // a read-only temporary file stops the run before the translator is called
    ensures |args| >= 2 && args[0] in fs && TempBlocked(fs, args[1]) ==>
      r.exitCode == EXIT_INTERNAL_ERROR && r.stderr == [InternalDiagnostic(args[0], env.deniedText(TempPath(args[1])))]
    // after either failure neither the output nor the temporary file exists
    ensures r.exitCode in {EXIT_SOURCE_ERROR, EXIT_INTERNAL_ERROR} ==>
      r.fs == fs - {args[1], TempPath(args[1])}
    ensures r.fs == LastOr(fs, r.snapshots)
  {
    if |args| < 2 then
      Run(EXIT_USAGE, fs, USAGE_TEXT, [], None, [])
    else
      var o := Outcome(fs, args, env);
      Run(o.0, LastOr(fs, o.3), [BANNER + Join(" ", args)], o.1, o.2, o.3)
  }

  /** What an observer may find at `output` at any moment: the previous file,
      nothing, or the complete new text. */
  predicate OutputIntact(s: FileSystem, output: string, before: FileSystem, text: Option<string>)
  {
    || output !in s
    || (output in before && s[output].contents == before[output].contents)
    || (text.Some? && s[output].contents == text.value)
  }

  predicate AllIntact(steps: seq<FileSystem>, output: string, before: FileSystem, text: Option<string>)
  {
    forall i :: 0 <= i < |steps| ==> OutputIntact(steps[i], output, before, text)
  }

  lemma ClearAndDeleteIntact(fs: FileSystem, output: string, before: FileSystem, text: Option<string>)
    requires OutputIntact(fs, output, before, text)
    ensures AllIntact(ClearAndDelete(fs, output), output, before, text)
  {
  }

  lemma CleanupIntact(fs: FileSystem, output: string, before: FileSystem, text: Option<string>)
    requires OutputIntact(fs, output, before, text)
    ensures AllIntact(Cleanup(fs, output), output, before, text)
  {
    var tmp := TempPath(output);
    TempPathDiffers(output);
    var afterTmp := if tmp in fs then [fs - {tmp}] else [];
    var fs1 := LastOr(fs, afterTmp);
    assert OutputIntact(fs1, output, before, text);
    ClearAndDeleteIntact(fs1, output, before, text);
    assert Cleanup(fs, output) == afterTmp + ClearAndDelete(fs1, output);
  }

  lemma PublishIntact(created: FileSystem, output: string, text: string, before: FileSystem)
    requires TempPath(output) in created
    requires OutputIntact(created, output, before, Some(text))
    ensures AllIntact(Publish(created, output, text), output, before, Some(text))
  {
    var tmp := TempPath(output);
    TempPathDiffers(output);
    var written := created[tmp := FileEntry(text, false)];
    assert OutputIntact(written, output, before, Some(text));
    ClearAndDeleteIntact(written, output, before, Some(text));
  }

  lemma OutcomeIntact(fs: FileSystem, args: seq<string>, env: Environment)
    requires |args| >= 2
    ensures var o := Outcome(fs, args, env);
      var text := if o.2.Some? && env.engine(o.2.value).Translated? then Some(env.engine(o.2.value).text) else None;
      AllIntact(o.3, args[1], fs, text)
  {
    var output := args[1];
    var tmp := TempPath(output);
    TempPathDiffers(output);
    if args[0] !in fs || TempBlocked(fs, output) {
      CleanupIntact(fs, output, fs, None);
    } else {
      var call := Outcome(fs, args, env).2.value;
      var created := fs[tmp := FileEntry("", false)];
      match env.engine(call)
      case Translated(text) =>
        assert OutputIntact(created, output, fs, Some(text));
        PublishIntact(created, output, text, fs);
      case SourceError(_, _) =>
        assert OutputIntact(created, output, fs, None);
        CleanupIntact(created, output, fs, None);
      case InternalError(_) =>
        assert OutputIntact(created, output, fs, None);
        CleanupIntact(created, output, fs, None);
    }
  }

  /** No intermediate state of a run exposes partial output: every snapshot
      holds at `output` either the old contents, nothing, or the whole
      translated text. */
  lemma {:induction false} NoPartialOutput(args: seq<string>, fs: FileSystem, env: Environment)
    requires |args| >= 2
    ensures var r := Main(args, fs, env);
      var text := if r.call.Some? && env.engine(r.call.value).Translated? then Some(env.engine(r.call.value).text) else None;
      AllIntact(r.snapshots, args[1], fs, text)
  {
    OutcomeIntact(fs, args, env);
  }

  /** A run whose input is unchanged and whose output already holds the
      translated text, read-only, with no temporary file, leaves the file
      system as it found it. */
  lemma RunOnPublished(args: seq<string>, fs: FileSystem, env: Environment, text: string)
    requires |args| >= 2 && args[0] in fs
    requires env.engine(CallFor(fs, args)) == Translated(text)
    requires args[1] in fs && fs[args[1]] == FileEntry(text, true)
    requires TempPath(args[1]) !in fs
    ensures Main(args, fs, env).exitCode == EXIT_SUCCESS
    ensures Main(args, fs, env).fs == fs
  {
    PublishedFixed(fs, TempPath(args[1]), args[1], text);
  }

  lemma PublishedFixed(fs: FileSystem, tmp: string, output: string, text: string)
    requires tmp !in fs && output in fs && fs[output] == FileEntry(text, true)
    ensures (fs - {tmp})[output := FileEntry(text, true)] == fs
  {
    assert fs - {tmp} == fs;
  }

  /** Running the driver again on the same arguments succeeds although the
      first run left the output read-only, and publishes the same text. */
  lemma {:induction false} RerunIsIdempotent(args: seq<string>, fs: FileSystem, env: Environment)
    requires |args| >= 2 && args[0] != args[1] && args[0] != TempPath(args[1])
    requires Main(args, fs, env).exitCode == EXIT_SUCCESS
    ensures var first := Main(args, fs, env);
      var second := Main(args, first.fs, env);
      && second.exitCode == EXIT_SUCCESS
      && second.fs == first.fs
      && first.fs[args[1]].readOnly
  {
    var first := Main(args, fs, env);
    var tmp := TempPath(args[1]);
    TempPathDiffers(args[1]);
    var text := env.engine(first.call.value).text;
    var fs1 := first.fs;
    assert fs1[args[0]] == fs[args[0]];
    assert CallFor(fs1, args) == CallFor(fs, args);
    RunOnPublished(args, fs1, env, text);
  }
}
