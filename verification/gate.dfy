/**
 * The merge gate (`check_description_files.py`, `main`): it validates the
 * description files named on the command line, logs one line per step to
 * the console and, when asked, to a markdown report, checks the
 * dependencies of the whole folder, and ends with 0 exactly when nothing
 * was logged as a failure.
 */
module Gate {
  import opened Wrappers
  import opened Text
  import opened Manifest
  import opened Checks
  import opened Extension
  import opened Dependencies

  /** The `message_type` argument of `_log_message`; `Untyped` is a call without one. */
  datatype MessageType = Error | Warning | Success | Info | Untyped

  /** The console prefix of a message: "info" and untyped messages have none. */
  function PlainPrefix(t: MessageType): (r: string)
    ensures r == "" <==> t == Info || t == Untyped
  {
    match t
    case Error => "FAIL: "
    case Warning => "WARNING: "
    case Success => "PASS: "
    case _ => ""
  }

  /** The markdown prefix of a message: a list item with an emoji, or nothing. */
  function MarkdownPrefix(t: MessageType): (r: string)
    ensures r == "" <==> t == Info || t == Untyped
    ensures r != "" ==> StartsWith(r, "- :") && EndsWith(r, ": ")
  {
    match t
    case Error => "- :x: "
    case Warning => "- :warning: "
    case Success => "- :white_check_mark: "
    case _ => ""
  }

  /** A prefixed message tells its type: no two types share a non-empty prefix. */
  lemma PrefixesTellTypesApart(s: MessageType, t: MessageType)
    requires s != t
    ensures PlainPrefix(s) != "" ==> PlainPrefix(s) != PlainPrefix(t)
    ensures MarkdownPrefix(s) != "" ==> MarkdownPrefix(s) != MarkdownPrefix(t)
  {
    assert "FAIL: "[0] != "WARNING: "[0] && "FAIL: "[0] != "PASS: "[0] && "WARNING: "[0] != "PASS: "[0];
    assert "- :x: "[3] != "- :warning: "[3] && "- :x: "[3] != "- :white_check_mark: "[3];
    assert "- :warning: "[4] != "- :white_check_mark: "[4];
  }

  /** One line the gate produces: a message through `_log_message`, or a plain `print`. */
  datatype Output = Logged(kind: MessageType, message: string) | Printed(text: string)

  /** The line as it appears on the console. */
  function ConsoleLine(o: Output): string {
    match o
    case Logged(kind, message) => PlainPrefix(kind) + message
    case Printed(text) => text
  }

  /** The line `_log_message` appends to the report file; printed lines add nothing. */
  function ReportLine(o: Output): string {
    match o
    case Logged(kind, message) => MarkdownPrefix(kind) + message + "\n"
    case Printed(_) => ""
  }

  /** The lines a trace renders to, one after another. */
  function Rendered(outputs: seq<Output>, render: Output -> string): string {
    if |outputs| == 0 then ""
    else Rendered(outputs[..|outputs| - 1], render) + render(outputs[|outputs| - 1])
  }

  /** Rendering line by line gives the rendering of the whole trace. */
  lemma {:induction false} RenderedAppend(a: seq<Output>, b: seq<Output>, render: Output -> string)
    ensures Rendered(a + b, render) == Rendered(a, render) + Rendered(b, render)
    decreases |b|
  {
    if |b| == 0 {
      assert a + b == a;
    } else {
      var init := b[..|b| - 1];
      assert (a + b)[..|a + b| - 1] == a + init;
      assert (a + b)[|a + b| - 1] == b[|b| - 1];
      RenderedAppend(a, init, render);
    }
  }

  /** The report file after a run: it is cleared first, then each logged message is appended. */
  function ReportLines(outputs: seq<Output>): string {
    Rendered(outputs, ReportLine)
  }

  /** Appending to the report message by message gives the lines of the whole run. */
  lemma ReportLinesAppend(a: seq<Output>, b: seq<Output>)
    ensures ReportLines(a + b) == ReportLines(a) + ReportLines(b)
  {
    RenderedAppend(a, b, ReportLine);
  }

  /** A line logged as an error: the only kind that clears the success flag. */
  predicate IsFailure(o: Output) {
    o.Logged? && o.kind == Error
  }

  predicate LogsError(outputs: seq<Output>) {
    exists i | 0 <= i < |outputs| :: IsFailure(outputs[i])
  }

  lemma LogsErrorAppend(a: seq<Output>, b: seq<Output>)
    ensures LogsError(a + b) <==> LogsError(a) || LogsError(b)
  {
    if LogsError(a + b) {
      var i :| 0 <= i < |a + b| && IsFailure((a + b)[i]);
      if i < |a| {
        assert (a + b)[i] == a[i];
      } else {
        assert (a + b)[i] == b[i - |a|];
      }
    }
    if LogsError(a) {
      var i :| 0 <= i < |a| && IsFailure(a[i]);
      assert (a + b)[i] == a[i];
    }
    if LogsError(b) {
      var i :| 0 <= i < |b| && IsFailure(b[i]);
      assert (a + b)[|a| + i] == b[i];
    }
  }

  /** The gate's checks with their descriptions, in the order they run. */
  const GateChecks: seq<(string, CheckFunction)> := [
    ("Check category", CheckCategory),
    ("Check git repository name", CheckGitRepositoryName),
    ("Check SCM URL syntax", CheckScmUrlSyntax)
  ]

  ghost predicate CheckListApplicable(checks: seq<(string, CheckFunction)>, m: Metadata) {
    forall k | 0 <= k < |checks| :: checks[k].1.requires(m)
  }

  lemma GateChecksApplicable(m: Metadata)
    requires WellTyped(m)
    ensures CheckListApplicable(GateChecks, m)
  {
  }

  /** The message logged for one check: its success, or its failure with the check's text. */
  function CheckOutput(description: string, outcome: Outcome): (r: Output)
    ensures r.Logged? && (IsFailure(r) <==> outcome.Some?)
    ensures StartsWith(r.message, description)
  {
    match outcome
    case None => Logged(Success, description + " completed successfully")
    case Some(details) => Logged(Error, description + " failed: " + details)
  }

  /** The messages of a list of checks, one per check in list order. */
  function CheckOutputs(checks: seq<(string, CheckFunction)>, m: Metadata): (r: seq<Output>)
    requires CheckListApplicable(checks, m)
    ensures |r| == |checks|
  {
    if |checks| == 0 then []
    else
      var last := checks[|checks| - 1];
      CheckOutputs(checks[..|checks| - 1], m) + [CheckOutput(last.0, last.1(m))]
  }

  /** The k-th message is the k-th check's. */
  lemma {:induction false} CheckOutputsAt(checks: seq<(string, CheckFunction)>, m: Metadata, k: int)
    requires CheckListApplicable(checks, m)
    requires 0 <= k < |checks|
    ensures CheckOutputs(checks, m)[k] == CheckOutput(checks[k].0, checks[k].1(m))
  {
    var init := checks[..|checks| - 1];
    if k < |init| {
      assert init[k] == checks[k];
      CheckOutputsAt(init, m, k);
    }
  }

  /** A list of checks logs an error exactly when one of them fails. */
  lemma CheckOutputsFail(checks: seq<(string, CheckFunction)>, m: Metadata)
    requires CheckListApplicable(checks, m)
    ensures LogsError(CheckOutputs(checks, m)) <==> exists k | 0 <= k < |checks| :: checks[k].1(m).Some?
  {
    var outputs := CheckOutputs(checks, m);
    if LogsError(outputs) {
      var k :| 0 <= k < |outputs| && IsFailure(outputs[k]);
      CheckOutputsAt(checks, m, k);
    }
    if exists k | 0 <= k < |checks| :: checks[k].1(m).Some? {
      var k :| 0 <= k < |checks| && checks[k].1(m).Some?;
      CheckOutputsAt(checks, m, k);
      assert IsFailure(outputs[k]);
    }
  }

  /** Three described checks log an error exactly when one of the three fails. */
  lemma ThreeDescribedChecksFail(first: (string, CheckFunction), second: (string, CheckFunction),
                                 third: (string, CheckFunction), m: Metadata)
    requires first.1.requires(m) && second.1.requires(m) && third.1.requires(m)
    ensures CheckListApplicable([first, second, third], m)
    ensures LogsError(CheckOutputs([first, second, third], m))
      <==> first.1(m).Some? || second.1(m).Some? || third.1(m).Some?
  {
    var checks := [first, second, third];
    assert checks[0] == first && checks[1] == second && checks[2] == third;
    CheckOutputsFail(checks, m);
  }

  /** The gate's checks log an error exactly when the category, repository-name or URL-syntax check fails. */
  lemma GateChecksFail(m: Metadata)
    requires WellTyped(m)
    ensures CheckListApplicable(GateChecks, m)
    ensures LogsError(CheckOutputs(GateChecks, m))
      <==> CheckCategory(m).Some? || CheckGitRepositoryName(m).Some? || CheckScmUrlSyntax(m).Some?
  {
    ThreeDescribedChecksFail(("Check category", CheckCategory), ("Check git repository name", CheckGitRepositoryName),
                             ("Check SCM URL syntax", CheckScmUrlSyntax), m);
  }

  /** The loop over the gate's checks: each check logs its message, and a failure clears `passed`. */
  method RunGateChecks(checks: seq<(string, CheckFunction)>, m: Metadata) returns (outputs: seq<Output>, passed: bool)
    requires CheckListApplicable(checks, m)
    ensures outputs == CheckOutputs(checks, m)
    ensures passed <==> forall k | 0 <= k < |checks| :: checks[k].1(m) == None
  {
    outputs := [];
    passed := true;
    var i := 0;
    while i < |checks|
      invariant 0 <= i <= |checks|
      invariant CheckListApplicable(checks[..i], m)
      invariant outputs == CheckOutputs(checks[..i], m)
      invariant passed <==> forall k | 0 <= k < i :: checks[k].1(m) == None
    {
      assert checks[..i + 1][..i] == checks[..i];
      var (description, check) := checks[i];
      var outcome := check(m);
      if outcome.Some? {
        outputs := outputs + [Logged(Error, description + " failed: " + outcome.value)];
        passed := false;
      } else {
        outputs := outputs + [Logged(Success, description + " completed successfully")];
      }
      i := i + 1;
    }
    assert checks[..i] == checks;
  }

  /**
   * `metadata.get("scm_url", "").strip()` as written: a missing key gives
   * "", a string is stripped, and any other value (null included) raises
   * `AttributeError`, which nothing catches; `None` stands for that crash.
   */
  function RepositoryUrlAsWritten(m: Metadata): (r: Option<string>)
    ensures r.None? <==> "scm_url" in m && !m["scm_url"].Str?
  {
    if "scm_url" !in m then Some(Strip(""))
    else match m["scm_url"]
      case Str(s) => Some(Strip(s))
      case _ => None
  }

  /**
   * A description whose "scm_url" is null stops the whole run with a crash,
   * although the checks would report it as an unset value.
   */
  lemma NullScmUrlCrashes(m: Metadata)
    requires WellTyped(m) && "scm_url" in m && m["scm_url"] == Null
    ensures RepositoryUrlAsWritten(m) == None
    ensures CheckGitRepositoryName(m) == Some(ValueNotSet("scm_url"))
    ensures CheckScmUrlSyntax(m) == Some(ValueNotSet("scm_url"))
  {
  }

  /**
   * The URL the gate logs, corrected: a missing or unset "scm_url" gives ""
   * and the checks report it; wherever the original does not crash, both agree.
   */
  function RepositoryUrl(m: Metadata): (r: string)
    ensures "scm_url" in m && m["scm_url"].Str? ==> r == Strip(m["scm_url"].s)
    ensures !("scm_url" in m && m["scm_url"].Str?) ==> r == ""
    ensures RepositoryUrlAsWritten(m).Some? ==> r == RepositoryUrlAsWritten(m).value
  {
    if "scm_url" in m && m["scm_url"].Str? then Strip(m["scm_url"].s) else ""
  }

  /** One positional argument: its path, whether it is a file in the folder, and what parsing it gives. */
  datatype FileArg = FileArg(path: string, inFolder: bool, parsed: ParseResult)

  /** An argument the gate validates: a ".json" extension and a file in the folder; the rest are skipped. */
  predicate Processed(f: FileArg) {
    Splitext(f.path).1 == ".json" && f.inFolder
  }

  /**
   * A validated argument that parses but whose "scm_url" the gate cannot
   * strip: the `AttributeError` ends the whole run.
   */
  predicate Crashes(f: FileArg) {
    Processed(f) && f.parsed.Parsed? && RepositoryUrlAsWritten(f.parsed.metadata).None?
  }

  /** The checks can run on an argument whenever the gate reaches them: it parses and its URL line does not crash. */
  ghost predicate ArgApplicable(checks: seq<(string, CheckFunction)>, f: FileArg) {
    f.parsed.Parsed? && RepositoryUrlAsWritten(f.parsed.metadata).Some? ==> CheckListApplicable(checks, f.parsed.metadata)
  }

  ghost predicate ApplicableToArgs(checks: seq<(string, CheckFunction)>, files: seq<FileArg>) {
    forall i | 0 <= i < |files| :: ArgApplicable(checks, files[i])
  }

  /** The gate's checks can run on any argument the gate reaches them with, whatever its "scm_url" holds. */
  lemma GateChecksApplicableToArgs(files: seq<FileArg>)
    ensures ApplicableToArgs(GateChecks, files)
  {
    forall i | 0 <= i < |files| ensures ArgApplicable(GateChecks, files[i]) {
      var p := files[i].parsed;
      if p.Parsed? && RepositoryUrlAsWritten(p.metadata).Some? {
        GateChecksApplicable(p.metadata);
      }
    }
  }

  /** `name.json` is validated when it is in the folder; a name without extension never is. */
  lemma ProcessedByName(name: string, p: ParseResult)
    requires |name| > 0 && '.' !in name && '/' !in name
    ensures Processed(FileArg(name + ".json", true, p))
    ensures !Processed(FileArg(name + ".json", false, p))
    ensures !Processed(FileArg(name, true, p))
  {
    SplitextAtLastDot(name, "json");
    assert name + "." + "json" == name + ".json";
    SplitextNoDot(name);
  }

  /** A hidden ".json" file has no extension and is skipped. */
  lemma HiddenJsonSkipped(p: ParseResult)
    ensures !Processed(FileArg(".json", true, p))
  {
    SplitextDotfile("json");
    assert "." + "json" == ".json";
  }

  /** The header line of a validated argument. */
  function Heading(path: string): (r: Output)
    ensures !IsFailure(r) && StartsWith(ReportLine(r), "## Extension: ")
  {
    var r := Logged(Untyped, "## Extension: " + ExtensionName(path));
    assert ReportLine(r) == "## Extension: " + ExtensionName(path) + "\n";
    r
  }

  /** The three lines logged before the checks of a parsed argument: none of them an error. */
  function ParsedHeader(path: string, url: string): (r: seq<Output>)
    ensures |r| == 3 && !LogsError(r) && r[0] == Heading(path)
  {
    var r := [Heading(path), Logged(Untyped, "Repository URL: " + url),
              Logged(Success, "Parsed extension description file successfully")];
    assert !IsFailure(r[0]) && !IsFailure(r[1]) && !IsFailure(r[2]);
    r
  }

  /** The two lines of an argument that does not parse: the header and the error. */
  function ParseFailureLines(path: string, details: string): (r: seq<Output>)
    ensures |r| == 2 && LogsError(r) && r[0] == Heading(path)
  {
    var r := [Heading(path), Logged(Error, "Failed to parse extension description file: " + details)];
    assert IsFailure(r[1]);
    r
  }

  /** The one line printed for a skipped argument. */
  function SkipLine(f: FileArg): (r: Output)
    ensures r.Printed? && ReportLine(r) == "" && !IsFailure(r)
  {
    if Splitext(f.path).1 != ".json" then Printed("Skipping " + f.path + " (not a .json file)")
    else Printed("Skipping " + f.path + " (not a file in the extensions descriptions folder)")
  }

  /**
   * What the gate prints and logs for one argument, running `checks` on it;
   * an argument that crashes the run logs its heading only.
   */
  function FileOutputs(checks: seq<(string, CheckFunction)>, f: FileArg): (r: seq<Output>)
    requires ArgApplicable(checks, f)
    ensures !Processed(f) ==> r == [SkipLine(f)]
    ensures Processed(f) ==> |r| >= 1 && r[0] == Heading(f.path)
    ensures Processed(f) ==> (|r| == 1 <==> Crashes(f))
  {
    if !Processed(f) then [SkipLine(f)]
    else
      match f.parsed
      case ParseFailure(details) => ParseFailureLines(f.path, details)
      case Parsed(m) =>
        match RepositoryUrlAsWritten(m)
        case None => [Heading(f.path)]
        case Some(url) => ParsedHeader(f.path, url) + CheckOutputs(checks, m)
  }

  /** An argument passes: it is skipped, or it parses, its URL line does not crash, and every check passes. */
  ghost predicate FilePasses(checks: seq<(string, CheckFunction)>, f: FileArg)
    requires ArgApplicable(checks, f)
  {
    || !Processed(f)
    || (&& f.parsed.Parsed?
        && RepositoryUrlAsWritten(f.parsed.metadata).Some?
        && forall k | 0 <= k < |checks| :: checks[k].1(f.parsed.metadata) == None)
  }

  /**
   * For the gate's checks: an argument passes when it is skipped, or parses
   * with a missing or string "scm_url" and the three checks pass.
   */
  lemma GateFilePasses(f: FileArg)
    ensures ArgApplicable(GateChecks, f)
    ensures FilePasses(GateChecks, f) <==>
      !Processed(f) || (
        && f.parsed.Parsed?
        && ("scm_url" in f.parsed.metadata ==> f.parsed.metadata["scm_url"].Str?)
        && CheckCategory(f.parsed.metadata) == None
        && CheckGitRepositoryName(f.parsed.metadata) == None
        && CheckScmUrlSyntax(f.parsed.metadata) == None)
  {
    hide *;
    if f.parsed.Parsed? && RepositoryUrlAsWritten(f.parsed.metadata).Some? {
      ThreeChecksOf(f.parsed.metadata);
      FilePassesReached(GateChecks, f);
    } else {
      FilePassesUnreached(GateChecks, f);
    }
  }

  /** Whether an argument the checks are reached on passes. */
  lemma FilePassesReached(checks: seq<(string, CheckFunction)>, f: FileArg)
    requires f.parsed.Parsed? && RepositoryUrlAsWritten(f.parsed.metadata).Some?
    requires CheckListApplicable(checks, f.parsed.metadata)
    ensures ArgApplicable(checks, f)
    ensures "scm_url" in f.parsed.metadata ==> f.parsed.metadata["scm_url"].Str?
    ensures FilePasses(checks, f) <==> !Processed(f) || forall k | 0 <= k < |checks| :: checks[k].1(f.parsed.metadata) == None
  {
  }

  /** Whether an argument the checks are not reached on passes. */
  lemma FilePassesUnreached(checks: seq<(string, CheckFunction)>, f: FileArg)
    requires !(f.parsed.Parsed? && RepositoryUrlAsWritten(f.parsed.metadata).Some?)
    ensures ArgApplicable(checks, f)
    ensures f.parsed.Parsed? ==> "scm_url" in f.parsed.metadata && !f.parsed.metadata["scm_url"].Str?
    ensures FilePasses(checks, f) <==> !Processed(f)
  {
  }

  /**
   * The lines of a validated argument that parses and whose URL line does
   * not crash: the stripped URL second, then the k-th check's message at 3 + k.
   */
  lemma ParsedFileLines(checks: seq<(string, CheckFunction)>, f: FileArg, k: int)
    requires Processed(f) && f.parsed.Parsed? && RepositoryUrlAsWritten(f.parsed.metadata).Some?
    requires CheckListApplicable(checks, f.parsed.metadata)
    requires 0 <= k < |checks|
    ensures |FileOutputs(checks, f)| == 3 + |checks|
    ensures FileOutputs(checks, f)[1] == Logged(Untyped, "Repository URL: " + RepositoryUrlAsWritten(f.parsed.metadata).value)
    ensures FileOutputs(checks, f)[3 + k] == CheckOutput(checks[k].0, checks[k].1(f.parsed.metadata))
  {
    hide *;
    var m := f.parsed.metadata;
    ReachedFileLines(checks, f);
    HeaderThenChecks(f.path, RepositoryUrlAsWritten(m).value, CheckOutputs(checks, m));
    CheckOutputsAt(checks, m, k);
  }

  /** The lines of an argument the checks are reached on: the header, then the checks' messages. */
  lemma ReachedFileLines(checks: seq<(string, CheckFunction)>, f: FileArg)
    requires Processed(f) && f.parsed.Parsed? && RepositoryUrlAsWritten(f.parsed.metadata).Some?
    requires CheckListApplicable(checks, f.parsed.metadata)
    ensures FileOutputs(checks, f)
      == ParsedHeader(f.path, RepositoryUrlAsWritten(f.parsed.metadata).value) + CheckOutputs(checks, f.parsed.metadata)
  {
    hide Splitext;
  }

  /** Where the URL line and the checks' messages sit after the header. */
  lemma HeaderThenChecks(path: string, url: string, checkLines: seq<Output>)
    ensures |ParsedHeader(path, url) + checkLines| == 3 + |checkLines|
    ensures (ParsedHeader(path, url) + checkLines)[1] == Logged(Untyped, "Repository URL: " + url)
    ensures forall k | 0 <= k < |checkLines| :: (ParsedHeader(path, url) + checkLines)[3 + k] == checkLines[k]
  {
  }

  /**
   * An argument whose "scm_url" is null or another non-string logs its
   * heading and nothing more: no URL line, no check, and it does not pass.
   */
  lemma CrashingFileLines(checks: seq<(string, CheckFunction)>, f: FileArg)
    requires ArgApplicable(checks, f) && Crashes(f)
    ensures FileOutputs(checks, f) == [Heading(f.path)]
    ensures !LogsError(FileOutputs(checks, f)) && !FilePasses(checks, f)
  {
    hide Splitext;
  }

  /**
   * Corrected, a validated description whose "scm_url" is null would log an
   * empty URL, then the URL-syntax check's failure, and fail the gate
   * instead of ending it.
   */
  lemma NullScmUrlReported(path: string, m: Metadata)
    requires "scm_url" in m && m["scm_url"] == Null
    ensures CheckListApplicable(GateChecks, m)
    ensures var lines := ParsedHeader(path, RepositoryUrl(m)) + CheckOutputs(GateChecks, m);
      && |lines| == 6
      && lines[1] == Logged(Untyped, "Repository URL: ")
      && lines[5] == Logged(Error, "Check SCM URL syntax" + " failed: " + ValueNotSet("scm_url"))
      && LogsError(lines)
  {
    GateChecksApplicable(m);
    assert GateChecks[2] == ("Check SCM URL syntax", CheckScmUrlSyntax);
    assert CheckScmUrlSyntax(m) == Some(ValueNotSet("scm_url"));
    CheckOutputsAt(GateChecks, m, 2);
    var lines := ParsedHeader(path, RepositoryUrl(m)) + CheckOutputs(GateChecks, m);
    assert IsFailure(lines[5]);
  }

  /** The lines of an argument that does not crash the run hold an error exactly when it does not pass. */
  lemma FileOutputsFail(checks: seq<(string, CheckFunction)>, f: FileArg)
    requires ArgApplicable(checks, f) && !Crashes(f)
    ensures LogsError(FileOutputs(checks, f)) <==> !FilePasses(checks, f)
  {
    if Processed(f) && f.parsed.Parsed? {
      var m := f.parsed.metadata;
      LogsErrorAppend(ParsedHeader(f.path, RepositoryUrlAsWritten(m).value), CheckOutputs(checks, m));
      CheckOutputsFail(checks, m);
    } else if !Processed(f) {
      assert !IsFailure(FileOutputs(checks, f)[0]);
    }
  }

  /** A skipped argument only prints: it adds nothing to the report file. */
  lemma SkippedFileNotReported(checks: seq<(string, CheckFunction)>, f: FileArg)
    requires ArgApplicable(checks, f)
    requires !Processed(f)
    ensures ReportLines(FileOutputs(checks, f)) == ""
  {
    var r := FileOutputs(checks, f);
    assert r == [SkipLine(f)];
    assert r[..|r| - 1] == [];
    assert Rendered(r, ReportLine) == Rendered([], ReportLine) + ReportLine(SkipLine(f));
  }

  /** The lines of the first `n` arguments, in command-line order. */
  function FilesOutputs(checks: seq<(string, CheckFunction)>, files: seq<FileArg>, n: nat): seq<Output>
    requires ApplicableToArgs(checks, files) && n <= |files|
  {
    if n == 0 then [] else FilesOutputs(checks, files, n - 1) + FileOutputs(checks, files[n - 1])
  }

  /** The first `n` arguments pass. */
  ghost predicate AllFilesPass(checks: seq<(string, CheckFunction)>, files: seq<FileArg>, n: nat)
    requires ApplicableToArgs(checks, files) && n <= |files|
  {
    forall i | 0 <= i < n :: FilePasses(checks, files[i])
  }

  /** None of the first `n` arguments crashes the run. */
  predicate NoCrashBefore(files: seq<FileArg>, n: nat)
    requires n <= |files|
  {
    forall i | 0 <= i < n :: !Crashes(files[i])
  }

  /** Argument `c` is the first that crashes the run. */
  predicate FirstCrash(files: seq<FileArg>, c: int) {
    0 <= c < |files| && Crashes(files[c]) && NoCrashBefore(files, c)
  }

  /** The arguments' lines hold an error exactly when some argument does not pass, none crashing. */
  lemma {:induction false} FilesOutputsFail(checks: seq<(string, CheckFunction)>, files: seq<FileArg>, n: nat)
    requires ApplicableToArgs(checks, files) && n <= |files| && NoCrashBefore(files, n)
    ensures LogsError(FilesOutputs(checks, files, n)) <==> !AllFilesPass(checks, files, n)
  {
    hide FileOutputs;
    hide FilePasses;
    hide Crashes;
    if n > 0 {
      FilesOutputsFail(checks, files, n - 1);
      LogsErrorAppend(FilesOutputs(checks, files, n - 1), FileOutputs(checks, files[n - 1]));
      FileOutputsFail(checks, files[n - 1]);
    }
  }

  /** An argument that crashes the run keeps the arguments from passing. */
  lemma CrashedArgumentFails(checks: seq<(string, CheckFunction)>, files: seq<FileArg>, c: int)
    requires ApplicableToArgs(checks, files) && 0 <= c < |files| && Crashes(files[c])
    ensures !AllFilesPass(checks, files, |files|)
  {
    hide Splitext;
    assert !FilePasses(checks, files[c]);
  }

  /** What `check_dependencies` ends with, as the gate sees it. */
  function ExpectedOutcome(folder: seq<ListedFile>): (r: DependencyOutcome)
    requires AllDependsTyped(folder)
    ensures r == Resolved <==> MissingDependencies(folder) == {}
  {
    if MissingDependencies(folder) == {} then Resolved else DependencyError(ExpectedLines(folder))
  }

  /** The lines of the dependency step: a heading, then success or the error's lines. */
  function DependencyOutputs(outcome: DependencyOutcome): seq<Output> {
    [Logged(Info, "## Extension dependencies")]
    + match outcome
      case Resolved => [Logged(Success, "Dependency check completed successfully")]
      case DependencyError(lines) => [Logged(Error, "Dependency check failed: " + ErrorText(lines))]
  }

  lemma DependencyOutputsFail(outcome: DependencyOutcome)
    ensures LogsError(DependencyOutputs(outcome)) <==> outcome.DependencyError?
  {
    var r := DependencyOutputs(outcome);
    assert !IsFailure(r[0]);
    if outcome.DependencyError? {
      assert IsFailure(r[1]);
    }
  }

  /** `--report-file` is given: an empty value counts as absent. */
  predicate Writes(reportFile: Option<string>) {
    reportFile.Some? && reportFile.value != ""
  }

  /**
   * A run ends with the `ValueError` on the report name, with the
   * `AttributeError` of an argument's "scm_url" after the lines logged so
   * far, or with its lines, report and success flag.
   */
  datatype GateRun =
    | InvalidReportFile
    | Crashed(outputs: seq<Output>, report: Option<string>)
    | Completed(outputs: seq<Output>, report: Option<string>, success: bool)

  /** `sys.exit(0 if success else 1)`; an uncaught exception also ends with 1. */
  function ExitCode(run: GateRun): (code: int)
    ensures code == 0 || code == 1
  {
    if run.Completed? && run.success then 0 else 1
  }

  /** Everything the gate demands: every argument passes the gate's checks, and no dependency is missing. */
  ghost predicate GatePasses(files: seq<FileArg>, folder: seq<ListedFile>)
    requires AllDependsTyped(folder)
  {
    GateChecksApplicableToArgs(files);
    AllFilesPass(GateChecks, files, |files|) && MissingDependencies(folder) == {}
  }

  lemma GatePassesMeans(files: seq<FileArg>, folder: seq<ListedFile>)
    requires AllDependsTyped(folder)
    ensures ApplicableToArgs(GateChecks, files)
    ensures GatePasses(files, folder)
      <==> AllFilesPass(GateChecks, files, |files|) && ExpectedOutcome(folder) == Resolved
  {
    GateChecksApplicableToArgs(files);
  }

  /** The lines of the arguments and of a dependency outcome hold an error exactly when an argument fails or a dependency is missing. */
  lemma RunLinesFail(checks: seq<(string, CheckFunction)>, files: seq<FileArg>, outcome: DependencyOutcome)
    requires ApplicableToArgs(checks, files) && NoCrashBefore(files, |files|)
    ensures LogsError(FilesOutputs(checks, files, |files|) + DependencyOutputs(outcome))
      <==> !AllFilesPass(checks, files, |files|) || outcome.DependencyError?
  {
    hide *;
    LogsErrorAppend(FilesOutputs(checks, files, |files|), DependencyOutputs(outcome));
    FilesOutputsFail(checks, files, |files|);
    DependencyOutputsFail(outcome);
  }

  /** The lines of a run that no argument crashes hold an error exactly when the gate's demands are not met. */
  lemma GateLinesFail(files: seq<FileArg>, folder: seq<ListedFile>)
    requires AllDependsTyped(folder) && NoCrashBefore(files, |files|)
    ensures ApplicableToArgs(GateChecks, files)
    ensures LogsError(FilesOutputs(GateChecks, files, |files|) + DependencyOutputs(ExpectedOutcome(folder)))
      <==> !GatePasses(files, folder)
  {
    hide *;
    GateChecksApplicableToArgs(files);
    GatePassesMeans(files, folder);
    RunLinesFail(GateChecks, files, ExpectedOutcome(folder));
  }

  /** Removing a skipped argument does not change whether the arguments pass. */
  lemma SkippedFilesIrrelevant(checks: seq<(string, CheckFunction)>, files: seq<FileArg>, i: int)
    requires ApplicableToArgs(checks, files)
    requires 0 <= i < |files| && !Processed(files[i])
    ensures ApplicableToArgs(checks, files[..i] + files[i + 1..])
    ensures AllFilesPass(checks, files, |files|)
      <==> AllFilesPass(checks, files[..i] + files[i + 1..], |files| - 1)
  {
    hide Splitext;
    var rest := files[..i] + files[i + 1..];
    assert forall k | 0 <= k < |rest| :: rest[k] == if k < i then files[k] else files[k + 1];
    if AllFilesPass(checks, rest, |rest|) {
      forall k | 0 <= k < |files| ensures FilePasses(checks, files[k]) {
        if k < i {
          assert rest[k] == files[k];
        } else if k > i {
          assert rest[k - 1] == files[k];
        }
      }
    }
  }

  /**
   * One argument: skipped with a printed line, or validated; `ok` is false
   * when it does not pass, and `crashed` is set when its URL line raises.
   */
  method ValidateFile(checks: seq<(string, CheckFunction)>, f: FileArg) returns (outputs: seq<Output>, ok: bool, crashed: bool)
    requires ArgApplicable(checks, f)
    ensures outputs == FileOutputs(checks, f)
    ensures ok <==> FilePasses(checks, f)
    ensures crashed <==> Crashes(f)
  {
    if Splitext(f.path).1 != ".json" {
      return [Printed("Skipping " + f.path + " (not a .json file)")], true, false;
    }
    if !f.inFolder {
      return [Printed("Skipping " + f.path + " (not a file in the extensions descriptions folder)")], true, false;
    }
    var header := Logged(Untyped, "## Extension: " + ExtensionName(f.path));
    match f.parsed {
      case ParseFailure(details) =>
        outputs := [header, Logged(Error, "Failed to parse extension description file: " + details)];
        ok, crashed := false, false;
      case Parsed(m) =>
        var url := RepositoryUrlAsWritten(m);
        if url.None? {
          return [header], false, true;
        }
        outputs := [header, Logged(Untyped, "Repository URL: " + url.value),
                    Logged(Success, "Parsed extension description file successfully")];
        var checkOutputs, passed := RunGateChecks(checks, m);
        outputs := outputs + checkOutputs;
        ok, crashed := passed, false;
    }
  }

  /** The gate's checks all pass exactly when the category, repository-name and URL-syntax checks pass. */
  lemma ThreeChecksOf(m: Metadata)
    requires WellTyped(m)
    ensures CheckListApplicable(GateChecks, m)
    ensures (forall k | 0 <= k < |GateChecks| :: GateChecks[k].1(m) == None)
      <==> CheckCategory(m) == None && CheckGitRepositoryName(m) == None && CheckScmUrlSyntax(m) == None
  {
    assert GateChecks[0].1 == CheckCategory;
    assert GateChecks[1].1 == CheckGitRepositoryName;
    assert GateChecks[2].1 == CheckScmUrlSyntax;
  }

  /** One turn of the loop over the arguments: validate the next one and add its lines. */
  method ValidateNext(checks: seq<(string, CheckFunction)>, files: seq<FileArg>, writes: bool, i: nat,
                      outputs: seq<Output>, report: string, success: bool)
    returns (outputs': seq<Output>, report': string, success': bool, crashed: bool)
    requires ApplicableToArgs(checks, files) && i < |files|
    requires outputs == FilesOutputs(checks, files, i)
    requires report == if writes then ReportLines(outputs) else ""
    requires success <==> AllFilesPass(checks, files, i)
    ensures outputs' == FilesOutputs(checks, files, i + 1)
    ensures report' == if writes then ReportLines(outputs') else ""
    ensures success' <==> AllFilesPass(checks, files, i + 1)
    ensures crashed <==> Crashes(files[i])
  {
    hide FileOutputs;
    hide FilePasses;
    hide Crashes;
    hide ArgApplicable;
    hide RepositoryUrlAsWritten;
    var lines, ok;
    lines, ok, crashed := ValidateFile(checks, files[i]);
    ReportLinesAppend(outputs, lines);
    outputs' := outputs + lines;
    report' := report;
    if writes {
      report' := report + ReportLines(lines);
    }
    success' := success && ok;
  }

  /**
   * The loop over the arguments: each argument's lines are appended to the
   * trace and, when a report is written, to the report; `success` is cleared
   * by any argument that does not pass, and the first argument whose URL
   * line raises ends the loop, and the run, after its heading.
   */
  method ValidateAll(checks: seq<(string, CheckFunction)>, files: seq<FileArg>, writes: bool)
    returns (outputs: seq<Output>, report: string, success: bool, crashed: bool)
    requires ApplicableToArgs(checks, files)
    ensures crashed <==> !NoCrashBefore(files, |files|)
    ensures crashed ==> exists c :: FirstCrash(files, c) && outputs == FilesOutputs(checks, files, c + 1)
    ensures !crashed ==> outputs == FilesOutputs(checks, files, |files|)
    ensures !crashed ==> (success <==> AllFilesPass(checks, files, |files|))
    ensures report == if writes then ReportLines(outputs) else ""
  {
    hide FileOutputs;
    hide FilePasses;
    hide Crashes;
    success, crashed := true, false;
    outputs := [];
    report := "";
    var i := 0;
    while i < |files| && !crashed
      invariant 0 <= i <= |files|
      invariant outputs == FilesOutputs(checks, files, i)
      invariant report == if writes then ReportLines(outputs) else ""
      invariant !crashed ==> NoCrashBefore(files, i) && (success <==> AllFilesPass(checks, files, i))
      invariant crashed ==> FirstCrash(files, i - 1)
    {
      outputs, report, success, crashed := ValidateNext(checks, files, writes, i, outputs, report, success);
      i := i + 1;
    }
    if crashed {
      assert FirstCrash(files, i - 1) && outputs == FilesOutputs(checks, files, i - 1 + 1);
    }
  }

  /** The dependency step: the heading, then the outcome of `check_dependencies` on the folder. */
  method CheckFolder(folder: seq<ListedFile>) returns (lines: seq<Output>, ok: bool)
    requires AllDependsTyped(folder)
    ensures lines == DependencyOutputs(ExpectedOutcome(folder))
    ensures ok <==> MissingDependencies(folder) == {}
  {
    var outcome := CheckDependencies(folder);
    if outcome.DependencyError? {
      lines := [Logged(Info, "## Extension dependencies"), Logged(Error, "Dependency check failed: " + ErrorText(outcome.lines))];
      ok := false;
    } else {
      lines := [Logged(Info, "## Extension dependencies"), Logged(Success, "Dependency check completed successfully")];
      ok := true;
    }
    assert outcome == ExpectedOutcome(folder);
  }

  /**
   * `main`: the report name is checked and the report cleared, each
   * argument is validated in order until one whose "scm_url" is not a
   * string ends the run, then the folder's dependencies are checked; the
   * exit code is 0 exactly when the report name is acceptable, every
   * validated argument parses, has a readable URL and passes the three
   * checks, and no dependency is missing.
   */
  method RunGate(reportFile: Option<string>, files: seq<FileArg>, folder: seq<ListedFile>) returns (run: GateRun)
    requires AllDependsTyped(folder)
    ensures ApplicableToArgs(GateChecks, files)
    ensures run == InvalidReportFile <==> Writes(reportFile) && !EndsWith(reportFile.value, ".md")
    ensures run.Crashed? <==> run != InvalidReportFile && !NoCrashBefore(files, |files|)
    ensures run.Crashed? ==> exists c :: FirstCrash(files, c) && run.outputs == FilesOutputs(GateChecks, files, c + 1)
    ensures run.Completed? ==> run.outputs == FilesOutputs(GateChecks, files, |files|) + DependencyOutputs(ExpectedOutcome(folder))
    ensures run != InvalidReportFile ==> run.report == if Writes(reportFile) then Some(ReportLines(run.outputs)) else None
    ensures run.Completed? ==> (run.success <==> !LogsError(run.outputs))
    ensures ExitCode(run) == 0 <==> run.Completed? && GatePasses(files, folder)
  {
    GateChecksApplicableToArgs(files);
    var writes := Writes(reportFile);
    if writes && !EndsWith(reportFile.value, ".md") {
      return InvalidReportFile;
    }
    var outputs, report, success, crashed := ValidateAll(GateChecks, files, writes);
    if crashed {
      var c :| FirstCrash(files, c) && outputs == FilesOutputs(GateChecks, files, c + 1);
      CrashedArgumentFails(GateChecks, files, c);
      GatePassesMeans(files, folder);
      return Crashed(outputs, if writes then Some(report) else None);
    }
    var tail, resolved := CheckFolder(folder);
    ReportLinesAppend(outputs, tail);
    outputs := outputs + tail;
    if writes {
      report := report + ReportLines(tail);
    }
    if !resolved {
      success := false;
    }
    GateLinesFail(files, folder);
    run := Completed(outputs, if writes then Some(report) else None, success);
  }
}
