/**
 * The per-description pipeline of the reporting script (`_check_extension`)
 * and its driver in `main`: the extension's name is taken from the file
 * name, a parse failure is the only failure and no check runs, otherwise
 * every check of the list runs in order and every failure is kept;
 * duplicates are then removed. The driver runs the pipeline on every file
 * and keeps the results in input order.
 */
module Extension {
  import opened Wrappers
  import opened Text
  import opened Manifest
  import opened Checks

  /** `os.path.splitext(os.path.basename(path))[0]` */
  function ExtensionName(path: string): (r: string)
    ensures '/' !in r
  {
    Splitext(Basename(path)).0
  }

  /** A description file `dir/name.json` belongs to the extension `name`. */
  lemma ExtensionNameOfPath(dir: string, name: string)
    requires |name| > 0 && '.' !in name && '/' !in name
    ensures ExtensionName(dir + "/" + name + ".json") == name
  {
    var p := dir + "/" + name + ".json";
    var file := name + "." + "json";
    assert p == dir + ['/'] + file;
    assert '/' !in file by {
      forall i | 0 <= i < |file| ensures file[i] != '/' {
        if i < |name| { assert file[i] == name[i]; }
      }
    }
    RFindBefore(dir, '/', file);
    assert Basename(p) == file;
    SplitextAtLastDot(name, "json");
  }

  /** A check as the scripts' check lists hold it: a function of the metadata. */
  type CheckFunction = Metadata --> Outcome

  /** Every check of the list can run on `m`. */
  ghost predicate Applicable(checks: seq<CheckFunction>, m: Metadata) {
    forall i | 0 <= i < |checks| :: checks[i].requires(m)
  }

  /** The failures of `checks` on `m`, in check order, duplicates kept. */
  function FailuresOf(checks: seq<CheckFunction>, m: Metadata): seq<string>
    requires Applicable(checks, m)
  {
    if |checks| == 0 then []
    else
      var outcome := checks[|checks| - 1](m);
      FailuresOf(checks[..|checks| - 1], m) + if outcome.Some? then [outcome.value] else []
  }

  /** A text is among the failures exactly when one of the checks fails with it. */
  lemma {:induction false} FailuresOfMembership(checks: seq<CheckFunction>, m: Metadata, f: string)
    requires Applicable(checks, m)
    ensures f in FailuresOf(checks, m) <==> exists i | 0 <= i < |checks| :: checks[i](m) == Some(f)
  {
    if |checks| > 0 {
      var init := checks[..|checks| - 1];
      FailuresOfMembership(init, m, f);
      assert forall i | 0 <= i < |init| :: init[i] == checks[i];
    }
  }

  /** There is no failure exactly when every check passes. */
  lemma {:induction false} FailuresOfEmpty(checks: seq<CheckFunction>, m: Metadata)
    requires Applicable(checks, m)
    ensures FailuresOf(checks, m) == [] <==> forall i | 0 <= i < |checks| :: checks[i](m) == None
  {
    if |checks| > 0 {
      var init := checks[..|checks| - 1];
      FailuresOfEmpty(init, m);
      assert forall i | 0 <= i < |init| :: init[i] == checks[i];
    }
  }

  /** The checks of the reporting script, in the order they run. */
  const ReportChecks: seq<CheckFunction> := [CheckCategory, CheckGitRepositoryName, CheckScmUrlSyntax]

  lemma ReportChecksApplicable(m: Metadata)
    requires WellTyped(m)
    ensures Applicable(ReportChecks, m)
  {
  }

  /** Three checks find nothing exactly when each of them passes. */
  lemma ThreeChecksPassIff(first: CheckFunction, second: CheckFunction, third: CheckFunction, m: Metadata)
    requires first.requires(m) && second.requires(m) && third.requires(m)
    ensures Applicable([first, second, third], m)
    ensures FailuresOf([first, second, third], m) == [] <==> first(m) == None && second(m) == None && third(m) == None
  {
    var checks := [first, second, third];
    FailuresOfEmpty(checks, m);
    assert checks[0] == first && checks[1] == second && checks[2] == third;
  }

  /** The reporting script's checks find nothing exactly when the three checks pass. */
  lemma ReportChecksPassIff(m: Metadata)
    requires WellTyped(m)
    ensures Applicable(ReportChecks, m)
    ensures FailuresOf(ReportChecks, m) == [] <==>
      CheckCategory(m) == None && CheckGitRepositoryName(m) == None && CheckScmUrlSyntax(m) == None
  {
    ThreeChecksPassIff(CheckCategory, CheckGitRepositoryName, CheckScmUrlSyntax, m);
  }

  /** Without an "scm_url" key both URL checks fail with the same text, after the category's failure if any. */
  lemma MissingScmUrlFailures(m: Metadata)
    requires WellTyped(m) && "scm_url" !in m
    ensures Applicable(ReportChecks, m)
    ensures FailuresOf(ReportChecks, m)
      == (if CheckCategory(m).Some? then [CheckCategory(m).value] else []) + [KeyMissing("scm_url"), KeyMissing("scm_url")]
  {
    var category := if CheckCategory(m).Some? then [CheckCategory(m).value] else [];
    assert ReportChecks[..1][..0] == [];
    assert FailuresOf(ReportChecks[..1], m) == category;
    assert ReportChecks[..2][..1] == ReportChecks[..1];
    assert FailuresOf(ReportChecks[..2], m) == category + [KeyMissing("scm_url")];
    assert ReportChecks[..3] == ReportChecks;
  }

  /** The failures before duplicates are removed: the parse error alone, or those of the checks. */
  function RawFailures(checks: seq<CheckFunction>, parsed: ParseResult): seq<string>
    requires parsed.Parsed? ==> Applicable(checks, parsed.metadata)
  {
    match parsed
    case ParseFailure(details) => [details]
    case Parsed(m) => FailuresOf(checks, m)
  }

  /** `unique` holds the elements of `raw`, each once: what `list(set(raw))` gives, in some order. */
  predicate Deduplicated(unique: seq<string>, raw: seq<string>) {
    && NoDuplicates(unique)
    && (forall i | 0 <= i < |unique| :: unique[i] in raw)
    && (forall j | 0 <= j < |raw| :: raw[j] in unique)
  }

  /** The only duplicate-free list of the elements of `[x]` is `[x]`. */
  lemma DeduplicatedSingleton(unique: seq<string>, x: string)
    requires Deduplicated(unique, [x])
    ensures unique == [x]
  {
    assert (set y | y in unique) == {x} by {
      assert [x][0] in unique;
    }
    NoDuplicatesCardinality(unique);
    assert unique[0] in [x];
  }

  /** Removing duplicates leaves nothing exactly when there was nothing. */
  lemma DeduplicatedEmpty(unique: seq<string>, raw: seq<string>)
    requires Deduplicated(unique, raw)
    ensures unique == [] <==> raw == []
  {
    if raw != [] {
      assert raw[0] in unique;
    }
    if unique != [] {
      assert unique[0] in raw;
    }
  }

  /** In a list without duplicates, an element that occurs occurs once. */
  lemma {:induction false} NoDuplicatesCount(s: seq<string>, k: int)
    requires NoDuplicates(s) && 0 <= k < |s|
    ensures multiset(s)[s[k]] == 1
  {
    var x := s[k];
    var init := s[..|s| - 1];
    assert s == init + [s[|s| - 1]];
    if k == |s| - 1 {
      assert x !in init by {
        assert forall i | 0 <= i < |init| :: init[i] == s[i] && s[i] != x;
      }
    } else {
      assert NoDuplicates(init);
      NoDuplicatesCount(init, k);
      assert init[k] == x && s[|s| - 1] != x;
    }
  }

  /** Each element of `raw` is in a deduplicated list exactly once. */
  lemma DeduplicatedOnce(unique: seq<string>, raw: seq<string>, j: int)
    requires Deduplicated(unique, raw) && 0 <= j < |raw|
    ensures multiset(unique)[raw[j]] == 1
  {
    assert raw[j] in unique;
    var k :| 0 <= k < |unique| && unique[k] == raw[j];
    NoDuplicatesCount(unique, k);
  }

  /** One entry of the driver's result list: an extension name and its failures. */
  datatype ExtensionResult = ExtensionResult(name: string, failures: seq<string>)

  /**
   * What `_check_extension(path)` with the check list `checks` may return
   * when parsing gives `parsed`: the extension's name and the raw failures
   * without duplicates. The order of `list(set(...))` is not fixed, so only
   * the elements are.
   */
  ghost predicate Reports(checks: seq<CheckFunction>, path: string, parsed: ParseResult, r: ExtensionResult)
    requires parsed.Parsed? ==> Applicable(checks, parsed.metadata)
  {
    r.name == ExtensionName(path) && Deduplicated(r.failures, RawFailures(checks, parsed))
  }

  /** A file that does not parse reports its parse error once and nothing else. */
  lemma ParseFailureIsOnlyFailure(checks: seq<CheckFunction>, path: string, details: string, r: ExtensionResult)
    requires Reports(checks, path, ParseFailure(details), r)
    ensures r.failures == [details]
  {
    DeduplicatedSingleton(r.failures, details);
  }

  /** A description that parses passes when, and only when, every check passes on it. */
  lemma ParsedPassesIffChecksPass(checks: seq<CheckFunction>, path: string, m: Metadata, r: ExtensionResult)
    requires Applicable(checks, m) && Reports(checks, path, Parsed(m), r)
    ensures r.failures == [] <==> forall i | 0 <= i < |checks| :: checks[i](m) == None
  {
    DeduplicatedEmpty(r.failures, FailuresOf(checks, m));
    FailuresOfEmpty(checks, m);
  }

  /**
   * Without an "scm_url" key, both URL checks of the reporting script fail
   * with the same text, so after duplicates are removed it appears exactly
   * once, beside the category failure if there is one.
   */
  lemma MissingScmUrlCollapses(path: string, m: Metadata, r: ExtensionResult)
    requires WellTyped(m) && "scm_url" !in m
    requires Applicable(ReportChecks, m) && Reports(ReportChecks, path, Parsed(m), r)
    ensures multiset(r.failures)[KeyMissing("scm_url")] == 1
    ensures forall i | 0 <= i < |r.failures| ::
      r.failures[i] == KeyMissing("scm_url") || CheckCategory(m) == Some(r.failures[i])
  {
    var raw := FailuresOf(ReportChecks, m);
    MissingScmUrlFailures(m);
    DeduplicatedOnce(r.failures, raw, |raw| - 1);
  }

  /** `list(set(raw))`, keeping the first of each element. */
  method Deduplicate(raw: seq<string>) returns (unique: seq<string>)
    ensures Deduplicated(unique, raw)
  {
    unique := [];
    var j := 0;
    while j < |raw|
      invariant 0 <= j <= |raw|
      invariant NoDuplicates(unique)
      invariant forall i | 0 <= i < |unique| :: unique[i] in raw[..j]
      invariant forall k | 0 <= k < j :: raw[k] in unique
    {
      if raw[j] !in unique {
        unique := unique + [raw[j]];
      }
      j := j + 1;
    }
  }

  /** The loop of `_check_extension` over the checks: every failure, in check order. */
  method RunChecks(checks: seq<CheckFunction>, m: Metadata) returns (failures: seq<string>)
    requires Applicable(checks, m)
    ensures failures == FailuresOf(checks, m)
  {
    failures := [];
    var i := 0;
    while i < |checks|
      invariant 0 <= i <= |checks|
      invariant failures == FailuresOf(checks[..i], m)
    {
      var outcome := checks[i](m);
      assert checks[..i + 1][..i] == checks[..i];
      if outcome.Some? {
        failures := failures + [outcome.value];
      }
      i := i + 1;
    }
    assert checks[..i] == checks;
  }

  /** The failures `_check_extension` collects: the parse error, or else those of the checks. */
  method CollectFailures(checks: seq<CheckFunction>, parsed: ParseResult) returns (failures: seq<string>)
    requires parsed.Parsed? ==> Applicable(checks, parsed.metadata)
    ensures failures == RawFailures(checks, parsed)
  {
    failures := [];
    if parsed.ParseFailure? {
      failures := failures + [parsed.details];
    }
    if failures == [] {
      failures := RunChecks(checks, parsed.metadata);
    }
  }

  /**
   * `_check_extension`: the name, then either the parse failure or the
   * failures of the checks in order, then duplicates removed.
   */
  method CheckExtension(checks: seq<CheckFunction>, path: string, parsed: ParseResult) returns (r: ExtensionResult)
    requires parsed.Parsed? ==> Applicable(checks, parsed.metadata)
    ensures Reports(checks, path, parsed, r)
  {
    var name := ExtensionName(path);
    var failures := CollectFailures(checks, parsed);
    var unique := Deduplicate(failures);
    r := ExtensionResult(name, unique);
  }

  /** A description file given to the reporting script, with what parsing it gives. */
  datatype DescriptionArg = DescriptionArg(path: string, parsed: ParseResult)

  /** Every file's description is checked on metadata the checks accept. */
  ghost predicate ApplicableToAll(checks: seq<CheckFunction>, files: seq<DescriptionArg>) {
    forall i | 0 <= i < |files| :: files[i].parsed.Parsed? ==> Applicable(checks, files[i].parsed.metadata)
  }

  /** The report of one file argument, for any checks: what `Reports` states when the checks can run. */
  ghost predicate FileReported(checks: seq<CheckFunction>, file: DescriptionArg, r: ExtensionResult) {
    && (file.parsed.Parsed? ==> Applicable(checks, file.parsed.metadata))
    && Reports(checks, file.path, file.parsed, r)
  }

  /** `results` stands, position by position, in the relation `related` to `files`. */
  ghost predicate Pairwise(related: (DescriptionArg, ExtensionResult) -> bool, files: seq<DescriptionArg>, results: seq<ExtensionResult>) {
    && |results| == |files|
    && (|files| > 0 ==>
          && Pairwise(related, files[..|files| - 1], results[..|results| - 1])
          && related(files[|files| - 1], results[|results| - 1]))
  }

  lemma {:induction false} PairwiseAt(related: (DescriptionArg, ExtensionResult) -> bool, files: seq<DescriptionArg>, results: seq<ExtensionResult>, i: int)
    requires Pairwise(related, files, results)
    requires 0 <= i < |files|
    ensures related(files[i], results[i])
  {
    var n := |files| - 1;
    if i < n {
      PairwiseAt(related, files[..n], results[..n], i);
      assert files[..n][i] == files[i] && results[..n][i] == results[i];
    }
  }

  /** One more related pair extends a pairwise relation. */
  lemma PairwiseSnoc(related: (DescriptionArg, ExtensionResult) -> bool, files: seq<DescriptionArg>, results: seq<ExtensionResult>, i: int, r: ExtensionResult)
    requires 0 <= i < |files|
    requires Pairwise(related, files[..i], results)
    requires related(files[i], r)
    ensures Pairwise(related, files[..i + 1], results + [r])
  {
    assert files[..i + 1][..i] == files[..i] && (results + [r])[..i] == results;
  }

  /**
   * The threaded `Parallel` map of `main` over the file arguments, run in
   * sequence: one result per file, in the order of the files.
   */
  method CheckAll(checks: seq<CheckFunction>, files: seq<DescriptionArg>) returns (results: seq<ExtensionResult>)
    requires ApplicableToAll(checks, files)
    ensures |results| == |files|
    ensures forall i | 0 <= i < |files| :: Reports(checks, files[i].path, files[i].parsed, results[i])
  {
    ghost var reported := (file, r) => FileReported(checks, file, r);
    results := [];
    var i := 0;
    while i < |files|
      invariant 0 <= i <= |files|
      invariant Pairwise(reported, files[..i], results)
    {
      var r := CheckExtension(checks, files[i].path, files[i].parsed);
      assert reported(files[i], r);
      PairwiseSnoc(reported, files, results, i, r);
      results := results + [r];
      i := i + 1;
    }
    assert files[..i] == files;
    forall k | 0 <= k < |files| ensures Reports(checks, files[k].path, files[k].parsed, results[k]) {
      PairwiseAt(reported, files, results, k);
    }
  }
}
