/**
 * The markdown report and the total of the reporting script: the summary
 * counts, the filing of each extension's failures under the four issue
 * headings, the link to the extension's repository, the pass and fail
 * counts per check, and the number `main` exits with.
 */
module Report {
  import opened Wrappers
  import opened Text
  import opened Manifest
  import opened Urls
  import opened Checks
  import opened Extension
  import opened Buckets
  import opened Filing
  import opened Links
  import Dependencies
  import Filenames

  /** The loop that fills `category_errors`, `scm_url_errors`, `repo_name_errors` and `other_errors`. */
  method Categorize(failures: seq<string>)
    returns (category: seq<string>, scmUrl: seq<string>, repositoryName: seq<string>, other: seq<string>)
    ensures category == Filed(failures, CategoryIssues)
    ensures scmUrl == Filed(failures, ScmUrlIssues)
    ensures repositoryName == Filed(failures, RepositoryNameIssues)
    ensures other == Filed(failures, OtherIssues)
  {
    category, scmUrl, repositoryName, other := [], [], [], [];
    var i := 0;
    while i < |failures|
      invariant 0 <= i <= |failures|
      invariant category == Filed(failures[..i], CategoryIssues)
      invariant scmUrl == Filed(failures[..i], ScmUrlIssues)
      invariant repositoryName == Filed(failures[..i], RepositoryNameIssues)
      invariant other == Filed(failures[..i], OtherIssues)
    {
      assert failures[..i + 1][..i] == failures[..i];
      var failure := failures[i];
      if Mentions(failure, "category") {
        category := category + [failure];
      } else if Mentions(failure, "scm_url") {
        scmUrl := scmUrl + [failure];
      } else if Mentions(failure, "repository name") {
        repositoryName := repositoryName + [failure];
      } else {
        other := other + [failure];
      }
      i := i + 1;
    }
    assert failures[..i] == failures;
  }

  /**
   * For a description that parses, every failure of the reporting script's
   * checks is listed under a named heading: only a parse error can end up
   * among the other issues.
   */
  lemma CheckFailuresNeverOther(path: string, m: Metadata, r: ExtensionResult)
    requires WellTyped(m) && Applicable(ReportChecks, m) && Reports(ReportChecks, path, Parsed(m), r)
    ensures Filed(r.failures, OtherIssues) == []
  {
    CategoryFailureFiled(m);
    ScmUrlFailureMentions(m);
    RepositoryNameFailureFiled(m);
    forall i | 0 <= i < |r.failures| ensures BucketOf(r.failures[i]) != OtherIssues {
      var f := r.failures[i];
      FailuresOfMembership(ReportChecks, m, f);
      assert f in FailuresOf(ReportChecks, m);
      var k :| 0 <= k < 3 && ReportChecks[k](m) == Some(f);
    }
    FiledNone(r.failures, OtherIssues);
  }

  /** `any(keyword in failure.lower() for failure in failures)` */
  predicate AnyMentions(failures: seq<string>, keyword: string) {
    exists i | 0 <= i < |failures| :: Mentions(failures[i], keyword)
  }

  /** The generator passed to `any`, run to its first hit. */
  method HasMention(failures: seq<string>, keyword: string) returns (found: bool)
    ensures found == AnyMentions(failures, keyword)
  {
    found := false;
    var i := 0;
    while i < |failures| && !found
      invariant 0 <= i <= |failures|
      invariant found == exists j | 0 <= j < i :: Mentions(failures[j], keyword)
    {
      found := Mentions(failures[i], keyword);
      i := i + 1;
    }
  }

  /** The number of results with a failure that mentions `keyword`: the "Fail" cell of a check's row. */
  function CountMentioning(results: seq<ExtensionResult>, keyword: string): (n: nat)
    ensures n <= |results|
  {
    if |results| == 0 then 0
    else
      CountMentioning(results[..|results| - 1], keyword)
      + if AnyMentions(results[|results| - 1].failures, keyword) then 1 else 0
  }

  /** The "Validation Check Results" table: pass and fail counts per check. */
  datatype CheckTable = CheckTable(
    categoryPass: nat, categoryFail: nat,
    scmUrlPass: nat, scmUrlFail: nat,
    repositoryNamePass: nat, repositoryNameFail: nat,
    filenamePass: nat, filenameFail: nat)

  /**
   * The counting loop: a result fails a check's row when one of its
   * failures mentions the check's keyword, and passes it otherwise; the
   * filename row is a single pass or a single fail.
   */
  method TallyChecks(results: seq<ExtensionResult>, filenameErrorCount: nat) returns (t: CheckTable)
    ensures t.categoryFail == CountMentioning(results, "category")
    ensures t.scmUrlFail == CountMentioning(results, "scm_url")
    ensures t.repositoryNameFail == CountMentioning(results, "repository name")
    ensures t.categoryPass + t.categoryFail == |results|
    ensures t.scmUrlPass + t.scmUrlFail == |results|
    ensures t.repositoryNamePass + t.repositoryNameFail == |results|
    ensures t.filenamePass + t.filenameFail == 1 && (t.filenameFail == 1 <==> filenameErrorCount > 0)
  {
    var categoryPass, categoryFail, scmUrlPass, scmUrlFail, repositoryNamePass, repositoryNameFail := 0, 0, 0, 0, 0, 0;
    var i := 0;
    while i < |results|
      invariant 0 <= i <= |results|
      invariant categoryFail == CountMentioning(results[..i], "category") && categoryPass + categoryFail == i
      invariant scmUrlFail == CountMentioning(results[..i], "scm_url") && scmUrlPass + scmUrlFail == i
      invariant repositoryNameFail == CountMentioning(results[..i], "repository name") && repositoryNamePass + repositoryNameFail == i
    {
      assert results[..i + 1][..i] == results[..i];
      var failures := results[i].failures;
      var hasCategoryError := HasMention(failures, "category");
      var hasScmUrlError := HasMention(failures, "scm_url");
      var hasRepositoryNameError := HasMention(failures, "repository name");
      if hasCategoryError { categoryFail := categoryFail + 1; } else { categoryPass := categoryPass + 1; }
      if hasScmUrlError { scmUrlFail := scmUrlFail + 1; } else { scmUrlPass := scmUrlPass + 1; }
      if hasRepositoryNameError {
        repositoryNameFail := repositoryNameFail + 1;
      } else {
        repositoryNamePass := repositoryNamePass + 1;
      }
      i := i + 1;
    }
    assert results[..i] == results;
    t := CheckTable(categoryPass, categoryFail, scmUrlPass, scmUrlFail, repositoryNamePass, repositoryNameFail,
                    if filenameErrorCount == 0 then 1 else 0, if filenameErrorCount > 0 then 1 else 0);
  }

  /** A failure among `failures` that mentions the keyword makes the result count as failing. */
  lemma MentionCounted(failures: seq<string>, f: string, keyword: string)
    requires f in failures && Mentions(f, keyword)
    ensures AnyMentions(failures, keyword)
  {
    var i :| 0 <= i < |failures| && failures[i] == f;
  }

  /**
   * For a description that parses, a failing category check puts the
   * extension in the category row's fail count, a failing syntax check in
   * the SCM URL row's, and a repository name the naming rule rejects in the
   * repository-name row's.
   */
  lemma FailingChecksCounted(path: string, m: Metadata, r: ExtensionResult)
    requires WellTyped(m) && Applicable(ReportChecks, m) && Reports(ReportChecks, path, Parsed(m), r)
    ensures CheckCategory(m) != None ==> AnyMentions(r.failures, "category")
    ensures CheckScmUrlSyntax(m) != None ==> AnyMentions(r.failures, "scm_url")
    ensures RequireMetadataKey("scm_url", m) == None && CheckGitRepositoryName(m) != None ==>
      AnyMentions(r.failures, "repository name")
  {
    var raw := FailuresOf(ReportChecks, m);
    if CheckCategory(m) != None {
      CategoryFailureFiled(m);
      ReportedFailure(path, m, r, 0);
      MentionCounted(r.failures, CheckCategory(m).value, "category");
    }
    if CheckScmUrlSyntax(m) != None {
      ScmUrlFailureMentions(m);
      ReportedFailure(path, m, r, 2);
      MentionCounted(r.failures, CheckScmUrlSyntax(m).value, "scm_url");
    }
    if RequireMetadataKey("scm_url", m) == None && CheckGitRepositoryName(m) != None {
      RepositoryNameMessageMentions(RepositoryName(m["scm_url"].s));
      ReportedFailure(path, m, r, 1);
      MentionCounted(r.failures, CheckGitRepositoryName(m).value, "repository name");
    }
  }

  /** The failure of the check at position `k` is among the reported failures. */
  lemma ReportedFailure(path: string, m: Metadata, r: ExtensionResult, k: int)
    requires Applicable(ReportChecks, m) && Reports(ReportChecks, path, Parsed(m), r)
    requires 0 <= k < 3 && ReportChecks[k](m) != None
    ensures ReportChecks[k](m).value in r.failures
  {
    var f := ReportChecks[k](m).value;
    FailuresOfMembership(ReportChecks, m, f);
    var j :| 0 <= j < |FailuresOf(ReportChecks, m)| && FailuresOf(ReportChecks, m)[j] == f;
  }

  /** `sum(len(failures) for _, failures in results if failures)` */
  function TotalErrors(results: seq<ExtensionResult>): nat {
    if |results| == 0 then 0
    else TotalErrors(results[..|results| - 1]) + |results[|results| - 1].failures|
  }

  /** `sum(1 for _, failures in results if failures)` */
  function ExtensionsWithErrors(results: seq<ExtensionResult>): (n: nat)
    ensures n <= |results|
  {
    if |results| == 0 then 0
    else ExtensionsWithErrors(results[..|results| - 1]) + if results[|results| - 1].failures != [] then 1 else 0
  }

  /**
   * The summary's counts agree: no more extensions with errors than
   * errors, and no errors exactly when no extension has any.
   */
  lemma {:induction false} SummaryCounts(results: seq<ExtensionResult>)
    ensures ExtensionsWithErrors(results) <= TotalErrors(results)
    ensures TotalErrors(results) == 0 <==> forall i | 0 <= i < |results| :: results[i].failures == []
    ensures TotalErrors(results) == 0 <==> ExtensionsWithErrors(results) == 0
  {
    if |results| > 0 {
      var init := results[..|results| - 1];
      SummaryCounts(init);
      assert forall i | 0 <= i < |init| :: init[i] == results[i];
    }
  }

  /** A check's fail count never exceeds the number of extensions with errors. */
  lemma {:induction false} FailCountBounded(results: seq<ExtensionResult>, keyword: string)
    ensures CountMentioning(results, keyword) <= ExtensionsWithErrors(results)
  {
    if |results| > 0 {
      FailCountBounded(results[..|results| - 1], keyword);
    }
  }

  /** The banner "All validations passed!" against "Validation issues found". */
  predicate AllValidationsPassed(results: seq<ExtensionResult>, dependencyErrors: nat, filenameErrors: seq<string>) {
    TotalErrors(results) == 0 && dependencyErrors == 0 && |filenameErrors| == 0
  }

  /** One "### name" block of the report: the link line and the four lists of issues. */
  datatype Section = Section(
    name: string, link: Option<string>,
    category: seq<string>, scmUrl: seq<string>, repositoryName: seq<string>, other: seq<string>)

  /**
   * The block of one result, given the description read back from
   * "<name>.json" in the working directory (`None` when that fails).
   */
  function SectionOf(r: ExtensionResult, stored: Option<Metadata>): Section {
    Section(r.name, if stored.Some? then RepositoryLink(stored.value) else None,
            Filed(r.failures, CategoryIssues), Filed(r.failures, ScmUrlIssues),
            Filed(r.failures, RepositoryNameIssues), Filed(r.failures, OtherIssues))
  }

  /** The blocks of the results with failures, in the order of the results. */
  function Sections(results: seq<ExtensionResult>, stored: seq<Option<Metadata>>): seq<Section>
    requires |stored| == |results|
  {
    if |results| == 0 then []
    else
      var n := |results| - 1;
      Sections(results[..n], stored[..n]) + if results[n].failures != [] then [SectionOf(results[n], stored[n])] else []
  }

  /** There is one block per extension with errors. */
  lemma {:induction false} SectionsCount(results: seq<ExtensionResult>, stored: seq<Option<Metadata>>)
    requires |stored| == |results|
    ensures |Sections(results, stored)| == ExtensionsWithErrors(results)
  {
    if |results| > 0 {
      SectionsCount(results[..|results| - 1], stored[..|stored| - 1]);
    }
  }

  /** A block lists each of its extension's failures exactly once, under one heading. */
  lemma SectionListsEveryFailure(r: ExtensionResult, stored: Option<Metadata>)
    ensures var s := SectionOf(r, stored);
      multiset(r.failures) == multiset(s.category) + multiset(s.scmUrl) + multiset(s.repositoryName) + multiset(s.other)
  {
    FiledPartition(r.failures);
  }

  /** The block of one extension. */
  method ExtensionSection(r: ExtensionResult, stored: Option<Metadata>) returns (s: Section)
    ensures s == SectionOf(r, stored)
  {
    var link := None;
    if stored.Some? {
      link := RepositoryLink(stored.value);
    }
    var category, scmUrl, repositoryName, other := Categorize(r.failures);
    s := Section(r.name, link, category, scmUrl, repositoryName, other);
  }

  /** The loop over the results that writes the "Extension Validation Issues" blocks. */
  method BuildSections(results: seq<ExtensionResult>, stored: seq<Option<Metadata>>) returns (sections: seq<Section>)
    requires |stored| == |results|
    ensures sections == Sections(results, stored)
  {
    sections := [];
    var i := 0;
    while i < |results|
      invariant 0 <= i <= |results|
      invariant sections == Sections(results[..i], stored[..i])
    {
      assert results[..i + 1][..i] == results[..i] && stored[..i + 1][..i] == stored[..i];
      if results[i].failures != [] {
        var s := ExtensionSection(results[i], stored[i]);
        sections := sections + [s];
      }
      i := i + 1;
    }
    assert results[..i] == results && stored[..i] == stored;
  }

  /**
   * `sys.exit(total)` as a POSIX system reports it: the status keeps only
   * the low eight bits of the number.
   */
  function ExitStatusAsWritten(total: nat): (status: nat)
    ensures status < 256
  {
    total % 256
  }

  /** 256 errors leave the exit status 0, the status of a clean run. */
  lemma ExitStatusHidesErrors()
    ensures ExitStatusAsWritten(256) == ExitStatusAsWritten(0)
  {
  }

  /** The exit status capped at 255, so that any error gives a non-zero status. */
  function ExitStatus(total: nat): (status: nat)
    ensures status < 256
    ensures status == 0 <==> total == 0
    ensures total < 256 ==> status == total
  {
    if total > 255 then 255 else total
  }

  /** A file argument checks clean: it parses and the three checks pass on it. */
  ghost predicate Clean(file: DescriptionArg) {
    && file.parsed.Parsed?
    && Applicable(ReportChecks, file.parsed.metadata)
    && FailuresOf(ReportChecks, file.parsed.metadata) == []
  }

  /** A reported file has no failures exactly when it checks clean. */
  lemma CleanIffNoFailures(file: DescriptionArg, r: ExtensionResult)
    requires FileReported(ReportChecks, file, r)
    ensures r.failures == [] <==> Clean(file)
  {
    DeduplicatedEmpty(r.failures, RawFailures(ReportChecks, file.parsed));
  }

  /** The dependency errors `main` adds: none without a folder to check. */
  function DependencyErrorCount(folder: Option<seq<Dependencies.ListedFile>>): nat
    requires folder.Some? ==> Dependencies.AllDependsTyped(folder.value)
  {
    if folder.Some? then |Dependencies.MissingDependencies(folder.value)| else 0
  }

  /**
   * `main` of the reporting script, without its output: every file
   * argument is checked, the repository root is listed, the dependency
   * folder is checked when one is given, and the run ends with the total
   * of the three kinds of errors, passed to `sys.exit` as it is; the
   * total is 0 exactly when the summary shows "All validations passed!".
   */
  method ReportMain(files: seq<DescriptionArg>, root: seq<Filenames.Entry>, folder: Option<seq<Dependencies.ListedFile>>)
    returns (results: seq<ExtensionResult>, total: nat, status: nat)
    requires ApplicableToAll(ReportChecks, files)
    requires folder.Some? ==> Dependencies.AllDependsTyped(folder.value)
    ensures |results| == |files|
    ensures forall i | 0 <= i < |files| :: Reports(ReportChecks, files[i].path, files[i].parsed, results[i])
    ensures total == TotalErrors(results) + DependencyErrorCount(folder) + |Filenames.FlaggedNames(root)|
    ensures total == 0 <==>
      && (forall i | 0 <= i < |files| :: Clean(files[i]))
      && DependencyErrorCount(folder) == 0
      && Filenames.FlaggedNames(root) == []
    ensures total == 0 <==> AllValidationsPassed(results, DependencyErrorCount(folder), Filenames.FlaggedNames(root))
    ensures status == ExitStatusAsWritten(total)
  {
    results := CheckAll(ReportChecks, files);
    var filenameErrors := Filenames.UnexpectedEntries(root);
    var dependencyErrors := 0;
    if folder.Some? {
      dependencyErrors := Dependencies.CountDependencyErrors(folder.value);
    }
    var extensionErrors := TotalLoop(results);
    total := extensionErrors + dependencyErrors + |filenameErrors|;
    SummaryCounts(results);
    forall i | 0 <= i < |files| ensures results[i].failures == [] <==> Clean(files[i]) {
      CleanIffNoFailures(files[i], results[i]);
    }
    status := ExitStatusAsWritten(total);
  }

  /** The generator sum of `main`: the failures of every result, added up. */
  method TotalLoop(results: seq<ExtensionResult>) returns (sum: nat)
    ensures sum == TotalErrors(results)
  {
    sum := 0;
    var i := 0;
    while i < |results|
      invariant 0 <= i <= |results|
      invariant sum == TotalErrors(results[..i])
    {
      assert results[..i + 1][..i] == results[..i];
      if results[i].failures != [] {
        sum := sum + |results[i].failures|;
      }
      i := i + 1;
    }
    assert results[..i] == results;
  }
}
