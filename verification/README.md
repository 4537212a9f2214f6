# Extensions index checks, modelled in Dafny

The Slicer extensions index is a repository of JSON description files, one
per extension. Three Python scripts guard it:

- `scripts/check_description_files.py` is the merge gate. It validates the
  description files named on the command line, logs one line per step to
  the console and optionally to a markdown report, checks the dependencies
  of the whole folder, and exits with 0 exactly when nothing failed.
- `scripts/check_description_files_with_report.py` runs the same three
  checks on every named file. It removes duplicate failures, checks the
  dependencies and the repository layout, and writes a console or markdown
  summary. It passes the total number of errors to `sys.exit`, so the
  process status is that total modulo 256.
- `scripts/check_filenames.py` flags every top-level entry of the
  repository that is not an allowed directory, an allowed file, or a
  `.json` file.

The model has one module per concern:

- `Text` models the Python string operations the scripts rely on:
  `find`/`rfind`, `os.path.basename`, `os.path.splitext`, `str.lower`
  (ASCII), `in`, `join`, `split`, `strip` and `replace`.
- `Urls` holds the part of `urllib.parse.urlsplit` the checks read: the
  scheme and the path.
- `Manifest` holds the parsed description: a map from keys to `null`,
  strings, string lists or other values.
- `Checks` holds the `require_metadata_key` guard and the three checks
  with their exact messages. The two description scripts define them
  identically.
- `Extension` holds `_check_extension` (checks, then de-duplication) and
  the run over all files.
- `Dependencies` holds `check_dependencies`: the required-by index, the
  error count of the reporting script and the error lines of the gate.
- `Buckets` and `Filing` hold the keyword bucketing of failures in the
  report and prove where each check's message lands.
- `Links` holds the "Repository:" link rewriting in the report.
- `Report` holds the report's per-check table, summary counts, sections
  and `main` with its exit status.
- `Filenames` holds the repository-layout check.
- `Gate` holds the gate's `main`: message prefixes, the report file, the
  per-file lines, the crash on a non-string "scm_url", the dependency step
  and the exit code.

File system, JSON parsing and the command line are inputs. A description
file arrives as a `ParseResult`, a directory listing as a sequence of
entries, and the command-line arguments as parameters.

## Model

| member | source | states |
|---|---|---|
| Text.Lower | scripts/check_description_files_with_report.py:115 | `lower()` keeps the length and lowers each ASCII capital, nothing else |
| Text.LowerAppend | scripts/check_description_files_with_report.py:315-319 | lowering distributes over concatenation |
| Text.ContainsInfix | scripts/check_description_files_with_report.py:93 | `sub in a + sub + b` always holds |
| Text.AbsentCharNotContained | scripts/check_description_files_with_report.py:93 | a text lacking one character of `sub` does not contain `sub` |
| Text.Find | scripts/check_description_files_with_report.py:97 | the first index of a character (the scheme's ":"), or -1 exactly when it is absent |
| Text.RFindFound | scripts/check_description_files_with_report.py:76 | `rfind` is -1 exactly when the character is absent, else the index of its last occurrence |
| Text.RFindBefore | scripts/check_description_files_with_report.py:76 | in `a + [c] + b` with no `c` in `b`, `rfind` is the length of `a` |
| Text.Basename | scripts/check_description_files_with_report.py:76 | `basename` holds no '/' and is no longer than the path |
| Text.BasenameIsLastComponent | scripts/check_description_files_with_report.py:76 | the base name ends the path, right after a '/', and is the whole path when there is no '/' |
| Text.BasenameOfJoin | scripts/check_description_files.py:140 | the base name of `dir/name` is `name` |
| Text.SplitextParts | scripts/check_description_files_with_report.py:76 | `splitext` root and extension concatenate back to the path; the extension is empty or one leading dot with no further dot or '/' |
| Text.SplitextAtLastDot | scripts/check_description_files_with_report.py:110 | `name.ext` splits at that dot |
| Text.SplitextNoDot | scripts/check_description_files_with_report.py:110 | a dot-free path has no extension |
| Text.SplitextDotfile | scripts/check_description_files.py:215 | a hidden name such as ".json" has no extension |
| Text.Split | scripts/check_description_files_with_report.py:110 | `split` gives at least one part and no part holds the separator |
| Text.SplitJoin | scripts/check_description_files.py:33-34 | splitting a join of separator-free parts gives the parts back |
| Text.StripLeft | scripts/check_description_files.py:229 | the result is a suffix of the text that does not start with whitespace, and everything removed is whitespace |
| Text.StripRight | scripts/check_description_files.py:229 | the result is a prefix of the text that does not end with whitespace, and everything removed is whitespace |
| Text.Strip | scripts/check_description_files.py:229 | the result is a slice of the text with only whitespace on either side of it, and it neither starts nor ends with whitespace; a text without whitespace is unchanged |
| Text.ReplaceAll | scripts/check_description_files_with_report.py:292 | a text starting with the pattern starts with the replacement after `replace`; a text without the pattern is unchanged |
| Text.ReplaceAllAtStart | scripts/check_description_files_with_report.py:292 | a leading occurrence is replaced and the rest is processed after it |
| Text.ReplaceCharAppend | scripts/check_description_files_with_report.py:295 | replacing one character distributes over concatenation |
| Text.ReplaceCharAbsent | scripts/check_description_files_with_report.py:295 | replacing an absent character changes nothing |
| Text.LowerUnchanged | scripts/check_description_files_with_report.py:315-319 | a text without capitals is its own lower case |
| Text.NoDuplicatesCardinality | scripts/check_description_files_with_report.py:430 | a duplicate-free list has as many elements as its set |
| Urls.StripControlLeft | scripts/check_description_files_with_report.py:97 | `urlsplit` strips leading control characters and spaces and keeps a suffix of the URL |
| Urls.RemoveUnsafe | scripts/check_description_files_with_report.py:97 | `urlsplit` drops every tab, CR and LF and never lengthens the URL |
| Urls.RemoveUnsafeVisible | scripts/check_description_files_with_report.py:97 | a URL of visible characters loses nothing |
| Urls.RemoveUnsafeAppend | scripts/check_description_files_with_report.py:97 | removal distributes over concatenation |
| Urls.SanitizeVisible | scripts/check_description_files_with_report.py:97 | a visible URL reaches the parser unchanged |
| Urls.SplitScheme | scripts/check_description_files_with_report.py:97 | the scheme is empty (and the rest is the whole URL) or a valid scheme name in lower case |
| Urls.PathOf | scripts/check_description_files_with_report.py:110 | the path holds no '?' and no '#' |
| Urls.SplitSchemeOf | scripts/check_description_files_with_report.py:97 | `scheme:tail` splits into the lowered scheme and the tail |
| Urls.SchemeOfUrl | scripts/check_description_files_with_report.py:97 | the scheme of `scheme:rest` is the lowered scheme |
| Urls.PathAfterNetloc | scripts/check_description_files_with_report.py:110 | after `//host`, the path is what follows the host |
| Urls.SchemeAndPathOfUrl | scripts/check_description_files_with_report.py:97-110 | `scheme://host/path` yields the lowered scheme and `/path` |
| Urls.RepositoryNameOfUrl | scripts/check_description_files_with_report.py:110 | the repository name of `scheme://host/owner/file` is the root of `file` |
| Checks.RequireMetadataKey | scripts/check_description_files_with_report.py:50-64 | passes exactly when the key is present and, if a value is required, not null; otherwise "key is missing" or "value is not set" |
| Checks.CheckCategory | scripts/check_description_files_with_report.py:84-86 | passes exactly when "category" is present and not null; its failures are the guard's two messages |
| Checks.CheckScmUrlSyntax | scripts/check_description_files_with_report.py:89-101 | the guard's failure first; then "no ://" fails, and an unsupported scheme fails with its message |
| Checks.Variations | scripts/check_description_files_with_report.py:117 | the four suggested names, in order |
| Checks.ListedIff | scripts/check_description_files_with_report.py:112 | the recursive exception lookup is list membership |
| Checks.CheckGitRepositoryName | scripts/check_description_files_with_report.py:104-125 | the guard's failure first; then passes exactly when the repository name is an exception or contains "slicer" in lower case, else the exact message |
| Checks.ScmUrlSyntaxOfScheme | scripts/check_description_files_with_report.py:93-101 | for `scheme://rest`, passes exactly when the lowered scheme is "git" or "https", else the unsupported-scheme message |
| Checks.RepositoryNameCheckOfUrl | scripts/check_description_files_with_report.py:110-125 | for `scheme://host/owner/file`, the verdict depends on the root of `file` only |
| Checks.ExceptionNamePasses | scripts/check_description_files_with_report.py:112-113 | an https URL ending in "NeedleFinder" passes the repository-name check |
| Checks.NeedleFinderIsException | scripts/check_description_files_with_report.py:513 | "NeedleFinder" is an accepted exception |
| Checks.LetterNameShape | scripts/check_description_files_with_report.py:110 | a name of ASCII letters is a plain path segment without extension |
| Checks.ConventionalDescriptionPasses | scripts/check_description_files_with_report.py:84-125 | a description with a category and an https URL to a repository whose name contains "slicer" (with or without ".git") passes all three checks |
| Checks.ConventionalFile | scripts/check_description_files_with_report.py:110 | the root of `name` or `name.git` is `name` |
| Extension.ExtensionName | scripts/check_description_files_with_report.py:410 | the extension name holds no '/' |
| Extension.ExtensionNameOfPath | scripts/check_description_files_with_report.py:410 | the extension name of `dir/name.json` is `name` |
| Extension.FailuresOfMembership | scripts/check_description_files_with_report.py:423-427 | a message is collected exactly when some check fails with it |
| Extension.FailuresOfEmpty | scripts/check_description_files_with_report.py:422-427 | no failure is collected exactly when every check passes |
| Extension.ReportChecksApplicable | scripts/check_description_files_with_report.py:403-407 | every listed check can run on a well-typed description |
| Extension.ThreeChecksPassIff | scripts/check_description_files_with_report.py:423-427 | three checks collect nothing exactly when all three pass |
| Extension.ReportChecksPassIff | scripts/check_description_files_with_report.py:403-407 | the report's list collects nothing exactly when the category, repository-name and URL checks all pass |
| Extension.MissingScmUrlFailures | scripts/check_description_files_with_report.py:58-59 | without "scm_url", the raw failures are the category failure (if any) and "scm_url key is missing" twice |
| Extension.DeduplicatedSingleton | scripts/check_description_files_with_report.py:430 | de-duplicating a single failure keeps exactly it |
| Extension.DeduplicatedEmpty | scripts/check_description_files_with_report.py:430 | de-duplication is empty exactly when the failures are |
| Extension.NoDuplicatesCount | scripts/check_description_files_with_report.py:430 | in a duplicate-free list every element occurs once |
| Extension.DeduplicatedOnce | scripts/check_description_files_with_report.py:430 | every raw failure occurs exactly once after de-duplication |
| Extension.ParseFailureIsOnlyFailure | scripts/check_description_files_with_report.py:417-422 | a file that does not parse reports only the parse error |
| Extension.ParsedPassesIffChecksPass | scripts/check_description_files_with_report.py:422-430 | a parsed file reports nothing exactly when every check passes |
| Extension.MissingScmUrlCollapses | scripts/check_description_files_with_report.py:430 | without "scm_url", "scm_url key is missing" is reported once and every other failure is the category failure |
| Extension.Deduplicate | scripts/check_description_files_with_report.py:430 | the result has no duplicates and the same elements as the failures |
| Extension.RunChecks | scripts/check_description_files_with_report.py:423-427 | collects the checks' failure messages in check order |
| Extension.CollectFailures | scripts/check_description_files_with_report.py:415-427 | the parse error alone, or the checks' failures |
| Extension.CheckExtension | scripts/check_description_files_with_report.py:409-430 | the result names the extension and holds the de-duplicated failures |
| Extension.PairwiseAt | scripts/check_description_files_with_report.py:432-437 | a relation that holds pairwise holds at each index |
| Extension.PairwiseSnoc | scripts/check_description_files_with_report.py:432-437 | extending both lists by a related pair keeps the relation |
| Extension.CheckAll | scripts/check_description_files_with_report.py:432-437 | one result per file, in file order, each reporting that file |
| Dependencies.DescriptionStem | scripts/check_description_files_with_report.py:195-199 | only a file named "*.json" whose `splitext` extension is ".json" is read |
| Dependencies.JsonFileName | scripts/check_description_files_with_report.py:195-199 | `stem.json` is its own base name, ends in ".json" and splits into the stem and ".json" |
| Dependencies.DescriptionStemOf | scripts/check_description_files_with_report.py:197 | the extension name of the file `stem.json` is `stem` |
| Dependencies.HiddenFileSkipped | scripts/check_description_files_with_report.py:198-199 | a hidden file such as ".json" is skipped |
| Dependencies.Available | scripts/check_description_files_with_report.py:193-205 | at most one available extension per listed entry |
| Manifest.DependsNames | scripts/check_description_files_with_report.py:210-211 | iterating "depends" gives the items of a list, or the one-character strings of a string, in order |
| Dependencies.DeclarationsOf | scripts/check_description_files_with_report.py:206-213 | only a read, parsed file with "depends" declares anything |
| Dependencies.StringDependsPerCharacter | scripts/check_description_files_with_report.py:210-211 | a "depends" string declares one dependency per character, named by that character |
| Dependencies.RequestersMembership | scripts/check_description_files_with_report.py:209-213 | an extension is among a dependency's requesters exactly when it declares it |
| Dependencies.DependencyNamesMembership | scripts/check_description_files_with_report.py:209-213 | a name is a key of the index exactly when some extension depends on it, i.e. it has requesters |
| Dependencies.DependencyNamesDistinct | scripts/check_description_files_with_report.py:216 | the keys are visited without repetition |
| Dependencies.IndexMap | scripts/check_description_files_with_report.py:191 | the index's keys are the dependency names |
| Dependencies.IndexMapIsIndex | scripts/check_description_files_with_report.py:209-213 | the index maps each dependency to its requesters in declaration order |
| Dependencies.RecordDepends | scripts/check_description_files_with_report.py:209-213 | recording one file's `depends` extends the index by its declarations |
| Dependencies.FolderStep | scripts/check_description_files_with_report.py:193-213 | one more entry adds its declarations and, when read, its name |
| Dependencies.BuildIndex | scripts/check_description_files_with_report.py:191-213 | the first loop builds the index and the available names of the folder |
| Dependencies.Unresolved | scripts/check_description_files_with_report.py:216-219 | a key is unresolved exactly when it is not available |
| Dependencies.UnresolvedDistinct | scripts/check_description_files_with_report.py:216-219 | unresolved keys are distinct |
| Dependencies.UnresolvedAreMissing | scripts/check_description_files_with_report.py:216-222 | the unresolved keys are the missing dependencies, each once |
| Dependencies.CountUnresolved | scripts/check_description_files_with_report.py:215-223 | the second loop counts the unresolved keys |
| Dependencies.CountDependencyErrors | scripts/check_description_files_with_report.py:189-223 | the count is the number of distinct missing dependencies |
| Dependencies.MissingLines | scripts/check_description_files.py:166-167 | one line per unresolved key, naming it and its requesters |
| Dependencies.MissingLinesStep | scripts/check_description_files.py:162-167 | one more key adds its line exactly when it is unavailable |
| Dependencies.MissingLinesSnoc | scripts/check_description_files.py:166-167 | lines of `u + [x]` are those of `u` then the line of `x` |
| Dependencies.CollectMissingLines | scripts/check_description_files.py:161-167 | the loop collects the lines of the unresolved keys in key order |
| Dependencies.ErrorTextLines | scripts/check_description_files.py:33-34 | the exception text splits back into its lines |
| Dependencies.ExpectedLinesCover | scripts/check_description_files.py:161-169 | one line per missing dependency, naming every extension that requires it |
| Dependencies.CheckDependencies | scripts/check_description_files.py:135-169 | raises exactly when a dependency is missing, with those lines |
| Dependencies.AvailableAppend | scripts/check_description_files_with_report.py:193-205 | availability is computed entry by entry |
| Dependencies.DeclarationsAppend | scripts/check_description_files_with_report.py:193-213 | declarations are collected entry by entry |
| Dependencies.UnparsedContributesNothing | scripts/check_description_files_with_report.py:200-204 | a file that does not parse is neither available nor declaring |
| Dependencies.UnparsedFileIgnored | scripts/check_description_files_with_report.py:200-204 | removing such a file anywhere changes nothing |
| Filenames.Suffix | scripts/check_filenames.py:52 | the suffix is empty or a dotted ending with no further dot that leaves a non-empty name |
| Filenames.SuffixOfJson | scripts/check_filenames.py:52 | every `stem.json` has the suffix ".json" |
| Filenames.SuffixOfDotfile | scripts/check_filenames.py:52 | a name whose only dot leads has no suffix |
| Filenames.JsonFilesAllowed | scripts/check_filenames.py:45-55 | `stem.json` files are allowed and the bare ".json" is not |
| Filenames.FlaggedNames | scripts/check_filenames.py:59-70 | no more flagged names than entries |
| Filenames.FlaggedNamesMembership | scripts/check_filenames.py:62-70 | a name is reported exactly when an entry with that name is flagged |
| Filenames.FlaggedNamesDistinct | scripts/check_filenames.py:62-70 | each flagged entry is reported once |
| Filenames.OtherEntriesIgnored | scripts/check_filenames.py:63-70 | entries that are neither directories nor files are never reported |
| Filenames.UnexpectedEntries | scripts/check_filenames.py:59-70 | the loop reports the flagged names in listing order |
| Filenames.CheckFilenames | scripts/check_filenames.py:76-81 | 0 exactly when no entry is flagged, else 1 |
| Buckets.HoldsFromIff | scripts/check_description_files_with_report.py:315 | the scan finds the keyword exactly when it occurs at or after the start position |
| Buckets.MentionsIff | scripts/check_description_files_with_report.py:315-319 | a failure mentions a keyword exactly when its lower case contains it |
| Buckets.MentionsAt | scripts/check_description_files_with_report.py:315-319 | an occurrence of a lower-case keyword is a mention |
| Buckets.NotMentioned | scripts/check_description_files_with_report.py:315-319 | a failure lacking a letter of the keyword in both cases does not mention it |
| Buckets.FiledMembership | scripts/check_description_files_with_report.py:314-322 | a failure is in a bucket exactly when it is a failure classified there |
| Buckets.FiledPartition | scripts/check_description_files_with_report.py:314-322 | the four buckets together hold every failure exactly once |
| Buckets.FiledNone | scripts/check_description_files_with_report.py:314-322 | a bucket no failure belongs to is empty |
| Filing.ScmUrlKeyMissingFiled | scripts/check_description_files_with_report.py:317 | "scm_url key is missing" is filed under SCM URL issues |
| Filing.ScmUrlValueNotSetFiled | scripts/check_description_files_with_report.py:317 | "scm_url value is not set" is filed under SCM URL issues |
| Filing.ScmUrlGuardFiled | scripts/check_description_files_with_report.py:58-61 | every failure of the "scm_url" guard is filed under SCM URL issues |
| Filing.CategoryFailureFiled | scripts/check_description_files_with_report.py:315 | every category failure is filed under category issues |
| Filing.ScmUrlFailureLeads | scripts/check_description_files_with_report.py:89-101 | every URL-syntax failure starts with "scm_url" |
| Filing.ScmUrlFailureMentions | scripts/check_description_files_with_report.py:317 | every URL-syntax failure mentions "scm_url" |
| Filing.RepositoryNameMessageMentions | scripts/check_description_files_with_report.py:122 | the repository-name message mentions "repository name" |
| Filing.RepositoryNameFailureFiled | scripts/check_description_files_with_report.py:314-322 | a repository-name failure never lands under other issues |
| Links.TrimGitSuffix | scripts/check_description_files_with_report.py:300-301 | a trailing ".git" is removed and nothing else changes |
| Links.RepositoryLink | scripts/check_description_files_with_report.py:287-301 | a link exists exactly when "scm_url" is a non-empty string |
| Links.GitProtocolRewrite | scripts/check_description_files_with_report.py:291-292 | `git://rest` becomes `https://rest` under both rewrites |
| Links.GitProtocolLink | scripts/check_description_files_with_report.py:287-301 | a description with `git://rest` links to `https://rest` without ".git" |
| Links.UnchangedSchemeLink | scripts/check_description_files_with_report.py:287-301 | a non-empty address starting with neither "git://" nor "git@" links to itself without ".git" |
| Links.SshLinkAsWritten | scripts/check_description_files_with_report.py:293-295 | as written, `git@host:path` becomes `https///host/path` |
| Links.SshRepositoryLink | scripts/check_description_files_with_report.py:287-301 | as written, a description with `git@host:path` links to `https///host/path` without ".git" |
| Links.SshLink | scripts/check_description_files_with_report.py:293-295 | corrected, `git@host:path` becomes `https://host/path` |
| Links.HttpsLink | scripts/check_description_files_with_report.py:296-301 | `https://rest.git` links to `https://rest` |
| Report.Categorize | scripts/check_description_files_with_report.py:309-322 | the four lists are the failures filed in each bucket, in order |
| Report.CheckFailuresNeverOther | scripts/check_description_files_with_report.py:314-322 | a parsed description's check failures never reach "Other Issues" |
| Report.HasMention | scripts/check_description_files_with_report.py:360-362 | true exactly when some failure mentions the keyword |
| Report.CountMentioning | scripts/check_description_files_with_report.py:359-377 | no more failing extensions than results |
| Report.TallyChecks | scripts/check_description_files_with_report.py:353-377 | fail counts are the extensions mentioning each keyword, pass plus fail is the number of results, and the filename row is one pass or one fail |
| Report.MentionCounted | scripts/check_description_files_with_report.py:360-362 | one mentioning failure marks the extension as failing |
| Report.FailingChecksCounted | scripts/check_description_files_with_report.py:359-377 | a failing check makes the extension count as failing in that check's row |
| Report.ReportedFailure | scripts/check_description_files_with_report.py:423-427 | each failing check's message is among the extension's failures |
| Report.ExtensionsWithErrors | scripts/check_description_files_with_report.py:238 | no more extensions with errors than results |
| Report.SummaryCounts | scripts/check_description_files_with_report.py:237-238 | extensions with errors are at most the total errors, and both are zero exactly when no result has failures |
| Report.FailCountBounded | scripts/check_description_files_with_report.py:359-377 | a fail count never exceeds the extensions with errors |
| Report.SectionsCount | scripts/check_description_files_with_report.py:273-281 | one section per extension with errors |
| Report.SectionListsEveryFailure | scripts/check_description_files_with_report.py:309-346 | a section lists every failure exactly once across its four headings |
| Report.ExtensionSection | scripts/check_description_files_with_report.py:281-346 | the section of one extension: its link as the report writes it (see the Links rows) and its failures filed by keyword |
| Report.BuildSections | scripts/check_description_files_with_report.py:277-346 | one section per extension with errors, in order (with `SectionsCount` and `SectionListsEveryFailure`) |
| Report.ExitStatusAsWritten | scripts/check_description_files_with_report.py:483 | the status the process ends with is below 256 |
| Report.ExitStatusHidesErrors | scripts/check_description_files_with_report.py:483 | 256 errors end with the same status as none |
| Report.ExitStatus | scripts/check_description_files_with_report.py:479-483 | corrected: below 256, zero exactly when there are no errors, the total itself below 256 |
| Report.CleanIffNoFailures | scripts/check_description_files_with_report.py:422-430 | an extension reports nothing exactly when it parses and every check passes |
| Report.ReportMain | scripts/check_description_files_with_report.py:439-483 | one result per file; the total is errors plus dependency errors plus flagged names; it is zero exactly when every file is clean, no dependency is missing and no name is flagged, which is exactly when the summary shows "All validations passed!"; the exit status is the total modulo 256 |
| Report.TotalLoop | scripts/check_description_files_with_report.py:479 | the sum of the failure counts |
| Gate.PlainPrefix | scripts/check_description_files.py:192-204 | empty exactly for "info" and untyped messages |
| Gate.MarkdownPrefix | scripts/check_description_files.py:192-207 | empty exactly for "info" and untyped messages; otherwise a "- :…: " bullet |
| Gate.PrefixesTellTypesApart | scripts/check_description_files.py:195-203 | distinct message types get distinct non-empty prefixes |
| Gate.ReportLinesAppend | scripts/check_description_files.py:205-207 | the report is appended line by line |
| Gate.LogsErrorAppend | scripts/check_description_files.py:234-251 | the trace holds an error exactly when one of its parts does |
| Gate.CheckOutput | scripts/check_description_files.py:240-242 | a check's line starts with its description and is an error exactly when the check fails |
| Gate.CheckOutputs | scripts/check_description_files.py:237-243 | one line per check |
| Gate.CheckOutputsAt | scripts/check_description_files.py:237-243 | the k-th line is the k-th check's outcome |
| Gate.CheckOutputsFail | scripts/check_description_files.py:237-243 | the check lines hold an error exactly when some check fails |
| Gate.ThreeDescribedChecksFail | scripts/check_description_files.py:209-213 | three described checks log an error exactly when one of them fails |
| Gate.GateChecksFail | scripts/check_description_files.py:209-243 | the gate's check lines hold an error exactly when the category, repository-name or URL check fails |
| Gate.RunGateChecks | scripts/check_description_files.py:237-243 | the loop logs the check lines, and its flag is set exactly when every check passes |
| Gate.RepositoryUrlAsWritten | scripts/check_description_files.py:229 | as written, the URL line crashes exactly when "scm_url" holds a non-string |
| Gate.NullScmUrlCrashes | scripts/check_description_files.py:229 | with a null "scm_url", the line crashes although both URL checks would report "scm_url value is not set" |
| Gate.RepositoryUrl | scripts/check_description_files.py:229 | corrected: the stripped URL when it is a string, otherwise empty; it agrees with the as-written value wherever that exists |
| Gate.ProcessedByName | scripts/check_description_files.py:215-224 | `name.json` is validated exactly when it is in the folder, and a name without extension never is |
| Gate.HiddenJsonSkipped | scripts/check_description_files.py:215-219 | ".json" has no extension and is skipped |
| Gate.Heading | scripts/check_description_files.py:225-226 | the extension heading is not an error and appears in the report |
| Gate.GateChecksApplicableToArgs | scripts/check_description_files.py:209-243 | the three checks can run on every argument the gate reaches them with, whatever its "scm_url" holds |
| Gate.ParsedHeader | scripts/check_description_files.py:226-231 | three lines, none an error, the heading first |
| Gate.ParseFailureLines | scripts/check_description_files.py:226-235 | two lines, the heading then an error |
| Gate.SkipLine | scripts/check_description_files.py:216-224 | a printed line, absent from the report, never an error |
| Gate.FileOutputs | scripts/check_description_files.py:214-243 | a skipped file prints one line; a validated file starts with its extension heading, and logs nothing more exactly when its URL line crashes |
| Gate.GateFilePasses | scripts/check_description_files.py:209-243 | a file passes exactly when it is skipped, or it parses with a missing or string "scm_url" and all three checks pass |
| Gate.ParsedFileLines | scripts/check_description_files.py:226-243 | a parsed file whose URL line does not crash logs 3 + n lines: the stripped URL second, the k-th check at 3 + k |
| Gate.CrashingFileLines | scripts/check_description_files.py:225-229 | a file whose "scm_url" is not a string logs its heading only, no error, and does not pass |
| Gate.NullScmUrlReported | scripts/check_description_files.py:229-243 | corrected, a null "scm_url" would log an empty URL, then the URL check's failure, and fail the gate |
| Gate.FileOutputsFail | scripts/check_description_files.py:214-243 | the lines of a file that does not crash hold an error exactly when it does not pass |
| Gate.SkippedFileNotReported | scripts/check_description_files.py:216-224 | a skipped file adds nothing to the report |
| Gate.FilesOutputsFail | scripts/check_description_files.py:214-243 | the lines of files none of which crashes hold an error exactly when some file does not pass |
| Gate.CrashedArgumentFails | scripts/check_description_files.py:229 | a file that crashes the run keeps the files from passing |
| Gate.ExpectedOutcome | scripts/check_description_files.py:168-169 | resolved exactly when no dependency is missing |
| Gate.DependencyOutputsFail | scripts/check_description_files.py:245-251 | the dependency lines hold an error exactly when a dependency error is raised |
| Gate.ExitCode | scripts/check_description_files.py:253 | the exit code is 0 or 1; an uncaught exception gives 1 |
| Gate.RunLinesFail | scripts/check_description_files.py:214-251 | with no crash, the trace holds an error exactly when some file fails or a dependency error is raised |
| Gate.GateLinesFail | scripts/check_description_files.py:214-253 | with no crash, the trace holds an error exactly when the gate's demands are not met |
| Gate.SkippedFilesIrrelevant | scripts/check_description_files.py:214-224 | removing a skipped argument does not change whether the files pass |
| Gate.ValidateFile | scripts/check_description_files.py:214-243 | one argument's lines, ok exactly when it passes, and crashed exactly when its "scm_url" is not a string |
| Gate.ValidateNext | scripts/check_description_files.py:214-243 | one loop step appends one argument's lines to the trace and the report, updates the success flag and tells whether the argument crashed |
| Gate.ValidateAll | scripts/check_description_files.py:214-243 | the loop crashes exactly when some argument does, after the lines up to the heading of the first such argument; otherwise it produces all arguments' lines and report, and success exactly when all pass |
| Gate.CheckFolder | scripts/check_description_files.py:245-251 | the dependency heading and outcome; ok exactly when nothing is missing |
| Gate.RunGate | scripts/check_description_files.py:171-253 | a report name not ending in ".md" is rejected; a file with a non-string "scm_url" ends the run after the lines up to its heading, before the dependency step; otherwise the trace, the report copy and the success flag; exit 0 exactly when every validated file passes and no dependency is missing |

## Left out

- File and console I/O, JSON parsing, `argparse`, `joblib` threading and `datetime`. A parsed description, a directory listing and the arguments are inputs to the model.
- The exact text layout of the console output and of the markdown report (headers, tables, the date line). The model keeps their counts, sections and lines, not the printed strings.
- In the reporting script, a description whose "scm_url" is neither missing, null nor a string ends the run with an uncaught exception. `check_git_repository_name` runs first, and its `urlsplit` raises `TypeError` on a list or an object and `AttributeError` on a non-zero number or `true`. For `false` or `0`, `check_scm_url_syntax` raises `TypeError` at its `"://" in` test. The checks require `Manifest.WellTyped` instead. The gate needs no such requirement: there the value crashes the run earlier, at line 229, and the model has that crash.
- A folder description whose "depends" is a number, a boolean or null: `check_dependencies` raises an uncaught `TypeError` on it. One whose "depends" is an object or a list holding non-strings is not representable by `Manifest.Value`. The folder members require `Manifest.DependsTyped` (missing, a list of strings, or a string, which is modelled character by character).
- `str.lower` beyond ASCII, Python's `repr` escaping in the variations list, and the IPv6 and NFKC errors of `urlsplit`.
- Extension.Deduplicate: `list(set(failures))` has no defined order, so the contract states only no duplicates and the same elements, not the order Python produces.
- The order of `os.listdir` and `Path.iterdir` is unspecified. It is an input sequence in the model.
- The gate's `parse_json(file_path)` opens the argument path, not the folder path it tested with `isfile`. In the model each argument carries one parse result and one "is in the folder" flag.
- The report reads "{name}.json" from the working directory to find the link. In the model that stored description is a parameter (`stored`) of the sections.
- `_log_message` compares message types with `is`. The model compares values; with interned literals both behave alike.
- Check keyword arguments are always empty in the source and are not modelled.
- Progress lines that are only printed are left out: "Checked dependency between N extensions.", the printed parse errors of `check_dependencies`, the verbose "Checking" line and "Looking for unexpected files".
- Keyword bucketing tests "category", then "scm_url", before "repository name". A repository-name message whose name contains "category" therefore lands under category issues, and one whose name contains "scm_url" under SCM URL issues. The model keeps this behaviour; `Filing.RepositoryNameFailureFiled` states only that such a message never lands under other issues.
- The reporting script's copy of `check_filenames` (lines 128-186) returns the list and is counted in `Report.ReportMain` through `Filenames.FlaggedNames`. Its entries are kept as names, as `relative_to` gives for top-level entries.

## Findings

| source | as written | input that shows it | evidently intended | confidence | as-written member | corrected member |
|---|---|---|---|---|---|---|
| scripts/check_description_files_with_report.py:295 | `replace('git@', 'https://')` runs before `replace(':', '/')`, so the colon of "https:" becomes a slash too | `git@github.com:owner/repo.git` links to `https///github.com/owner/repo` | `https://github.com/owner/repo` | high, not executed | Links.SshLinkAsWritten | Links.SshLink |
| scripts/check_description_files_with_report.py:483 | `sys.exit(total_failure_count)` ends with the count modulo 256 | 256 errors end with status 0, the same as a clean run | a non-zero status whenever errors were found | high, not executed | Report.ExitStatusHidesErrors | Report.ExitStatus |
| scripts/check_description_files.py:229 | `metadata.get("scm_url", "").strip()` is called on `None` when "scm_url" is null, and the script stops with an `AttributeError` | a description with `"scm_url": null` | log an empty URL and let the guard report "scm_url value is not set" | high, not executed | Gate.NullScmUrlCrashes | Gate.NullScmUrlReported |
