/**
 * The checks run on each extension description: the guard that demands a
 * metadata key before a check body runs, the category check, the syntax
 * check of the source-control URL and the repository-naming check. The two
 * validation scripts carry identical copies of all four; each is modelled
 * once here. A check that raises `ExtensionCheckError` yields the error's
 * text; a check that returns yields `None`.
 */
module Checks {
  import opened Wrappers
  import opened Text
  import opened Manifest
  import opened Urls

  /** What one check yields: `None` when it passes, `Some(details)` when it fails. */
  type Outcome = Option<string>

  function KeyMissing(key: string): string {
    key + " key is missing"
  }

  function ValueNotSet(key: string): string {
    key + " value is not set"
  }

  /**
   * The decorator `require_metadata_key(key, value_required)`: it fails
   * when the key is absent, or when a value is required and the key holds
   * null; `None` lets the check body run.
   */
  function RequireMetadataKey(key: string, m: Metadata, valueRequired: bool := true): (r: Outcome)
    ensures r == None <==> key in m && !(valueRequired && m[key] == Null)
    ensures key !in m ==> r == Some(KeyMissing(key))
    ensures key in m && valueRequired && m[key] == Null ==> r == Some(ValueNotSet(key))
  {
    if key !in m then Some(KeyMissing(key))
    else if valueRequired && m[key] == Null then Some(ValueNotSet(key))
    else None
  }

  /** `check_category`: the guard on "category" and nothing else; there is no list of allowed categories. */
  function CheckCategory(m: Metadata): (r: Outcome)
    ensures r == None <==> "category" in m && m["category"] != Null
    ensures r != None ==> r.value == "category key is missing" || r.value == "category value is not set"
  {
    RequireMetadataKey("category", m)
  }

  const SupportedSchemes: seq<string> := ["git", "https"]

  /** Python's `str(list)` for a list of strings without quotes or backslashes in them. */
  function ListRepr(items: seq<string>): string {
    "[" + Join(seq(|items|, i requires 0 <= i < |items| => "'" + items[i] + "'"), ", ") + "]"
  }

  const NoSchemeSeparator: string := "scm_url do not match scheme://host/path"

  function UnsupportedScheme(scheme: string): string {
    "scm_url scheme is '" + scheme + "' but it should by any of " + ListRepr(SupportedSchemes)
  }

  /**
   * `check_scm_url_syntax`: after the guard, a URL without "://" fails;
   * otherwise it fails exactly when its scheme is neither git nor https.
   */
  function CheckScmUrlSyntax(m: Metadata): (r: Outcome)
    requires WellTyped(m)
    ensures RequireMetadataKey("scm_url", m) != None ==> r == RequireMetadataKey("scm_url", m)
    ensures RequireMetadataKey("scm_url", m) == None ==>
      var url := m["scm_url"].s;
      && (!Contains(url, "://") ==> r == Some(NoSchemeSeparator))
      && (Contains(url, "://") ==>
            r == if Scheme(url) in SupportedSchemes then None else Some(UnsupportedScheme(Scheme(url))))
  {
    match RequireMetadataKey("scm_url", m)
    case Some(failure) => Some(failure)
    case None =>
      var url := m["scm_url"].s;
      if !Contains(url, "://") then Some(NoSchemeSeparator)
      else
        var scheme := Scheme(url);
        if scheme in SupportedSchemes then None else Some(UnsupportedScheme(scheme))
  }

  /** The names exempt from the repository-naming convention. */
  const RepositoryNameCheckExceptions: seq<string> := [
    "3DMetricTools", "ai-assisted-annotation-client", "aigt", "AnglePlanes-Extension",
    "AnomalousFiltersExtension", "BoneTextureExtension", "CarreraSlice", "ChangeTrackerPy",
    "CMFreg", "CurveMaker", "DatabaseInteractorExtension", "dcmqi", "DSC_Analysis",
    "EasyClip-Extension", "ErodeDilateLabel", "FilmDosimetryAnalysis", "GelDosimetryAnalysis",
    "GyroGuide", "iGyne", "ImageMaker", "IntensitySegmenter", "MeshStatisticsExtension",
    "MeshToLabelMap", "ModelClip", "MONAILabel", "mpReview", "NeedleFinder", "opendose3d",
    "OsteotomyPlanner", "PBNRR", "PedicleScrewSimulator", "PercutaneousApproachAnalysis",
    "PerkTutor", "PET-IndiC", "PETLiverUptakeMeasurement", "PETTumorSegmentation",
    "PickAndPaintExtension", "PkModeling", "PortPlacement", "Q3DCExtension",
    "QuantitativeReporting", "ResectionPlanner", "ScatteredTransform", "Scoliosis",
    "SegmentationAidedRegistration", "SegmentationReview", "SegmentRegistration",
    "ShapePopulationViewer", "ShapeRegressionExtension", "ShapeVariationAnalyzer",
    "SkullStripper", "SNRMeasurement", "SPHARM-PDM", "T1Mapping", "TCIABrowser",
    "ukftractography", "VASSTAlgorithms"
  ]

  const VariationPrefixes: seq<string> := ["Slicer-", "Slicer_", "SlicerExtension-", "SlicerExtension_"]

  /** The four renamings the failure suggests, in this order. */
  function Variations(name: string): (r: seq<string>)
    ensures r == ["Slicer-" + name, "Slicer_" + name, "SlicerExtension-" + name, "SlicerExtension_" + name]
  {
    seq(|VariationPrefixes|, i requires 0 <= i < |VariationPrefixes| => VariationPrefixes[i] + name)
  }

  /** The dedented text of the repository-name failure. */
  function RepositoryNameMessage(name: string): string {
    "\nextension repository name is '" + name + "'. Please, consider changing it to 'Slicer" + name
    + "' or any of\nthese variations " + ListRepr(Variations(name)) + ".\n"
  }

  /**
   * `x in names` for a list of names, spelled out element by element so
   * that the verifier looks at the long exception list only on demand.
   */
  predicate Listed(x: string, names: seq<string>) {
    |names| > 0 && (names[0] == x || Listed(x, names[1..]))
  }

  lemma {:induction false} ListedIff(x: string, names: seq<string>)
    ensures Listed(x, names) <==> x in names
  {
    if |names| > 0 {
      ListedIff(x, names[1..]);
      assert names == [names[0]] + names[1..];
    }
  }

  /** The repository-name rule on a short name: an exception, or "slicer" in any case. */
  predicate AcceptableRepositoryName(name: string) {
    Listed(name, RepositoryNameCheckExceptions) || Contains(Lower(name), "slicer")
  }

  /**
   * `check_git_repository_name`: after the guard, the last path segment of
   * the URL without its extension must be an exception or contain "slicer"
   * in any case; otherwise the failure suggests the four renamings.
   */
  function CheckGitRepositoryName(m: Metadata): (r: Outcome)
    requires WellTyped(m)
    ensures RequireMetadataKey("scm_url", m) != None ==> r == RequireMetadataKey("scm_url", m)
    ensures RequireMetadataKey("scm_url", m) == None ==>
      var name := RepositoryName(m["scm_url"].s);
      r == if AcceptableRepositoryName(name) then None else Some(RepositoryNameMessage(name))
  {
    match RequireMetadataKey("scm_url", m)
    case Some(failure) => Some(failure)
    case None =>
      var name := RepositoryName(m["scm_url"].s);
      if Listed(name, RepositoryNameCheckExceptions) then None
      else if !Contains(Lower(name), "slicer") then Some(RepositoryNameMessage(name))
      else None
  }

  /**
   * For a URL `scheme://rest` whose scheme is well formed, the syntax check
   * passes exactly when the scheme, in any case, is git or https, and
   * otherwise names the lower-cased scheme.
   */
  lemma ScmUrlSyntaxOfScheme(m: Metadata, scheme: string, rest: string)
    requires WellTyped(m) && IsSchemeName(scheme)
    requires "scm_url" in m && m["scm_url"] == Str(scheme + "://" + rest)
    ensures CheckScmUrlSyntax(m) == None <==> Lower(scheme) in SupportedSchemes
    ensures CheckScmUrlSyntax(m) != None ==> CheckScmUrlSyntax(m) == Some(UnsupportedScheme(Lower(scheme)))
  {
    var url := scheme + "://" + rest;
    assert url == scheme + ":" + ("//" + rest);
    ContainsInfix(scheme, "://", rest);
    SchemeOfUrl(scheme, "//" + rest);
  }

  /**
   * For `scheme://host/owner/file`, the repository-name check looks at
   * `file` without its extension: it passes when that is an exception or
   * holds "slicer" in any case, and otherwise suggests the four renamings
   * of that name.
   */
  lemma RepositoryNameCheckOfUrl(m: Metadata, scheme: string, host: string, owner: string, file: string)
    requires WellTyped(m) && IsSchemeName(scheme)
    requires Visible(host) && forall i | 0 <= i < |host| :: host[i] !in {'/', '?', '#'}
    requires Visible(owner) && forall i | 0 <= i < |owner| :: owner[i] !in {'/', '?', '#'}
    requires Visible(file) && forall i | 0 <= i < |file| :: file[i] !in {'/', '?', '#'}
    requires "scm_url" in m && m["scm_url"] == Str(scheme + "://" + host + "/" + owner + "/" + file)
    ensures CheckGitRepositoryName(m) == None <==> AcceptableRepositoryName(Splitext(file).0)
    ensures CheckGitRepositoryName(m) != None ==>
      CheckGitRepositoryName(m) == Some(RepositoryNameMessage(Splitext(file).0))
  {
    RepositoryNameOfUrl(scheme, host, owner, file);
  }

  /** On any host and owner, the exception-list name NeedleFinder passes although it lacks "slicer". */
  lemma ExceptionNamePasses(m: Metadata, host: string, owner: string)
    requires WellTyped(m)
    requires Visible(host) && forall i | 0 <= i < |host| :: host[i] !in {'/', '?', '#'}
    requires Visible(owner) && forall i | 0 <= i < |owner| :: owner[i] !in {'/', '?', '#'}
    requires "scm_url" in m && m["scm_url"] == Str("https" + "://" + host + "/" + owner + "/" + "NeedleFinder")
    ensures CheckGitRepositoryName(m) == None
  {
    HttpsIsScheme();
    LetterNameShape("NeedleFinder");
    RepositoryNameCheckOfUrl(m, "https", host, owner, "NeedleFinder");
    NeedleFinderIsException();
  }

  /** A name made of ASCII letters is a path segment as it stands, and has no extension. */
  lemma LetterNameShape(name: string)
    requires forall i | 0 <= i < |name| :: IsAsciiLetter(name[i])
    ensures Visible(name) && forall i | 0 <= i < |name| :: name[i] !in {'/', '?', '#'}
    ensures Splitext(name).0 == name
  {
    assert '.' !in name by {
      assert forall i | 0 <= i < |name| :: name[i] != '.';
    }
    SplitextNoDot(name);
  }

  lemma NeedleFinderIsException()
    ensures AcceptableRepositoryName("NeedleFinder")
  {
    assert RepositoryNameCheckExceptions[26] == "NeedleFinder";
    ListedIff("NeedleFinder", RepositoryNameCheckExceptions);
  }

  /**
   * A description with a category and an https URL on any host whose last
   * segment, with or without ".git", names a Slicer repository passes all
   * three checks.
   */
  lemma ConventionalDescriptionPasses(m: Metadata, host: string, owner: string, name: string, suffix: string)
    requires WellTyped(m)
    requires "category" in m && m["category"] != Null
    requires Visible(host) && forall i | 0 <= i < |host| :: host[i] !in {'/', '?', '#'}
    requires Visible(owner) && forall i | 0 <= i < |owner| :: owner[i] !in {'/', '?', '#'}
    requires Visible(name) && forall i | 0 <= i < |name| :: name[i] !in {'/', '?', '#', '.'}
    requires suffix == "" || suffix == ".git"
    requires |name| > 0 && Contains(Lower(name), "slicer")
    requires "scm_url" in m && m["scm_url"] == Str("https" + "://" + host + "/" + owner + "/" + (name + suffix))
    ensures CheckCategory(m) == None && CheckGitRepositoryName(m) == None && CheckScmUrlSyntax(m) == None
  {
    var file := name + suffix;
    assert '.' !in name && '/' !in name by {
      assert forall i | 0 <= i < |name| :: name[i] != '.' && name[i] != '/';
    }
    ConventionalFileVisible(name, suffix);
    ConventionalFile(name, suffix);
    HttpsIsScheme();
    RepositoryNameCheckOfUrl(m, "https", host, owner, file);
    UrlRegrouped("https", host, owner, file);
    ScmUrlSyntaxOfScheme(m, "https", host + "/" + owner + "/" + file);
  }

  /** Regrouping a URL after its scheme, kept apart so that the string is not unfolded in the caller. */
  lemma UrlRegrouped(scheme: string, host: string, owner: string, file: string)
    ensures scheme + "://" + host + "/" + owner + "/" + file == scheme + "://" + (host + "/" + owner + "/" + file)
  {
  }

  /** "https" is a supported scheme name, kept apart so that the scheme list is not unfolded in the caller. */
  lemma HttpsIsScheme()
    ensures IsSchemeName("https") && Lower("https") == "https" && "https" in SupportedSchemes
  {
  }

  /** A dot-free name, with or without ".git", is made of characters a URL path segment may hold. */
  lemma ConventionalFileVisible(name: string, suffix: string)
    requires Visible(name) && forall i | 0 <= i < |name| :: name[i] !in {'/', '?', '#', '.'}
    requires suffix == "" || suffix == ".git"
    ensures Visible(name + suffix) && forall i | 0 <= i < |name + suffix| :: (name + suffix)[i] !in {'/', '?', '#'}
  {
    var file := name + suffix;
    forall i | 0 <= i < |file| ensures !IsControlOrSpace(file[i]) && file[i] !in {'/', '?', '#'} {
      if i < |name| { assert file[i] == name[i]; }
    }
  }

  /** The root of a dot-free name, with or without ".git", is the name. */
  lemma ConventionalFile(name: string, suffix: string)
    requires |name| > 0 && '.' !in name && '/' !in name
    requires suffix == "" || suffix == ".git"
    ensures Splitext(name + suffix).0 == name
  {
    if suffix == "" {
      assert name + suffix == name;
      SplitextNoDot(name);
    } else {
      assert name + suffix == name + "." + "git";
      SplitextAtLastDot(name, "git");
    }
  }

}
