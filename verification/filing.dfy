/**
 * Where the failures of each check land in the report: the category
 * check's under the category issues, the guard's on "scm_url" under the
 * SCM URL issues, and none of them among the other issues.
 */
module Filing {
  import opened Wrappers
  import opened Text
  import opened Manifest
  import opened Urls
  import opened Checks
  import opened Buckets

  lemma ScmUrlKeyMissingFiled()
    ensures BucketOf(KeyMissing("scm_url")) == ScmUrlIssues
  {
    MentionsAt(KeyMissing("scm_url"), "scm_url", 0);
    NotMentioned(KeyMissing("scm_url"), "category", 'o');
  }

  lemma ScmUrlValueNotSetFiled()
    ensures BucketOf(ValueNotSet("scm_url")) == ScmUrlIssues
  {
    MentionsAt(ValueNotSet("scm_url"), "scm_url", 0);
    NotMentioned(ValueNotSet("scm_url"), "category", 'g');
  }

  /** The guard's failures on "scm_url" are listed under the SCM URL issues. */
  lemma ScmUrlGuardFiled(m: Metadata)
    ensures RequireMetadataKey("scm_url", m) != None ==> BucketOf(RequireMetadataKey("scm_url", m).value) == ScmUrlIssues
  {
    ScmUrlKeyMissingFiled();
    ScmUrlValueNotSetFiled();
  }

  /** The category check's failures are listed under the category issues. */
  lemma CategoryFailureFiled(m: Metadata)
    ensures CheckCategory(m) != None ==> BucketOf(CheckCategory(m).value) == CategoryIssues
  {
    MentionsAt(KeyMissing("category"), "category", 0);
    MentionsAt(ValueNotSet("category"), "category", 0);
  }

  /** Every failure of the syntax check, the guard's included, starts with "scm_url". */
  lemma ScmUrlFailureLeads(m: Metadata)
    requires WellTyped(m)
    ensures CheckScmUrlSyntax(m) != None ==> StartsWith(CheckScmUrlSyntax(m).value, "scm_url")
  {
  }

  /** Every failure of the syntax check mentions "scm_url", so it is never an other issue. */
  lemma ScmUrlFailureMentions(m: Metadata)
    requires WellTyped(m)
    ensures CheckScmUrlSyntax(m) != None ==> Mentions(CheckScmUrlSyntax(m).value, "scm_url")
  {
    ScmUrlFailureLeads(m);
    if CheckScmUrlSyntax(m) != None {
      MentionsAt(CheckScmUrlSyntax(m).value, "scm_url", 0);
    }
  }

  /** Whatever follows it, the opening of a repository-name failure mentions "repository name". */
  lemma RepositoryNameOpening(tail: string)
    ensures Mentions("\nextension repository name is '" + tail, "repository name")
  {
    MentionsAt("\nextension repository name is '" + tail, "repository name", 11);
  }

  /** The text of a repository-name failure mentions "repository name". */
  lemma RepositoryNameMessageMentions(name: string)
    ensures Mentions(RepositoryNameMessage(name), "repository name")
  {
    var advice := ListRepr(Variations(name));
    var tail := name + "'. Please, consider changing it to 'Slicer" + name + "' or any of\nthese variations " + advice + ".\n";
    assert RepositoryNameMessage(name) == "\nextension repository name is '" + tail;
    RepositoryNameOpening(tail);
  }

  /** The repository-name check's failures are never other issues. */
  lemma RepositoryNameFailureFiled(m: Metadata)
    requires WellTyped(m)
    ensures CheckGitRepositoryName(m) != None ==> BucketOf(CheckGitRepositoryName(m).value) != OtherIssues
  {
    ScmUrlGuardFiled(m);
    if RequireMetadataKey("scm_url", m) == None {
      RepositoryNameMessageMentions(RepositoryName(m["scm_url"].s));
    }
  }
}
