/**
 * The "Repository:" link the report prints above an extension's issues:
 * the description's "scm_url" with a git:// or SSH address turned into an
 * https:// one and a trailing ".git" removed.
 */
module Links {
  import opened Wrappers
  import opened Text
  import opened Manifest

  /**
   * The scheme rewrite as the report writes it: "git://" becomes
   * "https://"; for an SSH address "git@" becomes "https://" and then
   * every ':' becomes '/', the one just written in "https://" included.
   */
  function RewriteAsWritten(url: string): string {
    if StartsWith(url, "git://") then ReplaceAll(url, "git://", "https://")
    else if StartsWith(url, "git@") then ReplaceAll(ReplaceAll(url, "git@", "https://"), ":", "/")
    else url
  }

  /** The scheme rewrite with the SSH colons replaced before "https://" is written. */
  function Rewrite(url: string): string {
    if StartsWith(url, "git://") then ReplaceAll(url, "git://", "https://")
    else if StartsWith(url, "git@") then ReplaceAll(ReplaceAll(url, ":", "/"), "git@", "https://")
    else url
  }

  /** `url[:-4]` when the URL ends in ".git". */
  function TrimGitSuffix(url: string): (r: string)
    ensures EndsWith(url, ".git") ==> r + ".git" == url
    ensures !EndsWith(url, ".git") ==> r == url
  {
    if EndsWith(url, ".git") then url[..|url| - 4] else url
  }

  /**
   * The link of a stored description: none unless "scm_url" holds a
   * non-empty string, whose scheme is rewritten as the report writes it
   * and whose ".git" is removed.
   */
  function RepositoryLink(m: Metadata): (r: Option<string>)
    ensures r.Some? <==> "scm_url" in m && m["scm_url"].Str? && m["scm_url"].s != ""
  {
    if "scm_url" in m && m["scm_url"].Str? && m["scm_url"].s != "" then
      Some(TrimGitSuffix(RewriteAsWritten(m["scm_url"].s)))
    else None
  }

  /** A git:// address is served over https at the same place; both rewrites agree on it. */
  lemma GitProtocolRewrite(rest: string)
    requires !Contains(rest, "git://")
    ensures RewriteAsWritten("git://" + rest) == "https://" + rest
    ensures Rewrite("git://" + rest) == "https://" + rest
  {
    assert ("git://" + rest)[..6] == "git://";
    ReplaceAllAtStart("git://", rest, "https://");
  }

  /** The link of a git:// address: the https address at the same place, without ".git". */
  lemma GitProtocolLink(m: Metadata, rest: string)
    requires "scm_url" in m && m["scm_url"] == Str("git://" + rest)
    requires !Contains(rest, "git://")
    ensures RepositoryLink(m) == Some(TrimGitSuffix("https://" + rest))
  {
    GitProtocolRewrite(rest);
  }

  /** Any other non-empty address is linked as it is, without ".git". */
  lemma UnchangedSchemeLink(m: Metadata, url: string)
    requires "scm_url" in m && m["scm_url"] == Str(url) && url != ""
    requires !StartsWith(url, "git://") && !StartsWith(url, "git@")
    ensures RepositoryLink(m) == Some(TrimGitSuffix(url))
  {
  }

  /** Replacing ':' in a text whose only colon sits between `before` and `after`. */
  lemma OneColonReplaced(before: string, after: string)
    requires ':' !in before && ':' !in after
    ensures ReplaceAll(before + ":" + after, ":", "/") == before + "/" + after
  {
    ReplaceCharAppend(before + ":", after, ':', "/");
    ReplaceCharAppend(before, ":", ':', "/");
    ReplaceCharAbsent(before, ':', "/");
    ReplaceCharAbsent(after, ':', "/");
    assert ReplaceAll(":", ":", "/") == "/" by {
      assert ":"[..1] == ":";
    }
  }

  /** Replacing ':' in a text with exactly two colons. */
  lemma TwoColonsReplaced(a: string, b: string, c: string)
    requires ':' !in a && ':' !in b && ':' !in c
    ensures ReplaceAll(a + ":" + (b + ":" + c), ":", "/") == a + "/" + b + "/" + c
  {
    assert ReplaceAll(a + ":" + (b + ":" + c), ":", "/") == ReplaceAll(a + ":", ":", "/") + ReplaceAll(b + ":" + c, ":", "/") by {
      ReplaceCharAppend(a + ":", b + ":" + c, ':', "/");
    }
    assert ReplaceAll(b + ":" + c, ":", "/") == b + "/" + c by {
      OneColonReplaced(b, c);
    }
    assert ReplaceAll(a + ":", ":", "/") == a + "/" by {
      OneColonReplaced(a, "");
      assert a + ":" + "" == a + ":";
    }
  }

  /** A leading pattern that does not occur again is replaced once. */
  lemma LeadingPatternReplaced(pattern: string, rest: string, replacement: string, c: char)
    requires c in pattern && c !in rest
    ensures ReplaceAll(pattern + rest, pattern, replacement) == replacement + rest
  {
    ReplaceAllAtStart(pattern, rest, replacement);
    AbsentCharNotContained(rest, pattern, c);
  }

  /** An SSH address starts with "git@" and not with "git://". */
  lemma SshAddress(host: string, path: string)
    ensures StartsWith("git@" + host + ":" + path, "git@")
    ensures !StartsWith("git@" + host + ":" + path, "git://")
  {
    var url := "git@" + host + ":" + path;
    assert url[..4] == "git@" && url[3] == '@';
  }

  /** Replacing "git@" in git@host:path, as the report does first. */
  lemma SshUserReplaced(host: string, path: string)
    requires '@' !in host && '@' !in path
    ensures ReplaceAll("git@" + host + ":" + path, "git@", "https://") == "https" + ":" + ("//" + host + ":" + path)
  {
    SshRegrouped(host, ":", path);
    LeadingPatternReplaced("git@", host + ":" + path, "https://", '@');
    HttpsRegrouped(host, path);
  }

  /** Regrouping an SSH address around its user part, kept apart so that the string is not unfolded in the caller. */
  lemma SshRegrouped(host: string, separator: string, path: string)
    ensures "git@" + host + separator + path == "git@" + (host + separator + path)
  {
  }

  /** Regrouping the address after "git@" is replaced, kept apart for the same reason. */
  lemma HttpsRegrouped(host: string, path: string)
    ensures "https://" + (host + ":" + path) == "https" + ":" + ("//" + host + ":" + path)
  {
  }

  /** Replacing ':' next turns both the scheme's colon and the host's into '/'. */
  lemma HttpsColonsReplaced(host: string, path: string)
    requires ':' !in host && ':' !in path
    ensures ReplaceAll("https" + ":" + ("//" + host + ":" + path), ":", "/") == "https///" + host + "/" + path
  {
    assert ':' !in "https" && ':' !in "//" + host;
    TwoColonsReplaced("https", "//" + host, path);
    SlashesJoined(host, path);
  }

  /** Regrouping the slashes of the rewritten SSH address, kept apart so that the string is not unfolded in the caller. */
  lemma SlashesJoined(host: string, path: string)
    ensures "https" + "/" + ("//" + host) + "/" + path == "https///" + host + "/" + path
  {
  }

  /** As written, the SSH address git@host:path becomes "https///host/path". */
  lemma SshLinkAsWritten(host: string, path: string)
    requires ':' !in host && ':' !in path && '@' !in host && '@' !in path
    ensures RewriteAsWritten("git@" + host + ":" + path) == "https///" + host + "/" + path
  {
    SshAddress(host, path);
    SshUserReplaced(host, path);
    HttpsColonsReplaced(host, path);
  }

  /** The link of an SSH address git@host:path, as the report writes it: "https///host/path", without ".git". */
  lemma SshRepositoryLink(m: Metadata, host: string, path: string)
    requires "scm_url" in m && m["scm_url"] == Str("git@" + host + ":" + path)
    requires ':' !in host && ':' !in path && '@' !in host && '@' !in path
    ensures RepositoryLink(m) == Some(TrimGitSuffix("https///" + host + "/" + path))
  {
    SshLinkAsWritten(host, path);
  }

  /** Replacing ':' first leaves one "git@" in front. */
  lemma SshColonReplaced(host: string, path: string)
    requires ':' !in host && ':' !in path
    ensures ReplaceAll("git@" + host + ":" + path, ":", "/") == "git@" + (host + "/" + path)
  {
    assert ':' !in "git@" + host;
    OneColonReplaced("git@" + host, path);
    SshRegrouped(host, "/", path);
  }

  /** With the colon replaced first, git@host:path becomes "https://host/path". */
  lemma SshLink(host: string, path: string)
    requires ':' !in host && ':' !in path && '@' !in host && '@' !in path
    ensures Rewrite("git@" + host + ":" + path) == "https://" + host + "/" + path
  {
    SshAddress(host, path);
    SshColonReplaced(host, path);
    LeadingPatternReplaced("git@", host + "/" + path, "https://", '@');
  }

  /** An https address ending in ".git" links to the address without it. */
  lemma HttpsLink(m: Metadata, rest: string)
    requires "scm_url" in m && m["scm_url"] == Str("https://" + rest + ".git")
    ensures RepositoryLink(m) == Some("https://" + rest)
  {
    var url := "https://" + rest + ".git";
    assert !StartsWith(url, "git://") && !StartsWith(url, "git@") by {
      assert url[0] == 'h';
    }
    assert url[|url| - 4..] == ".git";
    assert url[..|url| - 4] == "https://" + rest;
  }
}
