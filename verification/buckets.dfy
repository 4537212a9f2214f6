/**
 * How the report files a failure: by the keywords its lower-cased text
 * holds. A failure goes under the first of "category", "scm_url" and
 * "repository name" it mentions, or among the other issues.
 */
module Buckets {
  import opened Text

  /** `keyword in text`, searched from position `from` on. */
  predicate HoldsFrom(text: string, keyword: string, from: nat)
    decreases |text| - from
  {
    from + |keyword| <= |text| && (text[from..from + |keyword|] == keyword || HoldsFrom(text, keyword, from + 1))
  }

  lemma {:induction false} HoldsFromIff(text: string, keyword: string, from: nat)
    ensures HoldsFrom(text, keyword, from) <==> exists i | from <= i <= |text| - |keyword| :: OccursAt(text, keyword, i)
    decreases |text| - from
  {
    if from + |keyword| <= |text| {
      HoldsFromIff(text, keyword, from + 1);
      assert OccursAt(text, keyword, from) <==> text[from..from + |keyword|] == keyword;
    }
  }

  /** `keyword in failure.lower()` */
  predicate Mentions(failure: string, keyword: string) {
    HoldsFrom(Lower(failure), keyword, 0)
  }

  lemma MentionsIff(failure: string, keyword: string)
    ensures Mentions(failure, keyword) <==> Contains(Lower(failure), keyword)
  {
    HoldsFromIff(Lower(failure), keyword, 0);
  }

  /** A failure that holds, at some position, a keyword free of upper-case letters mentions it. */
  lemma MentionsAt(failure: string, keyword: string, at: int)
    requires OccursAt(failure, keyword, at)
    requires forall i | 0 <= i < |keyword| :: !('A' <= keyword[i] <= 'Z')
    ensures Mentions(failure, keyword)
  {
    LowerUnchanged(keyword);
    assert Lower(failure)[at..at + |keyword|] == Lower(failure[at..at + |keyword|]);
    assert OccursAt(Lower(failure), keyword, at);
    MentionsIff(failure, keyword);
  }

  /** A failure holding a lower-case letter of the keyword in neither case does not mention it. */
  lemma NotMentioned(failure: string, keyword: string, c: char)
    requires 'a' <= c <= 'z' && c in keyword
    requires c !in failure && (c as int - 32) as char !in failure
    ensures !Mentions(failure, keyword)
  {
    assert c !in Lower(failure) by {
      forall i | 0 <= i < |failure| ensures Lower(failure)[i] != c {
        assert failure[i] != c && failure[i] != (c as int - 32) as char;
      }
    }
    AbsentCharNotContained(Lower(failure), keyword, c);
    MentionsIff(failure, keyword);
  }

  /** The four headings a failure can be listed under. */
  datatype Bucket = CategoryIssues | ScmUrlIssues | RepositoryNameIssues | OtherIssues

  /**
   * The heading of a failure: the first of "category", "scm_url" and
   * "repository name" its lower-cased text holds, or the other issues.
   */
  function BucketOf(failure: string): Bucket {
    if Mentions(failure, "category") then CategoryIssues
    else if Mentions(failure, "scm_url") then ScmUrlIssues
    else if Mentions(failure, "repository name") then RepositoryNameIssues
    else OtherIssues
  }

  /** The items whose class under `classify` is `b`, in their order. */
  function Select(items: seq<string>, classify: string -> Bucket, b: Bucket): (r: seq<string>)
    ensures |r| <= |items|
  {
    if |items| == 0 then []
    else
      var last := items[|items| - 1];
      Select(items[..|items| - 1], classify, b) + if classify(last) == b then [last] else []
  }

  lemma {:induction false} SelectMembership(items: seq<string>, classify: string -> Bucket, b: Bucket, x: string)
    ensures x in Select(items, classify, b) <==> x in items && classify(x) == b
  {
    if |items| > 0 {
      var init := items[..|items| - 1];
      SelectMembership(init, classify, b, x);
      assert items == init + [items[|items| - 1]];
    }
  }

  lemma {:induction false} SelectPartition(items: seq<string>, classify: string -> Bucket)
    ensures multiset(items) ==
      multiset(Select(items, classify, CategoryIssues)) + multiset(Select(items, classify, ScmUrlIssues))
      + multiset(Select(items, classify, RepositoryNameIssues)) + multiset(Select(items, classify, OtherIssues))
  {
    if |items| > 0 {
      var init := items[..|items| - 1];
      var last := items[|items| - 1];
      SelectPartition(init, classify);
      SingleFiled(last, classify(last));
      assert items == init + [last];
    }
  }

  /** A failure goes under exactly one of the four headings. */
  lemma SingleFiled(x: string, b: Bucket)
    ensures multiset{x} ==
      multiset(if b == CategoryIssues then [x] else []) + multiset(if b == ScmUrlIssues then [x] else [])
      + multiset(if b == RepositoryNameIssues then [x] else []) + multiset(if b == OtherIssues then [x] else [])
  {
  }

  lemma {:induction false} SelectNone(items: seq<string>, classify: string -> Bucket, b: Bucket)
    requires forall i | 0 <= i < |items| :: classify(items[i]) != b
    ensures Select(items, classify, b) == []
  {
    if |items| > 0 {
      var init := items[..|items| - 1];
      assert forall i | 0 <= i < |init| :: init[i] == items[i];
      SelectNone(init, classify, b);
    }
  }

  /** The failures listed under `b`, in their order. */
  function Filed(failures: seq<string>, b: Bucket): (r: seq<string>)
    ensures |r| <= |failures|
  {
    Select(failures, BucketOf, b)
  }

  /** A failure is listed under `b` exactly when it is one of the failures and its heading is `b`. */
  lemma FiledMembership(failures: seq<string>, b: Bucket, x: string)
    ensures x in Filed(failures, b) <==> x in failures && BucketOf(x) == b
  {
    SelectMembership(failures, BucketOf, b, x);
  }

  /** The four lists together hold every failure exactly as often as the failures do. */
  lemma FiledPartition(failures: seq<string>)
    ensures multiset(failures) ==
      multiset(Filed(failures, CategoryIssues)) + multiset(Filed(failures, ScmUrlIssues))
      + multiset(Filed(failures, RepositoryNameIssues)) + multiset(Filed(failures, OtherIssues))
  {
    SelectPartition(failures, BucketOf);
  }

  /** Nothing is listed under a heading no failure has. */
  lemma FiledNone(failures: seq<string>, b: Bucket)
    requires forall i | 0 <= i < |failures| :: BucketOf(failures[i]) != b
    ensures Filed(failures, b) == []
  {
    SelectNone(failures, BucketOf, b);
  }
}
