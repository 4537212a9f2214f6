/**
 * One extension description file as the validation scripts see it once
 * `json.load` has run: either a parsed top-level object, abstracted to a
 * map from keys to the few kinds of value the checks inspect, or the text
 * of the parse error.
 */
module Manifest {

  /** A JSON value, reduced to what the checks distinguish. */
  datatype Value =
    | Null                          // JSON null, Python None
    | Str(s: string)                // a JSON string
    | StrList(items: seq<string>)   // a JSON array of strings
    | OtherValue                    // numbers, booleans, objects and other arrays: never inspected

  /** The top-level object of a description file. */
  type Metadata = map<string, Value>

  /** What `parse_json` yields: the metadata, or the message of the `ExtensionParseError` it raises. */
  datatype ParseResult = Parsed(metadata: Metadata) | ParseFailure(details: string)

  /**
   * The "scm_url" the checks read is missing, null or a string. Any other
   * value ends the reporting script with an uncaught exception, which is
   * not modelled: `check_git_repository_name` runs first and its
   * `urlsplit` raises `TypeError` on a list or an object and
   * `AttributeError` on a non-zero number or `true`; for `false` or `0`,
   * `check_scm_url_syntax` raises `TypeError` at its `"://" in` test.
   */
  predicate WellTyped(m: Metadata) {
    "scm_url" in m ==> m["scm_url"].Null? || m["scm_url"].Str?
  }

  predicate WellTypedResult(p: ParseResult) {
    p.Parsed? ==> WellTyped(p.metadata)
  }

  /**
   * The "depends" that `check_dependencies` iterates over is missing, a
   * list of strings or a string, whose characters it then takes one by one.
   */
  predicate DependsTyped(m: Metadata) {
    "depends" in m ==> m["depends"].StrList? || m["depends"].Str?
  }

  predicate DependsTypedResult(p: ParseResult) {
    p.Parsed? ==> DependsTyped(p.metadata)
  }

  /** `for dependency in dependencies`: the items of a list, the one-character strings of a string. */
  function DependsNames(v: Value): (r: seq<string>)
    requires v.StrList? || v.Str?
    ensures v.StrList? ==> r == v.items
    ensures v.Str? ==> |r| == |v.s| && forall k | 0 <= k < |r| :: r[k] == [v.s[k]]
  {
    if v.StrList? then v.items else seq(|v.s|, k requires 0 <= k < |v.s| => [v.s[k]])
  }
}
