/**
 * The repository-layout check (`check_filenames`): every entry at the top
 * of the repository must be an allowed directory, an allowed file, or a
 * file whose suffix is ".json". The standalone script prints the flagged
 * entries and ends with 0 or 1; the reporting script keeps the same list
 * and counts it.
 */
module Filenames {
  import opened Text

  /** One entry of the repository root, as `Path.iterdir` lists it: its name and what it is. */
  datatype Entry = Entry(name: string, isDir: bool, isFile: bool)

  const AllowedDirectories: set<string> :=
    {".circleci", ".idea", ".github", ".git", "ARCHIVE", "scripts", ".venv", "venv", "__pycache__", ".pytest_cache"}

  const AllowedFiles: set<string> := {".pre-commit-config.yaml", ".prettierrc.js", ".git-blame-ignore-revs", "README.md"}

  const AllowedExtensions: set<string> := {".json"}

  /**
   * `Path(name).suffix`: from the last '.' on, when that dot is neither the
   * first nor the last character of the name; otherwise empty.
   */
  function Suffix(name: string): (r: string)
    ensures r == "" || (2 <= |r| < |name| && r[0] == '.' && '.' !in r[1..] && EndsWith(name, r))
  {
    RFindFound(name, '.');
    var i := RFind(name, '.');
    if 0 < i < |name| - 1 then name[i..] else ""
  }

  /** Any non-empty name followed by ".json" has the suffix ".json", whatever dots it holds. */
  lemma SuffixOfJson(stem: string)
    requires |stem| > 0
    ensures Suffix(stem + ".json") == ".json"
  {
    var name := stem + ".json";
    assert name == stem + ['.'] + "json";
    RFindBefore(stem, '.', "json");
    assert name[|stem|..] == ".json";
  }

  /** A name whose only dot leads it, such as ".json", has no suffix. */
  lemma SuffixOfDotfile(name: string)
    requires '.' !in name
    ensures Suffix("." + name) == ""
  {
    assert "." + name == [] + ['.'] + name;
    RFindBefore([], '.', name);
  }

  /** `is_file_allowed`: an allowed file name, or a ".json" suffix. */
  predicate IsFileAllowed(name: string) {
    name in AllowedFiles || Suffix(name) in AllowedExtensions
  }

  /** Every description file `stem.json` with a non-empty stem is allowed; the bare ".json" is not. */
  lemma JsonFilesAllowed(stem: string)
    requires |stem| > 0
    ensures IsFileAllowed(stem + ".json")
    ensures !IsFileAllowed("." + "json")
  {
    SuffixOfJson(stem);
    SuffixOfDotfile("json");
  }

  /**
   * The test of one entry: a directory is flagged when its name is not an
   * allowed directory, a file when it is not allowed, and anything else
   * (a broken link, a socket) never.
   */
  predicate Flagged(e: Entry) {
    if e.isDir then e.name !in AllowedDirectories
    else if e.isFile then !IsFileAllowed(e.name)
    else false
  }

  /** The names of the flagged entries, in listing order. */
  function FlaggedNames(entries: seq<Entry>): (r: seq<string>)
    ensures |r| <= |entries|
  {
    if |entries| == 0 then []
    else
      var e := entries[|entries| - 1];
      FlaggedNames(entries[..|entries| - 1]) + if Flagged(e) then [e.name] else []
  }

  /** A name is reported exactly when an entry of that name is flagged. */
  lemma {:induction false} FlaggedNamesMembership(entries: seq<Entry>, x: string)
    ensures x in FlaggedNames(entries) <==> exists k | 0 <= k < |entries| :: entries[k].name == x && Flagged(entries[k])
  {
    if |entries| > 0 {
      var init := entries[..|entries| - 1];
      FlaggedNamesMembership(init, x);
      if exists k | 0 <= k < |init| :: init[k].name == x && Flagged(init[k]) {
        var k :| 0 <= k < |init| && init[k].name == x && Flagged(init[k]);
        assert entries[k] == init[k];
      }
      if exists k | 0 <= k < |entries| :: entries[k].name == x && Flagged(entries[k]) {
        var k :| 0 <= k < |entries| && entries[k].name == x && Flagged(entries[k]);
        if k < |init| { assert init[k] == entries[k]; }
      }
    }
  }

  /** Entries of a directory have distinct names, so each flagged entry is reported once. */
  lemma {:induction false} FlaggedNamesDistinct(entries: seq<Entry>)
    requires forall i, j | 0 <= i < j < |entries| :: entries[i].name != entries[j].name
    ensures NoDuplicates(FlaggedNames(entries))
  {
    if |entries| > 0 {
      var init := entries[..|entries| - 1];
      var last := entries[|entries| - 1];
      FlaggedNamesDistinct(init);
      if Flagged(last) {
        FlaggedNamesMembership(init, last.name);
        forall k | 0 <= k < |init| ensures init[k].name != last.name {
          assert init[k] == entries[k];
        }
      }
    }
  }

  /** Entries that are neither directories nor files are never reported. */
  lemma {:induction false} OtherEntriesIgnored(entries: seq<Entry>)
    requires forall i | 0 <= i < |entries| :: !entries[i].isDir && !entries[i].isFile
    ensures FlaggedNames(entries) == []
  {
    if |entries| > 0 {
      OtherEntriesIgnored(entries[..|entries| - 1]);
    }
  }

  /** The loop over `root_dir.iterdir()`: the flagged entries' names, in listing order. */
  method UnexpectedEntries(entries: seq<Entry>) returns (unexpected: seq<string>)
    ensures unexpected == FlaggedNames(entries)
  {
    unexpected := [];
    var i := 0;
    while i < |entries|
      invariant 0 <= i <= |entries|
      invariant unexpected == FlaggedNames(entries[..i])
    {
      assert entries[..i + 1][..i] == entries[..i];
      var item := entries[i];
      if item.isDir {
        if item.name !in AllowedDirectories {
          unexpected := unexpected + [item.name];
        }
      } else if item.isFile {
        if !IsFileAllowed(item.name) {
          unexpected := unexpected + [item.name];
        }
      }
      i := i + 1;
    }
    assert entries[..i] == entries;
  }

  /** `check_filenames` of the standalone script: 0 when nothing is flagged, 1 otherwise. */
  method CheckFilenames(entries: seq<Entry>) returns (status: int)
    ensures status == 0 <==> forall k | 0 <= k < |entries| :: !Flagged(entries[k])
    ensures status == 0 || status == 1
  {
    var unexpected := UnexpectedEntries(entries);
    if unexpected != [] {
      FlaggedNamesMembership(entries, unexpected[0]);
      status := 1;
    } else {
      forall k | 0 <= k < |entries| ensures !Flagged(entries[k]) {
        FlaggedNamesMembership(entries, entries[k].name);
      }
      status := 0;
    }
  }
}
