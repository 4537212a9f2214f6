/**
 * `check_dependencies`, as both validation scripts carry it: every entry of
 * the descriptions folder that is a file named `<stem>.json` and parses
 * makes `<stem>` available and declares its "depends" list; the declared
 * names are collected into a required-by index (each dependency with the
 * extensions that declare it, in the order they are met); a dependency
 * that no available extension provides is an error. The reporting script
 * counts those errors, the gate script raises one error that carries a
 * line per missing dependency.
 */
module Dependencies {
  import opened Wrappers
  import opened Text
  import opened Manifest

  /** One entry of the descriptions folder, in `os.listdir` order, with what parsing it gives. */
  datatype ListedFile = ListedFile(filename: string, isFile: bool, parsed: ParseResult)

  /** One dependency declared by one extension. */
  datatype Declaration = Declaration(dependency: string, requester: string)

  /**
   * The extension name of an entry that is read at all: a file whose name
   * ends in ".json" and whose `os.path.splitext` extension is ".json".
   */
  function DescriptionStem(f: ListedFile): (r: Option<string>)
    ensures r.Some? ==> f.isFile && EndsWith(f.filename, ".json")
  {
    if !f.isFile || !EndsWith(f.filename, ".json") then None
    else
      var parts := Splitext(Basename(f.filename));
      if parts.1 != ".json" then None else Some(parts.0)
  }

  /** The name `stem.json` of a dot-free stem: its own base name, ending in ".json", split at that dot. */
  lemma JsonFileName(stem: string)
    requires |stem| > 0 && '.' !in stem && '/' !in stem
    ensures Basename(stem + ".json") == stem + ".json"
    ensures EndsWith(stem + ".json", ".json")
    ensures Splitext(stem + ".json") == (stem, ".json")
  {
    var name := stem + ".json";
    assert '/' !in name by {
      forall i | 0 <= i < |name| ensures name[i] != '/' {
        if i < |stem| { assert name[i] == stem[i]; }
      }
    }
    BasenameIsLastComponent(name);
    assert name[|stem|..] == ".json";
    assert name == stem + "." + "json";
    SplitextAtLastDot(stem, "json");
  }

  /** A file `stem.json` with a dot-free stem is read as the extension `stem`. */
  lemma DescriptionStemOf(stem: string, parsed: ParseResult)
    requires |stem| > 0 && '.' !in stem && '/' !in stem
    ensures DescriptionStem(ListedFile(stem + ".json", true, parsed)) == Some(stem)
  {
    JsonFileName(stem);
  }

  /**
   * A hidden file such as ".json" is skipped even when its name ends in
   * ".json": its only dot leads it, so it has no extension.
   */
  lemma HiddenFileSkipped(name: string, parsed: ParseResult)
    requires '.' !in name && '/' !in name
    ensures DescriptionStem(ListedFile("." + name, true, parsed)) == None
  {
    assert '/' !in "." + name;
    BasenameIsLastComponent("." + name);
    SplitextDotfile(name);
  }

  /** The entry makes an extension available: it is read and it parses. */
  predicate Counted(f: ListedFile) {
    DescriptionStem(f).Some? && f.parsed.Parsed?
  }

  /** `available_extensions`: the stems of the counted entries, in folder order. */
  function Available(files: seq<ListedFile>): (r: seq<string>)
    ensures |r| <= |files|
  {
    if |files| == 0 then []
    else
      var f := files[|files| - 1];
      Available(files[..|files| - 1]) + if Counted(f) then [DescriptionStem(f).value] else []
  }

  /** The declarations of `requester` for each name of its "depends" list, in list order. */
  function DeclaredBy(deps: seq<string>, requester: string): seq<Declaration> {
    seq(|deps|, k requires 0 <= k < |deps| => Declaration(deps[k], requester))
  }

  /** The declarations of one entry: those of its "depends" list when it is counted, else none. */
  function DeclarationsOf(f: ListedFile): (r: seq<Declaration>)
    requires DependsTypedResult(f.parsed)
    ensures r != [] ==> Counted(f) && "depends" in f.parsed.metadata
  {
    if Counted(f) && "depends" in f.parsed.metadata
    then DeclaredBy(DependsNames(f.parsed.metadata["depends"]), DescriptionStem(f).value)
    else []
  }

  predicate AllDependsTyped(files: seq<ListedFile>) {
    forall i | 0 <= i < |files| :: DependsTypedResult(files[i].parsed)
  }

  /** Every declaration of the folder, entry by entry. */
  function Declarations(files: seq<ListedFile>): seq<Declaration>
    requires AllDependsTyped(files)
  {
    if |files| == 0 then []
    else Declarations(files[..|files| - 1]) + DeclarationsOf(files[|files| - 1])
  }

  /** `required_extensions[d]`: who declares `d`, one entry per declaration, in order. */
  function Requesters(decls: seq<Declaration>, d: string): seq<string> {
    if |decls| == 0 then []
    else
      var last := decls[|decls| - 1];
      Requesters(decls[..|decls| - 1], d) + if last.dependency == d then [last.requester] else []
  }

  /** The keys of `required_extensions` in insertion order: each declared name once, where first met. */
  function DependencyNames(decls: seq<Declaration>): seq<string> {
    if |decls| == 0 then []
    else
      var names := DependencyNames(decls[..|decls| - 1]);
      var d := decls[|decls| - 1].dependency;
      if d in names then names else names + [d]
  }

  /** An extension requires `d` exactly when it declares it. */
  lemma {:induction false} RequestersMembership(decls: seq<Declaration>, d: string, s: string)
    ensures s in Requesters(decls, d) <==> Declaration(d, s) in decls
  {
    if |decls| > 0 {
      var init := decls[..|decls| - 1];
      RequestersMembership(init, d, s);
      assert decls == init + [decls[|decls| - 1]];
    }
  }

  /** A name is a key of the index exactly when some declaration names it, and then it has a requester. */
  lemma {:induction false} DependencyNamesMembership(decls: seq<Declaration>, d: string)
    ensures d in DependencyNames(decls) <==> exists k | 0 <= k < |decls| :: decls[k].dependency == d
    ensures d in DependencyNames(decls) <==> Requesters(decls, d) != []
  {
    if |decls| > 0 {
      var init := decls[..|decls| - 1];
      DependencyNamesMembership(init, d);
      if exists k | 0 <= k < |init| :: init[k].dependency == d {
        var k :| 0 <= k < |init| && init[k].dependency == d;
        assert decls[k] == init[k];
      }
      if exists k | 0 <= k < |decls| :: decls[k].dependency == d {
        var k :| 0 <= k < |decls| && decls[k].dependency == d;
        if k < |init| { assert init[k] == decls[k]; }
      }
    }
  }

  /** Each dependency name is a key once. */
  lemma {:induction false} DependencyNamesDistinct(decls: seq<Declaration>)
    ensures NoDuplicates(DependencyNames(decls))
  {
    if |decls| > 0 {
      DependencyNamesDistinct(decls[..|decls| - 1]);
    }
  }

  /**
   * `required_extensions` with the insertion order of its keys: `order`
   * lists the declared names as first met, and each key maps to its
   * requesters.
   */
  predicate IndexOf(required: map<string, seq<string>>, order: seq<string>, decls: seq<Declaration>) {
    && order == DependencyNames(decls)
    && (forall d | d in required :: d in order)
    && (forall d | d in order :: d in required)
    && (forall d | d in required :: required[d] == Requesters(decls, d))
  }

  /**
   * The dictionary the loops build, one declaration at a time: a known key
   * gets the requester appended, a new key starts a list of one.
   */
  function IndexMap(decls: seq<Declaration>): (r: map<string, seq<string>>)
    ensures forall d :: d in r <==> d in DependencyNames(decls)
  {
    if |decls| == 0 then map[]
    else
      var index := IndexMap(decls[..|decls| - 1]);
      var last := decls[|decls| - 1];
      if last.dependency in index then index[last.dependency := index[last.dependency] + [last.requester]]
      else index[last.dependency := [last.requester]]
  }

  /** The dictionary built that way, with its keys in insertion order, is the required-by index. */
  lemma {:induction false} IndexMapIsIndex(decls: seq<Declaration>)
    ensures IndexOf(IndexMap(decls), DependencyNames(decls), decls)
  {
    if |decls| > 0 {
      var init := decls[..|decls| - 1];
      IndexMapIsIndex(init);
      var d := decls[|decls| - 1].dependency;
      if d !in IndexMap(init) {
        DependencyNamesMembership(init, d);
      }
    }
  }

  /**
   * The inner loop of `check_dependencies`: the "depends" list `deps` of
   * the extension `stem` entered into the index, name by name.
   */
  method RecordDepends(required: map<string, seq<string>>, order: seq<string>, deps: seq<string>, stem: string, ghost decls: seq<Declaration>)
    returns (required': map<string, seq<string>>, order': seq<string>)
    requires required == IndexMap(decls) && order == DependencyNames(decls)
    ensures required' == IndexMap(decls + DeclaredBy(deps, stem))
    ensures order' == DependencyNames(decls + DeclaredBy(deps, stem))
  {
    required', order' := required, order;
    var j := 0;
    assert decls + DeclaredBy(deps[..0], stem) == decls;
    while j < |deps|
      invariant 0 <= j <= |deps|
      invariant required' == IndexMap(decls + DeclaredBy(deps[..j], stem))
      invariant order' == DependencyNames(decls + DeclaredBy(deps[..j], stem))
    {
      var dependency := deps[j];
      ghost var before := decls + DeclaredBy(deps[..j], stem);
      ghost var after := decls + DeclaredBy(deps[..j + 1], stem);
      assert after == before + [Declaration(dependency, stem)];
      assert after[..|after| - 1] == before;
      if dependency in required' {
        required' := required'[dependency := required'[dependency] + [stem]];
      } else {
        required' := required'[dependency := [stem]];
        order' := order' + [dependency];
      }
      j := j + 1;
    }
    assert deps[..j] == deps;
  }

  /** What one more entry adds to the available extensions and to the declarations. */
  lemma FolderStep(files: seq<ListedFile>, i: int)
    requires AllDependsTyped(files) && 0 <= i < |files|
    ensures AllDependsTyped(files[..i]) && AllDependsTyped(files[..i + 1])
    ensures Declarations(files[..i + 1]) == Declarations(files[..i]) + DeclarationsOf(files[i])
    ensures Available(files[..i + 1]) == Available(files[..i]) + if Counted(files[i]) then [DescriptionStem(files[i]).value] else []
  {
    assert files[..i + 1][..i] == files[..i];
  }

  /**
   * The first loop of `check_dependencies`: `available_extensions` and the
   * required-by index, built entry by entry.
   */
  method BuildIndex(files: seq<ListedFile>) returns (required: map<string, seq<string>>, order: seq<string>, available: seq<string>)
    requires AllDependsTyped(files)
    ensures available == Available(files)
    ensures IndexOf(required, order, Declarations(files))
  {
    required, order, available := map[], [], [];
    var i := 0;
    while i < |files|
      invariant 0 <= i <= |files|
      invariant available == Available(files[..i])
      invariant required == IndexMap(Declarations(files[..i]))
      invariant order == DependencyNames(Declarations(files[..i]))
    {
      var f := files[i];
      FolderStep(files, i);
      ghost var done := Declarations(files[..i]);
      var stem := DescriptionStem(f);
      if stem.Some? && f.parsed.Parsed? {
        available := available + [stem.value];
        var metadata := f.parsed.metadata;
        if "depends" in metadata {
          required, order := RecordDepends(required, order, DependsNames(metadata["depends"]), stem.value, done);
        } else {
          assert done + DeclarationsOf(f) == done;
        }
      } else {
        assert done + DeclarationsOf(f) == done;
      }
      i := i + 1;
    }
    assert files[..i] == files;
    IndexMapIsIndex(Declarations(files));
  }

  /** The index keys, in order, that no available extension provides. */
  function Unresolved(order: seq<string>, available: seq<string>): (r: seq<string>)
    ensures forall x :: x in r <==> x in order && x !in available
  {
    if |order| == 0 then []
    else
      var init := order[..|order| - 1];
      var d := order[|order| - 1];
      assert order == init + [d];
      Unresolved(init, available) + if d in available then [] else [d]
  }

  lemma {:induction false} UnresolvedDistinct(order: seq<string>, available: seq<string>)
    requires NoDuplicates(order)
    ensures NoDuplicates(Unresolved(order, available))
  {
    if |order| > 0 {
      var init := order[..|order| - 1];
      assert NoDuplicates(init);
      UnresolvedDistinct(init, available);
      assert order[|order| - 1] !in init;
    }
  }

  /** The dependencies some extension declares and none provides. */
  function MissingDependencies(files: seq<ListedFile>): set<string>
    requires AllDependsTyped(files)
  {
    set x | x in Declarations(files) && x.dependency !in Available(files) :: x.dependency
  }

  /** The unresolved keys of the index are exactly the missing dependencies, each once. */
  lemma UnresolvedAreMissing(files: seq<ListedFile>)
    requires AllDependsTyped(files)
    ensures var u := Unresolved(DependencyNames(Declarations(files)), Available(files));
      && NoDuplicates(u)
      && (set d | d in u) == MissingDependencies(files)
      && |u| == |MissingDependencies(files)|
  {
    var decls := Declarations(files);
    var u := Unresolved(DependencyNames(decls), Available(files));
    DependencyNamesDistinct(decls);
    UnresolvedDistinct(DependencyNames(decls), Available(files));
    forall d ensures d in u <==> d in MissingDependencies(files) {
      DependencyNamesMembership(decls, d);
      if d in MissingDependencies(files) {
        var x :| x in decls && x.dependency !in Available(files) && x.dependency == d;
        var k :| 0 <= k < |decls| && decls[k] == x;
      }
      if d in u {
        var k :| 0 <= k < |decls| && decls[k].dependency == d;
        assert decls[k] in decls;
      }
    }
    assert (set d | d in u) == MissingDependencies(files);
    NoDuplicatesCardinality(u);
  }

  /**
   * The second loop of the reporting script's `check_dependencies`: one
   * error per key of the index that is not available.
   */
  method CountUnresolved(order: seq<string>, available: seq<string>) returns (count: nat)
    ensures count == |Unresolved(order, available)|
  {
    count := 0;
    var i := 0;
    while i < |order|
      invariant 0 <= i <= |order|
      invariant count == |Unresolved(order[..i], available)|
    {
      assert order[..i + 1][..i] == order[..i];
      if order[i] !in available {
        count := count + 1;
      }
      i := i + 1;
    }
    assert order[..i] == order;
  }

  /** The reporting script's `check_dependencies`: the number of dependencies declared and not available. */
  method CountDependencyErrors(files: seq<ListedFile>) returns (count: nat)
    requires AllDependsTyped(files)
    ensures count == |MissingDependencies(files)|
  {
    var required, order, available := BuildIndex(files);
    count := CountUnresolved(order, available);
    UnresolvedAreMissing(files);
  }

  /** The line the gate script writes for a dependency nobody provides. */
  function MissingLine(dependency: string, requesters: seq<string>): string {
    dependency + " extension is not found. It is required by extension: " + Join(requesters, ", ") + "."
  }

  /** The lines `errors_found` holds for the unresolved keys `unresolved` of an index. */
  function MissingLines(unresolved: seq<string>, required: map<string, seq<string>>): (r: seq<string>)
    requires forall d | d in unresolved :: d in required
    ensures |r| == |unresolved|
    ensures forall k | 0 <= k < |r| :: r[k] == MissingLine(unresolved[k], required[unresolved[k]])
  {
    seq(|unresolved|, k requires 0 <= k < |unresolved| => MissingLine(unresolved[k], required[unresolved[k]]))
  }

  lemma MissingLinesStep(order: seq<string>, required: map<string, seq<string>>, available: seq<string>, i: int)
    requires forall d | d in order :: d in required
    requires 0 <= i < |order|
    ensures forall d | d in Unresolved(order[..i + 1], available) :: d in required
    ensures MissingLines(Unresolved(order[..i + 1], available), required)
      == MissingLines(Unresolved(order[..i], available), required)
         + if order[i] in available then [] else [MissingLine(order[i], required[order[i]])]
  {
    assert order[..i + 1][..i] == order[..i];
    var u := Unresolved(order[..i], available);
    if order[i] in available {
      assert Unresolved(order[..i + 1], available) == u + [];
      assert u + [] == u;
    } else {
      assert Unresolved(order[..i + 1], available) == u + [order[i]];
      MissingLinesSnoc(u, order[i], required);
    }
  }

  /** One more unresolved key adds its line at the end. */
  lemma MissingLinesSnoc(u: seq<string>, x: string, required: map<string, seq<string>>)
    requires forall d | d in u :: d in required
    requires x in required
    ensures forall d | d in u + [x] :: d in required
    ensures MissingLines(u + [x], required) == MissingLines(u, required) + [MissingLine(x, required[x])]
  {
    var longer := MissingLines(u + [x], required);
    var expected := MissingLines(u, required) + [MissingLine(x, required[x])];
    forall k | 0 <= k < |longer| ensures longer[k] == expected[k] {
      if k < |u| {
        assert (u + [x])[k] == u[k];
      }
    }
  }

  /** The second loop of the gate script's `check_dependencies`: a line per unavailable key, in key order. */
  method CollectMissingLines(order: seq<string>, required: map<string, seq<string>>, available: seq<string>)
    returns (lines: seq<string>)
    requires forall d | d in order :: d in required
    ensures lines == MissingLines(Unresolved(order, available), required)
  {
    lines := [];
    var i := 0;
    while i < |order|
      invariant 0 <= i <= |order|
      invariant lines == MissingLines(Unresolved(order[..i], available), required)
    {
      MissingLinesStep(order, required, available, i);
      var extension := order[i];
      if extension !in available {
        lines := lines + [MissingLine(extension, required[extension])];
      }
      i := i + 1;
    }
    assert order[..i] == order;
  }

  /** What the gate script's `check_dependencies` ends with: it returns, or raises `ExtensionDependencyError(lines)`. */
  datatype DependencyOutcome = Resolved | DependencyError(lines: seq<string>)

  /** `str(ExtensionDependencyError(lines))` */
  function ErrorText(lines: seq<string>): string {
    Join(lines, "\n")
  }

  /** The text of the error splits back into its lines when no line holds a line break. */
  lemma ErrorTextLines(lines: seq<string>)
    requires |lines| > 0 && forall k | 0 <= k < |lines| :: '\n' !in lines[k]
    ensures Split(ErrorText(lines), '\n') == lines
  {
    SplitJoin(lines, '\n');
  }

  /** The lines the gate script reports for a folder: one per missing dependency, in first-declared order. */
  function ExpectedLines(files: seq<ListedFile>): seq<string>
    requires AllDependsTyped(files)
  {
    var decls := Declarations(files);
    var u := Unresolved(DependencyNames(decls), Available(files));
    seq(|u|, k requires 0 <= k < |u| => MissingLine(u[k], Requesters(decls, u[k])))
  }

  /**
   * Each missing dependency has one line in the gate's error, and that line
   * names every extension that declares it.
   */
  lemma ExpectedLinesCover(files: seq<ListedFile>, d: string)
    requires AllDependsTyped(files)
    requires d in MissingDependencies(files)
    ensures |ExpectedLines(files)| == |MissingDependencies(files)|
    ensures exists k | 0 <= k < |ExpectedLines(files)| ::
      ExpectedLines(files)[k] == MissingLine(d, Requesters(Declarations(files), d))
    ensures forall s :: s in Requesters(Declarations(files), d) <==> Declaration(d, s) in Declarations(files)
  {
    var decls := Declarations(files);
    var u := Unresolved(DependencyNames(decls), Available(files));
    assert |ExpectedLines(files)| == |MissingDependencies(files)| by {
      UnresolvedAreMissing(files);
    }
    assert exists k | 0 <= k < |ExpectedLines(files)| ::
        ExpectedLines(files)[k] == MissingLine(d, Requesters(decls, d)) by {
      UnresolvedAreMissing(files);
      assert d in (set x | x in u);
      var k :| 0 <= k < |u| && u[k] == d;
      assert ExpectedLines(files)[k] == MissingLine(d, Requesters(decls, d));
    }
    forall s ensures s in Requesters(decls, d) <==> Declaration(d, s) in decls {
      RequestersMembership(decls, d, s);
    }
  }

  /**
   * The gate script's `check_dependencies`: it raises exactly when a
   * declared dependency is not available, with the expected lines.
   */
  method CheckDependencies(files: seq<ListedFile>) returns (outcome: DependencyOutcome)
    requires AllDependsTyped(files)
    ensures outcome == Resolved <==> MissingDependencies(files) == {}
    ensures outcome.DependencyError? ==> outcome.lines == ExpectedLines(files) && outcome.lines != []
  {
    var required, order, available := BuildIndex(files);
    var lines := CollectMissingLines(order, required, available);
    UnresolvedAreMissing(files);
    if lines == [] {
      outcome := Resolved;
    } else {
      outcome := DependencyError(lines);
    }
  }

  /** The available extensions of a folder split over a concatenation. */
  lemma {:induction false} AvailableAppend(a: seq<ListedFile>, b: seq<ListedFile>)
    ensures Available(a + b) == Available(a) + Available(b)
    decreases |b|
  {
    if |b| > 0 {
      var init := b[..|b| - 1];
      assert (a + b)[..|a + b| - 1] == a + init;
      assert (a + b)[|a + b| - 1] == b[|b| - 1];
      AvailableAppend(a, init);
    } else {
      assert a + b == a;
    }
  }

  /** The declarations of a folder split over a concatenation. */
  lemma {:induction false} DeclarationsAppend(a: seq<ListedFile>, b: seq<ListedFile>)
    requires AllDependsTyped(a) && AllDependsTyped(b)
    ensures AllDependsTyped(a + b)
    ensures Declarations(a + b) == Declarations(a) + Declarations(b)
    decreases |b|
  {
    if |b| > 0 {
      var init := b[..|b| - 1];
      assert (a + b)[..|a + b| - 1] == a + init;
      assert (a + b)[|a + b| - 1] == b[|b| - 1];
      DeclarationsAppend(a, init);
    } else {
      assert a + b == a;
    }
  }

  /** A "depends" string declares one dependency per character, each named by that character alone. */
  lemma StringDependsPerCharacter(f: ListedFile, s: string)
    requires Counted(f) && "depends" in f.parsed.metadata && f.parsed.metadata["depends"] == Str(s)
    ensures |DeclarationsOf(f)| == |s|
    ensures forall k | 0 <= k < |s| :: DeclarationsOf(f)[k] == Declaration([s[k]], DescriptionStem(f).value)
  {
  }

  lemma UnparsedContributesNothing(f: ListedFile)
    requires f.parsed.ParseFailure?
    ensures AllDependsTyped([f]) && Available([f]) == [] && Declarations([f]) == []
  {
    assert [f][..0] == [];
  }

  /** An entry that does not parse neither provides nor requests anything, wherever it stands. */
  lemma UnparsedFileIgnored(a: seq<ListedFile>, f: ListedFile, b: seq<ListedFile>)
    requires AllDependsTyped(a) && AllDependsTyped(b)
    requires f.parsed.ParseFailure?
    ensures AllDependsTyped(a + [f] + b) && AllDependsTyped(a + b)
    ensures Available(a + [f] + b) == Available(a + b)
    ensures Declarations(a + [f] + b) == Declarations(a + b)
  {
    UnparsedContributesNothing(f);
    AvailableAppend(a, [f]);
    assert Available(a + [f]) == Available(a);
    AvailableAppend(a + [f], b);
    AvailableAppend(a, b);
    DeclarationsAppend(a, [f]);
    assert Declarations(a + [f]) == Declarations(a);
    DeclarationsAppend(a + [f], b);
    assert Declarations(a + [f] + b) == Declarations(a) + Declarations(b);
    DeclarationsAppend(a, b);
  }
}
