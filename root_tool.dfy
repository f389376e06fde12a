/**
 * The import sorter of goimportssort.go: classification into three tiers
 * (builtin, external, local), sorting, the zero-import short cut, the
 * rendered `import ( ... )` block that skips empty tiers, and the splice
 * that puts the block after the package clause of the reprinted file.
 */
module RootTool {
  import opened Wrappers
  import opened Text
  import opened ImpModel
  import opened Tiers
  import opened Ordering
  import opened Sorting
  import opened Rendering

  /** `isStandardPackage`: membership in the loaded set of standard packages. */
  predicate IsStandardPackage(std: set<string>, pkg: string)
  {
    pkg in std
  }

  /** The tier `convertImportsToSlice` picks for one import, branch for branch. */
  function TierOf(prefix: string, std: set<string>, m: Imp): Tier
  {
    if prefix != "" && Count(m.path, prefix) > 0 then Local
    else if IsStandardPackage(std, TrimQuotes(m.path)) then Builtin
    else External
  }

  /**
   * The priority of the rules: a non-empty local prefix found anywhere in
   * the quoted path wins, even over a standard package; then a standard
   * package (looked up without its quotes); everything else is external.
   */
  lemma TierChoice(prefix: string, std: set<string>, m: Imp)
    ensures TierOf(prefix, std, m) == Local <==> prefix != "" && Contains(m.path, prefix)
    ensures TierOf(prefix, std, m) == Builtin <==>
              !(prefix != "" && Contains(m.path, prefix)) && TrimQuotes(m.path) in std
    ensures TierOf(prefix, std, m) == External <==>
              !(prefix != "" && Contains(m.path, prefix)) && TrimQuotes(m.path) !in std
  {
    if prefix != "" {
      CountPositive(m.path, prefix);
    }
  }

  /** The classification rule with the prefix and the standard set fixed. */
  function Rule(prefix: string, std: set<string>): Imp -> Tier
  {
    m => TierOf(prefix, std, m)
  }

  /** `convertImportsToSlice`: appends every spec to the slice of its tier. */
  method ConvertImportsToSlice(prefix: string, std: set<string>, specs: seq<ImportSpec>)
    returns (categories: seq<seq<Imp>>)
    ensures categories == Classify(Rule(prefix, std), Imps(specs))
  {
    categories := [[], [], []];
    assert specs[..0] == [];
    for i := 0 to |specs|
      invariant categories == Classify(Rule(prefix, std), Imps(specs[..i]))
    {
      var spec := specs[i];
      var m := Imp("", "");
      if spec.name.Some? {
        m := m.(ref := spec.name.value);
      }
      m := m.(path := spec.pathLiteral);
      ClassifyAppend(Rule(prefix, std), Imps(specs[..i]), m);
      ImpsAppend(specs, i);
      if prefix != "" && Count(spec.pathLiteral, prefix) > 0 {
        categories := categories[2 := categories[2] + [m]];
      } else if IsStandardPackage(std, TrimQuotes(spec.pathLiteral)) {
        categories := categories[0 := categories[0] + [m]];
      } else {
        categories := categories[1 := categories[1] + [m]];
      }
    }
    assert specs[..|specs|] == specs;
  }

  /** Without a local prefix nothing is local. */
  lemma EmptyPrefixNoLocal(std: set<string>, specs: seq<Imp>)
    ensures Classify(Rule("", std), specs)[2] == []
  {
    var local := Classify(Rule("", std), specs)[2];
    if local != [] {
      ClassifyMembers(Rule("", std), specs, 2, local[0]);
      TierChoice("", std, local[0]);
    }
  }

  /** Every import lands in the tier its rule names, and in no other. */
  lemma ClassifyPlacesImport(prefix: string, std: set<string>, specs: seq<Imp>, k: nat, m: Imp)
    requires k < 3
    ensures m in Classify(Rule(prefix, std), specs)[k] <==>
              m in specs && Index(TierOf(prefix, std, m)) == k
  {
    ClassifyMembers(Rule(prefix, std), specs, k, m);
  }

  /** `countImports`: adds up the lengths of the tiers. */
  method CountImports(impModels: seq<seq<Imp>>) returns (count: nat)
    ensures count == Total(impModels)
    ensures count == 0 <==> forall i :: 0 <= i < |impModels| ==> impModels[i] == []
  {
    count := 0;
    for i := 0 to |impModels|
      invariant count == Total(impModels[..i])
    {
      assert impModels[..i + 1][..i] == impModels[..i];
      count := count + |impModels[i]|;
    }
    assert impModels[..|impModels|] == impModels;
    TotalZero(impModels);
  }

  // ---------------------------------------------------------------------
  // The rendered block.
  // ---------------------------------------------------------------------

  /** What the loops of `convertImportsToGo` append between `import (` and `)`: a group per non-empty tier. */
  function Body(tiers: seq<seq<Imp>>): (r: string)
    ensures r == [] || r[|r| - 1] == '\n'
  {
    if tiers == [] then ""
    else
      var last := tiers[|tiers| - 1];
      Body(tiers[..|tiers| - 1]) + (if last == [] then "" else Group(last))
  }

  function Block(tiers: seq<seq<Imp>>): string
  {
    "import (" + Body(tiers) + ")"
  }

  /** `convertImportsToGo`: the grouped import statement, built up by appending. */
  method ConvertImportsToGo(imports: seq<seq<Imp>>) returns (output: string)
    ensures output == Block(imports)
  {
    output := "import (";
    for i := 0 to |imports|
      invariant output == "import (" + Body(imports[..i])
    {
      BodyStep(imports, i);
      if |imports[i]| == 0 {
        continue;
      }
      output := WriteGroup(output, imports[i]);
      AppendAssoc("import (", Body(imports[..i]), Group(imports[i]));
    }
    assert imports[..|imports|] == imports;
    output := output + ")";
  }

  /** The body of the first `i + 1` tiers: that of the first `i`, then tier `i`'s group if it is non-empty. */
  lemma BodyStep(tiers: seq<seq<Imp>>, i: nat)
    requires i < |tiers|
    ensures Body(tiers[..i + 1]) == Body(tiers[..i]) + (if tiers[i] == [] then "" else Group(tiers[i]))
  {
    assert tiers[..i + 1][..i] == tiers[..i];
  }

  /** The non-empty tiers, in order. */
  function NonEmpty(tiers: seq<seq<Imp>>): (r: seq<seq<Imp>>)
    ensures |r| <= |tiers|
    ensures forall k :: 0 <= k < |r| ==> r[k] != []
  {
    if tiers == [] then []
    else
      var last := tiers[|tiers| - 1];
      NonEmpty(tiers[..|tiers| - 1]) + (if last == [] then [] else [last])
  }

  /** The lines of each group, with one extra line break, hence one blank line, between groups. */
  function JoinGroups(groups: seq<seq<Imp>>): string
  {
    if groups == [] then ""
    else if |groups| == 1 then Lines(groups[0])
    else JoinGroups(groups[..|groups| - 1]) + "\n" + Lines(groups[|groups| - 1])
  }

  /** The non-empty tiers' text: nothing, or a line break followed by their joined lines. */
  function Layout(ne: seq<seq<Imp>>): string
  {
    if ne == [] then "" else "\n" + JoinGroups(ne)
  }

  lemma {:induction false} BodyLayout(tiers: seq<seq<Imp>>)
    ensures Body(tiers) == Layout(NonEmpty(tiers))
    decreases |tiers|
  {
    if tiers != [] {
      BodyLayout(tiers[..|tiers| - 1]);
      LayoutStep(tiers);
    }
  }

  /** One more tier after the others, whose body has the layout of their non-empty tiers. */
  lemma LayoutStep(tiers: seq<seq<Imp>>)
    requires tiers != []
    requires Body(tiers[..|tiers| - 1]) == Layout(NonEmpty(tiers[..|tiers| - 1]))
    ensures Body(tiers) == Layout(NonEmpty(tiers))
  {
    var init := tiers[..|tiers| - 1];
    var last := tiers[|tiers| - 1];
    var ne := NonEmpty(init);
    if last == [] {
      assert NonEmpty(tiers) == ne;
      assert Body(tiers) == Body(init);
    } else {
      assert NonEmpty(tiers) == ne + [last];
      assert Body(tiers) == Body(init) + Group(last);
      if ne == [] {
        assert JoinGroups(ne + [last]) == Lines(last);
      } else {
        JoinSnoc(ne, last);
      }
    }
  }

  /** Adding a non-empty tier after others adds a blank line and its lines. */
  lemma JoinSnoc(ne: seq<seq<Imp>>, last: seq<Imp>)
    requires ne != []
    ensures "\n" + JoinGroups(ne + [last]) == ("\n" + JoinGroups(ne)) + Group(last)
  {
    var j := JoinGroups(ne);
    var l := Lines(last);
    assert (ne + [last])[..|ne|] == ne;
    assert JoinGroups(ne + [last]) == j + "\n" + l;
    AppendAssoc("\n" + j, "\n", l);
    AppendAssoc("\n", j + "\n", l);
    AppendAssoc("\n", j, "\n");
  }

  /**
   * The shape of the block: `import (`, then, if some tier is non-empty,
   * a line break and the non-empty tiers' lines in tier order with one
   * blank line between consecutive tiers, then `)`. Empty tiers leave no
   * trace.
   */
  lemma BlockLayout(tiers: seq<seq<Imp>>)
    ensures Block(tiers) == "import (" + Layout(NonEmpty(tiers)) + ")"
  {
    BodyLayout(tiers);
  }

  /** The block's line breaks: one per import and one per non-empty tier. */
  lemma {:induction false} BodyNewlines(tiers: seq<seq<Imp>>)
    requires AllWellFormed(tiers)
    ensures multiset(Body(tiers))['\n'] == Total(tiers) + |NonEmpty(tiers)|
    decreases |tiers|
  {
    if tiers != [] {
      var init := tiers[..|tiers| - 1];
      var last := tiers[|tiers| - 1];
      assert AllWellFormed(init) by {
        assert forall i :: 0 <= i < |init| ==> init[i] == tiers[i];
      }
      BodyNewlines(init);
      assert forall j :: 0 <= j < |last| ==> WellFormed(last[j]) by {
        assert last == tiers[|tiers| - 1];
      }
      TierNewlines(Body(init), last);
    }
  }

  /** After a body, one more tier adds one line break per import, and one more if it is non-empty. */
  lemma TierNewlines(body: string, last: seq<Imp>)
    requires forall j :: 0 <= j < |last| ==> WellFormed(last[j])
    ensures multiset(body + (if last == [] then "" else Group(last)))['\n'] ==
              multiset(body)['\n'] + |last| + (if last == [] then 0 else 1)
  {
    LinesNewlines(last);
    if last != [] {
      assert multiset(Group(last)) == multiset("\n") + multiset(Lines(last));
    } else {
      assert body + "" == body;
    }
  }

  lemma BlockNewlines(tiers: seq<seq<Imp>>)
    requires AllWellFormed(tiers)
    ensures multiset(Block(tiers))['\n'] == Total(tiers) + |NonEmpty(tiers)|
  {
    BodyNewlines(tiers);
    BracketNewlines(Body(tiers));
  }

  lemma {:induction false} BodyRoundTrip(tiers: seq<seq<Imp>>)
    requires AllWellFormed(tiers)
    ensures ParseLines(Body(tiers)) == Flatten(tiers)
    decreases |tiers|
  {
    if tiers != [] {
      var init := tiers[..|tiers| - 1];
      var last := tiers[|tiers| - 1];
      assert AllWellFormed(init) by {
        assert forall i :: 0 <= i < |init| ==> init[i] == tiers[i];
      }
      BodyRoundTrip(init);
      assert forall j :: 0 <= j < |last| ==> WellFormed(last[j]) by {
        assert last == tiers[|tiers| - 1];
      }
      TierParses(Body(init), last);
    }
  }

  /** After a body, one more tier's group, if any, reads back as its imports. */
  lemma TierParses(body: string, last: seq<Imp>)
    requires body == [] || body[|body| - 1] == '\n'
    requires forall j :: 0 <= j < |last| ==> WellFormed(last[j])
    ensures ParseLines(body + (if last == [] then "" else Group(last))) == ParseLines(body) + last
  {
    var g := if last == [] then "" else Group(last);
    ParseLinesAppend(body, g);
    if last != [] {
      GroupRoundTrip(last);
    } else {
      assert ParseLines(g) == [];
    }
  }

  /** The block lists exactly the imports of the tiers, tier after tier. */
  lemma BlockRoundTrip(tiers: seq<seq<Imp>>)
    requires AllWellFormed(tiers)
    ensures ParseBlock(Block(tiers)) == Some(Flatten(tiers))
  {
    var b := Block(tiers);
    assert b[..8] == "import (";
    assert b[8..|b| - 1] == Body(tiers);
    BodyRoundTrip(tiers);
  }

  // ---------------------------------------------------------------------
  // Putting the block back, and the whole of `process`.
  // ---------------------------------------------------------------------

  /** The header the block is put after. */
  function Header(packageName: string): string
  {
    "package " + packageName
  }

  /** The splice of `replaceImports` (line 240), on the reprinted file without its import declarations. */
  function Splice(text: string, packageName: string, block: string): (r: string)
    ensures !Contains(text, Header(packageName)) ==> r == text
  {
    ReplaceFirst(text, Header(packageName), Header(packageName) + "\n\n" + block)
  }

  /**
   * The header is kept where it first occurs and a blank line and the
   * block follow it; every other byte is kept in order.
   */
  lemma SpliceAfterHeader(text: string, packageName: string, block: string, i: nat)
    requires FirstOccurrence(text, Header(packageName), i)
    ensures Splice(text, packageName, block) ==
              text[..i + |Header(packageName)|] + "\n\n" + block + text[i + |Header(packageName)|..]
  {
    var h := Header(packageName);
    assert text[..i + |h|] == text[..i] + h;
    AppendAssoc(text[..i], h, "\n\n");
    AppendAssoc(text[..i] + h + "\n\n", block, text[i + |h|..]);
    AppendAssoc(text[..i], h + "\n\n", block);
    AppendAssoc(h, "\n\n", block);
    AppendAssoc(text[..i], h + "\n\n" + block, text[i + |h|..]);
  }

  /** The file as the parser and printer hand it over. */
  datatype ParsedFile = ParsedFile(packageName: string, imports: seq<ImportSpec>, printed: Result<string>)

  /** The block `process` writes for the given import specs. */
  function NewBlock(prefix: string, std: set<string>, specs: seq<ImportSpec>): string
  {
    Block(SortAll(Classify(Rule(prefix, std), Imps(specs))))
  }

  /**
   * The new block lists every import of the file, none lost and none
   * added, each tier sorted.
   */
  lemma NewBlockKeepsImports(prefix: string, std: set<string>, specs: seq<ImportSpec>)
    requires forall k :: 0 <= k < |specs| ==> WellFormed(FromSpec(specs[k]))
    ensures ParseBlock(NewBlock(prefix, std, specs)).Some?
    ensures multiset(ParseBlock(NewBlock(prefix, std, specs)).value) == multiset(Imps(specs))
  {
    var tiers := Classify(Rule(prefix, std), Imps(specs));
    var sorted := SortAll(tiers);
    assert AllWellFormed(sorted) by {
      forall i, j | 0 <= i < |sorted| && 0 <= j < |sorted[i]|
        ensures WellFormed(sorted[i][j])
      {
        var m := sorted[i][j];
        assert m in multiset(tiers[i]);
        ClassifyMembers(Rule(prefix, std), Imps(specs), i, m);
      }
    }
    BlockRoundTrip(sorted);
    SortAllKeepsEntries(tiers);
    ClassifyConserves(Rule(prefix, std), Imps(specs));
  }

  /**
   * `process`: loads the standard set and parses the file (both given),
   * returns the source unchanged when it has no imports, and otherwise
   * splices the sorted block into the reprinted file.
   */
  method Process(src: string, prefix: string, std: Result<set<string>>, parsed: Result<ParsedFile>)
    returns (output: Result<string>)
    ensures std.Failure? ==> output == Failure(std.error)
    ensures std.Success? && parsed.Failure? ==> output == Failure(parsed.error)
    ensures std.Success? && parsed.Success? && parsed.value.imports == [] ==> output == Success(src)
    ensures std.Success? && parsed.Success? && parsed.value.imports != [] ==>
              output == match parsed.value.printed
                        case Failure(e) => Failure(e)
                        case Success(text) =>
                          Success(Splice(text, parsed.value.packageName,
                                         NewBlock(prefix, std.value, parsed.value.imports)))
  {
    if std.Failure? {
      return Failure(std.error);
    }
    if parsed.Failure? {
      return Failure(parsed.error);
    }
    var file := parsed.value;
    var convertedImports := ConvertImportsToSlice(prefix, std.value, file.imports);
    var count := CountImports(convertedImports);
    ClassifyConserves(Rule(prefix, std.value), Imps(file.imports));
    if count == 0 {
      return Success(src);
    }
    var sortedImports := SortImports(convertedImports);
    var convertedToGo := ConvertImportsToGo(sortedImports);
    match file.printed
    case Failure(e) =>
      output := Failure(e);
    case Success(text) =>
      output := Success(Splice(text, file.packageName, convertedToGo));
  }
}
