/**
 * The import sorter of src/go_imports_sorting.go: classification by the
 * number of slashes in the quoted path, the same sort as the root tool, a
 * rendered block that writes a group for every tier (empty ones too), and
 * `replaceImports`, a chain of text rewrites over the source.
 */
module OlderTool {
  import opened Wrappers
  import opened Text
  import opened ImpModel
  import opened Tiers
  import opened Ordering
  import opened Sorting
  import opened Rendering
  import opened Patterns
  import RootTool

  // ---------------------------------------------------------------------
  // Classification.
  // ---------------------------------------------------------------------

  /** The tier the loop of `convertImportsToSlice` picks for one import, branch for branch. */
  function TierOf(prefix: string, m: Imp): Tier
  {
    if prefix != "" && Count(m.path, prefix) > 0 then Local
    else if Count(m.path, "/") <= 1 then Builtin
    else External
  }

  /**
   * The priority of the rules: a non-empty local prefix found in the
   * quoted path wins; then a path with at most one slash is builtin;
   * everything else is external.
   */
  lemma TierChoice(prefix: string, m: Imp)
    ensures TierOf(prefix, m) == Local <==> prefix != "" && Contains(m.path, prefix)
    ensures TierOf(prefix, m) == Builtin <==>
              !(prefix != "" && Contains(m.path, prefix)) && multiset(m.path)['/'] <= 1
    ensures TierOf(prefix, m) == External <==>
              !(prefix != "" && Contains(m.path, prefix)) && multiset(m.path)['/'] > 1
  {
    if prefix != "" {
      CountPositive(m.path, prefix);
    }
    CountChar(m.path, '/');
  }

  function Rule(prefix: string): Imp -> Tier
  {
    m => TierOf(prefix, m)
  }

  /** A top-level declaration of the parsed file: an import declaration with its specs, or anything else. */
  datatype Decl = ImportDecl(specs: seq<ImportSpec>) | OtherDecl

  /** The specs of all import declarations, in file order. */
  function ImportSpecs(decls: seq<Decl>): seq<ImportSpec>
  {
    if decls == [] then []
    else
      var last := decls[|decls| - 1];
      ImportSpecs(decls[..|decls| - 1]) + (if last.ImportDecl? then last.specs else [])
  }

  /** Only import declarations contribute, and every spec of each of them does. */
  lemma {:induction false} ImportSpecsMembers(decls: seq<Decl>, x: ImportSpec)
    ensures x in ImportSpecs(decls) <==>
              exists i :: 0 <= i < |decls| && decls[i].ImportDecl? && x in decls[i].specs
    decreases |decls|
  {
    if decls != [] {
      var init := decls[..|decls| - 1];
      ImportSpecsMembers(init, x);
      assert forall i :: 0 <= i < |init| ==> init[i] == decls[i];
    }
  }

  /** One more spec: its import goes to the end of the tier its rule names. */
  lemma SpecStep(prefix: string, done: seq<ImportSpec>, spec: ImportSpec, m: Imp)
    requires m == FromSpec(spec)
    ensures var before := Classify(Rule(prefix), Imps(done));
            var k := Index(TierOf(prefix, m));
            Classify(Rule(prefix), Imps(done + [spec])) == before[k := before[k] + [m]]
  {
    ImpsSnoc(done, spec);
    ClassifyAppend(Rule(prefix), Imps(done), m);
  }

  /** `convertImportsToSlice`: appends the specs of every import declaration to the slice of their tier. */
  method ConvertImportsToSlice(prefix: string, decls: seq<Decl>) returns (categories: seq<seq<Imp>>)
    ensures categories == Classify(Rule(prefix), Imps(ImportSpecs(decls)))
  {
    categories := [[], [], []];
    for d := 0 to |decls|
      invariant categories == Classify(Rule(prefix), Imps(ImportSpecs(decls[..d])))
    {
      assert decls[..d + 1][..d] == decls[..d] && decls[..d + 1][d] == decls[d];
      if !decls[d].ImportDecl? {
        assert ImportSpecs(decls[..d + 1]) == ImportSpecs(decls[..d]) + [] == ImportSpecs(decls[..d]);
        continue;
      }
      categories := AppendSpecs(prefix, ImportSpecs(decls[..d]), decls[d].specs, categories);
      assert ImportSpecs(decls[..d + 1]) == ImportSpecs(decls[..d]) + decls[d].specs;
    }
    assert decls[..|decls|] == decls;
  }

  /** The inner loop of `convertImportsToSlice`: the specs of one import declaration, each appended to its tier. */
  method AppendSpecs(prefix: string, before: seq<ImportSpec>, specs: seq<ImportSpec>, start: seq<seq<Imp>>)
    returns (categories: seq<seq<Imp>>)
    requires start == Classify(Rule(prefix), Imps(before))
    ensures categories == Classify(Rule(prefix), Imps(before + specs))
  {
    categories := start;
    assert before + specs[..0] == before;
    for j := 0 to |specs|
      invariant categories == Classify(Rule(prefix), Imps(before + specs[..j]))
    {
      var spec := specs[j];
      var m := Imp("", "");
      if spec.name.Some? {
        m := m.(ref := spec.name.value);
      }
      m := m.(path := spec.pathLiteral);
      assert before + specs[..j + 1] == (before + specs[..j]) + [spec];
      SpecStep(prefix, before + specs[..j], spec, m);
      if prefix != "" && Count(spec.pathLiteral, prefix) > 0 {
        categories := categories[2 := categories[2] + [m]];
      } else if Count(spec.pathLiteral, "/") <= 1 {
        categories := categories[0 := categories[0] + [m]];
      } else {
        categories := categories[1 := categories[1] + [m]];
      }
    }
    assert specs[..|specs|] == specs;
  }

  /** Every spec of every import declaration lands in the tier its rule names, and in no other. */
  lemma ClassifyPlacesImport(prefix: string, decls: seq<Decl>, k: nat, m: Imp)
    requires k < 3
    ensures m in Classify(Rule(prefix), Imps(ImportSpecs(decls)))[k] <==>
              m in Imps(ImportSpecs(decls)) && Index(TierOf(prefix, m)) == k
  {
    ClassifyMembers(Rule(prefix), Imps(ImportSpecs(decls)), k, m);
  }

  // ---------------------------------------------------------------------
  // The rendered block: a group for every tier.
  // ---------------------------------------------------------------------

  /** What the loops of `convertImportsToGo` append between `import (` and `)`. */
  function BodyAll(tiers: seq<seq<Imp>>): string
  {
    if tiers == [] then "" else BodyAll(tiers[..|tiers| - 1]) + Group(tiers[|tiers| - 1])
  }

  function BlockAll(tiers: seq<seq<Imp>>): string
  {
    "import (" + BodyAll(tiers) + ")"
  }

  /** `convertImportsToGo`: the grouped import statement, built up by appending. */
  method ConvertImportsToGo(imports: seq<seq<Imp>>) returns (output: string)
    ensures output == BlockAll(imports)
  {
    output := "import (";
    for i := 0 to |imports|
      invariant output == "import (" + BodyAll(imports[..i])
    {
      BodyAllStep(imports, i);
      output := WriteGroup(output, imports[i]);
      AppendAssoc("import (", BodyAll(imports[..i]), Group(imports[i]));
    }
    assert imports[..|imports|] == imports;
    output := output + ")";
  }

  /** The body of the first `i + 1` tiers: that of the first `i`, then tier `i`'s group. */
  lemma BodyAllStep(tiers: seq<seq<Imp>>, i: nat)
    requires i < |tiers|
    ensures BodyAll(tiers[..i + 1]) == BodyAll(tiers[..i]) + Group(tiers[i])
  {
    assert tiers[..i + 1][..i] == tiers[..i];
  }

  /** One line break per tier, empty or not, and one per import. */
  lemma {:induction false} BodyAllNewlines(tiers: seq<seq<Imp>>)
    requires AllWellFormed(tiers)
    ensures multiset(BodyAll(tiers))['\n'] == |tiers| + Total(tiers)
    decreases |tiers|
  {
    if tiers != [] {
      var init := tiers[..|tiers| - 1];
      var last := tiers[|tiers| - 1];
      assert AllWellFormed(init) by {
        assert forall i :: 0 <= i < |init| ==> init[i] == tiers[i];
      }
      BodyAllNewlines(init);
      assert forall j :: 0 <= j < |last| ==> WellFormed(last[j]) by {
        assert last == tiers[|tiers| - 1];
      }
      LinesNewlines(last);
      assert multiset(Group(last)) == multiset("\n") + multiset(Lines(last));
    }
  }

  /** With the three tiers the tool builds, the block holds 3 + (number of imports) line breaks. */
  lemma BlockAllNewlines(tiers: seq<seq<Imp>>)
    requires AllWellFormed(tiers)
    ensures multiset(BlockAll(tiers))['\n'] == |tiers| + Total(tiers)
  {
    BodyAllNewlines(tiers);
    BracketNewlines(BodyAll(tiers));
  }

  lemma {:induction false} BodyAllRoundTrip(tiers: seq<seq<Imp>>)
    requires AllWellFormed(tiers)
    ensures ParseLines(BodyAll(tiers)) == Flatten(tiers)
    decreases |tiers|
  {
    if tiers != [] {
      var init := tiers[..|tiers| - 1];
      var last := tiers[|tiers| - 1];
      assert AllWellFormed(init) by {
        assert forall i :: 0 <= i < |init| ==> init[i] == tiers[i];
      }
      BodyAllRoundTrip(init);
      ParseLinesAppend(BodyAll(init), Group(last));
      assert forall j :: 0 <= j < |last| ==> WellFormed(last[j]) by {
        assert last == tiers[|tiers| - 1];
      }
      GroupRoundTrip(last);
    }
  }

  /** The block lists exactly the imports of the tiers, tier after tier. */
  lemma BlockAllRoundTrip(tiers: seq<seq<Imp>>)
    requires AllWellFormed(tiers)
    ensures ParseBlock(BlockAll(tiers)) == Some(Flatten(tiers))
  {
    var b := BlockAll(tiers);
    assert b[..8] == "import (";
    assert b[8..|b| - 1] == BodyAll(tiers);
    BodyAllRoundTrip(tiers);
  }

  /** When no tier is empty the two tools write the same block. */
  lemma {:induction false} BodiesAgree(tiers: seq<seq<Imp>>)
    requires forall i :: 0 <= i < |tiers| ==> tiers[i] != []
    ensures BodyAll(tiers) == RootTool.Body(tiers)
    decreases |tiers|
  {
    if tiers != [] {
      var init := tiers[..|tiers| - 1];
      assert forall i :: 0 <= i < |init| ==> init[i] == tiers[i];
      BodiesAgree(init);
    }
  }

  lemma BlocksAgree(tiers: seq<seq<Imp>>)
    requires forall i :: 0 <= i < |tiers| ==> tiers[i] != []
    ensures BlockAll(tiers) == RootTool.Block(tiers)
  {
    BodiesAgree(tiers);
  }

  /** No rendered line of a well-formed import holds a closing parenthesis. */
  lemma {:induction false} LinesNoParen(t: seq<Imp>)
    requires forall j :: 0 <= j < |t| ==> WellFormed(t[j])
    ensures ')' !in Lines(t)
    decreases |t|
  {
    if t != [] {
      var last := t[|t| - 1];
      LinesNoParen(t[..|t| - 1]);
      assert ')' !in Render(last) by {
        if last.ref != "" {
          assert Render(last) == last.ref + " " + last.path;
        }
      }
      assert Line(last) == "\t" + Render(last) + "\n";
    }
  }

  lemma {:induction false} BodyAllNoParen(tiers: seq<seq<Imp>>)
    requires AllWellFormed(tiers)
    ensures ')' !in BodyAll(tiers)
    decreases |tiers|
  {
    if tiers != [] {
      var init := tiers[..|tiers| - 1];
      var last := tiers[|tiers| - 1];
      assert AllWellFormed(init) by {
        assert forall i :: 0 <= i < |init| ==> init[i] == tiers[i];
      }
      BodyAllNoParen(init);
      assert forall j :: 0 <= j < |last| ==> WellFormed(last[j]) by {
        assert last == tiers[|tiers| - 1];
      }
      LinesNoParen(last);
    }
  }

  /** The block is one whole match of the grouped-import expression: its only `)` is the last character. */
  lemma BlockAllIsBlock(tiers: seq<seq<Imp>>)
    requires AllWellFormed(tiers)
    ensures IsBlock(BlockAll(tiers))
  {
    var b := BlockAll(tiers);
    BodyAllNoParen(tiers);
    assert b[8..|b| - 1] == BodyAll(tiers);
  }

  // ---------------------------------------------------------------------
  // `replaceImports` as written.
  // ---------------------------------------------------------------------

  /** The first pass: every single-line import statement deleted. */
  function NoSingles(src: string): string
  {
    ReplaceAll(SingleImport, src, "")
  }

  /** `Find` of the grouped-import expression: the text of the first match, empty (nil) when there is none. */
  function FirstBlockText(s: string): (t: string)
    ensures Find(GroupedImport, s, 0).None? ==> t == []
    ensures Find(GroupedImport, s, 0).Some? ==>
              t == s[Find(GroupedImport, s, 0).value.start..Find(GroupedImport, s, 0).value.end]
    ensures Find(GroupedImport, s, 0).Some? ==> FirstOccurrence(s, t, Find(GroupedImport, s, 0).value.start)
  {
    match Find(GroupedImport, s, 0)
    case None => []
    case Some(m) =>
      FirstMatchIsFirstText(s, m);
      s[m.start..m.end]
  }

  /** The removal loop: for each text in turn, its first occurrence deleted. */
  function RemoveEach(s: string, texts: seq<string>): string
    decreases |texts|
  {
    if texts == [] then s else RemoveEach(ReplaceFirst(s, texts[0], ""), texts[1..])
  }

  /** The value `replaceImports` computes, pass by pass. */
  function ReplaceImportsAsWritten(src: string, newImports: string): string
  {
    var replaced := ReplaceFirst(NoSingles(src), FirstBlockText(NoSingles(src)), newImports);
    var allMatches := Matches(GroupedImport, replaced);
    Collapse(if |allMatches| > 1 then RemoveEach(replaced, allMatches[1..]) else replaced)
  }

  /** `replaceImports`: the passes in order, the later blocks removed one by one. */
  method ReplaceImports(src: string, newImports: string) returns (output: string)
    ensures output == ReplaceImportsAsWritten(src, newImports)
  {
    output := ReplaceAll(SingleImport, src, "");
    output := ReplaceFirst(output, FirstBlockText(output), newImports);
    var allMatches := Matches(GroupedImport, output);
    if |allMatches| > 1 {
      ghost var replaced := output;
      for i := 0 to |allMatches| - 1
        invariant RemoveEach(output, allMatches[i + 1..]) == RemoveEach(replaced, allMatches[1..])
      {
        assert allMatches[i + 1..][1..] == allMatches[i + 2..];
        output := ReplaceFirst(output, allMatches[i + 1], []);
      }
      assert allMatches[|allMatches|..] == [];
    }
    output := Collapse(output);
  }

  // ---------------------------------------------------------------------
  // `replaceImports` as intended.
  // ---------------------------------------------------------------------

  /** All texts joined in order. */
  function Concat(ts: seq<string>): string
  {
    if ts == [] then "" else ts[0] + Concat(ts[1..])
  }

  /**
   * The placement the passes aim at: the first grouped import becomes the
   * new block and the later ones are deleted, by position; without a
   * grouped import the block goes after the package clause.
   */
  function PlaceBlocks(s: string, packageName: string, block: string): string
  {
    var n := |Matches(GroupedImport, s)|;
    if n == 0 then RootTool.Splice(s, packageName, block)
    else Interleave(Gaps(GroupedImport, s), [block] + Copies("", n - 1))
  }

  function ReplaceImportsCorrected(src: string, packageName: string, newImports: string): string
  {
    Collapse(PlaceBlocks(NoSingles(src), packageName, newImports))
  }

  lemma {:induction false} InterleaveBlanks(gaps: seq<string>)
    requires |gaps| >= 1
    ensures Interleave(gaps, Copies("", |gaps| - 1)) == Concat(gaps)
    decreases |gaps|
  {
    if |gaps| > 1 {
      InterleaveBlanks(gaps[1..]);
      assert Copies("", |gaps| - 1)[1..] == Copies("", |gaps| - 2);
    }
  }

  /**
   * The corrected placement keeps the text outside the grouped imports,
   * in order: the text before the first one, the new block, then the
   * rest with every later grouped import gone. Without a grouped import
   * the block follows the first package clause after a blank line.
   */
  lemma PlaceBlocksLayout(s: string, packageName: string, block: string)
    ensures Matches(GroupedImport, s) != [] ==>
              s == Gaps(GroupedImport, s)[0] + Matches(GroupedImport, s)[0] +
                   Interleave(Gaps(GroupedImport, s)[1..], Matches(GroupedImport, s)[1..])
    ensures Matches(GroupedImport, s) != [] ==>
              PlaceBlocks(s, packageName, block) ==
                Gaps(GroupedImport, s)[0] + block + Concat(Gaps(GroupedImport, s)[1..])
    ensures Matches(GroupedImport, s) == [] ==> PlaceBlocks(s, packageName, block) == RootTool.Splice(s, packageName, block)
  {
    var ms := Matches(GroupedImport, s);
    var gs := Gaps(GroupedImport, s);
    Reassemble(GroupedImport, s);
    if ms != [] {
      var fills := [block] + Copies("", |ms| - 1);
      assert fills[1..] == Copies("", |gs[1..]| - 1);
      InterleaveBlanks(gs[1..]);
    }
  }

  /** The first match found is the first occurrence of its text, and the text `Find` returns. */
  lemma FirstBlockTextAt(s: string, k: nat, e: nat, b: string)
    requires Find(GroupedImport, s, 0) == Some(Span(k, e)) && k <= e <= |s| && s[k..e] == b
    ensures FirstBlockText(s) == b && FirstOccurrence(s, b, k)
  {
  }

  /** Replacing the text of the first grouped import `b`, found after a gap `p`. */
  lemma ReplaceFirstBlock(s: string, p: string, b: string, rest: string, block: string)
    requires s == p + b + rest && IsBlock(b) && !Contains(p, "import (")
    ensures ReplaceFirst(s, FirstBlockText(s), block) == p + block + rest
  {
    var e := |p| + |b|;
    FirstBlock(s, p, b, rest, e);
    assert s[..|p|] == p && s[|p|..e] == b;
    FirstBlockTextAt(s, |p|, e, b);
  }

  /** The passes as written, once the first grouped import has been replaced by `r`. */
  lemma AsWrittenAfterFirst(src: string, block: string, r: string)
    requires ReplaceFirst(NoSingles(src), FirstBlockText(NoSingles(src)), block) == r
    ensures |Matches(GroupedImport, r)| <= 1 ==> ReplaceImportsAsWritten(src, block) == Collapse(r)
    ensures |Matches(GroupedImport, r)| == 2 ==>
              ReplaceImportsAsWritten(src, block) == Collapse(ReplaceFirst(r, Matches(GroupedImport, r)[1], ""))
  {
    var ms := Matches(GroupedImport, r);
    if |ms| == 2 {
      assert ms[1..] == [ms[1]] && ms[1..][1..] == [];
      assert RemoveEach(r, ms[1..]) == RemoveEach(ReplaceFirst(r, ms[1], ""), []);
    }
  }

  /** The corrected passes when the text holds grouped imports. */
  lemma CorrectedWithBlocks(src: string, packageName: string, block: string)
    requires Matches(GroupedImport, NoSingles(src)) != []
    ensures ReplaceImportsCorrected(src, packageName, block) ==
              Collapse(Gaps(GroupedImport, NoSingles(src))[0] + block + Concat(Gaps(GroupedImport, NoSingles(src))[1..]))
  {
    PlaceBlocksLayout(NoSingles(src), packageName, block);
  }

  /** With a single grouped import the passes do what they are meant to do. */
  lemma OneBlockAgrees(src: string, packageName: string, p: string, b: string, x: string, block: string)
    requires IsBlock(b) && IsBlock(block)
    requires !Contains(p, "import (") && !Contains(x, "import (")
    requires NoSingles(src) == p + b + x
    ensures ReplaceImportsAsWritten(src, block) == Collapse(p + block + x)
    ensures ReplaceImportsCorrected(src, packageName, block) == Collapse(p + block + x)
  {
    OneBlockAsWritten(src, p, b, x, block);
    OneBlockCorrected(src, packageName, p, b, x, block);
  }

  lemma OneBlockCorrected(src: string, packageName: string, p: string, b: string, x: string, block: string)
    requires IsBlock(b)
    requires !Contains(p, "import (") && !Contains(x, "import (")
    requires NoSingles(src) == p + b + x
    ensures ReplaceImportsCorrected(src, packageName, block) == Collapse(p + block + x)
  {
    GapsOfOne(src, p, b, x);
    ConcatTail(x);
    assert [p, x][1..] == [x];
    CorrectedAround(src, packageName, block, [p, x], x);
  }

  lemma GapsOfOne(src: string, p: string, b: string, x: string)
    requires IsBlock(b)
    requires !Contains(p, "import (") && !Contains(x, "import (")
    requires NoSingles(src) == p + b + x
    ensures Gaps(GroupedImport, NoSingles(src)) == [p, x]
  {
    OneBlock(NoSingles(src), p, b, x);
  }

  lemma OneBlockAsWritten(src: string, p: string, b: string, x: string, block: string)
    requires IsBlock(b) && IsBlock(block)
    requires !Contains(p, "import (") && !Contains(x, "import (")
    requires NoSingles(src) == p + b + x
    ensures ReplaceImportsAsWritten(src, block) == Collapse(p + block + x)
  {
    var r := p + block + x;
    ReplaceFirstBlock(NoSingles(src), p, b, x, block);
    OneBlock(r, p, block, x);
    AsWrittenAfterFirst(src, block, r);
  }

  /** The corrected passes for given gaps: the first gap, the block, then the other gaps joined. */
  lemma CorrectedAround(src: string, packageName: string, block: string, gaps: seq<string>, rest: string)
    requires Gaps(GroupedImport, NoSingles(src)) == gaps && |gaps| >= 2 && Concat(gaps[1..]) == rest
    ensures ReplaceImportsCorrected(src, packageName, block) == Collapse(gaps[0] + block + rest)
  {
    CorrectedWithBlocks(src, packageName, block);
  }

  lemma ConcatTail(x: string)
    ensures Concat([x]) == x && Concat([x, ""]) == x
  {
    assert [x][1..] == [] && [x, ""][1..] == [""] && [""][1..] == [];
  }

  /** No piece of a joined text holds what the whole text lacks. */
  lemma {:induction false} ConcatPartsLack(gs: seq<string>, pat: string)
    requires !Contains(Concat(gs), pat)
    ensures forall j :: 0 <= j < |gs| ==> !Contains(gs[j], pat)
    decreases |gs|
  {
    if gs != [] {
      var rest := Concat(gs[1..]);
      assert Concat(gs) == [] + gs[0] + rest == gs[0] + rest + [];
      NoContainsPart([], gs[0], rest, pat);
      NoContainsPart(gs[0], rest, [], pat);
      ConcatPartsLack(gs[1..], pat);
      assert forall j :: 1 <= j < |gs| ==> gs[j] == gs[1..][j - 1];
    }
  }

  /** Deleting the first occurrence of a later block `c`'s text deletes `c` where it stands. */
  lemma RemoveOneLater(t: string, a: string, block: string, w: string, c: string, y: string)
    requires t == a + block + w + c + y && IsBlock(block) && IsBlock(c) && c != block
    requires !Contains(a, "import (") && !Contains(block[1..] + w, "import (")
    ensures ReplaceFirst(t, c, "") == a + block + w + y
  {
    LaterBlockFirst(t, a, block, w, c, y);
    var k := |a| + |block| + |w|;
    RemoveAt(t, c, k, k + |c|);
    assert t[..k] == a + block + w;
    assert t[k + |c|..] == y;
  }

  /** The text before the next later block still lacks `import (`. */
  lemma NextGapLacks(head: string, w: string, gs: seq<string>)
    requires gs != [] && !Contains(head + w + Concat(gs), "import (")
    ensures !Contains(head + (w + gs[0]), "import (")
    ensures head + (w + gs[0]) + Concat(gs[1..]) == head + w + Concat(gs)
  {
    JoinGap(head, w, gs[0], Concat(gs[1..]));
    NoContainsPrefix(head + (w + gs[0]), Concat(gs[1..]), "import (");
  }

  lemma JoinGap(h: string, w: string, g: string, rest: string)
    ensures h + (w + g) + rest == h + w + (g + rest)
  {
    AppendAssoc(h, w, g);
    AppendAssoc(h + w, g, rest);
  }

  lemma ShiftGap(h: string, w: string, g: string, c: string, y: string)
    ensures h + w + (g + c + y) == h + (w + g) + c + y
  {
    AppendAssoc(h + w, g + c, y);
    AppendAssoc(h + w, g, c);
    AppendAssoc(h, w, g);
  }

  /**
   * The removal loop over later grouped imports `ms`, each of a text other
   * than the new block's, deletes each where it stands: what is left is
   * the text around them, in order.
   */
  lemma {:induction false} RemoveLater(a: string, block: string, w: string, gs: seq<string>, ms: seq<string>)
    requires |gs| == |ms| + 1 && IsBlock(block) && !Contains(a, "import (")
    requires forall j :: 0 <= j < |ms| ==> IsBlock(ms[j]) && ms[j] != block
    requires !Contains(block[1..] + w + Concat(gs), "import (")
    ensures RemoveEach(a + block + w + Interleave(gs, ms), ms) == a + block + w + Concat(gs)
    decreases |ms|
  {
    var t := a + block + w + Interleave(gs, ms);
    if ms == [] {
      assert Concat(gs) == gs[0] + Concat([]);
    } else {
      var w' := w + gs[0];
      var y := Interleave(gs[1..], ms[1..]);
      NextGapLacks(block[1..], w, gs);
      ShiftGap(a + block, w, gs[0], ms[0], y);
      RemoveOneLater(t, a, block, w', ms[0], y);
      assert forall j :: 0 <= j < |ms| - 1 ==> ms[1..][j] == ms[j + 1];
      RemoveLater(a, block, w', gs[1..], ms[1..]);
      JoinGap(a + block, w, gs[0], Concat(gs[1..]));
    }
  }

  /**
   * Any number of grouped imports: when none of the later ones has the new
   * block's text, and no `import (` stands outside them (nor inside the new
   * block after its head), the passes as written keep the text before the
   * first grouped import, put the new block in its place and delete every
   * later one where it stood; this is exactly the intended placement. The
   * one way to part from it with grouped imports present is a later block
   * with the new block's text (lemma SameTextRemovesNewBlock).
   */
  lemma ManyBlocksAgree(src: string, packageName: string, p: string, b: string,
                        gs: seq<string>, ms: seq<string>, block: string)
    requires IsBlock(b) && IsBlock(block) && |gs| == |ms| + 1
    requires forall j :: 0 <= j < |ms| ==> IsBlock(ms[j]) && ms[j] != block
    requires !Contains(p, "import (") && !Contains(Concat(gs), "import (")
    requires !Contains(block[1..], "import (")
    requires NoSingles(src) == p + b + Interleave(gs, ms)
    ensures Matches(GroupedImport, NoSingles(src)) == [b] + ms
    ensures ReplaceImportsAsWritten(src, block) == Collapse(p + block + Concat(gs))
    ensures ReplaceImportsCorrected(src, packageName, block) == Collapse(p + block + Concat(gs))
  {
    ConcatPartsLack(gs, "import (");
    ManyBlocksCorrected(src, packageName, p, b, gs, ms, block);
    ManyBlocksAsWritten(src, p, b, gs, ms, block);
  }

  lemma ManyBlocksCorrected(src: string, packageName: string, p: string, b: string,
                            gs: seq<string>, ms: seq<string>, block: string)
    requires IsBlock(b) && |gs| == |ms| + 1
    requires forall j :: 0 <= j < |ms| ==> IsBlock(ms[j])
    requires !Contains(p, "import (") && forall j :: 0 <= j < |gs| ==> !Contains(gs[j], "import (")
    requires NoSingles(src) == p + b + Interleave(gs, ms)
    ensures Matches(GroupedImport, NoSingles(src)) == [b] + ms
    ensures ReplaceImportsCorrected(src, packageName, block) == Collapse(p + block + Concat(gs))
  {
    LaterMatches(NoSingles(src), p, b, gs, ms);
    assert ([p] + gs)[1..] == gs;
    CorrectedAround(src, packageName, block, [p] + gs, Concat(gs));
  }

  lemma ManyBlocksAsWritten(src: string, p: string, b: string, gs: seq<string>, ms: seq<string>, block: string)
    requires IsBlock(b) && IsBlock(block) && |gs| == |ms| + 1
    requires forall j :: 0 <= j < |ms| ==> IsBlock(ms[j]) && ms[j] != block
    requires !Contains(p, "import (") && !Contains(Concat(gs), "import (")
    requires forall j :: 0 <= j < |gs| ==> !Contains(gs[j], "import (")
    requires !Contains(block[1..], "import (")
    requires NoSingles(src) == p + b + Interleave(gs, ms)
    ensures ReplaceImportsAsWritten(src, block) == Collapse(p + block + Concat(gs))
  {
    var x := Interleave(gs, ms);
    var r := p + block + x;
    ReplaceFirstBlock(NoSingles(src), p, b, x, block);
    LaterMatches(r, p, block, gs, ms);
    AsWrittenMany(src, block, r, ms);
    NewBlockThenGaps(block, gs);
    EmptyGap(p + block);
    RemoveLater(p, block, [], gs, ms);
  }

  lemma EmptyGap(h: string)
    ensures h + [] == h
  {
  }

  /** The new block's body joined to the gaps holds no `import (`: the block ends in `)`. */
  lemma NewBlockThenGaps(block: string, gs: seq<string>)
    requires IsBlock(block) && !Contains(block[1..], "import (") && !Contains(Concat(gs), "import (")
    ensures !Contains(block[1..] + [] + Concat(gs), "import (")
  {
    assert block[1..][|block[1..]| - 1] == ')';
    NoContainsJoin(block[1..], Concat(gs), "import (");
    assert block[1..] + [] + Concat(gs) == block[1..] + Concat(gs);
  }

  /** A first block `b` after a gap `p`, then the gaps `gs` around the blocks `ms`. */
  lemma LaterMatches(s: string, p: string, b: string, gs: seq<string>, ms: seq<string>)
    requires IsBlock(b) && |gs| == |ms| + 1 && !Contains(p, "import (")
    requires forall j :: 0 <= j < |ms| ==> IsBlock(ms[j])
    requires forall j :: 0 <= j < |gs| ==> !Contains(gs[j], "import (")
    requires s == p + b + Interleave(gs, ms)
    ensures Matches(GroupedImport, s) == [b] + ms
    ensures Gaps(GroupedImport, s) == [p] + gs
  {
    var e := |p| + |b|;
    FirstBlock(s, p, b, Interleave(gs, ms), e);
    ManyBlocks(s, e, gs, ms);
  }

  /** The passes as written, once the first grouped import has become `r` with later matches `ms`. */
  lemma AsWrittenMany(src: string, block: string, r: string, ms: seq<string>)
    requires ReplaceFirst(NoSingles(src), FirstBlockText(NoSingles(src)), block) == r
    requires Matches(GroupedImport, r) == [block] + ms
    ensures ReplaceImportsAsWritten(src, block) == Collapse(RemoveEach(r, ms))
  {
    assert ([block] + ms)[1..] == ms;
    if ms == [] {
      assert RemoveEach(r, ms) == r;
    }
  }

  // ---------------------------------------------------------------------
  // Where the passes as written miss.
  // ---------------------------------------------------------------------

  /** The as-written half of the first finding: the block lands in front of everything. */
  lemma NoBlockAsWritten(src: string, block: string)
    requires IsBlock(block)
    requires !Contains(NoSingles(src), "import (")
    ensures ReplaceImportsAsWritten(src, block) == Collapse(block + NoSingles(src))
    ensures HasPrefix(ReplaceImportsAsWritten(src, block), "import (")
  {
    var r := block + NoSingles(src);
    NoBlockReplaced(NoSingles(src), block);
    AsWrittenAfterFirst(src, block, r);
    assert r[..8] == block[..8];
    CollapseKeepsPrefix(r, 8);
  }

  /** Without a grouped import, the first replacement puts the block in front, and it is then the only one. */
  lemma NoBlockReplaced(s: string, block: string)
    requires IsBlock(block)
    requires !Contains(s, "import (")
    ensures ReplaceFirst(s, FirstBlockText(s), block) == block + s
    ensures Matches(GroupedImport, block + s) == [block]
  {
    assert s[0..] == s;
    NoBlockFrom(s, 0);
    ReplaceEmpty(s, block);
    OnlyBlockInFront(s, block);
  }

  lemma OnlyBlockInFront(s: string, block: string)
    requires IsBlock(block)
    requires !Contains(s, "import (")
    ensures Matches(GroupedImport, block + s) == [block]
  {
    assert !Contains([], "import (");
    assert block + s == [] + block + s;
    OneBlock(block + s, [], block, s);
  }

  /** The corrected half of the first finding: the package clause stays first. */
  lemma NoBlockCorrected(src: string, packageName: string, block: string)
    requires '\n' !in packageName
    requires !Contains(NoSingles(src), "import (")
    requires HasPrefix(NoSingles(src), RootTool.Header(packageName))
    ensures HasPrefix(ReplaceImportsCorrected(src, packageName, block), RootTool.Header(packageName))
  {
    var s := NoSingles(src);
    assert s[0..] == s;
    NoBlockFrom(s, 0);
    var h := RootTool.Header(packageName);
    PlaceBlocksLayout(s, packageName, block);
    RootTool.SpliceAfterHeader(s, packageName, block, 0);
    var t := s[..|h|] + "\n\n" + block + s[|h|..];
    assert t[..|h|] == h;
    CollapseKeepsPrefix(t, |h|);
  }

  /**
   * Without a grouped import `Find` returns nil, and `bytes.Replace` with
   * an empty pattern puts the new block in front of the whole text, ahead
   * of the package clause. The intended placement keeps the package
   * clause first.
   */
  lemma BlockBeforePackageClause(src: string, packageName: string, block: string)
    requires IsBlock(block) && '\n' !in packageName
    requires !Contains(NoSingles(src), "import (")
    requires HasPrefix(NoSingles(src), RootTool.Header(packageName))
    ensures ReplaceImportsAsWritten(src, block) == Collapse(block + NoSingles(src))
    ensures HasPrefix(ReplaceImportsAsWritten(src, block), "import (")
    ensures HasPrefix(ReplaceImportsCorrected(src, packageName, block), RootTool.Header(packageName))
    ensures ReplaceImportsAsWritten(src, block) != ReplaceImportsCorrected(src, packageName, block)
  {
    NoBlockAsWritten(src, block);
    NoBlockCorrected(src, packageName, block);
    var written := ReplaceImportsAsWritten(src, block);
    var intended := ReplaceImportsCorrected(src, packageName, block);
    assert written[0] == written[..8][0] == 'i';
    assert intended[0] == intended[..|RootTool.Header(packageName)|][0] == 'p';
  }

  /** The as-written half of the second finding: the new block is the text removed. */
  lemma SameTextAsWritten(src: string, p: string, b: string, x: string, block: string)
    requires IsBlock(b) && IsBlock(block)
    requires !Contains(p, "import (") && !Contains(x, "import (")
    requires NoSingles(src) == p + b + (x + block)
    ensures ReplaceImportsAsWritten(src, block) == Collapse(p + (x + block))
  {
    var s := NoSingles(src);
    var r := p + block + (x + block);
    ReplaceFirstBlock(s, p, b, x + block, block);
    TwoBlocks(r, p, block, x, block);
    AsWrittenAfterFirst(src, block, r);
    RemoveNewBlock(r, p, x + block, block);
  }

  /** Deleting the first occurrence of the new block's text from `p + block + rest`. */
  lemma RemoveNewBlock(r: string, p: string, rest: string, block: string)
    requires r == p + block + rest && IsBlock(block) && !Contains(p, "import (")
    ensures ReplaceFirst(r, block, "") == p + rest
  {
    var k, f := |p|, |p| + |block|;
    SplitThree(r, p, block, rest, k, f);
    assert r[0..k] == p;
    BlockFirstOccurrence(r, k, block);
    RemoveAt(r, block, k, f);
  }

  lemma SameTextCorrected(src: string, packageName: string, p: string, b: string, x: string, block: string)
    requires IsBlock(b) && IsBlock(block)
    requires !Contains(p, "import (") && !Contains(x, "import (")
    requires NoSingles(src) == p + b + (x + block)
    ensures ReplaceImportsCorrected(src, packageName, block) == Collapse(p + block + x)
  {
    GapsOfTwo(src, p, b, x, block);
    ConcatTail(x);
    assert [p, x, ""][1..] == [x, ""];
    CorrectedAround(src, packageName, block, [p, x, ""], x);
  }

  lemma GapsOfTwo(src: string, p: string, b: string, x: string, c: string)
    requires IsBlock(b) && IsBlock(c)
    requires !Contains(p, "import (") && !Contains(x, "import (")
    requires NoSingles(src) == p + b + (x + c)
    ensures Gaps(GroupedImport, NoSingles(src)) == [p, x, ""]
  {
    TwoBlocks(NoSingles(src), p, b, x, c);
  }

  /** Line breaks aside, `p + (x + block)` and `p + block + x` differ when `x` holds a character other than `i` first. */
  lemma SwappedDiffer(p: string, x: string, block: string)
    requires IsBlock(block) && Strip(x) != [] && Strip(x)[0] != 'i'
    ensures Collapse(p + (x + block)) != Collapse(p + block + x)
  {
    var a := p + (x + block);
    var c := p + block + x;
    StripAppend(p, x + block);
    StripAppend(x, block);
    StripAppend(p + block, x);
    StripAppend(p, block);
    assert Strip(block)[0] == 'i' by {
      assert block[0] == block[..8][0];
    }
    CollapseKeepsOthers(a);
    CollapseKeepsOthers(c);
    var n := |Strip(p)|;
    assert Strip(a)[n] == Strip(x)[0];
    assert Strip(c)[n] == 'i';
  }

  /**
   * The later grouped imports are removed by their text, not by their
   * place: when one of them has the same text as the new block, the first
   * occurrence of that text is the new block itself, which is removed,
   * while the later copy stays behind the text `x` that should follow it.
   */
  lemma SameTextRemovesNewBlock(src: string, packageName: string, p: string, b: string, x: string, block: string)
    requires IsBlock(b) && IsBlock(block)
    requires !Contains(p, "import (") && !Contains(x, "import (")
    requires NoSingles(src) == p + b + (x + block)
    ensures ReplaceImportsAsWritten(src, block) == Collapse(p + (x + block))
    ensures ReplaceImportsCorrected(src, packageName, block) == Collapse(p + block + x)
    ensures Strip(x) != [] && Strip(x)[0] != 'i' ==>
              ReplaceImportsAsWritten(src, block) != ReplaceImportsCorrected(src, packageName, block)
  {
    SameTextAsWritten(src, p, b, x, block);
    SameTextCorrected(src, packageName, p, b, x, block);
    if Strip(x) != [] && Strip(x)[0] != 'i' {
      SwappedDiffer(p, x, block);
    }
  }

  // ---------------------------------------------------------------------
  // `process`.
  // ---------------------------------------------------------------------

  /** The file as the parser hands it over: its package name and its top-level declarations. */
  datatype ParsedSource = ParsedSource(packageName: string, decls: seq<Decl>)

  /** The block `process` writes for the given declarations. */
  function NewBlock(prefix: string, decls: seq<Decl>): string
  {
    BlockAll(SortAll(Classify(Rule(prefix), Imps(ImportSpecs(decls)))))
  }

  /**
   * The new block is one grouped import listing every import of the file,
   * none lost and none added, with a line break per import and one per
   * tier.
   */
  lemma NewBlockKeepsImports(prefix: string, decls: seq<Decl>)
    requires forall k :: 0 <= k < |ImportSpecs(decls)| ==> WellFormed(FromSpec(ImportSpecs(decls)[k]))
    ensures IsBlock(NewBlock(prefix, decls))
    ensures ParseBlock(NewBlock(prefix, decls)).Some?
    ensures multiset(ParseBlock(NewBlock(prefix, decls)).value) == multiset(Imps(ImportSpecs(decls)))
    ensures multiset(NewBlock(prefix, decls))['\n'] == 3 + |ImportSpecs(decls)|
  {
    var specs := Imps(ImportSpecs(decls));
    var tiers := Classify(Rule(prefix), specs);
    var sorted := SortAll(tiers);
    assert AllWellFormed(sorted) by {
      forall i, j | 0 <= i < |sorted| && 0 <= j < |sorted[i]|
        ensures WellFormed(sorted[i][j])
      {
        var m := sorted[i][j];
        assert m in multiset(tiers[i]);
        ClassifyMembers(Rule(prefix), specs, i, m);
      }
    }
    BlockAllIsBlock(sorted);
    BlockAllRoundTrip(sorted);
    BlockAllNewlines(sorted);
    SortAllKeepsEntries(tiers);
    ClassifyConserves(Rule(prefix), specs);
  }

  /**
   * `process`: parses the file (given), classifies, sorts and renders the
   * imports, and puts the block into the source text. The placement is
   * the intended one; `ReplaceImports` is the placement as written.
   */
  method Process(src: string, prefix: string, parsed: Result<ParsedSource>) returns (output: Result<string>)
    ensures parsed.Failure? ==> output == Failure(parsed.error)
    ensures parsed.Success? ==>
              output == Success(ReplaceImportsCorrected(src, parsed.value.packageName,
                                                        NewBlock(prefix, parsed.value.decls)))
  {
    if parsed.Failure? {
      return Failure(parsed.error);
    }
    var convertedImports := ConvertImportsToSlice(prefix, parsed.value.decls);
    var sortedImports := SortImports(convertedImports);
    var convertedToGo := ConvertImportsToGo(sortedImports);
    output := Success(ReplaceImportsCorrected(src, parsed.value.packageName, convertedToGo));
  }
}
