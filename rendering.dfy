/**
 * The lines both `convertImportsToGo` functions write for one tier
 * (goimportssort.go:271-273, src/go_imports_sorting.go:215-217), and a
 * reader that takes a rendered grouped import apart again. The reader is
 * not part of the tools; it states what the rendered text holds.
 */
module Rendering {
  import opened Wrappers
  import opened Text
  import opened ImpModel
  import opened Tiers

  /** `fmt.Sprintf("\t%v\n", imp.String())`. */
  function Line(m: Imp): string
  {
    "\t" + Render(m) + "\n"
  }

  /** The lines of one tier, in order. */
  function Lines(t: seq<Imp>): (r: string)
    ensures t != [] ==> r != [] && r[|r| - 1] == '\n'
  {
    if t == [] then "" else Lines(t[..|t| - 1]) + Line(t[|t| - 1])
  }

  /** The lines of a tier's first `j + 1` entries: those of the first `j`, then entry `j`'s. */
  lemma LinesStep(t: seq<Imp>, j: nat)
    requires j < |t|
    ensures Lines(t[..j + 1]) == Lines(t[..j]) + Line(t[j])
  {
    assert t[..j + 1][..j] == t[..j];
  }

  /**
   * The inner loop of both `convertImportsToGo` functions: a line break,
   * then one line per import of the tier, appended to the output so far.
   */
  method WriteGroup(output: string, t: seq<Imp>) returns (r: string)
    ensures r == output + Group(t)
  {
    r := output + "\n";
    for j := 0 to |t|
      invariant r == output + "\n" + Lines(t[..j])
    {
      LinesStep(t, j);
      AppendAssoc(output + "\n", Lines(t[..j]), Line(t[j]));
      r := r + Line(t[j]);
    }
    assert t[..|t|] == t;
    AppendAssoc(output, "\n", Lines(t));
  }

  /** Every import of every tier can be rendered on one line and read back. */
  predicate AllWellFormed(tiers: seq<seq<Imp>>)
  {
    forall i, j :: 0 <= i < |tiers| && 0 <= j < |tiers[i]| ==> WellFormed(tiers[i][j])
  }

  /** Reads one non-blank line: a leading tab is indentation. */
  function ParseLine(line: string): Imp
  {
    ParseEntry(if line != [] && line[0] == '\t' then line[1..] else line)
  }

  /** The entry on the first line of `s`, none when that line is blank. */
  function FirstLineEntries(s: string): seq<Imp>
  {
    var k := FirstIndexOf(s, '\n');
    if k == 0 then [] else [ParseLine(s[..k])]
  }

  /** What follows the first line break of `s`. */
  function AfterFirstLine(s: string): (r: string)
    requires s != []
    ensures |r| < |s|
  {
    var k := FirstIndexOf(s, '\n');
    if k < |s| then s[k + 1..] else []
  }

  /** Reads a text line by line, skipping blank lines. */
  function ParseLines(s: string): seq<Imp>
    decreases |s|
  {
    if s == [] then [] else FirstLineEntries(s) + ParseLines(AfterFirstLine(s))
  }

  lemma FirstLineOfAppend(a: string, b: string)
    requires '\n' in a
    ensures FirstLineEntries(a + b) == FirstLineEntries(a)
    ensures AfterFirstLine(a + b) == AfterFirstLine(a) + b
  {
    FirstIndexWithin(a, b, '\n');
    var k := FirstIndexOf(a, '\n');
    assert (a + b)[..k] == a[..k];
    assert (a + b)[k + 1..] == a[k + 1..] + b;
  }

  /** Reads a grouped import `import ( ... )` back into its entries. */
  function ParseBlock(text: string): Option<seq<Imp>>
  {
    if |text| >= 9 && text[..8] == "import (" && text[|text| - 1] == ')'
    then Some(ParseLines(text[8..|text| - 1]))
    else None
  }

  /** What follows the first line of a text made of whole lines is made of whole lines. */
  lemma AfterFirstLineWhole(a: string)
    requires a != [] && a[|a| - 1] == '\n'
    ensures var rest := AfterFirstLine(a); rest == [] || rest[|rest| - 1] == '\n'
  {
  }

  /** Reading whole lines one after the other: a text ending in a line break can be read on its own. */
  lemma {:induction false} ParseLinesAppend(a: string, b: string)
    requires a == [] || a[|a| - 1] == '\n'
    ensures ParseLines(a + b) == ParseLines(a) + ParseLines(b)
    decreases |a|
  {
    if a == [] {
      assert a + b == b;
    } else {
      assert a[|a| - 1] in a;
      FirstLineOfAppend(a, b);
      AfterFirstLineWhole(a);
      var rest := AfterFirstLine(a);
      ParseLinesAppend(rest, b);
      AppendAssoc(FirstLineEntries(a), ParseLines(rest), ParseLines(b));
    }
  }

  /** A well-formed import renders without a line break. */
  lemma RenderOneLine(m: Imp)
    requires WellFormed(m)
    ensures '\n' !in Render(m)
  {
    var r := Render(m);
    assert forall j :: 0 <= j < |r| ==> r[j] in m.ref || r[j] == ' ' || r[j] in m.path;
  }

  lemma LineRoundTrip(m: Imp)
    requires WellFormed(m)
    ensures ParseLines(Line(m)) == [m]
  {
    var r := Render(m);
    var l := Line(m);
    RenderOneLine(m);
    assert '\n' !in "\t" + r;
    FirstIndexAfter("\t" + r, "\n", '\n');
    assert l == ("\t" + r) + "\n";
    assert l[..|r| + 1] == "\t" + r;
    assert l[|r| + 2..] == [];
    RenderRoundTrip(m);
  }

  /** The lines of a tier are read back as that tier. */
  lemma {:induction false} LinesRoundTrip(t: seq<Imp>)
    requires forall j :: 0 <= j < |t| ==> WellFormed(t[j])
    ensures ParseLines(Lines(t)) == t
    decreases |t|
  {
    if t != [] {
      var init := t[..|t| - 1];
      var last := t[|t| - 1];
      assert t == init + [last];
      assert forall j :: 0 <= j < |init| ==> WellFormed(init[j]) by {
        assert forall j :: 0 <= j < |init| ==> init[j] == t[j];
      }
      LinesRoundTrip(init);
      ParseLinesAppend(Lines(init), Line(last));
      LineRoundTrip(last);
    }
  }

  /** Blank lines are skipped. */
  lemma NewlineFirst(b: string)
    ensures ParseLines("\n" + b) == ParseLines(b)
  {
    ParseLinesAppend("\n", b);
    assert ParseLines("\n") == [] by {
      assert "\n"[1..] == [];
    }
  }

  /** A tier written as a group: a line break, then one line per import. */
  function Group(t: seq<Imp>): (r: string)
    ensures r != [] && r[0] == '\n' && r[|r| - 1] == '\n'
  {
    "\n" + Lines(t)
  }

  /** A group is read back as its tier. */
  lemma GroupRoundTrip(t: seq<Imp>)
    requires forall j :: 0 <= j < |t| ==> WellFormed(t[j])
    ensures ParseLines(Group(t)) == t
  {
    NewlineFirst(Lines(t));
    LinesRoundTrip(t);
  }

  /** Each line of a tier holds exactly one line break. */
  lemma {:induction false} LinesNewlines(t: seq<Imp>)
    requires forall j :: 0 <= j < |t| ==> WellFormed(t[j])
    ensures multiset(Lines(t))['\n'] == |t|
    decreases |t|
  {
    if t != [] {
      var init := t[..|t| - 1];
      var last := t[|t| - 1];
      LinesNewlines(init);
      LineNewlines(last);
      assert multiset(Lines(t)) == multiset(Lines(init)) + multiset(Line(last));
    }
  }

  lemma LineNewlines(m: Imp)
    requires WellFormed(m)
    ensures multiset(Line(m))['\n'] == 1
  {
    RenderOneLine(m);
    assert multiset(Render(m))['\n'] == 0;
    assert multiset(Line(m)) == multiset("\t") + multiset(Render(m)) + multiset("\n");
  }

  /** Bracketing a body as `import (` … `)` adds no line break. */
  lemma BracketNewlines(body: string)
    ensures multiset("import (" + body + ")")['\n'] == multiset(body)['\n']
  {
    var open := "import (";
    assert '\n' !in open && '\n' !in ")";
    assert multiset(open + body + ")") == multiset(open) + multiset(body) + multiset(")");
  }
}
