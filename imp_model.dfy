/**
 * One import spec of a Go file (`ImpModel` in src/imp_model.go, `impModel`
 * in goimportssort.go): the quoted path literal exactly as written and the
 * local name it is imported under, "" when it has none.
 */
module ImpModel {
  import opened Text

  datatype Imp = Imp(path: string, ref: string)

  /**
   * `String()` / `string()`: the text of the import inside a grouped
   * import, `path` alone or `ref path`.
   */
  function Render(m: Imp): (r: string)
    ensures |r| == if m.ref == "" then |m.path| else |m.ref| + 1 + |m.path|
    ensures r[|r| - |m.path|..] == m.path
    ensures m.ref == "" ==> r == m.path
    ensures m.ref != "" ==> r[..|m.ref|] == m.ref && r[|m.ref|] == ' '
  {
    if m.ref == "" then m.path else m.ref + " " + m.path
  }

  /**
   * Text that can sit inside one rendered import line: no space (Go import
   * paths and identifiers have none), no line break and no closing
   * parenthesis (both are excluded from Go import paths).
   */
  predicate Plain(s: string)
  {
    ' ' !in s && '\n' !in s && ')' !in s
  }

  predicate WellFormed(m: Imp)
  {
    Plain(m.path) && Plain(m.ref)
  }

  /** Reads an import back from its rendered text: a leading name and a space make an alias. */
  function ParseEntry(e: string): Imp
  {
    var k := FirstIndexOf(e, ' ');
    if k == |e| then Imp(e, "") else Imp(e[k + 1..], e[..k])
  }

  /** Rendering loses nothing: the path and the alias are read back from the text. */
  lemma RenderRoundTrip(m: Imp)
    requires WellFormed(m)
    ensures ParseEntry(Render(m)) == m
  {
    var r := Render(m);
    if m.ref == "" {
      FirstIndexAfter(m.path, [], ' ');
      assert m.path + [] == r;
    } else {
      FirstIndexAfter(m.ref, " " + m.path, ' ');
      assert m.ref + (" " + m.path) == r;
      assert r[|m.ref| + 1..] == m.path;
    }
  }
}
