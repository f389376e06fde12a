/**
 * The three regular expressions the older tool's `replaceImports` runs over
 * the source text (src/go_imports_sorting.go:174, 177 and 189), written
 * out as scanners, together with Go's leftmost-first, non-overlapping
 * `Find`, `FindAll` and `ReplaceAll` over them.
 *
 *  - `(?U)import ".*"`: the text `import "`, then the shortest run of
 *    characters other than a line break up to the next `"`;
 *  - `(?sU)import \(.*\)`: the text `import (`, then the shortest run of
 *    any characters up to the next `)`;
 *  - `\n{2,}`: two or more line breaks, as many as follow each other.
 */
module Patterns {
  import opened Wrappers
  import opened Text

  datatype Pattern = SingleImport | GroupedImport | NewlineRun

  /** The matched text is `s[start..end]`. */
  datatype Span = Span(start: nat, end: nat)

  /** The first index at or after `j` holding one of `stops`, or `|s|`. */
  function ScanTo(s: string, j: nat, stops: set<char>): (k: nat)
    requires j <= |s|
    ensures j <= k <= |s|
    ensures forall m :: j <= m < k ==> s[m] !in stops
    ensures k < |s| ==> s[k] in stops
    decreases |s| - j
  {
    if j == |s| || s[j] in stops then j else ScanTo(s, j + 1, stops)
  }

  /** The end of the run of line breaks that starts at `j`. */
  function RunEnd(s: string, j: nat): (k: nat)
    requires j <= |s|
    ensures j <= k <= |s|
    ensures forall m :: j <= m < k ==> s[m] == '\n'
    ensures k < |s| ==> s[k] != '\n'
    decreases |s| - j
  {
    if j == |s| || s[j] != '\n' then j else RunEnd(s, j + 1)
  }

  /**
   * The end of the match of `p` that starts at `i`, if there is one. Each
   * expression is lazy (or, for the line breaks, has a single possible
   * end), so the match at a given start is the one described above.
   */
  function MatchAt(p: Pattern, s: string, i: nat): (r: Option<nat>)
    requires i <= |s|
    ensures r.Some? ==> i + 2 <= r.value <= |s|
    ensures p == SingleImport ==>
              (r.Some? <==> OccursAt(s, "import \"", i) && ScanTo(s, i + 8, {'"', '\n'}) < |s| &&
                            s[ScanTo(s, i + 8, {'"', '\n'})] == '"')
    ensures p == SingleImport && r.Some? ==>
              s[r.value - 1] == '"' && forall m :: i + 8 <= m < r.value - 1 ==> s[m] != '"' && s[m] != '\n'
    ensures p == GroupedImport ==> (r.Some? <==> OccursAt(s, "import (", i) && ')' in s[i + 8..])
    ensures p == GroupedImport && r.Some? ==>
              i + 9 <= r.value && s[r.value - 1] == ')' && forall m :: i + 8 <= m < r.value - 1 ==> s[m] != ')'
    ensures p == NewlineRun ==> (r.Some? <==> i + 1 < |s| && s[i] == '\n' && s[i + 1] == '\n')
    ensures p == NewlineRun && r.Some? ==>
              (forall m :: i <= m < r.value ==> s[m] == '\n') && (r.value == |s| || s[r.value] != '\n')
  {
    match p
    case SingleImport =>
      if OccursAt(s, "import \"", i) then
        var j := ScanTo(s, i + 8, {'"', '\n'});
        if j < |s| && s[j] == '"' then Some(j + 1) else None
      else None
    case GroupedImport =>
      if OccursAt(s, "import (", i) then
        var j := ScanTo(s, i + 8, {')'});
        assert j < |s| <==> ')' in s[i + 8..] by {
          if ')' in s[i + 8..] {
            var m :| i + 8 <= m < |s| && s[m] == ')';
          }
          if j < |s| {
            assert s[i + 8..][j - (i + 8)] == ')';
          }
        }
        if j < |s| then Some(j + 1) else None
      else None
    case NewlineRun =>
      if i + 1 < |s| && s[i] == '\n' && s[i + 1] == '\n' then Some(RunEnd(s, i)) else None
  }

  /** The leftmost match of `p` that starts at or after `from` (`Regexp.Find`). */
  function Find(p: Pattern, s: string, from: nat): (r: Option<Span>)
    requires from <= |s|
    ensures r.Some? ==> from <= r.value.start <= |s| && MatchAt(p, s, r.value.start) == Some(r.value.end)
    ensures r.Some? ==> forall j :: from <= j < r.value.start ==> MatchAt(p, s, j).None?
    ensures r.None? ==> forall j :: from <= j <= |s| ==> MatchAt(p, s, j).None?
    decreases |s| - from
  {
    match MatchAt(p, s, from)
    case Some(e) => Some(Span(from, e))
    case None => if from == |s| then None else Find(p, s, from + 1)
  }

  /** `Regexp.ReplaceAll` on the text from `from` on: every match, left to right, becomes `repl`. */
  function ReplaceAllFrom(p: Pattern, s: string, repl: string, from: nat): string
    requires from <= |s|
    decreases |s| - from
  {
    match Find(p, s, from)
    case None => s[from..]
    case Some(m) => s[from..m.start] + repl + ReplaceAllFrom(p, s, repl, m.end)
  }

  function ReplaceAll(p: Pattern, s: string, repl: string): string
  {
    ReplaceAllFrom(p, s, repl, 0)
  }

  /** The texts `Regexp.FindAll(s, -1)` returns, from `from` on. */
  function MatchesFrom(p: Pattern, s: string, from: nat): seq<string>
    requires from <= |s|
    decreases |s| - from
  {
    match Find(p, s, from)
    case None => []
    case Some(m) => [s[m.start..m.end]] + MatchesFrom(p, s, m.end)
  }

  function Matches(p: Pattern, s: string): seq<string>
  {
    MatchesFrom(p, s, 0)
  }

  /** The text before, between and after the matches. */
  function GapsFrom(p: Pattern, s: string, from: nat): (gs: seq<string>)
    requires from <= |s|
    ensures |gs| == |MatchesFrom(p, s, from)| + 1
    decreases |s| - from
  {
    match Find(p, s, from)
    case None => [s[from..]]
    case Some(m) => [s[from..m.start]] + GapsFrom(p, s, m.end)
  }

  function Gaps(p: Pattern, s: string): (gs: seq<string>)
    ensures |gs| == |Matches(p, s)| + 1
  {
    GapsFrom(p, s, 0)
  }

  /** `gaps[0] + fills[0] + gaps[1] + ... + gaps[n]`. */
  function Interleave(gaps: seq<string>, fills: seq<string>): string
    requires |gaps| == |fills| + 1
    decreases |fills|
  {
    if fills == [] then gaps[0] else gaps[0] + fills[0] + Interleave(gaps[1..], fills[1..])
  }

  /** `n` copies of `t`. */
  function Copies(t: string, n: nat): (r: seq<string>)
    ensures |r| == n && forall k :: 0 <= k < n ==> r[k] == t
  {
    seq(n, _ => t)
  }

  lemma SliceSplit(s: string, a: nat, b: nat, c: nat)
    requires a <= b <= c <= |s|
    ensures s[a..] == s[a..b] + s[b..c] + s[c..]
  {
    assert s[a..] == s[a..b] + s[b..];
    assert s[b..] == s[b..c] + s[c..];
  }

  lemma {:induction false} ReassembleFrom(p: Pattern, s: string, from: nat)
    requires from <= |s|
    ensures Interleave(GapsFrom(p, s, from), MatchesFrom(p, s, from)) == s[from..]
    decreases |s| - from
  {
    match Find(p, s, from)
    case None =>
    case Some(m) =>
      ReassembleFrom(p, s, m.end);
      var gs := GapsFrom(p, s, from);
      var ms := MatchesFrom(p, s, from);
      assert gs[1..] == GapsFrom(p, s, m.end);
      assert ms[1..] == MatchesFrom(p, s, m.end);
      SliceSplit(s, from, m.start, m.end);
  }

  /** The text is its gaps with the matched texts put back between them, in order. */
  lemma Reassemble(p: Pattern, s: string)
    ensures Interleave(Gaps(p, s), Matches(p, s)) == s
  {
    ReassembleFrom(p, s, 0);
  }

  lemma {:induction false} ReplaceAllWeavesFrom(p: Pattern, s: string, repl: string, from: nat)
    requires from <= |s|
    ensures ReplaceAllFrom(p, s, repl, from) ==
            Interleave(GapsFrom(p, s, from), Copies(repl, |MatchesFrom(p, s, from)|))
    decreases |s| - from
  {
    match Find(p, s, from)
    case None =>
    case Some(m) =>
      ReplaceAllWeavesFrom(p, s, repl, m.end);
      var gs := GapsFrom(p, s, from);
      var n := |MatchesFrom(p, s, from)|;
      assert gs[1..] == GapsFrom(p, s, m.end);
      assert Copies(repl, n)[1..] == Copies(repl, n - 1);
  }

  /**
   * `ReplaceAll` keeps the text outside the matches, byte for byte and in
   * order, and puts `repl` where each match was.
   */
  lemma ReplaceAllWeaves(p: Pattern, s: string, repl: string)
    ensures ReplaceAll(p, s, repl) == Interleave(Gaps(p, s), Copies(repl, |Matches(p, s)|))
  {
    ReplaceAllWeavesFrom(p, s, repl, 0);
  }

  /** Without a match the text is returned unchanged. */
  lemma ReplaceAllNoMatch(p: Pattern, s: string, repl: string)
    requires Find(p, s, 0).None?
    ensures ReplaceAll(p, s, repl) == s && Matches(p, s) == []
  {
  }

  /** Text without `import "` keeps all its single-line import statements: there are none to remove. */
  lemma SingleImportsAbsent(s: string)
    requires !Contains(s, "import \"")
    ensures ReplaceAll(SingleImport, s, "") == s
  {
    assert forall j :: 0 <= j <= |s| ==> !OccursAt(s, "import \"", j);
    assert Find(SingleImport, s, 0).None?;
  }

  // ---------------------------------------------------------------------
  // Grouped imports in a text.
  // ---------------------------------------------------------------------

  /** A text that is one whole match of `import \(.*\)`: `import (`, no `)` until its last character. */
  predicate IsBlock(b: string)
  {
    |b| >= 9 && b[..8] == "import (" && b[|b| - 1] == ')' && ')' !in b[8..|b| - 1]
  }

  /** A block written at `k` is the match that starts there. */
  lemma BlockMatch(s: string, k: nat, b: string)
    requires IsBlock(b) && OccursAt(s, b, k)
    ensures MatchAt(GroupedImport, s, k) == Some(k + |b|)
  {
    assert s[k..k + 8] == b[..8];
    assert OccursAt(s, "import (", k);
    assert s[k + |b| - 1] == ')';
    assert forall m :: k + 8 <= m < k + |b| - 1 ==> s[m] == b[8..|b| - 1][m - k - 8];
  }

  /** `import (` cannot start inside `s[lo..hi]` when that text lacks it and an `i` or the end follows. */
  lemma NoStartIn(s: string, lo: nat, hi: nat)
    requires lo <= hi <= |s|
    requires !Contains(s[lo..hi], "import (")
    requires hi == |s| || s[hi] == 'i'
    ensures forall j :: lo <= j < hi ==> !OccursAt(s, "import (", j)
  {
    forall j | lo <= j < hi
      ensures !OccursAt(s, "import (", j)
    {
      if j + 8 <= hi {
        assert !OccursAt(s[lo..hi], "import (", j - lo);
        SliceOfSlice(s, lo, hi, j - lo, j - lo + 8);
      } else if j + 8 <= |s| {
        assert s[j..j + 8][hi - j] == s[hi];
      }
    }
  }

  /** With no `import (` between `from` and a block at `k`, the next match is that block. */
  lemma FindBlock(s: string, from: nat, k: nat, b: string)
    requires from <= k && IsBlock(b) && OccursAt(s, b, k)
    requires forall j :: from <= j < k ==> !OccursAt(s, "import (", j)
    ensures Find(GroupedImport, s, from) == Some(Span(k, k + |b|))
    decreases k - from
  {
    if from == k {
      BlockMatch(s, k, b);
    } else {
      assert MatchAt(GroupedImport, s, from).None?;
      FindBlock(s, from + 1, k, b);
    }
  }

  /** Nothing matches at the very end of a text. */
  lemma NothingAtEnd(p: Pattern, s: string)
    ensures Find(p, s, |s|).None?
  {
  }

  /**
   * Replacing the first grouped import by its text, as `bytes.Replace`
   * does, hits the match itself: the same text cannot occur earlier,
   * since it would be an earlier match.
   */
  lemma FirstMatchIsFirstText(s: string, m: Span)
    requires Find(GroupedImport, s, 0) == Some(m)
    ensures FirstOccurrence(s, s[m.start..m.end], m.start)
  {
    var t := s[m.start..m.end];
    SliceOfSlice(s, m.start, m.end, 0, 8);
    assert OccursAt(s, t, m.start);
    forall k | 0 <= k < m.start
      ensures !OccursAt(s, t, k)
    {
      NoOpenBeforeMatch(s, m.start, m.end, k);
      if k + |t| <= |s| {
        assert s[k..k + |t|][..8] != t[..8];
      }
    }
  }

  /** Before a grouped import ending at `e`, every `import (` would have matched too. */
  lemma NoOpenBeforeMatch(s: string, i: nat, e: nat, k: nat)
    requires i <= |s| && MatchAt(GroupedImport, s, i) == Some(e)
    requires k < i && MatchAt(GroupedImport, s, k).None?
    ensures !OccursAt(s, "import (", k)
  {
    assert s[k + 8..][e - 1 - k - 8] == ')';
  }

  /** With no `import (` from `lo` on, nothing more matches and the rest is one gap. */
  lemma NoBlockFrom(s: string, lo: nat)
    requires lo <= |s| && !Contains(s[lo..], "import (")
    ensures Find(GroupedImport, s, lo).None?
    ensures MatchesFrom(GroupedImport, s, lo) == [] && GapsFrom(GroupedImport, s, lo) == [s[lo..]]
  {
    assert s[lo..|s|] == s[lo..];
    NoStartIn(s, lo, |s|);
    assert forall j :: lo <= j <= |s| ==> MatchAt(GroupedImport, s, j).None?;
  }

  /** A block at `k` (ending at `e`) with no `import (` before it from `from` on is the next match. */
  lemma StepOverBlock(s: string, from: nat, k: nat, e: nat, b: string)
    requires from <= k && IsBlock(b) && e == k + |b| <= |s| && s[k..e] == b
    requires !Contains(s[from..k], "import (")
    ensures Find(GroupedImport, s, from) == Some(Span(k, e))
    ensures MatchesFrom(GroupedImport, s, from) == [b] + MatchesFrom(GroupedImport, s, e)
    ensures GapsFrom(GroupedImport, s, from) == [s[from..k]] + GapsFrom(GroupedImport, s, e)
  {
    FindBlockAfterGap(s, from, k, b);
    UnfoldAtMatch(GroupedImport, s, from, Span(k, e));
  }

  lemma FindBlockAfterGap(s: string, from: nat, k: nat, b: string)
    requires from <= k && IsBlock(b) && OccursAt(s, b, k)
    requires !Contains(s[from..k], "import (")
    ensures Find(GroupedImport, s, from) == Some(Span(k, k + |b|))
  {
    assert s[k] == 'i' by {
      assert s[k] == s[k..k + |b|][0] == b[0];
      assert b[0] == b[..8][0];
    }
    NoStartIn(s, from, k);
    FindBlock(s, from, k, b);
  }

  lemma UnfoldAtMatch(p: Pattern, s: string, from: nat, m: Span)
    requires from <= |s| && Find(p, s, from) == Some(m)
    ensures MatchesFrom(p, s, from) == [s[m.start..m.end]] + MatchesFrom(p, s, m.end)
    ensures GapsFrom(p, s, from) == [s[from..m.start]] + GapsFrom(p, s, m.end)
  {
  }

  /** The first match when `s` is a gap `p`, a block `b` ending at `e`, and then anything. */
  lemma FirstBlock(s: string, p: string, b: string, rest: string, e: nat)
    requires s == p + b + rest && IsBlock(b) && !Contains(p, "import (") && e == |p| + |b|
    ensures Find(GroupedImport, s, 0) == Some(Span(|p|, e))
    ensures Matches(GroupedImport, s) == [b] + MatchesFrom(GroupedImport, s, e)
    ensures Gaps(GroupedImport, s) == [p] + GapsFrom(GroupedImport, s, e)
    ensures s[e..] == rest
  {
    assert s[0..|p|] == p && s[|p|..e] == b;
    StepOverBlock(s, 0, |p|, e, b);
  }

  /** The matches and the text around them when `s` holds one block. */
  lemma OneBlock(s: string, p: string, b: string, x: string)
    requires s == p + b + x && IsBlock(b)
    requires !Contains(p, "import (") && !Contains(x, "import (")
    ensures Matches(GroupedImport, s) == [b]
    ensures Gaps(GroupedImport, s) == [p, x]
  {
    FirstBlock(s, p, b, x, |p| + |b|);
    NoBlockFrom(s, |p| + |b|);
  }

  /** The matches and the text around them when `s` holds two blocks. */
  lemma TwoBlocks(s: string, p: string, b: string, x: string, c: string)
    requires s == p + b + (x + c) && IsBlock(b) && IsBlock(c)
    requires !Contains(p, "import (") && !Contains(x, "import (")
    ensures Matches(GroupedImport, s) == [b, c]
    ensures Gaps(GroupedImport, s) == [p, x, ""]
  {
    FirstBlock(s, p, b, x + c, |p| + |b|);
    LastBlock(s, |p| + |b|, x, c);
  }

  /** From `from` on, `s` holds a gap `x` and then a final block `c`. */
  lemma LastBlock(s: string, from: nat, x: string, c: string)
    requires from <= |s| && s[from..] == x + c && IsBlock(c)
    requires !Contains(x, "import (")
    ensures MatchesFrom(GroupedImport, s, from) == [c]
    ensures GapsFrom(GroupedImport, s, from) == [x, ""]
  {
    var f := from + |x|;
    assert s[from..f] == x && s[f..|s|] == c;
    StepOverBlock(s, from, f, |s|, c);
    assert s[|s|..] == "";
    NoBlockFrom(s, |s|);
  }

  /** Blocks with different texts cannot both start at the same place: each ends at the first `)`. */
  lemma OtherBlockNotAt(s: string, i: nat, b: string, c: string)
    requires IsBlock(b) && IsBlock(c) && b != c && OccursAt(s, b, i)
    ensures !OccursAt(s, c, i)
  {
    if i + |c| <= |s| {
      var t := s[i..i + |c|];
      if |c| < |b| {
        assert t[|c| - 1] == b[|c| - 1] == b[8..|b| - 1][|c| - 9];
      } else if |c| > |b| {
        assert t[|b| - 1] == b[|b| - 1] == ')';
        assert c[|b| - 1] == c[8..|c| - 1][|b| - 9];
      } else {
        assert t == b;
      }
    }
  }

  /**
   * In `a + b + w + c + y`, with `b` and `c` blocks of different text and
   * no `import (` in `a` nor after the first character of `b` up to `c`,
   * the first occurrence of `c`'s text is `c` itself.
   */
  lemma LaterBlockFirst(s: string, a: string, b: string, w: string, c: string, y: string)
    requires s == a + b + w + c + y && IsBlock(b) && IsBlock(c) && b != c
    requires !Contains(a, "import (") && !Contains(b[1..] + w, "import (")
    ensures FirstOccurrence(s, c, |a| + |b| + |w|)
  {
    var i := |a|;
    var k := |a| + |b| + |w|;
    assert s[k..k + |c|] == c;
    assert s[i..i + |b|] == b;
    assert s[i] == 'i' by {
      assert b[0] == b[..8][0];
    }
    assert s[k] == 'i' by {
      assert c[0] == c[..8][0];
    }
    assert s[0..i] == a;
    NoStartIn(s, 0, i);
    assert s[i + 1..k] == b[1..] + w;
    NoStartIn(s, i + 1, k);
    forall j | 0 <= j < k
      ensures !OccursAt(s, c, j)
    {
      if j == i {
        OtherBlockNotAt(s, i, b, c);
      } else if j + |c| <= |s| {
        SliceOfSlice(s, j, j + |c|, 0, 8);
        assert !OccursAt(s, "import (", j);
        assert s[j..j + 8] != c[..8];
        assert s[j..j + |c|][..8] != c[..8];
      }
    }
  }

  /** From `from` on, `s` is the gaps `gs` with the blocks `ms` between them. */
  lemma {:induction false} ManyBlocks(s: string, from: nat, gs: seq<string>, ms: seq<string>)
    requires from <= |s| && |gs| == |ms| + 1 && s[from..] == Interleave(gs, ms)
    requires forall j :: 0 <= j < |ms| ==> IsBlock(ms[j])
    requires forall j :: 0 <= j < |gs| ==> !Contains(gs[j], "import (")
    ensures MatchesFrom(GroupedImport, s, from) == ms
    ensures GapsFrom(GroupedImport, s, from) == gs
    decreases |ms|
  {
    if ms == [] {
      NoBlockFrom(s, from);
      assert gs == [gs[0]];
    } else {
      var k := from + |gs[0]|;
      var e := k + |ms[0]|;
      InterleaveHead(s, from, gs, ms);
      assert forall j :: 0 <= j < |ms| - 1 ==> ms[1..][j] == ms[j + 1];
      assert forall j :: 0 <= j < |gs| - 1 ==> gs[1..][j] == gs[j + 1];
      ManyBlocks(s, e, gs[1..], ms[1..]);
      BlockThenRest(s, from, k, e, gs, ms);
    }
  }

  /** A gap and a block in front of text whose matches and gaps are known. */
  lemma BlockThenRest(s: string, from: nat, k: nat, e: nat, gs: seq<string>, ms: seq<string>)
    requires from <= k && e <= |s| && |gs| == |ms| + 1 && ms != []
    requires IsBlock(ms[0]) && e == k + |ms[0]| && s[k..e] == ms[0]
    requires s[from..k] == gs[0] && !Contains(gs[0], "import (")
    requires MatchesFrom(GroupedImport, s, e) == ms[1..] && GapsFrom(GroupedImport, s, e) == gs[1..]
    ensures MatchesFrom(GroupedImport, s, from) == ms
    ensures GapsFrom(GroupedImport, s, from) == gs
  {
    StepOverBlock(s, from, k, e, ms[0]);
    assert gs == [gs[0]] + gs[1..] && ms == [ms[0]] + ms[1..];
  }

  /** The first gap, the first block and the rest of an interleaving, as slices. */
  lemma InterleaveHead(s: string, from: nat, gs: seq<string>, ms: seq<string>)
    requires from <= |s| && |gs| == |ms| + 1 && ms != [] && s[from..] == Interleave(gs, ms)
    ensures from + |gs[0]| + |ms[0]| <= |s|
    ensures s[from..from + |gs[0]|] == gs[0]
    ensures s[from + |gs[0]|..from + |gs[0]| + |ms[0]|] == ms[0]
    ensures s[from + |gs[0]| + |ms[0]|..] == Interleave(gs[1..], ms[1..])
  {
    SplitThree(s[from..], gs[0], ms[0], Interleave(gs[1..], ms[1..]), |gs[0]|, |gs[0]| + |ms[0]|);
  }

  /** A block with no `import (` before it is the first occurrence of its text. */
  lemma BlockFirstOccurrence(s: string, k: nat, c: string)
    requires IsBlock(c) && OccursAt(s, c, k) && !Contains(s[0..k], "import (")
    ensures FirstOccurrence(s, c, k)
  {
    assert s[k] == 'i' by {
      assert s[k] == s[k..k + |c|][0] == c[0];
      assert c[0] == c[..8][0];
    }
    NoStartIn(s, 0, k);
    forall j | 0 <= j < k
      ensures !OccursAt(s, c, j)
    {
      if j + |c| <= |s| {
        SliceOfSlice(s, j, j + |c|, 0, 8);
        assert !OccursAt(s, "import (", j);
        assert s[j..j + 8] != c[..8];
        assert s[j..j + |c|][..8] != c[..8];
      }
    }
  }

  // ---------------------------------------------------------------------
  // The line-break pass: `\n{2,}` replaced by exactly two line breaks.
  // ---------------------------------------------------------------------

  /** The pass at src/go_imports_sorting.go:189. */
  function Collapse(s: string): string
  {
    ReplaceAll(NewlineRun, s, "\n\n")
  }

  /** Three line breaks start at `k`. */
  predicate TripleAt(t: string, k: nat)
  {
    k + 3 <= |t| && t[k] == '\n' && t[k + 1] == '\n' && t[k + 2] == '\n'
  }

  /** No run of three or more line breaks. */
  predicate NoTriple(t: string)
  {
    !Contains(t, "\n\n\n")
  }

  /**
   * An independent description of the pass, one character at a time: a
   * line break is dropped exactly when two more follow it, so a run of
   * n >= 2 line breaks keeps its last two and every other character stays.
   */
  function Squash(s: string): string
    decreases |s|
  {
    if s == [] then []
    else if TripleAt(s, 0) then Squash(s[1..])
    else [s[0]] + Squash(s[1..])
  }

  /** The characters of `s` other than line breaks, in order. */
  function Strip(s: string): (r: string)
    ensures '\n' !in r
    decreases |s|
  {
    if s == [] then [] else (if s[0] == '\n' then [] else [s[0]]) + Strip(s[1..])
  }

  /** Two line breaks never follow each other in `x`. */
  predicate PairFree(x: string)
  {
    forall m :: 0 <= m < |x| - 1 ==> !(x[m] == '\n' && x[m + 1] == '\n')
  }

  lemma NoTripleStep(t: string)
    requires t != []
    ensures NoTriple(t) <==> !TripleAt(t, 0) && NoTriple(t[1..])
  {
    if TripleAt(t, 0) {
      assert OccursAt(t, "\n\n\n", 0);
    } else {
      assert !OccursAt(t, "\n\n\n", 0);
      ContainsShift(t, "\n\n\n");
    }
  }

  lemma {:induction false} SquashHead(t: string)
    requires t != []
    ensures Squash(t) != [] && Squash(t)[0] == t[0]
    decreases |t|
  {
    if TripleAt(t, 0) {
      SquashHead(t[1..]);
    }
  }

  lemma SquashSecond(t: string)
    requires t != [] && t[0] == '\n'
    requires |t| < 2 || t[1] != '\n'
    ensures |Squash(t)| < 2 || Squash(t)[1] != '\n'
  {
    if !TripleAt(t, 0) && |t| >= 2 {
      SquashHead(t[1..]);
    }
  }

  /** The pass leaves no run of three line breaks. */
  lemma {:induction false} SquashNoTriple(s: string)
    ensures NoTriple(Squash(s))
    decreases |s|
  {
    if s == [] {
    } else if TripleAt(s, 0) {
      SquashNoTriple(s[1..]);
    } else {
      SquashNoTriple(s[1..]);
      var r := Squash(s);
      var t := Squash(s[1..]);
      assert r == [s[0]] + t;
      assert r[1..] == t;
      if |r| >= 3 && r[0] == '\n' && r[1] == '\n' {
        SquashHead(s[1..]);
        SquashSecond(s[1..]);
        assert r[2] != '\n';
      }
      NoTripleStep(r);
    }
  }

  /** Text without a run of three line breaks is left alone. */
  lemma {:induction false} SquashFixed(t: string)
    requires NoTriple(t)
    ensures Squash(t) == t
    decreases |t|
  {
    if t != [] {
      NoTripleStep(t);
      SquashFixed(t[1..]);
    }
  }

  /** Only line breaks are dropped. */
  lemma {:induction false} SquashKeepsOthers(s: string)
    ensures Strip(Squash(s)) == Strip(s)
    decreases |s|
  {
    if s != [] {
      SquashKeepsOthers(s[1..]);
      if !TripleAt(s, 0) {
        assert ([s[0]] + Squash(s[1..]))[1..] == Squash(s[1..]);
      }
    }
  }

  /** A pair-free prefix that does not run into the rest is kept as it is. */
  lemma {:induction false} SquashKeep(x: string, y: string)
    requires PairFree(x)
    requires x == [] || y == [] || x[|x| - 1] != '\n' || y[0] != '\n'
    ensures Squash(x + y) == x + Squash(y)
    decreases |x|
  {
    if x != [] {
      var z := x + y;
      assert !TripleAt(z, 0) by {
        if |x| >= 2 {
          assert !(x[0] == '\n' && x[1] == '\n');
        }
      }
      assert z[1..] == x[1..] + y;
      SquashKeep(x[1..], y);
      assert x == [x[0]] + x[1..];
      AppendAssoc([x[0]], x[1..], Squash(y));
    } else {
      assert x + y == y;
    }
  }

  /** A maximal run of at least two line breaks is squashed to two. */
  lemma {:induction false} SquashRun(s: string, i: nat, e: nat)
    requires i + 2 <= e <= |s|
    requires forall m :: i <= m < e ==> s[m] == '\n'
    requires e == |s| || s[e] != '\n'
    ensures Squash(s[i..]) == "\n\n" + Squash(s[e..])
    decreases e - i
  {
    var t := s[i..];
    if e - i >= 3 {
      assert TripleAt(t, 0);
      assert t[1..] == s[i + 1..];
      SquashRun(s, i + 1, e);
    } else {
      assert !TripleAt(t, 0);
      var u := s[i + 1..];
      assert t[1..] == u;
      assert !TripleAt(u, 0);
      assert u[1..] == s[e..];
    }
  }

  /** Where no run of line breaks starts, no two line breaks are adjacent. */
  lemma PairFreeBetween(s: string, lo: nat, hi: nat)
    requires lo <= hi <= |s|
    requires forall k :: lo <= k < hi ==> MatchAt(NewlineRun, s, k).None?
    ensures PairFree(s[lo..hi])
  {
    var x := s[lo..hi];
    forall m | 0 <= m < |x| - 1
      ensures !(x[m] == '\n' && x[m + 1] == '\n')
    {
      assert MatchAt(NewlineRun, s, lo + m).None?;
    }
  }

  /** The character-wise pass over a text whose first run of line breaks is `s[i..e]`. */
  lemma SquashAroundRun(s: string, from: nat, i: nat, e: nat)
    requires from <= i && i + 2 <= e <= |s|
    requires forall k :: from <= k < i ==> MatchAt(NewlineRun, s, k).None?
    requires forall k :: i <= k < e ==> s[k] == '\n'
    requires e == |s| || s[e] != '\n'
    ensures Squash(s[from..]) == s[from..i] + "\n\n" + Squash(s[e..])
  {
    var x := s[from..i];
    PairFreeBetween(s, from, i);
    if x != [] {
      assert MatchAt(NewlineRun, s, i - 1).None? && s[i] == '\n';
      assert x[|x| - 1] == s[i - 1] != '\n';
    }
    assert s[from..] == x + s[i..];
    SquashKeep(x, s[i..]);
    SquashRun(s, i, e);
  }

  lemma {:induction false} CollapseFromIsSquash(s: string, from: nat)
    requires from <= |s|
    ensures ReplaceAllFrom(NewlineRun, s, "\n\n", from) == Squash(s[from..])
    decreases |s| - from
  {
    match Find(NewlineRun, s, from)
    case None =>
      var x := s[from..];
      PairFreeBetween(s, from, |s|);
      assert s[from..|s|] == x;
      SquashKeep(x, []);
      assert x + [] == x;
    case Some(m) =>
      CollapseFromIsSquash(s, m.end);
      SquashAroundRun(s, from, m.start, m.end);
  }

  /** The pass as written equals the character-wise description. */
  lemma CollapseIsSquash(s: string)
    ensures Collapse(s) == Squash(s)
  {
    CollapseFromIsSquash(s, 0);
    assert s[0..] == s;
  }

  /** After the pass no run of three or more line breaks is left. */
  lemma CollapseNoTriple(s: string)
    ensures NoTriple(Collapse(s))
  {
    CollapseIsSquash(s);
    SquashNoTriple(s);
  }

  /** Text without a run of three line breaks passes unchanged. */
  lemma CollapseFixed(t: string)
    requires NoTriple(t)
    ensures Collapse(t) == t
  {
    CollapseIsSquash(t);
    SquashFixed(t);
  }

  /** Running the pass twice gives what running it once gives. */
  lemma CollapseIdempotent(s: string)
    ensures Collapse(Collapse(s)) == Collapse(s)
  {
    CollapseNoTriple(s);
    CollapseFixed(Collapse(s));
  }

  /** Every character other than a line break survives the pass, in order. */
  lemma CollapseKeepsOthers(s: string)
    ensures Strip(Collapse(s)) == Strip(s)
  {
    CollapseIsSquash(s);
    SquashKeepsOthers(s);
  }

  lemma {:induction false} StripAppend(a: string, b: string)
    ensures Strip(a + b) == Strip(a) + Strip(b)
    decreases |a|
  {
    if a != [] {
      assert (a + b)[1..] == a[1..] + b;
      StripAppend(a[1..], b);
    } else {
      assert a + b == b;
    }
  }

  /** A prefix without line breaks comes through the pass unchanged. */
  lemma {:induction false} SquashKeepsPrefix(s: string, n: nat)
    requires n <= |s| && '\n' !in s[..n]
    ensures |Squash(s)| >= n && Squash(s)[..n] == s[..n]
    decreases n
  {
    if n > 0 {
      assert s[0] in s[..n];
      assert !TripleAt(s, 0);
      assert s[1..][..n - 1] == s[..n][1..];
      SquashKeepsPrefix(s[1..], n - 1);
    }
  }

  lemma CollapseKeepsPrefix(s: string, n: nat)
    requires n <= |s| && '\n' !in s[..n]
    ensures |Collapse(s)| >= n && Collapse(s)[..n] == s[..n]
  {
    CollapseIsSquash(s);
    SquashKeepsPrefix(s, n);
  }
}
