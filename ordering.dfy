/**
 * The order `sortImports` sorts each tier by (goimportssort.go:249-260,
 * src/go_imports_sorting.go:195-206): path first, then local name, both
 * with Go's `<` on strings, which compares bytes.
 */
module Ordering {
  import opened ImpModel

  /**
   * Go's `<` on strings. For UTF-8 text, comparing bytes and comparing
   * code points give the same order, so characters are compared here.
   */
  predicate Less(a: string, b: string)
    decreases |a|
  {
    if a == [] then b != []
    else if b == [] then false
    else if a[0] != b[0] then a[0] < b[0]
    else Less(a[1..], b[1..])
  }

  /** The textbook description of lexicographic order: a common prefix, then a smaller byte or the end of `a`. */
  ghost predicate LexBefore(a: string, b: string)
  {
    exists k :: 0 <= k <= |a| && k <= |b| && a[..k] == b[..k] &&
      ((k == |a| && k < |b|) || (k < |a| && k < |b| && a[k] < b[k]))
  }

  lemma {:induction false} LessIsLexBefore(a: string, b: string)
    ensures Less(a, b) <==> LexBefore(a, b)
    decreases |a|
  {
    if a == [] {
      if b != [] {
        assert a[..0] == b[..0];
      }
    } else if b == [] {
    } else if a[0] != b[0] {
      LexBeforeAtHead(a, b);
    } else {
      LessIsLexBefore(a[1..], b[1..]);
      LexBeforeTail(a, b);
    }
  }

  /** Strings that differ in their first character are ordered by it. */
  lemma LexBeforeAtHead(a: string, b: string)
    requires a != [] && b != [] && a[0] != b[0]
    ensures LexBefore(a, b) <==> a[0] < b[0]
  {
    if LexBefore(a, b) {
      var k :| 0 <= k <= |a| && k <= |b| && a[..k] == b[..k] &&
        ((k == |a| && k < |b|) || (k < |a| && k < |b| && a[k] < b[k]));
    }
    if a[0] < b[0] {
      assert a[..0] == b[..0];
    }
  }

  /** Strings with the same first character are ordered as their tails. */
  lemma LexBeforeTail(a: string, b: string)
    requires a != [] && b != [] && a[0] == b[0]
    ensures LexBefore(a, b) <==> LexBefore(a[1..], b[1..])
  {
    if LexBefore(a, b) {
      var k :| 0 <= k <= |a| && k <= |b| && a[..k] == b[..k] &&
        ((k == |a| && k < |b|) || (k < |a| && k < |b| && a[k] < b[k]));
      DropCommonHead(a, b, k);
    }
    if LexBefore(a[1..], b[1..]) {
      var k :| 0 <= k <= |a[1..]| && k <= |b[1..]| && a[1..][..k] == b[1..][..k] &&
        ((k == |a[1..]| && k < |b[1..]|) || (k < |a[1..]| && k < |b[1..]| && a[1..][k] < b[1..][k]));
      assert a[..k + 1] == [a[0]] + a[1..][..k];
      assert b[..k + 1] == [b[0]] + b[1..][..k];
      assert LexBefore(a, b);
    }
  }

  /** A common prefix of length `k > 0` leaves a common prefix of length `k - 1` after the head. */
  lemma DropCommonHead(a: string, b: string, k: nat)
    requires a != [] && b != [] && a[0] == b[0]
    requires k <= |a| && k <= |b| && a[..k] == b[..k] &&
             ((k == |a| && k < |b|) || (k < |a| && k < |b| && a[k] < b[k]))
    ensures LexBefore(a[1..], b[1..])
  {
    assert k > 0;
    assert a[1..][..k - 1] == a[1..k] == a[..k][1..];
    assert b[1..][..k - 1] == b[1..k] == b[..k][1..];
  }

  lemma {:induction false} LessIrreflexive(a: string)
    ensures !Less(a, a)
    decreases |a|
  {
    if a != [] {
      LessIrreflexive(a[1..]);
    }
  }

  lemma {:induction false} LessTransitive(a: string, b: string, c: string)
    requires Less(a, b) && Less(b, c)
    ensures Less(a, c)
    decreases |a|
  {
    if a != [] && b != [] && c != [] && a[0] == b[0] == c[0] {
      LessTransitive(a[1..], b[1..], c[1..]);
    }
  }

  lemma {:induction false} LessTotal(a: string, b: string)
    ensures a == b || Less(a, b) || Less(b, a)
    decreases |a|
  {
    if a != [] && b != [] && a[0] == b[0] {
      LessTotal(a[1..], b[1..]);
      if a[1..] == b[1..] {
        assert a == [a[0]] + a[1..] && b == [b[0]] + b[1..];
      }
    }
  }

  /** The comparison function passed to `sort.Slice`. */
  predicate ImpLess(a: Imp, b: Imp)
  {
    if a.path != b.path then Less(a.path, b.path) else Less(a.ref, b.ref)
  }

  /** Not after: the order the sorted tiers are in. */
  predicate Le(a: Imp, b: Imp)
  {
    !ImpLess(b, a)
  }

  lemma ImpLessIrreflexive(a: Imp)
    ensures !ImpLess(a, a)
  {
    LessIrreflexive(a.ref);
  }

  lemma ImpLessTransitive(a: Imp, b: Imp, c: Imp)
    requires ImpLess(a, b) && ImpLess(b, c)
    ensures ImpLess(a, c)
  {
    if a.path != b.path && b.path != c.path {
      LessTransitive(a.path, b.path, c.path);
      LessIrreflexive(a.path);
    } else if a.path == b.path && b.path == c.path {
      LessTransitive(a.ref, b.ref, c.ref);
    }
  }

  /** The comparison is a strict total order on imports: two different imports are never tied. */
  lemma ImpLessTotal(a: Imp, b: Imp)
    ensures a == b || ImpLess(a, b) || ImpLess(b, a)
  {
    LessTotal(a.path, b.path);
    LessTotal(a.ref, b.ref);
  }

  lemma LeTransitive(a: Imp, b: Imp, c: Imp)
    requires Le(a, b) && Le(b, c)
    ensures Le(a, c)
  {
    if ImpLess(c, a) {
      ImpLessTotal(a, b);
      if a != b {
        ImpLessTransitive(c, a, b);
      }
    }
  }

  lemma LeAntisymmetric(a: Imp, b: Imp)
    requires Le(a, b) && Le(b, a)
    ensures a == b
  {
    ImpLessTotal(a, b);
  }

  /** The unaliased import of a path sorts before every aliased import of the same path. */
  lemma UnaliasedFirst(path: string, alias: string)
    requires alias != ""
    ensures ImpLess(Imp(path, ""), Imp(path, alias))
    ensures !ImpLess(Imp(path, alias), Imp(path, ""))
  {
  }

  /** The example of the repository's tests: `APA` before `APZ` on the same path. */
  lemma AliasExample(path: string)
    ensures ImpLess(Imp(path, "APA"), Imp(path, "APZ"))
  {
    assert "APA"[1..] == "PA" && "APZ"[1..] == "PZ";
    assert "PA"[1..] == "A" && "PZ"[1..] == "Z";
  }

  ghost predicate Sorted(s: seq<Imp>)
  {
    forall i, j :: 0 <= i < j < |s| ==> Le(s[i], s[j])
  }

  lemma InsertAfterHead(x: Imp, s: seq<Imp>, rest: seq<Imp>)
    requires s != [] && ImpLess(s[0], x)
    requires multiset(rest) == multiset(s[1..]) + multiset{x}
    ensures Sorted(s) && Sorted(rest) ==> Sorted([s[0]] + rest)
  {
    if !(Sorted(s) && Sorted(rest)) {
      return;
    }
    var r := [s[0]] + rest;
    forall j | 1 <= j < |r|
      ensures Le(r[0], r[j])
    {
      var y := r[j];
      assert y == rest[j - 1];
      assert y in multiset(rest);
      if y == x {
        if ImpLess(x, s[0]) {
          ImpLessTransitive(x, s[0], x);
          ImpLessIrreflexive(x);
        }
      } else {
        assert y in multiset(s[1..]);
        var k :| 0 <= k < |s[1..]| && s[1..][k] == y;
        assert s[k + 1] == y;
      }
    }
  }

  lemma PrependSorted(x: Imp, s: seq<Imp>)
    requires s != [] ==> Le(x, s[0])
    ensures Sorted(s) ==> Sorted([x] + s)
  {
    if !Sorted(s) {
      return;
    }
    var r := [x] + s;
    forall j | 1 <= j < |r|
      ensures Le(r[0], r[j])
    {
      if j > 1 {
        LeTransitive(x, s[0], s[j - 1]);
      }
    }
  }

  /** Insertion into a sorted sequence: the reference for one step of sorting. */
  function Insert(x: Imp, s: seq<Imp>): (r: seq<Imp>)
    ensures multiset(r) == multiset(s) + multiset{x}
    ensures Sorted(s) ==> Sorted(r)
  {
    if s == [] then [x]
    else if ImpLess(s[0], x) then
      assert s == [s[0]] + s[1..];
      var rest := Insert(x, s[1..]);
      InsertAfterHead(x, s, rest);
      [s[0]] + rest
    else
      PrependSorted(x, s);
      [x] + s
  }

  /** A sort written as a recursive function: the reference the in-place sort is proved against. */
  function SortSeq(s: seq<Imp>): (r: seq<Imp>)
    ensures Sorted(r)
    ensures multiset(r) == multiset(s)
  {
    if s == [] then []
    else
      assert s == [s[0]] + s[1..];
      Insert(s[0], SortSeq(s[1..]))
  }

  lemma SortedTail(s: seq<Imp>)
    requires s != [] && Sorted(s)
    ensures Sorted(s[1..])
  {
  }

  lemma HeadIsLeast(s: seq<Imp>, y: Imp)
    requires Sorted(s) && y in multiset(s)
    ensures Le(s[0], y)
  {
    var i :| 0 <= i < |s| && s[i] == y;
    if i == 0 {
      ImpLessIrreflexive(y);
    }
  }

  lemma MultisetTail(s: seq<Imp>)
    requires s != []
    ensures multiset(s[1..]) == multiset(s) - multiset{s[0]}
  {
    assert s == [s[0]] + s[1..];
  }

  /**
   * Two sorted arrangements of the same imports are equal, so sorting is
   * deterministic although `sort.Slice` is not a stable sort.
   */
  lemma {:induction false} SortedUnique(a: seq<Imp>, b: seq<Imp>)
    requires Sorted(a) && Sorted(b) && multiset(a) == multiset(b)
    ensures a == b
    decreases |a|
  {
    if a != [] {
      SameHead(a, b);
      SortedUnique(a[1..], b[1..]);
      assert a == [a[0]] + a[1..] && b == [b[0]] + b[1..];
    } else {
      assert |multiset(b)| == 0;
    }
  }

  /** Two sorted arrangements of the same imports start alike and go on with sorted arrangements of the same rest. */
  lemma SameHead(a: seq<Imp>, b: seq<Imp>)
    requires a != [] && Sorted(a) && Sorted(b) && multiset(a) == multiset(b)
    ensures b != [] && a[0] == b[0]
    ensures Sorted(a[1..]) && Sorted(b[1..]) && multiset(a[1..]) == multiset(b[1..])
  {
    assert a[0] in multiset(a);
    assert b != [];
    assert b[0] in multiset(b);
    HeadIsLeast(a, b[0]);
    HeadIsLeast(b, a[0]);
    LeAntisymmetric(a[0], b[0]);
    MultisetTail(a);
    MultisetTail(b);
    SortedTail(a);
    SortedTail(b);
  }

  /** `sortImports` applied to every tier, as a value. */
  function SortAll(tiers: seq<seq<Imp>>): (r: seq<seq<Imp>>)
    ensures |r| == |tiers|
    ensures forall x :: 0 <= x < |tiers| ==> Sorted(r[x]) && multiset(r[x]) == multiset(tiers[x])
  {
    seq(|tiers|, x requires 0 <= x < |tiers| => SortSeq(tiers[x]))
  }
}
