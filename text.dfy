/**
 * The byte-string helpers of Go's `strings` and `bytes` packages that the
 * import sorter calls: Index, Contains, Count, Replace with n = 1, Trim,
 * HasPrefix and HasSuffix. Go strings are bytes; here a string is a
 * sequence of characters, one character per byte.
 */
module Text {
  import opened Wrappers

  /** `sub` occurs in `s` starting at index `k`. */
  predicate OccursAt(s: string, sub: string, k: int)
  {
    0 <= k && k + |sub| <= |s| && s[k..k + |sub|] == sub
  }

  /** The first occurrence of `sub` in `s` starts at `i`. */
  predicate FirstOccurrence(s: string, sub: string, i: int)
  {
    OccursAt(s, sub, i) && forall k :: 0 <= k < i ==> !OccursAt(s, sub, k)
  }

  /** `strings.Contains`: some occurrence exists. */
  predicate Contains(s: string, sub: string)
  {
    exists k :: 0 <= k <= |s| - |sub| && OccursAt(s, sub, k)
  }

  /** The first occurrence of `sub` at or after `from`. */
  function IndexFrom(s: string, sub: string, from: nat): (r: Option<nat>)
    ensures r.Some? ==> from <= r.value && OccursAt(s, sub, r.value)
    ensures r.Some? ==> forall k :: from <= k < r.value ==> !OccursAt(s, sub, k)
    ensures r.None? ==> forall k :: from <= k ==> !OccursAt(s, sub, k)
    decreases |s| - from
  {
    if from + |sub| > |s| then None
    else if s[from..from + |sub|] == sub then Some(from)
    else IndexFrom(s, sub, from + 1)
  }

  /** `bytes.Index`: the first occurrence of `sub` in `s`, if any. */
  function IndexOf(s: string, sub: string): (r: Option<nat>)
    ensures r.Some? <==> Contains(s, sub)
    ensures r.Some? ==> OccursAt(s, sub, r.value)
    ensures r.Some? ==> forall k :: 0 <= k < r.value ==> !OccursAt(s, sub, k)
  {
    IndexFrom(s, sub, 0)
  }

  /**
   * `bytes.Replace(s, old, new, 1)`: the first occurrence of `pat` is
   * replaced by `repl`; without an occurrence `s` is returned unchanged.
   * An empty `pat` occurs at index 0, so `repl` is then put in front.
   */
  function ReplaceFirst(s: string, pat: string, repl: string): (r: string)
    ensures !Contains(s, pat) ==> r == s
    ensures forall i :: FirstOccurrence(s, pat, i) ==> r == s[..i] + repl + s[i + |pat|..]
    ensures |r| == if Contains(s, pat) then |s| - |pat| + |repl| else |s|
  {
    match IndexOf(s, pat)
    case None => s
    case Some(i) => s[..i] + repl + s[i + |pat|..]
  }

  /** The index of the first `c` in `s`, or `|s|` when there is none. */
  function FirstIndexOf(s: string, c: char): (k: nat)
    ensures k <= |s| && c !in s[..k]
    ensures k < |s| ==> s[k] == c
    decreases |s|
  {
    if s == [] || s[0] == c then 0
    else
      assert s[..1 + FirstIndexOf(s[1..], c)] == [s[0]] + s[1..][..FirstIndexOf(s[1..], c)];
      1 + FirstIndexOf(s[1..], c)
  }

  lemma {:induction false} FirstIndexAfter(a: string, b: string, c: char)
    requires c !in a
    ensures FirstIndexOf(a + b, c) == |a| + FirstIndexOf(b, c)
    decreases |a|
  {
    if a != [] {
      assert (a + b)[1..] == a[1..] + b;
      FirstIndexAfter(a[1..], b, c);
    } else {
      assert a + b == b;
    }
  }

  lemma {:induction false} FirstIndexWithin(a: string, b: string, c: char)
    requires c in a
    ensures FirstIndexOf(a + b, c) == FirstIndexOf(a, c)
    decreases |a|
  {
    if a[0] != c {
      assert (a + b)[1..] == a[1..] + b;
      FirstIndexWithin(a[1..], b, c);
    }
  }

  /** `strings.HasPrefix`. */
  predicate HasPrefix(s: string, p: string)
  {
    |p| <= |s| && s[..|p|] == p
  }

  /** `strings.HasSuffix`. */
  predicate HasSuffix(s: string, p: string)
  {
    |p| <= |s| && s[|s| - |p|..] == p
  }

  /**
   * `strings.Count` for a non-empty separator: the number of
   * non-overlapping occurrences, found from left to right.
   */
  function Count(s: string, sep: string): nat
    requires sep != []
    decreases |s|
  {
    if |s| < |sep| then 0
    else if s[..|sep|] == sep then 1 + Count(s[|sep|..], sep)
    else Count(s[1..], sep)
  }

  lemma {:induction false} ContainsShift(s: string, sub: string)
    requires s != [] && !OccursAt(s, sub, 0)
    ensures Contains(s, sub) <==> Contains(s[1..], sub)
  {
    var t := s[1..];
    forall k | 1 <= k
      ensures OccursAt(s, sub, k) <==> OccursAt(t, sub, k - 1)
    {
      if k + |sub| <= |s| {
        assert forall j :: k - 1 <= j < k - 1 + |sub| ==> t[j] == s[j + 1];
        assert s[k..k + |sub|] == t[k - 1..k - 1 + |sub|];
      }
    }
    if Contains(s, sub) {
      var k :| 0 <= k <= |s| - |sub| && OccursAt(s, sub, k);
      assert OccursAt(t, sub, k - 1);
    }
    if Contains(t, sub) {
      var k :| 0 <= k <= |t| - |sub| && OccursAt(t, sub, k);
      assert OccursAt(s, sub, k + 1);
    }
  }

  /** A positive count is the same as containment (the guard `strings.Count(..) > 0`). */
  lemma {:induction false} CountPositive(s: string, sep: string)
    requires sep != []
    ensures Count(s, sep) > 0 <==> Contains(s, sep)
    decreases |s|
  {
    if |s| < |sep| {
    } else if s[..|sep|] == sep {
      assert OccursAt(s, sep, 0);
    } else {
      CountPositive(s[1..], sep);
      ContainsShift(s, sep);
    }
  }

  /** Counting a one-character separator counts that character. */
  lemma {:induction false} CountChar(s: string, c: char)
    ensures Count(s, [c]) == multiset(s)[c]
    decreases |s|
  {
    if |s| == 0 {
    } else {
      CountChar(s[1..], c);
      assert s == [s[0]] + s[1..];
      assert multiset(s) == multiset([s[0]]) + multiset(s[1..]);
    }
  }

  /** Drops every leading `c`. */
  function TrimLeft(s: string, c: char): (r: string)
    ensures |r| <= |s| && r == s[|s| - |r|..]
    ensures forall k :: 0 <= k < |s| - |r| ==> s[k] == c
    ensures r == [] || r[0] != c
    decreases |s|
  {
    if s != [] && s[0] == c then TrimLeft(s[1..], c) else s
  }

  /** Drops every trailing `c`. */
  function TrimRight(s: string, c: char): (r: string)
    ensures |r| <= |s| && r == s[..|r|]
    ensures forall k :: |r| <= k < |s| ==> s[k] == c
    ensures r == [] || r[|r| - 1] != c
    decreases |s|
  {
    if s != [] && s[|s| - 1] == c then TrimRight(s[..|s| - 1], c) else s
  }

  /** `strings.Trim(s, "\"")`: every leading and trailing double quote removed. */
  function TrimQuotes(s: string): (r: string)
    ensures r == [] || (r[0] != '"' && r[|r| - 1] != '"')
  {
    TrimRight(TrimLeft(s, '"'), '"')
  }

  /** A quoted import path literal is looked up by its unquoted text. */
  lemma TrimQuotedLiteral(p: string)
    requires p == [] || (p[0] != '"' && p[|p| - 1] != '"')
    ensures TrimQuotes("\"" + p + "\"") == p
  {
    var q := "\"" + p + "\"";
    assert q[1..] == p + "\"";
    if p == [] {
      assert TrimLeft(q, '"') == TrimLeft("\"", '"');
      assert "\""[1..] == [];
    } else {
      assert TrimLeft(p + "\"", '"') == p + "\"";
      assert (p + "\"")[..|p|] == p;
    }
  }

  /** Concatenation is associative; stated once so that proofs about long texts need not rediscover it. */
  lemma AppendAssoc<T>(x: seq<T>, y: seq<T>, z: seq<T>)
    ensures x + (y + z) == (x + y) + z
  {
  }

  /** `bytes.Replace` with an empty pattern: the replacement goes in front. */
  lemma ReplaceEmpty(s: string, repl: string)
    ensures ReplaceFirst(s, [], repl) == repl + s
  {
    assert FirstOccurrence(s, [], 0);
    assert s[..0] + repl + s[0..] == repl + s;
  }

  /** The three pieces of `p + b + rest`, as slices. */
  lemma SplitThree<T>(s: seq<T>, p: seq<T>, b: seq<T>, rest: seq<T>, k: nat, f: nat)
    requires s == p + b + rest && k == |p| && f == k + |b|
    ensures s[..k] == p && s[k..f] == b && s[f..] == rest
  {
  }

  /** Deleting the first occurrence of `pat`, found at `k`. */
  lemma RemoveAt(s: string, pat: string, k: nat, f: nat)
    requires FirstOccurrence(s, pat, k) && f == k + |pat|
    ensures ReplaceFirst(s, pat, "") == s[..k] + s[f..]
  {
    var r := ReplaceFirst(s, pat, "");
    assert r == s[..k] + "" + s[k + |pat|..];
    assert s[..k] + "" == s[..k];
  }

  /** A text without `pat` has no piece that holds it. */
  lemma NoContainsPart(x: string, y: string, z: string, pat: string)
    requires !Contains(x + y + z, pat)
    ensures !Contains(y, pat)
  {
    var s := x + y + z;
    forall k | 0 <= k <= |y| - |pat|
      ensures !OccursAt(y, pat, k)
    {
      assert s[|x| + k..|x| + k + |pat|] == y[k..k + |pat|];
      assert !OccursAt(s, pat, |x| + k);
    }
  }

  /** A text without `pat` has no prefix that holds it. */
  lemma NoContainsPrefix(x: string, y: string, pat: string)
    requires !Contains(x + y, pat)
    ensures !Contains(x, pat)
  {
    forall k | 0 <= k <= |x| - |pat|
      ensures !OccursAt(x, pat, k)
    {
      assert (x + y)[k..k + |pat|] == x[k..k + |pat|];
      assert !OccursAt(x + y, pat, k);
    }
  }

  /**
   * Two texts without `pat` joined hold no `pat` when the first ends in a
   * character that `pat` does not use: no occurrence can straddle the seam.
   */
  lemma NoContainsJoin(x: string, y: string, pat: string)
    requires !Contains(x, pat) && !Contains(y, pat)
    requires x != [] && x[|x| - 1] !in pat
    ensures !Contains(x + y, pat)
  {
    var s := x + y;
    forall k | 0 <= k <= |s| - |pat|
      ensures !OccursAt(s, pat, k)
    {
      if k + |pat| <= |x| {
        assert s[k..k + |pat|] == x[k..k + |pat|];
        assert !OccursAt(x, pat, k);
      } else if k >= |x| {
        assert s[k..k + |pat|] == y[k - |x|..k - |x| + |pat|];
        assert !OccursAt(y, pat, k - |x|);
      } else {
        assert s[k..k + |pat|][|x| - 1 - k] == x[|x| - 1];
      }
    }
  }

  /** A slice of a slice is a slice of the whole. */
  lemma SliceOfSlice<T>(s: seq<T>, lo: nat, hi: nat, a: nat, b: nat)
    requires lo <= hi <= |s| && a <= b <= hi - lo
    ensures s[lo..hi][a..b] == s[lo + a..lo + b]
  {
    forall i | 0 <= i < b - a
      ensures s[lo..hi][a..b][i] == s[lo + a..lo + b][i]
    {
      assert s[lo..hi][a..b][i] == s[lo..hi][a + i];
      assert s[lo..hi][a + i] == s[lo + a + i];
    }
  }
}
