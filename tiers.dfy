/**
 * The three import tiers both tools build in `convertImportsToSlice`
 * (goimportssort.go:290-313, src/go_imports_sorting.go:226-256): slice 0
 * holds builtin imports, slice 1 external ones, slice 2 local ones. The
 * tools differ only in the rule that picks the tier, so the rule is a
 * parameter here.
 */
module Tiers {
  import opened Wrappers
  import opened ImpModel

  datatype Tier = Builtin | External | Local

  /**
   * What both tools read from one `*ast.ImportSpec`: the path literal
   * (`Path.Value`, quotes included) and the local name (`Name`, nil when
   * the import has none).
   */
  datatype ImportSpec = ImportSpec(pathLiteral: string, name: Option<string>)

  /** The import model the tools fill from a spec. */
  function FromSpec(spec: ImportSpec): (m: Imp)
    ensures m.path == spec.pathLiteral
    ensures spec.name.None? ==> m.ref == ""
    ensures spec.name.Some? ==> m.ref == spec.name.value
  {
    Imp(spec.pathLiteral, if spec.name.Some? then spec.name.value else "")
  }

  /** The import models of a list of specs, in order. */
  function Imps(specs: seq<ImportSpec>): (r: seq<Imp>)
    ensures |r| == |specs| && forall k :: 0 <= k < |specs| ==> r[k] == FromSpec(specs[k])
  {
    seq(|specs|, k requires 0 <= k < |specs| => FromSpec(specs[k]))
  }

  lemma ImpsSnoc(specs: seq<ImportSpec>, x: ImportSpec)
    ensures Imps(specs + [x]) == Imps(specs) + [FromSpec(x)]
  {
  }

  lemma ImpsAppend(specs: seq<ImportSpec>, i: nat)
    requires i < |specs|
    ensures Imps(specs[..i + 1]) == Imps(specs[..i]) + [FromSpec(specs[i])]
  {
  }

  /** The slice index of a tier in `importCategories`. */
  function Index(t: Tier): (k: nat)
    ensures k < 3
    ensures t == Builtin <==> k == 0
    ensures t == Local <==> k == 2
  {
    match t
    case Builtin => 0
    case External => 1
    case Local => 2
  }

  /** The entries of `specs` that `rule` puts in tier `t`, in the order they were appended. */
  function Bucket(rule: Imp -> Tier, specs: seq<Imp>, t: Tier): (r: seq<Imp>)
    ensures |r| <= |specs|
    decreases |specs|
  {
    if specs == [] then []
    else
      var last := specs[|specs| - 1];
      Bucket(rule, specs[..|specs| - 1], t) + (if rule(last) == t then [last] else [])
  }

  /** The value of `convertImportsToSlice`: the three tiers in the fixed order builtin, external, local. */
  function Classify(rule: Imp -> Tier, specs: seq<Imp>): (tiers: seq<seq<Imp>>)
    ensures |tiers| == 3
  {
    [Bucket(rule, specs, Builtin), Bucket(rule, specs, External), Bucket(rule, specs, Local)]
  }

  /** All entries of all tiers, tier after tier. */
  function Flatten(tiers: seq<seq<Imp>>): seq<Imp>
  {
    if tiers == [] then [] else Flatten(tiers[..|tiers| - 1]) + tiers[|tiers| - 1]
  }

  /** The number of entries of all tiers together (the value `countImports` computes). */
  function Total(tiers: seq<seq<Imp>>): nat
  {
    if tiers == [] then 0 else Total(tiers[..|tiers| - 1]) + |tiers[|tiers| - 1]|
  }

  lemma {:induction false} TotalIsFlattenLength(tiers: seq<seq<Imp>>)
    ensures Total(tiers) == |Flatten(tiers)|
    decreases |tiers|
  {
    if tiers != [] {
      TotalIsFlattenLength(tiers[..|tiers| - 1]);
    }
  }

  lemma {:induction false} TotalZero(tiers: seq<seq<Imp>>)
    ensures Total(tiers) == 0 <==> forall i :: 0 <= i < |tiers| ==> tiers[i] == []
    decreases |tiers|
  {
    if tiers != [] {
      var init := tiers[..|tiers| - 1];
      TotalZero(init);
      assert forall i :: 0 <= i < |init| ==> init[i] == tiers[i];
    }
  }

  /** Appending one more spec appends it to exactly the tier the rule picks. */
  lemma ClassifyAppend(rule: Imp -> Tier, specs: seq<Imp>, x: Imp)
    ensures Classify(rule, specs + [x]) ==
            Classify(rule, specs)[Index(rule(x)) := Classify(rule, specs)[Index(rule(x))] + [x]]
  {
    var s := specs + [x];
    assert s[..|s| - 1] == specs;
    assert Bucket(rule, s, Builtin) == Bucket(rule, specs, Builtin) + (if rule(x) == Builtin then [x] else []);
    assert Bucket(rule, s, External) == Bucket(rule, specs, External) + (if rule(x) == External then [x] else []);
    assert Bucket(rule, s, Local) == Bucket(rule, specs, Local) + (if rule(x) == Local then [x] else []);
    var c := Classify(rule, specs);
    var k := Index(rule(x));
    assert Classify(rule, s)[k] == c[k] + [x];
    assert forall i :: 0 <= i < 3 && i != k ==> Classify(rule, s)[i] == c[i];
  }

  /** A bucket holds exactly the specs the rule sends to its tier. */
  lemma {:induction false} BucketMembers(rule: Imp -> Tier, specs: seq<Imp>, t: Tier, x: Imp)
    ensures x in Bucket(rule, specs, t) <==> x in specs && rule(x) == t
    decreases |specs|
  {
    if specs != [] {
      var init := specs[..|specs| - 1];
      BucketMembers(rule, init, t, x);
      assert specs == init + [specs[|specs| - 1]];
    }
  }

  /** One more entry in exactly one of three buckets adds it once to their sum. */
  lemma OneMore(b: multiset<Imp>, e: multiset<Imp>, l: multiset<Imp>,
                b': multiset<Imp>, e': multiset<Imp>, l': multiset<Imp>, x: Imp, t: Tier)
    requires b' == b + (if t == Builtin then multiset{x} else multiset{})
    requires e' == e + (if t == External then multiset{x} else multiset{})
    requires l' == l + (if t == Local then multiset{x} else multiset{})
    ensures b' + e' + l' == b + e + l + multiset{x}
  {
  }

  lemma MultisetSnoc(s: seq<Imp>)
    requires s != []
    ensures multiset(s) == multiset(s[..|s| - 1]) + multiset{s[|s| - 1]}
  {
    assert s == s[..|s| - 1] + [s[|s| - 1]];
  }

  lemma BucketStep(rule: Imp -> Tier, specs: seq<Imp>, t: Tier)
    requires specs != []
    ensures multiset(Bucket(rule, specs, t)) ==
            multiset(Bucket(rule, specs[..|specs| - 1], t)) +
            (if rule(specs[|specs| - 1]) == t then multiset{specs[|specs| - 1]} else multiset{})
  {
  }

  lemma {:induction false} BucketsPartition(rule: Imp -> Tier, specs: seq<Imp>)
    ensures multiset(Bucket(rule, specs, Builtin)) + multiset(Bucket(rule, specs, External))
            + multiset(Bucket(rule, specs, Local)) == multiset(specs)
    decreases |specs|
  {
    if specs != [] {
      var init := specs[..|specs| - 1];
      var last := specs[|specs| - 1];
      BucketsPartition(rule, init);
      MultisetSnoc(specs);
      BucketStep(rule, specs, Builtin);
      BucketStep(rule, specs, External);
      BucketStep(rule, specs, Local);
      OneMore(multiset(Bucket(rule, init, Builtin)), multiset(Bucket(rule, init, External)),
              multiset(Bucket(rule, init, Local)), multiset(Bucket(rule, specs, Builtin)),
              multiset(Bucket(rule, specs, External)), multiset(Bucket(rule, specs, Local)),
              last, rule(last));
    }
  }

  lemma FlattenThree(tiers: seq<seq<Imp>>)
    requires |tiers| == 3
    ensures Flatten(tiers) == tiers[0] + tiers[1] + tiers[2]
  {
    assert Flatten(tiers[..1]) == tiers[0] by {
      assert tiers[..1][..0] == [];
    }
    assert Flatten(tiers[..2]) == tiers[0] + tiers[1] by {
      assert tiers[..2][..1] == tiers[..1];
    }
  }

  /** Each tier holds exactly the specs the rule sends to it. */
  lemma ClassifyMembers(rule: Imp -> Tier, specs: seq<Imp>, k: nat, x: Imp)
    requires k < 3
    ensures x in Classify(rule, specs)[k] <==> x in specs && Index(rule(x)) == k
  {
    BucketMembers(rule, specs, rule(x), x);
    BucketMembers(rule, specs, Builtin, x);
    BucketMembers(rule, specs, External, x);
    BucketMembers(rule, specs, Local, x);
  }

  /**
   * Classification is total and exclusive: the three tiers together hold
   * the specs, each exactly as often as it was given, so `countImports`
   * of the result is the number of specs.
   */
  lemma ClassifyConserves(rule: Imp -> Tier, specs: seq<Imp>)
    ensures multiset(Flatten(Classify(rule, specs))) == multiset(specs)
    ensures Total(Classify(rule, specs)) == |specs|
  {
    var tiers := Classify(rule, specs);
    FlattenThree(tiers);
    BucketsPartition(rule, specs);
    assert multiset(Flatten(tiers)) == multiset(specs);
    TotalIsFlattenLength(tiers);
    assert |Flatten(tiers)| == |multiset(Flatten(tiers))|;
  }
}
