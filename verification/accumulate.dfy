/** Feature accumulation: the feature blocks a run keeps for the requested
    version, each with its references resolved against the tables. */
module Accumulate {
  import opened Ordered
  import opened Registry

  /** Each reference the table knows, paired with
      its entry, in reference order; names the table does not know are dropped. */
  function Resolve<V>(table: map<string, V>, refs: seq<string>): (r: seq<(string, V)>)
    ensures |r| <= |refs|
    ensures forall i :: 0 <= i < |r| ==> r[i].0 in table && r[i].1 == table[r[i].0]
    decreases |refs|
  {
    if refs == [] then []
    else
      var n := refs[|refs| - 1];
      Resolve(table, refs[..|refs| - 1]) + (if n in table then [(n, table[n])] else [])
  }

  /** The names of resolved pairs, in order. */
  function Names<V>(ps: seq<(string, V)>): (r: seq<string>)
    ensures |r| == |ps| && forall i :: 0 <= i < |ps| ==> r[i] == ps[i].0
  {
    seq(|ps|, i requires 0 <= i < |ps| => ps[i].0)
  }

  /** `s` is what is left of `t` after deleting some of its elements. */
  predicate IsSubsequence(s: seq<string>, t: seq<string>)
    decreases |t|
  {
    if s == [] then true
    else if t == [] then false
    else if s[|s| - 1] == t[|t| - 1] then IsSubsequence(s[..|s| - 1], t[..|t| - 1])
    else IsSubsequence(s, t[..|t| - 1])
  }

  /** A name survives exactly when it is referenced and the table knows it. */
  lemma {:induction false} ResolveMembers<V>(table: map<string, V>, refs: seq<string>, n: string)
    ensures n in Names(Resolve(table, refs)) <==> n in refs && n in table
    decreases |refs|
  {
    if refs != [] {
      var p := refs[..|refs| - 1];
      var m := refs[|refs| - 1];
      ResolveMembers(table, p, n);
      assert refs == p + [m];
      var rp := Resolve(table, p);
      var r := Resolve(table, refs);
      assert r == rp + (if m in table then [(m, table[m])] else []);
      assert Names(r) == Names(rp) + (if m in table then [m] else []);
    }
  }

  /** Survivors keep their relative order: the surviving names are a
      subsequence of the references. */
  lemma {:induction false} ResolveSubsequence<V>(table: map<string, V>, refs: seq<string>)
    ensures IsSubsequence(Names(Resolve(table, refs)), refs)
    decreases |refs|
  {
    if refs != [] {
      var p := refs[..|refs| - 1];
      var m := refs[|refs| - 1];
      ResolveSubsequence(table, p);
      var np := Names(Resolve(table, p));
      if m in table {
        var s := Names(Resolve(table, refs));
        assert s == np + [m];
        assert s[..|s| - 1] == np;
      } else {
        assert Names(Resolve(table, refs)) == np;
        SubsequenceExtend(np, p, m);
      }
    }
  }

  /** Appending to `t` keeps `s` a subsequence of it. */
  lemma {:induction false} SubsequenceExtend(s: seq<string>, t: seq<string>, x: string)
    requires IsSubsequence(s, t)
    ensures IsSubsequence(s, t + [x])
    decreases |t|, 1
  {
    var t' := t + [x];
    assert t'[..|t'| - 1] == t;
    if s != [] && s[|s| - 1] == x {
      SubsequenceDrop(s, t);
    }
  }

  /** Dropping the last element of `s` keeps it a subsequence. */
  lemma {:induction false} SubsequenceDrop(s: seq<string>, t: seq<string>)
    requires s != [] && IsSubsequence(s, t)
    ensures IsSubsequence(s[..|s| - 1], t)
    decreases |t|, 0
  {
    var s' := s[..|s| - 1];
    var t' := t[..|t| - 1];
    var y := t[|t| - 1];
    assert t' + [y] == t;
    if s[|s| - 1] != y {
      SubsequenceDrop(s, t');
    }
    SubsequenceExtend(s', t', y);
  }

  /** Resolving a concatenation resolves each part in turn. */
  lemma {:induction false} ResolveAppend<V>(table: map<string, V>, a: seq<string>, b: seq<string>)
    ensures Resolve(table, a + b) == Resolve(table, a) + Resolve(table, b)
    decreases |b|
  {
    if b == [] {
      assert a + b == a;
    } else {
      var bp := b[..|b| - 1];
      assert (a + b)[..|a + b| - 1] == a + bp;
      assert (a + b)[|a + b| - 1] == b[|b| - 1];
      ResolveAppend(table, a, bp);
    }
  }

  /** When the table knows every reference, nothing is dropped. */
  lemma {:induction false} ResolveKnown<V>(table: map<string, V>, refs: seq<string>)
    requires forall i :: 0 <= i < |refs| ==> refs[i] in table
    ensures Names(Resolve(table, refs)) == refs
    decreases |refs|
  {
    if refs != [] {
      var p := refs[..|refs| - 1];
      ResolveKnown(table, p);
      assert Names(Resolve(table, refs)) == Names(Resolve(table, p)) + [refs[|refs| - 1]];
    }
  }

  // ---------------------------------------------------------------------------
  // Which features are kept

  /** Position of the first `x` in `s`, or `|s|` when there is none. */
  function IndexOf(s: seq<string>, x: string): (k: nat)
    ensures k <= |s|
    ensures k < |s| ==> s[k] == x
    ensures forall j :: 0 <= j < k ==> s[j] != x
    decreases |s|
  {
    if s == [] then 0 else if s[0] == x then 0 else 1 + IndexOf(s[1..], x)
  }

  /** The keys the accumulation visits: a prefix of `keys` that ends at, and
      includes, the first key equal to `version`, or all keys when none is. */
  function Included(keys: seq<string>, version: string): (r: seq<string>)
    ensures |r| <= |keys| && r == keys[..|r|]
    ensures version in keys ==> |r| > 0 && r[|r| - 1] == version && version !in r[..|r| - 1]
    ensures version !in keys ==> r == keys
  {
    var k := IndexOf(keys, version);
    if k < |keys| then keys[..k + 1] else keys
  }

  /** A key is kept exactly when it occurs no later than the first `version`,
      or, when `version` never occurs, whenever it is a key at all. */
  lemma IncludedMembers(keys: seq<string>, version: string, x: string)
    ensures x in Included(keys, version) <==>
      x in keys && (version !in keys || IndexOf(keys, x) <= IndexOf(keys, version))
  {
    var r := Included(keys, version);
    var kx := IndexOf(keys, x);
    if x in keys {
      assert kx < |keys|;
    }
    if x in r {
      var j :| 0 <= j < |r| && r[j] == x;
      assert keys[j] == x;
    }
    if x in keys && (version !in keys || kx <= IndexOf(keys, version)) {
      assert r[kx] == x;
    }
  }

  /** The walk that meets `version` first at position `i` visits the keys up to and including it. */
  lemma IncludedAt(keys: seq<string>, version: string, i: nat)
    requires i < |keys| && keys[i] == version
    requires forall j :: 0 <= j < i ==> keys[j] != version
    ensures Included(keys, version) == keys[..i + 1]
  {
  }

  /** A walk that never meets `version` visits every key. */
  lemma IncludedNone(keys: seq<string>, version: string)
    requires forall j :: 0 <= j < |keys| ==> keys[j] != version
    ensures Included(keys, version) == keys
  {
  }

  /** Every key the walk visits can be looked up. */
  lemma IncludedKeyed(index: FeatureIndex, version: string)
    requires Keyed(index)
    ensures forall i :: 0 <= i < |index.keys| ==> index.keys[i] in index.vals
    ensures forall i :: 0 <= i < |Included(index.keys, version)| ==> Included(index.keys, version)[i] in index.vals
  {
    var r := Included(index.keys, version);
    assert forall i :: 0 <= i < |r| ==> r[i] == index.keys[i];
  }

  /** One kept feature with its references resolved: the entries of
      `enums[key]` and `functions[key]`. */
  datatype Block = Block(number: string, enums: seq<(string, string)>, funcs: seq<(string, Signature)>)

  /** The block the loop builds for `key`. */
  function ResolveBlock(index: FeatureIndex, enums: EnumTable, funcs: CommandTable, key: string): Block
    requires key in index.vals
  {
    Block(key, Resolve(enums, index.vals[key].enumRefs), Resolve(funcs, index.vals[key].commandRefs))
  }

  /** The blocks of `keys`, in order. */
  function Walk(index: FeatureIndex, enums: EnumTable, funcs: CommandTable, keys: seq<string>): (r: seq<Block>)
    requires forall i :: 0 <= i < |keys| ==> keys[i] in index.vals
    ensures |r| == |keys|
    decreases |keys|
  {
    if keys == [] then []
    else Walk(index, enums, funcs, keys[..|keys| - 1]) + [ResolveBlock(index, enums, funcs, keys[|keys| - 1])]
  }

  /** The walk resolves each key in place: its `i`-th block is that of the `i`-th key. */
  lemma {:induction false} WalkBlocks(index: FeatureIndex, enums: EnumTable, funcs: CommandTable, keys: seq<string>)
    requires forall i :: 0 <= i < |keys| ==> keys[i] in index.vals
    ensures forall i :: 0 <= i < |keys| ==>
      Walk(index, enums, funcs, keys)[i] == ResolveBlock(index, enums, funcs, keys[i])
    decreases |keys|
  {
    if keys != [] {
      var p := keys[..|keys| - 1];
      assert forall i :: 0 <= i < |p| ==> p[i] == keys[i];
      WalkBlocks(index, enums, funcs, p);
    }
  }

  lemma WalkStep(index: FeatureIndex, enums: EnumTable, funcs: CommandTable, keys: seq<string>, i: nat)
    requires i < |keys| && forall j :: 0 <= j < |keys| ==> keys[j] in index.vals
    ensures Walk(index, enums, funcs, keys[..i + 1]) == Walk(index, enums, funcs, keys[..i]) + [ResolveBlock(index, enums, funcs, keys[i])]
  {
    assert keys[..i + 1][..i] == keys[..i];
  }

  /** `__filterFeatures`: walks the feature keys in order, resolving each
      block, and stops after the first key equal to `version`. */
  method FilterFeatures(index: FeatureIndex, enums: EnumTable, funcs: CommandTable, version: string)
    returns (blocks: seq<Block>)
    requires Keyed(index)
    ensures forall i :: 0 <= i < |Included(index.keys, version)| ==> Included(index.keys, version)[i] in index.vals
    ensures blocks == Walk(index, enums, funcs, Included(index.keys, version))
  {
    var keys := index.keys;
    IncludedKeyed(index, version);
    blocks := [];
    for i := 0 to |keys|
      invariant forall j :: 0 <= j < i ==> keys[j] != version
      invariant blocks == Walk(index, enums, funcs, keys[..i])
    {
      WalkStep(index, enums, funcs, keys, i);
      blocks := blocks + [ResolveBlock(index, enums, funcs, keys[i])];
      if keys[i] == version {
        IncludedAt(keys, version, i);
        return;
      }
    }
    IncludedNone(keys, version);
    assert keys[..|keys|] == keys;
  }

  /** What gengl's accumulation leaves: every parsed type string, whatever the
      version, next to the kept blocks. */
  datatype Surface = Surface(types: seq<string>, blocks: seq<Block>)

  /** gengl's `__filterFeatures`: the type list is taken whole, then the
      features are accumulated as above. */
  method FilterFeaturesWithTypes(types: seq<string>, index: FeatureIndex, enums: EnumTable, funcs: CommandTable, version: string)
    returns (s: Surface)
    requires Keyed(index)
    ensures forall i :: 0 <= i < |Included(index.keys, version)| ==> Included(index.keys, version)[i] in index.vals
    ensures s.types == types
    ensures s.blocks == Walk(index, enums, funcs, Included(index.keys, version))
  {
    var blocks := FilterFeatures(index, enums, funcs, version);
    s := Surface(types, blocks);
  }
}
