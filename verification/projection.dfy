/** The projection of the flat store into the tree's initial rows: one row
    per store key, sorted with the tree comparator. The order in which the
    keys are enumerated is the engine's (`Object.keys`) and is left open. */
module Projection {
  import opened Optional
  import opened Paths
  import opened FileStore
  import opened TreeNodes
  import opened TreeOrder

  predicate Distinct(s: seq<string>) {
    forall i, j :: 0 <= i < j < |s| ==> s[i] != s[j]
  }

  /** `keys` lists every key of `files` exactly once, in some order. */
  predicate Enumerates(keys: seq<string>, files: Files) {
    && Distinct(keys)
    && (forall k :: k in keys ==> k in files)
    && (forall k :: k in files ==> k in keys)
  }

  /** `Object.keys(files)`: the keys of the store, each once, in an order
      the model does not fix. */
  method KeysOf(files: Files) returns (keys: seq<string>)
    ensures Enumerates(keys, files)
  {
    keys := [];
    var rest := files.Keys;
    while rest != {}
      invariant rest <= files.Keys
      invariant Distinct(keys)
      invariant forall k :: k in keys <==> k in files && k !in rest
      decreases |rest|
    {
      var k :| k in rest;
      keys := keys + [k];
      rest := rest - {k};
    }
  }

  /** The unsorted rows, one per listed key, in the listed order. */
  function Nodes(files: Files, keys: seq<string>): (r: seq<ViewNode>)
    requires forall i :: 0 <= i < |keys| ==> keys[i] in files
    ensures |r| == |keys|
    ensures forall i :: 0 <= i < |keys| ==> r[i] == ToNode(keys[i], files[keys[i]])
    ensures PathsOf(r) == keys
  {
    var r := seq(|keys|, i requires 0 <= i < |keys| => ToNode(keys[i], files[keys[i]]));
    assert PathsOf(r) == keys;
    r
  }

  lemma {:induction false} DistinctCardinality(keys: seq<string>)
    requires Distinct(keys)
    ensures |set k | k in keys| == |keys|
    decreases |keys|
  {
    if |keys| > 0 {
      var init := keys[..|keys| - 1];
      var last := keys[|keys| - 1];
      DistinctCardinality(init);
      assert (set k | k in keys) == (set k | k in init) + {last};
      assert last !in (set k | k in init);
    }
  }

  lemma {:induction false} DistinctMultiplicity(keys: seq<string>, p: string)
    requires Distinct(keys) && p in keys
    ensures multiset(keys)[p] == 1
    decreases |keys|
  {
    assert keys == [keys[0]] + keys[1..];
    if keys[0] == p {
      assert p !in keys[1..];
    } else {
      DistinctMultiplicity(keys[1..], p);
    }
  }

  lemma RepeatedMultiplicity(s: seq<string>, i: nat, j: nat)
    requires i < j < |s| && s[i] == s[j]
    ensures multiset(s)[s[i]] >= 2
  {
    assert s == s[..j] + s[j..];
    assert s[i] in s[..j];
    assert s[j] in s[j..];
  }

  /** `getInitialDataFromStore` over a given enumeration of the keys: every
      store key yields exactly one row, every row comes from a store entry,
      and no two rows share a path. */
  function Project(files: Files, keys: seq<string>): (r: seq<ViewNode>)
    requires Enumerates(keys, files)
    ensures multiset(PathsOf(r)) == multiset(keys)
    ensures |r| == |files|
    ensures forall p :: p in files ==> multiset(PathsOf(r))[p] == 1
    ensures forall p :: p in files ==> exists i :: 0 <= i < |r| && r[i].path == p
    ensures forall i :: 0 <= i < |r| ==> r[i].path in files && r[i] == ToNode(r[i].path, files[r[i].path])
    ensures DistinctPaths(r)
  {
    var nodes := Nodes(files, keys);
    var r := Sort(nodes);
    PermutedCounts(files, keys, r);
    PermutedPlacement(files, keys, r);
    assert multiset(PathsOf(r)) == multiset(keys);
    PermutedRowsFromStore(files, keys, nodes, r);
    r
  }

  /** A reordering of an enumeration has one row per entry and each store
      path exactly once. */
  lemma PermutedCounts(files: Files, keys: seq<string>, r: seq<ViewNode>)
    requires Enumerates(keys, files)
    requires multiset(PathsOf(r)) == multiset(keys)
    ensures |r| == |files|
    ensures forall p :: p in files ==> multiset(PathsOf(r))[p] == 1
  {
    PermutedCount(files, keys, r);
    PermutedMultiplicity(files, keys, r);
  }

  /** A reordering of an enumeration has a row for every store path and no
      two rows with the same path. */
  lemma PermutedPlacement(files: Files, keys: seq<string>, r: seq<ViewNode>)
    requires Enumerates(keys, files)
    requires multiset(PathsOf(r)) == multiset(keys)
    ensures forall p :: p in files ==> exists i :: 0 <= i < |r| && r[i].path == p
    ensures DistinctPaths(r)
  {
    PermutedCovers(files, keys, r);
    PermutedDistinct(keys, r);
  }

  /** A reordering of the key list has one row per store entry. */
  lemma PermutedCount(files: Files, keys: seq<string>, r: seq<ViewNode>)
    requires Enumerates(keys, files)
    requires multiset(PathsOf(r)) == multiset(keys)
    ensures |r| == |files|
  {
    assert |r| == |PathsOf(r)| == |multiset(PathsOf(r))|;
    assert files.Keys == set k | k in keys;
    DistinctCardinality(keys);
  }

  lemma PermutedMultiplicity(files: Files, keys: seq<string>, r: seq<ViewNode>)
    requires Enumerates(keys, files)
    requires multiset(PathsOf(r)) == multiset(keys)
    ensures forall p :: p in files ==> multiset(PathsOf(r))[p] == 1
  {
    forall p | p in files
      ensures multiset(PathsOf(r))[p] == 1
    {
      DistinctMultiplicity(keys, p);
    }
  }

  lemma PermutedCovers(files: Files, keys: seq<string>, r: seq<ViewNode>)
    requires Enumerates(keys, files)
    requires multiset(PathsOf(r)) == multiset(keys)
    ensures forall p :: p in files ==> exists i :: 0 <= i < |r| && r[i].path == p
  {
    var paths := PathsOf(r);
    forall p | p in files
      ensures exists i :: 0 <= i < |r| && r[i].path == p
    {
      assert p in multiset(keys);
      assert p in paths;
      var i :| 0 <= i < |paths| && paths[i] == p;
      assert r[i].path == p;
    }
  }

  lemma PermutedRowsFromStore(files: Files, keys: seq<string>, nodes: seq<ViewNode>, r: seq<ViewNode>)
    requires forall j :: 0 <= j < |keys| ==> keys[j] in files
    requires |nodes| == |keys|
    requires forall j :: 0 <= j < |keys| ==> nodes[j] == ToNode(keys[j], files[keys[j]])
    requires multiset(r) == multiset(nodes)
    ensures forall i :: 0 <= i < |r| ==> r[i].path in files && r[i] == ToNode(r[i].path, files[r[i].path])
  {
    forall i | 0 <= i < |r|
      ensures r[i].path in files && r[i] == ToNode(r[i].path, files[r[i].path])
    {
      assert r[i] in multiset(nodes);
      var j :| 0 <= j < |nodes| && nodes[j] == r[i];
      assert r[i].path == keys[j];
    }
  }

  lemma PermutedDistinct(keys: seq<string>, r: seq<ViewNode>)
    requires Distinct(keys)
    requires multiset(PathsOf(r)) == multiset(keys)
    ensures DistinctPaths(r)
  {
    var paths := PathsOf(r);
    forall i, j | 0 <= i < j < |r|
      ensures r[i].path != r[j].path
    {
      if r[i].path == r[j].path {
        RepeatedMultiplicity(paths, i, j);
        assert paths[i] in multiset(keys);
        DistinctMultiplicity(keys, paths[i]);
        assert false;
      }
    }
  }

  /** The row the tree first shows for the store entry at `n.path`: name
      and type copied from it, depth the number of path segments, parent the
      path minus its last segment (`/` at the top), hidden exactly below the
      top level, folders collapsed and files without an expansion flag. */
  predicate FreshRow(files: Files, n: ViewNode) {
    && n.path in files
    && n.name == files[n.path].name
    && n.kind == files[n.path].kind
    && n.depth == SegmentStarts(n.path, true)
    && n.parentPath == Dirname(n.path)
    && (n.hidden <==> n.depth != 1)
    && n.expanded == (if n.kind == Folder then Some(false) else None)
  }

  /** `getInitialDataFromStore`: one fresh row per store entry, no two
      sharing a path. */
  method InitialTreeData(files: Files) returns (r: seq<ViewNode>)
    ensures |r| == |files| && DistinctPaths(r)
    ensures forall p :: p in files ==> exists i :: 0 <= i < |r| && r[i].path == p
    ensures forall i :: 0 <= i < |r| ==> FreshRow(files, r[i])
  {
    var keys := KeysOf(files);
    r := Project(files, keys);
    forall i | 0 <= i < |r|
      ensures FreshRow(files, r[i])
    {
      var n := r[i];
      assert n == ToNode(n.path, files[n.path]);
    }
  }

  /** On a well-formed store, any rows built from distinct store paths are
      ordered oppositely by the comparator in the two argument orders. */
  lemma RowsAntisymmetric(files: Files, r: seq<ViewNode>)
    requires WellFormed(files)
    requires forall i :: 0 <= i < |r| ==> r[i].path in files && r[i] == ToNode(r[i].path, files[r[i].path])
    requires DistinctPaths(r)
    ensures forall i, j :: 0 <= i < |r| && 0 <= j < |r| && i != j ==>
              Compare(r[i], r[j]) == -Compare(r[j], r[i])
  {
    forall i, j | 0 <= i < |r| && 0 <= j < |r| && i != j
      ensures Compare(r[i], r[j]) == -Compare(r[j], r[i])
    {
      ToNodeWellFormed(files, r[i].path);
      ToNodeWellFormed(files, r[j].path);
      CompareAntisymmetric(r[i], r[j]);
    }
  }

  /** The projected rows of a well-formed store are pairwise antisymmetric
      under the comparator. */
  lemma ProjectAntisymmetric(files: Files, keys: seq<string>)
    requires WellFormed(files) && Enumerates(keys, files)
    ensures var r := Project(files, keys);
            forall i, j :: 0 <= i < |r| && 0 <= j < |r| && i != j ==>
              Compare(r[i], r[j]) == -Compare(r[j], r[i])
  {
    var r := Project(files, keys);
    assert forall i :: 0 <= i < |r| ==> r[i].path in files && r[i] == ToNode(r[i].path, files[r[i].path]);
    RowsAntisymmetric(files, r);
  }
}
