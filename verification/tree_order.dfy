/** The comparator the tree sorts its rows with, and an insertion sort that
    uses it. The comparator aims at a folders-first pre-order flattening of
    the tree using only prefix-with-separator tests on path strings; the
    lemmas below state what each of its branches guarantees, and two of
    them show that, as written, it is neither transitive nor does it keep a
    folder's subtree contiguous in general. */
module TreeOrder {
  import opened Optional
  import opened Paths
  import opened FileStore
  import opened TreeNodes

  /** The prefix a path's descendants start with. The root `/` is its own
      prefix: no second separator is appended. */
  function SubtreePrefix(p: string): string {
    if p == Root then Root else p + [Separator]
  }

  /** `p` lies strictly inside the folder `q`, by prefix-with-separator. */
  predicate Under(p: string, q: string) {
    StartsWith(p, SubtreePrefix(q))
  }

  /** The sort comparator: a negative result puts `a` first. */
  function Compare(a: ViewNode, b: ViewNode): (r: int)
    ensures r == -1 || r == 1
  {
    if a.kind == File && b.kind == File then
      if a.parentPath == b.parentPath then (if Less(a.name, b.name) then -1 else 1)
      else if Under(a.parentPath, b.parentPath) then -1
      else if Under(b.parentPath, a.parentPath) then 1
      else if Less(a.parentPath, b.parentPath) then -1 else 1
    else if a.kind == Folder && b.kind == File then
      if a.parentPath == b.parentPath then -1
      else if a.path == b.parentPath then -1
      else if Under(a.path, b.parentPath) then -1
      else if Under(b.parentPath, a.path) then -1
      else if Less(a.path, b.parentPath) then -1 else 1
    else if a.kind == File && b.kind == Folder then
      if a.parentPath == b.parentPath then 1
      else if a.parentPath == b.path then 1
      else if Under(a.parentPath, b.path) then 1
      else if Under(b.path, a.parentPath) then 1
      else if Less(a.parentPath, b.path) then -1 else 1
    else
      if Less(a.path, b.path) then -1 else 1
  }

  /** Two different paths are never each inside the other. */
  lemma NotMutuallyUnder(p: string, q: string)
    requires p != q
    ensures !(Under(p, q) && Under(q, p))
  {
  }

  /** Sibling files are ordered by name, ascending. */
  lemma CompareSiblingFiles(a: ViewNode, b: ViewNode)
    requires a.kind == File && b.kind == File
    requires a.parentPath == b.parentPath
    ensures Compare(a, b) == -1 <==> Less(a.name, b.name)
    ensures a.name != b.name ==> Compare(b, a) == -Compare(a, b)
  {
    if a.name != b.name {
      LessStrictTotal(a.name, b.name);
    }
  }

  /** A folder comes before a file, and the file after the folder, when the
      file's folder is the folder's own parent, is the folder itself, lies
      inside the folder, or encloses the folder. Otherwise the two are
      ordered by the folder's path against the file's parent path. */
  lemma CompareFolderFile(a: ViewNode, b: ViewNode)
    requires a.kind == Folder && b.kind == File
    ensures var nested := a.parentPath == b.parentPath || a.path == b.parentPath
                          || Under(a.path, b.parentPath) || Under(b.parentPath, a.path);
            && (nested ==> Compare(a, b) == -1 && Compare(b, a) == 1)
            && (!nested ==> (Compare(a, b) == -1 <==> Less(a.path, b.parentPath)))
  {
  }

  /** The folder/file and file/folder branches are mirror images: swapping
      the arguments always flips the sign. */
  lemma CompareMixedMirror(a: ViewNode, b: ViewNode)
    requires a.kind == Folder && b.kind == File
    ensures Compare(a, b) == -Compare(b, a)
  {
    if a.path != b.parentPath {
      LessStrictTotal(a.path, b.parentPath);
    }
  }

  /** A folder comes before every file that lies inside it, at any depth. */
  lemma CompareFolderBeforeContainedFile(a: ViewNode, b: ViewNode)
    requires a.kind == Folder && b.kind == File
    requires b.parentPath == a.path || Under(b.parentPath, a.path)
    ensures Compare(a, b) == -1 && Compare(b, a) == 1
  {
    CompareFolderFile(a, b);
  }

  /** A file in a strictly deeper folder comes before a file in an
      enclosing folder. */
  lemma CompareDeeperFileFirst(a: ViewNode, b: ViewNode)
    requires a.kind == File && b.kind == File
    requires a.parentPath != b.parentPath && Under(a.parentPath, b.parentPath)
    ensures Compare(a, b) == -1 && Compare(b, a) == 1
  {
    NotMutuallyUnder(a.parentPath, b.parentPath);
  }

  /** Two files in different folders get opposite signs in the two orders. */
  lemma CompareFilesAntisymmetric(a: ViewNode, b: ViewNode)
    requires a.kind == File && b.kind == File
    requires a.parentPath != b.parentPath || a.name != b.name
    ensures Compare(a, b) == -Compare(b, a)
  {
    if a.parentPath == b.parentPath {
      CompareSiblingFiles(a, b);
    } else {
      NotMutuallyUnder(a.parentPath, b.parentPath);
      LessStrictTotal(a.parentPath, b.parentPath);
    }
  }

  /** On rows built from a well-formed store, the comparator is
      antisymmetric: swapping two different rows flips the sign. */
  lemma CompareAntisymmetric(a: ViewNode, b: ViewNode)
    requires WellFormedNode(a) && WellFormedNode(b)
    requires a.path != b.path
    ensures Compare(a, b) == -Compare(b, a)
  {
    if a.kind == File && b.kind == File {
      if a.parentPath == b.parentPath && a.name == b.name {
        CanonicalSameParentSameName(a.path, b.path);
      }
      CompareFilesAntisymmetric(a, b);
    } else if a.kind == Folder && b.kind == File {
      CompareMixedMirror(a, b);
    } else if a.kind == File && b.kind == Folder {
      CompareMixedMirror(b, a);
    } else {
      LessStrictTotal(a.path, b.path);
    }
  }

  function FolderNode(path: string, name: string, parentPath: string, depth: nat): ViewNode {
    ViewNode(depth, path, name, Folder, parentPath, depth != 1, Some(false))
  }

  function FileNode(path: string, name: string, parentPath: string, depth: nat): ViewNode {
    ViewNode(depth, path, name, File, parentPath, depth != 1, None)
  }

  /** The folder/folder fallback compares whole paths, and `.` sorts before
      `/`: the sibling folder `/test.d` falls between `/test` and its own
      subfolder `/test/x`, so the subtree of `/test` is not contiguous. */
  lemma CompareSplitsSubtree()
    ensures var t := FolderNode("/test", "test", "/", 1);
            var td := FolderNode("/test.d", "test.d", "/", 1);
            var tx := FolderNode("/test/x", "x", "/test", 2);
            && Compare(t, td) == -1 && Compare(td, tx) == -1
            && Under(tx.path, t.path) && !Under(td.path, t.path)
  {
    assert "/test"[..5] == "/test.d"[..5];
    LessByFirstDifference("/test", "/test.d", 5);
    assert "/test.d"[..5] == "/test/x"[..5] && "/test.d"[5] < "/test/x"[5];
    LessByFirstDifference("/test.d", "/test/x", 5);
    assert "/test/"[5] != "/test.d"[5];
  }

  /** The comparator is not transitive: three files form a cycle. */
  lemma CompareNotTransitive()
    ensures exists a: ViewNode, b: ViewNode, c: ViewNode ::
              && WellFormedNode(a) && WellFormedNode(b) && WellFormedNode(c)
              && Compare(a, b) == -1 && Compare(b, c) == -1 && Compare(c, a) == -1
  {
    var a := FileNode("/t.d/b", "b", "/t.d", 2);
    var b := FileNode("/t/x/a", "a", "/t/x", 3);
    var c := FileNode("/t/c", "c", "/t", 2);
    CycleFirstStep(a, b);
    CycleSecondStep(b, c);
    CycleThirdStep(c, a);
    CycleNodesWellFormed(a, b, c);
  }

  lemma CycleFirstStep(a: ViewNode, b: ViewNode)
    requires a == FileNode("/t.d/b", "b", "/t.d", 2)
    requires b == FileNode("/t/x/a", "a", "/t/x", 3)
    ensures Compare(a, b) == -1
  {
    assert "/t.d"[2] != "/t/x/"[2] && "/t/x"[2] != "/t.d/"[2];
    LessByFirstDifference("/t.d", "/t/x", 2);
  }

  lemma CycleSecondStep(b: ViewNode, c: ViewNode)
    requires b == FileNode("/t/x/a", "a", "/t/x", 3)
    requires c == FileNode("/t/c", "c", "/t", 2)
    ensures Compare(b, c) == -1
  {
    assert "/t/x"[..3] == "/t/";
  }

  lemma CycleThirdStep(c: ViewNode, a: ViewNode)
    requires c == FileNode("/t/c", "c", "/t", 2)
    requires a == FileNode("/t.d/b", "b", "/t.d", 2)
    ensures Compare(c, a) == -1
  {
    assert "/t.d"[2] != "/t/"[2];
    LessByFirstDifference("/t", "/t.d", 2);
  }

  lemma CycleNodesWellFormed(a: ViewNode, b: ViewNode, c: ViewNode)
    requires a == FileNode("/t.d/b", "b", "/t.d", 2)
    requires b == FileNode("/t/x/a", "a", "/t/x", 3)
    requires c == FileNode("/t/c", "c", "/t", 2)
    ensures WellFormedNode(a) && WellFormedNode(b) && WellFormedNode(c)
  {
    CycleNodeA();
    CycleNodeB();
    CycleNodeC();
  }

  lemma CycleNodeA()
    ensures WellFormedNode(FileNode("/t.d/b", "b", "/t.d", 2))
  {
    assert Canonical("/t.d/b") && LastSep("/t.d/b") == 4;
  }

  lemma CycleNodeB()
    ensures WellFormedNode(FileNode("/t/x/a", "a", "/t/x", 3))
  {
    assert Canonical("/t/x/a") && LastSep("/t/x/a") == 4;
  }

  lemma CycleNodeC()
    ensures WellFormedNode(FileNode("/t/c", "c", "/t", 2))
  {
    assert Canonical("/t/c") && LastSep("/t/c") == 2;
  }

  /** All characters are at or above the separator in code-point order. */
  predicate NoCharBelowSep(s: string) {
    forall i :: 0 <= i < |s| ==> s[i] >= Separator
  }

  lemma {:induction false} BetweenFolderAndDescendant(f: string, y: string, x: string)
    requires Less(f, y) && Less(y, x)
    requires StartsWith(x, f + [Separator])
    requires NoCharBelowSep(y)
    ensures StartsWith(y, f + [Separator])
    decreases |f|
  {
    if |f| == 0 {
      assert x[0] == '/';
      if y[0] != '/' {
        LessAsymmetric(y, x);
      }
    } else {
      assert x[0] == f[0];
      if y[0] != f[0] {
        assert false;
      }
      assert StartsWith(x[1..], f[1..] + [Separator]) by {
        assert (f + [Separator])[1..] == f[1..] + [Separator];
      }
      assert NoCharBelowSep(y[1..]) by {
        forall i | 0 <= i < |y[1..]|
          ensures y[1..][i] >= Separator
        {
          assert y[1..][i] == y[i + 1];
        }
      }
      BetweenFolderAndDescendant(f[1..], y[1..], x[1..]);
      assert f + [Separator] == [f[0]] + (f[1..] + [Separator]);
      assert y == [y[0]] + y[1..];
    }
  }

  /** Restricted to names without characters below `/`, the folder order is
      a pre-order: any folder the comparator places between a folder and
      one of its descendants lies inside that folder too. */
  lemma FolderSubtreeContiguous(f: ViewNode, y: ViewNode, x: ViewNode)
    requires f.kind == Folder && y.kind == Folder && x.kind == Folder
    requires Compare(f, y) == -1 && Compare(y, x) == -1
    requires StartsWith(x.path, f.path + [Separator])
    requires NoCharBelowSep(y.path)
    ensures StartsWith(y.path, f.path + [Separator])
  {
    BetweenFolderAndDescendant(f.path, y.path, x.path);
  }

  /** Position at which `x` is inserted into `s`: before the first row that
      `x` precedes, or at the end when there is none. */
  function InsertionIndex(x: ViewNode, s: seq<ViewNode>): (i: nat)
    ensures i <= |s|
    ensures forall j :: 0 <= j < i ==> Compare(x, s[j]) == 1
    ensures i < |s| ==> Compare(x, s[i]) == -1
    decreases |s|
  {
    if |s| == 0 then 0
    else if Compare(x, s[0]) == -1 then 0
    else 1 + InsertionIndex(x, s[1..])
  }

  /** Inserts `x` at its insertion index. */
  function Insert(x: ViewNode, s: seq<ViewNode>): (r: seq<ViewNode>)
    ensures multiset(r) == multiset(s) + multiset{x}
    ensures multiset(PathsOf(r)) == multiset(PathsOf(s)) + multiset{x.path}
  {
    var i := InsertionIndex(x, s);
    PathsOfSplice(s, i, x);
    s[..i] + [x] + s[i..]
  }

  lemma PathsOfSplice(s: seq<ViewNode>, i: nat, x: ViewNode)
    requires i <= |s|
    ensures multiset(s[..i] + [x] + s[i..]) == multiset(s) + multiset{x}
    ensures multiset(PathsOf(s[..i] + [x] + s[i..])) == multiset(PathsOf(s)) + multiset{x.path}
  {
    assert s == s[..i] + s[i..];
    var a := PathsOf(s[..i]);
    var b := PathsOf(s[i..]);
    assert PathsOf(s) == a + b;
    assert PathsOf(s[..i] + [x] + s[i..]) == a + [x.path] + b;
  }

  lemma SortStep(s: seq<ViewNode>)
    requires |s| > 0
    ensures multiset(s) == multiset(s[1..]) + multiset{s[0]}
    ensures multiset(PathsOf(s)) == multiset(PathsOf(s[1..])) + multiset{s[0].path}
  {
    assert s == [s[0]] + s[1..];
    PathsOfAppend([s[0]], s[1..]);
    assert PathsOf([s[0]]) == [s[0].path];
  }

  /** Insertion sort with the comparator. The engine's own sort is not
      modelled; only the fact that sorting permutes the rows is relied on. */
  function Sort(s: seq<ViewNode>): (r: seq<ViewNode>)
    ensures multiset(r) == multiset(s)
    ensures multiset(PathsOf(r)) == multiset(PathsOf(s))
    decreases |s|
  {
    if |s| == 0 then []
    else
      SortStep(s);
      Insert(s[0], Sort(s[1..]))
  }
}
