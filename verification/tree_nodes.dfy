/** The view nodes of the file tree: one row per store entry, carrying the
    string-derived `depth` and `parentPath` and the UI flags `hidden` and
    `expanded`. */
module TreeNodes {
  import opened Optional
  import opened Paths
  import opened FileStore

  /** A row of the tree. `expanded` is present for folders only. */
  datatype ViewNode = ViewNode(
    depth: nat,
    path: string,
    name: string,
    kind: Kind,
    parentPath: string,
    hidden: bool,
    expanded: Option<bool>)

  /** The row the tree first materialises for one store entry: depth and
      parent from the path string, hidden unless top-level, and folders
      collapsed. */
  function ToNode(path: string, e: Entry): (n: ViewNode)
    ensures n.path == path && n.name == e.name && n.kind == e.kind
    ensures n.depth == SegmentStarts(path, true)
    ensures n.parentPath == Dirname(path)
    ensures n.hidden <==> n.depth != 1
    ensures n.expanded == (if e.kind == Folder then Some(false) else None)
  {
    DepthCountsSegments(path);
    ParentPathIsDirname(path);
    var depth := Depth(path);
    ViewNode(depth, path, e.name, e.kind, ParentPath(path), depth != 1,
             if e.kind == Folder then Some(false) else None)
  }

  /** A row built from a well-formed store entry: a well-formed path, the
      name equal to its last segment and the parent equal to its dirname. */
  predicate WellFormedNode(n: ViewNode) {
    && Canonical(n.path)
    && n.name == Basename(n.path)
    && n.parentPath == Dirname(n.path)
  }

  /** For a well-formed path, a fresh row starts visible exactly when it
      sits directly under the root, and its depth is one more than its
      parent's (taking the root's depth as 0). */
  lemma ToNodeTopLevelVisible(path: string, e: Entry)
    requires Canonical(path)
    ensures !ToNode(path, e).hidden <==> ToNode(path, e).parentPath == Root
    ensures ToNode(path, e).parentPath != Root ==>
              ToNode(path, e).depth == Depth(ToNode(path, e).parentPath) + 1
  {
    CanonicalParent(path);
    ParentPathIsDirname(path);
  }

  lemma ToNodeWellFormed(files: Files, path: string)
    requires WellFormed(files) && path in files
    ensures WellFormedNode(ToNode(path, files[path]))
  {
  }

  /** The paths of a sequence of rows, in order. */
  function PathsOf(nodes: seq<ViewNode>): (r: seq<string>)
    ensures |r| == |nodes|
    ensures forall i :: 0 <= i < |nodes| ==> r[i] == nodes[i].path
  {
    seq(|nodes|, i requires 0 <= i < |nodes| => nodes[i].path)
  }

  lemma PathsOfAppend(a: seq<ViewNode>, b: seq<ViewNode>)
    ensures PathsOf(a + b) == PathsOf(a) + PathsOf(b)
  {
  }

  /** No two rows share a path. */
  predicate DistinctPaths(nodes: seq<ViewNode>) {
    forall i, j :: 0 <= i < j < |nodes| ==> nodes[i].path != nodes[j].path
  }
}
