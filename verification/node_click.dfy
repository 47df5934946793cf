/** The tree's click handler. Clicking a row selects its path; clicking a
    folder also flips its `expanded` flag and re-derives `hidden` for every
    row strictly inside that folder, in one left-to-right pass that records
    the expansion flag of each descendant folder it has already visited. */
module NodeClick {
  import opened Optional
  import opened Paths
  import opened FileStore
  import opened TreeNodes

  /** JavaScript truthiness of an optional flag: only a present `true`. */
  predicate Truthy(flag: Option<bool>) {
    flag == Some(true)
  }

  /** The pass rewrites a row only when its path differs from the clicked
      path and starts with the clicked path followed by `/`. */
  predicate InsideClicked(path: string, clickedPath: string) {
    !(path == clickedPath || !StartsWith(path, clickedPath + [Separator]))
  }

  /** The descendant folders whose flag the pass records. */
  predicate RecordedFolder(n: ViewNode, clickedPath: string) {
    InsideClicked(n.path, clickedPath) && n.kind == Folder
  }

  /** The pass's `expandedRecord`: folder path to its `expanded` flag. */
  type Record = map<string, Option<bool>>

  /** The record after visiting the rows `s`, left to right. */
  function RecordOf(s: seq<ViewNode>, clickedPath: string): Record
    decreases |s|
  {
    if |s| == 0 then map[]
    else
      var r := RecordOf(s[..|s| - 1], clickedPath);
      var n := s[|s| - 1];
      if RecordedFolder(n, clickedPath) then r[n.path := n.expanded] else r
  }

  /** Some recorded folder that encloses `path` is not expanded. */
  predicate HiddenByRecord(rec: Record, path: string) {
    exists p :: p in rec && StartsWith(path, p + [Separator]) && !Truthy(rec[p])
  }

  /** The `forEach` pass over the rows from position `j` on, with `rec` the
      record built so far. */
  function Walk(data: seq<ViewNode>, clickedPath: string, expanding: bool, j: nat, rec: Record)
    : (r: seq<ViewNode>)
    requires j <= |data|
    ensures |r| == |data| - j
    decreases |data| - j
  {
    if j == |data| then []
    else
      var n := data[j];
      if !InsideClicked(n.path, clickedPath) then
        [n] + Walk(data, clickedPath, expanding, j + 1, rec)
      else
        var updated := n.(hidden := if expanding then HiddenByRecord(rec, n.path) else true);
        var rec' := if n.kind == Folder then rec[n.path := n.expanded] else rec;
        [updated] + Walk(data, clickedPath, expanding, j + 1, rec')
  }

  /** Only `hidden` of rows inside the clicked folder is rewritten; every
      other row, and every other field, is kept. */
  lemma {:induction false} WalkFrame(data: seq<ViewNode>, clickedPath: string, expanding: bool,
                                     j: nat, rec: Record)
    requires j <= |data|
    ensures forall k :: 0 <= k < |data| - j ==>
              Walk(data, clickedPath, expanding, j, rec)[k]
                == data[j + k].(hidden := Walk(data, clickedPath, expanding, j, rec)[k].hidden)
    ensures forall k :: 0 <= k < |data| - j && !InsideClicked(data[j + k].path, clickedPath) ==>
              Walk(data, clickedPath, expanding, j, rec)[k] == data[j + k]
    decreases |data| - j
  {
    if j < |data| {
      var n := data[j];
      var rec' := if InsideClicked(n.path, clickedPath) && n.kind == Folder then rec[n.path := n.expanded] else rec;
      WalkFrame(data, clickedPath, expanding, j + 1, rec');
      var r := Walk(data, clickedPath, expanding, j, rec);
      var tail := Walk(data, clickedPath, expanding, j + 1, rec');
      assert r == [r[0]] + tail;
      assert r[0] == data[j].(hidden := r[0].hidden);
      forall k | 1 <= k < |r|
        ensures r[k] == tail[k - 1] && data[j + k] == data[(j + 1) + (k - 1)]
      {
      }
    }
  }

  /** What a click leaves behind: the selected path and the rows. */
  datatype Clicked = Clicked(selected: string, nodes: seq<ViewNode>)

  /** `onNodeClick(index, isFolder)`. A click on a file only selects it; a
      click on a folder also flips its flag and runs the pass. */
  function OnNodeClick(nodes: seq<ViewNode>, index: nat, isFolder: bool): (r: Clicked)
    requires index < |nodes|
    ensures r.selected == nodes[index].path
    ensures |r.nodes| == |nodes|
    ensures !isFolder ==> r.nodes == nodes
    ensures isFolder ==>
              r.nodes[index] == nodes[index].(expanded := Some(!Truthy(nodes[index].expanded)))
    ensures forall k :: 0 <= k < |nodes| && k != index && !InsideClicked(nodes[k].path, nodes[index].path) ==>
              r.nodes[k] == nodes[k]
    ensures forall k :: 0 <= k < |nodes| && k != index ==>
              r.nodes[k] == nodes[k].(hidden := r.nodes[k].hidden)
  {
    var clicked := nodes[index];
    if !isFolder then Clicked(clicked.path, nodes)
    else
      var expanding := !Truthy(clicked.expanded);
      var data := nodes[index := clicked.(expanded := Some(expanding))];
      FolderClickFrame(nodes, index);
      Clicked(clicked.path, Walk(data, clicked.path, expanding, 0, map[]))
  }

  /** The pass run by a folder click keeps the flipped folder row, every
      row outside the folder, and every field but `hidden`. */
  lemma FolderClickFrame(nodes: seq<ViewNode>, index: nat)
    requires index < |nodes|
    ensures var expanding := !Truthy(nodes[index].expanded);
            var data := nodes[index := nodes[index].(expanded := Some(expanding))];
            var w := Walk(data, nodes[index].path, expanding, 0, map[]);
            && |w| == |nodes|
            && w[index] == nodes[index].(expanded := Some(expanding))
            && (forall k :: 0 <= k < |nodes| && k != index && !InsideClicked(nodes[k].path, nodes[index].path) ==>
                  w[k] == nodes[k])
            && (forall k :: 0 <= k < |nodes| && k != index ==> w[k] == nodes[k].(hidden := w[k].hidden))
  {
    var cp := nodes[index].path;
    var expanding := !Truthy(nodes[index].expanded);
    var data := nodes[index := nodes[index].(expanded := Some(expanding))];
    var w := Walk(data, cp, expanding, 0, map[]);
    WalkFrame(data, cp, expanding, 0, map[]);
    assert data[0 + index] == data[index];
    forall k | 0 <= k < |nodes| && k != index
      ensures w[k] == nodes[k].(hidden := w[k].hidden)
      ensures !InsideClicked(nodes[k].path, cp) ==> w[k] == nodes[k]
    {
      assert data[0 + k] == nodes[k];
    }
  }

  /** The rows the pass rewrites, and whether it hides them: always when
      collapsing; when expanding, exactly when the record built from the
      rows before them holds a collapsed folder enclosing them. */
  lemma {:induction false} WalkHidden(data: seq<ViewNode>, clickedPath: string, expanding: bool,
                                      j: nat, rec: Record)
    requires j <= |data|
    requires rec == RecordOf(data[..j], clickedPath)
    ensures var r := Walk(data, clickedPath, expanding, j, rec);
            forall k :: j <= k < |data| && InsideClicked(data[k].path, clickedPath) ==>
              r[k - j].hidden == (expanding ==> HiddenByRecord(RecordOf(data[..k], clickedPath), data[k].path))
    decreases |data| - j
  {
    if j < |data| {
      var n := data[j];
      var rec' := if InsideClicked(n.path, clickedPath) && n.kind == Folder then rec[n.path := n.expanded] else rec;
      assert data[..j + 1][..j] == data[..j];
      assert RecordOf(data[..j + 1], clickedPath) == rec';
      WalkHidden(data, clickedPath, expanding, j + 1, rec');
      var r := Walk(data, clickedPath, expanding, j, rec);
      var tail := Walk(data, clickedPath, expanding, j + 1, rec');
      assert r[1..] == tail;
      forall k | j < k < |data| && InsideClicked(data[k].path, clickedPath)
        ensures r[k - j].hidden == (expanding ==> HiddenByRecord(RecordOf(data[..k], clickedPath), data[k].path))
      {
        assert r[k - j] == tail[k - (j + 1)];
      }
    }
  }

  /** Only folders strictly inside the clicked folder are ever recorded,
      and each of them is. */
  lemma {:induction false} RecordOfKeys(s: seq<ViewNode>, clickedPath: string)
    ensures forall p :: p in RecordOf(s, clickedPath) <==>
              exists i :: 0 <= i < |s| && RecordedFolder(s[i], clickedPath) && s[i].path == p
    decreases |s|
  {
    if |s| > 0 {
      var init := s[..|s| - 1];
      RecordOfKeys(init, clickedPath);
      forall p | p in RecordOf(s, clickedPath)
        ensures exists i :: 0 <= i < |s| && RecordedFolder(s[i], clickedPath) && s[i].path == p
      {
        if p in RecordOf(init, clickedPath) {
          var i :| 0 <= i < |init| && RecordedFolder(init[i], clickedPath) && init[i].path == p;
          assert s[i] == init[i];
        }
      }
      forall p | exists i :: 0 <= i < |s| && RecordedFolder(s[i], clickedPath) && s[i].path == p
        ensures p in RecordOf(s, clickedPath)
      {
        var i :| 0 <= i < |s| && RecordedFolder(s[i], clickedPath) && s[i].path == p;
        if i < |s| - 1 {
          assert init[i] == s[i];
        }
      }
    }
  }

  /** With distinct paths, the record holds each recorded folder's own flag. */
  lemma {:induction false} RecordOfValues(s: seq<ViewNode>, clickedPath: string)
    requires DistinctPaths(s)
    ensures forall i :: 0 <= i < |s| && RecordedFolder(s[i], clickedPath) ==>
              s[i].path in RecordOf(s, clickedPath) && RecordOf(s, clickedPath)[s[i].path] == s[i].expanded
    decreases |s|
  {
    if |s| > 0 {
      var init := s[..|s| - 1];
      assert DistinctPaths(init);
      RecordOfValues(init, clickedPath);
      forall i | 0 <= i < |s| && RecordedFolder(s[i], clickedPath)
        ensures s[i].path in RecordOf(s, clickedPath) && RecordOf(s, clickedPath)[s[i].path] == s[i].expanded
      {
        if i < |s| - 1 {
          assert init[i] == s[i];
          assert s[i].path != s[|s| - 1].path;
        }
      }
    }
  }

  /** A folder click runs the pass over the rows with the clicked folder's
      flag already flipped, starting from an empty record. */
  lemma OnNodeClickRunsWalk(nodes: seq<ViewNode>, index: nat)
    requires index < |nodes|
    ensures var expanding := !Truthy(nodes[index].expanded);
            var data := nodes[index := nodes[index].(expanded := Some(expanding))];
            && OnNodeClick(nodes, index, true).nodes == Walk(data, nodes[index].path, expanding, 0, map[])
            && (forall k :: 0 <= k < |nodes| ==> data[k].path == nodes[k].path)
  {
  }

  /** A collapsing pass hides every row it rewrites, whatever the record. */
  lemma {:induction false} WalkCollapseHides(data: seq<ViewNode>, clickedPath: string, j: nat, rec: Record)
    requires j <= |data|
    ensures var r := Walk(data, clickedPath, false, j, rec);
            forall k :: j <= k < |data| && InsideClicked(data[k].path, clickedPath) ==> r[k - j].hidden
    decreases |data| - j
  {
    if j < |data| {
      var n := data[j];
      var rec' := if InsideClicked(n.path, clickedPath) && n.kind == Folder then rec[n.path := n.expanded] else rec;
      WalkCollapseHides(data, clickedPath, j + 1, rec');
      var r := Walk(data, clickedPath, false, j, rec);
      var tail := Walk(data, clickedPath, false, j + 1, rec');
      assert r[1..] == tail;
      forall k | j < k < |data| && InsideClicked(data[k].path, clickedPath)
        ensures r[k - j].hidden
      {
        assert r[k - j] == tail[k - (j + 1)];
      }
    }
  }

  /** Collapsing a folder hides every row strictly inside it. */
  lemma {:induction false} ClickCollapseHides(nodes: seq<ViewNode>, index: nat)
    requires index < |nodes|
    requires Truthy(nodes[index].expanded)
    ensures var r := OnNodeClick(nodes, index, true).nodes;
            forall k :: 0 <= k < |nodes| && InsideClicked(nodes[k].path, nodes[index].path) ==>
              r[k].hidden
  {
    var cp := nodes[index].path;
    var data := nodes[index := nodes[index].(expanded := Some(false))];
    var w := Walk(data, cp, false, 0, map[]);
    OnNodeClickRunsWalk(nodes, index);
    assert OnNodeClick(nodes, index, true).nodes == w;
    WalkCollapseHides(data, cp, 0, map[]);
    forall k | 0 <= k < |nodes| && InsideClicked(nodes[k].path, cp)
      ensures w[k].hidden
    {
      assert data[k].path == nodes[k].path;
      assert w[k - 0] == w[k];
    }
  }

  /** A collapsed, enclosing folder among the rows before position `k`
      that the pass visits. */
  predicate CollapsedFolderBefore(nodes: seq<ViewNode>, k: nat, clickedPath: string)
    requires k < |nodes|
  {
    exists i :: 0 <= i < k && RecordedFolder(nodes[i], clickedPath)
                && StartsWith(nodes[k].path, nodes[i].path + [Separator])
                && !Truthy(nodes[i].expanded)
  }

  /** Expanding a folder shows a row strictly inside it unless an earlier
      row is a folder strictly inside the clicked one, encloses the row, and
      is itself collapsed. */
  lemma {:induction false} ClickExpandReveals(nodes: seq<ViewNode>, index: nat)
    requires index < |nodes|
    requires !Truthy(nodes[index].expanded)
    requires DistinctPaths(nodes)
    ensures var r := OnNodeClick(nodes, index, true).nodes;
            forall k :: 0 <= k < |nodes| && InsideClicked(nodes[k].path, nodes[index].path) ==>
              (r[k].hidden <==> CollapsedFolderBefore(nodes, k, nodes[index].path))
  {
    var cp := nodes[index].path;
    var data := nodes[index := nodes[index].(expanded := Some(true))];
    OnNodeClickRunsWalk(nodes, index);
    assert data[..0] == [];
    WalkHidden(data, cp, true, 0, map[]);
    forall k | 0 <= k < |nodes| && InsideClicked(nodes[k].path, cp)
      ensures Walk(data, cp, true, 0, map[])[k].hidden <==> CollapsedFolderBefore(nodes, k, cp)
    {
      ExpandRow(nodes, index, k);
    }
  }

  /** One row of the expanding pass: the record test on the flipped rows
      is the earlier-collapsed-folder test on the original rows. */
  lemma ExpandRow(nodes: seq<ViewNode>, index: nat, k: nat)
    requires index < |nodes| && k < |nodes|
    requires DistinctPaths(nodes)
    requires InsideClicked(nodes[k].path, nodes[index].path)
    requires var data := nodes[index := nodes[index].(expanded := Some(true))];
             Walk(data, nodes[index].path, true, 0, map[])[k].hidden
               == HiddenByRecord(RecordOf(data[..k], nodes[index].path), data[k].path)
    ensures var data := nodes[index := nodes[index].(expanded := Some(true))];
            var hidden := Walk(data, nodes[index].path, true, 0, map[])[k].hidden;
            hidden <==> CollapsedFolderBefore(nodes, k, nodes[index].path)
  {
    var data := nodes[index := nodes[index].(expanded := Some(true))];
    assert data[k] == nodes[k];
    RecordMatchesEarlierFolders(nodes, index, k);
  }

  /** Before position `k`, the record of the expanding pass holds a
      collapsed folder enclosing row `k` exactly when such a folder row
      precedes it. */
  lemma {:induction false} RecordMatchesEarlierFolders(nodes: seq<ViewNode>, index: nat, k: nat)
    requires index < |nodes| && k < |nodes|
    requires DistinctPaths(nodes)
    ensures var cp := nodes[index].path;
            var data := nodes[index := nodes[index].(expanded := Some(true))];
            HiddenByRecord(RecordOf(data[..k], cp), nodes[k].path) <==> CollapsedFolderBefore(nodes, k, cp)
  {
    var cp := nodes[index].path;
    var data := nodes[index := nodes[index].(expanded := Some(true))];
    var prefix := data[..k];
    var rec := RecordOf(prefix, cp);
    assert DistinctPaths(prefix) by {
      forall i, j | 0 <= i < j < |prefix|
        ensures prefix[i].path != prefix[j].path
      {
        assert prefix[i].path == nodes[i].path && prefix[j].path == nodes[j].path;
      }
    }
    RecordOfKeys(prefix, cp);
    RecordOfValues(prefix, cp);
    if HiddenByRecord(rec, nodes[k].path) {
      var p :| p in rec && StartsWith(nodes[k].path, p + [Separator]) && !Truthy(rec[p]);
      var i :| 0 <= i < |prefix| && RecordedFolder(prefix[i], cp) && prefix[i].path == p;
      assert prefix[i] == nodes[i];
      assert CollapsedFolderBefore(nodes, k, cp);
    }
    if CollapsedFolderBefore(nodes, k, cp) {
      var i :| 0 <= i < k && RecordedFolder(nodes[i], cp)
               && StartsWith(nodes[k].path, nodes[i].path + [Separator]) && !Truthy(nodes[i].expanded);
      assert prefix[i] == nodes[i];
      assert HiddenByRecord(rec, nodes[k].path);
    }
  }

  /** `/test23` is not inside `/test2`: the separator is part of the test. */
  lemma SeparatorBoundary()
    ensures !InsideClicked("/test23", "/test2")
    ensures InsideClicked("/test2/x", "/test2")
  {
    assert "/test23"[6] != "/test2/"[6];
  }
}
