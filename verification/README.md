# File store and file tree of a browser code editor

This project models the state core of a small browser code editor:

- **The file store.** This is a flat map from absolute path to entry (`name`, `type` file/folder, optional `content`). Four reducers change it: `initialFiles`, `updateFileContent`, `addFiles` and `deleteFiles`.
- **The file tree's view data.** `getInitialDataFromStore` projects the store into one row per entry. Each row gets a string-derived `depth` and `parentPath`, plus the `hidden` and `expanded` flags. The comparator inside `sortTreeData` sorts the rows. The folder-toggle pass in `onNodeClick` rewrites `hidden` below a clicked folder.

Modules:

- `Optional` defines `Option`, used for JavaScript's "may be undefined".
- `Paths` holds the string operations the code relies on:
  - `split('/')` and `join('/')`;
  - `startsWith`;
  - JavaScript's `<` on strings, as lexicographic order by character;
  - the depth and parent-path derivations.

  Each has lemmas that relate it to an independent definition, for example `Join(Split(s)) == s`, and parent path equal to the text before the last `/`.
- `FileStore` holds the four reducers as total functions over `map<string, Entry>`. Each one applies its whole update or returns the store unchanged.
- `TreeNodes` holds the row datatype and the row built for one store entry.
- `TreeOrder` holds the comparator, with one lemma per branch. It proves antisymmetry on well-formed rows, and it proves that the comparator is **not** transitive and that it does **not** keep a folder's subtree contiguous. The engine's sort is replaced by an insertion sort, of which only "sorting permutes the rows" is relied on.
- `Projection` builds the tree's initial rows from the store. The order of `Object.keys` is left open: the projection takes any enumeration of the keys.
- `NodeClick` models `onNodeClick`, including the pass's `expandedRecord`. It characterises exactly which rows end up hidden after a collapse and after an expand.

Where the code does less than a reader of its names might expect, the model follows the code:

- The comparator is not a strict total order: it is not transitive (`TreeOrder.CompareNotTransitive`). Nor does it keep every folder's subtree contiguous (`TreeOrder.CompareSplitsSubtree`).
- `deleteFiles` never removes an entry that is present. It removes only paths that are already absent (see Findings).
- The modelled files contain no rename or move operation, no new-node placeholder and no persistence. In the tree component, the add and delete handlers (src/components/FileTree/index.tsx:119-121) have empty bodies. Renaming only marks a row as being edited (122-128), and confirming a new name only logs it (113-116).

## Model

| member | source | states |
|---|---|---|
| Paths.Split | src/components/FileTree/index.tsx:182 | `path.split('/')` yields one more part than there are separators, and no part contains a separator |
| Paths.JoinSplit | src/components/FileTree/index.tsx:182-188 | joining the parts of a split with `/` gives back the original string |
| Paths.SplitJoin | src/components/FileTree/index.tsx:182-188 | splitting the `/`-join of separator-free parts gives back exactly those parts |
| Paths.LessStrictTotal | src/components/FileTree/index.tsx:250 | on two different strings, JavaScript's `<` holds in exactly one direction |
| Paths.LessByFirstDifference | src/components/FileTree/index.tsx:214 | a string is smaller when it is a proper prefix of the other or has the smaller character at the first difference |
| Paths.LessHasFirstDifference | src/components/FileTree/index.tsx:214 | conversely, whenever `a < b`, `a` is a proper prefix of `b` or has the smaller character at the first difference; with the row above, `<` is exactly lexicographic order |
| Paths.LastSep | src/components/FileTree/index.tsx:186 | locates the last separator: a `/` with none after it, or -1 exactly when the string has no separator |
| Paths.DepthCountsSegments | src/components/FileTree/index.tsx:182-184 | `pathSplit.filter(Boolean).length` equals the number of maximal separator-free non-empty runs of the path |
| Paths.ParentPathIsDirname | src/components/FileTree/index.tsx:186-195 | popping the last part and re-joining, with `''` mapped to `/`, gives the text before the last `/`, or `/` when that is empty |
| Paths.CanonicalDepth | src/components/FileTree/index.tsx:184 | for a well-formed absolute path, the depth is its number of separators |
| Paths.CanonicalParent | src/components/FileTree/index.tsx:184-195 | a well-formed path has depth at least 1; its parent is `/` exactly at depth 1; otherwise the parent is well-formed and one level shallower |
| Paths.CanonicalSameParentSameName | src/components/FileTree/index.tsx:180-195 | two well-formed paths with the same parent and the same last segment are the same path |
| FileStore.InitialFiles | src/store/files/index.ts:36-44 | the payload replaces the store exactly when the store is empty; a non-empty store is kept |
| FileStore.InitialFilesAtMostOnce | src/store/files/index.ts:39-43 | once a non-empty payload has been loaded, any further load leaves the store as it is |
| FileStore.UpdateFileContent | src/store/files/index.ts:45-57 | an absent path changes nothing; otherwise only that entry's content becomes the new text, with its name, type and every other entry kept and the key set unchanged |
| FileStore.UpdateFileContentLastWins | src/store/files/index.ts:49-55 | two updates of the same path equal the second update alone |
| FileStore.UpdateFileContentCommutes | src/store/files/index.ts:49-55 | updates of different paths commute |
| FileStore.AddFiles | src/store/files/index.ts:58-70 | an empty payload, or one that overlaps the store, changes nothing; otherwise the keys are the union, old entries are kept and new ones come from the payload |
| FileStore.AddFilesIdempotent | src/store/files/index.ts:63-67 | adding the same payload twice equals adding it once |
| FileStore.DeleteFiles | src/store/files/index.ts:71-86 | as written, the store is returned unchanged for every list of paths |
| FileStore.DeleteFilesIntended | src/store/files/index.ts:71-86 | with the guard corrected: when every listed path exists, exactly those keys are removed and the rest are kept; a missing path changes nothing |
| FileStore.DeleteFilesKeepsPresentEntry | src/store/files/index.ts:75-83 | as written, deleting an existing path leaves it in the store; the corrected version removes it |
| FileStore.AddThenDeleteIntendedRestores | src/store/files/index.ts:58-86 | adding a fresh payload and then deleting its paths (corrected) restores the original store |
| TreeNodes.ToNode | src/components/FileTree/index.tsx:179-204 | a row copies name, type and path; its depth is the number of path segments, its parent is the dirname, it is hidden exactly when depth is not 1, and only folders carry `expanded`, set to false |
| TreeNodes.ToNodeTopLevelVisible | src/components/FileTree/index.tsx:184-196 | for a well-formed path, a fresh row is visible exactly when its parent is `/`, and it is one level deeper than its parent |
| TreeNodes.ToNodeWellFormed | src/components/FileTree/index.tsx:180-195 | a row built from a well-formed store entry has a well-formed path, a name equal to its last segment and a parent equal to its dirname |
| TreeOrder.Compare | src/components/FileTree/index.tsx:209-251 | the comparator always answers -1 or 1, never 0 |
| TreeOrder.NotMutuallyUnder | src/components/FileTree/index.tsx:215-218 | two different paths are never each inside the other, so the two nesting tests never both fire |
| TreeOrder.CompareSiblingFiles | src/components/FileTree/index.tsx:212-214 | files in the same folder are ordered by name, ascending, with opposite answers when the names differ |
| TreeOrder.CompareDeeperFileFirst | src/components/FileTree/index.tsx:215-218 | a file in a strictly deeper folder comes before a file in an enclosing folder, in both argument orders |
| TreeOrder.CompareFilesAntisymmetric | src/components/FileTree/index.tsx:212-221 | two files that differ in parent or name get opposite answers in the two argument orders |
| TreeOrder.CompareFolderFile | src/components/FileTree/index.tsx:223-247 | a folder precedes a file when they share a parent, the file is in the folder, or either encloses the other; otherwise the folder path is compared with the file's parent |
| TreeOrder.CompareMixedMirror | src/components/FileTree/index.tsx:223-247 | the folder/file and file/folder branches are mirror images: swapping the arguments flips the sign |
| TreeOrder.CompareFolderBeforeContainedFile | src/components/FileTree/index.tsx:226-231 | a folder comes before every file inside it at any depth |
| TreeOrder.CompareAntisymmetric | src/components/FileTree/index.tsx:209-251 | on rows built from well-formed entries with different paths, swapping the arguments flips the sign |
| TreeOrder.CompareSplitsSubtree | src/components/FileTree/index.tsx:250 | the folder `/test.d` sorts between `/test` and `/test/x`, so a folder's subtree is not contiguous |
| TreeOrder.CompareNotTransitive | src/components/FileTree/index.tsx:212-221 | three well-formed file rows form a cycle under the comparator |
| TreeOrder.FolderSubtreeContiguous | src/components/FileTree/index.tsx:250 | when no path character sorts below `/`, any folder placed between a folder and one of its descendants is also inside that folder |
| TreeOrder.Sort | src/components/FileTree/index.tsx:209-210 | sorting permutes the rows, and hence the multiset of their paths |
| Projection.KeysOf | src/components/FileTree/index.tsx:177 | `Object.keys` lists every store key exactly once and nothing else |
| Projection.Nodes | src/components/FileTree/index.tsx:179-204 | one row per listed key, in the listed order, each the row of that key's entry |
| Projection.Project | src/components/FileTree/index.tsx:176-207 | the rows' paths are a permutation of the enumerated keys: as many rows as entries, each entry's path exactly once, so every entry has a row; every row is the row of its own entry; no two rows share a path |
| Projection.InitialTreeData | src/components/FileTree/index.tsx:176-207 | every store path has a row, and every row carries its entry's name and type, segment depth, dirname parent, the top-level-visible flag and collapsed folders |
| Projection.RowsAntisymmetric | src/components/FileTree/index.tsx:209-251 | any rows built from distinct paths of a well-formed store get opposite comparator answers pairwise |
| Projection.ProjectAntisymmetric | src/components/FileTree/index.tsx:206-251 | on a well-formed store, every two different projected rows get opposite comparator answers |
| NodeClick.WalkFrame | src/components/FileTree/index.tsx:92-104 | the pass changes only `hidden`, and leaves every row outside the clicked folder untouched |
| NodeClick.OnNodeClick | src/components/FileTree/index.tsx:77-107 | the clicked path becomes selected; a file click changes no row; a folder click flips that folder's `expanded` and changes only `hidden` of rows strictly inside it |
| NodeClick.WalkHidden | src/components/FileTree/index.tsx:92-103 | each row inside the clicked folder ends hidden when collapsing, and when expanding exactly when an already-recorded enclosing folder is not expanded |
| NodeClick.RecordOfKeys | src/components/FileTree/index.tsx:101-103 | the record's keys are exactly the folders strictly inside the clicked one that were visited |
| NodeClick.RecordOfValues | src/components/FileTree/index.tsx:101-103 | with distinct paths, the record holds each visited inner folder's own `expanded` flag |
| NodeClick.RecordMatchesEarlierFolders | src/components/FileTree/index.tsx:99 | with distinct paths, the record test in the pass is "some earlier inner folder encloses the row and is not expanded" |
| NodeClick.ClickCollapseHides | src/components/FileTree/index.tsx:86-99 | collapsing a folder hides every row strictly inside it |
| NodeClick.ClickExpandReveals | src/components/FileTree/index.tsx:86-103 | expanding a folder hides a row strictly inside it exactly when an earlier inner folder encloses that row and is collapsed |
| NodeClick.SeparatorBoundary | src/components/FileTree/index.tsx:95 | the inside test respects the separator: `/test23` is not inside `/test2`, while `/test2/x` is |

## Left out

- React plumbing is not modelled: `useState`, the settings context, the `useEffect` that copies selection state, and the JSX rendering. State is passed in and returned as values.
- The in-place mutation in `onNodeClick` is not modelled. The code writes into row objects that the old array shares, and its closure reads a possibly stale `treeData`. The model returns new rows.
- The engine's `Array.prototype.sort` is not modelled. It is replaced by an insertion sort with the same comparator, and only "sorting permutes the rows" is claimed. The comparator is not a total order, so the engine's output order is not determined by the comparator alone.
- `Object.keys` order is left open. The projection takes any enumeration of the keys.
- The remaining handlers of the tree component are not modelled: `onNodeContextmenu`, `onNodeRename` (a console log), the empty `onClickAdd` and `onClickDelete`, `onClickRename` and `onClickOutsideContextmenu`. They only set UI selection state.
- Other files are not part of this model: `TreeNode.tsx`, the context menu, the editor panel, the Monaco editor wrapper, the layout components and the store setup. They do rendering and wiring only.
- Keys that JavaScript objects inherit from their prototype are not modelled. For example, `filesMap["constructor"]` is truthy on a plain object. The store is a map with no inherited keys.
- Characters are not UTF-16 code units. JavaScript compares strings by UTF-16 code unit; the model compares Dafny characters.
- Store entries are always truthy, so `Boolean(filesMap[path])` is modelled as key presence.
- TreeOrder.CompareAntisymmetric: requires rows built from well-formed store entries with different paths. Two rows with equal parent and name would both get 1.
- TreeOrder.FolderSubtreeContiguous: holds only for folder rows and paths with no character below `/`. `TreeOrder.CompareSplitsSubtree` shows that it fails without this restriction.
- TreeOrder.Sort: states permutation only, not sortedness. The comparator is not transitive (`TreeOrder.CompareNotTransitive`), so no total sortedness can be promised.
- NodeClick.ClickExpandReveals: requires distinct row paths. With duplicate paths, the record keeps only the last flag for a path. Rows from `Projection.Project` always have distinct paths.

## Findings

| source | as written | input that shows it | evidently intended | confidence | as-written member | corrected member |
|---|---|---|---|---|---|---|
| src/store/files/index.ts:76 | `deleteFiles` reuses the `addFiles` guard: it proceeds only when none of the listed paths exists, so it only ever deletes absent keys | `deleteFiles(["/index.ts"])` on a store holding `/index.ts` leaves the entry in place | proceed when every listed path exists, then remove exactly those paths | high; not executed | FileStore.DeleteFiles (exhibited by FileStore.DeleteFilesKeepsPresentEntry) | FileStore.DeleteFilesIntended (with FileStore.AddThenDeleteIntendedRestores) |
