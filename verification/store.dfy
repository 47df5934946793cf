/** The flat, path-keyed file store and its four reducers. The store maps an
    absolute path to an entry; folders and files live side by side and no
    intermediate folder is implied by a path. Every reducer either applies
    its whole update or leaves the store exactly as it was. */
module FileStore {
  import opened Optional
  import opened Paths

  datatype Kind = File | Folder

  /** One store record: `name`, `type` and the optional `content`. */
  datatype Entry = Entry(name: string, kind: Kind, content: Option<string>)

  type Files = map<string, Entry>

  /** Every key is a well-formed absolute path whose entry is named after
      the path's last segment, as in the shipped initial state. */
  predicate WellFormed(files: Files) {
    forall p :: p in files ==> Canonical(p) && files[p].name == Basename(p)
  }

  /** `initialFiles`: load a whole payload, but only into an empty store. */
  function InitialFiles(files: Files, payload: Files): (r: Files)
    ensures |files| == 0 ==> r == payload
    ensures |files| > 0 ==> r == files
  {
    if |files| == 0 then payload else files
  }

  /** Once a non-empty payload has been loaded, later loads change nothing. */
  lemma InitialFilesAtMostOnce(files: Files, first: Files, second: Files)
    requires |first| > 0
    ensures InitialFiles(InitialFiles(files, first), second) == InitialFiles(files, first)
  {
  }

  /** `updateFileContent`: replace the content of an existing entry. */
  function UpdateFileContent(files: Files, path: string, content: string): (r: Files)
    ensures path !in files ==> r == files
    ensures r.Keys == files.Keys
    ensures path in files ==>
              && r[path].content == Some(content)
              && r[path].name == files[path].name
              && r[path].kind == files[path].kind
    ensures forall p :: p in files && p != path ==> r[p] == files[p]
  {
    if path in files then files[path := files[path].(content := Some(content))] else files
  }

  /** A later content update of the same path overrides an earlier one. */
  lemma UpdateFileContentLastWins(files: Files, path: string, first: string, second: string)
    ensures UpdateFileContent(UpdateFileContent(files, path, first), path, second)
            == UpdateFileContent(files, path, second)
  {
  }

  /** Content updates of different paths commute. */
  lemma UpdateFileContentCommutes(files: Files, p: string, q: string, c: string, d: string)
    requires p != q
    ensures UpdateFileContent(UpdateFileContent(files, p, c), q, d)
            == UpdateFileContent(UpdateFileContent(files, q, d), p, c)
  {
  }

  /** The guard shared by `addFiles` and `deleteFiles`: none of the given
      paths is present in the store. */
  predicate NonePresent(files: Files, paths: set<string>) {
    forall p :: p in paths ==> p !in files
  }

  /** `addFiles`: merge a non-empty payload, all or nothing, refusing it as
      a whole when any of its paths already exists. */
  function AddFiles(files: Files, payload: Files): (r: Files)
    ensures |payload| == 0 ==> r == files
    ensures (exists p :: p in payload && p in files) ==> r == files
    ensures |payload| > 0 && payload.Keys !! files.Keys ==>
              && r.Keys == files.Keys + payload.Keys
              && (forall p :: p in files ==> r[p] == files[p])
              && (forall p :: p in payload ==> r[p] == payload[p])
  {
    if |payload| > 0 && NonePresent(files, payload.Keys) then files + payload else files
  }

  /** A payload that was accepted once is refused when added again. */
  lemma AddFilesIdempotent(files: Files, payload: Files)
    ensures AddFiles(AddFiles(files, payload), payload) == AddFiles(files, payload)
  {
    var added := AddFiles(files, payload);
    if |payload| > 0 && NonePresent(files, payload.Keys) {
      var p :| p in payload;
      assert p in added;
    }
  }

  /** `deleteFiles` as written: it goes ahead only when NONE of the listed
      paths exists (the guard is the one `addFiles` uses), so whatever it
      removes was never there. The store is always returned unchanged. */
  function DeleteFiles(files: Files, paths: seq<string>): (r: Files)
    ensures r == files
  {
    if |paths| > 0 && NonePresent(files, set p | p in paths) then
      files - (set p | p in paths)
    else
      files
  }

  /** The evidently intended `deleteFiles`: go ahead only when EVERY listed
      path exists, and then remove exactly those entries. */
  function DeleteFilesIntended(files: Files, paths: seq<string>): (r: Files)
    ensures (forall p :: p in paths ==> p in files) ==>
              && r.Keys == files.Keys - (set p | p in paths)
              && (forall p :: p in r ==> r[p] == files[p])
    ensures (exists p :: p in paths && p !in files) ==> r == files
  {
    if |paths| > 0 && (forall p :: p in paths ==> p in files) then
      files - (set p | p in paths)
    else
      files
  }

  /** As written, deleting an entry that exists leaves it in the store. */
  lemma DeleteFilesKeepsPresentEntry(files: Files, path: string)
    requires path in files
    ensures path in DeleteFiles(files, [path])
    ensures path !in DeleteFilesIntended(files, [path])
  {
  }

  /** Adding a payload and then deleting its paths with the intended
      `deleteFiles` restores the original store. */
  lemma AddThenDeleteIntendedRestores(files: Files, payload: Files, paths: seq<string>)
    requires |payload| > 0 && payload.Keys !! files.Keys
    requires (set p | p in paths) == payload.Keys
    ensures DeleteFilesIntended(AddFiles(files, payload), paths) == files
  {
    var added := AddFiles(files, payload);
    var removed := DeleteFilesIntended(added, paths);
    assert removed.Keys == files.Keys;
  }
}
