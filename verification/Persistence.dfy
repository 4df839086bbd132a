/** Writing an imported tree into the graph store and reading it back. */
module Persistence {
  import opened Wrappers
  import opened Bytes
  import opened Sequences
  import opened ExactTree
  import opened GraphStore

  /** The content hash, the canonical serialization and the revision hash, as given functions. */
  datatype Encoders = Encoders(
    contentHash: seq<byte> -> string,
    sourceText: ExactArtifact -> string,
    revisionHash: RevisionContent -> string)

  // ---- The series of writes ----

  /** The part of a path after the last slash. */
  function FileName(path: string): string {
    if path == [] || path[|path| - 1] == '/' then []
    else FileName(path[..|path| - 1]) + [path[|path| - 1]]
  }

  function NodeWrites(f: ImportedFile, enc: Encoders): seq<Record> {
    var a := f.artifact;
    var content := RevisionContent(a.procedureId, enc.sourceText(a));
    var revision := enc.revisionHash(content);
    (if a.isSymlink then [] else [Node(BlobKey(enc.contentHash(f.blob)), BlobNode(f.blob))])
    + [Node(ExactArtifactKey(a.procedureId), ExactArtifactNode(a)),
       Node(ArtifactKey(a.procedureId, a.blob), ArtifactNode(a.procedureId, a)),
       Node(RevisionDetailKey(revision), RevisionNode(content)),
       Node(ProcedureKey(a.procedureId),
            ProcedureNode(ProcedureRecord(a.procedureId, FileName(a.originalPath), a.originalPath, revision)))]
  }

  function FileEdge(repository: string, f: ImportedFile): Record {
    Edge(RepositoryKey(repository), ContainsProcedure, ProcedureKey(f.artifact.procedureId))
  }

  /** The containment edge comes last. */
  function FileWrites(repository: string, f: ImportedFile, enc: Encoders): seq<Record> {
    NodeWrites(f, enc) + [FileEdge(repository, f)]
  }

  function DirectoriesWrites(repository: string, paths: seq<string>): seq<Record> {
    if paths == [] then [] else DirectoryWrites(repository, paths[0]) + DirectoriesWrites(repository, paths[1..])
  }

  function FilesWrites(repository: string, files: seq<ImportedFile>, enc: Encoders): seq<Record> {
    if files == [] then [] else FileWrites(repository, files[0], enc) + FilesWrites(repository, files[1..], enc)
  }

  function TreeWrites(repository: string, t: ImportedTree, enc: Encoders): seq<Record> {
    DirectoriesWrites(repository, t.directories) + FilesWrites(repository, t.files, enc)
  }

  // ---- Reading back ----

  function ProcedureIdFromKey(key: string): Option<string> {
    if |key| >= 10 && key[..10] == "procedure:" && IsIdText(key[10..]) then Some(key[10..]) else None
  }

  /** The files the procedure keys name; `None` is one of the two panics. */
  ghost function ReadFiles(db: Db, keys: seq<string>): Option<seq<ImportedFile>> {
    if keys == [] then Some([])
    else
      match ProcedureIdFromKey(keys[0])
      case None => None
      case Some(id) =>
        match GetNode(db, ExactArtifactKey(id))
        case Some(ExactArtifactNode(a)) =>
          var blob: Option<GraphNode> := if a.isSymlink then Some(BlobNode([])) else GetNode(db, BlobKey(a.blob));
          (match blob
           case Some(BlobNode(bytes)) =>
             (match ReadFiles(db, keys[1..])
              case None => None
              case Some(rest) => Some([ImportedFile(a, bytes)] + rest))
           case _ => None)
        case _ => ReadFiles(db, keys[1..])
  }

  ghost function Materialized(db: Db, repository: string): Option<ImportedTree> {
    match ReadFiles(db, Children(db, RepositoryKey(repository), ContainsProcedure))
    case None => None
    case Some(files) => Some(Canonicalize(ImportedTree(EmptyDirectories(db, repository), files)))
  }

  // ---- The two operations ----

  method PersistImportedFile(store: Store, repository: string, file: ImportedFile, enc: Encoders)
    requires store.Valid()
    modifies store
    ensures store.Valid() && store.db == PutAll(old(store.db), FileWrites(repository, file, enc))
  {
    var a := file.artifact;
    ghost var ws := FileWrites(repository, file, enc);
    ghost var n := 0;
    if !a.isSymlink {
      store.PutRecord(Node(BlobKey(enc.contentHash(file.blob)), BlobNode(file.blob)));
      n := 1;
      Step(old(store.db), ws, 0);
    }
    store.PutRecord(Node(ExactArtifactKey(a.procedureId), ExactArtifactNode(a)));
    Step(old(store.db), ws, n);
    store.PutRecord(Node(ArtifactKey(a.procedureId, a.blob), ArtifactNode(a.procedureId, a)));
    Step(old(store.db), ws, n + 1);
    var content := RevisionContent(a.procedureId, enc.sourceText(a));
    var revision := enc.revisionHash(content);
    store.PutRecord(Node(RevisionDetailKey(revision), RevisionNode(content)));
    Step(old(store.db), ws, n + 2);
    var name := FileName(a.originalPath);
    store.PutRecord(Node(ProcedureKey(a.procedureId),
                         ProcedureNode(ProcedureRecord(a.procedureId, name, a.originalPath, revision))));
    Step(old(store.db), ws, n + 3);
    store.PutRecord(Edge(RepositoryKey(repository), ContainsProcedure, ProcedureKey(a.procedureId)));
    Step(old(store.db), ws, n + 4);
    assert ws[..n + 5] == ws;
  }

  lemma Step(db: Db, ws: seq<Record>, k: nat)
    requires k < |ws|
    ensures PutAll(db, ws[..k + 1]) == Put(PutAll(db, ws[..k]), ws[k])
  {
    PutAllConcat(db, ws[..k], [ws[k]]);
    assert ws[..k + 1] == ws[..k] + [ws[k]];
    assert PutAll(PutAll(db, ws[..k]), [ws[k]]) == PutAll(Put(PutAll(db, ws[..k]), ws[k]), [ws[k]][1..]);
  }

  lemma NextDirectory(db: Db, repository: string, paths: seq<string>, i: nat)
    requires i < |paths|
    ensures PutAll(db, DirectoriesWrites(repository, paths[i..]))
         == PutAll(PutAll(db, DirectoryWrites(repository, paths[i])), DirectoriesWrites(repository, paths[i + 1..]))
  {
    assert paths[i..][0] == paths[i] && paths[i..][1..] == paths[i + 1..];
    PutAllConcat(db, DirectoryWrites(repository, paths[i]), DirectoriesWrites(repository, paths[i + 1..]));
  }

  lemma NextFile(db: Db, repository: string, files: seq<ImportedFile>, enc: Encoders, i: nat)
    requires i < |files|
    ensures PutAll(db, FilesWrites(repository, files[i..], enc))
         == PutAll(PutAll(db, FileWrites(repository, files[i], enc)), FilesWrites(repository, files[i + 1..], enc))
  {
    assert files[i..][0] == files[i] && files[i..][1..] == files[i + 1..];
    PutAllConcat(db, FileWrites(repository, files[i], enc), FilesWrites(repository, files[i + 1..], enc));
  }

  method PersistImportedTree(store: Store, repository: string, tree: ImportedTree, enc: Encoders)
    requires store.Valid()
    modifies store
    ensures store.Valid() && store.db == PutAll(old(store.db), TreeWrites(repository, tree, enc))
  {
    ghost var before, goal := store.db, PutAll(store.db, TreeWrites(repository, tree, enc));
    PutAllConcat(before, DirectoriesWrites(repository, tree.directories), FilesWrites(repository, tree.files, enc));
    assert tree.directories[0..] == tree.directories && tree.files[0..] == tree.files;
    for i := 0 to |tree.directories|
      invariant store.Valid()
      invariant PutAll(store.db, DirectoriesWrites(repository, tree.directories[i..]))
             == PutAll(before, DirectoriesWrites(repository, tree.directories))
    {
      var path := tree.directories[i];
      NextDirectory(store.db, repository, tree.directories, i);
      store.PutEmptyDirectory(repository, path);
    }
    assert tree.directories[|tree.directories|..] == [];
    for i := 0 to |tree.files|
      invariant store.Valid()
      invariant PutAll(store.db, FilesWrites(repository, tree.files[i..], enc)) == goal
    {
      var file := tree.files[i];
      NextFile(store.db, repository, tree.files, enc, i);
      PersistImportedFile(store, repository, file, enc);
    }
    assert tree.files[|tree.files|..] == [];
  }

  ghost function PrependFiles(files: seq<ImportedFile>, rest: Option<seq<ImportedFile>>): Option<seq<ImportedFile>> {
    match rest
    case None => None
    case Some(tail) => Some(files + tail)
  }

  lemma PrependEmpty(rest: Option<seq<ImportedFile>>)
    ensures PrependFiles([], rest) == rest
  {
    if rest.Some? { assert [] + rest.value == rest.value; }
  }

  lemma PrependStep(files: seq<ImportedFile>, f: ImportedFile, rest: Option<seq<ImportedFile>>)
    ensures PrependFiles(files, PrependFiles([f], rest)) == PrependFiles(files + [f], rest)
  {
    if rest.Some? { assert files + ([f] + rest.value) == files + [f] + rest.value; }
  }

  method MaterializeFromStore(store: Store, repository: string) returns (tree: Option<ImportedTree>)
    requires store.Valid()
    ensures tree == Materialized(store.db, repository)
  {
    var directories := store.GetEmptyDirectories(repository);
    var keys := store.GetChildren(RepositoryKey(repository), ContainsProcedure);
    var files := [];
    ghost var all := ReadFiles(store.db, keys);
    assert keys[0..] == keys;
    PrependEmpty(all);
    for i := 0 to |keys|
      invariant all == PrependFiles(files, ReadFiles(store.db, keys[i..]))
    {
      assert keys[i..][0] == keys[i] && keys[i..][1..] == keys[i + 1..];
      var id := ProcedureIdFromKey(keys[i]);
      if id.None? { return None; }
      var node := store.ReadNode(ExactArtifactKey(id.value));
      if node.None? || !node.value.ExactArtifactNode? { continue; }
      var a := node.value.exact;
      var blob: seq<byte> := [];
      if !a.isSymlink {
        var found := store.ReadNode(BlobKey(a.blob));
        if found.None? || !found.value.BlobNode? { return None; }
        blob := found.value.bytes;
      }
      PrependStep(files, ImportedFile(a, blob), ReadFiles(store.db, keys[i + 1..]));
      files := files + [ImportedFile(a, blob)];
    }
    assert keys[|keys|..] == [] && files + [] == files;
    return Some(Canonicalize(ImportedTree(directories, files)));
  }

  // ---- What the store holds while a tree is being written ----

  /** Distinct directories and ids, content stored under its own hash, and no colliding contents. */
  ghost predicate Storable(t: ImportedTree, enc: Encoders) {
    && NoDuplicates(t.directories) && NoDuplicates(t.files)
    && (forall f, g :: f in t.files && g in t.files && f.artifact.procedureId == g.artifact.procedureId ==> f == g)
    && (forall f :: f in t.files ==> IsIdText(f.artifact.procedureId))
    && (forall f :: f in t.files && f.artifact.isSymlink ==> f.blob == [])
    && (forall f :: f in t.files && !f.artifact.isSymlink ==> f.artifact.blob == enc.contentHash(f.blob))
    && NoCollision(t.files, t.files, enc)
  }

  /** And no two files of one path. */
  ghost predicate GoodTree(t: ImportedTree, enc: Encoders) { Storable(t, enc) && DistinctFilePaths(t.files) }

  ghost predicate NoCollision(fs: seq<ImportedFile>, gs: seq<ImportedFile>, enc: Encoders) {
    forall f, g :: f in fs && g in gs && enc.contentHash(f.blob) == enc.contentHash(g.blob) ==> f.blob == g.blob
  }

  ghost predicate FilePresent(db: Db, repository: string, f: ImportedFile) {
    ProcedureKey(f.artifact.procedureId) in ChildSet(db, RepositoryKey(repository), ContainsProcedure)
  }

  ghost predicate FileStored(db: Db, f: ImportedFile) {
    && GetNode(db, ExactArtifactKey(f.artifact.procedureId)) == Some(ExactArtifactNode(f.artifact))
    && (!f.artifact.isSymlink ==> GetNode(db, BlobKey(f.artifact.blob)) == Some(BlobNode(f.blob)))
  }

  ghost predicate DirectoryPresent(db: Db, repository: string, path: string) {
    && EmptyDirectoryKey(repository, path) in ChildSet(db, RepositoryKey(repository), ContainsEmptyDirectory)
    && GetNode(db, EmptyDirectoryKey(repository, path)) == Some(EmptyDirectoryNode(repository, path))
  }

  /** Only the tree's own edges; behind every file edge the file's nodes; no foreign directory node. */
  ghost predicate Partial(db: Db, repository: string, t: ImportedTree) {
    && WellKeyed(db)
    && (forall c :: c in ChildSet(db, RepositoryKey(repository), ContainsProcedure) ==>
          exists f :: f in t.files && c == ProcedureKey(f.artifact.procedureId))
    && (forall c :: c in ChildSet(db, RepositoryKey(repository), ContainsEmptyDirectory) ==>
          exists p :: p in t.directories && c == EmptyDirectoryKey(repository, p))
    && (forall f :: f in t.files && FilePresent(db, repository, f) ==> FileStored(db, f))
    && (forall p :: p in t.directories ==>
          GetNode(db, EmptyDirectoryKey(repository, p)) in {None, Some(EmptyDirectoryNode(repository, p))})
  }

  /** A store that holds nothing for the repository. */
  ghost predicate Fresh(db: Db, repository: string, t: ImportedTree) {
    && WellKeyed(db)
    && ChildSet(db, RepositoryKey(repository), ContainsProcedure) == {}
    && ChildSet(db, RepositoryKey(repository), ContainsEmptyDirectory) == {}
    && forall p :: p in t.directories ==> GetNode(db, EmptyDirectoryKey(repository, p)).None?
  }

  /** The later state is again partial and has lost nothing. */
  ghost predicate Keeps(db: Db, db': Db, repository: string, t: ImportedTree) {
    && Partial(db', repository, t)
    && (forall f :: f in t.files && FilePresent(db, repository, f) ==> FilePresent(db', repository, f))
    && (forall p :: p in t.directories && DirectoryPresent(db, repository, p) ==> DirectoryPresent(db', repository, p))
  }

  /** A node record that, if it lands on one of the tree's keys, says what the tree says there. */
  ghost predicate Agrees(r: Record, repository: string, t: ImportedTree) {
    && r.Node?
    && (forall f :: f in t.files && r.key == ExactArtifactKey(f.artifact.procedureId) ==>
          r.node == ExactArtifactNode(f.artifact))
    && (forall f :: f in t.files && !f.artifact.isSymlink && r.key == BlobKey(f.artifact.blob) ==>
          r.node == BlobNode(f.blob))
    && (forall p :: p in t.directories && r.key == EmptyDirectoryKey(repository, p) ==>
          r.node == EmptyDirectoryNode(repository, p))
  }

  lemma AgreeingNodeKeeps(db: Db, r: Record, repository: string, t: ImportedTree)
    requires Partial(db, repository, t) && Agrees(r, repository, t)
    ensures Keeps(db, Put(db, r), repository, t)
  {
    PutNodeFrame(db, r.key, r.node, RepositoryKey(repository), ContainsProcedure);
    PutNodeFrame(db, r.key, r.node, RepositoryKey(repository), ContainsEmptyDirectory);
  }

  lemma {:induction false} AgreeingNodesKeep(db: Db, rs: seq<Record>, repository: string, t: ImportedTree)
    requires Partial(db, repository, t) && forall r :: r in rs ==> Agrees(r, repository, t)
    ensures Keeps(db, PutAll(db, rs), repository, t)
    decreases |rs|
  {
    if rs != [] {
      assert rs[0] in rs;
      AgreeingNodeKeeps(db, rs[0], repository, t);
      AgreeingNodesKeep(Put(db, rs[0]), rs[1..], repository, t);
    }
  }

  lemma OwnNodesAgree(f: ImportedFile, enc: Encoders, repository: string, t: ImportedTree)
    requires Storable(t, enc) && f in t.files
    ensures forall r :: r in NodeWrites(f, enc) ==> Agrees(r, repository, t)
  {
    ForeignNodesAgree(f, enc, repository, t);
  }

  /** A file's node records agree with every tree its id and content do not clash with. */
  lemma ForeignNodesAgree(f: ImportedFile, enc: Encoders, repository: string, t: ImportedTree)
    requires Storable(t, enc) && NoCollision([f], t.files, enc)
    requires f in t.files || forall g :: g in t.files ==> g.artifact.procedureId != f.artifact.procedureId
    ensures forall r :: r in NodeWrites(f, enc) ==> Agrees(r, repository, t)
  {
    forall r | r in NodeWrites(f, enc) ensures Agrees(r, repository, t) {
      forall g | g in t.files && r.key == ExactArtifactKey(g.artifact.procedureId)
        ensures r.node == ExactArtifactNode(g.artifact)
      {
        var id := g.artifact.procedureId;
        KindsDisjoint(enc.contentHash(f.blob), id, "");
        KindsDisjoint(id, f.artifact.procedureId, f.artifact.blob);
        var content := RevisionContent(f.artifact.procedureId, enc.sourceText(f.artifact));
        KindsDisjoint(id, enc.revisionHash(content), "");
        Cancel("exact_artifact:", f.artifact.procedureId, id);
      }
      forall g | g in t.files && !g.artifact.isSymlink && r.key == BlobKey(g.artifact.blob)
        ensures r.node == BlobNode(g.blob)
      {
        BlobKeyAgrees(f, g, r, enc);
      }
      forall p | p in t.directories ensures r.key != EmptyDirectoryKey(repository, p) {
        DirectoryKeyApart(f, r, enc, repository, p);
      }
    }
  }

  lemma BlobKeyAgrees(f: ImportedFile, g: ImportedFile, r: Record, enc: Encoders)
    requires r in NodeWrites(f, enc) && r.key == BlobKey(g.artifact.blob)
    requires g.artifact.blob == enc.contentHash(g.blob)
    requires enc.contentHash(f.blob) == enc.contentHash(g.blob) ==> f.blob == g.blob
    ensures r.node == BlobNode(g.blob)
  {
    var h, id := g.artifact.blob, f.artifact.procedureId;
    KindsDisjoint(h, id, f.artifact.blob);
    var content := RevisionContent(id, enc.sourceText(f.artifact));
    KindsDisjoint(h, enc.revisionHash(content), "");
    Cancel("blob:", enc.contentHash(f.blob), h);
  }

  lemma DirectoryKeyApart(f: ImportedFile, r: Record, enc: Encoders, repository: string, p: string)
    requires r in NodeWrites(f, enc)
    ensures r.key != EmptyDirectoryKey(repository, p)
  {
    var id := f.artifact.procedureId;
    var revision := enc.revisionHash(RevisionContent(id, enc.sourceText(f.artifact)));
    NodeWriteKeys(f, r, enc);
    KindNames("", id, revision, id, f.artifact.blob, id, enc.contentHash(f.blob), repository, p);
  }

  lemma NodeWriteKeys(f: ImportedFile, r: Record, enc: Encoders)
    requires r in NodeWrites(f, enc)
    ensures r.Node?
    ensures var id := f.artifact.procedureId;
      || r.key == BlobKey(enc.contentHash(f.blob)) || r.key == ExactArtifactKey(id)
      || r.key == ArtifactKey(id, f.artifact.blob) || r.key == ProcedureKey(id)
      || r.key == RevisionDetailKey(enc.revisionHash(RevisionContent(id, enc.sourceText(f.artifact))))
  {}
}
