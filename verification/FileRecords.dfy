/** What the store says about each file after persisting: its procedure, the revision it names, and its artifact. */
module FileRecords {
  import opened Wrappers
  import opened Sequences
  import opened ExactTree
  import opened GraphStore
  import opened Persistence
  import Merkle

  function ContentOf(f: ImportedFile, enc: Encoders): RevisionContent {
    RevisionContent(f.artifact.procedureId, enc.sourceText(f.artifact))
  }

  /** No two different revisions of these files hash alike. */
  ghost predicate RevisionsApart(fs: seq<ImportedFile>, gs: seq<ImportedFile>, enc: Encoders) {
    forall f, g :: f in fs && g in gs && enc.revisionHash(ContentOf(f, enc)) == enc.revisionHash(ContentOf(g, enc)) ==>
      ContentOf(f, enc) == ContentOf(g, enc)
  }

  /** The file's name: what follows the last slash of the path. */
  ghost predicate EndsPath(name: string, path: string) {
    '/' !in name && exists dir :: path == dir + name && (dir == "" || dir[|dir| - 1] == '/')
  }

  /**
   * The procedure stands under the file's id with its path and name; the revision it names is stored and holds the
   * file's source text; the artifact stands under id and content hash.
   */
  ghost predicate FileRecorded(db: Db, f: ImportedFile, enc: Encoders) {
    var a := f.artifact;
    && (exists p: ProcedureRecord ::
          && GetNode(db, ProcedureKey(a.procedureId)) == Some(ProcedureNode(p))
          && p.id == a.procedureId && p.path == a.originalPath && EndsPath(p.name, a.originalPath)
          && p.currentRevision == enc.revisionHash(RevisionContent(a.procedureId, enc.sourceText(a)))
          && GetNode(db, RevisionDetailKey(p.currentRevision))
             == Some(RevisionNode(RevisionContent(a.procedureId, enc.sourceText(a)))))
    && GetNode(db, ArtifactKey(a.procedureId, a.blob)) == Some(ArtifactNode(a.procedureId, a))
  }

  lemma {:induction false} FileNameEnds(path: string)
    ensures EndsPath(FileName(path), path)
  {
    if path == [] || path[|path| - 1] == '/' {
      assert path == path + [];
    } else {
      FileNameEnds(path[..|path| - 1]);
      EndsLonger(FileName(path[..|path| - 1]), path);
    }
  }

  lemma EndsLonger(name: string, path: string)
    requires path != [] && path[|path| - 1] != '/' && EndsPath(name, path[..|path| - 1])
    ensures EndsPath(name + [path[|path| - 1]], path)
  {
    var n := |path| - 1;
    var dir :| path[..n] == dir + name && (dir == "" || dir[|dir| - 1] == '/');
    assert path == dir + (name + [path[n]]);
  }

  // ---- One key ----

  /** A key that every write to it gives the same node holds that node. */
  lemma NodeSettles(db: Db, rs: seq<Record>, key: string, node: GraphNode)
    requires Node(key, node) in rs && forall r :: r in rs && r.Node? && r.key == key ==> r.node == node
    ensures GetNode(PutAll(db, rs), key) == Some(node)
  {
    var k := NodeStorageKey(key);
    PutAllLast(db, rs, k);
    var i :| 0 <= i < |rs| && rs[i] == Node(key, node);
    assert StorageKeyOf(rs[i]) == k;
    SameNodeKey(PutAll(db, rs)[k], key);
  }

  lemma SameNodeKey(r: Record, key: string)
    requires StorageKeyOf(r) == NodeStorageKey(key)
    ensures r.Node? && r.key == key
  {
    if r.Node? { NodeKeysInjective(r.key, key); } else { NodeOrEdge(key, r.from, r.kind, r.to); }
  }

  /** A key that every write to it repeats keeps its node. */
  lemma NodeStays(db: Db, rs: seq<Record>, key: string, node: GraphNode)
    requires GetNode(db, key) == Some(node) && forall r :: r in rs && r.Node? && r.key == key ==> r.node == node
    ensures GetNode(PutAll(db, rs), key) == Some(node)
  {
    var k := NodeStorageKey(key);
    PutAllLast(db, rs, k);
    if j :| 0 <= j < |rs| && StorageKeyOf(rs[j]) == k && PutAll(db, rs)[k] == rs[j] { SameNodeKey(rs[j], key); }
  }

  // ---- What the writes of a tree say about a file ----

  function ProcedureOf(f: ImportedFile, enc: Encoders): GraphNode {
    var a := f.artifact;
    ProcedureNode(ProcedureRecord(a.procedureId, FileName(a.originalPath), a.originalPath,
                                  enc.revisionHash(ContentOf(f, enc))))
  }

  /** A record that, if it lands on one of the file's three keys, says what the file says there. */
  ghost predicate SaysOf(r: Record, f: ImportedFile, enc: Encoders) {
    var a := f.artifact;
    r.Node? ==>
      && (r.key == ProcedureKey(a.procedureId) ==> r.node == ProcedureOf(f, enc))
      && (r.key == RevisionDetailKey(enc.revisionHash(ContentOf(f, enc))) ==> r.node == RevisionNode(ContentOf(f, enc)))
      && (r.key == ArtifactKey(a.procedureId, a.blob) ==> r.node == ArtifactNode(a.procedureId, a))
  }

  lemma OtherFileSays(g: ImportedFile, f: ImportedFile, enc: Encoders, r: Record)
    requires r in NodeWrites(g, enc) && RevisionsApart([g], [f], enc)
    requires IsIdText(f.artifact.procedureId) && IsIdText(g.artifact.procedureId)
    requires g == f || g.artifact.procedureId != f.artifact.procedureId
    ensures SaysOf(r, f, enc)
  {
    var a, b := f.artifact, g.artifact;
    var revision := enc.revisionHash(ContentOf(f, enc));
    KindNames("", a.procedureId, revision, a.procedureId, a.blob, "", "", "", "");
    KindNames("", b.procedureId, enc.revisionHash(ContentOf(g, enc)), b.procedureId, b.blob, b.procedureId,
              enc.contentHash(g.blob), "", "");
    NodeWriteKeys(g, r, enc);
    if r.key == ProcedureKey(a.procedureId) {
      assert r == Node(ProcedureKey(b.procedureId), ProcedureOf(g, enc));
      Cancel("procedure:", b.procedureId, a.procedureId);
    } else if r.key == RevisionDetailKey(revision) {
      assert r == Node(RevisionDetailKey(enc.revisionHash(ContentOf(g, enc))), RevisionNode(ContentOf(g, enc)));
      Cancel("procedure_revision:", enc.revisionHash(ContentOf(g, enc)), revision);
      assert g in [g] && f in [f];
    } else if r.key == ArtifactKey(a.procedureId, a.blob) {
      assert r == Node(ArtifactKey(b.procedureId, b.blob), ArtifactNode(b.procedureId, b));
      ArtifactKeyId(b.procedureId, b.blob, a.procedureId, a.blob);
    }
  }

  lemma ArtifactKeyId(id: string, blob: string, id': string, blob': string)
    requires |id| == |id'| && ArtifactKey(id, blob) == ArtifactKey(id', blob')
    ensures id == id'
  {
    assert ArtifactKey(id, blob) == "artifact:" + (id + (":" + blob));
    assert ArtifactKey(id', blob') == "artifact:" + (id' + (":" + blob'));
    Cancel("artifact:", id + (":" + blob), id' + (":" + blob'));
    assert (id + (":" + blob))[..|id|] == id && (id' + (":" + blob'))[..|id|] == id';
  }

  lemma {:induction false} DirectoriesSay(repository: string, paths: seq<string>, f: ImportedFile, enc: Encoders)
    ensures forall r :: r in DirectoriesWrites(repository, paths) ==> SaysOf(r, f, enc)
  {
    if paths != [] {
      var a := f.artifact;
      DirectoriesSay(repository, paths[1..], f, enc);
      KindNames("", a.procedureId, enc.revisionHash(ContentOf(f, enc)), a.procedureId, a.blob, "", "",
                repository, paths[0]);
    }
  }

  lemma {:induction false} FilesSay(
      repository: string, files: seq<ImportedFile>, f: ImportedFile, enc: Encoders)
    requires RevisionsApart(files, [f], enc) && IsIdText(f.artifact.procedureId)
    requires forall g :: g in files ==>
      IsIdText(g.artifact.procedureId) && (g == f || g.artifact.procedureId != f.artifact.procedureId)
    ensures forall r :: r in FilesWrites(repository, files, enc) ==> SaysOf(r, f, enc)
  {
    if files != [] {
      assert files[0] in files;
      FilesSay(repository, files[1..], f, enc);
      forall r | r in NodeWrites(files[0], enc) ensures SaysOf(r, f, enc) { OtherFileSays(files[0], f, enc, r); }
    }
  }

  lemma TreeSays(repository: string, t: ImportedTree, f: ImportedFile, enc: Encoders)
    requires RevisionsApart(t.files, [f], enc) && IsIdText(f.artifact.procedureId)
    requires forall g :: g in t.files ==>
      IsIdText(g.artifact.procedureId) && (g == f || g.artifact.procedureId != f.artifact.procedureId)
    ensures forall r :: r in TreeWrites(repository, t, enc) ==> SaysOf(r, f, enc)
  {
    DirectoriesSay(repository, t.directories, f, enc);
    FilesSay(repository, t.files, f, enc);
  }

  lemma {:induction false} OwnWrites(repository: string, files: seq<ImportedFile>, f: ImportedFile, enc: Encoders)
    requires f in files
    ensures forall r :: r in NodeWrites(f, enc) ==> r in FilesWrites(repository, files, enc)
  {
    if files[0] != f { OwnWrites(repository, files[1..], f, enc); }
  }

  // ---- The records after persisting ----

  /** After persisting, every file of the tree is recorded. */
  lemma PersistRecords(db: Db, repository: string, t: ImportedTree, f: ImportedFile, enc: Encoders)
    requires Storable(t, enc) && RevisionsApart(t.files, t.files, enc) && f in t.files
    ensures FileRecorded(PutAll(db, TreeWrites(repository, t, enc)), f, enc)
  {
    var a, ws := f.artifact, TreeWrites(repository, t, enc);
    TreeSays(repository, t, f, enc);
    OwnWrites(repository, t.files, f, enc);
    var n := |NodeWrites(f, enc)|;
    assert NodeWrites(f, enc)[n - 3] == Node(ArtifactKey(a.procedureId, a.blob), ArtifactNode(a.procedureId, a));
    assert NodeWrites(f, enc)[n - 2]
        == Node(RevisionDetailKey(enc.revisionHash(ContentOf(f, enc))), RevisionNode(ContentOf(f, enc)));
    assert NodeWrites(f, enc)[n - 1] == Node(ProcedureKey(a.procedureId), ProcedureOf(f, enc));
    NodeSettles(db, ws, ArtifactKey(a.procedureId, a.blob), ArtifactNode(a.procedureId, a));
    NodeSettles(db, ws, RevisionDetailKey(enc.revisionHash(ContentOf(f, enc))), RevisionNode(ContentOf(f, enc)));
    NodeSettles(db, ws, ProcedureKey(a.procedureId), ProcedureOf(f, enc));
    FileNameEnds(a.originalPath);
  }

  /** Persisting another tree, under any name and with other ids, leaves it recorded. */
  lemma FurtherWritesKeep(db: Db, other: string, u: ImportedTree, f: ImportedFile, enc: Encoders)
    requires FileRecorded(db, f, enc) && Storable(u, enc) && RevisionsApart(u.files, [f], enc)
    requires IsIdText(f.artifact.procedureId)
    requires forall g :: g in u.files ==> g == f || g.artifact.procedureId != f.artifact.procedureId
    ensures FileRecorded(PutAll(db, TreeWrites(other, u, enc)), f, enc)
  {
    var a, ws := f.artifact, TreeWrites(other, u, enc);
    TreeSays(other, u, f, enc);
    var p: ProcedureRecord :| GetNode(db, ProcedureKey(a.procedureId)) == Some(ProcedureNode(p))
      && p.id == a.procedureId && p.path == a.originalPath && EndsPath(p.name, a.originalPath)
      && p.currentRevision == enc.revisionHash(RevisionContent(a.procedureId, enc.sourceText(a)))
      && GetNode(db, RevisionDetailKey(p.currentRevision))
         == Some(RevisionNode(RevisionContent(a.procedureId, enc.sourceText(a))));
    NameUnique(p.name, a.originalPath);
    NodeStays(db, ws, ProcedureKey(a.procedureId), ProcedureNode(p));
    NodeStays(db, ws, RevisionDetailKey(p.currentRevision), RevisionNode(ContentOf(f, enc)));
    NodeStays(db, ws, ArtifactKey(a.procedureId, a.blob), ArtifactNode(a.procedureId, a));
  }

  /** A path has one name. */
  lemma NameUnique(name: string, path: string)
    requires EndsPath(name, path)
    ensures name == FileName(path)
  {
    FileNameEnds(path);
    var n := FileName(path);
    var d :| path == d + name && (d == "" || d[|d| - 1] == '/');
    var e :| path == e + n && (e == "" || e[|e| - 1] == '/');
    if |d| < |e| { SlashBehind(d, name, e, path); }
    if |e| < |d| { SlashBehind(e, n, d, path); }
    assert d == path[..|d|] && e == path[..|e|];
  }

  lemma SlashBehind(d: string, name: string, e: string, path: string)
    requires path == d + name && e <= path && |d| < |e| && e[|e| - 1] == '/'
    ensures '/' in name
  {
    assert path[|e| - 1] == name[|e| - 1 - |d|];
  }

  // ---- The root over what was persisted ----

  /** The file's id and the hash of its revision. */
  function RootEntry(f: ImportedFile, enc: Encoders): Merkle.Entry {
    Merkle.Entry(f.artifact.procedureId, enc.revisionHash(ContentOf(f, enc)))
  }

  function RootEntries(files: seq<ImportedFile>, enc: Encoders): (es: seq<Merkle.Entry>)
    ensures |es| == |files| && forall i :: 0 <= i < |files| ==> es[i] == RootEntry(files[i], enc)
  {
    seq(|files|, i requires 0 <= i < |files| => RootEntry(files[i], enc))
  }

  lemma {:induction false} ProcedureFromFile(
      repository: string, files: seq<ImportedFile>, enc: Encoders, r: Record)
    requires r in FilesWrites(repository, files, enc) && Merkle.IsProcedure(r)
    ensures exists f :: f in files && r == Node(ProcedureKey(f.artifact.procedureId), ProcedureOf(f, enc))
  {
    if r in FileWrites(repository, files[0], enc) {
      assert r == Node(ProcedureKey(files[0].artifact.procedureId), ProcedureOf(files[0], enc));
      assert files[0] in files;
    } else {
      ProcedureFromFile(repository, files[1..], enc, r);
      var f :| f in files[1..] && r == Node(ProcedureKey(f.artifact.procedureId), ProcedureOf(f, enc));
      assert f in files;
    }
  }

  lemma {:induction false} NoProcedureFromDirectories(repository: string, paths: seq<string>, r: Record)
    requires r in DirectoriesWrites(repository, paths)
    ensures !Merkle.IsProcedure(r)
  {
    if r !in DirectoryWrites(repository, paths[0]) { NoProcedureFromDirectories(repository, paths[1..], r); }
  }

  /** In a store without procedures before, the root is over exactly the files' ids and revisions. */
  lemma PersistedListing(db: Db, repository: string, t: ImportedTree, enc: Encoders)
    requires Storable(t, enc) && RevisionsApart(t.files, t.files, enc)
    requires forall k :: k in db ==> !Merkle.IsProcedure(db[k])
    ensures Merkle.Lists(PutAll(db, TreeWrites(repository, t, enc)), RootEntries(t.files, enc))
  {
    var db', es := PutAll(db, TreeWrites(repository, t, enc)), RootEntries(t.files, enc);
    EntriesDistinct(t, enc);
    forall e ensures e in es <==> exists k :: Merkle.RecordedAs(db', k, e) {
      if e in es {
        var i :| 0 <= i < |t.files| && es[i] == e;
        FileListed(db, repository, t, t.files[i], enc);
      }
      if k :| Merkle.RecordedAs(db', k, e) { ListedFromFile(db, repository, t, enc, k, e); }
    }
  }

  lemma EntriesDistinct(t: ImportedTree, enc: Encoders)
    requires Storable(t, enc)
    ensures NoDuplicates(RootEntries(t.files, enc))
  {
    var es := RootEntries(t.files, enc);
    forall i, j | 0 <= i < |es| && 0 <= j < |es| && es[i] == es[j] ensures i == j {
      assert t.files[i] in t.files && t.files[j] in t.files;
    }
  }

  lemma FileListed(db: Db, repository: string, t: ImportedTree, f: ImportedFile, enc: Encoders)
    requires Storable(t, enc) && RevisionsApart(t.files, t.files, enc) && f in t.files
    ensures exists k :: Merkle.RecordedAs(PutAll(db, TreeWrites(repository, t, enc)), k, RootEntry(f, enc))
  {
    PersistRecords(db, repository, t, f, enc);
    var db' := PutAll(db, TreeWrites(repository, t, enc));
    assert Merkle.RecordedAs(db', NodeStorageKey(ProcedureKey(f.artifact.procedureId)), RootEntry(f, enc));
  }

  lemma ListedFromFile(db: Db, repository: string, t: ImportedTree, enc: Encoders, k: string, e: Merkle.Entry)
    requires forall k :: k in db ==> !Merkle.IsProcedure(db[k])
    requires Merkle.RecordedAs(PutAll(db, TreeWrites(repository, t, enc)), k, e)
    ensures e in RootEntries(t.files, enc)
  {
    var ws := TreeWrites(repository, t, enc);
    PutAllLast(db, ws, k);
    var r := PutAll(db, ws)[k];
    if r in DirectoriesWrites(repository, t.directories) {
      NoProcedureFromDirectories(repository, t.directories, r);
    } else {
      ProcedureFromFile(repository, t.files, enc, r);
      var f :| f in t.files && r == Node(ProcedureKey(f.artifact.procedureId), ProcedureOf(f, enc));
      var i :| 0 <= i < |t.files| && t.files[i] == f;
      assert RootEntries(t.files, enc)[i] == e;
    }
  }
}
