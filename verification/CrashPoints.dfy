/** What a store reads as when persisting a tree stops after any number of writes. */
module CrashPoints {
  import opened Wrappers
  import opened Ordering
  import opened Sequences
  import opened ExactTree
  import opened GraphStore
  import opened Persistence
  import opened PersistenceLaws

  // ---- Where records come from ----

  lemma RecordSource(db: Db, rs: seq<Record>, k: string)
    requires k in PutAll(db, rs)
    ensures (k in db && PutAll(db, rs)[k] == db[k]) || PutAll(db, rs)[k] in rs
  {
    PutAllLast(db, rs, k);
  }

  lemma WrittenKey(db: Db, rs: seq<Record>, r: Record)
    requires r in rs
    ensures StorageKeyOf(r) in PutAll(db, rs) && PutAll(db, rs)[StorageKeyOf(r)] in rs
    ensures StorageKeyOf(PutAll(db, rs)[StorageKeyOf(r)]) == StorageKeyOf(r)
  {
    PutAllLast(db, rs, StorageKeyOf(r));
    var i :| 0 <= i < |rs| && rs[i] == r;
  }

  /** Edges come from the old store or from the writes. */
  lemma ChildSource(db: Db, rs: seq<Record>, from: string, kind: EdgeKind, c: string)
    requires c in ChildSet(PutAll(db, rs), from, kind)
    ensures c in ChildSet(db, from, kind) || Edge(from, kind, c) in rs
  {
    var db' := PutAll(db, rs);
    var k :| k in db' && IsChild(db'[k], from, kind) && db'[k].to == c;
    RecordSource(db, rs, k);
  }

  lemma NodeSource(db: Db, rs: seq<Record>, key: string)
    requires WellKeyed(db) && GetNode(PutAll(db, rs), key).Some?
    ensures GetNode(db, key).Some? || exists node :: Node(key, node) in rs
  {
    var k := NodeStorageKey(key);
    RecordSource(db, rs, k);
    PutAllKeyed(db, rs);
    var r := PutAll(db, rs)[k];
    NodeKeysInjective(r.key, key);
    assert r == Node(key, r.node);
  }

  /** An edge written stays, since no other record has its storage key. */
  lemma EdgeStays(db: Db, rs: seq<Record>, from: string, kind: EdgeKind, c: string)
    requires Edge(from, kind, c) in rs && forall r :: r in rs && r.Edge? ==> r.from == from
    ensures c in ChildSet(PutAll(db, rs), from, kind)
  {
    WrittenKey(db, rs, Edge(from, kind, c));
    var k := EdgeStorageKey(from, kind, c);
    var r := PutAll(db, rs)[k];
    if r.Node? {
      NodeOrEdge(r.key, from, kind, c);
    } else {
      if r.kind != kind {
        EdgeKindsApart(from, c, from, r.to);
        EdgeKindsApart(from, r.to, from, c);
      }
      EdgeTargets(from, kind, r.to, c);
    }
  }

  lemma NodeStays(db: Db, rs: seq<Record>, key: string, node: GraphNode)
    requires Node(key, node) in rs
    ensures GetNode(PutAll(db, rs), key).Some?
  {
    WrittenKey(db, rs, Node(key, node));
    var r := PutAll(db, rs)[NodeStorageKey(key)];
    if r.Edge? { NodeOrEdge(key, r.from, r.kind, r.to); }
  }

  // ---- What the first k writes hold ----

  function Least(a: nat, b: nat): nat { if a < b then a else b }

  /** How many of the files have all their writes among the first `k`. */
  function WholeFiles(repository: string, files: seq<ImportedFile>, enc: Encoders, k: nat): (n: nat)
    ensures n <= |files|
  {
    if files == [] || k < |FileWrites(repository, files[0], enc)| then 0
    else 1 + WholeFiles(repository, files[1..], enc, k - |FileWrites(repository, files[0], enc)|)
  }

  /** The directories and files whose writes are all among the first `k`. */
  function WrittenPart(repository: string, t: ImportedTree, enc: Encoders, k: nat): ImportedTree {
    var d := 2 * |t.directories|;
    ImportedTree(t.directories[..Least(k / 2, |t.directories|)],
                 if k < d then [] else t.files[..WholeFiles(repository, t.files, enc, k - d)])
  }

  lemma {:induction false} DirectoriesLength(repository: string, paths: seq<string>)
    ensures |DirectoriesWrites(repository, paths)| == 2 * |paths|
  {
    if paths != [] { DirectoriesLength(repository, paths[1..]); }
  }

  lemma FirstOf(a: seq<Record>, b: seq<Record>, k: nat, r: Record)
    requires k <= |a + b|
    ensures k < |a| ==> (r in (a + b)[..k] <==> r in a[..k])
    ensures k >= |a| ==> (r in (a + b)[..k] <==> r in a || r in b[..k - |a|])
  {
    if k < |a| { assert (a + b)[..k] == a[..k]; } else { assert (a + b)[..k] == a + b[..k - |a|]; }
  }

  lemma SameDirectory(repository: string, p: string, q: string)
    requires EmptyDirectoryKey(repository, p) == EmptyDirectoryKey(repository, q)
    ensures p == q
  {
    Cancel("empty_directory:" + repository + ":", p, q);
  }

  function DirectoryNode(repository: string, p: string): Record { DirectoryWrites(repository, p)[1] }

  function DirectoryEdge(repository: string, p: string): Record { DirectoryWrites(repository, p)[0] }

  /** A directory's node is among the first `k` writes exactly when it is among the first `k / 2` directories. */
  lemma {:induction false} DirectoryWritten(repository: string, paths: seq<string>, k: nat, p: string, node: GraphNode)
    requires k <= |DirectoriesWrites(repository, paths)|
    ensures Node(EmptyDirectoryKey(repository, p), node) in DirectoriesWrites(repository, paths)[..k] ==>
      k / 2 <= |paths| && p in paths[..k / 2]
    ensures k / 2 <= |paths|
    ensures p in paths[..k / 2] ==>
      DirectoryNode(repository, p) in DirectoriesWrites(repository, paths)[..k]
      && DirectoryEdge(repository, p) in DirectoriesWrites(repository, paths)[..k]
  {
    DirectoriesLength(repository, paths);
    if paths != [] {
      var ws, rest := DirectoryWrites(repository, paths[0]), DirectoriesWrites(repository, paths[1..]);
      var r := Node(EmptyDirectoryKey(repository, p), node);
      FirstOf(ws, rest, k, r);
      FirstOf(ws, rest, k, DirectoryNode(repository, p));
      FirstOf(ws, rest, k, DirectoryEdge(repository, p));
      if k >= 2 {
        DirectoryWritten(repository, paths[1..], k - 2, p, node);
        assert paths[..k / 2] == [paths[0]] + paths[1..][..(k - 2) / 2];
        if r in ws { SameDirectory(repository, p, paths[0]); }
      } else {
        assert k == 1 ==> ws[..k] == [ws[0]];
      }
    }
  }

  lemma {:induction false} DirectoriesHaveNoFileEdge(repository: string, paths: seq<string>)
    ensures forall r :: r in DirectoriesWrites(repository, paths) ==>
      (r.Edge? ==> r.from == RepositoryKey(repository) && r.kind == ContainsEmptyDirectory)
  {
    if paths != [] { DirectoriesHaveNoFileEdge(repository, paths[1..]); }
  }

  lemma {:induction false} FilesHaveNoDirectory(repository: string, files: seq<ImportedFile>, enc: Encoders, p: string)
    ensures forall r :: r in FilesWrites(repository, files, enc) ==>
      && (r.Edge? ==> r.from == RepositoryKey(repository) && r.kind == ContainsProcedure)
      && (r.Node? ==> r.key != EmptyDirectoryKey(repository, p))
  {
    if files != [] {
      FilesHaveNoDirectory(repository, files[1..], enc, p);
      forall r | r in NodeWrites(files[0], enc) ensures r.Node? && r.key != EmptyDirectoryKey(repository, p) {
        DirectoryKeyApart(files[0], r, enc, repository, p);
      }
    }
  }

  lemma WholeFront(files: seq<ImportedFile>, n: nat, f: ImportedFile)
    requires files != [] && n <= |files| - 1
    ensures f in files[..n + 1] <==> f == files[0] || f in files[1..][..n]
  {
    assert files[..n + 1] == [files[0]] + files[1..][..n];
  }

  lemma FilesWritesHead(repository: string, files: seq<ImportedFile>, enc: Encoders)
    requires files != []
    ensures FilesWrites(repository, files, enc)
         == FileWrites(repository, files[0], enc) + FilesWrites(repository, files[1..], enc)
  {}

  /** A file's edge, its last write, is among the first `k` exactly when the file is among the whole ones. */
  lemma {:induction false} FileWritten(
      repository: string, files: seq<ImportedFile>, enc: Encoders, k: nat, f: ImportedFile)
    requires k <= |FilesWrites(repository, files, enc)|
    requires forall g :: g in files && g.artifact.procedureId == f.artifact.procedureId ==> g == f
    ensures FileEdge(repository, f) in FilesWrites(repository, files, enc)[..k] <==>
      f in files[..WholeFiles(repository, files, enc, k)]
  {
    if files != [] {
      var ws, rest := FileWrites(repository, files[0], enc), FilesWrites(repository, files[1..], enc);
      assert files[0] in files;
      FilesWritesHead(repository, files, enc);
      FirstOf(ws, rest, k, FileEdge(repository, f));
      FileEdgeIn(repository, files[0], enc, k, f);
      if k >= |ws| {
        FileWritten(repository, files[1..], enc, k - |ws|, f);
        WholeFront(files, WholeFiles(repository, files[1..], enc, k - |ws|), f);
      }
    }
  }

  lemma FileEdgeIn(repository: string, g: ImportedFile, enc: Encoders, k: nat, f: ImportedFile)
    requires g.artifact.procedureId == f.artifact.procedureId ==> g == f
    ensures FileEdge(repository, f) in FileWrites(repository, g, enc) <==> f == g
    ensures k < |FileWrites(repository, g, enc)| ==> FileEdge(repository, f) !in FileWrites(repository, g, enc)[..k]
  {
    var ns, e := NodeWrites(g, enc), FileEdge(repository, g);
    assert FileWrites(repository, g, enc) == ns + [e];
    assert forall r :: r in ns ==> r.Node?;
    if FileEdge(repository, f) == e { Cancel("procedure:", f.artifact.procedureId, g.artifact.procedureId); }
    if k < |ns + [e]| { assert (ns + [e])[..k] == ns[..k]; }
  }

  // ---- What is present ----

  lemma PrefixHolds(repository: string, t: ImportedTree, enc: Encoders, k: nat, p: string, node: GraphNode)
    requires k <= |TreeWrites(repository, t, enc)|
    ensures var pre, w := TreeWrites(repository, t, enc)[..k], WrittenPart(repository, t, enc, k);
      && (Node(EmptyDirectoryKey(repository, p), node) in pre ==> p in w.directories)
      && (p in w.directories ==> DirectoryNode(repository, p) in pre && DirectoryEdge(repository, p) in pre)
      && (forall r :: r in pre && r.Edge? ==> r.from == RepositoryKey(repository))
  {
    var ds, fs := DirectoriesWrites(repository, t.directories), FilesWrites(repository, t.files, enc);
    var r := Node(EmptyDirectoryKey(repository, p), node);
    DirectoriesLength(repository, t.directories);
    DirectoriesHaveNoFileEdge(repository, t.directories);
    FilesHaveNoDirectory(repository, t.files, enc, p);
    FirstOf(ds, fs, k, r);
    FirstOf(ds, fs, k, DirectoryNode(repository, p));
    FirstOf(ds, fs, k, DirectoryEdge(repository, p));
    var j := Least(k, |ds|);
    DirectoryWritten(repository, t.directories, j, p, node);
    assert ds[..|ds|] == ds;
    assert j / 2 == Least(k / 2, |t.directories|);
    forall x | x in (ds + fs)[..k] && x.Edge? ensures x.from == RepositoryKey(repository) { assert x in ds || x in fs; }
  }

  lemma PrefixHoldsFile(repository: string, t: ImportedTree, enc: Encoders, k: nat, f: ImportedFile)
    requires k <= |TreeWrites(repository, t, enc)| && f in t.files
    requires forall g, h :: g in t.files && h in t.files && g.artifact.procedureId == h.artifact.procedureId ==> g == h
    ensures FileEdge(repository, f) in TreeWrites(repository, t, enc)[..k] <==>
      f in WrittenPart(repository, t, enc, k).files
  {
    var ds, fs := DirectoriesWrites(repository, t.directories), FilesWrites(repository, t.files, enc);
    DirectoriesLength(repository, t.directories);
    DirectoriesHaveNoFileEdge(repository, t.directories);
    FirstOf(ds, fs, k, FileEdge(repository, f));
    if k >= |ds| { FileWritten(repository, t.files, enc, k - |ds|, f); }
  }

  lemma DirectoryPresentIff(db: Db, repository: string, t: ImportedTree, enc: Encoders, k: nat, p: string)
    requires Fresh(db, repository, t) && GoodTree(t, enc) && k <= |TreeWrites(repository, t, enc)| && p in t.directories
    ensures DirectoryPresent(PutAll(db, TreeWrites(repository, t, enc)[..k]), repository, p)
       <==> p in WrittenPart(repository, t, enc, k).directories
  {
    var pre := TreeWrites(repository, t, enc)[..k];
    var key, from, db' := EmptyDirectoryKey(repository, p), RepositoryKey(repository), PutAll(db, pre);
    var own := EmptyDirectoryNode(repository, p);
    PrefixHolds(repository, t, enc, k, p, own);
    TreePrefix(db, repository, t, enc, k);
    if p in WrittenPart(repository, t, enc, k).directories {
      EdgeStays(db, pre, from, ContainsEmptyDirectory, key);
      NodeStays(db, pre, key, own);
    }
    if DirectoryPresent(db', repository, p) {
      NodeSource(db, pre, key);
      var node :| Node(key, node) in pre;
      PrefixHolds(repository, t, enc, k, p, node);
    }
  }

  lemma FilePresentIff(db: Db, repository: string, t: ImportedTree, enc: Encoders, k: nat, f: ImportedFile)
    requires Fresh(db, repository, t) && GoodTree(t, enc) && k <= |TreeWrites(repository, t, enc)| && f in t.files
    ensures FilePresent(PutAll(db, TreeWrites(repository, t, enc)[..k]), repository, f)
       <==> f in WrittenPart(repository, t, enc, k).files
  {
    var pre := TreeWrites(repository, t, enc)[..k];
    var key, from := ProcedureKey(f.artifact.procedureId), RepositoryKey(repository);
    PrefixHoldsFile(repository, t, enc, k, f);
    if f in WrittenPart(repository, t, enc, k).files {
      PrefixHolds(repository, t, enc, k, "", EmptyDirectoryNode(repository, ""));
      EdgeStays(db, pre, from, ContainsProcedure, key);
    }
    if FilePresent(PutAll(db, pre), repository, f) { ChildSource(db, pre, from, ContainsProcedure, key); }
  }

  lemma SliceNoDuplicates<T>(s: seq<T>, n: nat)
    requires NoDuplicates(s) && n <= |s|
    ensures NoDuplicates(s[..n])
  {}

  /** Interrupted after any `k` writes, the store reads as exactly the entries whose writes were complete. */
  lemma CrashPrefix(db: Db, repository: string, t: ImportedTree, enc: Encoders, k: nat)
    requires Fresh(db, repository, t) && GoodTree(t, enc) && k <= |TreeWrites(repository, t, enc)|
    ensures Materialized(PutAll(db, TreeWrites(repository, t, enc)[..k]), repository)
         == Some(Canonicalize(WrittenPart(repository, t, enc, k)))
  {
    var db', w := PutAll(db, TreeWrites(repository, t, enc)[..k]), WrittenPart(repository, t, enc, k);
    TreePrefix(db, repository, t, enc, k);
    PartialReads(db', repository, t, enc);
    var r := Materialized(db', repository).value;
    forall p ensures p in r.directories <==> p in w.directories {
      if p in t.directories { DirectoryPresentIff(db, repository, t, enc, k, p); }
    }
    forall f ensures f in r.files <==> f in w.files {
      if f in t.files { FilePresentIff(db, repository, t, enc, k, f); }
    }
    SliceNoDuplicates(t.directories, |w.directories|);
    SliceNoDuplicates(t.files, |w.files|);
    CanonicalUnique(w, r);
    SortedStays(r.directories, TextLe);
    SortedStays(r.files, PathLe);
  }
}
