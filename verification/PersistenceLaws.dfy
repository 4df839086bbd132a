/** What persisting a tree promises: round trip, crash prefixes, repetition, isolation. */
module PersistenceLaws {
  import opened Wrappers
  import opened Ordering
  import opened Sequences
  import opened ExactTree
  import opened GraphStore
  import opened Persistence

  // ---- Prefixes of the writes ----

  lemma KeepsTrans(a: Db, b: Db, c: Db, repository: string, t: ImportedTree)
    requires Keeps(a, b, repository, t) && Keeps(b, c, repository, t)
    ensures Keeps(a, c, repository, t)
  {}

  /** After a file's node writes its metadata and content are readable. */
  lemma NodesStoreFile(db: Db, f: ImportedFile, enc: Encoders, repository: string, t: ImportedTree)
    requires Partial(db, repository, t) && Storable(t, enc) && f in t.files
    ensures FileStored(PutAll(db, NodeWrites(f, enc)), f)
  {
    var ws := NodeWrites(f, enc);
    OwnNodesAgree(f, enc, repository, t);
    var a := f.artifact;
    var n := if a.isSymlink then 0 else 1;
    assert ws[n] == Node(ExactArtifactKey(a.procedureId), ExactArtifactNode(a));
    Written(db, ws, n, repository, t);
    if !a.isSymlink {
      assert ws[0] == Node(BlobKey(a.blob), BlobNode(f.blob));
      Written(db, ws, 0, repository, t);
    }
  }

  /** A node the tree itself asks for stays, since every agreeing write to its key repeats it. */
  lemma Written(db: Db, ws: seq<Record>, i: nat, repository: string, t: ImportedTree)
    requires i < |ws| && ws[i].Node? && forall r :: r in ws ==> Agrees(r, repository, t)
    requires (exists f :: f in t.files && ws[i].key == ExactArtifactKey(f.artifact.procedureId))
          || (exists f :: f in t.files && !f.artifact.isSymlink && ws[i].key == BlobKey(f.artifact.blob))
    ensures GetNode(PutAll(db, ws), ws[i].key) == Some(ws[i].node)
  {
    assert ws[i] in ws;
    var k := NodeStorageKey(ws[i].key);
    PutAllLast(db, ws, k);
    assert StorageKeyOf(ws[i]) == k;
    var j :| 0 <= j < |ws| && StorageKeyOf(ws[j]) == k && PutAll(db, ws)[k] == ws[j];
    assert ws[j] in ws && Agrees(ws[j], repository, t);
    NodeKeysInjective(ws[j].key, ws[i].key);
  }

  /** A file's edge may follow its nodes. */
  lemma FileEdgeKeeps(db: Db, f: ImportedFile, repository: string, t: ImportedTree)
    requires Partial(db, repository, t) && f in t.files && FileStored(db, f)
    requires forall g, h :: g in t.files && h in t.files && g.artifact.procedureId == h.artifact.procedureId ==> g == h
    ensures Keeps(db, Put(db, FileEdge(repository, f)), repository, t)
    ensures FilePresent(Put(db, FileEdge(repository, f)), repository, f)
  {
    var from, to := RepositoryKey(repository), ProcedureKey(f.artifact.procedureId);
    PutEdgeFrame(db, from, ContainsProcedure, to, from, ContainsProcedure);
    PutEdgeFrame(db, from, ContainsProcedure, to, from, ContainsEmptyDirectory);
    forall c ensures EdgeStorageKey(from, ContainsEmptyDirectory, c) != EdgeStorageKey(from, ContainsProcedure, to) {
      EdgeKindsApart(from, c, from, to);
    }
    forall c
      ensures EdgeStorageKey(from, ContainsProcedure, c) == EdgeStorageKey(from, ContainsProcedure, to) ==> c == to
    {
      EdgeTargets(from, ContainsProcedure, c, to);
    }
    forall g | g in t.files && ProcedureKey(g.artifact.procedureId) == to ensures g == f {
      Cancel("procedure:", g.artifact.procedureId, f.artifact.procedureId);
    }
  }

  lemma EdgeKindsApart(a: string, c: string, b: string, d: string)
    ensures EdgeStorageKey(a, ContainsEmptyDirectory, c) != EdgeStorageKey(b, ContainsProcedure, d)
  {
    var n := |EDGE_PREFIX| + 20;
    assert EdgeStorageKey(a, ContainsEmptyDirectory, c)[n] == 'e';
    assert EdgeStorageKey(b, ContainsProcedure, d)[n] == 'p';
  }

  lemma FilePrefix(db: Db, f: ImportedFile, enc: Encoders, repository: string, t: ImportedTree, k: nat)
    requires Partial(db, repository, t) && Storable(t, enc) && f in t.files
    requires k <= |FileWrites(repository, f, enc)|
    ensures Keeps(db, PutAll(db, FileWrites(repository, f, enc)[..k]), repository, t)
    ensures k == |FileWrites(repository, f, enc)| ==>
              FilePresent(PutAll(db, FileWrites(repository, f, enc)[..k]), repository, f)
  {
    var ws, ns := FileWrites(repository, f, enc), NodeWrites(f, enc);
    OwnNodesAgree(f, enc, repository, t);
    if k < |ws| {
      assert ws[..k] == ns[..k];
      AgreeingNodesKeep(db, ns[..k], repository, t);
    } else {
      assert ws[..k] == ws;
      AgreeingNodesKeep(db, ns, repository, t);
      NodesStoreFile(db, f, enc, repository, t);
      Step(db, ws, k - 1);
      assert ws[..k - 1] == ns;
      FileEdgeKeeps(PutAll(db, ns), f, repository, t);
    }
  }

  /** A prefix of two series of writes ends in the first, or is the first and a prefix of the second. */
  lemma SplitPrefix(ds: seq<Record>, fs: seq<Record>, db: Db, k: nat)
    requires k <= |ds + fs|
    ensures k < |ds| ==> (ds + fs)[..k] == ds[..k]
    ensures k >= |ds| ==> ds[..|ds|] == ds && PutAll(db, (ds + fs)[..k]) == PutAll(PutAll(db, ds), fs[..k - |ds|])
  {
    if k >= |ds| {
      assert (ds + fs)[..k] == ds + fs[..k - |ds|];
      PutAllConcat(db, ds, fs[..k - |ds|]);
    }
  }

  lemma {:induction false} FilesPrefix(
      db: Db, files: seq<ImportedFile>, enc: Encoders, repository: string, t: ImportedTree, k: nat)
    requires Partial(db, repository, t) && Storable(t, enc) && forall f :: f in files ==> f in t.files
    requires k <= |FilesWrites(repository, files, enc)|
    ensures Keeps(db, PutAll(db, FilesWrites(repository, files, enc)[..k]), repository, t)
    ensures k == |FilesWrites(repository, files, enc)| ==>
      forall f :: f in files ==> FilePresent(PutAll(db, FilesWrites(repository, files, enc)[..k]), repository, f)
    decreases |files|
  {
    if files != [] {
      assert files[0] in files;
      var ws, rest := FileWrites(repository, files[0], enc), FilesWrites(repository, files[1..], enc);
      assert FilesWrites(repository, files, enc) == ws + rest;
      SplitPrefix(ws, rest, db, k);
      if k < |ws| {
        FilePrefix(db, files[0], enc, repository, t, k);
      } else {
        FilePrefix(db, files[0], enc, repository, t, |ws|);
        FilesPrefix(PutAll(db, ws), files[1..], enc, repository, t, k - |ws|);
        KeepsTrans(db, PutAll(db, ws), PutAll(db, (ws + rest)[..k]), repository, t);
      }
    }
  }

  /** The edge alone: nothing changes for files, and only this directory's edge may be new. */
  lemma DirectoryEdgeKeeps(db: Db, p: string, repository: string, t: ImportedTree)
    requires Partial(db, repository, t) && p in t.directories
    ensures Keeps(db, Put(db, DirectoryWrites(repository, p)[0]), repository, t)
  {
    var from, key := RepositoryKey(repository), EmptyDirectoryKey(repository, p);
    PutEdgeFrame(db, from, ContainsEmptyDirectory, key, from, ContainsEmptyDirectory);
    PutEdgeFrame(db, from, ContainsEmptyDirectory, key, from, ContainsProcedure);
    forall c ensures EdgeStorageKey(from, ContainsEmptyDirectory, key) != EdgeStorageKey(from, ContainsProcedure, c) {
      EdgeKindsApart(from, key, from, c);
    }
    forall c
      ensures
        EdgeStorageKey(from, ContainsEmptyDirectory, c) == EdgeStorageKey(from, ContainsEmptyDirectory, key) ==>
        c == key
    {
      EdgeTargets(from, ContainsEmptyDirectory, c, key);
    }
  }

  lemma DirectoryNodeCompletes(db: Db, p: string, repository: string, t: ImportedTree)
    requires Partial(db, repository, t) && p in t.directories
    ensures var ws := DirectoryWrites(repository, p); var db1 := Put(db, ws[0]);
      Keeps(db, Put(db1, ws[1]), repository, t) && DirectoryPresent(Put(db1, ws[1]), repository, p)
  {
    var ws := DirectoryWrites(repository, p);
    var db1 := Put(db, ws[0]);
    DirectoryEdgeKeeps(db, p, repository, t);
    OwnDirectoryAgrees(p, repository, t);
    AgreeingNodeKeeps(db1, ws[1], repository, t);
    PutEdgeFrame(db, RepositoryKey(repository), ContainsEmptyDirectory, EmptyDirectoryKey(repository, p),
                 RepositoryKey(repository), ContainsEmptyDirectory);
    PutNodeFrame(db1, EmptyDirectoryKey(repository, p), ws[1].node, RepositoryKey(repository), ContainsEmptyDirectory);
    KeepsTrans(db, db1, Put(db1, ws[1]), repository, t);
  }

  lemma DirectoryPrefix(db: Db, p: string, repository: string, t: ImportedTree, k: nat)
    requires Partial(db, repository, t) && p in t.directories && k <= 2
    ensures Keeps(db, PutAll(db, DirectoryWrites(repository, p)[..k]), repository, t)
    ensures k == 2 ==> DirectoryPresent(PutAll(db, DirectoryWrites(repository, p)[..k]), repository, p)
  {
    if k > 0 {
      DirectoryEdgeKeeps(db, p, repository, t);
      FirstOrBoth(db, DirectoryWrites(repository, p), k);
      if k == 2 { DirectoryNodeCompletes(db, p, repository, t); }
    }
  }

  lemma FirstOrBoth(db: Db, ws: seq<Record>, k: nat)
    requires |ws| == 2 && 1 <= k <= 2
    ensures PutAll(db, ws[..k]) == if k == 1 then Put(db, ws[0]) else Put(Put(db, ws[0]), ws[1])
  {
    Step(db, ws, 0);
    assert ws[..0] == [];
    if k == 2 { Step(db, ws, 1); }
  }

  lemma OwnDirectoryAgrees(p: string, repository: string, t: ImportedTree)
    ensures Agrees(DirectoryWrites(repository, p)[1], repository, t)
  {
    forall q | EmptyDirectoryKey(repository, q) == EmptyDirectoryKey(repository, p) ensures q == p {
      Cancel("empty_directory:" + repository + ":", q, p);
    }
    forall f | f in t.files ensures EmptyDirectoryKey(repository, p) != ExactArtifactKey(f.artifact.procedureId)
                                 && EmptyDirectoryKey(repository, p) != BlobKey(f.artifact.blob) {
      KindsDisjoint(f.artifact.procedureId, repository, p);
      KindsDisjoint(f.artifact.blob, repository, p);
    }
  }

  lemma {:induction false} DirectoriesPrefix(db: Db, paths: seq<string>, repository: string, t: ImportedTree, k: nat)
    requires Partial(db, repository, t) && forall p :: p in paths ==> p in t.directories
    requires k <= |DirectoriesWrites(repository, paths)|
    ensures Keeps(db, PutAll(db, DirectoriesWrites(repository, paths)[..k]), repository, t)
    ensures k == |DirectoriesWrites(repository, paths)| ==>
      forall p :: p in paths ==> DirectoryPresent(PutAll(db, DirectoriesWrites(repository, paths)[..k]), repository, p)
    decreases |paths|
  {
    if paths != [] {
      assert paths[0] in paths;
      var ws, rest := DirectoryWrites(repository, paths[0]), DirectoriesWrites(repository, paths[1..]);
      assert DirectoriesWrites(repository, paths) == ws + rest;
      SplitPrefix(ws, rest, db, k);
      if k < |ws| {
        DirectoryPrefix(db, paths[0], repository, t, k);
      } else {
        DirectoryPrefix(db, paths[0], repository, t, |ws|);
        DirectoriesPrefix(PutAll(db, ws), paths[1..], repository, t, k - |ws|);
        KeepsTrans(db, PutAll(db, ws), PutAll(db, (ws + rest)[..k]), repository, t);
      }
    }
  }

  /** Any prefix of the writes leaves a partial tree, and all of them a complete one. */
  lemma TreePrefix(db: Db, repository: string, t: ImportedTree, enc: Encoders, k: nat)
    requires Partial(db, repository, t) && Storable(t, enc) && k <= |TreeWrites(repository, t, enc)|
    ensures Partial(PutAll(db, TreeWrites(repository, t, enc)[..k]), repository, t)
    ensures k == |TreeWrites(repository, t, enc)| ==>
      Complete(PutAll(db, TreeWrites(repository, t, enc)[..k]), repository, t)
  {
    var ds, fs := DirectoriesWrites(repository, t.directories), FilesWrites(repository, t.files, enc);
    SplitPrefix(ds, fs, db, k);
    if k < |ds| {
      DirectoriesPrefix(db, t.directories, repository, t, k);
    } else {
      DirectoriesPrefix(db, t.directories, repository, t, |ds|);
      FilesPrefix(PutAll(db, ds), t.files, enc, repository, t, k - |ds|);
    }
  }

  ghost predicate Complete(db: Db, repository: string, t: ImportedTree) {
    && Partial(db, repository, t)
    && (forall f :: f in t.files ==> FilePresent(db, repository, f))
    && (forall p :: p in t.directories ==> DirectoryPresent(db, repository, p))
  }

  lemma FreshPartial(db: Db, repository: string, t: ImportedTree)
    requires Fresh(db, repository, t)
    ensures Partial(db, repository, t)
  {}

  /** All writes into a store that holds nothing for the repository leave the complete tree. */
  lemma TreeComplete(db: Db, repository: string, t: ImportedTree, enc: Encoders)
    requires Fresh(db, repository, t) && Storable(t, enc)
    ensures Complete(PutAll(db, TreeWrites(repository, t, enc)), repository, t)
  {
    var ws := TreeWrites(repository, t, enc);
    FreshPartial(db, repository, t);
    TreePrefix(db, repository, t, enc, |ws|);
    assert ws[..|ws|] == ws;
  }

  // ---- Reading a partial tree ----

  /** A canonical tree holding exactly the present entries of `t`. */
  ghost predicate PresentPart(r: ImportedTree, db: Db, repository: string, t: ImportedTree) {
    && Sorted(r.directories, TextLe) && NoDuplicates(r.directories)
    && Sorted(r.files, PathLe) && NoDuplicates(r.files)
    && (forall p :: p in r.directories <==> p in t.directories && DirectoryPresent(db, repository, p))
    && (forall f :: f in r.files <==> f in t.files && FilePresent(db, repository, f))
  }

  lemma IdOfKey(id: string)
    requires IsIdText(id)
    ensures ProcedureIdFromKey(ProcedureKey(id)) == Some(id)
  {}

  /** The key names the file, and the file's records are there. */
  ghost predicate ReadableAs(db: Db, key: string, f: ImportedFile) {
    && key == ProcedureKey(f.artifact.procedureId) && IsIdText(f.artifact.procedureId)
    && FileStored(db, f) && (f.artifact.isSymlink ==> f.blob == [])
  }

  lemma ReadFilesStep(db: Db, keys: seq<string>, f: ImportedFile)
    requires keys != [] && ReadableAs(db, keys[0], f)
    ensures ReadFiles(db, keys) == PrependFiles([f], ReadFiles(db, keys[1..]))
  {
    IdOfKey(f.artifact.procedureId);
  }

  lemma {:induction false} ReadEach(db: Db, keys: seq<string>, files: seq<ImportedFile>)
    requires |files| == |keys| && forall i :: 0 <= i < |keys| ==> ReadableAs(db, keys[i], files[i])
    ensures ReadFiles(db, keys) == Some(files)
    decreases |keys|
  {
    if keys != [] {
      ReadFilesStep(db, keys, files[0]);
      forall i | 0 <= i < |keys| - 1 ensures ReadableAs(db, keys[1..][i], files[1..][i]) {
        var n := i + 1;
        assert ReadableAs(db, keys[n], files[n]);
      }
      ReadEach(db, keys[1..], files[1..]);
      assert [files[0]] + files[1..] == files;
    }
  }

  /** The files read are one for each key, in the order of the keys. */
  lemma ReadFilesPartial(db: Db, keys: seq<string>, repository: string, t: ImportedTree, enc: Encoders)
    requires Partial(db, repository, t) && Storable(t, enc)
    requires forall k :: k in keys ==> k in ChildSet(db, RepositoryKey(repository), ContainsProcedure)
    ensures ReadFiles(db, keys).Some? && |ReadFiles(db, keys).value| == |keys|
    ensures forall i :: 0 <= i < |keys| ==>
      var f := ReadFiles(db, keys).value[i]; f in t.files && ProcedureKey(f.artifact.procedureId) == keys[i]
  {
    forall k | k in keys ensures exists f :: f in t.files && ReadableAs(db, k, f) {
      var f :| f in t.files && k == ProcedureKey(f.artifact.procedureId);
      assert FilePresent(db, repository, f);
      assert ReadableAs(db, k, f);
    }
    var files := ChooseFiles(db, keys, t.files);
    ReadEach(db, keys, files);
  }

  lemma {:induction false} ChooseFiles(db: Db, keys: seq<string>, from: seq<ImportedFile>)
    returns (files: seq<ImportedFile>)
    requires forall k :: k in keys ==> exists f :: f in from && ReadableAs(db, k, f)
    ensures |files| == |keys| && forall i :: 0 <= i < |keys| ==> files[i] in from && ReadableAs(db, keys[i], files[i])
    decreases |keys|
  {
    if keys == [] {
      files := [];
    } else {
      assert keys[0] in keys;
      var f :| f in from && ReadableAs(db, keys[0], f);
      forall k | k in keys[1..] ensures exists g :: g in from && ReadableAs(db, k, g) { assert k in keys; }
      var rest := ChooseFiles(db, keys[1..], from);
      files := [f] + rest;
    }
  }

  lemma ReadFilesMembers(files: seq<ImportedFile>, keys: seq<string>, t: ImportedTree, enc: Encoders)
    requires Storable(t, enc) && NoDuplicates(keys) && |files| == |keys|
    requires forall i :: 0 <= i < |keys| ==>
      files[i] in t.files && ProcedureKey(files[i].artifact.procedureId) == keys[i]
    ensures NoDuplicates(files)
    ensures forall f :: f in files <==> f in t.files && ProcedureKey(f.artifact.procedureId) in keys
  {
    forall f ensures f in files <==> f in t.files && ProcedureKey(f.artifact.procedureId) in keys {
      if f in files {
        var i :| 0 <= i < |files| && files[i] == f;
        assert keys[i] in keys;
      }
      if f in t.files && ProcedureKey(f.artifact.procedureId) in keys {
        var i :| 0 <= i < |keys| && keys[i] == ProcedureKey(f.artifact.procedureId);
        OnlyWithKey(t, enc, f);
        assert files[i] == f;
      }
    }
  }

  lemma OnlyWithKey(t: ImportedTree, enc: Encoders, f: ImportedFile)
    requires Storable(t, enc) && f in t.files
    ensures forall g :: g in t.files && ProcedureKey(g.artifact.procedureId) == ProcedureKey(f.artifact.procedureId) ==>
      g == f
  {
    forall g | g in t.files && ProcedureKey(g.artifact.procedureId) == ProcedureKey(f.artifact.procedureId)
      ensures g == f
    {
      Cancel("procedure:", g.artifact.procedureId, f.artifact.procedureId);
    }
  }

  lemma NoDuplicatesCons<T>(x: T, s: seq<T>)
    requires NoDuplicates(s) && x !in s
    ensures NoDuplicates([x] + s)
  {}

  lemma {:induction false} PathsOfPartial(db: Db, keys: seq<string>, repository: string, t: ImportedTree)
    requires Partial(db, repository, t) && NoDuplicates(keys)
    requires forall k :: k in keys ==> k in ChildSet(db, RepositoryKey(repository), ContainsEmptyDirectory)
    ensures NoDuplicates(PathsOf(db, keys))
    ensures forall p :: p in PathsOf(db, keys) <==>
      (p in t.directories && EmptyDirectoryKey(repository, p) in keys && DirectoryPresent(db, repository, p))
    decreases |keys|
  {
    if keys != [] {
      var k, tail := keys[0], keys[1..];
      assert k in keys && keys == [k] + tail;
      var p :| p in t.directories && k == EmptyDirectoryKey(repository, p);
      NoDuplicatesTail(keys);
      PathsOfPartial(db, tail, repository, t);
      forall q | EmptyDirectoryKey(repository, q) == k ensures q == p {
        Cancel("empty_directory:" + repository + ":", q, p);
      }
      var rest := PathsOf(db, tail);
      if GetNode(db, k).Some? {
        assert PathsOf(db, keys) == [p] + rest;
        NoDuplicatesCons(p, rest);
      }
    }
  }

  /** Reading a partial tree never panics and yields exactly its present entries. */
  lemma PartialReads(db: Db, repository: string, t: ImportedTree, enc: Encoders)
    requires Partial(db, repository, t) && Storable(t, enc)
    ensures Materialized(db, repository).Some?
    ensures PresentPart(Materialized(db, repository).value, db, repository, t)
  {
    var keys := Children(db, RepositoryKey(repository), ContainsProcedure);
    var dirs := Children(db, RepositoryKey(repository), ContainsEmptyDirectory);
    ReadFilesPartial(db, keys, repository, t, enc);
    ReadFilesMembers(ReadFiles(db, keys).value, keys, t, enc);
    PathsOfPartial(db, dirs, repository, t);
    OrdersTotal();
    var ps := PathsOf(db, dirs);
    SortedNoDuplicates(ps, TextLe);
    SortedNoDuplicates(SortBy(ps, TextLe), TextLe);
    SortedNoDuplicates(ReadFiles(db, keys).value, PathLe);
  }

  lemma SortedNoDuplicates<T(!new)>(s: seq<T>, le: (T, T) -> bool)
    requires TotalPreorder(le) && NoDuplicates(s)
    ensures Sorted(SortBy(s, le), le) && NoDuplicates(SortBy(s, le)) && forall x :: x in s <==> x in SortBy(s, le)
  {
    SortSorts(s, le);
    PermutationDistinct(s, SortBy(s, le));
  }

  /** Reading a complete tree yields its canonical form. */
  lemma CompleteReads(db: Db, repository: string, t: ImportedTree, enc: Encoders)
    requires Complete(db, repository, t) && GoodTree(t, enc)
    ensures Materialized(db, repository) == Some(Canonicalize(t))
  {
    PartialReads(db, repository, t, enc);
    var r := Materialized(db, repository).value;
    CanonicalUnique(t, r);
    SortedStays(r.directories, TextLe);
    SortedStays(r.files, PathLe);
  }

  // ---- The laws ----

  /** Persist into a store that holds nothing for the repository, then read: the canonical tree. */
  lemma PersistThenRead(db: Db, repository: string, t: ImportedTree, enc: Encoders)
    requires Fresh(db, repository, t) && GoodTree(t, enc)
    ensures Materialized(PutAll(db, TreeWrites(repository, t, enc)), repository) == Some(Canonicalize(t))
  {
    TreeComplete(db, repository, t, enc);
    CompleteReads(PutAll(db, TreeWrites(repository, t, enc)), repository, t, enc);
  }

  /** Persisting the same tree again changes no record. */
  lemma PersistTwice(db: Db, repository: string, t: ImportedTree, enc: Encoders)
    ensures PutAll(PutAll(db, TreeWrites(repository, t, enc)), TreeWrites(repository, t, enc))
         == PutAll(db, TreeWrites(repository, t, enc))
  {
    PutAllIdempotent(db, TreeWrites(repository, t, enc));
  }
}
