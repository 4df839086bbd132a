/** Two imports persisted under one repository name: what is read back, and when it materializes. */
module Reimport {
  import opened Wrappers
  import opened Ordering
  import opened Sequences
  import opened ExactTree
  import opened FileSystem
  import opened ExactImport
  import opened ExactMaterialize
  import opened Containment
  import opened GraphStore
  import opened Persistence
  import opened PersistenceLaws

  // ---- The tree read back ----

  function Without(ps: seq<string>, qs: seq<string>): (r: seq<string>)
    ensures forall p :: p in r <==> p in ps && p !in qs
  {
    if ps == [] then []
    else
      assert ps == [ps[0]] + ps[1..];
      (if ps[0] in qs then [] else [ps[0]]) + Without(ps[1..], qs)
  }

  /** Every directory once, every file of both. */
  function Merge(t: ImportedTree, u: ImportedTree): ImportedTree {
    ImportedTree(t.directories + Without(u.directories, t.directories), t.files + u.files)
  }

  predicate KeyLe(a: ImportedFile, b: ImportedFile) {
    TextLe(ProcedureKey(a.artifact.procedureId), ProcedureKey(b.artifact.procedureId))
  }

  /** Files in path order, those of one path in the order of their procedure keys. */
  function ReadOrder(t: ImportedTree): ImportedTree {
    ImportedTree(SortBy(t.directories, TextLe), SortBy(SortBy(t.files, KeyLe), PathLe))
  }

  lemma KeyLeTotal()
    ensures TotalPreorder(KeyLe)
  {
    OnTextTotal((f: ImportedFile) => ProcedureKey(f.artifact.procedureId));
    var le := OnText((f: ImportedFile) => ProcedureKey(f.artifact.procedureId));
    assert forall a, b :: KeyLe(a, b) == le(a, b);
  }

  lemma FilesInKeyOrder(files: seq<ImportedFile>, keys: seq<string>, t: ImportedTree, enc: Encoders)
    requires Storable(t, enc) && Sorted(keys, TextLe) && |files| == |keys|
    requires forall i :: 0 <= i < |keys| ==> ProcedureKey(files[i].artifact.procedureId) == keys[i]
    requires NoDuplicates(files) && forall f :: f in files <==> f in t.files
    ensures files == SortBy(t.files, KeyLe)
  {
    KeyLeTotal();
    SortSorts(t.files, KeyLe);
    SameElements(files, t.files);
    forall a, b | a in files && b in files && KeyLe(a, b) && KeyLe(b, a) ensures a == b {
      TextOrder(ProcedureKey(a.artifact.procedureId), ProcedureKey(b.artifact.procedureId));
      OnlyWithKey(t, enc, a);
    }
    SortedUnique(files, SortBy(t.files, KeyLe), KeyLe);
  }

  /** Whatever paths its files share, a complete tree is read in this order. */
  lemma CompleteReadsInOrder(db: Db, repository: string, t: ImportedTree, enc: Encoders)
    requires Complete(db, repository, t) && Storable(t, enc)
    ensures Materialized(db, repository) == Some(ReadOrder(t))
  {
    var keys := Children(db, RepositoryKey(repository), ContainsProcedure);
    ReadFilesPartial(db, keys, repository, t, enc);
    var files := ReadFiles(db, keys).value;
    ReadFilesMembers(files, keys, t, enc);
    forall f ensures f in files <==> f in t.files {
      if f in t.files { assert FilePresent(db, repository, f); }
    }
    FilesInKeyOrder(files, keys, t, enc);
    PartialReads(db, repository, t, enc);
    DirectoriesInOrder(db, repository, t, enc);
  }

  lemma DirectoriesInOrder(db: Db, repository: string, t: ImportedTree, enc: Encoders)
    requires Complete(db, repository, t) && Storable(t, enc)
    ensures Materialized(db, repository).Some?
      && Materialized(db, repository).value.directories == SortBy(t.directories, TextLe)
  {
    PartialReads(db, repository, t, enc);
    var ds := Materialized(db, repository).value.directories;
    OrdersTotal();
    SortSorts(t.directories, TextLe);
    forall p ensures p in ds <==> p in t.directories {
      if p in t.directories { assert DirectoryPresent(db, repository, p); }
    }
    SameElements(ds, t.directories);
    forall a, b | a in ds && b in ds && TextLe(a, b) && TextLe(b, a) ensures a == b { TextOrder(a, b); }
    SortedUnique(ds, SortBy(t.directories, TextLe), TextLe);
  }

  // ---- Writing both ----

  /** Writing some entries of a tree makes them present and keeps the others. */
  lemma PartWritten(db: Db, repository: string, part: ImportedTree, whole: ImportedTree, enc: Encoders)
    requires Partial(db, repository, whole) && Storable(whole, enc)
    requires forall p :: p in part.directories ==> p in whole.directories
    requires forall f :: f in part.files ==> f in whole.files
    ensures Keeps(db, PutAll(db, TreeWrites(repository, part, enc)), repository, whole)
    ensures var db' := PutAll(db, TreeWrites(repository, part, enc));
      && (forall p :: p in part.directories ==> DirectoryPresent(db', repository, p))
      && (forall f :: f in part.files ==> FilePresent(db', repository, f))
  {
    var ds, fs := DirectoriesWrites(repository, part.directories), FilesWrites(repository, part.files, enc);
    PutAllConcat(db, ds, fs);
    DirectoriesPrefix(db, part.directories, repository, whole, |ds|);
    assert ds[..|ds|] == ds && fs[..|fs|] == fs;
    var mid := PutAll(db, ds);
    FilesPrefix(mid, part.files, enc, repository, whole, |fs|);
    KeepsTrans(db, mid, PutAll(mid, fs), repository, whole);
  }

  /** The two trees share no id and have no colliding contents. */
  ghost predicate Unrelated(t: ImportedTree, u: ImportedTree, enc: Encoders) {
    && (forall f, g :: f in t.files && g in u.files ==> f.artifact.procedureId != g.artifact.procedureId)
    && NoCollision(t.files, u.files, enc) && NoCollision(u.files, t.files, enc)
  }

  lemma {:induction false} WithoutUnique(ps: seq<string>, qs: seq<string>)
    requires NoDuplicates(ps)
    ensures NoDuplicates(Without(ps, qs))
  {
    if ps != [] {
      NoDuplicatesTail(ps);
      WithoutUnique(ps[1..], qs);
    }
  }

  lemma NoDuplicatesConcat<T>(s: seq<T>, t: seq<T>)
    requires NoDuplicates(s) && NoDuplicates(t) && forall x :: x in s ==> x !in t
    ensures NoDuplicates(s + t)
  {
    forall i, j | 0 <= i < |s + t| && 0 <= j < |s + t| && (s + t)[i] == (s + t)[j] ensures i == j {
      assert i < |s| ==> (s + t)[i] in s;
      assert j < |s| ==> (s + t)[j] in s;
      assert i >= |s| ==> (s + t)[i] == t[i - |s|];
      assert j >= |s| ==> (s + t)[j] == t[j - |s|];
    }
  }

  lemma MergeStorable(t: ImportedTree, u: ImportedTree, enc: Encoders)
    requires Storable(t, enc) && Storable(u, enc) && Unrelated(t, u, enc)
    ensures Storable(Merge(t, u), enc)
  {
    WithoutUnique(u.directories, t.directories);
    NoDuplicatesConcat(t.directories, Without(u.directories, t.directories));
    NoDuplicatesConcat(t.files, u.files);
  }

  /** Persisting a second import under the same name: all files of both are read back, however their paths meet. */
  lemma ReimportReads(db: Db, repository: string, t: ImportedTree, u: ImportedTree, enc: Encoders)
    requires Storable(t, enc) && Storable(u, enc) && Unrelated(t, u, enc) && Fresh(db, repository, Merge(t, u))
    ensures Materialized(PutAll(PutAll(db, TreeWrites(repository, t, enc)), TreeWrites(repository, u, enc)), repository)
         == Some(ReadOrder(Merge(t, u)))
  {
    var m := Merge(t, u);
    MergeStorable(t, u, enc);
    var mid := PutAll(db, TreeWrites(repository, t, enc));
    FreshPartial(db, repository, m);
    PartWritten(db, repository, t, m, enc);
    PartWritten(mid, repository, u, m, enc);
    MergedComplete(mid, PutAll(mid, TreeWrites(repository, u, enc)), repository, t, u);
    CompleteReadsInOrder(PutAll(mid, TreeWrites(repository, u, enc)), repository, m, enc);
  }

  lemma MergedComplete(mid: Db, db: Db, repository: string, t: ImportedTree, u: ImportedTree)
    requires Keeps(mid, db, repository, Merge(t, u))
    requires forall p :: p in t.directories ==> DirectoryPresent(mid, repository, p)
    requires forall f :: f in t.files ==> FilePresent(mid, repository, f)
    requires forall p :: p in u.directories ==> DirectoryPresent(db, repository, p)
    requires forall f :: f in u.files ==> FilePresent(db, repository, f)
    ensures Complete(db, repository, Merge(t, u))
  {
    var m := Merge(t, u);
    forall p | p in m.directories ensures DirectoryPresent(db, repository, p) {
      if p in t.directories { assert DirectoryPresent(mid, repository, p); }
    }
    forall f | f in m.files ensures FilePresent(db, repository, f) {
      if f in t.files { assert FilePresent(mid, repository, f); }
    }
  }

  // ---- Materializing what was read ----

  /** What the two disks have in common are directories and regular files. */
  ghost predicate Compatible(d: Disk, e: Disk) {
    forall p :: p in d && p in e ==> (d[p].Dir? && e[p].Dir?) || (d[p].File? && e[p].File?)
  }

  /** A disk, and a tree that lists its entries. */
  datatype Import = Import(disk: Disk, tree: ImportedTree, probe: Probe) {
    ghost predicate Valid() { WellFormed(disk) && Describes(disk, tree, probe) }

    ghost predicate IsDir(p: Path) { p in disk && disk[p].Dir? }

    /** One of the tree's files, as the disk has it at `p`. */
    ghost predicate Sits(f: ImportedFile, p: Path) {
      && f in tree.files && p in disk && p != [] && f.artifact.originalPath == Join(p)
      && (disk[p].Link? <==> f.artifact.isSymlink) && !disk[p].Dir?
      && (f.artifact.isSymlink ==> f.artifact.symlinkTarget.Some? && f.artifact.symlinkTarget.value != "")
    }
  }

  lemma FileSits(x: Import, f: ImportedFile, p: Path)
    requires x.Valid() && f in x.tree.files && PathOf(f) == Some(p)
    ensures x.Sits(f, p)
  {
    var q := Split(f.artifact.originalPath);
    assert Captures(f, q, x.disk[q], x.probe);
    ResolveJoined(q);
  }

  lemma FileResolves(x: Import, f: ImportedFile)
    requires x.Valid() && f in x.tree.files
    ensures PathOf(f).Some?
  {
    ResolveJoined(Split(f.artifact.originalPath));
  }

  lemma DirectorySits(x: Import, s: string)
    requires x.Valid() && s in x.tree.directories
    ensures ResolveWithinRoot(s).Some? && x.IsDir(ResolveWithinRoot(s).value)
  {
    ResolveJoined(Split(s));
  }

  lemma AboveIsDir(x: Import, p: Path, q: Path)
    requires x.Valid() && q in x.disk && Above(p, Some(q)) && (p != q || x.disk[q].Dir?)
    ensures x.IsDir(p)
  {
    if p != q { AboveInDisk(x.disk, p, q); }
  }

  lemma AboveInDisk(d: Disk, p: Path, q: Path)
    requires WellFormed(d) && q in d && p != [] && p <= q && p != q
    ensures p in d && d[p].Dir?
  {
    assert p == q[..|p|] && |p| < |q|;
  }

  /** The tree lists the entries of both, every file once. */
  ghost predicate ListsBoth(r: ImportedTree, x: Import, y: Import) {
    && x.Valid() && y.Valid()
    && (forall s :: s in r.directories <==> s in x.tree.directories || s in y.tree.directories)
    && (forall f :: f in r.files <==> f in x.tree.files || f in y.tree.files)
    && NoDuplicates(r.files) && forall f, g :: f in x.tree.files && g in y.tree.files ==> f != g
  }

  ghost predicate SitsIn(x: Import, y: Import, f: ImportedFile, p: Path) { x.Sits(f, p) || y.Sits(f, p) }

  ghost predicate DirIn(x: Import, y: Import, p: Path) { x.IsDir(p) || y.IsDir(p) }

  lemma ListedSits(r: ImportedTree, x: Import, y: Import, i: nat, p: Path)
    requires ListsBoth(r, x, y) && i < |r.files| && PathOf(r.files[i]) == Some(p)
    ensures SitsIn(x, y, r.files[i], p)
  {
    var f := r.files[i];
    assert f in r.files;
    if f in x.tree.files { FileSits(x, f, p); } else { FileSits(y, f, p); }
  }

  lemma OnTheWay(r: ImportedTree, x: Import, y: Import, i: nat, p: Path, q: Path)
    requires ListsBoth(r, x, y) && i < |r.files| && PathOf(r.files[i]) == Some(q) && Above(p, Some(q)) && p != q
    ensures DirIn(x, y, p)
  {
    ListedSits(r, x, y, i, q);
    if x.Sits(r.files[i], q) { AboveIsDir(x, p, q); } else { AboveIsDir(y, p, q); }
  }

  lemma ListedDirectory(r: ImportedTree, x: Import, y: Import, i: nat, p: Path)
    requires ListsBoth(r, x, y) && i <= |r.files| && DirectoryAt(r, i, p)
    ensures DirIn(x, y, p)
  {
    if s :| s in r.directories && Above(p, ResolveWithinRoot(s)) {
      var q := ResolveWithinRoot(s).value;
      if s in x.tree.directories {
        DirectorySits(x, s);
        AboveIsDir(x, p, q);
      } else {
        DirectorySits(y, s);
        AboveIsDir(y, p, q);
      }
    } else {
      var j :| 0 <= j < i && Above(p, PathOf(r.files[j])) && PathOf(r.files[j]) != Some(p);
      OnTheWay(r, x, y, j, p, PathOf(r.files[j]).value);
    }
  }

  lemma NoFileAtDir(x: Import, y: Import, f: ImportedFile, p: Path)
    requires Compatible(x.disk, y.disk) && SitsIn(x, y, f, p)
    ensures !DirIn(x, y, p)
  {}

  /** Two listed files of one path are regular files of the two disks. */
  lemma SamePathBothRegular(r: ImportedTree, x: Import, y: Import, j: nat, i: nat, p: Path)
    requires ListsBoth(r, x, y) && Compatible(x.disk, y.disk) && j < i < |r.files|
    requires PathOf(r.files[j]) == Some(p) && PathOf(r.files[i]) == Some(p)
    ensures !r.files[j].artifact.isSymlink && !r.files[i].artifact.isSymlink
  {
    var f, g := r.files[j], r.files[i];
    assert f != g;
    ListedSits(r, x, y, j, p);
    ListedSits(r, x, y, i, p);
  }

  lemma NothingOnTheWay(r: ImportedTree, x: Import, y: Import, i: nat, j: nat, p: Path, n: nat)
    requires ListsBoth(r, x, y) && Compatible(x.disk, y.disk) && i < |r.files| && j < |r.files|
    requires PathOf(r.files[i]) == Some(p) && 0 < n < |p|
    ensures PathOf(r.files[j]) != Some(p[..n])
  {
    if PathOf(r.files[j]) == Some(p[..n]) {
      OnTheWay(r, x, y, i, p[..n], p);
      ListedSits(r, x, y, j, p[..n]);
      NoFileAtDir(x, y, r.files[j], p[..n]);
    }
  }

  lemma CompatibleNotThrough(r: ImportedTree, x: Import, y: Import, i: nat)
    requires ListsBoth(r, x, y) && Compatible(x.disk, y.disk) && i < |r.files|
    ensures !Through(r, i)
  {
    if PathOf(r.files[i]).Some? {
      var p := PathOf(r.files[i]).value;
      forall n, j | 0 < n <= |p| && 0 <= j < i && PathOf(r.files[j]) == Some(p[..n])
        ensures n == |p| && !r.files[j].artifact.isSymlink
      {
        if n < |p| {
          NothingOnTheWay(r, x, y, i, j, p, n);
        } else {
          assert p[..n] == p;
          SamePathBothRegular(r, x, y, j, i, p);
        }
      }
    }
  }

  lemma CompatibleNotBlocked(r: ImportedTree, x: Import, y: Import, i: nat)
    requires ListsBoth(r, x, y) && Compatible(x.disk, y.disk) && i < |r.files|
    ensures !Blocked(r, i)
  {
    ListedResolves(r, x, y, i);
    var p := PathOf(r.files[i]).value;
    ListedSits(r, x, y, i, p);
    forall n | 0 < n < |p| ensures !FileAt(r, i, p[..n]) {
      forall j | 0 <= j < i ensures PathOf(r.files[j]) != Some(p[..n]) { NothingOnTheWay(r, x, y, i, j, p, n); }
    }
    if DirectoryAt(r, i, p) {
      ListedDirectory(r, x, y, i, p);
      NoFileAtDir(x, y, r.files[i], p);
    }
    LinkNotBlocked(r, x, y, i, p);
  }

  lemma ListedResolves(r: ImportedTree, x: Import, y: Import, i: nat)
    requires ListsBoth(r, x, y) && i < |r.files|
    ensures PathOf(r.files[i]).Some?
  {
    var f := r.files[i];
    assert f in r.files;
    if f in x.tree.files { FileResolves(x, f); } else { FileResolves(y, f); }
  }

  lemma LinkNotBlocked(r: ImportedTree, x: Import, y: Import, i: nat, p: Path)
    requires ListsBoth(r, x, y) && Compatible(x.disk, y.disk) && i < |r.files| && PathOf(r.files[i]) == Some(p)
    ensures r.files[i].artifact.isSymlink ==> !LinkAt(r, i, p) && !FileAt(r, i, p)
  {
    forall j | 0 <= j < i && PathOf(r.files[j]) == Some(p) ensures !r.files[i].artifact.isSymlink {
      SamePathBothRegular(r, x, y, j, i, p);
    }
  }

  lemma DirectoryBlocks(r: ImportedTree, s: string, f: ImportedFile, p: Path)
    requires s in r.directories && f in r.files && ResolveWithinRoot(s) == Some(p) && PathOf(f) == Some(p) && p != []
    ensures exists i :: 0 <= i < |r.files| && !Plain(r, i)
  {
    var i :| 0 <= i < |r.files| && r.files[i] == f;
    assert Above(p, ResolveWithinRoot(s));
    assert DirectoryAt(r, i, p) && !Plain(r, i);
  }

  lemma DirAndFileBlock(r: ImportedTree, a: Import, b: Import, p: Path)
    requires a.Valid() && b.Valid() && a.IsDir(p) && p in b.disk && !b.disk[p].Dir?
    requires forall s :: s in a.tree.directories ==> s in r.directories
    requires forall f :: f in b.tree.files ==> f in r.files
    ensures exists i :: 0 <= i < |r.files| && !Plain(r, i)
  {
    var f :| f in b.tree.files && f.artifact.originalPath == Join(p);
    ResolveJoined(p);
    DirectoryBlocks(r, Join(p), f, p);
  }

  lemma SecondAtLink(r: ImportedTree, i: nat, j: nat, p: Path)
    requires i < j < |r.files| && p != [] && PathOf(r.files[i]) == Some(p) && PathOf(r.files[j]) == Some(p)
    requires r.files[i].artifact.isSymlink || r.files[j].artifact.isSymlink
    ensures !Plain(r, j)
  {
    assert p[..|p|] == p;
    if r.files[i].artifact.isSymlink {
      assert LinkAt(r, j, p[..|p|]);
    } else {
      assert FileAt(r, j, p);
    }
  }

  lemma LinkTwiceBlocks(r: ImportedTree, x: Import, y: Import, p: Path)
    requires ListsBoth(r, x, y) && p in x.disk && p in y.disk && !x.disk[p].Dir? && !y.disk[p].Dir?
    requires x.disk[p].Link? || y.disk[p].Link?
    ensures exists i :: 0 <= i < |r.files| && !Plain(r, i)
  {
    var f :| f in x.tree.files && f.artifact.originalPath == Join(p);
    var g :| g in y.tree.files && g.artifact.originalPath == Join(p);
    assert f in r.files && g in r.files && f != g;
    ResolveJoined(p);
    FileSits(x, f, p);
    FileSits(y, g, p);
    var i :| 0 <= i < |r.files| && r.files[i] == f;
    var j :| 0 <= j < |r.files| && r.files[j] == g;
    if i < j { SecondAtLink(r, i, j, p); } else { SecondAtLink(r, j, i, p); }
  }

  lemma IncompatibleBlocks(r: ImportedTree, x: Import, y: Import)
    requires ListsBoth(r, x, y) && !Compatible(x.disk, y.disk)
    ensures exists i :: 0 <= i < |r.files| && !Plain(r, i)
  {
    var p :| p in x.disk && p in y.disk
      && !((x.disk[p].Dir? && y.disk[p].Dir?) || (x.disk[p].File? && y.disk[p].File?));
    if x.disk[p].Dir? {
      DirAndFileBlock(r, x, y, p);
    } else if y.disk[p].Dir? {
      DirAndFileBlock(r, y, x, p);
    } else {
      LinkTwiceBlocks(r, x, y, p);
    }
  }

  /** A tree of two imports materializes exactly when their disks have only directories and regular files in common. */
  lemma BothMaterializeExactly(r: ImportedTree, x: Import, y: Import, defaultMode: nat)
    requires ListsBoth(r, x, y)
    ensures Materialize(map[], r, defaultMode).ending.Done? <==> Compatible(x.disk, y.disk)
  {
    ThroughExactly(r, defaultMode);
    forall s | s in r.directories ensures ResolveWithinRoot(s).Some? {
      if s in x.tree.directories { DirectorySits(x, s); } else { DirectorySits(y, s); }
    }
    if Compatible(x.disk, y.disk) {
      forall i | 0 <= i < |r.files| ensures Plain(r, i) {
        CompatibleNotThrough(r, x, y, i);
        CompatibleNotBlocked(r, x, y, i);
      }
    } else {
      IncompatibleBlocks(r, x, y);
    }
  }

  lemma ReadListsBoth(x: Import, y: Import, enc: Encoders)
    requires x.Valid() && y.Valid() && Storable(x.tree, enc) && Storable(y.tree, enc) && Unrelated(x.tree, y.tree, enc)
    ensures ListsBoth(ReadOrder(Merge(x.tree, y.tree)), x, y)
  {
    var m := Merge(x.tree, y.tree);
    MergeStorable(x.tree, y.tree, enc);
    OrdersTotal();
    KeyLeTotal();
    SortedNoDuplicates(m.directories, TextLe);
    SortedNoDuplicates(m.files, KeyLe);
    SortedNoDuplicates(SortBy(m.files, KeyLe), PathLe);
  }

  /**
   * Import twice, persist both under one name and read back: the result materializes exactly when what the two
   * disks have in common are directories and regular files.
   */
  lemma ReimportMaterializesExactly(
    db: Db, repository: string, x: Import, y: Import, enc: Encoders, defaultMode: nat)
    requires x.Valid() && y.Valid() && Storable(x.tree, enc) && Storable(y.tree, enc) && Unrelated(x.tree, y.tree, enc)
    requires Fresh(db, repository, Merge(x.tree, y.tree))
    ensures
      var first := PutAll(db, TreeWrites(repository, x.tree, enc));
      var read := Materialized(PutAll(first, TreeWrites(repository, y.tree, enc)), repository);
      && read.Some?
      && (Materialize(map[], read.value, defaultMode).ending.Done? <==> Compatible(x.disk, y.disk))
  {
    ReimportReads(db, repository, x.tree, y.tree, enc);
    ReadListsBoth(x, y, enc);
    BothMaterializeExactly(ReadOrder(Merge(x.tree, y.tree)), x, y, defaultMode);
  }

  // ---- The same disk twice ----

  lemma RewriteWithin(d: Disk, goal: Disk, f: ImportedFile, p: Path, probe: Probe, defaultMode: nat)
    requires WellFormed(goal) && Within(d, goal) && p in goal && goal[p].File? && Captures(f, p, goal[p], probe)
    ensures var o := AddFile(d, f, defaultMode);
      o.ending.Done? && Within(o.disk, goal) && p in o.disk && forall q :: q in d ==> q in o.disk
  {
    ParentWithin(d, goal, p);
    EntryLands(d, f, p, goal[p], probe, defaultMode);
  }

  lemma {:induction false} AllRewritesWithin(
      d: Disk, goal: Disk, files: seq<ImportedFile>, probe: Probe, defaultMode: nat)
    requires WellFormed(goal) && Within(d, goal)
    requires forall f :: f in files ==> ListedCapture(f, goal, probe)
    ensures var o := AddFiles(d, files, defaultMode);
      && o.ending.Done? && Within(o.disk, goal) && (forall q :: q in d ==> q in o.disk)
      && (forall f :: f in files ==> Split(f.artifact.originalPath) in o.disk)
    decreases |files|
  {
    if files != [] {
      assert files == [files[0]] + files[1..] && ListedCapture(files[0], goal, probe);
      RewriteWithin(d, goal, files[0], Split(files[0].artifact.originalPath), probe, defaultMode);
      AllRewritesWithin(AddFile(d, files[0], defaultMode).disk, goal, files[1..], probe, defaultMode);
    }
  }

  /** An unchanged disk imported twice comes back as it was exactly when it holds no link. */
  lemma SameDiskTwice(r: ImportedTree, x: Import, y: Import, defaultMode: nat)
    requires ListsBoth(r, x, y) && x.disk == y.disk && x.probe == y.probe
    ensures Materialize(map[], r, defaultMode) == Outcome(Normalized(x.disk), Done)
       <==> forall p :: p in x.disk ==> !x.disk[p].Link?
  {
    BothMaterializeExactly(r, x, y, defaultMode);
    CompatibleWithItself(x.disk);
    if forall p :: p in x.disk ==> !x.disk[p].Link? { NoLinksTwice(r, x, y, defaultMode); }
  }

  lemma CompatibleWithItself(d: Disk)
    ensures Compatible(d, d) <==> forall p :: p in d ==> !d[p].Link?
  {
    forall p | p in d ensures d[p].Link? <==> !((d[p].Dir? && d[p].Dir?) || (d[p].File? && d[p].File?)) {}
  }

  lemma NoLinksTwice(r: ImportedTree, x: Import, y: Import, defaultMode: nat)
    requires ListsBoth(r, x, y) && x.disk == y.disk && x.probe == y.probe
    requires forall p :: p in x.disk ==> !x.disk[p].Link?
    ensures Materialize(map[], r, defaultMode) == Outcome(Normalized(x.disk), Done)
  {
    var d := x.disk;
    forall s | s in r.directories ensures Split(s) in d && d[Split(s)].Dir? && s == Join(Split(s)) {}
    AllDirectoriesWithin(map[], d, r.directories);
    var dirs := AddDirectories(map[], r.directories).disk;
    forall f | f in r.files ensures ListedCapture(f, d, x.probe) {}
    AllRewritesWithin(dirs, d, r.files, x.probe, defaultMode);
    var all := AddFiles(dirs, r.files, defaultMode).disk;
    forall p | p in d ensures p in all { ListedWritten(r, x, y, p, dirs, all); }
    WithinWhole(all, d);
  }

  /** A regular file of the disk, recorded exactly. */
  ghost predicate ListedCapture(f: ImportedFile, d: Disk, probe: Probe) {
    var p := Split(f.artifact.originalPath);
    p in d && d[p].File? && Captures(f, p, d[p], probe)
  }

  lemma ListedWritten(r: ImportedTree, x: Import, y: Import, p: Path, dirs: Disk, all: Disk)
    requires ListsBoth(r, x, y) && p in x.disk
    requires (forall s :: s in r.directories ==> Split(s) in dirs) && forall q :: q in dirs ==> q in all
    requires forall f :: f in r.files ==> Split(f.artifact.originalPath) in all
    ensures p in all
  {
    SplitOfEntry(x.disk, p);
    if x.disk[p].Dir? {
      assert Join(p) in r.directories;
    } else {
      var f :| f in x.tree.files && f.artifact.originalPath == Join(p);
      assert f in r.files;
    }
  }
}
