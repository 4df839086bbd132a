/** Writing an imported tree to an empty root, and the exact-import law. */
module ExactMaterialize {
  import opened Wrappers
  import opened Sequences
  import opened ExactTree
  import opened FileSystem
  import opened ExactImport
  import Persistence
  import PersistenceLaws
  import GraphStore

  const FALLBACK_MODE: nat := 420 // 0o644

  function ModeBits(mode: string): nat {
    match ParseOctal(mode)
    case Some(m) => m
    case None => FALLBACK_MODE
  }

  function AddDirectory(d: Disk, posix: string): Outcome {
    match ResolveWithinRoot(posix)
    case None => Outcome(d, Failed(PathEscapesRoot(posix)))
    case Some(p) => CreateDirAll(d, p)
  }

  function AddFile(d: Disk, f: ImportedFile, defaultMode: nat): Outcome {
    var a := f.artifact;
    match ResolveWithinRoot(a.originalPath)
    case None => Outcome(d, Failed(PathEscapesRoot(a.originalPath)))
    case Some(p) =>
      var parent := CreateDirAll(d, p[..|p| - 1]);
      if !parent.ending.Done? then parent
      else if a.isSymlink then
        (match a.symlinkTarget
         case None => Outcome(parent.disk, Failed(MissingLinkTarget(a.originalPath)))
         case Some(target) => CreateLink(parent.disk, p, target))
      else
        var written := WriteFile(parent.disk, p, f.blob, defaultMode);
        if !written.ending.Done? then written else Outcome(SetMode(written.disk, p, ModeBits(a.mode)), Done)
  }

  function AddDirectories(d: Disk, paths: seq<string>): Outcome
    decreases |paths|
  {
    if paths == [] then Outcome(d, Done)
    else
      var o := AddDirectory(d, paths[0]);
      if !o.ending.Done? then o else AddDirectories(o.disk, paths[1..])
  }

  function AddFiles(d: Disk, files: seq<ImportedFile>, defaultMode: nat): Outcome
    decreases |files|
  {
    if files == [] then Outcome(d, Done)
    else
      var o := AddFile(d, files[0], defaultMode);
      if !o.ending.Done? then o else AddFiles(o.disk, files[1..], defaultMode)
  }

  /** Directories first, then files; the first error or followed link stops it with what was written so far. */
  function Materialize(d: Disk, t: ImportedTree, defaultMode: nat): Outcome {
    if d != map[] then Outcome(d, Failed(RootNotUsable))
    else
      var o := AddDirectories(d, t.directories);
      if !o.ending.Done? then o else AddFiles(o.disk, t.files, defaultMode)
  }

  /** The materialization root on disk. */
  class Root {
    var disk: Disk
    const defaultMode: nat

    constructor (disk: Disk, defaultMode: nat)
      ensures this.disk == disk && this.defaultMode == defaultMode
    {
      this.disk, this.defaultMode := disk, defaultMode;
    }

    method MaterializeTree(t: ImportedTree) returns (ending: Ending)
      modifies this
      ensures Outcome(disk, ending) == Materialize(old(disk), t, defaultMode)
    {
      if disk != map[] { return Failed(RootNotUsable); }
      ghost var dirs := AddDirectories(disk, t.directories);
      assert t.directories[0..] == t.directories && t.files[0..] == t.files;
      for i := 0 to |t.directories|
        invariant AddDirectories(disk, t.directories[i..]) == dirs
      {
        assert t.directories[i..][0] == t.directories[i] && t.directories[i..][1..] == t.directories[i + 1..];
        var o := AddDirectory(disk, t.directories[i]);
        disk := o.disk;
        if !o.ending.Done? { return o.ending; }
      }
      assert t.directories[|t.directories|..] == [];
      ghost var all := AddFiles(disk, t.files, defaultMode);
      for i := 0 to |t.files|
        invariant AddFiles(disk, t.files[i..], defaultMode) == all
      {
        assert t.files[i..][0] == t.files[i] && t.files[i..][1..] == t.files[i + 1..];
        ending := WriteEntry(t.files[i]);
        if !ending.Done? { return; }
      }
      assert t.files[|t.files|..] == [];
      return Done;
    }

    /** Parent directories, then the link, or the content followed by its mode. */
    method WriteEntry(f: ImportedFile) returns (ending: Ending)
      modifies this
      ensures Outcome(disk, ending) == AddFile(old(disk), f, defaultMode)
    {
      var a := f.artifact;
      var target := ResolveWithinRoot(a.originalPath);
      if target.None? { return Failed(PathEscapesRoot(a.originalPath)); }
      var p := target.value;
      var parent := CreateDirAll(disk, p[..|p| - 1]);
      disk := parent.disk;
      if !parent.ending.Done? { return parent.ending; }
      if a.isSymlink {
        if a.symlinkTarget.None? { return Failed(MissingLinkTarget(a.originalPath)); }
        var linked := CreateLink(disk, p, a.symlinkTarget.value);
        disk := linked.disk;
        return linked.ending;
      }
      var written := WriteFile(disk, p, f.blob, defaultMode);
      disk := written.disk;
      if !written.ending.Done? { return written.ending; }
      disk := SetMode(disk, p, ModeBits(a.mode));
      return Done;
    }
  }

  // ---- The law ----

  /** What materializing can bring back: the low nine permission bits of a file. */
  function Normal(e: DiskEntry): DiskEntry {
    match e
    case File(content, mode) => File(content, mode % 512)
    case _ => e
  }

  function Normalized(d: Disk): Disk { map p | p in d :: Normal(d[p]) }

  /** Everything written so far is right. */
  ghost predicate Within(d: Disk, goal: Disk) {
    forall p :: p in d ==> p in goal && d[p] == Normal(goal[p])
  }

  lemma DirectoriesWithin(d: Disk, goal: Disk, p: Path)
    requires WellFormed(goal) && Within(d, goal) && (p == [] || (p in goal && goal[p].Dir?))
    ensures var o := CreateDirAll(d, p);
      && o.ending.Done? && Within(o.disk, goal) && (p != [] ==> p in o.disk)
      && (forall q :: q in d ==> q in o.disk)
      && (forall q :: q in o.disk && q !in d ==> o.disk[q].Dir?)
  {
    forall i | 0 < i <= |p| ensures p[..i] in goal && goal[p[..i]].Dir? {
      if i == |p| { assert p[..i] == p; }
    }
    ObstacleFound(d, p, 0);
    var o := CreateDirAll(d, p);
    if p != [] { assert p[..|p|] == p && p[..|p|] in o.disk; }
  }

  lemma DirectoryListed(d: Disk, goal: Disk, s: string)
    requires WellFormed(goal) && Within(d, goal) && Split(s) in goal && goal[Split(s)].Dir? && s == Join(Split(s))
    ensures var o := AddDirectory(d, s);
      && o.ending.Done? && Within(o.disk, goal) && Split(s) in o.disk
      && (forall q :: q in d ==> q in o.disk)
      && (forall q :: q in o.disk && q !in d ==> o.disk[q].Dir?)
  {
    ResolveJoined(Split(s));
    DirectoriesWithin(d, goal, Split(s));
  }

  lemma {:induction false} AllDirectoriesWithin(d: Disk, goal: Disk, paths: seq<string>)
    requires WellFormed(goal) && Within(d, goal) && forall q :: q in d ==> d[q].Dir?
    requires forall s :: s in paths ==> Split(s) in goal && goal[Split(s)].Dir? && s == Join(Split(s))
    ensures var o := AddDirectories(d, paths);
      && o.ending.Done? && Within(o.disk, goal)
      && (forall q :: q in d ==> q in o.disk) && (forall q :: q in o.disk ==> o.disk[q].Dir?)
      && (forall s :: s in paths ==> Split(s) in o.disk)
    decreases |paths|
  {
    if paths != [] {
      assert paths[0] in paths;
      DirectoryListed(d, goal, paths[0]);
      var o := AddDirectory(d, paths[0]);
      AllDirectoriesWithin(o.disk, goal, paths[1..]);
      assert paths == [paths[0]] + paths[1..];
    }
  }

  /**
   * What a written entry leaves at its path: a link with its target, or the content with the mode its octal text
   * spells, 0644 when it spells none.
   */
  lemma EntryWritten(d: Disk, f: ImportedFile, p: Path, defaultMode: nat)
    requires ResolveWithinRoot(f.artifact.originalPath) == Some(p) && AddFile(d, f, defaultMode).ending.Done?
    ensures var a, d' := f.artifact, AddFile(d, f, defaultMode).disk;
      && p in d'
      && (a.isSymlink ==> a.symlinkTarget.Some? && d'[p] == Link(a.symlinkTarget.value))
      && (!a.isSymlink && ParseOctal(a.mode).Some? ==> d'[p] == File(f.blob, ParseOctal(a.mode).value))
      && (!a.isSymlink && ParseOctal(a.mode).None? ==> d'[p] == File(f.blob, 6 * 64 + 4 * 8 + 4))
  {}

  /** A captured entry lands on the disk as it was, where nothing or a regular file is in the way. */
  lemma EntryLands(d: Disk, f: ImportedFile, p: Path, e: DiskEntry, probe: Probe, defaultMode: nat)
    requires ValidPath(p) && Captures(f, p, e, probe) && (e.Link? ==> e.target != "")
    requires CreateDirAll(d, p[..|p| - 1]).ending.Done?
    requires var d0 := CreateDirAll(d, p[..|p| - 1]).disk; p !in d0 || (d0[p].File? && e.File?)
    ensures AddFile(d, f, defaultMode) == Outcome(CreateDirAll(d, p[..|p| - 1]).disk[p := Normal(e)], Done)
  {
    ResolveJoined(p);
    if e.File? { ModeRoundTrip(e.mode); }
  }

  lemma FileWithin(d: Disk, goal: Disk, f: ImportedFile, p: Path, probe: Probe, defaultMode: nat)
    requires WellFormed(goal) && Within(d, goal) && p in goal && p !in d && Captures(f, p, goal[p], probe)
    ensures var o := AddFile(d, f, defaultMode);
      && o.ending.Done? && Within(o.disk, goal) && p in o.disk
      && (forall q :: q in d ==> q in o.disk)
      && (forall q :: q in o.disk && q !in d && q != p ==> o.disk[q].Dir?)
  {
    ParentWithin(d, goal, p);
    var d0 := CreateDirAll(d, p[..|p| - 1]).disk;
    assert p !in d0 by { assert !goal[p].Dir?; }
    EntryLands(d, f, p, goal[p], probe, defaultMode);
  }

  lemma ParentWithin(d: Disk, goal: Disk, p: Path)
    requires WellFormed(goal) && Within(d, goal) && p in goal
    ensures var o := CreateDirAll(d, p[..|p| - 1]);
      && o.ending.Done? && Within(o.disk, goal)
      && (forall q :: q in d ==> q in o.disk)
      && (forall q :: q in o.disk && q !in d ==> o.disk[q].Dir?)
  {
    var parent := p[..|p| - 1];
    assert parent != [] ==> parent in goal && goal[parent].Dir?;
    DirectoriesWithin(d, goal, parent);
  }

  lemma {:induction false} AllFilesWithin(d: Disk, goal: Disk, files: seq<ImportedFile>, probe: Probe, defaultMode: nat)
    requires WellFormed(goal) && Within(d, goal) && NoDuplicates(files) && DistinctFilePaths(files)
    requires forall f :: f in files ==>
      (var p := Split(f.artifact.originalPath); p in goal && p !in d && Captures(f, p, goal[p], probe))
    ensures var o := AddFiles(d, files, defaultMode);
      && o.ending.Done? && Within(o.disk, goal)
      && (forall q :: q in d ==> q in o.disk)
      && (forall f :: f in files ==> Split(f.artifact.originalPath) in o.disk)
    decreases |files|
  {
    if files != [] {
      var f, tail := files[0], files[1..];
      assert f in files && files == [f] + tail;
      var p := Split(f.artifact.originalPath);
      FileWithin(d, goal, f, p, probe, defaultMode);
      var o := AddFile(d, f, defaultMode);
      NoDuplicatesTail(files);
      forall g | g in tail ensures Split(g.artifact.originalPath) !in o.disk {
        var q := Split(g.artifact.originalPath);
        assert g in files && Captures(g, q, goal[q], probe) && !goal[q].Dir?;
        assert g.artifact.originalPath == Join(q) && f.artifact.originalPath == Join(p) && g != f;
      }
      AllFilesWithin(o.disk, goal, tail, probe, defaultMode);
    }
  }

  /** The exact-import law: import, then materialize into an empty root. */
  lemma ImportThenMaterialize(d: Disk, t: ImportedTree, probe: Probe, defaultMode: nat)
    requires WellFormed(d) && Describes(d, t, probe)
    ensures Materialize(map[], t, defaultMode) == Outcome(Normalized(d), Done)
  {
    AllDirectoriesWithin(map[], d, t.directories);
    var dirs := AddDirectories(map[], t.directories).disk;
    AllFilesWithin(dirs, d, t.files, probe, defaultMode);
    var all := AddFiles(dirs, t.files, defaultMode).disk;
    EveryEntryWritten(d, t, probe, dirs, all);
    WithinWhole(all, d);
  }

  lemma EveryEntryWritten(d: Disk, t: ImportedTree, probe: Probe, dirs: Disk, all: Disk)
    requires WellFormed(d) && Describes(d, t, probe)
    requires (forall s :: s in t.directories ==> Split(s) in dirs) && forall q :: q in dirs ==> q in all
    requires forall f :: f in t.files ==> Split(f.artifact.originalPath) in all
    ensures forall p :: p in d ==> p in all
  {
    forall p | p in d ensures p in all {
      SplitOfEntry(d, p);
      if d[p].Dir? {
        assert Join(p) in t.directories;
      } else {
        var f :| f in t.files && f.artifact.originalPath == Join(p);
        assert Split(f.artifact.originalPath) in all;
      }
    }
  }

  lemma WithinWhole(d: Disk, goal: Disk)
    requires Within(d, goal) && forall p :: p in goal ==> p in d
    ensures d == Normalized(goal)
  {}

  /** Import, persist, read back and materialize: the whole path through the graph store. */
  lemma ImportPersistReadMaterialize(
    d: Disk, t: ImportedTree, probe: Probe, defaultMode: nat,
    db: GraphStore.Db, repository: string, enc: Persistence.Encoders)
    requires WellFormed(d) && Describes(d, t, probe) && Canonicalize(t) == t
    requires enc.contentHash == probe.contentHash && Persistence.NoCollision(t.files, t.files, enc)
    requires forall f :: f in t.files ==> GraphStore.IsIdText(f.artifact.procedureId)
    requires forall f, g :: f in t.files && g in t.files && f.artifact.procedureId == g.artifact.procedureId ==> f == g
    requires Persistence.Fresh(db, repository, t)
    ensures
      var r := Persistence.Materialized(GraphStore.PutAll(db, Persistence.TreeWrites(repository, t, enc)), repository);
      r.Some? && Materialize(map[], r.value, defaultMode) == Outcome(Normalized(d), Done)
  {
    assert Persistence.GoodTree(t, enc);
    PersistenceLaws.PersistThenRead(db, repository, t, enc);
    ImportThenMaterialize(d, t, probe, defaultMode);
  }

  // ---- Containment, and the one way out ----

  /** Every entry has a valid path below the root, and no entry sits below a file or link. */
  ghost predicate Contained(d: Disk) {
    && (forall p :: p in d ==> ValidPath(p))
    && (forall p, i :: p in d && 0 < i < |p| ==> p[..i] in d && d[p[..i]].Dir?)
  }

  lemma CreateDirAllContained(d: Disk, p: Path)
    requires Contained(d) && (p == [] || ValidPath(p))
    ensures Contained(CreateDirAll(d, p).disk)
    ensures CreateDirAll(d, p).ending.Done? ==>
      forall i :: 0 < i <= |p| ==> p[..i] in CreateDirAll(d, p).disk && CreateDirAll(d, p).disk[p[..i]].Dir?
  {
    ObstacleFound(d, p, 0);
    var o := CreateDirAll(d, p);
    if o.ending.Done? {
      forall i | 0 < i <= |p| ensures ValidPath(p[..i]) {
        forall c | c in p[..i] ensures ValidName(c) { assert c in p; }
      }
      forall q, i | q in o.disk && 0 < i < |q| ensures q[..i] in o.disk && o.disk[q[..i]].Dir? {
        if q !in d {
          var j :| 0 < j <= |p| && q == p[..j];
          assert q[..i] == p[..i];
        } else if exists j :: 0 < j <= |p| && q[..i] == p[..j] {
        } else {
          assert q[..i] in d;
        }
      }
    }
  }

  lemma AddFileContained(d: Disk, f: ImportedFile, defaultMode: nat)
    requires Contained(d)
    ensures Contained(AddFile(d, f, defaultMode).disk)
  {
    var target := ResolveWithinRoot(f.artifact.originalPath);
    if target.Some? {
      var p := target.value;
      var parent := p[..|p| - 1];
      forall c | c in parent ensures ValidName(c) { assert c in p; }
      CreateDirAllContained(d, parent);
      forall i | 0 < i < |p| ensures p[..i] == parent[..i] {}
      var o, d0 := AddFile(d, f, defaultMode), CreateDirAll(d, parent);
      if d0.ending.Done? && o.disk != d0.disk {
        OneEntryChanges(d, f, p, defaultMode);
        EntryContained(d0.disk, p, o.disk[p]);
      }
    }
  }

  lemma OneEntryChanges(d: Disk, f: ImportedFile, p: Path, defaultMode: nat)
    requires ResolveWithinRoot(f.artifact.originalPath) == Some(p) && CreateDirAll(d, p[..|p| - 1]).ending.Done?
    ensures var d0, d1 := CreateDirAll(d, p[..|p| - 1]).disk, AddFile(d, f, defaultMode).disk;
      d1 == d0 || (p in d1 && d1 == d0[p := d1[p]] && !d1[p].Dir? && (p in d0 ==> !d0[p].Dir?))
  {}

  lemma EntryContained(d: Disk, p: Path, e: DiskEntry)
    requires Contained(d) && ValidPath(p) && !e.Dir? && (p in d ==> !d[p].Dir?)
    requires forall i :: 0 < i < |p| ==> p[..i] in d && d[p[..i]].Dir?
    ensures Contained(d[p := e])
  {
    var d' := d[p := e];
    forall q, i | q in d' && 0 < i < |q| ensures q[..i] in d' && d'[q[..i]].Dir? {
      if q != p { assert q[..i] in d && d[q[..i]].Dir?; }
    }
  }

  lemma {:induction false} AddDirectoriesContained(d: Disk, paths: seq<string>)
    requires Contained(d)
    ensures Contained(AddDirectories(d, paths).disk)
    decreases |paths|
  {
    if paths != [] {
      var p := ResolveWithinRoot(paths[0]);
      if p.Some? { CreateDirAllContained(d, p.value); }
      AddDirectoriesContained(AddDirectory(d, paths[0]).disk, paths[1..]);
    }
  }

  lemma {:induction false} AddFilesContained(d: Disk, files: seq<ImportedFile>, defaultMode: nat)
    requires Contained(d)
    ensures Contained(AddFiles(d, files, defaultMode).disk)
    decreases |files|
  {
    if files != [] {
      AddFileContained(d, files[0], defaultMode);
      AddFilesContained(AddFile(d, files[0], defaultMode).disk, files[1..], defaultMode);
    }
  }

  // ---- Metadata validation of imported artifacts ----

  /** The field-level contract of an artifact record. */
  predicate Validates(a: ExactArtifact) {
    && |a.mode| == 4 && (forall c :: c in a.mode ==> '0' <= c <= '7')
    && a.originalPath != "" && a.originalPath[0] != '/' && '\\' !in a.originalPath
    && (a.isSymlink ==> a.symlinkTarget.Some? && a.symlinkTarget.value != "")
    && (!a.isSymlink ==> a.symlinkTarget.None?)
    && (a.encoding == "binary" <==> a.lineEndings == NotApplicable)
  }

  /** An imported artifact passes validation exactly when its path holds no backslash. */
  lemma ImportedValidates(d: Disk, t: ImportedTree, probe: Probe, f: ImportedFile)
    requires WellFormed(d) && Describes(d, t, probe) && f in t.files
    ensures Validates(f.artifact) <==> '\\' !in f.artifact.originalPath
  {
    var p := Split(f.artifact.originalPath);
    assert Captures(f, p, d[p], probe);
    ResolveJoined(p);
  }
}
