/** When materializing follows a link it has itself created, and where it stays below the root. */
module Containment {
  import opened Wrappers
  import opened Bytes
  import opened ExactTree
  import opened FileSystem
  import opened ExactImport
  import opened ExactMaterialize

  // ---- What the listing alone tells ----

  function PathOf(f: ImportedFile): Option<Path> { ResolveWithinRoot(f.artifact.originalPath) }

  ghost predicate LinkAt(t: ImportedTree, i: nat, p: Path)
    requires i <= |t.files|
  {
    exists j :: 0 <= j < i && t.files[j].artifact.isSymlink && PathOf(t.files[j]) == Some(p)
  }

  ghost predicate FileAt(t: ImportedTree, i: nat, p: Path)
    requires i <= |t.files|
  {
    exists j :: 0 <= j < i && !t.files[j].artifact.isSymlink && PathOf(t.files[j]) == Some(p)
  }

  ghost predicate Above(p: Path, q: Option<Path>) { p != [] && q.Some? && p <= q.value }

  /** A directory listed, on the way to one, or on the way to one of the first `i` entries. */
  ghost predicate DirectoryAt(t: ImportedTree, i: nat, p: Path)
    requires i <= |t.files|
  {
    || (exists s :: s in t.directories && Above(p, ResolveWithinRoot(s)))
    || (exists j :: 0 <= j < i && Above(p, PathOf(t.files[j])) && PathOf(t.files[j]) != Some(p))
  }

  /** A link listed before the `i`-th entry lies on the way to it, or is the very path of a regular file. */
  ghost predicate Through(t: ImportedTree, i: nat)
    requires i < |t.files|
  {
    && PathOf(t.files[i]).Some?
    && var p := PathOf(t.files[i]).value;
       exists n :: 0 < n <= |p| && LinkAt(t, i, p[..n]) && (n < |p| || !t.files[i].artifact.isSymlink)
  }

  /** The `i`-th entry cannot be written: a bad path or target, a file on the way, or a path already taken. */
  ghost predicate Blocked(t: ImportedTree, i: nat)
    requires i < |t.files|
  {
    var a := t.files[i].artifact;
    match PathOf(t.files[i])
    case None => true
    case Some(p) =>
      || (exists n :: 0 < n < |p| && FileAt(t, i, p[..n]))
      || DirectoryAt(t, i, p)
      || (a.isSymlink && (a.symlinkTarget.None? || a.symlinkTarget.value == "" || LinkAt(t, i, p) || FileAt(t, i, p)))
  }

  ghost predicate Plain(t: ImportedTree, i: nat)
    requires i < |t.files|
  {
    !Through(t, i) && !Blocked(t, i)
  }

  ghost predicate DirectoriesValid(t: ImportedTree) { forall s :: s in t.directories ==> ResolveWithinRoot(s).Some? }

  /** The `i`-th entry goes through a link, and all before it were written. */
  ghost predicate FirstThrough(t: ImportedTree, i: nat)
    requires i < |t.files|
  {
    Through(t, i) && forall j :: 0 <= j < i ==> Plain(t, j)
  }

  // ---- The disk as the listing has it ----

  /** What sits at `p` is what the directories and the first `i` entries put there. */
  ghost predicate RepresentsAt(d: Disk, t: ImportedTree, i: nat, p: Path)
    requires i <= |t.files|
  {
    && (p in d && d[p].Link? <==> LinkAt(t, i, p))
    && (p in d && d[p].File? <==> FileAt(t, i, p))
    && (p in d && d[p].Dir? <==> DirectoryAt(t, i, p))
  }

  ghost predicate Represents(d: Disk, t: ImportedTree, i: nat)
    requires i <= |t.files|
  {
    Contained(d) && forall p :: RepresentsAt(d, t, i, p)
  }

  /** At most one entry on a path is no directory. */
  lemma {:induction false} OnlyObstacle(d: Disk, p: Path, i: nat, n: nat)
    requires Contained(d) && i <= n <= |p| && 0 < n && p[..n] in d && !d[p[..n]].Dir?
    ensures Obstacle(d, p, i) == Some(p[..n])
    decreases |p| - i
  {
    if i < n {
      assert p[..n][..i] == p[..i];
      OnlyObstacle(d, p, i + 1, n);
    }
  }

  lemma ParentObstacle(d: Disk, p: Path, n: nat)
    requires Contained(d) && 0 < n < |p| && p[..n] in d && !d[p[..n]].Dir?
    ensures CreateDirAll(d, p[..|p| - 1]) == Outcome(d, AtObstacle(d, p[..n]))
  {
    assert p[..|p| - 1][..n] == p[..n];
    OnlyObstacle(d, p[..|p| - 1], 0, n);
  }

  lemma ParentPresent(d: Disk, p: Path)
    requires Contained(d) && p in d && p != []
    ensures CreateDirAll(d, p[..|p| - 1]) == Outcome(d, Done)
  {
    var parent := p[..|p| - 1];
    forall i | 0 < i <= |parent| ensures parent[..i] in d && d[parent[..i]].Dir? { assert parent[..i] == p[..i]; }
    ObstacleFound(d, parent, 0);
    assert d + (map i | 0 < i <= |parent| :: parent[..i] := Dir) == d;
  }

  lemma ThroughFollows(d: Disk, t: ImportedTree, i: nat, defaultMode: nat)
    requires i < |t.files| && Represents(d, t, i) && Through(t, i)
    ensures AddFile(d, t.files[i], defaultMode).ending.WroteThrough? && AddFile(d, t.files[i], defaultMode).disk == d
  {
    var p := PathOf(t.files[i]).value;
    var n :| 0 < n <= |p| && LinkAt(t, i, p[..n]) && (n < |p| || !t.files[i].artifact.isSymlink);
    assert RepresentsAt(d, t, i, p[..n]);
    if n < |p| {
      ParentObstacle(d, p, n);
    } else {
      assert p[..n] == p;
      ParentPresent(d, p);
    }
  }

  lemma ParentClear(d: Disk, t: ImportedTree, i: nat, p: Path)
    requires i < |t.files| && Represents(d, t, i) && PathOf(t.files[i]) == Some(p) && !Through(t, i)
    requires forall n :: 0 < n < |p| ==> !FileAt(t, i, p[..n])
    ensures CreateDirAll(d, p[..|p| - 1]).ending.Done?
  {
    var parent := p[..|p| - 1];
    ObstacleFound(d, parent, 0);
    forall n | 0 < n <= |parent| && parent[..n] in d ensures d[parent[..n]].Dir? {
      assert parent[..n] == p[..n] && !LinkAt(t, i, p[..n]);
      assert RepresentsAt(d, t, i, p[..n]);
    }
  }

  lemma BlockedFails(d: Disk, t: ImportedTree, i: nat, defaultMode: nat)
    requires i < |t.files| && Represents(d, t, i) && Blocked(t, i) && !Through(t, i)
    ensures AddFile(d, t.files[i], defaultMode).ending.Failed?
  {
    if PathOf(t.files[i]).Some? {
      var p := PathOf(t.files[i]).value;
      if n :| 0 < n < |p| && FileAt(t, i, p[..n]) {
        assert RepresentsAt(d, t, i, p[..n]);
        ParentObstacle(d, p, n);
      } else {
        ParentClear(d, t, i, p);
        assert RepresentsAt(d, t, i, p);
        if p in d { ParentPresent(d, p); }
      }
    }
  }

  lemma ParentAt(d: Disk, p: Path, q: Path)
    requires p != [] && CreateDirAll(d, p[..|p| - 1]).ending.Done?
    ensures var d' := CreateDirAll(d, p[..|p| - 1]).disk;
      && (q != p && Above(q, Some(p)) ==> q in d' && d'[q].Dir?)
      && (q == p || !Above(q, Some(p)) ==> (q in d' <==> q in d) && (q in d ==> d'[q] == d[q]))
  {
    var parent := p[..|p| - 1];
    if q != p && Above(q, Some(p)) { assert q == parent[..|q|]; }
    forall i | 0 < i <= |parent| ensures parent[..i] == p[..i] && parent[..i] != p {}
  }

  lemma EntryAt(d: Disk, f: ImportedFile, p: Path, defaultMode: nat, q: Path)
    requires PathOf(f) == Some(p) && AddFile(d, f, defaultMode).ending.Done?
    ensures var d', d0 := AddFile(d, f, defaultMode).disk, CreateDirAll(d, p[..|p| - 1]).disk;
      && (q == p ==> q in d' && (if f.artifact.isSymlink then d'[q].Link? else d'[q].File?))
      && (q != p ==> (q in d' <==> q in d0) && (q in d0 ==> d'[q] == d0[q]))
  {}

  /** What a written entry changes: itself, and the directories on its way. */
  lemma WrittenAt(d: Disk, f: ImportedFile, p: Path, defaultMode: nat, q: Path)
    requires PathOf(f) == Some(p) && AddFile(d, f, defaultMode).ending.Done?
    ensures var d' := AddFile(d, f, defaultMode).disk;
      && (q == p ==> q in d' && (if f.artifact.isSymlink then d'[q].Link? else d'[q].File?))
      && (q != p && Above(q, Some(p)) ==> q in d' && d'[q].Dir?)
      && (!Above(q, Some(p)) ==> (q in d' <==> q in d) && (q in d ==> d'[q] == d[q]))
  {
    ParentAt(d, p, q);
    EntryAt(d, f, p, defaultMode, q);
  }

  lemma NextAt(t: ImportedTree, i: nat, p: Path, q: Path)
    requires i < |t.files| && PathOf(t.files[i]) == Some(p)
    ensures LinkAt(t, i + 1, q) <==> LinkAt(t, i, q) || (q == p && t.files[i].artifact.isSymlink)
    ensures FileAt(t, i + 1, q) <==> FileAt(t, i, q) || (q == p && !t.files[i].artifact.isSymlink)
    ensures DirectoryAt(t, i + 1, q) <==> DirectoryAt(t, i, q) || (q != p && Above(q, Some(p)))
  {
  }

  lemma PlainAt(d: Disk, t: ImportedTree, i: nat, p: Path, defaultMode: nat, q: Path)
    requires i < |t.files| && Represents(d, t, i) && Plain(t, i) && PathOf(t.files[i]) == Some(p)
    requires AddFile(d, t.files[i], defaultMode).ending.Done?
    ensures RepresentsAt(AddFile(d, t.files[i], defaultMode).disk, t, i + 1, q)
  {
    WrittenAt(d, t.files[i], p, defaultMode, q);
    NextAt(t, i, p, q);
    assert RepresentsAt(d, t, i, q);
    if Above(q, Some(p)) { assert q == p[..|q|]; }
  }

  lemma PlainWritten(d: Disk, t: ImportedTree, i: nat, defaultMode: nat)
    requires i < |t.files| && Represents(d, t, i) && Plain(t, i)
    ensures AddFile(d, t.files[i], defaultMode).ending.Done?
    ensures Represents(AddFile(d, t.files[i], defaultMode).disk, t, i + 1)
  {
    var p := PathOf(t.files[i]).value;
    ParentClear(d, t, i, p);
    assert RepresentsAt(d, t, i, p) && p[..|p|] == p;
    WrittenParent(d, p);
    AddFileContained(d, t.files[i], defaultMode);
    var d' := AddFile(d, t.files[i], defaultMode).disk;
    var n := i + 1;
    forall q ensures RepresentsAt(d', t, n, q) { PlainAt(d, t, i, p, defaultMode, q); }
  }

  lemma WrittenParent(d: Disk, p: Path)
    requires p != [] && CreateDirAll(d, p[..|p| - 1]).ending.Done?
    ensures p in CreateDirAll(d, p[..|p| - 1]).disk <==> p in d
    ensures p in d ==> CreateDirAll(d, p[..|p| - 1]).disk[p] == d[p]
  {
    ParentAt(d, p, p);
  }

  lemma BlockedFirst(t: ImportedTree, i: nat)
    requires i < |t.files| && !Through(t, i) && Blocked(t, i)
    requires forall j :: 0 <= j < i ==> Plain(t, j)
    ensures forall j :: 0 <= j < |t.files| ==> !FirstThrough(t, j)
  {
    assert !Plain(t, i);
    forall j | 0 <= j < |t.files| ensures !FirstThrough(t, j) {
      if j < i { assert Plain(t, j); }
    }
  }

  // ---- The whole series ----

  lemma {:induction false} FilesEnd(d: Disk, t: ImportedTree, i: nat, defaultMode: nat)
    requires i <= |t.files| && Represents(d, t, i) && forall j :: 0 <= j < i ==> Plain(t, j)
    ensures var o := AddFiles(d, t.files[i..], defaultMode);
      && (o.ending.Done? <==> forall j :: 0 <= j < |t.files| ==> Plain(t, j))
      && (o.ending.WroteThrough? <==> exists j :: 0 <= j < |t.files| && FirstThrough(t, j))
      && (o.ending.WroteThrough? ==> exists j :: 0 <= j < |t.files| && FirstThrough(t, j) && Represents(o.disk, t, j))
      && Contained(o.disk)
    decreases |t.files| - i
  {
    if i < |t.files| {
      assert t.files[i..][0] == t.files[i] && t.files[i..][1..] == t.files[i + 1..];
      if Through(t, i) {
        ThroughFollows(d, t, i, defaultMode);
        assert FirstThrough(t, i) && !Plain(t, i);
      } else if Blocked(t, i) {
        BlockedFails(d, t, i, defaultMode);
        assert !Plain(t, i);
        AddFileContained(d, t.files[i], defaultMode);
        BlockedFirst(t, i);
      } else {
        PlainWritten(d, t, i, defaultMode);
        FilesEnd(AddFile(d, t.files[i], defaultMode).disk, t, i + 1, defaultMode);
      }
    } else {
      forall j | 0 <= j < |t.files| ensures !FirstThrough(t, j) { assert Plain(t, j); }
    }
  }

  lemma {:induction false} DirectoriesEnd(d: Disk, paths: seq<string>)
    requires Contained(d) && forall p :: p in d ==> d[p].Dir?
    ensures var o := AddDirectories(d, paths);
      && Contained(o.disk) && (forall p :: p in o.disk ==> o.disk[p].Dir?) && !o.ending.WroteThrough?
      && (o.ending.Done? <==> forall s :: s in paths ==> ResolveWithinRoot(s).Some?)
      && (o.ending.Done? ==> forall p ::
            p in o.disk <==> p in d || exists s :: s in paths && Above(p, ResolveWithinRoot(s)))
    decreases |paths|
  {
    if paths != [] {
      assert paths == [paths[0]] + paths[1..];
      var o := AddDirectory(d, paths[0]);
      var target := ResolveWithinRoot(paths[0]);
      if target.Some? {
        var p := target.value;
        ObstacleFound(d, p, 0);
        CreateDirAllContained(d, p);
        forall q ensures q in o.disk <==> q in d || Above(q, target) {
          if Above(q, target) { assert q == p[..|q|]; }
        }
        DirectoriesEnd(o.disk, paths[1..]);
      }
    }
  }

  /**
   * Materializing goes through a link exactly when some entry lies below, or is a regular file at, a link listed
   * before it, all directories being valid and all entries in between plain. What was written up to there is what
   * the listing says.
   */
  lemma ThroughExactly(t: ImportedTree, defaultMode: nat)
    ensures var o := Materialize(map[], t, defaultMode);
      && (o.ending.WroteThrough? <==> DirectoriesValid(t) && exists i :: 0 <= i < |t.files| && FirstThrough(t, i))
      && (o.ending.WroteThrough? ==> exists i :: 0 <= i < |t.files| && FirstThrough(t, i) && Represents(o.disk, t, i))
      && (o.ending.Done? <==> DirectoriesValid(t) && forall i :: 0 <= i < |t.files| ==> Plain(t, i))
  {
    DirectoriesEnd(map[], t.directories);
    var o := AddDirectories(map[], t.directories);
    if DirectoriesValid(t) {
      forall p ensures RepresentsAt(o.disk, t, 0, p) {}
      FilesEnd(o.disk, t, 0, defaultMode);
      assert t.files[0..] == t.files;
    }
  }

  /** Without such an entry, nothing is written outside the root or below a file or link, failing or not. */
  lemma MaterializeContained(t: ImportedTree, defaultMode: nat)
    requires forall i :: 0 <= i < |t.files| ==> !Through(t, i)
    ensures var o := Materialize(map[], t, defaultMode); !o.ending.WroteThrough? && Contained(o.disk)
  {
    ThroughExactly(t, defaultMode);
    AddDirectoriesContained(map[], t.directories);
    AddFilesContained(AddDirectories(map[], t.directories).disk, t.files, defaultMode);
  }

  /** No imported tree holds one. */
  lemma ImportedContained(d: Disk, t: ImportedTree, probe: Probe, defaultMode: nat)
    requires WellFormed(d) && Describes(d, t, probe)
    ensures forall i :: 0 <= i < |t.files| ==> !Through(t, i)
    ensures Contained(Materialize(map[], t, defaultMode).disk)
  {
    ImportThenMaterialize(d, t, probe, defaultMode);
    ThroughExactly(t, defaultMode);
    forall i | 0 <= i < |t.files| ensures !Through(t, i) { assert Plain(t, i); }
    MaterializeContained(t, defaultMode);
  }

  // ---- A tree that leaves the root ----

  function LinkEntry(path: string, target: string): ImportedFile {
    ImportedFile(ExactArtifact("", "", "0777", "binary", true, Some(target), path, NotApplicable), [])
  }

  function FileEntry(path: string, content: seq<byte>): ImportedFile {
    ImportedFile(ExactArtifact("", "", "0644", "binary", false, None, path, NotApplicable), content)
  }

  /** The target `../outside` of a link in the root leaves it. */
  lemma OutsideLeaves(a: string)
    ensures LeavesRoot([a], ".." + "/" + "outside")
  {
    SplitWord("outside");
    SplitFirst("..", "outside");
  }

  lemma LinkAlone(a: string, link: ImportedFile, defaultMode: nat)
    requires PathOf(link) == Some([a]) && link.artifact.isSymlink
    requires link.artifact.symlinkTarget.Some? && link.artifact.symlinkTarget.value != ""
    ensures AddFile(map[], link, defaultMode) == Outcome(map[[a] := Link(link.artifact.symlinkTarget.value)], Done)
  {
    assert [a][..0] == [];
  }

  lemma BelowLink(a: string, b: string, target: string, file: ImportedFile, defaultMode: nat)
    requires PathOf(file) == Some([a, b])
    ensures AddFile(map[[a] := Link(target)], file, defaultMode) == Outcome(map[[a] := Link(target)], WroteThrough([a]))
  {
    var d: Disk := map[[a] := Link(target)];
    assert [a, b][..1] == [a] && [a][..1] == [a] && [a][..0] == [];
    assert Obstacle(d, [a], 1) == Some([a]);
    assert Obstacle(d, [a], 0) == Obstacle(d, [a], 1);
  }

  /** A link out of the root and a file below it: the file is written where the link leads. */
  lemma LinkEscapes(a: string, b: string, target: string, content: seq<byte>, defaultMode: nat, t: ImportedTree)
    requires ValidName(a) && ValidName(b) && LeavesRoot([a], target)
    requires t == ImportedTree([], [LinkEntry(Join([a]), target), FileEntry(Join([a, b]), content)])
    ensures Materialize(map[], t, defaultMode) == Outcome(map[[a] := Link(target)], WroteThrough([a]))
  {
    var link, file := t.files[0], t.files[1];
    ResolveJoined([a]);
    ResolveJoined([a, b]);
    var d: Disk := map[[a] := Link(target)];
    LinkAlone(a, link, defaultMode);
    BelowLink(a, b, target, file, defaultMode);
    assert t.files[1..] == [file] && [file][1..] == [];
    assert AddFiles(map[], t.files, defaultMode) == AddFiles(d, [file], defaultMode);
  }

  lemma ExampleTexts()
    ensures Join(["a"]) == "a" && Join(["a", "b"]) == "a/b"
    ensures LeavesRoot(["a"], "../outside")
  {
    OutsideLeaves("a");
    assert ".." + "/" + "outside" == "../outside";
  }

  /** In particular a link `a` to `../outside` and a file `a/b`. */
  lemma EscapeExample(content: seq<byte>, defaultMode: nat, t: ImportedTree)
    requires t == ImportedTree([], [LinkEntry("a", "../outside"), FileEntry("a/b", content)])
    ensures LeavesRoot(["a"], "../outside")
    ensures Materialize(map[], t, defaultMode) == Outcome(map[["a"] := Link("../outside")], WroteThrough(["a"]))
  {
    ExampleTexts();
    var a, b, target := "a", "b", "../outside";
    LinkEscapes(a, b, target, content, defaultMode, t);
  }
}
