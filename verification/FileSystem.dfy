/** A directory tree on disk, relative to its root, and the calls that change it. */
module FileSystem {
  import opened Wrappers
  import opened Bytes

  type Path = seq<string>

  /** Permission bits are kept for files only. */
  datatype DiskEntry = Dir | File(content: seq<byte>, mode: nat) | Link(target: string)

  type Disk = map<Path, DiskEntry>

  predicate ValidName(c: string) { c != "" && c != "." && c != ".." && '/' !in c }

  predicate ValidPath(p: Path) { p != [] && forall c :: c in p ==> ValidName(c) }

  /** Every entry has a valid path and sits in a directory. */
  ghost predicate WellFormed(d: Disk) {
    && (forall p :: p in d ==> ValidPath(p))
    && (forall p, i :: p in d && 0 < i < |p| ==> p[..i] in d && d[p[..i]].Dir?)
    && (forall p :: p in d && d[p].Link? ==> d[p].target != "")
  }

  // ---- Paths as text ----

  function Join(parts: Path): string {
    if parts == [] then "" else if |parts| == 1 then parts[0] else parts[0] + "/" + Join(parts[1..])
  }

  function Split(s: string): (parts: Path)
    ensures parts != []
  {
    if s == [] then [""]
    else
      var rest := Split(s[1..]);
      if s[0] == '/' then [""] + rest else [[s[0]] + rest[0]] + rest[1..]
  }

  lemma {:induction false} SplitWord(w: string)
    requires '/' !in w
    ensures Split(w) == [w]
  {
    if w != [] {
      assert w[0] in w && '/' !in w[1..];
      SplitWord(w[1..]);
      assert w == [w[0]] + w[1..];
    }
  }

  lemma {:induction false} SplitFirst(w: string, rest: string)
    requires '/' !in w
    ensures Split(w + "/" + rest) == [w] + Split(rest)
  {
    var s := w + "/" + rest;
    if w == [] {
      assert s[0] == '/' && s[1..] == rest;
    } else {
      assert w[0] in w && '/' !in w[1..];
      assert s[0] == w[0] && s[1..] == w[1..] + "/" + rest;
      SplitFirst(w[1..], rest);
      assert w == [w[0]] + w[1..];
    }
  }

  /** Splitting undoes joining when no part holds a slash. */
  lemma {:induction false} SplitJoin(parts: Path)
    requires parts != [] && forall c :: c in parts ==> '/' !in c
    ensures Split(Join(parts)) == parts
  {
    assert parts[0] in parts;
    if |parts| == 1 {
      SplitWord(parts[0]);
    } else {
      SplitJoin(parts[1..]);
      SplitFirst(parts[0], Join(parts[1..]));
    }
  }

  /** Relative to the root; `None` for anything that could leave it. */
  function ResolveWithinRoot(posix: string): (p: Option<Path>)
    ensures p.Some? ==> ValidPath(p.value)
  {
    if posix == [] || posix[0] == '/' then None
    else
      var parts := Split(posix);
      if exists c :: c in parts && (c == "" || c == "." || c == "..") then None
      else
        SplitParts(posix);
        Some(parts)
  }

  lemma {:induction false} SplitParts(s: string)
    ensures forall c :: c in Split(s) ==> '/' !in c
  {
    if s != [] { SplitParts(s[1..]); }
  }

  lemma {:induction false} JoinSplit(s: string)
    ensures Join(Split(s)) == s
  {
    if s != [] {
      var rest := Split(s[1..]);
      JoinSplit(s[1..]);
      if s[0] == '/' {
        assert ([""] + rest)[1..] == rest && s == "/" + s[1..];
      } else {
        var parts := [[s[0]] + rest[0]] + rest[1..];
        assert parts[1..] == rest[1..];
        assert |rest| > 1 ==> Join(parts) == [s[0]] + (rest[0] + "/" + Join(rest[1..]));
      }
    }
  }

  /** A text resolves exactly when it is a valid path written with slashes, and to that path. */
  lemma ResolveExactly(s: string, p: Path)
    ensures ResolveWithinRoot(s) == Some(p) <==> ValidPath(p) && s == Join(p)
  {
    JoinSplit(s);
    if ValidPath(p) && s == Join(p) { ResolveJoined(p); }
  }

  lemma SplitHead(s: string)
    ensures s == [] || s[0] == '/' ==> Split(s)[0] == ""
  {}

  lemma ResolveJoined(p: Path)
    requires ValidPath(p)
    ensures ResolveWithinRoot(Join(p)) == Some(p)
  {
    SplitJoin(p);
    var s := Join(p);
    assert p[0] in p;
    SplitHead(s);
  }

  // ---- Where a link leads ----

  /** Walking `parts` from `depth` levels below the root climbs above it. */
  predicate Climbs(depth: int, parts: Path)
    decreases |parts|
  {
    depth < 0
    || (parts != [] &&
        var next := if parts[0] == ".." then depth - 1 else if parts[0] in ["", "."] then depth else depth + 1;
        Climbs(next, parts[1..]))
  }

  /** A link at `at` whose target is absolute or climbs above the root. */
  predicate LeavesRoot(at: Path, target: string)
    requires at != []
  {
    target != "" && (target[0] == '/' || Climbs(|at| - 1, Split(target)))
  }

  // ---- Changing the tree ----

  datatype DiskError =
    | PathEscapesRoot(path: string)
    | NotADirectory(at: Path)
    | AlreadyExists(at: Path)
    | IsADirectory(at: Path)
    | MissingLinkTarget(path: string)
    | EmptyLinkTarget(at: Path)
    | RootNotUsable

  /**
   * How a call ends. `WroteThrough`: the operating system follows the link at `at`, and the call goes on
   * wherever the link leads; nothing beyond that point is modelled.
   */
  datatype Ending = Done | Failed(error: DiskError) | WroteThrough(at: Path)

  /** The tree after a call, or up to the link it followed. */
  datatype Outcome = Outcome(disk: Disk, ending: Ending)

  /** The first entry on the way to `p`, `p` included, that is no directory. */
  function Obstacle(d: Disk, p: Path, i: nat): Option<Path>
    requires i <= |p|
    decreases |p| - i
  {
    if i > 0 && p[..i] in d && !d[p[..i]].Dir? then Some(p[..i])
    else if i == |p| then None
    else Obstacle(d, p, i + 1)
  }

  /** A link on the way is followed, a file on the way is an error. */
  function AtObstacle(d: Disk, at: Path): Ending
    requires at in d
  {
    if d[at].Link? then WroteThrough(at) else Failed(NotADirectory(at))
  }

  lemma {:induction false} ObstacleFound(d: Disk, p: Path, i: nat)
    requires i <= |p|
    ensures Obstacle(d, p, i).Some? ==> Obstacle(d, p, i).value in d && !d[Obstacle(d, p, i).value].Dir?
    ensures Obstacle(d, p, i).None? <==> forall j :: i <= j <= |p| && j > 0 && p[..j] in d ==> d[p[..j]].Dir?
    decreases |p| - i
  {
    if i < |p| { ObstacleFound(d, p, i + 1); }
  }

  /** Creates every missing directory on the way; an obstacle stops it before any change. */
  function CreateDirAll(d: Disk, p: Path): Outcome {
    ObstacleFound(d, p, 0);
    match Obstacle(d, p, 0)
    case Some(at) => Outcome(d, AtObstacle(d, at))
    case None => Outcome(d + map i | 0 < i <= |p| :: p[..i] := Dir, Done)
  }

  function CreateLink(d: Disk, p: Path, target: string): Outcome {
    if target == "" then Outcome(d, Failed(EmptyLinkTarget(p)))
    else if p in d then Outcome(d, Failed(AlreadyExists(p)))
    else Outcome(d[p := Link(target)], Done)
  }

  /** Creates or overwrites; a new file gets the process default mode, an old one keeps its own. */
  function WriteFile(d: Disk, p: Path, content: seq<byte>, defaultMode: nat): Outcome {
    if p !in d then Outcome(d[p := File(content, defaultMode)], Done)
    else
      match d[p]
      case Dir => Outcome(d, Failed(IsADirectory(p)))
      case Link(_) => Outcome(d, WroteThrough(p))
      case File(_, mode) => Outcome(d[p := File(content, mode)], Done)
  }

  function SetMode(d: Disk, p: Path, mode: nat): Disk {
    if p in d && d[p].File? then d[p := d[p].(mode := mode)] else d
  }
}
