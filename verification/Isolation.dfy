/** Two repositories in one store: when their keys clash, and exactly when they keep out of each other's trees. */
module Isolation {
  import opened Wrappers
  import opened Ordering
  import opened ExactTree
  import opened FileSystem
  import opened GraphStore
  import opened Persistence
  import opened PersistenceLaws

  // ---- Relative paths ----

  /** A relative path as an import records it. */
  predicate ValidText(s: string) { ResolveWithinRoot(s).Some? }

  predicate ValidPart(c: string) { c != "" && c != "." && c != ".." }

  lemma ValidParts(s: string)
    ensures ValidText(s) <==> forall c :: c in Split(s) ==> ValidPart(c)
  {
    SplitHead(s);
    assert Split(s)[0] in Split(s);
  }

  function Init(parts: Path): Path
    requires parts != []
  {
    parts[..|parts| - 1]
  }

  function Last(parts: Path): string
    requires parts != []
  {
    parts[|parts| - 1]
  }

  /** The last part of the one list and the first of the other become one. */
  function Glue(a: Path, b: Path): (r: Path)
    requires a != [] && b != []
    ensures r != []
  {
    Init(a) + [Last(a) + b[0]] + b[1..]
  }

  lemma GlueAfter(x: string, a: Path, b: Path)
    requires a != [] && b != []
    ensures Glue([x] + a, b) == [x] + Glue(a, b)
  {
    assert Init([x] + a) == [x] + Init(a);
  }

  lemma GlueFront(c: char, a: Path, b: Path)
    requires a != [] && b != []
    ensures Glue([[c] + a[0]] + a[1..], b) == [[c] + Glue(a, b)[0]] + Glue(a, b)[1..]
  {
    var front := [[c] + a[0]] + a[1..];
    if |a| == 1 {
      assert front == [[c] + a[0]] && Init(front) == [] && Init(a) == [];
      assert [c] + a[0] + b[0] == [c] + (a[0] + b[0]);
    } else {
      assert Init(front) == [[c] + a[0]] + Init(a)[1..] && Last(front) == Last(a);
      assert Glue(a, b)[0] == a[0];
    }
  }

  /** Joining two texts joins the last part of the one to the first part of the other. */
  lemma {:induction false} SplitConcat(a: string, b: string)
    ensures Split(a + b) == Glue(Split(a), Split(b))
  {
    if a == [] {
      assert a + b == b;
      assert "" + Split(b)[0] == Split(b)[0];
      assert Glue([""], Split(b)) == Split(b);
    } else {
      assert (a + b)[1..] == a[1..] + b;
      SplitConcat(a[1..], b);
      GlueAfter("", Split(a[1..]), Split(b));
      GlueFront(a[0], Split(a[1..]), Split(b));
    }
  }

  lemma ColonPart(c: string)
    requires ':' in c
    ensures ValidPart(c)
  {}

  /** What follows a colon may be replaced by a name. */
  lemma ValidFront(x: string, q: string)
    requires ValidText(x + ":" + q)
    ensures ValidText(x + ":" + "d")
  {
    SplitWord(":");
    SplitWord("d");
    SplitConcat(x, ":");
    SplitConcat(x + ":", q);
    SplitConcat(x + ":", "d");
    ValidParts(x + ":" + q);
    ValidParts(x + ":" + "d");
    var init, last := Init(Split(x)), Last(Split(x)) + ":";
    assert Split(x + ":") == init + [last];
    var parts := Split(x + ":" + "d");
    assert parts == init + [last + "d"];
    forall c | c in parts ensures ValidPart(c) {
      if c in init {
        assert c in Split(x + ":" + q);
      } else {
        assert last[|last| - 1] == ':' && (last + "d")[|last| - 1] == ':';
        ColonPart(last + "d");
      }
    }
  }

  /** The end of a valid path, from a letter on, is valid. */
  lemma ValidEnd(a: string, b: string)
    requires ValidText(a + b) && b != "" && b[0] == 'e'
    ensures ValidText(b)
  {
    SplitConcat(a, b);
    ValidParts(a + b);
    ValidParts(b);
    forall c | c in Split(b) ensures ValidPart(c) {
      if c in Split(b)[1..] {
        assert c in Split(a + b);
      } else {
        assert c == Split(b)[0] && c[0] == 'e';
      }
    }
  }

  // ---- Names ----

  const EMPTY := "empty_directory:"

  /** What the longer name, closed by a colon, has behind the shorter one. */
  function Rest(m: string, n: string): string
    requires m + ":" <= n + ":"
  {
    (n + ":")[|m| + 1..]
  }

  lemma RestShape(m: string, n: string)
    requires m + ":" <= n + ":"
    ensures n + ":" == m + ":" + Rest(m, n)
    ensures m == n <==> Rest(m, n) == ""
    ensures m != n ==> Rest(m, n) == Rest(m, n)[..|Rest(m, n)| - 1] + ":"
  {
    ProperPrefix(m, n);
    var r := Rest(m, n);
    if r != "" { assert r[|r| - 1] == (n + ":")[|n|]; }
  }

  lemma ProperPrefix(m: string, n: string)
    requires m + ":" <= n + ":"
    ensures m == n || |m| < |n|
  {
    assert (m + ":")[..|m|] == m;
    if |n| == |m| { assert (n + ":")[..|n|] == n; }
  }

  /** The other name starts with this one and a colon, and what follows can start a relative path. */
  predicate Inside(m: string, n: string) { m + ":" <= n + ":" && ValidText(Rest(m, n) + "d") }

  predicate Clashing(m: string, n: string) { Inside(m, n) || Inside(n, m) }

  lemma PrefixesAgree(m: string, x: string, n: string, y: string)
    requires m + ":" + x == n + ":" + y
    ensures m + ":" <= n + ":" || n + ":" <= m + ":"
  {
    var w := m + ":" + x;
    assert m + ":" == w[..|m| + 1];
    assert n + ":" == w[..|n| + 1];
  }

  lemma InsideWhenEqual(m: string, n: string, p: string, q: string)
    requires m + ":" <= n + ":" && m + ":" + p == n + ":" + q && ValidText(p)
    ensures Inside(m, n)
  {
    RestShape(m, n);
    var r := Rest(m, n);
    assert n + ":" + q == m + ":" + (r + q);
    Cancel(m + ":", p, r + q);
    if r == "" {
      SplitWord("d");
      ValidParts("d");
      assert r + "d" == "d";
    } else {
      var x := r[..|r| - 1];
      assert r + q == x + ":" + q && r + "d" == x + ":" + "d";
      ValidFront(x, q);
    }
  }

  lemma KeyTail(m: string, p: string)
    ensures EmptyDirectoryKey(m, p) == EMPTY + (m + ":" + p)
  {}

  /** Directory keys of two repositories clash for some relative paths exactly when the names clash. */
  lemma DirectoryKeysClash(m: string, n: string)
    ensures Clashing(m, n) <==>
      exists p, q :: ValidText(p) && ValidText(q) && EmptyDirectoryKey(m, p) == EmptyDirectoryKey(n, q)
  {
    if p, q :| ValidText(p) && ValidText(q) && EmptyDirectoryKey(m, p) == EmptyDirectoryKey(n, q) {
      KeysClash(m, p, n, q);
    }
    if Inside(m, n) { InsideKeys(m, n); }
    if Inside(n, m) { InsideKeys(n, m); }
  }

  lemma KeysClash(m: string, p: string, n: string, q: string)
    requires ValidText(p) && ValidText(q) && EmptyDirectoryKey(m, p) == EmptyDirectoryKey(n, q)
    ensures Clashing(m, n)
  {
    KeyTail(m, p);
    KeyTail(n, q);
    Cancel(EMPTY, m + ":" + p, n + ":" + q);
    PrefixesAgree(m, p, n, q);
    if m + ":" <= n + ":" { InsideWhenEqual(m, n, p, q); } else { InsideWhenEqual(n, m, q, p); }
  }

  lemma InsideKeys(m: string, n: string)
    requires Inside(m, n)
    ensures ValidText(Rest(m, n) + "d") && ValidText("d")
    ensures EmptyDirectoryKey(m, Rest(m, n) + "d") == EmptyDirectoryKey(n, "d")
  {
    RestShape(m, n);
    SplitWord("d");
    ValidParts("d");
    KeyTail(m, Rest(m, n) + "d");
    KeyTail(n, "d");
    assert m + ":" + (Rest(m, n) + "d") == n + ":" + "d";
  }

  // ---- Edges ----

  function DirectoryEdgeKey(m: string, p: string): string {
    EdgeStorageKey(RepositoryKey(m), ContainsEmptyDirectory, EmptyDirectoryKey(m, p))
  }

  lemma Regroup(a: string, b: string, m: string, p: string)
    ensures a + (b + m) + ":" + p == (a + b) + (m + ":" + p)
  {}

  lemma EdgesEqual(m: string, x: string, n: string, y: string, kind: EdgeKind)
    ensures EdgeStorageKey(RepositoryKey(m), kind, x) == EdgeStorageKey(RepositoryKey(n), kind, y)
       <==> m + ":" + x == n + ":" + y
  {
    var head := EDGE_PREFIX + StorageName(kind) + ":";
    Regroup(head, "repository:", m, x);
    Regroup(head, "repository:", n, y);
    if (head + "repository:") + (m + ":" + x) == (head + "repository:") + (n + ":" + y) {
      Cancel(head + "repository:", m + ":" + x, n + ":" + y);
    }
  }

  /** The edge's text behind the shorter name, up to the longer one's path. */
  function EdgeRest(m: string, n: string): string
    requires m + ":" <= n + ":"
  {
    Rest(m, n) + EMPTY + n + ":"
  }

  /** Some relative path under the shorter name makes the two edges one. */
  predicate EdgeInside(m: string, n: string) {
    && m + ":" <= n + ":" && EMPTY + m + ":" <= EdgeRest(m, n)
    && ValidText(EdgeRest(m, n)[|EMPTY + m + ":"|..] + "d")
  }

  lemma ShiftEqual(h: string, x: string, g: string, y: string, r: string)
    requires g == h + r
    ensures h + x == g + y <==> x == r + y
  {
    assert g + y == h + (r + y);
    if h + x == h + (r + y) { Cancel(h, x, r + y); }
  }

  lemma KeyHead(m: string, p: string)
    ensures EmptyDirectoryKey(m, p) == (EMPTY + m + ":") + p
  {}

  lemma Around(r: string, e: string, n: string, q: string)
    ensures r + ((e + n + ":") + q) == (r + e + n + ":") + q
  {}

  lemma EdgeTexts(m: string, n: string, p: string, q: string)
    requires m + ":" <= n + ":"
    ensures DirectoryEdgeKey(m, p) == DirectoryEdgeKey(n, q) <==> (EMPTY + m + ":") + p == EdgeRest(m, n) + q
  {
    var x, y := EmptyDirectoryKey(m, p), EmptyDirectoryKey(n, q);
    EdgesEqual(m, x, n, y, ContainsEmptyDirectory);
    RestShape(m, n);
    ShiftEqual(m + ":", x, n + ":", y, Rest(m, n));
    KeyHead(m, p);
    KeyHead(n, q);
    Around(Rest(m, n), EMPTY, n, q);
  }

  lemma EdgeRestLonger(m: string, n: string)
    requires m != n && m + ":" <= n + ":"
    ensures |EMPTY + m + ":"| < |EdgeRest(m, n)| && Final(EdgeRest(m, n)) == ':'
  {
    RestShape(m, n);
    var w := EdgeRest(m, n);
    assert w[|w| - 1] == ':';
  }

  function Final(s: string): char
    requires s != ""
  {
    s[|s| - 1]
  }

  lemma PrefixOfEqual(h: string, p: string, w: string, q: string)
    requires h + p == w + q && |h| <= |w|
    ensures h <= w && p == w[|h|..] + q
  {
    assert (h + p)[..|h|] == h && (w + q)[..|h|] == w[..|h|];
    assert w == h + w[|h|..];
    ShiftEqual(h, p, w, q, w[|h|..]);
  }

  lemma EdgeInsideExactly(m: string, n: string)
    requires m != n && m + ":" <= n + ":"
    ensures EdgeInside(m, n) <==>
      exists p, q :: ValidText(p) && ValidText(q) && DirectoryEdgeKey(m, p) == DirectoryEdgeKey(n, q)
  {
    if p, q :| ValidText(p) && ValidText(q) && DirectoryEdgeKey(m, p) == DirectoryEdgeKey(n, q) {
      EdgeInsideNeeded(m, n, p, q);
    }
    if EdgeInside(m, n) { EdgeInsideEnough(m, n); }
  }

  lemma EdgeInsideNeeded(m: string, n: string, p: string, q: string)
    requires m != n && m + ":" <= n + ":" && ValidText(p) && DirectoryEdgeKey(m, p) == DirectoryEdgeKey(n, q)
    ensures EdgeInside(m, n)
  {
    EdgeTexts(m, n, p, q);
    EdgeRestLonger(m, n);
    var head, w := EMPTY + m + ":", EdgeRest(m, n);
    PrefixOfEqual(head, p, w, q);
    var r := w[|head|..];
    var x := r[..|r| - 1];
    assert r[|r| - 1] == Final(w);
    assert r == x + ":";
    ValidFront(x, q);
  }

  lemma EdgeInsideEnough(m: string, n: string)
    requires m != n && EdgeInside(m, n)
    ensures ValidText("d") && DirectoryEdgeKey(m, EdgeRest(m, n)[|EMPTY + m + ":"|..] + "d") == DirectoryEdgeKey(n, "d")
  {
    var head, w := EMPTY + m + ":", EdgeRest(m, n);
    var p := w[|head|..] + "d";
    assert head + p == w + "d";
    EdgeTexts(m, n, p, "d");
    SplitWord("d");
    ValidParts("d");
  }

  /** Two repositories have one storage key for two of their edges exactly when the names nest in this way. */
  lemma EdgeKeysClash(m: string, n: string)
    requires m != n
    ensures EdgeInside(m, n) || EdgeInside(n, m) <==>
      exists p, q :: ValidText(p) && ValidText(q) && DirectoryEdgeKey(m, p) == DirectoryEdgeKey(n, q)
  {
    if m + ":" <= n + ":" {
      EdgeInsideExactly(m, n);
    }
    if n + ":" <= m + ":" {
      EdgeInsideExactly(n, m);
    }
    if p, q :| ValidText(p) && ValidText(q) && DirectoryEdgeKey(m, p) == DirectoryEdgeKey(n, q) {
      EdgesEqual(m, EmptyDirectoryKey(m, p), n, EmptyDirectoryKey(n, q), ContainsEmptyDirectory);
      PrefixesAgree(m, EmptyDirectoryKey(m, p), n, EmptyDirectoryKey(n, q));
    }
  }

  /** A name that starts with the other and a directory key of it. */
  function Nested(m: string, y: string): string { m + ":" + EMPTY + m + ":" + y }

  lemma NestedText(m: string, y: string, e: string, n: string)
    requires n == m + ":" + e + m + ":" + y
    ensures n + ":" == (m + ":") + (e + m + ":" + y + ":")
    ensures (e + m + ":") + (y + ":" + e + n + ":" + "d") == ((e + m + ":" + y + ":") + e + n + ":") + "d"
  {}

  lemma RestBehind(m: string, n: string, r: string)
    requires n + ":" == (m + ":") + r
    ensures m + ":" <= n + ":" && Rest(m, n) == r
  {
    assert (n + ":")[..|m| + 1] == m + ":";
  }

  /** Names without slashes for which it happens. */
  lemma EdgeKeysMeet(m: string, y: string, n: string, p: string)
    requires '/' !in m && '/' !in y && n == Nested(m, y) && p == y + ":" + EMPTY + n + ":" + "d"
    ensures m != n && ValidText(p) && ValidText("d") && DirectoryEdgeKey(m, p) == DirectoryEdgeKey(n, "d")
  {
    NestedText(m, y, EMPTY, n);
    RestBehind(m, n, EMPTY + m + ":" + y + ":");
    EdgeTexts(m, n, p, "d");
    PlainWord("d");
    PlainColon(p, |y|);
  }

  lemma PlainWord(s: string)
    requires '/' !in s && ValidPart(s)
    ensures ValidText(s)
  {
    SplitWord(s);
    ValidParts(s);
  }

  lemma PlainColon(s: string, i: nat)
    requires '/' !in s && i < |s| && s[i] == ':'
    ensures ValidText(s)
  {
    ColonPart(s);
    PlainWord(s);
  }

  /** In particular the repositories `r` and `r:empty_directory:r:y`. */
  lemma EdgeKeysMeetExample()
    ensures exists p :: ValidText(p) && DirectoryEdgeKey("r", p) == DirectoryEdgeKey(Nested("r", "y"), "d")
  {
    var n := Nested("r", "y");
    EdgeKeysMeet("r", "y", n, "y" + ":" + EMPTY + n + ":" + "d");
  }

  lemma Doubled(e: string, m: string, n: string, r: string, p: string, q: string)
    requires n + ":" == m + ":" + r && (e + m + ":") + p == (r + e + n + ":") + q
    ensures |r| <= |p| && p[|r|..] == r + q
    ensures e != "" && r != "" ==> r[0] == e[0]
  {
    var h := e + m + ":";
    assert r + e + n + ":" == r + h + r by {
      assert r + e + n + ":" == r + e + (n + ":");
      assert e + (m + ":" + r) == h + r;
    }
    var w := h + p;
    assert w == (r + h) + (r + q);
    assert p[|r|..] == w[|h| + |r|..] == r + q;
    if e != "" && r != "" { assert w[0] == e[0] && w[0] == r[0]; }
  }

  /** Edges that clash belong to names whose directory keys clash. */
  lemma EdgeClashInside(m: string, n: string, p: string, q: string)
    requires m != n && m + ":" <= n + ":" && ValidText(p) && DirectoryEdgeKey(m, p) == DirectoryEdgeKey(n, q)
    ensures Inside(m, n)
  {
    EdgeTexts(m, n, p, q);
    RestShape(m, n);
    var r := Rest(m, n);
    Doubled(EMPTY, m, n, r, p, q);
    assert p == p[..|r|] + (r + q);
    ValidEnd(p[..|r|], r + q);
    var x := r[..|r| - 1];
    assert r + q == x + ":" + q && r + "d" == x + ":" + "d";
    ValidFront(x, q);
  }

  lemma DirectoryEdgesApart(m: string, p: string, n: string, q: string)
    requires m != n && !Clashing(m, n) && ValidText(p) && ValidText(q)
    ensures DirectoryEdgeKey(m, p) != DirectoryEdgeKey(n, q)
  {
    if DirectoryEdgeKey(m, p) == DirectoryEdgeKey(n, q) {
      EdgesEqual(m, EmptyDirectoryKey(m, p), n, EmptyDirectoryKey(n, q), ContainsEmptyDirectory);
      PrefixesAgree(m, EmptyDirectoryKey(m, p), n, EmptyDirectoryKey(n, q));
      if m + ":" <= n + ":" { EdgeClashInside(m, n, p, q); } else { EdgeClashInside(n, m, q, p); }
    }
  }

  lemma ProcedureEdgesApart(m: string, a: string, n: string, b: string)
    requires m != n && IsIdText(a) && IsIdText(b)
    ensures EdgeStorageKey(RepositoryKey(m), ContainsProcedure, ProcedureKey(a))
         != EdgeStorageKey(RepositoryKey(n), ContainsProcedure, ProcedureKey(b))
  {
    EdgesEqual(m, ProcedureKey(a), n, ProcedureKey(b), ContainsProcedure);
    assert m + ":" + ProcedureKey(a) == m + (":" + ProcedureKey(a));
    assert n + ":" + ProcedureKey(b) == n + (":" + ProcedureKey(b));
    if m + (":" + ProcedureKey(a)) == n + (":" + ProcedureKey(b)) {
      CancelEnd(m, n, ":" + ProcedureKey(a), ":" + ProcedureKey(b));
    }
  }

  // ---- Isolation ----

  ghost predicate ValidTree(t: ImportedTree) {
    && (forall p :: p in t.directories ==> ValidText(p))
    && (forall f :: f in t.files ==> ValidText(f.artifact.originalPath))
  }

  /** Trees that share no id, with no colliding contents across them. */
  ghost predicate Disjoint(t: ImportedTree, u: ImportedTree, enc: Encoders) {
    && (forall f, g :: f in t.files && g in u.files ==> f.artifact.procedureId != g.artifact.procedureId)
    && NoCollision(u.files, t.files, enc)
  }

  /** An edge of the other repository to one of its own procedures or directories. */
  ghost predicate OthersEdge(r: Record, other: string) {
    && r.Edge? && r.from == RepositoryKey(other)
    && match r.kind
       case ContainsProcedure => exists id :: IsIdText(id) && r.to == ProcedureKey(id)
       case ContainsEmptyDirectory => exists q :: ValidText(q) && r.to == EmptyDirectoryKey(other, q)
  }

  lemma ForeignEdgeApart(r: Record, repository: string, other: string, t: ImportedTree, enc: Encoders)
    requires OthersEdge(r, other) && repository != other && !Clashing(repository, other) && GoodTree(t, enc)
      && ValidTree(t)
    ensures forall f :: f in t.files ==>
      EdgeStorageKey(RepositoryKey(repository), ContainsProcedure, ProcedureKey(f.artifact.procedureId))
        != StorageKeyOf(r)
    ensures forall p :: p in t.directories ==> DirectoryEdgeKey(repository, p) != StorageKeyOf(r)
  {
    var from := RepositoryKey(repository);
    forall f | f in t.files
      ensures EdgeStorageKey(from, ContainsProcedure, ProcedureKey(f.artifact.procedureId)) != StorageKeyOf(r)
    {
      match r.kind
      case ContainsProcedure =>
        var id :| IsIdText(id) && r.to == ProcedureKey(id);
        ProcedureEdgesApart(repository, f.artifact.procedureId, other, id);
      case ContainsEmptyDirectory => EdgeKindsApart(r.from, r.to, from, ProcedureKey(f.artifact.procedureId));
    }
    forall p | p in t.directories ensures DirectoryEdgeKey(repository, p) != StorageKeyOf(r) {
      match r.kind
      case ContainsProcedure => EdgeKindsApart(from, EmptyDirectoryKey(repository, p), r.from, r.to);
      case ContainsEmptyDirectory =>
        var q :| ValidText(q) && r.to == EmptyDirectoryKey(other, q);
        DirectoryEdgesApart(repository, p, other, q);
    }
  }

  lemma ForeignEdgeKeeps(db: Db, r: Record, repository: string, other: string, t: ImportedTree, enc: Encoders)
    requires Complete(db, repository, t) && GoodTree(t, enc) && ValidTree(t)
    requires OthersEdge(r, other) && repository != other && !Clashing(repository, other)
    ensures Complete(Put(db, r), repository, t)
  {
    var from := RepositoryKey(repository);
    if RepositoryKey(other) == from { Cancel("repository:", other, repository); }
    PutEdgeFrame(db, r.from, r.kind, r.to, from, ContainsProcedure);
    PutEdgeFrame(db, r.from, r.kind, r.to, from, ContainsEmptyDirectory);
    ForeignEdgeApart(r, repository, other, t, enc);
    SameView(db, Put(db, r), repository, t);
  }

  /** Completeness depends on the repository's edges and the nodes alone. */
  lemma SameView(db: Db, db': Db, repository: string, t: ImportedTree)
    requires Complete(db, repository, t) && WellKeyed(db')
    requires forall key :: GetNode(db', key) == GetNode(db, key)
    requires ChildSet(db', RepositoryKey(repository), ContainsProcedure)
          == ChildSet(db, RepositoryKey(repository), ContainsProcedure)
    requires ChildSet(db', RepositoryKey(repository), ContainsEmptyDirectory)
          == ChildSet(db, RepositoryKey(repository), ContainsEmptyDirectory)
    ensures Complete(db', repository, t)
  {}

  ghost predicate Foreign(r: Record, repository: string, other: string, t: ImportedTree) {
    if r.Node? then Agrees(r, repository, t) else OthersEdge(r, other)
  }

  lemma {:induction false} ForeignWritesKeep(
      db: Db, rs: seq<Record>, repository: string, other: string, t: ImportedTree, enc: Encoders)
    requires Complete(db, repository, t) && GoodTree(t, enc) && ValidTree(t)
    requires repository != other && !Clashing(repository, other)
    requires forall r :: r in rs ==> Foreign(r, repository, other, t)
    ensures Complete(PutAll(db, rs), repository, t)
    decreases |rs|
  {
    if rs != [] {
      assert rs[0] in rs;
      if rs[0].Node? {
        AgreeingNodeKeeps(db, rs[0], repository, t);
      } else {
        ForeignEdgeKeeps(db, rs[0], repository, other, t, enc);
      }
      ForeignWritesKeep(Put(db, rs[0]), rs[1..], repository, other, t, enc);
    }
  }

  lemma ForeignDirectory(q: string, repository: string, other: string, t: ImportedTree)
    requires !Clashing(repository, other) && ValidTree(t) && ValidText(q)
    ensures Foreign(DirectoryWrites(other, q)[0], repository, other, t)
    ensures Foreign(DirectoryWrites(other, q)[1], repository, other, t)
  {
    var key := EmptyDirectoryKey(other, q);
    forall p | p in t.directories ensures key != EmptyDirectoryKey(repository, p) {
      if key == EmptyDirectoryKey(repository, p) { KeysClash(repository, p, other, q); }
    }
    forall f | f in t.files ensures key != ExactArtifactKey(f.artifact.procedureId) && key != BlobKey(f.artifact.blob) {
      KindsDisjoint(f.artifact.procedureId, other, q);
      KindsDisjoint(f.artifact.blob, other, q);
    }
  }

  lemma {:induction false} ForeignDirectories(paths: seq<string>, repository: string, other: string, t: ImportedTree)
    requires !Clashing(repository, other) && ValidTree(t) && forall q :: q in paths ==> ValidText(q)
    ensures forall r :: r in DirectoriesWrites(other, paths) ==> Foreign(r, repository, other, t)
  {
    if paths != [] {
      assert paths[0] in paths;
      ForeignDirectories(paths[1..], repository, other, t);
      ForeignDirectory(paths[0], repository, other, t);
    }
  }

  lemma {:induction false} ForeignFiles(
      files: seq<ImportedFile>, enc: Encoders, repository: string, other: string, t: ImportedTree)
    requires GoodTree(t, enc) && NoCollision(files, t.files, enc)
    requires forall f :: f in files ==> IsIdText(f.artifact.procedureId)
    requires forall f, g :: f in files && g in t.files ==> f.artifact.procedureId != g.artifact.procedureId
    ensures forall r :: r in FilesWrites(other, files, enc) ==> Foreign(r, repository, other, t)
  {
    if files != [] {
      assert files[0] in files;
      ForeignNodesAgree(files[0], enc, repository, t);
      assert OthersEdge(FileEdge(other, files[0]), other);
      ForeignFiles(files[1..], enc, repository, other, t);
    }
  }

  /** Names that do not clash: persisting another repository leaves the first one's tree as it was. */
  lemma RepositoriesIsolated(db: Db, repository: string, t: ImportedTree, other: string, u: ImportedTree, enc: Encoders)
    requires Fresh(db, repository, t) && GoodTree(t, enc) && GoodTree(u, enc) && Disjoint(t, u, enc)
    requires ValidTree(t) && ValidTree(u) && repository != other && !Clashing(repository, other)
    ensures Materialized(PutAll(PutAll(db, TreeWrites(repository, t, enc)), TreeWrites(other, u, enc)), repository)
         == Some(Canonicalize(t))
  {
    var db' := PutAll(db, TreeWrites(repository, t, enc));
    TreeComplete(db, repository, t, enc);
    ForeignTreeKeeps(db', repository, other, t, u, enc);
    CompleteReads(PutAll(db', TreeWrites(other, u, enc)), repository, t, enc);
  }

  lemma ForeignTreeKeeps(
      db: Db, repository: string, other: string, t: ImportedTree, u: ImportedTree, enc: Encoders)
    requires Complete(db, repository, t) && GoodTree(t, enc) && GoodTree(u, enc) && Disjoint(t, u, enc)
    requires ValidTree(t) && ValidTree(u) && repository != other && !Clashing(repository, other)
    ensures Complete(PutAll(db, TreeWrites(other, u, enc)), repository, t)
  {
    ForeignDirectories(u.directories, repository, other, t);
    ForeignFiles(u.files, enc, repository, other, t);
    ForeignWritesKeep(db, TreeWrites(other, u, enc), repository, other, t, enc);
  }

  /** Trees of two imports that can be persisted one after the other. */
  ghost predicate Eligible(repository: string, t: ImportedTree, u: ImportedTree, enc: Encoders) {
    && Fresh(map[], repository, t) && GoodTree(t, enc) && GoodTree(u, enc) && Disjoint(t, u, enc)
    && ValidTree(t) && ValidTree(u)
  }

  /** Persisting `u` under the other name changes what the repository's tree `t` reads as. */
  ghost predicate Interferes(repository: string, t: ImportedTree, other: string, u: ImportedTree, enc: Encoders) {
    && Eligible(repository, t, u, enc)
    && Materialized(PutAll(PutAll(map[], TreeWrites(repository, t, enc)), TreeWrites(other, u, enc)), repository)
       != Some(Canonicalize(t))
  }

  function OneDirectory(p: string): ImportedTree { ImportedTree([p], []) }

  lemma ClashingPaths(m: string, n: string) returns (p: string, q: string)
    requires m != n && Clashing(m, n)
    ensures ValidText(p) && ValidText(q) && p != q && EmptyDirectoryKey(m, p) == EmptyDirectoryKey(n, q)
  {
    if Inside(m, n) {
      InsideKeys(m, n);
      RestShape(m, n);
      p, q := Rest(m, n) + "d", "d";
      assert |p| > 1;
    } else {
      InsideKeys(n, m);
      RestShape(n, m);
      p, q := "d", Rest(n, m) + "d";
      assert |q| > 1;
    }
  }

  /** Clashing names: some tree of the other repository does change it. */
  lemma ClashingNamesInterfere(repository: string, other: string, enc: Encoders)
    requires repository != other && Clashing(repository, other)
    ensures exists t, u :: Interferes(repository, t, other, u, enc)
  {
    var p, q := ClashingPaths(repository, other);
    var t, u := OneDirectory(p), OneDirectory(q);
    var db := PutAll(map[], TreeWrites(repository, t, enc));
    OneDirectoryComplete(repository, p, enc);
    OneDirectoriesEligible(repository, p, q, enc);
    Overwritten(db, repository, p, other, q, enc);
    NotListed(p, q, PutAll(db, TreeWrites(other, u, enc)), repository);
    assert Interferes(repository, t, other, u, enc);
  }

  lemma OneDirectoriesEligible(repository: string, p: string, q: string, enc: Encoders)
    requires ValidText(p) && ValidText(q)
    ensures Eligible(repository, OneDirectory(p), OneDirectory(q), enc)
  {
    OneDirectoryGood(repository, p, enc);
    OneDirectoryGood(repository, q, enc);
  }

  lemma NotListed(p: string, q: string, db: Db, repository: string)
    requires p != q
    requires Materialized(db, repository).Some? ==> q in Materialized(db, repository).value.directories
    ensures Materialized(db, repository) != Some(Canonicalize(OneDirectory(p)))
  {
    SortedStays([p], TextLe);
    assert q !in Canonicalize(OneDirectory(p)).directories;
  }

  /**
   * Two names keep out of each other's trees exactly when neither, closed by a colon, starts the other with a rest
   * that can start a relative path.
   */
  lemma IsolationExact(repository: string, other: string, enc: Encoders)
    requires repository != other
    ensures !Clashing(repository, other) <==> forall t, u :: !Interferes(repository, t, other, u, enc)
  {
    if Clashing(repository, other) {
      ClashingNamesInterfere(repository, other, enc);
    } else {
      forall t, u ensures !Interferes(repository, t, other, u, enc) {
        if Eligible(repository, t, u, enc) {
          RepositoriesIsolated(map[], repository, t, other, u, enc);
        }
      }
    }
  }

  lemma OneDirectoryComplete(repository: string, p: string, enc: Encoders)
    ensures Fresh(map[], repository, OneDirectory(p)) && GoodTree(OneDirectory(p), enc)
    ensures Complete(PutAll(map[], TreeWrites(repository, OneDirectory(p), enc)), repository, OneDirectory(p))
  {
    OneDirectoryGood(repository, p, enc);
    TreeComplete(map[], repository, OneDirectory(p), enc);
  }

  lemma OneDirectoryGood(repository: string, p: string, enc: Encoders)
    ensures Fresh(map[], repository, OneDirectory(p)) && GoodTree(OneDirectory(p), enc)
  {}

  /** A directory of another repository under the same key takes over the listing. */
  lemma Overwritten(db: Db, repository: string, p: string, other: string, q: string, enc: Encoders)
    requires Complete(db, repository, OneDirectory(p)) && repository != other
    requires EmptyDirectoryKey(repository, p) == EmptyDirectoryKey(other, q)
    ensures var r := Materialized(PutAll(db, TreeWrites(other, OneDirectory(q), enc)), repository);
            r.Some? ==> q in r.value.directories
  {
    var key, from := EmptyDirectoryKey(repository, p), RepositoryKey(repository);
    var edge, node := Edge(RepositoryKey(other), ContainsEmptyDirectory, key), Node(key, EmptyDirectoryNode(other, q));
    OneDirectoryWrites(other, q, enc);
    PutTwo(db, edge, node);
    var mid, db2 := Put(db, edge), Put(Put(db, edge), node);
    PutEdgeFrame(db, edge.from, edge.kind, key, from, ContainsEmptyDirectory);
    SourcesApart(repository, other, key);
    assert DirectoryPresent(db, repository, p);
    PutNodeFrame(mid, key, node.node, from, ContainsEmptyDirectory);
    var keys := Children(db2, from, ContainsEmptyDirectory);
    PathListed(db2, keys, key, other, q);
    OrdersTotal();
    SortSorts(PathsOf(db2, keys), TextLe);
    SortSorts(EmptyDirectories(db2, repository), TextLe);
  }

  lemma OneDirectoryWrites(repository: string, p: string, enc: Encoders)
    ensures var key := EmptyDirectoryKey(repository, p);
      TreeWrites(repository, OneDirectory(p), enc)
        == [Edge(RepositoryKey(repository), ContainsEmptyDirectory, key), Node(key, EmptyDirectoryNode(repository, p))]
  {
    assert [p][1..] == [];
    assert DirectoriesWrites(repository, [p]) == DirectoryWrites(repository, p) + [];
  }

  lemma SourcesApart(m: string, n: string, c: string)
    requires m != n
    ensures EdgeStorageKey(RepositoryKey(m), ContainsEmptyDirectory, c)
         != EdgeStorageKey(RepositoryKey(n), ContainsEmptyDirectory, c)
  {
    var head := EDGE_PREFIX + StorageName(ContainsEmptyDirectory) + ":" + "repository:";
    assert EdgeStorageKey(RepositoryKey(m), ContainsEmptyDirectory, c) == head + (m + (":" + c));
    assert EdgeStorageKey(RepositoryKey(n), ContainsEmptyDirectory, c) == head + (n + (":" + c));
    if head + (m + (":" + c)) == head + (n + (":" + c)) {
      Cancel(head, m + (":" + c), n + (":" + c));
      CancelEnd(m, n, ":" + c, ":" + c);
    }
  }

  lemma {:induction false} PathListed(db: Db, keys: seq<string>, key: string, owner: string, q: string)
    requires key in keys && GetNode(db, key) == Some(EmptyDirectoryNode(owner, q))
    ensures q in PathsOf(db, keys)
  {
    if keys[0] != key { PathListed(db, keys[1..], key, owner, q); }
  }
}
