/** Keys, records and the flat keyed store the procedure graph lives in. */
module GraphStore {
  import opened Wrappers
  import opened Bytes
  import opened Ordering
  import opened Sequences
  import opened ExactTree

  // ---- Keys ----

  /** Canonical text of a procedure id: fixed length, no colon. */
  predicate IsIdText(id: string) { |id| == 36 && ':' !in id }

  function RepositoryKey(name: string): string { "repository:" + name }
  function ProcedureKey(id: string): string { "procedure:" + id }
  function RevisionDetailKey(hash: string): string { "procedure_revision:" + hash }
  function ArtifactKey(owner: string, blob: string): string { "artifact:" + owner + ":" + blob }
  function ExactArtifactKey(id: string): string { "exact_artifact:" + id }
  function BlobKey(hash: string): string { "blob:" + hash }
  function EmptyDirectoryKey(repository: string, path: string): string {
    "empty_directory:" + repository + ":" + path
  }

  datatype EdgeKind = ContainsProcedure | ContainsEmptyDirectory

  function StorageName(kind: EdgeKind): string {
    match kind
    case ContainsProcedure => "repository_contains_procedure"
    case ContainsEmptyDirectory => "repository_contains_empty_directory"
  }

  const NODE_PREFIX := "px_graph_node:v1:"
  const EDGE_PREFIX := "px_graph_edge:v1:"

  function NodeStorageKey(key: string): string { NODE_PREFIX + key }

  function EdgeStorageKey(from: string, kind: EdgeKind, to: string): string {
    EDGE_PREFIX + StorageName(kind) + ":" + from + ":" + to
  }

  lemma Cancel(p: string, x: string, y: string)
    requires p + x == p + y
    ensures x == y
  {
    assert (p + x)[|p|..] == x && (p + y)[|p|..] == y;
  }

  lemma CancelEnd(x: string, y: string, p: string, q: string)
    requires x + p == y + q && |p| == |q|
    ensures x == y && p == q
  {
    assert |x| == |y|;
    assert (x + p)[..|x|] == x && (y + q)[..|x|] == y;
    assert (x + p)[|x|..] == p && (y + q)[|x|..] == q;
  }

  lemma NodeKeysInjective(k: string, l: string)
    requires NodeStorageKey(k) == NodeStorageKey(l)
    ensures k == l
  {
    Cancel(NODE_PREFIX, k, l);
  }

  /** Among the edges of one kind out of one node, the key determines the target. */
  lemma EdgeTargets(from: string, kind: EdgeKind, c: string, d: string)
    ensures EdgeStorageKey(from, kind, c) == EdgeStorageKey(from, kind, d) ==> c == d
  {
    if EdgeStorageKey(from, kind, c) == EdgeStorageKey(from, kind, d) {
      Cancel(EDGE_PREFIX + StorageName(kind) + ":" + from + ":", c, d);
    }
  }

  /** Nodes and edges never share a storage key. */
  lemma NodeOrEdge(key: string, from: string, kind: EdgeKind, to: string)
    ensures NodeStorageKey(key) != EdgeStorageKey(from, kind, to)
  {
    assert NodeStorageKey(key)[9] == 'n';
    assert EdgeStorageKey(from, kind, to)[9] == 'e';
  }

  /** The part of a key before its first colon. */
  function KindName(key: string): string {
    if key == [] || key[0] == ':' then [] else [key[0]] + KindName(key[1..])
  }

  lemma {:induction false} NameThen(name: string, rest: string)
    requires ':' !in name
    ensures KindName(name + ":" + rest) == name
  {
    var key := name + ":" + rest;
    if name != [] {
      assert key[1..] == name[1..] + ":" + rest;
      NameThen(name[1..], rest);
    }
  }

  /** The kind of a node can be read off its key, whatever the key is made of: different kinds never share one. */
  lemma KindNames(name: string, id: string, revision: string, owner: string, artifact: string, exact: string,
                  hash: string, repository: string, path: string)
    ensures KindName(RepositoryKey(name)) == "repository" && KindName(ProcedureKey(id)) == "procedure"
    ensures KindName(RevisionDetailKey(revision)) == "procedure_revision"
    ensures KindName(ArtifactKey(owner, artifact)) == "artifact"
      && KindName(ExactArtifactKey(exact)) == "exact_artifact"
    ensures KindName(BlobKey(hash)) == "blob" && KindName(EmptyDirectoryKey(repository, path)) == "empty_directory"
  {
    NameThen("repository", name);
    NameThen("procedure", id);
    NameThen("procedure_revision", revision);
    NameThen("artifact", owner + ":" + artifact);
    NameThen("exact_artifact", exact);
    NameThen("blob", hash);
    NameThen("empty_directory", repository + ":" + path);
    KeyShapes(owner, artifact, repository, path);
    Prefixes();
  }

  lemma KeyShapes(owner: string, artifact: string, repository: string, path: string)
    ensures ArtifactKey(owner, artifact) == "artifact" + ":" + (owner + ":" + artifact)
    ensures EmptyDirectoryKey(repository, path) == "empty_directory" + ":" + (repository + ":" + path)
  {}

  lemma Prefixes()
    ensures "repository" + ":" == "repository:" && "procedure" + ":" == "procedure:"
    ensures "procedure_revision" + ":" == "procedure_revision:" && "exact_artifact" + ":" == "exact_artifact:"
    ensures "blob" + ":" == "blob:"
  {}

  /** The same for the pairs of keys the writes of a tree can bring together. */
  lemma KindsDisjoint(a: string, b: string, c: string)
    ensures BlobKey(a) != ExactArtifactKey(b) && BlobKey(a) != EmptyDirectoryKey(b, c)
    ensures BlobKey(a) != ArtifactKey(b, c) && BlobKey(a) != ProcedureKey(b) && BlobKey(a) != RevisionDetailKey(b)
    ensures ExactArtifactKey(a) != EmptyDirectoryKey(b, c) && ExactArtifactKey(a) != ArtifactKey(b, c)
    ensures ExactArtifactKey(a) != ProcedureKey(b) && ExactArtifactKey(a) != RevisionDetailKey(b)
    ensures EmptyDirectoryKey(a, b) != ArtifactKey(b, c) && EmptyDirectoryKey(a, b) != ProcedureKey(c)
    ensures EmptyDirectoryKey(a, b) != RevisionDetailKey(c)
    ensures ProcedureKey(a) != EmptyDirectoryKey(b, c)
  {
    assert ExactArtifactKey(a)[0] == 'e' && ExactArtifactKey(b)[0] == 'e' && ExactArtifactKey(a)[1] == 'x';
    assert EmptyDirectoryKey(a, b)[0] == 'e' && EmptyDirectoryKey(b, c)[0] == 'e' && EmptyDirectoryKey(b, c)[1] == 'm';
    assert BlobKey(a)[0] == 'b' && ArtifactKey(b, c)[0] == 'a';
    assert ProcedureKey(a)[0] == 'p' && ProcedureKey(b)[0] == 'p' && ProcedureKey(c)[0] == 'p';
    assert RevisionDetailKey(b)[0] == 'p' && RevisionDetailKey(c)[0] == 'p';
  }

  // ---- Records ----

  datatype ProcedureRecord = ProcedureRecord(id: string, name: string, path: string, currentRevision: string)

  datatype RevisionContent = RevisionContent(procedureId: string, sourceText: string)

  datatype GraphNode =
    | ProcedureNode(procedure: ProcedureRecord)
    | RevisionNode(content: RevisionContent)
    | ArtifactNode(owner: string, artifact: ExactArtifact)
    | ExactArtifactNode(exact: ExactArtifact)
    | BlobNode(bytes: seq<byte>)
    | EmptyDirectoryNode(repository: string, path: string)

  datatype Record =
    | Node(key: string, node: GraphNode)
    | Edge(from: string, kind: EdgeKind, to: string)

  function StorageKeyOf(r: Record): string {
    match r
    case Node(key, _) => NodeStorageKey(key)
    case Edge(from, kind, to) => EdgeStorageKey(from, kind, to)
  }

  type Db = map<string, Record>

  /** Every record sits under its own key. */
  ghost predicate WellKeyed(db: Db) {
    forall k :: k in db ==> StorageKeyOf(db[k]) == k
  }

  /** A store write puts a record under its own key. */
  function Put(db: Db, r: Record): Db { db[StorageKeyOf(r) := r] }

  function PutAll(db: Db, rs: seq<Record>): Db
    decreases |rs|
  {
    if rs == [] then db else PutAll(Put(db, rs[0]), rs[1..])
  }

  lemma PutTwo(db: Db, a: Record, b: Record)
    ensures PutAll(db, [a, b]) == Put(Put(db, a), b)
  {
    assert [a, b][1..] == [b] && [b][1..] == [];
    assert PutAll(Put(db, a), [b]) == PutAll(Put(Put(db, a), b), []);
  }

  lemma {:induction false} PutAllConcat(db: Db, a: seq<Record>, b: seq<Record>)
    ensures PutAll(db, a + b) == PutAll(PutAll(db, a), b)
    decreases |a|
  {
    if a == [] {
      assert a + b == b;
    } else {
      assert (a + b)[1..] == a[1..] + b;
      PutAllConcat(Put(db, a[0]), a[1..], b);
    }
  }

  lemma {:induction false} PutAllKeyed(db: Db, rs: seq<Record>)
    requires WellKeyed(db)
    ensures WellKeyed(PutAll(db, rs))
    decreases |rs|
  {
    if rs != [] { PutAllKeyed(Put(db, rs[0]), rs[1..]); }
  }

  /** What a key holds after a series of writes: the last one to it, or what was there. */
  lemma {:induction false} PutAllLast(db: Db, rs: seq<Record>, k: string)
    ensures (exists i :: 0 <= i < |rs| && StorageKeyOf(rs[i]) == k
              && k in PutAll(db, rs) && PutAll(db, rs)[k] == rs[i]
              && forall j :: i < j < |rs| ==> StorageKeyOf(rs[j]) != k)
         || ((forall i :: 0 <= i < |rs| ==> StorageKeyOf(rs[i]) != k)
              && (k in PutAll(db, rs) <==> k in db) && (k in db ==> PutAll(db, rs)[k] == db[k]))
    decreases |rs|
  {
    if rs != [] {
      var tail := rs[1..];
      PutAllLast(Put(db, rs[0]), tail, k);
      if i :| 0 <= i < |tail| && StorageKeyOf(tail[i]) == k && k in PutAll(Put(db, rs[0]), tail)
              && PutAll(Put(db, rs[0]), tail)[k] == tail[i]
              && (forall j :: i < j < |tail| ==> StorageKeyOf(tail[j]) != k) {
        assert rs[i + 1] == tail[i];
        forall j | i + 1 < j < |rs| ensures StorageKeyOf(rs[j]) != k { assert rs[j] == tail[j - 1]; }
      } else {
        forall j | 1 <= j < |rs| ensures StorageKeyOf(rs[j]) != k { assert rs[j] == tail[j - 1]; }
        if StorageKeyOf(rs[0]) == k { assert PutAll(db, rs)[k] == rs[0]; }
      }
    }
  }

  /** Repeating a series of writes changes nothing. */
  lemma PutAllIdempotent(db: Db, rs: seq<Record>)
    ensures PutAll(PutAll(db, rs), rs) == PutAll(db, rs)
  {
    var once := PutAll(db, rs);
    var twice := PutAll(once, rs);
    forall k ensures (k in twice <==> k in once) && (k in once ==> twice[k] == once[k]) {
      PutAllLast(db, rs, k);
      PutAllLast(once, rs, k);
      if i :| 0 <= i < |rs| && StorageKeyOf(rs[i]) == k && k in once && once[k] == rs[i]
              && forall j :: i < j < |rs| ==> StorageKeyOf(rs[j]) != k {
        var l :| 0 <= l < |rs| && StorageKeyOf(rs[l]) == k && k in twice && twice[k] == rs[l]
                && forall j :: l < j < |rs| ==> StorageKeyOf(rs[j]) != k;
        assert i == l;
      }
    }
  }

  // ---- Reads ----

  function GetNode(db: Db, key: string): Option<GraphNode> {
    var k := NodeStorageKey(key);
    if k in db && db[k].Node? then Some(db[k].node) else None
  }

  predicate IsChild(r: Record, from: string, kind: EdgeKind) {
    r.Edge? && r.from == from && r.kind == kind
  }

  ghost function ChildSet(db: Db, from: string, kind: EdgeKind): set<string> {
    set k | k in db && IsChild(db[k], from, kind) :: db[k].to
  }

  /** Writing a node leaves all edges, and the nodes under other keys, as they are. */
  lemma PutNodeFrame(db: Db, key: string, node: GraphNode, from: string, kind: EdgeKind)
    requires WellKeyed(db)
    ensures ChildSet(Put(db, Node(key, node)), from, kind) == ChildSet(db, from, kind)
    ensures GetNode(Put(db, Node(key, node)), key) == Some(node)
    ensures forall other :: other != key ==> GetNode(Put(db, Node(key, node)), other) == GetNode(db, other)
  {
    var db' := Put(db, Node(key, node));
    forall c ensures c in ChildSet(db', from, kind) <==> c in ChildSet(db, from, kind) {
      if c in ChildSet(db, from, kind) {
        var k :| k in db && IsChild(db[k], from, kind) && db[k].to == c;
        NodeOrEdge(key, from, kind, c);
        assert db'[k] == db[k];
      }
    }
    forall other | other != key ensures GetNode(db', other) == GetNode(db, other) {
      if NodeStorageKey(other) == NodeStorageKey(key) { NodeKeysInjective(other, key); }
    }
  }

  /** Writing an edge leaves all nodes as they are and can only add its own child. */
  lemma PutEdgeFrame(db: Db, from: string, kind: EdgeKind, to: string, from': string, kind': EdgeKind)
    requires WellKeyed(db)
    ensures var db' := Put(db, Edge(from, kind, to));
      && (forall c :: c in ChildSet(db', from', kind') ==>
            c in ChildSet(db, from', kind') || (from == from' && kind == kind' && c == to))
      && (forall c :: c in ChildSet(db, from', kind')
            && EdgeStorageKey(from', kind', c) != EdgeStorageKey(from, kind, to)
            ==> c in ChildSet(db', from', kind'))
      && to in ChildSet(db', from, kind)
      && forall key :: GetNode(db', key) == GetNode(db, key)
  {
    var db' := Put(db, Edge(from, kind, to));
    var sk := EdgeStorageKey(from, kind, to);
    assert sk in db' && IsChild(db'[sk], from, kind) && db'[sk].to == to;
    forall c | c in ChildSet(db, from', kind') && EdgeStorageKey(from', kind', c) != sk
      ensures c in ChildSet(db', from', kind')
    {
      var k :| k in db && IsChild(db[k], from', kind') && db[k].to == c;
      assert k == EdgeStorageKey(from', kind', c);
      assert db'[k] == db[k];
    }
    forall key ensures GetNode(db', key) == GetNode(db, key) { NodeOrEdge(key, from, kind, to); }
  }

  // ---- The sorted listing of a set ----

  ghost predicate ListingOf(s: seq<string>, elements: set<string>) {
    Sorted(s, TextLe) && NoDuplicates(s) && forall x :: x in s <==> x in elements
  }

  lemma ListingUnique(s: seq<string>, t: seq<string>, elements: set<string>)
    requires ListingOf(s, elements) && ListingOf(t, elements)
    ensures s == t
  {
    SameElements(s, t);
    forall a, b | a in s && b in s && TextLe(a, b) && TextLe(b, a) ensures a == b { TextOrder(a, b); }
    SortedUnique(s, t, TextLe);
  }

  lemma ListingExists(elements: set<string>)
    ensures exists s :: ListingOf(s, elements)
  {
    var s: seq<string> := [];
    var todo := elements;
    while todo != {}
      invariant todo <= elements && NoDuplicates(s)
      invariant forall x :: x in s <==> x in elements && x !in todo
      decreases todo
    {
      var x :| x in todo;
      s, todo := s + [x], todo - {x};
    }
    OrdersTotal();
    SortSorts(s, TextLe);
    PermutationDistinct(s, SortBy(s, TextLe));
    assert ListingOf(SortBy(s, TextLe), elements);
  }

  ghost function Listing(elements: set<string>): (s: seq<string>)
    ensures ListingOf(s, elements)
  {
    ListingExists(elements);
    var s :| ListingOf(s, elements);
    s
  }

  /** Child keys in ascending order. */
  ghost function Children(db: Db, from: string, kind: EdgeKind): seq<string> {
    Listing(ChildSet(db, from, kind))
  }

  ghost function PathsOf(db: Db, keys: seq<string>): seq<string> {
    if keys == [] then []
    else
      match GetNode(db, keys[0])
      case Some(EmptyDirectoryNode(_, path)) => [path] + PathsOf(db, keys[1..])
      case _ => PathsOf(db, keys[1..])
  }

  ghost function EmptyDirectories(db: Db, repository: string): seq<string> {
    SortBy(PathsOf(db, Children(db, RepositoryKey(repository), ContainsEmptyDirectory)), TextLe)
  }

  // ---- The store object ----

  class Store {
    var db: Db

    ghost predicate Valid()
      reads this
    {
      WellKeyed(db)
    }

    constructor ()
      ensures Valid() && db == map[]
    {
      db := map[];
    }

    method PutRecord(r: Record)
      requires Valid()
      modifies this
      ensures Valid() && db == Put(old(db), r)
    {
      db := db[StorageKeyOf(r) := r];
    }

    /** Edge first, then the bookkeeping node. */
    method PutEmptyDirectory(repository: string, path: string)
      requires Valid()
      modifies this
      ensures Valid() && db == PutAll(old(db), DirectoryWrites(repository, path))
    {
      var key := EmptyDirectoryKey(repository, path);
      PutRecord(Edge(RepositoryKey(repository), ContainsEmptyDirectory, key));
      PutRecord(Node(key, EmptyDirectoryNode(repository, path)));
      ghost var ws := DirectoryWrites(repository, path);
      PutTwo(old(db), ws[0], ws[1]);
      assert ws == [ws[0], ws[1]];
    }

    method ReadNode(key: string) returns (node: Option<GraphNode>)
      requires Valid()
      ensures node == GetNode(db, key)
    {
      var k := NodeStorageKey(key);
      if k in db && db[k].Node? { node := Some(db[k].node); } else { node := None; }
    }

    /** Scans every record, in whatever order the listing comes, and sorts the targets. */
    method GetChildren(from: string, kind: EdgeKind) returns (children: seq<string>)
      requires Valid()
      ensures children == Children(db, from, kind)
    {
      children := [];
      var todo := db.Keys;
      while todo != {}
        invariant todo <= db.Keys && NoDuplicates(children)
        invariant forall c :: c in children <==>
          (var k := EdgeStorageKey(from, kind, c); k in db && k !in todo && IsChild(db[k], from, kind))
        decreases todo
      {
        var k :| k in todo;
        if IsChild(db[k], from, kind) {
          assert k == EdgeStorageKey(from, kind, db[k].to);
          forall c | EdgeStorageKey(from, kind, c) == k ensures c == db[k].to {
            EdgeTargets(from, kind, c, db[k].to);
          }
          assert db[k].to !in children;
          children := children + [db[k].to];
        }
        todo := todo - {k};
      }
      forall c ensures c in children <==> c in ChildSet(db, from, kind) {
        if c in ChildSet(db, from, kind) {
          var k :| k in db && IsChild(db[k], from, kind) && db[k].to == c;
          assert k == EdgeStorageKey(from, kind, c);
        }
        if c in children {
          var k := EdgeStorageKey(from, kind, c);
          EdgeTargets(from, kind, c, db[k].to);
          assert db[k].to in ChildSet(db, from, kind);
        }
      }
      OrdersTotal();
      SortSorts(children, TextLe);
      PermutationDistinct(children, SortBy(children, TextLe));
      children := SortBy(children, TextLe);
      ListingUnique(children, Children(db, from, kind), ChildSet(db, from, kind));
    }

    method GetEmptyDirectories(repository: string) returns (paths: seq<string>)
      requires Valid()
      ensures paths == EmptyDirectories(db, repository)
    {
      var children := GetChildren(RepositoryKey(repository), ContainsEmptyDirectory);
      paths := [];
      assert children[0..] == children;
      for i := 0 to |children|
        invariant paths + PathsOf(db, children[i..]) == PathsOf(db, children)
      {
        assert children[i..][0] == children[i] && children[i..][1..] == children[i + 1..];
        var node := ReadNode(children[i]);
        match node {
          case Some(EmptyDirectoryNode(_, path)) => paths := paths + [path];
          case _ =>
        }
      }
      assert children[|children|..] == [] && paths + [] == paths;
      paths := SortBy(paths, TextLe);
    }
  }

  function DirectoryWrites(repository: string, path: string): seq<Record> {
    var key := EmptyDirectoryKey(repository, path);
    [Edge(RepositoryKey(repository), ContainsEmptyDirectory, key), Node(key, EmptyDirectoryNode(repository, path))]
  }
}
