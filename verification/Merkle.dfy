/** Roots over sets of identified hashes: sorted, canonical, encoded and hashed. */
module Merkle {
  import opened Wrappers
  import opened Ordering
  import opened Sequences
  import opened GraphStore
  import opened Canonical

  /** An id (or path) and the text of its hash. */
  datatype Entry = Entry(id: string, hash: string)

  function IdOf(): Entry -> string { (e: Entry) => e.id }
  function ById(): (Entry, Entry) -> bool { OnText(IdOf()) }

  /** Names of the two fields an entry is written with. */
  datatype Fields = Fields(id: string, hash: string)

  const PROCEDURE_FIELDS := Fields("procedure_id", "revision_hash")
  const ENTITY_FIELDS := Fields("entity_id", "entity_hash")
  const MATERIALIZATION_FIELDS := Fields("path", "blob_hash")

  function EntryJson(fs: Fields): Entry -> Json {
    (e: Entry) => Obj([Member(fs.id, Str(e.id)), Member(fs.hash, Str(e.hash))])
  }

  /** The entries in the order they are written: by id, equal ids as given. */
  function Arranged(entries: seq<Entry>): seq<Entry> { SortBy(entries, ById()) }

  function Payload(fs: Fields, entries: seq<Entry>): Json { Arr(Map(EntryJson(fs), Arranged(entries))) }

  /** The root under a compact writer and a hash function; both are given. */
  function Root(fs: Fields, encode: Json -> seq<int>, hash: seq<int> -> string, entries: seq<Entry>):
    Result<string, CanonicalError>
  {
    match Outcome(Payload(fs, entries), "$")
    case Ok(canonical) => Ok(hash(encode(canonical)))
    case Err(e) => Err(e)
  }

  // ---- The payload determines the entries ----

  lemma PayloadAccepted(fs: Fields, entries: seq<Entry>)
    requires fs.id != fs.hash
    ensures Keyed(Payload(fs, entries)) && Acceptable(Payload(fs, entries))
  {}

  /** Of two members only the first has the key, so it is the one that covers. */
  lemma FirstCovered(m: Member, ms: seq<Member>, n: Member, o: Member, ns: seq<Member>)
    requires Covers(ms, ns) && m in ms && ns == [n, o] && o.key != m.key
    ensures Reordered(m.value, n.value)
  {}

  lemma SecondCovered(m: Member, ms: seq<Member>, n: Member, o: Member, ns: seq<Member>)
    requires Covers(ms, ns) && m in ms && ns == [n, o] && n.key != m.key
    ensures Reordered(m.value, o.value)
  {}

  lemma IdAgrees(fs: Fields, a: Entry, b: Entry, ms: seq<Member>, ns: seq<Member>)
    requires fs.id != fs.hash && Covers(ms, ns)
    requires EntryJson(fs)(a) == Obj(ms) && EntryJson(fs)(b) == Obj(ns)
    ensures a.id == b.id
  {
    var m, n, o := Member(fs.id, Str(a.id)), Member(fs.id, Str(b.id)), Member(fs.hash, Str(b.hash));
    assert ms[0] == m;
    FirstCovered(m, ms, n, o, ns);
  }

  lemma HashAgrees(fs: Fields, a: Entry, b: Entry, ms: seq<Member>, ns: seq<Member>)
    requires fs.id != fs.hash && Covers(ms, ns)
    requires EntryJson(fs)(a) == Obj(ms) && EntryJson(fs)(b) == Obj(ns)
    ensures a.hash == b.hash
  {
    var m, n, o := Member(fs.hash, Str(a.hash)), Member(fs.id, Str(b.id)), Member(fs.hash, Str(b.hash));
    assert ms[1] == m;
    SecondCovered(m, ms, n, o, ns);
  }

  /** The canonical forms of two payloads agree exactly when the arranged entries do. */
  lemma PayloadInjective(fs: Fields, s: seq<Entry>, t: seq<Entry>)
    requires fs.id != fs.hash
    ensures Outcome(Payload(fs, s), "$") == Outcome(Payload(fs, t), "$") <==> Arranged(s) == Arranged(t)
  {
    PayloadAccepted(fs, s);
    PayloadAccepted(fs, t);
    SucceedsIffAcceptable(Payload(fs, s), "$");
    SucceedsIffAcceptable(Payload(fs, t), "$");
    SameFormIffReordered(Payload(fs, s), Payload(fs, t), "$", "$");
    if Reordered(Payload(fs, s), Payload(fs, t)) {
      var xs, ys := Arranged(s), Arranged(t);
      forall i | 0 <= i < |xs| ensures xs[i] == ys[i] {
        IdAgrees(fs, xs[i], ys[i], EntryJson(fs)(xs[i]).members, EntryJson(fs)(ys[i]).members);
        HashAgrees(fs, xs[i], ys[i], EntryJson(fs)(xs[i]).members, EntryJson(fs)(ys[i]).members);
      }
    }
  }

  /** The payload lists one object per entry, the ids ascending, the fields under the given names. */
  lemma PayloadOrdered(fs: Fields, entries: seq<Entry>) returns (es: seq<Entry>)
    ensures multiset(es) == multiset(entries) && forall i, j :: 0 <= i < j < |es| ==> TextLe(es[i].id, es[j].id)
    ensures Payload(fs, entries).Arr? && |Payload(fs, entries).items| == |es|
    ensures forall i :: 0 <= i < |es| ==>
      Payload(fs, entries).items[i] == Obj([Member(fs.id, Str(es[i].id)), Member(fs.hash, Str(es[i].hash))])
  {
    es := Arranged(entries);
    OnTextTotal(IdOf());
    SortSorts(entries, ById());
    forall i, j | 0 <= i < j < |es| ensures TextLe(es[i].id, es[j].id) { assert ById()(es[i], es[j]); }
  }

  /** A root always exists. */
  lemma RootExists(fs: Fields, encode: Json -> seq<int>, hash: seq<int> -> string, entries: seq<Entry>)
    requires fs.id != fs.hash
    ensures Root(fs, encode, hash, entries).Ok?
  {
    PayloadAccepted(fs, entries);
    SucceedsIffAcceptable(Payload(fs, entries), "$");
  }

  // ---- Input order ----

  /** No id comes with two different hashes. */
  ghost predicate Consistent(entries: seq<Entry>) {
    forall a, b :: a in entries && b in entries && a.id == b.id ==> a == b
  }

  lemma ConsistentArranged(s: seq<Entry>, t: seq<Entry>)
    requires Consistent(s) && multiset(s) == multiset(t)
    ensures Arranged(s) == Arranged(t)
  {
    OnTextTotal(IdOf());
    forall a, b | a in s && b in s && ById()(a, b) && ById()(b, a) ensures a == b {
      assert IdOf()(a) == IdOf()(b);
    }
    SortForgetsOrder(s, t, ById());
  }

  lemma TakeOut(s: seq<Entry>, a: Entry) returns (t: seq<Entry>)
    requires a in s
    ensures multiset(s) == multiset(t) + multiset{a} && forall x :: x != a && x in s ==> x in t
  {
    var i :| 0 <= i < |s| && s[i] == a;
    WithoutMultiset(s, i);
    t := Without(s, i);
    forall x | x != a && x in s ensures x in t { assert x in multiset(s); }
  }

  lemma TwoFirst(s: seq<Entry>, a: Entry, b: Entry) returns (rest: seq<Entry>)
    requires a in s && b in s && a != b
    ensures multiset([a, b] + rest) == multiset(s) && multiset([b, a] + rest) == multiset(s)
  {
    var t := TakeOut(s, a);
    rest := TakeOut(t, b);
  }

  /** Without consistency some rearrangement is written differently. */
  lemma InconsistentRearranged(s: seq<Entry>, a: Entry, b: Entry) returns (t: seq<Entry>)
    requires a in s && b in s && a.id == b.id && a != b
    ensures multiset(t) == multiset(s) && Arranged(t) != Arranged(s)
  {
    var rest := TwoFirst(s, a, b);
    var t1, t2 := [a, b] + rest, [b, a] + rest;
    assert t1[1..] == [b] + rest && t2[1..] == [a] + rest;
    OnTextTotal(IdOf());
    assert Alike(t1, ById(), a)[0] == a && Alike(t2, ById(), a)[0] == b;
    SortStable(t1, ById(), a);
    SortStable(t2, ById(), a);
    t := if Arranged(t1) == Arranged(s) then t2 else t1;
  }

  /** The written form forgets the input order exactly when no id comes with two hashes. */
  lemma OrderForgottenExactly(s: seq<Entry>)
    ensures (forall t :: multiset(t) == multiset(s) ==> Arranged(t) == Arranged(s)) <==> Consistent(s)
  {
    if Consistent(s) {
      forall t | multiset(t) == multiset(s) ensures Arranged(t) == Arranged(s) { ConsistentArranged(s, t); }
    } else {
      var a, b :| a in s && b in s && a.id == b.id && a != b;
      var t := InconsistentRearranged(s, a, b);
    }
  }

  // ---- Roots ----

  /** The writer and the hash tell these two payloads apart if they differ. */
  ghost predicate NoCollision(
      fs: Fields, encode: Json -> seq<int>, hash: seq<int> -> string, s: seq<Entry>, t: seq<Entry>)
  {
    var a, b := Outcome(Payload(fs, s), "$"), Outcome(Payload(fs, t), "$");
    a.Ok? && b.Ok? && hash(encode(a.value)) == hash(encode(b.value)) ==> a == b
  }

  /** Roots agree exactly when the entries do, as collections. */
  lemma EqualRootsExactly(fs: Fields, encode: Json -> seq<int>, hash: seq<int> -> string, s: seq<Entry>, t: seq<Entry>)
    requires fs.id != fs.hash && Consistent(s) && NoCollision(fs, encode, hash, s, t)
    ensures Root(fs, encode, hash, s) == Root(fs, encode, hash, t) <==> multiset(s) == multiset(t)
  {
    RootExists(fs, encode, hash, s);
    RootExists(fs, encode, hash, t);
    PayloadInjective(fs, s, t);
    OnTextTotal(IdOf());
    SortSorts(s, ById());
    SortSorts(t, ById());
    if multiset(s) == multiset(t) { ConsistentArranged(s, t); }
  }

  /** The three roots differ in field names only. */
  lemma FieldsDiffer()
    ensures PROCEDURE_FIELDS.id != PROCEDURE_FIELDS.hash
    ensures ENTITY_FIELDS.id != ENTITY_FIELDS.hash
    ensures MATERIALIZATION_FIELDS.id != MATERIALIZATION_FIELDS.hash
  {}

  // ---- The root of the stored procedures ----

  ghost predicate IsProcedure(r: Record) { r.Node? && r.node.ProcedureNode? }

  /** Procedures are stored under the key of their own id. */
  ghost predicate ProceduresKeyed(db: Db) {
    forall k :: k in db && IsProcedure(db[k]) ==> db[k].key == ProcedureKey(db[k].node.procedure.id)
  }

  /** The record under `k` is a procedure with the entry's id at the entry's revision. */
  ghost predicate RecordedAs(db: Db, k: string, e: Entry) {
    && k in db && IsProcedure(db[k])
    && db[k].node.procedure.id == e.id && db[k].node.procedure.currentRevision == e.hash
  }

  /** One entry for each stored procedure, in some order. */
  ghost predicate Lists(db: Db, entries: seq<Entry>) {
    && NoDuplicates(entries)
    && forall e :: e in entries <==> exists k :: RecordedAs(db, k, e)
  }

  lemma StoredOnce(db: Db, j: string, k: string)
    requires WellKeyed(db) && ProceduresKeyed(db) && j in db && k in db && IsProcedure(db[j]) && IsProcedure(db[k])
    requires db[j].node.procedure.id == db[k].node.procedure.id
    ensures j == k
  {}

  lemma NotYetListed(db: Db, todo: set<string>, entries: seq<Entry>, k: string, e: Entry)
    requires WellKeyed(db) && ProceduresKeyed(db) && k in todo && RecordedAs(db, k, e)
    requires forall e :: e in entries ==> exists j :: j !in todo && RecordedAs(db, j, e)
    ensures e !in entries
  {
    forall j | RecordedAs(db, j, e) ensures j == k { StoredOnce(db, j, k); }
  }

  lemma ListsConsistent(db: Db, entries: seq<Entry>)
    requires WellKeyed(db) && ProceduresKeyed(db) && Lists(db, entries)
    ensures Consistent(entries)
  {}

  /** The root over a store is the same for every order in which its procedures are listed. */
  method CurrentProcedureRoot(store: Store, encode: Json -> seq<int>, hash: seq<int> -> string)
    returns (root: Result<string, CanonicalError>)
    requires store.Valid() && ProceduresKeyed(store.db)
    ensures root.Ok?
    ensures forall es :: Lists(store.db, es) ==> root == Root(PROCEDURE_FIELDS, encode, hash, es)
  {
    var entries: seq<Entry> := [];
    var todo := store.db.Keys;
    while todo != {}
      invariant todo <= store.db.Keys && NoDuplicates(entries)
      invariant forall e :: e in entries <==> exists k :: k !in todo && RecordedAs(store.db, k, e)
      decreases todo
    {
      var k :| k in todo;
      var r := store.db[k];
      if r.Node? && r.node.ProcedureNode? {
        var e := Entry(r.node.procedure.id, r.node.procedure.currentRevision);
        assert RecordedAs(store.db, k, e);
        NotYetListed(store.db, todo, entries, k, e);
        entries := entries + [e];
      }
      todo := todo - {k};
    }
    root := Root(PROCEDURE_FIELDS, encode, hash, entries);
    FieldsDiffer();
    RootExists(PROCEDURE_FIELDS, encode, hash, entries);
    ListsConsistent(store.db, entries);
    forall es | Lists(store.db, es) ensures root == Root(PROCEDURE_FIELDS, encode, hash, es) {
      SameElements(entries, es);
      ConsistentArranged(entries, es);
    }
  }

  /** Two stores have the same root exactly when they hold the same procedures at the same revisions. */
  lemma StoresSameRootExactly(encode: Json -> seq<int>, hash: seq<int> -> string,
                              d1: Db, d2: Db, s: seq<Entry>, t: seq<Entry>)
    requires WellKeyed(d1) && ProceduresKeyed(d1) && Lists(d1, s)
    requires WellKeyed(d2) && ProceduresKeyed(d2) && Lists(d2, t)
    requires NoCollision(PROCEDURE_FIELDS, encode, hash, s, t)
    ensures Root(PROCEDURE_FIELDS, encode, hash, s) == Root(PROCEDURE_FIELDS, encode, hash, t)
      <==> forall e :: e in s <==> e in t
  {
    FieldsDiffer();
    ListsConsistent(d1, s);
    EqualRootsExactly(PROCEDURE_FIELDS, encode, hash, s, t);
    if forall e :: e in s <==> e in t { SameElements(s, t); }
    if multiset(s) == multiset(t) {
      forall e ensures e in s <==> e in t { assert e in multiset(s) <==> e in multiset(t); }
    }
  }

  /** Every write keeps procedures under their own keys, if it puts procedures there. */
  lemma PutKeepsProcedures(db: Db, r: Record)
    requires ProceduresKeyed(db) && (IsProcedure(r) ==> r.key == ProcedureKey(r.node.procedure.id))
    ensures ProceduresKeyed(Put(db, r))
  {}
}
