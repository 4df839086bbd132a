/** The causal version timeline: entries, the latest pointer, and parent chains over whole runs. */
module Chronos {
  import opened Wrappers
  import opened Ordering
  import opened Sequences

  datatype Level = Debug | Info | Warn | Error

  function Rank(l: Level): nat {
    match l
    case Debug => 0
    case Info => 1
    case Warn => 2
    case Error => 3
  }

  datatype Entry = Entry(
    id: string,
    timestamp: nat,
    actor: string,
    key: string,
    level: Level,
    dataHash: string,
    parentId: Option<string>)

  datatype Record = EntryRecord(entry: Entry) | Pointer(entryId: string, timestamp: nat)

  type Db = map<string, Record>

  function EntryKey(id: string): string { "chronos:entry:" + id }
  function LatestKey(key: string): string { "chronos:latest:" + key }

  lemma KeysApart(a: string, b: string)
    ensures EntryKey(a) != LatestKey(b)
    ensures EntryKey(a) == EntryKey(b) ==> a == b
    ensures LatestKey(a) == LatestKey(b) ==> a == b
  {
    assert EntryKey(a)[8] == 'e' && LatestKey(b)[8] == 'l';
    assert EntryKey(a)[14..] == a && EntryKey(b)[14..] == b;
    assert LatestKey(a)[15..] == a && LatestKey(b)[15..] == b;
  }

  function Fetch(db: Db, id: string): Option<Entry> {
    var k := EntryKey(id);
    if k in db && db[k].EntryRecord? then Some(db[k].entry) else None
  }

  /** Through the pointer, then the entry it names. */
  function Latest(db: Db, key: string): Option<Entry> {
    var k := LatestKey(key);
    if k in db && db[k].Pointer? then Fetch(db, db[k].entryId) else None
  }

  function ParentFor(db: Db, key: string): Option<string> {
    match Latest(db, key)
    case Some(e) => Some(e.id)
    case None => None
  }

  function WithEntry(db: Db, e: Entry): Db { db[EntryKey(e.id) := EntryRecord(e)] }

  function WithPointer(db: Db, e: Entry): Db { db[LatestKey(e.key) := Pointer(e.id, e.timestamp)] }

  /** The entry, then the pointer. */
  function Written(db: Db, e: Entry): Db { WithPointer(WithEntry(db, e), e) }

  // ---- Queries over the whole timeline ----

  /** Entries sit under their own key. */
  ghost predicate EntriesKeyed(db: Db) {
    forall k :: k in db && db[k].EntryRecord? ==> k == EntryKey(db[k].entry.id)
  }

  ghost predicate PointsTo(db: Db, k: string, id: string, at: nat) { k in db && db[k] == Pointer(id, at) }

  ghost predicate Holds(db: Db, k: string, e: Entry) { k in db && db[k] == EntryRecord(e) }

  /** The key's pointer leads to this entry. */
  ghost predicate Behind(db: Db, key: string, d: Entry) {
    exists p, at :: PointsTo(db, "chronos:latest:" + key, p, at) && Holds(db, "chronos:entry:" + p, d)
  }

  lemma ParentExactly(db: Db, key: string)
    ensures ParentFor(db, key).Some? ==> exists d :: Behind(db, key, d)
    ensures forall d :: Behind(db, key, d) ==> ParentFor(db, key) == Some(d.id)
  {
    if ParentFor(db, key).Some? {
      var r, d := db[LatestKey(key)], Latest(db, key).value;
      assert PointsTo(db, "chronos:latest:" + key, r.entryId, r.timestamp);
      assert Holds(db, "chronos:entry:" + r.entryId, d);
      assert Behind(db, key, d);
    }
  }

  ghost predicate Stored(db: Db, e: Entry) { Fetch(db, e.id) == Some(e) }

  predicate NewerFirst(a: Entry, b: Entry) { a.timestamp >= b.timestamp }

  /** By timestamp, ties by id. */
  predicate Chronological(a: Entry, b: Entry) {
    a.timestamp < b.timestamp || (a.timestamp == b.timestamp && TextLe(a.id, b.id))
  }

  lemma QueryOrders()
    ensures TotalPreorder(NewerFirst) && TotalPreorder(Chronological)
  {
    forall a: Entry, b: Entry ensures Chronological(a, b) || Chronological(b, a) { TextOrder(a.id, b.id); }
    forall a: Entry, b: Entry, c: Entry | Chronological(a, b) && Chronological(b, c) ensures Chronological(a, c) {
      if a.timestamp == b.timestamp == c.timestamp { TextTransitive(a.id, b.id, c.id); }
    }
  }

  /** Position of the entry with the given id. */
  function Position(es: seq<Entry>, id: string): (r: Option<nat>)
    ensures r.Some? ==> r.value < |es| && es[r.value].id == id
    ensures r.None? ==> forall e :: e in es ==> e.id != id
  {
    if es == [] then None
    else if es[0].id == id then Some(0)
    else
      match Position(es[1..], id)
      case None => None
      case Some(i) => Some(i + 1)
  }

  /** No bound given, none stored under that id, or not beyond the stored one. */
  ghost predicate NotBefore(db: Db, from: Option<string>, e: Entry) {
    forall d :: from.Some? && Fetch(db, from.value) == Some(d) ==>
      d.timestamp < e.timestamp || (d.timestamp == e.timestamp && TextLe(d.id, e.id))
  }

  ghost predicate NotAfter(db: Db, to: Option<string>, e: Entry) {
    forall d :: to.Some? && Fetch(db, to.value) == Some(d) ==>
      e.timestamp < d.timestamp || (e.timestamp == d.timestamp && TextLe(e.id, d.id))
  }

  lemma FetchById(db: Db, es: seq<Entry>, id: string)
    requires EntriesKeyed(db) && forall e :: e in es <==> Stored(db, e)
    ensures Position(es, id).Some? <==> Fetch(db, id).Some?
    ensures Position(es, id).Some? ==> Fetch(db, id) == Some(es[Position(es, id).value])
  {
    if Fetch(db, id).Some? {
      var e := Fetch(db, id).value;
      KeysApart(e.id, id);
      assert EntryKey(e.id) == EntryKey(id) && e in es;
    }
    if Position(es, id).Some? { assert es[Position(es, id).value] in es; }
  }

  /** In a strictly chronological listing positions and the order agree. */
  lemma PositionOrder(es: seq<Entry>, i: nat, k: nat)
    requires Sorted(es, Chronological) && DistinctIds(es) && i < |es| && k < |es|
    ensures i <= k <==> Chronological(es[i], es[k])
  {
    if i < k { assert Chronological(es[i], es[k]); }
    if k < i {
      assert Chronological(es[k], es[i]) && es[k].id != es[i].id;
      TextOrder(es[k].id, es[i].id);
    }
    TextOrder(es[i].id, es[i].id);
  }

  lemma StartBound(db: Db, es: seq<Entry>, from: Option<string>, start: nat)
    requires Sorted(es, Chronological) && DistinctIds(es) && EntriesKeyed(db) && forall e :: e in es <==> Stored(db, e)
    requires start == if from.Some? && Position(es, from.value).Some? then Position(es, from.value).value else 0
    ensures forall k :: 0 <= k < |es| ==> (start <= k <==> NotBefore(db, from, es[k]))
  {
    if from.Some? {
      FetchById(db, es, from.value);
      if Position(es, from.value).Some? {
        forall k | 0 <= k < |es| ensures start <= k <==> NotBefore(db, from, es[k]) { PositionOrder(es, start, k); }
      }
    }
  }

  lemma EndBound(db: Db, es: seq<Entry>, to: Option<string>, end: nat)
    requires Sorted(es, Chronological) && DistinctIds(es) && EntriesKeyed(db) && forall e :: e in es <==> Stored(db, e)
    requires end == if to.Some? && Position(es, to.value).Some? then Position(es, to.value).value + 1 else |es|
    ensures forall k :: 0 <= k < |es| ==> (k < end <==> NotAfter(db, to, es[k]))
  {
    if to.Some? {
      FetchById(db, es, to.value);
      if Position(es, to.value).Some? {
        forall k | 0 <= k < |es| ensures k < end <==> NotAfter(db, to, es[k]) { PositionOrder(es, k, end - 1); }
      }
    }
  }

  class ChronosTimeline {
    var db: Db
    var minLevel: Level

    constructor ()
      ensures db == map[] && minLevel == Info && EntriesKeyed(db)
    {
      db, minLevel := map[], Info;
    }

    method SetLevel(level: Level)
      modifies this
      ensures minLevel == level && db == old(db)
    {
      minLevel := level;
    }

    method GetLatest(key: string) returns (e: Option<Entry>)
      ensures e == Latest(db, key)
    {
      var k := LatestKey(key);
      if k !in db || !db[k].Pointer? { return None; }
      var ek := EntryKey(db[k].entryId);
      if ek !in db || !db[ek].EntryRecord? { return None; }
      return Some(db[ek].entry);
    }

    /** Only reads: the entry is not stored, the parent is the latest entry of now. */
    method BuildEntryWithLevel(id: string, now: nat, key: string, actor: string, level: Level, dataHash: string)
      returns (e: Entry)
      ensures e == Entry(id, now, actor, key, level, dataHash, ParentFor(db, key))
      ensures e.parentId.Some? ==> exists d :: Behind(db, key, d)
      ensures forall d :: Behind(db, key, d) ==> e.parentId == Some(d.id)
    {
      ParentExactly(db, key);
      var latest := GetLatest(key);
      var parent := if latest.Some? then Some(latest.value.id) else None;
      return Entry(id, now, actor, key, level, dataHash, parent);
    }

    method Record(e: Entry) returns (recorded: bool)
      modifies this
      ensures recorded <==> Rank(e.level) >= Rank(minLevel)
      ensures !recorded <==>
        || (e.level == Debug && minLevel != Debug)
        || (e.level == Info && (minLevel == Warn || minLevel == Error))
        || (e.level == Warn && minLevel == Error)
      ensures db == if recorded then Written(old(db), e) else old(db)
      ensures recorded ==>
        db == old(db)["chronos:entry:" + e.id := EntryRecord(e)][
                "chronos:latest:" + e.key := Pointer(e.id, e.timestamp)]
      ensures minLevel == old(minLevel)
      ensures EntriesKeyed(old(db)) ==> EntriesKeyed(db)
    {
      if Rank(e.level) < Rank(minLevel) { return false; }
      KeysApart(e.id, e.key);
      db := db[EntryKey(e.id) := EntryRecord(e)];
      db := db[LatestKey(e.key) := Pointer(e.id, e.timestamp)];
      return true;
    }

    /** Every stored entry, in whatever order the store lists them. */
    method Collect() returns (es: seq<Entry>)
      requires EntriesKeyed(db)
      ensures DistinctIds(es) && forall e :: e in es <==> Stored(db, e)
    {
      es := [];
      var todo := db.Keys;
      while todo != {}
        invariant todo <= db.Keys && DistinctIds(es)
        invariant forall e :: e in es <==> Stored(db, e) && EntryKey(e.id) !in todo
        decreases todo
      {
        var k :| k in todo;
        if db[k].EntryRecord? {
          var e := db[k].entry;
          forall d | d in es ensures d.id != e.id {}
          forall i | 0 <= i < |es| ensures es[i].id != e.id { assert es[i] in es; }
          es := es + [e];
        }
        todo := todo - {k};
      }
    }

    /** The newest entries of a key, at most `limit` of them; none left out is newer than one returned. */
    method History(key: string, limit: nat) returns (r: seq<Entry>)
      requires EntriesKeyed(db)
      ensures forall i, j :: 0 <= i < j < |r| ==> r[i].timestamp >= r[j].timestamp
      ensures DistinctIds(r) && |r| <= limit
      ensures forall e :: e in r ==> Stored(db, e) && e.key == key
      ensures forall e :: Stored(db, e) && e.key == key && e !in r ==>
        (|r| == limit && forall d :: d in r ==> d.timestamp >= e.timestamp)
    {
      var all := Collect();
      var mine := OnlyKey(all, key);
      QueryOrders();
      SortSorts(mine, NewerFirst);
      SortKeepsDistinct(mine, NewerFirst);
      var sorted := SortBy(mine, NewerFirst);
      var n := if limit < |sorted| then limit else |sorted|;
      r := sorted[..n];
      TruncatedNewest(sorted, n);
    }

    /** Chronological entries between two ids, inclusive; an unknown id sets no bound. */
    method Replay(from: Option<string>, to: Option<string>) returns (r: seq<Entry>)
      requires EntriesKeyed(db)
      ensures forall i, j :: 0 <= i < j < |r| ==>
        r[i].timestamp < r[j].timestamp || (r[i].timestamp == r[j].timestamp && TextLe(r[i].id, r[j].id))
      ensures DistinctIds(r)
      ensures forall e :: e in r <==> Stored(db, e) && NotBefore(db, from, e) && NotAfter(db, to, e)
    {
      var all := Collect();
      QueryOrders();
      SortSorts(all, Chronological);
      SortKeepsDistinct(all, Chronological);
      var sorted := SortBy(all, Chronological);
      var start, end: nat := 0, |sorted|;
      if from.Some? {
        var i := Position(sorted, from.value);
        if i.Some? { start := i.value; }
      }
      if to.Some? {
        var i := Position(sorted, to.value);
        if i.Some? { end := i.value + 1; }
      }
      StartBound(db, sorted, from, start);
      EndBound(db, sorted, to, end);
      ReplaySlice(db, sorted, from, to, start, end);
      if start >= |sorted| || start >= end { return []; }
      r := sorted[start..end];
    }

    method OnlyKey(all: seq<Entry>, key: string) returns (mine: seq<Entry>)
      requires DistinctIds(all)
      ensures DistinctIds(mine) && forall e :: e in mine <==> e in all && e.key == key
    {
      mine := [];
      for i := 0 to |all|
        invariant DistinctIds(mine)
        invariant forall e :: e in mine <==> e in all[..i] && e.key == key
      {
        assert all[..i + 1] == all[..i] + [all[i]];
        if all[i].key == key {
          forall j | 0 <= j < |mine| ensures mine[j].id != all[i].id {
            assert mine[j] in mine;
            var k :| 0 <= k < i && all[..i][k] == mine[j];
            assert all[k].id == mine[j].id;
          }
          mine := mine + [all[i]];
        }
      }
      assert all[..|all|] == all;
    }
  }

  lemma ReplaySlice(db: Db, sorted: seq<Entry>, from: Option<string>, to: Option<string>, start: nat, end: nat)
    requires Sorted(sorted, Chronological) && DistinctIds(sorted) && end <= |sorted|
    requires forall k :: 0 <= k < |sorted| ==>
      (start <= k <==> NotBefore(db, from, sorted[k])) && (k < end <==> NotAfter(db, to, sorted[k]))
    ensures var r := if start >= |sorted| || start >= end then [] else sorted[start..end];
      && DistinctIds(r) && (forall e :: e in r <==> e in sorted && NotBefore(db, from, e) && NotAfter(db, to, e))
      && forall i, j :: 0 <= i < j < |r| ==>
           r[i].timestamp < r[j].timestamp || (r[i].timestamp == r[j].timestamp && TextLe(r[i].id, r[j].id))
  {
    forall i, j | 0 <= i < j < |sorted| ensures Chronological(sorted[i], sorted[j]) {}
  }

  /** What a truncation leaves out is not newer than what it keeps. */
  lemma TruncatedNewest(sorted: seq<Entry>, n: nat)
    requires Sorted(sorted, NewerFirst) && DistinctIds(sorted) && n <= |sorted|
    ensures Sorted(sorted[..n], NewerFirst) && DistinctIds(sorted[..n])
    ensures forall e :: e in sorted && e !in sorted[..n] ==>
      (n < |sorted| && forall d :: d in sorted[..n] ==> d.timestamp >= e.timestamp)
  {}

  lemma SortKeepsDistinct(es: seq<Entry>, le: (Entry, Entry) -> bool)
    requires DistinctIds(es) && TotalPreorder(le)
    ensures DistinctIds(SortBy(es, le))
  {
    SortSorts(es, le);
    forall i, j | 0 <= i < |es| && 0 <= j < |es| && es[i] == es[j] ensures i == j {}
    PermutationDistinct(es, SortBy(es, le));
    var t := SortBy(es, le);
    forall i, j | 0 <= i < |t| && 0 <= j < |t| && t[i].id == t[j].id ensures i == j {
      assert t[i] in es && t[j] in es;
      var a :| 0 <= a < |es| && es[a] == t[i];
      var b :| 0 <= b < |es| && es[b] == t[j];
      assert a == b;
    }
  }

  // ---- Whole runs ----

  /** `built`: every entry ever built. `order`: recorded entries, in order of their first recording. */
  datatype State = State(db: Db, minLevel: Level, built: set<Entry>, order: seq<Entry>)

  /** Recording is two writes, and other writers may come in between: the entry, then the pointer. */
  datatype Step =
    | Build(id: string, now: nat, key: string, actor: string, level: Level, dataHash: string)
    | Store(entry: Entry)
    | Point(entry: Entry)
    | SetLevel(level: Level)

  function BuiltEntry(s: State, b: Step): Entry
    requires b.Build?
  {
    Entry(b.id, b.now, b.actor, b.key, b.level, b.dataHash, ParentFor(s.db, b.key))
  }

  /** Ids are minted fresh; built entries are stored at any later time, and pointed to once stored. */
  ghost predicate CanStep(s: State, step: Step) {
    match step
    case Build(id, _, _, _, _, _) => forall e :: e in s.built ==> e.id != id
    case Store(e) => e in s.built
    case Point(e) => e in s.order
    case SetLevel(_) => true
  }

  function Next(s: State, step: Step): State {
    match step
    case Build(_, _, _, _, _, _) => s.(built := s.built + {BuiltEntry(s, step)})
    case Store(e) =>
      if Rank(e.level) < Rank(s.minLevel) then s
      else s.(db := WithEntry(s.db, e), order := if e in s.order then s.order else s.order + [e])
    case Point(e) => s.(db := WithPointer(s.db, e))
    case SetLevel(l) => s.(minLevel := l)
  }

  ghost predicate IsRun(s: State, steps: seq<Step>)
    decreases |steps|
  {
    steps == [] || (CanStep(s, steps[0]) && IsRun(Next(s, steps[0]), steps[1..]))
  }

  function After(s: State, steps: seq<Step>): State
    decreases |steps|
  {
    if steps == [] then s else After(Next(s, steps[0]), steps[1..])
  }

  const START := State(map[], Info, {}, [])

  // ---- The invariant ----

  /** The parent of `e` is recorded before position `n`, under the same key. */
  ghost predicate ParentBefore(order: seq<Entry>, n: nat, e: Entry)
    requires n <= |order|
  {
    e.parentId.Some? ==> exists j :: 0 <= j < n && order[j].id == e.parentId.value && order[j].key == e.key
  }

  ghost predicate ParentsEarlier(order: seq<Entry>) {
    forall i :: 0 <= i < |order| ==> ParentBefore(order, i, order[i])
  }

  ghost predicate DistinctIds(order: seq<Entry>) {
    forall i, j :: 0 <= i < |order| && 0 <= j < |order| && order[i].id == order[j].id ==> i == j
  }

  ghost predicate Inv(s: State) {
    && (forall d, e :: d in s.built && e in s.built && d.id == e.id ==> d == e)
    && (forall e :: e in s.order ==> e in s.built && Fetch(s.db, e.id) == Some(e))
    && DistinctIds(s.order)
    && (forall e :: e in s.built ==> ParentBefore(s.order, |s.order|, e))
    && ParentsEarlier(s.order)
    && (forall k :: LatestKey(k) in s.db ==>
          s.db[LatestKey(k)].Pointer?
          && exists e :: e in s.order && e.id == s.db[LatestKey(k)].entryId && e.key == k)
  }

  /** The pointer of a key always leads to a recorded entry of that key. */
  lemma LatestRecorded(s: State, key: string)
    requires Inv(s)
    ensures Latest(s.db, key).Some? <==> LatestKey(key) in s.db
    ensures Latest(s.db, key).Some? ==> Latest(s.db, key).value in s.order && Latest(s.db, key).value.key == key
  {}

  lemma BuildKeeps(s: State, step: Step)
    requires Inv(s) && CanStep(s, step) && step.Build?
    ensures Inv(Next(s, step))
  {}

  lemma StoreKeeps(s: State, e: Entry)
    requires Inv(s) && CanStep(s, Store(e))
    ensures Inv(Next(s, Store(e)))
  {
    var s' := Next(s, Store(e));
    if Rank(e.level) >= Rank(s.minLevel) {
      assert ParentBefore(s.order, |s.order|, e);
      FetchAfter(s, e);
      forall i | 0 <= i < |s'.order| ensures ParentBefore(s'.order, i, s'.order[i]) {
        LongerOrder(s.order, s'.order, i, s'.order[i]);
      }
      forall d | d in s'.built ensures ParentBefore(s'.order, |s'.order|, d) {
        LongerOrder(s.order, s'.order, |s'.order|, d);
      }
      if e !in s.order {
        forall i | 0 <= i < |s.order| ensures s.order[i].id != e.id { assert s.order[i] in s.order; }
      }
      forall k | LatestKey(k) in s'.db
        ensures s'.db[LatestKey(k)].Pointer?
        ensures exists d :: d in s'.order && d.id == s'.db[LatestKey(k)].entryId && d.key == k
      {
        KeysApart(e.id, k);
        assert s'.db[LatestKey(k)] == s.db[LatestKey(k)];
        var d :| d in s.order && d.id == s.db[LatestKey(k)].entryId && d.key == k;
        assert d in s'.order;
      }
    }
  }

  lemma PointKeeps(s: State, e: Entry)
    requires Inv(s) && CanStep(s, Point(e))
    ensures Inv(Next(s, Point(e)))
  {
    var s' := Next(s, Point(e));
    forall d | d in s.order ensures Fetch(s'.db, d.id) == Some(d) { KeysApart(d.id, e.key); }
    forall k | LatestKey(k) in s'.db
      ensures s'.db[LatestKey(k)].Pointer?
      ensures exists d :: d in s.order && d.id == s'.db[LatestKey(k)].entryId && d.key == k
    {
      KeysApart(k, e.key);
      KeysApart(e.key, k);
      if k != e.key {
        assert s'.db[LatestKey(k)] == s.db[LatestKey(k)];
      }
    }
  }

  lemma LongerOrder(order: seq<Entry>, order': seq<Entry>, i: nat, e: Entry)
    requires order <= order' && i <= |order'|
    requires ParentBefore(order, if i <= |order| then i else |order|, e)
    ensures ParentBefore(order', i, e)
  {}

  lemma FetchAfter(s: State, e: Entry)
    requires Inv(s) && e in s.built
    ensures forall d :: d in s.order || d == e ==> Fetch(WithEntry(s.db, e), d.id) == Some(d)
  {
    forall d | d in s.order || d == e ensures Fetch(WithEntry(s.db, e), d.id) == Some(d) {
      KeysApart(d.id, e.id);
    }
  }

  lemma StepKeeps(s: State, step: Step)
    requires Inv(s) && CanStep(s, step)
    ensures Inv(Next(s, step))
  {
    match step
    case Build(_, _, _, _, _, _) => BuildKeeps(s, step);
    case Store(e) => StoreKeeps(s, e);
    case Point(e) => PointKeeps(s, e);
    case SetLevel(_) =>
  }

  /** Every run, however its writers interleave, keeps the invariant. */
  lemma {:induction false} RunKeeps(s: State, steps: seq<Step>)
    requires Inv(s) && IsRun(s, steps)
    ensures Inv(After(s, steps))
    decreases |steps|
  {
    if steps != [] {
      StepKeeps(s, steps[0]);
      RunKeeps(Next(s, steps[0]), steps[1..]);
    }
  }

  /** A recorded entry's parent was recorded before it, under the same key. */
  lemma ParentsRecordedFirst(steps: seq<Step>, i: nat)
    requires IsRun(START, steps) && i < |After(START, steps).order|
    ensures ParentBefore(After(START, steps).order, i, After(START, steps).order[i])
  {
    RunKeeps(START, steps);
  }

  /** An entry the level filter kept out is nobody's parent. */
  lemma FilteredNeverParent(steps: seq<Step>, e: Entry, child: Entry)
    requires IsRun(START, steps)
    requires e in After(START, steps).built && e !in After(START, steps).order && child in After(START, steps).built
    ensures child.parentId != Some(e.id)
  {
    RunKeeps(START, steps);
    var s := After(START, steps);
    assert ParentBefore(s.order, |s.order|, child);
    forall j | 0 <= j < |s.order| ensures s.order[j].id != e.id { assert s.order[j] in s.order; }
  }

  // ---- Walking the parents ----

  function IndexOf(order: seq<Entry>, id: string): (r: Option<nat>)
    ensures r.Some? ==> r.value < |order| && order[r.value].id == id
    ensures r.None? ==> forall i :: 0 <= i < |order| ==> order[i].id != id
  {
    if order == [] then None
    else if order[|order| - 1].id == id then Some(|order| - 1)
    else IndexOf(order[..|order| - 1], id)
  }

  /** Follows parent ids from `id`; positions must fall below `bound` and then keep falling. */
  function Walk(order: seq<Entry>, id: string, bound: nat): seq<Entry>
    decreases bound
  {
    match IndexOf(order, id)
    case None => []
    case Some(i) =>
      if i >= bound then []
      else
        match order[i].parentId
        case None => [order[i]]
        case Some(p) => [order[i]] + Walk(order, p, i)
  }

  /** Each entry's parent is the next one, and the last has none. */
  ghost predicate IsChain(w: seq<Entry>, key: string) {
    && w != []
    && (forall k :: 0 <= k < |w| ==> w[k].key == key)
    && (forall k :: 0 <= k < |w| - 1 ==> w[k].parentId == Some(w[k + 1].id))
    && w[|w| - 1].parentId.None?
  }

  /** A walk from a recorded entry never meets the bound: it ends at an entry without parent. */
  lemma {:induction false} WalkEnds(order: seq<Entry>, i: nat, bound: nat)
    requires DistinctIds(order) && ParentsEarlier(order) && i < |order| && i < bound
    ensures IsChain(Walk(order, order[i].id, bound), order[i].key)
    ensures Walk(order, order[i].id, bound)[0] == order[i]
    ensures forall e :: e in Walk(order, order[i].id, bound) ==> e in order[..i + 1]
    decreases i
  {
    assert IndexOf(order, order[i].id) == Some(i);
    if order[i].parentId.Some? {
      assert ParentBefore(order, i, order[i]);
      var j :| 0 <= j < i && order[j].id == order[i].parentId.value && order[j].key == order[i].key;
      WalkEnds(order, j, i);
      var tail := Walk(order, order[j].id, i);
      var w := [order[i]] + tail;
      assert forall k :: 0 < k < |w| ==> w[k] == tail[k - 1];
      forall e | e in w ensures e in order[..i + 1] {
        if e in tail {
          var k :| 0 <= k < j + 1 && order[..j + 1][k] == e;
          assert order[..i + 1][k] == e;
        } else {
          assert order[..i + 1][i] == e;
        }
      }
    } else {
      assert order[..i + 1][i] == order[i];
    }
  }

  /** Follows parent ids through the store, at most `n` entries. */
  function Ancestry(db: Db, id: string, n: nat): seq<Entry>
    decreases n
  {
    if n == 0 then []
    else
      match Fetch(db, id)
      case None => []
      case Some(e) =>
        match e.parentId
        case None => [e]
        case Some(p) => [e] + Ancestry(db, p, n - 1)
  }

  /** The store holds what the recording order says: both walks are one. */
  lemma {:induction false} AncestryIsWalk(db: Db, order: seq<Entry>, i: nat, bound: nat, n: nat)
    requires DistinctIds(order) && ParentsEarlier(order) && forall e :: e in order ==> Fetch(db, e.id) == Some(e)
    requires i < |order| && i < bound && i < n
    ensures Ancestry(db, order[i].id, n) == Walk(order, order[i].id, bound)
    decreases i
  {
    var e := order[i];
    assert e in order;
    FoundAt(order, i);
    if e.parentId.Some? {
      var j := ParentIndex(order, i);
      AncestryIsWalk(db, order, j, i, n - 1);
    }
    OneEntryOn(db, order, i, bound, n);
  }

  lemma ParentIndex(order: seq<Entry>, i: nat) returns (j: nat)
    requires ParentsEarlier(order) && i < |order| && order[i].parentId.Some?
    ensures j < i && order[i].parentId == Some(order[j].id)
  {
    assert ParentBefore(order, i, order[i]);
    j :| 0 <= j < i && order[j].id == order[i].parentId.value && order[j].key == order[i].key;
  }

  lemma OneEntryOn(db: Db, order: seq<Entry>, i: nat, bound: nat, n: nat)
    requires i < |order| && i < bound && 0 < n
    requires IndexOf(order, order[i].id) == Some(i) && Fetch(db, order[i].id) == Some(order[i])
    requires order[i].parentId.Some? ==>
      Ancestry(db, order[i].parentId.value, n - 1) == Walk(order, order[i].parentId.value, i)
    ensures Ancestry(db, order[i].id, n) == Walk(order, order[i].id, bound)
  {}

  lemma LatestAncestry(s: State, key: string, n: nat)
    requires Inv(s) && Latest(s.db, key).Some? && n >= |s.order|
    ensures var e := Latest(s.db, key).value; Ancestry(s.db, e.id, n) == Walk(s.order, e.id, |s.order|)
    ensures var e := Latest(s.db, key).value; IsChain(Ancestry(s.db, e.id, n), key) && Ancestry(s.db, e.id, n)[0] == e
  {
    LatestRecorded(s, key);
    var e := Latest(s.db, key).value;
    var i :| 0 <= i < |s.order| && s.order[i] == e;
    WalkEnds(s.order, i, |s.order|);
    AncestryIsWalk(s.db, s.order, i, |s.order|, n);
  }

  /**
   * In every run, following parents through the store from the latest entry of a key gives a chain of that key's
   * entries that ends at one without parent; no walk is longer than the number of recorded entries.
   */
  lemma LatestWalkEnds(steps: seq<Step>, key: string, n: nat)
    requires IsRun(START, steps) && Latest(After(START, steps).db, key).Some? && n >= |After(START, steps).order|
    ensures var s := After(START, steps); var e := Latest(s.db, key).value;
      IsChain(Ancestry(s.db, e.id, n), key) && Ancestry(s.db, e.id, n)[0] == e
  {
    RunKeeps(START, steps);
    LatestAncestry(After(START, steps), key, n);
  }

  // ---- Writers of one key that do not interleave ----

  /** For one key: the entry built and not yet stored or dropped, and the entry stored and not yet pointed to. */
  datatype Writer = Writer(open: Option<Entry>, half: Option<Entry>)

  const NO_WRITER := Writer(None, None)

  predicate Touches(step: Step, key: string) {
    match step
    case Build(_, _, k, _, _, _) => k == key
    case Store(e) => e.key == key
    case Point(e) => e.key == key
    case SetLevel(_) => false
  }

  function NextWriter(s: State, w: Writer, step: Step): Writer {
    match step
    case Build(_, _, _, _, _, _) => w.(open := Some(BuiltEntry(s, step)))
    case Store(e) => if Rank(e.level) < Rank(s.minLevel) then w.(open := None) else Writer(None, Some(e))
    case Point(_) => w.(half := None)
    case SetLevel(_) => w
  }

  /** Build, store, point, one entry after the other; a built entry may also be given up. */
  predicate InTurn(w: Writer, step: Step) {
    match step
    case Build(_, _, _, _, _, _) => w.half.None?
    case Store(e) => w.half.None? && w.open == Some(e)
    case Point(e) => w.half == Some(e)
    case SetLevel(_) => true
  }

  /** The steps of this key take turns; those of other keys are free. */
  ghost predicate Serial(s: State, w: Writer, steps: seq<Step>, key: string)
    decreases |steps|
  {
    steps == []
    || (if Touches(steps[0], key)
        then InTurn(w, steps[0]) && Serial(Next(s, steps[0]), NextWriter(s, w, steps[0]), steps[1..], key)
        else Serial(Next(s, steps[0]), w, steps[1..], key))
  }

  function WriterAfter(s: State, w: Writer, steps: seq<Step>, key: string): Writer
    decreases |steps|
  {
    if steps == [] then w
    else
      var w' := if Touches(steps[0], key) then NextWriter(s, w, steps[0]) else w;
      WriterAfter(Next(s, steps[0]), w', steps[1..], key)
  }

  /** The entries of one key, oldest first. */
  function OfKey(order: seq<Entry>, key: string): seq<Entry> {
    if order == [] then []
    else
      var last := order[|order| - 1];
      OfKey(order[..|order| - 1], key) + (if last.key == key then [last] else [])
  }

  function LastId(order: seq<Entry>, key: string): Option<string> {
    var es := OfKey(order, key);
    if es == [] then None else Some(es[|es| - 1].id)
  }

  /** Each of the key's recorded entries has the one recorded just before it as parent. */
  ghost predicate Linked(order: seq<Entry>, key: string) {
    order == []
    || (var init, last := order[..|order| - 1], order[|order| - 1];
        Linked(init, key) && (last.key == key ==> last.parentId == LastId(init, key)))
  }

  ghost predicate SerialInv(s: State, w: Writer, key: string) {
    && Inv(s) && Linked(s.order, key)
    && (w.half.None? ==> ParentFor(s.db, key) == LastId(s.order, key))
    && (w.half.Some? ==> IsHalf(s, w.half.value, key))
    && (w.open.Some? ==> w.half.None? && IsOpen(s, w.open.value, key))
  }

  ghost predicate IsHalf(s: State, e: Entry, key: string) {
    e in s.order && e.key == key && LastId(s.order, key) == Some(e.id)
  }

  ghost predicate IsOpen(s: State, e: Entry, key: string) {
    e in s.built && e.key == key && e !in s.order && e.parentId == LastId(s.order, key)
  }

  /** Storing an entry moves no pointer. */
  lemma ParentAfterStore(s: State, e: Entry, k: string)
    requires Inv(s) && e in s.built
    ensures ParentFor(WithEntry(s.db, e), k) == ParentFor(s.db, k)
  {
    KeysApart(e.id, k);
    if LatestKey(k) in s.db {
      var d :| d in s.order && d.id == s.db[LatestKey(k)].entryId;
      FetchAfter(s, e);
    }
  }

  /** Pointing moves the pointer of its own key and no other. */
  lemma ParentAfterPoint(s: State, e: Entry, k: string)
    requires Inv(s) && e in s.order
    ensures ParentFor(WithPointer(s.db, e), k) == if k == e.key then Some(e.id) else ParentFor(s.db, k)
  {
    KeysApart(k, e.key);
    KeysApart(e.id, e.key);
    if k != e.key && LatestKey(k) in s.db {
      var d :| d in s.order && d.id == s.db[LatestKey(k)].entryId;
      KeysApart(d.id, e.key);
    }
  }

  lemma LastIdSnoc(order: seq<Entry>, e: Entry, k: string)
    ensures LastId(order + [e], k) == if k == e.key then Some(e.id) else LastId(order, k)
  {}

  /** A step about another key leaves this key's part as it was. */
  lemma OtherStepKeeps(s: State, w: Writer, step: Step, key: string)
    requires SerialInv(s, w, key) && CanStep(s, step) && !Touches(step, key)
    ensures SerialInv(Next(s, step), w, key)
  {
    StepKeeps(s, step);
    match step
    case Build(_, _, _, _, _, _) =>
    case SetLevel(_) =>
    case Store(e) => OtherStoreKeeps(s, w, e, key);
    case Point(e) => ParentAfterPoint(s, e, key);
  }

  lemma OtherStoreKeeps(s: State, w: Writer, e: Entry, key: string)
    requires SerialInv(s, w, key) && CanStep(s, Store(e)) && e.key != key && Inv(Next(s, Store(e)))
    ensures SerialInv(Next(s, Store(e)), w, key)
  {
    ParentAfterStore(s, e, key);
    LastIdSnoc(s.order, e, key);
    Snoc(s.order, e, key);
  }

  lemma OwnBuildKeeps(s: State, w: Writer, step: Step, key: string)
    requires SerialInv(s, w, key) && CanStep(s, step) && step.Build? && step.key == key && InTurn(w, step)
    ensures SerialInv(Next(s, step), NextWriter(s, w, step), key)
  {
    StepKeeps(s, step);
    assert BuiltEntry(s, step) !in s.built;
  }

  lemma OwnStoreKeeps(s: State, w: Writer, e: Entry, key: string)
    requires SerialInv(s, w, key) && CanStep(s, Store(e)) && e.key == key && InTurn(w, Store(e))
    ensures SerialInv(Next(s, Store(e)), NextWriter(s, w, Store(e)), key)
  {
    StepKeeps(s, Store(e));
    LastIdSnoc(s.order, e, key);
    Snoc(s.order, e, key);
  }

  lemma OwnPointKeeps(s: State, w: Writer, e: Entry, key: string)
    requires SerialInv(s, w, key) && CanStep(s, Point(e)) && e.key == key && InTurn(w, Point(e))
    ensures SerialInv(Next(s, Point(e)), NextWriter(s, w, Point(e)), key)
  {
    StepKeeps(s, Point(e));
    ParentAfterPoint(s, e, key);
  }

  lemma OwnStepKeeps(s: State, w: Writer, step: Step, key: string)
    requires SerialInv(s, w, key) && CanStep(s, step) && Touches(step, key) && InTurn(w, step)
    ensures SerialInv(Next(s, step), NextWriter(s, w, step), key)
  {
    match step
    case Build(_, _, _, _, _, _) => OwnBuildKeeps(s, w, step, key);
    case Store(e) => OwnStoreKeeps(s, w, e, key);
    case Point(e) => OwnPointKeeps(s, w, e, key);
    case SetLevel(_) =>
  }

  lemma {:induction false} SerialRunKeeps(s: State, w: Writer, steps: seq<Step>, key: string)
    requires SerialInv(s, w, key) && IsRun(s, steps) && Serial(s, w, steps, key)
    ensures SerialInv(After(s, steps), WriterAfter(s, w, steps, key), key)
    decreases |steps|
  {
    if steps != [] {
      var step := steps[0];
      if Touches(step, key) {
        OwnStepKeeps(s, w, step, key);
        SerialRunKeeps(Next(s, step), NextWriter(s, w, step), steps[1..], key);
      } else {
        OtherStepKeeps(s, w, step, key);
        SerialRunKeeps(Next(s, step), w, steps[1..], key);
      }
    }
  }

  function Reversed<T>(s: seq<T>): seq<T> {
    if s == [] then [] else [s[|s| - 1]] + Reversed(s[..|s| - 1])
  }

  lemma {:induction false} OfKeyMembers(order: seq<Entry>, key: string)
    ensures forall e :: e in OfKey(order, key) <==> e in order && e.key == key
  {
    if order != [] {
      OfKeyMembers(order[..|order| - 1], key);
      assert order == order[..|order| - 1] + [order[|order| - 1]];
    }
  }

  lemma Snoc(order: seq<Entry>, e: Entry, key: string)
    ensures OfKey(order + [e], key) == OfKey(order, key) + (if e.key == key then [e] else [])
    ensures Linked(order + [e], key) <==> Linked(order, key) && (e.key == key ==> e.parentId == LastId(order, key))
  {
    assert (order + [e])[..|order|] == order;
  }

  lemma ReversedSnoc(es: seq<Entry>, e: Entry)
    ensures Reversed(es + [e]) == [e] + Reversed(es)
  {}

  /** In a linked order the walk from the last entry of a key lists that key's entries, newest first. */
  lemma {:induction false} LinkedWalk(order: seq<Entry>, n: nat, key: string)
    requires n <= |order| && DistinctIds(order) && Linked(order[..n], key) && LastId(order[..n], key).Some?
    ensures Walk(order, LastId(order[..n], key).value, n) == Reversed(OfKey(order[..n], key))
    decreases n
  {
    var rest, last := order[..n - 1], order[n - 1];
    assert order[..n] == rest + [last];
    Snoc(rest, last, key);
    LastIdSnoc(rest, last, key);
    if last.key == key {
      var es := OfKey(rest, key);
      ReversedSnoc(es, last);
      FoundAt(order, n - 1);
      if es != [] { LinkedWalk(order, n - 1, key); }
    } else {
      LinkedWalk(order, n - 1, key);
      WalkBound(order, LastId(rest, key).value, n - 1, n, key);
      assert OfKey(rest, key) + [] == OfKey(rest, key);
    }
  }

  lemma FoundAt(order: seq<Entry>, i: nat)
    requires DistinctIds(order) && i < |order|
    ensures IndexOf(order, order[i].id) == Some(i)
  {}

  /** A walk that already fits below one bound is the same below a larger one. */
  lemma WalkBound(order: seq<Entry>, id: string, n: nat, m: nat, key: string)
    requires DistinctIds(order) && n <= m <= |order| && LastId(order[..n], key) == Some(id)
    ensures Walk(order, id, n) == Walk(order, id, m)
  {
    OfKeyMembers(order[..n], key);
    var es := OfKey(order[..n], key);
    var e := es[|es| - 1];
    assert e in es;
    var i :| 0 <= i < n && order[..n][i] == e;
    assert order[i].id == id;
    assert IndexOf(order, id) == Some(i);
  }

  /**
   * When the writers of a key do not interleave, whatever those of other keys do, then outside a writer's two writes
   * following parents through the store from the latest entry meets every recorded entry of the key once, newest first.
   */
  lemma SerialWalkComplete(steps: seq<Step>, key: string, n: nat)
    requires IsRun(START, steps) && Serial(START, NO_WRITER, steps, key)
    requires WriterAfter(START, NO_WRITER, steps, key).half.None? && Latest(After(START, steps).db, key).Some?
    requires n >= |After(START, steps).order|
    ensures var s := After(START, steps);
      Ancestry(s.db, Latest(s.db, key).value.id, n) == Reversed(OfKey(s.order, key))
  {
    SerialRunKeeps(START, NO_WRITER, steps, key);
    var s := After(START, steps);
    assert s.order[..|s.order|] == s.order;
    assert ParentFor(s.db, key) == LastId(s.order, key);
    LinkedWalk(s.order, |s.order|, key);
    LatestAncestry(s, key, n);
  }
}
