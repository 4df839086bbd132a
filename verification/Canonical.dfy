/** The canonical form of JSON values: what is refused, and which values share a form. */
module Canonical {
  import opened Wrappers
  import opened Ordering
  import opened Sequences
  import opened Numerals

  /** A value as parsed: an object is its members in the order the map hands them out. */
  datatype Json =
    | Null
    | Bool(b: bool)
    | Int(n: int)
    | Float(text: string)
    | Str(s: string)
    | Arr(items: seq<Json>)
    | Obj(members: seq<Member>)

  datatype Member = Member(key: string, value: Json)

  datatype CanonicalError =
    | FloatNotAllowed(path: string)
    | ExplicitNullNotAllowed(path: string)

  function ItemPath(path: string, i: nat): string { path + "[" + Decimal(i) + "]" }
  function MemberPath(path: string, key: string): string { path + "." + key }

  function KeyOf(): Member -> string { (m: Member) => m.key }
  function ByKey(): (Member, Member) -> bool { OnText(KeyOf()) }

  // ---- Properties of values ----

  /** Objects are maps: at every depth the keys of an object differ. */
  ghost predicate Keyed(v: Json) {
    match v
    case Arr(items) => forall i :: 0 <= i < |items| ==> Keyed(items[i])
    case Obj(ms) => DistinctKeys(ms) && forall i :: 0 <= i < |ms| ==> Keyed(ms[i].value)
    case _ => true
  }

  ghost predicate DistinctKeys(ms: seq<Member>) {
    forall i, j :: 0 <= i < |ms| && 0 <= j < |ms| && ms[i].key == ms[j].key ==> i == j
  }

  /** No float anywhere, and no object member that is null. */
  ghost predicate Acceptable(v: Json) {
    match v
    case Float(_) => false
    case Arr(items) => forall i :: 0 <= i < |items| ==> Acceptable(items[i])
    case Obj(ms) => forall i :: 0 <= i < |ms| ==> !ms[i].value.Null? && Acceptable(ms[i].value)
    case _ => true
  }

  /** Every object, at every depth, lists its members by key. */
  ghost predicate SortedDeep(v: Json) {
    match v
    case Arr(items) => forall i :: 0 <= i < |items| ==> SortedDeep(items[i])
    case Obj(ms) => Sorted(ms, ByKey()) && forall i :: 0 <= i < |ms| ==> SortedDeep(ms[i].value)
    case _ => true
  }

  /** Equal up to the order of members, at every depth; arrays must agree item by item. */
  ghost predicate Reordered(a: Json, b: Json) {
    if a.Arr? && b.Arr? then
      |a.items| == |b.items| && forall i :: 0 <= i < |a.items| ==> Reordered(a.items[i], b.items[i])
    else if a.Obj? && b.Obj? then Covers(a.members, b.members) && CoveredBy(a.members, b.members)
    else a == b
  }

  ghost predicate Covers(ms: seq<Member>, ns: seq<Member>) {
    forall m :: m in ms ==> exists n :: n in ns && n.key == m.key && Reordered(m.value, n.value)
  }

  ghost predicate CoveredBy(ms: seq<Member>, ns: seq<Member>) {
    forall n :: n in ns ==> exists m :: m in ms && m.key == n.key && Reordered(m.value, n.value)
  }

  // ---- The canonical form ----

  function Norm(v: Json): Json {
    match v
    case Arr(items) => Arr(NormItems(items))
    case Obj(ms) => Obj(SortBy(NormMembers(ms), ByKey()))
    case _ => v
  }

  function NormItems(items: seq<Json>): (r: seq<Json>)
    ensures |r| == |items| && forall i :: 0 <= i < |items| ==> r[i] == Norm(items[i])
  {
    if items == [] then [] else [Norm(items[0])] + NormItems(items[1..])
  }

  function NormMembers(ms: seq<Member>): (r: seq<Member>)
    ensures |r| == |ms| && forall i :: 0 <= i < |ms| ==> r[i] == Member(ms[i].key, Norm(ms[i].value))
  {
    if ms == [] then [] else [Member(ms[0].key, Norm(ms[0].value))] + NormMembers(ms[1..])
  }

  /** Every fault of a value in reading order, each with the path that leads to it. */
  function Faults(v: Json, path: string): seq<CanonicalError> {
    match v
    case Float(_) => [FloatNotAllowed(path)]
    case Arr(items) => ItemFaults(items, path, 0)
    case Obj(ms) => MemberFaults(ms, path)
    case _ => []
  }

  function ItemFaults(items: seq<Json>, path: string, from: nat): seq<CanonicalError> {
    if items == [] then [] else Faults(items[0], ItemPath(path, from)) + ItemFaults(items[1..], path, from + 1)
  }

  function MemberFaults(ms: seq<Member>, path: string): seq<CanonicalError> {
    if ms == [] then []
    else MemberFault(ms[0], path) + MemberFaults(ms[1..], path)
  }

  function MemberFault(m: Member, path: string): seq<CanonicalError> {
    if m.value.Null? then [ExplicitNullNotAllowed(MemberPath(path, m.key))]
    else Faults(m.value, MemberPath(path, m.key))
  }

  /** What the encoder answers: the first fault if there is one, and otherwise the canonical form. */
  function Outcome(v: Json, path: string): Result<Json, CanonicalError> {
    if Faults(v, path) != [] then Err(Faults(v, path)[0]) else Ok(Norm(v))
  }

  method CanonicalizeValue(v: Json, path: string) returns (r: Result<Json, CanonicalError>)
    ensures r == Outcome(v, path)
    decreases v
  {
    match v {
      case Float(_) => return Err(FloatNotAllowed(path));
      case Arr(items) => r := CanonicalizeItems(items, path);
      case Obj(ms) => r := CanonicalizeMembers(ms, path);
      case _ => return Ok(v);
    }
  }

  /** The array case: items keep their places. */
  method CanonicalizeItems(items: seq<Json>, path: string) returns (r: Result<Json, CanonicalError>)
    ensures r == Outcome(Arr(items), path)
    decreases items
  {
    var out: seq<Json> := [];
    assert items[0..] == items;
    for i := 0 to |items|
      invariant out == NormItems(items)[..i]
      invariant ItemFaults(items[i..], path, i) == ItemFaults(items, path, 0)
    {
      ItemsFrom(items, i, path);
      var item := CanonicalizeValue(items[i], ItemPath(path, i));
      if item.Err? { return item; }
      out := out + [item.value];
    }
    assert items[|items|..] == [] && out == NormItems(items);
    return Ok(Arr(out));
  }

  lemma ItemsFrom(items: seq<Json>, i: nat, path: string)
    requires i < |items|
    ensures var here := Faults(items[i], ItemPath(path, i));
      && ItemFaults(items[i..], path, i) == here + ItemFaults(items[i + 1..], path, i + 1)
      && (here != [] ==> ItemFaults(items[i..], path, i) != [] && ItemFaults(items[i..], path, i)[0] == here[0])
    ensures NormItems(items)[..i + 1] == NormItems(items)[..i] + [Norm(items[i])]
  {
    assert items[i..][0] == items[i] && items[i..][1..] == items[i + 1..];
  }

  lemma MembersFrom(ms: seq<Member>, i: nat, path: string)
    requires i < |ms|
    ensures MemberFaults(ms[i..], path) == MemberFault(ms[i], path) + MemberFaults(ms[i + 1..], path)
    ensures MemberFault(ms[i], path) != [] ==>
      MemberFaults(ms[i..], path) != [] && MemberFaults(ms[i..], path)[0] == MemberFault(ms[i], path)[0]
    ensures NormMembers(ms)[..i + 1] == NormMembers(ms)[..i] + [Member(ms[i].key, Norm(ms[i].value))]
  {
    assert ms[i..][0] == ms[i] && ms[i..][1..] == ms[i + 1..];
  }

  lemma MemberRefused(ms: seq<Member>, i: nat, path: string)
    requires i < |ms| && MemberFaults(ms[i..], path) == MemberFaults(ms, path)
    ensures MemberFault(ms[i], path) != [] ==> Outcome(Obj(ms), path) == Err(MemberFault(ms[i], path)[0])
  {
    MembersFrom(ms, i, path);
  }

  lemma MembersAccepted(ms: seq<Member>, path: string)
    requires MemberFaults(ms, path) == []
    ensures Outcome(Obj(ms), path) == Ok(Obj(SortBy(NormMembers(ms), ByKey())))
  {}

  /** One member: a null or a refused value is an error. */
  method CanonicalizeMember(m: Member, path: string) returns (r: Result<Json, CanonicalError>)
    ensures r == if MemberFault(m, path) != [] then Err(MemberFault(m, path)[0]) else Ok(Norm(m.value))
    decreases m
  {
    if m.value.Null? { return Err(ExplicitNullNotAllowed(MemberPath(path, m.key))); }
    r := CanonicalizeValue(m.value, MemberPath(path, m.key));
  }

  /** The object case: the first null or refused member decides, and the rest is sorted by key. */
  method CanonicalizeMembers(ms: seq<Member>, path: string) returns (r: Result<Json, CanonicalError>)
    ensures r == Outcome(Obj(ms), path)
    decreases ms
  {
    var entries: seq<Member> := [];
    assert ms[0..] == ms;
    for i := 0 to |ms|
      invariant entries == NormMembers(ms)[..i]
      invariant MemberFaults(ms[i..], path) == MemberFaults(ms, path)
    {
      MemberRefused(ms, i, path);
      MembersFrom(ms, i, path);
      var value := CanonicalizeMember(ms[i], path);
      if value.Err? { return value; }
      entries := entries + [Member(ms[i].key, value.value)];
    }
    assert ms[|ms|..] == [] && entries == NormMembers(ms);
    MembersAccepted(ms, path);
    return Ok(Obj(SortBy(entries, ByKey())));
  }

  // ---- Which fault is answered ----

  /**
   * `e` names the first place, in reading order, where the value holds a float or an object member is null: all that
   * comes before it on the way is acceptable.
   */
  ghost predicate FirstBad(v: Json, path: string, e: CanonicalError)
    decreases v
  {
    match v
    case Float(_) => e == FloatNotAllowed(path)
    case Arr(items) =>
      exists i ::
        0 <= i < |items| &&
        (forall j :: 0 <= j < i ==> Acceptable(items[j])) &&
        FirstBad(items[i], path + "[" + Decimal(i) + "]", e)
    case Obj(ms) =>
      exists i ::
        0 <= i < |ms| &&
        (forall j :: 0 <= j < i ==> !ms[j].value.Null? && Acceptable(ms[j].value)) &&
        (if ms[i].value.Null? then e == ExplicitNullNotAllowed(path + "." + ms[i].key)
         else FirstBad(ms[i].value, path + "." + ms[i].key, e))
    case _ => false
  }

  lemma {:induction false} FaultLocated(v: Json, path: string)
    requires Faults(v, path) != []
    ensures FirstBad(v, path, Faults(v, path)[0])
    decreases v
  {
    match v {
      case Arr(items) => var i := ItemLocated(items, path, 0);
      case Obj(ms) => var i := MemberLocated(ms, path);
      case _ =>
    }
  }

  lemma {:induction false} ItemLocated(items: seq<Json>, path: string, from: nat) returns (i: nat)
    requires ItemFaults(items, path, from) != []
    ensures i < |items| && forall j :: 0 <= j < i ==> Acceptable(items[j])
    ensures FirstBad(items[i], path + "[" + Decimal(from + i) + "]", ItemFaults(items, path, from)[0])
    decreases items
  {
    FaultlessIffAcceptable(items[0], ItemPath(path, from));
    if Faults(items[0], ItemPath(path, from)) != [] {
      FaultLocated(items[0], ItemPath(path, from));
      i := 0;
    } else {
      i := ItemLocated(items[1..], path, from + 1);
      i := i + 1;
    }
  }

  lemma {:induction false} MemberLocated(ms: seq<Member>, path: string) returns (i: nat)
    requires MemberFaults(ms, path) != []
    ensures i < |ms| && forall j :: 0 <= j < i ==> !ms[j].value.Null? && Acceptable(ms[j].value)
    ensures if ms[i].value.Null? then MemberFaults(ms, path)[0] == ExplicitNullNotAllowed(path + "." + ms[i].key)
            else FirstBad(ms[i].value, path + "." + ms[i].key, MemberFaults(ms, path)[0])
    decreases ms
  {
    var m := ms[0];
    FaultlessIffAcceptable(m.value, MemberPath(path, m.key));
    if MemberFault(m, path) != [] {
      if !m.value.Null? { FaultLocated(m.value, MemberPath(path, m.key)); }
      i := 0;
    } else {
      i := MemberLocated(ms[1..], path);
      i := i + 1;
    }
  }

  /** A refusal names the first place that is to blame. */
  lemma RefusalNamesFirst(v: Json, path: string)
    requires Outcome(v, path).Err?
    ensures FirstBad(v, path, Outcome(v, path).error)
  {
    FaultLocated(v, path);
  }

  // ---- Success exactly on acceptable values ----

  /** A value has no fault exactly when it holds no float and no null member. */
  lemma {:induction false} FaultlessIffAcceptable(v: Json, path: string)
    ensures Faults(v, path) == [] <==> Acceptable(v)
    decreases v
  {
    match v {
      case Arr(items) => ItemsFaultless(items, path, 0);
      case Obj(ms) => MembersFaultless(ms, path);
      case _ =>
    }
  }

  lemma {:induction false} ItemsFaultless(items: seq<Json>, path: string, from: nat)
    ensures ItemFaults(items, path, from) == [] <==> forall i :: 0 <= i < |items| ==> Acceptable(items[i])
    decreases items
  {
    if items != [] {
      FaultlessIffAcceptable(items[0], ItemPath(path, from));
      ItemsFaultless(items[1..], path, from + 1);
      assert items == [items[0]] + items[1..];
    }
  }

  lemma {:induction false} MembersFaultless(ms: seq<Member>, path: string)
    ensures MemberFaults(ms, path) == [] <==>
      forall i :: 0 <= i < |ms| ==> !ms[i].value.Null? && Acceptable(ms[i].value)
    decreases ms
  {
    if ms != [] {
      FaultlessIffAcceptable(ms[0].value, MemberPath(path, ms[0].key));
      MembersFaultless(ms[1..], path);
      assert ms == [ms[0]] + ms[1..];
    }
  }

  lemma SucceedsIffAcceptable(v: Json, path: string)
    ensures Outcome(v, path).Ok? <==> Acceptable(v)
  {
    FaultlessIffAcceptable(v, path);
  }

  // ---- Shape of the result ----

  lemma NormMembersKeyed(ms: seq<Member>)
    requires DistinctKeys(ms)
    ensures DistinctKeys(NormMembers(ms)) && NoDuplicates(NormMembers(ms))
    ensures Separates(NormMembers(ms), ByKey())
  {
    var ns := NormMembers(ms);
    OnTextTotal(KeyOf());
    forall a, b | a in ns && b in ns && ByKey()(a, b) && ByKey()(b, a) ensures a == b {
      assert KeyOf()(a) == KeyOf()(b);
    }
  }

  lemma PermutedKeys(ms: seq<Member>, ns: seq<Member>)
    requires DistinctKeys(ms) && multiset(ms) == multiset(ns)
    ensures DistinctKeys(ns)
  {
    PermutationDistinct(ms, ns);
    forall i, j | 0 <= i < |ns| && 0 <= j < |ns| && ns[i].key == ns[j].key ensures i == j {
      assert ns[i] in multiset(ms) && ns[j] in multiset(ms);
      assert ns[i] == ns[j];
    }
  }

  /** The result is sorted at every depth, stays a map at every depth and holds nothing refused. */
  lemma {:induction false} NormShape(v: Json)
    requires Keyed(v) && Acceptable(v)
    ensures SortedDeep(Norm(v)) && Keyed(Norm(v)) && Acceptable(Norm(v)) && (Norm(v).Null? <==> v.Null?)
  {
    match v {
      case Arr(items) => forall i | 0 <= i < |items| { NormShape(items[i]); }
      case Obj(ms) =>
        forall i | 0 <= i < |ms| { NormShape(ms[i].value); }
        var ns := NormMembers(ms);
        var rs := SortBy(ns, ByKey());
        NormMembersKeyed(ms);
        OnTextTotal(KeyOf());
        SortSorts(ns, ByKey());
        PermutedKeys(ns, rs);
        forall k | 0 <= k < |rs|
          ensures SortedDeep(rs[k].value) && Keyed(rs[k].value) && Acceptable(rs[k].value) && !rs[k].value.Null?
        {
          assert rs[k] in ns;
          var i :| 0 <= i < |ns| && ns[i] == rs[k];
        }
      case _ =>
    }
  }

  /** A value already sorted at every depth is its own canonical form. */
  lemma {:induction false} SortedStaysPut(v: Json)
    requires SortedDeep(v)
    ensures Norm(v) == v
  {
    match v {
      case Arr(items) =>
        forall i | 0 <= i < |items| { SortedStaysPut(items[i]); }
        assert NormItems(items) == items;
      case Obj(ms) =>
        forall i | 0 <= i < |ms| { SortedStaysPut(ms[i].value); }
        assert NormMembers(ms) == ms;
        SortedStays(ms, ByKey());
      case _ =>
    }
  }

  // ---- Which values share a form ----

  function NormMember(m: Member): Member { Member(m.key, Norm(m.value)) }

  lemma NormMembersIn(ms: seq<Member>, x: Member)
    ensures x in NormMembers(ms) <==> exists m :: m in ms && NormMember(m) == x
  {
    if x in NormMembers(ms) {
      var i :| 0 <= i < |ms| && NormMembers(ms)[i] == x;
      assert ms[i] in ms && NormMember(ms[i]) == x;
    }
    if m :| m in ms && NormMember(m) == x {
      var i :| 0 <= i < |ms| && ms[i] == m;
      assert NormMembers(ms)[i] == x;
    }
  }

  ghost predicate Included(xs: seq<Member>, ys: seq<Member>) { forall x :: x in xs ==> x in ys }

  lemma MembersSameForm(ms: seq<Member>, ns: seq<Member>)
    requires DistinctKeys(ms) && DistinctKeys(ns)
    ensures SortBy(NormMembers(ms), ByKey()) == SortBy(NormMembers(ns), ByKey())
      <==> Included(NormMembers(ms), NormMembers(ns)) && Included(NormMembers(ns), NormMembers(ms))
  {
    var xs, ys := NormMembers(ms), NormMembers(ns);
    NormMembersKeyed(ms);
    NormMembersKeyed(ns);
    OnTextTotal(KeyOf());
    SortSorts(xs, ByKey());
    SortSorts(ys, ByKey());
    if Included(xs, ys) && Included(ys, xs) {
      SameElements(xs, ys);
      SortForgetsOrder(xs, ys, ByKey());
    }
  }

  /** Given the claim for the values, one object's members are covered as entries exactly when as canonical entries. */
  lemma MembersCovered(ms: seq<Member>, ns: seq<Member>, related: (Json, Json) -> bool)
    requires forall m, n :: m in ms && n in ns ==> (related(m.value, n.value) <==> Norm(m.value) == Norm(n.value))
    ensures (forall m :: m in ms ==> exists n :: n in ns && n.key == m.key && related(m.value, n.value))
      <==> Included(NormMembers(ms), NormMembers(ns))
  {
    forall x | x in NormMembers(ms) ensures exists m :: m in ms && NormMember(m) == x { NormMembersIn(ms, x); }
    forall m | m in ms ensures NormMember(m) in NormMembers(ms) { NormMembersIn(ms, NormMember(m)); }
    forall m | m in ms
      ensures NormMember(m) in NormMembers(ns)
        <==> exists n :: n in ns && n.key == m.key && related(m.value, n.value)
    {
      NormMembersIn(ns, NormMember(m));
    }
  }

  lemma ArraysReordered(a: Json, b: Json)
    requires a.Arr? && b.Arr?
    requires forall i :: 0 <= i < |a.items| && i < |b.items| ==>
      (Norm(a.items[i]) == Norm(b.items[i]) <==> Reordered(a.items[i], b.items[i]))
    ensures Norm(a) == Norm(b) <==> Reordered(a, b)
  {}

  ghost predicate ValuesDecided(ms: seq<Member>, ns: seq<Member>) {
    forall m, n :: m in ms && n in ns ==> (Reordered(m.value, n.value) <==> Norm(m.value) == Norm(n.value))
  }

  lemma CoversIncluded(ms: seq<Member>, ns: seq<Member>)
    requires ValuesDecided(ms, ns)
    ensures Covers(ms, ns) <==> Included(NormMembers(ms), NormMembers(ns))
  {
    MembersCovered(ms, ns, (x, y) => Reordered(x, y));
  }

  lemma CoveredByIncluded(ms: seq<Member>, ns: seq<Member>)
    requires ValuesDecided(ms, ns)
    ensures CoveredBy(ms, ns) <==> Included(NormMembers(ns), NormMembers(ms))
  {
    MembersCovered(ns, ms, (x, y) => Reordered(y, x));
  }

  lemma ObjectsReordered(a: Json, b: Json)
    requires a.Obj? && b.Obj? && DistinctKeys(a.members) && DistinctKeys(b.members)
    requires ValuesDecided(a.members, b.members)
    ensures Norm(a) == Norm(b) <==> Reordered(a, b)
  {
    MembersSameForm(a.members, b.members);
    CoversIncluded(a.members, b.members);
    CoveredByIncluded(a.members, b.members);
  }

  lemma {:induction false} NormSameIffReordered(a: Json, b: Json)
    requires Keyed(a) && Keyed(b)
    ensures Norm(a) == Norm(b) <==> Reordered(a, b)
  {
    if a.Arr? && b.Arr? {
      forall i | 0 <= i < |a.items| && i < |b.items| { NormSameIffReordered(a.items[i], b.items[i]); }
      ArraysReordered(a, b);
    } else if a.Obj? && b.Obj? {
      forall m, n | m in a.members && n in b.members { NormSameIffReordered(m.value, n.value); }
      ObjectsReordered(a, b);
    }
  }

  /** What an accepted value becomes: itself up to member order, sorted at every depth, and left alone from then on. */
  lemma CanonicalForm(v: Json, path: string, again: string)
    requires Keyed(v) && Outcome(v, path).Ok?
    ensures Reordered(v, Outcome(v, path).value)
    ensures SortedDeep(Outcome(v, path).value)
    ensures Outcome(Outcome(v, path).value, again) == Outcome(v, path)
  {
    SucceedsIffAcceptable(v, path);
    NormShape(v);
    SortedStaysPut(Norm(v));
    SucceedsIffAcceptable(Norm(v), again);
    NormSameIffReordered(v, Norm(v));
  }

  /** Two accepted values have the same canonical form exactly when they differ only in member order. */
  lemma SameFormIffReordered(a: Json, b: Json, p: string, q: string)
    requires Keyed(a) && Keyed(b) && Outcome(a, p).Ok? && Outcome(b, q).Ok?
    ensures Outcome(a, p) == Outcome(b, q) <==> Reordered(a, b)
  {
    NormSameIffReordered(a, b);
  }
}
