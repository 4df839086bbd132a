/** A last-in-first-out worklist over a derivation relation that goes down in rank. */
module Worklists {
  import opened Sequences

  /** Everything an item leads to ranks below it. */
  ghost predicate Ranked<T(!new)>(next: T -> seq<T>, rank: T -> nat) {
    forall e, f :: f in next(e) ==> rank(f) < rank(e)
  }

  ghost function Height<T>(rank: T -> nat, es: seq<T>): nat {
    if es == [] then 0
    else
      var h := Height(rank, es[1..]);
      if rank(es[0]) + 1 > h then rank(es[0]) + 1 else h
  }

  lemma {:induction false} HeightBounds<T>(rank: T -> nat, es: seq<T>, n: nat)
    ensures (forall e :: e in es ==> rank(e) < n) <==> Height(rank, es) <= n
  {
    if es != [] {
      assert es == [es[0]] + es[1..];
      HeightBounds(rank, es[1..], n);
    }
  }

  lemma HeightParts<T(!new)>(next: T -> seq<T>, rank: T -> nat, es: seq<T>)
    requires Ranked(next, rank) && es != []
    ensures Height(rank, es[..|es| - 1]) <= Height(rank, es)
    ensures Height(rank, next(es[|es| - 1])) < Height(rank, es)
  {
    var e := es[|es| - 1];
    HeightBounds(rank, es, Height(rank, es));
    HeightBounds(rank, es[..|es| - 1], Height(rank, es));
    HeightBounds(rank, next(e), rank(e));
    assert e in es;
  }

  /** The derivation forest, newest root first: a root, everything derived from it, then the other roots. */
  ghost function Forest<T(!new)>(next: T -> seq<T>, rank: T -> nat, es: seq<T>): seq<T>
    requires Ranked(next, rank)
    decreases Height(rank, es), |es|
  {
    if es == [] then []
    else
      HeightParts(next, rank, es);
      [es[|es| - 1]] + Forest(next, rank, next(es[|es| - 1])) + Forest(next, rank, es[..|es| - 1])
  }

  lemma ForestSnoc<T(!new)>(next: T -> seq<T>, rank: T -> nat, s: seq<T>, e: T)
    requires Ranked(next, rank)
    ensures Forest(next, rank, s + [e]) == [e] + Forest(next, rank, next(e)) + Forest(next, rank, s)
  {}

  lemma {:induction false} ForestConcat<T(!new)>(next: T -> seq<T>, rank: T -> nat, a: seq<T>, b: seq<T>)
    requires Ranked(next, rank)
    ensures Forest(next, rank, a + b) == Forest(next, rank, b) + Forest(next, rank, a)
    decreases |b|
  {
    if b == [] {
      assert a + b == a;
    } else {
      var e, init := b[|b| - 1], b[..|b| - 1];
      assert b == init + [e] && a + b == (a + init) + [e];
      ForestConcat(next, rank, a, init);
      ForestSnoc(next, rank, a + init, e);
      ForestSnoc(next, rank, init, e);
    }
  }

  /** One round of the worklist: the newest item is done, what it leads to takes its place. */
  lemma PopAndPush<T(!new)>(next: T -> seq<T>, rank: T -> nat, done: seq<T>, pending: seq<T>, rest: seq<T>, e: T)
    requires Ranked(next, rank) && pending != [] && rest == pending[..|pending| - 1] && e == pending[|pending| - 1]
    ensures done + Forest(next, rank, pending) == (done + [e]) + Forest(next, rank, rest + next(e))
    ensures |Forest(next, rank, rest + next(e))| < |Forest(next, rank, pending)|
  {
    assert pending == rest + [e];
    ForestConcat(next, rank, rest, next(e));
    ForestSnoc(next, rank, rest, e);
  }

  /** A chain of items, each derived directly from the one before. */
  ghost predicate Derivation<T(!new)>(next: T -> seq<T>, chain: seq<T>) {
    chain != [] && forall i {:trigger chain[i]} :: 0 < i < |chain| ==> chain[i] in next(chain[i - 1])
  }

  ghost predicate Derived<T(!new)>(next: T -> seq<T>, from: T, to: T) {
    exists chain :: Derivation(next, chain) && chain[0] == from && chain[|chain| - 1] == to
  }

  lemma DerivedStep<T(!new)>(next: T -> seq<T>, e: T, f: T, to: T)
    requires f in next(e) && Derived(next, f, to)
    ensures Derived(next, e, to)
  {
    var chain :| Derivation(next, chain) && chain[0] == f && chain[|chain| - 1] == to;
    var longer := [e] + chain;
    assert forall i :: 0 < i < |longer| ==> longer[i] == chain[i - 1];
    assert Derivation(next, longer) && longer[0] == e && longer[|longer| - 1] == to;
  }

  lemma {:induction false} ForestDerived<T(!new)>(next: T -> seq<T>, rank: T -> nat, es: seq<T>, to: T)
    requires Ranked(next, rank) && to in Forest(next, rank, es)
    ensures exists from :: from in es && Derived(next, from, to)
    decreases Height(rank, es), |es|
  {
    HeightParts(next, rank, es);
    var e, init := es[|es| - 1], es[..|es| - 1];
    if to == e {
      assert Derivation(next, [e]) && [e][0] == e;
      assert Derived(next, e, to);
    } else if to in Forest(next, rank, next(e)) {
      ForestDerived(next, rank, next(e), to);
      var f :| f in next(e) && Derived(next, f, to);
      DerivedStep(next, e, f, to);
    } else {
      ForestDerived(next, rank, init, to);
      var from :| from in init && Derived(next, from, to);
      assert from in es;
    }
  }

  lemma {:induction false} RootInForest<T(!new)>(next: T -> seq<T>, rank: T -> nat, es: seq<T>, e: T)
    requires Ranked(next, rank) && e in es
    ensures e in Forest(next, rank, es)
    ensures forall to :: to in Forest(next, rank, next(e)) ==> to in Forest(next, rank, es)
    decreases |es|
  {
    var last, init := es[|es| - 1], es[..|es| - 1];
    assert es == init + [last];
    ForestSnoc(next, rank, init, last);
    if e != last { RootInForest(next, rank, init, e); }
  }

  lemma {:induction false} DerivedInForest<T(!new)>(next: T -> seq<T>, rank: T -> nat, es: seq<T>, chain: seq<T>)
    requires Ranked(next, rank) && Derivation(next, chain) && chain[0] in es
    ensures chain[|chain| - 1] in Forest(next, rank, es)
    decreases |chain|
  {
    RootInForest(next, rank, es, chain[0]);
    if |chain| > 1 {
      var tail := chain[1..];
      forall i | 0 < i < |tail| ensures tail[i] in next(tail[i - 1]) {
        assert tail[i] == chain[i + 1];
      }
      assert chain[1] in next(chain[0]);
      DerivedInForest(next, rank, next(chain[0]), tail);
    }
  }

  /** The forest of one item holds exactly what is derivable from it. */
  lemma ForestIsDerivable<T(!new)>(next: T -> seq<T>, rank: T -> nat, e: T, to: T)
    requires Ranked(next, rank)
    ensures to in Forest(next, rank, [e]) <==> Derived(next, e, to)
  {
    if to in Forest(next, rank, [e]) { ForestDerived(next, rank, [e], to); }
    if Derived(next, e, to) {
      var chain :| Derivation(next, chain) && chain[0] == e && chain[|chain| - 1] == to;
      DerivedInForest(next, rank, [e], chain);
    }
  }

  /** Only the items of interest lead anywhere. */
  ghost function Guard<T>(next: T -> seq<T>, live: T -> bool): T -> seq<T> { (e: T) => if live(e) then next(e) else [] }

  /** What an item of interest leads to is of interest too. */
  ghost predicate Closed<T(!new)>(next: T -> seq<T>, live: T -> bool) {
    forall e, f :: live(e) && f in next(e) ==> live(f)
  }

  lemma {:induction false} ChainLive<T(!new)>(next: T -> seq<T>, live: T -> bool, chain: seq<T>, i: nat)
    requires Closed(next, live) && Derivation(next, chain) && live(chain[0]) && i < |chain|
    ensures live(chain[i])
  {
    if i > 0 {
      ChainLive(next, live, chain, i - 1);
      assert chain[i] in next(chain[i - 1]);
    }
  }

  /** From an item of interest the same items are derivable with and without the guard. */
  lemma GuardDerives<T(!new)>(next: T -> seq<T>, live: T -> bool, from: T, to: T)
    requires Closed(next, live) && live(from)
    ensures Derived(Guard(next, live), from, to) <==> Derived(next, from, to)
  {
    if Derived(next, from, to) {
      var chain :| Derivation(next, chain) && chain[0] == from && chain[|chain| - 1] == to;
      forall i | 0 < i < |chain| ensures chain[i] in Guard(next, live)(chain[i - 1]) {
        ChainLive(next, live, chain, i - 1);
      }
      assert Derivation(Guard(next, live), chain);
    }
    if Derived(Guard(next, live), from, to) {
      var chain :| Derivation(Guard(next, live), chain) && chain[0] == from && chain[|chain| - 1] == to;
      forall i | 0 < i < |chain| ensures chain[i] in next(chain[i - 1]) {
        assert chain[i] in Guard(next, live)(chain[i - 1]);
      }
      assert Derivation(next, chain);
    }
  }

  /** The forest in reading order: each root, then what is derived from it, first to last. */
  ghost function Preorder<T(!new)>(next: T -> seq<T>, rank: T -> nat, es: seq<T>): seq<T>
    requires Ranked(next, rank)
    decreases Height(rank, es), |es|
  {
    if es == [] then []
    else
      HeightParts(next, rank, es);
      Preorder(next, rank, es[..|es| - 1]) + [es[|es| - 1]] + Preorder(next, rank, next(es[|es| - 1]))
  }

  /** Last-in-first-out visits each node of the forest as often as a plain preorder walk: once. */
  lemma {:induction false} EachNodeOnce<T(!new)>(next: T -> seq<T>, rank: T -> nat, es: seq<T>)
    requires Ranked(next, rank)
    ensures multiset(Forest(next, rank, es)) == multiset(Preorder(next, rank, es))
    decreases Height(rank, es), |es|
  {
    if es != [] {
      HeightParts(next, rank, es);
      EachNodeOnce(next, rank, es[..|es| - 1]);
      EachNodeOnce(next, rank, next(es[|es| - 1]));
    }
  }

  /** Items drained one after the other. */
  ghost function InTurn<T(!new)>(next: T -> seq<T>, rank: T -> nat, es: seq<T>): seq<T>
    requires Ranked(next, rank)
  {
    if es == [] then []
    else InTurn(next, rank, es[..|es| - 1]) + Forest(next, rank, [es[|es| - 1]])
  }

  lemma InTurnStep<T(!new)>(next: T -> seq<T>, rank: T -> nat, es: seq<T>, i: nat)
    requires Ranked(next, rank) && i < |es|
    ensures InTurn(next, rank, es[..i + 1]) == InTurn(next, rank, es[..i]) + Forest(next, rank, [es[i]])
  {
    assert es[..i + 1][..i] == es[..i];
  }

  /** Polls drained one after the other. */
  ghost function AllInTurn<T(!new)>(next: T -> seq<T>, rank: T -> nat, polls: seq<seq<T>>): seq<T>
    requires Ranked(next, rank)
  {
    if polls == [] then []
    else AllInTurn(next, rank, polls[..|polls| - 1]) + InTurn(next, rank, polls[|polls| - 1])
  }

  /** The first `n` polls held something, and what they held was drained in turn. */
  ghost predicate Ticked<T(!new)>(next: T -> seq<T>, rank: T -> nat, polls: seq<seq<T>>, n: nat, done: seq<T>)
    requires Ranked(next, rank)
  {
    && n <= |polls|
    && (forall i :: 0 <= i < n ==> |polls[i]| > 0)
    && done == AllInTurn(next, rank, polls[..n])
  }

  lemma OneMorePoll<T(!new)>(next: T -> seq<T>, rank: T -> nat, polls: seq<seq<T>>, i: nat, done: seq<T>)
    requires Ranked(next, rank) && i < |polls| && |polls[i]| > 0
    requires Ticked(next, rank, polls, i, done)
    ensures Ticked(next, rank, polls, i + 1, done + InTurn(next, rank, polls[i]))
  {
    assert polls[..i + 1][..i] == polls[..i];
  }

  lemma GatherOne<T, U>(f: T -> seq<U>, before: seq<U>, done: seq<T>, e: T)
    ensures (before + Gather(f, done)) + f(e) == before + Gather(f, done + [e])
  {}

  lemma OneMoreGathered<T, U>(f: T -> seq<U>, before: seq<U>, es: seq<T>, i: nat)
    requires i < |es|
    ensures (before + Gather(f, es[..i])) + f(es[i]) == before + Gather(f, es[..i + 1])
  {
    GatherOne(f, before, es[..i], es[i]);
    assert es[..i + 1] == es[..i] + [es[i]];
  }

  lemma Reassociated<U>(a: seq<U>, b: seq<U>, c: seq<U>)
    ensures (a + b) + c == a + (b + c)
  {}

  lemma {:induction false} GatherMore<T, U>(f: T -> seq<U>, before: seq<U>, done: seq<T>, more: seq<T>)
    ensures (before + Gather(f, done)) + Gather(f, more) == before + Gather(f, done + more)
    decreases |more|
  {
    if more == [] {
      assert done + more == done;
    } else {
      var init, last := more[..|more| - 1], more[|more| - 1];
      GatherMore(f, before, done, init);
      GatherOne(f, before, done + init, last);
      assert done + more == (done + init) + [last];
      Reassociated(before + Gather(f, done), Gather(f, init), f(last));
    }
  }

  /** Items drained in turn are dispatched one forest behind the other. */
  lemma {:induction false} InTurnGathers<T(!new)>(next: T -> seq<T>, rank: T -> nat, es: seq<T>)
    requires Ranked(next, rank)
    ensures InTurn(next, rank, es) == Gather((e: T) requires Ranked(next, rank) => Forest(next, rank, [e]), es)
  {
    if es != [] { InTurnGathers(next, rank, es[..|es| - 1]); }
  }

  /** The worklist after `n` rounds. */
  ghost function Worklist<T>(next: T -> seq<T>, pending: seq<T>, n: nat): seq<T>
    decreases n
  {
    if n == 0 || pending == [] then pending
    else Worklist(next, pending[..|pending| - 1] + next(pending[|pending| - 1]), n - 1)
  }

  // ---- When the worklist empties ----

  ghost predicate Drains<T(!new)>(next: T -> seq<T>, es: seq<T>) { exists n: nat :: Worklist(next, es, n) == [] }

  /** What lies on top of the worklist empties first, then the rest. */
  lemma {:induction false} WorklistSplit<T(!new)>(next: T -> seq<T>, a: seq<T>, b: seq<T>, n: nat) returns (m: nat)
    requires Worklist(next, a + b, n) == []
    ensures m <= n && Worklist(next, b, m) == [] && Worklist(next, a, n - m) == []
    decreases n
  {
    if b == [] {
      assert a + b == a;
      m := 0;
    } else {
      var init, last := b[..|b| - 1], b[|b| - 1];
      var c := a + b;
      assert c[|c| - 1] == last && c[..|c| - 1] + next(last) == a + (init + next(last));
      m := WorklistSplit(next, a, init + next(last), n - 1);
      m := m + 1;
    }
  }

  /** All is done after `n` rounds, and not before. */
  ghost predicate DoneAt<T(!new)>(next: T -> seq<T>, e: T, n: nat) {
    Worklist(next, [e], n) == [] && forall k: nat :: k < n ==> Worklist(next, [e], k) != []
  }

  lemma {:induction false} LeastRounds<T(!new)>(next: T -> seq<T>, e: T, n: nat) returns (m: nat)
    requires Worklist(next, [e], n) == []
    ensures DoneAt(next, e, m)
  {
    if k: nat :| k < n && Worklist(next, [e], k) == [] {
      m := LeastRounds(next, e, k);
    } else {
      m := n;
    }
  }

  lemma SomeRounds<T(!new)>(next: T -> seq<T>, e: T)
    requires Drains(next, [e])
    ensures exists n: nat :: DoneAt(next, e, n)
  {
    var d: nat :| Worklist(next, [e], d) == [];
    var m := LeastRounds(next, e, d);
  }

  /** The least number of rounds in which an item and all it leads to are done. */
  ghost function Rounds<T(!new)>(next: T -> seq<T>, e: T): (n: nat)
    ensures Drains(next, [e]) ==> DoneAt(next, e, n)
  {
    if Drains(next, [e]) then
      SomeRounds(next, e);
      var n: nat :| DoneAt(next, e, n);
      n
    else 0
  }

  /** What a draining item leads to drains too, in fewer rounds. */
  lemma FewerRounds<T(!new)>(next: T -> seq<T>, e: T, f: T)
    requires Drains(next, [e]) && f in next(e)
    ensures Drains(next, [f]) && Rounds(next, f) < Rounds(next, e)
  {
    var n := Rounds(next, e);
    FirstRound(next, e, n);
    var k := PartDrains(next, next(e), f, n - 1);
    assert Worklist(next, [f], k) == [];
  }

  lemma FirstRound<T(!new)>(next: T -> seq<T>, e: T, n: nat)
    requires Worklist(next, [e], n) == []
    ensures n > 0 && Worklist(next, next(e), n - 1) == []
  {
    assert [e][..0] + next(e) == next(e);
  }

  lemma PartDrains<T(!new)>(next: T -> seq<T>, es: seq<T>, f: T, n: nat) returns (k: nat)
    requires f in es && Worklist(next, es, n) == []
    ensures k <= n && Worklist(next, [f], k) == []
  {
    var i :| 0 <= i < |es| && es[i] == f;
    var a, c := es[..i], es[i + 1..];
    assert es == (a + [f]) + c;
    var m := WorklistSplit(next, a + [f], c, n);
    k := WorklistSplit(next, a, [f], n - m);
  }

  lemma {:induction false} ForestEmpties<T(!new)>(next: T -> seq<T>, rank: T -> nat, pending: seq<T>, n: nat)
    requires Ranked(next, rank) && |Forest(next, rank, pending)| <= n
    ensures Worklist(next, pending, n) == []
    decreases n
  {
    if pending != [] {
      var rest, e := pending[..|pending| - 1], pending[|pending| - 1];
      PopAndPush(next, rank, [], pending, rest, e);
      ForestEmpties(next, rank, rest + next(e), n - 1);
    }
  }

  lemma {:induction false} GuardWorklist<T(!new)>(next: T -> seq<T>, live: T -> bool, pending: seq<T>, n: nat)
    requires Closed(next, live) && forall e :: e in pending ==> live(e)
    ensures Worklist(next, pending, n) == Worklist(Guard(next, live), pending, n)
    decreases n
  {
    if n > 0 && pending != [] {
      var e := pending[|pending| - 1];
      assert e in pending && Guard(next, live)(e) == next(e);
      GuardWorklist(next, live, pending[..|pending| - 1] + next(e), n - 1);
    }
  }

  ghost predicate RankedFor<T(!new)>(next: T -> seq<T>, live: T -> bool, rank: T -> nat, e: T) {
    live(e) && Ranked(Guard(next, live), rank) && Closed(next, live)
  }

  /** The worklist empties exactly when some closed set of items holds the first one and has a falling rank. */
  lemma DrainsIffRanked<T(!new)>(next: T -> seq<T>, e: T)
    ensures Drains(next, [e]) <==> exists live: T -> bool, rank: T -> nat :: RankedFor(next, live, rank, e)
  {
    if Drains(next, [e]) {
      var live, rank := (x: T) => Drains(next, [x]), (x: T) => Rounds(next, x);
      forall x, f | live(x) && f in next(x) ensures live(f) && rank(f) < rank(x) { FewerRounds(next, x, f); }
      assert RankedFor(next, live, rank, e);
    }
    if live: T -> bool, rank: T -> nat :| RankedFor(next, live, rank, e) {
      ForestEmpties(Guard(next, live), rank, [e], |Forest(Guard(next, live), rank, [e])|);
      GuardWorklist(next, live, [e], |Forest(Guard(next, live), rank, [e])|);
    }
  }

  ghost predicate Holds<T(!new)>(bad: T -> bool, es: seq<T>) { exists e :: e in es && bad(e) }

  /** A property that every item with it hands on keeps the worklist busy forever. */
  lemma {:induction false} NeverEmpties<T(!new)>(next: T -> seq<T>, bad: T -> bool, pending: seq<T>, n: nat)
    requires forall e :: bad(e) ==> Holds(bad, next(e))
    requires Holds(bad, pending)
    ensures Worklist(next, pending, n) != []
    decreases n
  {
    if n > 0 {
      var last, init := pending[|pending| - 1], pending[..|pending| - 1];
      assert pending == init + [last];
      if bad(last) {
        var f :| f in next(last) && bad(f);
        assert f in init + next(last);
      } else {
        var e :| e in pending && bad(e);
        assert e in init + next(last);
      }
      NeverEmpties(next, bad, init + next(last), n - 1);
    }
  }

  /** No rank exists for such a relation. */
  lemma {:induction false} NeverRanked<T(!new)>(next: T -> seq<T>, bad: T -> bool, rank: T -> nat, e: T)
    requires forall e :: bad(e) ==> Holds(bad, next(e))
    requires bad(e)
    ensures !Ranked(next, rank)
    decreases rank(e)
  {
    var f :| f in next(e) && bad(f);
    if rank(f) < rank(e) { NeverRanked(next, bad, rank, f); }
  }
}

/** Dispatching events to procedures behind three gates, and draining the worklist of follow-ups. */
module Executor {
  import opened Wrappers
  import opened Ordering
  import opened Sequences
  import opened Restoring
  import opened Worklists

  /** Ordinary events carry a kind and a body; two kinds are made by the executor itself. */
  datatype Event =
    | Plain(kind: string, body: string)
    | PreActionConstraint(action: string, reason: string)
    | ConstraintViolation(procedure: string, eventKind: string, message: string, fix: string)

  function Kind(e: Event): string {
    match e
    case Plain(kind, _) => kind
    case PreActionConstraint(_, _) => "pre_action_constraint"
    case ConstraintViolation(_, _, _, _) => "constraint_violation"
  }

  datatype Procedure = Procedure(name: string, handles: string, execute: Event -> seq<Event>)

  datatype Blocked = Blocked(message: string, fix: string)

  /** The registry, the optional constraint store and the pre-action gate, as given functions. */
  datatype Env = Env(
    procedures: seq<Procedure>,
    enabled: map<string, bool>,
    priority: map<string, int>,
    store: Option<string -> Option<Blocked>>,
    gate: string -> Option<string>)

  function IsEnabled(env: Env, name: string): bool { if name in env.enabled then env.enabled[name] else true }

  function PriorityOf(env: Env, name: string): int { if name in env.priority then env.priority[name] else 0 }

  function ByPriority(env: Env): (Procedure, Procedure) -> bool {
    (a: Procedure, b: Procedure) => PriorityOf(env, a.name) <= PriorityOf(env, b.name)
  }

  function Handles(env: Env, kind: string): Procedure -> bool {
    (p: Procedure) => p.handles == kind && IsEnabled(env, p.name)
  }

  function Handling(env: Env, ps: seq<Procedure>, kind: string): (r: seq<Procedure>)
    ensures forall p :: p in r <==> p in ps && p.handles == kind && IsEnabled(env, p.name)
  {
    Filtered(ps, Handles(env, kind))
  }

  /** Enabled procedures for a kind, lower priority numbers first. */
  function Matching(env: Env, kind: string): seq<Procedure> {
    SortBy(Handling(env, env.procedures, kind), ByPriority(env))
  }

  /**
   * Two handlers of a kind run in the order of their numbers, a missing number counting as zero, and with equal
   * numbers in the order of their registration.
   */
  lemma HandlersByPriority(env: Env, kind: string, i: nat, j: nat) returns (p: nat, q: nat)
    requires i < j < |Matching(env, kind)|
    ensures var a, b := Matching(env, kind)[i].name, Matching(env, kind)[j].name;
      var first := if a in env.priority then env.priority[a] else 0;
      var second := if b in env.priority then env.priority[b] else 0;
      first <= second && (first == second ==> p < q)
    ensures p < |env.procedures| && env.procedures[p] == Matching(env, kind)[i]
    ensures q < |env.procedures| && env.procedures[q] == Matching(env, kind)[j]
  {
    var s, r, le := Handling(env, env.procedures, kind), Matching(env, kind), ByPriority(env);
    SortSorts(s, le);
    assert le(r[i], r[j]);
    if le(r[j], r[i]) {
      p, q := TiesKept(s, le, i, j);
      p, q := FilteredInOrder(env.procedures, Handles(env, kind), p, q);
    } else {
      assert r[i] in s && r[j] in s;
      p :| 0 <= p < |env.procedures| && env.procedures[p] == r[i];
      q :| 0 <= q < |env.procedures| && env.procedures[q] == r[j];
    }
  }

  /** Every registered procedure for the kind takes part once per registration, unless switched off by name. */
  lemma HandlersExactly(env: Env, kind: string, p: Procedure)
    ensures multiset(Matching(env, kind))[p] ==
      if p.handles == kind && (p.name !in env.enabled || env.enabled[p.name]) then multiset(env.procedures)[p] else 0
  {
    SortSorts(Handling(env, env.procedures, kind), ByPriority(env));
    FilteredCounts(env.procedures, Handles(env, kind), p);
  }

  lemma MatchingMembers(env: Env, kind: string, p: Procedure)
    ensures p in Matching(env, kind) <==> p in env.procedures && p.handles == kind && IsEnabled(env, p.name)
  {
    SortSorts(Handling(env, env.procedures, kind), ByPriority(env));
  }

  // ---- Gates ----

  datatype Safety = Ready | InsufficientData | UnsafeSolution

  function CheckSafety(action: string): Safety {
    if Contains(action, "delete") || Contains(action, "remove") then UnsafeSolution
    else if Contains(action, "experimental") || Contains(action, "beta") then InsufficientData
    else Ready
  }

  function ActionOf(p: Procedure): string { "execute_procedure:" + p.name }

  datatype Verdict =
    | StoreBlocked(why: Blocked)
    | GateBlocked(reason: string)
    | SafetyBlocked(safety: Safety)
    | Permitted

  /** The first gate that objects decides. */
  function Judge(env: Env, p: Procedure): Verdict {
    var blocked := match env.store case Some(f) => f(p.name) case None => None;
    if blocked.Some? then StoreBlocked(blocked.value)
    else
      match env.gate(ActionOf(p))
      case Some(reason) => GateBlocked(reason)
      case None => if CheckSafety(ActionOf(p)) == Ready then Permitted else SafetyBlocked(CheckSafety(ActionOf(p)))
  }

  /** What one handler contributes to the follow-ups. */
  function Contribution(env: Env, p: Procedure, e: Event): seq<Event> {
    match Judge(env, p)
    case StoreBlocked(why) => [ConstraintViolation(p.name, Kind(e), why.message, why.fix)]
    case GateBlocked(reason) => [PreActionConstraint(ActionOf(p), reason)]
    case SafetyBlocked(_) => []
    case Permitted => p.execute(e)
  }

  function Contributions(env: Env, ps: seq<Procedure>, e: Event): seq<Event> {
    if ps == [] then []
    else Contributions(env, ps[..|ps| - 1], e) + Contribution(env, ps[|ps| - 1], e)
  }

  /** All follow-ups of an event. */
  function FollowUps(env: Env, e: Event): seq<Event> { Contributions(env, Matching(env, Kind(e)), e) }

  function RunsOf(env: Env, p: Procedure): seq<string> { if Judge(env, p).Permitted? then [p.name] else [] }

  /** Names of the handlers that run. */
  function Permits(env: Env, ps: seq<Procedure>): seq<string> {
    if ps == [] then [] else Permits(env, ps[..|ps| - 1]) + RunsOf(env, ps[|ps| - 1])
  }

  datatype Telemetry = Telemetry(action: string, safety: Safety)

  function SafetyRecord(env: Env, p: Procedure): seq<Telemetry> {
    if Judge(env, p).SafetyBlocked? then [Telemetry(ActionOf(p), CheckSafety(ActionOf(p)))] else []
  }

  /** Records of the handlers the safety gate stopped. */
  function SafetyBlocks(env: Env, ps: seq<Procedure>): seq<Telemetry> {
    if ps == [] then [] else SafetyBlocks(env, ps[..|ps| - 1]) + SafetyRecord(env, ps[|ps| - 1])
  }

  /** What the gate asks for before it lets an action through. */
  datatype Evidence = Evidence(description: string, required: seq<string>, context: string)

  function EvidenceAsked(env: Env): Procedure -> seq<Evidence> {
    (p: Procedure) =>
      if Judge(env, p) == SafetyBlocked(InsufficientData)
      then [Evidence("Insufficient data for procedure: " + p.name,
                     ["safety_metrics", "execution_context"], ActionOf(p))]
      else []
  }

  const MAX_TELEMETRY: nat := 1000

  /** Only the most recent records are kept. */
  function Recent(records: seq<Telemetry>): seq<Telemetry> {
    if |records| > MAX_TELEMETRY then records[|records| - MAX_TELEMETRY..] else records
  }

  /** The newest thousand records, or all of them. */
  lemma RecentIsTail(records: seq<Telemetry>)
    ensures |Recent(records)| == if |records| <= 1000 then |records| else 1000
    ensures Recent(records) == records[|records| - |Recent(records)|..]
  {}

  lemma RecentTwice(a: seq<Telemetry>, b: seq<Telemetry>)
    ensures Recent(Recent(a) + b) == Recent(a + b)
  {
  }

  ghost predicate AllGatesPass(env: Env, p: Procedure) {
    && (env.store.Some? ==> env.store.value(p.name).None?)
    && env.gate(ActionOf(p)).None?
    && CheckSafety(ActionOf(p)) == Ready
  }

  ghost predicate Mentions(action: string, a: string, b: string) { Contains(action, a) || Contains(action, b) }

  /**
   * The store is asked first, then the gate, then the name is checked for dangerous and for experimental words;
   * only what passes all of it runs.
   */
  lemma GatesInOrder(env: Env, p: Procedure, e: Event)
    ensures var action := "execute_procedure:" + p.name;
      if env.store.Some? && env.store.value(p.name).Some? then
        var why := env.store.value(p.name).value;
        && Contribution(env, p, e) == [ConstraintViolation(p.name, Kind(e), why.message, why.fix)]
        && RunsOf(env, p) == [] && SafetyRecord(env, p) == [] && EvidenceAsked(env)(p) == []
      else if env.gate(action).Some? then
        && Contribution(env, p, e) == [PreActionConstraint(action, env.gate(action).value)]
        && RunsOf(env, p) == [] && SafetyRecord(env, p) == [] && EvidenceAsked(env)(p) == []
      else if Mentions(action, "delete", "remove") then
        && Contribution(env, p, e) == [] && RunsOf(env, p) == []
        && SafetyRecord(env, p) == [Telemetry(action, UnsafeSolution)] && EvidenceAsked(env)(p) == []
      else if Mentions(action, "experimental", "beta") then
        && Contribution(env, p, e) == [] && RunsOf(env, p) == []
        && SafetyRecord(env, p) == [Telemetry(action, InsufficientData)]
        && |EvidenceAsked(env)(p)| == 1 && EvidenceAsked(env)(p)[0].context == action
      else
        && Contribution(env, p, e) == p.execute(e) && RunsOf(env, p) == [p.name]
        && SafetyRecord(env, p) == [] && EvidenceAsked(env)(p) == []
  {}

  lemma {:induction false} ContributionsGather(env: Env, ps: seq<Procedure>, e: Event)
    ensures Contributions(env, ps, e) == Gather((p: Procedure) => Contribution(env, p, e), ps)
  {
    if ps != [] { ContributionsGather(env, ps[..|ps| - 1], e); }
  }

  lemma {:induction false} PermitsGather(env: Env, ps: seq<Procedure>)
    ensures Permits(env, ps) == Gather((p: Procedure) => RunsOf(env, p), ps)
  {
    if ps != [] { PermitsGather(env, ps[..|ps| - 1]); }
  }

  /** The handlers' contributions, and the names of those that run, lie in handler order. */
  lemma DispatchInOrder(env: Env, e: Event) returns (cuts: seq<nat>, runs: seq<nat>)
    ensures Laid((p: Procedure) => Contribution(env, p, e), Matching(env, Kind(e)), FollowUps(env, e), cuts)
    ensures Laid((p: Procedure) => RunsOf(env, p), Matching(env, Kind(e)), Permits(env, Matching(env, Kind(e))), runs)
  {
    var hs := Matching(env, Kind(e));
    ContributionsGather(env, hs, e);
    PermitsGather(env, hs);
    cuts := GatherLaid((p: Procedure) => Contribution(env, p, e), hs);
    runs := GatherLaid((p: Procedure) => RunsOf(env, p), hs);
  }

  /** A handler runs exactly when all three gates pass. */
  lemma {:induction false} RunsIffGatesPass(env: Env, ps: seq<Procedure>, name: string)
    ensures name in Permits(env, ps) <==> exists p :: p in ps && p.name == name && AllGatesPass(env, p)
  {
    if ps != [] {
      var last, init := ps[|ps| - 1], ps[..|ps| - 1];
      assert ps == init + [last];
      RunsIffGatesPass(env, init, name);
    }
  }

  lemma OneMoreHandler(env: Env, ps: seq<Procedure>, i: nat, e: Event, ran: seq<string>, told: seq<Telemetry>)
    requires i < |ps|
    ensures Contributions(env, ps[..i], e) + Contribution(env, ps[i], e) == Contributions(env, ps[..i + 1], e)
    ensures (ran + Permits(env, ps[..i])) + RunsOf(env, ps[i]) == ran + Permits(env, ps[..i + 1])
    ensures Recent(Recent(told + SafetyBlocks(env, ps[..i])) + SafetyRecord(env, ps[i]))
         == Recent(told + SafetyBlocks(env, ps[..i + 1]))
  {
    RecentTwice(told + SafetyBlocks(env, ps[..i]), SafetyRecord(env, ps[i]));
    assert (told + SafetyBlocks(env, ps[..i])) + SafetyRecord(env, ps[i])
        == told + (SafetyBlocks(env, ps[..i]) + SafetyRecord(env, ps[i]));
    assert ps[..i + 1][..i] == ps[..i];
  }

  lemma OneMoreAsked(env: Env, ps: seq<Procedure>, i: nat, asked: seq<Evidence>)
    requires i < |ps|
    ensures (asked + Gather(EvidenceAsked(env), ps[..i])) + EvidenceAsked(env)(ps[i])
         == asked + Gather(EvidenceAsked(env), ps[..i + 1])
  {
    OneMoreGathered(EvidenceAsked(env), asked, ps, i);
  }

  function Runs(env: Env): Event -> seq<string> { (e: Event) => Permits(env, Matching(env, Kind(e))) }

  /** The handlers that run when the given events are dispatched one after the other. */
  ghost function Executions(env: Env, es: seq<Event>): seq<string> { Gather(Runs(env), es) }

  /** The executor with its telemetry and evidence requests; `executed` records which handlers ran. */
  class Executor {
    const env: Env
    var telemetry: seq<Telemetry>
    var evidence: seq<Evidence>
    ghost var executed: seq<string>

    ghost predicate Valid()
      reads this
    {
      |telemetry| <= MAX_TELEMETRY
    }

    constructor (env: Env)
      ensures Valid() && this.env == env && telemetry == [] && evidence == [] && executed == []
    {
      this.env, telemetry, evidence, executed := env, [], [], [];
    }

    /** One handler behind its gates. */
    method Handle(h: Procedure, e: Event) returns (emitted: seq<Event>)
      requires Valid()
      modifies this
      ensures Valid()
      ensures emitted == Contribution(env, h, e)
      ensures executed == old(executed) + RunsOf(env, h)
      ensures telemetry == Recent(old(telemetry) + SafetyRecord(env, h))
      ensures evidence == old(evidence) + EvidenceAsked(env)(h)
    {
      if env.store.Some? {
        var blocked := env.store.value(h.name);
        if blocked.Some? {
          return [ConstraintViolation(h.name, Kind(e), blocked.value.message, blocked.value.fix)];
        }
      }
      var action := ActionOf(h);
      var objection := env.gate(action);
      if objection.Some? { return [PreActionConstraint(action, objection.value)]; }
      var safety := CheckSafety(action);
      if safety == Ready {
        executed := executed + [h.name];
        return h.execute(e);
      }
      if safety == InsufficientData {
        evidence := evidence + [Evidence("Insufficient data for procedure: " + h.name,
                                         ["safety_metrics", "execution_context"], action)];
      }
      telemetry := telemetry + [Telemetry(action, safety)];
      if |telemetry| > MAX_TELEMETRY { telemetry := telemetry[|telemetry| - MAX_TELEMETRY..]; }
      return [];
    }

    method Dispatch(e: Event) returns (followUps: seq<Event>)
      requires Valid()
      modifies this
      ensures Valid()
      ensures followUps == FollowUps(env, e) == Next(env)(e)
      ensures executed == old(executed) + Permits(env, Matching(env, Kind(e))) == old(executed) + Runs(env)(e)
      ensures telemetry == Recent(old(telemetry) + SafetyBlocks(env, Matching(env, Kind(e))))
      ensures evidence == old(evidence) + Gather(EvidenceAsked(env), Matching(env, Kind(e)))
    {
      followUps := [];
      var handlers := Matching(env, Kind(e));
      for i := 0 to |handlers|
        invariant followUps == Contributions(env, handlers[..i], e)
        invariant executed == old(executed) + Permits(env, handlers[..i])
        invariant Valid() && telemetry == Recent(old(telemetry) + SafetyBlocks(env, handlers[..i]))
        invariant evidence == old(evidence) + Gather(EvidenceAsked(env), handlers[..i])
      {
        OneMoreHandler(env, handlers, i, e, old(executed), old(telemetry));
        OneMoreAsked(env, handlers, i, old(evidence));
        var emitted := Handle(handlers[i], e);
        followUps := followUps + emitted;
      }
      assert handlers[..|handlers|] == handlers;
    }

    /** Pops the newest event, dispatches it and pushes its follow-ups until nothing is left. */
    method Drain(event: Event, ghost live: Event -> bool, ghost rank: Event -> nat) returns (dispatched: seq<Event>)
      requires Valid() && Terminating(env, live, rank) && live(event)
      modifies this
      ensures Valid() && dispatched == Forest(Flow(env, live), rank, [event])
      ensures executed == old(executed) + Executions(env, dispatched)
    {
      var pending := [event];
      dispatched := [];
      while pending != []
        invariant Valid() && executed == old(executed) + Executions(env, dispatched)
        invariant forall e :: e in pending ==> live(e)
        invariant dispatched + Forest(Flow(env, live), rank, pending) == Forest(Flow(env, live), rank, [event])
        decreases |Forest(Flow(env, live), rank, pending)|
      {
        var current := pending[|pending| - 1];
        var rest := pending[..|pending| - 1];
        PopAndPush(Flow(env, live), rank, dispatched, pending, rest, current);
        GatherOne(Runs(env), old(executed), dispatched, current);
        var followUps := Dispatch(current);
        FlowLive(env, live, pending, current, followUps);
        pending := rest + followUps;
        dispatched := dispatched + [current];
      }
    }

    /** One tick drains the events of a poll one after the other. */
    method Tick(events: seq<Event>, ghost live: Event -> bool, ghost rank: Event -> nat)
      returns (dispatched: seq<Event>)
      requires Valid() && Terminating(env, live, rank) && forall e :: e in events ==> live(e)
      modifies this
      ensures Valid() && dispatched == InTurn(Flow(env, live), rank, events)
      ensures executed == old(executed) + Executions(env, dispatched)
    {
      dispatched := [];
      for i := 0 to |events|
        invariant Valid() && executed == old(executed) + Executions(env, dispatched)
        invariant dispatched == InTurn(Flow(env, live), rank, events[..i])
      {
        InTurnStep(Flow(env, live), rank, events, i);
        var trace := Drain(events[i], live, rank);
        GatherMore(Runs(env), old(executed), dispatched, trace);
        dispatched := dispatched + trace;
      }
      assert events[..|events|] == events;
    }

    /** Ticks until a poll is empty or the limit is reached; zero means no limit. */
    method Run(polls: seq<seq<Event>>, maxIterations: nat, ghost live: Event -> bool, ghost rank: Event -> nat)
      returns (dispatched: seq<Event>, iterations: nat)
      requires Valid() && Terminating(env, live, rank)
      requires forall i :: 0 <= i < |polls| ==> forall e :: e in polls[i] ==> live(e)
      modifies this
      ensures Valid() && executed == old(executed) + Executions(env, dispatched)
      ensures Ticked(Flow(env, live), rank, polls, iterations, dispatched)
      ensures maxIterations > 0 ==> iterations <= maxIterations
      ensures iterations == |polls| || |polls[iterations]| == 0 || iterations == maxIterations > 0
    {
      iterations := 0;
      dispatched := [];
      while iterations < |polls|
        invariant Valid() && executed == old(executed) + Executions(env, dispatched)
        invariant Ticked(Flow(env, live), rank, polls, iterations, dispatched)
        invariant maxIterations > 0 ==> iterations < maxIterations
      {
        var events := polls[iterations];
        if |events| == 0 { break; }
        var trace := Tick(events, live, rank);
        GatherMore(Runs(env), old(executed), dispatched, trace);
        OneMorePoll(Flow(env, live), rank, polls, iterations, dispatched);
        dispatched := dispatched + trace;
        iterations := iterations + 1;
        if maxIterations > 0 && iterations >= maxIterations { break; }
      }
    }
  }

  function Next(env: Env): Event -> seq<Event> { (e: Event) => FollowUps(env, e) }

  /** The derivations among the events of interest. */
  ghost function Flow(env: Env, live: Event -> bool): Event -> seq<Event> { Guard(Next(env), live) }

  /** Every follow-up of an event of interest is of interest and ranks below it. */
  ghost predicate Terminating(env: Env, live: Event -> bool, rank: Event -> nat) {
    Ranked(Flow(env, live), rank) && Closed(Next(env), live)
  }

  lemma FlowLive(env: Env, live: Event -> bool, pending: seq<Event>, e: Event, followUps: seq<Event>)
    requires Closed(Next(env), live) && e in pending && (forall p :: p in pending ==> live(p))
    requires followUps == Next(env)(e)
    ensures followUps == Flow(env, live)(e) && forall f :: f in followUps ==> live(f)
  {}

  /** What one tick dispatches for an event is exactly what is derivable from it. */
  lemma DrainReachesDerived(env: Env, live: Event -> bool, rank: Event -> nat, event: Event, to: Event)
    requires Terminating(env, live, rank) && live(event)
    ensures to in Forest(Flow(env, live), rank, [event]) <==> Derived(Next(env), event, to)
  {
    ForestIsDerivable(Flow(env, live), rank, event, to);
    GuardDerives(Next(env), live, event, to);
  }

  /** Exactly when one tick ends: some closed set of events holds its event and has a rank that falls. */
  lemma TickEndsExactly(env: Env, e: Event)
    ensures Drains(Next(env), [e]) <==>
      exists live: Event -> bool, rank: Event -> nat :: live(e) && Terminating(env, live, rank)
  {
    DrainsIffRanked(Next(env), e);
    if live: Event -> bool, rank: Event -> nat :| RankedFor(Next(env), live, rank, e) {
      assert live(e) && Terminating(env, live, rank);
    }
    if live: Event -> bool, rank: Event -> nat :| live(e) && Terminating(env, live, rank) {
      assert RankedFor(Next(env), live, rank, e);
    }
  }
}
