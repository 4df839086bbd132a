/** Worklists whose rank falls except into finitely many marked items. */
module Cycles {
  import opened Worklists

  /** Derived in one step or more. */
  ghost predicate Leads<T(!new)>(next: T -> seq<T>, from: T, to: T) {
    exists f :: f in next(from) && Derived(next, f, to)
  }

  lemma DerivedSelf<T(!new)>(next: T -> seq<T>, e: T)
    ensures Derived(next, e, e)
  {
    assert Derivation(next, [e]) && [e][0] == e;
  }

  lemma DerivedThen<T(!new)>(next: T -> seq<T>, from: T, e: T, f: T)
    requires Derived(next, from, e) && f in next(e)
    ensures Derived(next, from, f)
  {
    var chain :| Derivation(next, chain) && chain[0] == from && chain[|chain| - 1] == e;
    var longer := chain + [f];
    assert Derivation(next, longer) && longer[0] == from && longer[|longer| - 1] == f;
  }

  /** What a draining item leads to takes no more rounds. */
  lemma {:induction false} RoundsAlong<T(!new)>(next: T -> seq<T>, chain: seq<T>)
    requires Derivation(next, chain) && Drains(next, [chain[0]])
    ensures var last := chain[|chain| - 1]; Drains(next, [last]) && Rounds(next, last) <= Rounds(next, chain[0])
    decreases |chain|
  {
    if |chain| > 1 {
      var n := |chain| - 1;
      var init := chain[..n];
      assert forall i {:trigger init[i]} :: 0 < i < |init| ==> init[i] == chain[i] && init[i - 1] == chain[i - 1];
      RoundsAlong(next, init);
      assert chain[n] in next(chain[n - 1]) && init[|init| - 1] == chain[n - 1];
      FewerRounds(next, chain[n - 1], chain[n]);
    }
  }

  lemma RoundsDerived<T(!new)>(next: T -> seq<T>, e: T, f: T)
    requires Drains(next, [e]) && Derived(next, e, f)
    ensures Drains(next, [f]) && Rounds(next, f) <= Rounds(next, e)
  {
    var chain :| Derivation(next, chain) && chain[0] == e && chain[|chain| - 1] == f;
    RoundsAlong(next, chain);
  }

  /** Nothing a draining item leads to leads back to itself. */
  lemma NoReturn<T(!new)>(next: T -> seq<T>, e: T, m: T)
    requires Drains(next, [e]) && Derived(next, e, m)
    ensures !Leads(next, m, m)
  {
    RoundsDerived(next, e, m);
    if f :| f in next(m) && Derived(next, f, m) {
      FewerRounds(next, m, f);
      RoundsDerived(next, f, m);
    }
  }

  ghost predicate FallsOutside<T(!new)>(next: T -> seq<T>, marks: seq<T>, rank: T -> nat) {
    forall x, y :: y in next(x) ==> rank(y) < rank(x) || y in marks
  }

  /** The marked items an item leads to. */
  ghost function Ahead<T(!new)>(next: T -> seq<T>, marks: seq<T>, x: T): set<T>
  {
    set m | m in marks && Leads(next, x, m)
  }

  lemma AheadShrinks<T(!new)>(next: T -> seq<T>, marks: seq<T>, x: T, y: T)
    requires y in next(x)
    ensures Ahead(next, marks, y) <= Ahead(next, marks, x)
    ensures y in marks ==> y in Ahead(next, marks, x)
  {
    forall m | m in Ahead(next, marks, y) ensures m in Ahead(next, marks, x) {
      var f :| f in next(y) && Derived(next, f, m);
      DerivedStep(next, y, f, m);
    }
    DerivedSelf(next, y);
  }

  /** First by the marked items ahead, then by the given rank. */
  ghost function Staged<T(!new)>(next: T -> seq<T>, marks: seq<T>, rank: T -> nat): T -> nat {
    (x: T) => |Ahead(next, marks, x)| * Height(rank, marks) + rank(x)
  }

  lemma Fewer<T>(a: set<T>, b: set<T>, m: T)
    requires a <= b && m in b && m !in a
    ensures |a| < |b|
  {
    NoMore(a + {m}, b);
  }

  lemma NoMore<T>(a: set<T>, b: set<T>)
    requires a <= b
    ensures |a| <= |b|
  {
    assert b == a + (b - a);
  }

  lemma {:induction false} Times(a: nat, b: nat, h: nat)
    requires a <= b
    ensures a * h <= b * h
    ensures a < b ==> a * h + h <= b * h
  {
    if a < b {
      Times(a, b - 1, h);
      assert b * h == (b - 1) * h + h;
    }
  }

  lemma StagedFalls(a: nat, b: nat, h: nat, low: nat, high: nat)
    requires (a < b && low < h) || (a <= b && low < high)
    ensures a * h + low < b * h + high
  {
    Times(a, b, h);
  }

  lemma StepFalls<T(!new)>(next: T -> seq<T>, marks: seq<T>, rank: T -> nat, x: T, y: T)
    requires FallsOutside(next, marks, rank) && y in next(x)
    requires y in marks ==> !Leads(next, y, y)
    ensures Staged(next, marks, rank)(y) < Staged(next, marks, rank)(x)
  {
    AheadShrinks(next, marks, x, y);
    var a, b := Ahead(next, marks, y), Ahead(next, marks, x);
    HeightBounds(rank, marks, Height(rank, marks));
    if y in marks { Fewer(a, b, y); } else { NoMore(a, b); }
    StagedFalls(|a|, |b|, Height(rank, marks), rank(y), rank(x));
  }

  /** The worklist empties exactly when no marked item it comes to leads back to itself. */
  lemma DrainsIffNoReturn<T(!new)>(next: T -> seq<T>, marks: seq<T>, rank: T -> nat, e: T)
    requires FallsOutside(next, marks, rank)
    ensures Drains(next, [e]) <==> forall m :: m in marks && Derived(next, e, m) ==> !Leads(next, m, m)
  {
    if Drains(next, [e]) {
      forall m | m in marks && Derived(next, e, m) ensures !Leads(next, m, m) { NoReturn(next, e, m); }
    }
    if forall m :: m in marks && Derived(next, e, m) ==> !Leads(next, m, m) {
      var live, staged := (x: T) => Derived(next, e, x), Staged(next, marks, rank);
      forall x, y | live(x) && y in next(x) ensures live(y) && staged(y) < staged(x) {
        DerivedThen(next, e, x, y);
        StepFalls(next, marks, rank, x, y);
      }
      DerivedSelf(next, e);
      assert RankedFor(next, live, staged, e);
      DrainsIffRanked(next, e);
    }
  }
}

/** The events the executor makes itself when a gate stops a handler, and when they keep a tick going forever. */
module SelfMadeEvents {
  import opened Sequences
  import opened Worklists
  import opened Cycles
  import opened Executor

  ghost predicate HandledBy(env: Env, p: Procedure, kind: string) {
    p in env.procedures && p.handles == kind && IsEnabled(env, p.name)
  }

  lemma {:induction false} ContributedBy(env: Env, ps: seq<Procedure>, e: Event, f: Event)
    ensures f in Contributions(env, ps, e) <==> exists p :: p in ps && f in Contribution(env, p, e)
  {
    if ps != [] {
      var last, init := ps[|ps| - 1], ps[..|ps| - 1];
      assert ps == init + [last];
      ContributedBy(env, init, e, f);
    }
  }

  lemma FollowsBy(env: Env, e: Event, f: Event)
    ensures f in Next(env)(e) <==> exists p :: HandledBy(env, p, Kind(e)) && f in Contribution(env, p, e)
  {
    ContributedBy(env, Matching(env, Kind(e)), e, f);
    forall p ensures p in Matching(env, Kind(e)) <==> HandledBy(env, p, Kind(e)) { MatchingMembers(env, Kind(e), p); }
  }

  /** An event that a procedure emits. */
  ghost predicate Emits(env: Env, e: Event, f: Event) {
    exists p :: HandledBy(env, p, Kind(e)) && Judge(env, p).Permitted? && f in p.execute(e)
  }

  /** The event the executor makes in place of running a blocked handler. */
  function Made(env: Env, p: Procedure): seq<Event> {
    match Judge(env, p)
    case StoreBlocked(why) => [ConstraintViolation(p.name, p.handles, why.message, why.fix)]
    case GateBlocked(reason) => [PreActionConstraint(ActionOf(p), reason)]
    case _ => []
  }

  /** All events it can make. */
  function AllMade(env: Env): seq<Event> { Gather((p: Procedure) => Made(env, p), env.procedures) }

  lemma {:induction false} Gathered<T, U>(f: T -> seq<U>, es: seq<T>, e: T)
    requires e in es
    ensures forall u :: u in f(e) ==> u in Gather(f, es)
  {
    var last, init := es[|es| - 1], es[..|es| - 1];
    assert es == init + [last];
    if e != last { Gathered(f, init, e); }
  }

  /** Every follow-up is emitted by a procedure or made by the executor. */
  lemma EmittedOrMade(env: Env, e: Event, f: Event)
    ensures f in Next(env)(e) <==> Emits(env, e, f) || exists p :: HandledBy(env, p, Kind(e)) && f in Made(env, p)
    ensures f in Next(env)(e) ==> Emits(env, e, f) || f in AllMade(env)
  {
    FollowsBy(env, e, f);
    forall p | HandledBy(env, p, Kind(e))
      ensures f in Contribution(env, p, e) <==> (Judge(env, p).Permitted? && f in p.execute(e)) || f in Made(env, p)
      ensures f in Made(env, p) ==> f in AllMade(env)
    {
      Gathered((q: Procedure) => Made(env, q), env.procedures, p);
    }
  }

  /** What procedures emit ranks below what they handle. */
  ghost predicate EmissionsRanked(env: Env, rank: Event -> nat)
  {
    forall e, f :: Emits(env, e, f) ==> rank(f) < rank(e)
  }

  /** When emissions are ranked, a tick ends exactly when no self-made event it comes to leads back to itself. */
  lemma TickEndsIffNoReturn(env: Env, rank: Event -> nat, e: Event)
    requires EmissionsRanked(env, rank)
    ensures Drains(Next(env), [e]) <==>
      forall m :: m in AllMade(env) && Derived(Next(env), e, m) ==> !Leads(Next(env), m, m)
  {
    forall x, y | y in Next(env)(x) ensures rank(y) < rank(x) || y in AllMade(env) { EmittedOrMade(env, x, y); }
    DrainsIffNoReturn(Next(env), AllMade(env), rank, e);
  }

  // ---- Handlers of the two self-made kinds ----

  const VIOLATION := "constraint_violation"
  const PRE_ACTION := "pre_action_constraint"

  ghost predicate StoreBlocks(env: Env, kind: string)
  {
    exists p :: HandledBy(env, p, kind) && Judge(env, p).StoreBlocked?
  }

  ghost predicate GateBlocks(env: Env, kind: string) {
    exists p :: HandledBy(env, p, kind) && Judge(env, p).GateBlocked?
  }

  /** Blocked handlers answer each event of the kind with another such event, or the two kinds in turn. */
  ghost predicate Sustains(env: Env, e: Event) {
    || (e.ConstraintViolation? && StoreBlocks(env, VIOLATION))
    || (e.PreActionConstraint? && GateBlocks(env, PRE_ACTION))
    || (!e.Plain? && StoreBlocks(env, PRE_ACTION) && GateBlocks(env, VIOLATION))
  }

  lemma StoreAnswers(env: Env, e: Event)
    requires StoreBlocks(env, Kind(e))
    ensures exists f :: f in Next(env)(e) && f.ConstraintViolation?
  {
    var p :| HandledBy(env, p, Kind(e)) && Judge(env, p).StoreBlocked?;
    var f := Made(env, p)[0];
    assert f in Made(env, p) && f.ConstraintViolation?;
    EmittedOrMade(env, e, f);
  }

  lemma GateAnswers(env: Env, e: Event)
    requires GateBlocks(env, Kind(e))
    ensures exists f :: f in Next(env)(e) && f.PreActionConstraint?
  {
    var p :| HandledBy(env, p, Kind(e)) && Judge(env, p).GateBlocked?;
    var f := Made(env, p)[0];
    assert f in Made(env, p) && f.PreActionConstraint?;
    EmittedOrMade(env, e, f);
  }

  lemma SustainedGoesOn(env: Env, e: Event)
    requires Sustains(env, e)
    ensures Holds((x: Event) => Sustains(env, x), Next(env)(e))
  {
    if StoreBlocks(env, Kind(e)) {
      StoreAnswers(env, e);
    }
    if GateBlocks(env, Kind(e)) {
      GateAnswers(env, e);
    }
  }

  /** Then the loop on such an event never ends, whatever the procedures do, and no rank exists. */
  lemma SustainedDiverges(env: Env, e: Event, n: nat, rank: Event -> nat)
    requires Sustains(env, e)
    ensures Worklist(Next(env), [e], n) != []
    ensures !Ranked(Next(env), rank)
  {
    var bad := (x: Event) => Sustains(env, x);
    forall x | bad(x) ensures Holds(bad, Next(env)(x)) { SustainedGoesOn(env, x); }
    assert e in [e] && bad(e);
    NeverEmpties(Next(env), bad, [e], n);
    NeverRanked(Next(env), bad, rank, e);
  }

  /** Nothing that procedures emit on a self-made event leads to a self-made event again. */
  ghost predicate Settles(env: Env) {
    forall e: Event, f, g: Event :: !e.Plain? && Emits(env, e, f) && Derived(Next(env), f, g) ==> g.Plain?
  }

  /** No self-made event sustains itself. */
  ghost predicate NoneSustained(env: Env) {
    && !StoreBlocks(env, VIOLATION) && !GateBlocks(env, PRE_ACTION)
    && !(StoreBlocks(env, PRE_ACTION) && GateBlocks(env, VIOLATION))
  }

  /** The kind that can still make the other one comes first. */
  ghost function KindRank(env: Env, e: Event): nat {
    if e.ConstraintViolation? == GateBlocks(env, VIOLATION) then 1 else 0
  }

  lemma SelfMadeStep(env: Env, e: Event, f: Event, m: Event)
    requires Settles(env) && NoneSustained(env)
    requires !e.Plain? && !m.Plain? && f in Next(env)(e) && Derived(Next(env), f, m)
    ensures !f.Plain? && KindRank(env, f) < KindRank(env, e)
  {
    EmittedOrMade(env, e, f);
    var p :| HandledBy(env, p, Kind(e)) && f in Made(env, p);
    MadeKind(env, p, Kind(e), f);
    assert Kind(e) == if e.ConstraintViolation? then VIOLATION else PRE_ACTION;
  }

  lemma MadeKind(env: Env, p: Procedure, kind: string, f: Event)
    requires HandledBy(env, p, kind) && f in Made(env, p)
    ensures (f.ConstraintViolation? && StoreBlocks(env, kind)) || (f.PreActionConstraint? && GateBlocks(env, kind))
  {}

  lemma {:induction false} SelfMadeChain(env: Env, chain: seq<Event>)
    requires Settles(env) && NoneSustained(env) && Derivation(Next(env), chain)
    requires !chain[0].Plain? && !chain[|chain| - 1].Plain?
    ensures KindRank(env, chain[|chain| - 1]) <= KindRank(env, chain[0])
    decreases |chain|
  {
    if |chain| > 1 {
      var tail := chain[1..];
      forall i {:trigger tail[i]} | 0 < i < |tail|
        ensures tail[i] in Next(env)(tail[i - 1])
      {
        assert tail[i] == chain[i + 1];
      }
      assert Derivation(Next(env), tail) && tail[0] == chain[1] && tail[|tail| - 1] == chain[|chain| - 1];
      assert Derived(Next(env), chain[1], chain[|chain| - 1]);
      assert chain[1] in Next(env)(chain[0]);
      SelfMadeStep(env, chain[0], chain[1], chain[|chain| - 1]);
      SelfMadeChain(env, tail);
    }
  }

  lemma NoSelfMadeReturn(env: Env, m: Event)
    requires Settles(env) && NoneSustained(env) && !m.Plain?
    ensures !Leads(Next(env), m, m)
  {
    if f :| f in Next(env)(m) && Derived(Next(env), f, m) {
      SelfMadeStep(env, m, f, m);
      var chain :| Derivation(Next(env), chain) && chain[0] == f && chain[|chain| - 1] == m;
      SelfMadeChain(env, chain);
    }
  }

  lemma {:induction false} GatheredFrom<T, U>(f: T -> seq<U>, es: seq<T>, u: U)
    requires u in Gather(f, es)
    ensures exists e :: e in es && u in f(e)
  {
    var last, init := es[|es| - 1], es[..|es| - 1];
    assert es == init + [last];
    if u !in f(last) { GatheredFrom(f, init, u); }
  }

  lemma AllMadeSelfMade(env: Env, m: Event)
    requires m in AllMade(env)
    ensures !m.Plain?
  {
    GatheredFrom((p: Procedure) => Made(env, p), env.procedures, m);
  }

  /**
   * When emissions are ranked and settle, every tick ends exactly when none of the three configurations is there:
   * a store-blocked handler of violations, a gate-blocked handler of pre-action constraints, or a store-blocked
   * handler of these together with a gate-blocked handler of violations.
   */
  lemma EveryTickEndsExactly(env: Env, rank: Event -> nat)
    requires EmissionsRanked(env, rank) && Settles(env)
    ensures (forall e :: Drains(Next(env), [e])) <==> NoneSustained(env)
  {
    if NoneSustained(env) {
      forall e ensures Drains(Next(env), [e]) {
        forall m | m in AllMade(env) ensures !Leads(Next(env), m, m) {
          AllMadeSelfMade(env, m);
          NoSelfMadeReturn(env, m);
        }
        TickEndsIffNoReturn(env, rank, e);
      }
    } else {
      var v, c := ConstraintViolation("", "", "", ""), PreActionConstraint("", "");
      var e := if Sustains(env, v) then v else c;
      if Drains(Next(env), [e]) {
        var n: nat :| Worklist(Next(env), [e], n) == [];
        SustainedDiverges(env, e, n, rank);
      }
    }
  }
}
