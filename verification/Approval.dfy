/** One-shot tool approvals: the registry object, and every interleaving of its callers. */
module Approval {
  import opened Wrappers

  datatype Decision = Allow | Deny

  /** What a resolve call put into a channel. */
  datatype Sent = Sent(call: nat, decision: Decision)

  /** Where the sending half is: in the registry, in the hands of one resolve call, or gone. */
  datatype Sender = Kept | Held(call: nat) | Spent

  datatype Channel = Channel(sender: Sender, sent: Option<Sent>, listening: bool)

  const FRESH := Channel(Kept, None, true)

  /** A resolve call between taking the sender and sending, or after it has reported. */
  datatype Call = Holding(token: string, decision: Decision) | Returned(token: string, decision: Decision, woke: bool)

  datatype State = State(
    waiters: set<string>,
    channels: map<string, Channel>,
    calls: map<nat, Call>,
    outcomes: map<string, Decision>,
    alive: bool)

  const INIT := State({}, map[], map[], map[], true)

  /**
   * The atomic steps. A resolve is two: `Take` removes the waiter under the lock, `Send` fires the
   * channel after the lock is released, so other callers may come in between.
   */
  datatype Label =
    | Register(token: string)
    | Take(call: nat, token: string, decision: Decision)
    | Send(call: nat, token: string)
    | Wait(token: string)
    | DropReceiver(token: string)
    | DropRegistry

  // ---- One channel ----

  /** Sending succeeds while the other half is listening; the sender is used up either way. */
  function Fire(c: Channel, call: nat, decision: Decision): Channel {
    Channel(Spent, if c.listening then Some(Sent(call, decision)) else None, c.listening)
  }

  /** What waiting returns, when it returns: the decision sent, or deny once nobody can send. */
  function Answer(c: Channel): Option<Decision> {
    if c.sent.Some? then Some(c.sent.value.decision)
    else if c.sender == Spent then Some(Deny)
    else None
  }

  function Dismiss(channels: map<string, Channel>, tokens: set<string>): map<string, Channel> {
    map t | t in channels :: if t in tokens then channels[t].(sender := Spent) else channels[t]
  }

  /** The state after a step, if the step can happen. */
  function Next(s: State, l: Label): Option<State> {
    match l
    case Register(token) =>
      if s.alive && token !in s.channels then
        Some(s.(waiters := s.waiters + {token}, channels := s.channels[token := FRESH]))
      else None
    case Take(call, token, decision) =>
      if !s.alive || call in s.calls then None
      else if token in s.waiters && token in s.channels then
        Some(s.(waiters := s.waiters - {token},
                channels := s.channels[token := s.channels[token].(sender := Held(call))],
                calls := s.calls[call := Holding(token, decision)]))
      else Some(s.(calls := s.calls[call := Returned(token, decision, false)]))
    case Send(call, token) =>
      if call in s.calls && s.calls[call].Holding? && s.calls[call].token == token && token in s.channels then
        var decision := s.calls[call].decision;
        Some(s.(channels := s.channels[token := Fire(s.channels[token], call, decision)],
                calls := s.calls[call := Returned(token, decision, s.channels[token].listening)]))
      else None
    case Wait(token) =>
      if token in s.channels && s.channels[token].listening && Answer(s.channels[token]).Some? then
        Some(s.(channels := s.channels[token := s.channels[token].(listening := false)],
                outcomes := s.outcomes[token := Answer(s.channels[token]).value]))
      else None
    case DropReceiver(token) =>
      if token in s.channels && s.channels[token].listening then
        Some(s.(channels := s.channels[token := s.channels[token].(listening := false)]))
      else None
    case DropRegistry =>
      if s.alive && (forall c :: c in s.calls ==> s.calls[c].Returned?) then
        Some(s.(waiters := {}, channels := Dismiss(s.channels, s.waiters), alive := false))
      else None
  }

  function Run(s: State, ls: seq<Label>): Option<State> {
    if ls == [] then Some(s)
    else
      match Run(s, ls[..|ls| - 1])
      case None => None
      case Some(t) => Next(t, ls[|ls| - 1])
  }

  // ---- What every step keeps ----

  ghost predicate ChannelInv(s: State, t: string)
    requires t in s.channels
  {
    var c := s.channels[t];
    && (c.sender == Kept <==> t in s.waiters)
    && (c.sender.Held? ==>
          c.sender.call in s.calls && s.calls[c.sender.call].Holding? && s.calls[c.sender.call].token == t)
    && (c.sent.Some? ==>
          && c.sender == Spent && c.sent.value.call in s.calls
          && s.calls[c.sent.value.call] == Returned(t, c.sent.value.decision, true))
    && (t in s.outcomes ==> !c.listening && Answer(c) == Some(s.outcomes[t]))
  }

  ghost predicate CallInv(s: State, k: nat)
    requires k in s.calls
  {
    match s.calls[k]
    case Holding(t, _) => t in s.channels && s.channels[t].sender == Held(k)
    case Returned(t, d, woke) => woke ==> t in s.channels && s.channels[t].sent == Some(Sent(k, d))
  }

  ghost predicate Inv(s: State) {
    && s.waiters <= s.channels.Keys && s.outcomes.Keys <= s.channels.Keys
    && (forall t :: t in s.channels ==> ChannelInv(s, t))
    && (forall k :: k in s.calls ==> CallInv(s, k))
  }

  lemma StepKeeps(s: State, l: Label, s': State)
    requires Inv(s) && Next(s, l) == Some(s')
    ensures Inv(s')
  {
    forall t | t in s'.channels ensures ChannelInv(s', t) { ChannelKept(s, l, s', t); }
    forall k | k in s'.calls ensures CallInv(s', k) { CallKept(s, l, s', k); }
  }

  lemma ChannelKept(s: State, l: Label, s': State, t: string)
    requires Inv(s) && Next(s, l) == Some(s') && t in s'.channels
    ensures ChannelInv(s', t)
  {
    if l.Take? {
      TakeKeepsChannel(s, l.call, l.token, l.decision, s', t);
    } else if l.Send? {
      SendKeepsChannel(s, l.call, l.token, s', t);
    } else if t in s.channels {
      assert ChannelInv(s, t);
    }
  }

  lemma TakeKeepsChannel(s: State, call: nat, token: string, decision: Decision, s': State, t: string)
    requires Inv(s) && Next(s, Take(call, token, decision)) == Some(s') && t in s'.channels
    ensures ChannelInv(s', t)
  {
    assert ChannelInv(s, t);
  }

  lemma SendKeepsChannel(s: State, call: nat, token: string, s': State, t: string)
    requires Inv(s) && Next(s, Send(call, token)) == Some(s') && t in s'.channels
    ensures ChannelInv(s', t)
  {
    assert ChannelInv(s, t) && CallInv(s, call);
  }

  lemma CallKept(s: State, l: Label, s': State, k: nat)
    requires Inv(s) && Next(s, l) == Some(s') && k in s'.calls
    ensures CallInv(s', k)
  {
    if k in s.calls { assert CallInv(s, k); }
  }

  lemma {:induction false} RunKeeps(ls: seq<Label>)
    requires Run(INIT, ls).Some?
    ensures Inv(Run(INIT, ls).value)
  {
    if ls != [] {
      RunKeeps(ls[..|ls| - 1]);
      StepKeeps(Run(INIT, ls[..|ls| - 1]).value, ls[|ls| - 1], Run(INIT, ls).value);
    }
  }

  // ---- Safety over whole runs ----

  ghost predicate Woke(s: State, call: nat, token: string, decision: Decision) {
    call in s.calls && s.calls[call] == Returned(token, decision, true)
  }

  /** At most one resolve of a token ever reports that it woke the waiter. */
  lemma OneResolveWakes(ls: seq<Label>, t: string, a: nat, b: nat, d: Decision, e: Decision)
    requires Run(INIT, ls).Some? && Woke(Run(INIT, ls).value, a, t, d) && Woke(Run(INIT, ls).value, b, t, e)
    ensures a == b && d == e
  {
    var s := Run(INIT, ls).value;
    RunKeeps(ls);
    assert CallInv(s, a) && CallInv(s, b);
  }

  /** A waiter returns what the waking resolve decided, or deny when none woke it. */
  lemma OutcomeExplained(ls: seq<Label>, t: string)
    requires Run(INIT, ls).Some? && t in Run(INIT, ls).value.outcomes
    ensures var s := Run(INIT, ls).value; var d := s.outcomes[t];
      (exists call :: Woke(s, call, t, d)) || (d == Deny && forall call, e :: !Woke(s, call, t, e))
  {
    var s := Run(INIT, ls).value;
    RunKeeps(ls);
    assert ChannelInv(s, t);
    if s.channels[t].sent.Some? {
      assert Woke(s, s.channels[t].sent.value.call, t, s.outcomes[t]);
    } else {
      forall call, e ensures !Woke(s, call, t, e) { if call in s.calls { assert CallInv(s, call); } }
    }
  }

  /** A waiter proceeds only if its own token was resolved with allow. */
  lemma AllowOnlyWhenAllowed(ls: seq<Label>, t: string)
    requires Run(INIT, ls).Some? && t in Run(INIT, ls).value.outcomes && Run(INIT, ls).value.outcomes[t] == Allow
    ensures exists call :: Woke(Run(INIT, ls).value, call, t, Allow)
  {
    OutcomeExplained(ls, t);
  }

  /** A waiter is blocked exactly while its sender is in the registry or in a resolve call. */
  lemma BlockedExactlyWhilePending(ls: seq<Label>, t: string)
    requires Run(INIT, ls).Some?
    requires t in Run(INIT, ls).value.channels && Run(INIT, ls).value.channels[t].listening
    ensures var s := Run(INIT, ls).value;
      Next(s, Wait(t)).None? <==>
        t in s.waiters || exists k :: k in s.calls && s.calls[k].Holding? && s.calls[k].token == t
  {
    var s := Run(INIT, ls).value;
    RunKeeps(ls);
    assert ChannelInv(s, t);
    if k :| k in s.calls && s.calls[k].Holding? && s.calls[k].token == t { assert CallInv(s, k); }
  }

  /** Dropping the registry fails closed: every waiter nobody resolved can return, and returns deny. */
  lemma DroppedRegistryDenies(ls: seq<Label>, t: string)
    requires Run(INIT, ls).Some? && Next(Run(INIT, ls).value, DropRegistry).Some? && t in Run(INIT, ls).value.waiters
    requires t in Run(INIT, ls).value.channels && Run(INIT, ls).value.channels[t].listening
    ensures var s := Next(Run(INIT, ls).value, DropRegistry).value;
      Next(s, Wait(t)).Some? && Next(s, Wait(t)).value.outcomes[t] == Deny
  {
    RunKeeps(ls);
    assert ChannelInv(Run(INIT, ls).value, t);
  }

  /** A resolve that nobody disturbs wakes a listening waiter with exactly its decision. */
  lemma ResolveThenWait(ls: seq<Label>, call: nat, t: string, d: Decision)
    requires Run(INIT, ls).Some? && Run(INIT, ls).value.alive && call !in Run(INIT, ls).value.calls
    requires t in Run(INIT, ls).value.waiters
    requires t in Run(INIT, ls).value.channels && Run(INIT, ls).value.channels[t].listening
    ensures var s := Run(INIT, ls + [Take(call, t, d), Send(call, t), Wait(t)]);
      s.Some? && Woke(s.value, call, t, d) && t in s.value.outcomes && s.value.outcomes[t] == d
  {
    var one, two := ls + [Take(call, t, d)], ls + [Take(call, t, d), Send(call, t)];
    var all := ls + [Take(call, t, d), Send(call, t), Wait(t)];
    RunKeeps(ls);
    assert ChannelInv(Run(INIT, ls).value, t);
    assert one[..|one| - 1] == ls && two[..|two| - 1] == one && all[..|all| - 1] == two;
    assert Run(INIT, one) == Next(Run(INIT, ls).value, Take(call, t, d));
    assert Run(INIT, two) == Next(Run(INIT, one).value, Send(call, t));
    assert Run(INIT, all) == Next(Run(INIT, two).value, Wait(t));
  }

  // ---- One token does not touch another ----

  /** The steps that concern a token: its own, and the end of the registry. */
  predicate Concerns(l: Label, t: string) {
    match l
    case Register(token) => token == t
    case Take(_, token, _) => token == t
    case Send(_, token) => token == t
    case Wait(token) => token == t
    case DropReceiver(token) => token == t
    case DropRegistry => true
  }

  function At<V>(m: map<string, V>, t: string): map<string, V> { if t in m then map[t := m[t]] else map[] }

  function CallsOf(calls: map<nat, Call>, t: string): map<nat, Call> {
    map k | k in calls && calls[k].token == t :: calls[k]
  }

  /** The part of the state that belongs to one token. */
  function View(s: State, t: string): State {
    State(s.waiters * {t}, At(s.channels, t), CallsOf(s.calls, t), At(s.outcomes, t), s.alive)
  }

  lemma AtUpdated<V>(m: map<string, V>, k: string, v: V, t: string)
    ensures At(m[k := v], t) == if k == t then At(m, t)[k := v] else At(m, t)
  {}

  lemma CallsUpdated(calls: map<nat, Call>, k: nat, c: Call, t: string)
    requires k in calls ==> calls[k].token == c.token
    ensures CallsOf(calls[k := c], t) == if c.token == t then CallsOf(calls, t)[k := c] else CallsOf(calls, t)
  {}

  /** Any step changes what one token sees as the same step would change that alone, or not at all. */
  lemma StepOnView(s: State, l: Label, s': State, t: string)
    requires Inv(s) && Next(s, l) == Some(s')
    ensures Concerns(l, t) ==> Next(View(s, t), l) == Some(View(s', t))
    ensures !Concerns(l, t) ==> View(s', t) == View(s, t)
  {
    match l {
      case Register(token) =>
        AtUpdated(s.channels, token, FRESH, t);
        assert s'.waiters * {t} == if token == t then s.waiters * {t} + {token} else s.waiters * {t};
      case Take(call, token, decision) => TakeOnView(s, call, token, decision, s', t);
      case Send(call, token) => SendOnView(s, call, token, s', t);
      case Wait(token) =>
        AtUpdated(s.channels, token, s'.channels[token], t);
        AtUpdated(s.outcomes, token, s'.outcomes[token], t);
      case DropReceiver(token) => AtUpdated(s.channels, token, s'.channels[token], t);
      case DropRegistry =>
        assert At(s'.channels, t) == Dismiss(At(s.channels, t), s.waiters * {t});
        assert s'.waiters * {t} == {};
    }
  }

  lemma TakeOnView(s: State, call: nat, token: string, decision: Decision, s': State, t: string)
    requires Inv(s) && Next(s, Take(call, token, decision)) == Some(s')
    ensures token == t ==> Next(View(s, t), Take(call, token, decision)) == Some(View(s', t))
    ensures token != t ==> View(s', t) == View(s, t)
  {
    CallsUpdated(s.calls, call, s'.calls[call], t);
    if token in s.waiters {
      AtUpdated(s.channels, token, s'.channels[token], t);
      assert s'.waiters * {t} == if token == t then s.waiters * {t} - {token} else s.waiters * {t};
    }
  }

  lemma SendOnView(s: State, call: nat, token: string, s': State, t: string)
    requires Inv(s) && Next(s, Send(call, token)) == Some(s')
    ensures token == t ==> Next(View(s, t), Send(call, token)) == Some(View(s', t))
    ensures token != t ==> View(s', t) == View(s, t)
  {
    assert CallInv(s, call);
    AtUpdated(s.channels, token, s'.channels[token], t);
    CallsUpdated(s.calls, call, s'.calls[call], t);
  }

  function OwnSteps(ls: seq<Label>, t: string): seq<Label> {
    if ls == [] then []
    else OwnSteps(ls[..|ls| - 1], t) + (if Concerns(ls[|ls| - 1], t) then [ls[|ls| - 1]] else [])
  }

  /** Deleting every step about other tokens leaves a run, and all that a token sees of it is the same. */
  lemma {:induction false} OnlyOwnStepsMatter(ls: seq<Label>, t: string)
    requires Run(INIT, ls).Some?
    ensures Run(INIT, OwnSteps(ls, t)) == Some(View(Run(INIT, ls).value, t))
  {
    if ls == [] {
      assert View(INIT, t) == INIT;
    } else {
      var init, l := ls[..|ls| - 1], ls[|ls| - 1];
      OnlyOwnStepsMatter(init, t);
      RunKeeps(init);
      StepOnView(Run(INIT, init).value, l, Run(INIT, ls).value, t);
      if Concerns(l, t) {
        var own := OwnSteps(ls, t);
        assert own[..|own| - 1] == OwnSteps(init, t);
      } else {
        assert OwnSteps(ls, t) == OwnSteps(init, t);
      }
    }
  }

  /** Two runs that agree on a token's own steps end with the same outcome for it. */
  lemma OutcomesIndependent(ls: seq<Label>, ks: seq<Label>, t: string)
    requires Run(INIT, ls).Some? && Run(INIT, ks).Some? && OwnSteps(ls, t) == OwnSteps(ks, t)
    ensures var s, r := Run(INIT, ls).value, Run(INIT, ks).value;
      (t in s.outcomes <==> t in r.outcomes) && (t in s.outcomes ==> s.outcomes[t] == r.outcomes[t])
  {
    OnlyOwnStepsMatter(ls, t);
    OnlyOwnStepsMatter(ks, t);
    var v, w := View(Run(INIT, ls).value, t), View(Run(INIT, ks).value, t);
    assert v.outcomes == w.outcomes;
    assert t in v.outcomes <==> t in Run(INIT, ls).value.outcomes;
    assert t in w.outcomes <==> t in Run(INIT, ks).value.outcomes;
  }

  /** Both halves of a resolve with nothing in between. */
  function Resolved(s: State, token: string, decision: Decision, call: nat): Option<State> {
    if token !in s.waiters then Next(s, Take(call, token, decision))
    else
      match Next(s, Take(call, token, decision))
      case None => None
      case Some(taken) => Next(taken, Send(call, token))
  }

  /** Some run leads to the state. */
  ghost predicate Reached(s: State) { exists ls :: Run(INIT, ls) == Some(s) }

  lemma ReachedNext(s: State, l: Label, s': State)
    requires Reached(s) && Next(s, l) == Some(s')
    ensures Reached(s') && Inv(s)
  {
    var ls :| Run(INIT, ls) == Some(s);
    RunKeeps(ls);
    assert (ls + [l])[..|ls|] == ls;
    assert Run(INIT, ls + [l]) == Some(s');
  }

  lemma RegisteredState(s: State, token: string)
    requires Reached(s) && s.alive && token !in s.channels
    ensures Next(s, Register(token)) == Some(s.(waiters := s.waiters + {token}, channels := s.channels[token := FRESH]))
    ensures Reached(Next(s, Register(token)).value) && token !in s.waiters
  {
    ReachedNext(s, Register(token), Next(s, Register(token)).value);
  }

  /** Taking an absent waiter reports at once; taking one that is there holds its sender. */
  lemma TakenState(s: State, token: string, decision: Decision, call: nat) returns (s': State)
    requires Reached(s) && s.alive && call !in s.calls
    ensures Next(s, Take(call, token, decision)) == Some(s') && Reached(s')
    ensures token !in s.waiters ==>
      && s' == s.(calls := s.calls[call := Returned(token, decision, false)])
      && Resolved(s, token, decision, call) == Some(s')
    ensures token in s.waiters ==>
      && token in s.channels && s.channels[token].sender == Kept && s.channels[token].sent == None
      && s' == s.(
           waiters := s.waiters - {token},
           channels := s.channels[token := s.channels[token].(sender := Held(call))],
           calls := s.calls[call := Holding(token, decision)])
  {
    s' := Next(s, Take(call, token, decision)).value;
    ReachedNext(s, Take(call, token, decision), s');
    if token in s.waiters { assert ChannelInv(s, token); }
  }

  /** Sending from there can always happen. */
  lemma SentState(before: State, s: State, token: string, decision: Decision, call: nat) returns (s': State)
    requires Reached(before) && before.alive && call !in before.calls && token in before.waiters
    requires Next(before, Take(call, token, decision)) == Some(s)
    ensures Resolved(before, token, decision, call) == Some(s') && Reached(s')
    ensures token in s.channels && s' == s.(
      channels := s.channels[token := Fire(s.channels[token], call, decision)],
      calls := s.calls[call := Returned(token, decision, s.channels[token].listening)])
  {
    var taken := TakenState(before, token, decision, call);
    s' := Next(s, Send(call, token)).value;
    ReachedNext(s, Send(call, token), s');
  }

  // ---- The objects ----

  /** A one-shot channel; both halves refer to it. */
  class Oneshot {
    var decision: Option<Decision>
    var spent: bool
    var listening: bool

    constructor ()
      ensures decision == None && !spent && listening
    {
      decision, spent, listening := None, false, true;
    }

    ghost predicate Is(c: Channel)
      reads this
    {
      && listening == c.listening && (spent <==> c.sender == Spent)
      && decision == if c.sent.Some? then Some(c.sent.value.decision) else None
    }

    method Send(d: Decision) returns (ok: bool)
      modifies this
      ensures ok == old(listening) && spent && listening == old(listening)
      ensures decision == if ok then Some(d) else None
    {
      ok, spent := listening, true;
      decision := if ok then Some(d) else None;
    }

    /** Waiting returns once something was sent or nobody can send any more. */
    method Receive(ghost c: Channel) returns (d: Decision)
      requires Is(c) && listening && Answer(c).Some?
      modifies this
      ensures Some(d) == Answer(c) && Is(c.(listening := false))
    {
      d := if decision.Some? then decision.value else Deny;
      listening := false;
    }
  }

  /** The registry; `state` is the state of the step machine it stands for, `issued` every channel it made. */
  class ApprovalRegistry {
    var waiters: map<string, Oneshot>
    ghost var state: State
    ghost var issued: map<string, Oneshot>

    ghost predicate Valid()
      reads this, issued.Values
    {
      && Reached(state) && state.alive
      && waiters.Keys == state.waiters && issued.Keys == state.channels.Keys
      && (forall t :: t in waiters ==> t in issued && waiters[t] == issued[t])
      && (forall t, u :: t in issued && u in issued && issued[t] == issued[u] ==> t == u)
      && (forall t :: t in issued ==> issued[t].Is(state.channels[t]))
    }

    constructor ()
      ensures Valid() && state == INIT
    {
      waiters, state, issued := map[], INIT, map[];
      assert Run(INIT, []) == Some(INIT);
    }

    /** The token is fresh: nobody was given it before. */
    method Register(token: string) returns (pending: Oneshot)
      requires Valid() && token !in state.channels
      modifies this
      ensures Valid() && fresh(pending) && issued == old(issued)[token := pending]
      ensures Next(old(state), Label.Register(token)) == Some(state)
    {
      RegisteredState(state, token);
      pending := new Oneshot();
      assert pending.Is(FRESH) && forall t :: t in issued ==> issued[t] != pending && issued[t].Is(state.channels[t]);
      ghost var channels := state.channels;
      waiters, issued := waiters[token := pending], issued[token := pending];
      state := Next(state, Label.Register(token)).value;
      forall t | t in issued ensures issued[t].Is(state.channels[t]) {
        if t != token { assert state.channels[t] == channels[t]; }
      }
    }

    /** The part under the lock: the waiter leaves the map, and its sender goes to the caller. */
    method TakeWaiter(token: string, ghost decision: Decision, ghost call: nat) returns (sender: Option<Oneshot>)
      requires Valid() && call !in state.calls
      modifies this
      ensures Valid() && issued == old(issued) && waiters == old(waiters) - {token}
      ensures Next(old(state), Take(call, token, decision)) == Some(state)
      ensures sender == if token in old(waiters) then Some(old(waiters)[token]) else None
    {
      ghost var s' := TakenState(state, token, decision, call);
      state := s';
      sender := if token in waiters then Some(waiters[token]) else None;
      waiters := waiters - {token};
    }

    /** Removes the waiter, then fires its channel. */
    method Resolve(token: string, decision: Decision, ghost call: nat) returns (woke: bool)
      requires Valid() && call !in state.calls
      modifies this, issued.Values
      ensures Valid() && issued == old(issued)
      ensures woke == (token in old(waiters) && old(waiters[token].listening))
      ensures Woke(state, call, token, decision) <==> woke
      ensures Resolved(old(state), token, decision, call) == Some(state)
    {
      ghost var before := state;
      var sender := TakeWaiter(token, decision, call);
      ghost var taken := TakenState(before, token, decision, call);
      if sender.None? { return false; }
      ghost var s := state;
      ghost var s' := SentState(before, s, token, decision, call);
      assert sender.value == issued[token] && sender.value.Is(s.channels[token]);
      state := s';
      woke := sender.value.Send(decision);
      assert sender.value.Is(Fire(s.channels[token], call, decision));
      forall t | t in issued ensures issued[t].Is(state.channels[t]) {
        if t != token { assert issued[t] != sender.value && issued[t].Is(s.channels[t]); }
      }
    }

    method PendingCount() returns (n: nat)
      requires Valid()
      ensures n == |state.waiters|
    {
      n := |waiters|;
      assert |waiters| == |waiters.Keys|;
    }
  }
}
