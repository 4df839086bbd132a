/** The task scheduler: its map of tasks, its tick loop, and whole interleaved runs. */
module Scheduler {
  import opened Wrappers
  import opened Cron

  /** Times are nanoseconds. */
  const SECOND: int := 1_000_000_000

  datatype Schedule = Interval(everySecs: nat) | Cron(expr: string) | Once(at: int)

  datatype Task = Task(
    id: string,
    schedule: Schedule,
    command: string,
    enabled: bool,
    lastRun: Option<int>,
    lastResult: Option<string>)

  type Calendar = int -> Civil

  /** Whole seconds of a duration, rounded toward zero. */
  function WholeSeconds(d: int): int {
    if d >= 0 then d / SECOND else -((-d) / SECOND)
  }

  predicate IsDue(t: Task, now: int, calendar: Calendar) {
    match t.schedule
    case Interval(every) => t.lastRun.None? || now - t.lastRun.value >= every * SECOND
    case Once(at) => t.lastRun.None? && now >= at
    case Cron(expr) =>
      MatchesExpr(expr, calendar(now)) && (t.lastRun.None? || WholeSeconds(now - t.lastRun.value) >= 60)
  }

  // ---- Updates of the task map ----

  type Tasks = map<string, Task>

  function Marked(tasks: Tasks, id: string, now: int): Tasks {
    if id in tasks then tasks[id := tasks[id].(lastRun := Some(now))] else tasks
  }

  /** Output is cut at 500 characters; a failed execution leaves its error text. */
  function ResultText(outcome: Result<string, string>): string {
    match outcome
    case Ok(text) => if |text| > 500 then text[..500] + "..." else text
    case Err(e) => "ERROR: " + e
  }

  function Completed(tasks: Tasks, id: string, now: int, outcome: Result<string, string>): Tasks {
    if id in tasks
    then tasks[id := tasks[id].(lastRun := Some(now), lastResult := Some(ResultText(outcome)))]
    else tasks
  }

  function Switched(tasks: Tasks, id: string, enabled: bool): Tasks {
    if id in tasks then tasks[id := tasks[id].(enabled := enabled)] else tasks
  }

  ghost predicate IsSnapshot(due: seq<Task>, tasks: Tasks, now: int, calendar: Calendar) {
    && (forall i, j :: 0 <= i < |due| && 0 <= j < |due| && due[i].id == due[j].id ==> i == j)
    && (forall t :: t in due <==> t.id in tasks && tasks[t.id] == t && t.enabled && IsDue(t, now, calendar))
  }

  /** The shared task map; each method is one critical section. */
  class TaskTable {
    var tasks: Tasks

    ghost predicate Valid()
      reads this
    {
      forall id :: id in tasks ==> tasks[id].id == id
    }

    constructor ()
      ensures Valid() && tasks == map[]
    {
      tasks := map[];
    }

    method Add(t: Task)
      requires Valid()
      modifies this
      ensures Valid() && tasks == old(tasks)[t.id := t]
    {
      tasks := tasks[t.id := t];
    }

    method Remove(id: string) returns (existed: bool)
      requires Valid()
      modifies this
      ensures Valid() && tasks == old(tasks) - {id} && (existed <==> id in old(tasks))
    {
      existed := id in tasks;
      tasks := tasks - {id};
    }

    method SetEnabled(id: string, enabled: bool) returns (found: bool)
      requires Valid()
      modifies this
      ensures Valid() && tasks == Switched(old(tasks), id, enabled) && (found <==> id in old(tasks))
    {
      if id !in tasks { return false; }
      tasks := tasks[id := tasks[id].(enabled := enabled)];
      return true;
    }

    /** The read-locked scan of one tick: clones of the enabled tasks that are due, in map order. */
    method Scan(now: int, calendar: Calendar) returns (due: seq<Task>)
      requires Valid()
      ensures IsSnapshot(due, tasks, now, calendar)
    {
      due := [];
      var todo := tasks.Keys;
      while todo != {}
        invariant todo <= tasks.Keys
        invariant forall i, j :: 0 <= i < |due| && 0 <= j < |due| && due[i].id == due[j].id ==> i == j
        invariant forall t :: t in due <==>
          t.id in tasks && t.id !in todo && tasks[t.id] == t && t.enabled && IsDue(t, now, calendar)
        decreases todo
      {
        var id :| id in todo;
        var t := tasks[id];
        if t.enabled {
          if IsDue(t, now, calendar) {
            forall i | 0 <= i < |due| ensures due[i].id != id { assert due[i] in due; }
            due := due + [t];
          }
        }
        todo := todo - {id};
      }
    }

    method MarkRun(id: string, now: int)
      requires Valid()
      modifies this
      ensures Valid() && tasks == Marked(old(tasks), id, now)
      ensures id !in old(tasks) ==> tasks == old(tasks)
      ensures id in old(tasks) ==> tasks == old(tasks)[id := old(tasks)[id].(lastRun := Some(now))]
    {
      if id in tasks { tasks := tasks[id := tasks[id].(lastRun := Some(now))]; }
    }

    method Complete(id: string, now: int, outcome: Result<string, string>)
      requires Valid()
      modifies this
      ensures Valid() && tasks == Completed(old(tasks), id, now, outcome)
      ensures id !in old(tasks) ==> tasks == old(tasks)
      ensures id in old(tasks) ==>
        var result := match outcome
                      case Ok(text) => if |text| <= 500 then text else text[..500] + "..."
                      case Err(e) => "ERROR: " + e;
        tasks == old(tasks)[id := old(tasks)[id].(lastRun := Some(now), lastResult := Some(result))]
    {
      if id in tasks {
        tasks := tasks[id := tasks[id].(lastRun := Some(now), lastResult := Some(ResultText(outcome)))];
      }
    }
  }

  // ---- Whole runs ----

  datatype Dispatch = Dispatch(id: string, at: int)

  /** Between ticks, or working through the due tasks of a tick; `spawned`: the head awaits its mark. */
  datatype Phase = Idle | Running(now: int, queue: seq<Task>, spawned: bool)

  /** `plan` remembers the schedule of every id ever added, `log` every dispatch. */
  datatype State = State(
    tasks: Tasks,
    plan: map<string, Schedule>,
    clock: int,
    phase: Phase,
    log: seq<Dispatch>,
    inflight: multiset<string>)

  datatype Step =
    | Scan(at: int, due: seq<Task>)
    | Spawn
    | Mark
    | EndTick
    | Complete(id: string, at: int, outcome: Result<string, string>)
    | SetEnabled(id: string, enabled: bool)
    | Remove(id: string)
    | Add(task: Task)

  /** When a step can happen: one loop, a clock that never goes back, ids never re-added. */
  ghost predicate CanStep(s: State, step: Step, calendar: Calendar) {
    match step
    case Scan(at, due) => s.phase.Idle? && at >= s.clock && IsSnapshot(due, s.tasks, at, calendar)
    case Spawn => s.phase.Running? && s.phase.queue != [] && !s.phase.spawned
    case Mark => s.phase.Running? && s.phase.queue != [] && s.phase.spawned
    case EndTick => s.phase.Running? && s.phase.queue == []
    case Complete(id, at, _) => id in s.inflight && at >= s.clock
    case SetEnabled(_, _) => true
    case Remove(_) => true
    case Add(t) => t.id !in s.plan
  }

  function Next(s: State, step: Step): State {
    match step
    case Scan(at, due) => s.(clock := at, phase := Running(at, due, false))
    case Spawn =>
      if s.phase.Running? && s.phase.queue != [] then
        var id := s.phase.queue[0].id;
        s.(phase := s.phase.(spawned := true),
           log := s.log + [Dispatch(id, s.phase.now)],
           inflight := s.inflight + multiset{id})
      else s
    case Mark =>
      if s.phase.Running? && s.phase.queue != [] then
        s.(tasks := Marked(s.tasks, s.phase.queue[0].id, s.phase.now),
           phase := Running(s.phase.now, s.phase.queue[1..], false))
      else s
    case EndTick => s.(phase := Idle)
    case Complete(id, at, outcome) =>
      s.(tasks := Completed(s.tasks, id, at, outcome), clock := at, inflight := s.inflight - multiset{id})
    case SetEnabled(id, enabled) => s.(tasks := Switched(s.tasks, id, enabled))
    case Remove(id) => s.(tasks := s.tasks - {id})
    case Add(t) => s.(tasks := s.tasks[t.id := t], plan := s.plan[t.id := t.schedule])
  }

  ghost predicate IsRun(s: State, steps: seq<Step>, calendar: Calendar)
    decreases |steps|
  {
    steps == [] || (CanStep(s, steps[0], calendar) && IsRun(Next(s, steps[0]), steps[1..], calendar))
  }

  function After(s: State, steps: seq<Step>): State
    decreases |steps|
  {
    if steps == [] then s else After(Next(s, steps[0]), steps[1..])
  }

  /** Nothing dispatched yet; tasks loaded from anywhere, with any last run. */
  ghost predicate Initial(s: State) {
    && s.phase.Idle? && s.log == [] && s.inflight == multiset{}
    && (forall id :: id in s.tasks ==> s.tasks[id].id == id)
    && s.plan.Keys == s.tasks.Keys && forall id :: id in s.tasks ==> s.plan[id] == s.tasks[id].schedule
  }

  // ---- The invariant ----

  /** The last dispatch belongs to the head of the queue and awaits its mark. */
  predicate AwaitsMark(s: State, i: nat)
    requires i < |s.log|
  {
    && s.phase.Running? && s.phase.spawned && s.phase.queue != []
    && i == |s.log| - 1 && s.log[i] == Dispatch(s.phase.queue[0].id, s.phase.now)
  }

  ghost predicate Consistent(s: State) {
    && (forall id :: id in s.tasks ==> s.tasks[id].id == id && id in s.plan && s.plan[id] == s.tasks[id].schedule)
    && (forall i :: 0 <= i < |s.log| ==> s.log[i].id in s.plan && s.log[i].at <= s.clock)
    && (s.phase.Running? ==>
          && s.phase.now <= s.clock
          && (forall i, j ::
                0 <= i < |s.phase.queue| && 0 <= j < |s.phase.queue| && s.phase.queue[i].id == s.phase.queue[j].id ==>
                i == j)
          && (s.phase.spawned ==> s.phase.queue != [] && s.log != [] && AwaitsMark(s, |s.log| - 1)))
  }

  /** A stored last run is never before a dispatch of the task, mark pending aside. */
  ghost predicate LastRunCovers(s: State) {
    forall i :: 0 <= i < |s.log| && s.log[i].id in s.tasks && !AwaitsMark(s, i) ==>
      s.tasks[s.log[i].id].lastRun.Some? && s.log[i].at <= s.tasks[s.log[i].id].lastRun.value
  }

  /** Queued snapshots were due at the tick, and their last run covers all earlier dispatches. */
  ghost predicate QueueDue(s: State, calendar: Calendar) {
    s.phase.Running? ==> forall t :: t in s.phase.queue ==>
      && t.id in s.plan && s.plan[t.id] == t.schedule && IsDue(t, s.phase.now, calendar)
      && forall i :: 0 <= i < |s.log| && s.log[i].id == t.id && !AwaitsMark(s, i) ==>
           t.lastRun.Some? && s.log[i].at <= t.lastRun.value
  }

  /** Two dispatches of one task, by its schedule. */
  ghost predicate Apart(schedule: Schedule, first: int, second: int) {
    match schedule
    case Interval(every) => second - first >= every * SECOND
    case Cron(_) => second - first >= 60 * SECOND
    case Once(_) => false
  }

  ghost predicate Spaced(s: State) {
    forall i, j :: 0 <= i < j < |s.log| && s.log[i].id == s.log[j].id && s.log[j].id in s.plan ==>
      Apart(s.plan[s.log[j].id], s.log[i].at, s.log[j].at)
  }

  /** One dispatch at a permitted time. */
  ghost predicate Timely(schedule: Schedule, at: int, calendar: Calendar) {
    match schedule
    case Interval(_) => true
    case Cron(expr) => MatchesExpr(expr, calendar(at))
    case Once(due) => at >= due
  }

  ghost predicate AllTimely(s: State, calendar: Calendar) {
    forall i :: 0 <= i < |s.log| && s.log[i].id in s.plan ==> Timely(s.plan[s.log[i].id], s.log[i].at, calendar)
  }

  ghost predicate Inv(s: State, calendar: Calendar) {
    Consistent(s) && LastRunCovers(s) && QueueDue(s, calendar) && Spaced(s) && AllTimely(s, calendar)
  }

  lemma ScanKeeps(s: State, at: int, due: seq<Task>, calendar: Calendar)
    requires Inv(s, calendar) && CanStep(s, Scan(at, due), calendar)
    ensures Inv(Next(s, Scan(at, due)), calendar)
  {}

  lemma SpawnKeeps(s: State, calendar: Calendar)
    requires Inv(s, calendar) && CanStep(s, Spawn, calendar)
    ensures Inv(Next(s, Spawn), calendar)
  {}

  lemma MarkKeeps(s: State, calendar: Calendar)
    requires Inv(s, calendar) && CanStep(s, Mark, calendar)
    ensures Inv(Next(s, Mark), calendar)
  {
    MarkCovers(s, calendar);
    MarkQueue(s, calendar);
  }

  lemma MarkCovers(s: State, calendar: Calendar)
    requires Inv(s, calendar) && CanStep(s, Mark, calendar)
    ensures LastRunCovers(Next(s, Mark))
  {}

  lemma MarkQueue(s: State, calendar: Calendar)
    requires Inv(s, calendar) && CanStep(s, Mark, calendar)
    ensures QueueDue(Next(s, Mark), calendar)
  {}

  lemma CompleteKeeps(s: State, id: string, at: int, outcome: Result<string, string>, calendar: Calendar)
    requires Inv(s, calendar) && CanStep(s, Complete(id, at, outcome), calendar)
    ensures Inv(Next(s, Complete(id, at, outcome)), calendar)
  {}

  lemma AddKeeps(s: State, t: Task, calendar: Calendar)
    requires Inv(s, calendar) && CanStep(s, Add(t), calendar)
    ensures Inv(Next(s, Add(t)), calendar)
  {}

  lemma SwitchKeeps(s: State, id: string, enabled: bool, calendar: Calendar)
    requires Inv(s, calendar)
    ensures Inv(Next(s, SetEnabled(id, enabled)), calendar)
  {
    SwitchConsistent(s, id, enabled);
    SwitchCovers(s, id, enabled);
    SwitchQueue(s, id, enabled, calendar);
  }

  lemma SwitchConsistent(s: State, id: string, enabled: bool)
    requires Consistent(s)
    ensures Consistent(Next(s, SetEnabled(id, enabled)))
  {}

  lemma SwitchCovers(s: State, id: string, enabled: bool)
    requires LastRunCovers(s)
    ensures LastRunCovers(Next(s, SetEnabled(id, enabled)))
  {
    assert forall i :: 0 <= i < |s.log| ==> AwaitsMark(Next(s, SetEnabled(id, enabled)), i) == AwaitsMark(s, i);
  }

  lemma SwitchQueue(s: State, id: string, enabled: bool, calendar: Calendar)
    requires QueueDue(s, calendar)
    ensures QueueDue(Next(s, SetEnabled(id, enabled)), calendar)
  {
    assert forall i :: 0 <= i < |s.log| ==> AwaitsMark(Next(s, SetEnabled(id, enabled)), i) == AwaitsMark(s, i);
  }

  lemma RemoveKeeps(s: State, id: string, calendar: Calendar)
    requires Inv(s, calendar)
    ensures Inv(Next(s, Remove(id)), calendar)
  {
    assert forall i :: 0 <= i < |s.log| ==> AwaitsMark(Next(s, Remove(id)), i) == AwaitsMark(s, i);
  }

  /** Every step of every interleaving keeps the invariant. */
  lemma StepKeeps(s: State, step: Step, calendar: Calendar)
    requires Inv(s, calendar) && CanStep(s, step, calendar)
    ensures Inv(Next(s, step), calendar)
  {
    match step
    case Scan(at, due) => ScanKeeps(s, at, due, calendar);
    case Spawn => SpawnKeeps(s, calendar);
    case Mark => MarkKeeps(s, calendar);
    case EndTick =>
    case Complete(id, at, outcome) => CompleteKeeps(s, id, at, outcome, calendar);
    case SetEnabled(id, enabled) => SwitchKeeps(s, id, enabled, calendar);
    case Remove(id) => RemoveKeeps(s, id, calendar);
    case Add(t) => AddKeeps(s, t, calendar);
  }

  lemma {:induction false} RunKeeps(s: State, steps: seq<Step>, calendar: Calendar)
    requires Inv(s, calendar) && IsRun(s, steps, calendar)
    ensures Inv(After(s, steps), calendar)
    decreases |steps|
  {
    if steps != [] {
      StepKeeps(s, steps[0], calendar);
      RunKeeps(Next(s, steps[0]), steps[1..], calendar);
    }
  }

  // ---- What every run guarantees ----

  /** Dispatches of one task keep their distance and happen at permitted times. */
  lemma RunSafe(s: State, steps: seq<Step>, calendar: Calendar, i: nat, j: nat)
    requires Initial(s) && IsRun(s, steps, calendar)
    requires i < j < |After(s, steps).log| && After(s, steps).log[i].id == After(s, steps).log[j].id
    ensures var e := After(s, steps); var id := e.log[i].id;
      && id in e.plan
      && Apart(e.plan[id], e.log[i].at, e.log[j].at)
      && Timely(e.plan[id], e.log[i].at, calendar) && Timely(e.plan[id], e.log[j].at, calendar)
  {
    RunKeeps(s, steps, calendar);
  }

  /** An interval task's dispatches are at least its interval apart. */
  lemma IntervalSpacing(s: State, steps: seq<Step>, calendar: Calendar, i: nat, j: nat)
    requires Initial(s) && IsRun(s, steps, calendar)
    requires i < j < |After(s, steps).log| && After(s, steps).log[i].id == After(s, steps).log[j].id
    requires After(s, steps).log[i].id in After(s, steps).plan
      && After(s, steps).plan[After(s, steps).log[i].id].Interval?
    ensures var e := After(s, steps);
      e.log[j].at - e.log[i].at >= e.plan[e.log[i].id].everySecs * SECOND
  {
    RunSafe(s, steps, calendar, i, j);
  }

  /** A cron task's dispatches fall in distinct calendar minutes, each a matching one. */
  lemma CronOncePerMinute(s: State, steps: seq<Step>, calendar: Calendar, i: nat, j: nat)
    requires Initial(s) && IsRun(s, steps, calendar)
    requires i < j < |After(s, steps).log| && After(s, steps).log[i].id == After(s, steps).log[j].id
    requires After(s, steps).log[i].id in After(s, steps).plan && After(s, steps).plan[After(s, steps).log[i].id].Cron?
    ensures var e := After(s, steps); var expr := e.plan[e.log[i].id].expr;
      && e.log[i].at / (60 * SECOND) < e.log[j].at / (60 * SECOND)
      && MatchesExpr(expr, calendar(e.log[i].at)) && MatchesExpr(expr, calendar(e.log[j].at))
  {
    RunSafe(s, steps, calendar, i, j);
    MinutesDiffer(After(s, steps).log[i].at, After(s, steps).log[j].at);
  }

  lemma MinutesDiffer(a: int, b: int)
    requires b - a >= 60 * SECOND
    ensures a / (60 * SECOND) < b / (60 * SECOND)
  {}

  /** A once task is dispatched at most once, and never before its time. */
  lemma OnceAtMostOnce(s: State, steps: seq<Step>, calendar: Calendar, i: nat)
    requires Initial(s) && IsRun(s, steps, calendar) && i < |After(s, steps).log|
    requires After(s, steps).log[i].id in After(s, steps).plan && After(s, steps).plan[After(s, steps).log[i].id].Once?
    ensures var e := After(s, steps);
      && e.log[i].at >= e.plan[e.log[i].id].at
      && forall j :: 0 <= j < |e.log| && e.log[j].id == e.log[i].id ==> j == i
  {
    RunKeeps(s, steps, calendar);
    var e := After(s, steps);
    forall j | 0 <= j < |e.log| && e.log[j].id == e.log[i].id ensures j == i {
      if j < i { RunSafe(s, steps, calendar, j, i); }
      if i < j { RunSafe(s, steps, calendar, i, j); }
    }
  }

  /** Between ticks a task's last run is never before any of its dispatches. */
  lemma LastRunNeverBehind(s: State, steps: seq<Step>, calendar: Calendar, i: nat)
    requires Initial(s) && IsRun(s, steps, calendar) && After(s, steps).phase.Idle?
    requires i < |After(s, steps).log| && After(s, steps).log[i].id in After(s, steps).tasks
    ensures var e := After(s, steps); var t := e.tasks[e.log[i].id];
      t.lastRun.Some? && e.log[i].at <= t.lastRun.value
  {
    RunKeeps(s, steps, calendar);
  }

  // ---- When a cron task is not dispatched ----

  /** The step is no change to the task from outside the tick loop. */
  predicate Leaves(step: Step, id: string) {
    match step
    case Complete(i, _, _) => i != id
    case SetEnabled(i, _) => i != id
    case Remove(i) => i != id
    case Add(t) => t.id != id
    case _ => true
  }

  /** Due, and not yet handed to the executor. */
  ghost predicate Awaits(s: State, id: string) { exists i :: AwaitsAt(s, id, i) }

  predicate AwaitsAt(s: State, id: string, i: int) {
    s.phase.Running? && 0 <= i < |s.phase.queue| && s.phase.queue[i].id == id && (i > 0 || !s.phase.spawned)
  }

  ghost predicate Queued(s: State, id: string) { s.phase.Running? && exists t :: t in s.phase.queue && t.id == id }

  ghost predicate Dispatched(s: State, e: State, id: string) { exists i :: |s.log| <= i < |e.log| && e.log[i].id == id }

  /** An enabled task that no tick is working on. */
  ghost predicate Resting(s: State, t: Task) { t.id in s.tasks && s.tasks[t.id] == t && t.enabled && !Queued(s, t.id) }

  lemma {:induction false} LogGrows(s: State, steps: seq<Step>)
    ensures s.log <= After(s, steps).log
    decreases |steps|
  {
    if steps != [] { LogGrows(Next(s, steps[0]), steps[1..]); }
  }

  /** A task that awaits its dispatch gets it before the tick ends. */
  lemma {:induction false} AwaitedIsDispatched(s: State, steps: seq<Step>, calendar: Calendar, id: string)
    requires IsRun(s, steps, calendar) && Awaits(s, id) && !Awaits(After(s, steps), id)
    ensures Dispatched(s, After(s, steps), id)
    decreases |steps|
  {
    if steps != [] {
      var s', e := Next(s, steps[0]), After(s, steps);
      LogGrows(s', steps[1..]);
      if Awaits(s', id) {
        AwaitedIsDispatched(s', steps[1..], calendar, id);
        var i :| |s'.log| <= i < |e.log| && e.log[i].id == id;
        assert |s.log| <= i;
      } else {
        AwaitEnds(s, steps[0], calendar, id);
        assert e.log[|s.log|] == s'.log[|s.log|];
      }
    }
  }

  lemma AwaitEnds(s: State, step: Step, calendar: Calendar, id: string)
    requires CanStep(s, step, calendar) && Awaits(s, id)
    ensures Awaits(Next(s, step), id)
         || (step.Spawn? && |Next(s, step).log| == |s.log| + 1 && Next(s, step).log[|s.log|].id == id)
  {
    var i :| AwaitsAt(s, id, i);
    var s' := Next(s, step);
    if step.Mark? {
      assert AwaitsAt(s', id, i - 1);
    } else if !step.Spawn? {
      assert AwaitsAt(s', id, i);
    } else if i > 0 {
      assert AwaitsAt(s', id, i);
    }
  }

  /** The tick finds it due. */
  predicate Finds(step: Step, t: Task, calendar: Calendar) { step.Scan? && IsDue(t, step.at, calendar) }

  lemma RestingStep(s: State, step: Step, calendar: Calendar, t: Task)
    requires CanStep(s, step, calendar) && Resting(s, t) && Leaves(step, t.id)
    ensures Finds(step, t, calendar) ==> Awaits(Next(s, step), t.id)
    ensures !Finds(step, t, calendar) ==> Resting(Next(s, step), t) && !Dispatched(s, Next(s, step), t.id)
  {
    var s' := Next(s, step);
    match step
    case Scan(at, due) =>
      if IsDue(t, at, calendar) {
        assert t in due;
        var i :| 0 <= i < |due| && due[i] == t;
        assert AwaitsAt(s', t.id, i);
      } else {
        forall u | u in due ensures u.id != t.id {}
      }
    case Spawn => assert s.phase.queue[0] in s.phase.queue;
    case Mark => assert s.phase.queue[0] in s.phase.queue;
    case _ =>
  }

  /** Left alone, a resting task is dispatched exactly when some tick finds it due. */
  lemma {:induction false} DispatchedExactly(s: State, steps: seq<Step>, calendar: Calendar, t: Task)
    requires IsRun(s, steps, calendar) && Resting(s, t) && !Awaits(After(s, steps), t.id)
    requires forall step :: step in steps ==> Leaves(step, t.id)
    ensures Dispatched(s, After(s, steps), t.id) <==> exists step :: step in steps && Finds(step, t, calendar)
    decreases |steps|
  {
    if steps != [] {
      var s', e, rest := Next(s, steps[0]), After(s, steps), steps[1..];
      assert steps == [steps[0]] + rest;
      RestingStep(s, steps[0], calendar, t);
      LogGrows(s', rest);
      LogGrows(s, [steps[0]]);
      if Finds(steps[0], t, calendar) {
        AwaitedIsDispatched(s', rest, calendar, t.id);
        var i :| |s'.log| <= i < |e.log| && e.log[i].id == t.id;
        assert |s.log| <= i;
      } else {
        DispatchedExactly(s', rest, calendar, t);
        DispatchedLater(s, s', e, t.id);
      }
    }
  }

  lemma DispatchedLater(s: State, mid: State, e: State, id: string)
    requires s.log <= mid.log <= e.log && !Dispatched(s, mid, id)
    ensures Dispatched(s, e, id) <==> Dispatched(mid, e, id)
  {
    if i :| |s.log| <= i < |e.log| && e.log[i].id == id {
      assert i < |mid.log| ==> e.log[i] == mid.log[i];
    }
  }

  lemma MinutePassed(d: int)
    ensures WholeSeconds(d) >= 60 <==> d >= 60 * SECOND
  {}

  /**
   * A cron task last completed at `done` is not dispatched by the ticks of a matching minute exactly when each of
   * them comes less than sixty seconds after that completion, be the minute of the completion another one or not.
   */
  lemma MinuteMissedExactly(s: State, steps: seq<Step>, calendar: Calendar, t: Task, done: int)
    requires IsRun(s, steps, calendar) && Resting(s, t) && !Awaits(After(s, steps), t.id)
    requires forall step :: step in steps ==> Leaves(step, t.id)
    requires t.schedule.Cron? && t.lastRun == Some(done)
    requires forall step :: step in steps && step.Scan? ==> MatchesExpr(t.schedule.expr, calendar(step.at))
    ensures !Dispatched(s, After(s, steps), t.id) <==>
      forall step :: step in steps && step.Scan? ==> step.at < done + 60 * SECOND
  {
    DispatchedExactly(s, steps, calendar, t);
    forall step | step in steps && step.Scan? ensures Finds(step, t, calendar) <==> step.at >= done + 60 * SECOND {
      MinutePassed(step.at - done);
    }
  }

  // ---- Exactly when a task is dispatched ----

  /** The run leaves the task alone, and nothing of it is pending at the end. */
  ghost predicate LeftAlone(s: State, steps: seq<Step>, calendar: Calendar, t: Task) {
    && IsRun(s, steps, calendar) && Resting(s, t) && !Awaits(After(s, steps), t.id)
    && forall step :: step in steps ==> Leaves(step, t.id)
  }

  /** An interval task is dispatched exactly when a tick comes and it never ran, or its interval has passed since. */
  lemma IntervalDispatchedExactly(s: State, steps: seq<Step>, calendar: Calendar, t: Task)
    requires LeftAlone(s, steps, calendar, t) && t.schedule.Interval?
    ensures t.lastRun.None? ==> (Dispatched(s, After(s, steps), t.id) <==> exists step :: step in steps && step.Scan?)
    ensures t.lastRun.Some? ==>
      (Dispatched(s, After(s, steps), t.id) <==>
        exists step :: step in steps && step.Scan? && step.at >= t.lastRun.value + t.schedule.everySecs * 1_000_000_000)
  {
    DispatchedExactly(s, steps, calendar, t);
    if t.lastRun.None? {
      if step :| step in steps && step.Scan? { assert Finds(step, t, calendar); }
    } else {
      var due := t.lastRun.value + t.schedule.everySecs * 1_000_000_000;
      if step :| step in steps && step.Scan? && step.at >= due { assert Finds(step, t, calendar); }
    }
  }

  /** A once task is dispatched exactly when it never ran and a tick comes at its time or later. */
  lemma OnceDispatchedExactly(s: State, steps: seq<Step>, calendar: Calendar, t: Task)
    requires LeftAlone(s, steps, calendar, t) && t.schedule.Once?
    ensures Dispatched(s, After(s, steps), t.id) <==>
      t.lastRun.None? && exists step :: step in steps && step.Scan? && step.at >= t.schedule.at
  {
    DispatchedExactly(s, steps, calendar, t);
    if step :| t.lastRun.None? && step in steps && step.Scan? && step.at >= t.schedule.at {
      assert Finds(step, t, calendar);
    }
  }

  /** A tick in a moment the five fields of the expression all admit. */
  ghost predicate MatchingTick(step: Step, expr: string, calendar: Calendar) {
    step.Scan? && MatchesExpr(expr, calendar(step.at))
  }

  /** A cron task is dispatched exactly when a matching tick comes, a full minute after its last run if it ever ran. */
  lemma CronDispatchedExactly(s: State, steps: seq<Step>, calendar: Calendar, t: Task)
    requires LeftAlone(s, steps, calendar, t) && t.schedule.Cron?
    ensures t.lastRun.None? ==>
      (Dispatched(s, After(s, steps), t.id) <==>
        exists step :: step in steps && MatchingTick(step, t.schedule.expr, calendar))
    ensures t.lastRun.Some? ==>
      (Dispatched(s, After(s, steps), t.id) <==>
        exists step :: step in steps && MatchingTick(step, t.schedule.expr, calendar)
                       && step.at >= t.lastRun.value + 60_000_000_000)
  {
    DispatchedExactly(s, steps, calendar, t);
    forall step | step in steps && step.Scan?
      ensures Finds(step, t, calendar) <==>
        MatchingTick(step, t.schedule.expr, calendar)
        && (t.lastRun.Some? ==> step.at >= t.lastRun.value + 60_000_000_000)
    {
      if t.lastRun.Some? { MinutePassed(step.at - t.lastRun.value); }
    }
  }
}
