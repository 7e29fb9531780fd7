/**
 Counting connection tasks and waiting for the count to reach zero, as interleaved steps: each load,
 add or subtraction of the counter, each notification and each look at a notification is one step.
 */
module ConnectionTasks {

  /** A task runs, then its guard lowers the counter, then its guard notifies. */
  datatype Task = Running | Lowered | Done

  /** A joiner at the top of its loop, holding a notification made when so many had been sent, waiting
      on it, or returned. */
  datatype Joiner = Looping | Holding(since: nat) | Waiting(since: nat) | Returned

  /** `sent` counts the notifications sent to all waiters so far. */
  datatype State = State(active: int, tasks: seq<Task>, joiners: seq<Joiner>, sent: nat)

  datatype Step =
    | Spawn
    | Finish(t: nat)
    | Notify(t: nat)
    | Join
    | Hold(j: nat)
    | Load(j: nat)
    | Wake(j: nat)

  const START := State(0, [], [], 0)

  predicate Enabled(p: State, step: Step) {
    match step
    case Spawn => true
    case Finish(t) => t < |p.tasks| && p.tasks[t].Running?
    case Notify(t) => t < |p.tasks| && p.tasks[t].Lowered?
    case Join => true
    case Hold(j) => j < |p.joiners| && p.joiners[j].Looping?
    case Load(j) => j < |p.joiners| && p.joiners[j].Holding?
    // A notification completes once one was sent after it was made.
    case Wake(j) => j < |p.joiners| && p.joiners[j].Waiting? && p.joiners[j].since < p.sent
  }

  function Apply(p: State, step: Step): State
    requires Enabled(p, step)
  {
    match step
    case Spawn => p.(active := p.active + 1, tasks := p.tasks + [Running])
    case Finish(t) => p.(active := p.active - 1, tasks := p.tasks[t := Lowered])
    case Notify(t) => p.(tasks := p.tasks[t := Done], sent := p.sent + 1)
    case Join => p.(joiners := p.joiners + [Looping])
    case Hold(j) => p.(joiners := p.joiners[j := Holding(p.sent)])
    case Load(j) => p.(joiners := p.joiners[j := if p.active == 0 then Returned else Waiting(p.joiners[j].since)])
    case Wake(j) => p.(joiners := p.joiners[j := Looping])
  }

  /** Whether the steps can happen one after the other. */
  predicate Possible(p: State, steps: seq<Step>)
    decreases |steps|, 0
  {
    steps == [] || (Possible(p, steps[..|steps| - 1]) && Enabled(After(p, steps[..|steps| - 1]), steps[|steps| - 1]))
  }

  function After(p: State, steps: seq<Step>): State
    requires Possible(p, steps)
    decreases |steps|, 1
  {
    if steps == [] then p else Apply(After(p, steps[..|steps| - 1]), steps[|steps| - 1])
  }

  /** Tasks and joiners may come at any moment. A joiner that comes while a task runs waits, is notified
      when the task ends, looks again and returns. */
  lemma AnyMoment(p: State)
    ensures Enabled(p, Spawn) && Enabled(p, Join)
    ensures var steps := [Spawn, Join, Hold(0), Load(0), Finish(0), Notify(0), Wake(0), Hold(0), Load(0)];
            Possible(START, steps) && After(START, steps) == State(0, [Done], [Returned], 1)
  {
    var steps := [Spawn, Join, Hold(0), Load(0), Finish(0), Notify(0), Wake(0), Hold(0), Load(0)];
    OneMore(START, steps, 0);
    OneMore(START, steps, 1);
    OneMore(START, steps, 2);
    OneMore(START, steps, 3);
    OneMore(START, steps, 4);
    OneMore(START, steps, 5);
    OneMore(START, steps, 6);
    OneMore(START, steps, 7);
    OneMore(START, steps, 8);
    assert steps[..9] == steps;
  }

  lemma OneMore(p: State, steps: seq<Step>, k: nat)
    requires k < |steps| && Possible(p, steps[..k]) && Enabled(After(p, steps[..k]), steps[k])
    ensures Possible(p, steps[..k + 1]) && After(p, steps[..k + 1]) == Apply(After(p, steps[..k]), steps[k])
  {
    assert steps[..k + 1][..k] == steps[..k];
  }

  // ---- The invariant ----

  function CountRunning(tasks: seq<Task>): nat {
    if tasks == [] then 0 else (if tasks[0].Running? then 1 else 0) + CountRunning(tasks[1..])
  }

  /** Some task has yet to notify. */
  ghost predicate Pending(tasks: seq<Task>) {
    exists t | 0 <= t < |tasks| :: !tasks[t].Done?
  }

  ghost predicate Sound(p: State, j: Joiner) {
    match j
    case Holding(since) => since <= p.sent
    case Waiting(since) => since < p.sent || (since == p.sent && Pending(p.tasks))
    case _ => true
  }

  /** The counter counts the running tasks, and whoever waits unnotified waits for some task that has
      its notification still ahead of it. */
  ghost predicate Inv(p: State) {
    p.active == CountRunning(p.tasks) && forall j | 0 <= j < |p.joiners| :: Sound(p, p.joiners[j])
  }

  lemma {:induction false} CountUpdate(tasks: seq<Task>, t: nat, to: Task)
    requires t < |tasks|
    ensures CountRunning(tasks[t := to])
         == CountRunning(tasks) - (if tasks[t].Running? then 1 else 0) + (if to.Running? then 1 else 0)
  {
    if t > 0 {
      CountUpdate(tasks[1..], t - 1, to);
      assert tasks[t := to][1..] == tasks[1..][t - 1 := to];
    } else {
      assert tasks[t := to][1..] == tasks[1..];
    }
  }

  lemma {:induction false} CountAppend(tasks: seq<Task>, task: Task)
    ensures CountRunning(tasks + [task]) == CountRunning(tasks) + if task.Running? then 1 else 0
  {
    if tasks != [] {
      CountAppend(tasks[1..], task);
      assert (tasks + [task])[1..] == tasks[1..] + [task];
    }
  }

  lemma {:induction false} SomeRunning(tasks: seq<Task>)
    ensures CountRunning(tasks) > 0 <==> exists t | 0 <= t < |tasks| :: tasks[t].Running?
  {
    if tasks != [] {
      SomeRunning(tasks[1..]);
      assert forall t | 0 < t < |tasks| :: tasks[t] == tasks[1..][t - 1];
      if CountRunning(tasks[1..]) > 0 {
        var t :| 0 <= t < |tasks[1..]| && tasks[1..][t].Running?;
        assert tasks[t + 1].Running?;
      }
    }
  }

  lemma StillPending(p: State, step: Step)
    requires Enabled(p, step) && Pending(p.tasks) && !step.Notify?
    ensures Pending(Apply(p, step).tasks)
  {
    var t :| 0 <= t < |p.tasks| && !p.tasks[t].Done?;
    assert !Apply(p, step).tasks[t].Done?;
  }

  lemma InvStep(p: State, step: Step)
    requires Inv(p) && Enabled(p, step)
    ensures Inv(Apply(p, step))
  {
    var q := Apply(p, step);
    match step {
      case Spawn => CountAppend(p.tasks, Running);
      case Finish(t) => CountUpdate(p.tasks, t, Lowered);
      case Notify(t) => CountUpdate(p.tasks, t, Done);
      case Load(j) => SomeRunning(p.tasks);
      case _ =>
    }
    if Pending(p.tasks) && !step.Notify? {
      StillPending(p, step);
    }
    forall j | 0 <= j < |q.joiners| ensures Sound(q, q.joiners[j]) {
      if j < |p.joiners| {
        assert Sound(p, p.joiners[j]);
      }
    }
  }

  lemma {:induction false} EveryState(steps: seq<Step>)
    requires Possible(START, steps)
    ensures Inv(After(START, steps))
  {
    if steps != [] {
      EveryState(steps[..|steps| - 1]);
      InvStep(After(START, steps[..|steps| - 1]), steps[|steps| - 1]);
    }
  }

  // ---- No wakeup is lost ----

  /** A joiner that waits while nothing runs has been notified, or is about to be by a task that has
      lowered the counter. */
  lemma NoLostWakeup(steps: seq<Step>, j: nat)
    requires Possible(START, steps)
    requires var p := After(START, steps); j < |p.joiners| && p.joiners[j].Waiting? && p.active == 0
    ensures var p := After(START, steps);
      Enabled(p, Wake(j)) || exists t | 0 <= t < |p.tasks| :: Enabled(p, Notify(t))
  {
    hide Possible, After;
    var p := After(START, steps);
    EveryState(steps);
    assert Sound(p, p.joiners[j]);
    SomeRunning(p.tasks);
    if !Enabled(p, Wake(j)) {
      var t :| 0 <= t < |p.tasks| && !p.tasks[t].Done?;
      assert Enabled(p, Notify(t));
    }
  }

  lemma NothingRuns(p: State)
    requires Inv(p) && p.active == 0
    ensures forall t | 0 <= t < |p.tasks| :: !p.tasks[t].Running?
  {
    SomeRunning(p.tasks);
  }

  /** A joiner that has returned saw, at some moment after it joined, that no task was running. */
  lemma {:induction false} ReturnedAtZero(steps: seq<Step>, j: nat)
    requires Possible(START, steps)
    requires j < |After(START, steps).joiners| && After(START, steps).joiners[j].Returned?
    ensures exists n | 0 <= n < |steps| :: SawNothing(steps[..n], j)
    decreases |steps|
  {
    var before := steps[..|steps| - 1];
    var p := After(START, before);
    if j < |p.joiners| && p.joiners[j].Returned? {
      ReturnedAtZero(before, j);
      var n :| 0 <= n < |before| && SawNothing(before[..n], j);
      assert before[..n] == steps[..n];
    } else {
      EveryState(before);
      NothingRuns(p);
      assert SawNothing(steps[..|steps| - 1], j);
    }
  }

  ghost predicate SawNothing(steps: seq<Step>, j: nat) {
    && Possible(START, steps)
    && var p := After(START, steps);
      j < |p.joiners| && !p.joiners[j].Returned? && forall t | 0 <= t < |p.tasks| :: !p.tasks[t].Running?
  }

  /** Whatever had been spawned while the joiner was still waiting has ended when it returns. */
  lemma {:induction false} JoinWaitsForAll(steps: seq<Step>, n: nat, t: nat, j: nat)
    requires Possible(START, steps) && n <= |steps| && Possible(START, steps[..n])
    requires t < |After(START, steps[..n]).tasks|
    requires j < |After(START, steps[..n]).joiners| ==> !After(START, steps[..n]).joiners[j].Returned?
    ensures var q := After(START, steps);
      t < |q.tasks| && (j < |q.joiners| && q.joiners[j].Returned? ==> !q.tasks[t].Running?)
    decreases |steps|
  {
    if n < |steps| {
      var before := steps[..|steps| - 1];
      assert before[..n] == steps[..n];
      JoinWaitsForAll(before, n, t, j);
      EveryState(before);
      var p := After(START, before);
      if p.active == 0 {
        NothingRuns(p);
      }
    } else {
      assert steps[..n] == steps;
    }
  }

  // ---- Joining ends ----

  /** Steps that neither start a task nor a joiner. */
  predicate Quiet(step: Step) {
    !step.Spawn? && !step.Join?
  }

  function Unsent(tasks: seq<Task>): nat {
    if tasks == [] then 0 else (if tasks[0].Done? then 0 else 1) + Unsent(tasks[1..])
  }

  /** How often a joiner can still move: each notification lets it go round its loop once. */
  function JoinerCost(j: Joiner, unsent: nat, sent: nat): nat {
    match j
    case Looping => 3 * unsent + 2
    case Holding(since) => 3 * unsent + if since < sent then 4 else 1
    case Waiting(since) => 3 * unsent + if since < sent then 3 else 0
    case Returned => 0
  }

  function JoinersCost(joiners: seq<Joiner>, unsent: nat, sent: nat): nat {
    if joiners == [] then 0 else JoinerCost(joiners[0], unsent, sent) + JoinersCost(joiners[1..], unsent, sent)
  }

  function Cost(p: State): nat {
    CountRunning(p.tasks) + Unsent(p.tasks) + JoinersCost(p.joiners, Unsent(p.tasks), p.sent)
  }

  lemma {:induction false} UnsentUpdate(tasks: seq<Task>, t: nat, to: Task)
    requires t < |tasks|
    ensures Unsent(tasks[t := to]) == Unsent(tasks) - (if tasks[t].Done? then 0 else 1) + (if to.Done? then 0 else 1)
  {
    if t > 0 {
      UnsentUpdate(tasks[1..], t - 1, to);
      assert tasks[t := to][1..] == tasks[1..][t - 1 := to];
    } else {
      assert tasks[t := to][1..] == tasks[1..];
    }
  }

  lemma {:induction false} JoinerUpdate(joiners: seq<Joiner>, j: nat, to: Joiner, unsent: nat, sent: nat)
    requires j < |joiners|
    ensures JoinersCost(joiners[j := to], unsent, sent)
         == JoinersCost(joiners, unsent, sent) - JoinerCost(joiners[j], unsent, sent) + JoinerCost(to, unsent, sent)
  {
    if j > 0 {
      JoinerUpdate(joiners[1..], j - 1, to, unsent, sent);
      assert joiners[j := to][1..] == joiners[1..][j - 1 := to];
    } else {
      assert joiners[j := to][1..] == joiners[1..];
    }
  }

  /** A notification costs the joiners nothing: what it lets them do was counted already. */
  lemma {:induction false} NotifiedCost(joiners: seq<Joiner>, unsent: nat, sent: nat)
    requires forall j | 0 <= j < |joiners| :: joiners[j].Holding? || joiners[j].Waiting? ==> joiners[j].since <= sent
    ensures JoinersCost(joiners, unsent, sent + 1) <= JoinersCost(joiners, unsent + 1, sent)
  {
    if joiners != [] {
      assert forall j | 0 < j < |joiners| :: joiners[j] == joiners[1..][j - 1];
      NotifiedCost(joiners[1..], unsent, sent);
    }
  }

  lemma QuietStep(p: State, step: Step)
    requires Inv(p) && Enabled(p, step) && Quiet(step)
    ensures Cost(Apply(p, step)) < Cost(p)
  {
    match step
    case Finish(t) =>
      CountUpdate(p.tasks, t, Lowered);
      UnsentUpdate(p.tasks, t, Lowered);
    case Notify(t) =>
      CountUpdate(p.tasks, t, Done);
      UnsentUpdate(p.tasks, t, Done);
      assert forall j | 0 <= j < |p.joiners| :: Sound(p, p.joiners[j]);
      NotifiedCost(p.joiners, Unsent(p.tasks) - 1, p.sent);
    case Hold(j) => JoinerUpdate(p.joiners, j, Holding(p.sent), Unsent(p.tasks), p.sent);
    case Load(j) => JoinerUpdate(p.joiners, j, Apply(p, step).joiners[j], Unsent(p.tasks), p.sent);
    case Wake(j) => JoinerUpdate(p.joiners, j, Looping, Unsent(p.tasks), p.sent);
  }

  /** Once nothing is spawned any more, only so many steps are left. */
  lemma {:induction false} QuietRunEnds(p: State, steps: seq<Step>)
    requires Inv(p) && Possible(p, steps) && forall step <- steps :: Quiet(step)
    ensures Inv(After(p, steps)) && |steps| + Cost(After(p, steps)) <= Cost(p)
    decreases |steps|
  {
    hide Inv, Cost, Quiet, Enabled, Apply;
    if steps != [] {
      var before := steps[..|steps| - 1];
      QuietRunEnds(p, before);
      InvStep(After(p, before), steps[|steps| - 1]);
      QuietStep(After(p, before), steps[|steps| - 1]);
    }
  }

  /** And while some joiner has not returned, there is a next one. */
  lemma SomethingMoves(p: State, j: nat)
    requires Inv(p) && j < |p.joiners| && !p.joiners[j].Returned?
    ensures exists step :: Quiet(step) && Enabled(p, step)
  {
    assert Sound(p, p.joiners[j]);
    match p.joiners[j]
    case Looping => assert Enabled(p, Hold(j));
    case Holding(_) => assert Enabled(p, Load(j));
    case Waiting(since) =>
      if since < p.sent {
        assert Enabled(p, Wake(j));
      } else {
        var t :| 0 <= t < |p.tasks| && !p.tasks[t].Done?;
        assert Enabled(p, Finish(t)) || Enabled(p, Notify(t));
        assert Quiet(Finish(t)) && Quiet(Notify(t));
      }
  }

  /** From any state reached, a run without new tasks or joiners takes at most so many steps, and when
      it can go no further every joiner has returned. */
  lemma JoinEnds(past: seq<Step>, steps: seq<Step>)
    requires Possible(START, past) && Possible(After(START, past), steps) && forall step <- steps :: Quiet(step)
    ensures |steps| <= Cost(After(START, past))
    ensures var q := After(After(START, past), steps);
      (forall step | Quiet(step) :: !Enabled(q, step)) ==> forall j | 0 <= j < |q.joiners| :: q.joiners[j].Returned?
  {
    hide Possible, After, Inv, Cost, Enabled, Quiet;
    EveryState(past);
    QuietRunEnds(After(START, past), steps);
    var q := After(After(START, past), steps);
    forall j | 0 <= j < |q.joiners| && !q.joiners[j].Returned? ensures exists step :: Quiet(step) && Enabled(q, step) {
      SomethingMoves(q, j);
    }
  }
}
