/**
 The AnyTLS session pool as interleaved steps of connectors, streams, the peer and the idle reaper.
 Each load, store or exchange of a session's flags and each critical section on its stream map is a
 step of its own; the pool's lock is held across several steps.
 */
module SessionPool {
  import opened Arithmetic

  type Id = nat

  /** Stream numbers travel in 32 bits, so a number comes round again after that many streams. */
  const WIRE_IDS := 0x1_0000_0000

  /** Streams by how far their removal has come: in the stream map, taken out of it with the counter
      still to be lowered, counted down, or swept away when the session was cleared. `resets` are the
      clearings that have swept the map and not reset the counter yet. */
  datatype Session = Session(
    next: nat,
    open: set<nat>,
    removing: set<nat>,
    lowered: set<nat>,
    swept: set<nat>,
    reservations: nat,
    active: int,
    closed: bool,
    resets: nat)
  {
    /** The streams the map files under a wire number. */
    function Filed(wire: nat): set<nat> {
      set n | n in open && n % WIRE_IDS == wire
    }

    /** Every stream ever opened is in exactly one phase. */
    ghost predicate Phased() {
      && open !! removing && open !! lowered && open !! swept
      && removing !! lowered && removing !! swept && lowered !! swept
      && forall n: nat :: n < next <==> n in open + removing + lowered + swept
    }

    /** The counter of a live session is exactly what is reserved, open or on its way out, and no
        stream of it has been swept away. */
    ghost predicate Accounted() {
      !closed ==> active == reservations + |open| + |removing| && active <= 1 && swept == {}
    }

    ghost predicate Unused() {
      reservations == 0 && open == {} && removing == {}
    }
  }

  const NEW_SESSION := Session(1, {}, {}, {0}, {}, 0, 0, false, 0)

  /** Who holds the pool's lock. Of a pass of the reaper, `seen` are the sessions it counted as idle,
      `gone` those it dropped and `picked` those it is going to retire. */
  datatype Lock =
    | Free
    | Acquirer(candidate: set<Id>)
    | Counting(uncounted: seq<Id>, counted: nat, seen: set<Id>)
    | Reaper(todo: seq<Id>, kept: seq<Id>, idle: nat, looked: bool, seen: set<Id>, gone: set<Id>, picked: set<Id>)

  datatype State = State(
    sessions: map<Id, Session>,
    pool: seq<Id>,
    unpublished: set<Id>,
    retired: set<Id>,
    lock: Lock,
    minIdle: nat)

  datatype Step =
    // A new connection, its own reservation, and its arrival in the pool.
    | Connect(s: Id)
    | ReserveNew(s: Id)
    | Publish(s: Id)
    // A connector looking through the pool.
    | Acquire(remaining: seq<Id>)
    | LookAt(s: Id)
    | Reserve(s: Id)
    | Release
    // Streams.
    | Insert(s: Id)
    | Remove(s: Id, wire: nat)
    | Lower(s: Id, stream: nat)
    // The end of a session.
    | Close(s: Id)
    | Clear(s: Id)
    | Reset(s: Id)
    | Drain
    // The reaper.
    | Reap
    | Count
    | EndCount
    | Check
    | Judge(expired: bool)
    | EndReap
    | Retire(s: Id)

  /** What the reaper does with a session that is not closed. */
  predicate Spared(active: int, idle: nat, minIdle: nat, expired: bool) {
    active != 0 || idle <= minIdle || !expired
  }

  predicate Subsequence(a: seq<Id>, b: seq<Id>) {
    if a == [] then true
    else if b == [] then false
    else if a[|a| - 1] == b[|b| - 1] then Subsequence(a[..|a| - 1], b[..|b| - 1])
    else Subsequence(a, b[..|b| - 1])
  }

  predicate Enabled(p: State, step: Step) {
    match step
    case Connect(s) => s !in p.sessions
    case ReserveNew(s) => s in p.unpublished && s in p.sessions && p.sessions[s].active == 0
    case Publish(s) => p.lock.Free? && s in p.unpublished && s in p.sessions
    case Acquire(remaining) =>
      // Only sessions seen closed leave the pool here.
      p.lock.Free? && Subsequence(remaining, p.pool)
      && forall s <- p.pool :: s in remaining || (s in p.sessions && p.sessions[s].closed)
    case LookAt(s) => p.lock.Acquirer? && s in p.pool && s in p.sessions && !p.sessions[s].closed
    case Reserve(s) => p.lock.Acquirer? && s in p.lock.candidate && s in p.sessions && p.sessions[s].active == 0
    case Release => p.lock.Acquirer?
    case Insert(s) => s in p.sessions && p.sessions[s].reservations > 0
    case Remove(s, wire) => s in p.sessions
    case Lower(s, stream) => s in p.sessions && stream in p.sessions[s].removing
    case Close(s) => s in p.sessions
    case Clear(s) => s in p.sessions && p.sessions[s].closed
    case Reset(s) => s in p.sessions && p.sessions[s].closed && p.sessions[s].resets > 0
    case Drain => p.lock.Free?
    case Reap => p.lock.Free?
    case Count => p.lock.Counting? && p.lock.uncounted != [] && p.lock.uncounted[0] in p.sessions
    case EndCount => p.lock.Counting? && p.lock.uncounted == []
    case Check => p.lock.Reaper? && !p.lock.looked && p.lock.todo != [] && p.lock.todo[0] in p.sessions
    case Judge(_) => p.lock.Reaper? && p.lock.looked && p.lock.todo != [] && p.lock.todo[0] in p.sessions
    case EndReap => p.lock.Reaper? && p.lock.todo == []
    case Retire(s) => !p.lock.Reaper? && s in p.retired && s in p.sessions
  }

  function Reserved(x: Session): Session {
    x.(active := 1, reservations := x.reservations + 1)
  }

  /** A stream takes the next number; the map forgets whatever it filed under the same wire number. */
  function Inserted(x: Session): Session
    requires x.reservations > 0
  {
    var gone := x.Filed(x.next % WIRE_IDS);
    x.(next := x.next + 1, open := x.open - gone + {x.next}, swept := x.swept + gone, reservations := x.reservations - 1)
  }

  function Removed(x: Session, wire: nat): Session {
    x.(open := x.open - x.Filed(wire), removing := x.removing + x.Filed(wire))
  }

  function Lowered(x: Session, stream: nat): Session {
    x.(removing := x.removing - {stream}, lowered := x.lowered + {stream}, active := x.active - 1)
  }

  function Cleared(x: Session): Session {
    x.(open := {}, swept := x.swept + x.open, resets := x.resets + 1)
  }

  function Apply(p: State, step: Step): State
    requires Enabled(p, step)
  {
    match step
    case Connect(s) => p.(sessions := p.sessions[s := NEW_SESSION], unpublished := p.unpublished + {s})
    case ReserveNew(s) => p.(sessions := p.sessions[s := Reserved(p.sessions[s])])
    case Publish(s) => p.(pool := p.pool + [s], unpublished := p.unpublished - {s})
    case Acquire(remaining) => p.(pool := remaining, lock := Acquirer({}))
    case LookAt(s) => p.(lock := Acquirer({s}))
    case Reserve(s) => p.(sessions := p.sessions[s := Reserved(p.sessions[s])], lock := Free)
    case Release => p.(lock := Free)
    case Insert(s) => p.(sessions := p.sessions[s := Inserted(p.sessions[s])])
    case Remove(s, wire) => p.(sessions := p.sessions[s := Removed(p.sessions[s], wire)])
    case Lower(s, stream) => p.(sessions := p.sessions[s := Lowered(p.sessions[s], stream)])
    case Close(s) => p.(sessions := p.sessions[s := p.sessions[s].(closed := true)])
    case Clear(s) => p.(sessions := p.sessions[s := Cleared(p.sessions[s])])
    case Reset(s) =>
      p.(sessions := p.sessions[s := p.sessions[s].(active := 0, resets := p.sessions[s].resets - 1)])
    case Drain => p.(pool := [])
    case Reap => p.(lock := Counting(p.pool, 0, {}))
    case Count =>
      var s, rest := p.lock.uncounted[0], p.lock.uncounted[1..];
      if p.sessions[s].active == 0 then p.(lock := Counting(rest, p.lock.counted + 1, p.lock.seen + {s}))
      else p.(lock := p.lock.(uncounted := rest))
    case EndCount => p.(lock := Reaper(p.pool, [], p.lock.counted, false, p.lock.seen, {}, {}))
    case Check =>
      var s := p.lock.todo[0];
      if p.sessions[s].closed then p.(lock := p.lock.(todo := p.lock.todo[1..], gone := p.lock.gone + {s}))
      else p.(lock := p.lock.(looked := true))
    case Judge(expired) =>
      var s, todo := p.lock.todo[0], p.lock.todo[1..];
      if Spared(p.sessions[s].active, p.lock.idle, p.minIdle, expired) then
        p.(lock := p.lock.(todo := todo, kept := p.lock.kept + [s], looked := false))
      else
        p.(lock := p.lock.(todo := todo, idle := p.lock.idle - 1, looked := false, picked := p.lock.picked + {s}),
           retired := p.retired + {s})
    case EndReap => p.(pool := p.lock.kept, lock := Free)
    case Retire(s) =>
      p.(sessions := p.sessions[s := p.sessions[s].(closed := true)], retired := p.retired - {s})
  }

  function Start(minIdle: nat): State {
    State(map[], [], {}, {}, Free, minIdle)
  }

  /** Whether the steps can happen one after the other. */
  predicate Possible(p: State, steps: seq<Step>)
    decreases |steps|, 0
  {
    steps == [] || (Possible(p, steps[..|steps| - 1]) && Enabled(After(p, steps[..|steps| - 1]), steps[|steps| - 1]))
  }

  function After(p: State, steps: seq<Step>): State
    requires Possible(p, steps)
    decreases |steps|, 1
  {
    if steps == [] then p else Apply(After(p, steps[..|steps| - 1]), steps[|steps| - 1])
  }

  // ---- What single steps do ----

  /** A removal touches exactly the open streams with that number on the wire, and opening a stream
      exactly those with the number the new one gets. */
  lemma FiledStreams(x: Session, wire: nat, n: nat)
    ensures var y := Removed(x, wire);
            && (n in y.open <==> n in x.open && n % 0x1_0000_0000 != wire)
            && (n in y.removing <==> n in x.removing || (n in x.open && n % 0x1_0000_0000 == wire))
    ensures x.reservations > 0 && n != x.next ==>
            var y := Inserted(x);
            && (n in y.open <==> n in x.open && n % 0x1_0000_0000 != x.next % 0x1_0000_0000)
            && (n in y.swept <==> n in x.swept || (n in x.open && n % 0x1_0000_0000 == x.next % 0x1_0000_0000))
  {
  }

  /** The sessions of the pool that are open. */
  function Opened(sessions: map<Id, Session>, pool: seq<Id>): seq<Id> {
    if pool == [] then []
    else
      var s := pool[|pool| - 1];
      Opened(sessions, pool[..|pool| - 1]) + if s in sessions && sessions[s].closed then [] else [s]
  }

  /** A connector may drop all closed sessions from the pool; it never drops one that is open. */
  lemma AcquireDrops(p: State, remaining: seq<Id>)
    ensures p.lock.Free? ==> Enabled(p, Acquire(Opened(p.sessions, p.pool)))
    ensures Enabled(p, Acquire(remaining)) ==>
      forall s <- p.pool :: s in p.sessions && !p.sessions[s].closed ==> s in remaining
  {
    OpenedIn(p.sessions, p.pool);
  }

  lemma {:induction false} OpenedIn(sessions: map<Id, Session>, pool: seq<Id>)
    ensures Subsequence(Opened(sessions, pool), pool)
    ensures forall s <- pool :: s in Opened(sessions, pool) || (s in sessions && sessions[s].closed)
  {
    if pool != [] {
      var init, s := pool[..|pool| - 1], pool[|pool| - 1];
      OpenedIn(sessions, init);
      assert pool == init + [s];
      if s in sessions && sessions[s].closed {
        SubsequenceMore(Opened(sessions, init), init, s);
        assert Opened(sessions, pool) == Opened(sessions, init);
      } else {
        assert (Opened(sessions, init) + [s])[..|Opened(sessions, init)|] == Opened(sessions, init);
      }
    }
  }

  lemma {:induction false} SubsequenceMore(a: seq<Id>, b: seq<Id>, s: Id)
    requires Subsequence(a, b)
    ensures Subsequence(a, b + [s])
    decreases |a| + |b|, 1
  {
    assert (b + [s])[..|b|] == b;
    if a != [] && a[|a| - 1] == s {
      SubsequenceInit(a, b);
    }
  }

  /** Less of a part is still a part. */
  lemma {:induction false} SubsequenceInit(a: seq<Id>, b: seq<Id>)
    requires Subsequence(a, b) && a != []
    ensures Subsequence(a[..|a| - 1], b)
    decreases |a| + |b|, 0
  {
    var b' := b[..|b| - 1];
    if a[|a| - 1] == b[|b| - 1] {
      SubsequenceMore(a[..|a| - 1], b', b[|b| - 1]);
      assert b == b' + [b[|b| - 1]];
    } else {
      SubsequenceInit(a, b');
      SubsequenceMore(a[..|a| - 1], b', b[|b| - 1]);
      assert b == b' + [b[|b| - 1]];
    }
  }

  // ---- One life of a session ----

  /** The steps can happen one after the other and lead from `p` to `q`. */
  predicate Runs(p: State, steps: seq<Step>, q: State) {
    Possible(p, steps) && After(p, steps) == q
  }

  lemma RunsNowhere(p: State)
    ensures Runs(p, [], p)
  {
  }

  lemma RunsOn(p: State, steps: seq<Step>, k: nat, q: State, r: State)
    requires k < |steps| && Runs(p, steps[..k], q) && Enabled(q, steps[k]) && Apply(q, steps[k]) == r
    ensures Runs(p, steps[..k + 1], r)
  {
    hide Enabled, Apply;
    assert steps[..k + 1][..k] == steps[..k];
  }

  function Idle(next: nat, lowered: set<nat>): Session {
    Session(next, {}, {}, lowered, {}, 0, 0, false, 0)
  }

  function Pooling(x: Session): State {
    State(map[0 := x], [0], {}, {}, Free, 0)
  }

  /** A connection is made, reserved and put into the pool. */
  lemma Made()
    ensures Runs(Start(0), [Connect(0), ReserveNew(0), Publish(0)], Pooling(Reserved(Idle(1, {0}))))
  {
    hide Runs;
    var steps := [Connect(0), ReserveNew(0), Publish(0)];
    assert steps[..0] == [] && steps[..3] == steps;
    var none: set<Id> := {};
    assert none + {0} == {0} && {0} - {0} == none;
    var b := State(map[0 := Idle(1, {0})], [], {0}, {}, Free, 0);
    var c := State(map[0 := Reserved(Idle(1, {0}))], [], {0}, {}, Free, 0);
    RunsNowhere(Start(0));
    RunsOn(Start(0), steps, 0, Start(0), b);
    RunsOn(Start(0), steps, 1, b, c);
    RunsOn(Start(0), steps, 2, c, Pooling(Reserved(Idle(1, {0}))));
  }

  /** A reservation becomes a stream, which is closed and counted down: the session is idle again. */
  lemma Used(next: nat, lowered: set<nat>)
    requires next < WIRE_IDS
    ensures Runs(Pooling(Reserved(Idle(next, lowered))), [Insert(0), Remove(0, next), Lower(0, next)],
                 Pooling(Idle(next + 1, lowered + {next})))
  {
    hide Runs;
    var steps := [Insert(0), Remove(0, next), Lower(0, next)];
    assert steps[..0] == [] && steps[..3] == steps;
    var x, p := Reserved(Idle(next, lowered)), Pooling(Reserved(Idle(next, lowered)));
    assert x.Filed(x.next % WIRE_IDS) == {};
    var y := Session(next + 1, {next}, {}, lowered, {}, 0, 1, false, 0);
    assert Inserted(x) == y && y.Filed(next) == {next};
    var z := Session(next + 1, {}, {next}, lowered, {}, 0, 1, false, 0);
    assert Removed(y, next) == z;
    assert Lowered(z, next) == Idle(next + 1, lowered + {next});
    RunsNowhere(p);
    RunsOn(p, steps, 0, p, Pooling(y));
    RunsOn(p, steps, 1, Pooling(y), Pooling(z));
    RunsOn(p, steps, 2, Pooling(z), Pooling(Idle(next + 1, lowered + {next})));
  }

  /** A connector finds the idle session in the pool. */
  lemma FoundAgain(x: Session)
    requires !x.closed && x.active == 0
    ensures Runs(Pooling(x), [Acquire([0]), LookAt(0), Reserve(0)], Pooling(Reserved(x)))
  {
    hide Runs;
    var p, steps := Pooling(x), [Acquire([0]), LookAt(0), Reserve(0)];
    assert steps[..0] == [] && steps[..3] == steps;
    RunsNowhere(p);
    RunsOn(p, steps, 0, p, p.(lock := Acquirer({})));
    RunsOn(p, steps, 1, p.(lock := Acquirer({})), p.(lock := Acquirer({0})));
    RunsOn(p, steps, 2, p.(lock := Acquirer({0})), Pooling(Reserved(x)));
  }

  /** A session is closed under an open stream, its map swept and its counter reset, and the pool drained. */
  lemma Ended(next: nat, lowered: set<nat>)
    requires 0 < next < WIRE_IDS
    ensures Runs(Pooling(Session(next, {next - 1}, {}, lowered, {}, 0, 1, false, 0)), [Close(0), Clear(0), Reset(0), Drain],
                 Pooling(Session(next, {}, {}, lowered, {next - 1}, 0, 0, true, 0)).(pool := []))
  {
    hide Runs;
    var steps := [Close(0), Clear(0), Reset(0), Drain];
    var a := Pooling(Session(next, {next - 1}, {}, lowered, {}, 0, 1, false, 0));
    var b := Pooling(Session(next, {next - 1}, {}, lowered, {}, 0, 1, true, 0));
    var c := Pooling(Session(next, {}, {}, lowered, {next - 1}, 0, 1, true, 1));
    var d := Pooling(Session(next, {}, {}, lowered, {next - 1}, 0, 0, true, 0));
    assert {} + {next - 1} == {next - 1};
    assert steps[..0] == [] && steps[..4] == steps;
    RunsNowhere(a);
    RunsOn(a, steps, 0, a, b);
    RunsOn(a, steps, 1, b, c);
    RunsOn(a, steps, 2, c, d);
    RunsOn(a, steps, 3, d, d.(pool := []));
  }

  /** Two idle sessions are in the pool, and one is to be kept. */
  predicate TwoIdle(p: State) {
    && p.pool == [0, 1] && p.retired == {} && p.lock.Free? && p.minIdle == 1 && 0 in p.sessions && 1 in p.sessions
    && p.sessions[0].active == 0 && p.sessions[1].active == 0 && !p.sessions[0].closed && !p.sessions[1].closed
  }

  /** A pass of the reaper over them, after each of its steps. */
  function Stage(p: State, n: nat): State
    requires 0 in p.sessions
  {
    match n
    case 0 => p
    case 1 => p.(lock := Counting([0, 1], 0, {}))
    case 2 => p.(lock := Counting([1], 1, {0}))
    case 3 => p.(lock := Counting([], 2, {0, 1}))
    case 4 => p.(lock := Reaper([0, 1], [], 2, false, {0, 1}, {}, {}))
    case 5 => p.(lock := Reaper([0, 1], [], 2, true, {0, 1}, {}, {}))
    case 6 => p.(lock := Reaper([1], [], 1, false, {0, 1}, {}, {0}), retired := {0})
    case 7 => p.(lock := Reaper([1], [], 1, true, {0, 1}, {}, {0}), retired := {0})
    case 8 => p.(lock := Reaper([], [1], 1, false, {0, 1}, {}, {0}), retired := {0})
    case 9 => p.(pool := [1], lock := Free, retired := {0})
    case _ => p.(sessions := p.sessions[0 := p.sessions[0].(closed := true)], pool := [1])
  }

  const PASS := [Reap, Count, Count, EndCount, Check, Judge(true), Check, Judge(true), EndReap, Retire(0)]

  lemma StageStep(p: State, n: nat)
    requires TwoIdle(p) && n < 10
    ensures Enabled(Stage(p, n), PASS[n]) && Apply(Stage(p, n), PASS[n]) == Stage(p, n + 1)
  {
    var ids: seq<Id>, none: set<Id> := [0, 1], {};
    assert ids[1..] == [1] && [1][1..] == [] && [] + [1] == [1];
    assert none + {0} == {0} && {0} + {1} == {0, 1} && {0} - {0} == none;
  }

  /** The reaper counts both, retires the first, which has expired, and spares the second. */
  lemma Reaped(p: State)
    requires TwoIdle(p)
    ensures Runs(p, PASS, p.(sessions := p.sessions[0 := p.sessions[0].(closed := true)], pool := [1]))
  {
    StageStart(p);
    hide Runs, Stage, Enabled, Apply, PASS;
    for n := 0 to 10
      invariant Runs(p, PASS[..n], Stage(p, n))
    {
      StageStep(p, n);
      RunsOn(p, PASS, n, Stage(p, n), Stage(p, n + 1));
    }
  }

  lemma StageStart(p: State)
    requires TwoIdle(p)
    ensures |PASS| == 10 && PASS[..10] == PASS && Runs(p, PASS[..0], Stage(p, 0))
    ensures Stage(p, 10) == p.(sessions := p.sessions[0 := p.sessions[0].(closed := true)], pool := [1])
  {
    assert PASS[..0] == [];
    RunsNowhere(p);
  }

  // ---- The invariant ----

  /** The sessions a connector could still come across: those in the pool, which are only the ones not
      yet judged or spared while the reaper is at work. */
  function Pooled(p: State): seq<Id> {
    if p.lock.Reaper? then p.lock.todo + p.lock.kept else p.pool
  }

  ghost predicate Distinct(s: seq<Id>) {
    forall i, j | 0 <= i < j < |s| :: s[i] != s[j]
  }

  ghost predicate Separate(p: State) {
    && Distinct(Pooled(p))
    && (forall s <- Pooled(p) :: s in p.sessions && s !in p.unpublished && s !in p.retired)
    && (forall s <- p.unpublished :: s in p.sessions && s !in p.retired)
    && (forall s <- p.retired :: s in p.sessions)
    && (p.lock.Acquirer? ==> forall s <- p.lock.candidate :: s in p.pool)
  }

  ghost predicate Counted(p: State) {
    && (forall s <- p.sessions.Keys :: p.sessions[s].Phased() && p.sessions[s].Accounted())
    && (forall s <- p.retired :: s in p.sessions ==> p.sessions[s].closed || p.sessions[s].active == 0)
  }

  /** A session counted as idle stays out of use while the reaper has the pool, unless it is closed. */
  ghost predicate Rests(p: State, s: Id) {
    s in p.sessions && (p.sessions[s].closed || p.sessions[s].active == 0)
  }

  /** What a pass has counted, and what it did with what it counted. */
  ghost predicate Reaping(p: State) {
    match p.lock
    case Counting(uncounted, counted, seen) =>
      && Distinct(uncounted) && counted == |seen|
      && (forall s <- uncounted :: s in p.pool && s !in seen)
      && (forall s <- seen :: s in p.pool && Rests(p, s))
    case Reaper(todo, kept, idle, _, seen, gone, picked) =>
      && |picked| + idle <= |seen| && idle >= Min(p.minIdle, |seen|)
      && (forall s <- seen :: s in todo || s in kept || s in gone || s in picked)
      && (forall s <- seen :: s in todo || s in kept || s in gone ==> Rests(p, s))
      && (forall s <- gone :: s in p.sessions && p.sessions[s].closed)
    case _ => true
  }

  ghost predicate Inv(p: State) {
    Separate(p) && Counted(p) && Reaping(p)
  }

  lemma {:induction false} SubsequenceIn(a: seq<Id>, b: seq<Id>)
    requires Subsequence(a, b) && Distinct(b)
    ensures forall s <- a :: s in b
    ensures Distinct(a)
    decreases |b|
  {
    if a != [] {
      var b' := b[..|b| - 1];
      if a[|a| - 1] == b[|b| - 1] {
        var a' := a[..|a| - 1];
        SubsequenceIn(a', b');
        forall i, j | 0 <= i < j < |a| ensures a[i] != a[j] {
          if j == |a| - 1 {
            assert a'[i] in b';
          } else {
            assert a'[i] != a'[j];
          }
        }
        forall s | s in a ensures s in b {
          assert s in a' || s == a[|a| - 1];
        }
      } else {
        SubsequenceIn(a, b');
      }
    }
  }

  lemma KeptAside(s: Id, todo: seq<Id>, kept: seq<Id>)
    requires Distinct([s] + todo + kept)
    ensures Distinct(todo + kept) && Distinct(todo + (kept + [s]))
    ensures forall t <- todo + kept :: t in [s] + todo + kept && t != s
    ensures forall t <- todo + (kept + [s]) :: t in [s] + todo + kept
  {
    var all, left := [s] + todo + kept, todo + kept;
    assert forall i | 0 <= i < |left| :: left[i] == all[i + 1];
    assert todo + (kept + [s]) == left + [s];
    forall i | 0 <= i < |left| ensures left[i] != s {
      assert all[0] != all[i + 1];
    }
  }

  /** Steps that leave the pool and everyone's place in it alone. */
  predicate InSession(step: Step) {
    || step.ReserveNew? || step.Reserve? || step.Insert? || step.Remove? || step.Lower?
    || step.Close? || step.Clear? || step.Reset? || step.Retire?
  }

  lemma SeparateInSession(p: State, step: Step)
    requires Separate(p) && Enabled(p, step) && InSession(step)
    ensures Separate(Apply(p, step))
  {
    SessionsOnly(p, step);
    hide Enabled, Apply;
  }

  lemma SessionsOnly(p: State, step: Step)
    requires Enabled(p, step) && InSession(step)
    ensures var q := Apply(p, step);
      && q.sessions.Keys == p.sessions.Keys && q.pool == p.pool && q.unpublished == p.unpublished && q.retired <= p.retired
      && (q.lock == p.lock || (q.lock.Free? && p.lock.Acquirer?))
  {
    hide Session.Filed;
  }

  lemma SeparateMembers(p: State, step: Step)
    requires Separate(p) && Enabled(p, step) && (step.Connect? || step.Publish? || step.Drain?)
    ensures Separate(Apply(p, step))
  {
  }

  lemma SeparateAcquirer(p: State, step: Step)
    requires Separate(p) && Enabled(p, step) && (step.Acquire? || step.LookAt? || step.Release?)
    ensures Separate(Apply(p, step))
  {
    if step.Acquire? {
      SubsequenceIn(step.remaining, p.pool);
    }
    hide Subsequence;
  }

  lemma SeparateReaper(p: State, step: Step)
    requires Separate(p) && Enabled(p, step)
    requires step.Reap? || step.Count? || step.EndCount? || step.EndReap? || step.Check? || step.Judge?
    ensures Separate(Apply(p, step))
  {
    var q := Apply(p, step);
    if step.Check? || step.Judge? {
      JudgedStep(p, q);
      hide Separate;
    } else if step.EndReap? {
      assert Pooled(p) == p.lock.kept;
    } else {
      assert Pooled(q) == Pooled(p);
    }
  }

  lemma SeparateStep(p: State, step: Step)
    requires Inv(p) && Enabled(p, step)
    ensures Separate(Apply(p, step))
  {
    hide Counted, Reaping, Separate, Apply, Enabled;
    if InSession(step) {
      SeparateInSession(p, step);
    } else if step.Connect? || step.Publish? || step.Drain? {
      SeparateMembers(p, step);
    } else if step.Acquire? || step.LookAt? || step.Release? {
      SeparateAcquirer(p, step);
    } else {
      SeparateReaper(p, step);
    }
  }

  lemma JudgedStep(p: State, q: State)
    requires Separate(p) && p.lock.Reaper? && q.lock.Reaper? && p.lock.todo != []
    requires q.sessions == p.sessions && q.unpublished == p.unpublished
    requires q.lock.todo == p.lock.todo || q.lock.todo == p.lock.todo[1..]
    requires q.lock.todo == p.lock.todo ==> q.lock.kept == p.lock.kept && q.retired == p.retired
    requires q.lock.todo == p.lock.todo[1..] ==>
      (q.lock.kept == p.lock.kept + [p.lock.todo[0]] && q.retired == p.retired)
      || (q.lock.kept == p.lock.kept && (q.retired == p.retired || q.retired == p.retired + {p.lock.todo[0]}))
    ensures Separate(q)
  {
    var s, todo := p.lock.todo[0], p.lock.todo[1..];
    assert p.lock.todo == [s] + todo;
    KeptAside(s, todo, p.lock.kept);
  }

  lemma OpenedOne(x: Session)
    requires x.reservations > 0 && x.Phased()
    ensures Inserted(x).Phased()
  {
    var y, gone := Inserted(x), x.Filed(x.next % WIRE_IDS);
    assert forall n <- gone :: n in x.open;
    forall n: nat ensures n < y.next <==> n in y.open + y.removing + y.lowered + y.swept {
      assert n < x.next <==> n in x.open + x.removing + x.lowered + x.swept;
    }
    assert x.next !in x.open + x.removing + x.lowered + x.swept;
  }

  /** A live session never has two streams in its map, so none is displaced, whatever its number. */
  lemma NothingDisplaced(x: Session)
    requires x.reservations > 0 && x.Accounted() && !x.closed
    ensures x.open == {} && x.Filed(x.next % WIRE_IDS) == {}
    ensures Inserted(x).Accounted() && Inserted(x).open == {x.next}
  {
    assert |x.open| == 0;
    assert Inserted(x).open == {x.next};
  }

  lemma TookOut(x: Session, wire: nat)
    requires x.Phased() && x.Accounted()
    ensures Removed(x, wire).Phased() && Removed(x, wire).Accounted()
  {
    var y, gone := Removed(x, wire), x.Filed(wire);
    forall n: nat ensures n < y.next <==> n in y.open + y.removing + y.lowered + y.swept {
      assert n < x.next <==> n in x.open + x.removing + x.lowered + x.swept;
    }
    assert |x.open - gone| == |x.open| - |gone|;
    assert |x.removing + gone| == |x.removing| + |gone|;
  }

  lemma CountedDown(x: Session, stream: nat)
    requires stream in x.removing && x.Phased() && x.Accounted()
    ensures Lowered(x, stream).Phased() && Lowered(x, stream).Accounted()
    ensures !x.closed ==> x.active == 1
  {
    var y := Lowered(x, stream);
    forall n: nat ensures n < y.next <==> n in y.open + y.removing + y.lowered + y.swept {
      assert n < x.next <==> n in x.open + x.removing + x.lowered + x.swept;
    }
    assert |x.removing - {stream}| == |x.removing| - 1;
  }

  lemma SweptAway(x: Session)
    requires x.closed && x.Phased()
    ensures Cleared(x).Phased() && Cleared(x).Accounted()
  {
    var y := Cleared(x);
    forall n: nat ensures n < y.next <==> n in y.open + y.removing + y.lowered + y.swept {
      assert n < x.next <==> n in x.open + x.removing + x.lowered + x.swept;
    }
  }

  /** The step that changes one session and leaves the rest alone. */
  lemma OneSession(p: State, q: State, s: Id)
    requires Inv(p) && s in p.sessions && s in q.sessions
    requires q.sessions == p.sessions[s := q.sessions[s]] && q.retired <= p.retired
    requires q.sessions[s].Phased() && q.sessions[s].Accounted()
    requires s in q.retired ==> q.sessions[s].closed || q.sessions[s].active == 0
    ensures Counted(q)
  {
    hide Session.Phased, Session.Accounted;
  }

  lemma StreamStep(p: State, step: Step)
    requires Inv(p) && Enabled(p, step) && (step.Insert? || step.Remove? || step.Lower? || step.Clear?)
    ensures Counted(Apply(p, step))
  {
    var s, q := step.s, Apply(p, step);
    var x := p.sessions[s];
    assert x.Phased() && x.Accounted();
    match step {
      case Insert(_) =>
        OpenedOne(x);
        if !x.closed {
          NothingDisplaced(x);
        }
      case Remove(_, wire) => TookOut(x, wire);
      case Lower(_, stream) => CountedDown(x, stream);
      case Clear(_) => SweptAway(x);
    }
    hide Session.Phased, Session.Filed;
    OneSession(p, q, s);
  }

  lemma FlagStep(p: State, step: Step)
    requires Inv(p) && Enabled(p, step) && (step.ReserveNew? || step.Reserve? || step.Close? || step.Reset? || step.Retire?)
    ensures Counted(Apply(p, step))
  {
    hide Session.Filed;
    var s, q := step.s, Apply(p, step);
    var x := p.sessions[s];
    assert x.Phased() && x.Accounted();
    assert q.sessions[s].Phased() && q.sessions[s].Accounted() by {
      hide Separate, Counted;
    }
    hide Session.Phased, Session.Accounted;
    OneSession(p, q, s);
  }

  lemma PoolStep(p: State, step: Step)
    requires Inv(p) && Enabled(p, step)
    requires !(step.Insert? || step.Remove? || step.Lower? || step.Clear?)
    requires !(step.ReserveNew? || step.Reserve? || step.Close? || step.Reset? || step.Retire?)
    ensures Counted(Apply(p, step))
  {
    hide Separate, Session.Filed;
    assert NEW_SESSION.Phased() && NEW_SESSION.Accounted();
    hide Session.Phased, Session.Accounted;
  }

  lemma CountedStep(p: State, step: Step)
    requires Inv(p) && Enabled(p, step)
    ensures Counted(Apply(p, step))
  {
    hide Separate, Counted, Apply, Enabled;
    if step.Insert? || step.Remove? || step.Lower? || step.Clear? {
      StreamStep(p, step);
    } else if step.ReserveNew? || step.Reserve? || step.Close? || step.Reset? || step.Retire? {
      FlagStep(p, step);
    } else {
      PoolStep(p, step);
    }
  }

  // ---- A pass among everything else that happens ----

  /** Steps that neither take nor give back the pool's lock, nor move within a pass. */
  predicate Aside(step: Step) {
    !(step.Reap? || step.Count? || step.EndCount? || step.Check? || step.Judge? || step.EndReap?)
  }

  /** A session at rest in the pool stays at rest while the reaper has the lock. */
  lemma StaysAtRest(p: State, step: Step, s: Id)
    requires Separate(p) && Counted(p) && Enabled(p, step) && Aside(step) && (p.lock.Counting? || p.lock.Reaper?)
    requires Rests(p, s) && s !in p.unpublished
    ensures Rests(Apply(p, step), s)
  {
    hide Session.Phased, Session.Filed;
    assert p.sessions[s].Accounted();
    hide Counted;
    if step.Lower? && step.s == s {
      RestingLower(p.sessions[s], step.stream);
    }
    hide Session.Accounted;
  }

  /** A live session at rest has no removal under way. */
  lemma RestingLower(x: Session, stream: nat)
    requires x.Accounted() && (x.closed || x.active == 0) && stream in x.removing
    ensures x.closed
  {
    assert |x.removing| > 0;
  }

  /** A pass keeps its account of the sessions as long as those at rest stay so and closed ones closed. */
  lemma ReapingFrame(p: State, q: State)
    requires Reaping(p) && (p.lock.Counting? || p.lock.Reaper?)
    requires q.lock == p.lock && q.pool == p.pool && q.minIdle == p.minIdle
    requires forall s <- Pooled(p) :: Rests(p, s) ==> Rests(q, s)
    requires forall s | s in p.sessions && p.sessions[s].closed :: s in q.sessions && q.sessions[s].closed
    ensures Reaping(q)
  {
  }

  lemma ReapingAside(p: State, step: Step)
    requires Inv(p) && Enabled(p, step) && Aside(step)
    ensures Reaping(Apply(p, step))
  {
    hide Enabled, Apply, Counted, Rests;
    var q := Apply(p, step);
    if p.lock.Counting? || p.lock.Reaper? {
      PoolStands(p, step);
      ClosedStays(p, step);
      forall s | s in Pooled(p) && Rests(p, s) ensures Rests(q, s) {
        StaysAtRest(p, step, s);
      }
      hide Reaping, Separate;
      ReapingFrame(p, q);
    } else {
      FreeAside(p, step);
    }
  }

  lemma FreeAside(p: State, step: Step)
    requires Enabled(p, step) && Aside(step) && (p.lock.Free? || p.lock.Acquirer?)
    ensures Reaping(Apply(p, step))
  {
  }

  lemma PoolStands(p: State, step: Step)
    requires Enabled(p, step) && Aside(step) && (p.lock.Counting? || p.lock.Reaper?)
    ensures var q := Apply(p, step); q.lock == p.lock && q.pool == p.pool && q.minIdle == p.minIdle
  {
  }

  lemma ClosedStays(p: State, step: Step)
    requires Enabled(p, step)
    ensures forall s <- p.sessions.Keys ::
      s in Apply(p, step).sessions && (p.sessions[s].closed ==> Apply(p, step).sessions[s].closed)
  {
    hide Session.Filed;
  }

  lemma CountedOne(uncounted: seq<Id>, seen: set<Id>)
    requires uncounted != [] && Distinct(uncounted) && forall t <- uncounted :: t !in seen
    ensures Distinct(uncounted[1..]) && uncounted[0] in uncounted
    ensures forall t <- uncounted[1..] :: t in uncounted && t !in seen + {uncounted[0]}
    ensures |seen + {uncounted[0]}| == |seen| + 1
  {
  }

  lemma ReapingCount(p: State)
    requires Reaping(p) && Enabled(p, Count)
    ensures Reaping(Apply(p, Count))
  {
    CountedOne(p.lock.uncounted, p.lock.seen);
    hide Distinct;
  }

  lemma ReapingBounds(p: State, step: Step)
    requires Inv(p) && Enabled(p, step) && (step.Reap? || step.EndCount? || step.EndReap?)
    ensures Reaping(Apply(p, step))
  {
    hide Counted;
  }

  lemma ReapingJudge(p: State, step: Step)
    requires Inv(p) && Enabled(p, step) && (step.Check? || step.Judge?)
    ensures Reaping(Apply(p, step))
  {
    hide Counted, Separate;
    var s, todo := p.lock.todo[0], p.lock.todo[1..];
    assert forall t :: t in p.lock.todo <==> t == s || t in todo;
    assert forall t :: t in p.lock.kept + [s] <==> t in p.lock.kept || t == s;
  }

  lemma ReapingStep(p: State, step: Step)
    requires Inv(p) && Enabled(p, step)
    ensures Reaping(Apply(p, step))
  {
    hide Enabled, Apply, Reaping, Separate, Counted;
    assert Reaping(p);
    if Aside(step) {
      ReapingAside(p, step);
    } else if step.Check? || step.Judge? {
      ReapingJudge(p, step);
    } else if step.Count? {
      ReapingCount(p);
    } else {
      ReapingBounds(p, step);
    }
  }

  lemma MinimumStays(p: State, step: Step)
    requires Enabled(p, step)
    ensures Apply(p, step).minIdle == p.minIdle
  {
  }

  lemma {:induction false} EveryState(minIdle: nat, steps: seq<Step>)
    requires Possible(Start(minIdle), steps)
    ensures Inv(After(Start(minIdle), steps)) && After(Start(minIdle), steps).minIdle == minIdle
  {
    if steps != [] {
      var before := steps[..|steps| - 1];
      EveryState(minIdle, before);
      SeparateStep(After(Start(minIdle), before), steps[|steps| - 1]);
      CountedStep(After(Start(minIdle), before), steps[|steps| - 1]);
      ReapingStep(After(Start(minIdle), before), steps[|steps| - 1]);
      MinimumStays(After(Start(minIdle), before), steps[|steps| - 1]);
    }
  }

  // ---- What holds in every state of every run ----

  /** In a live session the counter is one or zero and says whether the session is in use: it is the
      reservations, the open streams and those whose removal is under way, so at most one of them all. */
  lemma LiveSession(minIdle: nat, steps: seq<Step>, s: Id)
    requires Possible(Start(minIdle), steps)
    requires s in After(Start(minIdle), steps).sessions && !After(Start(minIdle), steps).sessions[s].closed
    ensures var x := After(Start(minIdle), steps).sessions[s];
      && |x.open| <= x.active <= 1
      && x.active == x.reservations + |x.open| + |x.removing|
      && (x.active == 0 <==> x.Unused())
      && (x.reservations > 0 ==> x.Filed(x.next % WIRE_IDS) == {})
  {
    hide Possible, After, Separate, Session.Phased;
    EveryState(minIdle, steps);
    var x := After(Start(minIdle), steps).sessions[s];
    assert |x.open| >= 0 && |x.removing| >= 0;
    if x.reservations > 0 {
      NothingDisplaced(x);
    }
  }

  /** How often a stream's session counter was taken down on its behalf. */
  function Lowerings(steps: seq<Step>, s: Id, stream: nat): nat {
    if steps == [] then 0
    else Lowerings(steps[..|steps| - 1], s, stream) + if steps[|steps| - 1] == Lower(s, stream) then 1 else 0
  }

  lemma LoweringStep(p: State, step: Step, s: Id, stream: nat)
    requires Inv(p) && Enabled(p, step) && 0 < stream
    ensures s in p.sessions ==> s in Apply(p, step).sessions
    ensures var was := s in p.sessions && stream in p.sessions[s].lowered;
      var now := s in Apply(p, step).sessions && stream in Apply(p, step).sessions[s].lowered;
      (now <==> was || step == Lower(s, stream)) && !(was && step == Lower(s, stream))
  {
    hide Separate, Reaping;
    hide Session.Accounted, Session.Filed;
  }

  /** However many times a stream is removed, the counter goes down for it at most once, and in a live
      session every stream opened is in the map, on its way out, or has been counted down just once. */
  lemma {:induction false} LoweredOnce(minIdle: nat, steps: seq<Step>, s: Id, stream: nat)
    requires Possible(Start(minIdle), steps) && 0 < stream
    ensures var q := After(Start(minIdle), steps);
      && Lowerings(steps, s, stream) == (if s in q.sessions && stream in q.sessions[s].lowered then 1 else 0)
      && (s in q.sessions && !q.sessions[s].closed && stream < q.sessions[s].next ==>
            stream in q.sessions[s].open + q.sessions[s].removing || Lowerings(steps, s, stream) == 1)
  {
    hide Separate, Apply, Enabled, Session.Filed;
    EveryState(minIdle, steps);
    if steps != [] {
      var before := steps[..|steps| - 1];
      LoweredOnce(minIdle, before, s, stream);
      EveryState(minIdle, before);
      LoweringStep(After(Start(minIdle), before), steps[|steps| - 1], s, stream);
    }
    var q := After(Start(minIdle), steps);
    if s in q.sessions && !q.sessions[s].closed && stream < q.sessions[s].next {
      var x := q.sessions[s];
      assert x.Phased() && x.Accounted();
      assert stream in x.open + x.removing + x.lowered + x.swept;
    }
  }

  /** A session the reaper has picked, up to the moment it closes it, is in nobody's use, and no
      connector can come by it: live, it has no reservation and no stream, and none can arise. */
  lemma ReaperSparesUsed(minIdle: nat, steps: seq<Step>, s: Id)
    requires Possible(Start(minIdle), steps)
    requires s in After(Start(minIdle), steps).retired
    ensures var q := After(Start(minIdle), steps);
      && s in q.sessions && (q.sessions[s].closed || q.sessions[s].Unused())
      && s !in Pooled(q)
      && !Enabled(q, Reserve(s)) && !Enabled(q, ReserveNew(s))
      && (!q.sessions[s].closed ==> !Enabled(q, Insert(s)))
  {
    hide Possible, After, Session.Phased, Session.Filed;
    EveryState(minIdle, steps);
    if !After(Start(minIdle), steps).sessions[s].closed {
      LiveSession(minIdle, steps, s);
    }
  }

  /** The sessions a pass has kept that are idle now, and those it had counted as idle that are closed. */
  ghost function IdleKept(p: State): set<Id>
    requires p.lock.Reaper?
  {
    set s | s in p.lock.kept && s in p.sessions && !p.sessions[s].closed && p.sessions[s].active == 0
  }

  ghost function ClosedSince(p: State): set<Id>
    requires p.lock.Reaper?
  {
    set s | s in p.lock.seen && s in p.sessions && p.sessions[s].closed
  }

  /** At the end of a pass, whatever went on meanwhile: of the sessions counted as idle at least the
      minimum, or all, are left idle in the pool, less those of them that are closed by then. */
  lemma ReapKeepsMinimum(minIdle: nat, steps: seq<Step>)
    requires Possible(Start(minIdle), steps)
    requires var q := After(Start(minIdle), steps); q.lock.Reaper? && q.lock.todo == []
    ensures var q := After(Start(minIdle), steps);
      |IdleKept(q)| >= Min(minIdle, |q.lock.seen|) - |ClosedSince(q)|
  {
    hide Possible, After, Separate, Counted;
    EveryState(minIdle, steps);
    var q := After(Start(minIdle), steps);
    var left, lost := IdleKept(q), ClosedSince(q);
    assert q.lock.seen <= left + lost + q.lock.picked;
    assert |q.lock.picked| + Min(q.minIdle, |q.lock.seen|) <= |q.lock.seen|;
    hide Reaping;
    SubsetSize(q.lock.seen, left + lost + q.lock.picked);
    UnionSize(left, lost);
    UnionSize(left + lost, q.lock.picked);
  }

  lemma UnionSize(a: set<Id>, b: set<Id>)
    ensures |a + b| <= |a| + |b|
  {
    assert a + b == a + (b - a) && a !! b - a;
    SubsetSize(b - a, b);
  }

  lemma {:induction false} SubsetSize(a: set<Id>, b: set<Id>)
    requires a <= b
    ensures |a| <= |b|
  {
    if a != {} {
      var x :| x in a;
      SubsetSize(a - {x}, b - {x});
    }
  }

  // ---- One pass of the reaper ----

  /** What a pass reads of a session: whether it is closed, its counter is zero, and it was last used
      too long ago. */
  datatype Seen = Seen(closed: bool, idle: bool, expired: bool)

  function CountIdle(pool: seq<Seen>): nat {
    if pool == [] then 0 else (if pool[0].idle then 1 else 0) + CountIdle(pool[1..])
  }

  function CountLive(pool: seq<Seen>): nat {
    if pool == [] then 0 else (if pool[0].idle && !pool[0].closed then 1 else 0) + CountLive(pool[1..])
  }

  function CountExpired(pool: seq<Seen>): (n: nat)
    ensures n <= CountLive(pool)
  {
    if pool == [] then 0
    else (if pool[0].idle && !pool[0].closed && pool[0].expired then 1 else 0) + CountExpired(pool[1..])
  }

  /** The sessions kept and those retired, with so many idle sessions still counted. */
  function Pass(pool: seq<Seen>, idle: nat, minIdle: nat): (seq<Seen>, seq<Seen>) {
    if pool == [] then ([], [])
    else if pool[0].closed then Pass(pool[1..], idle, minIdle)
    else if Spared(if pool[0].idle then 0 else 1, idle, minIdle, pool[0].expired) then
      var (kept, retired) := Pass(pool[1..], idle, minIdle);
      ([pool[0]] + kept, retired)
    else
      var (kept, retired) := Pass(pool[1..], idle - 1, minIdle);
      (kept, [pool[0]] + retired)
  }

  lemma PassOne(pool: seq<Seen>, i: nat, idle: nat, minIdle: nat)
    requires i < |pool|
    ensures var x, rest := pool[i], pool[i + 1..];
            Pass(pool[i..], idle, minIdle) ==
              if x.closed then Pass(rest, idle, minIdle)
              else if Spared(if x.idle then 0 else 1, idle, minIdle, x.expired) then
                ([x] + Pass(rest, idle, minIdle).0, Pass(rest, idle, minIdle).1)
              else (Pass(rest, idle - 1, minIdle).0, [x] + Pass(rest, idle - 1, minIdle).1)
  {
    assert pool[i..][1..] == pool[i + 1..];
  }

  lemma PassEnd(minIdle: nat)
    ensures forall n: nat :: Pass([], n, minIdle) == ([], [])
  {
  }

  lemma Regroup(a: seq<Seen>, x: Seen, b: seq<Seen>)
    ensures a + ([x] + b) == a + [x] + b
  {
  }

  /** The reaper's pass over the pool: count the idle sessions, then drop the closed ones and retire
      expired idle ones while more than the minimum is left of the count. */
  method ReapPass(pool: seq<Seen>, minIdle: nat) returns (kept: seq<Seen>, retired: seq<Seen>)
    ensures kept == Pass(pool, CountIdle(pool), minIdle).0
    ensures retired == Pass(pool, CountIdle(pool), minIdle).1
  {
    var idle := 0;
    var i := 0;
    while i < |pool|
      invariant 0 <= i <= |pool| && idle + CountIdle(pool[i..]) == CountIdle(pool)
    {
      assert pool[i..][1..] == pool[i + 1..];
      idle := idle + if pool[i].idle then 1 else 0;
      i := i + 1;
    }
    kept, retired, i := [], [], 0;
    ghost var whole := Pass(pool, CountIdle(pool), minIdle);
    assert pool[0..] == pool;
    PassEnd(minIdle);
    hide Pass, CountIdle;
    while i < |pool|
      invariant 0 <= i <= |pool| && 0 <= idle
      invariant kept + Pass(pool[i..], idle, minIdle).0 == whole.0
      invariant retired + Pass(pool[i..], idle, minIdle).1 == whole.1
    {
      var x := pool[i];
      PassOne(pool, i, idle, minIdle);
      if !x.closed {
        if Spared(if x.idle then 0 else 1, idle, minIdle, x.expired) {
          Regroup(kept, x, Pass(pool[i + 1..], idle, minIdle).0);
          kept := kept + [x];
        } else {
          idle := idle - 1;
          Regroup(retired, x, Pass(pool[i + 1..], idle, minIdle).1);
          retired := retired + [x];
        }
      }
      i := i + 1;
    }
  }

  /** A pass retires only expired idle sessions: all of them, unless the count runs down to the
      minimum first. */
  lemma {:induction false} PassCounts(pool: seq<Seen>, idle: nat, minIdle: nat)
    ensures var (kept, retired) := Pass(pool, idle, minIdle);
      && CountLive(kept) + |retired| == CountLive(pool)
      && |retired| == Min(CountExpired(pool), if idle <= minIdle then 0 else idle - minIdle)
  {
    if pool != [] {
      var x, rest := pool[0], pool[1..];
      if x.closed {
        PassCounts(rest, idle, minIdle);
      } else if Spared(if x.idle then 0 else 1, idle, minIdle, x.expired) {
        PassCounts(rest, idle, minIdle);
        var kept := Pass(rest, idle, minIdle).0;
        assert ([x] + kept)[1..] == kept;
      } else {
        PassCounts(rest, idle - 1, minIdle);
      }
    }
  }

  /** A pass drops every closed session, loses no other, and retires expired idle ones only. */
  lemma {:induction false} PassDivides(pool: seq<Seen>, idle: nat, minIdle: nat)
    ensures var (kept, retired) := Pass(pool, idle, minIdle);
      && multiset(kept) + multiset(retired) == multiset(Live(pool))
      && (forall x <- kept :: !x.closed)
      && (forall x <- retired :: x.idle && !x.closed && x.expired)
  {
    if pool != [] {
      var x, rest := pool[0], pool[1..];
      var spared := x.closed || Spared(if x.idle then 0 else 1, idle, minIdle, x.expired);
      PassDivides(rest, if spared then idle else idle - 1, minIdle);
      assert multiset([x] + Live(rest)) == multiset{x} + multiset(Live(rest));
    }
  }

  function Live(pool: seq<Seen>): seq<Seen> {
    if pool == [] then [] else (if pool[0].closed then [] else [pool[0]]) + Live(pool[1..])
  }

  /** A pass leaves as many live idle sessions as the minimum asks for, or as there were, exactly when
      no closed session was counted as idle, or the count did not exceed the minimum, or few enough
      had expired. */
  lemma MinIdleKept(pool: seq<Seen>, minIdle: nat)
    ensures CountLive(Pass(pool, CountIdle(pool), minIdle).0) >= Min(minIdle, CountLive(pool)) <==>
        CountIdle(pool) == CountLive(pool) || CountIdle(pool) <= minIdle
        || CountExpired(pool) <= (if CountLive(pool) <= minIdle then 0 else CountLive(pool) - minIdle)
  {
    PassCounts(pool, CountIdle(pool), minIdle);
    LiveAreIdle(pool);
  }

  lemma {:induction false} LiveAreIdle(pool: seq<Seen>)
    ensures CountLive(pool) <= CountIdle(pool)
  {
    if pool != [] {
      LiveAreIdle(pool[1..]);
    }
  }

  /** With one session to keep, a closed one beside it costs the pool its last live idle session. */
  lemma ClosedCountsAsIdle()
    ensures var pool := [Seen(true, true, true), Seen(false, true, true)];
      CountLive(pool) == 1 && CountLive(Pass(pool, CountIdle(pool), 1).0) == 0
  {
    var shut, stale := Seen(true, true, true), Seen(false, true, true);
    var pool := [shut, stale];
    assert pool[1..] == [stale] && [stale][1..] == [];
    assert CountLive([stale]) == 1 && CountIdle([stale]) == 1;
    assert CountIdle(pool) == 2 && CountLive(pool) == 1;
    MinIdleKept(pool, 1);
    assert CountExpired([stale]) == 1;
  }
}
