/** The registry of outbounds, and the order in which they are started and closed. */
module OutboundManagers {
  import opened Wrappers

  datatype Outbound = Outbound(tag: string, dependencies: seq<string>)

  type Registry = map<string, Outbound>

  datatype AddError = EmptyTag | DuplicateTag(tag: string)

  datatype OrderError = Missing(dependency: string, tag: string) | Circular(involving: set<string>)

  datatype RunError = CannotOrder(error: OrderError) | Failed(tag: string)

  // ---- The dependency graph ----

  predicate DependsOn(entries: Registry, tag: string, dependency: string) {
    tag in entries && dependency in entries[tag].dependencies
  }

  ghost predicate Complete(entries: Registry) {
    forall tag, dependency | DependsOn(entries, tag, dependency) :: dependency in entries
  }

  /** A walk along dependencies. */
  ghost predicate Walk(entries: Registry, path: seq<string>) {
    forall i | 0 <= i < |path| - 1 :: DependsOn(entries, path[i], path[i + 1])
  }

  ghost predicate Cycle(entries: Registry, path: seq<string>) {
    |path| > 1 && path[0] == path[|path| - 1] && Walk(entries, path)
  }

  ghost predicate Acyclic(entries: Registry) {
    forall path :: !Cycle(entries, path)
  }

  /** A set of outbounds each of which waits for another of the set. */
  ghost predicate Deadlocked(entries: Registry, tags: set<string>) {
    forall tag <- tags :: Waits(entries, tags, tag)
  }

  ghost predicate Waits(entries: Registry, tags: set<string>, tag: string) {
    tag in entries && exists dependency <- tags :: DependsOn(entries, tag, dependency)
  }

  /** The first unregistered dependency, in registration order. */
  function FirstMissing(entries: Registry, order: seq<string>): Option<(string, string)>
    requires forall tag <- order :: tag in entries
  {
    if order == [] then None
    else
      match Unregistered(entries, entries[order[0]].dependencies)
      case Some(dependency) => Some((dependency, order[0]))
      case None => FirstMissing(entries, order[1..])
  }

  function Unregistered(entries: Registry, dependencies: seq<string>): Option<string> {
    if dependencies == [] then None
    else if dependencies[0] !in entries then Some(dependencies[0])
    else Unregistered(entries, dependencies[1..])
  }

  // ---- What a start order is ----

  function Tags(outbounds: seq<Outbound>): (tags: seq<string>)
    ensures |tags| == |outbounds| && forall i | 0 <= i < |tags| :: tags[i] == outbounds[i].tag
  {
    seq(|outbounds|, i requires 0 <= i < |outbounds| => outbounds[i].tag)
  }

  ghost predicate Distinct(tags: seq<string>) {
    forall i, j | 0 <= i < j < |tags| :: tags[i] != tags[j]
  }

  ghost predicate DependenciesFirst(entries: Registry, tags: seq<string>) {
    forall i, dependency | 0 <= i < |tags| && DependsOn(entries, tags[i], dependency) :: dependency in tags[..i]
  }

  /** Every registered outbound once, as registered, after everything it depends on. */
  ghost predicate StartOrder(entries: Registry, outbounds: seq<Outbound>) {
    && Distinct(Tags(outbounds))
    && (forall x <- outbounds :: x.tag in entries && entries[x.tag] == x)
    && (forall tag <- entries.Keys :: tag in Tags(outbounds))
    && DependenciesFirst(entries, Tags(outbounds))
  }

  // ---- Deadlock and cycles ----

  /** A cycle's outbounds wait for each other. */
  lemma CycleDeadlocks(entries: Registry, path: seq<string>)
    requires Cycle(entries, path)
    ensures (set tag | tag in path) != {} && Deadlocked(entries, set tag | tag in path)
  {
    var tags := set tag | tag in path;
    assert path[0] in tags;
    forall tag | tag in tags ensures Waits(entries, tags, tag) {
      var i :| 0 <= i < |path| && path[i] == tag;
      var k := if i == |path| - 1 then 0 else i;
      assert DependsOn(entries, path[k], path[k + 1]) && path[k + 1] in tags;
    }
  }

  lemma WalkFrom(entries: Registry, tag: string, rest: seq<string>)
    requires rest != [] && DependsOn(entries, tag, rest[0]) && Walk(entries, rest)
    ensures Walk(entries, [tag] + rest)
  {
    var path := [tag] + rest;
    forall i | 0 <= i < |path| - 1 ensures DependsOn(entries, path[i], path[i + 1]) {
      if i > 0 {
        assert DependsOn(entries, rest[i - 1], rest[i]);
      }
    }
  }

  /** From any outbound of a deadlocked set a walk of any length stays in the set. */
  lemma {:induction false} LongWalk(entries: Registry, tags: set<string>, tag: string, length: nat) returns (path: seq<string>)
    requires Deadlocked(entries, tags) && tag in tags
    ensures |path| == length + 1 && path[0] == tag && Walk(entries, path)
    ensures forall t <- path :: t in tags
    decreases length
  {
    hide DependsOn;
    if length == 0 {
      path := [tag];
    } else {
      assert Waits(entries, tags, tag);
      var dependency :| dependency in tags && DependsOn(entries, tag, dependency);
      hide Deadlocked, Waits;
      var rest := LongWalk(entries, tags, dependency, length - 1);
      path := [tag] + rest;
      WalkFrom(entries, tag, rest);
      hide Walk;
    }
  }

  /** More places than values: two places hold the same value. */
  lemma {:induction false} Pigeonhole(path: seq<string>, tags: set<string>) returns (i: nat, j: nat)
    requires (forall t <- path :: t in tags) && |path| > |tags|
    ensures i < j < |path| && path[i] == path[j]
    decreases |path|
  {
    var last := |path| - 1;
    if k :| 0 <= k < last && path[k] == path[last] {
      i, j := k, last;
    } else {
      assert path[last] in tags;
      assert |tags - {path[last]}| == |tags| - 1;
      i, j := Pigeonhole(path[..last], tags - {path[last]});
    }
  }

  lemma DeadlockCycles(entries: Registry, tags: set<string>) returns (loop: seq<string>)
    requires tags != {} && Deadlocked(entries, tags)
    ensures Cycle(entries, loop)
  {
    var tag :| tag in tags;
    var path := LongWalk(entries, tags, tag, |tags|);
    var i, j := Pigeonhole(path, tags);
    loop := path[i..j + 1];
    forall k | 0 <= k < |loop| - 1 ensures DependsOn(entries, loop[k], loop[k + 1]) {
      assert DependsOn(entries, path[i + k], path[i + k + 1]);
    }
  }

  /** Outbounds can wait for each other exactly when the graph has a cycle. */
  lemma DeadlockIffCycle(entries: Registry)
    ensures (exists tags :: tags != {} && Deadlocked(entries, tags)) <==> !Acyclic(entries)
  {
    hide Deadlocked, Cycle;
    if tags :| tags != {} && Deadlocked(entries, tags) {
      var loop := DeadlockCycles(entries, tags);
    }
    if !Acyclic(entries) {
      var path :| Cycle(entries, path);
      CycleDeadlocks(entries, path);
      var tags := set tag | tag in path;
      assert tags != {} && Deadlocked(entries, tags);
    }
  }

  /** Nothing that waits for itself can be put in order. */
  lemma {:induction false} OrderedIsFree(entries: Registry, tags: seq<string>, waiting: set<string>, n: nat)
    requires DependenciesFirst(entries, tags) && Deadlocked(entries, waiting) && n <= |tags|
    ensures forall i | 0 <= i < n :: tags[i] !in waiting
    decreases n
  {
    if n > 0 {
      OrderedIsFree(entries, tags, waiting, n - 1);
      hide DependsOn;
      var tag, earlier := tags[n - 1], tags[..n - 1];
      assert forall d | DependsOn(entries, tag, d) :: d in earlier;
      assert forall d | d in earlier :: d !in waiting;
      assert !Waits(entries, waiting, tag);
    }
  }

  lemma {:induction false} UnregisteredMeaning(entries: Registry, dependencies: seq<string>)
    ensures Unregistered(entries, dependencies).None? <==> forall d <- dependencies :: d in entries
    ensures Unregistered(entries, dependencies).Some? ==>
      Unregistered(entries, dependencies).value in dependencies && Unregistered(entries, dependencies).value !in entries
  {
    if dependencies != [] {
      UnregisteredMeaning(entries, dependencies[1..]);
    }
  }

  lemma {:induction false} MissingMeaning(entries: Registry, order: seq<string>)
    requires forall tag <- order :: tag in entries
    ensures FirstMissing(entries, order).None? <==> forall tag <- order :: forall d <- entries[tag].dependencies :: d in entries
    ensures FirstMissing(entries, order).Some? ==>
      var (dependency, tag) := FirstMissing(entries, order).value;
      DependsOn(entries, tag, dependency) && dependency !in entries
  {
    if order != [] {
      UnregisteredMeaning(entries, entries[order[0]].dependencies);
      MissingMeaning(entries, order[1..]);
    }
  }

  lemma {:induction false} MissingAt(entries: Registry, order: seq<string>, i: nat)
    requires (forall tag <- order :: tag in entries) && i <= |order|
    requires forall j | 0 <= j < i :: Unregistered(entries, entries[order[j]].dependencies).None?
    ensures FirstMissing(entries, order) == FirstMissing(entries, order[i..])
  {
    if i == 0 {
      assert order[0..] == order;
    } else {
      assert order[1..][i - 1..] == order[i..];
      forall j | 0 <= j < i - 1 ensures Unregistered(entries, entries[order[1..][j]].dependencies).None? {
        assert order[1..][j] == order[j + 1];
      }
      MissingAt(entries, order[1..], i - 1);
    }
  }

  // ---- The manager ----

  /** Where `Ordered` stands between two outbounds. */
  ghost predicate Sorting(entries: Registry, remaining: set<string>, resolved: set<string>, result: seq<Outbound>) {
    && remaining + resolved == entries.Keys && remaining !! resolved
    && (forall tag :: tag in resolved <==> tag in Tags(result))
    && Distinct(Tags(result))
    && (forall x <- result :: x.tag in entries && entries[x.tag] == x)
    && DependenciesFirst(entries, Tags(result))
  }

  lemma SetsOf(entries: Registry, remaining: set<string>, resolved: set<string>, result: seq<Outbound>)
    requires Sorting(entries, remaining, resolved, result)
    ensures remaining + resolved == entries.Keys
  {
  }

  lemma NothingSorted(entries: Registry, remaining: set<string>)
    requires remaining == entries.Keys
    ensures Sorting(entries, remaining, {}, [])
  {
  }

  lemma FirstStill(entries: Registry, tags: seq<string>, tag: string)
    requires DependenciesFirst(entries, tags) && tag in entries
    requires forall d <- entries[tag].dependencies :: d in tags
    ensures DependenciesFirst(entries, tags + [tag])
  {
    var after := tags + [tag];
    forall i, dependency | 0 <= i < |after| && DependsOn(entries, after[i], dependency) ensures dependency in after[..i] {
      assert after[..i] == tags[..i];
    }
  }

  lemma SortedOne(entries: Registry, remaining: set<string>, resolved: set<string>, result: seq<Outbound>, tag: string)
    requires Sorting(entries, remaining, resolved, result) && tag in remaining && entries[tag].tag == tag
    requires forall d <- entries[tag].dependencies :: d in resolved
    ensures Sorting(entries, remaining - {tag}, resolved + {tag}, result + [entries[tag]])
    ensures |remaining - {tag}| == |remaining| - 1
  {
    var tags, after := Tags(result), Tags(result + [entries[tag]]);
    assert after == tags + [tag];
    FirstStill(entries, tags, tag);
    hide DependenciesFirst, Tags;
  }

  ghost predicate Stuck(entries: Registry, resolved: set<string>, tag: string) {
    tag in entries && exists d <- entries[tag].dependencies :: d !in resolved
  }

  /** Where a pass over the order stands before its outbound `k`, having begun with `before`. */
  ghost predicate Passing(entries: Registry, order: seq<string>, k: nat, before: set<string>, remaining: set<string>,
                          resolved: set<string>, progressed: bool)
    requires k <= |order| && forall tag <- order :: tag in entries
  {
    && remaining <= before && (progressed <==> remaining != before)
    && (before == entries.Keys ==> forall j | k <= j < |order| :: order[j] in remaining)
    && (before == entries.Keys ==> forall j | 0 <= j < k :: Unregistered(entries, entries[order[j]].dependencies).None?)
    && (before != entries.Keys ==> FirstMissing(entries, order).None?)
    && (!progressed ==> forall j | 0 <= j < k && order[j] in remaining :: Stuck(entries, resolved, order[j]))
  }

  lemma NothingPassed(entries: Registry, order: seq<string>, before: set<string>, resolved: set<string>)
    requires (forall tag :: tag in entries <==> tag in order)
    requires before == entries.Keys || FirstMissing(entries, order).None?
    ensures Passing(entries, order, 0, before, before, resolved, false)
  {
  }

  lemma Shrunk(entries: Registry, order: seq<string>, before: set<string>, remaining: set<string>, resolved: set<string>)
    requires forall tag <- order :: tag in entries
    requires Passing(entries, order, |order|, before, remaining, resolved, true)
    ensures |remaining| < |before|
  {
    Smaller(remaining, before);
  }

  lemma Smaller(a: set<string>, b: set<string>)
    requires a < b
    ensures |a| < |b|
  {
    assert b == a + (b - a) && a !! b - a;
  }

  lemma PassedOver(entries: Registry, order: seq<string>, k: nat, before: set<string>, remaining: set<string>,
                   resolved: set<string>, progressed: bool)
    requires k < |order| && forall tag <- order :: tag in entries
    requires Passing(entries, order, k, before, remaining, resolved, progressed)
    requires order[k] in remaining ==>
      Unregistered(entries, entries[order[k]].dependencies).None? && Stuck(entries, resolved, order[k])
    ensures Passing(entries, order, k + 1, before, remaining, resolved, progressed)
  {
    hide Unregistered, FirstMissing, Stuck;
  }

  lemma PassedOne(entries: Registry, order: seq<string>, k: nat, before: set<string>, remaining: set<string>,
                  resolved: set<string>, progressed: bool)
    requires k < |order| && (forall tag <- order :: tag in entries) && Distinct(order)
    requires Passing(entries, order, k, before, remaining, resolved, progressed)
    requires order[k] in remaining && Unregistered(entries, entries[order[k]].dependencies).None?
    ensures Passing(entries, order, k + 1, before, remaining - {order[k]}, resolved + {order[k]}, true)
  {
    hide Unregistered, FirstMissing, Stuck;
  }

  /** A dependency found unregistered is the first one, in the first pass. */
  lemma FoundMissing(entries: Registry, order: seq<string>, k: nat, before: set<string>, remaining: set<string>,
                     resolved: set<string>, progressed: bool)
    requires k < |order| && forall tag <- order :: tag in entries
    requires Passing(entries, order, k, before, remaining, resolved, progressed)
    requires Unregistered(entries, entries[order[k]].dependencies).Some?
    ensures FirstMissing(entries, order) == Some((Unregistered(entries, entries[order[k]].dependencies).value, order[k]))
  {
    assert order[k] in order;
    MissingMeaning(entries, order);
    UnregisteredMeaning(entries, entries[order[k]].dependencies);
    if before == entries.Keys {
      MissingAt(entries, order, k);
    }
  }

  lemma NoOrder(entries: Registry, tags: set<string>)
    requires tags != {} && Deadlocked(entries, tags)
    ensures !Acyclic(entries)
  {
    hide Deadlocked;
    DeadlockIffCycle(entries);
  }

  lemma FullPassMissing(entries: Registry, order: seq<string>, before: set<string>, remaining: set<string>,
                        resolved: set<string>, progressed: bool)
    requires forall tag :: tag in entries <==> tag in order
    requires Passing(entries, order, |order|, before, remaining, resolved, progressed)
    ensures FirstMissing(entries, order).None? && Complete(entries)
  {
    if before == entries.Keys {
      MissingAt(entries, order, |order|);
    }
    NoneMissing(entries, order);
  }

  /** A full pass without progress finds a set that waits for itself. */
  lemma FullPass(entries: Registry, order: seq<string>, before: set<string>, remaining: set<string>, resolved: set<string>)
    requires (forall tag :: tag in entries <==> tag in order) && remaining + resolved == entries.Keys
    requires Passing(entries, order, |order|, before, remaining, resolved, false)
    requires Complete(entries)
    ensures remaining == before && Deadlocked(entries, remaining)
  {
    hide Unregistered, FirstMissing;
    forall tag | tag in remaining ensures Waits(entries, remaining, tag) {
      var j :| 0 <= j < |order| && order[j] == tag;
      assert Stuck(entries, resolved, tag);
      hide Stuck, Passing;
      StuckWaits(entries, remaining, resolved, tag);
    }
  }

  lemma StuckWaits(entries: Registry, remaining: set<string>, resolved: set<string>, tag: string)
    requires Stuck(entries, resolved, tag) && remaining + resolved == entries.Keys
    requires Complete(entries)
    ensures Waits(entries, remaining, tag)
  {
    var d :| d in entries[tag].dependencies && d !in resolved;
    assert DependsOn(entries, tag, d);
    assert d in entries.Keys;
  }

  lemma NoneMissing(entries: Registry, order: seq<string>)
    requires forall tag :: tag in entries <==> tag in order
    ensures FirstMissing(entries, order).None? <==> Complete(entries)
  {
    MissingMeaning(entries, order);
    if tag :| tag in order && exists d <- entries[tag].dependencies :: d !in entries {
      var d :| d in entries[tag].dependencies && d !in entries;
      assert DependsOn(entries, tag, d);
    }
  }

  /** What no progress means for every set that waits for itself. */
  lemma AllWaiting(entries: Registry, remaining: set<string>, resolved: set<string>, result: seq<Outbound>)
    requires Sorting(entries, remaining, resolved, result)
    ensures forall tags | Deadlocked(entries, tags) :: tags <= remaining
  {
    forall tags | Deadlocked(entries, tags) ensures tags <= remaining {
      OrderedIsFree(entries, Tags(result), tags, |result|);
      forall tag | tag in tags ensures tag in remaining {
        assert Waits(entries, tags, tag);
        assert tag !in Tags(result);
      }
    }
  }

  lemma AllSorted(entries: Registry, order: seq<string>, resolved: set<string>, result: seq<Outbound>)
    requires (forall tag :: tag in entries <==> tag in order)
    requires entries.Keys == {} || FirstMissing(entries, order).None?
    requires Sorting(entries, {}, resolved, result)
    ensures Complete(entries) && Acyclic(entries) && StartOrder(entries, result)
  {
    if order != [] {
      assert order[0] in entries.Keys;
    }
    NoneMissing(entries, order);
    AllWaiting(entries, {}, resolved, result);
    DeadlockIffCycle(entries);
  }

  /** Every outbound comes before everything it depends on. */
  ghost predicate DependentsFirst(entries: Registry, tags: seq<string>) {
    forall i, dependency | 0 <= i < |tags| && DependsOn(entries, tags[i], dependency) :: dependency in tags[i + 1..]
  }

  function Reversed(tags: seq<string>): (r: seq<string>)
    ensures |r| == |tags| && forall i | 0 <= i < |r| :: r[i] == tags[|tags| - 1 - i]
  {
    seq(|tags|, i requires 0 <= i < |tags| => tags[|tags| - 1 - i])
  }

  lemma NothingStarted(entries: Registry)
    ensures DependenciesFirst(entries, [])
  {
  }

  lemma StartedSoFar(entries: Registry, tags: seq<string>, n: nat)
    requires DependenciesFirst(entries, tags) && n <= |tags|
    ensures DependenciesFirst(entries, tags[..n])
  {
    forall i, dependency | 0 <= i < n && DependsOn(entries, tags[..n][i], dependency) ensures dependency in tags[..n][..i] {
      assert tags[..n][..i] == tags[..i];
    }
  }

  lemma ReversedOrder(entries: Registry, tags: seq<string>)
    requires DependenciesFirst(entries, tags) && Distinct(tags)
    ensures DependentsFirst(entries, Reversed(tags)) && Distinct(Reversed(tags))
    ensures forall tag :: tag in tags <==> tag in Reversed(tags)
  {
    var r := Reversed(tags);
    forall i, dependency | 0 <= i < |r| && DependsOn(entries, r[i], dependency) ensures dependency in r[i + 1..] {
      var k := |tags| - 1 - i;
      assert dependency in tags[..k];
      var j :| 0 <= j < k && tags[j] == dependency;
      assert r[i + 1..][|tags| - 1 - j - (i + 1)] == dependency;
    }
    forall tag | tag in tags ensures tag in r {
      var j :| 0 <= j < |tags| && tags[j] == tag;
      assert r[|tags| - 1 - j] == tag;
    }
  }

  lemma OrderTags(entries: Registry, outbounds: seq<Outbound>)
    requires StartOrder(entries, outbounds)
    ensures Distinct(Tags(outbounds)) && DependenciesFirst(entries, Tags(outbounds))
    ensures forall tag :: tag in entries <==> tag in Tags(outbounds)
  {
    forall tag | tag in Tags(outbounds) ensures tag in entries {
      var i :| 0 <= i < |outbounds| && Tags(outbounds)[i] == tag;
      assert outbounds[i] in outbounds;
    }
  }

  /** The first of the log that fails. */
  ghost predicate FirstFailure(log: seq<string>, failing: set<string>, tag: string) {
    tag in failing && exists k | 0 <= k < |log| :: log[k] == tag && Free(log[..k], failing)
  }

  ghost predicate Free(log: seq<string>, failing: set<string>) {
    forall tag <- log :: tag !in failing
  }

  lemma FailureStays(log: seq<string>, failing: set<string>, tag: string, next: string)
    requires FirstFailure(log, failing, tag)
    ensures FirstFailure(log + [next], failing, tag)
  {
    var k :| 0 <= k < |log| && log[k] == tag && Free(log[..k], failing);
    assert (log + [next])[..k] == log[..k];
    assert (log + [next])[k] == tag;
  }

  lemma FailureIn(log: seq<string>, failing: set<string>, tag: string)
    requires FirstFailure(log, failing, tag)
    ensures tag in log && tag in failing
  {
  }

  lemma FailureFound(log: seq<string>, failing: set<string>, tag: string)
    requires Free(log, failing) && tag in failing
    ensures FirstFailure(log + [tag], failing, tag)
  {
    assert (log + [tag])[..|log|] == log;
    assert (log + [tag])[|log|] == tag;
  }

  class OutboundManager {
    var entries: Registry
    var insertionOrder: seq<string>

    ghost predicate Valid()
      reads this
    {
      && Distinct(insertionOrder)
      && (forall tag :: tag in entries <==> tag in insertionOrder)
      && (forall tag <- entries.Keys :: tag != "" && entries[tag].tag == tag)
    }

    constructor ()
      ensures Valid() && entries == map[] && insertionOrder == []
    {
      entries, insertionOrder := map[], [];
    }

    method Add(outbound: Outbound) returns (r: Result<(), AddError>)
      requires Valid()
      modifies this
      ensures Valid()
      ensures r == if outbound.tag == "" then Err(EmptyTag)
                   else if outbound.tag in old(entries) then Err(DuplicateTag(outbound.tag)) else Ok(())
      ensures r.Ok? ==> entries == old(entries)[outbound.tag := outbound] && insertionOrder == old(insertionOrder) + [outbound.tag]
      ensures r.Err? ==> entries == old(entries) && insertionOrder == old(insertionOrder)
    {
      var tag := outbound.tag;
      if tag == "" {
        return Err(EmptyTag);
      }
      if tag in entries {
        return Err(DuplicateTag(tag));
      }
      entries := entries[tag := outbound];
      insertionOrder := insertionOrder + [tag];
      r := Ok(());
    }

    method FindUnregistered(dependencies: seq<string>) returns (missing: Option<string>)
      ensures missing == Unregistered(entries, dependencies)
    {
      for m := 0 to |dependencies|
        invariant Unregistered(entries, dependencies) == Unregistered(entries, dependencies[m..])
      {
        assert dependencies[m..][1..] == dependencies[m + 1..];
        if dependencies[m] !in entries {
          return Some(dependencies[m]);
        }
      }
      missing := None;
    }

    /** A start order, exactly when every dependency is registered and none is circular. A missing
        dependency is reported before a circular one; a circular one with all outbounds it holds up. */
    method Ordered() returns (r: Result<seq<Outbound>, OrderError>)
      requires Valid()
      ensures r.Ok? <==> Complete(entries) && Acyclic(entries)
      ensures r.Ok? ==> StartOrder(entries, r.value)
      ensures r.Err? ==> match r.error
        case Missing(dependency, tag) => FirstMissing(entries, insertionOrder) == Some((dependency, tag))
        case Circular(involving) =>
          && Complete(entries) && involving != {} && Deadlocked(entries, involving)
          && forall tags | Deadlocked(entries, tags) :: tags <= involving
    {
      hide Deadlocked, StartOrder, Acyclic, Complete, FirstMissing, Unregistered, Sorting, Passing, Tags, DependenciesFirst;
      var order := insertionOrder;
      var remaining := set tag | tag in order;
      var resolved: set<string> := {};
      var result: seq<Outbound> := [];
      NothingSorted(entries, remaining);
      while remaining != {}
        invariant Sorting(entries, remaining, resolved, result)
        invariant remaining == entries.Keys || FirstMissing(entries, order).None?
        decreases |remaining|
      {
        var progressed := false;
        ghost var before := remaining;
        NothingPassed(entries, order, before, resolved);
        for k := 0 to |order|
          invariant Sorting(entries, remaining, resolved, result)
          invariant Passing(entries, order, k, before, remaining, resolved, progressed)
        {
          SetsOf(entries, remaining, resolved, result);
          var tag := order[k];
          if tag !in remaining {
            PassedOver(entries, order, k, before, remaining, resolved, progressed);
            continue;
          }
          var outbound := entries[tag];
          var missing := FindUnregistered(outbound.dependencies);
          if missing.Some? {
            FoundMissing(entries, order, k, before, remaining, resolved, progressed);
            NoneMissing(entries, order);
            return Err(Missing(missing.value, tag));
          }
          if forall item <- outbound.dependencies :: item in resolved {
            SortedOne(entries, remaining, resolved, result, tag);
            PassedOne(entries, order, k, before, remaining, resolved, progressed);
            result := result + [outbound];
            resolved := resolved + {tag};
            remaining := remaining - {tag};
            progressed := true;
          } else {
            assert Stuck(entries, resolved, tag);
            PassedOver(entries, order, k, before, remaining, resolved, progressed);
          }
        }
        SetsOf(entries, remaining, resolved, result);
        FullPassMissing(entries, order, before, remaining, resolved, progressed);
        if !progressed {
          FullPass(entries, order, before, remaining, resolved);
          AllWaiting(entries, remaining, resolved, result);
          NoOrder(entries, remaining);
          return Err(Circular(remaining));
        }
        Shrunk(entries, order, before, remaining, resolved);
      }
      AllSorted(entries, order, resolved, result);
      r := Ok(result);
    }

    /** Start everything in order; the first that fails ends it. `failing` are the outbounds whose
        start fails, `log` those that were called. */
    method StartAll(failing: set<string>) returns (r: Result<(), RunError>, log: seq<string>)
      requires Valid()
      ensures DependenciesFirst(entries, log)
      ensures r.Ok? <==> Complete(entries) && Acyclic(entries) && entries.Keys !! failing
      ensures r.Ok? ==> forall tag :: tag in entries <==> tag in log
      ensures r.Err? && r.error.Failed? ==>
        log != [] && log[|log| - 1] == r.error.tag && FirstFailure(log, failing, r.error.tag)
    {
      hide Complete, Acyclic, StartOrder, DependenciesFirst, Distinct, Deadlocked, FirstMissing, FirstFailure, Tags;
      var ordered := Ordered();
      log := [];
      NothingStarted(entries);
      if ordered.Err? {
        return Err(CannotOrder(ordered.error)), log;
      }
      OrderTags(entries, ordered.value);
      ghost var tags := Tags(ordered.value);
      for i := 0 to |ordered.value|
        invariant log == tags[..i] && Free(log, failing)
      {
        var outbound := ordered.value[i];
        StartedSoFar(entries, tags, i + 1);
        assert log + [outbound.tag] == tags[..i + 1];
        if outbound.tag in failing {
          FailureFound(log, failing, outbound.tag);
          assert outbound.tag in tags;
          return Err(Failed(outbound.tag)), log + [outbound.tag];
        }
        log := log + [outbound.tag];
      }
      assert log == tags;
      r := Ok(());
    }

    /** Close everything in reverse order, whatever fails; the first failure is reported. */
    method CloseAll(failing: set<string>) returns (r: Result<(), RunError>, log: seq<string>)
      requires Valid()
      ensures DependentsFirst(entries, log)
      ensures r.Ok? <==> Complete(entries) && Acyclic(entries) && entries.Keys !! failing
      ensures Complete(entries) && Acyclic(entries) ==> Distinct(log) && forall tag :: tag in entries <==> tag in log
      ensures r.Err? && r.error.Failed? ==> FirstFailure(log, failing, r.error.tag)
    {
      hide Complete, Acyclic, StartOrder, DependenciesFirst, Distinct, Deadlocked, FirstMissing, FirstFailure, Tags;
      var ordered := Ordered();
      log := [];
      if ordered.Err? {
        return Err(CannotOrder(ordered.error)), log;
      }
      OrderTags(entries, ordered.value);
      ghost var tags := Tags(ordered.value);
      ReversedOrder(entries, tags);
      var firstError: Option<string> := None;
      var i := |ordered.value|;
      while i > 0
        invariant 0 <= i <= |tags| && log == Reversed(tags)[..|tags| - i]
        invariant if firstError.None? then Free(log, failing) else FirstFailure(log, failing, firstError.value)
      {
        i := i - 1;
        var tag := ordered.value[i].tag;
        if firstError.Some? {
          FailureStays(log, failing, firstError.value, tag);
        } else if tag in failing {
          FailureFound(log, failing, tag);
          firstError := Some(tag);
        }
        log := log + [tag];
      }
      assert log == Reversed(tags);
      if firstError.Some? {
        FailureIn(log, failing, firstError.value);
      }
      r := if firstError.None? then Ok(()) else Err(Failed(firstError.value));
    }
  }
}
