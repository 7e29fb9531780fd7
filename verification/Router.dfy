/** Ordered routing: rules that rewrite the destination and go on, and rules that decide. */
module Routing {
  import opened Wrappers
  import opened RuleMatching
  import OutboundManagers

  datatype Action =
    | Rewrite(host: Option<Host>, port: Option<nat>)
    | RouteTo(outbound: string)
    | Reject(how: string)

  datatype Rule = Rule(matcher: Matcher, action: Action)

  /** The contents of the rule sets at one moment. */
  type Sets = map<string, RuleSet>

  datatype Outcome = To(tag: string) | Rejected(how: string)

  predicate InSomeSet(tags: seq<string>, sets: Sets, s: Session) {
    exists tag <- tags :: tag in sets && SomeMatch(sets[tag], s)
  }

  predicate Matches(m: Matcher, s: Session, sets: Sets) {
    (MatchesBase(m, s) && (m.ruleSets == [] || InSomeSet(m.ruleSets, sets, s))) != m.invert
  }

  function Rewritten(action: Action, s: Session): Session
    requires action.Rewrite?
  {
    var hosted := if action.host.Some? then s.(host := action.host.value) else s;
    if action.port.Some? then hosted.(port := action.port.value) else hosted
  }

  function Decision(action: Action): Outcome
    requires !action.Rewrite?
  {
    if action.RouteTo? then To(action.outbound) else Rejected(action.how)
  }

  /** Left to right, each rule against the rule sets as they are when its turn comes. */
  function Choose(rules: seq<Rule>, snapshots: seq<Sets>, s: Session, otherwise: string): (Session, Outcome)
    requires |snapshots| == |rules|
  {
    if rules == [] then (s, To(otherwise))
    else if !Matches(rules[0].matcher, s, snapshots[0]) then Choose(rules[1..], snapshots[1..], s, otherwise)
    else if rules[0].action.Rewrite? then
      Choose(rules[1..], snapshots[1..], Rewritten(rules[0].action, s), otherwise)
    else (s, Decision(rules[0].action))
  }

  /** The session as the first `n` rules have left it, had none of them decided. */
  function Reaches(rules: seq<Rule>, snapshots: seq<Sets>, s: Session, n: nat): Session
    requires |snapshots| == |rules| && n <= |rules|
  {
    if n == 0 then s
    else
      var before := Reaches(rules, snapshots, s, n - 1);
      if rules[n - 1].action.Rewrite? && Matches(rules[n - 1].matcher, before, snapshots[n - 1]) then
        Rewritten(rules[n - 1].action, before)
      else before
  }

  predicate Decides(rules: seq<Rule>, snapshots: seq<Sets>, s: Session, k: nat)
    requires |snapshots| == |rules|
  {
    k < |rules| && !rules[k].action.Rewrite? && Matches(rules[k].matcher, Reaches(rules, snapshots, s, k), snapshots[k])
  }

  lemma {:induction false} ReachesTail(rules: seq<Rule>, snapshots: seq<Sets>, s: Session, n: nat)
    requires |snapshots| == |rules| && 0 < n <= |rules|
    ensures Reaches(rules, snapshots, s, n) == Reaches(rules[1..], snapshots[1..], Reaches(rules, snapshots, s, 1), n - 1)
  {
    hide Matches;
    if n > 1 {
      ReachesTail(rules, snapshots, s, n - 1);
    }
  }

  /** The first deciding rule decides, for the session as the rewriting rules before it left it; with no
      deciding rule it is the final outbound. */
  lemma {:induction false} FirstDecides(rules: seq<Rule>, snapshots: seq<Sets>, s: Session, otherwise: string, k: nat)
    requires |snapshots| == |rules| && k <= |rules|
    requires forall j | 0 <= j < k :: !Decides(rules, snapshots, s, j)
    requires k < |rules| ==> Decides(rules, snapshots, s, k)
    ensures Choose(rules, snapshots, s, otherwise)
         == (Reaches(rules, snapshots, s, k), if k < |rules| then Decision(rules[k].action) else To(otherwise))
    decreases |rules|
  {
    hide Matches;
    if k > 0 {
      assert !Decides(rules, snapshots, s, 0);
      var next := Reaches(rules, snapshots, s, 1);
      assert next == Reaches(rules, snapshots, s, 0)
        || next == Rewritten(rules[0].action, Reaches(rules, snapshots, s, 0));
      forall j | 0 <= j < |rules[1..]| ensures Decides(rules[1..], snapshots[1..], next, j) <==> Decides(rules, snapshots, s, j + 1) {
        ReachesTail(rules, snapshots, s, j + 1);
      }
      FirstDecides(rules[1..], snapshots[1..], next, otherwise, k - 1);
      ReachesTail(rules, snapshots, s, k);
    }
  }

  lemma {:induction false} FindDecider(rules: seq<Rule>, snapshots: seq<Sets>, s: Session, n: nat) returns (k: nat)
    requires |snapshots| == |rules| && n <= |rules|
    ensures k <= n && (forall j | 0 <= j < k :: !Decides(rules, snapshots, s, j))
    ensures k < n ==> Decides(rules, snapshots, s, k)
  {
    hide Decides;
    k := 0;
    if n > 0 {
      k := FindDecider(rules, snapshots, s, n - 1);
      if k == n - 1 && !Decides(rules, snapshots, s, k) {
        k := n;
      }
    }
  }

  /** Routing changes a session's destination and nothing else. */
  lemma {:induction false} OnlyDestination(rules: seq<Rule>, snapshots: seq<Sets>, s: Session, otherwise: string)
    requires |snapshots| == |rules|
    ensures var chosen := Choose(rules, snapshots, s, otherwise).0;
      chosen == s.(host := chosen.host, port := chosen.port)
  {
    hide Matches;
    if rules != [] {
      OnlyDestination(rules[1..], snapshots[1..], s, otherwise);
      if rules[0].action.Rewrite? {
        OnlyDestination(rules[1..], snapshots[1..], Rewritten(rules[0].action, s), otherwise);
      }
    }
  }

  lemma {:induction false} ReachesInbound(rules: seq<Rule>, snapshots: seq<Sets>, s: Session, n: nat)
    requires |snapshots| == |rules| && n <= |rules|
    ensures var reached := Reaches(rules, snapshots, s, n); reached == s.(host := reached.host, port := reached.port)
  {
    hide Matches;
    if n > 0 {
      ReachesInbound(rules, snapshots, s, n - 1);
    }
  }

  // ---- A list of what is allowed, and everything else rejected ----

  function OnInbound(inbound: string, sets: seq<string>): Matcher {
    Matcher([inbound], [], [], NO_DOMAINS, [], [], None, [], None, NO_PORTS, NO_PORTS, sets, false)
  }

  lemma OnInboundMatches(inbound: string, tags: seq<string>, s: Session, sets: Sets)
    ensures Matches(OnInbound(inbound, tags), s, sets) <==>
      s.inbound == inbound && (tags == [] || InSomeSet(tags, sets, s))
  {
    assert MatchesBase(OnInbound(inbound, tags), s) <==> s.inbound == inbound;
  }

  /** An inbound's allow rule with a rule set, and later its reject rule: a session of the inbound that
      no earlier rule decides goes to the allowed outbound exactly when the rule set has it. Otherwise
      it is rejected, unless a rule in between decides; the final outbound is never its fallback. */
  lemma AllowThenReject(rules: seq<Rule>, snapshots: seq<Sets>, s: Session, otherwise: string,
                        inbound: string, allowed: string, set_: string, i: nat, j: nat, how: string)
    requires |snapshots| == |rules| && i < j < |rules| && s.inbound == inbound && set_ in snapshots[i]
    requires rules[i] == Rule(OnInbound(inbound, [set_]), RouteTo(allowed))
    requires rules[j] == Rule(OnInbound(inbound, []), Reject(how))
    requires forall k | 0 <= k < i :: !Decides(rules, snapshots, s, k)
    ensures var reached := Reaches(rules, snapshots, s, i);
      && (SomeMatch(snapshots[i][set_], reached) ==> Choose(rules, snapshots, s, otherwise) == (reached, To(allowed)))
      && (!SomeMatch(snapshots[i][set_], reached) ==>
            exists k | i < k <= j :: Decides(rules, snapshots, s, k)
              && Choose(rules, snapshots, s, otherwise).1 == Decision(rules[k].action)
              && ((forall n | i < n < j :: !Decides(rules, snapshots, s, n)) ==> k == j))
  {
    var reached := Reaches(rules, snapshots, s, i);
    ReachesInbound(rules, snapshots, s, i);
    ReachesInbound(rules, snapshots, s, j);
    OnInboundMatches(inbound, [set_], reached, snapshots[i]);
    OnInboundMatches(inbound, [], Reaches(rules, snapshots, s, j), snapshots[j]);
    assert InSomeSet([set_], snapshots[i], reached) <==> SomeMatch(snapshots[i][set_], reached);
    hide Matches, Reaches, OnInbound, SomeMatch, InSomeSet;
    assert Decides(rules, snapshots, s, i) <==> SomeMatch(snapshots[i][set_], reached);
    assert Decides(rules, snapshots, s, j);
    hide Decides, Choose;
    var k := FindDecider(rules, snapshots, s, |rules|);
    FirstDecides(rules, snapshots, s, otherwise, k);
  }

  // ---- Building a router ----

  /** A configured rule. `matcher` is None when one of its lists does not parse. */
  datatype RuleConfig = RuleConfig(
    matcher: Option<Matcher>,
    action: string,
    outbound: string,
    overrideHost: Option<Host>,
    overridePort: nat,
    how: string,
    noDrop: bool)

  datatype RuleError =
    | BadCondition
    | NoConditions
    | NoOutbound
    | NothingToOverride
    | UnknownMethod
    | DropWithNoDrop
    | UnknownAction

  datatype BuildError =
    | NoFinalOutbound
    | FinalNotFound
    | EmptySetTag
    | DuplicateSet(tag: string)
    | SetFailed(tag: string)
    | BadRule(index: nat, error: RuleError)
    | SetNotFound(tag: string)
    | OutboundNotFound(tag: string)

  function CompileAction(c: RuleConfig): Result<Action, RuleError> {
    if c.action == "" || c.action == "route" then
      if c.outbound == "" then Err(NoOutbound) else Ok(RouteTo(c.outbound))
    else if c.action == "route-options" then
      if c.overrideHost.None? && c.overridePort == 0 then Err(NothingToOverride)
      else Ok(Rewrite(c.overrideHost, if c.overridePort == 0 then None else Some(c.overridePort)))
    else if c.action == "reject" then
      var how := if c.how == "" then "default" else c.how;
      if how != "default" && how != "drop" && how != "reply" then Err(UnknownMethod)
      else if how == "drop" && c.noDrop then Err(DropWithNoDrop)
      else Ok(Reject(how))
    else Err(UnknownAction)
  }

  function CompileRule(c: RuleConfig): Result<Rule, RuleError> {
    if c.matcher.None? then Err(BadCondition)
    else if c.matcher.value.IsEmpty() then Err(NoConditions)
    else
      var action := CompileAction(c);
      if action.Err? then Err(action.error) else Ok(Rule(c.matcher.value, action.value))
  }

  /** Which configured rules become rules: those with conditions and an action that says all it needs.
      An unnamed action routes, an unnamed way to reject is the default one, and a port of 0 is none. */
  lemma RuleAccepted(c: RuleConfig, rule: Rule)
    ensures CompileRule(c) == Ok(rule) <==>
      && c.matcher == Some(rule.matcher) && !rule.matcher.IsEmpty()
      && match rule.action
         case RouteTo(outbound) => (c.action == "" || c.action == "route") && c.outbound == outbound != ""
         case Rewrite(host, port) =>
           && c.action == "route-options" && host == c.overrideHost && (host.Some? || port.Some?)
           && (if port.Some? then port.value != 0 && c.overridePort == port.value else c.overridePort == 0)
         case Reject(how) =>
           && c.action == "reject" && (how == "default" || how == "drop" || how == "reply")
           && (c.how == how || (c.how == "" && how == "default")) && !(how == "drop" && c.noDrop)
  {
    hide Matcher.IsEmpty;
    assert "route"[0] == 'r' && "default"[0] == 'd';
    assert |"route"| == 5 && |"route-options"| == 13 && |"reject"| == 6;
    assert |"default"| == 7 && |"drop"| == 4 && |"reply"| == 5;
  }

  /** A rule all of whose names are known. */
  predicate Known(rule: Rule, outbounds: set<string>, sets: set<string>) {
    && (forall tag <- rule.matcher.ruleSets :: tag in sets)
    && (rule.action.RouteTo? ==> rule.action.outbound in outbounds)
  }

  datatype Router = Router(rules: seq<Rule>, otherwise: string, sets: set<string>) {
    /** Every outbound the router can choose is registered, and every rule set it asks exists. */
    predicate Grounded(outbounds: set<string>) {
      otherwise in outbounds && forall i | 0 <= i < |rules| :: Known(rules[i], outbounds, sets)
    }
  }

  /** `sets` are the configured rule sets by tag; None is one that could not be loaded. */
  method Build(manager: OutboundManagers.OutboundManager, sets: seq<(string, Option<RuleSet>)>, configs: seq<RuleConfig>,
               configured: string, default_: string)
    returns (r: Result<Router, BuildError>)
    ensures r.Ok? ==> r.value.Grounded(manager.entries.Keys)
    ensures r.Ok? ==> r.value.otherwise == if configured == "" then default_ else configured
    ensures r.Ok? ==> |r.value.rules| == |configs| && forall i | 0 <= i < |configs| :: CompileRule(configs[i]) == Ok(r.value.rules[i])
    ensures r.Ok? ==> forall tag :: tag in r.value.sets <==> exists i | 0 <= i < |sets| :: sets[i].0 == tag
    ensures r.Err? ==> !Buildable(manager.entries.Keys, sets, configs, if configured == "" then default_ else configured)
    ensures r.Err? ==> Blames(r.error, manager.entries.Keys, sets, configs, if configured == "" then default_ else configured)
    ensures r.Ok? ==> Buildable(manager.entries.Keys, sets, configs, r.value.otherwise)
  {
    var otherwise := if configured == "" then default_ else configured;
    if otherwise == "" {
      return Err(NoFinalOutbound);
    }
    if otherwise !in manager.entries {
      return Err(FinalNotFound);
    }
    var known: set<string> := {};
    for i := 0 to |sets|
      invariant forall tag :: tag in known <==> exists j | 0 <= j < i :: sets[j].0 == tag
      invariant forall j | 0 <= j < i :: sets[j].0 != "" && sets[j].1.Some?
      invariant forall j, k | 0 <= j < k < i :: sets[j].0 != sets[k].0
    {
      var tag := sets[i].0;
      if tag == "" {
        return Err(EmptySetTag);
      }
      if tag in known {
        return Err(DuplicateSet(tag));
      }
      if sets[i].1.None? {
        return Err(SetFailed(tag));
      }
      known := known + {tag};
    }
    assert known == SetTags(sets);
    var rules: seq<Rule> := [];
    for i := 0 to |configs|
      invariant |rules| == i && forall j | 0 <= j < i :: CompileRule(configs[j]) == Ok(rules[j])
      invariant forall j | 0 <= j < i :: Known(rules[j], manager.entries.Keys, known)
    {
      var compiled := CompileRule(configs[i]);
      if compiled.Err? {
        return Err(BadRule(i, compiled.error));
      }
      var tags := compiled.value.matcher.ruleSets;
      for k := 0 to |tags|
        invariant forall j | 0 <= j < k :: tags[j] in known
      {
        if tags[k] !in known {
          assert tags[k] in compiled.value.matcher.ruleSets;
          assert !Known(compiled.value, manager.entries.Keys, known);
          return Err(SetNotFound(tags[k]));
        }
      }
      if compiled.value.action.RouteTo? && compiled.value.action.outbound !in manager.entries {
        return Err(OutboundNotFound(compiled.value.action.outbound));
      }
      rules := rules + [compiled.value];
    }
    r := Ok(Router(rules, otherwise, known));
  }

  /** What a configuration must satisfy for a router to be built from it. */
  ghost predicate Buildable(outbounds: set<string>, sets: seq<(string, Option<RuleSet>)>, configs: seq<RuleConfig>, otherwise: string) {
    && otherwise != "" && otherwise in outbounds
    && (forall i | 0 <= i < |sets| :: sets[i].0 != "" && sets[i].1.Some?)
    && (forall i, j | 0 <= i < j < |sets| :: sets[i].0 != sets[j].0)
    && forall i | 0 <= i < |configs| ::
      CompileRule(configs[i]).Ok? && Known(CompileRule(configs[i]).value, outbounds, SetTags(sets))
  }

  /** The error names something that is indeed wrong. */
  ghost predicate Blames(error: BuildError, outbounds: set<string>, sets: seq<(string, Option<RuleSet>)>, configs: seq<RuleConfig>,
                         otherwise: string)
  {
    match error
    case NoFinalOutbound => otherwise == ""
    case FinalNotFound => otherwise !in outbounds
    case EmptySetTag => exists i | 0 <= i < |sets| :: sets[i].0 == ""
    case DuplicateSet(tag) => exists i, j | 0 <= i < j < |sets| :: sets[i].0 == tag == sets[j].0
    case SetFailed(tag) => exists i | 0 <= i < |sets| :: sets[i] == (tag, None)
    case BadRule(index, why) => index < |configs| && CompileRule(configs[index]) == Err(why)
    case SetNotFound(tag) => tag !in SetTags(sets) && exists i | 0 <= i < |configs| ::
      CompileRule(configs[i]).Ok? && tag in CompileRule(configs[i]).value.matcher.ruleSets
    case OutboundNotFound(tag) => tag !in outbounds && exists i | 0 <= i < |configs| ::
      CompileRule(configs[i]).Ok? && CompileRule(configs[i]).value.action == RouteTo(tag)
  }

  ghost function SetTags(sets: seq<(string, Option<RuleSet>)>): set<string> {
    set i | 0 <= i < |sets| :: sets[i].0
  }

  // ---- Routing a session ----

  /** The loop over the rules; `snapshots` are the rule sets as each rule's turn finds them. */
  method Select(router: Router, session: Session, snapshots: seq<Sets>) returns (s: Session, outcome: Outcome)
    requires |snapshots| == |router.rules|
    ensures (s, outcome) == Choose(router.rules, snapshots, session.(source := Normalized(session.source)), router.otherwise)
  {
    s := session.(source := Normalized(session.source));
    ghost var chosen := Choose(router.rules, snapshots, s, router.otherwise);
    assert router.rules[0..] == router.rules && snapshots[0..] == snapshots;
    for index := 0 to |router.rules|
      invariant Choose(router.rules[index..], snapshots[index..], s, router.otherwise) == chosen
    {
      var rule := router.rules[index];
      assert router.rules[index..][1..] == router.rules[index + 1..] && snapshots[index..][1..] == snapshots[index + 1..];
      if !Matches(rule.matcher, s, snapshots[index]) {
        continue;
      }
      match rule.action {
        case Rewrite(host, port) =>
          if host.Some? {
            s := s.(host := host.value);
          }
          if port.Some? {
            s := s.(port := port.value);
          }
        case RouteTo(outbound) => return s, To(outbound);
        case Reject(how) => return s, Rejected(how);
      }
    }
    outcome := To(router.otherwise);
  }

  /** A tag the router chooses was checked when it was built. */
  lemma {:induction false} ChosenIsGrounded(rules: seq<Rule>, snapshots: seq<Sets>, s: Session, otherwise: string,
                                            outbounds: set<string>, sets: set<string>)
    requires |snapshots| == |rules| && otherwise in outbounds
    requires forall i | 0 <= i < |rules| :: Known(rules[i], outbounds, sets)
    ensures var outcome := Choose(rules, snapshots, s, otherwise).1; outcome.To? ==> outcome.tag in outbounds
  {
    hide Matches;
    if rules != [] {
      assert Known(rules[0], outbounds, sets);
      assert forall i | 0 <= i < |rules[1..]| :: rules[1..][i] == rules[i + 1];
      ChosenIsGrounded(rules[1..], snapshots[1..], s, otherwise, outbounds, sets);
      if rules[0].action.Rewrite? {
        ChosenIsGrounded(rules[1..], snapshots[1..], Rewritten(rules[0].action, s), otherwise, outbounds, sets);
      }
    }
  }

  datatype ConnectError = RejectedByRule(how: string) | NotRegistered(tag: string)

  /** The outbound a session is handed to; a session that already names one is not routed. `built` are
      the outbounds registered when the router was built: registering more later takes none away, so a
      routed session never meets a missing outbound. */
  method Connect(router: Router, manager: OutboundManagers.OutboundManager, session: Session, snapshots: seq<Sets>,
                 ghost built: set<string>)
    returns (s: Session, r: Result<string, ConnectError>)
    requires |snapshots| == |router.rules|
    requires router.Grounded(built) && built <= manager.entries.Keys
    ensures r.Ok? ==> s.outbound == Some(r.value) && r.value in manager.entries
    ensures r.Err? ==> s.outbound == session.outbound
    ensures session.outbound.None? ==>
      var (chosen, outcome) := Choose(router.rules, snapshots, session.(source := Normalized(session.source)), router.otherwise);
      match outcome
      case To(tag) => r == Ok(tag) && s == chosen.(outbound := Some(tag))
      case Rejected(how) => r == Err(RejectedByRule(how)) && s == chosen
    ensures session.outbound.Some? ==>
      s == session && r == if session.outbound.value in manager.entries then Ok(session.outbound.value)
                           else Err(NotRegistered(session.outbound.value))
  {
    s := session;
    var tag;
    if session.outbound.Some? {
      tag := session.outbound.value;
    } else {
      var outcome;
      s, outcome := Select(router, session, snapshots);
      ghost var start := session.(source := Normalized(session.source));
      OnlyDestination(router.rules, snapshots, start, router.otherwise);
      ChosenIsGrounded(router.rules, snapshots, start, router.otherwise, built, router.sets);
      if outcome.Rejected? {
        return s, Err(RejectedByRule(outcome.how));
      }
      tag := outcome.tag;
    }
    if tag !in manager.entries {
      return s, Err(NotRegistered(tag));
    }
    s := s.(outbound := Some(tag));
    r := Ok(tag);
  }
}
