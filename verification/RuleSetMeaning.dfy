/** What the bytes of a binary rule set mean for a session: through decoding, compiling and matching. */
module RuleSetMeaning {
  import opened Wrappers
  import opened Bytes
  import opened RuleMatching
  import opened RuleTrees
  import DomainKeys
  import RuleSetFormat
  import RuleSetEncoding
  import TrieEncoding

  // ---- The meaning of a tree, on its encoded ranges and raw keys ----

  /** The raw keys of a domain item. */
  ghost function KeysOf(leaves: seq<nat>, bitmap: seq<nat>, labels: seq<byte>): DomainKeys.KeySets
    requires RuleSetFormat.MatcherMeaning(leaves, bitmap, labels).Some?
  {
    DomainKeys.Sorted(TrieEncoding.DecodedKeys(leaves, bitmap, labels)).value
  }

  const NO_KEYS := DomainKeys.KeySets({}, {}, {})

  /** The conditions of a rule: of each kind its last item counts. */
  datatype Conditions = Conditions(
    names: seq<string>,
    keys: DomainKeys.KeySets,
    words: seq<string>,
    sourceRanges: seq<RuleSetFormat.IpRange>,
    ranges: seq<RuleSetFormat.IpRange>,
    sourcePorts: seq<nat>,
    sourceSpans: seq<string>,
    ports: seq<nat>,
    spans: seq<string>)
  {
    predicate IsEmpty() {
      && names == [] && keys == NO_KEYS && words == [] && sourceRanges == [] && ranges == []
      && sourcePorts == [] && sourceSpans == [] && ports == [] && spans == []
    }
  }

  const UNCONDITIONAL := Conditions([], NO_KEYS, [], [], [], [], [], [], [])

  ghost function Gather(items: seq<Item>, c: Conditions): Conditions
    requires forall i | 0 <= i < |items| :: items[i].Encodable()
    decreases |items|
  {
    if items == [] then c else Gather(items[1..], Gathered(items[0], c))
  }

  ghost function Gathered(item: Item, c: Conditions): Conditions
    requires item.Encodable()
  {
    match item
    case Network(v) => c.(names := v)
    case Domain(leaves, bitmap, labels) => c.(keys := KeysOf(leaves, bitmap, labels))
    case DomainKeyword(v) => c.(words := v)
    case SourceIpCidr(v) => c.(sourceRanges := v)
    case IpCidr(v) => c.(ranges := v)
    case SourcePort(v) => c.(sourcePorts := v)
    case SourcePortRange(v) => c.(sourceSpans := v)
    case Port(v) => c.(ports := v)
    case PortRange(v) => c.(spans := v)
  }

  predicate InRanges(ranges: seq<RuleSetFormat.IpRange>, ip: Ip) {
    exists r <- ranges :: InRange(r, ip)
  }

  predicate NamesNetwork(names: seq<string>, network: RuleMatching.Network) {
    (if network.Tcp? then "tcp" else "udp") in names
  }

  predicate PortMeant(ports: seq<nat>, spans: seq<string>, port: nat) {
    port in ports || exists t <- spans :: ParseRange(t).Some? && ParseRange(t).value.0 <= port <= ParseRange(t).value.1
  }

  /** Whether keys take a host: by what the raw keys say, or by the lists they were rewritten to. */
  ghost predicate Takes(k: DomainKeys.KeySets, host: string, raw: bool) {
    if raw then k.Accepts(host)
    else DomainKeys.RouterAccepts(DomainKeys.MergedExact(k), DomainKeys.MergedSuffix(k), host)
  }

  /** The conditions hold: all kinds at once, domains and keywords as one kind. */
  ghost predicate Hold(c: Conditions, s: Session, raw: bool) {
    && (c.names == [] || NamesNetwork(c.names, s.network))
    && ((c.keys == NO_KEYS && c.words == []) || Takes(c.keys, s.host.text, raw) || HasKeyword(c.words, s.host.text))
    && (c.sourceRanges == [] || (s.source.Some? && InRanges(c.sourceRanges, Normalized(s.source).value.ip)))
    && (c.ranges == [] || (s.host.ip.Some? && InRanges(c.ranges, s.host.ip.value)))
    && ((c.sourcePorts == [] && c.sourceSpans == []) ||
        (s.source.Some? && PortMeant(c.sourcePorts, c.sourceSpans, s.source.value.port)))
    && ((c.ports == [] && c.spans == []) || PortMeant(c.ports, c.spans, s.port))
  }

  ghost predicate Accepts(t: Tree, s: Session, raw: bool)
    requires Encodable(t)
    decreases t
  {
    match t
    case Leaf(items, invert) => Hold(Gather(items, UNCONDITIONAL), s, raw) != invert
    case Branch(mode, kids, invert) => (if mode.And? then AllAccept(kids, s, raw) else SomeAccept(kids, s, raw)) != invert
  }

  ghost predicate AllAccept(kids: seq<Tree>, s: Session, raw: bool)
    requires AllEncodable(kids)
    decreases kids
  {
    kids == [] || (AllAccept(kids[..|kids| - 1], s, raw) && Accepts(kids[|kids| - 1], s, raw))
  }

  ghost predicate SomeAccept(kids: seq<Tree>, s: Session, raw: bool)
    requires AllEncodable(kids)
    decreases kids
  {
    kids != [] && (SomeAccept(kids[..|kids| - 1], s, raw) || Accepts(kids[|kids| - 1], s, raw))
  }

  /** A rule without any condition at the top of a rule set accepts nothing. */
  ghost predicate SetAccepts(trees: seq<Tree>, s: Session, raw: bool)
    requires AllEncodable(trees)
  {
    exists i | 0 <= i < |trees| :: Accepts(trees[i], s, raw)
      && !(trees[i].Leaf? && Gather(trees[i].items, UNCONDITIONAL).IsEmpty())
  }

  /** The rewriting of the raw keys changes nothing: plain suffixes begin with a dot or are shadowed by
      another key, and a doubled dot is covered by another key. */
  ghost predicate Faithful(k: DomainKeys.KeySets) {
    && (forall v <- k.prefix :: DomainKeys.Dotted(v) || DomainKeys.Shadowed(k, v))
    && forall r: string | DomainKeys.DoubleDotted(k, r) :: DomainKeys.Covered(k, r)
  }

  ghost predicate FaithfulTree(t: Tree)
    requires Encodable(t)
    decreases t
  {
    match t
    case Leaf(items, _) => Faithful(Gather(items, UNCONDITIONAL).keys)
    case Branch(_, kids, _) => FaithfulTrees(kids)
  }

  ghost predicate FaithfulTrees(kids: seq<Tree>)
    requires AllEncodable(kids)
    decreases kids
  {
    kids == [] || (FaithfulTrees(kids[..|kids| - 1]) && FaithfulTree(kids[|kids| - 1]))
  }

  // ---- Item by item ----

  /** What the decoder has gathered, said on ranges and raw keys. */
  ghost predicate Means(rule: RuleSetFormat.DefaultRule, c: Conditions) {
    && rule.network == c.names && rule.domainKeyword == c.words
    && rule.domains == RuleSetFormat.Domains(DomainKeys.MergedExact(c.keys), DomainKeys.MergedSuffix(c.keys))
    && RuleSetFormat.RangesOk(c.sourceRanges) && rule.sourceIpCidr == RuleSetFormat.BlocksOf(c.sourceRanges)
    && RuleSetFormat.RangesOk(c.ranges) && rule.ipCidr == RuleSetFormat.BlocksOf(c.ranges)
    && rule.sourcePort == c.sourcePorts && rule.sourcePortRange == c.sourceSpans
    && rule.port == c.ports && rule.portRange == c.spans
  }

  lemma GatheredMeans(item: Item, rule: RuleSetFormat.DefaultRule, c: Conditions)
    requires item.Encodable() && Means(rule, c)
    ensures Means(item.Apply(rule), Gathered(item, c))
  {
  }

  lemma {:induction false} GatherMeans(items: seq<Item>, rule: RuleSetFormat.DefaultRule, c: Conditions)
    requires (forall i | 0 <= i < |items| :: items[i].Encodable()) && Means(rule, c)
    ensures Means(ApplyAll(items, rule), Gather(items, c))
    decreases |items|
  {
    hide Means, Gathered;
    if items != [] {
      GatheredMeans(items[0], rule, c);
      GatherMeans(items[1..], items[0].Apply(rule), Gathered(items[0], c));
    }
  }

  lemma LeafMeans(items: seq<Item>)
    requires forall i | 0 <= i < |items| :: items[i].Encodable()
    ensures Means(ApplyAll(items, RuleSetFormat.NO_CONDITIONS), Gather(items, UNCONDITIONAL))
  {
    assert DomainKeys.MergedSuffix(NO_KEYS) == {} && DomainKeys.MergedExact(NO_KEYS) == {};
    assert Means(RuleSetFormat.NO_CONDITIONS, UNCONDITIONAL);
    GatherMeans(items, RuleSetFormat.NO_CONDITIONS, UNCONDITIONAL);
  }

  // ---- Condition by condition ----

  lemma {:induction false} NetworksMeant(names: seq<string>, network: RuleMatching.Network)
    requires CompileNetworks(names).Some?
    ensures |CompileNetworks(names).value| == |names|
    ensures network in CompileNetworks(names).value <==> NamesNetwork(names, network)
  {
    if names != [] {
      NetworksMeant(names[1..], network);
      assert forall name :: name in names <==> name == names[0] || name in names[1..];
      assert "tcp"[0] != "udp"[0];
    }
  }

  lemma {:induction false} SpansMeant(spans: seq<string>, port: nat)
    requires ParseRanges(spans).Some?
    ensures |ParseRanges(spans).value| == |spans|
    ensures (exists r <- ParseRanges(spans).value :: r.0 <= port <= r.1) <==>
      exists t <- spans :: ParseRange(t).Some? && ParseRange(t).value.0 <= port <= ParseRange(t).value.1
  {
    hide ParseRange;
    if spans != [] {
      var rest := ParseRanges(spans[1..]).value;
      SpansMeant(spans[1..], port);
      assert ParseRanges(spans).value == [ParseRange(spans[0]).value] + rest;
      assert forall t :: t in spans <==> t == spans[0] || t in spans[1..];
      assert forall r :: r in ParseRanges(spans).value <==> r == ParseRange(spans[0]).value || r in rest;
    }
  }

  lemma PortsMeant(ports: seq<nat>, spans: seq<string>, port: nat)
    requires CompilePorts(ports, spans).Some?
    ensures CompilePorts(ports, spans).value.IsEmpty() <==> ports == [] && spans == []
    ensures CompilePorts(ports, spans).value.Contains(port) <==> PortMeant(ports, spans, port)
  {
    hide ParseRanges, ParseRange;
    SpansMeant(spans, port);
  }

  lemma RangesMeant(ranges: seq<RuleSetFormat.IpRange>, ip: Ip)
    requires RuleSetFormat.RangesOk(ranges) && ip.Valid()
    ensures InBlocks(RuleSetFormat.BlocksOf(ranges), ip) <==> InRanges(ranges, ip)
  {
    IpSetAccepts(ranges, ip);
  }

  lemma BlocksEmpty(ranges: seq<RuleSetFormat.IpRange>)
    requires RuleSetFormat.RangesOk(ranges)
    ensures RuleSetFormat.BlocksOf(ranges) == [] <==> ranges == []
  {
    if ranges != [] {
      var last := ranges[|ranges| - 1];
      assert |last.Blocks()| > 0;
    }
  }

  lemma KeysMeant(k: DomainKeys.KeySets, host: string)
    requires Faithful(k)
    ensures DomainKeys.RouterAccepts(DomainKeys.MergedExact(k), DomainKeys.MergedSuffix(k), host) <==> k.Accepts(host)
  {
    if k.Accepts(host) {
      DomainKeys.RouterTakesAll(k, host);
    }
    if DomainKeys.RouterAccepts(DomainKeys.MergedExact(k), DomainKeys.MergedSuffix(k), host) {
      DomainKeys.KeysTakeAll(k, host);
    }
  }

  lemma KeysEmpty(k: DomainKeys.KeySets)
    ensures DomainKeys.MergedExact(k) == {} && DomainKeys.MergedSuffix(k) == {} <==> k == NO_KEYS
  {
    if DomainKeys.MergedExact(k) == {} && DomainKeys.MergedSuffix(k) == {} {
      assert forall v <- k.prefix :: DomainKeys.Merged(k.exact, v) in DomainKeys.MergedSuffix(k);
      assert k.prefix == {};
      assert forall v <- k.exact :: v in DomainKeys.MergedExact(k);
      assert k.exact == {};
    }
  }

  // ---- Rule by rule ----

  lemma PlainMeant(rule: RuleSetFormat.DefaultRule, c: Conditions, m: Matcher, s: Session)
    requires Means(rule, c) && FromHeadless(rule) == Some(m)
    ensures PlainMatches(m, s) <==>
      && (c.names == [] || NamesNetwork(c.names, s.network))
      && ((c.sourcePorts == [] && c.sourceSpans == []) ||
          (s.source.Some? && PortMeant(c.sourcePorts, c.sourceSpans, s.source.value.port)))
      && ((c.ports == [] && c.spans == []) || PortMeant(c.ports, c.spans, s.port))
  {
    hide CompileNetworks, ParseRanges, PortMatcher.Contains, PortMatcher.IsEmpty, PortMeant, NamesNetwork, IsPrivate, NormalizedIp;
    hide RuleSetFormat.BlocksOf, RuleSetFormat.RangesOk, DomainKeys.MergedExact, DomainKeys.MergedSuffix;
    NetworksMeant(c.names, s.network);
    PortsMeant(c.ports, c.spans, s.port);
    if s.source.Some? {
      PortsMeant(c.sourcePorts, c.sourceSpans, s.source.value.port);
    } else {
      PortsMeant(c.sourcePorts, c.sourceSpans, 0);
    }
  }

  lemma DomainMeant(rule: RuleSetFormat.DefaultRule, c: Conditions, m: Matcher, host: string, raw: bool)
    requires Means(rule, c) && FromHeadless(rule) == Some(m) && (raw ==> Faithful(c.keys))
    ensures DomainMatches(m, host) <==>
      (c.keys == NO_KEYS && c.words == []) || Takes(c.keys, host, raw) || HasKeyword(c.words, host)
  {
    hide CompileNetworks, CompilePorts, RuleSetFormat.BlocksOf, RuleSetFormat.RangesOk, Faithful;
    hide DomainKeys.MergedExact, DomainKeys.MergedSuffix, DomainKeys.RouterAccepts, DomainKeys.KeySets.Accepts, HasKeyword;
    if raw {
      KeysMeant(c.keys, host);
    }
    KeysEmpty(c.keys);
  }

  lemma AddressMeant(rule: RuleSetFormat.DefaultRule, c: Conditions, m: Matcher, s: Session)
    requires Means(rule, c) && FromHeadless(rule) == Some(m) && s.Valid()
    ensures AddressMatches(m, s) <==>
      && (c.sourceRanges == [] || (s.source.Some? && InRanges(c.sourceRanges, Normalized(s.source).value.ip)))
      && (c.ranges == [] || (s.host.ip.Some? && InRanges(c.ranges, s.host.ip.value)))
  {
    hide CompileNetworks, CompilePorts, RuleSetFormat.BlocksOf, RuleSetFormat.RangesOk, InBlocks, InRanges, NormalizedIp;
    hide DomainKeys.MergedExact, DomainKeys.MergedSuffix;
    NormalizedValid(s.source);
    BlocksEmpty(c.sourceRanges);
    BlocksEmpty(c.ranges);
    if s.source.Some? {
      RangesMeant(c.sourceRanges, Normalized(s.source).value.ip);
    }
    if s.host.ip.Some? {
      RangesMeant(c.ranges, s.host.ip.value);
    }
  }

  lemma EmptyMeant(rule: RuleSetFormat.DefaultRule, c: Conditions, m: Matcher)
    requires Means(rule, c) && FromHeadless(rule) == Some(m)
    ensures m.IsEmpty() <==> c.IsEmpty()
  {
    hide ParseRanges, CompileNetworks, RuleSetFormat.BlocksOf, RuleSetFormat.RangesOk, DomainKeys.MergedExact, DomainKeys.MergedSuffix;
    hide PortMatcher.IsEmpty;
    NetworksMeant(c.names, RuleMatching.Tcp);
    KeysEmpty(c.keys);
    BlocksEmpty(c.sourceRanges);
    BlocksEmpty(c.ranges);
    PortsMeant(c.ports, c.spans, 0);
    PortsMeant(c.sourcePorts, c.sourceSpans, 0);
  }

  lemma LeafMeant(items: seq<Item>, invert: bool, m: Matcher, s: Session, raw: bool)
    requires Encodable(Leaf(items, invert)) && (raw ==> FaithfulTree(Leaf(items, invert))) && s.Valid()
    requires FromHeadless(ApplyAll(items, RuleSetFormat.NO_CONDITIONS).(invert := invert)) == Some(m)
    ensures MatchesWithoutSets(m, s) <==> Accepts(Leaf(items, invert), s, raw)
    ensures m.IsEmpty() <==> Gather(items, UNCONDITIONAL).IsEmpty()
  {
    var rule, c := ApplyAll(items, RuleSetFormat.NO_CONDITIONS).(invert := invert), Gather(items, UNCONDITIONAL);
    LeafMeans(items);
    assert Means(rule, c);
    assert m.invert == invert;
    hide Means, FromHeadless, ApplyAll, Gather, Faithful;
    hide PlainMatches, DomainMatches, AddressMatches, NamesNetwork, PortMeant, HasKeyword, InRanges, Matcher.IsEmpty, Conditions.IsEmpty;
    PlainMeant(rule, c, m, s);
    DomainMeant(rule, c, m, s.host.text, raw);
    AddressMeant(rule, c, m, s);
    EmptyMeant(rule, c, m);
  }

  /** A compiled rule matches a session exactly when the tree it was decoded from accepts it. */
  lemma {:induction false} TreeMeant(t: Tree, r: HeadlessRule, s: Session, raw: bool)
    requires Encodable(t) && (raw ==> FaithfulTree(t)) && s.Valid() && Compile(RuleOf(t)) == Some(r)
    ensures RuleMatches(r, s) <==> Accepts(t, s, raw)
    decreases t, 0
  {
    match t
    case Leaf(items, invert) =>
      hide MatchesWithoutSets, FromHeadless, ApplyAll, Gather, Faithful;
      LeafMeant(items, invert, r.matcher, s, raw);
    case Branch(mode, kids, invert) =>
      hide MatchesWithoutSets, FromHeadless, ApplyAll, Gather, Faithful;
      KidsMeant(kids, r.rules, s, raw);
  }

  lemma {:induction false} KidsMeant(kids: seq<Tree>, rules: RuleSet, s: Session, raw: bool)
    requires AllEncodable(kids) && (raw ==> FaithfulTrees(kids)) && s.Valid() && CompileKids(RulesOf(kids)) == Some(rules)
    ensures AllMatch(rules, s) <==> AllAccept(kids, s, raw)
    ensures SomeMatch(rules, s) <==> SomeAccept(kids, s, raw)
    decreases kids, 1
  {
    hide RuleMatches, Compile, RuleOf, Accepts, FaithfulTree;
    if kids != [] {
      var init, last := kids[..|kids| - 1], kids[|kids| - 1];
      var all := RulesOf(kids);
      assert all[..|all| - 1] == RulesOf(init) && all[|all| - 1] == RuleOf(last);
      var before := rules[..|rules| - 1];
      assert CompileKids(RulesOf(init)) == Some(before);
      KidsMeant(init, before, s, raw);
      TreeMeant(last, rules[|rules| - 1], s, raw);
    }
  }

  lemma CompiledLast(rules: seq<RuleSetFormat.Rule>, r: RuleSetFormat.Rule, compiled: RuleSet)
    requires CompileRuleSet(rules + [r]) == Some(compiled)
    ensures CompileRuleSet(rules).Some?
    ensures var before := CompileRuleSet(rules).value;
      if r.Default? && FromHeadless(r.rule).Some? && FromHeadless(r.rule).value.IsEmpty() then compiled == before
      else Compile(r).Some? && compiled == before + [Compile(r).value]
  {
    hide FromHeadless, Matcher.IsEmpty, Compile;
    var all := rules + [r];
    assert all[..|all| - 1] == rules && all[|all| - 1] == r;
  }

  lemma {:induction false} SetMeant(trees: seq<Tree>, rules: RuleSet, s: Session, raw: bool)
    requires AllEncodable(trees) && (raw ==> FaithfulTrees(trees)) && s.Valid() && CompileRuleSet(RulesOf(trees)) == Some(rules)
    ensures SomeMatch(rules, s) <==> SetAccepts(trees, s, raw)
    decreases |trees|
  {
    if trees == [] {
      assert rules == [];
    } else {
      hide SomeMatch, SetAccepts, CompileRuleSet, Compile, FaithfulTree, FromHeadless, Matcher.IsEmpty, RuleOf;
      var init, last := trees[..|trees| - 1], trees[|trees| - 1];
      assert RulesOf(trees) == RulesOf(init) + [RuleOf(last)];
      CompiledLast(RulesOf(init), RuleOf(last), rules);
      hide RulesOf;
      var before := CompileRuleSet(RulesOf(init)).value;
      SetMeant(init, before, s, raw);
      LastMeant(last, before, rules, s, raw);
      assert trees == init + [last];
      SetSnoc(init, last, s, raw);
    }
  }

  ghost predicate TopAccepts(t: Tree, s: Session, raw: bool)
    requires Encodable(t)
  {
    Accepts(t, s, raw) && !(t.Leaf? && Gather(t.items, UNCONDITIONAL).IsEmpty())
  }

  /** One more rule at the top. */
  lemma LastMeant(t: Tree, before: RuleSet, rules: RuleSet, s: Session, raw: bool)
    requires Encodable(t) && (raw ==> FaithfulTree(t)) && s.Valid()
    requires var r := RuleOf(t);
      if r.Default? && FromHeadless(r.rule).Some? && FromHeadless(r.rule).value.IsEmpty() then rules == before
      else Compile(r).Some? && rules == before + [Compile(r).value]
    ensures SomeMatch(rules, s) <==> SomeMatch(before, s) || TopAccepts(t, s, raw)
  {
    hide RuleMatches, Accepts, FromHeadless, ApplyAll, Gather, Matcher.IsEmpty, Conditions.IsEmpty, CompileKids, MatchesWithoutSets;
    var r := RuleOf(t);
    if t.Leaf? {
      assert r.Default?;
      LeafMeant(t.items, t.invert, FromHeadless(r.rule).value, s, raw);
    }
    if Compile(r).Some? {
      TreeMeant(t, Compile(r).value, s, raw);
      var all := before + [Compile(r).value];
      assert all[..|all| - 1] == before;
    }
  }

  lemma SetSnoc(init: seq<Tree>, last: Tree, s: Session, raw: bool)
    requires AllEncodable(init + [last])
    ensures AllEncodable(init) && Encodable(last)
    ensures SetAccepts(init + [last], s, raw) <==> SetAccepts(init, s, raw) || TopAccepts(last, s, raw)
  {
    hide Encodable, Accepts, Gather, Conditions.IsEmpty;
    var all := init + [last];
    assert forall i | 0 <= i < |init| :: all[i] == init[i];
    assert all[|init|] == last;
  }

  // ---- Which rule sets compile ----

  /** Networks are `tcp` or `udp`, and port spans parse. */
  ghost predicate Parses(c: Conditions) {
    && (forall name <- c.names :: name == "tcp" || name == "udp")
    && (forall span <- c.sourceSpans :: ParseRange(span).Some?)
    && (forall span <- c.spans :: ParseRange(span).Some?)
  }

  /** A nested rule needs a condition, and a logical rule a rule. */
  ghost predicate Compilable(t: Tree)
    requires Encodable(t)
    decreases t
  {
    match t
    case Leaf(items, _) => Parses(Gather(items, UNCONDITIONAL)) && !Gather(items, UNCONDITIONAL).IsEmpty()
    case Branch(_, kids, _) => kids != [] && AllCompilable(kids)
  }

  ghost predicate AllCompilable(kids: seq<Tree>)
    requires AllEncodable(kids)
    decreases kids
  {
    kids == [] || (AllCompilable(kids[..|kids| - 1]) && Compilable(kids[|kids| - 1]))
  }

  /** At the top a rule without conditions is left out instead. */
  ghost predicate TopCompilable(t: Tree)
    requires Encodable(t)
  {
    if t.Leaf? then Parses(Gather(t.items, UNCONDITIONAL)) else Compilable(t)
  }

  ghost predicate SetCompilable(trees: seq<Tree>)
    requires AllEncodable(trees)
  {
    forall i | 0 <= i < |trees| :: TopCompilable(trees[i])
  }

  lemma {:induction false} NetworksCompile(names: seq<string>)
    ensures CompileNetworks(names).Some? <==> forall name <- names :: name == "tcp" || name == "udp"
  {
    if names != [] {
      NetworksCompile(names[1..]);
      assert names[0] in names;
      assert forall name :: name in names <==> name == names[0] || name in names[1..];
    }
  }

  lemma {:induction false} SpansCompile(spans: seq<string>)
    ensures ParseRanges(spans).Some? <==> forall span <- spans :: ParseRange(span).Some?
  {
    hide ParseRange;
    if spans != [] {
      SpansCompile(spans[1..]);
      assert spans[0] in spans;
      assert forall span :: span in spans <==> span == spans[0] || span in spans[1..];
    }
  }

  lemma LeafCompiles(items: seq<Item>, invert: bool)
    requires Encodable(Leaf(items, invert))
    ensures var m := FromHeadless(RuleOf(Leaf(items, invert)).rule);
      && (m.Some? <==> Parses(Gather(items, UNCONDITIONAL)))
      && (m.Some? ==> (m.value.IsEmpty() <==> Gather(items, UNCONDITIONAL).IsEmpty()))
  {
    var rule, c := RuleOf(Leaf(items, invert)).rule, Gather(items, UNCONDITIONAL);
    LeafMeans(items);
    assert Means(rule, c);
    hide ApplyAll, Gather, RuleOf, ParseRange, ParseRanges, CompileNetworks, RuleSetFormat.BlocksOf, RuleSetFormat.RangesOk;
    hide Matcher.IsEmpty, Conditions.IsEmpty, DomainKeys.MergedExact, DomainKeys.MergedSuffix;
    NetworksCompile(c.names);
    SpansCompile(c.sourceSpans);
    SpansCompile(c.spans);
    if FromHeadless(rule).Some? {
      EmptyMeant(rule, c, FromHeadless(rule).value);
    }
  }

  /** A rule tree compiles exactly when these conditions hold throughout. */
  lemma {:induction false} TreeCompiles(t: Tree)
    requires Encodable(t)
    ensures Compile(RuleOf(t)).Some? <==> Compilable(t)
    decreases t, 0
  {
    hide FromHeadless, Matcher.IsEmpty, Conditions.IsEmpty, Parses, Gather, ApplyAll;
    match t
    case Leaf(items, invert) => LeafCompiles(items, invert);
    case Branch(mode, kids, invert) =>
      KidsCompile(kids);
      assert RulesOf(kids) == [] <==> kids == [];
  }

  lemma {:induction false} KidsCompile(kids: seq<Tree>)
    requires AllEncodable(kids)
    ensures CompileKids(RulesOf(kids)).Some? <==> AllCompilable(kids)
    decreases kids, 1
  {
    hide Compile, RuleOf, Compilable;
    if kids != [] {
      var init, last := kids[..|kids| - 1], kids[|kids| - 1];
      var all := RulesOf(kids);
      assert all[..|all| - 1] == RulesOf(init) && all[|all| - 1] == RuleOf(last);
      KidsCompile(init);
      TreeCompiles(last);
    }
  }

  lemma TopCompiles(t: Tree)
    requires Encodable(t)
    ensures var r := RuleOf(t);
      (r.Default? && FromHeadless(r.rule).Some? && FromHeadless(r.rule).value.IsEmpty()) || Compile(r).Some? <==> TopCompilable(t)
  {
    hide FromHeadless, Matcher.IsEmpty, Conditions.IsEmpty, Parses, Gather, ApplyAll, CompileKids;
    TreeCompiles(t);
    if t.Leaf? {
      LeafCompiles(t.items, t.invert);
    }
  }

  lemma {:induction false} SetCompiles(trees: seq<Tree>)
    requires AllEncodable(trees)
    ensures CompileRuleSet(RulesOf(trees)).Some? <==> SetCompilable(trees)
    decreases |trees|
  {
    hide TopCompilable, Compile, FromHeadless, Matcher.IsEmpty, RuleOf;
    if trees != [] {
      var init, last := trees[..|trees| - 1], trees[|trees| - 1];
      var all := RulesOf(trees);
      assert all[..|all| - 1] == RulesOf(init) && all[|all| - 1] == RuleOf(last);
      SetCompiles(init);
      TopCompiles(last);
      assert forall i | 0 <= i < |init| :: trees[i] == init[i];
    }
  }

  /** What a binary rule set's decompressed payload is compiled to. */
  ghost function CompiledPayload(payload: seq<byte>): Option<RuleSet> {
    var rules := RuleSetFormat.Payload(payload);
    if rules.None? then None else CompileRuleSet(rules.value)
  }

  /** From the bytes of a binary rule set to its answer for a session: which written rules compile, and
      that the rule set then matches exactly the sessions they accept. */
  lemma PayloadMeant(trees: seq<Tree>, s: Session, raw: bool)
    requires AllEncodable(trees) && (raw ==> FaithfulTrees(trees)) && s.Valid()
    requires |trees| <= RuleSetFormat.MAX_COLLECTION_SIZE
    ensures var rules := CompiledPayload(RuleSetEncoding.Leb128(|trees|) + TreesBytes(trees));
      && (rules.Some? <==> LevelsOf(trees) <= RuleSetFormat.MAX_RECURSION && SetCompilable(trees))
      && (rules.Some? ==> (SomeMatch(rules.value, s) <==> SetAccepts(trees, s, raw)))
  {
    hide RuleSetFormat.Payload, RuleSetEncoding.Leb128, TreesBytes, LevelsOf, RulesOf, CompileRuleSet, SomeMatch, SetAccepts;
    hide SetCompilable;
    PayloadBack(trees);
    SetCompiles(trees);
    var rules := CompiledPayload(RuleSetEncoding.Leb128(|trees|) + TreesBytes(trees));
    if rules.Some? {
      SetMeant(trees, rules.value, s, raw);
    }
  }
}
