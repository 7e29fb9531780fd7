/** Sessions, and the conditions rules put on them. */
module RuleMatching {
  import opened Wrappers
  import opened Arithmetic
  import DomainKeys
  import RuleSetFormat
  import RuleTrees

  type Ip = RuleTrees.IpAddr

  datatype Network = Tcp | Udp

  datatype Endpoint = Endpoint(ip: Ip, port: nat)

  /** A destination host: its text, and the address it is the text of, if it is one. */
  datatype Host = Host(text: string, ip: Option<Ip>)

  datatype Session = Session(
    network: Network,
    source: Option<Endpoint>,
    host: Host,
    port: nat,
    inbound: string,
    inboundType: string,
    outbound: Option<string>,
    user: Option<string>)
  {
    predicate Valid() {
      (source.Some? ==> source.value.ip.Valid()) && (host.ip.Some? ==> host.ip.value.Valid())
    }
  }

  // ---- Sources ----

  const MAPPED: nat := 0xFFFF_0000_0000

  /** An IPv4-mapped IPv6 address stands for the IPv4 address. */
  function NormalizedIp(ip: Ip): Ip {
    match ip
    case Addr6(value) => if MAPPED <= value < MAPPED + 0x1_0000_0000 then RuleTrees.Addr4(value - MAPPED) else ip
    case Addr4(_) => ip
  }

  function Normalized(source: Option<Endpoint>): Option<Endpoint> {
    if source.None? then None else Some(source.value.(ip := NormalizedIp(source.value.ip)))
  }

  lemma NormalizedValid(source: Option<Endpoint>)
    requires source.Some? ==> source.value.ip.Valid()
    ensures source.Some? ==> Normalized(source).value.ip.Valid()
  {
    assert Pow2(8) == 0x100;
    Pow2Add(8, 8);
    Pow2Add(16, 16);
  }

  predicate IsPrivate(ip: Ip) {
    match ip
    case Addr4(v) =>
      || v / 0x100_0000 == 10 || v / 0x10_0000 == 172 * 16 + 1 || v / 0x1_0000 == 192 * 256 + 168
      || v / 0x100_0000 == 127 || v / 0x1_0000 == 169 * 256 + 254 || v == 0xFFFF_FFFF || v == 0
    case Addr6(v) =>
      v == 1 || v == 0 || v / Pow2(121) == 0xFC00 / 0x200 || v / Pow2(118) == 0xFE80 / 0x40
  }

  // ---- Ports ----

  datatype PortMatcher = PortMatcher(exact: seq<nat>, ranges: seq<(nat, nat)>) {
    predicate IsEmpty() {
      exact == [] && ranges == []
    }

    predicate Contains(port: nat) {
      port in exact || exists r <- ranges :: r.0 <= port <= r.1
    }
  }

  function Digits(text: string, value: nat): Option<nat> {
    if text == [] then Some(value)
    else if !('0' <= text[0] <= '9') then None
    else
      var next := value * 10 + (text[0] as int - '0' as int);
      if next > 0xFFFF then None else Digits(text[1..], next)
  }

  function ParsePort(text: string): Option<nat> {
    var digits := if text != [] && text[0] == '+' then text[1..] else text;
    if digits == [] then None else Digits(digits, 0)
  }

  function FindColon(text: string): (n: nat)
    ensures n <= |text| && (n < |text| ==> text[n] == ':')
  {
    if text == [] || text[0] == ':' then 0 else 1 + FindColon(text[1..])
  }

  /** `start:end`, where a missing bound is the first or the last port. */
  function ParseRange(text: string): Option<(nat, nat)> {
    var colon := FindColon(text);
    if colon == |text| then None
    else
      var first := if colon == 0 then Some(0) else ParsePort(text[..colon]);
      var last := if colon + 1 == |text| then Some(0xFFFF) else ParsePort(text[colon + 1..]);
      if first.None? || last.None? || first.value > last.value then None else Some((first.value, last.value))
  }

  function ParseRanges(texts: seq<string>): Option<seq<(nat, nat)>> {
    if texts == [] then Some([])
    else
      var first, rest := ParseRange(texts[0]), ParseRanges(texts[1..]);
      if first.None? || rest.None? then None else Some([first.value] + rest.value)
  }

  function CompilePorts(exact: seq<nat>, ranges: seq<string>): Option<PortMatcher> {
    var parsed := ParseRanges(ranges);
    if parsed.None? then None else Some(PortMatcher(exact, parsed.value))
  }

  // ---- Matchers ----

  datatype Matcher = Matcher(
    inbounds: seq<string>,
    networks: seq<Network>,
    users: seq<string>,
    domains: RuleSetFormat.Domains,
    keywords: seq<string>,
    sourceBlocks: seq<RuleSetFormat.IpBlock>,
    sourcePrivate: Option<bool>,
    blocks: seq<RuleSetFormat.IpBlock>,
    isPrivate: Option<bool>,
    sourcePorts: PortMatcher,
    ports: PortMatcher,
    ruleSets: seq<string>,
    invert: bool)
  {
    predicate IsEmpty() {
      && inbounds == [] && networks == [] && users == []
      && domains == NO_DOMAINS && keywords == []
      && sourceBlocks == [] && sourcePrivate.None? && blocks == [] && isPrivate.None?
      && sourcePorts.IsEmpty() && ports.IsEmpty() && ruleSets == []
    }
  }

  const NO_DOMAINS := RuleSetFormat.Domains({}, {})
  const NO_PORTS := PortMatcher([], [])

  predicate InBlocks(blocks: seq<RuleSetFormat.IpBlock>, ip: Ip) {
    exists b <- blocks :: RuleTrees.BlockContains(b, ip)
  }

  predicate Within(text: string, word: string) {
    exists i | 0 <= i <= |text| :: StartsAt(text, i, word)
  }

  predicate StartsAt(text: string, i: nat, word: string)
    requires i <= |text|
  {
    word <= text[i..]
  }

  predicate HasKeyword(keywords: seq<string>, host: string) {
    exists word <- keywords :: Within(DomainKeys.Lower(host), DomainKeys.Lower(word))
  }

  /** The conditions other than domains and addresses. */
  predicate PlainMatches(m: Matcher, s: Session) {
    && (m.inbounds == [] || s.inbound in m.inbounds)
    && (m.networks == [] || s.network in m.networks)
    && (m.users == [] || (s.user.Some? && s.user.value in m.users))
    && (m.sourcePrivate.None? ||
        (s.source.Some? && IsPrivate(Normalized(s.source).value.ip) == m.sourcePrivate.value))
    && (m.isPrivate.None? || (s.host.ip.Some? && IsPrivate(s.host.ip.value) == m.isPrivate.value))
    && (m.sourcePorts.IsEmpty() || (s.source.Some? && m.sourcePorts.Contains(Normalized(s.source).value.port)))
    && (m.ports.IsEmpty() || m.ports.Contains(s.port))
  }

  predicate DomainMatches(m: Matcher, host: string) {
    || (m.domains == NO_DOMAINS && m.keywords == [])
    || DomainKeys.RouterAccepts(m.domains.exact, m.domains.suffix, host)
    || HasKeyword(m.keywords, host)
  }

  predicate AddressMatches(m: Matcher, s: Session) {
    && (m.sourceBlocks == [] || (s.source.Some? && InBlocks(m.sourceBlocks, Normalized(s.source).value.ip)))
    && (m.blocks == [] || (s.host.ip.Some? && InBlocks(m.blocks, s.host.ip.value)))
  }

  predicate MatchesBase(m: Matcher, s: Session) {
    PlainMatches(m, s) && DomainMatches(m, s.host.text) && AddressMatches(m, s)
  }

  predicate MatchesWithoutSets(m: Matcher, s: Session) {
    MatchesBase(m, s) != m.invert
  }

  // ---- Rule sets ----

  datatype HeadlessRule =
    | Plain(matcher: Matcher)
    | Compound(mode: RuleSetFormat.Mode, rules: seq<HeadlessRule>, invert: bool)

  type RuleSet = seq<HeadlessRule>

  predicate RuleMatches(r: HeadlessRule, s: Session)
    decreases r
  {
    match r
    case Plain(m) => MatchesWithoutSets(m, s)
    case Compound(mode, rules, invert) =>
      (if mode.And? then AllMatch(rules, s) else SomeMatch(rules, s)) != invert
  }

  predicate AllMatch(rules: RuleSet, s: Session)
    decreases rules
  {
    rules == [] || (AllMatch(rules[..|rules| - 1], s) && RuleMatches(rules[|rules| - 1], s))
  }

  predicate SomeMatch(rules: RuleSet, s: Session)
    decreases rules
  {
    rules != [] && (SomeMatch(rules[..|rules| - 1], s) || RuleMatches(rules[|rules| - 1], s))
  }

  // ---- Compiling ----

  function CompileNetworks(names: seq<string>): Option<seq<Network>> {
    if names == [] then Some([])
    else
      var rest := CompileNetworks(names[1..]);
      if rest.None? || (names[0] != "tcp" && names[0] != "udp") then None
      else Some([if names[0] == "tcp" then Tcp else Udp] + rest.value)
  }

  function FromHeadless(rule: RuleSetFormat.DefaultRule): Option<Matcher> {
    var networks := CompileNetworks(rule.network);
    var sourcePorts := CompilePorts(rule.sourcePort, rule.sourcePortRange);
    var ports := CompilePorts(rule.port, rule.portRange);
    if networks.None? || sourcePorts.None? || ports.None? then None
    else
      Some(Matcher([], networks.value, [], rule.domains, rule.domainKeyword, rule.sourceIpCidr, None, rule.ipCidr, None,
                   sourcePorts.value, ports.value, [], rule.invert))
  }

  /** A nested rule: one without conditions is an error, and so is an empty logical rule. */
  function Compile(rule: RuleSetFormat.Rule): Option<HeadlessRule>
    decreases rule
  {
    match rule
    case Default(d) =>
      var m := FromHeadless(d);
      if m.None? || m.value.IsEmpty() then None else Some(Plain(m.value))
    case Logical(mode, rules, invert) =>
      if rules == [] then None
      else
        var kids := CompileKids(rules);
        if kids.None? then None else Some(Compound(mode, kids.value, invert))
  }

  function CompileKids(rules: seq<RuleSetFormat.Rule>): Option<seq<HeadlessRule>>
    decreases rules
  {
    if rules == [] then Some([])
    else
      var before, last := CompileKids(rules[..|rules| - 1]), Compile(rules[|rules| - 1]);
      if before.None? || last.None? then None else Some(before.value + [last.value])
  }

  /** A rule set: a rule without conditions at the top is left out. */
  function CompileRuleSet(rules: seq<RuleSetFormat.Rule>): Option<RuleSet> {
    if rules == [] then Some([])
    else
      var before, last := CompileRuleSet(rules[..|rules| - 1]), rules[|rules| - 1];
      if before.None? then None
      else if last.Default? && FromHeadless(last.rule).Some? && FromHeadless(last.rule).value.IsEmpty() then before
      else
        var compiled := Compile(last);
        if compiled.None? then None else Some(before.value + [compiled.value])
  }
}
