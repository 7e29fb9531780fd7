/**
 What a matcher asks of a session: each of its conditions alone, told on the session's fields, and all
 of them together. Addresses are told by their octets, ports by their decimal text, hosts by their
 characters.
 */
module SessionConditions {
  import opened Wrappers
  import opened Arithmetic
  import opened Bytes
  import opened RuleMatching
  import opened Routing
  import opened DomainRules
  import AddressRanges
  import DomainKeys
  import RuleSetFormat
  import RuleTrees

  // ---- Addresses ----

  type Octets4 = o: seq<byte> | |o| == 4 witness [0, 0, 0, 0]
  type Octets16 = o: seq<byte> | |o| == 16 witness [0, 0, 0, 0, 0, 0, 0, 0, 0, 0, 0, 0, 0, 0, 0, 0]

  const ZEROS: seq<byte> := [0, 0, 0, 0, 0, 0, 0, 0, 0, 0]

  /** An IPv6 address of ten zero octets and two of ones stands for the IPv4 address in the last four;
      every other address for itself. */
  lemma MappedAddress(o: Octets16, v4: Octets4)
    ensures NormalizedIp(RuleTrees.Addr6(FromBe(o))) ==
      if o[..12] == ZEROS + [0xFF, 0xFF] then RuleTrees.Addr4(FromBe(o[12..])) else RuleTrees.Addr6(FromBe(o))
    ensures NormalizedIp(RuleTrees.Addr4(FromBe(v4))) == RuleTrees.Addr4(FromBe(v4))
  {
    var high, low := o[..12], o[12..];
    FromBeSplit(o, 12);
    FromBeRange(low);
    assert Span(4) == 0x1_0000_0000;
    MappedPrefix();
    if FromBe(high) == 0xFFFF {
      FromBeInjective(high, ZEROS + [0xFF, 0xFF]);
    }
  }

  lemma MappedPrefix()
    ensures FromBe(ZEROS + [0xFF, 0xFF]) == 0xFFFF
  {
    var s := ZEROS + [0xFF, 0xFF];
    FromBeSplit(s, 10);
    assert s[..10] == ZEROS && s[10..] == [0xFF, 0xFF];
    FromBeZeros(10);
    assert ZEROS == seq(10, _ => 0);
    FromBePair(0xFF, 0xFF);
  }

  /** The private IPv4 addresses: 10/8, 172.16/12, 192.168/16, 127/8, 169.254/16, broadcast and unspecified. */
  lemma PrivateIpv4(o: Octets4)
    ensures IsPrivate(RuleTrees.Addr4(FromBe(o))) <==>
      || o[0] == 10
      || (o[0] == 172 && 16 <= o[1] <= 31)
      || (o[0] == 192 && o[1] == 168)
      || o[0] == 127
      || (o[0] == 169 && o[1] == 254)
      || o == [255, 255, 255, 255]
      || o == [0, 0, 0, 0]
  {
    FromBeFour(o);
  }

  lemma FromBeFour(o: Octets4)
    ensures FromBe(o) == 0x100_0000 * o[0] as int + 0x1_0000 * o[1] as int + 0x100 * o[2] as int + o[3]
  {
    assert o[..3][..2] == [o[0], o[1]];
    FromBePair(o[0], o[1]);
    assert FromBe(o[..3]) == FromBe([o[0], o[1]]) * 0x100 + o[2];
  }

  /** The private IPv6 addresses: loopback, unspecified, fc00::/7 and fe80::/10. */
  lemma PrivateIpv6(o: Octets16)
    ensures IsPrivate(RuleTrees.Addr6(FromBe(o))) <==>
      || o == ZEROS + [0, 0, 0, 0, 0, 1]
      || o == ZEROS + [0, 0, 0, 0, 0, 0]
      || o[0] == 0xFC || o[0] == 0xFD
      || (o[0] == 0xFE && 0x80 <= o[1] <= 0xBF)
  {
    hide Pow2, FromBe;
    LowAddresses(o);
    LeadingBits(o);
  }

  lemma LowAddresses(o: Octets16)
    ensures FromBe(o) == 1 <==> o == ZEROS + [0, 0, 0, 0, 0, 1]
    ensures FromBe(o) == 0 <==> o == ZEROS + [0, 0, 0, 0, 0, 0]
  {
    FromBeZeros(16);
    FromBeZeros(15);
    var zero, one := seq(16, _ => 0), seq(15, _ => 0) + [1];
    assert zero == ZEROS + [0, 0, 0, 0, 0, 0] && one == ZEROS + [0, 0, 0, 0, 0, 1];
    assert one[..15] == seq(15, _ => 0);
    if FromBe(o) == 0 {
      FromBeInjective(o, zero);
    }
    if FromBe(o) == 1 {
      FromBeInjective(o, one);
    }
  }

  lemma LeadingBits(o: Octets16)
    ensures FromBe(o) / Pow2(121) == o[0] / 2
    ensures FromBe(o) / Pow2(118) == (0x100 * o[0] as int + o[1]) / 0x40
  {
    hide Pow2, Span, FromBe;
    assert o[..1] == [o[0]] && o[..2] == [o[0], o[1]];
    FromBeOne(o[0]);
    FromBePair(o[0], o[1]);
    SmallPowers();
    LeadingPart(o, 1, 1);
    LeadingPart(o, 2, 6);
  }

  lemma FromBeOne(a: byte)
    ensures FromBe([a]) == a
  {
    assert [a][..0] == [];
  }

  lemma LeadingPart(o: Octets16, k: nat, more: nat)
    requires k <= 16
    ensures FromBe(o) / Pow2(8 * (16 - k) + more) == FromBe(o[..k]) / Pow2(more)
  {
    hide Pow2, Span, FromBe;
    FromBeQuotient(o, k);
    SpanPow2(16 - k);
    DivPow2(FromBe(o), 8 * (16 - k), 8 * (16 - k) + more);
  }

  lemma SmallPowers()
    ensures Pow2(1) == 2 && Pow2(6) == 0x40
  {
  }

  predicate WellFormed(b: RuleSetFormat.IpBlock) {
    b.cidr.prefix <= Bits(b) && b.cidr.network < Pow2(Bits(b))
  }

  function Bits(b: RuleSetFormat.IpBlock): nat {
    if b.V4? then 32 else 128
  }

  /** The address is of the block's family and has the block's leading bits. */
  predicate LiesIn(b: RuleSetFormat.IpBlock, a: RuleTrees.IpAddr)
    requires WellFormed(b)
  {
    && (b.V4? <==> a.Addr4?)
    && a.value / Pow2(Bits(b) - b.cidr.prefix) == b.cidr.network / Pow2(Bits(b) - b.cidr.prefix)
  }

  /** The router's masks find exactly the addresses that lie in the block. */
  lemma BlockMeaning(b: RuleSetFormat.IpBlock, a: RuleTrees.IpAddr)
    requires a.Valid() && WellFormed(b)
    ensures RuleTrees.BlockContains(b, a) <==> LiesIn(b, a)
  {
    var width := Bits(b);
    if b.V4? == a.Addr4? {
      assert RuleTrees.BlockContains(b, a) == AddressRanges.Contains(width, b.cidr, a.value);
      hide Pow2;
      SameMultiple(a.value, b.cidr.network, Pow2(width - b.cidr.prefix));
      if b.cidr.prefix == 0 {
        DivUnique(a.value, Pow2(width), 0, a.value);
        DivUnique(b.cidr.network, Pow2(width), 0, b.cidr.network);
      }
    }
  }

  lemma SameMultiple(x: nat, y: nat, p: nat)
    requires p > 0
    ensures x - x % p == y - y % p <==> x / p == y / p
  {
    assert x - x % p == p * (x / p) && y - y % p == p * (y / p);
    if x / p < y / p {
      MulMonotone(x / p + 1, y / p, p);
    }
    if y / p < x / p {
      MulMonotone(y / p + 1, x / p, p);
    }
  }

  // ---- Ports ----

  ghost predicate AllDigits(text: string) {
    forall i | 0 <= i < |text| :: '0' <= text[i] <= '9'
  }

  /** The number a decimal text stands for. */
  ghost function Decimal(text: string): nat
    requires AllDigits(text)
  {
    if text == "" then 0 else Decimal(text[..|text| - 1]) * 10 + (text[|text| - 1] as int - '0' as int)
  }

  /** Decimal digits, perhaps behind a plus sign, for a number that is a port. */
  ghost predicate SpellsPort(text: string, port: nat) {
    var digits := if text != "" && text[0] == '+' then text[1..] else text;
    digits != "" && AllDigits(digits) && Decimal(digits) == port && port <= 0xFFFF
  }

  function Pow10(n: nat): (p: nat)
    ensures p > 0
  {
    if n == 0 then 1 else 10 * Pow10(n - 1)
  }

  lemma {:induction false} DecimalFirst(text: string)
    requires text != "" && AllDigits(text)
    ensures AllDigits(text[1..])
    ensures Decimal(text) == (text[0] as int - '0' as int) * Pow10(|text| - 1) + Decimal(text[1..])
  {
    if |text| > 1 {
      var init := text[..|text| - 1];
      DecimalFirst(init);
      assert text[1..][..|text| - 2] == init[1..];
      TenTimes(text[0] as int - '0' as int, Pow10(|text| - 2));
    } else {
      assert text[..0] == "" && text[1..] == "";
    }
  }

  lemma TenTimes(d: int, p: int)
    ensures d * (10 * p) == (d * p) * 10
  {
  }

  /** The digit loop: the number so far shifted by the digits, unless it grows too large. */
  lemma {:induction false} DigitsMeaning(text: string, value: nat)
    requires value <= 0xFFFF
    ensures Digits(text, value) ==
      if AllDigits(text) && value * Pow10(|text|) + Decimal(text) <= 0xFFFF then Some(value * Pow10(|text|) + Decimal(text))
      else None
  {
    if text != "" && '0' <= text[0] <= '9' {
      var d := text[0] as int - '0' as int;
      var next := value * 10 + d;
      RestDigits(text);
      ShiftDigit(value, d, |text|);
      if AllDigits(text) {
        DecimalFirst(text);
      }
      hide AllDigits, Decimal, Pow10;
      if next <= 0xFFFF {
        DigitsMeaning(text[1..], next);
      }
    }
  }

  lemma RestDigits(text: string)
    requires text != "" && '0' <= text[0] <= '9'
    ensures AllDigits(text) <==> AllDigits(text[1..])
  {
    assert forall i | 0 < i < |text| :: text[i] == text[1..][i - 1];
  }

  lemma ShiftDigit(value: nat, d: nat, n: nat)
    requires n > 0
    ensures value * Pow10(n) + d * Pow10(n - 1) == (value * 10 + d) * Pow10(n - 1) >= value * 10 + d
  {
    var p := Pow10(n - 1);
    assert value * (10 * p) == (value * 10) * p;
    MulMonotone(1, p, value * 10 + d);
  }

  lemma PortMeaning(text: string, port: nat)
    ensures ParsePort(text) == Some(port) <==> SpellsPort(text, port)
  {
    var digits := if text != "" && text[0] == '+' then text[1..] else text;
    DigitsMeaning(digits, 0);
  }

  /** A bound of a range: a port, or nothing for the bound that goes without saying. */
  ghost predicate SpellsBound(text: string, port: nat, unsaid: nat) {
    if text == "" then port == unsaid else SpellsPort(text, port)
  }

  ghost predicate SplitsAt(text: string, i: nat, first: nat, last: nat)
    requires i < |text|
  {
    text[i] == ':' && SpellsBound(text[..i], first, 0) && SpellsBound(text[i + 1..], last, 0xFFFF)
  }

  /** A range is two bounds around a colon, in order. */
  lemma RangeMeaning(text: string, first: nat, last: nat)
    ensures ParseRange(text) == Some((first, last)) <==>
      first <= last && exists i | 0 <= i < |text| :: SplitsAt(text, i, first, last)
  {
    hide ParsePort, SpellsPort;
    var colon := FindColon(text);
    FirstColon(text);
    if colon < |text| {
      ColonMeaning(text, colon, first, last);
    }
    if i :| 0 <= i < |text| && SplitsAt(text, i, first, last) {
      NoColon(text, i, first);
      assert colon == i;
    }
  }

  lemma ColonMeaning(text: string, colon: nat, first: nat, last: nat)
    requires colon == FindColon(text) < |text|
    ensures ParseRange(text) == Some((first, last)) <==> first <= last && SplitsAt(text, colon, first, last)
  {
    hide ParsePort, SpellsPort, FindColon;
    PortMeaning(text[..colon], first);
    PortMeaning(text[colon + 1..], last);
    assert text[..colon] == "" <==> colon == 0;
    assert text[colon + 1..] == "" <==> colon + 1 == |text|;
  }

  lemma {:induction false} FirstColon(text: string)
    ensures forall i | 0 <= i < FindColon(text) :: text[i] != ':'
  {
    if text != "" && text[0] != ':' {
      FirstColon(text[1..]);
      assert forall i | 0 < i < |text| :: text[i] == text[1..][i - 1];
    }
  }

  lemma NoColon(text: string, i: nat, port: nat)
    requires i < |text| && SpellsBound(text[..i], port, 0)
    ensures forall j | 0 <= j < i :: text[j] != ':'
  {
    var bound := text[..i];
    forall j | 0 <= j < i ensures text[j] != ':' {
      if bound[0] == '+' {
        assert j > 0 ==> bound[1..][j - 1] == text[j];
      }
      assert bound[j] == text[j];
    }
  }

  // ---- Hosts ----

  ghost predicate PartAt(host: string, i: nat, word: string) {
    i + |word| <= |host| && SameText(host[i..i + |word|], word)
  }

  /** A keyword takes the hosts with a part that is the keyword up to case. */
  lemma KeywordMeaning(words: seq<string>, host: string)
    ensures HasKeyword(words, host) <==> exists w, i: nat | 0 <= w < |words| :: PartAt(host, i, words[w])
  {
    hide PartAt, Within;
    forall word ensures Within(DomainKeys.Lower(host), DomainKeys.Lower(word)) <==> exists i: nat :: PartAt(host, i, word) {
      PartMeaning(word, host);
    }
    if w, i: nat :| 0 <= w < |words| && PartAt(host, i, words[w]) {
      assert words[w] in words;
    }
  }

  lemma PartMeaning(word: string, host: string)
    ensures Within(DomainKeys.Lower(host), DomainKeys.Lower(word)) <==> exists i: nat :: PartAt(host, i, word)
  {
    hide SameText;
    var h, w := DomainKeys.Lower(host), DomainKeys.Lower(word);
    forall i: nat | i <= |host| ensures StartsAt(h, i, w) <==> PartAt(host, i, word) {
      if i + |word| <= |host| {
        LowerText(host[i..i + |word|], word);
        assert DomainKeys.Lower(host[i..i + |word|]) == h[i..i + |word|] == h[i..][..|word|];
      }
    }
  }

  // ---- One condition ----

  const ANY := Matcher([], [], [], NO_DOMAINS, [], [], None, [], None, NO_PORTS, NO_PORTS, [], false)

  lemma InboundCondition(inbounds: seq<string>, s: Session, sets: Sets)
    ensures Matches(ANY.(inbounds := inbounds), s, sets) <==>
      inbounds == [] || exists i | 0 <= i < |inbounds| :: inbounds[i] == s.inbound
  {
  }

  lemma NetworkCondition(networks: seq<Network>, s: Session, sets: Sets)
    ensures Matches(ANY.(networks := networks), s, sets) <==>
      networks == [] || exists i | 0 <= i < |networks| :: networks[i] == s.network
  {
  }

  /** A session without a user fails every list of users. */
  lemma UserCondition(users: seq<string>, s: Session, sets: Sets)
    ensures Matches(ANY.(users := users), s, sets) <==>
      users == [] || exists i | 0 <= i < |users| :: s.user == Some(users[i])
  {
  }

  /** Domains and keywords are one condition: either kind will do. */
  lemma DomainCondition(domains: RuleSetFormat.Domains, words: seq<string>, s: Session, sets: Sets)
    ensures Matches(ANY.(domains := domains, keywords := words), s, sets) <==>
      || (domains == NO_DOMAINS && words == [])
      || (exists v <- domains.exact :: Whole(v).Accepts(s.host.text))
      || (exists v <- domains.suffix :: Suffix(v).Accepts(s.host.text))
      || (exists w, i: nat | 0 <= w < |words| :: PartAt(s.host.text, i, words[w]))
  {
    hide DomainKeys.RouterAccepts, HasKeyword, DomainRule.Accepts, PartAt;
    RouterRules(domains.exact, domains.suffix, s.host.text);
    KeywordMeaning(words, s.host.text);
  }

  /** The address the source stands for. */
  function SourceAddress(s: Session): Option<RuleTrees.IpAddr> {
    if s.source.Some? then Some(NormalizedIp(s.source.value.ip)) else None
  }

  lemma BlocksMeaning(blocks: seq<RuleSetFormat.IpBlock>, a: RuleTrees.IpAddr)
    requires a.Valid() && forall i | 0 <= i < |blocks| :: WellFormed(blocks[i])
    ensures InBlocks(blocks, a) <==> exists i | 0 <= i < |blocks| :: LiesIn(blocks[i], a)
  {
    hide RuleTrees.BlockContains, LiesIn;
    forall i | 0 <= i < |blocks| ensures RuleTrees.BlockContains(blocks[i], a) <==> LiesIn(blocks[i], a) {
      BlockMeaning(blocks[i], a);
    }
  }

  lemma SourceBlockCondition(blocks: seq<RuleSetFormat.IpBlock>, s: Session, sets: Sets)
    requires s.Valid() && forall i | 0 <= i < |blocks| :: WellFormed(blocks[i])
    ensures Matches(ANY.(sourceBlocks := blocks), s, sets) <==>
      blocks == [] || (s.source.Some? && exists i | 0 <= i < |blocks| :: LiesIn(blocks[i], SourceAddress(s).value))
  {
    hide InBlocks, LiesIn, WellFormed, NormalizedIp;
    NormalizedValid(s.source);
    if s.source.Some? {
      BlocksMeaning(blocks, SourceAddress(s).value);
    }
  }

  /** A host that is no address fails every list of blocks. */
  lemma BlockCondition(blocks: seq<RuleSetFormat.IpBlock>, s: Session, sets: Sets)
    requires s.Valid() && forall i | 0 <= i < |blocks| :: WellFormed(blocks[i])
    ensures Matches(ANY.(blocks := blocks), s, sets) <==>
      blocks == [] || (s.host.ip.Some? && exists i | 0 <= i < |blocks| :: LiesIn(blocks[i], s.host.ip.value))
  {
    hide InBlocks, LiesIn, WellFormed;
    if s.host.ip.Some? {
      BlocksMeaning(blocks, s.host.ip.value);
    }
  }

  /** Asked to be private or not to be, a missing address is neither. */
  lemma PrivateConditions(expected: Option<bool>, s: Session, sets: Sets)
    ensures Matches(ANY.(sourcePrivate := expected), s, sets) <==>
      match (expected, SourceAddress(s))
      case (None, _) => true
      case (Some(wanted), Some(a)) => wanted == IsPrivate(a)
      case _ => false
    ensures Matches(ANY.(isPrivate := expected), s, sets) <==>
      match (expected, s.host.ip)
      case (None, _) => true
      case (Some(wanted), Some(a)) => wanted == IsPrivate(a)
      case _ => false
  {
    hide IsPrivate, NormalizedIp;
  }

  ghost predicate PortListed(ports: PortMatcher, port: nat) {
    || (exists i | 0 <= i < |ports.exact| :: ports.exact[i] == port)
    || (exists i | 0 <= i < |ports.ranges| :: ports.ranges[i].0 <= port <= ports.ranges[i].1)
  }

  lemma PortConditions(ports: PortMatcher, s: Session, sets: Sets)
    ensures Matches(ANY.(sourcePorts := ports), s, sets) <==>
      ports == NO_PORTS || (s.source.Some? && PortListed(ports, s.source.value.port))
    ensures Matches(ANY.(ports := ports), s, sets) <==> ports == NO_PORTS || PortListed(ports, s.port)
  {
    hide IsPrivate, NormalizedIp;
    PortsListed(ports, s.port);
    if s.source.Some? {
      PortsListed(ports, s.source.value.port);
    }
  }

  lemma PortsListed(ports: PortMatcher, port: nat)
    ensures ports.Contains(port) <==> PortListed(ports, port)
  {
    if r :| r in ports.ranges && r.0 <= port <= r.1 {
      var i :| 0 <= i < |ports.ranges| && ports.ranges[i] == r;
    }
  }

  /** One of the named rule sets is loaded and has a rule that matches. */
  lemma RuleSetCondition(tags: seq<string>, s: Session, sets: Sets)
    ensures Matches(ANY.(ruleSets := tags), s, sets) <==>
      tags == [] || exists t, r | 0 <= t < |tags| && tags[t] in sets && 0 <= r < |sets[tags[t]]| :: RuleMatches(sets[tags[t]][r], s)
  {
    hide RuleMatches;
    forall tag | tag in sets
      ensures SomeMatch(sets[tag], s) <==> exists r | 0 <= r < |sets[tag]| :: RuleMatches(sets[tag][r], s)
    {
      SomeOrAll(sets[tag], s);
    }
    assert MatchesBase(ANY.(ruleSets := tags), s);
  }

  lemma {:induction false} SomeOrAll(rules: RuleSet, s: Session)
    ensures SomeMatch(rules, s) <==> exists r | 0 <= r < |rules| :: RuleMatches(rules[r], s)
    ensures AllMatch(rules, s) <==> forall r | 0 <= r < |rules| :: RuleMatches(rules[r], s)
  {
    if rules != [] {
      var init := rules[..|rules| - 1];
      SomeOrAll(init, s);
      assert forall r | 0 <= r < |init| :: init[r] == rules[r];
    }
  }

  /** A logical rule of a rule set asks for all of its rules or for one. */
  lemma LogicalRule(mode: RuleSetFormat.Mode, rules: RuleSet, invert: bool, s: Session)
    ensures RuleMatches(Compound(mode, rules, invert), s) <==>
      invert != if mode.And? then forall r | 0 <= r < |rules| :: RuleMatches(rules[r], s)
                else exists r | 0 <= r < |rules| :: RuleMatches(rules[r], s)
  {
    SomeOrAll(rules, s);
  }

  // ---- All of them ----

  /** The conditions of a matcher, one by one. */
  function Parts(m: Matcher): seq<Matcher> {
    [ANY.(inbounds := m.inbounds),
     ANY.(networks := m.networks),
     ANY.(users := m.users),
     ANY.(domains := m.domains, keywords := m.keywords),
     ANY.(sourceBlocks := m.sourceBlocks),
     ANY.(sourcePrivate := m.sourcePrivate),
     ANY.(blocks := m.blocks),
     ANY.(isPrivate := m.isPrivate),
     ANY.(sourcePorts := m.sourcePorts),
     ANY.(ports := m.ports),
     ANY.(ruleSets := m.ruleSets)]
  }

  lemma PlainParts(m: Matcher, s: Session, sets: Sets)
    ensures PlainMatches(m, s) <==>
      && Matches(ANY.(inbounds := m.inbounds), s, sets)
      && Matches(ANY.(networks := m.networks), s, sets)
      && Matches(ANY.(users := m.users), s, sets)
      && Matches(ANY.(sourcePrivate := m.sourcePrivate), s, sets)
      && Matches(ANY.(isPrivate := m.isPrivate), s, sets)
      && Matches(ANY.(sourcePorts := m.sourcePorts), s, sets)
      && Matches(ANY.(ports := m.ports), s, sets)
  {
    hide IsPrivate, Normalized, PortMatcher.Contains, DomainKeys.RouterAccepts, HasKeyword, InBlocks;
    assert NO_PORTS.IsEmpty();
  }

  lemma OtherParts(m: Matcher, s: Session, sets: Sets)
    ensures DomainMatches(m, s.host.text) <==> Matches(ANY.(domains := m.domains, keywords := m.keywords), s, sets)
    ensures AddressMatches(m, s) <==>
      Matches(ANY.(sourceBlocks := m.sourceBlocks), s, sets) && Matches(ANY.(blocks := m.blocks), s, sets)
    ensures (m.ruleSets == [] || InSomeSet(m.ruleSets, sets, s)) <==> Matches(ANY.(ruleSets := m.ruleSets), s, sets)
  {
    hide Normalized, DomainKeys.RouterAccepts, HasKeyword, InBlocks, InSomeSet;
    assert NO_PORTS.IsEmpty();
  }

  lemma Groups(m: Matcher, s: Session, sets: Sets)
    ensures (Matches(m, s, sets) != m.invert) <==>
      && PlainMatches(m, s) && DomainMatches(m, s.host.text) && AddressMatches(m, s)
      && (m.ruleSets == [] || InSomeSet(m.ruleSets, sets, s))
  {
  }

  /** A matcher matches when each of its conditions does, and an inverted one when some condition does not. */
  lemma Conjunction(m: Matcher, s: Session, sets: Sets)
    ensures Matches(m, s, sets) <==> m.invert != forall i | 0 <= i < |Parts(m)| :: Matches(Parts(m)[i], s, sets)
  {
    Groups(m, s, sets);
    PlainParts(m, s, sets);
    OtherParts(m, s, sets);
    hide Matches, PlainMatches, DomainMatches, AddressMatches, InSomeSet, Matcher.IsEmpty;
    var parts := Parts(m);
    if forall i | 0 <= i < |parts| :: Matches(parts[i], s, sets) {
      assert Matches(parts[0], s, sets) && Matches(parts[1], s, sets) && Matches(parts[2], s, sets);
      assert Matches(parts[3], s, sets) && Matches(parts[4], s, sets) && Matches(parts[5], s, sets);
      assert Matches(parts[6], s, sets) && Matches(parts[7], s, sets) && Matches(parts[8], s, sets);
      assert Matches(parts[9], s, sets) && Matches(parts[10], s, sets);
    }
  }

  /** Only the matcher that takes every session counts as one without conditions. */
  lemma EmptyMatcher(m: Matcher)
    ensures m.IsEmpty() <==> m.(invert := false) == ANY
  {
  }

  /** A rule of a rule set asks the same of a session. */
  lemma WithoutSets(m: Matcher, s: Session, sets: Sets)
    requires m.ruleSets == []
    ensures RuleMatches(Plain(m), s) <==> Matches(m, s, sets)
  {
  }
}
