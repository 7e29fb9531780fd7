/**
 The binary rule-set format behind its compression: what each reader takes from the front of the
 remaining bytes. Error messages are not distinguished.
 */
module RuleSetFormat {
  import opened Wrappers
  import opened Arithmetic
  import opened Bytes
  import opened AddressRanges
  import Utf8
  import DomainKeys
  import TrieEncoding

  const MAX_COLLECTION_SIZE: nat := 4_000_000
  const MAX_RECURSION: nat := 64

  /** A value read from the front of some bytes and the bytes behind it, or a failure. */
  datatype Parsed<+T> = Got(value: T, rest: seq<byte>) | Failed {
    /** At least `n` bytes of `s` are used up. */
    predicate Uses(s: seq<byte>, n: nat) {
      Got? ==> |rest| + n <= |s|
    }
  }

  function U8(s: seq<byte>): (r: Parsed<byte>)
    ensures r.Uses(s, 1)
  {
    if s == [] then Failed else Got(s[0], s[1..])
  }

  function Bool(s: seq<byte>): (r: Parsed<bool>)
    ensures r.Uses(s, 1)
  {
    if s == [] || s[0] > 1 then Failed else Got(s[0] == 1, s[1..])
  }

  /** Exactly `n` bytes. */
  function Exactly(n: nat, s: seq<byte>): (r: Parsed<seq<byte>>)
    ensures r.Uses(s, n)
  {
    if |s| < n then Failed else Got(s[..n], s[n..])
  }

  /** A big-endian integer of `n` bytes. */
  function BeInt(n: nat, s: seq<byte>): (r: Parsed<nat>)
    ensures r.Uses(s, n)
  {
    if |s| < n then Failed else Got(FromBe(s[..n]), s[n..])
  }

  /** Seven more bits of a varint. */
  function Group(b: byte, i: nat): nat {
    b % 128 * Pow2(7 * i)
  }

  /** The varint loop with `i` groups of seven bits already in `value`. */
  function UvarintFrom(s: seq<byte>, i: nat, value: nat): (r: Parsed<nat>)
    requires i <= 10
    ensures r.Uses(s, 1)
    decreases 10 - i
  {
    if i == 10 || s == [] || (i == 9 && s[0] > 1) then Failed
    else
      var value' := value + Group(s[0], i);
      if s[0] < 128 then Got(value', s[1..]) else UvarintFrom(s[1..], i + 1, value')
  }

  lemma UvarintStep(s: seq<byte>, i: nat, value: nat)
    requires i <= 10
    ensures UvarintFrom(s, i, value)
         == if i == 10 || s == [] || (i == 9 && s[0] > 1) then Failed
            else if s[0] < 128 then Got(value + Group(s[0], i), s[1..])
            else UvarintFrom(s[1..], i + 1, value + Group(s[0], i))
  {
  }

  function Uvarint(s: seq<byte>): (r: Parsed<nat>)
    ensures r.Uses(s, 1)
  {
    UvarintFrom(s, 0, 0)
  }

  function Count(s: seq<byte>): (r: Parsed<nat>)
    ensures r.Uses(s, 1)
  {
    var n := Uvarint(s);
    if n.Got? && n.value <= MAX_COLLECTION_SIZE then n else Failed
  }

  function ByteString(s: seq<byte>): (r: Parsed<seq<byte>>)
    ensures r.Uses(s, 1)
  {
    var n := Count(s);
    if n.Failed? then Failed else Exactly(n.value, n.rest)
  }

  function Text(s: seq<byte>): (r: Parsed<string>)
    ensures r.Uses(s, 1)
  {
    var b := ByteString(s);
    if b.Failed? then Failed
    else
      var t := Utf8.Decode(b.value);
      if t.None? then Failed else Got(t.value, b.rest)
  }

  /** `n` values, one after the other. */
  function Many<T>(n: nat, s: seq<byte>, item: seq<byte> -> Parsed<T>): (r: Parsed<seq<T>>) {
    if n == 0 then Got([], s)
    else
      var before := Many(n - 1, s, item);
      if before.Failed? then Failed
      else
        var last := item(before.rest);
        if last.Failed? then Failed else Got(before.value + [last.value], last.rest)
  }

  /** A count and that many values. */
  function Counted<T>(s: seq<byte>, item: seq<byte> -> Parsed<T>): Parsed<seq<T>> {
    var n := Count(s);
    if n.Failed? then Failed else Many(n.value, n.rest, item)
  }

  ghost predicate Consumes<T>(item: seq<byte> -> Parsed<T>) {
    forall s :: item(s).Uses(s, 0)
  }

  lemma {:induction false} ManyUses<T>(n: nat, s: seq<byte>, item: seq<byte> -> Parsed<T>)
    requires Consumes(item)
    ensures Many(n, s, item).Uses(s, 0)
  {
    if n > 0 {
      ManyUses(n - 1, s, item);
      var before := Many(n - 1, s, item);
      if before.Got? {
        assert item(before.rest).Uses(before.rest, 0);
      }
    }
  }

  function Strings(s: seq<byte>): Parsed<seq<string>> {
    Counted(s, Text)
  }

  function U16s(s: seq<byte>): Parsed<seq<nat>> {
    Counted(s, x => BeInt(2, x))
  }

  function U64s(s: seq<byte>): Parsed<seq<nat>> {
    Counted(s, x => BeInt(8, x))
  }

  lemma ListsUse(s: seq<byte>)
    ensures Strings(s).Uses(s, 0) && U16s(s).Uses(s, 0) && U64s(s).Uses(s, 0)
  {
    var n := Count(s);
    if n.Got? {
      ManyUses(n.value, n.rest, Text);
      ManyUses(n.value, n.rest, x => BeInt(2, x));
      ManyUses(n.value, n.rest, x => BeInt(8, x));
    }
  }

  // ---- IP sets ----

  /** A block of one address family, `a/p` as the decoder prints it. */
  datatype IpBlock = V4(cidr: Cidr) | V6(cidr: Cidr)

  /** An encoded range of one family. */
  datatype IpRange = Range4(from: nat, to: nat) | Range6(from: nat, to: nat) {
    function Width(): nat {
      if Range4? then 32 else 128
    }

    predicate Valid() {
      from <= to < Pow2(Width())
    }

    function Blocks(): seq<IpBlock>
      requires Valid()
    {
      var cidrs := Split(Width(), from, to);
      seq(|cidrs|, i requires 0 <= i < |cidrs| => if Range4? then V4(cidrs[i]) else V6(cidrs[i]))
    }
  }

  lemma AddressWidth(s: seq<byte>)
    ensures |s| == 4 ==> FromBe(s) < Pow2(32)
    ensures |s| == 16 ==> FromBe(s) < Pow2(128)
  {
    FromBeRange(s);
    SpanPow2(|s|);
  }

  function Range(s: seq<byte>): (r: Parsed<IpRange>)
    ensures r.Uses(s, 0)
    ensures r.Got? ==> r.value.Valid()
  {
    var from := ByteString(s);
    if from.Failed? then Failed
    else
      var to := ByteString(from.rest);
      if to.Failed? then Failed
      else
        AddressWidth(to.value);
        var a, b := FromBe(from.value), FromBe(to.value);
        if |from.value| == 4 && |to.value| == 4 && a <= b then Got(Range4(a, b), to.rest)
        else if |from.value| == 16 && |to.value| == 16 && a <= b then Got(Range6(a, b), to.rest)
        else Failed
  }

  predicate RangesOk(ranges: seq<IpRange>) {
    forall i | 0 <= i < |ranges| :: ranges[i].Valid()
  }

  function BlocksOf(ranges: seq<IpRange>): seq<IpBlock>
    requires RangesOk(ranges)
  {
    if ranges == [] then [] else BlocksOf(ranges[..|ranges| - 1]) + ranges[|ranges| - 1].Blocks()
  }

  lemma BlocksSnoc(ranges: seq<IpRange>, range: IpRange)
    requires RangesOk(ranges) && range.Valid()
    ensures RangesOk(ranges + [range]) && BlocksOf(ranges + [range]) == BlocksOf(ranges) + range.Blocks()
  {
    assert (ranges + [range])[..|ranges|] == ranges;
  }

  lemma {:induction false} RangesValid(n: nat, s: seq<byte>)
    ensures var r := Many(n, s, Range);
            r.Uses(s, 0) && (r.Got? ==> RangesOk(r.value))
  {
    hide Range;
    if n > 0 {
      RangesValid(n - 1, s);
    }
  }

  /** `read_ip_set`: a version, a big-endian count, and the ranges as blocks. */
  function IpSet(s: seq<byte>): (r: Parsed<seq<IpBlock>>)
    ensures r.Uses(s, 0)
  {
    var version := U8(s);
    if version.Failed? || version.value != 1 then Failed
    else
      var n := BeInt(8, version.rest);
      if n.Failed? || n.value > MAX_COLLECTION_SIZE then Failed
      else
        var ranges := Many(n.value, n.rest, Range);
        RangesValid(n.value, n.rest);
        if ranges.Failed? then Failed else Got(BlocksOf(ranges.value), ranges.rest)
  }

  // ---- Domain matchers ----

  datatype Domains = Domains(exact: set<string>, suffix: set<string>)

  /** The lists a domain matcher stands for. */
  ghost function MatcherMeaning(leaves: seq<nat>, bitmap: seq<nat>, labels: seq<byte>): Option<Domains> {
    if !TrieEncoding.Accepted(leaves, bitmap, labels) then None
    else
      var keys := DomainKeys.Sorted(TrieEncoding.DecodedKeys(leaves, bitmap, labels));
      if keys.None? then None
      else Some(Domains(DomainKeys.MergedExact(keys.value), DomainKeys.MergedSuffix(keys.value)))
  }

  ghost function DomainMatcher(s: seq<byte>): (r: Parsed<Domains>)
    ensures r.Uses(s, 0)
  {
    var version := U8(s);
    if version.Failed? || version.value != 0 then Failed
    else
      var leaves := U64s(version.rest);
      ListsUse(version.rest);
      if leaves.Failed? then Failed
      else
        var bitmap := U64s(leaves.rest);
        ListsUse(leaves.rest);
        if bitmap.Failed? then Failed
        else
          var labels := ByteString(bitmap.rest);
          if labels.Failed? then Failed
          else
            var domains := MatcherMeaning(leaves.value, bitmap.value, labels.value);
            if domains.None? then Failed else Got(domains.value, labels.rest)
  }

  // ---- Rules ----

  datatype DefaultRule = DefaultRule(
    network: seq<string>,
    domains: Domains,
    domainKeyword: seq<string>,
    sourceIpCidr: seq<IpBlock>,
    ipCidr: seq<IpBlock>,
    sourcePort: seq<nat>,
    sourcePortRange: seq<string>,
    port: seq<nat>,
    portRange: seq<string>,
    invert: bool)

  const NO_CONDITIONS := DefaultRule([], Domains({}, {}), [], [], [], [], [], [], [], false)

  datatype Mode = And | Or

  datatype Rule =
    | Default(rule: DefaultRule)
    | Logical(mode: Mode, rules: seq<Rule>, invert: bool)

  const ITEM_NETWORK: nat := 1
  const ITEM_DOMAIN: nat := 2
  const ITEM_DOMAIN_KEYWORD: nat := 3
  const ITEM_SOURCE_IP_CIDR: nat := 5
  const ITEM_IP_CIDR: nat := 6
  const ITEM_SOURCE_PORT: nat := 7
  const ITEM_SOURCE_PORT_RANGE: nat := 8
  const ITEM_PORT: nat := 9
  const ITEM_PORT_RANGE: nat := 10
  const ITEM_FINAL: nat := 0xff

  /** One supported item: the rule so far with the item's field replaced. Every other item fails,
      whether it is known and unsupported or unknown. */
  ghost function ItemBody(item: byte, rule: DefaultRule, s: seq<byte>): (r: Parsed<DefaultRule>)
    ensures r.Uses(s, 0)
  {
    ListsUse(s);
    match item
    case ITEM_NETWORK => var v := Strings(s); if v.Failed? then Failed else Got(rule.(network := v.value), v.rest)
    case ITEM_DOMAIN => var v := DomainMatcher(s); if v.Failed? then Failed else Got(rule.(domains := v.value), v.rest)
    case ITEM_DOMAIN_KEYWORD => var v := Strings(s); if v.Failed? then Failed else Got(rule.(domainKeyword := v.value), v.rest)
    case ITEM_SOURCE_IP_CIDR => var v := IpSet(s); if v.Failed? then Failed else Got(rule.(sourceIpCidr := v.value), v.rest)
    case ITEM_IP_CIDR => var v := IpSet(s); if v.Failed? then Failed else Got(rule.(ipCidr := v.value), v.rest)
    case ITEM_SOURCE_PORT => var v := U16s(s); if v.Failed? then Failed else Got(rule.(sourcePort := v.value), v.rest)
    case ITEM_SOURCE_PORT_RANGE => var v := Strings(s); if v.Failed? then Failed else Got(rule.(sourcePortRange := v.value), v.rest)
    case ITEM_PORT => var v := U16s(s); if v.Failed? then Failed else Got(rule.(port := v.value), v.rest)
    case ITEM_PORT_RANGE => var v := Strings(s); if v.Failed? then Failed else Got(rule.(portRange := v.value), v.rest)
    case _ => Failed
  }

  /** The items of a default rule up to and including the final one. */
  ghost function Items(s: seq<byte>, rule: DefaultRule): (r: Parsed<DefaultRule>)
    ensures r.Uses(s, 1)
    decreases |s|
  {
    var item := U8(s);
    if item.Failed? then Failed
    else if item.value == ITEM_FINAL then
      var invert := Bool(item.rest);
      if invert.Failed? then Failed else Got(rule.(invert := invert.value), invert.rest)
    else
      var next := ItemBody(item.value, rule, item.rest);
      if next.Failed? then Failed else Items(next.rest, next.value)
  }

  ghost function RuleAt(s: seq<byte>, depth: nat): (r: Parsed<Rule>)
    requires depth <= MAX_RECURSION
    ensures r.Uses(s, 1)
    decreases MAX_RECURSION - depth, 0, 0
  {
    if depth >= MAX_RECURSION then Failed
    else
      var kind := U8(s);
      if kind.Failed? then Failed
      else if kind.value == 0 then
        var rule := Items(kind.rest, NO_CONDITIONS);
        if rule.Failed? then Failed else Got(Default(rule.value), rule.rest)
      else if kind.value == 1 then LogicalAt(kind.rest, depth + 1)
      else Failed
  }

  ghost function LogicalAt(s: seq<byte>, depth: nat): (r: Parsed<Rule>)
    requires depth <= MAX_RECURSION
    ensures r.Uses(s, 1)
    decreases MAX_RECURSION - depth, 2, 0
  {
    var mode := U8(s);
    if mode.Failed? || mode.value > 1 then Failed
    else
      var n := Count(mode.rest);
      if n.Failed? then Failed
      else
        var rules := RulesAt(n.value, n.rest, depth);
        if rules.Failed? then Failed
        else
          var invert := Bool(rules.rest);
          if invert.Failed? then Failed
          else Got(Logical(if mode.value == 0 then And else Or, rules.value, invert.value), invert.rest)
  }

  ghost function RulesAt(n: nat, s: seq<byte>, depth: nat): (r: Parsed<seq<Rule>>)
    requires depth <= MAX_RECURSION
    ensures r.Uses(s, n)
    decreases MAX_RECURSION - depth, 1, n
  {
    if n == 0 then Got([], s)
    else
      var before := RulesAt(n - 1, s, depth);
      if before.Failed? then Failed
      else
        var last := RuleAt(before.rest, depth);
        if last.Failed? then Failed else Got(before.value + [last.value], last.rest)
  }

  /** The rules of a whole payload, with nothing behind them. */
  ghost function Payload(s: seq<byte>): Option<seq<Rule>> {
    var n := Count(s);
    if n.Failed? then None
    else
      var rules := RulesAt(n.value, n.rest, 0);
      if rules.Failed? || rules.rest != [] then None else Some(rules.value)
  }
}
