/** The cursor over a decompressed rule-set, method by method as the source has it. */
module RuleSetReader {
  import opened Wrappers
  import opened Arithmetic
  import opened Bytes
  import opened AddressRanges
  import opened RuleSetFormat
  import DomainKeys
  import TrieEncoding
  import Utf8

  /** A reading method does what the format says: the value and the place behind it, or nothing. */
  predicate Agrees<T(==)>(p: Parsed<T>, r: Option<T>, rest: seq<byte>) {
    if p.Got? then r == Some(p.value) && rest == p.rest else r.None?
  }

  /** A failure among the first values is a failure of the list. */
  lemma {:induction false} ManyFails<T>(k: nat, n: nat, s: seq<byte>, item: seq<byte> -> Parsed<T>)
    requires k <= n && Many(k, s, item).Failed?
    ensures Many(n, s, item).Failed?
    decreases n - k
  {
    if k < n {
      ManyFails(k + 1, n, s, item);
    }
  }

  lemma {:induction false} RulesFail(k: nat, n: nat, s: seq<byte>, depth: nat)
    requires k <= n && depth <= MAX_RECURSION && RulesAt(k, s, depth).Failed?
    ensures RulesAt(n, s, depth).Failed?
    decreases n - k
  {
    if k < n {
      RulesFail(k + 1, n, s, depth);
    }
  }

  method RangeBlocks(range: IpRange) returns (blocks: seq<IpBlock>)
    requires range.Valid()
    ensures blocks == range.Blocks()
  {
    var cidrs := AppendRange(range.Width(), [], range.from, range.to);
    assert [] + Split(range.Width(), range.from, range.to) == Split(range.Width(), range.from, range.to);
    hide Split;
    if range.Range4? {
      blocks := seq(|cidrs|, i requires 0 <= i < |cidrs| => V4(cidrs[i]));
    } else {
      blocks := seq(|cidrs|, i requires 0 <= i < |cidrs| => V6(cidrs[i]));
    }
  }

  lemma BlocksNone()
    ensures RangesOk([]) && BlocksOf([]) == []
  {
  }

  class BinaryReader {
    const input: seq<byte>
    var position: nat

    constructor (input: seq<byte>)
      ensures Valid() && this.input == input && Rest() == input
    {
      this.input, position := input, 0;
    }

    predicate Valid()
      reads this
    {
      position <= |input|
    }

    function Rest(): seq<byte>
      requires Valid()
      reads this
    {
      input[position..]
    }

    method ReadU8() returns (r: Option<byte>)
      requires Valid()
      modifies this
      ensures Valid() && Agrees(U8(old(Rest())), r, Rest())
    {
      if position == |input| {
        return None;
      }
      r := Some(input[position]);
      position := position + 1;
    }

    method ReadExact(n: nat) returns (r: Option<seq<byte>>)
      requires Valid()
      modifies this
      ensures Valid() && Agrees(Exactly(n, old(Rest())), r, Rest())
    {
      if |input| - position < n {
        return None;
      }
      r := Some(input[position..position + n]);
      position := position + n;
      assert old(Rest())[..n] == r.value && old(Rest())[n..] == Rest();
    }

    method ReadBool() returns (r: Option<bool>)
      requires Valid()
      modifies this
      ensures Valid() && Agrees(Bool(old(Rest())), r, Rest())
    {
      var b := ReadU8();
      if b.None? || b.value > 1 {
        return None;
      }
      return Some(b.value == 1);
    }

    method ReadBeInt(n: nat) returns (r: Option<nat>)
      requires Valid()
      modifies this
      ensures Valid() && Agrees(BeInt(n, old(Rest())), r, Rest())
    {
      var bytes := ReadExact(n);
      if bytes.None? {
        return None;
      }
      return Some(FromBe(bytes.value));
    }

    method ReadUvarint() returns (r: Option<nat>)
      requires Valid()
      modifies this
      ensures Valid() && Agrees(Uvarint(old(Rest())), r, Rest())
    {
      hide UvarintFrom, Group;
      var value: nat := 0;
      for i := 0 to 10
        invariant Valid()
        invariant Uvarint(old(Rest())) == UvarintFrom(Rest(), i, value)
      {
        UvarintStep(Rest(), i, value);
        var b := ReadU8();
        if b.None? || (i == 9 && b.value > 1) {
          return None;
        }
        value := value + Group(b.value, i);
        if b.value < 128 {
          return Some(value);
        }
      }
      UvarintStep(Rest(), 10, value);
      return None;
    }

    method ReadCount() returns (r: Option<nat>)
      requires Valid()
      modifies this
      ensures Valid() && Agrees(Count(old(Rest())), r, Rest())
    {
      hide UvarintFrom;
      r := ReadUvarint();
      if r.Some? && r.value > MAX_COLLECTION_SIZE {
        return None;
      }
    }

    method ReadBytes() returns (r: Option<seq<byte>>)
      requires Valid()
      modifies this
      ensures Valid() && Agrees(ByteString(old(Rest())), r, Rest())
    {
      hide Count;
      var length := ReadCount();
      if length.None? {
        return None;
      }
      r := ReadExact(length.value);
    }

    method ReadText() returns (r: Option<string>)
      requires Valid()
      modifies this
      ensures Valid() && Agrees(Text(old(Rest())), r, Rest())
    {
      hide ByteString;
      var bytes := ReadBytes();
      if bytes.None? {
        return None;
      }
      return Utf8.Decode(bytes.value);
    }

    method ReadStrings() returns (r: Option<seq<string>>)
      requires Valid()
      modifies this
      ensures Valid() && Agrees(Strings(old(Rest())), r, Rest())
    {
      hide Count, Text;
      var count := ReadCount();
      if count.None? {
        return None;
      }
      ghost var start := Rest();
      var values: seq<string> := [];
      for i := 0 to count.value
        invariant Valid() && Many(i, start, Text) == Got(values, Rest())
      {
        var value := ReadText();
        if value.None? {
          ManyFails(i + 1, count.value, start, Text);
          return None;
        }
        values := values + [value.value];
      }
      return Some(values);
    }

    /** `read_u16s` and `read_u64s`: a list of big-endian integers of `width` bytes. */
    method ReadInts(width: nat) returns (r: Option<seq<nat>>)
      requires Valid()
      modifies this
      ensures Valid() && Agrees(Counted(old(Rest()), x => BeInt(width, x)), r, Rest())
    {
      hide Count, BeInt;
      var count := ReadCount();
      if count.None? {
        return None;
      }
      ghost var start := Rest();
      ghost var item := (x: seq<byte>) => BeInt(width, x);
      var values: seq<nat> := [];
      for i := 0 to count.value
        invariant Valid() && Many(i, start, item) == Got(values, Rest())
      {
        var value := ReadBeInt(width);
        if value.None? {
          ManyFails(i + 1, count.value, start, item);
          return None;
        }
        values := values + [value.value];
      }
      return Some(values);
    }

    /** One range of an IP set, split into blocks right away. */
    method ReadRange(cidrs: seq<IpBlock>) returns (r: Option<seq<IpBlock>>)
      requires Valid()
      modifies this
      ensures Valid()
      ensures var range := Range(old(Rest()));
              Agrees(if range.Got? then Got(cidrs + range.value.Blocks(), range.rest) else Failed, r, Rest())
    {
      hide ByteString, IpRange.Blocks, Pow2, FromBe;
      var from := ReadBytes();
      if from.None? {
        return None;
      }
      var to := ReadBytes();
      if to.None? {
        return None;
      }
      AddressWidth(to.value);
      var a, b := FromBe(from.value), FromBe(to.value);
      var range: IpRange;
      if |from.value| == 4 && |to.value| == 4 {
        range := Range4(a, b);
      } else if |from.value| == 16 && |to.value| == 16 {
        range := Range6(a, b);
      } else {
        return None;
      }
      if a > b {
        return None;
      }
      var more := RangeBlocks(range);
      return Some(cidrs + more);
    }

    method ReadIpSet() returns (r: Option<seq<IpBlock>>)
      requires Valid()
      modifies this
      ensures Valid() && Agrees(IpSet(old(Rest())), r, Rest())
    {
      hide Range, BeInt, BlocksOf, RangesOk, IpRange.Blocks, IpRange.Valid;
      BlocksNone();
      var version := ReadU8();
      if version.None? || version.value != 1 {
        return None;
      }
      var count := ReadBeInt(8);
      if count.None? || count.value > MAX_COLLECTION_SIZE {
        return None;
      }
      ghost var start := Rest();
      ghost var ranges: seq<IpRange> := [];
      var cidrs: seq<IpBlock> := [];
      for i := 0 to count.value
        invariant Valid() && Many(i, start, Range) == Got(ranges, Rest())
        invariant RangesOk(ranges) && cidrs == BlocksOf(ranges)
      {
        ghost var range := Range(Rest());
        var next := ReadRange(cidrs);
        if next.None? {
          ManyFails(i + 1, count.value, start, Range);
          return None;
        }
        cidrs := next.value;
        BlocksSnoc(ranges, range.value);
        ranges := ranges + [range.value];
      }
      return Some(cidrs);
    }

    method ReadDomainMatcher() returns (r: Option<Domains>)
      requires Valid()
      modifies this
      ensures Valid() && Agrees(DomainMatcher(old(Rest())), r, Rest())
    {
      hide Counted, ByteString, TrieEncoding.Accepted, TrieEncoding.DecodedKeys, DomainKeys.Sorted;
      var version := ReadU8();
      if version.None? || version.value != 0 {
        return None;
      }
      var leaves := ReadInts(8);
      if leaves.None? {
        return None;
      }
      var bitmap := ReadInts(8);
      if bitmap.None? {
        return None;
      }
      var labels := ReadBytes();
      if labels.None? {
        return None;
      }
      var keys := TrieEncoding.DecodeTrie(leaves.value, bitmap.value, labels.value);
      if keys.Err? {
        return None;
      }
      var lists := DomainKeys.DumpDomainKeys(keys.value);
      if lists.Err? {
        return None;
      }
      return Some(Domains(lists.value.0, lists.value.1));
    }

    /** The body of one supported item. */
    method ReadItem(item: byte, rule: DefaultRule) returns (r: Option<DefaultRule>)
      requires Valid()
      modifies this
      ensures Valid() && Agrees(ItemBody(item, rule, old(Rest())), r, Rest())
    {
      hide Counted, IpSet, DomainMatcher, Text;
      r := None;
      match item {
        case 1 =>
          var v := ReadStrings();
          if v.Some? { r := Some(rule.(network := v.value)); }
        case 2 =>
          var v := ReadDomainMatcher();
          if v.Some? { r := Some(rule.(domains := v.value)); }
        case 3 =>
          var v := ReadStrings();
          if v.Some? { r := Some(rule.(domainKeyword := v.value)); }
        case 5 =>
          var v := ReadIpSet();
          if v.Some? { r := Some(rule.(sourceIpCidr := v.value)); }
        case 6 =>
          var v := ReadIpSet();
          if v.Some? { r := Some(rule.(ipCidr := v.value)); }
        case 7 =>
          var v := ReadInts(2);
          if v.Some? { r := Some(rule.(sourcePort := v.value)); }
        case 8 =>
          var v := ReadStrings();
          if v.Some? { r := Some(rule.(sourcePortRange := v.value)); }
        case 9 =>
          var v := ReadInts(2);
          if v.Some? { r := Some(rule.(port := v.value)); }
        case 10 =>
          var v := ReadStrings();
          if v.Some? { r := Some(rule.(portRange := v.value)); }
        case _ =>
      }
    }

    method ReadDefaultRule() returns (r: Option<DefaultRule>)
      requires Valid()
      modifies this
      ensures Valid() && Agrees(Items(old(Rest()), NO_CONDITIONS), r, Rest())
    {
      hide ItemBody;
      var rule := NO_CONDITIONS;
      while true
        invariant Valid() && Items(old(Rest()), NO_CONDITIONS) == Items(Rest(), rule)
        decreases |input| - position
      {
        ghost var start := Rest();
        var item := ReadU8();
        if item.None? {
          return None;
        }
        if item.value == ITEM_FINAL {
          var invert := ReadBool();
          if invert.None? {
            return None;
          }
          return Some(rule.(invert := invert.value));
        }
        ghost var body := ItemBody(item.value, rule, Rest());
        var next := ReadItem(item.value, rule);
        if next.None? {
          return None;
        }
        assert |Rest()| < |start|;
        rule := next.value;
      }
    }

    method ReadRule(depth: nat) returns (r: Option<Rule>)
      requires Valid() && depth <= MAX_RECURSION
      modifies this
      ensures Valid() && Agrees(RuleAt(old(Rest()), depth), r, Rest())
      decreases MAX_RECURSION - depth, 0
    {
      hide Items, LogicalAt;
      if depth >= MAX_RECURSION {
        return None;
      }
      var kind := ReadU8();
      if kind.None? {
        return None;
      }
      match kind.value {
        case 0 =>
          var rule := ReadDefaultRule();
          if rule.None? {
            return None;
          }
          return Some(Default(rule.value));
        case 1 =>
          r := ReadLogicalRule(depth + 1);
        case _ =>
          return None;
      }
    }

    method ReadLogicalRule(depth: nat) returns (r: Option<Rule>)
      requires Valid() && depth <= MAX_RECURSION
      modifies this
      ensures Valid() && Agrees(LogicalAt(old(Rest()), depth), r, Rest())
      decreases MAX_RECURSION - depth, 2
    {
      hide RuleAt, Count;
      var mode := ReadU8();
      if mode.None? || mode.value > 1 {
        return None;
      }
      var count := ReadCount();
      if count.None? {
        return None;
      }
      var rules := ReadRules(count.value, depth);
      if rules.None? {
        return None;
      }
      var invert := ReadBool();
      if invert.None? {
        return None;
      }
      return Some(Logical(if mode.value == 0 then And else Or, rules.value, invert.value));
    }

    /** The rules of a payload; anything behind them is an error. */
    method ReadAll(count: nat) returns (r: Option<seq<Rule>>)
      requires Valid()
      modifies this
      ensures var rules := RulesAt(count, old(Rest()), 0);
              if rules.Failed? || rules.rest != [] then r == None else r == Some(rules.value)
    {
      hide RulesAt;
      r := ReadRules(count, 0);
      if r.Some? && Rest() != [] {
        r := None;
      }
    }

    method ReadRules(count: nat, depth: nat) returns (r: Option<seq<Rule>>)
      requires Valid() && depth <= MAX_RECURSION
      modifies this
      ensures Valid() && Agrees(RulesAt(count, old(Rest()), depth), r, Rest())
      decreases MAX_RECURSION - depth, 1
    {
      hide RuleAt;
      ghost var start := Rest();
      var rules: seq<Rule> := [];
      for i := 0 to count
        invariant Valid() && RulesAt(i, start, depth) == Got(rules, Rest())
      {
        var rule := ReadRule(depth);
        if rule.None? {
          RulesFail(i + 1, count, start, depth);
          return None;
        }
        rules := rules + [rule.value];
      }
      return Some(rules);
    }
  }

  /** `decode` from the decompressed payload on. */
  method Decode(payload: seq<byte>) returns (r: Option<seq<Rule>>)
    ensures r == Payload(payload)
  {
    hide Count, RulesAt;
    var reader := new BinaryReader(payload);
    r := None;
    var count := reader.ReadCount();
    if count.Some? {
      r := reader.ReadAll(count.value);
    }
  }
}
