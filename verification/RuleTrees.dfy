/** Rule trees of supported items: what they mean, how they are written, and that decoding a written
    tree gives its meaning exactly when it is not nested too deeply. */
module RuleTrees {
  import opened Wrappers
  import opened Arithmetic
  import opened Bytes
  import opened AddressRanges
  import opened RuleSetFormat
  import opened RuleSetEncoding

  datatype Item =
    | Network(names: seq<string>)
    | Domain(leaves: seq<nat>, bitmap: seq<nat>, labels: seq<byte>)
    | DomainKeyword(words: seq<string>)
    | SourceIpCidr(ranges: seq<IpRange>)
    | IpCidr(ranges: seq<IpRange>)
    | SourcePort(ports: seq<nat>)
    | SourcePortRange(spans: seq<string>)
    | Port(ports: seq<nat>)
    | PortRange(spans: seq<string>)
  {
    ghost predicate Encodable() {
      match this
      case Network(v) => ShortTexts(v)
      case Domain(leaves, bitmap, labels) =>
        Words(leaves, 8) && Words(bitmap, 8) && |labels| <= MAX_COLLECTION_SIZE
        && MatcherMeaning(leaves, bitmap, labels).Some?
      case DomainKeyword(v) => ShortTexts(v)
      case SourceIpCidr(v) => ShortRanges(v)
      case IpCidr(v) => ShortRanges(v)
      case SourcePort(v) => Words(v, 2)
      case SourcePortRange(v) => ShortTexts(v)
      case Port(v) => Words(v, 2)
      case PortRange(v) => ShortTexts(v)
    }

    /** The rule with the item's condition in place of an earlier one of its kind. */
    ghost function Apply(rule: DefaultRule): DefaultRule
      requires Encodable()
    {
      match this
      case Network(v) => rule.(network := v)
      case Domain(leaves, bitmap, labels) => rule.(domains := MatcherMeaning(leaves, bitmap, labels).value)
      case DomainKeyword(v) => rule.(domainKeyword := v)
      case SourceIpCidr(v) => rule.(sourceIpCidr := BlocksOf(v))
      case IpCidr(v) => rule.(ipCidr := BlocksOf(v))
      case SourcePort(v) => rule.(sourcePort := v)
      case SourcePortRange(v) => rule.(sourcePortRange := v)
      case Port(v) => rule.(port := v)
      case PortRange(v) => rule.(portRange := v)
    }

    function Code(): (c: byte)
      ensures c != ITEM_FINAL
    {
      match this
      case Network(_) => ITEM_NETWORK
      case Domain(_, _, _) => ITEM_DOMAIN
      case DomainKeyword(_) => ITEM_DOMAIN_KEYWORD
      case SourceIpCidr(_) => ITEM_SOURCE_IP_CIDR
      case IpCidr(_) => ITEM_IP_CIDR
      case SourcePort(_) => ITEM_SOURCE_PORT
      case SourcePortRange(_) => ITEM_SOURCE_PORT_RANGE
      case Port(_) => ITEM_PORT
      case PortRange(_) => ITEM_PORT_RANGE
    }

    function Body(): seq<byte> {
      match this
      case Network(v) => ListBytes(v, TextBytes)
      case Domain(leaves, bitmap, labels) =>
        [0] + ListBytes(leaves, IntBytes(8)) + ListBytes(bitmap, IntBytes(8)) + StringBytes(labels)
      case DomainKeyword(v) => ListBytes(v, TextBytes)
      case SourceIpCidr(v) => IpSetBytes(v)
      case IpCidr(v) => IpSetBytes(v)
      case SourcePort(v) => ListBytes(v, IntBytes(2))
      case SourcePortRange(v) => ListBytes(v, TextBytes)
      case Port(v) => ListBytes(v, IntBytes(2))
      case PortRange(v) => ListBytes(v, TextBytes)
    }
  }

  datatype Tree = Leaf(items: seq<Item>, invert: bool) | Branch(mode: Mode, kids: seq<Tree>, invert: bool)

  ghost predicate Encodable(t: Tree)
    decreases t
  {
    match t
    case Leaf(items, _) => forall i | 0 <= i < |items| :: items[i].Encodable()
    case Branch(_, kids, _) => |kids| <= MAX_COLLECTION_SIZE && AllEncodable(kids)
  }

  ghost predicate AllEncodable(kids: seq<Tree>)
    decreases kids
  {
    forall i | 0 <= i < |kids| :: Encodable(kids[i])
  }

  /** How many rules are nested in one another along the deepest path. */
  function Levels(t: Tree): (n: nat)
    ensures n > 0
    decreases t
  {
    match t
    case Leaf(_, _) => 1
    case Branch(_, kids, _) => 1 + LevelsOf(kids)
  }

  function LevelsOf(kids: seq<Tree>): nat
    decreases kids
  {
    if kids == [] then 0
    else
      var before, last := LevelsOf(kids[..|kids| - 1]), Levels(kids[|kids| - 1]);
      if before > last then before else last
  }

  ghost function ApplyAll(items: seq<Item>, rule: DefaultRule): DefaultRule
    requires forall i | 0 <= i < |items| :: items[i].Encodable()
    decreases |items|
  {
    if items == [] then rule else ApplyAll(items[1..], items[0].Apply(rule))
  }

  ghost function RuleOf(t: Tree): Rule
    requires Encodable(t)
    decreases t
  {
    match t
    case Leaf(items, invert) => Default(ApplyAll(items, NO_CONDITIONS).(invert := invert))
    case Branch(mode, kids, invert) => Logical(mode, RulesOf(kids), invert)
  }

  ghost function RulesOf(kids: seq<Tree>): seq<Rule>
    requires AllEncodable(kids)
    decreases kids
  {
    if kids == [] then [] else RulesOf(kids[..|kids| - 1]) + [RuleOf(kids[|kids| - 1])]
  }

  function BoolByte(b: bool): byte {
    if b then 1 else 0
  }

  function ItemsBytes(items: seq<Item>): seq<byte> {
    if items == [] then [] else [items[0].Code()] + items[0].Body() + ItemsBytes(items[1..])
  }

  function TreeBytes(t: Tree): seq<byte>
    decreases t
  {
    match t
    case Leaf(items, invert) => [0] + ItemsBytes(items) + [ITEM_FINAL, BoolByte(invert)]
    case Branch(mode, kids, invert) =>
      [1, if mode.And? then 0 else 1] + Leb128(|kids|) + TreesBytes(kids) + [BoolByte(invert)]
  }

  function TreesBytes(kids: seq<Tree>): seq<byte>
    decreases kids
  {
    if kids == [] then [] else TreesBytes(kids[..|kids| - 1]) + TreeBytes(kids[|kids| - 1])
  }

  // ---- Reading back ----

  lemma MatcherBack(leaves: seq<nat>, bitmap: seq<nat>, labels: seq<byte>, rest: seq<byte>)
    requires Domain(leaves, bitmap, labels).Encodable()
    ensures DomainMatcher(Domain(leaves, bitmap, labels).Body() + rest)
         == Got(MatcherMeaning(leaves, bitmap, labels).value, rest)
  {
    hide ListBytes, StringBytes, IntBytes, Words, MatcherMeaning, Counted, ByteString;
    var a, b, c := ListBytes(leaves, IntBytes(8)), ListBytes(bitmap, IntBytes(8)), StringBytes(labels);
    var s := Domain(leaves, bitmap, labels).Body() + rest;
    assert s[1..] == a + (b + (c + rest));
    IntsBack(leaves, 8, b + (c + rest));
    IntsBack(bitmap, 8, c + rest);
    ByteStringBack(labels, rest);
  }

  lemma ItemBack(item: Item, rule: DefaultRule, rest: seq<byte>)
    requires item.Encodable()
    ensures ItemBody(item.Code(), rule, item.Body() + rest) == Got(item.Apply(rule), rest)
  {
    hide ListBytes, TextBytes, IntBytes, IpSetBytes, Strings, IpSet, DomainMatcher, Counted, BlocksOf, MatcherMeaning;
    match item
    case Network(v) => StringsBack(v, rest);
    case Domain(leaves, bitmap, labels) => MatcherBack(leaves, bitmap, labels, rest);
    case DomainKeyword(v) => StringsBack(v, rest);
    case SourceIpCidr(v) => IpSetBack(v, rest);
    case IpCidr(v) => IpSetBack(v, rest);
    case SourcePort(v) => IntsBack(v, 2, rest);
    case SourcePortRange(v) => StringsBack(v, rest);
    case Port(v) => IntsBack(v, 2, rest);
    case PortRange(v) => StringsBack(v, rest);
  }

  /** The octet in front of an item says which condition it is: the format's numbers. */
  lemma ItemNumbers(item: Item, rule: DefaultRule, rest: seq<byte>)
    requires item.Encodable()
    ensures var number := match item
                          case Network(_) => 1
                          case Domain(_, _, _) => 2
                          case DomainKeyword(_) => 3
                          case SourceIpCidr(_) => 5
                          case IpCidr(_) => 6
                          case SourcePort(_) => 7
                          case SourcePortRange(_) => 8
                          case Port(_) => 9
                          case PortRange(_) => 10;
            ItemBody(number, rule, item.Body() + rest) == Got(item.Apply(rule), rest)
  {
    hide ItemBody, Item.Body, Item.Apply, Item.Encodable;
    ItemBack(item, rule, rest);
  }

  /** An octet of ones ends a rule with its inversion; every other number is refused. */
  lemma OtherNumbers(number: byte, rule: DefaultRule, s: seq<byte>)
    requires number !in {1, 2, 3, 5, 6, 7, 8, 9, 10}
    ensures Items([number] + s, rule) ==
      if number == 0xFF && s != [] && s[0] <= 1 then Got(rule.(invert := s[0] == 1), s[1..]) else Failed
  {
    assert ([number] + s)[1..] == s;
  }

  lemma {:induction false} ItemsBack(items: seq<Item>, rule: DefaultRule, invert: bool, rest: seq<byte>)
    requires forall i | 0 <= i < |items| :: items[i].Encodable()
    ensures Items(ItemsBytes(items) + [ITEM_FINAL, BoolByte(invert)] + rest, rule)
         == Got(ApplyAll(items, rule).(invert := invert), rest)
    decreases |items|
  {
    hide Item.Body, Item.Code, Item.Apply, Item.Encodable, ItemBody;
    var final := [ITEM_FINAL, BoolByte(invert)] + rest;
    if items == [] {
      assert ItemsBytes(items) + [ITEM_FINAL, BoolByte(invert)] + rest == final;
      assert final[1..] == [BoolByte(invert)] + rest && final[1..][1..] == rest;
    } else {
      var item := items[0];
      var more := ItemsBytes(items[1..]) + [ITEM_FINAL, BoolByte(invert)] + rest;
      ItemsHead(items, invert, rest);
      ItemBack(item, rule, more);
      ItemsBack(items[1..], item.Apply(rule), invert, rest);
      hide ItemsBytes;
      assert ([item.Code()] + (item.Body() + more))[1..] == item.Body() + more;
    }
  }

  lemma ItemsHead(items: seq<Item>, invert: bool, rest: seq<byte>)
    requires items != []
    ensures ItemsBytes(items) + [ITEM_FINAL, BoolByte(invert)] + rest
         == [items[0].Code()] + (items[0].Body() + (ItemsBytes(items[1..]) + [ITEM_FINAL, BoolByte(invert)] + rest))
  {
    hide Item.Body, Item.Code;
  }

  /** A written tree reads back as its rule, with exactly the bytes behind it left, when it fits under
      the nesting limit; otherwise it is refused. */
  lemma {:induction false} TreeBack(t: Tree, depth: nat, rest: seq<byte>)
    requires Encodable(t) && depth <= MAX_RECURSION
    ensures RuleAt(TreeBytes(t) + rest, depth)
         == if depth + Levels(t) <= MAX_RECURSION then Got(RuleOf(t), rest) else Failed
    decreases t
  {
    hide Items, ItemsBytes, ApplyAll, LogicalAt, RulesAt, TreesBytes, RulesOf, LevelsOf;
    if depth < MAX_RECURSION {
      match t
      case Leaf(items, invert) =>
        ItemsBack(items, NO_CONDITIONS, invert, rest);
        LeafBytes(items, invert, rest);
      case Branch(mode, kids, invert) =>
        BranchBytes(mode, kids, invert, rest);
        TreesBack(kids, depth + 1, [BoolByte(invert)] + rest);
        LogicalBack(mode, kids, invert, depth + 1, rest);
    }
  }

  lemma LeafBytes(items: seq<Item>, invert: bool, rest: seq<byte>)
    ensures var s := TreeBytes(Leaf(items, invert)) + rest;
            s[0] == 0 && s[1..] == ItemsBytes(items) + [ITEM_FINAL, BoolByte(invert)] + rest
  {
    hide ItemsBytes;
  }

  lemma BranchBytes(mode: Mode, kids: seq<Tree>, invert: bool, rest: seq<byte>)
    ensures var s := TreeBytes(Branch(mode, kids, invert)) + rest;
            s[0] == 1 && s[1..] == [if mode.And? then 0 else 1] + (Leb128(|kids|) + (TreesBytes(kids) + ([BoolByte(invert)] + rest)))
  {
    hide Leb128, TreesBytes;
    var start, count, body, end := [1, if mode.And? then 0 else 1], Leb128(|kids|), TreesBytes(kids), [BoolByte(invert)];
    assert TreeBytes(Branch(mode, kids, invert)) == start + count + body + end;
    FiveParts(start, count, body, end, rest);
    hide TreeBytes;
    assert (start + (count + (body + (end + rest))))[1..] == start[1..] + (count + (body + (end + rest)));
    assert start[1..] == [if mode.And? then 0 else 1];
  }

  lemma FiveParts(a: seq<byte>, b: seq<byte>, c: seq<byte>, d: seq<byte>, e: seq<byte>)
    ensures a + b + c + d + e == a + (b + (c + (d + e)))
  {
  }

  lemma LogicalBack(mode: Mode, kids: seq<Tree>, invert: bool, depth: nat, rest: seq<byte>)
    requires depth <= MAX_RECURSION && |kids| <= MAX_COLLECTION_SIZE && AllEncodable(kids)
    requires RulesAt(|kids|, TreesBytes(kids) + ([BoolByte(invert)] + rest), depth)
          == if depth + LevelsOf(kids) <= MAX_RECURSION then Got(RulesOf(kids), [BoolByte(invert)] + rest) else Failed
    ensures LogicalAt([if mode.And? then 0 else 1] + (Leb128(|kids|) + (TreesBytes(kids) + ([BoolByte(invert)] + rest))), depth)
         == if depth + LevelsOf(kids) <= MAX_RECURSION then Got(Logical(mode, RulesOf(kids), invert), rest) else Failed
  {
    hide Leb128, Count, TreesBytes, RulesAt, RulesOf, LevelsOf;
    var body := TreesBytes(kids) + ([BoolByte(invert)] + rest);
    var s := [if mode.And? then 0 else 1] + (Leb128(|kids|) + body);
    assert s[1..] == Leb128(|kids|) + body;
    CountLeb128(|kids|, body);
    assert ([BoolByte(invert)] + rest)[1..] == rest;
  }

  lemma {:induction false} TreesBack(kids: seq<Tree>, depth: nat, rest: seq<byte>)
    requires AllEncodable(kids) && depth <= MAX_RECURSION
    ensures RulesAt(|kids|, TreesBytes(kids) + rest, depth)
         == if depth + LevelsOf(kids) <= MAX_RECURSION then Got(RulesOf(kids), rest) else Failed
    decreases kids
  {
    if kids == [] {
      assert TreesBytes(kids) + rest == rest;
    } else {
      var init, last := kids[..|kids| - 1], kids[|kids| - 1];
      assert TreesBytes(kids) + rest == TreesBytes(init) + (TreeBytes(last) + rest);
      TreesBack(init, depth, TreeBytes(last) + rest);
      TreeBack(last, depth, rest);
    }
  }

  /** The whole payload: decoding uses all of it and yields the same trees, up to the nesting limit. */
  lemma PayloadBack(trees: seq<Tree>)
    requires |trees| <= MAX_COLLECTION_SIZE && AllEncodable(trees)
    ensures Payload(Leb128(|trees|) + TreesBytes(trees))
         == if LevelsOf(trees) <= MAX_RECURSION then Some(RulesOf(trees)) else None
  {
    hide Leb128, Count, TreesBytes, RulesAt, RulesOf, LevelsOf;
    CountLeb128(|trees|, TreesBytes(trees));
    TreesBack(trees, 0, []);
    assert TreesBytes(trees) + [] == TreesBytes(trees);
  }

  // ---- What an IP set accepts ----

  datatype IpAddr = Addr4(value: nat) | Addr6(value: nat) {
    predicate Valid() {
      value < Pow2(if Addr4? then 32 else 128)
    }
  }

  /** `IpCidr::contains`: only addresses of the block's own family can lie in it. */
  predicate BlockContains(b: IpBlock, a: IpAddr) {
    match (b, a)
    case (V4(c), Addr4(x)) => Contains(32, c, x)
    case (V6(c), Addr6(x)) => Contains(128, c, x)
    case _ => false
  }

  predicate InRange(r: IpRange, a: IpAddr) {
    (r.Range4? <==> a.Addr4?) && r.from <= a.value <= r.to
  }

  lemma RangeAccepts(r: IpRange, a: IpAddr)
    requires r.Valid() && a.Valid()
    ensures (exists b <- r.Blocks() :: BlockContains(b, a)) <==> InRange(r, a)
  {
    hide Split, Contains, Pow2;
    var cidrs, blocks := Split(r.Width(), r.from, r.to), r.Blocks();
    if r.Range4? == a.Addr4? {
      RangeMeaning(r.Width(), r.from, r.to, a.value);
      if InRange(r, a) {
        var c :| c in cidrs && Contains(r.Width(), c, a.value);
        var i :| 0 <= i < |cidrs| && cidrs[i] == c;
        assert blocks[i] in blocks && BlockContains(blocks[i], a);
      }
      if b :| b in blocks && BlockContains(b, a) {
        var i :| 0 <= i < |blocks| && blocks[i] == b;
        assert cidrs[i] in cidrs && Contains(r.Width(), cidrs[i], a.value);
      }
    }
  }

  /** Through decoding, splitting and matching: an address is in the set exactly when one of the
      encoded ranges of its family holds it. */
  lemma {:induction false} IpSetAccepts(ranges: seq<IpRange>, a: IpAddr)
    requires RangesOk(ranges) && a.Valid()
    ensures (exists b <- BlocksOf(ranges) :: BlockContains(b, a)) <==> (exists r <- ranges :: InRange(r, a))
  {
    if ranges != [] {
      var init, last := ranges[..|ranges| - 1], ranges[|ranges| - 1];
      IpSetAccepts(init, a);
      RangeAccepts(last, a);
      assert ranges == init + [last];
    }
  }
}
