/**
 Domain rules as they are written, told character by character, and what becomes of them: the keys
 they have in a matcher, the sets the decoder sorts those into, and the router's lists.
 */
module DomainRules {
  import opened Wrappers
  import opened Bytes
  import opened DomainKeys
  import Utf8
  import DomainTrie
  import TrieEncoding
  import RuleSetFormat

  // ---- Hosts ----

  const CAPITALS: string := "ABCDEFGHIJKLMNOPQRSTUVWXYZ"
  const SMALL: string := "abcdefghijklmnopqrstuvwxyz"

  /** The same character, or the two cases of one ASCII letter. */
  ghost predicate SameLetter(c: char, d: char) {
    c == d || exists i | 0 <= i < 26 :: (c, d) == (CAPITALS[i], SMALL[i]) || (c, d) == (SMALL[i], CAPITALS[i])
  }

  ghost predicate SameText(a: string, b: string) {
    |a| == |b| && forall i | 0 <= i < |a| :: SameLetter(a[i], b[i])
  }

  ghost predicate EndsLike(host: string, tail: string) {
    |tail| <= |host| && SameText(host[|host| - |tail|..], tail)
  }

  /** A whole host, every host that ends with the name, or the name's domain with all below it. */
  datatype DomainRule = Whole(name: string) | Ending(name: string) | Suffix(name: string) {
    ghost predicate Accepts(host: string) {
      match this
      case Whole(name) => SameText(host, name)
      case Ending(name) => EndsLike(host, name)
      case Suffix(name) =>
        if name != "" && name[0] == '.' then EndsLike(host, name)
        else SameText(host, name) || EndsLike(host, "." + name)
    }

    /** A whole host must not begin with one of the two markers. */
    predicate Valid() {
      Whole? && name != "" ==> name[0] != '\r' && name[0] != '\n'
    }

    function Marker(): string {
      match this
      case Whole(_) => ""
      case Ending(_) => "\r"
      case Suffix(_) => "\n"
    }

    /** The rule's key in a matcher: the name back to front, then the marker. */
    function Key(): seq<byte> {
      Utf8.Encode(seq(|name|, i requires 0 <= i < |name| => name[|name| - 1 - i]) + Marker())
    }
  }

  lemma Alphabet(i: nat)
    requires i < 26
    ensures CAPITALS[i] as int == 'A' as int + i && SMALL[i] as int == 'a' as int + i
  {
  }

  lemma LowerCase(c: char, d: char)
    ensures SameLetter(c, d) <==> LowerChar(c) == LowerChar(d)
  {
    if i :| 0 <= i < 26 && ((c, d) == (CAPITALS[i], SMALL[i]) || (c, d) == (SMALL[i], CAPITALS[i])) {
      Alphabet(i);
    }
    if LowerChar(c) == LowerChar(d) && c != d {
      var i := LowerChar(c) as int - 'a' as int;
      Alphabet(i);
    }
  }

  lemma LowerText(a: string, b: string)
    ensures SameText(a, b) <==> Lower(a) == Lower(b)
  {
    forall i | 0 <= i < |a| && i < |b| ensures SameLetter(a[i], b[i]) <==> Lower(a)[i] == Lower(b)[i] {
      LowerCase(a[i], b[i]);
    }
    if Lower(a) == Lower(b) {
      assert |Lower(a)| == |Lower(b)|;
    }
  }

  /** The router's comparisons, and the decoder's, are those of the rules. */
  lemma RuleComparisons(name: string, host: string)
    ensures Whole(name).Accepts(host) <==> Lower(name) == Lower(host)
    ensures Ending(name).Accepts(host) <==> EndsWith(Lower(host), Lower(name))
    ensures Suffix(name).Accepts(host) <==> SuffixAccepts(Lower(name), Lower(host))
  {
    hide SameText, EndsLike, EndsWith, Lower;
    LowerText(host, name);
    EndingText(name, host);
    EndingText("." + name, host);
    LowerFirst(name);
  }

  lemma LowerFirst(name: string)
    ensures Lower("." + name) == "." + Lower(name)
    ensures |Lower(name)| == |name|
    ensures name != "" ==> (Lower(name)[0] == '.' <==> name[0] == '.')
  {
    assert Lower("." + name)[1..] == Lower(name);
  }

  lemma EndingText(name: string, host: string)
    ensures EndsLike(host, name) <==> EndsWith(Lower(host), Lower(name))
  {
    if |name| <= |host| {
      var tail := host[|host| - |name|..];
      LowerText(tail, name);
      assert Lower(host)[|host| - |name|..] == Lower(tail);
    }
  }

  /** The router's two lists are whole hosts and domain suffixes. */
  lemma RouterRules(exact: set<string>, suffix: set<string>, host: string)
    ensures RouterAccepts(exact, suffix, host) <==>
      (exists v <- exact :: Whole(v).Accepts(host)) || (exists v <- suffix :: Suffix(v).Accepts(host))
  {
    hide SuffixAccepts, Lower, DomainRule.Accepts;
    forall v: string
      ensures Whole(v).Accepts(host) <==> Lower(v) == Lower(host)
      ensures Suffix(v).Accepts(host) <==> SuffixAccepts(Lower(v), Lower(host))
    {
      RuleComparisons(v, host);
    }
  }

  // ---- Keys ----

  /** The rule is in the set of its kind. */
  predicate Has(k: KeySets, rule: DomainRule) {
    match rule
    case Whole(name) => name in k.exact
    case Ending(name) => name in k.prefix
    case Suffix(name) => name in k.suffix
  }

  lemma ReadBackwards(rule: DomainRule, key: seq<byte>)
    requires Utf8.Decode(key).Some?
    ensures key == rule.Key() <==> Reverse(Utf8.Decode(key).value) == rule.Marker() + rule.name
  {
    hide Utf8.Decode, Utf8.Encode;
    var text := Utf8.Decode(key).value;
    var backwards := seq(|rule.name|, i requires 0 <= i < |rule.name| => rule.name[|rule.name| - 1 - i]) + rule.Marker();
    Utf8.DecodeEncode(backwards);
    Utf8.EncodeDecode(key);
    assert Reverse(backwards) == rule.Marker() + rule.name;
    if Reverse(text) == rule.Marker() + rule.name {
      assert |text| == |backwards| && forall i | 0 <= i < |text| :: text[i] == Reverse(text)[|text| - 1 - i];
      assert text == backwards;
    }
  }

  /** A key read back to front puts the rule it stands for into the set of its kind, and nothing else. */
  lemma AddOne(k: KeySets, reversed: string, rule: DomainRule)
    requires rule.Valid()
    ensures Has(k.Add(reversed), rule) <==> Has(k, rule) || reversed == rule.Marker() + rule.name
  {
    match rule
    case Whole(name) =>
      assert rule.Marker() + name == name;
    case Ending(name) =>
      assert reversed != "" ==> reversed == [reversed[0]] + reversed[1..];
      assert ("\r" + name)[1..] == name;
    case Suffix(name) =>
      assert reversed != "" ==> reversed == [reversed[0]] + reversed[1..];
      assert ("\n" + name)[1..] == name;
  }

  /** The decoder accepts a list of keys when all of them are text. */
  lemma {:induction false} SortedText(keys: seq<seq<byte>>)
    ensures Sorted(keys).Some? <==> forall i | 0 <= i < |keys| :: Utf8.Valid(keys[i])
  {
    hide Utf8.Decode, KeySets.Add, Reverse;
    if keys != [] {
      var init := keys[..|keys| - 1];
      SortedText(init);
      assert forall i | 0 <= i < |init| :: keys[i] == init[i];
      assert Sorted(keys).Some? <==> Sorted(init).Some? && Utf8.Valid(keys[|keys| - 1]);
    }
  }

  /** Accepted keys are sorted into the rules whose keys they are. */
  lemma {:induction false} SortedRules(keys: seq<seq<byte>>, rule: DomainRule)
    requires rule.Valid() && Sorted(keys).Some?
    ensures Has(Sorted(keys).value, rule) <==> rule.Key() in keys
  {
    hide Utf8.Decode, DomainRule.Key, KeySets.Add, Reverse;
    if keys != [] {
      var init, last := keys[..|keys| - 1], keys[|keys| - 1];
      SortedRules(init, rule);
      assert keys == init + [last];
      assert forall key :: key in keys <==> key in init || key == last;
      ReadBackwards(rule, last);
      AddOne(Sorted(init).value, Reverse(Utf8.Decode(last).value), rule);
    }
  }

  /** None of the whole hosts begins with a marker. */
  lemma {:induction false} SortedValid(keys: seq<seq<byte>>, name: string)
    requires Sorted(keys).Some? && name in Sorted(keys).value.exact
    ensures Whole(name).Valid()
  {
    hide Utf8.Decode, Reverse;
    if keys != [] && name in Sorted(keys[..|keys| - 1]).value.exact {
      SortedValid(keys[..|keys| - 1], name);
    }
  }

  /** Sorted keys accept the hosts that one of the rules accepts whose keys they are. */
  lemma SortedMeaning(keys: seq<seq<byte>>, host: string)
    requires Sorted(keys).Some?
    ensures Sorted(keys).value.Accepts(host) <==>
      exists rule: DomainRule :: rule.Valid() && rule.Key() in keys && rule.Accepts(host)
  {
    hide SuffixAccepts, EndsWith, Lower, DomainRule.Accepts, DomainRule.Key, Sorted;
    var k := Sorted(keys).value;
    forall rule: DomainRule | rule.Valid() ensures Has(k, rule) <==> rule.Key() in keys {
      SortedRules(keys, rule);
    }
    forall name: string
      ensures Whole(name).Accepts(host) <==> Lower(name) == Lower(host)
      ensures Ending(name).Accepts(host) <==> EndsWith(Lower(host), Lower(name))
      ensures Suffix(name).Accepts(host) <==> SuffixAccepts(Lower(name), Lower(host))
      ensures name in k.exact ==> Whole(name).Valid()
    {
      RuleComparisons(name, host);
      if name in k.exact {
        SortedValid(keys, name);
      }
    }
    if k.Accepts(host) {
      var rule := AcceptedBy(k, host);
    }
  }

  lemma AcceptedBy(k: KeySets, host: string) returns (rule: DomainRule)
    requires k.Accepts(host)
    ensures Has(k, rule) && rule.Accepts(host)
  {
    hide SuffixAccepts, EndsWith, Lower, DomainRule.Accepts;
    if v :| v in k.exact && Lower(v) == Lower(host) {
      rule := Whole(v);
    } else if v :| v in k.prefix && EndsWith(Lower(host), Lower(v)) {
      rule := Ending(v);
    } else {
      var v :| v in k.suffix && SuffixAccepts(Lower(v), Lower(host));
      rule := Suffix(v);
    }
    RuleComparisons(rule.name, host);
  }

  /** The key of a rule, alone in a matcher, accepts the hosts the rule accepts: the name itself up to
      case, the hosts that end with it, or the name's domain. */
  lemma KeyMeaning(rule: DomainRule, host: string)
    requires rule.Valid()
    ensures Sorted([rule.Key()]).Some?
    ensures Sorted([rule.Key()]).value.Accepts(host) <==> rule.Accepts(host)
  {
    KeysMeaning([rule.Key()], {rule}, host);
  }

  /** A list that holds the key of each of the rules, and no other, in any order and number, accepts the
      hosts that one of the rules accepts. */
  lemma KeysMeaning(keys: seq<seq<byte>>, rules: set<DomainRule>, host: string)
    requires forall key :: key in keys <==> exists rule <- rules :: rule.Key() == key
    requires forall rule <- rules :: rule.Valid()
    ensures Sorted(keys).Some?
    ensures Sorted(keys).value.Accepts(host) <==> exists rule <- rules :: rule.Accepts(host)
  {
    hide DomainRule.Key, DomainRule.Accepts, KeySets.Accepts, Sorted, Utf8.Valid;
    forall i | 0 <= i < |keys| ensures Utf8.Valid(keys[i]) {
      assert keys[i] in keys;
      var rule :| rule in rules && rule.Key() == keys[i];
      KeyText(rule);
    }
    SortedText(keys);
    SortedMeaning(keys, host);
    if rule: DomainRule :| rule.Valid() && rule.Key() in keys && rule.Accepts(host) {
      var other :| other in rules && other.Key() == rule.Key();
      SameKey(rule, other);
    }
  }

  lemma KeyText(rule: DomainRule)
    ensures Utf8.Valid(rule.Key())
  {
    Utf8.DecodeEncode(seq(|rule.name|, i requires 0 <= i < |rule.name| => rule.name[|rule.name| - 1 - i]) + rule.Marker());
  }

  /** No two rules have the same key. */
  lemma SameKey(a: DomainRule, b: DomainRule)
    requires a.Valid() && b.Valid() && a.Key() == b.Key()
    ensures a == b
  {
    hide DomainRule.Key, Utf8.Decode, Reverse;
    KeyText(a);
    ReadBackwards(a, a.Key());
    ReadBackwards(b, a.Key());
    var s, t := a.Marker() + a.name, b.Marker() + b.name;
    assert s == t;
    assert a.Marker() != "" ==> s[0] == a.Marker()[0] && s[1..] == a.name;
    assert b.Marker() != "" ==> t[0] == b.Marker()[0] && t[1..] == b.name;
    assert a.Marker() == "" ==> s == a.name;
    assert b.Marker() == "" ==> t == b.name;
  }

  // ---- From the rules to the payload and back ----

  /** The three arrays that encode the trie of the rules' keys. */
  ghost function Encoded(rules: set<DomainRule>): (seq<nat>, seq<nat>, seq<byte>)
    requires forall rule <- rules :: |rule.Key()| <= DomainTrie.MAX_KEY_LENGTH
  {
    var keys := set rule | rule in rules :: rule.Key();
    var nodes := TrieEncoding.LevelOrder([TrieEncoding.BuildTrie(keys, DomainTrie.MAX_KEY_LENGTH)]);
    (TrieEncoding.Pack(TrieEncoding.LeafBits(nodes)), TrieEncoding.Pack(TrieEncoding.BitsOf(nodes)), TrieEncoding.LabelsOf(nodes))
  }

  /** What the decoder makes of the arrays accepts the hosts that one of the rules accepts, and holds
      exactly these rules. */
  lemma DecodedRules(rules: set<DomainRule>)
    requires forall rule <- rules :: rule.Valid() && |rule.Key()| <= DomainTrie.MAX_KEY_LENGTH
    ensures var (leaves, bitmap, labels) := Encoded(rules);
            && TrieEncoding.Accepted(leaves, bitmap, labels)
            && var k := Sorted(TrieEncoding.DecodedKeys(leaves, bitmap, labels));
            && k.Some?
            && (forall host :: k.value.Accepts(host) <==> exists rule <- rules :: rule.Accepts(host))
            && (forall rule: DomainRule :: rule.Valid() ==> (Has(k.value, rule) <==> rule in rules))
  {
    var (leaves, bitmap, labels) := Encoded(rules);
    TrieEncoding.DecodeEncodedSet(set rule | rule in rules :: rule.Key());
    hide Encoded, TrieEncoding.DecodedKeys, TrieEncoding.Accepted, Sorted, DomainRule.Key, DomainRule.Valid, DomainRule.Accepts, KeySets.Accepts, Has;
    var keys := TrieEncoding.DecodedKeys(leaves, bitmap, labels);
    forall host ensures Sorted(keys).Some? && (Sorted(keys).value.Accepts(host) <==> exists rule <- rules :: rule.Accepts(host)) {
      KeysMeaning(keys, rules, host);
    }
    KeysMeaning(keys, rules, "");
    forall rule: DomainRule | rule.Valid() ensures Has(Sorted(keys).value, rule) <==> rule in rules {
      SortedRules(keys, rule);
      if rule.Key() in keys {
        var other :| other in rules && other.Key() == rule.Key();
        SameKey(rule, other);
      }
    }
  }

  /** The router's lists take the hosts of the rules, when no plain ending lacks its dot and no whole
      host begins with one. */
  lemma DecodedLists(rules: set<DomainRule>, host: string)
    requires forall rule <- rules :: rule.Valid() && |rule.Key()| <= DomainTrie.MAX_KEY_LENGTH
    requires forall rule <- rules :: !rule.Suffix? ==> (Dotted(rule.name) <==> rule.Ending?)
    ensures var (leaves, bitmap, labels) := Encoded(rules);
            && RuleSetFormat.MatcherMeaning(leaves, bitmap, labels).Some?
            && var lists := RuleSetFormat.MatcherMeaning(leaves, bitmap, labels).value;
            RouterAccepts(lists.exact, lists.suffix, host) <==> exists rule <- rules :: rule.Accepts(host)
  {
    var (leaves, bitmap, labels) := Encoded(rules);
    DecodedRules(rules);
    hide Encoded, TrieEncoding.DecodedKeys, TrieEncoding.Accepted, Sorted, DomainRule.Key, DomainRule.Accepts, KeySets.Accepts;
    hide RouterAccepts, MergedExact, MergedSuffix;
    var k := Sorted(TrieEncoding.DecodedKeys(leaves, bitmap, labels)).value;
    forall v | v in k.prefix ensures Dotted(v) {
      assert Has(k, Ending(v));
    }
    forall r: string ensures !DoubleDotted(k, r) {
      if r in k.exact {
        SortedValid(TrieEncoding.DecodedKeys(leaves, bitmap, labels), r);
        assert Has(k, Whole(r));
      }
    }
    DottedMeaning(k);
  }
}
