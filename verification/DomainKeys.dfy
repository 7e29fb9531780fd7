/** From the keys of a domain matcher to the router's exact and suffix lists, and what they accept. */
module DomainKeys {
  import opened Wrappers
  import opened Bytes
  import Utf8

  // ---- The router's side ----

  function LowerChar(c: char): char {
    if 'A' <= c <= 'Z' then (c as int + 32) as char else c
  }

  function Lower(s: string): (r: string)
    ensures |r| == |s|
  {
    seq(|s|, i requires 0 <= i < |s| => LowerChar(s[i]))
  }

  predicate EndsWith(s: string, tail: string) {
    |tail| <= |s| && s[|s| - |tail|..] == tail
  }

  /** One entry of the suffix list against a host, both in lower case. */
  predicate SuffixAccepts(value: string, host: string) {
    if value != "" && value[0] == '.' then EndsWith(host, value)
    else host == value || EndsWith(host, "." + value)
  }

  predicate RouterAccepts(exact: set<string>, suffix: set<string>, host: string) {
    || (exists v <- exact :: Lower(v) == Lower(host))
    || (exists v <- suffix :: SuffixAccepts(Lower(v), Lower(host)))
  }

  // ---- The decoder's side ----

  /** Keys read as text, back to front: with a carriage return in front a plain suffix of hosts, with a
      line feed a domain suffix, otherwise a whole host. */
  datatype KeySets = KeySets(exact: set<string>, prefix: set<string>, suffix: set<string>) {
    function Add(reversed: string): KeySets {
      if reversed != "" && reversed[0] == '\r' then this.(prefix := prefix + {reversed[1..]})
      else if reversed != "" && reversed[0] == '\n' then this.(suffix := suffix + {reversed[1..]})
      else this.(exact := exact + {reversed})
    }

    /** What the keys themselves say about a host. */
    predicate Accepts(host: string) {
      || (exists v <- exact :: Lower(v) == Lower(host))
      || (exists v <- prefix :: EndsWith(Lower(host), Lower(v)))
      || (exists v <- suffix :: SuffixAccepts(Lower(v), Lower(host)))
    }
  }

  function Reverse(s: string): (r: string)
    ensures |r| == |s|
  {
    seq(|s|, i requires 0 <= i < |s| => s[|s| - 1 - i])
  }

  /** The sets a list of keys stands for; None when a key is not text. */
  function Sorted(keys: seq<seq<byte>>): Option<KeySets> {
    if keys == [] then Some(KeySets({}, {}, {}))
    else
      var before, text := Sorted(keys[..|keys| - 1]), Utf8.Decode(keys[|keys| - 1]);
      if before.None? || text.None? then None else Some(before.value.Add(Reverse(text.value)))
  }

  predicate Dotted(s: string) {
    s != "" && s[0] == '.'
  }

  /** What a plain suffix becomes: with the matching whole host present the two merge into a domain
      suffix, otherwise it is handed on as it is. */
  function Merged(exact: set<string>, value: string): string {
    if Dotted(value) && value[1..] in exact then value[1..] else value
  }

  function MergedExact(k: KeySets): set<string> {
    set v | v in k.exact && "." + v !in k.prefix
  }

  function MergedSuffix(k: KeySets): set<string> {
    k.suffix + set v | v in k.prefix :: Merged(k.exact, v)
  }

  datatype KeyError = NotUtf8

  /** The result does not depend on the order in which the hash set is visited. */
  method DumpDomainKeys(keys: seq<seq<byte>>) returns (r: Result<(set<string>, set<string>), KeyError>)
    ensures r.Ok? <==> Sorted(keys).Some?
    ensures r.Ok? ==> r.value == (MergedExact(Sorted(keys).value), MergedSuffix(Sorted(keys).value))
  {
    var k := KeySets({}, {}, {});
    for i := 0 to |keys|
      invariant Sorted(keys[..i]) == Some(k)
    {
      assert keys[..i + 1][..i] == keys[..i] && keys[..i + 1][i] == keys[i];
      var text := Utf8.Decode(keys[i]);
      if text.None? {
        SortedFails(keys, i + 1);
        return Err(NotUtf8);
      }
      k := k.Add(Reverse(text.value));
    }
    assert keys[..|keys|] == keys;
    var exact, suffix := MergePrefixes(k);
    return Ok((exact, suffix));
  }

  /** The loop over the plain suffixes. */
  method MergePrefixes(k: KeySets) returns (exact: set<string>, suffix: set<string>)
    ensures exact == MergedExact(k) && suffix == MergedSuffix(k)
  {
    exact, suffix := k.exact, k.suffix;
    var prefix := k.prefix;
    while prefix != {}
      invariant prefix <= k.prefix
      invariant exact == set v | v in k.exact && "." + v !in k.prefix - prefix
      invariant suffix == k.suffix + set v | v in k.prefix - prefix :: Merged(k.exact, v)
      decreases prefix
    {
      var value :| value in prefix;
      ghost var done := k.prefix - prefix;
      prefix := prefix - {value};
      assert k.prefix - prefix == done + {value};
      if Dotted(value) && value[1..] in exact {
        assert value == "." + value[1..];
        exact, suffix := exact - {value[1..]}, suffix + {value[1..]};
      } else {
        OtherRoots(k, done, value);
        suffix := suffix + {value};
      }
    }
    assert k.prefix - prefix == k.prefix;
  }

  /** Only the value itself removes its root from the whole hosts. */
  lemma OtherRoots(k: KeySets, done: set<string>, value: string)
    requires value !in done
    ensures Dotted(value) && value[1..] in k.exact ==> value[1..] in set v | v in k.exact && "." + v !in done
    ensures !Dotted(value) ==> forall v: string :: "." + v != value
  {
    if Dotted(value) {
      assert value == "." + value[1..];
    }
  }

  lemma {:induction false} SortedFails(keys: seq<seq<byte>>, n: nat)
    requires n <= |keys| && Sorted(keys[..n]).None?
    ensures Sorted(keys).None?
    decreases |keys| - n
  {
    if n < |keys| {
      assert keys[..n + 1][..n] == keys[..n];
      SortedFails(keys, n + 1);
    } else {
      assert keys[..n] == keys;
    }
  }

  // ---- Meaning ----

  /** `u`, read as the router reads it, accepts every host that ends with `tail` and is longer. */
  predicate Below(u: string, tail: string) {
    if Dotted(u) then EndsWith(tail, u) else EndsWith(tail, "." + u)
  }

  /** A whole host with a leading dot that was merged; as an entry with a dot it now takes every host
      that ends with it. */
  predicate DoubleDotted(k: KeySets, r: string) {
    r in k.exact && Dotted(r) && "." + r in k.prefix
  }

  /** Other keys see to it that the router takes all hosts below a plain suffix: a domain suffix it lies
      under, a dotted plain suffix it ends with, or a doubly dotted one it ends with but for a dot. */
  predicate Shadowed(k: KeySets, v: string) {
    || (exists u <- k.suffix :: Below(Lower(u), Lower(v)))
    || (exists w <- k.prefix :: Below(Lower(w), Lower(v)))
    || (exists r <- k.exact :: DoubleDotted(k, r) && EndsWith(Lower(v), Lower(r)))
  }

  /** The keys take every host that ends with `r` anyway. */
  predicate Covered(k: KeySets, r: string) {
    || (exists u <- k.prefix :: EndsWith(Lower(r), Lower(u)))
    || (exists u <- k.suffix :: Below(Lower(u), Lower(r)))
  }

  lemma LowerDot(v: string)
    ensures Dotted(v) ==> Lower(v) == "." + Lower(v[1..])
    ensures Dotted(v) <==> Dotted(Lower(v))
  {
  }

  lemma EndsWithTrans(a: string, b: string, c: string)
    requires EndsWith(a, b) && EndsWith(b, c)
    ensures EndsWith(a, c)
  {
    assert a[|a| - |c|..] == a[|a| - |b|..][|b| - |c|..];
  }

  lemma BelowAccepts(u: string, tail: string, host: string)
    requires Below(u, tail) && EndsWith(host, tail)
    ensures SuffixAccepts(u, host)
  {
    EndsWithTrans(host, tail, if Dotted(u) then u else "." + u);
  }

  /** Put on the rewritten list: some entry of it takes all hosts below the plain suffix. */
  lemma ShadowedInList(k: KeySets, v: string)
    ensures Shadowed(k, v) <==> exists u <- MergedSuffix(k) :: Below(Lower(u), Lower(v))
  {
    if w :| w in k.prefix && Below(Lower(w), Lower(v)) {
      MergedBelow(k, w, v);
    }
    if r :| r in k.exact && DoubleDotted(k, r) && EndsWith(Lower(v), Lower(r)) {
      LowerDot(r);
      assert ("." + r)[1..] == r && Merged(k.exact, "." + r) == r;
      assert r in MergedSuffix(k) && Below(Lower(r), Lower(v));
    }
    if u :| u in MergedSuffix(k) && u !in k.suffix && Below(Lower(u), Lower(v)) {
      var w :| w in k.prefix && Merged(k.exact, w) == u;
      UnmergedBelow(k, w, v);
    }
  }

  lemma MergedBelow(k: KeySets, w: string, v: string)
    requires w in k.prefix && Below(Lower(w), Lower(v))
    ensures var u := Merged(k.exact, w); u in MergedSuffix(k) && Below(Lower(u), Lower(v))
  {
    var u := Merged(k.exact, w);
    LowerDot(w);
    LowerDot(u);
    if u != w && Dotted(u) {
      assert EndsWith(Lower(w), Lower(u));
      EndsWithTrans(Lower(v), Lower(w), Lower(u));
    }
  }

  lemma UnmergedBelow(k: KeySets, w: string, v: string)
    requires w in k.prefix && Below(Lower(Merged(k.exact, w)), Lower(v))
    ensures Shadowed(k, v)
  {
    var u := Merged(k.exact, w);
    LowerDot(w);
    LowerDot(u);
    if u != w && Dotted(u) {
      assert w == "." + u;
      assert DoubleDotted(k, u) && EndsWith(Lower(v), Lower(u));
    } else {
      assert Below(Lower(w), Lower(v));
    }
  }

  /** Every host a dotted plain suffix takes is taken by the entry it became. */
  lemma PrefixEntry(k: KeySets, v: string, host: string)
    requires v in k.prefix && Dotted(v) && EndsWith(Lower(host), Lower(v))
    ensures RouterAccepts(MergedExact(k), MergedSuffix(k), host)
  {
    var u := Merged(k.exact, v);
    LowerDot(v);
    LowerDot(u);
    if u == v[1..] && Dotted(u) {
      assert EndsWith(Lower(v), Lower(u));
      EndsWithTrans(Lower(host), Lower(v), Lower(u));
    }
    assert u in MergedSuffix(k) && SuffixAccepts(Lower(u), Lower(host));
  }

  lemma ExactEntry(k: KeySets, v: string, host: string)
    requires v in k.exact && Lower(v) == Lower(host)
    ensures RouterAccepts(MergedExact(k), MergedSuffix(k), host)
  {
    if "." + v in k.prefix {
      assert ("." + v)[1..] == v;
      assert Merged(k.exact, "." + v) == v && v in MergedSuffix(k);
      assert EndsWith(Lower(host), Lower(v));
      assert SuffixAccepts(Lower(v), Lower(host));
    } else {
      assert v in MergedExact(k);
    }
  }

  /** Hosts the keys accept, the router accepts too, whenever undotted plain suffixes are shadowed. */
  lemma RouterTakesAll(k: KeySets, host: string)
    requires forall v <- k.prefix :: Dotted(v) || Shadowed(k, v)
    requires k.Accepts(host)
    ensures RouterAccepts(MergedExact(k), MergedSuffix(k), host)
  {
    var h := Lower(host);
    if v :| v in k.exact && Lower(v) == h {
      ExactEntry(k, v, host);
    } else if v :| v in k.prefix && EndsWith(h, Lower(v)) {
      if Dotted(v) {
        PrefixEntry(k, v, host);
      } else {
        ShadowedInList(k, v);
        var u :| u in MergedSuffix(k) && Below(Lower(u), Lower(v));
        BelowAccepts(Lower(u), Lower(v), h);
      }
    } else {
      var v :| v in k.suffix && SuffixAccepts(Lower(v), h);
      assert v in MergedSuffix(k);
    }
  }

  /** Hosts the router accepts, the keys accept too, whenever doubly dotted merges are covered. */
  lemma KeysTakeAll(k: KeySets, host: string)
    requires forall r: string | DoubleDotted(k, r) :: Covered(k, r)
    requires RouterAccepts(MergedExact(k), MergedSuffix(k), host)
    ensures k.Accepts(host)
  {
    var h := Lower(host);
    if v :| v in MergedExact(k) && Lower(v) == h {
      assert v in k.exact;
    } else {
      var u :| u in MergedSuffix(k) && SuffixAccepts(Lower(u), h);
      if u !in k.suffix {
        var v :| v in k.prefix && Merged(k.exact, v) == u;
        LowerDot(v);
        LowerDot(u);
        if u == v {
          PlainEntry(u, h);
        } else {
          assert v == "." + u && u in k.exact;
          if Dotted(u) {
            assert DoubleDotted(k, u);
            CoveredTakes(k, u, host);
          } else if h != Lower(u) {
            assert EndsWith(h, Lower(v));
          }
        }
      }
    }
  }

  lemma PlainEntry(u: string, h: string)
    requires SuffixAccepts(Lower(u), h)
    ensures EndsWith(h, Lower(u))
  {
    if !EndsWith(h, Lower(u)) {
      assert EndsWith("." + Lower(u), Lower(u));
      EndsWithTrans(h, "." + Lower(u), Lower(u));
      assert false;
    }
  }

  lemma CoveredTakes(k: KeySets, r: string, host: string)
    requires Covered(k, r) && EndsWith(Lower(host), Lower(r))
    ensures k.Accepts(host)
  {
    if u :| u in k.prefix && EndsWith(Lower(r), Lower(u)) {
      EndsWithTrans(Lower(host), Lower(r), Lower(u));
    } else {
      var u :| u in k.suffix && Below(Lower(u), Lower(r));
      BelowAccepts(Lower(u), Lower(r), Lower(host));
    }
  }

  // ---- The other directions: long hosts that tell the two apart ----

  function Filled(n: nat, tail: string): string {
    seq(n, _ => 'z') + tail
  }

  ghost function Longest(s: set<string>): (n: nat)
    ensures forall v <- s :: |v| <= n
  {
    if s == {} then 0
    else
      var v :| v in s;
      var rest := Longest(s - {v});
      assert forall u <- s :: u == v || u in s - {v};
      if |v| > rest then |v| else rest
  }

  /** An ending of a filled-up host that begins with a dot lies in the tail. */
  lemma DottedEnding(n: nat, tail: string, e: string)
    requires Dotted(e) && EndsWith(Lower(Filled(n, tail)), e)
    ensures EndsWith(Lower(tail), e)
  {
    var h := Lower(Filled(n, tail));
    assert e[0] == h[|h| - |e|];
    if |e| > |tail| {
      assert false;
    }
    assert h == Lower(seq(n, _ => 'z')) + Lower(tail);
    assert h[|h| - |e|..] == Lower(tail)[|tail| - |e|..];
  }

  lemma FilledAccepted(n: nat, tail: string, u: string)
    requires |u| < n && SuffixAccepts(Lower(u), Lower(Filled(n, tail)))
    ensures Below(Lower(u), Lower(tail))
  {
    LowerDot(u);
    DottedEnding(n, tail, if Dotted(u) then Lower(u) else "." + Lower(u));
  }

  lemma FilledEndsWith(n: nat, tail: string)
    ensures EndsWith(Lower(Filled(n, tail)), Lower(tail))
  {
  }

  /** The router accepts all hosts the keys accept exactly when every plain suffix begins with a dot or
      is shadowed by another key. */
  lemma NothingLost(k: KeySets)
    ensures (forall host :: k.Accepts(host) ==> RouterAccepts(MergedExact(k), MergedSuffix(k), host))
       <==> (forall v <- k.prefix :: Dotted(v) || Shadowed(k, v))
  {
    hide KeySets.Accepts, RouterAccepts, Shadowed;
    if forall v <- k.prefix :: Dotted(v) || Shadowed(k, v) {
      forall host | k.Accepts(host) ensures RouterAccepts(MergedExact(k), MergedSuffix(k), host) {
        RouterTakesAll(k, host);
      }
    } else {
      var v :| v in k.prefix && !Dotted(v) && !Shadowed(k, v);
      var host := LostHost(k, v);
    }
  }

  lemma LostHost(k: KeySets, v: string) returns (host: string)
    requires v in k.prefix && !Shadowed(k, v)
    ensures k.Accepts(host) && !RouterAccepts(MergedExact(k), MergedSuffix(k), host)
  {
    var exact, suffix := MergedExact(k), MergedSuffix(k);
    ShadowedInList(k, v);
    hide MergedExact, MergedSuffix, Shadowed;
    var n := 1 + Longest(exact) + Longest(suffix);
    host := Filled(n, v);
    FilledEndsWith(n, v);
    forall u | u in suffix ensures !SuffixAccepts(Lower(u), Lower(host)) {
      if SuffixAccepts(Lower(u), Lower(host)) {
        FilledAccepted(n, v, u);
        assert false;
      }
    }
  }

  /** When every plain suffix begins with a dot, router and keys accept the same hosts exactly when
      every merged host that begins with a dot itself is covered by the remaining keys. */
  lemma DottedMeaning(k: KeySets)
    requires forall v <- k.prefix :: Dotted(v)
    ensures (forall host :: RouterAccepts(MergedExact(k), MergedSuffix(k), host) <==> k.Accepts(host))
       <==> (forall r: string | DoubleDotted(k, r) :: Covered(k, r))
  {
    var exact, suffix := MergedExact(k), MergedSuffix(k);
    if forall r: string | DoubleDotted(k, r) :: Covered(k, r) {
      forall host ensures RouterAccepts(exact, suffix, host) <==> k.Accepts(host) {
        if k.Accepts(host) {
          RouterTakesAll(k, host);
        }
        if RouterAccepts(exact, suffix, host) {
          KeysTakeAll(k, host);
        }
      }
    } else {
      var r: string :| DoubleDotted(k, r) && !Covered(k, r);
      var n := 1 + Longest(k.exact) + Longest(k.suffix);
      var host := Filled(n, r);
      FilledEndsWith(n, r);
      LowerDot(r);
      assert ("." + r)[1..] == r;
      assert Merged(k.exact, "." + r) == r && r in suffix && SuffixAccepts(Lower(r), Lower(host));
      NotAccepted(k, r, n);
    }
  }

  /** A character none of the keys uses. */
  predicate Spare(k: KeySets, c: char) {
    && c != '.' && LowerChar(c) == c
    && forall u <- k.exact + k.prefix + k.suffix :: c !in Lower(u)
  }

  /** The same for any keys that leave some character unused, dotted or not: the rewriting keeps their
      meaning exactly when undotted plain suffixes are shadowed and doubly dotted merges covered. */
  lemma MeaningKept(k: KeySets, c: char)
    requires Spare(k, c)
    ensures (forall host :: RouterAccepts(MergedExact(k), MergedSuffix(k), host) <==> k.Accepts(host))
       <==> (forall v <- k.prefix :: Dotted(v) || Shadowed(k, v)) && (forall r: string | DoubleDotted(k, r) :: Covered(k, r))
  {
    hide RouterAccepts, KeySets.Accepts, Shadowed, Covered, DoubleDotted, Spare;
    NothingLost(k);
    if (forall v <- k.prefix :: Dotted(v) || Shadowed(k, v)) && forall r: string | DoubleDotted(k, r) :: Covered(k, r) {
      forall host ensures RouterAccepts(MergedExact(k), MergedSuffix(k), host) <==> k.Accepts(host) {
        if RouterAccepts(MergedExact(k), MergedSuffix(k), host) {
          KeysTakeAll(k, host);
        }
      }
    }
    if r: string :| DoubleDotted(k, r) && !Covered(k, r) {
      SpareHost(k, c, r);
    }
  }

  lemma SpareHost(k: KeySets, c: char, r: string)
    requires Spare(k, c) && DoubleDotted(k, r) && !Covered(k, r)
    ensures RouterAccepts(MergedExact(k), MergedSuffix(k), [c] + r) && !k.Accepts([c] + r)
  {
    var host, h := [c] + r, Lower([c] + r);
    assert h == [c] + Lower(r);
    LowerDot(r);
    assert ("." + r)[1..] == r && Merged(k.exact, "." + r) == r;
    assert EndsWith(h, Lower(r));
    assert r in MergedSuffix(k) && SuffixAccepts(Lower(r), h);
    if u :| u in k.prefix && EndsWith(h, Lower(u)) {
      SpareEnding(c, Lower(r), Lower(u));
      assert false;
    }
    if u :| u in k.suffix && SuffixAccepts(Lower(u), h) {
      LowerDot(u);
      assert h[0] == c && c !in Lower(u);
      SpareEnding(c, Lower(r), if Dotted(u) then Lower(u) else "." + Lower(u));
      assert false;
    }
    assert c in h;
  }

  lemma SpareEnding(c: char, tail: string, e: string)
    requires EndsWith([c] + tail, e) && c !in e
    ensures EndsWith(tail, e)
  {
    var s := [c] + tail;
    assert s[0] == c;
    assert |e| == |s| ==> e == s;
    assert s[|s| - |e|..] == tail[|tail| - |e|..];
  }

  /** An undotted plain suffix on its own loses hosts: it takes `ax`, the entry it becomes does not. */
  lemma UndottedCounterexample()
    ensures var k := KeySets({}, {"x"}, {});
            k.Accepts("ax") && !RouterAccepts(MergedExact(k), MergedSuffix(k), "ax")
  {
    var k := KeySets({}, {"x"}, {});
    assert Lower("ax") == "ax" && Lower("x") == "x" && "ax"[1..] == "x";
    assert MergedSuffix(k) == {"x"} && MergedExact(k) == {};
    assert "ax"[0..] == "ax" && !EndsWith("ax", ".x");
    assert EndsWith(Lower("ax"), Lower("x"));
  }

  lemma NotAccepted(k: KeySets, r: string, n: nat)
    requires forall v <- k.prefix :: Dotted(v)
    requires !Covered(k, r) && n > Longest(k.exact) && n > Longest(k.suffix)
    ensures !k.Accepts(Filled(n, r))
  {
    var host := Filled(n, r);
    if u :| u in k.prefix && EndsWith(Lower(host), Lower(u)) {
      LowerDot(u);
      DottedEnding(n, r, Lower(u));
      assert false;
    }
    if u :| u in k.suffix && SuffixAccepts(Lower(u), Lower(host)) {
      FilledAccepted(n, r, u);
      assert false;
    }
  }

  /** A doubled dot makes the two differ: the keys `.x` and, as a plain suffix, `..x` do not accept
      `a.x`, but the merged entry does. */
  lemma DoubleDotCounterexample()
    ensures var k := KeySets({".x"}, {"..x"}, {});
            (forall v <- k.prefix :: Dotted(v))
            && !k.Accepts("a.x") && RouterAccepts(MergedExact(k), MergedSuffix(k), "a.x")
  {
    var k := KeySets({".x"}, {"..x"}, {});
    var host := "a.x";
    assert Lower(host) == "a.x" && Lower("..x") == "..x" && Lower(".x") == ".x";
    assert "..x"[1..] == ".x";
    assert Merged(k.exact, "..x") == ".x" && ".x" in MergedSuffix(k);
    assert "a.x"[1..] == ".x";
    assert EndsWith("a.x", ".x") && SuffixAccepts(Lower(".x"), Lower(host));
    assert "a.x"[0..] == "a.x" && !EndsWith("a.x", "..x");
  }
}
