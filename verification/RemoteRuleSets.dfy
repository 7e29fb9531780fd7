/** A remote rule set kept in step with its server by entity tags. */
module RemoteRuleSets {
  import opened Wrappers
  import opened Bytes
  import opened RuleMatching

  type Content = seq<byte>
  type Tag = Option<string>

  datatype Reply = Failed | NotModified | Modified(content: Content, etag: Tag)

  datatype PrepareError = Unreachable | NotModifiedAtFirst | Invalid

  /** Content that was accepted, with the tag it came with. */
  datatype Accepted = Accepted(content: Content, etag: Tag)

  /** The last accepted content: a failed, an unchanged or an invalid reply leaves it what it was. */
  function LastAccepted(first: Accepted, replies: seq<Reply>, compile: Content -> Option<RuleSet>): Accepted {
    if replies == [] then first
    else
      var last := replies[|replies| - 1];
      if last.Modified? && compile(last.content).Some? then Accepted(last.content, last.etag)
      else LastAccepted(first, replies[..|replies| - 1], compile)
  }

  /** The rules everyone who routes sees; an update swaps them as a whole. */
  class CompiledRuleSet {
    var rules: RuleSet

    constructor (rules: RuleSet)
      ensures this.rules == rules
    {
      this.rules := rules;
    }

    method Replace(rules: RuleSet)
      modifies this
      ensures this.rules == rules
    {
      this.rules := rules;
    }
  }

  /** What fetches the content: any reply may come to any request. The logs hold the tags asked with
      and the replies, in order. */
  class Fetcher {
    var requests: seq<Tag>
    var replies: seq<Reply>

    method Fetch(etag: Tag) returns (reply: Reply)
      modifies this
      ensures requests == old(requests) + [etag] && replies == old(replies) + [reply]
    {
      reply := *;
      requests, replies := requests + [etag], replies + [reply];
    }
  }

  /** The first download, without a tag: it must bring content that compiles. */
  method Prepare(fetcher: Fetcher, compile: Content -> Option<RuleSet>)
    returns (r: Result<(CompiledRuleSet, Tag), PrepareError>, ghost first: Accepted)
    modifies fetcher
    ensures fetcher.requests == old(fetcher.requests) + [None] && |fetcher.replies| == |old(fetcher.replies)| + 1
    ensures var reply := fetcher.replies[|old(fetcher.replies)|];
      && (r.Ok? <==> reply.Modified? && compile(reply.content).Some?)
      && (r.Ok? ==> first == Accepted(reply.content, reply.etag) && r.value.1 == first.etag)
      && (r.Err? ==> r.error == match reply
            case Failed => Unreachable
            case NotModified => NotModifiedAtFirst
            case Modified(_, _) => Invalid)
    ensures r.Ok? ==> fresh(r.value.0) && compile(first.content) == Some(r.value.0.rules)
  {
    first := Accepted([], None);
    var reply := fetcher.Fetch(None);
    match reply {
      case Failed => return Err(Unreachable), first;
      case NotModified => return Err(NotModifiedAtFirst), first;
      case Modified(content, etag) =>
        var rules := compile(content);
        if rules.None? {
          return Err(Invalid), first;
        }
        first := Accepted(content, etag);
        var state := new CompiledRuleSet(rules.value);
        r := Ok((state, etag));
    }
  }

  /** The update loop, for as many rounds as there are before it is cancelled. Each request carries the
      tag of the content accepted last, and the rules in force after each reply, `seen`, are those of
      the content accepted last then. */
  method Update(state: CompiledRuleSet, etag: Tag, fetcher: Fetcher, rounds: nat, compile: Content -> Option<RuleSet>,
                ghost first: Accepted)
    returns (ghost seen: seq<RuleSet>)
    requires compile(first.content) == Some(state.rules) && first.etag == etag
    modifies state, fetcher
    ensures old(fetcher.requests) <= fetcher.requests && old(fetcher.replies) <= fetcher.replies
    ensures var requests, replies := fetcher.requests[|old(fetcher.requests)|..], fetcher.replies[|old(fetcher.replies)|..];
      && |requests| == |replies| == |seen| == rounds
      && (forall i | 0 <= i < rounds :: requests[i] == LastAccepted(first, replies[..i], compile).etag)
      && (forall i | 0 <= i < rounds :: compile(LastAccepted(first, replies[..i + 1], compile).content) == Some(seen[i]))
      && compile(LastAccepted(first, replies, compile).content) == Some(state.rules)
  {
    var current := etag;
    ghost var requests: seq<Tag>, replies: seq<Reply> := [], [];
    seen := [];
    for n := 0 to rounds
      invariant fetcher.requests == old(fetcher.requests) + requests && fetcher.replies == old(fetcher.replies) + replies
      invariant |requests| == |replies| == |seen| == n
      invariant current == LastAccepted(first, replies, compile).etag
      invariant compile(LastAccepted(first, replies, compile).content) == Some(state.rules)
      invariant forall i | 0 <= i < n :: requests[i] == LastAccepted(first, replies[..i], compile).etag
      invariant forall i | 0 <= i < n :: compile(LastAccepted(first, replies[..i + 1], compile).content) == Some(seen[i])
    {
      var reply := fetcher.Fetch(current);
      ghost var before := replies;
      requests, replies := requests + [current], replies + [reply];
      Logged(before, reply);
      match reply {
        case Failed =>
        case NotModified =>
        case Modified(content, next) =>
          var rules := compile(content);
          if rules.Some? {
            state.Replace(rules.value);
            current := next;
          }
      }
      seen := seen + [state.rules];
    }
    assert fetcher.requests[|old(fetcher.requests)|..] == requests;
    assert fetcher.replies[|old(fetcher.replies)|..] == replies;
  }

  lemma Logged(before: seq<Reply>, reply: Reply)
    ensures var log := before + [reply];
      log[..|before|] == before && log[..|before| + 1] == log && forall i | 0 <= i <= |before| :: log[..i] == before[..i]
  {
  }

  // ---- Agreement with the server ----

  /** What the server holds when it answers a request. */
  datatype Moment = Moment(content: Content, etag: Tag)

  /** The server says unchanged only for the tag it has, and otherwise sends what it holds. */
  predicate Honest(reply: Reply, sent: Tag, m: Moment) {
    match reply
    case Failed => true
    case NotModified => sent.Some? && sent == m.etag
    case Modified(content, etag) => content == m.content && etag == m.etag
  }

  ghost predicate HonestRun(held: Moment, replies: seq<Reply>, moments: seq<Moment>, compile: Content -> Option<RuleSet>) {
    && |replies| == |moments|
    && forall i | 0 <= i < |replies| :: Honest(replies[i], LastAccepted(AsAccepted(held), replies[..i], compile).etag, moments[i])
  }

  function AsAccepted(m: Moment): Accepted {
    Accepted(m.content, m.etag)
  }

  /** Whether a reply says that the content held and the content in force are the same. */
  predicate Settles(reply: Reply, compile: Content -> Option<RuleSet>) {
    reply.NotModified? || (reply.Modified? && compile(reply.content).Some?)
  }

  /** After every reply that is accepted or says unchanged, the content in force is the one held. */
  ghost predicate InStep(held: Moment, replies: seq<Reply>, moments: seq<Moment>, compile: Content -> Option<RuleSet>)
    requires |replies| == |moments|
  {
    forall i | 0 <= i < |replies| && Settles(replies[i], compile) ::
      LastAccepted(AsAccepted(held), replies[..i + 1], compile).content == moments[i].content
  }

  /** The tag of one is not used again for other content. */
  predicate Tells(a: Moment, b: Moment) {
    a.etag.Some? && a.etag == b.etag ==> a.content == b.content
  }

  /** No content that can be in force shares its tag with different content held later. */
  ghost predicate TagsTell(held: Moment, moments: seq<Moment>, compile: Content -> Option<RuleSet>) {
    && (forall b | 0 <= b < |moments| :: Tells(held, moments[b]))
    && forall a, b | 0 <= a < b < |moments| && compile(moments[a].content).Some? :: Tells(moments[a], moments[b])
  }

  /** What was accepted last is what the server held at some moment, and compiles. */
  lemma {:induction false} AcceptedWhen(held: Moment, replies: seq<Reply>, moments: seq<Moment>,
                                        compile: Content -> Option<RuleSet>, n: nat) returns (k: int)
    requires HonestRun(held, replies, moments, compile) && n <= |replies|
    ensures -1 <= k < n && (k >= 0 ==> compile(moments[k].content).Some?)
    ensures LastAccepted(AsAccepted(held), replies[..n], compile) == AsAccepted(if k == -1 then held else moments[k])
  {
    k := -1;
    if n > 0 {
      assert replies[..n][..n - 1] == replies[..n - 1] && replies[..n][n - 1] == replies[n - 1];
      k := AcceptedWhen(held, replies, moments, compile, n - 1);
      assert Honest(replies[n - 1], LastAccepted(AsAccepted(held), replies[..n - 1], compile).etag, moments[n - 1]);
      if replies[n - 1].Modified? && compile(replies[n - 1].content).Some? {
        k := n - 1;
      }
    }
  }

  lemma TellingTagsAgree(held: Moment, replies: seq<Reply>, moments: seq<Moment>, compile: Content -> Option<RuleSet>)
    requires TagsTell(held, moments, compile) && HonestRun(held, replies, moments, compile)
    ensures InStep(held, replies, moments, compile)
  {
    forall i | 0 <= i < |replies| && Settles(replies[i], compile)
      ensures LastAccepted(AsAccepted(held), replies[..i + 1], compile).content == moments[i].content
    {
      assert replies[..i + 1][..i] == replies[..i] && replies[..i + 1][i] == replies[i];
      assert Honest(replies[i], LastAccepted(AsAccepted(held), replies[..i], compile).etag, moments[i]);
      if replies[i].NotModified? {
        var k := AcceptedWhen(held, replies, moments, compile, i);
        assert Tells(if k == -1 then held else moments[k], moments[i]);
      }
    }
  }

  /** Fetches that fail, but for the content of moment `a`, if any, and an unchanged at moment `b`. */
  function Misled(moments: seq<Moment>, a: int, b: int): seq<Reply> {
    seq(|moments|, i requires 0 <= i < |moments| =>
      if i == b then NotModified else if i == a then Modified(moments[i].content, moments[i].etag) else Failed)
  }

  lemma {:induction false} MisledAccepts(held: Moment, moments: seq<Moment>, a: int, b: int, compile: Content -> Option<RuleSet>, n: nat)
    requires -1 <= a < b < |moments| && n <= |moments| && (a >= 0 ==> compile(moments[a].content).Some?)
    ensures LastAccepted(AsAccepted(held), Misled(moments, a, b)[..n], compile)
         == AsAccepted(if 0 <= a < n then moments[a] else held)
  {
    if n > 0 {
      var replies := Misled(moments, a, b);
      assert replies[..n][..n - 1] == replies[..n - 1];
      MisledAccepts(held, moments, a, b, compile, n - 1);
    }
  }

  lemma ReusedTagParts(held: Moment, moments: seq<Moment>, a: int, b: int, compile: Content -> Option<RuleSet>)
    requires -1 <= a < b < |moments| && (a >= 0 ==> compile(moments[a].content).Some?)
    requires !Tells(if a == -1 then held else moments[a], moments[b])
    ensures HonestRun(held, Misled(moments, a, b), moments, compile)
    ensures !InStep(held, Misled(moments, a, b), moments, compile)
  {
    var replies := Misled(moments, a, b);
    forall i | 0 <= i < |replies|
      ensures Honest(replies[i], LastAccepted(AsAccepted(held), replies[..i], compile).etag, moments[i])
    {
      MisledAccepts(held, moments, a, b, compile, i);
    }
    MisledAccepts(held, moments, a, b, compile, b + 1);
    assert Settles(replies[b], compile);
  }

  /** With a server that is honest about its tag, the rules in force keep in step with it in every run
      exactly when no content that can be in force shares its tag with different content held later. */
  lemma Agreement(held: Moment, moments: seq<Moment>, compile: Content -> Option<RuleSet>)
    ensures (forall replies | HonestRun(held, replies, moments, compile) :: InStep(held, replies, moments, compile))
       <==> TagsTell(held, moments, compile)
  {
    hide InStep;
    if TagsTell(held, moments, compile) {
      forall replies | HonestRun(held, replies, moments, compile) ensures InStep(held, replies, moments, compile) {
        TellingTagsAgree(held, replies, moments, compile);
      }
    } else if b :| 0 <= b < |moments| && !Tells(held, moments[b]) {
      ReusedTagParts(held, moments, -1, b, compile);
    } else {
      var a, b :| 0 <= a < b < |moments| && compile(moments[a].content).Some? && !Tells(moments[a], moments[b]);
      ReusedTagParts(held, moments, a, b, compile);
    }
  }
}
