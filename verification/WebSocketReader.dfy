/**
 What a WebSocket byte stream means to its reader. `Run` interprets the bytes one after another;
 `Tracks` is the commuting invariant an incremental reader keeps; `RunConversation` and
 `Decompose` tie both to whole frames of the grammar in WebSocketFrames.
 */
module WebSocketReader {
  import opened Wrappers
  import opened Arithmetic
  import opened Bytes
  import opened WebSocketFrames

  /** The frame whose payload is being read. */
  datatype ReadFrame = ReadFrame(opcode: nat, remaining: nat, mask: Mask, maskOffset: nat, control: Option<seq<byte>>) {
    predicate Valid() {
      && maskOffset < 4
      && (control.Some? <==> opcode >= 8)
      && (control.Some? ==> |control.value| + remaining <= 125)
    }

    function Decoded(chunk: seq<byte>): (r: seq<byte>)
      ensures |r| == |chunk|
    {
      Masked(mask, maskOffset, chunk)
    }

    /** The payload octets of `chunk` that belong to the application. */
    function DataIn(chunk: seq<byte>): seq<byte> {
      if control.Some? then [] else Decoded(chunk)
    }

    function Advance(chunk: seq<byte>): (r: ReadFrame)
      requires Valid() && |chunk| <= remaining
      ensures r.Valid()
    {
      this.(remaining := remaining - |chunk|,
            maskOffset := (maskOffset + |chunk|) % 4,
            control := if control.Some? then Some(control.value + Decoded(chunk)) else None)
    }

    /** Sections 5.5.1 to 5.5.3: a Close is echoed, a Ping is answered by a Pong. */
    function Replies(): seq<Reply> {
      if control.None? then []
      else if opcode == CLOSE then [Reply(CLOSE, control.value)]
      else if opcode == PING then [Reply(PONG, control.value)]
      else []
    }
  }

  datatype Reply = Reply(opcode: nat, payload: seq<byte>)

  datatype Reader = Idle(fragmented: bool) | InFrame(fragmented: bool, frame: ReadFrame) | Finished {
    predicate Valid() {
      InFrame? ==> frame.Valid()
    }

    function AfterFrame(): Reader
      requires InFrame?
    {
      if frame.opcode == CLOSE then Finished else Idle(fragmented)
    }
  }

  datatype Status = Waiting | Closed | Failed(violation: Violation)

  datatype Outcome = Outcome(data: seq<byte>, replies: seq<Reply>, status: Status) {
    function After(before: seq<byte>, answered: seq<Reply>): Outcome {
      Outcome(before + data, answered + replies, status)
    }
  }

  function Opened(h: HeaderStep): (r: Reader)
    requires h.Header? && (h.opcode >= 8 ==> h.length <= 125)
    ensures r.InFrame? && r.Valid()
  {
    InFrame(h.fragmented, ReadFrame(h.opcode, h.length, h.mask, 0, if h.opcode >= 8 then Some([]) else None))
  }

  /** The application data, the replies owed and the state of the conversation after reading `s`. */
  function Run(clientSide: bool, r: Reader, s: seq<byte>): Outcome
    requires r.Valid()
    decreases |s|, if r.InFrame? then 1 else 0
  {
    match r
    case Finished => Outcome([], [], Closed)
    case Idle(fragmented) =>
      var h := ParseHeader(clientSide, fragmented, s);
      if h.NeedMore? then Outcome([], [], Waiting)
      else if h.Bad? then Outcome([], [], Failed(h.violation))
      else Run(clientSide, Opened(h), s[h.size..])
    case InFrame(fragmented, f) =>
      if f.remaining == 0 then Run(clientSide, r.AfterFrame(), s).After([], f.Replies())
      else if s == [] then Outcome([], [], Waiting)
      else
        var n := Min(f.remaining, |s|);
        Run(clientSide, InFrame(fragmented, f.Advance(s[..n])), s[n..]).After(f.DataIn(s[..n]), [])
  }

  lemma AdvanceSplit(f: ReadFrame, chunk: seq<byte>, k: nat)
    requires f.Valid() && k <= |chunk| <= f.remaining
    ensures f.Advance(chunk) == f.Advance(chunk[..k]).Advance(chunk[k..])
    ensures f.DataIn(chunk) == f.DataIn(chunk[..k]) + f.Advance(chunk[..k]).DataIn(chunk[k..])
  {
    hide Masked;
    var f' := f.Advance(chunk[..k]);
    MaskedSplit(f.mask, f.maskOffset, chunk, k);
    assert f.Decoded(chunk) == f.Decoded(chunk[..k]) + f'.Decoded(chunk[k..]);
    ShiftMod(f.maskOffset + k, |chunk| - k);
    if f.control.Some? {
      assert f.control.value + f.Decoded(chunk) == (f.control.value + f.Decoded(chunk[..k])) + f'.Decoded(chunk[k..]);
    }
  }

  lemma AfterAfter(o: Outcome, d1: seq<byte>, a1: seq<Reply>, d2: seq<byte>, a2: seq<Reply>)
    ensures o.After(d2, a2).After(d1, a1) == o.After(d1 + d2, a1 + a2)
  {
    assert d1 + (d2 + o.data) == (d1 + d2) + o.data;
    assert a1 + (a2 + o.replies) == (a1 + a2) + o.replies;
  }

  /** Reading a payload in smaller pieces than there is input for means the same. */
  lemma RunPiecewise(clientSide: bool, r: Reader, s: seq<byte>, k: nat)
    requires r.InFrame? && r.Valid() && 0 < k <= r.frame.remaining && k <= |s|
    ensures Run(clientSide, r, s)
         == Run(clientSide, r.(frame := r.frame.Advance(s[..k])), s[k..]).After(r.frame.DataIn(s[..k]), [])
  {
    var f := r.frame;
    var n := Min(f.remaining, |s|);
    if k < n {
      var chunk := s[..n];
      var r' := r.(frame := f.Advance(s[..k]));
      assert chunk[..k] == s[..k] && s[k..][..n - k] == chunk[k..] && s[k..][n - k..] == s[n..];
      AdvanceSplit(f, chunk, k);
      var last := Run(clientSide, r.(frame := f.Advance(chunk)), s[n..]);
      assert Run(clientSide, r, s) == last.After(f.DataIn(chunk), []);
      assert Run(clientSide, r', s[k..]) == last.After(r'.frame.DataIn(chunk[k..]), []) by {
        assert Min(r'.frame.remaining, |s[k..]|) == n - k > 0;
      }
      AfterAfter(last, f.DataIn(s[..k]), [], r'.frame.DataIn(chunk[k..]), []);
    }
  }

  /** Everything the bytes `all` mean, now and after any further bytes, is split into what has been
      handed over already and what the reader in state `r` makes of its unread input. */
  ghost predicate Tracks(clientSide: bool, r0: Reader, all: seq<byte>,
                         r: Reader, unread: seq<byte>, data: seq<byte>, replies: seq<Reply>)
    requires r0.Valid() && r.Valid()
  {
    forall t: seq<byte> {:trigger Run(clientSide, r0, all + t)} {:trigger Run(clientSide, r, unread + t)} ::
      Run(clientSide, r0, all + t) == Run(clientSide, r, unread + t).After(data, replies)
  }

  lemma RunFinished(clientSide: bool, s: seq<byte>)
    ensures Run(clientSide, Finished, s) == Outcome([], [], Closed)
  {
  }

  lemma TracksStart(clientSide: bool, r0: Reader, all: seq<byte>)
    requires r0.Valid()
    ensures Tracks(clientSide, r0, all, r0, all, [], [])
  {
  }

  /** What has been handed over is what the bytes mean, up to what is still unread. */
  lemma TracksNow(clientSide: bool, r0: Reader, all: seq<byte>, r: Reader, unread: seq<byte>, data: seq<byte>, replies: seq<Reply>)
    requires r0.Valid() && r.Valid() && Tracks(clientSide, r0, all, r, unread, data, replies)
    ensures Run(clientSide, r0, all) == Run(clientSide, r, unread).After(data, replies)
  {
    assert all + [] == all && unread + [] == unread;
  }

  lemma TracksMore(clientSide: bool, r0: Reader, all: seq<byte>, r: Reader, unread: seq<byte>, data: seq<byte>, replies: seq<Reply>, chunk: seq<byte>)
    requires r0.Valid() && r.Valid() && Tracks(clientSide, r0, all, r, unread, data, replies)
    ensures Tracks(clientSide, r0, all + chunk, r, unread + chunk, data, replies)
  {
    forall t: seq<byte>
      ensures Run(clientSide, r0, (all + chunk) + t) == Run(clientSide, r, (unread + chunk) + t).After(data, replies)
    {
      assert (all + chunk) + t == all + (chunk + t) && (unread + chunk) + t == unread + (chunk + t);
    }
  }

  lemma TracksHeader(clientSide: bool, r0: Reader, all: seq<byte>, r: Reader, unread: seq<byte>, data: seq<byte>, replies: seq<Reply>)
    requires r0.Valid() && r.Idle? && Tracks(clientSide, r0, all, r, unread, data, replies)
    requires ParseHeader(clientSide, r.fragmented, unread).Header?
    ensures var h := ParseHeader(clientSide, r.fragmented, unread);
            Tracks(clientSide, r0, all, Opened(h), unread[h.size..], data, replies)
  {
    var h := ParseHeader(clientSide, r.fragmented, unread);
    forall t: seq<byte>
      ensures Run(clientSide, r0, all + t) == Run(clientSide, Opened(h), unread[h.size..] + t).After(data, replies)
    {
      ParseHeaderStable(clientSide, r.fragmented, unread, t);
      assert (unread + t)[h.size..] == unread[h.size..] + t;
    }
  }

  lemma TracksFinish(clientSide: bool, r0: Reader, all: seq<byte>, r: Reader, unread: seq<byte>, data: seq<byte>, replies: seq<Reply>)
    requires r0.Valid() && r.InFrame? && r.Valid() && r.frame.remaining == 0
    requires Tracks(clientSide, r0, all, r, unread, data, replies)
    ensures Tracks(clientSide, r0, all, r.AfterFrame(), unread, data, replies + r.frame.Replies())
  {
    forall t: seq<byte>
      ensures Run(clientSide, r0, all + t)
           == Run(clientSide, r.AfterFrame(), unread + t).After(data, replies + r.frame.Replies())
    {
      AfterAfter(Run(clientSide, r.AfterFrame(), unread + t), data, replies, [], r.frame.Replies());
      assert data + [] == data;
    }
  }

  lemma TracksConsume(clientSide: bool, r0: Reader, all: seq<byte>, r: Reader, unread: seq<byte>, data: seq<byte>, replies: seq<Reply>, k: nat)
    requires r0.Valid() && r.InFrame? && r.Valid() && 0 < k <= r.frame.remaining && k <= |unread|
    requires Tracks(clientSide, r0, all, r, unread, data, replies)
    ensures Tracks(clientSide, r0, all, r.(frame := r.frame.Advance(unread[..k])), unread[k..],
                   data + r.frame.DataIn(unread[..k]), replies)
  {
    var r' := r.(frame := r.frame.Advance(unread[..k]));
    var chunk := r.frame.DataIn(unread[..k]);
    forall t: seq<byte>
      ensures Run(clientSide, r0, all + t) == Run(clientSide, r', unread[k..] + t).After(data + chunk, replies)
    {
      RunPiecewise(clientSide, r, unread + t, k);
      assert (unread + t)[..k] == unread[..k] && (unread + t)[k..] == unread[k..] + t;
      AfterAfter(Run(clientSide, r', unread[k..] + t), data, replies, chunk, []);
      assert replies + [] == replies;
    }
  }

  /** `later` says at least what `now` says, and nothing else once `now` has settled. */
  predicate Extends(now: Outcome, later: Outcome) {
    now.data <= later.data && now.replies <= later.replies && (!now.status.Waiting? ==> later == now)
  }

  lemma AfterExtends(now: Outcome, later: Outcome, before: seq<byte>, answered: seq<Reply>)
    requires Extends(now, later)
    ensures Extends(now.After(before, answered), later.After(before, answered))
  {
  }

  /** Meaning only grows: later bytes never take data or replies back, nor undo a close or a failure. */
  lemma {:induction false} RunGrows(clientSide: bool, r: Reader, s: seq<byte>, t: seq<byte>)
    requires r.Valid()
    ensures Extends(Run(clientSide, r, s), Run(clientSide, r, s + t))
    decreases |s|, if r.InFrame? then 1 else 0
  {
    match r
    case Finished =>
    case Idle(fragmented) =>
      var h := ParseHeader(clientSide, fragmented, s);
      if !h.NeedMore? {
        ParseHeaderStable(clientSide, fragmented, s, t);
        if h.Header? {
          assert (s + t)[h.size..] == s[h.size..] + t;
          RunGrows(clientSide, Opened(h), s[h.size..], t);
        }
      }
    case InFrame(fragmented, f) =>
      if f.remaining == 0 {
        RunGrows(clientSide, r.AfterFrame(), s, t);
        AfterExtends(Run(clientSide, r.AfterFrame(), s), Run(clientSide, r.AfterFrame(), s + t), [], f.Replies());
      } else if s != [] {
        PayloadGrows(clientSide, r, s, t);
      }
  }

  lemma PayloadGrows(clientSide: bool, r: Reader, s: seq<byte>, t: seq<byte>)
    requires r.InFrame? && r.Valid() && r.frame.remaining > 0 && s != []
    ensures Extends(Run(clientSide, r, s), Run(clientSide, r, s + t))
    decreases |s|, 0
  {
    var f := r.frame;
    var n := Min(f.remaining, |s|);
    var next := r.(frame := f.Advance(s[..n]));
    RunPiecewise(clientSide, r, s, n);
    RunPiecewise(clientSide, r, s + t, n);
    assert (s + t)[..n] == s[..n] && (s + t)[n..] == s[n..] + t;
    RunGrows(clientSide, next, s[n..], t);
    hide Run;
    AfterExtends(Run(clientSide, next, s[n..]), Run(clientSide, next, s[n..] + t), f.DataIn(s[..n]), []);
  }

  // ---- Whole frames ----

  function WireAll(fs: seq<Frame>): seq<byte>
    requires forall f <- fs :: f.WellFormed()
  {
    if fs == [] then [] else Wire(fs[0]) + WireAll(fs[1..])
  }

  predicate HasClose(fs: seq<Frame>) {
    exists f <- fs :: f.opcode == 8
  }

  /** A sequence of frames a peer may send: acceptable in order, up to the first Close. */
  predicate Conversation(clientSide: bool, fragmented: bool, fs: seq<Frame>)
    decreases |fs|
  {
    fs == [] ||
    (&& fs[0].WellFormed()
     && Acceptable(clientSide, fragmented, fs[0])
     && if fs[0].opcode == CLOSE then forall f <- fs[1..] :: f.WellFormed()
        else Conversation(clientSide, MessageOpen(fragmented, fs[0]), fs[1..]))
  }

  function OpenAfter(fragmented: bool, fs: seq<Frame>): bool
    decreases |fs|
  {
    if fs == [] then fragmented else OpenAfter(MessageOpen(fragmented, fs[0]), fs[1..])
  }

  /** The payloads of the data frames before the first Close. */
  function DataOf(fs: seq<Frame>): seq<byte> {
    if fs == [] || fs[0].opcode == CLOSE then []
    else OwnData(fs[0]) + DataOf(fs[1..])
  }

  /** One answer for each Ping before the first Close, and the echo of that Close, in order. */
  function RepliesTo(fs: seq<Frame>): seq<Reply> {
    if fs == [] then []
    else AnswerTo(fs[0]) + if fs[0].opcode == CLOSE then [] else RepliesTo(fs[1..])
  }

  /** The answer to one frame: a Close is echoed and a Ping turned into a Pong. */
  function AnswerTo(f: Frame): seq<Reply> {
    if f.opcode == 8 then [Reply(8, f.payload)]
    else if f.opcode == 9 then [Reply(10, f.payload)]
    else []
  }

  function OwnData(f: Frame): seq<byte> {
    if f.IsControl() then [] else f.payload
  }

  function Next(fragmented: bool, f: Frame): Reader {
    if f.opcode == CLOSE then Finished else Idle(MessageOpen(fragmented, f))
  }

  /** A payload, read from its first octet to its last. */
  lemma RunPayload(clientSide: bool, r: Reader, f: Frame, rest: seq<byte>)
    requires r.InFrame? && r.Valid()
    requires r.frame == ReadFrame(f.opcode, |f.payload|, r.frame.mask, 0, if f.IsControl() then Some([]) else None)
    ensures Run(clientSide, r, Masked(r.frame.mask, 0, f.payload) + rest)
         == Run(clientSide, r.AfterFrame(), rest).After(OwnData(f), AnswerTo(f))
  {
    var n := |f.payload|;
    var wire := Masked(r.frame.mask, 0, f.payload);
    var s := wire + rest;
    if n > 0 {
      var r' := r.(frame := r.frame.Advance(wire));
      MaskedTwice(r.frame.mask, 0, f.payload);
      assert [] + r.frame.Decoded(wire) == f.payload;
      assert r'.frame.Replies() == AnswerTo(f);
      assert s[..n] == wire && s[n..] == rest;
      RunPiecewise(clientSide, r, s, n);
      AfterAfter(Run(clientSide, r.AfterFrame(), rest), OwnData(f), [], [], AnswerTo(f));
      assert OwnData(f) + [] == OwnData(f) && [] + AnswerTo(f) == AnswerTo(f);
    } else {
      assert s == rest && r.frame.Replies() == AnswerTo(f);
    }
  }

  /** One frame, read from the start of the input to its last octet. */
  lemma RunFrame(clientSide: bool, fragmented: bool, f: Frame, rest: seq<byte>)
    requires f.WellFormed() && Acceptable(clientSide, fragmented, f)
    ensures Run(clientSide, Idle(fragmented), Wire(f) + rest)
         == Run(clientSide, Next(fragmented, f), rest).After(OwnData(f), AnswerTo(f))
  {
    hide ParseHeader, Masked, Wire, HeaderBytes;
    var s := Wire(f) + rest;
    var h := ParseHeader(clientSide, fragmented, s);
    ParseWire(clientSide, fragmented, f, rest);
    BehindHeader(f, rest);
    RunPayload(clientSide, Opened(h), f, rest);
  }

  lemma BehindHeader(f: Frame, rest: seq<byte>)
    requires f.WellFormed()
    ensures |HeaderBytes(f)| <= |Wire(f)|
    ensures (Wire(f) + rest)[|HeaderBytes(f)|..] == Masked(MaskOf(f.mask), 0, f.payload) + rest
  {
    hide HeaderBytes, Masked;
  }

  /** The reader's state once it has read `fs`. */
  function EndOf(fragmented: bool, fs: seq<Frame>): Reader {
    if HasClose(fs) then Finished else Idle(OpenAfter(fragmented, fs))
  }

  /** The reader finds exactly the data and owes exactly the replies of the frames it is sent. */
  lemma {:induction false} RunConversation(clientSide: bool, fragmented: bool, fs: seq<Frame>, tail: seq<byte>)
    requires Conversation(clientSide, fragmented, fs)
    requires forall f <- fs :: f.WellFormed()
    ensures Run(clientSide, Idle(fragmented), WireAll(fs) + tail)
         == Run(clientSide, EndOf(fragmented, fs), tail).After(DataOf(fs), RepliesTo(fs))
    decreases |fs|
  {
    hide Run, Wire;
    if fs == [] {
      assert WireAll(fs) + tail == tail;
    } else {
      var f, rest := fs[0], fs[1..];
      assert fs == [f] + rest;
      var after := WireAll(rest) + tail;
      assert WireAll(fs) + tail == Wire(f) + after;
      RunFrame(clientSide, fragmented, f, after);
      if f.opcode != CLOSE {
        RunConversation(clientSide, MessageOpen(fragmented, f), rest, tail);
        assert HasClose(fs) == HasClose(rest);
        var last := Run(clientSide, EndOf(fragmented, fs), tail);
        AfterAfter(last, OwnData(f), AnswerTo(f), DataOf(rest), RepliesTo(rest));
      } else {
        RunFinished(clientSide, after);
        RunFinished(clientSide, tail);
        assert HasClose(fs) && AnswerTo(f) == RepliesTo(fs);
      }
    }
  }

  /** No whole acceptable frame lies at the front of `s`. */
  predicate Incomplete(clientSide: bool, fragmented: bool, s: seq<byte>) {
    var h := ParseHeader(clientSide, fragmented, s);
    h.Header? ==> |s| < h.size + h.length
  }

  lemma ConversationCons(clientSide: bool, fragmented: bool, f: Frame, more: seq<Frame>, tail: seq<byte>)
    requires f.WellFormed() && Acceptable(clientSide, fragmented, f)
    requires forall g <- more :: g.WellFormed()
    requires f.opcode != CLOSE ==> Conversation(clientSide, MessageOpen(fragmented, f), more)
    ensures Conversation(clientSide, fragmented, [f] + more)
    ensures forall g <- [f] + more :: g.WellFormed()
    ensures WireAll([f] + more) + tail == Wire(f) + (WireAll(more) + tail)
    ensures HasClose([f] + more) == (f.opcode == CLOSE || HasClose(more))
    ensures OpenAfter(fragmented, [f] + more) == OpenAfter(MessageOpen(fragmented, f), more)
  {
    hide Wire, Acceptable, MessageOpen, Frame.WellFormed;
    var all := [f] + more;
    assert all[0] == f && all[1..] == more;
    assert forall g :: g in all <==> g == f || g in more;
    assert WireAll(all) == Wire(f) + WireAll(more);
    hide WireAll;
    assert Wire(f) + WireAll(more) + tail == Wire(f) + (WireAll(more) + tail);
  }

  /** Any bytes at all are some acceptable frames followed by a rest that holds no whole one. */
  lemma {:induction false} Decompose(clientSide: bool, fragmented: bool, s: seq<byte>)
    returns (fs: seq<Frame>, tail: seq<byte>)
    ensures Conversation(clientSide, fragmented, fs)
    ensures forall f <- fs :: f.WellFormed()
    ensures s == WireAll(fs) + tail
    ensures HasClose(fs) || Incomplete(clientSide, OpenAfter(fragmented, fs), tail)
    decreases |s|
  {
    if Incomplete(clientSide, fragmented, s) {
      fs, tail := [], s;
    } else {
      var f, rest := FirstFrame(clientSide, fragmented, s);
      var more: seq<Frame>;
      if f.opcode == CLOSE {
        more, tail := [], rest;
      } else {
        more, tail := Decompose(clientSide, MessageOpen(fragmented, f), rest);
      }
      ConversationCons(clientSide, fragmented, f, more, tail);
      assert rest == WireAll(more) + tail;
      fs := [f] + more;
    }
  }

  lemma FirstFrame(clientSide: bool, fragmented: bool, s: seq<byte>) returns (f: Frame, rest: seq<byte>)
    requires !Incomplete(clientSide, fragmented, s)
    ensures f.WellFormed() && Acceptable(clientSide, fragmented, f)
    ensures s == Wire(f) + rest && |rest| < |s|
  {
    var h := ParseHeader(clientSide, fragmented, s);
    WireParse(clientSide, fragmented, s);
    f := FrameAt(h, s);
    rest := s[h.size + h.length..];
  }
}
