/**
 The poll-driven WebSocket stream of the VLESS transport. `ReadSide` says that what has been handed
 out is what the received bytes mean; `WriteSide` says that what is on the socket, with what is
 still buffered, is a sequence of whole frames that carries each accepted byte once.
 */
module WebSocketStreams {
  import opened Wrappers
  import opened Arithmetic
  import opened Bytes
  import opened WebSocketFrames
  import opened WebSocketReader

  datatype IoError =
    | SocketFailed
    | WriteZero
    | TruncatedHeader
    | TruncatedPayload
    | Protocol(violation: Violation)

  /** How one part of the read loop ends: go on, start over, or return to the caller. */
  datatype Step = Proceed | Again | Stop(r: Poll<Result<(), IoError>>)

  const CHUNK_SIZE: nat := 32 * 1024

  /** What the transport below answered to one poll. A read of no bytes is the end of the input. */
  datatype Call =
    | Received(size: nat)
    | Took(offered: nat, size: nat)
    | Stalled(reading: bool)
    | Broken
  {
    predicate Moved() {
      (Received? || Took?) && size > 0
    }
  }

  function ReadCall(r: Poll<Result<seq<byte>, IoError>>): Call {
    match r
    case Pending => Stalled(true)
    case Ready(Err(_)) => Broken
    case Ready(Ok(chunk)) => Received(|chunk|)
  }

  function WriteCall(offered: nat, r: Poll<Result<nat, IoError>>): Call {
    match r
    case Pending => Stalled(false)
    case Ready(Err(_)) => Broken
    case Ready(Ok(n)) => Took(offered, n)
  }

  /** Every poll of the socket from `before` to `now` moved bytes. */
  ghost predicate Smooth(before: seq<Call>, now: seq<Call>) {
    before <= now && forall i | |before| <= i < |now| :: now[i].Moved()
  }

  /** The result of a call that polled the socket from `before` to `now`: it returned at the first
      poll that moved nothing, with what the socket answered there, and while the socket moves bytes
      it neither waits nor fails, except over what the peer sent. */
  ghost predicate Relays<T>(before: seq<Call>, now: seq<Call>, r: Poll<Result<T, IoError>>) {
    if Smooth(before, now) then
      r.Ready? && (r.value.Err? ==> r.value.error.Protocol?)
    else
      && |now| > 0 && Smooth(before, now[..|now| - 1])
      && match now[|now| - 1]
         case Stalled(_) => r == Pending
         case Broken => r == Ready(Err(SocketFailed))
         case Took(offered, _) => offered > 0 && r == Ready(Err(WriteZero))
         case Received(_) =>
           r.Ready? && (r.value.Err? ==> r.value.error == TruncatedHeader || r.value.error == TruncatedPayload)
  }

  lemma RelaysStop<T>(before: seq<Call>, now: seq<Call>, c: Call, r: Poll<Result<T, IoError>>)
    requires Smooth(before, now) && !c.Moved()
    requires match c
             case Stalled(_) => r == Pending
             case Broken => r == Ready(Err(SocketFailed))
             case Took(offered, _) => offered > 0 && r == Ready(Err(WriteZero))
             case Received(_) =>
               r.Ready? && (r.value.Err? ==> r.value.error == TruncatedHeader || r.value.error == TruncatedPayload)
    ensures Relays(before, now + [c], r) && !Smooth(before, now + [c])
  {
    assert (now + [c])[..|now|] == now && (now + [c])[|now|] == c;
  }

  lemma RelaysLater<T>(before: seq<Call>, mid: seq<Call>, now: seq<Call>, r: Poll<Result<T, IoError>>)
    requires Smooth(before, mid) && Relays(mid, now, r)
    ensures Relays(before, now, r)
  {
    SmoothLater(before, mid, now);
    if !Smooth(mid, now) {
      SmoothLater(before, mid, now[..|now| - 1]);
    }
  }

  lemma SmoothLater(before: seq<Call>, mid: seq<Call>, now: seq<Call>)
    requires Smooth(before, mid) && mid <= now
    ensures Smooth(before, now) <==> Smooth(mid, now)
  {
  }

  lemma SmoothChain(before: seq<Call>, mid: seq<Call>, now: seq<Call>)
    requires Smooth(before, mid) && Smooth(mid, now)
    ensures Smooth(before, now)
  {
  }

  lemma SmoothNow(now: seq<Call>)
    ensures Smooth(now, now)
  {
  }

  lemma RelaysSmooth<T>(before: seq<Call>, now: seq<Call>, r: Poll<Result<T, IoError>>)
    requires Smooth(before, now) && Succeeded(r)
    ensures Relays(before, now, r)
  {
  }

  lemma Onwards(before: seq<Call>, mid: seq<Call>, now: seq<Call>, step: Step)
    requires Smooth(before, mid)
    requires if step.Stop? then Relays(mid, now, step.r) else Smooth(mid, now)
    ensures if step.Stop? then Relays(before, now, step.r) else Smooth(before, now)
  {
    hide Smooth, Relays;
    if step.Stop? {
      RelaysLater(before, mid, now, step.r);
    } else {
      SmoothChain(before, mid, now);
    }
  }

  /** The result of sending: success is every poll moving bytes, a wait is one for writing. */
  ghost predicate RelaysFlush(before: seq<Call>, now: seq<Call>, r: Poll<Result<(), IoError>>) {
    && Relays(before, now, r)
    && (Succeeded(r) <==> Smooth(before, now))
    && (r == Pending ==> now != [] && now[|now| - 1] == Stalled(false))
    && (r.Ready? && r.value.Err? ==> r.value.error == SocketFailed || r.value.error == WriteZero)
  }

  /** What a poll of the socket for writing amounts to for the flush that made it. */
  function AfterWrite(polled: Poll<Result<nat, IoError>>): Poll<Result<(), IoError>> {
    match polled
    case Pending => Pending
    case Ready(Err(error)) => Ready(Err(error))
    case Ready(Ok(written)) => if written == 0 then Ready(Err(WriteZero)) else Ready(Ok(()))
  }

  lemma RelaysWrite(before: seq<Call>, now: seq<Call>, offered: nat, polled: Poll<Result<nat, IoError>>)
    requires Smooth(before, now) && offered > 0
    requires polled.Ready? && polled.value.Err? ==> polled.value.error == SocketFailed
    ensures RelaysFlush(before, now + [WriteCall(offered, polled)], AfterWrite(polled))
    ensures Succeeded(AfterWrite(polled)) <==> Smooth(before, now + [WriteCall(offered, polled)])
  {
    var c := WriteCall(offered, polled);
    if !c.Moved() {
      RelaysStop(before, now, c, AfterWrite(polled));
    }
  }

  lemma RelaysMoved(before: seq<Call>, now: seq<Call>, r: Poll<Result<(), IoError>>)
    requires Smooth(before, now) && Succeeded(r)
    ensures RelaysFlush(before, now, r)
  {
  }

  /** A failure or a wait is handed on. */
  lemma RelaysSame<T, U>(before: seq<Call>, now: seq<Call>, r: Poll<Result<T, IoError>>, r': Poll<Result<U, IoError>>)
    requires Relays(before, now, r)
    requires (r == Pending && r' == Pending) || (r.Ready? && r'.Ready? && r.value.Err? && r'.value.Err? && r.value.error == r'.value.error)
    ensures Relays(before, now, r')
  {
  }

  /** The transport below: it hands over any part of what has arrived, takes any part of what it is
      given, and may stop at any poll. */
  class Socket {
    var inbox: seq<byte>
    var peerClosed: bool
    var sent: seq<byte>
    ghost var calls: seq<Call>

    /** The last poll was not ready. */
    ghost predicate Waiting(reading: bool)
      reads this`calls
    {
      calls != [] && calls[|calls| - 1] == Stalled(reading)
    }

    /** An empty chunk means the peer has closed and nothing is left. */
    method PollRead() returns (r: Poll<Result<seq<byte>, IoError>>)
      modifies this`inbox, this`calls
      ensures calls == old(calls) + [ReadCall(r)]
      ensures r.Ready? && r.value.Err? ==> r.value.error == SocketFailed
      ensures Succeeded(r) ==>
                && old(inbox) == r.value.value + inbox
                && |r.value.value| <= CHUNK_SIZE
                && (r.value.value == [] ==> inbox == [] && peerClosed)
      ensures !Succeeded(r) ==> inbox == old(inbox)
    {
      var n: nat, ready: bool, failed: bool := *, *, *;
      if failed {
        r := Ready(Err(SocketFailed));
      } else if !ready || (inbox == [] && !peerClosed) {
        r := Pending;
      } else if inbox == [] {
        r := Ready(Ok([]));
      } else {
        var k := if 0 < n <= Min(|inbox|, CHUNK_SIZE) then n else 1;
        r := Ready(Ok(inbox[..k]));
        inbox := inbox[k..];
      }
      calls := calls + [ReadCall(r)];
    }

    method PollWrite(bytes: seq<byte>) returns (r: Poll<Result<nat, IoError>>)
      modifies this`sent, this`calls
      ensures calls == old(calls) + [WriteCall(|bytes|, r)]
      ensures r.Ready? && r.value.Err? ==> r.value.error == SocketFailed
      ensures Succeeded(r) ==> r.value.value <= |bytes| && sent == old(sent) + bytes[..r.value.value]
      ensures !Succeeded(r) ==> sent == old(sent)
    {
      var n: nat, ready: bool, failed: bool := *, *, *;
      if failed {
        r := Ready(Err(SocketFailed));
      } else if !ready || n > |bytes| {
        r := Pending;
      } else {
        r := Ready(Ok(n));
        sent := sent + bytes[..n];
      }
      calls := calls + [WriteCall(|bytes|, r)];
    }
  }

  /** Why a frame was written: application data, an answer to the peer, or our own Close. */
  datatype Origin = Payload | Answer | Goodbye

  predicate Allowed(origin: Origin, opcode: nat, payload: seq<byte>) {
    match origin
    case Payload => opcode == 2 && 0 < |payload| <= MAX_WS_FRAME_SIZE
    case Answer => (opcode == 8 || opcode == 10) && |payload| <= 125
    case Goodbye => opcode == 8 && payload == []
  }

  datatype Entry = Entry(origin: Origin, frame: Frame) {
    predicate Valid(clientSide: bool) {
      && frame.WellFormed()
      && frame.fin
      && frame.form == FormFor(|frame.payload|)
      && frame.mask.Some? == clientSide
      && Allowed(origin, frame.opcode, frame.payload)
    }

    function OwnPayload(): seq<byte> {
      if origin.Payload? then frame.payload else []
    }

    function OwnAnswer(): seq<Reply> {
      if origin.Answer? then [Reply(frame.opcode, frame.payload)] else []
    }
  }

  /** The shortest length field that holds the length. */
  function FormFor(length: nat): LengthForm {
    if length <= 125 then Short else if length <= 65535 then Medium else Long
  }

  predicate LogValid(clientSide: bool, log: seq<Entry>) {
    forall i | 0 <= i < |log| :: log[i].Valid(clientSide)
  }

  function LogBytes(clientSide: bool, log: seq<Entry>): seq<byte>
    requires LogValid(clientSide, log)
  {
    if log == [] then [] else LogBytes(clientSide, log[..|log| - 1]) + Wire(log[|log| - 1].frame)
  }

  /** The application data in a log, in order. */
  function Payloads(log: seq<Entry>): seq<byte> {
    if log == [] then [] else Payloads(log[..|log| - 1]) + log[|log| - 1].OwnPayload()
  }

  /** The answers in a log, in order. */
  function Answers(log: seq<Entry>): seq<Reply> {
    if log == [] then [] else Answers(log[..|log| - 1]) + log[|log| - 1].OwnAnswer()
  }

  predicate LogHasClose(log: seq<Entry>) {
    exists i | 0 <= i < |log| :: log[i].frame.opcode == CLOSE
  }

  lemma LogBytesSnoc(clientSide: bool, log: seq<Entry>, e: Entry)
    requires LogValid(clientSide, log) && e.Valid(clientSide)
    ensures LogValid(clientSide, log + [e])
    ensures LogBytes(clientSide, log + [e]) == LogBytes(clientSide, log) + Wire(e.frame)
  {
    assert (log + [e])[..|log|] == log;
  }

  lemma LogSnoc(log: seq<Entry>, e: Entry)
    ensures Payloads(log + [e]) == Payloads(log) + e.OwnPayload()
    ensures Answers(log + [e]) == Answers(log) + e.OwnAnswer()
    ensures LogHasClose(log + [e]) == (LogHasClose(log) || e.frame.opcode == CLOSE)
  {
    var log' := log + [e];
    assert log'[..|log|] == log;
    assert LogHasClose(log') <==> LogHasClose(log) || e.frame.opcode == CLOSE by {
      assert log'[|log|] == e;
      assert forall i | 0 <= i < |log| :: log'[i] == log[i];
    }
  }

  /** The socket and the buffer together hold the frames of the log, whole and in order, and the
      first `flushed` of them are on the socket. */
  ghost predicate InStep(clientSide: bool, preamble: seq<byte>, sent: seq<byte>, unsent: seq<byte>, log: seq<Entry>, flushed: nat) {
    && LogValid(clientSide, log)
    && sent + unsent == preamble + LogBytes(clientSide, log)
    && flushed <= |log|
    && preamble + LogBytes(clientSide, log[..flushed]) <= sent
  }

  lemma InStepGrows(clientSide: bool, preamble: seq<byte>, sent: seq<byte>, unsent: seq<byte>, log: seq<Entry>, flushed: nat, e: Entry)
    requires InStep(clientSide, preamble, sent, unsent, log, flushed) && e.Valid(clientSide)
    ensures InStep(clientSide, preamble, sent, unsent + Wire(e.frame), log + [e], flushed)
  {
    hide Wire;
    LogBytesSnoc(clientSide, log, e);
    assert (log + [e])[..flushed] == log[..flushed];
    var wire, total := Wire(e.frame), LogBytes(clientSide, log);
    assert sent + (unsent + wire) == (sent + unsent) + wire;
    assert preamble + (total + wire) == (preamble + total) + wire;
  }

  /** The socket takes a first part of what is unsent. */
  lemma InStepSend(clientSide: bool, preamble: seq<byte>, sent: seq<byte>, unsent: seq<byte>, log: seq<Entry>, flushed: nat, k: nat)
    requires InStep(clientSide, preamble, sent, unsent, log, flushed) && k <= |unsent|
    ensures InStep(clientSide, preamble, sent + unsent[..k], unsent[k..], log, flushed)
  {
    assert (sent + unsent[..k]) + unsent[k..] == sent + unsent;
    assert sent <= sent + unsent[..k];
  }

  /** Nothing is unsent: the whole log is on the socket. */
  lemma InStepFlush(clientSide: bool, preamble: seq<byte>, sent: seq<byte>, unsent: seq<byte>, log: seq<Entry>, flushed: nat)
    requires InStep(clientSide, preamble, sent, unsent, log, flushed) && unsent == []
    ensures InStep(clientSide, preamble, sent, [], log, |log|) && flushed <= |log|
  {
    assert log[..|log|] == log && sent + [] == sent;
  }

  /** The log holds each accepted byte and each answer owed exactly once, and no answer is left
      behind unless `controlPending` says so. */
  ghost predicate Balanced(log: seq<Entry>, accepted: seq<byte>, pendingBytes: seq<byte>, replies: seq<Reply>,
                           hasClose: bool, controlPending: bool, flushed: nat) {
    && Payloads(log) == accepted + pendingBytes
    && Answers(log) == replies
    && hasClose == LogHasClose(log)
    && (!controlPending ==> forall i | flushed <= i < |log| :: !log[i].origin.Answer?)
  }

  lemma BalancedAnswer(log: seq<Entry>, accepted: seq<byte>, pendingBytes: seq<byte>, replies: seq<Reply>,
                       hasClose: bool, controlPending: bool, flushed: nat, e: Entry)
    requires Balanced(log, accepted, pendingBytes, replies, hasClose, controlPending, flushed)
    requires !e.origin.Payload?
    ensures Balanced(log + [e], accepted, pendingBytes, replies + e.OwnAnswer(), hasClose || e.frame.opcode == CLOSE,
                     controlPending || e.origin.Answer?, flushed)
  {
    LogSnoc(log, e);
    var log' := log + [e];
    assert forall i | 0 <= i < |log| :: log'[i] == log[i];
  }

  lemma BalancedPayload(log: seq<Entry>, accepted: seq<byte>, replies: seq<Reply>,
                        hasClose: bool, controlPending: bool, flushed: nat, e: Entry)
    requires Balanced(log, accepted, [], replies, hasClose, controlPending, flushed)
    requires e.origin.Payload? && e.frame.opcode != CLOSE
    ensures Balanced(log + [e], accepted, e.frame.payload, replies, hasClose, controlPending, flushed)
  {
    LogSnoc(log, e);
    var log' := log + [e];
    assert forall i | 0 <= i < |log| :: log'[i] == log[i];
    assert Payloads(log') == Payloads(log) + e.frame.payload;
    assert accepted + [] == accepted;
  }

  class WebSocketStream {
    const inner: Socket
    const clientSide: bool
    const earlyData: seq<byte>
    var input: seq<byte>
    var inputOffset: nat
    var earlyOffset: nat
    var readFrame: Option<ReadFrame>
    var fragmented: bool
    var readClosed: bool
    var writeBuffer: seq<byte>
    var writeOffset: nat
    var pendingPayloadLen: Option<nat>
    var controlWritePending: bool
    var closeQueued: bool

    /** Bytes on the socket before the stream took it over. */
    ghost const preamble: seq<byte>
    /** All input so far: what came with the handshake and every chunk read since. */
    ghost var received: seq<byte>
    /** Application data taken from frames, and everything handed out. */
    ghost var data: seq<byte>
    ghost var delivered: seq<byte>
    ghost var closeSeen: bool
    ghost var replies: seq<Reply>
    /** Every frame written, the data acknowledged to the caller and the data of the pending frame. */
    ghost var log: seq<Entry>
    ghost var accepted: seq<byte>
    ghost var pendingBytes: seq<byte>
    /** How many entries of the log have left the buffer for certain. */
    ghost var flushed: nat

    function Available(): seq<byte>
      requires inputOffset <= |input|
      reads this`input, this`inputOffset
    {
      input[inputOffset..]
    }

    function Unsent(): seq<byte>
      requires writeOffset <= |writeBuffer|
      reads this`writeBuffer, this`writeOffset
    {
      writeBuffer[writeOffset..]
    }

    ghost function Reader(): Reader
      reads this`closeSeen, this`readFrame, this`fragmented
    {
      if closeSeen then Finished
      else if readFrame.Some? then InFrame(fragmented, readFrame.value)
      else Idle(fragmented)
    }

    /** The meaning of everything received so far. */
    ghost function Meaning(): Outcome
      reads this`received
    {
      Run(clientSide, Idle(false), received)
    }

    ghost predicate ReadSide()
      reads this`input, this`inputOffset, this`earlyOffset, this`readFrame, this`fragmented, this`readClosed,
            this`received, this`data, this`delivered, this`closeSeen, this`replies
      ensures ReadSide() ==> inputOffset <= |input| && earlyOffset <= |earlyData| && (closeSeen ==> readClosed)
    {
      && inputOffset <= |input|
      && earlyOffset <= |earlyData|
      && Reader().Valid()
      && (closeSeen ==> readClosed)
      && (closeSeen ==> readFrame.None?)
      && Tracks(clientSide, Idle(false), received, Reader(), Available(), data, replies)
      && delivered == earlyData[..earlyOffset] + data
      && (earlyOffset < |earlyData| ==> data == [])
    }

    ghost predicate Framing()
      reads this`writeBuffer, this`writeOffset, this`log, this`flushed, inner`sent
    {
      && writeOffset <= |writeBuffer|
      && InStep(clientSide, preamble, inner.sent, Unsent(), log, flushed)
    }

    ghost predicate Ledger()
      reads this`pendingPayloadLen, this`controlWritePending, this`closeQueued,
            this`log, this`accepted, this`pendingBytes, this`flushed, this`replies
    {
      && Balanced(log, accepted, pendingBytes, replies, closeQueued, controlWritePending, flushed)
      && (pendingPayloadLen.Some? <==> pendingBytes != [])
      && (pendingPayloadLen.Some? ==> pendingPayloadLen.value == |pendingBytes|)
      && (controlWritePending ==> replies != [])
    }

    ghost predicate WriteSide()
      reads this`writeBuffer, this`writeOffset, this`pendingPayloadLen, this`controlWritePending, this`closeQueued,
            this`log, this`accepted, this`pendingBytes, this`flushed, this`replies, inner`sent
    {
      Framing() && Ledger()
    }

    ghost predicate Valid()
      reads this, inner`sent
    {
      ReadSide() && WriteSide()
    }

    constructor (inner: Socket, input: seq<byte>, earlyData: seq<byte>, clientSide: bool)
      ensures Valid() && this.inner == inner && this.clientSide == clientSide && this.earlyData == earlyData
      ensures received == input && delivered == [] && log == [] && accepted == [] && pendingBytes == []
      ensures preamble == inner.sent
    {
      this.inner, this.clientSide, this.earlyData := inner, clientSide, earlyData;
      this.input, inputOffset, earlyOffset := input, 0, 0;
      readFrame, fragmented, readClosed := None, false, false;
      writeBuffer, writeOffset, pendingPayloadLen := [], 0, None;
      controlWritePending, closeQueued := false, false;
      preamble, received := inner.sent, input;
      data, delivered, closeSeen, replies := [], [], false, [];
      log, accepted, pendingBytes, flushed := [], [], [], 0;
      new;
      TracksStart(clientSide, Idle(false), input);
    }

    method CompactInput()
      requires inputOffset <= |input|
      modifies this`input, this`inputOffset
      ensures inputOffset <= |input| && Available() == old(Available())
      ensures inputOffset == if old(inputOffset) == |old(input)| || old(inputOffset) >= CHUNK_SIZE then 0 else old(inputOffset)
    {
      if inputOffset == |input| {
        input, inputOffset := [], 0;
      } else if inputOffset >= CHUNK_SIZE {
        input, inputOffset := input[inputOffset..], 0;
      }
    }

    method StartFrame() returns (r: Result<bool, Violation>)
      requires inputOffset <= |input| && readFrame.None?
      modifies this`inputOffset, this`readFrame, this`fragmented
      ensures inputOffset <= |input|
      ensures var h := ParseHeader(clientSide, old(fragmented), old(Available()));
              match h
              case NeedMore =>
                r == Ok(false) && inputOffset == old(inputOffset) && readFrame.None? && fragmented == old(fragmented)
              case Bad(violation) =>
                r == Err(violation) && inputOffset == old(inputOffset) && readFrame.None? && fragmented == old(fragmented)
              case Header(_, _, _, _, size) =>
                r == Ok(true) && inputOffset == old(inputOffset) + size
                && readFrame == Some(Opened(h).frame) && fragmented == h.fragmented
    {
      var available := input[inputOffset..];
      if |available| < 2 {
        return Ok(false);
      }
      var fin := available[0] >= 0x80;
      if available[0] / 16 % 8 != 0 {
        return Err(ReservedBits);
      }
      var opcode := available[0] % 16;
      var lengthTag := available[1] % 128;
      var extendedLength := match lengthTag
        case 126 => 2
        case 127 => 8
        case _ => 0;
      var masked := available[1] >= 0x80;
      if masked == clientSide {
        return Err(MaskDirection);
      }
      var headerLength := 2 + extendedLength + if masked then 4 else 0;
      if |available| < headerLength {
        return Ok(false);
      }
      var payloadLength := match lengthTag
        case 126 => FromBe(available[2..4])
        case 127 => FromBe(available[2..10])
        case value => value;
      if payloadLength > MAX_WS_FRAME_SIZE {
        return Err(FrameTooLarge);
      }
      var isControl := opcode >= 8;
      if isControl && (!fin || payloadLength > 125) {
        return Err(BadControlFrame);
      }
      var maskOffset := 2 + extendedLength;
      var mask: Mask := NO_MASK;
      if masked {
        assert |available[maskOffset..maskOffset + 4]| == 4;
        mask := available[maskOffset..maskOffset + 4];
      }
      if opcode == CONTINUATION {
        if !fragmented {
          return Err(UnexpectedContinuation);
        }
        fragmented := !fin;
      } else if opcode == BINARY {
        if fragmented {
          return Err(NestedFragment);
        }
        fragmented := !fin;
      } else if !(CLOSE <= opcode <= PONG) {
        return Err(UnsupportedOpcode);
      }
      inputOffset := inputOffset + headerLength;
      readFrame := Some(ReadFrame(opcode, payloadLength, mask, 0, if isControl then Some([]) else None));
      return Ok(true);
    }

    /** `StartFrame` where the reader is between frames: the invariant is kept, an error is one the
        received bytes call for, and a wait for more input withholds nothing. */
    method BeginFrame() returns (r: Result<bool, Violation>)
      requires ReadSide() && readFrame.None? && !closeSeen
      modifies this`inputOffset, this`readFrame, this`fragmented
      ensures ReadSide()
      ensures r == Ok(true) ==> readFrame.Some? && |Available()| < |old(Available())|
      ensures r != Ok(true) ==> readFrame.None? && Available() == old(Available())
      ensures r == Ok(false) ==> Run(clientSide, Reader(), Available()) == Outcome([], [], Waiting)
      ensures r.Err? ==> Meaning() == Outcome(data, replies, Failed(r.error))
    {
      ghost var unread, reader := Available(), Reader();
      ghost var h := ParseHeader(clientSide, fragmented, unread);
      r := StartFrame();
      hide ParseHeader;
      if h.Header? {
        TracksHeader(clientSide, Idle(false), received, reader, unread, data, replies);
        assert Available() == unread[h.size..];
      } else {
        assert Available() == unread && Reader() == reader;
        NothingWithheld();
      }
    }

    method RandomMask() returns (mask: Mask) {
      var a: byte, b: byte, c: byte, d: byte := *, *, *, *;
      mask := [a, b, c, d];
    }

    /** The octets of one final frame: header and payload together. */
    method FrameOctets(opcode: nat, payload: seq<byte>) returns (bytes: seq<byte>, ghost frame: Frame)
      requires opcode < 16 && |payload| < Span(8)
      ensures frame == Frame(true, opcode, FormFor(|payload|), frame.mask, payload)
      ensures frame.mask.Some? == clientSide && frame.WellFormed() && bytes == Wire(frame)
    {
      var maskBit := if clientSide then 0x80 else 0;
      bytes := [0x80 + opcode];
      if |payload| <= 125 {
        bytes := bytes + [maskBit + |payload|];
      } else if |payload| <= 65535 {
        bytes := bytes + [maskBit + 126] + ToBe(|payload|, 2);
      } else {
        bytes := bytes + [maskBit + 127] + ToBe(|payload|, 8);
      }
      if clientSide {
        var mask := RandomMask();
        frame := Frame(true, opcode, FormFor(|payload|), Some(mask), payload);
        bytes := bytes + mask;
        assert bytes == HeaderBytes(frame);
        bytes := bytes + Masked(mask, 0, payload);
      } else {
        frame := Frame(true, opcode, FormFor(|payload|), None, payload);
        assert bytes == HeaderBytes(frame);
        MaskedZero(payload);
        bytes := bytes + payload;
      }
    }

    method AppendFrame(opcode: nat, payload: seq<byte>, ghost origin: Origin) returns (ghost e: Entry)
      requires Framing() && Allowed(origin, opcode, payload)
      modifies this`writeBuffer, this`writeOffset, this`log
      ensures Framing()
      ensures log == old(log) + [e] && e.Valid(clientSide)
      ensures e.origin == origin && e.frame.opcode == opcode && e.frame.payload == payload
    {
      hide InStep, Wire;
      ghost var unsent := Unsent();
      if writeOffset == |writeBuffer| {
        writeBuffer, writeOffset := [], 0;
      }
      assert Unsent() == unsent;
      assert Span(8) > MAX_WS_FRAME_SIZE;
      var bytes, frame := FrameOctets(opcode, payload);
      e := Entry(origin, frame);
      writeBuffer := writeBuffer + bytes;
      assert Unsent() == unsent + Wire(frame);
      InStepGrows(clientSide, preamble, inner.sent, unsent, log, flushed, e);
      log := log + [e];
    }

    /** Queues the answer to a Close or a Ping behind whatever is still buffered. */
    method QueueAnswer(opcode: nat, payload: seq<byte>)
      requires WriteSide() && Allowed(Answer, opcode, payload)
      modifies this`writeBuffer, this`writeOffset, this`log, this`controlWritePending, this`closeQueued, this`replies
      ensures WriteSide() && controlWritePending
      ensures replies == old(replies) + [Reply(opcode, payload)]
    {
      hide InStep, Balanced;
      ghost var before := log;
      ghost var e := AppendFrame(opcode, payload, Answer);
      assert !e.origin.Payload? && e.OwnAnswer() == [Reply(opcode, payload)];
      hide Entry.Valid;
      BalancedAnswer(before, accepted, pendingBytes, replies, closeQueued, controlWritePending, flushed, e);
      controlWritePending := true;
      closeQueued := closeQueued || opcode == CLOSE;
      replies := replies + [Reply(opcode, payload)];
    }

    method FinishReadFrame()
      requires Valid() && readFrame.Some? && readFrame.value.remaining == 0
      modifies this`readFrame, this`writeBuffer, this`writeOffset, this`controlWritePending, this`closeQueued,
               this`readClosed, this`closeSeen, this`replies, this`log
      ensures Valid() && readFrame.None?
      ensures old(readClosed) ==> readClosed
      ensures readClosed && !old(readClosed) ==> closeSeen
    {
      hide WriteSide, Tracks, Run;
      var frame := readFrame.value;
      ghost var after, owed := Reader().AfterFrame(), replies + frame.Replies();
      TracksFinish(clientSide, Idle(false), received, Reader(), Available(), data, replies);
      readFrame := None;
      if frame.opcode == CLOSE {
        QueueAnswer(CLOSE, frame.control.value);
        readClosed, closeSeen := true, true;
      } else if frame.opcode == PING {
        QueueAnswer(PONG, frame.control.value);
      }
      assert Reader() == after;
      assert replies == owed;
    }

    method PollFillInput() returns (r: Poll<Result<bool, IoError>>)
      requires ReadSide()
      modifies this`input, this`inputOffset, this`received, inner`inbox, inner`calls
      ensures ReadSide()
      ensures received + inner.inbox == old(received) + old(inner.inbox)
      ensures Available() + inner.inbox == old(Available()) + old(inner.inbox)
      ensures |received| >= |old(received)|
      ensures inner.calls == old(inner.calls) + [match r
                                                 case Pending => Stalled(true)
                                                 case Ready(Err(_)) => Broken
                                                 case Ready(Ok(_)) => Received(|received| - |old(received)|)]
      ensures r == Ready(Ok(true)) ==> |received| > |old(received)| && |inner.inbox| < old(|inner.inbox|)
      ensures r != Ready(Ok(true)) ==> received == old(received) && Available() == old(Available())
      ensures r == Ready(Ok(false)) ==> inner.inbox == [] && inner.peerClosed
      ensures r.Ready? && r.value.Err? ==> r.value.error == SocketFailed
    {
      hide Tracks, Run;
      ghost var unread := Available();
      CompactInput();
      assert ReadSide();
      var polled := inner.PollRead();
      match polled
      case Pending =>
        r := Pending;
      case Ready(Err(error)) =>
        r := Ready(Err(error));
      case Ready(Ok(chunk)) =>
        if chunk == [] {
          r := Ready(Ok(false));
        } else {
          TracksMore(clientSide, Idle(false), received, Reader(), unread, data, replies, chunk);
          assert (received + chunk) + inner.inbox == received + (chunk + inner.inbox);
          assert (unread + chunk) + inner.inbox == unread + (chunk + inner.inbox);
          input, received := input + chunk, received + chunk;
          assert Available() == unread + chunk;
          r := Ready(Ok(true));
        }
    }

    method PollFlushOutput() returns (r: Poll<Result<(), IoError>>)
      requires WriteSide()
      modifies this`writeBuffer, this`writeOffset, this`flushed, inner`sent, inner`calls
      ensures WriteSide()
      ensures old(inner.sent) <= inner.sent
      ensures Succeeded(r) ==> writeBuffer == [] && flushed == |log|
      ensures !Succeeded(r) ==> flushed == old(flushed)
      ensures old(flushed) <= flushed
      // Only the socket holds it up.
      ensures RelaysFlush(old(inner.calls), inner.calls, r)
    {
      hide InStep, Balanced, Smooth, RelaysFlush;
      r := Ready(Ok(()));
      SmoothNow(inner.calls);
      RelaysMoved(inner.calls, inner.calls, r);
      while writeOffset < |writeBuffer| && Succeeded(r)
        invariant Framing() && flushed == old(flushed) && old(inner.sent) <= inner.sent
        invariant RelaysFlush(old(inner.calls), inner.calls, r)
        invariant Succeeded(r) <==> Smooth(old(inner.calls), inner.calls)
        decreases |writeBuffer| - writeOffset, Succeeded(r)
      {
        ghost var sent, unsent, calls := inner.sent, Unsent(), inner.calls;
        var polled := inner.PollWrite(writeBuffer[writeOffset..]);
        RelaysWrite(old(inner.calls), calls, |unsent|, polled);
        match polled
        case Pending =>
          r := Pending;
        case Ready(Err(error)) =>
          r := Ready(Err(error));
        case Ready(Ok(written)) =>
          if written == 0 {
            r := Ready(Err(WriteZero));
            assert inner.sent == sent;
          } else {
            RelaysMoved(old(inner.calls), inner.calls, r);
            InStepSend(clientSide, preamble, sent, unsent, log, flushed, written);
            writeOffset := writeOffset + written;
            assert Unsent() == unsent[written..];
          }
      }
      if Succeeded(r) {
        InStepFlush(clientSide, preamble, inner.sent, Unsent(), log, flushed);
        writeBuffer, writeOffset := [], 0;
        LedgerKept(|log|);
        flushed := |log|;
      }
    }

    /** Flushing more of the log leaves the ledger balanced. */
    lemma LedgerKept(more: nat)
      requires Ledger() && flushed <= more
      ensures Balanced(log, accepted, pendingBytes, replies, closeQueued, controlWritePending, more)
    {
    }

    /** What is unread adds nothing to the meaning, so nothing is being withheld. */
    lemma NothingWithheld()
      requires ReadSide()
      requires var rest := Run(clientSide, Reader(), Available()); rest.data == [] && rest.replies == []
      ensures Meaning().data == data && Meaning().replies == replies
      ensures Meaning().status == Run(clientSide, Reader(), Available()).status
    {
      TracksNow(clientSide, Idle(false), received, Reader(), Available(), data, replies);
    }

    /** Nothing unread in the middle of a payload: nothing is being withheld. */
    lemma PausedInPayload()
      requires ReadSide() && !closeSeen && readFrame.Some? && readFrame.value.remaining > 0 && Available() == []
      ensures Meaning().data == data && Meaning().replies == replies
    {
      NothingWithheld();
    }

    /** Sends the buffer if answers are waiting in it. */
    method FlushAnswers() returns (r: Poll<Result<(), IoError>>)
      requires WriteSide()
      modifies this`writeBuffer, this`writeOffset, this`flushed, this`controlWritePending, inner`sent, inner`calls
      ensures WriteSide() && old(inner.sent) <= inner.sent
      ensures RelaysFlush(old(inner.calls), inner.calls, r)
      ensures Succeeded(r) ==> !controlWritePending
      ensures r == Pending ==> controlWritePending && inner.Waiting(false)
    {
      hide InStep;
      r := Ready(Ok(()));
      if controlWritePending {
        r := PollFlushOutput();
        if Succeeded(r) {
          controlWritePending := false;
        }
      }
    }

    /** Hands out what is left of the early data. */
    method ReadEarly(capacity: nat) returns (output: seq<byte>)
      requires ReadSide() && earlyOffset < |earlyData|
      modifies this`earlyOffset, this`delivered
      ensures ReadSide() && delivered == old(delivered) + output && |output| <= capacity
      ensures capacity > 0 ==> output != []
      ensures |output| < capacity ==> earlyOffset == |earlyData|
    {
      hide Tracks;
      var count := Min(|earlyData| - earlyOffset, capacity);
      output := earlyData[earlyOffset..earlyOffset + count];
      assert earlyData[..earlyOffset] + output == earlyData[..earlyOffset + count];
      delivered := delivered + output;
      earlyOffset := earlyOffset + count;
    }

    /** Unmasks as much of the current payload as the input and, for data, the output allow. */
    method ConsumePayload(capacity: nat) returns (output: seq<byte>)
      requires ReadSide() && earlyOffset == |earlyData|
      requires !closeSeen && readFrame.Some? && readFrame.value.remaining > 0 && Available() != [] && capacity > 0
      modifies this`input, this`inputOffset, this`readFrame, this`data, this`delivered
      ensures ReadSide()
      ensures readFrame.Some? && |Available()| < |old(Available())|
      ensures delivered == old(delivered) + output && |output| <= capacity
      ensures output == [] <==> old(readFrame).value.control.Some?
      ensures |output| < capacity ==> Paused()
    {
      hide Tracks, Run, Masked;
      var frame := readFrame.value;
      var available := input[inputOffset..];
      var isControl := frame.control.Some?;
      var count := Min(frame.remaining, |available|);
      if !isControl {
        count := Min(count, capacity);
      }
      ghost var reader := Reader();
      var decoded := Masked(frame.mask, frame.maskOffset, available[..count]);
      if isControl {
        output := [];
        frame := frame.(control := Some(frame.control.value + decoded));
      } else {
        output := decoded;
      }
      TracksConsume(clientSide, Idle(false), received, reader, available, data, replies, count);
      data, delivered := data + output, delivered + output;
      inputOffset := inputOffset + count;
      assert Available() == available[count..];
      frame := frame.(remaining := frame.remaining - count, maskOffset := (frame.maskOffset + count) % 4);
      readFrame := Some(frame);
      assert frame == reader.frame.Advance(available[..count]);
      CompactInput();
    }

    /** After a Close no input is left to answer or to hand out. */
    lemma CloseCatchesUp()
      requires ReadSide() && closeSeen && earlyOffset == |earlyData|
      ensures CaughtUp()
    {
      RunFinished(clientSide, Available());
      NothingWithheld();
    }

    /** Everything the received bytes mean has been handed out, and every answer they call for queued. */
    ghost predicate CaughtUp()
      reads this`received, this`delivered, this`replies
    {
      delivered == earlyData + Meaning().data && replies == Meaning().replies
    }

    /** A pause is one on the socket: for sending an answer, or for input, when the reader has caught up
        with the received bytes. An error of the peer is one they call for, after all that precedes it;
        which failures of the socket are reported is what `Relays` says. */
    ghost predicate Explained(r: Poll<Result<(), IoError>>)
      reads this, inner
    {
      && (r == Pending ==> (inner.Waiting(false) && controlWritePending) || (inner.Waiting(true) && CaughtUp()))
      && (r.Ready? && r.value.Err? ==>
            match r.value.error
            case Protocol(violation) => CaughtUp() && Meaning().status == Failed(violation)
            case TruncatedHeader => CaughtUp() && AtEnd() && readFrame.None? && Available() != []
            case TruncatedPayload => CaughtUp() && AtEnd() && readFrame.Some? && Available() == []
            case _ => true)
    }

    /** Failing to send is no statement about the input, nor is waiting to send an answer. */
    lemma ExplainedFlush(r: Poll<Result<(), IoError>>)
      requires r == Pending ==> controlWritePending && inner.Waiting(false)
      requires r.Ready? && r.value.Err? ==> r.value.error == SocketFailed || r.value.error == WriteZero
      ensures Explained(r)
    {
    }

    /** The peer has closed and nothing it sent is left on the socket. */
    ghost predicate AtEnd()
      reads inner, this`input, this`inputOffset
    {
      inner.inbox == [] && inner.peerClosed && inputOffset <= |input|
    }

    /** Gets a frame header, or more input towards one. */
    method OpenFrame() returns (step: Step)
      requires ReadSide() && earlyOffset == |earlyData| && !readClosed && readFrame.None?
      modifies this`input, this`inputOffset, this`readFrame, this`fragmented, this`readClosed, this`received,
               inner`inbox, inner`calls
      ensures ReadSide()
      ensures if step.Stop? then Relays(old(inner.calls), inner.calls, step.r) else Smooth(old(inner.calls), inner.calls)
      ensures received + inner.inbox == old(received) + old(inner.inbox)
      ensures step.Proceed? ==>
                !readClosed && readFrame.Some? && |Available()| + |inner.inbox| < |old(Available())| + |old(inner.inbox)|
      ensures step.Again? ==>
                && !readClosed && readFrame.None?
                && |Available()| + |inner.inbox| == |old(Available())| + |old(inner.inbox)| && |inner.inbox| < |old(inner.inbox)|
      ensures step.Stop? ==>
                && Explained(step.r) && (readClosed <==> Succeeded(step.r))
                && (readClosed ==> CaughtUp() && AtEnd() && Available() == [] && readFrame.None?)
    {
      hide Tracks, Run, ParseHeader;
      var started := BeginFrame();
      match started {
      case Ok(true) =>
        return Proceed;
      case Err(violation) =>
        return Stop(Ready(Err(Protocol(violation))));
      case Ok(false) =>
        var fill := PollFillInput();
        match fill
        case Ready(Ok(true)) =>
          return Again;
        case Pending =>
          NothingWithheld();
          step := Stop(Pending);
        case Ready(Err(error)) =>
          step := Stop(Ready(Err(error)));
        case Ready(Ok(false)) =>
          NothingWithheld();
          if |input| == inputOffset {
            readClosed := true;
            step := Stop(Ready(Ok(())));
          } else {
            step := Stop(Ready(Err(TruncatedHeader)));
          }
      }
      RelaysStop(old(inner.calls), old(inner.calls), inner.calls[|inner.calls| - 1], step.r);
    }

    /** Makes sure there is some input for the payload being read. */
    method FillPayload() returns (step: Step)
      requires ReadSide() && earlyOffset == |earlyData| && !closeSeen && readFrame.Some? && readFrame.value.remaining > 0
      modifies this`input, this`inputOffset, this`received, inner`inbox, inner`calls
      ensures ReadSide()
      ensures if step.Stop? then Relays(old(inner.calls), inner.calls, step.r) else Smooth(old(inner.calls), inner.calls)
      ensures received + inner.inbox == old(received) + old(inner.inbox)
      ensures |Available()| + |inner.inbox| == |old(Available())| + |old(inner.inbox)|
      ensures step.Proceed? ==> Available() != []
      ensures step.Stop? ==> Explained(step.r) && !Succeeded(step.r)
      ensures !step.Again?
    {
      hide Tracks, Run, ParseHeader;
      if |input| > inputOffset {
        return Proceed;
      }
      var fill := PollFillInput();
      match fill {
      case Ready(Ok(true)) =>
        return Proceed;
      case Pending =>
        PausedInPayload();
        step := Stop(Pending);
      case Ready(Err(error)) =>
        step := Stop(Ready(Err(error)));
      case Ready(Ok(false)) =>
        PausedInPayload();
        step := Stop(Ready(Err(TruncatedPayload)));
      }
      RelaysStop(old(inner.calls), old(inner.calls), inner.calls[|inner.calls| - 1], step.r);
    }

    /** What has been read of the current frame has all been used. */
    ghost predicate Paused()
      reads this`input, this`inputOffset, this`readFrame
    {
      && inputOffset <= |input| && readFrame.Some?
      && (readFrame.value.remaining == 0 || Available() == [])
    }

    /** Gets input for the current frame if none is left and uses it. */
    method ReadPayload(capacity: nat) returns (step: Step, output: seq<byte>)
      requires ReadSide() && earlyOffset == |earlyData|
      requires !closeSeen && readFrame.Some? && readFrame.value.remaining > 0 && capacity > 0
      modifies this`input, this`inputOffset, this`readFrame, this`received, this`data, this`delivered, inner`inbox, inner`calls
      ensures ReadSide()
      ensures if step.Stop? then Relays(old(inner.calls), inner.calls, step.r) else Smooth(old(inner.calls), inner.calls)
      ensures delivered == old(delivered) + output && |output| <= capacity
      ensures output == [] <==> !(step.Stop? && Succeeded(step.r))
      ensures output != [] && |output| < capacity ==> Paused()
      ensures received + inner.inbox == old(received) + old(inner.inbox)
      ensures !step.Proceed?
      ensures step.Stop? ==> Explained(step.r)
      ensures step.Again? ==> readFrame.Some? && |Available()| + |inner.inbox| < |old(Available())| + |old(inner.inbox)|
    {
      hide ReadSide, Run, AtEnd, Explained, CaughtUp, Relays, Smooth;
      output := [];
      ghost var before := inner.calls;
      step := FillPayload();
      if step.Proceed? {
        output := ConsumePayload(capacity);
        step := if output == [] then Again else Stop(Ready(Ok(())));
        if output != [] {
          RelaysSmooth(before, inner.calls, step.r);
        }
        ExplainedFlush(Ready(Ok(())));
      }
    }

    /** Finishes the current frame or uses some of its payload. */
    method UseFrame(capacity: nat) returns (step: Step, output: seq<byte>)
      requires Valid() && earlyOffset == |earlyData| && !readClosed && readFrame.Some? && capacity > 0
      modifies this`input, this`inputOffset, this`readFrame, this`readClosed, this`received, this`data, this`delivered,
               this`closeSeen, this`replies, this`writeBuffer, this`writeOffset, this`controlWritePending, this`closeQueued,
               this`log, inner`inbox, inner`calls
      ensures Valid()
      ensures if step.Stop? then Relays(old(inner.calls), inner.calls, step.r) else Smooth(old(inner.calls), inner.calls)
      ensures delivered == old(delivered) + output && |output| <= capacity
      ensures output == [] <==> !(step.Stop? && Succeeded(step.r))
      ensures output != [] && |output| < capacity ==> Paused()
      ensures received + inner.inbox == old(received) + old(inner.inbox)
      ensures readClosed ==> closeSeen && CaughtUp()
      ensures !step.Proceed?
      ensures step.Stop? ==> Explained(step.r) && controlWritePending == old(controlWritePending)
      ensures step.Again? ==>
                (|old(Available())| + |old(inner.inbox)|, true decreases to |Available()| + |inner.inbox|, readFrame.Some?)
    {
      hide ReadSide, WriteSide, Tracks, Run, ParseHeader, AtEnd, Explained, CaughtUp, Paused, Relays, Smooth;
      if readFrame.value.remaining > 0 {
        step, output := ReadPayload(capacity);
        return;
      }
      FinishReadFrame();
      if closeSeen {
        CloseCatchesUp();
      }
      SmoothNow(inner.calls);
      return Again, [];
    }

    /** One round of the read loop. A round that does not return has used up input, finished a frame
        or moved bytes from the socket into the input. */
    method ReadOnce(capacity: nat) returns (step: Step, output: seq<byte>)
      requires Valid() && earlyOffset == |earlyData|
      modifies this`input, this`inputOffset, this`readFrame, this`fragmented, this`readClosed,
               this`received, this`data, this`delivered, this`closeSeen, this`replies,
               this`writeBuffer, this`writeOffset, this`controlWritePending, this`closeQueued,
               this`log, this`flushed, inner`inbox, inner`sent, inner`calls
      ensures Valid()
      ensures if step.Stop? then Relays(old(inner.calls), inner.calls, step.r) else Smooth(old(inner.calls), inner.calls)
      ensures delivered == old(delivered) + output && |output| <= capacity
      ensures step.Stop? && !Succeeded(step.r) ==> output == []
      ensures output != [] && |output| < capacity ==> Paused()
      ensures received + inner.inbox == old(received) + old(inner.inbox)
      ensures old(readClosed) ==> readClosed && output == [] && received == old(received) && replies == old(replies)
      ensures readClosed && !old(readClosed) ==>
                CaughtUp() && (closeSeen || (step.Stop? && AtEnd() && Available() == [] && readFrame.None?))
      ensures old(closeSeen) ==> closeSeen
      ensures !step.Proceed?
      ensures step.Stop? ==> Explained(step.r)
      ensures step.Stop? && Succeeded(step.r) ==> !controlWritePending && (output == [] && capacity > 0 ==> readClosed)
      ensures step.Again? ==>
                && output == []
                && (|old(Available())| + |old(inner.inbox)|, old(readFrame.Some?), |old(inner.inbox)|
                    decreases to |Available()| + |inner.inbox|, readFrame.Some?, |inner.inbox|)
    {
      hide ReadSide, WriteSide, Tracks, Run, ParseHeader, AtEnd, Explained, CaughtUp, Paused, Relays, Smooth, Socket.Waiting;
      output := [];
      ghost var before := inner.calls;
      var flush := FlushAnswers();
      ExplainedFlush(flush);
      if !Succeeded(flush) || readClosed || capacity == 0 {
        return Stop(flush), output;
      }
      if readFrame.None? {
        ghost var mid := inner.calls;
        step := OpenFrame();
        Onwards(before, mid, inner.calls, step);
        if !step.Proceed? {
          return;
        }
      }
      ghost var mid := inner.calls;
      step, output := UseFrame(capacity);
      Onwards(before, mid, inner.calls, step);
    }

    method PollRead(capacity: nat) returns (r: Poll<Result<(), IoError>>, output: seq<byte>)
      requires Valid()
      modifies this`input, this`inputOffset, this`earlyOffset, this`readFrame, this`fragmented, this`readClosed,
               this`received, this`data, this`delivered, this`closeSeen, this`replies,
               this`writeBuffer, this`writeOffset, this`controlWritePending, this`closeQueued,
               this`log, this`flushed, inner`inbox, inner`sent, inner`calls
      ensures Valid() && Explained(r)
      ensures Relays(old(inner.calls), inner.calls, r)
      ensures delivered == old(delivered) + output && |output| <= capacity
      ensures !Succeeded(r) ==> output == []
      // All of the early data that fits, or all of the received part of a frame that does.
      ensures output != [] && |output| < capacity ==> earlyOffset == |earlyData| && (old(earlyOffset) < |earlyData| || Paused())
      ensures received + inner.inbox == old(received) + old(inner.inbox)
      // The end of the stream is reported only after a Close, or when the peer left at a frame boundary.
      ensures Succeeded(r) && output == [] && capacity > 0 ==> readClosed
      ensures old(readClosed) ==> readClosed && received == old(received) && replies == old(replies)
      ensures old(readClosed) && old(earlyOffset) == |earlyData| ==> output == []
      ensures readClosed && !old(readClosed) ==>
                CaughtUp() && (closeSeen || (AtEnd() && Available() == [] && readFrame.None?))
      // Data is handed out only with every answer owed so far on the socket.
      ensures Succeeded(r) && old(earlyOffset) == |earlyData| ==> !controlWritePending
    {
      hide ReadSide, WriteSide, Run, AtEnd, Relays, Smooth;
      if earlyOffset < |earlyData| {
        output := ReadEarly(capacity);
        SmoothNow(inner.calls);
        r := Ready(Ok(()));
        RelaysSmooth(inner.calls, inner.calls, r);
        return;
      }
      output := [];
      SmoothNow(inner.calls);
      while true
        invariant Valid() && earlyOffset == |earlyData| && Smooth(old(inner.calls), inner.calls)
        invariant delivered == old(delivered) && output == []
        invariant received + inner.inbox == old(received) + old(inner.inbox)
        invariant old(readClosed) ==> readClosed && received == old(received) && replies == old(replies)
        invariant readClosed && !old(readClosed) ==> closeSeen && CaughtUp()
        decreases |Available()| + |inner.inbox|, readFrame.Some?, |inner.inbox|
      {
        ghost var mid := inner.calls;
        var step;
        step, output := ReadOnce(capacity);
        Onwards(old(inner.calls), mid, inner.calls, step);
        if step.Stop? {
          return step.r, output;
        }
      }
    }

    /** Sends what is buffered and, once all of it is on the socket, reports the pending payload. */
    method FlushPayload() returns (r: Poll<Result<nat, IoError>>)
      requires WriteSide() && pendingPayloadLen.Some?
      modifies this`pendingPayloadLen, this`accepted, this`pendingBytes,
               this`writeBuffer, this`writeOffset, this`flushed, inner`sent, inner`calls
      ensures WriteSide() && old(inner.sent) <= inner.sent && old(flushed) <= flushed
      ensures Relays(old(inner.calls), inner.calls, r)
      ensures if Succeeded(r) then
                && r.value.value == |old(pendingBytes)| && Unsent() == []
                && accepted == old(accepted) + old(pendingBytes) && pendingBytes == []
              else accepted == old(accepted) && pendingBytes == old(pendingBytes)
    {
      hide InStep, Balanced, Relays, Smooth;
      var taken := pendingPayloadLen.value;
      ghost var before := inner.calls;
      var flush := PollFlushOutput();
      match flush
      case Pending =>
        r := Pending;
        RelaysSame(before, inner.calls, flush, r);
      case Ready(Err(error)) =>
        r := Ready(Err(error));
        RelaysSame(before, inner.calls, flush, r);
      case Ready(Ok(_)) =>
        assert Unsent() == [];
        PendingAccepted();
        pendingPayloadLen, accepted, pendingBytes := None, accepted + pendingBytes, [];
        r := Ready(Ok(taken));
        RelaysSmooth(before, inner.calls, r);
    }

    lemma PendingAccepted()
      requires Balanced(log, accepted, pendingBytes, replies, closeQueued, controlWritePending, flushed)
      ensures Balanced(log, accepted + pendingBytes, [], replies, closeQueued, controlWritePending, flushed)
    {
      assert (accepted + pendingBytes) + [] == accepted + pendingBytes;
    }

    /** Frames `payload` behind whatever is still buffered and remembers it as pending. */
    method QueuePayload(payload: seq<byte>)
      requires WriteSide() && pendingPayloadLen.None? && Allowed(Payload, BINARY, payload)
      modifies this`writeBuffer, this`writeOffset, this`log, this`pendingPayloadLen, this`pendingBytes
      ensures WriteSide() && pendingPayloadLen.Some? && pendingBytes == payload
      ensures old(log) <= log && |log| == |old(log)| + 1 && log[|old(log)|].origin == Payload
    {
      hide InStep, Balanced;
      ghost var before := log;
      ghost var e := AppendFrame(BINARY, payload, Payload);
      BalancedPayload(before, accepted, replies, closeQueued, controlWritePending, flushed, e);
      pendingPayloadLen, pendingBytes := Some(|payload|), payload;
    }

    /** Accepts up to one frame of `bytes`. A call that finds a frame still on its way reports the
        length of that frame instead, whatever it is given. */
    method PollWrite(bytes: seq<byte>) returns (r: Poll<Result<nat, IoError>>)
      requires Valid()
      modifies this`pendingPayloadLen, this`accepted, this`pendingBytes,
               this`writeBuffer, this`writeOffset, this`log, this`flushed, inner`sent, inner`calls
      ensures Valid() && old(inner.sent) <= inner.sent
      ensures Relays(old(inner.calls), inner.calls, r)
      ensures bytes == [] ==> Succeeded(r) && inner.calls == old(inner.calls)
      // One frame at most, and only behind frames that are all on the socket.
      ensures old(log) <= log && |log| <= |old(log)| + 1
      ensures |log| > |old(log)| ==> log[|old(log)|].origin == Payload && |old(log)| <= flushed
      ensures Succeeded(r) ==>
                var n := r.value.value;
                if bytes == [] then n == 0 && accepted == old(accepted) && pendingBytes == old(pendingBytes)
                else
                  && n > 0 && pendingBytes == [] && Unsent() == []
                  && if old(pendingBytes) != [] then
                       n == |old(pendingBytes)| && accepted == old(accepted) + old(pendingBytes)
                     else
                       n == Min(|bytes|, MAX_WS_FRAME_SIZE) && accepted == old(accepted) + bytes[..n]
      ensures !Succeeded(r) ==>
                && accepted == old(accepted)
                && (pendingBytes == old(pendingBytes)
                    || (old(pendingBytes) == [] && pendingBytes == bytes[..Min(|bytes|, MAX_WS_FRAME_SIZE)]))
    {
      hide InStep, Balanced, ReadSide, Framing, LogValid, Relays, Smooth;
      ghost var before := inner.calls;
      if bytes == [] {
        SmoothNow(before);
        r := Ready(Ok(0));
        RelaysSmooth(before, before, r);
        return;
      }
      if pendingPayloadLen.Some? {
        r := FlushPayload();
        return;
      }
      var flush := PollFlushOutput();
      ghost var mid := inner.calls;
      match flush {
        case Pending =>
          r := Pending;
          RelaysSame(before, mid, flush, r);
          return;
        case Ready(Err(error)) =>
          r := Ready(Err(error));
          RelaysSame(before, mid, flush, r);
          return;
        case Ready(Ok(_)) =>
      }
      var taken := Min(|bytes|, MAX_WS_FRAME_SIZE);
      QueuePayload(bytes[..taken]);
      r := FlushPayload();
      RelaysLater(before, mid, inner.calls, r);
    }

    /** Of the socket's own flush only the result is modelled. */
    method PollFlush(socket: Poll<Result<(), IoError>>) returns (r: Poll<Result<(), IoError>>)
      requires Valid()
      modifies this`writeBuffer, this`writeOffset, this`flushed, inner`sent, inner`calls
      ensures Valid() && old(inner.sent) <= inner.sent
      ensures if Smooth(old(inner.calls), inner.calls) then
                r == socket && inner.sent == preamble + LogBytes(clientSide, log)
              else !Succeeded(r) && Relays(old(inner.calls), inner.calls, r)
    {
      hide Balanced, Tracks, Smooth, Relays;
      r := PollFlushOutput();
      if Succeeded(r) {
        assert inner.sent == inner.sent + Unsent();
        r := socket;
      }
    }

    /** Queues one Close unless one is queued already. */
    method QueueGoodbye()
      requires WriteSide() && !closeQueued
      modifies this`writeBuffer, this`writeOffset, this`log, this`closeQueued
      ensures WriteSide() && closeQueued
      ensures exists e :: log == old(log) + [e] && e.origin == Goodbye
    {
      hide InStep, Balanced;
      ghost var before := log;
      ghost var e := AppendFrame(CLOSE, [], Goodbye);
      BalancedAnswer(before, accepted, pendingBytes, replies, closeQueued, controlWritePending, flushed, e);
      assert replies + [] == replies;
      closeQueued := true;
    }

    method PollShutdown(socket: Poll<Result<(), IoError>>) returns (r: Poll<Result<(), IoError>>)
      requires Valid()
      modifies this`writeBuffer, this`writeOffset, this`log, this`closeQueued, this`flushed, inner`sent, inner`calls
      ensures Valid() && old(inner.sent) <= inner.sent && closeQueued
      ensures if old(closeQueued) then log == old(log) else exists e :: log == old(log) + [e] && e.origin == Goodbye
      ensures if Smooth(old(inner.calls), inner.calls) then
                r == socket && inner.sent == preamble + LogBytes(clientSide, log)
              else !Succeeded(r) && Relays(old(inner.calls), inner.calls, r)
    {
      hide Balanced, Tracks, Smooth, Relays;
      if !closeQueued {
        QueueGoodbye();
      }
      r := PollFlushOutput();
      if Succeeded(r) {
        assert inner.sent == inner.sent + Unsent();
        r := socket;
      }
    }
  }
}
