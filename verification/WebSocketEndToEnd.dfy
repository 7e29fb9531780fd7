/**
 Two streams joined by sockets: what one side accepts is what the other side hands out. Also what
 one stream has handed out, told in whole frames of the grammar instead of in bytes.
 */
module WebSocketEndToEnd {
  import opened Wrappers
  import opened Bytes
  import opened WebSocketFrames
  import opened WebSocketReader
  import opened WebSocketStreams

  lemma LastEntry(clientSide: bool, log: seq<Entry>)
    requires LogValid(clientSide, log) && !LogHasClose(log) && log != []
    ensures var init, e := log[..|log| - 1], log[|log| - 1];
            && LogValid(clientSide, init) && e.Valid(clientSide) && !LogHasClose(init) && e.frame.opcode != CLOSE
            && LogBytes(clientSide, log) == LogBytes(clientSide, init) + Wire(e.frame)
            && Payloads(log) == Payloads(init) + e.OwnPayload()
  {
    hide Wire, Entry.Valid, Entry.OwnPayload;
  }

  /** One entry of a log, read by the other side. */
  lemma RunEntry(readerSide: bool, e: Entry, rest: seq<byte>)
    requires e.Valid(!readerSide) && e.frame.opcode != CLOSE
    ensures Run(readerSide, Idle(false), Wire(e.frame) + rest) == Run(readerSide, Idle(false), rest).After(e.OwnPayload(), [])
  {
    hide Run, Wire;
    RunFrame(readerSide, false, e.frame, rest);
    assert OwnData(e.frame) == e.OwnPayload() && AnswerTo(e.frame) == [] && Next(false, e.frame) == Idle(false);
  }

  /** Everything written without a Close reads back as the application data alone. */
  lemma {:induction false} RunLog(readerSide: bool, log: seq<Entry>, rest: seq<byte>)
    requires LogValid(!readerSide, log) && !LogHasClose(log)
    ensures Run(readerSide, Idle(false), LogBytes(!readerSide, log) + rest)
         == Run(readerSide, Idle(false), rest).After(Payloads(log), [])
  {
    if log == [] {
      assert LogBytes(!readerSide, log) + rest == rest;
      assert [] + Run(readerSide, Idle(false), rest).data == Run(readerSide, Idle(false), rest).data;
    } else {
      hide Run, Wire, LogBytes, Payloads, LogValid, LogHasClose, Entry.Valid, Entry.OwnPayload, Outcome.After;
      var init, e := log[..|log| - 1], log[|log| - 1];
      LastEntry(!readerSide, log);
      Regroup(LogBytes(!readerSide, init), Wire(e.frame), rest);
      RunLog(readerSide, init, Wire(e.frame) + rest);
      RunEntry(readerSide, e, rest);
      NoAnswers(Run(readerSide, Idle(false), rest), Payloads(init), e.OwnPayload());
    }
  }

  lemma Regroup(a: seq<byte>, b: seq<byte>, c: seq<byte>)
    ensures (a + b) + c == a + (b + c)
  {
  }

  lemma NoAnswers(o: Outcome, before: seq<byte>, own: seq<byte>)
    ensures o.After(own, []).After(before, []) == o.After(before + own, [])
  {
    AfterAfter(o, before, [], own, []);
  }

  /** With any first part of what the writer put on its socket received, and no Close sent, the
      reader has handed out a first part of what the writer's caller wrote, and has met no error. */
  lemma Delivery(writer: WebSocketStream, reader: WebSocketStream)
    requires writer.Valid() && reader.Valid() && writer.clientSide != reader.clientSide
    requires !writer.closeQueued
    requires writer.preamble + reader.received <= writer.inner.sent
    ensures reader.delivered <= reader.earlyData + (writer.accepted + writer.pendingBytes)
    ensures reader.Meaning().status == Waiting && !reader.closeSeen && reader.replies == []
  {
    var wire := LogBytes(writer.clientSide, writer.log);
    var sent := writer.inner.sent;
    var all := reader.received;
    assert sent <= writer.preamble + wire by {
      assert sent + writer.Unsent() == writer.preamble + wire;
    }
    assert all <= wire by {
      var n := |writer.preamble|;
      assert all == (writer.preamble + all)[n..] && (writer.preamble + wire)[n..] == wire;
      assert (writer.preamble + all)[..|writer.preamble + all|] == (writer.preamble + wire)[..|writer.preamble + all|];
    }
    Prefixes(reader.clientSide, writer.log, all);
    ReaderGives(reader);
  }

  /** A reader that has received everything the writer sent, all it accepted, and pauses has handed it
      all out. `Explained` is what `PollRead` leaves behind when it pauses. */
  lemma CompleteDelivery(writer: WebSocketStream, reader: WebSocketStream)
    requires writer.Valid() && reader.Valid() && writer.clientSide != reader.clientSide
    requires !writer.closeQueued && writer.Unsent() == []
    requires writer.preamble + reader.received == writer.inner.sent
    requires reader.Explained(Pending)
    ensures reader.delivered == reader.earlyData + (writer.accepted + writer.pendingBytes)
    ensures reader.replies == []
  {
    var wire := LogBytes(writer.clientSide, writer.log);
    assert writer.inner.sent == writer.preamble + wire;
    assert reader.received == wire by {
      assert reader.received == (writer.preamble + reader.received)[|writer.preamble|..];
      assert wire == (writer.preamble + wire)[|writer.preamble|..];
    }
    RunLog(reader.clientSide, writer.log, []);
    assert wire + [] == wire;
    ReaderGives(reader);
    assert reader.replies == [];
  }

  /** A poll of the reader while the writer's bytes are under way: no error of the protocol, and at a
      pause with nothing left to receive exactly what the writer accepted has been handed out. */
  method PollDelivers(writer: WebSocketStream, reader: WebSocketStream, capacity: nat)
    returns (r: Poll<Result<(), IoError>>, output: seq<byte>)
    requires writer.Valid() && reader.Valid() && writer.clientSide != reader.clientSide
    requires writer != reader && writer.inner != reader.inner
    requires !writer.closeQueued
    requires writer.preamble + (reader.received + reader.inner.inbox) <= writer.inner.sent
    modifies reader, reader.inner
    ensures writer.Valid() && reader.Valid()
    ensures writer.preamble + (reader.received + reader.inner.inbox) <= writer.inner.sent
    ensures r.Ready? && r.value.Err? ==> !r.value.error.Protocol?
    ensures r == Pending && writer.Unsent() == [] && writer.preamble + reader.received == writer.inner.sent ==>
      reader.delivered == reader.earlyData + (writer.accepted + writer.pendingBytes)
  {
    hide Run, Tracks, LogBytes, InStep, Balanced;
    hide WebSocketStream.ReadSide, WebSocketStream.Ledger, WebSocketStream.Explained, WebSocketStream.CaughtUp;
    r, output := reader.PollRead(capacity);
    NoViolation(reader, r);
    var sent := writer.preamble + (reader.received + reader.inner.inbox);
    assert writer.preamble + reader.received <= sent;
    Delivery(writer, reader);
    if r == Pending && writer.Unsent() == [] && writer.preamble + reader.received == writer.inner.sent {
      CompleteDelivery(writer, reader);
    }
  }

  lemma NoViolation(reader: WebSocketStream, r: Poll<Result<(), IoError>>)
    requires reader.Explained(r)
    ensures reader.Meaning().status == Waiting ==> !(r.Ready? && r.value.Err? && r.value.error.Protocol?)
  {
  }

  lemma Prefixes(readerSide: bool, log: seq<Entry>, all: seq<byte>)
    requires LogValid(!readerSide, log) && !LogHasClose(log)
    requires all <= LogBytes(!readerSide, log)
    ensures var o := Run(readerSide, Idle(false), all);
            o.data <= Payloads(log) && o.replies == [] && o.status == Waiting
  {
    var wire := LogBytes(!readerSide, log);
    RunLog(readerSide, log, []);
    assert wire + [] == wire;
    RunGrows(readerSide, Idle(false), all, wire[|all|..]);
    assert all + wire[|all|..] == wire;
  }

  lemma ReaderGives(reader: WebSocketStream)
    requires reader.ReadSide()
    ensures reader.data <= reader.Meaning().data && reader.replies <= reader.Meaning().replies
    ensures reader.delivered <= reader.earlyData + reader.Meaning().data
    ensures reader.closeSeen ==> reader.Meaning().status == Closed && reader.replies == reader.Meaning().replies
  {
    hide Run;
    RunFinished(reader.clientSide, reader.Available());
    TracksNow(reader.clientSide, Idle(false), reader.received, reader.Reader(), reader.Available(), reader.data, reader.replies);
  }

  /** The input is acceptable frames and a rest without a whole one. What has been handed out is a
      first part of the early data and the payloads of the data frames before the first Close, with
      at most the rest's own data after them; Pings before that Close have been answered once each, in
      order, and the Close echoed, up to where the reader has got. Where it has caught up, as at every
      pause for input, every Ping has been answered and all data handed out; after a Close every answer owed is. */
  lemma DeliveredInFrames(w: WebSocketStream) returns (fs: seq<Frame>, tail: seq<byte>)
    requires w.ReadSide()
    ensures Conversation(w.clientSide, false, fs) && forall f <- fs :: f.WellFormed()
    ensures w.received == WireAll(fs) + tail
    ensures HasClose(fs) || Incomplete(w.clientSide, OpenAfter(false, fs), tail)
    ensures w.delivered <= w.earlyData + (DataOf(fs) + Run(w.clientSide, EndOf(false, fs), tail).data)
    ensures w.replies <= RepliesTo(fs)
    ensures w.closeSeen ==> HasClose(fs) && w.replies == RepliesTo(fs)
    ensures w.CaughtUp() ==>
      && w.replies == RepliesTo(fs)
      && w.delivered == w.earlyData + (DataOf(fs) + Run(w.clientSide, EndOf(false, fs), tail).data)
  {
    fs, tail := Decompose(w.clientSide, false, w.received);
    RunConversation(w.clientSide, false, fs, tail);
    ReaderGives(w);
    RestOwesNothing(w.clientSide, false, fs, tail);
    assert RepliesTo(fs) + [] == RepliesTo(fs);
  }

  lemma RestOwesNothing(clientSide: bool, fragmented: bool, fs: seq<Frame>, tail: seq<byte>)
    requires HasClose(fs) || Incomplete(clientSide, OpenAfter(fragmented, fs), tail)
    ensures var o := Run(clientSide, EndOf(fragmented, fs), tail);
            o.replies == [] && (o.status == Closed ==> HasClose(fs))
  {
    if !HasClose(fs) {
      var h := ParseHeader(clientSide, OpenAfter(fragmented, fs), tail);
      if h.Header? {
        var rest := tail[h.size..];
        var r := Opened(h);
        if rest != [] {
          assert r.frame.Advance(rest[..|rest|]).remaining > 0;
          assert rest[|rest|..] == [] && rest[..|rest|] == rest;
          RunPiecewise(clientSide, r, rest, |rest|);
        }
      }
    }
  }
}
