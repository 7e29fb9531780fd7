/** AnyTLS frames and the padding writer: whatever the scheme and the random draws, the peer finds the
    queued frames with nothing but whole waste frames between them. */
module AnyTlsPadding {
  import opened Wrappers
  import opened Arithmetic
  import opened Bytes

  const CMD_WASTE: byte := 0
  const MAX_FRAME_SIZE: nat := 65535
  const HEADER_SIZE: nat := 7

  datatype Frame = Frame(command: byte, streamId: nat, data: seq<byte>) {
    predicate Valid() {
      streamId < Span(4) && |data| <= MAX_FRAME_SIZE
    }
  }

  function EncodeFrame(f: Frame): (s: seq<byte>)
    ensures |s| == HEADER_SIZE + |f.data|
  {
    [f.command] + ToBe(f.streamId, 4) + ToBe(|f.data|, 2) + f.data
  }

  // ---- The peer ----

  /** One frame and what follows it; None while the frame is not complete. */
  function ReadFrame(s: seq<byte>): (r: Option<(Frame, seq<byte>)>)
    ensures r.Some? ==> |r.value.1| + HEADER_SIZE <= |s|
  {
    if |s| < HEADER_SIZE then None
    else
      var length := FromBe(s[5..7]);
      if |s| < HEADER_SIZE + length then None
      else Some((Frame(s[0], FromBe(s[1..5]), s[7..7 + length]), s[7 + length..]))
  }

  /** All complete frames, in order. */
  function ReadAll(s: seq<byte>): seq<Frame>
    decreases |s|
  {
    var first := ReadFrame(s);
    if first.None? then [] else [first.value.0] + ReadAll(first.value.1)
  }

  /** The bytes behind the last complete frame. */
  function Unread(s: seq<byte>): seq<byte>
    decreases |s|
  {
    var first := ReadFrame(s);
    if first.None? then s else Unread(first.value.1)
  }

  /** What the peer acts on: waste frames, those of command 0, are ignored. */
  function Useful(frames: seq<Frame>): seq<Frame> {
    if frames == [] then []
    else Useful(frames[..|frames| - 1]) + if frames[|frames| - 1].command == 0 then [] else [frames[|frames| - 1]]
  }

  lemma {:induction false} UsefulConcat(a: seq<Frame>, b: seq<Frame>)
    ensures Useful(a + b) == Useful(a) + Useful(b)
  {
    if b == [] {
      assert a + b == a;
    } else {
      var init, last := b[..|b| - 1], b[|b| - 1];
      UsefulConcat(a, init);
      assert (a + b)[..|a + b| - 1] == a + init && (a + b)[|a + b| - 1] == last;
    }
  }

  /** Of frames without waste all are useful, and waste alone is useless. */
  lemma {:induction false} UsefulMeaning(frames: seq<Frame>)
    ensures (forall i | 0 <= i < |frames| :: frames[i].command != 0) ==> Useful(frames) == frames
    ensures (forall i | 0 <= i < |frames| :: frames[i].command == 0) ==> Useful(frames) == []
  {
    if frames != [] {
      var init := frames[..|frames| - 1];
      UsefulMeaning(init);
      assert forall i | 0 <= i < |init| :: init[i] == frames[i];
      assert frames == init + [frames[|frames| - 1]];
    }
  }

  lemma ReadEncoded(f: Frame, rest: seq<byte>)
    requires f.Valid()
    ensures ReadFrame(EncodeFrame(f) + rest) == Some((f, rest))
  {
    var s := EncodeFrame(f) + rest;
    var id, length := ToBe(f.streamId, 4), ToBe(|f.data|, 2);
    assert Span(2) == 65536;
    FromBeToBe(f.streamId, 4);
    FromBeToBe(|f.data|, 2);
    hide ToBe, FromBe, Span;
    assert s == [f.command] + id + length + (f.data + rest);
    assert s[1..5] == id && s[5..7] == length && s[7..] == f.data + rest;
    assert s[7..7 + |f.data|] == f.data && s[7 + |f.data|..] == rest;
  }

  /** Reading is undisturbed by what follows: complete frames first, then the rest with more behind. */
  lemma {:induction false} ReadAllAppend(s: seq<byte>, t: seq<byte>)
    ensures ReadAll(s + t) == ReadAll(s) + ReadAll(Unread(s) + t)
    ensures Unread(s + t) == Unread(Unread(s) + t)
    decreases |s|
  {
    var first := ReadFrame(s);
    if first.Some? {
      ReadFrameAppend(s, t);
      ReadAllAppend(first.value.1, t);
    }
  }

  lemma ReadFrameAppend(s: seq<byte>, t: seq<byte>)
    requires ReadFrame(s).Some?
    ensures ReadFrame(s + t) == Some((ReadFrame(s).value.0, ReadFrame(s).value.1 + t))
  {
    var length := FromBe(s[5..7]);
    assert (s + t)[5..7] == s[5..7] && (s + t)[1..5] == s[1..5];
    assert (s + t)[7..7 + length] == s[7..7 + length] && (s + t)[7 + length..] == s[7 + length..] + t;
  }

  // ---- Waste ----

  function Waste(length: nat): Frame {
    Frame(CMD_WASTE, 0, seq(length, _ => 0))
  }

  /** A waste frame's octets: command 0, stream 0, the length, and zeros. */
  lemma WasteOctets(length: nat)
    ensures EncodeFrame(Waste(length)) == [0] + [0, 0, 0, 0] + ToBe(length, 2) + seq(length, _ => 0)
  {
    assert ToBe(0, 1) == [0];
    assert ToBe(0, 2) == [0, 0];
    assert ToBe(0, 3) == [0, 0, 0];
    assert ToBe(0, 4) == [0, 0, 0, 0];
  }

  /** Waste frames of the given lengths, one after the other. */
  function WasteBytes(lengths: seq<nat>): seq<byte> {
    if lengths == [] then [] else WasteBytes(lengths[..|lengths| - 1]) + EncodeFrame(Waste(lengths[|lengths| - 1]))
  }

  predicate WasteFits(lengths: seq<nat>) {
    forall i | 0 <= i < |lengths| :: lengths[i] <= MAX_FRAME_SIZE
  }

  lemma WasteSnoc(lengths: seq<nat>, n: nat)
    ensures WasteBytes(lengths + [n]) == WasteBytes(lengths) + EncodeFrame(Waste(n))
  {
    assert (lengths + [n])[..|lengths|] == lengths;
  }

  lemma {:induction false} WasteConcat(a: seq<nat>, b: seq<nat>)
    ensures WasteBytes(a + b) == WasteBytes(a) + WasteBytes(b)
  {
    hide EncodeFrame;
    if b == [] {
      assert a + b == a;
    } else {
      var init, n := b[..|b| - 1], b[|b| - 1];
      WasteConcat(a, init);
      assert a + b == (a + init) + [n];
      WasteSnoc(a + init, n);
      var last := EncodeFrame(Waste(n));
      assert (WasteBytes(a) + WasteBytes(init)) + last == WasteBytes(a) + (WasteBytes(init) + last);
    }
  }

  /** Whole waste frames add nothing the peer acts on. */
  lemma {:induction false} WasteUseless(lengths: seq<nat>)
    requires WasteFits(lengths)
    ensures Useful(ReadAll(WasteBytes(lengths))) == [] && Unread(WasteBytes(lengths)) == []
  {
    if lengths != [] {
      var init, n := lengths[..|lengths| - 1], lengths[|lengths| - 1];
      WasteUseless(init);
      var last := EncodeFrame(Waste(n));
      assert Span(4) > 0;
      OneFrame(Waste(n));
      ReadAllAppend(WasteBytes(init), last);
      assert [] + last == last;
      UsefulConcat(ReadAll(WasteBytes(init)), [Waste(n)]);
      assert [Waste(n)][..0] == [];
    }
  }

  lemma OneFrame(f: Frame)
    requires f.Valid()
    ensures ReadAll(EncodeFrame(f)) == [f] && Unread(EncodeFrame(f)) == []
  {
    ReadEncoded(f, []);
    assert EncodeFrame(f) + [] == EncodeFrame(f);
  }

  /** Fills a record up to less than one header short of its target. */
  method AppendWaste(record: seq<byte>, target: nat) returns (filled: seq<byte>, ghost lengths: seq<nat>)
    requires |record| <= target
    ensures filled == record + WasteBytes(lengths) && WasteFits(lengths)
    ensures |filled| <= target < |filled| + HEADER_SIZE
  {
    hide EncodeFrame, WasteBytes;
    NoWaste();
    filled, lengths := record, [];
    while |filled| + HEADER_SIZE <= target
      invariant filled == record + WasteBytes(lengths) && WasteFits(lengths)
      invariant |filled| <= target
      decreases target - |filled|
    {
      var length := Min(target - |filled| - HEADER_SIZE, MAX_FRAME_SIZE);
      WasteSnoc(lengths, length);
      var frame := EncodeFrame(Waste(length));
      assert record + (WasteBytes(lengths) + frame) == (record + WasteBytes(lengths)) + frame;
      filled := filled + frame;
      lengths := lengths + [length];
    }
  }

  // ---- The writer ----

  datatype Instruction = Range(min: nat, max: nat) | Check

  datatype Scheme = Scheme(stop: nat, rules: map<nat, seq<Instruction>>)

  /** A draw between the bounds, the upper one excluded unless they are equal. */
  method RandomRange(min: nat, max: nat) returns (r: nat)
    ensures if min >= max then r == min else min <= r < max
  {
    r := *;
    if min >= max || !(min <= r < max) {
      r := min;
    }
  }

  /** A record the padding produced for an instruction, with the size that was drawn for it. */
  datatype Record = Record(instruction: Instruction, target: nat, bytes: seq<byte>) {
    /** The draw lies between the instruction's bounds, and the record is full but for less than a header. */
    predicate Sized() {
      && instruction.Range?
      && (if instruction.min >= instruction.max then target == instruction.min
          else instruction.min <= target < instruction.max)
      && |bytes| <= target < |bytes| + HEADER_SIZE
    }
  }

  predicate AllSized(records: seq<Record>) {
    forall i | 0 <= i < |records| :: records[i].Sized()
  }

  function RecordBytes(records: seq<Record>): seq<byte> {
    if records == [] then [] else RecordBytes(records[..|records| - 1]) + records[|records| - 1].bytes
  }

  /** The instructions records were made for. */
  function Served(records: seq<Record>): seq<Instruction> {
    seq(|records|, i requires 0 <= i < |records| => records[i].instruction)
  }

  /** The instructions that call for a record. */
  function Ranges(instructions: seq<Instruction>): seq<Instruction> {
    if instructions == [] then []
    else
      var last := instructions[|instructions| - 1];
      Ranges(instructions[..|instructions| - 1]) + if last.Range? then [last] else []
  }

  /** The instructions for the packet with this number. */
  function InstructionsFor(scheme: Scheme, index: nat): seq<Instruction> {
    if index < scheme.stop && index in scheme.rules then scheme.rules[index] else []
  }

  /** The records are those of the first `used` instructions, each of the right size. */
  ghost predicate Made(records: seq<Record>, instructions: seq<Instruction>, used: nat) {
    used <= |instructions| && AllSized(records) && Served(records) == Ranges(instructions[..used])
  }

  lemma MadeOne(records: seq<Record>, instructions: seq<Instruction>, used: nat, record: Record)
    requires Made(records, instructions, used) && used < |instructions|
    requires record.Sized() && record.instruction == instructions[used]
    ensures Made(records + [record], instructions, used + 1)
    ensures RecordBytes(records + [record]) == RecordBytes(records) + record.bytes
  {
    assert (records + [record])[..|records|] == records;
    assert instructions[..used + 1][..used] == instructions[..used];
    assert Served(records + [record]) == Served(records) + [record.instruction];
  }

  function AllButLast(records: seq<Record>): seq<Record> {
    if records == [] then [] else records[..|records| - 1]
  }

  /** The sizes drawn for the records, all together. */
  function Targets(records: seq<Record>): nat {
    if records == [] then 0 else Targets(records[..|records| - 1]) + records[|records| - 1].target
  }

  /** The sizes drawn before instruction `i`: those of the records the instructions in front of it made. */
  function TargetsBefore(records: seq<Record>, instructions: seq<Instruction>, i: nat): nat
    requires i <= |instructions|
  {
    Targets(records[..Min(|records|, |Ranges(instructions[..i])|)])
  }

  /** No check among the first `used` instructions found a packet of this size complete. */
  ghost predicate Unfinished(records: seq<Record>, instructions: seq<Instruction>, used: nat, size: nat) {
    && used <= |instructions|
    && forall i | 0 <= i < used && instructions[i].Check? :: TargetsBefore(records, instructions, i) < size
  }

  lemma MadeCount(records: seq<Record>, instructions: seq<Instruction>, used: nat)
    requires Made(records, instructions, used)
    ensures TargetsBefore(records, instructions, used) == Targets(records)
    ensures |records| == |Ranges(instructions[..used])|
  {
    assert |Served(records)| == |records|;
    assert records[..|records|] == records;
  }

  lemma {:induction false} RangesGrow(instructions: seq<Instruction>, i: nat, j: nat)
    requires i <= j <= |instructions|
    ensures |Ranges(instructions[..i])| <= |Ranges(instructions[..j])|
  {
    if i < j {
      assert instructions[..j][..j - 1] == instructions[..j - 1];
      RangesGrow(instructions, i, j - 1);
    }
  }

  /** A new record changes nothing about the checks before it. */
  lemma UnfinishedOne(records: seq<Record>, instructions: seq<Instruction>, used: nat, size: nat, record: Record)
    requires Made(records, instructions, used) && Unfinished(records, instructions, used, size)
    requires used < |instructions| && instructions[used].Range?
    ensures Unfinished(records + [record], instructions, used + 1, size)
    ensures Targets(records + [record]) == Targets(records) + record.target
  {
    var later := records + [record];
    assert later[..|records|] == records;
    MadeCount(records, instructions, used);
    forall i | 0 <= i < used + 1 && instructions[i].Check? ensures TargetsBefore(later, instructions, i) < size {
      RangesGrow(instructions, i, used);
      var k := |Ranges(instructions[..i])|;
      assert later[..k] == records[..k];
      assert TargetsBefore(records, instructions, i) < size;
    }
  }

  /** Where the padding of a packet stands: the first `used` instructions have made the records, which
      hold the first `offset` bytes of the packet and then waste. */
  ghost predicate Progress(packet: seq<byte>, instructions: seq<Instruction>, offset: nat, waste: seq<nat>,
                           made: seq<Record>, used: nat) {
    && offset == Min(|packet|, Targets(made))
    && WasteFits(waste) && (waste != [] ==> offset == |packet|)
    && RecordBytes(made) == packet[..offset] + WasteBytes(waste)
    && Made(made, instructions, used) && Unfinished(made, instructions, used, |packet|)
  }

  lemma NoProgress(packet: seq<byte>, instructions: seq<Instruction>)
    ensures Progress(packet, instructions, 0, [], [], 0) && RecordBytes([]) == []
  {
  }

  lemma PassedCheck(packet: seq<byte>, instructions: seq<Instruction>, offset: nat, waste: seq<nat>,
                    made: seq<Record>, used: nat)
    requires Progress(packet, instructions, offset, waste, made, used)
    requires used < |instructions| && instructions[used].Check? && offset < |packet|
    ensures Progress(packet, instructions, offset, waste, made, used + 1)
  {
    hide RecordBytes, WasteBytes, Targets;
    assert instructions[..used + 1][..used] == instructions[..used];
    MadeCount(made, instructions, used);
  }

  lemma RecordMade(packet: seq<byte>, instructions: seq<Instruction>, offset: nat, waste: seq<nat>,
                   made: seq<Record>, used: nat, one: Record, lengths: seq<nat>)
    requires Progress(packet, instructions, offset, waste, made, used)
    requires used < |instructions| && one.instruction == instructions[used] && one.Sized() && WasteFits(lengths)
    requires one.bytes == packet[offset..offset + Min(|packet| - offset, one.target)] + WasteBytes(lengths)
    ensures offset + Min(|packet| - offset, one.target) <= |packet|
    ensures Progress(packet, instructions, offset + Min(|packet| - offset, one.target), waste + lengths, made + [one], used + 1)
    ensures RecordBytes(made + [one]) == RecordBytes(made) + one.bytes && AllButLast(made + [one]) == made
  {
    hide RecordBytes, WasteBytes, Targets, Made, Unfinished;
    UnfinishedOne(made, instructions, used, |packet|, one);
    MadeOne(made, instructions, used, one);
    RecordGrows(packet, offset, offset + Min(|packet| - offset, one.target), waste, lengths, one.bytes, one.target);
  }

  /** What writing a packet puts behind `before`: the records of the first `used` instructions, then the
      part of the packet that their sizes leave. Where instructions stay unused, the next one is a check
      and the packet is complete; no earlier check found it so. A write that breaks ends inside the last
      record or, with all instructions used, inside that part. */
  ghost predicate Padded(packet: seq<byte>, instructions: seq<Instruction>, made: seq<Record>, used: nat,
                         before: seq<byte>, after: seq<byte>, ok: bool) {
    var written := before + RecordBytes(made);
    var rest := packet[Min(|packet|, Targets(made))..];
    && Made(made, instructions, used) && Unfinished(made, instructions, used, |packet|)
    && if ok then
         && after == written + rest
         && (used < |instructions| ==> instructions[used].Check? && Targets(made) >= |packet|)
       else
         && before + RecordBytes(AllButLast(made)) <= after <= written + rest
         && (used < |instructions| ==> after <= written)
  }

  class FrameWriter {
    var sent: seq<byte>
    var packetIndex: nat
    var broken: bool
    /** The frames handed to the writer, and the bytes it meant to send for them. */
    ghost var queued: seq<Frame>
    ghost var whole: seq<byte>

    ghost predicate Valid()
      reads this
    {
      && sent <= whole
      && (!broken ==> sent == whole)
      && Unread(whole) == []
      && Useful(ReadAll(whole)) == Useful(queued)
    }

    constructor ()
      ensures Valid() && !broken && queued == [] && sent == [] && packetIndex == 1
    {
      sent, packetIndex, broken := [], 1, false;
      queued, whole := [], [];
    }

    /** The transport takes everything, or breaks after any part of it. */
    method WriteAll(bytes: seq<byte>) returns (ok: bool)
      requires !broken
      modifies this`sent, this`broken
      ensures ok ==> sent == old(sent) + bytes && !broken
      ensures !ok ==> broken && old(sent) <= sent <= old(sent) + bytes
    {
      var k: nat;
      k, ok := *, *;
      if ok {
        sent := sent + bytes;
      } else {
        broken := true;
        sent := sent + bytes[..if k <= |bytes| then k else 0];
      }
    }

    /** Writes one frame, cut and filled up as the scheme asks. The peer's view stays the frames queued
        so far; after a broken write it is a first part of them. What goes out are the records `made` for
        the first `used` instructions of the packet and then what they leave of the frame. The instructions
        after the first check that finds the frame complete are not used, and no others are left out. */
    method WritePaddedFrame(frame: Frame, scheme: Scheme) returns (ok: bool, ghost made: seq<Record>, ghost used: nat)
      requires Valid() && !broken && frame.streamId < Span(4)
      modifies this
      ensures Valid()
      ensures if |frame.data| > MAX_FRAME_SIZE then
                !ok && !broken && sent == old(sent) && queued == old(queued) && packetIndex == old(packetIndex)
              else
                && ok == !broken && queued == old(queued) + [frame] && packetIndex == old(packetIndex) + 1
                && Padded(EncodeFrame(frame), InstructionsFor(scheme, old(packetIndex)), made, used, old(sent), sent, ok)
    {
      hide EncodeFrame, ReadAll, Unread, Useful, WasteBytes, RecordBytes, Padded;
      used := 0;
      made := [];
      if |frame.data| > MAX_FRAME_SIZE {
        return false, made, used;
      }
      var packet := EncodeFrame(frame);
      var index := packetIndex;
      packetIndex := packetIndex + 1;
      var instructions := if index < scheme.stop && index in scheme.rules then Some(scheme.rules[index]) else None;
      ghost var base := whole;
      ghost var waste;
      ok, waste, made, used := SendPacket(packet, instructions, base);
      FrameSent(frame, base, waste, queued);
      queued, whole := queued + [frame], base + (packet + WasteBytes(waste));
    }

    method SendPacket(packet: seq<byte>, instructions: Option<seq<Instruction>>, ghost base: seq<byte>)
      returns (ok: bool, ghost waste: seq<nat>, ghost made: seq<Record>, ghost used: nat)
      requires !broken && sent == base
      modifies this`sent, this`broken
      ensures ok == !broken && WasteFits(waste)
      ensures var total := base + (packet + WasteBytes(waste));
              sent <= total && (ok ==> sent == total)
      ensures Padded(packet, if instructions.Some? then instructions.value else [], made, used, base, sent, ok)
    {
      hide WasteBytes, RecordBytes, Made, Unfinished, Targets;
      if instructions.None? {
        NoWaste();
        NoProgress(packet, []);
        waste, made, used := [], [], 0;
        assert packet + [] == packet && base + [] == base;
        ok := WriteAll(packet);
        return;
      }
      var done, offset;
      ok, done, offset, waste, made, used := Pad(packet, instructions.value, base);
      Rejoin(base, packet, offset, waste);
      Remainder(base + RecordBytes(made), packet, offset);
      LastRecord(base, made);
      if ok && !done && offset < |packet| {
        ok := WriteAll(packet[offset..]);
      }
    }

    /** Goes through the instructions. `offset` bytes of the packet are written; `done` tells that the
        packet was found to be complete, and happens at the first check that finds so. What was written
        are the records `made`, the last one perhaps in part when the transport broke. */
    method Pad(packet: seq<byte>, instructions: seq<Instruction>, ghost base: seq<byte>)
      returns (ok: bool, done: bool, offset: nat, ghost waste: seq<nat>, ghost made: seq<Record>, ghost used: nat)
      requires !broken && sent == base
      modifies this`sent, this`broken
      ensures ok == !broken && Progress(packet, instructions, offset, waste, made, used)
      ensures if ok then sent == base + RecordBytes(made)
              else made != [] && base + RecordBytes(AllButLast(made)) <= sent <= base + RecordBytes(made)
      ensures done ==> ok && offset == |packet| && used < |instructions| && instructions[used].Check?
      ensures ok && !done ==> used == |instructions|
    {
      hide WasteBytes, RecordBytes, Progress;
      ok, done, offset, waste, made, used := true, false, 0, [], [], 0;
      NoProgress(packet, instructions);
      assert base + [] == base;
      for i := 0 to |instructions|
        invariant ok && !broken && !done && used == i && offset <= |packet|
        invariant Progress(packet, instructions, offset, waste, made, used)
        invariant sent == base + RecordBytes(made)
      {
        match instructions[i] {
          case Check =>
            if offset == |packet| {
              done := true;
              return;
            }
            PassedCheck(packet, instructions, offset, waste, made, i);
          case Range(min, max) =>
            var target := RandomRange(min, max);
            var take := Min(|packet| - offset, target);
            var record, lengths := AppendWaste(packet[offset..offset + take], target);
            ghost var one := Record(instructions[i], target, record);
            RecordMade(packet, instructions, offset, waste, made, i, one, lengths);
            assert base + (RecordBytes(made) + record) == base + RecordBytes(made) + record;
            offset, made, waste := offset + take, made + [one], waste + lengths;
            ok := WriteAll(record);
            if !ok {
              used := i + 1;
              return;
            }
        }
        used := i + 1;
      }
    }
  }

  lemma NoWaste()
    ensures WasteBytes([]) == [] && WasteFits([])
  {
  }

  /** What has been written and what is still to come make the packet and its waste. */
  lemma Rejoin(base: seq<byte>, packet: seq<byte>, offset: nat, waste: seq<nat>)
    requires offset <= |packet| && (waste != [] ==> offset == |packet|)
    ensures base + (packet[..offset] + WasteBytes(waste)) + packet[offset..] == base + (packet + WasteBytes(waste))
    ensures offset == |packet| ==> packet[..offset] == packet
    ensures base + (packet[..offset] + WasteBytes(waste)) <= base + (packet + WasteBytes(waste))
  {
    if waste == [] {
      NoWaste();
      assert packet[..offset] + packet[offset..] == packet;
    } else {
      assert packet[..offset] == packet && packet[offset..] == [];
    }
  }

  lemma LastRecord(base: seq<byte>, made: seq<Record>)
    ensures base + RecordBytes(AllButLast(made)) <= base + RecordBytes(made)
  {
  }

  lemma Remainder(written: seq<byte>, packet: seq<byte>, offset: nat)
    requires offset <= |packet|
    ensures written <= written + packet[offset..]
    ensures offset == |packet| ==> written + packet[offset..] == written
  {
  }

  /** Waste starts only behind the frame: a record that does not finish it is full already. */
  lemma RecordGrows(packet: seq<byte>, from: nat, to: nat, before: seq<nat>, lengths: seq<nat>, record: seq<byte>, target: nat)
    requires from <= to <= |packet| && to - from == Min(|packet| - from, target)
    requires before != [] ==> from == |packet|
    requires record == packet[from..to] + WasteBytes(lengths) && |record| <= target && WasteFits(lengths) && WasteFits(before)
    ensures before + lengths != [] ==> to == |packet|
    ensures WasteFits(before + lengths)
    ensures (packet[..from] + WasteBytes(before)) + record == packet[..to] + WasteBytes(before + lengths)
  {
    WasteConcat(before, lengths);
    WasteSize(lengths);
    hide WasteBytes;
    var head, piece, a, b := packet[..from], packet[from..to], WasteBytes(before), WasteBytes(lengths);
    assert head + piece == packet[..to];
    if before != [] {
      assert piece == [];
    } else {
      NoWaste();
      assert a == [];
    }
    Regroup(head, a, piece, b);
  }

  /** Either there is no waste yet or nothing of the packet is left. */
  lemma Regroup(head: seq<byte>, a: seq<byte>, piece: seq<byte>, b: seq<byte>)
    requires a == [] || piece == []
    ensures (head + a) + (piece + b) == (head + piece) + (a + b)
  {
  }

  lemma WasteSize(lengths: seq<nat>)
    ensures lengths != [] ==> |WasteBytes(lengths)| >= HEADER_SIZE
  {
  }

  /** A frame and whole waste frames behind it add exactly that frame to the peer's view. */
  lemma FrameSent(frame: Frame, base: seq<byte>, waste: seq<nat>, queued: seq<Frame>)
    requires frame.Valid() && WasteFits(waste) && Unread(base) == [] && Useful(ReadAll(base)) == Useful(queued)
    ensures var s := base + (EncodeFrame(frame) + WasteBytes(waste));
            Unread(s) == [] && Useful(ReadAll(s)) == Useful(queued + [frame])
  {
    hide EncodeFrame, ReadAll, Unread, Useful, WasteBytes;
    var packet, more := EncodeFrame(frame), WasteBytes(waste);
    ReadAllAppend(base, packet + more);
    assert [] + (packet + more) == packet + more;
    OneFrame(frame);
    ReadAllAppend(packet, more);
    assert [] + more == more;
    WasteUseless(waste);
    UsefulConcat([frame], ReadAll(more));
    UsefulConcat(ReadAll(base), [frame] + ReadAll(more));
    UsefulConcat(queued, [frame]);
  }

  /** What a peer has received of the bytes, wherever the transport stopped, is a first part of the
      frames queued, and of all of them when none was waste itself. */
  lemma PeerView(w: FrameWriter, received: seq<byte>)
    requires w.Valid() && received <= w.sent
    ensures Useful(ReadAll(received)) <= Useful(w.queued)
    ensures received == w.sent && !w.broken ==> Useful(ReadAll(received)) == Useful(w.queued)
    ensures (forall i | 0 <= i < |w.queued| :: w.queued[i].command != 0) ==> Useful(w.queued) == w.queued
  {
    UsefulMeaning(w.queued);
    var later := w.whole[|received|..];
    assert w.whole == received + later;
    ReadAllAppend(received, later);
    UsefulConcat(ReadAll(received), ReadAll(Unread(received) + later));
  }
}
