/** Domain names in DNS messages: section 4.1.4 of RFC 1035 and the reader and writer of the discovery. */
module DnsNames {
  import opened Bytes
  import Utf8
  import opened Wrappers

  const MAX_STEPS := 128
  const MAX_LABEL := 63
  const HEADER_SIZE := 12
  const FIRST_POINTER_OCTET := 0xC0

  datatype NameError =
    | TruncatedName
    | TruncatedPointer
    | InvalidPointer
    | InvalidLength
    | TruncatedLabel
    | NotUtf8
    | CompressionLoop

  // ---- Names as text ----

  /** The text between the dots. */
  function Split(name: string): (labels: seq<string>)
    ensures labels != []
    ensures forall part <- labels :: '.' !in part
  {
    if name == [] then [[]]
    else
      var rest := Split(name[1..]);
      if name[0] == '.' then [[]] + rest else [[name[0]] + rest[0]] + rest[1..]
  }

  function Join(labels: seq<string>): string {
    if labels == [] then []
    else if |labels| == 1 then labels[0]
    else labels[0] + "." + Join(labels[1..])
  }

  /** A name without the dots at its end. */
  function Trim(name: string): (r: string)
    ensures r <= name && (r == [] || r[|r| - 1] != '.')
    ensures forall i | |r| <= i < |name| :: name[i] == '.'
  {
    if name != [] && name[|name| - 1] == '.' then Trim(name[..|name| - 1]) else name
  }

  lemma {:induction false} JoinSplit(name: string)
    ensures Join(Split(name)) == name
  {
    if name != [] {
      JoinSplit(name[1..]);
      var rest := Split(name[1..]);
      assert name == [name[0]] + name[1..];
      if name[0] != '.' {
        var labels := [[name[0]] + rest[0]] + rest[1..];
        assert labels[1..] == rest[1..];
      } else {
        assert ([[]] + rest)[1..] == rest;
      }
    }
  }

  // ---- Names in a packet ----

  predicate GoodLabel(part: string) {
    1 <= |Utf8.Encode(part)| <= MAX_LABEL
  }

  ghost predicate GoodLabels(labels: seq<string>) {
    forall part <- labels :: GoodLabel(part)
  }

  function PointerAt(packet: seq<byte>, cursor: nat): nat
    requires cursor + 1 < |packet|
  {
    var high: int := packet[cursor];
    high % 64 * 256 + packet[cursor + 1]
  }

  /** A pointer is two octets whose first two bits are ones; the other fourteen say where it points. The
      length of a label has zeros there. */
  lemma PointerBits(packet: seq<byte>, cursor: nat)
    requires cursor + 1 < |packet|
    ensures packet[cursor] >= FIRST_POINTER_OCTET <==> FromBe(packet[cursor..cursor + 2]) / 0x4000 == 3
    ensures packet[cursor] <= MAX_LABEL <==> FromBe(packet[cursor..cursor + 2]) / 0x4000 == 0
    ensures PointerAt(packet, cursor) == FromBe(packet[cursor..cursor + 2]) % 0x4000
  {
    FromBePair(packet[cursor], packet[cursor + 1]);
    assert packet[cursor..cursor + 2] == [packet[cursor], packet[cursor + 1]];
    var high, low: int := packet[cursor], packet[cursor + 1];
    assert high * 256 + low == (high / 64) * 0x4000 + (high % 64 * 256 + low);
  }

  /** The labels of the name at the cursor, read in at most so many steps. */
  function Labels(packet: seq<byte>, cursor: nat, steps: nat): Result<seq<string>, NameError>
    decreases steps, |packet|
  {
    if steps == 0 then Err(CompressionLoop)
    else if cursor >= |packet| then Err(TruncatedName)
    else if packet[cursor] >= FIRST_POINTER_OCTET then
      if cursor + 1 >= |packet| then Err(TruncatedPointer)
      else if PointerAt(packet, cursor) >= |packet| then Err(InvalidPointer)
      else Labels(packet, PointerAt(packet, cursor), steps - 1)
    else if packet[cursor] == 0 then Ok([])
    else if packet[cursor] > MAX_LABEL then Err(InvalidLength)
    else
      var end := cursor + 1 + packet[cursor];
      if end > |packet| then Err(TruncatedLabel)
      else
        var part := Utf8.Decode(packet[cursor + 1..end]);
        if part.None? then Err(NotUtf8) else Prepended([part.value], Labels(packet, end, steps - 1))
  }

  function Prepended(labels: seq<string>, rest: Result<seq<string>, NameError>): Result<seq<string>, NameError> {
    match rest
    case Ok(more) => Ok(labels + more)
    case Err(error) => Err(error)
  }

  function Joined(labels: Result<seq<string>, NameError>): Result<string, NameError> {
    match labels
    case Ok(value) => Ok(Join(value))
    case Err(error) => Err(error)
  }

  /** Just past the name's own bytes: past its first pointer, or past its closing zero. */
  function InPlaceEnd(packet: seq<byte>, cursor: nat): nat
    decreases |packet| - cursor
  {
    if cursor >= |packet| then cursor
    else if packet[cursor] >= FIRST_POINTER_OCTET then cursor + 2
    else if packet[cursor] == 0 then cursor + 1
    else InPlaceEnd(packet, cursor + 1 + packet[cursor])
  }

  lemma PrependedTwice(labels: seq<string>, part: string, rest: Result<seq<string>, NameError>)
    ensures Prepended(labels, Prepended([part], rest)) == Prepended(labels + [part], rest)
  {
    if rest.Ok? {
      assert labels + ([part] + rest.value) == labels + [part] + rest.value;
    }
  }

  lemma PrependedLast(labels: seq<string>)
    ensures Prepended(labels, Ok([])) == Ok(labels)
    ensures forall error :: Prepended(labels, Err(error)) == Err(error)
  {
    assert labels + [] == labels;
  }

  lemma PrependedNone(rest: Result<seq<string>, NameError>)
    ensures Prepended([], rest) == rest
  {
    if rest.Ok? {
      assert [] + rest.value == rest.value;
    }
  }

  /** Reads the name at `offset` and finds where the packet goes on after it. */
  method ReadDnsName(packet: seq<byte>, offset: nat) returns (r: Result<string, NameError>, next: nat)
    ensures r == Joined(Labels(packet, offset, MAX_STEPS))
    ensures r.Ok? ==> next == InPlaceEnd(packet, offset) && offset < next <= |packet|
    ensures r.Err? ==> next == offset || next == InPlaceEnd(packet, offset)
  {
    hide Utf8.Decode, Utf8.DecodeChar, Join, Prepended;
    var cursor: nat := offset;
    var jumped := false;
    var labels: seq<string> := [];
    next := offset;
    PrependedNone(Labels(packet, offset, MAX_STEPS));
    for step := 0 to MAX_STEPS
      invariant Prepended(labels, Labels(packet, cursor, MAX_STEPS - step)) == Labels(packet, offset, MAX_STEPS)
      invariant if jumped then next == InPlaceEnd(packet, offset) && offset < next <= |packet|
                else next == offset <= cursor && InPlaceEnd(packet, cursor) == InPlaceEnd(packet, offset)
    {
      PrependedLast(labels);
      if cursor >= |packet| {
        return Err(TruncatedName), next;
      }
      var length: int := packet[cursor];
      if length >= FIRST_POINTER_OCTET {
        if cursor + 1 >= |packet| {
          return Err(TruncatedPointer), next;
        }
        var pointer := length % 64 * 256 + packet[cursor + 1];
        if pointer >= |packet| {
          return Err(InvalidPointer), next;
        }
        if !jumped {
          next := cursor + 2;
          jumped := true;
        }
        cursor := pointer;
        continue;
      }
      cursor := cursor + 1;
      if length == 0 {
        if !jumped {
          next := cursor;
        }
        return Ok(Join(labels)), next;
      }
      if length > MAX_LABEL {
        return Err(InvalidLength), next;
      }
      var end := cursor + length;
      if end > |packet| {
        return Err(TruncatedLabel), next;
      }
      var part := Utf8.Decode(packet[cursor..end]);
      if part.None? {
        return Err(NotUtf8), next;
      }
      PrependedTwice(labels, part.value, Labels(packet, end, MAX_STEPS - step - 1));
      labels := labels + [part.value];
      cursor := end;
    }
    PrependedLast(labels);
    r := Err(CompressionLoop);
  }

  // ---- What a name in a packet is ----

  /** The label at the cursor, octet by octet. */
  predicate LabelAt(packet: seq<byte>, cursor: nat, part: string) {
    var text := Utf8.Encode(part);
    && GoodLabel(part)
    && cursor + 1 + |text| <= |packet|
    && packet[cursor] == |text| && packet[cursor + 1..cursor + 1 + |text|] == text
  }

  /** The labels, spelled out from the cursor on, with so many pointers followed on the way. */
  predicate Spells(packet: seq<byte>, cursor: nat, labels: seq<string>, hops: nat)
    decreases hops + |labels|
  {
    && cursor < |packet|
    && (if packet[cursor] >= FIRST_POINTER_OCTET then
          hops > 0 && cursor + 1 < |packet| && Spells(packet, PointerAt(packet, cursor), labels, hops - 1)
        else if labels == [] then packet[cursor] == 0 && hops == 0
        else
          LabelAt(packet, cursor, labels[0])
          && Spells(packet, cursor + 1 + |Utf8.Encode(labels[0])|, labels[1..], hops))
  }

  lemma LabelRead(packet: seq<byte>, cursor: nat, part: string)
    ensures LabelAt(packet, cursor, part) <==>
      cursor < |packet| && 1 <= packet[cursor] <= MAX_LABEL && cursor + 1 + packet[cursor] <= |packet|
      && Utf8.Decode(packet[cursor + 1..cursor + 1 + packet[cursor]]) == Some(part)
    ensures LabelAt(packet, cursor, part) ==> |Utf8.Encode(part)| == packet[cursor]
  {
    hide Utf8.Decode, Utf8.Encode, Utf8.DecodeChar;
    Utf8.DecodeEncode(part);
    if cursor < |packet| && cursor + 1 + packet[cursor] <= |packet| {
      var text := packet[cursor + 1..cursor + 1 + packet[cursor]];
      if Utf8.Decode(text).Some? {
        Utf8.EncodeDecode(text);
      }
    }
  }

  lemma {:induction false} SpelledIsRead(packet: seq<byte>, cursor: nat, labels: seq<string>, hops: nat, steps: nat)
    requires Spells(packet, cursor, labels, hops)
    ensures Labels(packet, cursor, steps) == if hops + |labels| < steps then Ok(labels) else Err(CompressionLoop)
    ensures GoodLabels(labels)
    decreases steps + hops + |labels|
  {
    hide Utf8.Encode, Utf8.Decode, Utf8.DecodeChar;
    var left := if steps == 0 then 0 else steps - 1;
    if packet[cursor] >= FIRST_POINTER_OCTET {
      var pointer := PointerAt(packet, cursor);
      SpelledIsRead(packet, pointer, labels, hops - 1, left);
    } else if labels != [] {
      var next := cursor + 1 + |Utf8.Encode(labels[0])|;
      LabelRead(packet, cursor, labels[0]);
      assert GoodLabel(labels[0]);
      hide LabelAt, GoodLabel;
      SpelledIsRead(packet, next, labels[1..], hops, left);
      assert labels == [labels[0]] + labels[1..];
    }
  }

  lemma {:induction false} ReadIsSpelled(packet: seq<byte>, cursor: nat, steps: nat) returns (hops: nat)
    requires Labels(packet, cursor, steps).Ok?
    ensures var labels := Labels(packet, cursor, steps).value;
      hops + |labels| < steps && Spells(packet, cursor, labels, hops)
    decreases steps
  {
    hide Utf8.Decode, Utf8.Encode, Utf8.DecodeChar, LabelAt;
    var labels := Labels(packet, cursor, steps).value;
    if packet[cursor] >= FIRST_POINTER_OCTET {
      hops := ReadIsSpelled(packet, PointerAt(packet, cursor), steps - 1);
      hops := hops + 1;
    } else if packet[cursor] == 0 {
      hops := 0;
    } else {
      var end := cursor + 1 + packet[cursor];
      hops := ReadIsSpelled(packet, end, steps - 1);
      LabelRead(packet, cursor, labels[0]);
      assert labels[1..] == Labels(packet, end, steps - 1).value;
    }
  }

  ghost predicate SpelledInTime(packet: seq<byte>, cursor: nat, labels: seq<string>) {
    exists hops: nat :: hops + |labels| < MAX_STEPS && Spells(packet, cursor, labels, hops)
  }

  /** The reader accepts exactly the names that labels and pointers spell out within its step limit. */
  lemma ReadIffSpelled(packet: seq<byte>, cursor: nat, labels: seq<string>)
    ensures Labels(packet, cursor, MAX_STEPS) == Ok(labels) <==> SpelledInTime(packet, cursor, labels)
  {
    if Labels(packet, cursor, MAX_STEPS) == Ok(labels) {
      var hops := ReadIsSpelled(packet, cursor, MAX_STEPS);
    }
    if SpelledInTime(packet, cursor, labels) {
      var hops: nat :| hops + |labels| < MAX_STEPS && Spells(packet, cursor, labels, hops);
      SpelledIsRead(packet, cursor, labels, hops, MAX_STEPS);
    }
  }

  // ---- Names as the query writes them ----

  function Wire(labels: seq<string>): seq<byte>
    requires GoodLabels(labels)
  {
    if labels == [] then [] else WireLabel(labels[0]) + Wire(labels[1..])
  }

  function WireLabel(part: string): seq<byte>
    requires GoodLabel(part)
  {
    [|Utf8.Encode(part)|] + Utf8.Encode(part)
  }

  /** The name stands at the cursor without compression. */
  ghost predicate PlainAt(packet: seq<byte>, cursor: nat, labels: seq<string>)
    requires GoodLabels(labels)
  {
    cursor <= |packet| && Wire(labels) + [0] <= packet[cursor..]
  }

  lemma PlainFirst(packet: seq<byte>, cursor: nat, labels: seq<string>)
    requires GoodLabels(labels) && labels != [] && PlainAt(packet, cursor, labels)
    ensures LabelAt(packet, cursor, labels[0])
    ensures PlainAt(packet, cursor + 1 + |Utf8.Encode(labels[0])|, labels[1..])
  {
    hide Utf8.Encode;
    var text, rest := Utf8.Encode(labels[0]), Wire(labels[1..]) + [0];
    assert GoodLabel(labels[0]);
    assert Wire(labels) + [0] == [|text|] + text + rest;
    hide Wire, GoodLabel;
    LabelThenRest(packet, cursor, |text|, text, rest);
  }

  lemma LabelThenRest(packet: seq<byte>, cursor: nat, length: byte, text: seq<byte>, rest: seq<byte>)
    requires cursor <= |packet| && length == |text| && [length] + text + rest <= packet[cursor..]
    ensures cursor + 1 + |text| <= |packet| && packet[cursor] == length && packet[cursor + 1..cursor + 1 + |text|] == text
    ensures rest <= packet[cursor + 1 + |text|..]
  {
    var all, n := packet[cursor..], 1 + |text|;
    assert all == [length] + text + rest + all[n + |rest|..];
    assert all[0] == length && all[1..n] == text && all[n..] == rest + all[n + |rest|..];
    assert packet[cursor + n..] == all[n..] && packet[cursor + 1..cursor + n] == all[1..n];
  }

  lemma {:induction false} PlainSpells(packet: seq<byte>, cursor: nat, labels: seq<string>)
    requires GoodLabels(labels) && PlainAt(packet, cursor, labels)
    ensures Spells(packet, cursor, labels, 0)
    ensures InPlaceEnd(packet, cursor) == cursor + |Wire(labels)| + 1
    decreases |labels|
  {
    hide Utf8.Encode;
    if labels == [] {
      assert packet[cursor..][0] == 0;
    } else {
      PlainFirst(packet, cursor, labels);
      hide PlainAt;
      PlainSpells(packet, cursor + 1 + |Utf8.Encode(labels[0])|, labels[1..]);
      assert |Wire(labels)| == 1 + |Utf8.Encode(labels[0])| + |Wire(labels[1..])|;
    }
  }

  /** Whatever compression a name was read from, it reads the same written out plainly anywhere else. */
  lemma CompressionInvisible(packet: seq<byte>, cursor: nat, labels: seq<string>)
    requires Labels(packet, cursor, MAX_STEPS) == Ok(labels)
    ensures GoodLabels(labels)
    ensures forall plain: seq<byte>, at: nat :: PlainAt(plain, at, labels) ==> Labels(plain, at, MAX_STEPS) == Ok(labels)
  {
    var hops := ReadIsSpelled(packet, cursor, MAX_STEPS);
    SpelledIsRead(packet, cursor, labels, hops, MAX_STEPS);
    forall plain: seq<byte>, at: nat | PlainAt(plain, at, labels) ensures Labels(plain, at, MAX_STEPS) == Ok(labels) {
      PlainSpells(plain, at, labels);
      SpelledIsRead(plain, at, labels, 0, MAX_STEPS);
    }
  }

  /** A query for the name, or None when one of its labels is empty or too long. */
  method BuildDnsQuery(id: nat, name: string, recordType: nat) returns (query: Option<seq<byte>>)
    ensures query.Some? <==> GoodLabels(Split(Trim(name)))
    ensures query.Some? ==> query.value == QueryHeader(id) + Wire(Split(Trim(name))) + [0] + (ToBe(recordType, 2) + ToBe(1, 2))
  {
    hide Utf8.Encode, ToBe, Split, Trim;
    var bytes := ToBe(id, 2);
    bytes := bytes + ToBe(0x0100, 2);
    bytes := bytes + ToBe(1, 2);
    bytes := bytes + ToBe(0, 2);
    bytes := bytes + ToBe(0, 2);
    bytes := bytes + ToBe(0, 2);
    assert bytes == QueryHeader(id);
    var labels := Split(Trim(name));
    for i := 0 to |labels|
      invariant GoodLabels(labels[..i]) && bytes == QueryHeader(id) + Wire(labels[..i])
    {
      var part := Utf8.Encode(labels[i]);
      if part == [] || |part| > MAX_LABEL {
        assert !GoodLabel(labels[i]);
        return None;
      }
      WireAppend(labels[..i], labels[i]);
      assert labels[..i] + [labels[i]] == labels[..i + 1];
      bytes := bytes + [|part|];
      bytes := bytes + part;
    }
    assert labels[..|labels|] == labels;
    bytes := bytes + [0];
    ghost var named := bytes;
    bytes := bytes + ToBe(recordType, 2);
    bytes := bytes + ToBe(1, 2);
    assert bytes == named + (ToBe(recordType, 2) + ToBe(1, 2));
    query := Some(bytes);
  }

  function QueryHeader(id: nat): (header: seq<byte>)
    ensures |header| == HEADER_SIZE
  {
    ToBe(id, 2) + ToBe(0x0100, 2) + ToBe(1, 2) + ToBe(0, 2) + ToBe(0, 2) + ToBe(0, 2)
  }

  /** The header of a query, octet by octet: the id, recursion desired and nothing else, one question
      and no records. */
  lemma QueryHeaderMeaning(id: nat)
    requires id < 0x1_0000
    ensures FromBe(QueryHeader(id)[..2]) == id
    ensures QueryHeader(id)[2..] == [1, 0] + [0, 1] + [0, 0] + [0, 0] + [0, 0]
  {
    assert Span(2) == 0x1_0000;
    FromBeToBe(id, 2);
    TwoOctets(0x0100);
    TwoOctets(1);
    TwoOctets(0);
    assert QueryHeader(id)[..2] == ToBe(id, 2);
  }

  lemma TwoOctets(value: nat)
    requires value < 0x1_0000
    ensures ToBe(value, 2) == [value / 256, value % 256]
  {
    assert ToBe(value / 256, 1) == ToBe(value / 256 / 256, 0) + [value / 256 % 256];
  }

  lemma {:induction false} WireAppend(labels: seq<string>, part: string)
    requires GoodLabels(labels) && GoodLabel(part)
    ensures GoodLabels(labels + [part]) && Wire(labels + [part]) == Wire(labels) + WireLabel(part)
  {
    if labels != [] {
      WireAppend(labels[1..], part);
      assert (labels + [part])[1..] == labels[1..] + [part];
    } else {
      assert ([part])[1..] == [];
    }
  }

  /** A query's name reads back as it was asked for, up to dots at its end, exactly when it has at most
      127 labels; what follows it is the record type and class. */
  lemma QueryReadsBack(id: nat, name: string, recordType: nat, query: seq<byte>)
    requires GoodLabels(Split(Trim(name)))
    requires query == QueryHeader(id) + Wire(Split(Trim(name))) + [0] + (ToBe(recordType, 2) + ToBe(1, 2))
    ensures Joined(Labels(query, HEADER_SIZE, MAX_STEPS)) ==
      if |Split(Trim(name))| <= 127 then Ok(Trim(name)) else Err(CompressionLoop)
    ensures InPlaceEnd(query, HEADER_SIZE) == |query| - 4 && query[|query| - 4..] == ToBe(recordType, 2) + ToBe(1, 2)
  {
    hide Utf8.Encode, Trim, Split, ToBe, QueryHeader;
    var labels, tail := Split(Trim(name)), ToBe(recordType, 2) + ToBe(1, 2);
    QueryPlain(QueryHeader(id), labels, tail, query);
    SpelledIsRead(query, HEADER_SIZE, labels, 0, MAX_STEPS);
    JoinSplit(Trim(name));
  }

  lemma QueryPlain(header: seq<byte>, labels: seq<string>, tail: seq<byte>, query: seq<byte>)
    requires GoodLabels(labels) && |header| == HEADER_SIZE && |tail| == 4
    requires query == header + Wire(labels) + [0] + tail
    ensures Spells(query, HEADER_SIZE, labels, 0)
    ensures InPlaceEnd(query, HEADER_SIZE) == |query| - 4 && query[|query| - 4..] == tail
  {
    hide Spells, InPlaceEnd, Wire;
    var name := Wire(labels) + [0];
    assert query == header + (name + tail);
    assert query[HEADER_SIZE..] == name + tail;
    PlainSpells(query, HEADER_SIZE, labels);
  }
}
