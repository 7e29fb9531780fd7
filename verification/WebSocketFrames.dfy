/**
 The WebSocket frame grammar of sections 5.2 to 5.5 of RFC 6455 (`Frame`, `Wire`, `Acceptable`)
 and the incremental header parser of the VLESS transport (`ParseHeader`), with the two directions
 between them.
 */
module WebSocketFrames {
  import opened Wrappers
  import opened Arithmetic
  import opened Bytes

  const MAX_WS_FRAME_SIZE: nat := 16 * 1024 * 1024

  const CONTINUATION: nat := 0x0
  const BINARY: nat := 0x2
  const CLOSE: nat := 0x8
  const PING: nat := 0x9
  const PONG: nat := 0xA

  /** Which of the three length fields a sender chose; section 5.2 lets a receiver meet any. */
  datatype LengthForm = Short | Medium | Long {
    function Tag(length: nat): nat {
      match this
      case Short => length
      case Medium => 126
      case Long => 127
    }

    function Width(): nat {
      match this
      case Short => 0
      case Medium => 2
      case Long => 8
    }

    predicate Holds(length: nat) {
      match this
      case Short => length <= 125
      case Medium => length < Span(2)
      case Long => length < Span(8)
    }
  }

  type Mask = m: seq<byte> | |m| == 4 witness [0, 0, 0, 0]

  datatype Frame = Frame(fin: bool, opcode: nat, form: LengthForm, mask: Option<Mask>, payload: seq<byte>) {
    predicate WellFormed() {
      opcode < 16 && form.Holds(|payload|)
    }

    predicate IsControl() {
      opcode >= 8
    }
  }

  const NO_MASK: Mask := [0, 0, 0, 0]

  function MaskOf(mask: Option<Mask>): Mask {
    if mask.Some? then mask.value else NO_MASK
  }

  /** Section 5.3: octet `i` of the data is combined with octet `(offset + i) mod 4` of the key. */
  function Masked(mask: Mask, offset: nat, data: seq<byte>): (r: seq<byte>)
    ensures |r| == |data|
  {
    seq(|data|, i requires 0 <= i < |data| => Xor(data[i], mask[(offset + i) % 4]))
  }

  function HeaderBytes(f: Frame): (s: seq<byte>)
    requires f.WellFormed()
    ensures |s| == 2 + f.form.Width() + if f.mask.Some? then 4 else 0
  {
    [(if f.fin then 128 else 0) + f.opcode, (if f.mask.Some? then 128 else 0) + f.form.Tag(|f.payload|)]
    + ToBe(|f.payload|, f.form.Width())
    + if f.mask.Some? then f.mask.value else []
  }

  /** The octets of one frame. */
  function Wire(f: Frame): seq<byte>
    requires f.WellFormed()
  {
    HeaderBytes(f) + Masked(MaskOf(f.mask), 0, f.payload)
  }

  datatype Violation =
    | ReservedBits
    | MaskDirection
    | FrameTooLarge
    | BadControlFrame
    | UnexpectedContinuation
    | NestedFragment
    | UnsupportedOpcode

  datatype HeaderStep =
    | NeedMore
    | Bad(violation: Violation)
    | Header(opcode: nat, length: nat, mask: Mask, fragmented: bool, size: nat)

  /** How many octets the extended length takes for a length tag. */
  function ExtendedWidth(tag: nat): nat {
    if tag == 126 then 2 else if tag == 127 then 8 else 0
  }

  /** The part of the decision that needs the whole header. */
  function Decide(fragmented: bool, fin: bool, opcode: nat, length: nat, mask: Mask, size: nat): (r: HeaderStep) {
    if length > MAX_WS_FRAME_SIZE then Bad(FrameTooLarge)
    else if opcode >= 8 && (!fin || length > 125) then Bad(BadControlFrame)
    else if opcode == CONTINUATION then
      if !fragmented then Bad(UnexpectedContinuation) else Header(opcode, length, mask, !fin, size)
    else if opcode == BINARY then
      if fragmented then Bad(NestedFragment) else Header(opcode, length, mask, !fin, size)
    else if 8 <= opcode <= 10 then Header(opcode, length, mask, fragmented, size)
    else Bad(UnsupportedOpcode)
  }

  /** The decision `start_frame` takes on the unread input, with nothing consumed yet. */
  function ParseHeader(clientSide: bool, fragmented: bool, s: seq<byte>): (r: HeaderStep)
    ensures r.Header? ==> 2 <= r.size <= |s|
    ensures r.Header? && r.opcode >= 8 ==> r.length <= 125
    ensures r.Header? ==> r.length <= MAX_WS_FRAME_SIZE
  {
    if |s| < 2 then NeedMore
    else if s[0] / 16 % 8 != 0 then Bad(ReservedBits)
    else
      var tag := s[1] % 128;
      var masked := s[1] >= 128;
      var body := 2 + ExtendedWidth(tag);
      if masked == clientSide then Bad(MaskDirection)
      else
        var size := body + if masked then 4 else 0;
        if |s| < size then NeedMore
        else
          var length := if tag >= 126 then FromBe(s[2..body]) else tag;
          Decide(fragmented, s[0] >= 128, s[0] % 16, length, if masked then s[body..size] else NO_MASK, size)
  }

  /** The conversation rules: which frame a peer may send next, given whether a message is open. The
      opcodes are the numbers of section 5.2: 0 continues a message, 2 starts a binary one, 8 closes, 9
      and 10 are Ping and Pong. */
  predicate Acceptable(clientSide: bool, fragmented: bool, f: Frame) {
    && f.mask.Some? == !clientSide
    && |f.payload| <= MAX_WS_FRAME_SIZE
    && (f.IsControl() ==> f.fin && |f.payload| <= 125)
    && (f.opcode == 0 || f.opcode == 2 || f.opcode == 8 || f.opcode == 9 || f.opcode == 10)
    && (f.opcode == 0 ==> fragmented)
    && (f.opcode == 2 ==> !fragmented)
  }

  /** Whether a message is still open after `f`. */
  function MessageOpen(fragmented: bool, f: Frame): bool {
    if f.IsControl() then fragmented else !f.fin
  }

  lemma WireFields(f: Frame, rest: seq<byte>)
    requires f.WellFormed()
    ensures var s := Wire(f) + rest;
            var n := |f.payload|;
            var body := 2 + f.form.Width();
            && |s| >= |HeaderBytes(f)| + n
            && s[0] == (if f.fin then 128 else 0) + f.opcode
            && s[1] == (if f.mask.Some? then 128 else 0) + f.form.Tag(n)
            && s[2..body] == ToBe(n, f.form.Width())
            && (f.mask.Some? ==> s[body..body + 4] == f.mask.value)
            && s[|HeaderBytes(f)|..|HeaderBytes(f)| + n] == Masked(MaskOf(f.mask), 0, f.payload)
            && s[|Wire(f)|..] == rest
  {
    var s := Wire(f) + rest;
    assert s == HeaderBytes(f) + (Masked(MaskOf(f.mask), 0, f.payload) + rest);
  }

  lemma FormHolds(form: LengthForm, n: nat)
    requires form.Holds(n)
    ensures ExtendedWidth(form.Tag(n)) == form.Width() && form.Tag(n) < 128
    ensures FromBe(ToBe(n, form.Width())) == if form.Short? then 0 else n
    ensures form.Tag(n) >= 126 <==> !form.Short?
  {
    if !form.Short? {
      FromBeToBe(n, form.Width());
    }
  }

  lemma FirstOctet(fin: bool, opcode: nat)
    requires opcode < 16
    ensures var b := (if fin then 128 else 0) + opcode;
            b / 16 % 8 == 0 && b % 16 == opcode && (b >= 128) == fin
  {
  }

  lemma SecondOctet(masked: bool, tag: nat)
    requires tag < 128
    ensures var b := (if masked then 128 else 0) + tag;
            b % 128 == tag && (b >= 128) == masked
  {
  }

  /** All the header's fields are in place, so the parser gets as far as the last group of checks. */
  lemma ParseReachesDecision(clientSide: bool, fragmented: bool, f: Frame, rest: seq<byte>)
    requires f.WellFormed() && f.mask.Some? == !clientSide
    ensures ParseHeader(clientSide, fragmented, Wire(f) + rest)
         == Decide(fragmented, f.fin, f.opcode, |f.payload|, MaskOf(f.mask), |HeaderBytes(f)|)
  {
    var s := Wire(f) + rest;
    WireFields(f, rest);
    FormHolds(f.form, |f.payload|);
    FirstOctet(f.fin, f.opcode);
    SecondOctet(f.mask.Some?, f.form.Tag(|f.payload|));
  }

  /** The parser takes the header of a frame on the wire exactly when the rules allow the frame. */
  lemma ParseWire(clientSide: bool, fragmented: bool, f: Frame, rest: seq<byte>)
    requires f.WellFormed()
    ensures var r := ParseHeader(clientSide, fragmented, Wire(f) + rest);
            if Acceptable(clientSide, fragmented, f) then
              r == Header(f.opcode, |f.payload|, MaskOf(f.mask), MessageOpen(fragmented, f), |HeaderBytes(f)|)
            else r.Bad?
  {
    if f.mask.Some? == !clientSide {
      ParseReachesDecision(clientSide, fragmented, f, rest);
    } else {
      WireFields(f, rest);
      FormHolds(f.form, |f.payload|);
      FirstOctet(f.fin, f.opcode);
      SecondOctet(f.mask.Some?, f.form.Tag(|f.payload|));
    }
  }

  /** The frame whose header the parser took from the front of `s`. */
  function FrameAt(h: HeaderStep, s: seq<byte>): Frame
    requires h.Header? && 2 <= h.size && h.size + h.length <= |s|
  {
    var tag := s[1] % 128;
    var body := 2 + ExtendedWidth(tag);
    Frame(s[0] >= 128, s[0] % 16,
          if tag == 126 then Medium else if tag == 127 then Long else Short,
          if s[1] >= 128 then Some(h.mask) else None,
          Masked(h.mask, 0, s[h.size..h.size + h.length]))
  }

  /** A whole frame the parser lets through is the wire form of a frame the rules allow. */
  lemma WireParse(clientSide: bool, fragmented: bool, s: seq<byte>)
    requires ParseHeader(clientSide, fragmented, s).Header?
    requires var h := ParseHeader(clientSide, fragmented, s); h.size + h.length <= |s|
    ensures var h := ParseHeader(clientSide, fragmented, s);
            var f := FrameAt(h, s);
            && f.WellFormed() && Acceptable(clientSide, fragmented, f)
            && Wire(f) == s[..h.size + h.length]
            && h.fragmented == MessageOpen(fragmented, f)
  {
    hide ParseHeader, Decide, Acceptable, HeaderBytes, Masked, MessageOpen;
    var h := ParseHeader(clientSide, fragmented, s);
    var f := FrameAt(h, s);
    FrameAtFields(clientSide, fragmented, s);
    WireParseHeader(s, h, f);
    MaskedTwice(h.mask, 0, s[h.size..h.size + h.length]);
    assert MaskOf(f.mask) == h.mask;
    assert Wire(f) == s[..h.size] + s[h.size..h.size + h.length];
  }

  lemma FrameAtFields(clientSide: bool, fragmented: bool, s: seq<byte>)
    requires ParseHeader(clientSide, fragmented, s).Header?
    requires var h := ParseHeader(clientSide, fragmented, s); h.size + h.length <= |s|
    ensures var h := ParseHeader(clientSide, fragmented, s);
            var f := FrameAt(h, s);
            && f.WellFormed() && Acceptable(clientSide, fragmented, f)
            && h.fragmented == MessageOpen(fragmented, f)
            && h.size == 2 + f.form.Width() + (if f.mask.Some? then 4 else 0)
            && s[0] == (if f.fin then 128 else 0) + f.opcode
            && s[1] == (if f.mask.Some? then 128 else 0) + f.form.Tag(h.length)
            && s[2..2 + f.form.Width()] == ToBe(h.length, f.form.Width())
            && (if f.mask.Some? then h.mask == s[2 + f.form.Width()..h.size] else h.mask == NO_MASK)
  {
    hide FromBe, ToBe;
    var h := ParseHeader(clientSide, fragmented, s);
    var f := FrameAt(h, s);
    DecisionOf(clientSide, fragmented, s);
    OctetFields(s[0]);
    var field := s[2..2 + ExtendedWidth(s[1] % 128)];
    FromBeRange(field);
    ToBeFromBe(field);
    assert f.form.Width() == |field|;
    if f.form.Short? {
      assert f.form.Holds(h.length);
    } else {
      assert f.form.Holds(h.length);
    }
  }

  /** A header the parser takes passed the last group of checks with the fields in their places. */
  lemma DecisionOf(clientSide: bool, fragmented: bool, s: seq<byte>)
    requires ParseHeader(clientSide, fragmented, s).Header?
    ensures var h := ParseHeader(clientSide, fragmented, s);
            var tag := s[1] % 128;
            var body := 2 + ExtendedWidth(tag);
            && (s[1] >= 128) == !clientSide
            && s[0] / 16 % 8 == 0
            && h.size == body + (if s[1] >= 128 then 4 else 0)
            && h.length == (if tag >= 126 then FromBe(s[2..body]) else tag)
            && h.mask == (if s[1] >= 128 then s[body..h.size] else NO_MASK)
            && h == Decide(fragmented, s[0] >= 128, s[0] % 16, h.length, h.mask, h.size)
  {
  }

  lemma OctetFields(b: byte)
    requires b / 16 % 8 == 0
    ensures b == (if b >= 128 then 128 else 0) + b % 16
  {
  }

  lemma WireParseHeader(s: seq<byte>, h: HeaderStep, f: Frame)
    requires f.WellFormed() && h.Header? && |s| >= h.size
    requires h.size == 2 + f.form.Width() + if f.mask.Some? then 4 else 0
    requires |f.payload| == h.length
    requires s[0] == (if f.fin then 128 else 0) + f.opcode
    requires s[1] == (if f.mask.Some? then 128 else 0) + f.form.Tag(|f.payload|)
    requires s[2..2 + f.form.Width()] == ToBe(|f.payload|, f.form.Width())
    requires f.mask.Some? ==> f.mask.value == s[2 + f.form.Width()..h.size]
    ensures HeaderBytes(f) == s[..h.size]
  {
    var body := 2 + f.form.Width();
    assert s[..h.size] == [s[0], s[1]] + s[2..body] + s[body..h.size];
  }

  /** More input never changes a decision that has been taken. */
  lemma ParseHeaderStable(clientSide: bool, fragmented: bool, s: seq<byte>, t: seq<byte>)
    requires !ParseHeader(clientSide, fragmented, s).NeedMore?
    ensures ParseHeader(clientSide, fragmented, s + t) == ParseHeader(clientSide, fragmented, s)
  {
    var body := 2 + ExtendedWidth(s[1] % 128);
    var size := body + if s[1] >= 128 then 4 else 0;
    if size <= |s| {
      assert (s + t)[2..body] == s[2..body];
      assert (s + t)[body..size] == s[body..size];
    }
  }

  /** On the wire the four octets before a masked payload are the key, and octet `k` of the payload
      differs from its wire octet in exactly the bits of octet `k mod 4` of that key. An unmasked
      payload is on the wire as it is. */
  lemma PayloadOnWire(f: Frame, k: nat, i: nat)
    requires f.WellFormed() && k < |f.payload| && i < 8
    ensures var s := Wire(f);
            var start := |s| - |f.payload|;
            if f.mask.Some? then
              && start >= 6 && s[start - 4..start] == f.mask.value
              && (f.payload[k] / Pow2(i) % 2 != s[start + k] / Pow2(i) % 2 <==> s[start - 4 + k % 4] / Pow2(i) % 2 == 1)
            else
              start >= 2 && s[start + k] == f.payload[k]
  {
    hide HeaderBytes;
    var s := Wire(f);
    var start := |HeaderBytes(f)|;
    assert s[start + k] == Xor(f.payload[k], MaskOf(f.mask)[k % 4]);
    if f.mask.Some? {
      WireFields(f, []);
      assert s + [] == s;
      var key := s[start - 4..start];
      assert key == f.mask.value && key[k % 4] == s[start - 4 + k % 4];
      XorBit(f.payload[k], key[k % 4], i);
    } else {
      XorZero(f.payload[k]);
    }
  }

  lemma MaskedTwice(mask: Mask, offset: nat, data: seq<byte>)
    ensures Masked(mask, offset, Masked(mask, offset, data)) == data
  {
    forall i | 0 <= i < |data| ensures Xor(Xor(data[i], mask[(offset + i) % 4]), mask[(offset + i) % 4]) == data[i] {
      XorTwice(data[i], mask[(offset + i) % 4]);
    }
  }

  lemma MaskedZero(data: seq<byte>)
    ensures Masked(NO_MASK, 0, data) == data
  {
    forall i | 0 <= i < |data| ensures Xor(data[i], NO_MASK[i % 4]) == data[i] {
      XorZero(data[i]);
    }
  }

  /** Masking in two pieces, the second from the offset the first one ends at, is masking in one. */
  lemma MaskedSplit(mask: Mask, offset: nat, data: seq<byte>, k: nat)
    requires k <= |data|
    ensures Masked(mask, offset, data) == Masked(mask, offset, data[..k]) + Masked(mask, (offset + k) % 4, data[k..])
  {
    var whole := Masked(mask, offset, data);
    var rest := Masked(mask, (offset + k) % 4, data[k..]);
    forall j | 0 <= j < |rest| ensures rest[j] == whole[k + j] {
      ShiftMod(offset + k, j);
    }
    assert whole == whole[..k] + whole[k..];
    assert whole[..k] == Masked(mask, offset, data[..k]);
  }

  lemma ShiftMod(a: nat, b: nat)
    ensures (a % 4 + b) % 4 == (a + b) % 4
  {
  }
}
