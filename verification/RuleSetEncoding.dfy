/** Writing a rule tree in the binary format, and reading it back. */
module RuleSetEncoding {
  import opened Arithmetic
  import opened Bytes
  import opened RuleSetFormat
  import Utf8

  // ---- Integers and strings ----

  /** Unsigned LEB128: seven bits to an octet, low bits first. */
  function Leb128(v: nat): seq<byte> {
    if v < 128 then [v] else [v % 128 + 128] + Leb128(v / 128)
  }

  /** A value with `i` groups of seven bits below it. */
  function Shifted(v: nat, i: nat): nat {
    v * Pow2(7 * i)
  }

  /** The varint reader returns every 64-bit value exactly, whatever follows it. */
  lemma {:induction false} UvarintLeb128(v: nat, i: nat, value: nat, rest: seq<byte>)
    requires i < 10 && v < Pow2(64 - 7 * i)
    ensures UvarintFrom(Leb128(v) + rest, i, value) == Got(value + Shifted(v, i), rest)
    decreases v
  {
    hide Pow2, Group, Shifted, Leb128, UvarintFrom;
    var s := Leb128(v) + rest;
    LastGroup(v, i);
    SevenBits(v, i);
    LebFirst(v, rest);
    UvarintStep(s, i, value);
    if v >= 128 {
      UvarintLeb128(v / 128, i + 1, value + Group(s[0], i), rest);
    }
  }

  lemma LebFirst(v: nat, rest: seq<byte>)
    ensures var s := Leb128(v) + rest;
      s != [] && s[0] == (if v < 128 then v else v % 128 + 128) && s[1..] == if v < 128 then rest else Leb128(v / 128) + rest
  {
    var first: byte := if v < 128 then v else v % 128 + 128;
    var more := if v < 128 then [] else Leb128(v / 128);
    assert Leb128(v) == [first] + more;
    hide Leb128;
    assert [first] + more + rest == [first] + (more + rest);
    assert [] + rest == rest;
  }

  lemma LastGroup(v: nat, i: nat)
    requires i < 10 && v < Pow2(64 - 7 * i)
    ensures i == 9 ==> v < 2
    ensures v >= 128 ==> i < 9 && v / 128 < Pow2(64 - 7 * (i + 1))
  {
    if i == 9 {
      assert Pow2(1) == 2;
    } else {
      Pow2Add(7, 64 - 7 * (i + 1));
      assert Pow2(7) == 128;
    }
  }

  lemma SevenBits(v: nat, i: nat)
    ensures v < 128 ==> Group(v, i) == Shifted(v, i)
    ensures Group(v % 128 + 128, i) + Shifted(v / 128, i + 1) == Shifted(v, i)
  {
    Pow2Add(7, 7 * i);
    assert Pow2(7) == 128;
    assert 7 + 7 * i == 7 * (i + 1);
    hide Pow2;
    LowSeven(v, Pow2(7 * i));
  }

  lemma LowSeven(v: nat, p: nat)
    ensures v % 128 * p + v / 128 * (128 * p) == v * p
  {
    var high, low := v / 128, v % 128;
    assert high * (128 * p) == 128 * high * p;
    assert (128 * high + low) * p == 128 * high * p + low * p;
    assert v == 128 * high + low;
  }

  lemma CountLeb128(v: nat, rest: seq<byte>)
    requires v <= MAX_COLLECTION_SIZE
    ensures Count(Leb128(v) + rest) == Got(v, rest)
  {
    assert Pow2(8) == 256;
    Pow2Add(8, 8);
    Pow2Add(16, 8);
    Pow2Monotone(24, 64);
    UvarintLeb128(v, 0, 0, rest);
    assert Pow2(0) == 1;
  }

  function StringBytes(b: seq<byte>): seq<byte> {
    Leb128(|b|) + b
  }

  lemma ByteStringBack(b: seq<byte>, rest: seq<byte>)
    requires |b| <= MAX_COLLECTION_SIZE
    ensures ByteString(StringBytes(b) + rest) == Got(b, rest)
  {
    hide Leb128, Count;
    assert StringBytes(b) + rest == Leb128(|b|) + (b + rest);
    CountLeb128(|b|, b + rest);
    assert (b + rest)[..|b|] == b && (b + rest)[|b|..] == rest;
  }

  function TextBytes(s: string): seq<byte> {
    StringBytes(Utf8.Encode(s))
  }

  predicate ShortText(s: string) {
    |Utf8.Encode(s)| <= MAX_COLLECTION_SIZE
  }

  lemma TextBack(s: string, rest: seq<byte>)
    requires ShortText(s)
    ensures Text(TextBytes(s) + rest) == Got(s, rest)
  {
    ByteStringBack(Utf8.Encode(s), rest);
    Utf8.DecodeEncode(s);
  }

  lemma BeIntBack(width: nat, v: nat, rest: seq<byte>)
    requires v < Span(width)
    ensures BeInt(width, ToBe(v, width) + rest) == Got(v, rest)
  {
    var b := ToBe(v, width);
    FromBeToBe(v, width);
    assert (b + rest)[..width] == b && (b + rest)[width..] == rest;
  }

  // ---- Lists ----

  function AllBytes<T>(values: seq<T>, bytes: T -> seq<byte>): seq<byte> {
    if values == [] then [] else AllBytes(values[..|values| - 1], bytes) + bytes(values[|values| - 1])
  }

  /** A reader gets back what a writer wrote for one value. */
  ghost predicate Inverts<T(!new)>(item: seq<byte> -> Parsed<T>, bytes: T -> seq<byte>, ok: T -> bool) {
    forall v, rest | ok(v) :: item(bytes(v) + rest) == Got(v, rest)
  }

  lemma {:induction false} ManyBack<T(!new)>(values: seq<T>, item: seq<byte> -> Parsed<T>, bytes: T -> seq<byte>, ok: T -> bool, rest: seq<byte>)
    requires Inverts(item, bytes, ok) && forall i | 0 <= i < |values| :: ok(values[i])
    ensures Many(|values|, AllBytes(values, bytes) + rest, item) == Got(values, rest)
  {
    if values == [] {
      assert AllBytes(values, bytes) + rest == rest;
    } else {
      var init, last := values[..|values| - 1], values[|values| - 1];
      var after := bytes(last) + rest;
      ManyBack(init, item, bytes, ok, after);
      assert AllBytes(values, bytes) + rest == AllBytes(init, bytes) + after;
      assert init + [last] == values;
    }
  }

  function ListBytes<T>(values: seq<T>, bytes: T -> seq<byte>): seq<byte> {
    Leb128(|values|) + AllBytes(values, bytes)
  }

  lemma CountedBack<T(!new)>(values: seq<T>, item: seq<byte> -> Parsed<T>, bytes: T -> seq<byte>, ok: T -> bool, rest: seq<byte>)
    requires Inverts(item, bytes, ok) && forall i | 0 <= i < |values| :: ok(values[i])
    requires |values| <= MAX_COLLECTION_SIZE
    ensures Counted(ListBytes(values, bytes) + rest, item) == Got(values, rest)
  {
    hide Leb128, Count, Many, AllBytes;
    var all := AllBytes(values, bytes);
    assert ListBytes(values, bytes) + rest == Leb128(|values|) + (all + rest);
    CountLeb128(|values|, all + rest);
    ManyBack(values, item, bytes, ok, rest);
  }

  predicate ShortTexts(values: seq<string>) {
    |values| <= MAX_COLLECTION_SIZE && forall i | 0 <= i < |values| :: ShortText(values[i])
  }

  lemma StringsBack(values: seq<string>, rest: seq<byte>)
    requires ShortTexts(values)
    ensures Strings(ListBytes(values, TextBytes) + rest) == Got(values, rest)
  {
    forall v, r | ShortText(v) ensures Text(TextBytes(v) + r) == Got(v, r) {
      TextBack(v, r);
    }
    hide Text, TextBytes, ShortText;
    CountedBack(values, Text, TextBytes, ShortText, rest);
  }

  predicate Words(values: seq<nat>, width: nat) {
    |values| <= MAX_COLLECTION_SIZE && forall i | 0 <= i < |values| :: values[i] < Span(width)
  }

  function IntBytes(width: nat): nat -> seq<byte> {
    v => ToBe(v, width)
  }

  lemma IntsBack(values: seq<nat>, width: nat, rest: seq<byte>)
    requires Words(values, width)
    ensures Counted(ListBytes(values, IntBytes(width)) + rest, x => BeInt(width, x)) == Got(values, rest)
  {
    var item: seq<byte> -> Parsed<nat> := x => BeInt(width, x);
    var ok := (v: nat) => v < Span(width);
    forall v: nat, r | ok(v) ensures item(IntBytes(width)(v) + r) == Got(v, r) {
      BeIntBack(width, v, r);
    }
    hide BeInt;
    CountedBack(values, item, IntBytes(width), ok, rest);
  }

  // ---- IP sets ----

  function RangeBytes(range: IpRange): seq<byte> {
    var n := if range.Range4? then 4 else 16;
    StringBytes(ToBe(range.from, n)) + StringBytes(ToBe(range.to, n))
  }

  lemma RangeBack(range: IpRange, rest: seq<byte>)
    requires range.Valid()
    ensures Range(RangeBytes(range) + rest) == Got(range, rest)
  {
    var n := if range.Range4? then 4 else 16;
    var from, to := ToBe(range.from, n), ToBe(range.to, n);
    SpanPow2(n);
    FromBeToBe(range.from, n);
    FromBeToBe(range.to, n);
    hide ByteString, StringBytes, ToBe, FromBe, Span, Pow2;
    assert RangeBytes(range) + rest == StringBytes(from) + (StringBytes(to) + rest);
    ByteStringBack(from, StringBytes(to) + rest);
    ByteStringBack(to, rest);
  }

  predicate ShortRanges(ranges: seq<IpRange>) {
    |ranges| <= MAX_COLLECTION_SIZE && RangesOk(ranges)
  }

  function IpSetBytes(ranges: seq<IpRange>): seq<byte> {
    [1] + ToBe(|ranges|, 8) + AllBytes(ranges, RangeBytes)
  }

  lemma IpSetBack(ranges: seq<IpRange>, rest: seq<byte>)
    requires ShortRanges(ranges)
    ensures IpSet(IpSetBytes(ranges) + rest) == Got(BlocksOf(ranges), rest)
  {
    forall v: IpRange, r | v.Valid() ensures Range(RangeBytes(v) + r) == Got(v, r) {
      RangeBack(v, r);
    }
    hide Range, RangeBytes, Many, AllBytes;
    var ok := (v: IpRange) => v.Valid();
    ManyBack(ranges, Range, RangeBytes, ok, rest);
    IpSetHead(|ranges|, AllBytes(ranges, RangeBytes), rest);
    assert |ranges| as int <= MAX_COLLECTION_SIZE;
  }

  lemma IpSetHead(n: nat, body: seq<byte>, rest: seq<byte>)
    requires n <= MAX_COLLECTION_SIZE
    ensures var s := [1] + ToBe(n, 8) + body + rest;
            U8(s) == Got(1, s[1..]) && BeInt(8, s[1..]) == Got(n, body + rest)
  {
    var s := [1] + ToBe(n, 8) + body + rest;
    assert s[1..] == ToBe(n, 8) + (body + rest);
    assert Span(8) > MAX_COLLECTION_SIZE;
    hide BeInt;
    BeIntBack(8, n, body + rest);
  }
}
