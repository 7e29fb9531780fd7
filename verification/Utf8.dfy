/** UTF-8 as section 3 of RFC 3629 defines it: the strings and bytes of the source's text fields. */
module Utf8 {
  import opened Wrappers
  import opened Bytes

  function EncodeChar(c: char): (s: seq<byte>)
    ensures 1 <= |s| <= 4
    ensures |s| == 1 <==> c as int < 0x80
    ensures forall i | 0 <= i < |s| :: s[i] >= 0x80 <==> |s| > 1
  {
    var n := c as int;
    if n < 0x80 then [n]
    else if n < 0x800 then [0xC0 + n / 64, Tail(n)]
    else if n < 0x10000 then [0xE0 + n / 64 / 64, Tail(n / 64), Tail(n)]
    else [0xF0 + n / 64 / 64 / 64, Tail(n / 64 / 64), Tail(n / 64), Tail(n)]
  }

  /** A continuation octet that carries the six low bits of `n`. */
  function Tail(n: nat): byte {
    0x80 + n % 64
  }

  predicate Continuation(b: byte) {
    0x80 <= b < 0xC0
  }

  /** One more octet: six more bits below those already read. */
  function Join(high: int, b: byte): int {
    high * 64 + (b - 0x80)
  }

  /** The first character of `s`, if `s` starts with a well-formed one. */
  function DecodeChar(s: seq<byte>): (r: Option<char>) {
    if s == [] then None
    else
      var first: int := s[0];
      if first < 0x80 then Scalar(0, first)
      else if 0xC2 <= first < 0xE0 then
        if |s| < 2 || !Continuation(s[1]) then None else Scalar(0x80, Join(first - 0xC0, s[1]))
      else if 0xE0 <= first < 0xF0 then
        if |s| < 3 || !Continuation(s[1]) || !Continuation(s[2]) then None
        else Scalar(0x800, Join(Join(first - 0xE0, s[1]), s[2]))
      else if 0xF0 <= first < 0xF5 then
        if |s| < 4 || !Continuation(s[1]) || !Continuation(s[2]) || !Continuation(s[3]) then None
        else Scalar(0x10000, Join(Join(Join(first - 0xF0, s[1]), s[2]), s[3]))
      else None
  }

  /** Neither an overlong form, nor a surrogate, nor beyond the last code point. */
  function Scalar(least: int, n: int): Option<char>
    requires least >= 0
  {
    if n < least || 0xD800 <= n < 0xE000 || n > 0x10FFFF then None else Some(n as char)
  }

  lemma JoinTail(n: nat)
    ensures Join(n / 64, Tail(n)) == n && Continuation(Tail(n))
  {
  }

  lemma TailJoin(high: nat, b: byte)
    requires Continuation(b)
    ensures Join(high, b) / 64 == high && Tail(Join(high, b)) == b
  {
    assert Join(high, b) % 64 == b - 0x80;
  }

  lemma DecodeEncodeChar(c: char, rest: seq<byte>)
    ensures DecodeChar(EncodeChar(c) + rest) == Some(c)
  {
    var n := c as int;
    var s := EncodeChar(c) + rest;
    assert forall i | 0 <= i < |EncodeChar(c)| :: s[i] == EncodeChar(c)[i];
    JoinTail(n);
    JoinTail(n / 64);
    JoinTail(n / 64 / 64);
  }

  lemma EncodeDecodeChar(s: seq<byte>)
    requires DecodeChar(s).Some?
    ensures EncodeChar(DecodeChar(s).value) <= s
  {
    var first: int := s[0];
    if first < 0x80 {
    } else if first < 0xE0 {
      TailJoin(first - 0xC0, s[1]);
    } else if first < 0xF0 {
      TailJoin(first - 0xE0, s[1]);
      TailJoin(Join(first - 0xE0, s[1]), s[2]);
    } else {
      TailJoin(first - 0xF0, s[1]);
      TailJoin(Join(first - 0xF0, s[1]), s[2]);
      TailJoin(Join(Join(first - 0xF0, s[1]), s[2]), s[3]);
    }
  }

  function Encode(s: string): seq<byte> {
    if s == [] then [] else EncodeChar(s[0]) + Encode(s[1..])
  }

  /** The text of `b`, or None when `b` is not well-formed UTF-8. */
  function Decode(b: seq<byte>): Option<string>
    decreases |b|
  {
    if b == [] then Some([])
    else
      var c := DecodeChar(b);
      if c.None? then None
      else
        EncodeDecodeChar(b);
        var rest := Decode(b[|EncodeChar(c.value)|..]);
        if rest.None? then None else Some([c.value] + rest.value)
  }

  lemma {:induction false} DecodeEncode(s: string)
    ensures Decode(Encode(s)) == Some(s)
  {
    if s != [] {
      var tail := Encode(s[1..]);
      DecodeEncodeChar(s[0], tail);
      DecodeEncode(s[1..]);
      assert Encode(s)[|EncodeChar(s[0])|..] == tail;
      assert s == [s[0]] + s[1..];
    }
  }

  lemma {:induction false} EncodeDecode(b: seq<byte>)
    requires Decode(b).Some?
    ensures Encode(Decode(b).value) == b
    decreases |b|
  {
    if b != [] {
      EncodeDecodeChar(b);
      var first := EncodeChar(DecodeChar(b).value);
      EncodeDecode(b[|first|..]);
      assert b == first + b[|first|..];
    }
  }

  predicate Valid(b: seq<byte>) {
    Decode(b).Some?
  }

  lemma ValidCons(c: char, rest: seq<byte>)
    ensures Valid(EncodeChar(c) + rest) == Valid(rest)
  {
    DecodeEncodeChar(c, rest);
    assert (EncodeChar(c) + rest)[|EncodeChar(c)|..] == rest;
  }
}
