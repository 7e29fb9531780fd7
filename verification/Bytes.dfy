/** Octets, big-endian integers and exclusive or. */
module Bytes {
  import opened Arithmetic

  type byte = x: int | 0 <= x < 256

  /** Exclusive or of the `bits` low bits of two numbers. */
  function BitXor(a: nat, b: nat, bits: nat): (r: nat)
    ensures r < Pow2(bits)
  {
    if bits == 0 then 0 else (a % 2 + b % 2) % 2 + 2 * BitXor(a / 2, b / 2, bits - 1)
  }

  /** Bit `i` of the result is set when the operands differ in bit `i`. */
  lemma {:induction false} BitXorBit(a: nat, b: nat, bits: nat, i: nat)
    requires i < bits
    ensures BitXor(a, b, bits) / Pow2(i) % 2 == 1 <==> a / Pow2(i) % 2 != b / Pow2(i) % 2
  {
    var low, high := (a % 2 + b % 2) % 2, BitXor(a / 2, b / 2, bits - 1);
    assert BitXor(a, b, bits) == low + 2 * high;
    LowAndHigh(low, high);
    if i == 0 {
      assert Pow2(i) == 1;
    } else {
      BitXorBit(a / 2, b / 2, bits - 1, i - 1);
      hide Pow2, BitXor;
      BitOfHalf(a, i);
      BitOfHalf(b, i);
      BitOfHalf(BitXor(a, b, bits), i);
    }
  }

  lemma BitOfHalf(x: nat, i: nat)
    requires i > 0
    ensures x / Pow2(i) % 2 == x / 2 / Pow2(i - 1) % 2
  {
    DivDiv(x, 2, Pow2(i - 1));
  }

  lemma {:induction false} BitXorTwice(a: nat, b: nat, bits: nat)
    requires a < Pow2(bits)
    ensures BitXor(BitXor(a, b, bits), b, bits) == a
  {
    if bits > 0 {
      BitXorTwice(a / 2, b / 2, bits - 1);
      var low, high := (a % 2 + b % 2) % 2, BitXor(a / 2, b / 2, bits - 1);
      assert BitXor(a, b, bits) == low + 2 * high;
      hide Pow2;
      LowAndHigh(low, high);
      BitTwice(a, b);
    }
  }

  lemma BitTwice(a: nat, b: nat)
    ensures ((a % 2 + b % 2) % 2 + b % 2) % 2 == a % 2 && a == a % 2 + 2 * (a / 2)
  {
  }

  lemma LowAndHigh(low: nat, high: nat)
    requires low < 2
    ensures (low + 2 * high) % 2 == low && (low + 2 * high) / 2 == high
  {
  }

  function Xor(a: byte, b: byte): byte {
    assert Pow2(8) == 256;
    BitXor(a, b, 8)
  }

  /** The exclusive or of two octets has exactly the bits in which they differ. */
  lemma XorBit(a: byte, b: byte, i: nat)
    requires i < 8
    ensures Xor(a, b) / Pow2(i) % 2 == 1 <==> a / Pow2(i) % 2 != b / Pow2(i) % 2
  {
    BitXorBit(a, b, 8, i);
  }

  lemma XorTwice(a: byte, b: byte)
    ensures Xor(Xor(a, b), b) == a
  {
    assert Pow2(8) == 256;
    BitXorTwice(a, b, 8);
  }

  lemma {:induction false} BitXorZero(a: nat, bits: nat)
    requires a < Pow2(bits)
    ensures BitXor(a, 0, bits) == a
  {
    if bits > 0 {
      BitXorZero(a / 2, bits - 1);
    }
  }

  lemma XorZero(a: byte)
    ensures Xor(a, 0) == a
  {
    assert Pow2(8) == 256;
    BitXorZero(a, 8);
  }

  /** 256 to the power `width`: the number of values `width` bytes can hold. */
  function Span(width: nat): (n: nat)
    ensures n > 0
  {
    if width == 0 then 1 else 256 * Span(width - 1)
  }

  /** The `width`-byte big-endian form of `value`, high bits dropped like an integer cast. */
  function ToBe(value: nat, width: nat): (s: seq<byte>)
    ensures |s| == width
  {
    if width == 0 then [] else ToBe(value / 256, width - 1) + [value % 256]
  }

  function FromBe(s: seq<byte>): (n: nat) {
    if s == [] then 0 else FromBe(s[..|s| - 1]) * 256 + s[|s| - 1]
  }

  lemma {:induction false} FromBeRange(s: seq<byte>)
    ensures FromBe(s) < Span(|s|)
  {
    if s != [] {
      FromBeRange(s[..|s| - 1]);
    }
  }

  lemma {:induction false} FromBeToBe(value: nat, width: nat)
    requires value < Span(width)
    ensures FromBe(ToBe(value, width)) == value
  {
    if width > 0 {
      FromBeToBe(value / 256, width - 1);
      var s := ToBe(value, width);
      assert s[..|s| - 1] == ToBe(value / 256, width - 1);
    }
  }

  lemma {:induction false} ToBeFromBe(s: seq<byte>)
    ensures ToBe(FromBe(s), |s|) == s
  {
    if s != [] {
      ToBeFromBe(s[..|s| - 1]);
      var n := FromBe(s[..|s| - 1]);
      assert FromBe(s) / 256 == n && FromBe(s) % 256 == s[|s| - 1];
      assert s == s[..|s| - 1] + [s[|s| - 1]];
    }
  }

  lemma FromBePair(a: byte, b: byte)
    ensures FromBe([a, b]) == 0x100 * a as int + b
  {
    assert [a, b][..1] == [a] && [a][..0] == [];
    assert FromBe([a]) == a;
  }

  lemma FromBeInjective(a: seq<byte>, b: seq<byte>)
    requires |a| == |b| && FromBe(a) == FromBe(b)
    ensures a == b
  {
    ToBeFromBe(a);
    ToBeFromBe(b);
  }

  lemma {:induction false} FromBeZeros(n: nat)
    ensures FromBe(seq(n, _ => 0)) == 0
  {
    if n > 0 {
      FromBeZeros(n - 1);
      assert seq<byte>(n, _ => 0)[..n - 1] == seq(n - 1, _ => 0);
    }
  }

  /** The first `k` octets count in steps of the span of the others. */
  lemma {:induction false} FromBeSplit(s: seq<byte>, k: nat)
    requires k <= |s|
    ensures FromBe(s) == FromBe(s[..k]) * Span(|s| - k) + FromBe(s[k..])
  {
    if k == |s| {
      assert s[..k] == s;
    } else {
      var init := s[..|s| - 1];
      FromBeSplit(init, k);
      assert init[..k] == s[..k] && s[k..][..|s| - k - 1] == init[k..];
      var a, span := FromBe(s[..k]), Span(|init| - k);
      assert Span(|s| - k) == 256 * span;
      assert FromBe(s) == FromBe(init) * 256 + s[|s| - 1];
      assert FromBe(s[k..]) == FromBe(init[k..]) * 256 + s[|s| - 1];
      hide FromBe, Span;
      SplitStep(a, span);
    }
  }

  lemma SplitStep(a: nat, span: nat)
    ensures a * (256 * span) == (a * span) * 256
  {
  }

  lemma FromBeQuotient(s: seq<byte>, k: nat)
    requires k <= |s|
    ensures FromBe(s) / Span(|s| - k) == FromBe(s[..k])
  {
    FromBeSplit(s, k);
    FromBeRange(s[k..]);
    DivUnique(FromBe(s), Span(|s| - k), FromBe(s[..k]), FromBe(s[k..]));
  }

  lemma {:induction false} SpanPow2(n: nat)
    ensures Span(n) == Pow2(8 * n)
  {
    if n > 0 {
      SpanPow2(n - 1);
      assert Pow2(8) == 256;
      Pow2Add(8, 8 * (n - 1));
    }
  }
}
