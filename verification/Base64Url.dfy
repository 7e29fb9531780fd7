/** The unpadded URL form of base64 that carries VLESS early data in an HTTP header. */
module Base64Url {
  import opened Wrappers
  import opened Arithmetic
  import opened Bytes

  /** The standard alphabet: `A`-`Z`, `a`-`z`, `0`-`9`, `+`, `/`. */
  function Symbol(k: nat): char
    requires k < 64
  {
    if k < 26 then ('A' as int + k) as char
    else if k < 52 then ('a' as int + (k - 26)) as char
    else if k < 62 then ('0' as int + (k - 52)) as char
    else if k == 62 then '+'
    else '/'
  }

  /** The six-bit digits of a byte string, most significant first. */
  function Sextets(value: seq<byte>): Digits64 {
    if |value| == 0 then []
    else if |value| == 1 then QuadOf(value[0], 0, 0)[..2]
    else if |value| == 2 then QuadOf(value[0], value[1], 0)[..3]
    else QuadOf(value[0], value[1], value[2]) + Sextets(value[3..])
  }

  /** Four digits for three bytes. */
  function QuadOf(b0: byte, b1: byte, b2: byte): (d: Digits64)
    ensures |d| == 4
  {
    [b0 / 4, b0 % 4 * 16 + b1 / 16, b1 % 16 * 4 + b2 / 64, b2 % 64]
  }

  function Padding(length: nat): string {
    if length % 3 == 1 then "==" else if length % 3 == 2 then "=" else ""
  }

  /** Section 4 of RFC 4648. */
  function Base64(value: seq<byte>): string {
    Text(Sextets(value)) + Padding(|value|)
  }

  type Digits64 = s: seq<nat> | forall i | 0 <= i < |s| :: s[i] < 64

  function Text(digits: Digits64): string {
    seq(|digits|, i requires 0 <= i < |digits| => Symbol(digits[i]))
  }

  /** The three-byte loop of `encode_base64`. */
  method EncodeBase64(value: seq<byte>) returns (output: string)
    ensures output == Base64(value)
  {
    hide Base64, Sextets, Padding, Symbol;
    assert Base64([]) == "" by { EmptyBase64(); }
    output := "";
    var rest := value;
    while rest != []
      invariant Base64(value) == output + Base64(rest)
      decreases |rest|
    {
      var chunk := if |rest| < 3 then rest else rest[..3];
      Base64Step(rest);
      rest := rest[|chunk|..];
      var first := chunk[0];
      if |chunk| == 1 {
        output := output + ([Symbol(first / 4), Symbol(first % 4 * 16)] + "==");
        continue;
      }
      var second := chunk[1];
      if |chunk| == 2 {
        output := output + ([Symbol(first / 4), Symbol(first % 4 * 16 + second / 16), Symbol(second % 16 * 4)] + "=");
        continue;
      }
      var third := chunk[2];
      var quad := [Symbol(first / 4), Symbol(first % 4 * 16 + second / 16),
                   Symbol(second % 16 * 4 + third / 64), Symbol(third % 64)];
      assert output + (quad + Base64(rest)) == (output + quad) + Base64(rest);
      output := output + quad;
    }
  }

  lemma EmptyBase64()
    ensures Base64([]) == ""
  {
  }

  lemma Base64Step(rest: seq<byte>)
    requires rest != []
    ensures |rest| == 1 ==> Base64(rest) == [Symbol(rest[0] / 4), Symbol(rest[0] % 4 * 16)] + "=="
    ensures |rest| == 2 ==>
              Base64(rest) == [Symbol(rest[0] / 4), Symbol(rest[0] % 4 * 16 + rest[1] / 16), Symbol(rest[1] % 16 * 4)] + "="
    ensures |rest| >= 3 ==>
              Base64(rest) == [Symbol(rest[0] / 4), Symbol(rest[0] % 4 * 16 + rest[1] / 16),
                               Symbol(rest[1] % 16 * 4 + rest[2] / 64), Symbol(rest[2] % 64)] + Base64(rest[3..])
  {
    hide Symbol;
    if |rest| >= 3 {
      var more := Sextets(rest[3..]);
      var quad: Digits64 := Sextets(rest)[..4];
      assert Sextets(rest) == quad + more;
      TextConcat(quad, more);
      assert Text(quad) == [Symbol(quad[0]), Symbol(quad[1]), Symbol(quad[2]), Symbol(quad[3])];
      assert Padding(|rest|) == Padding(|rest[3..]|) by {
        assert |rest| % 3 == |rest[3..]| % 3;
      }
    }
  }

  lemma TextConcat(a: Digits64, b: Digits64)
    ensures Text(a + b) == Text(a) + Text(b)
  {
  }

  function TrimEnd(s: string, c: char): string {
    if s != "" && s[|s| - 1] == c then TrimEnd(s[..|s| - 1], c) else s
  }

  function UrlChar(c: char): char {
    if c == '+' then '-' else if c == '/' then '_' else c
  }

  function EncodeBase64Url(value: seq<byte>): string {
    var s := TrimEnd(Base64(value), '=');
    seq(|s|, i requires 0 <= i < |s| => UrlChar(s[i]))
  }

  /** The value of a digit of the URL alphabet. */
  function Digit(c: char): (r: Option<nat>)
    ensures r.Some? ==> r.value < 64
  {
    var n := c as int;
    if 'A' <= c <= 'Z' then Some(n - 'A' as int)
    else if 'a' <= c <= 'z' then Some(n - 'a' as int + 26)
    else if '0' <= c <= '9' then Some(n - '0' as int + 52)
    else if c == '-' then Some(62)
    else if c == '_' then Some(63)
    else None
  }

  datatype Base64Error = InvalidCharacter | InvalidPadding

  function Emit(b: byte, r: Result<seq<byte>, Base64Error>): Result<seq<byte>, Base64Error> {
    Before([b], r)
  }

  function Before(first: seq<byte>, r: Result<seq<byte>, Base64Error>): Result<seq<byte>, Base64Error> {
    if r.Err? then r else Ok(first + r.value)
  }

  lemma BeforeBefore(a: seq<byte>, b: seq<byte>, r: Result<seq<byte>, Base64Error>)
    ensures Before(a, Before(b, r)) == Before(a + b, r) && Before([], r) == r
  {
    if r.Ok? {
      assert a + (b + r.value) == (a + b) + r.value && [] + r.value == r.value;
    }
  }

  /** The decoder's accumulator, read recursively: `bits` bits of `buffer` are still to be used. */
  function DecodeFrom(s: string, buffer: nat, bits: nat): (r: Result<seq<byte>, Base64Error>)
    requires bits == 0 || bits == 2 || bits == 4 || bits == 6
    decreases |s|
  {
    if s == "" || s[0] == '=' then if bits < 6 then Ok([]) else Err(InvalidPadding)
    else
      var digit := Digit(s[0]);
      if digit.None? then Err(InvalidCharacter)
      else
        var wide := buffer * 64 + digit.value;
        if bits + 6 < 8 then DecodeFrom(s[1..], wide, bits + 6)
        else
          var left := bits - 2;
          Emit(wide / Low(left) % 256, DecodeFrom(s[1..], wide % Low(left), left))
  }

  /** Two to the number of bits that stay in the buffer. */
  function Low(bits: nat): (n: nat)
    ensures n > 0
  {
    if bits == 0 then 1 else if bits == 2 then 4 else if bits == 4 then 16 else 64
  }

  method DecodeBase64Url(value: string) returns (r: Result<seq<byte>, Base64Error>)
    ensures r == DecodeFrom(value, 0, 0)
  {
    var output: seq<byte> := [];
    var buffer: nat, bits: nat, i: nat := 0, 0, 0;
    assert value[0..] == value;
    BeforeBefore([], [], DecodeFrom(value, 0, 0));
    while i < |value| && value[i] != '='
      invariant i <= |value| && (bits == 0 || bits == 2 || bits == 4 || bits == 6)
      invariant buffer < Low(bits)
      invariant DecodeFrom(value, 0, 0) == Before(output, DecodeFrom(value[i..], buffer, bits))
    {
      var digit := Digit(value[i]);
      assert value[i..][1..] == value[i + 1..];
      if digit.None? {
        return Err(InvalidCharacter);
      }
      buffer, bits := buffer * 64 + digit.value, bits + 6;
      if bits >= 8 {
        bits := bits - 8;
        BeforeBefore(output, [buffer / Low(bits) % 256], DecodeFrom(value[i + 1..], buffer % Low(bits), bits));
        output := output + [buffer / Low(bits) % 256];
        buffer := buffer % Low(bits);
      }
      i := i + 1;
    }
    if bits >= 6 {
      return Err(InvalidPadding);
    }
    assert output + [] == output;
    return Ok(output);
  }

  // ---- Round trip ----

  lemma DigitOfSymbol(k: nat)
    requires k < 64
    ensures Symbol(k) != '=' && UrlChar(Symbol(k)) != '='
    ensures Digit(UrlChar(Symbol(k))) == Some(k)
  {
  }

  /** The URL text of a list of digits. */
  function UrlText(digits: Digits64): string {
    seq(|digits|, i requires 0 <= i < |digits| => UrlChar(Symbol(digits[i])))
  }

  lemma {:induction false} TrimPadding(s: string, n: nat)
    requires n <= |s| && forall i | n <= i < |s| :: s[i] == '='
    requires n == 0 || s[n - 1] != '='
    ensures TrimEnd(s, '=') == s[..n]
    decreases |s|
  {
    if n < |s| {
      TrimPadding(s[..|s| - 1], n);
      assert s[..|s| - 1][..n] == s[..n];
    } else {
      assert s[..n] == s;
    }
  }

  lemma EncodedText(value: seq<byte>)
    ensures EncodeBase64Url(value) == UrlText(Sextets(value))
  {
    var digits := Sextets(value);
    hide Sextets, Symbol;
    var s := Base64(value);
    if |digits| > 0 {
      DigitOfSymbol(digits[|digits| - 1]);
    }
    TrimPadding(s, |digits|);
  }

  /** One digit of encoded text, when it does not complete a byte and when it does. */
  lemma DecodeFirst(digits: Digits64)
    requires |digits| > 0
    ensures DecodeFrom(UrlText(digits), 0, 0) == DecodeFrom(UrlText(digits[1..]), digits[0], 6)
  {
    DigitOfSymbol(digits[0]);
    assert UrlText(digits)[1..] == UrlText(digits[1..]);
  }

  lemma DecodeNext(digits: Digits64, buffer: nat, bits: nat, b: byte, left: nat)
    requires |digits| > 0 && (bits == 6 || bits == 4 || bits == 2)
    requires buffer * 64 + digits[0] == b * Low(bits - 2) + left && left < Low(bits - 2)
    ensures DecodeFrom(UrlText(digits), buffer, bits) == Emit(b, DecodeFrom(UrlText(digits[1..]), left, bits - 2))
  {
    hide Symbol, Digit, UrlChar;
    DigitOfSymbol(digits[0]);
    var s := UrlText(digits);
    assert s[1..] == UrlText(digits[1..]);
    var wide, low := buffer * 64 + digits[0], Low(bits - 2);
    assert DecodeFrom(s, buffer, bits) == Emit(wide / low % 256, DecodeFrom(s[1..], wide % low, bits - 2));
    hide DecodeFrom, UrlText, Low;
    DivUnique(wide, low, b, left);
  }

  lemma DecodeEnd(buffer: nat, bits: nat)
    requires bits == 2 || bits == 4
    ensures DecodeFrom(UrlText([]), buffer, bits) == Ok([])
  {
  }

  /** Whatever bytes are encoded, the decoder gets them back. */
  lemma {:induction false} DecodeEncode(value: seq<byte>)
    ensures DecodeFrom(EncodeBase64Url(value), 0, 0) == Ok(value)
    decreases |value|
  {
    hide Sextets, EncodeBase64Url, UrlText, DecodeFrom;
    EncodedText(value);
    if |value| == 0 {
      DecodeEmpty();
    } else if |value| <= 2 {
      DecodeShort(value);
    } else {
      EncodedText(value[3..]);
      DecodeEncode(value[3..]);
      DecodeLong(value);
      assert value == [value[0]] + ([value[1]] + ([value[2]] + value[3..]));
    }
  }

  lemma DecodeEmpty()
    ensures DecodeFrom(UrlText(Sextets([])), 0, 0) == Ok([])
  {
  }

  lemma DecodeShort(value: seq<byte>)
    requires |value| == 1 || |value| == 2
    ensures DecodeFrom(UrlText(Sextets(value)), 0, 0) == Ok(value)
  {
    hide DecodeFrom, UrlText, QuadOf, Splits;
    var b1: byte := if |value| > 1 then value[1] else 0;
    SextetsSplit(value[0], b1, 0);
    var d := QuadOf(value[0], b1, 0);
    if |value| == 1 {
      assert Sextets(value) == [d[0], d[1]];
      DecodeOne(value[0], d[0], d[1]);
      assert value == [value[0]];
    } else {
      assert Sextets(value) == [d[0], d[1], d[2]];
      DecodeTwo(value[0], b1, d[0], d[1], d[2]);
      assert value == [value[0]] + ([value[1]] + []);
    }
  }

  lemma DecodeLong(value: seq<byte>)
    requires |value| >= 3
    ensures DecodeFrom(UrlText(Sextets(value)), 0, 0)
         == Emit(value[0], Emit(value[1], Emit(value[2], DecodeFrom(UrlText(Sextets(value[3..])), 0, 0))))
  {
    hide DecodeFrom, UrlText, QuadOf, Splits;
    SextetsSplit(value[0], value[1], value[2]);
    var d := QuadOf(value[0], value[1], value[2]);
    var more := Sextets(value[3..]);
    assert Sextets(value) == d + more;
    hide Sextets;
    FourDigits(d);
    DecodeQuad(value[0], value[1], value[2], d[0], d[1], d[2], d[3], more);
  }

  lemma FourDigits(d: Digits64)
    requires |d| == 4
    ensures d == [d[0], d[1], d[2], d[3]]
  {
  }

  lemma DecodeQuad(b0: byte, b1: byte, b2: byte, d0: nat, d1: nat, d2: nat, d3: nat, more: Digits64)
    requires Splits(b0, b1, b2, d0, d1, d2, d3)
    ensures DecodeFrom(UrlText([d0, d1, d2, d3] + more), 0, 0)
         == Emit(b0, Emit(b1, Emit(b2, DecodeFrom(UrlText(more), 0, 0))))
  {
    hide DecodeFrom, UrlText;
    var digits: Digits64 := [d0, d1, d2, d3] + more;
    assert digits[1..][1..] == digits[2..] && digits[2..][1..] == digits[3..] && digits[3..][1..] == more;
    DecodeFirst(digits);
    DecodeNext(digits[1..], d0, 6, b0, b1 / 16);
    DecodeNext(digits[2..], b1 / 16, 4, b1, b2 / 64);
    DecodeNext(digits[3..], b2 / 64, 2, b2, 0);
  }

  lemma DecodeOne(b0: byte, d0: nat, d1: nat)
    requires Splits(b0, 0, 0, d0, d1, 0, 0)
    ensures DecodeFrom(UrlText([d0, d1]), 0, 0) == Ok([b0])
  {
    hide DecodeFrom, UrlText;
    DecodeFirst([d0, d1]);
    DecodeNext([d0, d1][1..], d0, 6, b0, 0);
    DecodeEnd(0, 4);
    assert [d0, d1][1..][1..] == [] && [b0] + [] == [b0];
  }

  lemma DecodeTwo(b0: byte, b1: byte, d0: nat, d1: nat, d2: nat)
    requires Splits(b0, b1, 0, d0, d1, d2, 0)
    ensures DecodeFrom(UrlText([d0, d1, d2]), 0, 0) == Emit(b0, Emit(b1, Ok([])))
  {
    hide DecodeFrom, UrlText;
    DecodeFirst([d0, d1, d2]);
    DecodeNext([d0, d1, d2][1..], d0, 6, b0, b1 / 16);
    DecodeNext([d0, d1, d2][1..][1..], b1 / 16, 4, b1, 0);
    DecodeEnd(0, 2);
    assert [d0, d1, d2][1..][1..][1..] == [];
  }

  /** The four digits that hold three bytes. */
  predicate Splits(b0: byte, b1: byte, b2: byte, d0: nat, d1: nat, d2: nat, d3: nat) {
    && d0 < 64 && d1 < 64 && d2 < 64 && d3 < 64
    && d0 * 64 + d1 == b0 * 16 + b1 / 16
    && b1 / 16 * 64 + d2 == b1 * 4 + b2 / 64
    && b2 / 64 * 64 + d3 == b2
  }

  lemma SextetsSplit(b0: byte, b1: byte, b2: byte)
    ensures var d := QuadOf(b0, b1, b2); Splits(b0, b1, b2, d[0], d[1], d[2], d[3])
  {
  }

  // ---- What is accepted ----

  /** The length of the text before the first pad character. */
  function Digits(s: string): (n: nat)
    ensures n <= |s|
  {
    if s == "" || s[0] == '=' then 0 else 1 + Digits(s[1..])
  }

  /** The decoder accepts a text exactly when the characters before the first pad are all digits
      and do not leave a single one over; it looks at nothing behind that pad. */
  lemma {:induction false} AcceptedTexts(s: string, buffer: nat, bits: nat)
    requires bits == 0 || bits == 2 || bits == 4 || bits == 6
    ensures DecodeFrom(s, buffer, bits).Ok?
       <==> AllDigits(s) && (bits + 6 * Digits(s)) % 8 < 6
    ensures DecodeFrom(s, buffer, bits).Ok? ==> |DecodeFrom(s, buffer, bits).value| == (bits + 6 * Digits(s)) / 8
    decreases |s|
  {
    if s != "" && s[0] != '=' {
      AllDigitsStep(s);
      if Digit(s[0]).Some? {
        var wide := buffer * 64 + Digit(s[0]).value;
        CountStep(bits, Digits(s[1..]));
        if bits == 0 {
          AcceptedTexts(s[1..], wide, 6);
        } else {
          AcceptedTexts(s[1..], wide % Low(bits - 2), bits - 2);
        }
      }
    }
  }

  lemma CountStep(bits: nat, n: nat)
    requires bits == 0 || bits == 2 || bits == 4 || bits == 6
    ensures var all, rest := bits + 6 * (1 + n), (if bits == 0 then 6 else bits - 2) + 6 * n;
            all % 8 == rest % 8 && all / 8 == rest / 8 + if bits == 0 then 0 else 1
  {
    var all, rest := bits + 6 * (1 + n), (if bits == 0 then 6 else bits - 2) + 6 * n;
    assert 6 * (1 + n) == 6 + 6 * n;
    if bits != 0 {
      assert all == rest + 8;
      EightMore(rest);
    }
  }

  lemma EightMore(x: nat)
    ensures (x + 8) % 8 == x % 8 && (x + 8) / 8 == x / 8 + 1
  {
  }

  predicate AllDigits(s: string) {
    forall i | 0 <= i < Digits(s) :: Digit(s[i]).Some?
  }

  lemma AllDigitsStep(s: string)
    requires s != "" && s[0] != '='
    ensures AllDigits(s) <==> Digit(s[0]).Some? && AllDigits(s[1..])
  {
    if AllDigits(s) {
      assert forall i | 0 <= i < Digits(s[1..]) :: s[1..][i] == s[i + 1];
    }
    if Digit(s[0]).Some? && AllDigits(s[1..]) {
      assert forall i | 1 <= i < Digits(s) :: s[i] == s[1..][i - 1];
    }
  }
}
