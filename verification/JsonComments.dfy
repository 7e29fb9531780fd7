/** Blanking the comments of extended JSON, byte by byte. */
module JsonComments {
  import opened Bytes
  import Utf8
  import opened Wrappers

  const QUOTE: byte := 34
  const SLASH: byte := 47
  const STAR: byte := 42
  const BACKSLASH: byte := 92
  const LINE_FEED: byte := 10
  const CARRIAGE_RETURN: byte := 13
  const SPACE: byte := 32

  datatype Mode = Normal | InString | Escape | LineComment | BlockComment

  datatype StripError = UnterminatedBlockComment | NotUtf8

  predicate LineBreak(b: byte) {
    b == LINE_FEED || b == CARRIAGE_RETURN
  }

  /** Whether `s` starts with these two bytes. */
  predicate Opens(s: seq<byte>, first: byte, second: byte) {
    |s| >= 2 && s[0] == first && s[1] == second
  }

  /** One move of the scanner: how many bytes it takes, what it writes for them, and its next mode. */
  function Move(mode: Mode, s: seq<byte>): (m: (nat, seq<byte>, Mode))
    requires s != []
    ensures 1 <= m.0 <= |s| && |m.1| == m.0
  {
    var b := s[0];
    match mode
    case Normal =>
      if b == QUOTE then (1, [b], InString)
      else if Opens(s, SLASH, SLASH) then (2, [SPACE, SPACE], LineComment)
      else if Opens(s, SLASH, STAR) then (2, [SPACE, SPACE], BlockComment)
      else (1, [b], Normal)
    case InString => (1, [b], if b == BACKSLASH then Escape else if b == QUOTE then Normal else InString)
    case Escape => (1, [b], InString)
    case LineComment => if LineBreak(b) then (1, [b], Normal) else (1, [SPACE], LineComment)
    case BlockComment =>
      if Opens(s, STAR, SLASH) then (2, [SPACE, SPACE], Normal)
      else (1, [if LineBreak(b) then b else SPACE], BlockComment)
  }

  function Strip(mode: Mode, s: seq<byte>): seq<byte>
    decreases |s|
  {
    if s == [] then [] else Move(mode, s).1 + Strip(Move(mode, s).2, s[Move(mode, s).0..])
  }

  function Final(mode: Mode, s: seq<byte>): Mode
    decreases |s|
  {
    if s == [] then mode else Final(Move(mode, s).2, s[Move(mode, s).0..])
  }

  // ---- The lexical grammar ----

  /** A byte outside strings and comments, a string with or without its closing quote, or a comment. */
  datatype Piece =
    | Code(b: byte)
    | Quoted(text: seq<byte>, closed: bool)
    | Line(body: seq<byte>)
    | Block(body: seq<byte>)

  function Written(p: Piece): (s: seq<byte>)
    ensures s != []
  {
    match p
    case Code(b) => [b]
    case Quoted(text, _) => [QUOTE] + text
    case Line(body) => [SLASH, SLASH] + body
    case Block(body) => [SLASH, STAR] + body + [STAR, SLASH]
  }

  /** Everything but line breaks turned to spaces. */
  function Blanked(s: seq<byte>): (r: seq<byte>)
    ensures |r| == |s| && forall i | 0 <= i < |r| :: r[i] == if s[i] == 10 || s[i] == 13 then s[i] else 32
  {
    seq(|s|, i requires 0 <= i < |s| => if LineBreak(s[i]) then s[i] else SPACE)
  }

  /** The piece without its comment: a comment is blanked, anything else stays. */
  function Shown(p: Piece): seq<byte> {
    if p.Line? || p.Block? then Blanked(Written(p)) else Written(p)
  }

  function WrittenAll(pieces: seq<Piece>): seq<byte> {
    if pieces == [] then [] else Written(pieces[0]) + WrittenAll(pieces[1..])
  }

  function ShownAll(pieces: seq<Piece>): seq<byte> {
    if pieces == [] then [] else Shown(pieces[0]) + ShownAll(pieces[1..])
  }

  /** The bytes the grammar is made of, as characters. */
  lemma Characters()
    ensures Utf8.Encode("\"/*\\") == [QUOTE, SLASH, STAR, BACKSLASH]
    ensures Utf8.Encode("\n\r ") == [LINE_FEED, CARRIAGE_RETURN, SPACE]
    ensures forall b: byte :: LineBreak(b) <==> Utf8.Encode("\n") == [b] || Utf8.Encode("\r") == [b]
  {
    Ascii("\"/*\\");
    Ascii("\n\r ");
    Ascii("\n");
    Ascii("\r");
  }

  lemma {:induction false} Ascii(s: string)
    requires forall i | 0 <= i < |s| :: s[i] as int < 0x80
    ensures |Utf8.Encode(s)| == |s| && forall i | 0 <= i < |s| :: Utf8.Encode(s)[i] == s[i] as int
  {
    if s != "" {
      Ascii(s[1..]);
    }
  }

  /** What follows an opening quote: the first quote not behind a backslash closes the string. */
  predicate Literal(text: seq<byte>, closed: bool) {
    if text == [] then !closed
    else if text[0] == QUOTE then closed && |text| == 1
    else if text[0] != BACKSLASH then Literal(text[1..], closed)
    else if |text| == 1 then !closed
    else Literal(text[2..], closed)
  }

  /** A piece that can stand before the text `rest`. */
  predicate Fits(p: Piece, rest: seq<byte>) {
    match p
    case Code(b) => b != QUOTE && (b == SLASH ==> rest == [] || (rest[0] != SLASH && rest[0] != STAR))
    case Quoted(text, closed) => Literal(text, closed) && (closed || rest == [])
    case Line(body) => (forall b <- body :: !LineBreak(b)) && (rest == [] || LineBreak(rest[0]))
    case Block(body) => forall i | 0 <= i < |body| - 1 :: !(body[i] == STAR && body[i + 1] == SLASH)
  }

  predicate Lexed(pieces: seq<Piece>) {
    pieces == [] || (Fits(pieces[0], WrittenAll(pieces[1..])) && Lexed(pieces[1..]))
  }

  // ---- The scanner follows the grammar ----

  lemma Moved(mode: Mode, s: seq<byte>, n: nat, rest: seq<byte>)
    requires s != [] && Move(mode, s).0 == n && s[n..] == rest
    ensures Strip(mode, s) == Move(mode, s).1 + Strip(Move(mode, s).2, rest)
    ensures Final(mode, s) == Final(Move(mode, s).2, rest)
  {
  }

  /** A byte that is kept. */
  lemma Kept(mode: Mode, b: byte, rest: seq<byte>)
    requires Move(mode, [b] + rest).0 == 1 && Move(mode, [b] + rest).1 == [b]
    ensures Strip(mode, [b] + rest) == [b] + Strip(Move(mode, [b] + rest).2, rest)
    ensures Final(mode, [b] + rest) == Final(Move(mode, [b] + rest).2, rest)
  {
    Moved(mode, [b] + rest, 1, rest);
  }

  lemma Prefixed(a: seq<byte>, b: seq<byte>, rest: seq<byte>)
    ensures (a + b) + rest == a + (b + rest)
  {
  }

  lemma {:induction false} StringWalk(text: seq<byte>, closed: bool, rest: seq<byte>)
    requires Literal(text, closed) && (closed || rest == [])
    ensures Strip(InString, text + rest) == text + Strip(Normal, rest)
    ensures Final(Normal, rest) != BlockComment <==> Final(InString, text + rest) != BlockComment
    decreases |text|
  {
    if text == [] || |text| == 1 {
      assert Strip(Normal, []) == [] && Strip(InString, []) == [] && Strip(Escape, []) == [];
      if text != [] {
        Kept(InString, text[0], rest);
        assert text == [text[0]];
      }
    } else {
      hide Strip, Final;
      var n := if text[0] == BACKSLASH then 2 else 1;
      var first, more := text[..n], text[n..];
      StringWalk(more, closed, rest);
      assert text == first + more;
      Prefixed(first, more, rest);
      Prefixed(first, more, Strip(Normal, rest));
      StringStart(first, more + rest);
    }
  }

  lemma StringStart(first: seq<byte>, rest: seq<byte>)
    requires if |first| == 1 then first[0] != QUOTE && first[0] != BACKSLASH else |first| == 2 && first[0] == BACKSLASH
    ensures Strip(InString, first + rest) == first + Strip(InString, rest)
    ensures Final(InString, first + rest) == Final(InString, rest)
  {
    hide Strip, Final;
    if |first| == 1 {
      assert first == [first[0]];
      Kept(InString, first[0], rest);
    } else {
      assert first == [first[0]] + [first[1]];
      Prefixed([first[0]], [first[1]], rest);
      Kept(InString, first[0], [first[1]] + rest);
      Kept(Escape, first[1], rest);
      Prefixed([first[0]], [first[1]], Strip(InString, rest));
    }
  }

  lemma BlankedFirst(b: byte, rest: seq<byte>)
    ensures Blanked([b] + rest) == [if LineBreak(b) then b else SPACE] + Blanked(rest)
  {
  }

  /** A byte blanked inside a comment that goes on. */
  lemma Hidden(mode: Mode, b: byte, rest: seq<byte>)
    requires if mode == LineComment then !LineBreak(b) else mode == BlockComment && !Opens([b] + rest, STAR, SLASH)
    ensures Strip(mode, [b] + rest) == Blanked([b]) + Strip(mode, rest)
    ensures Final(mode, [b] + rest) == Final(mode, rest)
  {
    Moved(mode, [b] + rest, 1, rest);
  }

  lemma HiddenFirst(mode: Mode, b: byte, more: seq<byte>, tail: seq<byte>)
    requires if mode == LineComment then !LineBreak(b) else mode == BlockComment && !Opens([b] + more, STAR, SLASH)
    requires |tail| <= |more| && Strip(mode, more) == Blanked(tail) + Strip(Normal, more[|tail|..])
    ensures Strip(mode, [b] + more) == Blanked([b] + tail) + Strip(Normal, more[|tail|..])
    ensures Final(mode, [b] + more) == Final(mode, more)
  {
    hide Strip, Final;
    Hidden(mode, b, more);
    BlankedFirst(b, tail);
    BlankedFirst(b, []);
    assert Blanked([b]) + (Blanked(tail) + Strip(Normal, more[|tail|..])) == Blanked([b]) + Blanked(tail) + Strip(Normal, more[|tail|..]);
  }

  lemma {:induction false} LineWalk(body: seq<byte>, rest: seq<byte>)
    requires (forall b <- body :: !LineBreak(b)) && (rest == [] || LineBreak(rest[0]))
    ensures Strip(LineComment, body + rest) == Blanked(body) + Strip(Normal, rest)
    ensures Final(LineComment, body + rest) == if rest == [] then LineComment else Final(Normal, rest)
  {
    if body == [] {
      assert body + rest == rest;
    } else {
      hide Strip, Final, Blanked;
      var b, more := body[0], body[1..];
      LineWalk(more, rest);
      assert body == [b] + more;
      Prefixed([b], more, rest);
      assert (more + rest)[|more|..] == rest;
      HiddenFirst(LineComment, b, more + rest, more);
    }
  }

  lemma BlockClosed(rest: seq<byte>)
    ensures Strip(BlockComment, [STAR, SLASH] + rest) == Blanked([STAR, SLASH]) + Strip(Normal, rest)
    ensures Final(BlockComment, [STAR, SLASH] + rest) == Final(Normal, rest)
  {
    Moved(BlockComment, [STAR, SLASH] + rest, 2, rest);
    assert Blanked([STAR, SLASH]) == [SPACE, SPACE];
  }

  lemma {:induction false} BlockWalk(body: seq<byte>, rest: seq<byte>)
    requires Fits(Block(body), rest)
    ensures Strip(BlockComment, body + [STAR, SLASH] + rest) == Blanked(body + [STAR, SLASH]) + Strip(Normal, rest)
    ensures Final(BlockComment, body + [STAR, SLASH] + rest) == Final(Normal, rest)
  {
    hide Strip, Final, Blanked;
    var end := [STAR, SLASH];
    if body == [] {
      assert body + end == end;
      BlockClosed(rest);
    } else {
      var b, more := body[0], body[1..];
      BlockWalk(more, rest);
      assert body + end == [b] + (more + end);
      Prefixed([b], more + end, rest);
      assert (more + end + rest)[|more + end|..] == rest;
      HiddenFirst(BlockComment, b, more + end + rest, more + end);
    }
  }

  lemma QuotedWalk(text: seq<byte>, closed: bool, rest: seq<byte>)
    requires Fits(Quoted(text, closed), rest)
    ensures Strip(Normal, [QUOTE] + text + rest) == [QUOTE] + text + Strip(Normal, rest)
    ensures Final(Normal, rest) != BlockComment <==> Final(Normal, [QUOTE] + text + rest) != BlockComment
  {
    hide Strip, Final, Literal;
    StringWalk(text, closed, rest);
    Prefixed([QUOTE], text, rest);
    Kept(Normal, QUOTE, text + rest);
    Prefixed([QUOTE], text, Strip(Normal, rest));
  }

  lemma Opened(second: byte, body: seq<byte>)
    requires second == SLASH || second == STAR
    ensures var mode := if second == SLASH then LineComment else BlockComment;
      && Strip(Normal, [SLASH, second] + body) == [SPACE, SPACE] + Strip(mode, body)
      && Final(Normal, [SLASH, second] + body) == Final(mode, body)
  {
    Moved(Normal, [SLASH, second] + body, 2, body);
  }

  lemma BlankedOpening(second: byte, body: seq<byte>)
    requires second == SLASH || second == STAR
    ensures Blanked([SLASH, second] + body) == [SPACE, SPACE] + Blanked(body)
  {
  }

  lemma OpenedWalk(second: byte, body: seq<byte>, rest: seq<byte>)
    requires second == SLASH || second == STAR
    requires var mode := if second == SLASH then LineComment else BlockComment;
      && Strip(mode, body + rest) == Blanked(body) + Strip(Normal, rest)
      && (Final(Normal, rest) != BlockComment <==> Final(mode, body + rest) != BlockComment)
    ensures Strip(Normal, [SLASH, second] + body + rest) == Blanked([SLASH, second] + body) + Strip(Normal, rest)
    ensures Final(Normal, rest) != BlockComment <==> Final(Normal, [SLASH, second] + body + rest) != BlockComment
  {
    hide Strip, Final, Blanked;
    Prefixed([SLASH, second], body, rest);
    Opened(second, body + rest);
    BlankedOpening(second, body);
    Prefixed([SPACE, SPACE], Blanked(body), Strip(Normal, rest));
  }

  lemma CommentWalk(p: Piece, rest: seq<byte>)
    requires (p.Line? || p.Block?) && Fits(p, rest)
    ensures Strip(Normal, Written(p) + rest) == Blanked(Written(p)) + Strip(Normal, rest)
    ensures Final(Normal, rest) != BlockComment <==> Final(Normal, Written(p) + rest) != BlockComment
  {
    assert Final(Normal, []) == Normal;
    hide Strip, Final, Blanked;
    if p.Line? {
      LineWalk(p.body, rest);
      OpenedWalk(SLASH, p.body, rest);
    } else {
      BlockWalk(p.body, rest);
      OpenedWalk(STAR, p.body + [STAR, SLASH], rest);
      Prefixed([SLASH, STAR], p.body, [STAR, SLASH]);
    }
  }

  lemma PieceWalk(p: Piece, rest: seq<byte>)
    requires Fits(p, rest)
    ensures Strip(Normal, Written(p) + rest) == Shown(p) + Strip(Normal, rest)
    ensures Final(Normal, rest) != BlockComment <==> Final(Normal, Written(p) + rest) != BlockComment
  {
    hide Strip, Final;
    match p
    case Code(b) => Moved(Normal, [b] + rest, 1, rest);
    case Quoted(text, closed) => QuotedWalk(text, closed, rest);
    case Line(_) => CommentWalk(p, rest);
    case Block(_) => CommentWalk(p, rest);
  }

  /** Stripping blanks the comments of a text and leaves everything else, string literals included. */
  lemma {:induction false} StripMeaning(pieces: seq<Piece>)
    requires Lexed(pieces)
    ensures Strip(Normal, WrittenAll(pieces)) == ShownAll(pieces)
    ensures Final(Normal, WrittenAll(pieces)) != BlockComment
  {
    if pieces != [] {
      StripMeaning(pieces[1..]);
      PieceWalk(pieces[0], WrittenAll(pieces[1..]));
    }
  }

  // ---- Every accepted text follows the grammar ----

  /** Splits off what is left of a string. */
  lemma {:induction false} StringPiece(s: seq<byte>) returns (n: nat, closed: bool)
    ensures n <= |s| && Literal(s[..n], closed) && (closed || n == |s|)
    decreases |s|
  {
    if s == [] {
      n, closed := 0, false;
    } else if s[0] == QUOTE {
      n, closed := 1, true;
    } else if |s| == 1 {
      n, closed := 1, false;
    } else {
      var k := if s[0] == BACKSLASH then 2 else 1;
      n, closed := StringPiece(s[k..]);
      n := n + k;
      assert s[..n][k..] == s[k..][..n - k];
    }
  }

  lemma {:induction false} LinePiece(s: seq<byte>) returns (n: nat)
    ensures n <= |s| && (forall b <- s[..n] :: !LineBreak(b)) && (n == |s| || LineBreak(s[n]))
  {
    if s == [] || LineBreak(s[0]) {
      n := 0;
    } else {
      n := LinePiece(s[1..]);
      n := n + 1;
      assert s[..n] == [s[0]] + s[1..][..n - 1];
    }
  }

  lemma {:induction false} BlockPiece(s: seq<byte>) returns (n: nat)
    requires Final(BlockComment, s) != BlockComment
    ensures n + 2 <= |s| && Opens(s[n..], STAR, SLASH)
    ensures forall i | 0 <= i < n - 1 :: !(s[i] == STAR && s[i + 1] == SLASH)
  {
    if Opens(s, STAR, SLASH) {
      n := 0;
      assert s[0..] == s;
    } else {
      Moved(BlockComment, s, 1, s[1..]);
      n := BlockPiece(s[1..]);
      n := n + 1;
      assert s[n..] == s[1..][n - 1..];
      forall i | 0 <= i < n - 1 ensures !(s[i] == STAR && s[i + 1] == SLASH) {
        if i > 0 {
          assert s[i] == s[1..][i - 1] && s[i + 1] == s[1..][i];
        }
      }
    }
  }

  lemma FirstBlock(s: seq<byte>) returns (p: Piece, rest: seq<byte>)
    requires Opens(s, SLASH, STAR) && Final(Normal, s) != BlockComment
    ensures s == Written(p) + rest && Fits(p, rest)
  {
    Moved(Normal, s, 2, s[2..]);
    hide Strip, Final;
    var t := s[2..];
    var n := BlockPiece(t);
    var body := t[..n];
    p, rest := Block(body), t[n + 2..];
    assert t[n..][0] == STAR && t[n..][1] == SLASH;
    assert t == body + [STAR, SLASH] + rest;
    assert s == [SLASH, STAR] + t;
    Prefixed([SLASH, STAR], body + [STAR, SLASH], rest);
    Prefixed([SLASH, STAR], body, [STAR, SLASH]);
  }

  lemma FirstPiece(s: seq<byte>) returns (p: Piece, rest: seq<byte>)
    requires s != [] && Final(Normal, s) != BlockComment
    ensures s == Written(p) + rest && Fits(p, rest)
  {
    hide Strip, Final, Literal;
    if s[0] == QUOTE {
      var n, closed := StringPiece(s[1..]);
      p, rest := Quoted(s[1..][..n], closed), s[1..][n..];
    } else if Opens(s, SLASH, SLASH) {
      var n := LinePiece(s[2..]);
      p, rest := Line(s[2..][..n]), s[2..][n..];
    } else if Opens(s, SLASH, STAR) {
      p, rest := FirstBlock(s);
    } else {
      p, rest := Code(s[0]), s[1..];
    }
  }

  /** A text is accepted exactly when it follows the grammar. */
  lemma {:induction false} Lexing(s: seq<byte>) returns (pieces: seq<Piece>)
    requires Final(Normal, s) != BlockComment
    ensures Lexed(pieces) && WrittenAll(pieces) == s
    decreases |s|
  {
    hide Strip, Final, Fits;
    pieces := [];
    if s != [] {
      var p, rest := FirstPiece(s);
      Rest(p, rest);
      var more := Lexing(rest);
      pieces := [p] + more;
      assert pieces[1..] == more;
    }
  }

  lemma Rest(p: Piece, rest: seq<byte>)
    requires Fits(p, rest) && Final(Normal, Written(p) + rest) != BlockComment
    ensures Final(Normal, rest) != BlockComment && |rest| < |Written(p) + rest|
  {
    hide Strip, Final;
    PieceWalk(p, rest);
  }

  lemma AcceptedIffLexed(s: seq<byte>)
    ensures Final(Normal, s) != BlockComment <==> exists pieces :: Lexed(pieces) && WrittenAll(pieces) == s
  {
    if Final(Normal, s) != BlockComment {
      var pieces := Lexing(s);
    }
    if pieces :| Lexed(pieces) && WrittenAll(pieces) == s {
      StripMeaning(pieces);
    }
  }

  // ---- Positions ----

  /** Stripping keeps the length and every position: a byte stays or turns into a space, and line
      breaks are where they were. */
  lemma {:induction false} StripPositions(mode: Mode, s: seq<byte>)
    ensures |Strip(mode, s)| == |s|
    ensures forall i | 0 <= i < |s| ::
      (Strip(mode, s)[i] == s[i] || Strip(mode, s)[i] == SPACE) && (LineBreak(Strip(mode, s)[i]) <==> LineBreak(s[i]))
    decreases |s|
  {
    if s != [] {
      var (n, out, next) := Move(mode, s);
      StripPositions(next, s[n..]);
      assert Strip(mode, s) == out + Strip(next, s[n..]);
      forall i | 0 <= i < |s| ensures var b := Strip(mode, s)[i];
        (b == s[i] || b == SPACE) && (LineBreak(b) <==> LineBreak(s[i]))
      {
        if i >= n {
          assert Strip(mode, s)[i] == Strip(next, s[n..])[i - n] && s[i] == s[n..][i - n];
        }
      }
    }
  }

  // ---- Stripping twice ----

  /** The mode a second scan is in where the first one was in `mode`. */
  function Again(mode: Mode): Mode {
    if mode == LineComment || mode == BlockComment then Normal else mode
  }

  lemma KeptAgain(mode: Mode, s: seq<byte>)
    requires s != [] && Move(mode, s).0 == 1
    ensures var (_, out, next) := Move(mode, s);
      Move(Again(mode), out + Strip(next, s[1..])) == (1, out, Again(next))
  {
    StripPositions(Move(mode, s).2, s[1..]);
  }

  /** A second pass finds no comment left and changes nothing. */
  lemma {:induction false} StripTwice(mode: Mode, s: seq<byte>)
    ensures Strip(Again(mode), Strip(mode, s)) == Strip(mode, s)
    ensures Final(Again(mode), Strip(mode, s)) == Again(Final(mode, s))
    decreases |s|
  {
    if s != [] {
      var (n, out, next) := Move(mode, s);
      var rest := Strip(next, s[n..]);
      StripTwice(next, s[n..]);
      if n == 1 {
        KeptAgain(mode, s);
        assert out == [out[0]];
        Kept(Again(mode), out[0], rest);
      } else {
        assert out == [SPACE] + [SPACE];
        Prefixed([SPACE], [SPACE], rest);
        Kept(Normal, SPACE, [SPACE] + rest);
        Kept(Normal, SPACE, rest);
      }
    }
  }

  // ---- Text stays text ----

  lemma ValidSpaces(n: nat, rest: seq<byte>)
    ensures Utf8.Valid(seq(n, _ => SPACE) + rest) == Utf8.Valid(rest)
  {
    if n == 0 {
      assert seq(n, _ => SPACE) + rest == rest;
    } else {
      ValidSpaces(n - 1, rest);
      Utf8.ValidCons(' ', seq(n - 1, _ => SPACE) + rest);
      assert seq(n, _ => SPACE) + rest == Utf8.EncodeChar(' ') + (seq(n - 1, _ => SPACE) + rest);
    }
  }

  /** The bytes of a character beyond ASCII are all kept or all blanked. */
  lemma {:induction false} HighBytes(mode: Mode, bytes: seq<byte>, rest: seq<byte>)
    requires bytes != [] && forall i | 0 <= i < |bytes| :: bytes[i] >= 0x80
    ensures var next := if mode == Escape then InString else mode;
      Strip(mode, bytes + rest) == (if Again(mode) == mode then bytes else seq(|bytes|, _ => SPACE)) + Strip(next, rest)
    decreases |bytes|
  {
    hide Strip, Final;
    var b, more := bytes[0], bytes[1..];
    var next := if mode == Escape then InString else mode;
    assert bytes == [b] + more;
    Prefixed([b], more, rest);
    Moved(mode, bytes + rest, 1, more + rest);
    var shown := if Again(mode) == mode then b else SPACE;
    assert Move(mode, bytes + rest) == (1, [shown], next);
    if more == [] {
      assert more + rest == rest;
      assert [shown] == if Again(mode) == mode then bytes else seq(|bytes|, _ => SPACE);
    } else {
      HighBytes(next, more, rest);
      var all := if Again(mode) == mode then more else seq(|more|, _ => SPACE);
      Prefixed([shown], all, Strip(next, rest));
      assert [shown] + all == if Again(mode) == mode then bytes else seq(|bytes|, _ => SPACE);
    }
  }

  lemma EncodeFirst(s: string)
    requires s != []
    ensures Utf8.Encode(s) == Utf8.EncodeChar(s[0]) + Utf8.Encode(s[1..])
    ensures s[0] as int < 0x80 ==> Utf8.EncodeChar(s[0]) == [s[0] as int]
    ensures s[0] as int >= 0x80 ==> forall i | 0 <= i < |Utf8.EncodeChar(s[0])| :: Utf8.EncodeChar(s[0])[i] >= 0x80
  {
  }

  /** The characters an ASCII move takes are ASCII themselves. */
  lemma AsciiMove(mode: Mode, s: string)
    requires s != [] && s[0] as int < 0x80
    ensures var (n, out, _) := Move(mode, Utf8.Encode(s));
      n <= |s| && Utf8.Encode(s)[n..] == Utf8.Encode(s[n..]) && forall i | 0 <= i < |out| :: out[i] < 0x80
  {
    hide Utf8.Encode, Utf8.EncodeChar;
    EncodeFirst(s);
    var e := Utf8.Encode(s);
    assert e[1..] == Utf8.Encode(s[1..]);
    if Move(mode, e).0 == 2 {
      assert |s| > 1 by {
        if |s| == 1 {
          EmptyCode(s[1..]);
        }
      }
      EncodeFirst(s[1..]);
      assert e[1] == Utf8.EncodeChar(s[1])[0];
      assert e[1] < 0x80;
      assert e[2..] == e[1..][1..] == Utf8.Encode(s[1..][1..]);
      assert s[1..][1..] == s[2..];
    }
  }

  lemma EmptyCode(s: string)
    requires s == []
    ensures Utf8.Encode(s) == []
  {
  }

  lemma ValidAscii(out: seq<byte>, rest: seq<byte>)
    requires forall i | 0 <= i < |out| :: out[i] < 0x80
    ensures Utf8.Valid(out + rest) == Utf8.Valid(rest)
    decreases |out|
  {
    if out == [] {
      assert out + rest == rest;
    } else {
      ValidAscii(out[1..], rest);
      Utf8.ValidCons(out[0] as char, out[1..] + rest);
      assert Utf8.EncodeChar(out[0] as char) == [out[0]];
      assert out + rest == Utf8.EncodeChar(out[0] as char) + (out[1..] + rest);
    }
  }

  /** Stripping text gives text, so the final conversion cannot fail. */
  lemma {:induction false} StripValid(mode: Mode, s: string)
    ensures Utf8.Valid(Strip(mode, Utf8.Encode(s)))
    decreases |s|
  {
    if s == [] {
      assert Utf8.Encode(s) == [] && Strip(mode, []) == [] && Utf8.Valid([]);
    } else {
      hide Strip, Utf8.Valid, Utf8.Encode, Utf8.EncodeChar, Move;
      EncodeFirst(s);
      if s[0] as int < 0x80 {
        var e := Utf8.Encode(s);
        var (n, out, next) := Move(mode, e);
        AsciiMove(mode, s);
        StripValid(next, s[n..]);
        Moved(mode, e, n, Utf8.Encode(s[n..]));
        ValidAscii(out, Strip(next, Utf8.Encode(s[n..])));
      } else {
        var first, next := Utf8.EncodeChar(s[0]), if mode == Escape then InString else mode;
        var rest := Strip(next, Utf8.Encode(s[1..]));
        StripValid(next, s[1..]);
        HighBytes(mode, first, Utf8.Encode(s[1..]));
        Utf8.ValidCons(s[0], rest);
        ValidSpaces(|first|, rest);
      }
    }
  }

  // ---- The operation ----

  /** The text with its comments blanked, unless a block comment is left open. */
  method StripJsonComments(input: string) returns (r: Result<string, StripError>)
    ensures r.Ok? <==> Final(Normal, Utf8.Encode(input)) != BlockComment
    ensures r.Ok? ==> Utf8.Encode(r.value) == Strip(Normal, Utf8.Encode(input))
    ensures r.Err? ==> r.error == UnterminatedBlockComment
  {
    hide Utf8.Encode, Utf8.Decode, Strip, Final;
    var bytes := Utf8.Encode(input);
    var output: seq<byte> := [];
    var mode := Normal;
    var index := 0;
    assert bytes[0..] == bytes && [] + Strip(Normal, bytes) == Strip(Normal, bytes);
    while index < |bytes|
      invariant 0 <= index <= |bytes|
      invariant output + Strip(mode, bytes[index..]) == Strip(Normal, bytes)
      invariant Final(mode, bytes[index..]) == Final(Normal, bytes)
    {
      ghost var left, before, was := bytes[index..], output, mode;
      ghost var move := Move(mode, left);
      assert left[0] == bytes[index] && (|left| > 1 ==> left[1] == bytes[index + 1]);
      var b := bytes[index];
      match mode {
        case Normal =>
          if b == QUOTE {
            output, mode := output + [b], InString;
          } else if b == SLASH && index + 1 < |bytes| && bytes[index + 1] == SLASH {
            output, mode := output + [SPACE, SPACE], LineComment;
            index := index + 1;
          } else if b == SLASH && index + 1 < |bytes| && bytes[index + 1] == STAR {
            output, mode := output + [SPACE, SPACE], BlockComment;
            index := index + 1;
          } else {
            output := output + [b];
          }
        case InString =>
          output := output + [b];
          if b == BACKSLASH {
            mode := Escape;
          } else if b == QUOTE {
            mode := Normal;
          }
        case Escape =>
          output, mode := output + [b], InString;
        case LineComment =>
          if LineBreak(b) {
            output, mode := output + [b], Normal;
          } else {
            output := output + [SPACE];
          }
        case BlockComment =>
          if b == STAR && index + 1 < |bytes| && bytes[index + 1] == SLASH {
            output, mode := output + [SPACE, SPACE], Normal;
            index := index + 1;
          } else if LineBreak(b) {
            output := output + [b];
          } else {
            output := output + [SPACE];
          }
      }
      index := index + 1;
      assert left[move.0..] == bytes[index..];
      Moved(was, left, move.0, bytes[index..]);
      Prefixed(before, move.1, Strip(mode, bytes[index..]));
    }
    Ended(mode, output);
    assert bytes[index..] == [];
    if mode == BlockComment {
      return Err(UnterminatedBlockComment);
    }
    StripValid(Normal, input);
    var text := Utf8.Decode(output);
    if text.None? {
      return Err(NotUtf8);
    }
    Utf8.EncodeDecode(output);
    r := Ok(text.value);
  }

  lemma Ended(mode: Mode, output: seq<byte>)
    ensures output + Strip(mode, []) == output && Final(mode, []) == mode
  {
    assert Strip(mode, []) == [];
  }

  /** Stripping a stripped text succeeds and gives it back. */
  lemma StrippedStays(input: string, output: string)
    requires Final(Normal, Utf8.Encode(input)) != BlockComment
    requires Utf8.Encode(output) == Strip(Normal, Utf8.Encode(input))
    ensures Final(Normal, Utf8.Encode(output)) != BlockComment
    ensures Strip(Normal, Utf8.Encode(output)) == Utf8.Encode(output)
  {
    hide Strip, Final, Utf8.Encode;
    StripTwice(Normal, Utf8.Encode(input));
  }
}
