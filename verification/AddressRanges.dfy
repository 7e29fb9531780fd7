/**
 Splitting an address range into CIDR blocks, and the router's test for membership in a block.
 The source has the same loop twice, for 32-bit and for 128-bit addresses; here `width` is the number
 of bits, and addresses are the integers below 2^width.
 */
module AddressRanges {
  import opened Arithmetic

  /** `network`/`prefix`, as the decoder prints it and the router parses it. */
  datatype Cidr = Cidr(network: nat, prefix: nat) {
    /** How many bits of the address the block leaves free. */
    function Free(width: nat): nat {
      if prefix <= width then width - prefix else 0
    }

    /** A block whose network address has no host bits set. */
    predicate Canonical(width: nat) {
      && prefix <= width
      && network < Pow2(width)
      && Aligned(network, width - prefix)
    }

    function Last(width: nat): nat {
      network + Pow2(Free(width)) - 1
    }

    /** `x` is one of the block's addresses. */
    predicate Covers(width: nat, x: nat) {
      network <= x <= Last(width)
    }
  }

  predicate Aligned(x: nat, bits: nat) {
    x % Pow2(bits) == 0
  }

  // ---- The loop ----

  function TrailingZeros(width: nat, x: nat): (t: nat)
    ensures t <= width
    ensures Aligned(x, t)
  {
    if width == 0 || x % 2 == 1 then 0
    else
      var t := TrailingZeros(width - 1, x / 2);
      Halve(x, t);
      1 + t
  }

  lemma Halve(x: nat, t: nat)
    requires x % 2 == 0
    ensures Aligned(x, 1 + t) <==> Aligned(x / 2, t)
  {
    DivDiv(x, 2, Pow2(t));
  }

  /** No higher power of two divides an address other than 0. */
  lemma {:induction false} TrailingZerosMost(width: nat, x: nat, t: nat)
    requires x < Pow2(width) && t <= width && Aligned(x, t)
    ensures t <= TrailingZeros(width, x)
  {
    if t > 0 {
      AlignedLower(x, 1, t);
      Halve(x, t - 1);
      TrailingZerosMost(width - 1, x / 2, t - 1);
    }
  }

  lemma AlignedLower(x: nat, i: nat, j: nat)
    requires i <= j && Aligned(x, j)
    ensures Aligned(x, i)
  {
    Pow2Add(i, j - i);
    DivDiv(x, Pow2(i), Pow2(j - i));
    assert x % Pow2(i) == 0 by {
      var q := (x / Pow2(i)) % Pow2(j - i);
      assert Pow2(i) * q >= 0 by { MulMonotone(0, q, Pow2(i)); }
    }
  }

  /** The last address of the block of `hostBits` bits around `start`: `start | (2^hostBits - 1)`. */
  function BlockEnd(width: nat, start: nat, hostBits: nat): int {
    if hostBits == width then Pow2(width) - 1
    else start - start % Pow2(hostBits) + (Pow2(hostBits) - 1)
  }

  /** A block of `bits` host bits can start at `start` without leaving the range. */
  predicate Fits(width: nat, start: nat, end: nat, bits: nat) {
    bits <= width && Aligned(start, bits) && start + Pow2(bits) - 1 <= end
  }

  /** The most host bits a block that starts at `start` can have. */
  function HostBits(width: nat, start: nat, end: nat, from: nat): (h: nat)
    requires start <= end
    ensures h <= from
  {
    if from == 0 || Fits(width, start, end, from) then from else HostBits(width, start, end, from - 1)
  }

  lemma {:induction false} HostBitsMost(width: nat, start: nat, end: nat, from: nat)
    requires start <= end && from <= width
    ensures var h := HostBits(width, start, end, from);
            Fits(width, start, end, h) && forall k | h < k <= from :: !Fits(width, start, end, k)
  {
    if from > 0 && !Fits(width, start, end, from) {
      HostBitsMost(width, start, end, from - 1);
    }
  }

  /** The blocks of the range, in the order they are emitted. */
  function Split(width: nat, start: nat, end: nat): (r: seq<Cidr>)
    requires start <= end < Pow2(width)
    decreases end - start
  {
    var h := HostBits(width, start, end, width);
    HostBitsMost(width, start, end, width);
    var last := start + Pow2(h) - 1;
    [Cidr(start, width - h)] + if last == end then [] else Split(width, last + 1, end)
  }

  lemma BlockEndAligned(width: nat, start: nat, h: nat)
    requires start < Pow2(width) && h <= width && Aligned(start, h)
    ensures BlockEnd(width, start, h) == start + Pow2(h) - 1
  {
    if h == width {
      DivUnique(start, Pow2(width), 0, start);
    }
  }

  /** `append_ipv4_range` at width 32 and `append_ipv6_range` at width 128. No step leaves the
      integers the source uses: `hostBits` stays at least 0, and no address passes the last one. */
  method AppendRange(width: nat, output: seq<Cidr>, first: nat, end: nat) returns (result: seq<Cidr>)
    requires first <= end < Pow2(width)
    ensures result == output + Split(width, first, end)
  {
    hide Split, HostBits, BlockEnd, Pow2;
    result := output;
    var start := first;
    while true
      invariant start <= end
      invariant output + Split(width, first, end) == result + Split(width, start, end)
      decreases end - start
    {
      var hostBits := LargestBlock(width, start, end);
      ghost var rest := SplitFirst(width, start, end, hostBits);
      var block := Cidr(start, width - hostBits);
      assert result + ([block] + rest) == result + [block] + rest;
      result := result + [block];
      var blockEnd := BlockEnd(width, start, hostBits);
      if blockEnd == Pow2(width) - 1 || blockEnd == end {
        assert result + [] == result;
        break;
      }
      start := blockEnd + 1;
    }
  }

  /** The inner loop: from the trailing zeros of `start` down to a block that ends in the range. */
  method LargestBlock(width: nat, start: nat, end: nat) returns (hostBits: nat)
    requires start <= end < Pow2(width)
    ensures hostBits == HostBits(width, start, end, width) && hostBits <= width
  {
    hide Pow2, TrailingZeros, HostBits, BlockEnd, Aligned;
    hostBits := TrailingZeros(width, start);
    FromTrailingZeros(width, start, end);
    while BlockEnd(width, start, hostBits) > end
      invariant hostBits <= width && Aligned(start, hostBits)
      invariant HostBits(width, start, end, hostBits) == HostBits(width, start, end, width)
      decreases hostBits
    {
      TooLarge(width, start, end, hostBits);
      hostBits := hostBits - 1;
    }
    LargeEnough(width, start, end, hostBits);
  }

  lemma TooLarge(width: nat, start: nat, end: nat, h: nat)
    requires start <= end < Pow2(width) && h <= width && Aligned(start, h) && BlockEnd(width, start, h) > end
    ensures h > 0 && Aligned(start, h - 1)
    ensures HostBits(width, start, end, h) == HostBits(width, start, end, h - 1)
  {
    BlockEndAligned(width, start, h);
    assert h == 0 ==> Pow2(h) == 1;
    AlignedLower(start, h - 1, h);
  }

  lemma LargeEnough(width: nat, start: nat, end: nat, h: nat)
    requires start <= end < Pow2(width) && h <= width && Aligned(start, h) && BlockEnd(width, start, h) <= end
    ensures HostBits(width, start, end, h) == h
  {
    BlockEndAligned(width, start, h);
  }

  /** The first block of a range, and the blocks of the rest. */
  lemma SplitFirst(width: nat, start: nat, end: nat, h: nat) returns (rest: seq<Cidr>)
    requires start <= end < Pow2(width) && h == HostBits(width, start, end, width) && h <= width
    ensures start <= BlockEnd(width, start, h) <= end
    ensures Split(width, start, end) == [Cidr(start, width - h)] + rest
    ensures if BlockEnd(width, start, h) == end then rest == []
            else rest == Split(width, BlockEnd(width, start, h) + 1, end)
  {
    HostBitsMost(width, start, end, width);
    BlockEndAligned(width, start, h);
    rest := Split(width, start, end)[1..];
  }

  /** Counting down from the trailing zeros finds what counting down from the width would. */
  lemma FromTrailingZeros(width: nat, start: nat, end: nat)
    requires start <= end < Pow2(width)
    ensures HostBits(width, start, end, TrailingZeros(width, start)) == HostBits(width, start, end, width)
  {
    SkipUnaligned(width, start, end, width);
  }

  lemma {:induction false} SkipUnaligned(width: nat, start: nat, end: nat, from: nat)
    requires start <= end < Pow2(width) && TrailingZeros(width, start) <= from <= width
    ensures HostBits(width, start, end, TrailingZeros(width, start)) == HostBits(width, start, end, from)
  {
    if from > TrailingZeros(width, start) {
      if Aligned(start, from) {
        TrailingZerosMost(width, start, from);
      }
      SkipUnaligned(width, start, end, from - 1);
    }
  }

  // ---- Exactness ----

  /** The blocks lie one after the other and fill `start..end` without a gap. */
  predicate Tiles(width: nat, blocks: seq<Cidr>, start: nat, end: nat) {
    && blocks != []
    && blocks[0].Canonical(width)
    && blocks[0].network == start
    && if |blocks| == 1 then blocks[0].Last(width) == end
       else blocks[0].Last(width) < end && Tiles(width, blocks[1..], blocks[0].Last(width) + 1, end)
  }

  lemma {:induction false} SplitTiles(width: nat, start: nat, end: nat)
    requires start <= end < Pow2(width)
    ensures Tiles(width, Split(width, start, end), start, end)
    decreases end - start
  {
    var h := HostBits(width, start, end, width);
    HostBitsMost(width, start, end, width);
    var last := start + Pow2(h) - 1;
    if last < end {
      SplitTiles(width, last + 1, end);
      assert Split(width, start, end)[1..] == Split(width, last + 1, end);
    }
  }

  /** A tiling covers exactly its range, and each address only once. */
  lemma {:induction false} TilesCover(width: nat, blocks: seq<Cidr>, start: nat, end: nat, x: nat)
    requires Tiles(width, blocks, start, end)
    ensures forall i | 0 <= i < |blocks| :: blocks[i].Canonical(width) && start <= blocks[i].network && blocks[i].Last(width) <= end
    ensures (exists i :: 0 <= i < |blocks| && blocks[i].Covers(width, x)) <==> start <= x <= end
    ensures forall i, j | 0 <= i < j < |blocks| :: blocks[i].Last(width) < blocks[j].network
    decreases |blocks|
  {
    if |blocks| > 1 {
      var rest := blocks[1..];
      TilesCover(width, rest, blocks[0].Last(width) + 1, end, x);
      assert forall i | 1 <= i < |blocks| :: blocks[i] == rest[i - 1];
      if start <= x <= end {
        if x <= blocks[0].Last(width) {
          assert blocks[0].Covers(width, x);
        } else {
          var i :| 0 <= i < |rest| && rest[i].Covers(width, x);
          assert blocks[i + 1].Covers(width, x);
        }
      }
    } else if start <= x <= end {
      assert blocks[0].Covers(width, x);
    }
  }

  // ---- The router's membership test ----

  /** `x & (MAX << (width - prefix))`, and 0 for the empty prefix. */
  function Masked(width: nat, c: Cidr, x: nat): int {
    if c.prefix == 0 then 0 else x - x % Pow2(c.Free(width))
  }

  predicate Contains(width: nat, c: Cidr, x: nat) {
    Masked(width, c, c.network) == Masked(width, c, x)
  }

  lemma ContainsCovers(width: nat, c: Cidr, x: nat)
    requires c.Canonical(width) && x < Pow2(width)
    ensures Contains(width, c, x) <==> c.Covers(width, x)
  {
    var p := Pow2(c.Free(width));
    hide Pow2;
    if c.prefix == 0 {
      DivUnique(c.network, p, 0, c.network);
    } else {
      assert c.network % p == 0;
      RoundDown(p, c.network, x);
    }
  }

  lemma RoundDown(p: nat, network: nat, x: nat)
    requires p > 0 && network % p == 0
    ensures x - x % p == network <==> network <= x < network + p
  {
    assert network == network / p * p;
    if network <= x < network + p {
      DivUnique(x, p, network / p, x - network);
    }
  }

  /** From the encoded range to the router's answer: an address matches one of the emitted blocks
      exactly when it lies in the range. */
  lemma RangeMeaning(width: nat, start: nat, end: nat, x: nat)
    requires start <= end < Pow2(width) && x < Pow2(width)
    ensures forall c <- Split(width, start, end) :: c.Canonical(width)
    ensures (exists c <- Split(width, start, end) :: Contains(width, c, x)) <==> start <= x <= end
  {
    var blocks := Split(width, start, end);
    SplitTiles(width, start, end);
    TilesCover(width, blocks, start, end, x);
    forall c | c in blocks ensures c.Canonical(width) && (Contains(width, c, x) <==> c.Covers(width, x)) {
      ContainsCovers(width, c, x);
    }
    if start <= x <= end {
      var i :| 0 <= i < |blocks| && blocks[i].Covers(width, x);
      assert blocks[i] in blocks;
    }
  }

  // ---- Minimality ----

  ghost predicate InSome(width: nat, blocks: set<Cidr>, x: nat) {
    exists c <- blocks :: c.Covers(width, x)
  }

  /** A set of canonical blocks whose union is the range. */
  ghost predicate ExactCover(width: nat, blocks: set<Cidr>, start: nat, end: nat) {
    && (forall c <- blocks :: c.Canonical(width))
    && (forall x: nat :: InSome(width, blocks, x) <==> start <= x <= end)
  }

  /** Two canonical blocks that share an address: the smaller one lies inside the larger one. */
  lemma Nested(width: nat, a: Cidr, b: Cidr, x: nat)
    requires a.Canonical(width) && b.Canonical(width) && a.Covers(width, x) && b.Covers(width, x)
    requires a.prefix >= b.prefix
    ensures b.network <= a.network && a.Last(width) <= b.Last(width)
  {
    var i, j := width - a.prefix, width - b.prefix;
    hide Pow2;
    SameQuotient(a, width, x);
    SameQuotient(b, width, x);
    SameQuotient(a, width, a.Last(width));
    SameCoarser(x, a.network, i, j);
    SameCoarser(x, a.Last(width), i, j);
    QuotientBounds(a.network, Pow2(j), b.network / Pow2(j));
    QuotientBounds(a.Last(width), Pow2(j), b.network / Pow2(j));
    QuotientBounds(b.network, Pow2(j), b.network / Pow2(j));
    assert b.network == b.network / Pow2(j) * Pow2(j) by {
      assert b.network % Pow2(j) == 0;
    }
  }

  lemma SameCoarser(x: nat, y: nat, i: nat, j: nat)
    requires i <= j && x / Pow2(i) == y / Pow2(i)
    ensures x / Pow2(j) == y / Pow2(j)
  {
    DivPow2(x, i, j);
    DivPow2(y, i, j);
  }

  lemma SameQuotient(c: Cidr, width: nat, x: nat)
    requires c.Canonical(width) && c.Covers(width, x)
    ensures x / Pow2(width - c.prefix) == c.network / Pow2(width - c.prefix)
  {
    var p := Pow2(width - c.prefix);
    assert c.network == c.network / p * p;
    DivUnique(x, p, c.network / p, x - c.network);
  }

  lemma QuotientBounds(x: nat, p: nat, q: nat)
    requires p > 0 && x / p == q
    ensures q * p <= x <= q * p + p - 1
  {
    assert x == q * p + x % p;
  }

  /** No exact cover of a range has fewer blocks than the loop emits. */
  lemma {:induction false} SplitMinimal(width: nat, blocks: set<Cidr>, start: nat, end: nat)
    requires start <= end < Pow2(width) && ExactCover(width, blocks, start, end)
    ensures |Split(width, start, end)| <= |blocks|
    decreases end - start
  {
    var h := HostBits(width, start, end, width);
    HostBitsMost(width, start, end, width);
    var last := start + Pow2(h) - 1;
    assert InSome(width, blocks, start);
    var c :| c in blocks && c.Covers(width, start);
    AtStart(width, blocks, start, end, c, h);
    if last < end {
      var rest := set b | b in blocks && b.network > last;
      RestCovers(width, blocks, start, end, h, rest);
      SplitMinimal(width, rest, last + 1, end);
      assert c !in rest;
      assert rest <= blocks - {c};
      SubsetSize(rest, blocks - {c});
    } else {
      assert blocks - {c} <= blocks;
    }
  }

  lemma {:induction false} SubsetSize<T>(a: set<T>, b: set<T>)
    requires a <= b
    ensures |a| <= |b|
  {
    if a != {} {
      var x :| x in a;
      SubsetSize(a - {x}, b - {x});
    }
  }

  /** In an exact cover, a block over the first address starts there, and is no larger than the
      greedy choice. */
  lemma AtStart(width: nat, blocks: set<Cidr>, start: nat, end: nat, c: Cidr, h: nat)
    requires start <= end < Pow2(width) && ExactCover(width, blocks, start, end)
    requires c in blocks && c.Covers(width, start)
    requires h <= width && forall k | h < k <= width :: !Fits(width, start, end, k)
    ensures c.network == start && width - c.prefix <= h
  {
    assert c.Covers(width, c.network) && c.Covers(width, c.Last(width));
    assert InSome(width, blocks, c.network) && InSome(width, blocks, c.Last(width));
    assert start <= c.network && c.Last(width) <= end;
    assert Fits(width, start, end, width - c.prefix);
  }

  /** Without the blocks inside the greedy one, the cover covers what is left of the range. */
  lemma RestCovers(width: nat, blocks: set<Cidr>, start: nat, end: nat, h: nat, rest: set<Cidr>)
    requires start <= end < Pow2(width) && ExactCover(width, blocks, start, end)
    requires Fits(width, start, end, h) && forall k | h < k <= width :: !Fits(width, start, end, k)
    requires rest == set b | b in blocks && b.network > start + Pow2(h) - 1
    ensures ExactCover(width, rest, start + Pow2(h), end)
  {
    hide Pow2;
    var last := start + Pow2(h) - 1;
    forall x: nat ensures InSome(width, rest, x) <==> last + 1 <= x <= end {
      if InSome(width, rest, x) {
        var b :| b in rest && b.Covers(width, x);
        assert InSome(width, blocks, x);
      }
      if last + 1 <= x <= end {
        assert InSome(width, blocks, x);
        var b :| b in blocks && b.Covers(width, x);
        StartsBehind(width, blocks, start, end, h, b, x);
        assert b in rest;
      }
    }
  }

  lemma CoverStarts(width: nat, blocks: set<Cidr>, start: nat, end: nat, b: Cidr)
    requires ExactCover(width, blocks, start, end) && b in blocks
    ensures b.Canonical(width) && b.Covers(width, b.network) && start <= b.network
  {
    assert b.Covers(width, b.network) && InSome(width, blocks, b.network);
  }

  /** No block of the cover reaches out of the greedy block on the right: it would contain it. */
  lemma StartsBehind(width: nat, blocks: set<Cidr>, start: nat, end: nat, h: nat, b: Cidr, x: nat)
    requires start <= end < Pow2(width) && ExactCover(width, blocks, start, end)
    requires Fits(width, start, end, h) && forall k | h < k <= width :: !Fits(width, start, end, k)
    requires b in blocks && b.Covers(width, x) && start + Pow2(h) <= x
    ensures start + Pow2(h) <= b.network
  {
    CoverStarts(width, blocks, start, end, b);
    hide Pow2, Aligned, ExactCover, InSome;
    if b.network < start + Pow2(h) {
      var greedy := Cidr(start, width - h);
      assert greedy.Free(width) == h;
      assert greedy.Canonical(width) && greedy.Covers(width, b.network);
      if b.prefix >= greedy.prefix {
        Nested(width, b, greedy, b.network);
      } else {
        Nested(width, greedy, b, b.network);
        AtStart(width, blocks, start, end, b, h);
      }
      assert false;
    }
  }

  // ---- The number of blocks ----

  /** From a start aligned to more bits than the rest of the range needs, at most one block per bit. */
  lemma {:induction false} SplitDescending(width: nat, start: nat, end: nat, bits: nat)
    requires start <= end < Pow2(width) && bits <= width
    requires Aligned(start, bits) && end < start + Pow2(bits) - 1
    ensures |Split(width, start, end)| <= bits
    decreases end - start
  {
    var h := HostBits(width, start, end, width);
    HostBitsMost(width, start, end, width);
    if h >= bits {
      Pow2Monotone(bits, h);
      assert false;
    }
    var next := start + Pow2(h);
    if next - 1 < end {
      Pow2Monotone(h + 1, bits);
      AlignedLower(start, h + 1, bits);
      assert !Fits(width, start, end, h + 1);
      AlignedNext(start, h);
      SplitDescending(width, next, end, h);
    }
  }

  lemma AlignedNext(start: nat, h: nat)
    requires Aligned(start, h)
    ensures Aligned(start + Pow2(h), h)
    ensures !Aligned(start, h + 1) ==> Aligned(start + Pow2(h), h + 1)
  {
    var p := Pow2(h);
    assert Pow2(h + 1) == p * 2;
    hide Pow2;
    NextMultiple(start, p);
  }

  lemma NextMultiple(x: nat, p: nat)
    requires p > 0 && x % p == 0
    ensures (x + p) % p == 0
    ensures x % (p * 2) != 0 ==> (x + p) % (p * 2) == 0
  {
    NextQuotient(x, p);
    EvenMultiple(x, p);
    EvenMultiple(x + p, p);
    OneIsEven(x / p);
  }

  lemma NextQuotient(x: nat, p: nat)
    requires p > 0 && x % p == 0
    ensures (x + p) % p == 0 && (x + p) / p == x / p + 1
  {
    var q := x / p;
    assert x == p * q;
    assert q * p == p * q && (q + 1) * p == q * p + p;
    DivUnique(x + p, p, q + 1, 0);
  }

  lemma OneIsEven(q: nat)
    ensures q % 2 == 0 || (q + 1) % 2 == 0
  {
  }

  lemma EvenMultiple(x: nat, p: nat)
    requires p > 0 && x % p == 0
    ensures x % (p * 2) == 0 <==> x / p % 2 == 0
  {
    DivDiv(x, p, 2);
    if x / p % 2 == 0 {
      assert p * 0 == 0;
    } else {
      assert p * 1 == p;
    }
  }

  /** From any other start, alignment grows first and the rest shrinks afterwards. */
  lemma {:induction false} SplitAscending(width: nat, start: nat, end: nat, bits: nat)
    requires width >= 2 && 0 < start <= end < Pow2(width) && bits < width && Aligned(start, bits)
    ensures |Split(width, start, end)| <= 2 * (width - 1) - bits
    decreases end - start
  {
    hide Pow2, Aligned, TrailingZeros;
    if end < start + Pow2(bits) - 1 {
      SplitDescending(width, start, end, bits);
    } else {
      var h := HostBits(width, start, end, width);
      HostBitsMost(width, start, end, width);
      assert Fits(width, start, end, bits) && bits <= h;
      BelowWidth(width, start, end, h);
      var next := start + Pow2(h);
      AlignedNext(start, h);
      if next - 1 < end {
        assert |Split(width, start, end)| == 1 + |Split(width, next, end)|;
        if Aligned(start, h + 1) {
          if h + 1 == width {
            BeyondLast(width, start);
          }
          NotDoubled(width, start, end, h);
          SplitDescending(width, next, end, h);
        } else {
          if h + 1 >= width {
            BeyondLast(width, next);
          }
          SplitAscending(width, next, end, h + 1);
        }
      }
    }
  }

  lemma NotDoubled(width: nat, start: nat, end: nat, h: nat)
    requires h < width && Aligned(start, h + 1) && !Fits(width, start, end, h + 1)
    ensures end < start + Pow2(h) + Pow2(h) - 1
  {
  }

  lemma BelowWidth(width: nat, start: nat, end: nat, h: nat)
    requires 0 < start <= end < Pow2(width) && Fits(width, start, end, h)
    ensures h < width
  {
  }

  lemma BeyondLast(width: nat, x: nat)
    requires Aligned(x, width) && 0 < x
    ensures x >= Pow2(width)
  {
    if x < Pow2(width) {
      DivUnique(x, Pow2(width), 0, x);
    }
  }

  /** At most 62 blocks for IPv4 and 254 for IPv6. */
  lemma SplitBound(width: nat, start: nat, end: nat)
    requires width >= 2 && start <= end < Pow2(width)
    ensures |Split(width, start, end)| <= 2 * width - 2
  {
    if start > 0 {
      SplitAscending(width, start, end, 0);
    } else if end < Pow2(width) - 1 {
      SplitDescending(width, 0, end, width);
    } else {
      HostBitsMost(width, 0, end, width);
      assert Fits(width, 0, end, width);
    }
  }
}
