/** `summarize_address_range`: the inclusive range `[low, high]` is split greedily into blocks
    `(addr, prefix_len)`, each covering the `2^(64 - prefix_len)` addresses from `addr`, aligned
    to its size, so that a longest-prefix-match lookup on any address of the range finds one.

    `SummarizeAsWritten` follows the source with the wrapping arithmetic of a release build;
    `Summarize` is the same greedy loop with exact arithmetic. They agree on every range but
    the whole address space, where the source's `high - curr + 1` overflows. */
module AddressRange {
  import opened Machine

  /** A prefix length of a 64-bit address; the loop only produces values up to 64. */
  type PrefixLen = n: uint32 | n <= 64

  /** `AddressBlockRange`. */
  datatype AddressBlockRange = AddressBlockRange(addr: uint64, prefixLen: PrefixLen)

  /** The number of addresses a block covers. */
  function Size(b: AddressBlockRange): (n: nat)
    ensures n >= 1
  {
    Pow2(64 - b.prefixLen)
  }

  predicate InBlock(b: AddressBlockRange, x: int)
  {
    b.addr <= x < b.addr + Size(b)
  }

  /** Rust `u64::leading_zeros`. */
  function LeadingZeros64(x: uint64): (r: nat)
    ensures r <= 64
    ensures r == 64 - BitLength(x)
  {
    BitLengthOfU64(x);
    64 - BitLength(x)
  }

  // ---------------------------------------------------------------------------------------
  // The loop with exact arithmetic.

  /** `bits` is the exponent of the block the greedy loop emits at `curr`: the block is aligned
      to its size and ends by `high`, and doubling it would break one of the two. */
  predicate IsGreedyBits(curr: uint64, high: uint64, bits: nat) {
    && bits <= 64
    && Aligned(curr, bits)
    && curr + Pow2(bits) <= high + 1
    && (!Aligned(curr, bits + 1) || curr + Pow2(bits + 1) > high + 1)
  }

  lemma GreedyBitsUnique(curr: uint64, high: uint64, b1: nat, b2: nat)
    requires IsGreedyBits(curr, high, b1) && IsGreedyBits(curr, high, b2)
    ensures b1 == b2
  {
    if b1 < b2 {
      AlignedToSmallerPower(curr, b1 + 1, b2);
      Pow2Monotonic(b1 + 1, b2);
    } else if b2 < b1 {
      AlignedToSmallerPower(curr, b2 + 1, b1);
      Pow2Monotonic(b2 + 1, b1);
    }
  }

  lemma GreedyBitsAreUnique(curr: uint64, high: uint64)
    ensures forall b1: nat, b2: nat :: IsGreedyBits(curr, high, b1) && IsGreedyBits(curr, high, b2) ==> b1 == b2
  {
    forall b1: nat, b2: nat | IsGreedyBits(curr, high, b1) && IsGreedyBits(curr, high, b2)
      ensures b1 == b2
    {
      GreedyBitsUnique(curr, high, b1, b2);
    }
  }

  /** The exponent the source computes, with exact arithmetic:
      `min(curr.trailing_zeros(), (64 - (high - curr + 1).leading_zeros()) - 1)`. */
  function SourceBits(curr: uint64, high: uint64): (bits: nat)
    requires curr <= high
    ensures bits <= 64
  {
    Min(TrailingZeros64(curr), BitLength(high - curr + 1) - 1)
  }

  /** The source's formula picks the greedy block. */
  lemma SourceBitsGreedy(curr: uint64, high: uint64)
    requires curr <= high
    ensures IsGreedyBits(curr, high, SourceBits(curr, high))
  {
    BlockBitsFacts(curr, high, TrailingZeros64(curr), BitLength(high - curr + 1), SourceBits(curr, high));
  }

  /** The exponent of the block the loop emits at `curr`, given by what it must satisfy. */
  function BlockBits(curr: uint64, high: uint64): (bits: nat)
    requires curr <= high
    ensures IsGreedyBits(curr, high, bits)
  {
    SourceBitsGreedy(curr, high);
    GreedyBitsAreUnique(curr, high);
    var bits: nat :| bits <= 64 && IsGreedyBits(curr, high, bits);
    bits
  }

  lemma BlockBitsIsSourceFormula(curr: uint64, high: uint64)
    requires curr <= high
    ensures BlockBits(curr, high) == SourceBits(curr, high)
  {
    SourceBitsGreedy(curr, high);
    GreedyBitsUnique(curr, high, BlockBits(curr, high), SourceBits(curr, high));
  }

  lemma BlockBitsFacts(curr: uint64, high: uint64, tz: nat, bl: nat, bits: nat)
    requires curr <= high && tz == TrailingZeros64(curr) && bl == BitLength(high - curr + 1)
    requires bits == Min(tz, bl - 1)
    ensures bits <= 64
    ensures Aligned(curr, bits)
    ensures curr + Pow2(bits) <= high + 1
    ensures !Aligned(curr, bits + 1) || curr + Pow2(bits + 1) > high + 1
  {
    AlignedToSmallerPower(curr, bits, tz);
    BlockWithinRest(high - curr + 1, bl, bits);
    if bits != bl - 1 {
      BlockAtAlignment(curr, high - curr + 1, tz, bl);
    }
  }

  lemma BlockWithinRest(rem: nat, bl: nat, bits: nat)
    requires rem >= 1 && bl == BitLength(rem) && bits <= bl - 1
    ensures Pow2(bits) <= rem
    ensures bits == bl - 1 ==> Pow2(bits + 1) > rem
  {
    Pow2Monotonic(bits, bl - 1);
  }

  lemma BlockAtAlignment(curr: uint64, rem: nat, tz: nat, bl: nat)
    requires 1 <= rem <= TWO_64 && tz == TrailingZeros64(curr) && bl == BitLength(rem) && tz < bl - 1
    ensures !Aligned(curr, tz + 1)
  {
    BitLengthOfU64(rem);
  }

  function Last(blocks: seq<AddressBlockRange>): AddressBlockRange
    requires |blocks| > 0
  {
    blocks[|blocks| - 1]
  }

  /** Blocks start at `low`, follow one another without gap or overlap, and end at `end`. */
  ghost predicate Tiling(blocks: seq<AddressBlockRange>, low: int, end: int) {
    && |blocks| >= 1
    && blocks[0].addr == low
    && (forall i :: 0 <= i < |blocks| - 1 ==> blocks[i + 1].addr == blocks[i].addr + Size(blocks[i]))
    && Last(blocks).addr + Size(Last(blocks)) == end
  }

  /** A block is aligned to its size and could not be doubled without losing alignment or
      running past `high`. */
  predicate GreedyBlock(b: AddressBlockRange, high: int) {
    && Aligned(b.addr, 64 - b.prefixLen)
    && (b.prefixLen == 0 || !Aligned(b.addr, 65 - b.prefixLen) || b.addr + 2 * Size(b) > high + 1)
  }

  ghost predicate GreedyBlocks(blocks: seq<AddressBlockRange>, high: int) {
    forall i :: 0 <= i < |blocks| ==> GreedyBlock(blocks[i], high)
  }

  /** The loop from `curr` on. */
  function SummarizeFrom(curr: uint64, high: uint64): (blocks: seq<AddressBlockRange>)
    requires curr <= high
    ensures |blocks| >= 1
    decreases high - curr
  {
    var bits := BlockBits(curr, high);
    var block := AddressBlockRange(curr, 64 - bits);
    if curr + Pow2(bits) > high then [block]
    else [block] + SummarizeFrom(curr + Pow2(bits), high)
  }

  /** `summarize_address_range`; `low > high` panics. */
  function Summarize(low: uint64, high: uint64): (blocks: seq<AddressBlockRange>)
    requires low <= high
    ensures |blocks| >= 1
  {
    SummarizeFrom(low, high)
  }

  /** The block emitted at `curr` is aligned to its size and as large as alignment and the rest
      of the range allow. */
  lemma HeadBlockGreedy(curr: uint64, high: uint64)
    requires curr <= high
    ensures GreedyBlock(AddressBlockRange(curr, 64 - BlockBits(curr, high)), high)
  {
    var bits := BlockBits(curr, high);
    assert Size(AddressBlockRange(curr, 64 - bits)) == Pow2(bits);
    assert Pow2(bits + 1) == 2 * Pow2(bits);
  }

  lemma SummarizeFromLast(curr: uint64, high: uint64)
    requires curr <= high && curr + Pow2(BlockBits(curr, high)) > high
    ensures SummarizeFrom(curr, high) == [AddressBlockRange(curr, 64 - BlockBits(curr, high))]
  {
  }

  lemma SummarizeFromCons(curr: uint64, high: uint64)
    requires curr <= high && curr + Pow2(BlockBits(curr, high)) <= high
    ensures SummarizeFrom(curr, high)
         == [AddressBlockRange(curr, 64 - BlockBits(curr, high))] + SummarizeFrom(curr + Pow2(BlockBits(curr, high)), high)
  {
  }

  /** Block `i` from `curr` on is the block the loop emits at some address `c`. */
  lemma {:induction false} SummarizeFromBlockAt(curr: uint64, high: uint64, i: nat) returns (c: uint64)
    requires curr <= high && i < |SummarizeFrom(curr, high)|
    ensures c <= high && SummarizeFrom(curr, high)[i] == AddressBlockRange(c, 64 - BlockBits(c, high))
    decreases i
  {
    var next := curr + Pow2(BlockBits(curr, high));
    if next <= high {
      SummarizeFromCons(curr, high);
      if i == 0 {
        c := curr;
      } else {
        c := SummarizeFromBlockAt(next, high, i - 1);
      }
    } else {
      SummarizeFromLast(curr, high);
      c := curr;
    }
  }

  /** Block `i + 1` from `curr` on starts where block `i` ends. */
  lemma {:induction false} SummarizeFromContiguous(curr: uint64, high: uint64, i: nat)
    requires curr <= high && i + 1 < |SummarizeFrom(curr, high)|
    ensures SummarizeFrom(curr, high)[i + 1].addr
         == SummarizeFrom(curr, high)[i].addr + Size(SummarizeFrom(curr, high)[i])
    decreases i
  {
    var bits := BlockBits(curr, high);
    var next := curr + Pow2(bits);
    if next <= high {
      SummarizeFromCons(curr, high);
      if i == 0 {
        SummarizeFromFirst(next, high);
        assert Size(AddressBlockRange(curr, 64 - bits)) == Pow2(bits);
      } else {
        SummarizeFromContiguous(next, high, i - 1);
      }
    } else {
      SummarizeFromLast(curr, high);
    }
  }

  lemma SummarizeFromFirst(curr: uint64, high: uint64)
    requires curr <= high
    ensures SummarizeFrom(curr, high)[0].addr == curr
  {
  }

  /** The last block from `curr` on ends just past `high`. */
  lemma {:induction false} SummarizeFromEnd(curr: uint64, high: uint64)
    requires curr <= high
    ensures Last(SummarizeFrom(curr, high)).addr + Size(Last(SummarizeFrom(curr, high))) == high + 1
    decreases high - curr
  {
    var bits := BlockBits(curr, high);
    var next := curr + Pow2(bits);
    if next <= high {
      SummarizeFromCons(curr, high);
      SummarizeFromEnd(next, high);
      var rest := SummarizeFrom(next, high);
      assert SummarizeFrom(curr, high)[|rest|] == rest[|rest| - 1];
    } else {
      SummarizeFromLast(curr, high);
      assert Size(AddressBlockRange(curr, 64 - bits)) == Pow2(bits);
    }
  }

  /** The blocks tile `[curr, high]`. */
  lemma SummarizeFromTiles(curr: uint64, high: uint64)
    requires curr <= high
    ensures Tiling(SummarizeFrom(curr, high), curr, high + 1)
  {
    var blocks := SummarizeFrom(curr, high);
    SummarizeFromFirst(curr, high);
    SummarizeFromEnd(curr, high);
    forall i | 0 <= i < |blocks| - 1
      ensures blocks[i + 1].addr == blocks[i].addr + Size(blocks[i])
    {
      SummarizeFromContiguous(curr, high, i);
    }
  }

  /** Each block is greedy. */
  lemma SummarizeFromGreedy(curr: uint64, high: uint64)
    requires curr <= high
    ensures GreedyBlocks(SummarizeFrom(curr, high), high)
  {
    var blocks := SummarizeFrom(curr, high);
    forall i | 0 <= i < |blocks|
      ensures GreedyBlock(blocks[i], high)
    {
      var c := SummarizeFromBlockAt(curr, high, i);
      HeadBlockGreedy(c, high);
    }
  }

  /** The blocks of `[low, high]` start at `low`, follow each other without gap or overlap, end
      at `high`, and each is the largest aligned block that fits where it starts. */
  lemma SummarizeTiles(low: uint64, high: uint64)
    requires low <= high
    ensures Tiling(Summarize(low, high), low, high + 1)
    ensures GreedyBlocks(Summarize(low, high), high)
  {
    SummarizeFromTiles(low, high);
    SummarizeFromGreedy(low, high);
  }

  /** A tiling covers exactly the addresses from its start to its end, and its blocks are
      disjoint and in increasing order. */
  /** Each block ends by the start of every later one. */
  lemma {:induction false} TilingOrdered(blocks: seq<AddressBlockRange>, low: int, end: int)
    requires Tiling(blocks, low, end)
    ensures forall i, j :: 0 <= i < j < |blocks| ==> blocks[i].addr + Size(blocks[i]) <= blocks[j].addr
    decreases |blocks|
  {
    if |blocks| > 1 {
      var rest := blocks[1..];
      assert forall i :: 0 <= i < |rest| ==> rest[i] == blocks[i + 1];
      assert Tiling(rest, low + Size(blocks[0]), end);
      TilingOrdered(rest, low + Size(blocks[0]), end);
      forall i, j | 0 <= i < j < |blocks|
        ensures blocks[i].addr + Size(blocks[i]) <= blocks[j].addr
      {
        if i > 0 {
          assert blocks[i] == rest[i - 1] && blocks[j] == rest[j - 1];
        } else if j > 1 {
          assert rest[0].addr <= rest[j - 1].addr;
        }
      }
    }
  }

  /** The block of a tiling that holds an address of the range. */
  lemma {:induction false} TilingFind(blocks: seq<AddressBlockRange>, low: int, end: int, x: int) returns (i: nat)
    requires Tiling(blocks, low, end) && low <= x < end
    ensures i < |blocks| && InBlock(blocks[i], x)
    decreases |blocks|
  {
    if |blocks| == 1 || x < low + Size(blocks[0]) {
      i := 0;
    } else {
      var rest := blocks[1..];
      assert forall k :: 0 <= k < |rest| ==> rest[k] == blocks[k + 1];
      assert Tiling(rest, low + Size(blocks[0]), end);
      var k := TilingFind(rest, low + Size(blocks[0]), end, x);
      i := k + 1;
    }
  }

  /** Every block of a tiling lies inside the range. */
  lemma {:induction false} TilingWithin(blocks: seq<AddressBlockRange>, low: int, end: int, i: nat)
    requires Tiling(blocks, low, end) && i < |blocks|
    ensures low <= blocks[i].addr && blocks[i].addr + Size(blocks[i]) <= end
    decreases |blocks|
  {
    if |blocks| > 1 {
      var rest := blocks[1..];
      assert forall k :: 0 <= k < |rest| ==> rest[k] == blocks[k + 1];
      assert Tiling(rest, low + Size(blocks[0]), end);
      if i == 0 {
        TilingWithin(rest, low + Size(blocks[0]), end, 0);
      } else {
        TilingWithin(rest, low + Size(blocks[0]), end, i - 1);
      }
    }
  }

  /** A tiling of `[low, end)` covers exactly the addresses of that range. */
  lemma TilingCover(blocks: seq<AddressBlockRange>, low: int, end: int, x: int)
    requires Tiling(blocks, low, end)
    ensures low <= x < end <==> exists i :: 0 <= i < |blocks| && InBlock(blocks[i], x)
  {
    if low <= x < end {
      var i := TilingFind(blocks, low, end, x);
    }
    if exists i :: 0 <= i < |blocks| && InBlock(blocks[i], x) {
      var i :| 0 <= i < |blocks| && InBlock(blocks[i], x);
      TilingWithin(blocks, low, end, i);
    }
  }

  /** Each block's address is a multiple of its size. */
  lemma SummarizeBlocksAreMultiples(low: uint64, high: uint64, i: nat)
    requires low <= high && i < |Summarize(low, high)|
    ensures Summarize(low, high)[i].addr % Size(Summarize(low, high)[i]) == 0
  {
    SummarizeTiles(low, high);
    var b := Summarize(low, high)[i];
    AlignedIsDivisibility(b.addr, 64 - b.prefixLen);
  }

  /** The blocks of `[low, high]` cover exactly `[low, high]`, once each. */
  lemma SummarizeCoversRange(low: uint64, high: uint64, x: int)
    requires low <= high
    ensures low <= x <= high <==> exists i :: 0 <= i < |Summarize(low, high)| && InBlock(Summarize(low, high)[i], x)
    ensures forall i, j :: 0 <= i < j < |Summarize(low, high)| ==>
      Summarize(low, high)[i].addr + Size(Summarize(low, high)[i]) <= Summarize(low, high)[j].addr
  {
    SummarizeTiles(low, high);
    TilingCover(Summarize(low, high), low, high + 1, x);
    TilingOrdered(Summarize(low, high), low, high + 1);
  }

  // ---------------------------------------------------------------------------------------
  // The loop as written, with release-build wrapping.

  /** `high - curr + 1` in wrapping `u64` arithmetic: 0 on the whole address space. */
  function RemainingAsWritten(curr: uint64, high: uint64): (rem: uint64)
    requires curr <= high
    ensures rem == 0 <==> curr == 0 && high == U64_MAX
    ensures rem > 0 ==> rem == high - curr + 1
  {
    if high - curr + 1 == TWO_64 then 0 else high - curr + 1
  }

  /** The exponent the source computes: `min(curr.trailing_zeros(),
      (64 - rem.leading_zeros()) - 1)`, where the `u32` subtraction wraps to `u32::MAX` when
      `rem` is 0. */
  function BlockBitsAsWritten(curr: uint64, high: uint64): (bits: nat)
    requires curr <= high
    ensures bits <= TrailingZeros64(curr)
  {
    var lz := LeadingZeros64(RemainingAsWritten(curr, high));
    var sizeBits := if lz == 64 then U32_MAX else (64 - lz) - 1;
    Min(TrailingZeros64(curr), sizeBits)
  }

  /** `curr += 1 << number_of_bits`: the shift amount is masked to six bits and the addition
      wraps. The block is aligned, so the sum overshoots `u64` only by landing on `2^64`. */
  function NextAsWritten(curr: uint64, high: uint64): (next: uint64)
    requires curr <= high
    ensures next == 0 || next > curr
  {
    var bits := BlockBitsAsWritten(curr, high);
    var shift := if bits == 64 then 0 else bits;
    AlignedToSmallerPower(curr, shift, TrailingZeros64(curr));
    AlignedBlockFits(curr, shift);
    if curr + Pow2(shift) == TWO_64 then 0 else curr + Pow2(shift)
  }

  /** `curr - 1` in wrapping `u64` arithmetic. */
  function WrappingPred(x: uint64): (r: uint64)
    ensures r == U64_MAX <==> x == 0
  {
    if x == 0 then U64_MAX else x - 1
  }

  function SummarizeFromAsWritten(curr: uint64, high: uint64): (blocks: seq<AddressBlockRange>)
    decreases TWO_64 - curr
  {
    if curr > high then []
    else
      var block := AddressBlockRange(curr, 64 - BlockBitsAsWritten(curr, high));
      var next := NextAsWritten(curr, high);
      if WrappingPred(next) == U64_MAX then [block]
      else [block] + SummarizeFromAsWritten(next, high)
  }

  /** `summarize_address_range` as written. */
  function SummarizeAsWritten(low: uint64, high: uint64): seq<AddressBlockRange>
    requires low <= high
  {
    SummarizeFromAsWritten(low, high)
  }

  /** Off the whole address space the wrapping arithmetic never wraps, so the source computes
      the greedy exponent. */
  lemma BitsAgree(curr: uint64, high: uint64)
    requires curr <= high && !(curr == 0 && high == U64_MAX)
    ensures BlockBitsAsWritten(curr, high) == BlockBits(curr, high) < 64
  {
    var rem := high - curr + 1;
    BitLengthOfU64(rem);
    assert RemainingAsWritten(curr, high) == rem;
    BlockBitsIsSourceFormula(curr, high);
  }

  lemma NextAgrees(curr: uint64, high: uint64)
    requires curr <= high && !(curr == 0 && high == U64_MAX)
    ensures curr + Pow2(BlockBits(curr, high)) < TWO_64 ==>
      NextAsWritten(curr, high) == curr + Pow2(BlockBits(curr, high))
    ensures curr + Pow2(BlockBits(curr, high)) >= TWO_64 ==> NextAsWritten(curr, high) == 0
  {
    BitsAgree(curr, high);
  }

  lemma AsWrittenLast(curr: uint64, high: uint64)
    requires curr <= high && !(curr == 0 && high == U64_MAX)
    requires curr + Pow2(BlockBits(curr, high)) > high
    ensures SummarizeFromAsWritten(curr, high) == [AddressBlockRange(curr, 64 - BlockBits(curr, high))]
  {
    BitsAgree(curr, high);
    NextAgrees(curr, high);
    var next := NextAsWritten(curr, high);
    assert next == 0 || next > high;
  }

  lemma AsWrittenCons(curr: uint64, high: uint64)
    requires curr <= high && !(curr == 0 && high == U64_MAX)
    requires curr + Pow2(BlockBits(curr, high)) <= high
    ensures SummarizeFromAsWritten(curr, high)
         == [AddressBlockRange(curr, 64 - BlockBits(curr, high))]
            + SummarizeFromAsWritten(curr + Pow2(BlockBits(curr, high)), high)
  {
    BitsAgree(curr, high);
    NextAgrees(curr, high);
    var next := NextAsWritten(curr, high);
    assert next == curr + Pow2(BlockBits(curr, high));
    assert WrappingPred(next) != U64_MAX;
  }

  lemma {:induction false} AsWrittenAgreesFrom(curr: uint64, high: uint64)
    requires curr <= high && !(curr == 0 && high == U64_MAX)
    ensures SummarizeFromAsWritten(curr, high) == SummarizeFrom(curr, high)
    decreases high - curr
  {
    var next := curr + Pow2(BlockBits(curr, high));
    if next <= high {
      AsWrittenCons(curr, high);
      SummarizeFromCons(curr, high);
      AsWrittenAgreesFrom(next, high);
    } else {
      AsWrittenLast(curr, high);
      SummarizeFromLast(curr, high);
    }
  }

  /** Off the whole address space the source's loop is the greedy loop. */
  lemma AsWrittenAgrees(low: uint64, high: uint64)
    requires low <= high && !(low == 0 && high == U64_MAX)
    ensures SummarizeAsWritten(low, high) == Summarize(low, high)
  {
    AsWrittenAgreesFrom(low, high);
  }

  lemma WholeSpaceFirstStep()
    ensures BlockBitsAsWritten(0, U64_MAX) == 64
    ensures NextAsWritten(0, U64_MAX) == 1
  {
    assert RemainingAsWritten(0, U64_MAX) == 0;
    assert TrailingZeros64(0) == 64;
    assert LeadingZeros64(0) == 64;
    assert Pow2(0) == 1;
  }

  lemma WholeSpaceSecondStep()
    ensures BlockBitsAsWritten(1, U64_MAX) == 0
    ensures NextAsWritten(1, U64_MAX) == 2
  {
    assert TrailingZeros64(1) == 0;
    assert Pow2(0) == 1;
  }

  lemma WholeSpaceExact()
    ensures BlockBits(0, U64_MAX) == 64
    ensures Pow2(64) == TWO_64
  {
    Pow2Constants();
    assert Pow2(65) == 2 * Pow2(64);
    ZeroAligned(64);
    assert IsGreedyBits(0, U64_MAX, 64);
    GreedyBitsUnique(0, U64_MAX, 64, BlockBits(0, U64_MAX));
  }

  lemma WholeSpaceAsWrittenUnfold(a: uint64, b: uint64, high: uint64)
    requires a == 0 && b == 1 && high == U64_MAX
    ensures SummarizeFromAsWritten(a, high)
         == [AddressBlockRange(a, 0), AddressBlockRange(b, 64)] + SummarizeFromAsWritten(b + 1, high)
  {
    WholeSpaceFirstStep();
    WholeSpaceSecondStep();
    assert SummarizeFromAsWritten(b, high) == [AddressBlockRange(b, 64)] + SummarizeFromAsWritten(b + 1, high);
    assert SummarizeFromAsWritten(a, high) == [AddressBlockRange(a, 0)] + SummarizeFromAsWritten(b, high);
  }

  /** On `[0, u64::MAX]` the source's `high - curr + 1` wraps to 0, the whole space is emitted as
      `(0, 0)`, and the loop carries on at address 1, so address 1 is covered twice. The greedy
      loop emits the single block `(0, 0)`. */
  lemma AsWrittenOverlapsOnWholeSpace()
    ensures |SummarizeAsWritten(0, U64_MAX)| >= 2
    ensures SummarizeAsWritten(0, U64_MAX)[0] == AddressBlockRange(0, 0)
    ensures SummarizeAsWritten(0, U64_MAX)[1] == AddressBlockRange(1, 64)
    ensures InBlock(AddressBlockRange(0, 0), 1) && InBlock(AddressBlockRange(1, 64), 1)
    ensures Summarize(0, U64_MAX) == [AddressBlockRange(0, 0)]
  {
    WholeSpaceAsWrittenUnfold(0, 1, U64_MAX);
    WholeSpaceExact();
    assert Size(AddressBlockRange(0, 0)) == TWO_64;
    SummarizeFromLast(0, U64_MAX);
  }

  lemma FirstStepOfZeroToHundred()
    ensures BlockBits(0, 100) == 6 && Pow2(6) == 64
  {
    assert Pow2(7) == 128;
    ZeroAligned(6);
    assert IsGreedyBits(0, 100, 6);
    GreedyBitsUnique(0, 100, 6, BlockBits(0, 100));
  }

  lemma SecondStepOfZeroToHundred()
    ensures BlockBits(64, 100) == 5 && Pow2(5) == 32
  {
    assert Pow2(6) == 64;
    assert Aligned(2, 0) && Aligned(4, 1) && Aligned(8, 2) && Aligned(16, 3) && Aligned(32, 4) && Aligned(64, 5);
    assert IsGreedyBits(64, 100, 5);
    GreedyBitsUnique(64, 100, 5, BlockBits(64, 100));
  }

  lemma ThirdStepOfZeroToHundred()
    ensures BlockBits(96, 100) == 2 && Pow2(2) == 4
  {
    assert Pow2(3) == 8;
    assert Aligned(24, 0) && Aligned(48, 1) && Aligned(96, 2);
    assert IsGreedyBits(96, 100, 2);
    GreedyBitsUnique(96, 100, 2, BlockBits(96, 100));
  }

  lemma LastStepOfZeroToHundred()
    ensures BlockBits(100, 100) == 0 && Pow2(0) == 1
  {
    assert Pow2(1) == 2;
    assert Aligned(50, 0) && Aligned(100, 1);
    assert IsGreedyBits(100, 100, 0);
    GreedyBitsUnique(100, 100, 0, BlockBits(100, 100));
  }

  /** One step of the loop, stated for a known block size and a known tail. */
  lemma SummarizeFromStep(x: uint64, high: uint64, bits: nat, next: uint64, tail: seq<AddressBlockRange>)
    requires x <= high && BlockBits(x, high) == bits
    requires next == x + Pow2(bits) <= high
    requires SummarizeFrom(next, high) == tail
    ensures SummarizeFrom(x, high) == [AddressBlockRange(x, 64 - bits)] + tail
  {
    SummarizeFromCons(x, high);
  }

  lemma ZeroToHundredFromLast()
    ensures SummarizeFrom(100, 100) == [AddressBlockRange(100, 64)]
  {
    LastStepOfZeroToHundred();
    SummarizeFromLast(100, 100);
  }

  lemma ZeroToHundredFromThird()
    ensures SummarizeFrom(96, 100) == [AddressBlockRange(96, 62)] + [AddressBlockRange(100, 64)]
  {
    ZeroToHundredFromLast();
    ThirdStepOfZeroToHundred();
    SummarizeFromStep(96, 100, 2, 100, [AddressBlockRange(100, 64)]);
  }

  lemma ZeroToHundredFromSecond()
    ensures SummarizeFrom(64, 100) == [AddressBlockRange(64, 59)] + ([AddressBlockRange(96, 62)] + [AddressBlockRange(100, 64)])
  {
    ZeroToHundredFromThird();
    SecondStepOfZeroToHundred();
    SummarizeFromStep(64, 100, 5, 96, [AddressBlockRange(96, 62)] + [AddressBlockRange(100, 64)]);
  }

  lemma ZeroToHundredFromFirst()
    ensures SummarizeFrom(0, 100)
         == [AddressBlockRange(0, 58)] + ([AddressBlockRange(64, 59)] + ([AddressBlockRange(96, 62)] + [AddressBlockRange(100, 64)]))
  {
    ZeroToHundredFromSecond();
    FirstStepOfZeroToHundred();
    SummarizeFromStep(0, 100, 6, 64, [AddressBlockRange(64, 59)] + ([AddressBlockRange(96, 62)] + [AddressBlockRange(100, 64)]));
  }

  lemma FourBlocks(a: AddressBlockRange, b: AddressBlockRange, c: AddressBlockRange, d: AddressBlockRange)
    ensures [a] + ([b] + ([c] + [d])) == [a, b, c, d]
  {
  }

  /** The example of the source's unit test: `[0, 100]`. */
  lemma SummarizeZeroToHundred()
    ensures Summarize(0, 100) == [
      AddressBlockRange(0, 58), AddressBlockRange(64, 59), AddressBlockRange(96, 62), AddressBlockRange(100, 64)]
  {
    ZeroToHundredFromFirst();
    FourBlocks(AddressBlockRange(0, 58), AddressBlockRange(64, 59), AddressBlockRange(96, 62), AddressBlockRange(100, 64));
  }
}
