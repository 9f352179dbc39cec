/** `find_offset_for_pc`: the in-kernel binary search over one shard of a compact unwind table.
    A shard is a BPF array map of rows; only each row's `pc_low` is read, so a shard is
    modelled as the sequence of those values, and a lookup past its end fails as
    `bpf_map_lookup_elem` does. The iteration bound `MAX_BINARY_SEARCH_DEPTH` is a parameter. */
module ShardSearch {
  import opened Machine
  import opened Results
  import opened UnwindRow

  /** The search's answer: a row index, or one of the two sentinels `BINARY_SEARCH_DEFAULT`
      (no row, or a failed lookup) and `BINARY_SEARCH_EXHAUSTED_ITERATIONS`. */
  datatype SearchResult = Row(index: uint32) | NoRow | Exhausted

  /** A row answer names a row that exists and starts at or below `pc`. */
  predicate NamesMatchingRow(rows: seq<uint16>, pc: uint16, r: SearchResult) {
    r.Row? ==> r.index < |rows| && rows[r.index] <= pc
  }

  /** `u32 mid = (left + right) / 2`: the sum wraps on `u64` and the quotient is truncated to
      the `u32` it is stored in. */
  function Midpoint(left: uint64, right: uint64): (mid: uint32)
    ensures left + right < TWO_32 * 2 ==> mid == (left + right) / 2
  {
    var sum := if left + right < TWO_64 then left + right else left + right - TWO_64;
    var half := sum / 2;
    if half < TWO_32 then half else half % TWO_32
  }

  /** The loop of `find_offset_for_pc` with `fuel` iterations left, the current bounds and the
      last row found. */
  function Search(rows: seq<uint16>, pc: uint16, left: uint64, right: uint64, found: SearchResult,
                  fuel: nat): (r: SearchResult)
    requires NamesMatchingRow(rows, pc, found)
    ensures NamesMatchingRow(rows, pc, r)
    ensures right <= U32_MAX && r.Row? ==> r == found || left <= r.index < right
    decreases fuel
  {
    if fuel == 0 then Exhausted
    else if left >= right then found
    else
      var mid := Midpoint(left, right);
      if mid >= |rows| then NoRow
      else if rows[mid] <= pc then Search(rows, pc, WrappingSucc32(mid), right, Row(mid), fuel - 1)
      else Search(rows, pc, left, mid, found, fuel - 1)
  }

  /** `find_offset_for_pc(inner_map, pc_low, left, right)` with `depth` iterations at most. Any
      row it names exists and starts at or below `pc`, whatever the bounds, and lies in
      `[left, right)` whenever `right` is a `u32` index (so `mid + 1` cannot wrap). */
  function FindOffsetForPc(rows: seq<uint16>, pc: uint16, left: uint64, right: uint64, depth: nat)
    : (r: SearchResult)
    ensures NamesMatchingRow(rows, pc, r)
    ensures right <= U32_MAX && r.Row? ==> left <= r.index < right
    ensures depth >= 1 && left >= right ==> r == NoRow
    ensures depth == 0 ==> r == Exhausted
  {
    Search(rows, pc, left, right, NoRow, depth)
  }

  /** The loop as written, iteration by iteration. */
  method FindOffsetForPcLoop(rows: seq<uint16>, pc: uint16, left0: uint64, right0: uint64, depth: nat)
    returns (r: SearchResult)
    ensures r == FindOffsetForPc(rows, pc, left0, right0, depth)
  {
    var found := NoRow;
    var left: uint64, right: uint64 := left0, right0;
    var i := 0;
    while i < depth
      invariant 0 <= i <= depth
      invariant NamesMatchingRow(rows, pc, found)
      invariant Search(rows, pc, left, right, found, depth - i) == FindOffsetForPc(rows, pc, left0, right0, depth)
    {
      if left >= right {
        return found;
      }
      var mid := Midpoint(left, right);
      if mid >= |rows| {
        return NoRow;
      }
      if rows[mid] <= pc {
        found := Row(mid);
        left := WrappingSucc32(mid);
      } else {
        right := mid;
      }
      i := i + 1;
    }
    return Exhausted;
  }

  // ---------------------------------------------------------------------------------------
  // The reference: a linear scan from the right.

  predicate SortedOn(rows: seq<uint16>, left: nat, right: nat)
    requires left <= right <= |rows|
  {
    forall i, j :: left <= i <= j < right ==> rows[i] <= rows[j]
  }

  /** The largest index in `[left, right)` whose row starts at or below `pc`, if any. */
  function RightmostAtMost(rows: seq<uint16>, pc: uint16, left: nat, right: nat): (r: Option<nat>)
    requires left <= right <= |rows|
    ensures r.Some? ==> left <= r.value < right && rows[r.value] <= pc
    ensures r.Some? ==> forall k :: r.value < k < right ==> rows[k] > pc
    ensures r.None? ==> forall k :: left <= k < right ==> rows[k] > pc
    decreases right - left
  {
    if left == right then None
    else if rows[right - 1] <= pc then Some(right - 1)
    else RightmostAtMost(rows, pc, left, right - 1)
  }

  /** On a shard's `pc` values the reference scan picks the row `UnwindRow.LookupRule` picks:
      both take the rightmost row at or below `q`. */
  lemma {:induction false} RightmostAtMostIsLookupRule(rows: seq<CompactUnwindRow>, pcs: seq<uint16>, q: uint16, n: nat)
    requires n <= |rows| == |pcs|
    requires forall i :: 0 <= i < |rows| ==> rows[i].pc == pcs[i]
    ensures var r := RightmostAtMost(pcs, q, 0, n);
      LookupRule(rows[..n], q) == if r.Some? then Some(rows[r.value].Rule()) else None
    decreases n
  {
    if n > 0 && pcs[n - 1] > q {
      RightmostAtMostIsLookupRule(rows, pcs, q, n - 1);
      assert rows[..n][..n - 1] == rows[..n - 1];
    }
  }

  /** The reference answer in the search's terms. */
  function Expected(rows: seq<uint16>, pc: uint16, left: nat, right: nat): SearchResult
    requires left <= right <= |rows| && right <= U32_MAX
  {
    match RightmostAtMost(rows, pc, left, right)
    case None => NoRow
    case Some(i) => Row(i)
  }

  /** An index that starts at or below `pc` with every later row above it is the rightmost. */
  lemma {:induction false} RightmostIs(rows: seq<uint16>, pc: uint16, left: nat, right: nat, i: nat)
    requires left <= i < right <= |rows|
    requires rows[i] <= pc && forall k :: i < k < right ==> rows[k] > pc
    ensures RightmostAtMost(rows, pc, left, right) == Some(i)
    decreases right
  {
    if i < right - 1 {
      RightmostIs(rows, pc, left, right - 1, i);
    }
  }

  /** With every row above `pc` there is no answer. */
  lemma {:induction false} NoneAtMost(rows: seq<uint16>, pc: uint16, left: nat, right: nat)
    requires left <= right <= |rows|
    requires forall k :: left <= k < right ==> rows[k] > pc
    ensures RightmostAtMost(rows, pc, left, right) == None
    decreases right
  {
    if left < right {
      NoneAtMost(rows, pc, left, right - 1);
    }
  }

  // ---------------------------------------------------------------------------------------
  // Correctness.

  /** The search invariant on a sorted shard: the row just left of `left` starts at or below
      `pc`, the row at `right` starts above it, `found` is the row just left of `left`, and
      `fuel` suffices. */
  predicate Invariant(rows: seq<uint16>, pc: uint16, lo: nat, hi: nat, left: uint64, right: uint64,
                      found: SearchResult, fuel: nat)
  {
    && lo <= left <= right <= hi <= |rows| && hi <= U32_MAX
    && (left == lo || rows[left - 1] <= pc)
    && (right == hi || rows[right] > pc)
    && found == (if left == lo then NoRow else Row(left - 1))
    && fuel >= 1 && right - left < Pow2(fuel - 1)
  }

  /** On a sorted shard, every row from `right` on starts above `pc` once the row at `right`
      does. */
  lemma AboveFrom(rows: seq<uint16>, pc: uint16, lo: nat, hi: nat, right: nat)
    requires lo <= right <= hi <= |rows| && SortedOn(rows, lo, hi)
    requires right == hi || rows[right] > pc
    ensures forall k :: right <= k < hi ==> rows[k] > pc
  {
    forall k | right <= k < hi
      ensures rows[k] > pc
    {
      assert rows[right] <= rows[k];
    }
  }

  /** The search ends where the invariant says: at the reference answer. */
  lemma InvariantAtEnd(rows: seq<uint16>, pc: uint16, lo: nat, hi: nat, left: uint64, found: SearchResult,
                       fuel: nat)
    requires Invariant(rows, pc, lo, hi, left, left, found, fuel) && SortedOn(rows, lo, hi)
    ensures found == Expected(rows, pc, lo, hi)
  {
    AboveFrom(rows, pc, lo, hi, left);
    if left > lo {
      RightmostIs(rows, pc, lo, hi, left - 1);
    } else {
      NoneAtMost(rows, pc, lo, hi);
    }
  }

  /** Without wrap-around the midpoint lies in `[left, right)` and its successor fits `u32`. */
  lemma MidpointInRange(left: uint64, right: uint64)
    requires left < right <= U32_MAX
    ensures Midpoint(left, right) == (left + right) / 2
    ensures left <= Midpoint(left, right) < right
  {
  }

  /** Halving: both halves of `[left, right)` around `mid` are at most half as wide. */
  lemma HalvesShrink(left: nat, right: nat, mid: nat, fuel: nat)
    requires left < right && mid == (left + right) / 2
    requires fuel >= 1 && right - left < Pow2(fuel - 1)
    ensures fuel >= 2
    ensures mid - left < Pow2(fuel - 2) && right - (mid + 1) < Pow2(fuel - 2)
  {
  }

  /** A row at or below `pc` at the midpoint moves `left` past it and keeps the invariant. */
  lemma StepRight(rows: seq<uint16>, pc: uint16, lo: nat, hi: nat, left: uint64, right: uint64,
                  found: SearchResult, fuel: nat, mid: uint32, next: uint64)
    requires Invariant(rows, pc, lo, hi, left, right, found, fuel)
    requires left < right && mid == (left + right) / 2 && rows[mid] <= pc && next == mid + 1
    ensures Invariant(rows, pc, lo, hi, next, right, Row(mid), fuel - 1)
    ensures Search(rows, pc, left, right, found, fuel) == Search(rows, pc, next, right, Row(mid), fuel - 1)
  {
    HalvesShrink(left, right, mid, fuel);
    SearchStepRight(rows, pc, left, right, found, fuel, mid, next);
  }

  /** A row above `pc` at the midpoint moves `right` onto it and keeps the invariant. */
  lemma StepLeft(rows: seq<uint16>, pc: uint16, lo: nat, hi: nat, left: uint64, right: uint64,
                 found: SearchResult, fuel: nat, mid: uint32)
    requires Invariant(rows, pc, lo, hi, left, right, found, fuel)
    requires left < right && mid == (left + right) / 2 && rows[mid] > pc
    ensures Invariant(rows, pc, lo, hi, left, mid, found, fuel - 1)
    ensures Search(rows, pc, left, right, found, fuel) == Search(rows, pc, left, mid, found, fuel - 1)
  {
    HalvesShrink(left, right, mid, fuel);
    SearchStepLeft(rows, pc, left, right, found, fuel, mid);
  }

  /** One iteration that finds a row at or below `pc` at the midpoint, with nothing wrapping. */
  lemma SearchStepRight(rows: seq<uint16>, pc: uint16, left: uint64, right: uint64, found: SearchResult,
                        fuel: nat, mid: uint32, next: uint64)
    requires NamesMatchingRow(rows, pc, found)
    requires fuel >= 1 && left < right <= U32_MAX && mid == (left + right) / 2 && mid < |rows|
    requires rows[mid] <= pc && next == mid + 1
    ensures Search(rows, pc, left, right, found, fuel) == Search(rows, pc, next, right, Row(mid), fuel - 1)
  {
    MidpointInRange(left, right);
  }

  /** One iteration that finds a row above `pc` at the midpoint, with nothing wrapping. */
  lemma SearchStepLeft(rows: seq<uint16>, pc: uint16, left: uint64, right: uint64, found: SearchResult,
                       fuel: nat, mid: uint32)
    requires NamesMatchingRow(rows, pc, found)
    requires fuel >= 1 && left < right <= U32_MAX && mid == (left + right) / 2 && mid < |rows|
    requires rows[mid] > pc
    ensures Search(rows, pc, left, right, found, fuel) == Search(rows, pc, left, mid, found, fuel - 1)
  {
    MidpointInRange(left, right);
  }

  /** An iteration that finds the range empty returns the last row found. */
  lemma SearchStopsEmpty(rows: seq<uint16>, pc: uint16, left: uint64, right: uint64, found: SearchResult,
                         fuel: nat)
    requires NamesMatchingRow(rows, pc, found) && fuel >= 1 && left >= right
    ensures Search(rows, pc, left, right, found, fuel) == found
  {
  }

  /** An iteration whose midpoint row does not exist returns `BINARY_SEARCH_DEFAULT`. */
  lemma SearchStopsMissing(rows: seq<uint16>, pc: uint16, left: uint64, right: uint64, found: SearchResult,
                           fuel: nat)
    requires NamesMatchingRow(rows, pc, found) && fuel >= 1
    requires left < right <= U32_MAX && (left + right) / 2 >= |rows|
    ensures Search(rows, pc, left, right, found, fuel) == NoRow
  {
  }

  lemma {:induction false} SearchFindsRightmost(rows: seq<uint16>, pc: uint16, lo: nat, hi: nat,
                                               left: uint64, right: uint64, found: SearchResult, fuel: nat)
    requires Invariant(rows, pc, lo, hi, left, right, found, fuel)
    requires SortedOn(rows, lo, hi)
    ensures NamesMatchingRow(rows, pc, found)
    ensures Search(rows, pc, left, right, found, fuel) == Expected(rows, pc, lo, hi)
    decreases fuel, 1
  {
    if left >= right {
      SearchStopsEmpty(rows, pc, left, right, found, fuel);
      InvariantAtEnd(rows, pc, lo, hi, left, found, fuel);
    } else {
      var mid: uint32 := (left + right) / 2;
      if rows[mid] <= pc {
        GoRight(rows, pc, lo, hi, left, right, found, fuel, mid);
      } else {
        GoLeft(rows, pc, lo, hi, left, right, found, fuel, mid);
      }
    }
  }

  lemma {:induction false} GoRight(rows: seq<uint16>, pc: uint16, lo: nat, hi: nat,
                  left: uint64, right: uint64, found: SearchResult, fuel: nat, mid: uint32)
    requires Invariant(rows, pc, lo, hi, left, right, found, fuel) && SortedOn(rows, lo, hi)
    requires left < right && mid == (left + right) / 2 && rows[mid] <= pc
    ensures NamesMatchingRow(rows, pc, found)
    ensures Search(rows, pc, left, right, found, fuel) == Expected(rows, pc, lo, hi)
    decreases fuel, 0
  {
    var next: uint64 := mid + 1;
    StepRight(rows, pc, lo, hi, left, right, found, fuel, mid, next);
    SearchFindsRightmost(rows, pc, lo, hi, next, right, Row(mid), fuel - 1);
  }

  lemma {:induction false} GoLeft(rows: seq<uint16>, pc: uint16, lo: nat, hi: nat,
                  left: uint64, right: uint64, found: SearchResult, fuel: nat, mid: uint32)
    requires Invariant(rows, pc, lo, hi, left, right, found, fuel) && SortedOn(rows, lo, hi)
    requires left < right && mid == (left + right) / 2 && rows[mid] > pc
    ensures NamesMatchingRow(rows, pc, found)
    ensures Search(rows, pc, left, right, found, fuel) == Expected(rows, pc, lo, hi)
    decreases fuel, 0
  {
    StepLeft(rows, pc, lo, hi, left, right, found, fuel, mid);
    SearchFindsRightmost(rows, pc, lo, hi, left, mid, found, fuel - 1);
  }

  /** On a sorted shard with bounds inside it, and enough iterations to narrow `[left, right)`
      to nothing (fewer than `2^(depth-1)` rows), the search returns the largest index in
      `[left, right)` whose row starts at or below `pc`, or `BINARY_SEARCH_DEFAULT` if there is
      none. */
  lemma FindOffsetForPcFindsRightmost(rows: seq<uint16>, pc: uint16, left: uint64, right: uint64, depth: nat)
    requires left <= right <= |rows| && right <= U32_MAX
    requires SortedOn(rows, left, right)
    requires depth >= 1 && right - left < Pow2(depth - 1)
    ensures FindOffsetForPc(rows, pc, left, right, depth) == Expected(rows, pc, left, right)
    ensures FindOffsetForPc(rows, pc, left, right, depth).Row? ==>
              left <= FindOffsetForPc(rows, pc, left, right, depth).index < right
  {
    SearchFindsRightmost(rows, pc, left, right, left, right, NoRow, depth);
  }

  lemma {:induction false} SearchConverges(rows: seq<uint16>, pc: uint16, left: uint64, right: uint64,
                                          found: SearchResult, fuel: nat)
    requires NamesMatchingRow(rows, pc, found) && !found.Exhausted?
    requires right <= U32_MAX && fuel >= 1 && right - left < Pow2(fuel - 1)
    ensures Search(rows, pc, left, right, found, fuel) != Exhausted
    decreases fuel, 1
  {
    if left >= right {
      SearchStopsEmpty(rows, pc, left, right, found, fuel);
    } else if (left + right) / 2 >= |rows| {
      SearchStopsMissing(rows, pc, left, right, found, fuel);
    } else {
      var mid: uint32 := (left + right) / 2;
      if rows[mid] <= pc {
        ConvergesRight(rows, pc, left, right, found, fuel, mid);
      } else {
        ConvergesLeft(rows, pc, left, right, found, fuel, mid);
      }
    }
  }

  lemma {:induction false} ConvergesRight(rows: seq<uint16>, pc: uint16, left: uint64, right: uint64,
                                         found: SearchResult, fuel: nat, mid: uint32)
    requires NamesMatchingRow(rows, pc, found) && !found.Exhausted?
    requires right <= U32_MAX && fuel >= 1 && right - left < Pow2(fuel - 1)
    requires left < right && mid == (left + right) / 2 && mid < |rows| && rows[mid] <= pc
    ensures Search(rows, pc, left, right, found, fuel) != Exhausted
    decreases fuel, 0
  {
    HalvesShrink(left, right, mid, fuel);
    var next: uint64 := mid + 1;
    SearchStepRight(rows, pc, left, right, found, fuel, mid, next);
    SearchConverges(rows, pc, next, right, Row(mid), fuel - 1);
  }

  lemma {:induction false} ConvergesLeft(rows: seq<uint16>, pc: uint16, left: uint64, right: uint64,
                                        found: SearchResult, fuel: nat, mid: uint32)
    requires NamesMatchingRow(rows, pc, found) && !found.Exhausted?
    requires right <= U32_MAX && fuel >= 1 && right - left < Pow2(fuel - 1)
    requires left < right && mid == (left + right) / 2 && mid < |rows| && rows[mid] > pc
    ensures Search(rows, pc, left, right, found, fuel) != Exhausted
    decreases fuel, 0
  {
    HalvesShrink(left, right, mid, fuel);
    SearchStepLeft(rows, pc, left, right, found, fuel, mid);
    SearchConverges(rows, pc, left, mid, found, fuel - 1);
  }

  /** `BINARY_SEARCH_EXHAUSTED_ITERATIONS` needs a range of at least `2^(depth-1)` rows when
      no index wraps, sorted or not. */
  lemma ExhaustedOnlyWhenWide(rows: seq<uint16>, pc: uint16, left: uint64, right: uint64, depth: nat)
    requires right <= U32_MAX && depth >= 1
    ensures FindOffsetForPc(rows, pc, left, right, depth) == Exhausted ==> right - left >= Pow2(depth - 1)
  {
    if right - left < Pow2(depth - 1) {
      SearchConverges(rows, pc, left, right, NoRow, depth);
    }
  }

  /** The bound is tight: the last iteration narrows the range without checking it again, so a
      single iteration over a single row runs out. */
  lemma OneIterationIsNotEnoughForOneRow()
    ensures FindOffsetForPc([0], 0, 0, 1, 1) == Exhausted
    ensures FindOffsetForPc([0], 0, 0, 1, 2) == Row(0)
  {
    assert Midpoint(0, 1) == 0;
  }
}
