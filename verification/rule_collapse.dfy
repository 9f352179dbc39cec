/** `remove_redundant`: the pass over the pc-sorted table that drops every row whose rule
    (`cfa_type`, `cfa_offset`, `rbp_type`, `rbp_offset`; the address is ignored) equals the rule
    of the row before it in the input. Lookups by "closest row at or below an address" cannot
    tell the two tables apart. */
module RuleCollapse {
  import opened Results
  import opened Seqs
  import opened UnwindRow

  /** Row `j` starts a run of equal rules: it is the first row or its rule differs from the
      previous input row's. */
  predicate StartsRun(rows: seq<CompactUnwindRow>, j: nat)
    requires j < |rows|
  {
    j == 0 || rows[j].Rule() != rows[j - 1].Rule()
  }

  function RunMask(rows: seq<CompactUnwindRow>): (keep: seq<bool>)
    ensures |keep| == |rows|
    ensures forall j :: 0 <= j < |rows| ==> (keep[j] <==> StartsRun(rows, j))
  {
    seq(|rows|, j requires 0 <= j < |rows| => StartsRun(rows, j))
  }

  /** The intended result: the first row of every run of equal rules, in order. */
  function RemoveRedundant(rows: seq<CompactUnwindRow>): (r: seq<CompactUnwindRow>)
    ensures |r| <= |rows|
  {
    Select(rows, RunMask(rows))
  }

  /** `remove_redundant` as written: an in-place write cursor, then `truncate`. */
  method RemoveRedundantInPlace(table: seq<CompactUnwindRow>) returns (out: seq<CompactUnwindRow>)
    ensures out == RemoveRedundant(table)
  {
    var buf := table;
    var newI := 0;
    var lastRow: Option<CompactUnwindRow> := None;
    ghost var keep := RunMask(table);
    for i := 0 to |table|
      invariant |buf| == |table| && newI <= i
      invariant buf[i..] == table[i..]
      invariant buf[..newI] == Select(table[..i], keep[..i])
      invariant i == 0 ==> lastRow == None
      invariant i > 0 ==> lastRow == Some(table[i - 1])
    {
      var row := buf[i];
      assert row == buf[i..][0] == table[i];
      var redundant := false;
      if lastRow.Some? {
        var last := lastRow.value;
        redundant := row.cfaType == last.cfaType && row.cfaOffset == last.cfaOffset
          && row.rbpType == last.rbpType && row.rbpOffset == last.rbpOffset;
      }
      assert redundant <==> !keep[i];
      SelectSnoc(table, keep, i);
      if !redundant {
        var before := buf;
        buf := buf[newI := row];
        assert buf[..newI + 1] == before[..newI] + [row];
        assert buf[i + 1..] == before[i + 1..];
        newI := newI + 1;
      }
      assert buf[i + 1..] == buf[i..][1..];
      lastRow := Some(row);
    }
    assert table[..|table|] == table && keep[..|table|] == keep;
    out := buf[..newI];
  }

  lemma RunMaskPrefix(rows: seq<CompactUnwindRow>, n: nat)
    requires n <= |rows|
    ensures RunMask(rows)[..n] == RunMask(rows[..n])
  {
  }

  /** Appending a row appends it to the result exactly when its rule differs from the last
      input row's. */
  lemma RemoveRedundantSnoc(rows: seq<CompactUnwindRow>)
    requires |rows| > 0
    ensures var n := |rows| - 1;
      RemoveRedundant(rows) == RemoveRedundant(rows[..n]) + (if StartsRun(rows, n) then [rows[n]] else [])
  {
    RunMaskPrefix(rows, |rows| - 1);
  }

  /** The first row is always kept. */
  lemma KeepsFirstRow(rows: seq<CompactUnwindRow>)
    requires |rows| > 0
    ensures |RemoveRedundant(rows)| > 0 && RemoveRedundant(rows)[0] == rows[0]
  {
    SelectFirst(rows, RunMask(rows));
  }

  /** The result is an in-order subsequence, so a sorted table stays sorted. */
  lemma RemoveRedundantPreservesSorted(rows: seq<CompactUnwindRow>)
    requires SortedBy(rows, PcOf)
    ensures SortedBy(RemoveRedundant(rows), PcOf)
  {
    SelectPreservesSorted(rows, RunMask(rows), PcOf);
  }

  /** Rows dropped after row `a` all carry row `a`'s rule. */
  lemma {:induction false} SameRuleThroughDropped(rows: seq<CompactUnwindRow>, a: nat, j: nat)
    requires a <= j < |rows|
    requires forall t :: a < t <= j ==> !StartsRun(rows, t)
    ensures rows[j].Rule() == rows[a].Rule()
    decreases j
  {
    if j > a {
      assert !StartsRun(rows, j);
      SameRuleThroughDropped(rows, a, j - 1);
    }
  }

  /** No two adjacent rows of the result have the same rule. */
  lemma NoAdjacentEqualRules(rows: seq<CompactUnwindRow>)
    ensures var r := RemoveRedundant(rows);
      forall k :: 0 <= k < |r| - 1 ==> r[k].Rule() != r[k + 1].Rule()
  {
    var keep := RunMask(rows);
    var r := RemoveRedundant(rows);
    forall k | 0 <= k < |r| - 1
      ensures r[k].Rule() != r[k + 1].Rule()
    {
      var a, b := SelectAdjacentOrigins(rows, keep, k);
      SameRuleThroughDropped(rows, a, b - 1);
    }
  }

  /** Every dropped row has the rule of the nearest kept row before it, which is returned. */
  lemma DroppedRowRepeatsRule(rows: seq<CompactUnwindRow>, j: nat) returns (a: nat)
    requires j < |rows| && !StartsRun(rows, j)
    ensures a < j && StartsRun(rows, a)
    ensures forall t :: a < t <= j ==> !StartsRun(rows, t)
    ensures rows[a].Rule() == rows[j].Rule()
  {
    var keep := RunMask(rows);
    RunMaskPrefix(rows, j);
    KeepsFirstRow(rows[..j]);
    a := LastKept(rows[..j], keep[..j]);
    assert forall t :: a < t < j ==> keep[..j][t] == keep[t];
    SameRuleThroughDropped(rows, a, j);
  }

  /** Running the pass twice is the same as running it once. */
  lemma RemoveRedundantIdempotent(rows: seq<CompactUnwindRow>)
    ensures RemoveRedundant(RemoveRedundant(rows)) == RemoveRedundant(rows)
  {
    var r := RemoveRedundant(rows);
    NoAdjacentEqualRules(rows);
    SelectAll(r, RunMask(r));
  }

  lemma LookupSnoc(rows: seq<CompactUnwindRow>, x: CompactUnwindRow, q: int)
    ensures LookupRule(rows + [x], q) == if x.pc <= q then Some(x.Rule()) else LookupRule(rows, q)
  {
    assert (rows + [x])[..|rows|] == rows;
  }

  /** A row whose rule repeats the previous row's changes no lookup of a sorted table. */
  lemma DroppedRowInvisible(rows: seq<CompactUnwindRow>, q: int)
    requires |rows| > 1 && rows[|rows| - 2].pc <= rows[|rows| - 1].pc
    requires rows[|rows| - 1].Rule() == rows[|rows| - 2].Rule()
    ensures LookupRule(rows, q) == LookupRule(rows[..|rows| - 1], q)
  {
    var n := |rows| - 1;
    var front := rows[..n];
    assert rows == front + [rows[n]];
    LookupSnoc(front, rows[n], q);
    if rows[n].pc <= q {
      assert front == front[..n - 1] + [rows[n - 1]];
      LookupSnoc(front[..n - 1], rows[n - 1], q);
    }
  }

  lemma LookupStep(rows: seq<CompactUnwindRow>, q: int)
    requires |rows| > 0 && AdjacentSorted(rows)
    requires LookupRule(RemoveRedundant(rows[..|rows| - 1]), q) == LookupRule(rows[..|rows| - 1], q)
    ensures LookupRule(RemoveRedundant(rows), q) == LookupRule(rows, q)
  {
    var n := |rows| - 1;
    var front := rows[..n];
    RemoveRedundantSnoc(rows);
    if StartsRun(rows, n) {
      assert rows == front + [rows[n]];
      LookupSnoc(front, rows[n], q);
      LookupSnoc(RemoveRedundant(front), rows[n], q);
    } else {
      assert RemoveRedundant(rows) == RemoveRedundant(front) + [];
      assert RemoveRedundant(front) + [] == RemoveRedundant(front);
      assert rows[n].Rule() == rows[n - 1].Rule() && rows[n - 1].pc <= rows[n].pc;
      DroppedRowInvisible(rows, q);
    }
  }

  /** On an address-sorted table, every lookup gives the same rule before and after the pass. */
  lemma {:induction false} RemoveRedundantPreservesLookup(rows: seq<CompactUnwindRow>, q: int)
    requires AdjacentSorted(rows)
    ensures LookupRule(RemoveRedundant(rows), q) == LookupRule(rows, q)
    decreases |rows|
  {
    if |rows| > 0 {
      var front := rows[..|rows| - 1];
      assert AdjacentSorted(front);
      RemoveRedundantPreservesLookup(front, q);
      LookupStep(rows, q);
    }
  }
}
