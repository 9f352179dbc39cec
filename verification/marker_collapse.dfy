/** `remove_unnecesary_markers`: the pass over the pc-sorted table that drops end-of-function
    markers made redundant by a row at the same address.

    `RemoveUnnecessaryMarkers` is the pass as written, an in-place write cursor over the
    vector with `usize` wrap-around (a release build). It assumes that whenever the previous
    input row is a marker at the current row's address, that marker was the last row written,
    which fails when the marker itself was skipped. `CollapseMarkers` is the intended
    behaviour: drop exactly the markers that share their address with an adjacent row. The
    two agree on every table where no marker sits between two rows of its own address. */
module MarkerCollapse {
  import opened Machine
  import opened Results
  import opened Seqs
  import opened UnwindRow

  // ---------------------------------------------------------------------------------------
  // The intended pass.

  /** Row `j` is a marker at the same address as the row before it. */
  predicate BackRedundant(rows: seq<CompactUnwindRow>, j: nat)
    requires j < |rows|
  {
    j > 0 && rows[j].IsMarker() && rows[j - 1].pc == rows[j].pc
  }

  /** Row `j` is a marker at the same address as the row after it. */
  predicate ForwardRedundant(rows: seq<CompactUnwindRow>, j: nat)
    requires j < |rows|
  {
    j + 1 < |rows| && rows[j].IsMarker() && rows[j + 1].pc == rows[j].pc
  }

  /** Which rows the intended pass keeps. */
  function MarkerMask(rows: seq<CompactUnwindRow>): (keep: seq<bool>)
    ensures |keep| == |rows|
    ensures forall j :: 0 <= j < |rows| ==>
      (keep[j] <==> !BackRedundant(rows, j) && !ForwardRedundant(rows, j))
  {
    seq(|rows|, j requires 0 <= j < |rows| => !BackRedundant(rows, j) && !ForwardRedundant(rows, j))
  }

  /** The intended pass: every marker that shares its address with a neighbour is dropped, and
      every other row is kept in order. */
  function CollapseMarkers(rows: seq<CompactUnwindRow>): (r: seq<CompactUnwindRow>)
    ensures |r| <= |rows|
  {
    Select(rows, MarkerMask(rows))
  }

  /** The rows of a table that are not markers, in order. */
  function NonMarkers(rows: seq<CompactUnwindRow>): (r: seq<CompactUnwindRow>)
    ensures |r| <= |rows|
    decreases |rows|
  {
    if |rows| == 0 then []
    else
      var n := |rows| - 1;
      NonMarkers(rows[..n]) + (if rows[n].IsMarker() then [] else [rows[n]])
  }

  /** A selection that keeps every non-marker keeps the same non-markers. */
  lemma {:induction false} SelectKeepsNonMarkers(rows: seq<CompactUnwindRow>, keep: seq<bool>)
    requires |keep| == |rows|
    requires forall j :: 0 <= j < |rows| && !rows[j].IsMarker() ==> keep[j]
    ensures NonMarkers(Select(rows, keep)) == NonMarkers(rows)
    decreases |rows|
  {
    if |rows| > 0 {
      var n := |rows| - 1;
      var front := Select(rows[..n], keep[..n]);
      SelectKeepsNonMarkers(rows[..n], keep[..n]);
      NonMarkersAppend(front, if keep[n] then [rows[n]] else []);
      if keep[n] {
        assert ([rows[n]])[..0] == [];
      }
    }
  }

  lemma NonMarkersAppend(a: seq<CompactUnwindRow>, b: seq<CompactUnwindRow>)
    requires |b| <= 1
    ensures NonMarkers(a + b) == NonMarkers(a) + NonMarkers(b)
  {
    if |b| == 1 {
      assert (a + b)[..|a|] == a;
      assert b[..0] == [];
    } else {
      assert a + b == a;
    }
  }

  /** The intended pass drops markers only: every real row survives, in order. */
  lemma CollapseKeepsNonMarkers(rows: seq<CompactUnwindRow>)
    ensures NonMarkers(CollapseMarkers(rows)) == NonMarkers(rows)
  {
    SelectKeepsNonMarkers(rows, MarkerMask(rows));
  }

  /** The intended pass keeps a pc-sorted table sorted. */
  lemma CollapsePreservesSorted(rows: seq<CompactUnwindRow>)
    requires SortedBy(rows, PcOf)
    ensures SortedBy(CollapseMarkers(rows), PcOf)
  {
    SelectPreservesSorted(rows, MarkerMask(rows), PcOf);
  }

  /** No marker of the table shares its address with an adjacent row. */
  ghost predicate MarkerClean(rows: seq<CompactUnwindRow>) {
    forall j :: 0 <= j < |rows| ==> !BackRedundant(rows, j) && !ForwardRedundant(rows, j)
  }

  /** Two adjacent rows of the intended output of a sorted table never pair a marker with a
      row at its address. */
  lemma AdjacentOutputsClean(rows: seq<CompactUnwindRow>, k: nat)
    requires SortedBy(rows, PcOf)
    requires k + 1 < |CollapseMarkers(rows)|
    ensures var out := CollapseMarkers(rows);
      out[k].pc == out[k + 1].pc ==> !out[k].IsMarker() && !out[k + 1].IsMarker()
  {
    var keep := MarkerMask(rows);
    var out := CollapseMarkers(rows);
    var a, b := SelectAdjacentOrigins(rows, keep, k);
    if rows[a].pc == rows[b].pc {
      assert PcOf(rows[a]) <= PcOf(rows[a + 1]) <= PcOf(rows[b]);
      assert PcOf(rows[a]) <= PcOf(rows[b - 1]) <= PcOf(rows[b]);
      assert !ForwardRedundant(rows, a) && !BackRedundant(rows, b);
    }
  }

  /** On a sorted table the intended pass leaves no redundant marker behind. */
  lemma CollapseIsMarkerClean(rows: seq<CompactUnwindRow>)
    requires SortedBy(rows, PcOf)
    ensures MarkerClean(CollapseMarkers(rows))
  {
    var out := CollapseMarkers(rows);
    forall j | 0 <= j < |out|
      ensures !BackRedundant(out, j) && !ForwardRedundant(out, j)
    {
      if j > 0 {
        AdjacentOutputsClean(rows, j - 1);
      }
      if j + 1 < |out| {
        AdjacentOutputsClean(rows, j);
      }
    }
  }

  /** Two rows that become neighbours when the rows between them are dropped from a sorted,
      marker-clean table never pair a marker with a row at its address. */
  lemma SelectedNeighboursClean(rows: seq<CompactUnwindRow>, keep: seq<bool>, k: nat)
    requires |keep| == |rows| && SortedBy(rows, PcOf) && MarkerClean(rows)
    requires k + 1 < |Select(rows, keep)|
    ensures var out := Select(rows, keep);
      out[k].pc == out[k + 1].pc ==> !out[k].IsMarker() && !out[k + 1].IsMarker()
  {
    var a, b := SelectAdjacentOrigins(rows, keep, k);
    if rows[a].pc == rows[b].pc {
      assert PcOf(rows[a]) <= PcOf(rows[a + 1]) <= PcOf(rows[b]);
      assert PcOf(rows[a]) <= PcOf(rows[b - 1]) <= PcOf(rows[b]);
      assert !ForwardRedundant(rows, a) && !BackRedundant(rows, b);
    }
  }

  /** Dropping rows from a sorted, marker-clean table keeps it marker-clean. */
  lemma SelectKeepsMarkerClean(rows: seq<CompactUnwindRow>, keep: seq<bool>)
    requires |keep| == |rows| && SortedBy(rows, PcOf) && MarkerClean(rows)
    ensures MarkerClean(Select(rows, keep))
  {
    var out := Select(rows, keep);
    forall j | 0 <= j < |out|
      ensures !BackRedundant(out, j) && !ForwardRedundant(out, j)
    {
      if j > 0 {
        SelectedNeighboursClean(rows, keep, j - 1);
      }
      if j + 1 < |out| {
        SelectedNeighboursClean(rows, keep, j);
      }
    }
  }

  /** On a sorted table, running the intended pass twice is the same as running it once. */
  lemma CollapseIdempotent(rows: seq<CompactUnwindRow>)
    requires SortedBy(rows, PcOf)
    ensures CollapseMarkers(CollapseMarkers(rows)) == CollapseMarkers(rows)
  {
    var out := CollapseMarkers(rows);
    CollapseIsMarkerClean(rows);
    SelectAll(out, MarkerMask(out));
  }

  // ---------------------------------------------------------------------------------------
  // The pass as written.

  /** The loop state: the vector being rewritten, the write cursor `new_i` (a `usize`), and
      the previous input row. The cursor only ever holds `usize` values: it wraps when it is
      decremented below zero and is only incremented after a successful write. */
  datatype Cursor = Cursor(buf: seq<CompactUnwindRow>, newI: nat, lastRow: Option<CompactUnwindRow>)

  /** Writing at a cursor past the end of the vector panics. */
  datatype MarkerPanic = IndexOutOfBounds

  /** One iteration of the loop, on input position `i`. */
  function MarkerStep(c: Cursor, i: nat): (r: Result<Cursor, MarkerPanic>)
    requires i < |c.buf|
    ensures r.Success? ==> |r.value.buf| == |c.buf| && r.value.lastRow == Some(c.buf[i])
  {
    var row := c.buf[i];
    var previousIsRedundantMarker :=
      c.lastRow.Some? && c.lastRow.value.IsMarker() && c.lastRow.value.pc == row.pc;
    var newI := if previousIsRedundantMarker then Wrap64(c.newI - 1) else c.newI;
    var currentIsRedundantMarker := c.lastRow.Some? && row.IsMarker() && c.lastRow.value.pc == row.pc;
    if currentIsRedundantMarker then Success(Cursor(c.buf, newI, Some(row)))
    else if newI >= |c.buf| then Failure(IndexOutOfBounds)
    else Success(Cursor(c.buf[newI := row], newI + 1, Some(row)))
  }

  /** The loop state after the first `i` iterations. */
  function MarkerPass(rows: seq<CompactUnwindRow>, i: nat): (r: Result<Cursor, MarkerPanic>)
    requires i <= |rows|
    ensures r.Success? ==> |r.value.buf| == |rows|
    decreases i
  {
    if i == 0 then Success(Cursor(rows, 0, None))
    else
      var c :- MarkerPass(rows, i - 1);
      MarkerStep(c, i - 1)
  }

  /** `Vec::truncate`: a length at or past the end leaves the vector alone. */
  function Truncate(v: seq<CompactUnwindRow>, n: int): (r: seq<CompactUnwindRow>)
    ensures 0 <= n < |v| ==> r == v[..n]
    ensures n >= |v| ==> r == v
  {
    if 0 <= n < |v| then v[..n] else v
  }

  /** `remove_unnecesary_markers` as written. */
  function RemoveUnnecessaryMarkers(rows: seq<CompactUnwindRow>): Result<seq<CompactUnwindRow>, MarkerPanic> {
    var c :- MarkerPass(rows, |rows|);
    Success(Truncate(c.buf, c.newI))
  }

  /** No marker sits between two rows of its own address. */
  ghost predicate NoMarkerBetweenEqualPcs(rows: seq<CompactUnwindRow>) {
    forall j :: 0 < j < |rows| - 1 && rows[j].IsMarker() ==> !(rows[j - 1].pc == rows[j].pc == rows[j + 1].pc)
  }

  /** What the cursor has written after `i > 0` iterations: the intended output of the first
      `i - 1` rows, then row `i - 1` unless it was skipped as redundant. */
  function Written(rows: seq<CompactUnwindRow>, i: nat): seq<CompactUnwindRow>
    requires 0 < i <= |rows|
  {
    Select(rows[..i - 1], MarkerMask(rows)[..i - 1]) + (if BackRedundant(rows, i - 1) then [] else [rows[i - 1]])
  }

  ghost predicate PassInvariant(rows: seq<CompactUnwindRow>, i: nat, c: Cursor)
    requires i <= |rows|
  {
    |c.buf| == |rows| && c.newI <= i && c.buf[i..] == rows[i..]
    && (i == 0 ==> c.newI == 0 && c.lastRow == None)
    && (i > 0 ==> c.lastRow == Some(rows[i - 1]) && c.buf[..c.newI] == Written(rows, i))
  }

  /** A marker that the next row makes redundant was itself written: it had no equal-address
      row before it. */
  lemma RedundantMarkerWasWritten(rows: seq<CompactUnwindRow>, i: nat)
    requires 0 < i < |rows| && NoMarkerBetweenEqualPcs(rows)
    requires rows[i - 1].IsMarker() && rows[i - 1].pc == rows[i].pc
    ensures !BackRedundant(rows, i - 1) && ForwardRedundant(rows, i - 1)
  {
    if i > 1 {
      var j := i - 1;
      assert 0 < j < |rows| - 1 && rows[j].IsMarker();
    }
  }

  /** After the cursor moves past row `i - 1`, what it holds is the intended output so far. */
  lemma WrittenAfterCursor(rows: seq<CompactUnwindRow>, i: nat, buf: seq<CompactUnwindRow>, n: nat, newI: int)
    requires 0 < i < |rows| && NoMarkerBetweenEqualPcs(rows)
    requires n <= |buf| && buf[..n] == Written(rows, i)
    requires rows[i - 1].IsMarker() && rows[i - 1].pc == rows[i].pc ==> newI == n - 1
    requires !(rows[i - 1].IsMarker() && rows[i - 1].pc == rows[i].pc) ==> newI == n
    ensures 0 <= newI <= n
    ensures buf[..newI] == Select(rows[..i], MarkerMask(rows)[..i])
  {
    var keep := MarkerMask(rows);
    var front := Select(rows[..i - 1], keep[..i - 1]);
    SelectSnoc(rows, keep, i - 1);
    assert Select(rows[..i], keep[..i]) == front + (if keep[i - 1] then [rows[i - 1]] else []);
    if rows[i - 1].IsMarker() && rows[i - 1].pc == rows[i].pc {
      RedundantMarkerWasWritten(rows, i);
      assert !keep[i - 1];
      assert buf[..n] == front + [rows[i - 1]];
      assert buf[..newI] == buf[..n][..newI];
    } else {
      assert keep[i - 1] == !BackRedundant(rows, i - 1);
    }
  }

  lemma StepKeepsInvariant(rows: seq<CompactUnwindRow>, i: nat, c: Cursor)
    requires i < |rows| < TWO_64 && NoMarkerBetweenEqualPcs(rows)
    requires PassInvariant(rows, i, c)
    ensures MarkerStep(c, i).Success?
    ensures PassInvariant(rows, i + 1, MarkerStep(c, i).value)
  {
    if i == 0 {
      FirstStepKeepsInvariant(rows, c);
    } else if BackRedundant(rows, i) {
      DropStepKeepsInvariant(rows, i, c);
    } else {
      KeepStepKeepsInvariant(rows, i, c);
    }
  }

  lemma FirstStepKeepsInvariant(rows: seq<CompactUnwindRow>, c: Cursor)
    requires 0 < |rows| < TWO_64 && NoMarkerBetweenEqualPcs(rows)
    requires PassInvariant(rows, 0, c)
    ensures MarkerStep(c, 0).Success?
    ensures PassInvariant(rows, 1, MarkerStep(c, 0).value)
  {
    var keep := MarkerMask(rows);
    assert c.buf[0] == c.buf[0..][0] == rows[0];
    var row := rows[0];
    assert MarkerStep(c, 0) == Success(Cursor(c.buf[0 := row], 1, Some(row)));
    assert rows[..0] == [] && keep[..0] == [];
    assert c.buf[0 := row][1..] == c.buf[1..];
  }

  lemma DropStepKeepsInvariant(rows: seq<CompactUnwindRow>, i: nat, c: Cursor)
    requires 0 < i < |rows| < TWO_64 && NoMarkerBetweenEqualPcs(rows)
    requires PassInvariant(rows, i, c) && BackRedundant(rows, i)
    ensures MarkerStep(c, i).Success?
    ensures PassInvariant(rows, i + 1, MarkerStep(c, i).value)
  {
    assert c.buf[i] == c.buf[i..][0] == rows[i];
    var row := rows[i];
    var previous := rows[i - 1].IsMarker() && rows[i - 1].pc == row.pc;
    var newI := if previous then c.newI - 1 else c.newI;
    WrittenAfterCursor(rows, i, c.buf, c.newI, newI);
    assert MarkerStep(c, i).value == Cursor(c.buf, newI, Some(row));
    assert c.buf[i + 1..] == c.buf[i..][1..];
  }

  lemma KeepStepKeepsInvariant(rows: seq<CompactUnwindRow>, i: nat, c: Cursor)
    requires 0 < i < |rows| < TWO_64 && NoMarkerBetweenEqualPcs(rows)
    requires PassInvariant(rows, i, c) && !BackRedundant(rows, i)
    ensures MarkerStep(c, i).Success?
    ensures PassInvariant(rows, i + 1, MarkerStep(c, i).value)
  {
    assert c.buf[i] == c.buf[i..][0] == rows[i];
    var row := rows[i];
    var previous := rows[i - 1].IsMarker() && rows[i - 1].pc == row.pc;
    var newI := if previous then c.newI - 1 else c.newI;
    WrittenAfterCursor(rows, i, c.buf, c.newI, newI);
    assert MarkerStep(c, i).value == Cursor(c.buf[newI := row], newI + 1, Some(row));
    var buf' := c.buf[newI := row];
    assert buf'[..newI + 1] == c.buf[..newI] + [row];
    assert buf'[i + 1..] == c.buf[i + 1..];
    assert c.buf[i + 1..] == c.buf[i..][1..];
  }

  lemma {:induction false} PassKeepsInvariant(rows: seq<CompactUnwindRow>, i: nat)
    requires i <= |rows| < TWO_64 && NoMarkerBetweenEqualPcs(rows)
    ensures MarkerPass(rows, i).Success?
    ensures PassInvariant(rows, i, MarkerPass(rows, i).value)
    decreases i
  {
    if i > 0 {
      PassKeepsInvariant(rows, i - 1);
      StepKeepsInvariant(rows, i - 1, MarkerPass(rows, i - 1).value);
    }
  }

  /** Where no marker sits between two rows of its own address, the pass as written computes
      the intended result. (A vector never holds `2^64` rows.) */
  lemma AsWrittenAgreesWhenNoMarkerBetweenEqualPcs(rows: seq<CompactUnwindRow>)
    requires |rows| < TWO_64 && NoMarkerBetweenEqualPcs(rows)
    ensures RemoveUnnecessaryMarkers(rows) == Success(CollapseMarkers(rows))
  {
    var n := |rows|;
    PassKeepsInvariant(rows, n);
    var c := MarkerPass(rows, n).value;
    if n == 0 {
      assert c.buf == [];
    } else {
      var keep := MarkerMask(rows);
      SelectSnoc(rows, keep, n - 1);
      assert !ForwardRedundant(rows, n - 1);
      assert rows[..n] == rows && keep[..n] == keep;
      assert c.buf[..c.newI] == CollapseMarkers(rows);
      assert Truncate(c.buf, c.newI) == c.buf[..c.newI];
    }
  }

  // Counterexamples: a marker skipped as redundant is later "removed" again.

  /** A row and two end-of-function markers at one address. */
  function RowAt(pc: uint64): CompactUnwindRow {
    CompactUnwindRow(pc, CFA_STACK_POINTER_OFFSET, RBP_UNKNOWN, 8, 0)
  }

  /** `[X@p, M@p, M@p]`: the second marker moves the cursor back over the row `X` that was
      written, so the real row is lost; the intended pass keeps it. */
  lemma AsWrittenLosesRow()
    ensures RemoveUnnecessaryMarkers([RowAt(16), EndOfFunctionMarker(16), EndOfFunctionMarker(16)]) == Success([])
    ensures CollapseMarkers([RowAt(16), EndOfFunctionMarker(16), EndOfFunctionMarker(16)]) == [RowAt(16)]
  {
    var x, m := RowAt(16), EndOfFunctionMarker(16);
    var rows := [x, m, m];
    assert m.IsMarker() && !x.IsMarker();
    var keep := MarkerMask(rows);
    assert keep == [true, false, false];
    assert rows[..2][..1] == [x] && keep[..2][..1] == [true];
    assert rows[..1][..0] == [] && keep[..1][..0] == [];
    assert Select(rows, keep) == Select(rows[..2], keep[..2]) == Select(rows[..1], keep[..1]);
    assert rows[0 := x] == rows;
    assert MarkerStep(Cursor(rows, 0, None), 0) == Success(Cursor(rows, 1, Some(x)));
    assert MarkerPass(rows, 1) == Success(Cursor(rows, 1, Some(x)));
    assert MarkerStep(Cursor(rows, 1, Some(x)), 1) == Success(Cursor(rows, 1, Some(m)));
    assert MarkerPass(rows, 2) == Success(Cursor(rows, 1, Some(m)));
    assert MarkerStep(Cursor(rows, 1, Some(m)), 2) == Success(Cursor(rows, 0, Some(m)));
    assert MarkerPass(rows, 3) == Success(Cursor(rows, 0, Some(m)));
  }

  /** `[X@p, M@p, Y@p]` has no two adjacent markers, yet `X` is lost: the requirement that
      makes the pass correct is that no marker sits between two rows of its own address. */
  lemma AsWrittenLosesRowWithoutAdjacentMarkers()
    ensures RemoveUnnecessaryMarkers([RowAt(16), EndOfFunctionMarker(16), RowAt(16).(rbpType := RBP_CFA_OFFSET)])
         == Success([RowAt(16).(rbpType := RBP_CFA_OFFSET)])
    ensures CollapseMarkers([RowAt(16), EndOfFunctionMarker(16), RowAt(16).(rbpType := RBP_CFA_OFFSET)])
         == [RowAt(16), RowAt(16).(rbpType := RBP_CFA_OFFSET)]
  {
    LosesRowPass();
    LosesRowCollapse();
    var y := RowAt(16).(rbpType := RBP_CFA_OFFSET);
    assert [y, EndOfFunctionMarker(16), y][..1] == [y];
  }

  lemma LosesRowPass()
    ensures MarkerPass([RowAt(16), EndOfFunctionMarker(16), RowAt(16).(rbpType := RBP_CFA_OFFSET)], 3)
         == Success(Cursor([RowAt(16).(rbpType := RBP_CFA_OFFSET), EndOfFunctionMarker(16), RowAt(16).(rbpType := RBP_CFA_OFFSET)],
                           1, Some(RowAt(16).(rbpType := RBP_CFA_OFFSET))))
  {
    var x, m, y := RowAt(16), EndOfFunctionMarker(16), RowAt(16).(rbpType := RBP_CFA_OFFSET);
    var rows := [x, m, y];
    assert m.IsMarker() && !x.IsMarker() && !y.IsMarker();
    assert rows[0 := x] == rows;
    assert MarkerStep(Cursor(rows, 0, None), 0) == Success(Cursor(rows, 1, Some(x)));
    assert MarkerPass(rows, 1) == Success(Cursor(rows, 1, Some(x)));
    assert MarkerStep(Cursor(rows, 1, Some(x)), 1) == Success(Cursor(rows, 1, Some(m)));
    assert MarkerPass(rows, 2) == Success(Cursor(rows, 1, Some(m)));
    assert rows[0 := y] == [y, m, y];
    assert MarkerStep(Cursor(rows, 1, Some(m)), 2) == Success(Cursor([y, m, y], 1, Some(y)));
  }

  lemma LosesRowCollapse()
    ensures CollapseMarkers([RowAt(16), EndOfFunctionMarker(16), RowAt(16).(rbpType := RBP_CFA_OFFSET)])
         == [RowAt(16), RowAt(16).(rbpType := RBP_CFA_OFFSET)]
  {
    var x, m, y := RowAt(16), EndOfFunctionMarker(16), RowAt(16).(rbpType := RBP_CFA_OFFSET);
    var rows := [x, m, y];
    assert m.IsMarker() && !x.IsMarker() && !y.IsMarker();
    var keep := MarkerMask(rows);
    assert keep == [true, false, true];
    assert rows[..2][..1] == [x] && keep[..2][..1] == [true];
    assert rows[..1][..0] == [] && keep[..1][..0] == [];
    assert Select(rows[..2], keep[..2]) == Select(rows[..1], keep[..1]) == [x];
  }

  /** `[M@p, M@p, M@p]`: the cursor wraps below zero, `truncate` then keeps everything, and all
      three markers survive. */
  lemma AsWrittenCursorWraps()
    ensures RemoveUnnecessaryMarkers([EndOfFunctionMarker(16), EndOfFunctionMarker(16), EndOfFunctionMarker(16)])
         == Success([EndOfFunctionMarker(16), EndOfFunctionMarker(16), EndOfFunctionMarker(16)])
    ensures CollapseMarkers([EndOfFunctionMarker(16), EndOfFunctionMarker(16), EndOfFunctionMarker(16)]) == []
  {
    var m := EndOfFunctionMarker(16);
    var rows := [m, m, m];
    assert m.IsMarker();
    var keep := MarkerMask(rows);
    assert keep == [false, false, false];
    assert rows[..2][..1] == [m] && keep[..2][..1] == [false];
    assert rows[..1][..0] == [] && keep[..1][..0] == [];
    assert Select(rows, keep) == Select(rows[..2], keep[..2]) == Select(rows[..1], keep[..1]) == [];
    assert rows[0 := m] == rows;
    assert MarkerStep(Cursor(rows, 0, None), 0) == Success(Cursor(rows, 1, Some(m)));
    assert MarkerPass(rows, 1) == Success(Cursor(rows, 1, Some(m)));
    assert MarkerStep(Cursor(rows, 1, Some(m)), 1) == Success(Cursor(rows, 0, Some(m)));
    assert MarkerPass(rows, 2) == Success(Cursor(rows, 0, Some(m)));
    assert MarkerStep(Cursor(rows, 0, Some(m)), 2) == Success(Cursor(rows, U64_MAX, Some(m)));
    assert MarkerPass(rows, 3) == Success(Cursor(rows, U64_MAX, Some(m)));
  }

  /** `[M@p, M@p, M@p, X@q]`: after the wrap the next write is out of bounds and panics. */
  lemma AsWrittenPanics()
    ensures RemoveUnnecessaryMarkers([EndOfFunctionMarker(16), EndOfFunctionMarker(16), EndOfFunctionMarker(16), RowAt(32)])
         == Failure(IndexOutOfBounds)
  {
    var m, x := EndOfFunctionMarker(16), RowAt(32);
    var rows := [m, m, m, x];
    assert m.IsMarker() && !x.IsMarker();
    assert rows[0 := m] == rows;
    assert MarkerStep(Cursor(rows, 0, None), 0) == Success(Cursor(rows, 1, Some(m)));
    assert MarkerPass(rows, 1) == Success(Cursor(rows, 1, Some(m)));
    assert MarkerStep(Cursor(rows, 1, Some(m)), 1) == Success(Cursor(rows, 0, Some(m)));
    assert MarkerPass(rows, 2) == Success(Cursor(rows, 0, Some(m)));
    assert MarkerStep(Cursor(rows, 0, Some(m)), 2) == Success(Cursor(rows, U64_MAX, Some(m)));
    assert MarkerPass(rows, 3) == Success(Cursor(rows, U64_MAX, Some(m)));
    assert MarkerStep(Cursor(rows, U64_MAX, Some(m)), 3) == Failure(IndexOutOfBounds);
  }
}
