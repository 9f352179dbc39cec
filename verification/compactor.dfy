/** The callback that folds the extractor's event stream into a flat row list
    (`UnwindInfoBuilder::to_vec` and `in_memory_unwind_info`): rows are copied, and every
    function's end is marked by an end-of-function marker, emitted when the next function starts
    or, for the last function, after the stream ends. */
module Compactor {
  import opened Machine
  import opened Results
  import opened UnwindRow

  /** The callback's captured state: the rows so far and the end of the latest function. */
  datatype CompactorState = CompactorState(rows: seq<CompactUnwindRow>, lastFunctionEnd: Option<uint64>)

  /** `in_memory_unwind_info` gives up when the stream announced no function. */
  datatype CompactError = NoFunctionSeen

  /** One callback invocation. */
  function Feed(st: CompactorState, event: UnwindData): CompactorState {
    match event
    case Function(_, end) =>
      var rows := if st.lastFunctionEnd.Some? then st.rows + [EndOfFunctionMarker(st.lastFunctionEnd.value)] else st.rows;
      CompactorState(rows, Some(end))
    case Instruction(row) =>
      CompactorState(st.rows + [row], st.lastFunctionEnd)
  }

  function CountFunctions(events: seq<UnwindData>): (n: nat)
    ensures n <= |events|
    decreases |events|
  {
    if |events| == 0 then 0
    else CountFunctions(events[..|events| - 1]) + (if events[|events| - 1].Function? then 1 else 0)
  }

  function CountInstructions(events: seq<UnwindData>): (n: nat)
    ensures n + CountFunctions(events) == |events|
    decreases |events|
  {
    if |events| == 0 then 0
    else CountInstructions(events[..|events| - 1]) + (if events[|events| - 1].Instruction? then 1 else 0)
  }

  /** The state after feeding `events` to the state `st`, in order. */
  function FeedAll(st: CompactorState, events: seq<UnwindData>): (r: CompactorState)
    ensures |r.rows| + (if r.lastFunctionEnd.Some? then 1 else 0)
         == |st.rows| + (if st.lastFunctionEnd.Some? then 1 else 0) + |events|
    ensures r.lastFunctionEnd.Some? <==> st.lastFunctionEnd.Some? || CountFunctions(events) > 0
    ensures |events| > 0 && events[|events| - 1].Function? ==> r.lastFunctionEnd == Some(events[|events| - 1].end)
    ensures CountFunctions(events) == 0 ==> r.lastFunctionEnd == st.lastFunctionEnd
    decreases |events|
  {
    if |events| == 0 then st
    else
      var n := |events| - 1;
      var mid := FeedAll(st, events[..n]);
      var r := Feed(mid, events[n]);
      r
  }

  function Start(): CompactorState {
    CompactorState([], None)
  }

  /** `to_vec`: the rows, plus a marker for the last function if there was one. */
  function ToVec(events: seq<UnwindData>): (rows: seq<CompactUnwindRow>)
    ensures |rows| == |events|
    ensures CountFunctions(events) > 0 ==> rows[|rows| - 1].IsMarker()
  {
    var st := FeedAll(Start(), events);
    if st.lastFunctionEnd.Some? then st.rows + [EndOfFunctionMarker(st.lastFunctionEnd.value)] else st.rows
  }

  /** `in_memory_unwind_info`: as `to_vec`, but a stream without a function is an error. */
  function InMemoryUnwindInfo(events: seq<UnwindData>): (r: Result<seq<CompactUnwindRow>, CompactError>)
    ensures r.Failure? <==> CountFunctions(events) == 0
    ensures r.Success? ==> |r.value| == CountInstructions(events) + CountFunctions(events)
    ensures r.Success? ==> r.value[|r.value| - 1].IsMarker()
  {
    var st := FeedAll(Start(), events);
    if st.lastFunctionEnd.None? then Failure(NoFunctionSeen)
    else Success(st.rows + [EndOfFunctionMarker(st.lastFunctionEnd.value)])
  }

  /** The reference layout of a table: each function's rows followed by a marker at its end. */
  function RowsWithMarkers(groups: seq<FunctionRows>): (rows: seq<CompactUnwindRow>)
    decreases |groups|
  {
    if |groups| == 0 then []
    else
      var g := groups[|groups| - 1];
      RowsWithMarkers(groups[..|groups| - 1]) + g.rows + [EndOfFunctionMarker(g.end)]
  }

  /** Every event stream is some leading rows followed by function groups. */
  function Leading(events: seq<UnwindData>): (pre: seq<CompactUnwindRow>)
    decreases |events|
  {
    if |events| == 0 then []
    else
      var n := |events| - 1;
      if CountFunctions(events[..n]) == 0 && events[n].Instruction? then Leading(events[..n]) + [events[n].row]
      else Leading(events[..n])
  }

  function Groups(events: seq<UnwindData>): (groups: seq<FunctionRows>)
    ensures |groups| == CountFunctions(events)
    decreases |events|
  {
    if |events| == 0 then []
    else
      var n := |events| - 1;
      var front := Groups(events[..n]);
      match events[n]
      case Function(start, end) => front + [FunctionRows(start, end, [])]
      case Instruction(row) =>
        if |front| == 0 then front
        else
          var g := front[|front| - 1];
          front[..|front| - 1] + [FunctionRows(g.start, g.end, g.rows + [row])]
  }

  lemma InstructionsSnoc(rows: seq<CompactUnwindRow>, row: CompactUnwindRow)
    ensures Instructions(rows + [row]) == Instructions(rows) + [Instruction(row)]
  {
  }

  lemma EventsOfSnoc(groups: seq<FunctionRows>, g: FunctionRows)
    ensures EventsOf(groups + [g]) == EventsOf(groups) + [Function(g.start, g.end)] + Instructions(g.rows)
  {
    assert (groups + [g])[..|groups|] == groups;
  }

  /** The decomposition is faithful: it rebuilds the stream. */
  lemma {:induction false} Decompose(events: seq<UnwindData>)
    ensures events == Instructions(Leading(events)) + EventsOf(Groups(events))
    decreases |events|
  {
    if |events| > 0 {
      var n := |events| - 1;
      Decompose(events[..n]);
      assert events == events[..n] + [events[n]];
      if events[n].Function? {
        DecomposeFunction(events[..n], events[n]);
      } else {
        DecomposeInstruction(events[..n], events[n]);
      }
    }
  }

  lemma DecomposeFunction(front: seq<UnwindData>, e: UnwindData)
    requires e.Function?
    ensures Instructions(Leading(front + [e])) + EventsOf(Groups(front + [e]))
         == Instructions(Leading(front)) + EventsOf(Groups(front)) + [e]
  {
    var events := front + [e];
    assert events[..|front|] == front;
    var g := FunctionRows(e.start, e.end, []);
    assert Leading(events) == Leading(front);
    assert Groups(events) == Groups(front) + [g];
    EventsOfSnoc(Groups(front), g);
    assert Instructions([]) == [];
  }

  lemma DecomposeInstruction(front: seq<UnwindData>, e: UnwindData)
    requires e.Instruction?
    ensures Instructions(Leading(front + [e])) + EventsOf(Groups(front + [e]))
         == Instructions(Leading(front)) + EventsOf(Groups(front)) + [e]
  {
    if |Groups(front)| == 0 {
      DecomposeLeadingInstruction(front, e);
    } else {
      DecomposeGroupInstruction(front, e);
    }
  }

  lemma DecomposeLeadingInstruction(front: seq<UnwindData>, e: UnwindData)
    requires e.Instruction? && |Groups(front)| == 0
    ensures Instructions(Leading(front + [e])) + EventsOf(Groups(front + [e]))
         == Instructions(Leading(front)) + EventsOf(Groups(front)) + [e]
  {
    var events := front + [e];
    assert events[..|front|] == front;
    assert Leading(events) == Leading(front) + [e.row];
    assert Groups(events) == [];
    InstructionsSnoc(Leading(front), e.row);
  }

  lemma DecomposeGroupInstruction(front: seq<UnwindData>, e: UnwindData)
    requires e.Instruction? && |Groups(front)| > 0
    ensures Instructions(Leading(front + [e])) + EventsOf(Groups(front + [e]))
         == Instructions(Leading(front)) + EventsOf(Groups(front)) + [e]
  {
    var events := front + [e];
    assert events[..|front|] == front;
    var gs := Groups(front);
    var g := gs[|gs| - 1];
    var rest := gs[..|gs| - 1];
    var g' := FunctionRows(g.start, g.end, g.rows + [e.row]);
    assert gs == rest + [g];
    assert Leading(events) == Leading(front);
    assert Groups(events) == rest + [g'];
    EventsOfSnoc(rest, g);
    EventsOfSnoc(rest, g');
    InstructionsSnoc(g.rows, e.row);
  }

  lemma {:induction false} FeedAllAppend(st: CompactorState, a: seq<UnwindData>, b: seq<UnwindData>)
    ensures FeedAll(st, a + b) == FeedAll(FeedAll(st, a), b)
    decreases |b|
  {
    if |b| == 0 {
      assert a + b == a;
    } else {
      var n := |b| - 1;
      assert (a + b)[..|a| + n] == a + b[..n];
      FeedAllAppend(st, a, b[..n]);
    }
  }

  /** Rows are copied unchanged and in order. */
  lemma {:induction false} FeedInstructions(st: CompactorState, rows: seq<CompactUnwindRow>)
    ensures FeedAll(st, Instructions(rows)) == CompactorState(st.rows + rows, st.lastFunctionEnd)
    decreases |rows|
  {
    if |rows| > 0 {
      var n := |rows| - 1;
      assert Instructions(rows)[..n] == Instructions(rows[..n]);
      FeedInstructions(st, rows[..n]);
      assert rows == rows[..n] + [rows[n]];
    }
  }

  /** One function's events: the marker for the previous function, if any, then its rows. */
  lemma FeedGroup(st: CompactorState, g: FunctionRows)
    ensures FeedAll(st, [Function(g.start, g.end)] + Instructions(g.rows))
         == CompactorState(
              (if st.lastFunctionEnd.Some? then st.rows + [EndOfFunctionMarker(st.lastFunctionEnd.value)] else st.rows)
                + g.rows,
              Some(g.end))
  {
    var fn := [Function(g.start, g.end)];
    FeedAllAppend(st, fn, Instructions(g.rows));
    assert fn[..0] == [];
    assert FeedAll(st, fn) == Feed(st, fn[0]);
    FeedInstructions(Feed(st, fn[0]), g.rows);
  }

  /** The state once `groups` have been fed after the leading rows `pre`: every finished group
      with its marker, then the last group's rows, with the last group's end remembered. */
  function Pending(pre: seq<CompactUnwindRow>, groups: seq<FunctionRows>): CompactorState {
    if |groups| == 0 then CompactorState(pre, None)
    else
      var g := groups[|groups| - 1];
      CompactorState(pre + RowsWithMarkers(groups[..|groups| - 1]) + g.rows, Some(g.end))
  }

  lemma PendingStep(pre: seq<CompactUnwindRow>, groups: seq<FunctionRows>, g: FunctionRows)
    ensures FeedAll(Pending(pre, groups), [Function(g.start, g.end)] + Instructions(g.rows))
         == Pending(pre, groups + [g])
  {
    var st := Pending(pre, groups);
    FeedGroup(st, g);
    assert (groups + [g])[..|groups|] == groups;
    if |groups| > 0 {
      var n := |groups| - 1;
      var h := groups[n];
      var done := RowsWithMarkers(groups[..n]);
      assert RowsWithMarkers(groups) == done + h.rows + [EndOfFunctionMarker(h.end)];
      assert pre + done + h.rows + [EndOfFunctionMarker(h.end)] + g.rows
          == pre + RowsWithMarkers(groups) + g.rows;
    }
  }

  lemma {:induction false} FeedGroups(pre: seq<CompactUnwindRow>, groups: seq<FunctionRows>)
    ensures FeedAll(CompactorState(pre, None), EventsOf(groups)) == Pending(pre, groups)
    decreases |groups|
  {
    if |groups| > 0 {
      var n := |groups| - 1;
      var g := groups[n];
      var tail := [Function(g.start, g.end)] + Instructions(g.rows);
      assert EventsOf(groups) == EventsOf(groups[..n]) + tail;
      FeedAllAppend(CompactorState(pre, None), EventsOf(groups[..n]), tail);
      FeedGroups(pre, groups[..n]);
      PendingStep(pre, groups[..n], g);
      assert groups[..n] + [g] == groups;
    }
  }

  /** Feeding a stream is feeding its groups after its leading rows. */
  lemma FeedDecomposed(events: seq<UnwindData>)
    ensures FeedAll(Start(), events) == FeedAll(CompactorState(Leading(events), None), EventsOf(Groups(events)))
  {
    var pre := Leading(events);
    Decompose(events);
    FeedAllAppend(Start(), Instructions(pre), EventsOf(Groups(events)));
    FeedInstructions(Start(), pre);
    assert Start().rows + pre == pre;
  }

  /** The final state of a stream with at least one function. */
  lemma FinalState(events: seq<UnwindData>)
    requires |Groups(events)| > 0
    ensures FeedAll(Start(), events).rows + [EndOfFunctionMarker(Groups(events)[|Groups(events)| - 1].end)]
         == Leading(events) + RowsWithMarkers(Groups(events))
    ensures FeedAll(Start(), events).lastFunctionEnd == Some(Groups(events)[|Groups(events)| - 1].end)
  {
    var groups := Groups(events);
    var pre := Leading(events);
    FeedDecomposed(events);
    FeedGroups(pre, groups);
    var n := |groups| - 1;
    var g := groups[n];
    var done := RowsWithMarkers(groups[..n]);
    assert FeedAll(Start(), events).rows == pre + done + g.rows;
    assert RowsWithMarkers(groups) == done + g.rows + [EndOfFunctionMarker(g.end)];
    AppendAssociates(pre, done, g.rows, [EndOfFunctionMarker(g.end)]);
  }

  lemma AppendAssociates(a: seq<CompactUnwindRow>, b: seq<CompactUnwindRow>, c: seq<CompactUnwindRow>, d: seq<CompactUnwindRow>)
    ensures (a + b + c) + d == a + (b + c + d)
  {
  }

  /** The compactor's output, characterised for every stream: the leading rows (those before
      the first function) followed by each function's rows and a marker at its end. */
  lemma InMemoryLayout(events: seq<UnwindData>)
    ensures InMemoryUnwindInfo(events)
         == if |Groups(events)| == 0 then Failure(NoFunctionSeen)
            else Success(Leading(events) + RowsWithMarkers(Groups(events)))
  {
    if |Groups(events)| > 0 {
      FinalState(events);
    }
  }

  /** `to_vec` and `in_memory_unwind_info` agree whenever a function was seen; otherwise
      `to_vec` returns the rows unchanged. */
  lemma ToVecAgrees(events: seq<UnwindData>)
    ensures InMemoryUnwindInfo(events).Success? ==> ToVec(events) == InMemoryUnwindInfo(events).value
    ensures InMemoryUnwindInfo(events).Failure? ==> ToVec(events) == Leading(events)
  {
    if |Groups(events)| == 0 {
      FeedDecomposed(events);
      assert EventsOf(Groups(events)) == [];
      assert FeedAll(Start(), events) == CompactorState(Leading(events), None);
    }
  }
}
