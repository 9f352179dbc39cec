/** The compact unwind row the host builds and the in-kernel unwinder reads, its tag values,
    the end-of-function marker, and the event stream the CFI extractor hands the compactor. */
module UnwindRow {
  import opened Machine
  import opened Results

  // `CfaType` (the `cfa_type` byte); 0 is left unused.
  const CFA_FRAME_POINTER_OFFSET: uint8 := 1
  const CFA_STACK_POINTER_OFFSET: uint8 := 2
  const CFA_EXPRESSION: uint8 := 3
  const CFA_END_FDE_MARKER: uint8 := 4
  const CFA_UNSUPPORTED_REGISTER_OFFSET: uint8 := 5
  const CFA_OFFSET_DID_NOT_FIT: uint8 := 6

  // `RbpType` (the `rbp_type` byte); 0 means the frame pointer is unchanged / unknown.
  const RBP_UNKNOWN: uint8 := 0
  const RBP_CFA_OFFSET: uint8 := 1
  const RBP_REGISTER: uint8 := 2
  const RBP_EXPRESSION: uint8 := 3
  const RBP_UNDEFINED_RETURN_ADDRESS: uint8 := 4

  // `PltType`, stored in `cfa_offset` when `cfa_type` is `CFA_EXPRESSION`.
  const PLT_UNKNOWN: uint16 := 0
  const PLT1: uint16 := 1
  const PLT2: uint16 := 2

  /** The four rule fields of a row, i.e. everything but its address. */
  datatype UnwindRule = UnwindRule(cfaType: uint8, rbpType: uint8, cfaOffset: uint16, rbpOffset: int16)

  /** `CompactUnwindRow` / `stack_unwind_row_t`: one table entry, sorted by `pc`. */
  datatype CompactUnwindRow = CompactUnwindRow(
    pc: uint64,
    cfaType: uint8,
    rbpType: uint8,
    cfaOffset: uint16,
    rbpOffset: int16)
  {
    function Rule(): UnwindRule {
      UnwindRule(cfaType, rbpType, cfaOffset, rbpOffset)
    }

    predicate IsMarker() {
      cfaType == CFA_END_FDE_MARKER
    }
  }

  /** The sort key of the table. */
  function PcOf(row: CompactUnwindRow): int {
    row.pc
  }

  /** The row placed at the first address past a function: marker tag, every other field zero. */
  function EndOfFunctionMarker(lastAddr: uint64): (m: CompactUnwindRow)
    ensures m.pc == lastAddr && m.IsMarker()
    ensures m.Rule() == UnwindRule(CFA_END_FDE_MARKER, RBP_UNKNOWN, 0, 0)
  {
    CompactUnwindRow(lastAddr, CFA_END_FDE_MARKER, 0, 0, 0)
  }

  /** `UnwindData`: what the extractor reports, one function boundary or one derived row. */
  datatype UnwindData = Function(start: uint64, end: uint64) | Instruction(row: CompactUnwindRow)

  /** One function as the extractor reports it: its `Function(start, end)` event followed by
      the rows of its unwind table. */
  datatype FunctionRows = FunctionRows(start: uint64, end: uint64, rows: seq<CompactUnwindRow>)

  function Instructions(rows: seq<CompactUnwindRow>): (events: seq<UnwindData>)
    ensures |events| == |rows|
    ensures forall i :: 0 <= i < |rows| ==> events[i] == Instruction(rows[i])
  {
    seq(|rows|, i requires 0 <= i < |rows| => Instruction(rows[i]))
  }

  /** The event stream of a sequence of functions, in order. */
  function EventsOf(functions: seq<FunctionRows>): seq<UnwindData>
    decreases |functions|
  {
    if |functions| == 0 then []
    else
      var f := functions[|functions| - 1];
      EventsOf(functions[..|functions| - 1]) + [Function(f.start, f.end)] + Instructions(f.rows)
  }

  /** The rule the consumer's policy ("closest row at or below `q`; among equal `pc` the later
      row") selects from a table, or `None` when no row is at or below `q`. */
  function LookupRule(rows: seq<CompactUnwindRow>, q: int): (r: Option<UnwindRule>)
    ensures r.Some? <==> exists i :: 0 <= i < |rows| && rows[i].pc <= q
    decreases |rows|
  {
    if |rows| == 0 then None
    else if rows[|rows| - 1].pc <= q then Some(rows[|rows| - 1].Rule())
    else
      var r := LookupRule(rows[..|rows| - 1], q);
      assert forall i :: 0 <= i < |rows| - 1 ==> rows[..|rows| - 1][i] == rows[i];
      r
  }

  /** Adjacent rows are in nondecreasing `pc` order. */
  ghost predicate AdjacentSorted(rows: seq<CompactUnwindRow>) {
    forall i :: 0 < i < |rows| ==> rows[i - 1].pc <= rows[i].pc
  }
}
