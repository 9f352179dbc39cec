/** The host pipeline that turns an object's event stream into the table the unwinder
    searches (main.rs, `show_unwind_info`): build the flat table, sort it by `pc` (a stable
    sort), collapse redundant end-of-function markers, then drop rows that repeat the rule
    before them. */
module Pipeline {
  import opened Machine
  import opened Results
  import opened Seqs
  import opened UnwindRow
  import opened Compactor
  import opened MarkerCollapse
  import opened RuleCollapse

  /** Why the pipeline stops: no function in the object, or the marker pass panics. */
  datatype PipelineError = NoFunction | MarkerPassPanic

  /** The table sorted by `pc`. */
  function SortedTable(events: seq<UnwindData>): (r: Result<seq<CompactUnwindRow>, PipelineError>)
    ensures r.Failure? <==> CountFunctions(events) == 0
    ensures r.Success? ==> SortedBy(r.value, PcOf)
    ensures r.Success? ==> |r.value| == |events|
  {
    match InMemoryUnwindInfo(events)
    case Failure(_) => Failure(NoFunction)
    case Success(rows) =>
      SortBySorted(rows, PcOf);
      Success(SortBy(rows, PcOf))
  }

  /** The pipeline with the marker pass replaced by its intended meaning. */
  function CompactTable(events: seq<UnwindData>): Result<seq<CompactUnwindRow>, PipelineError> {
    var sorted :- SortedTable(events);
    Success(RemoveRedundant(CollapseMarkers(sorted)))
  }

  /** The pipeline as written, with `remove_unnecesary_markers` as the source has it. */
  function CompactTableAsWritten(events: seq<UnwindData>): Result<seq<CompactUnwindRow>, PipelineError> {
    var sorted :- SortedTable(events);
    match RemoveUnnecessaryMarkers(sorted)
    case Failure(_) => Failure(MarkerPassPanic)
    case Success(collapsed) => Success(RemoveRedundant(collapsed))
  }

  lemma SortedIsAdjacentSorted(rows: seq<CompactUnwindRow>)
    requires SortedBy(rows, PcOf)
    ensures AdjacentSorted(rows)
  {
    forall i | 0 < i < |rows|
      ensures rows[i - 1].pc <= rows[i].pc
    {
      assert PcOf(rows[i - 1]) <= PcOf(rows[i]);
    }
  }

  /** The final table fails only for an object without functions; otherwise it is sorted by
      `pc`, no two adjacent rows carry the same rule, no marker shares its address with a
      neighbour, and every lookup answers as on the sorted table with redundant markers
      collapsed. */
  lemma CompactTableProperties(events: seq<UnwindData>, q: int)
    ensures CompactTable(events).Failure? <==> CountFunctions(events) == 0
    ensures CompactTable(events).Success? ==>
      var sorted := SortedTable(events).value;
      var table := CompactTable(events).value;
      SortedBy(table, PcOf)
      && (forall k :: 0 <= k < |table| - 1 ==> table[k].Rule() != table[k + 1].Rule())
      && MarkerClean(table)
      && LookupRule(table, q) == LookupRule(CollapseMarkers(sorted), q)
      && |table| <= |events|
  {
    if CompactTable(events).Success? {
      var sorted := SortedTable(events).value;
      var collapsed := CollapseMarkers(sorted);
      CollapsePreservesSorted(sorted);
      RemoveRedundantPreservesSorted(collapsed);
      NoAdjacentEqualRules(collapsed);
      SortedIsAdjacentSorted(collapsed);
      RemoveRedundantPreservesLookup(collapsed, q);
      CollapseIsMarkerClean(sorted);
      SelectKeepsMarkerClean(collapsed, RunMask(collapsed));
    }
  }

  /** Where no marker of the sorted table sits between two rows of its own address, the
      pipeline as written produces the intended table. */
  lemma AsWrittenAgreesOnCleanTables(events: seq<UnwindData>)
    requires |events| < TWO_64
    requires SortedTable(events).Success? ==> NoMarkerBetweenEqualPcs(SortedTable(events).value)
    ensures CompactTableAsWritten(events) == CompactTable(events)
  {
    if SortedTable(events).Success? {
      AsWrittenAgreesWhenNoMarkerBetweenEqualPcs(SortedTable(events).value);
    }
  }
}
