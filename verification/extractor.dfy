/** The emission loop of `UnwindInfoBuilder::process`: the FDEs that parsed are sorted by their
    initial address, and each one reports a `Function(start, end)` event followed by one
    `Instruction` event per row of its unwind table. Parsing `.eh_frame` and evaluating an FDE's
    CFI program are the DWARF library's business; an FDE arrives here with its rows evaluated. */
module Extractor {
  import opened Machine
  import opened Results
  import opened Seqs
  import opened UnwindRow
  import opened RowDerivation

  /** A parsed FDE: its address range, its CIE's return-address register, and its evaluated
      unwind table. */
  datatype Fde = Fde(initialAddress: uint64, length: uint64, returnAddressRegister: uint16, rows: seq<CfiRow>)

  /** One `.eh_frame` entry as the first pass sees it: an FDE that parsed, or one whose CIE
      could not be resolved (which the pass skips). The entries are those the section's
      iterator yields before its first error, which the pass takes as the end of the section. */
  datatype FdeEntry = Resolved(fde: Fde) | Unresolved

  function InitialAddressOf(fde: Fde): int {
    fde.initialAddress
  }

  /** The FDEs that parsed, in `.eh_frame` order. */
  function ResolvedFdes(entries: seq<FdeEntry>): (fdes: seq<Fde>)
    ensures |fdes| <= |entries|
    ensures forall f :: f in fdes <==> Resolved(f) in entries
    decreases |entries|
  {
    if |entries| == 0 then []
    else
      var n := |entries| - 1;
      var front := ResolvedFdes(entries[..n]);
      assert entries == entries[..n] + [entries[n]];
      front + (match entries[n] case Resolved(f) => [f] case Unresolved => [])
  }

  /** The first pass is an in-order filter: an entry contributes its FDE if it parsed and
      nothing otherwise, and the contributions of consecutive stretches of `.eh_frame` are
      concatenated in order (so order and multiplicity are kept). */
  lemma {:induction false} ResolvedFdesFilter(a: seq<FdeEntry>, b: seq<FdeEntry>, f: Fde)
    ensures ResolvedFdes([Resolved(f)]) == [f]
    ensures ResolvedFdes([Unresolved]) == []
    ensures ResolvedFdes(a + b) == ResolvedFdes(a) + ResolvedFdes(b)
    decreases |b|
  {
    assert [Resolved(f)][..0] == [];
    assert [Unresolved][..0] == [];
    if |b| == 0 {
      assert a + b == a;
    } else {
      var n := |b| - 1;
      ResolvedFdesFilter(a, b[..n], f);
      assert (a + b)[..|a + b| - 1] == a + b[..n];
      assert (a + b)[|a + b| - 1] == b[n];
    }
  }

  /** The end address reported for an FDE; `u64` addition wraps. */
  function FunctionEnd(fde: Fde): (e: uint64)
    ensures fde.initialAddress + fde.length < TWO_64 ==> e == fde.initialAddress + fde.length
    ensures fde.initialAddress + fde.length >= TWO_64 ==> e == fde.initialAddress + fde.length - TWO_64
  {
    Wrap64(fde.initialAddress + fde.length)
  }

  /** The compact rows of every CFI row of `fde`, in order; a frame-pointer offset that does
      not fit an `i16` aborts. */
  function DeriveRows(rows: seq<CfiRow>, returnAddressRegister: uint16): (r: Result<seq<CompactUnwindRow>, DeriveError>)
    ensures r.Success? <==> forall i :: 0 <= i < |rows| ==> DeriveRow(rows[i], returnAddressRegister).Success?
    ensures r.Success? ==> |r.value| == |rows|
    ensures r.Success? ==>
      forall i :: 0 <= i < |rows| ==> DeriveRow(rows[i], returnAddressRegister) == Success(r.value[i])
    decreases |rows|
  {
    if |rows| == 0 then Success([])
    else
      var n := |rows| - 1;
      assert forall i :: 0 <= i < n ==> rows[..n][i] == rows[i];
      var front :- DeriveRows(rows[..n], returnAddressRegister);
      var last :- DeriveRow(rows[n], returnAddressRegister);
      Success(front + [last])
  }

  /** The rows of every CFI row of `fde` derive. */
  predicate RowsDerive(fde: Fde) {
    DeriveRows(fde.rows, fde.returnAddressRegister).Success?
  }

  /** `g` is the group `process` reports for `fde`. */
  predicate GroupOf(fde: Fde, g: FunctionRows) {
    && g.start == fde.initialAddress
    && g.end == FunctionEnd(fde)
    && Success(g.rows) == DeriveRows(fde.rows, fde.returnAddressRegister)
  }

  /** One `FunctionRows` group per FDE, in the given order. */
  function DeriveFunctions(fdes: seq<Fde>): (r: Result<seq<FunctionRows>, DeriveError>)
    ensures r.Success? <==> forall i :: 0 <= i < |fdes| ==> RowsDerive(fdes[i])
    ensures r.Success? ==> |r.value| == |fdes|
    ensures r.Success? ==> forall i :: 0 <= i < |fdes| ==> GroupOf(fdes[i], r.value[i])
    decreases |fdes|
  {
    if |fdes| == 0 then Success([])
    else
      var n := |fdes| - 1;
      assert forall i :: 0 <= i < n ==> fdes[..n][i] == fdes[i];
      var front :- DeriveFunctions(fdes[..n]);
      var f := fdes[n];
      var rows :- DeriveRows(f.rows, f.returnAddressRegister);
      var groups := front + [FunctionRows(f.initialAddress, FunctionEnd(f), rows)];
      assert forall i :: 0 <= i < n ==> groups[i] == front[i];
      assert GroupOf(f, groups[n]);
      Success(groups)
  }

  /** The groups `process` reports: resolved FDEs sorted (stably) by initial address. */
  function ProcessGroups(entries: seq<FdeEntry>): Result<seq<FunctionRows>, DeriveError> {
    DeriveFunctions(SortBy(ResolvedFdes(entries), InitialAddressOf))
  }

  /** The event stream `process` hands its callback. */
  function Process(entries: seq<FdeEntry>): Result<seq<UnwindData>, DeriveError> {
    var groups :- ProcessGroups(entries);
    Success(EventsOf(groups))
  }

  /** The start addresses of the `Function` events of a stream, in order. */
  function FunctionStarts(events: seq<UnwindData>): (starts: seq<int>)
    ensures |starts| <= |events|
    decreases |events|
  {
    if |events| == 0 then []
    else
      var n := |events| - 1;
      FunctionStarts(events[..n]) + (if events[n].Function? then [events[n].start] else [])
  }

  lemma {:induction false} FunctionStartsAppend(a: seq<UnwindData>, b: seq<UnwindData>)
    ensures FunctionStarts(a + b) == FunctionStarts(a) + FunctionStarts(b)
    decreases |b|
  {
    if |b| == 0 {
      assert a + b == a;
    } else {
      var n := |b| - 1;
      assert (a + b)[..|a| + n] == a + b[..n];
      FunctionStartsAppend(a, b[..n]);
    }
  }

  lemma {:induction false} FunctionStartsOfInstructions(rows: seq<CompactUnwindRow>)
    ensures FunctionStarts(Instructions(rows)) == []
    decreases |rows|
  {
    if |rows| > 0 {
      var n := |rows| - 1;
      assert Instructions(rows)[..n] == Instructions(rows[..n]);
      FunctionStartsOfInstructions(rows[..n]);
    }
  }

  function GroupStarts(groups: seq<FunctionRows>): (starts: seq<int>)
    ensures |starts| == |groups|
    ensures forall i :: 0 <= i < |groups| ==> starts[i] == groups[i].start
  {
    seq(|groups|, i requires 0 <= i < |groups| => groups[i].start)
  }

  /** The event stream of a list of groups announces exactly the groups' starts, in order. */
  lemma {:induction false} FunctionStartsOfEvents(groups: seq<FunctionRows>)
    ensures FunctionStarts(EventsOf(groups)) == GroupStarts(groups)
    decreases |groups|
  {
    if |groups| > 0 {
      var n := |groups| - 1;
      var g := groups[n];
      FunctionStartsOfEvents(groups[..n]);
      FunctionStartsAppend(EventsOf(groups[..n]) + [Function(g.start, g.end)], Instructions(g.rows));
      FunctionStartsAppend(EventsOf(groups[..n]), [Function(g.start, g.end)]);
      FunctionStartsOfInstructions(g.rows);
      assert [Function(g.start, g.end)][..0] == [];
      assert GroupStarts(groups) == GroupStarts(groups[..n]) + [g.start];
    }
  }

  function InitialAddresses(fdes: seq<Fde>): (addrs: seq<int>)
    ensures |addrs| == |fdes|
    ensures forall i :: 0 <= i < |fdes| ==> addrs[i] == fdes[i].initialAddress
    decreases |fdes|
  {
    if |fdes| == 0 then [] else [fdes[0].initialAddress] + InitialAddresses(fdes[1..])
  }

  lemma InitialAddressesCons(x: Fde, s: seq<Fde>)
    ensures InitialAddresses([x] + s) == [x.initialAddress] + InitialAddresses(s)
  {
    assert ([x] + s)[1..] == s;
  }

  lemma InsertInFrontKeepsAddresses(x: Fde, s: seq<Fde>)
    requires Insert(x, s, InitialAddressOf) == [x] + s
    ensures multiset(InitialAddresses(Insert(x, s, InitialAddressOf)))
         == multiset(InitialAddresses(s)) + multiset{x.initialAddress}
  {
    InitialAddressesCons(x, s);
  }

  lemma ConsKeepsAddresses(a: Fde, rest: seq<Fde>, tail: seq<Fde>, x: Fde)
    requires multiset(InitialAddresses(tail)) == multiset(InitialAddresses(rest)) + multiset{x.initialAddress}
    ensures multiset(InitialAddresses([a] + tail)) == multiset(InitialAddresses([a] + rest)) + multiset{x.initialAddress}
  {
    InitialAddressesCons(a, tail);
    InitialAddressesCons(a, rest);
  }

  lemma {:induction false} InsertKeepsAddresses(x: Fde, s: seq<Fde>)
    ensures multiset(InitialAddresses(Insert(x, s, InitialAddressOf)))
         == multiset(InitialAddresses(s)) + multiset{x.initialAddress}
    decreases |s|
  {
    if |s| == 0 || InitialAddressOf(x) <= InitialAddressOf(s[0]) {
      assert Insert(x, s, InitialAddressOf) == [x] + s;
      InsertInFrontKeepsAddresses(x, s);
    } else {
      var tail := Insert(x, s[1..], InitialAddressOf);
      assert Insert(x, s, InitialAddressOf) == [s[0]] + tail;
      InsertKeepsAddresses(x, s[1..]);
      ConsKeepsAddresses(s[0], s[1..], tail, x);
      assert [s[0]] + s[1..] == s;
    }
  }

  /** Sorting permutes the initial addresses. */
  lemma {:induction false} SortKeepsAddresses(s: seq<Fde>)
    ensures multiset(InitialAddresses(SortBy(s, InitialAddressOf))) == multiset(InitialAddresses(s))
    decreases |s|
  {
    if |s| > 0 {
      SortKeepsAddresses(s[1..]);
      InsertKeepsAddresses(s[0], SortBy(s[1..], InitialAddressOf));
    }
  }

  /** The groups of a successful derivation start at the FDEs' initial addresses. */
  lemma GroupStartsAreInitialAddresses(fdes: seq<Fde>)
    requires DeriveFunctions(fdes).Success?
    ensures GroupStarts(DeriveFunctions(fdes).value) == InitialAddresses(fdes)
  {
    var groups := DeriveFunctions(fdes).value;
    assert forall i :: 0 <= i < |fdes| ==> GroupStarts(groups)[i] == InitialAddresses(fdes)[i];
  }

  /** The start addresses of the `Function` events `process` reports: the initial addresses of
      the FDEs that parsed, sorted. */
  lemma FunctionStartsOfProcess(entries: seq<FdeEntry>)
    requires Process(entries).Success?
    ensures FunctionStarts(Process(entries).value)
         == InitialAddresses(SortBy(ResolvedFdes(entries), InitialAddressOf))
  {
    var fdes := SortBy(ResolvedFdes(entries), InitialAddressOf);
    var groups := DeriveFunctions(fdes).value;
    assert Process(entries).value == EventsOf(groups);
    FunctionStartsOfEvents(groups);
    GroupStartsAreInitialAddresses(fdes);
  }

  /** The initial addresses of a sorted list of FDEs are in nondecreasing order. */
  lemma SortedAddresses(fdes: seq<Fde>)
    requires SortedBy(fdes, InitialAddressOf)
    ensures forall i, j :: 0 <= i < j < |fdes| ==> InitialAddresses(fdes)[i] <= InitialAddresses(fdes)[j]
  {
    forall i, j | 0 <= i < j < |fdes|
      ensures InitialAddresses(fdes)[i] <= InitialAddresses(fdes)[j]
    {
      assert InitialAddressOf(fdes[i]) <= InitialAddressOf(fdes[j]);
    }
  }

  /** `Function` events come in nondecreasing start order, and they announce exactly the initial
      addresses of the FDEs that parsed (with multiplicity). */
  lemma FunctionEventsSorted(entries: seq<FdeEntry>)
    requires Process(entries).Success?
    ensures forall i, j :: 0 <= i < j < |FunctionStarts(Process(entries).value)| ==>
      FunctionStarts(Process(entries).value)[i] <= FunctionStarts(Process(entries).value)[j]
    ensures multiset(FunctionStarts(Process(entries).value)) == multiset(InitialAddresses(ResolvedFdes(entries)))
  {
    var resolved := ResolvedFdes(entries);
    FunctionStartsOfProcess(entries);
    SortBySorted(resolved, InitialAddressOf);
    SortedAddresses(SortBy(resolved, InitialAddressOf));
    SortKeepsAddresses(resolved);
  }

  /** FDEs with the same initial address keep their `.eh_frame` order (the sort is stable). */
  lemma EqualStartsKeepOrder(entries: seq<FdeEntry>, pc: int)
    ensures WithKey(SortBy(ResolvedFdes(entries), InitialAddressOf), InitialAddressOf, pc)
         == WithKey(ResolvedFdes(entries), InitialAddressOf, pc)
  {
    SortByStable(ResolvedFdes(entries), InitialAddressOf, pc);
  }
}
