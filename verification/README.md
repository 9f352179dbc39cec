# Unwind-table compaction in lightswitch, modelled in Dafny

lightswitch is a sampling profiler. It unwinds user stacks inside the kernel from compact
DWARF unwind tables that the host builds ahead of time. This project models that table
builder and the pure parts of the in-kernel unwinder that read the tables, and proves
properties of the model.

The host side is covered in these steps:

- **Row derivation** (`RowDerivation`). One evaluated CFI row is turned into a fixed-size
  `CompactUnwindRow`. Its fields are the CFA tag and offset narrowed to `u16`, the frame-pointer
  tag and offset narrowed to `i16`, and the recognition of the two PLT-stub CFA expressions.
- **FDE ordering** (`Extractor`). The FDEs that parsed are sorted stably by initial address.
  They are then announced as a stream of `Function` and `Instruction` events.
- **Compaction** (`Compactor`). The event stream is folded into a flat row list. An
  end-of-function marker is placed when the next function starts, and once more at the end.
- **Redundancy passes** (`MarkerCollapse`, `RuleCollapse`). The first drops end-of-function
  markers that share an address with a neighbouring row. The second drops rows that repeat
  the rule of the row before them.
- **Pipeline** (`Pipeline`). This chains the steps in order: sort, marker pass, rule pass.
- **Address-range summariser** (`AddressRange`). This splits an inclusive interval into
  aligned power-of-two blocks for a longest-prefix-match map.
- **CPU-list parser** (`CpuRange`). This parses the `"0-1,3,7-9"` syntax of the kernel's
  online-CPU file.

The consumer side is covered in these steps:

- **Binary search** (`ShardSearch`). `find_offset_for_pc` is a bounded binary search that
  finds the row for a program counter.
- **Unwind step** (`UnwindStep`). This is the order of tag checks in one step and the
  computation of the caller's stack pointer, including the PLT arithmetic.
- **Bit helpers** (`Bits`). These are `remove_pac` and `in_kernel`.
- **PLT expression meaning** (`DwarfExpression`). A small DWARF expression evaluator gives the
  PLT expressions an independent meaning. The unwinder's hand-written arithmetic is checked
  against it.
- **Host to consumer** (`EndToEnd`). These lemmas connect the two sides: a derived row makes
  the unwind step compute the CFA its CFI rule describes.

Machine integers are unbounded in Dafny. The model writes out the source's widths explicitly:

- `u64` wrap-around is `Wrap64`;
- the `s16` read of a `u16` field is `AsS16`;
- `usize` underflow is a wrapped cursor.

Where the Rust source overflows, the model follows release-build wrapping semantics.

Files:

| file | contents |
|---|---|
| `machine.dfy` | integer widths, powers of two, alignment |
| `results.dfy` | `Option` and `Result` |
| `seqs.dfy` | `Select`, `SortedBy`, stable `SortBy` |
| `unwind_row.dfy` | row layout, tags, marker, events, lookup |
| `row_derivation.dfy` | row derivation |
| `extractor.dfy` | FDE ordering and events |
| `compactor.dfy` | compaction |
| `marker_collapse.dfy` | marker pass |
| `rule_collapse.dfy` | rule pass |
| `pipeline.dfy` | pipeline |
| `address_range.dfy` | address-range summariser |
| `cpu_range.dfy` | CPU-list parser |
| `shard_search.dfy` | binary search |
| `bits.dfy` | bit helpers |
| `unwind_step.dfy` | unwind step |
| `dwarf_expression.dfy` | PLT expression evaluator |
| `end_to_end.dfy` | host-to-consumer lemmas |

## Model

| member | source | states |
|---|---|---|
| UnwindRow.EndOfFunctionMarker | src/unwind_info.rs:94-100 | The marker sits at the given address, has CFA tag 4, and has every other field zero. |
| UnwindRow.LookupRule | src/bpf/profiler.bpf.c:100-133 | A rule is found for address `q` exactly when some row starts at or below `q`. |
| RowDerivation.DeriveRow | src/unwind_info.rs:365-430 | The derivation fails exactly when the frame-pointer offset does not fit `i16`. Register 6 gives tag 1, register 7 gives tag 2, and any other register gives tag 5. An offset outside `u16` gives tag 6 with offset 0. An expression gives tag 3, with offset 1 or 2 exactly for the two PLT byte strings and offset 0 for any other expression. The frame-pointer tag follows its rule: 1 for an offset rule, 2 for a register, 3 for an expression and 0 for any other rule. An undefined return address forces tag 4. The row keeps its start address and is never a marker. |
| RowDerivation.PltExpressionsDifferOnlyInThreshold | src/unwind_info.rs:50-78 | The two PLT byte strings are 11 bytes long. They agree everywhere except index 6, where one holds `lit11` and the other `lit10`. |
| Extractor.ResolvedFdes | src/unwind_info.rs:298-328 | The kept FDEs are exactly those that parsed, and there are no more of them than entries. |
| Extractor.ResolvedFdesFilter | src/unwind_info.rs:298-328 | The first pass is an in-order filter: a parsed entry contributes its FDE, an unparsed one nothing, and the contributions of consecutive stretches are concatenated, so order and multiplicity are kept. |
| Extractor.FunctionEnd | src/unwind_info.rs:356-359 | A function's end is its initial address plus its length, modulo 2^64. |
| Extractor.DeriveRows | src/unwind_info.rs:363-437 | Deriving an FDE's rows succeeds exactly when every row derives. On success, output row `i` is the derivation of input row `i`. |
| Extractor.DeriveFunctions | src/unwind_info.rs:345-437 | There is one group per FDE, in order. Each group carries its FDE's start, end and derived rows. It fails exactly when some FDE has a row that does not derive. |
| Extractor.FunctionEventsSorted | src/unwind_info.rs:337-359 | `Function` events come in nondecreasing start order. Their starts are the initial addresses of the parsed FDEs, with multiplicity. |
| Extractor.FunctionStartsOfProcess | src/unwind_info.rs:337-359 | The `Function` event starts are the parsed FDEs' initial addresses, in stably sorted order. |
| Extractor.EqualStartsKeepOrder | src/unwind_info.rs:337 | FDEs with the same initial address keep their `.eh_frame` order after the sort. |
| Extractor.SortKeepsAddresses | src/unwind_info.rs:337 | Sorting the FDEs permutes their initial addresses. |
| Seqs.SortBy | src/main.rs:52-56 | The stable sort returns a permutation of its input. |
| Seqs.SortBySorted | src/main.rs:52-56 | The sort's output is ordered by the key. |
| Seqs.SortByStable | src/main.rs:52-56 | Elements with equal keys keep their relative order. |
| Compactor.FeedAll | src/unwind_info.rs:511-545 | Each event adds one row, counting the pending marker. A marker is pending once some function was seen, and then it carries the end of the last function. |
| Compactor.ToVec | src/unwind_info.rs:192-255 | There is one row per event. Once a function was seen, the last row is a marker. |
| Compactor.InMemoryUnwindInfo | src/unwind_info.rs:507-568 | It is an error exactly when no `Function` event occurred. On success the length is #instructions + #functions, and the last row is a marker. |
| Compactor.InMemoryLayout | src/unwind_info.rs:507-568 | Rows before the first function come first and unchanged. Then each function's rows follow unchanged and in order, each group ending with a marker at that function's end. |
| Compactor.ToVecAgrees | src/unwind_info.rs:192-255 | `to_vec` and `in_memory_unwind_info` produce the same rows whenever a function was seen. Otherwise `to_vec` returns the instruction rows alone. |
| MarkerCollapse.CollapseKeepsNonMarkers | src/unwind_info.rs:447-478 | The marker pass drops only markers: every non-marker row survives, in order. |
| MarkerCollapse.CollapsePreservesSorted | src/unwind_info.rs:447-478 | On a pc-sorted table the marker pass keeps the table sorted. |
| MarkerCollapse.CollapseIsMarkerClean | src/unwind_info.rs:447-478 | On a sorted table, no surviving marker shares its address with a neighbouring row. |
| MarkerCollapse.CollapseIdempotent | src/unwind_info.rs:447-478 | On a sorted table, a second marker pass changes nothing. |
| MarkerCollapse.AsWrittenAgreesWhenNoMarkerBetweenEqualPcs | src/unwind_info.rs:447-478 | If no marker sits between two rows of its own address, the in-place pass with its `usize` cursor computes the intended result. |
| MarkerCollapse.AsWrittenLosesRow | src/unwind_info.rs:455-460 | On `[X@16, M@16, M@16]` the pass as written returns `[]` and loses the real row `X`. |
| MarkerCollapse.AsWrittenLosesRowWithoutAdjacentMarkers | src/unwind_info.rs:455-460 | On `[X@16, M@16, Y@16]`, which has no two adjacent markers, the pass as written loses `X`. |
| MarkerCollapse.AsWrittenCursorWraps | src/unwind_info.rs:455-477 | On three markers at one address the cursor wraps below zero. All three markers survive, where the intended pass removes them all. |
| MarkerCollapse.AsWrittenPanics | src/unwind_info.rs:455-470 | After the wrap, the next write to the vector is out of bounds. |
| RuleCollapse.RemoveRedundantInPlace | src/unwind_info.rs:481-505 | The write-cursor loop computes the reference result: the first row of each run of equal rules. |
| RuleCollapse.KeepsFirstRow | src/unwind_info.rs:481-505 | The first row is always kept. |
| RuleCollapse.RemoveRedundantPreservesSorted | src/unwind_info.rs:481-505 | The result is an in-order subsequence, so a pc-sorted table stays sorted. |
| RuleCollapse.NoAdjacentEqualRules | src/unwind_info.rs:488-493 | No two adjacent output rows agree on all four rule fields. |
| RuleCollapse.DroppedRowRepeatsRule | src/unwind_info.rs:488-493 | Every dropped row has the rule of the nearest kept row before it. |
| RuleCollapse.RemoveRedundantIdempotent | src/unwind_info.rs:481-505 | A second pass changes nothing. |
| MarkerCollapse.SelectKeepsMarkerClean | src/unwind_info.rs:481-505 | Dropping rows from a sorted table in which no marker shares its address with a neighbour keeps that property, so the redundant-row pass cannot bring a marker next to a row of its address. |
| RuleCollapse.RemoveRedundantPreservesLookup | src/unwind_info.rs:481-505 | On an address-sorted table, every address looks up the same rule before and after the pass. |
| Pipeline.SortedTable | src/main.rs:52-57 | The sorted table exists exactly when the object has a function. It is sorted by pc and has one row per event. |
| Pipeline.CompactTableProperties | src/main.rs:52-58 | The final table is sorted by pc, has no two adjacent equal rules, has no marker sharing its address with a neighbour and is no longer than the event stream. Every lookup answers as on the sorted, marker-collapsed table. It fails only when there is no function. |
| Pipeline.AsWrittenAgreesOnCleanTables | src/main.rs:52-58 | When no marker of the sorted table sits between two rows of its own address, the pipeline as written produces the intended table. |
| AddressRange.BlockBits | src/util.rs:25-28 | The block size chosen at `curr` is the largest power of two that `curr` is aligned to and that fits in `[curr, high]`. |
| AddressRange.BlockBitsIsSourceFormula | src/util.rs:25-28 | The greedy choice equals `min(trailing_zeros(curr), bit_length(high - curr + 1) - 1)`. |
| AddressRange.SummarizeTiles | src/util.rs:16-40 | The first block starts at `low` and each block starts where the previous one ends. The last block ends at `high + 1`, and every block is greedy. |
| AddressRange.SummarizeCoversRange | src/util.rs:16-40 | An address is in some block exactly when it lies in `[low, high]`, and the blocks are disjoint and ordered. |
| AddressRange.SummarizeBlocksAreMultiples | src/util.rs:24-33 | Every block's address is a multiple of its size. |
| AddressRange.SummarizeZeroToHundred | src/util.rs:96-118 | `[0, 100]` splits into `(0,58), (64,59), (96,62), (100,64)`. |
| AddressRange.RemainingAsWritten | src/util.rs:27 | The wrapped `high - curr + 1` is zero only for the whole 64-bit space. |
| AddressRange.NextAsWritten | src/util.rs:33-35 | The wrapped next start either moves forward or wraps to 0. |
| AddressRange.AsWrittenAgrees | src/util.rs:16-40 | Except on `[0, u64::MAX]`, the loop with wrapping arithmetic and the `curr - 1 == u64::MAX` exit returns the intended blocks. |
| AddressRange.AsWrittenOverlapsOnWholeSpace | src/util.rs:27-34 | On `[0, u64::MAX]` the loop as written starts with the blocks `(0,0)` and `(1,64)`, which overlap at address 1. The intended result is the single block `(0,0)`. |
| CpuRange.TrimEnd | src/util.rs:51-65 | Only a trailing run of whitespace is removed. The result is a prefix that does not end in whitespace. |
| CpuRange.SplitJoin | src/util.rs:48 | Splitting on `,` inverts joining pieces that contain no `,`. |
| CpuRange.JoinSplit | src/util.rs:48 | Joining the pieces of a split gives back the string. |
| CpuRange.ParseDecimal | src/util.rs:51-65 | A decimal numeral, with or without a leading `+`, parses to its value when it fits `u32`. Otherwise it fails. |
| CpuRange.Range | src/util.rs:66 | `start..end` lists `start, start+1, …, end-1`, and is empty when `start >= end`. |
| CpuRange.RangeMembers | src/util.rs:66 | A CPU is in `start..end` exactly when `start <= cpu < end`. |
| CpuRange.ReadCpuRangeConcatenates | src/util.rs:48-71 | Comma-separated pieces are parsed in order and their CPUs concatenated. The first failing piece's error is returned. |
| CpuRange.LoneCpuParses | src/util.rs:50-56 | A lone number with trailing whitespace yields that CPU. |
| CpuRange.RangeParses | src/util.rs:57-66 | `a-b` yields `a..=b`. With `b = u32::MAX` the wrapped `b + 1` gives an empty list. |
| CpuRange.LeadingWhitespaceRejected | src/util.rs:50-56 | Leading whitespace before a lone number is a parse error. |
| CpuRange.EmptyPiecesRejected | src/util.rs:50-56 | An empty input, or an empty piece after a comma, is a lone-CPU error. |
| CpuRange.OpenRangesRejected | src/util.rs:57-65 | A range missing its end or its start is an error naming the missing side. |
| CpuRange.OneCpuTestCase | src/util.rs:222-224 | `"0\n"` parses to `[0]`. |
| CpuRange.OneRangeTestCase | src/util.rs:227-230 | `"0-7\n"` parses to `0..=7`. |
| CpuRange.TwoRangesTestCase | src/util.rs:233-238 | `"0-7,16-23\n"` parses to `0..=7` followed by `16..=23`. |
| CpuRange.MixedPartsTestCase | src/util.rs:241-252 | `"0-1,3,7-9,48,49\n"` parses to the listed CPUs, in order. |
| ShardSearch.Midpoint | src/bpf/profiler.bpf.c:118 | The `u32` midpoint is the exact average whenever the sum fits. |
| ShardSearch.FindOffsetForPc | src/bpf/profiler.bpf.c:100-133 | Any row index returned names a row at or below `pc`, and lies in `[left, right)` whenever `right` fits a `u32`. An empty range returns the default, and zero iterations return the exhaustion sentinel. |
| ShardSearch.RightmostAtMostIsLookupRule | src/bpf/profiler.bpf.c:100-133 | The reference scan of a shard picks the same row as the lookup policy on the host table: the rightmost row at or below the address. |
| ShardSearch.FindOffsetForPcLoop | src/bpf/profiler.bpf.c:100-133 | The bounded loop computes the same result as the recursive search. |
| ShardSearch.FindOffsetForPcFindsRightmost | src/bpf/profiler.bpf.c:113-130 | On a range sorted by `pc_low` and narrower than `2^(depth-1)`, the search returns the largest index whose `pc_low` is at most `pc`, or the default when there is none. |
| ShardSearch.ExhaustedOnlyWhenWide | src/bpf/profiler.bpf.c:110-132 | The exhaustion sentinel is returned only when the range is at least `2^(depth-1)` wide. |
| ShardSearch.OneIterationIsNotEnoughForOneRow | src/bpf/profiler.bpf.c:110-132 | With one row, one iteration exhausts the search. Two iterations find the row. |
| Bits.RemovePac | src/bpf/profiler.bpf.c:223-239 | Removing the authentication code never increases an address. |
| Bits.RemovePacKeepsAddressBits | src/bpf/profiler.bpf.c:223-239 | On arm64 the result is below 2^48 and keeps the low 48 bits, and it differs from the input by a multiple of 2^48. On x86 it is the identity. On both it is idempotent. |
| Bits.InKernelIsUpperHalf | src/bpf/profiler.bpf.c:243 | An address counts as kernel exactly when it lies in the upper half of the 64-bit space, that is, when bit 63 is set. |
| UnwindStep.AsS16 | src/bpf/profiler.bpf.c:474 | The `s16` reading agrees with the stored `u16` modulo 2^16. It is nonnegative exactly when the stored value is below 2^15. |
| UnwindStep.SignedReadIsUnique | src/bpf/profiler.bpf.c:474 | Any `s16` value congruent to the stored `u16` modulo 2^16 is the value the unwinder reads, so the read is the two's-complement one. |
| UnwindStep.PltThreshold | src/bpf/profiler.bpf.c:530-536 | A threshold exists exactly for the PLT ids 1 and 2. |
| UnwindStep.PreviousRsp | src/bpf/profiler.bpf.c:518-549 | The CFA is computed exactly for tags 1 and 2 and for tag 3 with a PLT id. Every other case fails with one of the three bail-out errors. |
| UnwindStep.Dispatch | src/bpf/profiler.bpf.c:479-558 | The step reaches the bottom of the stack exactly on a marker or an undefined return address, unless the CFA offset did not fit. The frame is recorded exactly when neither tag is a bottom or a misfit. A register or expression frame-pointer rule bails out. A caller frame has a nonzero stack pointer and a supported CFA tag. |
| UnwindStep.CallerFrameByTag | src/bpf/profiler.bpf.c:518-558 | For a recorded frame the outcome is given per tag: `bp + off` for tag 1, `sp + off` for tag 2, and the PLT arithmetic for tag 3 with id 1 or 2, each modulo 2^64, with 0 refused. Unknown and out-of-range expression ids bail out. |
| UnwindStep.PltPreviousRspByInstructionOffset | src/bpf/profiler.bpf.c:542-543 | The PLT arithmetic adds 16 to `sp` when `ip mod 16` reaches the threshold, and adds 8 otherwise. |
| UnwindStep.MarkerEndsTheStack | src/bpf/profiler.bpf.c:484-489 | An end-of-function marker ends the stack, whatever the registers. |
| DwarfExpression.RecognisedExpressionsAreInstances | src/unwind_info.rs:50-78 | Both recognised byte strings are the same expression with threshold literal 11 or 10. |
| DwarfExpression.PltExpressionValue | src/unwind_info.rs:50-78 | Evaluated by the DWARF stack machine, the PLT expression with threshold `t` yields `rsp + 8`. It adds 8 more exactly when `rip & 15 >= t`, modulo 2^64. |
| EndToEnd.RegisterRowsFollowTheirRule | src/bpf/profiler.bpf.c:518-558 | For a derived register-plus-offset row with offset below 2^15, the step computes exactly the CFA the CFI rule describes. |
| EndToEnd.LargeOffsetsAreMisread | src/bpf/profiler.bpf.c:474 | For offsets in `[2^15, 2^16)`, which the host stores, the step computes a CFA 2^16 below the one the rule describes. |
| EndToEnd.LargeCfaOffsetExample | src/bpf/profiler.bpf.c:474 | `rsp + 0x8000` with `rsp = 0x10000` is unwound to 0x8000 instead of 0x18000. |
| EndToEnd.UnsignedReadFollowsRule | src/unwind_info.rs:382-389 | Read as the `u16` the host stores, every accepted offset gives the CFA the rule describes. |
| EndToEnd.PltRowsFollowTheirExpression | src/bpf/profiler.bpf.c:523-543 | For a derived PLT row, the step's hand-written arithmetic equals the value the expression evaluates to. |
| EndToEnd.OtherExpressionsBail | src/bpf/profiler.bpf.c:523-528 | An unrecognised CFA expression makes the unwinder give up with the unsupported-expression error. |

## Left out

- Parsing `.eh_frame` with the object and DWARF libraries is not modelled. This covers CIE resolution and the evaluation of an FDE's CFI program into rows. These are foreign library calls, so the model takes abstract FDE entries and evaluated rows as input.
- The entries the model takes are those the `.eh_frame` iterator yields before its first error: `while let Ok(Some(entry))` (`src/unwind_info.rs:298`) treats an unreadable entry as the end of the section, so the FDEs after it are dropped without an error. `ResolvedFdes` keeps exactly the parsed FDEs among those entries only.
- A failure of `fde.rows(..)?` (`src/unwind_info.rs:362`), which fails the whole build, is not modelled: an FDE arrives with its rows already evaluated.
- The `continue` on an erroneous row iterator result is not modelled, because it depends on the library's iterator behaviour.
- For a register without a rule in a row, the library's answer is assumed to be `Undefined`.
- A failure of `fde_from_offset` after the sort is not modelled. The model re-derives exactly the FDEs that parsed in the first pass.
- Extractor.FunctionEnd: the model wraps `initial_address + len` modulo 2^64 as a release build does. A debug build panics instead.
- File open, mmap, reading the CPU file and `get_online_cpus` are not modelled. The parser takes the file contents as a string.
- The passes `src/main.rs` calls (lines 14 and 58-59) come from `lightswitch::profiler`, which is not part of this model, and take `&Vec` and return a new `Vec`. The model uses the in-place `&mut Vec` passes of `src/unwind_info.rs:446-505` instead, composed in the order `src/main.rs` calls them.
- Printing, logging, the CLI and the profiler run loop are not modelled.
- The longest-prefix-match trie integration test is not modelled, because it round-trips through a kernel map.
- BPF map plumbing is not modelled. This covers the map lookups, the page and bucket search, tail calls, `bpf_probe_read_*`, events, rate limits and stack hashing.
- Recording the instruction pointer into the stack is modelled only as the `RecordsFrame` predicate. The memory reads of the saved frame pointer and return address that follow the CFA computation are not modelled.
- The previous-page fallback and the `HIGH_PC`/`LOW_PC` split are not modelled, because they depend on header macros that are not part of this model.
- The C header constants are not part of this model. The `CFA_TYPE_*` and `RBP_TYPE_*` values are assumed equal to the Rust enums. `RBP_TYPE_OFFSET_DID_NOT_FIT`, which has no Rust counterpart, is taken to be 5.
- The `BINARY_SEARCH_*` sentinels are not given numeric values. They are cases of a result datatype, distinct from every row index.
- `MAX_BINARY_SEARCH_DEPTH` is a parameter.
- ShardSearch.FindOffsetForPcFindsRightmost: the convergence bound is stated as `right - left < 2^(depth-1)`, not `depth > ⌈log2(right - left)⌉`. The last iteration does not re-check `left >= right` before reporting exhaustion, so the sharper bound fails (`OneIterationIsNotEnoughForOneRow`).
- A failed map lookup inside the search loop is modelled: an index past the end of the shard returns the default sentinel. The lookup of the found row after the search (`src/bpf/profiler.bpf.c:466-469`) is not modelled, because the unwind step takes the row as input.
- The `i16::try_from(..).expect(..)` panic on the frame-pointer offset is modelled as a `DeriveError`.
- The DWARF expression evaluator covers only the opcodes of the two PLT expressions (`breg7`, `breg16`, `lit0`–`lit31`, `and`, `ge`, `shl`, `plus`), with a one-byte SLEB128 operand. It exists only to give those expressions a meaning. The host does not interpret expressions.
- The arm64 unwinding path (link-register handling) is not modelled; only `remove_pac` is.
- The ELF build-id and hashing wrapper (lightswitch-object) is not modelled, because it wraps foreign crates.
- The `PartialEq` impl on the row bindings is not modelled; datatype equality subsumes it.
- The Go test program is not modelled.

## Findings

| source | as written | input that shows it | evidently intended | confidence | as-written member | corrected member |
|---|---|---|---|---|---|---|
| src/unwind_info.rs:455-460 | When the previous input row is a marker at the current address, `new_i -= 1` un-writes the last written row, even if that marker was itself skipped. | `[X@16, M@16, M@16]` gives `[]`, losing `X`. `[X@16, M@16, Y@16]` gives `[Y]`. `[M@16, M@16, M@16, X@32]` underflows the cursor and writes out of bounds. | Drop exactly the markers that share their address with an adjacent row, and keep every other row in order. | not executed; high | MarkerCollapse.AsWrittenLosesRow | MarkerCollapse.CollapseKeepsNonMarkers |
| src/util.rs:27 | `high - curr + 1` overflows when the range is the whole 64-bit space. | `summarize_address_range(0, u64::MAX)` yields `(0,0)` then `(1,64)` with wrapping arithmetic, covering address 1 twice. A debug build panics instead. | A single block `(0,0)` covering the whole space. | not executed; high | AddressRange.AsWrittenOverlapsOnWholeSpace | AddressRange.SummarizeCoversRange |
| src/bpf/profiler.bpf.c:474 | `cfa_offset` is stored by the host as a `u16` (0..65535) but read as `s16`. | A CFA of `rsp + 0x8000` with `rsp = 0x10000` unwinds to 0x8000 instead of 0x18000. | Read the offset as the unsigned value stored, or reject offsets from 2^15 on when deriving rows. | not executed; medium (the C struct declaration is in a header that is not part of this model) | EndToEnd.LargeCfaOffsetExample | EndToEnd.UnsignedReadFollowsRule |
