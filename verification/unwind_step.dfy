/** One step of the in-kernel DWARF unwinder once the row for the current instruction pointer
    is found (`dwarf_unwind` in profiler.bpf.c): the checks on the row's tags, in the order the
    unwinder makes them, and the computation of the caller's stack pointer (the CFA). The memory
    reads that follow (saved frame pointer and return address) are not part of this model. */
module UnwindStep {
  import opened Machine
  import opened Results
  import opened UnwindRow
  import opened Bits

  /** A frame-pointer tag the unwinder tests for but the host never writes: where the offset
      does not fit, the host aborts instead. */
  const RBP_OFFSET_DID_NOT_FIT: uint8 := 5

  /** The registers of the frame being unwound. */
  datatype Registers = Registers(ip: uint64, sp: uint64, bp: uint64)

  /** The error counters the unwinder bumps before giving up on a stack. */
  datatype StepError =
    | CfaOffsetDidNotFit
    | RbpOffsetDidNotFit
    | UnsupportedFramePointerAction
    | UnsupportedExpression
    | ShouldNeverHappen
    | UnsupportedCfaRegister
    | PreviousRspZero

  /** How a step ends: the stack is complete, the unwinder gives up, or the caller's stack
      pointer is known. */
  datatype Step = BottomOfStack | Bail(error: StepError) | CallerFrame(previousRsp: uint64)

  /** The two's-complement reading of a `u16` field as `s16`. */
  function AsS16(x: uint16): (r: int16)
    ensures (r - x) % TWO_16 == 0
    ensures r >= 0 <==> x < 0x8000
  {
    if x < 0x8000 then x else x - TWO_16
  }

  /** The `lit` threshold the unwinder attaches to a PLT expression id; 0 means none. */
  function PltThreshold(id: int): (t: uint64)
    ensures t != 0 <==> id == PLT1 || id == PLT2
  {
    if id == PLT1 then 11 else if id == PLT2 then 10 else 0
  }

  /** The caller's stack pointer inside a PLT stub: `sp + 8`, plus 8 once the low four bits
      of `ip` reach the threshold. */
  function PltPreviousRsp(regs: Registers, threshold: uint64): uint64 {
    Wrap64(regs.sp + 8 + (if BitAnd(regs.ip, 15) >= threshold then 8 else 0))
  }

  /** The row lets the unwinder go on and record the current instruction pointer (it is
      stored only while the stack is shorter than `MAX_STACK_DEPTH`): the row is neither the
      end-of-function marker nor an end of the stack nor a misfit. */
  predicate RecordsFrame(row: CompactUnwindRow) {
    row.cfaType != CFA_OFFSET_DID_NOT_FIT && row.cfaType != CFA_END_FDE_MARKER
    && row.rbpType != RBP_OFFSET_DID_NOT_FIT && row.rbpType != RBP_UNDEFINED_RETURN_ADDRESS
  }

  /** The caller's stack pointer by CFA tag, where `offset` is the value the unwinder reads
      from the row's `cfa_offset` field. */
  function PreviousRsp(row: CompactUnwindRow, regs: Registers, offset: int): (r: Result<uint64, StepError>)
    ensures r.Success? <==>
      row.cfaType in {CFA_FRAME_POINTER_OFFSET, CFA_STACK_POINTER_OFFSET}
      || (row.cfaType == CFA_EXPRESSION && (offset == PLT1 || offset == PLT2))
    ensures r.Failure? ==> r.error in {UnsupportedExpression, ShouldNeverHappen, UnsupportedCfaRegister}
  {
    if row.cfaType == CFA_FRAME_POINTER_OFFSET then Success(Wrap64(regs.bp + offset))
    else if row.cfaType == CFA_STACK_POINTER_OFFSET then Success(Wrap64(regs.sp + offset))
    else if row.cfaType == CFA_EXPRESSION then
      if offset == PLT_UNKNOWN then Failure(UnsupportedExpression)
      else if PltThreshold(offset) == 0 then Failure(ShouldNeverHappen)
      else Success(PltPreviousRsp(regs, PltThreshold(offset)))
    else Failure(UnsupportedCfaRegister)
  }

  /** The tag checks and CFA computation of one step, with `offset` the value read from the
      row's `cfa_offset` field. */
  function Dispatch(row: CompactUnwindRow, regs: Registers, offset: int): (r: Step)
    ensures r == BottomOfStack
        <==> row.cfaType != CFA_OFFSET_DID_NOT_FIT
             && (row.IsMarker() || (row.rbpType == RBP_UNDEFINED_RETURN_ADDRESS))
    ensures r.CallerFrame? ==>
      RecordsFrame(row) && r.previousRsp != 0
      && row.cfaType in {CFA_FRAME_POINTER_OFFSET, CFA_STACK_POINTER_OFFSET, CFA_EXPRESSION}
      && row.rbpType !in {RBP_REGISTER, RBP_EXPRESSION}
    ensures RecordsFrame(row) <==> r != BottomOfStack && r != Bail(CfaOffsetDidNotFit) && r != Bail(RbpOffsetDidNotFit)
    ensures RecordsFrame(row) && row.rbpType in {RBP_REGISTER, RBP_EXPRESSION} ==>
      r == Bail(UnsupportedFramePointerAction)
    ensures RecordsFrame(row) && row.rbpType !in {RBP_REGISTER, RBP_EXPRESSION}
            && row.cfaType !in {CFA_FRAME_POINTER_OFFSET, CFA_STACK_POINTER_OFFSET, CFA_EXPRESSION} ==>
      r == Bail(UnsupportedCfaRegister)
  {
    if row.cfaType == CFA_OFFSET_DID_NOT_FIT then Bail(CfaOffsetDidNotFit)
    else if row.cfaType == CFA_END_FDE_MARKER then BottomOfStack
    else if row.rbpType == RBP_OFFSET_DID_NOT_FIT then Bail(RbpOffsetDidNotFit)
    else if row.rbpType == RBP_UNDEFINED_RETURN_ADDRESS then BottomOfStack
    else if row.rbpType == RBP_REGISTER || row.rbpType == RBP_EXPRESSION then Bail(UnsupportedFramePointerAction)
    else
      match PreviousRsp(row, regs, offset)
      case Failure(e) => Bail(e)
      case Success(rsp) => if rsp == 0 then Bail(PreviousRspZero) else CallerFrame(rsp)
  }

  /** The step as the unwinder performs it: `cfa_offset` is read into an `s16`. */
  function SignedStep(row: CompactUnwindRow, regs: Registers): Step {
    Dispatch(row, regs, AsS16(row.cfaOffset))
  }

  /** The CFA the step computes for each CFA tag: base register plus offset, or the PLT
      arithmetic, wrapped to 64 bits; a zero result is refused. */
  lemma CallerFrameByTag(row: CompactUnwindRow, regs: Registers, offset: int)
    requires RecordsFrame(row) && row.rbpType !in {RBP_REGISTER, RBP_EXPRESSION}
    ensures row.cfaType == CFA_FRAME_POINTER_OFFSET ==>
      Dispatch(row, regs, offset)
        == (if Wrap64(regs.bp + offset) == 0 then Bail(PreviousRspZero) else CallerFrame(Wrap64(regs.bp + offset)))
    ensures row.cfaType == CFA_STACK_POINTER_OFFSET ==>
      Dispatch(row, regs, offset)
        == (if Wrap64(regs.sp + offset) == 0 then Bail(PreviousRspZero) else CallerFrame(Wrap64(regs.sp + offset)))
    ensures row.cfaType == CFA_EXPRESSION && offset == PLT_UNKNOWN ==>
      Dispatch(row, regs, offset) == Bail(UnsupportedExpression)
    ensures row.cfaType == CFA_EXPRESSION && offset != PLT1 && offset != PLT2 && offset != PLT_UNKNOWN ==>
      Dispatch(row, regs, offset) == Bail(ShouldNeverHappen)
    ensures row.cfaType == CFA_EXPRESSION && (offset == PLT1 || offset == PLT2) ==>
      var previous := PltPreviousRsp(regs, if offset == PLT1 then 11 else 10);
      Dispatch(row, regs, offset) == (if previous == 0 then Bail(PreviousRspZero) else CallerFrame(previous))
  {
  }

  /** The PLT arithmetic adds 8 or 16 to `sp`, the second exactly when `ip mod 16` reaches
      the threshold. */
  lemma PltPreviousRspByInstructionOffset(regs: Registers, threshold: uint64)
    ensures PltPreviousRsp(regs, threshold)
         == Wrap64(regs.sp + (if regs.ip % 16 >= threshold then 16 else 8))
  {
    LowBits(regs.ip, 4);
    assert Pow2(4) == 16;
  }

  /** An end-of-function marker ends the stack, whatever the registers. */
  lemma MarkerEndsTheStack(lastAddr: uint64, regs: Registers)
    ensures SignedStep(EndOfFunctionMarker(lastAddr), regs) == BottomOfStack
  {
  }

  /** The `s16` reading is the only `s16` value congruent to the stored `u16` modulo 2^16,
      so it is the two's-complement reading however it is computed. */
  lemma SignedReadIsUnique(x: uint16, y: int16)
    requires (y - x) % TWO_16 == 0
    ensures y == AsS16(x)
  {
    var r := AsS16(x);
    var d := y - r;
    assert d == (y - x) - (r - x);
    assert d % TWO_16 == 0 by {
      var a := (y - x) / TWO_16;
      var b := (r - x) / TWO_16;
      assert y - x == a * TWO_16;
      assert r - x == b * TWO_16;
      assert d == (a - b) * TWO_16;
    }
    assert -TWO_16 < d < TWO_16;
  }
}
