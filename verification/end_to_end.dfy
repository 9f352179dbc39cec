/** What the unwinder makes of the rows the host derives: for the supported CFA rules the step
    computes the CFA the CFI row describes. The host stores `cfa_offset` as an unsigned 16-bit
    value while the unwinder reads it as signed, so offsets from 2^15 on come out 2^16 too low;
    `UnsignedStep` is the step with the field read as it is stored. */
module EndToEnd {
  import opened Machine
  import opened Results
  import opened UnwindRow
  import opened RowDerivation
  import opened Bits
  import opened DwarfExpression
  import opened UnwindStep

  /** The step with `cfa_offset` read as the unsigned value the host stores. */
  function UnsignedStep(row: CompactUnwindRow, regs: Registers): Step {
    Dispatch(row, regs, row.cfaOffset)
  }

  /** The frame-pointer rule of `row` is one the unwinder follows, and the row has a return
      address. */
  predicate FollowableFrame(row: CfiRow, returnAddressRegister: uint16) {
    !RuleFor(row, RBP_X86).Register? && !RuleFor(row, RBP_X86).Expression?
    && RuleFor(row, returnAddressRegister) != Undefined
  }

  /** The CFA a register-and-offset rule describes, in 64-bit arithmetic. */
  function RuleCfa(register: uint16, offset: int, regs: Registers): uint64 {
    Wrap64((if register == RBP_X86 then regs.bp else regs.sp) + offset)
  }

  function Outcome(cfa: uint64): Step {
    if cfa == 0 then Bail(PreviousRspZero) else CallerFrame(cfa)
  }

  /** A derived row whose CFA is `%rbp` or `%rsp` plus an offset below 2^15 makes the step
      compute exactly that CFA. */
  lemma RegisterRowsFollowTheirRule(row: CfiRow, ra: uint16, regs: Registers)
    requires DeriveRow(row, ra).Success? && FollowableFrame(row, ra)
    requires row.cfa.RegisterAndOffset? && row.cfa.register in {RBP_X86, RSP_X86}
    requires 0 <= row.cfa.offset < 0x8000
    ensures SignedStep(DeriveRow(row, ra).value, regs)
         == Outcome(RuleCfa(row.cfa.register, row.cfa.offset, regs))
  {
    var derived := DeriveRow(row, ra).value;
    CallerFrameByTag(derived, regs, AsS16(derived.cfaOffset));
  }

  /** Offsets from 2^15 on, which the host stores, come out 2^16 below the CFA the rule
      describes. */
  lemma LargeOffsetsAreMisread(row: CfiRow, ra: uint16, regs: Registers)
    requires DeriveRow(row, ra).Success? && FollowableFrame(row, ra)
    requires row.cfa.RegisterAndOffset? && row.cfa.register in {RBP_X86, RSP_X86}
    requires 0x8000 <= row.cfa.offset < TWO_16
    ensures SignedStep(DeriveRow(row, ra).value, regs)
         == Outcome(RuleCfa(row.cfa.register, row.cfa.offset - TWO_16, regs))
    ensures RuleCfa(row.cfa.register, row.cfa.offset - TWO_16, regs) != RuleCfa(row.cfa.register, row.cfa.offset, regs)
  {
    var derived := DeriveRow(row, ra).value;
    CallerFrameByTag(derived, regs, AsS16(derived.cfaOffset));
  }

  /** A concrete frame: a CFA of `%rsp + 0x8000` with `%rsp = 0x10000` is taken to be 0x8000
      rather than 0x18000. */
  lemma LargeCfaOffsetExample()
    ensures var row := CfiRow(0x1000, RegisterAndOffset(RSP_X86, 0x8000), map[16 := Offset(-8)]);
            var regs := Registers(0x1000, 0x10000, 0);
            DeriveRow(row, 16) == Success(CompactUnwindRow(0x1000, CFA_STACK_POINTER_OFFSET, RBP_UNKNOWN, 0x8000, 0))
            && SignedStep(DeriveRow(row, 16).value, regs) == CallerFrame(0x8000)
            && RuleCfa(RSP_X86, 0x8000, regs) == 0x18000
  {
    var row := CfiRow(0x1000, RegisterAndOffset(RSP_X86, 0x8000), map[16 := Offset(-8)]);
    assert RuleFor(row, RBP_X86) == Undefined;
    assert RuleFor(row, 16) == Offset(-8);
  }

  /** Read as stored, every offset the host accepts gives the CFA the rule describes. */
  lemma UnsignedReadFollowsRule(row: CfiRow, ra: uint16, regs: Registers)
    requires DeriveRow(row, ra).Success? && FollowableFrame(row, ra)
    requires row.cfa.RegisterAndOffset? && row.cfa.register in {RBP_X86, RSP_X86}
    requires FitsU16(row.cfa.offset)
    ensures UnsignedStep(DeriveRow(row, ra).value, regs)
         == Outcome(RuleCfa(row.cfa.register, row.cfa.offset, regs))
  {
    var derived := DeriveRow(row, ra).value;
    CallerFrameByTag(derived, regs, derived.cfaOffset);
  }

  /** A derived row for a recognised PLT expression makes the step compute the value the
      expression evaluates to. */
  lemma PltRowsFollowTheirExpression(row: CfiRow, ra: uint16, regs: Registers)
    requires DeriveRow(row, ra).Success? && FollowableFrame(row, ra)
    requires row.cfa.CfaExpression? && row.cfa.bytes in {PLT1_EXPRESSION, PLT2_EXPRESSION}
    ensures Evaluate(row.cfa.bytes, regs.sp, regs.ip).Some?
    ensures SignedStep(DeriveRow(row, ra).value, regs)
         == Outcome(Evaluate(row.cfa.bytes, regs.sp, regs.ip).value)
    ensures UnsignedStep(DeriveRow(row, ra).value, regs) == SignedStep(DeriveRow(row, ra).value, regs)
  {
    var derived := DeriveRow(row, ra).value;
    RecognisedExpressionsAreInstances();
    var t := if row.cfa.bytes == PLT1_EXPRESSION then 11 else 10;
    PltExpressionsDifferOnlyInThreshold();
    PltExpressionValue(t, regs.sp, regs.ip);
    CallerFrameByTag(derived, regs, AsS16(derived.cfaOffset));
    CallerFrameByTag(derived, regs, derived.cfaOffset);
  }

  /** Expressions that are not recognised make the unwinder give up on the stack. */
  lemma OtherExpressionsBail(row: CfiRow, ra: uint16, regs: Registers)
    requires DeriveRow(row, ra).Success? && FollowableFrame(row, ra)
    requires row.cfa.CfaExpression? && row.cfa.bytes !in {PLT1_EXPRESSION, PLT2_EXPRESSION}
    ensures SignedStep(DeriveRow(row, ra).value, regs) == Bail(UnsupportedExpression)
  {
    var derived := DeriveRow(row, ra).value;
    CallerFrameByTag(derived, regs, AsS16(derived.cfaOffset));
  }
}
