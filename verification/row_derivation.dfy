/** Derivation of one compact row from one evaluated CFI row (the body of the row loop in
    `UnwindInfoBuilder::process`). The CFI row is what the DWARF unwinder library yields after
    running an FDE's program; here it is an abstract value: the CFA rule and a register-rule
    map for the x86-64 register numbering. */
module RowDerivation {
  import opened Machine
  import opened Results
  import opened UnwindRow

  /** DWARF register numbers of `%rbp` and `%rsp` on x86-64. */
  const RBP_X86: uint16 := 6
  const RSP_X86: uint16 := 7

  // DWARF expression opcodes (DWARF 5, section 7.7.1).
  const DW_OP_CONST1U: uint8 := 0x08
  const DW_OP_AND: uint8 := 0x1a
  const DW_OP_PLUS: uint8 := 0x22
  const DW_OP_SHL: uint8 := 0x24
  const DW_OP_GE: uint8 := 0x2a
  const DW_OP_LIT0: uint8 := 0x30
  const DW_OP_LIT3: uint8 := 0x33
  const DW_OP_LIT10: uint8 := 0x3a
  const DW_OP_LIT11: uint8 := 0x3b
  const DW_OP_LIT15: uint8 := 0x3f
  const DW_OP_BREG7: uint8 := 0x77
  const DW_OP_BREG16: uint8 := 0x80

  /** The CFA expression of a PLT stub: `rsp + 8 + (((rip & 15) >= 11) << 3)`. The second and
      fourth bytes are the operands 8 and 0 of the two `breg` operations. */
  const PLT1_EXPRESSION: seq<uint8> := [
    DW_OP_BREG7, DW_OP_CONST1U, DW_OP_BREG16, 0, DW_OP_LIT15, DW_OP_AND,
    DW_OP_LIT11, DW_OP_GE, DW_OP_LIT3, DW_OP_SHL, DW_OP_PLUS]

  /** The second PLT idiom: the same expression with threshold 10. */
  const PLT2_EXPRESSION: seq<uint8> := [
    DW_OP_BREG7, DW_OP_CONST1U, DW_OP_BREG16, 0, DW_OP_LIT15, DW_OP_AND,
    DW_OP_LIT10, DW_OP_GE, DW_OP_LIT3, DW_OP_SHL, DW_OP_PLUS]

  /** Index of the `lit` opcode that carries the PLT threshold. */
  const PLT_THRESHOLD_INDEX: nat := 6

  /** How the canonical frame address is computed. */
  datatype CfaRule =
    | RegisterAndOffset(register: uint16, offset: int64)
    | CfaExpression(bytes: seq<uint8>)

  /** How a register of the caller is recovered. */
  datatype RegisterRule =
    | Undefined
    | SameValue
    | Offset(offset: int64)
    | ValOffset(offset: int64)
    | Register(register: uint16)
    | Expression
    | ValExpression
    | Architectural

  /** One row of an FDE's evaluated unwind table. */
  datatype CfiRow = CfiRow(startAddress: uint64, cfa: CfaRule, registers: map<uint16, RegisterRule>)

  /** The rule of `register` in `row`; a register without a rule is `Undefined`. */
  function RuleFor(row: CfiRow, register: uint16): RegisterRule {
    if register in row.registers then row.registers[register] else Undefined
  }

  /** `i16::try_from(offset).expect(..)` on the frame-pointer offset panics. */
  datatype DeriveError = RbpOffsetDoesNotFit

  /** The `cfa_type` and `cfa_offset` fields of a row. */
  function CfaFields(cfa: CfaRule): (f: (uint8, uint16))
  {
    match cfa
    case RegisterAndOffset(register, offset) =>
      var tag :=
        if register == RBP_X86 then CFA_FRAME_POINTER_OFFSET
        else if register == RSP_X86 then CFA_STACK_POINTER_OFFSET
        else CFA_UNSUPPORTED_REGISTER_OFFSET;
      if FitsU16(offset) then (tag, offset) else (CFA_OFFSET_DID_NOT_FIT, 0)
    case CfaExpression(bytes) =>
      var plt := if bytes == PLT1_EXPRESSION then PLT1
                 else if bytes == PLT2_EXPRESSION then PLT2
                 else PLT_UNKNOWN;
      (CFA_EXPRESSION, plt)
  }

  /** The `rbp_type` and `rbp_offset` fields the frame-pointer rule alone gives. */
  function RbpFields(rule: RegisterRule): Result<(uint8, int16), DeriveError>
  {
    match rule
    case Undefined => Success((RBP_UNKNOWN, 0))
    case Offset(offset) =>
      if FitsI16(offset) then Success((RBP_CFA_OFFSET, offset)) else Failure(RbpOffsetDoesNotFit)
    case Register(_) => Success((RBP_REGISTER, 0))
    case Expression => Success((RBP_EXPRESSION, 0))
    case _ => Success((RBP_UNKNOWN, 0))
  }

  /** The compact row for one CFI row of an FDE whose CIE names `returnAddressRegister`. */
  function DeriveRow(row: CfiRow, returnAddressRegister: uint16): (r: Result<CompactUnwindRow, DeriveError>)
    ensures r.Failure? <==> RuleFor(row, RBP_X86).Offset? && !FitsI16(RuleFor(row, RBP_X86).offset)
    ensures r.Success? ==> r.value.pc == row.startAddress && !r.value.IsMarker()
    ensures r.Success? ==>
      ((r.value.cfaType == CFA_OFFSET_DID_NOT_FIT)
       <==> (row.cfa.RegisterAndOffset? && !FitsU16(row.cfa.offset)))
    ensures r.Success? && row.cfa.RegisterAndOffset? && FitsU16(row.cfa.offset) ==>
      r.value.cfaOffset == row.cfa.offset
      && (r.value.cfaType == CFA_FRAME_POINTER_OFFSET <==> row.cfa.register == RBP_X86)
      && (r.value.cfaType == CFA_STACK_POINTER_OFFSET <==> row.cfa.register == RSP_X86)
      && r.value.cfaType in {CFA_FRAME_POINTER_OFFSET, CFA_STACK_POINTER_OFFSET, CFA_UNSUPPORTED_REGISTER_OFFSET}
    ensures r.Success? && r.value.cfaType == CFA_OFFSET_DID_NOT_FIT ==> r.value.cfaOffset == 0
    ensures r.Success? && row.cfa.CfaExpression? ==>
      r.value.cfaType == CFA_EXPRESSION
      && (r.value.cfaOffset == PLT1 <==> row.cfa.bytes == PLT1_EXPRESSION)
      && (r.value.cfaOffset == PLT2 <==> row.cfa.bytes == PLT2_EXPRESSION)
    ensures r.Success? && row.cfa.CfaExpression? && row.cfa.bytes !in {PLT1_EXPRESSION, PLT2_EXPRESSION} ==>
      r.value.cfaOffset == PLT_UNKNOWN
    ensures r.Success? ==>
      ((r.value.rbpType == RBP_UNDEFINED_RETURN_ADDRESS)
       <==> (RuleFor(row, returnAddressRegister) == Undefined))
    ensures r.Success? && RuleFor(row, returnAddressRegister) != Undefined ==>
      (r.value.rbpType == RBP_CFA_OFFSET <==> RuleFor(row, RBP_X86).Offset?)
      && (r.value.rbpType == RBP_REGISTER <==> RuleFor(row, RBP_X86).Register?)
      && (r.value.rbpType == RBP_EXPRESSION <==> RuleFor(row, RBP_X86).Expression?)
    ensures r.Success? && RuleFor(row, returnAddressRegister) != Undefined
            && !RuleFor(row, RBP_X86).Offset? && !RuleFor(row, RBP_X86).Register?
            && !RuleFor(row, RBP_X86).Expression? ==>
      r.value.rbpType == RBP_UNKNOWN
    ensures r.Success? && RuleFor(row, RBP_X86).Offset? ==> r.value.rbpOffset == RuleFor(row, RBP_X86).offset
    ensures r.Success? && !RuleFor(row, RBP_X86).Offset? ==> r.value.rbpOffset == 0
  {
    var (cfaType, cfaOffset) := CfaFields(row.cfa);
    var rbp :- RbpFields(RuleFor(row, RBP_X86));
    var rbpType := if RuleFor(row, returnAddressRegister) == Undefined then RBP_UNDEFINED_RETURN_ADDRESS else rbp.0;
    Success(CompactUnwindRow(row.startAddress, cfaType, rbpType, cfaOffset, rbp.1))
  }

  /** The two recognised PLT expressions differ only in the threshold literal. */
  lemma PltExpressionsDifferOnlyInThreshold()
    ensures |PLT1_EXPRESSION| == |PLT2_EXPRESSION| == 11
    ensures forall i :: 0 <= i < 11 && i != PLT_THRESHOLD_INDEX ==> PLT1_EXPRESSION[i] == PLT2_EXPRESSION[i]
    ensures PLT1_EXPRESSION[PLT_THRESHOLD_INDEX] == DW_OP_LIT0 + 11
    ensures PLT2_EXPRESSION[PLT_THRESHOLD_INDEX] == DW_OP_LIT0 + 10
    ensures PLT1_EXPRESSION != PLT2_EXPRESSION
  {
  }
}
