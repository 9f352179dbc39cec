/** A reference evaluator for the DWARF expression opcodes that occur in the two recognised
    PLT-stub CFA expressions (section 2.5.1 of DWARF 5): register-relative pushes, literals,
    `and`, `ge`, `shl` and `plus`, on a stack of 64-bit values. Any other opcode, a multi-byte
    operand or a stack underflow makes the evaluation fail. It stands as the independent meaning
    of the PLT expressions against which the unwinder's hand-written arithmetic is checked. */
module DwarfExpression {
  import opened Machine
  import opened Results
  import opened Bits
  import opened RowDerivation

  const DW_OP_LIT31: uint8 := 0x4f

  /** The value of a one-byte SLEB128 operand; a byte with the continuation bit is not one. */
  function Sleb128Byte(b: uint8): (r: Option<int>)
    ensures r.Some? <==> b < 0x80
    ensures r.Some? ==> -0x40 <= r.value < 0x40 && (r.value - b) % 0x80 == 0
  {
    if b >= 0x80 then None else if b < 0x40 then Some(b) else Some(b - 0x80)
  }

  /** Two's-complement reading of a stack value, used by the signed comparisons. */
  function AsI64(x: uint64): (r: int64)
    ensures (r - x) % TWO_64 == 0
  {
    if x < TWO_64 / 2 then x else x - TWO_64
  }

  /** The binary operations: `a` is the second entry of the stack and `b` the top. */
  function Binary(op: uint8, a: uint64, b: uint64): Option<uint64> {
    if op == DW_OP_AND then Some(BitAnd(a, b))
    else if op == DW_OP_GE then Some(if AsI64(a) >= AsI64(b) then 1 else 0)
    else if op == DW_OP_SHL then (if b < 64 then Some(Wrap64(a * Pow2(b))) else None)
    else if op == DW_OP_PLUS then Some(Wrap64(a + b))
    else None
  }

  /** Runs `e` from byte `pos` with the given stack; `rsp` and `rip` are DWARF registers 7 and
      16. The result is the top of the stack once the bytes run out. */
  function Run(e: seq<uint8>, pos: nat, rsp: uint64, rip: uint64, stack: seq<uint64>): Option<uint64>
    decreases |e| - pos
  {
    if pos >= |e| then
      if |stack| > 0 then Some(stack[|stack| - 1]) else None
    else
      var op := e[pos];
      if op == DW_OP_BREG7 || op == DW_OP_BREG16 then
        if pos + 1 >= |e| then None
        else
          match Sleb128Byte(e[pos + 1])
          case None => None
          case Some(offset) =>
            var base := if op == DW_OP_BREG7 then rsp else rip;
            Run(e, pos + 2, rsp, rip, stack + [Wrap64(base + offset)])
      else if DW_OP_LIT0 <= op <= DW_OP_LIT31 then
        Run(e, pos + 1, rsp, rip, stack + [op - DW_OP_LIT0])
      else if |stack| < 2 then None
      else
        match Binary(op, stack[|stack| - 2], stack[|stack| - 1])
        case None => None
        case Some(v) => Run(e, pos + 1, rsp, rip, stack[..|stack| - 2] + [v])
  }

  function Evaluate(e: seq<uint8>, rsp: uint64, rip: uint64): Option<uint64> {
    Run(e, 0, rsp, rip, [])
  }

  /** The PLT-stub expression shape with threshold literal `t`. */
  function PltExpression(t: nat): seq<uint8>
    requires t <= 31
  {
    [DW_OP_BREG7, 8, DW_OP_BREG16, 0, DW_OP_LIT15, DW_OP_AND,
     DW_OP_LIT0 + t, DW_OP_GE, DW_OP_LIT3, DW_OP_SHL, DW_OP_PLUS]
  }

  /** Both recognised byte strings are instances of the shape, with thresholds 11 and 10. */
  lemma RecognisedExpressionsAreInstances()
    ensures PLT1_EXPRESSION == PltExpression(11)
    ensures PLT2_EXPRESSION == PltExpression(10)
  {
  }

  lemma WrapTwice(a: int, b: int)
    ensures Wrap64(Wrap64(a) + b) == Wrap64(a + b)
  {
    var q := a / TWO_64;
    assert a == q * TWO_64 + Wrap64(a);
    DivModUnique(a + b, TWO_64, q + (Wrap64(a) + b) / TWO_64, (Wrap64(a) + b) % TWO_64);
  }

  lemma RegisterStep(e: seq<uint8>, pos: nat, rsp: uint64, rip: uint64, stack: seq<uint64>, v: uint64)
    requires pos + 1 < |e| && e[pos + 1] < 0x40
    requires (e[pos] == DW_OP_BREG7 && v == Wrap64(rsp + e[pos + 1]))
          || (e[pos] == DW_OP_BREG16 && v == Wrap64(rip + e[pos + 1]))
    ensures Run(e, pos, rsp, rip, stack) == Run(e, pos + 2, rsp, rip, stack + [v])
  {
  }

  lemma LiteralStep(e: seq<uint8>, pos: nat, rsp: uint64, rip: uint64, stack: seq<uint64>, v: uint64)
    requires pos < |e| && DW_OP_LIT0 <= e[pos] <= DW_OP_LIT31 && v == e[pos] - DW_OP_LIT0
    ensures Run(e, pos, rsp, rip, stack) == Run(e, pos + 1, rsp, rip, stack + [v])
  {
  }

  lemma BinaryStep(e: seq<uint8>, pos: nat, rsp: uint64, rip: uint64, below: seq<uint64>, a: uint64, b: uint64, v: uint64)
    requires pos < |e| && e[pos] in {DW_OP_AND, DW_OP_GE, DW_OP_SHL, DW_OP_PLUS}
    requires Binary(e[pos], a, b) == Some(v)
    ensures Run(e, pos, rsp, rip, below + [a] + [b]) == Run(e, pos + 1, rsp, rip, below + [v])
  {
    var stack := below + [a] + [b];
    assert stack[..|stack| - 2] == below;
  }

  /** Evaluating the shape pushes `rsp + 8`, adds 8 more exactly when the low four bits of
      `rip` reach the threshold, and wraps like the 64-bit machine. */
  lemma PltExpressionValue(t: nat, rsp: uint64, rip: uint64)
    requires t <= 15
    ensures Evaluate(PltExpression(t), rsp, rip)
         == Some(Wrap64(rsp + 8 + (if BitAnd(rip, 15) >= t then 8 else 0)))
  {
    ShapeValue(PltExpression(t), t, rsp, rip);
  }

  /** `e` has the PLT-stub shape with threshold literal `t`. */
  predicate IsPltShape(e: seq<uint8>, t: nat) {
    t <= 15 && |e| == 11
    && e[0] == DW_OP_BREG7 && e[1] == 8 && e[2] == DW_OP_BREG16 && e[3] == 0
    && e[4] == DW_OP_LIT15 && e[5] == DW_OP_AND && e[6] == DW_OP_LIT0 + t
    && e[7] == DW_OP_GE && e[8] == DW_OP_LIT3 && e[9] == DW_OP_SHL && e[10] == DW_OP_PLUS
  }

  lemma ShapeValue(e: seq<uint8>, t: nat, rsp: uint64, rip: uint64)
    requires IsPltShape(e, t)
    ensures Evaluate(e, rsp, rip) == Some(Wrap64(rsp + 8 + (if BitAnd(rip, 15) >= t then 8 else 0)))
  {
    var x := Wrap64(rsp + 8);
    var s1 := [] + [x];
    ShapeMaskStep(e, t, rsp, rip, s1);
    ShapeTailSteps(e, t, rsp, rip, s1);
  }

  /** The first six bytes push `rsp + 8` and `rip & 15`. */
  lemma ShapeMaskStep(e: seq<uint8>, t: nat, rsp: uint64, rip: uint64, s1: seq<uint64>)
    requires IsPltShape(e, t) && s1 == [] + [Wrap64(rsp + 8)]
    ensures Evaluate(e, rsp, rip) == Run(e, 6, rsp, rip, s1 + [BitAnd(rip, 15)])
  {
    RegisterStep(e, 0, rsp, rip, [], Wrap64(rsp + 8));
    RegisterStep(e, 2, rsp, rip, s1, rip);
    LiteralStep(e, 4, rsp, rip, s1 + [rip], 15);
    BinaryStep(e, 5, rsp, rip, s1, rip, 15, BitAnd(rip, 15));
  }

  /** The remaining bytes compare with the threshold, scale by 8 and add. */
  lemma ShapeTailSteps(e: seq<uint8>, t: nat, rsp: uint64, rip: uint64, s1: seq<uint64>)
    requires IsPltShape(e, t) && s1 == [] + [Wrap64(rsp + 8)]
    ensures Run(e, 6, rsp, rip, s1 + [BitAnd(rip, 15)])
         == Some(Wrap64(rsp + 8 + (if BitAnd(rip, 15) >= t then 8 else 0)))
  {
    var low := BitAnd(rip, 15);
    var c: uint64 := if low >= t then 1 else 0;
    var x := Wrap64(rsp + 8);
    var top := Wrap64(x + 8 * c);
    LiteralStep(e, 6, rsp, rip, s1 + [low], t);
    BinaryStep(e, 7, rsp, rip, s1, low, t, c);
    LiteralStep(e, 8, rsp, rip, s1 + [c], 3);
    assert Pow2(3) == 8;
    BinaryStep(e, 9, rsp, rip, s1, c, 3, 8 * c);
    BinaryStep(e, 10, rsp, rip, [], x, 8 * c, top);
    WrapTwice(rsp + 8, 8 * c);
  }
}
