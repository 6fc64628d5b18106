/** The decoded ARM64 instruction record every scanner consumes, the shared
    target-address resolver, and the cut of a stream at its first return. */
module Arm64 {
  import opened Words

  /** The opcodes the scanners tell apart; every other one is `OtherMnemonic`. */
  datatype Mnemonic = B | BC | BR | BL | BLR | LDR | ADR | ADRP | OtherMnemonic

  /** Mnemonic categories. An instruction carries a set of them: the scanners
      test each one independently (`HasFlag`). */
  datatype Category = Return | Branch | ConditionalBranch | Move | OtherCategory

  /** Predication; `NONE` is an unconditional, unpredicated instruction. */
  datatype ConditionCode =
    | NONE | EQ | NE | CS | CC | MI | PL | VS | VC | HI | LS | GE | LT | GT | LE | AL | NV

  datatype OperandKind = NoOperand | Register | Immediate | ImmediatePcRelative | Memory

  /** Register identifiers; only X0, the first argument register, is tracked. */
  datatype RegisterId = X0 | OtherRegister

  /** One decoded instruction. Immediates and memory displacements are signed
      (`long`); resolved pc-relative values are unsigned (`ulong`). */
  datatype Instruction = Instruction(
    address: uint64,
    mnemonic: Mnemonic,
    categories: set<Category>,
    mnemonicCondition: ConditionCode,
    finalOpCondition: ConditionCode,
    op0Kind: OperandKind,
    op0Reg: RegisterId,
    op0Imm: int64,
    op0PcRelImm: uint64,
    op1Kind: OperandKind,
    op1Imm: int64,
    op1PcRelImm: uint64,
    memOffset: int64)

  /** The external decoder: from a start address and a length limit to the
      instructions it decodes there. */
  type Disassembler = (uint64, nat) -> seq<Instruction>

  predicate IsReturn(ins: Instruction) {
    Return in ins.categories
  }

  /** The absolute address operand 0 designates, or 0 when it designates none. */
  function ExtractTargetAddress(ins: Instruction): (r: uint64)
    ensures ins.op0Kind == Immediate ==> AsSigned(r) == ins.op0Imm
    ensures ins.op0Kind == ImmediatePcRelative ==>
              SameBits(r as int, ins.address as int + ins.op0Imm as int)
    ensures ins.op0Kind !in {Immediate, ImmediatePcRelative} ==> r == 0
  {
    match ins.op0Kind
    case Immediate => AsUnsigned(ins.op0Imm)
    case ImmediatePcRelative => WrapAdd(ins.address, ins.op0Imm)
    case _ => 0
  }

  /** Two pc-relative branches at the same address resolve to the same target
      exactly when their displacements are equal. */
  lemma PcRelativeTargetsDetermineDisplacement(a: Instruction, b: Instruction)
    requires a.op0Kind == ImmediatePcRelative && b.op0Kind == ImmediatePcRelative
    requires a.address == b.address
    ensures ExtractTargetAddress(a) == ExtractTargetAddress(b) <==> a.op0Imm == b.op0Imm
  {
    if ExtractTargetAddress(a) == ExtractTargetAddress(b) {
      WrapAddInjective(a.address, a.op0Imm, b.op0Imm);
    }
  }

  /** The index of the first Return-category instruction, or |s| if none. */
  function FirstReturn(s: seq<Instruction>): (n: nat)
    ensures n <= |s|
    ensures forall j :: 0 <= j < n ==> !IsReturn(s[j])
    ensures n < |s| ==> IsReturn(s[n])
  {
    if |s| == 0 then 0
    else if IsReturn(s[0]) then 0
    else 1 + FirstReturn(s[1..])
  }

  /** The part of a stream a scanner that stops at returns gets to see. */
  function UpToReturn(s: seq<Instruction>): (w: seq<Instruction>)
    ensures w <= s
    ensures forall x :: x in w ==> !IsReturn(x)
  {
    s[..FirstReturn(s)]
  }

  /** A return-free prefix only shifts the position of the first return. */
  lemma {:induction false} FirstReturnAppend(p: seq<Instruction>, t: seq<Instruction>)
    requires forall x :: x in p ==> !IsReturn(x)
    ensures FirstReturn(p + t) == |p| + FirstReturn(t)
  {
    if |p| > 0 {
      assert (p + t)[0] == p[0];
      assert (p + t)[1..] == p[1..] + t;
      FirstReturnAppend(p[1..], t);
    } else {
      assert p + t == t;
    }
  }

  /** Cutting at the first return commutes with extending a return-free stream. */
  lemma UpToReturnAppend(p: seq<Instruction>, t: seq<Instruction>)
    requires forall x :: x in p ==> !IsReturn(x)
    ensures UpToReturn(p + t) == p + UpToReturn(t)
  {
    FirstReturnAppend(p, t);
    assert (p + t)[..|p| + FirstReturn(t)] == p + t[..FirstReturn(t)];
  }

  /** A prefix that reaches past the first return has the same first return. */
  lemma PrefixFirstReturn(s: seq<Instruction>, k: nat)
    requires FirstReturn(s) < k <= |s|
    ensures FirstReturn(s[..k]) == FirstReturn(s)
  {
    assert s[..k][FirstReturn(s)] == s[FirstReturn(s)];
  }
}
