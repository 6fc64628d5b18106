/** Concrete instruction windows and what each scanner makes of them. */
module Examples {
  import opened Words
  import opened Arm64
  import opened XrefScanner
  import opened XrefScanUtilFinder
  import opened XrefScannerLowLevel

  /** An instruction with every field not given set to "nothing". */
  function Plain(address: uint64, mnemonic: Mnemonic, categories: set<Category>): Instruction {
    Instruction(address, mnemonic, categories, NONE, NONE,
                NoOperand, OtherRegister, 0, 0, NoOperand, 0, 0, 0)
  }

  /** `LDR X0, [pc, #0x10]` at 0x1000; `BL 0x2000` at 0x1004; `RET` at 0x1008. */
  function LoadThenCall(): seq<Instruction> {
    [ Plain(0x1000, LDR, {}).(op0Kind := Register, op0Reg := X0,
                              op1Kind := ImmediatePcRelative, memOffset := 0x10),
      Plain(0x1004, BL, {Branch}).(op0Kind := ImmediatePcRelative, op0Imm := 0xffc),
      Plain(0x1008, OtherMnemonic, {Return}) ]
  }

  /** The load is the value X0 held at the call; the call is the only
      cross-reference, since the load is not Move-category. */
  lemma LoadThenCallExample(f: ClassFilter)
    ensures FindLastRcxReadAddressBeforeCallToImpl(LoadThenCall(), 0x2000) == 0x1010
    ensures XrefScanImpl(LoadThenCall(), false, f) == [XrefInstance(Method, 0x2000, 0x1004)]
  {
  }

  /** `BL 0x3000` at 0x2000; a move of pc-relative 0x4000 at 0x2004; `RET` at 0x2008. */
  function CallThenMove(): seq<Instruction> {
    [ Plain(0x2000, BL, {Branch}).(op0Kind := ImmediatePcRelative, op0Imm := 0x1000),
      Plain(0x2004, OtherMnemonic, {Move}).(op0Kind := ImmediatePcRelative, op0PcRelImm := 0x4000),
      Plain(0x2008, OtherMnemonic, {Return}) ]
  }

  lemma CallThenMoveExample()
    ensures FindByteWriteTargetRightAfterCallToImpl(CallThenMove(), 0x3000) == 0x4000
  {
  }

  /** A plain branch first ends the local block after its own target, even
      with further branches behind it. */
  lemma FirstBranchEndsBlockExample()
    ensures JumpTargetsImpl([Plain(0x10, B, {Branch}).(op0Kind := Immediate, op0Imm := 0x40),
                             Plain(0x14, B, {Branch}).(op0Kind := Immediate, op0Imm := 0x80)], false)
            == [0x40]
  {
  }
}
