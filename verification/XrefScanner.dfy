/** The decoder guard and the general cross-reference scanner: one forward pass
    that turns a decoded stream into typed `Method`/`Global` references. */
module XrefScanner {
  import opened Words
  import opened Outcomes
  import opened Seqs
  import opened Arm64

  /** Instructions decoded by default for a local analysis. */
  const DefaultLengthLimit: nat := 1000

  /** Decodes from `codeStart`, refusing a null start before the decoder is
      consulted at all. */
  function DecoderForAddress(codeStart: int64, lengthLimit: nat, disassemble: Disassembler)
    : (r: Result<seq<Instruction>>)
    ensures r.Failure? <==> codeStart == 0
    ensures r.Failure? ==> r.error == NullReference
    ensures r.Success? ==> r.value == disassemble(AsUnsigned(codeStart), lengthLimit)
  {
    if codeStart == 0 then Failure(NullReference)
    else Success(disassemble(AsUnsigned(codeStart), lengthLimit))
  }

  datatype XrefType = Method | Global

  /** A reference to `pointer` found in the instruction at `foundAt`. */
  datatype XrefInstance = XrefInstance(kind: XrefType, pointer: int64, foundAt: int64)

  /** What the host's global-class filter does with a candidate address: it
      answers, or it throws. */
  datatype FilterOutcome = Accepted | Rejected | Faulted

  type ClassFilter = int64 -> FilterOutcome

  /** What the loop body emits for one instruction that is not a return. */
  function ScanStep(ins: Instruction, skipClassCheck: bool, classFilter: ClassFilter)
    : (step: seq<XrefInstance>)
  {
    if ins.mnemonic == BL || ins.mnemonic == B then
      var targetAddress := ExtractTargetAddress(ins);
      if targetAddress != 0
      then [XrefInstance(Method, AsSigned(targetAddress), AsSigned(ins.address))]
      else []
    else if Move in ins.categories then
      // the try block: a filter that throws leaves the result null
      if ins.op1Kind == ImmediatePcRelative then
        var movTarget := SignedWrapAdd(AsSigned(ins.address), ins.op1Imm);
        if skipClassCheck || classFilter(movTarget) == Accepted
        then [XrefInstance(Global, movTarget, AsSigned(ins.address))]
        else []
      else []
    else []
  }

  /** The general scanner over a decoded stream. */
  function XrefScanImpl(s: seq<Instruction>, skipClassCheck: bool, classFilter: ClassFilter)
    : (r: seq<XrefInstance>)
    ensures |r| <= FirstReturn(s)
    ensures forall x :: x in r && x.kind == Method ==> x.pointer != 0
  {
    if |s| == 0 then []
    else if IsReturn(s[0]) then []
    else ScanStep(s[0], skipClassCheck, classFilter) + XrefScanImpl(s[1..], skipClassCheck, classFilter)
  }

  /** `x` is the call/jump reference of a B or BL with a nonzero target. */
  ghost predicate IsMethodXrefOf(ins: Instruction, x: XrefInstance) {
    && ins.mnemonic in {B, BL}
    && ExtractTargetAddress(ins) != 0
    && x == XrefInstance(Method, AsSigned(ExtractTargetAddress(ins)), AsSigned(ins.address))
  }

  /** `x` is the data reference of a pc-relative move whose target, the
      instruction's address plus operand 1's displacement modulo 2^64, the
      caller accepts (by skipping the check or by the filter's approval). */
  ghost predicate IsGlobalXrefOf(ins: Instruction, x: XrefInstance, skipClassCheck: bool, classFilter: ClassFilter) {
    && ins.mnemonic !in {B, BL}
    && Move in ins.categories
    && ins.op1Kind == ImmediatePcRelative
    && x.kind == Global
    && AsUnsigned(x.pointer) == WrapAdd(ins.address, ins.op1Imm)
    && AsUnsigned(x.foundAt) == ins.address
    && (skipClassCheck || classFilter(x.pointer) == Accepted)
  }

  ghost predicate IsXrefOf(ins: Instruction, x: XrefInstance, skipClassCheck: bool, classFilter: ClassFilter) {
    IsMethodXrefOf(ins, x) || IsGlobalXrefOf(ins, x, skipClassCheck, classFilter)
  }

  /** One instruction yields at most one reference, and it yields `x` exactly
      when `x` is its method or global reference; a B or BL never yields a
      global one, and a faulting filter yields nothing. */
  lemma ScanStepCharacterized(ins: Instruction, skipClassCheck: bool, classFilter: ClassFilter)
    ensures |ScanStep(ins, skipClassCheck, classFilter)| <= 1
    ensures forall x :: ScanStep(ins, skipClassCheck, classFilter) == [x] <==>
                        IsXrefOf(ins, x, skipClassCheck, classFilter)
    ensures ins.mnemonic in {B, BL} ==>
              forall x :: x in ScanStep(ins, skipClassCheck, classFilter) ==> x.kind == Method
  {
    if ins.mnemonic !in {B, BL} && Move in ins.categories && ins.op1Kind == ImmediatePcRelative {
      var movTarget := SignedWrapAdd(AsSigned(ins.address), ins.op1Imm);
      SignedAndUnsignedAdditionAgree(ins.address, ins.op1Imm);
      forall x | IsGlobalXrefOf(ins, x, skipClassCheck, classFilter)
        ensures x == XrefInstance(Global, movTarget, AsSigned(ins.address))
      {
        assert AsUnsigned(x.pointer) == AsUnsigned(movTarget);
        assert AsSigned(AsUnsigned(x.pointer)) == x.pointer;
        assert AsSigned(AsUnsigned(x.foundAt)) == x.foundAt;
      }
    }
  }

  /** Scanning a concatenation: the first part's output, followed by the second
      part's unless the first part contains a return. */
  lemma {:induction false} XrefScanAppend(p: seq<Instruction>, t: seq<Instruction>,
                                          skipClassCheck: bool, classFilter: ClassFilter)
    ensures XrefScanImpl(p + t, skipClassCheck, classFilter) ==
            XrefScanImpl(p, skipClassCheck, classFilter) +
            (if FirstReturn(p) < |p| then [] else XrefScanImpl(t, skipClassCheck, classFilter))
  {
    if |p| == 0 {
      assert p + t == t;
    } else {
      assert (p + t)[0] == p[0];
      assert (p + t)[1..] == p[1..] + t;
      if !IsReturn(p[0]) {
        XrefScanAppend(p[1..], t, skipClassCheck, classFilter);
      }
    }
  }

  /** Nothing at or after a return contributes: appending instructions after a
      return leaves the output unchanged. */
  lemma XrefScanStopsAtReturn(p: seq<Instruction>, ret: Instruction, t: seq<Instruction>,
                              skipClassCheck: bool, classFilter: ClassFilter)
    requires IsReturn(ret)
    ensures XrefScanImpl(p + [ret] + t, skipClassCheck, classFilter) ==
            XrefScanImpl(p, skipClassCheck, classFilter)
  {
    XrefScanAppend(p, [ret] + t, skipClassCheck, classFilter);
    assert p + [ret] + t == p + ([ret] + t);
    if FirstReturn(p) == |p| {
      assert XrefScanImpl([ret] + t, skipClassCheck, classFilter) == [];
    }
  }

  /** Scanning a prefix of the stream yields a prefix of the full output, so a
      consumer that stops pulling early has seen exactly such a prefix. */
  lemma XrefScanPrefix(s: seq<Instruction>, i: nat, skipClassCheck: bool, classFilter: ClassFilter)
    requires i <= |s|
    ensures XrefScanImpl(s[..i], skipClassCheck, classFilter) <= XrefScanImpl(s, skipClassCheck, classFilter)
  {
    assert s == s[..i] + s[i..];
    XrefScanAppend(s[..i], s[i..], skipClassCheck, classFilter);
  }

  /** Every emitted reference is the reference of some instruction before the
      first return, and every such instruction's reference is emitted. */
  lemma {:induction false} XrefScanOrigins(s: seq<Instruction>, skipClassCheck: bool, classFilter: ClassFilter)
    ensures forall x :: x in XrefScanImpl(s, skipClassCheck, classFilter) ==>
              exists i :: 0 <= i < FirstReturn(s) && IsXrefOf(s[i], x, skipClassCheck, classFilter)
    ensures forall i, x :: 0 <= i < FirstReturn(s) && IsXrefOf(s[i], x, skipClassCheck, classFilter) ==>
              x in XrefScanImpl(s, skipClassCheck, classFilter)
  {
    if |s| > 0 && !IsReturn(s[0]) {
      var step := ScanStep(s[0], skipClassCheck, classFilter);
      var rest := XrefScanImpl(s[1..], skipClassCheck, classFilter);
      XrefScanOrigins(s[1..], skipClassCheck, classFilter);
      ScanStepCharacterized(s[0], skipClassCheck, classFilter);
      forall x | x in XrefScanImpl(s, skipClassCheck, classFilter)
        ensures exists i :: 0 <= i < FirstReturn(s) && IsXrefOf(s[i], x, skipClassCheck, classFilter)
      {
        if x in step {
          assert step == [x];
          assert IsXrefOf(s[0], x, skipClassCheck, classFilter);
        } else {
          assert x in rest;
          var i :| 0 <= i < FirstReturn(s[1..]) && IsXrefOf(s[1..][i], x, skipClassCheck, classFilter);
          assert s[i + 1] == s[1..][i];
        }
      }
      forall i, x | 0 <= i < FirstReturn(s) && IsXrefOf(s[i], x, skipClassCheck, classFilter)
        ensures x in XrefScanImpl(s, skipClassCheck, classFilter)
      {
        if i == 0 {
          assert step == [x];
        } else {
          assert s[1..][i - 1] == s[i];
          assert x in rest;
        }
      }
    }
  }

  /** A filter that throws on a candidate behaves exactly like one that rejects
      it: the fault drops that one candidate and nothing else. */
  lemma {:induction false} FaultIsolated(s: seq<Instruction>, skipClassCheck: bool,
                                         faulty: ClassFilter, rejecting: ClassFilter)
    requires forall a :: faulty(a) == Faulted ==> rejecting(a) == Rejected
    requires forall a :: faulty(a) != Faulted ==> rejecting(a) == faulty(a)
    ensures XrefScanImpl(s, skipClassCheck, faulty) == XrefScanImpl(s, skipClassCheck, rejecting)
  {
    if |s| > 0 && !IsReturn(s[0]) {
      FaultIsolated(s[1..], skipClassCheck, faulty, rejecting);
      if Move in s[0].categories && s[0].op1Kind == ImmediatePcRelative {
        var movTarget := SignedWrapAdd(AsSigned(s[0].address), s[0].op1Imm);
        assert faulty(movTarget) == Accepted <==> rejecting(movTarget) == Accepted;
      }
    }
  }

  /** With the class check skipped, the host filter is never consulted. */
  lemma {:induction false} SkippedCheckIgnoresFilter(s: seq<Instruction>, f: ClassFilter, g: ClassFilter)
    ensures XrefScanImpl(s, true, f) == XrefScanImpl(s, true, g)
  {
    if |s| > 0 && !IsReturn(s[0]) {
      SkippedCheckIgnoresFilter(s[1..], f, g);
    }
  }
}
