/** The control-flow target enumerators: jump targets of a short local block,
    and call/indirect targets over a bulk window. */
module XrefScannerLowLevel {
  import opened Words
  import opened Outcomes
  import opened Seqs
  import opened Arm64
  import XrefScanner

  /** Instructions decoded for the bulk scan. */
  const BulkLengthLimit: nat := 1024 * 1024

  /** A jump or call (B, BC, BR, BL, BLR) with no predication at all. */
  predicate IsUnconditionalJump(ins: Instruction) {
    && ins.mnemonic in {B, BC, BR, BL, BLR}
    && ins.mnemonicCondition == NONE
    && ins.finalOpCondition == NONE
  }

  /** The resolved target as the pointer the enumerators hand back. */
  function JumpTarget(ins: Instruction): (target: int64) {
    AsSigned(ExtractTargetAddress(ins))
  }

  /** The loop of JumpTargetsImpl, with `firstFlowControl` the flag carried so far. */
  function JumpScan(s: seq<Instruction>, ignoreRetn: bool, firstFlowControl: bool): (r: seq<int64>)
    ensures |r| <= |s|
    ensures forall x :: x in r ==> exists i :: 0 <= i < |s| && IsUnconditionalJump(s[i]) && x == JumpTarget(s[i])
  {
    if |s| == 0 then []
    else
      var ins := s[0];
      if IsReturn(ins) && !ignoreRetn then []
      else if IsUnconditionalJump(ins) then
        [JumpTarget(ins)] +
        (if firstFlowControl && Branch in ins.categories then []
         else JumpScan(s[1..], ignoreRetn, false))
      else JumpScan(s[1..], ignoreRetn, firstFlowControl)
  }

  function JumpTargetsImpl(s: seq<Instruction>, ignoreRetn: bool): (r: seq<int64>)
    ensures |r| <= |s|
    ensures forall x :: x in r ==> exists i :: 0 <= i < |s| && IsUnconditionalJump(s[i]) && x == JumpTarget(s[i])
  {
    JumpScan(s, ignoreRetn, true)
  }

  /** The entry point: decode from `codeStart`, then enumerate. */
  function JumpTargets(codeStart: int64, ignoreRetn: bool, disassemble: Disassembler)
    : (r: Result<seq<int64>>)
    ensures r.Failure? <==> codeStart == 0
    ensures r.Success? ==> r.value == JumpTargetsImpl(
              disassemble(AsUnsigned(codeStart), XrefScanner.DefaultLengthLimit), ignoreRetn)
  {
    match XrefScanner.DecoderForAddress(codeStart, XrefScanner.DefaultLengthLimit, disassemble)
    case Failure(e) => Failure(e)
    case Success(s) => Success(JumpTargetsImpl(s, ignoreRetn))
  }

  /** The instructions the jump enumerator looks at: all of them when returns
      are ignored, otherwise those before the first return. */
  function JumpWindow(s: seq<Instruction>, ignoreRetn: bool): (w: seq<Instruction>) {
    if ignoreRetn then s else UpToReturn(s)
  }

  /** Reference definition of the jump enumerator: the targets of the
      unconditional jumps in the window, in order, except that a plain branch
      as the first of them ends the block after its own target. */
  function JumpTargetsSpec(s: seq<Instruction>, ignoreRetn: bool): (targets: seq<int64>) {
    var jumps := Filter(IsUnconditionalJump, JumpWindow(s, ignoreRetn));
    if |jumps| == 0 then []
    else if Branch in jumps[0].categories then [JumpTarget(jumps[0])]
    else Map(JumpTarget, jumps)
  }

  /** A window that does not start with a return starts with that instruction. */
  lemma JumpWindowCons(s: seq<Instruction>, ignoreRetn: bool)
    requires |s| > 0 && (ignoreRetn || !IsReturn(s[0]))
    ensures JumpWindow(s, ignoreRetn) == [s[0]] + JumpWindow(s[1..], ignoreRetn)
  {
  }

  /** The unconditional jumps of a window that starts with `x`. */
  lemma JumpsCons(x: Instruction, w: seq<Instruction>)
    ensures Filter(IsUnconditionalJump, [x] + w) ==
            (if IsUnconditionalJump(x) then [x] else []) + Filter(IsUnconditionalJump, w)
  {
  }

  /** After the first qualifying instruction the flag stays false: later
      branches never end the scan, only a return (or the end) does. */
  lemma {:induction false} JumpScanAfterFirst(s: seq<Instruction>, ignoreRetn: bool)
    ensures JumpScan(s, ignoreRetn, false) ==
            Map(JumpTarget, Filter(IsUnconditionalJump, JumpWindow(s, ignoreRetn)))
  {
    if |s| > 0 && !(IsReturn(s[0]) && !ignoreRetn) {
      JumpScanAfterFirst(s[1..], ignoreRetn);
      var w := JumpWindow(s[1..], ignoreRetn);
      JumpWindowCons(s, ignoreRetn);
      JumpsCons(s[0], w);
      MapAppend(JumpTarget, if IsUnconditionalJump(s[0]) then [s[0]] else [],
                Filter(IsUnconditionalJump, w));
    }
  }

  /** The enumerator agrees with its reference definition on every stream. */
  lemma {:induction false} JumpTargetsMatchesSpec(s: seq<Instruction>, ignoreRetn: bool)
    ensures JumpTargetsImpl(s, ignoreRetn) == JumpTargetsSpec(s, ignoreRetn)
  {
    JumpScanFirst(s, ignoreRetn);
  }

  lemma {:induction false} JumpScanFirst(s: seq<Instruction>, ignoreRetn: bool)
    ensures JumpScan(s, ignoreRetn, true) == JumpTargetsSpec(s, ignoreRetn)
  {
    if |s| > 0 && !(IsReturn(s[0]) && !ignoreRetn) {
      if IsUnconditionalJump(s[0]) {
        JumpScanFirstIsJump(s, ignoreRetn);
      } else {
        JumpsOfWindowCons(s, ignoreRetn);
        JumpScanFirst(s[1..], ignoreRetn);
      }
    }
  }

  /** The case of JumpScanFirst where the very first instruction qualifies. */
  lemma JumpScanFirstIsJump(s: seq<Instruction>, ignoreRetn: bool)
    requires |s| > 0 && (ignoreRetn || !IsReturn(s[0])) && IsUnconditionalJump(s[0])
    ensures JumpScan(s, ignoreRetn, true) == JumpTargetsSpec(s, ignoreRetn)
  {
    var later := Filter(IsUnconditionalJump, JumpWindow(s[1..], ignoreRetn));
    JumpsOfWindowCons(s, ignoreRetn);
    assert Filter(IsUnconditionalJump, JumpWindow(s, ignoreRetn)) == [s[0]] + later;
    if Branch !in s[0].categories {
      JumpScanAfterFirst(s[1..], ignoreRetn);
      MapAppend(JumpTarget, [s[0]], later);
    }
  }

  /** The unconditional jumps of a window that does not start with a return. */
  lemma JumpsOfWindowCons(s: seq<Instruction>, ignoreRetn: bool)
    requires |s| > 0 && (ignoreRetn || !IsReturn(s[0]))
    ensures Filter(IsUnconditionalJump, JumpWindow(s, ignoreRetn)) ==
            (if IsUnconditionalJump(s[0]) then [s[0]] else []) +
            Filter(IsUnconditionalJump, JumpWindow(s[1..], ignoreRetn))
  {
    JumpWindowCons(s, ignoreRetn);
    JumpsCons(s[0], JumpWindow(s[1..], ignoreRetn));
  }

  /** Without `ignoreRetn` the enumeration halts at a return: appending
      instructions after a return changes nothing. */
  lemma JumpTargetsStopAtReturn(p: seq<Instruction>, ret: Instruction, t: seq<Instruction>)
    requires IsReturn(ret)
    ensures JumpTargetsImpl(p + [ret] + t, false) == JumpTargetsImpl(p, false)
  {
    UpToReturnPastReturn(p, ret, t);
    JumpTargetsMatchesSpec(p + [ret] + t, false);
    JumpTargetsMatchesSpec(p, false);
  }

  /** The window before the first return ignores whatever follows a return. */
  lemma UpToReturnPastReturn(p: seq<Instruction>, ret: Instruction, t: seq<Instruction>)
    requires IsReturn(ret)
    ensures UpToReturn(p + [ret] + t) == UpToReturn(p)
  {
    var s := p + [ret] + t;
    assert s == p + ([ret] + t);
    if FirstReturn(p) < |p| {
      var n := FirstReturn(p);
      assert s[..n + 1] == p[..n + 1];
      PrefixFirstReturn(s, n + 1);
      PrefixFirstReturn(p, n + 1);
      assert s[..n] == p[..n];
    } else {
      UpToReturnAppend(p, [ret] + t);
      assert UpToReturn([ret] + t) == [];
      assert p[..|p|] == p;
    }
  }

  /** Clears the Return category: the instruction as an ordinary one. */
  function WithoutReturn(ins: Instruction): (plain: Instruction) {
    ins.(categories := ins.categories - {Return})
  }

  /** With `ignoreRetn` set, returns are ordinary instructions: the output is
      that of the same stream with every Return category cleared. */
  lemma {:induction false} IgnoredReturnsAreOrdinary(s: seq<Instruction>, firstFlowControl: bool)
    ensures JumpScan(s, true, firstFlowControl) == JumpScan(Map(WithoutReturn, s), false, firstFlowControl)
  {
    if |s| > 0 {
      var s' := Map(WithoutReturn, s);
      assert s'[1..] == Map(WithoutReturn, s[1..]);
      assert s'[0] == WithoutReturn(s[0]);
      IgnoredReturnsAreOrdinary(s[1..], false);
      IgnoredReturnsAreOrdinary(s[1..], firstFlowControl);
    }
  }

  /** If the first qualifying instruction (before any return) is
      Branch-category, the output is exactly its target. */
  lemma JumpTargetsFirstBranch(s: seq<Instruction>, ignoreRetn: bool, i: nat)
    requires i < |s|
    requires forall j :: 0 <= j < i ==> !IsUnconditionalJump(s[j]) && (ignoreRetn || !IsReturn(s[j]))
    requires ignoreRetn || !IsReturn(s[i])
    requires IsUnconditionalJump(s[i]) && Branch in s[i].categories
    ensures JumpTargetsImpl(s, ignoreRetn) == [JumpTarget(s[i])]
  {
    JumpTargetsMatchesSpec(s, ignoreRetn);
    FirstJumpOfWindow(s, ignoreRetn, i);
  }

  /** The first unconditional jump of the window is the one at index `i`
      when nothing before it qualifies or returns. */
  lemma FirstJumpOfWindow(s: seq<Instruction>, ignoreRetn: bool, i: nat)
    requires i < |s|
    requires forall j :: 0 <= j < i ==> !IsUnconditionalJump(s[j]) && (ignoreRetn || !IsReturn(s[j]))
    requires ignoreRetn || !IsReturn(s[i])
    requires IsUnconditionalJump(s[i])
    ensures Filter(IsUnconditionalJump, JumpWindow(s, ignoreRetn)) ==
            [s[i]] + Filter(IsUnconditionalJump, JumpWindow(s[i + 1..], ignoreRetn))
  {
    var p := s[..i] + [s[i]];
    var rest := JumpWindow(s[i + 1..], ignoreRetn);
    assert s == p + s[i + 1..];
    assert JumpWindow(s, ignoreRetn) == p + rest by {
      if !ignoreRetn {
        UpToReturnAppend(p, s[i + 1..]);
      }
    }
    FilterAppend(IsUnconditionalJump, p, rest);
    FilterAppend(IsUnconditionalJump, s[..i], [s[i]]);
    NoneSelected(s[..i]);
    assert Filter(IsUnconditionalJump, [s[i]]) == [s[i]] by {
      assert [s[i]][1..] == [];
    }
  }

  lemma {:induction false} NoneSelected(p: seq<Instruction>)
    requires forall x :: x in p ==> !IsUnconditionalJump(x)
    ensures Filter(IsUnconditionalJump, p) == []
  {
    if |p| > 0 {
      NoneSelected(p[1..]);
    }
  }

  // ---------------------------------------------------------------------------

  predicate IsBranchCategory(ins: Instruction) {
    Branch in ins.categories || ConditionalBranch in ins.categories
  }

  /** ADR/ADRP into a register from a pc-relative operand. */
  predicate IsAddressMaterialization(ins: Instruction) {
    && (ins.mnemonic == ADR || ins.mnemonic == ADRP)
    && ins.op0Kind == Register
    && ins.op1Kind == ImmediatePcRelative
  }

  /** The loop of CallAndIndirectTargetsImpl. */
  function CallAndIndirectTargetsImpl(s: seq<Instruction>): (r: seq<int64>)
    ensures |r| <= FirstReturn(s)
    ensures forall x :: x in r ==> x != 0
  {
    if |s| == 0 then []
    else
      var ins := s[0];
      if IsReturn(ins) then []
      else if IsBranchCategory(ins) then
        var targetAddress := ExtractTargetAddress(ins);
        (if targetAddress != 0 then [AsSigned(targetAddress)] else []) + CallAndIndirectTargetsImpl(s[1..])
      else if IsAddressMaterialization(ins) then
        var targetAddress := AsSigned(ins.op1PcRelImm);
        (if targetAddress != 0 then [targetAddress] else []) + CallAndIndirectTargetsImpl(s[1..])
      else CallAndIndirectTargetsImpl(s[1..])
  }

  /** The entry point: decode a bulk window from `pointer`, then enumerate. */
  function CallAndIndirectTargets(pointer: int64, disassemble: Disassembler): (r: Result<seq<int64>>)
    ensures r.Failure? <==> pointer == 0
    ensures r.Success? ==> r.value == CallAndIndirectTargetsImpl(
              disassemble(AsUnsigned(pointer), BulkLengthLimit))
  {
    match XrefScanner.DecoderForAddress(pointer, BulkLengthLimit, disassemble)
    case Failure(e) => Failure(e)
    case Success(s) => Success(CallAndIndirectTargetsImpl(s))
  }

  /** A branch-category instruction with a nonzero resolved target. */
  predicate YieldsBranchTarget(ins: Instruction) {
    IsBranchCategory(ins) && ExtractTargetAddress(ins) != 0
  }

  /** An address materialisation, not branch-category (those are never also
      checked as ADR/ADRP), with a nonzero value. */
  predicate YieldsAdrTarget(ins: Instruction) {
    !IsBranchCategory(ins) && IsAddressMaterialization(ins) && ins.op1PcRelImm != 0
  }

  predicate YieldsIndirectTarget(ins: Instruction) {
    YieldsBranchTarget(ins) || YieldsAdrTarget(ins)
  }

  function IndirectTarget(ins: Instruction): (target: int64) {
    if IsBranchCategory(ins) then JumpTarget(ins) else AsSigned(ins.op1PcRelImm)
  }

  /** What one instruction that is not a return contributes. */
  lemma IndirectHead(s: seq<Instruction>)
    requires |s| > 0 && !IsReturn(s[0])
    ensures CallAndIndirectTargetsImpl(s) ==
            Map(IndirectTarget, Filter(YieldsIndirectTarget, [s[0]])) + CallAndIndirectTargetsImpl(s[1..])
  {
    var x := s[0];
    var f := Filter(YieldsIndirectTarget, [x]);
    assert f == (if YieldsIndirectTarget(x) then [x] else []) by {
      assert [x][1..] == [];
    }
    var contribution := if YieldsIndirectTarget(x) then [IndirectTarget(x)] else [];
    assert Map(IndirectTarget, f) == contribution;
    assert CallAndIndirectTargetsImpl(s) == contribution + CallAndIndirectTargetsImpl(s[1..]);
  }

  lemma IndirectSpecCons(x: Instruction, w: seq<Instruction>)
    ensures Map(IndirectTarget, Filter(YieldsIndirectTarget, [x] + w)) ==
            Map(IndirectTarget, Filter(YieldsIndirectTarget, [x])) + Map(IndirectTarget, Filter(YieldsIndirectTarget, w))
  {
    FilterAppend(YieldsIndirectTarget, [x], w);
    MapAppend(IndirectTarget, Filter(YieldsIndirectTarget, [x]), Filter(YieldsIndirectTarget, w));
  }

  /** The enumerator is the targets of the contributing instructions before
      the first return, in stream order. */
  lemma {:induction false} CallAndIndirectTargetsMatchesSpec(s: seq<Instruction>)
    ensures CallAndIndirectTargetsImpl(s) == Map(IndirectTarget, Filter(YieldsIndirectTarget, UpToReturn(s)))
  {
    if |s| > 0 && !IsReturn(s[0]) {
      CallAndIndirectTargetsMatchesSpec(s[1..]);
      IndirectHead(s);
      assert UpToReturn(s) == [s[0]] + UpToReturn(s[1..]) by {
        UpToReturnAppend([s[0]], s[1..]);
        assert [s[0]] + s[1..] == s;
      }
      IndirectSpecCons(s[0], UpToReturn(s[1..]));
    }
  }

  /** With k contributing branches and m contributing materialisations before
      the first return, the enumerator yields exactly k + m targets. */
  lemma CallAndIndirectTargetsCount(s: seq<Instruction>)
    ensures |CallAndIndirectTargetsImpl(s)| ==
            |Filter(YieldsBranchTarget, UpToReturn(s))| + |Filter(YieldsAdrTarget, UpToReturn(s))|
  {
    CallAndIndirectTargetsMatchesSpec(s);
    FilterDisjointCount(YieldsBranchTarget, YieldsAdrTarget, YieldsIndirectTarget, UpToReturn(s));
  }
}
