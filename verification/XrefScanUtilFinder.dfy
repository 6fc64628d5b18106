/** The register-provenance finders: what was loaded into X0 before a given
    call, and which pc-relative move follows it. Zero is their "not found". */
module XrefScanUtilFinder {
  import opened Words
  import opened Outcomes
  import opened Arm64
  import XrefScanner

  /** A BL or BLR whose resolved target is `callTarget`. */
  predicate CallsTarget(ins: Instruction, callTarget: int64) {
    (ins.mnemonic == BL || ins.mnemonic == BLR) && AsSigned(ExtractTargetAddress(ins)) == callTarget
  }

  /** The value an instruction puts into X0, for the two forms that are
      tracked: a pc-relative load (the address loaded from) and an address
      materialisation (the address materialised). */
  function X0Write(ins: Instruction): (w: Option<int64>)
    ensures w.Some? <==> ins.op0Kind == Register && ins.op0Reg == X0 &&
                         ins.op1Kind == ImmediatePcRelative && ins.mnemonic in {LDR, ADR, ADRP}
    ensures w.Some? && ins.mnemonic == LDR ==>
              AsUnsigned(w.value) == WrapAdd(ins.address, ins.memOffset)
    ensures w.Some? && ins.mnemonic != LDR ==> AsUnsigned(w.value) == ins.op1PcRelImm
  {
    if ins.op0Kind == Register && ins.op0Reg == X0 && ins.op1Kind == ImmediatePcRelative then
      if ins.mnemonic == LDR then Some(AsSigned(WrapAdd(ins.address, ins.memOffset)))
      else if ins.mnemonic == ADR || ins.mnemonic == ADRP then Some(AsSigned(ins.op1PcRelImm))
      else None
    else None
  }

  /** The most recent X0 write in `p`, read from the end backwards; `initial`
      when `p` holds none. */
  function LastX0Write(p: seq<Instruction>, initial: int64): (v: int64)
    ensures v == initial || exists i :: 0 <= i < |p| && X0Write(p[i]) == Some(v)
  {
    if |p| == 0 then initial
    else match X0Write(p[|p| - 1])
      case Some(w) => w
      case None => LastX0Write(p[..|p| - 1], initial)
  }

  /** A prefix in which nothing writes X0 leaves the initial value. */
  lemma LastX0WriteWithoutWrites(p: seq<Instruction>, initial: int64)
    requires forall j :: 0 <= j < |p| ==> X0Write(p[j]).None?
    ensures LastX0Write(p, initial) == initial
  {
  }

  /** `LastX0Write` is the most recent write: the value written by the last
      instruction of `p` that writes X0. */
  lemma {:induction false} LastX0WriteIsMostRecent(p: seq<Instruction>, initial: int64, i: nat)
    requires i < |p| && X0Write(p[i]).Some?
    requires forall j :: i < j < |p| ==> X0Write(p[j]).None?
    ensures LastX0Write(p, initial) == X0Write(p[i]).value
  {
    if i < |p| - 1 {
      var q := p[..|p| - 1];
      assert X0Write(p[|p| - 1]).None?;
      assert q[i] == p[i];
      assert forall j :: i < j < |q| ==> q[j] == p[j];
      LastX0WriteIsMostRecent(q, initial, i);
    }
  }

  /** The loop of FindLastRcxReadAddressBeforeCallTo, with `lastX0Read` the
      value tracked so far. */
  function LastX0ReadScan(s: seq<Instruction>, callTarget: int64, lastX0Read: int64): (r: int64)
    ensures r != 0 ==> exists i :: 0 <= i < |s| && CallsTarget(s[i], callTarget)
  {
    if |s| == 0 then 0
    else
      var ins := s[0];
      if IsReturn(ins) then 0
      else if ins.mnemonic == B then LastX0ReadScan(s[1..], callTarget, lastX0Read)
      else if CallsTarget(ins, callTarget) then lastX0Read
      else
        var afterLdr :=
          if ins.mnemonic == LDR && ins.op0Kind == Register && ins.op0Reg == X0 &&
             ins.op1Kind == ImmediatePcRelative
          then AsSigned(WrapAdd(ins.address, ins.memOffset))
          else lastX0Read;
        var afterAdr :=
          if (ins.mnemonic == ADR || ins.mnemonic == ADRP) && ins.op0Kind == Register &&
             ins.op0Reg == X0 && ins.op1Kind == ImmediatePcRelative
          then AsSigned(ins.op1PcRelImm)
          else afterLdr;
        LastX0ReadScan(s[1..], callTarget, afterAdr)
  }

  function FindLastRcxReadAddressBeforeCallToImpl(s: seq<Instruction>, callTarget: int64): (r: int64)
    ensures r != 0 ==> exists i :: 0 <= i < |s| && CallsTarget(s[i], callTarget)
  {
    LastX0ReadScan(s, callTarget, 0)
  }

  /** The entry point: decode from `codeStart`, then scan. */
  function FindLastRcxReadAddressBeforeCallTo(codeStart: int64, callTarget: int64, disassemble: Disassembler)
    : (r: Result<int64>)
    ensures r.Failure? <==> codeStart == 0
    ensures r.Success? ==> r.value == FindLastRcxReadAddressBeforeCallToImpl(
              disassemble(AsUnsigned(codeStart), XrefScanner.DefaultLengthLimit), callTarget)
  {
    match XrefScanner.DecoderForAddress(codeStart, XrefScanner.DefaultLengthLimit, disassemble)
    case Failure(e) => Failure(e)
    case Success(s) => Success(FindLastRcxReadAddressBeforeCallToImpl(s, callTarget))
  }

  /** Neither a return nor the awaited call occurs in `s[..i]`. */
  ghost predicate NoStopBefore(s: seq<Instruction>, callTarget: int64, i: nat)
    requires i <= |s|
  {
    forall j :: 0 <= j < i ==> !IsReturn(s[j]) && !CallsTarget(s[j], callTarget)
  }

  lemma LastX0WriteSnoc(p: seq<Instruction>, x: Instruction, initial: int64)
    ensures LastX0Write(p + [x], initial) == X0Write(x).GetOr(LastX0Write(p, initial))
  {
  }

  /** Reading one instruction forward and then the rest agrees with reading
      the whole prefix backwards. */
  lemma {:induction false} LastX0WriteCons(x: Instruction, q: seq<Instruction>, initial: int64)
    ensures LastX0Write([x] + q, initial) == LastX0Write(q, X0Write(x).GetOr(initial))
    decreases |q|
  {
    if |q| == 0 {
      assert [x] + q == [] + [x];
      LastX0WriteSnoc([], x, initial);
    } else {
      var q' := q[..|q| - 1];
      var y := q[|q| - 1];
      assert q == q' + [y];
      assert [x] + q == ([x] + q') + [y];
      LastX0WriteSnoc([x] + q', y, initial);
      LastX0WriteSnoc(q', y, X0Write(x).GetOr(initial));
      LastX0WriteCons(x, q', initial);
    }
  }

  /** One step of the forward scan past an instruction that neither returns
      nor is the awaited call: the tracked value becomes its X0 write, if any. */
  lemma LastX0ReadScanStep(s: seq<Instruction>, callTarget: int64, lastX0Read: int64)
    requires |s| > 0 && !IsReturn(s[0]) && !CallsTarget(s[0], callTarget)
    ensures LastX0ReadScan(s, callTarget, lastX0Read) ==
            LastX0ReadScan(s[1..], callTarget, X0Write(s[0]).GetOr(lastX0Read))
  {
  }

  /** The forward scan, stopped at the awaited call at index `i`, hands back
      the last X0 write before it (the running value if there was none). */
  lemma {:induction false} LastX0ReadScanAtCall(s: seq<Instruction>, callTarget: int64, lastX0Read: int64, i: nat)
    requires i < |s|
    requires NoStopBefore(s, callTarget, i)
    requires !IsReturn(s[i]) && CallsTarget(s[i], callTarget)
    ensures LastX0ReadScan(s, callTarget, lastX0Read) == LastX0Write(s[..i], lastX0Read)
  {
    if i > 0 {
      var x := s[0];
      var t := s[1..];
      assert NoStopBefore(t, callTarget, i - 1) by {
        forall j | 0 <= j < i - 1
          ensures !IsReturn(t[j]) && !CallsTarget(t[j], callTarget)
        {
          assert t[j] == s[j + 1];
        }
      }
      assert t[i - 1] == s[i];
      assert s[..i] == [x] + t[..i - 1];
      LastX0ReadScanStep(s, callTarget, lastX0Read);
      LastX0WriteCons(x, t[..i - 1], lastX0Read);
      LastX0ReadScanAtCall(t, callTarget, X0Write(x).GetOr(lastX0Read), i - 1);
    }
  }

  /** At the first BL/BLR to `callTarget`, with no return before it, the
      finder returns the value of the most recent qualifying X0 write before
      that call, or 0 if there was none. Branches (B), calls elsewhere, and
      loads or materialisations into other registers or from non-pc-relative
      sources leave the tracked value alone. */
  lemma FindLastAtCall(s: seq<Instruction>, callTarget: int64, i: nat)
    requires i < |s|
    requires NoStopBefore(s, callTarget, i)
    requires !IsReturn(s[i]) && CallsTarget(s[i], callTarget)
    ensures FindLastRcxReadAddressBeforeCallToImpl(s, callTarget) == LastX0Write(s[..i], 0)
  {
    LastX0ReadScanAtCall(s, callTarget, 0, i);
  }

  /** A return reached before the awaited call ends the search with 0. */
  lemma {:induction false} FindLastReturnFirst(s: seq<Instruction>, callTarget: int64, lastX0Read: int64, i: nat)
    requires i < |s|
    requires NoStopBefore(s, callTarget, i)
    requires IsReturn(s[i])
    ensures LastX0ReadScan(s, callTarget, lastX0Read) == 0
  {
    if i > 0 {
      assert NoStopBefore(s[1..], callTarget, i - 1) by {
        forall j | 0 <= j < i - 1
          ensures !IsReturn(s[1..][j]) && !CallsTarget(s[1..][j], callTarget)
        {
          assert s[1..][j] == s[j + 1];
        }
      }
      assert s[1..][i - 1] == s[i];
      FindLastReturnFirst(s[1..], callTarget, X0Write(s[0]).GetOr(lastX0Read), i - 1);
    }
  }

  /** A stream without the awaited call yields 0. */
  lemma FindLastNoCall(s: seq<Instruction>, callTarget: int64)
    requires forall j :: 0 <= j < |s| ==> !CallsTarget(s[j], callTarget)
    ensures FindLastRcxReadAddressBeforeCallToImpl(s, callTarget) == 0
  {
  }

  /** A BLR through a register resolves to target 0, so a search for call
      target 0 stops at the first such call. */
  lemma FindLastZeroMatchesRegisterCall(s: seq<Instruction>, i: nat)
    requires i < |s|
    requires NoStopBefore(s, 0, i)
    requires !IsReturn(s[i]) && s[i].mnemonic == BLR && s[i].op0Kind == Register
    ensures FindLastRcxReadAddressBeforeCallToImpl(s, 0) == LastX0Write(s[..i], 0)
  {
    assert CallsTarget(s[i], 0);
    FindLastAtCall(s, 0, i);
  }

  // ---------------------------------------------------------------------------

  /** A move that, once the call has been seen, ends the search: not a return,
      not a skipped B, Move-category, with a pc-relative operand 0. */
  predicate IsQualifyingMove(ins: Instruction) {
    !IsReturn(ins) && ins.mnemonic != B && Move in ins.categories && ins.op0Kind == ImmediatePcRelative
  }

  /** The loop of FindByteWriteTargetRightAfterCallTo, with `seenCall` the flag
      carried so far. */
  function ByteWriteScan(s: seq<Instruction>, callTarget: int64, seenCall: bool): (r: int64)
    ensures r != 0 ==> seenCall || exists i :: 0 <= i < |s| && CallsTarget(s[i], callTarget)
    ensures r != 0 ==> exists k :: 0 <= k < |s| && IsQualifyingMove(s[k]) && r == AsSigned(s[k].op0PcRelImm)
  {
    if |s| == 0 then 0
    else
      var ins := s[0];
      if IsReturn(ins) then 0
      else if ins.mnemonic == B then ByteWriteScan(s[1..], callTarget, seenCall)
      else
        var seen := seenCall || CallsTarget(ins, callTarget);
        if Move in ins.categories && seen && ins.op0Kind == ImmediatePcRelative
        then AsSigned(ins.op0PcRelImm)
        else ByteWriteScan(s[1..], callTarget, seen)
  }

  function FindByteWriteTargetRightAfterCallToImpl(s: seq<Instruction>, callTarget: int64): (r: int64)
    ensures r != 0 ==> exists i :: 0 <= i < |s| && CallsTarget(s[i], callTarget)
  {
    ByteWriteScan(s, callTarget, false)
  }

  /** The entry point: decode from `codeStart`, then scan. */
  function FindByteWriteTargetRightAfterCallTo(codeStart: int64, callTarget: int64, disassemble: Disassembler)
    : (r: Result<int64>)
    ensures r.Failure? <==> codeStart == 0
    ensures r.Success? ==> r.value == FindByteWriteTargetRightAfterCallToImpl(
              disassemble(AsUnsigned(codeStart), XrefScanner.DefaultLengthLimit), callTarget)
  {
    match XrefScanner.DecoderForAddress(codeStart, XrefScanner.DefaultLengthLimit, disassemble)
    case Failure(e) => Failure(e)
    case Success(s) => Success(FindByteWriteTargetRightAfterCallToImpl(s, callTarget))
  }

  /** Before the awaited call, moves are ignored: a call-free, return-free
      prefix is skipped without effect. */
  lemma {:induction false} ByteWriteSkipsPrefix(s: seq<Instruction>, callTarget: int64, i: nat)
    requires i <= |s|
    requires NoStopBefore(s, callTarget, i)
    ensures ByteWriteScan(s, callTarget, false) == ByteWriteScan(s[i..], callTarget, false)
  {
    if i > 0 {
      assert NoStopBefore(s[1..], callTarget, i - 1) by {
        forall j | 0 <= j < i - 1
          ensures !IsReturn(s[1..][j]) && !CallsTarget(s[1..][j], callTarget)
        {
          assert s[1..][j] == s[j + 1];
        }
      }
      assert s[1..][i - 1..] == s[i..];
      ByteWriteSkipsPrefix(s[1..], callTarget, i - 1);
    }
  }

  /** Once set, the seen-call flag is never cleared: what follows is searched
      the same way whatever the awaited target was, so later unrelated calls
      and branches cannot cancel it. */
  lemma {:induction false} SeenCallNeverReset(s: seq<Instruction>, callTarget: int64, otherTarget: int64)
    ensures ByteWriteScan(s, callTarget, true) == ByteWriteScan(s, otherTarget, true)
  {
    if |s| > 0 {
      SeenCallNeverReset(s[1..], callTarget, otherTarget);
    }
  }

  /** After the call has been seen, the first qualifying move (with no return
      before it) supplies the answer. */
  lemma {:induction false} SeenCallFindsMove(s: seq<Instruction>, callTarget: int64, k: nat)
    requires k < |s|
    requires forall j :: 0 <= j < k ==> !IsReturn(s[j]) && !IsQualifyingMove(s[j])
    requires IsQualifyingMove(s[k])
    ensures ByteWriteScan(s, callTarget, true) == AsSigned(s[k].op0PcRelImm)
  {
    if k > 0 {
      assert s[1..][k - 1] == s[k];
      forall j | 0 <= j < k - 1
        ensures !IsReturn(s[1..][j]) && !IsQualifyingMove(s[1..][j])
      {
        assert s[1..][j] == s[j + 1];
      }
      SeenCallFindsMove(s[1..], callTarget, k - 1);
    }
  }

  /** After the call has been seen, a return before any qualifying move, or
      the end of the stream, yields 0. */
  lemma {:induction false} SeenCallWithoutMove(s: seq<Instruction>, callTarget: int64, k: nat)
    requires k <= |s|
    requires forall j :: 0 <= j < k ==> !IsReturn(s[j]) && !IsQualifyingMove(s[j])
    requires k < |s| ==> IsReturn(s[k])
    ensures ByteWriteScan(s, callTarget, true) == 0
  {
    if k > 0 {
      forall j | 0 <= j < k - 1
        ensures !IsReturn(s[1..][j]) && !IsQualifyingMove(s[1..][j])
      {
        assert s[1..][j] == s[j + 1];
      }
      if k < |s| {
        assert s[1..][k - 1] == s[k];
      }
      SeenCallWithoutMove(s[1..], callTarget, k - 1);
    }
  }

  /** With the first awaited call at index `i` and the first qualifying move at
      index `k >= i` (the call itself counts), the finder returns that move's
      pc-relative value; moves before the call are ignored. */
  lemma FindByteWriteAfterCall(s: seq<Instruction>, callTarget: int64, i: nat, k: nat)
    requires i <= k < |s|
    requires NoStopBefore(s, callTarget, i)
    requires !IsReturn(s[i]) && CallsTarget(s[i], callTarget)
    requires forall j :: i <= j < k ==> !IsReturn(s[j]) && !IsQualifyingMove(s[j])
    requires IsQualifyingMove(s[k])
    ensures FindByteWriteTargetRightAfterCallToImpl(s, callTarget) == AsSigned(s[k].op0PcRelImm)
  {
    ByteWriteSkipsPrefix(s, callTarget, i);
    var t := s[i..];
    assert t[k - i] == s[k];
    if k > i {
      assert !IsQualifyingMove(t[0]);
      forall j | 0 <= j < k - i - 1
        ensures !IsReturn(t[1..][j]) && !IsQualifyingMove(t[1..][j])
      {
        assert t[1..][j] == s[i + 1 + j];
      }
      assert t[1..][k - i - 1] == s[k];
      SeenCallFindsMove(t[1..], callTarget, k - i - 1);
    }
  }

  /** With the awaited call at index `i`, a return before any qualifying move,
      or no qualifying move at all, yields 0. */
  lemma FindByteWriteNoMoveAfterCall(s: seq<Instruction>, callTarget: int64, i: nat, k: nat)
    requires i < k <= |s|
    requires NoStopBefore(s, callTarget, i)
    requires !IsReturn(s[i]) && CallsTarget(s[i], callTarget)
    requires forall j :: i <= j < k ==> !IsReturn(s[j]) && !IsQualifyingMove(s[j])
    requires k < |s| ==> IsReturn(s[k])
    ensures FindByteWriteTargetRightAfterCallToImpl(s, callTarget) == 0
  {
    ByteWriteSkipsPrefix(s, callTarget, i);
    var t := s[i..];
    assert !IsQualifyingMove(t[0]);
    forall j | 0 <= j < k - i - 1
      ensures !IsReturn(t[1..][j]) && !IsQualifyingMove(t[1..][j])
    {
      assert t[1..][j] == s[i + 1 + j];
    }
    if k < |s| {
      assert t[1..][k - i - 1] == s[k];
    }
    SeenCallWithoutMove(t[1..], callTarget, k - i - 1);
  }

  /** A return before the awaited call yields 0. */
  lemma FindByteWriteReturnFirst(s: seq<Instruction>, callTarget: int64, i: nat)
    requires i < |s|
    requires NoStopBefore(s, callTarget, i)
    requires IsReturn(s[i])
    ensures FindByteWriteTargetRightAfterCallToImpl(s, callTarget) == 0
  {
    ByteWriteSkipsPrefix(s, callTarget, i);
  }

  /** A stream without the awaited call yields 0. */
  lemma FindByteWriteNoCall(s: seq<Instruction>, callTarget: int64)
    requires forall j :: 0 <= j < |s| ==> !CallsTarget(s[j], callTarget)
    ensures FindByteWriteTargetRightAfterCallToImpl(s, callTarget) == 0
  {
  }
}
