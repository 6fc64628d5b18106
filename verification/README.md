# ARM64 cross-reference scanners, modelled in Dafny

This project models the instruction-stream scanning core of Il2CppInterop's ARM64
cross-reference (xref) support. Each scanner makes one forward pass over the
instructions decoded from a function body. It produces one of two things:

- a sequence of results: typed `Method`/`Global` cross-references, jump targets, or
  call and indirect targets;
- a single address: the value loaded into X0 before a given call, or the
  pc-relative move after it.

Zero means "not found".

Modules, one per source file or shared concept:

- `Words`: `ulong` and `long`/`nint` as the newtypes `uint64` and `int64`. It also
  defines the unchecked casts (`AsUnsigned`, `AsSigned`) and the wrapping
  additions (`WrapAdd` for `ulong + (ulong)long`, `SignedWrapAdd` for
  `(long)a + long`).
- `Arm64`: the decoded `Instruction` record, the resolver `ExtractTargetAddress`
  and the cut of a stream at its first Return (`FirstReturn`, `UpToReturn`).
- `Outcomes`: `Option`, and `Result` for the `NullReferenceException` that a null
  start address raises.
- `Seqs`: order-preserving `Filter` and `Map`. The reference definitions of the
  scanners are written with them.
- `XrefScanner`: `DecoderForAddress` and the general scanner `XrefScanImpl`.
- `XrefScanUtilFinder`: the two register-provenance finders.
- `XrefScannerLowLevel`: `JumpTargetsImpl` and `CallAndIndirectTargetsImpl`.
- `Examples`: concrete instruction windows.

Each scanner is a recursive function that follows the C# loop branch by branch. The
loop's local state (`lastX0Read`, `seenCall`, `firstFlowControl`) becomes an
accumulator parameter. Each scanner then has a separate reference definition that states
what the loop computes:

- the general scanner: a concatenation law plus a per-instruction characterisation;
- the X0 finder: a backwards "most recent write" definition;
- the jump and indirect-target enumerators: a filter/map pipeline over the window
  before the first Return.

Lemmas prove that each loop and its reference definition agree on every stream.

The decoder (Disarm) is a function parameter `Disassembler`, from a start address
and a length limit to the instructions decoded there. The host's global-class
filter is a parameter of type `int64 -> FilterOutcome`. `Faulted` stands for an
exception, which the C# code catches and treats as "no xref for this candidate".

## Model

| member | source | states |
|---|---|---|
| `Words.AsUnsigned` | Il2CppInterop.Common/XrefScans/XrefScanner.cs:99 | `(ulong)` of a `long` keeps the 64-bit pattern (congruent mod 2^64) and leaves non-negative values unchanged |
| `Words.AsSigned` | Il2CppInterop.Common/XrefScans/XrefScanner.cs:68 | `(nint)` of a `ulong` keeps the bit pattern, is undone by `AsUnsigned`, and is zero exactly for zero |
| `Words.WrapAdd` | Il2CppInterop.Common/XrefScans/XrefScanner.cs:100 | unchecked `address + (ulong)imm` is congruent to the mathematical sum mod 2^64 |
| `Words.SignedWrapAdd` | Il2CppInterop.Common/XrefScans/XrefScanner.cs:79 | unchecked `(long)Address + Op1Imm` is congruent to the mathematical sum mod 2^64 |
| `Words.SignedAndUnsignedAdditionAgree` | Il2CppInterop.Common/XrefScans/XrefScanner.cs:79 | the signed sum used for `Global` targets, read as unsigned, equals `Address + Op1Imm` mod 2^64 |
| `Words.WrapAddInjective` | Il2CppInterop.Common/XrefScans/XrefScanner.cs:100 | distinct displacements from one address resolve to distinct words |
| `Arm64.ExtractTargetAddress` | Il2CppInterop.Common/XrefScans/XrefScanner.cs:95-103 | Immediate yields `Op0Imm` reinterpreted as unsigned (`AsSigned` recovers it); ImmediatePcRelative yields `Address + Op0Imm` mod 2^64; every other kind yields 0 |
| `Arm64.PcRelativeTargetsDetermineDisplacement` | Il2CppInterop.Common/XrefScans/XrefScanner.cs:100 | two pc-relative operands at one address resolve to the same target if and only if their displacements are equal |
| `Arm64.FirstReturn` | Il2CppInterop.Common/XrefScans/XrefScanner.cs:61-62 | the least index of a Return-category instruction, or the stream length if none; nothing before it is a Return |
| `XrefScanner.DecoderForAddress` | Il2CppInterop.Common/XrefScans/XrefScanner.cs:51-55 | a zero start address fails with `NullReference` whatever the decoder is; otherwise the decoder's output at that address and limit |
| `XrefScanner.XrefScanImpl` | Il2CppInterop.Common/XrefScans/XrefScanner.cs:57-93 | at most one xref per instruction before the first Return; every `Method` xref has a nonzero target |
| `XrefScanner.ScanStepCharacterized` | Il2CppInterop.Common/XrefScans/XrefScanner.cs:64-91 | an instruction yields `x` if and only if (a) it is B/BL with nonzero resolved target and `x` is `Method(target, Address)`, or (b) it is a non-B/BL Move with pc-relative operand 1, `x` is `Global` with target `Address + Op1Imm` mod 2^64, and the check is skipped or the filter accepts; B/BL never yields `Global` |
| `XrefScanner.XrefScanAppend` | Il2CppInterop.Common/XrefScans/XrefScanner.cs:59-92 | scanning `p + t` gives scan(p) followed by scan(t), unless `p` contains a Return, in which case it gives scan(p) alone |
| `XrefScanner.XrefScanStopsAtReturn` | Il2CppInterop.Common/XrefScans/XrefScanner.cs:61-62 | appending anything after a Return leaves the output equal to the output of the part before it |
| `XrefScanner.XrefScanPrefix` | Il2CppInterop.Common/XrefScans/XrefScanner.cs:59-92 | the scan of a stream prefix is a prefix of the full scan |
| `XrefScanner.XrefScanOrigins` | Il2CppInterop.Common/XrefScans/XrefScanner.cs:59-92 | every emitted xref is the xref of some instruction before the first Return, and every such instruction's xref is emitted |
| `XrefScanner.FaultIsolated` | Il2CppInterop.Common/XrefScans/XrefScanner.cs:75-90 | a filter that throws on some candidates gives the same output as one that rejects exactly those candidates |
| `XrefScanner.SkippedCheckIgnoresFilter` | Il2CppInterop.Common/XrefScans/XrefScanner.cs:80 | with `skipClassCheck` the output does not depend on the filter |
| `XrefScanUtilFinder.X0Write` | Il2CppInterop.Common/XrefScans/XrefScanUtilFinder.cs:29-45 | an instruction writes X0 if and only if it is LDR/ADR/ADRP into register X0 from a pc-relative operand: LDR writes `Address + MemOffset` mod 2^64, ADR/ADRP write `Op1PcRelImm` |
| `XrefScanUtilFinder.LastX0Write` | Il2CppInterop.Common/XrefScans/XrefScanUtilFinder.cs:12-45 | the result is the initial value or a value some instruction of the prefix writes to X0 |
| `XrefScanUtilFinder.LastX0WriteWithoutWrites` | Il2CppInterop.Common/XrefScans/XrefScanUtilFinder.cs:12 | a prefix in which nothing writes X0 leaves the initial value (`IntPtr.Zero` in the finder) |
| `XrefScanUtilFinder.LastX0WriteIsMostRecent` | Il2CppInterop.Common/XrefScans/XrefScanUtilFinder.cs:29-45 | if instruction i writes X0 and none after it does, the result is i's value: each later write overwrites `lastX0Read` |
| `XrefScanUtilFinder.LastX0ReadScan` | Il2CppInterop.Common/XrefScans/XrefScanUtilFinder.cs:14-46 | a nonzero result implies the stream holds a BL/BLR whose target is `callTarget` |
| `XrefScanUtilFinder.FindLastRcxReadAddressBeforeCallToImpl` | Il2CppInterop.Common/XrefScans/XrefScanUtilFinder.cs:12-48 | a nonzero result implies the awaited call occurs in the stream |
| `XrefScanUtilFinder.FindLastRcxReadAddressBeforeCallTo` | Il2CppInterop.Common/XrefScans/XrefScanUtilFinder.cs:9-11 | a zero `codeStart` fails with `NullReference`; otherwise the scan of the default 1000-limit window |
| `XrefScanUtilFinder.LastX0ReadScanAtCall` | Il2CppInterop.Common/XrefScans/XrefScanUtilFinder.cs:14-45 | the forward scan stopped at the awaited call equals the backwards most-recent-write definition over the prefix |
| `XrefScanUtilFinder.FindLastAtCall` | Il2CppInterop.Common/XrefScans/XrefScanUtilFinder.cs:22-26 | at the first matching BL/BLR with no Return before it, the result is the last qualifying X0 write before it, or 0 if there was none |
| `XrefScanUtilFinder.FindLastReturnFirst` | Il2CppInterop.Common/XrefScans/XrefScanUtilFinder.cs:16-17 | a Return before any matching call yields 0 |
| `XrefScanUtilFinder.FindLastNoCall` | Il2CppInterop.Common/XrefScans/XrefScanUtilFinder.cs:48 | a stream without a matching call yields 0 |
| `XrefScanUtilFinder.FindLastZeroMatchesRegisterCall` | Il2CppInterop.Common/XrefScans/XrefScanUtilFinder.cs:81-88 | a register-operand BLR resolves to 0, so with `callTarget` 0 the first such call is the match |
| `XrefScanUtilFinder.ByteWriteScan` | Il2CppInterop.Common/XrefScans/XrefScanUtilFinder.cs:56-76 | a nonzero result is the `Op0PcRelImm` of a qualifying move in the stream, and the call was already seen or occurs in the stream |
| `XrefScanUtilFinder.FindByteWriteTargetRightAfterCallToImpl` | Il2CppInterop.Common/XrefScans/XrefScanUtilFinder.cs:54-78 | a nonzero result implies the awaited call occurs in the stream |
| `XrefScanUtilFinder.FindByteWriteTargetRightAfterCallTo` | Il2CppInterop.Common/XrefScans/XrefScanUtilFinder.cs:51-53 | a zero `codeStart` fails with `NullReference`; otherwise the scan of the default 1000-limit window |
| `XrefScanUtilFinder.ByteWriteSkipsPrefix` | Il2CppInterop.Common/XrefScans/XrefScanUtilFinder.cs:61-75 | before the matching call, moves are ignored: a prefix free of Returns and matching calls is skipped without effect |
| `XrefScanUtilFinder.SeenCallNeverReset` | Il2CppInterop.Common/XrefScans/XrefScanUtilFinder.cs:64-69 | once `seenCall` is set, the rest of the search does not depend on the call target, so later calls cannot cancel it |
| `XrefScanUtilFinder.SeenCallFindsMove` | Il2CppInterop.Common/XrefScans/XrefScanUtilFinder.cs:71-75 | after the call is seen, the first qualifying move with no Return before it gives the result |
| `XrefScanUtilFinder.SeenCallWithoutMove` | Il2CppInterop.Common/XrefScans/XrefScanUtilFinder.cs:58-59 | after the call is seen, a Return before any qualifying move, or the end of the stream, gives 0 |
| `XrefScanUtilFinder.FindByteWriteAfterCall` | Il2CppInterop.Common/XrefScans/XrefScanUtilFinder.cs:64-75 | the result is the `Op0PcRelImm` of the first Move-category, pc-relative-operand-0, non-B instruction at or after the first matching BL/BLR |
| `XrefScanUtilFinder.FindByteWriteNoMoveAfterCall` | Il2CppInterop.Common/XrefScans/XrefScanUtilFinder.cs:58-78 | after the matching call, a Return before any qualifying move, or the end without one, yields 0 |
| `XrefScanUtilFinder.FindByteWriteReturnFirst` | Il2CppInterop.Common/XrefScans/XrefScanUtilFinder.cs:58-59 | a Return before the matching call yields 0 |
| `XrefScanUtilFinder.FindByteWriteNoCall` | Il2CppInterop.Common/XrefScans/XrefScanUtilFinder.cs:78 | a stream without a matching call yields 0 |
| `XrefScannerLowLevel.JumpScan` | Il2CppInterop.Common/XrefScans/XrefScannerLowLevel.cs:16-34 | every output is the resolved target of an unconditional B/BC/BR/BL/BLR in the stream, at most one per instruction |
| `XrefScannerLowLevel.JumpTargetsImpl` | Il2CppInterop.Common/XrefScans/XrefScannerLowLevel.cs:12-35 | every output is the resolved target, 0 included, of an unconditional jump or call in the stream |
| `XrefScannerLowLevel.JumpTargets` | Il2CppInterop.Common/XrefScans/XrefScannerLowLevel.cs:7-10 | a zero `codeStart` fails with `NullReference`; otherwise the enumeration over the default 1000-limit window |
| `XrefScannerLowLevel.JumpScanAfterFirst` | Il2CppInterop.Common/XrefScans/XrefScannerLowLevel.cs:30-32 | once `firstFlowControl` is false, the output is the target of every unconditional jump in the window; later branches never end the scan |
| `XrefScannerLowLevel.JumpScanFirst` | Il2CppInterop.Common/XrefScans/XrefScannerLowLevel.cs:14-34 | from the start, the scan equals the reference definition `JumpTargetsSpec` |
| `XrefScannerLowLevel.JumpTargetsMatchesSpec` | Il2CppInterop.Common/XrefScans/XrefScannerLowLevel.cs:12-35 | the output is the targets of the window's unconditional jumps; if the first of them is Branch-category, it is that one target alone |
| `XrefScannerLowLevel.JumpTargetsStopAtReturn` | Il2CppInterop.Common/XrefScans/XrefScannerLowLevel.cs:18-19 | without `ignoreRetn`, appending anything after a Return leaves the output unchanged |
| `XrefScannerLowLevel.IgnoredReturnsAreOrdinary` | Il2CppInterop.Common/XrefScans/XrefScannerLowLevel.cs:18 | with `ignoreRetn`, the output is that of the stream with every Return category removed |
| `XrefScannerLowLevel.JumpTargetsFirstBranch` | Il2CppInterop.Common/XrefScans/XrefScannerLowLevel.cs:30 | if the first qualifying instruction is Branch-category, the output is exactly its target |
| `XrefScannerLowLevel.CallAndIndirectTargetsImpl` | Il2CppInterop.Common/XrefScans/XrefScannerLowLevel.cs:42-67 | every output is nonzero, with at most one per instruction before the first Return |
| `XrefScannerLowLevel.CallAndIndirectTargets` | Il2CppInterop.Common/XrefScans/XrefScannerLowLevel.cs:37-40 | a zero pointer fails with `NullReference`; otherwise the enumeration over the 1024*1024-limit window |
| `XrefScannerLowLevel.CallAndIndirectTargetsMatchesSpec` | Il2CppInterop.Common/XrefScans/XrefScannerLowLevel.cs:44-66 | the output is the targets of the contributing instructions before the first Return, in order: Branch/ConditionalBranch with nonzero target, or a non-branch ADR/ADRP into a register from a pc-relative operand with nonzero value |
| `XrefScannerLowLevel.CallAndIndirectTargetsCount` | Il2CppInterop.Common/XrefScans/XrefScannerLowLevel.cs:49-65 | with k contributing branches and m contributing ADR/ADRP before the first Return, the output has exactly k + m entries |
| `Examples.LoadThenCallExample` | Il2CppInterop.Common/XrefScans/XrefScanUtilFinder.cs:22-37 | for `LDR X0,[pc,#0x10]`@0x1000, `BL 0x2000`@0x1004, `RET`: the X0 finder gives 0x1010, and the scanner gives only `Method(0x2000, 0x1004)` |
| `Examples.CallThenMoveExample` | Il2CppInterop.Common/XrefScans/XrefScanUtilFinder.cs:64-75 | for `BL 0x3000`@0x2000, a pc-relative move of 0x4000, `RET`: the move finder gives 0x4000 |
| `Examples.FirstBranchEndsBlockExample` | Il2CppInterop.Common/XrefScans/XrefScannerLowLevel.cs:30 | two plain branches in a row yield only the first target |

Two consequences of the code that are easy to miss:

- Only `Method` xrefs are checked for a zero target (XrefScanner.cs:67). A `Global`
  xref with target 0 is emitted when `skipClassCheck` is set or the filter accepts 0
  (XrefScanner.cs:79-81), so `XrefScanImpl` promises nonzero targets for `Method`
  xrefs only.
- The after-call finder tests the move in the same iteration that sets `seenCall`.
  So an instruction that is both the matching call and a qualifying move
  answers for itself. `FindByteWriteAfterCall` allows `k == i`.

## Left out

- `XrefScan` and `UsedBy` (XrefScanner.cs:10-49): reflection, custom-attribute lookup, the cached scan database and an unsafe pointer read are all host calls.
- Byte decoding by Disarm (`Disassembler.Disassemble`): the decoder is an uninterpreted parameter. The length limit is passed to it unchanged (1000 by default, 1024*1024 for the bulk scan). The model does not assume how many instructions the decoder returns, and the scanners accept streams of any length.
- Disarm's enumeration layouts: `HasFlag` is modelled as set membership, with each category an independent flag. The field types Disarm does not show here are taken as signed `long` for immediates and `MemOffset`, and unsigned `ulong` for `Op0PcRelImm`/`Op1PcRelImm`.
- `nint`/`IntPtr` is 64 bits wide, as on every ARM64 target. Pointers are `int64`, and comparisons with `callTarget` compare bit patterns.
- Logging of filter exceptions (XrefScanner.cs:86): a side effect only.
- The body of the host's global-class filter: it is a parameter.
- Laziness of `IEnumerable`: the scanners produce finite sequences. A consumer that stops early sees a prefix (`XrefScanPrefix`).
- Short-circuiting of `skipClassCheck || filter(...)`: the filter is pure here, so whether it is called is not observable.
