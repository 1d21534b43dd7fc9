/** Thread, frame and variable references as numbers (src/debugger/core.rs). */
module CpuRegistry {
  import opened Wrappers
  import opened Machine

  datatype VarScope = GeneralRegisters(cpu: CpuId) | CsrRegisters(cpu: CpuId)

  function CpuToThread(cpu: CpuId): int64 {
    ToSigned(WrapU64(cpu + 1))
  }

  function ThreadToCpu(thread: int64): Option<CpuId> {
    if thread > 0 then Some(thread - 1) else None
  }

  // Frame and thread IDs are the same number.
  function ThreadToFrame(thread: int64): int64 { thread }

  function FrameToThread(frame: int64): int64 { frame }

  function RegScopeVarRef(frame: int64): int64 {
    WrapI64(frame * 10 + 1)
  }

  function CsrScopeVarRef(frame: int64): int64 {
    WrapI64(frame * 10 + 2)
  }

  function ResolveVarRef(ref: int64): Option<VarScope> {
    var cpu :- ThreadToCpu(FrameToThread(TruncDiv(ref, 10)));
    match TruncMod(ref, 10)
    case 1 => Some(GeneralRegisters(cpu))
    case 2 => Some(CsrRegisters(cpu))
    case _ => None
  }

  // The reference the client is given for a scope, starting from the CPU.
  function VarRefOf(scope: VarScope): int64 {
    var frame := ThreadToFrame(CpuToThread(scope.cpu));
    match scope
    case GeneralRegisters(_) => RegScopeVarRef(frame)
    case CsrRegisters(_) => CsrScopeVarRef(frame)
  }

  function Kind(scope: VarScope): int {
    match scope
    case GeneralRegisters(_) => 1
    case CsrRegisters(_) => 2
  }

  // A CPU is found again from its thread exactly when CPU + 1 fits a signed word.
  lemma ThreadRoundTripIff(cpu: CpuId)
    ensures ThreadToCpu(CpuToThread(cpu)) == Some(cpu) <==> cpu + 1 < TWO_TO_63
  {
  }

  lemma TruncTen(ref: int64)
    requires 0 <= ref
    ensures TruncDiv(ref, 10) == ref / 10 && TruncMod(ref, 10) == ref % 10
  {
  }

  // A reference resolves exactly when it is at least 11 and ends in 1 or 2.
  lemma ResolvesIff(ref: int64)
    ensures ResolveVarRef(ref).Some? <==> 11 <= ref && (ref % 10 == 1 || ref % 10 == 2)
    ensures ResolveVarRef(ref).Some? ==>
              var scope := ResolveVarRef(ref).value; 10 * (scope.cpu + 1) + Kind(scope) == ref
  {
    if 0 <= ref {
      TruncTen(ref);
      hide TruncDiv, TruncMod;
    }
  }

  lemma VarRefFits(scope: VarScope)
    requires 10 * (scope.cpu + 1) + Kind(scope) < TWO_TO_63
    ensures VarRefOf(scope) == 10 * (scope.cpu + 1) + Kind(scope)
  {
    hide WrapU64, WrapI64;
    WrapU64Fits(scope.cpu + 1);
    assert CpuToThread(scope.cpu) == scope.cpu + 1;
    assert VarRefOf(scope) == WrapI64((scope.cpu + 1) * 10 + Kind(scope));
    WrapI64Fits((scope.cpu + 1) * 10 + Kind(scope));
  }

  // The scope a reference resolves to encodes back to the reference.
  lemma ResolvedEncodesBack(ref: int64)
    requires ResolveVarRef(ref).Some?
    ensures VarRefOf(ResolveVarRef(ref).value) == ref
  {
    ResolvesIff(ref);
    hide ResolveVarRef, VarRefOf;
    VarRefFits(ResolveVarRef(ref).value);
  }

  // A scope is found again from its reference exactly when the reference does not wrap.
  lemma ScopeRoundTripIff(scope: VarScope)
    ensures ResolveVarRef(VarRefOf(scope)) == Some(scope) <==> 10 * (scope.cpu + 1) + Kind(scope) < TWO_TO_63
  {
    var ref := VarRefOf(scope);
    ResolvesIff(ref);
    if 10 * (scope.cpu + 1) + Kind(scope) < TWO_TO_63 {
      VarRefFits(scope);
      TruncTen(ref);
      hide TruncDiv, TruncMod, VarRefOf;
    } else {
      hide ResolveVarRef, VarRefOf;
    }
  }
}
