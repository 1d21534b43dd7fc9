/** What the client gets when it hands back the references and values it was given. */
module EndToEnd {
  import opened Wrappers
  import opened Machine
  import F = Frame
  import opened Registers
  import T = Target
  import opened BreakpointStore
  import opened StoreRuns
  import opened CpuRegistry
  import opened Text
  import MemoryRefs
  import opened MemoryReads
  import opened Debugger

  // The scopes of a CPU's frame are the CPU's registers exactly while the larger of the
  // two references fits a signed word.
  lemma ScopesReachCpuIff(cpu: CpuId)
    requires cpu + 1 < TWO_TO_63
    ensures var r := ScopesReply(ThreadToFrame(CpuToThread(cpu)));
            && r.Ok? && r.value.body.ScopesBody?
            && ((ResolveVarRef(r.value.body.general) == Some(GeneralRegisters(cpu)) &&
                 ResolveVarRef(r.value.body.csr) == Some(CsrRegisters(cpu)))
                <==> 10 * (cpu + 1) + 2 < TWO_TO_63)
  {
    ThreadRoundTripIff(cpu);
    ScopeRoundTripIff(GeneralRegisters(cpu));
    ScopeRoundTripIff(CsrRegisters(cpu));
    hide ResolveVarRef, RegScopeVarRef, CsrScopeVarRef, CpuToThread;
  }

  // Whatever the register, the text and the memory reference shown for it stand for the
  // same value, and the reference is into the memory of the scope's own CPU.
  lemma VariableShowsOneValue(c: Core, ref: int64, variables: seq<Variable>, j: nat) returns (scope: VarScope,
                              v: uint64)
    requires HandleVariables(c, ref).1 == Reply(VariablesBody(variables)) && j < |variables|
    ensures ResolveVarRef(ref) == Some(scope)
    ensures MemoryRefs.ParseValue(variables[j].value) == Some(v)
    ensures MemoryRefs.Parse(variables[j].memoryReference) == Some(MemoryRefs.Virtual(scope.cpu, v))
    ensures variables[j].memoryReference == MemoryRefs.ToString(MemoryRefs.Virtual(scope.cpu, v))
  {
    hide ReadScope, ResolveVarRef, MemoryRefs.Parse, MemoryRefs.ParseValue, MemoryRefs.ToString, ShowHex;
    scope := ResolveVarRef(ref).value;
    v := ReadScope(c.target, scope).1.value[j].value;
    MemoryRefs.MemoryRefRoundTrip(MemoryRefs.Virtual(scope.cpu, v));
    MemoryRefs.ValueTextRoundTrip(v);
  }

  // Signed addition of an offset moves the address by the offset, modulo 2^64.
  lemma OffsetMoves(base: Address, k: int64)
    ensures OffsetAddress(base, k) == WrapU64(base + k)
  {
    SignedSumWraps(base, k);
  }

  // A read through the text of a memory reference is a read of that reference's memory at
  // its address plus the offset, none meaning zero.
  lemma ReferenceReads(d: Core, m: MemoryRefs.MemoryRef, offset: Option<int64>, count: int64)
    requires 0 <= count
    ensures var a := WrapU64(m.base + if offset.Some? then offset.value else 0);
            var (t, data) := T.ReadMemory(d.target, SpaceOf(m), a, count);
            HandleReadMemory(d, MemoryRefs.ToString(m), offset, count) ==
            (d.(target := t),
             if data.Err? then Err(FromTargetError(data.error)) else Reply(ReadMemoryBody(ShowHex(a), data.value)))
  {
    hide MemoryRefs.Parse, MemoryRefs.ToString, OffsetAddress, WrapU64, ShowHex, T.ReadMemory;
    MemoryRefs.MemoryRefRoundTrip(m);
    OffsetMoves(m.base, if offset.Some? then offset.value else 0);
  }

  // With an honest simulator the bytes of the reference's memory at its address plus the
  // offset come back, unless the range reaches the top of the address space.
  lemma ReferenceReadsMemory(d: Core, m: MemoryRefs.MemoryRef, k: int64, count: int64, memory: nat -> uint8)
    requires 0 <= count
    requires var (e, r) := HandleReadMemory(d, MemoryRefs.ToString(m), Some(k), count);
             var space := if m.Physical? then T.PhysicalSpace else T.VirtualSpace(m.cpu);
             r.Ok? && AllHonest(e.target.trace, |d.target.trace|, space, memory)
    ensures var a := WrapU64(m.base + k);
            HandleReadMemory(d, MemoryRefs.ToString(m), Some(k), count).1 ==
            Reply(ReadMemoryBody(ShowHex(a), if a + count < TWO_TO_64 then MemoryBytes(memory, a, count) else []))
  {
    hide HandleReadMemory, MemoryRefs.ToString, WrapU64, ShowHex, T.ReadMemory, AllHonest, MemoryBytes;
    ReferenceReads(d, m, Some(k), count);
    var space := if m.Physical? then T.PhysicalSpace else T.VirtualSpace(m.cpu);
    ReadsRequestedBytes(d.target, space, WrapU64(m.base + k), count, memory);
  }

  // In particular those of a register's CPU at the register's value plus the offset.
  lemma RegisterReferenceReadsMemory(d: Core, cpu: CpuId, v: Address, k: int64, count: int64, memory: nat -> uint8)
    requires 0 <= count
    requires var (e, r) := HandleReadMemory(d, MemoryRefs.ToString(MemoryRefs.Virtual(cpu, v)), Some(k), count);
             r.Ok? && AllHonest(e.target.trace, |d.target.trace|, T.VirtualSpace(cpu), memory)
    ensures var a := WrapU64(v + k);
            HandleReadMemory(d, MemoryRefs.ToString(MemoryRefs.Virtual(cpu, v)), Some(k), count).1 ==
            Reply(ReadMemoryBody(ShowHex(a), if a + count < TWO_TO_64 then MemoryBytes(memory, a, count) else []))
  {
    hide HandleReadMemory, MemoryRefs.ToString, WrapU64, ShowHex, AllHonest, MemoryBytes;
    ReferenceReadsMemory(d, MemoryRefs.Virtual(cpu, v), k, count, memory);
  }

  // Writing back what was shown

  // General registers are listed by number, each under its name.
  lemma {:induction false} GeneralRegistersInOrder(t: T.Target, cpu: CpuId, arch: CpuArch, reg: uint64)
    requires T.ReadGeneralFrom(t, cpu, arch, reg).1.Ok?
    ensures var registers := T.ReadGeneralFrom(t, cpu, arch, reg).1.value;
            |registers| == (if reg < GENERAL_REGISTER_COUNT then GENERAL_REGISTER_COUNT - reg else 0) &&
            forall i :: 0 <= i < |registers| ==> RegName(arch, reg + i) == Some(registers[i].name)
    decreases GENERAL_REGISTER_COUNT - reg
  {
    hide RegName;
    if reg < GENERAL_REGISTER_COUNT {
      GeneralRegistersInOrder(T.AfterSend(t, F.ReadGeneralRegister(cpu, reg)), cpu, arch, reg + 1);
    }
  }

  lemma GeneralScopeNames(t: T.Target, cpu: CpuId, registers: seq<T.Register>)
    requires T.ReadGeneralRegs(t, cpu).1 == Ok(registers)
    ensures T.KnownArch(t, cpu).1.Ok? && |registers| == GENERAL_REGISTER_COUNT
    ensures forall j :: 0 <= j < |registers| ==> RegName(T.KnownArch(t, cpu).1.value, j) == Some(registers[j].name)
  {
    var (u, arch) := T.KnownArch(t, cpu);
    hide T.KnownArch, RegName, T.ReadGeneralFrom;
    GeneralRegistersInOrder(u, cpu, arch.value, 0);
  }

  // CSRs are listed in the order of the table, each under its name.
  lemma {:induction false} CsrsInOrder(t: T.Target, cpu: CpuId, arch: CpuArch, ids: seq<uint64>)
    requires T.ReadCsrsFrom(t, cpu, arch, ids).1.Ok?
    ensures var registers := T.ReadCsrsFrom(t, cpu, arch, ids).1.value;
            |registers| == |ids| && forall i :: 0 <= i < |ids| ==> CsrName(arch, ids[i]) == Some(registers[i].name)
    decreases |ids|
  {
    hide CsrName;
    if ids != [] {
      CsrsInOrder(T.AfterSend(t, F.ReadCsr(cpu, ids[0])), cpu, arch, ids[1..]);
    }
  }

  lemma CsrScopeNames(t: T.Target, cpu: CpuId, registers: seq<T.Register>)
    requires T.ReadCsrs(t, cpu).1 == Ok(registers)
    ensures T.KnownArch(t, cpu).1.Ok?
    ensures var arch := T.KnownArch(t, cpu).1.value;
            var ids := CsrIds(arch);
            |registers| == |ids| + 1 && registers[0].name == PC_NAME &&
            forall j :: 0 < j < |registers| ==> CsrName(arch, ids[j - 1]) == Some(registers[j].name)
  {
    var (u, arch) := T.KnownArch(t, cpu);
    hide T.KnownArch, CsrIds, CsrName, T.ReadCsrsFrom;
    CsrsInOrder(T.ReadPc(u, cpu).0, cpu, arch.value, CsrIds(arch.value));
  }

  // An architecture once found out is found again without asking.
  lemma KnownArchStays(t: T.Target, cpu: CpuId, v: T.Target)
    requires T.KnownArch(t, cpu).1.Ok? && Continues(T.KnownArch(t, cpu).0, v)
    ensures T.KnownArch(v, cpu) == (v, T.KnownArch(t, cpu).1)
  {
    hide T.ReadArchs;
  }

  lemma ScopeArchStays(t: T.Target, scope: VarScope, v: T.Target)
    requires ReadScope(t, scope).1.Ok? && Continues(ReadScope(t, scope).0, v)
    ensures T.KnownArch(t, scope.cpu).1.Ok? && T.KnownArch(v, scope.cpu) == (v, T.KnownArch(t, scope.cpu).1)
  {
    var (u, arch) := T.KnownArch(t, scope.cpu);
    hide T.KnownArch, Continues, CsrIds;
    var w := ReadScope(t, scope).0;
    assert Continues(u, w) by {
      match scope
      case GeneralRegisters(cpu) => ReadGeneralIsQuiet(u, cpu, arch.value, 0);
      case CsrRegisters(cpu) =>
        var (x, pc) := T.ReadPc(u, cpu);
        SendIsQuiet(u, F.ReadPC(cpu));
        ReadCsrsIsQuiet(x, cpu, arch.value, CsrIds(arch.value));
        ContinuesTrans(u, x, w);
    }
    ContinuesTrans(u, w, v);
    KnownArchStays(t, scope.cpu, v);
  }

  lemma VariablesHandled(st: State, number: int, ref: int64, scope: VarScope)
    requires ResolveVarRef(ref) == Some(scope)
    ensures var (t, registers) := ReadScope(st.core.target, scope);
            && HandleVariables(st.core, ref).0.target == t
            && Handle(st, DapRequest(number, Variables(ref))).0.core == HandleVariables(st.core, ref).0
            && (registers.Ok? ==>
                  HandleVariables(st.core, ref).1 == Reply(VariablesBody(ShowRegisters(scope.cpu, registers.value))))
  {
    hide ReadScope, ResolveVarRef, ShowRegisters, Finish;
  }

  // The reply to `variables`, and that the architecture found out for it stays known in
  // every later state of the run.
  lemma VariablesShowRegisters(st: State, number: int, ref: int64, scope: VarScope, registers: seq<T.Register>,
                               inputs: seq<Input>)
    requires Consistent(st.core.target)
    requires ResolveVarRef(ref) == Some(scope) && ReadScope(st.core.target, scope).1 == Ok(registers)
    ensures HandleVariables(st.core, ref).1 == Reply(VariablesBody(ShowRegisters(scope.cpu, registers)))
    ensures var d := Run(Handle(st, DapRequest(number, Variables(ref))).0, inputs).state.core.target;
            T.KnownArch(st.core.target, scope.cpu).1.Ok? &&
            T.KnownArch(d, scope.cpu) == (d, T.KnownArch(st.core.target, scope.cpu).1)
  {
    var event := DapRequest(number, Variables(ref));
    hide Handle, HandleVariables, T.KnownArch, ResolveVarRef, ShowRegisters, ReadScope, Consistent, Run;
    HandleKeepsConsistent(st, event);
    VariablesHandled(st, number, ref, scope);
    var u := Handle(st, event).0;
    StoreOverRun(u, inputs);
    ScopeArchStays(st.core.target, scope, Run(u, inputs).state.core.target);
  }

  // Submitting the name and text shown for general register j as a new value, in any later
  // state of the run, asks for one thing: write the value that was read to register j of
  // the same CPU. The reply shows the text again.
  lemma ShownValueIsWrittenBack(st: State, number: int, ref: int64, cpu: CpuId, registers: seq<T.Register>, j: nat,
                                inputs: seq<Input>)
    requires Consistent(st.core.target)
    requires ResolveVarRef(ref) == Some(GeneralRegisters(cpu)) &&
             T.ReadGeneralRegs(st.core.target, cpu).1 == Ok(registers)
    requires j < |registers|
    ensures HandleVariables(st.core, ref).1 == Reply(VariablesBody(ShowRegisters(cpu, registers)))
    ensures j < GENERAL_REGISTER_COUNT
    ensures var shown := ShowRegisters(cpu, registers)[j];
            var d := Run(Handle(st, DapRequest(number, Variables(ref))).0, inputs).state.core;
            var (e, r) := HandleSetVariable(d, ref, shown.name, shown.value);
            && e == d.(target := T.AfterSend(d.target, F.WriteGeneralRegister(cpu, j, registers[j].value)))
            && (r.Ok? ==> r == Reply(SetVariableBody(shown.value)))
  {
    VariablesShowRegisters(st, number, ref, GeneralRegisters(cpu), registers, inputs);
    MemoryRefs.ValueTextRoundTrip(registers[j].value);
    GeneralScopeNames(st.core.target, cpu, registers);
    GeneralNameIff(T.KnownArch(st.core.target, cpu).1.value, registers[j].name, j);
    hide Handle, Run, HandleVariables, T.KnownArch, MemoryRefs.ParseValue, ShowHex, ResolveVarRef, T.ReadGeneralRegs,
      RegName, NameToRegId, T.AfterSend;
  }

  // The same for the CSR scope, where the first entry is the program counter.
  lemma ShownCsrIsWrittenBack(st: State, number: int, ref: int64, cpu: CpuId, registers: seq<T.Register>, j: nat,
                              inputs: seq<Input>)
    requires Consistent(st.core.target)
    requires ResolveVarRef(ref) == Some(CsrRegisters(cpu)) && T.ReadCsrs(st.core.target, cpu).1 == Ok(registers)
    requires j < |registers|
    ensures HandleVariables(st.core, ref).1 == Reply(VariablesBody(ShowRegisters(cpu, registers)))
    ensures T.KnownArch(st.core.target, cpu).1.Ok?
    ensures var ids := CsrIds(T.KnownArch(st.core.target, cpu).1.value);
            |registers| == |ids| + 1 &&
            var shown := ShowRegisters(cpu, registers)[j];
            var value := registers[j].value;
            var d := Run(Handle(st, DapRequest(number, Variables(ref))).0, inputs).state.core;
            var (e, r) := HandleSetVariable(d, ref, shown.name, shown.value);
            && e == d.(target := T.AfterSend(d.target, if j == 0 then F.WritePC(cpu, value)
                                                       else F.WriteCsr(cpu, ids[j - 1], value)))
            && (r.Ok? ==> r == Reply(SetVariableBody(shown.value)))
  {
    VariablesShowRegisters(st, number, ref, CsrRegisters(cpu), registers, inputs);
    MemoryRefs.ValueTextRoundTrip(registers[j].value);
    CsrScopeNames(st.core.target, cpu, registers);
    var arch := T.KnownArch(st.core.target, cpu).1.value;
    hide CsrIds;
    if j > 0 {
      CsrNameIff(arch, registers[j].name, CsrIds(arch)[j - 1]);
    }
    hide Handle, Run, HandleVariables, T.KnownArch, MemoryRefs.ParseValue, ShowHex, ResolveVarRef, T.ReadCsrs,
      CsrName, NameToCsrAddr, T.AfterSend;
  }

  // Every CPU is listed as the thread that stands for it, as long as thread IDs do not wrap.
  lemma ThreadsStandForCpus(c: Core)
    ensures var r := HandleThreads(c).1;
            r.Ok? && r.value.body.ThreadsBody? &&
            var threads := r.value.body.threads;
            (T.CpuCount(c.target).1.Ok? ==> |threads| == T.CpuCount(c.target).1.value) &&
            forall i :: 0 <= i < |threads| ==>
              (ThreadToCpu(threads[i]) == Some(i) <==> i + 1 < TWO_TO_63)
  {
    var (t, counted) := T.CpuCount(c.target);
    var count := if counted.Ok? then counted.value else 1;
    var threads := seq(count, i requires 0 <= i < count => CpuToThread(i));
    assert HandleThreads(c).1 == Reply(ThreadsBody(threads));
    hide T.CpuCount, CpuToThread, ThreadToCpu;
    forall i | 0 <= i < |threads|
      ensures ThreadToCpu(threads[i]) == Some(i) <==> i + 1 < TWO_TO_63
    {
      ThreadRoundTripIff(i);
    }
  }

  lemma {:induction false} ArchsCoverCpus(t: T.Target, cpu: nat, count: uint64, archs: map<CpuId, CpuArch>)
    requires cpu <= count && forall i: CpuId :: i in archs <==> i < cpu
    requires T.ReadArchs(t, cpu, count, archs).1.Ok?
    ensures var (u, r) := T.ReadArchs(t, cpu, count, archs);
            (forall i: CpuId :: i in r.value <==> i < count) && |u.trace| == |t.trace| + count - cpu
    decreases count - cpu
  {
    if cpu < count {
      var (u, r) := T.Send(t, F.GetCpuInfo(cpu));
      ArchsCoverCpus(u, cpu + 1, count, archs[cpu := T.ReadArch(r.value.arg0)]);
    }
  }

  // The configuration knows the architecture of exactly the CPUs there are. Finding it out
  // takes one request and one per CPU; asking again takes none and answers the same.
  lemma ConfigCoversCpus(t: T.Target)
    requires t.config.None? && T.GetConfig(t).1.Ok?
    ensures var (u, r) := T.GetConfig(t);
            && (forall cpu: CpuId :: cpu in r.value.cpuToArch <==> cpu < r.value.cpuCount)
            && |u.trace| == |t.trace| + 1 + r.value.cpuCount
            && T.GetConfig(u) == (u, r)
  {
    var (u, r) := T.Send(t, F.GetConfig);
    ArchsCoverCpus(u, 0, r.value.arg0, map[]);
    hide T.ReadArchs;
  }
}
