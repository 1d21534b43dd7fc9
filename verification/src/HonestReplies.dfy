/** What the client is shown when the simulator tells the truth: registers, stack frames and steps. */
module HonestReplies {
  import opened Wrappers
  import opened Machine
  import F = Frame
  import opened DebugIndex
  import opened Registers
  import T = Target
  import opened BreakpointStore
  import opened StoreRuns
  import opened CpuRegistry
  import opened Text
  import MemoryRefs
  import opened Debugger

  // What the simulator holds while a request is handled.
  datatype Holdings = Holdings(
    pcs: CpuId -> Address,
    general: (CpuId, uint64) -> uint64,
    csrs: (CpuId, uint64) -> uint64)

  // An accepted read answers what is held.
  predicate Tells(e: T.Exchange, h: Holdings) {
    T.Accepted(e.reply) ==>
      match e.request
      case ReadPC(cpu) => e.reply.value.arg0 == h.pcs(cpu)
      case ReadGeneralRegister(cpu, reg) => e.reply.value.arg0 == h.general(cpu, reg)
      case ReadCsr(cpu, csr) => e.reply.value.arg0 == h.csrs(cpu, csr)
      case _ => true
  }

  // All exchanges from `t` to `u` do.
  predicate AllTell(t: T.Target, u: T.Target, h: Holdings) {
    t.trace <= u.trace && forall i :: |t.trace| <= i < |u.trace| ==> Tells(u.trace[i], h)
  }

  // The machine's make-up

  // The answer to a question about the configuration is true. Its status is not looked at.
  predicate TellsMachine(e: T.Exchange, cpuCount: uint64, archs: CpuId -> CpuArch) {
    e.reply.Ok? ==>
      match e.request
      case GetConfig => e.reply.value.arg0 == cpuCount
      case GetCpuInfo(cpu) => T.IsArchCode(e.reply.value.arg0, archs(cpu))
      case _ => true
  }

  predicate AllTellMachine(trace: seq<T.Exchange>, cpuCount: uint64, archs: CpuId -> CpuArch) {
    forall i :: 0 <= i < |trace| ==> TellsMachine(trace[i], cpuCount, archs)
  }

  lemma CodeMeansOne(w: uint64, a: CpuArch, b: CpuArch)
    requires T.IsArchCode(w, a) && T.IsArchCode(w, b)
    ensures a == b
  {
  }

  // The configuration known is the machine's, in every state a run can reach.
  lemma ConfigIsTrue(t: T.Target, cpuCount: uint64, archs: CpuId -> CpuArch)
    requires Told(t) && t.config.Some? && AllTellMachine(t.trace, cpuCount, archs)
    ensures t.config.value.cpuCount == cpuCount
    ensures forall cpu: CpuId :: cpu in t.config.value.cpuToArch <==> cpu < cpuCount
    ensures forall cpu: CpuId :: cpu < cpuCount ==> t.config.value.cpuToArch[cpu] == archs(cpu)
  {
    var n: nat :| ToldAt(t.config.value, t.trace, n);
    hide T.IsArchCode;
    assert TellsMachine(t.trace[n], cpuCount, archs);
    forall cpu: CpuId | cpu < cpuCount
      ensures t.config.value.cpuToArch[cpu] == archs(cpu)
    {
      assert cpu in t.config.value.cpuToArch;
      var e := t.trace[n + 1 + cpu];
      assert TellsMachine(e, cpuCount, archs);
      CodeMeansOne(e.reply.value.arg0, t.config.value.cpuToArch[cpu], archs(cpu));
    }
  }

  lemma GetConfigKnows(t: T.Target)
    requires T.GetConfig(t).1.Ok?
    ensures T.GetConfig(t).0.config == Some(T.GetConfig(t).1.value)
  {
    hide T.ReadArchs;
  }

  // The architecture found out for a CPU is the CPU's own, after any run from the start.
  lemma KnownArchIsTrue(st: State, inputs: seq<Input>, cpu: CpuId, cpuCount: uint64, archs: CpuId -> CpuArch)
    requires Consistent(st.core.target) && Told(st.core.target)
    requires var t := Run(st, inputs).state.core.target;
             T.KnownArch(t, cpu).1.Ok? && AllTellMachine(T.KnownArch(t, cpu).0.trace, cpuCount, archs)
    ensures var t := Run(st, inputs).state.core.target;
            cpu < cpuCount && T.KnownArch(t, cpu).1 == Ok(archs(cpu)) && archs(cpu) != UnknownCpuArch
  {
    StoreOverRun(st, inputs);
    var t := Run(st, inputs).state.core.target;
    hide Run, Consistent, AllTellMachine;
    GetConfigIsQuiet(t);
    var (u, r) := T.GetConfig(t);
    GetConfigKnows(t);
    hide T.GetConfig, Told;
    ConfigIsTrue(u, cpuCount, archs);
  }

  // The program counter

  lemma PcIsRead(t: T.Target, cpu: CpuId, h: Holdings)
    requires AllTell(t, T.ReadPc(t, cpu).0, h)
    ensures var (u, r) := T.ReadPc(t, cpu);
            && u == t.(script := u.script, trace := t.trace + [T.Exchange(F.ReadPC(cpu), T.NextReply(t))])
            && (if T.Accepted(T.NextReply(t)) then r == Ok(h.pcs(cpu)) else r.Err?)
  {
    var u := T.ReadPc(t, cpu).0;
    assert Tells(u.trace[|t.trace|], h);
  }

  // Where an address is: in the last row at the greatest address of the line table not
  // above it, or nowhere.
  ghost predicate IsPlaceOf(log: seq<Row>, a: Address, path: Option<Path>, line: LineNo) {
    match path
    case Some(p) => exists i: nat :: IsFloorRow(log, a, i) && log[i].path == p && log[i].line == line
    case None => line == 0 && forall i :: 0 <= i < |log| ==> a < log[i].address
  }

  // The frame of a thread is where its CPU's program counter is.
  lemma StackTraceShowsPc(c: Core, thread: int64, cpu: CpuId, h: Holdings, log: seq<Row>)
    requires ThreadToCpu(thread) == Some(cpu)
    requires Indexes(c.target.index, log) && FileCount(log) <= TWO_TO_32
    requires AllTell(c.target, HandleStackTrace(c, thread).0.target, h)
    ensures var (d, r) := HandleStackTrace(c, thread);
            && d.target.trace == c.target.trace + [T.Exchange(F.ReadPC(cpu), T.NextReply(c.target))]
            && (r.Ok? <==> T.Accepted(T.NextReply(c.target)))
            && (r.Ok? ==>
                  r.value.body.StackTraceBody? && r.value.body.frame == ThreadToFrame(thread) &&
                  IsPlaceOf(log, h.pcs(cpu), r.value.body.path, r.value.body.line))
  {
    PcIsRead(c.target, cpu, h);
    ResolveIsFloorScan(log, c.target.index, h.pcs(cpu));
    hide ResolveAddress, Indexes, IsFloorRow, T.ReadPc, Tells, FileCount;
  }

  // Stepping over

  predicate Refuses(e: T.Exchange, b: Address) {
    e.request == F.SetCodeBreakpoint(b) && !T.Accepted(e.reply)
  }

  // An attempt to set a breakpoint in line `j` that did not succeed: the line has no
  // address, or the simulator did not accept the breakpoint.
  ghost predicate PassedOver(t: T.Target, u: T.Target, path: Path, line: LineNo, j: nat) {
    match GetAddress(t.index, path, WrapI64(line + j))
    case None => true
    case Some(b) => exists i :: |t.trace| <= i < |u.trace| && Refuses(u.trace[i], b)
  }

  lemma SetPasses(t: T.Target, path: Path, line: LineNo, j: nat)
    requires T.SetCodeBp(t, path, WrapI64(line + j)).1.Err?
    ensures PassedOver(t, T.SetCodeBp(t, path, WrapI64(line + j)).0, path, line, j)
  {
    var b := GetAddress(t.index, path, WrapI64(line + j));
    var u := T.SetCodeBp(t, path, WrapI64(line + j)).0;
    hide GetAddress, WrapI64;
    if b.Some? {
      assert Refuses(u.trace[|t.trace|], b.value);
    }
  }

  lemma PassedEarlier(t: T.Target, v: T.Target, w: T.Target, u: T.Target, path: Path, line: LineNo, j: nat)
    requires t.index == v.index && t.trace <= v.trace <= w.trace <= u.trace && PassedOver(v, w, path, line, j)
    ensures PassedOver(t, u, path, line, j)
  {
    hide GetAddress, Refuses;
  }

  lemma {:induction false} SearchFindsLine(t: T.Target, path: Path, line: LineNo, from: nat)
    ensures var (u, outcome) := Search(t, path, line, from);
            && u.index == t.index && t.trace <= u.trace
            && (outcome.Found? ==>
                  && from <= outcome.offset < STEP_OVER_LINE_SEARCH_LIMIT
                  && GetAddress(t.index, path, WrapI64(line + outcome.offset)) == Some(outcome.address)
                  && outcome.address in u.bpsAddresses
                  && forall j: nat :: from <= j < outcome.offset ==> PassedOver(t, u, path, line, j))
    decreases STEP_OVER_LINE_SEARCH_LIMIT - from
  {
    if from < STEP_OVER_LINE_SEARCH_LIMIT {
      var attempt := WrapI64(line + from);
      SetFrame(t, path, attempt);
      SetContinues(t, path, attempt);
      var (v, r) := T.SetCodeBp(t, path, attempt);
      if r.Err? {
        SetPasses(t, path, line, from);
      }
      hide T.SetCodeBp, GetAddress, Told, PassedOver;
      SearchFindsLine(v, path, line, from + 1);
      var (u, outcome) := Search(v, path, line, from + 1);
      if r.Err? && outcome.Found? {
        forall j: nat | from <= j < outcome.offset
          ensures PassedOver(t, u, path, line, j)
        {
          if j == from {
            PassedEarlier(t, t, v, u, path, line, j);
          } else {
            PassedEarlier(t, v, u, u, path, line, j);
          }
        }
      }
    }
  }

  // The step of this CPU now goes to line `line + k`, at address `a`.
  ghost predicate StepsTo(c: Core, d: Core, cpu: CpuId, path: Path, line: LineNo, k: nat, a: Address) {
    && 1 <= k < 20
    && GetAddress(c.target.index, path, WrapI64(line + k)) == Some(a)
    && d.stepBp == c.stepBp[cpu := a] && a in d.target.bpsAddresses
    && forall j: nat :: 1 <= j < k ==> PassedOver(c.target, d.target, path, line, j)
  }

  lemma ReadPcTells(e: T.Exchange, cpu: CpuId, h: Holdings)
    requires Tells(e, h) && e.request == F.ReadPC(cpu) && T.Accepted(e.reply)
    ensures e.reply.value.arg0 == h.pcs(cpu)
  {
  }

  lemma NextAsks(c: Core, thread: int64, cpu: CpuId)
    requires ThreadToCpu(thread) == Some(cpu)
    ensures var (d, r) := HandleNext(c, thread);
            && |c.target.trace| < |d.target.trace|
            && d.target.trace[|c.target.trace|] == T.Exchange(F.ReadPC(cpu), T.NextReply(c.target))
            && (r.Ok? || d.stepBp != c.stepBp ==> T.Accepted(T.NextReply(c.target)))
  {
    var (t, pc) := T.ReadPc(c.target, cpu);
    assert t.trace == c.target.trace + [T.Exchange(F.ReadPC(cpu), T.NextReply(c.target))];
    hide ResolveAddress, T.SetCodeBp, GetAddress, WrapI64, PassedOver;
    if pc.Ok? {
      var at := ResolveAddress(t.index, pc.value);
      if at.Some? {
        SearchFindsLine(t, at.value.0, at.value.1, 1);
      }
    }
  }

  // Where the counter that was answered is, the step goes on from there.
  lemma NextFinds(c: Core, thread: int64, cpu: CpuId)
    requires ThreadToCpu(thread) == Some(cpu) && T.Accepted(T.NextReply(c.target))
    requires HandleNext(c, thread).1.Ok? || HandleNext(c, thread).0.stepBp != c.stepBp
    ensures var (d, r) := HandleNext(c, thread);
            var at := ResolveAddress(c.target.index, T.NextReply(c.target).value.arg0);
            && at.Some?
            && d.target.trace != [] && d.target.trace[|d.target.trace| - 1].request == F.Resume
            && (r.Ok? <==> T.Accepted(d.target.trace[|d.target.trace| - 1].reply))
            && exists k: nat, a: Address :: StepsTo(c, d, cpu, at.value.0, at.value.1, k, a)
  {
    var (t, pc) := T.ReadPc(c.target, cpu);
    assert t.trace == c.target.trace + [T.Exchange(F.ReadPC(cpu), T.NextReply(c.target))];
    hide ResolveAddress, T.SetCodeBp, GetAddress, WrapI64, PassedOver, T.ReadPc;
    var (d, r) := HandleNext(c, thread);
    var at := ResolveAddress(t.index, pc.value);
    var (path, line) := at.value;
    SearchFindsLine(t, path, line, 1);
    var (u, outcome) := Search(t, path, line, 1);
    assert d.target.trace == u.trace + [T.Exchange(F.Resume, T.NextReply(u))];
    forall j: nat | 1 <= j < outcome.offset
      ensures PassedOver(c.target, d.target, path, line, j)
    {
      PassedEarlier(c.target, t, u, d.target, path, line, j);
    }
    assert StepsTo(c, d, cpu, path, line, outcome.offset, outcome.address);
  }

  // `next` asks for the program counter of its own CPU. It succeeds only by setting a
  // breakpoint in a later line of the file where that counter is, at most 19 lines on, all
  // lines between being passed over; it records the step for that CPU and then resumes.
  lemma NextStepsFromPc(c: Core, thread: int64, cpu: CpuId, h: Holdings)
    requires ThreadToCpu(thread) == Some(cpu)
    requires AllTell(c.target, HandleNext(c, thread).0.target, h)
    ensures var (d, r) := HandleNext(c, thread);
            |c.target.trace| < |d.target.trace| && d.target.trace[|c.target.trace|].request == F.ReadPC(cpu)
    ensures var (d, r) := HandleNext(c, thread);
            r.Ok? || d.stepBp != c.stepBp ==>
              && ResolveAddress(c.target.index, h.pcs(cpu)).Some?
              && var (path, line) := ResolveAddress(c.target.index, h.pcs(cpu)).value;
              && d.target.trace[|d.target.trace| - 1].request == F.Resume
              && (r.Ok? <==> T.Accepted(d.target.trace[|d.target.trace| - 1].reply))
              && exists k: nat, a: Address :: StepsTo(c, d, cpu, path, line, k, a)
  {
    hide HandleNext, ResolveAddress, Tells, StepsTo;
    NextAsks(c, thread, cpu);
    var (d, r) := HandleNext(c, thread);
    assert Tells(d.target.trace[|c.target.trace|], h);
    if r.Ok? || d.stepBp != c.stepBp {
      NextFinds(c, thread, cpu);
      ReadPcTells(d.target.trace[|c.target.trace|], cpu, h);
    }
  }

  // Registers

  // The reads of the general registers, in order, and the values they gave.
  // One read and the rest.
  lemma GeneralReadsUnfold(t: T.Target, cpu: CpuId, arch: CpuArch, reg: uint64)
    requires T.ReadGeneralFrom(t, cpu, arch, reg).1.Ok? && reg < GENERAL_REGISTER_COUNT
    ensures var u := T.AfterSend(t, F.ReadGeneralRegister(cpu, reg));
            var (v, rest) := T.ReadGeneralFrom(u, cpu, arch, reg + 1);
            var reply := T.NextReply(t);
            && u.trace == t.trace + [T.Exchange(F.ReadGeneralRegister(cpu, reg), reply)]
            && rest.Ok? && reply.Ok? && RegName(arch, reg).Some?
            && T.ReadGeneralFrom(t, cpu, arch, reg) ==
               (v, Ok([T.Register(RegName(arch, reg).value, reply.value.arg0)] + rest.value))
    ensures reg + 1 == GENERAL_REGISTER_COUNT ==>
              var u := T.AfterSend(t, F.ReadGeneralRegister(cpu, reg));
              T.ReadGeneralFrom(u, cpu, arch, reg + 1) == (u, Ok([]))
  {
    hide RegName;
  }

  lemma {:induction false} GeneralReads(t: T.Target, cpu: CpuId, arch: CpuArch, reg: uint64, i: nat)
    requires T.ReadGeneralFrom(t, cpu, arch, reg).1.Ok? && reg + i < GENERAL_REGISTER_COUNT
    ensures var (u, r) := T.ReadGeneralFrom(t, cpu, arch, reg);
            && t.trace <= u.trace && |r.value| == GENERAL_REGISTER_COUNT - reg
            && |u.trace| == |t.trace| + GENERAL_REGISTER_COUNT - reg
            && var e := u.trace[|t.trace| + i];
            && e.request == F.ReadGeneralRegister(cpu, reg + i)
            && e.reply.Ok? && r.value[i].value == e.reply.value.arg0
            && RegName(arch, reg + i) == Some(r.value[i].name)
    decreases GENERAL_REGISTER_COUNT - reg
  {
    hide RegName, T.ReadGeneralFrom, T.AfterSend, T.NextReply;
    GeneralReadsUnfold(t, cpu, arch, reg);
    if reg + 1 < GENERAL_REGISTER_COUNT {
      var u := T.AfterSend(t, F.ReadGeneralRegister(cpu, reg));
      GeneralReads(u, cpu, arch, reg + 1, if i > 0 then i - 1 else 0);
    }
  }

  lemma CsrReadsUnfold(t: T.Target, cpu: CpuId, arch: CpuArch, ids: seq<uint64>)
    requires T.ReadCsrsFrom(t, cpu, arch, ids).1.Ok? && ids != []
    ensures var u := T.AfterSend(t, F.ReadCsr(cpu, ids[0]));
            var (v, rest) := T.ReadCsrsFrom(u, cpu, arch, ids[1..]);
            var reply := T.NextReply(t);
            && u.trace == t.trace + [T.Exchange(F.ReadCsr(cpu, ids[0]), reply)]
            && rest.Ok? && T.Accepted(reply) && CsrName(arch, ids[0]).Some?
            && T.ReadCsrsFrom(t, cpu, arch, ids) ==
               (v, Ok([T.Register(CsrName(arch, ids[0]).value, reply.value.arg0)] + rest.value))
    ensures |ids| == 1 ==>
              var u := T.AfterSend(t, F.ReadCsr(cpu, ids[0]));
              T.ReadCsrsFrom(u, cpu, arch, ids[1..]) == (u, Ok([]))
  {
    hide CsrName;
  }

  lemma {:induction false} CsrReads(t: T.Target, cpu: CpuId, arch: CpuArch, ids: seq<uint64>, i: nat)
    requires T.ReadCsrsFrom(t, cpu, arch, ids).1.Ok? && i < |ids|
    ensures var (u, r) := T.ReadCsrsFrom(t, cpu, arch, ids);
            && t.trace <= u.trace && |r.value| == |ids| && |u.trace| == |t.trace| + |ids|
            && var e := u.trace[|t.trace| + i];
            && e.request == F.ReadCsr(cpu, ids[i])
            && T.Accepted(e.reply) && r.value[i].value == e.reply.value.arg0
            && CsrName(arch, ids[i]) == Some(r.value[i].name)
    decreases |ids|
  {
    hide CsrName, T.ReadCsrsFrom, T.AfterSend, T.NextReply;
    CsrReadsUnfold(t, cpu, arch, ids);
    if |ids| > 1 {
      var u := T.AfterSend(t, F.ReadCsr(cpu, ids[0]));
      CsrReads(u, cpu, arch, ids[1..], if i > 0 then i - 1 else 0);
    }
  }

  // Shown as hexadecimal text and as a reference into the CPU's memory.
  predicate Shows(v: Variable, cpu: CpuId, name: string, value: uint64) {
    v == Variable(name, ShowHex(value), MemoryRefs.ToString(MemoryRefs.Virtual(cpu, value)))
  }

  // The reply for the general registers has them all, by number, each under its name. What
  // is shown for a register is what the CPU holds there, unless its read was refused.
  lemma GeneralRegistersShown(c: Core, ref: int64, cpu: CpuId, h: Holdings, variables: seq<Variable>, i: nat)
    requires ResolveVarRef(ref) == Some(GeneralRegisters(cpu)) && i < GENERAL_REGISTER_COUNT
    requires HandleVariables(c, ref).1 == Reply(VariablesBody(variables))
    requires AllTell(c.target, HandleVariables(c, ref).0.target, h)
    ensures T.KnownArch(c.target, cpu).1.Ok? && |variables| == GENERAL_REGISTER_COUNT
    ensures var d := HandleVariables(c, ref).0;
            var arch := T.KnownArch(c.target, cpu).1.value;
            && RegName(arch, i).Some? && variables[i].name == RegName(arch, i).value
            && GENERAL_REGISTER_COUNT <= |d.target.trace|
            && var e := d.target.trace[|d.target.trace| - GENERAL_REGISTER_COUNT + i];
            && e.request == F.ReadGeneralRegister(cpu, i)
            && (T.Accepted(e.reply) ==> Shows(variables[i], cpu, variables[i].name, h.general(cpu, i)))
  {
    hide T.GetConfig, ResolveVarRef, ShowHex, MemoryRefs.ToString, RegName, Told, T.ReadGeneralFrom;
    var (t, arch) := T.KnownArch(c.target, cpu);
    GetConfigIsQuiet(c.target);
    var u := HandleVariables(c, ref).0.target;
    assert arch.Ok? && c.target.trace <= t.trace;
    GeneralReads(t, cpu, arch.value, 0, i);
    assert Tells(u.trace[|t.trace| + i], h);
  }

  // The reply for the CSRs has the program counter and then the architecture's CSRs, each
  // under its name and with what the CPU holds there.
  lemma CsrsShown(c: Core, ref: int64, cpu: CpuId, h: Holdings, variables: seq<Variable>, i: nat)
    requires ResolveVarRef(ref) == Some(CsrRegisters(cpu))
    requires HandleVariables(c, ref).1 == Reply(VariablesBody(variables)) && i < |variables|
    requires AllTell(c.target, HandleVariables(c, ref).0.target, h)
    ensures T.KnownArch(c.target, cpu).1.Ok?
    ensures var arch := T.KnownArch(c.target, cpu).1.value;
            var ids := CsrIds(arch);
            && |variables| == |ids| + 1
            && if i == 0 then Shows(variables[0], cpu, PC_NAME, h.pcs(cpu))
               else CsrName(arch, ids[i - 1]).Some? &&
                    Shows(variables[i], cpu, CsrName(arch, ids[i - 1]).value, h.csrs(cpu, ids[i - 1]))
  {
    hide T.GetConfig, ResolveVarRef, ShowHex, MemoryRefs.ToString, CsrName, CsrIds, Told;
    var (t, arch) := T.KnownArch(c.target, cpu);
    GetConfigIsQuiet(c.target);
    assert arch.Ok? && c.target.trace <= t.trace;
    var ids := CsrIds(arch.value);
    var (v, pc) := T.ReadPc(t, cpu);
    assert v.trace[|t.trace|] == T.Exchange(F.ReadPC(cpu), T.NextReply(t));
    var u := HandleVariables(c, ref).0.target;
    if ids == [] {
      assert T.ReadCsrsFrom(v, cpu, arch.value, ids) == (v, Ok([]));
    } else {
      CsrReads(v, cpu, arch.value, ids, 0);
    }
    hide T.ReadCsrsFrom;
    if i > 0 {
      CsrReads(v, cpu, arch.value, ids, i - 1);
    }
    assert u.trace[|t.trace|] == v.trace[|t.trace|];
    assert Tells(u.trace[|t.trace|], h);
    if i > 0 {
      assert Tells(u.trace[|v.trace| + i - 1], h);
    }
  }

  lemma {:induction false} ReadArchsMisses(t: T.Target, cpu: nat, count: uint64, archs: map<CpuId, CpuArch>)
    requires T.ReadArchs(t, cpu, count, archs).1.Err?
    ensures var u := T.ReadArchs(t, cpu, count, archs).0;
            |t.trace| < |u.trace| && u.trace[|u.trace| - 1].reply.Err? && u.config == t.config
    decreases count - cpu
  {
    var (u, r) := T.Send(t, F.GetCpuInfo(cpu));
    if r.Ok? {
      ReadArchsMisses(u, cpu + 1, count, archs[cpu := T.ReadArch(r.value.arg0)]);
    }
  }

  lemma GetConfigMisses(t: T.Target)
    requires T.GetConfig(t).1.Err?
    ensures var u := T.GetConfig(t).0;
            |t.trace| < |u.trace| && u.trace[|u.trace| - 1].reply.Err? && u.config.None?
  {
    var (u, r) := T.Send(t, F.GetConfig);
    if r.Ok? {
      ReadArchsMisses(u, 0, r.value.arg0, map[]);
      hide T.ReadArchs;
    }
  }

  // The threads are those of the machine's CPUs, or CPU 0's alone if the count is unknown.
  lemma ThreadsAreTrue(c: Core, cpuCount: uint64, archs: CpuId -> CpuArch)
    requires Told(c.target) && AllTellMachine(HandleThreads(c).0.target.trace, cpuCount, archs)
    ensures var (d, r) := HandleThreads(c);
            var count := if d.target.config.Some? then cpuCount else 1;
            r == Reply(ThreadsBody(seq(count, i requires 0 <= i < count => CpuToThread(i))))
    ensures HandleThreads(c).0.target.config.None? ==>
              exists i :: |c.target.trace| <= i < |HandleThreads(c).0.target.trace| &&
                HandleThreads(c).0.target.trace[i].reply.Err?
  {
    GetConfigIsQuiet(c.target);
    var (t, r) := T.GetConfig(c.target);
    if r.Ok? {
      GetConfigKnows(c.target);
      hide T.GetConfig, Told, AllTellMachine;
      ConfigIsTrue(t, cpuCount, archs);
    } else {
      GetConfigMisses(c.target);
      hide T.GetConfig, Told, AllTellMachine;
    }
    hide CpuToThread;
  }

  lemma GeneralReadsExtend(t: T.Target, cpu: CpuId, arch: CpuArch, reg: uint64)
    requires reg < GENERAL_REGISTER_COUNT && T.ReadGeneralFrom(t, cpu, arch, reg).1.Ok?
    ensures var u := T.ReadGeneralFrom(t, cpu, arch, reg).0;
            |t.trace| < |u.trace| && u.trace[|t.trace|].reply == T.NextReply(t)
  {
    var v := T.AfterSend(t, F.ReadGeneralRegister(cpu, reg));
    ReadGeneralIsQuiet(v, cpu, arch, reg + 1);
    hide Told;
    assert v.trace[|t.trace|] == T.Exchange(F.ReadGeneralRegister(cpu, reg), T.NextReply(t));
  }

  // A refused read of a general register is shown like an accepted one.
  lemma RefusedRegisterIsShown(cpu: CpuId, arch: CpuArch, status: F.ResponseStatus, w: uint64, script: seq<T.Reply>,
                               index: DwarfIndex)
    requires arch != UnknownCpuArch && status != F.StatusOk
    requires script != [] && script[0] == Ok(F.RawResponse(status, w, 0, 0))
    requires T.ReadGeneralFrom(T.NewTarget(index, script), cpu, arch, 0).1.Ok?
    ensures var (u, r) := T.ReadGeneralFrom(T.NewTarget(index, script), cpu, arch, 0);
            r.value != [] && RegName(arch, 0) == Some(r.value[0].name) && r.value[0].value == w &&
            u.trace != [] && u.trace[0].request == F.ReadGeneralRegister(cpu, 0) && !T.Accepted(u.trace[0].reply)
  {
    var t := T.NewTarget(index, script);
    GeneralReads(t, cpu, arch, 0, 0);
    GeneralReadsExtend(t, cpu, arch, 0);
    hide RegName, T.ReadGeneralFrom;
  }
}
