/** The store of breakpoints over whole runs of the event loop. */
module StoreRuns {
  import opened Wrappers
  import opened Machine
  import opened Interning
  import F = Frame
  import opened DebugIndex
  import opened Registers
  import T = Target
  import opened BreakpointStore
  import opened Reuse
  import opened CpuRegistry
  import opened Debugger
  import MemoryRefs
  import Runs

  lemma QuietRefl(t: T.Target)
    ensures Quiet(t, t)
  {
    hide Told;
  }

  lemma {:induction false} ReadArchsIsQuiet(t: T.Target, cpu: nat, count: uint64, archs: map<CpuId, CpuArch>)
    ensures Quiet(t, T.ReadArchs(t, cpu, count, archs).0)
    decreases count - cpu
  {
    QuietRefl(t);
    if cpu < count {
      var (u, r) := T.Send(t, F.GetCpuInfo(cpu));
      SendIsQuiet(t, F.GetCpuInfo(cpu));
      hide Quiet;
      if r.Ok? {
        ReadArchsIsQuiet(u, cpu + 1, count, archs[cpu := T.ReadArch(r.value.arg0)]);
        QuietTrans(t, u, T.ReadArchs(u, cpu + 1, count, archs[cpu := T.ReadArch(r.value.arg0)]).0);
      }
    }
  }

  // One more answer about an architecture.
  lemma ToldMore(archs: map<CpuId, CpuArch>, cpu: CpuId, trace: seq<T.Exchange>, n: nat, e: T.Exchange)
    requires |trace| == n + 1 + cpu && ToldArchs(archs, cpu, trace, n)
    requires e.request == F.GetCpuInfo(cpu) && e.reply.Ok?
    ensures ToldArchs(archs[cpu := T.ReadArch(e.reply.value.arg0)], cpu + 1, trace + [e], n)
  {
    T.ReadArchIff(e.reply.value.arg0, T.ReadArch(e.reply.value.arg0));
    hide T.IsArchCode, T.ReadArch;
  }

  lemma {:induction false} ReadArchsTells(t: T.Target, cpu: nat, count: uint64, archs: map<CpuId, CpuArch>, n: nat)
    requires cpu <= count && |t.trace| == n + 1 + cpu && ToldArchs(archs, cpu, t.trace, n)
    requires T.ReadArchs(t, cpu, count, archs).1.Ok?
    ensures var (u, r) := T.ReadArchs(t, cpu, count, archs);
            t.trace <= u.trace && ToldArchs(r.value, count, u.trace, n)
    decreases count - cpu
  {
    if cpu < count {
      var (u, r) := T.Send(t, F.GetCpuInfo(cpu));
      ToldMore(archs, cpu, t.trace, n, T.Exchange(F.GetCpuInfo(cpu), T.NextReply(t)));
      hide ToldArchs, T.ReadArch;
      ReadArchsTells(u, cpu + 1, count, archs[cpu := T.ReadArch(r.value.arg0)], n);
    }
  }

  lemma GetConfigTells(t: T.Target)
    requires t.config.None? && T.GetConfig(t).1.Ok?
    ensures Told(T.GetConfig(t).0)
  {
    var (u, r) := T.Send(t, F.GetConfig);
    ReadArchsTells(u, 0, r.value.arg0, map[], |t.trace|);
    hide T.ReadArchs, ToldArchs;
    var v := T.GetConfig(t).0;
    assert v.trace[|t.trace|] == u.trace[|t.trace|];
    assert ToldAt(v.config.value, v.trace, |t.trace|);
  }

  lemma GetConfigIsQuiet(t: T.Target)
    ensures Quiet(t, T.GetConfig(t).0)
  {
    QuietRefl(t);
    var (u, r) := T.Send(t, F.GetConfig);
    SendIsQuiet(t, F.GetConfig);
    if t.config.None? && r.Ok? {
      ReadArchsIsQuiet(u, 0, r.value.arg0, map[]);
      var (v, archs) := T.ReadArchs(u, 0, r.value.arg0, map[]);
      QuietTrans(t, u, v);
      if archs.Ok? {
        GetConfigTells(t);
      }
      hide T.ReadArchs, Told;
    }
  }

  lemma {:induction false} ReadGeneralIsQuiet(t: T.Target, cpu: CpuId, arch: CpuArch, reg: uint64)
    ensures Quiet(t, T.ReadGeneralFrom(t, cpu, arch, reg).0)
    decreases GENERAL_REGISTER_COUNT - reg
  {
    QuietRefl(t);
    hide RegName;
    if reg < GENERAL_REGISTER_COUNT && RegName(arch, reg).Some? {
      var u := T.AfterSend(t, F.ReadGeneralRegister(cpu, reg));
      SendIsQuiet(t, F.ReadGeneralRegister(cpu, reg));
      hide Quiet;
      ReadGeneralIsQuiet(u, cpu, arch, reg + 1);
      QuietTrans(t, u, T.ReadGeneralFrom(u, cpu, arch, reg + 1).0);
    }
  }

  lemma {:induction false} ReadCsrsIsQuiet(t: T.Target, cpu: CpuId, arch: CpuArch, ids: seq<uint64>)
    ensures Quiet(t, T.ReadCsrsFrom(t, cpu, arch, ids).0)
    decreases |ids|
  {
    QuietRefl(t);
    hide CsrName;
    if ids != [] {
      var u := T.AfterSend(t, F.ReadCsr(cpu, ids[0]));
      SendIsQuiet(t, F.ReadCsr(cpu, ids[0]));
      hide Quiet;
      ReadCsrsIsQuiet(u, cpu, arch, ids[1..]);
      QuietTrans(t, u, T.ReadCsrsFrom(u, cpu, arch, ids[1..]).0);
    }
  }

  lemma {:induction false} ReadFromIsQuiet(t: T.Target, space: T.Space, pos: nat, end: Address)
    ensures Quiet(t, T.ReadFrom(t, space, pos, end).0)
    decreases end - pos
  {
    QuietRefl(t);
    if pos < end {
      var u := T.AfterSend(t, T.ReadRequest(space, pos));
      SendIsQuiet(t, T.ReadRequest(space, pos));
      hide Quiet;
      ReadFromIsQuiet(u, space, pos + T.STEP, end);
      QuietTrans(t, u, T.ReadFrom(u, space, pos + T.STEP, end).0);
    }
  }

  lemma ReadScopeIsQuiet(t: T.Target, scope: VarScope)
    ensures Quiet(t, ReadScope(t, scope).0)
  {
    GetConfigIsQuiet(t);
    var (u, arch) := T.KnownArch(t, scope.cpu);
    hide T.GetConfig, Quiet;
    if arch.Ok? {
      match scope
      case GeneralRegisters(cpu) =>
        ReadGeneralIsQuiet(u, cpu, arch.value, 0);
        QuietTrans(t, u, T.ReadGeneralFrom(u, cpu, arch.value, 0).0);
      case CsrRegisters(cpu) =>
        var (v, pc) := T.ReadPc(u, cpu);
        SendIsQuiet(u, F.ReadPC(cpu));
        QuietTrans(t, u, v);
        ReadCsrsIsQuiet(v, cpu, arch.value, CsrIds(arch.value));
        QuietTrans(t, v, T.ReadCsrsFrom(v, cpu, arch.value, CsrIds(arch.value)).0);
    }
  }

  lemma WriteScopeIsQuiet(t: T.Target, scope: VarScope, name: string, value: uint64)
    ensures Quiet(t, WriteScope(t, scope, name, value).0)
  {
    GetConfigIsQuiet(t);
    var (u, arch) := T.KnownArch(t, scope.cpu);
    hide T.GetConfig, Quiet, NameToRegId, NameToCsrAddr;
    SendIsQuiet(t, F.WritePC(scope.cpu, value));
    if arch.Ok? {
      var reg, csr := NameToRegId(arch.value, name), NameToCsrAddr(arch.value, name);
      var request := if scope.GeneralRegisters? && reg.Some? then F.WriteGeneralRegister(scope.cpu, reg.value, value)
                     else if csr.Some? then F.WriteCsr(scope.cpu, csr.value, value)
                     else F.WritePC(scope.cpu, value);
      SendIsQuiet(u, request);
      QuietTrans(t, u, T.AfterSend(u, request));
    }
    hide T.AfterSend;
  }

  // Requests other than `setBreakpoints` and `next`

  lemma VariablesAreQuiet(c: Core, ref: int64)
    ensures Quiet(c.target, HandleVariables(c, ref).0.target)
  {
    QuietRefl(c.target);
    var scope := ResolveVarRef(ref);
    if scope.Some? {
      ReadScopeIsQuiet(c.target, scope.value);
    }
    hide ReadScope, Quiet, ResolveVarRef, ShowRegisters;
  }

  lemma SetVariableIsQuiet(c: Core, ref: int64, name: string, text: string)
    ensures Quiet(c.target, HandleSetVariable(c, ref, name, text).0.target)
  {
    QuietRefl(c.target);
    var scope, value := ResolveVarRef(ref), MemoryRefs.ParseValue(text);
    if scope.Some? && value.Some? {
      WriteScopeIsQuiet(c.target, scope.value, name, value.value);
    }
    hide WriteScope, Quiet, ResolveVarRef, MemoryRefs.ParseValue;
  }

  lemma ReadMemoryIsQuiet(c: Core, reference: string, offset: Option<int64>, count: int64)
    ensures Quiet(c.target, HandleReadMemory(c, reference, offset, count).0.target)
  {
    QuietRefl(c.target);
    hide T.ReadFrom, WrapU64, Quiet, MemoryRefs.Parse, OffsetAddress;
    var m := MemoryRefs.Parse(reference);
    if m.Some? && 0 <= count {
      var a := OffsetAddress(m.value.base, if offset.Some? then offset.value else 0);
      ReadFromIsQuiet(c.target, SpaceOf(m.value), a, WrapU64(a + count));
    }
  }

  lemma ThreadsAreQuiet(c: Core)
    ensures Quiet(c.target, HandleThreads(c).0.target)
  {
    GetConfigIsQuiet(c.target);
    hide T.GetConfig, Quiet, CpuToThread;
  }

  lemma CommandIsQuiet(c: Core, request: F.Request, body: Body)
    requires !IsBpRequest(request)
    ensures Quiet(c.target, HandleCommand(c, request, body).0.target) && Quiet(c.target, T.AfterSend(c.target, request))
  {
    SendIsQuiet(c.target, request);
    hide Quiet, T.AfterSend;
  }

  lemma StackTraceIsQuiet(c: Core, thread: int64)
    ensures Quiet(c.target, HandleStackTrace(c, thread).0.target)
  {
    QuietRefl(c.target);
    var cpu := ThreadToCpu(thread);
    if cpu.Some? {
      SendIsQuiet(c.target, F.ReadPC(cpu.value));
    }
    hide Quiet, T.AfterSend, ResolveAddress;
  }

  lemma StepByIsQuiet(c: Core, thread: int64, body: Body)
    ensures Quiet(c.target, HandleStepBy(c, thread, body).0.target)
  {
    QuietRefl(c.target);
    var cpu := ThreadToCpu(thread);
    if cpu.Some? {
      var step := F.Step(cpu.value, 1);
      var t := T.AfterSend(c.target, step);
      SendIsQuiet(c.target, step);
      SendIsQuiet(t, F.Resume);
      QuietTrans(c.target, t, T.AfterSend(t, F.Resume));
    }
    hide Quiet, T.AfterSend;
  }

  lemma RequestIsQuiet(c: Core, command: Command)
    requires !command.SetBreakpoints? && !command.Next?
    ensures Quiet(c.target, HandleRequest(c, command).0.target)
  {
    QuietRefl(c.target);
    hide Quiet, HandleVariables, HandleSetVariable, HandleReadMemory, HandleThreads, HandleStackTrace,
      HandleStepBy, HandleCommand, T.AfterSend;
    match command
    case Variables(ref) => VariablesAreQuiet(c, ref);
    case SetVariable(ref, name, text) => SetVariableIsQuiet(c, ref, name, text);
    case ReadMemory(reference, offset, count) => ReadMemoryIsQuiet(c, reference, offset, count);
    case Threads => ThreadsAreQuiet(c);
    case StackTrace(thread) => StackTraceIsQuiet(c, thread);
    case StepIn(thread) => StepByIsQuiet(c, thread, StepInBody);
    case StepOut(thread) => StepByIsQuiet(c, thread, StepOutBody);
    case ConfigurationDone => CommandIsQuiet(c, F.Resume, ConfigurationDoneBody);
    case Continue => CommandIsQuiet(c, F.Resume, ContinueBody);
    case Pause => CommandIsQuiet(c, F.Pause, PauseBody);
    case Disconnect => SendIsQuiet(c.target, F.Terminate);
    case _ =>
  }

  // Consistency over whole runs

  lemma {:induction false} SearchKeepsConsistent(t: T.Target, path: Path, line: LineNo, from: nat)
    requires Consistent(t)
    ensures Follows(t, Search(t, path, line, from).0)
    decreases STEP_OVER_LINE_SEARCH_LIMIT - from
  {
    if from < STEP_OVER_LINE_SEARCH_LIMIT {
      SetKeepsConsistent(t, path, WrapI64(line + from));
      hide Consistent, T.SetCodeBp;
      var u := T.SetCodeBp(t, path, WrapI64(line + from)).0;
      SearchKeepsConsistent(u, path, line, from + 1);
      ContinuesTrans(t, u, Search(u, path, line, from + 1).0);
      hide Continues;
    }
  }

  lemma SendKeepsConsistent(t: T.Target, r: F.Request)
    requires Consistent(t) && !IsBpRequest(r)
    ensures Follows(t, T.AfterSend(t, r))
  {
    SendIsQuiet(t, r);
    QuietKeepsConsistent(t, T.AfterSend(t, r));
  }

  lemma NextKeepsConsistent(c: Core, thread: int64)
    requires Consistent(c.target)
    ensures Follows(c.target, HandleNext(c, thread).0.target)
  {
    var cpu := ThreadToCpu(thread);
    if cpu.Some? {
      SendKeepsConsistent(c.target, F.ReadPC(cpu.value));
      var (t, pc) := T.ReadPc(c.target, cpu.value);
      hide Consistent, ResolveAddress;
      if pc.Ok? && ResolveAddress(t.index, pc.value).Some? {
        var (path, line) := ResolveAddress(t.index, pc.value).value;
        SearchKeepsConsistent(t, path, line, 1);
        var u := Search(t, path, line, 1).0;
        SendKeepsConsistent(u, F.Resume);
        ContinuesTrans(c.target, t, u);
        ContinuesTrans(c.target, u, T.AfterSend(u, F.Resume));
        hide Continues, Search, T.ReadPc;
      }
    }
  }

  lemma SetBreakpointsReplaces(c: Core, path: Option<Path>, lines: seq<LineNo>, hash: seq<LineNo>)
    ensures HandleSetBreakpoints(c, path, lines, hash).0.target ==
            if path.Some? then T.ReplaceCodeBps(c.target, path.value, lines, hash).0 else c.target
  {
    hide T.ReplaceCodeBps, BreakpointInfos;
  }

  // A stop removes at most one breakpoint, not always the one of the step it ends.
  lemma StopRemoves(c: Core, cpu: CpuId, a: Address, reason: F.StoppedAtReason)
    ensures var t := HandleStoppedAt(c, cpu, a, reason).0.target;
            t == c.target || exists path, line :: t == T.RemoveCodeBp(c.target, path, line).0
  {
    hide T.RemoveCodeBp, ResolveAddress, T.ResolveCodeBp;
  }

  lemma RequestKeepsConsistent(c: Core, command: Command)
    requires Consistent(c.target)
    ensures Follows(c.target, HandleRequest(c, command).0.target)
  {
    match command
    case SetBreakpoints(path, lines, hash) =>
      SetBreakpointsReplaces(c, path, lines, hash);
      hide HandleSetBreakpoints, T.ReplaceCodeBps, Consistent;
      if path.Some? {
        ReplaceKeepsConsistent(c.target, path.value, lines, hash);
      }
    case Next(thread) =>
      NextKeepsConsistent(c, thread);
      hide HandleNext, Consistent;
    case _ =>
      RequestIsQuiet(c, command);
      QuietKeepsConsistent(c.target, HandleRequest(c, command).0.target);
      hide HandleRequest, Consistent;
  }

  lemma HandleKeepsConsistent(st: State, event: DebugEvent)
    requires Consistent(st.core.target)
    ensures Follows(st.core.target, Handle(st, event).0.core.target)
  {
    match event
    case DapRequest(_, command) =>
      RequestKeepsConsistent(st.core, command);
      hide HandleRequest, Finish, Consistent;
    case MsimEvent(e) =>
      if e.StoppedAt? {
        StopRemoves(st.core, e.cpu, e.address, e.reason);
        var t := HandleStoppedAt(st.core, e.cpu, e.address, e.reason).0.target;
        if path, line :| t == T.RemoveCodeBp(st.core.target, path, line).0 {
          RemoveKeepsConsistent(st.core.target, path, line);
        }
      }
      hide Sent, Consistent, HandleStoppedAt, T.RemoveCodeBp;
  }

  lemma StoreIsArmed(t: T.Target)
    requires Consistent(t)
    ensures t.bpsAddresses <= Armed(t.trace)
  {
    BelievedIsArmed(t.trace);
  }

  // In every run, whatever the simulator replies, the adapter believes exactly the
  // breakpoints set that its accepted and attempted requests leave, all of them are set in
  // the simulator, and it asks to set none that it believes set and to remove none that it
  // does not.
  lemma {:induction false} StoreOverRun(st: State, inputs: seq<Input>)
    requires Consistent(st.core.target)
    ensures var t := Run(st, inputs).state.core.target; Follows(st.core.target, t) && t.bpsAddresses <= Armed(t.trace)
    decreases |inputs|
  {
    hide Handle, Run, Consistent;
    if inputs == [] || inputs[0].Err? {
      Runs.RunOfNothing(st, inputs);
    } else {
      Runs.RunUnfolds(st, inputs);
      HandleKeepsConsistent(st, inputs[0].value);
      var (u, r) := Handle(st, inputs[0].value);
      if r.Ok? {
        StoreOverRun(u, inputs[1..]);
        ContinuesTrans(st.core.target, u.core.target, Run(u, inputs[1..]).state.core.target);
        hide Continues;
      }
    }
    StoreIsArmed(Run(st, inputs).state.core.target);
  }

  // A request of a run never removes a breakpoint that is not set in the simulator, and it
  // sets one that is set already exactly when a rejected or lost removal left that behind.
  lemma RequestsOfRunNeededIff(st: State, inputs: seq<Input>, k: nat)
    requires Consistent(st.core.target) && k < |Run(st, inputs).state.core.target.trace|
    ensures var trace := Run(st, inputs).state.core.target.trace;
            var r := trace[k].request;
            IsNeeded(Armed(trace[..k]), r) <==>
              (r.SetCodeBreakpoint? ==> !exists i: nat :: RemovalWasLost(trace[..k], r.address, i))
  {
    StoreOverRun(st, inputs);
    var trace := Run(st, inputs).state.core.target.trace;
    hide Run;
    DisciplinedAt(trace, k);
    NeededIff(trace[..k], trace[k].request);
  }

  // No request lists a line twice.
  ghost predicate ListsLinesOnce(input: Input) {
    input.Ok? && input.value.DapRequest? && input.value.command.SetBreakpoints? ==>
      NoDuplicates(input.value.command.lines)
  }

  // Unless a removal was rejected, the lists are tidy.
  ghost predicate TidyIfAccepted(t: T.Target) {
    RemovalsAccepted(t.trace) ==> Tidy(t)
  }

  lemma AcceptedBefore(t: T.Target, u: T.Target)
    requires Continues(t, u) && RemovalsAccepted(u.trace)
    ensures RemovalsAccepted(t.trace)
  {
    assert forall i :: 0 <= i < |t.trace| ==> t.trace[i] == u.trace[i];
  }

  lemma QuietKeepsTidy(t: T.Target, u: T.Target)
    requires Quiet(t, u) && Tidy(t)
    ensures Tidy(u)
  {
    hide IsStored, Continues;
    forall p
      ensures IsStored(T.OldEntries(u, p), u.bpsAddresses)
    {
      assert T.OldEntries(u, p) == T.OldEntries(t, p);
    }
  }

  lemma {:induction false} SearchKeepsTidy(t: T.Target, path: Path, line: LineNo, from: nat)
    requires Tidy(t)
    ensures Tidy(Search(t, path, line, from).0)
    decreases STEP_OVER_LINE_SEARCH_LIMIT - from
  {
    if from < STEP_OVER_LINE_SEARCH_LIMIT {
      SetKeepsTidy(t, path, WrapI64(line + from));
      hide Tidy, T.SetCodeBp;
      SearchKeepsTidy(T.SetCodeBp(t, path, WrapI64(line + from)).0, path, line, from + 1);
    }
  }

  lemma SendKeepsTidy(t: T.Target, r: F.Request)
    requires Tidy(t) && !IsBpRequest(r)
    ensures Tidy(T.AfterSend(t, r))
  {
    SendIsQuiet(t, r);
    QuietKeepsTidy(t, T.AfterSend(t, r));
  }

  lemma NextKeepsTidy(c: Core, thread: int64)
    requires Tidy(c.target)
    ensures Tidy(HandleNext(c, thread).0.target)
  {
    var cpu := ThreadToCpu(thread);
    if cpu.Some? {
      SendKeepsTidy(c.target, F.ReadPC(cpu.value));
      var (t, pc) := T.ReadPc(c.target, cpu.value);
      hide Tidy, ResolveAddress;
      if pc.Ok? && ResolveAddress(t.index, pc.value).Some? {
        var (path, line) := ResolveAddress(t.index, pc.value).value;
        SearchKeepsTidy(t, path, line, 1);
        SendKeepsTidy(Search(t, path, line, 1).0, F.Resume);
        hide Search, T.ReadPc;
      }
    }
  }

  lemma RequestKeepsTidy(c: Core, command: Command)
    requires Consistent(c.target) && Tidy(c.target) && NoSharedAddresses(c.target.index)
    requires command.SetBreakpoints? ==> NoDuplicates(command.lines)
    ensures Tidy(HandleRequest(c, command).0.target)
  {
    hide Consistent, Tidy, NoSharedAddresses;
    match command
    case SetBreakpoints(path, lines, hash) =>
      SetBreakpointsReplaces(c, path, lines, hash);
      hide HandleSetBreakpoints, T.ReplaceCodeBps;
      if path.Some? {
        ReplaceKeepsTidy(c.target, path.value, lines, hash);
      }
    case Next(thread) =>
      NextKeepsTidy(c, thread);
      hide HandleNext;
    case _ =>
      RequestIsQuiet(c, command);
      QuietKeepsTidy(c.target, HandleRequest(c, command).0.target);
      hide HandleRequest;
  }

  lemma StopKeepsTidy(c: Core, cpu: CpuId, a: Address, reason: F.StoppedAtReason)
    requires Consistent(c.target) && Tidy(c.target) && NoSharedAddresses(c.target.index)
    requires RemovalsAccepted(HandleStoppedAt(c, cpu, a, reason).0.target.trace)
    ensures Tidy(HandleStoppedAt(c, cpu, a, reason).0.target)
  {
    StopRemoves(c, cpu, a, reason);
    var t := HandleStoppedAt(c, cpu, a, reason).0.target;
    hide HandleStoppedAt, Tidy, NoSharedAddresses, T.RemoveCodeBp, RemovalsAccepted;
    if path, line :| t == T.RemoveCodeBp(c.target, path, line).0 {
      RemoveKeepsTidy(c.target, path, line);
    }
  }

  lemma HandleKeepsTidy(st: State, event: DebugEvent)
    requires Consistent(st.core.target) && NoSharedAddresses(st.core.target.index)
    requires TidyIfAccepted(st.core.target) && ListsLinesOnce(Ok(event))
    ensures TidyIfAccepted(Handle(st, event).0.core.target)
  {
    var t, u := st.core.target, Handle(st, event).0.core.target;
    HandleKeepsConsistent(st, event);
    if RemovalsAccepted(u.trace) {
      AcceptedBefore(t, u);
      hide Tidy, NoSharedAddresses, RemovalsAccepted, Consistent;
      match event {
        case DapRequest(_, command) =>
          RequestKeepsTidy(st.core, command);
          hide HandleRequest, Finish;
        case MsimEvent(e) =>
          hide HandleStoppedAt, Sent;
          if e.StoppedAt? {
            StopKeepsTidy(st.core, e.cpu, e.address, e.reason);
          }
      }
    }
  }

  // Over any run, as long as no two locations share an address, no request lists a line
  // twice and no removal was rejected, every listed breakpoint is set.
  lemma {:induction false} TidyOverRun(st: State, inputs: seq<Input>)
    requires Consistent(st.core.target) && NoSharedAddresses(st.core.target.index)
    requires TidyIfAccepted(st.core.target)
    requires forall i :: 0 <= i < |inputs| ==> ListsLinesOnce(inputs[i])
    ensures TidyIfAccepted(Run(st, inputs).state.core.target)
    decreases |inputs|
  {
    hide Handle, Run, Consistent, NoSharedAddresses, TidyIfAccepted;
    if inputs == [] || inputs[0].Err? {
      Runs.RunOfNothing(st, inputs);
    } else {
      Runs.RunUnfolds(st, inputs);
      HandleKeepsConsistent(st, inputs[0].value);
      HandleKeepsTidy(st, inputs[0].value);
      var (u, r) := Handle(st, inputs[0].value);
      if r.Ok? {
        TidyOverRun(u, inputs[1..]);
      }
    }
  }
}
