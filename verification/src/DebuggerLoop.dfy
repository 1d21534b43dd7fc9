/** The debugger object (src/debugger): its methods compute the functions of Debugger. */
module DebuggerLoop {
  import opened Wrappers
  import opened Machine
  import F = Frame
  import opened DebugIndex
  import T = Target
  import opened MsimTargets
  import B = Breakpoints
  import opened CpuRegistry
  import opened Text
  import MemoryRefs
  import D = Debugger

  class Debugger {
    var receiver: seq<D.Input>
    var session: D.Session
    const target: MsimTarget
    const registry: B.BpRegistry
    var stepBp: map<CpuId, Address>

    ghost function Core(): D.Core
      reads this, target, registry
    {
      D.Core(target.Value(), registry.Value(), stepBp)
    }

    ghost function State(): D.State
      reads this, target, registry
    {
      D.State(Core(), session)
    }

    constructor (receiver: seq<D.Input>, room: nat, target: MsimTarget)
      ensures this.receiver == receiver && this.target == target && fresh(registry)
      ensures State() == D.State(D.Core(target.Value(), B.EMPTY_REGISTRY, map[]), D.Session([], room))
    {
      this.receiver, this.session, this.target, this.stepBp := receiver, D.Session([], room), target, map[];
      this.registry := new B.BpRegistry();
    }

    method Send(m: D.Message) returns (r: Result<(), D.DebuggerError>)
      modifies this
      ensures (session, r) == D.Sent(old(session), m) && stepBp == old(stepBp) && receiver == old(receiver)
    {
      if session.room == 0 {
        return Err(D.DapError);
      }
      session := D.Session(session.out + [m], session.room - 1);
      r := Ok(());
    }

    // Request handlers

    method SetBreakpoints(path: Option<Path>, lines: seq<LineNo>, hash: seq<LineNo>) returns (r: D.HandlerResult)
      modifies this, target, registry
      ensures (Core(), r) == D.HandleSetBreakpoints(old(Core()), path, lines, hash)
      ensures session == old(session) && receiver == old(receiver)
    {
      if path.None? {
        return Err(D.RequestFailed);
      }
      hide T.ReplaceCodeBps;
      var results := target.ReplaceCodeBps(path.value, lines, hash);
      ghost var all := D.BreakpointInfos(registry.Value(), path.value, lines, results);
      var infos := [];
      PrependNothing(all);
      for i := 0 to if |lines| < |results| then |lines| else |results|
        invariant all == Prepend(infos, D.BreakpointInfos(registry.Value(), path.value, lines[i..], results[i..]))
        invariant target.Value() == T.ReplaceCodeBps(old(target.Value()), path.value, lines, hash).0
        invariant session == old(session) && receiver == old(receiver) && stepBp == old(stepBp)
      {
        assert lines[i..][1..] == lines[i + 1..] && results[i..][1..] == results[i + 1..];
        var id := None;
        if results[i].Ok? {
          var newId := registry.GetId(path.value, lines[i]);
          id := Some(newId);
        } else if results[i].error == T.SessionLost {
          return Err(D.SessionLost);
        }
        var info := D.BreakpointInfo(id, results[i].Ok?, lines[i]);
        PrependTwice(infos, [info], D.BreakpointInfos(registry.Value(), path.value, lines[i + 1..], results[i + 1..]));
        infos := infos + [info];
      }
      assert infos + [] == infos;
      r := D.Reply(D.SetBreakpointsBody(infos));
    }

    method Next(thread: int64) returns (r: D.HandlerResult)
      modifies this, target, registry
      ensures (Core(), r) == D.HandleNext(old(Core()), thread)
      ensures session == old(session) && receiver == old(receiver)
    {
      hide T.SetCodeBp, T.ReadPc, T.SendCommand, ResolveAddress, ThreadToCpu;
      var cpu := ThreadToCpu(thread);
      if cpu.None? {
        return Err(D.RequestFailed);
      }
      var pc := target.ReadPc(cpu.value);
      if pc.Err? {
        return Err(D.FromTargetError(pc.error));
      }
      var at := ResolveAddress(target.index, pc.value);
      if at.None? {
        return Err(D.RequestFailed);
      }
      var (path, line) := at.value;
      ghost var searched := D.Search(target.Value(), path, line, 1);
      for offset := 1 to D.STEP_OVER_LINE_SEARCH_LIMIT
        invariant searched == D.Search(target.Value(), path, line, offset)
        invariant session == old(session) && receiver == old(receiver) && stepBp == old(stepBp)
        invariant registry.Value() == old(registry.Value())
      {
        var attempt := target.SetCodeBp(path, WrapI64(line + offset));
        match attempt
        case Err(e) =>
          if e == T.SessionLost {
            return Err(D.SessionLost);
          }
        case Ok(address) =>
          stepBp := stepBp[cpu.value := address];
          var resumed := target.SendCommand(F.Resume);
          return D.ReplyIfOk(resumed, D.NextBody);
      }
      r := Err(D.RequestFailed);
    }

    method Variables(ref: int64) returns (r: D.HandlerResult)
      modifies this, target
      ensures (Core(), r) == D.HandleVariables(old(Core()), ref)
      ensures session == old(session) && receiver == old(receiver)
    {
      hide T.ReadGeneralRegs, T.ReadCsrs, ResolveVarRef;
      var scope := ResolveVarRef(ref);
      if scope.None? {
        return Err(D.RequestFailed);
      }
      var registers;
      match scope.value {
        case GeneralRegisters(cpu) => registers := target.ReadGeneralRegs(cpu);
        case CsrRegisters(cpu) => registers := target.ReadCsrs(cpu);
      }
      if registers.Err? {
        return Err(D.FromTargetError(registers.error));
      }
      r := D.Reply(D.VariablesBody(D.ShowRegisters(scope.value.cpu, registers.value)));
    }

    method SetVariable(ref: int64, name: string, text: string) returns (r: D.HandlerResult)
      modifies this, target
      ensures (Core(), r) == D.HandleSetVariable(old(Core()), ref, name, text)
      ensures session == old(session) && receiver == old(receiver)
    {
      hide T.WriteGeneralReg, T.WriteCsrReg, ResolveVarRef, MemoryRefs.ParseValue, ShowHex;
      var scope := ResolveVarRef(ref);
      if scope.None? {
        return Err(D.RequestFailed);
      }
      var value := MemoryRefs.ParseValue(text);
      if value.None? {
        return Err(D.RequestFailed);
      }
      var written;
      match scope.value {
        case GeneralRegisters(cpu) => written := target.WriteGeneralReg(cpu, name, value.value);
        case CsrRegisters(cpu) => written := target.WriteCsrReg(cpu, name, value.value);
      }
      r := D.ReplyIfOk(written, D.SetVariableBody(ShowHex(value.value)));
    }

    method ReadMemory(reference: string, offset: Option<int64>, count: int64) returns (r: D.HandlerResult)
      modifies this, target
      ensures (Core(), r) == D.HandleReadMemory(old(Core()), reference, offset, count)
      ensures session == old(session) && receiver == old(receiver)
    {
      hide T.ReadMemory, MemoryRefs.Parse, D.OffsetAddress, ShowHex;
      if count < 0 {
        return Err(D.RequestFailed);
      }
      var m := MemoryRefs.Parse(reference);
      if m.None? {
        return Err(D.RequestFailed);
      }
      var a := D.OffsetAddress(m.value.base, if offset.Some? then offset.value else 0);
      var data := target.ReadMemory(D.SpaceOf(m.value), a, count);
      if data.Err? {
        return Err(D.FromTargetError(data.error));
      }
      r := D.Reply(D.ReadMemoryBody(ShowHex(a), data.value));
    }

    method Threads() returns (r: D.HandlerResult)
      modifies this, target
      ensures (Core(), r) == D.HandleThreads(old(Core()))
      ensures session == old(session) && receiver == old(receiver)
    {
      hide T.CpuCount, CpuToThread;
      var counted := target.CpuCount();
      var count := if counted.Ok? then counted.value else 1;
      r := D.Reply(D.ThreadsBody(seq(count, i requires 0 <= i < count => CpuToThread(i))));
    }

    method StackTrace(thread: int64) returns (r: D.HandlerResult)
      modifies this, target
      ensures (Core(), r) == D.HandleStackTrace(old(Core()), thread)
      ensures session == old(session) && receiver == old(receiver)
    {
      hide T.ReadPc, ResolveAddress;
      var cpu := ThreadToCpu(thread);
      if cpu.None? {
        return Err(D.RequestFailed);
      }
      var pc := target.ReadPc(cpu.value);
      if pc.Err? {
        return Err(D.FromTargetError(pc.error));
      }
      match ResolveAddress(target.index, pc.value)
      case None => r := D.Reply(D.StackTraceBody(ThreadToFrame(thread), None, 0));
      case Some((path, line)) => r := D.Reply(D.StackTraceBody(ThreadToFrame(thread), Some(path), line));
    }

    method Command(request: F.Request, body: D.Body) returns (r: D.HandlerResult)
      modifies this, target
      ensures (Core(), r) == D.HandleCommand(old(Core()), request, body)
      ensures session == old(session) && receiver == old(receiver)
    {
      var done := target.SendCommand(request);
      r := D.ReplyIfOk(done, body);
    }

    method StepBy(thread: int64, body: D.Body) returns (r: D.HandlerResult)
      modifies this, target
      ensures (Core(), r) == D.HandleStepBy(old(Core()), thread, body)
      ensures session == old(session) && receiver == old(receiver)
    {
      hide T.StepBy;
      var cpu := ThreadToCpu(thread);
      if cpu.None? {
        return Err(D.RequestFailed);
      }
      var done := target.StepBy(cpu.value, 1);
      r := D.ReplyIfOk(done, body);
    }

    method HandleDapRequest(command: D.Command) returns (r: D.HandlerResult)
      modifies this, target, registry
      ensures (Core(), r) == D.HandleRequest(old(Core()), command)
      ensures session == old(session) && receiver == old(receiver)
    {
      hide D.HandleSetBreakpoints, D.HandleNext, D.HandleVariables, D.HandleSetVariable, D.HandleReadMemory,
        D.HandleThreads, D.HandleStackTrace, D.HandleCommand, D.HandleStepBy, T.Terminate;
      match command
      case Initialize => r := Ok(D.HandlerAction(D.InitializeBody, D.SendEvent(D.Initialized)));
      case Attach => r := D.Reply(D.AttachBody);
      case Launch => r := D.Reply(D.LaunchBody);
      case ConfigurationDone => r := Command(F.Resume, D.ConfigurationDoneBody);
      case SetBreakpoints(path, lines, hash) => r := SetBreakpoints(path, lines, hash);
      case SetExceptionBreakpoints => r := D.Reply(D.SetExceptionBreakpointsBody);
      case Threads => r := Threads();
      case Disconnect =>
        var _ := target.Terminate();
        r := Ok(D.HandlerAction(D.DisconnectBody, D.DisconnectAction));
      case StackTrace(thread) => r := StackTrace(thread);
      case Scopes(frame) => r := D.ScopesReply(frame);
      case Continue => r := Command(F.Resume, D.ContinueBody);
      case Pause => r := Command(F.Pause, D.PauseBody);
      case Next(thread) => r := Next(thread);
      case StepIn(thread) => r := StepBy(thread, D.StepInBody);
      case StepOut(thread) => r := StepBy(thread, D.StepOutBody);
      case Variables(ref) => r := Variables(ref);
      case SetVariable(ref, name, text) => r := SetVariable(ref, name, text);
      case ReadMemory(reference, offset, count) => r := ReadMemory(reference, offset, count);
      case Source => r := D.Reply(D.SourceBody);
      case Unhandled => r := Err(D.RequestFailed);
    }

    // Event handlers

    method HandleEventStoppedAt(cpu: CpuId, address: Address, reason: F.StoppedAtReason) returns (event: D.DapEvent)
      modifies this, target, registry
      ensures (Core(), event) == D.HandleStoppedAt(old(Core()), cpu, address, reason)
      ensures session == old(session) && receiver == old(receiver)
    {
      hide T.RemoveCodeBp, ResolveAddress, CpuToThread;
      var hits := None;
      var stopReason;
      if cpu in stepBp && stepBp[cpu] == address {
        stepBp := stepBp - {cpu};
        match ResolveAddress(target.index, address) {
          case Some((path, line)) => var _ := target.RemoveCodeBp(path, line);
          case None =>
        }
        stopReason := D.StepStop;
      } else {
        match reason {
          case Paused => stopReason := D.PauseStop;
          case StepComplete => stopReason := D.StepStop;
          case Interrupt => stopReason := D.ExceptionStop;
          case Breakpoint =>
            if address in target.bpsAddresses {
              match ResolveAddress(target.index, address) {
                case Some((path, line)) =>
                  var id := registry.GetId(path, line);
                  hits := Some([id]);
                case None =>
              }
            }
            stopReason := D.BreakpointStop;
        }
      }
      event := D.Stopped(stopReason, CpuToThread(cpu), hits);
    }

    // The event loop

    method Handle(event: D.DebugEvent) returns (r: Result<(), D.DebuggerError>)
      modifies this, target, registry
      ensures (State(), r) == D.Handle(old(State()), event) && receiver == old(receiver)
    {
      hide D.HandleRequest, D.HandleStoppedAt;
      match event
      case DapRequest(number, command) =>
        var handled := HandleDapRequest(command);
        match handled {
          case Ok(HandlerAction(body, postAction)) =>
            var _ :- Send(D.Response(number, body));
            match postAction {
              case NoAction => r := Ok(());
              case SendEvent(e) => r := Send(D.Event(e));
              case DisconnectAction => r := Err(D.DapDisconnected);
            }
          case Err(e) =>
            if e == D.RequestFailed {
              r := Send(D.ErrorResponse(number));
            } else {
              r := Err(e);
            }
        }
      case MsimEvent(Terminated) =>
        var _ :- Send(D.Event(D.Terminated));
        r := Send(D.Event(D.Exited(0)));
      case MsimEvent(StoppedAt(cpu, address, reason)) =>
        var stopped := HandleEventStoppedAt(cpu, address, reason);
        r := Send(D.Event(stopped));
    }

    method Run() returns (r: Result<(), D.DebuggerError>)
      modifies this, target, registry
      ensures var run := D.Run(old(State()), old(receiver));
              run.consumed <= |old(receiver)| &&
              State() == run.state && r == run.result && receiver == old(receiver)[run.consumed..]
    {
      hide D.Handle;
      ghost var n := 0;
      ghost var all := D.Run(State(), receiver);
      while receiver != []
        invariant n <= |old(receiver)| && receiver == old(receiver)[n..]
        invariant var rest := D.Run(State(), receiver); all == rest.(consumed := n + rest.consumed)
        decreases |receiver|
      {
        var input := receiver[0];
        receiver := receiver[1..];
        n := n + 1;
        match input
        case Err(_) =>
          return Err(D.ReceivedFatalError);
        case Ok(event) =>
          var handled := Handle(event);
          if handled == Err(D.DapDisconnected) {
            return Ok(());
          }
          if handled.Err? {
            return handled;
          }
      }
      r := Ok(());
    }
  }
}
