/**
 The debugger core (src/debugger): request handlers, event handlers and the event loop as
 functions of the debugger's value. DebuggerLoop.dfy holds the object that computes them.
 */
module Debugger {
  import opened Wrappers
  import opened Machine
  import F = Frame
  import opened DebugIndex
  import T = Target
  import opened Breakpoints
  import opened CpuRegistry
  import opened Text
  import MemoryRefs

  datatype DebuggerError = SessionLost | DapError | ReceivedFatalError | DapDisconnected | RequestFailed

  datatype Command =
    | Initialize
    | Attach
    | Launch
    | ConfigurationDone
    | SetBreakpoints(path: Option<Path>, lines: seq<LineNo>, hash: seq<LineNo>)
    | SetExceptionBreakpoints
    | Threads
    | Disconnect
    | StackTrace(thread: int64)
    | Scopes(frame: int64)
    | Continue
    | Pause
    | Next(thread: int64)
    | StepIn(thread: int64)
    | StepOut(thread: int64)
    | Variables(ref: int64)
    | SetVariable(ref: int64, name: string, text: string)
    | ReadMemory(reference: string, offset: Option<int64>, count: int64)
    | Source
    | Unhandled

  datatype BreakpointInfo = BreakpointInfo(id: Option<uint32>, verified: bool, line: LineNo)

  datatype Variable = Variable(name: string, value: string, memoryReference: string)

  datatype Body =
    | InitializeBody
    | DisconnectBody
    | SetBreakpointsBody(breakpoints: seq<BreakpointInfo>)
    | ThreadsBody(threads: seq<int64>)
    | StackTraceBody(frame: int64, path: Option<Path>, line: LineNo)
    | ScopesBody(general: int64, csr: int64)
    | VariablesBody(variables: seq<Variable>)
    | SetVariableBody(value: string)
    | ReadMemoryBody(address: string, data: seq<uint8>)
    // replies that carry nothing computed
    | AttachBody
    | LaunchBody
    | ConfigurationDoneBody
    | SetExceptionBreakpointsBody
    | ContinueBody
    | PauseBody
    | NextBody
    | StepInBody
    | StepOutBody
    | SourceBody

  datatype StopReason = PauseStop | BreakpointStop | StepStop | ExceptionStop

  datatype DapEvent =
    | Initialized
    | Terminated
    | Exited(code: int)
    | Stopped(reason: StopReason, thread: int64, hits: Option<seq<uint32>>)

  datatype PostAction = NoAction | SendEvent(event: DapEvent) | DisconnectAction

  datatype HandlerAction = HandlerAction(body: Body, postAction: PostAction)

  type HandlerResult = Result<HandlerAction, DebuggerError>

  // What the handlers work on: everything but the client connection.
  datatype Core = Core(target: T.Target, registry: Registry, stepBp: map<CpuId, Address>)

  function FromTargetError(e: T.TargetError): DebuggerError {
    if e == T.SessionLost then SessionLost else RequestFailed
  }

  function Reply(body: Body): HandlerResult {
    Ok(HandlerAction(body, NoAction))
  }

  // `self.target.op()?` followed by a plain reply
  function ReplyIfOk<A>(r: Result<A, T.TargetError>, body: Body): HandlerResult {
    if r.Ok? then Reply(body) else Err(FromTargetError(r.error))
  }

  // setBreakpoints

  function BreakpointInfos(r: Registry, path: Path, lines: seq<LineNo>, results: seq<Result<(), T.TargetError>>)
    : (Registry, Result<seq<BreakpointInfo>, DebuggerError>)
    decreases |lines|
  {
    if lines == [] || results == [] then (r, Ok([]))
    else if results[0] == Err(T.SessionLost) then (r, Err(SessionLost))
    else
      var ok := results[0].Ok?;
      var r := if ok then WithId(r, (path, lines[0])) else r;
      var info := BreakpointInfo(if ok then Some(r.ids[(path, lines[0])]) else None, ok, lines[0]);
      var (r, rest) := BreakpointInfos(r, path, lines[1..], results[1..]);
      (r, if rest.Err? then rest else Ok([info] + rest.value))
  }

  function HandleSetBreakpoints(c: Core, path: Option<Path>, lines: seq<LineNo>, hash: seq<LineNo>)
    : (Core, HandlerResult)
  {
    if path.None? then (c, Err(RequestFailed))
    else
      var (t, results) := T.ReplaceCodeBps(c.target, path.value, lines, hash);
      var (r, infos) := BreakpointInfos(c.registry, path.value, lines, results);
      (c.(target := t, registry := r), if infos.Ok? then Reply(SetBreakpointsBody(infos.value)) else Err(infos.error))
  }

  // next

  const STEP_OVER_LINE_SEARCH_LIMIT := 20

  datatype SearchOutcome = Found(offset: nat, address: Address) | NotFound | Lost

  function Search(t: T.Target, path: Path, line: LineNo, offset: nat): (T.Target, SearchOutcome)
    decreases STEP_OVER_LINE_SEARCH_LIMIT - offset
  {
    if STEP_OVER_LINE_SEARCH_LIMIT <= offset then (t, NotFound)
    else
      var (t, r) := T.SetCodeBp(t, path, WrapI64(line + offset));
      match r
      case Ok(a) => (t, Found(offset, a))
      case Err(e) => if e == T.SessionLost then (t, Lost) else Search(t, path, line, offset + 1)
  }

  function HandleNext(c: Core, thread: int64): (Core, HandlerResult) {
    var cpu := ThreadToCpu(thread);
    if cpu.None? then (c, Err(RequestFailed))
    else
      var (t, pc) := T.ReadPc(c.target, cpu.value);
      var c := c.(target := t);
      if pc.Err? then (c, Err(FromTargetError(pc.error)))
      else
        var at := ResolveAddress(t.index, pc.value);
        if at.None? then (c, Err(RequestFailed))
        else
          var (t, outcome) := Search(t, at.value.0, at.value.1, 1);
          match outcome
          case NotFound => (c.(target := t), Err(RequestFailed))
          case Lost => (c.(target := t), Err(SessionLost))
          case Found(_, a) =>
            var (t, r) := T.SendCommand(t, F.Resume);
            (c.(target := t, stepBp := c.stepBp[cpu.value := a]), ReplyIfOk(r, NextBody))
  }

  // variables, setVariable, readMemory

  function ShowRegister(cpu: CpuId, register: T.Register): Variable {
    Variable(register.name, ShowHex(register.value), MemoryRefs.ToString(MemoryRefs.Virtual(cpu, register.value)))
  }

  function ShowRegisters(cpu: CpuId, registers: seq<T.Register>): seq<Variable> {
    seq(|registers|, i requires 0 <= i < |registers| => ShowRegister(cpu, registers[i]))
  }

  function ReadScope(t: T.Target, scope: VarScope): (T.Target, Result<seq<T.Register>, T.TargetError>) {
    match scope
    case GeneralRegisters(cpu) => T.ReadGeneralRegs(t, cpu)
    case CsrRegisters(cpu) => T.ReadCsrs(t, cpu)
  }

  function HandleVariables(c: Core, ref: int64): (Core, HandlerResult) {
    var scope := ResolveVarRef(ref);
    if scope.None? then (c, Err(RequestFailed))
    else
      var (t, registers) := ReadScope(c.target, scope.value);
      (c.(target := t),
       if registers.Err? then Err(FromTargetError(registers.error))
       else Reply(VariablesBody(ShowRegisters(scope.value.cpu, registers.value))))
  }

  function WriteScope(t: T.Target, scope: VarScope, name: string, value: uint64)
    : (T.Target, Result<(), T.TargetError>)
  {
    match scope
    case GeneralRegisters(cpu) => T.WriteGeneralReg(t, cpu, name, value)
    case CsrRegisters(cpu) => T.WriteCsrReg(t, cpu, name, value)
  }

  function HandleSetVariable(c: Core, ref: int64, name: string, text: string): (Core, HandlerResult) {
    var scope := ResolveVarRef(ref);
    var value := MemoryRefs.ParseValue(text);
    if scope.None? || value.None? then (c, Err(RequestFailed))
    else
      var (t, r) := WriteScope(c.target, scope.value, name, value.value);
      (c.(target := t), ReplyIfOk(r, SetVariableBody(ShowHex(value.value))))
  }

  function OffsetAddress(base: Address, offset: int64): Address {
    ToUnsigned(WrapI64(ToSigned(base) + offset))
  }

  function SpaceOf(m: MemoryRefs.MemoryRef): T.Space {
    match m
    case Physical(_) => T.PhysicalSpace
    case Virtual(cpu, _) => T.VirtualSpace(cpu)
  }

  function HandleReadMemory(c: Core, reference: string, offset: Option<int64>, count: int64): (Core, HandlerResult) {
    var m := MemoryRefs.Parse(reference);
    if count < 0 || m.None? then (c, Err(RequestFailed))
    else
      var a := OffsetAddress(m.value.base, if offset.Some? then offset.value else 0);
      var (t, data) := T.ReadMemory(c.target, SpaceOf(m.value), a, count);
      (c.(target := t),
       if data.Err? then Err(FromTargetError(data.error)) else Reply(ReadMemoryBody(ShowHex(a), data.value)))
  }

  // The other requests

  function HandleThreads(c: Core): (Core, HandlerResult) {
    var (t, r) := T.CpuCount(c.target);
    var count := if r.Ok? then r.value else 1;
    (c.(target := t), Reply(ThreadsBody(seq(count, i requires 0 <= i < count => CpuToThread(i)))))
  }

  function HandleStackTrace(c: Core, thread: int64): (Core, HandlerResult) {
    var cpu := ThreadToCpu(thread);
    if cpu.None? then (c, Err(RequestFailed))
    else
      var (t, pc) := T.ReadPc(c.target, cpu.value);
      (c.(target := t),
       if pc.Err? then Err(FromTargetError(pc.error))
       else
         match ResolveAddress(t.index, pc.value)
         case None => Reply(StackTraceBody(ThreadToFrame(thread), None, 0))
         case Some((path, line)) => Reply(StackTraceBody(ThreadToFrame(thread), Some(path), line)))
  }

  function ScopesReply(frame: int64): HandlerResult {
    if ThreadToCpu(FrameToThread(frame)).None? then Err(RequestFailed)
    else Reply(ScopesBody(RegScopeVarRef(frame), CsrScopeVarRef(frame)))
  }

  function HandleStepBy(c: Core, thread: int64, body: Body): (Core, HandlerResult) {
    var cpu := ThreadToCpu(thread);
    if cpu.None? then (c, Err(RequestFailed))
    else
      var (t, r) := T.StepBy(c.target, cpu.value, 1);
      (c.(target := t), ReplyIfOk(r, body))
  }

  function HandleCommand(c: Core, request: F.Request, body: Body): (Core, HandlerResult) {
    var (t, r) := T.SendCommand(c.target, request);
    (c.(target := t), ReplyIfOk(r, body))
  }

  function HandleRequest(c: Core, command: Command): (Core, HandlerResult) {
    match command
    case Initialize => (c, Ok(HandlerAction(InitializeBody, SendEvent(Initialized))))
    case Attach => (c, Reply(AttachBody))
    case Launch => (c, Reply(LaunchBody))
    case ConfigurationDone => HandleCommand(c, F.Resume, ConfigurationDoneBody)
    case SetBreakpoints(path, lines, hash) => HandleSetBreakpoints(c, path, lines, hash)
    case SetExceptionBreakpoints => (c, Reply(SetExceptionBreakpointsBody))
    case Threads => HandleThreads(c)
    case Disconnect =>
      (c.(target := T.Terminate(c.target).0), Ok(HandlerAction(DisconnectBody, DisconnectAction)))
    case StackTrace(thread) => HandleStackTrace(c, thread)
    case Scopes(frame) => (c, ScopesReply(frame))
    case Continue => HandleCommand(c, F.Resume, ContinueBody)
    case Pause => HandleCommand(c, F.Pause, PauseBody)
    case Next(thread) => HandleNext(c, thread)
    case StepIn(thread) => HandleStepBy(c, thread, StepInBody)
    case StepOut(thread) => HandleStepBy(c, thread, StepOutBody)
    case Variables(ref) => HandleVariables(c, ref)
    case SetVariable(ref, name, text) => HandleSetVariable(c, ref, name, text)
    case ReadMemory(reference, offset, count) => HandleReadMemory(c, reference, offset, count)
    case Source => (c, Reply(SourceBody))
    case Unhandled => (c, Err(RequestFailed))
  }

  // Events

  function HandleStoppedAt(c: Core, cpu: CpuId, address: Address, reason: F.StoppedAtReason): (Core, DapEvent) {
    var thread := CpuToThread(cpu);
    if cpu in c.stepBp && c.stepBp[cpu] == address then
      var t := match ResolveAddress(c.target.index, address)
               case Some((path, line)) => T.RemoveCodeBp(c.target, path, line).0
               case None => c.target;
      (c.(target := t, stepBp := c.stepBp - {cpu}), Stopped(StepStop, thread, None))
    else
      match reason
      case Paused => (c, Stopped(PauseStop, thread, None))
      case StepComplete => (c, Stopped(StepStop, thread, None))
      case Interrupt => (c, Stopped(ExceptionStop, thread, None))
      case Breakpoint =>
        match T.ResolveCodeBp(c.target, address)
        case None => (c, Stopped(BreakpointStop, thread, None))
        case Some(loc) =>
          var r := WithId(c.registry, loc);
          (c.(registry := r), Stopped(BreakpointStop, thread, Some([r.ids[loc]])))
  }

  // The client connection: what was sent, and how many more sends will succeed.

  datatype Message =
    | Response(request: int, body: Body)
    | ErrorResponse(request: int)
    | Event(event: DapEvent)

  datatype Session = Session(out: seq<Message>, room: nat)

  function Sent(s: Session, m: Message): (Session, Result<(), DebuggerError>) {
    if s.room == 0 then (s, Err(DapError)) else (Session(s.out + [m], s.room - 1), Ok(()))
  }

  // The event loop

  datatype DebugEvent = DapRequest(number: int, command: Command) | MsimEvent(event: F.MsimEvent)

  datatype State = State(core: Core, session: Session)

  // Where a session starts, with a simulator that will reply by the script.
  function NewState(index: DwarfIndex, script: seq<T.Reply>, room: nat): State {
    State(Core(T.NewTarget(index, script), EMPTY_REGISTRY, map[]), Session([], room))
  }

  function Finish(s: Session, number: int, r: HandlerResult): (Session, Result<(), DebuggerError>) {
    match r
    case Ok(HandlerAction(body, postAction)) =>
      var (s, sent) := Sent(s, Response(number, body));
      if sent.Err? then (s, sent)
      else
        (match postAction
         case NoAction => (s, Ok(()))
         case SendEvent(event) => Sent(s, Event(event))
         case DisconnectAction => (s, Err(DapDisconnected)))
    case Err(e) => if e == RequestFailed then Sent(s, ErrorResponse(number)) else (s, Err(e))
  }

  function Handle(st: State, event: DebugEvent): (State, Result<(), DebuggerError>) {
    match event
    case DapRequest(number, command) =>
      var (c, r) := HandleRequest(st.core, command);
      var (s, done) := Finish(st.session, number, r);
      (State(c, s), done)
    case MsimEvent(Terminated) =>
      var (s, sent) := Sent(st.session, Event(Terminated));
      if sent.Err? then (st.(session := s), sent)
      else var (s, sent) := Sent(s, Event(Exited(0))); (st.(session := s), sent)
    case MsimEvent(StoppedAt(cpu, address, reason)) =>
      var (c, stopped) := HandleStoppedAt(st.core, cpu, address, reason);
      var (s, sent) := Sent(st.session, Event(stopped));
      (State(c, s), sent)
  }

  // What arrives on the channel: events, or a fatal error of one of the listeners.
  type Input = Result<DebugEvent, ()>

  datatype Outcome = Outcome(state: State, consumed: nat, result: Result<(), DebuggerError>)

  // The end of the inputs is the moment all senders are gone.
  function Run(st: State, inputs: seq<Input>): Outcome
    decreases |inputs|
  {
    if inputs == [] then Outcome(st, 0, Ok(()))
    else
      match inputs[0]
      case Err(_) => Outcome(st, 1, Err(ReceivedFatalError))
      case Ok(event) =>
        var (st, r) := Handle(st, event);
        if r == Err(DapDisconnected) then Outcome(st, 1, Ok(()))
        else if r.Err? then Outcome(st, 1, r)
        else var rest := Run(st, inputs[1..]); rest.(consumed := rest.consumed + 1)
  }
}
