/** Which requests each command of the client sends to the simulator, and when it succeeds. */
module Commands {
  import opened Wrappers
  import opened Machine
  import F = Frame
  import C = Connection
  import opened Registers
  import T = Target
  import opened CpuRegistry
  import opened Text
  import MemoryRefs
  import opened Debugger
  import LostSessions

  // The commands that are one request, and what the client is told when it is accepted.
  function OneRequest(command: Command): Option<(F.Request, Body)> {
    match command
    case ConfigurationDone => Some((F.Resume, ConfigurationDoneBody))
    case Continue => Some((F.Resume, ContinueBody))
    case Pause => Some((F.Pause, PauseBody))
    case _ => None
  }

  // They send it, change nothing else, and succeed exactly when it is accepted.
  lemma OneRequestIsSent(c: Core, command: Command)
    requires OneRequest(command).Some?
    ensures var (request, body) := OneRequest(command).value;
            var (d, r) := HandleRequest(c, command);
            && d == c.(target := T.AfterSend(c.target, request))
            && r == (if T.Accepted(T.NextReply(c.target)) then Reply(body)
                     else Err(if LostSessions.Lost(T.NextReply(c.target)) then SessionLost else RequestFailed))
  {
  }

  // When the simulator has gone and replies no more, they lose the session.
  lemma GoneSimulatorIsLost(c: Core, command: Command)
    requires OneRequest(command).Some? && c.target.script == []
    ensures HandleRequest(c, command).1 == Err(SessionLost)
  {
    OneRequestIsSent(c, command);
    hide HandleRequest;
  }

  // A disconnecting client stops the simulator and is answered whatever that brings.
  lemma DisconnectTerminates(c: Core)
    ensures HandleRequest(c, Disconnect) ==
            (c.(target := T.AfterSend(c.target, F.Terminate)), Ok(HandlerAction(DisconnectBody, DisconnectAction)))
  {
  }

  // Asking for termination fails only on an answer that cannot be one, not when the
  // simulator is gone or refuses.
  lemma TerminationFailsIff(t: T.Target)
    ensures T.Terminate(t).0 == T.AfterSend(t, F.Terminate)
    ensures T.Terminate(t).1.Err? <==>
              T.NextReply(t).Err? && T.NextReply(t).error in {C.ParseError, C.UnexpectedMessage, C.RequestFailed}
  {
  }

  // Stepping in and out move the thread's CPU by one instruction and then resume.
  lemma StepMovesByOne(c: Core, command: Command, thread: int64, cpu: CpuId)
    requires (command == StepIn(thread) || command == StepOut(thread)) && ThreadToCpu(thread) == Some(cpu)
    ensures var (d, r) := HandleRequest(c, command);
            var t := T.AfterSend(c.target, F.Step(cpu, 1));
            && d == c.(target := if T.Accepted(T.NextReply(c.target)) then T.AfterSend(t, F.Resume) else t)
            && (r.Ok? <==> T.Accepted(T.NextReply(c.target)) && T.Accepted(T.NextReply(t)))
  {
  }

  // These ask the simulator nothing; the last one is refused.
  lemma OthersAskNothing(c: Core, command: Command)
    requires command in {Initialize, Attach, Launch, SetExceptionBreakpoints, Source, Unhandled} || command.Scopes?
    ensures HandleRequest(c, command).0 == c
    ensures command == Unhandled ==> HandleRequest(c, command).1 == Err(RequestFailed)
    ensures command.Scopes? ==>
              (HandleRequest(c, command).1.Ok? <==> ThreadToCpu(FrameToThread(command.frame)).Some?)
    ensures !command.Scopes? && command != Unhandled ==> HandleRequest(c, command).1.Ok?
  {
    hide RegScopeVarRef, CsrScopeVarRef;
  }

  // Commands on a thread, a scope, a value or a memory reference that there is none of fail
  // recoverably and ask nothing.
  lemma BadArgumentsAskNothing(c: Core, command: Command)
    requires match command
             case SetBreakpoints(path, _, _) => path.None?
             case StackTrace(thread) => ThreadToCpu(thread).None?
             case Next(thread) => ThreadToCpu(thread).None?
             case StepIn(thread) => ThreadToCpu(thread).None?
             case StepOut(thread) => ThreadToCpu(thread).None?
             case Variables(ref) => ResolveVarRef(ref).None?
             case SetVariable(ref, _, text) =>
               ResolveVarRef(ref).None? || forall v: uint64 :: !MemoryRefs.DenotesValue(text, v)
             case ReadMemory(reference, _, count) => count < 0 || forall m :: !MemoryRefs.Denotes(reference, m)
             case _ => false
    ensures HandleRequest(c, command) == (c, Err(RequestFailed))
  {
    hide ResolveVarRef, MemoryRefs.ParseValue, MemoryRefs.Parse, MemoryRefs.DenotesValue, MemoryRefs.Denotes;
    match command
    case SetVariable(_, _, text) =>
      var v := MemoryRefs.ParseValue(text);
      if v.Some? {
        MemoryRefs.ParseValueIff(text, v.value);
      }
    case ReadMemory(reference, _, _) =>
      var m := MemoryRefs.Parse(reference);
      if m.Some? {
        MemoryRefs.ParseIffDenotes(reference, m.value);
      }
    case _ =>
  }

  // A value is written to the general register of that name, in whichever of the three
  // notations it is given; a name of no register fails recoverably and writes nothing.
  lemma GeneralRegisterIsWritten(c: Core, ref: int64, cpu: CpuId, name: string, text: string, v: uint64)
    requires ResolveVarRef(ref) == Some(GeneralRegisters(cpu)) && MemoryRefs.DenotesValue(text, v)
    requires T.KnownArch(c.target, cpu).1.Ok?
    ensures var (t, arch) := T.KnownArch(c.target, cpu);
            var (d, r) := HandleSetVariable(c, ref, name, text);
            && (forall reg: uint64 :: RegName(arch.value, reg) == Some(name) ==>
                  && d == c.(target := T.AfterSend(t, F.WriteGeneralRegister(cpu, reg, v)))
                  && (r.Ok? <==> T.Accepted(T.NextReply(t)))
                  && (r.Ok? ==> r == Reply(SetVariableBody(ShowHex(v)))))
            && ((forall reg: uint64 :: RegName(arch.value, reg) != Some(name)) ==>
                  d == c.(target := t) && r == Err(RequestFailed))
  {
    hide T.KnownArch, ResolveVarRef, MemoryRefs.ParseValue, MemoryRefs.DenotesValue, RegName, NameToRegId, ShowHex;
    MemoryRefs.ParseValueIff(text, v);
    var arch := T.KnownArch(c.target, cpu).1.value;
    forall reg: uint64
      ensures NameToRegId(arch, name) == Some(reg) <==> RegName(arch, reg) == Some(name)
    {
      GeneralNameIff(arch, name, reg);
    }
    if NameToRegId(arch, name).Some? {
      var reg := NameToRegId(arch, name).value;
      assert NameToRegId(arch, name) == Some(reg);
    }
  }

  // The same in the scope of the CSRs, where the program counter has its own request.
  lemma CsrIsWritten(c: Core, ref: int64, cpu: CpuId, name: string, text: string, v: uint64)
    requires ResolveVarRef(ref) == Some(CsrRegisters(cpu)) && MemoryRefs.DenotesValue(text, v)
    ensures name == PC_NAME ==>
              var (d, r) := HandleSetVariable(c, ref, name, text);
              && d == c.(target := T.AfterSend(c.target, F.WritePC(cpu, v)))
              && (r.Ok? <==> T.Accepted(T.NextReply(c.target)))
              && (r.Ok? ==> r == Reply(SetVariableBody(ShowHex(v))))
    ensures name != PC_NAME && T.KnownArch(c.target, cpu).1.Ok? ==>
              var (t, arch) := T.KnownArch(c.target, cpu);
              var (d, r) := HandleSetVariable(c, ref, name, text);
              && (forall csr: uint64 :: CsrName(arch.value, csr) == Some(name) ==>
                    && d == c.(target := T.AfterSend(t, F.WriteCsr(cpu, csr, v)))
                    && (r.Ok? <==> T.Accepted(T.NextReply(t)))
                    && (r.Ok? ==> r == Reply(SetVariableBody(ShowHex(v)))))
              && ((forall csr: uint64 :: CsrName(arch.value, csr) != Some(name)) ==>
                    d == c.(target := t) && r == Err(RequestFailed))
  {
    hide T.KnownArch, ResolveVarRef, MemoryRefs.ParseValue, MemoryRefs.DenotesValue, CsrName, NameToCsrAddr, ShowHex;
    MemoryRefs.ParseValueIff(text, v);
    if name != PC_NAME && T.KnownArch(c.target, cpu).1.Ok? {
      var arch := T.KnownArch(c.target, cpu).1.value;
      forall csr: uint64
        ensures NameToCsrAddr(arch, name) == Some(csr) <==> CsrName(arch, csr) == Some(name)
      {
        CsrNameIff(arch, name, csr);
      }
      if NameToCsrAddr(arch, name).Some? {
        var csr := NameToCsrAddr(arch, name).value;
        assert NameToCsrAddr(arch, name) == Some(csr);
      }
    }
  }
}
