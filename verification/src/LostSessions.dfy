/**
 Which failures of the simulator are fatal: a request of the client loses the session
 exactly when something it had to ask the simulator was never answered.
 */
module LostSessions {
  import opened Wrappers
  import opened Machine
  import opened Frame
  import opened DebugIndex
  import C = Connection
  import opened Registers
  import T = Target
  import Replacing
  import Reuse
  import opened Breakpoints
  import opened CpuRegistry
  import opened Text
  import MemoryRefs
  import D = Debugger
  import Runs
  import StoreRuns

  // No answer came; `RequestFailed` is how the connection reports an answer that refuses.
  predicate Lost(reply: T.Reply) {
    reply.Err? && reply.error != C.RequestFailed
  }

  // Requests whose refusal is noticed.
  predicate IsChecked(r: Request) {
    r != GetConfig && !r.GetCpuInfo? && !r.ReadGeneralRegister?
  }

  predicate Good(e: T.Exchange) {
    if IsChecked(e.request) then T.Accepted(e.reply) else e.reply.Ok?
  }

  // From `t` to `u` all went well.
  predicate AllGood(t: T.Target, u: T.Target) {
    t.trace <= u.trace && forall i :: |t.trace| <= i < |u.trace| ==> Good(u.trace[i])
  }

  function Failure<X>(r: Result<X, T.TargetError>): Option<T.TargetError> {
    if r.Ok? then None else Some(r.error)
  }

  // How an operation ends if it stops at the first exchange that does not go well, and
  // says whether that one was lost or refused.
  predicate Stops(t: T.Target, u: T.Target, failure: Option<T.TargetError>) {
    && t.trace <= u.trace
    && (forall i :: |t.trace| <= i < |u.trace| - 1 ==> Good(u.trace[i]))
    && if t.trace == u.trace || Good(u.trace[|u.trace| - 1]) then
         failure != Some(T.SessionLost) && failure != Some(T.RequestRejected)
       else
         failure == Some(if Lost(u.trace[|u.trace| - 1].reply) then T.SessionLost else T.RequestRejected)
  }

  lemma StopsNowhere(t: T.Target, u: T.Target, failure: Option<T.TargetError>)
    requires u.trace == t.trace && failure != Some(T.SessionLost) && failure != Some(T.RequestRejected)
    ensures Stops(t, u, failure) && AllGood(t, u)
  {
  }

  lemma OkIsGood(t: T.Target, u: T.Target, failure: Option<T.TargetError>)
    requires Stops(t, u, failure) && failure != Some(T.SessionLost) && failure != Some(T.RequestRejected)
    ensures AllGood(t, u)
  {
  }

  lemma StopsLater(t: T.Target, u: T.Target, v: T.Target, failure: Option<T.TargetError>)
    requires AllGood(t, u) && Stops(u, v, failure)
    ensures Stops(t, v, failure)
  {
    hide Good;
    assert forall i :: |t.trace| <= i < |u.trace| ==> v.trace[i] == u.trace[i];
  }

  lemma SendStops(t: T.Target, request: Request)
    ensures IsChecked(request) ==>
              var (u, r) := T.SendChecked(t, request); Stops(t, u, Failure(r)) && u == T.AfterSend(t, request)
    ensures !IsChecked(request) ==>
              var (u, r) := T.Send(t, request); Stops(t, u, Failure(r)) && u == T.AfterSend(t, request)
    ensures IsChecked(request) ==>
              var (u, r) := T.SendCommand(t, request);
              Stops(t, u, Failure(r)) && u == T.AfterSend(t, request) && (r.Ok? <==> T.Accepted(T.NextReply(t)))
  {
    assert T.AfterSend(t, request).trace[|t.trace|] == T.Exchange(request, T.NextReply(t));
  }

  // The operations of the target

  lemma {:induction false} ReadArchsStops(t: T.Target, cpu: nat, count: uint64, archs: map<CpuId, CpuArch>)
    ensures var (u, r) := T.ReadArchs(t, cpu, count, archs); Stops(t, u, Failure(r))
    decreases count - cpu
  {
    hide Stops, AllGood;
    if cpu < count {
      SendStops(t, GetCpuInfo(cpu));
      var (u, r) := T.Send(t, GetCpuInfo(cpu));
      if r.Ok? {
        OkIsGood(t, u, Failure(r));
        ReadArchsStops(u, cpu + 1, count, archs[cpu := T.ReadArch(r.value.arg0)]);
        var (v, rest) := T.ReadArchs(u, cpu + 1, count, archs[cpu := T.ReadArch(r.value.arg0)]);
        StopsLater(t, u, v, Failure(rest));
      }
    } else {
      StopsNowhere(t, t, None);
    }
  }

  lemma GetConfigStops(t: T.Target)
    ensures var (u, r) := T.GetConfig(t); Stops(t, u, Failure(r))
  {
    if t.config.Some? {
      StopsNowhere(t, t, None);
    } else {
      SendStops(t, GetConfig);
      var (u, r) := T.Send(t, GetConfig);
      if r.Ok? {
        OkIsGood(t, u, Failure(r));
        ReadArchsStops(u, 0, r.value.arg0, map[]);
        var (v, archs) := T.ReadArchs(u, 0, r.value.arg0, map[]);
        StopsLater(t, u, v, Failure(archs));
        var w := T.GetConfig(t).0;
        hide T.ReadArchs;
        assert w.trace == v.trace;
      }
    }
  }

  lemma KnownArchStops(t: T.Target, cpu: CpuId)
    ensures var (u, r) := T.KnownArch(t, cpu); Stops(t, u, Failure(r))
  {
    GetConfigStops(t);
    var (u, r) := T.GetConfig(t);
    hide T.GetConfig, Good;
    if r.Ok? {
      assert Stops(t, u, None);
      assert T.KnownArch(t, cpu).0 == u;
    }
  }

  lemma {:induction false} ReadGeneralStops(t: T.Target, cpu: CpuId, arch: CpuArch, reg: uint64)
    ensures var (u, r) := T.ReadGeneralFrom(t, cpu, arch, reg); Stops(t, u, Failure(r))
    decreases GENERAL_REGISTER_COUNT - reg
  {
    hide Stops, AllGood, RegName;
    if reg < GENERAL_REGISTER_COUNT && RegName(arch, reg).Some? {
      SendStops(t, ReadGeneralRegister(cpu, reg));
      var (u, r) := T.Send(t, ReadGeneralRegister(cpu, reg));
      if r.Ok? {
        OkIsGood(t, u, Failure(r));
        ReadGeneralStops(u, cpu, arch, reg + 1);
        var (v, rest) := T.ReadGeneralFrom(u, cpu, arch, reg + 1);
        StopsLater(t, u, v, Failure(rest));
      }
    } else {
      StopsNowhere(t, t, Failure(T.ReadGeneralFrom(t, cpu, arch, reg).1));
    }
  }

  lemma {:induction false} ReadCsrsStops(t: T.Target, cpu: CpuId, arch: CpuArch, ids: seq<uint64>)
    ensures var (u, r) := T.ReadCsrsFrom(t, cpu, arch, ids); Stops(t, u, Failure(r))
    decreases |ids|
  {
    hide Stops, AllGood, CsrName;
    if ids == [] {
      StopsNowhere(t, t, None);
    } else {
      var request := Request.ReadCsr(cpu, ids[0]);
      SendStops(t, request);
      var (u, r) := T.SendChecked(t, request);
      if r.Ok? {
        OkIsGood(t, u, Failure(r));
        StopsNowhere(u, u, Some(T.BadRegister));
        StopsLater(t, u, u, Some(T.BadRegister));
        ReadCsrsStops(u, cpu, arch, ids[1..]);
        var (v, rest) := T.ReadCsrsFrom(u, cpu, arch, ids[1..]);
        StopsLater(t, u, v, Failure(rest));
      }
    }
  }

  lemma ReadScopeStops(t: T.Target, scope: VarScope)
    ensures var (u, r) := D.ReadScope(t, scope); Stops(t, u, Failure(r))
  {
    KnownArchStops(t, scope.cpu);
    var (u, arch) := T.KnownArch(t, scope.cpu);
    hide T.KnownArch, Stops, AllGood, CsrIds;
    if arch.Ok? {
      OkIsGood(t, u, Failure(arch));
      match scope
      case GeneralRegisters(cpu) =>
        ReadGeneralStops(u, cpu, arch.value, 0);
        var (v, r) := T.ReadGeneralFrom(u, cpu, arch.value, 0);
        StopsLater(t, u, v, Failure(r));
      case CsrRegisters(cpu) =>
        SendStops(u, ReadPC(cpu));
        var (v, pc) := T.SendChecked(u, ReadPC(cpu));
        StopsLater(t, u, v, Failure(pc));
        if pc.Ok? {
          OkIsGood(t, v, Failure(pc));
          ReadCsrsStops(v, cpu, arch.value, CsrIds(arch.value));
          var (w, r) := T.ReadCsrsFrom(v, cpu, arch.value, CsrIds(arch.value));
          StopsLater(t, v, w, Failure(r));
        }
    }
  }

  lemma WriteScopeStops(t: T.Target, scope: VarScope, name: string, value: uint64)
    ensures var (u, r) := D.WriteScope(t, scope, name, value); Stops(t, u, Failure(r))
  {
    KnownArchStops(t, scope.cpu);
    var (u, arch) := T.KnownArch(t, scope.cpu);
    SendStops(t, WritePC(scope.cpu, value));
    hide T.KnownArch, Stops, AllGood, NameToRegId, NameToCsrAddr, T.SendCommand;
    if arch.Ok? {
      OkIsGood(t, u, Failure(arch));
      StopsNowhere(u, u, Some(T.UnknownRegister));
      StopsLater(t, u, u, Some(T.UnknownRegister));
      var reg, csr := NameToRegId(arch.value, name), NameToCsrAddr(arch.value, name);
      if scope.GeneralRegisters? && reg.Some? {
        var request := WriteGeneralRegister(scope.cpu, reg.value, value);
        SendStops(u, request);
        StopsLater(t, u, T.AfterSend(u, request), Failure(T.SendCommand(u, request).1));
      } else if scope.CsrRegisters? && csr.Some? {
        var request := WriteCsr(scope.cpu, csr.value, value);
        SendStops(u, request);
        StopsLater(t, u, T.AfterSend(u, request), Failure(T.SendCommand(u, request).1));
      }
    }
  }

  lemma {:induction false} ReadFromStops(t: T.Target, space: T.Space, pos: nat, end: Address)
    ensures var (u, r) := T.ReadFrom(t, space, pos, end); Stops(t, u, Failure(r))
    decreases end - pos
  {
    hide ArgBytes, T.SendChecked, Stops, AllGood, Good;
    if end <= pos {
      StopsNowhere(t, t, None);
    } else {
      var request := T.ReadRequest(space, pos);
      SendStops(t, request);
      var (u, r) := T.SendChecked(t, request);
      if r.Ok? {
        OkIsGood(t, u, Failure(r));
        ReadFromStops(u, space, pos + T.STEP, end);
        var (v, rest) := T.ReadFrom(u, space, pos + T.STEP, end);
        StopsLater(t, u, v, Failure(rest));
      }
    }
  }

  lemma StepByStops(t: T.Target, cpu: CpuId, count: uint64)
    ensures var (u, r) := T.StepBy(t, cpu, count); Stops(t, u, Failure(r))
  {
    hide T.SendCommand, Stops, AllGood, T.AfterSend;
    SendStops(t, Step(cpu, count));
    var (u, r) := T.SendCommand(t, Step(cpu, count));
    if r.Ok? {
      OkIsGood(t, u, Failure(r));
      SendStops(u, Resume);
      StopsLater(t, u, T.SendCommand(u, Resume).0, Failure(T.SendCommand(u, Resume).1));
    }
  }

  // Operations that go on after a refusal, and stop when an answer is lost

  predicate Survives(t: T.Target, u: T.Target, lost: bool) {
    && t.trace <= u.trace
    && (forall i :: |t.trace| <= i < |u.trace| - 1 ==> !Lost(u.trace[i].reply))
    && (lost <==> |t.trace| < |u.trace| && Lost(u.trace[|u.trace| - 1].reply))
  }

  lemma SurvivesLater(t: T.Target, u: T.Target, v: T.Target, lost: bool)
    requires Survives(t, u, false) && Survives(u, v, lost)
    ensures Survives(t, v, lost)
  {
    hide Lost;
    assert forall i :: |t.trace| <= i < |u.trace| ==> v.trace[i] == u.trace[i];
  }

  lemma StopsSurvives(t: T.Target, u: T.Target, failure: Option<T.TargetError>)
    requires Stops(t, u, failure)
    ensures Survives(t, u, failure == Some(T.SessionLost))
  {
  }

  // Setting or removing a breakpoint fails because there is no address, without asking, or
  // exactly as its one exchange with the simulator does.
  lemma BreakpointStops(t: T.Target, source: Path, line: LineNo)
    ensures var at := GetAddress(t.index, source, line);
            var (u, r) := T.SetCodeBp(t, source, line);
            && Stops(t, u, Failure(r))
            && (if at.Some? then r.Ok? ==> r == Ok(at.value) else r == Err(T.AddressNotFound))
            && |u.trace| == |t.trace| + (if at.Some? && at.value !in t.bpsAddresses then 1 else 0)
    ensures var at := GetAddress(t.index, source, line);
            var (u, r) := T.RemoveCodeBp(t, source, line);
            && Stops(t, u, Failure(r))
            && (if at.Some? then r.Ok? ==> r == Ok(at.value) else r == Err(T.AddressNotFound))
            && |u.trace| == |t.trace| + (if at.Some? && at.value in t.bpsAddresses then 1 else 0)
  {
    var at := GetAddress(t.index, source, line);
    hide GetAddress, T.WithoutFirst, Good;
    StopsNowhere(t, t, None);
    if at.Some? {
      SendStops(t, SetCodeBreakpoint(at.value));
      SendStops(t.(bpsAddresses := t.bpsAddresses - {at.value}), RemoveCodeBreakpoint(at.value));
    }
  }

  lemma SetSurvives(t: T.Target, source: Path, line: LineNo)
    ensures var (u, r) := T.SetCodeBp(t, source, line); Survives(t, u, r == Err(T.SessionLost))
    ensures forall i :: |t.trace| <= i < |T.SetCodeBp(t, source, line).0.trace| ==>
              T.SetCodeBp(t, source, line).0.trace[i].request.SetCodeBreakpoint?
  {
    var a := GetAddress(t.index, source, line);
    hide GetAddress;
    if a.Some? {
      SendStops(t, SetCodeBreakpoint(a.value));
      var (u, r) := T.SendChecked(t, SetCodeBreakpoint(a.value));
      StopsSurvives(t, u, Failure(r));
    }
  }

  lemma {:induction false} SearchSurvives(t: T.Target, path: Path, line: LineNo, from: nat)
    ensures var (u, outcome) := D.Search(t, path, line, from); Survives(t, u, outcome.Lost?)
    decreases D.STEP_OVER_LINE_SEARCH_LIMIT - from
  {
    if from < D.STEP_OVER_LINE_SEARCH_LIMIT {
      SetSurvives(t, path, WrapI64(line + from));
      var (u, r) := T.SetCodeBp(t, path, WrapI64(line + from));
      hide T.SetCodeBp, Survives;
      SearchSurvives(u, path, line, from + 1);
      if r.Err? && r.error != T.SessionLost {
        SurvivesLater(t, u, D.Search(u, path, line, from + 1).0, D.Search(u, path, line, from + 1).1.Lost?);
      }
    }
  }

  // Whether the list of results says that the session was lost.
  predicate SaysLost(results: seq<Result<(), T.TargetError>>) {
    Err(T.SessionLost) in results
  }

  lemma {:induction false} AddSurvives(t: T.Target, source: Path, lines: seq<LineNo>, known: map<LineNo, Address>)
    ensures var d := T.AddLines(t, source, lines, known);
            && Survives(t, d.target, SaysLost(d.results))
            && forall i :: |t.trace| <= i < |d.target.trace| ==> d.target.trace[i].request.SetCodeBreakpoint?
    decreases |lines|
  {
    if lines != [] {
      SetSurvives(t, source, lines[0]);
      var (u, r) := if lines[0] in known then (t, Ok(known[lines[0]])) else T.SetCodeBp(t, source, lines[0]);
      assert Survives(t, u, r == Err(T.SessionLost));
      assert forall i :: |t.trace| <= i < |u.trace| ==> u.trace[i].request.SetCodeBreakpoint?;
      hide T.SetCodeBp, Lost;
      AddSurvives(u, source, lines[1..], known);
      var rest := T.AddLines(u, source, lines[1..], known);
      if r != Err(T.SessionLost) {
        SurvivesLater(t, u, rest.target, SaysLost(rest.results));
        assert forall i :: |t.trace| <= i < |u.trace| ==> rest.target.trace[i] == u.trace[i];
        var d := T.AddLines(t, source, lines, known);
        assert d.results[1..] == rest.results;
        assert d.results == [d.results[0]] + rest.results;
      }
    }
  }

  lemma {:induction false} DropOnlyRemoves(t: T.Target, source: Path, order: seq<LineNo>, lines: seq<LineNo>)
    ensures var u := T.DropLines(t, source, order, lines);
            && t.trace <= u.trace
            && forall i :: |t.trace| <= i < |u.trace| ==> u.trace[i].request.RemoveCodeBreakpoint?
    decreases |order|
  {
    if order != [] {
      hide GetAddress, T.WithoutFirst;
      var u := if order[0] in lines then t else T.RemoveCodeBp(t, source, order[0]).0;
      assert t.trace <= u.trace && forall i :: |t.trace| <= i < |u.trace| ==> u.trace[i].request.RemoveCodeBreakpoint?;
      hide T.RemoveCodeBp;
      DropOnlyRemoves(u, source, order[1..], lines);
      var v := T.DropLines(u, source, order[1..], lines);
      assert forall i :: |t.trace| <= i < |u.trace| ==> v.trace[i] == u.trace[i];
    }
  }

  // Requests of the client

  // What the command cannot do without. The answers to removals, to the count of CPUs for
  // the thread list and to the request to terminate are dispensable.
  predicate Needs(command: D.Command, r: Request) {
    !command.Disconnect? && !command.Threads? && !r.RemoveCodeBreakpoint?
  }

  // From `t` to `u` an answer that the command needs was lost.
  predicate NeededLost(command: D.Command, t: T.Target, u: T.Target) {
    exists i :: |t.trace| <= i < |u.trace| && Lost(u.trace[i].reply) && Needs(command, u.trace[i].request)
  }

  lemma {:induction false} InfosLoseIff(r: Registry, path: Path, lines: seq<LineNo>,
                                        results: seq<Result<(), T.TargetError>>)
    requires |results| <= |lines|
    ensures var infos := D.BreakpointInfos(r, path, lines, results).1;
            if SaysLost(results) then infos == Err(D.SessionLost) else infos.Ok?
    decreases |lines|
  {
    hide WithId;
    if results != [] {
      assert results == [results[0]] + results[1..];
      if results[0] != Err(T.SessionLost) {
        InfosLoseIff(if results[0].Ok? then WithId(r, (path, lines[0])) else r, path, lines[1..], results[1..]);
      }
    }
  }

  // What `replace_code_bps` asked: removals first, then settings up to a lost one.
  lemma ReplaceSurvives(t: T.Target, path: Path, lines: seq<LineNo>, hash: seq<LineNo>) returns (n: nat)
    ensures var (v, results) := T.ReplaceCodeBps(t, path, lines, hash);
            && t.trace <= v.trace && |t.trace| <= n <= |v.trace|
            && (forall i :: |t.trace| <= i < n ==> v.trace[i].request.RemoveCodeBreakpoint?)
            && (forall i :: n <= i < |v.trace| ==> v.trace[i].request.SetCodeBreakpoint?)
            && (forall i :: n <= i < |v.trace| - 1 ==> !Lost(v.trace[i].reply))
            && (SaysLost(results) <==> n < |v.trace| && Lost(v.trace[|v.trace| - 1].reply))
  {
    hide T.ReplaceCodeBps, T.DropLines, T.AddLines, T.Arranged, T.ByLine, Lost, SaysLost;
    var known := Replacing.KnownLines(t, path);
    var order := T.Arranged(known.Keys, hash);
    var t1 := t.(bpsPerFile := t.bpsPerFile - {path});
    DropOnlyRemoves(t1, path, order, lines);
    var u := T.DropLines(t1, path, order, lines);
    AddSurvives(u, path, lines, known);
    Reuse.ReplaceIsLoops(t, path, lines, hash);
    var v := T.ReplaceCodeBps(t, path, lines, hash).0;
    n := |u.trace|;
    assert forall i :: |t.trace| <= i < n ==> v.trace[i] == u.trace[i];
  }

  lemma SetBreakpointsLosesIff(c: D.Core, path: Path, lines: seq<LineNo>, hash: seq<LineNo>)
    ensures var (d, r) := D.HandleSetBreakpoints(c, Some(path), lines, hash);
            r == Err(D.SessionLost) <==> NeededLost(D.SetBreakpoints(Some(path), lines, hash), c.target, d.target)
  {
    hide T.ReplaceCodeBps, Lost, SaysLost, D.BreakpointInfos;
    var n := ReplaceSurvives(c.target, path, lines, hash);
    var (v, results) := T.ReplaceCodeBps(c.target, path, lines, hash);
    Replacing.StoredAfterReplaceIff(c.target, path, lines, hash, 0);
    InfosLoseIff(c.registry, path, lines, results);
    var command := D.SetBreakpoints(Some(path), lines, hash);
    if SaysLost(results) {
      assert Lost(v.trace[|v.trace| - 1].reply) && Needs(command, v.trace[|v.trace| - 1].request);
    }
  }

  lemma SurvivorLosesIff(command: D.Command, t: T.Target, u: T.Target, lost: bool)
    requires Survives(t, u, lost) && !command.Disconnect? && !command.Threads?
    requires forall i :: |t.trace| <= i < |u.trace| ==> !u.trace[i].request.RemoveCodeBreakpoint?
    ensures lost <==> NeededLost(command, t, u)
  {
    hide Lost;
    if lost {
      assert Needs(command, u.trace[|u.trace| - 1].request);
    }
  }

  // A plain handler fails as its operation on the target does.
  lemma StoppedLosesIff(command: D.Command, t: T.Target, u: T.Target, failure: Option<T.TargetError>)
    requires Stops(t, u, failure)
    requires !command.Disconnect? && !command.Threads?
    requires forall i :: |t.trace| <= i < |u.trace| ==> !u.trace[i].request.RemoveCodeBreakpoint?
    ensures failure == Some(T.SessionLost) <==> NeededLost(command, t, u)
    ensures failure == None ==> AllGood(t, u)
  {
    StopsSurvives(t, u, failure);
    SurvivorLosesIff(command, t, u, failure == Some(T.SessionLost));
    if failure == None {
      OkIsGood(t, u, failure);
    }
    hide Stops, NeededLost;
  }

  // The handlers that do one thing with the target fail as that does.
  ghost predicate FailsWith(c: D.Core, d: D.Core, r: D.HandlerResult, failure: Option<T.TargetError>) {
    && Stops(c.target, d.target, failure)
    && (r == Err(D.SessionLost) <==> failure == Some(T.SessionLost))
    && (r.Ok? ==> failure == None)
  }

  lemma AsksNothing(c: D.Core, r: D.HandlerResult)
    requires r != Err(D.SessionLost)
    ensures FailsWith(c, c, r, None)
  {
    StopsNowhere(c.target, c.target, None);
  }

  lemma CommandStops(c: D.Core, request: Request, body: D.Body) returns (failure: Option<T.TargetError>)
    requires IsChecked(request)
    ensures var (d, r) := D.HandleCommand(c, request, body); FailsWith(c, d, r, failure)
  {
    hide Stops, T.SendCommand, T.AfterSend;
    SendStops(c.target, request);
    failure := Failure(T.SendCommand(c.target, request).1);
  }

  lemma StackTraceStops(c: D.Core, thread: int64) returns (failure: Option<T.TargetError>)
    ensures var (d, r) := D.HandleStackTrace(c, thread); FailsWith(c, d, r, failure)
  {
    hide Stops, T.SendChecked, T.AfterSend, ResolveAddress;
    failure := None;
    if ThreadToCpu(thread).Some? {
      SendStops(c.target, ReadPC(ThreadToCpu(thread).value));
      failure := Failure(T.SendChecked(c.target, ReadPC(ThreadToCpu(thread).value)).1);
    } else {
      AsksNothing(c, Err(D.RequestFailed));
    }
  }

  lemma StepStops(c: D.Core, thread: int64, body: D.Body) returns (failure: Option<T.TargetError>)
    ensures var (d, r) := D.HandleStepBy(c, thread, body); FailsWith(c, d, r, failure)
  {
    hide Stops, T.StepBy;
    failure := None;
    if ThreadToCpu(thread).Some? {
      StepByStops(c.target, ThreadToCpu(thread).value, 1);
      failure := Failure(T.StepBy(c.target, ThreadToCpu(thread).value, 1).1);
    } else {
      AsksNothing(c, Err(D.RequestFailed));
    }
  }

  lemma NoneIfOk(c: D.Core, d: D.Core, r: D.HandlerResult, failure: Option<T.TargetError>)
    requires Stops(c.target, d.target, failure)
    requires match failure case None => r.Ok? case Some(e) => r == Err(D.FromTargetError(e))
    ensures FailsWith(c, d, r, failure)
  {
    hide Stops;
  }

  lemma VariablesStop(c: D.Core, ref: int64) returns (failure: Option<T.TargetError>)
    ensures var (d, r) := D.HandleVariables(c, ref); FailsWith(c, d, r, failure)
  {
    hide Stops, D.ReadScope, ResolveVarRef;
    failure := None;
    if ResolveVarRef(ref).Some? {
      ReadScopeStops(c.target, ResolveVarRef(ref).value);
      failure := Failure(D.ReadScope(c.target, ResolveVarRef(ref).value).1);
      hide D.ShowRegisters;
      NoneIfOk(c, D.HandleVariables(c, ref).0, D.HandleVariables(c, ref).1, failure);
    } else {
      AsksNothing(c, Err(D.RequestFailed));
    }
  }

  lemma SetVariableStops(c: D.Core, ref: int64, name: string, text: string) returns (failure: Option<T.TargetError>)
    ensures var (d, r) := D.HandleSetVariable(c, ref, name, text); FailsWith(c, d, r, failure)
  {
    hide Stops, D.WriteScope, ResolveVarRef, MemoryRefs.ParseValue;
    failure := None;
    var scope, value := ResolveVarRef(ref), MemoryRefs.ParseValue(text);
    if scope.Some? && value.Some? {
      WriteScopeStops(c.target, scope.value, name, value.value);
      failure := Failure(D.WriteScope(c.target, scope.value, name, value.value).1);
      NoneIfOk(c, D.HandleSetVariable(c, ref, name, text).0, D.HandleSetVariable(c, ref, name, text).1, failure);
    } else {
      AsksNothing(c, Err(D.RequestFailed));
    }
  }

  lemma ReadMemoryStops(t: T.Target, space: T.Space, a: Address, length: nat)
    ensures var (u, r) := T.ReadMemory(t, space, a, length); Stops(t, u, Failure(r))
  {
    hide Stops, T.ReadFrom, WrapU64;
    ReadFromStops(t, space, a, WrapU64(a + length));
  }

  lemma MemoryStops(c: D.Core, reference: string, offset: Option<int64>, count: int64)
    returns (failure: Option<T.TargetError>)
    ensures var (d, r) := D.HandleReadMemory(c, reference, offset, count); FailsWith(c, d, r, failure)
  {
    hide Stops, T.ReadMemory, MemoryRefs.Parse, D.OffsetAddress, ShowHex;
    failure := None;
    var m := MemoryRefs.Parse(reference);
    if m.Some? && 0 <= count {
      var a := D.OffsetAddress(m.value.base, if offset.Some? then offset.value else 0);
      ReadMemoryStops(c.target, D.SpaceOf(m.value), a, count);
      failure := Failure(T.ReadMemory(c.target, D.SpaceOf(m.value), a, count).1);
      var (d, r) := D.HandleReadMemory(c, reference, offset, count);
      NoneIfOk(c, d, r, failure);
    } else {
      AsksNothing(c, Err(D.RequestFailed));
    }
  }

  lemma PlainStops(c: D.Core, command: D.Command) returns (failure: Option<T.TargetError>)
    requires !command.SetBreakpoints? && !command.Next? && !command.Threads? && !command.Disconnect?
    ensures var (d, r) := D.HandleRequest(c, command); FailsWith(c, d, r, failure)
  {
    hide FailsWith, Stops, D.HandleVariables, D.HandleSetVariable, D.HandleReadMemory, D.HandleStackTrace,
      D.HandleStepBy, D.HandleCommand, RegScopeVarRef, CsrScopeVarRef;
    failure := None;
    match command
    case ConfigurationDone => failure := CommandStops(c, Resume, D.ConfigurationDoneBody);
    case Continue => failure := CommandStops(c, Resume, D.ContinueBody);
    case Pause => failure := CommandStops(c, Request.Pause, D.PauseBody);
    case StackTrace(thread) => failure := StackTraceStops(c, thread);
    case StepIn(thread) => failure := StepStops(c, thread, D.StepInBody);
    case StepOut(thread) => failure := StepStops(c, thread, D.StepOutBody);
    case Variables(ref) => failure := VariablesStop(c, ref);
    case SetVariable(ref, name, text) => failure := SetVariableStops(c, ref, name, text);
    case ReadMemory(reference, offset, count) => failure := MemoryStops(c, reference, offset, count);
    case _ => AsksNothing(c, D.HandleRequest(c, command).1);
  }

  lemma SearchOnlySets(t: T.Target, path: Path, line: LineNo, from: nat)
    ensures var u := D.Search(t, path, line, from).0;
            t.trace <= u.trace && forall i :: |t.trace| <= i < |u.trace| ==> u.trace[i].request.SetCodeBreakpoint?
    decreases D.STEP_OVER_LINE_SEARCH_LIMIT - from
  {
    if from < D.STEP_OVER_LINE_SEARCH_LIMIT {
      SetSurvives(t, path, WrapI64(line + from));
      var u := T.SetCodeBp(t, path, WrapI64(line + from)).0;
      hide T.SetCodeBp, Lost;
      SearchOnlySets(u, path, line, from + 1);
      var v := D.Search(u, path, line, from + 1).0;
      assert forall i :: |t.trace| <= i < |u.trace| ==> v.trace[i] == u.trace[i];
    }
  }

  predicate NoRemoval(t: T.Target, u: T.Target) {
    t.trace <= u.trace && forall i :: |t.trace| <= i < |u.trace| ==> !u.trace[i].request.RemoveCodeBreakpoint?
  }

  lemma NoRemovalLater(t: T.Target, u: T.Target, v: T.Target)
    requires NoRemoval(t, u) && NoRemoval(u, v)
    ensures NoRemoval(t, v)
  {
    assert forall i :: |t.trace| <= i < |u.trace| ==> v.trace[i] == u.trace[i];
  }

  lemma SendSurvives(t: T.Target, request: Request)
    requires IsChecked(request) && !request.RemoveCodeBreakpoint?
    ensures var (u, r) := T.SendChecked(t, request);
            Survives(t, u, r == Err(T.SessionLost)) && NoRemoval(t, u)
    ensures var (u, r) := T.SendCommand(t, request);
            Survives(t, u, r == Err(T.SessionLost)) && NoRemoval(t, u)
  {
    SendStops(t, request);
    StopsSurvives(t, T.AfterSend(t, request), Failure(T.SendChecked(t, request).1));
    StopsSurvives(t, T.AfterSend(t, request), Failure(T.SendCommand(t, request).1));
    hide Lost, Good, Stops, Survives;
  }

  lemma AsksNothingSurvives(t: T.Target)
    ensures Survives(t, t, false) && NoRemoval(t, t)
  {
  }

  lemma SetsAreNoRemoval(t: T.Target, u: T.Target)
    requires t.trace <= u.trace && forall i :: |t.trace| <= i < |u.trace| ==> u.trace[i].request.SetCodeBreakpoint?
    ensures NoRemoval(t, u)
  {
  }

  lemma NextSurvives(c: D.Core, thread: int64)
    ensures var (d, r) := D.HandleNext(c, thread);
            Survives(c.target, d.target, r == Err(D.SessionLost)) && NoRemoval(c.target, d.target)
  {
    hide ResolveAddress, Survives, NoRemoval, T.SendChecked, T.SendCommand, T.SetCodeBp;
    var cpu := ThreadToCpu(thread);
    AsksNothingSurvives(c.target);
    if cpu.Some? {
      SendSurvives(c.target, ReadPC(cpu.value));
      var (t, pc) := T.ReadPc(c.target, cpu.value);
      if pc.Ok? && ResolveAddress(t.index, pc.value).Some? {
        var (path, line) := ResolveAddress(t.index, pc.value).value;
        SearchSurvives(t, path, line, 1);
        SearchOnlySets(t, path, line, 1);
        var (u, outcome) := D.Search(t, path, line, 1);
        SetsAreNoRemoval(t, u);
        NoRemovalLater(c.target, t, u);
        SurvivesLater(c.target, t, u, outcome.Lost?);
        SendSurvives(u, Resume);
        var (v, r) := T.SendCommand(u, Resume);
        if outcome.Found? {
          NoRemovalLater(c.target, u, v);
          SurvivesLater(c.target, u, v, r == Err(T.SessionLost));
        }
      }
    }
  }

  lemma NextLosesIff(c: D.Core, thread: int64)
    ensures var (d, r) := D.HandleNext(c, thread);
            r == Err(D.SessionLost) <==> NeededLost(D.Next(thread), c.target, d.target)
  {
    var (d, r) := D.HandleNext(c, thread);
    NextSurvives(c, thread);
    hide D.HandleNext;
    SurvivorLosesIff(D.Next(thread), c.target, d.target, r == Err(D.SessionLost));
  }

  lemma PlainLosesIff(c: D.Core, command: D.Command)
    requires !command.SetBreakpoints? && !command.Next? && !command.Threads? && !command.Disconnect?
    ensures var (d, r) := D.HandleRequest(c, command);
            r == Err(D.SessionLost) <==> NeededLost(command, c.target, d.target)
  {
    hide D.HandleRequest, Stops;
    var failure := PlainStops(c, command);
    StoreRuns.RequestIsQuiet(c, command);
    StoppedLosesIff(command, c.target, D.HandleRequest(c, command).0.target, failure);
  }

  lemma NoPathAsksNothing(c: D.Core, lines: seq<LineNo>, hash: seq<LineNo>)
    ensures D.HandleSetBreakpoints(c, None, lines, hash) == (c, Err(D.RequestFailed))
    ensures !NeededLost(D.SetBreakpoints(None, lines, hash), c.target, c.target)
  {
    hide T.ReplaceCodeBps, D.BreakpointInfos;
  }

  lemma ThreadsSurvive(c: D.Core)
    ensures D.HandleThreads(c).1.Ok?
  {
    hide T.CpuCount, CpuToThread;
  }

  // A request of the client loses the session exactly when an answer it needs was lost,
  // one that was refused never does.
  lemma SessionLostIff(c: D.Core, command: D.Command)
    ensures var (d, r) := D.HandleRequest(c, command);
            r == Err(D.SessionLost) <==> NeededLost(command, c.target, d.target)
  {
    hide D.HandleSetBreakpoints, D.HandleNext, T.CpuCount, T.Terminate, CpuToThread, Lost;
    match command
    case SetBreakpoints(path, lines, hash) =>
      if path.Some? {
        SetBreakpointsLosesIff(c, path.value, lines, hash);
      } else {
        NoPathAsksNothing(c, lines, hash);
      }
    case Next(thread) => NextLosesIff(c, thread);
    case Threads => ThreadsSurvive(c);
    case Disconnect =>
    case _ => PlainLosesIff(c, command);
  }

  // A request that succeeds had everything it asked for answered and, where the status is
  // looked at, accepted; only `setBreakpoints` and `next` go on after a refusal.
  lemma SuccessIsAccepted(c: D.Core, command: D.Command)
    requires !command.SetBreakpoints? && !command.Next? && !command.Threads? && !command.Disconnect?
    requires D.HandleRequest(c, command).1.Ok?
    ensures AllGood(c.target, D.HandleRequest(c, command).0.target)
  {
    var failure := PlainStops(c, command);
    hide D.HandleRequest;
    OkIsGood(c.target, D.HandleRequest(c, command).0.target, failure);
  }

  // Handling input `i` of a run loses an answer that it needs.
  ghost predicate LosesAt(st: D.State, inputs: seq<D.Input>, i: nat)
    requires i < |inputs|
  {
    inputs[i].Ok? && inputs[i].value.DapRequest? &&
    var before := D.Run(st, inputs[..i]).state;
    NeededLost(inputs[i].value.command, before.core.target,
               D.HandleRequest(before.core, inputs[i].value.command).0.target)
  }

  // A run ends with a lost session exactly when handling one of its inputs loses an
  // answer that it needs, and that input is the last one taken.
  lemma RunLosesIff(st: D.State, inputs: seq<D.Input>)
    ensures var run := D.Run(st, inputs);
            run.consumed <= |inputs| &&
            (run.result == Err(D.SessionLost) <==> exists i: nat :: i < run.consumed && LosesAt(st, inputs, i))
    ensures forall i: nat :: i < D.Run(st, inputs).consumed && LosesAt(st, inputs, i) ==>
              i + 1 == D.Run(st, inputs).consumed
  {
    var run := D.Run(st, inputs);
    Runs.RunEnds(st, inputs);
    hide D.Run, NeededLost;
    forall i: nat | i < run.consumed && LosesAt(st, inputs, i)
      ensures run.result == Err(D.SessionLost) && i + 1 == run.consumed
    {
      Runs.HandledInState(st, inputs, i);
      var before, event := D.Run(st, inputs[..i]).state, inputs[i].value;
      SessionLostIff(before.core, event.command);
      Runs.RequestSpeaks(before, event.number, event.command);
    }
    if run.result == Err(D.SessionLost) {
      var i := run.consumed - 1;
      SessionLostIff(D.Run(st, inputs[..i]).state.core, inputs[i].value.command);
      assert LosesAt(st, inputs, i);
    }
  }
}
