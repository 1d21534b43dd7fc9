/** Breakpoint IDs and the breakpoint store over whole runs: replies, hits and clean-up agree. */
module Hits {
  import opened Wrappers
  import opened Machine
  import opened Interning
  import F = Frame
  import opened DebugIndex
  import T = Target
  import opened BreakpointStore
  import opened Replacing
  import opened Reuse
  import opened StoreRuns
  import opened Breakpoints
  import opened CpuRegistry
  import opened Debugger
  import Runs

  // Breakpoint IDs

  // The registry holds the IDs of some sequence of requests for IDs.
  ghost predicate Issued(r: Registry) {
    exists log :: r == AfterRequests(log)
  }

  // Every ID issued in `r` is still the same in `s`.
  ghost predicate Keeps(r: Registry, s: Registry) {
    forall loc :: loc in r.ids ==> loc in s.ids && s.ids[loc] == r.ids[loc]
  }

  lemma WithIdIssues(r: Registry, loc: Location)
    requires Issued(r)
    ensures Issued(WithId(r, loc)) && Keeps(r, WithId(r, loc))
  {
    var log :| r == AfterRequests(log);
    assert (log + [loc])[..|log|] == log;
    assert WithId(r, loc) == AfterRequests(log + [loc]);
  }

  lemma {:induction false} InfosIssue(r: Registry, path: Path, lines: seq<LineNo>,
                                      results: seq<Result<(), T.TargetError>>)
    requires Issued(r)
    ensures var s := BreakpointInfos(r, path, lines, results).0; Issued(s) && Keeps(r, s)
    decreases |lines|
  {
    if lines != [] && results != [] && results[0] != Err(T.SessionLost) {
      WithIdIssues(r, (path, lines[0]));
      hide Issued, WithId;
      InfosIssue(if results[0].Ok? then WithId(r, (path, lines[0])) else r, path, lines[1..], results[1..]);
    }
  }

  lemma RequestIssues(c: Core, command: Command)
    requires Issued(c.registry)
    ensures var s := HandleRequest(c, command).0.registry; Issued(s) && Keeps(c.registry, s)
  {
    hide T.ReplaceCodeBps, T.ReadPc, T.CpuCount, T.StepBy, T.SendCommand, T.ReadMemory, ReadScope, WriteScope,
      Search, T.Terminate, Issued, ResolveAddress, BreakpointInfos;
    if command.SetBreakpoints? && command.path.Some? {
      var results := T.ReplaceCodeBps(c.target, command.path.value, command.lines, command.hash).1;
      InfosIssue(c.registry, command.path.value, command.lines, results);
    }
  }

  lemma StopIssues(c: Core, cpu: CpuId, a: Address, reason: F.StoppedAtReason)
    requires Issued(c.registry)
    ensures var s := HandleStoppedAt(c, cpu, a, reason).0.registry; Issued(s) && Keeps(c.registry, s)
  {
    hide T.RemoveCodeBp, ResolveAddress, T.ResolveCodeBp, Issued, WithId;
    var loc := T.ResolveCodeBp(c.target, a);
    if loc.Some? {
      WithIdIssues(c.registry, loc.value);
    }
  }

  lemma {:induction false} DistinctCount<K>(ds: seq<K>)
    requires NoDuplicates(ds)
    ensures |set x | x in ds| == |ds|
  {
    if ds != [] {
      DistinctCount(ds[1..]);
      assert (set x | x in ds) == (set x | x in ds[1..]) + {ds[0]};
      assert forall i :: 0 <= i < |ds[1..]| ==> ds[1..][i] == ds[i + 1];
    }
  }

  // IDs are distinct exactly while at most 2^32 have been issued.
  lemma IssuedIdsInjectiveIff(r: Registry)
    requires Issued(r)
    ensures Injective(r.ids) <==> |r.ids| <= TWO_TO_32
  {
    var log :| r == AfterRequests(log);
    IdsInjectiveIff(log);
    IdsNumberLocations(log);
    DistinctIsSound(log);
    DistinctCount(Distinct(log));
    assert |r.ids| == |r.ids.Keys|;
    hide AfterRequests, Distinct, Numbering;
  }

  lemma HandleIssues(st: State, event: DebugEvent)
    requires Issued(st.core.registry)
    ensures var s := Handle(st, event).0.core.registry; Issued(s) && Keeps(st.core.registry, s)
  {
    match event
    case DapRequest(_, command) =>
      RequestIssues(st.core, command);
      hide HandleRequest, Finish, Issued;
    case MsimEvent(e) =>
      if e.StoppedAt? {
        StopIssues(st.core, e.cpu, e.address, e.reason);
      }
      hide HandleStoppedAt, Sent, Issued;
  }

  // Over any run, from request and event handlers alike, issued IDs never change, and
  // they stay apart exactly up to 2^32 of them.
  lemma {:induction false} IdsOverRun(st: State, inputs: seq<Input>)
    requires Issued(st.core.registry)
    ensures var s := Run(st, inputs).state.core.registry;
            Issued(s) && Keeps(st.core.registry, s) && (Injective(s.ids) <==> |s.ids| <= TWO_TO_32)
    decreases |inputs|
  {
    hide Handle, Run, Issued;
    if inputs == [] || inputs[0].Err? {
      Runs.RunOfNothing(st, inputs);
    } else {
      Runs.RunUnfolds(st, inputs);
      HandleIssues(st, inputs[0].value);
      var (u, r) := Handle(st, inputs[0].value);
      if r.Ok? {
        IdsOverRun(u, inputs[1..]);
      }
    }
    IssuedIdsInjectiveIff(Run(st, inputs).state.core.registry);
  }

  // The setBreakpoints reply

  // Entry `i` of a reply speaks about requested line `i`: it is verified exactly when the
  // target set that line, and exactly then it carries the registry's ID for the location.
  ghost predicate InfoMatches(info: BreakpointInfo, ids: map<Location, uint32>, path: Path, line: LineNo, ok: bool) {
    info.line == line && info.verified == ok &&
    (if ok then (path, line) in ids && info.id == Some(ids[(path, line)]) else info.id == None)
  }

  lemma {:induction false} InfosMatch(r: Registry, path: Path, lines: seq<LineNo>,
                                      results: seq<Result<(), T.TargetError>>)
    requires Issued(r) && |results| <= |lines|
    ensures var (s, infos) := BreakpointInfos(r, path, lines, results);
            infos.Ok? ==>
              |infos.value| == |results| &&
              forall i :: 0 <= i < |results| ==>
                InfoMatches(infos.value[i], s.ids, path, lines[i], results[i].Ok?) && results[i] != Err(T.SessionLost)
    decreases |lines|
  {
    if results != [] && results[0] != Err(T.SessionLost) {
      WithIdIssues(r, (path, lines[0]));
      var u := if results[0].Ok? then WithId(r, (path, lines[0])) else r;
      InfosMatch(u, path, lines[1..], results[1..]);
      InfosIssue(u, path, lines[1..], results[1..]);
      hide Issued, WithId;
    }
  }

  // What the client is sent for a setBreakpoints request whose handling does not end the run.
  lemma SetBreakpointsHandled(st: State, number: int, path: Path, lines: seq<LineNo>, hash: seq<LineNo>)
    ensures var (u, r) := Handle(st, DapRequest(number, SetBreakpoints(Some(path), lines, hash)));
            var (c, reply) := HandleSetBreakpoints(st.core, Some(path), lines, hash);
            && u.core == c
            && (r.Ok? && reply.Ok? ==> u.session.out == st.session.out + [Response(number, reply.value.body)])
            && (reply.Err? && reply.error == SessionLost ==> r.Err?)
  {
    hide T.ReplaceCodeBps, BreakpointInfos;
  }

  lemma {:induction false} InfosFailOnlyIfLost(r: Registry, path: Path, lines: seq<LineNo>,
                                               results: seq<Result<(), T.TargetError>>)
    requires ResultsSpeak(lines, results)
    ensures BreakpointInfos(r, path, lines, results).1.Err? ==>
              results != [] && results[|results| - 1] == Err(T.SessionLost)
    decreases |lines|
  {
    if lines != [] && results != [] && results[0] != Err(T.SessionLost) {
      InfosFailOnlyIfLost(if results[0].Ok? then WithId(r, (path, lines[0])) else r, path, lines[1..], results[1..]);
    }
  }

  // A successful reply has one entry per requested line, in order.
  lemma ReplyMatchesRequest(c: Core, path: Path, lines: seq<LineNo>, hash: seq<LineNo>)
    requires Issued(c.registry)
    ensures var results := T.ReplaceCodeBps(c.target, path, lines, hash).1;
            var (d, r) := HandleSetBreakpoints(c, Some(path), lines, hash);
            match r
            case Ok(action) =>
              action.body.SetBreakpointsBody? && |action.body.breakpoints| == |lines| == |results| &&
              forall i :: 0 <= i < |lines| ==>
                InfoMatches(action.body.breakpoints[i], d.registry.ids, path, lines[i], results[i].Ok?)
            case Err(e) => e == SessionLost && results != [] && results[|results| - 1] == Err(T.SessionLost)
  {
    var results := T.ReplaceCodeBps(c.target, path, lines, hash).1;
    StoredAfterReplaceIff(c.target, path, lines, hash, 0);
    hide T.ReplaceCodeBps;
    InfosMatch(c.registry, path, lines, results);
    Runs.InfoErrors(c.registry, path, lines, results);
    InfosFailOnlyIfLost(c.registry, path, lines, results);
    hide BreakpointInfos, Issued, InfoMatches;
  }

  // When every requested line is reported as verified and reuse is sound, every one of
  // them is set in the simulator.
  lemma VerifiedBreakpointsAreArmed(c: Core, path: Path, lines: seq<LineNo>, hash: seq<LineNo>, i: nat)
    requires Consistent(c.target) && Issued(c.registry) && ReuseIsSound(c.target, path, lines) && i < |lines|
    requires var r := HandleSetBreakpoints(c, Some(path), lines, hash).1;
             r.Ok? && r.value.body.SetBreakpointsBody? &&
             forall j :: 0 <= j < |r.value.body.breakpoints| ==> r.value.body.breakpoints[j].verified
    ensures GetAddress(c.target.index, path, lines[i]).Some?
    ensures GetAddress(c.target.index, path, lines[i]).value in
            Armed(HandleSetBreakpoints(c, Some(path), lines, hash).0.target.trace)
  {
    var (u, results) := T.ReplaceCodeBps(c.target, path, lines, hash);
    ReplyMatchesRequest(c, path, lines, hash);
    assert HandleSetBreakpoints(c, Some(path), lines, hash).0.target == u;
    hide HandleSetBreakpoints, Issued;
    assert AllAccepted(lines, results);
    AllVerifiedAreStoredIff(c.target, path, lines, hash);
    ReplaceKeepsConsistent(c.target, path, lines, hash);
    StoreIsArmed(u);
    hide T.ReplaceCodeBps, Consistent, ReuseIsSound, GetAddress, Armed;
  }

  lemma ConsistentMatches(t: T.Target)
    requires Consistent(t)
    ensures EntriesMatch(t)
  {
  }

  // Every verified line is set in the simulator, if no two locations share an address, no
  // request listed a line twice and no removal was rejected, whatever came before.
  lemma VerifiedInRunIsArmed(index: DwarfIndex, script: seq<T.Reply>, room: nat, inputs: seq<Input>,
                             path: Path, lines: seq<LineNo>, hash: seq<LineNo>, i: nat)
    requires NoSharedAddresses(index) && forall n :: 0 <= n < |inputs| ==> ListsLinesOnce(inputs[n])
    requires RemovalsAccepted(Run(NewState(index, script, room), inputs).state.core.target.trace)
    requires var c := Run(NewState(index, script, room), inputs).state.core;
             var r := HandleSetBreakpoints(c, Some(path), lines, hash).1;
             r.Ok? && r.value.body.SetBreakpointsBody? && i < |r.value.body.breakpoints| &&
             r.value.body.breakpoints[i].verified
    ensures var c := Run(NewState(index, script, room), inputs).state.core;
            var d := HandleSetBreakpoints(c, Some(path), lines, hash).0;
            i < |lines| && GetAddress(index, path, lines[i]).Some? &&
            GetAddress(index, path, lines[i]).value in Armed(d.target.trace)
  {
    var st := NewState(index, script, room);
    hide Run, HandleSetBreakpoints, NoSharedAddresses, RemovalsAccepted, GetAddress;
    assert AfterRequests([]) == st.core.registry;
    TidyOverRun(st, inputs);
    StoreOverRun(st, inputs);
    IdsOverRun(st, inputs);
    var c := Run(st, inputs).state.core;
    hide Consistent, Issued, Tidy, NewState;
    ReplyMatchesRequest(c, path, lines, hash);
    var (u, results) := T.ReplaceCodeBps(c.target, path, lines, hash);
    SetBreakpointsReplaces(c, Some(path), lines, hash);
    ConsistentMatches(c.target);
    TidyIsSound(c.target, path, lines);
    KeptAreStored(c.target, c.target.script, path, lines, hash);
    assert c.target.(script := c.target.script) == c.target;
    ReplaceKeepsConsistent(c.target, path, lines, hash);
    StoreIsArmed(u);
    hide T.ReplaceCodeBps, Armed;
  }

  // The same location, the same ID

  lemma EntriesShareIdIff(ids: map<Location, uint32>, later: Registry,
                          x: BreakpointInfo, px: Path, y: BreakpointInfo, py: Path)
    requires Issued(later) && |later.ids| <= TWO_TO_32
    requires x.verified && InfoMatches(x, ids, px, x.line, true) &&
             forall l :: l in ids ==> l in later.ids && later.ids[l] == ids[l]
    requires y.verified && InfoMatches(y, later.ids, py, y.line, true)
    ensures x.id == y.id <==> (px, x.line) == (py, y.line)
  {
    IssuedIdsInjectiveIff(later);
    hide Issued;
  }

  // The breakpoints of the reply to a `setBreakpoints` request handled in this state.
  function RepliedTo(c: Core, path: Path, lines: seq<LineNo>, hash: seq<LineNo>): seq<BreakpointInfo> {
    match HandleSetBreakpoints(c, Some(path), lines, hash).1
    case Ok(HandlerAction(SetBreakpointsBody(infos), _)) => infos
    case _ => []
  }

  lemma RepliedMatches(c: Core, path: Path, lines: seq<LineNo>, hash: seq<LineNo>, k: nat)
    requires Issued(c.registry) && k < |RepliedTo(c, path, lines, hash)|
    ensures k < |lines| &&
            var info := RepliedTo(c, path, lines, hash)[k];
            info.verified ==>
              var ids := HandleSetBreakpoints(c, Some(path), lines, hash).0.registry.ids;
              InfoMatches(info, ids, path, info.line, true) &&
              info.line == lines[k]
  {
    ReplyMatchesRequest(c, path, lines, hash);
    hide HandleSetBreakpoints, Issued, T.ReplaceCodeBps;
  }

  lemma RepliedIssues(c: Core, path: Path, lines: seq<LineNo>, hash: seq<LineNo>)
    requires Issued(c.registry)
    ensures var s := HandleSetBreakpoints(c, Some(path), lines, hash).0.registry; Issued(s) && Keeps(c.registry, s)
  {
    RequestIssues(c, SetBreakpoints(Some(path), lines, hash));
    hide HandleSetBreakpoints, Issued, Keeps;
  }

  // Verified entries of two replies, with any run in between, share an ID exactly when
  // they are about the same location, as long as no more than 2^32 IDs have been issued.
  lemma VerifiedShareIdIff(st: State, number: int, path: Path, lines: seq<LineNo>, hash: seq<LineNo>, k: nat,
                           inputs: seq<Input>, path2: Path, lines2: seq<LineNo>, hash2: seq<LineNo>, m: nat)
    requires Issued(st.core.registry)
    requires k < |RepliedTo(st.core, path, lines, hash)| && RepliedTo(st.core, path, lines, hash)[k].verified
    requires var c := Run(Handle(st, DapRequest(number, SetBreakpoints(Some(path), lines, hash))).0, inputs).state.core;
             m < |RepliedTo(c, path2, lines2, hash2)| && RepliedTo(c, path2, lines2, hash2)[m].verified &&
             |HandleSetBreakpoints(c, Some(path2), lines2, hash2).0.registry.ids| <= TWO_TO_32
    ensures var c := Run(Handle(st, DapRequest(number, SetBreakpoints(Some(path), lines, hash))).0, inputs).state.core;
            k < |lines| && m < |lines2| &&
            (RepliedTo(st.core, path, lines, hash)[k].id == RepliedTo(c, path2, lines2, hash2)[m].id <==>
             (path, lines[k]) == (path2, lines2[m]))
  {
    hide Handle, Run, HandleSetBreakpoints, RepliedTo, Issued;
    var event := DapRequest(number, SetBreakpoints(Some(path), lines, hash));
    SetBreakpointsHandled(st, number, path, lines, hash);
    RepliedMatches(st.core, path, lines, hash, k);
    HandleIssues(st, event);
    var u := Handle(st, event).0;
    IdsOverRun(u, inputs);
    var c := Run(u, inputs).state.core;
    RepliedMatches(c, path2, lines2, hash2, m);
    RepliedIssues(c, path2, lines2, hash2);
    EntriesShareIdIff(u.core.registry.ids, HandleSetBreakpoints(c, Some(path2), lines2, hash2).0.registry,
                      RepliedTo(st.core, path, lines, hash)[k], path, RepliedTo(c, path2, lines2, hash2)[m], path2);
  }

  // The same for two entries of one reply.
  lemma OneReplySharesIdIff(c: Core, path: Path, lines: seq<LineNo>, hash: seq<LineNo>, k: nat, m: nat)
    requires Issued(c.registry)
    requires var infos := RepliedTo(c, path, lines, hash);
             k < |infos| && m < |infos| && infos[k].verified && infos[m].verified
    requires |HandleSetBreakpoints(c, Some(path), lines, hash).0.registry.ids| <= TWO_TO_32
    ensures var infos := RepliedTo(c, path, lines, hash);
            k < |lines| && m < |lines| && (infos[k].id == infos[m].id <==> lines[k] == lines[m])
  {
    hide HandleSetBreakpoints, RepliedTo, Issued;
    RepliedMatches(c, path, lines, hash, k);
    RepliedMatches(c, path, lines, hash, m);
    RepliedIssues(c, path, lines, hash);
    var r := HandleSetBreakpoints(c, Some(path), lines, hash).0.registry;
    EntriesShareIdIff(r.ids, r, RepliedTo(c, path, lines, hash)[k], path, RepliedTo(c, path, lines, hash)[m], path);
  }

  // Hits

  // A stop that ends no step is reported with the reason the simulator gave, for the
  // thread of its CPU; one that ends a step as that, whatever the reason.
  lemma StopReasonIsReported(c: Core, cpu: CpuId, a: Address, reason: F.StoppedAtReason)
    ensures var event := HandleStoppedAt(c, cpu, a, reason).1;
            var pending := cpu in c.stepBp && c.stepBp[cpu] == a;
            && event.Stopped? && event.thread == CpuToThread(cpu)
            && (event.reason == StepStop <==> pending || reason == F.StepComplete)
            && (event.reason == BreakpointStop <==> !pending && reason == F.Breakpoint)
            && (event.reason == PauseStop <==> !pending && reason == F.Paused)
            && (event.reason == ExceptionStop <==> !pending && reason == F.Interrupt)
  {
    hide ResolveAddress, CpuToThread, T.RemoveCodeBp, T.ResolveCodeBp;
  }

  lemma StopWithoutStep(c: Core, cpu: CpuId, a: Address, reason: F.StoppedAtReason)
    ensures var (d, event) := HandleStoppedAt(c, cpu, a, reason);
            event.Stopped? && event.thread == CpuToThread(cpu) &&
            (event.hits.Some? <==>
               && !(cpu in c.stepBp && c.stepBp[cpu] == a) && reason == F.Breakpoint
               && a in c.target.bpsAddresses && ResolveAddress(c.target.index, a).Some?)
    ensures var (d, event) := HandleStoppedAt(c, cpu, a, reason);
            event.hits.Some? ==>
              var loc := ResolveAddress(c.target.index, a).value;
              d.target == c.target && loc in d.registry.ids && event.hits == Some([d.registry.ids[loc]])
  {
    hide ResolveAddress, CpuToThread;
  }

  // A stop at a breakpoint's address is reported under the ID its reply carried exactly
  // when no step of this CPU is pending there, the address is in the store, and no later
  // row of the line table put another location there.
  lemma HitReportsReplyIdIff(c: Core, cpu: CpuId, path: Path, line: LineNo, log: seq<Row>, i: nat)
    requires Indexes(c.target.index, log) && FileCount(log) <= TWO_TO_32 && IsLastOf(log, path, line, i)
    requires Issued(c.registry) && (path, line) in c.registry.ids
    requires |HandleStoppedAt(c, cpu, log[i].address, F.Breakpoint).0.registry.ids| <= TWO_TO_32
    ensures var a := log[i].address;
            HandleStoppedAt(c, cpu, a, F.Breakpoint).1 ==
            Stopped(BreakpointStop, CpuToThread(cpu), Some([c.registry.ids[(path, line)]])) <==>
              && !(cpu in c.stepBp && c.stepBp[cpu] == a)
              && a in c.target.bpsAddresses
              && forall j :: i < j < |log| ==> log[j].address != a
  {
    var a := log[i].address;
    StopWithoutStep(c, cpu, a, F.Breakpoint);
    RoundTripIff(log, c.target.index, path, line, i);
    LookupsAreClosed(log, c.target.index, a, path, line);
    var loc := ResolveAddress(c.target.index, a);
    hide ResolveAddress, GetAddress, Indexes;
    StopIssues(c, cpu, a, F.Breakpoint);
    var d := HandleStoppedAt(c, cpu, a, F.Breakpoint).0;
    IssuedIdsInjectiveIff(d.registry);
    hide Issued, CpuToThread, T.RemoveCodeBp;
    assert (path, line) in d.registry.ids && d.registry.ids[(path, line)] == c.registry.ids[(path, line)];
    if a in c.target.bpsAddresses && !(cpu in c.stepBp && c.stepBp[cpu] == a) {
      assert loc.Some? && loc.value in d.registry.ids;
      assert [d.registry.ids[loc.value]][0] == d.registry.ids[loc.value];
    }
  }

  // After any run, a reported hit is at an address where a breakpoint is set in the
  // simulator, and its ID is the one of the location that the address resolves to.
  lemma HitsAreArmed(st: State, inputs: seq<Input>, cpu: CpuId, a: Address, reason: F.StoppedAtReason)
    requires Consistent(st.core.target) && Issued(st.core.registry)
    ensures var c := Run(st, inputs).state.core;
            var (d, event) := HandleStoppedAt(c, cpu, a, reason);
            event.Stopped? &&
            (event.hits.Some? ==>
               a in Armed(d.target.trace) && ResolveAddress(st.core.target.index, a).Some? &&
               var loc := ResolveAddress(st.core.target.index, a).value;
               && loc in d.registry.ids && event.hits == Some([d.registry.ids[loc]])
               && (loc in st.core.registry.ids ==> event.hits == Some([st.core.registry.ids[loc]])))
  {
    hide Run, HandleStoppedAt, Armed, ResolveAddress, Issued, Consistent;
    StoreOverRun(st, inputs);
    IdsOverRun(st, inputs);
    var c := Run(st, inputs).state.core;
    StopIssues(c, cpu, a, reason);
    StopWithoutStep(c, cpu, a, reason);
  }

  // Cleaning up after a step

  // The breakpoint that a step ending at `a` takes away, if there is one: the one of the
  // location that `a` resolves to, which need not be at `a`.
  function CleanedUp(index: DwarfIndex, a: Address): set<Address> {
    match ResolveAddress(index, a)
    case None => {}
    case Some((path, line)) => match GetAddress(index, path, line) { case None => {} case Some(b) => {b} }
  }

  // The store and the simulator after a step has ended.
  lemma FinishedStepRemoves(c: Core, cpu: CpuId, a: Address, reason: F.StoppedAtReason)
    requires cpu in c.stepBp && c.stepBp[cpu] == a
    ensures var (d, event) := HandleStoppedAt(c, cpu, a, reason);
            var gone := CleanedUp(c.target.index, a);
            && event == Stopped(StepStop, CpuToThread(cpu), None) && d.stepBp == c.stepBp - {cpu}
            && d.target.bpsAddresses == c.target.bpsAddresses - gone
            && Armed(d.target.trace) ==
               Armed(c.target.trace) - (if T.Accepted(T.NextReply(c.target)) then gone * c.target.bpsAddresses else {})
  {
    hide ResolveAddress, GetAddress, CpuToThread;
    match ResolveAddress(c.target.index, a)
    case Some((path, line)) =>
      RemoveFrame(c.target, path, line);
      RemoveArms(c.target, path, line);
      hide T.RemoveCodeBp, Armed;
    case None =>
  }

  // When a step ends, its breakpoint is gone exactly when it was already, or the index
  // leads from the address to a location and back. A breakpoint the user had set at the
  // same address is gone with it. All others stay exactly if the index leads back, leads
  // nowhere, or leads to an address where none is set.
  lemma FinishedStepRemovesIff(c: Core, cpu: CpuId, a: Address, reason: F.StoppedAtReason)
    requires cpu in c.stepBp && c.stepBp[cpu] == a
    ensures var d := HandleStoppedAt(c, cpu, a, reason).0;
            var at := ResolveAddress(c.target.index, a);
            var back := if at.Some? then GetAddress(c.target.index, at.value.0, at.value.1) else None;
            && (a !in d.target.bpsAddresses <==> a !in c.target.bpsAddresses || back == Some(a))
            && ((forall b :: b in c.target.bpsAddresses && b != a ==> b in d.target.bpsAddresses)
                <==> back == Some(a) || back == None || back.value !in c.target.bpsAddresses)
  {
    FinishedStepRemoves(c, cpu, a, reason);
    hide HandleStoppedAt, ResolveAddress, GetAddress;
  }

  // A breakpoint reported as verified in a reply keeps its ID through any run that
  // follows, and a stop there reports exactly that ID if and only if no step is pending
  // there, the address is still in the store, and no later row of the line table put
  // another location there.
  lemma LaterHitReportsReplyIdIff(st: State, number: int, path: Path, lines: seq<LineNo>, hash: seq<LineNo>, k: nat,
                                  inputs: seq<Input>, cpu: CpuId, log: seq<Row>, i: nat)
    requires Issued(st.core.registry) && Consistent(st.core.target)
    requires Indexes(st.core.target.index, log) && FileCount(log) <= TWO_TO_32
    requires var (u, r) := Handle(st, DapRequest(number, SetBreakpoints(Some(path), lines, hash)));
             r.Ok? && k < |lines| && k < |T.ReplaceCodeBps(st.core.target, path, lines, hash).1| &&
             T.ReplaceCodeBps(st.core.target, path, lines, hash).1[k].Ok? &&
             IsLastOf(log, path, lines[k], i) &&
             var c := Run(u, inputs).state.core;
             |HandleStoppedAt(c, cpu, log[i].address, F.Breakpoint).0.registry.ids| <= TWO_TO_32
    ensures var u := Handle(st, DapRequest(number, SetBreakpoints(Some(path), lines, hash))).0;
            var reply := HandleSetBreakpoints(st.core, Some(path), lines, hash).1;
            reply.Ok? && reply.value.body.SetBreakpointsBody? && k < |reply.value.body.breakpoints| &&
            var info := reply.value.body.breakpoints[k];
            var c, a := Run(u, inputs).state.core, log[i].address;
            info.id.Some? &&
            (HandleStoppedAt(c, cpu, a, F.Breakpoint).1 ==
             Stopped(BreakpointStop, CpuToThread(cpu), Some([info.id.value])) <==>
               && !(cpu in c.stepBp && c.stepBp[cpu] == a)
               && a in c.target.bpsAddresses
               && forall j :: i < j < |log| ==> log[j].address != a)
  {
    ReplyMatchesRequest(st.core, path, lines, hash);
    var command := SetBreakpoints(Some(path), lines, hash);
    var event := DapRequest(number, command);
    SetBreakpointsHandled(st, number, path, lines, hash);
    HandleKeepsConsistent(st, event);
    HandleIssues(st, event);
    hide Handle, HandleSetBreakpoints, T.ReplaceCodeBps, HandleStoppedAt, CpuToThread, Issued, Consistent, Indexes, Run;
    var u := Handle(st, event).0;
    StoreOverRun(u, inputs);
    IdsOverRun(u, inputs);
    HitReportsReplyIdIff(Run(u, inputs).state.core, cpu, path, lines[k], log, i);
  }
}
