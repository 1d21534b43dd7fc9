/** Stepping over: the search for a target line, and pending steps over whole runs. */
module Steps {
  import opened Wrappers
  import opened Machine
  import F = Frame
  import opened DebugIndex
  import T = Target
  import opened CpuRegistry
  import opened Debugger
  import Runs
  import BreakpointStore

  // The search

  // One attempt of the search: a breakpoint `offset` lines further on.
  function Attempt(t: T.Target, path: Path, line: LineNo, offset: nat): (T.Target, Result<Address, T.TargetError>) {
    T.SetCodeBp(t, path, WrapI64(line + offset))
  }

  // The target after trying the offsets from `from` up to, not including, `to`.
  function Tried(t: T.Target, path: Path, line: LineNo, from: nat, to: nat): T.Target
    decreases to - from
  {
    if to <= from then t else Tried(Attempt(t, path, line, from).0, path, line, from + 1, to)
  }

  predicate FailsSoftly(r: Result<Address, T.TargetError>) {
    r.Err? && r.error != T.SessionLost
  }

  predicate AllFail(t: T.Target, path: Path, line: LineNo, from: nat, to: nat) {
    forall j :: from <= j < to ==> FailsSoftly(Attempt(Tried(t, path, line, from, j), path, line, j).1)
  }

  lemma AllFailCons(t: T.Target, path: Path, line: LineNo, from: nat, to: nat)
    requires from < to && FailsSoftly(Attempt(t, path, line, from).1)
    requires AllFail(Attempt(t, path, line, from).0, path, line, from + 1, to)
    ensures AllFail(t, path, line, from, to)
  {
    hide Attempt, FailsSoftly;
    var u := Attempt(t, path, line, from).0;
    forall j | from <= j < to
      ensures FailsSoftly(Attempt(Tried(t, path, line, from, j), path, line, j).1)
    {
      assert j > from ==> Tried(t, path, line, from, j) == Tried(u, path, line, from + 1, j);
    }
  }

  // The search stops at the first attempt that does not fail softly, if there is one.
  ghost predicate StopsAt(t: T.Target, path: Path, line: LineNo, from: nat, k: nat, u: T.Target,
                          r: Result<Address, T.TargetError>)
  {
    && from <= k < STEP_OVER_LINE_SEARCH_LIMIT
    && AllFail(t, path, line, from, k)
    && Attempt(Tried(t, path, line, from, k), path, line, k) == (u, r)
    && !FailsSoftly(r)
  }

  // `next` takes the smallest offset at which a breakpoint can be set, all smaller ones
  // having failed; it gives up if all fail, and at once if the simulator is lost.
  lemma {:induction false} SearchTakesSmallest(t: T.Target, path: Path, line: LineNo, from: nat)
    requires from <= STEP_OVER_LINE_SEARCH_LIMIT
    ensures var (u, outcome) := Search(t, path, line, from);
            match outcome
            case Found(k, a) => StopsAt(t, path, line, from, k, u, Ok(a))
            case Lost => exists k :: StopsAt(t, path, line, from, k, u, Err(T.SessionLost))
            case NotFound =>
              AllFail(t, path, line, from, STEP_OVER_LINE_SEARCH_LIMIT) &&
              u == Tried(t, path, line, from, STEP_OVER_LINE_SEARCH_LIMIT)
    decreases STEP_OVER_LINE_SEARCH_LIMIT - from
  {
    hide T.SetCodeBp;
    if from < STEP_OVER_LINE_SEARCH_LIMIT {
      var (v, r) := Attempt(t, path, line, from);
      if FailsSoftly(r) {
        SearchTakesSmallest(v, path, line, from + 1);
        var (u, outcome) := Search(t, path, line, from);
        match outcome
        case Found(k, a) => AllFailCons(t, path, line, from, k);
        case Lost =>
          var k :| StopsAt(v, path, line, from + 1, k, u, Err(T.SessionLost));
          AllFailCons(t, path, line, from, k);
          assert StopsAt(t, path, line, from, k, u, Err(T.SessionLost));
        case NotFound => AllFailCons(t, path, line, from, STEP_OVER_LINE_SEARCH_LIMIT);
      } else {
        assert StopsAt(t, path, line, from, from, v, r);
      }
    }
  }

  // Whatever happens, the search adds at most the one breakpoint it reports.
  lemma {:induction false} SearchAddsAtMostOne(t: T.Target, path: Path, line: LineNo, from: nat)
    ensures var (u, outcome) := Search(t, path, line, from);
            u.index == t.index &&
            u.bpsAddresses == t.bpsAddresses + (if outcome.Found? then {outcome.address} else {})
    decreases STEP_OVER_LINE_SEARCH_LIMIT - from
  {
    if from < STEP_OVER_LINE_SEARCH_LIMIT {
      BreakpointStore.SetFrame(t, path, WrapI64(line + from));
      hide T.SetCodeBp, GetAddress;
      SearchAddsAtMostOne(Attempt(t, path, line, from).0, path, line, from + 1);
    }
  }

  // Pending steps

  datatype StepEntry = Armed(cpu: CpuId, address: Address) | Halted(cpu: CpuId, address: Address)

  // What a `next` request arms, also when resuming fails after that.
  function NextArms(c: Core, thread: int64): Option<StepEntry> {
    var cpu :- ThreadToCpu(thread);
    var (t, pc) := T.ReadPc(c.target, cpu);
    if pc.Err? then None
    else
      var (path, line) :- ResolveAddress(t.index, pc.value);
      match Search(t, path, line, 1).1
      case Found(_, a) => Some(Armed(cpu, a))
      case _ => None
  }

  // What an event does to pending steps: a `next` arms one, a stop may be the end of one.
  function EntriesOf(c: Core, event: DebugEvent): (entries: seq<StepEntry>)
    ensures |entries| <= 1
  {
    match event
    case DapRequest(_, Next(thread)) =>
      var armed := NextArms(c, thread);
      if armed.Some? then [armed.value] else []
    case MsimEvent(StoppedAt(cpu, a, _)) => [Halted(cpu, a)]
    case _ => []
  }

  // The armings and stops of a run, in order.
  function StepLog(st: State, inputs: seq<Input>): seq<StepEntry>
    decreases |inputs|
  {
    if inputs == [] || inputs[0].Err? then []
    else
      var (u, r) := Handle(st, inputs[0].value);
      EntriesOf(st.core, inputs[0].value) + if r.Ok? then StepLog(u, inputs[1..]) else []
  }

  function Stepped(m: map<CpuId, Address>, e: StepEntry): map<CpuId, Address> {
    match e
    case Armed(cpu, a) => m[cpu := a]
    case Halted(cpu, a) => if cpu in m && m[cpu] == a then m - {cpu} else m
  }

  function Replay(log: seq<StepEntry>): map<CpuId, Address> {
    if log == [] then map[] else Stepped(Replay(log[..|log| - 1]), log[|log| - 1])
  }

  // Entry `i` arms a step of this CPU that no later entry ends or replaces.
  ghost predicate IsPending(log: seq<StepEntry>, cpu: CpuId, a: Address, i: nat) {
    && i < |log| && log[i] == Armed(cpu, a)
    && forall j :: i < j < |log| ==> log[j] != Halted(cpu, a) && !(log[j].Armed? && log[j].cpu == cpu)
  }

  lemma {:induction false} ReplayIff(log: seq<StepEntry>, cpu: CpuId, a: Address)
    ensures cpu in Replay(log) && Replay(log)[cpu] == a <==> exists i: nat :: IsPending(log, cpu, a, i)
  {
    if log != [] {
      var n := |log| - 1;
      ReplayIff(log[..n], cpu, a);
      if i: nat :| i < n && IsPending(log[..n], cpu, a, i) {
        assert log[n] != Halted(cpu, a) && !(log[n].Armed? && log[n].cpu == cpu) ==> IsPending(log, cpu, a, i);
      }
      if log[n] == Armed(cpu, a) {
        assert IsPending(log, cpu, a, n);
      }
      if i: nat :| i < n && IsPending(log, cpu, a, i) {
        assert IsPending(log[..n], cpu, a, i);
      }
    }
  }

  function After(m: map<CpuId, Address>, entries: seq<StepEntry>): map<CpuId, Address>
    requires |entries| <= 1
  {
    if entries == [] then m else Stepped(m, entries[0])
  }

  lemma NextSteps(c: Core, thread: int64)
    ensures var armed := NextArms(c, thread);
            HandleNext(c, thread).0.stepBp == if armed.Some? then Stepped(c.stepBp, armed.value) else c.stepBp
  {
    hide T.ReadPc, T.SendCommand, Search, ResolveAddress;
  }

  lemma OthersDoNotStep(c: Core, command: Command)
    requires !command.Next?
    ensures HandleRequest(c, command).0.stepBp == c.stepBp
  {
    hide T.ReplaceCodeBps, T.ReadPc, T.CpuCount, T.StepBy, T.SendCommand, T.ReadMemory, ReadScope, WriteScope,
      BreakpointInfos, HandleNext, T.Terminate;
  }

  lemma StopSteps(c: Core, cpu: CpuId, a: Address, reason: F.StoppedAtReason)
    ensures HandleStoppedAt(c, cpu, a, reason).0.stepBp == Stepped(c.stepBp, Halted(cpu, a))
  {
    hide T.RemoveCodeBp, ResolveAddress, T.ResolveCodeBp;
  }

  lemma HandleSteps(st: State, event: DebugEvent)
    ensures Handle(st, event).0.core.stepBp == After(st.core.stepBp, EntriesOf(st.core, event))
  {
    match event
    case DapRequest(_, command) =>
      if command.Next? {
        NextSteps(st.core, command.thread);
      } else {
        OthersDoNotStep(st.core, command);
      }
      assert command.Next? ==> HandleRequest(st.core, command) == HandleNext(st.core, command.thread);
      hide HandleRequest, HandleNext, Finish, NextArms, Stepped;
    case MsimEvent(e) =>
      if e.StoppedAt? {
        StopSteps(st.core, e.cpu, e.address, e.reason);
      }
      hide HandleStoppedAt, Sent, Stepped;
  }

  lemma ReplayOne(log: seq<StepEntry>, entries: seq<StepEntry>)
    requires |entries| <= 1
    ensures Replay(log + entries) == After(Replay(log), entries)
  {
    if entries == [] {
      assert log + entries == log;
    } else {
      assert (log + entries)[..|log|] == log;
    }
  }

  lemma StepLogUnfolds(st: State, inputs: seq<Input>)
    requires inputs != [] && inputs[0].Ok?
    ensures var (u, r) := Handle(st, inputs[0].value);
            StepLog(st, inputs) == EntriesOf(st.core, inputs[0].value) + if r.Ok? then StepLog(u, inputs[1..]) else []
  {
    hide Handle, EntriesOf;
  }

  lemma {:induction false} RunReplays(st: State, inputs: seq<Input>, log: seq<StepEntry>)
    requires st.core.stepBp == Replay(log)
    ensures Run(st, inputs).state.core.stepBp == Replay(log + StepLog(st, inputs))
    decreases |inputs|
  {
    hide Handle, Run, Replay, EntriesOf, After;
    if inputs == [] || inputs[0].Err? {
      Runs.RunOfNothing(st, inputs);
      assert log + [] == log;
    } else {
      var event := inputs[0].value;
      var entries := EntriesOf(st.core, event);
      HandleSteps(st, event);
      ReplayOne(log, entries);
      Runs.RunUnfolds(st, inputs);
      StepLogUnfolds(st, inputs);
      var (u, r) := Handle(st, event);
      hide StepLog;
      if r.Ok? {
        RunReplays(u, inputs[1..], log + entries);
        assert log + entries + StepLog(u, inputs[1..]) == log + StepLog(st, inputs);
      } else {
        assert StepLog(st, inputs) == entries;
      }
    }
  }

  // After any run, a CPU has a pending step at an address exactly when its latest arming
  // was at that address and no later stop of that CPU was there.
  lemma PendingStepIff(st: State, inputs: seq<Input>, cpu: CpuId, a: Address)
    requires st.core.stepBp == map[]
    ensures var m := Run(st, inputs).state.core.stepBp;
            cpu in m && m[cpu] == a <==> exists i: nat :: IsPending(StepLog(st, inputs), cpu, a, i)
  {
    RunReplays(st, inputs, []);
    assert [] + StepLog(st, inputs) == StepLog(st, inputs);
    ReplayIff(StepLog(st, inputs), cpu, a);
  }

  // Every arming is matched by a stop once, replaced once, or still pending.

  function Armings(log: seq<StepEntry>, cpu: CpuId): nat {
    if log == [] then 0
    else
      var e := log[|log| - 1];
      Armings(log[..|log| - 1], cpu) + if e.Armed? && e.cpu == cpu then 1 else 0
  }

  // Stops at the address that was pending for their CPU.
  function Matches(log: seq<StepEntry>, cpu: CpuId): nat {
    if log == [] then 0
    else
      var before, e := log[..|log| - 1], log[|log| - 1];
      var m := Replay(before);
      Matches(before, cpu) + if e.Halted? && e.cpu == cpu && cpu in m && m[cpu] == e.address then 1 else 0
  }

  // Armings while one was still pending for their CPU.
  function Overwrites(log: seq<StepEntry>, cpu: CpuId): nat {
    if log == [] then 0
    else
      var before, e := log[..|log| - 1], log[|log| - 1];
      Overwrites(before, cpu) + if e.Armed? && e.cpu == cpu && cpu in Replay(before) then 1 else 0
  }

  lemma {:induction false} ArmingsAreConserved(log: seq<StepEntry>, cpu: CpuId)
    ensures Armings(log, cpu) == Matches(log, cpu) + Overwrites(log, cpu) + (if cpu in Replay(log) then 1 else 0)
  {
    if log != [] {
      ArmingsAreConserved(log[..|log| - 1], cpu);
    }
  }

  lemma ArmingsOfRunConserved(st: State, inputs: seq<Input>, cpu: CpuId)
    requires st.core.stepBp == map[]
    ensures var log := StepLog(st, inputs);
            Armings(log, cpu) ==
            Matches(log, cpu) + Overwrites(log, cpu) + (if cpu in Run(st, inputs).state.core.stepBp then 1 else 0)
  {
    RunReplays(st, inputs, []);
    assert [] + StepLog(st, inputs) == StepLog(st, inputs);
    ArmingsAreConserved(StepLog(st, inputs), cpu);
  }
}
