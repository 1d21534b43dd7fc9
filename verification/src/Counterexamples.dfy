/** Inputs on which claims fail that hold only under the conditions stated elsewhere. */
module Counterexamples {
  import opened Wrappers
  import opened Machine
  import opened Interning
  import F = Frame
  import opened DebugIndex
  import T = Target
  import opened BreakpointStore
  import opened Replacing
  import opened Breakpoints
  import opened CpuRegistry
  import opened Debugger

  const REJECTION: T.Reply := Ok(F.RawResponse(F.UnspecifiedError, 0, 0, 0))

  function Start(index: DwarfIndex, script: seq<T.Reply>): Core {
    NewState(index, script, 0).core
  }

  const SET: Result<(), T.TargetError> := Ok(())

  // Hits

  lemma TwoLinesGetIds(path: Path, l: LineNo, m: LineNo)
    requires l != m
    ensures BreakpointInfos(EMPTY_REGISTRY, path, [l, m], [SET, SET]) ==
            (Registry(2, map[(path, l) := 0, (path, m) := 1]),
             Ok([BreakpointInfo(Some(0), true, l), BreakpointInfo(Some(1), true, m)]))
  {
    var r1, r2 := Registry(1, map[(path, l) := 0]), Registry(2, map[(path, l) := 0, (path, m) := 1]);
    assert WithId(EMPTY_REGISTRY, (path, l)) == r1 && WithId(r1, (path, m)) == r2;
    assert [l, m][1..] == [m] && [m][1..] == [] && [SET, SET][1..] == [SET] && [SET][1..] == [];
    hide WithId;
    var first, second := BreakpointInfo(Some(0), true, l), BreakpointInfo(Some(1), true, m);
    assert [second] + [] == [second] && [first] + [second] == [first, second];
    assert BreakpointInfos(r2, path, [], []) == (r2, Ok([]));
    assert BreakpointInfos(r1, path, [m], [SET]) == (r2, Ok([second]));
  }

  // Two lines of one file share an address. Both are reported as set, under the IDs 0 and
  // 1. A stop there is reported under ID 1 only, whichever line the client meant.
  lemma HitReportsOtherId(index: DwarfIndex, path: Path, l: LineNo, m: LineNo, a: Address, hash: seq<LineNo>,
                          cpu: CpuId)
    requires l != m && Indexes(index, [Row(a, path, l), Row(a, path, m)])
    ensures GetAddress(index, path, l) == Some(a) && ResolveAddress(index, a) == Some((path, m))
    ensures var (d, reply) := HandleSetBreakpoints(Start(index, [OK_REPLY, OK_REPLY]), Some(path), [l, m], hash);
            reply == Reply(SetBreakpointsBody([BreakpointInfo(Some(0), true, l), BreakpointInfo(Some(1), true, m)])) &&
            HandleStoppedAt(d, cpu, a, F.Breakpoint).1 == Stopped(BreakpointStop, CpuToThread(cpu), Some([1]))
  {
    var log := [Row(a, path, l), Row(a, path, m)];
    DistinctIsSound(Paths(log));
    RowsCanShareAnAddress(index, path, l, m, a);
    RoundTripIff(log, index, path, m, 1);
    FirstCall(index, path, l, m, a, hash);
    TwoLinesGetIds(path, l, m);
    hide GetAddress, ResolveAddress, Indexes, T.ReplaceCodeBps, BreakpointInfos, CpuToThread;
  }

  // Histories

  lemma TraceOf(trace: seq<T.Exchange>, request: F.Request, reply: T.Reply)
    requires !IsBpRequest(request)
    ensures Armed(trace + [T.Exchange(request, reply)]) == Armed(trace)
  {
    assert (trace + [T.Exchange(request, reply)])[..|trace|] == trace;
  }

  lemma SetTraced(trace: seq<T.Exchange>, a: Address)
    ensures Armed(trace + [T.Exchange(F.SetCodeBreakpoint(a), OK_REPLY)]) == Armed(trace) + {a}
  {
    var e := T.Exchange(F.SetCodeBreakpoint(a), OK_REPLY);
    assert (trace + [e])[..|trace|] == trace;
  }

  lemma RefusalTraced(trace: seq<T.Exchange>, a: Address)
    ensures Armed(trace + [T.Exchange(F.RemoveCodeBreakpoint(a), REJECTION)]) == Armed(trace)
    ensures Believed(trace + [T.Exchange(F.RemoveCodeBreakpoint(a), REJECTION)]) == Believed(trace) - {a}
  {
    var e := T.Exchange(F.RemoveCodeBreakpoint(a), REJECTION);
    assert (trace + [e])[..|trace|] == trace;
  }

  // Rejected removals

  // The simulator refuses to remove a breakpoint: it stays set, believed gone.
  lemma RejectedRemovalStaysSet(index: DwarfIndex, path: Path, line: LineNo, a: Address)
    requires GetAddress(index, path, line) == Some(a)
    ensures var u := T.SetCodeBp(T.NewTarget(index, [OK_REPLY, REJECTION]), path, line).0;
            var (v, r) := T.RemoveCodeBp(u, path, line);
            r == Err(T.RequestRejected) && a in Armed(v.trace) && a !in Believed(v.trace) && v.bpsAddresses == {}
  {
    hide GetAddress, Armed, Believed, T.WithoutFirst;
    var u := T.SetCodeBp(T.NewTarget(index, [OK_REPLY, REJECTION]), path, line).0;
    SetTraced([], a);
    assert u.trace == [] + [T.Exchange(F.SetCodeBreakpoint(a), OK_REPLY)];
    assert u.script == [REJECTION] && u.bpsAddresses == {a};
    RefusalTraced(u.trace, a);
  }

  // Steps

  // `next` from a program counter in line 4, when line 5 has the address `a`.
  lemma NextToLineFive(c: Core, path: Path, z: Address, a: Address)
    requires T.NextReply(c.target) == Ok(F.RawResponse(F.StatusOk, z, 0, 0))
    requires ResolveAddress(c.target.index, z) == Some((path, 4)) && GetAddress(c.target.index, path, 5) == Some(a)
    ensures var t := T.AfterSend(c.target, F.ReadPC(0));
            T.SetCodeBp(t, path, 5).1.Ok? ==>
              var u := T.SetCodeBp(t, path, 5).0;
              HandleNext(c, 1).0 == c.(target := T.AfterSend(u, F.Resume), stepBp := c.stepBp[0 := a])
  {
    var t := T.AfterSend(c.target, F.ReadPC(0));
    WrapI64Fits(5);
    hide ResolveAddress, GetAddress, WrapI64;
    if T.SetCodeBp(t, path, 5).1.Ok? {
      assert T.SetCodeBp(t, path, 5).1 == Ok(a);
      hide T.SetCodeBp;
      assert Search(t, path, 4, 1) == (T.SetCodeBp(t, path, 5).0, Found(1, a));
      hide Search;
    }
  }

  lemma FourRows(index: DwarfIndex, path: Path, z: Address, a: Address, b: Address)
    requires z != a && z != b && a != b
    requires Indexes(index, [Row(z, path, 4), Row(a, path, 5), Row(a, path, 6), Row(b, path, 6)])
    ensures ResolveAddress(index, z) == Some((path, 4)) && ResolveAddress(index, a) == Some((path, 6))
    ensures GetAddress(index, path, 5) == Some(a) && GetAddress(index, path, 6) == Some(b)
  {
    var log := [Row(z, path, 4), Row(a, path, 5), Row(a, path, 6), Row(b, path, 6)];
    DistinctIsSound(Paths(log));
    RoundTripIff(log, index, path, 4, 0);
    RoundTripIff(log, index, path, 5, 1);
    RoundTripIff(log, index, path, 6, 3);
    ResolveIsFloorScan(log, index, a);
    assert log[2].address == a;
    hide GetAddress, ResolveAddress, Indexes;
  }

  lemma StepStays(u: T.Target, path: Path, a: Address, b: Address)
    requires ResolveAddress(u.index, a) == Some((path, 6)) && GetAddress(u.index, path, 6) == Some(b) && a != b
    requires u.bpsAddresses == {a} && u.trace != [] &&
             u.trace[|u.trace| - 1] == T.Exchange(F.SetCodeBreakpoint(a), OK_REPLY)
    ensures var d := Core(T.AfterSend(u, F.Resume), EMPTY_REGISTRY, map[0 := a]);
            var (e, event) := HandleStoppedAt(d, 0, a, F.Breakpoint);
            event == Stopped(StepStop, 1, None) && a in e.target.bpsAddresses && a in Armed(e.target.trace)
  {
    hide GetAddress, ResolveAddress, T.WithoutFirst;
    var resume := T.Exchange(F.Resume, T.NextReply(u));
    assert (u.trace + [resume])[..|u.trace|] == u.trace;
    assert a in Armed(u.trace);
  }

  // Two lines share the address `a`; the later of them also has another address. A step
  // to the earlier line ends, and its breakpoint stays set: the index does not lead back.
  lemma StepBreakpointStays(index: DwarfIndex, path: Path, z: Address, a: Address, b: Address)
    requires z != a && z != b && a != b
    requires Indexes(index, [Row(z, path, 4), Row(a, path, 5), Row(a, path, 6), Row(b, path, 6)])
    ensures var c := Start(index, [Ok(F.RawResponse(F.StatusOk, z, 0, 0)), OK_REPLY, OK_REPLY]);
            var d := HandleNext(c, 1).0;
            var (e, event) := HandleStoppedAt(d, 0, a, F.Breakpoint);
            event == Stopped(StepStop, 1, None) && a in e.target.bpsAddresses && a in Armed(e.target.trace)
  {
    FourRows(index, path, z, a, b);
    hide GetAddress, ResolveAddress, Indexes;
    var pc: T.Reply := Ok(F.RawResponse(F.StatusOk, z, 0, 0));
    var c := Start(index, [pc, OK_REPLY, OK_REPLY]);
    assert [pc, OK_REPLY, OK_REPLY][1..] == [OK_REPLY, OK_REPLY] && [OK_REPLY, OK_REPLY][1..] == [OK_REPLY];
    var t := T.AfterSend(c.target, F.ReadPC(0));
    NextToLineFive(c, path, z, a);
    var u := T.SetCodeBp(t, path, 5).0;
    assert u.bpsAddresses == {a} && u.trace == t.trace + [T.Exchange(F.SetCodeBreakpoint(a), OK_REPLY)];
    hide HandleNext;
    StepStays(u, path, a, b);
  }

  lemma TwoRows(index: DwarfIndex, path: Path, z: Address, a: Address)
    requires z != a && Indexes(index, [Row(z, path, 4), Row(a, path, 5)])
    ensures ResolveAddress(index, z) == Some((path, 4)) && ResolveAddress(index, a) == Some((path, 5))
    ensures GetAddress(index, path, 5) == Some(a)
  {
    var log := [Row(z, path, 4), Row(a, path, 5)];
    DistinctIsSound(Paths(log));
    RoundTripIff(log, index, path, 4, 0);
    RoundTripIff(log, index, path, 5, 1);
    hide GetAddress, ResolveAddress, Indexes;
  }

  lemma OneLine(t: T.Target, path: Path, line: LineNo, a: Address, hash: seq<LineNo>)
    requires t.bpsPerFile == map[] && t.bpsAddresses == {} && T.NextReply(t) == OK_REPLY
    requires GetAddress(t.index, path, line) == Some(a)
    ensures var e := T.Exchange(F.SetCodeBreakpoint(a), OK_REPLY);
            T.ReplaceCodeBps(t, path, [line], hash) ==
            (T.AfterSend(t, F.SetCodeBreakpoint(a)).(bpsAddresses := {a}, bpsPerFile := map[path := [(line, a)]]),
             [Ok(())])
    ensures Armed([T.Exchange(F.SetCodeBreakpoint(a), OK_REPLY)]) == {a}
  {
    hide GetAddress;
    ArrangedOfNone(hash);
    assert [T.Exchange(F.SetCodeBreakpoint(a), OK_REPLY)][..0] == [];
    assert t.(bpsPerFile := t.bpsPerFile - {path}) == t;
    assert KnownLines(t, path) == map[] && KnownLines(t, path).Keys == {};
    assert T.DropLines(t, path, [], [line]) == t;
    assert [] + [(line, a)] == [(line, a)];
    var u := T.AfterSend(t, F.SetCodeBreakpoint(a)).(bpsAddresses := {a}, bpsPerFile := map[path := [(line, a)]]);
    assert {} + {a} == {a} && map[][path := [(line, a)]] == map[path := [(line, a)]];
    assert T.SetCodeBp(t, path, line) == (u, Ok(a));
    assert [line][1..] == [];
    assert T.AddLines(u, path, [], map[]) == T.Added(u, [], []);
    assert T.AddLines(t, path, [line], map[]) == T.Added(u, [(line, a)], [Ok(())]);
    hide T.AddLines, T.SetCodeBp, T.Arranged;
    assert u.bpsPerFile[path := [(line, a)]] == u.bpsPerFile;
  }

  lemma OneLineGetsId(path: Path, line: LineNo)
    ensures BreakpointInfos(EMPTY_REGISTRY, path, [line], [SET]) ==
            (Registry(1, map[(path, line) := 0]), Ok([BreakpointInfo(Some(0), true, line)]))
  {
    var r := Registry(1, map[(path, line) := 0]);
    assert [line][1..] == [] && [SET][1..] == [];
    assert [BreakpointInfo(Some(0), true, line)] + [] == [BreakpointInfo(Some(0), true, line)];
    assert BreakpointInfos(r, path, [], []) == (r, Ok([]));
  }

  // The user sets one line.
  lemma OneLineReplied(index: DwarfIndex, script: seq<T.Reply>, path: Path, line: LineNo, a: Address, hash: seq<LineNo>)
    requires script != [] && script[0] == OK_REPLY && GetAddress(index, path, line) == Some(a)
    ensures var (d, reply) := HandleSetBreakpoints(Start(index, script), Some(path), [line], hash);
            && reply == Reply(SetBreakpointsBody([BreakpointInfo(Some(0), true, line)]))
            && d.target.index == index && d.target.script == script[1..] && d.stepBp == map[]
            && d.target.bpsAddresses == {a} && Armed(d.target.trace) == {a}
  {
    var t := T.NewTarget(index, script);
    OneLine(t, path, line, a, hash);
    OneLineGetsId(path, line);
    hide GetAddress, T.ReplaceCodeBps, BreakpointInfos, Armed;
    assert t.trace + [T.Exchange(F.SetCodeBreakpoint(a), OK_REPLY)] == [T.Exchange(F.SetCodeBreakpoint(a), OK_REPLY)];
  }

  lemma StepErases(t: T.Target, registry: Registry, path: Path, line: LineNo, a: Address, b: Address)
    requires ResolveAddress(t.index, a) == Some((path, line)) && GetAddress(t.index, path, line) == Some(b)
    requires b in t.bpsAddresses && T.NextReply(t) == OK_REPLY
    ensures var (e, event) := HandleStoppedAt(Core(t, registry, map[0 := a]), 0, a, F.Breakpoint);
            event == Stopped(StepStop, 1, None) &&
            e.target.bpsAddresses == t.bpsAddresses - {b} && Armed(e.target.trace) == Armed(t.trace) - {b}
  {
    hide GetAddress, ResolveAddress, T.WithoutFirst;
    var remove := T.Exchange(F.RemoveCodeBreakpoint(b), OK_REPLY);
    assert (t.trace + [remove])[..|t.trace|] == t.trace;
  }

  // The user has a breakpoint in line 5, reported as set. A step from line 4 ends there,
  // and the breakpoint is gone, from the adapter and from the simulator.
  lemma StepErasesUserBreakpoint(index: DwarfIndex, path: Path, z: Address, a: Address, hash: seq<LineNo>)
    requires z != a && Indexes(index, [Row(z, path, 4), Row(a, path, 5)])
    ensures var c := Start(index, [OK_REPLY, Ok(F.RawResponse(F.StatusOk, z, 0, 0)), OK_REPLY, OK_REPLY]);
            var (d, reply) := HandleSetBreakpoints(c, Some(path), [5], hash);
            var (e, event) := HandleStoppedAt(HandleNext(d, 1).0, 0, a, F.Breakpoint);
            && reply == Reply(SetBreakpointsBody([BreakpointInfo(Some(0), true, 5)])) && a in Armed(d.target.trace)
            && event == Stopped(StepStop, 1, None) && a !in e.target.bpsAddresses && a !in Armed(e.target.trace)
  {
    TwoRows(index, path, z, a);
    hide GetAddress, ResolveAddress, Indexes, HandleSetBreakpoints, Armed;
    var pc: T.Reply := Ok(F.RawResponse(F.StatusOk, z, 0, 0));
    var script := [OK_REPLY, pc, OK_REPLY, OK_REPLY];
    assert script[1..] == [pc, OK_REPLY, OK_REPLY] && script[1..][1..] == [OK_REPLY, OK_REPLY];
    assert [OK_REPLY, OK_REPLY][1..] == [OK_REPLY];
    OneLineReplied(index, script, path, 5, a, hash);
    var d := HandleSetBreakpoints(Start(index, script), Some(path), [5], hash).0;
    NextToLineFive(d, path, z, a);
    var u := T.AfterSend(d.target, F.ReadPC(0));
    assert T.SetCodeBp(u, path, 5) == (u, Ok(a));
    hide HandleNext;
    StepErases(T.AfterSend(u, F.Resume), d.registry, path, 5, a, a);
  }

  // The breakpoint of the step joins the one there is.
  lemma StepToFive(t: T.Target, path: Path, a: Address, b: Address, pc: T.Reply)
    requires GetAddress(t.index, path, 5) == Some(a) && a != b
    requires t.bpsAddresses == {b} && Armed(t.trace) == {b} && t.script == [pc, OK_REPLY, OK_REPLY, OK_REPLY]
    ensures var (u, r) := T.SetCodeBp(T.AfterSend(t, F.ReadPC(0)), path, 5);
            var v := T.AfterSend(u, F.Resume);
            && r.Ok? && v.index == t.index && v.script == [OK_REPLY]
            && v.bpsAddresses == {b, a} && Armed(v.trace) == {b, a}
  {
    hide GetAddress, Armed;
    var t1 := T.AfterSend(t, F.ReadPC(0));
    assert t1.script == [OK_REPLY, OK_REPLY, OK_REPLY];
    TraceOf(t.trace, F.ReadPC(0), pc);
    var u := T.SetCodeBp(t1, path, 5).0;
    assert u.script == [OK_REPLY, OK_REPLY] && u.trace == t1.trace + [T.Exchange(F.SetCodeBreakpoint(a), OK_REPLY)];
    SetTraced(t1.trace, a);
    TraceOf(u.trace, F.Resume, OK_REPLY);
  }

  lemma NextBeside(d: Core, path: Path, z: Address, a: Address, b: Address)
    requires d.stepBp == map[] && d.target.bpsAddresses == {b} && Armed(d.target.trace) == {b} && a != b
    requires d.target.script == [Ok(F.RawResponse(F.StatusOk, z, 0, 0)), OK_REPLY, OK_REPLY, OK_REPLY]
    requires ResolveAddress(d.target.index, z) == Some((path, 4)) && GetAddress(d.target.index, path, 5) == Some(a)
    ensures var e := HandleNext(d, 1).0;
            && e == Core(e.target, d.registry, map[0 := a]) && e.target.index == d.target.index
            && e.target.bpsAddresses == {b, a} && Armed(e.target.trace) == {b, a} && e.target.script == [OK_REPLY]
  {
    hide GetAddress, ResolveAddress, Armed, HandleNext;
    NextToLineFive(d, path, z, a);
    StepToFive(d.target, path, a, b, Ok(F.RawResponse(F.StatusOk, z, 0, 0)));
    hide T.SetCodeBp;
    assert map[][0 := a] == map[0 := a];
  }

  // Lines 5 and 6 share the address `a` and line 6 has the address `b` besides. The user
  // has a breakpoint in line 6, reported as set. A step from line 4 ends in line 5, and the
  // user's breakpoint is gone, while the one of the step stays.
  lemma StepErasesOtherBreakpoint(index: DwarfIndex, path: Path, z: Address, a: Address, b: Address, hash: seq<LineNo>)
    requires z != a && z != b && a != b
    requires Indexes(index, [Row(z, path, 4), Row(a, path, 5), Row(a, path, 6), Row(b, path, 6)])
    ensures var c := Start(index, [OK_REPLY, Ok(F.RawResponse(F.StatusOk, z, 0, 0)), OK_REPLY, OK_REPLY, OK_REPLY]);
            var (d, reply) := HandleSetBreakpoints(c, Some(path), [6], hash);
            var (e, event) := HandleStoppedAt(HandleNext(d, 1).0, 0, a, F.Breakpoint);
            && reply == Reply(SetBreakpointsBody([BreakpointInfo(Some(0), true, 6)])) && Armed(d.target.trace) == {b}
            && event == Stopped(StepStop, 1, None) && e.target.bpsAddresses == {a} && Armed(e.target.trace) == {a}
  {
    hide GetAddress, ResolveAddress, Indexes, HandleSetBreakpoints, HandleNext, HandleStoppedAt, Armed;
    FourRows(index, path, z, a, b);
    var pc: T.Reply := Ok(F.RawResponse(F.StatusOk, z, 0, 0));
    var script := [OK_REPLY, pc, OK_REPLY, OK_REPLY, OK_REPLY];
    assert script[1..] == [pc, OK_REPLY, OK_REPLY, OK_REPLY];
    OneLineReplied(index, script, path, 6, b, hash);
    var d := HandleSetBreakpoints(Start(index, script), Some(path), [6], hash).0;
    NextBeside(d, path, z, a, b);
    StepErases(HandleNext(d, 1).0.target, d.registry, path, 6, a, b);
    assert {b, a} - {b} == {a};
  }

  // Memory

  // Reading the last 24 bytes of memory asks for none and succeeds.
  lemma TopOfMemoryReadsNothing(t: T.Target, space: T.Space)
    ensures T.ReadMemory(t, space, TWO_TO_64 - 24, 24) == (t, Ok([]))
  {
    assert WrapU64(TWO_TO_64 - 24 + 24) == 0;
    hide WrapU64;
  }

  // Two files

  lemma SharedLine(t: T.Target, source: Path, line: LineNo, a: Address, hash: seq<LineNo>)
    requires source !in t.bpsPerFile && a in t.bpsAddresses && GetAddress(t.index, source, line) == Some(a)
    ensures T.ReplaceCodeBps(t, source, [line], hash) ==
            (t.(bpsPerFile := t.bpsPerFile[source := [(line, a)]]), [Ok(())])
  {
    hide GetAddress;
    ArrangedOfNone(hash);
    assert t.(bpsPerFile := t.bpsPerFile - {source}) == t;
    assert KnownLines(t, source) == map[] && KnownLines(t, source).Keys == {};
    assert T.DropLines(t, source, [], [line]) == t;
    assert [line][1..] == [];
    assert T.AddLines(t, source, [], map[]) == T.Added(t, [], []);
    assert T.AddLines(t, source, [line], map[]) == T.Added(t, [(line, a)], [Ok(())]);
    hide T.AddLines, T.SetCodeBp, T.Arranged;
  }

  lemma {:induction false} DropOfOne(t: T.Target, source: Path, order: seq<LineNo>, line: LineNo, a: Address)
    requires source !in t.bpsPerFile && GetAddress(t.index, source, line) == Some(a)
    requires forall i :: 0 <= i < |order| ==> order[i] == line
    ensures a !in t.bpsAddresses ==> T.DropLines(t, source, order, []) == t
    ensures a in t.bpsAddresses && order != [] ==>
              T.DropLines(t, source, order, []) ==
              T.AfterSend(t, F.RemoveCodeBreakpoint(a)).(bpsAddresses := t.bpsAddresses - {a})
    decreases |order|
  {
    hide GetAddress;
    if order != [] {
      DropOfOne(T.RemoveCodeBp(t, source, line).0, source, order[1..], line, a);
    }
  }

  lemma ByLineOfOne(line: LineNo, a: Address)
    ensures T.ByLine([(line, a)]) == map[line := a]
  {
    assert [(line, a)][..0] == [];
  }

  lemma DroppedLine(t: T.Target, source: Path, line: LineNo, a: Address, hash: seq<LineNo>)
    requires T.OldEntries(t, source) == [(line, a)] && a in t.bpsAddresses &&
             GetAddress(t.index, source, line) == Some(a)
    ensures T.ReplaceCodeBps(t, source, [], hash) ==
            (T.AfterSend(t, F.RemoveCodeBreakpoint(a)).(bpsAddresses := t.bpsAddresses - {a},
                                                        bpsPerFile := t.bpsPerFile - {source}), [])
  {
    ByLineOfOne(line, a);
    var known := map[line := a];
    var order := T.Arranged(known.Keys, hash);
    ArrangedIsAll(known.Keys, hash);
    assert line in known.Keys && forall i :: 0 <= i < |order| ==> order[i] in known.Keys;
    var t1 := t.(bpsPerFile := t.bpsPerFile - {source});
    hide GetAddress, T.ByLine, T.Arranged;
    DropOfOne(t1, source, order, line, a);
    hide T.DropLines;
  }

  lemma {:induction false} KeptIsNotDropped(t: T.Target, source: Path, order: seq<LineNo>, line: LineNo)
    requires forall i :: 0 <= i < |order| ==> order[i] == line
    ensures T.DropLines(t, source, order, [line]) == t
    decreases |order|
  {
    if order != [] {
      KeptIsNotDropped(t, source, order[1..], line);
    }
  }

  lemma KeptLine(t: T.Target, source: Path, line: LineNo, a: Address, hash: seq<LineNo>)
    requires T.OldEntries(t, source) == [(line, a)]
    ensures var (u, results) := T.ReplaceCodeBps(t, source, [line], hash);
            u.index == t.index && u.trace == t.trace && u.bpsAddresses == t.bpsAddresses && results == [Ok(())]
  {
    ByLineOfOne(line, a);
    var known := map[line := a];
    var order := T.Arranged(known.Keys, hash);
    ArrangedIsAll(known.Keys, hash);
    assert forall i :: 0 <= i < |order| ==> order[i] in known.Keys;
    var t1 := t.(bpsPerFile := t.bpsPerFile - {source});
    KeptIsNotDropped(t1, source, order, line);
    assert [line][1..] == [];
    assert T.AddLines(t1, source, [], known) == T.Added(t1, [], []);
    assert T.AddLines(t1, source, [line], known) == T.Added(t1, [(line, a)], [Ok(())]);
    hide T.ByLine, T.Arranged, T.AddLines, T.DropLines;
  }

  // A line of each of two files has the address `a`. Both are set, then the other file's
  // is dropped: the first file's line goes on being reported as set, and is not.
  lemma OtherFileDropsBreakpoint(index: DwarfIndex, p: Path, l: LineNo, q: Path, m: LineNo, a: Address,
                                 hash: seq<LineNo>)
    requires p != q && GetAddress(index, p, l) == Some(a) == GetAddress(index, q, m)
    ensures var t := T.ReplaceCodeBps(T.NewTarget(index, [OK_REPLY, OK_REPLY]), p, [l], hash).0;
            var u := T.ReplaceCodeBps(t, q, [m], hash).0;
            var v := T.ReplaceCodeBps(u, q, [], hash).0;
            var (w, results) := T.ReplaceCodeBps(v, p, [l], hash);
            Armed(u.trace) == {a} && results == [Ok(())] && Armed(w.trace) == {}
  {
    hide GetAddress, T.ReplaceCodeBps;
    var t0 := T.NewTarget(index, [OK_REPLY, OK_REPLY]);
    assert [OK_REPLY, OK_REPLY][1..] == [OK_REPLY];
    OneLine(t0, p, l, a, hash);
    var t := T.ReplaceCodeBps(t0, p, [l], hash).0;
    SharedLine(t, q, m, a, hash);
    var u := T.ReplaceCodeBps(t, q, [m], hash).0;
    DroppedLine(u, q, m, a, hash);
    var v := T.ReplaceCodeBps(u, q, [], hash).0;
    KeptLine(v, p, l, a, hash);
    var set1, remove := T.Exchange(F.SetCodeBreakpoint(a), OK_REPLY), T.Exchange(F.RemoveCodeBreakpoint(a), OK_REPLY);
    assert t.trace == [set1] && v.trace == [set1] + [remove] == [set1, remove];
    assert [set1, remove][..1] == [set1];
  }

  // A breakpoint is set, dropped with its removal rejected, and asked for again: it is set
  // a second time in the simulator.
  lemma BreakpointIsSetTwice(index: DwarfIndex, path: Path, line: LineNo, a: Address, hash: seq<LineNo>)
    requires GetAddress(index, path, line) == Some(a)
    ensures var t := T.ReplaceCodeBps(T.NewTarget(index, [OK_REPLY, REJECTION, OK_REPLY]), path, [line], hash).0;
            var u := T.ReplaceCodeBps(t, path, [], hash).0;
            var v := T.ReplaceCodeBps(u, path, [line], hash).0;
            |v.trace| == 3 && v.trace[..2] == u.trace && a in Armed(u.trace) &&
            v.trace[2] == T.Exchange(F.SetCodeBreakpoint(a), OK_REPLY)
  {
    hide GetAddress, T.ReplaceCodeBps;
    var t0 := T.NewTarget(index, [OK_REPLY, REJECTION, OK_REPLY]);
    assert [OK_REPLY, REJECTION, OK_REPLY][1..] == [REJECTION, OK_REPLY] && [REJECTION, OK_REPLY][1..] == [OK_REPLY];
    OneLine(t0, path, line, a, hash);
    var t := T.ReplaceCodeBps(t0, path, [line], hash).0;
    DroppedLine(t, path, line, a, hash);
    var u := T.ReplaceCodeBps(t, path, [], hash).0;
    assert {a} - {a} == {} && map[path := [(line, a)]] - {path} == map[];
    OneLine(u, path, line, a, hash);
    var set1, remove := T.Exchange(F.SetCodeBreakpoint(a), OK_REPLY), T.Exchange(F.RemoveCodeBreakpoint(a), REJECTION);
    assert t.trace == [set1] && u.trace == [set1] + [remove] == [set1, remove];
    assert [set1, remove][..1] == [set1];
  }

  // After a rejected removal the line is still listed. It is reported as set, it is set,
  // and a stop there reports no hit.
  lemma HitReportsNothing(index: DwarfIndex, path: Path, line: LineNo, a: Address, hash: seq<LineNo>, cpu: CpuId)
    requires GetAddress(index, path, line) == Some(a)
    ensures var u := T.SetCodeBp(T.NewTarget(index, [OK_REPLY, REJECTION]), path, line).0;
            var v := T.RemoveCodeBp(u, path, line).0;
            var (d, reply) := HandleSetBreakpoints(Core(v, EMPTY_REGISTRY, map[]), Some(path), [line], hash);
            && reply == Reply(SetBreakpointsBody([BreakpointInfo(Some(0), true, line)])) && a in Armed(d.target.trace)
            && HandleStoppedAt(d, cpu, a, F.Breakpoint).1 == Stopped(BreakpointStop, CpuToThread(cpu), None)
  {
    RejectedRemovalStaysSet(index, path, line, a);
    hide GetAddress, Armed, CpuToThread;
    assert [OK_REPLY, REJECTION][1..] == [REJECTION] && [] + [(line, a)] == [(line, a)];
    var u := T.SetCodeBp(T.NewTarget(index, [OK_REPLY, REJECTION]), path, line).0;
    var v := T.RemoveCodeBp(u, path, line).0;
    assert T.OldEntries(v, path) == [(line, a)];
    KeptLine(v, path, line, a, hash);
    OneLineGetsId(path, line);
    hide T.ReplaceCodeBps, BreakpointInfos, T.RemoveCodeBp, T.SetCodeBp;
  }
}
