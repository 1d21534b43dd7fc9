/** The target object (src/target/msim_target.rs): its methods compute the functions of Target. */
module MsimTargets {
  import opened Wrappers
  import opened Machine
  import opened Frame
  import opened Connection
  import opened DebugIndex
  import opened Registers
  import T = Target
  import opened BreakpointStore

  // What the second loop of `replace_code_bps` yields after some lines.
  ghost function Joined(entries: seq<(LineNo, Address)>, results: seq<Result<(), T.TargetError>>, rest: T.Added)
    : T.Added
  {
    T.Added(rest.target, entries + rest.entries, results + rest.results)
  }

  lemma JoinedTwice(entries: seq<(LineNo, Address)>, results: seq<Result<(), T.TargetError>>,
                    moreEntries: seq<(LineNo, Address)>, moreResults: seq<Result<(), T.TargetError>>, rest: T.Added)
    ensures Joined(entries, results, Joined(moreEntries, moreResults, rest)) ==
            Joined(entries + moreEntries, results + moreResults, rest)
    ensures Joined([], [], rest) == rest && entries + [] == entries && [] + rest.entries == rest.entries
  {
    assert entries + (moreEntries + rest.entries) == entries + moreEntries + rest.entries;
    assert results + (moreResults + rest.results) == results + moreResults + rest.results;
  }

  ghost function FinishConfig(read: (T.Target, Result<map<CpuId, CpuArch>, T.TargetError>), count: uint64)
    : (T.Target, Result<T.Config, T.TargetError>)
  {
    if read.1.Err? then (read.0, Err(read.1.error))
    else var config := T.Config(count, read.1.value); (read.0.(config := Some(config)), Ok(config))
  }

  class MsimTarget {
    const index: DwarfIndex
    var bpsPerFile: map<Path, seq<(LineNo, Address)>>
    var bpsAddresses: set<Address>
    var config: Option<T.Config>
    // The connection: replies to come, and requests sent with their replies.
    var script: seq<T.Reply>
    var trace: seq<T.Exchange>

    ghost function Value(): T.Target
      reads this
    {
      T.Target(index, bpsPerFile, bpsAddresses, config, script, trace)
    }

    constructor (index: DwarfIndex, script: seq<T.Reply>)
      ensures Value() == T.NewTarget(index, script) && Consistent(Value())
    {
      this.index, this.bpsPerFile, this.bpsAddresses := index, map[], {};
      this.config, this.script, this.trace := None, script, [];
    }

    method Send(request: Request) returns (r: T.Reply)
      modifies this
      ensures Value() == T.AfterSend(old(Value()), request) && r == T.NextReply(old(Value()))
    {
      r := if script == [] then Err(ListenerDied) else script[0];
      script := if script == [] then [] else script[1..];
      trace := trace + [T.Exchange(request, r)];
    }

    // `send(request)?`
    method SendUnchecked(request: Request) returns (r: Result<RawResponse, T.TargetError>)
      modifies this
      ensures (Value(), r) == T.Send(old(Value()), request)
    {
      var reply := Send(request);
      match reply
      case Ok(response) => r := Ok(response);
      case Err(e) => r := Err(T.FromMsimError(e));
    }

    // `send(request)?.to_result()?`
    method SendChecked(request: Request) returns (r: Result<RawResponse, T.TargetError>)
      modifies this
      ensures (Value(), r) == T.SendChecked(old(Value()), request)
    {
      var response :- SendUnchecked(request);
      r := if response.status == StatusOk then Ok(response) else Err(T.RequestRejected);
    }

    method SendCommand(request: Request) returns (r: Result<(), T.TargetError>)
      modifies this
      ensures (Value(), r) == T.SendCommand(old(Value()), request)
    {
      var _ :- SendChecked(request);
      r := Ok(());
    }

    method StepBy(cpu: CpuId, count: uint64) returns (r: Result<(), T.TargetError>)
      modifies this
      ensures (Value(), r) == T.StepBy(old(Value()), cpu, count)
    {
      var _ :- SendCommand(Step(cpu, count));
      r := SendCommand(Resume);
    }

    method Terminate() returns (r: Result<(), T.TargetError>)
      modifies this
      ensures (Value(), r) == T.Terminate(old(Value()))
    {
      var reply := Send(Request.Terminate);
      match reply
      case Ok(_) => r := Ok(());
      case Err(e) => r := if e in {ListenerDied, ClosedError, IOError} then Ok(()) else Err(T.FromMsimError(e));
    }

    method ReadPc(cpu: CpuId) returns (r: Result<Address, T.TargetError>)
      modifies this
      ensures (Value(), r) == T.ReadPc(old(Value()), cpu)
    {
      var response :- SendChecked(ReadPC(cpu));
      r := Ok(response.arg0);
    }

    // Code breakpoints

    method SetCodeBp(source: Path, line: LineNo) returns (r: Result<Address, T.TargetError>)
      modifies this
      ensures (Value(), r) == T.SetCodeBp(old(Value()), source, line)
    {
      var found := GetAddress(index, source, line);
      if found.None? {
        return Err(T.AddressNotFound);
      }
      var a := found.value;
      if a in bpsAddresses {
        return Ok(a);
      }
      var _ :- SendChecked(SetCodeBreakpoint(a));
      bpsAddresses := bpsAddresses + {a};
      var entries := if source in bpsPerFile then bpsPerFile[source] else [];
      bpsPerFile := bpsPerFile[source := entries + [(line, a)]];
      r := Ok(a);
    }

    method RemoveCodeBp(source: Path, line: LineNo) returns (r: Result<Address, T.TargetError>)
      modifies this
      ensures (Value(), r) == T.RemoveCodeBp(old(Value()), source, line)
    {
      var found := GetAddress(index, source, line);
      if found.None? {
        return Err(T.AddressNotFound);
      }
      var a := found.value;
      if a in bpsAddresses {
        bpsAddresses := bpsAddresses - {a};
        var _ :- SendCommand(RemoveCodeBreakpoint(a));
      }
      if source in bpsPerFile {
        bpsPerFile := bpsPerFile[source := T.WithoutFirst(bpsPerFile[source], a)];
      }
      r := Ok(a);
    }

    // The loop of `replace_code_bps` that removes the lines not requested any more.
    method DropLines(source: Path, order: seq<LineNo>, lines: seq<LineNo>)
      modifies this
      ensures Value() == T.DropLines(old(Value()), source, order, lines)
    {
      hide T.RemoveCodeBp;
      ghost var t := Value();
      for i := 0 to |order|
        invariant T.DropLines(Value(), source, order[i..], lines) == T.DropLines(t, source, order, lines)
      {
        assert order[i..][1..] == order[i + 1..];
        if order[i] !in lines {
          var _ := RemoveCodeBp(source, order[i]);
        }
      }
    }

    // Its loop that sets or reuses the requested lines, up to a lost session.
    method AddLines(source: Path, lines: seq<LineNo>, known: map<LineNo, Address>)
      returns (entries: seq<(LineNo, Address)>, results: seq<Result<(), T.TargetError>>)
      modifies this
      ensures T.Added(Value(), entries, results) == T.AddLines(old(Value()), source, lines, known)
    {
      hide T.SetCodeBp;
      ghost var all := T.AddLines(Value(), source, lines, known);
      entries, results := [], [];
      for i := 0 to |lines|
        invariant all == Joined(entries, results, T.AddLines(Value(), source, lines[i..], known))
      {
        assert lines[i..][1..] == lines[i + 1..];
        var r: Result<Address, T.TargetError>;
        if lines[i] in known {
          r := Ok(known[lines[i]]);
        } else {
          r := SetCodeBp(source, lines[i]);
        }
        ghost var rest := T.AddLines(Value(), source, lines[i + 1..], known);
        match r
        case Ok(a) =>
          JoinedTwice(entries, results, [(lines[i], a)], [Ok(())], rest);
          entries := entries + [(lines[i], a)];
          results := results + [Ok(())];
        case Err(e) =>
          JoinedTwice(entries, results, [], [Err(e)], rest);
          results := results + [Err(e)];
          if e == T.SessionLost {
            assert entries + [] == entries;
            return;
          }
      }
      assert entries + [] == entries && results + [] == results;
    }

    method ReplaceCodeBps(source: Path, lines: seq<LineNo>, hash: seq<LineNo>)
      returns (results: seq<Result<(), T.TargetError>>)
      modifies this
      ensures (Value(), results) == T.ReplaceCodeBps(old(Value()), source, lines, hash)
    {
      hide T.DropLines, T.AddLines, T.Arranged, T.ByLine;
      var known := T.ByLine(if source in bpsPerFile then bpsPerFile[source] else []);
      bpsPerFile := bpsPerFile - {source};
      DropLines(source, T.Arranged(known.Keys, hash), lines);
      var newByFile;
      newByFile, results := AddLines(source, lines, known);
      if newByFile != [] {
        bpsPerFile := bpsPerFile[source := newByFile];
      }
    }

    // Configuration and registers

    method GetConfig() returns (r: Result<T.Config, T.TargetError>)
      modifies this
      ensures (Value(), r) == T.GetConfig(old(Value()))
    {
      if config.Some? {
        return Ok(config.value);
      }
      var response :- SendUnchecked(Request.GetConfig);
      var count := response.arg0;
      var archs: map<CpuId, CpuArch> := map[];
      ghost var t := Value();
      for cpu := 0 to count
        invariant T.ReadArchs(Value(), cpu, count, archs) == T.ReadArchs(t, 0, count, map[])
        invariant T.GetConfig(old(Value())) == FinishConfig(T.ReadArchs(t, 0, count, map[]), count)
      {
        var answer := SendUnchecked(GetCpuInfo(cpu));
        if answer.Err? {
          return Err(answer.error);
        }
        archs := archs[cpu := T.ReadArch(answer.value.arg0)];
      }
      config := Some(T.Config(count, archs));
      r := Ok(config.value);
    }

    method CpuCount() returns (r: Result<uint64, T.TargetError>)
      modifies this
      ensures (Value(), r) == T.CpuCount(old(Value()))
    {
      var config :- GetConfig();
      r := Ok(config.cpuCount);
    }

    method KnownArch(cpu: CpuId) returns (r: Result<CpuArch, T.TargetError>)
      modifies this
      ensures (Value(), r) == T.KnownArch(old(Value()), cpu)
    {
      hide T.GetConfig;
      var config :- GetConfig();
      if cpu !in config.cpuToArch {
        return Err(T.UnknownCpu);
      }
      var arch := config.cpuToArch[cpu];
      r := if arch == UnknownCpuArch then Err(T.UnknownArch) else Ok(arch);
    }

    method ReadGeneralRegs(cpu: CpuId) returns (r: Result<seq<T.Register>, T.TargetError>)
      modifies this
      ensures (Value(), r) == T.ReadGeneralRegs(old(Value()), cpu)
    {
      hide T.KnownArch;
      var arch :- KnownArch(cpu);
      var registers := [];
      hide T.Send, RegName;
      ghost var all := T.ReadGeneralFrom(Value(), cpu, arch, 0);
      PrependNothing(all);
      for reg := 0 to GENERAL_REGISTER_COUNT
        invariant all == Prepend(registers, T.ReadGeneralFrom(Value(), cpu, arch, reg))
      {
        var name := RegName(arch, reg);
        if name.None? {
          return Err(T.BadRegister);
        }
        var answer := SendUnchecked(ReadGeneralRegister(cpu, reg));
        if answer.Err? {
          return Err(answer.error);
        }
        var register := T.Register(name.value, answer.value.arg0);
        PrependTwice(registers, [register], T.ReadGeneralFrom(Value(), cpu, arch, reg + 1));
        registers := registers + [register];
      }
      assert registers + [] == registers;
      r := Ok(registers);
    }

    method ReadCsrs(cpu: CpuId) returns (r: Result<seq<T.Register>, T.TargetError>)
      modifies this
      ensures (Value(), r) == T.ReadCsrs(old(Value()), cpu)
    {
      hide T.KnownArch, CsrIds, CsrName;
      var arch :- KnownArch(cpu);
      var pc :- ReadPc(cpu);
      var registers := [T.Register(PC_NAME, pc)];
      var ids := CsrIds(arch);
      ghost var all := Prepend(registers, T.ReadCsrsFrom(Value(), cpu, arch, ids));
      hide T.SendChecked;
      assert ids[0..] == ids;
      for i := 0 to |ids|
        invariant all == Prepend(registers, T.ReadCsrsFrom(Value(), cpu, arch, ids[i..]))
      {
        assert ids[i..][1..] == ids[i + 1..];
        var answer := SendChecked(Request.ReadCsr(cpu, ids[i]));
        if answer.Err? {
          return Err(answer.error);
        }
        var name := CsrName(arch, ids[i]);
        if name.None? {
          return Err(T.BadRegister);
        }
        var register := T.Register(name.value, answer.value.arg0);
        PrependTwice(registers, [register], T.ReadCsrsFrom(Value(), cpu, arch, ids[i + 1..]));
        registers := registers + [register];
      }
      assert registers + [] == registers;
      r := Ok(registers);
    }

    method WriteGeneralReg(cpu: CpuId, name: string, value: uint64) returns (r: Result<(), T.TargetError>)
      modifies this
      ensures (Value(), r) == T.WriteGeneralReg(old(Value()), cpu, name, value)
    {
      hide T.KnownArch, NameToRegId;
      var arch :- KnownArch(cpu);
      var reg := NameToRegId(arch, name);
      if reg.None? {
        return Err(T.UnknownRegister);
      }
      r := SendCommand(WriteGeneralRegister(cpu, reg.value, value));
    }

    method WriteCsrReg(cpu: CpuId, name: string, value: uint64) returns (r: Result<(), T.TargetError>)
      modifies this
      ensures (Value(), r) == T.WriteCsrReg(old(Value()), cpu, name, value)
    {
      hide T.KnownArch, NameToCsrAddr;
      if name == PC_NAME {
        r := SendCommand(WritePC(cpu, value));
        return;
      }
      var arch :- KnownArch(cpu);
      var csr := NameToCsrAddr(arch, name);
      if csr.None? {
        return Err(T.UnknownRegister);
      }
      r := SendCommand(WriteCsr(cpu, csr.value, value));
    }

    // Memory

    method ReadMemory(space: T.Space, a: Address, length: nat) returns (r: Result<seq<uint8>, T.TargetError>)
      modifies this
      ensures (Value(), r) == T.ReadMemory(old(Value()), space, a, length)
    {
      hide ArgBytes, WrapU64;
      var end := WrapU64(a + length);
      var bytes, pos: nat := [], a;
      ghost var all := T.ReadFrom(Value(), space, a, end);
      PrependNothing(all);
      hide T.SendChecked;
      while pos < end
        invariant all == Prepend(bytes, T.ReadFrom(Value(), space, pos, end))
        decreases end - pos
      {
        var chunk := SendChecked(T.ReadRequest(space, pos));
        if chunk.Err? {
          return Err(chunk.error);
        }
        var read := ArgBytes(Args(chunk.value.arg0, chunk.value.arg1, chunk.value.arg2));
        PrependTwice(bytes, read, T.ReadFrom(Value(), space, pos + T.STEP, end));
        bytes, pos := bytes + read, pos + T.STEP;
      }
      assert bytes + [] == bytes;
      r := Ok(if length < |bytes| then bytes[..length] else bytes);
    }

  }
}
