/**
 The debug target (src/target/msim_target.rs): breakpoints, registers and memory of the
 simulator behind its connection. Everything here is a function of the target's value;
 MsimTargets.dfy holds the object whose methods compute these functions.
 */
module Target {
  import opened Wrappers
  import opened Machine
  import opened Frame
  import opened Connection
  import opened DebugIndex
  import opened Registers

  datatype TargetError =
    | SessionLost
    | RequestRejected
    | AddressNotFound
    | UnknownCpu
    | UnknownArch
    | BadRegister
    | UnknownRegister

  datatype Config = Config(cpuCount: uint64, cpuToArch: map<CpuId, CpuArch>)

  type Reply = Result<RawResponse, MsimError>

  datatype Exchange = Exchange(request: Request, reply: Reply)

  // `script` is what the connection will answer from now on, whatever is asked; `trace` is
  // every request sent so far with its reply.
  datatype Target = Target(
    index: DwarfIndex,
    bpsPerFile: map<Path, seq<(LineNo, Address)>>,
    bpsAddresses: set<Address>,
    config: Option<Config>,
    script: seq<Reply>,
    trace: seq<Exchange>)

  function NewTarget(index: DwarfIndex, script: seq<Reply>): Target {
    Target(index, map[], {}, None, script, [])
  }

  // The connection

  function NextReply(t: Target): Reply {
    if t.script == [] then Err(ListenerDied) else t.script[0]
  }

  function AfterSend(t: Target, request: Request): Target {
    t.(script := if t.script == [] then [] else t.script[1..], trace := t.trace + [Exchange(request, NextReply(t))])
  }

  function FromMsimError(e: MsimError): TargetError {
    if e == RequestFailed then RequestRejected else SessionLost
  }

  predicate Accepted(reply: Reply) {
    reply.Ok? && reply.value.status == StatusOk
  }

  // `connection.send(request)?`
  function Send(t: Target, request: Request): (Target, Result<RawResponse, TargetError>) {
    (AfterSend(t, request),
     match NextReply(t)
     case Ok(r) => Ok(r)
     case Err(e) => Err(FromMsimError(e)))
  }

  // `connection.send(request)?.to_result()?`
  function SendChecked(t: Target, request: Request): (Target, Result<RawResponse, TargetError>) {
    var (t, r) := Send(t, request);
    (t, if r.Ok? && r.value.status != StatusOk then Err(RequestRejected) else r)
  }

  function SendCommand(t: Target, request: Request): (Target, Result<(), TargetError>) {
    var (t, r) := SendChecked(t, request);
    (t, if r.Ok? then Ok(()) else Err(r.error))
  }

  function StepBy(t: Target, cpu: CpuId, count: uint64): (Target, Result<(), TargetError>) {
    var (t, r) := SendCommand(t, Step(cpu, count));
    if r.Err? then (t, r) else SendCommand(t, Resume)
  }

  function Terminate(t: Target): (Target, Result<(), TargetError>) {
    (AfterSend(t, Request.Terminate),
     match NextReply(t)
     case Ok(_) => Ok(())
     case Err(e) => if e in {ListenerDied, ClosedError, IOError} then Ok(()) else Err(FromMsimError(e)))
  }

  function ReadPc(t: Target, cpu: CpuId): (Target, Result<Address, TargetError>) {
    var (t, r) := SendChecked(t, ReadPC(cpu));
    (t, if r.Ok? then Ok(r.value.arg0) else Err(r.error))
  }

  // Code breakpoints

  function SetCodeBp(t: Target, source: Path, line: LineNo): (Target, Result<Address, TargetError>) {
    match GetAddress(t.index, source, line)
    case None => (t, Err(AddressNotFound))
    case Some(a) =>
      if a in t.bpsAddresses then (t, Ok(a))
      else
        var (t, r) := SendChecked(t, SetCodeBreakpoint(a));
        if r.Err? then (t, Err(r.error))
        else
          var entries := if source in t.bpsPerFile then t.bpsPerFile[source] else [];
          (t.(bpsAddresses := t.bpsAddresses + {a}, bpsPerFile := t.bpsPerFile[source := entries + [(line, a)]]), Ok(a))
  }

  // The list without its first entry for the address, if it has one.
  function WithoutFirst(entries: seq<(LineNo, Address)>, a: Address): seq<(LineNo, Address)> {
    if entries == [] then []
    else if entries[0].1 == a then entries[1..]
    else [entries[0]] + WithoutFirst(entries[1..], a)
  }

  function RemoveCodeBp(t: Target, source: Path, line: LineNo): (Target, Result<Address, TargetError>) {
    match GetAddress(t.index, source, line)
    case None => (t, Err(AddressNotFound))
    case Some(a) =>
      var (t, r) :=
        if a in t.bpsAddresses then
          SendCommand(t.(bpsAddresses := t.bpsAddresses - {a}), RemoveCodeBreakpoint(a))
        else (t, Ok(()));
      if r.Err? then (t, Err(r.error))
      else if source in t.bpsPerFile then
        (t.(bpsPerFile := t.bpsPerFile[source := WithoutFirst(t.bpsPerFile[source], a)]), Ok(a))
      else (t, Ok(a))
  }

  // `into_iter().collect()` into a map: a later entry for a line wins.
  function ByLine(entries: seq<(LineNo, Address)>): map<LineNo, Address> {
    if entries == [] then map[]
    else var (line, a) := entries[|entries| - 1]; ByLine(entries[..|entries| - 1])[line := a]
  }

  function DropLines(t: Target, source: Path, order: seq<LineNo>, lines: seq<LineNo>): Target
    decreases |order|
  {
    if order == [] then t
    else
      var t := if order[0] in lines then t else RemoveCodeBp(t, source, order[0]).0;
      DropLines(t, source, order[1..], lines)
  }

  datatype Added = Added(target: Target, entries: seq<(LineNo, Address)>, results: seq<Result<(), TargetError>>)

  function AddLines(t: Target, source: Path, lines: seq<LineNo>, known: map<LineNo, Address>): Added
    decreases |lines|
  {
    if lines == [] then Added(t, [], [])
    else
      var line := lines[0];
      var (t, r) := if line in known then (t, Ok(known[line])) else SetCodeBp(t, source, line);
      if r == Err(SessionLost) then Added(t, [], [Err(SessionLost)])
      else
        var rest := AddLines(t, source, lines[1..], known);
        match r
        case Ok(a) => Added(rest.target, [(line, a)] + rest.entries, [Ok(())] + rest.results)
        case Err(e) => rest.(results := [Err(e)] + rest.results)
  }

  function OldEntries(t: Target, source: Path): seq<(LineNo, Address)> {
    if source in t.bpsPerFile then t.bpsPerFile[source] else []
  }

  predicate IsLeast(keys: set<LineNo>, k: LineNo) {
    k in keys && forall j :: j in keys ==> k <= j
  }

  lemma {:induction false} LeastExists(keys: set<LineNo>)
    requires keys != {}
    ensures exists k :: IsLeast(keys, k)
  {
    var k :| k in keys;
    if keys == {k} {
      assert IsLeast(keys, k);
    } else {
      LeastExists(keys - {k});
      var m :| IsLeast(keys - {k}, m);
      assert forall j :: j in keys ==> j == k || j in keys - {k};
      assert if m < k then IsLeast(keys, m) else IsLeast(keys, k);
    }
  }

  // `hash` stands for the random iteration order of the map of old lines: it lists the
  // lines to come first, the others follow in ascending order.
  function Arranged(keys: set<LineNo>, hash: seq<LineNo>): seq<LineNo>
    decreases keys, hash
  {
    if hash != [] then
      if hash[0] in keys then [hash[0]] + Arranged(keys - {hash[0]}, hash[1..]) else Arranged(keys, hash[1..])
    else if keys == {} then []
    else
      LeastExists(keys);
      var k :| k in keys && IsLeast(keys, k);
      [k] + Arranged(keys - {k}, [])
  }

  function ReplaceCodeBps(t: Target, source: Path, lines: seq<LineNo>, hash: seq<LineNo>)
    : (Target, seq<Result<(), TargetError>>)
  {
    var known := ByLine(OldEntries(t, source));
    var t := t.(bpsPerFile := t.bpsPerFile - {source});
    var t := DropLines(t, source, Arranged(known.Keys, hash), lines);
    var added := AddLines(t, source, lines, known);
    var t := if added.entries == [] then added.target
             else added.target.(bpsPerFile := added.target.bpsPerFile[source := added.entries]);
    (t, added.results)
  }

  function ResolveCodeBp(t: Target, a: Address): Option<(Path, LineNo)> {
    if a in t.bpsAddresses then ResolveAddress(t.index, a) else None
  }

  // Configuration and registers

  function ReadArch(w: uint64): CpuArch {
    match w
    case 1 => Mips
    case 2 => RiscV32
    case 3 => RiscV64
    case _ => UnknownCpuArch
  }

  // What a simulator answers for a CPU's architecture.
  predicate IsArchCode(w: uint64, arch: CpuArch) {
    match arch
    case Mips => w == 1
    case RiscV32 => w == 2
    case RiscV64 => w == 3
    case UnknownCpuArch => w == 0 || 3 < w
  }

  lemma ReadArchIff(w: uint64, arch: CpuArch)
    ensures ReadArch(w) == arch <==> IsArchCode(w, arch)
  {
  }

  function ReadArchs(t: Target, cpu: nat, count: uint64, archs: map<CpuId, CpuArch>)
    : (Target, Result<map<CpuId, CpuArch>, TargetError>)
    decreases count - cpu
  {
    if count <= cpu then (t, Ok(archs))
    else
      var (t, r) := Send(t, GetCpuInfo(cpu));
      if r.Err? then (t, Err(r.error)) else ReadArchs(t, cpu + 1, count, archs[cpu := ReadArch(r.value.arg0)])
  }

  function GetConfig(t: Target): (Target, Result<Config, TargetError>) {
    if t.config.Some? then (t, Ok(t.config.value))
    else
      var (t, r) := Send(t, Request.GetConfig);
      if r.Err? then (t, Err(r.error))
      else
        var count := r.value.arg0;
        var (t, archs) := ReadArchs(t, 0, count, map[]);
        if archs.Err? then (t, Err(archs.error))
        else var config := Config(count, archs.value); (t.(config := Some(config)), Ok(config))
  }

  function CpuCount(t: Target): (Target, Result<uint64, TargetError>) {
    var (t, r) := GetConfig(t);
    (t, if r.Ok? then Ok(r.value.cpuCount) else Err(r.error))
  }

  function KnownArch(t: Target, cpu: CpuId): (Target, Result<CpuArch, TargetError>) {
    var (t, r) := GetConfig(t);
    (t,
     if r.Err? then Err(r.error)
     else if cpu !in r.value.cpuToArch then Err(UnknownCpu)
     else if r.value.cpuToArch[cpu] == UnknownCpuArch then Err(UnknownArch)
     else Ok(r.value.cpuToArch[cpu]))
  }

  datatype Register = Register(name: string, value: uint64)

  // The status of these replies is not looked at.
  function ReadGeneralFrom(t: Target, cpu: CpuId, arch: CpuArch, reg: uint64)
    : (Target, Result<seq<Register>, TargetError>)
    decreases GENERAL_REGISTER_COUNT - reg
  {
    if GENERAL_REGISTER_COUNT <= reg then (t, Ok([]))
    else
      var name := RegName(arch, reg);
      if name.None? then (t, Err(BadRegister))
      else
        var (t, r) := Send(t, ReadGeneralRegister(cpu, reg));
        if r.Err? then (t, Err(r.error))
        else
          var (t, rest) := ReadGeneralFrom(t, cpu, arch, reg + 1);
          (t, if rest.Err? then rest else Ok([Register(name.value, r.value.arg0)] + rest.value))
  }

  function ReadGeneralRegs(t: Target, cpu: CpuId): (Target, Result<seq<Register>, TargetError>) {
    var (t, arch) := KnownArch(t, cpu);
    if arch.Err? then (t, Err(arch.error)) else ReadGeneralFrom(t, cpu, arch.value, 0)
  }

  function ReadCsrsFrom(t: Target, cpu: CpuId, arch: CpuArch, ids: seq<uint64>)
    : (Target, Result<seq<Register>, TargetError>)
    decreases |ids|
  {
    if ids == [] then (t, Ok([]))
    else
      var (t, r) := SendChecked(t, Request.ReadCsr(cpu, ids[0]));
      var name := CsrName(arch, ids[0]);
      if r.Err? then (t, Err(r.error))
      else if name.None? then (t, Err(BadRegister))
      else
        var (t, rest) := ReadCsrsFrom(t, cpu, arch, ids[1..]);
        (t, if rest.Err? then rest else Ok([Register(name.value, r.value.arg0)] + rest.value))
  }

  function ReadCsrs(t: Target, cpu: CpuId): (Target, Result<seq<Register>, TargetError>) {
    var (t, arch) := KnownArch(t, cpu);
    if arch.Err? then (t, Err(arch.error))
    else
      var (t, pc) := ReadPc(t, cpu);
      if pc.Err? then (t, Err(pc.error))
      else
        var (t, rest) := ReadCsrsFrom(t, cpu, arch.value, CsrIds(arch.value));
        (t, if rest.Err? then rest else Ok([Register(PC_NAME, pc.value)] + rest.value))
  }

  function WriteGeneralReg(t: Target, cpu: CpuId, name: string, value: uint64): (Target, Result<(), TargetError>) {
    var (t, arch) := KnownArch(t, cpu);
    if arch.Err? then (t, Err(arch.error))
    else
      var reg := NameToRegId(arch.value, name);
      if reg.None? then (t, Err(UnknownRegister)) else SendCommand(t, WriteGeneralRegister(cpu, reg.value, value))
  }

  function WriteCsrReg(t: Target, cpu: CpuId, name: string, value: uint64): (Target, Result<(), TargetError>) {
    if name == PC_NAME then SendCommand(t, WritePC(cpu, value))
    else
      var (t, arch) := KnownArch(t, cpu);
      if arch.Err? then (t, Err(arch.error))
      else
        var csr := NameToCsrAddr(arch.value, name);
        if csr.None? then (t, Err(UnknownRegister)) else SendCommand(t, WriteCsr(cpu, csr.value, value))
  }

  // Memory

  datatype Space = PhysicalSpace | VirtualSpace(cpu: CpuId)

  const STEP := 24

  function ReadRequest(space: Space, a: Address): Request {
    match space
    case PhysicalSpace => ReadPhysMemory(a)
    case VirtualSpace(cpu) => ReadVirtMemory(cpu, a)
  }

  function ReadFrom(t: Target, space: Space, pos: nat, end: Address): (Target, Result<seq<uint8>, TargetError>)
    decreases end - pos
  {
    if end <= pos then (t, Ok([]))
    else
      var (t, r) := SendChecked(t, ReadRequest(space, pos));
      if r.Err? then (t, Err(r.error))
      else
        var (t, rest) := ReadFrom(t, space, pos + STEP, end);
        (t, if rest.Err? then rest else Ok(ArgBytes(Args(r.value.arg0, r.value.arg1, r.value.arg2)) + rest.value))
  }

  function ReadMemory(t: Target, space: Space, a: Address, length: nat): (Target, Result<seq<uint8>, TargetError>) {
    var (t, r) := ReadFrom(t, space, a, WrapU64(a + length));
    (t, if r.Ok? && length < |r.value| then Ok(r.value[..length]) else r)
  }
}
