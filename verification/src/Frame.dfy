/**
 The MSIM wire format (src/msim/frame.rs): requests are 25 bytes, responses and
 events are 26 bytes, and every argument is a big-endian 64-bit word.
 */
module Frame {
  import opened Wrappers
  import opened Machine

  const OUTBOUND_FRAME_SIZE := 25
  const INBOUND_FRAME_SIZE := 26

  datatype DataBreakpointKind = Read | Write | ReadWrite

  datatype Request =
    | Resume
    | Pause
    | Terminate
    | Step(cpu: CpuId, count: uint64)
    | SetCodeBreakpoint(address: Address)
    | RemoveCodeBreakpoint(address: Address)
    | SetPhysDataBreakpoint(address: Address, bpKind: DataBreakpointKind)
    | RemovePhysDataBreakpoint(address: Address)
    | ReadGeneralRegister(cpu: CpuId, reg: uint64)
    | WriteGeneralRegister(cpu: CpuId, reg: uint64, value: uint64)
    | ReadCsr(cpu: CpuId, reg: uint64)
    | WriteCsr(cpu: CpuId, reg: uint64, value: uint64)
    | ReadPC(cpu: CpuId)
    | WritePC(cpu: CpuId, value: uint64)
    | ReadPhysMemory(address: Address)
    | WritePhysMemory(address: Address, data: uint64)
    | ReadVirtMemory(cpu: CpuId, address: Address)
    | WriteVirtMemory(cpu: CpuId, address: Address, data: uint64)
    | TranslateAddress(cpu: CpuId, address: Address)
    | RaiseInterrupt(cpu: CpuId, id: uint64)
    | ClearInterrupt(cpu: CpuId, id: uint64)
    | GetConfig
    | GetCpuInfo(cpu: CpuId)

  datatype ResponseStatus = StatusOk | UnspecifiedError | UnsupportedRequestError

  datatype EventKind = TerminatedKind | StoppedAtKind

  datatype StoppedAtReason = Paused | Breakpoint | StepComplete | Interrupt

  datatype RawResponse = RawResponse(status: ResponseStatus, arg0: uint64, arg1: uint64, arg2: uint64)

  datatype Inbound =
    | Response(response: RawResponse)
    | Event(kind: EventKind, arg0: uint64, arg1: uint64, arg2: uint64)

  // Interpreted events (src/msim/mod.rs).
  datatype MsimEvent = Terminated | StoppedAt(cpu: CpuId, address: Address, reason: StoppedAtReason)

  // `Io` is any I/O error other than the end of the stream.
  datatype FrameError = Eof | Io | Parsing

  // Big-endian words

  function ToBytes(x: nat, n: nat): (bs: seq<uint8>)
    ensures |bs| == n
  {
    if n == 0 then [] else ToBytes(x / 256, n - 1) + [x % 256]
  }

  function FromBytes(bs: seq<uint8>): nat {
    if bs == [] then 0 else FromBytes(bs[..|bs| - 1]) * 256 + bs[|bs| - 1]
  }

  function Pow256(n: nat): nat {
    if n == 0 then 1 else 256 * Pow256(n - 1)
  }

  lemma {:induction false} FromBytesBound(bs: seq<uint8>)
    ensures FromBytes(bs) < Pow256(|bs|)
  {
    if bs != [] {
      FromBytesBound(bs[..|bs| - 1]);
    }
  }

  lemma {:induction false} FromBytesOfToBytes(x: nat, n: nat)
    requires x < Pow256(n)
    ensures FromBytes(ToBytes(x, n)) == x
  {
    if n != 0 {
      FromBytesOfToBytes(x / 256, n - 1);
      var bs := ToBytes(x, n);
      assert bs[..|bs| - 1] == ToBytes(x / 256, n - 1);
    }
  }

  lemma {:induction false} ToBytesOfFromBytes(bs: seq<uint8>)
    ensures ToBytes(FromBytes(bs), |bs|) == bs
  {
    if bs != [] {
      ToBytesOfFromBytes(bs[..|bs| - 1]);
      assert bs == bs[..|bs| - 1] + [bs[|bs| - 1]];
    }
  }

  lemma Pow256Of8()
    ensures Pow256(8) == TWO_TO_64
  {
    assert Pow256(4) == 0x1_0000_0000;
  }

  function WordBytes(x: uint64): (bs: seq<uint8>)
    ensures |bs| == 8
  {
    ToBytes(x, 8)
  }

  function BytesWord(bs: seq<uint8>): uint64
    requires |bs| == 8
  {
    FromBytesBound(bs);
    Pow256Of8();
    FromBytes(bs)
  }

  // The three arguments that close every frame

  datatype Args = Args(arg0: uint64, arg1: uint64, arg2: uint64)

  function ArgBytes(a: Args): (bs: seq<uint8>)
    ensures |bs| == 24
  {
    WordBytes(a.arg0) + WordBytes(a.arg1) + WordBytes(a.arg2)
  }

  function BytesArgs(bs: seq<uint8>): Args
    requires |bs| == 24
  {
    Args(BytesWord(bs[..8]), BytesWord(bs[8..16]), BytesWord(bs[16..]))
  }

  lemma BytesArgsOfArgBytes(a: Args)
    ensures BytesArgs(ArgBytes(a)) == a
  {
    Pow256Of8();
    FromBytesOfToBytes(a.arg0, 8);
    FromBytesOfToBytes(a.arg1, 8);
    FromBytesOfToBytes(a.arg2, 8);
    var bs := ArgBytes(a);
    assert bs[..8] == WordBytes(a.arg0) && bs[8..16] == WordBytes(a.arg1) && bs[16..] == WordBytes(a.arg2);
  }

  lemma ArgBytesOfBytesArgs(bs: seq<uint8>)
    requires |bs| == 24
    ensures ArgBytes(BytesArgs(bs)) == bs
  {
    ToBytesOfFromBytes(bs[..8]);
    ToBytesOfFromBytes(bs[8..16]);
    ToBytesOfFromBytes(bs[16..]);
    assert bs == bs[..8] + bs[8..16] + bs[16..];
  }

  // Outbound: requests

  function KindByte(k: DataBreakpointKind): uint8 {
    match k
    case Read => 1
    case Write => 2
    case ReadWrite => 3
  }

  // The request kind and its arguments; arguments a request does not have are zero.
  function RequestFields(r: Request): (uint8, Args) {
    match r
    case Resume => (0x01, Args(0, 0, 0))
    case Pause => (0x02, Args(0, 0, 0))
    case Terminate => (0x03, Args(0, 0, 0))
    case Step(cpu, count) => (0x04, Args(cpu, count, 0))
    case SetCodeBreakpoint(address) => (0x05, Args(address, 0, 0))
    case RemoveCodeBreakpoint(address) => (0x06, Args(address, 0, 0))
    case SetPhysDataBreakpoint(address, kind) => (0x07, Args(address, KindByte(kind), 0))
    case RemovePhysDataBreakpoint(address) => (0x08, Args(address, 0, 0))
    case ReadGeneralRegister(cpu, reg) => (0x09, Args(cpu, reg, 0))
    case WriteGeneralRegister(cpu, reg, value) => (0x0A, Args(cpu, reg, value))
    case ReadCsr(cpu, reg) => (0x0B, Args(cpu, reg, 0))
    case WriteCsr(cpu, reg, value) => (0x0C, Args(cpu, reg, value))
    case ReadPC(cpu) => (0x0D, Args(cpu, 0, 0))
    case WritePC(cpu, value) => (0x0E, Args(cpu, value, 0))
    case ReadPhysMemory(address) => (0x0F, Args(address, 0, 0))
    case WritePhysMemory(address, data) => (0x10, Args(address, data, 0))
    case ReadVirtMemory(cpu, address) => (0x11, Args(cpu, address, 0))
    case WriteVirtMemory(cpu, address, data) => (0x12, Args(cpu, address, data))
    case TranslateAddress(cpu, address) => (0x13, Args(cpu, address, 0))
    case RaiseInterrupt(cpu, id) => (0x14, Args(cpu, id, 0))
    case ClearInterrupt(cpu, id) => (0x15, Args(cpu, id, 0))
    case GetConfig => (0x16, Args(0, 0, 0))
    case GetCpuInfo(cpu) => (0x17, Args(cpu, 0, 0))
  }

  function EncodeRequest(r: Request): (bs: seq<uint8>)
    ensures |bs| == OUTBOUND_FRAME_SIZE
  {
    [RequestFields(r).0] + ArgBytes(RequestFields(r).1)
  }

  function EncodeRequests(rs: seq<Request>): seq<uint8> {
    if rs == [] then [] else EncodeRequest(rs[0]) + EncodeRequests(rs[1..])
  }

  // Specification decoder: what a conforming simulator must read. It is strict, so
  // that it accepts nothing the writer does not produce.

  function NoArgs(r: Request, a: Args): Option<Request> {
    if a == Args(0, 0, 0) then Some(r) else None
  }

  function OneArg(r: Request, a: Args): Option<Request> {
    if a.arg1 == a.arg2 == 0 then Some(r) else None
  }

  function TwoArgs(r: Request, a: Args): Option<Request> {
    if a.arg2 == 0 then Some(r) else None
  }

  function FieldsRequest(kind: uint8, a: Args): Option<Request> {
    match kind
    case 0x01 => NoArgs(Resume, a)
    case 0x02 => NoArgs(Pause, a)
    case 0x03 => NoArgs(Terminate, a)
    case 0x04 => TwoArgs(Step(a.arg0, a.arg1), a)
    case 0x05 => OneArg(SetCodeBreakpoint(a.arg0), a)
    case 0x06 => OneArg(RemoveCodeBreakpoint(a.arg0), a)
    case 0x07 =>
      (match a.arg1
       case 1 => TwoArgs(SetPhysDataBreakpoint(a.arg0, Read), a)
       case 2 => TwoArgs(SetPhysDataBreakpoint(a.arg0, Write), a)
       case 3 => TwoArgs(SetPhysDataBreakpoint(a.arg0, ReadWrite), a)
       case _ => None)
    case 0x08 => OneArg(RemovePhysDataBreakpoint(a.arg0), a)
    case 0x09 => TwoArgs(ReadGeneralRegister(a.arg0, a.arg1), a)
    case 0x0A => Some(WriteGeneralRegister(a.arg0, a.arg1, a.arg2))
    case 0x0B => TwoArgs(ReadCsr(a.arg0, a.arg1), a)
    case 0x0C => Some(WriteCsr(a.arg0, a.arg1, a.arg2))
    case 0x0D => OneArg(ReadPC(a.arg0), a)
    case 0x0E => TwoArgs(WritePC(a.arg0, a.arg1), a)
    case 0x0F => OneArg(ReadPhysMemory(a.arg0), a)
    case 0x10 => TwoArgs(WritePhysMemory(a.arg0, a.arg1), a)
    case 0x11 => TwoArgs(ReadVirtMemory(a.arg0, a.arg1), a)
    case 0x12 => Some(WriteVirtMemory(a.arg0, a.arg1, a.arg2))
    case 0x13 => TwoArgs(TranslateAddress(a.arg0, a.arg1), a)
    case 0x14 => TwoArgs(RaiseInterrupt(a.arg0, a.arg1), a)
    case 0x15 => TwoArgs(ClearInterrupt(a.arg0, a.arg1), a)
    case 0x16 => NoArgs(GetConfig, a)
    case 0x17 => OneArg(GetCpuInfo(a.arg0), a)
    case _ => None
  }

  function DecodeRequest(bs: seq<uint8>): Option<Request>
    requires |bs| == OUTBOUND_FRAME_SIZE
  {
    FieldsRequest(bs[0], BytesArgs(bs[1..]))
  }

  function DecodeRequests(bs: seq<uint8>): Option<seq<Request>>
    decreases |bs|
  {
    if bs == [] then Some([])
    else if |bs| < OUTBOUND_FRAME_SIZE then None
    else
      var r :- DecodeRequest(bs[..OUTBOUND_FRAME_SIZE]);
      var rs :- DecodeRequests(bs[OUTBOUND_FRAME_SIZE..]);
      Some([r] + rs)
  }

  lemma FieldsRoundTrip(r: Request, kind: uint8, a: Args)
    ensures FieldsRequest(kind, a) == Some(r) <==> RequestFields(r) == (kind, a)
  {
  }

  // Every frame is the encoding of at most one request, and the decoder finds it.
  lemma RequestRoundTrip(r: Request, bs: seq<uint8>)
    requires |bs| == OUTBOUND_FRAME_SIZE
    ensures DecodeRequest(bs) == Some(r) <==> bs == EncodeRequest(r)
  {
    var (kind, a) := RequestFields(r);
    BytesArgsOfArgBytes(a);
    ArgBytesOfBytesArgs(bs[1..]);
    FieldsRoundTrip(r, bs[0], BytesArgs(bs[1..]));
    assert bs == [bs[0]] + bs[1..];
    assert EncodeRequest(r)[1..] == ArgBytes(a);
  }

  // A stream of requests is decodable without any framing: it has one reading.
  lemma {:induction false} RequestStreamRoundTrip(rs: seq<Request>, bs: seq<uint8>)
    ensures DecodeRequests(bs) == Some(rs) <==> bs == EncodeRequests(rs)
    decreases |bs| + |rs|
  {
    if |bs| >= OUTBOUND_FRAME_SIZE && rs != [] {
      var n := OUTBOUND_FRAME_SIZE;
      RequestRoundTrip(rs[0], bs[..n]);
      RequestStreamRoundTrip(rs[1..], bs[n..]);
      assert bs == bs[..n] + bs[n..] && rs == [rs[0]] + rs[1..];
      var es := EncodeRequests(rs);
      assert es[..n] == EncodeRequest(rs[0]) && es[n..] == EncodeRequests(rs[1..]);
    }
  }

  lemma RequestStreamInjective(rs: seq<Request>, ts: seq<Request>)
    requires EncodeRequests(rs) == EncodeRequests(ts)
    ensures rs == ts
  {
    RequestStreamRoundTrip(rs, EncodeRequests(rs));
    RequestStreamRoundTrip(ts, EncodeRequests(rs));
  }

  // A byte sink that accepts `room` more bytes before it reports an error.
  datatype Sink = Sink(out: seq<uint8>, room: nat)

  // `write_all`: on an error the bytes there was room for have been written.
  function Put(s: Sink, bs: seq<uint8>): (Sink, bool) {
    if |bs| <= s.room then (Sink(s.out + bs, s.room - |bs|), true) else (Sink(s.out + bs[..s.room], 0), false)
  }

  // Stopping at the first failed write leaves what one write of everything leaves.
  lemma PutSplits(s: Sink, p: seq<uint8>, q: seq<uint8>)
    ensures Put(s, p + q) == if Put(s, p).1 then Put(Put(s, p).0, q) else Put(s, p)
  {
    if |p| <= s.room < |p| + |q| {
      assert s.out + (p + q)[..s.room] == s.out + p + q[..s.room - |p|];
    } else if s.room < |p| {
      assert (p + q)[..s.room] == p[..s.room];
    } else {
      assert s.out + (p + q) == s.out + p + q;
    }
  }

  class Writer {
    var sink: Sink

    constructor (room: nat)
      ensures sink == Sink([], room)
    {
      sink := Sink([], room);
    }

    method WriteAll(bs: seq<uint8>) returns (ok: bool)
      modifies this
      ensures (sink, ok) == Put(old(sink), bs)
    {
      var (s, done) := Put(sink, bs);
      sink, ok := s, done;
    }

    // `Request::write`: four writes, the first failure ends it.
    method WriteRequest(r: Request) returns (ok: bool)
      modifies this
      ensures (sink, ok) == Put(old(sink), EncodeRequest(r))
    {
      var (kind, a) := RequestFields(r);
      var w0, w1, w2 := WordBytes(a.arg0), WordBytes(a.arg1), WordBytes(a.arg2);
      assert EncodeRequest(r) == [kind] + (w0 + (w1 + w2));
      PutSplits(sink, [kind], w0 + (w1 + w2));
      ok := WriteAll([kind]);
      if !ok {
        return;
      }
      PutSplits(sink, w0, w1 + w2);
      ok := WriteAll(w0);
      if !ok {
        return;
      }
      PutSplits(sink, w1, w2);
      ok := WriteAll(w1);
      if !ok {
        return;
      }
      ok := WriteAll(w2);
    }
  }

  // Inbound: responses and events

  function StatusByte(s: ResponseStatus): uint8 {
    match s
    case StatusOk => 1
    case UnspecifiedError => 2
    case UnsupportedRequestError => 3
  }

  function ReadStatus(b: uint8): Result<ResponseStatus, FrameError> {
    match b
    case 1 => Ok(StatusOk)
    case 2 => Ok(UnspecifiedError)
    case 3 => Ok(UnsupportedRequestError)
    case _ => Err(Parsing)
  }

  function EventByte(k: EventKind): uint8 {
    match k
    case TerminatedKind => 1
    case StoppedAtKind => 2
  }

  function ReadEventKind(b: uint8): Result<EventKind, FrameError> {
    match b
    case 1 => Ok(TerminatedKind)
    case 2 => Ok(StoppedAtKind)
    case _ => Err(Parsing)
  }

  function ReadReason(w: uint64): Result<StoppedAtReason, FrameError> {
    match w
    case 1 => Ok(Paused)
    case 2 => Ok(Breakpoint)
    case 3 => Ok(StepComplete)
    case 4 => Ok(Interrupt)
    case _ => Err(Parsing)
  }

  // `Event::from_raw`
  function Interpret(kind: EventKind, arg0: uint64, arg1: uint64, arg2: uint64): (r: Result<MsimEvent, FrameError>)
    ensures r.Err? ==> r.error == Parsing
  {
    match kind
    case TerminatedKind => Ok(Terminated)
    case StoppedAtKind =>
      var reason :- ReadReason(arg2);
      Ok(StoppedAt(arg0, arg1, reason))
  }

  // What a simulator puts into an event frame: the CPU, the address and a code for the
  // reason. The arguments of a termination mean nothing.

  function ReasonCode(reason: StoppedAtReason): uint64 {
    match reason
    case Paused => 1
    case Breakpoint => 2
    case StepComplete => 3
    case Interrupt => 4
  }

  predicate Announces(f: Inbound, e: MsimEvent) {
    match e
    case Terminated => f.Event? && f.kind == TerminatedKind
    case StoppedAt(cpu, address, reason) => f == Event(StoppedAtKind, cpu, address, ReasonCode(reason))
  }

  // An event frame is read as the event it announces, and rejected if it announces none.
  lemma InterpretIff(kind: EventKind, arg0: uint64, arg1: uint64, arg2: uint64, e: MsimEvent)
    ensures Interpret(kind, arg0, arg1, arg2) == Ok(e) <==> Announces(Event(kind, arg0, arg1, arg2), e)
    ensures Interpret(kind, arg0, arg1, arg2).Err? <==> kind == StoppedAtKind && !(1 <= arg2 <= 4)
  {
  }

  // The part of `Inbound::read` after all 26 bytes have arrived.
  function DecodeInbound(bs: seq<uint8>): (r: Result<Inbound, FrameError>)
    requires |bs| == INBOUND_FRAME_SIZE
    ensures r.Err? ==> r.error == Parsing
  {
    var a := BytesArgs(bs[2..]);
    match bs[0]
    case 1 =>
      var status :- ReadStatus(bs[1]);
      Ok(Response(RawResponse(status, a.arg0, a.arg1, a.arg2)))
    case 2 =>
      var kind :- ReadEventKind(bs[1]);
      Ok(Event(kind, a.arg0, a.arg1, a.arg2))
    case _ => Err(Parsing)
  }

  // What a conforming simulator sends.
  function EncodeInbound(f: Inbound): (bs: seq<uint8>)
    ensures |bs| == INBOUND_FRAME_SIZE
  {
    match f
    case Response(r) => [1, StatusByte(r.status)] + ArgBytes(Args(r.arg0, r.arg1, r.arg2))
    case Event(k, a0, a1, a2) => [2, EventByte(k)] + ArgBytes(Args(a0, a1, a2))
  }

  function EncodeInbounds(fs: seq<Inbound>): seq<uint8> {
    if fs == [] then [] else EncodeInbound(fs[0]) + EncodeInbounds(fs[1..])
  }

  // Reading is the exact inverse of sending, on all 26-byte chunks.
  lemma InboundRoundTrip(f: Inbound, bs: seq<uint8>)
    requires |bs| == INBOUND_FRAME_SIZE
    ensures DecodeInbound(bs) == Ok(f) <==> bs == EncodeInbound(f)
  {
    ArgBytesOfBytesArgs(bs[2..]);
    assert bs == [bs[0], bs[1]] + bs[2..];
    var a := match f case Response(r) => Args(r.arg0, r.arg1, r.arg2) case Event(_, a0, a1, a2) => Args(a0, a1, a2);
    BytesArgsOfArgBytes(a);
    assert EncodeInbound(f)[2..] == ArgBytes(a);
  }

  /** A byte source that ends, after `data`, either in end-of-file or in an I/O error. */
  class Reader {
    var data: seq<uint8>
    const broken: bool

    constructor (data: seq<uint8>, broken: bool)
      ensures this.data == data && this.broken == broken
    {
      this.data, this.broken := data, broken;
    }

    method ReadExact(n: nat) returns (r: Result<seq<uint8>, FrameError>)
      modifies this
      ensures if n <= |old(data)|
              then r == Ok(old(data)[..n]) && data == old(data)[n..]
              else r == Err(if broken then Io else Eof) && data == []
    {
      if n <= |data| {
        r := Ok(data[..n]);
        data := data[n..];
      } else {
        r := Err(if broken then Io else Eof);
        data := [];
      }
    }

    // `Inbound::read`: the whole frame is taken before any of it is looked at.
    method ReadInbound() returns (r: Result<Inbound, FrameError>)
      modifies this
      ensures if |old(data)| < INBOUND_FRAME_SIZE
              then r == Err(if broken then Io else Eof) && data == []
              else r == DecodeInbound(old(data)[..INBOUND_FRAME_SIZE]) && data == old(data)[INBOUND_FRAME_SIZE..]
    {
      ghost var all := data;
      var category :- ReadExact(1);
      var kind :- ReadExact(1);
      var w0 :- ReadExact(8);
      var w1 :- ReadExact(8);
      var w2 :- ReadExact(8);
      assert all[..26][0] == category[0] && all[..26][1] == kind[0];
      assert all[..26][2..][..8] == w0 && all[..26][2..][8..16] == w1 && all[..26][2..][16..] == w2;
      match category[0] {
        case 1 =>
          var status :- ReadStatus(kind[0]);
          r := Ok(Response(RawResponse(status, BytesWord(w0), BytesWord(w1), BytesWord(w2))));
        case 2 =>
          var event :- ReadEventKind(kind[0]);
          r := Ok(Event(event, BytesWord(w0), BytesWord(w1), BytesWord(w2)));
        case _ =>
          r := Err(Parsing);
      }
    }
  }
}
