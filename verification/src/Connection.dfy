/**
 The MSIM connection (src/msim/connection.rs): the listener thread that splits the
 inbound stream into responses and events, and the blocking `send`.
 */
module Connection {
  import opened Wrappers
  import opened Machine
  import opened Frame

  datatype MsimError = IOError | ClosedError | ParseError | UnexpectedMessage | RequestFailed | ListenerDied

  // What travels on the main event channel; an `Err` is fatal to the debugger.
  type EventMessage = Result<MsimEvent, MsimError>

  function FromFrameError(e: FrameError): MsimError {
    match e
    case Eof => ClosedError
    case Io => IOError
    case Parsing => ParseError
  }

  /**
   The sending half of a channel. `sent` is everything ever sent; `room` is how many
   more sends succeed before the receiver turns out to be dropped.
   */
  class Sender<T> {
    var sent: seq<T>
    var room: nat

    constructor (room: nat)
      ensures sent == [] && this.room == room
    {
      this.sent, this.room := [], room;
    }

    method Send(x: T) returns (ok: bool)
      modifies this
      ensures ok == (old(room) > 0)
      ensures if ok then sent == old(sent) + [x] && room == old(room) - 1 else sent == old(sent) && room == 0
    {
      ok := room > 0;
      if ok {
        sent, room := sent + [x], room - 1;
      }
    }
  }

  // What one run of the listener adds to the two channels.
  datatype Demuxed = Demuxed(responses: seq<RawResponse>, events: seq<EventMessage>)

  function Demux(bs: seq<uint8>, broken: bool, respRoom: nat, eventRoom: nat): Demuxed
    decreases |bs|
  {
    var noMore := Demuxed([], []);
    if |bs| < INBOUND_FRAME_SIZE then
      if broken && eventRoom > 0 then Demuxed([], [Err(IOError)]) else noMore
    else
      var rest := bs[INBOUND_FRAME_SIZE..];
      match DecodeInbound(bs[..INBOUND_FRAME_SIZE])
      case Err(e) => if eventRoom > 0 then Demuxed([], [Err(FromFrameError(e))]) else noMore
      case Ok(Response(r)) =>
        if respRoom == 0 then noMore else
        var d := Demux(rest, broken, respRoom - 1, eventRoom);
        d.(responses := [r] + d.responses)
      case Ok(Event(k, a0, a1, a2)) =>
        if eventRoom == 0 then noMore else
        match Interpret(k, a0, a1, a2)
        case Err(e) => Demuxed([], [Err(FromFrameError(e))])
        case Ok(event) =>
          var d := Demux(rest, broken, respRoom, eventRoom - 1);
          d.(events := [Ok(event)] + d.events)
  }

  // `post_msim_background`: the thread's loop. It ends because every turn takes a frame.
  method Listen(stream: Reader, respTx: Sender<RawResponse>, eventTx: Sender<EventMessage>)
    modifies stream, respTx, eventTx
    ensures var d := Demux(old(stream.data), stream.broken, old(respTx.room), old(eventTx.room));
            respTx.sent == old(respTx.sent) + d.responses && eventTx.sent == old(eventTx.sent) + d.events
  {
    hide DecodeInbound, Interpret;
    ghost var total := Demux(stream.data, stream.broken, respTx.room, eventTx.room);
    while true
      invariant var d := Demux(stream.data, stream.broken, respTx.room, eventTx.room);
                respTx.sent + d.responses == old(respTx.sent) + total.responses &&
                eventTx.sent + d.events == old(eventTx.sent) + total.events
      decreases |stream.data|
    {
      var inbound := stream.ReadInbound();
      match inbound {
        case Ok(Response(r)) =>
          var ok := respTx.Send(r);
          if !ok {
            return;
          }
        case Ok(Event(kind, a0, a1, a2)) =>
          var interpreted := Interpret(kind, a0, a1, a2);
          var msg: EventMessage :=
            match interpreted
            case Ok(event) => Ok(event)
            case Err(e) => Err(FromFrameError(e));
          var ok := eventTx.Send(msg);
          if !ok || interpreted.Err? {
            return;
          }
        case Err(Eof) =>
          return;
        case Err(e) =>
          var _ := eventTx.Send(Err(FromFrameError(e)));
          return;
      }
    }
  }

  // How one call of `send` ends. `Unexpected` carries the stale response it threw away.
  datatype SendResult =
    | Returned(response: RawResponse)
    | Unexpected(stale: RawResponse)
    | Died
    | WriteFailed

  // The result of `send` and the response channel after it. `stale` is the channel before;
  // `arrivals` is what the listener routes between the stale check and the return of
  // `recv`, empty exactly when the listener ends without routing anything.
  function SendOutcome(stale: seq<RawResponse>, written: bool, arrivals: seq<RawResponse>)
    : (SendResult, seq<RawResponse>)
  {
    if stale != [] then (Unexpected(stale[0]), stale[1..])
    else if !written then (WriteFailed, arrivals)
    else if arrivals == [] then (Died, [])
    else (Returned(arrivals[0]), arrivals[1..])
  }

  /** `TcpConnection`: the write half of the socket and the receiving end of the response channel. */
  class TcpConnection {
    const stream: Writer
    var respRx: seq<RawResponse>

    constructor (stream: Writer)
      ensures this.stream == stream && respRx == []
    {
      this.stream, this.respRx := stream, [];
    }

    method Send(request: Request, arrivals: seq<RawResponse>) returns (r: SendResult)
      modifies this, stream
      ensures var (sink, written) := Put(old(stream.sink), EncodeRequest(request));
              stream.sink == (if old(respRx) == [] then sink else old(stream.sink)) &&
              (r, respRx) == SendOutcome(old(respRx), written, arrivals)
    {
      if respRx != [] {
        r := Unexpected(respRx[0]);
        respRx := respRx[1..];
        return;
      }
      respRx := arrivals;
      var written := stream.WriteRequest(request);
      if !written {
        return WriteFailed;
      }
      if respRx == [] {
        return Died;
      }
      r := Returned(respRx[0]);
      respRx := respRx[1..];
    }
  }

  // The same, said about whole streams instead of one frame at a time

  function Responses(fs: seq<Inbound>): (rs: seq<RawResponse>)
    ensures |rs| <= |fs|
  {
    if fs == [] then []
    else (if fs[0].Response? then [fs[0].response] else []) + Responses(fs[1..])
  }

  predicate Deliverable(f: Inbound) {
    f.Event? ==> Interpret(f.kind, f.arg0, f.arg1, f.arg2).Ok?
  }

  predicate AllDeliverable(fs: seq<Inbound>) {
    forall i :: 0 <= i < |fs| ==> Deliverable(fs[i])
  }

  function Events(fs: seq<Inbound>): (es: seq<EventMessage>)
    requires AllDeliverable(fs)
    ensures |es| <= |fs| && forall i :: 0 <= i < |es| ==> es[i].Ok?
  {
    if fs == [] then []
    else
      (match fs[0]
       case Response(_) => []
       case Event(k, a0, a1, a2) => [Ok(Interpret(k, a0, a1, a2).value)]) + Events(fs[1..])
  }

  // The listener cannot take another frame from these bytes.
  predicate Stuck(tail: seq<uint8>) {
    |tail| < INBOUND_FRAME_SIZE ||
    var r := DecodeInbound(tail[..INBOUND_FRAME_SIZE]);
    r.Err? || !Deliverable(r.value)
  }

  // `fs` is the longest run of readable, interpretable frames at the front of `bs`.
  predicate IsSplit(bs: seq<uint8>, fs: seq<Inbound>, tail: seq<uint8>) {
    bs == EncodeInbounds(fs) + tail && AllDeliverable(fs) && Stuck(tail)
  }

  // The one error the listener posts, if it posts one: not for end-of-file, even mid-frame.
  function LastError(tail: seq<uint8>, broken: bool): seq<EventMessage> {
    if INBOUND_FRAME_SIZE <= |tail| then [Err(ParseError)]
    else if broken then [Err(IOError)]
    else []
  }

  lemma {:induction false} SplitExists(bs: seq<uint8>) returns (fs: seq<Inbound>, tail: seq<uint8>)
    ensures IsSplit(bs, fs, tail)
    decreases |bs|
  {
    hide DecodeInbound, EncodeInbound, Interpret;
    if Stuck(bs) {
      return [], bs;
    }
    var n := INBOUND_FRAME_SIZE;
    var f := DecodeInbound(bs[..n]).value;
    InboundRoundTrip(f, bs[..n]);
    fs, tail := SplitExists(bs[n..]);
    fs := [f] + fs;
    assert bs == bs[..n] + bs[n..];
    assert fs[1..] + [] == fs[1..];
  }

  lemma HeadOfSplit(bs: seq<uint8>, fs: seq<Inbound>, tail: seq<uint8>)
    requires fs != [] && IsSplit(bs, fs, tail)
    ensures INBOUND_FRAME_SIZE <= |bs| && DecodeInbound(bs[..INBOUND_FRAME_SIZE]) == Ok(fs[0])
    ensures Deliverable(fs[0]) && IsSplit(bs[INBOUND_FRAME_SIZE..], fs[1..], tail)
  {
    hide DecodeInbound, EncodeInbound, Interpret;
    var n := INBOUND_FRAME_SIZE;
    var first, others := EncodeInbound(fs[0]), EncodeInbounds(fs[1..]) + tail;
    assert bs == first + others;
    assert bs[..n] == first && bs[n..] == others;
    InboundRoundTrip(fs[0], bs[..n]);
    assert Deliverable(fs[0]);
  }

  lemma {:induction false} SplitUnique(bs: seq<uint8>, fs: seq<Inbound>, tail: seq<uint8>,
                                       gs: seq<Inbound>, rest: seq<uint8>)
    requires IsSplit(bs, fs, tail) && IsSplit(bs, gs, rest)
    ensures fs == gs && tail == rest
    decreases |fs|
  {
    hide DecodeInbound, EncodeInbound, Interpret;
    var n := INBOUND_FRAME_SIZE;
    if fs != [] {
      HeadOfSplit(bs, fs, tail);
    }
    if gs != [] {
      HeadOfSplit(bs, gs, rest);
    }
    if fs == [] || gs == [] {
      assert bs == if fs == [] then tail else rest;
    } else {
      SplitUnique(bs[n..], fs[1..], tail, gs[1..], rest);
    }
  }

  // While the receivers live, the two channels receive exactly the responses and the
  // events of the readable frames, in order, and then at most one error.
  lemma {:induction false} DemuxSeparatesStream(bs: seq<uint8>, fs: seq<Inbound>, tail: seq<uint8>,
                                                broken: bool, respRoom: nat, eventRoom: nat)
    requires IsSplit(bs, fs, tail)
    requires |Responses(fs)| <= respRoom && |Events(fs)| < eventRoom
    ensures Demux(bs, broken, respRoom, eventRoom) ==
            Demuxed(Responses(fs), Events(fs) + LastError(tail, broken))
    decreases |fs|
  {
    hide DecodeInbound, EncodeInbound, Interpret;
    if fs == [] {
      assert bs == tail;
    } else {
      HeadOfSplit(bs, fs, tail);
      if fs[0].Response? {
        DemuxSeparatesStream(bs[INBOUND_FRAME_SIZE..], fs[1..], tail, broken, respRoom - 1, eventRoom);
      } else {
        DemuxSeparatesStream(bs[INBOUND_FRAME_SIZE..], fs[1..], tail, broken, respRoom, eventRoom - 1);
      }
    }
  }

  // From the simulator's side

  // What a simulator means to send.
  datatype Sending = Answer(response: RawResponse) | Notice(event: MsimEvent)

  predicate Carries(f: Inbound, sending: Sending) {
    match sending
    case Answer(r) => f == Response(r)
    case Notice(e) => Announces(f, e)
  }

  predicate AllCarry(fs: seq<Inbound>, sendings: seq<Sending>) {
    |fs| == |sendings| && forall i :: 0 <= i < |fs| ==> Carries(fs[i], sendings[i])
  }

  function AnswersOf(sendings: seq<Sending>): seq<RawResponse> {
    if sendings == [] then []
    else (if sendings[0].Answer? then [sendings[0].response] else []) + AnswersOf(sendings[1..])
  }

  function NoticesOf(sendings: seq<Sending>): seq<EventMessage> {
    if sendings == [] then []
    else (if sendings[0].Notice? then [Ok(sendings[0].event)] else []) + NoticesOf(sendings[1..])
  }

  lemma {:induction false} FramesCarry(fs: seq<Inbound>, sendings: seq<Sending>)
    requires AllCarry(fs, sendings)
    ensures AllDeliverable(fs) && Responses(fs) == AnswersOf(sendings) && Events(fs) == NoticesOf(sendings)
    decreases |fs|
  {
    if fs != [] {
      var f, rest := fs[0], fs[1..];
      assert AllCarry(rest, sendings[1..]) by {
        assert forall i :: 0 <= i < |rest| ==> rest[i] == fs[i + 1] && sendings[1..][i] == sendings[i + 1];
      }
      FramesCarry(rest, sendings[1..]);
      assert Carries(f, sendings[0]);
      if sendings[0].Notice? {
        InterpretIff(f.kind, f.arg0, f.arg1, f.arg2, sendings[0].event);
      }
      assert forall i :: 0 < i < |fs| ==> fs[i] == rest[i - 1];
    }
  }

  // What the simulator means to send is what arrives: the answers in the one channel, the
  // events in the other, each in order and with its own CPU, address and reason.
  lemma SentIsDelivered(sendings: seq<Sending>, fs: seq<Inbound>, room: nat)
    requires AllCarry(fs, sendings) && |fs| < room
    ensures Demux(EncodeInbounds(fs), false, room, room) == Demuxed(AnswersOf(sendings), NoticesOf(sendings))
  {
    FramesCarry(fs, sendings);
    hide DecodeInbound, EncodeInbound, Interpret, Demux, Events, Responses, AllCarry, EncodeInbounds;
    assert EncodeInbounds(fs) == EncodeInbounds(fs) + [];
    DemuxSeparatesStream(EncodeInbounds(fs), fs, [], false, room, room);
  }

  // A dropped receiver only cuts the histories short; it never reorders or invents.
  lemma {:induction false} DemuxIsPrefix(bs: seq<uint8>, broken: bool, respRoom: nat, eventRoom: nat,
                                         moreResp: nat, moreEvents: nat)
    requires respRoom <= moreResp && eventRoom <= moreEvents
    ensures var d, all := Demux(bs, broken, respRoom, eventRoom), Demux(bs, broken, moreResp, moreEvents);
            d.responses <= all.responses && d.events <= all.events &&
            |d.responses| <= respRoom && |d.events| <= eventRoom
    decreases |bs|
  {
    hide DecodeInbound, EncodeInbound, Interpret;
    if INBOUND_FRAME_SIZE <= |bs| {
      var rest := bs[INBOUND_FRAME_SIZE..];
      match DecodeInbound(bs[..INBOUND_FRAME_SIZE])
      case Ok(Response(_)) =>
        if respRoom > 0 {
          DemuxIsPrefix(rest, broken, respRoom - 1, eventRoom, moreResp - 1, moreEvents);
        }
      case Ok(Event(_, _, _, _)) =>
        if eventRoom > 0 {
          DemuxIsPrefix(rest, broken, respRoom, eventRoom - 1, moreResp, moreEvents - 1);
        }
      case Err(_) =>
    }
  }
}
