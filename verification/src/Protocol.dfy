/**
 The concurrent request/response/event protocol of src/msim/connection.rs as a state
 machine: the sender, the wire in both directions, the simulator, the listener thread
 and the two channels, with every interleaving of their steps.
 */
module Protocol {
  import opened Wrappers
  import opened Machine
  import opened Frame
  import opened Connection

  // Where the thread that calls `send` is: outside it, past the stale check, blocked in
  // `recv`, or finished with the connection after a failed write.
  datatype Phase = Idle | Checked(request: Request) | Waiting | Closed

  // How the listener thread stands. It ends in the middle of the frame of which `rest` has
  // arrived, at the end of the stream or on an I/O error; on 26 bytes that are no frame; or
  // on an event that has no meaning.
  datatype Listener = Running | Ended(rest: seq<uint8>, broken: bool) | Uninterpretable

  // The error with which the listener ends, if it posts one.
  function FinalError(l: Listener): seq<EventMessage> {
    match l
    case Running => []
    case Ended(rest, broken) => LastError(rest, broken)
    case Uninterpretable => [Err(ParseError)]
  }

  datatype System = System(
    phase: Phase,
    written: seq<Request>,            // requests written to the socket, in order
    readCount: nat,                   // how many of them the simulator has read
    answers: map<nat, RawResponse>,   // its answer to request number k
    emitted: seq<Inbound>,            // every frame the simulator has sent
    origins: seq<Option<nat>>,        // for each response among them, the request it answers
    taken: nat,                       // how many of them the listener has read
    listener: Listener,
    respQ: seq<RawResponse>,          // response channel
    routed: seq<RawResponse>,         // everything the listener ever put into it
    eventLog: seq<EventMessage>,      // everything it ever put into the event channel
    checks: nat,                      // stale checks that found the response channel empty
    results: seq<SendResult>)         // results of the finished sends

  datatype Action =
    | StaleCheck(request: Request)
    | SendRequest
    | FailWrite
    | Receive
    | PeerRead
    | PeerAnswer(k: nat, answer: RawResponse)
    | PeerEvent(kind: EventKind, arg0: uint64, arg1: uint64, arg2: uint64)
    | PeerUnsolicited(response: RawResponse)
    | ListenerTake
    | ListenerStop(rest: seq<uint8>, broken: bool)

  const INITIAL := System(Idle, [], 0, map[], [], [], 0, Running, [], [], [], 0, [])

  // No frame can be read from these bytes alone, the last to arrive.
  predicate IsUnreadable(rest: seq<uint8>) {
    |rest| < INBOUND_FRAME_SIZE || (|rest| == INBOUND_FRAME_SIZE && DecodeInbound(rest).Err?)
  }

  predicate Enabled(s: System, a: Action) {
    match a
    case StaleCheck(_) => s.phase == Idle
    case SendRequest => s.phase.Checked?
    case FailWrite => s.phase.Checked?
    case Receive => s.phase == Waiting && (s.respQ != [] || !s.listener.Running?)
    case PeerRead => s.readCount < |s.written|
    case PeerAnswer(k, _) => k < s.readCount && k !in s.answers
    case PeerEvent(_, _, _, _) => true
    case PeerUnsolicited(_) => true
    case ListenerTake => s.listener.Running? && s.taken < |s.emitted|
    case ListenerStop(rest, _) => s.listener.Running? && IsUnreadable(rest)
  }

  // One turn of the listener loop on a decoded frame.
  function Listened(s: System, f: Inbound): System {
    match f
    case Response(r) => s.(respQ := s.respQ + [r], routed := s.routed + [r])
    case Event(k, a0, a1, a2) =>
      match Interpret(k, a0, a1, a2)
      case Ok(event) => s.(eventLog := s.eventLog + [Ok(event)])
      case Err(e) => s.(eventLog := s.eventLog + [Err(FromFrameError(e))], listener := Uninterpretable)
  }

  function Apply(s: System, a: Action): System
    requires Enabled(s, a)
  {
    match a
    case StaleCheck(request) =>
      if s.respQ == [] then s.(phase := Checked(request), checks := s.checks + 1)
      else s.(respQ := s.respQ[1..], results := s.results + [Unexpected(s.respQ[0])])
    case SendRequest => s.(phase := Waiting, written := s.written + [s.phase.request])
    case FailWrite => s.(phase := Closed, results := s.results + [WriteFailed])
    case Receive =>
      if s.respQ != [] then
        s.(phase := Idle, respQ := s.respQ[1..], results := s.results + [Returned(s.respQ[0])])
      else s.(phase := Idle, results := s.results + [Died])
    case PeerRead => s.(readCount := s.readCount + 1)
    case PeerAnswer(k, answer) =>
      s.(answers := s.answers[k := answer], emitted := s.emitted + [Response(answer)], origins := s.origins + [Some(k)])
    case PeerEvent(k, a0, a1, a2) => s.(emitted := s.emitted + [Event(k, a0, a1, a2)])
    case PeerUnsolicited(r) => s.(emitted := s.emitted + [Response(r)], origins := s.origins + [None])
    case ListenerTake => Listened(s.(taken := s.taken + 1), s.emitted[s.taken])
    case ListenerStop(rest, broken) =>
      s.(listener := Ended(rest, broken), eventLog := s.eventLog + FinalError(Ended(rest, broken)))
  }

  // The state an interleaving leads to, if each of its steps can be taken.
  function Exec(s: System, run: seq<Action>): Option<System>
    decreases |run|
  {
    if run == [] then Some(s)
    else if Enabled(s, run[0]) then Exec(Apply(s, run[0]), run[1..])
    else None
  }

  // A simulator that answers each request it reads once and sends no other response.
  predicate Conforming(run: seq<Action>) {
    forall i :: 0 <= i < |run| ==> !run[i].PeerUnsolicited?
  }

  function InFlight(s: System): seq<RawResponse>
    requires s.taken <= |s.emitted|
  {
    s.respQ + Responses(s.emitted[s.taken..])
  }

  // The request that is currently waited for, or the next one, is number |results|.
  ghost predicate Answered(s: System, n: int) {
    forall k :: k in s.answers <==> 0 <= k < n
  }

  predicate NoneDied(s: System) {
    Died !in s.results
  }

  // Result number i answers request number i, and no send found a stale response.
  ghost predicate ResultsMatch(s: System) {
    forall i :: 0 <= i < |s.results| ==>
      match s.results[i]
      case Returned(r) => i in s.answers && s.answers[i] == r
      case Unexpected(_) => false
      case Died => !s.listener.Running? && s.respQ == []
      case WriteFailed => s.phase == Closed && i == |s.results| - 1
  }

  // After a send that failed, every send fails.
  predicate FailureIsFinal(s: System) {
    forall i, j :: 0 <= i < j < |s.results| && s.results[j].Returned? ==> s.results[i].Returned?
  }

  // One request per send.
  predicate OnePerSend(s: System) {
    && |s.written| == (match s.phase
                       case Waiting => |s.results| + 1
                       case Closed => |s.results| - 1
                       case _ => |s.results|)
    && (s.phase == Closed ==> s.results != [] && s.results[|s.results| - 1] == WriteFailed)
  }

  // Outside `recv` nothing is outstanding; inside it, one request or its one answer is.
  ghost predicate Balanced(s: System)
    requires s.taken <= |s.emitted|
  {
    var n := |s.written|;
    if s.phase == Waiting then
      || (Answered(s, n - 1) && InFlight(s) == [])
      || (n > 0 && Answered(s, n) && InFlight(s) == [s.answers[n - 1]])
    else Answered(s, n) && InFlight(s) == []
  }

  // What every step of every interleaving keeps when the simulator conforms.
  ghost predicate LockStep(s: System) {
    && s.taken <= |s.emitted|
    && s.readCount <= |s.written|
    && (forall k :: k in s.answers ==> k < s.readCount)
    && ResultsMatch(s)
    && FailureIsFinal(s)
    && OnePerSend(s)
    && (NoneDied(s) ==> Balanced(s))
  }

  lemma {:induction false} ResponsesConcat(fs: seq<Inbound>, gs: seq<Inbound>)
    ensures Responses(fs + gs) == Responses(fs) + Responses(gs)
  {
    if fs == [] {
      assert fs + gs == gs;
    } else {
      ResponsesConcat(fs[1..], gs);
      assert (fs + gs)[1..] == fs[1..] + gs && (fs + gs)[0] == fs[0];
      var head := if fs[0].Response? then [fs[0].response] else [];
      assert head + (Responses(fs[1..]) + Responses(gs)) == head + Responses(fs[1..]) + Responses(gs);
    }
  }

  // Between sends the response channel is empty, so the stale check never fires.
  lemma IdleMeansEmptyChannel(s: System)
    requires LockStep(s) && s.phase != Waiting
    ensures s.respQ == []
  {
    hide Responses;
    assert |InFlight(s)| == |s.respQ| + |Responses(s.emitted[s.taken..])|;
  }

  lemma StaleCheckKeepsLockStep(s: System, request: Request)
    requires LockStep(s) && Enabled(s, StaleCheck(request))
    ensures LockStep(Apply(s, StaleCheck(request)))
  {
    IdleMeansEmptyChannel(s);
    hide Responses, Listened;
    assert InFlight(Apply(s, StaleCheck(request))) == InFlight(s);
  }

  lemma WriteKeepsLockStep(s: System)
    requires LockStep(s) && Enabled(s, SendRequest)
    ensures LockStep(Apply(s, SendRequest))
  {
    hide Responses, Listened;
    assert InFlight(Apply(s, SendRequest)) == InFlight(s);
  }

  lemma FailWriteKeepsLockStep(s: System)
    requires LockStep(s) && Enabled(s, FailWrite)
    ensures LockStep(Apply(s, FailWrite))
  {
    hide Responses, Listened;
    assert InFlight(Apply(s, FailWrite)) == InFlight(s);
  }

  lemma ReceiveKeepsLockStep(s: System)
    requires LockStep(s) && Enabled(s, Receive)
    ensures LockStep(Apply(s, Receive))
  {
    hide Responses, Listened;
    var t := Apply(s, Receive);
    if s.respQ != [] {
      assert InFlight(s)[0] == s.respQ[0];
      assert InFlight(s) == [s.respQ[0]] + InFlight(t);
      assert forall i :: 0 <= i < |s.results| ==> s.results[i].Returned?;
    } else {
      assert t.results[|s.results|] == Died;
    }
  }

  lemma ResponsesOfOne(f: Inbound)
    ensures Responses([f]) == if f.Response? then [f.response] else []
  {
  }

  lemma PeerEmits(s: System, f: Inbound)
    requires s.taken <= |s.emitted|
    ensures InFlight(s.(emitted := s.emitted + [f])) == InFlight(s) + Responses([f])
  {
    assert (s.emitted + [f])[s.taken..] == s.emitted[s.taken..] + [f];
    ResponsesConcat(s.emitted[s.taken..], [f]);
  }

  lemma PeerReadKeepsLockStep(s: System)
    requires LockStep(s) && Enabled(s, PeerRead)
    ensures LockStep(Apply(s, PeerRead))
  {
    hide Responses, Listened;
    assert InFlight(Apply(s, PeerRead)) == InFlight(s);
  }

  lemma ResultsKept(s: System, t: System)
    requires ResultsMatch(s) && t.results == s.results && t.phase == s.phase
    requires (!s.listener.Running? ==> !t.listener.Running?) && (Died in s.results ==> t.respQ == s.respQ)
    requires forall k :: k in s.answers ==> k in t.answers && t.answers[k] == s.answers[k]
    ensures ResultsMatch(t)
  {
  }

  // While nothing failed, the answered request is the awaited one and its answer is alone.
  lemma AnswerBalances(s: System, t: System, k: nat, answer: RawResponse)
    requires s.taken <= |s.emitted| && t.taken <= |t.emitted| && Balanced(s)
    requires k < |s.written| && k !in s.answers && t.phase == s.phase && t.written == s.written
    requires t.answers == s.answers[k := answer] && InFlight(t) == InFlight(s) + [answer]
    ensures Balanced(t)
  {
    hide InFlight;
  }

  lemma PeerAnswerKeepsLockStep(s: System, k: nat, answer: RawResponse)
    requires LockStep(s) && Enabled(s, PeerAnswer(k, answer))
    ensures LockStep(Apply(s, PeerAnswer(k, answer)))
  {
    hide Responses, Listened, ResultsMatch, Balanced;
    var t := Apply(s, PeerAnswer(k, answer));
    PeerEmits(s, Response(answer));
    ResponsesOfOne(Response(answer));
    assert InFlight(t) == InFlight(s) + [answer];
    ResultsKept(s, t);
    if NoneDied(s) {
      AnswerBalances(s, t, k, answer);
    }
  }

  lemma PeerEventKeepsLockStep(s: System, k: EventKind, a0: uint64, a1: uint64, a2: uint64)
    requires LockStep(s)
    ensures LockStep(Apply(s, PeerEvent(k, a0, a1, a2)))
  {
    hide Responses, Listened, ResultsMatch;
    PeerEmits(s, Event(k, a0, a1, a2));
    ResponsesOfOne(Event(k, a0, a1, a2));
    assert InFlight(Apply(s, PeerEvent(k, a0, a1, a2))) == InFlight(s);
    ResultsKept(s, Apply(s, PeerEvent(k, a0, a1, a2)));
  }

  lemma ListenedEffect(s: System, f: Inbound)
    ensures var t := Listened(s, f);
            && t == s.(respQ := t.respQ, routed := t.routed, eventLog := t.eventLog, listener := t.listener)
            && t.respQ == s.respQ + Responses([f]) && (t.listener.Running? ==> s.listener.Running?)
  {
    hide Interpret;
  }

  // Routing a frame moves a response from the wire to the channel.
  lemma TakeKeepsInFlight(s: System)
    requires s.taken <= |s.emitted| && Enabled(s, ListenerTake)
    ensures InFlight(Apply(s, ListenerTake)) == InFlight(s)
  {
    var f, t := s.emitted[s.taken], Apply(s, ListenerTake);
    ListenedEffect(s.(taken := s.taken + 1), f);
    assert s.emitted[s.taken..] == [f] + t.emitted[t.taken..];
    ResponsesConcat([f], t.emitted[t.taken..]);
    hide Responses, Listened;
  }

  // A routed frame can only come before the listener ends, so before any send has died.
  lemma TakeKeepsResults(s: System, t: System)
    requires ResultsMatch(s) && s.listener.Running? && t.results == s.results && t.phase == s.phase
    requires t.answers == s.answers
    ensures ResultsMatch(t)
  {
  }

  lemma ListenerTakeKeepsLockStep(s: System)
    requires LockStep(s) && Enabled(s, ListenerTake)
    ensures LockStep(Apply(s, ListenerTake))
  {
    hide Responses, Listened, InFlight, ResultsMatch;
    TakeKeepsInFlight(s);
    var t := Apply(s, ListenerTake);
    ListenedEffect(s.(taken := s.taken + 1), s.emitted[s.taken]);
    TakeKeepsResults(s, t);
  }

  lemma ListenerStopKeepsLockStep(s: System, rest: seq<uint8>, broken: bool)
    requires LockStep(s) && Enabled(s, ListenerStop(rest, broken))
    ensures LockStep(Apply(s, ListenerStop(rest, broken)))
  {
    hide Responses, Listened, IsUnreadable;
    assert InFlight(Apply(s, ListenerStop(rest, broken))) == InFlight(s);
  }

  lemma {:induction false} LockStepAlways(s: System, run: seq<Action>)
    requires LockStep(s) && Conforming(run) && Exec(s, run).Some?
    ensures LockStep(Exec(s, run).value)
    decreases |run|
  {
    if run != [] {
      hide LockStep, Apply;
      match run[0] {
        case StaleCheck(request) => StaleCheckKeepsLockStep(s, request);
        case SendRequest => WriteKeepsLockStep(s);
        case FailWrite => FailWriteKeepsLockStep(s);
        case Receive => ReceiveKeepsLockStep(s);
        case PeerRead => PeerReadKeepsLockStep(s);
        case PeerAnswer(k, answer) => PeerAnswerKeepsLockStep(s, k, answer);
        case PeerEvent(k, a0, a1, a2) => PeerEventKeepsLockStep(s, k, a0, a1, a2);
        case ListenerTake => ListenerTakeKeepsLockStep(s);
        case ListenerStop(rest, broken) => ListenerStopKeepsLockStep(s, rest, broken);
      }
      LockStepAlways(Apply(s, run[0]), run[1..]);
    }
  }

  // In every interleaving with a conforming simulator, send number i returns the answer
  // to request number i or fails, it fails from then on, and never for a stale response.
  lemma SendsAreAttributed(run: seq<Action>, i: nat)
    requires Conforming(run) && Exec(INITIAL, run).Some?
    requires i < |Exec(INITIAL, run).value.results|
    ensures var s := Exec(INITIAL, run).value;
            match s.results[i]
            case Returned(r) => i < |s.written| && i in s.answers && r == s.answers[i]
            case Unexpected(_) => false
            case Died => !s.listener.Running? && forall j :: i <= j < |s.results| ==> !s.results[j].Returned?
            case WriteFailed => i == |s.results| - 1
  {
    hide Exec;
    LockStepAlways(INITIAL, run);
  }

  // A blocked send is never stuck: unless it can return, the listener or a conforming
  // simulator has a step to take that brings the return closer.

  function HelpfulStep(s: System, answer: RawResponse): Action
    requires s.phase == Waiting && s.written != []
  {
    if s.respQ != [] || !s.listener.Running? then Receive
    else if s.taken < |s.emitted| then ListenerTake
    else if s.readCount < |s.written| then PeerRead
    else PeerAnswer(|s.written| - 1, answer)
  }

  function Distance(s: System): nat
    requires s.taken <= |s.emitted| && s.readCount <= |s.written|
  {
    (if |s.written| - 1 in s.answers then 0 else 2) + |s.written| - s.readCount + |s.emitted| - s.taken
  }

  // When nothing is left to route or to read, the awaited request is read but not answered.
  lemma OnlyAnswerMissing(s: System)
    requires LockStep(s) && s.phase == Waiting && s.listener.Running? && s.respQ == []
    requires s.taken == |s.emitted| && s.readCount == |s.written|
    ensures s.written != [] && |s.written| - 1 !in s.answers
  {
    assert s.emitted[s.taken..] == [];
    assert InFlight(s) == [];
    hide Responses;
  }

  lemma HelpfulStepHelps(s: System, answer: RawResponse)
    requires LockStep(s) && s.phase == Waiting
    ensures var a := HelpfulStep(s, answer);
            Enabled(s, a) && !a.PeerUnsolicited? &&
            var t := Apply(s, a);
            LockStep(t) && (t.phase == Idle || (t.phase == Waiting && Distance(t) < Distance(s))) &&
            |t.results| == |s.results| + (if a.Receive? then 1 else 0)
  {
    var a := HelpfulStep(s, answer);
    match a
    case Receive =>
      ReceiveKeepsLockStep(s);
      hide LockStep, Listened;
    case ListenerTake =>
      ListenerTakeKeepsLockStep(s);
      ListenedEffect(s.(taken := s.taken + 1), s.emitted[s.taken]);
      hide LockStep, Listened, Responses;
    case PeerRead =>
      PeerReadKeepsLockStep(s);
      hide LockStep, Listened;
    case PeerAnswer(k, _) =>
      OnlyAnswerMissing(s);
      hide LockStep, Listened;
      PeerAnswerKeepsLockStep(s, k, answer);
  }

  lemma {:induction false} SendCompletes(s: System, answer: RawResponse) returns (run: seq<Action>)
    requires LockStep(s) && s.phase == Waiting
    ensures Conforming(run) && |run| <= Distance(s) + 1
    ensures var t := Exec(s, run); t.Some? && t.value.phase == Idle && |t.value.results| == |s.results| + 1
    decreases Distance(s)
  {
    HelpfulStepHelps(s, answer);
    var a := HelpfulStep(s, answer);
    var t := Apply(s, a);
    run := [];
    if t.phase != Idle {
      run := SendCompletes(t, answer);
    }
    run := [a] + run;
    assert run[1..] + [] == run[1..];
  }
}
