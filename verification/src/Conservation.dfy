/**
 The protocol of Protocol.dfy under any simulator, also one that sends responses nobody
 asked for: what is conserved between the wire and `send`, which send gets its own answer,
 and that the steps of listener and sender are what their code does.
 */
module Conservation {
  import opened Wrappers
  import opened Machine
  import opened Frame
  import opened Connection
  import opened Protocol

  // The responses that finished sends have taken out of the channel.
  function Consumed(results: seq<SendResult>): seq<RawResponse> {
    if results == [] then []
    else
      Consumed(results[..|results| - 1]) +
      match results[|results| - 1]
      case Returned(r) => [r]
      case Unexpected(r) => [r]
      case _ => []
  }

  function Failures(results: seq<SendResult>): nat {
    if results == [] then 0
    else Failures(results[..|results| - 1]) + if results[|results| - 1] == WriteFailed then 1 else 0
  }

  // How many of the finished sends have written their request.
  function Writes(results: seq<SendResult>): nat {
    if results == [] then 0
    else
      var last := results[|results| - 1];
      Writes(results[..|results| - 1]) + if last.Returned? || last.Died? then 1 else 0
  }

  // How many stale responses the finished sends have thrown away.
  function Discarded(results: seq<SendResult>): nat {
    if results == [] then 0
    else Discarded(results[..|results| - 1]) + if results[|results| - 1].Unexpected? then 1 else 0
  }

  // What one more result adds to the counts.
  lemma ResultAdded(results: seq<SendResult>, r: SendResult)
    ensures Consumed(results + [r]) ==
            Consumed(results) + match r { case Returned(x) => [x] case Unexpected(x) => [x] case _ => [] }
    ensures Failures(results + [r]) == Failures(results) + if r == WriteFailed then 1 else 0
    ensures Writes(results + [r]) == Writes(results) + if r.Returned? || r.Died? then 1 else 0
    ensures Discarded(results + [r]) == Discarded(results) + if r.Unexpected? then 1 else 0
  {
    assert (results + [r])[..|results|] == results;
  }

  // The frames whose contents the listener has passed on.
  function Delivered(s: System): seq<Inbound>
    requires s.taken <= |s.emitted|
  {
    s.emitted[..if s.listener.Uninterpretable? && s.taken > 0 then s.taken - 1 else s.taken]
  }

  // Every event of these frames arrived, in order, and then at most the one error that
  // ended the listener; it ended only where it could not go on.
  predicate EventsArrive(s: System)
    requires s.taken <= |s.emitted|
  {
    && AllDeliverable(Delivered(s))
    && s.eventLog == Events(Delivered(s)) + FinalError(s.listener)
    && match s.listener
       case Running => true
       case Ended(rest, _) => IsUnreadable(rest)
       case Uninterpretable => s.taken > 0 && !Deliverable(s.emitted[s.taken - 1])
  }

  predicate Conserved(s: System) {
    && s.taken <= |s.emitted|
    // no response is lost, invented or reordered between the wire and `send`
    && s.routed == Responses(s.emitted[..s.taken])
    && s.routed == Consumed(s.results) + s.respQ
    // a request is written, or its write failed, after each check that found the channel empty
    && s.checks == |s.written| + Failures(s.results) + (if s.phase.Checked? then 1 else 0)
    && |s.written| == Writes(s.results) + (if s.phase == Waiting then 1 else 0)
    // nothing is received once `recv` has found the listener gone
    && (Died in s.results ==> !s.listener.Running? && s.respQ == [])
    && (forall i, j :: 0 <= i < j < |s.results| && s.results[i].Died? ==> !s.results[j].Returned?)
    && EventsArrive(s)
  }

  lemma {:induction false} EventsConcat(fs: seq<Inbound>, f: Inbound)
    requires AllDeliverable(fs) && Deliverable(f)
    ensures AllDeliverable(fs + [f]) && Events(fs + [f]) == Events(fs) + Events([f])
  {
    hide Interpret;
    if fs == [] {
      assert fs + [f] == [f];
    } else {
      EventsConcat(fs[1..], f);
      assert (fs + [f])[1..] == fs[1..] + [f] && (fs + [f])[0] == fs[0];
      var head := Events([fs[0]]);
      assert head + (Events(fs[1..]) + Events([f])) == head + Events(fs[1..]) + Events([f]);
    }
  }

  // Steps that leave the listener's side alone.
  lemma EventsStillArrive(s: System, t: System)
    requires s.taken <= |s.emitted| && EventsArrive(s)
    requires t.taken == s.taken && t.listener == s.listener && t.eventLog == s.eventLog && s.emitted <= t.emitted
    ensures EventsArrive(t) && t.emitted[..t.taken] == s.emitted[..s.taken]
  {
    assert t.emitted[..t.taken] == s.emitted[..s.taken];
    assert Delivered(t) == Delivered(s);
    hide Events, AllDeliverable, Delivered, IsUnreadable;
  }

  lemma WriteConserves(s: System)
    requires Conserved(s) && Enabled(s, SendRequest)
    ensures Conserved(Apply(s, SendRequest))
  {
    hide Listened, Responses, Events, Consumed, Failures, Writes, EventsArrive;
    EventsStillArrive(s, Apply(s, SendRequest));
  }

  lemma FailWriteConserves(s: System)
    requires Conserved(s) && Enabled(s, FailWrite)
    ensures Conserved(Apply(s, FailWrite))
  {
    hide Listened, Responses, Events, Consumed, Failures, Writes, EventsArrive;
    EventsStillArrive(s, Apply(s, FailWrite));
    ResultAdded(s.results, WriteFailed);
  }

  lemma StaleCheckConserves(s: System, request: Request)
    requires Conserved(s) && Enabled(s, StaleCheck(request))
    ensures Conserved(Apply(s, StaleCheck(request)))
  {
    hide Listened, Responses, Events, Consumed, Failures, Writes, EventsArrive;
    EventsStillArrive(s, Apply(s, StaleCheck(request)));
    if s.respQ != [] {
      ResultAdded(s.results, Unexpected(s.respQ[0]));
      assert s.respQ == [s.respQ[0]] + s.respQ[1..];
    }
  }

  lemma ReceivedConserves(s: System)
    requires Conserved(s) && Enabled(s, Receive) && s.respQ != []
    ensures Conserved(Apply(s, Receive))
  {
    hide Listened, Responses, Events, Consumed, Failures, Writes, EventsArrive;
    EventsStillArrive(s, Apply(s, Receive));
    ResultAdded(s.results, Returned(s.respQ[0]));
    assert s.respQ == [s.respQ[0]] + s.respQ[1..];
    assert forall i :: 0 <= i < |s.results| ==> s.results[i] in s.results;
  }

  lemma DiedConserves(s: System)
    requires Conserved(s) && Enabled(s, Receive) && s.respQ == []
    ensures Conserved(Apply(s, Receive))
  {
    hide Listened, Responses, Events, Consumed, Failures, Writes, EventsArrive;
    EventsStillArrive(s, Apply(s, Receive));
    ResultAdded(s.results, Died);
  }

  lemma PeerConserves(s: System, a: Action)
    requires Conserved(s) && Enabled(s, a)
    requires a.PeerRead? || a.PeerAnswer? || a.PeerEvent? || a.PeerUnsolicited?
    ensures Conserved(Apply(s, a))
  {
    hide Listened, Responses, Events, Consumed, Failures, Writes, EventsArrive;
    EventsStillArrive(s, Apply(s, a));
  }

  lemma TakeConserves(s: System)
    requires Conserved(s) && Enabled(s, ListenerTake)
    ensures Conserved(Apply(s, ListenerTake))
  {
    hide Interpret, Consumed, Failures, Writes;
    var t, f := Apply(s, ListenerTake), s.emitted[s.taken];
    assert t.emitted[..t.taken] == s.emitted[..s.taken] + [f];
    ResponsesConcat(s.emitted[..s.taken], [f]);
    if Deliverable(f) {
      EventsConcat(s.emitted[..s.taken], f);
    }
  }

  lemma StopConserves(s: System, rest: seq<uint8>, broken: bool)
    requires Conserved(s) && Enabled(s, ListenerStop(rest, broken))
    ensures Conserved(Apply(s, ListenerStop(rest, broken)))
  {
    hide Responses, Events, AllDeliverable, Listened, Consumed, Failures, Writes, IsUnreadable;
  }

  lemma {:induction false} ConservedAlways(s: System, run: seq<Action>)
    requires Conserved(s) && Exec(s, run).Some?
    ensures Conserved(Exec(s, run).value)
    decreases |run|
  {
    if run != [] {
      hide Conserved, Apply;
      var a := run[0];
      match a {
        case StaleCheck(request) => StaleCheckConserves(s, request);
        case SendRequest => WriteConserves(s);
        case FailWrite => FailWriteConserves(s);
        case Receive =>
          if s.respQ != [] {
            ReceivedConserves(s);
          } else {
            DiedConserves(s);
          }
        case ListenerTake => TakeConserves(s);
        case ListenerStop(rest, broken) => StopConserves(s, rest, broken);
        case _ => PeerConserves(s, a);
      }
      ConservedAlways(Apply(s, a), run[1..]);
    }
  }

  lemma ResponsesAreConserved(run: seq<Action>)
    requires Exec(INITIAL, run).Some?
    ensures Conserved(Exec(INITIAL, run).value)
  {
    ConservedAlways(INITIAL, run);
  }

  // Attribution

  // Responses carry no number; each stands for the request it was sent as an answer to.
  ghost predicate Traced(s: System) {
    && |s.origins| == |Responses(s.emitted)|
    && (forall p :: 0 <= p < |s.origins| && s.origins[p].Some? ==>
          s.origins[p].value in s.answers && Responses(s.emitted)[p] == s.answers[s.origins[p].value])
    && (forall k :: k in s.answers ==> Some(k) in s.origins)
    && (forall p, q :: 0 <= p < q < |s.origins| && s.origins[p].Some? ==> s.origins[p] != s.origins[q])
  }

  lemma ListenerKeepsTraced(s: System)
    requires Traced(s) && Enabled(s, ListenerTake)
    ensures Traced(Apply(s, ListenerTake))
  {
    ListenedEffect(s.(taken := s.taken + 1), s.emitted[s.taken]);
    hide Listened, Responses;
  }

  lemma AnswerKeepsTraced(s: System, k: nat, answer: RawResponse)
    requires Traced(s) && Enabled(s, PeerAnswer(k, answer))
    ensures Traced(Apply(s, PeerAnswer(k, answer)))
  {
    ResponsesConcat(s.emitted, [Response(answer)]);
    ResponsesOfOne(Response(answer));
    hide Listened, Responses;
    var t := Apply(s, PeerAnswer(k, answer));
    assert t.origins[|s.origins|] == Some(k);
    assert forall p :: 0 <= p < |s.origins| ==> t.origins[p] == s.origins[p] && Some(k) != s.origins[p];
  }

  lemma StrayKeepsTraced(s: System, response: RawResponse)
    requires Traced(s)
    ensures Traced(Apply(s, PeerUnsolicited(response)))
  {
    ResponsesConcat(s.emitted, [Response(response)]);
    ResponsesOfOne(Response(response));
    hide Listened, Responses;
    var t := Apply(s, PeerUnsolicited(response));
    assert forall p :: 0 <= p < |s.origins| ==> t.origins[p] == s.origins[p];
  }

  lemma EventKeepsTraced(s: System, k: EventKind, a0: uint64, a1: uint64, a2: uint64)
    requires Traced(s)
    ensures Traced(Apply(s, PeerEvent(k, a0, a1, a2)))
  {
    ResponsesConcat(s.emitted, [Event(k, a0, a1, a2)]);
    ResponsesOfOne(Event(k, a0, a1, a2));
    hide Listened, Responses;
  }

  lemma OthersKeepTraced(s: System, a: Action)
    requires Traced(s) && Enabled(s, a)
    requires !a.ListenerTake? && !a.PeerAnswer? && !a.PeerEvent? && !a.PeerUnsolicited?
    ensures Traced(Apply(s, a))
  {
    hide Listened, Responses;
  }

  lemma {:induction false} TracedAlways(s: System, run: seq<Action>)
    requires Traced(s) && Exec(s, run).Some?
    ensures Traced(Exec(s, run).value)
    decreases |run|
  {
    if run != [] {
      hide Traced, Apply;
      var a := run[0];
      match a {
        case ListenerTake => ListenerKeepsTraced(s);
        case PeerAnswer(k, answer) => AnswerKeepsTraced(s, k, answer);
        case PeerEvent(k, a0, a1, a2) => EventKeepsTraced(s, k, a0, a1, a2);
        case PeerUnsolicited(response) => StrayKeepsTraced(s, response);
        case _ => OthersKeepTraced(s, a);
      }
      TracedAlways(Apply(s, a), run[1..]);
    }
  }

  // Result `i` in the sequence of the responses consumed and of the requests written.
  lemma {:induction false} ResultSplits(results: seq<SendResult>, i: nat)
    requires i < |results| && results[i].Returned?
    ensures |Consumed(results[..i])| < |Consumed(results)|
    ensures Consumed(results)[|Consumed(results[..i])|] == results[i].response
    ensures Writes(results[..i]) < Writes(results)
  {
    var n := |results| - 1;
    if i < n {
      ResultSplits(results[..n], i);
      assert results[..n][..i] == results[..i];
    }
  }

  lemma {:induction false} ConsumedCount(results: seq<SendResult>)
    requires Died !in results
    ensures |Consumed(results)| == Writes(results) + Discarded(results)
  {
    if results != [] {
      ConsumedCount(results[..|results| - 1]);
      assert results[|results| - 1] in results;
    }
  }

  function StraysIn(origins: seq<Option<nat>>): nat {
    if origins == [] then 0
    else StraysIn(origins[..|origins| - 1]) + if origins[|origins| - 1].None? then 1 else 0
  }

  function AnswersIn(origins: seq<Option<nat>>): nat {
    if origins == [] then 0
    else AnswersIn(origins[..|origins| - 1]) + if origins[|origins| - 1].Some? then 1 else 0
  }

  lemma {:induction false} EveryResponseIsOne(origins: seq<Option<nat>>)
    ensures StraysIn(origins) + AnswersIn(origins) == |origins|
  {
    if origins != [] {
      EveryResponseIsOne(origins[..|origins| - 1]);
    }
  }

  // Send `i` is the one that wrote request number `Writes(results[..i])`. It got that
  // request's own answer, and not another response, if the response it took is the one the
  // simulator sent as that answer.
  predicate GotItsOwn(s: System, i: nat)
    requires i < |s.results|
  {
    var c := |Consumed(s.results[..i])|;
    c < |s.origins| && s.origins[c] == Some(Writes(s.results[..i]))
  }

  // What send `i` returned, in every run with any simulator.
  lemma ReturnedIsEmitted(run: seq<Action>, i: nat)
    requires Exec(INITIAL, run).Some?
    requires var s := Exec(INITIAL, run).value; i < |s.results| && s.results[i].Returned?
    ensures var s := Exec(INITIAL, run).value;
            var k, c := Writes(s.results[..i]), |Consumed(s.results[..i])|;
            && Traced(s) && k < |s.written| && c < |s.origins|
            && s.results[i].response == Responses(s.emitted)[c]
            && c == k + Discarded(s.results[..i])
  {
    ConservedAlways(INITIAL, run);
    TracedAlways(INITIAL, run);
    var s := Exec(INITIAL, run).value;
    hide Exec, Responses, Consumed, Writes, Discarded, EventsArrive;
    ResponsesConcat(s.emitted[..s.taken], s.emitted[s.taken..]);
    assert s.emitted[..s.taken] + s.emitted[s.taken..] == s.emitted;
    ResultSplits(s.results, i);
    forall j | 0 <= j < i
      ensures !s.results[j].Died?
    {
    }
    ConsumedCount(s.results[..i]);
  }

  // A send that returns gets its own request's answer exactly when the simulator sent that
  // answer after as many other responses, answers and strays, as requests were written and
  // stale responses thrown away before.
  lemma AttributedIff(run: seq<Action>, i: nat)
    requires Exec(INITIAL, run).Some?
    requires var s := Exec(INITIAL, run).value; i < |s.results| && s.results[i].Returned?
    ensures var s := Exec(INITIAL, run).value;
            var k := Writes(s.results[..i]);
            && (GotItsOwn(s, i) ==> k in s.answers && s.results[i].response == s.answers[k])
            && (GotItsOwn(s, i) <==>
                  exists p: nat :: p < |s.origins| && s.origins[p] == Some(k) &&
                    AnswersIn(s.origins[..p]) + StraysIn(s.origins[..p]) == k + Discarded(s.results[..i]))
  {
    ReturnedIsEmitted(run, i);
    var s := Exec(INITIAL, run).value;
    hide Exec, Responses, Consumed, Writes, Discarded, StraysIn, AnswersIn;
    forall p: nat | p < |s.origins|
      ensures AnswersIn(s.origins[..p]) + StraysIn(s.origins[..p]) == p
    {
      EveryResponseIsOne(s.origins[..p]);
    }
  }

  // A simulator that answers requests in the order it reads them.
  ghost predicate AnswersInOrder(origins: seq<Option<nat>>) {
    forall p :: 0 <= p < |origins| && origins[p].Some? ==> origins[p].value == AnswersIn(origins[..p])
  }

  // With such a simulator it is exactly when, of the unsolicited responses, as many were
  // sent before the answer as stale checks had thrown away before the request was written.
  lemma AttributedInOrderIff(run: seq<Action>, i: nat, p: nat)
    requires Exec(INITIAL, run).Some? && AnswersInOrder(Exec(INITIAL, run).value.origins)
    requires var s := Exec(INITIAL, run).value;
             && i < |s.results| && s.results[i].Returned?
             && p < |s.origins| && s.origins[p] == Some(Writes(s.results[..i]))
    ensures var s := Exec(INITIAL, run).value;
            GotItsOwn(s, i) <==> StraysIn(s.origins[..p]) == Discarded(s.results[..i])
  {
    ReturnedIsEmitted(run, i);
    EveryResponseIsOne(Exec(INITIAL, run).value.origins[..p]);
    hide Exec, Responses, Consumed, Writes, Discarded, StraysIn, AnswersIn;
  }

  // The listener's steps against its code

  lemma EncodeInboundsConcat(fs: seq<Inbound>, f: Inbound)
    ensures EncodeInbounds(fs + [f]) == EncodeInbounds(fs) + EncodeInbound(f)
  {
    hide EncodeInbound;
    if fs == [] {
      assert fs + [f] == [f];
      assert EncodeInbounds([f]) == EncodeInbound(f) + EncodeInbounds([f][1..]);
    } else {
      EncodeInboundsConcat(fs[1..], f);
      assert (fs + [f])[1..] == fs[1..] + [f];
      assert EncodeInbound(fs[0]) + (EncodeInbounds(fs[1..]) + EncodeInbound(f)) ==
             EncodeInbound(fs[0]) + EncodeInbounds(fs[1..]) + EncodeInbound(f);
    }
  }

  // The bytes the listener has taken from the socket.
  function BytesTaken(s: System): seq<uint8>
    requires s.taken <= |s.emitted|
  {
    EncodeInbounds(s.emitted[..s.taken]) + if s.listener.Ended? then s.listener.rest else []
  }

  lemma UninterpretableIsStuck(f: Inbound)
    requires !Deliverable(f)
    ensures |EncodeInbound(f)| == INBOUND_FRAME_SIZE && Stuck(EncodeInbound(f))
  {
    InboundRoundTrip(f, EncodeInbound(f));
    hide DecodeInbound, Interpret, EncodeInbound;
    assert EncodeInbound(f)[..INBOUND_FRAME_SIZE] == EncodeInbound(f);
  }

  // The bytes taken split where the listener stopped, if it has.
  lemma TakenSplits(s: System) returns (tail: seq<uint8>)
    requires Conserved(s)
    ensures IsSplit(BytesTaken(s), Delivered(s), tail)
    ensures LastError(tail, s.listener.Ended? && s.listener.broken) == FinalError(s.listener)
  {
    hide Responses, Events, Interpret, EncodeInbound, DecodeInbound, Consumed, Failures, Writes;
    match s.listener
    case Running =>
      tail := [];
    case Ended(rest, _) =>
      tail := rest;
      assert |rest| == INBOUND_FRAME_SIZE ==> rest[..INBOUND_FRAME_SIZE] == rest;
    case Uninterpretable =>
      var f := s.emitted[s.taken - 1];
      UninterpretableIsStuck(f);
      EncodeInboundsConcat(Delivered(s), f);
      assert s.emitted[..s.taken] == Delivered(s) + [f];
      tail := EncodeInbound(f);
  }

  lemma DeliveredResponses(s: System)
    requires Conserved(s)
    ensures s.routed == Responses(Delivered(s)) && |Delivered(s)| <= |s.emitted|
  {
    hide Events, Interpret, Consumed, Failures, Writes;
    if s.listener.Uninterpretable? {
      var f := s.emitted[s.taken - 1];
      ResponsesConcat(Delivered(s), [f]);
      assert s.emitted[..s.taken] == Delivered(s) + [f];
    }
  }

  // After any run, whether the listener is running or however it has ended, the channels
  // hold what its loop over the bytes it has taken puts there.
  lemma ListenerStepsAreListen(run: seq<Action>, room: nat)
    requires Exec(INITIAL, run).Some? && |Exec(INITIAL, run).value.emitted| < room
    ensures var s := Exec(INITIAL, run).value;
            s.taken <= |s.emitted| &&
            Demux(BytesTaken(s), s.listener.Ended? && s.listener.broken, room, room) == Demuxed(s.routed, s.eventLog)
  {
    ConservedAlways(INITIAL, run);
    hide Exec;
    var s := Exec(INITIAL, run).value;
    var tail := TakenSplits(s);
    DeliveredResponses(s);
    hide Responses, Events, Interpret, EncodeInbounds, Demux, Consumed, Delivered, IsSplit, BytesTaken;
    DemuxSeparatesStream(BytesTaken(s), Delivered(s), tail, s.listener.Ended? && s.listener.broken, room, room);
  }

  // The sender's steps against its code

  // Steps of the simulator and the listener, between those of the sender.
  predicate IsBackground(a: Action) {
    !a.StaleCheck? && !a.SendRequest? && !a.FailWrite? && !a.Receive?
  }

  predicate AllBackground(run: seq<Action>) {
    forall i :: 0 <= i < |run| ==> IsBackground(run[i])
  }

  lemma BackgroundStep(s: System, a: Action)
    requires Enabled(s, a) && IsBackground(a)
    ensures var t := Apply(s, a);
            && t.phase == s.phase && t.results == s.results && t.written == s.written
            && s.routed <= t.routed && t.respQ == s.respQ + t.routed[|s.routed|..]
  {
    hide Interpret;
  }

  lemma {:induction false} BackgroundKeepsSender(s: System, run: seq<Action>)
    requires Exec(s, run).Some? && AllBackground(run)
    ensures var t := Exec(s, run).value;
            && t.phase == s.phase && t.results == s.results && t.written == s.written
            && s.routed <= t.routed && t.respQ == s.respQ + t.routed[|s.routed|..]
    decreases |run|
  {
    if run != [] {
      assert IsBackground(run[0]);
      BackgroundStep(s, run[0]);
      var t := Apply(s, run[0]);
      hide Apply;
      BackgroundKeepsSender(t, run[1..]);
      var u := Exec(t, run[1..]).value;
      assert u.routed[|s.routed|..] == t.routed[|s.routed|..] + u.routed[|t.routed|..];
    }
  }

  // One call of `send`: its steps, and between them those of the others.
  function CallOfSend(s: System, request: Request, written: bool, before: seq<Action>, after: seq<Action>)
    : seq<Action>
  {
    [StaleCheck(request)] +
    if s.respQ != [] then []
    else before + if written then [SendRequest] + after + [Receive] else [FailWrite]
  }

  lemma {:induction false} ExecConcat(s: System, a: seq<Action>, b: seq<Action>)
    ensures Exec(s, a + b) == (var t := Exec(s, a); if t.None? then None else Exec(t.value, b))
    decreases |a|
  {
    hide Apply, Enabled;
    if a == [] {
      assert a + b == b;
    } else {
      assert (a + b)[0] == a[0] && (a + b)[1..] == a[1..] + b;
      if Enabled(s, a[0]) {
        ExecConcat(Apply(s, a[0]), a[1..], b);
      }
    }
  }

  lemma ExecOne(s: System, a: Action)
    ensures Exec(s, [a]) == if Enabled(s, a) then Some(Apply(s, a)) else None
  {
    hide Apply, Enabled;
    assert [a][1..] == [];
  }

  lemma CheckEffect(s: System, request: Request)
    requires s.phase == Idle
    ensures var t := Apply(s, StaleCheck(request));
            && t.written == s.written && t.routed == s.routed
            && if s.respQ == [] then t.phase == Checked(request) && t.results == s.results && t.respQ == []
               else t.phase == Idle && t.results == s.results + [Unexpected(s.respQ[0])] && t.respQ == s.respQ[1..]
  {
    hide Listened;
  }

  lemma WriteEffect(s: System, request: Request)
    requires s.phase == Checked(request)
    ensures var t := Apply(s, SendRequest);
            t.phase == Waiting && t.results == s.results && t.written == s.written + [request] &&
            t.routed == s.routed && t.respQ == s.respQ
    ensures var t := Apply(s, FailWrite);
            t.phase == Closed && t.results == s.results + [WriteFailed] && t.written == s.written &&
            t.routed == s.routed && t.respQ == s.respQ
  {
    hide Listened;
  }

  lemma ReceiveEffect(s: System)
    requires Enabled(s, Receive)
    ensures var t, outcome := Apply(s, Receive), SendOutcome([], true, s.respQ);
            t.phase == Idle && t.results == s.results + [outcome.0] && t.respQ == outcome.1 &&
            t.written == s.written && t.routed == s.routed
  {
    hide Listened;
  }

  // A call of `send` that finds the channel empty and writes its request.
  lemma WrittenCall(u: System, request: Request, after: seq<Action>)
    requires u.phase == Checked(request) && AllBackground(after) && Exec(u, [SendRequest] + after + [Receive]).Some?
    ensures var t := Exec(u, [SendRequest] + after + [Receive]).value;
            && u.routed <= t.routed
            && var (r, channel) := SendOutcome([], true, u.respQ + t.routed[|u.routed|..]);
            t.results == u.results + [r] && t.respQ == channel && t.written == u.written + [request] && t.phase == Idle
  {
    ExecConcat(u, [SendRequest] + after, [Receive]);
    ExecConcat(u, [SendRequest], after);
    ExecOne(u, SendRequest);
    WriteEffect(u, request);
    hide Apply, Exec, SendOutcome;
    var v := Apply(u, SendRequest);
    BackgroundKeepsSender(v, after);
    var w := Exec(v, after).value;
    ExecOne(w, Receive);
    ReceiveEffect(w);
  }

  // A call of `send` that finds the channel empty and whose write fails.
  lemma FailedCall(u: System, request: Request)
    requires u.phase == Checked(request) && Exec(u, [FailWrite]).Some?
    ensures var t := Exec(u, [FailWrite]).value;
            && u.routed == t.routed && t.results == u.results + [WriteFailed] && t.respQ == u.respQ
            && t.written == u.written && t.phase == Closed
  {
    ExecOne(u, FailWrite);
    WriteEffect(u, request);
    hide Apply, Exec;
  }

  // A call of `send` that finds the channel empty, from its check on.
  lemma CheckedCall(s: System, request: Request, before: seq<Action>, rest: seq<Action>) returns (u: System)
    requires s.phase == Idle && s.respQ == [] && AllBackground(before)
    requires Exec(s, [StaleCheck(request)] + (before + rest)).Some?
    ensures Exec(s, [StaleCheck(request)] + (before + rest)) == Exec(u, rest) && u.phase == Checked(request)
    ensures u.results == s.results && u.written == s.written
    ensures s.routed <= u.routed && u.respQ == u.routed[|s.routed|..]
  {
    var check := StaleCheck(request);
    var s1 := Apply(s, check);
    ExecConcat(s, [check], before + rest);
    ExecOne(s, check);
    CheckEffect(s, request);
    hide Apply, Exec;
    ExecConcat(s1, before, rest);
    BackgroundKeepsSender(s1, before);
    u := Exec(s1, before).value;
  }

  lemma StaleCall(s: System, request: Request)
    requires s.phase == Idle && s.respQ != []
    ensures var t := Exec(s, [StaleCheck(request)]);
            t.Some? && t.value.results == s.results + [Unexpected(s.respQ[0])] && t.value.respQ == s.respQ[1..] &&
            t.value.written == s.written && t.value.routed == s.routed && t.value.phase == Idle
  {
    ExecOne(s, StaleCheck(request));
    CheckEffect(s, request);
    hide Apply, Exec;
  }

  // The steps of one call of `send`, with any steps of the others in between, have the
  // result and leave the channel that the method computes, given what the listener routes
  // meanwhile; they write the request exactly if the method does.
  lemma SenderStepsAreSend(s: System, request: Request, written: bool, before: seq<Action>, after: seq<Action>)
    requires s.phase == Idle && AllBackground(before) && AllBackground(after)
    requires Exec(s, CallOfSend(s, request, written, before, after)).Some?
    ensures var t := Exec(s, CallOfSend(s, request, written, before, after)).value;
            && s.routed <= t.routed
            && var (r, channel) := SendOutcome(s.respQ, written, t.routed[|s.routed|..]);
            && t.results == s.results + [r] && t.respQ == channel
            && t.written == s.written + (if s.respQ == [] && written then [request] else [])
            && t.phase == (if r == WriteFailed then Closed else Idle)
  {
    hide Apply, Exec, AllBackground;
    if s.respQ != [] {
      assert CallOfSend(s, request, written, before, after) == [StaleCheck(request)];
      StaleCall(s, request);
    } else if written {
      var u := CheckedCall(s, request, before, [SendRequest] + after + [Receive]);
      WrittenCall(u, request, after);
      var t := Exec(u, [SendRequest] + after + [Receive]).value;
      assert u.routed[|s.routed|..] + t.routed[|u.routed|..] == t.routed[|s.routed|..];
    } else {
      var u := CheckedCall(s, request, before, [FailWrite]);
      FailedCall(u, request);
    }
  }

  lemma ExecCons(s: System, a: Action, rest: seq<Action>, t: System) returns (run: seq<Action>)
    requires Enabled(s, a) && Apply(s, a) == t
    ensures Exec(s, run) == Exec(t, rest)
  {
    run := [a] + rest;
    assert run[1..] == rest;
  }

  lemma ExecNothing(s: System)
    ensures Exec(s, []) == Some(s)
  {
  }

  lemma StrayIsNotOwn(s: System)
    requires s.origins == [None, Some(0)] && |s.results| == 1
    ensures !GotItsOwn(s, 0)
  {
    assert s.results[..0] == [];
  }

  // A response that comes unasked for between the stale check and `recv` is returned for
  // the request.
  lemma UnsolicitedIsMisattributed(request: Request, answer: RawResponse, stray: RawResponse)
    returns (run: seq<Action>)
    ensures Exec(INITIAL, run).Some?
    ensures var s := Exec(INITIAL, run).value;
            s.results == [Returned(stray)] && s.answers == map[0 := answer] && !GotItsOwn(s, 0)
  {
    hide Exec, Consumed, Writes;
    var s1 := INITIAL.(phase := Checked(request), checks := 1);
    var s2 := s1.(emitted := [Response(stray)], origins := [None]);
    var s3 := s2.(phase := Waiting, written := [request]);
    var s4 := s3.(readCount := 1);
    var s5 := s4.(answers := map[0 := answer], emitted := [Response(stray), Response(answer)],
                  origins := [None, Some(0)]);
    var s6 := s5.(taken := 1, respQ := [stray], routed := [stray]);
    var s7 := s6.(phase := Idle, respQ := [], results := [Returned(stray)]);
    run := ExecCons(s6, Receive, [], s7);
    run := ExecCons(s5, ListenerTake, run, s6);
    run := ExecCons(s4, PeerAnswer(0, answer), run, s5);
    run := ExecCons(s3, PeerRead, run, s4);
    run := ExecCons(s2, SendRequest, run, s3);
    run := ExecCons(s1, PeerUnsolicited(stray), run, s2);
    run := ExecCons(INITIAL, StaleCheck(request), run, s1);
    StrayIsNotOwn(s7);
    ExecNothing(s7);
  }
}
