/**
 The protocol and the target joined: what the adapter believes set against what the
 simulator, as the peer of the protocol, has itself accepted and set.
 */
module SimulatorState {
  import opened Wrappers
  import opened Machine
  import opened Frame
  import opened Connection
  import P = Protocol
  import opened Target
  import opened BreakpointStore
  import opened StoreRuns
  import D = Debugger

  // What a finished `send` is for the target.
  function ToReply(r: SendResult): Reply {
    match r
    case Returned(response) => Ok(response)
    case Unexpected(_) => Err(UnexpectedMessage)
    case Died => Err(ListenerDied)
    case WriteFailed => Err(IOError)
  }

  // The target's exchanges are the finished sends of a state of the protocol, in order.
  ghost predicate Records(trace: seq<Exchange>, s: P.System) {
    && |trace| == |s.results|
    && forall k :: 0 <= k < |trace| ==>
         trace[k].reply == ToReply(s.results[k]) && (k < |s.written| ==> trace[k].request == s.written[k])
  }

  // The breakpoints the simulator has set after its first `n` requests: a request takes
  // effect when the simulator answers it with success, whether or not the answer arrives.
  function SetIn(written: seq<Request>, answers: map<nat, RawResponse>, n: nat): set<Address>
    requires n <= |written|
  {
    if n == 0 then {}
    else
      var before := SetIn(written, answers, n - 1);
      if !(n - 1 in answers && answers[n - 1].status == StatusOk) then before
      else
        match written[n - 1]
        case SetCodeBreakpoint(a) => before + {a}
        case RemoveCodeBreakpoint(a) => before - {a}
        case _ => before
  }

  // With a conforming simulator a successful exchange is a request and its own answer.
  lemma RepliesAreAnswers(run: seq<P.Action>, trace: seq<Exchange>, k: nat)
    requires P.Conforming(run) && P.Exec(P.INITIAL, run).Some? && Records(trace, P.Exec(P.INITIAL, run).value)
    requires k < |trace| && trace[k].reply.Ok?
    ensures var s := P.Exec(P.INITIAL, run).value;
            k < |s.written| && trace[k].request == s.written[k] &&
            k in s.answers && trace[k].reply.value == s.answers[k]
  {
    hide P.Exec;
    P.SendsAreAttributed(run, k);
  }

  lemma {:induction false} BelievedIsSetUpTo(run: seq<P.Action>, trace: seq<Exchange>, n: nat)
    requires P.Conforming(run) && P.Exec(P.INITIAL, run).Some? && Records(trace, P.Exec(P.INITIAL, run).value)
    requires n <= |trace| && n <= |P.Exec(P.INITIAL, run).value.written|
    ensures var s := P.Exec(P.INITIAL, run).value; Believed(trace[..n]) <= SetIn(s.written, s.answers, n)
  {
    hide P.Exec, P.Conforming;
    if n > 0 {
      BelievedIsSetUpTo(run, trace, n - 1);
      assert trace[..n][..n - 1] == trace[..n - 1];
      if trace[n - 1].reply.Ok? {
        RepliesAreAnswers(run, trace, n - 1);
      }
    }
  }

  // One request per send, except the one whose write failed.
  lemma WrittenCount(run: seq<P.Action>)
    requires P.Conforming(run) && P.Exec(P.INITIAL, run).Some? && P.Exec(P.INITIAL, run).value.phase != P.Waiting
    ensures var s := P.Exec(P.INITIAL, run).value;
            && |s.written| <= |s.results| <= |s.written| + 1
            && (|s.written| < |s.results| ==> s.results[|s.written|] == WriteFailed)
  {
    hide P.Exec;
    P.LockStepAlways(P.INITIAL, run);
  }

  // Whatever the adapter believes set is set in the simulator itself, even if answers were
  // lost with the connection.
  lemma BelievedIsSet(run: seq<P.Action>, trace: seq<Exchange>)
    requires P.Conforming(run) && P.Exec(P.INITIAL, run).Some? && Records(trace, P.Exec(P.INITIAL, run).value)
    requires P.Exec(P.INITIAL, run).value.phase != P.Waiting
    ensures var s := P.Exec(P.INITIAL, run).value; Believed(trace) <= SetIn(s.written, s.answers, |s.written|)
  {
    hide P.Exec, P.Conforming;
    WrittenCount(run);
    var n := |P.Exec(P.INITIAL, run).value.written|;
    BelievedIsSetUpTo(run, trace, n);
    hide SetIn;
    if n < |trace| {
      assert trace[..|trace| - 1] == trace[..n];
    } else {
      assert trace[..n] == trace;
    }
  }

  lemma {:induction false} ArmedIsSetUpTo(run: seq<P.Action>, trace: seq<Exchange>, n: nat)
    requires P.Conforming(run) && P.Exec(P.INITIAL, run).Some? && Records(trace, P.Exec(P.INITIAL, run).value)
    requires n <= |trace| && n <= |P.Exec(P.INITIAL, run).value.written|
    requires forall k :: 0 <= k < n ==> trace[k].reply.Ok?
    ensures var s := P.Exec(P.INITIAL, run).value; Armed(trace[..n]) == SetIn(s.written, s.answers, n)
  {
    hide P.Exec, P.Conforming;
    if n > 0 {
      ArmedIsSetUpTo(run, trace, n - 1);
      assert trace[..n][..n - 1] == trace[..n - 1];
      RepliesAreAnswers(run, trace, n - 1);
    }
  }

  lemma AnsweredUnlessDead(run: seq<P.Action>, k: nat)
    requires P.Conforming(run) && P.Exec(P.INITIAL, run).Some?
    requires var s := P.Exec(P.INITIAL, run).value; k < |s.written| <= |s.results| && Died !in s.results
    ensures P.Exec(P.INITIAL, run).value.results[k].Returned?
  {
    hide P.Exec;
    P.LockStepAlways(P.INITIAL, run);
    P.SendsAreAttributed(run, k);
    var s := P.Exec(P.INITIAL, run).value;
    assert s.results[k] in s.results;
  }

  // As long as every answer has arrived, what the history says is set is exactly what the
  // simulator has set.
  lemma ArmedIsSet(run: seq<P.Action>, trace: seq<Exchange>)
    requires P.Conforming(run) && P.Exec(P.INITIAL, run).Some? && Records(trace, P.Exec(P.INITIAL, run).value)
    requires var s := P.Exec(P.INITIAL, run).value; s.phase != P.Waiting && Died !in s.results
    ensures var s := P.Exec(P.INITIAL, run).value; Armed(trace) == SetIn(s.written, s.answers, |s.written|)
  {
    hide P.Exec, P.Conforming;
    WrittenCount(run);
    var s := P.Exec(P.INITIAL, run).value;
    var n := |s.written|;
    forall k | 0 <= k < n
      ensures trace[k].reply.Ok?
    {
      AnsweredUnlessDead(run, k);
    }
    ArmedIsSetUpTo(run, trace, n);
    hide SetIn;
    if n < |trace| {
      assert trace[..|trace| - 1] == trace[..n];
    } else {
      assert trace[..n] == trace;
    }
  }

  // In every run of the debugger over every conforming run of the protocol, the store
  // holds only breakpoints that are set in the simulator.
  lemma StoreIsSetInSimulator(st: D.State, inputs: seq<D.Input>, run: seq<P.Action>)
    requires Consistent(st.core.target)
    requires P.Conforming(run) && P.Exec(P.INITIAL, run).Some? && P.Exec(P.INITIAL, run).value.phase != P.Waiting
    requires Records(D.Run(st, inputs).state.core.target.trace, P.Exec(P.INITIAL, run).value)
    ensures var s := P.Exec(P.INITIAL, run).value;
            D.Run(st, inputs).state.core.target.bpsAddresses <= SetIn(s.written, s.answers, |s.written|)
  {
    hide P.Exec, P.Conforming, D.Run, Records, SetIn;
    StoreOverRun(st, inputs);
    BelievedIsSet(run, D.Run(st, inputs).state.core.target.trace);
  }
}
