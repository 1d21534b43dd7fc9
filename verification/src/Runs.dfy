/** What whole runs of the event loop send to the client, and how they end. */
module Runs {
  import opened Wrappers
  import opened Machine
  import F = Frame
  import T = Target
  import Breakpoints
  import opened CpuRegistry
  import opened Debugger

  function RequestOf(event: DebugEvent): seq<int> {
    if event.DapRequest? then [event.number] else []
  }

  // The numbers of the client's requests among the inputs.
  function Requests(inputs: seq<Input>): seq<int> {
    if inputs == [] then []
    else (if inputs[0].Ok? then RequestOf(inputs[0].value) else []) + Requests(inputs[1..])
  }

  function AnswerOf(m: Message): seq<int> {
    match m
    case Response(number, _) => [number]
    case ErrorResponse(number) => [number]
    case Event(_) => []
  }

  // The numbers that the responses among the messages answer.
  function Answers(out: seq<Message>): seq<int> {
    if out == [] then [] else AnswerOf(out[0]) + Answers(out[1..])
  }

  lemma {:induction false} AnswersConcat(a: seq<Message>, b: seq<Message>)
    ensures Answers(a + b) == Answers(a) + Answers(b)
  {
    hide AnswerOf;
    if a == [] {
      assert a + b == b;
    } else {
      AnswersConcat(a[1..], b);
      assert (a + b)[1..] == a[1..] + b;
      assert AnswerOf(a[0]) + (Answers(a[1..]) + Answers(b)) == AnswerOf(a[0]) + Answers(a[1..]) + Answers(b);
    }
  }

  lemma {:induction false} InfoErrors(r: Breakpoints.Registry, path: Path, lines: seq<LineNo>,
                                      results: seq<Result<(), T.TargetError>>)
    ensures var infos := BreakpointInfos(r, path, lines, results).1; infos.Err? ==> infos.error == SessionLost
    decreases |lines|
  {
    if lines != [] && results != [] && results[0] != Err(T.SessionLost) {
      InfoErrors(if results[0].Ok? then Breakpoints.WithId(r, (path, lines[0])) else r, path, lines[1..], results[1..]);
    }
  }

  // Handlers fail recoverably or because the simulator is gone.
  lemma RequestErrors(c: Core, command: Command)
    ensures var r := HandleRequest(c, command).1;
            r.Err? ==> r.error in {RequestFailed, SessionLost} && command != Initialize && command != Disconnect
    ensures var r := HandleRequest(c, command).1;
            r.Ok? ==> (r.value.body == InitializeBody <==> command == Initialize) &&
                      (r.value.postAction == SendEvent(Initialized) <==> command == Initialize) &&
                      (r.value.postAction == DisconnectAction <==> command == Disconnect) &&
                      (r.value.postAction.SendEvent? ==> command == Initialize) &&
                      (command == Disconnect ==> r.value.body == DisconnectBody)
  {
    hide T.ReplaceCodeBps, T.ReadPc, T.CpuCount, T.StepBy, T.SendCommand, Search, T.ReadMemory, ReadScope, WriteScope;
    if command.SetBreakpoints? && command.path.Some? {
      var results := T.ReplaceCodeBps(c.target, command.path.value, command.lines, command.hash).1;
      InfoErrors(c.registry, command.path.value, command.lines, results);
    }
  }

  // The messages sent while handling one event.
  function Said(before: State, after: State): seq<Message>
    requires before.session.out <= after.session.out
  {
    after.session.out[|before.session.out|..]
  }

  predicate IsPlainAnswer(number: int, m: Message) {
    m == ErrorResponse(number) || (m.Response? && m.request == number && m.body != InitializeBody)
  }

  // What handling one request sends, by its result.
  predicate Speaks(number: int, command: Command, said: seq<Message>, r: Result<(), DebuggerError>) {
    match r
    case Ok(_) =>
      if command == Initialize then said == [Response(number, InitializeBody), Event(Initialized)]
      else command != Disconnect && |said| == 1 && IsPlainAnswer(number, said[0])
    case Err(DapDisconnected) => command == Disconnect && said == [Response(number, DisconnectBody)]
    case Err(SessionLost) => said == []
    case Err(DapError) => said == [] || (command == Initialize && said == [Response(number, InitializeBody)])
    case Err(_) => false
  }

  lemma RequestSpeaks(st: State, number: int, command: Command)
    ensures var (u, r) := Handle(st, DapRequest(number, command));
            st.session.out <= u.session.out && Speaks(number, command, Said(st, u), r)
    ensures Handle(st, DapRequest(number, command)).1 == Err(SessionLost) <==>
            HandleRequest(st.core, command).1 == Err(SessionLost)
  {
    RequestErrors(st.core, command);
    hide HandleRequest;
  }

  lemma StoppedSpeaks(c: Core, cpu: CpuId, a: Address, reason: F.StoppedAtReason)
    ensures HandleStoppedAt(c, cpu, a, reason).1.Stopped?
  {
  }

  lemma EventSpeaks(st: State, event: DebugEvent)
    requires event.MsimEvent?
    ensures var (u, r) := Handle(st, event);
            st.session.out <= u.session.out && (r.Err? ==> r.error == DapError) &&
            forall i :: 0 <= i < |Said(st, u)| ==> Said(st, u)[i].Event? && Said(st, u)[i] != Event(Initialized)
  {
    var (u, r) := Handle(st, event);
    match event.event
    case Terminated =>
      assert u.session.out == st.session.out + Said(st, u);
      assert r.Err? ==> r.error == DapError;
    case StoppedAt(cpu, a, reason) =>
      StoppedSpeaks(st.core, cpu, a, reason);
      hide HandleStoppedAt;
      assert u.session.out == st.session.out + Said(st, u);
      assert r.Err? ==> r.error == DapError;
  }

  lemma {:induction false} EventsAnswerNothing(out: seq<Message>)
    requires forall i :: 0 <= i < |out| ==> out[i].Event?
    ensures Answers(out) == []
  {
    if out != [] {
      EventsAnswerNothing(out[1..]);
    }
  }

  // One event is answered by its own response, or by none if handling it ends the run in failure.
  lemma HandleAnswers(st: State, event: DebugEvent)
    ensures var (u, r) := Handle(st, event);
            && st.session.out <= u.session.out
            && (r.Err? ==> r.error in {DapError, DapDisconnected, SessionLost})
            && (|| Answers(Said(st, u)) == RequestOf(event)
                || (r.Err? && r.error != DapDisconnected && event.DapRequest? && Answers(Said(st, u)) == []))
  {
    if event.DapRequest? {
      RequestSpeaks(st, event.number, event.command);
      var said := Said(st, Handle(st, event).0);
      hide Handle;
      assert said != [] ==> Answers(said) == AnswerOf(said[0]) + Answers(said[1..]);
    } else {
      EventSpeaks(st, event);
      EventsAnswerNothing(Said(st, Handle(st, event).0));
      hide Handle;
    }
  }

  lemma RequestsTake(inputs: seq<Input>, n: nat)
    requires n <= |inputs|
    ensures Requests(inputs[..0]) == []
    ensures n > 0 ==>
              Requests(inputs[..n]) ==
              (if inputs[0].Ok? then RequestOf(inputs[0].value) else []) + Requests(inputs[1..][..n - 1])
  {
    if n > 0 {
      assert inputs[..n][1..] == inputs[1..][..n - 1];
    }
  }

  // The answers match the requests among the consumed inputs, except perhaps for a last
  // request whose handling failed the run.
  predicate Match(answers: seq<int>, inputs: seq<Input>, consumed: nat, failed: bool) {
    && consumed <= |inputs|
    && (|| answers == Requests(inputs[..consumed])
        || (failed && consumed > 0 && answers == Requests(inputs[..consumed - 1]) &&
            inputs[consumed - 1].Ok? && inputs[consumed - 1].value.DapRequest?))
  }

  lemma MatchExtends(answers: seq<int>, inputs: seq<Input>, consumed: nat, failed: bool)
    requires inputs != [] && inputs[0].Ok? && Match(answers, inputs[1..], consumed, failed)
    ensures Match(RequestOf(inputs[0].value) + answers, inputs, consumed + 1, failed)
  {
    RequestsTake(inputs, consumed + 1);
    RequestsTake(inputs, consumed);
    hide Requests;
  }

  // A run is its first step and the run from there.
  lemma RunUnfolds(st: State, inputs: seq<Input>)
    requires inputs != [] && inputs[0].Ok?
    ensures var (u, r) := Handle(st, inputs[0].value);
            if r.Ok? then
              var rest := Run(u, inputs[1..]);
              Run(st, inputs) == Outcome(rest.state, rest.consumed + 1, rest.result)
            else Run(st, inputs) == Outcome(u, 1, if r.error == DapDisconnected then Ok(()) else r)
  {
    hide Handle;
  }

  lemma RunOfNothing(st: State, inputs: seq<Input>)
    requires inputs == [] || inputs[0].Err?
    ensures Run(st, inputs) == if inputs == [] then Outcome(st, 0, Ok(())) else Outcome(st, 1, Err(ReceivedFatalError))
  {
    hide Handle;
  }

  lemma SaidConcat(a: State, b: State, c: State)
    requires a.session.out <= b.session.out <= c.session.out
    ensures Said(a, c) == Said(a, b) + Said(b, c)
    ensures Answers(Said(a, c)) == Answers(Said(a, b)) + Answers(Said(b, c))
  {
    AnswersConcat(Said(a, b), Said(b, c));
    hide Answers;
    assert Said(a, c) == Said(a, b) + Said(b, c);
  }

  // In every run the responses match the requests taken from the channel, one to one and
  // in order; only the last request may go unanswered, and then the run has failed.
  lemma {:induction false} ResponsesMatchRequests(st: State, inputs: seq<Input>)
    ensures var run := Run(st, inputs);
            st.session.out <= run.state.session.out &&
            Match(Answers(Said(st, run.state)), inputs, run.consumed, run.result.Err?)
    decreases |inputs|
  {
    if inputs == [] || inputs[0].Err? {
      if inputs != [] {
        RequestsTake(inputs, 1);
      }
    } else {
      HandleAnswers(st, inputs[0].value);
      RunUnfolds(st, inputs);
      var (u, r) := Handle(st, inputs[0].value);
      hide Handle, Run, Said;
      if r.Ok? {
        var rest := Run(u, inputs[1..]);
        ResponsesMatchRequests(u, inputs[1..]);
        MatchExtends(Answers(Said(u, rest.state)), inputs, rest.consumed, rest.result.Err?);
        SaidConcat(st, u, rest.state);
        hide Match, Answers;
      } else {
        RequestsTake(inputs, 1);
        RequestsTake(inputs, 0);
        hide Requests, Answers;
      }
    }
  }

  lemma RunTakesOne(st: State, inputs: seq<Input>)
    requires inputs != []
    ensures Run(st, inputs).consumed > 0
  {
    hide Handle, Run;
    if inputs[0].Err? {
      RunOfNothing(st, inputs);
    } else {
      RunUnfolds(st, inputs);
    }
  }

  // The last input of a run is handled in the state that the inputs before it lead to.
  lemma {:induction false} LastStep(st: State, inputs: seq<Input>)
    requires Run(st, inputs).consumed > 0
    ensures var run := Run(st, inputs);
            var n := run.consumed - 1;
            && n < |inputs|
            && var before := Run(st, inputs[..n]);
            && before.consumed == n && before.result.Ok?
            && (if inputs[n].Err? then run.state == before.state && run.result == Err(ReceivedFatalError)
                else
                  var (u, r) := Handle(before.state, inputs[n].value);
                  run.state == u && (run.result.Ok? <==> r.Ok? || r.error == DapDisconnected) &&
                  (run.result.Err? ==> run.result == r) && (r.Ok? ==> n + 1 == |inputs|))
    decreases |inputs|
  {
    hide Run, Handle;
    RunOfNothing(st, []);
    assert inputs[..0] == [];
    var n := Run(st, inputs).consumed - 1;
    if inputs == [] || inputs[0].Err? {
      RunOfNothing(st, inputs);
    } else {
      RunUnfolds(st, inputs);
      var (u, r) := Handle(st, inputs[0].value);
      if r.Ok? && inputs[1..] == [] {
        RunOfNothing(u, []);
      } else if r.Ok? {
        RunTakesOne(u, inputs[1..]);
      }
      if r.Ok? && Run(u, inputs[1..]).consumed > 0 {
        LastStep(u, inputs[1..]);
        assert inputs[..n][1..] == inputs[1..][..n - 1];
        RunUnfolds(st, inputs[..n]);
      }
    }
  }

  // Every input taken is handled in the state that the inputs before it lead to, and the
  // run goes on after it unless that fails.
  lemma {:induction false} HandledInState(st: State, inputs: seq<Input>, i: nat)
    requires i < Run(st, inputs).consumed
    ensures i < |inputs| && Run(st, inputs[..i]).consumed == i && Run(st, inputs[..i]).result.Ok?
    ensures inputs[i].Ok? ==>
              var (u, r) := Handle(Run(st, inputs[..i]).state, inputs[i].value);
              if i + 1 < Run(st, inputs).consumed then r.Ok? && Run(st, inputs[..i + 1]).state == u
              else Run(st, inputs).state == u && (r.Err? && r.error != DapDisconnected ==> Run(st, inputs).result == r)
    ensures i + 1 < Run(st, inputs).consumed ==> inputs[i].Ok?
    decreases |inputs|
  {
    hide Run, Handle;
    RunOfNothing(st, []);
    assert inputs[..0] == [];
    if inputs == [] || inputs[0].Err? {
      RunOfNothing(st, inputs);
    } else {
      RunUnfolds(st, inputs);
      var (u, r) := Handle(st, inputs[0].value);
      RunOfNothing(u, []);
      RunUnfolds(st, inputs[..1]);
      assert inputs[..1][1..] == [];
      if r.Ok? && inputs[1..] != [] {
        RunTakesOne(u, inputs[1..]);
      }
      if i > 0 {
        HandledInState(u, inputs[1..], i - 1);
        assert inputs[..i][1..] == inputs[1..][..i - 1] && inputs[..i + 1][1..] == inputs[1..][..i];
        RunUnfolds(st, inputs[..i]);
        RunUnfolds(st, inputs[..i + 1]);
      }
    }
  }

  predicate IsDisconnect(input: Input) {
    input.Ok? && input.value.DapRequest? && input.value.command == Disconnect
  }

  // Before the last input of a run there is no fatal message and no disconnect.
  lemma {:induction false} NothingFatalBefore(st: State, inputs: seq<Input>, i: nat)
    requires i + 1 < Run(st, inputs).consumed
    ensures i < |inputs| && inputs[i].Ok? && !IsDisconnect(inputs[i])
    decreases |inputs|
  {
    RunUnfolds(st, inputs);
    var (u, r) := Handle(st, inputs[0].value);
    if inputs[0].value.DapRequest? {
      RequestSpeaks(st, inputs[0].value.number, inputs[0].value.command);
    }
    hide Handle, Run, Said;
    if i > 0 {
      NothingFatalBefore(u, inputs[1..], i - 1);
    }
  }

  lemma EndsAs(st: State, event: DebugEvent)
    ensures var (u, r) := Handle(st, event);
            var disconnect := IsDisconnect(Ok(event));
            match r
            case Ok(_) => !disconnect
            case Err(DapDisconnected) =>
              disconnect && u.session.out != [] &&
              u.session.out[|u.session.out| - 1] == Response(event.number, DisconnectBody)
            case Err(SessionLost) =>
              event.DapRequest? && !disconnect && HandleRequest(st.core, event.command).1 == Err(SessionLost)
            case Err(DapError) => u.session.room == 0
            case Err(_) => false
  {
    if event.DapRequest? {
      RequestErrors(st.core, event.command);
    } else {
      EventSpeaks(st, event);
    }
    hide HandleRequest, HandleStoppedAt;
  }

  // A run ends when the channel closes, right after the response to a disconnect request,
  // on a fatal message, on a lost simulator, or on a client that takes no more messages.
  // A request that fails recoverably never ends it.
  lemma RunEnds(st: State, inputs: seq<Input>)
    ensures var run := Run(st, inputs);
            var out := run.state.session.out;
            var n := run.consumed - 1;
            && n < |inputs|
            && match run.result
               case Ok(_) =>
                 || (n + 1 == |inputs| && (n >= 0 ==> inputs[n].Ok? && !IsDisconnect(inputs[n])))
                 || (n >= 0 && IsDisconnect(inputs[n]) && out != [] &&
                     out[|out| - 1] == Response(inputs[n].value.number, DisconnectBody))
               case Err(ReceivedFatalError) => n >= 0 && inputs[n].Err?
               case Err(SessionLost) =>
                 n >= 0 && inputs[n].Ok? && inputs[n].value.DapRequest? && !IsDisconnect(inputs[n]) &&
                 HandleRequest(Run(st, inputs[..n]).state.core, inputs[n].value.command).1 == Err(SessionLost)
               case Err(DapError) => n >= 0 && inputs[n].Ok? && run.state.session.room == 0
               case Err(_) => false
  {
    hide Run, Handle, HandleRequest;
    var run := Run(st, inputs);
    if inputs == [] || inputs[0].Err? {
      RunOfNothing(st, inputs);
    } else {
      RunUnfolds(st, inputs);
    }
    if run.consumed > 0 {
      LastStep(st, inputs);
      var n := run.consumed - 1;
      var before := Run(st, inputs[..n]).state;
      if inputs[n].Ok? {
        EndsAs(before, inputs[n].value);
      }
    }
  }

  predicate IsInitializeResponse(m: Message) {
    m.Response? && m.body == InitializeBody
  }

  predicate PairedAt(out: seq<Message>, i: nat)
    requires i < |out|
  {
    && (IsInitializeResponse(out[i]) ==> i + 1 < |out| && out[i + 1] == Event(Initialized))
    && (out[i] == Event(Initialized) ==> i > 0 && IsInitializeResponse(out[i - 1]))
  }

  // Each initialize response is directly followed by the Initialized event, which is sent
  // nowhere else; only when sending has failed may the last response still lack it.
  predicate Paired(out: seq<Message>) {
    forall i :: 0 <= i < |out| ==> PairedAt(out, i)
  }

  lemma PairedConcat(a: seq<Message>, b: seq<Message>)
    requires Paired(a) && Paired(b)
    ensures Paired(a + b)
  {
    forall i | 0 <= i < |a + b|
      ensures PairedAt(a + b, i)
    {
      assert if i < |a| then PairedAt(a, i) else PairedAt(b, i - |a|);
    }
  }

  lemma HandlePairs(st: State, event: DebugEvent)
    ensures var (u, r) := Handle(st, event);
            && st.session.out <= u.session.out
            && (r.Ok? || r.error != DapError ==> Paired(Said(st, u)))
            && (Paired(Said(st, u)) || (|Said(st, u)| == 1 && IsInitializeResponse(Said(st, u)[0])))
  {
    if event.DapRequest? {
      RequestSpeaks(st, event.number, event.command);
      hide Handle;
      var said := Said(st, Handle(st, event).0);
      assert |said| == 2 ==> PairedAt(said, 0) && PairedAt(said, 1);
    } else {
      EventSpeaks(st, event);
      hide Handle;
    }
  }

  lemma {:induction false} InitializedFollowsInitialize(st: State, inputs: seq<Input>)
    requires Paired(st.session.out)
    ensures var run := Run(st, inputs);
            var out := run.state.session.out;
            || Paired(out)
            || (run.result == Err(DapError) && out != [] && IsInitializeResponse(out[|out| - 1]) &&
                Paired(out[..|out| - 1]))
    decreases |inputs|
  {
    if inputs != [] && inputs[0].Ok? {
      RunUnfolds(st, inputs);
      HandlePairs(st, inputs[0].value);
      var (u, r) := Handle(st, inputs[0].value);
      var said := Said(st, u);
      hide Handle, Run;
      assert u.session.out == st.session.out + said;
      if Paired(said) {
        PairedConcat(st.session.out, said);
        hide Paired;
        if r.Ok? {
          InitializedFollowsInitialize(u, inputs[1..]);
        }
      } else {
        assert u.session.out[..|u.session.out| - 1] == st.session.out;
      }
    }
  }

  // Everything the client is sent

  // What is owed for a request whose handler had this result: the body if it succeeded, an
  // error if it failed recoverably, nothing if the session was lost.
  function OwedReply(number: int, r: HandlerResult): seq<Message> {
    match r
    case Ok(action) =>
      [Response(number, action.body)] + if action.postAction.SendEvent? then [Event(action.postAction.event)] else []
    case Err(e) => if e == RequestFailed then [ErrorResponse(number)] else []
  }

  // What is owed for one input, in the state in which it is handled.
  function Owed(before: State, input: Input): seq<Message> {
    match input
    case Err(_) => []
    case Ok(DapRequest(number, command)) => OwedReply(number, HandleRequest(before.core, command).1)
    case Ok(MsimEvent(Terminated)) => [Event(Terminated), Event(Exited(0))]
    case Ok(MsimEvent(StoppedAt(cpu, a, reason))) => [Event(HandleStoppedAt(before.core, cpu, a, reason).1)]
  }

  function OwedFor(st: State, inputs: seq<Input>, n: nat): seq<Message>
    requires n <= |inputs|
  {
    if n == 0 then [] else OwedFor(st, inputs, n - 1) + Owed(Run(st, inputs[..n - 1]).state, inputs[n - 1])
  }

  // The client takes as many messages as there is room for.
  function Taken(s: Session, owed: seq<Message>): Session {
    if |owed| <= s.room then Session(s.out + owed, s.room - |owed|) else Session(s.out + owed[..s.room], 0)
  }

  lemma HandleOwes(st: State, event: DebugEvent)
    ensures var (u, r) := Handle(st, event);
            var owed := Owed(st, Ok(event));
            u.session == Taken(st.session, owed) && (r == Err(DapError) <==> st.session.room < |owed|)
  {
    if event.DapRequest? {
      RequestErrors(st.core, event.command);
      hide HandleRequest;
    } else {
      hide HandleStoppedAt;
    }
  }

  lemma TakenTwice(s: Session, owed: seq<Message>, more: seq<Message>)
    requires |owed| <= s.room
    ensures Taken(s, owed + more) == Taken(Taken(s, owed), more)
    ensures Taken(s, owed).room == s.room - |owed|
  {
    if |owed + more| <= s.room {
      assert s.out + (owed + more) == s.out + owed + more;
    } else {
      assert (owed + more)[..s.room] == owed + more[..s.room - |owed|];
    }
  }

  lemma {:induction false} OwedUpTo(st: State, inputs: seq<Input>, n: nat)
    requires n < Run(st, inputs).consumed
    ensures n <= |inputs| && |OwedFor(st, inputs, n)| <= st.session.room
    ensures Run(st, inputs[..n]).state.session == Taken(st.session, OwedFor(st, inputs, n))
    decreases n
  {
    HandledInState(st, inputs, n);
    hide Run, Handle, Owed;
    if n == 0 {
      RunOfNothing(st, []);
      assert inputs[..0] == [];
      assert st.session.out + [] == st.session.out;
    } else {
      OwedUpTo(st, inputs, n - 1);
      HandledInState(st, inputs, n - 1);
      var before := Run(st, inputs[..n - 1]).state;
      HandleOwes(before, inputs[n - 1].value);
      TakenTwice(st.session, OwedFor(st, inputs, n - 1), Owed(before, inputs[n - 1]));
    }
  }

  lemma RunTakesAny(st: State, inputs: seq<Input>)
    requires Run(st, inputs).consumed == 0
    ensures inputs == [] && Run(st, inputs) == Outcome(st, 0, Ok(()))
  {
    if inputs != [] {
      RunTakesOne(st, inputs);
    }
    hide Handle;
  }

  lemma NothingTaken(s: Session)
    ensures Taken(s, []) == s
  {
    assert s.out + [] == s.out;
  }

  lemma OwedAtLast(st: State, inputs: seq<Input>, n: nat)
    requires n + 1 == Run(st, inputs).consumed
    ensures n < |inputs| &&
            var before := Run(st, inputs[..n]).state;
            var owed := Owed(before, inputs[n]);
            Run(st, inputs).state.session == Taken(before.session, owed) &&
            (Run(st, inputs).result == Err(DapError) <==> before.session.room < |owed|)
  {
    hide Run, Handle, OwedReply, Taken;
    LastStep(st, inputs);
    var before := Run(st, inputs[..n]).state;
    if inputs[n].Ok? {
      HandleOwes(before, inputs[n].value);
    } else {
      NothingTaken(before.session);
      assert Owed(before, inputs[n]) == [];
    }
  }

  // In every run the client is sent exactly what is owed for each input taken, in order,
  // as far as it takes messages; the run fails for that exactly when it does not take all.
  lemma OutputIsOwed(st: State, inputs: seq<Input>)
    ensures var run := Run(st, inputs);
            run.consumed <= |inputs| &&
            var owed := OwedFor(st, inputs, run.consumed);
            run.state.session == Taken(st.session, owed) &&
            (run.result == Err(DapError) <==> st.session.room < |owed|)
  {
    hide Run, Handle, Owed, Taken;
    var run := Run(st, inputs);
    if run.consumed == 0 {
      RunTakesAny(st, inputs);
      NothingTaken(st.session);
    } else {
      var n := run.consumed - 1;
      OwedUpTo(st, inputs, n);
      OwedAtLast(st, inputs, n);
      TakenTwice(st.session, OwedFor(st, inputs, n), Owed(Run(st, inputs[..n]).state, inputs[n]));
    }
  }

  // The body of a successful answer is one of the kind that the command asks for.
  predicate Fits(command: Command, body: Body) {
    match command
    case Initialize => body == InitializeBody
    case Attach => body == AttachBody
    case Launch => body == LaunchBody
    case ConfigurationDone => body == ConfigurationDoneBody
    case SetBreakpoints(_, _, _) => body.SetBreakpointsBody?
    case SetExceptionBreakpoints => body == SetExceptionBreakpointsBody
    case Threads => body.ThreadsBody?
    case Disconnect => body == DisconnectBody
    case StackTrace(_) => body.StackTraceBody?
    case Scopes(_) => body.ScopesBody?
    case Continue => body == ContinueBody
    case Pause => body == PauseBody
    case Next(_) => body == NextBody
    case StepIn(_) => body == StepInBody
    case StepOut(_) => body == StepOutBody
    case Variables(_) => body.VariablesBody?
    case SetVariable(_, _, _) => body.SetVariableBody?
    case ReadMemory(_, _, _) => body.ReadMemoryBody?
    case Source => body == SourceBody
    case Unhandled => false
  }

  lemma AnswersFit(c: Core, command: Command)
    ensures var r := HandleRequest(c, command).1; r.Ok? ==> Fits(command, r.value.body)
  {
    hide T.ReplaceCodeBps, T.ReadPc, T.CpuCount, T.StepBy, T.SendCommand, Search, T.ReadMemory, ReadScope, WriteScope,
      BreakpointInfos, ResolveVarRef, T.Terminate;
  }
}
