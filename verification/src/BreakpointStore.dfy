/**
 What the target believes about code breakpoints, against what it has made the simulator
 do: the believed set over any history, kept by every operation of the target.
 */
module BreakpointStore {
  import opened Wrappers
  import opened Machine
  import opened Frame
  import opened DebugIndex
  import opened Registers
  import opened Target

  // The breakpoints set in a simulator that does what it accepts and nothing else.
  function Armed(trace: seq<Exchange>): set<Address> {
    if trace == [] then {}
    else
      var e, before := trace[|trace| - 1], Armed(trace[..|trace| - 1]);
      match e.request
      case SetCodeBreakpoint(a) => if Accepted(e.reply) then before + {a} else before
      case RemoveCodeBreakpoint(a) => if Accepted(e.reply) then before - {a} else before
      case _ => before
  }

  function BelievedAfter(before: set<Address>, e: Exchange): set<Address> {
    match e.request
    case SetCodeBreakpoint(a) => if Accepted(e.reply) then before + {a} else before
    case RemoveCodeBreakpoint(a) => before - {a}
    case _ => before
  }

  // The same, but a removal takes effect whatever the reply.
  function Believed(trace: seq<Exchange>): set<Address> {
    if trace == [] then {} else BelievedAfter(Believed(trace[..|trace| - 1]), trace[|trace| - 1])
  }

  predicate IsNeeded(before: set<Address>, r: Request) {
    match r
    case SetCodeBreakpoint(a) => a !in before
    case RemoveCodeBreakpoint(a) => a in before
    case _ => true
  }

  // No breakpoint is asked to be set that is believed set, and none to be removed that is not.
  predicate Disciplined(trace: seq<Exchange>) {
    trace == [] ||
    (Disciplined(trace[..|trace| - 1]) && IsNeeded(Believed(trace[..|trace| - 1]), trace[|trace| - 1].request))
  }

  predicate EntriesMatchFile(index: DwarfIndex, p: Path, entries: seq<(LineNo, Address)>) {
    forall i :: 0 <= i < |entries| ==> GetAddress(index, p, entries[i].0) == Some(entries[i].1)
  }

  predicate EntriesMatch(t: Target) {
    forall p :: p in t.bpsPerFile ==> EntriesMatchFile(t.index, p, t.bpsPerFile[p])
  }

  // What every operation of the target keeps.
  predicate Consistent(t: Target) {
    t.bpsAddresses == Believed(t.trace) && Disciplined(t.trace) && EntriesMatch(t)
  }

  // What a simulator told, from exchange `n` on, about its first CPUs.
  predicate ToldArchs(archs: map<CpuId, CpuArch>, count: nat, trace: seq<Exchange>, n: nat) {
    && n + count < |trace|
    && (forall cpu: CpuId :: cpu in archs <==> cpu < count)
    && forall cpu: CpuId :: cpu in archs ==>
         var e := trace[n + 1 + cpu];
         e.request == GetCpuInfo(cpu) && e.reply.Ok? && IsArchCode(e.reply.value.arg0, archs[cpu])
  }

  predicate ToldAt(config: Config, trace: seq<Exchange>, n: nat) {
    && n < |trace| && trace[n].request == GetConfig
    && trace[n].reply.Ok? && trace[n].reply.value.arg0 == config.cpuCount
    && ToldArchs(config.cpuToArch, config.cpuCount, trace, n)
  }

  // The configuration, once known, is what the simulator told.
  ghost predicate Told(t: Target) {
    t.config.Some? ==> exists n: nat :: ToldAt(t.config.value, t.trace, n)
  }

  // `u` is a later state of the same target as `t`.
  ghost predicate Continues(t: Target, u: Target) {
    u.index == t.index && t.trace <= u.trace && (t.config.Some? ==> u.config == t.config) && (Told(t) ==> Told(u))
  }

  ghost predicate Follows(t: Target, u: Target) {
    Consistent(u) && Continues(t, u)
  }

  // Address `a` is believed removed, but the simulator never accepted the removal.
  ghost predicate RemovalWasLost(trace: seq<Exchange>, a: Address, i: nat) {
    && i < |trace| && trace[i].request == RemoveCodeBreakpoint(a) && !Accepted(trace[i].reply)
    && a in Armed(trace[..i])
    && forall j :: i < j < |trace| && Accepted(trace[j].reply) ==>
         trace[j].request != SetCodeBreakpoint(a) && trace[j].request != RemoveCodeBreakpoint(a)
  }

  // Whatever is believed set is set.
  lemma {:induction false} BelievedIsArmed(trace: seq<Exchange>)
    ensures Believed(trace) <= Armed(trace)
  {
    if trace != [] {
      BelievedIsArmed(trace[..|trace| - 1]);
    }
  }

  // What is set but not believed set is exactly what a rejected or lost removal left behind.
  lemma {:induction false} LeftBehindIff(trace: seq<Exchange>, a: Address)
    ensures a in Armed(trace) && a !in Believed(trace) <==> exists i: nat :: RemovalWasLost(trace, a, i)
  {
    if trace != [] {
      var n := |trace| - 1;
      var before, e := trace[..n], trace[n];
      LeftBehindIff(before, a);
      BelievedIsArmed(before);
      if e.request == RemoveCodeBreakpoint(a) && !Accepted(e.reply) {
        assert a in Armed(before) ==> RemovalWasLost(trace, a, n);
      }
      if i: nat :| i < n && RemovalWasLost(before, a, i) {
        assert before[..i] == trace[..i];
        assert a in Armed(trace) && a !in Believed(trace) ==> RemovalWasLost(trace, a, i);
      }
      if i: nat :| i < n && RemovalWasLost(trace, a, i) {
        assert before[..i] == trace[..i];
        assert RemovalWasLost(before, a, i);
      }
    }
  }

  lemma {:induction false} DisciplinedAt(trace: seq<Exchange>, k: nat)
    requires Disciplined(trace) && k < |trace|
    ensures IsNeeded(Believed(trace[..k]), trace[k].request)
  {
    if k < |trace| - 1 {
      DisciplinedAt(trace[..|trace| - 1], k);
      assert trace[..|trace| - 1][..k] == trace[..k];
    }
  }

  // A request that is needed by what is believed set is needed by what is set, unless it
  // sets a breakpoint again that a rejected or lost removal left behind.
  lemma NeededIff(trace: seq<Exchange>, r: Request)
    requires IsNeeded(Believed(trace), r)
    ensures IsNeeded(Armed(trace), r) <==>
              (r.SetCodeBreakpoint? ==> !exists i: nat :: RemovalWasLost(trace, r.address, i))
  {
    BelievedIsArmed(trace);
    if r.SetCodeBreakpoint? {
      LeftBehindIff(trace, r.address);
    }
  }

  lemma ToldStays(t: Target, u: Target)
    requires t.trace <= u.trace && u.config == t.config && Told(t)
    ensures Told(u)
  {
    if t.config.Some? {
      var n: nat :| ToldAt(t.config.value, t.trace, n);
      assert ToldAt(u.config.value, u.trace, n);
    }
  }

  lemma OnlyTraceGrows(t: Target, u: Target)
    requires u.index == t.index && t.trace <= u.trace && u.config == t.config
    ensures Continues(t, u)
  {
    if Told(t) {
      ToldStays(t, u);
    }
    hide Told;
  }

  lemma ContinuesTrans(t: Target, u: Target, v: Target)
    requires Continues(t, u) && Continues(u, v)
    ensures Continues(t, v)
  {
  }

  // Requests other than code breakpoint requests

  predicate IsBpRequest(r: Request) {
    r.SetCodeBreakpoint? || r.RemoveCodeBreakpoint?
  }

  // From `t` to `u` nothing about breakpoints was asked or changed.
  ghost predicate Quiet(t: Target, u: Target) {
    && Continues(t, u)
    && u.bpsAddresses == t.bpsAddresses && u.bpsPerFile == t.bpsPerFile
    && forall i :: |t.trace| <= i < |u.trace| ==> !IsBpRequest(u.trace[i].request)
  }

  lemma {:induction false} QuietTrace(trace: seq<Exchange>, n: nat)
    requires n <= |trace| && forall i :: n <= i < |trace| ==> !IsBpRequest(trace[i].request)
    ensures Believed(trace) == Believed(trace[..n]) && Armed(trace) == Armed(trace[..n])
    ensures Disciplined(trace[..n]) ==> Disciplined(trace)
    decreases |trace|
  {
    if n == |trace| {
      assert trace[..n] == trace;
    } else {
      QuietTrace(trace[..|trace| - 1], n);
      assert trace[..|trace| - 1][..n] == trace[..n];
    }
  }

  lemma QuietKeepsConsistent(t: Target, u: Target)
    requires Consistent(t) && Quiet(t, u)
    ensures Follows(t, u) && Armed(u.trace) == Armed(t.trace)
  {
    QuietTrace(u.trace, |t.trace|);
    assert u.trace[..|t.trace|] == t.trace;
  }

  lemma QuietTrans(t: Target, u: Target, v: Target)
    requires Quiet(t, u) && Quiet(u, v)
    ensures Quiet(t, v)
  {
    ContinuesTrans(t, u, v);
    hide Continues;
  }

  lemma SendIsQuiet(t: Target, r: Request)
    requires !IsBpRequest(r)
    ensures Quiet(t, AfterSend(t, r))
  {
    OnlyTraceGrows(t, AfterSend(t, r));
    hide Told;
  }

  // Breakpoint operations

  lemma TraceGrows(trace: seq<Exchange>, e: Exchange)
    ensures Believed(trace + [e]) == BelievedAfter(Believed(trace), e)
    ensures Disciplined(trace + [e]) == (Disciplined(trace) && IsNeeded(Believed(trace), e.request))
  {
    assert (trace + [e])[..|trace|] == trace && (trace + [e])[|trace|] == e;
  }

  lemma EntriesMatchUpdated(t: Target, u: Target, source: Path, entries: seq<(LineNo, Address)>)
    requires EntriesMatch(t) && EntriesMatchFile(t.index, source, entries)
    requires u.index == t.index && u.bpsPerFile == t.bpsPerFile[source := entries]
    ensures EntriesMatch(u)
  {
    hide EntriesMatchFile;
  }

  lemma EntriesMatchAppended(t: Target, source: Path, line: LineNo, a: Address)
    requires EntriesMatch(t) && GetAddress(t.index, source, line) == Some(a)
    ensures EntriesMatchFile(t.index, source, OldEntries(t, source) + [(line, a)])
  {
    hide GetAddress;
  }

  // The effect of an attempt that sends a request.
  lemma SetSends(t: Target, source: Path, line: LineNo, a: Address)
    requires GetAddress(t.index, source, line) == Some(a) && a !in t.bpsAddresses
    ensures var u, e := SetCodeBp(t, source, line).0, Exchange(SetCodeBreakpoint(a), NextReply(t));
            && u.index == t.index && u.trace == t.trace + [e]
            && u.bpsAddresses == BelievedAfter(t.bpsAddresses, e)
            && u.bpsPerFile == (if Accepted(NextReply(t)) then
                                  t.bpsPerFile[source := OldEntries(t, source) + [(line, a)]]
                                else t.bpsPerFile)
  {
    hide GetAddress;
  }

  lemma SetContinues(t: Target, source: Path, line: LineNo)
    ensures Continues(t, SetCodeBp(t, source, line).0)
  {
    hide GetAddress, Told;
    OnlyTraceGrows(t, SetCodeBp(t, source, line).0);
  }

  lemma RemoveContinues(t: Target, source: Path, line: LineNo)
    ensures Continues(t, RemoveCodeBp(t, source, line).0)
  {
    hide GetAddress, WithoutFirst, Told;
    OnlyTraceGrows(t, RemoveCodeBp(t, source, line).0);
  }

  lemma SetKeepsConsistent(t: Target, source: Path, line: LineNo)
    requires Consistent(t)
    ensures Follows(t, SetCodeBp(t, source, line).0)
  {
    SetContinues(t, source, line);
    hide Continues;
    var a := GetAddress(t.index, source, line);
    if a.Some? && a.value !in t.bpsAddresses {
      var u := SetCodeBp(t, source, line).0;
      SetSends(t, source, line, a.value);
      TraceGrows(t.trace, Exchange(SetCodeBreakpoint(a.value), NextReply(t)));
      EntriesMatchAppended(t, source, line, a.value);
      hide SetCodeBp, GetAddress, EntriesMatchFile, Believed, Disciplined;
      if Accepted(NextReply(t)) {
        EntriesMatchUpdated(t, u, source, OldEntries(t, source) + [(line, a.value)]);
      }
    }
  }

  lemma {:induction false} WithoutFirstMatches(index: DwarfIndex, p: Path, entries: seq<(LineNo, Address)>, a: Address)
    requires EntriesMatchFile(index, p, entries)
    ensures EntriesMatchFile(index, p, WithoutFirst(entries, a))
  {
    if entries != [] && entries[0].1 != a {
      WithoutFirstMatches(index, p, entries[1..], a);
    }
  }

  // Forgetting an address takes out the first entry for it and nothing else.
  lemma {:induction false} WithoutFirstTakesOne(pre: seq<(LineNo, Address)>, e: (LineNo, Address),
                                                post: seq<(LineNo, Address)>)
    requires forall i :: 0 <= i < |pre| ==> pre[i].1 != e.1
    ensures WithoutFirst(pre + [e] + post, e.1) == pre + post
  {
    var entries := pre + [e] + post;
    if pre == [] {
      assert entries[1..] == post == pre + post;
    } else {
      WithoutFirstTakesOne(pre[1..], e, post);
      assert entries[0] == pre[0] && entries[1..] == pre[1..] + [e] + post;
      assert pre + post == [pre[0]] + (pre[1..] + post);
    }
  }

  lemma {:induction false} WithoutFirstOfOthers(entries: seq<(LineNo, Address)>, a: Address)
    requires forall i :: 0 <= i < |entries| ==> entries[i].1 != a
    ensures WithoutFirst(entries, a) == entries
  {
    if entries != [] {
      WithoutFirstOfOthers(entries[1..], a);
      assert entries == [entries[0]] + entries[1..];
    }
  }

  lemma RemoveKeepsConsistent(t: Target, source: Path, line: LineNo)
    requires Consistent(t)
    ensures Follows(t, RemoveCodeBp(t, source, line).0)
  {
    RemoveContinues(t, source, line);
    hide Continues;
    var a := GetAddress(t.index, source, line);
    if a.Some? {
      TraceGrows(t.trace, Exchange(RemoveCodeBreakpoint(a.value), NextReply(t)));
      if source in t.bpsPerFile {
        WithoutFirstMatches(t.index, source, t.bpsPerFile[source], a.value);
      }
      hide GetAddress, EntriesMatchFile, WithoutFirst, Believed, Disciplined;
    }
  }

  lemma {:induction false} DropKeepsConsistent(t: Target, source: Path, order: seq<LineNo>, lines: seq<LineNo>)
    requires Consistent(t)
    ensures Follows(t, DropLines(t, source, order, lines))
    decreases |order|
  {
    if order != [] {
      hide Consistent, RemoveCodeBp;
      RemoveKeepsConsistent(t, source, order[0]);
      var u := if order[0] in lines then t else RemoveCodeBp(t, source, order[0]).0;
      DropKeepsConsistent(u, source, order[1..], lines);
      ContinuesTrans(t, u, DropLines(t, source, order, lines));
    }
  }

  lemma SetFrame(t: Target, source: Path, line: LineNo)
    ensures var (u, r) := SetCodeBp(t, source, line);
            u.index == t.index &&
            (r.Ok? ==> GetAddress(t.index, source, line) == Some(r.value)) &&
            u.bpsAddresses == t.bpsAddresses + (if r.Ok? then {r.value} else {})
  {
  }

  // The reused addresses are what the index says, and so are the new ones.
  lemma {:induction false} AddKeepsConsistent(t: Target, source: Path, lines: seq<LineNo>, known: map<LineNo, Address>)
    requires Consistent(t)
    requires forall l :: l in known ==> GetAddress(t.index, source, l) == Some(known[l])
    ensures var d := AddLines(t, source, lines, known);
            Follows(t, d.target) && EntriesMatchFile(t.index, source, d.entries)
    decreases |lines|
  {
    if lines != [] {
      SetKeepsConsistent(t, source, lines[0]);
      SetFrame(t, source, lines[0]);
      hide Consistent, SetCodeBp, GetAddress;
      var u := if lines[0] in known then t else SetCodeBp(t, source, lines[0]).0;
      AddKeepsConsistent(u, source, lines[1..], known);
      ContinuesTrans(t, u, AddLines(u, source, lines[1..], known).target);
      hide Continues;
    }
  }

  lemma RemoveFrame(t: Target, source: Path, line: LineNo)
    ensures var u := RemoveCodeBp(t, source, line).0;
            u.index == t.index &&
            u.bpsAddresses == t.bpsAddresses - (match GetAddress(t.index, source, line)
                                                case Some(a) => {a}
                                                case None => {}) &&
            (source !in t.bpsPerFile ==> u.bpsPerFile == t.bpsPerFile)
  {
  }

  lemma {:induction false} ByLineMatches(index: DwarfIndex, source: Path, entries: seq<(LineNo, Address)>)
    requires EntriesMatchFile(index, source, entries)
    ensures forall l :: l in ByLine(entries) ==> GetAddress(index, source, l) == Some(ByLine(entries)[l])
  {
    if entries != [] {
      ByLineMatches(index, source, entries[..|entries| - 1]);
    }
  }

  lemma {:induction false} DropFrame(t: Target, source: Path, order: seq<LineNo>, lines: seq<LineNo>)
    requires source !in t.bpsPerFile
    ensures var u := DropLines(t, source, order, lines); u.index == t.index && u.bpsPerFile == t.bpsPerFile
    decreases |order|
  {
    if order != [] {
      RemoveFrame(t, source, order[0]);
      hide RemoveCodeBp;
      DropFrame(if order[0] in lines then t else RemoveCodeBp(t, source, order[0]).0, source, order[1..], lines);
    }
  }

  lemma ReplaceKeepsConsistent(t: Target, source: Path, lines: seq<LineNo>, hash: seq<LineNo>)
    requires Consistent(t)
    ensures Follows(t, ReplaceCodeBps(t, source, lines, hash).0)
  {
    var known := ByLine(OldEntries(t, source));
    ByLineMatches(t.index, source, OldEntries(t, source));
    var order := Arranged(known.Keys, hash);
    var t1 := t.(bpsPerFile := t.bpsPerFile - {source});
    hide GetAddress, ByLine, Arranged, EntriesMatchFile, Believed, Disciplined;
    DropKeepsConsistent(t1, source, order, lines);
    DropFrame(t1, source, order, lines);
    var t2 := DropLines(t1, source, order, lines);
    AddKeepsConsistent(t2, source, lines, known);
    ContinuesTrans(t1, t2, AddLines(t2, source, lines, known).target);
    hide DropLines, AddLines;
  }
}
