/**
 When a line that `setBreakpoints` reports as set without asking is really set: a condition
 on the state before the call, and a discipline of whole runs that guarantees it.
 */
module Reuse {
  import opened Wrappers
  import opened Machine
  import opened Frame
  import opened Interning
  import opened DebugIndex
  import opened Target
  import opened BreakpointStore
  import opened Replacing

  // Every line the call reports as set is in the store after it.
  ghost predicate VerifiedAreStored(t: Target, source: Path, lines: seq<LineNo>, hash: seq<LineNo>) {
    var (u, results) := ReplaceCodeBps(t, source, lines, hash);
    forall i :: 0 <= i < |results| <= |lines| && results[i].Ok? ==>
      var a := GetAddress(t.index, source, lines[i]);
      a.Some? && a.value in u.bpsAddresses
  }

  // Every requested line that is listed already still has its breakpoint, and no line that
  // is dropped shares it.
  ghost predicate KnownLinesAreKept(t: Target, source: Path, lines: seq<LineNo>) {
    forall i :: 0 <= i < |lines| && lines[i] in KnownLines(t, source) ==>
      var a := GetAddress(t.index, source, lines[i]);
      a.Some? && a.value in t.bpsAddresses && !LosesLineAt(t, source, lines, a.value)
  }

  // A simulator that refuses everything

  const REFUSAL: Reply := Ok(RawResponse(UnspecifiedError, 0, 0, 0))

  predicate Refuses(t: Target, n: nat) {
    n <= |t.script| && forall i :: 0 <= i < |t.script| ==> t.script[i] == REFUSAL
  }

  lemma SetArms(t: Target, source: Path, line: LineNo)
    ensures Armed(t.trace) <= Armed(SetCodeBp(t, source, line).0.trace)
    ensures NextReply(t) == REFUSAL ==> Armed(SetCodeBp(t, source, line).0.trace) == Armed(t.trace)
  {
    var b := GetAddress(t.index, source, line);
    hide GetAddress;
    if b.Some? {
      assert (t.trace + [Exchange(SetCodeBreakpoint(b.value), NextReply(t))])[..|t.trace|] == t.trace;
    }
  }

  lemma RefusedSet(t: Target, source: Path, line: LineNo, n: nat)
    requires Refuses(t, n + 1)
    ensures var (u, r) := SetCodeBp(t, source, line);
            && Refuses(u, n) && u.bpsAddresses == t.bpsAddresses && r != Err(SessionLost)
            && Armed(u.trace) == Armed(t.trace)
  {
    SetArms(t, source, line);
    hide GetAddress, Armed;
  }

  lemma RefusedRemove(t: Target, source: Path, line: LineNo, n: nat)
    requires Refuses(t, n + 1)
    ensures Refuses(RemoveCodeBp(t, source, line).0, n)
  {
    hide GetAddress, WithoutFirst;
  }

  lemma {:induction false} RefusedDrop(t: Target, source: Path, order: seq<LineNo>, lines: seq<LineNo>, n: nat)
    requires Refuses(t, |order| + n)
    ensures Refuses(DropLines(t, source, order, lines), n)
    decreases |order|
  {
    if order != [] {
      RefusedRemove(t, source, order[0], |order[1..]| + n);
      hide RemoveCodeBp;
      RefusedDrop(if order[0] in lines then t else RemoveCodeBp(t, source, order[0]).0, source, order[1..], lines, n);
    }
  }

  lemma {:induction false} RefusedAdd(t: Target, source: Path, lines: seq<LineNo>, known: map<LineNo, Address>)
    requires Refuses(t, |lines|)
    ensures var d := AddLines(t, source, lines, known);
            && d.target.bpsAddresses == t.bpsAddresses && Armed(d.target.trace) == Armed(t.trace)
            && |d.results| == |lines|
            && forall i :: 0 <= i < |lines| && lines[i] in known ==> d.results[i].Ok?
    decreases |lines|
  {
    if lines != [] {
      RefusedSet(t, source, lines[0], |lines[1..]|);
      hide SetCodeBp, Armed;
      var u := if lines[0] in known then t else SetCodeBp(t, source, lines[0]).0;
      assert Refuses(u, |lines[1..]|);
      hide Refuses;
      RefusedAdd(u, source, lines[1..], known);
    }
  }

  function Refusals(n: nat): seq<Reply> {
    seq(n, i requires 0 <= i < n => REFUSAL)
  }

  lemma ReplaceIsLoops(t: Target, source: Path, lines: seq<LineNo>, hash: seq<LineNo>)
    ensures var known := KnownLines(t, source);
            var t1 := t.(bpsPerFile := t.bpsPerFile - {source});
            var d := AddLines(DropLines(t1, source, Arranged(known.Keys, hash), lines), source, lines, known);
            var (u, results) := ReplaceCodeBps(t, source, lines, hash);
            u.bpsAddresses == d.target.bpsAddresses && u.trace == d.target.trace && results == d.results
  {
    hide AddLines, DropLines, Arranged, ByLine;
  }

  // What is listed does not depend on what the simulator will reply.
  lemma SameListing(t: Target, script: seq<Reply>, source: Path, lines: seq<LineNo>)
    ensures KnownLines(t.(script := script), source) == KnownLines(t, source)
    ensures forall a: Address ::
              LosesLineAt(t.(script := script), source, lines, a) <==> LosesLineAt(t, source, lines, a)
  {
    hide ByLine, GetAddress;
  }

  // Then all listed lines are reported as set and nothing is set anew.
  lemma RefusedReplace(t: Target, source: Path, lines: seq<LineNo>, hash: seq<LineNo>) returns (script: seq<Reply>)
    ensures var (u, results) := ReplaceCodeBps(t.(script := script), source, lines, hash);
            |results| == |lines| &&
            (forall i :: 0 <= i < |lines| && lines[i] in KnownLines(t, source) ==> results[i].Ok?) &&
            forall a: Address :: a in u.bpsAddresses <==> a in t.bpsAddresses && !LosesLineAt(t, source, lines, a)
  {
    var known := KnownLines(t, source);
    hide KnownLines, LosesLineAt, GetAddress;
    var order := Arranged(known.Keys, hash);
    script := Refusals(|order| + |lines|);
    var t0 := t.(script := script);
    SameListing(t, script, source, lines);
    var t1 := t0.(bpsPerFile := t0.bpsPerFile - {source});
    RefusedDrop(t1, source, order, lines, |lines|);
    forall a: Address
      ensures a in DropLines(t1, source, order, lines).bpsAddresses <==>
              a in t.bpsAddresses && !LosesLineAt(t, source, lines, a)
    {
      DropsLostLines(t0, source, lines, hash, a);
    }
    hide DropLines, Arranged, Refuses;
    var t2 := DropLines(t1, source, order, lines);
    RefusedAdd(t2, source, lines, known);
    hide AddLines;
    ReplaceIsLoops(t0, source, lines, hash);
    hide ReplaceCodeBps;
  }

  lemma KeptAreStored(t: Target, script: seq<Reply>, source: Path, lines: seq<LineNo>, hash: seq<LineNo>)
    requires EntriesMatch(t) && KnownLinesAreKept(t, source, lines)
    ensures VerifiedAreStored(t.(script := script), source, lines, hash)
  {
    var t0 := t.(script := script);
    SameListing(t, script, source, lines);
    var (u, results) := ReplaceCodeBps(t0, source, lines, hash);
    hide KnownLines, LosesLineAt, ReplaceCodeBps, GetAddress;
    forall i | 0 <= i < |results| <= |lines| && results[i].Ok?
      ensures var a := GetAddress(t.index, source, lines[i]); a.Some? && a.value in u.bpsAddresses
    {
      VerifiedIsStoredIff(t0, source, lines, hash, i);
    }
  }

  // Whatever the simulator replies, all lines reported as set are set, exactly under that condition.
  lemma VerifiedAreStoredIff(t: Target, source: Path, lines: seq<LineNo>, hash: seq<LineNo>)
    requires EntriesMatch(t)
    ensures (forall script :: VerifiedAreStored(t.(script := script), source, lines, hash))
            <==> KnownLinesAreKept(t, source, lines)
  {
    if KnownLinesAreKept(t, source, lines) {
      forall script
        ensures VerifiedAreStored(t.(script := script), source, lines, hash)
      {
        KeptAreStored(t, script, source, lines, hash);
      }
    } else {
      var script := RefusedReplace(t, source, lines, hash);
      hide KnownLines, LosesLineAt, ReplaceCodeBps, GetAddress;
      assert !VerifiedAreStored(t.(script := script), source, lines, hash);
    }
  }

  // The same for the simulator

  // Every line the call reports as set is set in the simulator after it.
  ghost predicate VerifiedAreArmed(t: Target, source: Path, lines: seq<LineNo>, hash: seq<LineNo>) {
    var (u, results) := ReplaceCodeBps(t, source, lines, hash);
    forall i :: 0 <= i < |results| <= |lines| && results[i].Ok? ==>
      var a := GetAddress(t.index, source, lines[i]);
      a.Some? && a.value in Armed(u.trace)
  }

  // Every requested line that is listed already is set in the simulator, and no line that
  // is dropped will have its breakpoint removed there.
  ghost predicate KnownLinesStayArmed(t: Target, source: Path, lines: seq<LineNo>) {
    forall i :: 0 <= i < |lines| && lines[i] in KnownLines(t, source) ==>
      var a := GetAddress(t.index, source, lines[i]);
      && a.Some? && a.value in Armed(t.trace)
      && !(a.value in t.bpsAddresses && LosesLineAt(t, source, lines, a.value))
  }

  lemma RemoveSends(t: Target, source: Path, line: LineNo)
    ensures var u, b := RemoveCodeBp(t, source, line).0, GetAddress(t.index, source, line);
            if b.Some? && b.value in t.bpsAddresses then
              u.script == AfterSend(t, Resume).script &&
              u.trace == t.trace + [Exchange(RemoveCodeBreakpoint(b.value), NextReply(t))]
            else u.script == t.script && u.trace == t.trace
  {
    hide GetAddress, WithoutFirst;
  }

  // What one removal does in the simulator.
  lemma RemoveArms(t: Target, source: Path, line: LineNo)
    ensures var u, b := RemoveCodeBp(t, source, line).0, GetAddress(t.index, source, line);
            if b.Some? && b.value in t.bpsAddresses then
              u.script == AfterSend(t, Resume).script &&
              Armed(u.trace) == Armed(t.trace) - (if Accepted(NextReply(t)) then {b.value} else {})
            else u.script == t.script && u.trace == t.trace
  {
    RemoveSends(t, source, line);
    var b := GetAddress(t.index, source, line);
    hide GetAddress, RemoveCodeBp;
    if b.Some? {
      assert (t.trace + [Exchange(RemoveCodeBreakpoint(b.value), NextReply(t))])[..|t.trace|] == t.trace;
    }
  }

  lemma DroppedUnfolds(index: DwarfIndex, source: Path, order: seq<LineNo>, lines: seq<LineNo>, a: Address)
    requires order != []
    ensures Dropped(index, source, order, lines, a) <==>
              || (order[0] !in lines && GetAddress(index, source, order[0]) == Some(a))
              || Dropped(index, source, order[1..], lines, a)
  {
    hide GetAddress;
    assert forall k :: 0 < k < |order| ==> order[k] == order[1..][k - 1];
    assert forall k :: 0 <= k < |order[1..]| ==> order[1..][k] == order[k + 1];
  }

  // The first loop asks to remove only what is in the store and dropped, the second nothing.
  lemma {:induction false} DropKeepsArmed(t: Target, source: Path, order: seq<LineNo>, lines: seq<LineNo>, a: Address)
    requires a in Armed(t.trace) && !(a in t.bpsAddresses && Dropped(t.index, source, order, lines, a))
    ensures a in Armed(DropLines(t, source, order, lines).trace)
    decreases |order|
  {
    if order != [] {
      DroppedUnfolds(t.index, source, order, lines, a);
      RemoveFrame(t, source, order[0]);
      RemoveArms(t, source, order[0]);
      hide RemoveCodeBp, GetAddress, Armed, Dropped;
      var u := if order[0] in lines then t else RemoveCodeBp(t, source, order[0]).0;
      DropKeepsArmed(u, source, order[1..], lines, a);
    }
  }

  lemma {:induction false} AddKeepsArmed(t: Target, source: Path, lines: seq<LineNo>, known: map<LineNo, Address>)
    ensures Armed(t.trace) <= Armed(AddLines(t, source, lines, known).target.trace)
    decreases |lines|
  {
    if lines != [] {
      SetArms(t, source, lines[0]);
      hide SetCodeBp, Armed;
      AddKeepsArmed(if lines[0] in known then t else SetCodeBp(t, source, lines[0]).0, source, lines[1..], known);
    }
  }

  lemma ReplaceKeepsArmed(t: Target, source: Path, lines: seq<LineNo>, hash: seq<LineNo>, a: Address)
    requires a in Armed(t.trace) && !(a in t.bpsAddresses && LosesLineAt(t, source, lines, a))
    ensures a in Armed(ReplaceCodeBps(t, source, lines, hash).0.trace)
  {
    DroppedIsLost(t, source, lines, hash, a);
    ReplaceIsLoops(t, source, lines, hash);
    hide ReplaceCodeBps, LosesLineAt, Dropped, KnownLines, Arranged, Armed;
    var known := KnownLines(t, source);
    var order := Arranged(known.Keys, hash);
    var t1 := t.(bpsPerFile := t.bpsPerFile - {source});
    DropKeepsArmed(t1, source, order, lines, a);
    AddKeepsArmed(DropLines(t1, source, order, lines), source, lines, known);
    hide DropLines, AddLines;
  }

  lemma RemoveWithScript(t: Target, source: Path, line: LineNo, rest: seq<Reply>)
    ensures var b := GetAddress(t.index, source, line);
            var script := if b.Some? && b.value in t.bpsAddresses then [OK_REPLY] + rest else rest;
            RemoveCodeBp(t.(script := script), source, line).0 ==
            RemoveCodeBp(t.(script := [OK_REPLY]), source, line).0.(script := rest)
  {
    hide GetAddress, WithoutFirst;
    assert ([OK_REPLY] + rest)[1..] == rest;
  }

  // A simulator that accepts every removal of the first loop leaves `tail` to reply.
  lemma {:induction false} AdverseDrop(t: Target, source: Path, order: seq<LineNo>, lines: seq<LineNo>,
                                       tail: seq<Reply>)
    returns (script: seq<Reply>)
    ensures var u := DropLines(t.(script := script), source, order, lines);
            u.script == tail &&
            forall a: Address :: a in Armed(u.trace) ==>
              a in Armed(t.trace) && !(a in t.bpsAddresses && Dropped(t.index, source, order, lines, a))
    decreases |order|
  {
    if order == [] {
      script := tail;
    } else if order[0] in lines {
      script := AdverseDrop(t, source, order[1..], lines, tail);
      forall a: Address { DroppedUnfolds(t.index, source, order, lines, a); }
      hide RemoveCodeBp, GetAddress, Armed, Dropped;
    } else {
      var u := RemoveCodeBp(t.(script := [OK_REPLY]), source, order[0]).0;
      var rest := AdverseDrop(u, source, order[1..], lines, tail);
      var b := GetAddress(t.index, source, order[0]);
      var asks := b.Some? && b.value in t.bpsAddresses;
      script := if asks then [OK_REPLY] + rest else rest;
      RemoveArms(t.(script := [OK_REPLY]), source, order[0]);
      RemoveFrame(t.(script := [OK_REPLY]), source, order[0]);
      RemoveWithScript(t, source, order[0], rest);
      forall a: Address { DroppedUnfolds(t.index, source, order, lines, a); }
      hide RemoveCodeBp, GetAddress, Armed, Dropped;
    }
  }

  // The adversary: it accepts the removals and refuses to set anything.
  lemma AdverseReplace(t: Target, source: Path, lines: seq<LineNo>, hash: seq<LineNo>) returns (script: seq<Reply>)
    ensures var (u, results) := ReplaceCodeBps(t.(script := script), source, lines, hash);
            |results| == |lines| &&
            (forall i :: 0 <= i < |lines| && lines[i] in KnownLines(t, source) ==> results[i].Ok?) &&
            forall a: Address :: a in Armed(u.trace) ==>
              a in Armed(t.trace) && !(a in t.bpsAddresses && LosesLineAt(t, source, lines, a))
  {
    var known := KnownLines(t, source);
    hide KnownLines, LosesLineAt, GetAddress, Arranged;
    var order := Arranged(known.Keys, hash);
    var t1 := t.(bpsPerFile := t.bpsPerFile - {source});
    script := AdverseDrop(t1, source, order, lines, Refusals(|lines|));
    SameListing(t, script, source, lines);
    forall a: Address { DroppedIsLost(t, source, lines, hash, a); }
    hide Dropped, DropLines;
    var t2 := DropLines(t1.(script := script), source, order, lines);
    RefusedAdd(t2, source, lines, known);
    hide AddLines, Armed;
    ReplaceIsLoops(t.(script := script), source, lines, hash);
    hide ReplaceCodeBps;
  }

  lemma StayArmed(t: Target, script: seq<Reply>, source: Path, lines: seq<LineNo>, hash: seq<LineNo>)
    requires Consistent(t) && KnownLinesStayArmed(t, source, lines)
    ensures VerifiedAreArmed(t.(script := script), source, lines, hash)
  {
    var t0 := t.(script := script);
    SameListing(t, script, source, lines);
    var (u, results) := ReplaceCodeBps(t0, source, lines, hash);
    ReplaceKeepsConsistent(t0, source, lines, hash);
    BelievedIsArmed(u.trace);
    assert u.bpsAddresses <= Armed(u.trace) && EntriesMatch(t0);
    hide KnownLines, LosesLineAt, ReplaceCodeBps, GetAddress, Armed, Consistent, EntriesMatch;
    forall i | 0 <= i < |results| <= |lines| && results[i].Ok?
      ensures var a := GetAddress(t.index, source, lines[i]); a.Some? && a.value in Armed(u.trace)
    {
      VerifiedIsStoredIff(t0, source, lines, hash, i);
      if lines[i] in KnownLines(t, source) {
        ReplaceKeepsArmed(t0, source, lines, hash, GetAddress(t.index, source, lines[i]).value);
      }
    }
  }

  // Whatever the simulator replies, all lines reported as set are set in it, exactly under
  // that condition.
  lemma VerifiedAreArmedIff(t: Target, source: Path, lines: seq<LineNo>, hash: seq<LineNo>)
    requires Consistent(t)
    ensures (forall script :: VerifiedAreArmed(t.(script := script), source, lines, hash))
            <==> KnownLinesStayArmed(t, source, lines)
  {
    if KnownLinesStayArmed(t, source, lines) {
      forall script
        ensures VerifiedAreArmed(t.(script := script), source, lines, hash)
      {
        StayArmed(t, script, source, lines, hash);
      }
    } else {
      var script := AdverseReplace(t, source, lines, hash);
      hide KnownLines, LosesLineAt, ReplaceCodeBps, GetAddress, Armed;
      assert !VerifiedAreArmed(t.(script := script), source, lines, hash);
    }
  }

  // A discipline that guarantees it

  // All entries of the list are in the store, at different addresses.
  predicate IsStored(entries: seq<(LineNo, Address)>, stored: set<Address>) {
    && (forall i :: 0 <= i < |entries| ==> entries[i].1 in stored)
    && forall i, j :: 0 <= i < j < |entries| ==> entries[i].1 != entries[j].1
  }

  ghost predicate Tidy(t: Target) {
    forall p :: IsStored(OldEntries(t, p), t.bpsAddresses)
  }

  ghost predicate NoSharedAddresses(index: DwarfIndex) {
    forall p, l, q, m :: GetAddress(index, p, l).Some? && GetAddress(index, p, l) == GetAddress(index, q, m) ==>
      p == q && l == m
  }

  predicate RemovalsAccepted(trace: seq<Exchange>) {
    forall i :: 0 <= i < |trace| && trace[i].request.RemoveCodeBreakpoint? ==> Accepted(trace[i].reply)
  }

  // In a file no two lines of which share an address, and whose listed lines all have
  // their breakpoint, all known lines are kept.
  lemma DistinctAddressesAreSound(t: Target, source: Path, lines: seq<LineNo>)
    requires EntriesMatch(t)
    requires forall i :: 0 <= i < |OldEntries(t, source)| ==> OldEntries(t, source)[i].1 in t.bpsAddresses
    requires forall l, m ::
               var a, b := GetAddress(t.index, source, l), GetAddress(t.index, source, m);
               a.Some? && a == b ==> l == m
    ensures KnownLinesAreKept(t, source, lines) && ReuseIsSound(t, source, lines)
  {
    hide GetAddress;
    forall i | 0 <= i < |lines| && lines[i] in KnownLines(t, source)
      ensures var a := GetAddress(t.index, source, lines[i]);
              a.Some? && a.value in t.bpsAddresses && !LosesLineAt(t, source, lines, a.value)
    {
      var k := ByLineIsEntry(OldEntries(t, source), lines[i]);
    }
  }

  lemma TidyIsSound(t: Target, source: Path, lines: seq<LineNo>)
    requires EntriesMatch(t) && Tidy(t) && NoSharedAddresses(t.index)
    ensures KnownLinesAreKept(t, source, lines) && ReuseIsSound(t, source, lines)
  {
    assert IsStored(OldEntries(t, source), t.bpsAddresses);
    hide GetAddress, Tidy, EntriesMatch;
    DistinctAddressesAreSound(t, source, lines);
  }

  lemma SetKeepsTidy(t: Target, source: Path, line: LineNo)
    requires Tidy(t)
    ensures Tidy(SetCodeBp(t, source, line).0)
  {
    hide GetAddress;
    var u := SetCodeBp(t, source, line).0;
    forall p
      ensures IsStored(OldEntries(u, p), u.bpsAddresses)
    {
      assert IsStored(OldEntries(t, p), t.bpsAddresses);
    }
  }

  lemma {:induction false} WithoutFirstKeepsStored(entries: seq<(LineNo, Address)>, a: Address, stored: set<Address>)
    requires IsStored(entries, stored)
    ensures IsStored(WithoutFirst(entries, a), stored - {a})
    ensures forall i :: 0 <= i < |WithoutFirst(entries, a)| ==> WithoutFirst(entries, a)[i] in entries
  {
    if entries != [] {
      var rest := entries[1..];
      assert forall i :: 0 <= i < |rest| ==> rest[i] == entries[i + 1];
      WithoutFirstKeepsStored(rest, a, stored);
      if entries[0].1 != a {
        var kept := WithoutFirst(rest, a);
        forall i | 0 <= i < |kept|
          ensures kept[i].1 != entries[0].1
        {
          var k :| 0 <= k < |rest| && rest[k] == kept[i];
        }
      }
    }
  }

  // An accepted removal; no other file lists the address.
  lemma RemoveKeepsTidy(t: Target, source: Path, line: LineNo)
    requires EntriesMatch(t) && Tidy(t) && NoSharedAddresses(t.index)
    requires RemovalsAccepted(RemoveCodeBp(t, source, line).0.trace)
    ensures Tidy(RemoveCodeBp(t, source, line).0)
  {
    var address, u := GetAddress(t.index, source, line), RemoveCodeBp(t, source, line).0;
    if address.Some? {
      var a := address.value;
      if a in t.bpsAddresses {
        assert u.trace[|t.trace|] == Exchange(RemoveCodeBreakpoint(a), NextReply(t));
      }
      hide GetAddress;
      forall p
        ensures IsStored(OldEntries(u, p), u.bpsAddresses)
      {
        assert IsStored(OldEntries(t, p), t.bpsAddresses);
        if p == source {
          WithoutFirstKeepsStored(OldEntries(t, p), a, t.bpsAddresses);
        } else if p in t.bpsPerFile {
          assert EntriesMatchFile(t.index, p, t.bpsPerFile[p]);
          assert forall i :: 0 <= i < |t.bpsPerFile[p]| ==> t.bpsPerFile[p][i].1 != a;
        }
        hide WithoutFirst;
      }
    }
  }

  ghost predicate ReportedSet(lines: seq<LineNo>, results: seq<Result<(), TargetError>>, line: LineNo) {
    exists i :: 0 <= i < |results| <= |lines| && results[i].Ok? && lines[i] == line
  }

  lemma {:induction false} VerifiedLinesOnce(lines: seq<LineNo>, results: seq<Result<(), TargetError>>)
    requires |results| <= |lines| && NoDuplicates(lines)
    ensures NoDuplicates(VerifiedLines(lines, results))
    ensures forall k :: 0 <= k < |VerifiedLines(lines, results)| ==>
              ReportedSet(lines, results, VerifiedLines(lines, results)[k])
  {
    if results != [] {
      assert forall i :: 0 <= i < |lines[1..]| ==> lines[1..][i] == lines[i + 1];
      VerifiedLinesOnce(lines[1..], results[1..]);
      var rest := VerifiedLines(lines[1..], results[1..]);
      forall k | 0 <= k < |rest|
        ensures rest[k] != lines[0] && ReportedSet(lines, results, rest[k])
      {
        assert ReportedSet(lines[1..], results[1..], rest[k]);
        var i :| 0 <= i < |results[1..]| && results[1..][i].Ok? && lines[1..][i] == rest[k];
        assert results[i + 1].Ok? && lines[i + 1] == rest[k];
      }
      assert results[0].Ok? ==> ReportedSet(lines, results, lines[0]);
    }
  }

  // The list of the replaced file.
  lemma ReplacedListIsStored(t: Target, source: Path, lines: seq<LineNo>, hash: seq<LineNo>)
    requires Consistent(t) && Tidy(t) && NoSharedAddresses(t.index) && NoDuplicates(lines)
    ensures var u := ReplaceCodeBps(t, source, lines, hash).0; IsStored(OldEntries(u, source), u.bpsAddresses)
  {
    var (u, results) := ReplaceCodeBps(t, source, lines, hash);
    ReplaceRecordsVerified(t, source, lines, hash);
    ReplaceKeepsConsistent(t, source, lines, hash);
    VerifiedLinesOnce(lines, results);
    TidyIsSound(t, source, lines);
    hide ReplaceCodeBps, GetAddress, LosesLineAt, KnownLines, Tidy, VerifiedLines;
    var entries := OldEntries(u, source);
    forall k | 0 <= k < |entries|
      ensures GetAddress(t.index, source, entries[k].0) == Some(entries[k].1) && entries[k].1 in u.bpsAddresses
    {
      assert EntriesMatchFile(u.index, source, entries);
      assert LinesOf(entries)[k] == entries[k].0;
      assert ReportedSet(lines, results, entries[k].0);
      var i :| 0 <= i < |results| && results[i].Ok? && lines[i] == entries[k].0;
      VerifiedIsStoredIff(t, source, lines, hash, i);
    }
    forall i, j | 0 <= i < j < |entries|
      ensures entries[i].1 != entries[j].1
    {
      assert LinesOf(entries)[i] != LinesOf(entries)[j];
    }
  }

  lemma ReplaceKeepsTidy(t: Target, source: Path, lines: seq<LineNo>, hash: seq<LineNo>)
    requires Consistent(t) && Tidy(t) && NoSharedAddresses(t.index) && NoDuplicates(lines)
    ensures Tidy(ReplaceCodeBps(t, source, lines, hash).0)
  {
    var u := ReplaceCodeBps(t, source, lines, hash).0;
    ReplacedListIsStored(t, source, lines, hash);
    ReplaceRecordsVerified(t, source, lines, hash);
    ByLineMatches(t.index, source, OldEntries(t, source));
    hide ReplaceCodeBps, GetAddress, ByLine;
    forall p | p != source
      ensures IsStored(OldEntries(u, p), u.bpsAddresses)
    {
      var entries := OldEntries(t, p);
      assert IsStored(entries, t.bpsAddresses);
      forall i | 0 <= i < |entries|
        ensures entries[i].1 in u.bpsAddresses
      {
        assert EntriesMatchFile(t.index, p, entries);
        StoredAfterReplaceIff(t, source, lines, hash, entries[i].1);
        assert !LosesLineAt(t, source, lines, entries[i].1);
      }
    }
  }
}
