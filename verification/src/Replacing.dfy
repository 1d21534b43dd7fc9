/** What one `setBreakpoints` call leaves in the store of breakpoints and in the simulator. */
module Replacing {
  import opened Wrappers
  import opened Machine
  import opened Frame
  import opened Interning
  import opened DebugIndex
  import opened Target
  import opened BreakpointStore

  // Some line of `lines` that is not in `known` was accepted and has address `a`.
  ghost predicate NewlySet(index: DwarfIndex, source: Path, lines: seq<LineNo>, known: map<LineNo, Address>,
                     results: seq<Result<(), TargetError>>, a: Address)
  {
    exists j :: 0 <= j < |results| <= |lines| && results[j].Ok? && lines[j] !in known &&
      GetAddress(index, source, lines[j]) == Some(a)
  }

  // Some line of `order` that is not requested any more has address `a`.
  ghost predicate Dropped(index: DwarfIndex, source: Path, order: seq<LineNo>, lines: seq<LineNo>, a: Address) {
    exists k :: 0 <= k < |order| && order[k] !in lines && GetAddress(index, source, order[k]) == Some(a)
  }

  lemma {:induction false} DropRemoves(t: Target, source: Path, order: seq<LineNo>, lines: seq<LineNo>, a: Address)
    ensures var u := DropLines(t, source, order, lines);
            a in u.bpsAddresses <==> a in t.bpsAddresses && !Dropped(t.index, source, order, lines, a)
    decreases |order|
  {
    if order != [] {
      RemoveFrame(t, source, order[0]);
      hide RemoveCodeBp, GetAddress;
      var u := if order[0] in lines then t else RemoveCodeBp(t, source, order[0]).0;
      DropRemoves(u, source, order[1..], lines, a);
      assert forall k :: 0 < k < |order| ==> order[k] == order[1..][k - 1];
    }
  }

  // Each result speaks about its line; only a lost session cuts the list short.
  predicate ResultsSpeak(lines: seq<LineNo>, results: seq<Result<(), TargetError>>) {
    && |results| <= |lines|
    && (forall i :: 0 <= i < |results| - 1 ==> results[i] != Err(SessionLost))
    && (|results| < |lines| ==> results != [] && results[|results| - 1] == Err(SessionLost))
  }

  lemma {:induction false} AddSpeaks(t: Target, source: Path, lines: seq<LineNo>, known: map<LineNo, Address>)
    ensures ResultsSpeak(lines, AddLines(t, source, lines, known).results)
    decreases |lines|
  {
    if lines != [] {
      hide SetCodeBp;
      AddSpeaks(if lines[0] in known then t else SetCodeBp(t, source, lines[0]).0, source, lines[1..], known);
    }
  }

  // How the first line of a nonempty request is served, and what remains.
  lemma AddUnfolds(t: Target, source: Path, lines: seq<LineNo>, known: map<LineNo, Address>) returns (u: Target)
    requires lines != []
    ensures var d, rest := AddLines(t, source, lines, known), AddLines(u, source, lines[1..], known);
            u.index == t.index && d.results != [] &&
            (if d.results[0] == Err(SessionLost) then
               d.target == u && d.results == [Err(SessionLost)] && d.entries == []
             else d.target == rest.target && d.results == [d.results[0]] + rest.results)
    ensures var r := AddLines(t, source, lines, known).results[0];
            if lines[0] in known then r.Ok? && u == t
            else if r.Ok? then
              GetAddress(t.index, source, lines[0]).Some? &&
              u.bpsAddresses == t.bpsAddresses + {GetAddress(t.index, source, lines[0]).value}
            else u.bpsAddresses == t.bpsAddresses
  {
    SetFrame(t, source, lines[0]);
    hide SetCodeBp, GetAddress;
    u := if lines[0] in known then t else SetCodeBp(t, source, lines[0]).0;
  }

  lemma NewlySetUnfolds(index: DwarfIndex, source: Path, lines: seq<LineNo>, known: map<LineNo, Address>,
                        results: seq<Result<(), TargetError>>, a: Address)
    requires 0 < |results| <= |lines|
    ensures NewlySet(index, source, lines, known, results, a) <==>
              || (results[0].Ok? && lines[0] !in known && GetAddress(index, source, lines[0]) == Some(a))
              || NewlySet(index, source, lines[1..], known, results[1..], a)
  {
    hide GetAddress;
    assert forall j :: 0 < j < |results| ==> results[j] == results[1..][j - 1] && lines[j] == lines[1..][j - 1];
    assert forall j :: 0 <= j < |results[1..]| ==> results[1..][j] == results[j + 1] && lines[1..][j] == lines[j + 1];
  }

  lemma {:induction false} AddSets(t: Target, source: Path, lines: seq<LineNo>, known: map<LineNo, Address>, a: Address)
    ensures var d := AddLines(t, source, lines, known);
            a in d.target.bpsAddresses <==>
              a in t.bpsAddresses || NewlySet(t.index, source, lines, known, d.results, a)
    decreases |lines|
  {
    AddSpeaks(t, source, lines, known);
    if lines != [] {
      var u := AddUnfolds(t, source, lines, known);
      AddSpeaks(u, source, lines[1..], known);
      var d, rest := AddLines(t, source, lines, known), AddLines(u, source, lines[1..], known);
      AddSets(u, source, lines[1..], known, a);
      hide AddLines, GetAddress, ResultsSpeak;
      if d.results[0] != Err(SessionLost) {
        NewlySetUnfolds(t.index, source, lines, known, d.results, a);
      }
    }
  }

  lemma {:induction false} ArrangedIsAll(keys: set<LineNo>, hash: seq<LineNo>)
    ensures forall l :: l in Arranged(keys, hash) <==> l in keys
    decreases keys, hash
  {
    if hash != [] {
      ArrangedIsAll(if hash[0] in keys then keys - {hash[0]} else keys, hash[1..]);
    } else if keys != {} {
      LeastExists(keys);
      var k :| k in keys && IsLeast(keys, k);
      ArrangedIsAll(keys - {Arranged(keys, [])[0]}, []);
    }
  }

  function KnownLines(t: Target, source: Path): map<LineNo, Address> {
    ByLine(OldEntries(t, source))
  }

  // A line that was set before and is not requested any more has address `a`.
  ghost predicate LosesLineAt(t: Target, source: Path, lines: seq<LineNo>, a: Address) {
    exists l :: l in KnownLines(t, source) && l !in lines && GetAddress(t.index, source, l) == Some(a)
  }

  // What the first loop drops does not depend on the hash order.
  lemma DroppedIsLost(t: Target, source: Path, lines: seq<LineNo>, hash: seq<LineNo>, a: Address)
    ensures Dropped(t.index, source, Arranged(KnownLines(t, source).Keys, hash), lines, a) <==>
            LosesLineAt(t, source, lines, a)
  {
    var known := KnownLines(t, source);
    var order := Arranged(known.Keys, hash);
    ArrangedIsAll(known.Keys, hash);
    hide Arranged, GetAddress, ByLine;
    if l :| l in known && l !in lines && GetAddress(t.index, source, l) == Some(a) {
      var k :| 0 <= k < |order| && order[k] == l;
    }
  }

  // What the first loop leaves, for every reply and every hash order.
  lemma DropsLostLines(t: Target, source: Path, lines: seq<LineNo>, hash: seq<LineNo>, a: Address)
    ensures var known := KnownLines(t, source);
            var u := DropLines(t.(bpsPerFile := t.bpsPerFile - {source}), source, Arranged(known.Keys, hash), lines);
            u.index == t.index && (a in u.bpsAddresses <==> a in t.bpsAddresses && !LosesLineAt(t, source, lines, a))
  {
    DroppedIsLost(t, source, lines, hash, a);
    var order := Arranged(KnownLines(t, source).Keys, hash);
    var t1 := t.(bpsPerFile := t.bpsPerFile - {source});
    hide Arranged, GetAddress, ByLine, LosesLineAt;
    DropRemoves(t1, source, order, lines, a);
    DropFrame(t1, source, order, lines);
    hide DropLines;
  }

  // The store after the call, for every reply and every hash order.
  lemma StoredAfterReplaceIff(t: Target, source: Path, lines: seq<LineNo>, hash: seq<LineNo>, a: Address)
    ensures var (u, results) := ReplaceCodeBps(t, source, lines, hash);
            ResultsSpeak(lines, results) &&
            (a in u.bpsAddresses <==>
               || (a in t.bpsAddresses && !LosesLineAt(t, source, lines, a))
               || NewlySet(t.index, source, lines, KnownLines(t, source), results, a))
  {
    DropsLostLines(t, source, lines, hash, a);
    hide Arranged, GetAddress, ByLine, DropLines, LosesLineAt;
    var known := KnownLines(t, source);
    var t2 := DropLines(t.(bpsPerFile := t.bpsPerFile - {source}), source, Arranged(known.Keys, hash), lines);
    AddSpeaks(t2, source, lines, known);
    AddSets(t2, source, lines, known, a);
    hide AddLines;
  }

  lemma {:induction false} AddedHasAddress(t: Target, source: Path, lines: seq<LineNo>, known: map<LineNo, Address>,
                                           i: nat)
    requires var results := AddLines(t, source, lines, known).results; i < |results| && results[i].Ok?
    ensures i < |lines| && (lines[i] in known || GetAddress(t.index, source, lines[i]).Some?)
    decreases |lines|
  {
    if lines != [] {
      var u := AddUnfolds(t, source, lines, known);
      hide AddLines, GetAddress;
      if i > 0 {
        AddedHasAddress(u, source, lines[1..], known, i - 1);
      }
    }
  }

  lemma VerifiedHasAddress(t: Target, source: Path, lines: seq<LineNo>, hash: seq<LineNo>, i: nat)
    requires EntriesMatch(t)
    requires var results := ReplaceCodeBps(t, source, lines, hash).1; i < |results| && results[i].Ok?
    ensures i < |lines| && GetAddress(t.index, source, lines[i]).Some?
  {
    ByLineMatches(t.index, source, OldEntries(t, source));
    hide GetAddress, ByLine, Arranged;
    var known := KnownLines(t, source);
    var t1 := t.(bpsPerFile := t.bpsPerFile - {source});
    DropFrame(t1, source, Arranged(known.Keys, hash), lines);
    var t2 := DropLines(t1, source, Arranged(known.Keys, hash), lines);
    AddedHasAddress(t2, source, lines, known, i);
    hide DropLines, AddLines;
  }

  // A line reported as set is in the store exactly when it was newly set, or its earlier
  // breakpoint was still there and no dropped line shared it, or a new line set it again.
  lemma VerifiedIsStoredIff(t: Target, source: Path, lines: seq<LineNo>, hash: seq<LineNo>, i: nat)
    requires EntriesMatch(t)
    requires var results := ReplaceCodeBps(t, source, lines, hash).1; i < |results| && results[i].Ok?
    ensures i < |lines| && GetAddress(t.index, source, lines[i]).Some?
    ensures var a := GetAddress(t.index, source, lines[i]).value;
            var (u, results) := ReplaceCodeBps(t, source, lines, hash);
            a in u.bpsAddresses <==>
              || lines[i] !in KnownLines(t, source)
              || (a in t.bpsAddresses && !LosesLineAt(t, source, lines, a))
              || NewlySet(t.index, source, lines, KnownLines(t, source), results, a)
  {
    VerifiedHasAddress(t, source, lines, hash, i);
    StoredAfterReplaceIff(t, source, lines, hash, GetAddress(t.index, source, lines[i]).value);
    hide ReplaceCodeBps, GetAddress, KnownLines;
  }

  // The caller-side condition: every line that is already known still has its breakpoint
  // and shares it with no line that is dropped, or shares it with a line that is new.
  ghost predicate ReuseIsSound(t: Target, source: Path, lines: seq<LineNo>) {
    var known := KnownLines(t, source);
    forall i :: 0 <= i < |lines| && lines[i] in known ==>
      var a := GetAddress(t.index, source, lines[i]);
      a.Some? &&
      (|| (a.value in t.bpsAddresses && !LosesLineAt(t, source, lines, a.value))
       || exists j :: 0 <= j < |lines| && lines[j] !in known && GetAddress(t.index, source, lines[j]) == a)
  }

  predicate AllAccepted(lines: seq<LineNo>, results: seq<Result<(), TargetError>>) {
    |results| == |lines| && forall i :: 0 <= i < |results| ==> results[i].Ok?
  }

  lemma AllNewlySet(t: Target, source: Path, lines: seq<LineNo>, hash: seq<LineNo>)
    requires AllAccepted(lines, ReplaceCodeBps(t, source, lines, hash).1)
    ensures var known := KnownLines(t, source);
            forall a: Address ::
              NewlySet(t.index, source, lines, known, ReplaceCodeBps(t, source, lines, hash).1, a) <==>
              exists j :: 0 <= j < |lines| && lines[j] !in known && GetAddress(t.index, source, lines[j]) == Some(a)
  {
    StoredAfterReplaceIff(t, source, lines, hash, 0);
    hide ReplaceCodeBps, GetAddress, KnownLines, LosesLineAt;
  }

  // When every line is reported as set, they all are exactly under that condition.
  lemma AllVerifiedAreStoredIff(t: Target, source: Path, lines: seq<LineNo>, hash: seq<LineNo>)
    requires EntriesMatch(t)
    requires AllAccepted(lines, ReplaceCodeBps(t, source, lines, hash).1)
    ensures (forall i :: 0 <= i < |lines| ==>
               GetAddress(t.index, source, lines[i]).Some? &&
               GetAddress(t.index, source, lines[i]).value in ReplaceCodeBps(t, source, lines, hash).0.bpsAddresses)
            <==> ReuseIsSound(t, source, lines)
  {
    var (u, results) := ReplaceCodeBps(t, source, lines, hash);
    var known := KnownLines(t, source);
    forall i | 0 <= i < |lines|
      ensures GetAddress(t.index, source, lines[i]).Some?
      ensures var a := GetAddress(t.index, source, lines[i]).value;
              a in u.bpsAddresses <==>
                || lines[i] !in known
                || (a in t.bpsAddresses && !LosesLineAt(t, source, lines, a))
                || NewlySet(t.index, source, lines, known, results, a)
    {
      VerifiedIsStoredIff(t, source, lines, hash, i);
    }
    AllNewlySet(t, source, lines, hash);
    hide ReplaceCodeBps, GetAddress, KnownLines, LosesLineAt, NewlySet;
  }

  lemma {:induction false} ByLineIsEntry(entries: seq<(LineNo, Address)>, l: LineNo) returns (i: nat)
    requires l in ByLine(entries)
    ensures i < |entries| && entries[i] == (l, ByLine(entries)[l])
  {
    var n := |entries| - 1;
    if entries[n].0 == l {
      i := n;
    } else {
      i := ByLineIsEntry(entries[..n], l);
    }
  }

  const OK_REPLY: Reply := Ok(RawResponse(StatusOk, 0, 0, 0))

  lemma {:induction false} ArrangedOfNone(hash: seq<LineNo>)
    ensures Arranged({}, hash) == []
  {
    if hash != [] {
      ArrangedOfNone(hash[1..]);
    }
  }

  lemma FirstCall(index: DwarfIndex, source: Path, l: LineNo, m: LineNo, a: Address, hash: seq<LineNo>)
    requires l != m && GetAddress(index, source, l) == Some(a) == GetAddress(index, source, m)
    ensures var t := NewTarget(index, [OK_REPLY, OK_REPLY]);
            ReplaceCodeBps(t, source, [l, m], hash) ==
            (t.(bpsPerFile := map[source := [(l, a), (m, a)]], bpsAddresses := {a}, script := [OK_REPLY],
                trace := [Exchange(SetCodeBreakpoint(a), OK_REPLY)]),
             [Ok(()), Ok(())])
  {
    hide GetAddress;
    var t := NewTarget(index, [OK_REPLY, OK_REPLY]);
    ArrangedOfNone(hash);
    assert t.(bpsPerFile := t.bpsPerFile - {source}) == t;
    assert KnownLines(t, source) == map[] && KnownLines(t, source).Keys == {};
    assert [OK_REPLY, OK_REPLY][1..] == [OK_REPLY] && [] + [(l, a)] == [(l, a)];
    var e := Exchange(SetCodeBreakpoint(a), OK_REPLY);
    assert t.trace + [e] == [e];
    var t1 := SetCodeBp(t, source, l).0;
    assert t1 == t.(bpsPerFile := map[source := [(l, a)]], bpsAddresses := {a}, script := [OK_REPLY],
                    trace := [Exchange(SetCodeBreakpoint(a), OK_REPLY)]);
    assert SetCodeBp(t1, source, m) == (t1, Ok(a));
    assert AddLines(t1, source, [], map[]) == Added(t1, [], []);
    assert [m][1..] == [];
    assert AddLines(t1, source, [m], map[]) == Added(t1, [(m, a)], [Ok(())]);
    assert [l, m][1..] == [m];
    assert AddLines(t, source, [l, m], map[]) == Added(t1, [(l, a), (m, a)], [Ok(()), Ok(())]);
    assert DropLines(t, source, [], [l, m]) == t;
    hide AddLines, SetCodeBp, Arranged;
    assert t1.bpsPerFile[source := [(l, a), (m, a)]] == map[source := [(l, a), (m, a)]];
  }

  lemma {:induction false} DropOfGone(t: Target, source: Path, order: seq<LineNo>, l: LineNo, m: LineNo, a: Address)
    requires l != m && forall i :: 0 <= i < |order| ==> order[i] == l || order[i] == m
    requires GetAddress(t.index, source, l) == Some(a)
    requires source !in t.bpsPerFile && a !in t.bpsAddresses
    ensures DropLines(t, source, order, [m]) == t
    decreases |order|
  {
    hide GetAddress;
    if order != [] {
      DropOfGone(t, source, order[1..], l, m, a);
    }
  }

  // Dropping one of two lines sends exactly one removal.
  lemma {:induction false} DropOfTwo(t: Target, source: Path, order: seq<LineNo>, l: LineNo, m: LineNo, a: Address)
    requires l != m && l in order && (forall i :: 0 <= i < |order| ==> order[i] == l || order[i] == m)
    requires GetAddress(t.index, source, l) == Some(a)
    requires source !in t.bpsPerFile && a in t.bpsAddresses && Accepted(NextReply(t))
    ensures DropLines(t, source, order, [m]) ==
            AfterSend(t, RemoveCodeBreakpoint(a)).(bpsAddresses := t.bpsAddresses - {a})
    decreases |order|
  {
    hide GetAddress;
    if order[0] == l {
      var u := RemoveCodeBp(t, source, l).0;
      assert u == AfterSend(t, RemoveCodeBreakpoint(a)).(bpsAddresses := t.bpsAddresses - {a});
      DropOfGone(u, source, order[1..], l, m, a);
    } else {
      DropOfTwo(t, source, order[1..], l, m, a);
    }
  }

  lemma ByLineOfTwo(l: LineNo, m: LineNo, a: Address)
    ensures ByLine([(l, a), (m, a)]) == map[l := a, m := a]
  {
    assert [(l, a), (m, a)][..1] == [(l, a)];
    assert ByLine([(l, a)]) == map[l := a];
  }

  lemma SecondCall(u: Target, source: Path, l: LineNo, m: LineNo, a: Address, hash: seq<LineNo>)
    requires l != m && GetAddress(u.index, source, l) == Some(a) == GetAddress(u.index, source, m)
    requires OldEntries(u, source) == [(l, a), (m, a)] && u.bpsAddresses == {a} && NextReply(u) == OK_REPLY
    ensures var (v, results) := ReplaceCodeBps(u, source, [m], hash);
            results == [Ok(())] && v.trace == u.trace + [Exchange(RemoveCodeBreakpoint(a), OK_REPLY)]
  {
    hide GetAddress;
    var known := ByLine([(l, a), (m, a)]);
    ByLineOfTwo(l, m, a);
    var order := Arranged(known.Keys, hash);
    ArrangedIsAll(known.Keys, hash);
    assert forall i :: 0 <= i < |order| ==> order[i] in known.Keys;
    var u1 := u.(bpsPerFile := u.bpsPerFile - {source});
    DropOfTwo(u1, source, order, l, m, a);
    var v1 := DropLines(u1, source, order, [m]);
    assert AddLines(v1, source, [m], known) == Added(v1, [(m, a)], [Ok(())]) by {
      assert AddLines(v1, source, [m][1..], known) == Added(v1, [], []);
    }
    hide Arranged, DropLines, AddLines;
  }

  // Two lines that share an address: set both, then keep only one. The kept line is
  // reported as set, but its breakpoint has been taken out of the simulator.
  lemma SharedAddressLosesBreakpoint(index: DwarfIndex, source: Path, l: LineNo, m: LineNo, a: Address,
                                     hash: seq<LineNo>)
    requires l != m && GetAddress(index, source, l) == Some(a) == GetAddress(index, source, m)
    ensures var t := NewTarget(index, [OK_REPLY, OK_REPLY]);
            var (u, first) := ReplaceCodeBps(t, source, [l, m], hash);
            var (v, second) := ReplaceCodeBps(u, source, [m], hash);
            first == [Ok(()), Ok(())] && a in Armed(u.trace) &&
            second == [Ok(())] && Armed(v.trace) == {} && !ReuseIsSound(u, source, [m])
  {
    hide GetAddress;
    FirstCall(index, source, l, m, a, hash);
    var t := NewTarget(index, [OK_REPLY, OK_REPLY]);
    var u := ReplaceCodeBps(t, source, [l, m], hash).0;
    SecondCall(u, source, l, m, a, hash);
    var set1, remove := Exchange(SetCodeBreakpoint(a), OK_REPLY), Exchange(RemoveCodeBreakpoint(a), OK_REPLY);
    assert [set1, remove][..1] == [set1] && Armed([set1]) == {a};
    assert !ReuseIsSound(u, source, [m]) by {
      ByLineOfTwo(l, m, a);
      assert LosesLineAt(u, source, [m], a);
      assert [m][0] in KnownLines(u, source);
    }
    hide ReplaceCodeBps;
  }

  // Such an index arises from two rows of the line table.
  lemma RowsCanShareAnAddress(index: DwarfIndex, source: Path, l: LineNo, m: LineNo, a: Address)
    requires l != m && Indexes(index, [Row(a, source, l), Row(a, source, m)])
    ensures GetAddress(index, source, l) == Some(a) == GetAddress(index, source, m)
  {
    var log := [Row(a, source, l), Row(a, source, m)];
    DistinctIsSound(Paths(log));
    GetIsLastScan(log, index, source, l);
    GetIsLastScan(log, index, source, m);
    hide GetAddress, Indexes;
    assert log[0].line == l && log[1].line == m;
  }

  function LinesOf(entries: seq<(LineNo, Address)>): seq<LineNo> {
    seq(|entries|, i requires 0 <= i < |entries| => entries[i].0)
  }

  function VerifiedLines(lines: seq<LineNo>, results: seq<Result<(), TargetError>>): seq<LineNo>
    requires |results| <= |lines|
  {
    if results == [] then []
    else (if results[0].Ok? then [lines[0]] else []) + VerifiedLines(lines[1..], results[1..])
  }

  lemma LinesOfCons(entry: (LineNo, Address), rest: seq<(LineNo, Address)>)
    ensures LinesOf([entry] + rest) == [entry.0] + LinesOf(rest)
  {
  }

  lemma NoLines()
    ensures LinesOf([]) == []
  {
  }

  lemma {:induction false} AddRecordsVerified(t: Target, source: Path, lines: seq<LineNo>, known: map<LineNo, Address>)
    ensures var d := AddLines(t, source, lines, known);
            |d.results| <= |lines| && LinesOf(d.entries) == VerifiedLines(lines, d.results)
    decreases |lines|
  {
    NoLines();
    hide SetCodeBp, LinesOf;
    if lines != [] {
      var line := lines[0];
      var (u, r) := if line in known then (t, Ok(known[line])) else SetCodeBp(t, source, line);
      AddRecordsVerified(u, source, lines[1..], known);
      var rest := AddLines(u, source, lines[1..], known);
      var d := AddLines(t, source, lines, known);
      if r.Ok? {
        LinesOfCons((line, r.value), rest.entries);
        assert d.results[1..] == rest.results;
      } else if r != Err(SessionLost) {
        assert d.results[1..] == rest.results;
      }
    }
  }

  lemma {:induction false} AddTouchesFile(t: Target, source: Path, lines: seq<LineNo>, known: map<LineNo, Address>)
    ensures var d := AddLines(t, source, lines, known);
            (forall p :: p != source ==> OldEntries(d.target, p) == OldEntries(t, p)) &&
            (d.entries == [] ==> d.target.bpsPerFile == t.bpsPerFile)
    decreases |lines|
  {
    if lines != [] {
      hide GetAddress;
      var u := if lines[0] in known then t else SetCodeBp(t, source, lines[0]).0;
      assert forall p :: p != source ==> OldEntries(u, p) == OldEntries(t, p);
      hide SetCodeBp;
      AddTouchesFile(u, source, lines[1..], known);
    }
  }

  // After the call the file's list holds the verified lines, in order, and other files' lists are as before.
  lemma ReplaceRecordsVerified(t: Target, source: Path, lines: seq<LineNo>, hash: seq<LineNo>)
    ensures var (u, results) := ReplaceCodeBps(t, source, lines, hash);
            |results| <= |lines| && LinesOf(OldEntries(u, source)) == VerifiedLines(lines, results) &&
            forall p :: p != source ==> OldEntries(u, p) == OldEntries(t, p)
  {
    hide ByLine, Arranged, GetAddress, LinesOf, VerifiedLines, DropLines, AddLines;
    var known := KnownLines(t, source);
    var t1 := t.(bpsPerFile := t.bpsPerFile - {source});
    DropFrame(t1, source, Arranged(known.Keys, hash), lines);
    var t2 := DropLines(t1, source, Arranged(known.Keys, hash), lines);
    AddRecordsVerified(t2, source, lines, known);
    AddTouchesFile(t2, source, lines, known);
    var d := AddLines(t2, source, lines, known);
    var u := ReplaceCodeBps(t, source, lines, hash).0;
    assert OldEntries(u, source) == d.entries;
    assert forall p :: p != source ==> OldEntries(u, p) == OldEntries(d.target, p) == OldEntries(t, p);
    NoLines();
    hide ReplaceCodeBps, OldEntries;
  }
}
