/** Breakpoint IDs by source location (src/debugger/core.rs). */
module Breakpoints {
  import opened Machine
  import opened Interning

  type Location = (Path, LineNo)

  datatype Registry = Registry(nextId: uint32, ids: map<Location, uint32>)

  const EMPTY_REGISTRY := Registry(0, map[])

  function WithId(r: Registry, loc: Location): (s: Registry)
    ensures loc in s.ids
  {
    if loc in r.ids then r else Registry(WrapU32(r.nextId + 1), r.ids[loc := r.nextId])
  }

  class BpRegistry {
    var nextId: uint32
    var ids: map<Location, uint32>

    ghost function Value(): Registry
      reads this
    {
      Registry(nextId, ids)
    }

    constructor ()
      ensures Value() == EMPTY_REGISTRY
    {
      nextId, ids := 0, map[];
    }

    method GetId(path: Path, line: LineNo) returns (id: uint32)
      modifies this
      ensures Value() == WithId(old(Value()), (path, line)) && id == ids[(path, line)]
    {
      if (path, line) !in ids {
        ids := ids[(path, line) := nextId];
        nextId := WrapU32(nextId + 1);
      }
      id := ids[(path, line)];
    }
  }

  // The registry after a sequence of requests for IDs, from whichever handler.
  function AfterRequests(log: seq<Location>): Registry {
    if log == [] then EMPTY_REGISTRY
    else WithId(AfterRequests(log[..|log| - 1]), log[|log| - 1])
  }

  lemma WrapCounts(n: nat)
    ensures WrapU32(WrapU32(n) + 1) == WrapU32(n + 1)
  {
  }

  // IDs count the distinct requested locations from 0.
  lemma {:induction false} IdsNumberLocations(log: seq<Location>)
    ensures AfterRequests(log) == Registry(WrapU32(|Distinct(log)|), Numbering(Distinct(log), 0))
  {
    if log != [] {
      var before, loc := log[..|log| - 1], log[|log| - 1];
      IdsNumberLocations(before);
      var ds := Distinct(before);
      WrapCounts(|ds|);
      hide WrapU32, Numbering;
      if loc !in ds {
        NumberingExtends(ds, loc, 0);
      }
    }
  }

  // Locations are told apart by their IDs exactly up to 2^32 of them.
  lemma IdsInjectiveIff(log: seq<Location>)
    ensures Injective(AfterRequests(log).ids) <==> |Distinct(log)| <= TWO_TO_32
    ensures forall loc :: loc in AfterRequests(log).ids <==> loc in log
  {
    IdsNumberLocations(log);
    DistinctIsSound(log);
    InjectiveIff(Distinct(log), 0);
  }

  // An issued ID never changes and asking again changes nothing.
  lemma {:induction false} IdsAreStable(log: seq<Location>, more: seq<Location>, loc: Location)
    requires loc in AfterRequests(log).ids
    ensures var r, s := AfterRequests(log), AfterRequests(log + more);
            loc in s.ids && s.ids[loc] == r.ids[loc] && WithId(s, loc) == s
  {
    if more == [] {
      assert log + more == log;
    } else {
      IdsAreStable(log, more[..|more| - 1], loc);
      assert (log + more)[..|log + more| - 1] == log + more[..|more| - 1];
    }
  }
}
