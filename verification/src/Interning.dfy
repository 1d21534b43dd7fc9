/**
 Numbering things by first appearance, in 32 bits: what the file IDs of the debug index
 and the breakpoint IDs of the registry have in common.
 */
module Interning {
  import opened Machine

  // The distinct elements of a log, in order of first appearance.
  function Distinct<T(==)>(log: seq<T>): seq<T> {
    if log == [] then []
    else
      var ds := Distinct(log[..|log| - 1]);
      var x := log[|log| - 1];
      if x in ds then ds else ds + [x]
  }

  ghost predicate NoDuplicates<T>(s: seq<T>) {
    forall i, j :: 0 <= i < j < |s| ==> s[i] != s[j]
  }

  lemma {:induction false} DistinctIsSound<T>(log: seq<T>)
    ensures NoDuplicates(Distinct(log)) && |Distinct(log)| <= |log|
    ensures forall x :: x in Distinct(log) <==> x in log
  {
    if log != [] {
      DistinctIsSound(log[..|log| - 1]);
      assert log == log[..|log| - 1] + [log[|log| - 1]];
    }
  }

  function IndexIn<T(==)>(ds: seq<T>, x: T): (i: nat)
    requires x in ds
    ensures i < |ds| && ds[i] == x
  {
    if ds[0] == x then 0 else 1 + IndexIn(ds[1..], x)
  }

  // Number `first` goes to the first element, then counting up with wrap-around.
  function Numbering<T(==)>(ds: seq<T>, first: nat): (ids: map<T, uint32>)
    ensures ids.Keys == set x | x in ds
  {
    map x | x in ds :: WrapU32(first + IndexIn(ds, x))
  }

  lemma {:induction false} IndexInPrefix<T>(ds: seq<T>, x: T, y: T)
    requires x in ds
    ensures IndexIn(ds + [y], x) == IndexIn(ds, x)
  {
    if ds[0] != x {
      IndexInPrefix(ds[1..], x, y);
      assert (ds + [y])[1..] == ds[1..] + [y];
    }
  }

  lemma {:induction false} IndexOfLast<T>(ds: seq<T>, y: T)
    requires y !in ds
    ensures IndexIn(ds + [y], y) == |ds|
  {
    if ds != [] {
      IndexOfLast(ds[1..], y);
      assert (ds + [y])[1..] == ds[1..] + [y];
    }
  }

  // Numbering one more element changes no number and gives it the next one.
  lemma NumberingExtends<T>(ds: seq<T>, y: T, first: nat)
    requires y !in ds
    ensures Numbering(ds + [y], first) == Numbering(ds, first)[y := WrapU32(first + |ds|)]
  {
    IndexOfLast(ds, y);
    forall x | x in ds
      ensures IndexIn(ds + [y], x) == IndexIn(ds, x)
    {
      IndexInPrefix(ds, x, y);
    }
  }

  ghost predicate Injective<T>(ids: map<T, uint32>) {
    forall x, y :: x in ids && y in ids && ids[x] == ids[y] ==> x == y
  }

  lemma IndexOfElement<T>(ds: seq<T>, i: nat)
    requires NoDuplicates(ds) && i < |ds|
    ensures IndexIn(ds, ds[i]) == i
  {
    var k := IndexIn(ds, ds[i]);
  }

  lemma WrapSeparates(a: nat, b: nat)
    requires -TWO_TO_32 < a - b < TWO_TO_32
    ensures WrapU32(a) == WrapU32(b) ==> a == b
  {
  }

  lemma NumbersSeparate<T>(ds: seq<T>, first: nat, x: T, y: T)
    requires |ds| <= TWO_TO_32 && x in ds && y in ds
    ensures Numbering(ds, first)[x] == Numbering(ds, first)[y] ==> x == y
  {
    WrapSeparates(first + IndexIn(ds, x), first + IndexIn(ds, y));
    hide WrapU32;
  }

  lemma NumbersCollide<T>(ds: seq<T>, first: nat)
    requires NoDuplicates(ds) && TWO_TO_32 < |ds|
    ensures Numbering(ds, first)[ds[0]] == Numbering(ds, first)[ds[TWO_TO_32]]
  {
    IndexOfElement(ds, 0);
    IndexOfElement(ds, TWO_TO_32);
    assert WrapU32(first) == WrapU32(first + TWO_TO_32);
    hide WrapU32;
  }

  // Numbers tell elements apart exactly up to 2^32 of them.
  lemma InjectiveIff<T>(ds: seq<T>, first: nat)
    requires NoDuplicates(ds)
    ensures Injective(Numbering(ds, first)) <==> |ds| <= TWO_TO_32
  {
    hide WrapU32;
    var ids := Numbering(ds, first);
    if |ds| <= TWO_TO_32 {
      forall x, y | x in ids && y in ids
        ensures ids[x] == ids[y] ==> x == y
      {
        NumbersSeparate(ds, first, x, y);
      }
    } else {
      NumbersCollide(ds, first);
      assert ds[0] in ids && ds[TWO_TO_32] in ids && ds[0] != ds[TWO_TO_32];
    }
  }
}
