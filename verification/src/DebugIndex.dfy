/**
 The two-way map between source locations and addresses (src/dwarf/index.rs), against
 the log of the rows inserted into it.
 */
module DebugIndex {
  import opened Wrappers
  import opened Machine
  import opened Interning

  type FileId = uint32

  datatype LineKey = LineKey(file: FileId, line: LineNo)

  // One call of `insert`.
  datatype Row = Row(address: Address, path: Path, line: LineNo)

  datatype Maps = Maps(
    currentId: FileId,
    fileIds: map<Path, FileId>,
    lineToAddress: map<LineKey, Address>,
    addressToLine: map<Address, LineKey>)

  // `order` is the order in which the hash map of file IDs happens to iterate.
  datatype DwarfIndex = DwarfIndex(
    fileIds: map<Path, FileId>,
    lineToAddress: map<LineKey, Address>,
    addressToLine: map<Address, LineKey>,
    order: seq<Path>)

  function Inserted(m: Maps, row: Row): Maps {
    var m := if row.path in m.fileIds then m
             else var id := WrapU32(m.currentId + 1); m.(currentId := id, fileIds := m.fileIds[row.path := id]);
    var key := LineKey(m.fileIds[row.path], row.line);
    m.(lineToAddress := m.lineToAddress[key := row.address], addressToLine := m.addressToLine[row.address := key])
  }

  function Built(log: seq<Row>): Maps {
    if log == [] then Maps(0, map[], map[], map[]) else Inserted(Built(log[..|log| - 1]), log[|log| - 1])
  }

  // `index` is what `build` may return after inserting `log`.
  ghost predicate Indexes(index: DwarfIndex, log: seq<Row>) {
    && index.fileIds == Built(log).fileIds
    && index.lineToAddress == Built(log).lineToAddress
    && index.addressToLine == Built(log).addressToLine
    && forall p :: p in index.order <==> p in index.fileIds
  }

  class DwarfIndexBuilder {
    var currentId: FileId
    var fileIds: map<Path, FileId>
    var lineToAddress: map<LineKey, Address>
    var addressToLine: map<Address, LineKey>

    ghost function Value(): Maps
      reads this
    {
      Maps(currentId, fileIds, lineToAddress, addressToLine)
    }

    constructor ()
      ensures Value() == Built([])
    {
      currentId, fileIds, lineToAddress, addressToLine := 0, map[], map[], map[];
    }

    method Insert(address: Address, path: Path, line: LineNo)
      modifies this
      ensures Value() == Inserted(old(Value()), Row(address, path, line))
    {
      if path !in fileIds {
        currentId := WrapU32(currentId + 1);
        fileIds := fileIds[path := currentId];
      }
      var key := LineKey(fileIds[path], line);
      lineToAddress := lineToAddress[key := address];
      addressToLine := addressToLine[address := key];
    }

    method Build() returns (index: DwarfIndex)
      ensures index == DwarfIndex(fileIds, lineToAddress, addressToLine, index.order)
      ensures forall p :: p in index.order <==> p in fileIds
    {
      var order, rest := [], fileIds.Keys;
      while rest != {}
        invariant forall p :: p in fileIds <==> p in order || p in rest
        decreases rest
      {
        var p :| p in rest;
        order, rest := order + [p], rest - {p};
      }
      index := DwarfIndex(fileIds, lineToAddress, addressToLine, order);
    }
  }

  // The loop of the DWARF reader that inserts every row it finds (src/dwarf/parse.rs).
  method IndexRows(log: seq<Row>) returns (index: DwarfIndex)
    ensures Indexes(index, log)
  {
    var builder := new DwarfIndexBuilder();
    for i := 0 to |log|
      invariant fresh(builder)
      invariant builder.Value() == Built(log[..i])
    {
      builder.Insert(log[i].address, log[i].path, log[i].line);
      assert log[..i + 1][..i] == log[..i];
    }
    assert log[..|log|] == log;
    index := builder.Build();
  }

  // Lookups

  predicate IsGreatest(s: set<Address>, k: Address) {
    k in s && forall j :: j in s ==> j <= k
  }

  lemma {:induction false} GreatestExists(s: set<Address>)
    requires s != {}
    ensures exists k :: IsGreatest(s, k)
  {
    var k :| k in s;
    if s == {k} {
      assert IsGreatest(s, k);
    } else {
      GreatestExists(s - {k});
      var m :| IsGreatest(s - {k}, m);
      assert forall j :: j in s ==> j == k || j in s - {k};
      assert if k < m then IsGreatest(s, m) else IsGreatest(s, k);
    }
  }

  // The greatest key not above `a`: `range(..=a).next_back()` of a B-tree map.
  function FloorKey(keys: set<Address>, a: Address): (r: Option<Address>)
    ensures r.Some? ==> r.value in keys && r.value <= a && forall k :: k in keys && k <= a ==> k <= r.value
    ensures r.None? ==> forall k :: k in keys ==> a < k
  {
    var low := set k | k in keys && k <= a;
    assert forall k :: k in keys && k <= a ==> k in low;
    if low == {} then None
    else
      GreatestExists(low);
      var k :| k in low && IsGreatest(low, k);
      Some(k)
  }

  // `file_ids.iter().find(..)`: the first path in iteration order that has the ID.
  function FindPath(order: seq<Path>, fileIds: map<Path, FileId>, id: FileId): Option<Path> {
    if order == [] then None
    else if order[0] in fileIds && fileIds[order[0]] == id then Some(order[0])
    else FindPath(order[1..], fileIds, id)
  }

  function GetAddress(index: DwarfIndex, path: Path, line: LineNo): Option<Address> {
    if path !in index.fileIds then None
    else
      var key := LineKey(index.fileIds[path], line);
      if key in index.lineToAddress then Some(index.lineToAddress[key]) else None
  }

  function ResolveAddress(index: DwarfIndex, a: Address): Option<(Path, LineNo)> {
    var k :- FloorKey(index.addressToLine.Keys, a);
    var key := index.addressToLine[k];
    var path :- FindPath(index.order, index.fileIds, key.file);
    Some((path, key.line))
  }

  // The log read directly

  function Paths(log: seq<Row>): seq<Path> {
    seq(|log|, i requires 0 <= i < |log| => log[i].path)
  }

  function FileCount(log: seq<Row>): nat {
    |Distinct(Paths(log))|
  }

  // Row `i` is the last one for this source location.
  ghost predicate IsLastOf(log: seq<Row>, path: Path, line: LineNo, i: nat) {
    && i < |log| && log[i].path == path && log[i].line == line
    && forall j :: i < j < |log| ==> log[j].path != path || log[j].line != line
  }

  ghost predicate IsLastAt(log: seq<Row>, a: Address, i: nat) {
    && i < |log| && log[i].address == a
    && forall j :: i < j < |log| ==> log[j].address != a
  }

  // Row `i` is the last one at the greatest inserted address not above `a`.
  ghost predicate IsFloorRow(log: seq<Row>, a: Address, i: nat) {
    && i < |log| && log[i].address <= a
    && (forall j :: 0 <= j < |log| && log[j].address <= a ==> log[j].address <= log[i].address)
    && IsLastAt(log, log[i].address, i)
  }

  lemma WrapNext(n: nat)
    ensures WrapU32(WrapU32(n) + 1) == WrapU32(1 + n)
  {
  }

  // File IDs number the paths from 1 in order of first appearance.
  lemma {:induction false} FileIdsNumberPaths(log: seq<Row>)
    ensures Built(log).fileIds == Numbering(Distinct(Paths(log)), 1)
    ensures Built(log).currentId == WrapU32(FileCount(log))
  {
    if log != [] {
      var before, row := log[..|log| - 1], log[|log| - 1];
      FileIdsNumberPaths(before);
      assert Paths(log)[..|log| - 1] == Paths(before) && Paths(log)[|log| - 1] == row.path;
      var ds := Distinct(Paths(before));
      WrapNext(|ds|);
      hide WrapU32, Numbering, Paths;
      if row.path !in ds {
        NumberingExtends(ds, row.path, 1);
      }
    }
  }

  // Two inserted files never share an ID as long as there are at most 2^32 of them, and only then.
  lemma FileIdsInjectiveIff(log: seq<Row>)
    ensures Injective(Built(log).fileIds) <==> FileCount(log) <= TWO_TO_32
    ensures forall p :: p in Built(log).fileIds <==> p in Paths(log)
  {
    FileIdsNumberPaths(log);
    DistinctIsSound(Paths(log));
    InjectiveIff(Distinct(Paths(log)), 1);
  }

  // What one key of each map holds: the last row that wrote it

  ghost predicate HoldsLastAt(m: Maps, log: seq<Row>, a: Address, i: int) {
    if a in m.addressToLine then
      0 <= i && IsLastAt(log, a, i) && log[i].path in m.fileIds &&
      m.addressToLine[a] == LineKey(m.fileIds[log[i].path], log[i].line)
    else
      forall j :: 0 <= j < |log| ==> log[j].address != a
  }

  lemma {:induction false} AddressEntry(log: seq<Row>, a: Address) returns (i: int)
    ensures HoldsLastAt(Built(log), log, a, i)
  {
    i := -1;
    if log != [] {
      i := AddressEntry(log[..|log| - 1], a);
      if log[|log| - 1].address == a {
        i := |log| - 1;
      }
    }
  }

  ghost predicate HoldsLastOf(m: Maps, log: seq<Row>, path: Path, line: LineNo, i: int)
    requires path in m.fileIds
  {
    var key := LineKey(m.fileIds[path], line);
    if key in m.lineToAddress then
      0 <= i && IsLastOf(log, path, line, i) && m.lineToAddress[key] == log[i].address
    else
      forall j :: 0 <= j < |log| ==> log[j].path != path || log[j].line != line
  }

  // Every stored key carries the ID of an inserted path.
  lemma {:induction false} StoredFilesAreInserted(log: seq<Row>, key: LineKey)
    requires key in Built(log).lineToAddress
    ensures key.file in Built(log).fileIds.Values
  {
    var m, before, row := Built(log), Built(log[..|log| - 1]), log[|log| - 1];
    assert row.path in m.fileIds;
    if key in before.lineToAddress {
      StoredFilesAreInserted(log[..|log| - 1], key);
      var p :| p in before.fileIds && before.fileIds[p] == key.file;
      assert p in m.fileIds && m.fileIds[p] == key.file;
    }
  }

  // The row that first mentions a path finds none of the path's keys in the map.
  lemma NewFileHasNoKeys(before: seq<Row>, row: Row, line: LineNo)
    requires var m := Inserted(Built(before), row); Injective(m.fileIds)
    requires row.path !in Built(before).fileIds
    ensures LineKey(Inserted(Built(before), row).fileIds[row.path], line) !in Built(before).lineToAddress
  {
    var m, m0 := Inserted(Built(before), row), Built(before);
    var key := LineKey(m.fileIds[row.path], line);
    forall p | p in m0.fileIds
      ensures m0.fileIds[p] != key.file
    {
      assert p in m.fileIds && m.fileIds[p] == m0.fileIds[p] && p != row.path;
    }
    if key in m0.lineToAddress {
      StoredFilesAreInserted(before, key);
    }
  }

  // One insertion moves the last row of its own location and of no other.
  lemma InsertedHoldsLastOf(m: Maps, log: seq<Row>, row: Row, path: Path, line: LineNo, i: int)
    requires path in m.fileIds && HoldsLastOf(m, log, path, line, i)
    requires var ids := Inserted(m, row).fileIds; row.path != path ==> ids[path] != ids[row.path]
    ensures HoldsLastOf(Inserted(m, row), log + [row], path, line,
                        if row.path == path && row.line == line then |log| else i)
  {
    var all := log + [row];
    assert all[|log|] == row && forall j :: 0 <= j < |log| ==> all[j] == log[j];
  }

  lemma SmallerIsInjective(ids: map<Path, FileId>, more: map<Path, FileId>)
    requires Injective(more) && forall p :: p in ids ==> p in more && more[p] == ids[p]
    ensures Injective(ids)
  {
    forall p, q | p in ids && q in ids && ids[p] == ids[q]
      ensures p == q
    {
      assert more[p] == more[q];
    }
  }

  lemma {:induction false} NoRowsOf(log: seq<Row>, path: Path)
    requires path !in Built(log).fileIds
    ensures forall j :: 0 <= j < |log| ==> log[j].path != path
  {
    if log != [] {
      NoRowsOf(log[..|log| - 1], path);
    }
  }

  lemma {:induction false} LineEntry(log: seq<Row>, path: Path, line: LineNo) returns (i: int)
    requires path in Built(log).fileIds && Injective(Built(log).fileIds)
    ensures HoldsLastOf(Built(log), log, path, line, i)
  {
    var before, row := log[..|log| - 1], log[|log| - 1];
    var m0, m := Built(before), Built(log);
    assert log == before + [row];
    if path in m0.fileIds {
      SmallerIsInjective(m0.fileIds, m.fileIds);
      i := LineEntry(before, path, line);
      InsertedHoldsLastOf(m0, before, row, path, line, i);
      i := if row.path == path && row.line == line then |before| else i;
    } else {
      NewFileHasNoKeys(before, row, line);
      NoRowsOf(before, path);
      i := if row.line == line then |before| else -1;
    }
  }

  // Lookups agree with the log

  lemma {:induction false} FindPathFinds(order: seq<Path>, fileIds: map<Path, FileId>, p: Path)
    requires Injective(fileIds) && p in order && p in fileIds
    ensures FindPath(order, fileIds, fileIds[p]) == Some(p)
  {
    if order[0] !in fileIds || fileIds[order[0]] != fileIds[p] {
      FindPathFinds(order[1..], fileIds, p);
    }
  }

  // `resolve_address` gives the location of the last row at the greatest inserted address
  // not above `a`, for every hash order, and nothing exactly when all rows are above `a`.
  lemma ResolveIsFloorScan(log: seq<Row>, index: DwarfIndex, a: Address)
    requires Indexes(index, log) && FileCount(log) <= TWO_TO_32
    ensures match ResolveAddress(index, a)
            case None => forall j :: 0 <= j < |log| ==> a < log[j].address
            case Some((path, line)) =>
              exists i: nat :: IsFloorRow(log, a, i) && log[i].path == path && log[i].line == line
  {
    FileIdsInjectiveIff(log);
    var floor := FloorKey(index.addressToLine.Keys, a);
    forall j | 0 <= j < |log|
      ensures log[j].address in index.addressToLine
    {
      var _ := AddressEntry(log, log[j].address);
    }
    if floor.Some? {
      var i := AddressEntry(log, floor.value);
      FindPathFinds(index.order, index.fileIds, log[i].path);
      assert IsFloorRow(log, a, i);
    }
  }

  // There is only one such row, so the scan determines the result.
  lemma FloorRowUnique(log: seq<Row>, a: Address, i: nat, j: nat)
    requires IsFloorRow(log, a, i) && IsFloorRow(log, a, j)
    ensures i == j
  {
  }

  // `get_address` gives the address of the last row for the location.
  lemma GetIsLastScan(log: seq<Row>, index: DwarfIndex, path: Path, line: LineNo)
    requires Indexes(index, log) && FileCount(log) <= TWO_TO_32
    ensures match GetAddress(index, path, line)
            case None => forall j :: 0 <= j < |log| ==> log[j].path != path || log[j].line != line
            case Some(a) => exists i: nat :: IsLastOf(log, path, line, i) && log[i].address == a
  {
    FileIdsInjectiveIff(log);
    if path in index.fileIds {
      var i := LineEntry(log, path, line);
    } else {
      NoRowsOf(log, path);
    }
  }

  // A location that a lookup returns can be looked up, and an address that a lookup
  // returns resolves at itself.
  lemma LookupsAreClosed(log: seq<Row>, index: DwarfIndex, a: Address, path: Path, line: LineNo)
    requires Indexes(index, log) && FileCount(log) <= TWO_TO_32
    ensures ResolveAddress(index, a) == Some((path, line)) ==> GetAddress(index, path, line).Some?
    ensures GetAddress(index, path, line) == Some(a) ==>
              a in index.addressToLine && FloorKey(index.addressToLine.Keys, a) == Some(a) &&
              ResolveAddress(index, a).Some?
  {
    ResolveIsFloorScan(log, index, a);
    GetIsLastScan(log, index, path, line);
    if GetAddress(index, path, line) == Some(a) {
      var _ := AddressEntry(log, a);
    }
  }

  // Going from a location to its address and back returns to the location exactly when
  // no later row put another location at that address.
  lemma RoundTripIff(log: seq<Row>, index: DwarfIndex, path: Path, line: LineNo, i: nat)
    requires Indexes(index, log) && FileCount(log) <= TWO_TO_32
    requires IsLastOf(log, path, line, i)
    ensures GetAddress(index, path, line) == Some(log[i].address)
    ensures ResolveAddress(index, log[i].address) == Some((path, line)) <==>
            forall j :: i < j < |log| ==> log[j].address != log[i].address
  {
    GetIsLastScan(log, index, path, line);
    var a := log[i].address;
    ResolveIsFloorScan(log, index, a);
    if IsLastAt(log, a, i) {
      assert IsFloorRow(log, a, i);
    }
  }

  // Going from an inserted address to its location and back returns to the address exactly
  // when no later row gave that location another address.
  lemma AddressRoundTripIff(log: seq<Row>, index: DwarfIndex, a: Address, i: nat)
    requires Indexes(index, log) && FileCount(log) <= TWO_TO_32
    requires IsLastAt(log, a, i)
    ensures ResolveAddress(index, a) == Some((log[i].path, log[i].line))
    ensures GetAddress(index, log[i].path, log[i].line) == Some(a) <==>
            forall j :: i < j < |log| ==> log[j].path != log[i].path || log[j].line != log[i].line
  {
    ResolveIsFloorScan(log, index, a);
    GetIsLastScan(log, index, log[i].path, log[i].line);
    assert IsFloorRow(log, a, i);
  }
}
