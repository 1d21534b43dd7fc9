/** The names of registers (src/target/msim_target.rs): the tables of each architecture and the lookups in them. */
module Registers {
  import opened Wrappers
  import opened Machine
  import opened Interning

  datatype CpuArch = Mips | RiscV32 | RiscV64 | UnknownCpuArch

  const GENERAL_REGISTER_COUNT: uint64 := 32

  const PC_NAME := "pc"

  const MIPS_GENERAL_NAMES: seq<string> := [
    "0", "at", "v0", "v1", "a0", "a1", "a2", "a3", "t0", "t1", "t2", "t3", "t4", "t5", "t6", "t7", "s0", "s1",
    "s2", "s3", "s4", "s5", "s6", "s7", "t8", "t9", "k0", "k1", "gp", "sp", "fp", "ra"]

  const RISCV_GENERAL_NAMES: seq<string> := [
    "zero", "ra", "sp", "gp", "tp", "t0", "t1", "t2", "s0/fp", "s1", "a0", "a1", "a2", "a3", "a4", "a5", "a6",
    "a7", "s2", "s3", "s4", "s5", "s6", "s7", "s8", "s9", "s10", "s11", "t3", "t4", "t5", "t6"]

  const MIPS_CSRS: seq<(uint64, string)> := [
    (0, "index"), (1, "random"), (2, "entrylo0"), (3, "entrylo1"), (4, "context"), (5, "pagemask"),
    (6, "wired"), (7, "res_7"), (8, "badvaddr"), (9, "count"), (10, "entryhi"), (11, "compare"),
    (12, "status"), (13, "cause"), (14, "epc"), (15, "prid"), (16, "config"), (17, "lladdr"), (18, "watchlo"),
    (19, "watchhi"), (20, "xcontext"), (21, "res_21"), (22, "res_22"), (23, "res_23"), (24, "res_24"),
    (25, "res_25"), (26, "res_26"), (27, "res_27"), (28, "res_28"), (29, "res_29"), (30, "errorepc"),
    (31, "res_31")]

  const RISCV_CSRS: seq<(uint64, string)> := [
    (0xC00, "cycle"), (0xC01, "time"), (0x300, "mstatus"), (0x302, "medeleg"), (0x303, "mideleg"),
    (0x304, "mie"), (0x305, "mtvec"), (0x306, "mcounteren"), (0x340, "mscratch"), (0x341, "mepc"),
    (0x342, "mcause"), (0x343, "mtval"), (0x344, "mip"), (0x301, "misa"), (0xF14, "mhartid"),
    (0x100, "sstatus"), (0x104, "sie"), (0x105, "stvec"), (0x106, "scounteren"), (0x140, "sscratch"),
    (0x141, "sepc"), (0x142, "scause"), (0x143, "stval"), (0x144, "sip"), (0x180, "satp"),
    (0x5C0, "scyclecmp")]

  // The names of the general registers, by number.
  function GeneralNames(arch: CpuArch): seq<string> {
    match arch
    case Mips => MIPS_GENERAL_NAMES
    case RiscV32 => RISCV_GENERAL_NAMES
    case RiscV64 => RISCV_GENERAL_NAMES
    case UnknownCpuArch => []
  }

  // The addresses and names of the CSRs, in the order they are listed.
  function Csrs(arch: CpuArch): seq<(uint64, string)> {
    match arch
    case Mips => MIPS_CSRS
    case RiscV32 => RISCV_CSRS
    case RiscV64 => RISCV_CSRS
    case UnknownCpuArch => []
  }

  function CsrIds(arch: CpuArch): seq<uint64> {
    seq(|Csrs(arch)|, i requires 0 <= i < |Csrs(arch)| => Csrs(arch)[i].0)
  }

  function RegName(arch: CpuArch, reg: uint64): Option<string> {
    if reg < |GeneralNames(arch)| then Some(GeneralNames(arch)[reg]) else None
  }

  function FindName(csrs: seq<(uint64, string)>, address: uint64): Option<string> {
    if csrs == [] then None
    else if csrs[0].0 == address then Some(csrs[0].1)
    else FindName(csrs[1..], address)
  }

  function CsrName(arch: CpuArch, address: uint64): Option<string> {
    FindName(Csrs(arch), address)
  }

  function FindPosition(names: seq<string>, name: string): Option<nat> {
    if names == [] then None
    else if names[0] == name then Some(0)
    else var i :- FindPosition(names[1..], name); Some(i + 1)
  }

  // The position as a register number; a table has far fewer than 2^64 entries.
  function NameToRegId(arch: CpuArch, name: string): Option<uint64> {
    var i :- FindPosition(GeneralNames(arch), name);
    Some(WrapU64(i))
  }

  function FindAddress(csrs: seq<(uint64, string)>, name: string): Option<uint64> {
    if csrs == [] then None
    else if csrs[0].1 == name then Some(csrs[0].0)
    else FindAddress(csrs[1..], name)
  }

  function NameToCsrAddr(arch: CpuArch, name: string): Option<uint64> {
    FindAddress(Csrs(arch), name)
  }

  // The tables read from the names' side

  function MipsGeneralNumber(name: string): int {
    match name
    case "0" => 0 case "at" => 1 case "v0" => 2 case "v1" => 3 case "a0" => 4 case "a1" => 5 case "a2" => 6
    case "a3" => 7 case "t0" => 8 case "t1" => 9 case "t2" => 10 case "t3" => 11 case "t4" => 12 case "t5" => 13
    case "t6" => 14 case "t7" => 15 case "s0" => 16 case "s1" => 17 case "s2" => 18 case "s3" => 19 case "s4" => 20
    case "s5" => 21 case "s6" => 22 case "s7" => 23 case "t8" => 24 case "t9" => 25 case "k0" => 26 case "k1" => 27
    case "gp" => 28 case "sp" => 29 case "fp" => 30 case "ra" => 31
    case _ => -1
  }

  function RiscVGeneralNumber(name: string): int {
    match name
    case "zero" => 0 case "ra" => 1 case "sp" => 2 case "gp" => 3 case "tp" => 4 case "t0" => 5 case "t1" => 6
    case "t2" => 7 case "s0/fp" => 8 case "s1" => 9 case "a0" => 10 case "a1" => 11 case "a2" => 12 case "a3" => 13
    case "a4" => 14 case "a5" => 15 case "a6" => 16 case "a7" => 17 case "s2" => 18 case "s3" => 19 case "s4" => 20
    case "s5" => 21 case "s6" => 22 case "s7" => 23 case "s8" => 24 case "s9" => 25 case "s10" => 26
    case "s11" => 27 case "t3" => 28 case "t4" => 29 case "t5" => 30 case "t6" => 31
    case _ => -1
  }

  function MipsCsrPosition(name: string): int {
    match name
    case "index" => 0 case "random" => 1 case "entrylo0" => 2 case "entrylo1" => 3 case "context" => 4
    case "pagemask" => 5 case "wired" => 6 case "res_7" => 7 case "badvaddr" => 8 case "count" => 9
    case "entryhi" => 10 case "compare" => 11 case "status" => 12 case "cause" => 13 case "epc" => 14
    case "prid" => 15 case "config" => 16 case "lladdr" => 17 case "watchlo" => 18 case "watchhi" => 19
    case "xcontext" => 20 case "res_21" => 21 case "res_22" => 22 case "res_23" => 23 case "res_24" => 24
    case "res_25" => 25 case "res_26" => 26 case "res_27" => 27 case "res_28" => 28 case "res_29" => 29
    case "errorepc" => 30 case "res_31" => 31
    case _ => -1
  }

  function RiscVCsrPosition(name: string): int {
    match name
    case "cycle" => 0 case "time" => 1 case "mstatus" => 2 case "medeleg" => 3 case "mideleg" => 4 case "mie" => 5
    case "mtvec" => 6 case "mcounteren" => 7 case "mscratch" => 8 case "mepc" => 9 case "mcause" => 10
    case "mtval" => 11 case "mip" => 12 case "misa" => 13 case "mhartid" => 14 case "sstatus" => 15
    case "sie" => 16 case "stvec" => 17 case "scounteren" => 18 case "sscratch" => 19 case "sepc" => 20
    case "scause" => 21 case "stval" => 22 case "sip" => 23 case "satp" => 24 case "scyclecmp" => 25
    case _ => -1
  }

  function RiscVAddressPosition(address: uint64): int {
    match address
    case 0xC00 => 0 case 0xC01 => 1 case 0x300 => 2 case 0x302 => 3 case 0x303 => 4 case 0x304 => 5 case 0x305 => 6
    case 0x306 => 7 case 0x340 => 8 case 0x341 => 9 case 0x342 => 10 case 0x343 => 11 case 0x344 => 12
    case 0x301 => 13 case 0xF14 => 14 case 0x100 => 15 case 0x104 => 16 case 0x105 => 17 case 0x106 => 18
    case 0x140 => 19 case 0x141 => 20 case 0x142 => 21 case 0x143 => 22 case 0x144 => 23 case 0x180 => 24
    case 0x5C0 => 25
    case _ => -1
  }

  lemma MipsGeneralNumbers()
    ensures |MIPS_GENERAL_NAMES| == GENERAL_REGISTER_COUNT
    ensures forall i :: 0 <= i < |MIPS_GENERAL_NAMES| ==> MipsGeneralNumber(MIPS_GENERAL_NAMES[i]) == i
  {
  }

  lemma RiscVGeneralNumbers()
    ensures |RISCV_GENERAL_NAMES| == GENERAL_REGISTER_COUNT
    ensures forall i :: 0 <= i < |RISCV_GENERAL_NAMES| ==> RiscVGeneralNumber(RISCV_GENERAL_NAMES[i]) == i
  {
  }

  lemma MipsCsrPositions()
    ensures forall i :: 0 <= i < |MIPS_CSRS| ==> MipsCsrPosition(MIPS_CSRS[i].1) == i == MIPS_CSRS[i].0
  {
  }

  lemma RiscVCsrPositions()
    ensures forall i :: 0 <= i < |RISCV_CSRS| ==> RiscVCsrPosition(RISCV_CSRS[i].1) == i
    ensures forall i :: 0 <= i < |RISCV_CSRS| ==> RiscVAddressPosition(RISCV_CSRS[i].0) == i
  {
  }

  // No two general registers of an architecture have the same name.
  lemma GeneralNamesDistinct(arch: CpuArch)
    ensures NoDuplicates(GeneralNames(arch))
    ensures arch != UnknownCpuArch ==> |GeneralNames(arch)| == GENERAL_REGISTER_COUNT
  {
    MipsGeneralNumbers();
    RiscVGeneralNumbers();
    hide MipsGeneralNumber, RiscVGeneralNumber;
    var names := GeneralNames(arch);
    forall i, j | 0 <= i < j < |names|
      ensures names[i] != names[j]
    {
      if arch == Mips {
        assert MipsGeneralNumber(names[i]) == i && MipsGeneralNumber(names[j]) == j;
      } else {
        assert RiscVGeneralNumber(names[i]) == i && RiscVGeneralNumber(names[j]) == j;
      }
    }
  }

  // No two CSRs share a name or an address, and none is named like the program counter.
  ghost predicate IsTable(csrs: seq<(uint64, string)>) {
    && (forall i, j :: 0 <= i < j < |csrs| ==> csrs[i].0 != csrs[j].0 && csrs[i].1 != csrs[j].1)
    && (forall i :: 0 <= i < |csrs| ==> csrs[i].1 != PC_NAME)
  }

  lemma CsrsAreTable(arch: CpuArch)
    ensures IsTable(Csrs(arch))
  {
    MipsCsrPositions();
    RiscVCsrPositions();
    assert MipsCsrPosition(PC_NAME) == -1 == RiscVCsrPosition(PC_NAME);
    hide MipsCsrPosition, RiscVCsrPosition, RiscVAddressPosition;
    var csrs := Csrs(arch);
    forall i, j | 0 <= i < j < |csrs|
      ensures csrs[i].0 != csrs[j].0 && csrs[i].1 != csrs[j].1
    {
      if arch == Mips {
        assert MipsCsrPosition(csrs[i].1) == i && MipsCsrPosition(csrs[j].1) == j;
      } else {
        assert RiscVCsrPosition(csrs[i].1) == i && RiscVCsrPosition(csrs[j].1) == j;
        assert RiscVAddressPosition(csrs[i].0) == i && RiscVAddressPosition(csrs[j].0) == j;
      }
    }
    forall i | 0 <= i < |csrs|
      ensures csrs[i].1 != PC_NAME
    {
      assert if arch == Mips then MipsCsrPosition(csrs[i].1) == i else RiscVCsrPosition(csrs[i].1) == i;
    }
  }

  lemma {:induction false} PositionIff(names: seq<string>, name: string, i: nat)
    requires NoDuplicates(names)
    ensures FindPosition(names, name) == Some(i) <==> i < |names| && names[i] == name
  {
    if names != [] {
      assert forall k :: 0 <= k < |names[1..]| ==> names[1..][k] == names[k + 1];
      if names[0] != name && i > 0 {
        PositionIff(names[1..], name, i - 1);
      }
    }
  }

  // A name stands for the register that is shown under it and for no other, and names of
  // no register are rejected.
  lemma GeneralNameIff(arch: CpuArch, name: string, reg: uint64)
    ensures NameToRegId(arch, name) == Some(reg) <==> RegName(arch, reg) == Some(name)
  {
    GeneralNamesDistinct(arch);
    PositionIff(GeneralNames(arch), name, reg);
    hide GeneralNames, WrapU64;
    var position := FindPosition(GeneralNames(arch), name);
    if position.Some? {
      PositionIff(GeneralNames(arch), name, position.value);
      WrapU64Fits(position.value);
    }
  }

  lemma {:induction false} FindsEntry(csrs: seq<(uint64, string)>, address: uint64, name: string)
    requires IsTable(csrs)
    ensures FindName(csrs, address) == Some(name) <==> (address, name) in csrs
    ensures FindAddress(csrs, name) == Some(address) <==> (address, name) in csrs
  {
    if csrs != [] {
      assert forall k :: 0 <= k < |csrs[1..]| ==> csrs[1..][k] == csrs[k + 1];
      FindsEntry(csrs[1..], address, name);
      assert csrs == [csrs[0]] + csrs[1..];
      if k :| 0 <= k < |csrs[1..]| && csrs[1..][k] == (address, name) {
        assert csrs[k + 1] == (address, name);
      }
    }
  }

  // The same for CSRs; the name of the program counter is none of theirs.
  lemma CsrNameIff(arch: CpuArch, name: string, address: uint64)
    ensures NameToCsrAddr(arch, name) == Some(address) <==> CsrName(arch, address) == Some(name)
    ensures NameToCsrAddr(arch, PC_NAME) == None
  {
    CsrsAreTable(arch);
    FindsEntry(Csrs(arch), address, name);
    hide Csrs;
    var found := NameToCsrAddr(arch, PC_NAME);
    if found.Some? {
      FindsEntry(Csrs(arch), found.value, PC_NAME);
    }
  }

  // Every listed CSR has its name.
  lemma ListedCsrIsNamed(arch: CpuArch, i: nat)
    requires i < |Csrs(arch)|
    ensures CsrIds(arch)[i] == Csrs(arch)[i].0 && CsrName(arch, CsrIds(arch)[i]) == Some(Csrs(arch)[i].1)
    ensures Csrs(arch)[i].1 != PC_NAME
  {
    CsrsAreTable(arch);
    hide Csrs;
    var (address, name) := Csrs(arch)[i];
    assert (address, name) in Csrs(arch);
    FindsEntry(Csrs(arch), address, name);
  }
}
