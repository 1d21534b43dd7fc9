/** Memory references and register values as text (src/debugger/core.rs, src/debugger/requests.rs). */
module MemoryRefs {
  import opened Wrappers
  import opened Machine
  import opened Text

  datatype MemoryRef = Physical(base: Address) | Virtual(cpu: CpuId, base: Address)

  const DELIM := ':'

  function ToString(m: MemoryRef): string {
    match m
    case Physical(a) => "phys" + [DELIM] + ShowHex(a)
    case Virtual(cpu, a) => "virt" + [DELIM] + (Show(cpu, 10) + [DELIM] + ShowHex(a))
  }

  function ParseHex(s: string): Option<uint64> {
    FromStrRadix(TrimHexPrefix(s), 16)
  }

  // `MemoryRef::parse`; parts after the address are not looked at.
  function Parse(s: string): Option<MemoryRef> {
    var parts := Split(s, DELIM);
    if parts[0] == "phys" then
      if |parts| < 2 then None
      else
        var a :- ParseHex(parts[1]);
        Some(Physical(a))
    else if parts[0] == "virt" then
      if |parts| < 2 then None
      else
        var cpu :- FromStrRadix(parts[1], 10);
        if |parts| < 3 then None
        else
          var a :- ParseHex(parts[2]);
          Some(Virtual(cpu, a))
    else None
  }

  lemma {:induction false} DigitsHaveNo(s: string, radix: nat, c: char)
    requires AllDigits(s, radix) && DigitValue(c, radix).None?
    ensures c !in s
  {
  }

  lemma NoHexPrefix(s: string)
    requires 'x' !in s
    ensures TrimHexPrefix(s) == s
  {
    if |s| >= 2 {
      assert s[1] in s;
    }
  }

  // Printed digits contain neither 'x' nor the delimiter, so exactly one prefix is trimmed.
  lemma ParseHexOfShowHex(a: uint64)
    ensures ParseHex(ShowHex(a)) == Some(a) && DELIM !in ShowHex(a)
  {
    var digits := Show(a, 16);
    ShowRoundTrip(a, 16);
    DigitsHaveNo(digits, 16, 'x');
    DigitsHaveNo(digits, 16, DELIM);
    ParsesWhatIsShown(a, 16);
    hide Show, FromStrRadix, AllDigits, DigitValue, DigitsValue;
    NoHexPrefix(digits);
    assert ShowHex(a)[2..] == digits;
    assert DELIM !in "0x";
  }

  lemma CpuRoundTrip(cpu: CpuId)
    ensures FromStrRadix(Show(cpu, 10), 10) == Some(cpu) && DELIM !in Show(cpu, 10)
  {
    ShowRoundTrip(cpu, 10);
    DigitsHaveNo(Show(cpu, 10), 10, DELIM);
    ParsesWhatIsShown(cpu, 10);
  }

  lemma MemoryRefRoundTrip(m: MemoryRef)
    ensures Parse(ToString(m)) == Some(m)
  {
    hide ParseHex, ShowHex, Show, FromStrRadix, Split;
    ParseHexOfShowHex(m.base);
    if m.Virtual? {
      CpuRoundTrip(m.cpu);
    }
    SplitWithoutDelim(ShowHex(m.base), DELIM);
    match m
    case Physical(a) =>
      SplitAtDelim("phys", ShowHex(a), DELIM);
      assert Split(ToString(m), DELIM) == ["phys", ShowHex(a)];
    case Virtual(cpu, a) =>
      SplitAtDelim(Show(cpu, 10), ShowHex(a), DELIM);
      SplitAtDelim("virt", Show(cpu, 10) + [DELIM] + ShowHex(a), DELIM);
      assert Split(ToString(m), DELIM) == ["virt", Show(cpu, 10), ShowHex(a)];
  }

  // Which texts are accepted, as a grammar: any number of "0x" before the digits, and
  // anything at all after a delimiter that follows the address.

  predicate IsHexText(f: string, n: nat, digits: string, a: uint64) {
    f == Repeat(n) + digits && !("0x" <= digits) && FromStrRadix(digits, 16) == Some(a)
  }

  ghost predicate IsHexField(f: string, a: uint64) {
    DELIM !in f && exists n, digits :: IsHexText(f, n, digits, a)
  }

  predicate IsIgnored(rest: string) {
    rest == [] || rest[0] == DELIM
  }

  predicate IsPhysText(s: string, f: string, rest: string) {
    s == "phys" + [DELIM] + (f + rest) && IsIgnored(rest)
  }

  predicate IsVirtText(s: string, c: string, f: string, rest: string) {
    s == "virt" + [DELIM] + (c + [DELIM] + (f + rest)) && DELIM !in c && IsIgnored(rest)
  }

  ghost predicate Denotes(s: string, m: MemoryRef) {
    match m
    case Physical(a) => exists f, rest :: IsPhysText(s, f, rest) && IsHexField(f, a)
    case Virtual(cpu, a) =>
      exists c, f, rest :: IsVirtText(s, c, f, rest) && FromStrRadix(c, 10) == Some(cpu) && IsHexField(f, a)
  }

  lemma HexFieldIff(f: string, a: uint64)
    requires DELIM !in f
    ensures ParseHex(f) == Some(a) <==> IsHexField(f, a)
  {
    hide FromStrRadix;
    var n := TrimDecomposes(f);
    if ParseHex(f) == Some(a) {
      assert IsHexText(f, n, TrimHexPrefix(f), a);
    }
    if IsHexField(f, a) {
      var m, digits :| IsHexText(f, m, digits, a);
      TrimStrips(m, digits);
    }
  }

  lemma LastField(f: string, rest: string)
    requires DELIM !in f && IsIgnored(rest)
    ensures Split(f + rest, DELIM)[0] == f
  {
    if rest == [] {
      assert f + rest == f;
      SplitWithoutDelim(f, DELIM);
    } else {
      SplitAtDelim(f, rest[1..], DELIM);
      assert f + rest == f + [DELIM] + rest[1..];
    }
  }

  lemma FieldOf(s: string) returns (rest: string)
    ensures s == Split(s, DELIM)[0] + rest && IsIgnored(rest) && DELIM !in Split(s, DELIM)[0]
  {
    var tail := SplitHead(s, DELIM);
    rest := if |Split(s, DELIM)| == 1 then "" else [DELIM] + tail;
  }

  lemma DenotedIsParsed(s: string, m: MemoryRef)
    requires Denotes(s, m)
    ensures Parse(s) == Some(m)
  {
    hide FromStrRadix, ParseHex, Split;
    match m
    case Physical(a) =>
      var f, rest :| IsPhysText(s, f, rest) && IsHexField(f, a);
      SplitAtDelim("phys", f + rest, DELIM);
      LastField(f, rest);
      HexFieldIff(f, a);
    case Virtual(cpu, a) =>
      var c, f, rest :| IsVirtText(s, c, f, rest) && FromStrRadix(c, 10) == Some(cpu) && IsHexField(f, a);
      SplitAtDelim("virt", c + [DELIM] + (f + rest), DELIM);
      SplitAtDelim(c, f + rest, DELIM);
      LastField(f, rest);
      HexFieldIff(f, a);
      assert Split(s, DELIM)[1..] == [c] + Split(f + rest, DELIM);
  }

  lemma ParsedIsDenoted(s: string, m: MemoryRef)
    requires Parse(s) == Some(m)
    ensures Denotes(s, m)
  {
    hide FromStrRadix, ParseHex, Split, IsHexField;
    var tail := SplitHead(s, DELIM);
    if m.Physical? {
      var rest := FieldOf(tail);
      HexFieldIff(Split(tail, DELIM)[0], m.base);
      assert IsPhysText(s, Split(tail, DELIM)[0], rest);
    } else {
      var tail2 := SplitHead(tail, DELIM);
      var rest := FieldOf(tail2);
      assert Split(s, DELIM)[1..][1..] == Split(tail2, DELIM);
      HexFieldIff(Split(tail2, DELIM)[0], m.base);
      assert IsVirtText(s, Split(tail, DELIM)[0], Split(tail2, DELIM)[0], rest);
    }
  }

  // `parse` succeeds on exactly the texts of the grammar, with the reference they denote.
  lemma ParseIffDenotes(s: string, m: MemoryRef)
    ensures Parse(s) == Some(m) <==> Denotes(s, m)
  {
    hide Parse, Denotes;
    if Parse(s) == Some(m) {
      ParsedIsDenoted(s, m);
    }
    if Denotes(s, m) {
      DenotedIsParsed(s, m);
    }
  }

  // The value text of `setVariable`.
  function ParseValue(s: string): Option<uint64> {
    if "0x" <= s then FromStrRadix(s[2..], 16)
    else if "0b" <= s then FromStrRadix(s[2..], 2)
    else FromStrRadix(s, 10)
  }

  predicate IsSigned(s: string, digits: string) {
    s == digits || s == "+" + digits
  }

  // A number in one radix: an optional plus, and at least one digit.
  ghost predicate IsNumber(s: string, radix: nat, v: uint64) {
    exists digits ::
      IsSigned(s, digits) && digits != [] && AllDigits(digits, radix) && DigitsValue(digits, radix) == Some(v)
  }

  lemma {:induction false} DigitsValueIff(s: string, radix: nat)
    ensures DigitsValue(s, radix).Some? <==> AllDigits(s, radix)
  {
    hide DigitValue;
    if s != [] {
      DigitsValueIff(s[..|s| - 1], radix);
      assert forall i :: 0 <= i < |s| - 1 ==> s[..|s| - 1][i] == s[i];
    }
  }

  lemma NumberIff(s: string, radix: nat, v: uint64)
    ensures FromStrRadix(s, radix) == Some(v) <==> IsNumber(s, radix, v)
  {
    var digits := if s != [] && s[0] == '+' then s[1..] else s;
    DigitsValueIff(digits, radix);
    if FromStrRadix(s, radix) == Some(v) {
      assert IsSigned(s, digits);
    }
    if IsNumber(s, radix, v) {
      var ds :| IsSigned(s, ds) && ds != [] && AllDigits(ds, radix) && DigitsValue(ds, radix) == Some(v);
      assert DigitValue(ds[0], radix).Some?;
      assert ds == digits;
    }
    hide DigitsValue, AllDigits;
  }

  // A value is written in hexadecimal after "0x", in binary after "0b", or in decimal.
  ghost predicate DenotesValue(s: string, v: uint64) {
    || ("0x" <= s && IsNumber(s[2..], 16, v))
    || ("0b" <= s && IsNumber(s[2..], 2, v))
    || IsNumber(s, 10, v)
  }

  lemma PrefixIsNoDecimal(s: string, v: uint64)
    requires "0x" <= s || "0b" <= s
    ensures !IsNumber(s, 10, v)
  {
    assert s[0] == '0' && (s[1] == 'x' || s[1] == 'b');
    forall digits | IsSigned(s, digits)
      ensures !AllDigits(digits, 10)
    {
      assert digits[1] == s[1] && DigitValue(digits[1], 10).None?;
    }
  }

  // `setVariable` accepts exactly these texts, with the value they denote.
  lemma ParseValueIff(s: string, v: uint64)
    ensures ParseValue(s) == Some(v) <==> DenotesValue(s, v)
  {
    hide FromStrRadix, IsNumber;
    if "0x" <= s {
      assert s[1] == 'x' && !("0b" <= s);
      NumberIff(s[2..], 16, v);
      PrefixIsNoDecimal(s, v);
    } else if "0b" <= s {
      NumberIff(s[2..], 2, v);
      PrefixIsNoDecimal(s, v);
    } else {
      NumberIff(s, 10, v);
    }
  }

  lemma BinaryTextRoundTrip(v: uint64)
    ensures ParseValue("0b" + Show(v, 2)) == Some(v)
  {
    ParsesWhatIsShown(v, 2);
    hide FromStrRadix, Show;
    var s := "0b" + Show(v, 2);
    assert s[1] == 'b' && s[2..] == Show(v, 2);
  }

  lemma DecimalTextRoundTrip(v: uint64)
    ensures ParseValue(Show(v, 10)) == Some(v)
  {
    ParsesWhatIsShown(v, 10);
    ShowRoundTrip(v, 10);
    hide FromStrRadix, Show, DigitsValue;
    var digits := Show(v, 10);
    assert |digits| > 1 ==> DigitValue(digits[1], 10).Some?;
  }

  // The text `variables` shows for a value, or `setVariable` answers for an accepted
  // input, denotes that value again; so do its binary and its decimal text.
  lemma ValueTextRoundTrip(v: uint64)
    ensures ParseValue(ShowHex(v)) == Some(v)
    ensures ParseValue("0b" + Show(v, 2)) == Some(v) && ParseValue(Show(v, 10)) == Some(v)
  {
    ParsesWhatIsShown(v, 16);
    BinaryTextRoundTrip(v);
    DecimalTextRoundTrip(v);
    hide FromStrRadix, Show;
    assert ShowHex(v)[2..] == Show(v, 16);
  }
}
