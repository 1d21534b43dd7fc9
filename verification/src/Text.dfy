/** Printing and parsing of unsigned numbers, as Rust's formatter and `from_str_radix` do it. */
module Text {
  import opened Wrappers
  import opened Machine

  function DigitChar(d: nat): char
    requires d < 16
  {
    "0123456789abcdef"[d]
  }

  function DigitValue(c: char, radix: nat): Option<nat> {
    var d :- if '0' <= c <= '9' then Some(c as int - '0' as int)
             else if 'a' <= c <= 'f' then Some(c as int - 'a' as int + 10)
             else if 'A' <= c <= 'F' then Some(c as int - 'A' as int + 10)
             else None;
    if d < radix then Some(d) else None
  }

  // The digits of both cases, below the radix.
  lemma DigitValueIff(c: char, radix: nat, d: nat)
    ensures DigitValue(c, radix) == Some(d) <==>
              d < radix && d < 16 && (c == "0123456789abcdef"[d] || c == "0123456789ABCDEF"[d])
  {
  }

  predicate IsRadix(radix: nat) {
    radix == 2 || radix == 10 || radix == 16
  }

  // Lower-case digits without leading zeros.
  function Show(x: nat, radix: nat): (s: string)
    requires IsRadix(radix)
    ensures s != []
    decreases x
  {
    (if x < radix then [] else Show(x / radix, radix)) + [DigitChar(x % radix)]
  }

  // `{:#x}`
  function ShowHex(x: nat): string {
    "0x" + Show(x, 16)
  }

  function DigitsValue(s: string, radix: nat): Option<nat> {
    if s == [] then Some(0)
    else
      var high :- DigitsValue(s[..|s| - 1], radix);
      var low :- DigitValue(s[|s| - 1], radix);
      Some(high * radix + low)
  }

  // `u64::from_str_radix`: one leading `+` is allowed, `-` is not, and at least one digit is needed.
  function FromStrRadix(s: string, radix: nat): Option<uint64> {
    var digits := if s != [] && s[0] == '+' then s[1..] else s;
    if digits == [] then None
    else
      var x :- DigitsValue(digits, radix);
      if x < TWO_TO_64 then Some(x) else None
  }

  predicate AllDigits(s: string, radix: nat) {
    forall i :: 0 <= i < |s| ==> DigitValue(s[i], radix).Some?
  }

  lemma DigitRoundTrip(d: nat, radix: nat)
    requires d < radix <= 16
    ensures DigitValue(DigitChar(d), radix) == Some(d)
  {
  }

  lemma DivisionRestores(x: nat, radix: nat)
    requires 0 < radix
    ensures x / radix * radix + x % radix == x
  {
  }

  lemma AppendDigit(high: string, x: nat, d: nat, radix: nat)
    requires d < radix <= 16 && DigitsValue(high, radix) == Some(x) && AllDigits(high, radix)
    ensures DigitsValue(high + [DigitChar(d)], radix) == Some(x * radix + d)
    ensures AllDigits(high + [DigitChar(d)], radix)
  {
    DigitRoundTrip(d, radix);
    hide DigitValue, DigitChar;
    assert (high + [DigitChar(d)])[..|high|] == high;
  }

  lemma NoDigits(radix: nat)
    ensures DigitsValue([], radix) == Some(0) && AllDigits([], radix)
  {
  }

  lemma {:induction false} ShowRoundTrip(x: nat, radix: nat)
    requires IsRadix(radix)
    ensures DigitsValue(Show(x, radix), radix) == Some(x)
    ensures AllDigits(Show(x, radix), radix)
    decreases x
  {
    hide DigitsValue, AllDigits, DigitChar;
    if x < radix {
      NoDigits(radix);
      AppendDigit([], 0, x, radix);
    } else {
      ShowRoundTrip(x / radix, radix);
      AppendDigit(Show(x / radix, radix), x / radix, x % radix, radix);
      DivisionRestores(x, radix);
    }
  }

  // Every printed u64 parses back, in every radix.
  lemma ParsesWhatIsShown(x: uint64, radix: nat)
    requires IsRadix(radix)
    ensures FromStrRadix(Show(x, radix), radix) == Some(x)
  {
    ShowRoundTrip(x, radix);
    assert DigitValue(Show(x, radix)[0], radix).Some?;
  }

  // `str::split`: always at least one part.
  function Split(s: string, delim: char): (parts: seq<string>)
    ensures |parts| >= 1
  {
    if s == [] then [""]
    else if s[0] == delim then [""] + Split(s[1..], delim)
    else
      var parts := Split(s[1..], delim);
      [[s[0]] + parts[0]] + parts[1..]
  }

  // `trim_start_matches("0x")` strips the prefix as often as it occurs.
  function TrimHexPrefix(s: string): string {
    if "0x" <= s then TrimHexPrefix(s[2..]) else s
  }

  lemma {:induction false} SplitAtDelim(head: string, tail: string, delim: char)
    requires delim !in head
    ensures Split(head + [delim] + tail, delim) == [head] + Split(tail, delim)
  {
    var s := head + [delim] + tail;
    if head == [] {
      assert s[1..] == tail;
    } else {
      SplitAtDelim(head[1..], tail, delim);
      assert s[1..] == head[1..] + [delim] + tail;
      assert [head[0]] + head[1..] == head;
    }
  }

  lemma {:induction false} SplitWithoutDelim(s: string, delim: char)
    requires delim !in s
    ensures Split(s, delim) == [s]
  {
    if s != [] {
      SplitWithoutDelim(s[1..], delim);
      assert [s[0]] + s[1..] == s;
    }
  }

  function Repeat(n: nat): string {
    if n == 0 then "" else "0x" + Repeat(n - 1)
  }

  lemma {:induction false} TrimStrips(n: nat, digits: string)
    requires !("0x" <= digits)
    ensures TrimHexPrefix(Repeat(n) + digits) == digits
  {
    var s := Repeat(n) + digits;
    if n == 0 {
      assert s == digits;
    } else {
      TrimStrips(n - 1, digits);
      assert s[2..] == Repeat(n - 1) + digits;
    }
  }

  lemma {:induction false} TrimDecomposes(s: string) returns (n: nat)
    ensures s == Repeat(n) + TrimHexPrefix(s) && !("0x" <= TrimHexPrefix(s))
  {
    n := 0;
    if "0x" <= s {
      n := TrimDecomposes(s[2..]);
      assert s == "0x" + (Repeat(n) + TrimHexPrefix(s[2..])) == "0x" + Repeat(n) + TrimHexPrefix(s[2..]);
      n := n + 1;
    }
  }

  // The first part, and what follows the delimiter after it.
  lemma {:induction false} SplitHead(s: string, delim: char) returns (tail: string)
    ensures delim !in Split(s, delim)[0]
    ensures |Split(s, delim)| == 1 ==> s == Split(s, delim)[0]
    ensures |Split(s, delim)| > 1 ==>
              s == Split(s, delim)[0] + [delim] + tail && Split(s, delim)[1..] == Split(tail, delim)
  {
    tail := "";
    if s != [] {
      if s[0] == delim {
        tail := s[1..];
        assert s == "" + [delim] + tail;
      } else {
        tail := SplitHead(s[1..], delim);
        var head := Split(s[1..], delim)[0];
        assert s == [s[0]] + s[1..];
        assert [s[0]] + (head + [delim] + tail) == [s[0]] + head + [delim] + tail;
      }
    }
  }
}
