/** Number printing and parsing: utoa, atoi and atoi_hex of src/kernel/lib/string.c.

    A C string is a sequence of characters that holds a NUL. */
module Numbers {
  import opened Machine

  const NUL: char := '\0'
  const INT32_LIMIT := 0x8000_0000

  function DigitChar(d: nat): char
    requires d < 36
  {
    if d < 10 then '0' + d as char else 'A' + (d - 10) as char
  }

  /** The value of a digit as the parsers read it, in either case; -1 for other characters. */
  function DigitOf(c: char): int {
    if '0' <= c <= '9' then c as int - '0' as int
    else if 'a' <= c <= 'f' then c as int - 'a' as int + 10
    else if 'A' <= c <= 'F' then c as int - 'A' as int + 10
    else -1
  }

  /** The two bases the parsers know. */
  datatype Radix = Decimal | Hex {
    function Base(): (b: nat)
      ensures 2 <= b <= 16
    {
      if Hex? then 16 else 10
    }

    function Append(v: nat, digit: nat): nat {
      if Hex? then v * 16 + digit else v * 10 + digit
    }
  }

  predicate IsDigit(c: char, r: Radix) {
    0 <= DigitOf(c) < r.Base()
  }

  /** v / base and v % base by repeated subtraction, which keeps the proofs about numerals in
      any base free of products; `QuotientIsDivision` says they are C's operators. */
  function Quotient(v: nat, base: nat): (q: nat)
    requires 2 <= base
    ensures 0 < v ==> q < v
  {
    if v < base then 0 else 1 + Quotient(v - base, base)
  }

  function Remainder(v: nat, base: nat): (r: nat)
    requires 2 <= base
    ensures r < base
  {
    if v < base then v else Remainder(v - base, base)
  }

  lemma {:induction false} QuotientIsDivision(v: nat, base: nat)
    requires 2 <= base
    ensures v == Quotient(v, base) * base + Remainder(v, base)
    ensures v / base == Quotient(v, base) && v % base == Remainder(v, base)
  {
    if base <= v {
      QuotientIsDivision(v - base, base);
    }
    DivisionUnique(v, base, Quotient(v, base), Remainder(v, base));
  }

  lemma DivisionUnique(v: nat, base: nat, q: nat, r: nat)
    requires v == q * base + r && r < base
    ensures v / base == q && v % base == r
  {
    assert v == v / base * base + v % base;
    var d := v / base - q;
    assert d * base == r - v % base;
    assert 1 <= d ==> base <= d * base;
    assert d <= -1 ==> d * base <= -(base as int);
  }

  /** The digits of v, most significant first; none for zero. */
  function Digits(v: nat, base: nat): string
    requires 2 <= base <= 36
    decreases v
  {
    if v == 0 then "" else Digits(Quotient(v, base), base) + [DigitChar(Remainder(v, base))]
  }

  function Numeral(v: nat, base: nat): string
    requires 2 <= base <= 36
  {
    if v == 0 then "0" else Digits(v, base)
  }

  /** The number a digit string denotes. */
  function Value(s: string, r: Radix): nat
    requires forall i :: 0 <= i < |s| ==> IsDigit(s[i], r)
  {
    if s == "" then 0 else
    assert IsDigit(s[|s| - 1], r);
    r.Append(Value(s[..|s| - 1], r), DigitOf(s[|s| - 1]))
  }

  /** The longest prefix made of digits: what the parsers read before they stop. */
  function DigitPrefix(s: string, r: Radix): (p: string)
    ensures p <= s && forall i :: 0 <= i < |p| ==> IsDigit(p[i], r)
    ensures |p| < |s| ==> !IsDigit(s[|p|], r)
  {
    if s != "" && IsDigit(s[0], r) then [s[0]] + DigitPrefix(s[1..], r) else ""
  }

  function Parsed(s: string, r: Radix): nat {
    Value(DigitPrefix(s, r), r)
  }

  /** atoi_hex skips an optional 0x. */
  function WithoutHexMark(s: string): string {
    if |s| >= 2 && s[0] == '0' && (s[1] == 'x' || s[1] == 'X') then s[2..] else s
  }

  ghost predicate Terminated(s: string) {
    NUL in s
  }

  lemma {:induction false} DigitsAreDigits(v: nat, r: Radix)
    ensures forall i :: 0 <= i < |Digits(v, r.Base())| ==> IsDigit(Digits(v, r.Base())[i], r)
    ensures Value(Digits(v, r.Base()), r) == v
    decreases v
  {
    hide Quotient, Remainder, DigitChar, DigitOf, IsDigit, Radix.Append;
    if v != 0 {
      var s, front := Digits(v, r.Base()), Quotient(v, r.Base());
      DigitsAreDigits(front, r);
      Divided(v, r);
      DigitIsRead(Remainder(v, r.Base()), r);
      assert s[..|s| - 1] == Digits(front, r.Base());
    }
  }

  lemma Divided(v: nat, r: Radix)
    ensures r.Append(Quotient(v, r.Base()), Remainder(v, r.Base())) == v
  {
    hide Quotient, Remainder;
    QuotientIsDivision(v, r.Base());
    if r.Hex? { assert r.Base() == 16; } else { assert r.Base() == 10; }
  }

  lemma DigitIsRead(d: nat, r: Radix)
    requires d < r.Base()
    ensures IsDigit(DigitChar(d), r) && DigitOf(DigitChar(d)) == d
  {
  }

  /** A digit string followed by a non-digit is read back exactly. */
  lemma {:induction false} PrefixStopsAtNonDigit(s: string, rest: string, r: Radix)
    requires forall i :: 0 <= i < |s| ==> IsDigit(s[i], r)
    requires rest != "" && !IsDigit(rest[0], r)
    ensures DigitPrefix(s + rest, r) == s
  {
    var p := DigitPrefix(s + rest, r);
    assert (s + rest)[|s|] == rest[0];
    assert |p| <= |s|;
    assert forall i :: 0 <= i < |s| ==> (s + rest)[i] == s[i];
    assert p == (s + rest)[..|p|];
  }

  lemma NumeralValue(v: nat, r: Radix)
    ensures forall i :: 0 <= i < |Numeral(v, r.Base())| ==> IsDigit(Numeral(v, r.Base())[i], r)
    ensures Value(Numeral(v, r.Base()), r) == v
  {
    DigitsAreDigits(v, r);
    assert Value("0"[..0], r) == 0;
  }

  /** Printing then parsing gives the number back, whatever follows the terminator; the optional
      0x is never mistaken for digits. */
  lemma {:induction false} PrintThenParse(v: nat, r: Radix, rest: string)
    ensures Parsed(Numeral(v, r.Base()) + [NUL] + rest, r) == v
    ensures WithoutHexMark(Numeral(v, r.Base()) + [NUL] + rest) == Numeral(v, r.Base()) + [NUL] + rest
  {
    var n := Numeral(v, r.Base());
    NumeralValue(v, r);
    assert n + [NUL] + rest == n + ([NUL] + rest);
    PrefixStopsAtNonDigit(n, [NUL] + rest, r);
    assert |n| > 1 ==> IsDigit(n[1], r);
  }

  const DIGITS := "0123456789ABCDEFGHIJKLMNOPQRSTUVWXYZ"

  /** The value of a digit in upper case. */
  function Place(c: char): nat {
    if '0' <= c <= '9' then c as int - '0' as int else if 'A' <= c <= 'Z' then c as int - 'A' as int + 10 else 36
  }

  /** utoa writes the usual digits, letters in upper case. */
  lemma DigitInTable(d: nat)
    requires d < 36
    ensures DigitChar(d) == DIGITS[d] && Place(DIGITS[d]) == d
  {
    assert |DIGITS| == 36;
    if d < 10 { assert d <= 4 || d <= 9; } else { assert d <= 22 || d <= 35; }
  }

  /** The number that a string of such digits denotes in a base. */
  function Denoted(s: string, base: nat): nat {
    if s == "" then 0 else Denoted(s[..|s| - 1], base) * base + Place(s[|s| - 1])
  }

  /** In every base the digits of a number denote it, and do not begin with a zero. */
  lemma {:induction false} DigitsDenote(v: nat, base: nat)
    requires 2 <= base <= 36
    ensures Denoted(Digits(v, base), base) == v
    ensures forall i :: 0 <= i < |Digits(v, base)| ==> Place(Digits(v, base)[i]) < base
    ensures v > 0 ==> Digits(v, base) != "" && Digits(v, base)[0] != '0'
    decreases v
  {
    if v > 0 {
      var s, front, d := Digits(v, base), Quotient(v, base), Remainder(v, base);
      QuotientIsDivision(v, base);
      DigitsDenote(front, base);
      DigitInTable(d);
      assert s[..|s| - 1] == Digits(front, base) && s[|s| - 1] == DIGITS[d];
      if front == 0 { assert s == [DigitChar(d)] && d != 0; } else { assert s[0] == Digits(front, base)[0]; }
    }
  }

  function LowerCase(c: char): char {
    if 'A' <= c <= 'Z' then 'a' + (c as int - 'A' as int) as char else c
  }

  function Lowered(s: string): string {
    seq(|s|, i requires 0 <= i < |s| => LowerCase(s[i]))
  }

  /** The parsers read letters in either case. */
  lemma {:induction false} CaseIsIgnored(s: string, r: Radix)
    requires forall i :: 0 <= i < |s| ==> IsDigit(s[i], r)
    ensures forall i :: 0 <= i < |s| ==> IsDigit(Lowered(s)[i], r)
    ensures Value(Lowered(s), r) == Value(s, r)
  {
    if s != "" {
      CaseIsIgnored(s[..|s| - 1], r);
      assert Lowered(s)[..|s| - 1] == Lowered(s[..|s| - 1]);
    }
  }

  /** What utoa writes in base 16 is read back with or without a 0x mark, in either case. */
  lemma HexIsRead(v: nat, mark: string, lower: bool, rest: string)
    requires mark == "" || mark == "0x" || mark == "0X"
    ensures var n := if lower then Lowered(Numeral(v, 16)) else Numeral(v, 16);
            Parsed(WithoutHexMark(mark + n + [NUL] + rest), Hex) == v
  {
    hide Numeral, Lowered, WithoutHexMark, Value, IsDigit, DigitPrefix;
    var n := HexText(v, lower);
    PrefixStopsAtNonDigit(n, [NUL] + rest, Hex) by { assert !IsDigit(NUL, Hex) by { NulIsNoDigit(); } }
    assert n + [NUL] + rest == n + ([NUL] + rest);
    MarkIsSkipped(mark, n, rest);
    assert mark + n + [NUL] + rest == mark + (n + [NUL] + rest);
  }

  lemma NulIsNoDigit()
    ensures !IsDigit(NUL, Hex)
  {
  }

  lemma HexText(v: nat, lower: bool) returns (n: string)
    ensures n == if lower then Lowered(Numeral(v, 16)) else Numeral(v, 16)
    ensures n != "" && (forall i :: 0 <= i < |n| ==> IsDigit(n[i], Hex)) && Value(n, Hex) == v
  {
    hide Value, DigitOf;
    n := Numeral(v, 16);
    NumeralValue(v, Hex);
    if lower {
      CaseIsIgnored(n, Hex);
      n := Lowered(n);
    }
  }

  lemma MarkIsSkipped(mark: string, n: string, rest: string)
    requires mark == "" || mark == "0x" || mark == "0X"
    requires n != "" && forall i :: 0 <= i < |n| ==> IsDigit(n[i], Hex)
    ensures WithoutHexMark(mark + (n + [NUL] + rest)) == n + [NUL] + rest
  {
    var t := n + [NUL] + rest;
    if mark == "" {
      assert mark + t == t;
      assert |n| > 1 ==> IsDigit(n[1], Hex);
    } else {
      assert (mark + t)[2..] == t;
    }
  }

  /** A numeral as utoa writes them: its own digits, without a leading zero unless it is "0". */
  ghost predicate Canonical(s: string, r: Radix) {
    && s != ""
    && (forall i :: 0 <= i < |s| ==> IsDigit(s[i], r) && s[i] == DigitChar(DigitOf(s[i])))
    && (s[0] == '0' ==> s == "0")
  }

  lemma {:induction false} ValueFront(s: string, r: Radix)
    requires Canonical(s, r) && |s| > 1
    ensures Canonical(s[..|s| - 1], r) && s[..|s| - 1] != "0"
    ensures Value(s, r) == r.Append(Value(s[..|s| - 1], r), DigitOf(s[|s| - 1]))
  {
    assert s[..|s| - 1][0] == s[0];
  }

  lemma PrintDigit(c: char, r: Radix)
    requires Canonical([c], r)
    ensures Numeral(Value([c], r), r.Base()) == [c] && (c != '0' ==> 0 < Value([c], r))
  {
    var last := DigitOf(c);
    assert c == DigitChar(last) && Value([c][..0], r) == 0;
    assert Digits(Quotient(last, r.Base()), r.Base()) == "";
  }

  /** Parsing then printing gives a canonical numeral back, so printing is onto as well. */
  lemma {:induction false} ParseThenPrint(s: string, r: Radix)
    requires Canonical(s, r)
    ensures Numeral(Value(s, r), r.Base()) == s
    ensures s != "0" ==> 0 < Value(s, r)
  {
    hide Quotient, Remainder, DigitChar;
    var front, last := s[..|s| - 1], DigitOf(s[|s| - 1]);
    if |s| == 1 {
      PrintDigit(s[0], r);
    } else {
      ValueFront(s, r);
      ParseThenPrint(front, r);
      AppendDigit(Value(front, r), last, r);
    }
  }

  lemma AppendDigit(v: nat, digit: nat, r: Radix)
    requires 0 < v && digit < r.Base()
    ensures Digits(r.Append(v, digit), r.Base()) == Digits(v, r.Base()) + [DigitChar(digit)]
  {
    DivisionUnique(r.Append(v, digit), r.Base(), v, digit);
    QuotientIsDivision(r.Append(v, digit), r.Base());
  }

  lemma {:induction false} ValueGrows(s: string, n: nat, r: Radix)
    requires n <= |s| && forall i :: 0 <= i < |s| ==> IsDigit(s[i], r)
    ensures Value(s[..n], r) <= Value(s, r)
  {
    if n < |s| {
      var front := s[..|s| - 1];
      ValueGrows(front, n, r);
      assert front[..n] == s[..n];
    } else {
      assert s[..n] == s;
    }
  }

  /** The digits of v with the least significant first, as the first loop of utoa leaves them. */
  method WriteReversed(value: nat, buffer: array<char>, base: nat) returns (ptr: nat)
    requires 0 < value && 2 <= base <= 36 && |Digits(value, base)| < buffer.Length
    modifies buffer
    ensures ptr == |Digits(value, base)|
    ensures forall i :: 0 <= i < ptr ==> buffer[i] == Digits(value, base)[ptr - 1 - i]
    ensures buffer[ptr..] == old(buffer[ptr..])
  {
    ghost var d := Digits(value, base);
    var v: nat := value;
    ptr := 0;
    while v != 0
      invariant ptr + |Digits(v, base)| == |d| && Digits(v, base) == d[..|d| - ptr]
      invariant forall i :: 0 <= i < ptr ==> buffer[i] == d[|d| - 1 - i]
      invariant buffer[|d|..] == old(buffer[|d|..])
    {
      QuotientIsDivision(v, base);
      var tmp := v % base;
      if tmp < 10 {
        buffer[ptr] := '0' + tmp as char;
      } else {
        buffer[ptr] := 'A' + (tmp - 10) as char;
      }
      ptr := ptr + 1;
      v := v / base;
    }
  }

  method ReverseInPlace(buffer: array<char>, n: nat)
    requires 0 < n <= buffer.Length
    modifies buffer
    ensures forall i :: 0 <= i < n ==> buffer[i] == old(buffer[n - 1 - i])
    ensures buffer[n..] == old(buffer[n..])
  {
    var ptr, ptr1 := n - 1, 0;
    while ptr1 < ptr
      invariant 0 <= ptr1 <= ptr + 1 && ptr1 + ptr == n - 1
      invariant forall i :: 0 <= i < ptr1 || ptr < i < n ==> buffer[i] == old(buffer[n - 1 - i])
      invariant forall i :: ptr1 <= i <= ptr ==> buffer[i] == old(buffer[i])
      invariant buffer[n..] == old(buffer[n..])
    {
      var tmp := buffer[ptr];
      buffer[ptr] := buffer[ptr1];
      ptr := ptr - 1;
      buffer[ptr1] := tmp;
      ptr1 := ptr1 + 1;
    }
  }

  lemma Assemble(buffer: string, d: string, after: string)
    requires |buffer| == |d| + 1 + |after| && buffer[|d|] == NUL && buffer[|d| + 1..] == after
    requires forall i :: 0 <= i < |d| ==> buffer[i] == d[i]
    ensures buffer == d + [NUL] + after
  {
    assert forall i :: |d| < i < |buffer| ==> buffer[i] == buffer[|d| + 1..][i - |d| - 1];
  }

  /** utoa: the least significant digit first, then the terminator and the in-place reversal. */
  method Utoa(value: nat, buffer: array<char>, base: nat)
    requires value < WORD_LIMIT && 2 <= base <= 36
    requires |Numeral(value, base)| < buffer.Length
    modifies buffer
    ensures var n := |Numeral(value, base)|;
            buffer[..] == Numeral(value, base) + [NUL] + old(buffer[n + 1..])
  {
    if value == 0 {
      buffer[0] := '0';
      buffer[1] := NUL;
      return;
    }
    ghost var d, after := Digits(value, base), buffer[|Digits(value, base)| + 1..];
    var ptr := WriteReversed(value, buffer, base);
    assert after == buffer[ptr..][1..] == buffer[ptr + 1..];
    buffer[ptr] := NUL;
    ReverseInPlace(buffer, ptr);
    Assemble(buffer[..], d, after);
  }

  /** A terminated string's digits end before its end. */
  lemma PrefixEnds(s: string, r: Radix) returns (p: string)
    requires Terminated(s)
    ensures p <= s && |p| < |s| && !IsDigit(s[|p|], r)
    ensures forall k :: 0 <= k < |p| ==> IsDigit(p[k], r)
    ensures Value(p, r) == Parsed(s, r)
  {
    p := DigitPrefix(s, r);
    var i :| 0 <= i < |s| && s[i] == NUL;
    assert |p| <= i;
  }

  lemma HexMarkKeepsEnd(s: string)
    requires Terminated(s)
    ensures Terminated(WithoutHexMark(s))
  {
    var i :| 0 <= i < |s| && s[i] == NUL;
    if 2 <= i {
      assert s[2..][i - 2] == NUL;
    }
  }

  lemma NextDigit(p: string, i: nat, r: Radix)
    requires i < |p| && forall k :: 0 <= k < |p| ==> IsDigit(p[k], r)
    ensures 0 <= DigitOf(p[i]) && r.Append(Value(p[..i], r), DigitOf(p[i])) == Value(p[..i + 1], r)
    ensures Value(p[..i + 1], r) <= Value(p, r)
  {
    assert p[..i + 1][..i] == p[..i];
    ValueGrows(p, i + 1, r);
  }

  /** atoi reads the longest decimal prefix; the requires is the range of int. */
  method Atoi(str: string) returns (result: int)
    requires Terminated(str) && Parsed(str, Decimal) < INT32_LIMIT
    ensures result == Parsed(str, Decimal)
  {
    result := 0;
    var i := 0;
    ghost var p := PrefixEnds(str, Decimal);
    while str[i] != NUL
      invariant i <= |p| && result == Value(p[..i], Decimal)
      decreases |p| - i
    {
      if str[i] < '0' || str[i] > '9' {
        break;
      }
      NextDigit(p, i, Decimal);
      result := result * 10 + (str[i] as int - '0' as int);
      i := i + 1;
    }
    assert p[..i] == p;
  }

  /** atoi_hex reads the longest hexadecimal prefix after an optional 0x, in either case. */
  method AtoiHex(str: string) returns (result: int)
    requires Terminated(str) && Parsed(WithoutHexMark(str), Hex) < INT32_LIMIT
    ensures result == Parsed(WithoutHexMark(str), Hex)
  {
    hide DigitPrefix, Parsed;
    result := 0;
    var s := str;
    if s[0] == '0' && (s[1] == 'x' || s[1] == 'X') {
      s := s[2..];
    }
    HexMarkKeepsEnd(str);
    var i := 0;
    ghost var p := PrefixEnds(s, Hex);
    while s[i] != NUL
      invariant i <= |p| && result == Value(p[..i], Hex)
      decreases |p| - i
    {
      var c := s[i];
      var value: int;
      if c >= '0' && c <= '9' {
        value := c as int - '0' as int;
      } else if c >= 'a' && c <= 'f' {
        value := c as int - 'a' as int + 10;
      } else if c >= 'A' && c <= 'F' {
        value := c as int - 'A' as int + 10;
      } else {
        break;
      }
      NextDigit(p, i, Hex);
      result := result * 16 + value;
      i := i + 1;
    }
    assert p[..i] == p;
  }
}
