/** Numbers as text: what printf writes and strtoul reads, and the size literals of src/util.c. */
module Literal {
  import opened Util

  // ---- printf ----

  function Digit(d: nat): char
    requires d < 16
  {
    if d < 10 then '0' + d as char else 'a' + (d - 10) as char
  }

  /** %lu and %u. */
  function Dec(n: nat): (r: string)
    ensures r != []
  {
    (if n < 10 then [] else Dec(n / 10)) + [Digit(n % 10)]
  }

  /** %lx. */
  function Hex(n: nat): (r: string)
    ensures r != []
  {
    (if n < 16 then [] else Hex(n / 16)) + [Digit(n % 16)]
  }

  // ---- strtoul ----

  predicate IsSpace(c: char) {
    c == ' ' || '\t' <= c <= '\r'
  }

  /** The value of a digit, or 36 if c is none. */
  function DigitValue(c: char): nat {
    if '0' <= c <= '9' then (c - '0') as nat
    else if 'a' <= c <= 'z' then (c - 'a') as nat + 10
    else if 'A' <= c <= 'Z' then (c - 'A') as nat + 10
    else 36
  }

  predicate IsDigit(s: string, base: nat) {
    s != [] && DigitValue(s[0]) < base
  }

  /** The value of the digits s starts with, after digits worth acc, and what follows them. */
  function Scan(s: string, base: nat, acc: nat): (nat, string)
    decreases |s|
  {
    if IsDigit(s, base) then Scan(s[1..], base, acc * base + DigitValue(s[0])) else (acc, s)
  }

  predicate HasHexPrefix(s: string) {
    |s| >= 3 && s[0] == '0' && (s[1] == 'x' || s[1] == 'X') && IsDigit(s[2..], 16)
  }

  /** The digits and the base: with base 0, a leading 0x means 16 and a leading 0 means 8. */
  function ScanWithBase(s: string, base: nat): (nat, string) {
    if (base == 0 || base == 16) && HasHexPrefix(s) then Scan(s[2..], 16, 0)
    else if base != 0 then Scan(s, base, 0)
    else if s != [] && s[0] == '0' then Scan(s, 8, 0)
    else Scan(s, 10, 0)
  }

  function SkipSpaces(s: string): string {
    if s != [] && IsSpace(s[0]) then SkipSpaces(s[1..]) else s
  }

  /** strtoul: the number, saturated at 2^64 - 1, and the text after it; (0, s) if there is no number. */
  function Strtoul(s: string, base: nat): (u64, string) {
    var t := SkipSpaces(s);
    var negative := t != [] && t[0] == '-';
    var u := if negative || (t != [] && t[0] == '+') then t[1..] else t;
    var (n, rest) := ScanWithBase(u, base);
    if rest == u then (0, s)
    else if n >= U64_LIMIT then (U64_LIMIT - 1, rest)
    else (if negative then Sub64(0, n) else n, rest)
  }

  // ---- Reading back what was printed ----

  /** The digits of n shift what was read before them and add n. */
  lemma {:induction false} ScanDecScale(n: nat, tail: string, acc: nat) returns (scale: nat)
    ensures scale > 0 && Scan(Dec(n) + tail, 10, acc) == Scan(tail, 10, acc * scale + n)
    ensures IsDigit(Dec(n) + tail, 10)
    ensures n > 0 ==> Dec(n)[0] != '0'
    decreases n
  {
    var d := [Digit(n % 10)];
    if n < 10 {
      scale := 10;
      assert Dec(n) + tail == d + tail && (d + tail)[1..] == tail;
    } else {
      var high := ScanDecScale(n / 10, d + tail, acc);
      assert Dec(n) + tail == Dec(n / 10) + (d + tail);
      assert (d + tail)[1..] == tail;
      scale := high * 10;
      ShiftIn(acc, high, 10, n);
    }
  }

  lemma {:induction false} ScanHexScale(n: nat, tail: string, acc: nat) returns (scale: nat)
    ensures scale > 0 && Scan(Hex(n) + tail, 16, acc) == Scan(tail, 16, acc * scale + n)
    ensures IsDigit(Hex(n) + tail, 16)
    decreases n
  {
    var d := [Digit(n % 16)];
    if n < 16 {
      scale := 16;
      assert Hex(n) + tail == d + tail && (d + tail)[1..] == tail;
    } else {
      var high := ScanHexScale(n / 16, d + tail, acc);
      assert Hex(n) + tail == Hex(n / 16) + (d + tail);
      assert (d + tail)[1..] == tail;
      scale := high * 16;
      ShiftIn(acc, high, 16, n);
    }
  }

  lemma ShiftIn(acc: nat, high: nat, base: nat, n: nat)
    requires base == 10 || base == 16
    ensures (acc * high + n / base) * base + n % base == acc * (high * base) + n
  {
    assert acc * (high * base) == acc * high * base;
  }

  /** What %lu writes starts with a digit. */
  lemma NumberStart(s: string, base: nat)
    requires base <= 16 && IsDigit(s, base)
    ensures SkipSpaces(s) == s && s[0] != '-' && s[0] != '+'
  {
  }

  lemma DecReadsBack(n: u64, tail: string, base: nat)
    requires base == 0 || base == 10
    requires !IsDigit(tail, 10) && (tail != [] ==> tail[0] != 'x' && tail[0] != 'X')
    ensures Strtoul(Dec(n) + tail, base) == (n, tail)
  {
    var s := Dec(n) + tail;
    var scale := ScanDecScale(n, tail, 0);
    NumberStart(s, 10);
    DecScansBack(n, tail, base);
  }

  lemma DecScansBack(n: nat, tail: string, base: nat)
    requires base == 0 || base == 10
    requires !IsDigit(tail, 10) && (tail != [] ==> tail[0] != 'x' && tail[0] != 'X')
    ensures ScanWithBase(Dec(n) + tail, base) == (n, tail)
  {
    var s := Dec(n) + tail;
    if n == 0 {
      ZeroScansBack(tail, base);
    } else {
      var scale := ScanDecScale(n, tail, 0);
      hide Scan, Dec;
      assert s[0] == Dec(n)[0];
      ScanStops(tail, 10, n);
    }
  }

  lemma ZeroScansBack(tail: string, base: nat)
    requires base == 0 || base == 10
    requires !IsDigit(tail, 10) && (tail != [] ==> tail[0] != 'x' && tail[0] != 'X')
    ensures ScanWithBase(Dec(0) + tail, base) == (0, tail)
  {
    var s := Dec(0) + tail;
    assert s[0] == '0' && s[1..] == tail;
    ScanStops(tail, 8, 0);
    ScanStops(tail, 10, 0);
  }

  lemma ScanStops(tail: string, base: nat, acc: nat)
    requires !IsDigit(tail, base)
    ensures Scan(tail, base, acc) == (acc, tail)
  {
  }

  lemma HexReadsBack(n: u64, tail: string)
    requires !IsDigit(tail, 16)
    ensures Strtoul("0x" + Hex(n) + tail, 0) == (n, tail)
  {
    hide Scan, Hex, ScanWithBase;
    var s := "0x" + Hex(n) + tail;
    HexScansBack(n, tail);
    assert s[0] == '0';
    NumberStart(s, 10);
  }

  lemma HexScansBack(n: nat, tail: string)
    requires !IsDigit(tail, 16)
    ensures ScanWithBase("0x" + Hex(n) + tail, 0) == (n, tail)
  {
    hide Scan, Hex, ScanWithBase;
    var scale := ScanHexScale(n, tail, 0);
    ScanStops(tail, 16, n);
    assert "0x" + Hex(n) + tail == "0x" + (Hex(n) + tail);
    HexPrefix(Hex(n) + tail);
  }

  lemma HexPrefix(t: string)
    requires IsDigit(t, 16)
    ensures ScanWithBase("0x" + t, 0) == Scan(t, 16, 0)
  {
    hide Scan;
    assert ("0x" + t)[2..] == t;
  }

  // ---- Reading any numeral ----

  const LOWER: string := "0123456789abcdef"
  const UPPER: string := "0123456789ABCDEF"

  /** What is printed has the usual digits. */
  lemma PrintedDigit(d: nat)
    requires d < 16
    ensures Digit(d) == LOWER[d]
  {
  }

  /** The digits, in either case, have these values. */
  predicate Spells(digits: string, values: seq<nat>) {
    |digits| == |values|
    && forall i :: 0 <= i < |digits| ==> values[i] < 16 && digits[i] in {LOWER[values[i]], UPPER[values[i]]}
  }

  /** The positional value. */
  function Positional(values: seq<nat>, base: nat): nat {
    if values == [] then 0 else Positional(values[..|values| - 1], base) * base + values[|values| - 1]
  }

  lemma DigitSpelled(c: char, v: nat)
    requires v < 16 && c in {LOWER[v], UPPER[v]}
    ensures DigitValue(c) == v
  {
  }

  lemma {:induction false} ScanSpelled(digits: string, values: seq<nat>, k: nat, tail: string, base: nat)
    requires Spells(digits, values) && k <= |digits| && base <= 16
    requires (forall i :: 0 <= i < |values| ==> values[i] < base)
    requires !IsDigit(tail, base)
    ensures Scan(digits[k..] + tail, base, Positional(values[..k], base)) == (Positional(values, base), tail)
    decreases |digits| - k
  {
    if k == |digits| {
      assert digits[k..] + tail == tail && values[..k] == values;
    } else {
      var s := digits[k..] + tail;
      DigitSpelled(digits[k], values[k]);
      assert s[0] == digits[k] && s[1..] == digits[k + 1..] + tail;
      assert values[..k + 1][..k] == values[..k];
      ScanSpelled(digits, values, k + 1, tail, base);
    }
  }

  /** What a number is when it does not fit. */
  function Saturated(n: nat): u64 {
    if n < U64_LIMIT then n else U64_LIMIT - 1
  }

  lemma ScanAll(digits: string, values: seq<nat>, tail: string, base: nat)
    requires Spells(digits, values) && base <= 16 && (forall i :: 0 <= i < |values| ==> values[i] < base)
    requires !IsDigit(tail, base)
    ensures Scan(digits + tail, base, 0) == (Positional(values, base), tail)
  {
    ScanSpelled(digits, values, 0, tail, base);
    assert digits[0..] == digits && values[..0] == [];
  }

  lemma SpelledStart(digits: string, values: seq<nat>, tail: string, base: nat)
    requires digits != [] && Spells(digits, values) && (forall i :: 0 <= i < |values| ==> values[i] < base)
    ensures IsDigit(digits + tail, base)
  {
    DigitSpelled(digits[0], values[0]);
  }

  /** Hexadecimal digits after 0x or 0X, in either case each. */
  lemma HexReads(digits: string, values: seq<nat>, x: char, tail: string)
    requires digits != [] && Spells(digits, values) && x in {'x', 'X'} && !IsDigit(tail, 16)
    ensures Strtoul(['0', x] + digits + tail, 0) == (Saturated(Positional(values, 16)), tail)
  {
    var s := ['0', x] + digits + tail;
    assert s == ['0', x] + (digits + tail) && s[2..] == digits + tail && s[0] == '0';
    SpelledStart(digits, values, tail, 16);
    ScanAll(digits, values, tail, 16);
    hide Scan, Spells, Positional;
    NumberStart(s, 10);
  }

  /** Octal digits after a 0. */
  lemma OctalReads(digits: string, values: seq<nat>, tail: string)
    requires digits != [] && Spells(digits, values) && (forall i :: 0 <= i < |values| ==> values[i] < 8)
    requires !IsDigit(tail, 8)
    ensures Strtoul(['0'] + digits + tail, 0) == (Saturated(Positional(values, 8)), tail)
  {
    var s := ['0'] + digits + tail;
    ScanAll(digits, values, tail, 8);
    DigitSpelled(digits[0], values[0]);
    assert s == ['0'] + (digits + tail) && s[0] == '0' && s[1..] == digits + tail && s[1] == digits[0];
    OctalBase(s);
    NumberStart(s, 10);
    hide Scan, ScanWithBase, Spells, Positional, DigitValue;
    StrtoulOf(s, Positional(values, 8), tail);
  }

  lemma OctalBase(s: string)
    requires |s| >= 2 && s[0] == '0' && DigitValue(s[1]) < 8
    ensures ScanWithBase(s, 0) == Scan(s[1..], 8, 0) && IsDigit(s, 10)
  {
  }

  lemma StrtoulOf(s: string, n: nat, rest: string)
    requires SkipSpaces(s) == s && s != [] && s[0] != '-' && s[0] != '+' && ScanWithBase(s, 0) == (n, rest) && rest != s
    ensures Strtoul(s, 0) == (Saturated(n), rest)
  {
  }

  /** Decimal digits, the first of them not 0. */
  lemma DecimalReads(digits: string, values: seq<nat>, tail: string)
    requires digits != [] && Spells(digits, values) && (forall i :: 0 <= i < |values| ==> values[i] < 10)
    requires values[0] > 0
    requires !IsDigit(tail, 10)
    ensures Strtoul(digits + tail, 0) == (Saturated(Positional(values, 10)), tail)
  {
    var s := digits + tail;
    SpelledStart(digits, values, tail, 10);
    ScanAll(digits, values, tail, 10);
    DigitSpelled(digits[0], values[0]);
    assert s[0] == digits[0] && s[0] != '0';
    hide Scan, Spells, Positional;
    NumberStart(s, 10);
  }

  // ---- Size literals ----

  const SUFFIXES: string := "BKMGTPEZY"

  /** util_human_readable_to_size: strtoul, then a suffix in either case, multiplied in 64 bits. */
  function HumanToSize(literal: string): u64 {
    var (size, suffix) := Strtoul(literal, 0);
    if suffix == [] then size
    else
      match suffix[0]
      case 'k' => size * 0x400 % U64_LIMIT
      case 'K' => size * 0x400 % U64_LIMIT
      case 'm' => size * 0x10_0000 % U64_LIMIT
      case 'M' => size * 0x10_0000 % U64_LIMIT
      case 'g' => size * 0x4000_0000 % U64_LIMIT
      case 'G' => size * 0x4000_0000 % U64_LIMIT
      case 't' => size * 0x100_0000_0000 % U64_LIMIT
      case 'T' => size * 0x100_0000_0000 % U64_LIMIT
      case 'p' => size * 0x4_0000_0000_0000 % U64_LIMIT
      case 'P' => size * 0x4_0000_0000_0000 % U64_LIMIT
      case 'e' => size * 0x1000_0000_0000_0000 % U64_LIMIT
      case 'E' => size * 0x1000_0000_0000_0000 % U64_LIMIT
      case _ => size
  }

  function Kilo(i: nat): nat {
    if i == 0 then 1 else 1024 * Kilo(i - 1)
  }

  /** human is size in units of 1024^i, and the suffix says so. */
  ghost predicate IsHuman(size: u64, human: u64, suffix: char, i: nat) {
    i <= 6 && suffix == SUFFIXES[i] && size == human * Kilo(i)
  }

  /** What is left after dividing a 64-bit number by 1024^i. */
  function Limit(i: nat): nat {
    if i == 0 then U64_LIMIT else Limit(i - 1) / 1024
  }

  lemma LimitSmall(i: nat)
    ensures i >= 6 ==> Limit(i) <= 16
  {
    if i == 6 {
      assert Limit(2) == 0x1000_0000_0000;
      assert Limit(4) == 0x100_0000;
    }
  }

  /** util_size_to_human_readable_int: divide by 1024 while that is exact and more than 1024 remain. The suffix never
      runs past E. */
  method SizeToHumanInt(size: u64) returns (human: u64, suffix: char, ghost i': nat)
    ensures IsHuman(size, human, suffix, i')
    ensures human % 1024 != 0 || human <= 1024
    ensures suffix != 'B' ==> human > 1
  {
    var i := 0;
    human := size;
    while i < |SUFFIXES|
      invariant i <= 6 && size == human * Kilo(i) && human <= Limit(i) && (i > 0 ==> human > 1)
    {
      if human % 1024 != 0 || human <= 1024 {
        break;
      }
      LimitSmall(i);
      Thousandfold(size, human, i);
      human := human / 1024;
      i := i + 1;
    }
    suffix := SUFFIXES[i];
    i' := i;
  }

  lemma Thousandfold(size: nat, human: nat, i: nat)
    requires size == human * Kilo(i) && human % 1024 == 0
    ensures size == human / 1024 * Kilo(i + 1)
  {
    assert human / 1024 * (1024 * Kilo(i)) == (human / 1024 * 1024) * Kilo(i);
  }

  /** A size printed with its suffix reads back, whatever unit it was printed in. */
  lemma HumanReadsBack(size: u64, human: u64, suffix: char, i: nat)
    requires IsHuman(size, human, suffix, i)
    ensures HumanToSize(Dec(human) + [suffix]) == size
  {
    hide Strtoul, Dec, Kilo;
    DecReadsBack(human, [suffix], 0);
    KiloIs(i);
  }

  lemma KiloIs(i: nat)
    requires i <= 6
    ensures Kilo(i) == match i
                       case 0 => 1 case 1 => 0x400 case 2 => 0x10_0000 case 3 => 0x4000_0000 case 4 => 0x100_0000_0000
                       case 5 => 0x4_0000_0000_0000 case _ => 0x1000_0000_0000_0000
  {
    assert Kilo(2) == 0x10_0000;
    assert Kilo(4) == 0x100_0000_0000;
  }

  const UNITS: string := "kmgtpe"
  const UPPER_UNITS: string := "KMGTPE"

  /** A number followed by a unit, in either case, is that many units, in 64 bits; another character means nothing. */
  lemma UnitsMultiply(literal: string, number: u64, tail: string, i: nat)
    requires Strtoul(literal, 0) == (number, tail) && tail != []
    ensures 0 < i <= 6 && tail[0] in {UNITS[i - 1], UPPER_UNITS[i - 1]} ==>
              HumanToSize(literal) == number * Kilo(i) % U64_LIMIT
    ensures tail[0] !in UNITS && tail[0] !in UPPER_UNITS ==> HumanToSize(literal) == number
  {
    hide Strtoul, Kilo;
    if 0 < i <= 6 {
      KiloIs(i);
    }
  }

  lemma DecIsSize(size: u64)
    ensures HumanToSize(Dec(size)) == size
  {
    DecReadsBack(size, [], 0);
    assert Dec(size) + [] == Dec(size);
  }

  lemma HexIsSize(size: u64)
    ensures HumanToSize("0x" + Hex(size)) == size
  {
    HexReadsBack(size, []);
    assert "0x" + Hex(size) + [] == "0x" + Hex(size);
  }
}
