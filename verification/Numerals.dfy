/** Printing and parsing of numbers: std::to_string, ostream << integer, and
    the strtol family with the std::sto* functions over it. */
module Numerals {
  import opened Bytes

  const TWO64 := 0x1_0000_0000_0000_0000

  predicate ValidBase(base: nat) { base == 10 || base == 16 }

  /** Value of a digit in the base, either letter case. */
  function DigitOf(b: byte, base: nat): (r: Option<nat>)
    ensures r.Some? ==> r.value < base
  {
    var d := if '0' as int <= b <= '9' as int then b - '0' as int
             else if 'a' as int <= b <= 'f' as int then b - 'a' as int + 10
             else if 'A' as int <= b <= 'F' as int then b - 'A' as int + 10
             else 99;
    if d < base then Some(d) else None
  }

  predicate IsDigit(b: byte, base: nat) { DigitOf(b, base).Some? }

  /** Upper-case digit character. */
  function DigitChar(d: nat): (r: byte)
    requires d < 16
    ensures forall base | d < base :: DigitOf(r, base) == Some(d)
  {
    if d < 10 then '0' as int + d else 'A' as int + d - 10
  }

  /** Positional notation without leading zeros. */
  function Print(n: nat, base: nat): (r: bytes)
    requires ValidBase(base)
    ensures |r| >= 1
    ensures forall i :: 0 <= i < |r| ==> IsDigit(r[i], base)
  {
    if n < base then [DigitChar(n)]
    else Print(n / base, base) + [DigitChar(n % base)]
  }

  function Decimal(n: nat): bytes { Print(n, 10) }

  /** How many leading bytes are digits. */
  function DigitRun(s: bytes, base: nat): (r: nat)
    ensures r <= |s|
    ensures forall i :: 0 <= i < r ==> IsDigit(s[i], base)
    ensures r < |s| ==> !IsDigit(s[r], base)
  {
    if s == [] || !IsDigit(s[0], base) then 0 else 1 + DigitRun(s[1..], base)
  }

  function Shifted(n: nat, base: nat): (r: nat)
    ensures r == n * base
  {
    if n == 0 then 0 else n * base
  }

  /** Value of a digit string. */
  function Value(s: bytes, base: nat): (r: nat)
    requires forall i :: 0 <= i < |s| ==> IsDigit(s[i], base)
  {
    if s == [] then 0
    else
      var high, low := s[..|s| - 1], s[|s| - 1];
      assert IsDigit(low, base);
      Shifted(Value(high, base), base) + DigitOf(low, base).value
  }

  lemma {:induction false} ValuePrint(n: nat, base: nat)
    requires ValidBase(base)
    ensures Value(Print(n, base), base) == n
  {
    if n >= base {
      ValuePrint(n / base, base);
      var p := Print(n, base);
      assert p[..|p| - 1] == Print(n / base, base);
    }
  }

  predicate IsSpace(b: byte) { b == SPACE || 9 <= b <= 13 }

  function SkipSpaces(s: bytes): bytes
  {
    if s != [] && IsSpace(s[0]) then SkipSpaces(s[1..]) else s
  }

  function SkipSign(s: bytes): bytes
  {
    if s != [] && (s[0] == PLUS || s[0] == MINUS) then s[1..] else s
  }

  predicate IsNegative(s: bytes) { s != [] && s[0] == MINUS }

  /** The "0x" that base 16 allows in front of the digits. */
  predicate HasHexPrefix(s: bytes, base: nat)
  {
    base == 16 && |s| > 2 && s[0] == '0' as int && (s[1] == 'x' as int || s[1] == 'X' as int) && IsDigit(s[2], 16)
  }

  /** strtol and its relatives before range handling: blanks, sign, prefix, digits.
      None when there are no digits. */
  function Integer(s: bytes, base: nat): (r: Option<int>)
  {
    var t := SkipSpaces(s);
    var u := SkipSign(t);
    var v := if HasHexPrefix(u, base) then u[2..] else u;
    var d := DigitRun(v, base);
    if d == 0 then None
    else
      var n: int := Value(v[..d], base);
      Some(if IsNegative(t) then -n else n)
  }

  /** std::stoul and std::stoull; None stands for the exception. A minus sign wraps around. */
  function Stoul(s: bytes, base: nat): (r: Option<nat>)
    ensures r.Some? ==> r.value < TWO64
  {
    match Integer(s, base)
    case None => None
    case Some(v) => if -TWO64 < v < TWO64 then Some(v % TWO64) else None
  }

  /** std::stoi; None stands for the exception. */
  function Stoi(s: bytes): (r: Option<int>)
  {
    match Integer(s, 10)
    case None => None
    case Some(v) => if -0x8000_0000 <= v < 0x8000_0000 then Some(v) else None
  }

  lemma {:induction false} DigitRunIs(s: bytes, base: nat, k: nat)
    requires k <= |s|
    requires forall i :: 0 <= i < k ==> IsDigit(s[i], base)
    requires k < |s| ==> !IsDigit(s[k], base)
    ensures DigitRun(s, base) == k
  {}

  /** A printed number, followed by anything that does not continue it, reads back. */
  lemma IntegerOfPrint(n: nat, base: nat, rest: bytes)
    requires ValidBase(base)
    requires rest != [] ==> !IsDigit(rest[0], base) && rest[0] != 'x' as int && rest[0] != 'X' as int
    ensures Integer(Print(n, base) + rest, base) == Some(n)
  {
    hide Print, Value, DigitRun, Shifted;
    var p := Print(n, base);
    var s := p + rest;
    assert s[0] == p[0] && IsDigit(s[0], base);
    assert SkipSpaces(s) == s && SkipSign(s) == s;
    assert !HasHexPrefix(s, base) by {
      if |s| > 1 { assert s[1] == if |p| > 1 then p[1] else rest[0]; }
    }
    DigitRunIs(s, base, |p|);
    assert s[..|p|] == p;
    ValuePrint(n, base);
  }

  lemma StoulOfInteger(s: bytes, base: nat, n: nat)
    requires Integer(s, base) == Some(n) && n < TWO64
    ensures Stoul(s, base) == Some(n)
  {}

  /** Sizes below 2^64 survive printing and std::stoul. */
  lemma StoulOfPrint(n: nat, base: nat)
    requires ValidBase(base) && n < TWO64
    ensures Stoul(Print(n, base), base) == Some(n)
  {
    IntegerOfPrint(n, base, []);
    assert Print(n, base) + [] == Print(n, base);
    StoulOfInteger(Print(n, base), base, n);
  }

  // ------------------------------------------------------------- spellings

  const LOWER: bytes := Ascii("0123456789abcdef")
  const UPPER: bytes := Ascii("0123456789ABCDEF")

  predicate Spells(b: byte, d: nat) requires d < 16 { b == LOWER[d] || b == UPPER[d] }

  /** The digits are these characters, in either case, and no others. */
  lemma DigitsAre(b: byte, base: nat, d: nat)
    requires ValidBase(base) && d < base
    ensures DigitOf(b, base) == Some(d) <==> Spells(b, d)
    ensures DigitChar(d) == UPPER[d]
  {
    Entries(d);
  }

  lemma Entries(d: nat)
    requires d < 16
    ensures LOWER[d] == if d < 10 then 48 + d else 87 + d
    ensures UPPER[d] == if d < 10 then 48 + d else 55 + d
  {
    Tables();
  }

  lemma Tables()
    ensures LOWER == [48, 49, 50, 51, 52, 53, 54, 55, 56, 57, 97, 98, 99, 100, 101, 102]
    ensures UPPER == [48, 49, 50, 51, 52, 53, 54, 55, 56, 57, 65, 66, 67, 68, 69, 70]
  {}

  /** The blanks that strtol skips. */
  lemma SpacesAre(b: byte)
    ensures IsSpace(b) <==> b in [9, 10, 11, 12, 13, 32]
  {}

  predicate SameDigit(a: byte, b: byte) { exists d: nat :: d < 16 && Spells(a, d) && Spells(b, d) }

  /** The same hexadecimal numeral, in any mix of cases. */
  predicate SameNumeral(s: bytes, t: bytes) { |s| == |t| && forall i :: 0 <= i < |s| ==> SameDigit(s[i], t[i]) }

  lemma SameDigitOf(a: byte, b: byte)
    requires SameDigit(a, b)
    ensures IsDigit(a, 16) && DigitOf(a, 16) == DigitOf(b, 16)
  {
    var d: nat :| d < 16 && Spells(a, d) && Spells(b, d);
    DigitsAre(a, 16, d);
    DigitsAre(b, 16, d);
  }

  lemma {:induction false} SameValue(s: bytes, t: bytes)
    requires SameNumeral(s, t)
    ensures forall i :: 0 <= i < |s| ==> IsDigit(s[i], 16) && IsDigit(t[i], 16)
    ensures Value(s, 16) == Value(t, 16)
  {
    hide SameDigit, DigitOf;
    if s != [] {
      SameValue(s[..|s| - 1], t[..|t| - 1]);
      SameDigitOf(s[|s| - 1], t[|t| - 1]);
    }
  }

  /** A size printed in hexadecimal is read back, whatever the case of its digits. */
  lemma StoulOfSpelling(n: nat, s: bytes)
    requires n < TWO64 && SameNumeral(s, Print(n, 16))
    ensures Stoul(s, 16) == Some(n)
    ensures forall i :: 0 <= i < |s| ==> IsDigit(s[i], 16)
  {
    hide Print, Value, SameDigit, DigitOf;
    SameValue(s, Print(n, 16));
    ValuePrint(n, 16);
    DigitRunIs(s, 16, |s|);
    PlainNumeral(s);
    StoulOfInteger(s, 16, n);
  }

  lemma PlainNumeral(s: bytes)
    requires s != [] && DigitRun(s, 16) == |s|
    ensures Integer(s, 16) == Some(Value(s, 16))
  {
    hide Value, DigitRun;
    assert IsDigit(s[0], 16);
    assert |s| > 1 ==> IsDigit(s[1], 16);
    assert SkipSpaces(s) == s && SkipSign(s) == s && !HasHexPrefix(s, 16);
    assert s[..|s|] == s;
  }

  /** Positional notation in lower case. */
  function LowerHex(n: nat): (r: bytes)
  {
    if n < 16 then [LOWER[n]] else LowerHex(n / 16) + [LOWER[n % 16]]
  }

  lemma {:induction false} LowerHexIsSame(n: nat)
    ensures SameNumeral(LowerHex(n), Print(n, 16))
  {
    hide Spells, DigitOf, Ascii, DigitChar, SameDigit;
    var d := n % 16;
    SameDigits(d);
    if n >= 16 {
      LowerHexIsSame(n / 16);
    }
  }

  lemma SameDigits(d: nat)
    requires d < 16
    ensures SameDigit(LOWER[d], DigitChar(d))
  {
    hide Spells;
    BothSpell(d);
  }

  lemma BothSpell(d: nat)
    requires d < 16
    ensures Spells(LOWER[d], d) && Spells(UPPER[d], d) && DigitChar(d) == UPPER[d]
  {
    Tables();
  }

  /** Blanks in front are skipped, a minus negates, a plus does nothing. */
  lemma {:induction false} IntegerOfSigned(blanks: bytes, n: nat, base: nat)
    requires ValidBase(base) && forall i :: 0 <= i < |blanks| ==> IsSpace(blanks[i])
    ensures Integer(blanks + Print(n, base), base) == Some(n)
    ensures Integer(blanks + [PLUS] + Print(n, base), base) == Some(n)
    ensures Integer(blanks + [MINUS] + Print(n, base), base) == Some(0 - n)
  {
    hide Print, Value, DigitRun, IsSpace;
    var p := Print(n, base);
    IntegerOfPrint(n, base, []);
    assert p + [] == p;
    assert !IsSpace(PLUS) && !IsSpace(MINUS) && !IsSpace(p[0]) && p[0] != PLUS && p[0] != MINUS by {
      FirstIsDigit(p, base);
    }
    Associative(blanks, [PLUS], p);
    Associative(blanks, [MINUS], p);
    SpacesSkipped(blanks, p);
    SpacesSkipped(blanks, [PLUS] + p);
    SpacesSkipped(blanks, [MINUS] + p);
    assert SkipSpaces(p) == p && SkipSign(p) == p;
    assert ([PLUS] + p)[1..] == p && ([MINUS] + p)[1..] == p;
  }

  /** In base 16 a "0x" in front of digits is skipped; without digits behind it the number is its 0. */
  lemma IntegerOfPrefixed(x: byte, n: nat)
    requires x == 'x' as int || x == 'X' as int
    ensures Integer(['0' as int, x] + Print(n, 16), 16) == Some(n)
    ensures Integer(['0' as int, x], 16) == Some(0)
    ensures Integer(['0' as int, x] + Print(n, 10), 10) == Some(0)
  {
    hide Print;
    HexBehind(x, Print(n, 16));
    ValuePrint(n, 16);
    OnlyZero(x, []);
    assert ['0' as int, x] + [] == ['0' as int, x];
    OnlyZero(x, Print(n, 10));
  }

  lemma HexBehind(x: byte, p: bytes)
    requires x == 'x' as int || x == 'X' as int
    requires p != [] && forall i :: 0 <= i < |p| ==> IsDigit(p[i], 16)
    ensures Integer(['0' as int, x] + p, 16) == Some(Value(p, 16))
  {
    hide Value, DigitRun, DigitOf;
    var s := ['0' as int, x] + p;
    assert s[0] == '0' as int && s[1] == x && s[2] == p[0] && s[2..] == p;
    assert SkipSpaces(s) == s && SkipSign(s) == s && !IsNegative(s);
    DigitRunIs(p, 16, |p|);
    assert p[..|p|] == p;
  }

  lemma OnlyZero(x: byte, p: bytes)
    requires x == 'x' as int || x == 'X' as int
    ensures Integer(['0' as int, x] + p, 10) == Some(0)
    ensures p == [] ==> Integer(['0' as int, x] + p, 16) == Some(0)
  {
    hide DigitRun;
    var s := ['0' as int, x] + p;
    assert s[0] == '0' as int && s[1] == x;
    assert SkipSpaces(s) == s && SkipSign(s) == s && !IsNegative(s);
    assert !IsDigit(x, 16) && !IsDigit(x, 10) && IsDigit('0' as int, 10) && IsDigit('0' as int, 16);
    DigitRunIs(s, 10, 1);
    DigitRunIs(s, 16, 1);
    var zero := s[..1];
    assert zero == ['0' as int] && zero[..0] == [];
    assert Value([], 10) == 0 && Value([], 16) == 0;
    assert Value(zero, 10) == 0 && Value(zero, 16) == 0;
  }

  lemma FirstIsDigit(p: bytes, base: nat)
    requires ValidBase(base) && p != [] && IsDigit(p[0], base)
    ensures !IsSpace(PLUS) && !IsSpace(MINUS) && !IsSpace(p[0]) && p[0] != PLUS && p[0] != MINUS
  {}

  lemma {:induction false} SpacesSkipped(blanks: bytes, s: bytes)
    requires forall i :: 0 <= i < |blanks| ==> IsSpace(blanks[i])
    requires s != [] ==> !IsSpace(s[0])
    ensures SkipSpaces(blanks + s) == s
  {
    hide IsSpace;
    if blanks == [] {
      assert blanks + s == s;
    } else {
      assert (blanks + s)[1..] == blanks[1..] + s;
      SpacesSkipped(blanks[1..], s);
    }
  }

  /** A negative size wraps around in 64 bits. */
  lemma StoulOfNegative(n: nat)
    requires 0 < n < TWO64
    ensures Stoul([MINUS] + Decimal(n), 10) == Some(TWO64 - n)
  {
    hide Integer;
    IntegerOfSigned([], n, 10);
    assert [] + [MINUS] + Decimal(n) == [MINUS] + Decimal(n);
  }

  lemma StoulOfTooLarge(n: nat)
    requires n >= TWO64
    ensures Stoul(Decimal(n), 10) == None
  {
    hide Integer;
    IntegerOfSigned([], n, 10);
    assert [] + Decimal(n) == Decimal(n);
  }

  lemma StoiOf(n: nat)
    ensures Stoi(Decimal(n)) == (if n < 0x8000_0000 then Some(n) else None)
    ensures Stoi([MINUS] + Decimal(n)) == (if n <= 0x8000_0000 then Some(0 - n) else None)
  {
    hide Integer;
    IntegerOfSigned([], n, 10);
    assert [] + [MINUS] + Decimal(n) == [MINUS] + Decimal(n) && [] + Decimal(n) == Decimal(n);
  }

  /** Without a digit where the number should begin there is no number. */
  lemma NoInteger(s: bytes, base: nat)
    requires ValidBase(base)
    ensures s == [] ==> Integer(s, base) == None
    ensures s != [] && !IsSpace(s[0]) && s[0] != PLUS && s[0] != MINUS && !IsDigit(s[0], base) ==>
              Integer(s, base) == None
    ensures |s| == 1 && (s[0] == PLUS || s[0] == MINUS) ==> Integer(s, base) == None
  {
    hide DigitOf, Value;
    var t := SkipSign(SkipSpaces(s));
    assert HasHexPrefix(t, base) ==> IsDigit('0' as int, base) by { ZeroIsDigit(base); }
  }

  lemma ZeroIsDigit(base: nat)
    requires ValidBase(base)
    ensures IsDigit('0' as int, base)
  {}

  // ---------------------------------------------------------------- fractions

  function Pow10(n: nat): (r: nat)
    ensures r > 0
  {
    if n == 0 then 1 else 10 * Pow10(n - 1)
  }

  /** Exactly width decimal digits, with leading zeros. */
  function Padded(n: nat, width: nat): (r: bytes)
    ensures |r| == width
    ensures forall i :: 0 <= i < |r| ==> IsDigit(r[i], 10)
  {
    if width == 0 then [] else Padded(n / 10, width - 1) + [DigitChar(n % 10)]
  }

  const MILLION := 1000000

  /** std::to_string of a float holding a number of millionths (the "%f" form). */
  function ToString(millionths: int): (r: bytes)
  {
    var m := if millionths < 0 then -millionths else millionths;
    (if millionths < 0 then [MINUS] else []) + Decimal(m / MILLION) + [DOT] + Padded(m % MILLION, 6)
  }

  /** What the exponent in front of s says: 'e', perhaps a sign, digits; 0 when there is none. */
  function Exponent(s: bytes): int
  {
    if s == [] || (s[0] != 'e' as int && s[0] != 'E' as int) then 0
    else
      var u := SkipSign(s[1..]);
      var n: int := Value(u[..DigitRun(u, 10)], 10);
      if IsNegative(s[1..]) then -n else n
  }

  function Scaled(v: real, exponent: int): real
  {
    if exponent >= 0 then v * Pow10(exponent) as real else v / Pow10(-exponent) as real
  }

  /** std::stof on decimal notation; None stands for the exception. */
  function Stof(s: bytes): (r: Option<real>)
  {
    var t := SkipSpaces(s);
    match Magnitude(SkipSign(t))
    case None => None
    case Some(v) => Some(if IsNegative(t) then -v else v)
  }

  /** What is behind the sign. */
  function Magnitude(u: bytes): Option<real>
  {
    var d := DigitRun(u, 10);
    var dotted := d < |u| && u[d] == DOT;
    var f := if dotted then u[d + 1..] else [];
    var e := DigitRun(f, 10);
    if d + e == 0 then None
    else
      var v := Value(u[..d], 10) as real + Value(f[..e], 10) as real / Pow10(e) as real;
      Some(Scaled(v, Exponent(if dotted then f[e..] else u[d..])))
  }

  lemma {:induction false} ValuePadded(n: nat, width: nat)
    requires n < Pow10(width)
    ensures Value(Padded(n, width), 10) == n
  {
    if width > 0 {
      ValuePadded(n / 10, width - 1);
      var p := Padded(n, width);
      assert p[..|p| - 1] == Padded(n / 10, width - 1);
    }
  }

  function Millionths(m: int): real { m as real / MILLION as real }
}
