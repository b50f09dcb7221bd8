/**
 * Character and string helpers with PHP's meaning: explode/join, decimal
 * formatting (sprintf's %d and %0Nd) and the (integer) cast of a string.
 * Strings are sequences of characters; only ASCII case mapping is modelled.
 */
module Strings {

  predicate IsDigit(c: char) { '0' <= c <= '9' }
  predicate IsLower(c: char) { 'a' <= c <= 'z' }
  predicate IsUpper(c: char) { 'A' <= c <= 'Z' }

  /** PCRE's `\s` in the PHP of the source's era: space, tab, newline, carriage return, form feed. */
  predicate IsPcreSpace(c: char) { c == ' ' || c == '\t' || c == '\n' || c == '\r' || c as int == 12 }

  /** C's isspace, which strtol (and so PHP's integer cast) skips: `\s` plus vertical tab. */
  predicate IsCSpace(c: char) { IsPcreSpace(c) || c as int == 11 }

  function ToLower(c: char): (r: char)
    ensures IsUpper(c) ==> IsLower(r)
    ensures !IsUpper(c) ==> r == c
  {
    if IsUpper(c) then (c as int + 32) as char else c
  }

  function ToUpper(c: char): (r: char)
    ensures IsLower(c) ==> IsUpper(r)
    ensures !IsLower(c) ==> r == c
  {
    if IsLower(c) then (c as int - 32) as char else c
  }

  predicate EndsWith(s: string, suffix: string) {
    |suffix| <= |s| && s[|s| - |suffix|..] == suffix
  }

  predicate StartsWith(s: string, prefix: string) {
    |prefix| <= |s| && s[..|prefix|] == prefix
  }

  // ---------------------------------------------------------------------------
  // explode / join
  // ---------------------------------------------------------------------------

  /** PHP's explode(c, s): the pieces between occurrences of `c`; never empty. */
  function Split(s: string, c: char): (parts: seq<string>)
    decreases |s|
  {
    if |s| == 0 then [""]
    else
      var rest := Split(s[1..], c);
      if s[0] == c then [""] + rest else [[s[0]] + rest[0]] + rest[1..]
  }

  /** PHP's join(sep, parts). */
  function Join(parts: seq<string>, sep: string): string
  {
    if |parts| == 0 then ""
    else if |parts| == 1 then parts[0]
    else parts[0] + sep + Join(parts[1..], sep)
  }

  lemma {:induction false} SplitNonEmpty(s: string, c: char)
    ensures |Split(s, c)| >= 1
  {
    if |s| > 0 {
      SplitNonEmpty(s[1..], c);
    }
  }

  /** A prefix free of the separator extends the first piece. */
  lemma {:induction false} SplitPrefix(p: string, t: string, c: char)
    requires c !in p
    ensures |Split(p + t, c)| >= 1 && |Split(t, c)| >= 1
    ensures Split(p + t, c) == [p + Split(t, c)[0]] + Split(t, c)[1..]
    decreases |p|
  {
    SplitNonEmpty(t, c);
    SplitNonEmpty(p + t, c);
    if |p| > 0 {
      var st := Split(t, c);
      SplitPrefix(p[1..], t, c);
      assert (p + t)[1..] == p[1..] + t;
      var rest := Split(p[1..] + t, c);
      assert rest == [p[1..] + st[0]] + st[1..];
      assert Split(p + t, c) == [[p[0]] + rest[0]] + rest[1..];
      assert [p[0]] + (p[1..] + st[0]) == p + st[0];
    } else {
      var st := Split(t, c);
      assert p + t == t;
      assert p + st[0] == st[0];
      assert [st[0]] + st[1..] == st;
    }
  }

  /** Every piece is free of the separator. */
  lemma {:induction false} SplitPiecesFree(s: string, c: char)
    ensures forall k :: 0 <= k < |Split(s, c)| ==> c !in Split(s, c)[k]
    decreases |s|
  {
    if |s| > 0 {
      SplitPiecesFree(s[1..], c);
      SplitNonEmpty(s[1..], c);
    }
  }

  /** explode undoes join when no piece contains the separator. */
  lemma {:induction false} SplitJoin(parts: seq<string>, c: char)
    requires |parts| >= 1
    requires forall k :: 0 <= k < |parts| ==> c !in parts[k]
    ensures Split(Join(parts, [c]), c) == parts
  {
    if |parts| == 1 {
      SplitPrefix(parts[0], "", c);
      assert parts[0] + "" == parts[0];
    } else {
      var rest := Join(parts[1..], [c]);
      SplitJoin(parts[1..], c);
      assert parts[0] + [c] + rest == parts[0] + ([c] + rest);
      SplitPrefix(parts[0], [c] + rest, c);
      assert ([c] + rest)[1..] == rest;
      assert Split([c] + rest, c) == [""] + Split(rest, c);
      assert Join(parts, [c]) == parts[0] + ([c] + rest);
      assert parts[0] + "" == parts[0];
      assert [parts[0]] + parts[1..] == parts;
    }
  }

  // ---------------------------------------------------------------------------
  // Decimal digits
  // ---------------------------------------------------------------------------

  function DigitChar(d: nat): (c: char)
    requires d < 10
    ensures IsDigit(c)
  {
    ('0' as int + d) as char
  }

  function DigitValue(c: char): nat
    requires IsDigit(c)
  {
    c as int - '0' as int
  }

  predicate AllDigits(s: string) { forall k :: 0 <= k < |s| ==> IsDigit(s[k]) }

  /** The decimal numeral of n, without leading zeros (sprintf's %d). */
  function NatToString(n: nat): (s: string)
    ensures |s| >= 1 && AllDigits(s)
    decreases n
  {
    if n < 10 then [DigitChar(n)] else NatToString(n / 10) + [DigitChar(n % 10)]
  }

  /** PHP's string form of an integer: a minus sign before the magnitude. */
  function IntToString(i: int): string
  {
    if i < 0 then "-" + NatToString(-i) else NatToString(i)
  }

  /** The value of a numeral read from the left. */
  function DigitsValue(s: string): nat
    requires AllDigits(s)
  {
    if |s| == 0 then 0 else DigitsValue(s[..|s| - 1]) * 10 + DigitValue(s[|s| - 1])
  }

  lemma {:induction false} DigitsValueOfNat(n: nat)
    ensures DigitsValue(NatToString(n)) == n
    decreases n
  {
    if n >= 10 {
      var s := NatToString(n);
      DigitsValueOfNat(n / 10);
      assert s[..|s| - 1] == NatToString(n / 10);
    }
  }

  function Zeros(k: nat): (s: string)
    ensures |s| == k && AllDigits(s)
  {
    seq(k, _ => '0')
  }

  lemma {:induction false} DigitsValueLeadingZeros(k: nat, s: string)
    requires AllDigits(s)
    ensures AllDigits(Zeros(k) + s)
    ensures DigitsValue(Zeros(k) + s) == DigitsValue(s)
    decreases |s|
  {
    var z := Zeros(k) + s;
    if |s| == 0 {
      assert z == Zeros(k);
      ZerosValue(k);
    } else {
      DigitsValueLeadingZeros(k, s[..|s| - 1]);
      assert z[..|z| - 1] == Zeros(k) + s[..|s| - 1];
    }
  }

  lemma {:induction false} ZerosValue(k: nat)
    ensures DigitsValue(Zeros(k)) == 0
  {
    if k > 0 {
      ZerosValue(k - 1);
      assert Zeros(k)[..k - 1] == Zeros(k - 1);
    }
  }

  /** Left-pads a numeral with zeros to the given width. */
  function PadZeros(s: string, width: nat): (r: string)
  {
    if |s| >= width then s else Zeros(width - |s|) + s
  }

  /** sprintf("%0<width>d", i): the sign counts towards the width and precedes the zeros. */
  function FormatPadded(i: int, width: nat): string
  {
    if i < 0 then "-" + PadZeros(NatToString(-i), if width > 0 then width - 1 else 0)
    else PadZeros(NatToString(i), width)
  }

  // ---------------------------------------------------------------------------
  // PHP's (integer) cast of a string: strtol in base 10 (leading C whitespace,
  // an optional sign, then the longest run of digits; no digits gives 0)
  // ---------------------------------------------------------------------------

  function SkipSpace(s: string): string
  {
    if |s| > 0 && IsCSpace(s[0]) then SkipSpace(s[1..]) else s
  }

  function DigitPrefix(s: string): (r: string)
    ensures AllDigits(r)
    ensures |r| <= |s| && r == s[..|r|]
  {
    if |s| > 0 && IsDigit(s[0]) then [s[0]] + DigitPrefix(s[1..]) else ""
  }

  function CastInt(s: string): int
  {
    var t := SkipSpace(s);
    if |t| > 0 && t[0] == '-' then 0 - DigitsValue(DigitPrefix(t[1..]))
    else if |t| > 0 && t[0] == '+' then DigitsValue(DigitPrefix(t[1..]))
    else DigitsValue(DigitPrefix(t))
  }

  lemma {:induction false} DigitPrefixOfDigits(s: string)
    requires AllDigits(s)
    ensures DigitPrefix(s) == s
  {
    if |s| > 0 {
      DigitPrefixOfDigits(s[1..]);
    }
  }

  /** The integer cast reads back a zero-padded numeral. */
  lemma CastIntOfPadded(n: nat, width: nat)
    ensures CastInt(PadZeros(NatToString(n), width)) == n
  {
    var s := NatToString(n);
    var p := PadZeros(s, width);
    var k: nat := if |s| >= width then 0 else width - |s|;
    assert p == Zeros(k) + s by {
      if |s| >= width { assert Zeros(0) + s == s; }
    }
    DigitsValueLeadingZeros(k, s);
    DigitPrefixOfDigits(p);
    DigitsValueOfNat(n);
    assert DigitsValue(p) == n;
    CastIntOfNumeral(p);
  }

  /** The integer cast of a non-empty numeral is its value. */
  lemma CastIntOfNumeral(p: string)
    requires |p| > 0 && AllDigits(p)
    ensures CastInt(p) == DigitsValue(p)
  {
    assert IsDigit(p[0]);
    assert !IsCSpace(p[0]);
    assert SkipSpace(p) == p;
    DigitPrefixOfDigits(p);
  }

  /** The integer cast inverts PHP's string form of an integer. */
  lemma CastIntOfIntToString(i: int)
    ensures CastInt(IntToString(i)) == i
  {
    if i < 0 {
      var s := NatToString(-i);
      assert ("-" + s)[1..] == s;
      DigitPrefixOfDigits(s);
      DigitsValueOfNat(-i);
    } else {
      CastIntOfPadded(i, 0);
      assert PadZeros(NatToString(i), 0) == NatToString(i);
    }
  }
}
