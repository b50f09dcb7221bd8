/**
 * The PHP values the record engine handles and the language rules it relies on:
 * truthiness, the (integer) and (string) casts, loose equality `==`, and
 * ordered arrays with string keys. Dafny's `==` on Value is PHP's strict
 * `===`: same type and same value, and for Date objects the same object.
 */
module Php {
  import opened Wrappers
  import opened Strings
  import Dates

  datatype Value =
    | VNull
    | VBool(b: bool)
    | VInt(i: int)
    | VStr(s: string)
    | VDate(obj: Dates.DateObject)

  /** A string is falsy when it is empty or exactly "0". */
  predicate StringTruthy(s: string) { s != "" && s != "0" }

  /** PHP's conversion to boolean (`if ($v)`, `!$v`). */
  predicate Truthy(v: Value)
  {
    match v
    case VNull => false
    case VBool(b) => b
    case VInt(i) => i != 0
    case VStr(s) => StringTruthy(s)
    case VDate(_) => true
  }

  /** PHP's (integer) cast; an object casts to 1. */
  function IntCast(v: Value): int
  {
    match v
    case VNull => 0
    case VBool(b) => if b then 1 else 0
    case VInt(i) => i
    case VStr(s) => CastInt(s)
    case VDate(_) => 1
  }

  /**
   * PHP's (string) cast. None stands for the fatal error PHP raises when an
   * object without __toString (a Date) is converted to a string.
   */
  function StrCast(v: Value): (r: Option<string>)
    ensures r.None? <==> v.VDate?
  {
    match v
    case VNull => Some("")
    case VBool(b) => Some(if b then "1" else "")
    case VInt(i) => Some(IntToString(i))
    case VStr(s) => Some(s)
    case VDate(_) => None
  }

  // ---------------------------------------------------------------------------
  // Numeric strings, as the comparison operators read them
  // ---------------------------------------------------------------------------

  /** A decimal number: m times ten to the power e. */
  datatype Decimal = Decimal(m: int, e: int)

  function Pow10(k: nat): (r: nat)
    ensures r >= 1
  {
    if k == 0 then 1 else 10 * Pow10(k - 1)
  }

  /** The two decimals denote the same number. */
  predicate SameNumber(a: Decimal, b: Decimal)
  {
    if a.e >= b.e then a.m * Pow10(a.e - b.e) == b.m else a.m == b.m * Pow10(b.e - a.e)
  }

  /** An exponent after a mantissa: `e` or `E`, an optional sign and at least one digit; 0 when there is none. */
  function Exponent(s: string): (int, string)
  {
    if |s| > 0 && (s[0] == 'e' || s[0] == 'E') then
      var w := s[1..];
      var u := if |w| > 0 && (w[0] == '-' || w[0] == '+') then w[1..] else w;
      var c := DigitPrefix(u);
      if |c| == 0 then (0, s)
      else ((if |w| > 0 && w[0] == '-' then 0 - DigitsValue(c) else DigitsValue(c)), u[|c|..])
    else (0, s)
  }

  /** After the integer digits a: a point and the fraction digits, with the value of all the digits and the fraction's length. */
  function Fraction(a: string, v: string): Option<(nat, nat, string)>
    requires AllDigits(a)
  {
    var b := DigitPrefix(v);
    if |a| + |b| == 0 then None
    else
      assert AllDigits(a + b);
      Some((DigitsValue(a + b), |b|, v[|b|..]))
  }

  /** Digits with an optional fraction, or a fraction alone: the value of the digits, the fraction's length and the rest. */
  function Mantissa(u: string): Option<(nat, nat, string)>
  {
    var a := DigitPrefix(u);
    var r := u[|a|..];
    if |r| > 0 && r[0] == '.' then Fraction(a, r[1..])
    else if |a| == 0 then None
    else Some((DigitsValue(a), 0, r))
  }

  /**
   * The number a string starts with, as PHP's comparisons read it: leading
   * white space, an optional sign, digits with an optional fraction or a
   * fraction alone, then an optional exponent; paired with the text after
   * it. None when no number starts the string.
   */
  function NumericPrefix(s: string): Option<(Decimal, string)>
  {
    var t := SkipSpace(s);
    var u := if |t| > 0 && (t[0] == '-' || t[0] == '+') then t[1..] else t;
    match Mantissa(u)
    case None => None
    case Some((m, k, r)) =>
      var x := Exponent(r);
      Some((Decimal(if |t| > 0 && t[0] == '-' then 0 - m else m, x.0 - k), x.1))
  }

  /** The number a string stands for next to an integer: its numeric prefix, or 0 when it has none. */
  function NumberOf(s: string): Decimal
  {
    match NumericPrefix(s)
    case Some((d, _)) => d
    case None => Decimal(0, 0)
  }

  /** A string that is a number through to its end, as two strings must both be to compare as numbers. */
  predicate IsNumericString(s: string)
  {
    NumericPrefix(s).Some? && NumericPrefix(s).value.1 == ""
  }

  /**
   * PHP's loose equality `==`. Booleans compare by truthiness; null equals
   * the falsy values of its partner's type; an integer and a string compare
   * as numbers, the string read up to the end of its numeric prefix; two
   * strings compare as numbers when both are numeric strings and byte by
   * byte otherwise; Date objects compare by their fields; a Date is never
   * equal to a string, which it cannot be cast to, and against an integer
   * it counts as 1.
   */
  predicate LooseEq(a: Value, b: Value)
  {
    match (a, b)
    case (VBool(x), _) => x == Truthy(b)
    case (_, VBool(y)) => Truthy(a) == y
    case (VNull, VNull) => true
    case (VNull, VStr(s)) => s == ""
    case (VStr(s), VNull) => s == ""
    case (VNull, _) => !Truthy(b)
    case (_, VNull) => !Truthy(a)
    case (VInt(x), VInt(y)) => x == y
    case (VInt(x), VStr(s)) => SameNumber(Decimal(x, 0), NumberOf(s))
    case (VStr(s), VInt(y)) => SameNumber(NumberOf(s), Decimal(y, 0))
    case (VStr(s), VStr(t)) =>
      if IsNumericString(s) && IsNumericString(t) then SameNumber(NumberOf(s), NumberOf(t)) else s == t
    case (VDate(x), VDate(y)) => x.date == y.date
    case (VDate(_), VStr(_)) => false
    case (VStr(_), VDate(_)) => false
    case (VDate(_), _) => IntCast(b) == 1
    case (_, VDate(_)) => IntCast(a) == 1
  }

  /** Two decimals denote the same number whichever comes first. */
  lemma SameNumberSymmetric(a: Decimal, b: Decimal)
    ensures SameNumber(a, b) == SameNumber(b, a)
  {
    if a.e == b.e {
      assert Pow10(0) == 1;
    }
  }

  /** Loose equality does not depend on the order of its operands. */
  lemma LooseEqSymmetric(a: Value, b: Value)
    ensures LooseEq(a, b) == LooseEq(b, a)
  {
    if a.VStr? && b.VStr? {
      SameNumberSymmetric(NumberOf(a.s), NumberOf(b.s));
    } else if a.VStr? && b.VInt? {
      SameNumberSymmetric(NumberOf(a.s), Decimal(b.i, 0));
    } else if a.VInt? && b.VStr? {
      SameNumberSymmetric(Decimal(a.i, 0), NumberOf(b.s));
    }
  }

  lemma {:induction false} DigitPrefixStops(a: string, x: string)
    requires AllDigits(a) && (x == "" || !IsDigit(x[0]))
    ensures DigitPrefix(a + x) == a
    decreases |a|
  {
    if |a| == 0 {
      assert a + x == x;
    } else {
      assert (a + x)[1..] == a[1..] + x;
      DigitPrefixStops(a[1..], x);
      assert [a[0]] + a[1..] == a;
    }
  }

  /** A string that starts with a digit is read from its first character: the number is its mantissa, scaled by the exponent after it. */
  lemma NumericPrefixDigitStart(s: string, m: nat, k: nat, r: string)
    requires |s| > 0 && IsDigit(s[0]) && Mantissa(s) == Some((m, k, r))
    ensures NumberOf(s) == Decimal(m, Exponent(r).0 - k)
  {
    assert !IsCSpace(s[0]);
    assert SkipSpace(s) == s;
  }

  /** Digits then a point: the fraction is read after the point. */
  lemma MantissaPoint(a: string, r: string)
    requires |a| > 0 && AllDigits(a) && |r| > 0 && r[0] == '.'
    ensures Mantissa(a + r) == Fraction(a, r[1..])
  {
    DigitPrefixStops(a, r);
    assert (a + r)[|a|..] == r;
  }

  /** Digits, a point, digits: the number of all the digits, scaled down by the fraction's length. */
  lemma MantissaFraction(a: string, b: string, rest: string)
    requires |a| > 0 && AllDigits(a) && AllDigits(b)
    requires rest == "" || !IsDigit(rest[0])
    ensures AllDigits(a + b)
    ensures Mantissa(a + "." + b + rest) == Some((DigitsValue(a + b), |b|, rest))
  {
    var t := b + rest;
    var r := "." + t;
    Regroup(a, ".", b, rest);
    MantissaPoint(a, r);
    assert r[1..] == t;
    FractionDigits(a, b, rest);
  }

  lemma Regroup(a: string, p: string, b: string, rest: string)
    ensures a + p + b + rest == a + (p + (b + rest))
  {
    calc {
      a + p + b + rest;
      a + (p + b) + rest;
      a + ((p + b) + rest);
    }
  }

  lemma FractionDigits(a: string, b: string, rest: string)
    requires |a| > 0 && AllDigits(a) && AllDigits(b)
    requires rest == "" || !IsDigit(rest[0])
    ensures AllDigits(a + b)
    ensures Fraction(a, b + rest) == Some((DigitsValue(a + b), |b|, rest))
  {
    DigitPrefixStops(b, rest);
    assert (b + rest)[|b|..] == rest;
  }

  /** Digits alone: their number, with what follows. */
  lemma MantissaInteger(a: string, rest: string)
    requires |a| > 0 && AllDigits(a)
    requires rest == "" || (!IsDigit(rest[0]) && rest[0] != '.')
    ensures Mantissa(a + rest) == Some((DigitsValue(a), 0, rest))
  {
    DigitPrefixStops(a, rest);
    assert (a + rest)[|a|..] == rest;
  }

  /** `e` and digits: the exponent they write, with what follows. */
  lemma ExponentDigits(c: string, rest: string)
    requires |c| > 0 && AllDigits(c)
    requires rest == "" || !IsDigit(rest[0])
    ensures Exponent("e" + (c + rest)) == (DigitsValue(c) as int, rest)
  {
    var t := c + rest;
    var s := "e" + t;
    assert s[1..] == t;
    assert t[0] == c[0];
    DigitPrefixStops(c, rest);
    assert t[|c|..] == rest;
  }

  /** No exponent: the text stays as it is. */
  lemma ExponentNone(rest: string)
    requires rest == "" || (rest[0] != 'e' && rest[0] != 'E')
    ensures Exponent(rest) == (0, rest)
  {
  }

  lemma LooseEqIntString(x: int, s: string)
    ensures LooseEq(VInt(x), VStr(s)) == SameNumber(Decimal(x, 0), NumberOf(s))
  {
  }

  lemma SameNumberScaledUp(x: int, d: Decimal)
    requires d.e >= 0
    ensures SameNumber(Decimal(x, 0), d) <==> x == d.m * Pow10(d.e)
  {
    if d.e == 0 {
      assert Pow10(0) == 1;
    } else {
      assert d.e - 0 == d.e;
    }
  }

  lemma SameNumberScaledDown(x: int, d: Decimal)
    requires d.e <= 0
    ensures SameNumber(Decimal(x, 0), d) <==> x * Pow10(0 - d.e) == d.m
  {
  }

  /** A string that starts with no digit, point, sign or white space holds no number. */
  lemma NoNumericPrefix(s: string)
    requires |s| > 0 && !IsDigit(s[0]) && !IsCSpace(s[0]) && s[0] != '-' && s[0] != '+' && s[0] != '.'
    ensures NumericPrefix(s) == None
  {
    assert SkipSpace(s) == s;
    assert DigitPrefix(s) == "";
  }

  /**
   * An integer against a string with a fraction compares as a number: it
   * is equal exactly when, scaled by the fraction's length, it equals all
   * the digits (so 1 is "1.0" but neither "1.5" nor "1.9x").
   */
  lemma IntAgainstFraction(x: int, a: string, b: string, rest: string)
    requires |a| > 0 && AllDigits(a) && AllDigits(b)
    requires rest == "" || (!IsDigit(rest[0]) && rest[0] != 'e' && rest[0] != 'E')
    ensures AllDigits(a + b)
    ensures LooseEq(VInt(x), VStr(a + "." + b + rest)) <==> x * Pow10(|b|) == DigitsValue(a + b)
  {
    var s := a + ("." + (b + rest));
    var d := Decimal(DigitsValue(a + b), 0 - |b|);
    Regroup(a, ".", b, rest);
    MantissaFraction(a, b, rest);
    assert s[0] == a[0];
    NumericPrefixDigitStart(s, DigitsValue(a + b), |b|, rest);
    ExponentNone(rest);
    LooseEqIntString(x, s);
    SameNumberScaledDown(x, d);
  }

  /** An integer against digits with an exponent: equal exactly when it is the digits scaled up by the exponent (so 1000 is "1e3"). */
  lemma IntAgainstExponent(x: int, a: string, c: string, rest: string)
    requires |a| > 0 && AllDigits(a) && |c| > 0 && AllDigits(c)
    requires rest == "" || !IsDigit(rest[0])
    ensures LooseEq(VInt(x), VStr(a + "e" + c + rest)) <==> x == DigitsValue(a) * Pow10(DigitsValue(c))
  {
    var r := "e" + (c + rest);
    var s := a + r;
    var d := Decimal(DigitsValue(a), DigitsValue(c));
    Regroup(a, "e", c, rest);
    MantissaInteger(a, r);
    ExponentDigits(c, rest);
    assert s[0] == a[0];
    NumericPrefixDigitStart(s, DigitsValue(a), 0, r);
    assert NumberOf(s) == d;
    LooseEqIntString(x, s);
    SameNumberScaledUp(x, d);
  }

  /** An integer against a string with no number in front: equal exactly when it is 0. */
  lemma IntAgainstNonNumeric(x: int, s: string)
    requires NumericPrefix(s) == None
    ensures LooseEq(VInt(x), VStr(s)) <==> x == 0
  {
  }

  /** A Date is never loosely equal to a string; against an integer it counts as 1. */
  lemma DateAgainstScalar(o: Dates.DateObject, s: string, i: int)
    ensures !LooseEq(VDate(o), VStr(s)) && !LooseEq(VStr(s), VDate(o))
    ensures LooseEq(VDate(o), VInt(i)) <==> i == 1
  {
  }

  /** A non-empty string is not loosely equal to the empty string. */
  lemma NotLooselyEmpty(s: string)
    requires s != ""
    ensures !LooseEq(VStr(s), VStr(""))
  {
    assert NumericPrefix("") == None;
  }

  /** Strictly identical values are loosely equal. */
  lemma StrictImpliesLoose(a: Value)
    ensures LooseEq(a, a)
  {
  }

  // ---------------------------------------------------------------------------
  // Ordered arrays with string keys
  // ---------------------------------------------------------------------------

  predicate DistinctKeys<V>(a: seq<(string, V)>)
  {
    forall i, j | 0 <= i < j < |a| :: a[i].0 != a[j].0
  }

  /** A PHP array: key/value pairs in insertion order, no key twice. */
  type Assoc<V> = a: seq<(string, V)> | DistinctKeys(a) witness []

  function Keys<V>(a: seq<(string, V)>): set<string>
  {
    set i | 0 <= i < |a| :: a[i].0
  }

  lemma KeysAppend<V>(a: seq<(string, V)>, b: seq<(string, V)>)
    ensures Keys(a + b) == Keys(a) + Keys(b)
  {
    var ab := a + b;
    forall x | x in Keys(ab) ensures x in Keys(a) + Keys(b) {
      var i :| 0 <= i < |ab| && ab[i].0 == x;
      if i >= |a| { assert b[i - |a|].0 == x; }
    }
    forall x | x in Keys(a) + Keys(b) ensures x in Keys(ab) {
      if x in Keys(a) {
        var i :| 0 <= i < |a| && a[i].0 == x;
        assert ab[i].0 == x;
      } else {
        var i :| 0 <= i < |b| && b[i].0 == x;
        assert ab[|a| + i].0 == x;
      }
    }
  }

  lemma KeysSingleton<V>(x: (string, V))
    ensures Keys([x]) == {x.0}
  {
    assert [x][0] == x;
  }

  /** The first position holding key k. */
  function IndexOf<V>(a: seq<(string, V)>, k: string): (i: nat)
    requires k in Keys(a)
    ensures i < |a| && a[i].0 == k
    ensures forall j | 0 <= j < i :: a[j].0 != k
  {
    if a[0].0 == k then 0
    else
      assert k in Keys(a[1..]) by {
        var j :| 0 <= j < |a| && a[j].0 == k;
        assert a[1..][j - 1].0 == k;
      }
      1 + IndexOf(a[1..], k)
  }

  lemma IndexOfAt<V>(a: Assoc<V>, i: nat)
    requires i < |a|
    ensures a[i].0 in Keys(a) && IndexOf(a, a[i].0) == i
  {
    assert a[i].0 in Keys(a);
  }

  /** $a[$k], or None when the key is absent (array_key_exists is false). */
  function Lookup<V>(a: Assoc<V>, k: string): (r: Option<V>)
    ensures r.Some? <==> k in Keys(a)
  {
    if k in Keys(a) then Some(a[IndexOf(a, k)].1) else None
  }

  lemma LookupAt<V>(a: Assoc<V>, i: nat)
    requires i < |a|
    ensures Lookup(a, a[i].0) == Some(a[i].1)
  {
    IndexOfAt(a, i);
  }

  /** $a[$k] = $v: an existing key keeps its position, a new one is appended. */
  function Put<V>(a: Assoc<V>, k: string, v: V): (r: Assoc<V>)
    ensures Keys(r) == Keys(a) + {k}
    ensures k !in Keys(a) ==> r == a + [(k, v)]
    ensures k in Keys(a) ==>
      |r| == |a| && r[IndexOf(a, k)] == (k, v) && forall j | 0 <= j < |a| && j != IndexOf(a, k) :: r[j] == a[j]
  {
    if k in Keys(a) then
      var i := IndexOf(a, k);
      var r := a[i := (k, v)];
      assert Keys(r) == Keys(a) by {
        forall x | x in Keys(r) ensures x in Keys(a) {
          var j :| 0 <= j < |r| && r[j].0 == x;
          assert a[j].0 == x;
        }
        forall x | x in Keys(a) ensures x in Keys(r) {
          var j :| 0 <= j < |a| && a[j].0 == x;
          assert r[j].0 == x;
        }
      }
      r
    else
      KeysAppend(a, [(k, v)]);
      KeysSingleton((k, v));
      var r := a + [(k, v)];
      assert DistinctKeys(r) by {
        forall i, j | 0 <= i < j < |r| ensures r[i].0 != r[j].0 {
          if j == |a| { assert r[i].0 in Keys(a); }
        }
      }
      r
  }

  /** After $a[$k] = $v, reading k gives v and every other key reads as before. */
  lemma PutLookup<V>(a: Assoc<V>, k: string, v: V, k': string)
    ensures Lookup(Put(a, k, v), k) == Some(v)
    ensures k' != k ==> Lookup(Put(a, k, v), k') == Lookup(a, k')
  {
    var r := Put(a, k, v);
    if k in Keys(a) {
      IndexOfAt(r, IndexOf(a, k));
      if k' != k && k' in Keys(a) {
        var j := IndexOf(a, k');
        IndexOfAt(r, j);
      }
    } else {
      IndexOfAt(r, |a|);
      if k' != k && k' in Keys(a) {
        var j := IndexOf(a, k');
        IndexOfAt(r, j);
      }
    }
  }

  /** A non-empty array is its pairs before the last, then the last. */
  lemma InitLast<V>(pairs: seq<(string, V)>)
    requires |pairs| > 0
    ensures pairs == pairs[..|pairs| - 1] + [pairs[|pairs| - 1]]
  {
  }

  /** The array PHP builds by assigning the pairs in order (later duplicates overwrite in place). */
  function FromPairs<V>(pairs: seq<(string, V)>): (r: Assoc<V>)
    ensures Keys(r) == Keys(pairs)
  {
    if |pairs| == 0 then []
    else
      var init := pairs[..|pairs| - 1];
      var last := pairs[|pairs| - 1];
      var r := Put(FromPairs(init), last.0, last.1);
      InitLast(pairs);
      KeysAppend(init, [last]);
      KeysSingleton(last);
      r
  }

  /** Assigning one more pair is a Put on the array built so far. */
  lemma FromPairsSnoc<V>(pairs: seq<(string, V)>, p: (string, V))
    ensures FromPairs(pairs + [p]) == Put(FromPairs(pairs), p.0, p.1)
  {
    assert (pairs + [p])[..|pairs|] == pairs;
  }

  /** Pairs with distinct keys build exactly the array they list. */
  lemma {:induction false} FromPairsDistinct<V>(pairs: seq<(string, V)>)
    requires DistinctKeys(pairs)
    ensures FromPairs(pairs) == pairs
    decreases |pairs|
  {
    if |pairs| > 0 {
      var init := pairs[..|pairs| - 1];
      var last := pairs[|pairs| - 1];
      FromPairsDistinct(init);
      assert last.0 !in Keys(init);
      InitLast(pairs);
    }
  }

  /** The values of an array in order (array_values). */
  function Values<V>(a: seq<(string, V)>): (r: seq<V>)
    ensures |r| == |a| && forall i | 0 <= i < |a| :: r[i] == a[i].1
  {
    seq(|a|, i requires 0 <= i < |a| => a[i].1)
  }

  /** The keys of an array in order (array_keys). */
  function KeySeq<V>(a: seq<(string, V)>): (r: seq<string>)
    ensures |r| == |a| && forall i | 0 <= i < |a| :: r[i] == a[i].0
  {
    seq(|a|, i requires 0 <= i < |a| => a[i].0)
  }
}
