/**
 * The date value type: a calendar date held as three integers, read from and
 * written as the `YYYY-MM-DD` full-date shape of RFC 3339 section 5.6.
 */
module Dates {
  import opened Wrappers
  import opened Strings

  datatype Date = Date(year: int, month: int, day: int)

  /** The integer cast of the k-th '-'-separated field; a missing field reads as 0 (PHP's undefined index). */
  function Field(fields: seq<string>, k: nat): int
  {
    if k < |fields| then CastInt(fields[k]) else 0
  }

  /**
   * Date::parse on a string: the empty string gives no date; anything else is
   * split on '-' and its first three fields are integer-cast as year, month, day.
   */
  function Parse(s: string): (r: Option<Date>)
    ensures r.None? <==> s == ""
    ensures r.Some? ==> var f := Split(s, '-');
      r.value.year == Field(f, 0) && r.value.month == Field(f, 1) && r.value.day == Field(f, 2)
  {
    if s == "" then None
    else
      var f := Split(s, '-');
      Some(Date(Field(f, 0), Field(f, 1), Field(f, 2)))
  }

  /** Date->to_s(): sprintf("%04d-%02d-%02d", year, month, day). */
  function ToS(d: Date): (s: string)
    ensures |s| >= 10
  {
    FormatPadded(d.year, 4) + "-" + FormatPadded(d.month, 2) + "-" + FormatPadded(d.day, 2)
  }

  lemma FormatPaddedLength(i: int, width: nat)
    ensures |FormatPadded(i, width)| >= width
  {
  }

  lemma {:induction false} PaddedNumeral(n: nat, width: nat)
    ensures AllDigits(FormatPadded(n, width)) && |FormatPadded(n, width)| >= 1
    ensures '-' !in FormatPadded(n, width)
    ensures CastInt(FormatPadded(n, width)) == n
  {
    var p := FormatPadded(n, width);
    assert p == PadZeros(NatToString(n), width);
    CastIntOfPadded(n, width);
    assert forall k | 0 <= k < |p| :: p[k] != '-' by {
      forall k | 0 <= k < |p| ensures p[k] != '-' {
        assert IsDigit(p[k]);
      }
    }
  }

  /** Parsing the string form of a date with non-negative fields gives the same three fields back. */
  lemma ParseToS(d: Date)
    requires d.year >= 0 && d.month >= 0 && d.day >= 0
    ensures Parse(ToS(d)) == Some(d)
  {
    var a, b, c := FormatPadded(d.year, 4), FormatPadded(d.month, 2), FormatPadded(d.day, 2);
    PaddedNumeral(d.year, 4);
    PaddedNumeral(d.month, 2);
    PaddedNumeral(d.day, 2);
    JoinThree(a, b, c);
    SplitJoin([a, b, c], '-');
    var f := Split(ToS(d), '-');
    assert f == [a, b, c];
    assert Field(f, 0) == d.year && Field(f, 1) == d.month && Field(f, 2) == d.day;
  }

  lemma JoinThree(a: string, b: string, c: string)
    ensures Join([a, b, c], "-") == a + "-" + b + "-" + c
  {
    assert [a, b, c][1..] == [b, c];
    assert [b, c][1..] == [c];
    assert Join([b, c], "-") == b + "-" + c;
  }

  /** The test script's example: "2011-10-25" reads as year 2011, month 10, day 25. */
  lemma ParseExample()
    ensures Parse("2011-10-25") == Some(Date(2011, 10, 25))
  {
    var d := Date(2011, 10, 25);
    assert NatToString(2011) == "2011" by {
      assert NatToString(201) == "201" by {
        assert NatToString(20) == "20";
      }
    }
    assert NatToString(10) == "10";
    assert NatToString(25) == "25";
    assert ToS(d) == "2011-10-25";
    ParseToS(d);
  }

  /** With a negative year the sign is read as a field separator, so the round trip fails. */
  lemma NegativeYearDoesNotRoundTrip()
    ensures ToS(Date(-5, 1, 1)) == "-005-01-01"
    ensures Parse("-005-01-01") == Some(Date(0, 5, 1))
  {
    NegativeYearString();
    NegativeYearParse();
  }

  lemma NegativeYearString()
    ensures ToS(Date(-5, 1, 1)) == "-005-01-01"
  {
    assert FormatPadded(-5, 4) == "-005" by {
      assert NatToString(5) == "5";
      assert Zeros(2) == "00";
    }
    assert FormatPadded(1, 2) == "01" by {
      assert NatToString(1) == "1";
      assert Zeros(1) == "0";
    }
  }

  lemma NegativeYearSplit()
    ensures Split("-005-01-01", '-') == ["", "005", "01", "01"]
  {
    var parts := ["", "005", "01", "01"];
    assert Join(parts, "-") == "-005-01-01" by {
      assert parts[1..] == ["005", "01", "01"];
      JoinThree("005", "01", "01");
    }
    assert forall k | 0 <= k < |parts| :: '-' !in parts[k];
    SplitJoin(parts, '-');
  }

  lemma CastIntPadded()
    ensures CastInt("005") == 5 && CastInt("01") == 1
  {
    assert "005" == Zeros(2) + NatToString(5);
    DigitsValueLeadingZeros(2, "5");
    DigitsValueOfNat(5);
    CastIntOfNumeral("005");
    assert "01" == Zeros(1) + NatToString(1);
    DigitsValueLeadingZeros(1, "1");
    DigitsValueOfNat(1);
    CastIntOfNumeral("01");
  }

  lemma NegativeYearParse()
    ensures Parse("-005-01-01") == Some(Date(0, 5, 1))
  {
    var f := ["", "005", "01", "01"];
    NegativeYearSplit();
    CastIntPadded();
    assert CastInt("") == 0;
    assert Field(f, 0) == 0 && Field(f, 1) == 5 && Field(f, 2) == 1;
  }

  /**
   * A Date object. Its fields are set once by the constructor, so they are
   * constants; two Date objects are the same object only when they are the
   * same reference, which is what PHP's `===` compares.
   */
  class DateObject {
    const date: Date

    /** new Date(year, month, day); year(), month() and day() read the fields back. */
    constructor (year: int, month: int, day: int)
      ensures date == Date(year, month, day)
      ensures date.year == year && date.month == month && date.day == day
    {
      date := Date(year, month, day);
    }
  }

  /** Date::parse as the source runs it: a new Date object, or null for the empty string. */
  method ParseObject(s: string) returns (r: DateObject?)
    ensures r == null <==> s == ""
    ensures r != null ==> fresh(r) && Some(r.date) == Parse(s)
  {
    if s == "" {
      return null;
    }
    var f := Split(s, '-');
    r := new DateObject(Field(f, 0), Field(f, 1), Field(f, 2));
  }
}
