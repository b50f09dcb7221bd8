/**
 * The Test Anything Protocol harness the test scripts use: global pass/fail
 * counters behind ok/not_ok/is/is_not, the plan and the exit status, and the
 * reader that tallies another script's TAP output.
 */
module Tap {
  import opened Wrappers
  import opened Strings
  import opened Php
  import opened Exceptions

  /** The message suffix of a test line: " - " and the message's first line when it is truthy, the falsy message itself otherwise. */
  function MessageSuffix(message: string): (r: string)
    ensures StringTruthy(message) ==> r == " - " + Split(message, '\n')[0]
    ensures !StringTruthy(message) ==> r == message
  {
    SplitNonEmpty(message, '\n');
    if StringTruthy(message) then " - " + Split(message, '\n')[0] else message
  }

  function TestLine(passed: bool, n: int, message: string): string
  {
    (if passed then "ok " else "not ok ") + IntToString(n) + MessageSuffix(message)
  }

  /** The string a value interpolates to; None when it is an object PHP cannot convert. */
  function Show(v: Value): Option<string>
  {
    StrCast(v)
  }

  class Harness {
    var count: nat
    var success: nat
    var failure: nat
    /** $__EXPECTED__TESTS__: null, 'none' after no_plan, or the planned number. */
    var expected: Value
    /** What the script has printed, line by line. */
    var output: seq<string>

    ghost predicate Valid()
      reads this
    {
      count == success + failure
    }

    constructor ()
      ensures count == 0 && success == 0 && failure == 0 && expected == VNull && output == []
      ensures Valid()
    {
      count := 0;
      success := 0;
      failure := 0;
      expected := VNull;
      output := [];
    }

    method NoPlan()
      modifies this
      ensures expected == VStr("none")
      ensures count == old(count) && success == old(success) && failure == old(failure) && output == old(output)
    {
      expected := VStr("none");
    }

    method Plan(tests: int)
      modifies this
      ensures expected == VInt(tests)
      ensures output == old(output) + ["# planned to run " + IntToString(tests) + " tests", "1.." + IntToString(tests)]
      ensures count == old(count) && success == old(success) && failure == old(failure)
    {
      expected := VInt(tests);
      output := output + ["# planned to run " + IntToString(tests) + " tests", "1.." + IntToString(tests)];
    }

    /** ok($cond, $message): one more test, passed exactly when the condition is truthy; the condition is returned. */
    method Ok(cond: Value, message: string) returns (r: Value)
      requires Valid()
      modifies this
      ensures Valid()
      ensures r == cond
      ensures count == old(count) + 1
      ensures Truthy(cond) ==> success == old(success) + 1 && failure == old(failure)
      ensures !Truthy(cond) ==> failure == old(failure) + 1 && success == old(success)
      ensures output == old(output) + [TestLine(Truthy(cond), count, message)]
      ensures expected == old(expected)
    {
      count := count + 1;
      var suffix := "";
      if StringTruthy(message) {
        var lines := Split(message, '\n');
        SplitNonEmpty(message, '\n');
        suffix := " - " + lines[0];
      } else {
        suffix := message;
      }
      if Truthy(cond) {
        success := success + 1;
        output := output + ["ok " + IntToString(count) + suffix];
      } else {
        failure := failure + 1;
        output := output + ["not ok " + IntToString(count) + suffix];
      }
      r := cond;
    }

    /** not_ok($cond, $message) is ok(!$cond, $message). */
    method NotOk(cond: Value, message: string) returns (r: Value)
      requires Valid()
      modifies this
      ensures Valid()
      ensures r == VBool(!Truthy(cond))
      ensures count == old(count) + 1
      ensures !Truthy(cond) ==> success == old(success) + 1 && failure == old(failure)
      ensures Truthy(cond) ==> failure == old(failure) + 1 && success == old(success)
      ensures output == old(output) + [TestLine(!Truthy(cond), count, message)]
      ensures expected == old(expected)
    {
      r := Ok(VBool(!Truthy(cond)), message);
    }

    /**
     * is($left, $right, $message): passes exactly when the two are identical
     * (`===`); a failure prints both values, which is fatal for a Date.
     */
    method Is(left: Value, right: Value, message: string) returns (r: Result<bool, Failure>)
      requires Valid()
      modifies this
      ensures Valid()
      ensures count == old(count) + 1
      ensures left == right ==> r == Success(true) && success == old(success) + 1 && failure == old(failure)
      ensures left != right ==> failure == old(failure) + 1 && success == old(success)
      ensures left != right && Show(left).Some? && Show(right).Some? ==>
        r == Success(false) &&
        output == old(output) + [TestLine(false, count, message),
                                 "# expected '" + Show(right).value + "', got '" + Show(left).value + "'"]
      ensures left == right ==> output == old(output) + [TestLine(true, count, message)]
      ensures left != right && (Show(left).None? || Show(right).None?) ==>
        r.Failure? && output == old(output) + [TestLine(false, count, message)]
      ensures expected == old(expected)
    {
      var ret := Ok(VBool(left == right), message);
      if !Truthy(ret) {
        var l := Show(left);
        var rt := Show(right);
        if l.None? || rt.None? {
          return Failure(Fatal("Object of class Date could not be converted to string"));
        }
        output := output + ["# expected '" + rt.value + "', got '" + l.value + "'"];
      }
      r := Success(Truthy(ret));
    }

    /** is_not($left, $right, $message): passes exactly when the two are not identical. */
    method IsNot(left: Value, right: Value, message: string) returns (r: Result<bool, Failure>)
      requires Valid()
      modifies this
      ensures Valid()
      ensures count == old(count) + 1
      ensures left != right ==> r == Success(true) && success == old(success) + 1 && failure == old(failure)
      ensures left == right ==> failure == old(failure) + 1 && success == old(success)
      ensures left == right && Show(left).Some? ==>
        r == Success(false) &&
        output == old(output) + [TestLine(false, count, message),
                                 "# got '" + Show(left).value + "', should be not be '" + Show(right).value + "'"]
      ensures left != right ==> output == old(output) + [TestLine(true, count, message)]
      ensures left == right && Show(left).None? ==>
        r.Failure? && output == old(output) + [TestLine(false, count, message)]
      ensures expected == old(expected)
    {
      var ret := NotOk(VBool(left == right), message);
      if !Truthy(ret) {
        var l := Show(left);
        var rt := Show(right);
        if l.None? || rt.None? {
          return Failure(Fatal("Object of class Date could not be converted to string"));
        }
        output := output + ["# got '" + l.value + "', should be not be '" + rt.value + "'"];
      }
      r := Success(Truthy(ret));
    }

    /**
     * finalize(): the exit status is the number of failed tests, or 0 when
     * the plan is loosely equal to 'none'; the notes printed depend on the plan.
     */
    method Finalize() returns (status: int)
      requires Valid()
      modifies this
      ensures LooseEq(expected, VStr("none")) ==> status == 0 && output == old(output)
      ensures !LooseEq(expected, VStr("none")) ==> status == failure
      ensures count == old(count) && success == old(success) && failure == old(failure) && expected == old(expected)
      ensures !LooseEq(expected, VStr("none")) && expected == VNull ==>
        output == old(output) + ["# no test plan - " + IntToString(success) + " passed, " + IntToString(failure) + " failed"]
    {
      if LooseEq(expected, VStr("none")) {
        return 0;
      }
      var all := VInt(count) == expected;
      if expected != VNull {
        var exp := Show(expected);
        if !all && exp.Some? {
          output := output + ["# planned " + exp.value + " tests but only executed " + IntToString(count)];
        }
        if failure != 0 {
          output := output + ["# " + IntToString(failure) + " tests failed, " + IntToString(success) + " passed"];
        }
      } else {
        output := output + ["# no test plan - " + IntToString(success) + " passed, " + IntToString(failure) + " failed"];
      }
      status := failure;
    }
  }

  /** Under PHP's loose comparison a plan of 0 tests equals 'none', so it exits 0 like no_plan. */
  lemma ZeroPlanIsNoPlan()
    ensures LooseEq(VInt(0), VStr("none"))
    ensures forall n: int | n != 0 :: !LooseEq(VInt(n), VStr("none"))
  {
    NoNumericPrefix("none");
    forall n: int
      ensures LooseEq(VInt(n), VStr("none")) <==> n == 0
    {
      IntAgainstNonNumeric(n, "none");
    }
  }

  // ---------------------------------------------------------------------------
  // parse_contents
  // ---------------------------------------------------------------------------

  /** What a line of TAP output is, by the patterns the reader tries in order. */
  datatype LineKind = Blank | PlanLine(from: nat, to: nat) | OkLine | NotOkLine | Other

  function Classify(line: string): LineKind
  {
    var a := DigitPrefix(line);
    var rest := line[|a|..];
    if line == "" then Blank
    else if |a| > 0 && |rest| > 2 && rest[..2] == ".." && AllDigits(rest[2..]) then
      PlanLine(DigitsValue(a), DigitsValue(rest[2..]))
    else if |line| > 3 && line[..3] == "ok " && IsDigit(line[3]) then OkLine
    else if |line| > 7 && line[..7] == "not ok " && IsDigit(line[7]) then NotOkLine
    else Other
  }

  /** The reader's counters: passes, failures, and the plan's size once a plan line was seen. */
  datatype Tally = Tally(pass: nat, fail: nat, count: Option<int>)

  function Step(t: Tally, line: string): Tally
  {
    match Classify(line)
    case PlanLine(from, to) => t.(count := Some(to - from + 1))
    case OkLine => t.(pass := t.pass + 1)
    case NotOkLine => t.(fail := t.fail + 1)
    case _ => t
  }

  /** The counters after reading the lines in order. */
  function TallyOf(lines: seq<string>): Tally
  {
    if |lines| == 0 then Tally(0, 0, None)
    else Step(TallyOf(lines[..|lines| - 1]), lines[|lines| - 1])
  }

  /**
   * The returned "pass/fail/count": pass is clamped to the plan's size; with
   * no plan line, count is undefined and prints as nothing, and any pass
   * count compares greater than it, so it prints as nothing too.
   */
  function Summary(t: Tally): string
  {
    var pass :=
      match t.count
      case None => if t.pass > 0 then "" else "0"
      case Some(c) => IntToString(if t.pass > c then c else t.pass);
    pass + "/" + IntToString(t.fail) + "/" + (if t.count.Some? then IntToString(t.count.value) else "")
  }

  /** parse_contents($name, $tests): reads the lines of a script's output and returns its summary. */
  method ParseContents(tests: string) returns (r: string)
    ensures r == Summary(TallyOf(Split(tests, '\n')))
  {
    var lines := Split(tests, '\n');
    var current := 0;
    var pass := 0;
    var fail := 0;
    var count: Option<int> := None;
    for lineno := 0 to |lines|
      invariant Tally(pass, fail, count) == TallyOf(lines[..lineno])
      invariant current == pass + fail
    {
      var line := lines[lineno];
      assert lines[..lineno + 1][..lineno] == lines[..lineno];
      match Classify(line) {
        case Blank =>
        case PlanLine(from, to) =>
          count := Some((to - from) + 1);
        case OkLine =>
          current := current + 1;
          pass := pass + 1;
        case NotOkLine =>
          current := current + 1;
          fail := fail + 1;
        case Other =>
      }
    }
    assert lines[..|lines|] == lines;
    var passText := "";
    match count {
      case None =>
        passText := if pass > 0 then "" else "0";
      case Some(c) =>
        passText := IntToString(if pass > c then c else pass);
    }
    r := passText + "/" + IntToString(fail) + "/" + (if count.Some? then IntToString(count.value) else "");
  }

  /** The number of test lines, counted from the front. */
  function Tests(lines: seq<string>): nat
  {
    if |lines| == 0 then 0
    else (if Classify(lines[0]).OkLine? || Classify(lines[0]).NotOkLine? then 1 else 0) + Tests(lines[1..])
  }

  lemma {:induction false} TestsAppend(lines: seq<string>, line: string)
    ensures Tests(lines + [line]) == Tests(lines) + (if Classify(line).OkLine? || Classify(line).NotOkLine? then 1 else 0)
    decreases |lines|
  {
    if |lines| == 0 {
      assert lines + [line] == [line];
    } else {
      assert (lines + [line])[1..] == lines[1..] + [line];
      TestsAppend(lines[1..], line);
    }
  }

  /** Every "ok N" and "not ok N" line is counted once, as a pass or as a failure, wherever it stands. */
  lemma {:induction false} TallyCountsTests(lines: seq<string>)
    ensures TallyOf(lines).pass + TallyOf(lines).fail == Tests(lines)
    decreases |lines|
  {
    if |lines| > 0 {
      var init := lines[..|lines| - 1];
      TallyCountsTests(init);
      TestsAppend(init, lines[|lines| - 1]);
      assert init + [lines[|lines| - 1]] == lines;
    }
  }

  /** Blank lines, diagnostics and unknown lines change no counter. */
  lemma NonTestLineIgnored(lines: seq<string>, line: string)
    requires line == "" || (|line| > 0 && line[0] == '#')
    ensures TallyOf(lines + [line]) == TallyOf(lines)
  {
    assert (lines + [line])[..|lines|] == lines;
    if line != "" {
      assert DigitPrefix(line) == "";
      if |line| > 3 { assert line[..3][0] == '#'; }
      if |line| > 7 { assert line[..7][0] == '#'; }
    }
  }

  /** A plan line "a..b" sets the count to b - a + 1, whatever came before; the last plan line wins. */
  lemma PlanLineSetsCount(lines: seq<string>, a: string, b: string)
    requires |a| > 0 && AllDigits(a) && |b| > 0 && AllDigits(b)
    ensures TallyOf(lines + [a + ".." + b]).count == Some(DigitsValue(b) - DigitsValue(a) + 1)
    ensures TallyOf(lines + [a + ".." + b]).pass == TallyOf(lines).pass
    ensures TallyOf(lines + [a + ".." + b]).fail == TallyOf(lines).fail
  {
    var line := a + ".." + b;
    assert (lines + [line])[..|lines|] == lines;
    DigitPrefixOfDigitsThen(a, ".." + b);
    assert line == a + (".." + b);
    assert DigitPrefix(line) == a && line != "";
    var rest := line[|a|..];
    assert rest == ".." + b;
    assert rest[..2] == ".." && rest[2..] == b;
    assert Classify(line) == PlanLine(DigitsValue(a), DigitsValue(b));
  }

  /** The longest digit prefix of digits followed by a non-digit is those digits. */
  lemma {:induction false} DigitPrefixOfDigitsThen(a: string, t: string)
    requires AllDigits(a) && (t == "" || !IsDigit(t[0]))
    ensures DigitPrefix(a + t) == a
    decreases |a|
  {
    if |a| > 0 {
      assert (a + t)[1..] == a[1..] + t;
      DigitPrefixOfDigitsThen(a[1..], t);
      assert [a[0]] + a[1..] == a;
    } else {
      assert a + t == t;
    }
  }
}
