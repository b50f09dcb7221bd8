/**
 * The camelize/decamelize part of the inflection test script, run against
 * one fresh pair of caches.
 */
module InflectionScript {
  import opened Wrappers
  import opened Strings
  import opened Exceptions
  import opened Inflection

  lemma JoinTestCamelize()
    ensures Join(["test", "camelize"], "_") == "test_camelize"
  {
  }

  lemma CamelWordsTestCamelize()
    ensures CamelWords(["test", "camelize"]) == "TestCamelize"
  {
  }

  lemma PlainTestCamelize()
    ensures PlainWords(["test", "camelize"])
  {
  }

  lemma CamelizeTestCamelize()
    ensures CamelizeText("test_camelize") == "TestCamelize"
    ensures DecamelizeText("TestCamelize") == "test_camelize"
  {
    PlainTestCamelize();
    CamelizeRoundTrip(["test", "camelize"]);
    JoinTestCamelize();
    CamelWordsTestCamelize();
  }

  /** A name whose first word is already upper-case camelizes to the same text. */
  lemma CamelizeUpperTestCamelize()
    ensures CamelizeText("Test_camelize") == "TestCamelize"
  {
    var ws := ["Test", "camelize"];
    SplitJoin(ws, '_');
    assert Join(ws, "_") == "Test_camelize";
    assert CamelWords(ws) == "TestCamelize";
  }

  lemma JoinTestDeCamelize()
    ensures Join(["test", "de", "camelize"], "_") == "test_de_camelize"
  {
  }

  lemma CamelWordsTestDeCamelize()
    ensures CamelWords(["test", "de", "camelize"]) == "TestDeCamelize"
  {
  }

  lemma DecamelizeTestDeCamelize()
    ensures DecamelizeText("TestDeCamelize") == "test_de_camelize"
  {
    CamelizeRoundTrip(["test", "de", "camelize"]);
    JoinTestDeCamelize();
    CamelWordsTestDeCamelize();
  }

  /** Two upper-case letters not followed by a lower-case one stay together as one word. */
  lemma AcronymPair(s: string, x: nat, out: string)
    requires x + 2 <= |s| && out != ""
    requires IsUpper(s[x]) && IsUpper(s[x + 1]) && !(x + 2 < |s| && IsLower(s[x + 2]))
    ensures DecamelizeFrom(s, x, out, false) == DecamelizeFrom(s, x + 2, out + "_" + [ToLower(s[x]), ToLower(s[x + 1])], true)
  {
    assert out + "_" + [ToLower(s[x])] + "" + [ToLower(s[x + 1])] == out + "_" + [ToLower(s[x]), ToLower(s[x + 1])];
  }

  lemma UcfirstTest()
    ensures AllLower("test") && Ucfirst("test") + "ABDeCamelize" == "TestABDeCamelize"
  {
  }

  lemma AcronymLetters()
    ensures "AB" + "DeCamelize" == "ABDeCamelize"
    ensures IsUpper('A') && IsUpper('B') && !IsLower('D')
    ensures "test" + "_" + [ToLower('A'), ToLower('B')] == "test_ab"
  {
  }

  lemma AcronymHead()
    ensures DecamelizeText("TestABDeCamelize") == DecamelizeFrom("DeCamelize", 0, "test_ab", true)
  {
    var s := "ABDeCamelize";
    var out := "test";
    UcfirstTest();
    DecamelizeFirstWord(out, s);
    AcronymLetters();
    assert s[0] == 'A' && s[1] == 'B' && s[2] == 'D';
    AcronymPair(s, 0, out);
    DecamelizeShift("AB", "DeCamelize", 0, "test_ab", true);
  }

  lemma UcfirstDe()
    ensures AllLower("de") && Ucfirst("de") + "Camelize" == "DeCamelize"
  {
  }

  lemma CamelWordsCamelize()
    ensures PlainWords(["camelize"]) && CamelWords(["camelize"]) == "Camelize"
  {
  }

  lemma PrefixedCamelize()
    ensures "test_ab" + "_" + "de" + Prefixed(["camelize"]) == "test_ab_de_camelize"
  {
  }

  lemma AcronymTail()
    ensures DecamelizeFrom("DeCamelize", 0, "test_ab", true) == "test_ab_de_camelize"
  {
    var ws := ["camelize"];
    var out := "test_ab";
    UcfirstDe();
    DecamelizeWord("de", "Camelize", out, true);
    CamelWordsCamelize();
    DecamelizeWords(ws, out + "_" + "de");
    PrefixedCamelize();
  }

  /** Two upper-case letters in a row are one word (`AB`), ended by the upper-case letter that starts `De`. */
  lemma DecamelizeAcronym()
    ensures DecamelizeText("TestABDeCamelize") == "test_ab_de_camelize"
  {
    AcronymHead();
    AcronymTail();
  }

  /** The two camelize checks, on empty caches. */
  method CamelizeChecks(inflector: Inflector) returns (a: Result<string, Failure>, b: Result<string, Failure>)
    requires inflector.Valid() && inflector.camelized == map[] && inflector.decamelized == map[]
    modifies inflector
    ensures a == Success("TestCamelize")
    ensures b == Failure(Raised(NewAmbiguousInflection("camelize", "Test_camelize", "TestCamelize", "test_camelize", "")))
    ensures inflector.Valid()
    ensures inflector.camelized == map["test_camelize" := "TestCamelize"]
    ensures inflector.decamelized == map["TestCamelize" := "test_camelize"]
  {
    CamelizeTestCamelize();
    CamelizeUpperTestCamelize();
    a := inflector.Camelize("test_camelize");
    assert inflector.camelized == map["test_camelize" := "TestCamelize"];
    assert inflector.decamelized == map["TestCamelize" := "test_camelize"];
    assert "Test_camelize" !in inflector.camelized by {
      assert "Test_camelize"[0] != "test_camelize"[0];
    }
    b := inflector.Camelize("Test_camelize");
  }

  /** The first decamelize check, after the camelize checks. */
  method DecamelizeCheck(inflector: Inflector) returns (c: Result<string, Failure>)
    requires inflector.Valid()
    requires inflector.camelized == map["test_camelize" := "TestCamelize"]
    requires inflector.decamelized == map["TestCamelize" := "test_camelize"]
    modifies inflector
    ensures c == Success("test_de_camelize")
    ensures inflector.Valid()
    ensures inflector.camelized == map["test_camelize" := "TestCamelize", "test_de_camelize" := "TestDeCamelize"]
    ensures inflector.decamelized == map["TestCamelize" := "test_camelize", "TestDeCamelize" := "test_de_camelize"]
  {
    DecamelizeTestDeCamelize();
    c := inflector.Decamelize("TestDeCamelize");
  }

  /** The acronym decamelize and the camelize it answers from the cache. */
  method AcronymChecks(inflector: Inflector) returns (d: Result<string, Failure>, e: Result<string, Failure>)
    requires inflector.Valid()
    requires inflector.camelized == map["test_camelize" := "TestCamelize", "test_de_camelize" := "TestDeCamelize"]
    requires inflector.decamelized == map["TestCamelize" := "test_camelize", "TestDeCamelize" := "test_de_camelize"]
    modifies inflector
    ensures d == Success("test_ab_de_camelize")
    ensures e == Success("TestABDeCamelize")
  {
    DecamelizeAcronym();
    d := inflector.Decamelize("TestABDeCamelize");
    e := inflector.Camelize("test_ab_de_camelize");
  }

  /**
   * The five camelize/decamelize checks of the test script, in order: a
   * plain camelize, a camelize refused because its result is already cached
   * for another name, two decamelizes, and a camelize answered from the
   * cache that the acronym decamelize filled.
   */
  method Script() returns (a: Result<string, Failure>, b: Result<string, Failure>, c: Result<string, Failure>,
                           d: Result<string, Failure>, e: Result<string, Failure>)
    ensures a == Success("TestCamelize")
    ensures b == Failure(Raised(NewAmbiguousInflection("camelize", "Test_camelize", "TestCamelize", "test_camelize", "")))
    ensures c == Success("test_de_camelize")
    ensures d == Success("test_ab_de_camelize")
    ensures e == Success("TestABDeCamelize")
  {
    var inflector := new Inflector();
    a, b := CamelizeChecks(inflector);
    c := DecamelizeCheck(inflector);
    d, e := AcronymChecks(inflector);
  }
}
