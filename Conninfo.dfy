/**
 * The keyword/value connection string Database::connect hands to libpq, and
 * libpq's reading of it (section 34.1.1.1 of the PostgreSQL 16 manual): pairs
 * `keyword = value` separated by whitespace; a value is either a run of
 * non-whitespace characters or a single-quoted string, and in both forms a
 * backslash makes the next character literal.
 */
module Conninfo {
  import opened Wrappers
  import opened Strings

  // ---------------------------------------------------------------------------
  // libpq's parser
  // ---------------------------------------------------------------------------

  lemma {:induction false} SkipSpaceShorter(s: string)
    ensures |SkipSpace(s)| <= |s|
    ensures |SkipSpace(s)| > 0 ==> !IsCSpace(SkipSpace(s)[0])
    decreases |s|
  {
    if |s| > 0 && IsCSpace(s[0]) {
      SkipSpaceShorter(s[1..]);
    }
  }

  /** The keyword: everything up to '=' or whitespace; the rest is returned untouched. */
  function ReadKeyword(s: string): (r: (string, string))
    ensures r.0 + r.1 == s
    decreases |s|
  {
    if |s| == 0 || s[0] == '=' || IsCSpace(s[0]) then ("", s)
    else
      var (k, rest) := ReadKeyword(s[1..]);
      assert [s[0]] + (k + rest) == s;
      ([s[0]] + k, rest)
  }

  /** An unquoted value: up to the first whitespace, which is consumed; a trailing lone backslash is dropped. */
  function ReadUnquoted(s: string): (r: (string, string))
    ensures |r.1| <= |s|
    decreases |s|
  {
    if |s| == 0 then ("", "")
    else if IsCSpace(s[0]) then ("", s[1..])
    else if s[0] == '\\' then
      if |s| == 1 then ("", "")
      else var (v, rest) := ReadUnquoted(s[2..]); ([s[1]] + v, rest)
    else var (v, rest) := ReadUnquoted(s[1..]); ([s[0]] + v, rest)
  }

  /** A quoted value, after its opening quote: up to the closing quote, which is consumed; None when it is missing. */
  function ReadQuoted(s: string): (r: Option<(string, string)>)
    ensures r.Some? ==> |r.value.1| < |s|
    decreases |s|
  {
    if |s| == 0 then None
    else if s[0] == '\'' then Some(("", s[1..]))
    else if s[0] == '\\' then
      if |s| == 1 then None
      else match ReadQuoted(s[2..])
        case None => None
        case Some((v, rest)) => Some(([s[1]] + v, rest))
    else match ReadQuoted(s[1..])
      case None => None
      case Some((v, rest)) => Some(([s[0]] + v, rest))
  }

  /**
   * The pairs libpq reads from a connection string, in order; None for a
   * syntax error (a keyword without '=', an empty keyword, an unterminated
   * quoted value).
   */
  function Parse(s: string): Option<seq<(string, string)>>
    decreases |s|
  {
    SkipSpaceShorter(s);
    var t := SkipSpace(s);
    if t == "" then Some([])
    else
      var (k, r1) := ReadKeyword(t);
      SkipSpaceShorter(r1);
      var r2 := SkipSpace(r1);
      if k == "" || r2 == "" || r2[0] != '=' then None
      else
        SkipSpaceShorter(r2[1..]);
        var r3 := SkipSpace(r2[1..]);
        if |r3| > 0 && r3[0] == '\'' then
          match ReadQuoted(r3[1..])
          case None => None
          case Some((v, rest)) =>
            match Parse(rest)
            case None => None
            case Some(ps) => Some([(k, v)] + ps)
        else
          var (v, rest) := ReadUnquoted(r3);
          match Parse(rest)
          case None => None
          case Some(ps) => Some([(k, v)] + ps)
  }

  /** A keyword libpq can read back: non-empty, no whitespace, no '='. */
  predicate KeywordOk(k: string)
  {
    k != "" && forall i | 0 <= i < |k| :: k[i] != '=' && !IsCSpace(k[i])
  }

  predicate KeywordsOk(params: seq<(string, string)>)
  {
    forall i | 0 <= i < |params| :: KeywordOk(params[i].0)
  }

  /** A keyword is read up to the '=' or whitespace that follows it. */
  lemma {:induction false} ReadKeywordStops(k: string, c: char, t: string)
    requires forall i | 0 <= i < |k| :: k[i] != '=' && !IsCSpace(k[i])
    requires c == '=' || IsCSpace(c)
    ensures ReadKeyword(k + [c] + t) == (k, [c] + t)
    decreases |k|
  {
    if |k| > 0 {
      assert (k + [c] + t)[1..] == k[1..] + [c] + t;
      ReadKeywordStops(k[1..], c, t);
      assert [k[0]] + k[1..] == k;
    } else {
      assert k + [c] + t == [c] + t;
    }
  }

  lemma SkipSpaceNone(s: string)
    requires |s| > 0 && !IsCSpace(s[0])
    ensures SkipSpace(s) == s
  {
  }

  lemma SkipSpaceOne(s: string)
    ensures SkipSpace(" " + s) == SkipSpace(s)
  {
    assert (" " + s)[1..] == s;
  }

  /** Every pair's text starts with its keyword's first character, so nothing skips into it. */
  lemma {:induction false} ParseAfterKeyword(k: string, body: string, v: string, rest: string)
    requires KeywordOk(k) && |body| > 0
    requires body[0] == '\'' ==> ReadQuoted(body[1..]) == Some((v, rest))
    requires body[0] != '\'' ==> !IsCSpace(body[0]) && ReadUnquoted(body) == (v, rest)
    ensures Parse(k + "=" + body) == if Parse(rest).Some? then Some([(k, v)] + Parse(rest).value) else None
  {
    var s := k + "=" + body;
    assert s[0] == k[0];
    SkipSpaceNone(s);
    ReadKeywordStops(k, '=', body);
    SkipSpaceNone("=" + body);
    assert ("=" + body)[1..] == body;
    SkipSpaceNone(body);
  }

  // ---------------------------------------------------------------------------
  // The connection string as Database::connect writes it
  // ---------------------------------------------------------------------------

  /** Each space and each backslash gets a backslash before it. */
  function EscapeSpaces(v: string): (r: string)
    ensures (' ' in r) <==> (' ' in v)
  {
    if |v| == 0 then ""
    else if v[0] == ' ' || v[0] == '\\' then ['\\', v[0]] + EscapeSpaces(v[1..])
    else [v[0]] + EscapeSpaces(v[1..])
  }

  /** The value as written into the string: escaped, and single-quoted when it holds a space. */
  function WriteValue(v: string): string
  {
    var e := EscapeSpaces(v);
    if ' ' in e then "'" + e + "'" else e
  }

  function WritePair(k: string, v: string): string
  {
    k + "=" + WriteValue(v)
  }

  function WritePairs(params: seq<(string, string)>): (r: seq<string>)
    ensures |r| == |params|
    ensures forall i | 0 <= i < |params| :: r[i] == WritePair(params[i].0, params[i].1)
  {
    if |params| == 0 then [] else [WritePair(params[0].0, params[0].1)] + WritePairs(params[1..])
  }

  /** join(' ', $connect_ary) as database.php builds it. */
  function ConnString(params: seq<(string, string)>): string
  {
    Join(WritePairs(params), " ")
  }

  /** A value the as-written quoting carries through: not empty, no single quote, and no whitespace but spaces unless it is quoted. */
  predicate WritableValue(v: string)
  {
    v != "" && '\'' !in v && (' ' in v || forall i | 0 <= i < |v| :: !IsCSpace(v[i]))
  }

  lemma {:induction false} ReadQuotedEscapeSpaces(v: string, t: string)
    requires '\'' !in v
    ensures ReadQuoted(EscapeSpaces(v) + "'" + t) == Some((v, t))
    decreases |v|
  {
    var s := EscapeSpaces(v) + "'" + t;
    if |v| == 0 {
      assert s == "'" + t;
      assert s[1..] == t;
    } else {
      ReadQuotedEscapeSpaces(v[1..], t);
      assert [v[0]] + v[1..] == v;
      if v[0] == ' ' || v[0] == '\\' {
        assert s[2..] == EscapeSpaces(v[1..]) + "'" + t;
      } else {
        assert s[1..] == EscapeSpaces(v[1..]) + "'" + t;
      }
    }
  }

  lemma {:induction false} ReadUnquotedEscapeSpaces(v: string, t: string)
    requires forall i | 0 <= i < |v| :: !IsCSpace(v[i])
    requires t == "" || IsCSpace(t[0])
    ensures ReadUnquoted(EscapeSpaces(v) + t) == (v, if t == "" then "" else t[1..])
    decreases |v|
  {
    var s := EscapeSpaces(v) + t;
    if |v| == 0 {
      assert s == t;
    } else {
      ReadUnquotedEscapeSpaces(v[1..], t);
      assert [v[0]] + v[1..] == v;
      if v[0] == '\\' {
        assert s[2..] == EscapeSpaces(v[1..]) + t;
      } else {
        assert s[1..] == EscapeSpaces(v[1..]) + t;
      }
    }
  }

  /** Whitespace in front of the string is skipped. */
  lemma ParseSpace(s: string)
    ensures Parse(" " + s) == Parse(s)
  {
    SkipSpaceOne(s);
  }

  lemma ParseRest(t: string, ps: seq<(string, string)>)
    requires t == "" || (t[0] == ' ' && Parse(t[1..]) == Some(ps))
    requires t == "" ==> ps == []
    ensures Parse(if t == "" then "" else t[1..]) == Some(ps)
    ensures t != "" ==> Parse(t) == Some(ps)
  {
    if t != "" {
      ParseSpace(t[1..]);
      assert t == " " + t[1..];
    }
  }

  lemma QuotedText(k: string, v: string, t: string)
    requires ' ' in v
    ensures WritePair(k, v) + t == k + "=" + ("'" + EscapeSpaces(v) + "'" + t)
    ensures ("'" + EscapeSpaces(v) + "'" + t)[1..] == EscapeSpaces(v) + "'" + t
  {
  }

  lemma ParseWriteQuoted(k: string, v: string, t: string, ps: seq<(string, string)>)
    requires KeywordOk(k) && WritableValue(v) && ' ' in v
    requires t == "" || (t[0] == ' ' && Parse(t[1..]) == Some(ps))
    requires t == "" ==> ps == []
    ensures Parse(WritePair(k, v) + t) == Some([(k, v)] + ps)
  {
    var body := "'" + EscapeSpaces(v) + "'" + t;
    QuotedText(k, v, t);
    ReadQuotedEscapeSpaces(v, t);
    ParseRest(t, ps);
    ParseAfterKeyword(k, body, v, t);
  }

  lemma EscapeSpacesFirst(v: string)
    requires v != "" && v[0] != '\'' && !IsCSpace(v[0])
    ensures |EscapeSpaces(v)| > 0 && EscapeSpaces(v)[0] != '\'' && !IsCSpace(EscapeSpaces(v)[0])
  {
  }

  lemma ParseWritePlain(k: string, v: string, t: string, ps: seq<(string, string)>)
    requires KeywordOk(k) && WritableValue(v) && ' ' !in v
    requires t == "" || (t[0] == ' ' && Parse(t[1..]) == Some(ps))
    requires t == "" ==> ps == []
    ensures Parse(WritePair(k, v) + t) == Some([(k, v)] + ps)
  {
    var e := EscapeSpaces(v);
    var body := e + t;
    assert WritePair(k, v) + t == k + "=" + body;
    ReadUnquotedEscapeSpaces(v, t);
    EscapeSpacesFirst(v);
    ParseRest(t, ps);
    ParseAfterKeyword(k, body, v, if t == "" then "" else t[1..]);
  }

  lemma ParseWritePair(k: string, v: string, t: string, ps: seq<(string, string)>)
    requires KeywordOk(k) && WritableValue(v)
    requires t == "" || (t[0] == ' ' && Parse(t[1..]) == Some(ps))
    requires t == "" ==> ps == []
    ensures Parse(WritePair(k, v) + t) == Some([(k, v)] + ps)
  {
    if ' ' in v {
      ParseWriteQuoted(k, v, t, ps);
    } else {
      ParseWritePlain(k, v, t, ps);
    }
  }

  /** The string of two or more pairs is the first pair, a space, and the string of the others. */
  lemma ConnStringCons(params: seq<(string, string)>)
    requires |params| >= 2
    ensures ConnString(params) == WritePair(params[0].0, params[0].1) + (" " + ConnString(params[1..]))
  {
    assert WritePairs(params)[1..] == WritePairs(params[1..]);
  }

  /** The as-written string reads back as the given pairs when every value is writable. */
  lemma {:induction false} ConnStringRoundTrip(params: seq<(string, string)>)
    requires KeywordsOk(params)
    requires forall i | 0 <= i < |params| :: WritableValue(params[i].1)
    ensures Parse(ConnString(params)) == Some(params)
    decreases |params|
  {
    if |params| == 0 {
    } else if |params| == 1 {
      ParseWritePair(params[0].0, params[0].1, "", []);
      assert WritePair(params[0].0, params[0].1) + "" == ConnString(params);
      assert [params[0]] + [] == params;
    } else {
      var tail := params[1..];
      var t := " " + ConnString(tail);
      ConnStringRoundTrip(tail);
      assert t[1..] == ConnString(tail);
      ParseWritePair(params[0].0, params[0].1, t, tail);
      ConnStringCons(params);
      assert [params[0]] + tail == params;
    }
  }

  lemma EscapeSpacesPlain(v: string)
    requires forall i | 0 <= i < |v| :: v[i] != ' ' && v[i] != '\\'
    ensures EscapeSpaces(v) == v
  {
  }

  /** After an empty value the next text is taken as the value. */
  lemma {:induction false} ParseEmptyValue(k: string, w: string)
    requires KeywordOk(k) && w != ""
    requires forall i | 0 <= i < |w| :: !IsCSpace(w[i]) && w[i] != '\\' && w[i] != '\''
    ensures Parse(k + "=" + (" " + w)) == Some([(k, w)])
  {
    var s := k + "=" + (" " + w);
    assert s[0] == k[0];
    SkipSpaceNone(s);
    ReadKeywordStops(k, '=', " " + w);
    SkipSpaceNone("=" + (" " + w));
    assert ("=" + (" " + w))[1..] == " " + w;
    SkipSpaceOne(w);
    SkipSpaceNone(w);
    EscapeSpacesPlain(w);
    ReadUnquotedEscapeSpaces(w, "");
    assert w + "" == w;
    assert ReadUnquoted(w) == (w, "");
    assert SkipSpace(("=" + (" " + w))[1..]) == w;
    assert [(k, w)] + [] == [(k, w)];
  }

  lemma TwoPairsText()
    ensures ConnString([("host", ""), ("dbname", "x")]) == "host= dbname=x"
  {
    assert WriteValue("") == "" && WriteValue("x") == "x";
    assert WritePair("host", "") == "host=" && WritePair("dbname", "x") == "dbname=x";
    assert WritePairs([("dbname", "x")]) == ["dbname=x"];
    assert WritePairs([("host", ""), ("dbname", "x")]) == ["host=", "dbname=x"];
  }

  /**
   * An empty value is written bare, so libpq skips the space after '=' and
   * reads the following pair as the value: two pairs come back as one.
   */
  lemma EmptyValueSwallowsNextPair()
    ensures ConnString([("host", ""), ("dbname", "x")]) == "host= dbname=x"
    ensures Parse(ConnString([("host", ""), ("dbname", "x")])) == Some([("host", "dbname=x")])
  {
    TwoPairsText();
    assert "host= dbname=x" == "host" + "=" + (" " + "dbname=x");
    ParseEmptyValue("host", "dbname=x");
  }

  // ---------------------------------------------------------------------------
  // The connection string with every value quoted
  // ---------------------------------------------------------------------------

  /** Each single quote and each backslash gets a backslash before it. */
  function EscapeQuoted(v: string): string
  {
    if |v| == 0 then ""
    else if v[0] == '\'' || v[0] == '\\' then ['\\', v[0]] + EscapeQuoted(v[1..])
    else [v[0]] + EscapeQuoted(v[1..])
  }

  /** A value in single quotes, escaped as libpq asks. */
  function QuoteValue(v: string): string
  {
    "'" + EscapeQuoted(v) + "'"
  }

  function QuotePair(k: string, v: string): string
  {
    k + "=" + QuoteValue(v)
  }

  function QuotePairs(params: seq<(string, string)>): (r: seq<string>)
    ensures |r| == |params|
  {
    if |params| == 0 then [] else [QuotePair(params[0].0, params[0].1)] + QuotePairs(params[1..])
  }

  /** The connection string with every value quoted and escaped. */
  function QuotedConnString(params: seq<(string, string)>): string
  {
    Join(QuotePairs(params), " ")
  }

  lemma {:induction false} ReadQuotedEscapeQuoted(v: string, t: string)
    ensures ReadQuoted(EscapeQuoted(v) + "'" + t) == Some((v, t))
    decreases |v|
  {
    var s := EscapeQuoted(v) + "'" + t;
    if |v| == 0 {
      assert s == "'" + t;
      assert s[1..] == t;
    } else {
      ReadQuotedEscapeQuoted(v[1..], t);
      assert [v[0]] + v[1..] == v;
      if v[0] == '\'' || v[0] == '\\' {
        assert s[2..] == EscapeQuoted(v[1..]) + "'" + t;
      } else {
        assert s[1..] == EscapeQuoted(v[1..]) + "'" + t;
      }
    }
  }

  lemma QuotePairText(k: string, v: string, t: string)
    ensures QuotePair(k, v) + t == k + "=" + ("'" + EscapeQuoted(v) + "'" + t)
    ensures ("'" + EscapeQuoted(v) + "'" + t)[1..] == EscapeQuoted(v) + "'" + t
  {
  }

  lemma ParseQuotePair(k: string, v: string, t: string, ps: seq<(string, string)>)
    requires KeywordOk(k)
    requires t == "" || (t[0] == ' ' && Parse(t[1..]) == Some(ps))
    requires t == "" ==> ps == []
    ensures Parse(QuotePair(k, v) + t) == Some([(k, v)] + ps)
  {
    var body := "'" + EscapeQuoted(v) + "'" + t;
    QuotePairText(k, v, t);
    ReadQuotedEscapeQuoted(v, t);
    ParseRest(t, ps);
    ParseAfterKeyword(k, body, v, t);
  }

  /** Every value, whatever it holds, reads back: the quoted string gives libpq exactly the pairs it was built from. */
  lemma {:induction false} QuotedConnStringRoundTrip(params: seq<(string, string)>)
    requires KeywordsOk(params)
    ensures Parse(QuotedConnString(params)) == Some(params)
    decreases |params|
  {
    if |params| == 0 {
    } else if |params| == 1 {
      ParseQuotePair(params[0].0, params[0].1, "", []);
      assert QuotePair(params[0].0, params[0].1) + "" == QuotedConnString(params);
      assert [params[0]] + [] == params;
    } else {
      var tail := params[1..];
      QuotedConnStringRoundTrip(tail);
      assert QuotePairs(params)[1..] == QuotePairs(tail);
      var t := " " + QuotedConnString(tail);
      assert t[1..] == QuotedConnString(tail);
      ParseQuotePair(params[0].0, params[0].1, t, tail);
      assert QuotedConnString(params) == QuotePair(params[0].0, params[0].1) + t;
      assert [params[0]] + tail == params;
    }
  }

  /** A word with no quote, backslash, '=' or whitespace: every escaping leaves it as it is. */
  predicate PlainWord(w: string)
  {
    forall i | 0 <= i < |w| :: w[i] != '\'' && w[i] != '\\' && w[i] != '=' && !IsCSpace(w[i])
  }

  lemma {:induction false} EscapeSpacesAppend(x: string, y: string)
    ensures EscapeSpaces(x + y) == EscapeSpaces(x) + EscapeSpaces(y)
    decreases |x|
  {
    if |x| > 0 {
      assert (x + y)[1..] == x[1..] + y;
      EscapeSpacesAppend(x[1..], y);
    } else {
      assert x + y == y;
    }
  }

  lemma EscapeQuotedPlain(w: string)
    requires PlainWord(w)
    ensures EscapeQuoted(w) == w
  {
  }

  lemma StrayQuoteEscaped(a: string, b: string)
    requires PlainWord(a) && PlainWord(b)
    ensures EscapeSpaces(a + "' " + b) == a + "'\\ " + b
  {
    EscapeSpacesPlain(a);
    EscapeSpacesPlain(b);
    assert a + "' " + b == a + ("' " + b);
    EscapeSpacesAppend(a, "' " + b);
    EscapeSpacesAppend("' ", b);
    assert EscapeSpaces("' ") == "'\\ ";
    assert a + ("'\\ " + b) == a + "'\\ " + b;
  }

  lemma StrayQuoteText(k: string, a: string, b: string)
    requires PlainWord(a) && PlainWord(b)
    ensures ConnString([(k, a + "' " + b)]) == k + "=" + ("'" + (a + "'\\ " + b) + "'")
  {
    var e := a + "'\\ " + b;
    StrayQuoteEscaped(a, b);
    assert e[|a| + 2] == ' ';
    assert WriteValue(a + "' " + b) == "'" + e + "'";
    assert WritePairs([(k, a + "' " + b)]) == [k + "=" + ("'" + e + "'")];
  }

  /** The quoted value ends at the stray quote. */
  lemma StrayQuoteRead(a: string, b: string)
    requires PlainWord(a)
    ensures ReadQuoted(a + "'\\ " + b + "'") == Some((a, "\\ " + b + "'"))
  {
    EscapeQuotedPlain(a);
    ReadQuotedEscapeQuoted(a, "\\ " + b + "'");
    assert a + "'" + ("\\ " + b + "'") == a + "'\\ " + b + "'";
  }

  /** What follows the stray quote starts with a keyword that no '=' follows. */
  lemma StrayQuoteParse(b: string)
    requires PlainWord(b) && b != ""
    ensures Parse("\\ " + b + "'") == None
  {
    var rest := "\\ " + b + "'";
    var tail := b + "'";
    ReadKeywordStops("\\", ' ', tail);
    assert "\\" + [' '] + tail == rest;
    SkipSpaceNone(rest);
    assert tail[0] == b[0];
    SkipSpaceOne(tail);
    SkipSpaceNone(tail);
    assert [' '] + tail == " " + tail;
  }

  /**
   * A single quote in a value that also holds a space ends the quoted value
   * early, and what follows it is no keyword/value pair: libpq rejects the
   * whole string.
   */
  lemma QuoteInValueRejected(k: string, a: string, b: string)
    requires KeywordOk(k) && PlainWord(a) && PlainWord(b) && b != ""
    ensures Parse(ConnString([(k, a + "' " + b)])) == None
  {
    var body := "'" + (a + "'\\ " + b) + "'";
    StrayQuoteText(k, a, b);
    StrayQuoteRead(a, b);
    StrayQuoteParse(b);
    assert body[1..] == a + "'\\ " + b + "'";
    ParseAfterKeyword(k, body, a, "\\ " + b + "'");
  }
}
