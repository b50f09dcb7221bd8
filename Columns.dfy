/**
 * A table column as the record engine sees it: its name, its PostgreSQL type
 * name, and whether it is nullable and part of the primary key; and the four
 * conversions a column applies to a value: for display, for an HTML form, for
 * a query parameter, and from raw form or database input to the stored value.
 * A conversion that PHP would end with a fatal error gives None.
 */
module Columns {
  import opened Wrappers
  import opened Strings
  import opened Dates
  import opened Php

  datatype Column = Column(name: string, dbType: string, allowNull: bool, primaryKey: bool)

  /** new Column($name, $datatype, $allow_null, $primary_key): the two flags are cast to boolean. */
  function NewColumn(name: string, dbType: string, allowNull: Value, primaryKey: Value): (c: Column)
    ensures c.name == name && c.dbType == dbType
    ensures c.allowNull <==> Truthy(allowNull)
    ensures c.primaryKey <==> Truthy(primaryKey)
  {
    Column(name, dbType, Truthy(allowNull), Truthy(primaryKey))
  }

  // ---------------------------------------------------------------------------
  // htmlspecialchars with its default flags: &, ", < and > become entities.
  // ---------------------------------------------------------------------------

  function EscapeChar(c: char): string
  {
    if c == '&' then "&amp;"
    else if c == '"' then "&quot;"
    else if c == '<' then "&lt;"
    else if c == '>' then "&gt;"
    else [c]
  }

  function Escape(s: string): (r: string)
    ensures |r| >= |s|
  {
    if s == [] then [] else EscapeChar(s[0]) + Escape(s[1..])
  }

  /** The inverse of Escape: each of the four entities is read back as its character. */
  function Unescape(s: string): string
    decreases |s|
  {
    if s == [] then []
    else if |s| >= 5 && s[..5] == "&amp;" then "&" + Unescape(s[5..])
    else if |s| >= 6 && s[..6] == "&quot;" then "\"" + Unescape(s[6..])
    else if |s| >= 4 && s[..4] == "&lt;" then "<" + Unescape(s[4..])
    else if |s| >= 4 && s[..4] == "&gt;" then ">" + Unescape(s[4..])
    else [s[0]] + Unescape(s[1..])
  }

  lemma UnescapeAmp(rest: string)
    ensures Unescape("&amp;" + rest) == "&" + Unescape(rest)
  {
    var e := "&amp;" + rest;
    assert e[..5] == "&amp;" && e[5..] == rest;
  }

  lemma UnescapeQuot(rest: string)
    ensures Unescape("&quot;" + rest) == "\"" + Unescape(rest)
  {
    var e := "&quot;" + rest;
    assert e[..6] == "&quot;" && e[6..] == rest;
    assert e[1] == 'q';
  }

  /** The two four-character entities, `&lt;` and `&gt;`. */
  lemma UnescapeAngle(c: char, rest: string)
    requires c == '<' || c == '>'
    ensures Unescape(EscapeChar(c) + rest) == [c] + Unescape(rest)
  {
    var e := EscapeChar(c) + rest;
    assert e[..4] == EscapeChar(c) && e[4..] == rest;
    assert e[1] == EscapeChar(c)[1];
  }

  lemma UnescapePlain(c: char, rest: string)
    requires c != '&'
    ensures Unescape([c] + rest) == [c] + Unescape(rest)
  {
    var e := [c] + rest;
    assert e[0] == c && e[1..] == rest;
  }

  lemma UnescapeChar(c: char, rest: string)
    ensures Unescape(EscapeChar(c) + rest) == [c] + Unescape(rest)
  {
    if c == '&' { UnescapeAmp(rest); }
    else if c == '"' { UnescapeQuot(rest); }
    else if c == '<' || c == '>' { UnescapeAngle(c, rest); }
    else { UnescapePlain(c, rest); }
  }

  /** Escaping loses nothing: the text can be recovered exactly. */
  lemma {:induction false} EscapeRoundTrip(s: string)
    ensures Unescape(Escape(s)) == s
  {
    if s != [] {
      EscapeRoundTrip(s[1..]);
      UnescapeChar(s[0], Escape(s[1..]));
      assert s == [s[0]] + s[1..];
    }
  }

  /** Escaped text holds no markup character. */
  lemma {:induction false} EscapeHasNoMarkup(s: string)
    ensures '<' !in Escape(s) && '>' !in Escape(s) && '"' !in Escape(s)
  {
    if s != [] {
      EscapeHasNoMarkup(s[1..]);
      var e := EscapeChar(s[0]);
      assert '<' !in e && '>' !in e && '"' !in e;
    }
  }

  // ---------------------------------------------------------------------------
  // Renderings
  // ---------------------------------------------------------------------------

  /**
   * stringify: booleans read "?", "Yes" or "No"; a date reads as its to_s()
   * or "Unknown/empty" when falsy; anything else is string-cast and escaped.
   * None: a truthy non-Date in a date column (to_s() on a non-object) or a
   * Date in another column (string cast of an object) is a fatal error.
   */
  function Stringify(c: Column, v: Value): (r: Option<string>)
    ensures c.dbType == "boolean" ==> r == Some(if v.VNull? then "?" else if Truthy(v) then "Yes" else "No")
    ensures c.dbType == "date" ==> (r.None? <==> Truthy(v) && !v.VDate?)
    ensures c.dbType == "date" && v.VDate? ==> r == Some(ToS(v.obj.date))
    ensures c.dbType == "date" && !Truthy(v) ==> r == Some("Unknown/empty")
    ensures c.dbType != "boolean" && c.dbType != "date" ==>
      (r.None? <==> v.VDate?) && (r.Some? ==> Unescape(r.value) == StrCast(v).value)
    ensures c.dbType != "boolean" && c.dbType != "date" && r.Some? ==>
      '<' !in r.value && '>' !in r.value && '"' !in r.value
  {
    if c.dbType == "boolean" then
      if v.VNull? then Some("?") else Some(if Truthy(v) then "Yes" else "No")
    else if c.dbType == "date" then
      if !Truthy(v) then Some("Unknown/empty")
      else if v.VDate? then Some(ToS(v.obj.date))
      else None
    else if v.VDate? then None
    else
      var s := StrCast(v).value;
      EscapeRoundTrip(s);
      EscapeHasNoMarkup(s);
      Some(Escape(s))
  }

  /**
   * formify: null gives ""; a value loosely equal to a non-null comparison
   * gives " checked" whatever the type; otherwise a boolean gives " checked"
   * or "" by truthiness, and any other value a value="..." attribute
   * (a date through to_s(), the rest by string cast, unescaped).
   */
  function Formify(c: Column, v: Value, comparison: Value): (r: Option<string>)
    ensures v.VNull? ==> r == Some("")
    ensures !v.VNull? && !comparison.VNull? && LooseEq(v, comparison) ==> r == Some(" checked")
    ensures !v.VNull? && (comparison.VNull? || !LooseEq(v, comparison)) ==>
      if c.dbType == "boolean" then r == Some(if Truthy(v) then " checked" else "")
      else if c.dbType == "date" then
        (if v.VDate? then r == Some(" value=\"" + ToS(v.obj.date) + "\"") else r.None?)
      else (r.None? <==> v.VDate?) && (r.Some? ==> r.value == " value=\"" + StrCast(v).value + "\"")
  {
    if v.VNull? then Some("")
    else if !comparison.VNull? && LooseEq(v, comparison) then Some(" checked")
    else
      if c.dbType == "boolean" then Some(if Truthy(v) then " checked" else "")
      else if c.dbType == "date" then
        if v.VDate? then Some(" value=\"" + ToS(v.obj.date) + "\"") else None
      else if v.VDate? then None
      else Some(" value=\"" + StrCast(v).value + "\"")
  }

  /**
   * prep_for_database: the query parameter for a value, always null or a
   * string: null stays null, booleans become 't'/'f', dates their to_s(),
   * the rest their string cast.
   */
  function PrepForDatabase(c: Column, v: Value): (r: Option<Value>)
    ensures r.Some? ==> r.value.VNull? || r.value.VStr?
    ensures v.VNull? ==> r == Some(VNull)
    ensures !v.VNull? && c.dbType == "boolean" ==> r == Some(VStr(if Truthy(v) then "t" else "f"))
    ensures !v.VNull? && c.dbType == "date" ==> (r.Some? <==> v.VDate?)
    ensures !v.VNull? && c.dbType != "boolean" && c.dbType != "date" ==>
      (r.None? <==> v.VDate?) && (r.Some? ==> r.value == VStr(StrCast(v).value))
  {
    if v.VNull? then Some(VNull)
    else
      if c.dbType == "boolean" then Some(VStr(if Truthy(v) then "t" else "f"))
      else if c.dbType == "date" then
        if v.VDate? then Some(VStr(ToS(v.obj.date))) else None
      else if v.VDate? then None
      else Some(VStr(StrCast(v).value))
  }

  // ---------------------------------------------------------------------------
  // process_value
  // ---------------------------------------------------------------------------

  /** What process_value yields: an existing value, or a new Date object with the given fields. */
  datatype Coerced = Keep(v: Value) | Fresh(d: Date)

  /**
   * Date::parse on any non-object value: null and everything loosely equal to
   * "" (false, 0, "") give null; anything else is string-cast and parsed.
   */
  function ParseValue(raw: Value): (r: Option<Date>)
    requires !raw.VDate?
    ensures LooseEq(raw, VStr("")) ==> r.None?
    ensures !LooseEq(raw, VStr("")) ==> r == Parse(StrCast(raw).value)
  {
    if LooseEq(raw, VStr("")) then None else Parse(StrCast(raw).value)
  }

  /** The boolean rule: 'f', 0, false, 'false' and every falsy value give false. */
  predicate BooleanFalse(raw: Value)
  {
    raw == VStr("f") || raw == VInt(0) || raw == VBool(false) || raw == VStr("false") || !Truthy(raw)
  }

  /**
   * process_value by datatype: boolean as above, integer by (integer) cast,
   * date keeps a Date object and parses anything else; every other type
   * (text, character varying, timestamps, interval, unknown names, and the
   * two floating-point types, whose cast is not modelled) keeps the value.
   */
  function Coerce(c: Column, raw: Value): Coerced
  {
    if c.dbType == "boolean" then Keep(VBool(!BooleanFalse(raw)))
    else if c.dbType == "integer" then Keep(VInt(IntCast(raw)))
    else if c.dbType == "date" then
      if raw.VDate? then Keep(raw)
      else if ParseValue(raw).None? then Keep(VNull)
      else Fresh(ParseValue(raw).value)
    else Keep(raw)
  }

  /** v is a value process_value may return for raw: the kept value, or a Date object with the parsed fields. */
  predicate Coerces(c: Column, raw: Value, v: Value)
  {
    match Coerce(c, raw)
    case Keep(w) => v == w
    case Fresh(d) => v.VDate? && v.obj.date == d
  }

  /** Column->process_value($value): a date given as text becomes a new Date object. */
  method ProcessValue(c: Column, raw: Value) returns (v: Value)
    ensures Coerces(c, raw, v)
    ensures Coerce(c, raw).Fresh? ==> v.VDate? && fresh(v.obj)
  {
    match Coerce(c, raw)
    case Keep(w) => v := w;
    case Fresh(d) =>
      var o := new DateObject(d.year, d.month, d.day);
      v := VDate(o);
  }

  /** A boolean column stores false exactly for 'f', 'false' and the falsy values, and true for everything else. */
  lemma {:induction false} BooleanCoercion(c: Column, raw: Value)
    requires c.dbType == "boolean"
    ensures Coerce(c, raw) == Keep(VBool(!(raw == VStr("f") || raw == VStr("false") || !Truthy(raw))))
  {
    assert raw == VInt(0) || raw == VBool(false) ==> !Truthy(raw);
  }

  /** The null and empty-string inputs of a boolean column give false, not null. */
  lemma BooleanBlankIsFalse(c: Column)
    requires c.dbType == "boolean"
    ensures Coerce(c, VStr("")) == Keep(VBool(false))
    ensures Coerce(c, VNull) == Keep(VBool(false))
  {
  }

  /** A boolean written to the database as 't'/'f' reads back as the same boolean. */
  lemma {:induction false} BooleanRoundTrip(c: Column, b: bool)
    requires c.dbType == "boolean"
    ensures PrepForDatabase(c, VBool(b)) == Some(VStr(if b then "t" else "f"))
    ensures Coerce(c, PrepForDatabase(c, VBool(b)).value) == Keep(VBool(b))
  {
    BooleanCoercion(c, VStr(if b then "t" else "f"));
  }

  /** An integer written to the database reads back as the same integer. */
  lemma {:induction false} IntegerRoundTrip(c: Column, i: int)
    requires c.dbType == "integer"
    ensures PrepForDatabase(c, VInt(i)) == Some(VStr(IntToString(i)))
    ensures Coerce(c, PrepForDatabase(c, VInt(i)).value) == Keep(VInt(i))
  {
    CastIntOfIntToString(i);
  }

  /** A Date with non-negative fields written to the database reads back as a Date with the same fields. */
  lemma {:induction false} DateRoundTrip(c: Column, o: DateObject)
    requires c.dbType == "date"
    requires o.date.year >= 0 && o.date.month >= 0 && o.date.day >= 0
    ensures PrepForDatabase(c, VDate(o)) == Some(VStr(ToS(o.date)))
    ensures Coerce(c, PrepForDatabase(c, VDate(o)).value) == Fresh(o.date)
  {
    ParseToS(o.date);
    var s := ToS(o.date);
    assert |s| >= 10;
    NotLooselyEmpty(s);
  }

  /** Text read back from the database is stored as given. */
  lemma TextRoundTrip(c: Column, s: string)
    requires c.dbType == "text" || c.dbType == "character varying"
    ensures Coerce(c, PrepForDatabase(c, VStr(s)).value) == Keep(VStr(s))
  {
  }

  /** A column with a type the engine does not know keeps form and database input as given. */
  lemma OtherTypesKeep(c: Column, raw: Value)
    requires c.dbType != "boolean" && c.dbType != "integer" && c.dbType != "date"
    ensures Coerce(c, raw) == Keep(raw)
  {
  }

  /** A date column keeps an existing Date object, and gives null for null, "", false and 0. */
  lemma {:induction false} DateCoercion(c: Column, raw: Value)
    requires c.dbType == "date"
    ensures raw.VDate? ==> Coerce(c, raw) == Keep(raw)
    ensures raw == VNull || raw == VStr("") || raw == VBool(false) || raw == VInt(0) ==> Coerce(c, raw) == Keep(VNull)
  {
    if raw == VInt(0) {
      assert CastInt("") == 0;
    }
  }

  /** A date column turns the text "2011-10-25" into a new Date object for 25 October 2011. */
  lemma {:induction false} DateCoercionExample(c: Column)
    requires c.dbType == "date"
    ensures Coerce(c, VStr("2011-10-25")) == Fresh(Date(2011, 10, 25))
  {
    var t := "2011-10-25";
    NotLooselyEmpty(t);
    assert ParseValue(VStr(t)) == Parse(t);
    ParseExample();
  }

  /** formify(true, false) on a boolean column gives ' checked': the comparison fails and true is truthy. */
  lemma FormifyTrueAgainstFalse(c: Column)
    requires c.dbType == "boolean"
    ensures Formify(c, VBool(true), VBool(false)) == Some(" checked")
    ensures Formify(c, VBool(true), VBool(true)) == Some(" checked")
    ensures Formify(c, VBool(false), VNull) == Some("")
  {
  }
}
