/**
 * The SQL statements the record engine sends: their text, their parameters
 * and the name they are prepared under. Database::quote_identifier is not
 * part of this model; every function here takes it as a parameter `q`.
 */
module Statements {
  import opened Wrappers
  import opened Php
  import opened Strings
  import opened Columns
  import opened Catalogs
  import opened Exceptions
  import opened Inflection

  /** A statement as it is handed to Database::prefetch. */
  datatype Statement = Statement(sql: string, params: seq<Value>, name: string)

  /** A query placeholder: "$" and the 1-based parameter number. */
  function Placeholder(n: nat): string
  {
    "$" + NatToString(n)
  }

  /** The fatal error prep_for_database ends with on a value it cannot convert. */
  const PrepFailure: Failure := Fatal("prep_for_database: the value cannot be converted")

  /** The fatal error of interpolating a Date, which has no string conversion, into a message. */
  const DateToString: Failure := Fatal("Object of class Date could not be converted to string")

  /** Every parameter prepared, or None when preparing one of them is a fatal error. */
  function AllPrepared(opts: seq<Option<Value>>): (r: Option<seq<Value>>)
    ensures r.Some? <==> forall i | 0 <= i < |opts| :: opts[i].Some?
    ensures r.Some? ==> |r.value| == |opts| && forall i | 0 <= i < |opts| :: r.value[i] == opts[i].value
    decreases |opts|
  {
    if |opts| == 0 then Some([])
    else
      var init := opts[..|opts| - 1];
      var prev := AllPrepared(init);
      assert forall i | 0 <= i < |init| :: init[i] == opts[i];
      if prev.Some? && opts[|opts| - 1].Some? then Some(prev.value + [opts[|opts| - 1].value]) else None
  }

  lemma AllPreparedStep(opts: seq<Option<Value>>, i: nat)
    requires i < |opts|
    ensures AllPrepared(opts[..i + 1]) ==
      if AllPrepared(opts[..i]).Some? && opts[i].Some? then Some(AllPrepared(opts[..i]).value + [opts[i].value]) else None
  {
    assert opts[..i + 1][..i] == opts[..i];
  }

  /** Preparing one more parameter: it is added when it and all before it could be prepared. */
  lemma AllPreparedSnoc(opts: seq<Option<Value>>, o: Option<Value>)
    ensures AllPrepared(opts + [o]) ==
      if AllPrepared(opts).Some? && o.Some? then Some(AllPrepared(opts).value + [o.value]) else None
  {
    assert (opts + [o])[..|opts|] == opts;
  }

  /** Positions of a catalog. */
  predicate Within(pos: seq<nat>, n: nat)
  {
    forall p | 0 <= p < |pos| :: pos[p] < n
  }

  /** The map has a value for every column of the catalog. */
  predicate Covers(cat: seq<(string, Column)>, m: map<string, Value>)
  {
    forall i | 0 <= i < |cat| :: cat[i].0 in m
  }

  // ---------------------------------------------------------------------------
  // Clauses and parameters
  // ---------------------------------------------------------------------------

  /** "name = $n" for the columns at the given positions, numbered from $1. */
  function Assignments(q: string -> string, cat: seq<(string, Column)>, pos: seq<nat>): (r: seq<string>)
    requires Within(pos, |cat|)
    ensures |r| == |pos|
  {
    seq(|pos|, p requires 0 <= p < |pos| => q(cat[pos[p]].0) + " = " + Placeholder(p + 1))
  }

  /** "(name = $n)" for the columns at the given positions, numbered on from $from. */
  function KeyConditions(q: string -> string, cat: seq<(string, Column)>, pos: seq<nat>, from: nat): (r: seq<string>)
    requires Within(pos, |cat|)
    ensures |r| == |pos|
  {
    seq(|pos|, j requires 0 <= j < |pos| => "(" + q(cat[pos[j]].0) + " = " + Placeholder(from + j) + ")")
  }

  /** The quoted names of the columns at the given positions. */
  function Names(q: string -> string, cat: seq<(string, Column)>, pos: seq<nat>): (r: seq<string>)
    requires Within(pos, |cat|)
    ensures |r| == |pos|
  {
    seq(|pos|, p requires 0 <= p < |pos| => q(cat[pos[p]].0))
  }

  /** The quoted names of every column, for RETURNING. */
  function Returning(q: string -> string, cat: seq<(string, Column)>): (r: seq<string>)
    ensures |r| == |cat|
  {
    seq(|cat|, i requires 0 <= i < |cat| => q(cat[i].0))
  }

  /** $1 .. $n. */
  function Holders(n: nat): (r: seq<string>)
    ensures |r| == n
  {
    seq(n, p requires 0 <= p < n => Placeholder(p + 1))
  }

  /** The parameters for the columns at the given positions: their current values prepared for the database. */
  function Params(cat: seq<(string, Column)>, dirty: map<string, Value>, pos: seq<nat>): (r: seq<Option<Value>>)
    requires Within(pos, |cat|) && Covers(cat, dirty)
    ensures |r| == |pos|
  {
    seq(|pos|, p requires 0 <= p < |pos| => PrepForDatabase(cat[pos[p]].1, dirty[cat[pos[p]].0]))
  }

  /** The 1-based positions joined by ",". */
  lemma AssignmentsSnoc(q: string -> string, cat: seq<(string, Column)>, pos: seq<nat>, p: nat)
    requires Within(pos, |cat|) && p < |cat|
    ensures Within(pos + [p], |cat|)
    ensures Assignments(q, cat, pos + [p]) == Assignments(q, cat, pos) + [q(cat[p].0) + " = " + Placeholder(|pos| + 1)]
  {
  }

  lemma KeyConditionsSnoc(q: string -> string, cat: seq<(string, Column)>, pos: seq<nat>, p: nat, from: nat)
    requires Within(pos, |cat|) && p < |cat|
    ensures Within(pos + [p], |cat|)
    ensures KeyConditions(q, cat, pos + [p], from) ==
      KeyConditions(q, cat, pos, from) + ["(" + q(cat[p].0) + " = " + Placeholder(from + |pos|) + ")"]
  {
  }

  lemma NamesSnoc(q: string -> string, cat: seq<(string, Column)>, pos: seq<nat>, p: nat)
    requires Within(pos, |cat|) && p < |cat|
    ensures Within(pos + [p], |cat|)
    ensures Names(q, cat, pos + [p]) == Names(q, cat, pos) + [q(cat[p].0)]
  {
  }

  lemma ReturningStep(q: string -> string, cat: seq<(string, Column)>, i: nat)
    requires i < |cat|
    ensures Returning(q, cat[..i + 1]) == Returning(q, cat[..i]) + [q(cat[i].0)]
  {
  }

  lemma HoldersSnoc(n: nat)
    ensures Holders(n + 1) == Holders(n) + [Placeholder(n + 1)]
  {
  }

  lemma ParamsSnoc(cat: seq<(string, Column)>, dirty: map<string, Value>, pos: seq<nat>, p: nat)
    requires Within(pos, |cat|) && Covers(cat, dirty) && p < |cat|
    ensures Within(pos + [p], |cat|)
    ensures Params(cat, dirty, pos + [p]) == Params(cat, dirty, pos) + [PrepForDatabase(cat[p].1, dirty[cat[p].0])]
  {
  }

  lemma NumeralsSnoc(pos: seq<nat>, p: nat)
    ensures Numerals(pos + [p]) == Numerals(pos) + [NatToString(p + 1)]
  {
  }

  function PositionList(pos: seq<nat>): string
  {
    Join(Numerals(pos), ",")
  }

  function Numerals(pos: seq<nat>): (r: seq<string>)
    ensures |r| == |pos|
  {
    seq(|pos|, p requires 0 <= p < |pos| => NatToString(pos[p] + 1))
  }

  /** Different non-empty position lists give different names. */
  lemma {:induction false} PositionListInjective(a: seq<nat>, b: seq<nat>)
    requires |a| > 0 && |b| > 0
    requires PositionList(a) == PositionList(b)
    ensures a == b
  {
    var na := Numerals(a);
    var nb := Numerals(b);
    forall k | 0 <= k < |na| ensures ',' !in na[k] {
      assert forall j | 0 <= j < |na[k]| :: IsDigit(na[k][j]);
    }
    forall k | 0 <= k < |nb| ensures ',' !in nb[k] {
      assert forall j | 0 <= j < |nb[k]| :: IsDigit(nb[k][j]);
    }
    SplitJoin(na, ',');
    SplitJoin(nb, ',');
    assert na == nb;
    forall p | 0 <= p < |a| ensures a[p] == b[p] {
      DigitsValueOfNat(a[p] + 1);
      DigitsValueOfNat(b[p] + 1);
      assert na[p] == nb[p];
    }
  }

  // ---------------------------------------------------------------------------
  // _update
  // ---------------------------------------------------------------------------

  /** Whether each column's value changed under `!==`: a Date counts as changed unless it is the same object. */
  function ChangedBits(cat: seq<(string, Column)>, clean: map<string, Value>, dirty: map<string, Value>): (b: seq<bool>)
    requires Covers(cat, clean) && Covers(cat, dirty)
    ensures |b| == |cat| && forall i | 0 <= i < |cat| :: b[i] == (clean[cat[i].0] != dirty[cat[i].0])
  {
    seq(|cat|, i requires 0 <= i < |cat| => clean[cat[i].0] != dirty[cat[i].0])
  }

  /** The positions of the changed columns, in catalog order. */
  function Changed(cat: seq<(string, Column)>, clean: map<string, Value>, dirty: map<string, Value>): (r: seq<nat>)
    requires Covers(cat, clean) && Covers(cat, dirty)
    ensures Within(r, |cat|)
  {
    Where(ChangedBits(cat, clean, dirty))
  }

  /** The positions of the primary-key columns, in catalog order. */
  function KeyPositions(cat: seq<(string, Column)>): (r: seq<nat>)
    ensures Within(r, |cat|)
  {
    Where(KeyBits(cat))
  }

  function UpdateName(table: string, changed: seq<nat>): string
  {
    "_update_" + table + "_" + PositionList(changed)
  }

  function UpdateSql(q: string -> string, table: string, cat: seq<(string, Column)>, changed: seq<nat>): string
    requires Within(changed, |cat|)
  {
    var where := "(" + Join(KeyConditions(q, cat, KeyPositions(cat), |changed| + 1), " AND ") + ")";
    "UPDATE " + q(table) + " SET " + Join(Assignments(q, cat, changed), ", ") + " WHERE " + where +
    " RETURNING " + Join(Returning(q, cat), ", ")
  }

  /** The prepared values of the changed columns followed by those of the primary-key columns. */
  function UpdateParams(cat: seq<(string, Column)>, clean: map<string, Value>, dirty: map<string, Value>): Option<seq<Value>>
    requires Covers(cat, clean) && Covers(cat, dirty)
  {
    AllPrepared(Params(cat, dirty, Changed(cat, clean, dirty)) + Params(cat, dirty, KeyPositions(cat)))
  }

  /**
   * _update's statement: the changed columns are set from $1 on, the
   * primary-key columns follow in the WHERE clause with their current values,
   * and every column is returned.
   */
  function UpdateStatement(q: string -> string, table: string, cat: seq<(string, Column)>,
                           clean: map<string, Value>, dirty: map<string, Value>): Result<Statement, Failure>
    requires Covers(cat, clean) && Covers(cat, dirty)
  {
    var changed := Changed(cat, clean, dirty);
    match UpdateParams(cat, clean, dirty)
    case None => Failure(PrepFailure)
    case Some(vals) => Success(Statement(UpdateSql(q, table, cat, changed), vals, UpdateName(table, changed)))
  }

  /**
   * The columns an update writes are exactly those whose value is not
   * identical to the loaded one, in catalog order.
   */
  lemma {:induction false} ChangedColumns(cat: seq<(string, Column)>, clean: map<string, Value>, dirty: map<string, Value>)
    requires Covers(cat, clean) && Covers(cat, dirty)
    ensures var changed := Changed(cat, clean, dirty);
      (forall i | 0 <= i < |cat| :: i in changed <==> clean[cat[i].0] != dirty[cat[i].0]) &&
      (forall p, p' | 0 <= p < p' < |changed| :: changed[p] < changed[p'])
  {
    var bits := ChangedBits(cat, clean, dirty);
    var changed := Where(bits);
    forall i | 0 <= i < |cat| && i in changed ensures clean[cat[i].0] != dirty[cat[i].0] {
      var p :| 0 <= p < |changed| && changed[p] == i;
      assert bits[changed[p]];
    }
  }

  /**
   * The first parameters of an update are the prepared current values of
   * the changed columns, the n-th for the clause that carries $n.
   */
  lemma {:induction false} UpdateChangedParams(q: string -> string, table: string, cat: seq<(string, Column)>,
                                               clean: map<string, Value>, dirty: map<string, Value>)
    requires Covers(cat, clean) && Covers(cat, dirty)
    requires UpdateStatement(q, table, cat, clean, dirty).Success?
    ensures var changed := Changed(cat, clean, dirty);
      var st := UpdateStatement(q, table, cat, clean, dirty).value;
      |st.params| == |changed| + |KeyPositions(cat)| &&
      forall p | 0 <= p < |changed| ::
        Assignments(q, cat, changed)[p] == q(cat[changed[p]].0) + " = " + Placeholder(p + 1) &&
        Some(st.params[p]) == PrepForDatabase(cat[changed[p]].1, dirty[cat[changed[p]].0])
  {
    var changed := Changed(cat, clean, dirty);
    var opts := Params(cat, dirty, changed) + Params(cat, dirty, KeyPositions(cat));
    forall p | 0 <= p < |changed| ensures opts[p] == PrepForDatabase(cat[changed[p]].1, dirty[cat[changed[p]].0]) {
    }
  }

  /**
   * The WHERE clause of an update: one condition per primary-key column,
   * numbered on after the changed columns.
   */
  lemma {:induction false} UpdateKeyClauses(q: string -> string, cat: seq<(string, Column)>,
                                            clean: map<string, Value>, dirty: map<string, Value>)
    requires Covers(cat, clean) && Covers(cat, dirty)
    ensures var changed := Changed(cat, clean, dirty);
      var keys := KeyPositions(cat);
      forall j | 0 <= j < |keys| ::
        cat[keys[j]].1.primaryKey &&
        KeyConditions(q, cat, keys, |changed| + 1)[j] == "(" + q(cat[keys[j]].0) + " = " + Placeholder(|changed| + j + 1) + ")"
  {
  }

  /**
   * The parameters after the changed columns are the prepared current
   * values of the primary-key columns, in the order of their conditions.
   */
  lemma {:induction false} UpdateKeyParams(q: string -> string, table: string, cat: seq<(string, Column)>,
                                           clean: map<string, Value>, dirty: map<string, Value>)
    requires Covers(cat, clean) && Covers(cat, dirty)
    requires UpdateStatement(q, table, cat, clean, dirty).Success?
    ensures var changed := Changed(cat, clean, dirty);
      var keys := KeyPositions(cat);
      var st := UpdateStatement(q, table, cat, clean, dirty).value;
      |st.params| == |changed| + |keys| &&
      forall j | 0 <= j < |keys| ::
        Some(st.params[|changed| + j]) == PrepForDatabase(cat[keys[j]].1, dirty[cat[keys[j]].0])
  {
    var pc := Params(cat, dirty, Changed(cat, clean, dirty));
    var pk := Params(cat, dirty, KeyPositions(cat));
    var all := UpdateParams(cat, clean, dirty);
    assert all.Some?;
    forall j | 0 <= j < |pk| ensures Some(all.value[|pc| + j]) == pk[j] {
      assert (pc + pk)[|pc| + j] == pk[j];
    }
  }

  /** A record whose values are all the loaded ones has nothing to update. */
  lemma {:induction false} NothingChanged(cat: seq<(string, Column)>, clean: map<string, Value>, dirty: map<string, Value>)
    requires Covers(cat, clean) && Covers(cat, dirty)
    requires forall i | 0 <= i < |cat| :: clean[cat[i].0] == dirty[cat[i].0]
    ensures Changed(cat, clean, dirty) == []
  {
    WhereNone(ChangedBits(cat, clean, dirty));
  }

  /**
   * The statement name identifies the statement: for one table and catalog,
   * two updates prepared under the same name have the same SQL text, so
   * executing a registered name runs the right statement.
   */
  lemma {:induction false} UpdateNameDeterminesSql(q: string -> string, table: string, cat: seq<(string, Column)>,
                                                   c1: map<string, Value>, d1: map<string, Value>,
                                                   c2: map<string, Value>, d2: map<string, Value>)
    requires Covers(cat, c1) && Covers(cat, d1) && Covers(cat, c2) && Covers(cat, d2)
    requires |Changed(cat, c1, d1)| > 0 && |Changed(cat, c2, d2)| > 0
    requires UpdateName(table, Changed(cat, c1, d1)) == UpdateName(table, Changed(cat, c2, d2))
    ensures Changed(cat, c1, d1) == Changed(cat, c2, d2)
    ensures UpdateSql(q, table, cat, Changed(cat, c1, d1)) == UpdateSql(q, table, cat, Changed(cat, c2, d2))
  {
    var a := Changed(cat, c1, d1);
    var b := Changed(cat, c2, d2);
    var pre := "_update_" + table + "_";
    assert UpdateName(table, a) == pre + PositionList(a);
    assert UpdateName(table, b) == pre + PositionList(b);
    assert PositionList(a) == (pre + PositionList(a))[|pre|..];
    assert PositionList(b) == (pre + PositionList(b))[|pre|..];
    PositionListInjective(a, b);
  }

  // ---------------------------------------------------------------------------
  // _insert
  // ---------------------------------------------------------------------------

  function NonKeyBits(cat: seq<(string, Column)>): (b: seq<bool>)
    ensures |b| == |cat| && forall i | 0 <= i < |cat| :: b[i] == !cat[i].1.primaryKey
  {
    seq(|cat|, i requires 0 <= i < |cat| => !cat[i].1.primaryKey)
  }

  /** The positions of the columns an insert writes: every column not in the primary key. */
  function InsertPositions(cat: seq<(string, Column)>): (r: seq<nat>)
    ensures Within(r, |cat|)
  {
    Where(NonKeyBits(cat))
  }

  function InsertSql(q: string -> string, table: string, cat: seq<(string, Column)>): string
  {
    var pos := InsertPositions(cat);
    "INSERT INTO " + q(table) + " (" + Join(Names(q, cat, pos), ", ") + ") VALUES (" + Join(Holders(|pos|), ", ") + ")" +
    " RETURNING " + Join(Returning(q, cat), ", ")
  }

  /**
   * _insert's statement: every column outside the primary key, in catalog
   * order, with $1..$n and its current value prepared; every column returned;
   * the name is "_insert_" and the quoted table.
   */
  function InsertStatement(q: string -> string, table: string, cat: seq<(string, Column)>, dirty: map<string, Value>): Result<Statement, Failure>
    requires Covers(cat, dirty)
  {
    match AllPrepared(Params(cat, dirty, InsertPositions(cat)))
    case None => Failure(PrepFailure)
    case Some(vals) => Success(Statement(InsertSql(q, table, cat), vals, "_insert_" + q(table)))
  }

  /**
   * An insert names each non-key column once, in catalog order, with the
   * placeholder of its own parameter, and never a primary-key column.
   */
  lemma {:induction false} InsertBindings(q: string -> string, table: string, cat: seq<(string, Column)>, dirty: map<string, Value>)
    requires Covers(cat, dirty)
    requires InsertStatement(q, table, cat, dirty).Success?
    ensures var pos := InsertPositions(cat);
      var st := InsertStatement(q, table, cat, dirty).value;
      (forall i | 0 <= i < |cat| :: i in pos <==> !cat[i].1.primaryKey) &&
      (forall p, p' | 0 <= p < p' < |pos| :: pos[p] < pos[p']) &&
      |st.params| == |pos| &&
      forall p | 0 <= p < |pos| ::
        Names(q, cat, pos)[p] == q(cat[pos[p]].0) && Holders(|pos|)[p] == Placeholder(p + 1) &&
        Some(st.params[p]) == PrepForDatabase(cat[pos[p]].1, dirty[cat[pos[p]].0])
  {
  }

  // ---------------------------------------------------------------------------
  // load
  // ---------------------------------------------------------------------------

  /** The argument of load: a scalar, or an array from column name to value. */
  datatype LoadArg = Scalar(v: Value) | Keyed(keys: Assoc<Value>)

  function MoreThanOneKeyMessage(table: string): string
  {
    "Table " + table + " has more than one primary key column, use the array()-style load parameters"
  }

  function ExpectsKeyMessage(table: string, pkey: string): string
  {
    "Table " + table + " expects " + pkey + " as part of the primary key."
  }

  /** A scalar argument stands for the one primary-key column; with any other number of key columns it is refused. */
  function LoadKeys(table: string, pks: seq<string>, arg: LoadArg): (r: Result<Assoc<Value>, Failure>)
    ensures arg.Keyed? ==> r == Success(arg.keys)
    ensures arg.Scalar? && |pks| == 1 ==> r == Success([(pks[0], arg.v)])
    ensures arg.Scalar? && |pks| != 1 ==> r == Failure(Raised(NewBadPrimaryKey(table, "", MoreThanOneKeyMessage(table))))
  {
    match arg
    case Keyed(keys) => Success(keys)
    case Scalar(v) =>
      if |pks| == 1 then Success([(pks[0], v)])
      else Failure(Raised(NewBadPrimaryKey(table, "", MoreThanOneKeyMessage(table))))
  }

  /** A primary-key column has a truthy value in the argument. */
  predicate Supplied(keys: Assoc<Value>, pk: string)
  {
    Lookup(keys, pk).Some? && Truthy(Lookup(keys, pk).value)
  }

  /** The first primary-key column, in catalog order, without a truthy value. */
  function MissingKey(keys: Assoc<Value>, pks: seq<string>): (r: Option<nat>)
    ensures r.Some? ==> (r.value < |pks| && !Supplied(keys, pks[r.value]) &&
                         forall j | 0 <= j < r.value :: Supplied(keys, pks[j]))
    ensures r.None? ==> forall j | 0 <= j < |pks| :: Supplied(keys, pks[j])
    decreases |pks|
  {
    if |pks| == 0 then None
    else if !Supplied(keys, pks[0]) then Some(0)
    else
      match MissingKey(keys, pks[1..])
      case None => None
      case Some(j) => Some(j + 1)
  }

  /** The first key of the argument, in its own order, that is not a primary-key column. */
  function ExtraKey(keys: seq<(string, Value)>, pks: seq<string>): (r: Option<nat>)
    ensures r.Some? ==> (r.value < |keys| && keys[r.value].0 !in pks &&
                         forall j | 0 <= j < r.value :: keys[j].0 in pks)
    ensures r.None? ==> forall j | 0 <= j < |keys| :: keys[j].0 in pks
    decreases |keys|
  {
    if |keys| == 0 then None
    else if keys[0].0 !in pks then Some(0)
    else
      match ExtraKey(keys[1..], pks)
      case None => None
      case Some(j) => Some(j + 1)
  }

  /**
   * load's checks on the key array: every primary-key column needs a truthy
   * value (checked first, in catalog order), and no other key is allowed.
   */
  function CheckKeys(table: string, pks: seq<string>, keys: Assoc<Value>): (r: Option<Failure>)
  {
    match MissingKey(keys, pks)
    case Some(i) => Some(Raised(NewBadPrimaryKey(table, pks[i], ExpectsKeyMessage(table, pks[i]))))
    case None =>
      match ExtraKey(keys, pks)
      case Some(j) => Some(Raised(NewBadPrimaryKey(table, keys[j].0, "")))
      case None => None
  }

  /** Keys that pass the checks are exactly the primary-key columns, each with a truthy value. */
  lemma {:induction false} CheckedKeysArePrimaryKeys(table: string, pks: seq<string>, keys: Assoc<Value>)
    ensures CheckKeys(table, pks, keys).None? <==>
      (forall k :: k in Keys(keys) <==> k in pks) && forall j | 0 <= j < |pks| :: Truthy(Lookup(keys, pks[j]).value)
  {
    if CheckKeys(table, pks, keys).None? {
      forall k | k in Keys(keys) ensures k in pks {
        var i :| 0 <= i < |keys| && keys[i].0 == k;
      }
    }
    if (forall k :: k in Keys(keys) <==> k in pks) && forall j | 0 <= j < |pks| :: Truthy(Lookup(keys, pks[j]).value) {
      forall j | 0 <= j < |keys| ensures keys[j].0 in pks {
        assert keys[j].0 in Keys(keys);
      }
    }
  }

  /**
   * load's argument after its checks: the key array, which then has a truthy
   * value for every primary-key column and no other key, or the exception
   * the checks raise.
   */
  function LoadRequest(table: string, pks: seq<string>, arg: LoadArg): (r: Result<Assoc<Value>, Failure>)
    ensures r.Success? ==> forall j | 0 <= j < |pks| :: Supplied(r.value, pks[j])
    ensures r.Success? ==> forall j | 0 <= j < |r.value| :: r.value[j].0 in pks
  {
    match LoadKeys(table, pks, arg)
    case Failure(e) => Failure(e)
    case Success(keys) =>
      match CheckKeys(table, pks, keys)
      case Some(e) => Failure(e)
      case None => Success(keys)
  }

  /** "name = $n" over the argument's own keys, in the argument's order, as load writes its WHERE clause. */
  function LoadStatementAsWritten(q: string -> string, table: string, keys: seq<(string, Value)>): (st: Statement)
  {
    var where := seq(|keys|, i requires 0 <= i < |keys| => q(keys[i].0) + " = " + Placeholder(i + 1));
    Statement("SELECT * FROM " + q(table) + " WHERE " + Join(where, " AND "), Values(keys), "_load_" + table)
  }

  /**
   * As written, the WHERE clause follows the argument's key order while the
   * statement name is the same for every order. A second load of a
   * two-column key given in the other order is executed with the text
   * registered first, so its first value is compared with the other column.
   */
  lemma LoadKeyOrderAsWritten(q: string -> string, table: string, a: string, x: Value, b: string, y: Value)
    ensures var first := LoadStatementAsWritten(q, table, [(a, x), (b, y)]);
      var second := LoadStatementAsWritten(q, table, [(b, y), (a, x)]);
      first.name == second.name &&
      first.sql == "SELECT * FROM " + q(table) + " WHERE " + q(a) + " = $1 AND " + q(b) + " = $2" &&
      second.params == [y, x]
  {
    var k1 := [(a, x), (b, y)];
    var k2 := [(b, y), (a, x)];
    assert Placeholder(1) == "$1" && Placeholder(2) == "$2";
    var first := LoadStatementAsWritten(q, table, k1);
    var where := seq(|k1|, i requires 0 <= i < |k1| => q(k1[i].0) + " = " + Placeholder(i + 1));
    assert |where| == 2 && where[0] == q(a) + " = $1" && where[1] == q(b) + " = $2";
    assert where == [q(a) + " = $1", q(b) + " = $2"];
    assert first.sql == "SELECT * FROM " + q(table) + " WHERE " + Join(where, " AND ");
    assert Join([q(a) + " = $1", q(b) + " = $2"], " AND ") == q(a) + " = $1 AND " + q(b) + " = $2";
    assert Values(k2) == [y, x];
  }

  /**
   * load's statement with the WHERE clause over the primary-key columns in
   * catalog order, each bound to the argument's value for it: the text only
   * depends on the table and its catalog, as the name "_load_<table>" does.
   */
  function LoadStatement(q: string -> string, table: string, pks: seq<string>, keys: Assoc<Value>): (st: Statement)
    requires forall j | 0 <= j < |pks| :: Lookup(keys, pks[j]).Some?
    ensures |st.params| == |pks| && forall j | 0 <= j < |pks| :: Some(st.params[j]) == Lookup(keys, pks[j])
  {
    var where := seq(|pks|, j requires 0 <= j < |pks| => q(pks[j]) + " = " + Placeholder(j + 1));
    var params := seq(|pks|, j requires 0 <= j < |pks| => Lookup(keys, pks[j]).value);
    Statement("SELECT * FROM " + q(table) + " WHERE " + Join(where, " AND "), params, "_load_" + table)
  }

  /**
   * Two key arrays with the same values, in whatever order, give the same
   * statement, and any two loads on one table share the text the name stands for.
   */
  lemma LoadStatementOrderFree(q: string -> string, table: string, pks: seq<string>, k1: Assoc<Value>, k2: Assoc<Value>)
    requires forall j | 0 <= j < |pks| :: Lookup(k1, pks[j]).Some? && Lookup(k1, pks[j]) == Lookup(k2, pks[j])
    ensures LoadStatement(q, table, pks, k1) == LoadStatement(q, table, pks, k2)
  {
  }

  /** The NoSuchRowException message: each argument pair as "key = value", joined by "; ". */
  function NoRowMessage(qtable: string, keys: seq<(string, Value)>): (r: Option<string>)
    ensures r.Some? <==> forall i | 0 <= i < |keys| :: !keys[i].1.VDate?
  {
    var outs := seq(|keys|, i requires 0 <= i < |keys| => StrCast(keys[i].1));
    assert forall i | 0 <= i < |keys| :: outs[i] == StrCast(keys[i].1);
    if forall i | 0 <= i < |keys| :: outs[i].Some? then
      Some("No row exists in " + qtable + " for " +
        Join(seq(|keys|, i requires 0 <= i < |keys| => keys[i].0 + " = " + outs[i].value), "; "))
    else None
  }

  // ---------------------------------------------------------------------------
  // page
  // ---------------------------------------------------------------------------

  /** The first row of page num when pages hold count rows. */
  function PageOffset(num: int, count: int): (o: int)
    ensures num >= 1 && count >= 0 ==> o >= 0
    ensures o + count == (num * count)
  {
    (num - 1) * count
  }

  function PageName(table: string): string
  {
    "_page_" + table + "_pkeys"
  }

  /** page's query sorted by primary key: the sorted column names, "pk ASC" for each key column, LIMIT $1 OFFSET $2. */
  function PageSql(q: string -> string, table: string, cat: Assoc<Column>): string
  {
    var cols := ColumnNames(cat);
    var pks := PrimaryKeys(cat);
    "SELECT " + Join(seq(|cols|, i requires 0 <= i < |cols| => q(cols[i])), ", ") + " FROM " + q(table) +
    " ORDER BY " + Join(seq(|pks|, i requires 0 <= i < |pks| => pks[i] + " ASC"), ", ") + " LIMIT $1 OFFSET $2"
  }

  /** page(num, count): the statement and its two parameters, the page size and the offset. */
  function PageStatement(q: string -> string, table: string, cat: Assoc<Column>, num: int, count: int, prepared: bool): (st: Statement)
    ensures st.params == [VInt(count), VInt(PageOffset(num, count))]
    ensures st.name == PageName(table)
    ensures st.sql == if prepared then "" else PageSql(q, table, cat)
  {
    Statement(if prepared then "" else PageSql(q, table, cat), [VInt(count), VInt(PageOffset(num, count))], PageName(table))
  }

  /** Consecutive pages are consecutive windows: page 1 starts at row 0 and each next page count rows later. */
  lemma PagesAdjacent(num: int, count: int)
    ensures PageOffset(1, count) == 0
    ensures PageOffset(num + 1, count) == PageOffset(num, count) + count
  {
    assert PageOffset(num + 1, count) + count == (num + 1) * count;
  }

  // ---------------------------------------------------------------------------
  // Associations
  // ---------------------------------------------------------------------------

  /** The foreign-key column that refers to a table: its singular and "_id". */
  function ForeignKey(table: string): string
  {
    Singularize(table) + "_id"
  }

  function AssocName(mytable: string, name: string): string
  {
    "_assoc_" + mytable + "_" + name
  }

  /** one-to-many: the rows of the other table whose foreign key is this record's id. */
  function OneToManySql(q: string -> string, table: string, mytable: string): string
  {
    "SELECT * FROM " + q(table) + " WHERE " + q(ForeignKey(mytable)) + " = $1"
  }

  /** many-to-many: the other table's rows linked to this record through the join table. */
  function ManyToManySql(q: string -> string, table: string, mytable: string): string
  {
    var jtable := JoinTable(table, mytable);
    "SELECT " + q(table) + ".* FROM " + q(table) + " INNER JOIN " + q(jtable) +
    " ON " + q(jtable) + "." + q(ForeignKey(table)) + " = " + q(table) + ".id" +
    " WHERE " + q(jtable) + "." + q(ForeignKey(mytable)) + " = $1"
  }

  /** many-to-one: the other table's row whose id is this record's foreign key. */
  function ManyToOneSql(q: string -> string, table: string): string
  {
    "SELECT * FROM " + q(table) + " WHERE id = $1"
  }

  /**
   * Both ends of a many-to-many association go through one join table, and
   * the column one end filters on is the column the other end joins through.
   */
  lemma ManyToManyBothEnds(q: string -> string, ta: string, tb: string)
    ensures var fromA := ManyToManySql(q, tb, ta);
      var fromB := ManyToManySql(q, ta, tb);
      var jtable := if LexLeq(ta, tb) then ta + "_" + tb else tb + "_" + ta;
      fromA == "SELECT " + q(tb) + ".* FROM " + q(tb) + " INNER JOIN " + q(jtable) +
        " ON " + q(jtable) + "." + q(ForeignKey(tb)) + " = " + q(tb) + ".id" +
        " WHERE " + q(jtable) + "." + q(ForeignKey(ta)) + " = $1" &&
      fromB == "SELECT " + q(ta) + ".* FROM " + q(ta) + " INNER JOIN " + q(jtable) +
        " ON " + q(jtable) + "." + q(ForeignKey(ta)) + " = " + q(ta) + ".id" +
        " WHERE " + q(jtable) + "." + q(ForeignKey(tb)) + " = $1"
  {
    JoinTableSymmetric(ta, tb);
  }
}
