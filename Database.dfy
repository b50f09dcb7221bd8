/**
 * The database gateway: one cached connection, a registry of statement names
 * already prepared, and the queries run through it. The server is an oracle:
 * whether a connection string reaches it, and what running an SQL text with
 * given parameters returns.
 */
module Database {
  import opened Wrappers
  import opened Php
  import opened Strings
  import opened Conninfo

  /** A result as the server sends it: the column names and each row's values, in order. */
  datatype ResultSet = ResultSet(columns: seq<string>, rows: seq<seq<Value>>)

  /** The statement name a query runs under: its own name when truthy, else the unnamed statement "". */
  function StatementName(name: string): (n: string)
    ensures StringTruthy(name) ==> n == name
    ensures !StringTruthy(name) ==> n == ""
  {
    if StringTruthy(name) then name else ""
  }

  /** Rows are fetched until the first falsy one: a row that is an empty array ends the loop. */
  function UntilEmpty<T>(rows: seq<seq<T>>): (r: seq<seq<T>>)
    ensures |r| <= |rows| && r == rows[..|r|]
    ensures forall i | 0 <= i < |r| :: |r[i]| > 0
    ensures |r| < |rows| ==> |rows[|r|]| == 0
  {
    if |rows| == 0 || |rows[0]| == 0 then []
    else
      var rest := UntilEmpty(rows[1..]);
      assert rows[1..][..|rest|] == rows[1..|rest| + 1];
      [rows[0]] + rest
  }

  lemma {:induction false} UntilEmptyAll<T>(rows: seq<seq<T>>)
    requires forall i | 0 <= i < |rows| :: |rows[i]| > 0
    ensures UntilEmpty(rows) == rows
  {
    UntilEmptyPrefix(rows, |rows|);
    assert rows[..|rows|] == rows;
  }

  /** pg_fetch_assoc: a row as an array from column name to value; a later column of the same name overwrites. */
  function RowAssoc(columns: seq<string>, row: seq<Value>): (r: Assoc<Value>)
  {
    FromPairs(Zip(columns, row))
  }

  function Zip(columns: seq<string>, row: seq<Value>): (r: seq<(string, Value)>)
    ensures |r| == if |columns| < |row| then |columns| else |row|
    ensures forall i | 0 <= i < |r| :: r[i] == (columns[i], row[i])
  {
    if |columns| == 0 || |row| == 0 then [] else [(columns[0], row[0])] + Zip(columns[1..], row[1..])
  }

  function AssocRows(rs: ResultSet): (r: seq<Assoc<Value>>)
    ensures |r| == |rs.rows|
    ensures forall i | 0 <= i < |r| :: r[i] == RowAssoc(rs.columns, rs.rows[i])
  {
    seq(|rs.rows|, i requires 0 <= i < |rs.rows| => RowAssoc(rs.columns, rs.rows[i]))
  }

  lemma RowAssocEmpty(columns: seq<string>, row: seq<Value>)
    ensures |RowAssoc(columns, row)| == 0 <==> |columns| == 0 || |row| == 0
  {
    var z := Zip(columns, row);
    if |z| > 0 {
      assert z[0].0 in Keys(z);
    }
  }

  /** Every row of a result with columns and complete rows is returned, in order. */
  lemma {:induction false} PrefetchAllRows(rs: ResultSet)
    requires |rs.columns| > 0 && forall i | 0 <= i < |rs.rows| :: |rs.rows[i]| == |rs.columns|
    ensures UntilEmpty(rs.rows) == rs.rows
    ensures UntilEmpty(AssocRows(rs)) == AssocRows(rs)
  {
    UntilEmptyAll(rs.rows);
    forall i | 0 <= i < |rs.rows| ensures |AssocRows(rs)[i]| > 0 {
      RowAssocEmpty(rs.columns, rs.rows[i]);
    }
    UntilEmptyAll(AssocRows(rs));
  }

  /** A result without columns (a statement that returns no rows' values) gives no rows at all. */
  lemma {:induction false} PrefetchNoColumns(rs: ResultSet)
    requires |rs.columns| == 0
    ensures UntilEmpty(AssocRows(rs)) == []
  {
    if |rs.rows| > 0 {
      RowAssocEmpty(rs.columns, rs.rows[0]);
    }
  }

  /** The rows prefetch returns for a server answer: none when the execution failed. */
  function Fetched(res: Option<ResultSet>): (rows: seq<Assoc<Value>>)
    ensures res.None? ==> rows == []
    ensures res.Some? ==> |rows| <= |res.value.rows|
  {
    if res.None? then [] else UntilEmpty(AssocRows(res.value))
  }

  /** The first fetched row, or the empty array when there is none. */
  function FirstRow(res: Option<ResultSet>): Assoc<Value>
  {
    var rows := Fetched(res);
    if |rows| == 0 then [] else rows[0]
  }

  class Database {
    /** The global $DBCONFIG, the parameters used when none are given. */
    const config: seq<(string, string)>
    /** Whether pg_connect succeeds with a connection string. */
    const reachable: string -> bool
    /** What the server returns for an SQL text and parameters; None when the execution fails. */
    const answer: (string, seq<Value>) -> Option<ResultSet>

    /** self::$connection: the connection string of the open connection, if one is open. */
    var connection: Option<string>
    /** self::$prepared: the names registered by earlier queries. */
    var prepared: set<string>
    /** The statements prepared on the server, by name; "" is the unnamed statement. */
    var statements: map<string, string>

    ghost predicate Valid()
      reads this
    {
      (forall n | n in prepared :: StringTruthy(n)) &&
      (forall n | n in statements :: n == "" || n in prepared) &&
      (statements != map[] ==> connection.Some?)
    }

    constructor (config: seq<(string, string)>, reachable: string -> bool, answer: (string, seq<Value>) -> Option<ResultSet>)
      ensures this.config == config && this.reachable == reachable && this.answer == answer
      ensures connection == None && prepared == {} && statements == map[]
      ensures Valid()
    {
      this.config := config;
      this.reachable := reachable;
      this.answer := answer;
      connection := None;
      prepared := {};
      statements := map[];
    }

    /** The connection string connect writes for the given parameters (empty: $DBCONFIG). */
    function ConnectString(params: seq<(string, string)>): string
      reads this
    {
      ConnString(if |params| == 0 then config else params)
    }

    /**
     * Database::connect: an open connection is returned as it is; otherwise
     * the pairs are written into a connection string one `key=value` at a
     * time, each value backslash-escaped and quoted when it holds a space,
     * and a connection is opened with it when the server is reachable.
     */
    method Connect(params: seq<(string, string)>) returns (r: Option<string>)
      requires Valid()
      modifies this
      ensures Valid()
      ensures old(connection).Some? ==> connection == old(connection)
      ensures old(connection).None? ==>
        connection == (if reachable(ConnectString(params)) then Some(ConnectString(params)) else None)
      ensures r == connection
      ensures prepared == old(prepared) && statements == old(statements)
      ensures var ps := if |params| == 0 then config else params;
        connection.Some? && old(connection).None? && KeywordsOk(ps) &&
        (forall i | 0 <= i < |ps| :: WritableValue(ps[i].1)) ==>
          Parse(connection.value) == Some(ps)
    {
      var ps := if |params| == 0 then config else params;
      if connection.Some? {
        return connection;
      }
      var parts: seq<string> := [];
      for i := 0 to |ps|
        invariant parts == WritePairs(ps[..i])
      {
        parts := parts + [WritePair(ps[i].0, ps[i].1)];
        assert WritePairs(ps[..i + 1]) == WritePairs(ps[..i]) + [WritePair(ps[i].0, ps[i].1)] by {
          WritePairsAppend(ps[..i], ps[i]);
          assert ps[..i] + [ps[i]] == ps[..i + 1];
        }
      }
      assert ps[..|ps|] == ps;
      var info := Join(parts, " ");
      connection := if reachable(info) then Some(info) else None;
      if connection.Some? && KeywordsOk(ps) && forall i | 0 <= i < |ps| :: WritableValue(ps[i].1) {
        ConnStringRoundTrip(ps);
      }
      r := connection;
    }

    /** Database::prepared: whether an earlier query registered the name. */
    function Prepared(name: string): (b: bool)
      reads this
      requires Valid()
      ensures b ==> StringTruthy(name)
    {
      name in prepared
    }

    /** What running the statement name with parameters returns in the current state. */
    function Executed(name: string, params: seq<Value>): Option<ResultSet>
      reads this
    {
      match ExecutedText(name)
      case Some(sql) => answer(sql, params)
      case None => None
    }

    /** The SQL text the statement name stands for on the open connection, if any. */
    function ExecutedText(name: string): Option<string>
      reads this
    {
      var n := StatementName(name);
      if connection.Some? && n in statements then Some(statements[n]) else None
    }

    /** The registry step of a query: a fresh truthy name is registered; the statement is prepared when the name is fresh or falsy and a connection is open. */
    twostate predicate Ran(sql: string, name: string)
      reads this
    {
      var isNew := !StringTruthy(name) || name !in old(prepared);
      prepared == (if StringTruthy(name) then old(prepared) + {name} else old(prepared)) &&
      (old(connection).Some? ==> connection == old(connection)) &&
      (old(connection).None? ==>
        connection == (if reachable(ConnString(config)) then Some(ConnString(config)) else None)) &&
      statements == (if isNew && connection.Some? then old(statements)[StatementName(name) := sql] else old(statements))
    }

    /** What every statement name other than name executes is as it was. */
    twostate predicate KeepsOthers(name: string)
      reads this
    {
      forall other | StatementName(other) != StatementName(name) ::
        ExecutedText(other) == old(ExecutedText(other))
    }

    /**
     * What the name stands for after a query with sql: that text when the
     * name was fresh or falsy (nothing, when no connection could be opened),
     * and what it stood for before when the name was registered.
     */
    twostate predicate Stands(sql: string, name: string)
      reads this
    {
      if !StringTruthy(name) || name !in old(prepared) then ExecutedText(name) in {None, Some(sql)}
      else ExecutedText(name) == old(ExecutedText(name))
    }

    /** A query leaves its name standing for its own text when the name was fresh, and for the earlier text otherwise. */
    twostate lemma RanStands(sql: string, name: string)
      requires old(Valid()) && Ran(sql, name)
      ensures Stands(sql, name)
    {
      if StringTruthy(name) && name in old(prepared) && old(connection).None? {
        assert old(statements) == map[];
      }
    }

    /**
     * Database::query: a fresh name is registered before it is prepared, and
     * a registered name is only executed, whatever SQL text comes with it.
     */
    method Query(sql: string, params: seq<Value>, name: string) returns (r: Option<ResultSet>)
      requires Valid()
      modifies this
      ensures Valid()
      ensures Ran(sql, name)
      ensures r == Executed(name, params)
      ensures KeepsOthers(name)
    {
      var n := name;
      if (StringTruthy(n) && n !in prepared) || !StringTruthy(n) {
        if StringTruthy(n) {
          prepared := prepared + {n};
        } else {
          n := "";
        }
        var c := Connect([]);
        if c.Some? {
          statements := statements[n := sql];
        }
      }
      var c := Connect([]);
      if c.Some? && n in statements {
        r := answer(statements[n], params);
      } else {
        r := None;
      }
    }

    /** Database::prefetch: every row of the result as an array keyed by column name, in the server's order. */
    method Prefetch(sql: string, params: seq<Value>, name: string) returns (rows: seq<Assoc<Value>>)
      requires Valid()
      modifies this
      ensures Valid()
      ensures Ran(sql, name)
      ensures rows == Fetched(Executed(name, params))
      ensures KeepsOthers(name)
    {
      var res := Query(sql, params, name);
      rows := [];
      if res.Some? {
        rows := FetchAll(AssocRows(res.value));
      }
    }

    /** Database::prefetch_int: every row of the result as its values in column order. */
    method PrefetchInt(sql: string, params: seq<Value>, name: string) returns (rows: seq<seq<Value>>)
      requires Valid()
      modifies this
      ensures Valid()
      ensures Ran(sql, name)
      ensures rows == if Executed(name, params).None? then [] else UntilEmpty(Executed(name, params).value.rows)
      ensures KeepsOthers(name)
    {
      var res := Query(sql, params, name);
      rows := [];
      if res.Some? {
        rows := FetchAll(res.value.rows);
      }
    }
  }

  /** `while ($row = pg_fetch_...($r)) $ret[] = $row;`: rows are taken in order until none is left or one is empty. */
  method FetchAll<T>(all: seq<seq<T>>) returns (rows: seq<seq<T>>)
    ensures rows == UntilEmpty(all)
  {
    rows := [];
    var i := 0;
    while i < |all| && |all[i]| > 0
      invariant 0 <= i <= |all|
      invariant forall j | 0 <= j < i :: |all[j]| > 0
      invariant rows == all[..i]
    {
      rows := rows + [all[i]];
      i := i + 1;
    }
    UntilEmptyPrefix(all, i);
  }

  lemma {:induction false} WritePairsAppend(ps: seq<(string, string)>, p: (string, string))
    ensures WritePairs(ps + [p]) == WritePairs(ps) + [WritePair(p.0, p.1)]
    decreases |ps|
  {
    if |ps| == 0 {
      assert ps + [p] == [p];
    } else {
      assert (ps + [p])[1..] == ps[1..] + [p];
      WritePairsAppend(ps[1..], p);
    }
  }

  /** The fetch loop stops at the first empty row, which is where UntilEmpty stops. */
  lemma {:induction false} UntilEmptyPrefix<T>(rows: seq<seq<T>>, i: nat)
    requires i <= |rows|
    requires forall j | 0 <= j < i :: |rows[j]| > 0
    requires i == |rows| || |rows[i]| == 0
    ensures UntilEmpty(rows) == rows[..i]
    decreases i
  {
    if i > 0 {
      UntilEmptyPrefix(rows[1..], i - 1);
      assert rows[1..][..i - 1] == rows[1..i];
      assert [rows[0]] + rows[1..i] == rows[..i];
    }
  }
}
