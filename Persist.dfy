/**
 * The loops with which Model->_update, Model->_insert and Model->load put
 * their statements together, each proved to build exactly the statement
 * described in the Statements module.
 */
module Persist {
  import opened Wrappers
  import opened Php
  import opened Strings
  import opened Columns
  import opened Catalogs
  import opened Exceptions
  import opened Statements

  /** A prefix of the parameters that cannot all be prepared spoils the whole list. */
  lemma AllPreparedPrefix(opts: seq<Option<Value>>, n: nat)
    requires n <= |opts| && AllPrepared(opts[..n]).None?
    ensures AllPrepared(opts).None?
  {
    var k :| 0 <= k < n && opts[..n][k].None?;
    assert opts[k].None?;
  }

  /** Prepared parameter lists concatenate. */
  lemma {:induction false} AllPreparedAppend(a: seq<Option<Value>>, b: seq<Option<Value>>)
    ensures AllPrepared(a + b) ==
      if AllPrepared(a).Some? && AllPrepared(b).Some? then Some(AllPrepared(a).value + AllPrepared(b).value) else None
    decreases |b|
  {
    if |b| == 0 {
      assert a + b == a;
      assert AllPrepared(b) == Some([]);
      if AllPrepared(a).Some? {
        assert AllPrepared(a).value + [] == AllPrepared(a).value;
      }
    } else {
      var init := b[..|b| - 1];
      var last := b[|b| - 1];
      assert b == init + [last];
      assert a + b == (a + init) + [last];
      AllPreparedAppend(a, init);
      AllPreparedSnoc(a + init, last);
      AllPreparedSnoc(init, last);
      if AllPrepared(a).Some? && AllPrepared(init).Some? && last.Some? {
        var x, y := AllPrepared(a).value, AllPrepared(init).value;
        assert (x + y) + [last.value] == x + (y + [last.value]);
      }
    }
  }

  /** The parameters of a prefix of the positions are a prefix of the parameters. */
  lemma ParamsPrefix(cat: seq<(string, Column)>, dirty: map<string, Value>, pos: seq<nat>, n: nat)
    requires Within(pos, |cat|) && Covers(cat, dirty) && n <= |pos|
    ensures Within(pos[..n], |cat|)
    ensures Params(cat, dirty, pos[..n]) == Params(cat, dirty, pos)[..n]
  {
  }

  /** The pieces of _update's first loop: the changed positions, their SET items and parameters, and the RETURNING list. */
  datatype UpdateParts = UpdateParts(changed: seq<nat>, sets: seq<string>, vals: seq<Value>, rets: seq<string>)

  /** The first i columns of the catalog have gone through _update's first loop. */
  predicate SetPrefix(q: string -> string, cat: Assoc<Column>, clean: map<string, Value>, dirty: map<string, Value>,
                      i: nat, parts: UpdateParts)
    requires Covers(cat, clean) && Covers(cat, dirty)
  {
    i <= |cat| && parts.changed == Where(ChangedBits(cat, clean, dirty)[..i]) && Within(parts.changed, |cat|) &&
    parts.sets == Assignments(q, cat, parts.changed) &&
    AllPrepared(Params(cat, dirty, parts.changed)) == Some(parts.vals) &&
    parts.rets == Returning(q, cat[..i])
  }

  lemma SetPrefixStart(q: string -> string, cat: Assoc<Column>, clean: map<string, Value>, dirty: map<string, Value>)
    requires Covers(cat, clean) && Covers(cat, dirty)
    ensures SetPrefix(q, cat, clean, dirty, 0, UpdateParts([], [], [], []))
  {
  }

  /** A column whose value is the loaded one is only returned. */
  lemma SetPrefixSame(q: string -> string, cat: Assoc<Column>, clean: map<string, Value>, dirty: map<string, Value>,
                      i: nat, parts: UpdateParts)
    requires Covers(cat, clean) && Covers(cat, dirty)
    requires SetPrefix(q, cat, clean, dirty, i, parts) && i < |cat| && clean[cat[i].0] == dirty[cat[i].0]
    ensures SetPrefix(q, cat, clean, dirty, i + 1, parts.(rets := parts.rets + [q(cat[i].0)]))
  {
    WhereStep(ChangedBits(cat, clean, dirty), i);
    ReturningStep(q, cat, i);
  }

  /** A changed column is set from its prepared value, under the next placeholder. */
  lemma SetPrefixChanged(q: string -> string, cat: Assoc<Column>, clean: map<string, Value>, dirty: map<string, Value>,
                         i: nat, parts: UpdateParts, v: Value)
    requires Covers(cat, clean) && Covers(cat, dirty)
    requires SetPrefix(q, cat, clean, dirty, i, parts) && i < |cat| && clean[cat[i].0] != dirty[cat[i].0]
    requires PrepForDatabase(cat[i].1, dirty[cat[i].0]) == Some(v)
    ensures SetPrefix(q, cat, clean, dirty, i + 1,
                      UpdateParts(parts.changed + [i], parts.sets + [q(cat[i].0) + " = " + Placeholder(|parts.changed| + 1)],
                                  parts.vals + [v], parts.rets + [q(cat[i].0)]))
  {
    WhereStep(ChangedBits(cat, clean, dirty), i);
    ReturningStep(q, cat, i);
    AssignmentsSnoc(q, cat, parts.changed, i);
    ParamsSnoc(cat, dirty, parts.changed, i);
    AllPreparedSnoc(Params(cat, dirty, parts.changed), Some(v));
  }

  /** A changed column whose value cannot be prepared spoils the whole update. */
  lemma SetPrefixFails(q: string -> string, cat: Assoc<Column>, clean: map<string, Value>, dirty: map<string, Value>,
                       i: nat, parts: UpdateParts)
    requires Covers(cat, clean) && Covers(cat, dirty)
    requires SetPrefix(q, cat, clean, dirty, i, parts) && i < |cat| && clean[cat[i].0] != dirty[cat[i].0]
    requires PrepForDatabase(cat[i].1, dirty[cat[i].0]).None?
    ensures AllPrepared(Params(cat, dirty, Changed(cat, clean, dirty))).None?
  {
    var bits := ChangedBits(cat, clean, dirty);
    var changed := Changed(cat, clean, dirty);
    WhereStep(bits, i);
    WherePrefix(bits, i + 1);
    var n := |parts.changed| + 1;
    assert changed[..n] == parts.changed + [i];
    ParamsPrefix(cat, dirty, changed, n);
    ParamsSnoc(cat, dirty, parts.changed, i);
    AllPreparedSnoc(Params(cat, dirty, parts.changed), None);
    AllPreparedPrefix(Params(cat, dirty, changed), n);
  }

  lemma SetPrefixDone(q: string -> string, cat: Assoc<Column>, clean: map<string, Value>, dirty: map<string, Value>, parts: UpdateParts)
    requires Covers(cat, clean) && Covers(cat, dirty)
    requires SetPrefix(q, cat, clean, dirty, |cat|, parts)
    ensures var changed := Changed(cat, clean, dirty);
      AllPrepared(Params(cat, dirty, changed)) == Some(parts.vals) &&
      parts == UpdateParts(changed, Assignments(q, cat, changed), parts.vals, Returning(q, cat))
  {
    WhereAll(ChangedBits(cat, clean, dirty));
    assert cat[..|cat|] == cat;
  }

  /**
   * _update's loop over the catalog: every column is returned; a column
   * whose value is not identical to the loaded one gets "name = $x" and its
   * prepared value; a value that cannot be prepared ends the script.
   */
  method SetClauses(q: string -> string, cat: Assoc<Column>, clean: map<string, Value>, dirty: map<string, Value>)
    returns (r: Result<UpdateParts, Failure>)
    requires Covers(cat, clean) && Covers(cat, dirty)
    ensures var changed := Changed(cat, clean, dirty);
      match AllPrepared(Params(cat, dirty, changed))
      case None => r == Failure(PrepFailure)
      case Some(vals) => r == Success(UpdateParts(changed, Assignments(q, cat, changed), vals, Returning(q, cat)))
  {
    var changed: seq<nat> := [];
    var sets: seq<string> := [];
    var vals: seq<Value> := [];
    var rets: seq<string> := [];
    SetPrefixStart(q, cat, clean, dirty);
    for i := 0 to |cat|
      invariant SetPrefix(q, cat, clean, dirty, i, UpdateParts(changed, sets, vals, rets))
    {
      var name := cat[i].0;
      var qname := q(name);
      if clean[name] != dirty[name] {
        var val := PrepForDatabase(cat[i].1, dirty[name]);
        if val.None? {
          SetPrefixFails(q, cat, clean, dirty, i, UpdateParts(changed, sets, vals, rets));
          return Failure(PrepFailure);
        }
        SetPrefixChanged(q, cat, clean, dirty, i, UpdateParts(changed, sets, vals, rets), val.value);
        sets := sets + [qname + " = " + Placeholder(|changed| + 1)];
        vals := vals + [val.value];
        changed := changed + [i];
      } else {
        SetPrefixSame(q, cat, clean, dirty, i, UpdateParts(changed, sets, vals, rets));
      }
      rets := rets + [qname];
    }
    SetPrefixDone(q, cat, clean, dirty, UpdateParts(changed, sets, vals, rets));
    r := Success(UpdateParts(changed, sets, vals, rets));
  }

  /**
   * _update's loop over the primary keys: "(name = $x)" for each key column,
   * numbered on from `from`, with its prepared current value.
   */
  method KeyClauses(q: string -> string, cat: Assoc<Column>, dirty: map<string, Value>, from: nat)
    returns (r: Result<(seq<string>, seq<Value>), Failure>)
    requires Covers(cat, dirty)
    ensures var keys := KeyPositions(cat);
      match AllPrepared(Params(cat, dirty, keys))
      case None => r == Failure(PrepFailure)
      case Some(vals) => r == Success((KeyConditions(q, cat, keys, from), vals))
  {
    var keys := KeyPositions(cat);
    var where: seq<string> := [];
    var vals: seq<Value> := [];
    for j := 0 to |keys|
      invariant Within(keys[..j], |cat|)
      invariant where == KeyConditions(q, cat, keys[..j], from)
      invariant AllPrepared(Params(cat, dirty, keys[..j])) == Some(vals)
    {
      var p := keys[j];
      var name := cat[p].0;
      var val := PrepForDatabase(cat[p].1, dirty[name]);
      assert keys[..j + 1] == keys[..j] + [p];
      ParamsSnoc(cat, dirty, keys[..j], p);
      AllPreparedSnoc(Params(cat, dirty, keys[..j]), val);
      if val.None? {
        ParamsPrefix(cat, dirty, keys, j + 1);
        AllPreparedPrefix(Params(cat, dirty, keys), j + 1);
        return Failure(PrepFailure);
      }
      KeyConditionsSnoc(q, cat, keys[..j], p, from);
      where := where + ["(" + q(name) + " = " + Placeholder(from + j) + ")"];
      vals := vals + [val.value];
    }
    assert keys[..|keys|] == keys;
    r := Success((where, vals));
  }

  /** When both lists of parameters can be prepared, the update is the statement the loops put together. */
  lemma UpdateAssembled(q: string -> string, table: string, cat: Assoc<Column>, clean: map<string, Value>, dirty: map<string, Value>,
                        sv: seq<Value>, kv: seq<Value>)
    requires Covers(cat, clean) && Covers(cat, dirty)
    requires AllPrepared(Params(cat, dirty, Changed(cat, clean, dirty))) == Some(sv)
    requires AllPrepared(Params(cat, dirty, KeyPositions(cat))) == Some(kv)
    ensures UpdateStatement(q, table, cat, clean, dirty) ==
      Success(Statement(UpdateSql(q, table, cat, Changed(cat, clean, dirty)), sv + kv, UpdateName(table, Changed(cat, clean, dirty))))
  {
    AllPreparedAppend(Params(cat, dirty, Changed(cat, clean, dirty)), Params(cat, dirty, KeyPositions(cat)));
  }

  /** When either list of parameters cannot be prepared, the update ends the script. */
  lemma UpdateUnprepared(q: string -> string, table: string, cat: Assoc<Column>, clean: map<string, Value>, dirty: map<string, Value>)
    requires Covers(cat, clean) && Covers(cat, dirty)
    requires AllPrepared(Params(cat, dirty, Changed(cat, clean, dirty))).None? ||
             AllPrepared(Params(cat, dirty, KeyPositions(cat))).None?
    ensures UpdateStatement(q, table, cat, clean, dirty) == Failure(PrepFailure)
  {
    AllPreparedAppend(Params(cat, dirty, Changed(cat, clean, dirty)), Params(cat, dirty, KeyPositions(cat)));
  }

  /**
   * Model->_update's statement: nothing when no value changed; otherwise the
   * UPDATE of the changed columns on the primary key, returning every
   * column, under the name listing the changed positions.
   */
  method BuildUpdate(q: string -> string, table: string, cat: Assoc<Column>, clean: map<string, Value>, dirty: map<string, Value>)
    returns (r: Result<Option<Statement>, Failure>)
    requires Covers(cat, clean) && Covers(cat, dirty)
    ensures |Changed(cat, clean, dirty)| == 0 ==> r == Success(None)
    ensures |Changed(cat, clean, dirty)| > 0 ==>
      match UpdateStatement(q, table, cat, clean, dirty)
      case Failure(e) => r == Failure(e)
      case Success(st) => r == Success(Some(st))
  {
    var sets := SetClauses(q, cat, clean, dirty);
    if sets.Failure? {
      UpdateUnprepared(q, table, cat, clean, dirty);
      return Failure(sets.error);
    }
    var parts := sets.value;
    if |parts.sets| == 0 {
      return Success(None);
    }
    var keys := KeyClauses(q, cat, dirty, |parts.changed| + 1);
    if keys.Failure? {
      UpdateUnprepared(q, table, cat, clean, dirty);
      return Failure(keys.error);
    }
    UpdateAssembled(q, table, cat, clean, dirty, parts.vals, keys.value.1);
    var where := "(" + Join(keys.value.0, " AND ") + ")";
    var sql := "UPDATE " + q(table) + " SET " + Join(parts.sets, ", ") + " WHERE " + where +
               " RETURNING " + Join(parts.rets, ", ");
    var name := "_update_" + table + "_" + Join(Numerals(parts.changed), ",");
    assert sql == UpdateSql(q, table, cat, parts.changed);
    r := Success(Some(Statement(sql, parts.vals + keys.value.1, name)));
  }

  /** The pieces of _insert's loop: the written positions, their names, placeholders and parameters, and the RETURNING list. */
  datatype InsertParts = InsertParts(pos: seq<nat>, names: seq<string>, holds: seq<string>, vals: seq<Value>, rets: seq<string>)

  /** The first i columns of the catalog have gone through _insert's loop. */
  predicate InsertPrefix(q: string -> string, cat: Assoc<Column>, dirty: map<string, Value>, i: nat, parts: InsertParts)
    requires Covers(cat, dirty)
  {
    i <= |cat| && parts.pos == Where(NonKeyBits(cat)[..i]) && Within(parts.pos, |cat|) &&
    parts.names == Names(q, cat, parts.pos) && parts.holds == Holders(|parts.pos|) &&
    AllPrepared(Params(cat, dirty, parts.pos)) == Some(parts.vals) &&
    parts.rets == Returning(q, cat[..i])
  }

  lemma InsertPrefixStart(q: string -> string, cat: Assoc<Column>, dirty: map<string, Value>)
    requires Covers(cat, dirty)
    ensures InsertPrefix(q, cat, dirty, 0, InsertParts([], [], [], [], []))
  {
  }

  /** A primary-key column is only returned. */
  lemma InsertPrefixKey(q: string -> string, cat: Assoc<Column>, dirty: map<string, Value>, i: nat, parts: InsertParts)
    requires Covers(cat, dirty)
    requires InsertPrefix(q, cat, dirty, i, parts) && i < |cat| && cat[i].1.primaryKey
    ensures InsertPrefix(q, cat, dirty, i + 1, parts.(rets := parts.rets + [q(cat[i].0)]))
  {
    WhereStep(NonKeyBits(cat), i);
    ReturningStep(q, cat, i);
  }

  /** Any other column is written from its prepared value, under the next placeholder. */
  lemma InsertPrefixWrite(q: string -> string, cat: Assoc<Column>, dirty: map<string, Value>, i: nat, parts: InsertParts, v: Value)
    requires Covers(cat, dirty)
    requires InsertPrefix(q, cat, dirty, i, parts) && i < |cat| && !cat[i].1.primaryKey
    requires PrepForDatabase(cat[i].1, dirty[cat[i].0]) == Some(v)
    ensures InsertPrefix(q, cat, dirty, i + 1,
                         InsertParts(parts.pos + [i], parts.names + [q(cat[i].0)], parts.holds + [Placeholder(|parts.pos| + 1)],
                                     parts.vals + [v], parts.rets + [q(cat[i].0)]))
  {
    WhereStep(NonKeyBits(cat), i);
    ReturningStep(q, cat, i);
    NamesSnoc(q, cat, parts.pos, i);
    HoldersSnoc(|parts.pos|);
    ParamsSnoc(cat, dirty, parts.pos, i);
    AllPreparedSnoc(Params(cat, dirty, parts.pos), Some(v));
  }

  /** A written column whose value cannot be prepared spoils the whole insert. */
  lemma InsertPrefixFails(q: string -> string, cat: Assoc<Column>, dirty: map<string, Value>, i: nat, parts: InsertParts)
    requires Covers(cat, dirty)
    requires InsertPrefix(q, cat, dirty, i, parts) && i < |cat| && !cat[i].1.primaryKey
    requires PrepForDatabase(cat[i].1, dirty[cat[i].0]).None?
    ensures AllPrepared(Params(cat, dirty, InsertPositions(cat))).None?
  {
    var bits := NonKeyBits(cat);
    var pos := InsertPositions(cat);
    WhereStep(bits, i);
    WherePrefix(bits, i + 1);
    var n := |parts.pos| + 1;
    assert pos[..n] == parts.pos + [i];
    ParamsPrefix(cat, dirty, pos, n);
    ParamsSnoc(cat, dirty, parts.pos, i);
    AllPreparedSnoc(Params(cat, dirty, parts.pos), None);
    AllPreparedPrefix(Params(cat, dirty, pos), n);
  }

  lemma InsertPrefixDone(q: string -> string, cat: Assoc<Column>, dirty: map<string, Value>, parts: InsertParts)
    requires Covers(cat, dirty)
    requires InsertPrefix(q, cat, dirty, |cat|, parts)
    ensures var pos := InsertPositions(cat);
      AllPrepared(Params(cat, dirty, pos)) == Some(parts.vals) &&
      parts == InsertParts(pos, Names(q, cat, pos), Holders(|pos|), parts.vals, Returning(q, cat))
  {
    WhereAll(NonKeyBits(cat));
    assert cat[..|cat|] == cat;
  }

  /**
   * _insert's loop over the catalog: every column is returned; every column
   * outside the primary key is written with "$x" and its prepared current
   * value; a value that cannot be prepared ends the script.
   */
  method InsertClauses(q: string -> string, cat: Assoc<Column>, dirty: map<string, Value>)
    returns (r: Result<InsertParts, Failure>)
    requires Covers(cat, dirty)
    ensures var pos := InsertPositions(cat);
      match AllPrepared(Params(cat, dirty, pos))
      case None => r == Failure(PrepFailure)
      case Some(vals) => r == Success(InsertParts(pos, Names(q, cat, pos), Holders(|pos|), vals, Returning(q, cat)))
  {
    var pos: seq<nat> := [];
    var names: seq<string> := [];
    var holds: seq<string> := [];
    var vals: seq<Value> := [];
    var rets: seq<string> := [];
    InsertPrefixStart(q, cat, dirty);
    for i := 0 to |cat|
      invariant InsertPrefix(q, cat, dirty, i, InsertParts(pos, names, holds, vals, rets))
    {
      var name := cat[i].0;
      var qname := q(name);
      if cat[i].1.primaryKey {
        InsertPrefixKey(q, cat, dirty, i, InsertParts(pos, names, holds, vals, rets));
      } else {
        var val := PrepForDatabase(cat[i].1, dirty[name]);
        if val.None? {
          InsertPrefixFails(q, cat, dirty, i, InsertParts(pos, names, holds, vals, rets));
          return Failure(PrepFailure);
        }
        InsertPrefixWrite(q, cat, dirty, i, InsertParts(pos, names, holds, vals, rets), val.value);
        names := names + [qname];
        holds := holds + [Placeholder(|pos| + 1)];
        vals := vals + [val.value];
        pos := pos + [i];
      }
      rets := rets + [qname];
    }
    InsertPrefixDone(q, cat, dirty, InsertParts(pos, names, holds, vals, rets));
    r := Success(InsertParts(pos, names, holds, vals, rets));
  }

  /** Model->_insert's statement: the INSERT of every non-key column, returning every column. */
  method BuildInsert(q: string -> string, table: string, cat: Assoc<Column>, dirty: map<string, Value>)
    returns (r: Result<Statement, Failure>)
    requires Covers(cat, dirty)
    ensures r == InsertStatement(q, table, cat, dirty)
  {
    var parts := InsertClauses(q, cat, dirty);
    if parts.Failure? {
      return Failure(parts.error);
    }
    var p := parts.value;
    var qtable := q(table);
    var sql := "INSERT INTO " + qtable + " (" + Join(p.names, ", ") + ") VALUES (" + Join(p.holds, ", ") + ")" +
               " RETURNING " + Join(p.rets, ", ");
    r := Success(Statement(sql, p.vals, "_insert_" + qtable));
  }

  /**
   * load's checks on the key array: a primary-key column without a truthy
   * value, in catalog order, is refused first; then a key of the array that
   * is not a primary-key column.
   */
  method CheckLoadKeys(table: string, pks: seq<string>, keys: Assoc<Value>) returns (r: Option<Failure>)
    ensures r == CheckKeys(table, pks, keys)
  {
    var plook: set<string> := {};
    for i := 0 to |pks|
      invariant forall j | 0 <= j < i :: Supplied(keys, pks[j])
      invariant plook == set j | 0 <= j < i :: pks[j]
    {
      var pkey := pks[i];
      if !Supplied(keys, pkey) {
        assert MissingKey(keys, pks) == Some(i);
        return Some(Raised(NewBadPrimaryKey(table, pkey, ExpectsKeyMessage(table, pkey))));
      }
      plook := plook + {pkey};
    }
    assert MissingKey(keys, pks) == None;
    assert forall k :: k in plook <==> k in pks;
    for i := 0 to |keys|
      invariant forall j | 0 <= j < i :: keys[j].0 in pks
    {
      if keys[i].0 !in plook {
        assert ExtraKey(keys, pks) == Some(i);
        return Some(Raised(NewBadPrimaryKey(table, keys[i].0, "")));
      }
    }
    r := None;
  }

  /**
   * load's WHERE clause and parameters over the primary-key columns in
   * catalog order: "name = $n" and the array's value for it.
   */
  method BuildLoad(q: string -> string, table: string, pks: seq<string>, keys: Assoc<Value>) returns (st: Statement)
    requires forall j | 0 <= j < |pks| :: Lookup(keys, pks[j]).Some?
    ensures st == LoadStatement(q, table, pks, keys)
  {
    var where: seq<string> := [];
    var params: seq<Value> := [];
    for i := 0 to |pks|
      invariant where == seq(i, j requires 0 <= j < i => q(pks[j]) + " = " + Placeholder(j + 1))
      invariant params == seq(i, j requires 0 <= j < i => Lookup(keys, pks[j]).value)
    {
      where := where + [q(pks[i]) + " = " + Placeholder(|params| + 1)];
      params := params + [Lookup(keys, pks[i]).value];
    }
    st := Statement("SELECT * FROM " + q(table) + " WHERE " + Join(where, " AND "), params, "_load_" + table);
  }

  /**
   * NoSuchRowException's message: "key = value" for each pair of the array,
   * joined by "; "; a Date value, which has no string form, ends the script.
   */
  method NoRowText(qtable: string, keys: seq<(string, Value)>) returns (r: Option<string>)
    ensures r == NoRowMessage(qtable, keys)
  {
    var outputs: seq<string> := [];
    for i := 0 to |keys|
      invariant forall j | 0 <= j < i :: StrCast(keys[j].1).Some?
      invariant outputs == seq(i, j requires 0 <= j < i => keys[j].0 + " = " + StrCast(keys[j].1).value)
    {
      var s := StrCast(keys[i].1);
      if s.None? {
        assert keys[i].1.VDate?;
        assert NoRowMessage(qtable, keys).None?;
        return None;
      }
      outputs := outputs + [keys[i].0 + " = " + s.value];
    }
    ghost var outs := seq(|keys|, i requires 0 <= i < |keys| => StrCast(keys[i].1));
    assert forall i | 0 <= i < |keys| :: outs[i].Some?;
    assert outputs == seq(|keys|, i requires 0 <= i < |keys| => keys[i].0 + " = " + outs[i].value);
    r := Some("No row exists in " + qtable + " for " + Join(outputs, "; "));
  }
}
