/**
 * The record engine. `Registry` holds what Model keeps in static arrays: the
 * column catalogs, the table/class lookups and the declared associations.
 * `Record` is one model object: its catalog, the values as loaded (`clean`),
 * the values as modified (`dirty`) and its cached associations.
 */
module Model {
  import opened Wrappers
  import opened Php
  import opened Strings
  import opened Columns
  import opened Catalogs
  import opened Exceptions
  import opened Inflection
  import opened Database
  import opened Statements
  import opened RecordValues
  import opened Persist

  /** The kind an association is declared with: 'otm', 'mtm' or 'mto'. */
  datatype Kind = Otm | Mtm | Mto

  /** An association as loaded: the records of a one-to-many or many-to-many association, or the one record of a many-to-one. */
  datatype Loaded = Many(records: seq<Record>) | One(record: Record)

  /** __call dispatches `load_<word>` to the association of that name. */
  lemma LoadMethodName(n: string)
    requires IsWord(n)
    ensures WordAfter("load_", "load_" + n) == Some(n)
  {
    assert ("load_" + n)[|"load_"|..] == n;
  }

  /**
   * PCRE's `$` also matches before a final newline, so `load_<word>` with
   * one trailing newline dispatches to the same association.
   */
  lemma LoadMethodNameNewline(n: string)
    requires IsWord(n)
    ensures WordAfter("load_", "load_" + n + "\n") == Some(n)
  {
    var key := "load_" + n + "\n";
    var rest := key[|"load_"|..];
    assert rest == n + "\n";
    assert rest[..|rest| - 1] == n;
    assert !IsWord(rest) by { assert !IsWordChar(rest[|rest| - 1]); }
  }

  /**
   * Any other name is not dispatched: a name that is not `load_` followed
   * by a word, optionally followed by one newline.
   */
  lemma NonLoadNameNotDispatched(name: string)
    requires !StartsWith(name, "load_")
    ensures WordAfter("load_", name).None?
  {
  }

  /**
   * Model::sort as written: `$a->id()` is a method call, and __call only
   * dispatches `load_<association>`, so every comparison raises
   * BadMethodCallException before an id is read.
   */
  method SortAsWritten(a: Record, b: Record) returns (r: Result<int, Failure>)
    requires a.Valid() && a.registry.Valid() && a.cls in a.registry.tblLookup
    modifies a, a.registry, a.registry.db, a.registry.inflector
    ensures r == Failure(Raised(BadMethodCall("Method " + a.cls + "::" + "id" + " does not exist")))
  {
    NonLoadNameNotDispatched("id");
    var aid := a.Call("id", []);
    r := Failure(aid.error);
  }

  /**
   * The objects the many-to-many loop as written returns are not loaded
   * with their rows: for an integer id column and the row {id: 7}, an
   * all-null record does not hold the row.
   */
  lemma ManyToManyObjectsStayNull()
    ensures var cat := [("id", Column("id", "integer", false, true))];
      !RowLoaded(cat, [("id", VInt(7))], Nulls(cat))
  {
    var cat := [("id", Column("id", "integer", false, true))];
    var row := [("id", VInt(7))];
    var m := Nulls(cat);
    IndexOfAt(cat, 0);
    LookupAt(row, 0);
    assert ColumnNamed(cat, "id") == Column("id", "integer", false, true);
    assert !Coerces(ColumnNamed(cat, "id"), VInt(7), m["id"]);
  }

  /** The records an association as loaded holds. */
  function Members(l: Loaded): set<Record>
  {
    match l
    case Many(objs) => set o | o in objs
    case One(obj) => {obj}
  }

  /** The catalog query of _colquery, its whitespace runs collapsed to single spaces. */
  const ColQuerySql: string :=
    "SELECT a.attname AS \"name\", format_type(t.oid, a.atttypmod) AS db_type, " +
    "pg_get_expr(d.adbin, c.oid) AS \"default\", NOT a.attnotnull AS allow_null, " +
    "COALESCE((a.attnum = ANY(i.indkey)), false) AS primary_key " +
    "FROM ((((pg_class c INNER JOIN pg_attribute a ON a.attrelid = c.oid) " +
    "INNER JOIN pg_type t ON t.oid = a.atttypid ) " +
    "INNER JOIN pg_namespace n ON n.oid = c.relnamespace ) " +
    "LEFT OUTER JOIN pg_attrdef d ON (d.adrelid = c.oid AND d.adnum = a.attnum) ) " +
    "LEFT OUTER JOIN pg_index i ON (i.indrelid = c.oid AND i.indisprimary) " +
    "WHERE (NOT a.attisdropped) AND a.attnum > 0 AND c.relname = $1 AND " +
    "n.nspname !~* 'pg_*|information_schema' ORDER BY a.attnum;"

  /** The statement name of the catalog query. */
  const ColQueryName: string := "_colquery"

  /** Every entry of a is in b with the same value. */
  predicate Grows<V(==)>(a: map<string, V>, b: map<string, V>)
  {
    forall k | k in a :: k in b && b[k] == a[k]
  }

  /** $a[$cls][$name] = $v on a two-level array. */
  function Declare<T>(m: map<string, map<string, T>>, cls: string, name: string, v: T): (r: map<string, map<string, T>>)
    ensures r.Keys == m.Keys + {cls}
    ensures r[cls] == (if cls in m then m[cls] else map[])[name := v]
    ensures forall c | c in m && c != cls :: r[c] == m[c]
  {
    m[cls := (if cls in m then m[cls] else map[])[name := v]]
  }

  /** The declaration of association n of class c, of kind k, names its other class in the array of that kind. */
  predicate Backs(k: Kind, c: string, n: string, otm: map<string, map<string, string>>,
                  mtm: map<string, map<string, string>>, mto: map<string, map<string, string>>)
  {
    match k
    case Otm => c in otm && n in otm[c]
    case Mtm => c in mtm && n in mtm[c]
    case Mto => c in mto && n in mto[c]
  }

  /** Every declared association is backed by the array of its kind. */
  predicate Backed(assoc: map<string, map<string, Kind>>, otm: map<string, map<string, string>>,
                   mtm: map<string, map<string, string>>, mto: map<string, map<string, string>>)
  {
    forall c, n | c in assoc && n in assoc[c] :: Backs(assoc[c][n], c, n, otm, mtm, mto)
  }

  /** Declaring an association records its kind and its other class together, so every declaration stays backed. */
  lemma DeclareKeepsBacked(assoc: map<string, map<string, Kind>>, otm: map<string, map<string, string>>,
                           mtm: map<string, map<string, string>>, mto: map<string, map<string, string>>,
                           k: Kind, model: string, name: string, cls: string)
    requires Backed(assoc, otm, mtm, mto)
    ensures Backed(Declare(assoc, cls, name, k),
                   if k == Otm then Declare(otm, cls, name, model) else otm,
                   if k == Mtm then Declare(mtm, cls, name, model) else mtm,
                   if k == Mto then Declare(mto, cls, name, model) else mto)
  {
    var a' := Declare(assoc, cls, name, k);
    var o' := if k == Otm then Declare(otm, cls, name, model) else otm;
    var m' := if k == Mtm then Declare(mtm, cls, name, model) else mtm;
    var t' := if k == Mto then Declare(mto, cls, name, model) else mto;
    forall c, n | c in a' && n in a'[c] ensures Backs(a'[c][n], c, n, o', m', t') {
      if c != cls || n != name {
        assert c in assoc && n in assoc[c] && a'[c][n] == assoc[c][n];
        assert Backs(assoc[c][n], c, n, otm, mtm, mto);
      }
    }
  }

  /** The loop of Model::columns: one Column per catalog row, stored under its name; a repeated name is replaced in place. */
  method CatalogFromRows(rows: seq<Assoc<Value>>) returns (catalog: Assoc<Column>)
    ensures catalog == CatalogOf(rows)
  {
    catalog := [];
    for i := 0 to |rows|
      invariant catalog == CatalogOf(rows[..i])
    {
      var row := rows[i];
      var name := FieldText(row, "name");
      var allowNull := LooseEq(Field(row, "allow_null"), VStr("t"));
      var primaryKey := LooseEq(Field(row, "primary_key"), VStr("t"));
      var column := NewColumn(name, FieldText(row, "db_type"), VBool(allowNull), VBool(primaryKey));
      assert column == RowColumn(row);
      CatalogOfStep(rows, i);
      catalog := Put(catalog, name, column);
    }
    assert rows[..|rows|] == rows;
  }

  /** The query of an association of kind k from mytable to the other class's table. */
  function AssocSql(q: string -> string, k: Kind, table: string, mytable: string): string
  {
    match k
    case Otm => OneToManySql(q, table, mytable)
    case Mtm => ManyToManySql(q, table, mytable)
    case Mto => ManyToOneSql(q, table)
  }

  /**
   * The rows an association builds its objects from: all of them, or for a
   * many-to-one only the first (an empty row when nothing was fetched).
   */
  function Selected(rows: seq<Assoc<Value>>, first: bool): (s: seq<Assoc<Value>>)
    ensures first ==> |s| == 1 && (|rows| > 0 ==> s[0] == rows[0])
    ensures !first ==> s == rows
  {
    if !first then rows else if |rows| == 0 then [[]] else [rows[0]]
  }

  /** An association's statement name never names the catalog query's statement. */
  lemma AssocNameNotColQuery(mytable: string, name: string)
    ensures StatementName(AssocName(mytable, name)) != StatementName(ColQueryName)
  {
    var n := AssocName(mytable, name);
    assert n[1] == 'a' && ColQueryName[1] == 'c';
    assert StringTruthy(n);
  }

  /** The page statements and the catalog query never share a name. */
  lemma PageNameNotColQuery(table: string)
    ensures StatementName(PageName(table)) != StatementName(ColQueryName)
  {
    var n := PageName(table);
    assert n[1] == 'p' && ColQueryName[1] == 'c';
    assert StringTruthy(n);
  }

  class Registry {
    const db: Database
    const inflector: Inflector
    /** Database::quote_identifier. */
    const quote: string -> string
    /** The text of the catalog query, ColQuerySql. */
    const colQuery: string

    /** self::$columns: the catalog of each class, once fetched. */
    var columns: map<string, Assoc<Column>>
    /** self::$tbl_lookup: class to table. */
    var tblLookup: map<string, string>
    /** self::$cls_lookup: table to class. */
    var clsLookup: map<string, string>
    /** self::$associations: for each class, the kind of each association name. */
    var associations: map<string, map<string, Kind>>
    /** self::$one_to_many, $many_to_many, $many_to_one: for each class and association name, the other class. */
    var oneToMany: map<string, map<string, string>>
    var manyToMany: map<string, map<string, string>>
    var manyToOne: map<string, map<string, string>>

    ghost predicate Valid()
      reads this, db, inflector
    {
      db.Valid() && inflector.Valid() &&
      (forall c | c in columns :: c in tblLookup && WellFormed(columns[c])) &&
      Declared()
    }

    predicate Declared()
      reads this
    {
      Backed(associations, oneToMany, manyToMany, manyToOne)
    }

    /** The association declarations are as they were. */
    twostate predicate SameDeclarations()
      reads this
    {
      associations == old(associations) && oneToMany == old(oneToMany) &&
      manyToMany == old(manyToMany) && manyToOne == old(manyToOne)
    }

    /**
     * The declarations are as they were, and every catalog and every
     * class-to-table entry the registry held is still there, unchanged.
     */
    twostate predicate Extends()
      reads this
    {
      SameDeclarations() && Grows(old(columns), columns) && Grows(old(tblLookup), tblLookup)
    }

    /** Model's static arrays start empty. */
    constructor (db: Database, inflector: Inflector, quote: string -> string)
      requires db.Valid() && inflector.Valid()
      ensures this.db == db && this.inflector == inflector && this.quote == quote && colQuery == ColQuerySql
      ensures columns == map[] && tblLookup == map[] && clsLookup == map[]
      ensures associations == map[] && oneToMany == map[] && manyToMany == map[] && manyToOne == map[]
      ensures Valid()
    {
      this.db := db;
      this.inflector := inflector;
      this.quote := quote;
      colQuery := ColQuerySql;
      columns := map[];
      tblLookup := map[];
      clsLookup := map[];
      associations := map[];
      oneToMany := map[];
      manyToMany := map[];
      manyToOne := map[];
    }

    /** Model::associate_table: the class gets the table and the table gets the class. */
    method AssociateTable(table: string, cls: string)
      requires Valid()
      modifies this
      ensures Valid() && SameDeclarations() && columns == old(columns)
      ensures tblLookup == old(tblLookup)[cls := table] && clsLookup == old(clsLookup)[table := cls]
    {
      tblLookup := tblLookup[cls := table];
      clsLookup := clsLookup[table := cls];
    }

    /** Model::one_to_many: cls has many model records under name. */
    method OneToMany(model: string, name: string, cls: string)
      requires Valid()
      modifies this
      ensures Valid() && columns == old(columns) && tblLookup == old(tblLookup) && clsLookup == old(clsLookup)
      ensures oneToMany == Declare(old(oneToMany), cls, name, model) && associations == Declare(old(associations), cls, name, Otm)
      ensures manyToMany == old(manyToMany) && manyToOne == old(manyToOne)
    {
      DeclareKeepsBacked(associations, oneToMany, manyToMany, manyToOne, Otm, model, name, cls);
      oneToMany := Declare(oneToMany, cls, name, model);
      associations := Declare(associations, cls, name, Otm);
    }

    /** Model::many_to_many: cls and model are linked through their join table, under name. */
    method ManyToMany(model: string, name: string, cls: string)
      requires Valid()
      modifies this
      ensures Valid() && columns == old(columns) && tblLookup == old(tblLookup) && clsLookup == old(clsLookup)
      ensures manyToMany == Declare(old(manyToMany), cls, name, model) && associations == Declare(old(associations), cls, name, Mtm)
      ensures oneToMany == old(oneToMany) && manyToOne == old(manyToOne)
    {
      DeclareKeepsBacked(associations, oneToMany, manyToMany, manyToOne, Mtm, model, name, cls);
      manyToMany := Declare(manyToMany, cls, name, model);
      associations := Declare(associations, cls, name, Mtm);
    }

    /** Model::many_to_one: cls refers to one model record under name. */
    method ManyToOne(model: string, name: string, cls: string)
      requires Valid()
      modifies this
      ensures Valid() && columns == old(columns) && tblLookup == old(tblLookup) && clsLookup == old(clsLookup)
      ensures manyToOne == Declare(old(manyToOne), cls, name, model) && associations == Declare(old(associations), cls, name, Mto)
      ensures oneToMany == old(oneToMany) && manyToMany == old(manyToMany)
    {
      DeclareKeepsBacked(associations, oneToMany, manyToMany, manyToOne, Mto, model, name, cls);
      manyToOne := Declare(manyToOne, cls, name, model);
      associations := Declare(associations, cls, name, Mto);
    }

    /**
     * Model::table_for_class: a registered class keeps its table; otherwise
     * the table is the decamelized class name made plural, and it is
     * registered in both directions.
     */
    method TableForClass(cls: string) returns (r: Result<string, Failure>)
      requires Valid()
      modifies this, inflector
      ensures Valid() && Extends() && columns == old(columns)
      ensures cls in old(tblLookup) ==>
        r == Success(old(tblLookup)[cls]) && tblLookup == old(tblLookup) && clsLookup == old(clsLookup) &&
        inflector.camelized == old(inflector.camelized) && inflector.decamelized == old(inflector.decamelized)
      ensures cls !in old(tblLookup) && cls in old(inflector.decamelized) ==>
        r == Success(Pluralize(old(inflector.decamelized)[cls]))
      ensures cls !in old(tblLookup) && cls !in old(inflector.decamelized) && DecamelizeText(cls) !in old(inflector.camelized) ==>
        r == Success(Pluralize(DecamelizeText(cls)))
      ensures r.Success? ==>
        cls in tblLookup && tblLookup[cls] == r.value &&
        (cls !in old(tblLookup) ==> tblLookup == old(tblLookup)[cls := r.value] && clsLookup == old(clsLookup)[r.value := cls])
      ensures r.Failure? ==>
        tblLookup == old(tblLookup) && clsLookup == old(clsLookup) && r.error.Raised? && r.error.exception.AmbiguousInflection?
    {
      if cls !in tblLookup {
        var d := inflector.Decamelize(cls);
        if d.Failure? {
          return Failure(d.error);
        }
        AssociateTable(Pluralize(d.value), cls);
      }
      r := Success(tblLookup[cls]);
    }

    /**
     * class_for_table as written: it reads the static property
     * $class_lookup, which Model does not declare (the table-to-class array
     * is $cls_lookup), so the call ends the script whatever the table.
     */
    function ClassForTableAsWritten(table: string): (r: Result<string, Failure>)
    {
      Failure(Fatal("Access to undeclared static property: Model::$class_lookup"))
    }

    /** As written, no table is ever mapped back to its class, not even one associate_table registered. */
    lemma ClassForTableNeverAnswers(table: string)
      requires Valid() && table in clsLookup
      ensures ClassForTableAsWritten(table).Failure?
      ensures ClassForTableAsWritten(table) != Success(clsLookup[table])
    {
    }

    /**
     * class_for_table reading $cls_lookup: a registered table keeps its
     * class; otherwise the class is the camelized singular of the table, and
     * it is registered in both directions.
     */
    method ClassForTable(table: string) returns (r: Result<string, Failure>)
      requires Valid()
      modifies this, inflector
      ensures Valid() && SameDeclarations() && columns == old(columns)
      ensures table in old(clsLookup) ==>
        r == Success(old(clsLookup)[table]) && tblLookup == old(tblLookup) && clsLookup == old(clsLookup)
      ensures table !in old(clsLookup) && Singularize(table) in old(inflector.camelized) ==>
        r == Success(old(inflector.camelized)[Singularize(table)])
      ensures table !in old(clsLookup) && Singularize(table) !in old(inflector.camelized) &&
              CamelizeText(Singularize(table)) !in old(inflector.decamelized) ==>
        r == Success(CamelizeText(Singularize(table)))
      ensures r.Success? ==>
        table in clsLookup && clsLookup[table] == r.value &&
        (table !in old(clsLookup) ==> r.value in tblLookup && tblLookup[r.value] == table)
      ensures r.Failure? ==> tblLookup == old(tblLookup) && clsLookup == old(clsLookup)
    {
      if table !in clsLookup {
        var c := inflector.Camelize(Singularize(table));
        if c.Failure? {
          return Failure(c.error);
        }
        AssociateTable(table, c.value);
      }
      r := Success(clsLookup[table]);
    }

    /**
     * Model::columns with _colquery: a class's catalog is fetched once, by
     * the catalog query on its table (sent as text only the first time the
     * name "_colquery" is used), one Column per row in the rows' order, a
     * later row of the same name replacing the earlier one in place.
     */
    method Columns(cls: string) returns (r: Result<Assoc<Column>, Failure>)
      requires Valid()
      modifies this, db, inflector
      ensures Valid() && Extends()
      ensures cls in old(columns) ==>
        r == Success(old(columns)[cls]) && columns == old(columns) &&
        tblLookup == old(tblLookup) && clsLookup == old(clsLookup) &&
        db.connection == old(db.connection) && db.prepared == old(db.prepared) && db.statements == old(db.statements)
      ensures r.Success? ==> cls in columns && columns[cls] == r.value && cls in tblLookup
      ensures cls !in old(columns) && r.Success? ==>
        columns == old(columns)[cls := r.value] &&
        db.Ran(if ColQueryName in old(db.prepared) then "" else colQuery, ColQueryName) &&
        r.value == CatalogOf(Fetched(db.Executed(ColQueryName, [VStr(tblLookup[cls])])))
      ensures r.Failure? ==> columns == old(columns) && db.statements == old(db.statements) && db.connection == old(db.connection)
      ensures db.KeepsOthers(ColQueryName)
    {
      if cls in columns {
        return Success(columns[cls]);
      }
      r := FetchColumns(cls);
    }

    /** Model::columns for a class whose catalog is not yet known: the catalog query on its table, and the catalog recorded. */
    method FetchColumns(cls: string) returns (r: Result<Assoc<Column>, Failure>)
      requires Valid() && cls !in columns
      modifies this, db, inflector
      ensures Valid() && Extends()
      ensures r.Success? ==>
        columns == old(columns)[cls := r.value] && cls in tblLookup &&
        db.Ran(if ColQueryName in old(db.prepared) then "" else colQuery, ColQueryName) &&
        r.value == CatalogOf(Fetched(db.Executed(ColQueryName, [VStr(tblLookup[cls])])))
      ensures r.Failure? ==> columns == old(columns) && db.statements == old(db.statements) && db.connection == old(db.connection)
      ensures db.KeepsOthers(ColQueryName)
    {
      var t := TableForClass(cls);
      if t.Failure? {
        return Failure(t.error);
      }
      var catalog := QueryCatalog(t.value);
      StoreCatalog(cls, catalog);
      r := Success(catalog);
    }

    /** self::$columns[$class] = the catalog, for a class not yet catalogued. */
    method StoreCatalog(cls: string, catalog: Assoc<Column>)
      requires Valid() && cls in tblLookup && cls !in columns && WellFormed(catalog)
      modifies this
      ensures Valid() && Extends() && columns == old(columns)[cls := catalog]
      ensures tblLookup == old(tblLookup) && clsLookup == old(clsLookup)
    {
      columns := columns[cls := catalog];
    }

    /** Model::_colquery on a table, and the catalog built from its rows. */
    method QueryCatalog(table: string) returns (catalog: Assoc<Column>)
      requires db.Valid()
      modifies db
      ensures db.Valid() && WellFormed(catalog)
      ensures db.Ran(if ColQueryName in old(db.prepared) then "" else colQuery, ColQueryName)
      ensures db.KeepsOthers(ColQueryName)
      ensures catalog == CatalogOf(Fetched(db.Executed(ColQueryName, [VStr(table)])))
    {
      var sql := if db.Prepared(ColQueryName) then "" else colQuery;
      var rows := db.Prefetch(sql, [VStr(table)], ColQueryName);
      catalog := CatalogFromRows(rows);
    }
    /**
     * The record has class cls with the catalog of that class, no
     * association loaded, and both arrays holding the row.
     */
    ghost predicate LoadedWith(obj: Record, cls: string, row: Assoc<Value>)
      reads this, obj
    {
      cls in columns && obj.registry == this && obj.cls == cls && obj.catalog == columns[cls] &&
      obj.Valid() && obj.assoc == map[] && obj.clean == obj.dirty && RowLoaded(columns[cls], row, obj.clean)
    }

    /** Each record is loaded with the row in the same place. */
    ghost predicate Holds(objs: seq<Record>, cls: string, rows: seq<Assoc<Value>>)
      reads this, objs
    {
      |objs| == |rows| && forall i | 0 <= i < |objs| :: LoadedWith(objs[i], cls, rows[i])
    }

    /** Each record is a new object loaded with the row in the same place. */
    twostate predicate Built(new objs: seq<Record>, cls: string, new rows: seq<Assoc<Value>>)
      reads this, objs
    {
      Holds(objs, cls, rows) && forall i | 0 <= i < |objs| :: fresh(objs[i])
    }

    /**
     * new $class(): the constructor fetches the class's catalog (once per
     * class) and gives a record with no association loaded and every column
     * null; it fails as Model::columns does.
     */
    method Create(cls: string) returns (r: Result<Record, Failure>)
      requires Valid()
      modifies this, db, inflector
      ensures Valid() && Extends() && db.KeepsOthers(ColQueryName)
      ensures old(db.connection).Some? ==> db.connection == old(db.connection)
      ensures r.Success? <==> cls in columns
      ensures cls in old(columns) ==>
        columns == old(columns) && tblLookup == old(tblLookup) &&
        db.connection == old(db.connection) && db.prepared == old(db.prepared) && db.statements == old(db.statements)
      ensures r.Success? ==>
        fresh(r.value) && r.value.registry == this && r.value.cls == cls && cls in tblLookup &&
        r.value.catalog == columns[cls] && r.value.Valid() &&
        r.value.clean == Nulls(columns[cls]) && r.value.dirty == Nulls(columns[cls]) && r.value.assoc == map[]
    {
      var catalog := Columns(cls);
      if catalog.Failure? {
        return Failure(catalog.error);
      }
      var obj := new Record(this, cls, catalog.value);
      r := Success(obj);
    }

    /**
     * The loop page and the association loaders share, for a class whose
     * catalog is known: one new object of class cls per row, loaded with
     * _set_all; a row with a field that is not a column ends the script.
     */
    method Populate(cls: string, rows: seq<Assoc<Value>>) returns (r: Result<seq<Record>, Failure>)
      requires Valid() && cls in columns
      ensures r.Success? <==> forall i | 0 <= i < |rows| :: Keys(rows[i]) <= Keys(columns[cls])
      ensures r.Success? ==> Built(r.value, cls, rows)
      ensures r.Failure? ==> exists i | 0 <= i < |rows| :: !(Keys(rows[i]) <= Keys(columns[cls]))
    {
      var objs: seq<Record> := [];
      for i := 0 to |rows|
        invariant forall j | 0 <= j < i :: Keys(rows[j]) <= Keys(columns[cls])
        invariant Holds(objs, cls, rows[..i])
        invariant forall j | 0 <= j < |objs| :: fresh(objs[j])
      {
        var made := MakeLoaded(cls, rows[i]);
        if made.Failure? {
          return Failure(made.error);
        }
        HoldsSnoc(objs, cls, rows, i, made.value);
        objs := objs + [made.value];
      }
      assert rows[..|rows|] == rows;
      r := Success(objs);
    }

    /** One more loaded record extends the records held for a prefix of the rows. */
    lemma HoldsSnoc(objs: seq<Record>, cls: string, rows: seq<Assoc<Value>>, i: nat, obj: Record)
      requires i < |rows| && Holds(objs, cls, rows[..i]) && LoadedWith(obj, cls, rows[i])
      ensures Holds(objs + [obj], cls, rows[..i + 1])
    {
      var objs' := objs + [obj];
      forall j | 0 <= j < |objs'|
        ensures LoadedWith(objs'[j], cls, rows[..i + 1][j])
      {
        if j < i {
          assert objs'[j] == objs[j] && rows[..i + 1][j] == rows[..i][j];
        }
      }
    }

    /** new $class() and _set_all with one row, for a class whose catalog is known. */
    method MakeLoaded(cls: string, row: Assoc<Value>) returns (r: Result<Record, Failure>)
      requires Valid() && cls in columns
      ensures r.Success? <==> Keys(row) <= Keys(columns[cls])
      ensures r.Success? ==> fresh(r.value) && LoadedWith(r.value, cls, row)
    {
      var obj := new Record(this, cls, columns[cls]);
      var loaded := obj.SetAllRow(row);
      if loaded.Failure? {
        return Failure(loaded.error);
      }
      r := Success(obj);
    }

    /** self::$one_to_many, $many_to_many or $many_to_one, by the association's kind: its other class. */
    function OtherClass(cls: string, name: string): string
      reads this
      requires Declared() && cls in associations && name in associations[cls]
    {
      assert Backs(associations[cls][name], cls, name, oneToMany, manyToMany, manyToOne);
      match associations[cls][name]
      case Otm => oneToMany[cls][name]
      case Mtm => manyToMany[cls][name]
      case Mto => manyToOne[cls][name]
    }

    /**
     * One new object of class cls per row, loaded with _set_all, as the
     * association loaders make them: the first new object fetches the
     * class's catalog when it is not yet known.
     */
    method Instantiate(cls: string, rows: seq<Assoc<Value>>) returns (r: Result<seq<Record>, Failure>)
      requires Valid()
      modifies this, db, inflector
      ensures Valid() && Extends() && db.KeepsOthers(ColQueryName)
      ensures |rows| == 0 ==> r == Success([])
      ensures |rows| > 0 && cls in old(columns) ==>
        (r.Success? <==> forall i | 0 <= i < |rows| :: Keys(rows[i]) <= Keys(columns[cls]))
      ensures r.Success? ==> Built(r.value, cls, rows)
    {
      if |rows| == 0 {
        return Success([]);
      }
      var catalog := Columns(cls);
      if catalog.Failure? {
        return Failure(catalog.error);
      }
      r := Populate(cls, rows);
    }

    /**
     * The query and object-building half of _load_association: the
     * statement qname stands for sql afterwards, and one new object of class
     * other is built per fetched row, or for a many-to-one from the first
     * row only.
     */
    method QueryObjects(other: string, sql: string, params: seq<Value>, qname: string, first: bool)
      returns (r: Result<seq<Record>, Failure>)
      requires Valid() && StatementName(qname) != StatementName(ColQueryName)
      modifies this, db, inflector
      ensures Valid() && Extends() && db.Stands(sql, qname)
      ensures r.Success? ==> Built(r.value, other, Selected(Fetched(db.Executed(qname, params)), first))
      ensures r.Success? ==> forall i | 0 <= i < |r.value| :: fresh(r.value[i])
    {
      var rows := db.Prefetch(sql, params, qname);
      r := Instantiate(other, Selected(rows, first));
    }

    /**
     * Model::page(num, count) sorted by primary key: the sorted columns of
     * the class's table, a page of count rows starting at row (num - 1) *
     * count, under the name "_page_<table>_pkeys" (sent as text only the
     * first time), one loaded object per row.
     */
    method Page(cls: string, num: int, count: int) returns (r: Result<seq<Record>, Failure>)
      requires Valid()
      modifies this, db, inflector
      ensures Valid() && Extends()
      ensures r.Success? ==>
        cls in tblLookup && cls in columns &&
        db.Stands(PageSql(quote, tblLookup[cls], columns[cls]), PageName(tblLookup[cls])) &&
        Built(r.value, cls, Fetched(db.Executed(PageName(tblLookup[cls]), [VInt(count), VInt(PageOffset(num, count))])))
      ensures r.Success? <==>
        cls in columns && cls in tblLookup &&
        var rows := Fetched(db.Executed(PageName(tblLookup[cls]), [VInt(count), VInt(PageOffset(num, count))]));
        forall i | 0 <= i < |rows| :: Keys(rows[i]) <= Keys(columns[cls])
      ensures cls in old(columns) ==> columns == old(columns) && tblLookup == old(tblLookup)
    {
      // table_for_class comes first in page, but Model::columns asks it for
      // the same table, which stays registered once the catalog is known.
      var catalog := Columns(cls);
      if catalog.Failure? {
        return Failure(catalog.error);
      }
      // The catalog query leaves the page's name as it found it.
      ghost var name := PageName(tblLookup[cls]);
      PageNameNotColQuery(tblLookup[cls]);
      ghost var wasPrepared := name in db.prepared;
      ghost var text := db.ExecutedText(name);
      assert wasPrepared <==> name in old(db.prepared);
      assert text == old(db.ExecutedText(name));
      r := PageOf(cls, num, count);
    }

    /** The rest of page, once the class's table and catalog are known: the page's rows, one loaded object each. */
    method PageOf(cls: string, num: int, count: int) returns (r: Result<seq<Record>, Failure>)
      requires Valid() && cls in columns
      modifies db
      ensures Valid()
      ensures var table := tblLookup[cls];
        var st := PageStatement(quote, table, columns[cls], num, count, PageName(table) in old(db.prepared));
        var rows := Fetched(db.Executed(st.name, st.params));
        db.Ran(st.sql, st.name) && db.KeepsOthers(st.name) &&
        (r.Success? <==> forall i | 0 <= i < |rows| :: Keys(rows[i]) <= Keys(columns[cls])) &&
        (r.Success? ==> Built(r.value, cls, rows))
      ensures db.Stands(PageSql(quote, tblLookup[cls], columns[cls]), PageName(tblLookup[cls]))
    {
      var table := tblLookup[cls];
      var st := PageStatement(quote, table, columns[cls], num, count, db.Prepared(PageName(table)));
      var rows := db.Prefetch(st.sql, st.params, st.name);
      r := Populate(cls, rows);
    }
  }


  /** The fatal error of _set_all and set_all on a key that is not a column. */
  function UnknownColumn(key: string, table: string): Failure
  {
    Fatal("Unknown column " + key + " for " + table)
  }

  class Record {
    const registry: Registry
    /** get_class($this). */
    const cls: string
    /** $this->cols: the catalog of the record's class. */
    const catalog: Assoc<Column>

    /** The values as last loaded from the database. */
    var clean: map<string, Value>
    /** The values as modified since. */
    var dirty: map<string, Value>
    /** $this->assoc: the associations loaded so far, by name. */
    var assoc: map<string, Loaded>

    ghost predicate Valid()
      reads this
    {
      WellFormed(catalog) && clean.Keys == Keys(catalog) && dirty.Keys == Keys(catalog)
    }

    /** $this->table(): the table registered for the record's class. */
    function Table(): string
      reads this, registry
      requires cls in registry.tblLookup
    {
      registry.tblLookup[cls]
    }

    /** Model::__construct without keys: no association loaded, every column null. */
    constructor (registry: Registry, cls: string, catalog: Assoc<Column>)
      requires WellFormed(catalog)
      ensures this.registry == registry && this.cls == cls && this.catalog == catalog
      ensures clean == Nulls(catalog) && dirty == Nulls(catalog) && assoc == map[]
      ensures Valid()
    {
      this.registry := registry;
      this.cls := cls;
      this.catalog := catalog;
      assoc := map[];
      clean := map[];
      dirty := map[];
      new;
      Clear();
    }

    /** Model->_clear: both arrays hold every column of the catalog, each null. */
    method Clear()
      requires WellFormed(catalog)
      modifies this
      ensures clean == Nulls(catalog) && dirty == Nulls(catalog) && assoc == old(assoc)
      ensures Valid()
    {
      clean := map[];
      dirty := map[];
      for i := 0 to |catalog|
        invariant clean == Nulls(catalog[..i]) && dirty == Nulls(catalog[..i]) && assoc == old(assoc)
      {
        NullsStep(catalog, i);
        clean := clean[catalog[i].0 := VNull];
        dirty := dirty[catalog[i].0 := VNull];
      }
      assert catalog[..|catalog|] == catalog;
    }

    /** The outcome of _set_all with a row: it succeeds exactly when every field is a column, and then both arrays hold the row. */
    predicate Reloaded(r: Result<(), Failure>, row: Assoc<Value>)
      reads this
    {
      (r.Success? <==> Keys(row) <= Keys(catalog)) &&
      (r.Success? ==> clean == dirty && RowLoaded(catalog, row, clean))
    }

    /**
     * Model->_set_all: the record is cleared, then each field of the row is
     * converted by its column and stored as both the loaded and the current
     * value; a field that is not a column ends the script.
     */
    method SetAllRow(row: Assoc<Value>) returns (r: Result<(), Failure>)
      requires Valid() && cls in registry.tblLookup
      modifies this
      ensures Valid() && assoc == old(assoc)
      ensures Reloaded(r, row)
      ensures r.Failure? ==> exists j | 0 <= j < |row| :: row[j].0 !in Keys(catalog) && r.error == UnknownColumn(row[j].0, Table())
    {
      Clear();
      for i := 0 to |row|
        invariant Valid() && assoc == old(assoc) && dirty == clean
        invariant RowPrefixLoaded(catalog, row, i, clean)
      {
        var known := LoadField(row, i);
        if !known {
          RowPrefixKnown(catalog, row, i, clean);
          r := Failure(UnknownColumn(row[i].0, Table()));
          assert row[i].0 !in Keys(catalog) && r.error == UnknownColumn(row[i].0, Table());
          return;
        }
      }
      RowPrefixDone(catalog, row, clean);
      r := Success(());
    }

    /** One pass of _set_all's loop: field i of the row, when it is a column, is converted and stored in both arrays. */
    method LoadField(row: Assoc<Value>, i: nat) returns (known: bool)
      requires Valid() && dirty == clean && i < |row| && RowPrefixLoaded(catalog, row, i, clean)
      modifies this
      ensures Valid() && assoc == old(assoc) && dirty == clean
      ensures known <==> row[i].0 in Keys(catalog)
      ensures known ==> RowPrefixLoaded(catalog, row, i + 1, clean)
      ensures !known ==> clean == old(clean)
    {
      var key := row[i].0;
      if key !in Keys(catalog) {
        return false;
      }
      var v := ProcessValue(ColumnNamed(catalog, key), row[i].1);
      RowPrefixStep(catalog, row, i, clean, v);
      clean := clean[key := v];
      dirty := dirty[key := v];
      known := true;
    }

    /**
     * Model->set_all with a form array: the loaded values stay; each entry
     * writes the column its key names (a `_check_<column>` key writes that
     * column when the form has no entry for it), converted by the column, a
     * later entry overwriting an earlier one; an unknown column ends the script.
     */
    method SetAll(hash: Assoc<Value>) returns (r: Result<(), Failure>)
      requires Valid() && cls in registry.tblLookup
      modifies this
      ensures Valid() && clean == old(clean) && assoc == old(assoc)
      ensures r.Success? <==> Known(catalog, hash, |hash|)
      ensures r.Success? ==> FormWritten(catalog, hash, |hash|, old(dirty), dirty)
      ensures r.Failure? ==> exists j | 0 <= j < |hash| ::
        Target(hash[j].0, hash).Some? && r.error == UnknownColumn(Target(hash[j].0, hash).value, Table())
    {
      FormPrefixStart(catalog, hash, dirty);
      for i := 0 to |hash|
        invariant Valid() && clean == old(clean) && assoc == old(assoc)
        invariant FormPrefix(catalog, hash, i, old(dirty), dirty)
      {
        var unknown := SetEntry(hash, i, old(dirty));
        if unknown.Some? {
          return Failure(UnknownColumn(unknown.value, Table()));
        }
      }
      r := Success(());
    }

    /**
     * One pass of set_all's loop: entry i is skipped, writes the column its
     * key names as set_column does, or names no column, which is given back.
     */
    method SetEntry(hash: Assoc<Value>, i: nat, ghost before: map<string, Value>) returns (unknown: Option<string>)
      requires Valid() && i < |hash| && FormPrefix(catalog, hash, i, before, dirty)
      modifies this
      ensures Valid() && clean == old(clean) && assoc == old(assoc)
      ensures unknown.None? ==> FormPrefix(catalog, hash, i + 1, before, dirty)
      ensures unknown.Some? ==> !Known(catalog, hash, |hash|) && Target(hash[i].0, hash) == unknown
    {
      var key := hash[i].0;
      var m := WordAfter("_check_", key);
      if m.Some? && m.value in Keys(hash) {
        FormPrefixSkip(catalog, hash, i, before, dirty);
        return None;
      }
      if m.Some? {
        key := m.value;
      }
      assert key == EntryColumn(hash, i);
      if key !in Keys(catalog) {
        FormPrefixUnknown(catalog, hash, i, before, dirty);
        return Some(key);
      }
      assert Target(hash[i].0, hash) == Some(key);
      ghost var written := dirty;
      var v := SetColumn(key, hash[i].1);
      FormPrefixWrite(catalog, hash, i, before, written, key, v);
      unknown := None;
    }

    /**
     * Model->set_column: a column takes the value as its column converts it,
     * and the converted value is returned; any other name changes nothing and
     * gives null. A date given as text becomes a new Date object, which
     * always differs from the loaded value.
     */
    method SetColumn(name: string, value: Value) returns (r: Value)
      requires Valid()
      modifies this
      ensures Valid() && clean == old(clean) && assoc == old(assoc)
      ensures name !in Keys(catalog) ==> r == VNull && dirty == old(dirty)
      ensures name in Keys(catalog) ==> Coerces(ColumnNamed(catalog, name), value, r) && dirty == old(dirty)[name := r]
      ensures name in Keys(catalog) && Coerce(ColumnNamed(catalog, name), value).Fresh? ==> r != clean[name]
    {
      if name !in Keys(catalog) {
        return VNull;
      }
      r := ProcessValue(ColumnNamed(catalog, name), value);
      dirty := dirty[name := r];
    }

    /** save's test: the first primary-key column has a truthy loaded value. */
    predicate Persisted()
      reads this
    {
      var pks := PrimaryKeys(catalog);
      |pks| > 0 && pks[0] in clean && Truthy(clean[pks[0]])
    }

    /** The record's arrays are as they were and the database was not touched. */
    twostate predicate Untouched()
      reads this, registry, registry.db
    {
      clean == old(clean) && dirty == old(dirty) && unchanged(registry.db)
    }

    /**
     * The outcome of load: the argument's checks, then the load statement
     * under the name "_load_<table>"; no row raises NoSuchRowException with
     * the quoted table and the argument's keys, a row reloads the record.
     */
    twostate predicate LoadedFrom(arg: LoadArg, new r: Result<(), Failure>)
      reads this, registry, registry.db
      requires cls in registry.tblLookup
    {
      match LoadRequest(Table(), PrimaryKeys(catalog), arg)
      case Failure(e) => r == Failure(e) && Untouched()
      case Success(keys) => LoadedByKeys(keys, r)
    }

    /**
     * The outcome of load once the keys passed the checks: the load
     * statement by primary key; no row raises NoSuchRowException with the
     * quoted table and the keys, a row reloads the record.
     */
    twostate predicate LoadedByKeys(keys: Assoc<Value>, new r: Result<(), Failure>)
      reads this, registry, registry.db
      requires cls in registry.tblLookup
      requires forall j | 0 <= j < |PrimaryKeys(catalog)| :: Supplied(keys, PrimaryKeys(catalog)[j])
    {
      var pks := PrimaryKeys(catalog);
      assert forall j | 0 <= j < |pks| :: Lookup(keys, pks[j]).Some? by {
        forall j | 0 <= j < |pks| ensures Lookup(keys, pks[j]).Some? { assert Supplied(keys, pks[j]); }
      }
      var st := LoadStatement(registry.quote, Table(), PrimaryKeys(catalog), keys);
      var rows := Fetched(registry.db.Executed(st.name, st.params));
      registry.db.Ran(st.sql, st.name) && registry.db.KeepsOthers(st.name) &&
      if |rows| == 0 then
        clean == old(clean) && dirty == old(dirty) &&
        r == Failure(match NoRowMessage(registry.quote(Table()), keys)
                     case Some(m) => Raised(NewNoSuchRow(m))
                     case None => DateToString)
      else Reloaded(r, rows[0])
    }

    /**
     * Model->load: the argument (one value for a single-column key, or an
     * array of key columns) is checked against the primary keys, the row is
     * selected by them and loaded into the record.
     */
    method Load(arg: LoadArg) returns (r: Result<(), Failure>)
      requires Valid() && cls in registry.tblLookup && registry.db.Valid()
      modifies this, registry.db
      ensures Valid() && assoc == old(assoc) && registry.db.Valid()
      ensures LoadedFrom(arg, r)
    {
      var pks := PrimaryKeys(catalog);
      var table := Table();
      var keys: Assoc<Value>;
      match arg {
        case Scalar(v) =>
          if |pks| != 1 {
            return Failure(Raised(NewBadPrimaryKey(table, "", MoreThanOneKeyMessage(table))));
          }
          keys := [(pks[0], v)];
        case Keyed(k) =>
          keys := k;
      }
      var check := CheckLoadKeys(table, pks, keys);
      if check.Some? {
        return Failure(check.value);
      }
      assert LoadRequest(table, pks, arg) == Success(keys);
      r := LoadByKeys(keys);
    }

    /** The rest of load, once the keys passed the checks: the select by primary key and the reload. */
    method LoadByKeys(keys: Assoc<Value>) returns (r: Result<(), Failure>)
      requires Valid() && cls in registry.tblLookup && registry.db.Valid()
      requires forall j | 0 <= j < |PrimaryKeys(catalog)| :: Supplied(keys, PrimaryKeys(catalog)[j])
      modifies this, registry.db
      ensures Valid() && assoc == old(assoc) && registry.db.Valid()
      ensures LoadedByKeys(keys, r)
    {
      var table := Table();
      var st := BuildLoad(registry.quote, table, PrimaryKeys(catalog), keys);
      var rows := registry.db.Prefetch(st.sql, st.params, st.name);
      if |rows| == 0 {
        var message := NoRowText(registry.quote(table), keys);
        if message.None? {
          return Failure(DateToString);
        }
        return Failure(Raised(NewNoSuchRow(message.value)));
      }
      r := SetAllRow(rows[0]);
    }

    /**
     * The outcome of _update: nothing changed sends nothing; otherwise the
     * update statement runs and the record is reloaded from the first row it
     * returns.
     */
    twostate predicate Updated(new r: Result<(), Failure>)
      reads this, registry, registry.db
      requires old(Valid()) && cls in registry.tblLookup
    {
      KeyedCovers(catalog, old(clean));
      KeyedCovers(catalog, old(dirty));
      if |Changed(catalog, old(clean), old(dirty))| == 0 then r == Success(()) && Untouched()
      else
        match UpdateStatement(registry.quote, Table(), catalog, old(clean), old(dirty))
        case Failure(e) => r == Failure(e) && Untouched()
        case Success(st) =>
          registry.db.Ran(st.sql, st.name) && registry.db.KeepsOthers(st.name) &&
          Reloaded(r, FirstRow(registry.db.Executed(st.name, st.params)))
    }

    /** Model->_update. */
    method Update() returns (r: Result<(), Failure>)
      requires Valid() && cls in registry.tblLookup && registry.db.Valid()
      modifies this, registry.db
      ensures Valid() && assoc == old(assoc) && registry.db.Valid()
      ensures Updated(r)
    {
      KeyedCovers(catalog, clean);
      KeyedCovers(catalog, dirty);
      var built := BuildUpdate(registry.quote, Table(), catalog, clean, dirty);
      if built.Failure? {
        return Failure(built.error);
      }
      if built.value.None? {
        return Success(());
      }
      r := RunAndReload(built.value.value);
    }

    /** Runs a statement of _update or _insert and reloads the record from the first row it returns. */
    method RunAndReload(st: Statement) returns (r: Result<(), Failure>)
      requires Valid() && cls in registry.tblLookup && registry.db.Valid()
      modifies this, registry.db
      ensures Valid() && assoc == old(assoc) && registry.db.Valid()
      ensures registry.db.Ran(st.sql, st.name) && registry.db.KeepsOthers(st.name)
      ensures Reloaded(r, FirstRow(registry.db.Executed(st.name, st.params)))
    {
      var rows := registry.db.Prefetch(st.sql, st.params, st.name);
      r := SetAllRow(if |rows| == 0 then [] else rows[0]);
    }

    /** The outcome of _insert: the insert statement runs and the record is reloaded from the first row it returns. */
    twostate predicate Inserted(new r: Result<(), Failure>)
      reads this, registry, registry.db
      requires old(Valid()) && cls in registry.tblLookup
    {
      KeyedCovers(catalog, old(dirty));
      match InsertStatement(registry.quote, Table(), catalog, old(dirty))
      case Failure(e) => r == Failure(e) && Untouched()
      case Success(st) =>
        registry.db.Ran(st.sql, st.name) && registry.db.KeepsOthers(st.name) &&
        Reloaded(r, FirstRow(registry.db.Executed(st.name, st.params)))
    }

    /** Model->_insert. */
    method Insert() returns (r: Result<(), Failure>)
      requires Valid() && cls in registry.tblLookup && registry.db.Valid()
      modifies this, registry.db
      ensures Valid() && assoc == old(assoc) && registry.db.Valid()
      ensures Inserted(r)
    {
      KeyedCovers(catalog, dirty);
      var built := BuildInsert(registry.quote, Table(), catalog, dirty);
      if built.Failure? {
        return Failure(built.error);
      }
      r := RunAndReload(built.value);
    }

    /** Model->save: an update when the first primary key has a truthy loaded value, an insert otherwise. */
    method Save() returns (r: Result<(), Failure>)
      requires Valid() && cls in registry.tblLookup && registry.db.Valid()
      modifies this, registry.db
      ensures Valid() && assoc == old(assoc) && registry.db.Valid()
      ensures old(Persisted()) ==> Updated(r)
      ensures !old(Persisted()) ==> Inserted(r)
    {
      if Persisted() {
        r := Update();
      } else {
        r := Insert();
      }
    }

    /**
     * A one-to-many or many-to-many association as loaded: its other class
     * has a table, the statement "_assoc_<table>_<name>" stands for the
     * association's query, and the objects are new ones loaded with the rows
     * that statement fetches for the id.
     */
    twostate predicate ManyLoaded(name: string, new id: Value, new objs: seq<Record>)
      reads registry, registry.db, objs
      requires registry.Declared() && cls in registry.tblLookup
      requires cls in registry.associations && name in registry.associations[cls]
    {
      var other := registry.OtherClass(cls, name);
      var mytable := registry.tblLookup[cls];
      var qname := AssocName(mytable, name);
      other in registry.tblLookup &&
      registry.db.Stands(AssocSql(registry.quote, registry.associations[cls][name], registry.tblLookup[other], mytable), qname) &&
      registry.Built(objs, other, Fetched(registry.db.Executed(qname, [id])))
    }

    /**
     * The one-to-many and many-to-many cases of _load_association: the
     * other class's table, the association's query on it with the id, and
     * one new object per row.
     */
    method LoadMany(name: string, id: Value) returns (r: Result<seq<Record>, Failure>)
      requires registry.Valid() && cls in registry.tblLookup
      requires cls in registry.associations && name in registry.associations[cls]
      requires registry.associations[cls][name] != Mto
      modifies registry, registry.db, registry.inflector
      ensures registry.Valid() && registry.Extends()
      ensures r.Success? ==> ManyLoaded(name, id, r.value)
      ensures r.Success? ==> this !in r.value
    {
      var other := registry.OtherClass(cls, name);
      var mytable := registry.tblLookup[cls];
      var table := registry.TableForClass(other);
      if table.Failure? {
        return Failure(table.error);
      }
      var qname := AssocName(mytable, name);
      AssocNameNotColQuery(mytable, name);
      r := registry.QueryObjects(other, AssocSql(registry.quote, registry.associations[cls][name], table.value, mytable), [id], qname, false);
    }

    /**
     * A many-to-one association as loaded: its other class has a table, the
     * statement "_assoc_<table>_<name>" stands for the query by id, and the
     * object is a new one loaded with the first row that statement fetches
     * for the record's foreign key to that table (all null without one).
     */
    twostate predicate OneLoaded(name: string, new values: map<string, Value>, new obj: Record)
      reads registry, registry.db, obj
      requires registry.Declared() && cls in registry.tblLookup
      requires cls in registry.associations && name in registry.associations[cls]
    {
      var other := registry.OtherClass(cls, name);
      var mytable := registry.tblLookup[cls];
      var qname := AssocName(mytable, name);
      other in registry.tblLookup &&
      var fk := ForeignKey(registry.tblLookup[other]);
      var key := if fk in values then values[fk] else VNull;
      registry.db.Stands(ManyToOneSql(registry.quote, registry.tblLookup[other]), qname) &&
      registry.Built([obj], other, [FirstRow(registry.db.Executed(qname, [key]))])
    }

    /**
     * The many-to-one case of _load_association: the other class's table,
     * the query by id with the record's foreign key to it, and one new
     * object loaded with the first row.
     */
    method LoadOne(name: string) returns (r: Result<Record, Failure>)
      requires Valid() && registry.Valid() && cls in registry.tblLookup
      requires cls in registry.associations && name in registry.associations[cls]
      requires registry.associations[cls][name] == Mto
      modifies registry, registry.db, registry.inflector
      ensures registry.Valid() && registry.Extends()
      ensures r.Success? ==> OneLoaded(name, dirty, r.value)
      ensures r.Success? ==> r.value != this
    {
      var other := registry.OtherClass(cls, name);
      var mytable := registry.tblLookup[cls];
      var table := registry.TableForClass(other);
      if table.Failure? {
        return Failure(table.error);
      }
      var qname := AssocName(mytable, name);
      var key := ColumnValue(ForeignKey(table.value));
      AssocNameNotColQuery(mytable, name);
      var made := registry.QueryObjects(other, ManyToOneSql(registry.quote, table.value), [key], qname, true);
      if made.Failure? {
        return Failure(made.error);
      }
      assert made.value == [made.value[0]];
      ghost var fetched := registry.db.Executed(qname, [key]);
      assert Selected(Fetched(fetched), true) == [FirstRow(fetched)];
      r := Success(made.value[0]);
    }

    /**
     * The outcome of _load_association: a loaded association is returned
     * from the cache unless forced; otherwise the record's id is read (a
     * record without an id column raises BadColumnException) and the
     * association is loaded by its kind and cached under its name.
     */
    twostate predicate AssociationLoaded(name: string, force: bool, new r: Result<Loaded, Failure>)
      reads this, registry, registry.db, registry.inflector, if r.Success? then Members(r.value) else {}
      requires old(Valid()) && old(registry.Valid()) && cls in old(registry.tblLookup)
      requires cls in old(registry.associations) && name in old(registry.associations)[cls]
    {
      clean == old(clean) && dirty == old(dirty) &&
      if name in old(assoc) && !force then
        r == Success(old(assoc)[name]) && assoc == old(assoc) && unchanged(registry, registry.db)
      else if "id" !in Keys(catalog) then
        r == Failure(Raised(NewBadColumn(old(Table()), "id", ""))) && assoc == old(assoc) && unchanged(registry, registry.db)
      else
        registry.Valid() && registry.Extends() &&
        (r.Failure? ==> assoc == old(assoc)) &&
        (r.Success? ==> assoc == old(assoc)[name := r.value])
    }

    /**
     * An association loaded by its kind: the records of a one-to-many or
     * many-to-many association for the id, or the one record of a
     * many-to-one for the foreign key among values.
     */
    twostate predicate KindLoaded(name: string, new values: map<string, Value>, new id: Value, new l: Loaded)
      reads registry, registry.db, Members(l)
      requires registry.Declared() && cls in registry.tblLookup
      requires cls in registry.associations && name in registry.associations[cls]
    {
      match l
      case Many(objs) => registry.associations[cls][name] != Mto && ManyLoaded(name, id, objs)
      case One(obj) => registry.associations[cls][name] == Mto && OneLoaded(name, values, obj)
    }

    /** Model->_load_association(name, force). */
    method LoadAssociation(name: string, force: bool) returns (r: Result<Loaded, Failure>)
      requires Valid() && registry.Valid() && cls in registry.tblLookup
      requires cls in registry.associations && name in registry.associations[cls]
      modifies this, registry, registry.db, registry.inflector
      ensures Valid()
      ensures AssociationLoaded(name, force, r)
    {
      if name in assoc && !force {
        return Success(assoc[name]);
      }
      var id := Get("id");
      if id.Failure? {
        return Failure(id.error);
      }
      r := LoadByKind(name, id.value);
      if r.Success? {
        assoc := assoc[name := r.value];
      }
    }

    /** The switch of _load_association on the association's kind. */
    method LoadByKind(name: string, id: Value) returns (r: Result<Loaded, Failure>)
      requires Valid() && registry.Valid() && cls in registry.tblLookup
      requires cls in registry.associations && name in registry.associations[cls]
      modifies registry, registry.db, registry.inflector
      ensures registry.Valid() && registry.Extends()
      ensures r.Success? ==> KindLoaded(name, dirty, id, r.value)
      ensures r.Success? ==> this !in Members(r.value)
    {
      if registry.associations[cls][name] == Mto {
        var one := LoadOne(name);
        if one.Failure? {
          return Failure(one.error);
        }
        r := Success(One(one.value));
      } else {
        var many := LoadMany(name, id);
        if many.Failure? {
          return Failure(many.error);
        }
        r := Success(Many(many.value));
      }
    }

    /**
     * Model->__call(name, args): `load_<association>` for an association
     * declared on the record's class loads it, forced when the first
     * argument is truthy; any other name raises BadMethodCallException.
     */
    method Call(name: string, args: seq<Value>) returns (r: Result<Loaded, Failure>)
      requires Valid() && registry.Valid() && cls in registry.tblLookup
      modifies this, registry, registry.db, registry.inflector
      ensures Valid()
      ensures old(Dispatches(name)) ==>
        AssociationLoaded(WordAfter("load_", name).value, |args| > 0 && Truthy(args[0]), r)
      ensures !old(Dispatches(name)) ==>
        r == Failure(Raised(BadMethodCall("Method " + cls + "::" + name + " does not exist"))) &&
        unchanged(this, registry, registry.db)
    {
      var m := WordAfter("load_", name);
      if m.Some? && cls in registry.associations && m.value in registry.associations[cls] {
        var force := if |args| > 0 then Truthy(args[0]) else false;
        r := LoadAssociation(m.value, force);
        return;
      }
      r := Failure(Raised(BadMethodCall("Method " + cls + "::" + name + " does not exist")));
    }

    /** __call loads an association when the name is load_ followed by a declared association's name. */
    predicate Dispatches(name: string)
      reads registry
    {
      var m := WordAfter("load_", name);
      m.Some? && cls in registry.associations && m.value in registry.associations[cls]
    }

    /**
     * The many-to-many loop of _load_association as written: each row makes
     * a new object of the other class, but the row is loaded into the record
     * itself. The objects returned keep every column null, the record ends
     * up holding the last row, and a row is checked against the record's
     * own columns.
     */
    method ManyToManyRowsAsWritten(other: string, rows: seq<Assoc<Value>>) returns (r: Result<seq<Record>, Failure>)
      requires Valid() && registry.Valid() && cls in registry.tblLookup
      modifies this, registry, registry.db, registry.inflector
      ensures Valid() && registry.Valid() && registry.Extends()
      ensures r.Success? ==> |r.value| == |rows| && forall i | 0 <= i < |rows| :: Keys(rows[i]) <= Keys(catalog)
      ensures r.Success? ==> forall i | 0 <= i < |r.value| ::
        fresh(r.value[i]) && r.value[i].cls == other && r.value[i].clean == Nulls(r.value[i].catalog)
      ensures r.Success? && |rows| > 0 ==> clean == dirty && RowLoaded(catalog, rows[|rows| - 1], clean)
    {
      var objs: seq<Record> := [];
      for i := 0 to |rows|
        invariant Valid() && registry.Valid() && registry.Extends() && cls in registry.tblLookup
        invariant |objs| == i && forall j | 0 <= j < i :: Keys(rows[j]) <= Keys(catalog)
        invariant forall j | 0 <= j < i ::
          fresh(objs[j]) && objs[j].cls == other && objs[j].clean == Nulls(objs[j].catalog)
        invariant i > 0 ==> clean == dirty && RowLoaded(catalog, rows[i - 1], clean)
      {
        var obj, loaded := ManyToManyRowAsWritten(other, rows[i]);
        if obj.Failure? {
          return Failure(obj.error);
        }
        if loaded.Failure? {
          return Failure(loaded.error);
        }
        objs := objs + [obj.value];
      }
      r := Success(objs);
    }

    /** One row of that loop: a new object of the other class, then the row loaded into the record itself. */
    method ManyToManyRowAsWritten(other: string, row: Assoc<Value>) returns (obj: Result<Record, Failure>, loaded: Result<(), Failure>)
      requires Valid() && registry.Valid() && cls in registry.tblLookup
      modifies this, registry, registry.db, registry.inflector
      ensures Valid() && registry.Valid() && registry.Extends() && cls in registry.tblLookup
      ensures obj.Success? ==> fresh(obj.value) && obj.value.cls == other && obj.value.clean == Nulls(obj.value.catalog)
      ensures obj.Success? ==> (loaded.Success? <==> Keys(row) <= Keys(catalog))
      ensures obj.Success? && loaded.Success? ==> clean == dirty && RowLoaded(catalog, row, clean)
    {
      obj := registry.Create(other);
      if obj.Failure? {
        return obj, Success(());
      }
      loaded := SetAllRow(row);
    }

    /** Model->column: the current value of a column, null for any other name. */
    function ColumnValue(name: string): (v: Value)
      reads this
      requires Valid()
      ensures name in Keys(catalog) ==> v == dirty[name]
      ensures name !in Keys(catalog) ==> v == VNull
    {
      if name in Keys(catalog) then dirty[name] else VNull
    }

    /** Model->__get: the current value of a column; any other name raises BadColumnException with its default message. */
    function Get(name: string): (r: Result<Value, Failure>)
      reads this, registry
      requires Valid() && cls in registry.tblLookup
      ensures name in Keys(catalog) ==> r == Success(dirty[name])
      ensures name !in Keys(catalog) ==> r == Failure(Raised(NewBadColumn(Table(), name, "")))
    {
      if name in Keys(catalog) then Success(ColumnValue(name))
      else Failure(Raised(NewBadColumn(Table(), name, "")))
    }

    /** Model->__set: set_column on a column; any other name raises BadColumnException and changes nothing. */
    method Set(name: string, value: Value) returns (r: Result<Value, Failure>)
      requires Valid() && cls in registry.tblLookup
      modifies this
      ensures Valid() && clean == old(clean) && assoc == old(assoc)
      ensures name in Keys(catalog) ==>
        r.Success? && Coerces(ColumnNamed(catalog, name), value, r.value) && dirty == old(dirty)[name := r.value]
      ensures name !in Keys(catalog) ==> r == Failure(Raised(NewBadColumn(Table(), name, ""))) && dirty == old(dirty)
    {
      if name !in Keys(catalog) {
        return Failure(Raised(NewBadColumn(Table(), name, "")));
      }
      var v := SetColumn(name, value);
      r := Success(v);
    }

    /** Model->display: a column's current value rendered for HTML; null for any other name. */
    function Display(name: string): (r: Result<Option<string>, Failure>)
      reads this
      requires Valid()
      ensures name !in Keys(catalog) ==> r == Success(None)
      ensures name in Keys(catalog) ==> (r.Success? <==> Stringify(ColumnNamed(catalog, name), dirty[name]).Some?)
      ensures name in Keys(catalog) && r.Success? ==> r.value == Stringify(ColumnNamed(catalog, name), dirty[name])
    {
      if name !in Keys(catalog) then Success(None)
      else
        match Stringify(ColumnNamed(catalog, name), ColumnValue(name))
        case Some(s) => Success(Some(s))
        case None => Failure(DateToString)
    }

    /** Model->form: the value part of a form field for a column's current value; null for any other name. */
    function Form(name: string, comparison: Value): (r: Result<Option<string>, Failure>)
      reads this
      requires Valid()
      ensures name !in Keys(catalog) ==> r == Success(None)
      ensures name in Keys(catalog) ==> (r.Success? <==> Formify(ColumnNamed(catalog, name), dirty[name], comparison).Some?)
      ensures name in Keys(catalog) && r.Success? ==> r.value == Formify(ColumnNamed(catalog, name), dirty[name], comparison)
    {
      if name !in Keys(catalog) then Success(None)
      else
        match Formify(ColumnNamed(catalog, name), ColumnValue(name), comparison)
        case Some(s) => Success(Some(s))
        case None => Failure(DateToString)
    }

    /** Model->column_inspect: the Column of that name; any other name raises BadColumnException. */
    function ColumnInspect(name: string): (r: Result<Column, Failure>)
      reads this, registry
      requires Valid() && cls in registry.tblLookup
      ensures name in Keys(catalog) ==> r.Success? && r.value.name == name && r.value in Values(catalog)
      ensures name !in Keys(catalog) ==> r == Failure(Raised(NewBadColumn(Table(), name, "")))
    {
      if name in Keys(catalog) then Success(ColumnNamed(catalog, name))
      else Failure(Raised(NewBadColumn(Table(), name, "")))
    }
  }
}
