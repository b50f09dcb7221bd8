/**
 * The column catalog of a model class, and the readers built on it. A catalog
 * is a PHP array from column name to Column, in the order the catalog query
 * returned the rows; `primary_keys` keeps that order, `column_names` sorts.
 */
module Catalogs {
  import opened Wrappers
  import opened Php
  import opened Strings
  import opened Columns

  /** Every column is stored under its own name. */
  predicate WellFormed(cat: Assoc<Column>)
  {
    forall i | 0 <= i < |cat| :: cat[i].1.name == cat[i].0
  }

  /** $cols[$name] for a name of the catalog. */
  function ColumnNamed(cat: Assoc<Column>, k: string): (c: Column)
    requires k in Keys(cat)
    ensures WellFormed(cat) ==> c.name == k
  {
    cat[IndexOf(cat, k)].1
  }

  // ---------------------------------------------------------------------------
  // From catalog rows to columns
  // ---------------------------------------------------------------------------

  /** $row[$k]: a missing field reads as null. */
  function Field(row: Assoc<Value>, k: string): Value
  {
    match Lookup(row, k)
    case Some(v) => v
    case None => VNull
  }

  /** A field used as a name or type: its string cast (an object never comes back from the server). */
  function FieldText(row: Assoc<Value>, k: string): string
  {
    var s := StrCast(Field(row, k));
    if s.Some? then s.value else ""
  }

  /** The Column one catalog row describes: the flags are true exactly when the field is loosely 't'. */
  function RowColumn(row: Assoc<Value>): (c: Column)
    ensures c.name == FieldText(row, "name") && c.dbType == FieldText(row, "db_type")
    ensures c.allowNull <==> LooseEq(Field(row, "allow_null"), VStr("t"))
    ensures c.primaryKey <==> LooseEq(Field(row, "primary_key"), VStr("t"))
  {
    NewColumn(FieldText(row, "name"), FieldText(row, "db_type"),
      VBool(LooseEq(Field(row, "allow_null"), VStr("t"))),
      VBool(LooseEq(Field(row, "primary_key"), VStr("t"))))
  }

  function RowNames(rows: seq<Assoc<Value>>): set<string>
  {
    set i | 0 <= i < |rows| :: FieldText(rows[i], "name")
  }

  lemma RowNamesSnoc(rows: seq<Assoc<Value>>)
    requires |rows| > 0
    ensures RowNames(rows) == RowNames(rows[..|rows| - 1]) + {FieldText(rows[|rows| - 1], "name")}
  {
    var init := rows[..|rows| - 1];
    forall n | n in RowNames(rows) ensures n in RowNames(init) + {FieldText(rows[|rows| - 1], "name")} {
      var i :| 0 <= i < |rows| && FieldText(rows[i], "name") == n;
      if i < |init| { assert init[i] == rows[i]; }
    }
    forall n | n in RowNames(init) ensures n in RowNames(rows) {
      var i :| 0 <= i < |init| && FieldText(init[i], "name") == n;
      assert rows[i] == init[i];
    }
  }

  /** Storing a column under its own name keeps every column under its own name. */
  lemma PutWellFormed(cat: Assoc<Column>, c: Column)
    requires WellFormed(cat)
    ensures WellFormed(Put(cat, c.name, c))
  {
  }

  /** A row's column paired with the name it is stored under. */
  function ColumnPair(row: Assoc<Value>): (p: (string, Column))
    ensures p.0 == FieldText(row, "name") && p.1 == RowColumn(row)
  {
    (RowColumn(row).name, RowColumn(row))
  }

  function ColumnPairs(rows: seq<Assoc<Value>>): (ps: seq<(string, Column)>)
    ensures |ps| == |rows|
    ensures forall i | 0 <= i < |rows| :: ps[i] == ColumnPair(rows[i])
    decreases |rows|
  {
    if |rows| == 0 then [] else ColumnPairs(rows[..|rows| - 1]) + [ColumnPair(rows[|rows| - 1])]
  }

  lemma {:induction false} FromPairsWellFormed(ps: seq<(string, Column)>)
    requires forall i | 0 <= i < |ps| :: ps[i].1.name == ps[i].0
    ensures WellFormed(FromPairs(ps))
    decreases |ps|
  {
    if |ps| > 0 {
      var init := ps[..|ps| - 1];
      FromPairsWellFormed(init);
      PutWellFormed(FromPairs(init), ps[|ps| - 1].1);
    }
  }

  /**
   * `$columns[$name] = new Column(...)` for each row in turn: a name seen
   * again overwrites the column in its first position.
   */
  function CatalogOf(rows: seq<Assoc<Value>>): (cat: Assoc<Column>)
    ensures WellFormed(cat)
    ensures Keys(cat) == RowNames(rows)
  {
    var ps := ColumnPairs(rows);
    FromPairsWellFormed(ps);
    assert Keys(ps) == RowNames(rows) by {
      forall n | n in RowNames(rows) ensures n in Keys(ps) {
        var i :| 0 <= i < |rows| && FieldText(rows[i], "name") == n;
        assert ps[i] == ColumnPair(rows[i]);
      }
    }
    FromPairs(ps)
  }

  /** The catalog after one more row: that row's column stored under its name. */
  lemma CatalogOfStep(rows: seq<Assoc<Value>>, i: nat)
    requires i < |rows|
    ensures CatalogOf(rows[..i + 1]) == Put(CatalogOf(rows[..i]), ColumnPair(rows[i]).0, ColumnPair(rows[i]).1)
  {
    assert rows[..i + 1][..i] == rows[..i];
    FromPairsSnoc(ColumnPairs(rows[..i]), ColumnPair(rows[i]));
  }

  /** With no name repeated, every row becomes one column, in the rows' order. */
  lemma {:induction false} CatalogInOrder(rows: seq<Assoc<Value>>)
    requires forall i, j | 0 <= i < j < |rows| :: FieldText(rows[i], "name") != FieldText(rows[j], "name")
    ensures |CatalogOf(rows)| == |rows|
    ensures forall i | 0 <= i < |rows| :: CatalogOf(rows)[i] == (FieldText(rows[i], "name"), RowColumn(rows[i]))
  {
    var ps := ColumnPairs(rows);
    assert DistinctKeys(ps) by {
      forall i, j | 0 <= i < j < |ps| ensures ps[i].0 != ps[j].0 {
        assert ps[i] == ColumnPair(rows[i]) && ps[j] == ColumnPair(rows[j]);
      }
    }
    FromPairsDistinct(ps);
  }

  // ---------------------------------------------------------------------------
  // Positions
  // ---------------------------------------------------------------------------

  /** The positions holding true, in increasing order. */
  function Where(bits: seq<bool>): (r: seq<nat>)
    ensures forall p | 0 <= p < |r| :: r[p] < |bits| && bits[r[p]]
    ensures forall i | 0 <= i < |bits| && bits[i] :: i in r
    ensures forall p, q | 0 <= p < q < |r| :: r[p] < r[q]
    decreases |bits|
  {
    if |bits| == 0 then []
    else
      var init := bits[..|bits| - 1];
      var prev := Where(init);
      assert forall p | 0 <= p < |prev| :: bits[prev[p]] == init[prev[p]];
      prev + (if bits[|bits| - 1] then [|bits| - 1] else [])
  }

  /** Where on one more element: the new position is added at the end when it holds true. */
  lemma WhereStep(bits: seq<bool>, i: nat)
    requires i < |bits|
    ensures Where(bits[..i + 1]) == Where(bits[..i]) + (if bits[i] then [i] else [])
  {
    assert bits[..i + 1][..i] == bits[..i];
  }

  /** The positions found in a prefix are the first ones found in the whole. */
  lemma {:induction false} WherePrefix(bits: seq<bool>, n: nat)
    requires n <= |bits|
    ensures Where(bits[..n]) <= Where(bits)
    decreases |bits|
  {
    if n < |bits| {
      var init := bits[..|bits| - 1];
      assert bits[..n] == init[..n];
      WherePrefix(init, n);
    } else {
      assert bits[..n] == bits;
    }
  }

  /** No position holds true: the list is empty. */
  lemma {:induction false} WhereNone(bits: seq<bool>)
    requires forall i | 0 <= i < |bits| :: !bits[i]
    ensures Where(bits) == []
    decreases |bits|
  {
    if |bits| > 0 {
      WhereNone(bits[..|bits| - 1]);
    }
  }

  lemma WhereAll(bits: seq<bool>)
    ensures Where(bits[..|bits|]) == Where(bits)
  {
    assert bits[..|bits|] == bits;
  }

  // ---------------------------------------------------------------------------
  // primary_keys and column_names
  // ---------------------------------------------------------------------------

  function KeyBits(cat: seq<(string, Column)>): (b: seq<bool>)
    ensures |b| == |cat| && forall i | 0 <= i < |cat| :: b[i] == cat[i].1.primaryKey
  {
    seq(|cat|, i requires 0 <= i < |cat| => cat[i].1.primaryKey)
  }

  /** primary_keys: the names of the primary-key columns. */
  function PrimaryKeys(cat: seq<(string, Column)>): (r: seq<string>)
  {
    var pos := Where(KeyBits(cat));
    seq(|pos|, p requires 0 <= p < |pos| => cat[pos[p]].0)
  }

  /**
   * primary_keys lists exactly the primary-key columns of the catalog, each
   * once, in the catalog's order.
   */
  lemma {:induction false} PrimaryKeysInCatalogOrder(cat: Assoc<Column>)
    ensures var r := PrimaryKeys(cat);
      (forall k :: k in r <==> k in Keys(cat) && ColumnNamed(cat, k).primaryKey) &&
      (forall p, q | 0 <= p < q < |r| :: IndexOf(cat, r[p]) < IndexOf(cat, r[q]))
  {
    var r := PrimaryKeys(cat);
    var pos := Where(KeyBits(cat));
    forall p | 0 <= p < |r| ensures r[p] in Keys(cat) && IndexOf(cat, r[p]) == pos[p] {
      IndexOfAt(cat, pos[p]);
    }
    forall k ensures k in r <==> k in Keys(cat) && ColumnNamed(cat, k).primaryKey {
      if k in Keys(cat) && ColumnNamed(cat, k).primaryKey {
        var i := IndexOf(cat, k);
        assert KeyBits(cat)[i];
        var p :| 0 <= p < |pos| && pos[p] == i;
        assert r[p] == k;
      }
    }
  }

  /** Byte-wise string order, as strcmp: a proper prefix comes first. */
  predicate LexLeq(a: string, b: string)
    decreases |a|
  {
    |a| == 0 || (|b| > 0 && (a[0] < b[0] || (a[0] == b[0] && LexLeq(a[1..], b[1..]))))
  }

  lemma {:induction false} LexLeqTotal(a: string, b: string)
    ensures LexLeq(a, b) || LexLeq(b, a)
    decreases |a|
  {
    if |a| > 0 && |b| > 0 && a[0] == b[0] {
      LexLeqTotal(a[1..], b[1..]);
    }
  }

  lemma {:induction false} LexLeqAntisymmetric(a: string, b: string)
    requires LexLeq(a, b) && LexLeq(b, a)
    ensures a == b
    decreases |a|
  {
    if |a| > 0 {
      LexLeqAntisymmetric(a[1..], b[1..]);
      assert a == [a[0]] + a[1..] && b == [b[0]] + b[1..];
    }
  }

  lemma {:induction false} LexLeqTransitive(a: string, b: string, c: string)
    requires LexLeq(a, b) && LexLeq(b, c)
    ensures LexLeq(a, c)
    decreases |a|
  {
    if |a| > 0 && a[0] == b[0] && b[0] == c[0] {
      LexLeqTransitive(a[1..], b[1..], c[1..]);
    }
  }

  predicate Sorted(s: seq<string>)
  {
    forall i, j | 0 <= i < j < |s| :: LexLeq(s[i], s[j])
  }

  /** Every element of s is at least x. */
  predicate Above(x: string, s: seq<string>)
  {
    forall j | 0 <= j < |s| :: LexLeq(x, s[j])
  }

  lemma {:induction false} AboveSorted(x: string, s: seq<string>)
    requires Sorted(s) && |s| > 0 && LexLeq(x, s[0])
    ensures Above(x, s)
  {
    forall j | 0 <= j < |s| ensures LexLeq(x, s[j]) {
      if j > 0 { LexLeqTransitive(x, s[0], s[j]); }
    }
  }

  lemma {:induction false} SortedCons(x: string, s: seq<string>)
    requires Sorted(s) && Above(x, s)
    ensures Sorted([x] + s)
  {
    var r := [x] + s;
    forall i, j | 0 <= i < j < |r| ensures LexLeq(r[i], r[j]) {
      if i == 0 { assert r[j] == s[j - 1]; } else { assert r[i] == s[i - 1] && r[j] == s[j - 1]; }
    }
  }

  /** Elements with the same multiset are above the same bounds. */
  lemma {:induction false} AbovePermutation(x: string, s: seq<string>, t: seq<string>)
    requires Above(x, s) && multiset(t) <= multiset(s)
    ensures Above(x, t)
  {
    forall j | 0 <= j < |t| ensures LexLeq(x, t[j]) {
      assert t[j] in multiset(t);
      assert t[j] in multiset(s);
      var k :| 0 <= k < |s| && s[k] == t[j];
    }
  }

  function InsertSorted(x: string, s: seq<string>): (r: seq<string>)
    requires Sorted(s)
    ensures Sorted(r) && multiset(r) == multiset(s) + multiset{x}
    decreases |s|
  {
    if |s| == 0 then [x]
    else if LexLeq(x, s[0]) then
      AboveSorted(x, s);
      SortedCons(x, s);
      [x] + s
    else
      assert Sorted(s[1..]);
      var rest := InsertSorted(x, s[1..]);
      LexLeqTotal(x, s[0]);
      assert s == [s[0]] + s[1..];
      LexLeqTotal(s[0], s[0]);
      AboveSorted(s[0], s);
      assert Above(s[0], s[1..] + [x]);
      assert multiset(rest) == multiset(s[1..] + [x]);
      AbovePermutation(s[0], s[1..] + [x], rest);
      SortedCons(s[0], rest);
      [s[0]] + rest
  }

  /** PHP's sort() on strings, as an insertion sort. */
  function Sort(s: seq<string>): (r: seq<string>)
    ensures Sorted(r) && multiset(r) == multiset(s)
    decreases |s|
  {
    if |s| == 0 then []
    else
      assert s == s[..|s| - 1] + [s[|s| - 1]];
      InsertSorted(s[|s| - 1], Sort(s[..|s| - 1]))
  }

  /** column_names: the catalog's names, sorted. */
  function ColumnNames(cat: Assoc<Column>): (r: seq<string>)
  {
    Sort(KeySeq(cat))
  }

  /** column_names lists every catalog name exactly once, in ascending order. */
  lemma ColumnNamesSorted(cat: Assoc<Column>)
    ensures Sorted(ColumnNames(cat))
    ensures multiset(ColumnNames(cat)) == multiset(KeySeq(cat))
    ensures forall k :: k in ColumnNames(cat) <==> k in Keys(cat)
  {
    var r := ColumnNames(cat);
    forall k ensures k in r <==> k in Keys(cat) {
      assert k in r <==> k in multiset(r);
      assert k in KeySeq(cat) <==> k in multiset(KeySeq(cat));
      if k in Keys(cat) {
        var i :| 0 <= i < |cat| && cat[i].0 == k;
        assert KeySeq(cat)[i] == k;
      }
    }
  }

  /** The join table of a many-to-many association: the two table names sorted and joined by "_". */
  function JoinTable(a: string, b: string): string
  {
    Join(Sort([a, b]), "_")
  }

  /** Both sides of a many-to-many association name the same join table, the smaller name first. */
  lemma {:induction false} JoinTableSymmetric(a: string, b: string)
    ensures JoinTable(a, b) == JoinTable(b, a)
    ensures JoinTable(a, b) == if LexLeq(a, b) then a + "_" + b else b + "_" + a
  {
    assert [a, b][..1] == [a] && [b, a][..1] == [b];
    assert Sort([a]) == [a] && Sort([b]) == [b];
    assert Sort([a, b]) == InsertSorted(b, [a]);
    assert Sort([b, a]) == InsertSorted(a, [b]);
    assert InsertSorted(b, [a]) == if LexLeq(b, a) then [b, a] else [a, b];
    assert InsertSorted(a, [b]) == if LexLeq(a, b) then [a, b] else [b, a];
    assert Join([a, b], "_") == a + "_" + b && Join([b, a], "_") == b + "_" + a;
    LexLeqTotal(a, b);
    if LexLeq(a, b) && LexLeq(b, a) {
      LexLeqAntisymmetric(a, b);
    }
  }

  /**
   * Model::sort, the usort() comparator on two records' ids (here integer
   * ids): 0 for equal ids, 1 when the first is greater, -1 otherwise.
   */
  function CompareIds(a: int, b: int): (r: int)
    ensures r == 0 <==> a == b
    ensures r == 1 <==> a > b
    ensures r == -1 <==> a < b
  {
    if a == b then 0 else if a > b then 1 else -1
  }
}
