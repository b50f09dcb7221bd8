/**
 * What a record's two value arrays hold after the operations that fill them:
 * all nulls after `_clear`, a database row after `_set_all`, and a form
 * array after `set_all`. The arrays are maps from column name to value; the
 * catalog gives their key set and each column's conversion.
 */
module RecordValues {
  import opened Wrappers
  import opened Php
  import opened Strings
  import opened Columns
  import opened Catalogs
  import opened Statements

  /** Every column of the catalog set to null. */
  function Nulls(cat: seq<(string, Column)>): (m: map<string, Value>)
    ensures m.Keys == Keys(cat)
    ensures forall k | k in m :: m[k] == VNull
  {
    map k | k in Keys(cat) :: VNull
  }

  /** Nulls on one more column: the column is added with null. */
  lemma NullsStep(cat: seq<(string, Column)>, i: nat)
    requires i < |cat|
    ensures Nulls(cat[..i + 1]) == Nulls(cat[..i])[cat[i].0 := VNull]
  {
    assert cat[..i + 1] == cat[..i] + [cat[i]];
    KeysAppend(cat[..i], [cat[i]]);
    KeysSingleton(cat[i]);
  }

  /** A map keyed by the catalog's names has a value for every column. */
  lemma KeyedCovers(cat: seq<(string, Column)>, m: map<string, Value>)
    requires m.Keys == Keys(cat)
    ensures Covers(cat, m)
  {
    forall i | 0 <= i < |cat| ensures cat[i].0 in m {
      assert cat[i].0 in Keys(cat);
    }
  }

  // ---------------------------------------------------------------------------
  // A row from the database
  // ---------------------------------------------------------------------------

  /**
   * m holds the row: each column the row names has the row's value as
   * process_value converts it, and every other column is null.
   */
  predicate RowLoaded(cat: Assoc<Column>, row: Assoc<Value>, m: map<string, Value>)
  {
    m.Keys == Keys(cat) &&
    forall k | k in m ::
      match Lookup(row, k)
      case Some(raw) => Coerces(ColumnNamed(cat, k), raw, m[k])
      case None => m[k] == VNull
  }

  /** The state _set_all's loop ends in is a loaded row. */
  lemma RowLoadedIntro(cat: Assoc<Column>, row: Assoc<Value>, m: map<string, Value>)
    requires m.Keys == Keys(cat)
    requires forall j | 0 <= j < |row| :: row[j].0 in Keys(cat)
    requires forall j | 0 <= j < |row| :: Coerces(ColumnNamed(cat, row[j].0), row[j].1, m[row[j].0])
    requires forall k | k in m && k !in Keys(row) :: m[k] == VNull
    ensures RowLoaded(cat, row, m)
  {
    forall k | k in m && k in Keys(row)
      ensures Lookup(row, k).Some? && Coerces(ColumnNamed(cat, k), Lookup(row, k).value, m[k])
    {
      var j := IndexOf(row, k);
      LookupAt(row, j);
    }
  }

  /** The first i fields of the row are stored in m and every column no field among them names is null. */
  predicate RowPrefixLoaded(cat: Assoc<Column>, row: Assoc<Value>, i: nat, m: map<string, Value>)
  {
    i <= |row| && m.Keys == Keys(cat) &&
    (forall j | 0 <= j < i :: row[j].0 in Keys(cat)) &&
    (forall j | 0 <= j < i :: Coerces(ColumnNamed(cat, row[j].0), row[j].1, m[row[j].0])) &&
    (forall k | k in m && k !in Keys(row[..i]) :: m[k] == VNull)
  }

  lemma RowPrefixStep(cat: Assoc<Column>, row: Assoc<Value>, i: nat, m: map<string, Value>, v: Value)
    requires RowPrefixLoaded(cat, row, i, m) && i < |row|
    requires row[i].0 in Keys(cat) && Coerces(ColumnNamed(cat, row[i].0), row[i].1, v)
    ensures RowPrefixLoaded(cat, row, i + 1, m[row[i].0 := v])
  {
    var m' := m[row[i].0 := v];
    assert row[..i + 1] == row[..i] + [row[i]];
    KeysAppend(row[..i], [row[i]]);
    KeysSingleton(row[i]);
    forall j | 0 <= j < i + 1
      ensures Coerces(ColumnNamed(cat, row[j].0), row[j].1, m'[row[j].0])
    {
      if j < i {
        assert row[j].0 != row[i].0;
      }
    }
    forall k | k in m' && k !in Keys(row[..i + 1])
      ensures m'[k] == VNull
    {
      assert k != row[i].0 && k !in Keys(row[..i]);
    }
  }

  /** _set_all stops at a field that is not a column: then not every field of the row is one. */
  lemma RowPrefixKnown(cat: Assoc<Column>, row: Assoc<Value>, i: nat, m: map<string, Value>)
    requires RowPrefixLoaded(cat, row, i, m) && i < |row| && row[i].0 !in Keys(cat)
    ensures !(Keys(row) <= Keys(cat))
  {
    assert row[i].0 in Keys(row);
  }

  lemma RowPrefixDone(cat: Assoc<Column>, row: Assoc<Value>, m: map<string, Value>)
    requires RowPrefixLoaded(cat, row, |row|, m)
    ensures RowLoaded(cat, row, m) && Keys(row) <= Keys(cat)
  {
    assert row[..|row|] == row;
    RowLoadedIntro(cat, row, m);
  }

  /** A row without fields loads as all nulls: _set_all of null or of an empty array is _clear. */
  lemma EmptyRowIsCleared(cat: Assoc<Column>, m: map<string, Value>)
    requires RowLoaded(cat, [], m)
    ensures m == Nulls(cat)
  {
  }

  // ---------------------------------------------------------------------------
  // A form array
  // ---------------------------------------------------------------------------

  predicate IsWordChar(c: char)
  {
    IsLower(c) || IsUpper(c) || IsDigit(c) || c == '_'
  }

  /** One or more characters of [a-zA-Z0-9_]. */
  predicate IsWord(s: string)
  {
    |s| > 0 && forall i | 0 <= i < |s| :: IsWordChar(s[i])
  }

  /**
   * The group of `^<prefix>([a-zA-Z0-9_]+)$` in key: the rest after the
   * prefix when it is a word. PCRE's `$` also matches before one final
   * newline, which is then not part of the group.
   */
  function WordAfter(prefix: string, key: string): (r: Option<string>)
    ensures r.Some? ==> IsWord(r.value) && StartsWith(key, prefix)
    ensures r.Some? ==> key == prefix + r.value || key == prefix + r.value + "\n"
  {
    if !StartsWith(key, prefix) then None
    else
      var rest := key[|prefix|..];
      assert key == prefix + rest;
      if IsWord(rest) then Some(rest)
      else if |rest| > 0 && rest[|rest| - 1] == '\n' && IsWord(rest[..|rest| - 1]) then
        assert rest == rest[..|rest| - 1] + "\n";
        Some(rest[..|rest| - 1])
      else None
  }

  /**
   * The column a set_all entry writes: a `_check_<column>` key stands for
   * that column and is skipped when the array also holds the column itself;
   * every other key writes the column it names. None: the entry is skipped.
   */
  function Target(key: string, hash: Assoc<Value>): (r: Option<string>)
    ensures WordAfter("_check_", key).None? ==> r == Some(key)
    ensures WordAfter("_check_", key).Some? ==>
      r == (if WordAfter("_check_", key).value in Keys(hash) then None else WordAfter("_check_", key))
  {
    match WordAfter("_check_", key)
    case Some(c) => if c in Keys(hash) then None else Some(c)
    case None => Some(key)
  }

  /** A checkbox key fills in its column when the form did not send the column. */
  lemma CheckboxFillsIn(x: string, hash: Assoc<Value>)
    requires IsWord(x) && x !in Keys(hash)
    ensures Target("_check_" + x, hash) == Some(x)
  {
    var key := "_check_" + x;
    assert key[|"_check_"|..] == x;
  }

  /** A checkbox key is ignored when the form sent the column itself. */
  lemma CheckboxYields(x: string, hash: Assoc<Value>)
    requires IsWord(x) && x in Keys(hash)
    ensures Target("_check_" + x, hash) == None
  {
    var key := "_check_" + x;
    assert key[|"_check_"|..] == x;
  }

  /** Every entry among the first n writes a catalog column or is skipped. */
  predicate Known(cat: Assoc<Column>, hash: Assoc<Value>, n: nat)
    requires n <= |hash|
  {
    forall j | 0 <= j < n :: Target(hash[j].0, hash).Some? ==> Target(hash[j].0, hash).value in Keys(cat)
  }

  /** The raw value of the last entry among the first n that writes column k. */
  function LastWrite(hash: Assoc<Value>, n: nat, k: string): (r: Option<Value>)
    requires n <= |hash|
    ensures r.Some? <==> exists j | 0 <= j < n :: Target(hash[j].0, hash) == Some(k)
  {
    if n == 0 then None
    else if Target(hash[n - 1].0, hash) == Some(k) then Some(hash[n - 1].1)
    else LastWrite(hash, n - 1, k)
  }

  /**
   * after is before with the first n entries of the form written: every
   * column written takes its last write's value as process_value converts
   * it, every other column keeps its value.
   */
  predicate FormWritten(cat: Assoc<Column>, hash: Assoc<Value>, n: nat, before: map<string, Value>, after: map<string, Value>)
    requires n <= |hash|
  {
    after.Keys == before.Keys &&
    forall k | k in after ::
      match LastWrite(hash, n, k)
      case None => after[k] == before[k]
      case Some(raw) => k in Keys(cat) && Coerces(ColumnNamed(cat, k), raw, after[k])
  }

  /** Writing entry n on top of the first n entries gives the first n + 1. */
  lemma FormWrittenStep(cat: Assoc<Column>, hash: Assoc<Value>, n: nat, before: map<string, Value>,
                        mid: map<string, Value>, k: string, v: Value)
    requires n < |hash| && Target(hash[n].0, hash) == Some(k)
    requires k in Keys(cat) && k in mid && Coerces(ColumnNamed(cat, k), hash[n].1, v)
    requires FormWritten(cat, hash, n, before, mid)
    ensures FormWritten(cat, hash, n + 1, before, mid[k := v])
  {
  }

  /** The column the preg_match step of set_all settles on for entry i: the checkbox group, or the key itself. */
  function EntryColumn(hash: Assoc<Value>, i: nat): string
    requires i < |hash|
  {
    var m := WordAfter("_check_", hash[i].0);
    if m.Some? then m.value else hash[i].0
  }

  /** set_all's first i entries are written over before, and each of them wrote a column or was skipped. */
  predicate FormPrefix(cat: Assoc<Column>, hash: Assoc<Value>, i: nat, before: map<string, Value>, after: map<string, Value>)
  {
    i <= |hash| && Known(cat, hash, i) && FormWritten(cat, hash, i, before, after)
  }

  lemma FormPrefixStart(cat: Assoc<Column>, hash: Assoc<Value>, m: map<string, Value>)
    ensures FormPrefix(cat, hash, 0, m, m)
  {
  }

  /** A checkbox entry whose column the form also sent is skipped. */
  lemma FormPrefixSkip(cat: Assoc<Column>, hash: Assoc<Value>, i: nat, before: map<string, Value>, after: map<string, Value>)
    requires FormPrefix(cat, hash, i, before, after) && i < |hash|
    requires WordAfter("_check_", hash[i].0).Some? && WordAfter("_check_", hash[i].0).value in Keys(hash)
    ensures FormPrefix(cat, hash, i + 1, before, after)
  {
    assert Target(hash[i].0, hash) == None;
  }

  /** Any other entry writes its column with the value as the column converts it. */
  lemma FormPrefixWrite(cat: Assoc<Column>, hash: Assoc<Value>, i: nat, before: map<string, Value>, after: map<string, Value>,
                        k: string, v: Value)
    requires FormPrefix(cat, hash, i, before, after) && i < |hash| && Target(hash[i].0, hash) == Some(k)
    requires k in Keys(cat) && k in after && Coerces(ColumnNamed(cat, k), hash[i].1, v)
    ensures FormPrefix(cat, hash, i + 1, before, after[k := v])
  {
    FormWrittenStep(cat, hash, i, before, after, k, v);
  }

  /** An entry that is not skipped and names no column makes the form unknown. */
  lemma FormPrefixUnknown(cat: Assoc<Column>, hash: Assoc<Value>, i: nat, before: map<string, Value>, after: map<string, Value>)
    requires FormPrefix(cat, hash, i, before, after) && i < |hash|
    requires !(WordAfter("_check_", hash[i].0).Some? && WordAfter("_check_", hash[i].0).value in Keys(hash))
    requires EntryColumn(hash, i) !in Keys(cat)
    ensures !Known(cat, hash, |hash|)
    ensures Target(hash[i].0, hash) == Some(EntryColumn(hash, i))
  {
  }

  /**
   * The column named by a form key that is not itself a checkbox key is
   * written with that key's value and nothing else: checkbox keys for it are
   * skipped, and every other key names another column.
   */
  lemma {:induction false} SentValueWins(hash: Assoc<Value>, k: string, n: nat)
    requires k in Keys(hash) && WordAfter("_check_", k).None?
    requires n <= |hash|
    ensures LastWrite(hash, n, k) == (if IndexOf(hash, k) < n then Some(hash[IndexOf(hash, k)].1) else None)
    decreases n
  {
    if n > 0 {
      SentValueWins(hash, k, n - 1);
      var key := hash[n - 1].0;
      assert Target(key, hash) == Some(k) <==> key == k;
      IndexOfAt(hash, n - 1);
    }
  }
}
