# pg_model in Dafny

pg_model is a small active-record layer for PostgreSQL written in PHP. Each
model class is backed by a table. The class finds its table name by
inflection (`BlogPost` becomes `blog_posts`). It reads the table's column
catalog from PostgreSQL's system tables, and it keeps every record in two
hashes. The *clean* hash holds what the database last returned. The *dirty*
hash holds what the program has written since. `save` sends an UPDATE of the
changed columns, or an INSERT, and reloads the row the database returns.
Associations (one-to-many, many-to-many, many-to-one) are declared per class
and loaded on demand through `load_<name>()` calls. The package also has a
date value type, a column type that converts values between PHP, HTML forms
and the database, an inflector with caches in both directions, a thin
database wrapper, typed exceptions, and a small TAP test harness.

This project models that core and proves properties of the model.

- `Wrappers`, `Strings`, `Php`: Option/Result, the string functions the
  code relies on (`explode`/`join`, case mapping, `(int)` casts, zero
  padding), and PHP values. Values are null, booleans, integers, strings
  and Date objects. The module also has truthiness, `==` loose comparison,
  `(string)` casts and ordered associative arrays (`Assoc`).
- `Dates`: `Date::parse`, `Date->to_s` and the Date object.
- `Columns`: `Column` and its four conversions.
- `Exceptions`: the four exception types and their messages.
- `Inflection`: `pluralize`, `singularize`, `_suf`, and an `Inflector`
  class. The class holds the `camelized`/`decamelized` caches that
  `camelize` and `decamelize` update.
- `InflectionExamples`, `InflectionScript`: the expectations of
  `test/inflection.php`, proved about the model.
- `Conninfo`: libpq's keyword/value connection-string syntax (section 34.1.1.1
  of the PostgreSQL manual, "Keyword/Value Connection Strings"). It has a
  parser, the string `Database::connect` writes, and a corrected writer
  that quotes every value (see Findings).
- `Database`: the `Database` class. The server is an oracle: which
  connection strings it accepts, and what each prepared statement returns
  for given parameters. The class keeps the connection, the set of
  prepared statement names, and the text each name was prepared with.
- `Catalogs`: turning `_colquery` rows into a column catalog.
  Also primary keys, `column_names` sorting, join-table names, and the
  comparator `Model::sort` means.
- `Statements`, `Persist`: the SQL text, statement names and parameter
  lists built by `_update`, `_insert`, `load` and the association loaders.
  They are specified as functions, and the loops that build them are
  proved against those functions.
- `RecordValues`: what a record's hashes hold after `_set_all` and
  `set_all`, including the `_check_<column>` checkbox convention.
- `Model`: a `Registry` class and a `Record` class. `Registry` holds the
  class-level static state: the columns cache, the table/class lookups,
  the association declarations, the connection and the inflector.
  `Record` is one model object, with `clean`, `dirty` and the
  association cache.

## Model

| member | source | states |
|---|---|---|
| Php.StrCast | column.php:108-120 | a `(string)` cast is defined for every value except a Date object, which has no `__toString` |
| Php.LooseEqSymmetric | column.php:89-90 | `==` loose comparison is symmetric |
| Php.StrictImpliesLoose | column.php:89-90 | every value is loosely equal to itself |
| Php.IntAgainstFraction | column.php:89-90 | an integer is loosely equal to a string with a fraction exactly when the integer, scaled by ten to the fraction's length, equals all its digits, whatever non-digit text follows (so `1 == "1.5"` and `1 == "1.9x"` fail) |
| Php.IntAgainstExponent | column.php:89-90 | an integer is loosely equal to digits followed by an exponent exactly when it is those digits scaled up by the exponent (so `1000 == "1e3"` holds) |
| Php.IntAgainstNonNumeric | test/tap.php:25 | an integer is loosely equal to a string that starts with no number exactly when it is 0 |
| Php.DateAgainstScalar | column.php:89-90 | a Date object is never loosely equal to a string, in either order, and is loosely equal to an integer exactly when the integer is 1 |
| Php.NotLooselyEmpty | date.php:17-18 | a non-empty string is never loosely equal to the empty string |
| Php.IndexOf | model.php:700-710 | the position of a key in an ordered array is the first entry with that key |
| Php.Lookup | model.php:693 | `array_key_exists` succeeds exactly for keys of the array |
| Php.Put | model.php:709 | assigning `$a[$k]` keeps an existing key in its place with the new value and appends a new key at the end; no other entry changes |
| Php.PutLookup | model.php:709 | after `$a[$k] = $v`, reading `$k` gives `$v` and every other key reads as before |
| Php.FromPairs | model.php:700-710 | building an array by assignments in order has exactly the assigned keys |
| Php.FromPairsSnoc | model.php:700-710 | one more assignment is one more `Put` |
| Php.FromPairsDistinct | model.php:700-710 | with distinct keys, assignments in order build the list of pairs itself |
| Php.Values | model.php:457 | the values of an array, in order |
| Php.KeySeq | model.php:747 | `array_keys`: the keys, in order |
| Strings.SplitJoin | inflection.php:136 | `explode` undoes `join` on pieces free of the separator |
| Strings.SplitPiecesFree | inflection.php:136 | no piece of `explode` contains the separator |
| Strings.CastIntOfIntToString | date.php:23-25 | `(int)` of an integer's decimal text gives the integer back |
| Strings.CastIntOfPadded | date.php:23-25 | `(int)` of a zero-padded numeral gives its value |
| Strings.DigitsValueOfNat | date.php:74 | decimal printing and reading are inverse on naturals |
| Dates.Parse | date.php:16-27 | parse gives null exactly for the empty string; otherwise year, month and day are the `(int)` casts of the first three `-`-separated pieces, a missing piece reading as 0 |
| Dates.ToS | date.php:72-76 | the `%04d-%02d-%02d` text is at least 10 characters long |
| Dates.ParseToS | date.php:16-27 | for non-negative fields, parse undoes to_s |
| Dates.ParseExample | test/date.php:14-19 | parse of `2011-10-25` gives year 2011, month 10, day 25 |
| Dates.NegativeYearDoesNotRoundTrip | date.php:72-76 | year -5 prints as `-005-01-01`, which parses back as year 0, month 5, day 1 |
| Dates.DateObject.constructor | date.php:34-38 | the object holds the given year, month and day, which the accessors at date.php:45-65 return (test/date.php:8-12) |
| Dates.ParseObject | date.php:16-27 | null exactly for the empty string; otherwise a fresh Date object whose fields are what parse gives |
| Columns.NewColumn | column.php:16-21 | the name and type are kept; `allow_null` and `primary_key` are the truthiness of the arguments (read by the accessors at column.php:28-57) |
| Columns.EscapeRoundTrip | column.php:65-77 | decoding the entities of `htmlspecialchars` output gives the input back |
| Columns.EscapeHasNoMarkup | column.php:65-77 | escaped text has no `<`, `>` or `"` |
| Columns.Stringify | column.php:65-77 | boolean: `?` for null, else `Yes`/`No` by truthiness; date: `Unknown/empty` for a falsy value, the `to_s` of a Date, an error for any other truthy value; any other type: the string cast, HTML-escaped: it holds no `<`, `>` or `"`, and unescaping gives the string cast back; a Date there is an error |
| Columns.Formify | column.php:85-100 | null gives `''`; a non-null comparison loosely equal to the value gives `' checked'`; otherwise boolean gives `' checked'` or `''` by truthiness, date gives ` value="<to_s>"` (an error unless a Date), other types ` value="<string cast>"` |
| Columns.PrepForDatabase | column.php:108-120 | null stays null; a boolean is sent as `t`/`f` by truthiness; a date is defined exactly for a Date object; any other type is sent as its string cast; the result is always null or text |
| Columns.ParseValue | column.php:146-150 | a value loosely equal to `''` reads as no date; any other value is parsed from its string cast |
| Columns.ProcessValue | column.php:128-159 | the returned value is the coercion the column's type prescribes, and a date string yields a freshly allocated Date object |
| Columns.BooleanCoercion | column.php:130-137 | a boolean column gives false exactly for `'f'`, `'false'` and falsy values, and true otherwise |
| Columns.BooleanBlankIsFalse | column.php:130-137 | `''` and null become false, where test/column.php:16-17 expects null |
| Columns.BooleanRoundTrip | column.php:108-137 | a boolean is sent as `t`/`f`, and reading that back gives the same boolean (test/column.php:39-40) |
| Columns.IntegerRoundTrip | column.php:108-142 | reading back the text sent for an integer gives the same integer |
| Columns.TextRoundTrip | column.php:108-145 | text is sent and read back unchanged |
| Columns.DateRoundTrip | column.php:108-150 | reading back the text sent for a Date with non-negative fields gives a fresh Date with the same fields |
| Columns.OtherTypesKeep | column.php:151-157 | types the switch does not list keep the raw value |
| Columns.DateCoercion | column.php:146-150 | a Date object is kept as it is; null, `''`, false and 0 give null |
| Columns.DateCoercionExample | test/date.php:14-19 | `2011-10-25` read by a date column gives a fresh Date of 2011, 10, 25 |
| Columns.FormifyTrueAgainstFalse | column.php:85-100 | formify of true against false gives `' checked'`, where test/column.php:44 expects `''`; against true, `' checked'`; false alone, `''` |
| Exceptions.NewBadColumn | exceptions.php:19-28 | keeps table and column; a truthy message is kept verbatim, otherwise the default "no such column" message naming both |
| Exceptions.NewBadPrimaryKey | exceptions.php:69-75 | the same shape with its own default message |
| Exceptions.NewNoSuchRow | exceptions.php:78-79 | the message is kept |
| Exceptions.NewAmbiguousInflection | exceptions.php:103-116 | keeps function, original, inflected and existing values; the default message names all four |
| Exceptions.DefaultMessagesTruthy | exceptions.php:23-25 | a constructed BadColumn or BadPrimaryKey exception always has a non-empty message |
| Exceptions.AmbiguousMessageTruthy | exceptions.php:110-113 | likewise for AmbiguousInflection |
| Exceptions.BadColumnRebuild | exceptions.php:38-52 | getTable/getColumn return what the constructor got, and rebuilding from them and the message gives the same exception |
| Exceptions.PrimaryKeyMessageDiffers | exceptions.php:69-75 | the BadPrimaryKey default message differs from the BadColumn one |
| Inflection.WordStart | inflection.php:258 | the last `_`-separated word starts after the last `_` |
| Inflection.LastWordOfJoin | inflection.php:258 | for a head ending in `_` and a word without `_`, the regex `(^\|.*_)([^_]+)$` splits at that `_` |
| Inflection.LookupFirstSpec | inflection.php:262-263 | a key lookup in the irregular table succeeds iff some pair has that key, and returns that pair's value |
| Inflection.SearchFirstSpec | inflection.php:344-345 | `array_search` in the irregular table succeeds iff some pair has that value, and returns that pair's key |
| Inflection.AnyEndsWithSpec | inflection.php:236-237 | a stem list matches iff some stem ends the word |
| Inflection.FirstEnding | inflection.php:266-269 | the suffix table search returns a pair whose ending ends the word |
| Inflection.FirstEndingFirst | inflection.php:266-269 | no earlier pair of the suffix table ends the word |
| Inflection.Suf | inflection.php:235-244 | `_suf` answers iff some stem ends the matched stem, and then replaces the input suffix by the output suffix |
| Inflection.UncountableUnchanged | inflection.php:259-260 | pluralize and singularize leave a word whose last word is uncountable unchanged |
| Inflection.IrregularWords | inflection.php:45-67 | irregular words are non-empty and have no `_` |
| Inflection.IrregularCountable | inflection.php:20-67 | no irregular word is uncountable |
| Inflection.IrregularDistinct | inflection.php:45-67 | the singulars are distinct, and so are the plurals |
| Inflection.IrregularRoundTrip | inflection.php:262-263 | pluralize maps every irregular singular, under any `_` head, to its plural, and singularize maps it back (inflection.php:344-345) |
| Inflection.WholeWordEnding | inflection.php:264-271 | when the last word ends with a listed irregular ending, that ending is replaced by its partner |
| Inflection.PluralIrregularEnding | inflection.php:29-38 | `...man` becomes `...men`, and so for every suffix pair, under any head |
| Inflection.SingularIrregularEnding | inflection.php:346-353 | the reverse for singularize |
| Inflection.WholeWordLastWord | inflection.php:258-273 | the whole-word rules look only at the last word; the head is passed through |
| Inflection.PluralStemLastWord | inflection.php:276-307 | the stem rules (f/fe to ves, o to oes, ...) act on the last word only |
| Inflection.SingularStemLastWord | inflection.php:358-391 | the same for singularize |
| Inflection.PluralRegularLastWord | inflection.php:311-327 | the regular English rules act on the last word only |
| Inflection.SingularRegularLastWord | inflection.php:394-411 | the same for singularize |
| Inflection.PluralizeLastWord | inflection.php:255-412 | pluralize and singularize of `head_word` are the head followed by the inflected word |
| Inflection.Ucfirst | inflection.php:140 | upper-cases the first character and keeps the rest |
| Inflection.CamelizeHasNoSeparator | inflection.php:136-144 | camelized text has no `_` |
| Inflection.DecamelizeHasNoUpper | inflection.php:183-204 | decamelized text has no upper-case letter |
| Inflection.DecamelizeWords | inflection.php:183-204 | decamelize of camel-cased words of two or more lower-case letters separates them with `_` |
| Inflection.CamelizeRoundTrip | inflection.php:131-217 | for such words, camelize of the `_`-joined text is the camel-cased words, and decamelize gives the joined text back |
| Inflection.Inflector.constructor | inflection.php:14-15 | both caches start empty |
| Inflection.Inflector.Camelize | inflection.php:131-157 | a cached answer is returned unchanged; an answer already cached the other way round raises AmbiguousInflection and leaves the caches alone; otherwise the answer is recorded in both caches, which stay inverse to each other |
| Inflection.Inflector.Decamelize | inflection.php:174-217 | the same three cases for decamelize |
| InflectionExamples.PluralizeExamples | test/inflection.php:11-28 | pluralize gives each of the expected plurals of the test list |
| InflectionExamples.SingularizeExamples | test/inflection.php:33-48 | singularize gives each of the expected singulars |
| InflectionScript.CamelizeChecks | test/inflection.php:70-74 | on empty caches, camelize of `test_camelize` is `TestCamelize`, and camelize of `Test_camelize` then raises AmbiguousInflection; the caches hold exactly the first pair |
| InflectionScript.DecamelizeCheck | test/inflection.php:77-78 | decamelize of `TestDeCamelize` is `test_de_camelize`, added to both caches |
| InflectionScript.AcronymChecks | test/inflection.php:79-83 | `TestABDeCamelize` decamelizes to `test_ab_de_camelize`, and camelize of that then answers `TestABDeCamelize` from the cache |
| InflectionScript.Script | test/inflection.php:70-83 | the script's five calls on a fresh inflector give its five expected answers, the second being the AmbiguousInflection it expects |
| Conninfo.ConnStringRoundTrip | database.php:24-34 | libpq reads back the string connect writes, for values that are non-empty, have no `'` and have no white space other than spaces |
| Conninfo.EmptyValueSwallowsNextPair | database.php:24-34 | `host=` followed by ` dbname=x` is read as host `dbname=x` |
| Conninfo.QuoteInValueRejected | database.php:26-29 | a value holding `' ` makes the connection string unreadable |
| Conninfo.QuotedConnStringRoundTrip | database.php:24-34 | with every value quoted and `'`/`\` escaped, libpq reads back exactly the given pairs for all values |
| Database.StatementName | database.php:57-71 | a falsy statement name is the unnamed statement `""` |
| Database.UntilEmpty | database.php:83-112 | the fetch loop keeps the rows before the first empty one |
| Database.UntilEmptyAll | database.php:83-112 | with no empty row, every row is kept |
| Database.Zip | database.php:83-91 | each fetched row pairs column names with values, position by position |
| Database.AssocRows | database.php:83-91 | one associative row per result row |
| Database.PrefetchAllRows | database.php:83-91 | with at least one column and full rows, prefetch returns every row |
| Database.PrefetchNoColumns | database.php:83-91 | a result with no columns yields no rows |
| Database.Fetched | database.php:83-91 | a failed query yields no rows; otherwise no more rows than the result has |
| Database.Database.constructor | database.php:14-22 | not connected, nothing prepared |
| Database.Database.Connect | database.php:14-36 | an existing connection is kept; empty parameters fall back to the configuration; the server is asked with the string `connect` writes (values backslash-escaped, quoted when they hold a space); for plain keywords and values that are non-empty and free of `'` and of white space other than spaces, that string reads back as the parameters |
| Database.Database.Prepared | database.php:44-46 | only truthy names are ever recorded as prepared |
| Database.Database.Query | database.php:57-71 | a statement name not yet prepared is prepared with the SQL text; the result is what the server returns for that name and parameters; other names are untouched |
| Database.RanStands | database.php:57-71 | after a query, the name stands prepared with the text it was first prepared with |
| Database.Database.Prefetch | database.php:83-91 | query, then the associative rows up to the first empty one |
| Database.Database.PrefetchInt | database.php:103-112 | query, then the numbered rows up to the first empty one |
| Database.FetchAll | database.php:86-89 | the fetch loop returns what UntilEmpty specifies |
| Catalogs.ColumnNamed | model.php:709 | in a well-formed catalog, the column stored under a key has that name |
| Catalogs.RowColumn | model.php:700-709 | a catalog row becomes a Column with its name and type, and flags set iff the text is loosely equal to `t` |
| Catalogs.CatalogOf | model.php:700-710 | the catalog is well formed and its keys are exactly the names of the rows |
| Catalogs.CatalogInOrder | model.php:700-710 | with distinct names, the catalog lists one column per row, in row order |
| Catalogs.Where | model.php:457-470 | the positions of the true bits, increasing, all of them |
| Catalogs.KeyBits | model.php:770-774 | one bit per column: whether it is a primary key |
| Catalogs.PrimaryKeysInCatalogOrder | model.php:763-777 | primary_keys lists exactly the primary-key columns, in catalog order |
| Catalogs.LexLeqTotal | model.php:748 | byte-wise string order is total |
| Catalogs.LexLeqAntisymmetric | model.php:748 | and antisymmetric |
| Catalogs.LexLeqTransitive | model.php:748 | and transitive |
| Catalogs.InsertSorted | model.php:748 | inserting into a sorted list keeps it sorted and adds exactly the element |
| Catalogs.Sort | model.php:748 | `sort` returns a sorted permutation |
| Catalogs.ColumnNamesSorted | model.php:742-751 | column_names is sorted and a permutation of the catalog's keys |
| Catalogs.JoinTableSymmetric | model.php:215-218 | the join table of two tables is the smaller name, `_`, then the larger, whichever side asks |
| Catalogs.CompareIds | model.php:726-734 | 0, 1 or -1 exactly when the ids are equal, the first is greater or the first is smaller |
| Statements.AllPrepared | model.php:462-466 | the parameter list exists iff every value could be prepared, and then holds them in order |
| Statements.PositionListInjective | model.php:490-493 | two update statement names for the same table agree only if the same columns changed |
| Statements.ChangedBits | model.php:461 | one bit per column: whether clean and dirty differ (`!==`) |
| Statements.ChangedColumns | model.php:457-470 | the changed columns are exactly those whose clean and dirty values differ, in catalog order |
| Statements.UpdateChangedParams | model.php:457-470 | the p-th SET clause assigns `$p` to the p-th changed column, and the p-th parameter is its prepared dirty value |
| Statements.UpdateKeyClauses | model.php:477-487 | the WHERE clauses name each primary key with placeholders numbered after the SET ones |
| Statements.UpdateKeyParams | model.php:477-487 | the parameters after the SET values are the prepared primary-key values, in order |
| Statements.NothingChanged | model.php:472-475 | when clean and dirty agree on every column there is nothing to send |
| Statements.UpdateNameDeterminesSql | model.php:489-497 | two updates under the same prepared-statement name have the same SQL text, so reusing the prepared name is sound |
| Statements.InsertPositions | model.php:521-534 | the inserted columns are positions in the catalog |
| Statements.InsertBindings | model.php:511-548 | the insert names exactly the non-key columns, in catalog order, with placeholders `$1..$n` and their prepared dirty values |
| Statements.LoadKeys | model.php:355-364 | a scalar key is accepted only when the table has one primary key; otherwise BadPrimaryKey with the "more than one" message |
| Statements.MissingKey | model.php:366-374 | the first primary key the argument does not supply, if any |
| Statements.ExtraKey | model.php:378-387 | the first supplied key that is not a primary key, if any |
| Statements.CheckedKeysArePrimaryKeys | model.php:366-387 | load's key checks pass iff the supplied keys are exactly the primary keys and every value is truthy |
| Statements.LoadRequest | model.php:351-387 | an accepted request supplies every primary key and nothing else |
| Statements.LoadKeyOrderAsWritten | model.php:378-391 | the as-written load statement has one name but puts its parameters in the caller's key order |
| Statements.LoadStatement | model.php:378-391 | the corrected load statement binds `$j` to the j-th primary key's value |
| Statements.LoadStatementOrderFree | model.php:378-391 | the corrected statement depends only on the key values, not on their order in the argument |
| Statements.NoRowMessage | model.php:395-405 | the NoSuchRow message can be formed iff no key value is a Date object |
| Statements.PageOffset | model.php:326 | the offset plus the count is page number times count; it is non-negative from page 1 on |
| Statements.PageStatement | model.php:279-339 | the page query is named per table, prepared once, and takes the count and offset |
| Statements.PagesAdjacent | model.php:326 | page 1 starts at 0 and each page starts where the previous ended |
| Statements.ManyToManyBothEnds | model.php:212-230 | both ends of a many-to-many association join through the same table, each filtering on its own foreign key `<singular>_id` |
| Persist.SetClauses | model.php:457-470 | the SET loop builds exactly the changed columns, their clauses, prepared values and RETURNING list, or fails when a value cannot be prepared |
| Persist.KeyClauses | model.php:477-487 | the WHERE loop builds exactly the key clauses and values |
| Persist.UpdateAssembled | model.php:489-497 | the pieces assemble into the update statement |
| Persist.UpdateUnprepared | model.php:462 | a value that cannot be prepared makes the update fail |
| Persist.BuildUpdate | model.php:445-497 | nothing is built when nothing changed; otherwise the update statement |
| Persist.InsertClauses | model.php:521-534 | the insert loop builds exactly the non-key names, placeholders and prepared values |
| Persist.BuildInsert | model.php:511-544 | builds the insert statement |
| Persist.CheckLoadKeys | model.php:366-387 | the key-check loops answer as CheckKeys specifies |
| Persist.BuildLoad | model.php:389-391 | builds the corrected load statement |
| Persist.NoRowText | model.php:395-405 | builds the NoSuchRow message |
| RecordValues.Nulls | model.php:634-644 | a cleared hash has every column, all null |
| RecordValues.EmptyRowIsCleared | model.php:604-624 | loading an empty row leaves every column null |
| RecordValues.WordAfter | model.php:562-573 | the `[a-zA-Z0-9_]+` word after a prefix, where PCRE's `$` also matches before a final newline |
| RecordValues.Target | model.php:565-576 | a `_check_<x>` key writes `x` unless the hash also has `x`; any other key writes itself |
| RecordValues.CheckboxFillsIn | model.php:565-576 | an unchecked checkbox's marker writes its column |
| RecordValues.CheckboxYields | model.php:565-576 | a sent value wins over its checkbox marker |
| RecordValues.LastWrite | model.php:565-590 | the value a column receives is the one from the last entry that targets it |
| RecordValues.FormWrittenStep | model.php:580-588 | one more written entry extends what the hash has written |
| RecordValues.SentValueWins | model.php:565-590 | a column sent directly receives the value sent |
| Model.LoadMethodName | model.php:881-893 | `load_<name>` dispatches to the association `<name>` |
| Model.LoadMethodNameNewline | model.php:881-893 | so does `load_<name>` followed by a newline |
| Model.NonLoadNameNotDispatched | model.php:881-893 | a name not starting with `load_` is not dispatched |
| Model.SortAsWritten | model.php:726-734 | every comparison raises BadMethodCallException for `id` |
| Model.ManyToManyObjectsStayNull | model.php:231-237 | loading a row into the caller instead of the new object leaves the new object all null |
| Model.Declare | model.php:77-125 | adds one name to one class's declarations and leaves the other classes alone |
| Model.DeclareKeepsBacked | model.php:77-125 | every declared association stays backed by a model of its kind |
| Model.CatalogFromRows | model.php:697-710 | the loop over `_colquery` rows builds CatalogOf of the rows |
| Model.Selected | model.php:249-252 | a many-to-one association keeps only the first row; the others keep all |
| Model.AssocNameNotColQuery | model.php:137-165 | an association's statement name never clashes with the catalog query's |
| Model.Registry.constructor | model.php:33-44 | no classes, lookups, columns or associations yet |
| Model.Registry.AssociateTable | model.php:56-61 | records the table for the class and the class for the table |
| Model.Registry.OneToMany | model.php:77-82 | records a one-to-many declaration; nothing else changes |
| Model.Registry.ManyToMany | model.php:99-104 | records a many-to-many declaration |
| Model.Registry.ManyToOne | model.php:120-125 | records a many-to-one declaration |
| Model.Registry.TableForClass | model.php:955-962 | a cached table is returned; otherwise the plural of the decamelized class, registered both ways; the only failure is AmbiguousInflection |
| Model.Registry.ClassForTableNeverAnswers | model.php:974-981 | as written, class_for_table never returns a registered class |
| Model.Registry.ClassForTable | model.php:974-981 | corrected: a registered class is returned, otherwise the camelized singular, registered both ways |
| Model.Registry.Columns | model.php:688-714 | a cached catalog is returned as is; otherwise the catalog query runs for the class's table and its rows become the cached catalog |
| Model.Registry.FetchColumns | model.php:693-710 | the cache-miss path of columns |
| Model.Registry.QueryCatalog | model.php:137-165 | the catalog query runs with the table name and its rows become a catalog |
| Model.Registry.StoreCatalog | model.php:697-710 | stores a catalog under the class |
| Model.Registry.Create | model.php:33-44 | a new record of a known class is fresh, with every column null in both hashes |
| Model.Registry.MakeLoaded | model.php:205-206 | a fresh record loaded from a row, or the unknown-column failure |
| Model.Registry.Populate | model.php:203-208 | one fresh loaded record per row, in order, iff every row names only known columns |
| Model.Registry.Instantiate | model.php:193-255 | no rows give no records; otherwise the class's catalog is fetched and the rows are populated |
| Model.Registry.QueryObjects | model.php:193-255 | the association query runs and its selected rows become fresh records |
| Model.Registry.Page | model.php:271-339 | the page name stands for the `SELECT … ORDER BY <primary keys> LIMIT $1 OFFSET $2` of the class's table (or for its earlier text); the page succeeds exactly when the catalog is known and every fetched row names only known columns, and then returns one loaded record per row fetched under that name with the count and offset |
| Model.Registry.PageOf | model.php:279-339 | the page statement runs and its rows are turned into records |
| Model.Record.constructor | model.php:33-44 | every column null in both hashes, no associations loaded |
| Model.Record.Clear | model.php:634-644 | both hashes become all-null |
| Model.Record.SetAllRow | model.php:604-624 | loading a row succeeds iff every key is a column; then clean equals dirty, each present column holds its coerced value and the rest are null; otherwise the fatal `Unknown column <key> for <table>` error |
| Model.Record.LoadField | model.php:608-621 | one step of that loop |
| Model.Record.SetAll | model.php:561-591 | clean is kept; success iff every written key is a column, otherwise the fatal unknown-column error; each column gets the coerced value of its last write, and the others keep their dirty values |
| Model.Record.SetEntry | model.php:565-590 | one step of that loop |
| Model.Record.SetColumn | model.php:855-867 | a non-column gives null and changes nothing; otherwise the coerced value is stored in dirty and returned |
| Model.Record.Load | model.php:351-410 | (corrected, see Findings) a rejected argument raises BadPrimaryKey; no row raises NoSuchRow naming the table and keys; otherwise the record is reloaded from the row |
| Model.Record.LoadByKeys | model.php:389-407 | the corrected load statement runs and its first row is loaded, or NoSuchRow |
| Model.Record.Update | model.php:445-501 | nothing changed sends nothing; otherwise the update statement runs and the returned row is loaded |
| Model.Record.RunAndReload | model.php:497-499 | runs a statement and loads its first row |
| Model.Record.Insert | model.php:511-548 | the insert statement runs and the returned row is loaded |
| Model.Record.Save | model.php:423-432 | a record whose first primary key is truthy in clean is updated; any other is inserted |
| Model.Record.LoadMany | model.php:193-240 | a one-to-many or (corrected) many-to-many association loads fresh records of the other class from the association query |
| Model.Record.LoadOne | model.php:241-255 | a many-to-one association loads the one record its foreign key names |
| Model.Record.LoadAssociation | model.php:179-257 | (corrected, see Findings) a cached association is returned unless forced; without an `id` column it raises BadColumn; otherwise the loaded result is cached under the name |
| Model.Record.LoadByKind | model.php:186-255 | (corrected, see Findings) dispatches on the declared kind |
| Model.Record.Call | model.php:881-893 | (corrected, see Findings) `load_<name>` for a declared association loads it, forced iff the first argument is truthy; any other name raises BadMethodCallException `Method <class>::<name> does not exist` and changes nothing |
| Model.Record.ManyToManyRowsAsWritten | model.php:231-237 | as written: the new objects stay all null and the caller holds the last row |
| Model.Record.ColumnValue | model.php:789-795 | the dirty value of a column, null for a non-column |
| Model.Record.Get | model.php:906-912 | the dirty value of a column; otherwise exactly the BadColumn of the table and the name, with its default message |
| Model.Record.Set | model.php:925-931 | stores the coerced value; BadColumn for a non-column, changing nothing |
| Model.Record.Display | model.php:831-840 | stringify of the column's dirty value; nothing for a non-column |
| Model.Record.Form | model.php:808-823 | formify of the column's dirty value against the comparison; nothing for a non-column |
| Model.Record.ColumnInspect | model.php:671-680 | the catalog's Column for that name; BadColumn otherwise |
| Tap.MessageSuffix | test/tap.php:54-73 | a truthy message is shown as ` - ` and its first line |
| Tap.Harness.constructor | test/tap.php:3-6 | no tests run and no plan |
| Tap.Harness.NoPlan | test/tap.php:8-11 | the plan becomes `'none'` |
| Tap.Harness.Plan | test/tap.php:13-19 | records the plan and writes the plan comment and the `1..n` line |
| Tap.Harness.Ok | test/tap.php:54-73 | counts one test and one pass or failure by truthiness, and writes its `ok`/`not ok` line |
| Tap.Harness.NotOk | test/tap.php:75-77 | the same with the condition negated |
| Tap.Harness.Is | test/tap.php:79-86 | passes iff the values are identical, counting one pass or one failure; a pass writes only its `ok` line; a failure writes its `not ok` line and the expected and actual values, or is fatal after the `not ok` line when a value is a Date; the plan is unchanged |
| Tap.Harness.IsNot | test/tap.php:88-95 | passes iff the values differ, counting one pass or one failure; a pass writes only its `ok` line; a failure writes its `not ok` line and the value it should not be, or is fatal after the `not ok` line when the value is a Date; the plan is unchanged |
| Tap.Harness.Finalize | test/tap.php:21-45 | a plan loosely equal to `'none'` exits 0; otherwise the exit status is the number of failures, and with no plan the summary line is written |
| Tap.ZeroPlanIsNoPlan | test/tap.php:21-45 | a plan of 0 counts as no plan, since `0 == 'none'` loosely |
| Tap.ParseContents | test/tap.php:129-171 | the summary is computed from the tally of the output's lines |
| Tap.TallyCountsTests | test/tap.php:129-171 | passes plus failures equal the number of test lines |
| Tap.NonTestLineIgnored | test/tap.php:129-171 | blank lines and comments do not change the tally |
| Tap.PlanLineSetsCount | test/tap.php:138-142 | an `a..b` line sets the expected count to b - a + 1 |

## Left out

- `Date->age` (date.php:84-94) reads the clock. It is not modelled.
- Dates.DateObject.constructor: takes integers, so the `(int)` casts of its arguments are not modelled.
- Columns.ProcessValue: the float cast for `double precision` and `numeric` (column.php:138-140) is not modelled. Such values keep the raw value, because floating point is outside the model.
- `pg_connect`, `pg_prepare`, `pg_execute` and `pg_fetch_*` are modelled as an oracle (`reachable`, `answer`). Server errors, transactions and concurrency are not modelled.
- `Database::quote_identifier` is an uninterpreted function `quote`. Its escaping is not modelled.
- The SQL text of `_colquery` (model.php:137-165) is kept as a constant. Only its statement name and the way its rows become a catalog are modelled.
- `error_log`, `echo` and `exit` are not modelled. The `$echo` argument of `form` is not modelled either: Form returns the text.
- Tap.Harness.Finalize: does not state the plan-mismatch and failure note lines it writes, only the exit status and the no-plan line.
- `notate`, `raises` and `raises_nothing` (test/tap.php:47-52, 97-127) are left out. They call arbitrary callbacks and catch exceptions by class name.
- `parse_contents` writes diagnostic `echo` lines. These are not modelled; only the summary it returns is.
- The shutdown hook `register_shutdown_function('finalize')` is not modelled.
- `page`'s custom-sort branch (model.php:285-310) is not modelled. It reuses `$order` as both a string and an array.
- Model.Record.LoadAssociation: does not restate what LoadByKind proves about the loaded records. LoadByKind states it.
- Catalogs.CompareIds: compares integer ids only, not PHP's loose `==`/`>` on mixed types.
- The Model constructor's `$pkeys` argument (model.php:40-42) is modelled as Model.Registry.Create followed by Model.Record.Load.
- Conninfo.ConnStringRoundTrip: holds only for values without `'` and without white space other than spaces. Any other value breaks the as-written string (see Findings).
- Database.Database.Connect: the read-back of its connection string is promised only for values that are non-empty and hold no `'` and no white space other than spaces, because the string it writes, like the code, does not quote the others (see Findings).
- Strings.CastInt, Php.IntCast, Statements.PageOffset and Tap.Step use unbounded integers: PHP's 64-bit saturation of `(int)` on long numerals and the overflow of `$page * $count` or `$to - $from` to float are not modelled. Strings.CastInt reads an optional sign and digits only: PHP 7.1 and later also read a fraction and an exponent, so `(int)"1e3"` is 1000 there.
- Php.LooseEq follows PHP 5/7's `==`: an integer against a string with no number in front compares with 0, so `0 == 'none'` holds (Tap.ZeroPlanIsNoPlan relies on it), which PHP 8 changed. Numbers in strings are read as exact decimals, so the rounding and overflow of PHP's float conversion are not modelled; a numeric string with trailing white space is not numeric, as in PHP 7.
- Inflection.Pluralize, Inflection.Singularize and Inflection.Suf match their `/…$/` patterns at the end of the string only, not also before a trailing newline as PCRE's `$` does. Nor do they follow PCRE's `.`, which does not match a newline: the branches that build the result from the groups of a `(.*?)…$` or `(.*)…$` match (inflection.php:311-324) drop what comes before the last newline, so `"a\ncity"` pluralizes to `cities` in the source and to `"a\ncities"` here; table and class names never hold a newline.
- Catalogs.Sort, Catalogs.LexLeq and Catalogs.ColumnNamesSorted order names byte by byte. PHP's `sort` compares two numeric strings as numbers; column names are identifiers, so this only matters for all-digit names.
- The exceptions' `$code` argument is not modelled; the code never passes one.
- lib.php, test.php, the sql_generator directory and the exceptions/*.php copies are not part of this model.

## Findings

| source | as written | input that shows it | evidently intended | confidence | as-written member | corrected member |
|---|---|---|---|---|---|---|
| database.php:24-34 | values are backslash-escaped and quoted only when they contain a space | a value with `'` and a space, such as `a' b`, or an empty host followed by `dbname=x` | every value quoted with `'` and `\` escaped, so libpq reads back the given parameters (Database.Database.Connect keeps the as-written string) | not executed | Conninfo.QuoteInValueRejected | Conninfo.QuotedConnStringRoundTrip |
| model.php:378-391 | the WHERE clause follows the argument's key order, under the fixed statement name `_load_<table>` | loading `[b => 2, a => 1]` after `[a => 1, b => 2]` reuses the prepared statement with the parameters swapped | parameters bound in primary-key order | not executed | Statements.LoadKeyOrderAsWritten | Statements.LoadStatementOrderFree |
| model.php:974-981 | class_for_table reads and writes the undeclared `$class_lookup` | any table registered by associate_table | the registered class is returned | not executed | Model.Registry.ClassForTableNeverAnswers | Model.Registry.ClassForTable |
| model.php:231-237 | many-to-many calls `$this->_set_all($row)` instead of loading the new object | any many-to-many association with one row | each new object loaded from its row | not executed | Model.Record.ManyToManyRowsAsWritten | Model.Record.LoadMany |
| model.php:726-734 | sort calls `$a->id()`, which `__call` refuses | any two records | compare the `id` column values | not executed | Model.SortAsWritten | Catalogs.CompareIds |
