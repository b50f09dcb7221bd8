/**
 * The errors the record engine and the inflector raise. Each constructor keeps
 * its arguments and replaces a PHP-falsy message ("" or "0") with a default
 * message built from those arguments; a truthy message is kept as given.
 */
module Exceptions {
  import opened Php

  datatype Exception =
    | BadColumn(table: string, column: string, message: string)
    | BadPrimaryKey(table: string, column: string, message: string)
    | NoSuchRow(message: string)
    | AmbiguousInflection(func: string, original: string, inflected: string, existing: string, message: string)
    /** PHP's own BadMethodCallException, which Model::__call throws for a method it cannot dispatch. */
    | BadMethodCall(message: string)

  /**
   * How a failed operation ends: an exception the caller may catch, or a fatal
   * error (`trigger_error(..., E_USER_ERROR)`, a string cast of an object, a
   * method call on a non-object) that ends the script.
   */
  datatype Failure =
    | Raised(exception: Exception)
    | Fatal(reason: string)

  function BadColumnDefault(table: string, column: string): string
  {
    "Column " + table + "." + column + " does not exist."
  }

  function BadPrimaryKeyDefault(table: string, column: string): string
  {
    "Column " + column + " is not a primary key for " + table + "."
  }

  function AmbiguousDefault(func: string, original: string, inflected: string, existing: string): string
  {
    func + "(): Value " + inflected + " was calculated from " + original + ", but " + existing + " was found caached."
  }

  /** new BadColumnException($table, $column, $message). */
  function NewBadColumn(table: string, column: string, message: string): (e: Exception)
    ensures e.BadColumn? && e.table == table && e.column == column
    ensures StringTruthy(message) ==> e.message == message
    ensures !StringTruthy(message) ==> e.message == BadColumnDefault(table, column)
  {
    BadColumn(table, column, if StringTruthy(message) then message else BadColumnDefault(table, column))
  }

  /**
   * new BadPrimaryKeyException($table, $column, $message): its own default
   * message is chosen first, and the BadColumnException constructor it hands
   * over to then keeps that truthy message.
   */
  function NewBadPrimaryKey(table: string, column: string, message: string): (e: Exception)
    ensures e.BadPrimaryKey? && e.table == table && e.column == column
    ensures StringTruthy(message) ==> e.message == message
    ensures !StringTruthy(message) ==> e.message == BadPrimaryKeyDefault(table, column)
  {
    var m := if StringTruthy(message) then message else BadPrimaryKeyDefault(table, column);
    var parent := NewBadColumn(table, column, m);
    BadPrimaryKey(parent.table, parent.column, parent.message)
  }

  /** new NoSuchRowException($message): a plain runtime exception, no default message. */
  function NewNoSuchRow(message: string): (e: Exception)
    ensures e.NoSuchRow? && e.message == message
  {
    NoSuchRow(message)
  }

  /** new AmbiguousInflectionException($function, $original, $inflected, $existing, $message). */
  function NewAmbiguousInflection(func: string, original: string, inflected: string, existing: string, message: string): (e: Exception)
    ensures e.AmbiguousInflection?
    ensures e.func == func && e.original == original && e.inflected == inflected && e.existing == existing
    ensures StringTruthy(message) ==> e.message == message
    ensures !StringTruthy(message) ==> e.message == AmbiguousDefault(func, original, inflected, existing)
  {
    AmbiguousInflection(func, original, inflected, existing,
      if StringTruthy(message) then message else AmbiguousDefault(func, original, inflected, existing))
  }

  /** `$e instanceof BadColumnException`: a BadPrimaryKeyException is one too. */
  predicate IsBadColumn(e: Exception)
  {
    e.BadColumn? || e.BadPrimaryKey?
  }

  /** getTable(), defined on every BadColumnException. */
  function GetTable(e: Exception): string
    requires IsBadColumn(e)
  {
    e.table
  }

  /** getColumn(), defined on every BadColumnException. */
  function GetColumn(e: Exception): string
    requires IsBadColumn(e)
  {
    e.column
  }

  /** The default messages are never falsy, so every exception built by these constructors carries a truthy message. */
  lemma DefaultMessagesTruthy(table: string, column: string, message: string)
    ensures StringTruthy(NewBadColumn(table, column, message).message)
    ensures StringTruthy(NewBadPrimaryKey(table, column, message).message)
  {
    assert BadColumnDefault(table, column)[0] == 'C';
    assert BadPrimaryKeyDefault(table, column)[0] == 'C';
  }

  lemma AmbiguousMessageTruthy(func: string, original: string, inflected: string, existing: string, message: string)
    ensures StringTruthy(NewAmbiguousInflection(func, original, inflected, existing, message).message)
  {
    var d := AmbiguousDefault(func, original, inflected, existing);
    assert |d| > 2;
  }

  /**
   * Rebuilding an exception from its own accessors and message gives the same
   * exception back, and getTable()/getColumn() return what the constructor was
   * given: the default-message rule is idempotent.
   */
  lemma {:induction false} BadColumnRebuild(table: string, column: string, message: string)
    ensures var e := NewBadColumn(table, column, message);
      IsBadColumn(e) && GetTable(e) == table && GetColumn(e) == column &&
      NewBadColumn(GetTable(e), GetColumn(e), e.message) == e
    ensures var e := NewBadPrimaryKey(table, column, message);
      IsBadColumn(e) && GetTable(e) == table && GetColumn(e) == column &&
      NewBadPrimaryKey(GetTable(e), GetColumn(e), e.message) == e
  {
    DefaultMessagesTruthy(table, column, message);
  }

  /** A BadPrimaryKeyException and a BadColumnException for the same column differ only in their default message. */
  lemma {:induction false} PrimaryKeyMessageDiffers(table: string, column: string)
    ensures NewBadPrimaryKey(table, column, "").message != NewBadColumn(table, column, "").message
  {
    var a := NewBadPrimaryKey(table, column, "").message;
    var b := NewBadColumn(table, column, "").message;
    assert a == "Column " + column + " is not a primary key for " + table + ".";
    assert b == "Column " + table + "." + column + " does not exist.";
    assert |a| == |column| + |table| + 34;
    assert |b| == |column| + |table| + 24;
  }
}
