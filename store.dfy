/** The part of the store client the POST handlers rely on: a table of rows,
    a lookup by one column finished with `.single()`, and a one-row insert.
    Each call is one round trip, counted so that "no store access" can be
    stated. */
module Store {
  import opened Common

  /** The rows whose column `key` equals k, in table order (`.eq(column, k)`). */
  function Matching<T>(rows: seq<T>, key: T -> string, k: string): (ms: seq<T>)
    ensures |ms| <= |rows|
  {
    if |rows| == 0 then []
    else (if key(rows[0]) == k then [rows[0]] else []) + Matching(rows[1..], key, k)
  }

  /** `.single()`: the row when exactly one row matches. With none or with
      several the query reports an error; the handlers read only `data`,
      so either way they see no row. */
  function SingleBy<T>(rows: seq<T>, key: T -> string, k: string): (found: Option<T>)
    ensures found.Some? ==> found.value in rows && key(found.value) == k
  {
    var ms := Matching(rows, key, k);
    MatchingExactly(rows, key, k);
    if |ms| == 1 then
      assert ms[0] in ms;
      Some(ms[0])
    else None
  }

  /** No two rows share a value of column `key`. */
  predicate UniqueBy<T>(rows: seq<T>, key: T -> string) {
    forall i, j :: 0 <= i < j < |rows| ==> key(rows[i]) != key(rows[j])
  }

  /** The matching rows are exactly the rows with that value. */
  lemma {:induction false} MatchingExactly<T>(rows: seq<T>, key: T -> string, k: string)
    ensures forall i :: 0 <= i < |rows| && key(rows[i]) == k ==> rows[i] in Matching(rows, key, k)
    ensures forall x :: x in Matching(rows, key, k) ==> x in rows && key(x) == k
  {
    if |rows| > 0 {
      MatchingExactly(rows[1..], key, k);
      forall i | 0 < i < |rows| && key(rows[i]) == k ensures rows[i] in Matching(rows, key, k) {
        assert rows[i] == rows[1..][i - 1];
      }
    }
  }

  /** Two rows with the value give at least two matches. */
  lemma {:induction false} MatchingTwo<T>(rows: seq<T>, key: T -> string, k: string, i: nat, j: nat)
    requires i < j < |rows| && key(rows[i]) == k && key(rows[j]) == k
    ensures |Matching(rows, key, k)| >= 2
  {
    if i == 0 {
      MatchingExactly(rows[1..], key, k);
      assert rows[j] == rows[1..][j - 1];
      assert rows[j] in Matching(rows[1..], key, k);
    } else {
      MatchingTwo(rows[1..], key, k, i - 1, j - 1);
    }
  }

  lemma {:induction false} MatchingNone<T>(rows: seq<T>, key: T -> string, k: string)
    requires forall j :: 0 <= j < |rows| ==> key(rows[j]) != k
    ensures Matching(rows, key, k) == []
  {
    if |rows| > 0 {
      MatchingNone(rows[1..], key, k);
    }
  }

  /** With one row holding the value, that row is the only match. */
  lemma {:induction false} MatchingOne<T>(rows: seq<T>, key: T -> string, k: string, i: nat)
    requires i < |rows| && key(rows[i]) == k
    requires forall j :: 0 <= j < |rows| && j != i ==> key(rows[j]) != k
    ensures Matching(rows, key, k) == [rows[i]]
  {
    if i == 0 {
      forall j | 0 <= j < |rows| - 1 ensures key(rows[1..][j]) != k {
        assert rows[1..][j] == rows[j + 1];
      }
      MatchingNone(rows[1..], key, k);
    } else {
      MatchingOne(rows[1..], key, k, i - 1);
    }
  }

  /** The lookup finds a row exactly when one row, and only one, holds the
      value; the row it finds is that one. */
  lemma SingleByFindsTheOnlyRow<T>(rows: seq<T>, key: T -> string, k: string)
    ensures SingleBy(rows, key, k).Some? <==>
            exists i :: 0 <= i < |rows| && key(rows[i]) == k &&
                        forall j :: 0 <= j < |rows| && key(rows[j]) == k ==> j == i
    ensures forall i :: 0 <= i < |rows| && key(rows[i]) == k &&
                        (forall j :: 0 <= j < |rows| && key(rows[j]) == k ==> j == i) ==>
                        SingleBy(rows, key, k) == Some(rows[i])
  {
    forall i | 0 <= i < |rows| && key(rows[i]) == k &&
               (forall j :: 0 <= j < |rows| && key(rows[j]) == k ==> j == i)
      ensures SingleBy(rows, key, k) == Some(rows[i])
    {
      MatchingOne(rows, key, k, i);
    }
    if SingleBy(rows, key, k).Some? {
      var x := Matching(rows, key, k)[0];
      assert x in Matching(rows, key, k);
      MatchingExactly(rows, key, k);
      var i :| 0 <= i < |rows| && rows[i] == x;
      forall j | 0 <= j < |rows| && key(rows[j]) == k ensures j == i {
        if j < i {
          MatchingTwo(rows, key, k, j, i);
        } else if i < j {
          MatchingTwo(rows, key, k, i, j);
        }
      }
    }
  }

  /** With unique values, the lookup misses only when no row holds the value. */
  lemma UniqueLookupMisses<T>(rows: seq<T>, key: T -> string, k: string)
    requires UniqueBy(rows, key) && SingleBy(rows, key, k).None?
    ensures forall i :: 0 <= i < |rows| ==> key(rows[i]) != k
  {
    SingleByFindsTheOnlyRow(rows, key, k);
  }

  /** Inserting a row whose value the lookup did not find keeps the column
      unique. */
  lemma InsertAfterMissKeepsUnique<T>(rows: seq<T>, key: T -> string, x: T)
    requires UniqueBy(rows, key) && SingleBy(rows, key, key(x)).None?
    ensures UniqueBy(rows + [x], key)
  {
    UniqueLookupMisses(rows, key, key(x));
  }

  /** A value already held by two rows is not found: the check lets a third
      row with it through. */
  lemma SharedValueIsNotFound<T>(rows: seq<T>, key: T -> string, i: nat, j: nat)
    requires i < j < |rows| && key(rows[i]) == key(rows[j])
    ensures SingleBy(rows, key, key(rows[i])).None?
  {
    MatchingTwo(rows, key, key(rows[i]), i, j);
  }

  /** Inserting a row whose value is already held breaks uniqueness, which
      is what happens when the lookup fails and its error is discarded. */
  lemma InsertOfHeldValueBreaksUnique<T>(rows: seq<T>, key: T -> string, x: T, i: nat)
    requires i < |rows| && key(rows[i]) == key(x)
    ensures !UniqueBy(rows + [x], key)
  {
    assert (rows + [x])[i] == rows[i] && (rows + [x])[|rows|] == x;
  }

  /** One table of the store. */
  class Table<T> {
    var rows: seq<T>
    var calls: nat

    constructor (rows: seq<T>)
      ensures this.rows == rows && calls == 0
    {
      this.rows := rows;
      calls := 0;
    }

    /** `.select(...).eq(column, k).single()`; a store fault reads as no row. */
    method SelectSingle(key: T -> string, k: string, fault: Fault) returns (found: Option<T>)
      modifies this
      ensures rows == old(rows) && calls == old(calls) + 1
      ensures found == if fault.Some? then None else SingleBy(rows, key, k)
    {
      calls := calls + 1;
      found := if fault.Some? then None else SingleBy(rows, key, k);
    }

    /** `.insert([x]).select().single()`: the inserted row comes back; on a
        fault nothing is inserted. */
    method InsertSingle(x: T, fault: Fault) returns (result: Result<T>)
      modifies this
      ensures calls == old(calls) + 1
      ensures fault.None? ==> rows == old(rows) + [x] && result == Ok(x)
      ensures fault.Some? ==> rows == old(rows) && result == Err(fault.value)
    {
      calls := calls + 1;
      if fault.None? {
        rows := rows + [x];
        result := Ok(x);
      } else {
        result := Err(fault.value);
      }
    }
  }
}
