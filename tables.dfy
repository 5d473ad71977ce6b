/**
 * Row-level operations of the ORM on one table of (user, email) rows, as the
 * mailbox handlers use them. A table is a sequence of rows in table order; the
 * code never enforces uniqueness, so a table is a multiset, not a set.
 */
module Tables {

  /** One row of the Inbox, Sent, Starred or Trash table: a user id and an email id. */
  datatype Row = Row(user: nat, email: int)

  /** How many rows of the table equal `x`. */
  function Count(rows: seq<Row>, x: Row): nat {
    multiset(rows)[x]
  }

  /** `filter(...).delete()`: every matching row goes, and every other row keeps its count. */
  function RemoveAll(rows: seq<Row>, x: Row): (r: seq<Row>)
    ensures Count(r, x) == 0
    ensures forall y :: y != x ==> Count(r, y) == Count(rows, y)
    ensures forall y :: y in r ==> y in rows
    ensures x !in rows ==> r == rows
  {
    if rows == [] then []
    else
      assert rows == [rows[0]] + rows[1..];
      if rows[0] == x then RemoveAll(rows[1..], x)
      else [rows[0]] + RemoveAll(rows[1..], x)
  }

  /** `get(...).delete()` once `get` has found the single matching row. */
  function RemoveOne(rows: seq<Row>, x: Row): (r: seq<Row>)
    requires x in rows
    ensures multiset(r) == multiset(rows) - multiset{x}
    ensures forall y :: y in r ==> y in rows
  {
    assert rows == [rows[0]] + rows[1..];
    if rows[0] == x then rows[1..]
    else [rows[0]] + RemoveOne(rows[1..], x)
  }

  /** Deleting every copy of a row that was just appended to a table without it gives the table back. */
  lemma {:induction false} RemoveAllUndoesAppend(rows: seq<Row>, x: Row)
    requires x !in rows
    ensures RemoveAll(rows + [x], x) == rows
  {
    if rows != [] {
      assert (rows + [x])[1..] == rows[1..] + [x];
      RemoveAllUndoesAppend(rows[1..], x);
    }
  }
}
