/**
  Rows as the repositories' queries return them, and the order they come back in.

  A query such as `books.load(conn)` or `books.filter(id.eq_any(ids)).load(conn)`
  scans a table in ascending id order and yields each matching row once. `Listing`
  models that scan over a keyed table; `ListsExactly` says, independently of how
  the list is computed, what a correct answer is.
*/
module Rows {

  /** A table row together with its id column, as the source's record structs carry it. */
  datatype Row<T> = Row(id: int, fields: T)

  /** `rows` lists exactly the rows of `table` whose id is in `keep`, in strictly ascending id order. */
  ghost predicate ListsExactly<T>(rows: seq<Row<T>>, table: map<int, T>, keep: set<int>)
  {
    && (forall i :: 0 <= i < |rows| ==> rows[i].id in keep && rows[i].id in table && rows[i].fields == table[rows[i].id])
    && (forall i, j :: 0 <= i < j < |rows| ==> rows[i].id < rows[j].id)
    && (forall k :: k in keep && k in table ==> Row(k, table[k]) in rows)
  }

  /** The rows of `table` with an id in `keep` and in `lo..hi`, scanned in ascending id order. */
  function Listing<T>(table: map<int, T>, keep: set<int>, lo: int, hi: int): (rows: seq<Row<T>>)
    decreases hi - lo
    ensures forall i :: 0 <= i < |rows| ==>
      lo <= rows[i].id <= hi && rows[i].id in keep && rows[i].id in table && rows[i].fields == table[rows[i].id]
    ensures forall i, j :: 0 <= i < j < |rows| ==> rows[i].id < rows[j].id
    ensures forall k :: k in keep && k in table && lo <= k <= hi ==> Row(k, table[k]) in rows
  {
    if hi < lo then []
    else
      var rest := Listing(table, keep, lo + 1, hi);
      if lo in keep && lo in table then [Row(lo, table[lo])] + rest else rest
  }

  /** When every id of the table lies in `lo..hi`, the scan answers the query exactly. */
  lemma ListingIsExact<T>(table: map<int, T>, keep: set<int>, lo: int, hi: int)
    requires forall k :: k in table ==> lo <= k <= hi
    ensures ListsExactly(Listing(table, keep, lo, hi), table, keep)
  {
  }

  /** A correct answer lists the same rows as membership in the table says. */
  lemma ListsExactlyMembers<T>(rows: seq<Row<T>>, table: map<int, T>, keep: set<int>)
    requires ListsExactly(rows, table, keep)
    ensures forall r: Row<T> :: r in rows <==> r.id in keep && r.id in table && r.fields == table[r.id]
  {
  }

  /** There is only one correct answer: the specification fixes the list, order included. */
  lemma {:induction false} ListingUnique<T>(a: seq<Row<T>>, b: seq<Row<T>>, table: map<int, T>, keep: set<int>)
    requires ListsExactly(a, table, keep) && ListsExactly(b, table, keep)
    ensures a == b
    decreases |a| + |b|
  {
    EmptyExactlyWhenNoMatch(a, table, keep);
    EmptyExactlyWhenNoMatch(b, table, keep);
    if a != [] {
      assert a[0] == b[0] by {
        var i :| 0 <= i < |a| && a[i] == Row(b[0].id, table[b[0].id]);
        var j :| 0 <= j < |b| && b[j] == Row(a[0].id, table[a[0].id]);
        assert a[0].id <= a[i].id;
        assert b[0].id <= b[j].id;
      }
      var rest := keep - {a[0].id};
      HeadRemoved(a, table, keep);
      HeadRemoved(b, table, keep);
      ListingUnique(a[1..], b[1..], table, rest);
      assert a == [a[0]] + a[1..] && b == [b[0]] + b[1..];
    }
  }

  /** A correct answer is empty exactly when no row of the table has an id in `keep`. */
  lemma EmptyExactlyWhenNoMatch<T>(rows: seq<Row<T>>, table: map<int, T>, keep: set<int>)
    requires ListsExactly(rows, table, keep)
    ensures rows == [] <==> (forall k :: k in keep ==> k !in table)
  {
    if rows != [] {
      assert rows[0].id in keep && rows[0].id in table;
    }
  }

  /** Dropping the first row of a correct answer answers the query without that row's id. */
  lemma HeadRemoved<T>(a: seq<Row<T>>, table: map<int, T>, keep: set<int>)
    requires a != [] && ListsExactly(a, table, keep)
    ensures ListsExactly(a[1..], table, keep - {a[0].id})
  {
    forall k | k in keep - {a[0].id} && k in table
      ensures Row(k, table[k]) in a[1..]
    {
      var n :| 0 <= n < |a| && a[n] == Row(k, table[k]);
      assert a[1..][n - 1] == a[n];
    }
    forall n | 0 <= n < |a[1..]| ensures a[1..][n].id != a[0].id {
      assert a[0].id < a[n + 1].id;
    }
  }
}
