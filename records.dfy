/**
  The rows of the `financial_data` table and the queries over them, as
  values. The `Database` module keeps these rows in a class and updates
  them in place; the functions here say what each statement computes.

  Amounts are integer centavos. The text columns keep the source's free
  strings, so a row whose type is neither "Receita" nor "Despesa" can be
  stored, as the table allows.
*/
module Records {

  /** Labels the application writes into the text columns and later filters on. */
  const INCOME: string := "Receita"
  const EXPENSE: string := "Despesa"
  const CREDIT_CARD: string := "Cartão de Crédito"
  const NON_ESSENTIAL: string := "Não essencial"

  /** One row as `get_financial_data` returns it: every column except the owner. */
  datatype Record = Record(
    id: int,
    date: string,
    description: string,
    amount: int,
    kind: string,
    paymentMethod: string,
    installments: int,
    necessity: string)

  /** One stored row of `financial_data`: its owner and the rest of its columns. */
  datatype Row = Row(username: string, record: Record)

  /** Keeps the elements of s that satisfy keep, in their original order. */
  function Filter<T(!new)>(s: seq<T>, keep: T -> bool): (r: seq<T>)
    ensures |r| <= |s|
    ensures forall x :: x in r <==> x in s && keep(x)
  {
    if s == [] then []
    else
      assert forall x :: x in s <==> x == s[0] || x in s[1..];
      (if keep(s[0]) then [s[0]] else []) + Filter(s[1..], keep)
  }

  /** Every kept element occurs in the result exactly as often as in the input. */
  lemma {:induction false} FilterMultiset<T(!new)>(s: seq<T>, keep: T -> bool)
    ensures forall x :: multiset(Filter(s, keep))[x] == if keep(x) then multiset(s)[x] else 0
  {
    if s != [] {
      FilterMultiset(s[1..], keep);
      assert s == [s[0]] + s[1..];
    }
  }

  /** Filtering a concatenation filters each part: the relative order of kept elements is preserved. */
  lemma {:induction false} FilterAppend<T(!new)>(a: seq<T>, b: seq<T>, keep: T -> bool)
    ensures Filter(a + b, keep) == Filter(a, keep) + Filter(b, keep)
  {
    if a != [] {
      assert (a + b)[0] == a[0] && (a + b)[1..] == a[1..] + b;
      FilterAppend(a[1..], b, keep);
      var head := if keep(a[0]) then [a[0]] else [];
      assert Filter(a + b, keep) == head + Filter(a[1..] + b, keep);
      assert Filter(a, keep) == head + Filter(a[1..], keep);
    } else {
      assert a + b == b;
    }
  }

  /** `SELECT ... FROM financial_data WHERE username = ?`: the records of one owner, in table order. */
  function Select(rows: seq<Row>, username: string): (records: seq<Record>)
    ensures forall r :: r in records <==> Row(username, r) in rows
  {
    if rows == [] then []
    else
      assert forall x :: x in rows <==> x == rows[0] || x in rows[1..];
      (if rows[0].username == username then [rows[0].record] else []) + Select(rows[1..], username)
  }

  lemma {:induction false} SelectAppend(a: seq<Row>, b: seq<Row>, username: string)
    ensures Select(a + b, username) == Select(a, username) + Select(b, username)
  {
    if a != [] {
      assert (a + b)[0] == a[0] && (a + b)[1..] == a[1..] + b;
      SelectAppend(a[1..], b, username);
      var head := if a[0].username == username then [a[0].record] else [];
      assert Select(a + b, username) == head + Select(a[1..] + b, username);
      assert Select(a, username) == head + Select(a[1..], username);
    } else {
      assert a + b == b;
    }
  }

  /** Inserting a row and listing its owner's records gives the old list with the new record, unchanged, at the end. */
  lemma InsertThenSelect(rows: seq<Row>, username: string, record: Record)
    ensures Select(rows + [Row(username, record)], username) == Select(rows, username) + [record]
  {
    SelectAppend(rows, [Row(username, record)], username);
    assert [Row(username, record)][1..] == [];
  }

  /** Inserting a row leaves every other user's listing as it was. */
  lemma InsertLeavesOthers(rows: seq<Row>, username: string, record: Record, other: string)
    requires other != username
    ensures Select(rows + [Row(username, record)], other) == Select(rows, other)
  {
    SelectAppend(rows, [Row(username, record)], other);
    assert [Row(username, record)][1..] == [];
  }

  /** `DELETE FROM financial_data WHERE id = ?` for one id. */
  function DeleteId(rows: seq<Row>, id: int): (r: seq<Row>)
    ensures |r| <= |rows|
    ensures forall k :: 0 <= k < |r| ==> r[k].record.id != id
  {
    if rows == [] then []
    else (if rows[0].record.id == id then [] else [rows[0]]) + DeleteId(rows[1..], id)
  }

  /** The table after deleting every id in ids: exactly the rows whose id is not listed, in their order. */
  function Without(rows: seq<Row>, ids: seq<int>): (r: seq<Row>)
    ensures |r| <= |rows|
  {
    if rows == [] then []
    else (if rows[0].record.id in ids then [] else [rows[0]]) + Without(rows[1..], ids)
  }

  /** A row survives the batch delete exactly when it was in the table and its id is not listed. */
  lemma {:induction false} WithoutMembers(rows: seq<Row>, ids: seq<int>)
    ensures forall row :: row in Without(rows, ids) <==> row in rows && row.record.id !in ids
  {
    if rows != [] {
      WithoutMembers(rows[1..], ids);
      assert forall x :: x in rows <==> x == rows[0] || x in rows[1..];
    }
  }

  /** Deleting one more id after a batch is the batch extended by that id; this is the step of the delete loop. */
  lemma {:induction false} DeleteIdStep(rows: seq<Row>, ids: seq<int>, id: int)
    ensures DeleteId(Without(rows, ids), id) == Without(rows, ids + [id])
  {
    if rows != [] {
      DeleteIdStep(rows[1..], ids, id);
      var head := if rows[0].record.id in ids then [] else [rows[0]];
      assert Without(rows, ids) == head + Without(rows[1..], ids);
      DeleteIdAppend(head, Without(rows[1..], ids), id);
    }
  }

  lemma {:induction false} DeleteIdAppend(a: seq<Row>, b: seq<Row>, id: int)
    ensures DeleteId(a + b, id) == DeleteId(a, id) + DeleteId(b, id)
  {
    if a != [] {
      assert (a + b)[0] == a[0] && (a + b)[1..] == a[1..] + b;
      DeleteIdAppend(a[1..], b, id);
      var head := if a[0].record.id == id then [] else [a[0]];
      assert DeleteId(a + b, id) == head + DeleteId(a[1..] + b, id);
      assert DeleteId(a, id) == head + DeleteId(a[1..], id);
    } else {
      assert a + b == b;
    }
  }

  /** Deleting ids no row carries changes nothing; in particular an empty batch changes nothing. */
  lemma {:induction false} WithoutAbsentIds(rows: seq<Row>, ids: seq<int>)
    requires forall i :: 0 <= i < |rows| ==> rows[i].record.id !in ids
    ensures Without(rows, ids) == rows
  {
    if rows != [] {
      WithoutAbsentIds(rows[1..], ids);
    }
  }

  /** After a batch delete no listing shows a deleted id, and every other record of the user is still listed. */
  lemma DeleteThenSelect(rows: seq<Row>, ids: seq<int>, username: string)
    ensures forall r :: r in Select(Without(rows, ids), username) <==> r in Select(rows, username) && r.id !in ids
  {
    WithoutMembers(rows, ids);
  }

  /** Ids strictly increase along the table; with AUTOINCREMENT ids this is insertion order. */
  ghost predicate IdsIncreasing(rows: seq<Row>) {
    forall i, j :: 0 <= i < j < |rows| ==> rows[i].record.id < rows[j].record.id
  }

  /** Deleting rows keeps the ids increasing: what is left is a subsequence of the table. */
  lemma {:induction false} WithoutKeepsOrder(rows: seq<Row>, ids: seq<int>)
    requires IdsIncreasing(rows)
    ensures IdsIncreasing(Without(rows, ids))
  {
    if rows != [] {
      WithoutKeepsOrder(rows[1..], ids);
      var rest := Without(rows[1..], ids);
      WithoutMembers(rows[1..], ids);
      forall j | 0 <= j < |rest| ensures rows[0].record.id < rest[j].record.id {
        assert rest[j] in rows[1..];
        var k :| 0 <= k < |rows[1..]| && rows[1..][k] == rest[j];
        assert rows[k + 1] == rest[j];
      }
    }
  }
}
