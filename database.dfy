/**
  The two SQLite tables of the application, kept in memory by one object.

  - `users` is the `users` table: username (primary key) to password digest.
  - `rows` is the `financial_data` table, in rowid order.
  - `lastId` is the table's AUTOINCREMENT counter (its `sqlite_sequence`
    entry): the largest id ever handed out, deleted or not.

  The password digest (SHA-256 in hex) is a parameter of the store: every
  contract here holds whatever deterministic digest function is supplied.
*/
module Database {
  import opened Wrappers
  import opened Records

  /** The errors a write raises; the application does not catch them. */
  datatype StoreError =
    | UniqueViolation  // a second row for a username that is the primary key
    | Full             // AUTOINCREMENT has already handed out the largest rowid

  /** The largest rowid SQLite hands out (2^63 - 1). */
  const MAX_ROWID: int := 0x7fff_ffff_ffff_ffff

  /** verify_password's decision: a digest is stored for username and it is the digest of password. */
  predicate Authenticates(users: map<string, string>, hash: string -> string, username: string, password: string)
    ensures Authenticates(users, hash, username, password) ==> username in users
  {
    username in users && users[username] == hash(password)
  }

  /**
    Registering a new username makes exactly that username accept the
    password (and any password with the same digest); every other
    username accepts what it accepted before.
  */
  lemma AuthenticatesAfterRegister(
    users: map<string, string>, hash: string -> string, username: string, password: string,
    who: string, attempt: string)
    requires username !in users
    ensures Authenticates(users[username := hash(password)], hash, who, attempt)
        <==> if who == username then hash(attempt) == hash(password)
             else Authenticates(users, hash, who, attempt)
  {
  }

  class Store {
    const hashPassword: string -> string
    var users: map<string, string>
    var rows: seq<Row>
    var lastId: int
    /** Every id the AUTOINCREMENT counter has handed out, including those of deleted rows. */
    ghost var issued: set<int>

    ghost predicate Valid()
      reads this
    {
      Consistent(lastId, issued, rows)
    }

    /** A fresh database file: both tables exist and are empty. */
    constructor (hashPassword: string -> string)
      ensures Valid()
      ensures this.hashPassword == hashPassword
      ensures users == map[] && rows == [] && lastId == 0 && issued == {}
    {
      this.hashPassword := hashPassword;
      users := map[];
      rows := [];
      lastId := 0;
      issued := {};
    }

    /** register_user: stores the digest of the password, never the password; a taken username is refused. */
    method RegisterUser(username: string, password: string) returns (outcome: Outcome<StoreError>)
      requires Valid()
      modifies this
      ensures Valid()
      ensures outcome == if username in old(users) then Fail(UniqueViolation) else Pass
      ensures users == if outcome.Pass? then old(users)[username := hashPassword(password)] else old(users)
      ensures rows == old(rows) && lastId == old(lastId) && issued == old(issued)
    {
      if username in users {
        outcome := Fail(UniqueViolation);
      } else {
        users := users[username := hashPassword(password)];
        outcome := Pass;
      }
    }

    /** verify_password: true exactly when a digest is stored for username and it equals the password's digest. */
    method VerifyPassword(username: string, password: string) returns (ok: bool)
      ensures ok == Authenticates(users, hashPassword, username, password)
      ensures username !in users ==> !ok
    {
      if username in users {
        var stored := users[username];
        ok := stored == hashPassword(password);
      } else {
        ok := false;
      }
    }

    /** get_financial_data: exactly the records owned by username, in increasing id order. */
    method GetFinancialData(username: string) returns (records: seq<Record>)
      requires Valid()
      ensures records == Select(rows, username)
      ensures forall r :: r in records <==> Row(username, r) in rows
      ensures Ascending(records)
    {
      records := Select(rows, username);
      SelectKeepsOrder(rows, username);
    }

    /**
      add_financial_data: appends one row under a new id, one more than the
      largest id ever handed out; fails once the largest rowid is used up.
    */
    method AddFinancialData(
      username: string, date: string, description: string, amount: int,
      kind: string, paymentMethod: string, installments: int, necessity: string)
      returns (outcome: Outcome<StoreError>)
      requires Valid()
      modifies this
      ensures Valid()
      ensures outcome == if old(lastId) == MAX_ROWID then Fail(Full) else Pass
      ensures outcome.Pass? ==>
        && lastId == old(lastId) + 1
        && (forall id :: id in old(issued) ==> id < lastId)
        && issued == old(issued) + {lastId}
        && rows == old(rows) + [Row(username, Record(lastId, date, description, amount, kind, paymentMethod, installments, necessity))]
      ensures outcome.Fail? ==> rows == old(rows) && lastId == old(lastId) && issued == old(issued)
      ensures users == old(users)
    {
      if lastId == MAX_ROWID {
        outcome := Fail(Full);
        return;
      }
      var id := lastId + 1;
      var record := Record(id, date, description, amount, kind, paymentMethod, installments, necessity);
      rows := rows + [Row(username, record)];
      lastId := id;
      issued := issued + {id};
      outcome := Pass;
    }

    /**
      remove_financial_data: deletes, one id after the other, every row
      whose id is listed, whoever owns it. An empty list deletes nothing
      and raises the "nothing selected" warning instead.
    */
    method RemoveFinancialData(ids: seq<int>) returns (warned: bool)
      requires Valid()
      modifies this
      ensures Valid()
      ensures warned <==> ids == []
      ensures rows == Without(old(rows), ids)
      ensures users == old(users) && lastId == old(lastId) && issued == old(issued)
    {
      warned := ids == [];
      ghost var start := rows;
      if warned {
        WithoutAbsentIds(rows, ids);
      } else {
        // The deletes run one after the other inside one transaction; the
        // table shows their result once it is committed.
        rows := DeleteEach(rows, ids);
      }
      WithoutKeepsConsistent(lastId, issued, start, ids);
    }
  }

  /** The `executemany` loop: one `DELETE ... WHERE id = ?` per listed id, in list order. */
  method DeleteEach(rows: seq<Row>, ids: seq<int>) returns (remaining: seq<Row>)
    ensures remaining == Without(rows, ids)
  {
    remaining := rows;
    WithoutAbsentIds(rows, []);
    var i := 0;
    while i < |ids|
      invariant 0 <= i <= |ids|
      invariant remaining == Without(rows, ids[..i])
    {
      DeletePrefixStep(rows, ids, i);
      remaining := DeleteId(remaining, ids[i]);
      i := i + 1;
    }
    assert ids[..i] == ids;
  }

  /** One more turn of the delete loop deletes one more id of the list. */
  lemma DeletePrefixStep(rows: seq<Row>, ids: seq<int>, i: nat)
    requires i < |ids|
    ensures DeleteId(Without(rows, ids[..i]), ids[i]) == Without(rows, ids[..i + 1])
  {
    DeleteIdStep(rows, ids[..i], ids[i]);
    assert ids[..i + 1] == ids[..i] + [ids[i]];
  }

  /**
    The invariant of the store: the counter is within the rowid range, every
    id handed out lies between 1 and the counter, every row carries such an
    id, and ids increase along the table.
  */
  ghost predicate Consistent(lastId: int, issued: set<int>, rows: seq<Row>) {
    && 0 <= lastId <= MAX_ROWID
    && (forall id :: id in issued ==> 1 <= id <= lastId)
    && IdsIssued(rows, issued)
    && IdsIncreasing(rows)
  }

  /** Deleting rows keeps the store consistent. */
  lemma WithoutKeepsConsistent(lastId: int, issued: set<int>, rows: seq<Row>, ids: seq<int>)
    requires Consistent(lastId, issued, rows)
    ensures Consistent(lastId, issued, Without(rows, ids))
  {
    WithoutKeepsOrder(rows, ids);
    WithoutKeepsIssued(rows, ids, issued);
  }

  /** Every row carries an id the counter has handed out. */
  ghost predicate IdsIssued(rows: seq<Row>, issued: set<int>) {
    forall i :: 0 <= i < |rows| ==> rows[i].record.id in issued
  }

  /** Deleting rows keeps every remaining id one that was handed out. */
  lemma WithoutKeepsIssued(rows: seq<Row>, ids: seq<int>, issued: set<int>)
    requires IdsIssued(rows, issued)
    ensures IdsIssued(Without(rows, ids), issued)
  {
    var rest := Without(rows, ids);
    WithoutMembers(rows, ids);
    forall k | 0 <= k < |rest| ensures rest[k].record.id in issued {
      assert rest[k] in rows;
      var j :| 0 <= j < |rows| && rows[j] == rest[k];
    }
  }

  /** Ids strictly increase along a list of records. */
  ghost predicate Ascending(records: seq<Record>) {
    forall i, j :: 0 <= i < j < |records| ==> records[i].id < records[j].id
  }

  /** A user's records come out in increasing id order when the table is in increasing id order. */
  lemma {:induction false} SelectKeepsOrder(rows: seq<Row>, username: string)
    requires IdsIncreasing(rows)
    ensures Ascending(Select(rows, username))
  {
    if rows != [] {
      SelectKeepsOrder(rows[1..], username);
      var rest := Select(rows[1..], username);
      var records := Select(rows, username);
      if rows[0].username == username {
        assert records == [rows[0].record] + rest;
        forall j | 0 <= j < |rest| ensures rows[0].record.id < rest[j].id {
          assert Row(username, rest[j]) in rows[1..];
          var k :| 0 <= k < |rows[1..]| && rows[1..][k] == Row(username, rest[j]);
          assert rows[k + 1].record == rest[j];
        }
        forall i, j | 0 <= i < j < |records| ensures records[i].id < records[j].id {
          if i > 0 {
            assert records[i] == rest[i - 1] && records[j] == rest[j - 1];
          } else {
            assert records[j] == rest[j - 1];
          }
        }
      } else {
        assert records == rest;
      }
    }
  }

  /** Registering the same username twice: the second attempt fails and the first password still works. */
  method RegisterTwice(hash: string -> string, username: string, first: string, second: string)
    returns (store: Store, again: Outcome<StoreError>, firstWorks: bool)
    ensures again == Fail(UniqueViolation)
    ensures firstWorks
  {
    store := new Store(hash);
    var outcome := store.RegisterUser(username, first);
    again := store.RegisterUser(username, second);
    firstWorks := store.VerifyPassword(username, first);
  }
}
