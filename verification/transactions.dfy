/**
  The transactions table as an abstract in-memory relation, shared by the three store
  implementations: `TransactionModel` (src/db/transaction/index.ts), the free functions of
  src/db/queries.ts (the same drizzle queries), and src/db/sqlite.ts (the same SQL written
  by hand). Rows are kept in insertion order; `nextId` is SQLite's AUTOINCREMENT counter.
 */
module Transactions {
  import opened Options
  import Sorting

  datatype Row = Row(
    id: nat,
    phone: string,
    amount: real,
    item: string,
    category: string,
    store: Option<string>,
    createdAt: nat)

  /** The columns a caller supplies; `id` and `created_at` are assigned on insertion. */
  datatype NewRow = NewRow(phone: string, amount: real, item: string, category: string, store: Option<string>)

  datatype Table = Table(rows: seq<Row>, nextId: nat)

  /** `LIMIT` when the caller gives none. */
  const DefaultLimit: nat := 50

  /** An AUTOINCREMENT table that has never held a row. */
  const Empty: Table := Table([], 1)

  ghost predicate DistinctIds(rows: seq<Row>)
  {
    forall i, j :: 0 <= i < j < |rows| ==> rows[i].id != rows[j].id
  }

  /** Every id is below the counter, and no two rows share an id. */
  ghost predicate Valid(t: Table)
  {
    && (forall i :: 0 <= i < |t.rows| ==> t.rows[i].id < t.nextId)
    && DistinctIds(t.rows)
  }

  /** `WHERE phone_number = p`, in table order. */
  function UserRows(rows: seq<Row>, p: string): (r: seq<Row>)
    ensures |r| <= |rows|
    ensures forall x :: x in r <==> x in rows && x.phone == p
  {
    if |rows| == 0 then
      []
    else
      var rest := UserRows(rows[1..], p);
      assert forall x :: x in rows <==> x == rows[0] || x in rows[1..];
      if rows[0].phone == p then [rows[0]] + rest else rest
  }

  /** `WHERE phone_number <> p`, in table order. */
  function OtherRows(rows: seq<Row>, p: string): (r: seq<Row>)
    ensures |r| <= |rows|
    ensures forall x :: x in r <==> x in rows && x.phone != p
  {
    if |rows| == 0 then
      []
    else
      var rest := OtherRows(rows[1..], p);
      assert forall x :: x in rows <==> x == rows[0] || x in rows[1..];
      if rows[0].phone != p then [rows[0]] + rest else rest
  }

  /** A list headed by `h` has distinct ids exactly when its tail has and does not
      reuse `h`'s id. */
  lemma DistinctIdsCons(h: Row, rest: seq<Row>)
    ensures DistinctIds([h] + rest) <==> DistinctIds(rest) && forall x :: x in rest ==> x.id != h.id
  {
    var r := [h] + rest;
    assert r[1..] == rest;
    if DistinctIds(rest) && forall x :: x in rest ==> x.id != h.id {
      forall i, j | 0 <= i < j < |r|
        ensures r[i].id != r[j].id
      {
        if i == 0 {
          assert r[j] in rest;
        }
      }
    }
    if DistinctIds(r) {
      forall x | x in rest
        ensures x.id != h.id
      {
        var k :| 0 <= k < |rest| && rest[k] == x;
        assert r[0] == h && r[k + 1] == x;
        assert r[0].id != r[k + 1].id;
      }
    }
  }

  /** Deleting rows keeps the remaining ids distinct. */
  lemma {:induction false} OtherRowsDistinct(rows: seq<Row>, p: string)
    ensures DistinctIds(rows) ==> DistinctIds(OtherRows(rows, p))
    decreases |rows|
  {
    if |rows| > 0 && DistinctIds(rows) {
      assert rows == [rows[0]] + rows[1..];
      DistinctIdsCons(rows[0], rows[1..]);
      OtherRowsDistinct(rows[1..], p);
      if rows[0].phone != p {
        DistinctIdsCons(rows[0], OtherRows(rows[1..], p));
      }
    }
  }

  lemma {:induction false} UserRowsAppend(a: seq<Row>, b: seq<Row>, p: string)
    ensures UserRows(a + b, p) == UserRows(a, p) + UserRows(b, p)
    decreases |a|
  {
    if |a| > 0 {
      assert (a + b)[1..] == a[1..] + b;
      UserRowsAppend(a[1..], b, p);
    } else {
      assert a + b == b;
    }
  }

  /** Removing one user's rows leaves every other user's rows as they were. */
  lemma {:induction false} UserRowsOfOthers(rows: seq<Row>, p: string, q: string)
    requires q != p
    ensures UserRows(OtherRows(rows, p), q) == UserRows(rows, q)
    decreases |rows|
  {
    if |rows| > 0 {
      UserRowsOfOthers(rows[1..], p, q);
      if rows[0].phone != p {
        assert ([rows[0]] + OtherRows(rows[1..], p))[1..] == OtherRows(rows[1..], p);
      }
    }
  }

  lemma {:induction false} OtherRowsIdempotent(rows: seq<Row>, p: string)
    ensures OtherRows(OtherRows(rows, p), p) == OtherRows(rows, p)
    decreases |rows|
  {
    if |rows| > 0 {
      OtherRowsIdempotent(rows[1..], p);
      if rows[0].phone != p {
        assert ([rows[0]] + OtherRows(rows[1..], p))[1..] == OtherRows(rows[1..], p);
      }
    }
  }

  /** `TransactionModel.add` / `addTransaction`: insert one row and return it with the
      id and creation time it was given. */
  function Add(t: Table, n: NewRow, now: nat): (r: (Table, Row))
    ensures |r.0.rows| == |t.rows| + 1 && r.0.rows[..|t.rows|] == t.rows
    ensures r.0.rows[|t.rows|] == r.1
    ensures && r.1.phone == n.phone && r.1.amount == n.amount && r.1.item == n.item
            && r.1.category == n.category && r.1.store == n.store && r.1.createdAt == now
    ensures Valid(t) ==> Valid(r.0) && forall i :: 0 <= i < |t.rows| ==> t.rows[i].id != r.1.id
  {
    var row := Row(t.nextId, n.phone, n.amount, n.item, n.category, n.store, now);
    var rows := t.rows + [row];
    assert rows[..|t.rows|] == t.rows;
    (Table(rows, t.nextId + 1), row)
  }

  /** An insertion shows up in its own user's rows, at the end, and in no one else's. */
  lemma AddUserRows(t: Table, n: NewRow, now: nat, p: string)
    ensures var (t', row) := Add(t, n, now);
            UserRows(t'.rows, p) == UserRows(t.rows, p) + (if n.phone == p then [row] else [])
  {
    var (t', row) := Add(t, n, now);
    assert t'.rows == t.rows + [row];
    UserRowsAppend(t.rows, [row], p);
    assert [row][1..] == [];
  }

  /** `store || null` in src/db/sqlite.ts: an absent or empty store is written as NULL. */
  function StoreColumn(store: Option<string>): (r: Option<string>)
    ensures r.None? <==> store.None? || store == Some("")
    ensures r.Some? ==> r == store
  {
    if store.Some? && store.value != "" then store else None
  }

  /** What src/db/sqlite.ts `addTransaction` hands back: its input plus the new id. */
  datatype Added = Added(id: nat, input: NewRow)

  /** `addTransaction` of src/db/sqlite.ts: the shared insertion with the store column
      normalised; the caller gets its own input back, unnormalised, with the new id. */
  function SqliteAdd(t: Table, n: NewRow, now: nat): (r: (Table, Added))
    ensures var (t', row) := Add(t, n.(store := StoreColumn(n.store)), now);
            r.0 == t' && r.1 == Added(row.id, n)
    ensures r.0.rows[|t.rows|].store == StoreColumn(n.store)
  {
    var (t', row) := Add(t, n.(store := StoreColumn(n.store)), now);
    (t', Added(row.id, n))
  }

  /** `TransactionModel.clear` / `clearTransactions`: delete every row of one user. */
  function Clear(t: Table, p: string): (r: Table)
    ensures forall x :: x in r.rows <==> x in t.rows && x.phone != p
    ensures UserRows(r.rows, p) == []
    ensures forall q :: q != p ==> UserRows(r.rows, q) == UserRows(t.rows, q)
    ensures r.nextId == t.nextId
    ensures Valid(t) ==> Valid(r)
  {
    var rows := OtherRows(t.rows, p);
    OtherRowsDistinct(t.rows, p);
    forall q | q != p
      ensures UserRows(rows, q) == UserRows(t.rows, q)
    {
      UserRowsOfOthers(t.rows, p, q);
    }
    assert UserRows(rows, p) == [] by {
      if |UserRows(rows, p)| > 0 {
        assert UserRows(rows, p)[0] in UserRows(rows, p);
      }
    }
    Table(rows, t.nextId)
  }

  /** Clearing is idempotent: a second clear of the same user changes nothing. */
  lemma ClearIdempotent(t: Table, p: string)
    ensures Clear(Clear(t, p), p) == Clear(t, p)
  {
    OtherRowsIdempotent(t.rows, p);
  }

  function CreatedKey(r: Row): real
  {
    r.createdAt as real
  }

  function Min(a: nat, b: nat): nat
  {
    if a <= b then a else b
  }

  /** A `LIMIT`ed newest-first listing of `pool`: as many rows as the limit allows, each
      taken from the pool, newest first, and no row left out newer than the last one kept. */
  ghost predicate IsRecentListing(r: seq<Row>, pool: seq<Row>, limit: nat)
  {
    && |r| == Min(limit, |pool|)
    && multiset(r) <= multiset(pool)
    && (forall i, j :: 0 <= i < j < |r| ==> r[i].createdAt >= r[j].createdAt)
    && (|r| > 0 ==> forall x :: x in multiset(pool) - multiset(r) ==> x.createdAt <= r[|r| - 1].createdAt)
  }

  /** No row after position `n` of a newest-first sequence is newer than the row at `n - 1`. */
  lemma TailNotNewer(xs: seq<Row>, n: nat)
    requires 0 < n <= |xs| && Sorting.SortedDesc(xs, CreatedKey)
    ensures forall x :: x in multiset(xs[n..]) ==> x.createdAt <= xs[n - 1].createdAt
  {
    forall x | x in multiset(xs[n..])
      ensures x.createdAt <= xs[n - 1].createdAt
    {
      assert x in xs[n..];
      var m :| 0 <= m < |xs[n..]| && xs[n..][m] == x;
      assert CreatedKey(xs[n - 1]) >= CreatedKey(xs[n + m]);
    }
  }

  /** Splitting a sequence splits its multiset. */
  lemma SplitMultiset(xs: seq<Row>, n: nat)
    requires n <= |xs|
    ensures multiset(xs) == multiset(xs[..n]) + multiset(xs[n..])
  {
    assert xs == xs[..n] + xs[n..];
  }

  /** A prefix of a newest-first sequence is newest first. */
  lemma PrefixNewestFirst(xs: seq<Row>, n: nat)
    requires n <= |xs| && Sorting.SortedDesc(xs, CreatedKey)
    ensures forall i, j :: 0 <= i < j < n ==> xs[..n][i].createdAt >= xs[..n][j].createdAt
  {
    forall i, j | 0 <= i < j < n
      ensures xs[..n][i].createdAt >= xs[..n][j].createdAt
    {
      assert CreatedKey(xs[i]) >= CreatedKey(xs[j]);
    }
  }

  /** The first rows of a newest-first permutation of the pool are a recent listing. */
  lemma NewestPrefix(xs: seq<Row>, pool: seq<Row>, limit: nat)
    requires multiset(xs) == multiset(pool) && Sorting.SortedDesc(xs, CreatedKey)
    ensures IsRecentListing(xs[..Min(limit, |xs|)], pool, limit)
  {
    var n := Min(limit, |xs|);
    var r := xs[..n];
    assert |xs| == |pool| by {
      assert |multiset(xs)| == |multiset(pool)|;
    }
    SplitMultiset(xs, n);
    assert multiset(pool) - multiset(r) == multiset(xs[n..]);
    PrefixNewestFirst(xs, n);
    if n > 0 {
      TailNotNewer(xs, n);
    }
  }

  /** `getMany` / `getTransactions`: `WHERE phone_number = p ORDER BY created_at DESC
      LIMIT limit`, a recent listing of the user's rows. */
  function GetMany(t: Table, p: string, limit: nat): (r: seq<Row>)
    ensures IsRecentListing(r, UserRows(t.rows, p), limit)
    ensures forall x :: x in r ==> x in t.rows && x.phone == p
  {
    var mine := UserRows(t.rows, p);
    var sorted := Sorting.SortDesc(mine, CreatedKey);
    var r := sorted[..Min(limit, |sorted|)];
    NewestPrefix(sorted, mine, limit);
    assert forall x :: x in r ==> x in multiset(r);
    r
  }

  /** A fresh table is valid, and its first insertion gets id 1. */
  lemma EmptyTable(n: NewRow, now: nat)
    ensures Valid(Empty)
    ensures Add(Empty, n, now).1.id == 1 && Valid(Add(Empty, n, now).0)
  {
  }

  /** Under the default `LIMIT 50` a user with at most fifty rows gets every one back. */
  lemma DefaultListingComplete(t: Table, p: string)
    requires |UserRows(t.rows, p)| <= DefaultLimit
    ensures multiset(GetMany(t, p, DefaultLimit)) == multiset(UserRows(t.rows, p))
  {
    var r := GetMany(t, p, DefaultLimit);
    var pool := UserRows(t.rows, p);
    var d := multiset(pool) - multiset(r);
    assert multiset(pool) == multiset(r) + d;
    assert |d| == 0;
  }
}
