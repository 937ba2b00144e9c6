/**
  `getSummary`: one user's total and row count, and the per-category breakdown
  `GROUP BY category ORDER BY SUM(amount) DESC`. The grouping is a fold that adds one row
  at a time to a list of running category totals; the ordering is the shared sort.
 */
module Aggregate {
  import opened Options
  import opened Transactions
  import Sorting

  datatype CategoryTotal = CategoryTotal(category: string, total: real, count: nat)

  datatype Summary = Summary(totalSpent: real, count: nat, categories: seq<CategoryTotal>)

  // ---------------------------------------------------------------------------
  // Reference definitions over the rows
  // ---------------------------------------------------------------------------

  function SumAmounts(rows: seq<Row>): real
  {
    if |rows| == 0 then 0.0 else rows[0].amount + SumAmounts(rows[1..])
  }

  /** `WHERE category = c`, in table order. */
  function InCategory(rows: seq<Row>, c: string): seq<Row>
  {
    if |rows| == 0 then []
    else if rows[0].category == c then [rows[0]] + InCategory(rows[1..], c)
    else InCategory(rows[1..], c)
  }

  function CategoriesOf(rows: seq<Row>): set<string>
  {
    set r | r in rows :: r.category
  }

  // ---------------------------------------------------------------------------
  // Views of a list of category totals
  // ---------------------------------------------------------------------------

  function NameSet(cs: seq<CategoryTotal>): set<string>
  {
    set e | e in cs :: e.category
  }

  ghost predicate DistinctNames(cs: seq<CategoryTotal>)
  {
    forall i, j :: 0 <= i < j < |cs| ==> cs[i].category != cs[j].category
  }

  /** The total recorded for `c`: that of the first entry named `c`, or 0. */
  function TotalOf(cs: seq<CategoryTotal>, c: string): real
  {
    if |cs| == 0 then 0.0 else if cs[0].category == c then cs[0].total else TotalOf(cs[1..], c)
  }

  /** The count recorded for `c`: that of the first entry named `c`, or 0. */
  function CountOf(cs: seq<CategoryTotal>, c: string): nat
  {
    if |cs| == 0 then 0 else if cs[0].category == c then cs[0].count else CountOf(cs[1..], c)
  }

  function SumTotals(cs: seq<CategoryTotal>): real
  {
    if |cs| == 0 then 0.0 else cs[0].total + SumTotals(cs[1..])
  }

  function SumCounts(cs: seq<CategoryTotal>): nat
  {
    if |cs| == 0 then 0 else cs[0].count + SumCounts(cs[1..])
  }

  lemma SumAmountsCons(x: Row, rows: seq<Row>)
    ensures SumAmounts([x] + rows) == x.amount + SumAmounts(rows)
  {
    assert ([x] + rows)[1..] == rows;
  }

  lemma NameSetCons(e: CategoryTotal, cs: seq<CategoryTotal>)
    ensures NameSet([e] + cs) == {e.category} + NameSet(cs)
  {
    assert forall x :: x in [e] + cs <==> x == e || x in cs;
  }

  /** A list headed by `e` has distinct names exactly when its tail has and does not
      name `e`'s category. */
  lemma DistinctCons(e: CategoryTotal, cs: seq<CategoryTotal>)
    ensures DistinctNames([e] + cs) <==> DistinctNames(cs) && e.category !in NameSet(cs)
  {
    var r := [e] + cs;
    assert r[1..] == cs;
    if DistinctNames(cs) && e.category !in NameSet(cs) {
      forall i, j | 0 <= i < j < |r|
        ensures r[i].category != r[j].category
      {
        if i == 0 {
          assert r[j] in cs;
        }
      }
    }
    if DistinctNames(r) {
      forall x | x in cs
        ensures x.category != e.category
      {
        var k :| 0 <= k < |cs| && cs[k] == x;
        assert r[0] == e && r[k + 1] == x;
        assert r[0].category != r[k + 1].category;
      }
    }
  }

  /** In a list with distinct names, an entry's own total and count are the ones recorded
      for its name. */
  lemma {:induction false} LookupMember(cs: seq<CategoryTotal>, e: CategoryTotal)
    requires DistinctNames(cs) && e in cs
    ensures TotalOf(cs, e.category) == e.total && CountOf(cs, e.category) == e.count
    decreases |cs|
  {
    if cs[0] != e {
      assert cs == [cs[0]] + cs[1..];
      DistinctCons(cs[0], cs[1..]);
      assert e in cs[1..];
      LookupMember(cs[1..], e);
    }
  }

  // ---------------------------------------------------------------------------
  // Grouping
  // ---------------------------------------------------------------------------

  /** Add one row to the running totals: its category's entry grows, or a new entry
      with count 1 is appended. */
  function AddRow(cs: seq<CategoryTotal>, row: Row): (r: seq<CategoryTotal>)
    ensures forall c :: TotalOf(r, c) == TotalOf(cs, c) + (if c == row.category then row.amount else 0.0)
    ensures forall c :: CountOf(r, c) == CountOf(cs, c) + (if c == row.category then 1 else 0)
    ensures SumTotals(r) == SumTotals(cs) + row.amount
    ensures SumCounts(r) == SumCounts(cs) + 1
  {
    if |cs| == 0 then
      [CategoryTotal(row.category, row.amount, 1)]
    else if cs[0].category == row.category then
      var r := [CategoryTotal(row.category, cs[0].total + row.amount, cs[0].count + 1)] + cs[1..];
      assert r[1..] == cs[1..];
      r
    else
      var r := [cs[0]] + AddRow(cs[1..], row);
      assert r[1..] == AddRow(cs[1..], row);
      r
  }

  /** Adding a row names its category and no other new one. */
  lemma {:induction false} AddRowNames(cs: seq<CategoryTotal>, row: Row)
    ensures NameSet(AddRow(cs, row)) == NameSet(cs) + {row.category}
    decreases |cs|
  {
    var r := AddRow(cs, row);
    if |cs| == 0 {
      NameSetCons(r[0], []);
      assert r == [r[0]] + [];
    } else {
      assert cs == [cs[0]] + cs[1..];
      NameSetCons(cs[0], cs[1..]);
      assert r == [r[0]] + r[1..];
      NameSetCons(r[0], r[1..]);
      if cs[0].category != row.category {
        AddRowNames(cs[1..], row);
      }
    }
  }

  /** Adding a row keeps the names distinct. */
  lemma {:induction false} AddRowDistinct(cs: seq<CategoryTotal>, row: Row)
    requires DistinctNames(cs)
    ensures DistinctNames(AddRow(cs, row))
    decreases |cs|
  {
    var r := AddRow(cs, row);
    if |cs| > 0 {
      assert cs == [cs[0]] + cs[1..];
      DistinctCons(cs[0], cs[1..]);
      if cs[0].category == row.category {
        assert r[0].category == cs[0].category && r[1..] == cs[1..];
        assert r == [r[0]] + cs[1..];
        DistinctCons(r[0], cs[1..]);
      } else {
        var rest := AddRow(cs[1..], row);
        assert r == [cs[0]] + rest;
        AddRowDistinct(cs[1..], row);
        AddRowNames(cs[1..], row);
        DistinctCons(cs[0], rest);
      }
    }
  }

  /** Adding a row keeps every count positive. */
  lemma {:induction false} AddRowPositive(cs: seq<CategoryTotal>, row: Row)
    requires forall e :: e in cs ==> e.count >= 1
    ensures forall e :: e in AddRow(cs, row) ==> e.count >= 1
    decreases |cs|
  {
    var r := AddRow(cs, row);
    if |cs| > 0 {
      if cs[0].category == row.category {
        assert forall e :: e in r ==> e == r[0] || e in cs[1..];
      } else {
        AddRowPositive(cs[1..], row);
        assert forall e :: e in r ==> e == cs[0] || e in AddRow(cs[1..], row);
      }
    }
  }

  lemma CategoriesCons(rows: seq<Row>)
    requires |rows| > 0
    ensures CategoriesOf(rows) == {rows[0].category} + CategoriesOf(rows[1..])
  {
    assert forall x :: x in rows <==> x == rows[0] || x in rows[1..];
  }

  /** `GROUP BY category`: one entry per category present, carrying the sum and count of
      that category's rows; the entries together account for every row. */
  function Group(rows: seq<Row>): (r: seq<CategoryTotal>)
    ensures forall c :: TotalOf(r, c) == SumAmounts(InCategory(rows, c))
    ensures forall c :: CountOf(r, c) == |InCategory(rows, c)|
    ensures NameSet(r) == CategoriesOf(rows)
    ensures DistinctNames(r)
    ensures forall e :: e in r ==> e.count >= 1
    ensures SumTotals(r) == SumAmounts(rows)
    ensures SumCounts(r) == |rows|
  {
    if |rows| == 0 then
      []
    else
      var rest := Group(rows[1..]);
      AddRowNames(rest, rows[0]);
      AddRowDistinct(rest, rows[0]);
      AddRowPositive(rest, rows[0]);
      CategoriesCons(rows);
      assert forall c :: rows[0].category == c ==>
        SumAmounts(InCategory(rows, c)) == rows[0].amount + SumAmounts(InCategory(rows[1..], c)) by {
        forall c | rows[0].category == c {
          SumAmountsCons(rows[0], InCategory(rows[1..], c));
        }
      }
      AddRow(rest, rows[0])
  }

  // ---------------------------------------------------------------------------
  // Ordering
  // ---------------------------------------------------------------------------

  function TotalKey(e: CategoryTotal): real
  {
    e.total
  }

  lemma SortedMembers(xs: seq<CategoryTotal>)
    ensures forall e :: e in Sorting.SortDesc(xs, TotalKey) <==> e in xs
    ensures NameSet(Sorting.SortDesc(xs, TotalKey)) == NameSet(xs)
  {
    var r := Sorting.SortDesc(xs, TotalKey);
    assert forall e :: e in r <==> e in multiset(r);
    assert forall e :: e in xs <==> e in multiset(xs);
  }

  lemma {:induction false} InsertSums(x: CategoryTotal, xs: seq<CategoryTotal>)
    requires Sorting.SortedDesc(xs, TotalKey)
    ensures SumTotals(Sorting.InsertDesc(x, xs, TotalKey)) == x.total + SumTotals(xs)
    ensures SumCounts(Sorting.InsertDesc(x, xs, TotalKey)) == x.count + SumCounts(xs)
    decreases |xs|
  {
    var r := Sorting.InsertDesc(x, xs, TotalKey);
    if |xs| == 0 || TotalKey(x) >= TotalKey(xs[0]) {
      assert r[1..] == xs;
    } else {
      assert r[1..] == Sorting.InsertDesc(x, xs[1..], TotalKey);
      InsertSums(x, xs[1..]);
    }
  }

  /** Two arrangements of the same entries name the same categories. */
  lemma NamesOfPermutation(a: seq<CategoryTotal>, b: seq<CategoryTotal>)
    requires multiset(a) == multiset(b)
    ensures NameSet(a) == NameSet(b)
  {
    assert forall e :: e in a <==> e in multiset(a);
    assert forall e :: e in b <==> e in multiset(b);
  }

  lemma InsertNames(x: CategoryTotal, xs: seq<CategoryTotal>)
    requires Sorting.SortedDesc(xs, TotalKey)
    ensures NameSet(Sorting.InsertDesc(x, xs, TotalKey)) == {x.category} + NameSet(xs)
  {
    assert multiset([x] + xs) == multiset(xs) + multiset{x};
    NamesOfPermutation(Sorting.InsertDesc(x, xs, TotalKey), [x] + xs);
    NameSetCons(x, xs);
  }

  lemma {:induction false} InsertDistinct(x: CategoryTotal, xs: seq<CategoryTotal>)
    requires Sorting.SortedDesc(xs, TotalKey)
    requires DistinctNames(xs) && x.category !in NameSet(xs)
    ensures DistinctNames(Sorting.InsertDesc(x, xs, TotalKey))
    decreases |xs|
  {
    var r := Sorting.InsertDesc(x, xs, TotalKey);
    if |xs| == 0 || TotalKey(x) >= TotalKey(xs[0]) {
      assert r == [x] + xs;
      DistinctCons(x, xs);
    } else {
      var tail := xs[1..];
      var rest := Sorting.InsertDesc(x, tail, TotalKey);
      assert r == [xs[0]] + rest;
      assert xs == [xs[0]] + tail;
      NameSetCons(xs[0], tail);
      DistinctCons(xs[0], tail);
      Sorting.SortedTail(xs, TotalKey);
      InsertDistinct(x, tail);
      InsertNames(x, tail);
      DistinctCons(xs[0], rest);
    }
  }

  /** Sorting the totals changes neither their sum nor the sum of the counts. */
  lemma {:induction false} SortSums(xs: seq<CategoryTotal>)
    ensures SumTotals(Sorting.SortDesc(xs, TotalKey)) == SumTotals(xs)
    ensures SumCounts(Sorting.SortDesc(xs, TotalKey)) == SumCounts(xs)
    decreases |xs|
  {
    if |xs| > 0 {
      SortSums(xs[1..]);
      InsertSums(xs[0], Sorting.SortDesc(xs[1..], TotalKey));
    }
  }

  /** Sorting the totals keeps the names distinct. */
  lemma {:induction false} SortDistinct(xs: seq<CategoryTotal>)
    requires DistinctNames(xs)
    ensures DistinctNames(Sorting.SortDesc(xs, TotalKey))
    decreases |xs|
  {
    if |xs| > 0 {
      assert xs == [xs[0]] + xs[1..];
      DistinctCons(xs[0], xs[1..]);
      SortDistinct(xs[1..]);
      SortedMembers(xs[1..]);
      InsertDistinct(xs[0], Sorting.SortDesc(xs[1..], TotalKey));
    }
  }

  /** The category breakdown of `rows` as the query returns it. */
  ghost predicate IsBreakdown(cs: seq<CategoryTotal>, rows: seq<Row>)
  {
    && NameSet(cs) == CategoriesOf(rows)
    && DistinctNames(cs)
    && (forall e :: e in cs ==>
          && e.count >= 1
          && e.count == |InCategory(rows, e.category)|
          && e.total == SumAmounts(InCategory(rows, e.category)))
    && (forall i, j :: 0 <= i < j < |cs| ==> cs[i].total >= cs[j].total)
  }

  /** A list with distinct names that agrees with the grouping on every name it holds
      carries the right total and count in each entry. */
  lemma EntriesMatch(cs: seq<CategoryTotal>, g: seq<CategoryTotal>, rows: seq<Row>)
    requires g == Group(rows)
    requires forall e :: e in cs <==> e in g
    ensures forall e :: e in cs ==>
              && e.count >= 1
              && e.count == |InCategory(rows, e.category)|
              && e.total == SumAmounts(InCategory(rows, e.category))
  {
    forall e | e in cs
      ensures e.count == |InCategory(rows, e.category)|
      ensures e.total == SumAmounts(InCategory(rows, e.category))
    {
      LookupMember(g, e);
    }
  }

  /** Sorting keeps the set of category names. */
  lemma SortedNames(g: seq<CategoryTotal>)
    ensures NameSet(Sorting.SortDesc(g, TotalKey)) == NameSet(g)
  {
    SortedMembers(g);
  }

  /** Sorting keeps the entries, so every entry of the sorted list still matches `rows`. */
  lemma SortedEntries(g: seq<CategoryTotal>, rows: seq<Row>)
    requires forall e :: e in g ==>
               && e.count >= 1
               && e.count == |InCategory(rows, e.category)|
               && e.total == SumAmounts(InCategory(rows, e.category))
    ensures forall e :: e in Sorting.SortDesc(g, TotalKey) ==>
              && e.count >= 1
              && e.count == |InCategory(rows, e.category)|
              && e.total == SumAmounts(InCategory(rows, e.category))
  {
    SortedMembers(g);
  }

  /** The sorted list is ordered by total, largest first. */
  lemma SortedByTotal(g: seq<CategoryTotal>)
    ensures var r := Sorting.SortDesc(g, TotalKey);
            forall i, j :: 0 <= i < j < |r| ==> r[i].total >= r[j].total
  {
    var r := Sorting.SortDesc(g, TotalKey);
    assert forall i, j :: 0 <= i < j < |r| ==> TotalKey(r[i]) >= TotalKey(r[j]);
  }

  /** Sorting a correct grouping by total gives the breakdown, with the sums kept. */
  lemma SortedIsBreakdown(g: seq<CategoryTotal>, rows: seq<Row>)
    requires NameSet(g) == CategoriesOf(rows) && DistinctNames(g)
    requires forall e :: e in g ==>
               && e.count >= 1
               && e.count == |InCategory(rows, e.category)|
               && e.total == SumAmounts(InCategory(rows, e.category))
    requires SumTotals(g) == SumAmounts(rows) && SumCounts(g) == |rows|
    ensures var r := Sorting.SortDesc(g, TotalKey);
            && IsBreakdown(r, rows)
            && SumTotals(r) == SumAmounts(rows) && SumCounts(r) == |rows|
  {
    SortedNames(g);
    SortDistinct(g);
    SortedEntries(g, rows);
    SortedByTotal(g);
    SortSums(g);
  }

  /** The category totals sorted by total: the breakdown, with the sums kept. */
  lemma SortedGroupIsBreakdown(rows: seq<Row>)
    ensures var r := Sorting.SortDesc(Group(rows), TotalKey);
            && IsBreakdown(r, rows)
            && SumTotals(r) == SumAmounts(rows) && SumCounts(r) == |rows|
  {
    var g := Group(rows);
    EntriesMatch(g, g, rows);
    SortedIsBreakdown(g, rows);
  }

  /** `GROUP BY category ORDER BY SUM(amount) DESC`. */
  function Breakdown(rows: seq<Row>): (r: seq<CategoryTotal>)
    ensures IsBreakdown(r, rows)
    ensures SumTotals(r) == SumAmounts(rows) && SumCounts(r) == |rows|
  {
    SortedGroupIsBreakdown(rows);
    Sorting.SortDesc(Group(rows), TotalKey)
  }

  // ---------------------------------------------------------------------------
  // The summary
  // ---------------------------------------------------------------------------

  /** `SUM(amount)`: NULL over no rows. */
  function SqlSum(rows: seq<Row>): (r: Option<real>)
    ensures r.None? <==> |rows| == 0
    ensures r.Some? ==> r.value == SumAmounts(rows)
  {
    if |rows| == 0 then None else Some(SumAmounts(rows))
  }

  /** `x || 0` on a numeric column: NULL and 0 both become 0. */
  function OrZero(x: Option<real>): (r: real)
    ensures x.Some? ==> r == x.value
    ensures x.None? ==> r == 0.0
  {
    if x.Some? && x.value != 0.0 then x.value else 0.0
  }

  /** `getSummary(phone)` in all three stores: the `|| 0` fallbacks agree with the plain
      sum and count, and the breakdown accounts for every row of the user. */
  function Summarize(t: Table, p: string): (s: Summary)
    ensures s.totalSpent == SumAmounts(UserRows(t.rows, p))
    ensures s.count == |UserRows(t.rows, p)|
    ensures IsBreakdown(s.categories, UserRows(t.rows, p))
    ensures s.count == 0 <==> s.categories == []
    ensures SumCounts(s.categories) == s.count && SumTotals(s.categories) == s.totalSpent
  {
    var mine := UserRows(t.rows, p);
    var cs := Breakdown(mine);
    assert |mine| > 0 ==> mine[0].category in NameSet(cs);
    Summary(OrZero(SqlSum(mine)), |mine|, cs)
  }
}
