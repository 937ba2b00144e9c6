/**
  The reply texts: the summary and history formatters (identical in the command classes
  and in src/features/finance/service.ts), the transaction confirmation, and the fixed
  messages. `toFixed(2)` and `toLocaleDateString()` are left uninterpreted: they are the
  fields of `Render`.
 */
module Format {
  import opened Options
  import opened Text
  import opened Transactions
  import opened Aggregate

  /** `amount.toFixed(2)` and `new Date(createdAt).toLocaleDateString()`. */
  datatype Render = Render(money: real -> string, date: nat -> string)

  const NoSummary: string := "\U{1F4CA} No transactions yet. Start by adding one!"
  const SummaryHeader: string := "\U{1F4CA} *Summary*\n\n"
  const CategoriesHeader: string := "*Categories:*\n"
  const NoHistory: string := "\U{1F4CB} No transactions yet"
  const HistoryHeader: string := "\U{1F4CB} *Recent Transactions*\n\n"
  const Cleared: string := "\U{1F5D1}\U{FE0F} All transactions cleared"
  const CouldNotParse: string := "\U{274C} Could not parse transaction. Try: \"bought coffee for $5\" or type \"help\""
  const InvalidData: string := "\U{274C} Invalid transaction data. Please try again."
  const HelpText: string :=
    "\U{1F4D6} *Finance Tracker Help*\n\n"
    + "*Add transaction:*\n"
    + "  \"bought coffee for $5 at Starbucks\"\n"
    + "  \"spent $20 on groceries\"\n\n"
    + "*Commands:*\n"
    + "  \"summary\" - Show spending summary\n"
    + "  \"history\" - Show recent transactions\n"
    + "  \"clear\" - Clear all transactions\n"
    + "  \"help\" - Show this message"

  /** JavaScript truthiness of an optional string. */
  predicate Present(store: Option<string>)
  {
    store.Some? && store.value != ""
  }

  // ---------------------------------------------------------------------------
  // Summary
  // ---------------------------------------------------------------------------

  /** The three lines every non-empty summary starts with. */
  function SummaryHead(s: Summary, render: Render): string
  {
    SummaryHeader
    + "\U{1F4B0} Total spent: $" + render.money(s.totalSpent) + "\n"
    + "\U{1F4DD} Transactions: " + NatToString(s.count) + "\n\n"
  }

  function CategoryLine(e: CategoryTotal, render: Render): string
  {
    "\U{2022} " + e.category + ": $" + render.money(e.total) + " (" + NatToString(e.count) + ")\n"
  }

  /** One bullet per category, in the order given. */
  function CategoryLines(cs: seq<CategoryTotal>, render: Render): string
  {
    if |cs| == 0 then "" else CategoryLine(cs[0], render) + CategoryLines(cs[1..], render)
  }

  /** The bullets of a concatenation are the bullets of each part, in order: the
      formatter neither drops, repeats nor reorders categories. */
  lemma {:induction false} CategoryLinesAppend(a: seq<CategoryTotal>, b: seq<CategoryTotal>, render: Render)
    ensures CategoryLines(a + b, render) == CategoryLines(a, render) + CategoryLines(b, render)
    decreases |a|
  {
    if |a| == 0 {
      assert a + b == b;
    } else {
      assert (a + b)[1..] == a[1..] + b;
      CategoryLinesAppend(a[1..], b, render);
    }
  }

  /** `formatSummary`: the fixed message exactly when there are no transactions;
      otherwise the header, total and count lines, then a categories section exactly when
      there are categories. */
  function FormatSummary(s: Summary, render: Render): (r: string)
    ensures r == NoSummary <==> s.count == 0
    ensures s.count != 0 ==> |r| >= |SummaryHead(s, render)| && r[..|SummaryHead(s, render)|] == SummaryHead(s, render)
    ensures s.count != 0 ==> (|r| > |SummaryHead(s, render)| <==> |s.categories| > 0)
    ensures s.count != 0 && |s.categories| > 0 ==>
              r[|SummaryHead(s, render)|..] == CategoriesHeader + CategoryLines(s.categories, render)
  {
    if s.count == 0 then
      NoSummary
    else
      var head := SummaryHead(s, render);
      var r := head + if |s.categories| > 0 then CategoriesHeader + CategoryLines(s.categories, render) else "";
      assert r[..|head|] == head;
      assert r[2] == '*' != NoSummary[2];
      r
  }

  // ---------------------------------------------------------------------------
  // History
  // ---------------------------------------------------------------------------

  /** An entry up to and including the category. */
  function EntryHead(row: Row, render: Render): string
  {
    "\U{2022} " + row.item + " - $" + render.money(row.amount) + " (" + row.category + ")"
  }

  function StoreSuffix(row: Row): string
  {
    if Present(row.store) then " @ " + row.store.value else ""
  }

  function Entry(row: Row, render: Render): string
  {
    EntryHead(row, render) + StoreSuffix(row) + "\n  " + render.date(row.createdAt) + "\n\n"
  }

  /** The ` @ store` suffix follows the category exactly when the store is truthy. */
  lemma EntryStoreSuffix(row: Row, render: Render)
    ensures var e := Entry(row, render);
            var h := EntryHead(row, render);
            && e[..|h|] == h
            && (Present(row.store) <==> e[|h|..|h| + 3] == " @ ")
            && (Present(row.store) ==> e[|h| + 3..|h| + 3 + |row.store.value|] == row.store.value)
  {
    var e := Entry(row, render);
    var h := EntryHead(row, render);
    assert e == h + (StoreSuffix(row) + "\n  " + render.date(row.createdAt) + "\n\n");
    assert e[..|h|] == h;
    if !Present(row.store) {
      assert e[|h|] == '\n';
    }
  }

  /** One entry per row, in the order given. */
  function Entries(rows: seq<Row>, render: Render): string
  {
    if |rows| == 0 then "" else Entry(rows[0], render) + Entries(rows[1..], render)
  }

  lemma {:induction false} EntriesAppend(a: seq<Row>, b: seq<Row>, render: Render)
    ensures Entries(a + b, render) == Entries(a, render) + Entries(b, render)
    decreases |a|
  {
    if |a| == 0 {
      assert a + b == b;
    } else {
      assert (a + b)[1..] == a[1..] + b;
      EntriesAppend(a[1..], b, render);
    }
  }

  /** `formatTransactionList`: the fixed message exactly when the list is empty;
      otherwise the header followed by the entries. */
  function FormatHistory(rows: seq<Row>, render: Render): (r: string)
    ensures r == NoHistory <==> |rows| == 0
    ensures |rows| > 0 ==> |r| >= |HistoryHeader| && r[..|HistoryHeader|] == HistoryHeader
    ensures |rows| > 0 ==> r[|HistoryHeader|..] == Entries(rows, render)
  {
    if |rows| == 0 then
      NoHistory
    else
      var r := HistoryHeader + Entries(rows, render);
      assert r[..|HistoryHeader|] == HistoryHeader;
      assert r[2] == '*' != NoHistory[2];
      r
  }

  // ---------------------------------------------------------------------------
  // Confirmation
  // ---------------------------------------------------------------------------

  function ConfirmationHead(item: string, amount: real, render: Render): string
  {
    "\U{2705} Saved: " + item + " - $" + render.money(amount)
  }

  /** The reply to a recorded transaction. */
  function Confirmation(item: string, amount: real, category: string, store: Option<string>, render: Render): string
  {
    ConfirmationHead(item, amount, render)
    + (if Present(store) then " at " + store.value else "")
    + " (" + category + ")"
  }

  /** ` at <store>` sits between the amount and the category exactly when the store is
      truthy, so the reply tells a stored store from none; the category always closes it. */
  lemma ConfirmationStoreSuffix(item: string, amount: real, category: string, store: Option<string>, render: Render)
    ensures var c := Confirmation(item, amount, category, store, render);
            var h := ConfirmationHead(item, amount, render);
            && c[..|h|] == h
            && |c| >= |h| + 2
            && (Present(store) <==> c[|h|..|h| + 2] == " a")
            && (Present(store) ==> c == h + " at " + store.value + " (" + category + ")")
            && (!Present(store) ==> c == h + " (" + category + ")")
            && c[|c| - |category| - 3..] == " (" + category + ")"
  {
    var c := Confirmation(item, amount, category, store, render);
    var h := ConfirmationHead(item, amount, render);
    var mid := if Present(store) then " at " + store.value else "";
    assert c == h + (mid + (" (" + category + ")"));
    assert c[..|h|] == h;
    if !Present(store) {
      assert c[|h| + 1] == '(';
    } else {
      assert c[|h|..|h| + 2] == " a";
    }
  }
}
