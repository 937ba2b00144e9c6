/**
  `FinanceService.processMessage` of src/features/finance/service.ts: the same handlers
  without the registry. The lower-cased text is compared with the command words exactly,
  without trimming, and transactions are written through src/db/sqlite.ts.
 */
module FeatureService {
  import opened Options
  import opened Text
  import opened Transactions
  import opened Schemas
  import opened Registry
  import opened Commands
  import opened Format
  import Service

  /** The `if`/`else if` chain on `text.toLowerCase()`. */
  function RouteExact(text: string): (h: Handler)
    ensures h != TransactionCommand <==> Lower(text) in CommandNames
  {
    RouteNameToTransaction(Lower(text));
    RouteName(Lower(text))
  }

  /** `processMessage`: an empty text gets an empty reply before the store is opened;
      otherwise exactly one branch runs. */
  function ProcessMessage(msg: Message, t: Table, env: Env, gate: GateFn): (r: Service.Outcome)
    ensures Service.NoText(msg) ==> r == Service.Outcome(None, "", t)
    ensures !Service.NoText(msg) ==> r.handler == Some(RouteExact(msg.text.value))
    ensures r.handler.Some? ==> (r.reply, r.table) == Execute(r.handler.value, msg, t, env, Sqlite, gate)
    ensures forall q :: q != msg.from ==> UserRows(r.table.rows, q) == UserRows(t.rows, q)
    ensures Valid(t) ==> Valid(r.table)
  {
    if Service.NoText(msg) then
      Service.Outcome(None, "", t)
    else
      var h := RouteExact(msg.text.value);
      var (reply, t') := Execute(h, msg, t, env, Sqlite, gate);
      Service.Outcome(Some(h), reply, t')
  }

  /** On a text without surrounding white space the exact comparison and `parseCommand`
      choose the same handler. */
  lemma RoutesAgreeOnTrimmed(text: string)
    requires Trim(text) == text
    ensures RouteExact(text) == Route(text)
  {
    TrimLowerCommute(text);
  }

  /** Whichever gate both use, the two services answer every message `MessageSchema` can produce with the same
      handler and the same reply; they differ only in how the store column of a new row
      is written. */
  lemma ServicesAgree(msg: Message, t: Table, env: Env, gate: GateFn)
    requires WellFormedMessage(msg)
    ensures var a := Service.ProcessMessage(msg, t, env, gate);
            var b := ProcessMessage(msg, t, env, gate);
            && a.handler == b.handler
            && a.reply == b.reply
            && (a.handler != Some(TransactionCommand) ==> a.table == b.table)
  {
    if !Service.NoText(msg) {
      RoutesAgreeOnTrimmed(msg.text.value);
      BackendsAgree(Route(msg.text.value), msg, t, env, gate);
    }
  }

  /** White space before a command word is tolerated by `parseCommand` but not by the
      exact comparison: the padded word is recorded as a transaction. */
  lemma PaddedCommandDiverges(a: string, c: string)
    requires |a| > 0 && AllSpace(a) && c in CommandNames
    ensures Route(a + c) == RouteName(c) != TransactionCommand
    ensures RouteExact(a + c) == TransactionCommand
  {
    CommandNamesPlain(c);
    Service.PaddedCommandRuns(a, c, "");
    assert a + c + "" == a + c;
    var l := Lower(a + c);
    assert IsSpace(l[0]);
    forall n | n in CommandNames
      ensures l != n
    {
      CommandNamesPlain(n);
      if |n| > 0 {
        assert !IsSpace(n[0]);
      }
    }
  }

  /** As written, the features service refuses a store-less purchase as well. */
  lemma StorelessPurchaseRefused(msg: Message, t: Table, env: Env)
    requires !Service.NoText(msg) && RouteExact(msg.text.value) == TransactionCommand
    requires env.parse(msg.text.value).Some?
    requires var p := env.parse(msg.text.value).value; RequiredValid(p) && p.store.Null?
    ensures ProcessMessage(msg, t, env, GateAsWritten) == Service.Outcome(Some(TransactionCommand), InvalidData, t)
  {
  }

  /** Under the corrected gate it records exactly one store-less row for the sender. */
  lemma StorelessPurchaseRecorded(msg: Message, t: Table, env: Env)
    requires !Service.NoText(msg) && RouteExact(msg.text.value) == TransactionCommand
    requires env.parse(msg.text.value).Some?
    requires var p := env.parse(msg.text.value).value; RequiredValid(p) && p.store.Null?
    ensures var o := ProcessMessage(msg, t, env, Gate);
            var p := env.parse(msg.text.value).value;
            && o.handler == Some(TransactionCommand)
            && |o.table.rows| == |t.rows| + 1 && o.table.rows[..|t.rows|] == t.rows
            && o.table.rows[|t.rows|].phone == msg.from
            && o.table.rows[|t.rows|].item == p.item
            && o.table.rows[|t.rows|].store == None
            && o.reply == Confirmation(p.item, p.amount.value, p.category, None, env.render)
  {
  }
}
