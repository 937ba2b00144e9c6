/**
  `FinanceService.processMessage` of src/finance/service.ts: an empty message gets an
  empty reply and runs nothing; any other text is parsed as a command, looked up in the
  registry, and falls back to the transaction command.
 */
module Service {
  import opened Options
  import opened Text
  import opened Transactions
  import opened Schemas
  import opened Registry
  import opened Commands
  import opened Format

  /** The handler that ran (None: none did), the reply, and the table afterwards. */
  datatype Outcome = Outcome(handler: Option<Handler>, reply: string, table: Table)

  /** `!text`: an absent or empty text. */
  predicate NoText(msg: Message)
  {
    msg.text.None? || msg.text.value == ""
  }

  /** `processMessage`: exactly one handler runs on a message with text, chosen by the
      text alone through the routing table, and it runs on the unchanged message. The
      program as written is `ProcessMessage(msg, t, env, GateAsWritten)`; passing `Gate`
      gives the corrected program. */
  function ProcessMessage(msg: Message, t: Table, env: Env, gate: GateFn): (r: Outcome)
    ensures NoText(msg) ==> r == Outcome(None, "", t)
    ensures !NoText(msg) ==> r.handler == Some(Route(msg.text.value))
    ensures r.handler.Some? ==> (r.reply, r.table) == Execute(r.handler.value, msg, t, env, Orm, gate)
    ensures forall q :: q != msg.from ==> UserRows(r.table.rows, q) == UserRows(t.rows, q)
    ensures Valid(t) ==> Valid(r.table)
  {
    if NoText(msg) then
      Outcome(None, "", t)
    else
      var text := msg.text.value;
      SelectIsRoute(text);
      var h := Select(Build(), text);
      var (reply, t') := Execute(h, msg, t, env, Orm, gate);
      Outcome(Some(h), reply, t')
  }

  /** The handler does not depend on the sender, the table or the environment. */
  lemma HandlerDependsOnText(m1: Message, m2: Message, t1: Table, t2: Table, e1: Env, e2: Env,
                             g1: GateFn, g2: GateFn)
    requires m1.text == m2.text
    ensures ProcessMessage(m1, t1, e1, g1).handler == ProcessMessage(m2, t2, e2, g2).handler
  {
  }

  /** Case and surrounding white space do not matter: a padded, any-case spelling of a
      command runs that command. */
  lemma PaddedCommandRuns(a: string, u: string, b: string)
    requires AllSpace(a) && AllSpace(b) && Lower(u) in CommandNames
    ensures Route(a + u + b) == RouteName(Lower(u))
    ensures Route(a + u + b) != TransactionCommand
  {
    ParseCommandPadded(a, u, b);
    RouteNameToTransaction(Lower(u));
  }

  /** Two texts that route to the same command other than the transaction command get
      the same reply and the same table: the command handlers read the sender, never
      the text. */
  lemma SameCommandSameOutcome(from: string, x: string, y: string, t: Table, env: Env,
                               gate: GateFn)
    requires x != "" && y != ""
    requires Route(x) == Route(y) != TransactionCommand
    ensures ProcessMessage(Message(from, Some(x)), t, env, gate) == ProcessMessage(Message(from, Some(y)), t, env, gate)
  {
  }

  /** "summary" and "total", in any case and padding, give identical replies. */
  lemma SummaryAndTotalAgree(from: string, x: string, y: string, t: Table, env: Env,
                             gate: GateFn)
    requires Trim(Lower(x)) in {"summary", "total"} && Trim(Lower(y)) in {"summary", "total"}
    ensures ProcessMessage(Message(from, Some(x)), t, env, gate).handler == Some(SummaryCommand)
    ensures ProcessMessage(Message(from, Some(x)), t, env, gate) == ProcessMessage(Message(from, Some(y)), t, env, gate)
  {
    EmptyIsNoCommand(x);
    EmptyIsNoCommand(y);
    NormalSummary(Trim(Lower(x)));
    NormalSummary(Trim(Lower(y)));
    SameCommandSameOutcome(from, x, y, t, env, gate);
  }

  lemma NormalSummary(n: string)
    requires n in {"summary", "total"}
    ensures RouteName(n) == SummaryCommand
  {
  }

  lemma EmptyIsNoCommand(x: string)
    requires Trim(Lower(x)) != ""
    ensures x != ""
  {
    var e: string := "";
    assert |Lower(e)| == 0;
  }

  /** Clearing twice has the effect and the reply of clearing once. */
  lemma ClearTwiceThroughService(msg: Message, t: Table, env: Env, gate: GateFn)
    requires !NoText(msg) && Route(msg.text.value) == ClearCommand
    ensures var once := ProcessMessage(msg, t, env, gate);
            ProcessMessage(msg, once.table, env, gate) == once
  {
    ClearTwice(msg, t, env, Orm, gate);
  }

  /** A purchase the parser returns without a store (its `store` is null) is refused by
      the program as written: the reply is "Invalid transaction data" and the table is
      left as it was. */
  lemma StorelessPurchaseRefused(msg: Message, t: Table, env: Env)
    requires !NoText(msg) && Route(msg.text.value) == TransactionCommand
    requires env.parse(msg.text.value).Some?
    requires var p := env.parse(msg.text.value).value; RequiredValid(p) && p.store.Null?
    ensures ProcessMessage(msg, t, env, GateAsWritten) == Outcome(Some(TransactionCommand), InvalidData, t)
  {
  }

  /** The same purchase under the corrected gate: exactly one row is appended, for the
      sender, without a store, and the reply confirms it. */
  lemma StorelessPurchaseRecorded(msg: Message, t: Table, env: Env)
    requires !NoText(msg) && Route(msg.text.value) == TransactionCommand
    requires env.parse(msg.text.value).Some?
    requires var p := env.parse(msg.text.value).value; RequiredValid(p) && p.store.Null?
    ensures var o := ProcessMessage(msg, t, env, Gate);
            var p := env.parse(msg.text.value).value;
            && o.handler == Some(TransactionCommand)
            && |o.table.rows| == |t.rows| + 1 && o.table.rows[..|t.rows|] == t.rows
            && o.table.rows[|t.rows|].phone == msg.from
            && o.table.rows[|t.rows|].item == p.item
            && o.table.rows[|t.rows|].store == None
            && o.reply == Confirmation(p.item, p.amount.value, p.category, None, env.render)
  {
  }
}
