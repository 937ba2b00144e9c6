/**
  The command handlers of src/finance/commands/ and their twins in
  src/features/finance/service.ts: recording a transaction behind the
  `ParsedTransactionSchema` gate, the summary, the history, clearing and help. A handler
  runs on one message against one table and answers with a reply and the new table.
 */
module Commands {
  import opened Options
  import opened Json
  import opened Text
  import opened Parser
  import opened Transactions
  import opened Aggregate
  import opened Format
  import opened Registry
  import opened Schemas

  /** What the handlers need from outside: the transaction parser (an HTTP call to a
      language model, behind `parseTransaction`), the clock that stamps `created_at`, and
      the number and date rendering. */
  datatype Env = Env(parse: string -> Option<ParsedTransaction>, now: nat, render: Render)

  /** Which store the handler writes through: `TransactionModel` (drizzle) for the
      command classes, the hand-written SQL of src/db/sqlite.ts for the features service. */
  datatype Backend = Orm | Sqlite

  /** `getMany(message.from, 10)` in the history handlers. */
  const HistoryLimit: nat := 10

  // ---------------------------------------------------------------------------
  // The recording gate
  // ---------------------------------------------------------------------------

  /** What `ParsedTransactionSchema.safeParse` hands back on success. */
  datatype Validated = Validated(amount: real, item: string, category: string, store: Option<string>)

  /** `z.number().positive()`: a number above zero; NaN is not a number to zod. */
  predicate PositiveNumber(n: Number)
  {
    n.Finite? && n.value > 0.0
  }

  /** A reading of `ParsedTransactionSchema.safeParse`: the validated transaction, or
      None when the parse is refused. */
  type GateFn = ParsedTransaction -> Option<Validated>

  /** The checks on amount, item and category, common to both readings of the gate. */
  predicate RequiredValid(p: ParsedTransaction)
  {
    PositiveNumber(p.amount) && |p.item| > 0 && |p.category| > 0
  }

  /** `ParsedTransactionSchema` as written: `store: z.string().optional()` accepts an
      absent store or a string, and refuses null. */
  function GateAsWritten(p: ParsedTransaction): (r: Option<Validated>)
    ensures r.Some? <==> RequiredValid(p) && !p.store.Null?
    ensures r.Some? ==> && r.value.amount == p.amount.value
                        && r.value.item == p.item && r.value.category == p.category
                        && (r.value.store.Some? <==> p.store.Given?)
                        && (p.store.Given? ==> r.value.store == Some(p.store.name))
  {
    if !RequiredValid(p) then None
    else
      match p.store
      case Null => None
      case Missing => Some(Validated(p.amount.value, p.item, p.category, None))
      case Given(s) => Some(Validated(p.amount.value, p.item, p.category, Some(s)))
  }

  /** The corrected gate: a null store is read as no store, as the parser's declared
      result type (`store?: string`) and the insertion's `store || null` both expect. */
  function Gate(p: ParsedTransaction): (r: Option<Validated>)
    ensures r.Some? <==> RequiredValid(p)
    ensures r.Some? ==> && r.value.amount == p.amount.value
                        && r.value.item == p.item && r.value.category == p.category
                        && (r.value.store.Some? <==> p.store.Given?)
                        && (p.store.Given? ==> r.value.store == Some(p.store.name))
  {
    if !RequiredValid(p) then None
    else
      match p.store
      case Given(s) => Some(Validated(p.amount.value, p.item, p.category, Some(s)))
      case _ => Some(Validated(p.amount.value, p.item, p.category, None))
  }

  /** The two readings differ on a null store alone. */
  lemma GatesDifferOnlyOnNull(p: ParsedTransaction)
    ensures !p.store.Null? ==> GateAsWritten(p) == Gate(p)
    ensures p.store.Null? ==> GateAsWritten(p).None? && (Gate(p).Some? <==> RequiredValid(p))
  {
  }

  /** Every object the parser accepts with a positive amount and a missing or null store
      comes back with a null store, which the gate as written refuses and the corrected gate lets
      through. */
  lemma StorelessParseRejected(o: map<string, JsonValue>, host: Host, x: real)
    requires "amount" in o && o["amount"] == JNumber(x) && x > 0.0
    requires "item" in o && o["item"].JString? && Trim(o["item"].s) != ""
    requires "category" in o && o["category"].JString? && Trim(o["category"].s) != ""
    requires "store" !in o || o["store"] == JNull
    ensures Normalize(o, host).Some?
    ensures Normalize(o, host).value.store == Null
    ensures GateAsWritten(Normalize(o, host).value).None?
    ensures Gate(Normalize(o, host).value).Some?
  {
    assert |o["item"].s| > 0 && |o["category"].s| > 0;
    var p := Normalize(o, host).value;
    assert |p.category| == |Trim(o["category"].s)|;
  }

  /** Whatever the parser returns, its results pass the corrected gate exactly when the
      amount is a positive number: items and categories are never empty after the
      truthiness check and normalisation, unless they were white space alone. */
  lemma ParsedPassesGate(o: map<string, JsonValue>, host: Host)
    requires Normalize(o, host).Some?
    requires Trim(o["item"].s) != "" && Trim(o["category"].s) != ""
    ensures Gate(Normalize(o, host).value).Some? <==> PositiveNumber(ToNumber(o["amount"], host))
  {
    var p := Normalize(o, host).value;
    assert |p.category| == |Trim(o["category"].s)|;
  }

  // ---------------------------------------------------------------------------
  // Recording a transaction
  // ---------------------------------------------------------------------------

  /** The store column a backend writes for a validated store. */
  function StoredStore(backend: Backend, store: Option<string>): (r: Option<string>)
    ensures backend.Orm? ==> r == store
    ensures backend.Sqlite? ==> (r.None? <==> !Present(store)) && (r.Some? ==> r == store)
  {
    match backend
    case Orm => store
    case Sqlite => StoreColumn(store)
  }

  /** One insertion through a backend. */
  function Insert(t: Table, n: NewRow, now: nat, backend: Backend): (r: Table)
    ensures |r.rows| == |t.rows| + 1 && r.rows[..|t.rows|] == t.rows
    ensures var row := r.rows[|t.rows|];
            && row.phone == n.phone && row.amount == n.amount && row.item == n.item
            && row.category == n.category && row.store == StoredStore(backend, n.store)
            && row.createdAt == now
  {
    match backend
    case Orm => Add(t, n, now).0
    case Sqlite => SqliteAdd(t, n, now).0
  }

  /** An insertion is seen by its own user only, and keeps the table valid. */
  lemma InsertEffects(t: Table, n: NewRow, now: nat, backend: Backend)
    ensures var r := Insert(t, n, now, backend);
            && UserRows(r.rows, n.phone) == UserRows(t.rows, n.phone) + [r.rows[|t.rows|]]
            && (forall q :: q != n.phone ==> UserRows(r.rows, q) == UserRows(t.rows, q))
            && (Valid(t) ==> Valid(r))
  {
    var n' := if backend.Orm? then n else n.(store := StoreColumn(n.store));
    assert Insert(t, n, now, backend) == Add(t, n', now).0;
    AddUserRows(t, n', now, n.phone);
    forall q | q != n.phone
      ensures UserRows(Add(t, n', now).0.rows, q) == UserRows(t.rows, q)
    {
      AddUserRows(t, n', now, q);
    }
  }

  /** `execute` of TransactionCommand and `handleTransaction`, after the parser has run:
      no parse and a refused parse each leave the table alone with their fixed reply; a
      validated parse inserts exactly one row for the sender and confirms it. */
  function Record(parsed: Option<ParsedTransaction>, gate: GateFn,
                  phone: string, t: Table, now: nat, render: Render, backend: Backend): (r: (string, Table))
    ensures parsed.None? ==> r == (CouldNotParse, t)
    ensures parsed.Some? && gate(parsed.value).None? ==> r == (InvalidData, t)
    ensures parsed.Some? && gate(parsed.value).Some? ==>
              var v := gate(parsed.value).value;
              && |r.1.rows| == |t.rows| + 1 && r.1.rows[..|t.rows|] == t.rows
              && r.1.rows[|t.rows|].phone == phone
              && r.1.rows[|t.rows|].amount == v.amount
              && r.1.rows[|t.rows|].item == v.item
              && r.1.rows[|t.rows|].category == v.category
              && r.1.rows[|t.rows|].store == StoredStore(backend, v.store)
              && r.0 == Confirmation(v.item, v.amount, v.category, v.store, render)
    ensures forall q :: q != phone ==> UserRows(r.1.rows, q) == UserRows(t.rows, q)
    ensures Valid(t) ==> Valid(r.1)
  {
    match parsed
    case None => (CouldNotParse, t)
    case Some(p) =>
      match gate(p)
      case None => (InvalidData, t)
      case Some(v) =>
        var n := NewRow(phone, v.amount, v.item, v.category, v.store);
        InsertEffects(t, n, now, backend);
        (Confirmation(v.item, v.amount, v.category, v.store, render), Insert(t, n, now, backend))
  }

  /** `execute` of TransactionCommand and `handleTransaction`: the raw text (or "" for an
      absent one, `message.text || ''`) goes to the parser, and the parse meets `gate`.
      The program as written passes `GateAsWritten`; the corrected program passes `Gate`. */
  function RecordTransaction(msg: Message, t: Table, env: Env, backend: Backend,
                             gate: GateFn): (r: (string, Table))
    ensures r == Record(env.parse(msg.text.GetOr("")), gate, msg.from, t, env.now, env.render, backend)
    ensures env.parse(msg.text.GetOr("")).None? ==> r == (CouldNotParse, t)
    ensures forall q :: q != msg.from ==> UserRows(r.1.rows, q) == UserRows(t.rows, q)
    ensures Valid(t) ==> Valid(r.1)
  {
    Record(env.parse(msg.text.GetOr("")), gate, msg.from, t, env.now, env.render, backend)
  }

  /** A store-less parse is answered "Invalid transaction data" and records nothing under
      the gate as written; under the corrected gate exactly one row is recorded for it. */
  lemma StorelessTransactionRefused(msg: Message, t: Table, env: Env, backend: Backend)
    requires env.parse(msg.text.GetOr("")).Some?
    requires var p := env.parse(msg.text.GetOr("")).value; RequiredValid(p) && p.store.Null?
    ensures RecordTransaction(msg, t, env, backend, GateAsWritten) == (InvalidData, t)
    ensures |RecordTransaction(msg, t, env, backend, Gate).1.rows| == |t.rows| + 1
    ensures RecordTransaction(msg, t, env, backend, Gate).1.rows[|t.rows|].phone == msg.from
  {
  }

  // ---------------------------------------------------------------------------
  // The handlers
  // ---------------------------------------------------------------------------

  /** `execute` of each command class (and the matching branch of the features
      service): the read-only handlers leave the table alone, clearing removes the
      sender's rows, recording adds at most one; no handler touches another user's rows. */
  function Execute(h: Handler, msg: Message, t: Table, env: Env, backend: Backend,
                   gate: GateFn): (r: (string, Table))
    ensures h.SummaryCommand? ==> r == (FormatSummary(Summarize(t, msg.from), env.render), t)
    ensures h.HistoryCommand? ==> r == (FormatHistory(GetMany(t, msg.from, HistoryLimit), env.render), t)
    ensures h.ClearCommand? ==> r.0 == Cleared && UserRows(r.1.rows, msg.from) == [] && r.1 == Clear(t, msg.from)
    ensures h.HelpCommand? ==> r == (HelpText, t)
    ensures h.TransactionCommand? ==> r == RecordTransaction(msg, t, env, backend, gate)
    ensures forall q :: q != msg.from ==> UserRows(r.1.rows, q) == UserRows(t.rows, q)
    ensures Valid(t) ==> Valid(r.1)
  {
    match h
    case SummaryCommand => (FormatSummary(Summarize(t, msg.from), env.render), t)
    case HistoryCommand => (FormatHistory(GetMany(t, msg.from, HistoryLimit), env.render), t)
    case ClearCommand => (Cleared, Clear(t, msg.from))
    case HelpCommand => (HelpText, t)
    case TransactionCommand => RecordTransaction(msg, t, env, backend, gate)
  }

  /** The backend decides only the stored form of a new row's store: the replies agree,
      and so do the tables after every handler but the transaction one. */
  lemma BackendsAgree(h: Handler, msg: Message, t: Table, env: Env, gate: GateFn)
    ensures Execute(h, msg, t, env, Orm, gate).0 == Execute(h, msg, t, env, Sqlite, gate).0
    ensures !h.TransactionCommand? ==> Execute(h, msg, t, env, Orm, gate).1 == Execute(h, msg, t, env, Sqlite, gate).1
  {
    if h.TransactionCommand? {
      var parsed := env.parse(msg.text.GetOr(""));
      if parsed.Some? && gate(parsed.value).Some? {
        var v := gate(parsed.value).value;
        assert RecordTransaction(msg, t, env, Orm, gate).0 == Confirmation(v.item, v.amount, v.category, v.store, env.render);
        assert RecordTransaction(msg, t, env, Sqlite, gate).0 == Confirmation(v.item, v.amount, v.category, v.store, env.render);
      }
    }
  }

  /** The history reply lists at most ten of the sender's rows, newest first. */
  lemma HistoryListsRecentRows(msg: Message, t: Table, env: Env, backend: Backend,
                                gate: GateFn)
    ensures var rows := GetMany(t, msg.from, HistoryLimit);
            && |rows| <= 10
            && (forall x :: x in rows ==> x in t.rows && x.phone == msg.from)
            && (forall i, j :: 0 <= i < j < |rows| ==> rows[i].createdAt >= rows[j].createdAt)
            && Execute(HistoryCommand, msg, t, env, backend, gate).0 == FormatHistory(rows, env.render)
  {
  }

  /** Clearing twice has the effect and the reply of clearing once. */
  lemma ClearTwice(msg: Message, t: Table, env: Env, backend: Backend,
                  gate: GateFn)
    ensures var once := Execute(ClearCommand, msg, t, env, backend, gate);
            Execute(ClearCommand, msg, once.1, env, backend, gate) == once
  {
    ClearIdempotent(t, msg.from);
  }
}
