/**
  `CommandRegistry`: a map from command names and aliases to handlers, filled once by the
  constructor, and the routing of `processMessage` in src/finance/service.ts that looks
  the parsed command up in it. The `Command` interface becomes the closed `Handler` type.
 */
module Registry {
  import opened Options
  import opened Text
  import opened Schemas

  datatype Handler = SummaryCommand | HistoryCommand | ClearCommand | HelpCommand | TransactionCommand

  /** A command class's `name`, `aliases` and the handler it stands for. */
  datatype CommandDef = CommandDef(name: string, aliases: seq<string>, handler: Handler)

  type Registry = map<string, Handler>

  /** The `name` and `aliases` of each command class. */
  const SummaryDef: CommandDef := CommandDef("summary", ["total"], SummaryCommand)
  const HistoryDef: CommandDef := CommandDef("history", ["list"], HistoryCommand)
  const ClearDef: CommandDef := CommandDef("clear", [], ClearCommand)
  const HelpDef: CommandDef := CommandDef("help", [], HelpCommand)
  const TransactionDef: CommandDef := CommandDef("transaction", [], TransactionCommand)

  /** The loop over `command.aliases`: each alias is set to the handler. */
  function SetAliases(m: Registry, aliases: seq<string>, h: Handler): (r: Registry)
    ensures r.Keys == m.Keys + set a | a in aliases
    ensures forall a :: a in aliases ==> r[a] == h
    ensures forall k :: k in m && k !in aliases ==> r[k] == m[k]
    decreases |aliases|
  {
    if |aliases| == 0 then m
    else
      var r := SetAliases(m[aliases[0] := h], aliases[1..], h);
      assert forall a :: a in aliases <==> a == aliases[0] || a in aliases[1..];
      r
  }

  /** `register`: the name, then every alias, maps to the command; other keys keep their
      handler. */
  function Register(m: Registry, d: CommandDef): (r: Registry)
    ensures r.Keys == m.Keys + {d.name} + set a | a in d.aliases
    ensures r[d.name] == d.handler
    ensures forall a :: a in d.aliases ==> r[a] == d.handler
    ensures forall k :: k in m && k != d.name && k !in d.aliases ==> r[k] == m[k]
  {
    SetAliases(m[d.name := d.handler], d.aliases, d.handler)
  }

  /** The constructor: the five commands registered in turn. */
  function Build(): Registry
  {
    Register(Register(Register(Register(Register(map[], SummaryDef), HistoryDef), ClearDef), HelpDef), TransactionDef)
  }

  lemma RegisterSummary(m: Registry)
    requires m == map[]
    ensures Register(m, SummaryDef) == map["summary" := SummaryCommand, "total" := SummaryCommand]
  {
    assert (set a | a in ["total"]) == {"total"};
  }

  lemma RegisterHistory(m: Registry)
    requires m == map["summary" := SummaryCommand, "total" := SummaryCommand]
    ensures Register(m, HistoryDef) == m["history" := HistoryCommand]["list" := HistoryCommand]
  {
    assert (set a | a in ["list"]) == {"list"};
  }

  lemma RegisterPlain(m: Registry, d: CommandDef)
    requires d.aliases == []
    ensures Register(m, d) == m[d.name := d.handler]
  {
    assert (set a: string | a in []) == {};
  }

  /** The registry the constructor builds, written out. */
  const Expected: Registry := map["summary" := SummaryCommand, "total" := SummaryCommand,
                                  "history" := HistoryCommand, "list" := HistoryCommand,
                                  "clear" := ClearCommand, "help" := HelpCommand,
                                  "transaction" := TransactionCommand]

  /** The registry after the first two commands, which carry the aliases. */
  const AfterHistory: Registry := map["summary" := SummaryCommand, "total" := SummaryCommand,
                                      "history" := HistoryCommand, "list" := HistoryCommand]

  /** The three alias-free commands added to `AfterHistory`, one key each. */
  lemma ExpectedByKey()
    ensures Expected == AfterHistory["clear" := ClearCommand]["help" := HelpCommand]["transaction" := TransactionCommand]
  {
  }

  /** The first two registrations give `AfterHistory`. */
  lemma BuildWithAliases()
    ensures Register(Register(map[], SummaryDef), HistoryDef) == AfterHistory
  {
    RegisterSummary(map[]);
    RegisterHistory(map["summary" := SummaryCommand, "total" := SummaryCommand]);
  }

  /** The keys of the registry the constructor builds. */
  lemma ExpectedKeys()
    ensures Expected.Keys == {"summary", "total", "history", "list", "clear", "help", "transaction"}
  {
  }

  /** After construction the keys are exactly the five names and two aliases, and each
      alias maps to the same handler as its command's name. */
  lemma BuildContents()
    ensures Build() == Expected
    ensures Build().Keys == {"summary", "total", "history", "list", "clear", "help", "transaction"}
  {
    BuildWithAliases();
    var m2 := AfterHistory;
    assert Build() == Register(Register(Register(m2, ClearDef), HelpDef), TransactionDef);
    RegisterPlain(m2, ClearDef);
    var m3 := m2["clear" := ClearCommand];
    RegisterPlain(m3, HelpDef);
    var m4 := m3["help" := HelpCommand];
    RegisterPlain(m4, TransactionDef);
    assert Build() == m4["transaction" := TransactionCommand];
    ExpectedByKey();
    ExpectedKeys();
  }

  /** `get`: the registered handler, or undefined. */
  function Get(reg: Registry, name: string): (r: Option<Handler>)
    ensures r.None? <==> name !in reg
    ensures r.Some? ==> r.value == reg[name]
  {
    if name in reg then Some(reg[name]) else None
  }

  /** `getTransactionCommand`: the handler under "transaction"; the `!` in the source
      asserts it is registered. */
  function GetTransactionCommand(reg: Registry): (r: Handler)
    requires "transaction" in reg
    ensures r == reg["transaction"]
  {
    reg["transaction"]
  }

  /** The handler `processMessage` runs for a non-empty text: the parsed command's, when
      there is one and it is registered, otherwise the transaction command. */
  function Select(reg: Registry, text: string): Handler
    requires "transaction" in reg
  {
    SelectParsed(reg, ParseCommand(text))
  }

  function SelectParsed(reg: Registry, command: Option<string>): Handler
    requires "transaction" in reg
  {
    match command
    case Some(c) =>
      (match Get(reg, c)
       case Some(h) => h
       case None => GetTransactionCommand(reg))
    case None => GetTransactionCommand(reg)
  }

  /** The routing table written out, on the normalised text: a command by name or
      alias; everything else is a transaction. */
  function RouteName(n: string): Handler
  {
    if n == "summary" || n == "total" then SummaryCommand
    else if n == "history" || n == "list" then HistoryCommand
    else if n == "clear" then ClearCommand
    else if n == "help" then HelpCommand
    else TransactionCommand
  }

  function Route(text: string): Handler
  {
    RouteName(Trim(Lower(text)))
  }

  /** On the constructed registry, looking the parsed command up is the routing table. */
  lemma SelectParsedOnExpected(reg: Registry, n: string)
    requires reg == Expected
    ensures "transaction" in reg
    ensures SelectParsed(reg, if n in CommandNames then Some(n) else None) == RouteName(n)
  {
  }

  /** Dispatch through the constructed registry is the routing table: every command name
      resolves to a defined handler, and no text is left without one. */
  lemma SelectIsRoute(text: string)
    ensures "transaction" in Build()
    ensures Select(Build(), text) == Route(text)
  {
    BuildContents();
    var n := Trim(Lower(text));
    assert ParseCommand(text) == if n in CommandNames then Some(n) else None;
    SelectParsedOnExpected(Build(), n);
  }

  /** Only a command name or alias routes away from the transaction handler. */
  lemma RouteNameToTransaction(n: string)
    ensures RouteName(n) == TransactionCommand <==> n !in CommandNames
  {
  }

  /** A word of lower-case ASCII letters parses as itself when it is a command, and as no
      command otherwise. */
  lemma ParseCommandOfWord(t: string)
    requires forall k :: 0 <= k < |t| ==> 'a' <= t[k] <= 'z'
    ensures ParseCommand(t) == if t in CommandNames then Some(t) else None
  {
    assert Lower(t) == t;
    if |t| > 0 {
      assert TrimmedAt(t, 0, |t|);
      TrimOfTrimmedAt(t, 0, |t|);
      assert t[0..|t|] == t;
    }
  }

  /** "transaction" is no command: the transaction handler is reached only as the
      fallback. */
  lemma TransactionIsNoCommand(t: string)
    requires t == "transaction"
    ensures ParseCommand(t) == None
  {
    assert forall k :: 0 <= k < |t| ==> 'a' <= t[k] <= 'z';
    assert t !in CommandNames;
    ParseCommandOfWord(t);
  }
}
