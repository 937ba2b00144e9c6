# Finance tracker chatbot: a Dafny model

This project models the message-handling core of a WhatsApp finance tracker. A user
sends a text. A command word (`summary`/`total`, `history`/`list`, `clear`, `help`)
gets a report about that user's spending. Any other text is sent to a language model,
which turns it into a purchase (amount, item, category, optional store). The purchase
is checked against a schema and stored in a `transactions` table.

The program has two services, and both are modelled:

- `src/finance/service.ts` lower-cases and trims the text (`parseCommand`). It looks
  the result up in the `CommandRegistry` and falls back to the transaction command.
  It writes through the drizzle `TransactionModel`.
- `src/features/finance/service.ts` compares the lower-cased text with the command
  words exactly, without trimming. It writes through the hand-written SQL of
  `src/db/sqlite.ts`.

Modules, one per concept of the program:

| module | file | what it holds |
|---|---|---|
| `Options` | options.dfy | the optional value |
| `Json` | json.dfy | JSON values, truthiness, `Number(...)`, and the uninterpreted host functions |
| `Text` | text.dfy | `trim()`, `toLowerCase()` on ASCII, and the decimal rendering of counts |
| `Sorting` | sorting.dfy | a descending sort by a key, used for both `ORDER BY ... DESC` clauses |
| `Transactions` | transactions.dfy | the table shared by the three stores: insert, `WHERE phone`, delete, and `ORDER BY created_at DESC LIMIT n` |
| `Aggregate` | aggregate.dfy | `getSummary`: sum, count, and `GROUP BY category ORDER BY SUM(amount) DESC` |
| `Parser` | parser.dfy | the post-processing in `src/ai/parser.ts`: the `/\{[^}]+\}/` match, the field check, normalisation |
| `Replicate` | replicate.dfy | the second parser copy, `src/lib/replicate.ts` |
| `Format` | format.dfy | every reply text |
| `Schemas` | schemas.dfy | the zod schemas for webhook bodies and messages, and `parseCommand` |
| `Registry` | registry.dfy | `CommandRegistry` and the routing that uses it |
| `Commands` | commands.dfy | the five handlers and the `ParsedTransactionSchema` gate |
| `Service` | service.dfy | `processMessage` of `src/finance/service.ts` |
| `FeatureService` | feature.dfy | `processMessage` of `src/features/finance/service.ts` |

Each handler returns its reply together with the table after it ran. The language
model, the clock and the number/date formatting are inputs of type `Commands.Env`.

The recording gate is a parameter of both services. The program as written is
`ProcessMessage(msg, t, env, GateAsWritten)`. The corrected program, which treats a
null store as no store, is `ProcessMessage(msg, t, env, Gate)` (see "## Findings").

## Model

| member | source | states |
|---|---|---|
| Schemas.NonEmptyString | src/finance/schemas.ts:27 | `z.string().min(1)` accepts exactly a non-empty string and returns it unchanged |
| Schemas.OptionalTrimmed | src/finance/schemas.ts:28 | `z.string().trim().optional()` accepts an absent field or a string and yields the trimmed string; null and non-strings are refused |
| Schemas.ValidateMessage | src/finance/schemas.ts:26-29 | `MessageSchema` accepts exactly an object whose `from` is a non-empty string and whose `text` is absent or a string; the accepted text is trimmed |
| Schemas.MessageRoundTrip | src/features/finance/schemas.ts:16-19 | every validated message is well formed, and every well-formed message survives encoding then validation unchanged |
| Schemas.OptionalBody | src/finance/schemas.ts:11-13 | `text: {body}` is optional; when present it must be an object with a string `body`, which is trimmed |
| Schemas.ValidateWebhookMessage | src/finance/schemas.ts:9-14 | an element of `messages` is accepted exactly when `from` is non-empty and `text` is absent or holds a string body |
| Schemas.ValidateAll | src/finance/schemas.ts:8-14 | an array is accepted exactly when every element is, and the result keeps the elements in order |
| Schemas.ValidateWebhookBody | src/finance/schemas.ts:7-16 | a body without `messages` is accepted with none; a present `messages` must be a non-empty array of valid elements |
| Schemas.WebhookMessageRoundTrip | src/finance/schemas.ts:9-14 | a well-formed webhook message survives encoding then validation |
| Schemas.WebhookRoundTrip | src/features/finance/schemas.ts:3-12 | everything validation accepts is well formed, and every well-formed body survives encoding then validation |
| Schemas.ParseCommand | src/finance/schemas.ts:39-57 | the text is a command exactly when its lower-cased, trimmed form is one of the six words, and that form is returned |
| Schemas.CommandNamesPlain | src/finance/schemas.ts:39 | the six command words are lower case and contain no white space |
| Schemas.ParseCommandPadded | src/finance/schemas.ts:51-55 | a command word in any case, padded by white space on either side, parses as that word |
| Schemas.ParseCommandOfName | src/finance/schemas.ts:51-55 | each command word parses as itself |
| Schemas.ParseCommandAfterWord | src/finance/schemas.ts:51-56 | a word followed by a space and a command word is not a command |
| Text.TrimIsTrimmedAt | src/finance/schemas.ts:52 | `trim()` removes exactly the leading and trailing white space: what it removes is white space, and the kept text starts and ends with a non-space |
| Text.TrimmedAtUnique | src/finance/schemas.ts:52 | there is only one such trimming of a string |
| Text.TrimOfTrimmedAt | src/ai/parser.ts:65 | any slice that is bounded by non-space characters and surrounded by white space only is the trimmed string |
| Text.TrimPadded | src/ai/parser.ts:65 | trimming a white-space-padded string whose ends are not spaces gives that string back |
| Text.TrimIdempotent | src/ai/parser.ts:66 | trimming twice equals trimming once |
| Text.TrimIgnoresPadding | src/finance/schemas.ts:52 | extra white space around a string does not change its trimmed form |
| Text.Lower | src/finance/schemas.ts:52 | the model of `toLowerCase()`: the result has no ASCII capital; ASCII `A`-`Z` become `a`-`z` and exactly the other characters are kept, so the length is kept (the gaps to JavaScript are under "## Left out") |
| Text.LowerTrimmedAt | src/finance/schemas.ts:52 | lower-casing changes no white space, so it keeps the trim bounds |
| Text.TrimLowerCommute | src/finance/schemas.ts:52 | `toLowerCase().trim()` equals `trim().toLowerCase()` |
| Text.NatToString | src/finance/commands/SummaryCommand.ts:42 | a count renders as a non-empty string of decimal digits with no leading zero |
| Text.NatToStringRoundTrip | src/finance/commands/SummaryCommand.ts:48 | reading the rendered digits back gives the count |
| Sorting.InsertDesc | src/db/transaction/index.ts:35 | inserting into a descending list gives a descending permutation of the list plus the new element |
| Sorting.SortDesc | src/db/sqlite.ts:45 | `ORDER BY key DESC` returns a permutation of its input in non-increasing key order |
| Transactions.UserRows | src/db/transaction/index.ts:34 | `WHERE phone_number = p` keeps exactly the rows of `p` |
| Transactions.OtherRows | src/db/transaction/index.ts:82 | the rows a `DELETE ... WHERE phone_number = p` leaves are exactly the rows of other users |
| Transactions.DistinctIdsCons | src/db/sqlite.ts:11 | a list has distinct ids exactly when its tail does and the head's id is not reused (the primary key) |
| Transactions.OtherRowsDistinct | src/db/sqlite.ts:11 | deleting rows keeps the remaining ids distinct |
| Transactions.UserRowsAppend | src/db/queries.ts:15 | filtering by phone distributes over concatenation |
| Transactions.UserRowsOfOthers | src/db/queries.ts:49-51 | deleting one user's rows leaves every other user's rows as they were |
| Transactions.OtherRowsIdempotent | src/db/queries.ts:49-51 | deleting the same user's rows twice equals deleting them once |
| Transactions.Add | src/db/transaction/index.ts:18-21 | an insert appends exactly one row carrying the given fields and time, keeps the earlier rows, and gives it an id no earlier row has |
| Transactions.AddUserRows | src/db/queries.ts:6-9 | an inserted row appears at the end of its own user's rows and in no one else's |
| Transactions.StoreColumn | src/db/sqlite.ts:35 | `store \|\| null` writes NULL exactly for an absent or empty store, and the store itself otherwise |
| Transactions.SqliteAdd | src/db/sqlite.ts:24-39 | the SQL insert is the shared insert with the store column normalised, and it returns the caller's input with the new id |
| Transactions.Clear | src/db/transaction/index.ts:81-83 | the rows that remain are exactly the other users' rows; the user has none left, other users' rows are unchanged, and ids stay valid |
| Transactions.ClearIdempotent | src/db/sqlite.ts:78-81 | a second clear of the same user changes nothing |
| Transactions.NewestPrefix | src/db/sqlite.ts:41-50 | the first `n` rows of a newest-first permutation of a user's rows form a recent listing |
| Transactions.GetMany | src/db/transaction/index.ts:30-37 | returns `min(limit, count)` of the user's rows, newest first; no row left out is newer than the last one returned |
| Transactions.DefaultListingComplete | src/db/queries.ts:11-18 | with the default limit of 50, a user with at most 50 rows gets every one back |
| Transactions.EmptyTable | src/db/sqlite.ts:9-19 | a freshly created table is valid, and its first row gets id 1 |
| Aggregate.AddRow | src/db/transaction/index.ts:58-66 | adding a row raises its category's total by the amount and its count by one, and leaves every other category alone |
| Aggregate.Group | src/db/transaction/index.ts:58-66 | `GROUP BY category`: one entry per category of the rows, each with that category's sum and count |
| Aggregate.InsertSums | src/db/transaction/index.ts:67 | an insertion into a sorted list adds the entry's total and count to the sums |
| Aggregate.SortSums | src/db/transaction/index.ts:67 | sorting keeps the sum of totals and of counts |
| Aggregate.SortDistinct | src/db/transaction/index.ts:67 | sorting keeps category names distinct |
| Aggregate.Breakdown | src/db/transaction/index.ts:58-67 | the breakdown has one entry per category with its exact sum and count, ordered by total descending; totals and counts add up to the user's |
| Aggregate.SqlSum | src/db/transaction/index.ts:49 | `SUM(amount)` is NULL exactly over no rows and is the plain sum otherwise |
| Aggregate.OrZero | src/db/transaction/index.ts:70 | `x \|\| 0` is 0 for NULL and `x` otherwise |
| Aggregate.Summarize | src/db/transaction/index.ts:45-74 | the total is the sum of the user's amounts and the count their number; there are categories exactly when the count is positive, and they add up to the total and count |
| Parser.MatchEndForced | src/ai/parser.ts:48 | for a given start the regular expression can only end at the first following '}' |
| Parser.NextClose | src/ai/parser.ts:48 | the first '}' at or after a position, or the end of the text |
| Parser.MatchFrom | src/ai/parser.ts:48 | a match returned is a match; no match starts earlier; None means there is no match at all |
| Parser.ExtractObject | src/ai/parser.ts:48-52 | `outputText.match(/\{[^}]+\}/)` returns none exactly when there is no match; otherwise the leftmost match, which holds exactly one '}', its last character |
| Parser.ExtractAfterPrefix | src/lib/replicate.ts:36 | text before the object that holds no '{' does not change what is extracted, and nothing after the object is looked at |
| Parser.StoreOf | src/ai/parser.ts:67 | `store?.trim() \|\| null`: absent, null or blank gives null, a string gives its trimmed form, and any other value is a TypeError |
| Parser.Normalize | src/ai/parser.ts:57-68 | accepts exactly when amount, item and category are truthy, item and category are strings, and the store is usable; the fields are normalised as in the source |
| Parser.ParseText | src/lib/replicate.ts:36-54 | no match, or a match `JSON.parse` refuses, gives null; otherwise the result is the field check and normalisation of the parsed object |
| Parser.OutputText | src/ai/parser.ts:43-45 | an array is joined with `Join`; a falsy output becomes ""; a string is kept; any other value has no `.match` (a TypeError, so null) |
| Parser.ParseTransaction | src/ai/parser.ts:35-72 | a failed request, or an output with no text, gives null; otherwise the result is exactly the parse of the output text |
| Parser.ParseTransactionOfObject | src/ai/parser.ts:43-68 | end to end: a string output in which the first object follows text without `{` gives the normalisation of what `JSON.parse` makes of that object, whatever text follows it |
| Parser.ParseTransactionWithoutBrace | src/ai/parser.ts:48-52 | end to end: a string output with no `{` gives null |
| Parser.ParsedFieldsAreNormal | src/ai/parser.ts:63-68 | a returned item is trimmed; the category is trimmed and lower case; the store is never absent, and it is null exactly when missing or blank |
| Parser.LowerIdempotent | src/ai/parser.ts:66 | lower-casing twice equals lower-casing once |
| Parser.AmountCheckIsTruthiness | src/ai/parser.ts:57 | the amount check refuses only a falsy amount; a negative amount passes the parser |
| Replicate.ResponseText | src/lib/replicate.ts:34 | a string output is used as is; anything else is stringified |
| Replicate.ParseTransaction | src/lib/replicate.ts:21-58 | a failed run gives null; otherwise the result is the parse of the response text |
| Replicate.ParseTransactionOfObject | src/lib/replicate.ts:34-54 | end to end: a string response in which the first object follows text without `{` gives the normalisation of that object, whatever text follows it |
| Replicate.ParseTransactionWithoutBrace | src/lib/replicate.ts:34-40 | end to end: a string response with no `{` gives null |
| Replicate.ParsersAgreeOnText | src/lib/replicate.ts:34-54 | on a plain-text output the two parsers return the same result |
| Format.CategoryLinesAppend | src/finance/commands/SummaryCommand.ts:47-49 | the category bullets of a concatenation are the bullets of each part, in order |
| Format.FormatSummary | src/finance/commands/SummaryCommand.ts:35-53 | the fixed empty message appears exactly when the count is 0; otherwise the head lines, then a categories section exactly when there are categories |
| Format.EntryStoreSuffix | src/finance/commands/HistoryCommand.ts:45-46 | ` @ store` follows the category exactly when the store is truthy |
| Format.EntriesAppend | src/features/finance/service.ts:138-143 | the entries of a concatenation are the entries of each part, in order |
| Format.FormatHistory | src/finance/commands/HistoryCommand.ts:35-51 | the fixed empty message appears exactly when there are no rows; otherwise the header followed by one entry per row, in order |
| Format.ConfirmationStoreSuffix | src/finance/commands/TransactionCommand.ts:67-71 | the reply is the head, then ` at <store>` exactly when the store is truthy, then the category in parentheses |
| Registry.SetAliases | src/finance/commands/CommandRegistry.ts:38-42 | every alias maps to the command; other keys keep their handler |
| Registry.Register | src/finance/commands/CommandRegistry.ts:33-43 | the name and every alias map to the command; other keys keep their handler |
| Registry.BuildContents | src/finance/commands/CommandRegistry.ts:21-27 | after construction the keys are exactly the five names and two aliases, each mapped to its command |
| Registry.Get | src/finance/commands/CommandRegistry.ts:50-52 | an unregistered name gives undefined, and a registered one gives its handler |
| Registry.GetTransactionCommand | src/finance/commands/CommandRegistry.ts:59-61 | the handler registered under "transaction" |
| Registry.SelectIsRoute | src/finance/service.ts:25-36 | the registry lookup with its fallback picks the same handler as the routing table written out |
| Registry.SelectParsedOnExpected | src/finance/service.ts:28-36 | a parsed command is looked up; no command, or an unknown one, falls back to the transaction command |
| Registry.RouteNameToTransaction | src/finance/service.ts:36 | a normalised text goes to the transaction command exactly when it is not a command word |
| Registry.ParseCommandOfWord | src/finance/schemas.ts:51-56 | a word of lower-case letters parses as itself when it is one of the six command words, and as no command otherwise |
| Registry.TransactionIsNoCommand | src/finance/schemas.ts:39 | the word "transaction" is registered but is not a command, so it can only be reached by the fallback |
| Commands.GateAsWritten | src/finance/commands/TransactionCommand.ts:12-17 | `ParsedTransactionSchema` accepts exactly a positive finite amount, a non-empty item and category, and a store that is absent or a string (null is refused) |
| Commands.Gate | src/features/finance/service.ts:7-12 | the corrected gate: the same checks, with a null store read as no store |
| Commands.GatesDifferOnlyOnNull | src/features/finance/service.ts:11 | the two gates agree on every parse without a null store |
| Commands.StorelessParseRejected | src/ai/parser.ts:67 | every parsed object with a positive amount and a missing or null store comes back with a null store; the gate as written refuses it and the corrected gate accepts it |
| Commands.ParsedPassesGate | src/ai/parser.ts:63-68 | a parse with a non-blank item and category passes the corrected gate exactly when its amount is a positive number |
| Commands.StoredStore | src/db/sqlite.ts:35 | the store column each backend writes |
| Commands.Insert | src/finance/commands/TransactionCommand.ts:55-64 | one insert through a backend appends exactly one row with the validated fields |
| Commands.InsertEffects | src/features/finance/service.ts:66-74 | an insert is seen by the sender's rows only, and keeps the table valid |
| Commands.Record | src/finance/commands/TransactionCommand.ts:38-73 | no parse gives "Could not parse" and a refused parse gives "Invalid transaction data", both with the table unchanged; otherwise exactly one row for the sender is appended and the reply confirms it |
| Commands.RecordTransaction | src/finance/commands/TransactionCommand.ts:34-73 | the text (or "" when absent) is parsed and the parse goes through `Record` with the given gate, so its no-parse, refusal and insert-then-confirm paths apply; no other user's rows change |
| Commands.StorelessTransactionRefused | src/finance/commands/TransactionCommand.ts:45-50 | a store-less parse is answered "Invalid transaction data" with no row under the gate as written, and is recorded under the corrected gate |
| Commands.Execute | src/features/finance/service.ts:30-43 | summary and history read the table without changing it; clear removes the sender's rows; help is fixed text; a transaction records at most one row; no handler touches another user's rows |
| Commands.BackendsAgree | src/db/sqlite.ts:24-39 | the two stores give the same replies, and the same tables except for how the store of a new row is written |
| Commands.HistoryListsRecentRows | src/finance/commands/HistoryCommand.ts:26 | history lists at most ten of the sender's rows, newest first |
| Commands.ClearTwice | src/finance/commands/ClearCommand.ts:20-23 | clearing twice gives the reply and the table of clearing once |
| Service.ProcessMessage | src/finance/service.ts:16-37 | an empty or absent text gets "" and changes nothing; otherwise exactly the routed handler runs on the message; other users' rows never change |
| Service.HandlerDependsOnText | src/finance/service.ts:25-36 | the handler chosen depends on the text alone |
| Service.PaddedCommandRuns | src/finance/service.ts:25-31 | a command word in any case, padded by white space, runs that command |
| Service.SameCommandSameOutcome | src/finance/service.ts:28-31 | two texts routed to the same non-transaction command get the same reply and table |
| Service.SummaryAndTotalAgree | src/finance/commands/SummaryCommand.ts:13-18 | "summary" and "total", in any case and padding, give identical results |
| Service.ClearTwiceThroughService | src/finance/service.ts:28-31 | sending "clear" twice has the effect of sending it once |
| Service.StorelessPurchaseRefused | src/finance/commands/TransactionCommand.ts:45-50 | as written, a purchase parsed without a store is answered "Invalid transaction data" and nothing is recorded |
| Service.StorelessPurchaseRecorded | src/finance/commands/TransactionCommand.ts:52-73 | under the corrected gate the same purchase appends exactly one store-less row for the sender, and the reply confirms it |
| FeatureService.RouteExact | src/features/finance/service.ts:28-43 | the lower-cased text is a command exactly when it equals a command word, with no trimming |
| FeatureService.ProcessMessage | src/features/finance/service.ts:17-48 | an empty text gets "" and changes nothing; otherwise exactly the routed handler runs, with the SQL store; other users' rows never change |
| FeatureService.RoutesAgreeOnTrimmed | src/features/finance/service.ts:28-30 | on a text with no surrounding white space both services pick the same handler |
| FeatureService.ServicesAgree | src/features/finance/service.ts:17-48 | on every message `MessageSchema` accepts, the two services give the same handler and reply, and the same table unless a transaction was recorded |
| FeatureService.PaddedCommandDiverges | src/features/finance/service.ts:28-42 | a command word with leading white space runs the command in one service and is recorded as a purchase in the other |
| FeatureService.StorelessPurchaseRefused | src/features/finance/service.ts:57-62 | as written, the features service also refuses a store-less purchase without recording it |
| FeatureService.StorelessPurchaseRecorded | src/features/finance/service.ts:64-80 | under the corrected gate it records exactly one store-less row for the sender |

Helpers without a contract of their own are covered by the rows of the members whose
contracts state them: `Parser.Join` by `Parser.OutputText` (src/ai/parser.ts:44);
`Registry.RouteName`, `Registry.Route`, `Registry.Select` and `Registry.SelectParsed` by
`Registry.SelectIsRoute`, `Registry.SelectParsedOnExpected` and
`Registry.RouteNameToTransaction` (src/finance/service.ts:25-36); `Format.CategoryLines`
and `Format.Entries` by `Format.FormatSummary`, `Format.CategoryLinesAppend`,
`Format.FormatHistory` and `Format.EntriesAppend`
(src/finance/commands/SummaryCommand.ts:45-50, src/finance/commands/HistoryCommand.ts:43-48).

## Left out

- Transactions.Add: an insert never fails. Storage faults are not modelled: the source's `TransactionModel.add` or `addTransaction` can throw, which the controller turns into HTTP 500 (src/finance/controller.ts:44-45).
- Aggregate.Summarize: amounts are exact `real`s, not IEEE doubles, so the rounding of `SUM(amount)` and `toFixed(2)` is not modelled.
- Json.ToNumber: a JavaScript number is a finite real or NaN. ±Infinity (for example `Number("1e999")`) is not representable.
- Transactions.Add: `created_at` is the `now` the caller supplies (`Commands.Env.now`), not SQLite's `CURRENT_TIMESTAMP`. The timestamp's one-second resolution is not modelled.
- Transactions.GetMany: among rows with equal `created_at` the contract fixes no order, since SQL fixes none; the model happens to pick one.
- Aggregate.Breakdown: the same holds among categories with equal totals.
- Transactions.GetMany: the limit is a `nat`; SQLite's negative `LIMIT` (no limit) is not modelled, and every caller passes 10 or 50.
- Text.Lower: lower-cases ASCII `A`-`Z` only. JavaScript's `toLowerCase()` differs in three ways the model leaves out: it lower-cases every cased letter, so it turns "ÉPICERIE" into "épicerie" where the model keeps the "É"; it can lengthen a string, as "İ" becomes "i" followed by U+0307; and it maps "Σ" to "ς" or "σ" depending on the letters around it. Routing is unaffected: the only non-ASCII characters that lower-case into ASCII are U+212A (to "k") and U+0130 (to "i" plus U+0307), and neither yields a command word.
- Parser.Normalize: the category is lower-cased by `Text.Lower`, so a non-ASCII category letter keeps its case (see the `Text.Lower` line).
- Text.Trim: strings are sequences of Unicode code points, not UTF-16 code units. The white-space set is that of JavaScript's `trim()`.
- Json.Host: `JSON.parse`, `Number(string)`, `String(value)` and `JSON.stringify` are uninterpreted functions.
- Format.Render: `toFixed(2)` and `toLocaleDateString()` are uninterpreted functions.
- Parser.ParseTransaction: the HTTP request to the inference endpoint (URL, headers, prompt, token) is not modelled. Its outcome is the `Reply` input.
- Replicate.ParseTransaction: the `replicate.run` call is not modelled. Its outcome is the `RunResult` input.
- Commands.Env: `src/ai/index.js`, behind the commands' `parseTransaction` import, is not part of this model. The parser the handlers call is the `parse` field. The two parser copies are modelled as `Parser` and `Replicate`.
- FeatureService.ProcessMessage: `getDatabase()` (opening the file and `CREATE TABLE IF NOT EXISTS`) and `db.close()` are not modelled. The table is an input and an output.
- FeatureService.ProcessMessage: `sendWhatsAppMessage` (src/features/finance/service.ts:83-111) is a network call and is not modelled.
- Commands.Record: the `console.error` logging of a refused parse is dropped, as is the logging in both parsers.
- Service.ProcessMessage: the HTTP controllers, the WhatsApp client and the choice of the first webhook message are outside the core. Two messages processed concurrently are not modelled; each message runs to completion on the table it is given.

## Findings

| source | as written | input that shows it | evidently intended | confidence | as-written member | corrected member |
|---|---|---|---|---|---|---|
| src/finance/commands/TransactionCommand.ts:16 | The parser returns `store: null` for every purchase without a store (src/ai/parser.ts:67, src/lib/replicate.ts:53). `ParsedTransactionSchema` declares `store: z.string().optional()`, which refuses null, so every such purchase is answered "Invalid transaction data" and not recorded. The same schema is at src/features/finance/service.ts:11. | the message "spent $20 on groceries", with the model output `{"amount": 20, "item": "groceries", "category": "food", "store": null}` (the example in the parser's own prompt) | a purchase without a store is recorded with no store, as the parser's result type `store?: string`, the insert's `store \|\| null` and the prompt's examples expect | not executed | Commands.GateAsWritten, Service.StorelessPurchaseRefused, FeatureService.StorelessPurchaseRefused | Commands.Gate, Service.StorelessPurchaseRecorded, FeatureService.StorelessPurchaseRecorded |
