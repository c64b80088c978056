# Stock generator bot — Dafny model

This project models the logic of a chat bot that hands out account
credentials ("stock") from one database table. A member with the GEN role
uses the bot's slash commands:

- `gen <service>` takes one random credential of a service and sends it to
  them privately. It also deletes that credential.
- `stock` lists how many credentials each service has.
- `add <service> <accounts>` is for administrators. It stores a
  comma-separated `email:password` list under the service.
- `help` shows the usage text.

The table `accounts(id, service, account)` is an immutable sequence of rows
with unique ids (`Stock.Store`). The ids play the part of the table's
primary key. `Stock.Valid` states that invariant, and every operation
preserves it. Each handler is a pure function from the
table to the new table plus the reply the invoker sees. The random index
`Math.floor(Math.random() * n)` takes the random number `0 <= rand < 1` as
a parameter.

Modules, one per concern of `bot.js`:

- `Text` (text.dfy) models the JavaScript string operations the bot uses:
  one-character `split` and `join`, ASCII `toLowerCase` and `toUpperCase`,
  and the `capitalize` helper.
- `Accounts` (accounts.dfy) models how `add` parses the account list.
- `Stock` (stock.dfy) models the table and the three store operations:
  - select, pick and delete-by-id, used by `gen`;
  - `GROUP BY service` counting, used by `stock`;
  - bulk insert plus a per-service count, used by `add`.
- `Bot` (bot.dfy) models the `interactionCreate` handler: its gates, the
  four command handlers, and properties that span several commands.

The model follows the code, including these behaviours a reader might not
expect:

- Malformed `add` entries are not rejected. A piece with no `:` is stored
  as `piece:undefined`. Text after a second `:` is dropped.
- `stock` leaves out services that have no rows, as `GROUP BY` does.
- The "claim" operation is a separate select and delete. Each handler is
  modelled as one atomic step.

## Model

| member | source | states |
|---|---|---|
| Text.Capitalize | bot.js:90-93 | A non-string gives `''`. A string gives a result of the same length whose first character is the upper case of `s[0]` and whose rest is `s[1..]` unchanged. The empty string gives the empty string. |
| Text.CapitalizeKeepsLetters | bot.js:90-93 | `capitalize` only changes case: lower-casing its result gives the lower-cased argument. |
| Text.CapitalizeIdempotent | bot.js:90-93 | Capitalizing an already capitalized string changes nothing. |
| Text.Split | bot.js:193 | `split` with a one-character separator gives one more piece than there are separators, so even `''` gives one piece. No piece contains the separator. Joining the pieces with the separator gives back the input. |
| Text.SplitJoin | bot.js:193 | The converse round trip: a non-empty list of pieces without the separator comes back unchanged from `split` after `join`. |
| Text.Lower | bot.js:136 | The result has the same length and no upper-case letter. Each character is kept or replaced by its lower-case partner. |
| Text.LowerIdempotent | bot.js:192 | A lower-cased service name is its own lookup key: lowering twice equals lowering once. |
| Text.LowerSameKey | bot.js:136 | Two service names map to the same key exactly when they have the same length and each pair of characters is the same letter up to ASCII case (`SameUpToCase`). |
| Accounts.ParseEntry | bot.js:194-199 | Every stored account string contains exactly one `:`. |
| Accounts.ParseEntryByPosition | bot.js:195-199 | The stored string is `email:password`. `email` is the text before the first `:`. `password` is the text between the first and second `:`, or to the end. With no `:`, the stored string is `piece:undefined`. |
| Accounts.ParseEntryOneColon | bot.js:195-199 | A piece with exactly one `:` is stored verbatim. |
| Accounts.ParseEntryNoColon | bot.js:195-199 | A piece with no `:` is stored as `piece + ":undefined"`. |
| Accounts.ParseEntryDropsThirdField | bot.js:195 | `email:password:rest` is stored as `email:password`: text after a second `:` is dropped. |
| Accounts.ParseAccounts | bot.js:193-199 | The number of entries is the number of commas plus one. Every entry holds exactly one `:`. Entry `i` is the position reading (`EntryByPosition`) of comma piece `i`: the text before its first `:`, then `:`, then the text up to the next `:` or `undefined`. So `"a,b:c:d"` gives `a:undefined` and `b:c`. |
| Accounts.EmptyTextOneEntry | bot.js:193 | An empty account list still yields one entry, `:undefined`. |
| Accounts.ParseAccountsRoundTrip | bot.js:193-199 | Parsing the comma-join of well-formed `email:password` entries gives exactly those entries back, in order. |
| Stock.CountOfIsMultiplicity | bot.js:210-214 | The count of a service is the number of times that service occurs in the table's `service` column. |
| Stock.Matching | bot.js:138-142 | The rows selected for a service are exactly the table's rows with that service. |
| Stock.DeleteById | bot.js:156-159 | Deleting by id keeps exactly the rows whose id differs. |
| Stock.DeleteByIdRemovesOne | bot.js:156-159 | Ids are unique, so deleting by the id of row `i` removes exactly row `i` and keeps every other row in order. |
| Stock.PickIndex | bot.js:145 | `Math.floor(rand * n)` with `0 <= rand < 1` and `n > 0` is a valid index below `n`. |
| Stock.PickIndexReaches | bot.js:145 | Every index `k < n` can be drawn: `rand = k / n` picks it. |
| Stock.Claim | bot.js:138-159 | The claimed row is the `k`-th selected row. It is in the table and carries the service. The new table is the old one with exactly that row removed (as a position and as a multiset), and its id no longer occurs. That service's count drops by one. Every other service's count is unchanged. The unique-id invariant holds afterwards. |
| Stock.ClaimNeverTwice | bot.js:156-159 | A second claim after a first one returns a row with a different id, so no credential is dispensed twice. |
| Stock.Insert | bot.js:198-203 | One new row per account, in order and under the given service, each with a fresh id. Existing rows stay as they were. The service's selection grows by exactly the new rows. Other services' counts are unchanged. Ids stay unique. |
| Stock.GroupCount | bot.js:174-179 | There is one entry per service present, equal to that service's number of rows. Every count is positive, so services without rows do not appear. |
| Bot.GenCommand | bot.js:133-165 | "No stock" is the reply exactly when the lower-cased service has no rows, and exactly when no row is dispensed; then the table is unchanged. Otherwise the reply carries the capitalized service and the dispensed row's account, verbatim. The dispensed row is the selected row at index `Math.floor(rand * n)`, with `n` the number of selected rows, so it is a row of the table with that service. It alone is removed, its id is gone, its service's count drops by one, and other services are untouched. |
| Bot.GenReaches | bot.js:138-148 | In any table, every row selected for the service is the one `gen` dispenses for some random draw: `rand = k / n` gives selected row `k`. |
| Bot.StockCommand | bot.js:172-181 | The table is unchanged. The report has an entry exactly for the services with at least one row, each equal to that service's row count. |
| Bot.AddCommand | bot.js:191-214 | One row per comma-separated piece is appended under the lower-cased service, holding the parsed entries in order. The reported amount is the number of commas plus one. The reported total is the previous count plus that amount, and equals the new count. Other services are unchanged. |
| Bot.Handle | bot.js:112-253 | Without the GEN role the reply is the permission error and the table is untouched, whatever the command. An unregistered command gets no reply. The wrong channel gets the channel rejection. `add` without ADMINISTRATOR is refused. `help` and `stock` never change the table. The table changes only when all gates pass and the command is `gen`, or `add` by an administrator. Once all gates pass, the lower-cased command is dispatched: `gen` gives the result of `GenCommand` with the `service` option and the draw, `stock` gives `StockCommand`, and an administrator's `add` gives `AddCommand` with both options. Any other name gets no reply. |
| Bot.AddThenGen | bot.js:136-159 | Consider an `add` under one spelling of a service that had no rows. A `gen` under any spelling with the same lower case then finds stock and sends one of the entries just added. |
| Bot.AddThenGenReaches | bot.js:138-147 | Every entry added to an empty service is sent verbatim by `gen` for some random draw. |
| Bot.GenRun | bot.js:136-165 | Consider `N` sequential `gen` calls for a service with `M` rows (`RunOutcome`). There are `N` replies and `min(N, M)` dispensed rows. Reply `i` sends the account of dispensed row `i`, and every later reply is "no stock". The dispensed rows have pairwise different ids and are rows of the original table with that service. The final table is the original one minus exactly those rows, as a multiset, so the count ends at `M - min(N, M)`. Ids stay unique. |

## Left out

- Text.Lower: covers `toLowerCase` for ASCII letters only. Other characters are kept, whereas JavaScript also maps non-ASCII letters.
- Text.Capitalize: `toUpperCase` is ASCII-only for the same reason. JavaScript can change the length, as `ß` becomes `SS`. The same-length promise holds only for this ASCII model.
- Strings are sequences of Unicode scalar values, not UTF-16 code units. `charAt(0)` on a surrogate pair is therefore not modelled.
- Stock.Matching: service names are compared exactly. MySQL compares them under the column's collation, which may ignore case, accents and trailing spaces. Lower-casing every write and lookup removes only the case differences. Under an accent-insensitive collation such as MySQL 8's default `utf8mb4_0900_ai_ci`, two different lower-case names such as `netflix` and `nétflix` still select each other's rows in `gen`.
- Stock.GroupCount: groups rows by exact service name. Under an accent- or space-insensitive collation, `GROUP BY` merges names such as `netflix` and `nétflix` into one entry, so `stock` can show fewer and larger counts than the model.
- Stock.PickIndex: computes `rand * n` exactly over the reals. JavaScript computes the product as a double, which can round up: for `n = 3` and the largest double below `1/3`, the product is `1.0`, so index 1 is drawn where the exact product gives index 0. The set of indices that can be drawn, `0` to `n - 1`, is the same.
- `SELECT` without `ORDER BY` has no defined row order. The model uses table order. Because every index can be drawn (`Stock.PickIndexReaches`), any order gives the same set of possible outcomes.
- Row ids are modelled as an auto-increment counter (`Store.nextId`). The table schema is not part of this model.
- The Discord client and intents are not modelled. Nor are slash-command registration at startup, the mutable `commands` id map, embeds and message text. `Config.registered` stands for the command names whose registration stored an id.
- The text of the `stock` listing (`Capitalize(service): count` lines) is presentation and is not modelled. The same goes for the restock notice: only its amount and total are modelled, not its fields, timestamp or footer.
- Environment variables and the MySQL pool are not modelled. An unset allowed-channel id is `Config.allowedChannel == None`, and then every command is rejected at the channel gate.
- `Math.random` is a parameter.
- The best-effort direct message and its `catch` are not modelled, and neither are the `interaction.replied` guards. Together these are the I/O of each handler.
- Bot.AddCommand: models a successful `add`. In the source, the error reply in the `catch` is sent only if nothing was replied yet. The success reply goes out right after the insert. A count query or restock notice that fails after it therefore produces no error reply, and the inserted rows stay in the table.
- Several failures are not modelled:
  - a failed member fetch;
  - missing required options, which Discord enforces;
  - database errors and their `catch` blocks. In `gen` the catch logs and sends no reply; the direct message is sent before the `DELETE`, so a failing `DELETE` leaves a sent account in the table. In `stock` the catch sends a generic error reply. In `add` it sends one only when nothing was replied yet (see `Bot.AddCommand` above).
- There is no concurrency: each handler is one atomic step. The race between `gen`'s `SELECT` and `DELETE` under interleaved handlers is not modelled.
