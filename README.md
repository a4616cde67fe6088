# A Dafny model of the guild bot's bank, dice, initiative and character cogs

This project models the stateful core of a Discord role-playing bot written
in Python and proves properties of that model:

- **The bank ledger.** There are two versions of the bank cog,
  `src/cogs/bank.py` (module `BankV1`) and `src/cogs/extra/bank.py`
  (module `BankV2`). They sit on a keyed transaction table that stands in for
  the SQLAlchemy store of `src/cogs/models/core.py` and
  `src/cogs/models/transaction_model.py` (module `Store`). Both cogs share
  one set of rules for balances, amount strings, the balance guard and
  confirmation (module `Ledger`); `confirm_transaction` is the same code in
  both (`src/cogs/bank.py:178-190`, `src/cogs/extra/bank.py:193-205`). `BankVersions` compares the two versions.
- **The dice evaluator.** `DiceEngine` covers `src/cogs/utils/diceengine.py`
  and its copy in `src/cogs/dice.py`. Each term is split, parsed and
  rolled. `DiceCog` covers the rest of `src/cogs/dice.py`: the per-user
  alias table, alias expansion, the roll text and the per-user message
  stack.
- **The initiative table.** `Initiative` covers `src/cogs/initiative.py`.
  It is an insertion-ordered name→value list with add, delete by
  case-insensitive substring, clear, and a stable descending listing.
- **The character directory.** `Characters` covers
  `src/cogs/models/character_model.py`, with the user table of
  `src/cogs/models/user_model.py` folded in as a map from user id to an
  optional active character id. `InChar` covers the commands of
  `src/cogs/inchar.py`.

Imperative code stays imperative. The transaction table, the character
directory, the dice cog and the initiative table are classes whose methods
change their fields in place. Loops such as `get_balance`, `split`,
`__call__`, the delete loops and the `set_rank` / `set_npc` loops are
`while`/`for` loops with invariants. Each method is proved equal to a pure
specification function, and the lemmas state what the source promises about
those functions.

Modelling decisions:

- `randint` is an oracle `draw(k, sides)` for the k-th die of a call.
  `Fair(draw)` says every draw lies in `[1, sides]`.
- The clock is a date string passed in. `urlparse` is a `Url` value passed
  in.
- Python's `int()` on the restricted alphabets of the amount and dice
  strings is an optional sign followed by at least one ASCII digit.
- Errors that the source raises are `Err` values of `Common.Failure`,
  named after the Python exception. Examples are `BadArgument`,
  `ValueError`, `IndexError`, `KeyError`, `AttributeError`, `TypeError` and
  `DBError`.

In these places the model follows the code as written:

- `BaseModel.delete` removes one row by id and never its linked partner
  (`src/cogs/models/core.py:83-86`).
- The first bank cog inserts the row before it parses the amounts. The
  second one parses first.
- The first bank cog negates only the non-zero amounts in the partner row.
  The second one negates every parsed amount, zeros included.
- `query_active_char` clears the pointer only when it names a missing
  character. An unset pointer is returned as `None` without being written.
- A duplicate character raises `DBError`.

Behaviour as written:

- The bank code reads and sets `linked`, but neither the table schema
  (`src/cogs/models/core.py:124-138`) nor `create_new`
  (`src/cogs/models/transaction_model.py:9`) has such a field.
  - Read literally, the `linked=None` keyword makes `create_new` raise
    `TypeError`.
  - The model follows the bank code's intent: the record has an optional
    `linked` field, which `Store.TransactionTable.SetLinked` writes.
- The code reads `.id` on records that only define `_id`. The model reads
  these as the row key. This happens in the bank code, and also at
  `src/cogs/models/character_model.py:29` (`user.id`),
  `src/cogs/inchar.py:40` (`char.id`) and `src/cogs/inchar.py:199`
  (`character.id`). Read literally, `CharacterDB.create_new`, `char_base`
  with a name that is found and `write_in_character` with a matching prefix
  would each end in `AttributeError`. `Characters.Directory.CreateNew`,
  `InChar.CharBase` and `InChar.WriteInCharacter` succeed there instead.
- Lookups pass the keyword `id` to `query_one`, which hands its keywords
  to SQLAlchemy's `filter_by` (`src/cogs/models/core.py:26-33`). The mapped
  attribute is `_id` (`src/cogs/models/core.py:111`, `:127`), and the store's
  own `delete` filters on `_id` (`src/cogs/models/core.py:85`). Read
  literally, every `query_one(id=...)` raises SQLAlchemy's
  `InvalidRequestError` before any row is read. The model reads each of them
  as a lookup by key: `Store.TransactionTable.QueryOne` for transactions,
  and the `chars`/`users` maps of `Characters` for characters and users.
  The call sites are these:
  - `src/cogs/bank.py:72, 76, 181, 249, 282, 298, 396, 425`;
  - `src/cogs/extra/bank.py:55, 75, 79, 196, 261, 295, 311, 415, 444`;
  - `src/cogs/inchar.py:32, 133, 137, 156, 159, 191, 210, 257, 273`;
  - `src/cogs/models/character_model.py:12, 15, 22`.
- When the receiver of an unconfirmed create has no confirmed incoming row,
  `get_balance` raises "There are no Transactions on this account yet"
  after the primary row is stored. Nothing rolls that row back. An
  `account send` to such a receiver therefore fails but leaves a pending
  row with no partner, and confirming it later credits the receiver while
  debiting nobody (`BankV1.NoHistoryKeepsPrimaryRow`,
  `BankV2.NoHistoryKeepsPrimaryRow`).
- In `src/cogs/extra/bank.py`, `bank_delete` and `account_delete` report an
  unknown id and then call `delete` on `None`. The model ends the command
  there with `AttributeError`.
  - `account_delete` deletes a transaction even after reporting that it is
    not the caller's own (`BankV2.AccountDeleteIgnoresOwnership`).
- `bank_show_accounts` in the second cog iterates over `query_all()`. That
  call returns `None` when there are no users, which raises `TypeError`.
- `char_edit` ends in `AttributeError` whenever it finds the character,
  because the character record has no `edit` method.
- `set_rank` without a role raises `AttributeError` at the first listed
  id that exists.
- The engine copy in `src/cogs/dice.py` has no empty-input guard, so
  `arg[0]` raises `IndexError` on an empty expression.
- `print_initiative` on an empty table returns before posting. The
  previous listing message stays recorded.
- The second balance guard in both bank cogs re-checks the receiver. Adding
  the partner row never changes the receiver's balance, so this guard
  always repeats the first guard's verdict
  (`Ledger.SecondGuardRepeatsFirst`). The sender's balance is never
  checked.

## Model

| member | source | states |
|---|---|---|
| Store.SelectMembership | src/cogs/models/core.py:44-55 | A row is selected exactly when it is stored under its own id, below the id counter, and matches every given filter column. |
| Store.SelectAllExactly | src/cogs/models/core.py:44-55 | On a well-keyed table, `query_all` over the whole table yields exactly the stored rows that match the filter. |
| Store.SelectIgnoresHighKeys | src/cogs/models/core.py:44-55 | Writing or deleting a key at or above the bound leaves the selection below the bound unchanged. |
| Store.SelectIgnoresNonMatching | src/cogs/models/core.py:44-55 | Writing or deleting a row that matches neither before nor after leaves every selection unchanged. |
| Store.SelectInsertTop | src/cogs/models/core.py:127 | A row inserted under the next auto-increment id joins a selection at its end, and only when it matches. |
| Store.TransactionTable.constructor | src/cogs/models/core.py:124-138 | A new table is empty and its first id is 1. |
| Store.TransactionTable.QueryOne | src/cogs/models/core.py:26-33 | Returns None exactly when no row has the id; otherwise returns the stored row. |
| Store.TransactionTable.QueryAll | src/cogs/models/core.py:44-55 | Returns None, not an empty tuple, exactly when no row matches. Otherwise it returns every match in id order and nothing else; one match is still a one-element sequence. |
| Store.TransactionTable.CreateNew | src/cogs/models/transaction_model.py:9-27 | Stores exactly the given fields under a fresh id that differs from every existing one. By default nothing is confirmed, no amount is set and there is no link. No other row changes. |
| Store.TransactionTable.SetConfirmed | src/cogs/models/transaction_model.py:85-88 | Writes only the `confirmed` flag of that row. |
| Store.TransactionTable.SetAmount | src/cogs/models/transaction_model.py:94-133 | Writes only that currency of that row. Every other field and row is unchanged. |
| Store.TransactionTable.SetLinked | src/cogs/bank.py:147 | Writes only the link of that row. |
| Store.TransactionTable.Delete | src/cogs/models/core.py:83-86 | Removes exactly the row with that id and returns 1, or 0 when there is none. No other row is touched, the linked partner included. |
| Ledger.CurrencyOfLetter | src/cogs/bank.py:13-14 | A letter maps to the currency whose initial it is, and to nothing when no currency has that initial. |
| Ledger.FirstInvalidIsFirst | src/cogs/bank.py:92-94 | The reported character is the first one outside `,+-0-9` and `pgesc`. None means every character is allowed. |
| Ledger.CheckCharacters | src/cogs/extra/bank.py:88-90 | The character loop returns the first offending character, or None. |
| Ledger.FoldCoinsLastWins | src/cogs/extra/bank.py:96-103 | The piece loop succeeds exactly when every piece parses. Each currency then holds the amount of its last piece, and currencies no piece names are absent. |
| Ledger.FoldCoinsFirstError | src/cogs/bank.py:113-117 | A failed piece loop reports the failure of the first piece that does not parse; every earlier piece parsed. |
| Ledger.FoldCoinsStopsAt | src/cogs/bank.py:113-120 | The loop stops at the first failing piece and keeps what the earlier pieces wrote. |
| Ledger.FoldCoinsNeverGuardError | src/cogs/bank.py:113-117 | A parse failure is never the balance-guard or no-history error. |
| Ledger.AddRow | src/cogs/bank.py:47-48 | Adds each currency of one row, a missing amount counting as 0, to the running totals. Every currency stays present. |
| Ledger.GetBalance | src/cogs/bank.py:40-49 | Fails with "no transactions yet" exactly when the account received no confirmed row. Otherwise each of the five currencies holds the sum over exactly those rows. |
| Ledger.BalanceIgnoresSameMoney | src/cogs/bank.py:43 | Rewriting a row without changing its receiver, confirmation or amounts changes no balance. Setting `linked` is such a rewrite. |
| Ledger.BalanceAfterInsert | src/cogs/bank.py:43-48 | A new row changes an account's balance only if it is confirmed and received by that account. Each total then grows by the row's amount. |
| Ledger.Settle | src/cogs/bank.py:122-154 | The guard, partner row and second guard follow `SettleSpec`. |
| Ledger.SecondGuardRepeatsFirst | src/cogs/bank.py:149-152 | After the partner row is added and linked, the receiver's balance is what it was, so the second guard gives the first guard's verdict. |
| Ledger.SettleRollbackRestores | src/cogs/bank.py:122-125 | On "Not enough money" every stored row is as before the create. The model's key counter stays one past the rolled-back key, where SQLite would hand that key out again. |
| Ledger.SettleDepositSingleRow | src/cogs/bank.py:127 | A successful deposit or withdrawal (sender = receiver) stores only the primary row. |
| Ledger.SettleTransferPair | src/cogs/bank.py:127-147 | A successful transfer adds a partner row with receiver and sender swapped under the next id. The two rows link to each other. |
| Ledger.SettleOutcome | src/cogs/bank.py:122-154 | The create succeeds exactly when the receiver's balance, including the new row, has no negative currency. A guard failure deletes only the primary row. A failure to read the balance leaves the table as it was with the primary row already stored. |
| Ledger.SettleNoHistory | src/cogs/bank.py:43-45 | Reading the receiver's balance fails exactly when the new row is unconfirmed and the receiver had no confirmed incoming row before. The primary row then stays stored, with no partner and no link. |
| Ledger.SettleReplyIgnoresPartner | src/cogs/extra/bank.py:156-164 | The verdict does not depend on the partner row's amounts. |
| Ledger.NegationsMirror | src/cogs/bank.py:142-145 | For every request, key and partner key, each partner amount is the negation of the primary one. The first cog leaves zeros out of the partner row; the second (`src/cogs/extra/bank.py:156-157`) keeps them. |
| Ledger.ConfirmTransaction | src/cogs/bank.py:178-190 | The method follows `ConfirmSpec`, recursing with `check_linked` false. |
| Ledger.ConfirmTouchesAtMostTheLinkedPair | src/cogs/bank.py:178-190 | A confirm changes no key and flips at most two unconfirmed rows to confirmed: the row itself and, when links are followed, the row it links to. |
| Ledger.ConfirmIdempotent | src/cogs/bank.py:184-185 | Confirming a stored row a second time reports "already confirmed" and changes nothing. |
| Ledger.ConfirmPair | src/cogs/bank.py:186-189 | Confirming one unconfirmed row of a linked pair confirms both. |
| Ledger.PendingSettleInvisible | src/cogs/bank.py:43 | An unconfirmed create that succeeds changes no account's balance. |
| Ledger.CoinsTextEmptyIffZero | src/cogs/bank.py:71 | The coin part of a formatted row is empty exactly when every currency is zero or missing. |
| Ledger.DisplayDateDropsFraction | src/cogs/bank.py:64 | For a timestamp with a fraction of seconds, everything from the first '.' is dropped, the "+00:00" offset included. Every 'T' becomes a space and " UTC" is appended. |
| Ledger.DisplayDateWholeSecond | src/cogs/bank.py:64 | A timestamp without '.' keeps its "+00:00" offset. Every 'T' becomes a space and " UTC" is appended. |
| Ledger.PendingMarkIffUnconfirmed | src/cogs/bank.py:70 | The title starts with "(Pending) " exactly when the row is unconfirmed. |
| BankV1.WriteAmounts | src/cogs/bank.py:111-120 | The piece loop writes each parsed amount into the stored row as it goes, and stops at the first bad piece with that failure. |
| BankV1.CreateTransaction | src/cogs/bank.py:83-154 | The method follows `CreateSpec`: input checks, insert, parse, guard, partner row and second guard, in the source's order. |
| BankV1.CreateSpecSettles | src/cogs/bank.py:89-122 | Once the checks and the parse pass, the create is the insert followed by the shared guard tail. |
| BankV1.ParseFailureKeepsPrimaryRow | src/cogs/bank.py:96-120 | A malformed amount fails with the parse error, and the primary row stays stored with the amounts written before the failure. |
| BankV1.RollbackRestoresRows | src/cogs/bank.py:122-125 | On "Not enough money" the rows are as before the call. |
| BankV1.DepositStoresOneRow | src/cogs/bank.py:127 | A successful deposit or withdrawal stores just the primary row with the parsed amounts. |
| BankV1.TransferStoresMirroredPair | src/cogs/bank.py:127-147 | A successful transfer stores two mutually linked rows. Each partner amount is the negated primary amount, and only the non-zero amounts are written. |
| BankV1.PendingCreateMovesNothing | src/cogs/bank.py:43 | An unconfirmed create that succeeds changes no balance. |
| BankV1.CreateSucceedsIff | src/cogs/bank.py:89-152 | Success exactly when the description and amount string are present, every character is allowed, every piece parses, and the receiver's balance with the new row has no negative currency. |
| BankV1.FormatTransactionShape | src/cogs/bank.py:59-81 | It fails only when a party has no character record. The title is marked pending exactly for unconfirmed rows, and the body ends with the purpose line. |
| BankV1.AccountSendMoney | src/cogs/bank.py:411-436 | A missing amount string is a TypeError and a '-' in it is refused, with nothing changed. Otherwise the users are repaired by the active-character query. The query's error is passed on. No active character, sending to itself and an unknown receiver each give their own error and leave the table unchanged. When every guard passes, the result and table are those of an unconfirmed create from the active character to the receiver. |
| BankV1.AccountSendStoresPendingPair | src/cogs/bank.py:429-436 | A successful send stores the primary row and its swapped partner under the next key. Both rows are unconfirmed, and no account's balance changes. |
| BankV1.NoHistoryKeepsPrimaryRow | src/cogs/bank.py:122 | A parseable create fails with "There are no Transactions on this account yet" exactly when it is unconfirmed and the receiver has no confirmed history. The primary row then stays stored alone and unlinked. |
| BankV1.AccountDelete | src/cogs/bank.py:390-406 | The users are repaired by the active-character query. The query's error is passed on. No active character, an unknown id and a row that is not the character's own deposit or withdrawal each give their own error and leave the rows unchanged. When sender = receiver = the active character, the reply is 1 and exactly that row is removed. |
| BankV1.BankSendMoney | src/cogs/bank.py:291-309 | Account 0 is refused, and an unknown receiver is refused; neither touches the table. Otherwise it is a confirmed create from account 1. |
| BankV1.BankSendToItselfIsDeposit | src/cogs/bank.py:295-309 | Sending from the bank to account 1 is not refused and stores a single deposit row. |
| BankV2.ParseTransactionString | src/cogs/extra/bank.py:86-105 | The method follows `CoinsOf`: the character check, then the piece loop. |
| BankV2.ParseAcceptsExactly | src/cogs/extra/bank.py:86-105 | Parsing succeeds exactly when every character is allowed and every comma piece parses. Each currency then holds its last piece's amount. |
| BankV2.ParseCoinPiece | src/cogs/extra/bank.py:97-103 | A piece written as amount plus currency letter parses back to that currency and amount. |
| BankV2.WrittenExactly | src/cogs/extra/bank.py:133-134 | Writing a list of currencies from a map stores exactly the map's entries for those currencies. |
| BankV2.FoldCoinPieces | src/cogs/extra/bank.py:96-103 | The piece loop over well-formed pieces yields exactly the written map. |
| BankV2.ParseAmountString | src/cogs/extra/bank.py:86-105 | Round trip: any non-empty amount map, written as comma-separated pieces, parses back to itself. |
| BankV2.WriteCoins | src/cogs/extra/bank.py:133-134 | The `setattr` loop leaves exactly the parsed amounts on the row. |
| BankV2.CreateTransaction | src/cogs/extra/bank.py:107-166 | The method follows `CreateSpec`: input checks, parse, insert, guard, partner row and second guard. |
| BankV2.ParseFailureLeavesTable | src/cogs/extra/bank.py:113-131 | A malformed amount string fails before the insert and leaves the table unchanged. |
| BankV2.RollbackRestoresRows | src/cogs/extra/bank.py:136-139 | On "Not enough money" the rows are as before the call. |
| BankV2.DepositStoresOneRow | src/cogs/extra/bank.py:141 | A successful deposit or withdrawal stores just the primary row with the parsed amounts. |
| BankV2.TransferStoresNegatedPair | src/cogs/extra/bank.py:141-159 | A successful transfer stores two mutually linked rows. Every parsed amount, zeros included, is negated in the partner row. |
| BankV2.CreateSucceedsIff | src/cogs/extra/bank.py:113-164 | Success exactly when the inputs are present, the string parses, and the receiver's balance with the new row has no negative currency. |
| BankV2.PendingCreateMovesNothing | src/cogs/extra/bank.py:44 | An unconfirmed create that succeeds changes no balance. |
| BankV2.FormatTransactionShape | src/cogs/extra/bank.py:61-84 | It fails only when a party has no record. The title is marked pending exactly for unconfirmed rows and ends with the description; the body ends with the date line. |
| BankV2.DeleteEach | src/cogs/extra/bank.py:257-266 | The delete loop follows `DeleteSpec`: one line per deleted id, and an unknown id stops the loop with AttributeError. |
| BankV2.BankDelete | src/cogs/extra/bank.py:257-266 | `bank delete` is the delete loop without an owner. |
| BankV2.AccountDelete | src/cogs/extra/bank.py:407-425 | Without an active character nothing is deleted. Otherwise it is the delete loop with that character as owner. |
| BankV2.DeleteCompletesIff | src/cogs/extra/bank.py:260-265 | The loop completes exactly when every id is stored and not repeated. It then removes exactly the listed rows and reports at least one line per id. |
| BankV2.DeleteFailureKeepsEarlierDeletes | src/cogs/extra/bank.py:260-265 | When the k-th id is missing, the ids before it stay deleted. |
| BankV2.AccountDeleteIgnoresOwnership | src/cogs/extra/bank.py:419-423 | The ownership check changes only the reply: the same rows are deleted with or without an owner. |
| BankV2.AccountSendMoney | src/cogs/extra/bank.py:430-455 | Same case split as the first cog. A missing string is a TypeError and '-' is refused, with nothing changed. The users are repaired by the query. No active character, sending to itself and an unknown receiver each give their own error with the table unchanged. Otherwise the result and table are those of an unconfirmed create. |
| BankV2.AccountSendStoresPendingPair | src/cogs/extra/bank.py:448-455 | A successful send stores the primary row and its swapped partner under the next key. Both rows are unconfirmed, and no account's balance changes. |
| BankV2.NoHistoryKeepsPrimaryRow | src/cogs/extra/bank.py:136 | A well-formed create fails with "There are no Transactions on this account yet" exactly when it is unconfirmed and the receiver has no confirmed history. The primary row then stays stored alone and unlinked. |
| BankV2.BankSendMoney | src/cogs/extra/bank.py:304-322 | Account 1 is refused, and an unknown receiver is refused; neither touches the table. Otherwise it is a confirmed create from account 1. |
| BankV2.BankSendIsAlwaysTransfer | src/cogs/extra/bank.py:308-322 | Because account 1 is refused, a successful bank send always stores a partner row on the bank's account. |
| BankV2.Listed | src/cogs/extra/bank.py:343-345 | An account field lists exactly the characters with id 1 or without NPC status. |
| BankV2.ShowAccounts | src/cogs/extra/bank.py:333-349 | Runs over every stored user once, in key order. It gives TypeError exactly when the user table is empty. Otherwise there is one field per user with listed characters. |
| BankV2.AccountFieldExactly | src/cogs/extra/bank.py:340-345 | A character appears in its user's field exactly when it is stored, owned by that user, and has id 1 or is not an NPC. The field is empty exactly when there is no such character. |
| BankVersions.VersionsAgreeOnWellFormedInput | src/cogs/extra/bank.py:113-131 | On an amount string that parses, both cogs give the same reply. |
| BankVersions.OnlyFirstVersionStoresMalformed | src/cogs/bank.py:96-120 | On a string that passes the character check but fails to parse, both cogs fail with the same error. The second cog leaves the table unchanged; the first leaves the new row stored. |
| Characters.OwnedMembership | src/cogs/models/core.py:44-55 | `query_all(user_id=...)` holds exactly the stored characters of that user. |
| Characters.NamedMembership | src/cogs/models/core.py:26-33 | The rows matching `(user_id, name)` are exactly the stored characters with that owner and name. |
| Characters.NamedAtMostOne | src/cogs/models/character_model.py:24-26 | With unique `(user_id, name)` pairs, at most one row matches. |
| Characters.FindNamedExactly | src/cogs/models/core.py:26-33 | With unique pairs the lookup never raises. It finds a character exactly when the user has one of that name, and it returns that character. |
| Characters.ActiveQueryRepairs | src/cogs/models/character_model.py:11-19 | A missing user is an error, and other users are untouched. Afterwards the user's pointer is unset or names a stored character. The result is that character exactly when the pointer named one. |
| Characters.ActiveQueryIdempotent | src/cogs/models/character_model.py:11-19 | A second query returns the same and clears nothing more. |
| Characters.CreateKeepsNamesUnique | src/cogs/models/character_model.py:21-41 | It fails with DBError exactly when the pair exists. A successful create keeps `(user_id, name)` unique. |
| Characters.Directory.constructor | src/cogs/models/core.py:98-118 | A new directory has no characters and no users. |
| Characters.Directory.QueryActiveChar | src/cogs/models/character_model.py:11-19 | Returns `ActiveChar` and repairs only that user's dangling pointer. |
| Characters.Directory.CreateNew | src/cogs/models/character_model.py:21-41 | On a duplicate pair nothing changes. Otherwise one character with exactly the given fields is added under a fresh id, and unique names are preserved. |
| Characters.Directory.SetUserId | src/cogs/models/character_model.py:54-57 | Writes only that character's owner. |
| Characters.Directory.SetName | src/cogs/models/character_model.py:63-66 | Writes only that character's name. |
| Characters.Directory.SetDisplayName | src/cogs/models/character_model.py:72-75 | Writes only that character's display name. |
| Characters.Directory.SetPictureUrl | src/cogs/models/character_model.py:81-84 | Writes only that character's picture URL. |
| Characters.Directory.SetNpcStatus | src/cogs/models/character_model.py:90-93 | Writes only that character's NPC flag. |
| Characters.Directory.SetRank | src/cogs/models/character_model.py:99-102 | Writes only that character's rank. |
| Characters.Directory.SetLevel | src/cogs/models/character_model.py:108-111 | Writes only that character's level. |
| Characters.Directory.SetActiveChar | src/cogs/models/user_model.py:34-37 | Writes only that user's active character. |
| DiceEngine.Signed | src/cogs/utils/diceengine.py:10-11 | The prepared input starts with a sign. |
| DiceEngine.Pieces | src/cogs/utils/diceengine.py:12-19 | At least one piece; the first is non-empty and starts with the input's first character. |
| DiceEngine.Split | src/cogs/utils/diceengine.py:8-20 | The loop returns the pieces of the sign-prefixed input. It fails with IndexError on the empty string. |
| DiceEngine.PiecesConcat | src/cogs/utils/diceengine.py:12-19 | Joining the pieces gives back the input. |
| DiceEngine.PiecesShape | src/cogs/utils/diceengine.py:12-19 | Every piece is non-empty, and every piece after the first starts with a sign. |
| DiceEngine.PiecesSignFree | src/cogs/utils/diceengine.py:12-19 | No piece holds a sign after its first character. |
| DiceEngine.SplitTerms | src/cogs/utils/diceengine.py:8-20 | The pieces of the prepared input join back to it. Each starts with exactly one sign and holds no other. |
| DiceEngine.RollDice | src/cogs/utils/diceengine.py:39-40 | Appends exactly the term's rolls to those so far. It fails only with ValueError, and exactly when rolling the term fails. |
| DiceEngine.CheckAlphabet | src/cogs/utils/diceengine.py:26-27 | True exactly when every character is in `d+-0123456789`. |
| DiceEngine.StepTerm | src/cogs/utils/diceengine.py:31-40 | One pass of the group loop, as `EvalTerm`. |
| DiceEngine.EvalLoop | src/cogs/utils/diceengine.py:30-40 | The group loop, as `EvalGroups`; the first failing group ends it. |
| DiceEngine.Call | src/cogs/utils/diceengine.py:22-41 | The call follows `RollSpec`, with or without the empty-input guard. |
| DiceEngine.EmptyExpression | src/cogs/utils/diceengine.py:23-24 | An empty input returns None with the guard. Without it (`src/cogs/dice.py:33-39`) it fails with IndexError. |
| DiceEngine.AlphabetChecked | src/cogs/utils/diceengine.py:25-27 | Any character outside `d+-0123456789` after lowercasing is a ValueError. |
| DiceEngine.SignMultiplier | src/cogs/utils/diceengine.py:31 | `int(sign + '1')` is -1 for '-' and +1 for '+'. |
| DiceEngine.ConstantTerm | src/cogs/utils/diceengine.py:33-35 | A sign followed by digits is a constant of the digits' value times the sign. |
| DiceEngine.DiceTerm | src/cogs/utils/diceengine.py:36-38 | `NdM` parses to N dice (1 when N is empty) of M sides, signed by the term. |
| DiceEngine.TooManyDice | src/cogs/utils/diceengine.py:36 | A term with two or more 'd' is a ValueError. |
| DiceEngine.EmptySides | src/cogs/utils/diceengine.py:38 | A dice term with nothing after its 'd' is a ValueError. |
| DiceEngine.RollsWithinFaces | src/cogs/utils/diceengine.py:39-40 | With a fair oracle a term rolls exactly `count` dice, continuing the draw order, each within `[1, sides]` times the sign. |
| DiceEngine.ConstantsOnly | src/cogs/utils/diceengine.py:33-35 | Groups without 'd' roll nothing. |
| DiceEngine.ConstantExpression | src/cogs/utils/diceengine.py:28-41 | An expression without 'd' rolls nothing, and its total is its static part. |
| DiceEngine.GroupRollsAreDraws | src/cogs/utils/diceengine.py:30-40 | Over signed groups the j-th roll is the j-th draw, on a die with at least one face, up to the term's sign. |
| DiceEngine.RollsAreDraws | src/cogs/utils/diceengine.py:22-41 | Every roll a call reports is the draw of the same position, within the die's faces. |
| DiceCog.AliasStores | src/cogs/dice.py:127-137 | With text, the name maps to the text in the user's table, which is created if missing. Other names and users are unchanged. |
| DiceCog.AliasDeletes | src/cogs/dice.py:128-132 | Without text, the name is gone from the user's table, which exists afterwards. Other users are unchanged. |
| DiceCog.AliasDeleteAbsent | src/cogs/dice.py:130-132 | Deleting an absent name leaves the tables unchanged. |
| DiceCog.AliasThenExpand | src/cogs/dice.py:70-73 | After storing an alias, the command `!name` expands to its text. |
| DiceCog.CommandRejoins | src/cogs/dice.py:74-76 | The dice expression has no space. Without a space it is the whole expanded command; otherwise the expression, a space and the comment give back the command. |
| DiceCog.NonNegativeJoined | src/cogs/dice.py:81 | Non-negative rolls join without a '-'. |
| DiceCog.RollsTextShape | src/cogs/dice.py:81 | The roll text is empty exactly when there are no rolls; otherwise it is parenthesised. |
| DiceCog.ConstantDescription | src/cogs/dice.py:83-90 | Without rolls the description is the heading followed directly by the total. |
| DiceCog.DiceDescription | src/cogs/dice.py:87-90 | With rolls the heading is followed by a line break, and the description ends with the total in bold. |
| DiceCog.StacksStayNonEmpty | src/cogs/dice.py:173-179 | Push and pop keep every stored stack non-empty: an emptied stack is dropped. |
| DiceCog.PopAfterPush | src/cogs/dice.py:97-99 | Popping right after a push returns the pushed message and restores the stacks. |
| DiceCog.LastInFirstOut | src/cogs/dice.py:173-179 | After two pushes, the pops return the second message and then the first. |
| DiceCog.PopKeepsOthers | src/cogs/dice.py:173-179 | A pop leaves every other user's stack unchanged. |
| DiceCog.RespondOutcomes | src/cogs/dice.py:66-96 | A user without an alias table is a KeyError. A ValueError from the engine posts nothing. An empty expression is an IndexError. A successful roll posts its description. |
| DiceCog.Dice.constructor | src/cogs/dice.py:54-59 | Starts with the loaded aliases and no messages. |
| DiceCog.Dice.Alias | src/cogs/dice.py:108-138 | Updates the alias table as `AliasSpec` and leaves the message stacks alone. |
| DiceCog.Dice.OnUnknownCommand | src/cogs/dice.py:66-101 | Replies as `Respond`, leaves aliases unchanged, and pushes the posted message exactly when something was posted. |
| DiceCog.Dice.Push | src/cogs/dice.py:97-99 | Appends the message to the user's stack, creating it if missing. |
| DiceCog.Dice.DeleteMsg | src/cogs/dice.py:171-180 | Pops the user's latest message as `Popped`, dropping an emptied stack. Nothing happens for a user without messages. |
| Initiative.WithoutFacts | src/cogs/initiative.py:49-50 | Deleting a name forgets exactly that name, keeps the others' values and shrinks the table only if it was there. |
| Initiative.AddInitSets | src/cogs/initiative.py:45-51 | After `add_init` the name maps to the value and is last in order, and other names keep their values. The table grows only for a new name. |
| Initiative.FirstMatchExactly | src/cogs/initiative.py:64-67 | The match found is the first entry whose name contains the given one, case-insensitively. None means no entry does. |
| Initiative.DelRemovesFirstMatch | src/cogs/initiative.py:59-67 | With no match the table is unchanged. Otherwise exactly the first match is removed, the rest keep their order, and names stay distinct. |
| Initiative.RemoveKeepsUnique | src/cogs/initiative.py:66 | Removing one entry keeps names distinct. |
| Initiative.InsertPerm | src/cogs/initiative.py:21-22 | Inserting into the sorted list adds exactly that entry. |
| Initiative.HeadIsLargest | src/cogs/initiative.py:21-22 | The head of a descending list has the largest value. |
| Initiative.InsertDescending | src/cogs/initiative.py:21-22 | Insertion keeps the list descending. |
| Initiative.InsertWithValue | src/cogs/initiative.py:21-22 | Insertion puts an entry behind every earlier entry of equal value. |
| Initiative.SortDescSpec | src/cogs/initiative.py:21-22 | The listing order is non-increasing in value and a permutation of the table. Entries of equal value keep insertion order, as in a stable sort. |
| Initiative.Lines | src/cogs/initiative.py:24-25 | There are exactly as many lines as entries. |
| Initiative.LineBreakFree | src/cogs/initiative.py:24-26 | Names without line breaks give lines without line breaks. |
| Initiative.ListingLines | src/cogs/initiative.py:18-26 | Nothing is listed exactly for an empty table. Otherwise splitting the listing at line breaks gives one line per entry, in sorted order. |
| Initiative.WithoutAbsent | src/cogs/initiative.py:49-51 | Adding a new name deletes nothing first. |
| Initiative.InitiativeTable.constructor | src/cogs/initiative.py:12-15 | Starts empty, with no listing message. |
| Initiative.InitiativeTable.PrintInitiative | src/cogs/initiative.py:17-30 | Returns the listing. It records the new message only when the table is not empty, and does not change the table. |
| Initiative.InitiativeTable.ClearInitiative | src/cogs/initiative.py:32-37 | Empties the table and forgets the last message. |
| Initiative.InitiativeTable.AddInit | src/cogs/initiative.py:45-52 | Applies `AddSpec` with the given name, or the author's display name when none is given, then lists. |
| Initiative.InitiativeTable.DelInit | src/cogs/initiative.py:59-68 | Without a name, it clears the table. With a name, it removes the first match as `DelSpec` and then lists. |
| InChar.CharBaseSwitches | src/cogs/inchar.py:36-40 | With a name, it succeeds exactly when the caller has a record and a character of that name, and then points at it. An unknown name is a BadArgument that changes nothing. Other users are untouched. |
| InChar.CharBaseClears | src/cogs/inchar.py:34-35 | Without a name, it clears the caller's pointer; it fails only for a caller without a record. |
| InChar.CharBase | src/cogs/inchar.py:29-42 | The command follows `CharBaseSpec` and changes only the users table. |
| InChar.FirstPrefixedExactly | src/cogs/inchar.py:196-200 | The chosen index is the first character whose lowercased name starts with the lowercased word. None means no character's does. |
| InChar.SpeakerChoice | src/cogs/inchar.py:190-212 | Nothing is posted for a caller without a record or characters. Otherwise the speaker is the first prefix match with the text unchanged. With no match it is the active character, with the word and a space put back. |
| InChar.SpeakerByNameIsOwn | src/cogs/inchar.py:196-200 | A speaker chosen by name is one of the caller's stored characters. |
| InChar.WriteInCharacter | src/cogs/inchar.py:188-212 | The selection loop with `break` returns `Speaker`. |
| InChar.CoerceStrips | src/cogs/inchar.py:86-88 | The edited value has no backtick and no new character. It is a number exactly when the stripped text is a non-empty run of ASCII digits. |
| InChar.EditGuardIgnoresCase | src/cogs/inchar.py:84-85 | "id" and "rank" are refused silently in any letter case, before any lookup. |
| InChar.EditAlwaysFails | src/cogs/inchar.py:84-92 | An unprotected edit always ends in an error. It is the AttributeError of the missing `edit` exactly when the character exists. |
| InChar.PictureCheckIgnoresCase | src/cogs/inchar.py:49-54 | The file type is judged case-insensitively. A URL passes exactly when it has a scheme or host and ends in `.jpg`, `.jpeg` or `.png`. |
| InChar.AddChar | src/cogs/inchar.py:47-68 | A bad picture changes nothing. A duplicate name replies with the DBError text. Otherwise the character is added with NPC status exactly when an `npc` argument was given. |
| InChar.RankSpecOutcome | src/cogs/inchar.py:253-263 | With a role, every listed existing character gets the role's id and every other character is unchanged. There is one report line per id, "not found" for missing ones. |
| InChar.RankShape | src/cogs/inchar.py:256-262 | With a role, there is one report line per id and no character is added or removed. |
| InChar.RankValue | src/cogs/inchar.py:256-262 | A character's rank is set exactly when its id is listed. |
| InChar.RankLine | src/cogs/inchar.py:256-262 | The i-th report line is "set" for an existing id and "not found" otherwise. |
| InChar.RankWithoutRole | src/cogs/inchar.py:256-261 | Without a role nothing changes. The loop fails with AttributeError exactly when some listed id exists. |
| InChar.NpcSpecOutcome | src/cogs/inchar.py:269-279 | Every listed existing character gets the flag and every other character is unchanged. There is one report line per id. |
| InChar.NpcShape | src/cogs/inchar.py:272-278 | One report line per id; no character is added or removed. |
| InChar.NpcValue | src/cogs/inchar.py:272-278 | A character's flag is set exactly when its id is listed. |
| InChar.NpcLine | src/cogs/inchar.py:272-278 | The i-th report line is "set" for an existing id and "not found" otherwise. |
| InChar.SetRanks | src/cogs/inchar.py:253-263 | The loop follows `RankSpec` and changes only the characters. |
| InChar.SetNpcs | src/cogs/inchar.py:269-279 | The loop follows `NpcSpec` and changes only the characters. |

## Left out

- Discord I/O is not modelled. This covers sending, embeds, footers, colours, emoji lookup, reactions and message deletion. Messages are plain ids or strings.
- The embed colour and thumbnail logic of `write_in_character` is not modelled, because it reads guild roles and channel types. Only the choice of speaker and text is.
- `print_balance`, `print_log`, `print_pending`, `bank_history`, `account_history`, `bank_pending`, `bank_confirm_transaction` and `bank_show_transaction` are not modelled; they are output formatting around the modelled operations or thin wrappers over `ConfirmTransaction`. `print_log` calls `get_history_for_account`, which `src/cogs/models/transaction_model.py` does not define.
- `bank_show_accounts` of the first bank cog is not modelled. It differs from the second cog's `BankV2.ShowAccounts` in two ways:
  - its filter is only `not char.npc_status`, so the bank's account 1 gets no exception (`src/cogs/bank.py:328-329`);
  - it has no `if not chars: continue` guard (compare `src/cogs/extra/bank.py:341`). For a user without characters, `query_all(user_id=...)` returns `None` (`src/cogs/models/core.py:50-51`), and iterating it raises `TypeError`, so the whole listing fails.
- `account_add` and `bank_add` are not modelled separately. They are deposits into `CreateTransaction` with sender = receiver.
- The `date`, `user_id`, `receiver_id`, `sender_id` and `description` setters of the transaction record are not modelled, because no modelled code calls them.
- `save_to_db` and session commit/rollback are not modelled: each store call is one atomic step on the in-memory table.
- `UserDB.create_new` is not modelled: the model has no command that creates users.
- The `list` alias command, `save_players` (JSON file I/O) and the reaction handler `on_reaction_add` of the dice cog are not modelled.
- `show_init` of the initiative cog has no row of its own: it only calls `print_initiative`, which `Initiative.InitiativeTable.PrintInitiative` models.
- `set_base` of the character cog is not modelled: it is an empty command group whose body does nothing.
- `on_ready`, the `bank`/`account` command groups and the `is_admin` permission checks are not modelled: they load emoji, print help or read the configured admin list.
- `alist`, `list` and `info` of the character cog are not modelled; they are output around lookups modelled in `Characters`.
- `delete` of the character cog (`src/cogs/inchar.py:100-109`) is not modelled. It removes the character's row through `BaseModel.delete` (`src/cogs/models/core.py:83-86`), and `Characters.Directory` has no operation that removes a character.
  - That deletion is what leaves an `active_char` pointer dangling, which `Characters.Directory.QueryActiveChar` repairs.
  - The `characters` key is `autoincrement=True` without `sqlite_autoincrement` (`src/cogs/models/core.py:111`). If the deleted character held the top key, SQLite can give that key to a newer character, and the stale pointer then names that character instead of dangling. The model does not capture this.
- `urlparse` is an input (`InChar.Url`), not a parser. The clock and `randint` are inputs.
- `DiceEngine.RollsWithinFaces`: the range of each roll holds only for a fair oracle (`Fair`), which stands for `randint`'s promise.
- `Store.TransactionTable.QueryAll` orders rows by id. The store's own order for rows without an `ORDER BY` is not modelled.
- `Characters.Owned` also lists characters in id order. This decides which character is "first listed" when `write_in_character` matches a prefix.
- `Initiative.Matches` and `InChar.Prefixed` lowercase ASCII letters only, where `str.lower()` lowercases all of Unicode. In this German-language bot, `!deli änne` finds "Änne" in the source (`src/cogs/initiative.py:65`) but not in the model. The same holds for prefix matching in `write_in_character` (`src/cogs/inchar.py:198`).
- `InChar.Protected` and `InChar.Coerce` handle ASCII only, in `char_edit` (`src/cogs/inchar.py:84-87`):
  - `attribute.lower()` maps the Kelvin sign (U+212A) to 'k', so the source silently refuses "ranK" spelt with it. `InChar.Protected` does not, and passes it on to the lookup.
  - `str.isdigit()` is true for digits such as '²'. `int('²')` then raises ValueError before the lookup. `InChar.Coerce` takes only ASCII digits as a number, so it keeps `Word("²")`, and the edit is answered from the lookup.
- `Characters.Directory.SetUserId`, `SetName`, `SetDisplayName`, `SetPictureUrl` and `SetNpcStatus` take typed values. These typed parameters stand for the setters' coercions: `int(value)`, `str(value)` and `bool(value)` (`src/cogs/models/character_model.py:54-92`). Every modelled caller already passes a value of the right type: `set_npc` passes a bool, and `char_edit` never reaches a setter. The model does not capture what the coercions do to other values: `int('x')` raises `ValueError`, and `bool('False')` is `True`.
- `Store.TransactionTable.CreateNew` gives a new row the next value of a
  counter that never goes back, so no key is ever used twice. The bot runs
  on SQLite (`src/bot.py:24`). Its key column is `autoincrement=True`
  without `sqlite_autoincrement` (`src/cogs/models/core.py:127`), so SQLite
  gives a new row the largest stored key plus one. That reuses the key of a
  deleted top row. The model therefore does not capture two things:
  - after a "Not enough money" rollback (`src/cogs/bank.py:122-125`), the
    next create reuses the rolled-back key;
  - after `bank delete` removes a partner row holding the top key
    (`src/cogs/extra/bank.py:257-266`), the primary row's `linked` names the
    key the next create receives. Confirming that primary then also
    confirms the unrelated new row (`src/cogs/bank.py:186-189`), where
    `Ledger.ConfirmSpec` finds no row under that key.
- `Ledger.Partner`: the partner row reuses the primary row's date. The source reads the clock a second time for it (`src/cogs/bank.py:129`, `src/cogs/extra/bank.py:143`), so the two dates can differ.
- Async interleaving between commands is not modelled: each command runs to completion.
