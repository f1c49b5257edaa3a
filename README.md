# FinFusion core, modelled in Dafny

FinFusion is a small personal-finance web app. Users register and log in, record income
("Receita") and expense ("Despesa") entries, list and delete them, and open an analysis page.
That page shows the net balance, the largest expenses, the non-essential expenses, and two
alerts: overdraft and high credit-card spending. This project models the part of the app
underneath the widgets:

- `Currency` (`currency.dfy`) models `format_currency`. Python's `{:,.2f}` rendering is followed
  by the `,`→`X`, `.`→`,`, `X`→`.` replace chain. The module proves that the chain is exactly
  the Brazilian rendering (`R$`, sign, `.` between thousands, `,` and two centavo digits). It
  also proves that every rendering reads back as the amount it came from.
- `Records` (`records.dfy`) holds the rows of the `financial_data` table and the queries over
  them, as values: the per-user `SELECT`, the delete by id and the batch delete.
- `Database` (`database.dfy`) holds the two tables in one object, `Database.Store`. The
  `users` table is a map from username to password digest. The `financial_data` table is a
  sequence of rows. The AUTOINCREMENT counter is the largest id ever handed out. The object
  has `register_user`, `verify_password`, `get_financial_data`, `add_financial_data` and
  `remove_financial_data` as methods. A write that SQLite would refuse returns `Fail(...)`;
  the application does not catch that error.
- `Analysis` (`analysis.dfy`) models `calculate_total_balance`, the filter and sort of
  `display_major_expenses`, and the decisions of `alert_overdraft_and_credit`. Each takes one
  user's records, which is what the app passes after calling `get_financial_data`. The page
  outputs are returned as values (`ExpenseReport`, `Alert`).

Amounts are integer centavos everywhere: a stored amount `a` stands for the value `a / 100`.
The credit-card limit of 1000 is therefore `CREDIT_LIMIT == 100000`.

Points where the code's behaviour differs from what one might expect:

- A negative amount renders as `R$-5,00`, not `-R$5,00`. The prefix is written before the
  formatted number, and the number carries its own sign (`Currency.FormatCurrencyNegativeExample`).
- Major expenses are sorted with pandas' default `sort_values`, which is not a stable sort.
  The contracts fix the amounts in every position and leave the order of equal amounts open
  (`Analysis.MajorExpensesUpToTies`).
- Expenses are stored as positive amounts and subtracted by type. A stored negative "Despesa"
  therefore raises the balance.
- `remove_financial_data` deletes the listed ids whoever owns them. Only the page's own
  selection list keeps the ids to the current user's rows.

## Model

| member | source | states |
|---|---|---|
| `Currency.Digits` | app.py:17 | the whole part is rendered as decimal digits: exactly the one digit `0` for zero, and no leading zero otherwise |
| `Currency.Group` | app.py:17 | the grouping of `{:,}` keeps the leading digit first (where the separators go is `GroupPositions`) |
| `Currency.GroupPositions` | app.py:17 | counting from the right end of a grouped digit string, the separator is exactly every fourth character, after each full group of three digits |
| `Currency.GroupLength` | app.py:17 | grouping adds exactly one separator per full group of three below the leading group |
| `Currency.PyFormat` | app.py:17 | Python's `{:,.2f}` rendering: a leading `-` exactly when the amount is negative, and `.` before the last two digits |
| `Currency.Replace` | app.py:17 | `str.replace` of one character: same length, every occurrence of the replaced character becomes the replacement, every other character is unchanged |
| `Currency.ReplaceChain` | app.py:17 | the three chained replacements keep the length, leave no `X`, and change only `,`, `.` and `X` |
| `Currency.FormatCurrency` | app.py:16-17 | format_currency: the result starts with `R$`, has at least four more characters, and holds no `X` |
| `Currency.ReplaceChainSwaps` | app.py:17 | on text without `X`, the three replacements exchange `,` and `.` and change nothing else |
| `Currency.PyFormatHasNoPlaceholder` | app.py:17 | Python's `R$` + `{:,.2f}` rendering never contains the `X` placeholder, so the detour is safe |
| `Currency.SwapGroup` | app.py:17 | grouping digits with `,` and then swapping separators is grouping them with `.` |
| `Currency.SwapPyFormat` | app.py:17 | swapping the separators of Python's rendering yields sign, `.`-grouped whole part, `,` and two digits |
| `Currency.FormatCurrencyIsBrazilian` | app.py:16-17 | format_currency equals `R$` followed by the Brazilian rendering of the amount, with the sign after `R$` |
| `Currency.WholePart` | app.py:16-17 | between the sign and the `,` of a rendering lies the whole number of reais grouped by `.` |
| `Currency.FormatCurrencyGrouping` | app.py:16-17 | in the whole part of a rendering, counting from the right, every fourth character is `.` and no other is: `.` is the thousands separator |
| `Currency.FormatCurrencyShape` | app.py:16-17 | every result starts with `R$`; a `-` follows exactly when the amount is negative; the rest is digits and `.`, then `,` and exactly two digits; no `X` survives |
| `Currency.DigitsValueAppend` | app.py:17 | the number spelled by concatenated text is the left part shifted by the right part's digit count, plus the right part |
| `Currency.DigitsValueOfDigits` | app.py:17 | reading back the digits of n gives n |
| `Currency.DigitsValueGroup` | app.py:17 | inserting thousands separators does not change the number spelled |
| `Currency.TwoDigitsValue` | app.py:17 | the two fraction digits spell the centavos |
| `Currency.BodyWellFormed` | app.py:17 | the text after the sign is digits and `.`, then `,` and two digits |
| `Currency.BodyValue` | app.py:17 | the text after the sign spells 100 × reais + centavos |
| `Currency.BodyOfBrazilian` | app.py:17 | the text after the sign is well formed and spells the absolute amount |
| `Currency.ParseFormat` | app.py:16-17 | round trip: reading a format_currency result back gives the original amount, so distinct amounts render differently |
| `Currency.FormatCurrencyGroupedExample` | app.py:17 | 1234.50 renders as `R$1.234,50` |
| `Currency.FormatCurrencyNegativeExample` | app.py:17 | -5 renders as `R$-5,00` |
| `Records.Filter` | app.py:118 | a DataFrame row mask keeps exactly the rows that satisfy the condition and never adds rows |
| `Records.FilterAppend` | app.py:122 | the mask keeps the kept rows in their original relative order |
| `Records.FilterMultiset` | app.py:122 | each kept row appears exactly as often as in the input; dropped rows do not appear |
| `Records.Select` | app.py:79-81 | the per-user query returns a record exactly when the table holds it under that username |
| `Records.SelectAppend` | app.py:79 | querying a concatenated table returns the two parts' results in order |
| `Records.InsertThenSelect` | app.py:79-90 | after an insert, the owner's listing is the old listing followed by the new record, with every field unchanged |
| `Records.InsertLeavesOthers` | app.py:79-90 | an insert does not change any other user's listing |
| `Records.DeleteId` | app.py:97 | one `DELETE ... WHERE id = ?`: no row with that id remains, and the table does not grow |
| `Records.Without` | app.py:96-97 | the table after the whole batch of deletes never has more rows than before |
| `Records.WithoutMembers` | app.py:96-97 | after the batch delete, a row remains exactly when it was there and its id is not listed |
| `Records.DeleteIdStep` | app.py:97 | running one more `DELETE ... WHERE id=?` after a batch equals the batch extended by that id |
| `Records.DeleteIdAppend` | app.py:97 | a single-id delete works part by part on a concatenated table |
| `Records.WithoutAbsentIds` | app.py:96-97 | ids that no row carries are no-ops, and an empty list changes nothing |
| `Records.DeleteThenSelect` | app.py:79-97 | after the delete, a user's listing holds exactly that user's earlier records whose id was not listed |
| `Records.WithoutKeepsOrder` | app.py:97 | deleting rows keeps the table in increasing id order |
| `Database.Authenticates` | app.py:68-73 | the login decision: only a username with a stored digest can authenticate |
| `Database.AuthenticatesAfterRegister` | app.py:62-73 | after a new username is registered, it accepts exactly the passwords with the registered digest; every other username accepts what it did before |
| `Database.Store.constructor` | app.py:20-43 | a fresh database has empty `users` and `financial_data` tables and an AUTOINCREMENT counter at 0 |
| `Database.Store.RegisterUser` | app.py:62-66 | stores `hash_password(password)` under a new username; a taken username fails with a unique-constraint error and changes nothing; the records table is untouched |
| `Database.Store.VerifyPassword` | app.py:68-73 | the answer is `Authenticates`: true exactly when a digest is stored for the username and it equals the digest of the password; an unknown username gives false without an error |
| `Database.Store.GetFinancialData` | app.py:75-81 | returns exactly the records stored under that username, in increasing id order |
| `Database.Store.AddFinancialData` | app.py:86-91 | appends one row with all the given fields; its id is one more than the largest id ever handed out, including deleted ids, so it is fresh; once the largest rowid is used, fails and changes nothing |
| `Database.Store.RemoveFinancialData` | app.py:93-100 | the table becomes the batch delete of the listed ids (`Without`), keeping every other row unchanged and in order; an empty list deletes nothing and raises the warning; the store stays consistent |
| `Database.DeleteEach` | app.py:96-97 | the `executemany` loop of single-id deletes, run in list order, computes exactly the batch delete `Without` |
| `Database.WithoutKeepsConsistent` | app.py:96-97 | deleting rows keeps the counter, the issued ids and the increasing id order consistent |
| `Database.SelectKeepsOrder` | app.py:79 | a user's records come out in increasing id order |
| `Database.RegisterTwice` | app.py:62-73 | registering a username a second time fails, and the first password still logs in |
| `Analysis.SumWhere` | app.py:106-107 | the filtered sum is 0 when no row is selected, and never negative when no amount is |
| `Analysis.TotalBalance` | app.py:103-108 | the balance of no rows is 0 |
| `Analysis.BalanceIsNet` | app.py:106-108 | the balance is the sum of per-row contributions: +amount for "Receita", -amount for "Despesa", nothing for any other type |
| `Analysis.NetAppend` | app.py:106-108 | the per-row sum of a concatenation is the sum of the two parts' sums |
| `Analysis.BalanceAfterInsert` | app.py:106-108 | adding one row moves the balance by exactly that row's contribution |
| `Analysis.Expenses` | app.py:118 | the row mask keeps exactly the "Despesa" rows |
| `Analysis.NonEssentialExpenses` | app.py:122 | the row mask keeps exactly the "Despesa" rows marked "Não essencial" |
| `Analysis.InsertDesc` | app.py:118 | inserting into a list sorted by amount, largest first, keeps it sorted and adds exactly that row |
| `Analysis.BelowHead` | app.py:118 | a row with a smaller amount than the first row can go after it without breaking the descending order |
| `Analysis.SortDesc` | app.py:118 | the sort returns a permutation of its input ordered by amount, largest first |
| `Analysis.MajorExpenses` | app.py:118 | the major-expenses table is a permutation of exactly the "Despesa" rows, with amounts never increasing |
| `Analysis.DisplayMajorExpenses` | app.py:110-124 | no rows gives the no-data warning; otherwise the first table is the sorted permutation of the expenses, and the second is `NonEssentialExpenses`, the "Despesa" rows marked "Não essencial", each as often as in the data and in their original order (`FilterMultiset`, `NonEssentialInOrder`) |
| `Analysis.RemoveAtSorted` | app.py:118 | dropping one row from a descending list keeps it descending |
| `Analysis.HeadIsLargest` | app.py:118 | the first row of a descending list has the largest amount |
| `Analysis.AmountsAfterRemoval` | app.py:118 | moving a row that has the largest amount to the front leaves the amounts unchanged |
| `Analysis.SameRestAfterRemoval` | app.py:118 | removing the same row from two permutations of each other leaves two permutations |
| `Analysis.SortedSameAmounts` | app.py:118 | any two descending orders of the same rows have the same amount in every position |
| `Analysis.MajorExpensesUpToTies` | app.py:118 | any other descending order of the expense rows differs from the model's only in the order of equal amounts |
| `Analysis.NonEssentialInOrder` | app.py:122 | the non-essential table keeps the rows' original relative order |
| `Analysis.NonEssentialWithinMajor` | app.py:118-122 | every non-essential expense appears in the major-expenses table, as often as in the data |
| `Analysis.CreditCardSpend` | app.py:138 | the credit-card total is 0 when no row is a credit-card "Despesa" |
| `Analysis.AlertOverdraftAndCredit` | app.py:126-141 | one alert per check that fires and no other: the overdraft alert with the balance comes first when the balance is below 0, and the credit-card alert carries the amount spent and the 1000 limit |
| `Analysis.OverdraftAlertIff` | app.py:128-130 | the overdraft alert is raised if and only if the balance is strictly below 0 |
| `Analysis.CreditAlertIff` | app.py:132-141 | the credit-card alert is raised if and only if the credit-card "Despesa" total is strictly above the limit; this covers no rows, where the sum is 0 |
| `Analysis.BothAlertsCanFire` | app.py:126-141 | the two checks are independent: some records raise both alerts |
| `Analysis.CreditScenario` | app.py:103-141 | with income 2000 and expenses 500 cash and 1200 credit card, the balance is 300 and only the credit-card alert is raised |
| `Analysis.CreditSpendWithinExpenses` | app.py:138 | with non-negative amounts, credit-card spending lies between 0 and the expense total |
| `Analysis.AlertMessage` | app.py:130-141 | the overdraft message ends with the balance rendered by format_currency; the credit-card message ends with the spent amount rendered by format_currency, then `). Limite sugerido: `, the rendered limit and `.` |

## Left out

- The Streamlit pages are left out: `home`, `sidebar_navigation`, the four page functions, `add_footer`, session state and widget rendering. Alerts, warnings and tables are returned as values instead.
- The SQLite connection and the `finfusion.db` file are left out. The tables live in memory, and `create_database` becomes the constructor of a fresh store.
- `Database.Store.GetFinancialData`: does not model the path that catches `sqlite3.Error`, shows it and returns `[]`, because an in-memory table cannot fail to open.
- `Database.Store.GetFinancialData`: SQL does not guarantee the order of a query without `ORDER BY`. The model commits to the order SQLite uses for this table, which is rowid (id) order.
- `hash_password`: SHA-256 is not modelled. The store receives the digest function as a constructor parameter, so every contract holds for any deterministic digest. Proving that the password itself is never stored would need a property of SHA-256, so it is not stated.
- `upload_excel` and `download_data` are left out. They do file and network I/O, including a retry after a five-second sleep, and nothing calls them.
- Floating-point amounts are left out. `REAL` values and the rounding done by `.2f` are replaced by integer centavos, so a value such as -0.001, which Python renders as `-0.00`, has no counterpart.
- `Analysis.MajorExpenses`: the model sorts with one particular order among equal amounts. No contract or lemma depends on that order, and pandas' own tie order is not modelled.
- Nullable columns are modelled as plain values. In the schema, `description`, `payment_method`, `installments` and `necessity` may be NULL, but the only caller always supplies them. The date column is kept as text.
- `Analysis.AlertMessage`: states the rendered amounts and the text around and after them, not the fixed Portuguese wording that opens each message.
- `Database.Store.RemoveFinancialData`: the single-id deletes run on the table's rows and the result is stored once, as at `conn.commit()`; a failure halfway through the list, which would roll the transaction back, is not modelled.
- Concurrent sessions are not modelled. Each operation is one atomic step on the store.
