# Finance tracker: transaction store, save validation and day grouping

A Dafny model of the logic core of a small React Native expense tracker.

- **Transaction store** (`src/database/db.ts`): one SQLite table `transactions`,
  modelled by the class `Store.TransactionStore` with fields for whether the
  table exists, its rows in rowid order, and the AUTOINCREMENT counter. A ghost
  set records every id ever assigned. `Init`, `Add` and `Delete` are methods
  that change these fields. `List` (`getTransactions`) and `Summary`
  (`getFinancialSummary`) are functions of them. Every store call in the source
  catches and logs its own exceptions. In the model, a failing statement is
  either a missing table or the `fault` parameter, which stands for any engine
  error the model cannot see. A failed write changes nothing. A failed read
  returns the empty list or the all-zero summary.
- **Save validation** (`handleSave` in `src/screens/AddTransactionScreen.tsx`):
  `AddTransaction.Validate` applies the checks in source order: the amount
  first, then the trimmed description. It then builds the record with the
  trimmed description, the trimmed category or `"General"`, the selected type
  and the supplied timestamp. `AddTransaction.HandleSave` calls the store's
  `Add` exactly once on acceptance and never otherwise. In the model
  `addTransaction` never throws and navigation (`navigation.goBack()`) is left
  out, so the error alert in `handleSave`'s catch block is not modelled.
  The outcome is `Accepted` whether or not the row was actually stored.
- **Day grouping** (`loadData` in `src/screens/HistoryScreen.tsx`):
  `History.BucketsByDay` is the `forEach` loop that creates a bucket per day key
  and appends to it. `History.GroupByDay` adds the sort of the keys (newest
  first) and the map to sections. `History.IsDayGrouping` states what the result
  is: one non-empty section per distinct day, days strictly descending, each
  section holding exactly that day's transactions in input order, and the
  concatenated sections a permutation of the input.

Text comparisons follow SQLite's BINARY collation: code point by code point,
with a proper prefix first (`Collation.LexLe`). `ORDER BY date DESC` is a
concrete insertion sort, but its contract promises only what SQL promises:
every row exactly once, with dates non-increasing. The order among equal dates
is left open.

Three facts about the code that the model keeps:
- The store's `type` column is TEXT, and `addTransaction` stores any string
  it is given there.
- The store accepts any amount. Only the form rejects amounts of zero or less.
- `ORDER BY date DESC` has no tie-break column, so the order among rows with
  equal dates is unspecified.

## Model

| member | source | states |
|---|---|---|
| Types.WithId | src/database/db.ts:26-31 | the stored row carries the chosen id and every other column exactly as passed in |
| Collation.SortDescBy | src/database/db.ts:40 | the result is a permutation of the input, ordered by key non-increasing |
| Collation.InsertDescBy | src/database/db.ts:40 | inserting into a sorted sequence adds exactly that element and keeps it sorted |
| Collation.LexLeTotal | src/database/db.ts:40 | any two strings are comparable under the BINARY collation |
| Collation.LexLeTransitive | src/database/db.ts:40 | the BINARY collation order is transitive |
| Collation.LexLeAntisymmetric | src/database/db.ts:40 | two strings that are each at or below the other are equal |
| Collation.PermutationKeepsDistinct | src/screens/HistoryScreen.tsx:26-27 | sorting distinct day keys keeps them distinct |
| Collation.DistinctCardinality | src/screens/HistoryScreen.tsx:26-31 | a duplicate-free sequence has as many distinct elements as entries |
| Collation.SortedDistinctIsStrict | src/screens/HistoryScreen.tsx:26-27 | sorted distinct keys are strictly descending |
| Text.Trim | src/screens/AddTransactionScreen.tsx:19 | the trimmed string is the infix of the input between its leading and trailing ECMAScript whitespace; it is empty iff the input is all whitespace; otherwise it begins and ends with a non-whitespace character |
| Text.LeadingCount | src/screens/AddTransactionScreen.tsx:19-31 | the leading whitespace run is exactly the first n characters |
| Text.TrailingCount | src/screens/AddTransactionScreen.tsx:19-31 | the trailing whitespace run is exactly the last n characters |
| Store.TotalWithoutKind | src/database/db.ts:60-61 | with no row of a type, that type's total is 0 |
| Store.SumWhere | src/database/db.ts:57-58 | the SUM query is NULL exactly when no row has that type, and otherwise the sum of the amounts of the rows of that type |
| Store.SummaryOf | src/database/db.ts:57-66 | totalIncome and totalExpense are the sums over rows typed "income" and "expense"; NULL reads as 0; balance is their difference |
| Store.WithoutId | src/database/db.ts:49 | after the delete, exactly the rows with a different id remain |
| Store.DeleteAbsent | src/database/db.ts:47-53 | deleting an id no row carries leaves the table unchanged |
| Store.DeletePresent | src/database/db.ts:49 | deleting the id of row k removes exactly that row and keeps the others in order |
| Store.DeleteKeepsIdsIncreasing | src/database/db.ts:49 | a delete keeps row ids strictly increasing in table order |
| Store.TotalConcat | src/database/db.ts:57-58 | a total over two row sequences is the sum of their totals |
| Store.TotalRemoveAt | src/database/db.ts:57-58 | removing one row takes its amount off its own type's total only |
| Store.TotalPermutation | src/database/db.ts:57-58 | totals do not depend on row order |
| Store.SummaryOfAppend | src/database/db.ts:25-31 | an inserted row raises the total of its own type by its amount; a row of any other type changes neither total |
| Store.SummaryOfDelete | src/database/db.ts:47-66 | deleting a row lowers its own type's total by its amount and leaves the other total unchanged |
| Store.ListAgreesWithSummary | src/database/db.ts:38-66 | summing the listed rows gives the same totals as the summary |
| Store.TransactionStore.constructor | src/database/db.ts:5 | a new database file has no table, no rows and no id issued |
| Store.TransactionStore.Init | src/database/db.ts:7-23 | CREATE TABLE IF NOT EXISTS: the table exists afterwards unless the call failed; rows and the counter are unchanged, so repeated calls are idempotent |
| Store.TransactionStore.Add | src/database/db.ts:25-36 | on success, exactly one row is appended with the payload stored as given and an id greater than every id ever issued, deleted ones included; on failure nothing changes |
| Store.TransactionStore.Delete | src/database/db.ts:47-53 | on success the table is the old one without rows of that id; on failure it is unchanged; the counter is never rolled back |
| Store.TransactionStore.List | src/database/db.ts:38-45 | a permutation of the table with dates non-increasing, or the empty list when the query fails |
| Store.TransactionStore.Summary | src/database/db.ts:55-72 | the income and expense totals of the table and their difference, or all zeros when the query fails |
| AddTransaction.TxType.Name | src/screens/AddTransactionScreen.tsx:47-62 | the selected segment is always "income" or "expense" |
| AddTransaction.Validate | src/screens/AddTransactionScreen.tsx:14-31 | rejects the amount iff it is empty, not a number or not positive; rejects the description only after the amount passes, iff it is blank after trimming; otherwise the record has the parsed amount, the trimmed description, the trimmed category or "General", the selected type and the supplied timestamp |
| AddTransaction.AcceptedIsWellFormed | src/screens/AddTransactionScreen.tsx:26-31 | an accepted record has a positive amount, type "income" or "expense", a non-empty trimmed description, a non-empty category that is the default or has no whitespace at either end, and the current timestamp |
| AddTransaction.RejectsNonPositive | src/screens/AddTransactionScreen.tsx:15-18 | an amount of 0 or less is rejected whatever the description |
| AddTransaction.HandleSave | src/screens/AddTransactionScreen.tsx:14-39 | the outcome is the validation result; the store gains exactly the built record, with the counter advanced and its id above every id ever issued, iff the save is accepted and the insert succeeds; otherwise rows, counter and issued ids are unchanged; the table's existence never changes |
| History.Bucket | src/screens/HistoryScreen.tsx:18-23 | every transaction in a day's bucket comes from the input and has that day key |
| History.BucketAppend | src/screens/HistoryScreen.tsx:23 | pushing a transaction extends only its own day's bucket |
| History.BucketNonEmpty | src/screens/HistoryScreen.tsx:20-23 | a day that occurs in the input has a non-empty bucket |
| History.BucketOfAbsentDay | src/screens/HistoryScreen.tsx:20-22 | a day absent from the input has an empty bucket |
| History.DayKeysAppend | src/screens/HistoryScreen.tsx:19 | a new transaction adds its own day to the set of days |
| History.BucketIsSubsequence | src/screens/HistoryScreen.tsx:18-23 | a bucket keeps its transactions in input order |
| History.GatherAppend | src/screens/HistoryScreen.tsx:18-23 | appending a transaction adds it once to the gathered buckets of distinct days that include its day |
| History.GatherIsPermutation | src/screens/HistoryScreen.tsx:14-30 | gathering the buckets of all days, each once, is a permutation of the input |
| History.GatherEmpty | src/screens/HistoryScreen.tsx:17 | no input gives empty buckets |
| History.FlattenIsGather | src/screens/HistoryScreen.tsx:28-31 | the concatenated sections are the gathered buckets of their days |
| History.PermutationSameElements | src/screens/HistoryScreen.tsx:26-27 | sorting the keys keeps exactly the same keys |
| History.SectionsCoverDays | src/screens/HistoryScreen.tsx:26-31 | every day key has a section |
| History.SortedBucketsAreDayGrouping | src/screens/HistoryScreen.tsx:26-31 | buckets of every day, sorted newest first and mapped to sections, satisfy every grouping property |
| History.BucketsByDay | src/screens/HistoryScreen.tsx:17-24 | after the loop, the keys are distinct, are exactly the days of the input, and each bucket holds exactly that day's transactions |
| History.GroupByDay | src/screens/HistoryScreen.tsx:14-31 | the sections are one per distinct day, strictly descending, non-empty, each that day's transactions in input order, together a permutation of the input |
| History.LoadData | src/screens/HistoryScreen.tsx:13-34 | the sections group whatever the listing returns, and there are none when the listing fails |
| History.NoDaysNoSections | src/screens/HistoryScreen.tsx:26-31 | an empty input gives no sections |

## Left out

- SQLite itself and the expo-sqlite bindings. The table is a sequence of rows; SQL parsing, storage and durability are not modelled. Engine errors are the `fault` parameter.
- Logging (`console.log`, `console.error`).
- A database file that already holds a table when the app starts. The constructor models a new file; `Init` on an existing table is modelled.
- Floating-point money. Amounts are exact reals, so sums have no rounding. `toFixed(2)` display formatting is not modelled.
- `Number()` string conversion. Its result is the input `parsed`, with `None` for NaN. AddTransaction.Validate: an amount text that converts to `Infinity` cannot be represented by a real, so that case is not modelled.
- Time. `new Date().toISOString()` is the input `now`. The local-time day key (`parseISO`/`format`) is the uninterpreted function `dayKey`. History.GroupByDay: days are compared as strings rather than via `new Date(key).getTime()`; the two orders agree on `yyyy-MM-dd` keys only.
- Section titles (`format(parseISO(dateKey), 'EEEE, MMMM do, yyyy')`) are not modelled. A section carries its day key instead.
- JavaScript property-name quirks of the `grouped` object (keys such as `constructor` that exist on every object) are not modelled. Real keys are dates.
- React state and effects (`setLoading`, `setSections`, `useFocusEffect`), alerts and navigation.
- The dashboard screen, the transaction card, navigation and theming. They only call the store and render.
- Concurrency. None exists; all store calls are synchronous.
