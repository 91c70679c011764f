# Personal-finance app: statement builder, month list, budget map and workspace pick

This project models the client-side logic of a small personal-finance web app (a
Next.js front end over a hosted Postgres backend) and proves properties of it in
Dafny. Four pieces are modelled:

- **The net-worth page** (module `Statement`, with `Ordering` and `Text`):
  - the per-account balances the server reports, and the net-worth total;
  - the `balanceByName` lookup;
  - grouping the fetched transactions by account, and resolving each category name;
  - one account's statement:
    - the transactions sorted oldest first, by `txn_date` then `created_at`;
    - a running balance from the opening balance;
    - the same rows sorted newest first for display;
    - the headline balance, which is the server figure if present, else the last running balance, else the opening balance;
    - the 25-row window.
- **The dashboard** (module `Months`):
  - `monthKey`;
  - the list of the twelve months ending with the current one;
  - the summary row of the selected month, with its all-zero default;
  - the reversed chart series.

  The budget page declares the same `monthKey` and the same month list word for word, at `src/app/app/budget/page.tsx:8` and `src/app/app/budget/page.tsx:16-20`. `Months.MonthKey` and `Months.MonthList` model both pages.
- **The budget page** (module `Budget`):
  - the planned-amount object, loaded from the month's budget rows;
  - a single-key edit;
  - the save payload;
  - the expense-category filter.
- **The application shell** (module `ActiveOrg`):
  - the list of the user's workspaces;
  - the pick of the active workspace, which is the stored id if it is still valid, else the first workspace, else "";
  - writing the pick back to local storage;
  - the id the pages read from local storage.

How the model represents the source:

- **Money.** Amounts are integers: the statement and dashboard amounts stand for minor units, the budget page's planned amounts for whole currency units (see "## Left out"). Every `Number(x || 0)` on a nullable number is `Option<int>.GetOr(0)`.
- **`localeCompare`.** On the ISO date and timestamp strings it is modelled as ordinal comparison (`Text.OrdinalCompare`).
- **`Array.prototype.sort`.** It is stable, so it is modelled as an insertion sort that places each element in front of the first element it does not sort after (`Ordering.SortBy`).
- **Loops.** The loops of the source are methods with loop invariants:
  - the grouping loop;
  - the `balanceByName` loop;
  - the running-balance pass;
  - the month-list loop;
  - the planned-map load.

  Each method is proved against a function or a property stated over its inputs. Expressions such as `map`, `filter`, `find`, `reduce`, spreads and ternaries are functions.

## Model

| member | source | states |
|---|---|---|
| Text.OrdinalCompare | src/app/app/net-worth/page.tsx:183-184 | `localeCompare` on ISO strings is a three-way comparison that reports a tie exactly for equal strings |
| Text.OrdinalCompareFlip | src/app/app/net-worth/page.tsx:183-184 | swapping the operands negates the comparison |
| Text.OrdinalCompareTransitive | src/app/app/net-worth/page.tsx:183-184 | "sorts no later than" is transitive |
| Text.IntToStringRoundTrip | src/app/app/budget/page.tsx:31 | `Number` reads back exactly the integer `String` wrote |
| Text.IntToStringInjective | src/app/app/budget/page.tsx:31 | distinct planned amounts are written as distinct texts |
| Text.DigitsOrdered | src/app/app/page.tsx:9 | for numbers written with the same count of digits, text order is numeric order |
| Ordering.KeyCompareTie | src/app/app/net-worth/page.tsx:182-185 | the statement comparator `Ordering.KeyCompare` ties exactly when the date and the creation stamp are both equal, in either direction |
| Ordering.KeyCompareFlip | src/app/app/net-worth/page.tsx:195-198 | the comparator is antisymmetric |
| Ordering.KeyCompareTransitive | src/app/app/net-worth/page.tsx:182-185 | the comparator is transitive, so the sort is well defined |
| Ordering.InsertKeepsTies | src/app/app/net-worth/page.tsx:182-185 | each insertion step puts the new element in front of all elements it ties with |
| Ordering.InsertKeepsOrder | src/app/app/net-worth/page.tsx:182-185 | each insertion step keeps the list sorted |
| Ordering.SortBy | src/app/app/net-worth/page.tsx:182-185 | the stable sort returns a permutation of its input, ordered by the comparator, with each run of tied elements in input order |
| Ordering.SortedUnique | src/app/app/net-worth/page.tsx:182-185 | over elements with distinct keys there is exactly one sorted order |
| Ordering.OppositeSortReverses | src/app/app/net-worth/page.tsx:195-198 | with no ties, sorting an ascending list newest first reverses it |
| Ordering.Reversed | src/app/app/page.tsx:67 | the reversed copy has the same length and holds element `n-1-k` at position `k` |
| Statement.BalanceRows | src/app/app/net-worth/page.tsx:71-74 | one balance row per reported row, in order, with the account name kept and a missing balance read as 0 |
| Statement.NetWorthIsSum | src/app/app/net-worth/page.tsx:77 | the `reduce` fold `Statement.NetWorth` equals the sum of all balances in the list |
| Statement.NetWorthOfReported | src/app/app/net-worth/page.tsx:71-77 | the net worth computed from the reported rows is the sum of the reported balances, each missing one counted as 0 |
| Statement.BalanceByName | src/app/app/net-worth/page.tsx:57-61 | the lookup has a key exactly for every reported name, and each name maps to the balance of the last row carrying it |
| Statement.CategoryName | src/app/app/net-worth/page.tsx:127-130 | the name is that of the first element of an array join or of the object join; it is null for a missing join, an empty array, a null first element or a missing name |
| Statement.RowsForAppend | src/app/app/net-worth/page.tsx:121-141 | grouping distributes over concatenation of the fetched list, so fetch order is kept within each account |
| Statement.RowsForExact | src/app/app/net-worth/page.tsx:121-141 | an account's list holds only that account's transactions and every fetched transaction of that account |
| Statement.GroupByAccount | src/app/app/net-worth/page.tsx:121-141 | the grouping loop creates a list for exactly the account ids present, each holding that account's rows in fetch order |
| Statement.TotalAppend | src/app/app/net-worth/page.tsx:187-191 | the total of amounts is additive over concatenation |
| Statement.TotalPermutation | src/app/app/net-worth/page.tsx:182-191 | reordering the transactions does not change their total |
| Statement.AccumulateRunning | src/app/app/net-worth/page.tsx:187-191 | row `k` of the ledger is the `k`-th ascending transaction, and its running balance is the opening balance plus the amounts of rows 0..k |
| Statement.HeadlineFallback | src/app/app/net-worth/page.tsx:200-204 | without a server balance, the headline `Statement.HeadlineBalance` is the opening balance plus the total of amounts, and just the opening balance for no transactions |
| Statement.BuildStatement | src/app/app/net-worth/page.tsx:179-204 | the statement as a whole: the ledger is the account's transactions sorted ascending, ties in fetch order, with prefix-sum running balances; the display list is a permutation of the annotated ledger sorted descending, ties in ledger order, and the exact reverse of the ledger when nothing ties; the headline is the server balance whenever one is reported (0 included), else the opening balance plus the total; the rows shown are the first `min(25, n)` rows of the display list (the slice at line 238) |
| Months.MakeDateOrdinal | src/app/app/page.tsx:19 | `new Date(y, m, 1)` lands on the month `m` months after January of `y`, rolling over across years, with years 0..99 read as 1900..1999 |
| Months.MonthKeyShape | src/app/app/page.tsx:9 | the key `Months.MonthKey` is the year as `String` writes it, "-", and the month number 1..12 as exactly two digits |
| Months.MonthKeyRoundTrip | src/app/app/page.tsx:9 | the key can be read back to the year and month it was made from |
| Months.MonthKeyInjective | src/app/app/page.tsx:9 | different months have different keys |
| Months.MonthList | src/app/app/page.tsx:17-21 | the list has exactly 12 keys, and entry `i` is the key of the month `i` months before the current one |
| Months.MonthListStartsNow | src/app/app/page.tsx:17-21 | the first entry is the current month |
| Months.MonthListSteps | src/app/app/page.tsx:19 | each entry is the calendar month before the previous one, and January steps back to December of the year before |
| Months.OrdinalInjective | src/app/app/page.tsx:19 | a month is determined by its count of months since year 0 |
| Months.MonthKeysDistinct | src/app/app/page.tsx:19 | no key occurs twice in the list |
| Months.PreviousKeySortsFirst | src/app/app/page.tsx:9 | with four-digit years, the key of the previous month sorts first as text |
| Months.MonthKeysDescending | src/app/app/page.tsx:17-21 | with four-digit years, the keys decrease strictly in text order along the list |
| Months.SelectedSummary | src/app/app/page.tsx:41 | the selected row is the first row for the month if there is one, else the all-zero row for that month |
| Months.ChartSeriesReversesRows | src/app/app/page.tsx:67 | the chart series holds the same rows in the opposite order; reversing twice gives the rows back |
| Budget.Lookup | src/app/app/budget/page.tsx:63 | a key looks up a value exactly when it is listed, and the value is one listed with it |
| Budget.LookupListed | src/app/app/budget/page.tsx:39 | in an object each entry's value is what its key looks up |
| Budget.AssignLookup | src/app/app/budget/page.tsx:63 | after `{ ...planned, [id]: text }` (`Budget.Assign`) the key holds the new text and every other key looks up what it did before |
| Budget.AssignPresentKey | src/app/app/budget/page.tsx:63 | assigning an existing key keeps the key list and its order |
| Budget.AssignNewKey | src/app/app/budget/page.tsx:31 | assigning a new key appends it to the key list |
| Budget.AssignUnique | src/app/app/budget/page.tsx:31 | assigning keeps each key listed once |
| Budget.PlannedFromLastWins | src/app/app/budget/page.tsx:30-32 | the loaded object has a key exactly for each returned category id, holding `String(planned)` of the last row with that id |
| Budget.LoadPlanned | src/app/app/budget/page.tsx:30-32 | the load loop builds that object |
| Budget.EditShowsText | src/app/app/budget/page.tsx:63 | typing into one category's input shows that text there and leaves every other input unchanged |
| Budget.PlannedAmountReadsText | src/app/app/budget/page.tsx:39 | in `Budget.PlannedAmount`, blank text is sent as 0, the text `String(n)` is sent as `n`, and other text is not read as a number |
| Budget.SavePayload | src/app/app/budget/page.tsx:39 | one payload row per entry, in entry order, each carrying the workspace id, the month, the key and the number its text denotes |
| Budget.PayloadOnePerKey | src/app/app/budget/page.tsx:39 | the payload has a row for a category exactly when the planned object has that key |
| Budget.PayloadRowsMatchKeys | src/app/app/budget/page.tsx:39 | each payload row carries the active workspace, the selected month, and the amount its category's text denotes |
| Budget.SaveAfterLoad | src/app/app/budget/page.tsx:30-39 | saving straight after a load sends, for each category that had a budget row, the amount of its last row, and nothing for other categories |
| Budget.ExpenseCategories | src/app/app/budget/page.tsx:45 | exactly the expense categories are kept |
| Budget.ExpenseCategoriesKeepOrder | src/app/app/budget/page.tsx:45 | the filter keeps the loaded order |
| ActiveOrg.PresentOrgs | src/components/AppShell.tsx:27 | the workspace list holds exactly the non-null joined workspaces |
| ActiveOrg.PresentOrgsKeepOrder | src/components/AppShell.tsx:27 | the filter keeps the membership order |
| ActiveOrg.PickActive | src/components/AppShell.tsx:29-30 | the stored id is picked when it is non-blank and names a listed workspace; otherwise the first workspace's id is picked, or "" when there is none; the pick is always "" or a listed id |
| ActiveOrg.PickEmptyOnlyWithoutOrgs | src/components/AppShell.tsx:30 | with non-blank workspace ids, "" is picked exactly when the list is empty |
| ActiveOrg.PickSurvivesReload | src/components/AppShell.tsx:29-35 | picking, writing back (`ActiveOrg.Persist`) and picking again over the same workspaces gives the same pick |
| ActiveOrg.BlankSelectionNotPersisted | src/components/AppShell.tsx:35 | a blank selection is never written, so the stored entry and what the pages read stay unchanged |
| ActiveOrg.PagesSeePick | src/lib/useActiveOrg.ts:5 | a page that reads local storage (`ActiveOrg.PageOrgId`) after the pick is written back gets the picked id |

## Left out

- **Remote backend calls.** Supabase queries and remote procedures are out:
  - `account_balances`, `monthly_summary`, `top_categories_for_month` and `upsert_budget_rows`;
  - the auth session;
  - the workspace query.

  Their results are parameters of the model, and their server-side aggregation cannot be seen from the front end. Error branches that only log and return are out too.
- **The 2000-row fetch cap** (`src/app/app/net-worth/page.tsx:114`). The builder takes whatever transactions it is given. The running balance is only the true balance when that list is the account's full history.
- **React.**
  - Out: state, effects, memoisation, rendering, the `ui` components and the layout.
  - This includes the selectors' `onChange` handlers, which only store the chosen value.
  - The pages' initial selected month `monthKey(new Date())` is the first entry of the month list. `Months.MonthListStartsNow` states this.
- **Local storage.** It is a parameter (`Option<string>`). Reading and writing the browser's storage are not modelled.
- **Formatting.** `formatMoney` (`Intl.NumberFormat`), `formatDate`, `toFixed` and `Math.abs` in the display are out, and so is the "-" shown for a missing category name.
- **Money as integers.** Statement and dashboard amounts are integers standing for minor units; floating-point sums of fractional amounts, and their rounding, are not modelled. `Budget`'s planned amounts are whole currency units, because `String(planned)` and `Number(text)` (`src/app/app/budget/page.tsx:31`, `src/app/app/budget/page.tsx:39`) work on the JavaScript number itself; fractional planned amounts such as 12.5, and their texts, are not modelled.
- **Plain field copies.** The account mapping (`src/app/app/net-worth/page.tsx:97-103`) and the dashboard's `MonthRow` mapping (`src/app/app/page.tsx:28`) are not modelled separately. Both apply the same `Number(x || 0)` rule as `Statement.BalanceRows`, and `Account`/`MonthSummary` hold the values they produce.
- Budget.JsNumber: models `Number(text)` exactly only for optionally signed decimal integers. Any other text is carried as `Unparsed(text)`: no trimming of white space, decimals, exponents, hex, or the `NaN` that JSON sends as `null`.
- Text.OrdinalCompare: `localeCompare` is modelled as ordinal comparison. The two agree on the `txn_date` strings, but can disagree on two `created_at` stamps of the same second where only one has a fractional part (`…12:34:56+00:00` beside `…12:34:56.5+00:00`): the default collation sorts `.` before `+`, ordinal order sorts `+` first. The model's tie-break order for such pairs is the ordinal one.
- Months.MonthKeysDescending: proved only for years 1001..9999. With a year of a different digit count, text order and calendar order can disagree, and the source's list is descending in calendar order only.
- ActiveOrg.PagesSeePick: states what a read of the stored entry returns after the write-back, not when pages read it. The pages read local storage once, when they mount (`src/lib/useActiveOrg.ts:5`), and the shell renders them as soon as the session exists (`src/components/AppShell.tsx:37-49`), before the workspace query and the write-back (`src/components/AppShell.tsx:25-35`). So a page mounted on a first visit keeps "" and loads nothing until it remounts, a page mounted with a stale stored id keeps that id, and a change in the selector (`src/components/AppShell.tsx:63`) reaches only pages mounted afterwards. Component lifetimes and effect ordering are not modelled.
- Months.MonthListStartsNow: holds for every year outside 0..99. `new Date(y, m, 1)` reads years 0..99 as 1900..1999, which `Months.MakeDate` models (`Months.MakeDateOrdinal`).
- **JavaScript object keys.**
  - `Entries` lists keys in insertion order. The page's category ids are UUIDs and never integer-like, so `Object.entries` lists them in that order.
  - The plain-object lookups `balanceByName[name]` and `grouped[id]` are modelled as maps. Inherited prototype keys are not modelled, so an account named like an `Object.prototype` member (for example "constructor") is out of scope.
- **Settings and transaction CRUD pages.** These are form state plus insert, update and delete calls.
- **Sign normalisation.** The code applies no income or expense sign-forcing to entered amounts, so none is modelled and amounts are used as stored. Likewise, `Number` of malformed text is not coerced to 0, and a missing category name stays null and is displayed as "-".
