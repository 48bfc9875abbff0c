# Ledger core of fintrak-caja-saas in Dafny

This project models the bookkeeping logic of a small cash-ledger application and proves
properties of it. The model covers:

- the monthly summary API over the transactions table: the `YYYY-MM` month token check,
  the half-open month window, income/expense/balance/count, and the month-to-month comparison
  with deltas and percentage changes;
- the in-memory variant of the monthly summary: a format check only, a window built with
  the JavaScript `Date` constructor, and an accumulation loop;
- the transactions API: the creation schema, the insert, and the listing newest first,
  limited to 200 rows;
- the categories API: a user-scoped table with create, rename, soft delete and a listing
  that is filtered and sorted by name;
- the client-side ledger page: running totals, the ordered form checks, prepending a new
  entry and deleting by id.

The database is a sequence of rows and every SQL statement is a function over it. The
categories table, whose rows are updated in place, is a class. So is the ledger page, whose
state hooks are replaced by its handlers. Amounts and percentages are `real`.

Modules:

- `Results` and `Payload` hold the error-path types and request bodies.
- `Text` holds digits, zero-padded numerals, JavaScript `trim` and code-point order.
- `Calendar` holds dates and month arithmetic.
- `Sorting` holds a generic insertion sort, with `ORDER BY … LIMIT` on top of it.
- `MonthToken` holds the month-token checks.
- `TransactionRoutes`, `SummaryRoutes`, `MovementSummary`, `CategoryRoutes` and
  `TransactionsPage` each model one source file.

The comment at `backend/src/routes/categories.routes.js:13` promises at least one non-blank
character. The schema counts characters before trimming, so a blank name is stored as the
empty string. The model follows the code (`CategoryRoutes.BlankNameStoredEmpty`).

`backend/src/routes/summary.js` is not mounted by `backend/src/index.js`. It is modelled on
its own.

## Model

| member | source | states |
|---|---|---|
| Text.DigitsValue | backend/src/routes/summary.routes.js:21 | `Number` of a run of decimal digits is a natural below 10^length |
| Text.Numeral | backend/src/routes/summary.routes.js:14 | the zero-padded numeral of `n` has the requested width, only digits, and reads back as `n` |
| Text.NumeralOfValue | backend/src/routes/summary.routes.js:14 | every digit string is the zero-padded numeral of its own value, so numerals and digit strings correspond one to one |
| Text.LeadingSpace | backend/src/routes/categories.routes.js:63 | the length of the leading white space: everything before it is white space, the character after it is not |
| Text.TrailingSpace | backend/src/routes/categories.routes.js:63 | the length of the trailing white space: everything after it is white space, the character before it is not |
| Text.Trim | backend/src/routes/categories.routes.js:63 | `trim` yields a string with white space at neither end, empty exactly when the input is all white space |
| Text.LeadingSpaceAfterSpaces | backend/src/routes/categories.routes.js:63 | an all-space prefix adds its full length to the leading white space |
| Text.TrailingSpaceBeforeSpaces | backend/src/routes/categories.routes.js:63 | an all-space suffix adds its full length to the trailing white space |
| Text.TrimRemovesExactlySurroundingSpace | frontend/src/pages/Transactions.jsx:79-80 | whatever white space surrounds a core with no space at its ends, `trim` returns exactly that core |
| Text.TrimIdempotent | frontend/src/pages/Transactions.jsx:79-80 | trimming twice is trimming once |
| Text.LexLeTotal | backend/src/routes/categories.routes.js:41 | code-point order compares every pair of names |
| Text.LexLeTransitive | backend/src/routes/categories.routes.js:41 | code-point order is transitive |
| Text.LexLeAntisymmetric | backend/src/routes/categories.routes.js:41 | names that sort no later than each other are equal |
| Calendar.MonthStart | backend/src/routes/summary.routes.js:58 | the month start of an index is a valid first-of-month date whose month index is that index |
| Calendar.MonthStartOfIndex | backend/src/routes/summary.routes.js:58 | `date_trunc('month', d) + interval '1 month'` is the first of the next month, and December rolls over to January of the next year |
| Calendar.MonthIndexOrder | backend/src/routes/summary.routes.js:57-58 | on valid months, index order is chronological (year, month) order, in both directions |
| Calendar.WindowIsCalendarMonth | backend/src/routes/summary.routes.js:57-58 | a valid date lies in [first of month, first of next month) exactly when it belongs to that calendar month, whatever the month's length |
| MonthToken.MonthFormatOk | backend/src/routes/summary.routes.js:14 | the regular expression `^\d{4}-\d{2}$` holds exactly of seven characters with a hyphen at position 4 and a decimal digit at every other position |
| MonthToken.YearPart | backend/src/routes/summary.routes.js:14 | the four-digit year of a well-formed token is below 10000 |
| MonthToken.MonthPart | backend/src/routes/summary.routes.js:21 | `Number(yyyyMM.split("-")[1])` of a well-formed token is below 100 |
| MonthToken.MonthRangeOk | backend/src/routes/summary.routes.js:20-23 | the range check accepts a well-formed token exactly when its month digits are 01..09 or 10..12 |
| MonthToken.FormatMonth | backend/src/routes/summary.routes.js:14-23 | every year 0000..9999 with a month 1..12 has a token that passes both checks and reads back as that year and month |
| MonthToken.ValidMonthIsFormatted | backend/src/routes/summary.routes.js:14-23 | every token passing both checks is the formatted token of its own year and month, so the checks accept exactly the zero-padded months |
| MonthToken.TokenParts | backend/src/routes/summary.routes.js:14-21 | seven characters with digits around a hyphen at position 4 pass the format check, and their year and month are read digit by digit |
| MonthToken.RangeIsCheckedSeparately | backend/src/routes/summary.routes.js:14-23 | "2026-99" and "2026-00" pass the format check and fail the range check; "2026-12" passes both; "2026-1" and "26-01" fail the format |
| MonthToken.CheckMonth | backend/src/routes/summary.routes.js:73-79 | a missing or malformed token is a format error; a token is accepted exactly when it passes both checks; the range error is left for well-formed tokens outside 01..12 |
| Sorting.InsertBy | backend/src/routes/categories.routes.js:41 | insertion adds exactly the one element: the multiset grows by it |
| Sorting.ConsSorted | backend/src/routes/categories.routes.js:41 | a sorted sequence stays sorted under a head that precedes all of its elements |
| Sorting.InsertBySorted | backend/src/routes/categories.routes.js:41 | under a total preorder, inserting into a sorted sequence keeps it sorted |
| Sorting.SortBy | backend/src/routes/categories.routes.js:41 | sorting is a permutation of its input |
| Sorting.SortBySorted | backend/src/routes/categories.routes.js:41 | under a total preorder, the sorted result is ordered |
| Sorting.PrefixComesFirst | backend/src/routes/transactions.routes.js:26-27 | a prefix of a sorted sequence is sorted, leaves out exactly the suffix, and precedes every element left out |
| Sorting.TopBy | backend/src/routes/transactions.routes.js:26-27 | `ORDER BY … LIMIT k` returns min(n, k) elements, sorted, drawn from the input, with no element left out that sorts before a listed one |
| TransactionRoutes.ParseTx | backend/src/routes/transactions.routes.js:8-16 | an accepted body carries a valid input: type income or expense, amount ≥ 0, a non-empty category, a `\d{4}-\d{2}-\d{2}` date, a known payment method and status; an absent description is read as none |
| TransactionRoutes.ParseAcceptsEveryValidInput | backend/src/routes/transactions.routes.js:8-16 | the converse: every body that carries a valid input is accepted, and parsing returns that input, so the schema accepts exactly the valid bodies |
| TransactionRoutes.SchemaAcceptsZeroAmount | backend/src/routes/transactions.routes.js:10 | an amount of zero is accepted |
| TransactionRoutes.SchemaRejectsNegativeAmount | backend/src/routes/transactions.routes.js:10 | a negative amount is refused whatever the other fields hold |
| TransactionRoutes.SchemaRejectsUnknownPaymentMethod | backend/src/routes/transactions.routes.js:14 | a payment method outside cash/bank/card/transfer is refused whatever the other fields hold |
| TransactionRoutes.Post | backend/src/routes/transactions.routes.js:35-52 | an invalid body gives 400 and leaves the table unchanged; a valid body whose date the store cannot read is refused by the store; otherwise exactly one row is appended, holding the user, the fields as given, the date read from the text (`DateOfText`, fixed by `DateTextRoundTrip` and `PostStoresWrittenDate`) and a null description when absent |
| TransactionRoutes.DateOfText | backend/src/routes/transactions.routes.js:12 | the date read from `YYYY-MM-DD` text has a four-digit year and two-digit month and day |
| TransactionRoutes.DateText | backend/src/routes/transactions.routes.js:12 | writing a year below 10000 and a month and day below 100 zero-padded and joined by hyphens matches `^\d{4}-\d{2}-\d{2}$` |
| TransactionRoutes.DateTextRoundTrip | backend/src/routes/transactions.routes.js:12 | the store reads written text back as the same year, month and day |
| TransactionRoutes.DateTextIsFormatted | backend/src/routes/transactions.routes.js:12 | every text the schema admits as a date is the written form of the date read from it, so text and date correspond one to one |
| TransactionRoutes.PostStoresWrittenDate | backend/src/routes/transactions.routes.js:42-48 | a body dated Y-M-D is refused by the store exactly when that day does not exist, and otherwise its row is stored on day Y-M-D |
| TransactionRoutes.PostPreservesWellFormed | backend/src/routes/transactions.routes.js:35-52 | when the store hands out a fresh id, POST keeps the table well formed: valid fields, real calendar dates and unique ids |
| TransactionRoutes.NewerOrSameIsTotalPreorder | backend/src/routes/transactions.routes.js:26 | `occurred_on DESC, created_at DESC` orders every pair of rows and is transitive |
| TransactionRoutes.OwnRows | backend/src/routes/transactions.routes.js:25 | `WHERE user_id = $1` keeps exactly the caller's rows, each as often as it is stored |
| TransactionRoutes.List | backend/src/routes/transactions.routes.js:19-32 | the listing holds min(own rows, 200) rows, all the caller's and taken from the table, newest date first then newest creation first, and no row left out is newer than a listed one |
| SummaryRoutes.Selected | backend/src/routes/summary.routes.js:56-58 | `occurred_on >= ${month}-01 AND occurred_on < date_trunc('month', …) + interval '1 month'` selects exactly the user's rows in the half-open window of the token's month index |
| SummaryRoutes.KindTotal | backend/src/routes/summary.routes.js:50-51 | the `COALESCE(SUM(CASE …), 0)` of a kind is 0 when no row has that kind |
| SummaryRoutes.Matching | backend/src/routes/summary.routes.js:55-58 | the summary query reads no more rows than the table holds |
| SummaryRoutes.MatchingMembers | backend/src/routes/summary.routes.js:55-58 | the summary query reads exactly the table rows that are the user's and lie in the window |
| SummaryRoutes.MatchingAppend | backend/src/routes/summary.routes.js:55-58 | filtering a split table filters each part in place |
| SummaryRoutes.NothingSelected | backend/src/routes/summary.routes.js:55-58 | a table with no row in the window yields no rows |
| SummaryRoutes.MonthlySummary | backend/src/routes/summary.routes.js:45-63 | the summary echoes the month, has balance = income − expense, and counts exactly the rows read; the split of the amounts into income and expense is stated by `SummaryOfOneMoreRow` |
| SummaryRoutes.SummaryOfOneMoreRow | backend/src/routes/summary.routes.js:49-54 | one more row raises income by its amount only if it is a selected income row, raises expense by its amount only if it is a selected expense row, and raises the count by one only if it is selected; with the empty month giving zeros this fixes income as the sum of the income rows and expense as the sum of the expense rows |
| SummaryRoutes.SelectedIsCalendarMonth | backend/src/routes/summary.routes.js:56-58 | a row is summarised exactly when it is the user's and dated in that year and month |
| SummaryRoutes.KindTotalAppend | backend/src/routes/summary.routes.js:50-51 | a kind total over a split table is the sum of the totals of the parts |
| SummaryRoutes.SummaryAdditive | backend/src/routes/summary.routes.js:49-54 | income, expense, balance and count of a table are the sums of those of any split of it |
| SummaryRoutes.OtherUsersInvisible | backend/src/routes/summary.routes.js:56 | rows of other users never change a user's summary |
| SummaryRoutes.EmptyMonthIsZero | backend/src/routes/summary.routes.js:50-54 | a month with no rows of the user gives income = expense = balance = count = 0 |
| SummaryRoutes.KindTotalNonNegative | backend/src/routes/summary.routes.js:50-51 | a sum of non-negative amounts is non-negative |
| SummaryRoutes.IncomeAndExpenseCoverAll | backend/src/routes/summary.routes.js:50-51 | when every row is income or expense, the two totals together are the whole amount |
| SummaryRoutes.WellFormedSummary | backend/src/routes/summary.routes.js:49-53 | over a table built by POST, income and expense are non-negative and together equal the total amount moved in the month |
| SummaryRoutes.Monthly | backend/src/routes/summary.routes.js:70-87 | `/monthly` reports a format error exactly for a missing or malformed token, succeeds exactly for a valid token, and then returns the summary of that month |
| SummaryRoutes.PctChange | backend/src/routes/summary.routes.js:30-35 | the percentage change is null exactly when the base is 0 |
| SummaryRoutes.PctChangeRecovers | backend/src/routes/summary.routes.js:30-35 | for every base and next: the change is null exactly when the base is 0, and otherwise next = base + base·p/100 |
| SummaryRoutes.PctChangeRecoversNext | backend/src/routes/summary.routes.js:30-35 | applying the change to the base gives the new value back: next = base + base·p/100 |
| SummaryRoutes.PctChangeSign | backend/src/routes/summary.routes.js:30-35 | for a positive base the change is positive, or zero, exactly when the new value is above, or equal to, the base |
| SummaryRoutes.PctChangeExamples | backend/src/routes/summary.routes.js:30-35 | pctChange(100,150) = 50, pctChange(100,50) = −50 and pctChange(0,500) is null |
| SummaryRoutes.Compared | backend/src/routes/summary.routes.js:129-143 | each delta added to A gives B; for income, expense, balance and count alike, the change is null exactly when A's value is 0 and otherwise is the percentage p with B = A + A·p/100 |
| SummaryRoutes.Compare | backend/src/routes/summary.routes.js:101-154 | both formats are checked before either range; the format error is reported exactly when a token is missing or malformed; success is exactly two valid tokens, and then both months are summarised independently and compared |
| SummaryRoutes.BalanceDelta | backend/src/routes/summary.routes.js:130-135 | the balance delta is the income delta less the expense delta |
| SummaryRoutes.CompareAntisymmetric | backend/src/routes/summary.routes.js:130-135 | swapping the months negates every delta |
| SummaryRoutes.CompareSameMonth | backend/src/routes/summary.routes.js:124-143 | comparing a month with itself gives zero deltas and changes that are 0 or null |
| SummaryRoutes.ExampleTokens | backend/src/routes/summary.routes.js:14-23 | "2026-01" and "2026-02" are valid tokens of January and February 2026 |
| SummaryRoutes.ExampleSelection | backend/src/routes/summary.routes.js:55-58 | in the three-row example, the two January rows fall in the January window and the February row in the February window only |
| SummaryRoutes.MatchingOfThree | backend/src/routes/summary.routes.js:55-58 | the query over three rows keeps each row that lies in the window, in order |
| SummaryRoutes.MatchingFirstTwo | backend/src/routes/summary.routes.js:55-58 | when the first two of three rows lie in the window and the third does not, the query reads the first two |
| SummaryRoutes.ExampleMatchingJanuary | backend/src/routes/summary.routes.js:55-58 | the January query of the example reads the two January rows |
| SummaryRoutes.ExampleMatchingFebruary | backend/src/routes/summary.routes.js:55-58 | the February query of the example reads the February row alone |
| SummaryRoutes.KindTotalOfTwo | backend/src/routes/summary.routes.js:50-51 | the kind total of one or two rows adds the amounts of the rows of that kind |
| SummaryRoutes.EndToEndExample | backend/src/routes/summary.routes.js:101-154 | a January with income 1000 and expense 400 summarises as balance 600, count 2; against a February with income 500, the deltas are (−500, −400, −100, −1) and the income change is −50 % |
| MovementSummary.JsFullYear | backend/src/routes/summary.js:19-20 | `new Date(y, …)` keeps the year or adds 1900 to it, and never yields a year in 0..99 |
| MovementSummary.WindowIndex | backend/src/routes/summary.js:18-20 | `new Date(y, m - 1, 1)` is the month with index y'·12 + m − 1 for every month part m, where y' is the constructor's year, so months 00 and 13..99 roll into neighbouring years; for m in 1..12 that is the first of month m of year y', for m = 0 December of the year before |
| MovementSummary.StartOfMonthPart | backend/src/routes/summary.js:19 | the month with index y·12 + m − 1 starts on the first of month m of year y for m in 1..12, and on the first of December of year y − 1 for m = 0 |
| MovementSummary.Found | backend/src/routes/summary.js:26-29 | each movement occurs in the query result as often as in the store when it is the user's and dated in the window, and not at all otherwise |
| MovementSummary.AmountOf | backend/src/routes/summary.js:35 | the amount read with a fallback of 0 is 0 exactly when the amount is missing or zero |
| MovementSummary.KindSum | backend/src/routes/summary.js:34-38 | the sum of the amounts of the movements of one type, in store order; what it adds up is stated by `KindSumAppend`, `OnlyOwnKindCounts` and `KindSumBounds` |
| MovementSummary.KindSumBounds | backend/src/routes/summary.js:34-38 | the sum of a type is 0 when no movement of that type has a non-zero amount, and non-negative when none has a negative one |
| MovementSummary.Monthly | backend/src/routes/summary.js:11-47 | a missing or malformed month is rejected, with no range check; otherwise the loop's income and expense are the amount sums of the income and expense movements found, balance is their difference and count is the number found |
| MovementSummary.FoundIsCalendarMonth | backend/src/routes/summary.js:18-29 | on valid dates the query finds exactly the user's movements whose month index is the window's, each as often as it is stored, so no movement is counted or summed twice |
| MovementSummary.WindowAgreesForValidTokens | backend/src/routes/summary.js:18-20 | for years from 0100 and months 01..12 the window is that calendar month, y·12 + (m − 1) |
| MovementSummary.MonthThirteenRollsOver | backend/src/routes/summary.js:14-20 | "2026-13" passes the format check and its window starts on 2027-01-01 |
| MovementSummary.MonthZeroRollsBack | backend/src/routes/summary.js:14-20 | "2026-00" passes the format check and its window starts on 2025-12-01 |
| MovementSummary.TwoDigitYearMovesToNineteenHundreds | backend/src/routes/summary.js:18-19 | "0050-03" selects March 1950, because the `Date` constructor maps years 0..99 to 1900..1999 |
| MovementSummary.KindSumAppend | backend/src/routes/summary.js:34-38 | the sum for a type over a split list is the sum of the parts |
| MovementSummary.ContributesNothing | backend/src/routes/summary.js:34-46 | a movement of another type, or with a missing or zero amount, adds to neither sum wherever it stands, but is still counted |
| MovementSummary.OnlyOwnKindCounts | backend/src/routes/summary.js:34-38 | one more movement raises the income sum by its stored amount exactly when it is income with an amount, the expense sum likewise for expense, and otherwise leaves both unchanged; with the empty sum 0 this makes each sum the total of the stored amounts of its type |
| CategoryRoutes.NameOf | backend/src/routes/categories.routes.js:15-17 | the schema accepts exactly the string names of length ≥ 1, counted before trimming, and returns that name; anything else is a 400 |
| CategoryRoutes.BlankNameStoredEmpty | backend/src/routes/categories.routes.js:13-17 | a name of white space only passes the schema and trims to the empty string |
| CategoryRoutes.Renamed | backend/src/routes/categories.routes.js:106-115 | the update renames only the row matching both id and user, keeps all of that row's other fields, and leaves every other row unchanged |
| CategoryRoutes.Deactivated | backend/src/routes/categories.routes.js:142-151 | the soft delete clears `is_active` only on the row matching both id and user, keeps the row and its other fields, and leaves every other row unchanged |
| CategoryRoutes.DeactivateIdempotent | backend/src/routes/categories.routes.js:142-159 | deleting an already deleted category changes nothing more |
| CategoryRoutes.DeactivateKeepsInvariant | backend/src/routes/categories.routes.js:142-151 | the soft delete keeps ids and (user, name) pairs unique |
| CategoryRoutes.RenameKeepsInvariant | backend/src/routes/categories.routes.js:105-131 | a rename that is not refused as a duplicate keeps (user, name) pairs unique |
| CategoryRoutes.Visible | backend/src/routes/categories.routes.js:30-39 | the filter keeps exactly the user's categories, and only active ones unless `all` is exactly "1", each as often as it is stored |
| CategoryRoutes.NameOrderIsTotalPreorder | backend/src/routes/categories.routes.js:41 | `ORDER BY name` orders every pair of categories and is transitive |
| CategoryRoutes.Listing | backend/src/routes/categories.routes.js:26-46 | the listing is a permutation of the visible categories, contains exactly them, and is sorted by name |
| CategoryRoutes.SoftDeleteVisibility | backend/src/routes/categories.routes.js:37-39 | after a delete the category is still listed, inactive, with `all=1`, and no category with that id is listed without it |
| CategoryRoutes.CategoryTable.List | backend/src/routes/categories.routes.js:26-46 | GET /categories lists the visible categories of the table, each as often as it is stored, sorted by name |
| CategoryRoutes.CategoryTable.Create | backend/src/routes/categories.routes.js:52-85 | a bad body gives 400 and a name the user already has gives 409, both leaving the table unchanged; otherwise one active row with the trimmed name and a fresh id is appended; uniqueness is kept |
| CategoryRoutes.CategoryTable.Rename | backend/src/routes/categories.routes.js:91-132 | a bad body gives 400, an id the user does not own gives 404, and a name held by another of the user's categories gives 409, each leaving the table unchanged; otherwise only the owned row is renamed, active or not, and returned; uniqueness is kept |
| CategoryRoutes.CategoryTable.Delete | backend/src/routes/categories.routes.js:138-160 | an id the user does not own gives 404 and changes nothing; otherwise the row is deactivated and kept, and deleting again succeeds again |
| TransactionsPage.ComputeTotals | frontend/src/pages/Transactions.jsx:43-52 | the loop computes the income total, the total of all other entries as expense, balance = income − expense, and zeros for an empty list |
| TransactionsPage.TotalsCoverEveryEntry | frontend/src/pages/Transactions.jsx:47-50 | every entry lands in exactly one of the two totals: income + expense is the total amount |
| TransactionsPage.TotalsAppend | frontend/src/pages/Transactions.jsx:47-50 | totals over a split list are the sums of the totals of the parts |
| TransactionsPage.TotalsAfterPrepend | frontend/src/pages/Transactions.jsx:86 | prepending an entry adds its amount to the total of its own side only |
| TransactionsPage.RemoveById | frontend/src/pages/Transactions.jsx:95 | deleting never lengthens the list |
| TransactionsPage.RemoveByIdMembers | frontend/src/pages/Transactions.jsx:95 | after a delete exactly the entries with other ids remain |
| TransactionsPage.RemoveByIdKeepsOrder | frontend/src/pages/Transactions.jsx:95 | deleting from a split list deletes from each part in place, so the kept entries stay in their order |
| TransactionsPage.RemoveByIdPartition | frontend/src/pages/Transactions.jsx:95 | the kept entries and the entries with the id together are the whole list, counting repeats |
| TransactionsPage.RemoveByIdTotals | frontend/src/pages/Transactions.jsx:95 | the kept and the deleted entries together carry the whole income and expense |
| TransactionsPage.RemoveByIdIdempotent | frontend/src/pages/Transactions.jsx:95 | deleting twice is deleting once |
| TransactionsPage.RemoveByIdUnchanged | frontend/src/pages/Transactions.jsx:95 | a list without the id is left as it is |
| TransactionsPage.Scale | frontend/src/pages/Transactions.jsx:58 | a power of ten is positive |
| TransactionsPage.IndexOf | frontend/src/pages/Transactions.jsx:58 | the first position of a character, or the length when it is absent |
| TransactionsPage.ParseMantissa | frontend/src/pages/Transactions.jsx:58 | an unsigned decimal mantissa reads as a non-negative number |
| TransactionsPage.Decimal | frontend/src/pages/Transactions.jsx:58 | a decimal with a fraction is at least its whole part |
| TransactionsPage.DecimalValue | frontend/src/pages/Transactions.jsx:58 | the decimal whole.fraction with p places is whole + fraction/10^p |
| TransactionsPage.MantissaOfDecimal | frontend/src/pages/Transactions.jsx:58 | digits '.' digits reads as the decimal of the two digit runs |
| TransactionsPage.PlainNumberIsMantissa | frontend/src/pages/Transactions.jsx:58 | text that does not start with '-' and has no exponent marker reads as its mantissa |
| TransactionsPage.DecimalParses | frontend/src/pages/Transactions.jsx:58 | a zero-padded numeral (possibly empty), '.', and a zero-padded fraction of p digits reads as whole + fraction/10^p |
| TransactionsPage.ExponentParses | frontend/src/pages/Transactions.jsx:58 | a numeral followed by `e` and an exponent numeral x reads as the numeral times 10^x |
| TransactionsPage.NegativeExponentParses | frontend/src/pages/Transactions.jsx:58 | a numeral followed by `e-` and an exponent numeral x reads as the numeral divided by 10^x |
| TransactionsPage.IndexOfAt | frontend/src/pages/Transactions.jsx:58 | a position holding the character with no earlier occurrence is the first position found |
| TransactionsPage.MantissaOfDigits | frontend/src/pages/Transactions.jsx:58 | a run of digits without '.' reads as its value |
| TransactionsPage.UnsignedWithoutExponent | frontend/src/pages/Transactions.jsx:58 | text without 'e' or 'E' reads as its mantissa |
| TransactionsPage.UnsignedWithExponent | frontend/src/pages/Transactions.jsx:58 | any mantissa, 'e' or 'E' and a well-formed exponent, neither holding an exponent mark, read as the mantissa's value scaled by the exponent's value |
| TransactionsPage.NumberWithExponent | frontend/src/pages/Transactions.jsx:58 | the same for the whole amount text when the mantissa does not start with '-' |
| TransactionsPage.ExponentOfDigits | frontend/src/pages/Transactions.jsx:58 | an exponent of digits reads as their value, with a leading '+' as the same value, and with a leading '-' as its negation |
| TransactionsPage.SignedExponent | frontend/src/pages/Transactions.jsx:58 | an exponent with no sign, '+' or '-' reads as the signed value of its digits and holds no exponent mark |
| TransactionsPage.MantissaExponentText | frontend/src/pages/Transactions.jsx:58 | a mantissa, 'e' or 'E', an optional sign and exponent digits read as the mantissa's value scaled by the signed exponent |
| TransactionsPage.DigitsExponentText | frontend/src/pages/Transactions.jsx:58 | digits, 'e' or 'E', an optional sign and exponent digits read as the digits' value scaled by the signed exponent |
| TransactionsPage.DigitsExponentParses | frontend/src/pages/Transactions.jsx:58 | a numeral, 'e' or 'E', an optional sign and an exponent numeral x read as the numeral scaled by x, or by −x after '-' |
| TransactionsPage.DecimalMantissa | frontend/src/pages/Transactions.jsx:58 | digits (possibly none) '.' digits does not start with '-', holds no exponent mark and reads as its decimal value |
| TransactionsPage.DecimalExponentText | frontend/src/pages/Transactions.jsx:58 | digits '.' digits, 'e' or 'E', an optional sign and exponent digits read as the decimal value scaled by the signed exponent |
| TransactionsPage.DecimalExponentParses | frontend/src/pages/Transactions.jsx:58 | a numeral (possibly empty) '.' a fraction of p digits, 'e' or 'E', an optional sign and an exponent numeral x read as `Decimal(whole, fraction, p)` scaled by x, or by −x after '-' |
| TransactionsPage.PlusExponentParses | frontend/src/pages/Transactions.jsx:58 | a numeral followed by `e+` and an exponent numeral x reads as the numeral times 10^x, as without the '+' |
| TransactionsPage.ScaledValue | frontend/src/pages/Transactions.jsx:58 | scaling m by e is m·10^e for e ≥ 0 and m / 10^−e for e < 0 |
| TransactionsPage.ScaledDecimalExample | frontend/src/pages/Transactions.jsx:58 | 1.5 scaled by 3 is 1500 |
| TransactionsPage.ExampleDecimalExponent | frontend/src/pages/Transactions.jsx:58 | "1.5e3" reads as 1500 |
| TransactionsPage.ExamplePlusExponent | frontend/src/pages/Transactions.jsx:58 | "1e+3" reads as 1000 |
| TransactionsPage.ScaledUp | frontend/src/pages/Transactions.jsx:58 | scaling by a non-negative exponent x multiplies by 10^x |
| TransactionsPage.ScaledDown | frontend/src/pages/Transactions.jsx:58 | scaling by a negative exponent −x divides by 10^x |
| TransactionsPage.ExponentDigitsParse | frontend/src/pages/Transactions.jsx:58 | digits, 'e' and exponent digits read as the first value times 10 to the second |
| TransactionsPage.NegativeExponentDigitsParse | frontend/src/pages/Transactions.jsx:58 | digits, 'e-' and exponent digits read as the first value divided by 10 to the second |
| TransactionsPage.Scaled | frontend/src/pages/Transactions.jsx:58 | scaling by a power of ten keeps a number non-negative |
| TransactionsPage.ParseUnsigned | frontend/src/pages/Transactions.jsx:58 | an unsigned number, exponent included, reads as non-negative; its value in each form is fixed by `UnsignedWithoutExponent`, `MantissaOfDigits`, `MantissaOfDecimal` and `UnsignedWithExponent` |
| TransactionsPage.ParseNumber | frontend/src/pages/Transactions.jsx:58 | a text starting with '-' never reads as a positive number; the value of every unsigned form is fixed by `DecimalParses`, `ExponentParses`, `NegativeExponentParses`, `PlusExponentParses`, `DigitsExponentParses` and `DecimalExponentParses` |
| TransactionsPage.NumeralParses | frontend/src/pages/Transactions.jsx:58 | every plain numeral reads as its value |
| TransactionsPage.ExampleAmountParses | frontend/src/pages/Transactions.jsx:58 | "50000" reads as 50000 |
| TransactionsPage.CheckForm | frontend/src/pages/Transactions.jsx:58-71 | an accepted form carries a positive amount that is the parsed number |
| TransactionsPage.CheckFormOrder | frontend/src/pages/Transactions.jsx:58-71 | the amount error is reported exactly when the amount is empty, NaN or ≤ 0; the date error exactly when the amount passed and the date is empty; the category error exactly when both passed and the category is empty; otherwise the form is accepted |
| TransactionsPage.NegativeAmountRejected | frontend/src/pages/Transactions.jsx:58-63 | a negative amount is always refused with the amount error |
| TransactionsPage.FirstFailureReported | frontend/src/pages/Transactions.jsx:56-71 | only the first failing check is reported: an empty form is refused for its amount; with an amount, for its date; with a date as well, for its category; a complete form is accepted |
| TransactionsPage.Page.constructor | frontend/src/pages/Transactions.jsx:12-30 | the form starts with its default values, no error, and the stored entries |
| TransactionsPage.Page.Submit | frontend/src/pages/Transactions.jsx:54-92 | a failing check sets that error and changes nothing else; success clears the error and prepends exactly one entry: the parsed amount, the trimmed description and counterparty, and the other fields as entered. It also empties amount, description and counterparty, while type, category, date, payment method and status keep their values |
| TransactionsPage.Page.Delete | frontend/src/pages/Transactions.jsx:94-96 | the list becomes the list without the entries of that id, with the properties proved of `RemoveById` |

## Left out

- HTTP routing, authentication middleware, status codes and the database pool are not
  modelled. Each route is a function or a method over an in-memory table. The user id is a
  parameter.
- The two summary queries of `/compare` run in parallel in the source. They are modelled as
  two independent evaluations over the same table.
- A query parameter given twice arrives as an array. It is modelled like any value that
  fails the format check.
- Category ids in the URL are numbers in the model. A non-numeric id, which the database
  would refuse to cast, is not modelled.
- `ORDER BY name` is modelled as code-point order. Database collations are not modelled.
- Ties in `ORDER BY` are left to the database. The model fixes one order (insertion sort),
  and its contracts allow any order among ties.
- The database's `is_active` default is not part of this model. Created categories are
  modelled as active.
- The unique constraint behind the 409 replies is not part of this model either. It is
  modelled as (user, name) unique across all of a user's rows, active or not.
- A `YYYY-MM-DD` date the database cannot read (for example 2026-02-30) is modelled as a
  refusal by the store that leaves the table unchanged. The database error reply is not
  modelled. Year 0000, which the database's calendar has no room for, is treated as an
  ordinary year.
- PostgreSQL returns `numeric` sums as text. The model keeps them as numbers.
- The in-memory summary stores instants with a time zone. The model stores the local
  calendar day of each movement, so time-of-day and time-zone effects are not modelled.
- JavaScript numbers are modelled as exact reals. Float rounding, `Infinity` and `-0` are
  not modelled.
- `Number(x || 0)` is modelled as a missing amount reading as 0.
- The form amount is modelled as the text a number input yields: empty, or an optional '-',
  digits with an optional fraction, and an optional exponent. `Number` on other text
  (white space, hexadecimal, `Infinity`) is not modelled.
- `crypto.randomUUID()`, the current time and today's date are parameters.
- Loading from and saving to browser storage are not modelled. The constructor takes the
  stored entries as a parameter.
- The rendering, the money formatting, the dashboard, the categories page, authentication,
  registration and login are not part of this model.
