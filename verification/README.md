# Racio: money, budgets, imports and exports, verified

Racio is a personal-finance application: TypeScript services over a PostgreSQL database and private
object storage. This project models the deterministic logic under its database calls and proves what
that logic promises. A database call or transaction is one step over plain state: maps and sequences
of rows, the indexes and foreign keys as conditions on a step, a map of stored objects and a clock.
Code that changes things step by step is modelled by classes and loops, each proved against a
specification function; code made of expressions is modelled by functions.

| area | modules |
|---|---|
| exact money text, percentages | `Text`, `Money`, `Percent`, `Ledger` |
| splits and the spending query | `Splits`, `Spending`, `Charges` |
| calendar, periods, budgets, alerts | `Calendar`, `IsoDates`, `Periods`, `AdvisorDates`, `Budgets`, `BudgetCharges`, `Alerts`, `AlertCauses` |
| advisor rate limit | `RateLimiter` |
| export contents | `Csv`, `Paging`, `ExportArtifact` |
| export lifecycle | `ObjectStore`, `ExportProtocol`, `ExportSafety`, `ExportKept`, `ExportTiming`, `ExportStranded`, `ExportService`, `ExportRefinement` |
| statement imports | `ImportCandidates`, `Reconciliation`, `ImportReview`, `ImportRaces`, `ImportConditions`, `ImportService`, `ImportRefinement` |

Conventions: `Result` and `Option` stand for thrown errors and absent values; amounts are integers in
millionths wherever the source uses `bigint`, and text wherever it uses text; days are counted from
1970-01-01; times are milliseconds except for the microsecond column `created_at`. SHA-256, the
normalization of descriptions, workbook and archive bytes and the database's printing of unusual
numbers are function parameters, and `today` and `now` are inputs.

## Where the code does less than its text suggests

The model follows the code. Each of these is proved, with an input or a run that shows it and the
exact condition under which the code does keep the promise.

- Keyset paging puts `createdAt` into its cursor as a JavaScript `Date`, which drops the column's
  microseconds. Paging is exact if and only if every row that ends a page has a whole-millisecond
  time (`Paging.PagingIsExactIffBoundariesWhole`), and the archive's first rows are right if and only
  if those before its limit have (`Paging.ArchiveHoldsTheFirstRowsIff`). A batch stored in one
  microsecond and larger than a page traps the cursor (`Paging.BatchTrapsTheCursor`); there is one for
  every page size (`Paging.SomeBatchTraps`).
- The orphan reconciler's grace period does not always protect a referenced file. The file of a ready
  unexpired row is there over every continuation if and only if it is stored and no reconciler under
  way has condemned it (`ExportKept.ReadyFileStaysIff`; `ExportKept.LinkedFileSurvivesIff` for any
  link), and over a run no file is ever lost or condemned if and only if no finalize links a file that
  is already gone or condemned (`ExportKept.FilesKeptThroughoutIff`). Attempts that write and finalize
  within the grace period of their last write never do (`ExportTiming.ReadyFilesAreThere`); with a late
  chunk (`ExportTiming.LateChunkLosesTheFile`) or a late finalize
  (`ExportTiming.LateFinalizeLosesTheFile`) it happens.
- The too-large update of an export looks at the id alone, so a `ready` row can become `failed`
  (`ExportStranded.ReadyRowCanFail`). A row that is kept stays ready over a run if and only if no such
  update of one of its attempts occurs (`ExportStranded.StaysReadyIff`). The failed row keeps its key,
  and if no reconciler under way has condemned the file then neither sweep nor reconciler ever takes
  it, whatever the timing (`ExportStranded.StrandedFileStays`).
- A CSV record with no fields prints as an empty line and reads back as one empty field
  (`Csv.EmptyRecordComesBackWithAField`); the round trip holds if and only if no record is empty
  (`Csv.RoundTripIffNoEmptyRecord`).
- Reconciliation adds up all rows but compares only the first and the last balance, so rows outside
  those two count against a consistent statement: it matches if and only if they book at most one
  unit (`Reconciliation.ConsistentBalancesMatchIff`); three rows are enough to fail
  (`Reconciliation.LeakyRowsMismatch`).
- Saving a reviewed row recomputes its fingerprint from the stored amount. Given that the digest has
  no collisions, a line imported later is recognised as that row if and only if it agrees with it in
  date, currency, direction and normalized description and spells the amount with six decimals
  (`ImportCandidates.ReviewedRowIsRecognisedIff`), so a line with the amount `1` is not recognised
  after its own review (`ImportCandidates.ReviewedRowIsMissed`).
- `imported` is not final: any later edit of one of the statement's rows writes its status again, with
  nobody else at work (`ImportRaces.ImportedIsNotFinal`). It lasts over a run if and only if no status
  is written by an edit, a job or a parser result (`ImportConditions.StaysImportedIff`).
- `ready` does not mean reviewed: two overlapping edits that both finish
  (`ImportRaces.ReadyWithABlockedRow`), or one that stops after writing its row
  (`ImportRaces.StoppedEditLeavesReady`), leave it on a statement with a row to review. It stays true
  over a run if and only if no row write unsettles a row of a ready statement and no outdated count is
  written (`ImportConditions.ReadyStaysTrueIff`); edits that do not overlap between count and status and
  do not stop between row and status keep it true (`ImportConditions.OrderlyReadyIsTrue`).
- A row excluded while a confirmation runs is still imported (`ImportRaces.ExcludedRowIsImported`),
  namely if and only if the last edit of it between the confirmation's reading and its commit excluded
  it (`ImportConditions.CommitImportsExcludedIff`). No interleaving imports a row twice
  (`ImportReview.ReachableIsSound`).
- Without the two one-primary-category indexes the joins repeat a transaction: it is charged once for
  each of its primary categories, and each of its splits once for each primary category of the split
  (`Spending.FanOut`, `Spending.TwoPrimariesCountTwice`). A positive transaction whose splits are
  positive and sum to it is charged exactly its amount if and only if neither it nor any of its splits
  has two (`Spending.ChargedOnceIff`).

## Model

| member | source | states |
|---|---|---|
| Money.ParseUndoesPrint | packages/domain/src/index.ts:26-44 | printing any integer and parsing it back gives the integer, exactly when its magnitude is below 10^20; otherwise parsing fails |
| Money.ParsedValueInRange | packages/domain/src/index.ts:27-35 | whatever parses has magnitude below 10^20 |
| Money.SpaceInFrontIsIgnored | packages/domain/src/index.ts:27-28 | exactly the 25 white-space characters that trimming removes are ignored in front of an amount |
| Money.PrintIsTheCanonicalForm | packages/domain/src/index.ts:38-44 | printed text is canonical, and it is the only canonical text with that value |
| Money.ParseOfNumericText | packages/domain/src/index.ts:19-35 | NUMERIC(20,6) text parses to its value in range, and is a safe decimal string |
| Money.TrimNumericIsTheCanonicalPrinter | packages/transactions/src/spending.ts:38-48 | on every scale-6 text the report's own trimming gives the canonical form, the same as normalizing it |
| Money.NoAmountIsZero | packages/transactions/src/spending.ts:38-48 | of no amount or blank text the report makes zero |
| Money.MoneyArithmetic | packages/planning/src/money.ts:10-24 | sums, differences and signs of printed amounts are those of the integers, failing outside the range |
| Percent.PrintedPercentReadsBack | packages/planning/src/money.ts:44-55 | the printed percentage reads back to exactly the hundredths it was printed from |
| Percent.ReachedIffDisplayed | packages/planning/src/money.ts:44-66 | for a non-negative part and positive total, a threshold is reached exactly when the displayed number is at least the threshold |
| Percent.PercentReachedMatchesPercentOf | packages/planning/src/money.ts:44-66 | the same for the functions on decimal text |
| Percent.NothingOfNoTotal | packages/planning/src/money.ts:44-66 | of a total that is not positive nothing is reached and 0 is shown, even if the part cannot be read |
| Percent.QuotientTruncates | packages/planning/src/money.ts:48-50 | the percentage is rounded towards zero on both sides of it |
| Splits.ValidateSplitSet | packages/domain/src/splits.ts:17-60 | the loop reports exactly the errors that apply, each once, with the exact total and remainder |
| Splits.ValidIffExact | packages/domain/src/splits.ts:17-60 | no error applies exactly when ids and positions are distinct, currencies agree, every amount is positive and they add up to the parent |
| Spending.GetExpenseSpending | packages/transactions/src/spending.ts:70-144 | the report shows the query's groups and the exact sum of them, and fails exactly when an amount on the way is out of range |
| Spending.JoinIsAllocation | packages/transactions/src/spending.ts:50-132 | under the two unique indexes, the three-way left join with its CASE columns yields each active split under its own category, or the parent under its category if unsplit |
| Spending.GroupingKeepsSums | packages/transactions/src/spending.ts:101-132 | GROUP BY gives one group a category, for the categories that occur, with the sum of that category's rows; nothing is lost in total |
| Spending.AllocationsKeepTheAmount | packages/transactions/src/spending.ts:60-68 | splits that passed validation allocate exactly the parent's amount |
| Spending.SpendingIsTheAllocation | packages/transactions/src/spending.ts:70-144 | per category the report is the simple allocation, and in total the sum of the parents' amounts, so splitting never changes it |
| Spending.SpendingIsAdditive | packages/transactions/src/spending.ts:70-144 | whatever the indexes, spending over two adjacent date ranges adds up, in total and for every category |
| Spending.UncategorizedReportsAgree | packages/transactions/src/spending.ts:160-237 | over an unbounded range the null-category amount and row count equal those of the uncategorized report for the currency |
| Charges.ReportIsCharged | packages/transactions/src/spending.ts:70-144 | the report, per category and in total, is the sum over the user's confirmed debits in currency, days and account that are on neither side of a confirmed transfer, each charged as its active splits and primary categories say |
| Charges.OthersAreNotCharged | packages/transactions/src/spending.ts:75-97 | removing a transaction of another user, unconfirmed, no debit, of another currency, day or account, or on either side of the user's confirmed transfer changes nothing in the report, whatever the indexes |
| Charges.OneMoreIsCharged | packages/transactions/src/spending.ts:75-132 | any other transaction adds exactly its charge, to each category and in total |
| Charges.ChargeIsTheAmount | packages/transactions/src/spending.ts:60-68 | that charge is its amount in total, unsplit or with validated splits |
| Charges.OtherLinksDoNotMatter | packages/transactions/src/spending.ts:83-97 | an unconfirmed link, or one of another user, changes nothing |
| Charges.ArchivedSplitsDoNotMatter | packages/transactions/src/spending.ts:107-114 | an archived split, or one of another user, changes nothing |
| Charges.OtherCategoriesDoNotMatter | packages/transactions/src/spending.ts:123-130 | a transaction category that is not primary, or of another user, changes nothing |
| Charges.OtherSplitCategoriesDoNotMatter | packages/transactions/src/spending.ts:115-122 | neither does such a split category |
| Spending.FanOut | packages/transactions/src/spending.ts:101-132 | whatever the category tables hold, a transaction is charged max(1, its primary categories) times its amount, or if split that many times the sum over its active splits of max(1, the split's primary categories) times the split's amount |
| Spending.ChargedOnceIff | packages/database/src/schema.ts:984-986 | a positive transaction, unsplit or with positive splits that sum to it, is charged exactly its amount if and only if neither it nor a split has two primary categories |
| Spending.TwoPrimariesCountTwice | packages/database/src/schema.ts:892-894 | two primary categories double a transaction |
| RateLimiter.InMemoryRateLimiter.Check | packages/advisor/src/rate-limit.ts:22-32 | a call is accepted and counted by its user's bucket as it was before the call |
| RateLimiter.InMemoryRateLimiter.Prune | packages/advisor/src/rate-limit.ts:34-38 | the deleting loop leaves exactly the buckets whose window is not over |
| RateLimiter.PruningIsUnobservable | packages/advisor/src/rate-limit.ts:13-39 | over any run with a clock that never goes back, every decision is the one a limiter that never prunes takes |
| RateLimiter.BucketsAreBounded | packages/advisor/src/rate-limit.ts:31-38 | after an accepted call there are fewer than 5000 buckets or only open ones |
| RateLimiter.AtMostTwiceMax | packages/advisor/src/rate-limit.ts:13-39 | at most 2*max calls of a user are accepted in any interval of the window's length |
| RateLimiter.AtMostMaxPerWindow | packages/advisor/src/rate-limit.ts:13-39 | at most max calls of a user are accepted since the user's window started |
| RateLimiter.RejectedIff | packages/advisor/src/rate-limit.ts:22-32 | a call is rejected exactly when its user's window is open and max calls were accepted in it, or max is zero |
| RateLimiter.AcceptedUnlessBusy | packages/advisor/src/rate-limit.ts:22-32 | a call is accepted whenever fewer than max of its user's were accepted in the window's length up to it |
| RateLimiter.EmptyWindowNeverRejects | packages/advisor/src/rate-limit.ts:13-39 | with a window of no length nothing is rejected |
| Calendar.MakeDayOfCivil | packages/planning/src/period.ts:19-56 | a day number's year, month and day make that day number again (section 21.4.1 of ECMA-262) |
| Calendar.CivilOfMakeDay | packages/planning/src/period.ts:19-56 | a date's day number has that date's year, month and day |
| IsoDates.ParseOfIso | packages/planning/src/period.ts:19-25 | for four-digit years, printing a day and parsing it gives the day |
| IsoDates.IsoOfParse | packages/planning/src/period.ts:19-25 | parsing date text and printing it gives the text |
| IsoDates.IsoOrder | packages/planning/src/period.ts:123-125 | text order of ISO dates is day order |
| Periods.PeriodContains | packages/planning/src/period.ts:69-115 | a day lies within its period, and every day of the period has the same bounds |
| Periods.PeriodsAbut | packages/planning/src/period.ts:69-115 | the day after a period starts one and the day before it ends one: periods partition time |
| Periods.BoundsText | packages/planning/src/period.ts:69-115 | the text bounds for today are those of the day arithmetic, previous period included |
| Periods.PeriodsPartitionDates | packages/planning/src/period.ts:69-115 | two days have the same bounds exactly when one lies, by text comparison, within the other's bounds |
| Periods.TodayIsInItsPeriod | packages/planning/src/period.ts:69-125 | today is within its bounds and its period has not ended |
| Periods.PreviousIsThePeriodBefore | packages/planning/src/period.ts:69-115 | previousStart and previousEnd are the bounds of the period before, which ends the day before this one starts |
| Periods.SameKeyIffSamePeriod | packages/planning/src/period.ts:128-139 | two days share a period key exactly when they share a period |
| Periods.KeyNamesThePeriod | packages/planning/src/period.ts:128-139 | the key is the type's letter and the first day, so keys of different period types never meet |
| Periods.DaysRemainingCountsTheRest | packages/planning/src/period.ts:118-121 | days remaining are the days from today to the period's end, at least one |
| Periods.WeeksStartOnMondays | packages/planning/src/period.ts:76-86 | weekly periods start whole weeks after Monday 5 January 1970 |
| AdvisorDates.WeeksAgreeWithPeriods | packages/advisor/src/date.ts:41-45 | this week and last week are the weekly period so far and the one before |
| AdvisorDates.MonthsAgreeWithPeriods | packages/advisor/src/date.ts:28-39 | this month and last month are the monthly period so far and the one before |
| AdvisorDates.YearsAgreeWithPeriods | packages/advisor/src/date.ts:239-256 | this year, year to date and last year are the yearly period so far and the one before |
| AdvisorDates.LastDaysAreThatMany | packages/advisor/src/date.ts:231-238 | last 7, 14, 30 and 90 days are that many days, today the last of them |
| AdvisorDates.PreviousRangeAbuts | packages/advisor/src/date.ts:265-274 | the previous range has the same length and ends the day before the current one starts |
| Budgets.SpentInBounds | packages/planning/src/budgets.ts:208-228 | the amount spent in text bounds is the sum over those days of the budget's scope |
| Budgets.CarryOver | packages/planning/src/budgets.ts:273-288 | the bounded look-back loop carries the sum of what was left, never less than nothing, in each of the periods it visits |
| Budgets.EarlierPeriods | packages/planning/src/budgets.ts:269-297 | carryover and previous spending with and without rollover |
| Budgets.GetBudgetStatus | packages/planning/src/budgets.ts:252-317 | the status shown for a budget, and exactly when it cannot be computed |
| Budgets.CarriedPeriodsSinceCreation | packages/planning/src/budgets.ts:273-288 | the loop visits min(12, max(1, j)) periods, where j is how many periods ago the budget was created |
| Budgets.CarryIsBounded | packages/planning/src/budgets.ts:283-284 | with non-negative spending the carry over k periods lies between 0 and k times the amount |
| Budgets.CarryIsAtMostTwelveAmounts | packages/planning/src/budgets.ts:273-288 | the carry never exceeds twelve times the amount |
| Budgets.PeriodsCountEveryTransactionOnce | packages/planning/src/budgets.ts:276-288 | the visited periods' spending adds up to the spending of the whole stretch: no day is counted twice or missed |
| Budgets.ExceededIffDisplayedInFull | packages/planning/src/budgets.ts:245-250 | an unended budget is exceeded exactly when it displays at least 100 percent |
| Budgets.ApproachingIffDisplayed | packages/planning/src/budgets.ts:245-250 | an unended budget is approaching its limit exactly when the limit is positive and it displays at least its threshold and less than 100 |
| Budgets.StatusFollowsPercentage | packages/planning/src/budgets.ts:245-313 | the status shown follows from the percentage shown with it: complete once the period is over, else exceeded from 100, approaching from the budget's threshold or 80 |
| Budgets.StatusNeverImproves | packages/planning/src/budgets.ts:245-250 | spending more never gives a better status |
| Budgets.CompleteOnlyForEndedCustomBudgets | packages/planning/src/budgets.ts:245-313 | complete is shown exactly for custom budgets whose end has passed, never for weekly, monthly or yearly ones |
| BudgetCharges.OthersDoNotCount | packages/planning/src/budgets.ts:215-228 | removing a transaction of another account than the budget's, of another currency or user, unconfirmed, no debit or in a confirmed transfer changes nothing in the status, rollover included |
| BudgetCharges.OneMoreCounts | packages/planning/src/budgets.ts:215-228 | any other transaction, on every account if the budget has none, adds its charge to the amount spent exactly if it is booked within the period the status names |
| Alerts.AlertTable.InsertEvent | packages/planning/src/alerts.ts:229-255 | an event is stored unless its dedupe key is taken, and the count says which |
| Alerts.AlertTable.EvaluateBudgets | packages/planning/src/alerts.ts:274-308 | succeeds exactly if every budget status can be computed; the events stored are those of the budgets before the first that cannot, and the count is the growth |
| Alerts.AlertTable.EvaluateUserAlerts | packages/planning/src/alerts.ts:264-415 | succeeds exactly if every status can be computed and every goal exists with readable amounts; what is stored is exactly what was reached, and eventsCreated is the growth of the event set |
| Alerts.ReachedIsPrefix | packages/planning/src/alerts.ts:264-415 | what an evaluation reaches is a beginning of its findings, and all of them when it succeeds |
| Alerts.EvaluationReaches | packages/planning/src/alerts.ts:264-415 | so an evaluation, successful or failing, is one that delivered a prefix of its findings |
| Alerts.InsertedAllKeys | packages/planning/src/alerts.ts:229-255 | evaluation keeps earlier events and adds one event for each new key among the findings |
| Alerts.EvaluationIsIdempotent | packages/planning/src/alerts.ts:229-415 | evaluating the same findings again adds nothing |
| Alerts.ExceededKeyInjective | packages/planning/src/alerts.ts:264-415 | for colon-free ids the exceeded key determines the budget and the period |
| Alerts.ExceededFindings | packages/planning/src/alerts.ts:264-415 | an exceeded finding with that key arises exactly when the budget is found exceeded in that period |
| Alerts.OneEventPerExceededPeriod | packages/planning/src/alerts.ts:264-415 | over any run, with evaluations that fail or are cut short at any insert, a budget has an exceeded event for a period exactly when some evaluation found it exceeded then and got as far as that finding, and only one |
| Alerts.CompleteEvaluationDelivers | packages/planning/src/alerts.ts:264-415 | an evaluation that reached all its findings delivered the exceeded event exactly if it found the budget exceeded |
| Alerts.ExceededEventsComeFromPeriods | packages/planning/src/alerts.ts:264-415 | over the same runs, every exceeded event of a budget comes from a period in which an evaluation found it exceeded |
| AlertCauses.FindingsAreWhatArises | packages/planning/src/alerts.ts:285-412 | an evaluation finds exactly the budgets exceeded or approaching, the mismatched statements, and the uncategorized counts above, milestones reached and deadlines near for some rule, each with its own key and event |
| AlertCauses.KeyInjective | packages/planning/src/alerts.ts:285-412 | for colon-free ids a dedupe key determines the kind of event and all it is about: budget, period and threshold, statement, goal and milestone or days |
| AlertCauses.OneEventPerSubject | packages/planning/src/alerts.ts:264-415 | over any run, with evaluations that fail or are cut short at any insert, each such event is stored, once, exactly if some evaluation read what calls for it and got that far |
| AlertCauses.EveryEventHasACause | packages/planning/src/alerts.ts:264-415 | over the same runs no event is stored without a cause |
| AlertCauses.CompleteEvaluationDeliversAll | packages/planning/src/alerts.ts:264-415 | an evaluation that reached all its findings delivered exactly what arose |
| AlertCauses.ReachedIffShown | packages/planning/src/alerts.ts:376-390 | a milestone is reached exactly when the percentage displayed for the goal is at least it |
| AlertCauses.UncategorizedAreOpen | packages/transactions/src/spending.ts:160-237 | the count a rule compares is that of the spent splits and whole transactions without a primary category |
| Csv.BuildCsv | packages/export/src/csv.ts:31-43 | the byte buffer with its moving offset holds exactly the mark and the encoded records |
| Csv.SanitizedIsSafe | packages/export/src/sanitize.ts:11-16 | sanitized text never starts with =, +, -, @, a tab or a carriage return, sanitizing twice is sanitizing once, and exactly text that does not start so is unchanged |
| Csv.QuotedIff | packages/export/src/csv.ts:15-19 | a field is quoted exactly if its sanitized text has a quote, a comma or a line break |
| Csv.SanitizerCollisions | packages/export/src/sanitize.ts:11-16 | two texts sanitize alike exactly when one is the other, dangerous, behind an apostrophe |
| Csv.ReadCsvOfPrinted | packages/export/src/csv.ts:15-23 | a reader of section 2 of RFC 4180 reads any printed records, quotes, commas and line breaks included |
| Csv.EmptyRecordComesBackWithAField | packages/export/src/csv.ts:21-23 | a record without fields comes back with one empty field |
| Csv.RoundTripIffNoEmptyRecord | packages/export/src/csv.ts:15-23 | printing and reading returns the sanitized records exactly when none is empty |
| Csv.DecodeUndoesEncode | packages/export/src/csv.ts:25-29 | UTF-8 decoding undoes encoding for all text |
| Csv.BuiltFileReadsBack | packages/export/src/csv.ts:12-43 | the built file reads back as the sanitized header and rows exactly when none is empty |
| Paging.FetchArchiveTransactions | packages/export/src/queries.ts:302-316 | the do-while loop returns the first rows of the pages it follows |
| Paging.SnapshotRows | packages/export/src/service.ts:300-316 | the snapshot loop returns every row of the pages it follows, or fails beyond the limit |
| Paging.OrderByIsSorted | packages/export/src/queries.ts:140-144 | the order by booking date, creation time and id is strict for distinct ids |
| Paging.PageIsSlice | packages/export/src/queries.ts:92-154 | a page is the slice of the ordered rows that the cursor stands before, with a next cursor exactly when rows remain |
| Paging.CursorResumes | packages/export/src/queries.ts:93-107 | a cursor resumes after its row exactly when that row's time is a whole millisecond, and before it otherwise |
| Paging.PagingIsExactIffBoundariesWhole | packages/export/src/queries.ts:92-154 | for every page size, following cursors ends with all rows in order, none skipped or repeated, exactly when every row that ends a page has a whole-millisecond time |
| Paging.ArchiveHoldsTheFirstRowsIff | packages/export/src/queries.ts:302-316 | the archive holds exactly the first min(limit, n) rows if and only if every row that ends a page before the limit has a whole-millisecond time |
| Paging.SnapshotIsExactIff | packages/export/src/service.ts:300-316 | the snapshot is all rows in order if and only if they are within the row limit and every row that ends a page has a whole-millisecond time |
| Paging.BatchTrapsTheCursor | packages/export/src/queries.ts:92-154 | in a batch of one millisecond larger than a page, the cursor comes back to the same page for ever |
| Paging.SomeBatchTraps | packages/export/src/queries.ts:92-154 | for every page size there is such a batch, and its pages never give the rows exactly |
| ExportArtifact.StreamPage | packages/export/src/service.ts:586-593 | a page's rows are hashed, counted and written up to the first row over a limit, and the object then holds exactly the file of the rows before it |
| ExportArtifact.StopsAtTheFirst | packages/export/src/service.ts:586-593 | that beginning is the longest that fits both limits, and the row limit is reported first |
| ExportArtifact.StreamCsvArtifact | packages/export/src/service.ts:544-601 | streaming succeeds exactly within both limits, and then stores byte for byte the file built in memory, with its size and the hash of those bytes; otherwise the error and the stored beginning of the file are those of the first row over a limit |
| ExportArtifact.StreamedFileHoldsEveryRow | packages/export/src/service.ts:571-596 | a successful file reads back as the sanitized header and the delivered rows, which are all rows in order if and only if every row that ends a page has a whole-millisecond time |
| ExportArtifact.ProduceArtifact | packages/export/src/service.ts:474-496 | for CSV, workbook and archive alike, the file made is stored with its size and hash exactly if it is within the limits; a file made in memory leaves nothing otherwise |
| ObjectStore.PrivateStorage.PutChunks | packages/storage/src/index.ts:68-84 | the object holds the chunks one after the other and the size is theirs |
| ObjectStore.PrivateStorage.List | packages/storage/src/index.ts:93-113 | exactly the objects under the prefix are listed, once each, newest first |
| ExportSafety.StepKeepsInvariant | packages/export/src/service.ts:456-723 | every step of attempts, deletes, downloads, sweeps and reconcilers keeps keys owned, files described and contents in place |
| ExportSafety.ReachableIsSafe | packages/export/src/service.ts:456-723 | so does every run, with any interleaving, crashes and timing |
| ExportSafety.NoTwoRowsShareAKey | packages/export/src/service.ts:471-514 | in no reachable state do two rows have the same storageKey |
| ExportSafety.DownloadsAreIntact | packages/export/src/service.ts:255-279 | downloaded bytes have the size and checksum of the row that was read, with no timing assumption |
| ExportSafety.RowsProgress | packages/export/src/service.ts:471-541 | over any run a row never returns to preparing, a failed row stays failed, and its storageKey is set at most once |
| ExportSafety.GoneForGood | packages/export/src/service.ts:238-253 | a deleted row never comes back, whatever attempts are under way |
| ExportSafety.DroppedForGood | packages/export/src/service.ts:471-514 | neither does a row dropped with its account |
| ExportKept.LinkedFileSurvivesIff | packages/export/src/service.ts:695-723 | a row's unexpired file survives every continuation, timely or not, if and only if it is stored and no reconciler under way has condemned it |
| ExportKept.FinalizedFileSurvivesIff | packages/export/src/service.ts:498-512 | the file a winning finalize links survives every continuation if and only if it was stored and not condemned at that moment |
| ExportKept.ReadyFileStaysIff | packages/export/src/service.ts:456-723 | in every reachable state, a ready unexpired row's file is there with its size and checksum over every continuation if and only if it is stored and not condemned now |
| ExportKept.StaysKeptIff | packages/export/src/service.ts:498-512 | while all linked unexpired files are stored and not condemned, a step ends that if and only if it is a finalize that links a file which is not |
| ExportKept.FilesKeptThroughoutIff | packages/export/src/service.ts:456-723 | over any run from the start all linked unexpired files stay stored and not condemned if and only if no such finalize occurs |
| ExportTiming.RemovalIsAllowed | packages/export/src/service.ts:638-723 | every removal of an object hits an attempt's own, a deleted row's, an expired or a lost one |
| ExportTiming.StaysLost | packages/export/src/service.ts:695-723 | a key the reconciler has condemned is never linked to a row later |
| ExportTiming.ReadyFilesAreThere | packages/export/src/service.ts:456-723 | over every timely run, a ready unexpired row names a stored object with its size and checksum |
| ExportTiming.LateChunkLosesTheFile | packages/export/src/service.ts:680-723 | with timely finalizes and a late chunk, some run loses the file of a ready unexpired row |
| ExportTiming.LateFinalizeLosesTheFile | packages/export/src/service.ts:680-723 | with timely chunks and a late finalize, some run loses it too |
| ExportStranded.ReadyRowCanFail | packages/export/src/service.ts:526-541 | a losing attempt that is too large turns a ready row into a failed one that keeps its key, in some run |
| ExportStranded.LeavesReadyIff | packages/export/src/service.ts:526-541 | a step takes a row that it keeps out of ready if and only if it is the too-large update of one of the row's attempts |
| ExportStranded.StaysReadyIff | packages/export/src/service.ts:526-541 | over any run that keeps it, a ready row ends up ready if and only if no such update occurs |
| ExportStranded.TooLargeStrands | packages/export/src/service.ts:526-541 | after that update of an unexpired row no sweep under way has selected its file, and the file is stranded exactly if it was stored and not condemned before |
| ExportStranded.StrandedFileStays | packages/export/src/service.ts:638-723 | from then on, over every run that keeps the row, timely or not, the file stays stored, beyond its expiry |
| ExportService.ExportService.DeleteExport | packages/export/src/service.ts:238-253 | the owner's row and its file go, nothing else does |
| ExportService.ExportService.DownloadExport | packages/export/src/service.ts:255-279 | exactly which error each row gives, and the stored bytes for a ready unexpired row with a file |
| ExportService.ExportService.GenerateExportFile | packages/export/src/service.ts:456-542 | for every kind of export and whatever others do to the table meanwhile, only a winning attempt links its row, to exactly the file written; a losing or too-large one leaves no object, and a CSV with too many rows leaves those within the limit |
| ExportService.ExportService.CleanupExpiredExports | packages/export/src/service.ts:638-678 | a preparing row fails exactly if it was last updated more than the bound ago, a ready row forgets its file exactly if it has passed its expiry and could be deleted, nothing else changes, exactly the passed files go, and both counts are right |
| ExportService.ExportService.ReconcileOrphanExports | packages/export/src/service.ts:695-723 | exactly the exports under the prefix that no row has as its file and that were last written at least the grace period ago go, and both counts are right |
| ExportRefinement.ReconciliationIsARun | packages/export/src/service.ts:695-723 | the protocol's uninterrupted reconciliation reaches the store that ReconcileOrphanExports specifies |
| ExportRefinement.CleanupIsARun | packages/export/src/service.ts:638-678 | the protocol's uninterrupted sweep reaches the table and store that CleanupExpiredExports specifies |
| ExportRefinement.DeletionIsARun | packages/export/src/service.ts:238-253 | the protocol's uninterrupted deletion removes the row and its file, as DeleteExport does |
| ExportRefinement.ReachableKeysAreDistinct | packages/export/src/service.ts:471-514 | in every reachable state the condition CleanupExpiredExports needs holds |
| ExportRefinement.GenerationIsARun | packages/export/src/service.ts:456-514 | the protocol's uninterrupted attempt, for any chunks, finalizes its row with them as a winning GenerateExportFile does |
| ExportRefinement.LosingAttemptLeavesNothing | packages/export/src/service.ts:514-521 | an attempt that loses its row goes on to leave neither an object nor a change of the table |
| ExportRefinement.TooLargeAttemptLeavesNothing | packages/export/src/service.ts:526-541 | one that is too large leaves no object and fails its row |
| ExportRefinement.GeneratedFileIsDownloaded | packages/export/src/service.ts:255-279 | a download after such an attempt, before the row expires, gets back exactly the bytes that were generated |
| ImportCandidates.ValidateImportCandidate | packages/domain/src/index.ts:100-111 | the warnings are exactly those that apply, each once, and there is none exactly for an importable candidate |
| ImportCandidates.CurrencyCodesAre | packages/domain/src/index.ts:107-108 | a currency code is three letters from A to Z |
| ImportCandidates.StoringKeepsImportable | packages/database/src/schema.ts:439-439 | an importable candidate is importable as stored in NUMERIC(20,6), with the same amount |
| ImportCandidates.PersistParserResult | packages/imports/src/index.ts:1555-1660 | a row is a duplicate exactly when its fingerprint is in the history or on an earlier row; the statement is ready exactly when it has rows and all are valid |
| ImportCandidates.StoredLineIs | packages/imports/src/index.ts:1564-1600 | a stored row has the line's date, amount as stored and direction, its own currency before the account's and its description before the raw one, and the fingerprint of these |
| ImportCandidates.DuplicateIff | packages/imports/src/index.ts:1593-1596 | a row is a duplicate exactly when its fingerprint is in the history or that of an earlier row |
| ImportCandidates.NonDuplicatesAreNew | packages/imports/src/index.ts:1593-1596 | rows that are not duplicates have distinct fingerprints outside the history |
| ImportCandidates.StoredValidRowsAreImportable | packages/imports/src/index.ts:1585-1643 | a row stored as valid satisfies the validator as it stands |
| ImportCandidates.SameFingerprintIff | packages/imports/src/index.ts:54-72 | without digest collisions two lines share a fingerprint exactly when they agree in date, amount text, currency, direction and normalized description |
| ImportCandidates.ReviewedRowIsRecognisedIff | packages/imports/src/index.ts:689-712 | a later line is recognised as a reviewed row exactly when it agrees in date, currency, direction and normalized description and spells the amount with six decimals |
| ImportCandidates.ReviewedRowIsMissed | packages/imports/src/index.ts:689-712 | so the line of a reviewed row with the amount 1 is not recognised again |
| Reconciliation.DeriveReconciliation | packages/imports/src/index.ts:1480-1539 | the credit and debit loop and the derived or stated balances give exactly the stored verdict and the stored opening and closing balances, also when a value cannot be read; unknown rows or no balance verify nothing |
| Reconciliation.JudgedByBalances | packages/imports/src/index.ts:1507-1530 | with balances from the PDF, from the rows or one of each, a statement matches exactly when the closing balance is the opening one plus credits minus debits up to one unit, and those balances are stored |
| Reconciliation.BlankBalanceIsMissing | packages/domain/src/index.ts:128-160 | a blank stated balance verifies nothing |
| Reconciliation.JudgedByDiscrepancy | packages/domain/src/index.ts:128-160 | without PDF balances the verdict depends on last balance minus first balance minus all other signed amounts, within the 14-digit bound, and is unverifiable beyond it |
| Reconciliation.ConsistentBalancesMatchIff | packages/imports/src/index.ts:1507-1530 | consistent balances match exactly when the rows outside them book at most one unit; with balances at both ends they always match with difference 0 |
| Reconciliation.LeakyRowsMismatch | packages/imports/src/index.ts:1507-1530 | three equal credits of more than one unit, with consistent balances on the last two, are a mismatch |
| Reconciliation.FirstAmountCancels | packages/imports/src/index.ts:1517-1519 | with balances at both ends the first row's amount does not enter the difference |
| ImportReview.StepKeepsInvariant | packages/imports/src/index.ts:603-833 | every step of edits, confirmations, parser results and status writes keeps valid rows importable and transactions complete and unique by source |
| ImportReview.ReachableIsSound | packages/imports/src/index.ts:603-833 | so does every run: no raw row ever backs two transactions |
| ImportReview.CommitInsertsValidRows | packages/imports/src/index.ts:773-833 | a commit inserts one transaction for each valid row it read, with its date, amount, currency and direction, never the fallback, and credit and debit sums grow by theirs |
| ImportRaces.ReadyWithABlockedRow | packages/imports/src/index.ts:642-652 | two overlapping edits that both finish can leave a statement ready with a row to review |
| ImportRaces.StoppedEditLeavesReady | packages/imports/src/index.ts:714-724 | one edit that stops after writing its row leaves a ready statement with a row to review |
| ImportRaces.ImportedIsNotFinal | packages/imports/src/index.ts:721-724 | one whole edit begun after the import, with nobody else at work, makes an imported statement ready again |
| ImportRaces.ExcludedRowIsImported | packages/imports/src/index.ts:773-812 | a row excluded after a confirmation has read it is still imported |
| ImportConditions.LeavesImportedIff | packages/imports/src/index.ts:649-652 | a step takes a statement out of imported exactly if it is the status write of one of its edits, of a job, or of a parser result |
| ImportConditions.StaysImportedIff | packages/imports/src/index.ts:721-724 | over any run a statement stays imported exactly if none of these occurs |
| ImportConditions.BecomesMisleadingIff | packages/imports/src/index.ts:642-652 | from a state in which ready means reviewed, a step breaks that exactly if it writes a row to review into a ready statement or the status of an outdated count |
| ImportConditions.ReadyStaysTrueIff | packages/imports/src/index.ts:714-724 | over any run ready means reviewed throughout exactly if neither occurs |
| ImportConditions.OrderlyReadyIsTrue | packages/imports/src/index.ts:603-726 | when edits of a statement neither overlap between count and status nor stop between row and status, a ready statement has only valid and excluded rows unless an edit is between its row and its status |
| ImportConditions.ExcludedIffLastEdit | packages/imports/src/index.ts:633-641 | over any run a row is excluded exactly if its last edit excluded it, or it was excluded and not edited |
| ImportConditions.CommitImportsExcludedIff | packages/imports/src/index.ts:773-833 | a commit imports a row that is excluded by then exactly if the last edit of it since the confirmation read the rows excluded it |
| ImportService.ImportService.UpdateRawTransaction | packages/imports/src/index.ts:603-726 | field by field a saved row has the given value or, if none was given, keeps its own; it is valid exactly when these are importable, and the statement is ready exactly when every row is valid or excluded |
| ImportService.ImportService.ConfirmImport | packages/imports/src/index.ts:728-841 | confirmation succeeds exactly when the statement is ready, its workbook source is settled, every row is valid or excluded, a mismatch is accepted and no valid row was imported before; then each valid row becomes one transaction with its fields, by source row; otherwise nothing changes |
| ImportService.FromStatementCounts | packages/imports/src/index.ts:748-758 | what a repeated confirmation reports is the number of the statement's transactions |
| ImportService.ImportService.PersistParserResult | packages/imports/src/index.ts:1540-1691 | a parser result replaces the statement's rows unless they back transactions or repeat a source row, and then nothing changes; a new row is a duplicate exactly when a transaction, another statement's row or an earlier new row has its fingerprint |
| ImportRefinement.EditIsARun | packages/imports/src/index.ts:603-726 | the uninterrupted steps of an edit reach the row and the statement status that UpdateRawTransaction specifies |
| ImportRefinement.ConfirmationIsARun | packages/imports/src/index.ts:739-833 | whenever ConfirmImport succeeds, the uninterrupted steps of a confirmation commit the same transactions |

## Left out

- Money.MoneyArithmetic: `maxMoney`, `isZero` and `isNonNegativeDecimal` are single comparisons and have no row.
- Periods.BoundsText: years outside 1001 to 9998 are not modelled, where `Date.UTC` remaps years or texts lose their four digits; budgets need 1020 for twelve yearly look-backs.
- Percent.ReachedIffDisplayed: negative parts and non-positive totals, for which the displayed number is malformed or fixed, are not claimed.
- Csv.DecodeUndoesEncode: text is a sequence of Unicode scalar values; lone surrogates, which JavaScript encodes as replacement characters, are not modelled.
- ExportArtifact.ProduceArtifact: how workbook and archive bytes are made from the rows (`xlsx.ts`, `zip.ts`, `archive.ts`) is a function parameter.
- ImportReview.ReachableIsSound: one user's data; ownership checks, parser errors raised by the database on unusual text, and the deletion of whole accounts are not modelled.
- The export request itself: saved views, ownership of filters, the limit on concurrent exports and job scheduling.
- Storage paths: the check of unsafe keys; object times and the service's clock are one clock.
- The transaction filters of the export query: a page is taken over an already filtered snapshot.
- Uploads, workbook and PDF inspection, sheet and mapping choices: they appear only as arbitrary writes of a statement's status.
- Deleting the uploaded file after confirmation, rules, merchants and transfer suggestions: best-effort work after the commit.
- Goals: only the milestone and deadline findings they give to the alerts.
- The advisor's planner, providers, phrases' text patterns and `compareValues`; transfer detection, merchants and classification: text matching or single branches.
- Expiry sweeps and reconciliations read the database in one query each; the model takes those queries as atomic, and reads each object's time separately.
