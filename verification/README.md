# Verified models of the SQL assistant's hard cores

The repository is a service around PostgreSQL: it suggests equivalent rewrites of slow queries,
replays captured statements with their bind values, limits request rates, keeps one connection pool
per tenant, budgets language-model tokens and computes trend metrics. Its README promises that the
rewriter "only transforms what it can show is equivalent"; nothing in the Go code shows it. This
project models the cores on which such promises rest, and proves them in Dafny, or proves exactly
when they hold. `dafny verify dfyconfig.toml` checks everything.

## The parts

**Query rewriter.** `SqlSyntax` is the part of the resolved SELECT tree the rewriter looks at and
`SqlSemantics` an evaluator for it: Kleene's three-valued logic (`Truth`; section 8.12 of ISO/IEC
9075:1992), comparison and IN (8.4 and 8.7), EXISTS (8.8), joined tables (7.5), WITH, FROM
subselects, DISTINCT, LIMIT and UNION ALL; `SqlLaws` holds it against the rules of the standard.
`Calendar` has the proleptic Gregorian calendar from the leap-year rule up, Go's overflowing
`time.Date` and `AddDate`, PostgreSQL's clamping month addition and a reference DATE_TRUNC;
`PeriodBounds` proves the adjunction between truncation and the bounds the rewriter computes, and
`PrintedBounds` when those bounds survive being printed. Then each transformation is proved against
the evaluator:

- `Sargable`, `SargableMeaning`: the unwraps of one comparison or BETWEEN. Every site gets one of
  four `Grades`. *Exact* replacements have the same three-valued truth and may stand anywhere;
  *OnlyTrue* ones keep the rows on which the test is TRUE and may stand under an even number of
  NOTs; *OnlyFalse* ones keep those on which it is FALSE and may stand under an odd number; *Unsafe*
  ones keep neither. The grade is computed from the shape, the literals and the bind values, and it
  is proved to be right in both directions.
- `Fusion`: EXTRACT year and month tests become one month range, by a greedy pairing.
- `SargableTree`: both passes together over a tree of SELECTs, WITH bodies and FROM subselects;
  `NormalForm`: what is left nowhere in the result, and what stands in it instead.
- `OrUnion`: OR becomes UNION ALL. `InExists`: IN and NOT IN become EXISTS. `AntiJoin`, with the
  frame lemmas of `Frame`: LEFT JOIN ... IS NULL becomes NOT EXISTS. `Firing` says for each of them
  exactly when it is suggested.

**Bind substitution.** `BindScanner` defines a lossless lexing and proves the two index loops
against it; `BindLiterals` proves the literal printer's round trip and, with an independent
character automaton, when a substituted query leaves the scanner in step; `BindForms` says which
form every value is printed in, by its text; `Relexing` says at exactly which seams two segments
fuse, so that the substituted query lexes otherwise.

**Rate limiting.** `TokenBucket` has both bucket steps and proves when they answer alike, that they
bound every window, and when deleting idle rows is harmless, over all keys. `Limiters` are the two
objects, whose calls one after another are the runs of these theorems.

**Tenant pools.** `OrgPools` has the sections run under the mutex, and the object whose methods they
are; `OrgPoolRuns` interleaves them with opens that hold no lock.

**Token budget.** `BudgetLedger` has the reservation and usage rows and the store's statements;
`BudgetRuns` interleaves whole Reserve transactions, query by query and statement by statement, with
everything else.

**Metrics and messages.** `Regression` has least squares and two forecasts over the real numbers,
`Ranks` the ranks with ties, `Messages` the prompt printer and its parser. `Text` and `Options` hold
the string functions and the option type.

Loops of the Go code are methods with loops, proved equal to functions; the theorems are about the
functions. Objects that the Go code changes in place are classes.

## Where the code falls short of its comments

The code is modelled as it is. Each point below is a lemma with the exact condition, a concrete
counterexample, or both.

- A COALESCE unwrap whose default differs from the constant is not exact; the walk nevertheless
  applies it under NOT, where it loses rows (`NotAboveCoalesceLosesRows`).
- Two Booleans or decimals are never equal to `constEqual`, so `COALESCE(active, false) = false` and
  `COALESCE(c, 1.50) = 1.5` lose the NULL rows; so does an instant spelled in two ways.
- Hours, minutes and seconds compared with a date literal, or in BETWEEN, have their bounds printed
  as dates and lose their time of day. A date literal written with a time of day breaks `>=` and `<`
  when its day starts a period. Units outside the eight have bounds that are right only where the
  literal, or the day after it, starts a period.
- `col::date >= c` and `col::date < c` are wrong for a `c` with a time of day.
- The comment in `rewriter_sargable_param.go:101-104` claims equivalence of the `::date` rewrites
  for every bind value; that holds for binds without a time of day. (A parameter that PostgreSQL
  types as a date never has one.)
- A rewritten NOT IN drops the row whose outer column is NULL when the subquery is empty; a
  rewritten IN under a NOT that is not its own keeps a dropped row where it was unknown; with one
  alias inside and outside, the outer column is captured, and for every subquery without a WHERE
  some row shows it.
- Column names are compared without regard to case, which is wrong for quoted identifiers: where
  only keys are joined and tested, some database shows it.
- A negative bind directly after a minus sign turns the rest of the line into a comment, and a
  quoted bind directly after a string, or another one, fuses with it.
- A dollar sign and a digit with only a comment or a string between them count as a parameter, so a
  query without any can be refused for missing bind values.
- The distributed limiter lets the empty key through, the in-memory one does not.
- Deleting idle rate-limit rows shows in later answers unless rpm x idle time >= burst.
- Users of one organisation can together exceed its token limits, however large: it takes as many as
  the smallest limit, times their number, needs to pass the organisation's. Two suffice exactly when
  the smallest limit is more than half of it.
- Callers that have opened a pool and not yet inserted it each hold one, and the limit does not
  count them: with more of them than it leaves free, the open pools pass the connection budget.
- A message that starts with the boundary marker's line does not come back from the prompt.

## Model

| member | source | states |
|---|---|---|
| Calendar.MonthLengthByNumber | app/queryrunner/rewriter.go:681-732 | every month has 31, 30, 28 or 29 days by its number and the Gregorian leap rule |
| Calendar.YearLengthByRule | app/queryrunner/rewriter.go:681-732 | every year has 365 or 366 days by the same rule |
| Calendar.DaysAnchored | app/queryrunner/rewriter.go:681-732 | two known days, and 1 January 2024 as the Monday it was |
| Calendar.WeekdaysFollow | app/queryrunner/rewriter.go:681-732 | weekdays follow one another, seven in a row |
| Calendar.DateFields | app/queryrunner/rewriter.go:681-709 | year, month and day read off a constructed date are those it was made of, for every day the month has |
| Calendar.GoMonthsOverflow | app/queryrunner/rewriter.go:711-732 | AddDate by a month lets the days the next month is short of go over into the one after |
| Calendar.PgMonthsClamp | app/queryrunner/rewriter_sargable_param.go:76-89 | PostgreSQL's interval addition keeps the day of the month or takes the last one |
| Calendar.PeriodStartsByFields | app/queryrunner/rewriter.go:681-709 | what a period start of each unit is: by month, day and weekday of the instant, or by the microseconds of hour, minute and second |
| Calendar.DateTruncSandwich | app/queryrunner/rewriter.go:681-732 | DATE_TRUNC gives a period start at or before the instant, and the instant lies before the next one |
| Calendar.DateTruncGreatest | app/queryrunner/rewriter.go:681-732 | DATE_TRUNC is the greatest period start at or before the instant, and the only one whose period holds it |
| Calendar.DateTruncMonotone | app/queryrunner/rewriter.go:681-709 | truncation is monotone |
| Calendar.DateTruncFixpoint | app/queryrunner/rewriter.go:681-709 | truncation is idempotent and fixes exactly the period starts |
| Calendar.TruncateTimeIsDateTrunc | app/queryrunner/rewriter.go:681-709 | truncating through calendar fields, with Go's overflowing dates and the Monday week, is DATE_TRUNC for all eight units |
| Calendar.RangeEndIsNextBoundary | app/queryrunner/rewriter.go:711-732 | from a period start no AddDate overflows: the range end is the next period start |
| PeriodBounds.CalendarAdjunction | app/queryrunner/rewriter_sargable.go:531-571 | for each of the eight units, every instant and every bound, aligned or not: trunc(t) >= b, > b, <= b, < b hold exactly when t is on the matching side of the bound the period functions compute |
| PeriodBounds.BoundsAligned | app/queryrunner/rewriter_sargable.go:531-571 | all four bounds are period starts, whatever the bound they are computed from |
| PeriodBounds.TruncAdjunction | app/queryrunner/rewriter_sargable.go:531-571 | for any unit, trunc(t) >= b and > b are t on or past the next period start after b: the bounds every inequality should have |
| PeriodBounds.DecadeLowerIff | app/queryrunner/rewriter_sargable.go:531-571 | a unit outside the eight: the fallback bound for >= and < is right for every instant exactly when the bound starts a period |
| PeriodBounds.DecadeUpperIff | app/queryrunner/rewriter_sargable.go:543-559 | a unit outside the eight: the fallback bound for > and <= is right for every instant exactly when the day after the bound starts a period |
| PrintedBounds.InequalityGuardMeans | app/queryrunner/rewriter_sargable.go:194-249 | for every unit, operator, literal and time of day: the computed and then printed bound is the period start that is meant exactly under a rule on unit, operator and literal |
| SargableMeaning.DateTruncEqualityGradeIsRight | app/queryrunner/rewriter.go:349-401 | DATE_TRUNC(unit, col) = literal: the half-open range has the same value on every row exactly when the literal is a timestamp or the unit a day or more, and otherwise keeps neither the TRUE nor the FALSE rows |
| SargableMeaning.CastDateEqualityExact | app/queryrunner/rewriter.go:405-449 | col::date = literal: the one-day range has the same three-valued truth on every row |
| SargableMeaning.DateTruncInequalityGradeIsRight | app/queryrunner/rewriter_sargable.go:194-249 | DATE_TRUNC inequalities, for every unit and every literal, keep their value exactly under that rule, and otherwise neither their TRUE nor their FALSE rows; for day or coarser units > and <= always do, >= and < unless a date literal with a time of day falls on the day a period starts |
| SargableMeaning.DateTruncBetweenGradeIsRight | app/queryrunner/rewriter_sargable.go:77-92 | DATE_TRUNC BETWEEN, for every unit and every pair of literals, keeps its value exactly when the range printed as dates is the range that is meant, or both are empty, and otherwise neither its TRUE nor its FALSE rows |
| SargableMeaning.CastDateBetweenGradeIsRight | app/queryrunner/rewriter_sargable.go:94-115 | col::date BETWEEN literals keeps its value exactly when the lower literal is not a date written with a time of day, or the range is empty, and otherwise neither its TRUE nor its FALSE rows |
| SargableMeaning.CastDateInequalityGradeIsRight | app/queryrunner/rewriter_sargable.go:117-169 | col::date > c and <= c hold for every c; >= and < keep value, TRUE rows and FALSE rows each exactly for a c without a time of day |
| SargableMeaning.ExtractYearExact | app/queryrunner/rewriter_sargable.go:14-31 | EXTRACT(YEAR FROM col) = y: the year range has the same three-valued truth on every row |
| SargableMeaning.CoalesceGradeIsRight | app/queryrunner/rewriter_sargable.go:51-75 | COALESCE(col, d) = c keeps its value, its TRUE rows, or its FALSE rows, each precisely as the three-valued comparison d = c and the verdict of constEqual on the constants' texts decide |
| SargableMeaning.CoalesceUnreadDropsRows | app/queryrunner/rewriter.go:916-928 | equal constants constEqual reads neither as texts nor as integers: COALESCE(active, false) = false loses its NULL rows and keeps its FALSE ones |
| SargableMeaning.BooleansAndDecimalsUnread | app/queryrunner/rewriter.go:916-928 | every Boolean and every decimal is such a constant |
| SargableMeaning.CoalesceSpellingDropsRows | app/queryrunner/rewriter.go:916-928 | an instant spelled in two ways, as date or timestamp, is unequal to constEqual: whatever the spellings, the unwrap loses rows and yet keeps the FALSE ones |
| SargableMeaning.DateTruncParamRow | app/queryrunner/rewriter_sargable_param.go:142-164 | DATE_TRUNC(unit, col) = $n: for every column and bind value (aligned, misaligned, NULL), TRUE for the same rows, and the same value when the bind is aligned |
| SargableMeaning.DateTruncParamGradeIsRight | app/queryrunner/rewriter_sargable_param.go:142-164 | the parameterised rewrite always keeps the TRUE rows, and keeps the value, or the FALSE rows (so may stand under an odd number of NOTs), exactly when the bind is aligned |
| SargableMeaning.RangeAloneInventsRows | app/queryrunner/rewriter_sargable_param.go:123-133 | without the alignment guard every misaligned bind makes the range keep a row the equality drops, month clamping included |
| SargableMeaning.CastDateParamGradeIsRight | app/queryrunner/rewriter_sargable_param.go:172-188 | col::date = $n keeps its value, its TRUE rows and its FALSE rows each exactly when the bind is a midnight or NULL |
| SargableMeaning.CastDateBetweenParamGradeIsRight | app/queryrunner/rewriter_sargable_param.go:193-210 | col::date BETWEEN $a AND $b keeps its value, or its FALSE rows, exactly when the lower bind is a midnight or NULL or the upper one lies on an earlier day, and its TRUE rows also when the upper bind is NULL |
| SargableMeaning.GradeIsRight | app/queryrunner/rewriter.go:255-347 | for every site some matcher replaces, and binds of the right types: value, TRUE rows and FALSE rows are each kept on all rows of all databases precisely as the grade read off the site says |
| SargableMeaning.SiteMeaning | app/queryrunner/rewriter.go:255-347 | for whichever matcher fires on a comparison or BETWEEN, in the rewriter's order and in either operand order, the replacement keeps on every row what the grade of the site says: the value, being TRUE, or being FALSE |
| Sargable.ConstEqualByKind | app/queryrunner/rewriter.go:916-928 | which constants constEqual takes for equal: texts and casts of texts by their text, integers by value, an integer and a text by what the text parses to |
| Text.ParseOfDigits | app/queryrunner/rewriter.go:873-895 | a text is read as an integer with a sign or without, within 64 bits |
| Sargable.DateReadsBack | app/queryrunner/rewriter.go:757-779 | a printed date reads back as year, month and day of the instant |
| Sargable.TimestampReadsBack | app/queryrunner/rewriter.go:757-779 | a printed timestamp is the date and the time of day down to the second |
| Fusion.PairsAreMatching | app/queryrunner/rewriter_sargable.go:583-671 | the pairing loops pair each year and month test at most once, and only with a partner on the same column that names a real month |
| Fusion.PairFromIsMaximal | app/queryrunner/rewriter_sargable.go:626-655 | no year test left over could still be paired with a month test left over |
| Fusion.FusedRangeMeaning | app/queryrunner/rewriter_sargable.go:583-671 | one month range has the three-valued truth of its year test AND its month test |
| Fusion.RebuildMeaning | app/queryrunner/rewriter_sargable.go:657-671 | the rebuilt conjunction has the three-valued truth of the original on every row |
| Fusion.FuseMeaning | app/queryrunner/rewriter_sargable.go:583-671 | year/month fusion is exact on every Boolean tree, with any number of tests over any columns and any nesting of AND, OR and NOT |
| Fusion.RewriteExtractYearMonthAnd | app/queryrunner/rewriter_sargable.go:583-671 | the recursive loops compute the fused tree and the list of recorded rewrites |
| Fusion.PairYearsWithMonths | app/queryrunner/rewriter_sargable.go:626-655 | the nested loops leave used and replaceAt as the greedy pairing says |
| Fusion.RebuildConjunction | app/queryrunner/rewriter_sargable.go:657-671 | the rebuild loop over used and replaceAt gives the rebuilt conjunction |
| SargableTree.WrapMeaning | app/queryrunner/rewriter.go:255-347 | the unwraps of a safe condition keep its TRUE rows under an even number of NOTs and its FALSE rows under an odd one; safe is judged site by site with that parity |
| SargableTree.FuseKeepsSafe | app/queryrunner/rewriter_nested.go:7-43 | running the fusion before the unwraps makes no condition less safe |
| SargableTree.CondMeaning | app/queryrunner/rewriter_nested.go:7-43 | both passes together keep the rows of a safe WHERE |
| SargableTree.TreeMeaning | app/queryrunner/rewriter_nested.go:7-43 | the walk over a safe SELECT tree (every site keeps what the parity of the NOTs above it asks for), with nested WITH bodies and FROM subselects, leaves the query result unchanged in every database and for every outer row |
| SargableTree.NotAboveCoalesceLosesRows | app/queryrunner/rewriter_nested.go:7-43 | under NOT the COALESCE unwrap does fire and the rewritten query loses a row |
| NormalForm.FiresExactly | app/queryrunner/rewriter.go:255-347 | the unwraps fire on exactly the accepted shapes, written out: DATE_TRUNC, ::date, EXTRACT(YEAR) and COALESCE of a column against the literals or parameters each takes, equalities in either order |
| NormalForm.RecordsAreRight | app/queryrunner/rewriter.go:255-347 | each replacement is recorded with its column and its shape |
| NormalForm.RecordsCount | app/queryrunner/rewriter.go:255-347 | one record for each accepted test under the connectives |
| NormalForm.AndIsFused | app/queryrunner/rewriter_sargable.go:583-671 | in what an AND becomes, for a year and a month test of one column, the month range of that year or of that month stands among the conjuncts, from its first day to the first of the next month |
| NormalForm.FusionRecords | app/queryrunner/rewriter_sargable.go:583-671 | each fusion is recorded as an EXTRACT on the column of a year test of the condition |
| NormalForm.CondIsNormal | app/queryrunner/rewriter_nested.go:7-43 | a rewritten WHERE holds no accepted test and no year beside a month, and every AND of it was fused |
| NormalForm.TreeIsNormal | app/queryrunner/rewriter_nested.go:7-43 | so for every WHERE reached through WITH bodies and FROM subselects, and the rest of the tree is as it was |
| SargableTree.RewriteFunctionWrapInExpr | app/queryrunner/rewriter.go:255-347 | the loop over Boolean arguments computes the unwrapped tree and appends one record per site |
| SargableTree.ApplySargableRewrites | app/queryrunner/rewriter_nested.go:7-43 | the loops over WITH and FROM compute the rewritten tree, its records and their number |
| OrUnion.FlattenTrue | app/queryrunner/rewriter_or_union.go:162-174 | flattening nested ORs keeps whether some leaf is TRUE |
| OrUnion.FactorTrue | app/queryrunner/rewriter_or_union.go:126-152 | factoring an OR out of a conjunction loses no conjunct |
| OrUnion.ExactlyOneBranch | app/queryrunner/rewriter_or_union.go:37-68 | for any number of leaves, any shared conjunct and any row with NULLs, exactly one branch keeps the row when the condition does, and none otherwise |
| OrUnion.UnionMeaning | app/queryrunner/rewriter_or_union.go:14-94 | whenever the OR becomes UNION ALL the result is the same bag of rows in every database |
| OrUnion.PlainNotLosesRows | app/queryrunner/rewriter.go:937-947 | with plain NOT in place of IS NOT TRUE a row is lost |
| OrUnion.FactorConjuncts | app/queryrunner/rewriter_or_union.go:126-152 | the counting and collecting loop computes the shared part and the leaves |
| OrUnion.ChainBranches | app/queryrunner/rewriter_or_union.go:37-68 | the loop that grows the union and the list of seen leaves builds the chain of branches |
| OrUnion.SuggestOrToUnion | app/queryrunner/rewriter_or_union.go:14-94 | the whole suggestion, with all its refusals, is the union the meaning theorem speaks of |
| Firing.OrSuggestionFires | app/queryrunner/rewriter_or_union.go:14-152 | the union is suggested exactly for a plain query over one base table whose only OR has two to four leaves, each equating a column with a constant, on more than one column |
| Firing.EquatesOne | app/queryrunner/rewriter_or_union.go:205-220 | which leaf equates which column with a constant, in either order |
| Firing.LeavesAreNoOrs | app/queryrunner/rewriter_or_union.go:162-174 | the leaves are parts of the OR and none is one itself |
| InExists.InValue | app/queryrunner/rewriter_subquery.go:103-159 | IN over the surviving inner rows: when it is TRUE, when FALSE, and when the subquery is empty |
| InExists.InSiteMeaning | app/queryrunner/rewriter_subquery.go:103-159 | with distinct inner and outer aliases, IN and its EXISTS keep the same rows, and EXISTS is never unknown |
| InExists.NotInSiteMeaning | app/queryrunner/rewriter_subquery.go:103-159 | with distinct aliases, the rewritten NOT IN never keeps a row the original drops, and differs exactly when the outer column is NULL and the subquery returns no row |
| InExists.InMeaning | app/queryrunner/rewriter_subquery.go:61-101 | a whole condition, at any depth of NOTs: no row is invented where each site under an odd number of NOTs is known and unexceptional on the row, and none lost where no NOT IN under an even number compares NULL with an empty subquery |
| InExists.SafeInventsNothing | app/queryrunner/rewriter_subquery.go:61-101 | with every site under an even number of NOTs nothing is invented on any row |
| InExists.InQueryMeaning | app/queryrunner/rewriter_subquery.go:12-59 | the rewritten query returns the same rows, under DISTINCT and LIMIT too, when this holds on the rows of the outer tables |
| InExists.InQueryInventsNothing | app/queryrunner/rewriter_subquery.go:12-59 | with the first half alone, the bag of rows it returns is contained in the original one |
| InExists.InQueryLosesNothing | app/queryrunner/rewriter_subquery.go:12-59 | with the second half alone, it contains the original one |
| InExists.DeepNotInventsRows | app/queryrunner/rewriter_subquery.go:61-101 | under a NOT that is not its own, a rewritten IN that was unknown keeps a row the original drops |
| InExists.CapturedAliasShows | app/queryrunner/rewriter_subquery.go:103-159 | whenever both tables go by one alias and the subquery has no WHERE, the captured column shows: there is a database and an outer row on which IN and its EXISTS differ |
| InExists.RewriteInToExists | app/queryrunner/rewriter_subquery.go:61-101 | the loop over arguments computes the rewritten condition and appends one kind per site |
| Firing.InSuggestionFires | app/queryrunner/rewriter_subquery.go:12-200 | EXISTS is suggested exactly for a query over one base table with an eligible IN under its connectives, and none is left in the result |
| Firing.KindsAreRight | app/queryrunner/rewriter_subquery.go:61-101 | the kinds recorded are those of the tests, NOT IN exactly where the NOT is the test's own |
| Frame.SelectFrame | app/queryrunner/rewriter_antijoin.go:249-272 | a query that never reads an alias has the same result whatever row stands under that alias; this is what the reference check is for |
| AntiJoin.OnStrict | app/queryrunner/rewriter_antijoin.go:153-183 | a pair of rows that satisfies an accepted ON clause has no NULL in a column of an equality term |
| AntiJoin.MatchedRowFails | app/queryrunner/rewriter_antijoin.go:67-84 | no matched pair passes the WHERE with its IS NULL test |
| AntiJoin.NullExtendedRow | app/queryrunner/rewriter_antijoin.go:67-100 | on a null-extended row the WHERE holds exactly when the kept conjuncts hold on the left row alone |
| AntiJoin.AntiJoinMeaning | app/queryrunner/rewriter_antijoin.go:30-137 | with names spelled alike, and an IS NULL test of a bare column or of a cast of one that holds instants, NOT EXISTS returns exactly the rows of LEFT JOIN ... IS NULL, in every database and under DISTINCT and LIMIT |
| AntiJoin.CaseBlindKeyLosesRows | app/queryrunner/rewriter_antijoin.go:69-84 | wherever the rewriter fires on column equalities and tests of key columns alone, for any tables, aliases, columns, casts and targets: if no test is spelled like its key there is a database in which the join returns a row and the rewritten query none |
| AntiJoin.OnClauseSafeForAntiJoin | app/queryrunner/rewriter_antijoin.go:153-183 | the recursive loop decides the ON clause and adds exactly the key columns to keyCols |
| AntiJoin.PeelConjuncts | app/queryrunner/rewriter_antijoin.go:66-84 | the loop over conjuncts keeps all but the peeled ones and counts those |
| AntiJoin.SuggestAntiJoin | app/queryrunner/rewriter_antijoin.go:30-137 | the whole suggestion, with all its refusals, is the query the meaning theorem speaks of |
| Firing.AntiJoinFires | app/queryrunner/rewriter_antijoin.go:30-272 | the anti-join is suggested exactly for a LEFT JOIN of two base tables with plain comparisons in ON, some IS NULL test of a key of the right table among the conjuncts, and no other mention of the right alias |
| Firing.AvoidsIff | app/queryrunner/rewriter_antijoin.go:249-302 | the reference check passes exactly the expressions in which no column, in subqueries included, has the alias |
| BindScanner.LexLossless | app/queryrunner/param_subst.go:94-151 | lexing into quoted, line-comment, block-comment, parameter and other segments loses nothing, for every input |
| BindScanner.ReplaceDollarParams | app/queryrunner/param_subst.go:94-151 | the index loop equals rendering those segments with only parameter segments replaced |
| BindScanner.StripQuotedAndComments | app/queryrunner/param_subst.go:156-193 | the second index loop keeps exactly the parameter and other segments |
| BindScanner.MaxParam | app/queryrunner/param_subst.go:79-87 | the maximum over all matches of the parameter pattern in the stripped text |
| BindScanner.MaxParamCovers | app/queryrunner/param_subst.go:79-87 | that maximum is at least the number of every parameter the replacer meets |
| BindScanner.MaxNumberAttained | app/queryrunner/param_subst.go:79-87 | a positive maximum is the number of some match |
| BindScanner.ParameterIsLexed | app/queryrunner/param_subst.go:94-151 | a dollar sign and a positive number, up to the next character that is no digit, is one parameter |
| BindScanner.NumberOfDecimal | app/queryrunner/param_subst.go:126-140 | and names that number |
| BindScanner.NoParameterLeft | app/queryrunner/param_subst.go:26-62 | with that many literals every parameter segment is replaced by its own literal |
| BindLiterals.LiteralRoundTrip | app/queryrunner/param_subst.go:99-114 | the quoted-segment scan over a printed literal, followed by anything but a quote, stops exactly at its end and un-doubles back to the string |
| BindLiterals.BindLiteralForm | app/queryrunner/param_subst.go:195-226 | a value is printed bare only as a whole decimal or Boolean, cast only as a whole date or timestamp, and quoted otherwise |
| BindForms.DecimalIff | app/queryrunner/param_subst.go:70-75 | the decimal pattern matches exactly sign, digits, fraction and exponent put together |
| BindForms.TimestampIff | app/queryrunner/param_subst.go:70-75 | the timestamp pattern matches exactly the local and the zoned timestamps, and its zone group is filled exactly for the zoned ones |
| BindForms.ZonedIsEnding | app/queryrunner/param_subst.go:70-75 | of the timestamps, exactly the zoned ones end in Z or a signed offset |
| BindForms.BindLiteralByText | app/queryrunner/param_subst.go:195-226 | the printed form of every value by its text: decimals and Booleans bare, dates ::date, timestamps with a zone ::timestamptz, without one ::timestamp, everything else quoted |
| BindForms.PrintedOnlyFor | app/queryrunner/param_subst.go:195-226 | and each cast, and every bare text, is printed for nothing else |
| BindLiterals.BindLiteralContained | app/queryrunner/param_subst.go:205-226 | every literal bindLiteral prints leaves the scanner in code, whatever code precedes it, except a negative number right after a minus sign |
| BindLiterals.SegmentRun | app/queryrunner/param_subst.go:94-151 | segment by segment, the lexer agrees with a character automaton that is a model of its own |
| BindLiterals.SubstitutionInStep | app/queryrunner/param_subst.go:94-151 | the scanner is in the same state after every segment of the query and of the result exactly when no replaced literal leaves code |
| BindLiterals.BindSubstitutionInStep | app/queryrunner/param_subst.go:26-62 | whole queries stay in step exactly when no negative bind meets a minus sign |
| BindLiterals.MinusNegativeIsComment | app/queryrunner/param_subst.go:205-226 | 1-$1 with the bind -5 becomes 1--5, which is a comment |
| Relexing.SegmentAlone | app/queryrunner/param_subst.go:94-151 | every segment of a query, lexed by itself, is that segment, and it ends where it does because of what follows |
| Relexing.LexSplit | app/queryrunner/param_subst.go:94-151 | the lexing of a text and one put behind it is the two lexings one after the other exactly when the last segment of the first seals against the first character of the second |
| Relexing.RelexingIff | app/queryrunner/param_subst.go:94-151 | for any query and any non-empty literals, lexing the result gives the query's segments with each parameter replaced by its literal's, exactly when every seam seals |
| Relexing.BindRelexing | app/queryrunner/param_subst.go:26-62 | for any query and any bind values the same holds exactly when no bind value fuses: no two quotes meet, no two minus signs, no dollar sign or left-over parameter meets a digit |
| Relexing.NothingLeftToBind | app/queryrunner/param_subst.go:26-62 | with enough bind values and none fusing, the result lexes without any parameter |
| Relexing.MaxParamZeroIff | app/queryrunner/param_subst.go:79-87 | in a text without parameters the highest number is 0 exactly when no dollar sign is split from a digit by strings and comments alone |
| Relexing.SubstitutedNeedsNoBinds | app/queryrunner/param_subst.go:26-62 | so the scan finds nothing more to bind in the result exactly when the result splits no dollar sign |
| Relexing.SplitDollarCounts | app/queryrunner/param_subst.go:79-87 | a dollar sign, a comment and 1: no parameter, and the number is 1 |
| TokenBucket.StepInNumbers | app/ratelimit/ratelimit.go:41-69 | a known bucket: allowed exactly when its tokens and rpm for each minute since make one; the new state of both buckets, capped at the burst |
| TokenBucket.FirstStepInNumbers | app/ratelimit/postgres.go:114-128 | a key never seen is allowed and left with burst - 1 tokens |
| TokenBucket.SweepInNumbers | app/ratelimit/postgres.go:184-194 | cleanup keeps exactly the rows last touched no longer ago than the idle time |
| TokenBucket.SameAnswer | app/ratelimit/postgres.go:114-128 | one request: both buckets answer alike and stay related, although only the in-memory one stores a denial |
| TokenBucket.LimitersAgree | app/ratelimit/postgres.go:114-149 | on every request sequence over any non-empty keys with a non-decreasing clock both limiters give the same answers |
| TokenBucket.LimitersAgreeIff | app/ratelimit/postgres.go:134-149 | with the empty key, which AllowCtx lets through, they agree exactly when the in-memory limiter never denies it |
| TokenBucket.GrantedIsPaid | app/ratelimit/ratelimit.go:41-69 | for either step, what was granted in a run is at most the level at its start plus the refill less the level at its end, and 0 <= tokens <= burst throughout |
| TokenBucket.WindowBound | app/ratelimit/ratelimit.go:41-69 | for either step, in any window of any run one key is allowed at most burst + rpm x minutes requests |
| TokenBucket.KeyAlone | app/ratelimit/ratelimit.go:41-69 | the answers for one key, picked out of a run over all keys, are those of its bucket alone |
| TokenBucket.RunWindowBound | app/ratelimit/ratelimit.go:41-69 | the window bound for one key of any run of either limiter over any keys |
| TokenBucket.CleanupInvisible | app/ratelimit/postgres.go:184-194 | cleanups whose idle time refills a bucket change no answer to any key of any run over all keys |
| TokenBucket.CleanupHarmlessIff | app/ratelimit/postgres.go:184-194 | cleanup with a given idle time changes no answer of any run over all keys exactly when rpm x idle time >= burst |
| Limiters.Limiter.Allow | app/ratelimit/ratelimit.go:41-69 | updates its two maps as one in-memory bucket step for the key and leaves the other keys alone; allows a known key exactly when its tokens and rpm for each minute since make one |
| Limiters.ServeInMemory | app/ratelimit/ratelimit.go:41-69 | calling Allow for each request in turn is the run of the in-memory model |
| Limiters.ServeDistributed | app/ratelimit/postgres.go:134-149 | calling AllowCtx for each request in turn is the run of the distributed model |
| Limiters.ServeAndSweep | app/ratelimit/postgres.go:134-194 | calling AllowCtx and CleanupInactive in turn is the run with cleanups of the distributed model |
| Limiters.PostgresLimiter.Allow | app/ratelimit/postgres.go:134-149 | one upsert step on the row of the key, allowed as in memory; a switched-off limiter and an empty key are let through untouched |
| Limiters.PostgresLimiter.CleanupInactive | app/ratelimit/postgres.go:184-194 | deletes exactly the rows last touched before the cutoff and reports how many |
| OrgPools.BudgetHolds | app/db/connection.go:180-216 | with the startup check passed, static budget plus MaxConnections x cached tenant pools never exceeds GlobalMaxConns, and a limit one higher would allow it to |
| OrgPools.UnlimitedPools | app/db/connection.go:180-216 | without a global limit 32 tenant pools, and 5 connections for a pool without a configured size |
| OrgPools.LimitedPools | app/db/connection.go:180-216 | with one, the most pools of that size that fit beside the static ones, and never a negative number |
| OrgPools.StartupCheckFits | app/db/connection.go:180-216 | the startup check passes exactly when the static pools fit |
| OrgPools.LookupKeeps | app/db/connection.go:637-650 | the lookup section loses no pool, closes none twice, and hits only on the version asked for; a hit is marked as used now and changes no other entry |
| OrgPools.InsertKeeps | app/db/connection.go:674-690 | the insert section hands the opened pool to the cache or closes it, and never both |
| OrgPools.InsertOutcome | app/db/connection.go:674-690 | when an insertion is refused, which pool is returned and cached and used now, and that other keys lose an entry only where there is no room |
| OrgPools.EvictedIs | app/db/connection.go:808-842 | idle pools last used at the cutoff or before are closed, and only those |
| OrgPools.DroppedKeeps | app/db/connection.go:694-726 | evicting entries loses no pool and closes none twice |
| OrgPools.Pools.OldestKey | app/db/connection.go:699-715 | the inner loop finds a key of least lastUsed, whatever the map order |
| OrgPools.Pools.ReserveOrgPoolLocked | app/db/connection.go:694-726 | the loop terminates with room for one more, evicts as few as possible, and every victim is no more recently used than every survivor |
| OrgPools.Pools.LookupSection | app/db/connection.go:637-650 | the locked lookup: a hit is touched, a stale pool closed |
| OrgPools.Pools.InsertSection | app/db/connection.go:674-690 | the locked insert: a pool already there wins, a full cache makes room, a refused pool is closed |
| OrgPools.Pools.Invalidate | app/db/connection.go:602-613 | drops and closes the entry of one key |
| OrgPools.Pools.EvictOnce | app/db/connection.go:808-842 | drops and closes exactly the idle entries last used no later than the cutoff |
| OrgPoolRuns.StepKeepsInv | app/db/connection.go:619-691 | each step of each caller keeps ownership, versions and the limit |
| OrgPoolRuns.EveryRunIsSafe | app/db/connection.go:602-726 | in every interleaving of lookup, unlocked open, insert, invalidate and idle eviction: cached pools stay within the limit, each opened pool is cached, held by one opener or closed, and in one of these only, and no call returns a pool of another key or version |
| OrgPoolRuns.EveryRunIsWithinBudget | app/db/connection.go:180-216 | no run ever caches past the global connection budget |
| OrgPoolRuns.OpenPoolsCount | app/db/connection.go:619-691 | the pools that are open are exactly the cached ones and one for each call between opening its pool and inserting it |
| OrgPoolRuns.OpenPoolsWithinBudgetIff | app/db/connection.go:180-216 | in every state of every run, all open pools together keep to the connection budget exactly when cached pools and such calls together are within the limit |
| OrgPoolRuns.OpenersPassBudget | app/db/connection.go:637-690 | under every configuration that passes the startup check there is a run whose open pools pass the budget |
| OrgPoolRuns.ReturnedIsOpen | app/db/connection.go:637-690 | a pool is open, and cached under the key and version asked for, in the state in which it is returned |
| OrgPoolRuns.ClosedForGood | app/db/connection.go:694-726 | a closed pool stays closed and is never cached again |
| BudgetLedger.RecordCounts | app/llm/budget.go:429-465 | recording adds the tokens, once, to what every scope of that organisation and user reads as committed while its period lasts, and to nothing else |
| BudgetLedger.RecordCountsToday | app/llm/budget.go:176-221 | recorded tokens count in the daily scopes on their own day and on no other |
| BudgetLedger.RecordCountsThisMonth | app/llm/budget.go:176-221 | and in the monthly scopes, of the days up to now, on those of the same calendar month |
| BudgetLedger.OtherDaysDoNotCount | app/llm/budget.go:176-221 | with nothing recorded today the daily sums are 0 |
| BudgetLedger.CheckInNumbers | app/llm/budget.go:121-162 | each scope is held against its own limit, and only a positive one counts |
| BudgetLedger.OneReservation | app/llm/budget.go:223-247 | which reservation is active for whom, in its fields |
| BudgetLedger.ExpiryInNumbers | app/llm/budget.go:389-406 | a reservation stops being active when its time is reached and expires once it has passed |
| BudgetLedger.SettledInFields | app/llm/budget.go:345-383 | marking and releasing touch one row, and only while it is reserved; a mark puts the actual tokens in it |
| BudgetLedger.ScopesInOrder | app/llm/budget.go:121-162 | two scopes of the organisation, and with a user two of the user |
| BudgetLedger.MonthlyPeriod | app/llm/budget.go:190-214 | for past days the monthly scopes count exactly the calendar month of today |
| BudgetLedger.ReconcileConserves | app/llm/budget.go:345-364 | marking and recording together replace the estimate by the actual tokens in every scope, committed and reserved taken together |
| BudgetLedger.ActiveShrinks | app/llm/budget.go:223-247 | rows leaving reserved and time passing never raise an active sum |
| BudgetLedger.BudgetStore.ActiveReservations | app/llm/budget.go:223-247 | the sum over the rows that are reserved and not yet expired |
| BudgetLedger.BudgetStore.CheckAllScopes | app/llm/budget.go:121-162 | passes exactly when every scope in order has room for the tokens |
| BudgetLedger.BudgetStore.MarkCommitted | app/llm/budget.go:345-364 | only a reserved row becomes committed, with the actual tokens |
| BudgetLedger.BudgetStore.ReleaseReservation | app/llm/budget.go:369-383 | only a reserved row becomes released |
| BudgetLedger.BudgetStore.ExpireAbandoned | app/llm/budget.go:389-406 | exactly the overdue reserved rows become expired, and their number is reported |
| BudgetLedger.BudgetStore.Record | app/llm/budget.go:429-465 | the org row always, the user row when there is a user |
| BudgetRuns.StepKeepsInv | app/llm/budget.go:275-339 | each query and each statement of each transaction, each update and each clock tick keeps the limits of whoever no two transactions past their locks share: a user, or a whole organisation |
| BudgetRuns.UsersAlone | app/llm/budget.go:310-318 | the advisory lock keeps the transactions of one user apart in every state of every run |
| BudgetRuns.LocksTellApart | app/llm/budget.go:310-314 | with organisation names without a colon only requests of one organisation and one user share a lock |
| BudgetRuns.ComparedInNumbers | app/llm/budget.go:121-162 | a check passes exactly when the tokens fit into what the limit leaves beside used and reserved ones |
| BudgetRuns.CommittedRow | app/llm/budget.go:320-339 | a committed reservation counts for its organisation and user until ttl after it began |
| BudgetRuns.UserReservationsWithinLimits | app/llm/budget.go:275-339 | in every interleaving the active reserved tokens of one user in one organisation never exceed that user's daily or monthly limit |
| BudgetRuns.FinalStaysFinal | app/llm/budget.go:345-406 | a reservation that is committed, released or expired never changes again |
| BudgetRuns.OrgReservationsWithinLimits | app/llm/budget.go:310-318 | the organisation limits hold in every run in which no two transactions of one organisation are past their locks at once |
| BudgetRuns.OrgLimitsCanBeExceeded | app/llm/budget.go:310-318 | the lock is per user: whatever the limits, there is a run that ends past the daily and the monthly organisation limit |
| BudgetRuns.UsersToExceed | app/llm/budget.go:310-318 | k named users of one organisation can together exceed a bound exactly when k times the smallest limit does |
| Regression.FitIsBest | app/metrics/calculator.go:898-918 | for every series of two or more points the fit is the unique minimiser of the squared residuals |
| Regression.SxxClosedForm | app/metrics/calculator.go:961-970 | n(n^2-1)/12 is the sum of squared distances from the mean abscissa, and n times it is the denominator of the slope |
| Regression.DenominatorAtLeastOne | app/metrics/calculator.go:911-914 | from two points on the denominator is at least 1, so the degenerate branch is never taken |
| Regression.FitOfAddLine | app/metrics/calculator.go:898-918 | adding a line to a series adds its slope and intercept to the fit |
| Regression.ForecastsOfAddLine | app/metrics/calculator.go:1020-1109 | adding a line to a series moves the Holt and the seasonally adjusted forecast by the line's next point, for all parameters |
| Regression.ForecastsOnLine | app/metrics/calculator.go:1020-1109 | on an exactly linear series the fit is the line, and the linear, Holt and seasonally adjusted forecasts all equal the next point |
| Regression.LinearRegression | app/metrics/calculator.go:898-918 | the loop computes the fit, and from two points on the unique minimiser |
| Regression.ForecastByHolt | app/metrics/calculator.go:1020-1032 | the level and trend loop, NaN for the refused parameters |
| Regression.HoltCorrects | app/metrics/calculator.go:1020-1032 | the level moves from what was predicted towards the value by alpha of the error, the trend by beta of that |
| Regression.HoltUnsmoothed | app/metrics/calculator.go:1020-1032 | without smoothing the forecast goes on by the last difference |
| Regression.ForecastOfPattern | app/metrics/calculator.go:1084-1109 | for a line with a repeating pattern on top the forecast is the line's next point with the pattern's next value |
| Regression.Refusals | app/metrics/calculator.go:1020-1109 | exactly which parameters and series are refused |
| Regression.SeasonalIndices | app/metrics/calculator.go:1095-1106 | one pass with two arrays gives the mean of every phase |
| Regression.ForecastBySeason | app/metrics/calculator.go:1084-1109 | trend forecast plus the index of the next phase, NaN for the refused periods |
| Ranks.RankFollowsOrder | app/metrics/calculator.go:591-612 | a larger value has a larger rank, and equal values exactly share one |
| Ranks.RanksAddUp | app/metrics/calculator.go:591-612 | averaging ties conserves the sum: the ranks add up to n(n+1)/2 whatever ties there are |
| Ranks.BlockRank | app/metrics/calculator.go:601-610 | the values of a block of ties share the mean of the block's places |
| Ranks.Rank | app/metrics/calculator.go:591-612 | the loops give every value its number of smaller values plus the mean place among its ties, whichever order the unstable sort left |
| Messages.FlattenFew | app/llm/messages.go:27-43 | one message is its content alone, none the empty prompt, and a message without a role the user's |
| Messages.BoundaryText | app/llm/messages.go:11 | the boundary is the marker on a line of its own |
| Messages.KnownRoleTaken | app/llm/messages.go:47-78 | a chunk whose first line names a role, in any case and with any space around it, is of that role |
| Messages.UnknownRoleStays | app/llm/messages.go:47-78 | a chunk whose first line names none is the user's, with that line as part of it |
| Messages.RestorePlain | app/llm/messages.go:47-78 | a prompt without a boundary is one message of the user |
| Messages.EarlyOccurrence | app/llm/messages.go:27-43 | no spurious boundary arises where chunks meet: before its end a chunk holds one exactly when its own content does, together with its line breaks |
| Messages.RoundTrip | app/llm/messages.go:27-78 | for two or more messages with valid roles and non-empty trimmed contents, restoring the flattened prompt gives the messages back exactly when every content is clean |
| Messages.UncleanHoldsMarker | app/llm/messages.go:11 | a content that makes a boundary holds the marker text, so one without it is clean |
| Messages.LeadingMarkerIsLost | app/llm/messages.go:11 | a content that starts with the marker line holds no boundary, and yet does not come back |
| Messages.FlattenMessages | app/llm/messages.go:27-43 | the loop joins the chunks |
| Messages.PromptToChatMessages | app/llm/messages.go:47-78 | the loop over the chunks restores the messages |

## Left out

- SargableTree.TreeMeaning: says that a safe tree keeps its result, not that an unsafe one changes it; the exact conditions are proved site by site, because an unsafe site may sit where no row reaches it.
- AntiJoin.AntiJoinMeaning: asks for names spelled alike; that this is needed is proved where the ON clause only equates columns and the WHERE only tests keys, since other conjuncts may hide the difference. A test of a cast column counts only where the column holds instants or NULL in the right rows.
- InExists.InMeaning: asks for distinct aliases; its conditions on a row are exact site by site, not for whole conditions, where other conjuncts may hide a difference.
- InExists.CapturedAliasShows: subqueries without a WHERE; with one, whether the captured column shows depends on which rows the WHERE lets through.
- PeriodBounds.DecadeLowerIff: among the units outside the eight only the decade; centuries and millennia take the same branches, and units below a second are not modelled. DecadeUpperIff likewise.
- SargableMeaning.GradeIsRight: parameters compared with instants are bound to instants or NULL, as their types demand.
- BudgetRuns.UserReservationsWithinLimits: bounds active reservations only; reconciling marks and records in two transactions, so no bound on reservations plus recorded usage holds at every moment.
- BudgetRuns.UsersToExceed: counts named users only; requests without a user share one lock per organisation.
- Regression.FitIsBest: real numbers, so it says nothing about rounding.
- Parsing and deparsing SQL, name resolution and case folding of identifiers: the model starts from a resolved tree with two-part column names.
- Update in place and aliasing of syntax nodes: trees are values here. A rewrite that shared a node between two places would not be noticed.
- Casts around a column or a function call that the matchers skip silently, the to_char unwrap, and the numeric and text cast unwraps: whether they are right depends on column types the code never sees.
- String literals coerced to a number or a time: literals carry the type PostgreSQL resolves them to. An EXTRACT is compared with an integer literal.
- Time zones and literals with an explicit offset, which the matchers refuse. Instants are microseconds without a zone.
- Spelling variants of units, and years printed with other than four digits.
- The fusion compares dotted column names where the model compares alias and name, so an alias containing a dot is not modelled.
- ORDER BY, OFFSET, GROUP BY, HAVING, window functions, locking clauses and set-returning or aggregate targets. Results are compared as rows of a filtered projection.
- The texts, categories and confidence of suggestions, and the plan findings they depend on.
- The refusals of SubstituteParams (too few binds, dollar quotes, long or NUL-containing binds) and its final parse.
- Parameter numbers are unbounded; Go's are not.
- FailureMode and database errors of the distributed limiter, and the nil limiter.
- The lazily opened static pools, nil and empty keys in the tenant map, connection errors, DSN checks, and shutdown racing with openers. Which pools are idle is a parameter.
- Cost limits in dollars, ledger errors that fail open, and collisions of the hashed lock key.
- Confidence intervals beyond S_xx, detection of the seasonal period, correlations beyond ranks, anomalies, cohorts and the other metrics.
- Characters outside Latin-1 count as neither space nor cased letters.
- Handlers, exporters, model clients, sign-in, sessions and configuration loading.
