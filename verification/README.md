# DataStore: a verified model of the lazy two-engine query layer

`datastore/` records operations on tables, rewrites them to SQL for chDB or runs them in pandas,
and promises the answer pandas would give.  This project models the parts of it that carry that
promise and proves what they keep, for every input, every run and every order in which the engine
may return rows.

| file | models |
|---|---|
| `Pipeline.dfy` | recorded operations, the segment planner and segmented execution |
| `LazyStore.dfy` | the versioned cache, checkpoints and copies, as a state machine and as the class `DataStore` |
| `ComputedColumns.dfy` | expansion of computed columns, chains of `assign`, checkpoints |
| `ColumnDictionary.dfy` | the dictionary of computed columns as an object: item assignment, copies, column inserts |
| `Projection.dfy` | projection pushed into the source frame |
| `StableSort.dfy` | the stable-sort subquery with its row number taken before the filter |
| `RowIdThreading.dfy`, `OuterClauses.dfy`, `SqlText.dfy` | the hand-written SQL text scanners, on ASCII text |
| `ClausePlacement.dfy`, `RowIdPlacement.dfy` | where the edits of the scanners land, once quotes and nesting count |
| `RowLabels.dfy` | index labels carried through the engine by `_row_id` |
| `QueryDf.dfy` | the text edits composed, and the labelled result of a whole query |
| `Conditions.dfy`, `CaseWhen.dfy` | SQL three-valued against pandas two-valued conditions, and CASE WHEN over them |
| `ValueCounts.dfy` | one deterministic order for `value_counts` |
| `Profiling.dfy` | the tree of timed steps |
| `Common.dfy` | types that several modules share |

Some promises turn out not to hold of the code on every input.  The code is modelled as it is;
each such place has a lemma with a concrete input and a lemma with the exact condition:

- an operation that leaves no rows makes the next segment reload the whole source
  (`Pipeline.EmptyHandoffGoesWrong`, `Pipeline.NextSegmentRightExactlyWhen`);
- a SQL segment on an empty frame without a source skips what it does not have to compute, a
  group-by among them (`Pipeline.EmptyGroupByGoesWrong`, `Pipeline.OnEmptyRightExactlyWhen`);
- a checkpoint leaves `_source_df` as it was, so an SQL source made afterwards forgets the
  operations before it (`LazyStore.CheckpointDroppedBySqlSource`, `LazyStore.EnsureRightExactlyWhen`);
- stored column expressions are walked again on use, and some nodes are never walked
  (`ComputedColumns.ReexpansionGoesWrong`, `ComputedColumns.HiddenColumnGoesWrong`,
  `ComputedColumns.ExpandsExactlyWhen`);
- the map of computed columns outlives a checkpoint (`ComputedColumns.OverwriteAppliedTwice`,
  `ComputedColumns.RightAfterCheckpointExactlyWhen`);
- copies share that map, so item assignment on one shows in the other
  (`ColumnDictionary.WriteOnCopyShows`, `ColumnDictionary.WriteHarmlessExactlyWhen`);
- item assignment stores raw expressions, so overwriting a column in terms of itself leaves only
  the last step in that map (`ColumnDictionary.ItemOverwriteLost`,
  `ColumnDictionary.ItemChainComposesExactlyWhen`);
- a column insert leaves a set where the map was, on which the next expression assigned raises
  (`ColumnDictionary.AssignAfterInsert`);
- projection is pushed down below filters on dropped columns, and tracks names that execution
  passes over (`Projection.FilterThenSelectFails`, `Projection.SelectAfterSelectGoesWrong`,
  `Projection.PushdownRightExactlyWhen`);
- the search for an outer clause does not end on some unbalanced texts
  (`OuterClauses.UnclosedSubqueryHangs`, `OuterClauses.ReturnsExactlyWhen`);
- the tie-breaker and an added ORDER BY go to the first LIMIT or OFFSET between spaces, also when
  that is quoted or belongs to a subquery, and past one on a line of its own
  (`ClausePlacement.NestedTerminatorGoesWrong`, `ClausePlacement.QuotedTerminatorGoesWrong`,
  `ClausePlacement.NewlineOrderGoesWrong`, `ClausePlacement.TiebreakerInClauseExactlyWhen`;
  `ClausePlacement.QuotedLimitGoesWrong`, `ClausePlacement.NewlineLimitGoesWrong`,
  `ClausePlacement.CutRightExactlyWhen`);
- an ORDER BY of the query is not seen behind one nested in it
  (`ClausePlacement.NestedOrderHidesOwn`, `ClausePlacement.OuterTestExactlyWhen`);
- a FROM inside a function call is served with `_row_id` in place of the query's own
  (`RowIdPlacement.ExtractGoesWrong`, `RowIdPlacement.InsertionAtLevelExactlyWhen`);
- `!=`, XOR and NOT IN over missing values differ between the engines
  (`Conditions.MissingValueSeparates`; `Conditions.BareInequality`,
  `Conditions.XorOfColumnsExactlyWhen`, `Conditions.NotInExactlyWhen`);
- `value_counts` of an expression whose SQL text is also the name of a column orders ties as the
  engine happened to return them (`ValueCounts.TieGoesEitherWay`,
  `ValueCounts.AnswerRightExactlyWhen`).

The docstring of `_build_sql_with_stable_sort_subquery` shows the filter in the query that numbers
the rows; the code numbers them one level further in, before the filter, and the model follows the
code.

## Model

| member | source | states |
|---|---|---|
| `RowIdThreading.AddRowIdToAllSelects` | datastore/connection.py:746-811 | the scanning loop terminates on every text and returns the threaded text, which `NoFromUnchanged` and `LastFrom` determine for every input |
| `RowIdThreading.NoFromUnchanged` | datastore/connection.py:759-809 | a text without a FROM outside double and single quotes, at word boundaries, is returned unchanged |
| `RowIdThreading.LastFrom` | datastore/connection.py:759-811 | at the last such FROM of the input: the text before it is threaded, `, _row_id ` takes the place of the white space before it exactly when there is a SELECT and no `_row_id` from the last one on, and the rest is copied |
| `RowIdThreading.QuotedSpanKept` | datastore/connection.py:761-780 | a span between two double or two single quotes is copied whole, behind whatever the text before it gives |
| `RowIdThreading.WeaveSplit` | datastore/connection.py:759-809 | a text with its quotes closed is read the same whatever follows it |
| `RowIdThreading.PopBlank` | datastore/connection.py:800-801 | popping trailing blank chunks removes exactly the kept white space at the end of the output, and nothing from inside a quoted span |
| `RowIdThreading.OnlyInsertions` | datastore/connection.py:746-811 | every output is the input with `, _row_id ` put in before some FROM keywords and white space before those removed; every other character, quoted spans included, is copied in order |
| `RowIdThreading.EveryFromServed` | datastore/connection.py:783-805 | in the output every FROM outside double and single quotes that has a SELECT before it has `_row_id` between the last such SELECT and itself |
| `RowIdThreading.Idempotent` | datastore/connection.py:746-811 | threading the output again changes nothing, for every text |
| `RowIdThreading.InsertionServes` | datastore/connection.py:792-802 | once `_row_id` is inserted at a FROM, the test that asked for it is no longer met, whatever blank text was popped |
| `RowIdThreading.WeaveConserves` | datastore/connection.py:759-809 | at every point of the scan the pieces so far spell the text read so far |
| `RowIdThreading.Reread` | datastore/connection.py:759-809 | a text whose FROM keywords are all served is read back token by token and left alone |
| `SqlText.AsciiClasses` | datastore/connection.py:761-788 | white space, word characters, quotes and the change of case, by ASCII code |
| `SqlText.StripIsSlice` | datastore/connection.py:686-687 | stripping removes white space at both ends, all of it and nothing else |
| `OuterClauses.FindOuterClausePosition` | datastore/connection.py:533-562 | returns the leftmost space-delimited (or text-ending) clause whose prefix has equally many parentheses of each kind, and -1 exactly when there is none |
| `OuterClauses.ClauseSeenExactlyWhen` | datastore/connection.py:541-549 | a clause word behind a space is a candidate if and only if a space or the end of the text follows |
| `OuterClauses.TurnsRuleOut` | datastore/connection.py:541-561 | after any number of turns of the loop every position passed over has been rightly rejected, and a returned position is the leftmost outer one |
| `OuterClauses.ReturnsExactlyWhen` | datastore/connection.py:541-561 | the loop returns after some number of turns if and only if the clause does not stand at the end of the text with an unbalanced prefix and no outer one before it |
| `OuterClauses.TurnsReturn` | datastore/connection.py:541-561 | from any turn, if the loop is not one that hangs, it comes to a return |
| `OuterClauses.BalancedNeverHangs` | datastore/connection.py:545-549 | on text with equally many parentheses of each kind the loop always returns |
| `OuterClauses.UnclosedSubqueryHangs` | datastore/connection.py:545-549 | on `(A LIMIT` the loop is still going after any number of turns |
| `OuterClauses.FindOuterFromClause` | datastore/connection.py:564-624 | returns the leftmost FROM with word boundaries, even quote counts and equal parenthesis counts before it, and -1 exactly when there is none |
| `OuterClauses.FromSeenExactlyWhen` | datastore/connection.py:586-620 | a FROM in any case is an outer one if and only if it is at the start or behind a space, tab, newline, carriage return, comma or opening parenthesis, at the end or before one of the first four, behind even numbers of either quote and at depth 0 |
| `OuterClauses.SkipLosesNothing` | datastore/connection.py:608-622 | going on four characters behind a rejected FROM misses no match |
| `OuterClauses.FromDoesNotOverlap` | datastore/connection.py:608-622 | no occurrence of FROM begins inside another |
| `OuterClauses.SuffixTestIsPrefixDepth` | datastore/connection.py:410-426 | the test on the text behind the last ORDER BY holds exactly when the depth before it is at most the depth of the whole; on balanced text that never closes too early, exactly when it is at depth 0 |
| `OuterClauses.AddOrderByRowId` | datastore/connection.py:658-691 | cuts at the earlier of the outer LIMIT and OFFSET, or at the end, and puts ORDER BY _row_id there |
| `OuterClauses.AddedOrderKeepsText` | datastore/connection.py:679-688 | apart from the inserted ORDER BY, the output differs from the input in white space at the cut and at both ends only |
| `OuterClauses.InsertedIsLast` | datastore/connection.py:658-691 | with a tail free of ORDER BY, the inserted one is the last in the text |
| `OuterClauses.OuterAfterInsertion` | datastore/connection.py:658-691 | and it passes the outer test if and only if the tail closes no more parentheses than it opens |
| `OuterClauses.AddedOrderIsOuter` | datastore/connection.py:658-691 | the output passes the outer ORDER BY test exactly under that condition, hence for every balanced query whose tail has no ORDER BY of its own |
| `OuterClauses.AppendRowIdTiebreaker` | datastore/connection.py:693-721 | without ORDER BY the text is returned as is; otherwise the row id goes to the end of the last ORDER BY clause, which ends at the first LIMIT, OFFSET or semicolon behind it |
| `OuterClauses.TiebreakerKeepsLast` | datastore/connection.py:693-721 | the last ORDER BY stays where it was, and no other is added |
| `ClausePlacement.TiebreakerInClauseExactlyWhen` | datastore/connection.py:709-721 | the tie-breaker goes to the end of the ORDER BY clause if and only if the ORDER BY is not quoted, the first terminator looked for is neither quoted nor nested deeper, and nothing else stops the clause before: a closing parenthesis, or LIMIT, OFFSET, FETCH or SETTINGS as a word other than LIMIT or OFFSET between spaces |
| `ClausePlacement.NewlineOrderGoesWrong` | datastore/connection.py:709-721 | with LIMIT on a line of its own the tie-breaker goes behind it |
| `ClausePlacement.NestedTerminatorGoesWrong` | datastore/connection.py:709-721 | for `SELECT 1 ORDER BY (SELECT 2 LIMIT 1)`, which passes the outer test, the tie-breaker goes into the subquery |
| `ClausePlacement.QuotedTerminatorGoesWrong` | datastore/connection.py:709-721 | for `SELECT 1 ORDER BY ';'` it goes into the literal |
| `ClausePlacement.CutRightExactlyWhen` | datastore/connection.py:658-691 | an added ORDER BY stands in front of the query's own first LIMIT, OFFSET, FETCH or SETTINGS if and only if the clause it is put before is neither quoted nor behind unmatched quoted parentheses, and the search passes over none before it: none that such parentheses hide, and none but LIMIT or OFFSET set off by spaces or the end of the text |
| `ClausePlacement.NewlineLimitGoesWrong` | datastore/connection.py:658-691 | a LIMIT on a line of its own is passed over and the ORDER BY goes behind it |
| `ClausePlacement.SettingsGoWrong` | datastore/connection.py:658-691 | so are SETTINGS |
| `ClausePlacement.PlainCutRight` | datastore/connection.py:658-691 | text without quotes whose own clauses are all LIMIT or OFFSET set off by spaces or the end of the text is cut in the right place |
| `ClausePlacement.QuotedLimitGoesWrong` | datastore/connection.py:658-691 | `SELECT ' LIMIT '` is cut inside the literal |
| `ClausePlacement.OuterTestExactlyWhen` | datastore/connection.py:410-426 | on balanced text the outer test says whether the query has an ORDER BY of its own if and only if, when it has one, the last ORDER BY of the text is one |
| `ClausePlacement.NestedOrderHidesOwn` | datastore/connection.py:410-426 | an ORDER BY with a subquery that has another fails the test |
| `RowIdPlacement.InsertionAtLevelExactlyWhen` | datastore/connection.py:792-805 | the inserted `_row_id` stands at the level of the last SELECT if and only if the FROM it is put in front of does |
| `RowIdPlacement.ExtractGoesWrong` | datastore/connection.py:746-811 | `SELECT EXTRACT(YEAR FROM D) FROM T` gets `_row_id` inside the call, and its own FROM counts as served |
| `OuterClauses.TiebreakerKeepsOuter` | datastore/connection.py:693-721 | the outer ORDER BY test gives the same answer before and after |
| `OuterClauses.EndBehindWords` | datastore/connection.py:700-716 | the place of insertion is behind the words ORDER BY |
| `StableSort.QueryIsStableSort` | datastore/core.py:1858-1915 | for every source, filter, projection, key list with mixed directions and missing values, window, and order of emission, the one result of the query is that window of the stable sort of the filtered source |
| `StableSort.SortIsStable` | datastore/core.py:1899-1905 | the reference sort is ordered by the keys, a permutation, and leaves ties in their original order |
| `StableSort.CompareIsOrder` | datastore/core.py:1899-1905 | a row comes before another by the keys if and only if at the first key where they differ it has the smaller number, or the larger if descending, and missing values come last in either direction |
| `StableSort.SortOrders` | datastore/core.py:1899-1905 | in the reference sort no row stands before one that precedes it by the keys so understood |
| `StableSort.QueryOrders` | datastore/core.py:1858-1915 | in the result of the query any two rows come from two rows of the source that pass the filter, and either the first precedes by the keys or they agree and it comes earlier in the source |
| `StableSort.WindowElements` | datastore/core.py:1907-1915 | LIMIT and OFFSET keep the rows from the offset on, as many as the limit allows |
| `StableSort.MiddleFrom` | datastore/core.py:1858-1891 | the numbered rows are the projections of exactly the source rows that pass the filter, each with its position in the source |
| `StableSort.SortedUnique` | datastore/connection.py:693-721 | a sequence strictly sorted by an asymmetric relation is determined by its elements |
| `StableSort.LegalExists` | datastore/core.py:1858-1915 | the query always has a result |
| `StableSort.NoKeysIsSourceOrder` | datastore/connection.py:658-691 | ordering by the row number alone gives the source order |
| `StableSort.TiesAreAmbiguous` | datastore/core.py:1899-1905 | without the row number two different rows that tie may come out either way, only one of which is the stable sort |
| `StableSort.MiddleIncreasing` | datastore/core.py:1858-1891 | row numbers are taken before the filter and increase through the filtered rows |
| `QueryDf.ThreadingKeepsOuter` | datastore/connection.py:746-811 | threading `_row_id` through a query never changes whether it has an outer ORDER BY |
| `QueryDf.SentInOrder` | datastore/connection.py:236-247 | a balanced query without an order of its own is sent with an outer ORDER BY, through both edits |
| `QueryDf.ResultIsStableSort` | datastore/connection.py:185-284 | from the preparing of the frame to the restoring of its index: for every frame, filter, projection, keys, window and order of emission, the labelled result is that window of the labelled and filtered frame, stably sorted by the keys, and in source order if there are none |
| `QueryDf.PreparedRead` | datastore/connection.py:317-348 | what the engine reads by position from the prepared frame are the rows of the original |
| `RowLabels.ChooseStrategy` | datastore/connection.py:198-228 | a row id is asked for exactly when order matters and the query neither groups nor aggregates; then exactly one of ORDER BY and tie-breaker is added, by whether the query has an order |
| `RowLabels.EmissionFollows` | datastore/connection.py:317-348 | because the index is reset unless it is 0..n-1, what chDB reads for a row id is that row of the original frame, whichever rows it returns and in which order |
| `RowLabels.UnpreparedExactlyWhen` | datastore/connection.py:334-341 | the guard is exact: on distinct rows, reading without the reset finds every row if and only if the index is contiguous |
| `RowLabels.RestoreIndex` | datastore/connection.py:257-284 | where `_row_id` comes back every result row has the label of the row its value was computed from, duplicates allowed; otherwise the index is positional or the engine's own |
| `RowLabels.EvalExpression` | datastore/connection.py:859-908 | the index of the series: by row id for row-level expressions, by position where no row id came back, and the engine's own for aggregates, row-expanding expressions and other row counts |
| `RowLabels.EvaluationIsElementwise` | datastore/connection.py:877-905 | for every order of emission the labelled values are those of element-wise evaluation on the original frame, as a multiset with duplicate labels, and in the same order if row ids come back in order |
| `RowLabels.PositionalOverwriteRight` | datastore/case_when.py:192-202 | overwriting the index by position is right on every frame, duplicate labels included, because the query orders by row id |
| `RowLabels.PositionalIndexExactlyWhen` | datastore/case_when.py:192-202 | for an engine that did not keep to that ORDER BY, over distinct labels, it would be right exactly for the emissions with every row in its place |
| `RowLabels.PermutationKeepsElements` | datastore/connection.py:893-905 | mapping over any complete set of row ids gives the elements of mapping over 0..n-1 |
| `ComputedColumns.ResolveExprDependencies` | datastore/core.py:2886-3002 | terminates on every map, cyclic ones included, returns what the pure resolver gives, and hands the shared visited set back unchanged |
| `ComputedColumns.ExpandsExactlyWhen` | datastore/core.py:2921-3002 | one resolution equals plain substitution of the stored expressions if and only if re-walking them moves nothing and no computed column is read under a node that is not walked |
| `ComputedColumns.ExpandedBelow` | datastore/core.py:2950-3002 | a computed column is expanded below arithmetic, functions, comparisons and compound conditions, and below nothing else |
| `ComputedColumns.SubstMeaning` | datastore/core.py:2921-3002 | substitution is evaluation on the row with the computed columns |
| `ComputedColumns.ExpansionPreservesMeaning` | datastore/core.py:2921-3002 | for every acyclic map and every expression of walked nodes, the resolved expression on the base row equals the original on the row extended with all computed columns |
| `ComputedColumns.AcyclicExpansion` | datastore/core.py:2921-3002 | the same from any visited set of columns above those still read |
| `ComputedColumns.ExtensionExists` | datastore/core.py:2921-3002 | every acyclic map has such an extended row |
| `ComputedColumns.RunMeaning` | datastore/core.py:5103-5117 | after every run of assignments whose expressions were settled when assigned, each column's stored expression means what sequential assignment gives |
| `ComputedColumns.AssignIsRight` | datastore/core.py:5103-5117 | the next settled expression is resolved to what sequential assignment would compute |
| `ComputedColumns.AssignRightExactlyWhen` | datastore/core.py:5103-5117 | and under the free interpretation only a settled one is |
| `ComputedColumns.SafeKeepsSelfOnly` | datastore/core.py:5103-5117 | an assignment to a column no other computed column reads keeps every stored expression reading no computed column but itself |
| `ComputedColumns.SafeRunSettled` | datastore/core.py:5103-5117 | every run of such assignments is settled throughout |
| `ComputedColumns.FreshRunMeaning` | datastore/core.py:5103-5117 | every run of assignments to fresh names equals sequential assignment |
| `ComputedColumns.ChainComposes` | datastore/core.py:2928-2947 | beside any other computed columns, overwriting one that none of them reads any number of times stores the composition of all the expressions over the row before, however often each reads the column |
| `ComputedColumns.ChainSafe` | datastore/core.py:2928-2947 | such a chain behind any safe run is safe throughout and leaves the other columns as they are |
| `ComputedColumns.ReexpansionGoesWrong` | datastore/core.py:2928-2947 | after b := a + 1 and a := a * 2, a reference to b is resolved to a * 2 + 1 instead of the old a + 1 |
| `ComputedColumns.HiddenColumnGoesWrong` | datastore/core.py:2950-3002 | a computed column under NOT is left unresolved |
| `ComputedColumns.ResolvesToField` | datastore/core.py:2922-2948 | resolution ends in a bare column exactly along a chain of copies |
| `ComputedColumns.StaysPut` | datastore/core.py:2921-3002 | resolution leaves an expression alone exactly when every walked column in it is unknown, visited or leads back to itself |
| `ComputedColumns.RightAfterCheckpoint` | datastore/core.py:1201-1218 | over a checkpoint, which keeps the map, resolution stays right if no column read is changed by applying the map twice |
| `ComputedColumns.RightAfterCheckpointExactlyWhen` | datastore/core.py:1201-1218 | for every map and every expression: exactly when each column the resolver expands only follows copies that lead back to its stored expression |
| `ComputedColumns.PutBackExactlyWhen` | datastore/core.py:1201-1218 | expanding and applying the map once more gives an expression back exactly under that structural condition |
| `ComputedColumns.FreshSurvives` | datastore/core.py:1201-1218 | runs of fresh names always meet that condition |
| `ComputedColumns.OverwriteAppliedTwice` | datastore/core.py:1201-1218 | after a := a + 1 and a checkpoint, a reads as (a + 1) + 1 |
| `ColumnDictionary.ColumnTracker.AssignSql` | datastore/core.py:5052-5117 | from any dictionary, raw entries included: a new one that stores each expression resolved, in turn; on the set a column insert leaves it raises if there is anything to store |
| `ColumnDictionary.ColumnTracker.SetItem` | datastore/pandas_compat.py:464-479 | item assignment writes the raw expression into the dictionary in place, nothing for other values, and raises on a set |
| `ColumnDictionary.ColumnTracker.InsertColumn` | datastore/core.py:4007-4008 | a column insert puts an empty set in place of the dictionary |
| `ColumnDictionary.ColumnTracker.Copy` | datastore/core.py:6429-6451 | a copy shares the dictionary |
| `ColumnDictionary.AssignAfterInsert` | datastore/core.py:4007-4008 | after a column insert an SQL assign raises if and only if it has an expression to record |
| `ColumnDictionary.AssignOnCopy` | datastore/core.py:5052-5117 | an SQL assign on a copy never changes the original's dictionary |
| `ColumnDictionary.SetItemOnCopy` | datastore/pandas_compat.py:464-479 | item assignment on a copy does; expansions that do not look the key up stay the same |
| `ColumnDictionary.WriteHarmlessExactlyWhen` | datastore/core.py:2921-3002 | a write leaves the expansion of an expression alone, whatever is written, if and only if the resolver does not look the key up |
| `ColumnDictionary.WriteOnCopyShows` | datastore/pandas_compat.py:464-479 | the original has b := a + 1; writing a * 2 to b on its copy makes the original expand b to a * 2 |
| `ColumnDictionary.ItemAssignRightExactlyWhen` | datastore/pandas_compat.py:464-479 | after any settled run of assign, a column written raw reads as sequential assignment would have it if and only if it was not computed before where it reads itself, and the others it reads expand to what is stored for them |
| `ColumnDictionary.ItemChainComposesExactlyWhen` | datastore/pandas_compat.py:464-479 | behind any settled run of assign, overwriting by item assignment composes if and only if the column was still the source column when the last expression reads it, and the other columns it reads expand to what is stored for them |
| `ColumnDictionary.ItemOverwriteLost` | datastore/pandas_compat.py:464-479 | a = a + 1 and a = a * 2 leave a * 2 in the dictionary |
| `ColumnDictionary.MixedFreshMeaning` | datastore/pandas_compat.py:464-479 | with fresh names every mixture of assign and item assignment expands to sequential assignment, although one stores resolved and the other raw expressions |
| `ColumnDictionary.SqlOnlyIsStored` | datastore/core.py:5103-5117 | with SQL assignments only, the dictionary is the one of the runs of assign |
| `Pipeline.PlanSegments` | datastore/query_planner.py:652-824 | the planning loop gives the segments that `PlanExactly` determines, or the bare read of the source |
| `Pipeline.PlanExactly` | datastore/query_planner.py:752-824 | the plan is the one way to cut the operations into segments of one engine with no SQL assignment to, or reading, a column that an earlier operation of its segment sets, and with two neighbours of one engine only where the first operation of the second is such an assignment against the first |
| `Pipeline.PlanFound` | datastore/query_planner.py:752-824 | whoever cuts the operations up that way ends with the planner's own variables |
| `Pipeline.OneQueryExactlyWhen` | datastore/query_planner.py:752-824 | everything is one SQL query if and only if all of it is SQL and no assignment clashes with an earlier operation |
| `Pipeline.PureSqlIsDenote` | datastore/query_planner.py:793-805 | SQL operations without column assignments are one segment, and over a table they compute what they say one after the other, with no condition on what is handed over |
| `Pipeline.ChosenCells` | datastore/core.py:1371-1444 | a column chosen by name has, row for row, the values at its position in the frame |
| `Pipeline.ExistingInOrder` | datastore/core.py:1371-1444 | of the names chosen, those that exist are taken in the order named |
| `Pipeline.ChosenUnchanged` | datastore/core.py:1371-1444 | choosing everything, or nothing that exists, leaves the frame as it is |
| `Pipeline.PlanConserves` | datastore/query_planner.py:652-824 | the segments hold all operations in order, each for one engine, and no SQL column assignment sets or reads a column assigned earlier in its segment |
| `Pipeline.RunIsDenote` | datastore/core.py:1158-1181 | running the segments computes the operations one after the other whenever every segment makes of the frame it is handed what its operations do |
| `Pipeline.ExecuteSegment` | datastore/core.py:1270-1553 | reading the source, reloading it for an empty frame, and the loops over an empty frame without a source give the frame of the specification |
| `Pipeline.NextSegmentRightExactlyWhen` | datastore/core.py:1371-1504 | the next segment computes an operation right, whatever it does, if and only if the frame handed on is non-empty, or is the source that would be reloaded, or there is no source and the segment is pandas or the operation one that SQL computes on empty frames |
| `Pipeline.OnEmptyRightExactlyWhen` | datastore/core.py:1371-1444 | a later SQL segment on an empty frame without a source is right, whatever its operations do, if and only if one of them is an assignment or expression, or all select columns by name and the last selection gives what they give together |
| `Pipeline.HarmlessRight` | datastore/core.py:1371-1444 | on frames without rows, selections that fit and operations that leave such frames alone are right as well |
| `Pipeline.EmptyGroupByGoesWrong` | datastore/core.py:1371-1444 | a group-by on an empty frame from from_df returns the frame unaggregated |
| `Pipeline.EmptyHandoffGoesWrong` | datastore/core.py:1446-1504 | an operation that drops all rows followed by one for the other engine, in either order of the engines, gives the whole source back |
| `LazyStore.RunCoherent` | datastore/core.py:1016-1227 | over every sequence of add, execute, clear, column insert, SQL-source and cache or TTL events that meets the two conditions, on empty handoffs and on the recorded source, each execution returns the meaning of everything recorded so far, across version resets and checkpoints |
| `LazyStore.PlainRunCoherent` | datastore/core.py:1016-1227 | over a table, with SQL operations that assign no column, every execution of every run returns the meaning of everything recorded so far, with no condition left |
| `LazyStore.InsertThenSqlSource` | datastore/core.py:3987-4016 | a column insert refreshes the stored source frame, so that an SQL source made after it always meets its condition |
| `LazyStore.EmptyGroupByAnswer` | datastore/core.py:1371-1444 | that group-by as a run: the store is coherent, the condition on handoffs is not met, and the execution returns the frame as it was |
| `LazyStore.StepCoherent` | datastore/core.py:1016-1227 | every event keeps: cachedAt <= version, and a cache at equal versions holds the denotation of the recorded operations |
| `LazyStore.ExecutedCoherent` | datastore/core.py:1092-1227 | execution returns the denotation, from the cache or by running, and leaves a coherent store with or without a checkpoint |
| `LazyStore.AddOpCoherent` | datastore/core.py:1079-1090 | recording an operation never leaves a stale cache valid |
| `LazyStore.InsertedCoherent` | datastore/core.py:3996-4016 | column insertion in place keeps coherence although it sets the cache without touching the versions |
| `LazyStore.EnsuredCoherent` | datastore/core.py:3004-3112 | turning the source frame into a table keeps the meaning if every recorded source is that frame |
| `LazyStore.EnsureRightExactlyWhen` | datastore/core.py:3095-3109 | and for a recorded source in front of any operations, only then |
| `LazyStore.CheckpointDroppedBySqlSource` | datastore/core.py:1201-1218 | from_df, a pandas operation, execution with its checkpoint, then an SQL source: the operation is lost, because the checkpoint leaves the source frame as it was |
| `LazyStore.NewStoreCoherent` | datastore/core.py:2545-2577 | a store just made from a frame or a table is coherent |
| `LazyStore.HitExactlyWhen` | datastore/core.py:1016-1050 | a result written by an execution is used again, over any later recordings and settings changes, if and only if caching is on, nothing was recorded since and the TTL in force has not run out |
| `LazyStore.NoHitAfterClear` | datastore/core.py:1061-1077 | after clear_cache nothing is answered from the cache before the next execution, whatever is recorded or set and at any time |
| `LazyStore.InsertedIsCached` | datastore/core.py:3996-4016 | a column insert leaves a valid cache exactly when caching is on |
| `LazyStore.CheckpointExactlyWhen` | datastore/core.py:1183-1218 | an execution replaces the pipeline by its result, and drops the table, if and only if caching is on, the cache was no use, and some operation is pandas or an SQL assignment clashing with an earlier one; the frame given by the user stays |
| `LazyStore.StepsWithoutSource` | datastore/core.py:3095-3109 | dropping the recorded sources and starting from the frame they hold gives the same table |
| `LazyStore.DataStore.FromDf` | datastore/core.py:2545-2577 | a store from a frame records the frame as its first operation |
| `LazyStore.DataStore.IsCacheValid` | datastore/core.py:1016-1050 | valid exactly when caching is on, there is a result, the versions are equal and the TTL, if any, has not run out |
| `LazyStore.DataStore.InvalidateCache` | datastore/core.py:1052-1059 | only the version goes up |
| `LazyStore.DataStore.Clear` | datastore/core.py:1061-1077 | the cache is dropped and nothing else that the answer depends on changes |
| `LazyStore.DataStore.AddLazyOp` | datastore/core.py:1079-1090 | the operation is appended to the list object in place and the version goes up |
| `LazyStore.DataStore.Execute` | datastore/core.py:1092-1227 | result and whole new state, through the segment loop, are those of the specification; a checkpoint puts a new list in place of the old and leaves that one alone |
| `LazyStore.DataStore.Insert` | datastore/core.py:3987-4016 | whole new state of a column insert |
| `LazyStore.DataStore.EnsureSql` | datastore/core.py:3004-3112 | whole new state of making an SQL source |
| `LazyStore.DataStore.Copy` | datastore/core.py:6429-6451 | the copy is a new object in the same state, with a list of operations that no other store has |
| `LazyStore.CopiesDoNotInterfere` | datastore/core.py:6429-6451 | over every interleaving of events on a store and its copy under the one set of settings, each execution returns the meaning of what was recorded on its own store |
| `LazyStore.DuoStep` | datastore/core.py:1016-1227 | an event on either of the two keeps both coherent and leaves the other's meaning alone |
| `LazyStore.Interleave` | datastore/core.py:6429-6451 | two objects with list objects of their own go through the states of that machine and give its answers, although recording appends to the list in place |
| `LazyStore.DataStore.Duplicate` | datastore/core.py:6429-6451 | all fields are taken over, and the list of operations is a new object with the same contents |
| `LazyStore.Handle` | datastore/core.py:1016-1227 | each event on the object is the step of the state machine, and an execution gives its answer |
| `Projection.PushdownRightExactlyWhen` | datastore/core.py:3031-3109 | projecting the source to the tracked columns and deleting the SELECTs gives the answer of the full chain if and only if every retained operation reads surviving columns and, where columns changed, the tracked names are those execution ends with |
| `Projection.PushdownSound` | datastore/core.py:3031-3109 | for chains whose SELECTs name available columns: right if and only if every retained operation reads surviving columns |
| `Projection.ProjectedRun` | datastore/core.py:3031-3109 | the projected chain and the full chain stay in step for every filter, sort algorithm, LIMIT and OFFSET |
| `Projection.RetainedAre` | datastore/core.py:3095-3109 | a chain that changes the columns keeps every operation but the SELECTs, in order; any other chain is kept whole |
| `Projection.SqlRunIsRun` | datastore/lazy_ops.py:812-930 | where every named column is there, pandas and SQL execution of a chain agree |
| `Projection.WindowRows` | datastore/lazy_ops.py:812-930 | LIMIT keeps the first n rows and OFFSET those behind them, in either execution |
| `Projection.FilterRows` | datastore/lazy_ops.py:812-930 | a filter keeps, in order, exactly the rows whose values in its columns pass |
| `Projection.SelectRows` | datastore/lazy_ops.py:812-930 | a selection keeps every row, with the values of the named columns |
| `Projection.FittingSelectsTracked` | datastore/lazy_ops.py:782-801 | tracking names without looking at the frame gives the columns execution ends with, if every SELECT names available columns |
| `Projection.RunColumns` | datastore/lazy_ops.py:812-930 | execution ends with the columns computed from the names alone |
| `Projection.FilterThenSelectFails` | datastore/core.py:3031-3109 | a filter on b followed by SELECT a cannot be run after pushdown, although the full chain can |
| `Projection.SelectAfterSelectGoesWrong` | datastore/lazy_ops.py:782-801 | SELECT a then SELECT b executes to a but is tracked, and pushed down, as b |
| `Conditions.FiltersAgree` | datastore/expression_evaluator.py:560-649 | for every row with NULLs and every condition of the agreeing fragment, the generated SQL is true exactly when the pandas evaluation is |
| `Conditions.ComparisonMeaning` | datastore/expression_evaluator.py:566-590 | on numbers each of the seven operators is that of the integers, in pandas and in the SQL emitted, from columns and constants alike |
| `Conditions.IntervalMeaning` | datastore/conditions.py:447-472 | the four BETWEEN modes are the four kinds of interval, in either engine |
| `Conditions.ListMeaning` | datastore/conditions.py:377-409 | IN and NOT IN without NULLs are membership and its negation, in either engine |
| `Conditions.NullTestMeaning` | datastore/conditions.py:302-340 | IS NULL and IS NOT NULL tell missing from present, in either engine |
| `Conditions.MissingMeaning` | datastore/expression_evaluator.py:566-590 | against a missing value the SQL has no verdict, and pandas holds for != and <> only |
| `Conditions.CompleteIsDecided` | datastore/conditions.py:112-472 | where no operand is missing both engines give one known truth value to every condition, and the connectives combine those of the parts classically |
| `Conditions.ValuesAgree` | datastore/conditions.py:164-201 | conditions over null-safe comparisons, with != and <> and under AND, OR, XOR and NOT, are never NULL and equal the pandas value |
| `Conditions.FragmentsAgree` | datastore/conditions.py:112-472 | both, by one induction over the tree |
| `Conditions.FragmentsExactOnColumns` | datastore/conditions.py:112-472 | for a comparison, NULL test, interval or list over a column the fragments are exact: it is in them if and only if the engines agree on every row |
| `Conditions.NotIsNeverNull` | datastore/conditions.py:278-299 | NOT as emitted is never NULL, over any condition |
| `Conditions.AgreesExactlyWhen` | datastore/conditions.py:112-472 | for every node whose parts agree, the node agrees on a row if and only if it meets the condition for its kind |
| `Conditions.NotInExactlyWhen` | datastore/conditions.py:377-409 | NOT IN agrees on all rows if and only if it tests a constant that is NULL and listed, or not NULL and listed or up against no NULL |
| `Conditions.InExactlyWhen` | datastore/conditions.py:377-409 | IN agrees on all rows if and only if no NULL is listed or a constant that is not NULL is tested |
| `Conditions.XorExactlyWhen` | datastore/conditions.py:240-252 | XOR of two null-to-false comparisons agrees on a row if and only if neither lacks an operand while the other is satisfied |
| `Conditions.XorOfColumnsExactlyWhen` | datastore/conditions.py:240-252 | XOR of comparisons of two columns with numbers agrees on all rows if and only if it is one column |
| `Conditions.WrappersAreTransparent` | datastore/conditions.py:278-299 | NOT, and a null-safe wrapper around anything but a comparison, agree exactly when what they wrap does |
| `Conditions.NullSafeCompoundExactlyWhen` | datastore/conditions.py:164-201 | a null-safe wrapper around a compound has the pandas value if and only if the compound filters alike |
| `Conditions.NullSafeComparison` | datastore/conditions.py:164-201 | every null-safe comparison has the pandas value on every row |
| `Conditions.BareInequality` | datastore/conditions.py:112-131 | an unwrapped != or <> agrees on all rows if and only if both sides are constants that are not NULL |
| `Conditions.MissingValueSeparates` | datastore/expression_evaluator.py:560-649 | on a row where a is missing, a != 1, NOT IN (1) and an XOR over a = 1 are kept by pandas and dropped by the SQL |
| `Conditions.SqlOfBetween` | datastore/conditions.py:447-472 | all four BETWEEN modes are the conjunction of their two comparisons, NULLs included |
| `Conditions.ConjunctionMeaning` | datastore/conditions.py:52-63 | a list combined with AND is true in either engine exactly when every member is, and stays in the fragment |
| `Conditions.All` | datastore/conditions.py:52-63 | the loop returns nothing for the empty list and otherwise the conjunction of the list |
| `CaseWhen.FirstSql` | datastore/case_when.py:87-97 | the branch taken is the first whose condition is true; a NULL condition skips |
| `CaseWhen.Select` | datastore/case_when.py:249-264 | first-true selection with default |
| `CaseWhen.CasesAgree` | datastore/case_when.py:87-97 | if every condition agrees on the row, SQL CASE and pandas selection give the same value |
| `CaseWhen.FilterableCasesAgree` | datastore/case_when.py:87-97 | so they do for every list of cases with conditions of the fragment, on every row |
| `CaseWhen.SameBranchExactlyWhen` | datastore/case_when.py:87-97 | for every list of cases the engines take the same branch if and only if they agree on every condition up to and including the one the SQL stops at |
| `CaseWhen.SameCaseExactlyWhen` | datastore/case_when.py:87-97 | and where the branches have different values, so does the answer |
| `CaseWhen.SelectTakesFirst` | datastore/case_when.py:249-264 | np.select gives the value of the first branch true in pandas |
| `CaseWhen.EvaluateViaPandas` | datastore/case_when.py:211-266 | the loops give every row its first-true value |
| `CaseWhen.CaseWhenBuilder.WhenThen` | datastore/case_when.py:314-331 | appends the case in place and returns the builder itself |
| `CaseWhen.CaseWhenBuilder.Otherwise` | datastore/case_when.py:333-357 | fails exactly when there is no case, and otherwise gives the expression its own copy of the list |
| `CaseWhen.ExtendAfterOtherwise` | datastore/case_when.py:304-357 | extending the builder afterwards does not alter the expression already returned |
| `ValueCounts.FirstAppearance` | datastore/column_expr.py:1027-1035 | the loop maps exactly the values that occur to the position of their first occurrence |
| `ValueCounts.CountsMatchPandas` | datastore/column_expr.py:1027-1084 | for every order in which the engine returns the groups, and any sorting, the answer is one: first-appearance order, or that stably sorted by count in the requested direction |
| `ValueCounts.ReferenceInDirection` | datastore/column_expr.py:1059-1061 | in the answer of pandas, counts go up if ascending and down if not, equal counts and unsorted answers go by first position in the column |
| `ValueCounts.ColumnInDirection` | datastore/column_expr.py:1027-1061 | so does every answer for a column, for every order in which the engine returns the groups |
| `ValueCounts.CountsConserve` | datastore/column_expr.py:996-1011 | the answer names every value that occurs once, with its count, and the counts add up to the rows that are not missing |
| `ValueCounts.DropMissingKeeps` | datastore/column_expr.py:996-1000 | dropping missing cells keeps every other as often as it occurs |
| `ValueCounts.NormalizedSumsToOne` | datastore/column_expr.py:1001-1009 | normalised, they add up to 1 |
| `ValueCounts.ProportionOrder` | datastore/column_expr.py:1001-1009 | and sorting by proportion is sorting by count |
| `ValueCounts.AnswerRightExactlyWhen` | datastore/column_expr.py:920-1084 | over the routes by bins, engine, column, expression text and fallback: every answer is the one pandas gives, for every order of the groups, if and only if the call is not for an expression whose SQL text names a column of the frame, or no two values tie |
| `ValueCounts.ExpressionDeterministicExactlyWhen` | datastore/column_expr.py:1036-1041 | on that route, where positions come from the engine's own order, the answer is the same for every order of the groups if and only if no two values tie: distinct counts when sorted, at most one value when not |
| `ValueCounts.TieGoesEitherWay` | datastore/column_expr.py:972-1041 | on a frame with a column named like the expression, two values that occur once each come out in either order |
| `ValueCounts.GroupsPositioned` | datastore/column_expr.py:1027-1057 | the groups with their first positions are the same set of rows for every order of the groups |
| `Profiling.Profiler.Profile` | datastore/config.py:607-635 | running any nested block, raising ones included, takes the recorded state to that of the specification, and a disabled profiler records nothing |
| `Profiling.Profiler.Enter` | datastore/config.py:616-630 | a new step is appended to the list of the innermost open step, or to the top-level list, and pushed |
| `Profiling.Profiler.Exit` | datastore/config.py:631-635 | the step gets its end time and the stack is popped; nothing else changes |
| `Profiling.RunKeeps` | datastore/config.py:607-635 | every run keeps the invariant: the stack is the chain of open ancestors, children lie inside their parent and follow each other in time |
| `Profiling.RunRecordsBlock` | datastore/config.py:607-635 | every run records the steps of the block, each once, in order, under the right parent and closed, and touches no earlier step |
| `Profiling.RunRecordsTimes` | datastore/config.py:607-635 | every step is recorded with the times at which it starts and ends, as the delays around and inside it add up, also when the body raises |
| `Profiling.TotalOfBlock` | datastore/config.py:642-645 | the total of a profiler that recorded a block is the time spent inside the top-level steps of the block |
| `Profiling.RunTotals` | datastore/config.py:642-645 | any run adds the time spent in its own steps to the total of the step it is inside of |
| `Profiling.SumConcat` | datastore/config.py:642-645 | the sum of one step is its end minus its start, and sums add over concatenation |
| `Profiling.EnterKeeps` | datastore/config.py:616-630 | entering keeps the invariant, because nothing inside the innermost open step is open |
| `Profiling.ExitKeeps` | datastore/config.py:631-635 | leaving the innermost step keeps it |
| `Profiling.EachStepOnce` | datastore/config.py:622-626 | each step is in the list of its parent, in no other, and in none twice |
| `Profiling.ClosedCoversChildren` | datastore/config.py:573-576 | a closed step lasts at least as long as its children together |
| `Profiling.Played` | datastore/config.py:607-635 | the stack after a block is the stack before it |
| `Profiling.Profiler.TotalDurationMs` | datastore/config.py:642-645 | the loop gives a thousand times the total of the top-level steps, which `TotalOfBlock` determines |

## Left out

- chDB and pandas themselves: the engine returns any rows SQL allows, in any order; the clock, the TTL clock and the engine's order are parameters.
- What single operations compute: in the cache and the planner an operation is any function on tables, with the columns it names.
- That `rowNumberInAllBlocks()` numbers the rows of the source by position: the stable-sort subquery relies on it, and the model takes it as given.
- NULL in an IN list has its standard SQL meaning; ClickHouse leaves it out of the list by default.
- Clauses behind an ORDER BY other than LIMIT, OFFSET, FETCH and SETTINGS, and the use of these words as names.
- Quotes escaped by a backslash, and comments, in SQL text: a quote is closed by the next one of its kind.
- The SQL branch of `join`, `having` and `with_format_settings`: they change query state without recording an operation.
- Index restoration after the cache write at the end of `_execute`, and `_index_info`.
- DISTINCT in the stable-sort subquery, and the setter of `index` in pandas_compat.py.
- The SQL text of expressions, conditions and queries: `to_sql` is modelled as the tree it denotes, with its meaning; quoting, aliases and stripping of quotes from names are not modelled.
- The order of columns and the select list that `assign` builds.
- LazyStore.DataStore.Insert: does not track computed columns, whose replacement by a set is in ColumnDictionary.dfy.
- LazyStore.DataStore.EnsureSql: does not model the column projection, which is the subject of Projection.dfy.
- Projection.PushdownRightExactlyWhen: takes operations in order and SELECTs of column names; `*`, expressions with aliases and the layering of SQL clauses into subqueries are not modelled.
- ValueCounts.CountsMatchPandas: covers `dropna=True`; with missing values kept, the answer depends on how Python hashes NaN.
- Profiling.Profiler.Profile: covers nested use; `clear` while steps are open, step metadata, `report` and `summary` are not modelled.
- `_is_aggregate_query`, `_is_row_expanding_expression`, LIKE, and regular-expression rewriting: substring and library heuristics; their outcome is a parameter.
- Non-ASCII text, Unicode case and white space in the scanners.
- Values other than integers and NULL in conditions and sort keys: comparisons and NULL handling do not depend on the type.
- The many thin `ColumnExpr` methods, accessors, adapters, `explain`, logging and display: they would only add easy members.
