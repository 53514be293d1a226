# Crypto route dashboard: the page logic, modelled in Dafny

The dashboard is a React front end for a crypto payment router. Its routing engine does
not exist in the code: the two routing buttons display fixed results after a timer. What
the pages do contain is three pieces of deterministic logic, and that is what this
project models and proves properties of.

- **The transaction log** (`TransactionsPage.tsx`). The query is a search and network
  filter followed by a sort on timestamp, fee or confirmation time, in either direction.
  The page also keeps a two-field sort selection, lists the distinct networks for the
  filter menu, and shortens ids for display.
  - Modules: `TransactionLog` (the query), `TransactionsPage` (the sort selection and the
    page state as a class).
  - Supporting modules model the JavaScript built-ins the comparator relies on: `Text`
    (`toLowerCase`, `includes`, `split(' ')[0]`), `JsNumbers` (`parseFloat`, `parseInt`),
    `Timestamps` (`new Date(s).getTime()` for the fixed `YYYY-MM-DDTHH:MM:SSZ` form) and
    `Wrappers` (`Option`, standing for `undefined` and `NaN`).
  - `MockLog` applies the query to the five demo records of `api.ts`.
- **The configuration page** (`ConfigPage.tsx`, module `Configuration`).
  `handleNetworkChange` writes one field of one entry of the keyed network table, and
  seven setters each write one top-level field.
- **The dashboard** (`DashboardPage.tsx`, module `Dashboard`). The quick route and the
  advanced route each build a decision; the result card shows a method badge and an AI
  panel; three form controls edit the routing preferences.

Modelling choices:

- Numbers parsed from text are exact `real`s. `NaN` is `None`, and the comparator
  treats a comparison involving `NaN` as a tie, as `Array.prototype.sort` does.
- The sort is a stable insertion sort written as functions.
- The network table is an association list in JavaScript property order. An entry's two
  fields are `Option`s, because spreading `undefined` into a new key yields an object
  without them.
- The React state of the transaction page is a class whose methods are the state setters.
  Every other page builds new objects by spreading, so it is modelled with pure functions.

Two behaviours of the code that a reader might expect to be otherwise:

- Sort ties: one might expect records with equal sort values to fall back to newest-first
  order. The comparator has no secondary key, so, the sort being stable, records with
  equal sort values keep the order they were loaded in, whatever the direction, as long
  as every record has a sort value (no `NaN`). `TransactionLog.SortByStable` and
  `TransactionLog.QueryKeepsTiedOrder` state this for every sort value under that
  condition; `TransactionLog.SortAllTiesKeepsOrder` is the case where all tie, with no
  condition.
- `aiRecommendation`: one might expect it to be present exactly when the method is
  hybrid. The code also leaves it `undefined` when the preferred-network list is empty,
  because `preferredNetworks[0]` is `undefined` there.

## Model

| member | source | states |
|---|---|---|
| TransactionLog.MatchesSearch | src/pages/TransactionsPage.tsx:75-78 | a record matches exactly when the lower-cased term occurs in the lower-cased id, network or merchant id |
| TransactionLog.MatchesNetwork | src/pages/TransactionsPage.tsx:80 | the `all` filter matches every record; any other filter matches exactly the records on that network |
| TransactionLog.Passes | src/pages/TransactionsPage.tsx:74-82 | under the `all` filter a record passes exactly when it matches the search; under the empty search exactly when it matches the network filter |
| TransactionLog.FilterTransactions | src/pages/TransactionsPage.tsx:73-83 | each record occurs as often as in the input if it passes both tests and not at all otherwise; the result is no longer than the input |
| TransactionLog.FilterAppend | src/pages/TransactionsPage.tsx:73-83 | filtering a concatenation is concatenating the filtered parts, so the kept records stay in input order |
| TransactionLog.FilterOne | src/pages/TransactionsPage.tsx:74-82 | a single record is kept exactly when it passes |
| TransactionLog.SortValue | src/pages/TransactionsPage.tsx:87-96 | timestamps and confirmation times sort by whole numbers; a timestamp has a value only in the fixed form |
| TransactionLog.Compare | src/pages/TransactionsPage.tsx:84-99 | with both values defined, negative exactly when the first record's value precedes in the chosen direction, and zero exactly when the values are equal; zero when either is `NaN` |
| TransactionLog.SortValueIgnoresUnit | src/pages/TransactionsPage.tsx:89-96 | a fee or confirmation time written `<number> <unit>` sorts by the number parsed from the text before the space, whatever the unit |
| TransactionLog.Insert | src/pages/TransactionsPage.tsx:84-100 | inserting adds exactly the one record to the multiset |
| TransactionLog.SortBy | src/pages/TransactionsPage.tsx:84-100 | the sort is a permutation of its input |
| TransactionLog.InsertSorted | src/pages/TransactionsPage.tsx:84-100 | inserting a record with a sort value into a sorted list keeps it sorted |
| TransactionLog.SortBySorted | src/pages/TransactionsPage.tsx:84-100 | when every record has a sort value, the result is sorted under the comparator |
| TransactionLog.Query | src/pages/TransactionsPage.tsx:73-100 | the rows are a permutation of exactly the passing records; each row comes from the input and passes; no more rows than records; sorted when every record has a sort value |
| TransactionLog.SortFilteredSorted | src/pages/TransactionsPage.tsx:73-100 | when every record has a sort value (no `NaN`), filtering and then sorting gives a sorted list whatever the search and filter |
| TransactionLog.SortSelectionOnlyReorders | src/pages/TransactionsPage.tsx:84-100 | two sort selections give the same rows as a multiset, differing only in order |
| TransactionLog.EmptySearchPasses | src/pages/TransactionsPage.tsx:75-80 | the empty search and the `all` filter pass every record |
| TransactionLog.EmptySearchKeepsAll | src/pages/TransactionsPage.tsx:73-83 | with the empty search and the `all` filter, the filter returns the records unchanged |
| TransactionLog.EmptySearchShowsAll | src/pages/TransactionsPage.tsx:73-100 | with the empty search and the `all` filter, the query shows every record, under any sort |
| TransactionLog.SortedHeadsTie | src/pages/TransactionsPage.tsx:84-100 | two sorted arrangements of the same records start with records of equal sort value |
| TransactionLog.SortedUnique | src/pages/TransactionsPage.tsx:84-100 | with distinct sort values there is only one sorted arrangement of a multiset of records |
| TransactionLog.ReverseMultiset | src/pages/TransactionsPage.tsx:99 | reversing keeps the multiset |
| TransactionLog.DescSwapsAsc | src/pages/TransactionsPage.tsx:99 | the descending comparison of a, b is the ascending comparison of b, a |
| TransactionLog.ReverseSortedAsc | src/pages/TransactionsPage.tsx:99 | an ascending arrangement reversed is a descending one |
| TransactionLog.DescIsReversedAsc | src/pages/TransactionsPage.tsx:99 | with distinct sort values, the descending sort is the ascending sort reversed |
| TransactionLog.EqualKeysTie | src/pages/TransactionsPage.tsx:85-99 | equal sort values, or a `NaN` on either side, compare as 0 in both directions |
| TransactionLog.TimestampOrderIsChronological | src/pages/TransactionsPage.tsx:87-88 | sorted by timestamp, no record is followed by an earlier one under `asc` or by a later one under `desc` |
| TransactionLog.InsertAllTie | src/pages/TransactionsPage.tsx:84-100 | a record that ties with every element is inserted after all of them |
| TransactionLog.SortAllTiesKeepsOrder | src/pages/TransactionsPage.tsx:84-100 | when every pair of records ties, the sort keeps the arrival order |
| TransactionLog.InsertStable | src/pages/TransactionsPage.tsx:84-100 | when the record and every element of the sorted list have a sort value, inserting the record puts it after every record with its sort value, which keep their order |
| TransactionLog.SortByStable | src/pages/TransactionsPage.tsx:84-100 | when every record has a sort value, for every sort value the records with that value come out of the sort in input order |
| TransactionLog.QueryKeepsTiedOrder | src/pages/TransactionsPage.tsx:73-100 | when every record has a sort value (no `NaN`), for every sort value the displayed records with that value are the passing records with that value, in load order |
| TransactionLog.Distinct | src/pages/TransactionsPage.tsx:102 | the elements of `Array.from(new Set(s))` are exactly those of `s`, each once |
| TransactionLog.DistinctFirstOccurrenceOrder | src/pages/TransactionsPage.tsx:102 | the distinct elements come in the order of their first occurrence |
| TransactionLog.Networks | src/pages/TransactionsPage.tsx:102 | the i-th name is the i-th record's network |
| TransactionLog.UniqueNetworks | src/pages/TransactionsPage.tsx:102 | a network is offered exactly when some record has it, and none is offered twice |
| TransactionLog.UniqueNetworksInFirstAppearanceOrder | src/pages/TransactionsPage.tsx:102 | the networks are offered in the order they first appear in the records |
| TransactionLog.DisplayId | src/pages/TransactionsPage.tsx:212 | the shown id is the prefix of the id of length min(6, its length) |
| TransactionsPage.Flip | src/pages/TransactionsPage.tsx:56 | flipping always changes the direction |
| TransactionsPage.SortChange | src/pages/TransactionsPage.tsx:54-61 | the chosen key is selected; choosing the current key flips the direction; a new key starts ascending |
| TransactionsPage.SameColumnTwiceRestores | src/pages/TransactionsPage.tsx:54-61 | choosing the current key twice restores the selection |
| TransactionsPage.NewColumnTwiceDescends | src/pages/TransactionsPage.tsx:54-61 | choosing a new key gives it ascending, choosing it again gives it descending |
| TransactionsPage.EverySelectionReachable | src/pages/TransactionsPage.tsx:54-61 | from the initial timestamp/desc selection, every selection is at most two clicks away |
| TransactionsPage.TransactionsView.constructor | src/pages/TransactionsPage.tsx:29-34 | the page opens with no records, no search, the `all` filter and timestamp/desc |
| TransactionsPage.TransactionsView.Rows | src/pages/TransactionsPage.tsx:73-100 | the rows are the query of the current state: each loaded record as often as loaded if it passes and not at all otherwise, and, when every record has a sort value, sorted under the selection with ties in load order |
| TransactionsPage.TransactionsView.NetworkOptions | src/pages/TransactionsPage.tsx:102 | the menu offers each network of the loaded records once, exactly those, in order of first appearance |
| TransactionsPage.TransactionsView.Load | src/pages/TransactionsPage.tsx:41-42 | the records are replaced; search, filter and sort selection are kept |
| TransactionsPage.TransactionsView.SetSearchTerm | src/pages/TransactionsPage.tsx:127 | only the search term changes |
| TransactionsPage.TransactionsView.SetNetworkFilter | src/pages/TransactionsPage.tsx:133 | only the network filter changes |
| TransactionsPage.TransactionsView.HandleSortChange | src/pages/TransactionsPage.tsx:54-61 | the selection moves as `SortChange` says, the rest of the state is kept, and the rows are the same multiset as before |
| Text.LowerChar | src/pages/TransactionsPage.tsx:76-78 | an ASCII capital becomes its small letter; every other character is kept |
| Text.Lower | src/pages/TransactionsPage.tsx:76-78 | lower-casing keeps the length and lower-cases every character |
| Text.LowerIdempotent | src/pages/TransactionsPage.tsx:76-78 | lower-casing twice is lower-casing once |
| Text.Includes | src/pages/TransactionsPage.tsx:76-78 | every string includes the empty string, and an included string is no longer than the including one |
| Text.IncludesIffOccurs | src/pages/TransactionsPage.tsx:76-78 | `includes` holds exactly when the term occurs at some index |
| Text.IncludesKeepsChars | src/pages/TransactionsPage.tsx:76-78 | every character of an included term occurs in the text |
| Text.IncludesEmpty | src/pages/TransactionsPage.tsx:76-78 | every string includes the empty string |
| Text.FirstToken | src/pages/TransactionsPage.tsx:90-95 | the first token is a space-free prefix that ends at the first space or at the end of the text |
| Text.FirstTokenIgnoresUnit | src/pages/TransactionsPage.tsx:90-95 | the first token of `<token> <unit>` is the token, whatever the unit |
| Text.TrimStart | src/pages/TransactionsPage.tsx:90-95 | the result is a suffix, everything dropped is white space, and it does not start with white space |
| JsNumbers.ParseInt | src/pages/TransactionsPage.tsx:94-95 | a number exactly when a digit of the selected radix follows the white space, the sign and any `0x` prefix; negative only after a minus sign |
| JsNumbers.ParseFloat | src/pages/TransactionsPage.tsx:90-91 | a number exactly when a digit, or a point and a digit, follows the white space and the sign; negative only after a minus sign |
| JsNumbers.DigitRunStopsAt | src/pages/TransactionsPage.tsx:90-95 | the digit run of digits followed by a non-digit is exactly those digits |
| JsNumbers.DecimalTextValue | src/pages/TransactionsPage.tsx:94-95 | reading back the decimal text of n gives n |
| JsNumbers.ParseIntOfDecimalText | src/pages/TransactionsPage.tsx:94-95 | `parseInt` reads the decimal text of n back as n when what follows is neither a digit nor an `x` |
| JsNumbers.ParseFloatFixedPoint | src/pages/TransactionsPage.tsx:90-91 | `parseFloat` reads `I.F`, alone or before a space and unit, as the exact decimal I + F / 10^\|F\| |
| JsNumbers.ParseFloatOfDecimalText | src/pages/TransactionsPage.tsx:90-95 | `parseFloat` and `parseInt` both read the decimal text of n as n, alone or before a space and unit |
| Timestamps.DaysInMonth | src/pages/TransactionsPage.tsx:88 | every month has 28 to 31 days, and 29 exactly for February of a leap year |
| Timestamps.EpochIsDayZero | src/pages/TransactionsPage.tsx:88 | 1970-01-01 is day 0 |
| Timestamps.DaysFromCivilNextDay | src/pages/TransactionsPage.tsx:88 | the day number grows by exactly one from each valid date to the next |
| Timestamps.MarchYearLength | src/pages/TransactionsPage.tsx:88 | a March-based year has 366 days when it ends in a leap day and 365 otherwise |
| Timestamps.DaysFromCivilIncreasing | src/pages/TransactionsPage.tsx:88 | a date earlier in calendar order has a smaller day number |
| Timestamps.EpochMillis | src/pages/TransactionsPage.tsx:88 | `getTime()` is a whole number of seconds in milliseconds, within the day its date numbers |
| Timestamps.TimestampMillis | src/pages/TransactionsPage.tsx:88 | defined exactly when the text parses as a valid date and time, which has the fixed form, and then a whole number of seconds |
| Timestamps.EpochMillisIncreasing | src/pages/TransactionsPage.tsx:88 | `getTime()` is strictly increasing in chronological order |
| Timestamps.ParseDateTime | src/pages/TransactionsPage.tsx:88 | a parsed timestamp is always a valid date and time |
| Timestamps.Pad2 | src/pages/TransactionsPage.tsx:88 | two decimal digits that read back as the number |
| Timestamps.Pad4 | src/pages/TransactionsPage.tsx:88 | four decimal digits that read back as the number |
| Timestamps.ParseFormat | src/pages/TransactionsPage.tsx:88 | parsing the fixed-form text of a date and time gives it back, and `getTime()` is its epoch milliseconds |
| MockLog.FeeTx1 | src/services/api.ts:120 | the first demo fee sorts as exactly 0.0045 |
| MockLog.FeeTx2 | src/services/api.ts:131 | the second demo fee sorts as exactly 0.5 |
| MockLog.FeeTx3 | src/services/api.ts:142 | the third demo fee sorts as exactly 0.0012 |
| MockLog.FeeTx4 | src/services/api.ts:153 | the fourth demo fee sorts as exactly 0.0018 |
| MockLog.FeeTx5 | src/services/api.ts:164 | the fifth demo fee sorts as exactly 0.0065 |
| MockLog.ConfirmationTx1 | src/services/api.ts:121 | the first demo confirmation time sorts as 15 |
| MockLog.ConfirmationTx2 | src/services/api.ts:132 | the second demo confirmation time sorts as 8 |
| MockLog.ConfirmationTx3 | src/services/api.ts:143 | the third demo confirmation time sorts as 3 |
| MockLog.ConfirmationTx4 | src/services/api.ts:154 | the fourth demo confirmation time sorts as 5 |
| MockLog.ConfirmationTx5 | src/services/api.ts:165 | the fifth demo confirmation time sorts as 18 |
| MockLog.MockNewestFirst | src/services/api.ts:123-167 | the demo timestamps all parse and strictly decrease |
| MockLog.QueryOfFive | src/pages/TransactionsPage.tsx:73-100 | five records with strictly increasing signed sort values are listed in that order by the unfiltered query |
| MockLog.FeeAscending | src/services/api.ts:115-171 | by fee, cheapest first, the demo log reads tx3, tx4, tx1, tx5, tx2 |
| MockLog.ConfirmationAscending | src/services/api.ts:115-171 | by confirmation time, fastest first, it reads tx3, tx4, tx2, tx1, tx5 |
| MockLog.NewestFirstIsArrivalOrder | src/services/api.ts:115-171 | the opening order, newest first, is the order the records arrive in |
| MockLog.OldestFirstIsReversed | src/services/api.ts:115-171 | oldest first is the arrival order reversed |
| MockLog.PolygonFilter | src/pages/TransactionsPage.tsx:80 | the `Polygon` filter shows only tx2 |
| MockLog.SearchTx2 | src/pages/TransactionsPage.tsx:75-78 | searching for `tx2` shows that record alone |
| MockLog.MockNetworkOptions | src/pages/TransactionsPage.tsx:102 | the filter menu offers Ethereum Mainnet, Polygon, Optimism, Arbitrum, in that order |
| MockLog.MockIdsShownWhole | src/pages/TransactionsPage.tsx:212 | the demo ids are short enough to be shown whole |
| Configuration.Names | src/pages/ConfigPage.tsx:22-27 | the keys are the entries' names, in property order |
| Configuration.LookupDefinedIffKey | src/pages/ConfigPage.tsx:80 | `Lookup`, which models `networks[name]`, is defined exactly when `name` is an own key of the table |
| Configuration.LookupFindsEntry | src/pages/ConfigPage.tsx:80 | what `Lookup` (`networks[name]`) reads is the settings of an entry under `name`, and with unique keys every entry under `name` is the one read |
| Configuration.Put | src/pages/ConfigPage.tsx:77-83 | an existing key keeps its place in the key order; a new key is appended |
| Configuration.PutLookup | src/pages/ConfigPage.tsx:77-83 | after the write the key holds the written settings |
| Configuration.PutLeavesOthers | src/pages/ConfigPage.tsx:77-83 | every other key keeps its settings |
| Configuration.PutKeepsNamesUnique | src/pages/ConfigPage.tsx:77-83 | writing keeps the keys unique |
| Configuration.PutPresent | src/pages/ConfigPage.tsx:77-83 | writing the settings a key already holds changes nothing |
| Configuration.PutPut | src/pages/ConfigPage.tsx:77-83 | a second write to a key overrides the first |
| Configuration.PutsCommute | src/pages/ConfigPage.tsx:77-83 | writes to two different keys commute when either key already exists |
| Configuration.ChangeSettings | src/pages/ConfigPage.tsx:79-82 | the changed field takes the new value; the other keeps its old value, or stays absent for a new entry |
| Configuration.HandleNetworkChange | src/pages/ConfigPage.tsx:74-85 | `networks[n]` is the old entry with the one field set; every other network and every top-level field is kept; the keys gain `n` at the end if it was new |
| Configuration.Apply | src/pages/ConfigPage.tsx:145-319 | a top-level setter leaves the network table alone, and a network edit changes nothing but the table |
| Configuration.EditWritesItsTarget | src/pages/ConfigPage.tsx:74-85 | after `handleNetworkChange` or any of the seven field setters, the place it writes holds exactly the value written |
| Configuration.EditLeavesOtherTargets | src/pages/ConfigPage.tsx:74-85 | every other network setting and top-level field keeps its value, the other field of the same entry included |
| Configuration.EditKeys | src/pages/ConfigPage.tsx:77-83 | a top-level setter keeps the table; a network edit makes the keys the old keys plus `n`, with a new key appended |
| Configuration.EditKeepsNamesUnique | src/pages/ConfigPage.tsx:77-83 | edits keep the table's keys unique |
| Configuration.EditIdempotent | src/pages/ConfigPage.tsx:74-85 | applying an edit twice is applying it once |
| Configuration.LaterEditWins | src/pages/ConfigPage.tsx:74-85 | of two edits of one place, the later one wins |
| Configuration.FieldChangesCommute | src/pages/ConfigPage.tsx:74-85 | setting the enabled flag and the priority of one network commute |
| Configuration.NetworkChangesCommute | src/pages/ConfigPage.tsx:74-85 | changes to two different networks commute when either network already exists; `NewNetworksKeepEditOrder` shows they do not when both are new |
| Configuration.NetworkChangesCommuteByKey | src/pages/ConfigPage.tsx:74-85 | changes to two different networks leave every place with the same value in either order |
| Configuration.EditsCommute | src/pages/ConfigPage.tsx:74-85 | edits of different places commute: exactly, unless both add new networks, and always place by place |
| Configuration.NewNetworksKeepEditOrder | src/pages/ConfigPage.tsx:77-83 | two new networks are listed in the order they were added, so those two edits do not commute exactly |
| Configuration.InitialConfigShape | src/pages/ConfigPage.tsx:30-44 | four unique keys, all enabled, ranked 1 to 4 by position with distinct priorities, and the fallback is one of them |
| Configuration.PriorityEditCanDuplicate | src/pages/ConfigPage.tsx:252 | giving polygon priority 1 leaves two networks ranked first: no edit re-checks the ranking |
| Dashboard.FirstPreferred | src/pages/DashboardPage.tsx:80 | defined exactly when the preferred list is non-empty, and then its first element |
| Dashboard.QuickRouteDecision | src/pages/DashboardPage.tsx:54-63 | Optimism, hybrid, with the recommendation equal to the selection and the fixed quick statistics, whatever the preferences |
| Dashboard.AdvancedRouteDecision | src/pages/DashboardPage.tsx:79-88 | the first preferred network; hybrid exactly when the AI fallback is on; a recommendation exactly when the fallback is on and a network is preferred, equal to the selection; fixed statistics |
| Dashboard.Badge | src/pages/DashboardPage.tsx:285 | `AI-Assisted` exactly for hybrid and `Heuristic` exactly for heuristic |
| Dashboard.ShowsAiRecommendation | src/pages/DashboardPage.tsx:305 | the panel appears only for a set recommendation, and not for the empty string |
| Dashboard.QuickRouteShowsAi | src/pages/DashboardPage.tsx:285-305 | the quick route always shows the AI badge and the recommendation panel |
| Dashboard.AdvancedPanelIffAi | src/pages/DashboardPage.tsx:285-305 | the panel appears exactly when the fallback is on and the first preferred name is non-empty, and then the badge reads `AI-Assisted` |
| Dashboard.InitialAdvancedRoute | src/pages/DashboardPage.tsx:32-37 | with the initial preferences the advanced route picks Ethereum, hybrid, recommended |
| Dashboard.ApplyPreference | src/pages/DashboardPage.tsx:199-238 | each control sets its one field, and every other field, the preferred networks included, is kept |
| Dashboard.ThresholdsDoNotMatter | src/pages/DashboardPage.tsx:79-88 | moving either threshold slider leaves the advanced decision unchanged |
| Dashboard.AiSwitchChangesOnlyMethod | src/pages/DashboardPage.tsx:81-82 | flipping the AI switch changes the method, and the recommendation when a network is preferred, but never the selection or the statistics |
| Dashboard.LaterPreferenceWins | src/pages/DashboardPage.tsx:199-238 | of two settings of one control, the later one wins |
| Dashboard.PreferenceEditsCommute | src/pages/DashboardPage.tsx:199-238 | settings of different controls commute |

## Left out

- The routing engine (fee, gas and confirmation thresholds, ranking, the AI combiner). The code has none: both handlers return fixed objects after a timer.
- Timers, the loading and saving flags, toasts, the save button and all rendering, including the `Intl.DateTimeFormat` date display. These are user-interface plumbing, not logic.
- `api.ts` apart from its mock records: the HTTP client, interceptors and `localStorage` are I/O.
- The fetch in `TransactionsPage.TransactionsView.Load` is a parameter: the records arrive as an argument, and a failed fetch, which only shows a toast, is not modelled.
- Authentication, the login page, analytics, layout and navigation are not part of this model.
- JsNumbers.ParseInt: returns an exact integer, whereas `parseInt` returns a double, so integers above 2^53 are not rounded as JavaScript rounds them.
- JsNumbers.ParseFloat: exact rationals instead of IEEE-754 doubles, so rounding, `Infinity` and overflow are not modelled; exponents are read exactly.
- Timestamps.ParseDateTime: reads only the fixed `YYYY-MM-DDTHH:MM:SSZ` form; every other text counts as an invalid date (`NaN`), whereas a JavaScript engine accepts many more formats.
- TransactionLog.DisplayId: strings are sequences of Unicode scalar values, while JavaScript's `substring(0, 6)` and `includes` count UTF-16 code units; an id or search term with characters outside the Basic Multilingual Plane is cut or matched differently.
- Timestamps.ParseDateTime: a day that does not exist in its month (`2023-02-30T00:00:00Z`, which engines roll over to 2 March) and hour 24 (which ECMAScript reads as midnight of the next day) give `None` here, not a time.
- Configuration.LookupDefinedIffKey: only the table's own keys are modelled; a name inherited from `Object.prototype`, such as `toString`, is defined in JavaScript but is `None` here.
- Text.Lower: folds only ASCII letters, not the full Unicode case mapping of `toLowerCase`.
- TransactionLog.SortBy: a comparator that returns 0 for `NaN` is not a consistent order, and the order JavaScript then produces depends on the engine. The model fixes one stable insertion sort, so its order for such inputs is one possible outcome, not the only one.
- Configuration.Put: JavaScript lists integer-like property names first, in numeric order. The model keeps insertion order for every name, which matches the four real network names.
- Configuration.HandleNetworkChange: takes the field and value as one `NetworkChange`, so the mismatched pairs the untyped handler would accept (`'enabled'` with a number) are not modelled.
- Configuration.Apply: the gas-price input passes `Number(e.target.value)`; the model takes the already converted number, so `NaN` from an empty or malformed input is not modelled.
- Dashboard.ApplyPreference: the sliders' ranges (0 to 10, 1 to 60) and steps are not enforced; any real is accepted. No control edits `preferredNetworks`, so its ordering is fixed.
- Dashboard.AdvancedRouteDecision: `selectedNetwork` is `Option`, because the page's `string` is really `undefined` when no network is preferred.
