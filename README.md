# Recurring-transaction processor, modelled in Dafny

The Balance app keeps recurrence rules: an income or expense of a fixed amount that is due every
month from a start date to an optional end date. `processRecurringTransactions` in
`app/utils/recurringProcessor.ts` turns those rules into ordinary transactions. For every rule it
moves a month cursor from the 1st of the rule's start month, at midnight, up to `now`. For each
visited month that is not after the end date it builds the tag `description + " (Recurring)"` and
the key `YYYY-MM`. It asks the store whether a transaction with that tag exists in that month and
inserts one, dated the 1st at noon, when none does. After all rules it writes `now` as the
last-check watermark. Any store error is caught and logged, and it ends the run.

The model has six modules, one per file:

- `Wrappers` (`wrappers.dfy`): `Option`.
- `Calendar` (`calendar.dfy`): JavaScript `Date`s as local calendar fields.
  - The `Date` operations modelled: `setDate(1)`, `setHours`, `setMonth(getMonth() + 1)`, the field reads `getFullYear()` and `getMonth()`, and the comparisons `<=` and `>=`.
  - The copies made with `new Date(d)` are values here. `toISOString` is left out (see below).
  - Month arithmetic on `(year, month)` pairs.
- `MonthKeys` (`month_keys.dfy`): the duplicate-check key `String(year) + "-" + month.padStart(2, '0')`, and a parser that reads every key back to the month it was built from.
- `Ledger` (`ledger.dfy`): the rule and transaction records, the tag, and the existence query.
  - It also has the `Store` class: the transaction table, the rule table and the watermark, as fields that the store methods update in place.
- `Schedule` (`schedule.dfy`): what one run does, stated as values.
  - The months a rule's cursor visits, the slots (rule, month) in which the rule is active, and the plan (all slots in run order).
  - `Materialize`: the table after a run's check-then-insert steps.
  - The lemmas about them: idempotence, only-append, one row per (tag, month), recovery after an interrupted run, and backfill.
- `RecurringProcessor` (`recurring_processor.dfy`): the processor as imperative code over the `Store`.
  - The rule loop (`for`), the month loop (`while`, advancing a `Date` cursor) and the check-then-insert.
  - Each loop body is its own method so that each proof stays small. Each method is proved against `Schedule`.

The clock (`new Date()`) is the parameter `now`. Store failures are the parameter `faultAt`: the
ordinal, from 0, of the store call that throws. The store calls are:

1. `getLastCheckDate`
2. `getRecurringTransactions`
3. one duplicate check per due month
4. one insert per added row
5. `setLastCheckDate`

`ProcessRecurringTransactions` returns whether the run got to its end. This stands in for the
`catch` that logs the error.

## Model

| member | source | states |
|---|---|---|
| RecurringProcessor.ProcessRecurringTransactions | app/utils/recurringProcessor.ts:3-66 | The run completes exactly when the failing call, if any, lies beyond the calls a complete run makes. A completed run leaves the table Materialize says (each due slot's row, added only when the duplicate check found none) and sets the watermark to `now`. When call `faultAt` fails, the watermark is unchanged, the old rows stay, and the table is the one left by the plan prefix after which that call is made (StoppedAt; FailedRunDetermined shows that this prefix is unique). The rules are never changed, and the old watermark has no influence. |
| RecurringProcessor.ProcessRules | app/utils/recurringProcessor.ts:12-59 | The loop over the rules, in the order the store returned them. On success the table is Materialize over the whole plan, and the store-call count is exact. On failure it returns the prefix `stop` reached: the table is Materialize over `stop`, and the failing call is made after `stop` and before the next slot is done with. |
| RecurringProcessor.ProcessRule | app/utils/recurringProcessor.ts:12-58 | One rule: the cursor walks from the 1st of the start month while it is not later than `now`. On success the run's progress grows by exactly that rule's slots. On failure the prefix `stop` reached lies within the rule's slots, the table is Materialize over it, and the failing call falls right after it. |
| RecurringProcessor.ProcessMonth | app/utils/recurringProcessor.ts:24-57 | One visited month: the progress grows by that month's slot when `isAfterStart && isBeforeEnd`, and by nothing otherwise. On failure the table is unchanged and the failing call falls after the earlier months' slots. |
| RecurringProcessor.ProcessSlot | app/utils/recurringProcessor.ts:30-53 | The check-then-insert for one month: the table grows by the slot's Occurrence exactly when no row with the tag exists in that month. When the check or the insert fails, the table is unchanged and the failing call falls after the slots done before. |
| RecurringProcessor.MonthsSoFar | app/utils/recurringProcessor.ts:23-57 | The slots of the months visited so far run from the rule's first slot to its last, and lie in the plan. |
| RecurringProcessor.CursorActive | app/utils/recurringProcessor.ts:25-28 | `isAfterStart && isBeforeEnd` for a cursor at the 1st of a month is month-level: the month is from the start month through the end month, and the end month is included. |
| RecurringProcessor.AfterStartAlways | app/utils/recurringProcessor.ts:25 | `isAfterStart` holds in every visited month. |
| RecurringProcessor.CursorBeforeNow | app/utils/recurringProcessor.ts:23 | The loop test `currentMonth <= now` holds for the `k`-th visited month exactly while `k` is below the number of months from the start month through `now`'s month. |
| RecurringProcessor.CursorAdvance | app/utils/recurringProcessor.ts:57 | `setMonth(getMonth() + 1)` moves the cursor from the 1st of one month to the 1st of the next. |
| RecurringProcessor.SlotCalls | app/utils/recurringProcessor.ts:39-50 | Each processed slot costs one duplicate check, plus one insert exactly when its row was missing. |
| RecurringProcessor.CallsMadeAtLeast | app/utils/recurringProcessor.ts:5-53 | After the slots of `done`, at least the two reads and one call per slot have been made. |
| RecurringProcessor.CallsMadeMonotone | app/utils/recurringProcessor.ts:12-58 | Processing more of the plan never takes fewer store calls. |
| RecurringProcessor.CallsWithinRun | app/utils/recurringProcessor.ts:39-61 | After any prefix of the plan, fewer calls have been made than a complete run makes, and setLastCheckDate is still to come. |
| RecurringProcessor.FailsWithinRun | app/utils/recurringProcessor.ts:5-61 | A call at which a run can stop is one the complete run makes. |
| RecurringProcessor.NoLaterStop | app/utils/recurringProcessor.ts:12-58 | A failing call that falls before the next slot is done with cannot also fall after a longer prefix. |
| RecurringProcessor.FailingCallFixesPrefix | app/utils/recurringProcessor.ts:4-65 | For a given failing call, only one prefix of the plan fits it. |
| RecurringProcessor.FailedRunDetermined | app/utils/recurringProcessor.ts:4-65 | The table a failed run leaves is determined by which call failed. |
| RecurringProcessor.RowsBeforeFailureRemain | app/utils/recurringProcessor.ts:63-65 | Nothing is rolled back: the rows of every plan prefix whose calls all came before the failing one are still in the table, in order. |
| RecurringProcessor.FourthCallAfterFirstSlot | app/utils/recurringProcessor.ts:5-50 | On an empty table, call 4 comes after the first slot's check and insert and before the second slot is done with. |
| RecurringProcessor.GymFailsAtFebruaryCheck | app/utils/recurringProcessor.ts:3-66 | A rule without an end date whose start month is three months before `now`'s (the "Gym" example: January..April) runs on an empty table with call 4 failing. That call is the second month's check, so exactly the first month's row is left. |
| Calendar.StartOfMonth | app/utils/recurringProcessor.ts:13-15 | Gives the same month, not after the date, and not after any other instant of that month. |
| Calendar.NoonOnFirst | app/utils/recurringProcessor.ts:30-32 | Gives the same month, on the 1st at 12:00:00.000. |
| Calendar.AddOneMonth | app/utils/recurringProcessor.ts:57 | Gives the next month (December rolls into January of the next year), with the day and time unchanged. |
| Calendar.AtOrBefore | app/utils/recurringProcessor.ts:23-26 | Defines `<=` on two `Date`s (and `>=` with the operands swapped) as the field-by-field chronological comparison. It has no contract of its own; AtOrBeforeTotalOrder states its properties. |
| Calendar.AtOrBeforeTotalOrder | app/utils/recurringProcessor.ts:23-26 | The comparison is a total order: any two instants compare, only equal ones compare both ways, and it is transitive. |
| Calendar.MonthStartAtOrBefore | app/utils/recurringProcessor.ts:23 | Comparing the 1st of a month, midnight, with any date is comparing months. |
| Calendar.AddMonths | app/utils/recurringProcessor.ts:57 | `k` steps of the cursor add `k` to the month index. |
| Calendar.AddMonthsExample | app/utils/recurringProcessor.ts:57 | January 2025 plus 0..3 months is January..April 2025. November 2024 plus two months is January 2025. |
| MonthKeys.MonthKey | app/utils/recurringProcessor.ts:35 | The key is the decimal year, a dash, and the month as two digits. |
| MonthKeys.PadTwo | app/utils/recurringProcessor.ts:35 | `padStart(2, '0')` of a number below 100 is its two decimal digits. |
| MonthKeys.NatToDecimal | app/utils/recurringProcessor.ts:35 | `String(n)` is a non-empty string of digits, and it has one digit exactly when `n < 10`. |
| MonthKeys.IntToDecimal | app/utils/recurringProcessor.ts:35 | `String(year)`: non-empty, a leading minus exactly for a negative year, and digits after it. |
| MonthKeys.IntToDecimalRoundTrip | app/utils/recurringProcessor.ts:35 | Parsing `String(year)` gives the year back, negative years included. |
| MonthKeys.MonthKeyRoundTrip | app/utils/recurringProcessor.ts:35 | Parsing the key gives the month back. |
| MonthKeys.MonthKeyInjective | app/utils/recurringProcessor.ts:35 | Two months have the same key exactly when they are the same month. |
| MonthKeys.MonthKeyExample | app/utils/recurringProcessor.ts:35 | The key of April 2025 is "2025-04" and that of December 2024 is "2024-12". |
| Ledger.RecurringTag | app/utils/recurringProcessor.ts:36 | The tag is the description followed by " (Recurring)". |
| Ledger.RecurringTagInjective | app/utils/recurringProcessor.ts:36 | Two descriptions give the same tag exactly when they are equal. |
| Ledger.RecurringTagExample | app/utils/recurringProcessor.ts:36 | The tag of "Gym" is "Gym (Recurring)". |
| Ledger.MatchesMonth | app/utils/recurringProcessor.ts:35-39 | A row answers the query for a month's key exactly when it has the tag and was created in that month. |
| Ledger.HasMatchMonth | app/utils/recurringProcessor.ts:35-39 | The existence query with a month's key finds a row exactly when some row has the tag and was created in that month. |
| Ledger.Store.CheckRecurringTransactionExists | app/utils/recurringProcessor.ts:39 | The result is true exactly when some stored row has the tag as its description and its creation month formats to the key (the `created_at LIKE 'YYYY-MM%'` filter). |
| Ledger.Store.AddTransaction | app/utils/recurringProcessor.ts:44-50 | Appends one row and changes nothing else. |
| Ledger.Store.GetLastCheckDate | app/utils/recurringProcessor.ts:5 | Returns the watermark. |
| Ledger.Store.GetRecurringTransactions | app/utils/recurringProcessor.ts:7 | Returns the rules in table order. |
| Ledger.Store.SetLastCheckDate | app/utils/recurringProcessor.ts:61 | Sets the watermark and changes nothing else. |
| Schedule.MonthsVisited | app/utils/recurringProcessor.ts:20-23 | Defines the months the cursor visits. MonthsVisitedExact states which they are. |
| Schedule.MonthsVisitedExact | app/utils/recurringProcessor.ts:13-23 | The visited months are exactly the consecutive months from the start month through `now`'s month, in increasing order. There are none when the start month is later. |
| Schedule.MonthRangeAt | app/utils/recurringProcessor.ts:57 | The `i`-th visited month is the start month plus `i` months. |
| Schedule.Active | app/utils/recurringProcessor.ts:25-28 | Defines the month-level form of `isAfterStart && isBeforeEnd`. CursorActive proves it equal to the source's test. |
| Schedule.ActiveSlotsMembers | app/utils/recurringProcessor.ts:25-28 | A slot is produced exactly for a visited month in which the rule is active. |
| Schedule.RuleSlotsExact | app/utils/recurringProcessor.ts:17-28 | A rule is due in a month exactly when the month is from the start month through `now`'s month and not after the end month. The end month is included, and without an end date only `now` bounds the months. |
| Schedule.ActiveSlotsIncreasing | app/utils/recurringProcessor.ts:23-57 | The slots come in strictly increasing month order. |
| Schedule.RuleSlotsIncreasing | app/utils/recurringProcessor.ts:23-57 | Within one rule, the months of the slots strictly increase. |
| Schedule.Plan | app/utils/recurringProcessor.ts:12 | Defines the run's slots: each rule's due slots, rule after rule. PlanMembers states which slots it holds. |
| Schedule.PlanMembers | app/utils/recurringProcessor.ts:12-28 | The plan holds a slot exactly when its rule is one of the rules and the rule is due in its month. |
| Schedule.ActiveSlotsPrefix | app/utils/recurringProcessor.ts:23-57 | The slots of the first `k` visited months are a prefix of those of the first `n` months. |
| Schedule.PlanPrefix | app/utils/recurringProcessor.ts:12 | The plan of the first `i` rules is a prefix of the whole plan. |
| Schedule.Occurrence | app/utils/recurringProcessor.ts:30-50 | The generated row has the rule's kind, amount and category, the tagged description, and a creation time of the 1st of the slot's month at 12:00:00.000. The duplicate check of its own slot finds it. |
| Schedule.OccurrenceMatchesOnly | app/utils/recurringProcessor.ts:35-39 | A generated row answers the duplicate check of exactly one (tag, month). |
| Schedule.Step | app/utils/recurringProcessor.ts:39-50 | One check-then-insert keeps every existing row, adds at most one, and afterwards the slot's duplicate check finds a row. |
| Schedule.Materialize | app/utils/recurringProcessor.ts:12-58 | Defines the table after the slots of a plan are processed in order, one Step each. The lemmas below state its properties. |
| Schedule.MaterializeAppends | app/utils/recurringProcessor.ts:41-53 | A run only appends: old rows stay unchanged and in place, and at most one row is added per slot. |
| Schedule.MaterializePrefix | app/utils/recurringProcessor.ts:12-58 | Processing a prefix of the plan leaves a prefix of the final table. |
| Schedule.MaterializeCovers | app/utils/recurringProcessor.ts:39-53 | After a run, every due (tag, month) has at least one row. |
| Schedule.MaterializeCovered | app/utils/recurringProcessor.ts:39-41 | A run whose every due (tag, month) already has a row changes nothing. |
| Schedule.MaterializeIdempotent | app/utils/recurringProcessor.ts:39-41 | A second run with the same rules and the same `now` inserts nothing. |
| Schedule.MaterializeConcat | app/utils/recurringProcessor.ts:12-58 | Processing `a` and then `b` is processing `a + b`. |
| Schedule.ResumeAfterInterruption | app/utils/recurringProcessor.ts:63-65 | A run that stopped after some prefix of the plan, followed by a complete run, leaves the table one complete run leaves. |
| Schedule.MaterializeInsertsFirst | app/utils/recurringProcessor.ts:39-50 | Each appended row is the Occurrence of a slot of the plan, and no earlier row answered that slot's check. |
| Schedule.MaterializeOnlyMissing | app/utils/recurringProcessor.ts:41-53 | Each added row is generated for a slot whose (tag, month) had no row before the run. |
| Schedule.MaterializeFillsMissing | app/utils/recurringProcessor.ts:39-53 | Every due slot whose (tag, month) had no row before the run gets an added row. |
| Schedule.MaterializeFirstPerKey | app/utils/recurringProcessor.ts:39-53 | An added row is the first with its (tag, month). So one run adds at most one row per (tag, month), and none for a (tag, month) that already had one. |
| Schedule.SharedDescription | app/utils/recurringProcessor.ts:35-39 | The key does not include the rule id. A second rule with the same description adds nothing for a month the first has been processed for. |
| Schedule.MaterializeFresh | app/utils/recurringProcessor.ts:39-50 | Slots with distinct (tag, month) that have no row yet each append their Occurrence, in plan order. |
| Schedule.FreshLastMissing | app/utils/recurringProcessor.ts:39-41 | Within such a run, the last slot still has no row when its turn comes. |
| Schedule.FreshOnEmpty | app/utils/recurringProcessor.ts:39-50 | On an empty table, slots with distinct (tag, month) each add their Occurrence, in plan order. |
| Schedule.ActiveSlotsAllActive | app/utils/recurringProcessor.ts:25-28 | When the rule is active in every visited month, each month gives one slot, in order. |
| Schedule.RuleSlotsWithoutEndDate | app/utils/recurringProcessor.ts:17-28 | Without an end date, the rule is due in every month from its start month through `now`'s. |
| Schedule.PlanSingle | app/utils/recurringProcessor.ts:12 | The plan of a single rule is that rule's slots. |
| Schedule.RuleSlotsDistinct | app/utils/recurringProcessor.ts:35-39 | One rule's slots never share a (tag, month) key. |
| Schedule.BackfillWithoutEndDate | app/utils/recurringProcessor.ts:12-58 | A rule without an end date, run on an empty table, produces one row per month from its start month through `now`'s, each at noon on the 1st. |
| Schedule.GymExample | app/utils/recurringProcessor.ts:12-58 | A 12.99 "Gym" rule starting three months before `now`'s month (2025-01-15 with `now` 2025-04-10) gives four rows. Each row is tagged "Gym (Recurring)" and falls at noon on the 1st of consecutive months. |

## Left out

- Time zones, daylight saving and the UTC rendering of `toISOString`. Dates are local calendar fields. The stored `created_at` is the local noon, and the key is computed from that same local date, as the code does.
- How JavaScript parses the rule's date strings (`new Date(rule.start_date)`). A date-only string is read as UTC midnight, so in a zone west of UTC it can fall in the previous local month. Rules hold parsed, valid dates. Invalid date strings (`Invalid Date`, on which every comparison is false) are not modelled.
- An empty `end_date` string is falsy and means "no end date". The model has `Option`, and the parsing of the column is not modelled.
- `amount` is a JavaScript number that the processor only copies. It is a `real` here, and floating point is not modelled.
- Transaction ids, which the database assigns, and the other columns the processor never reads.
- Console logging, including the `lastCheck.toISOString()` line. The watermark is read but has no effect on what is processed, which the contract states.
- The SQL behind the store helpers (`expo-sqlite`). The store is in memory. The existence check is "some row has the tag as its description and a creation month whose key is the given one", in the style of the `created_at LIKE` queries of `app/database/database.ts:108-115`.
- Concurrency: two overlapping runs can race between a check and an insert. Every call is awaited in turn, so a single run is sequential, and that is what is modelled.
- Thrown errors are the parameter `faultAt`, which names the failing store call. A failing call has no effect. The `catch` that logs and swallows the error is the `false` result.
- Per-rule isolation of failures is not modelled. The code stops the whole run at the first thrown error, and the model follows the code.
