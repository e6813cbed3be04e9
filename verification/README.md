# Calma growth engine and client helpers in Dafny

Calma is a calm-productivity app. Users complete tasks, focus sessions,
journal entries and habits, and these actions "grow" five traits:
consistency, attention, momentum, awareness and learning. This project is a
Dafny model of the app's core logic, with proofs about it.

The server-side growth engine:

- **Tables.** The trait keys and labels, the XP threshold curve, the
  title table and the pair-to-archetype table (modules `Traits`,
  `Archetypes`).
- **The growth record.** Its schema bounds and its derived fields: total
  level, total XP, title and archetype (module `Growth`).
- **Awards.** `applyTraitXP` with its level-up loop and the
  recent-growth history. The dispatch of action strings to XP awards,
  including the focus-session and seven-day-streak cases (module
  `GrowthService`).
- **The per-user store.** The get-or-create step and what a save touches
  (module `GrowthStore`).
- **The read-only view.** Per-trait required XP and progress percentage,
  as the growth panel receives them. Also the panel's "next level in N
  growth points" minimum, its trait rows and its three recent messages
  (module `GrowthView`).

The client-side helpers:

- The habit calendar's month grid and its `isFuture` date-string test
  (module `HabitGrid`).
- The focus timer's state machine and its `MM:SS` rendering (module
  `FocusTimer`).
- The Tasks page's split into open and done tasks, their two sort orders,
  and the blank-title guard (module `TaskList`).

Shared pieces:

- `Options`: an `Option` type.
- `Strings`: JavaScript string order, `String(n)`, `padStart`, and
  decimal digit strings.
- `Sorting`: a stable sort on pair keys. It stands in for JavaScript's
  stable `Array.prototype.sort` with a numeric comparator; each comparator
  in the source becomes a key.

Modelling choices:

- **Threshold curve.** `Math.pow(level, 1.5)` becomes exact integer
  arithmetic. `floor(100 + 40·L^1.5)` equals `100 + isqrt(1600·L³)`, and
  `Traits.RequiredXPIsFloorOfFormula` states this through squares.
- **The traits sub-document is a five-field record.** The schema gives
  every trait its default, so all five keys are always present.
- **The store is a `map` from user id to record.** The schema makes the
  user id unique.
- **Date-based counts are inputs.** The number of focus sessions today and
  the number of the last seven days on which a habit was completed are
  given as natural numbers.
- **Times are inputs.** "Now", and the weekday and length of a month, are
  also parameters. Timestamps are integers.
- **Progress is exact.** `progressPercent` is an exact `real`.

## Model

| member | source | states |
|---|---|---|
| Traits.TraitKeysEnumerateAll | server/config/traits.js:4 | There are exactly five trait keys, all different, in the order consistency, attention, momentum, awareness, learning. Every trait occurs among them, and no two traits share a name. |
| Traits.LabelCapitalisesName | server/config/traits.js:6-12 | Every display label is its key's name with the first letter upper-cased. |
| Traits.RequiredXP | server/config/traits.js:24-29 | The threshold is `Infinity` exactly at and above the cap of 50. Every finite threshold is at least 100. |
| Traits.RequiredXPIsFloorOfFormula | server/services/growthService.js:10-13 | Below the cap, the threshold `x` is the integer part of `100 + 40·L^1.5`: `(x−100)² ≤ 1600·L³ < (x−99)²`. |
| Traits.RequiredXPSamples | server/config/traits.js:26-29 | Levels 1, 2, 4 and 49 need 140, 213, 420 and 13820 XP. Level 50 needs `Infinity`. |
| Traits.RequiredXPStrictlyIncreasing | server/services/growthService.js:10-13 | Below the cap, a higher level needs strictly more XP. |
| Traits.GetTitle | server/config/traits.js:31-39 | Below 5 the title is the default "The Beginner". Otherwise it is the title of the largest threshold that the total level reaches. |
| Traits.TitleIndexMonotone | server/config/traits.js:32-37 | A higher total level never selects a lower threshold. |
| Traits.GetTitleSamples | server/config/traits.js:14-22 | Total level 4 gives "The Beginner", 22 gives "Deep Worker", and any level from 50 up gives "Master of Flow". |
| Archetypes.ArchetypeTableShape | server/config/archetypes.js:5-16 | The archetype table has ten entries, each with a different key. |
| Archetypes.ArchetypeTableCoversAllPairs | server/config/archetypes.js:5-16 | Every pair of different traits has its canonical key in the table. |
| Archetypes.ArchetypeTableKeysCanonical | server/config/archetypes.js:5-16 | Every key of the table is the canonical key of some pair of different traits. |
| Archetypes.PairKeyInjective | server/config/archetypes.js:23-27 | Two pairs with the same canonical key are the same unordered pair. So each pair occurs in the table exactly once. |
| Archetypes.PairKeyOrderFree | server/config/archetypes.js:23-27 | The key does not depend on the order of the two names. |
| Archetypes.NameOrder | server/config/archetypes.js:26 | JavaScript string order on the five names is alphabetical order. |
| Archetypes.ArchetypeOfTopTwo | server/config/archetypes.js:18-29 | With two or more numeric entries, the archetype is looked up from the highest-level entry and the highest among the rest. Ties go to the earlier entry. |
| Archetypes.ClearLeadersDecide | server/config/archetypes.js:22-28 | A clear leader and a clear runner-up decide the archetype, wherever they stand in the input. |
| Archetypes.RunnerUpTieGoesToEarlier | server/config/archetypes.js:22 | A tie for second place goes to the entry that comes first (stable sort). |
| Archetypes.FewerThanTwoIsDefault | server/config/archetypes.js:28 | With fewer than two numeric entries the result is "The Beginner". |
| Archetypes.SingleNameNotInTable | server/config/archetypes.js:28 | A key made of a single name (or empty) is not in the table. |
| Archetypes.NonNumericIgnored | server/config/archetypes.js:20 | An entry whose level is not a number does not change the result. |
| Archetypes.LookupInTable | server/config/archetypes.js:28 | A table key looks up its own archetype, which is a named one and not the default. |
| Archetypes.LookupNotInTable | server/config/archetypes.js:28 | Any other key looks up "The Beginner". |
| Archetypes.LookupSamples | server/config/archetypes.js:8 | consistency with momentum gives "The Architect". Learning with attention, given in that order, gives "The Scholar". |
| Archetypes.GetArchetype | server/config/archetypes.js:18-29 | The result is always one of the ten archetype names or "The Beginner". Which one is stated by `Archetypes.ArchetypeOfTopTwo` and `Archetypes.ClearLeadersDecide`. |
| Archetypes.DistinctEntriesAreMapped | server/config/archetypes.js:23-28 | Take entries with different keys, at least two of them numeric. The result is one of the ten named archetypes, never the default or "". |
| Sorting.SortPermutes | server/config/archetypes.js:22 | The sort keeps exactly the elements it is given (same multiset). |
| Sorting.SortOrders | server/config/archetypes.js:22 | The sorted result is ordered by key. |
| Sorting.SortStable | client/src/pages/Tasks.jsx:180-188 | For every key, the elements carrying it keep their input order. |
| Sorting.Sort | client/src/pages/Tasks.jsx:180-188 | The stable `Array.prototype.sort` keeps the length; `Sorting.SortPermutes`, `Sorting.SortOrders` and `Sorting.SortStable` state that it permutes, orders and keeps ties in place. |
| Growth.InitialRecordIsValid | server/services/growthService.js:15-28 | A fresh record has every trait at level 1 with 0 XP. Its total level is 1, its total XP 0, its title "The Beginner" and its archetype "". It is within the schema bounds, and its total level, total XP and title agree with its traits. |
| Growth.TotalXPIsSum | server/services/growthService.js:58 | The total XP is the sum of the five XP values. |
| Growth.TotalLevelBounds | server/models/Growth.js:22 | With every level in [1, 50], `floor(sum / 5)` is in [1, 50]. |
| Growth.Recompute | server/services/growthService.js:51-60 | Total level, total XP, title and archetype agree with the traits afterwards, and nothing else changes. Valid traits and a short history give a record within the schema bounds. |
| Growth.EntriesComplete | server/config/archetypes.js:19-21 | `Object.entries` of the traits has five distinct keys, and every level is a number. |
| Growth.DerivedArchetypeIsMapped | server/services/growthService.js:60 | The archetype recomputed from a full set of traits is always one of the ten named ones, never "The Beginner" or "". |
| Growth.ArchitectSample | server/config/archetypes.js:18-29 | A record with consistency at level 10, momentum at 8 and every other trait fresh gets the archetype "The Architect". |
| GrowthService.Settle | server/services/growthService.js:37-40 | After the level-up loop the level has not dropped. It has not passed 50 unless it started above. The XP spent is exactly the cost of the levels climbed. Below the cap, what remains is less than the next threshold. |
| GrowthService.SettleUnique | server/services/growthService.js:37-40 | The loop's result is the only state with those properties. |
| GrowthService.SettleAtCap | server/services/growthService.js:37 | At the cap the loop does nothing and XP simply accumulates. |
| GrowthService.SettleSample | server/services/growthService.js:37-40 | From level 1, 400 XP climb two levels (140 + 213) and leave 47. |
| GrowthService.Announced | server/services/growthService.js:45-49 | With no level-up the history is unchanged. Otherwise the new items come first, newest first, and the old history follows in its order, the whole cut to min(old length + count, 5) items. A history of at most 5 stays so. |
| GrowthService.AnnouncedTwice | server/services/growthService.js:81-82 | Announcing two batches in turn, each cut to five, is announcing them together. |
| GrowthService.Raise | server/services/growthService.js:30-49 | The other four traits are unchanged, and the target trait is settled from its level and its XP plus the amount. `[key]` is reported exactly when its level rose. The history changes only then. |
| GrowthService.RaiseKeepsTraitsValid | server/models/Growth.js:5 | Adding XP keeps every level in [1, 50] and never lowers one. |
| GrowthService.ApplyTraitXP | server/services/growthService.js:30-65 | `applyTraitXP` on a record: as `Raise`, plus derived fields that agree with the traits and a record that stays within the schema bounds. |
| GrowthService.Dedup | server/services/growthService.js:83 | `[...new Set(s)]` has the same elements as `s`, without repeats, ordered by where each first occurs in `s`. |
| GrowthService.DedupOfDistinct | server/services/growthService.js:83 | A list without repeats is its own de-duplication. |
| GrowthService.ParseAction | server/services/growthService.js:68-107 | A known case is selected only by its own action string. |
| GrowthService.ParseActionName | server/services/growthService.js:68-107 | Each action string selects its case. Any other string selects the default case. |
| GrowthService.AwardsAtMostTwo | server/services/growthService.js:68-105 | Only the focus session awards two traits, and those are attention and consistency. |
| GrowthService.NothingAwarded | server/services/growthService.js:93-107 | The award is empty exactly for an unknown action, or for a streak without a habit id or with fewer than seven days done. |
| GrowthService.AwardTable | server/services/growthService.js:68-107 | The XP each action type awards: momentum 5 or 8, consistency 3 or 15 (the streak only with a habit done on all seven days), attention 10 with consistency 3 or 8 for a focus session, awareness 6 or 3, learning 8; nothing otherwise. `GrowthService.AwardsAtMostTwo` and `GrowthService.NothingAwarded` state its shape. |
| GrowthService.RisenSpec | server/services/growthService.js:43 | A trait is reported exactly when it was awarded XP and its level rose. |
| GrowthService.RisenDistinct | server/services/growthService.js:83 | Each trait is reported at most once, in award order. |
| GrowthService.RaiseIsAwarded | server/services/growthService.js:69-74 | A single-trait action is one `applyTraitXP` step applying its award. |
| GrowthService.RaiseFocusIsAwarded | server/services/growthService.js:75-86 | The focus session gives attention 10, then consistency 8 or 3. It reports the joined, de-duplicated level-ups, and the history holds both announcements. |
| GrowthService.RaiseFocus | server/services/growthService.js:75-85 | Attention first, then consistency, and the joined reports de-duplicated. `GrowthService.RaiseFocusIsAwarded` states that this applies the focus award. |
| GrowthService.FocusTraits | server/services/growthService.js:81-82 | The focus session's two steps settle attention and consistency and touch nothing else. |
| GrowthService.FocusReports | server/services/growthService.js:83 | The de-duplicated union is the two lists joined, attention first. |
| GrowthService.RaiseActionIsAwarded | server/services/growthService.js:67-108 | Every action's steps apply its row of the award table. |
| GrowthService.RaiseAction | server/services/growthService.js:68-107 | The `switch` of `applyAction`, one trait step per award. `GrowthService.RaiseActionIsAwarded` states that it applies the action's row of `GrowthService.AwardTable`. |
| GrowthService.RaiseActionKeepsTraitsValid | server/models/Growth.js:5 | No action moves a level out of [1, 50] or lowers one. |
| GrowthService.ApplyAction | server/services/growthService.js:67-108 | The action's award is applied. If anything was awarded, the derived fields agree with the traits. The record stays within the schema bounds. |
| GrowthStore.GetOrCreate | server/services/growthService.js:15-28 | Afterwards the user has a record. An existing one is returned with nothing changed; otherwise the fresh record is stored and returned. No other user is affected. |
| GrowthStore.GetOrCreateKeepsValid | server/services/growthService.js:17-25 | Creating a record keeps every stored record within the schema bounds. |
| GrowthStore.SaveTouchesOnlyUser | server/models/Growth.js:16-21 | Saving one user's record after the read changes no other user's record. |
| GrowthStore.PerformTraitXP | server/services/growthService.js:30-65 | Only the user's record is written. The written record is the one returned, and its trait step is as in `Raise` with derived fields that agree. Store validity is preserved. |
| GrowthStore.PerformAction | server/services/growthService.js:67-108 | Only the user's record is written, and the award is applied to it. An empty award saves nothing beyond the created record and reports nothing. Store validity is preserved. |
| GrowthView.Progress | server/services/growthService.js:120 | `min(100, x/d·100)` lies in [0, 100]. It is 100 exactly when `x ≥ d`, and otherwise equals `x·100/d`. |
| GrowthView.ViewTrait | server/services/growthService.js:114-121 | Level and XP are copied. `requiredXP` is null exactly at the cap, and otherwise is the threshold. Progress is 100 at the cap; below it, it is the share of the threshold the XP covers, as `GrowthView.Progress` states it. |
| GrowthView.FormatGrowth | server/services/growthService.js:111-131 | The scalar fields are copied and every trait key has its view. The history is the first min(n, 5) items. |
| GrowthView.FormatGrowthKeepsValidRecent | server/services/growthService.js:129 | A record within bounds has its whole history returned. |
| GrowthView.SettledProgressBelowFull | server/services/growthService.js:120 | After the level-up loop, a trait below the cap shows progress below 100 and a threshold. |
| GrowthView.RemainingUnique | client/src/components/growth/GrowthPanel.jsx:28-35 | At most one value meets the description of `remainingXP`. |
| GrowthView.RemainingXP | client/src/components/growth/GrowthPanel.jsx:28-35 | The result is null exactly when no trait qualifies (below 50 with a threshold). Otherwise it is the least `max(0, requiredXP − xp)` over qualifying traits, attained by one of them. |
| GrowthView.TraitRows | client/src/components/growth/GrowthPanel.jsx:67-78 | Rows come in trait-key order, one per present trait, each with its label, level and progress. Absent traits are skipped. |
| GrowthView.RecentMessages | client/src/components/growth/GrowthPanel.jsx:93 | Shows the messages of the first min(n, 3) history items. |
| GrowthView.RenderPanel | client/src/components/growth/GrowthPanel.jsx:8-102 | Always shows the level and the title. The details are present exactly when the panel is expanded; the panel starts collapsed and its header button toggles it. Expanded, it shows the trait rows and at most three messages, and the "next level" line appears exactly when the total level is below 50 and some trait qualifies, holding `remainingXP`. |
| GrowthView.NextLevelShownBelowCap | client/src/components/growth/GrowthPanel.jsx:81 | Take valid traits whose recomputed total level is below 50. Some trait qualifies, so the line is shown. |
| HabitGrid.MonthGrid | client/src/components/habits/HabitActivityGrid.jsx:5-32 | There are `ceil((startDay + days) / 7)` rows of seven cells. Blanks come before the 1st, each day sits at position `startDay + d − 1`, and `null` follows the last day. |
| HabitGrid.PlaceDay | client/src/components/habits/HabitActivityGrid.jsx:17-25 | Each day fills its column of the current week. The week is pushed when it is full or the month ends. |
| HabitGrid.EachDayOnce | client/src/components/habits/HabitActivityGrid.jsx:17-20 | Day `d` is at position `startDay + d − 1` and nowhere else. |
| HabitGrid.BlanksLeadTheFirstRow | client/src/components/habits/HabitActivityGrid.jsx:13-15 | Placeholders are exactly the cells before the first day, all in the first row. |
| HabitGrid.DateStrFixedWidth | client/src/components/habits/HabitActivityGrid.jsx:19 | Take a four-digit year, and a month and day below 100. The date string is `YYYY-MM-DD` with zero-padded fields, ten characters long. |
| HabitGrid.DateStr | client/src/components/habits/HabitActivityGrid.jsx:19 | Year, padded month and padded day joined by dashes. `HabitGrid.DateStrFixedWidth` states its fixed `YYYY-MM-DD` form. |
| HabitGrid.IsFutureIsChronological | client/src/components/habits/HabitActivityGrid.jsx:34-37 | For four-digit years, comparing date strings is comparing dates. |
| HabitGrid.IsFuture | client/src/components/habits/HabitActivityGrid.jsx:34-37 | The date string sorts after today's. `HabitGrid.IsFutureIsChronological` states that this is calendar order. |
| FocusTimer.Tick | client/src/context/FocusTimerContext.jsx:13-20 | At one second or less the timer stops at 0 with time up. Otherwise it counts down by exactly one. It never goes negative. |
| FocusTimer.Step | client/src/context/FocusTimerContext.jsx:10-45 | A second without a due tick does nothing. `start` clears time-up and runs, and `pause` only stops. `reset` restores the initial state. A preset is ignored while running, and otherwise sets the time and clears time-up. |
| FocusTimer.InitialConsistent | client/src/context/FocusTimerContext.jsx:6-8 | The initial state is 1500 s, not running and not timed out, and it is consistent. |
| FocusTimer.StepConsistent | client/src/context/FocusTimerContext.jsx:10-45 | Every event keeps the time non-negative. Time-up means stopped at zero. |
| FocusTimer.ReplayConsistent | client/src/context/FocusTimerContext.jsx:10-45 | Any sequence of events keeps the timer consistent. |
| FocusTimer.CountDown | client/src/context/FocusTimerContext.jsx:11-20 | A running timer with `t` seconds left counts down one per second. After `t` seconds it has stopped at zero with time up. |
| FocusTimer.StoppedStays | client/src/context/FocusTimerContext.jsx:11 | No tick is due while stopped. |
| FocusTimer.FormatTime | client/src/context/FocusTimerContext.jsx:47-51 | The rendering has a colon before the last two characters. It has five characters below 100 minutes. |
| FocusTimer.FormatTimeRoundTrip | client/src/context/FocusTimerContext.jsx:47-51 | Both fields are digits and the seconds are below 60. Minutes·60 + seconds gives back the time. |
| TaskList.PriorityRank | client/src/pages/Tasks.jsx:181-182 | The rank is 0 exactly for "high" and 2 exactly for "low". Anything else ranks 1: "normal", a missing or empty priority, or an unknown value. |
| TaskList.FindOrderTable | client/src/pages/Tasks.jsx:7-11 | The priority table finds "high", "normal" and "low" at orders 0, 1 and 2, and finds nothing else. |
| TaskList.FilterSplits | client/src/pages/Tasks.jsx:179 | The open and the done tasks together are the whole list, as a multiset. |
| TaskList.PartitionIsPermutation | client/src/pages/Tasks.jsx:178-188 | The two lists together are the whole list: nothing is added or lost. The open list holds only open tasks, and the done list only done ones. |
| TaskList.IncompleteOrder | client/src/pages/Tasks.jsx:180-185 | Open tasks go high before normal before low. Within a priority the newest comes first, and a missing time counts as 0. |
| TaskList.CompletedOrder | client/src/pages/Tasks.jsx:186-188 | Done tasks go most recently completed first. |
| TaskList.TiesKeepListOrder | client/src/pages/Tasks.jsx:180-188 | Tasks equal under a comparator keep their list order. |
| TaskList.Incomplete | client/src/pages/Tasks.jsx:178-185 | The open tasks sorted by priority, then newest first. `TaskList.PartitionIsPermutation`, `TaskList.IncompleteOrder` and `TaskList.TiesKeepListOrder` state this. |
| TaskList.Completed | client/src/pages/Tasks.jsx:186-188 | The done tasks sorted newest completion first. `TaskList.PartitionIsPermutation`, `TaskList.CompletedOrder` and `TaskList.TiesKeepListOrder` state this. |
| TaskList.TrimStart | client/src/pages/Tasks.jsx:98 | Drops exactly the leading white space. |
| TaskList.TrimEnd | client/src/pages/Tasks.jsx:98 | Drops exactly the trailing white space. |
| TaskList.Trim | client/src/pages/Tasks.jsx:98 | The trimmed title is empty exactly when the title is all white space; otherwise it starts and ends with a character that is not white space. |
| TaskList.AddTitle | client/src/pages/Tasks.jsx:98 | A title is refused exactly when it is all white space. Otherwise the title sent starts and ends with a non-space. |
| TaskList.AddTitleSendsTrimmed | client/src/pages/Tasks.jsx:105 | The title sent is a stretch of the typed title with only white space cut from either end, so with `AddTitle`'s contract it is exactly `title.trim()`. |
| TaskList.TrimIsInfix | client/src/pages/Tasks.jsx:105 | The trimmed title is a stretch of the original, with only white space cut from either end. |

## Left out

- Mongoose persistence, Express routes, controllers, middleware and auth are not modelled. The store is a map, and the focus-session and habit-completion counts are inputs.
- Clocks and calendars are not modelled: `new Date()`, `toISOString`, the seven-day window's local/UTC mix, and the `Date` calls in `getMonthGrid`. "Now" and "today" are inputs, and so are the weekday of the 1st and the month length.
- Concurrency is not modelled. The read-modify-write of a record and the awaits inside the focus-session case are taken to run in sequence.
- React rendering, effects, `setInterval`, `fetch` and toasts are not modelled. Timer effects become the `Second` event, and the panel's `loading`/`error` screens are omitted.
- Floating point is not modelled. `Math.pow` becomes integer arithmetic and `progressPercent` an exact `real`, so rounding in the last place is ignored.
- GrowthService.ApplyAction: the derived fields are recomputed once, after the award. The source recomputes them after each `applyTraitXP`, from the traits alone, so the stored record is the same.
- GrowthService.Raise: all items written in one action share one time stamp. A history item is a trait and a time; its message is the function of the trait that the source writes.
- GrowthService.ApplyTraitXP: `amount` is a natural number. The handler only ever passes positive constants.
- Archetypes.GetArchetype: `Object.entries` order is assumed to be the schema order. A stable sort is assumed, so level ties go to the trait listed first in `TRAIT_KEYS`.
- Growth.InitialRecordIsValid: a fresh record's archetype "" does not agree with its traits. `getArchetype` on five level-1 traits gives "The Steady Focus". The model keeps the source's "", so a fresh record satisfies every derived-field equation except the archetype one.
- GrowthView.RemainingXP: the panel's `t.xp ?? 0` is not modelled, because the view always carries a number there.
- GrowthView.TraitRows: the client's own `config/traits` (the source of the panel's `TRAIT_KEYS` and `TRAIT_LABELS`) is not part of this model; its keys and labels are assumed to be the server's. The `TRAIT_LABELS[key] || key` label fallback and the `t.progressPercent ?? 0` progress fallback are not modelled: under that assumption every key has a label, and the view always carries a progress number.
- TaskList.AddTitle: the white-space set is that of ECMAScript `trim`. The `submitting` flag that also disables the button is UI state and is left out.
- TaskList.IncompleteOrder: times are integer milliseconds. An unparsable date string (which makes the comparator `NaN`) is not modelled.
- The server's task PATCH handler ignores the `priority` the client sends (server/routes/tasks.js:43-44), so a priority change does not persist. The route is not part of this model.
