# Tasbih counter bookkeeping in Dafny

A model of the client-side bookkeeping of the Adhkar tasbih app (`script.js`): a
user defines goals (an *adhkar*: a name, an optional text and a daily limit), taps
a goal's counter once per repetition, and the app keeps one count per goal and day
in the browser's IndexedDB database `TasbihDB`, through the Dexie library.

The model has five modules:

- `Records` (`records.dfy`): the two stored record kinds, `Adhkar` and `CountRow`,
  and `Table<T>`, an auto-increment table (its rows in insertion order and the key
  the next `add` receives; Dexie's `++id` keys start at 1 and are never reused).
- `Queries` (`queries.dfy`): the Dexie queries and writes the script issues, as
  functions on rows: `find` by key, `orderBy('createdAt')`, `where('date')`,
  the find-then-update-or-add of a count row, and the delete cascade, together
  with lemmas that these writes never create two rows for the same goal and day.
- `Counter` (`counter.dfy`): the per-card arithmetic: today's count read from the
  in-memory map (`todaysCounts[id] || 0`), the daily cap and "Remaining".
- `Tasbih` (`tasbih.dfy`): the script's module-level state as the class `App`
  (the two tables and the two caches `adhkars` and `todaysCounts`) with one method
  per handler: start-up loading, add, increment, delete and the midnight reset.
  `App.Valid()` is the invariant every handler keeps: distinct goal keys, valid
  goals, at most one count row per (goal, day), every count row and every cached
  count between 1 and its goal's daily limit, and the goal list equal to the table
  ordered by creation time. `Mirrors(todaysCounts, rows, day)` states that the map
  holds exactly the table's counts of one day; loading establishes it and each
  increment keeps it.
- `Scenarios` (`scenarios.dfy`): whole sessions from empty tables: a goal of 33
  counted to completion, and the two effects of the UTC day key described under
  Findings.

The day key (`getTodayString`, script.js lines 59-61) and the creation time
(`new Date()`) are parameters of the operations, since they come from the clock.

## Model

| member | source | states |
|---|---|---|
| Queries.Filter | script.js:47 | a Dexie selection keeps exactly the rows the predicate accepts, and never more rows than the table has |
| Queries.FilterKeepsPairwise | script.js:242-245 | deleting rows never makes two remaining rows clash |
| Queries.FindAdhkar | script.js:176 | `adhkars.find` returns a goal carrying the key when one exists, and nothing exactly when no goal carries it |
| Queries.FindAdhkarUnique | script.js:176 | with distinct keys the lookup returns precisely the goal that has the key |
| Queries.DeleteAdhkar | script.js:243 | after `adhkars.delete(id)` exactly the goals with another key remain |
| Queries.InsertByCreation | script.js:36 | placing a goal into a list ordered by creation time keeps it ordered and adds exactly that goal |
| Queries.OrderByCreatedAt | script.js:36 | the loaded goal list is ordered by creation time (ties by key) and is a permutation of the table |
| Queries.FindInOrdered | script.js:36 | with distinct keys, finding a key in the ordered list gives the same goal as finding it in the table |
| Queries.RowsDetermined | script.js:192-205 | when no two count rows clash, one row is determined by its key and also by its (goal, day) pair |
| Queries.RowsOn | script.js:47 | `where('date').equals(day)` yields exactly the rows dated that day |
| Queries.RowsOnKeepApart | script.js:47 | the rows of one day never clash when the table's rows do not |
| Queries.FindRow | script.js:192-195 | the lookup returns a row of that goal and day when one exists, and nothing exactly when there is none |
| Queries.UpdateInPlace | script.js:198 | `counts.update(id, {count})` replaces that one row's count, keeps every other row and the row count, keeps rows apart, and the pair then stores the new count |
| Queries.InsertFresh | script.js:200-204 | adding a row for a pair with no row, under the next key, keeps rows apart and the pair then stores the new count |
| Queries.DeleteCountsOf | script.js:244 | the cascade leaves exactly the rows of other goals, on every date |
| Queries.DeleteCountsKeepApart | script.js:244 | the cascade never makes two remaining rows clash |
| Queries.DeleteAdhkarKeepsIdsDistinct | script.js:243 | deleting a goal leaves the remaining keys distinct |
| Counter.Remaining | script.js:79 | "Remaining" is never negative, at most the limit, adds up with the count to the limit while below it, and is 0 exactly at the cap |
| Counter.RemainingCountsDown | script.js:79 | each accepted tap lowers "Remaining" by one and the tap that reaches the limit brings it to 0 |
| Tasbih.TapOutcome | script.js:176-185 | a tap does nothing exactly when the goal is not loaded, is refused exactly at the cap, and otherwise counts the cached count plus one |
| Tasbih.CountedWithinLimit | script.js:221-223 | with the cache within bounds, a counted tap lands between 1 and the limit, reports completion exactly when it reaches the limit, and lowers "Remaining" by one |
| Tasbih.MirrorsAgree | script.js:179 | while the map mirrors the table, the count read from the map equals the count stored for that goal and day |
| Tasbih.ClearedMapMirrors | script.js:364 | the emptied map mirrors the table for a day key exactly when the table holds no row of that day |
| Tasbih.MirrorsExtend | script.js:49-51 | writing a row that clashes with no earlier row over a mirroring map gives a map that mirrors all the rows |
| Tasbih.MapOfMirrors | script.js:48-51 | the map built from one day's rows, none clashing, mirrors them |
| Tasbih.TodayMapMirrors | script.js:44-56 | the map `loadTodaysCounts` builds mirrors the table for the day it loads |
| Tasbih.CountFitsTransfer | script.js:243 | a count that fits its goal still fits in a goal list that keeps that goal |
| Tasbih.MirroredCacheFits | script.js:44-56 | a map that mirrors rows within their limits is within the limits itself |
| Tasbih.MirrorAfterUpdate | script.js:197-208 | updating the found row and setting the map entry keeps the map mirroring the table |
| Tasbih.MirrorAfterInsert | script.js:199-208 | adding the pair's first row and setting the map entry keeps the map mirroring the table |
| Tasbih.AddKeepsWellFormed | script.js:148-161 | a valid goal stored under the next key keeps the goals well formed and every count row and cached count attached to its goal |
| Tasbih.NextCountFits | script.js:179-187 | a loaded goal below its cap is the table's goal with that key and admits one more repetition |
| Tasbih.UpsertKeepsWellFormed | script.js:190-208 | whichever branch the write takes, rows stay well formed, the pair stores the new count, every other row is unchanged, and a mirroring map stays mirroring |
| Tasbih.DeleteKeepsWellFormed | script.js:242-245 | the cascade keeps both tables well formed, with no count row left without its goal |
| Tasbih.DeletedGoalForgotten | script.js:242-249 | after the cascade and the reload the deleted goal is neither found in the goal list nor a key of today's map |
| Tasbih.App.Open | script.js:15-17 | at start-up both caches are loaded: the goal list is the table ordered by creation and the map mirrors today's rows |
| Tasbih.App.Reload | script.js:248-249 | reloading both caches restores the invariant, orders the goal list and makes the map mirror today's rows |
| Tasbih.App.LoadAdhkars | script.js:34-41 | the goal list becomes the table ordered by creation time, a permutation of the table |
| Tasbih.App.LoadTodaysCounts | script.js:44-56 | the loop builds the map of the rows dated today, later rows overwriting earlier ones |
| Tasbih.App.AddAdhkar | script.js:141-172 | a goal is added exactly when its name is non-empty and its limit at least 1, under a key no stored goal has, and the list is reloaded; otherwise nothing changes |
| Tasbih.App.Increment | script.js:175-229 | the outcome is the tap outcome of the loaded list and map; a refused tap changes nothing; a counted tap sets the map entry and writes the new count for today, so the table then stores it, leaving every other row as it was; a mirroring map stays mirroring and the stored count never decreases |
| Tasbih.App.StoreCount | script.js:190-208 | the pair's row is updated in place or added under the next key, the map entry is set, the pair stores the new count and no other row changes |
| Tasbih.App.Delete | script.js:232-257 | a goal that is not loaded is not deleted; otherwise the goal and all its count rows are removed, the goal is no longer found and today's map no longer has it |
| Tasbih.App.DeleteCascade | script.js:242-245 | the transaction removes the goal and exactly its count rows, keeping both tables well formed |
| Tasbih.App.ResetAtMidnight | script.js:362-364 | the timer callback empties today's map, so every goal reads 0 |
| Tasbih.App.StartNewDay | script.js:362-364 | the midnight refresh rebuilt from the table: the map mirrors the table for the current day key, and is empty on a day without rows |
| Scenarios.DailyTargetReached | script.js:175-223 | a goal of 33 accepts 33 taps, the 33rd reports completion, 33 is stored, and a 34th tap is refused |
| Scenarios.MidnightResetLosesCount | script.js:354-370 | with the day key unchanged across the reset, the next tap overwrites a stored 2 with 1 |
| Scenarios.MidnightReloadKeepsCount | script.js:354-370 | with the map rebuilt instead of emptied, the next tap continues from the stored 2 to 3 |
| Scenarios.KeyChangeCarriesCount | script.js:179-208 | when the day key changes before the reset, the first row of the new key is stored with the old key's 2 plus one, 3, where no row existed |
| Scenarios.KeyChangeWithReloadStartsAtOne | script.js:179-208 | with the map rebuilt for the new key first, the new key's first row is stored with 1 |

## Left out

- Rendering, the add modal, notifications, the pulse animation, `escapeHtml` and the
  progress bar width: they only draw state; "Remaining" is modelled, the floating
  point progress percentage is not.
- The `confirm` dialog of `deleteAdhkar`: `App.Delete` is the confirmed path; a
  declined dialog leaves everything unchanged.
- Reading the form: `App.AddAdhkar` takes the name already trimmed and the limit
  already parsed to an integer. `parseInt` can return `NaN`, for which `NaN < 1` is
  false, so the script would store such a goal; integers cannot express `NaN`.
- `getTodayString` and `new Date()`: the day key and the creation time are
  parameters. The day key is the UTC date (`toISOString`), as the code computes it,
  not the local calendar date a user's day follows; the model follows the code,
  and both consequences of the mismatch are recorded under Findings.
- The midnight timer arithmetic (`setTimeout`, `setHours`) and its rescheduling:
  only the callback's effect is modelled (`App.ResetAtMidnight`).
- The `catch` branches: a storage failure (quota, corruption) is not modelled, so
  every write succeeds.
- Concurrency: the handlers are modelled as running one after another. The
  script awaits between finding a count row and writing it, so two taps in quick
  succession can interleave, lose an update or create a second row for one
  (goal, day) pair; that interleaving is not modelled.
- Tasbih.App.Increment: reads the current count from the in-memory map, as the
  script does, instead of from the table; the two agree only while the map
  mirrors the table, so the promise that the stored count never decreases is
  stated under that condition.
- Queries.FindRow: Dexie's `.first()` returns the first match in index order; the
  model returns the first match in row order. With at most one row per pair the
  two coincide.
- The service worker (`sw.js`) and the offline cache are not part of this model.

## Findings

| source | as written | input that shows it | evidently intended | confidence | as-written member | corrected member |
|---|---|---|---|---|---|---|
| script.js:355-364 | the reset fires at local midnight and empties `todaysCounts`, but the day key is the UTC date (script.js:59-61), so in a time zone ahead of UTC the key does not change at the reset; the next tap reads 0 from the emptied map and overwrites the day's stored count with 1 | a goal tapped twice on key "d", the reset firing while the key is still "d", one more tap: stored count goes 2 → 1 | the count of a day key never decreases; after the reset the map reflects the table for the current key | not executed | Scenarios.MidnightResetLosesCount | Tasbih.App.StartNewDay |
| script.js:179-204 | the day key (script.js:59-61) is the UTC date, so in a time zone behind UTC it changes hours before the local-midnight reset while the map still holds the old key's counts; the first tap under the new key reads the old count, adds one and stores that in a fresh row, and a goal that reached its cap under the old key is refused under the new key until the reset | a goal tapped twice under "2026-10-14", then one tap under "2026-10-15" before the reset: the new key's first row stores 3 | each day key counts from 0; the map reflects the table for the key the tap writes under | not executed | Scenarios.KeyChangeCarriesCount | Tasbih.App.StartNewDay |

`Tasbih.ClearedMapMirrors` states when the emptied map is still faithful (no row of
the current key exists), and `Tasbih.App.Increment` proves that the stored count
never decreases while the map mirrors the table; `Scenarios.MidnightReloadKeepsCount`
runs the same session with `Tasbih.App.StartNewDay`, which rebuilds the map from
the table, and the count continues from 2 to 3. `Scenarios.KeyChangeWithReloadStartsAtOne`
does the same for the second row: with the map rebuilt for the new key, its first
row stores 1.
