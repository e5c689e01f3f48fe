# Habit tracker service: a verified model

This project models the core of a habit-tracking REST service written in Go.
Clients create habits, mark the days on which they did them, and ask for
statistics. The model covers four things:

- **The records** (`models.dfy`, module `Models`): the `Frequency` values, the
  `Habit` and `HabitCompletion` rows, and the two hooks that give a row a UUID
  just before it is inserted.
- **Calendar arithmetic** (`calendar.dfy`, module `Calendar`): collapsing a
  timestamp to its day's midnight, and counting whole days between two
  timestamps, truncated toward zero.
- **The statistics engine** (`streaks.dfy`, module `StreakEngine`): the body of
  `GetStatistics`. It turns the newest-first completion list into a list of days
  and reverses that list in place. It then walks back from today for the
  current streak, scans for the longest streak and computes the capped
  completion rate. Each loop is a method proved equal to a specification
  function. Lemmas state what those functions mean.
- **The service and its store** (`service.dfy`, module `Services`): the class
  `HabitStore` holds habit rows and completion rows. Its methods are the service
  operations: `Create`, `GetAll`, `GetByID`, `Update`, `Delete`, `MarkComplete`,
  `UnmarkComplete`, `GetCompletions` and `GetStatistics`. Its invariant `Valid`
  says four things:
  - every completion refers to a stored habit;
  - every row is filed under its own non-nil id;
  - every stored completion time is a midnight;
  - no habit has two completions on one day.

How things are represented:

- A timestamp is an `Instant`: a day number plus the nanoseconds since that
  day's midnight.
- A UUID is a natural number, and the nil UUID is 0.
- The clock and the UUID generator are parameters. `now` is the current time.
  `freshId` is the generator's output, which is never the nil UUID.
- The database is replaced by the two maps of `HabitStore`.

Behaviour of the code that is easy to miss, modelled as written:

- Statistics list the completion days newest first, not oldest first. The list
  is filled before the reversal, which only reorders the scratch list of days.
- The completion rate counts days from the habit's raw creation timestamp, not
  from its creation day. A habit created yesterday afternoon therefore has 0
  whole days today.
- The service's `Create` does not reject an empty name. That check sits in the
  HTTP handler.
- `UnmarkComplete` deletes every completion of that habit on that day. It does
  not check that the habit exists.
- The longest streak is computed as written. See "## Findings".

## Model

| member | source | states |
|---|---|---|
| `Models.NamedFrequencies` | internal/models/habit.go:13-17 | exactly three named frequencies, `daily`, `weekly` and `custom`, all different and non-empty |
| `Models.Habit.BeforeCreate` | internal/models/habit.go:33-38 | afterwards the id is non-nil; a non-nil id is kept; a nil id becomes the fresh one; no other field changes |
| `Models.HabitCompletion.BeforeCreate` | internal/models/habit.go:50-55 | same rule for a completion row: keeps a non-nil id, otherwise takes the fresh one, touches nothing else |
| `Models.BeforeCreateIdempotent` | internal/models/habit.go:33-55 | running either hook again never changes an id already given |
| `Services.DefaultsMatchSchema` | internal/models/habit.go:24-25 | the service's defaults (`daily`, `#3B82F6`) equal the schema's column defaults, and `daily` is a named frequency |
| `Calendar.Normalize` | internal/services/habit.go:84 | the result is a midnight on the same day as the input |
| `Calendar.NormalizeSameDay` | internal/services/habit.go:84-88 | two timestamps normalize to the same value exactly when they fall on the same day; normalizing is idempotent |
| `Calendar.TruncDiv` | internal/services/habit.go:220 | the quotient truncates toward zero, for either sign of the dividend |
| `Calendar.WholeDaysBetween` | internal/services/habit.go:220 | the elapsed time in whole days, truncated toward zero: for a forward interval the count is the largest whole number of days that fits, for a backward one the negated count of the reversed interval; `WholeDaysBetweenMidnights` and `WholeDaysSinceTimestamp` give it in day numbers |
| `Calendar.WholeDaysBetweenMidnights` | internal/services/habit.go:201 | between two midnights the whole-day count is exactly the difference of the day numbers |
| `Calendar.WholeDaysSinceTimestamp` | internal/services/habit.go:219-220 | from today's midnight back to a raw creation time: the day difference, one less when creation lies on an earlier day past midnight |
| `StreakEngine.DaysOf` | internal/services/habit.go:156-160 | one day per completion, in the order given, each the completion's normalized day |
| `StreakEngine.NormalizedDates` | internal/services/habit.go:156-160 | one normalized timestamp per completion, in the order given |
| `StreakEngine.ReversedPermutes` | internal/services/habit.go:162-165 | reversal keeps the multiset of days and the membership of each day, and is its own inverse |
| `StreakEngine.ReversedNewestFirst` | internal/services/habit.go:155-165 | reversing a newest-first list gives an oldest-first list |
| `StreakEngine.ReverseInPlace` | internal/services/habit.go:163-165 | the swap loop leaves the array holding exactly the reverse of its old contents |
| `StreakEngine.RunFitsInDays` | internal/services/habit.go:171-188 | a run of k consecutive days all present needs at least k entries; this bound is the walk's termination measure |
| `StreakEngine.StreakBackCounts` | internal/services/habit.go:172-188 | the backward count finds a run of present days and stops at the first absent day or when its step budget runs out |
| `StreakEngine.CurrentStreak` | internal/services/habit.go:171-189 | the walk back from today as a function; `CurrentStreakIsLongestRunToToday` states that it is the longest run of completed days ending today |
| `StreakEngine.CurrentStreakIsLongestRunToToday` | internal/services/habit.go:171-189 | the current streak is the largest k with today, today-1, ..., today-(k-1) all present (both directions); it is at most the number of entries; it is 0 exactly when today is absent |
| `StreakEngine.CurrentStreakUnique` | internal/services/habit.go:174-188 | a run ending today whose next earlier day is absent has exactly the current streak's length |
| `StreakEngine.Contains` | internal/services/habit.go:175-181 | the inner search reports found exactly when the day occurs in the list |
| `StreakEngine.CurrentStreakLoop` | internal/services/habit.go:171-189 | the walk back from today returns the current streak |
| `StreakEngine.CurrentStreakExamples` | internal/services/habit.go:171-189 | completions today, yesterday and the day before give 3; a completion yesterday only gives 0 |
| `StreakEngine.ScanStep` | internal/services/habit.go:196-210 | one pass of the scan loop: the first day opens a run, a gap of exactly one day extends it, anything else closes it; `ScanBounds` bounds the runs it keeps |
| `StreakEngine.Scan` | internal/services/habit.go:195-211 | the scan loop over the whole day list; `IntendedScanInvariant` and `AsWrittenScanOnOldestFirst` state what its state holds for each gap measure |
| `StreakEngine.LongestStreakAsWritten` | internal/services/habit.go:191-215 | the longest streak as the code computes it; `LongestStreakAsWrittenIsOne` shows it is 1 for every non-empty oldest-first list |
| `StreakEngine.LongestRun` | internal/services/habit.go:191-215 | the longest streak with the gap measured as evidently meant; `LongestRunIsLongest` and `Services.ListingLongestRun` state that it is the longest run of consecutive days |
| `StreakEngine.ScanBounds` | internal/services/habit.go:192-214 | whatever gap the scan measures, no days leave it at its start; otherwise the open run is between 1 and the number of days, as is the best closed run |
| `StreakEngine.LongestStreakAsWrittenBounds` | internal/services/habit.go:191-215 | longest streak as written: 0 for no completions; otherwise between 1 and the number of completions |
| `StreakEngine.AsWrittenScanOnOldestFirst` | internal/services/habit.go:195-211 | on an oldest-first list, `prevDate - d` is never 1, so every run stays at length 1 |
| `StreakEngine.LongestStreakAsWrittenIsOne` | internal/services/habit.go:192-215 | as written, any non-empty oldest-first list has longest streak exactly 1 |
| `StreakEngine.LongestStreakCounterexample` | internal/services/habit.go:201-202 | days D, D+1, D+2, D+5, D+6 hold a run of 3; the scan as written reports 1; the intended scan reports 3 |
| `StreakEngine.IntendedScanInvariant` | internal/services/habit.go:192-214 | on a strictly oldest-first list, the intended scan's open run ends at the last day and is the longest run ending there; its answer bounds every run, and some run reaches it |
| `StreakEngine.LongestRunIsLongest` | internal/services/habit.go:191-215 | the corrected longest streak is the length of the longest run of consecutive days: no run is longer, and one run is that long |
| `StreakEngine.LongestStreakLoop` | internal/services/habit.go:191-215 | the scan loop, with its `continue` on the first day, returns the longest streak as written |
| `StreakEngine.CompletionRate` | internal/services/habit.go:217-226 | the rate is in [0, 100]; it is 0 when fewer than one whole day has passed; it is 100 exactly when completions are at least the days; below the cap, rate times days equals completions times 100 |
| `StreakEngine.CompletionRateExamples` | internal/services/habit.go:221-226 | 5 completions in 10 days give 50; 20 completions give 100 (capped); 0 days give 0 |
| `StreakEngine.StatisticsOf` | internal/services/habit.go:146-226 | the statistics of a newest-first listing; `StatisticsShape`, `StatisticsCurrentStreak`, `StatisticsLongestStreak` and `StatisticsCompletionRate` state what each figure means |
| `StreakEngine.ComputeStatistics` | internal/services/habit.go:146-226 | the statistics computed step by step (day list, in-place reversal, walk, scan, rate) equal the specification `StatisticsOf` |
| `StreakEngine.StatisticsShape` | internal/services/habit.go:146-160 | the total is the number of completions; the list holds each completion's normalized time in the order given (newest first); with no completions everything is 0 and the list is empty |
| `StreakEngine.StatisticsCurrentStreak` | internal/services/habit.go:167-189 | the reported current streak is the largest k with the k days ending today all completed (both directions); it is 0 exactly when today is not completed; it never exceeds the total |
| `StreakEngine.StatisticsLongestStreak` | internal/services/habit.go:191-215 | the reported longest streak is 0 without completions and between 1 and the total otherwise; it is exactly 1 for any newest-first list |
| `StreakEngine.StatisticsCompletionRate` | internal/services/habit.go:217-226 | the reported rate is in [0, 100]; it is 0 when no whole day has passed since creation, in particular when the habit was created today or later |
| `Services.ErrorMessage` | internal/services/habit.go:44-111 | the service's three error texts, and the driver's own text for a store failure; `ErrorMessagesDistinct` states that the texts tell the errors apart |
| `Services.ErrorMessagesDistinct` | internal/services/habit.go:44-111 | the three texts the service words itself differ from each other and from the driver's duplicate-key text, so matching on the text tells the errors apart |
| `Services.ApplyDefaults` | internal/services/habit.go:21-27 | an empty frequency becomes `daily`; an empty color becomes `#3B82F6`; non-empty values and every other field are unchanged |
| `Services.ApplyDefaultsIdempotent` | internal/services/habit.go:21-27 | filling defaults twice is the same as filling them once |
| `Services.Patch` | internal/services/habit.go:51-53 | non-empty fields of the update replace the stored ones; empty ones are skipped; the id and creation time stay; the update time becomes now |
| `Services.PatchIdempotent` | internal/services/habit.go:53 | the same update applied twice is the same as once; an update never empties the frequency or the color |
| `Services.InsertNewestFirst` | internal/services/habit.go:119 | inserting a completion on a new day keeps the listing strictly newest first and adds exactly that completion |
| `Services.ListingUnique` | internal/services/habit.go:119 | two strictly newest-first listings holding the same completions are equal, so the listing order is fully determined |
| `Services.ListingDaysNewestFirst` | internal/services/habit.go:119-165 | the days of a newest-first listing are newest first, and reversed they are strictly oldest first, as the statistics scan sees them |
| `Services.ListingLongestRun` | internal/services/habit.go:155-215 | on the reversed day list of a listing, the corrected scan gives the length of the longest run of completed days: no run is longer, and one is that long |
| `Services.WithoutHabit` | internal/models/habit.go:29 | cascade delete: keeps exactly the completion rows of other habits, unchanged |
| `Services.WithoutSlot` | internal/services/habit.go:106 | keeps exactly the completion rows not of that habit on that day, unchanged |
| `Services.RemovedRows` | internal/services/habit.go:106-112 | the number of rows removed is zero exactly when no row matched (habit, day) |
| `Services.HabitStore.Valid` | internal/models/habit.go:21-47 | the invariant every operation keeps (each operation's `ensures Valid()`): rows filed under their own non-nil ids, completions referring to stored habits, completion times at midnight, at most one completion per habit and day |
| `Services.HabitStore.IsCompleted` | internal/services/habit.go:87-88 | the duplicate query: some stored completion of that habit falls on that day; `MarkComplete` and `UnmarkComplete` state their outcomes through it |
| `Services.HabitStore.constructor` | internal/services/habit.go:16-18 | an empty store satisfies the invariant |
| `Services.HabitStore.Create` | internal/services/habit.go:21-29 | stores the habit after defaults, id hook and timestamps; keeps the invariant and leaves completions alone; a taken id fails with a store error and leaves the habits unchanged |
| `Services.HabitStore.GetAll` | internal/services/habit.go:31-36 | returns each stored habit exactly once |
| `Services.HabitStore.GetByID` | internal/services/habit.go:38-49 | returns the habit with that id, or "habit not found" exactly when there is none |
| `Services.HabitStore.Update` | internal/services/habit.go:51-61 | fails with "habit not found" exactly when the id is absent, changing nothing; otherwise only that habit changes, patched; completions stay |
| `Services.HabitStore.Delete` | internal/services/habit.go:63-73 | fails with "habit not found" exactly when the id is absent, changing nothing; otherwise removes only that habit and, by cascade, exactly its completions |
| `Services.HabitStore.MarkComplete` | internal/services/habit.go:75-101 | an absent habit gives "habit not found" and no change; an existing completion on that day gives "habit already completed for this date" and no change; otherwise exactly one completion is added, on the normalized day |
| `Services.HabitStore.UnmarkComplete` | internal/services/habit.go:103-114 | removes every completion of that habit on that day; fails with "completion not found for this date" exactly when there was none; afterwards the day is not completed |
| `Services.HabitStore.GetCompletions` | internal/services/habit.go:116-121 | returns exactly the habit's completions, strictly newest first |
| `Services.HabitStore.GetStatistics` | internal/services/habit.go:132-229 | "habit not found" for an absent habit; otherwise the statistics of the habit's newest-first listing, read now, from its creation time |
| `Services.CompletionRoundTrip` | internal/services/habit.go:75-114 | marking the same day twice, at any times of that day, fails the second time; unmarking then succeeds; unmarking again fails with "completion not found for this date" |
| `Services.DeleteCascades` | internal/models/habit.go:29 | after a delete, listing that habit's completions gives nothing; the delete succeeds exactly when the habit existed |

## Findings

| source | as written | input that shows it | evidently intended | confidence | as-written member | corrected member |
|---|---|---|---|---|---|---|
| internal/services/habit.go:201 | `daysDiff := prevDate.Sub(d)` runs over dates already reversed to oldest first, so consecutive days give -1 and every run is reset | completions on D, D+1, D+2, D+5, D+6: longest streak 1 | `d.Sub(prevDate)`, which gives the longest run of consecutive days (3 here) | high; not executed | `StreakEngine.LongestStreakCounterexample` (with `StreakEngine.LongestStreakAsWrittenIsOne`) | `StreakEngine.LongestRunIsLongest` (with `Services.ListingLongestRun`) |

`GetStatistics` itself (`ComputeStatistics`, `StatisticsOf`) keeps the
behaviour as written, because it models the code. `LongestRun` is the corrected
definition, and `LongestRunIsLongest` proves the intended property about it.
`ListingLongestRun` applies it to the day list `GetStatistics` builds from a
listing.

## Left out

- The HTTP handlers, routing, request decoding, `uuid.Parse`, date parsing and
  JSON encoding are plumbing around the service.
- Server start-up, logging and the database connection and migration are
  process set-up.
- Services.HabitStore.Delete: the removal of a deleted habit's completions is
  taken as the schema declares it (`constraint:OnDelete:CASCADE` at
  internal/models/habit.go:29). SQLite enforces foreign keys only when the
  connection turns them on, and whether it does is not modelled.
  `Services.DeleteCascades` and the "refers to a stored habit" part of
  `Services.HabitStore.Valid` rest on that declaration.
- Services.ErrorMessage: the text of a store failure is the driver's; the only
  one modelled is SQLite's duplicate-key text.
- Store failures other than a taken primary key are not modelled: a lost
  connection or a failed query on the I/O side. No operation reports them.
- Time zones and daylight-saving time are not modelled. Every day is
  86 400 s long. The stored values are compared by the day number of their
  local timestamp, not by SQLite's `DATE()` on stored text.
- Dates parsed in UTC and "now" in local time are not modelled. The handler
  mixes the two.
- StreakEngine.CompletionRate: exact real arithmetic, because float64 rounding
  of the division and of `Hours() / 24` is outside the model.
- StreakEngine.LongestStreakLoop: the zero-time sentinel `prevDate.IsZero()` is
  modelled as "no previous day". A completion dated exactly at Go's zero
  instant would be taken for the sentinel, and that is not modelled.
- Services.HabitStore.MarkComplete: the check-then-insert race between two
  concurrent calls is a concurrency concern, and this model is sequential.
- Services.HabitStore.Create: the insert always stamps the creation and update
  times with `now`. The ORM stamps them only when they are zero, which the
  handler always leaves them.
- Services.HabitStore.Update: the id and timestamps of the update record are
  ignored. The handler never sets them.
- Models.Habit.BeforeCreate and Models.HabitCompletion.BeforeCreate return the
  updated record instead of writing through the pointer receiver. Rows are
  values everywhere else in the model.
- UUID generation is a parameter (`freshId`, never the nil UUID). Random
  generation is not modelled.
- The `Completions` association field of `Habit` is not modelled, because the
  service never loads it.
- Services.HabitStore.GetAll: the order of the store's default scan is not
  specified, only that each habit appears once.
