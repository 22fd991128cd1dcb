# Calendar event store, window queries and notification dispatcher

A Dafny model of the core of a calendar service. The service stores calendar
events and sends notifications ahead of them. The model covers three parts:

- **The in-memory event store** (`Scheduler`). This is a map from integer
  UUID to event. It offers guarded `Create`, `Update` and `Remove`, and
  daily, weekly and monthly window queries. Each query cuts the reference
  instant back to midnight, adds one day, seven days or one normalised
  calendar month, and returns every stored event whose `DateTime` lies in
  that closed interval.
- **The relational store's guard logic** (`Psql`). The `public.events` table
  is a sequence of rows in scan order. Each row has a positive surrogate id.
  The model covers the UUID lookup and the check-then-act logic that
  `InsertEvent`, `UpdateEvent` and `RemoveEvent` wrap around their SQL
  statements. It also covers the inclusive range query `GetEvents`.
- **The dispatcher's scan loop** (`BackgroundProcessor`). A `(start, stop)`
  cursor starts as a zero-width window at the current instant and advances
  by ten seconds per tick. Each tick publishes what the store returns for
  the current window.

`Calendar` supplies the civil-date arithmetic of Go's `time` package that
the window queries need: `time.Date` with month normalisation, `AddDate`,
and reading the year, month and day back from an instant. It works in one
fixed zone. An instant is an integer count of nanoseconds since 1970-01-01
00:00 on that zone's wall clock. `Structs` holds the event record the
dispatcher publishes.

Effects the model cannot see are passed in as parameters:

- The database's answers and failures. `lookupFails` is a failing SELECT and
  `commitFails` a failing COMMIT.
- The dispatcher's query result, as a `QueryAnswer`.
- The channel's verdict on each publish, as `publishOk`.
- The current instant, passed to the dispatcher's constructor.

The documented behaviour says Update and Remove fail with "not found" when
the id is absent. The in-memory store does exactly that. The relational
store's code rejects the request when the UUID *is* present. The model
follows that code in `Psql.PSQL.UpdateEvent` and `Psql.PSQL.RemoveEvent`. It
states the intended behaviour separately in `Psql.PSQL.UpdateEventChecked`
and `Psql.PSQL.RemoveEventChecked` (see Findings).

## Model

| member | source | states |
|---|---|---|
| Calendar.CivilOf | internal/scheduler/scheduler.go:58 | the year, month and day read from a day count form a valid civil date, and that date's day number is the count again |
| Calendar.CivilOfDayNumber | internal/scheduler/scheduler.go:58 | every valid civil date is recovered from its own day number (civil fields and day numbers are inverse) |
| Calendar.UnixEpochIs1970 | internal/scheduler/scheduler.go:58 | the fixed day count before 1970 used for the epoch is the proleptic Gregorian count of days in years 1..1969 |
| Calendar.EpochIsJanuaryFirst1970 | internal/scheduler/scheduler.go:58 | instant day 0 is 1970-01-01, in both directions |
| Calendar.DaysBeforeYearClosedForm | internal/scheduler/scheduler.go:58 | the days before a year, summed year by year with the Gregorian leap rule, equal the closed form `365(y-1) + (y-1)/4 - (y-1)/100 + (y-1)/400` |
| Calendar.Date | internal/scheduler/scheduler.go:58 | `time.Date` adds the day of the month as an offset: with the month in range, the instant is the first of that month plus `day - 1` days plus the time of day, so an overlong day rolls into later months. Carrying an out-of-range month into the year by floor division is DateCarriesMonth, and a valid date reading back as itself is DateRoundTrip |
| Calendar.DateTimeOfDay | internal/scheduler/scheduler.go:58 | whatever the date fields are, `time.Date` keeps a time of day that lies within the day |
| Calendar.DateCarriesMonth | internal/scheduler/scheduler.go:85 | month m + 12 of a year is month m of the next, for every m: the year carry that `AddDate(0, 1, 0)` relies on in December |
| Calendar.AddDate | internal/scheduler/scheduler.go:59 | `Time.AddDate` offsets the civil fields and recombines them with `time.Date`, and it keeps the time of day of `t`. AddDaysIsShift and AddMonthIsMonthLength give its effect as a shift |
| Calendar.ClockFieldsRecombine | internal/services/background_processor.go:21 | `Hour()`, `Minute()`, `Second()` and `Nanosecond()` of an instant recombine into exactly its time of day |
| Calendar.DateRoundTrip | internal/scheduler/scheduler.go:58 | building midnight of a valid civil date with `time.Date` and reading the date back gives the same date |
| Calendar.Midnight | internal/scheduler/scheduler.go:58 | `time.Date(y, m, d, 0, 0, 0, 0)` of an instant's own fields is the last day boundary not after it: `r <= t < r + 1 day` |
| Calendar.MidnightIdempotent | internal/scheduler/scheduler.go:71 | truncating an instant that is already at midnight changes nothing |
| Calendar.MonthLengthAt | internal/scheduler/scheduler.go:85 | every civil month is 28 to 31 days long |
| Calendar.AddDaysIsShift | internal/scheduler/scheduler.go:59 | `AddDate(0, 0, n)` moves an instant by exactly n days (used for the daily and weekly window ends) |
| Calendar.AddMonthIsMonthLength | internal/scheduler/scheduler.go:85 | `AddDate(0, 1, 0)` moves an instant forward by the length of its own civil month, December included (year carry) |
| Calendar.OctoberThirtyFirstPlusOneMonth | internal/scheduler/scheduler.go:85 | Go's normalisation: October 31 plus one month is December 1 in every year |
| Calendar.JanuaryThirtyFirstPlusOneMonth | internal/scheduler/scheduler.go:85 | January 31 plus one month is March 2 in a leap year and March 3 otherwise |
| Scheduler.Scheduler.constructor | internal/scheduler/scheduler.go:22-25 | a store holds exactly the map it is built from |
| Scheduler.Scheduler.Create | internal/scheduler/scheduler.go:27-35 | succeeds exactly when the UUID is not yet a key; on success the map gains exactly that entry, otherwise it is unchanged; keys equal to their events' UUIDs stay so |
| Scheduler.Scheduler.Update | internal/scheduler/scheduler.go:37-45 | succeeds exactly when the id is a key; on success the whole record under that id is replaced, otherwise the map is unchanged; the key/UUID invariant survives exactly when the new record's UUID equals the id |
| Scheduler.Scheduler.Remove | internal/scheduler/scheduler.go:47-55 | succeeds exactly when the id is a key; on success exactly that key is deleted, otherwise the map is unchanged; the key/UUID invariant is kept |
| Scheduler.Scheduler.EventsBetween | internal/scheduler/scheduler.go:61-67 | the result lists each stored event inside the closed window exactly once and nothing else, with each position tied to a distinct key; it is empty exactly when no stored event is inside; the store is not modified |
| Scheduler.Scheduler.GetDailyEvents | internal/scheduler/scheduler.go:57-68 | the events exactly in [midnight of the date, next midnight], both ends inclusive, each once; empty exactly when none |
| Scheduler.Scheduler.GetWeeklyEvents | internal/scheduler/scheduler.go:70-81 | the events exactly in [midnight of the date, midnight seven days later], each once; empty exactly when none |
| Scheduler.Scheduler.GetMonthlyEvents | internal/scheduler/scheduler.go:83-94 | the events exactly in [midnight of the date, that midnight plus the length of its month in days], each once; empty exactly when none |
| Scheduler.UpdateKeepsKeysIff | internal/scheduler/scheduler.go:39 | overwriting a present key keeps "every key maps to an event with that UUID" exactly when the new event carries the key |
| Scheduler.CreateThenRemove | internal/scheduler/scheduler.go:33-49 | creating a fresh key and removing it again restores the original map |
| Scheduler.DailyWindowOfOwnDay | internal/scheduler/scheduler.go:58-63 | an instant lies in the daily window of its own day and before the daily window 25 hours later |
| Scheduler.DailyWindowsShareMidnight | internal/scheduler/scheduler.go:63 | the next midnight is inside the window of a day and inside the window of the following day, so an event exactly then is returned by both daily queries |
| Psql.FirstMatch | internal/interfaces/psql.go:125-126 | the index of the first row in scan order carrying the UUID: no earlier row carries it, and the row there does (or the index is the length when none does) |
| Psql.SelectIds | internal/interfaces/psql.go:120 | the ids of the matching rows: empty exactly when no row carries the UUID, and the first is the id of the first matching row |
| Psql.GetEventIdByUUID | internal/interfaces/psql.go:118-131 | on a query error returns (0, error); otherwise no error, the id of the first matching row when there is one, and 0 when there is none |
| Psql.LookupIsZeroIffAbsent | internal/interfaces/psql.go:125-129 | with positive row ids, a successful lookup yields 0 if and only if no row carries the UUID |
| Psql.InsertThenLookup | internal/interfaces/psql.go:69-71 | after a row for a fresh UUID is appended, the lookup of that UUID returns that row's id with no error |
| Psql.SelectBetween | internal/interfaces/psql.go:135-136 | the result is exactly the events of the rows with `start <= datetime <= stop`: position j holds the event of the j-th such row in scan order, so every in-range row is returned once and nothing else is |
| Psql.GetEvents | internal/interfaces/psql.go:133-147 | on a query error returns (nil, error); otherwise no error and the SELECT's result: each in-range row's event once, in scan order, and nothing else; empty (nil) exactly when no row is in the interval |
| Psql.ReturnedWhenInRange | internal/interfaces/psql.go:135 | the event of any row with `start <= datetime <= stop` is in the successful result |
| Psql.SharedEndpointReturnedTwice | internal/interfaces/psql.go:135 | a row exactly at `stop` is returned both for [start, stop] and for [stop, later] |
| Psql.SetWhereId | internal/interfaces/psql.go:90-91 | the UPDATE keeps every row's id, leaves rows with other ids unchanged and writes the new columns into rows with the given id |
| Psql.DeleteWhereId | internal/interfaces/psql.go:109 | the DELETE keeps exactly the rows whose id differs from the given one |
| Psql.WriteToIdZeroIsNoOp | internal/interfaces/psql.go:89-109 | when every row id is positive, the UPDATE and the DELETE aimed at id 0 leave the table unchanged |
| Psql.DeleteWhereIdAt | internal/interfaces/psql.go:109 | with distinct ids, deleting by the id of row k removes exactly row k and keeps the rest in order |
| Psql.DeleteKeepsValid | internal/interfaces/psql.go:109 | a DELETE keeps row ids positive and distinct |
| Psql.DeleteAbsentIdIsNoOp | internal/interfaces/psql.go:109 | deleting an id no row has changes nothing |
| Psql.PSQL.constructor | internal/interfaces/psql.go:12-16 | a store starts with an empty table whose ids are valid |
| Psql.PSQL.InsertEvent | internal/interfaces/psql.go:58-77 | succeeds exactly when the lookup works, no row has the UUID and the commit works; on success one row with the fresh id `nextId` and all eight columns is appended and the id counter moves by one, otherwise table and counter are unchanged; lookup error, "already exists" and commit error are each reported as such |
| Psql.PSQL.UpdateEvent | internal/interfaces/psql.go:79-97 | as written: rejects with "not exist" exactly when the UUID IS present; for an absent UUID reports success unless the commit fails, which is reported as a commit error; never changes the table or the id counter |
| Psql.PSQL.RemoveEvent | internal/interfaces/psql.go:99-116 | as written: rejects with "not exist" exactly when the UUID IS present; for an absent UUID reports success unless the commit fails, which is reported as a commit error; never changes the table or the id counter |
| Psql.PSQL.UpdateEventChecked | internal/interfaces/psql.go:79-97 | intended: succeeds exactly when the UUID is present and the commit works; then the first matching row gets the new columns under its old id and every other row is unchanged; otherwise the table is unchanged; lookup error, "not exist" and commit error are each reported as such; the id counter is unchanged |
| Psql.PSQL.RemoveEventChecked | internal/interfaces/psql.go:99-116 | intended: succeeds exactly when the UUID is present and the commit works; then exactly the first matching row is removed, the rest kept in order; otherwise the table is unchanged; lookup error, "not exist" and commit error are each reported as such; the id counter is unchanged |
| BackgroundProcessor.Processor.constructor | internal/services/background_processor.go:21-22 | the cursor starts as the zero-width window `start == stop == now`, with nothing queried or published |
| BackgroundProcessor.FromReads | internal/services/background_processor.go:21-22 | the instant built by `time.Date` from seven separate `time.Now()` field reads; when all reads see the same instant, the result is that instant |
| BackgroundProcessor.YearRolloverBetweenReads | internal/services/background_processor.go:21 | if the year is read in the last nanosecond of December 31 and the other fields one nanosecond later, the instant built is January 1 of the old year, one whole year before the reads |
| BackgroundProcessor.InvertedFirstWindow | internal/services/background_processor.go:21-22 | if only `stop` is read across the new year, the first window is inverted: `stop` lies a year less one nanosecond before `start` |
| BackgroundProcessor.Processor.PublishAll | internal/services/background_processor.go:32-43 | every event of the batch is passed to Publish exactly once, in returned order; a failed publish does not stop the rest; the delivered ones are those the channel accepted; the cursor is untouched |
| BackgroundProcessor.Processor.Tick | internal/services/background_processor.go:26-48 | queries the current window; publishes the returned batch, and nothing on a query error or a nil result; then `start' = stop` and `stop' = stop + 10 s` whatever happened; the cursor invariant is kept |
| BackgroundProcessor.Processor.RunTicks | internal/services/background_processor.go:24-52 | after n ticks the stop has moved by n times 10 s, n more windows have been queried, the published events are the tick batches in order and the delivered ones are, tick by tick, those the channel accepted |
| BackgroundProcessor.WindowAt | internal/services/background_processor.go:21-48 | window k ends at `t0 + 10k s`; the first is zero-width and every later one is exactly 10 s wide |
| BackgroundProcessor.ConsecutiveWindowsMeet | internal/services/background_processor.go:47-48 | each window starts where the previous one stopped |
| BackgroundProcessor.CoveringTick | internal/services/background_processor.go:47-48 | every instant from `t0` to the end of window n lies in the window of some tick 0..n: the scan leaves no gap |
| BackgroundProcessor.SharedEndpointQueriedTwice | internal/services/background_processor.go:28-48 | the end of window k is also inside window k + 1, so an event due exactly then is queried by two ticks |
| BackgroundProcessor.Accepted | internal/services/background_processor.go:38-41 | the delivered events are some of the batch's events, no more than the batch |
| BackgroundProcessor.AllDeliveredWhenChannelAccepts | internal/services/background_processor.go:33-41 | when every publish succeeds, the whole batch is delivered in order |
| BackgroundProcessor.Deliveries | internal/services/background_processor.go:33-44 | over a run of ticks the channel never delivers more events than were published |
| BackgroundProcessor.AllBatchesDeliveredWhenChannelAccepts | internal/services/background_processor.go:33-44 | when every publish of every tick succeeds, the deliveries of a run are exactly its published batches, in order |

## Left out

- Logging, `time.Sleep` and the goroutine around the scan loop are not modelled.
- The connection setup in `NewPSQL` is not modelled.
- The message channel's own code and the RPC and network layers are not modelled.
- Time zones and daylight saving are not modelled: instants are wall-clock nanoseconds in one fixed zone, so a day is always 24 hours.
- `MustBegin` and `MustExec` panics are not modelled. A failed transaction is the `commitFails` flag, and the table is then unchanged.
- The body of `GetPublishEvents` is not part of this model, so its answer is an oracle parameter of `Tick`.
- `Publish` is not part of this model, so its outcome is the `publishOk` oracle.
- BackgroundProcessor.Processor.RunTicks: models a finite number of iterations of the unbounded scan loop, one per given answer.
- BackgroundProcessor.Processor.constructor: takes one `now` for both ends. The source builds each end with eight separate `time.Now()` calls: one for each of the seven date and clock fields of `time.Date`, and one for the location. A field rollover between two reads therefore mixes fields of different instants, and can put either end off by a whole second, minute, hour, day, month or year. If `stop` alone is hit, the first window is inverted and the cursor stays that far in the past. `BackgroundProcessor.FromReads` models these reads, and the constructor models only the intended single read (see Findings).
- Scheduler.Scheduler.EventsBetween: says nothing about the order of the result, because Go's map iteration order is unspecified. The returned events are tied one-to-one to the distinct keys in the window, which gives the same result up to order as a multiset statement.
- Go's nil slice and empty slice are both the empty sequence here.
- Psql: SQL gives no row order without ORDER BY. "First matching id" is modelled as the first row in one fixed scan order.
- Psql: row ids come from a counter `nextId` that stands for the table's serial column. Ids are assumed positive and never reused.

## Findings

| source | as written | input that shows it | evidently intended | confidence | as-written member | corrected member |
|---|---|---|---|---|---|---|
| internal/interfaces/psql.go:85-87 | `if identifier != 0` rejects with "Event with UUID … not exist in DB" when the UUID IS found; for an absent UUID it runs the UPDATE with id 0, which matches no row, and returns true | a table holding one row with UUID "u"; `UpdateEvent` with UUID "u" returns (false, "not exist"); with any UUID not in the table it returns (true, nil) and changes nothing | reject when the identifier is 0 (absent) and update the found row otherwise | high (not executed) | Psql.PSQL.UpdateEvent | Psql.PSQL.UpdateEventChecked |
| internal/interfaces/psql.go:105-107 | the same inverted guard: a present UUID is refused as "not exist"; an absent one runs `DELETE … WHERE id = 0`, which removes nothing, and returns true | a table holding one row with UUID "u"; `RemoveEvent` with UUID "u" returns (false, "not exist") and the row stays | reject when the identifier is 0 and delete the found row otherwise | high (not executed) | Psql.PSQL.RemoveEvent | Psql.PSQL.RemoveEventChecked |
| internal/services/background_processor.go:21-22 | `start` and `stop` are each built by `time.Date` from eight separate `time.Now()` calls, one per argument, evaluated left to right | the year is read at 23:59:59.999999999 on December 31 and every other field after midnight: the cursor end becomes January 1 of the old year; if only `stop` is hit, `stop` is a year less 1 ns before `start` (YearRolloverBetweenReads, InvertedFirstWindow) | read the clock once (`now := time.Now()`) and start both ends at `now` | high (not executed); the reads are microseconds apart, so it shows only when a field rolls over between them | BackgroundProcessor.FromReads | BackgroundProcessor.Processor.constructor |
