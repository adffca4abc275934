# Race-driven job scheduling of my-horse-scraper, in Dafny

This project models the scheduling core of the horse-racing scraper: the
daily scrape of the Unibet programme, the refresh cycle that wipes and
re-fetches the race table, and the balance-to-bankroll rule. Each part is
modelled at the level the Python code works at, and properties of that model
are proved.

- **Daily scrape** (`app/scrapers/daily.py`). The model covers four steps.
  - The per-record conversion loop of `_extract_races`. A record whose epoch `int` cannot read is skipped. A `distance` text ending in `m` goes through `int(d.rstrip("m"))`, and if that raises, the whole extraction aborts.
  - The upsert by `unibet_id`, which updates in place or appends with SQLite's next rowid.
  - `_schedule_per_race_jobs`, which registers `race_<id>` three minutes before the start.
  - The `ScrapeLog` row. Once the browser is up, the row starts "ok", turns "error" on any failure and always gets `finished_at`. A failed browser launch raises before the `try` block, so no row is written.
- **Refresh cycle** (`app/scheduler_refresh.py`). The model covers:
  - `find_next_safe_refresh_time`, as a pure function over the stored race starts;
  - the job-store effects of `schedule_next_refresh`, `hourly_refresh_check`, `setup_hourly_refresh` and `trigger_manual_refresh`;
  - `clear_db_and_refresh`, which empties `RaceDetail` and `Race` and then runs the daily scrape.
- **Balance** (`test_balance_extraction.py`). The model covers:
  - the cleanup in `extract_balance_from_page`;
  - the separator rule of `test_balance_parsing`;
  - `float` on decimal text;
  - `get_bankroll_from_balance`, using Python's round-half-even.

The modules follow the program's structure:
- `Wrappers`: Option and Result.
- `PyText`: the `str` methods and `int`/`str` conversions used.
- `Models`: the tables and a `Database` object holding them.
- `JobStore`: a `Scheduler` class holding `map<string, Job>`, with `add_job(replace_existing=True)`, `get_job` and `remove_job`.
- `Daily`, `RefreshPlanner`, `RefreshJobs` and `Balance`.

Other modelling choices:
- Instants are integer milliseconds, UTC.
- Loops that change state are methods. Each is proved equal to a specification function, and the lemmas are about that function.

Behaviour of the code worth knowing:
- Only `hourly_refresh_check` removes pending refresh jobs. `trigger_manual_refresh` does not, so a manual request can leave both `db_refresh_immediate` and `db_refresh_delayed` registered (`RefreshJobs.ManualRefreshCanLeaveBoth`).
- Per-race job ids are `race_<id>`.
- `clear_db_and_refresh` deletes table rows but not the `race_<id>` jobs. SQLite's rowid restarts at 1 in an empty table, so re-fetched races reuse the ids of wiped ones. A new race whose id already has a job gets no job of its own; that job keeps its old run time (`Daily.PlanRaceJobs`).

## Model

| member | source | states |
|---|---|---|
| PyText.Strip | test_balance_extraction.py:30 | `str.strip()`: no whitespace at either end, and text already without whitespace at its ends is returned unchanged |
| PyText.StripSlice | test_balance_extraction.py:30 | the stripped text is a contiguous slice of the input with only whitespace cut on either side |
| PyText.Remove | test_balance_extraction.py:30 | `replace(c, '')`: `c` no longer occurs, and text without `c` is unchanged |
| PyText.RemoveCounts | test_balance_extraction.py:30 | every other character occurs as often after the deletion as before |
| PyText.RemoveAppend | test_balance_extraction.py:196 | deleting a character works piece by piece, so the kept characters stay in order |
| PyText.Replace | test_balance_extraction.py:34 | `replace(c, d)`: same length, each `c` becomes `d`, everything else in place |
| PyText.IndexOf | test_balance_extraction.py:195 | `str.index`: the first position holding the character |
| PyText.RStripChar | app/scrapers/daily.py:96 | `rstrip("m")`: the longest prefix not ending in `m`, only `m`s cut |
| PyText.ParseIntRoundTrip | app/scrapers/daily.py:83 | `int(str(i)) == i` for every integer |
| PyText.ParseInt | app/scrapers/daily.py:96 | `int(s)` on base-10 text: surrounding whitespace, an optional sign, digit groups, None where Python raises; text without a digit is rejected, so `int("")` and `int("m")` raise. `PyText.ParseIntRoundTrip` makes it the inverse of `IntToString` |
| PyText.IntToString | app/scrapers/daily.py:120 | `str(i)`: a minus sign exactly when `i` is negative, then only digits; read back by `ParseInt` (`PyText.ParseIntRoundTrip`) and injective (`PyText.IntToStringInjective`) |
| PyText.IntToStringInjective | app/scrapers/daily.py:120 | distinct integers render to distinct strings |
| Models.WithData | app/scrapers/daily.py:165-166 | `setattr` of every key keeps the row id and takes `unibet_id` and `race_time` from the record |
| Models.MaxId | app/models.py:7 | the largest stored id, 0 for an empty table, bounding every id |
| Models.NextId | app/models.py:7 | the rowid of an inserted race is positive and above every stored id |
| Models.RaceTimes | app/scheduler_refresh.py:27-32 | the start of each stored race, in table order |
| Models.Database.constructor | app/models.py:6-34 | the three tables start empty and valid |
| JobStore.Scheduler.constructor | app/scheduler.py:9-23 | the job store starts empty |
| JobStore.Scheduler.GetJob | app/scrapers/daily.py:121 | a job is returned exactly when one is registered under the id, and it is that job |
| JobStore.Scheduler.AddJob | app/scheduler_refresh.py:129-136 | `replace_existing=True`: the id now holds the new job, every other id is unchanged |
| JobStore.Scheduler.RemoveJob | app/scheduler_refresh.py:160-165 | the id is gone afterwards; `found` is false exactly when the library would raise, and then nothing changes |
| Daily.ParseEpoch | app/scrapers/daily.py:81-87 | an epoch that is read lies in the range a `datetime` can hold |
| Daily.ParseEpochRoundTrip | app/scrapers/daily.py:83 | every in-range epoch written in decimal is read back exactly |
| Daily.ParseDistance | app/scrapers/daily.py:96 | text not ending in `m` gives no distance |
| Daily.DistanceWithUnit | app/scrapers/daily.py:96 | a number followed by one or more `m` gives that number |
| Daily.DistanceUnitOnly | app/scrapers/daily.py:96 | `m`s without a number make the conversion raise |
| Daily.ConvertRecord | app/scrapers/daily.py:80-98 | the record is skipped iff its epoch cannot be read, raises iff the epoch is read and the distance raises, else carries the record's `unibet_id`, `name`, `meeting` and `url`, the start read from the epoch, `distance_m` as `Daily.ParseDistance` reads it, no surface and the scrape time |
| Daily.Collect | app/scrapers/daily.py:79-100 | the loop over the per-record outcomes stops at the first error and otherwise keeps at most one race per record; `Daily.CollectAppend` and `Daily.ExtractOkIff` state how it composes and when it raises |
| Daily.ExtractAll | app/scrapers/daily.py:79-100 | the list `_extract_races` returns once the page is read never holds more races than records; `Daily.ExtractAppend`, `Daily.BadEpochSkipped` and `Daily.ExtractOkIff` state the rest |
| Daily.CollectAppend | app/scrapers/daily.py:79-100 | the loop over two pieces is the first error, or the two outputs concatenated |
| Daily.ExtractAppend | app/scrapers/daily.py:79-100 | kept records preserve input order and the conversion is record by record |
| Daily.BadEpochSkipped | app/scrapers/daily.py:85-87 | a record with an unreadable epoch is dropped without affecting any other |
| Daily.ExtractOkIff | app/scrapers/daily.py:81-96 | the loop completes iff no record has a readable epoch together with a distance `int` rejects |
| Daily.ExtractRaces | app/scrapers/daily.py:79-100 | the loop returns the specified list of converted records, or the first error |
| Daily.FindByUnibet | app/scrapers/daily.py:162-164 | `.first()`: the first row with that `unibet_id`, or none exists |
| Daily.UpsertOne | app/scrapers/daily.py:162-168 | one record grows the table by at most one row and the saved position lies inside it; `Daily.UpsertOneEffect` states the whole effect |
| Daily.UpsertAll | app/scrapers/daily.py:159-168 | the table never shrinks and `saved` has one valid position per record |
| Daily.UpsertOneEffect | app/scrapers/daily.py:162-168 | a matching row takes every field of the record and keeps its id; otherwise a row with a fresh id is appended; no other row changes |
| Daily.UpsertAllFrame | app/scrapers/daily.py:159-169 | stored rows keep place, id and `unibet_id`; ids and `unibet_id`s stay unique |
| Daily.UpsertAllFreshIds | app/scrapers/daily.py:164 | appended rows get ids above every id stored before |
| Daily.UpsertAllSaved | app/scrapers/daily.py:168 | `saved[j]` is the row holding record `j`, in input order |
| Daily.UpsertAllStored | app/scrapers/daily.py:161-169 | a stored row named in the batch ends with the last record for it under its own id; rows absent from the batch remain untouched |
| Daily.UpsertAllAppended | app/scrapers/daily.py:164-167 | every appended row holds the last record of the batch with its `unibet_id` |
| Daily.UpsertNoNewRows | app/scrapers/daily.py:162-164 | a batch of already stored `unibet_id`s appends nothing |
| Daily.UpsertIdempotent | app/scrapers/daily.py:159-169 | upserting the same batch again changes nothing, so the race count is unchanged |
| Daily.UpsertRaces | app/scrapers/daily.py:159-171 | the upsert loop yields the specified table and `saved`, keeps the table valid, and leaves details and logs alone |
| Daily.RaceJobIdInjective | app/scrapers/daily.py:120 | two races share a job id only if they share a race id |
| Daily.PlanRaceJobs | app/scrapers/daily.py:110-132 | the job store after the per-race loop: a registered job is never changed, even if its race's start moved; `Daily.PlanAddsOnlyRaceJobs`, `Daily.PlanCoversUpcoming` and `Daily.PlanSkipsStale` state what is added |
| Daily.PlanAddsOnlyRaceJobs | app/scrapers/daily.py:110-132 | every added job is `race_<id>` of an upcoming race in the list, at start minus 3 min, args `[id]`, grace 60 |
| Daily.PlanCoversUpcoming | app/scrapers/daily.py:110-132 | afterwards every upcoming race of the list has a job under its id |
| Daily.PlanSkipsStale | app/scrapers/daily.py:116-118 | a race whose run time is at or before now gets no job |
| Daily.PlanNoOp | app/scrapers/daily.py:110-132 | when every upcoming race already has a job the call changes nothing |
| Daily.PlanIdempotent | app/scrapers/daily.py:110-132 | a second call with the same races and clock adds nothing |
| Daily.ScheduleRaceJobs | app/scrapers/daily.py:103-132 | the loop leaves the job store specified by the per-race plan |
| Daily.DailyScrape | app/scrapers/daily.py:146-187 | once the browser is up: the log is "daily", has both timestamps, is "ok" iff the page was read and converted; on error tables and jobs are unchanged; `Daily.DailyScrapeSaves` states the successful run |
| Daily.DailyScrapeSaves | app/scrapers/daily.py:159-175 | a successful run keeps every stored race and its id, keeps every job, and logs "Saved N races" with N the converted records |
| Daily.RunDailyScrape | app/scrapers/daily.py:142-188 | a browser launch failure propagates and changes nothing; otherwise tables and jobs are as specified and one log row is appended |
| RefreshPlanner.InHorizonCounts | app/scheduler_refresh.py:27-30 | exactly the starts in `(now, now + 24h]`, each as often as stored |
| RefreshPlanner.Insert | app/scheduler_refresh.py:31 | inserting keeps the list sorted and adds exactly the one start |
| RefreshPlanner.SortAsc | app/scheduler_refresh.py:31 | `order_by`: sorted and a permutation of its input |
| RefreshPlanner.Candidates | app/scheduler_refresh.py:27-32 | the candidates are sorted and are exactly the stored starts in the window, with multiplicity |
| RefreshPlanner.InCandidates | app/scheduler_refresh.py:27-32 | a start is a candidate iff it is stored and in the window |
| RefreshPlanner.Walk | app/scheduler_refresh.py:60-92 | whatever the loop returns is the busy end, start + 10 min, of a race at or after the index it starts from; `RefreshPlanner.WalkResult` says which race |
| RefreshPlanner.WalkResult | app/scheduler_refresh.py:60-92 | the loop returns the busy end of the first race with a qualifying gap, or else of the last race, and no earlier gap qualifies |
| RefreshPlanner.Tomorrow | app/scheduler_refresh.py:95 | 01:00 UTC of the next day: between 1 h and 25 h ahead |
| RefreshPlanner.FallbackUnreachable | app/scheduler_refresh.py:60-97 | with at least one candidate the loop always returns, so the fallback never runs |
| RefreshPlanner.PlanFor | app/scheduler_refresh.py:34-97 | the decision on the candidate list: when it is sorted, "safe now" iff no candidate starts within 3 min of now |
| RefreshPlanner.FindNextSafeRefreshTime | app/scheduler_refresh.py:17-97 | safe now iff no stored race starts in `(now, now + 3 min]`; a race at exactly now + 3 min is not safe; `RefreshPlanner.RefreshAtFirstGap`, `RefreshPlanner.RefreshAtBusyEnd` and `RefreshPlanner.RefreshAtCollisionFree` state the delayed instant |
| RefreshPlanner.RefreshAtFirstGap | app/scheduler_refresh.py:60-92 | a delayed refresh is start + 10 min of the first candidate whose gap is at least 3 min, or of the last candidate, and no earlier gap qualifies |
| RefreshPlanner.RefreshAtBusyEnd | app/scheduler_refresh.py:69-92 | a delayed refresh is 10 min after a candidate start, so strictly later than now + 10 min |
| RefreshPlanner.RefreshAtCollisionFree | app/scheduler_refresh.py:69-92 | no candidate starts in `[t, t + 3 min)` for the returned `t` |
| RefreshPlanner.InHorizonOfTwo | app/scheduler_refresh.py:27-30 | two starts in the window are both kept |
| RefreshPlanner.SortOfTwo | app/scheduler_refresh.py:31 | two ordered starts keep their order |
| RefreshPlanner.CandidatesOfTwo | app/scheduler_refresh.py:27-32 | two ordered starts in the window are the candidate list as they are |
| RefreshPlanner.ExampleSafeNow | app/scheduler_refresh.py:51-55 | races at +10 and +40 min: safe now |
| RefreshPlanner.ExampleAfterFirstRace | app/scheduler_refresh.py:69-88 | races at +1 and +90 min: refresh at +11 min |
| RefreshPlanner.ExampleExactGap | app/scheduler_refresh.py:85 | a gap of exactly 3 min qualifies |
| RefreshPlanner.ExampleShortGap | app/scheduler_refresh.py:85-92 | a gap 1 ms short does not, and the walk ends at the last race |
| RefreshJobs.IdsDistinct | app/scheduler_refresh.py:133-192 | the four refresh and check ids are pairwise different |
| RefreshJobs.RaceJobIdsApart | app/scrapers/daily.py:120 | a `race_<id>` id is never a refresh or check id |
| RefreshJobs.AfterScheduleNextRefresh | app/scheduler_refresh.py:121-147 | safe now: `db_refresh_immediate` at now + 5 s, grace 300; otherwise `db_refresh_delayed` at the planned instant, grace 300; a job under that id is replaced and all other ids are unchanged |
| RefreshJobs.AfterHourlyCheck | app/scheduler_refresh.py:151-168 | afterwards exactly one of the two refresh ids exists, the one the plan asks for; other ids unchanged |
| RefreshJobs.HourlyCheckRepeat | app/scheduler_refresh.py:151-168 | a second check with the same races and clock leaves the same store |
| RefreshJobs.ManualRefreshCanLeaveBoth | app/scheduler_refresh.py:202-205 | the manual trigger removes nothing, so both refresh ids can coexist |
| RefreshJobs.AfterSetup | app/scheduler_refresh.py:173-194 | `hourly_refresh_check` (hourly, grace 300) and `initial_refresh_check` (now + 30 s) registered, replacing older ones; other ids unchanged |
| RefreshJobs.ScheduleNextRefresh | app/scheduler_refresh.py:121-147 | the job store afterwards is the specified registration of the plan |
| RefreshJobs.HourlyRefreshCheck | app/scheduler_refresh.py:151-171 | both refresh ids removed, missing ones ignored, then the next refresh registered |
| RefreshJobs.SetupHourlyRefresh | app/scheduler_refresh.py:173-199 | the job store afterwards has the two check jobs as specified |
| RefreshJobs.TriggerManualRefresh | app/scheduler_refresh.py:202-205 | the same registration as `schedule_next_refresh`, with nothing removed first |
| RefreshJobs.ClearDbAndRefresh | app/scheduler_refresh.py:99-119 | details and races emptied first; a browser failure is swallowed and leaves the tables empty; otherwise the result is the daily scrape on an empty table |
| Balance.CleanBalanceText | test_balance_extraction.py:30 | the cleaned text has no whitespace at either end |
| Balance.CleanBalanceTextClean | test_balance_extraction.py:30 | no `€`, no ASCII space, no whitespace at the ends, and only characters of the input |
| Balance.CommaAsDecimal | test_balance_extraction.py:33-34 | same length, no comma left, each comma replaced by a dot and nothing else changed |
| Balance.NormalizeSeparators | test_balance_extraction.py:193-201 | no comma remains in any branch |
| Balance.NormalizeKeepsDigits | test_balance_extraction.py:193-201 | every branch keeps the digits, in order |
| Balance.NormalizeCommaFirst | test_balance_extraction.py:193-196 | comma before dot: all commas deleted, every other character kept |
| Balance.NormalizeDotFirst | test_balance_extraction.py:197-199 | dot before comma: all dots deleted and each comma becomes the one dot, no comma left |
| Balance.NoCommaUnchanged | test_balance_extraction.py:200-201 | text without a comma passes through both routines unchanged |
| Balance.NoDotRoutinesAgree | test_balance_extraction.py:200-201 | with commas only, both routines turn each comma into a dot |
| Balance.ParseFloat | test_balance_extraction.py:36 | `float` on decimal text: whitespace, an optional sign, digit groups with an optional fractional part; any text holding a comma is rejected, which is why lines 33-34 rewrite commas; `Balance.ParseFloatOfInteger` and `Balance.ParseFloatCents` give its values |
| Balance.ParseFloatOfInteger | test_balance_extraction.py:36 | on text without a dot `float` and `int` agree |
| Balance.ParseFloatCents | test_balance_extraction.py:36 | an amount written with two decimals reads back exactly |
| Balance.ExtractBalance | test_balance_extraction.py:19-45 | the balance read from the element's text: a text without a comma is read by `float` straight after the cleanup; `Balance.ExtractBalanceEuroText`, `Balance.ExtractBalanceFallback` and `Balance.ExtractBalanceThousandsFallsBack` give its values |
| Balance.ExtractBalanceEuroText | test_balance_extraction.py:19-37 | a balance shown as "145,70 €" is read as exactly that amount |
| Balance.ExtractBalanceFallback | test_balance_extraction.py:38-45 | a missing element or a text `float` rejects gives 50.0 |
| Balance.ExtractBalanceThousandsFallsBack | test_balance_extraction.py:33-36 | as written, any amount shown with a thousands comma falls back to 50.0 |
| Balance.ExtractBalanceNormalized | test_balance_extraction.py:192-203 | the balance read with the separator rule; on text without a dot it equals `Balance.ExtractBalance` |
| Balance.ExtractNormalizedThousands | test_balance_extraction.py:192-203 | with the separator rule the same text reads as the full amount |
| Balance.ExtractNormalizedDotThousands | test_balance_extraction.py:197-203 | a balance shown as "1.234,56 €" reads as the full amount: the thousands dot is dropped and the decimal comma becomes the dot |
| Balance.RoundHalfEven | test_balance_extraction.py:49 | `round`: within 1/2 of the input, ties to the even integer |
| Balance.Bankroll | test_balance_extraction.py:47-51 | the bankroll is at least 1 whatever the balance |
| Balance.BankrollBounds | test_balance_extraction.py:47-51 | from a balance of 2 on, within 1/2 of half the balance; below 1 it is 1 |
| Balance.BankrollTies | test_balance_extraction.py:49-51 | ties go to even: balance 5 gives 2, 7 gives 4, 145.7 gives 73, 0 gives 1 |

## Left out

- Timezone resolution with Europe/Paris. Instants are already-resolved UTC milliseconds, so the naive-versus-aware handling of stored times is not modelled.
- Job firing, misfire-grace enforcement and cron evaluation in the scheduler library. Jobs are values in an id-keyed map; a grace is recorded but never applied.
- Browser work: cookie dismissal, navigation and the in-page extraction script. The raw records, or the failure to get them, are the `Feed` parameter.
- SQL sessions, autoflush and commit. The tables are sequences on a `Database` object; the exceptions a database or the scheduler could raise are not modelled.
- Logging, and the JSON payload of `RaceDetail`.
- Daily.RunDailyScrape: the clock readings of a run come in as one `Clock` parameter: `started_at`, one `scraped_at`, one scheduling `now` and `finished_at`.
- Daily.ExtractAll: every record of a run gets the same `scraped_at`, where the source reads `datetime.utcnow()` once per record (app/scrapers/daily.py:97).
- Daily.ScheduleRaceJobs: one `now` serves every race, where the source reads the clock once per race (app/scrapers/daily.py:116).
- RefreshJobs.ScheduleNextRefresh: one `now` serves both the plan and the immediate job's run time, where the source reads the clock twice.
- Balance.ParseFloat: exponents, `inf`, `nan` and binary rounding are not modelled. Text Python reads as infinity, NaN or with an exponent counts as a failure, so it gets the fallback. Values are exact reals. Only ASCII digits count; Python's `float` also accepts other Unicode decimal digits.
- Balance.ExtractBalance: a missing element and an element without text are one case, `None`. Both give the fallback in the source too, the second through the caught exception.
- PyText.ParseInt: only ASCII digits count. Python's `int` also accepts other Unicode decimal digits.
- Daily.ParseEpoch: the `/ 1000` float division is not modelled. The epoch is kept as integer milliseconds.

## Findings

| source | as written | input that shows it | evidently intended | confidence | as-written member | corrected member |
|---|---|---|---|---|---|---|
| test_balance_extraction.py:33-36 | every comma becomes a dot even when the text already has a decimal dot, so a thousands comma yields two dots and `float` fails | "1,234.56 €" gives the fallback 50.0 | 1234.56, as the separator rule at lines 193-196 of the same file reads it | medium, not executed | Balance.ExtractBalanceThousandsFallsBack | Balance.ExtractNormalizedThousands |
