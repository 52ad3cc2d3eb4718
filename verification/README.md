# RailConnect route search, modelled in Dafny

This project models the route search of RailConnect's backend
(`backend/graph.py`). Given a source and a destination station, a travel
date, a sort criterion and the requested numbers of train switches, the
search returns:

- direct trains;
- one-switch connections whose total time is at most 1.25 times the
  fastest direct journey;
- two-switch connections whose total time is at most 1.5 times the
  fastest direct journey.

Every layover lasts 15 minutes to 12 hours, and no leg uses a train that
already runs direct. The result is sorted by duration or by number of
switches, then capped at 250 routes. When a precomputed answer for the
station pair sits in the route cache, that answer is served instead. Its
timestamps are stored relative to 2024-01-01 and are shifted by whole days
to the requested date (`offset_cached_dates`).

The modules follow the program's structure:

- `Wrappers`: `Option` and `Result`.
- `Digits`: decimal digit texts.
- `Calendar`: the proleptic Gregorian dates and date-times of Python's
  `datetime`, with day numbers, `timedelta` days and minutes.
- `Timestamps`: the `%Y-%m-%d` and `%Y-%m-%d %H:%M:%S` formats and their
  parsers.
- `TimeHelpers`: `time_to_mins`, `get_journey_time`,
  `add_mins_to_datetime_str`, `make_datetime_str` and the layover formula.
- `Json`: the cached document.
- `CacheRebase`: `offset_cached_dates`.
- `Routes`: timetable rows, routes and legs, and route construction.
- `TrainKeys`: train keys, the dictionaries keyed by them, and the
  dedup-by-seen-set loop.
- `Buckets`: the three route buckets.
- `Ordering`: the sort criteria and the cap.
- `SwitchList`: the `switches` parameter.
- `Search`: `find_routes` itself.

Each loop of the search is modelled step by step, as written. Each one is
then proved equal to, or bounded by, an independent description of what it
keeps.

## Model

| member | source | states |
|---|---|---|
| TimeHelpers.TimeToMins | backend/graph.py:50-54 | "None" and the empty text count as 0 minutes; a valid clock time gives fewer than 1440 minutes |
| TimeHelpers.TimeToMinsOfClock | backend/graph.py:50-54 | hours and minutes written as "HH:MM" or "HH:MM:SS" read back as hours*60+minutes; seconds are ignored |
| TimeHelpers.Anchor | backend/graph.py:66-70 | a clock time on a date is a valid date-time on that date, that many minutes after the date's midnight |
| TimeHelpers.JourneyTimeIsElapsed | backend/graph.py:56-59 | `get_journey_time` (`TimeHelpers.JourneyTime`) is exactly the minutes elapsed between the departure on its run day and the arrival on its run day |
| TimeHelpers.JourneyTimeMidnight | backend/graph.py:56-59 | a departure at 23:50 on day 1 with arrival at 00:10 on day 2 is 20 minutes |
| TimeHelpers.Layover | backend/graph.py:198-201 | the layover lies in [0, 1440) and is congruent to departure minus arrival modulo a day |
| TimeHelpers.LayoverReachesDeparture | backend/graph.py:198-201 | the arrival instant plus the layover shows the departure's hour and minute, so the wait is the first such instant within a day |
| TimeHelpers.AnchorTextParses | backend/graph.py:66-70 | the text `make_datetime_str` (`TimeHelpers.AnchorText`) builds from a date and a clock time parses back to that date-time, seconds defaulting to 00 |
| TimeHelpers.AddMinsToText | backend/graph.py:61-64 | fails as unparseable exactly when the text is not a timestamp; otherwise succeeds exactly when the moved date-time stays in years 1..9999, and then the result is the timestamp moved by the minutes |
| TimeHelpers.AddMinsToTextRoundTrip | backend/graph.py:61-64 | adding k minutes and then -k minutes gives the original text back |
| Timestamps.ParseFormatDate | backend/graph.py:28 | a written-out date parses back to itself |
| Timestamps.ParseFormatTimestamp | backend/graph.py:37-38 | a written-out timestamp parses back to itself |
| Timestamps.ParseTimestamp | backend/graph.py:37-38 | a parsed text is 19 characters long and is the written-out form of the date-time it gives |
| Calendar.AddMinutesRoundTrip | backend/graph.py:61-64 | moving a date-time forward and then back by the same minutes is the identity |
| Calendar.AddMinutes | backend/graph.py:61-64 | the result is a valid date-time exactly k minutes later on the absolute minute scale, seconds unchanged |
| Calendar.DaysBetween | backend/graph.py:30 | adding the computed number of days to the first date gives the second |
| CacheRebase.ShiftText | backend/graph.py:35-40 | a non-timestamp string is kept; a timestamp moves by the given number of days, or the rebase fails on year overflow |
| CacheRebase.ShiftTextAdditive | backend/graph.py:35-40 | shifting by a days and then by b days is shifting by a+b days |
| CacheRebase.OffsetCachedDates | backend/graph.py:27-48 | an unreadable target date fails; otherwise it succeeds exactly when every object-held timestamp, moved by the days from 2024-01-01 to the target, stays in years 1..9999; on success every object-held timestamp moved by the days from 2024-01-01 to the target and nothing else changed |
| CacheRebase.RebaseValueMoves | backend/graph.py:32-45 | a successful `traverse_and_add` (`CacheRebase.RebaseValue`) keeps the document's shape, keys and every non-timestamp value, and moves exactly the timestamps held directly by objects |
| CacheRebase.RebaseValueSucceeds | backend/graph.py:32-45 | the traversal succeeds exactly when every timestamp held directly by an object, moved by the days, stays in years 1..9999 |
| CacheRebase.RebaseZeroIdentity | backend/graph.py:32-45 | rebasing by zero days returns the document unchanged |
| CacheRebase.CanonicalIsIdentity | backend/graph.py:27-48 | requesting 2024-01-01 returns the cached document unchanged |
| CacheRebase.RebaseAdditive | backend/graph.py:32-45 | rebasing by a and then b days is rebasing by a+b days |
| CacheRebase.RebaseInverse | backend/graph.py:32-45 | rebasing by a days and then by -a days gives the original document back |
| CacheRebase.ExampleDelta | backend/graph.py:28-30 | 2026-03-01 lies 790 days after 2024-01-01 |
| CacheRebase.ExampleRequest | backend/graph.py:27-48 | a request for 2026-03-01 rebases by 790 days |
| CacheRebase.RebaseDepartureBesideTrain | backend/graph.py:34-43 | in an object holding a departure timestamp and a train number, the timestamp moves and the train number stays |
| CacheRebase.RebaseToDate | backend/graph.py:27-48 | a departure cached on 2024-01-01 at some clock time is served on the requested date at the same clock time |
| Routes.RideLeg | backend/graph.py:210-218 | a leg carries its ride's train number, train name and stations, departs at the given time, and arrives the ride's duration later with the same seconds, at the ride's scheduled arrival time when it left at the scheduled departure time |
| Routes.RideLayover | backend/graph.py:197-201 | the layover between two rides lies in [0, 1440) and is the second ride's departure time minus the first ride's arrival time, modulo a day |
| Routes.ArrivalClock | backend/graph.py:56-59 | a ride boarded at its scheduled time of day arrives at its scheduled time of day, however many days later |
| Routes.TransferClock | backend/graph.py:197-201 | waiting the layover after arriving at the first ride's scheduled time reaches the second ride's scheduled departure time |
| Routes.DirectRoute | backend/graph.py:130-141 | a direct route carries the row's train number and name, departs at the row's clock time on the request date, arrives its duration later with the same seconds, and its duration is the row's journey time |
| Routes.Candidate1 | backend/graph.py:187-232 | a one-switch candidate carries the row's transfer-station code and name and its train names, each leg departs and arrives at its ride's scheduled times of day, departs at the first row's clock time on the request date, each leg lasts its row's journey time, leg 2 departs exactly the computed layover after leg 1 arrives, every timestamp keeps the first departure's seconds, the legs chain from source to destination, the total is both journey times plus the layover, and its key is the ordered train pair |
| Routes.Candidate2 | backend/graph.py:296-353 | a two-switch candidate carries the row's two transfer-station codes and names and its three train names, each leg departs and arrives at its ride's scheduled times of day, departs at the first row's clock time on the request date, each of its three legs lasts its row's journey time, each later leg departs exactly the computed layover after the previous one arrives, every timestamp keeps the first departure's seconds, the total is the three journey times plus both layovers, and its key is the ordered train triple |
| TrainKeys.KeysMember | backend/graph.py:241-248 | a key is among a sequence's keys exactly when some route carries it |
| TrainKeys.DedupFromDistinct | backend/graph.py:241-248 | the seen-set dedup loop leaves no repeated key and adds no seen key |
| TrainKeys.DedupFromKeys | backend/graph.py:241-248 | the dedup loop keeps every key not seen before, and only those |
| TrainKeys.DedupFromFirst | backend/graph.py:241-248 | each route the dedup loop keeps is the first route in its input with that key |
| TrainKeys.DedupFromIdentity | backend/graph.py:357-365 | on input whose keys are distinct and unseen, the dedup loop drops nothing |
| TrainKeys.Put | backend/graph.py:215 | a dictionary store adds the key, holds the new value, keeps every other entry, appends a new key at the end, and keeps the length when the key is already present |
| TrainKeys.PutAt | backend/graph.py:215 | overwriting a present key keeps its position: each position holds the new value if its key is the stored one, and its old entry otherwise |
| TrainKeys.PutDistinct | backend/graph.py:215 | a dictionary store keeps keys distinct and leaves entries under other keys untouched |
| TrainKeys.LookupDistinct | backend/graph.py:209 | in a dictionary with distinct keys, looking up an entry's key returns that entry |
| Buckets.MinDirect | backend/graph.py:124-129 | no fastest time exactly when there is no direct row; otherwise it is at most every direct row's time and equal to one of them |
| Buckets.DirectBucket | backend/graph.py:126-141 | one direct route per direct row, in row order, none dropped |
| Buckets.Run1Invariant | backend/graph.py:187-234 | after any prefix of rows, the dictionary and the emitted list carry exactly the accepted train pairs, and the emitted list deduplicates to the first accepted candidate per pair |
| Buckets.Accepted1Good | backend/graph.py:187-234 | every accepted one-switch candidate meets the layover window, the 1.25 threshold and the no-direct-train rule |
| Buckets.OneSwitchIsFirstAccepted | backend/graph.py:187-248 | the one-switch bucket (`Buckets.OneSwitchBucket`) is the first accepted candidate per ordered train pair, in order of first acceptance |
| Buckets.OneSwitchBucketFacts | backend/graph.py:187-248 | the one-switch bucket has distinct train pairs, covers every accepted pair, and holds only admissible candidates, each the first of its pair |
| Buckets.Run2Invariant | backend/graph.py:296-353 | after any prefix of rows, the dictionary holds one candidate per accepted train triple, each of least total among its triple |
| Buckets.Accepted2Good | backend/graph.py:296-353 | every accepted two-switch candidate meets both layover windows, the 1.5 threshold and the no-direct-train rule |
| Buckets.TwoSwitchBucketFacts | backend/graph.py:252-365 | the two-switch bucket has distinct train triples, covers every accepted triple, and holds only admissible candidates of least total in their triple |
| Buckets.FirstShortestFirst | backend/graph.py:320 | the first candidate of least total for a key is no longer than any candidate with that key, and on a tie it comes no later |
| Buckets.TwoSwitchBucketOrder | backend/graph.py:296-365 | the two-switch bucket (`Buckets.TwoSwitchBucket`) lists the accepted train triples in order of first acceptance, each with the first accepted candidate of least total for it |
| Buckets.Capped | backend/graph.py:289 | the two-switch query yields the first 5000 rows at most |
| Ordering.SortCorrect | backend/graph.py:367-370 | the stable sort (`Ordering.Sort`) orders routes by key and returns exactly the same routes (as a multiset) |
| Ordering.SortStable | backend/graph.py:367-370 | routes with equal keys keep their relative order |
| Ordering.SortApart | backend/graph.py:367-370 | sorting keeps connecting routes on distinct trains |
| Ordering.Cap | backend/graph.py:372 | at most 250 routes, a prefix of the input, and all of them when there are at most 250 |
| SwitchList.Split | backend/graph.py:98 | a split yields at least one part and no part holds a comma |
| SwitchList.JoinSplit | backend/graph.py:98 | joining the parts of a split with commas gives the text back |
| SwitchList.SplitJoin | backend/graph.py:98 | splitting a comma-join of comma-free parts gives the parts back |
| SwitchList.ParseIntOfPad | backend/graph.py:98 | a zero-padded decimal text reads back as its number, with or without a sign |
| SwitchList.ParseParts | backend/graph.py:98 | success gives one integer per part, each the part's reading; failure names a part that does not read as an integer |
| SwitchList.ParseSwitches | backend/graph.py:94-98 | "all" gives 0, 1 and 2; otherwise it succeeds exactly when every comma-separated part reads as an integer, giving one reading per part, and a failure names a part that does not read |
| SwitchList.ParseShowCounts | backend/graph.py:94-98 | a comma-separated list of one-digit counts reads back as those counts |
| Search.AllRoutesAdmissible | backend/graph.py:124-365 | every route in the buckets is admissible for the request: a requested switch count, built from a row, and the surviving candidate for its trains |
| Search.AllRoutesApart | backend/graph.py:124-365 | no two connecting routes share their trains, and without a direct row there are no routes at all |
| Search.LiveRoutesFacts | backend/graph.py:124-372 | at most 250 admissible routes, connecting ones on distinct trains, sorted under a known criterion, in bucket order otherwise, all of them when there are at most 250, none without a direct row |
| Search.ArrangeFacts | backend/graph.py:367-370 | ordering by a known criterion (`Ordering.Arrange`) sorts, keeps the same routes and their order among equal keys; an unknown criterion keeps the bucket order |
| Search.FastestIsStable | backend/graph.py:367-368 | under "fastest", routes of equal duration keep their bucket order |
| Search.FindRoutes | backend/graph.py:72-372 | an unresolved station gives the empty answer; a cached answer is the cached document with its timestamps moved to a readable date; a live answer has at most 250 routes; it raises on the switches exactly when they do not read, and on the date only when the date is unreadable and a direct row exists |
| Search.UnresolvedIsEmpty | backend/graph.py:73-77 | an unresolved station name gives the empty answer |
| Search.CacheHit | backend/graph.py:83-90 | a cached entry whose rebase succeeds is served rebased, whatever the criterion and switches; at 2024-01-01 it is served verbatim |
| Search.CacheFailureFallsBack | backend/graph.py:83-92 | a cached entry whose rebase raises is ignored and the live answer is given |
| Search.LiveOutcome | backend/graph.py:94-132 | a switches text that does not read as integers raises; an unreadable date raises exactly when a direct row exists; otherwise the live search answers |
| Search.AllSwitches | backend/graph.py:95-96 | "all" asks for switch counts 0, 1 and 2, and so keeps every direct route |

## Behaviour worth knowing

- `find_routes` extends the one-switch bucket with the dictionary's values
  inside the row loop (backend/graph.py:234), after every row that is not
  skipped. A later, shorter candidate for the same train pair replaces the
  dictionary's value but not the copy already taken, and the dedup at
  lines 241-248 keeps the first copy. So the one-switch bucket holds the
  first accepted candidate per train pair, not the shortest
  (`Buckets.OneSwitchIsFirstAccepted`). The two-switch bucket holds the
  first candidate of least total per train triple
  (`Buckets.TwoSwitchBucketOrder`).
- Train keys are ordered tuples of train numbers (lines 207 and 319): the
  same trains in another order form a different key.
- The direct bucket is not deduplicated (line 238).

## Left out

- Station resolution, the DynamoDB cache read, the SQL queries and the
  database session are inputs: the resolved codes, the cached document and
  the rows each query returns. The LIMIT 5000 of the two-switch query
  (line 289) is modelled as the first 5000 rows in the order the database
  returns them; the query has no ORDER BY.
- Logging and printing are left out.
- `backend/crud.py`, the API entry point and the frontend are not part of
  this model.
- The leniency of `strptime` and `int` is left out: unpadded fields,
  surrounding whitespace and underscores in numbers. Dates, timestamps and
  clock times are read in their canonical zero-padded forms only, and a
  switch count as an optional sign followed by decimal digits.
- Cached JSON numbers are modelled as integers. Floats are left out; they
  are never rebased.
- Routes.RideLeg: the live route construction moves date-times with
  unbounded minute arithmetic, so a route that would leave years 1..9999
  (a late journey on 9999-12-31) is built where `add_mins_to_datetime_str`
  raises `OverflowError`. `TimeHelpers.AddMinsToText` and the cache rebase
  do model the overflow.
- Timetable clock times are assumed to be valid "HH:MM[:SS]" texts with
  hours below 24 (`Routes.RideJoin` requires it); the program does not
  check this. `time_to_mins` only applies `int` to the fields (lines
  50-54), so "25:00" reads as 1500 minutes, and only the first departure
  of a route goes through `strptime` (lines 131-132, 210-211, 321-322).
- Route timestamps are kept as date-time values rather than the formatted
  texts the search returns. `TimeHelpers.AnchorTextParses` and
  `Timestamps.ParseFormatTimestamp` relate the two forms.
- A cache hit ignores the criterion and the switches, as the code does.
