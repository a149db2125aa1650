# Hospital finder: opening-status evaluation and result ordering

A model, in Dafny, of the logic behind a hospital finder web application. A user
submits a symptom keyword, their location, and either "now" or a chosen date and
time. The search endpoint annotates each nearby hospital with an opening status:
`open`, `break`, `closed` or `unknown`. The page then lists the hospitals in
status order, nearest first.

Two source files are modelled:

- `app/api/search/route.ts` is module `SearchRoute` (`search_route.dfy`). It holds
  the `HHMM` parser `toMinutes`, the `HH:MM` formatter `toHHMM` and the weekly
  opening-hours evaluator `judgeOpenStatus`. The evaluator takes the target as a
  day of week (0 = Sunday) and a minute of the day. The module also holds the
  `open_now` mapping used for "now" searches, and the choice between the two status
  sources for each hospital. These are all pure functions, with lemmas for what the
  evaluator promises:
  - `unknown` exactly when no `periods` list is present.
  - `closed` when no period opens on the target's day.
  - `open` exactly when a range of that day holds the target minute.
  - Otherwise, `break` exactly when a range opens later that day. The wait then runs
    to the earliest such opening.
  - Otherwise, `closed`.
- `app/components/SearchClient.tsx` is module `SearchClient` (`search_client.dfy`).
  It holds the request body built by `handleSubmit` and the sort comparator with
  its ordering guarantees. The engine's sort is modelled by an insertion sort. The
  module also holds the component state that `handleSubmit` changes, as class
  `SearchPage`. Its `Submit` and `Complete` methods are the handler before and
  after its `await`.

Module `Wrappers` (`wrappers.dfy`) holds the `Option` type that stands for fields
that may be `undefined` or `null`.

Periods that run past midnight are not handled specially by the evaluator. The
closing day is ignored, and a closing time at or before the opening time gives an
empty interval. `SearchRoute.OvernightPeriodExample` shows a Friday 22:00 to
Saturday 02:00 period reported `closed` at Friday 23:00.

The comparator is a consistent total preorder when every distance is known
(`SearchClient.TotalPreorderWithDistances`). It is also consistent when no distance
is known, because then hospitals of the same status are all tied. A missing distance
among known ones of the same status ties that hospital with each of the others; when
two of those known distances differ, transitivity breaks
(`SearchClient.MissingDistanceBreaksTransitivity`, with distances 3.0 and 1.0). With
every distance known, the modelled sort is stable: tied hospitals keep the order of
the response (`SearchClient.SortKeepsTieOrder`). Whatever the distances, a response
already in comparator order comes back unchanged (`SearchClient.SortKeepsSortedInput`).

## Model

| member | source | states |
|---|---|---|
| `SearchRoute.ToMinutes` | app/api/search/route.ts:42-44 | a four-digit `HHMM` field parses to at most 99·60+99 minutes, and a clock time (hours < 24, minutes < 60) to a minute of the day |
| `SearchRoute.DecimalString` | app/api/search/route.ts:50 | `String(n)` of a natural number: at least one character, all decimal digits, and a single digit exactly below 10 |
| `SearchRoute.PadStart2` | app/api/search/route.ts:50 | `padStart(2, "0")`: no contract of its own; `SearchRoute.TwoDigits` states what it gives on `String(n)` |
| `SearchRoute.TwoDigits` | app/api/search/route.ts:50 | `String(n).padStart(2, "0")` is the two digits of `n` below 100, and longer from 100 on |
| `SearchRoute.ToHHMM` | app/api/search/route.ts:47-51 | below 100 hours the result is five characters `HH:MM` with four digits around the colon |
| `SearchRoute.ClockTimeRoundTrip` | app/api/search/route.ts:42-51 | for a clock time `HHMM`, `toHHMM(toMinutes(t))` is `HH:MM` |
| `SearchRoute.MinutesRoundTrip` | app/api/search/route.ts:42-51 | every minute of the day formats as a five-character `HH:MM` clock time that `toMinutes` parses back to the same minute |
| `SearchRoute.CloseTime` | app/api/search/route.ts:79 | `p.close?.time ?? "2359"`: no contract of its own; `SearchRoute.CloseDayIgnored` and `SearchRoute.LastMinuteNeverOpen` state what it means for the result |
| `SearchRoute.PeriodRange` | app/api/search/route.ts:77-80 | the range of one period: no contract of its own; `SearchRoute.Ranges` and `SearchRoute.RangeOfToday` state which ranges the evaluator builds |
| `SearchRoute.Covers` | app/api/search/route.ts:83 | the half-open test `open <= nowMin < close`: no contract of its own; `SearchRoute.AnyCovers` and `SearchRoute.OpenIff` use it |
| `SearchRoute.Todays` | app/api/search/route.ts:69-71 | the filtered list holds exactly the periods that open on the target's day |
| `SearchRoute.Ranges` | app/api/search/route.ts:77-80 | one range per period of the day, each the parsed opening time and the parsed closing time, defaulting to `2359` |
| `SearchRoute.AnyCovers` | app/api/search/route.ts:83 | true exactly when some range holds the minute, half-open: `open <= m < close` |
| `SearchRoute.OpeningAfter` | app/api/search/route.ts:88-89 | keeps exactly the ranges that open strictly after the minute |
| `SearchRoute.EarliestOpen` | app/api/search/route.ts:88-90 | the first opening after sorting by opening time: one of the ranges' openings, and no later than any of them |
| `SearchRoute.BreakResult` | app/api/search/route.ts:92-97 | the `break` result: no contract of its own; `SearchRoute.BreakDetails` states the wait and the window it carries |
| `SearchRoute.StatusFromRanges` | app/api/search/route.ts:82-100 | on the day's ranges: `open` exactly when a range holds the minute; otherwise `break` exactly when a range opens later, else `closed`; never `unknown`; the wait and the window are present exactly on a break, and the wait is positive |
| `SearchRoute.JudgeOpenStatus` | app/api/search/route.ts:58-101 | `unknown` exactly when the opening hours or their `periods` are missing; `minutesToOpen` and `breakTime` are present exactly when the status is `break` |
| `SearchRoute.RangeOfToday` | app/api/search/route.ts:69-80 | a range is among the day's ranges exactly when it is the range of a period opening that day |
| `SearchRoute.ClosedWithoutPeriodsToday` | app/api/search/route.ts:69-75 | a `periods` list with no period opening on the target's day gives `closed`, with no wait and no window; this includes the empty list |
| `SearchRoute.OpenIff` | app/api/search/route.ts:77-85 | `open` exactly when some period of the target's day has `open <= nowMin < close` |
| `SearchRoute.BreakOrClosedIff` | app/api/search/route.ts:87-100 | when periods are present: `break` exactly when not open and some period of the day opens later; `closed` exactly when not open and none does; never `unknown` |
| `SearchRoute.NextOpeningIsEarliest` | app/api/search/route.ts:88-90 | when some range of the day opens later, the chosen next opening lies after the target minute, belongs to a period of the day, and is no later than any later opening of the day |
| `SearchRoute.BreakDetails` | app/api/search/route.ts:88-97 | on a break: `minutesToOpen = next - nowMin > 0`, where `next` is the earliest later opening of a period of the day; `breakTime = toHHMM(nowMin) + "–" + toHHMM(next)` |
| `SearchRoute.LastMinuteNeverOpen` | app/api/search/route.ts:77-83 | with the default `2359` close, or any clock-time close, minute 23:59 is never `open` |
| `SearchRoute.SameTimesWellFormed` | app/api/search/route.ts:77-80 | lists that differ only in closing days parse the same fields for the day |
| `SearchRoute.SameTimesRanges` | app/api/search/route.ts:77-80 | lists that differ only in closing days give the same ranges for the day |
| `SearchRoute.CloseDayIgnored` | app/api/search/route.ts:77-80 | the closing day never changes the result; only opening days and times count |
| `SearchRoute.SpanningMidnightNeverOpen` | app/api/search/route.ts:77-85 | if every period of the day closes at or before it opens, the result is never `open` |
| `SearchRoute.OvernightPeriodExample` | app/api/search/route.ts:69-100 | a Friday 22:00 to Saturday 02:00 period gives `closed` at Friday 23:00 and at Saturday 01:00, and a 60-minute break `21:00–22:00` at Friday 21:00 |
| `SearchRoute.NowStatus` | app/api/search/route.ts:173-180 | `open_now` true gives `open`, false gives `closed`, anything else gives `unknown`; never a wait or a window |
| `SearchRoute.UsesVisitTime` | app/api/search/route.ts:147-150 | the target is built from the visit fields only in `datetime` mode with both present and non-empty: no contract of its own; `SearchClient.RequestSelectsStatusSource` states when the page's request meets it |
| `SearchRoute.HospitalStatus` | app/api/search/route.ts:171-197 | in "now" mode never a break and never a wait or a window, and `unknown` exactly when `open_now` is neither true nor false; in any other mode `unknown` exactly when the place details have no `periods` |
| `SearchRoute.NowModeIgnoresOpeningHours` | app/api/search/route.ts:171-197 | in "now" mode the status fields depend only on `open_now`; there is never a break, and `minutesToOpen`/`breakTime` come out null |
| `SearchRoute.OtherModeIgnoresOpenNow` | app/api/search/route.ts:181-187 | in any other mode `open_now` is never consulted, and `unknown` means the place details had no `periods` |
| `SearchClient.BuildRequestBody` | app/components/SearchClient.tsx:66-76 | the department is never empty: the symptom, or `内科` when the symptom is empty; the location is copied; the mode is sent as `now` or `datetime`; visit date and time are present exactly in `datetime` mode |
| `SearchClient.RequestSelectsStatusSource` | app/components/SearchClient.tsx:66-76 | the endpoint reads `open_now` exactly for a "now" search. It uses the chosen date and time exactly for a `datetime` search with both fields filled |
| `SearchClient.StatusRank` | app/components/SearchClient.tsx:88-93 | the `order` table; its contract gives only the bound (every rank below 4), and `SearchClient.RankFollowsListingOrder` states the order it encodes |
| `SearchClient.RankFollowsListingOrder` | app/components/SearchClient.tsx:86-93 | ranks order the statuses open, break, closed, unknown, and distinct statuses have distinct ranks |
| `SearchClient.Compare` | app/components/SearchClient.tsx:87-101 | different statuses are never tied, and `a` goes first exactly when its status comes first in the listing order; the same status with a distance missing gives 0 |
| `SearchClient.Precedes` | app/components/SearchClient.tsx:87-101 | `compare(a, b) <= 0`, "`a` may go first": no contract of its own; `SearchClient.TotalPreorderWithDistances` and `SearchClient.MissingDistanceBreaksTransitivity` state when it is a preorder |
| `SearchClient.CompareAntisymmetric` | app/components/SearchClient.tsx:94-100 | `compare(a, b) = -compare(b, a)` for every pair |
| `SearchClient.CompareByDistance` | app/components/SearchClient.tsx:97-99 | same status with both distances present: `a` goes first exactly when it is nearer, and ties exactly at equal distance |
| `SearchClient.TotalPreorderWithDistances` | app/components/SearchClient.tsx:94-99 | with all distances present, "goes no later than" is reflexive, total and transitive, and ties are transitive |
| `SearchClient.MissingDistanceBreaksTransitivity` | app/components/SearchClient.tsx:97-100 | with one distance missing there are three hospitals where `a ≤ b` and `b ≤ c` (both ties) but `a > c` |
| `SearchClient.Insert` | app/components/SearchClient.tsx:87-101 | one step of a stable insertion: the inserted hospital goes ahead of those it ties with, and the list's multiset gains exactly that hospital |
| `SearchClient.SortHospitals` | app/components/SearchClient.tsx:87-101 | the sorted copy is a permutation of the response: nothing dropped, nothing added; its order and stability are stated by `SearchClient.SortedByStatus`, `SearchClient.SortedWhenDistancesKnown` and `SearchClient.SortKeepsTieOrder` |
| `SearchClient.InsertRankSorted` | app/components/SearchClient.tsx:86-101 | inserting into a list in status order keeps it in status order |
| `SearchClient.SortedByStatus` | app/components/SearchClient.tsx:86-101 | whatever the distances, the sorted list is a permutation of the response and lists open, break, closed, unknown in that order |
| `SearchClient.InsertSorted` | app/components/SearchClient.tsx:86-101 | with all distances present, inserting into a comparator-sorted list keeps it sorted |
| `SearchClient.SortedWhenDistancesKnown` | app/components/SearchClient.tsx:86-101 | with all distances present, the sorted list is ordered by the comparator: status first, then nearest first |
| `SearchClient.TiedWith` | app/components/SearchClient.tsx:87-101 | the hospitals of a list that the comparator ties with a given one: exactly those, in list order |
| `SearchClient.InsertKeepsTieOrder` | app/components/SearchClient.tsx:87-101 | with all distances present, inserting leaves each class of tied hospitals in its order before the insertion |
| `SearchClient.SortKeepsTieOrder` | app/components/SearchClient.tsx:87-101 | with all distances present, the sort is stable: hospitals the comparator ties keep their order in the response |
| `SearchClient.SortKeepsSortedInput` | app/components/SearchClient.tsx:87-101 | whatever the distances, a response already in comparator order comes back unchanged, ties included |
| `SearchClient.TiesKeepResponseOrder` | app/components/SearchClient.tsx:87-101 | two open hospitals without distances are listed in the order of the response, whichever order that is |
| `SearchClient.Prefix` | app/components/SearchClient.tsx:39-40 | `slice(0, n)`: the first `n` characters, or the whole string when it is shorter |
| `SearchClient.SearchPage.constructor` | app/components/SearchClient.tsx:26-41 | the initial state: empty symptom, no results, no location, "now" mode, not loading; the visit date is the first ten characters of the `toISOString()` string (the UTC date) and the visit time the first five of the `toTimeString()` string (the local time) |
| `SearchClient.SearchPage.Submit` | app/components/SearchClient.tsx:58-76 | without a location nothing changes and nothing is sent. Otherwise `loading` is set, the results are cleared and the request body is built from the current fields |
| `SearchClient.SearchPage.Complete` | app/components/SearchClient.tsx:84-106 | on a response the results become its sorted copy: a permutation in status order. On an error the results stay as they were, which after `Submit` is the empty list it left. `loading` is false on both paths |

## Left out

- `calcDistance` (haversine over floating point): a distance is an opaque `real`, or missing.
- `fetchPlaceDetails`, the `fetch` calls, the `Promise.all` fan-out, the API-key check, the `try`/`catch` and `NextResponse` of `POST`: network I/O and framework glue. A response or error enters `Complete` as a parameter.
- Construction of the target `Date` from `visitDate`/`visitTime`, or from the clock, and `getDay`/`getHours`/`getMinutes` in the local time zone. The evaluator takes the resulting day of week and minute of day. `UsesVisitTime` states only when the endpoint takes the visit fields rather than the clock.
- `SearchRoute.ToMinutes`: requires a field of exactly four ASCII digits. `parseInt` on malformed fields (giving `NaN`) is not modelled. The evaluator therefore requires this of the periods opening on the target's day, the only ones it parses.
- `SearchClient.SearchPage.constructor`: takes the `toISOString()` and `toTimeString()` strings as given, since the clock is outside the model. It does not capture that the first is in UTC and the second in local time, so ahead of UTC the initial date can be the previous day: at 07:00 on 18 October 2026 in UTC+9 the fields start as `2026-10-17` and `07:00`, and a `datetime` search left on them evaluates the previous weekday.
- `SearchClient.SortHospitals`: `Array.prototype.sort` is modelled by a stable insertion sort, as the language has required of `sort` since ECMAScript 2019. The permutation property holds for any engine. Order in status rank despite missing distances is proved of this insertion sort only. With an inconsistent comparator, the order JavaScript produces is implementation-defined.
- The sort's "take element 0" in `judgeOpenStatus` is modelled by the least opening minute, since only `.open` of that element is read.
- `open_now` is `Option<bool>`: any value other than `true`/`false`, including a missing `opening_hours`, is `None`.
- Geolocation, the initial date/time effect's string formatting, the form's input handlers, the map (`app/components/MapSection.tsx`), the theme provider and page layout (`app/providers.tsx`, `app/page.tsx`), and all rendering, including the status colours and labels. These are UI and external libraries. The submit button is disabled while `loading`. `Submit` does not require `!loading`, so the model allows more calls than the page does.
