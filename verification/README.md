# Ramadan tracker: progress and prayer-log model

A Dafny model of the state-update and statistics logic of a Ramadan tracking web
application. The application exists in two front ends that share the same ideas:

- a plain-script page (`js/app.js`, class `QuranTracker`) that tracks how many ayat
  of each surah have been read, with a typed-in value, a "+1" button and an
  "All/Done" completion toggle, plus a statistics panel and a surah search;
- a React page (`src/App.jsx`) with the same per-surah progress (`handleAyatChange`
  and the check-mark button of `SurahCard`), a prayer (waqt) log toggled per day
  and per prayer, the statistics cards, a thirty-day Ramadan calendar and the
  "Ramadan Day" figure.

Modules, one per component:

| file | module | models |
|---|---|---|
| `wrappers.dfy` | `Wrappers` | the `Option` type for failed lookups and unparseable input |
| `sets.dfy` | `Sets` | choosing an element of a finite set and the subset size bound, shared by the counting proofs |
| `surah_table.dfy` | `SurahTable` | the static surah table (kept abstract), `find` by number, the ayah total |
| `rounding.dfy` | `Rounding` | `Math.round((a / b) * 100)` over exact rationals |
| `progress.dfy` | `Progress` | the progress map, `parseInt(x) \|\| 0`, the clamp into `[0, ayats]`, the bound invariant |
| `quran_tracker.dfy` | `QuranTracker` | `updateAyatProgress`, `quickAddAyat`, `toggleFullCompletion`, the `renderStats` fold |
| `hub_progress.dfy` | `HubProgress` | `handleAyatChange`, the `SurahCard` complete button, `completedAyats` and `quranPercent` |
| `prayer_log.dfy` | `PrayerLog` | `toggleWaqt`, the per-day count of `CalendarDay`, `performedWaqt`, `prayerPercent` |
| `ramadan_calendar.dfy` | `RamadanCalendar` | `getRamadanDays` and the "Ramadan Day" lookup |
| `surah_search.dfy` | `SurahSearch` | the search filters of both front ends |

Modelling choices:

- The surah table is any sequence of rows with positive ayah counts and distinct
  numbers (`SurahTable.ValidTable`); its contents are not part of this model.
- `parseInt(value) || 0` takes the parse outcome as an `Option<int>`: `None` is NaN,
  and NaN and 0 both become 0.
- In the plain-script page each mutator looks the surah up first; when no row has
  the number, the source throws on `surah.ayats` before storing anything. The model
  returns `None` in that case.
- Dates are whole day numbers. The calendar's start date and "today" are parameters.
- Percentages are computed exactly on rationals: `Math.round(x)` is `floor(x + 1/2)`.
  A zero denominator gives `None`, which stands for NaN or an infinity.
- Values read back from storage for the statistics may be a number, the legacy
  `true` marker of a finished surah, or some other truthy value that is ignored
  (`QuranTracker.Stored`).
- `performedWaqt` adds up per-day counts over the days of the log. The order in which
  `Object.values` visits the days does not change a sum. So the model folds over the
  set of dates in an arbitrary order and proves the result equal to the number of
  true (date, waqt) pairs. That fold and `prayerPercent` are ghost functions.

Scope: the Quran progress is a per-surah ayah count, and the prayer log holds one
performed flag per waqt and date.

## Model

| member | source | states |
|---|---|---|
| SurahTable.Find | js/app.js:111 | finds a row with the requested number when one exists; finds nothing exactly when no row has it |
| SurahTable.FindOwnNumber | js/app.js:111 | in a table with distinct numbers, looking a surah up by its number returns that very surah |
| SurahTable.TotalAyats | js/app.js:17 | the sum of the ayah counts; when every surah has at least one ayah it is at least the number of surahs, so a non-empty table never divides by zero |
| Rounding.RoundPercent | src/App.jsx:48 | the result r satisfies r <= 100*num/den + 1/2 < r + 1, which is half-up rounding |
| Rounding.PercentOf | js/app.js:33 | a percentage exists exactly when the denominator is non-zero, and then, for either sign of the denominator, it is the integer r with r <= 100*num/den + 1/2 < r + 1 in exact rational arithmetic |
| Rounding.PercentInRange | src/App.jsx:48 | a part between 0 and the whole rounds to a percentage in [0, 100] |
| Rounding.PercentEnds | src/App.jsx:48 | nothing is 0 per cent and the whole is 100 per cent |
| Rounding.PercentMonotone | src/App.jsx:52 | a larger part never gives a smaller percentage |
| Rounding.HalfwayRoundsUp | js/app.js:33 | 23 of 40 rounds to 58 in the exact model, where the float expression in the source yields 57; one input where the model and JavaScript differ |
| Progress.ParseOrZero | js/app.js:112 | the fallback to 0 of `parseInt(value)`: the result is 0 exactly when the parse failed (NaN) or gave 0, and otherwise it is the parsed value |
| Progress.Current | js/app.js:22 | the read of `progress[n]` with its fallback to 0: the stored value when there is one, and only an absent entry or a stored 0 reads as 0 |
| Progress.ClampAyat | js/app.js:112-114 | the stored value lies in [0, max]; an in-range value is kept, a value above max becomes max, a negative one becomes 0 |
| Progress.BoundedEntries | js/app.js:22 | under the stored-progress invariant, every surah of the table reads a progress in [0, ayats] |
| QuranTracker.UpdateAyatProgress | js/app.js:110-117 | fails exactly when the number is not in the table; otherwise only that surah's entry changes, to the typed value clamped into [0, ayats] (NaN and negatives give 0); the invariant is preserved |
| QuranTracker.QuickAddAyat | js/app.js:120-128 | fails exactly when the number is not in the table; adds exactly one when the progress is below the ayah count and changes nothing otherwise; only that entry changes; the invariant is preserved |
| QuranTracker.ToggleFullCompletion | js/app.js:130-141 | fails exactly when the number is not in the table; a complete surah goes to 0 and anything else goes to the full count, so the result is always 0 or full; only that entry changes; the invariant is preserved |
| QuranTracker.QuickAddSaturates | js/app.js:120-128 | k presses of "+1" give min(old + k, ayats) when starting below the count, leave it unchanged otherwise, and touch no other surah |
| QuranTracker.ToggleTwiceRestores | js/app.js:130-141 | toggling completion twice restores the progress exactly when it was 0 or complete |
| QuranTracker.Lift | js/app.js:22-25 | a numeric progress map reads back entry by entry as the same numbers, with absent entries reading as 0 |
| QuranTracker.RenderStats | js/app.js:16-30 | the total is the table's ayah total; completed surahs are exactly the number of rows whose value equals the ayah count or is the legacy `true`; when every surah is credited within its count, completed ayat lie between 0 and the total |
| QuranTracker.TotalProgressPercent | js/app.js:33 | for a valid non-empty table with credits in range the percentage exists and lies in [0, 100] |
| QuranTracker.AllSurahsCompleted | js/app.js:21-30 | the completed-surah count equals the number of surahs exactly when every surah is complete (its count or the legacy `true`) |
| QuranTracker.AllAyatsRead | js/app.js:21-30 | with credits in range, every ayah is counted as read exactly when every surah is complete |
| QuranTracker.SameCreditsSameStats | js/app.js:21-30 | the statistics depend only on each surah's ayah credit and completeness |
| QuranTracker.LegacyCountsAsFull | js/app.js:26-29 | a legacy `true` entry gives the same statistics as storing the full ayah count |
| QuranTracker.BoundedCreditsWithin | js/app.js:113-114 | progress kept under the mutators' invariant credits every surah within [0, ayats] |
| HubProgress.HandleAyatChange | src/App.jsx:55-60 | only the given surah's entry changes; it becomes the typed value clamped into [0, max], with NaN and negatives giving 0 |
| HubProgress.HandlerKeepsBounds | src/App.jsx:151 | called with a card's own number and ayah count, the handler preserves the invariant |
| HubProgress.CompleteButton | src/App.jsx:234 | the button leaves the surah at 0 or full: full goes to 0, anything else goes to full; nothing else changes |
| HubProgress.CompletedAyats | src/App.jsx:47 | when every surah's progress lies in [0, ayats], the completed ayat lie between 0 and the ayah total |
| HubProgress.QuranPercent | src/App.jsx:46-48 | under the invariant on a valid non-empty table the percentage exists and lies in [0, 100] |
| HubProgress.HandlerMatchesTracker | src/App.jsx:55-60 | the React handler and the plain-script `updateAyatProgress` store the same map |
| HubProgress.CompleteButtonMatchesTracker | src/App.jsx:234 | the React complete button and the plain-script `toggleFullCompletion` store the same map |
| HubProgress.CompletedAyatsMatchesTracker | src/App.jsx:47 | on numeric progress the React fold and the plain-script fold count the same ayat |
| HubProgress.CompletedAyatsReachTotal | src/App.jsx:46-47 | under the invariant, completed ayat reach the total exactly when every surah is read to its end |
| HubProgress.AllReadGivesFullPercent | src/App.jsx:48 | when every surah is read to its end the percentage is exactly 100 |
| HubProgress.NearlyReadShowsFullPercent | src/App.jsx:48 | the converse fails: 199 of 200 ayat satisfy the invariant, fall short of the total, and still round to 100 |
| PrayerLog.ToggleWaqt | src/App.jsx:62-70 | the toggled flag becomes the negation of its truthiness (absent reads as false); every other flag of that day and every other day is unchanged; the date gets a record; a log holding only the five waqt names stays so |
| PrayerLog.ToggleTwiceRestores | src/App.jsx:67 | toggling the same flag twice restores the truthiness of every flag and keeps the date's record |
| PrayerLog.DayCount | src/App.jsx:253 | a day's count is at most its number of flags, and at most 5 when only waqt names are present |
| PrayerLog.WaqtSetSize | src/App.jsx:6 | there are exactly five distinct waqt names |
| PrayerLog.PerformedWaqt | src/App.jsx:51 | the per-day counts added over all days equal the number of true (date, waqt) flags in the log, and 0 for an empty log |
| PrayerLog.TotalPossibleWaqt | src/App.jsx:50 | five for every day that has a record; in a log holding only waqt names it bounds the performed count |
| PrayerLog.SumDaysBound | src/App.jsx:51 | in a log holding only waqt names, the days' counts add up to at most five per day |
| PrayerLog.ToggleTrueFlags | src/App.jsx:62-70 | a toggle adds its (date, waqt) pair to the true flags or removes it, and leaves every other pair alone |
| PrayerLog.ToggleChangesPerformedByOne | src/App.jsx:51 | each toggle raises `performedWaqt` by one when the flag was false and lowers it by one when it was true |
| PrayerLog.PrayerPercent | src/App.jsx:50-52 | 0 for an empty log; in [0, 100] for a log holding only waqt names |
| PrayerLog.UntoggledDayStillCounts | src/App.jsx:50 | a new day toggled on and off again keeps the performed count but adds five possible waqt |
| RamadanCalendar.GetRamadanDays | src/App.jsx:27-40 | exactly thirty entries in order, entry i being day i + 1 dated start + i |
| RamadanCalendar.TodayRamadanDay | src/App.jsx:103 | a day number is found only from an entry dated today; nothing is found exactly when no entry is dated today |
| RamadanCalendar.TodayOnConsecutive | src/App.jsx:103 | on consecutive days the found number is the first number plus the distance from the start, and none outside the range |
| RamadanCalendar.TodayInRamadan | src/App.jsx:103 | on the generated calendar "Ramadan Day" is today - start + 1 during the thirty days and absent otherwise |
| SurahSearch.ToLower | js/app.js:41 | same length, each character lower-cased, and no ASCII upper-case letter left |
| SurahSearch.Includes | js/app.js:41-43 | the empty string is always included, and only a text no longer than the searched one can be |
| SurahSearch.NatDigits | js/app.js:43 | the canonical digits of the number: non-empty, decimal digits only, no leading zero unless the number is 0, a single digit exactly below 10, reading back as the number |
| SurahSearch.CanonicalDigitsUnique | js/app.js:43 | any canonical digit string that reads back as the number is exactly those digits, so the text the filter searches is determined |
| SurahSearch.DecimalString | js/app.js:43 | `toString()` of an integer: the canonical digits of its magnitude, no leading zero, with a minus sign in front exactly for a negative number |
| SurahSearch.DecimalStringUnique | js/app.js:43 | no other text of that shape spells the number, so `toString()` is pinned down completely |
| SurahSearch.IncludesIffOccurs | js/app.js:41-43 | the modelled `includes` holds exactly when the searched text occurs at some offset |
| SurahSearch.Filter | js/app.js:40 | the result is an order-preserving subsequence of the table holding every row that passes the test and only such rows |
| SurahSearch.RenderSurahsFilter | js/app.js:40-44 | the plain-script grid shows, in table order, exactly the surahs whose name, English name or number matches; the empty filter shows every surah |
| SurahSearch.HubSurahFilter | src/App.jsx:145 | the React grid shows, in table order, exactly the surahs whose name or number matches; the empty query shows every surah |

## Left out

- Rendering: React/JSX markup, animation, icons, tab state, DOM updates in `renderSurahs` and `saveAndRefresh`, and event wiring. These are presentation only.
- Persistence: `localStorage` reads and writes and the `JSON.parse(...) || {}` fallback. The model starts from a given map.
- Dates: JS `Date`, `toLocaleDateString`, `toISOString` and time-zone effects in `getRamadanDays` and `today`. Days are integer day numbers, the start date and today are parameters, and the display label of a calendar day is not modelled.
- Parsing: the string rules of `parseInt`. Its outcome is an `Option<int>`.
- Floating point: the percentages are exact rational computations, so they can differ from JavaScript at exact half-way values. For example, at 23/40 the double product falls just below .5, so JavaScript shows 57% where the model gives 58 (`Rounding.HalfwayRoundsUp`). A prayer log with 8 days and 23 performed waqt shows this.
- Legacy `true` entries reaching the mutators, where JS coerces them (`true < ayats`, `true++`). They are also left out of the React fold (`acc + true`). They are modelled only in the plain-script `renderStats`.
- Object keys: JS object keys are strings and `find` uses loose `==`, so a key such as `"05"` differs from `5` in storage. Surah numbers are plain integers here.
- Case mapping: `toLowerCase` is modelled for ASCII letters only.
- The per-card percentage bars (`SurahCard`, `renderSurahs`) and the literal `/114` in the completed-surahs label. These are display only.
