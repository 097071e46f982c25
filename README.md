# Pacific Notions downloader — verified model

The program (a single Go file, `main.go`) is meant to download the episodes of
the KEXP radio show "Pacific Notions" that are not yet in a local directory.
The download stage itself is not modelled (see "Left out"). It picks a
target month, either the current one or one reached by going back a number of
months. It lists that month's Sundays, which are the broadcast dates. For the
current month it keeps only the Sundays up to today. It formats each date as a
`YYYYMMDD` key and builds the archive URL for that key. The URL has a two-digit
suffix that must be guessed, so the program tries suffixes from 12 down to 0
and keeps the first URL whose HEAD request answers 200. Finally it keeps only
the URLs whose file (named after the URL's last path element) is missing from
the output directory.

This project models those steps in Dafny and proves what they compute:

- `Calendar` holds proleptic Gregorian dates, weekdays and the day after a date.
- `DateCalculator` holds the target month, the Sundays of a month, the
  trimming to today and the date keys.
- `UrlProber` holds the URL template and the descending suffix search. The
  archive is a parameter `found: string -> bool`, where `found(u)` means a HEAD
  request for `u` returned status 200.
- `LocalInventory` holds the output path of a URL and the filter of missing
  downloads. The file system is a parameter `existing: set<string>`, the set of
  paths that exist.
- `Decimal` holds zero-padded decimal text as Go's time layouts and `%02d`
  produce it.
- `Subsequences` holds the order-preserving filter that the Go loops which
  append to a fresh slice compute.

Loops in the source are methods with loop invariants, proved against
specification functions. Pure helpers are functions. Lemmas relate the two and
state what the program relies on.

## Model

| member | source | states |
|---|---|---|
| DateCalculator.AdjustForPast | main.go:88-109 | With neither flag set the month and year come back unchanged. Otherwise "previous month" wins and the step is one month; failing that, the step is the count. The month is stepped back by StepBack's wrap rule. The result is always a month in 1..12 and equals StepBack of the current period. |
| DateCalculator.MonthsBack | main.go:93-99 | The flags' precedence: "previous month" gives a step of 1, otherwise the count. AdjustForPast's ensures carry it. |
| DateCalculator.StepBack | main.go:101-105 | Going back `delta` months never leaves 1..12. It is exact month arithmetic while `delta` is at most the current month. Any larger step lands on December of the previous year, later than the month asked for. |
| DateCalculator.StepBackModular | main.go:101-105 | The intended rule: the result's month index is exactly `delta` below the current one, with the month in 1..12. |
| DateCalculator.StepBackExactUpToOneWrap | main.go:101-105 | For `delta` up to the current month, which covers "previous month", the code's rule and the intended rule agree. |
| DateCalculator.StepBackLosesMonthsPastOneWrap | main.go:101-105 | Five months back from March 2024 gives December 2023 instead of October 2023. Fourteen back from February 2024 gives December 2023 instead of December 2022. |
| DateCalculator.FindSundays | main.go:111-125 | The result lists, in ascending order, every Sunday of the month and nothing else. |
| DateCalculator.SundaysBelowStep | main.go:115-123 | One more step of the walk adds the day to the list exactly when it is a Sunday, and the list stays complete and ascending. |
| DateCalculator.SundayIff | main.go:116 | A day of the month is a Sunday exactly when it is a multiple of 7 days after the month's first Sunday. |
| DateCalculator.SundaysBelowExact | main.go:111-125 | Any ascending complete list of a month's Sundays below a bound is the first Sunday, then every 7 days, until the bound or the month's end is passed. |
| DateCalculator.SundaysOfMonthShape | main.go:111-125 | Every month has 4 or 5 Sundays. The first falls on day 1..7 and consecutive ones are 7 days apart. |
| DateCalculator.SundaysOfMarch2024 | main.go:111-125 | The Sundays of March 2024 are the 3rd, 10th, 17th, 24th and 31st. |
| DateCalculator.FilterSundaysUntilToday | main.go:127-138 | The result is the subsequence of the input Sundays whose day of the month is at most today's. |
| DateCalculator.TrimmedSundays | main.go:127-138 | Trimming a month's Sundays to today leaves exactly the Sundays up to today's day, in ascending order. |
| DateCalculator.TrimmedMarch2024 | main.go:34-37 | On 20 March 2024 the current-month run keeps the 3rd, 10th and 17th. |
| DateCalculator.FormatDays | main.go:140-148 | One key per date, in the same order, each the date's `20060102` layout. |
| DateCalculator.FormatSunday | main.go:150-152 | The "20060102" layout: year padded to 4, month and day padded to 2, with a sign for negatives. FormatSundayDigits and FormatSundayInjective carry its properties. |
| DateCalculator.FormatSundayDigits | main.go:150-152 | For years 0..9999 the key is 8 digits that read back as the year, the month and the day. |
| DateCalculator.FormatSundayInjective | main.go:150-152 | Distinct valid dates, in any year including negative ones, get distinct keys. |
| DateCalculator.FormattedKeysDistinct | main.go:140-148 | Distinct dates give distinct keys. With UrlProber.MakeURLForDateInjective it follows that no two Sundays probe the same URLs. |
| DateCalculator.CandidateDates | main.go:26-39 | With no flag set the keys are those of the Sundays of the current month up to today. Otherwise they are those of every Sunday of the target month. The keys follow the Sundays' order. |
| Calendar.DaysInMonth | main.go:113 | The leap-year-aware length of a month, 28 to 31 days. It stands in for `AddDate(0, 1, -1)`, the last day where the walk stops. DaysBeforeDecember and YearLength carry its properties. |
| Calendar.NextDayAdvances | main.go:122 | The day after a date is the next day number, across month and year ends, and its weekday is one later modulo 7. |
| Calendar.YearLength | main.go:122 | A year has 366 days when it is a leap year and 365 otherwise. This keeps the day count, and with it the weekday, consistent when AddDate(0, 0, 1) crosses a year end. |
| Calendar.Weekday | main.go:116 | The weekday is 0 (Sunday) to 6, counted from 1 January of year 1, a Monday. NextDayAdvances and DateCalculator.SundayIff carry its properties. |
| Calendar.NextDay | main.go:122 | The day after a valid date is a valid date. NextDayAdvances proves it is the next day number, across month and year ends. |
| Subsequences.FilterAtKeptIndices | main.go:131-135 | A filtering loop's result is the input at the kept positions, in ascending order of position. |
| Subsequences.FilterMembership | main.go:202-206 | An element is in a filtering loop's result exactly when it is in the input and passes the test. |
| Subsequences.MapAt | main.go:143-145 | A loop that appends the image of each element yields one image per element, at the same position. |
| Subsequences.KeptIndices | main.go:131-135 | The kept positions are in range, strictly ascending, all pass the test, and include every position that does. |
| Decimal.PadNatExact | main.go:155 | A value below 10^w, padded to width w, has exactly w digits that read back as the value. |
| Decimal.LayoutField | main.go:151 | A numeric field of a Go time layout: a minus sign for negatives, then the magnitude padded with zeros to the width. LayoutFieldInjective and DateCalculator.FormatSundayDigits carry its properties. |
| Decimal.PrintfZeroPadded | main.go:155 | `%02d`: the sign counts toward the width. PadNatExact and UrlProber.MakeURLForDateLayout carry its properties for 0..99. The negative branch is unreachable in the program, because main.go:159-161 returns before a negative suffix is formatted. |
| Decimal.PrintfSignCountsTowardWidth | main.go:155 | For a negative one-digit value, `%02d` gives the minus sign and one digit, with no padding zero. |
| Decimal.LayoutFieldInjective | main.go:151 | A time-layout number field of fixed width determines its value. |
| UrlProber.MakeURLForDate | main.go:154-156 | The URL template with the suffix as %02d. MakeURLForDateLayout, MakeURLForDateInjective and MakeURLForDateDistinct carry its properties. |
| UrlProber.MakeURLForDateLayout | main.go:154-156 | For a suffix in 0..99 the URL consists of the archive prefix, the key, `0550`, two digits reading back as the suffix, and the trailing identifier. |
| UrlProber.MakeURLForDateInjective | main.go:154-156 | For suffixes in 0..99 the URL determines both the key and the suffix. |
| UrlProber.TryFindURLForDateMysteriosNumber | main.go:158-172 | A negative start gives "". The result is "" exactly when no suffix from 0 to the start is answered. Otherwise it is an answered URL whose suffix is the largest answered one. |
| UrlProber.ProbedSuffixes | main.go:158-172 | The search probes the start first, then one less at each step, and never a negative suffix. |
| UrlProber.ProbesBeforeLastRefused | main.go:158-172 | Every suffix from the start down to just above the last one probed was refused. |
| UrlProber.ProbesDownTo | main.go:158-172 | When suffix k is answered and none above it up to the start is, the search sends exactly start - k + 1 probes. |
| UrlProber.MakeURLForDateDistinct | main.go:154-156 | For one key, distinct suffixes in 0..99 give distinct URLs. |
| UrlProber.SearchEndsAtLastProbe | main.go:158-172 | A found URL is the one for the last suffix probed. When nothing is found, every suffix from the start down to 0 was probed. |
| UrlProber.OnlyOneSuffixAnswers | main.go:49 | When the archive answers only suffix k, a search starting at or above k returns that URL. |
| UrlProber.OnlyOneSuffixAnswersProbes | main.go:49 | For a start of at most 99, that search probes n, n-1, ..., k in that order; for n = 12 and k = 7 it probes 12 down to 7. |
| LocalInventory.IsDownloadMissing | main.go:212-216 | A link is missing exactly when the one-link filter keeps it. That holds when no file named after its last path element exists in the output directory. |
| LocalInventory.FilterMissingDownloads | main.go:199-210 | The result is the subsequence of the URLs whose output path does not exist, in their order. |
| LocalInventory.MissingAgreesWithIsDownloadMissing | main.go:199-216 | A URL is in the filter's result exactly when it is one of the URLs and the single-link check calls it missing. |
| LocalInventory.NothingMissingAfterDownload | main.go:199-210 | Once the output path of every URL exists, the filter returns nothing. |
| LocalInventory.PresentFileExcludesOnlyItsURL | main.go:199-210 | When no two URLs share a file name and only the file of URL u exists, the result is every URL except u. |
| LocalInventory.Base | main.go:203 | path.Base, after its documented behaviour. TrimTrailingSlashesSpec, AfterLastSlashSpec and BaseOfFileInDirectory carry its properties. |
| LocalInventory.Join | main.go:203 | The output path as dir + "/" + name, without path.Join's cleaning. JoinInjective carries its property. |
| LocalInventory.TrimTrailingSlashesSpec | main.go:203 | Trimming removes exactly a run of slashes at the end. |
| LocalInventory.AfterLastSlashSpec | main.go:203 | The last element is a slash-free suffix, preceded by a slash unless it is the whole path. |
| LocalInventory.BaseOfFileInDirectory | main.go:203 | The base of a directory part ending in `/` followed by a non-empty name without slashes is that name. |
| LocalInventory.JoinInjective | main.go:203 | In one output directory, distinct file names give distinct paths. |
| LocalInventory.EpisodeFileName | main.go:203 | An episode URL is stored under the key, `0550`, the two-digit suffix and the trailing identifier. |
| LocalInventory.EpisodeFileNamesDistinct | main.go:203 | Episode URLs with suffixes in 0..99 and keys without `/` are stored under distinct files. |

## Left out

- The goroutines, the wait group and the channel of `main` (main.go:41-80) are left out because they are concurrency. The model covers one search per key (main.go:49) followed by the single-link missing check (main.go:55), stated per key by `UrlProber` and `LocalInventory`. As written, the orchestration never downloads anything. The channel is unbuffered (main.go:42), so a goroutine that finds a missing link blocks on the send at main.go:56. Nothing receives until after `wg.Wait()` (main.go:61), so the run hangs once any episode is missing. When nothing is missing, `len` of the unbuffered channel is 0 (main.go:64) and the program prints "No missing podcasts".
- `downloadFile` (main.go:174-197) is left out: it performs network and file I/O only.
- `http.Head` becomes the parameter `found`. A transport error and a status other than 200 are both "not found", as in the source.
- `os.Stat` becomes membership in `existing`. A Stat error other than "does not exist" (permission denied, say) counts as present in the source; the model has no such third state.
- `time.Now` becomes a parameter. The source reads the clock twice (main.go:84 and main.go:128); the model uses one instant for both reads.
- The command-line flags are parameters. `-p` is a Go `uint` converted through `float64` and `math.Abs`; the model takes it as a `nat`. This omits the rounding above 2^53 and the 64-bit `int` limits.
- Debug printing (`debugPrintf`, `debugPrintln`) is left out: it has no effect on the results.
- LocalInventory.Join: `path.Join` also cleans the path (it collapses `//`, drops `./` and resolves `..`). The model joins as `dir + "/" + name`. This gives the same path only for a clean directory name other than `.`, `/` and the empty name: `path.Join(".", x)` is `x` and `path.Join("/", x)` is `/x`, where the model gives `./x` and `//x`. The default `./` is not cleaned either.
- LocalInventory.Base: the model follows `path.Base`'s documented behaviour: "." for the empty path, "/" for slashes only, otherwise the last element after trailing slashes are removed.
- DateCalculator.FindSundays: requires a month in 1..12. Go's `time.Date` would normalise other months, but every caller passes a month in 1..12 (AdjustForPast ensures it).
- `filterMissingDownloads` (main.go:199-210) is not called by `main`, which checks each link with `isDownloadMissing`. It is modelled all the same, and `LocalInventory.MissingAgreesWithIsDownloadMissing` relates the two.
- Time of day and time zones are left out. The `now` parameter is the local calendar date, which `time.Now()` reads at main.go:84 and main.go:128. The Sundays are UTC dates, as `findSundays` builds them at main.go:112. Only calendar fields are compared, so nothing depends on the zone.

## Findings

| source | as written | input that shows it | evidently intended | confidence | as-written member | corrected member |
|---|---|---|---|---|---|---|
| main.go:101-105 | when the month minus the offset is 0 or less, the result is December of the previous year, however large the offset | `-p 5` in March 2024 targets December 2023; `-p 14` in February 2024 also targets December 2023 | go back exactly that many months: October 2023 and December 2022 | high, not executed | DateCalculator.StepBackLosesMonthsPastOneWrap | DateCalculator.StepBackModular |

The model of the program keeps the rule as written, so that `AdjustForPast`
and `CandidateDates` compute what the source computes.
`DateCalculator.StepBackExactUpToOneWrap` proves that the two rules agree for
every offset up to the current month number. That covers `-previous-month`
and every `-p` no larger than the current month number.
