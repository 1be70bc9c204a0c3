# DownloadCovidDatasets, modelled in Dafny

The repository is one Python class, `DownloadCovidDatasets`, which downloads
public COVID-19 CSV files. These come from Johns Hopkins University's global
time series, the daily report of the Paraná Health Secretary, and two tables
of Paraná cities published by the class's author. This project models the
logic under the I/O:

- **URL templating.** Each family has a URL template with `#VAR1#` / `#VAR2#`
  placeholders. Python's `str.replace` fills them.
- **Paraná date fragments.** An explicit `d/m/Y` date is split on `/`.
  Without one, a 15:00 publication cutoff chooses between today and
  yesterday.
- **CSV file names.** A kind suffix, an optional date suffix, then `.csv`.
- **The two class attributes the code changes.**
  - `__datasetsDir`, changed by `setDatasetsDir`.
  - `__urlParanaDataset`, which the first Paraná download overwrites in place.
- **`downloadDataset`'s idempotent decision.** It runs over an abstract
  filesystem of directories, files and a record of network fetches.

## Layout

- `wrappers.dfy` (`Wrappers`): `Option` and `Result`.
- `text.dfy` (`Text`): the Python string operations used.
  - `str.replace` (`Replace`), with lemmas that say what it does on the
    repository's templates.
  - `str.split` / `str.join` with a one-character separator, and their
    round trips.
  - ASCII `str.lower`.
- `calendar.dfy` (`Calendar`): a `datetime` value type.
  - `now - timedelta(days=1)` (`PrevDay`), stated against Python's day
    ordinal (`date.toordinal`).
  - The `>=` comparison with the 15:00 cutoff.
  - `strftime`'s zero-padded `%d`, `%m` and `%Y`, each proved to read back as
    the number it prints.
- `sources.dfy` (`Sources`): the constants of the class body, the URL getters,
  the Paraná date resolution and the CSV file names.
- `filesystem.dfy` (`FileSystems`): the filesystem.
  - A class with `dirs`, `files` and `fetches` fields.
  - `Mkdir` and `Retrieve` methods that change those fields.
  - A value snapshot, `FsState`.
- `downloads.dfy` (`Downloads`):
  - `DownloadOutcome` specifies `downloadDataset` as a function on
    `FsState`.
  - The Python class becomes the class `DownloadCovidDatasets`. Its fields are
    `urlParanaDataset` and `datasetsDir`, and its methods are those of the
    source. Each state-changing method is proved against `DownloadOutcome`
    and `FillParana`.

The current time (`datetime.now()`) is a `DateTime` parameter of the methods
that read the clock. The network fetch is an event that records
`Fetch(url, path)` and marks the path as a file.

## Behaviours the proofs pin down

These follow from the code as written, and the model keeps them:

- **`downloadHopkinsDataset` ignores `kind` in the URL.** It takes the
  confirmed-cases URL, whose placeholder is already filled, and replaces
  `#VAR1#` in it again, which changes nothing. So it fetches the confirmed
  series for `deaths` and `recovered` too (`HopkinsDownloadUrl`). An
  unrecognised `kind` gets no suffix in the file name, and the download goes
  ahead.
- **The Paraná template is consumed once.** After the first Paraná download
  the stored URL has no placeholders, so every later call fetches the first
  call's URL, whatever date it is given (`ParanaTemplateConsumedOnce`,
  `ParanaUrlFixedByFirstDownload`).
- **The year-month fragment is never rolled back.** It is always taken
  from "now", even when the target date rolls back to the last day of the
  previous month (`YearMonthNotRolledBack`, `MorningOfFirstOfMarch`).
- **The Paranavaí download fetches the Paraná table.**
  `downloadParanavaiRegionCitiesWithIBGECodeDataset` fills the template with
  the Paraná cities table identifier. It saves the Paraná table under the
  Paranavaí file name (`ParanavaiRegionCitiesUrl`).
- **An empty directory argument to `downloadDataset` splits check and
  write.**
  - The existence checks fall back to the configured directory.
  - The path written and returned is `"/" + csvFileName`.
  - So repeated calls fetch again (`EmptyDirectoryFetchesAgain`).
  - The four download entry points substitute the configured directory
    first, so they only reach this when that directory is itself empty. On
    a well-formed filesystem (`""` is never a directory, no path is both a
    directory and a file) `mkdir("")` then fails (`EmptyDirectoriesFail`).

## Model

| member | source | states |
|---|---|---|
| `Text.Replace` | lib/DownloadCovidDatasets.py:127 | `str.replace`: a left-to-right scan that replaces non-overlapping occurrences; what it does on the templates is stated by the lemmas below |
| `Text.ReplaceAbsent` | lib/DownloadCovidDatasets.py:127 | `replace` returns its input unchanged when the pattern does not occur in it |
| `Text.ReplaceSkip` | lib/DownloadCovidDatasets.py:61 | a prefix free of the pattern's first character passes through `replace` unchanged |
| `Text.ReplaceHit` | lib/DownloadCovidDatasets.py:61 | an occurrence at the front is replaced and scanning resumes after it |
| `Text.MarkerFreeAbsent` | lib/DownloadCovidDatasets.py:356 | text without the pattern's first character holds no occurrence of the pattern |
| `Text.FillSingle` | lib/DownloadCovidDatasets.py:61 | a template with one placeholder in `#`-free text has exactly that placeholder filled |
| `Text.ReplaceOtherPlaceholder` | lib/DownloadCovidDatasets.py:127 | replacing `#VAR1#` leaves a different placeholder such as `#VAR2#` intact |
| `Text.OtherPlaceholderAfter` | lib/DownloadCovidDatasets.py:127 | text followed by the other placeholder is left alone by the first replace |
| `Text.FillFirstOfTwo` | lib/DownloadCovidDatasets.py:127 | filling the first of two placeholders keeps the second in place |
| `Text.Split` | lib/DownloadCovidDatasets.py:291 | `split('/')` yields at least one piece and no piece contains the separator |
| `Text.Join` | lib/DownloadCovidDatasets.py:291 | the inverse of `split`, used to state its round trips |
| `Text.JoinSplit` | lib/DownloadCovidDatasets.py:291 | joining the pieces of a split gives back the string |
| `Text.SplitJoin` | lib/DownloadCovidDatasets.py:291 | splitting a join of separator-free pieces gives back the pieces |
| `Text.SplitPlain` | lib/DownloadCovidDatasets.py:291 | a separator-free string splits into itself alone |
| `Text.SplitField` | lib/DownloadCovidDatasets.py:291 | the first field of `a/rest` is `a`, followed by the fields of `rest` |
| `Text.SplitCount` | lib/DownloadCovidDatasets.py:291-292 | a split has one more piece than the string has separators |
| `Text.Lower` | lib/DownloadCovidDatasets.py:341-345 | lower-casing keeps the length, turns each capital A-Z into its own lower-case letter and keeps every other character |
| `Text.LowerIgnoresCase` | lib/DownloadCovidDatasets.py:341-345 | strings equal up to ASCII letter case have the same lower-case form |
| `Text.LowerOfLower` | lib/DownloadCovidDatasets.py:341-345 | text without upper-case letters is its own lower-case form |
| `Calendar.DaysInMonth` | lib/DownloadCovidDatasets.py:304 | every month has 28 to 31 days |
| `Calendar.Ordinal` | lib/DownloadCovidDatasets.py:304 | `date.toordinal()`: days since 0001-01-01 (day 1), the measure `PrevDay` is stated against |
| `Calendar.MonthLength` | lib/DownloadCovidDatasets.py:304 | the days before a month are the days before the previous month plus its length |
| `Calendar.YearLength` | lib/DownloadCovidDatasets.py:304 | a year's days before 1 January of the next year are its days before December plus 31 |
| `Calendar.PrevDay` | lib/DownloadCovidDatasets.py:304 | `now - timedelta(days=1)` is a valid datetime with the same time of day and an ordinal one less; it fails (OverflowError) exactly on 0001-01-01 |
| `Calendar.NotBefore` | lib/DownloadCovidDatasets.py:301 | Python's `>=` on datetimes: field by field from the year down to the microsecond |
| `Calendar.AtOrAfterCutoff` | lib/DownloadCovidDatasets.py:297-301 | `now >= now.replace(hour=15, minute=0, second=0, microsecond=0)`; `CutoffByHour` says what it means |
| `Calendar.CutoffByHour` | lib/DownloadCovidDatasets.py:297-301 | `now >= now.replace(hour=15, minute=0, second=0, microsecond=0)` holds exactly when the hour is 15 or later |
| `Calendar.ValueSnoc` | lib/DownloadCovidDatasets.py:299 | appending a digit multiplies the decimal value by ten and adds the digit |
| `Calendar.Digit` | lib/DownloadCovidDatasets.py:299 | a digit character denotes its number |
| `Calendar.Pad2` | lib/DownloadCovidDatasets.py:302 | `%d`/`%m` print two digits that read back as the number |
| `Calendar.Pad4` | lib/DownloadCovidDatasets.py:299 | `%Y` prints four digits that read back as the year |
| `Calendar.FormatYearMonth` | lib/DownloadCovidDatasets.py:299 | `%Y-%m` is seven characters whose fields read back as the year and the month, with no `#` or `/` |
| `Calendar.FormatDayMonthYear` | lib/DownloadCovidDatasets.py:302-304 | `%d_%m_%Y` is ten characters whose fields read back as day, month and year, with no `#` or `/` |
| `Calendar.FormatDayMonthYearInjective` | lib/DownloadCovidDatasets.py:302-304 | two dates print the same `%d_%m_%Y` only if they are the same calendar date |
| `Sources.FixedTextMarkerFree` | lib/DownloadCovidDatasets.py:26-28 | the template text outside the placeholders holds no `#`; the two placeholders are distinct |
| `Sources.MarkerFreeUnchanged` | lib/DownloadCovidDatasets.py:356 | `#`-free text holds neither placeholder and `replace` leaves it unchanged |
| `Sources.HopkinsUrlFilled` | lib/DownloadCovidDatasets.py:26 | filling the Hopkins template with a `#`-free kind puts the kind in the placeholder's place and leaves no `#VAR1#` |
| `Sources.HopkinsUrl` | lib/DownloadCovidDatasets.py:32-46 | the Hopkins template with `kind` put in the placeholder; `HopkinsUrlFilled` gives its closed form |
| `Sources.GetUrlHopkinsGlobalConfirmedCases` | lib/DownloadCovidDatasets.py:61 | the confirmed URL is the template with `confirmed` in place of `#VAR1#`, with no placeholder left |
| `Sources.GetUrlHopkinsGlobalDeaths` | lib/DownloadCovidDatasets.py:76 | the deaths URL is the template with `deaths` in place of `#VAR1#`, with no placeholder left |
| `Sources.GetUrlHopkinsGlobalRecovered` | lib/DownloadCovidDatasets.py:91 | the recovered URL is the template with `recovered` in place of `#VAR1#`, with no placeholder left |
| `Sources.HopkinsDownloadUrl` | lib/DownloadCovidDatasets.py:356 | the URL `downloadHopkinsDataset` fetches is the confirmed-cases URL for every `kind` |
| `Sources.KindSuffix` | lib/DownloadCovidDatasets.py:341-348 | the suffix chosen by the lower-cased kind; the lemmas below state its cases |
| `Sources.KindSuffixCaseInsensitive` | lib/DownloadCovidDatasets.py:341-348 | kinds that differ only in letter case get the same suffix |
| `Sources.KindSuffixSpellings` | lib/DownloadCovidDatasets.py:341-348 | `CONFIRMED`/`Confirmed`, `DEATHS`/`Deaths`, `RECOVERED`/`Recovered` get `confirmed_cases`, `deaths`, `recovered` |
| `Sources.KindSuffixIgnoresCase` | lib/DownloadCovidDatasets.py:341-346 | the kind suffix depends only on the lower-cased kind |
| `Sources.HopkinsCsvFileName` | lib/DownloadCovidDatasets.py:341-354 | the name `downloadHopkinsDataset` saves under; `HopkinsCsvFileNameCases` states its branches |
| `Sources.HopkinsCsvFileNameCases` | lib/DownloadCovidDatasets.py:341-354 | kinds confirmed/deaths/recovered, in any case, add `confirmed_cases`/`deaths`/`recovered`; any other kind adds nothing; then `_<d_m_Y>.csv` or `.csv` |
| `Sources.OwnUrl` | lib/DownloadCovidDatasets.py:28 | filling the author template with a `#`-free table id gives prefix + id + `.csv`, with no placeholder left |
| `Sources.ParanaCitiesUrl` | lib/DownloadCovidDatasets.py:380 | the Paraná cities download fetches `.../datasets/parana_cities_with_ibge_code.csv` |
| `Sources.ParanavaiRegionCitiesUrl` | lib/DownloadCovidDatasets.py:404 | the Paranavaí download fetches the Paraná cities URL, not a Paranavaí one |
| `Sources.FillParana` | lib/DownloadCovidDatasets.py:127 | the two chained replaces of `__setUrlParanaDataset`; the lemmas below say what they produce |
| `Sources.FillParanaTemplate` | lib/DownloadCovidDatasets.py:127 | on the initial template, `#`-free fragments land in their two places and no `#` remains |
| `Sources.FillParanaConsumed` | lib/DownloadCovidDatasets.py:127 | a URL without placeholders is unchanged by the rewrite, whatever the fragments |
| `Sources.ParanaTemplateConsumedOnce` | lib/DownloadCovidDatasets.py:306 | after the first rewrite of the template, every later rewrite keeps the first one's URL |
| `Sources.ResolveParanaDate` | lib/DownloadCovidDatasets.py:286-304 | the two date fragments, or the error Python raises; its cases are the lemmas below |
| `Sources.ExplicitDate` | lib/DownloadCovidDatasets.py:290-293 | an explicit `d/m/y` yields `y-m` and `d_m_y`, the fields taken verbatim |
| `Sources.FifthOfMarchExplicit` | lib/DownloadCovidDatasets.py:290-293 | `05/03/2021` yields `2021-03` and `05_03_2021` |
| `Sources.ExplicitDateExtraFields` | lib/DownloadCovidDatasets.py:291-293 | fields after the third are ignored |
| `Sources.ExplicitDateError` | lib/DownloadCovidDatasets.py:291-292 | a non-empty explicit date fails (IndexError) exactly when it has fewer than two `/` |
| `Sources.CurrentDate` | lib/DownloadCovidDatasets.py:296-304 | without a date: from 15:00 the target is today, before it yesterday (or OverflowError on 0001-01-01); the year-month is now's in both cases |
| `Sources.YearMonthNotRolledBack` | lib/DownloadCovidDatasets.py:299-304 | on the 1st before 15:00 the year-month fragment and the target date name different months |
| `Sources.CutoffChangesTargetDate` | lib/DownloadCovidDatasets.py:297-304 | on one day, a request before 15:00 and one at or after it get the same year-month and different target dates |
| `Sources.MorningOfFirstOfMarch` | lib/DownloadCovidDatasets.py:296-304 | 2021-03-01 09:30 yields `2021-03` and `28_02_2021` |
| `Sources.ParanaCsvFileName` | lib/DownloadCovidDatasets.py:308-311 | the Paraná file name: `_<targetDate>.csv` or `.csv` appended |
| `FileSystems.WellFormed` | lib/DownloadCovidDatasets.py:192 | the states a real filesystem can be in: `""` is no directory and no path is both a directory and a file |
| `FileSystems.FileSystem.constructor` | lib/DownloadCovidDatasets.py:192 | the filesystem starts with the given directories and files and no fetch |
| `FileSystems.FileSystem.IsDir` | lib/DownloadCovidDatasets.py:192 | `os.path.isdir`: membership in the directories |
| `FileSystems.FileSystem.IsFile` | lib/DownloadCovidDatasets.py:217 | `os.path.isfile`: membership in the files |
| `FileSystems.FileSystem.Mkdir` | lib/DownloadCovidDatasets.py:245 | `mkdir` succeeds when the path is non-empty and free, and then adds exactly that directory |
| `FileSystems.FileSystem.Retrieve` | lib/DownloadCovidDatasets.py:253 | a fetch creates or overwrites the target file and is recorded; nothing else changes |
| `Downloads.EffectiveDir` | lib/DownloadCovidDatasets.py:190 | an empty directory argument falls back to the configured directory |
| `Downloads.DownloadOutcome` | lib/DownloadCovidDatasets.py:242-261 | returns `dirToSave/csvFileName` unless directory creation fails; creates the directory iff the checked one is missing; fetches iff the checked file is absent or `overwrite`; touches nothing else |
| `Downloads.DownloadTwiceWithoutOverwrite` | lib/DownloadCovidDatasets.py:251-257 | a second call without `overwrite` changes nothing and returns the same path: one fetch at most |
| `Downloads.DownloadTwiceWithOverwrite` | lib/DownloadCovidDatasets.py:251-254 | two calls with `overwrite` fetch twice, the same URL to the same path |
| `Downloads.EmptyDirectoryFetchesAgain` | lib/DownloadCovidDatasets.py:242-253 | for every configured directory that exists and lacks the file: with an empty `dirToSave` the file goes to `/name` while the check looks under the configured directory, so two calls without `overwrite` fetch twice |
| `Downloads.EmptyDirectoriesFail` | lib/DownloadCovidDatasets.py:244-245 | on a well-formed filesystem, an empty directory argument with an empty configured directory fails at `mkdir('')` and changes nothing |
| `Downloads.DownloadKeepsWellFormed` | lib/DownloadCovidDatasets.py:242-261 | a download keeps the filesystem well-formed unless its target path is an existing directory |
| `Downloads.DownloadCovidDatasets.constructor` | lib/DownloadCovidDatasets.py:27-29 | the Paraná URL starts as the template and the directory as `./datasets-covid` |
| `Downloads.DownloadCovidDatasets.GetUrlParanaDataset` | lib/DownloadCovidDatasets.py:109 | the stored Paraná URL |
| `Downloads.DownloadCovidDatasets.GetDatasetsDir` | lib/DownloadCovidDatasets.py:158 | the configured datasets directory |
| `Downloads.DownloadCovidDatasets.SetDatasetsDir` | lib/DownloadCovidDatasets.py:174 | `getDatasetsDir` afterwards returns the new directory; the Paraná URL is untouched |
| `Downloads.DownloadCovidDatasets.SetUrlParanaDataset` | lib/DownloadCovidDatasets.py:127 | the stored URL becomes its own rewrite with the two fragments; the directory is untouched |
| `Downloads.DownloadCovidDatasets.CheckDatasetDir` | lib/DownloadCovidDatasets.py:190-195 | tests the given directory, or the configured one when the argument is empty |
| `Downloads.DownloadCovidDatasets.CheckDataset` | lib/DownloadCovidDatasets.py:214-220 | tests `dir/name`, with the configured directory when `dir` is empty |
| `Downloads.DownloadCovidDatasets.DownloadDataset` | lib/DownloadCovidDatasets.py:242-261 | the filesystem and the result are those `DownloadOutcome` gives for the current state |
| `Downloads.DownloadCovidDatasets.DownloadParanaDataset` | lib/DownloadCovidDatasets.py:286-313 | a date error changes nothing; otherwise the stored URL is rewritten with the fragments and the download is `DownloadOutcome` of that URL, the effective directory and the dated or plain name |
| `Downloads.DownloadCovidDatasets.DownloadHopkinsDataset` | lib/DownloadCovidDatasets.py:339-358 | downloads the confirmed-cases URL under the kind- and date-dependent name into the effective directory |
| `Downloads.DownloadCovidDatasets.DownloadParanaCitiesWithIBGECodeDataset` | lib/DownloadCovidDatasets.py:378-382 | downloads the Paraná cities table under the given name into the effective directory |
| `Downloads.DownloadCovidDatasets.DownloadParanavaiRegionCitiesWithIBGECodeDataset` | lib/DownloadCovidDatasets.py:402-406 | downloads the Paraná cities table (not a Paranavaí one) under the given name |
| `Downloads.ParanaUrlFixedByFirstDownload` | lib/DownloadCovidDatasets.py:306-313 | on the initial state, a download with an explicit date fixes the URL; a second download with any date uses the same URL |

## Left out

- **The network.** `urlretrieve` is an event that records the fetch and
  makes the path a file. Its failures are not modelled: DNS, timeouts, HTTP
  errors, partial files, and writing into a path that is a directory or
  has no parent.
- **Ill-formed states.** `FsState` allows states no real filesystem has
  (`""` as a directory, a path that is both a directory and a file).
  `WellFormed` names the real ones; `EmptyDirectoriesFail` assumes it, and
  `DownloadKeepsWellFormed` shows downloads keep it.
- **The real filesystem.** `os.path.isdir`, `os.path.isfile` and `os.mkdir`
  act on sets of paths.
  - `mkdir` fails only on an empty path or a path that already exists.
  - A missing parent directory and permission errors are not modelled.
  - Paths are compared as strings, with no normalisation.
- **`print` logging** (lines 247-259 and 348). It is side output only.
- **`datetime.now()`.** It is a parameter. Time zones, DST and `tzinfo`
  are not modelled.
- **`strftime('%Y')`.** It is modelled as a four-digit, zero-padded year.
  Below 1000 the C library may print it without padding.
- `Text.Lower`: lowers ASCII letters only, not all of Unicode.
  - The source compares the lowered kind with three ASCII words.
  - Two non-ASCII characters lower to text containing an ASCII letter: the
    Kelvin sign becomes `k`, and `İ` (U+0130) becomes `i` followed by the
    combining dot U+0307.
  - None of the three words contains `k`, and the combining dot left by `İ`
    is in none of them either, so the comparison has the same outcome as on
    the ASCII model.
- **`Text.Replace` lemmas.** They cover the patterns the source uses,
  which are non-empty and start with `#`. The empty-pattern case of
  `str.replace` lives in the function only.
- **Explicit dates with `#`.** No lemma covers an explicit `tDate` that
  contains `#`. `FillParanaTemplate` requires `#`-free fragments: a `#` in
  the user's date could make one fragment fill another's placeholder. The
  function `FillParana` still computes what Python does for such dates.
- **Class state.** Python's name-mangled class attributes (shared by all
  callers) are the fields of one `DownloadCovidDatasets` object.
- **Concurrency.** Two processes racing on the same path are not modelled:
  the code is single-threaded.
- **Unused imports.** The `numpy`/`pandas` imports (lines 2-3) are unused.
