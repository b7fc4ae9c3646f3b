# Lost-time tracker: the historical analyser, modelled in Dafny

The analyser estimates a week of desktop screen time from the processes
Windows reports. It reads each process's WMI `CreationDate`, parses its
`yyyymmddHHMMSS` part with `datetime.strptime`, and keeps the processes
started within the last seven days. Each kept process is treated as running
until now. Processes on a fixed ignore list are dropped. Each distinct app
name is classified once by a zero-shot text classifier, which picks one of
six Portuguese labels. The analyser then prints:

- the estimated total screen time (now minus the earliest start);
- the time per category, largest first;
- how many ten-hour books the time in games and browsing could have paid for.

It also computes a per-(category, app) breakdown (`main.py:119`) that it
never prints. The model keeps that breakdown in its report, so that its
relation to the printed totals can be stated. The report also records the
app names handed to the classifier, in call order; the code keeps no such
record, and the model uses it to state that each app is classified once.

The model follows `run_analyzer_historical` and `classify_app` in `main.py`
as pure functions over a sequence of processes, one instant `now`, and a
classifier passed in as a parameter.

Modules, in pipeline order:

- `Calendar` (`calendar.dfy`): Python's proleptic Gregorian `datetime`.
  - Validity of a date and time.
  - The mapping onto integer seconds since 0001-01-01 ("instants").
  - A proof that comparing instants is comparing `datetime` values.
- `Strptime` (`strptime.dfy`): `strptime(text, "%Y%m%d%H%M%S")` as CPython's
  `_strptime` carries it out.
  - The format is matched as a regex whose directives are ordered alternations (`%m` is `1[0-2]|0[1-9]|[1-9]`, …).
  - Matching backtracks, and text left over is an error.
  - `datetime`'s range check follows.
  - Proved: the 14-digit text of every valid date parses back to that date.
- `Collect` (`collect.dfy`): the collection loop.
  - Take the text before the first dot and parse it.
  - Apply the seven-day window; the duration is `now - start`.
  - A process without a usable date is skipped and the loop goes on.
- `Categories` (`categories.dfy`): the six candidate labels, and `classify_app` as "first label of the ranking".
  - `Series.unique()`.
  - The once-per-app classification loop.
- `Aggregate` (`aggregate.dfy`): the pandas steps.
  - Per-category sums sorted descending.
  - The per-(category, app) breakdown.
  - The earliest start.
  - `Series.get(c, 0)`.
  - The books figure.
- `Analyzer` (`analyzer.dfy`): the ignore list and the whole run.
  - `Analyze` returns `NoData`, `Failed(…)` or `Done(report)`.
  - The lemmas state each reported figure in terms of the processes, `now` and the classifier.

`Wrappers` (`wrappers.dfy`) holds `Option`.

Instants and durations are integer seconds. The report keeps seconds and
the books figure as a `real`. Dividing by 3600 into hours is presentation,
except inside the books figure, where the model does it exactly.

Points where the code may surprise a reader:

- The code has no static name-to-category table. Every app goes to the classifier.
- A classifier failure does not fall back to `"Outros"`. An empty ranking raises `IndexError` at `main.py:54`, which reaches the catch-all handler at `main.py:139-141`. The run ends without a report, modelled as `Failed(EmptyRanking(app))`. The handler prints only the exception's message (`list index out of range`), which names no app. The app in `EmptyRanking(app)` is the model's own record of where the loop stopped, kept so that it can be stated.
- An exception raised inside the classifier call itself (`main.py:49`) reaches the same handler and also ends the run. The model has no separate case for it: such a classifier is represented by an empty ranking for that app, so the run is again `Failed(EmptyRanking(app))`.
- The emptiness test at `main.py:92` runs before the ignore filter at `main.py:98`. If every collected process is ignored, the run therefore gets past `NoData`.
- Sorting promises no tie order.
- The labels are the Portuguese ones of `main.py:27`. The books figure reads `"Jogos"` and `"Navegador"`.

## Model

| member | source | states |
|---|---|---|
| Strptime.ParseDateTime | main.py:75 | a parse that succeeds yields a date and time `datetime` accepts (year 1..9999, day within the month, second at most 59) |
| Strptime.ParsedDigitsAreFormatted | main.py:75 | a 14-digit text that parses is the zero-padded text of the date and time it parses to: every field is read from its own digits |
| Strptime.DigitTextParsesIffValid | main.py:75 | a 14-digit text parses iff it spells a valid date and time, and then parses to exactly that date and time; an impossible date is refused |
| Strptime.MonthThirteenRefused | main.py:75 | the text `20241301000000` (month 13) does not parse |
| Strptime.ThirtiethFebruaryRefused | main.py:75 | the text `20240230000000` (30 February) does not parse |
| Strptime.ParseFormatted | main.py:75 | round trip: the zero-padded 14-digit text of any valid date and time parses back to exactly that date and time |
| Calendar.InstantOrderIsDateTimeOrder | main.py:77 | the window test on instants is the `datetime` comparison: one date-time is field-by-field earlier than another iff its instant is smaller, and equal iff the instants are equal |
| Collect.BeforeFirstDot | main.py:74 | `split('.')[0]` is a prefix of the text with no dot in it, and it stops only at a dot or at the end of the text |
| Collect.StartInstant | main.py:72-75 | a process has a start iff its creation date is present and its part before the first dot parses; the start is never before year 1 |
| Collect.DigitCreationDateStart | main.py:72-87 | a creation date whose part before the first dot is 14 digits yields a start iff those digits spell a valid date and time, and the start is that date and time's instant; otherwise the process is skipped |
| Collect.CreationDateRoundTrip | main.py:74-75 | a WMI creation date `yyyymmddHHMMSS.<anything>` yields the instant of its date and time, whatever follows the dot |
| Collect.Observe | main.py:66-84 | a process yields a row iff it has a start no earlier than seven days before `now`; the row carries its name, that start and the duration `now - start` |
| Collect.CollectRows | main.py:71-87 | the collected rows number at most the processes, and every one started inside the window and lasts until `now` |
| Collect.CollectedRowsAreObservations | main.py:71-87 | every collected row is the row of some process, and every process that yields a row has it collected |
| Collect.CollectRowsAppend | main.py:71-87 | each process is handled on its own: collecting a concatenation is concatenating the collections |
| Collect.SkippedProcessLeavesNoTrace | main.py:85-87 | a process whose date is missing, unparsable or too old drops out alone, and the other rows are collected unchanged |
| Categories.ClassifyApp | main.py:39-54 | an app gets a label iff its ranking is non-empty, and the label is the first, best-scored, label of the ranking |
| Categories.RankingGivesCandidate | main.py:27-54 | when the classifier ranks the six candidate labels, every app gets a label and that label is a candidate |
| Categories.Unique | main.py:102 | the distinct app names: no repeats, and exactly the names that occur |
| Categories.UniqueKeepsFirstOccurrenceOrder | main.py:102 | the distinct names come in the order of their first occurrences |
| Categories.ClassifyAll | main.py:102-107 | a completed loop labels exactly the distinct apps, each with its own top-ranked label, asking about each once in order; a stopped loop stops at the first app whose ranking is empty |
| Categories.ClassifyAllFailsOnlyOnEmptyRanking | main.py:106-107 | the loop completes iff every app's ranking is non-empty |
| Aggregate.SortDescendingCorrect | main.py:121 | sorting gives non-increasing seconds, keeps the sum and keeps the categories distinct; it is a permutation |
| Aggregate.CategoryTotalsCorrect | main.py:121 | the per-category lines are non-increasing, one per category that occurs and none for any other, each the seconds of its category, summing to all seconds, and non-negative when the durations are |
| Aggregate.CellSumCoversCategory | main.py:119-121 | for any distinct apps that include every row's app, the zero-filled cells of a category across those apps add up to that category's seconds |
| Aggregate.BreakdownRefinesTotals | main.py:119-121 | the breakdown refines the category totals: in the zero-filled table, the cells of one category across all apps add up to that category's seconds, and no cell is negative when no duration is |
| Aggregate.PairTotalIsAppTotal | main.py:119 | when an app has a single category, its cell holds all of the app's seconds |
| Aggregate.LookupIsCategoryTotal | main.py:131 | `get(c, 0)` on the sorted totals is the seconds of category `c`, and 0 when no row has it |
| Aggregate.ScreenTimeIsLongestDuration | main.py:114-115 | with durations running to `now`, now minus the earliest start is at least each duration and equals one of them |
| Analyzer.DropIgnored | main.py:98 | no kept row belongs to an ignored app, and rows are only removed |
| Analyzer.DropIgnoredKeeps | main.py:98 | a row is kept iff it was present and its app is not on the ignore list (exact, case-sensitive) |
| Analyzer.DropIgnoredAppend | main.py:98 | filtering a concatenation is concatenating the filtered parts |
| Analyzer.Categorise | main.py:110 | every row gets its app's category; app, start and duration are unchanged |
| Analyzer.KeptRowsInWindow | main.py:66-79 | every row that reaches the analysis started no earlier than the cutoff, lasts `now - start` and is not ignored |
| Analyzer.NoDataWhenNothingObserved | main.py:89-94 | the run reports no data iff no process yields a row |
| Analyzer.AllIgnoredWhenEveryRowIgnored | main.py:92-98 | the run ends for want of rows iff some process yields a row and every process that yields one is ignored |
| Analyzer.DoneExactlyWhenCompletes | main.py:92-121 | a run reports iff some row survives the ignore list and every kept app's ranking is non-empty |
| Analyzer.RankingFailure | main.py:54 | a run fails on a ranking iff some row survives the ignore list and some kept app's ranking is empty |
| Analyzer.RankingFailureNamesKeptApp | main.py:54 | the app the model records for a failed run (the code prints no app name) is a kept, non-ignored app whose ranking is empty |
| Analyzer.DroppedProcessIrrelevant | main.py:72-87 | adding a process that yields no row leaves the run's outcome unchanged |
| Analyzer.IgnoredProcessRows | main.py:98 | adding an ignored process adds at most its own row to the collected rows and nothing to the kept rows |
| Analyzer.IgnoredProcessIrrelevant | main.py:92-98 | adding an ignored process leaves the outcome unchanged, except that when it alone yields a row, "no data" becomes "every row ignored" |
| Analyzer.ClassifierCalledOncePerApp | main.py:102-107 | the classifier is asked about each distinct kept app exactly once and about nothing else, never about an ignored app |
| Analyzer.CategorisedTotals | main.py:110-121 | over any rows labelled by the classifier: the per-category lines are non-increasing with distinct categories, a category appears iff some row's app is ranked into it, each line holds the seconds of those rows, and they sum to all the seconds |
| Analyzer.ReportTotals | main.py:121 | report lines are non-increasing with distinct categories; a category appears iff some kept app is ranked into it; each holds the kept seconds of apps ranked into it; they sum to all kept seconds and are non-negative when no kept start lies after `now` |
| Analyzer.ReportScreenTime | main.py:114-115 | the reported screen time is at least every kept duration and equal to one of them |
| Analyzer.ReportBooks | main.py:131-133 | the books figure is the kept hours of apps ranked into games plus those ranked into browsing, divided by ten; a label nobody is ranked into adds nothing |
| Analyzer.CategorisedBreakdown | main.py:110-119 | over any rows labelled by the classifier, every (category, app) cell is an app of the rows under its own top-ranked label, holding all of that app's seconds |
| Analyzer.ReportBreakdown | main.py:110-119 | every cell is a non-ignored app under its own top-ranked label, so no app is split across categories, holding all of its kept seconds |
| Analyzer.ReportCoversKeptApps | main.py:110-119 | every kept app has a cell under its top-ranked label |
| Analyzer.ZeroShotNeverFailsOnRanking | main.py:27-54 | with a classifier that ranks the six candidates, a run never fails on a ranking and reports iff some row survives the ignore list |
| Analyzer.ZeroShotCategoriesArePossibleLabels | main.py:27-54 | with such a classifier, every category a run reports is a candidate label |

The `Report…` and `ClassifierCalledOncePerApp` lemmas are about a run that reports. Each requires `Completes`: some row survives the ignore list, and every kept app has a non-empty ranking. `DoneExactlyWhenCompletes` shows this is exactly the condition for a report. `ZeroShotCategoriesArePossibleLabels` instead requires a zero-shot classifier and one kept row, which together imply `Completes`.

## Left out

- Process enumeration (`wmi.WMI()`, `Win32_Process`) and the `wmi.x_wmi` handler at `main.py:136-138` are operating-system I/O. The processes are a given sequence of name and optional creation-date text.
- The Hugging Face zero-shot pipeline is an opaque machine-learning model. It is the `Ranker` parameter, a function from an app name to labels best first. `IsRanking` describes the pipeline's promise that every candidate label appears once.
- The clock is the single parameter `now`. The code reads `datetime.now()` separately for the cutoff (`main.py:66`), once for each kept process's duration (`main.py:79`) and once for the screen time (`main.py:115`), so these can use slightly different instants.
- `now` is a whole number of seconds. The code's cutoff at `main.py:66` keeps the microseconds of `datetime.now()`, while a start parsed at `main.py:75` has none. So when the clock's microsecond part is non-zero, the code rejects a process started in the cutoff's own second, and the model keeps it. Durations likewise lose their sub-second part.
- The UTC offset after the fraction in a WMI date (`+060`, say) is dropped together with the fraction, as in the code. Instants are naive local time.
- Collect.StartInstant: only ASCII digits are digits. Python's `\d` also accepts other Unicode decimal digits.
- Hours are computed as floats and rounded for printing (`:.2f`, `.round(2)`, `round(…, 2)`, `main.py:124-134`). The model keeps exact seconds and an exact `real` books figure, with no rounding and no output.
- The pandas data frame and `unstack` (`main.py:90`, `main.py:119`) are left out. The breakdown is a map holding only the pairs that occur. `Aggregate.Cell` reads it with `fillna(0)`'s zero for an absent pair.
- The `tqdm` progress bar (`main.py:106`) is display only.
- Analyzer.AllIgnoredWhenEveryRowIgnored: when every collected row is ignored, the code computes on an empty frame. `min` gives `NaT` and the screen time becomes `nan`, and the output depends on pandas. The model ends such a run with the explicit outcome `Failed(AllRowsIgnored)` instead.
- Analyzer.ReportTotals: equal category totals may come in any order, because `sort_values` promises no tie-break. The sort used is one valid order, and only non-increasing order is stated.
