# gw_status: the detector status monitor, modelled in Dafny

`status_monitor.py` polls the gravitational-wave detector status page. It does three things:

- It reads each page into a snapshot, a dict from detector name to status string.
- It compares each new snapshot with the previous one.
- It prints a timestamped report of the whole snapshot on the first poll and whenever some detector's status changed.

This project models the logic between the network and the terminal:

- `parse_status_page` after the HTML parser. The input is the text of every table cell in document order. Each text is stripped, the empty ones are dropped, and each of the five tracked detectors takes the cell after the first occurrence of its name.
- `format_status`, with the clock reading passed in as a string.
- The body of `listen`: the diff of consecutive snapshots and the decision to print. It is run over a finite sequence of fetches.

Modules, one per file:

- `Wrappers` (`wrappers.dfy`): `Option` and `Result`.
- `Seqs` (`seqs.dfy`): Python's `list.index` as `IndexOf`, distinctness, and facts about permutations.
- `Text` (`text.dfy`): Python's `str.strip`, using the whitespace set of `str.isspace`.
- `Sorting` (`sorting.dfy`): Python's `sorted` on strings, with code-point lexicographic order.
- `Snapshots` (`snapshots.dfy`): a Python dict as an insertion-ordered list of entries with distinct keys.
- `StatusPage` (`status_page.dfy`): `DETECTORS` and `parse_status_page`.
- `Report` (`report.dfy`): `format_status`.
- `Monitor` (`monitor.dfy`): the loop in `listen`.

Python's exceptions become values:

- `list.index` raising `ValueError` is `LabelMissing`.
- `data[i + 1]` raising `IndexError` is `ValueMissing`.
- The lookup of a new key in the old dict raising `KeyError` is a `Failure`. The model proves it cannot happen, because every parsed snapshot has exactly the tracked detectors as keys.

Each fetch is given to the loop as a `Fetch`: the page's parse result together with the clock reading its report would show. `ListenPolls` runs the parser on raw cell lists first.

## Model

| member | source | states |
|---|---|---|
| Seqs.IndexOf | status_monitor.py:25 | `list.index` finds nothing exactly when the value is absent; otherwise it returns the position of the value's first occurrence |
| Text.StripRemovesSpaceAround | status_monitor.py:24 | `strip` returns a contiguous middle part of the text; everything before and after that part is whitespace |
| Text.StripUnique | status_monitor.py:24 | a trimmed middle part with only whitespace around it is exactly what `strip` returns |
| Text.StripEmptyIff | status_monitor.py:24 | a cell strips to the empty string exactly when all of it is whitespace, which is the comprehension's filter condition |
| Text.StripIdempotent | status_monitor.py:24 | stripping a stripped text changes nothing |
| StatusPage.KeptPositions | status_monitor.py:24 | the comprehension keeps the positions of exactly the cells that do not strip to nothing, in ascending order |
| StatusPage.CleanKeepsNonBlank | status_monitor.py:24 | the cleaned list holds, one for one and in their original order, the stripped texts of the kept cells |
| StatusPage.CleanCellsTrimmed | status_monitor.py:24 | every cleaned cell is non-empty and has no whitespace at either end |
| StatusPage.StatusAfterSpec | status_monitor.py:25 | one lookup fails with `ValueError` when the name is absent and with `IndexError` when its first occurrence is the last cell; otherwise it yields the cell after the first occurrence |
| StatusPage.ExtractSucceedsIff | status_monitor.py:25 | the dict comprehension succeeds exactly when every detector's lookup succeeds |
| StatusPage.ExtractFailsAtFirst | status_monitor.py:25 | when the comprehension fails, its error is the one raised by the first detector, in list order, whose lookup fails |
| StatusPage.ExtractNames | status_monitor.py:25 | on success the dict's keys are exactly the looked-up names, in list order when those are distinct |
| StatusPage.ExtractValues | status_monitor.py:25 | on success each name maps to the value its own lookup yielded |
| StatusPage.DetectorsDistinct | status_monitor.py:12-17 | the tracked detector names are distinct |
| StatusPage.ReadDetectorsSpec | status_monitor.py:12-26 | parsing succeeds exactly when every tracked detector's name occurs with a cell after its first occurrence; the snapshot's keys are then exactly the tracked detectors, in list order; otherwise the error names the first tracked detector that is absent or last |
| StatusPage.ReadDetectorsValues | status_monitor.py:25 | each detector's parsed status is the cell right after the first occurrence of its name |
| Snapshots.Get | status_monitor.py:41 | `d[name]` fails exactly for a missing key and otherwise yields the status stored under that key |
| Snapshots.InsertSpec | status_monitor.py:25 | assigning `d[name] = status` binds that key, leaves every other key's status alone, keeps an existing key's place and appends a new key last |
| Sorting.InsertSortedSpec | status_monitor.py:40 | inserting into a sorted sequence keeps it sorted and adds exactly the one new element |
| Sorting.SortSpec | status_monitor.py:40 | `sorted` returns an ascending permutation of its input |
| Sorting.LexLessTotal | status_monitor.py:40 | Python's string order relates any two different strings one way or the other |
| Sorting.LexLessTransitive | status_monitor.py:40 | Python's string order is transitive |
| Sorting.SortedUnique | status_monitor.py:40 | two ascending arrangements of the same distinct strings are equal, so the sorted key order does not depend on the input order |
| Report.SortedNames | status_monitor.py:40 | the sorted key list holds every key of the snapshot once, in strictly ascending order |
| Report.DetectorLinesSplit | status_monitor.py:40-41 | when no name or status holds a line break, the loop's appended text reads back as one line per name, in order, each a tab, the name, a colon and the quoted status |
| Report.DetectorLinesEnd | status_monitor.py:40-41 | the loop's appended text is empty exactly when there are no names, and otherwise ends with a line break |
| Report.ReportLines | status_monitor.py:37-42 | when no clock reading, name or status holds a line break, the report, read back line by line, has one more line than the snapshot has keys: first the header with the clock reading, then each detector's line in ascending name order with that detector's status; the text ends with a line break, so every line, the last included, is terminated |
| Report.ReportOrderIndependent | status_monitor.py:37-42 | two snapshots that map every name to the same status give the same report, whatever their key order |
| Monitor.ChangedFromSpec | status_monitor.py:51-52 | the comprehension over the keys from a given position on: it raises `KeyError` for the first key that the old dict lacks; otherwise it lists exactly the changed keys, each once, in the new dict's order |
| Monitor.ChangedSpec | status_monitor.py:51-52 | `changed` exists exactly when every new key is an old key; it lists exactly the detectors whose status differs, each once, in the new snapshot's key order |
| Monitor.ChangedSelf | status_monitor.py:51-52 | a snapshot compared with itself has no changes |
| Monitor.ChangedOne | status_monitor.py:51-52 | when one detector's status is replaced, `changed` is that detector if the status really differs, and empty otherwise |
| Monitor.StepSpec | status_monitor.py:49-54 | one iteration prints exactly when some detector changed, and then prints the new snapshot's report |
| Monitor.StepQuiet | status_monitor.py:51-54 | an unchanged page prints nothing |
| Monitor.Watch | status_monitor.py:48-55 | the loop produces one entry per completed fetch and stops only on a page that does not parse, never on a `KeyError` |
| Monitor.Listen | status_monitor.py:44-55 | `listen` produces one entry per completed fetch and stops only on a page that does not parse |
| Monitor.FetchesKeyed | status_monitor.py:25 | every fetched page that parses has exactly the tracked detectors as keys |
| StatusPage.ParsedNames | status_monitor.py:25 | a parsed page has exactly the tracked detectors as keys |
| Monitor.WatchCompletes | status_monitor.py:48-55 | when every page parses, the loop never stops |
| Monitor.WatchPrints | status_monitor.py:49-54 | iteration `i` prints what one step from the previous snapshot to snapshot `i` prints |
| Monitor.WatchTrace | status_monitor.py:48-55 | when every page parses, iteration `i` prints snapshot `i`'s report exactly when some status differs from the snapshot before it |
| Monitor.ListenPrints | status_monitor.py:46-54 | every iteration of `listen` after the first prints what one step from the previous snapshot prints |
| Monitor.ListenTrace | status_monitor.py:44-55 | when every page parses, `listen` always prints the first snapshot's report, and afterwards prints a snapshot's report exactly when some status differs from the previous snapshot |
| Monitor.WatchStopsAtBadPage | status_monitor.py:48-50 | the loop ends with the error of the first page that does not parse, after one entry per earlier fetch |
| Monitor.ListenStopsAtBadPage | status_monitor.py:44-50 | `listen` ends with the error of the first page that does not parse, after one entry per earlier fetch |
| Monitor.ListenQuiet | status_monitor.py:44-55 | a page that never changes is reported once, at the first fetch, and never again |
| Monitor.ListenPollsStops | status_monitor.py:20-26 | fed raw cell lists, `listen` stops exactly at the first page that does not parse, with that page's error |

## Left out

- The HTTP fetch in `get_gw_status` (status_monitor.py:29-34), `urlopen` and `request.read`: network I/O. Each fetch is an input.
- BeautifulSoup and `row.text` (status_monitor.py:22-23): a third-party HTML library. Its output, the text of each `<td>` cell in document order, is the input.
- `Time.now()` and `.iso` (status_monitor.py:38-39): the wall clock. The clock reading is a string parameter.
- `print` and `sleep(30)` (status_monitor.py:47, 54-55): output and timing. The model records what each iteration would print, and `None` when it prints nothing. The line break that `print` adds after the report is not part of the report.
- `Listen`, `Watch`: the `while True` loop never ends (status_monitor.py:48). The model runs it over a finite sequence of fetches, and the properties hold for every finite prefix.
- `.copy()` (status_monitor.py:49): snapshots are immutable values, so copying changes nothing.
- `Text.Strip`: strings are sequences of code points. Python's lone surrogates and any encoding of the page are not modelled.
- Network errors from `urlopen` would also end `listen`. They belong to the fetch, so they are not modelled.
