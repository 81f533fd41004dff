# csq-work-report core, modelled in Dafny

`report.py` collects a developer's recent commits from several git working
directories into one CSV report. For every target directory,
`create_report` learns the project name from `pwd` and asks `git log` for one
tab-separated line per commit, `<date>\t<project>\t<hash>\t<email>\t<subject>`.
`create_reports` does the rest:

- it merges the lines of every target that has commits and skips the others
  with a "no commits" notice;
- it sorts the merged lines newest first, keyed by
  `strptime(line.split("\t")[0], "%Y-%m-%d")`;
- it writes a header row, then one row per line, split at every tab.

The model has four modules:

- `PyStr` covers the Python string operations the program relies on: `rfind`,
  `strip` with Python's whitespace set, `split` on one character, the `join`
  that inverts it, and `splitlines` with Python's line boundaries (CR LF counts
  as one boundary).
- `PyDate` covers `strptime` for the `%Y-%m-%d` format: four-digit years from 1
  to 9999, one- or two-digit months, days that may be written with a leading
  space, days checked against the month and leap years, and no trailing text.
  It parses a text to a date exactly when the text spells that valid date.
  It is also a left inverse of `FormatDate`: every zero-padded valid date
  parses back. The converse does not hold, because `"2024-1-5"` parses too.
- `DateSort` covers `list.sort(key=..., reverse=True)` in two passes.
  - The keys pass: `Decorate` computes the key of every line in list order,
    with the key function passed in, and stops at the first key that raises.
  - The stable descending sort: `SortDesc` is the insertion sort function
    that specifies it, and `SortByDateDesc` is the in-place insertion sort on
    an array, proved equal to `SortDesc`.
- `Report` covers `create_report` and `create_reports`. The outputs of the
  shell commands run in a target are inputs (`Target`). The CSV file is the
  sequence of rows handed to `csv.writer`, or `DateParseFailure` when a sort
  key raises, which happens before the file is opened. The sort key is
  `DateKey`, `ParseDate` of the text before the first tab.

The program's two quirks are kept as written:

- The header names `project` first, but every row starts with the date.
- The split is unbounded, so a subject containing tabs gives extra columns.

## Model

| member | source | states |
|---|---|---|
| Report.ProjectName | report.py:48 | the project name never contains `/` and has no whitespace at either end |
| Report.ProjectNameOfPath | report.py:48 | for a path whose last `/` precedes `base`, the name is `base` stripped |
| Report.ProjectNameWithoutSlash | report.py:48 | when the `pwd` output has no `/` (`rfind` gives -1), the name is the whole output stripped |
| Report.ProjectNameOfPwd | report.py:46-48 | the `pwd` output for `parent/base` followed by a newline yields exactly `base` |
| Report.CreateReport | report.py:58-62 | a target yields None exactly when its `git log` output is empty (zero lines); otherwise it yields the `splitlines` of that output |
| Report.CreateReportOfLog | report.py:52-62 | when the `git log` output is commit lines separated by newlines, the target yields exactly those lines, in order |
| Report.Contribution | report.py:71-74 | a target adds no lines exactly when its `git log` output is empty, and none of the lines it adds holds a line boundary |
| Report.Gather | report.py:68-74 | the merged list `lines` after the loop; it has no contract of its own and is characterised by `GatherLength`, `GatherConcat` and `GatherSkipsEmpty`, and the loop `GatherLines` is proved equal to it |
| Report.GatherLength | report.py:68-74 | the merged list has as many lines as all the targets' outputs hold together |
| Report.GatherConcat | report.py:68-74 | the merged list of `a + b` is the merged list of `a` followed by that of `b`, so lines appear in target order |
| Report.GatherSkipsEmpty | report.py:71-74 | a target without commits contributes nothing, and the targets after it are still gathered |
| Report.GatherStep | report.py:70-74 | one more target appends its lines to the merged list, or a notice naming its project when it has no lines |
| Report.GatherLines | report.py:68-74 | the loop builds exactly the merged list and one "no commits" notice per skipped target, in target order |
| Report.EmptyTargets | report.py:58-73 | the "no commits" notices; it has no contract of its own and is characterised by `EmptyTargetsNotices` |
| Report.EmptyTargetsNotices | report.py:58-73 | there is exactly one notice per target whose `git log` printed nothing, and each notice names the project of such a target |
| Report.FirstField | report.py:76 | the key text is the prefix of the line before its first tab, or the whole line if it has no tab |
| Report.DateKey | report.py:76 | the key lambda, `strptime` of the first field; it has no contract of its own and is characterised by `ParseDateSpelling` on `FirstField`, `RowKey` and `ReportNewestFirst` |
| Report.Rows | report.py:89-90 | `line.split("\t")` of every line; it has no contract of its own and is characterised by `UnsplitRows` (the rows rejoin to the lines) and `GitLineRow` (the shape of a git line's row) |
| Report.ReportOutcome | report.py:65-90 | `create_reports` as a function: a written report starts with the header, and a failure names a merged line whose date does not parse. `ReportAbortsOnBadDate`, `ReportRowCount`, `ReportIsPermutation`, `ReportNewestFirst` and `ReportStable` state the rest |
| Report.ReportAbortsOnBadDate | report.py:76-90 | the run fails exactly when some merged line's date does not parse; the failure names the first such line, and no rows are produced |
| Report.ReportRowCount | report.py:85-90 | a written report has the header first and one row per line of every target |
| Report.ReportIsPermutation | report.py:76-90 | joining the rows with tabs gives back a permutation of the merged lines |
| Report.ReportNewestFirst | report.py:76 | every row's first field is a valid date, and no row is older than any row below it |
| Report.ReportStable | report.py:76 | for every date, the lines of that date (picked by `DateKey`) keep the order they had in the merged list |
| Report.SortedRowsNewestFirst | report.py:76-90 | the rows of sorted, keyed entries run newest first |
| Report.RowKey | report.py:76-90 | the first field of an entry's row parses to that entry's key |
| Report.UnsplitRows | report.py:90 | joining each row with tabs gives back its line |
| Report.GitLineRow | report.py:52-90 | a git line's row is date, project, hash and email followed by the subject split at its own tabs: `5 + n` columns for a subject with `n` tabs, starting with the date under the header's `project` column |
| Report.WriteRows | report.py:85-90 | the rows written are the header followed by `line.split("\t")` of every line, in order |
| Report.CreateReports | report.py:65-90 | the method's outcome is the report function `ReportOutcome` of the targets, and its notices are the "no commits" notices of the skipped targets |
| DateSort.Decorate | report.py:76 | the keys pass either keys every line, each entry carrying the key of its own line, or fails on a line whose key raises |
| DateSort.DecorateStep | report.py:76 | after a keyed prefix, one more line whose key is computed extends the entries by that line |
| DateSort.DecorateFirstFailure | report.py:76 | once the keys of a prefix are computed, the first line whose key raises is the one reported, whatever follows it |
| DateSort.DecorateFailureIsFirst | report.py:76 | a failure names a line before which every key was computed |
| DateSort.DecorateFails | report.py:76 | the keys pass fails exactly when some line's key raises, and it reports the first such line |
| DateSort.DecorateLines | report.py:76 | the keys pass fills a fresh array with every line's key in list order, or stops at the first line whose key raises |
| DateSort.SortedWellKeyed | report.py:76 | the sort keeps every entry together with its own key |
| DateSort.FilterKeyLines | report.py:76 | for keyed entries, picking the entries of a date and picking the lines of that date agree |
| DateSort.InsertLast | report.py:76 | one in-place insertion step turns the array's sorted prefix into `InsertDesc` of its next element, and leaves the rest of the array unchanged |
| DateSort.SortByDateDesc | report.py:76 | the in-place sort leaves the array equal to `SortDesc` of its old contents |
| DateSort.SortDesc | report.py:76 | the stable descending sort; it has no contract of its own and is characterised by `SortDescPermutation`, `SortDescSorted` and `SortDescStable` |
| DateSort.InsertDesc | report.py:76 | one insertion step of that sort; it has no contract of its own and is characterised by `InsertDescMultiset`, `InsertDescSorted`, `InsertDescFilter` and `InsertDescAt` |
| DateSort.SortDescPermutation | report.py:76 | the sort keeps the length and the multiset of entries |
| DateSort.SortDescLinesPermutation | report.py:76 | the sort keeps the multiset of lines |
| DateSort.SortDescSorted | report.py:76 | after the sort, dates do not increase from one entry to any later one |
| DateSort.SortDescStable | report.py:76 | for every date, the entries with that date keep their relative order |
| DateSort.InsertDescMultiset | report.py:76 | inserting an entry adds exactly that entry |
| DateSort.InsertDescLines | report.py:76 | inserting an entry adds exactly its line to the multiset of lines |
| DateSort.InsertDescSorted | report.py:76 | inserting into a newest-first sequence keeps it newest first |
| DateSort.InsertDescFilter | report.py:76 | an inserted entry goes after every earlier entry with the same date |
| DateSort.InsertDescAt | report.py:76 | insertion puts the entry after the last entry that is not older than it |
| DateSort.FilterKeyAppend | report.py:76 | selecting the entries of one date distributes over concatenation |
| PyDate.ParseDate | report.py:76 | a parsed date is always a valid calendar date |
| PyDate.ParseDateSpelling | report.py:76 | `strptime(s, "%Y-%m-%d")` gives `d` exactly when `s` spells `d` in that format and `d` is a valid date |
| PyDate.FormatParse | report.py:76 | every valid date, written with zero padding, parses back to itself |
| PyDate.MonthWidthSpells | report.py:76 | the `%m` alternatives read one digit or two, exactly as a spelling of the month |
| PyDate.DayWidthSpells | report.py:76 | the `%d` alternatives, including a leading space, read the whole remaining text exactly as a spelling of the day |
| PyStr.RFind | report.py:48 | `rfind` gives -1 when the character is absent, and otherwise its last position |
| PyStr.Strip | report.py:48 | the stripped text has no whitespace at either end, is empty exactly when the input is all whitespace, and holds only characters of the input |
| PyStr.LStrip | report.py:48 | only leading whitespace is removed, up to the first character that is not whitespace |
| PyStr.RStrip | report.py:48 | only trailing whitespace is removed, back to the last character that is not whitespace |
| PyStr.StripSurrounded | report.py:48 | a word with whitespace around it strips to the word |
| PyStr.StripNewline | report.py:46-48 | a name followed by the newline `pwd` prints strips to the name |
| PyStr.StripEmpty | report.py:48 | after both ends are stripped, nothing is left exactly when the whole text was whitespace |
| PyStr.StripInside | report.py:48 | every character left after stripping was in the text |
| PyStr.Split | report.py:76-90 | `split` on a character gives one more field than the separator's occurrences, and no field contains the separator |
| PyStr.JoinSplit | report.py:90 | joining the fields of a split with the separator gives back the text |
| PyStr.SplitJoin | report.py:90 | splitting a join of fields that do not contain the separator gives back the fields |
| PyStr.SplitJoinLast | report.py:90 | fields without the separator stay intact before a last field, which is split on its own |
| PyStr.SplitLines | report.py:58-62 | `splitlines` gives no lines exactly for the empty text, and no line contains a line boundary |
| PyStr.SplitLinesJoin | report.py:58-62 | non-empty-ended lines joined with newlines split back into the same lines |
| PyStr.SplitLinesRejoin | report.py:58-62 | the lines of `splitlines`, each followed by the boundary that ended it, give back the text |
| PyStr.LineEndsBoundaries | report.py:58-62 | every line but the last ends in CR LF or one boundary character, and the last ends in one of these or at the end of the text, where it is not empty (a final boundary does not start an empty line); a lone CR is never followed by a line that starts with LF, so CR LF is one boundary |
| PyStr.LoneCarriageReturn | report.py:58-62 | a line ended by a lone CR is never followed by a line that starts with LF |
| PyStr.LastLineEnd | report.py:58-62 | the last line of a non-empty text ends in a boundary, or at the end of the text and then is not empty |

## Left out

- `execute_command` (`os.popen`) and the shell commands it runs are not modelled. What `pwd` and the `git log` query print in a target are inputs (`Report.Target`), and git's own `--since`, `--author` and `--no-merges` filtering happens before them.
- `get_args`, `main` and the argparse defaults are not modelled. The target list is an input of `CreateReports`.
- `os.makedirs`, `open` and `csv.writer` are not modelled. The report is the sequence of rows handed to the writer, and CSV quoting and escaping are not modelled.
- `print` is not modelled. The "no commits for <name>" messages are recorded as `notices`, one project name per skipped target.
- `PyDate.ParseDate`: `strptime` also accepts non-ASCII Unicode decimal digits, and its errors are ValueErrors with messages. The model accepts only ASCII digits and reports only which line failed.
- `Report.ReportOutcome`: a failing sort key is reported as the offending line, not as a Python traceback. The rows follow the code rather than the header: the split is unbounded and the first column is the date.
- `DateSort.SortByDateDesc` is an insertion sort proved equal to a stable descending sort. It is not a model of CPython's timsort, which yields the same order for the same keys.
