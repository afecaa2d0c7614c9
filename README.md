# git-reader in Dafny

A model of the extraction core of `git-reader.py`. The program walks the non-merge history
of a git repository. For every commit it reads the per-file line counts that
`git show --numstat` reports. It writes one row per file into table `files` and one summary
row per commit into table `commits`.

The model covers the text-to-rows pipeline, in five modules, plus a small `Wrappers` module
(`wrappers.dfy`) that holds `Option` and `Result`:

- `Text` (`text.dfy`) covers Python's whitespace, `rstrip`/`strip`, and the split of captured
  standard output into lines. It models `queryGit`'s `stdout.split(b'\n')` with
  `decodeLine`'s `rstrip()`. Output is taken as already-decoded characters.
- `FileLineRegex` (`regex.dfy`) is a reference semantics for `re.match` with the pattern
  `^(-|[0-9]*)\s+(-|[0-9]*)\s+(.*)`. It is a generic backtracking search over the pattern's
  pieces: alternation tries its left branch first, and greedy repetitions try their longest
  run first.
- `Numstat` (`numstat.dfy`) holds a search-free matcher `Match` that is proved to return
  the same groups as the backtracking search on every line. It also models the count
  conversion (`-` is 0, digits are their decimal value) and `getCommitFiles` as a method
  with a loop, proved against the function `Collect`.
- `CommitLog` (`commit_log.dfy`) models `getCommitDates`. Empty lines are skipped, the id
  is `line[:40]`, and the date text is `line[41:].strip()`. The date text goes to a
  parameter `parseDate`, and a line whose date does not parse is dropped.
- `Pipeline` (`pipeline.dfy`) models `async_main` as methods with loops. The two database
  tables are the two sequences of the class `Sink`. Its ghost `trace` records the order in
  which rows were inserted. The methods are proved against the function `Run`, and the
  promised properties are lemmas about `Run`: commit totals equal the sums of the commit's
  file rows, file rows come before their commit row, and commits appear in stream order.

Behaviour worth knowing, as the code has it:

- A count group can capture the empty string. For example, in `10\t\tfoo` the first `\s+`
  gives back one tab. `added[0]`/`removed[0]` then raises `IndexError`, which the
  `except ValueError` does not catch, so the run stops (`EmptyRemovedExample`,
  `LeadingSpaceNeverItem`). The model returns this as the `Failure` `EmptyCountField`:
  `getCommitFiles` stops at the first such line, and `async_main` stops at the first commit
  that has one (`RunFirstFailure`).
- A captured count is always `-` or ASCII digits, so `int` never raises `ValueError` there,
  and the handler at git-reader.py:155-156 is never reached (`CountValue`).
- Commit header lines are not checked against `commit_expr`: any non-empty line is sliced.
  A line of at most 41 characters gives an empty date text.
- A filename loses the whitespace at its ends. Whitespace at its start is taken by the
  second `\s+`, so `1\t2\t foo` gives the item `("foo", 1, 2)` (`LeadingPathSpaceLost`).
  Whitespace at its end is removed by the `rstrip()` of each output line (`ShowLines`).
- `files_touched` is the number of items `getCommitFiles` returned (`len(files)`). It is
  not a count of distinct filenames.

Calls into code the model cannot see become parameters:

- `log` is the captured standard output of `git log --no-merges --format=%H %ad`.
- `show(cid)` is the captured standard output of `git show <cid> --numstat --format=%H %ad`.
- `parseDate` stands for `datetime.strptime(_, '%c %z')`. It returns `None` where strptime
  raises `ValueError`. The date type `D` is a type parameter.

## Model

| member | source | states |
|---|---|---|
| `Text.RStrip` | git-reader.py:34 | the result is a prefix of the line, does not end in whitespace, and everything removed is whitespace |
| `Text.Strip` | git-reader.py:173 | the result has no whitespace at either end and is no longer than its input |
| `Text.StripIsSlice` | git-reader.py:173 | `strip` returns a contiguous piece of its input, with only whitespace outside it |
| `Text.StripUntrimmed` | git-reader.py:173 | a text with no whitespace at its ends is left unchanged by `strip` |
| `Text.Split` | git-reader.py:128 | splitting gives at least one piece, and no piece contains a newline |
| `Text.SplitCount` | git-reader.py:128 | there is exactly one more piece than there are newlines |
| `Text.JoinSplit` | git-reader.py:128 | the pieces joined with `'\n'` are the original output, so nothing is lost or reordered |
| `Text.SplitJoin` | git-reader.py:128 | splitting a join of newline-free pieces gives back exactly those pieces |
| `Text.OutputLines` | git-reader.py:128 | one line per `'\n'`-separated piece, in order, each with its trailing whitespace removed |
| `Text.OutputLinesArePieces` | git-reader.py:128 | for output made of given pieces, line i is piece i right-stripped and holds no newline |
| `FileLineRegex.BacktrackAscending` | git-reader.py:24-25 | the end positions found by the backtracking match are in order and inside the line |
| `Numstat.Match` | git-reader.py:149-151 | on a match, both count groups are `-` or digit runs (possibly empty) and the filename group holds no newline |
| `FileLineRegex.RegexMatch` | git-reader.py:24-25 | on a match, both count groups are `-` or digit runs (possibly empty), the first group is a prefix of the line, and the filename group holds no newline |
| `Numstat.MatchIsRegex` | git-reader.py:24-25 | the search-free matcher gives exactly the groups of the backtracking regex semantics, on every line |
| `Numstat.CountValue` | git-reader.py:153-156 | a captured count has no value exactly when it is empty (the `IndexError`), and `-` reads as 0; no field raises `ValueError` |
| `Numstat.DecimalValue` | git-reader.py:153-154 | `int` of a digit run is 0 iff every digit is `0` |
| `Numstat.DecimalRoundTrip` | git-reader.py:153-154 | `int` of the decimal numeral of n is n |
| `Numstat.DecimalValueRoundTrip` | git-reader.py:153-154 | a numeral without leading zeros is `str` of its `int`, so `int` reads every such numeral as the number it denotes |
| `Numstat.CountOfDecimal` | git-reader.py:153-154 | a count git prints as a number is read back as that number |
| `Numstat.CountTextRoundTrip` | git-reader.py:153-154 | a count as git prints it (`-` for binary) reads back as the count, or 0 for `-` |
| `Numstat.ParseFileLine` | git-reader.py:149-157 | a line is skipped iff the pattern does not match it; it fails iff a count group is empty; an item carries the third group as its filename and the `CountValue` of the first and second groups as its added and removed counts |
| `Numstat.Collect` | git-reader.py:147-158 | a returned list has no more items than there are lines; a failure is the failure of some line |
| `Numstat.CommitFiles` | git-reader.py:147-158 | the loop returns `Collect` over the lines: the items in order, or the failure of the first failing line |
| `Numstat.FailureIsFinal` | git-reader.py:147-158 | once a line has failed, later lines do not change the outcome |
| `Numstat.CollectSucceeds` | git-reader.py:147-158 | the loop returns a list iff no line has an empty count group |
| `Numstat.CollectPerKeptLine` | git-reader.py:147-158 | a returned list has exactly one item per line that is not skipped, in input order, each the item that line parses to |
| `Numstat.CollectFirstFailure` | git-reader.py:152-156 | a failure is the failure of the first failing line, and no earlier line fails |
| `Numstat.KeptAreMatching` | git-reader.py:148-150 | the lines the loop does not skip are exactly the lines the pattern matches, in order |
| `Numstat.EmptyLineSkipped` | git-reader.py:150 | a blank line is skipped |
| `Numstat.HeaderIsNotFileLine` | git-reader.py:144-150 | a `%H %ad` header (40 hex digits, a space, a date not starting with a digit, dash or whitespace) does not match |
| `Numstat.LeadingSpaceNeverItem` | git-reader.py:153 | a line starting with whitespace never yields an item |
| `Numstat.EmptyRemovedExample` | git-reader.py:153-154 | `10\t\tfoo` matches with an empty removed group, and reading it fails |
| `Numstat.NumstatLineRoundTrip` | git-reader.py:149-157 | a numstat line as git writes it, for a newline-free path that does not start with whitespace, gives back its counts (binary as 0) and its path whole, inner spaces included |
| `Numstat.LeadingPathSpaceLost` | git-reader.py:149-157 | a path that starts with whitespace comes back without it: the filename group starts at the path's first other character |
| `CommitLog.Id` | git-reader.py:173 | the id is the prefix of the line of length min(40, line length) |
| `CommitLog.DateText` | git-reader.py:173 | the date text is empty on a line of at most 41 characters, and otherwise no longer than what follows column 41 |
| `CommitLog.HeaderOf` | git-reader.py:171-175 | a line yields nothing iff it is empty or its date text does not parse; otherwise it yields its id and parsed date |
| `CommitLog.Yielded` | git-reader.py:169-175 | the generator yields at most one commit per line |
| `CommitLog.CommitDates` | git-reader.py:169-175 | the stream has at most one commit per line |
| `CommitLog.YieldedAppend` | git-reader.py:169-175 | the generator works line by line: two pieces of input yield their outputs one after the other |
| `CommitLog.CommitDatesAppend` | git-reader.py:169-175 | the stream of a log made of two pieces is the streams of the pieces, in order |
| `CommitLog.SkippedLine` | git-reader.py:170-175 | an empty line or a bad date is dropped, and the lines before and after it yield what they would without it |
| `CommitLog.ParsedLine` | git-reader.py:173 | a line whose date parses yields its commit at its place in the stream |
| `CommitLog.CommitDatesFromLines` | git-reader.py:169-175 | every commit in the stream is what some line of the log yields |
| `CommitLog.HeaderSlicing` | git-reader.py:173 | a 40-character id, a separator and a trimmed date text give back that id and that date text |
| `Pipeline.Sink.constructor` | git-reader.py:62-86 | both tables start empty |
| `Pipeline.Sink.InsertFilesRows` | git-reader.py:97-101 | the rows are appended to `files`, and `commits` is unchanged |
| `Pipeline.Sink.InsertCommitsRows` | git-reader.py:89-94 | the rows are appended to `commits`, and `files` is unchanged |
| `Pipeline.SumAdded` | git-reader.py:209-210 | the added total is 0 iff every file adds 0 lines |
| `Pipeline.SumRemoved` | git-reader.py:209-211 | the removed total is 0 iff every file removes 0 lines |
| `Pipeline.Totals` | git-reader.py:206-211 | the loop's totals are the sums of added and of removed over the commit's files |
| `Pipeline.SumsAppend` | git-reader.py:209-211 | the totals of a concatenation are the sums of the totals of its parts |
| `Pipeline.SumsBound` | git-reader.py:209-211 | no file's count exceeds its commit's total |
| `Pipeline.CommitRowOf` | git-reader.py:212-213 | the commit row carries the commit's id and date, `len(files)`, and the sums of added and of removed lines over the files; no file's count exceeds the totals, and each total is 0 iff every file's count of that kind is 0 |
| `Pipeline.FileRowsOf` | git-reader.py:208 | one file row per item, each tagged with the commit id |
| `Pipeline.StatsOfFileRows` | git-reader.py:208 | a file row keeps all of its item's statistics |
| `Pipeline.CommitBlock` | git-reader.py:208-213 | one commit writes one row more than it has files; `BlockFiles` and `BlockCommits` state which rows |
| `Pipeline.ShowLines` | git-reader.py:128 | one line per `'\n'`-separated piece of the output, one more than its newlines, each piece right-stripped |
| `Pipeline.FilesFor` | git-reader.py:145-158 | reading a commit's files succeeds iff no line of its output has an empty count group |
| `Pipeline.Run` | git-reader.py:204-213 | a run that goes through writes at least one row per commit |
| `Pipeline.ExtractCommit` | git-reader.py:205-213 | for a readable commit the sink receives its file rows and then its commit row; otherwise it receives nothing and the failure is returned |
| `Pipeline.ExtractStream` | git-reader.py:204-213 | the loop writes exactly what `Run` prescribes and returns its failure |
| `Pipeline.Extract` | git-reader.py:200-213 | the extraction writes `Run` over the commit stream of the log's lines |
| `Pipeline.RunFailureIsFinal` | git-reader.py:204-205 | once a commit has failed, later commits change nothing |
| `Pipeline.RunSucceeds` | git-reader.py:204-205 | the run goes through iff the files of every commit can be read |
| `Pipeline.RunFirstFailure` | git-reader.py:204-205 | a run that stops, stops at the first unreadable commit, having written exactly the rows of the commits before it |
| `Pipeline.RunAppend` | git-reader.py:204-213 | commits are handled independently: after a prefix that goes through, the rest writes what it would write alone |
| `Pipeline.RunGrouped` | git-reader.py:208-213 | the rows come in whole commit blocks; each commit row follows its own file rows and carries their count and their sums |
| `Pipeline.RunCommitsInOrder` | git-reader.py:204-213 | a run that goes through writes one commit row per stream commit, in stream order, with that commit's id and date |
| `Pipeline.BlockCommits` | git-reader.py:212-213 | a commit's block holds exactly one commit row, its own |
| `Pipeline.BlockFiles` | git-reader.py:208 | a commit's block holds exactly its file rows, in order |
| `Pipeline.SkippedCommitWritesNothing` | git-reader.py:202-205 | a header with an empty or unparsable date makes the run write what it writes without that line: no commit row and no file rows for it |
| `Pipeline.HeaderSkipped` | git-reader.py:144-150 | the `%H %ad` header of `git show` (40 hex digits, a space, and a one-line date that does not start with a digit, a dash or whitespace and does not end in whitespace) is one line, unchanged by `rstrip`, and skipped by the loop |
| `Pipeline.ShowOfOneFile` | git-reader.py:144-158 | `git show` output for a one-file commit, starting with its `%H %ad` header, is read as that file, for a path that is non-empty, on one line, and has no whitespace at either end |
| `Pipeline.ShowOfTwoFiles` | git-reader.py:144-158 | `git show` output for a two-file commit, starting with its `%H %ad` header, is read as those files in order, binary counts as 0, for paths that are non-empty, on one line, and have no whitespace at either end |
| `Pipeline.RunOfTwoCommits` | git-reader.py:204-213 | A (f1.txt +10/-2) and B (f2.txt +5/-0, binary f3.bin -/-3) give file rows (A,f1.txt,10,2), (B,f2.txt,5,0), (B,f3.bin,0,3) and commit rows (A,1,10,2), (B,2,5,3) |
| `Pipeline.TwoCommitHistory` | git-reader.py:204-213 | the same rows, starting from the commits' captured `git show` outputs, each headed by the commit's id and date |

## Left out

- Process I/O, which is `os.path.isdir`, `FileNotFoundError`, `subprocess.run`, and printing stderr on a non-zero exit (git-reader.py:117-127). The captured outputs are the parameters `log` and `show`.
- `decodeLine`'s UTF-8 decoding with its latin-1 fallback (git-reader.py:32-36). This is codec behaviour. Output is modelled as already-decoded characters, and only the `rstrip()` is kept. Neither codec produces `'\n'` from anything but byte 0x0A, so splitting after decoding gives the same lines.
- `datetime.strptime(_, '%c %z')` (git-reader.py:173). It depends on the locale. It is the parameter `parseDate`.
- The sqlite database: `createTables`, the SQL of the inserts, primary-key enforcement, and the connection's commit or rollback in `main` (git-reader.py:62-101, 224-228). The tables are two append-only sequences. A duplicate `(cid, filename)` would make sqlite raise, but in the model it is simply appended. When the `IndexError` escapes, the `with` block rolls back the inserts and the program ends with a traceback. The model returns the failure and keeps the rows handed to the sink.
- The diagnostic messages printed at git-reader.py:156 and git-reader.py:175 are not modelled.
- asyncio (git-reader.py:200-213, 227-229). It only sequences the calls, and the calls are plain sequential calls in the model. `getCommitDates` is a lazy generator consumed while commits are processed. The model computes the whole stream first. Since `parseDate` is pure, this yields the same commits in the same order.
- argparse, `absolutePathFormatArgumentAction` and `main` (git-reader.py:39-45, 216-229) are command-line plumbing.
- `getRepoData` and `commit_expr` (git-reader.py:22-23, 178-192) are never used by the program.
- Numstat.CountValue: it does not model the interpreter's limit on integer string length (4300 digits by default since Python 3.11). Above that limit `int` raises `ValueError` and the handler at git-reader.py:155-156 runs. The model reads any run of digits as its value.
