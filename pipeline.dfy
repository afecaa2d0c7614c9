/**
 * The extraction loop of git-reader.py, `async_main` (git-reader.py:200-213): for every
 * commit `(cid, date)` of the stream `getCommitDates` yields, in order, the file
 * statistics of that commit are read, written as rows of table `files`, and then one row
 * of table `commits` is written with the number of files and the line totals.
 *
 * The two tables are the two sequences of a `Sink`; the order in which rows reach the two
 * tables is kept in its ghost `trace`. The git invocations are parameters: the captured
 * output `log` of `git log --no-merges --format=%H %ad`, and `show(cid)`, the captured
 * output of `git show <cid> --numstat --format=%H %ad`.
 */
module Pipeline {
  import opened Wrappers
  import opened Text
  import opened Numstat
  import opened CommitLog

  /** A row of table `files`: `(cid, filename, added, removed)` (git-reader.py:76-83). */
  datatype FileRow = FileRow(cid: string, filename: string, added: nat, removed: nat)

  /**
   * A row of table `commits`: `(cid, created_at, files_touched, lines_added,
   * lines_removed)` (git-reader.py:67-74).
   */
  datatype CommitRow<D> = CommitRow(cid: string, createdAt: D, filesTouched: nat, linesAdded: nat, linesRemoved: nat)

  /** A row written to either table. */
  datatype Row<D> = FileEntry(file: FileRow) | CommitEntry(commit: CommitRow<D>)

  /** The rows of table `files` among `rows`, in order. */
  function FilesIn<D>(rows: seq<Row<D>>): (r: seq<FileRow>)
    ensures |r| <= |rows|
    decreases |rows|
  {
    if rows == [] then []
    else
      var last := match rows[|rows| - 1] case FileEntry(f) => [f] case CommitEntry(_) => [];
      FilesIn(rows[..|rows| - 1]) + last
  }

  /** The rows of table `commits` among `rows`, in order. */
  function CommitsIn<D>(rows: seq<Row<D>>): (r: seq<CommitRow<D>>)
    ensures |r| <= |rows|
    decreases |rows|
  {
    if rows == [] then []
    else
      var last := match rows[|rows| - 1] case FileEntry(_) => [] case CommitEntry(c) => [c];
      CommitsIn(rows[..|rows| - 1]) + last
  }

  lemma {:induction false} FilesInAppend<D>(a: seq<Row<D>>, b: seq<Row<D>>)
    ensures FilesIn(a + b) == FilesIn(a) + FilesIn(b)
    decreases |b|
  {
    if b == [] {
      assert a + b == a;
    } else {
      assert (a + b)[..|a + b| - 1] == a + b[..|b| - 1];
      FilesInAppend(a, b[..|b| - 1]);
    }
  }

  lemma {:induction false} CommitsInAppend<D>(a: seq<Row<D>>, b: seq<Row<D>>)
    ensures CommitsIn(a + b) == CommitsIn(a) + CommitsIn(b)
    decreases |b|
  {
    if b == [] {
      assert a + b == a;
    } else {
      assert (a + b)[..|a + b| - 1] == a + b[..|b| - 1];
      CommitsInAppend(a, b[..|b| - 1]);
    }
  }

  /** `rows` as rows written to table `files`. */
  function FileEntries<D>(rows: seq<FileRow>): (r: seq<Row<D>>)
    ensures |r| == |rows| && forall i :: 0 <= i < |r| ==> r[i].FileEntry? && r[i].file == rows[i]
  {
    seq(|rows|, i requires 0 <= i < |rows| => FileEntry(rows[i]))
  }

  /** Sorting the entries of `FileEntries` back out gives the file rows, and no commit row. */
  lemma {:induction false} FileEntriesSorted<D>(rows: seq<FileRow>)
    ensures FilesIn(FileEntries<D>(rows)) == rows
    ensures CommitsIn(FileEntries<D>(rows)) == []
    decreases |rows|
  {
    if rows != [] {
      var init := rows[..|rows| - 1];
      assert FileEntries<D>(rows)[..|rows| - 1] == FileEntries<D>(init);
      FileEntriesSorted<D>(init);
      assert init + [rows[|rows| - 1]] == rows;
    }
  }

  /** The two tables of the database file, filled by `executemany` inserts. */
  class Sink<D> {
    var files: seq<FileRow>
    var commits: seq<CommitRow<D>>
    /** Every row inserted into either table, in the order of the inserts. */
    ghost var trace: seq<Row<D>>

    ghost predicate Valid()
      reads this
    {
      files == FilesIn(trace) && commits == CommitsIn(trace)
    }

    /** The tables as `createTables` leaves them: empty (git-reader.py:62-86). */
    constructor()
      ensures Valid() && trace == []
      ensures files == [] && commits == []
    {
      files := [];
      commits := [];
      trace := [];
    }

    /** `insertFilesRows` (git-reader.py:97-101): the rows are appended to table `files`. */
    method InsertFilesRows(rows: seq<FileRow>)
      requires Valid()
      modifies this
      ensures Valid()
      ensures files == old(files) + rows && commits == old(commits)
      ensures trace == old(trace) + FileEntries(rows)
    {
      FilesInAppend(trace, FileEntries<D>(rows));
      CommitsInAppend(trace, FileEntries<D>(rows));
      FileEntriesSorted<D>(rows);
      files := files + rows;
      trace := trace + FileEntries(rows);
    }

    /** `insertCommitsRows` (git-reader.py:89-94): the rows are appended to table `commits`. */
    method InsertCommitsRows(rows: seq<CommitRow<D>>)
      requires Valid()
      modifies this
      ensures Valid()
      ensures commits == old(commits) + rows && files == old(files)
      ensures trace == old(trace) + CommitEntries(rows)
    {
      FilesInAppend(trace, CommitEntries(rows));
      CommitsInAppend(trace, CommitEntries(rows));
      CommitEntriesSorted(rows);
      commits := commits + rows;
      trace := trace + CommitEntries(rows);
    }
  }

  /** `rows` as rows written to table `commits`. */
  function CommitEntries<D>(rows: seq<CommitRow<D>>): (r: seq<Row<D>>)
    ensures |r| == |rows| && forall i :: 0 <= i < |r| ==> r[i].CommitEntry? && r[i].commit == rows[i]
  {
    seq(|rows|, i requires 0 <= i < |rows| => CommitEntry(rows[i]))
  }

  lemma {:induction false} CommitEntriesSorted<D>(rows: seq<CommitRow<D>>)
    ensures CommitsIn(CommitEntries(rows)) == rows
    ensures FilesIn(CommitEntries(rows)) == []
    decreases |rows|
  {
    if rows != [] {
      var init := rows[..|rows| - 1];
      assert CommitEntries(rows)[..|rows| - 1] == CommitEntries(init);
      CommitEntriesSorted(init);
      assert init + [rows[|rows| - 1]] == rows;
    }
  }

  // The totals of one commit (git-reader.py:206-212).

  /** Σ added over the items. */
  function SumAdded(items: seq<FileStat>): (n: nat)
    ensures n == 0 <==> forall i :: 0 <= i < |items| ==> items[i].added == 0
    decreases |items|
  {
    if items == [] then 0 else SumAdded(items[..|items| - 1]) + items[|items| - 1].added
  }

  /** Σ removed over the items. */
  function SumRemoved(items: seq<FileStat>): (n: nat)
    ensures n == 0 <==> forall i :: 0 <= i < |items| ==> items[i].removed == 0
    decreases |items|
  {
    if items == [] then 0 else SumRemoved(items[..|items| - 1]) + items[|items| - 1].removed
  }

  /** The loop over `files` that accumulates `total_added` and `total_removed` (git-reader.py:206-211). */
  method Totals(items: seq<FileStat>) returns (added: nat, removed: nat)
    ensures added == SumAdded(items) && removed == SumRemoved(items)
  {
    added, removed := 0, 0;
    for i := 0 to |items|
      invariant added == SumAdded(items[..i]) && removed == SumRemoved(items[..i])
    {
      assert items[..i + 1][..i] == items[..i];
      added := added + items[i].added;
      removed := removed + items[i].removed;
    }
    assert items[..|items|] == items;
  }

  /** The totals of a list of files made of two pieces are the sums of the totals of the pieces. */
  lemma {:induction false} SumsAppend(a: seq<FileStat>, b: seq<FileStat>)
    ensures SumAdded(a + b) == SumAdded(a) + SumAdded(b)
    ensures SumRemoved(a + b) == SumRemoved(a) + SumRemoved(b)
    decreases |b|
  {
    if b == [] {
      assert a + b == a;
    } else {
      assert (a + b)[..|a + b| - 1] == a + b[..|b| - 1];
      SumsAppend(a, b[..|b| - 1]);
    }
  }

  /** No file adds or removes more lines than its commit's totals say. */
  lemma {:induction false} SumsBound(items: seq<FileStat>, k: nat)
    requires k < |items|
    ensures items[k].added <= SumAdded(items) && items[k].removed <= SumRemoved(items)
    decreases |items|
  {
    if k < |items| - 1 {
      SumsBound(items[..|items| - 1], k);
    }
  }

  // One commit, and the whole stream.

  /** The file rows of commit `cid`: `((cid, *data) for data in files)` (git-reader.py:208). */
  function FileRowsOf(cid: string, items: seq<FileStat>): (rows: seq<FileRow>)
    ensures |rows| == |items|
    ensures forall i :: 0 <= i < |rows| ==> rows[i].cid == cid
  {
    seq(|items|, i requires 0 <= i < |items| => FileRow(cid, items[i].fname, items[i].added, items[i].removed))
  }

  /** The statistics a file row records. */
  function StatsOf(rows: seq<FileRow>): (items: seq<FileStat>)
    ensures |items| == |rows|
  {
    seq(|rows|, i requires 0 <= i < |rows| => FileStat(rows[i].filename, rows[i].added, rows[i].removed))
  }

  /** A file row keeps all of the statistics of its file: nothing is lost in writing them. */
  lemma StatsOfFileRows(cid: string, items: seq<FileStat>)
    ensures StatsOf(FileRowsOf(cid, items)) == items
  {
  }

  /** The commit row of commit `c` with files `items` (git-reader.py:212-213). */
  function CommitRowOf<D>(c: CommitDate<D>, items: seq<FileStat>): (row: CommitRow<D>)
    ensures row.cid == c.cid && row.createdAt == c.date && row.filesTouched == |items|
    ensures forall k :: 0 <= k < |items| ==> items[k].added <= row.linesAdded && items[k].removed <= row.linesRemoved
    ensures row.linesAdded == SumAdded(items) && row.linesRemoved == SumRemoved(items)
    ensures row.linesAdded == 0 <==> forall k :: 0 <= k < |items| ==> items[k].added == 0
    ensures row.linesRemoved == 0 <==> forall k :: 0 <= k < |items| ==> items[k].removed == 0
  {
    SumsBoundAll(items);
    CommitRow(c.cid, c.date, |items|, SumAdded(items), SumRemoved(items))
  }

  /** `SumsBound` for every file at once. */
  lemma SumsBoundAll(items: seq<FileStat>)
    ensures forall k :: 0 <= k < |items| ==> items[k].added <= SumAdded(items) && items[k].removed <= SumRemoved(items)
  {
    forall k | 0 <= k < |items|
      ensures items[k].added <= SumAdded(items) && items[k].removed <= SumRemoved(items)
    {
      SumsBound(items, k);
    }
  }

  /** What one commit writes: its file rows, then its commit row. */
  function CommitBlock<D>(c: CommitDate<D>, items: seq<FileStat>): (rows: seq<Row<D>>)
    ensures |rows| == |items| + 1
  {
    FileEntries(FileRowsOf(c.cid, items)) + [CommitEntry(CommitRowOf(c, items))]
  }

  /** The rows written so far and, if the run stopped, why. */
  datatype RunOutcome<D> = RunOutcome(rows: seq<Row<D>>, failure: Option<Failure>)

  /**
   * The loop of `async_main` over the stream, with the files of a commit given by
   * `filesOf` (for the program, `FilesOf(show)`): the rows of every commit in turn, up to
   * the first commit whose files cannot be read; that failure ends the run.
   */
  function Run<D>(filesOf: string -> Result<seq<FileStat>, Failure>, stream: seq<CommitDate<D>>): (o: RunOutcome<D>)
    ensures o.failure.None? ==> |o.rows| >= |stream|
    decreases |stream|
  {
    if stream == [] then RunOutcome([], None)
    else
      var prev := Run(filesOf, stream[..|stream| - 1]);
      var c := stream[|stream| - 1];
      if prev.failure.Some? then prev
      else
        match filesOf(c.cid)
        case Err(e) => RunOutcome(prev.rows, Some(e))
        case Ok(items) => RunOutcome(prev.rows + CommitBlock(c, items), None)
  }

  /** The lines `queryGit` returns for `git show <cid> --numstat` (git-reader.py:144-145). */
  function ShowLines(show: string -> string, cid: string): (lines: seq<string>)
    ensures |lines| == |Split(show(cid))| == multiset(show(cid))['\n'] + 1
    ensures forall i :: 0 <= i < |lines| ==> lines[i] == RStrip(Split(show(cid))[i])
  {
    SplitCount(show(cid));
    OutputLines(show(cid))
  }

  /** `getCommitFiles(repodir, cid)` on the captured output `show(cid)`. */
  function FilesFor(show: string -> string, cid: string): (r: Result<seq<FileStat>, Failure>)
    ensures r.Ok? <==> forall i :: 0 <= i < |ShowLines(show, cid)| ==> !ParseFileLine(ShowLines(show, cid)[i]).Fail?
  {
    CollectSucceeds(ParseFileLine, ShowLines(show, cid));
    Collect(ParseFileLine, ShowLines(show, cid))
  }

  /** `getCommitFiles` as a function of the commit id. */
  function FilesOf(show: string -> string): string -> Result<seq<FileStat>, Failure>
  {
    cid => FilesFor(show, cid)
  }

  /** `async_main` (git-reader.py:200-213), on the captured git outputs. */
  method Extract<D>(log: string, show: string -> string, parseDate: string -> Option<D>, sink: Sink<D>)
    returns (failure: Option<Failure>)
    requires sink.Valid()
    modifies sink
    ensures sink.Valid()
    ensures var o := Run(FilesOf(show), CommitDates(OutputLines(log), parseDate));
            sink.trace == old(sink.trace) + o.rows && failure == o.failure
  {
    var stream := CommitDates(OutputLines(log), parseDate);
    failure := ExtractStream(stream, show, sink);
  }

  /** The loop of `async_main` over the commit stream (git-reader.py:204-213). */
  method ExtractStream<D>(stream: seq<CommitDate<D>>, show: string -> string, sink: Sink<D>)
    returns (failure: Option<Failure>)
    requires sink.Valid()
    modifies sink
    ensures sink.Valid()
    ensures sink.trace == old(sink.trace) + Run(FilesOf(show), stream).rows
    ensures failure == Run(FilesOf(show), stream).failure
  {
    assert stream[..0] == [];
    for i := 0 to |stream|
      invariant sink.Valid()
      invariant Run(FilesOf(show), stream[..i]).failure.None?
      invariant sink.trace == old(sink.trace) + Run(FilesOf(show), stream[..i]).rows
    {
      ghost var written := Run(FilesOf(show), stream[..i]).rows;
      var stop := ExtractCommit(stream[i], show, sink);
      if stop.Some? {
        RunStopsAt(FilesOf(show), stream, i);
        return stop;
      }
      ghost var block := CommitBlock(stream[i], FilesFor(show, stream[i].cid).value);
      assert sink.trace == old(sink.trace) + written + block;
      Associative(old(sink.trace), written, block);
      RunStep(FilesOf(show), stream, i);
    }
    assert stream[..|stream|] == stream;
    return None;
  }

  /**
   * The body of the loop of `async_main` for commit `c` (git-reader.py:205-213): if its
   * files can be read, its file rows and then its commit row are written; otherwise
   * nothing is written and the failure is returned.
   */
  method ExtractCommit<D>(c: CommitDate<D>, show: string -> string, sink: Sink<D>) returns (failure: Option<Failure>)
    requires sink.Valid()
    modifies sink
    ensures sink.Valid()
    ensures match FilesFor(show, c.cid)
            case Err(e) => failure == Some(e) && sink.trace == old(sink.trace)
            case Ok(items) => failure.None? && sink.trace == old(sink.trace) + CommitBlock(c, items)
  {
    var files := CommitFiles(ShowLines(show, c.cid));
    if files.Err? {
      return Some(files.error);
    }
    var items := files.value;
    sink.InsertFilesRows(FileRowsOf(c.cid, items));
    var added, removed := Totals(items);
    assert CommitRow(c.cid, c.date, |items|, added, removed) == CommitRowOf(c, items);
    sink.InsertCommitsRows([CommitRow(c.cid, c.date, |items|, added, removed)]);
    BlockWritten(old(sink.trace), c, items);
    return None;
  }

  /**
   * Regrouping a concatenation. A lemma rather than an inline assert: the same fact
   * asserted inside `ExtractStream`'s loop makes that proof run out of resource.
   */
  lemma Associative<T>(a: seq<T>, b: seq<T>, c: seq<T>)
    ensures a + b + c == a + (b + c)
  {
  }

  /** The run on one more commit, when the files of that commit can be read. */
  lemma RunStep<D>(filesOf: string -> Result<seq<FileStat>, Failure>, stream: seq<CommitDate<D>>, i: nat)
    requires i < |stream| && Run(filesOf, stream[..i]).failure.None? && filesOf(stream[i].cid).Ok?
    ensures Run(filesOf, stream[..i + 1])
              == RunOutcome(Run(filesOf, stream[..i]).rows + CommitBlock(stream[i], filesOf(stream[i].cid).value), None)
  {
    assert stream[..i + 1][..i] == stream[..i];
  }

  /** The run on a stream whose commit `i` is the first whose files cannot be read. */
  lemma RunStopsAt<D>(filesOf: string -> Result<seq<FileStat>, Failure>, stream: seq<CommitDate<D>>, i: nat)
    requires i < |stream| && Run(filesOf, stream[..i]).failure.None? && filesOf(stream[i].cid).Err?
    ensures Run(filesOf, stream) == RunOutcome(Run(filesOf, stream[..i]).rows, Some(filesOf(stream[i].cid).error))
  {
    assert stream[..i + 1][..i] == stream[..i];
    RunFailureIsFinal(filesOf, stream, i + 1);
  }

  /** The two inserts of one commit write its block. */
  lemma BlockWritten<D>(trace: seq<Row<D>>, c: CommitDate<D>, items: seq<FileStat>)
    ensures trace + FileEntries(FileRowsOf(c.cid, items)) + CommitEntries([CommitRowOf(c, items)])
            == trace + CommitBlock(c, items)
  {
    assert CommitEntries([CommitRowOf(c, items)]) == [CommitEntry(CommitRowOf(c, items))];
  }

  /** Once the run has stopped on a commit, no later commit changes the outcome. */
  lemma {:induction false} RunFailureIsFinal<D>(filesOf: string -> Result<seq<FileStat>, Failure>, stream: seq<CommitDate<D>>, n: nat)
    requires n <= |stream| && Run(filesOf, stream[..n]).failure.Some?
    ensures Run(filesOf, stream) == Run(filesOf, stream[..n])
    decreases |stream| - n
  {
    if n < |stream| {
      assert stream[..n + 1][..n] == stream[..n];
      RunFailureIsFinal(filesOf, stream, n + 1);
    } else {
      assert stream[..n] == stream;
    }
  }

  /** The run goes through the whole stream exactly when the files of every commit can be read. */
  lemma {:induction false} RunSucceeds<D>(filesOf: string -> Result<seq<FileStat>, Failure>, stream: seq<CommitDate<D>>)
    ensures Run(filesOf, stream).failure.None? <==> forall k :: 0 <= k < |stream| ==> filesOf(stream[k].cid).Ok?
    decreases |stream|
  {
    if stream != [] {
      var init := stream[..|stream| - 1];
      RunSucceeds(filesOf, init);
      assert forall k :: 0 <= k < |init| ==> init[k] == stream[k];
    }
  }

  /**
   * A run that stops, stops at the first commit whose files cannot be read, with that
   * commit's failure, and has then written exactly the rows of the commits before it.
   */
  lemma {:induction false} RunFirstFailure<D>(filesOf: string -> Result<seq<FileStat>, Failure>, stream: seq<CommitDate<D>>)
    ensures Run(filesOf, stream).failure.Some? ==>
              exists k :: && 0 <= k < |stream| && filesOf(stream[k].cid).Err?
                          && (forall j :: 0 <= j < k ==> filesOf(stream[j].cid).Ok?)
                          && Run(filesOf, stream) == RunOutcome(Run(filesOf, stream[..k]).rows, Some(filesOf(stream[k].cid).error))
    decreases |stream|
  {
    if stream != [] {
      var init := stream[..|stream| - 1];
      RunFirstFailure(filesOf, init);
      RunSucceeds(filesOf, init);
      if Run(filesOf, init).failure.Some? {
        var k :| && 0 <= k < |init| && filesOf(init[k].cid).Err?
                 && (forall j :: 0 <= j < k ==> filesOf(init[j].cid).Ok?)
                 && Run(filesOf, init) == RunOutcome(Run(filesOf, init[..k]).rows, Some(filesOf(init[k].cid).error));
        assert init[..k] == stream[..k];
        assert forall j :: 0 <= j <= k ==> init[j] == stream[j];
      } else {
        assert forall j :: 0 <= j < |init| ==> init[j] == stream[j];
      }
    }
  }

  /**
   * Commits are handled one after the other and independently: after a stream prefix that
   * runs through, the rest of the stream writes what it would write on its own.
   */
  lemma {:induction false} RunAppend<D>(filesOf: string -> Result<seq<FileStat>, Failure>, a: seq<CommitDate<D>>, b: seq<CommitDate<D>>)
    requires Run(filesOf, a).failure.None?
    ensures Run(filesOf, a + b) == RunOutcome(Run(filesOf, a).rows + Run(filesOf, b).rows, Run(filesOf, b).failure)
    decreases |b|
  {
    if b == [] {
      assert a + b == a;
    } else {
      var init := b[..|b| - 1];
      var c := b[|b| - 1];
      assert (a + b)[..|a + b| - 1] == a + init;
      assert (a + b)[|a + b| - 1] == c;
      RunAppend(filesOf, a, init);
      var prev := Run(filesOf, init);
      if prev.failure.None? && filesOf(c.cid).Ok? {
        Associative(Run(filesOf, a).rows, prev.rows, CommitBlock(c, filesOf(c.cid).value));
      }
    }
  }

  /**
   * The rows as the two tables receive them: a sequence of commit blocks, each made of the
   * file rows of one commit followed by its commit row, whose file count and totals are
   * those of the file rows just before it.
   */
  ghost predicate Grouped<D>(rows: seq<Row<D>>)
    decreases |rows|
  {
    if rows == [] then true
    else
      var last := rows[|rows| - 1];
      && last.CommitEntry?
      && last.commit.filesTouched < |rows|
      && var start := |rows| - 1 - last.commit.filesTouched;
         var block := rows[start..|rows| - 1];
         && (forall k :: 0 <= k < |block| ==> block[k].FileEntry? && block[k].file.cid == last.commit.cid)
         && last.commit.linesAdded == SumAdded(StatsOf(FilesIn(block)))
         && last.commit.linesRemoved == SumRemoved(StatsOf(FilesIn(block)))
         && Grouped(rows[..start])
  }

  /** One commit's rows after grouped rows leave them grouped. */
  lemma BlockKeepsGrouped<D>(rows: seq<Row<D>>, c: CommitDate<D>, items: seq<FileStat>)
    requires Grouped(rows)
    ensures Grouped(rows + CommitBlock(c, items))
  {
    var fileRows := FileRowsOf(c.cid, items);
    var block := FileEntries<D>(fileRows);
    var row := CommitRowOf(c, items);
    assert CommitBlock(c, items) == block + [CommitEntry(row)];
    assert rows + CommitBlock(c, items) == rows + block + [CommitEntry(row)];
    assert row.linesAdded == SumAdded(StatsOf(FilesIn(block)))
        && row.linesRemoved == SumRemoved(StatsOf(FilesIn(block))) by {
      FileEntriesSorted<D>(fileRows);
      StatsOfFileRows(c.cid, items);
    }
    forall k | 0 <= k < |block| ensures block[k].FileEntry? && block[k].file.cid == row.cid {
      assert block[k].file == fileRows[k];
    }
    GroupedSnoc(rows, block, row);
  }

  /** A block of file rows of one commit, then that commit's row with their count and sums, keeps rows grouped. */
  lemma GroupedSnoc<D>(rows: seq<Row<D>>, block: seq<Row<D>>, row: CommitRow<D>)
    requires Grouped(rows)
    requires row.filesTouched == |block|
    requires forall k :: 0 <= k < |block| ==> block[k].FileEntry? && block[k].file.cid == row.cid
    requires row.linesAdded == SumAdded(StatsOf(FilesIn(block)))
    requires row.linesRemoved == SumRemoved(StatsOf(FilesIn(block)))
    ensures Grouped(rows + block + [CommitEntry(row)])
  {
    var all := rows + block + [CommitEntry(row)];
    assert all[..|rows|] == rows;
    assert all[|rows|..|all| - 1] == block;
  }


  /**
   * File rows precede their commit row: whatever the run has written when it stops or
   * ends is a sequence of whole commit blocks whose totals agree with their file rows.
   */
  lemma {:induction false} RunGrouped<D>(filesOf: string -> Result<seq<FileStat>, Failure>, stream: seq<CommitDate<D>>)
    ensures Grouped(Run(filesOf, stream).rows)
    decreases |stream|
  {
    if stream != [] {
      var init := stream[..|stream| - 1];
      var c := stream[|stream| - 1];
      RunGrouped(filesOf, init);
      if Run(filesOf, init).failure.None? && filesOf(c.cid).Ok? {
        BlockKeepsGrouped(Run(filesOf, init).rows, c, filesOf(c.cid).value);
      }
    }
  }

  /**
   * Commits are written in stream order: a run that goes through writes one commit row per
   * commit of the stream, with that commit's id and date.
   */
  lemma {:induction false} RunCommitsInOrder<D>(filesOf: string -> Result<seq<FileStat>, Failure>, stream: seq<CommitDate<D>>)
    requires Run(filesOf, stream).failure.None?
    ensures var cs := CommitsIn(Run(filesOf, stream).rows);
            && |cs| == |stream|
            && forall k :: 0 <= k < |cs| ==> cs[k].cid == stream[k].cid && cs[k].createdAt == stream[k].date
    decreases |stream|
  {
    if stream != [] {
      var init := stream[..|stream| - 1];
      RunCommitsStep(filesOf, stream);
      RunCommitsInOrder(filesOf, init);
      var cs := CommitsIn(Run(filesOf, stream).rows);
      var prev := CommitsIn(Run(filesOf, init).rows);
      forall k | 0 <= k < |cs|
        ensures cs[k].cid == stream[k].cid && cs[k].createdAt == stream[k].date
      {
        if k < |init| {
          assert cs[k] == prev[k];
          assert init[k] == stream[k];
        }
      }
    }
  }

  /** One more commit that goes through adds one commit row, with that commit's id and date. */
  lemma RunCommitsStep<D>(filesOf: string -> Result<seq<FileStat>, Failure>, stream: seq<CommitDate<D>>)
    requires stream != [] && Run(filesOf, stream).failure.None?
    ensures var cs := CommitsIn(Run(filesOf, stream).rows);
            var c := stream[|stream| - 1];
            && Run(filesOf, stream[..|stream| - 1]).failure.None?
            && |cs| == |CommitsIn(Run(filesOf, stream[..|stream| - 1]).rows)| + 1
            && cs[..|cs| - 1] == CommitsIn(Run(filesOf, stream[..|stream| - 1]).rows)
            && cs[|cs| - 1].cid == c.cid && cs[|cs| - 1].createdAt == c.date
  {
    var init := stream[..|stream| - 1];
    var c := stream[|stream| - 1];
    var items := filesOf(c.cid).value;
    var prev := Run(filesOf, init).rows;
    CommitsInAppend(prev, CommitBlock(c, items));
    BlockCommits(c, items);
    assert Run(filesOf, stream).rows == prev + CommitBlock(c, items);
    var cs := CommitsIn(Run(filesOf, stream).rows);
    assert cs == CommitsIn(prev) + [CommitRowOf(c, items)];
  }


  /** A commit's block holds exactly one commit row, its own. */
  lemma BlockCommits<D>(c: CommitDate<D>, items: seq<FileStat>)
    ensures CommitsIn(CommitBlock(c, items)) == [CommitRowOf(c, items)]
  {
    var fileRows := FileEntries<D>(FileRowsOf(c.cid, items));
    CommitsInAppend(fileRows, [CommitEntry(CommitRowOf(c, items))]);
    FileEntriesSorted<D>(FileRowsOf(c.cid, items));
    assert CommitsIn([CommitEntry(CommitRowOf(c, items))]) == [CommitRowOf(c, items)];
  }

  /** A header line that yields no commit makes the whole extraction write nothing for it. */
  lemma SkippedCommitWritesNothing<D>(filesOf: string -> Result<seq<FileStat>, Failure>,
                                      a: seq<string>, line: string, b: seq<string>, parseDate: string -> Option<D>)
    requires line == [] || parseDate(DateText(line)).None?
    ensures Run(filesOf, CommitDates(a + [line] + b, parseDate)) == Run(filesOf, CommitDates(a + b, parseDate))
  {
    SkippedLine(a, line, b, parseDate);
    CommitDatesAppend(a, b, parseDate);
  }

  // A worked history: commit A touches f1.txt (+10/-2); commit B touches f2.txt (+5/-0)
  // and the binary file f3.bin (-/-3).

  /**
   * The `%H %ad` header git prints at the top of `git show`: the commit id as 40 lower-case
   * hex digits, a space, and a one-line date that starts with a weekday name (no digit, dash
   * or whitespace first) and does not end in whitespace.
   */
  predicate HeaderFields(id: string, date: string)
  {
    && |id| == 40 && (forall i :: 0 <= i < |id| ==> IsHexDigit(id[i]))
    && date != [] && !IsDigit(date[0]) && !IsSpace(date[0]) && date[0] != '-'
    && '\n' !in date && !IsSpace(date[|date| - 1])
  }

  /** Such a header is one line, `rstrip` leaves it alone, and `getCommitFiles` skips it. */
  lemma HeaderSkipped(id: string, date: string)
    requires HeaderFields(id, date)
    ensures '\n' !in id + " " + date
    ensures RStrip(id + " " + date) == id + " " + date
    ensures Match(RStrip(id + " " + date)).None?
  {
    var header := id + " " + date;
    forall i | 0 <= i < |header| ensures header[i] != '\n' {
      if i < 40 {
        assert header[i] == id[i];
      } else if i > 40 {
        assert header[i] == date[i - 41];
      }
    }
    assert header[|header| - 1] == date[|date| - 1];
    HeaderIsNotFileLine(id, date);
  }

  /**
   * A `git show --numstat` output of a commit that touches two files (its header, a blank
   * line, one numstat line per file, and the empty piece after the last newline) is read
   * as those two files, in order, with a binary file's counts read as 0.
   */
  lemma ShowOfTwoFiles(show: string -> string, cid: string, date: string,
                       a1: Option<nat>, r1: Option<nat>, p1: string, a2: Option<nat>, r2: Option<nat>, p2: string)
    requires HeaderFields(cid, date)
    requires PlainPath(p1) && PlainPath(p2)
    requires show(cid) == Join([cid + " " + date, "", NumstatLine(a1, r1, p1), NumstatLine(a2, r2, p2), ""])
    ensures FilesFor(show, cid) == Ok([FileStat(p1, CountOf(a1), CountOf(r1)), FileStat(p2, CountOf(a2), CountOf(r2))])
  {
    var header := cid + " " + date;
    HeaderSkipped(cid, date);
    var l1 := NumstatLine(a1, r1, p1);
    var l2 := NumstatLine(a2, r2, p2);
    NumstatLineShape(a1, r1, p1);
    NumstatLineShape(a2, r2, p2);
    ShowLinesOfTwo(show, cid, header, l1, l2);
    NumstatLineRoundTrip(a1, r1, p1);
    NumstatLineRoundTrip(a2, r2, p2);
    EmptyLineSkipped();
    CollectOfTwo(ParseFileLine, RStrip(header), l1, l2, FileStat(p1, CountOf(a1), CountOf(r1)), FileStat(p2, CountOf(a2), CountOf(r2)));
  }

  /** The same for a commit that touches one file. */
  lemma ShowOfOneFile(show: string -> string, cid: string, date: string, a: Option<nat>, r: Option<nat>, p: string)
    requires HeaderFields(cid, date)
    requires PlainPath(p)
    requires show(cid) == Join([cid + " " + date, "", NumstatLine(a, r, p), ""])
    ensures FilesFor(show, cid) == Ok([FileStat(p, CountOf(a), CountOf(r))])
  {
    var header := cid + " " + date;
    HeaderSkipped(cid, date);
    var l := NumstatLine(a, r, p);
    NumstatLineShape(a, r, p);
    ShowLinesOfOne(show, cid, header, l);
    NumstatLineRoundTrip(a, r, p);
    EmptyLineSkipped();
    CollectOfOne(ParseFileLine, RStrip(header), l, FileStat(p, CountOf(a), CountOf(r)));
  }

  /** The lines `queryGit` makes of a header, a blank line, one numstat line and the empty last piece. */
  lemma ShowLinesOfOne(show: string -> string, cid: string, header: string, l: string)
    requires '\n' !in header && '\n' !in l && RStrip(l) == l
    requires show(cid) == Join([header, "", l, ""])
    ensures ShowLines(show, cid) == [RStrip(header), "", l, ""]
  {
    OutputLinesArePieces([header, "", l, ""]);
    var lines := ShowLines(show, cid);
    assert |lines| == 4;
    assert lines[0] == RStrip(header);
    assert lines[1] == RStrip("") == "";
    assert lines[2] == RStrip(l) == l;
    assert lines[3] == RStrip("") == "";
  }

  /** The loop of `getCommitFiles` on a header, a blank line, one file line and a blank line. */
  lemma CollectOfOne(parse: string -> LineOutcome, header: string, l: string, stat: FileStat)
    requires parse(header) == Skip && parse("") == Skip && parse(l) == Item(stat)
    ensures Collect(parse, [header, "", l, ""]) == Ok([stat])
  {
    assert [] + [header] == [header];
    assert [header] + [""] == [header, ""];
    assert [header, ""] + [l] == [header, "", l];
    assert [header, "", l] + [""] == [header, "", l, ""];
    CollectSnoc(parse, [], header);
    CollectSnoc(parse, [header], "");
    CollectSnoc(parse, [header, ""], l);
    CollectSnoc(parse, [header, "", l], "");
    assert Collect(parse, [header]) == Ok([]);
    assert Collect(parse, [header, ""]) == Ok([]);
    assert [] + [stat] == [stat];
  }

  /** A path as the model's numstat lines carry it: non-empty, on one line, with no whitespace at its ends. */
  predicate PlainPath(p: string)
  {
    p != [] && '\n' !in p && !IsSpace(p[0]) && !IsSpace(p[|p| - 1])
  }

  /** A numstat line with a plain path is one line, and `rstrip` leaves it alone. */
  lemma NumstatLineShape(added: Option<nat>, removed: Option<nat>, path: string)
    requires PlainPath(path)
    ensures '\n' !in NumstatLine(added, removed, path)
    ensures RStrip(NumstatLine(added, removed, path)) == NumstatLine(added, removed, path)
  {
    var a := CountText(added);
    var r := CountText(removed);
    var s := NumstatLine(added, removed, path);
    assert s == a + "\t" + r + "\t" + path;
    assert s[|s| - 1] == path[|path| - 1];
    forall i | 0 <= i < |s| ensures s[i] != '\n' {
      if i < |a| {
        assert s[i] == a[i];
      } else if i == |a| {
      } else if i < |a| + 1 + |r| {
        assert s[i] == r[i - |a| - 1];
      } else if i == |a| + 1 + |r| {
      } else {
        assert s[i] == path[i - |a| - |r| - 2];
      }
    }
  }

  /** The lines `queryGit` makes of a header, a blank line, two numstat lines and the empty last piece. */
  lemma ShowLinesOfTwo(show: string -> string, cid: string, header: string, l1: string, l2: string)
    requires '\n' !in header && '\n' !in l1 && '\n' !in l2 && RStrip(l1) == l1 && RStrip(l2) == l2
    requires show(cid) == Join([header, "", l1, l2, ""])
    ensures ShowLines(show, cid) == [RStrip(header), "", l1, l2, ""]
  {
    var parts := [header, "", l1, l2, ""];
    OutputLinesArePieces(parts);
    var lines := ShowLines(show, cid);
    assert |lines| == 5;
    assert lines[0] == RStrip(header);
    assert lines[1] == RStrip("") == "";
    assert lines[2] == RStrip(l1) == l1;
    assert lines[3] == RStrip(l2) == l2;
    assert lines[4] == RStrip("") == "";
  }

  /** The loop of `getCommitFiles` on a header, a blank line, two file lines and a blank line. */
  lemma CollectOfTwo(parse: string -> LineOutcome, header: string, l1: string, l2: string, s1: FileStat, s2: FileStat)
    requires parse(header) == Skip && parse("") == Skip
    requires parse(l1) == Item(s1) && parse(l2) == Item(s2)
    ensures Collect(parse, [header, "", l1, l2, ""]) == Ok([s1, s2])
  {
    assert [] + [header] == [header];
    assert [header] + [""] == [header, ""];
    assert [header, ""] + [l1] == [header, "", l1];
    assert [header, "", l1] + [l2] == [header, "", l1, l2];
    assert [header, "", l1, l2] + [""] == [header, "", l1, l2, ""];
    CollectSnoc(parse, [], header);
    CollectSnoc(parse, [header], "");
    CollectSnoc(parse, [header, ""], l1);
    CollectSnoc(parse, [header, "", l1], l2);
    CollectSnoc(parse, [header, "", l1, l2], "");
    assert Collect(parse, [header]) == Ok([]);
    assert Collect(parse, [header, ""]) == Ok([]);
    assert [] + [s1] == [s1];
    assert Collect(parse, [header, "", l1]) == Ok([s1]);
    assert [s1] + [s2] == [s1, s2];
    assert Collect(parse, [header, "", l1, l2]) == Ok([s1, s2]);
  }

  /** The loop of `getCommitFiles` on one more line. */
  lemma CollectSnoc(parse: string -> LineOutcome, lines: seq<string>, line: string)
    ensures Collect(parse, lines + [line])
            == match Collect(parse, lines)
               case Err(e) => Err(e)
               case Ok(items) =>
                 match parse(line)
                 case Skip => Ok(items)
                 case Item(stat) => Ok(items + [stat])
                 case Fail(e) => Err(e)
  {
    assert (lines + [line])[..|lines|] == lines;
  }

  /**
   * The rows the history writes: A's file row and then A's commit row (1 file, 10 added,
   * 2 removed), then B's two file rows and B's commit row (2 files, 5 added, 3 removed).
   */
  lemma RunOfTwoCommits<D>(filesOf: string -> Result<seq<FileStat>, Failure>, a: CommitDate<D>, b: CommitDate<D>)
    requires filesOf(a.cid) == Ok([FileStat("f1.txt", 10, 2)])
    requires filesOf(b.cid) == Ok([FileStat("f2.txt", 5, 0), FileStat("f3.bin", 0, 3)])
    ensures Run(filesOf, [a, b]).failure == None
    ensures FilesIn(Run(filesOf, [a, b]).rows)
            == [FileRow(a.cid, "f1.txt", 10, 2), FileRow(b.cid, "f2.txt", 5, 0), FileRow(b.cid, "f3.bin", 0, 3)]
    ensures CommitsIn(Run(filesOf, [a, b]).rows)
            == [CommitRow(a.cid, a.date, 1, 10, 2), CommitRow(b.cid, b.date, 2, 5, 3)]
  {
    var itemsA := [FileStat("f1.txt", 10, 2)];
    var itemsB := [FileStat("f2.txt", 5, 0), FileStat("f3.bin", 0, 3)];
    var blockA := CommitBlock(a, itemsA);
    var blockB := CommitBlock(b, itemsB);
    RunOfTwo(filesOf, a, b, itemsA, itemsB);
    FilesInAppend(blockA, blockB);
    CommitsInAppend(blockA, blockB);
    BlockCommits(a, itemsA);
    BlockCommits(b, itemsB);
    BlockFiles(a, itemsA);
    BlockFiles(b, itemsB);
    CommitRowOfA(a);
    CommitRowOfB(b);
  }

  /** Two readable commits in a row write their two blocks, one after the other. */
  lemma RunOfTwo<D>(filesOf: string -> Result<seq<FileStat>, Failure>, a: CommitDate<D>, b: CommitDate<D>,
                    itemsA: seq<FileStat>, itemsB: seq<FileStat>)
    requires filesOf(a.cid) == Ok(itemsA) && filesOf(b.cid) == Ok(itemsB)
    ensures Run(filesOf, [a, b]) == RunOutcome(CommitBlock(a, itemsA) + CommitBlock(b, itemsB), None)
  {
    assert [a, b][..1] == [a] && [a][..0] == [];
    assert Run(filesOf, [a]) == RunOutcome(CommitBlock(a, itemsA), None);
  }

  /** The commit row of the first commit of the history: 1 file, 10 added, 2 removed. */
  lemma CommitRowOfA<D>(a: CommitDate<D>)
    ensures CommitRowOf(a, [FileStat("f1.txt", 10, 2)]) == CommitRow(a.cid, a.date, 1, 10, 2)
  {
    var items := [FileStat("f1.txt", 10, 2)];
    assert items[..0] == [];
    assert SumAdded(items) == 10 && SumRemoved(items) == 2;
  }

  /** The commit row of the second commit of the history: 2 files, 5 added, 3 removed. */
  lemma CommitRowOfB<D>(b: CommitDate<D>)
    ensures CommitRowOf(b, [FileStat("f2.txt", 5, 0), FileStat("f3.bin", 0, 3)]) == CommitRow(b.cid, b.date, 2, 5, 3)
  {
    var items := [FileStat("f2.txt", 5, 0), FileStat("f3.bin", 0, 3)];
    assert items[..1] == [FileStat("f2.txt", 5, 0)];
    assert items[..1][..0] == [];
    assert SumAdded(items) == 5 && SumRemoved(items) == 3;
  }

  /**
   * The same history from the captured `git show` outputs of the two commits: each a
   * header line, a blank line and the numstat lines git prints for the commit.
   */
  lemma TwoCommitHistory<D>(show: string -> string, a: CommitDate<D>, b: CommitDate<D>, dateA: string, dateB: string)
    requires HeaderFields(a.cid, dateA) && HeaderFields(b.cid, dateB)
    requires show(a.cid) == Join([a.cid + " " + dateA, "", NumstatLine(Some(10), Some(2), "f1.txt"), ""])
    requires show(b.cid) == Join([b.cid + " " + dateB, "", NumstatLine(Some(5), Some(0), "f2.txt"), NumstatLine(None, Some(3), "f3.bin"), ""])
    ensures Run(FilesOf(show), [a, b]).failure == None
    ensures FilesIn(Run(FilesOf(show), [a, b]).rows)
            == [FileRow(a.cid, "f1.txt", 10, 2), FileRow(b.cid, "f2.txt", 5, 0), FileRow(b.cid, "f3.bin", 0, 3)]
    ensures CommitsIn(Run(FilesOf(show), [a, b]).rows)
            == [CommitRow(a.cid, a.date, 1, 10, 2), CommitRow(b.cid, b.date, 2, 5, 3)]
  {
    assert PlainPath("f1.txt") && PlainPath("f2.txt") && PlainPath("f3.bin");
    ShowOfOneFile(show, a.cid, dateA, Some(10), Some(2), "f1.txt");
    ShowOfTwoFiles(show, b.cid, dateB, Some(5), Some(0), "f2.txt", None, Some(3), "f3.bin");
    RunOfTwoCommits(FilesOf(show), a, b);
  }

  /** A commit's block holds exactly its file rows, in order. */
  lemma BlockFiles<D>(c: CommitDate<D>, items: seq<FileStat>)
    ensures FilesIn(CommitBlock(c, items)) == FileRowsOf(c.cid, items)
  {
    var fileRows := FileEntries<D>(FileRowsOf(c.cid, items));
    FilesInAppend(fileRows, [CommitEntry(CommitRowOf(c, items))]);
    FileEntriesSorted<D>(FileRowsOf(c.cid, items));
    assert FilesIn([CommitEntry(CommitRowOf(c, items))]) == [];
  }
}
