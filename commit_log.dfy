/**
 * The commit stream of git-reader.py, `getCommitDates` (git-reader.py:161-175): every
 * non-empty line of `git log --no-merges --format=%H %ad` output is cut into a commit id
 * (its first 40 characters) and a date text (what follows the 41st character, stripped);
 * a line whose date text does not parse is reported and dropped.
 *
 * `datetime.strptime(..., '%c %z')` depends on the locale; it is the parameter
 * `parseDate`, a partial function to an abstract date type `D` (None where strptime
 * raises ValueError).
 */
module CommitLog {
  import opened Wrappers
  import opened Text

  /** A commit of the stream: `(cid, date)`. */
  datatype CommitDate<D> = CommitDate(cid: string, date: D)

  /** `line[:40]`: the first 40 characters, or the whole line if it is shorter. */
  function Id(line: string): (id: string)
    ensures id <= line
    ensures |id| == if |line| < 40 then |line| else 40
  {
    if |line| <= 40 then line else line[..40]
  }

  /** `line[41:].strip()`: empty on a line of at most 41 characters. */
  function DateText(line: string): (t: string)
    ensures |line| <= 41 ==> t == []
    ensures |line| > 41 ==> |t| <= |line| - 41
  {
    Strip(if |line| <= 41 then [] else line[41..])
  }

  /** What one line of the log contributes (git-reader.py:171-175). */
  function HeaderOf<D>(line: string, parseDate: string -> Option<D>): (r: Option<CommitDate<D>>)
    ensures r.None? <==> line == [] || parseDate(DateText(line)).None?
    ensures r.Some? ==> r.value.cid == Id(line) && parseDate(DateText(line)) == Some(r.value.date)
  {
    if line == [] then None
    else
      match parseDate(DateText(line))
      case None => None
      case Some(date) => Some(CommitDate(Id(line), date))
  }

  /**
   * The values `f` gives for the lines, in order, leaving out the lines it gives None
   * for: the shape of the generator loop of `getCommitDates`.
   */
  function Yielded<C>(f: string -> Option<C>, lines: seq<string>): (r: seq<C>)
    ensures |r| <= |lines|
    decreases |lines|
  {
    if lines == [] then []
    else
      var first := match f(lines[0]) case None => [] case Some(c) => [c];
      first + Yielded(f, lines[1..])
  }

  /** The commits `getCommitDates` yields for the lines of the log, in order. */
  function CommitDates<D>(lines: seq<string>, parseDate: string -> Option<D>): (r: seq<CommitDate<D>>)
    ensures |r| <= |lines|
  {
    Yielded(line => HeaderOf(line, parseDate), lines)
  }

  /** The generator works line by line: the values of two pieces of input, one after the other. */
  lemma {:induction false} YieldedAppend<C>(f: string -> Option<C>, a: seq<string>, b: seq<string>)
    ensures Yielded(f, a + b) == Yielded(f, a) + Yielded(f, b)
    decreases |a|
  {
    if a == [] {
      assert a + b == b;
    } else {
      assert (a + b)[0] == a[0];
      assert (a + b)[1..] == a[1..] + b;
      YieldedAppend(f, a[1..], b);
    }
  }

  /** What one line yields on its own. */
  lemma YieldedSingle<C>(f: string -> Option<C>, line: string)
    ensures Yielded(f, [line]) == match f(line) case None => [] case Some(c) => [c]
  {
    assert [line][1..] == [];
  }

  /** Every value yielded is the value of some line. */
  lemma {:induction false} YieldedFromLines<C>(f: string -> Option<C>, lines: seq<string>)
    ensures forall k :: 0 <= k < |Yielded(f, lines)| ==>
              exists i :: 0 <= i < |lines| && f(lines[i]) == Some(Yielded(f, lines)[k])
    decreases |lines|
  {
    if lines != [] {
      var r := Yielded(f, lines);
      var rest := Yielded(f, lines[1..]);
      YieldedFromLines(f, lines[1..]);
      var off := |r| - |rest|;
      forall k | 0 <= k < |r|
        ensures exists i :: 0 <= i < |lines| && f(lines[i]) == Some(r[k])
      {
        if k < off {
          assert f(lines[0]) == Some(r[k]);
        } else {
          assert r[k] == rest[k - off];
          var i :| 0 <= i < |lines[1..]| && f(lines[1..][i]) == Some(rest[k - off]);
          assert lines[1..][i] == lines[i + 1];
        }
      }
    } else {
      assert Yielded(f, lines) == [];
    }
  }

  /** The stream of the whole log is the streams of its two pieces, one after the other. */
  lemma CommitDatesAppend<D>(a: seq<string>, b: seq<string>, parseDate: string -> Option<D>)
    ensures CommitDates(a + b, parseDate) == CommitDates(a, parseDate) + CommitDates(b, parseDate)
  {
    YieldedAppend(line => HeaderOf(line, parseDate), a, b);
  }

  /**
   * An empty line, or one whose date does not parse, is dropped and nothing else changes:
   * the lines before and after it yield what they would yield without it.
   */
  lemma SkippedLine<D>(a: seq<string>, line: string, b: seq<string>, parseDate: string -> Option<D>)
    requires line == [] || parseDate(DateText(line)).None?
    ensures CommitDates(a + [line] + b, parseDate) == CommitDates(a, parseDate) + CommitDates(b, parseDate)
  {
    var f := line => HeaderOf(line, parseDate);
    YieldedAppend(f, a + [line], b);
    YieldedAppend(f, a, [line]);
    YieldedSingle(f, line);
  }

  /** A line whose date parses yields its commit in its place in the stream. */
  lemma ParsedLine<D>(a: seq<string>, line: string, b: seq<string>, parseDate: string -> Option<D>)
    requires line != [] && parseDate(DateText(line)).Some?
    ensures CommitDates(a + [line] + b, parseDate)
              == CommitDates(a, parseDate) + [CommitDate(Id(line), parseDate(DateText(line)).value)]
                 + CommitDates(b, parseDate)
  {
    var f := line => HeaderOf(line, parseDate);
    YieldedAppend(f, a + [line], b);
    YieldedAppend(f, a, [line]);
    YieldedSingle(f, line);
  }

  /** Every commit of the stream comes from a line of the log that yields exactly it. */
  lemma CommitDatesFromLines<D>(lines: seq<string>, parseDate: string -> Option<D>)
    ensures forall k :: 0 <= k < |CommitDates(lines, parseDate)| ==>
              exists i :: 0 <= i < |lines| && HeaderOf(lines[i], parseDate) == Some(CommitDates(lines, parseDate)[k])
  {
    var f := line => HeaderOf(line, parseDate);
    var r := CommitDates(lines, parseDate);
    YieldedFromLines(f, lines);
    forall k | 0 <= k < |r|
      ensures exists i :: 0 <= i < |lines| && HeaderOf(lines[i], parseDate) == Some(r[k])
    {
      var i :| 0 <= i < |lines| && f(lines[i]) == Some(r[k]);
      assert HeaderOf(lines[i], parseDate) == Some(r[k]);
    }
  }

  /**
   * Header slicing: a line made of a 40-character id, any one separator character and a
   * date text without whitespace at its ends gives back that id and that date text.
   */
  lemma HeaderSlicing(id: string, sep: char, date: string)
    requires |id| == 40
    requires date == [] || (!IsSpace(date[0]) && !IsSpace(date[|date| - 1]))
    ensures Id(id + [sep] + date) == id
    ensures DateText(id + [sep] + date) == date
  {
    var line := id + [sep] + date;
    assert line[..40] == id;
    if date != [] {
      assert line[41..] == date;
      StripUntrimmed(date);
    }
  }
}
