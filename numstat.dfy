/**
 * The per-commit file statistics of git-reader.py, `getCommitFiles`
 * (git-reader.py:131-158): each line of `git show <cid> --numstat` output is matched
 * against `file_line_expr`; a matching line gives `(fname, added, removed)`, with a `-`
 * count read as 0.
 */
module Numstat {
  import opened Wrappers
  import opened Text
  import opened FileLineRegex

  /**
   * A character class that can stand for `\s` in the agreement proof below: it holds no
   * digit and no dash. Python's whitespace is one (`SpacesAreSpaceClass`).
   */
  ghost predicate SpaceClass(space: char -> bool)
  {
    forall c :: space(c) ==> c != '-' && !IsDigit(c)
  }

  lemma SpacesAreSpaceClass()
    ensures SpaceClass(IsSpace)
  {
    forall c | IsSpace(c) ensures c != '-' && !IsDigit(c) {
      if IsDigit(c) {
        DigitIsNotSpace(c);
      }
    }
  }

  /**
   * Where `(-|[0-9]*)`, tried at `p`, ends in the only choice that the whitespace class
   * `space` after it can follow: just after a `-` that whitespace follows, otherwise after
   * the digit run.
   */
  function CountEnd(space: char -> bool, s: string, p: nat): (e: nat)
    requires p <= |s|
    ensures p <= e <= |s|
  {
    if p + 1 < |s| && s[p] == '-' && space(s[p + 1]) then p + 1 else p + Digits(s, p)
  }

  /** What `CountEnd` delimits is a count field: a dash or a run of digits. */
  lemma CountEndField(space: char -> bool, s: string, p: nat)
    requires p <= |s|
    ensures IsCountField(s[p..CountEnd(space, s, p)])
  {
    var e := CountEnd(space, s, p);
    if p + 1 < |s| && s[p] == '-' && space(s[p + 1]) {
      assert s[p..e] == "-";
    } else {
      DigitsRun(s, p);
      assert forall i :: 0 <= i < e - p ==> s[p..e][i] == s[p + i];
    }
  }

  /**
   * Where the five pieces of `file_line_expr` end, computed without search. The only
   * backtracking that can change the outcome is the first `\s+` giving back one character:
   * the second count group then matches the empty string on that character.
   */
  function FileLineEnds(space: char -> bool, s: string): (r: Option<seq<nat>>)
    ensures r.Some? ==> |r.value| == 5 && r.value[4] <= |s|
    ensures r.Some? ==> r.value[0] <= r.value[1] <= r.value[2] <= r.value[3] <= r.value[4]
  {
    var e1 := CountEnd(space, s, 0);
    var w1 := Span(s, e1, space);
    if w1 == 0 then None
    else
      var q := e1 + w1;
      var e2 := CountEnd(space, s, q);
      var w2 := Span(s, e2, space);
      if w2 > 0 then
        var f := e2 + w2;
        Some([e1, q, e2, f, f + Span(s, f, NotNewline)])
      else if w1 >= 2 then
        Some([e1, q - 1, q - 1, q, q + Span(s, q, NotNewline)])
      else
        None
  }

  /** `file_line_expr.match(s)`, with the groups cut at the ends `FileLineEnds` computes. */
  function Match(s: string): (r: Option<Groups>)
    ensures r.Some? ==> IsCountField(r.value.added) && IsCountField(r.value.removed)
    ensures r.Some? ==> '\n' !in r.value.fname
  {
    match FileLineEnds(IsSpace, s)
    case None => None
    case Some(e) =>
      MatchFields(s);
      Some(Groups(s[..e[0]], s[e[1]..e[2]], s[e[3]..e[4]]))
  }

  lemma MatchFields(s: string)
    ensures var r := FileLineEnds(IsSpace, s);
            r.Some? ==> && IsCountField(s[..r.value[0]]) && IsCountField(s[r.value[1]..r.value[2]])
                        && '\n' !in s[r.value[3]..r.value[4]]
  {
    var r := FileLineEnds(IsSpace, s);
    if r.Some? {
      var e := r.value;
      CountEndField(IsSpace, s, 0);
      assert s[..e[0]] == s[0..CountEnd(IsSpace, s, 0)];
      if e[1] < e[2] {
        CountEndField(IsSpace, s, e[1]);
        assert s[e[1]..e[2]] == s[e[1]..CountEnd(IsSpace, s, e[1])];
      } else {
        assert s[e[1]..e[2]] == [];
      }
      assert s[e[3]..e[4]] == FName(s, e[3]);
    }
  }

  /** `(.*)` at `f`: the rest of the line, up to a newline. */
  function FName(s: string, f: nat): (name: string)
    requires f <= |s|
    ensures '\n' !in name
  {
    var k := Span(s, f, NotNewline);
    var name := s[f..f + k];
    SpanRun(s, f, NotNewline);
    assert forall i :: 0 <= i < |name| ==> name[i] == s[f + i];
    name
  }

  // The agreement of Match with the backtracking search, one suffix of the pattern at a
  // time and one case at a time, for any class `space` standing for `\s`.

  /** `(.*)` takes the rest of the line. */
  lemma RemainderStage(space: char -> bool, s: string, p: nat)
    requires p <= |s|
    ensures Backtrack(FileLinePattern, space, 4, s, p) == Some([p + Span(s, p, NotNewline)])
  {
    var c := Ends(Remainder, space, s, p);
    assert FileLinePattern[4] == Remainder;
    assert c[0] == p + Span(s, p, NotNewline);
    assert Backtrack(FileLinePattern, space, 5, s, c[0]) == Some([]);
    FirstWorks(FileLinePattern, space, 4, s, p, c);
    assert [c[0]] + [] == [c[0]];
  }

  /** The second `\s+` takes its whole run, and `(.*)` the rest. */
  lemma LastWhitespaceTaken(space: char -> bool, s: string, p: nat)
    requires p <= |s| && Span(s, p, space) > 0
    ensures var f := p + Span(s, p, space);
            Backtrack(FileLinePattern, space, 3, s, p) == Some([f, f + Span(s, f, NotNewline)])
  {
    var f := p + Span(s, p, space);
    RemainderStage(space, s, f);
    assert FileLinePattern[3] == Whitespace;
    WhitespaceTaken(FileLinePattern, space, 3, s, p, [f + Span(s, f, NotNewline)]);
    assert [f] + [f + Span(s, f, NotNewline)] == [f, f + Span(s, f, NotNewline)];
  }

  /**
   * The first place `(-|[0-9]*)` can end is the one `CountEnd` names, unless no whitespace
   * follows either of them.
   */
  lemma FirstCountCandidate(space: char -> bool, s: string, q: nat)
    requires SpaceClass(space) && q <= |s|
    ensures var c := Ends(CountGroup, space, s, q);
            c != [] && (c[0] == CountEnd(space, s, q) ||
                        (Span(s, c[0], space) == 0 && Span(s, CountEnd(space, s, q), space) == 0))
  {
    var c := Ends(CountGroup, space, s, q);
    if q < |s| && s[q] == '-' {
      assert Digits(s, q) == 0;
      assert c[0] == q + 1;
      if !(q + 1 < |s| && space(s[q + 1])) {
        assert Span(s, q + 1, space) == 0;
        assert CountEnd(space, s, q) == q;
      }
    }
  }

  /** Every later place is on a dash or a digit, so no whitespace can follow it. */
  lemma LaterCountCandidates(space: char -> bool, s: string, q: nat)
    requires SpaceClass(space) && q <= |s|
    ensures var c := Ends(CountGroup, space, s, q);
            forall k :: 1 <= k < |c| ==> c[k] < |s| && !space(s[c[k]])
  {
    var d := Digits(s, q);
    var c := Ends(CountGroup, space, s, q);
    if q < |s| && s[q] == '-' {
      assert d == 0;
      assert c == [q + 1, q];
    } else {
      assert c == Descending(q + d, q);
      DescendingAt(q + d, q);
      DigitsRun(s, q);
      forall k | 1 <= k < |c| ensures c[k] < |s| && !space(s[c[k]]) {
        assert q <= c[k] < q + d;
        assert IsDigit(s[c[k]]);
      }
    }
  }

  /** A count group whose follower cannot start on a non-space has only its first chance. */
  lemma LaterCountCandidatesFail(space: char -> bool, s: string, q: nat, i: nat)
    requires SpaceClass(space) && q <= |s|
    requires i + 1 < |FileLinePattern| && FileLinePattern[i] == CountGroup
    requires forall x :: q <= x < |s| && !space(s[x]) ==> Backtrack(FileLinePattern, space, i + 1, s, x).None?
    ensures var c := Ends(CountGroup, space, s, q);
            TryEach(FileLinePattern, space, i, s, q, c[1..]).None?
  {
    var c := Ends(CountGroup, space, s, q);
    LaterCountCandidates(space, s, q);
    forall k | 0 <= k < |c[1..]| ensures Backtrack(FileLinePattern, space, i + 1, s, c[1..][k]).None? {
      assert c[1..][k] == c[k + 1];
    }
    NoCandidateWorks(FileLinePattern, space, i, s, q, c[1..]);
  }

  /** The second count group, when whitespace follows the place `CountEnd` names. */
  lemma CountTaken(space: char -> bool, s: string, q: nat)
    requires SpaceClass(space) && q <= |s| && Span(s, CountEnd(space, s, q), space) > 0
    ensures var e := CountEnd(space, s, q);
            var f := e + Span(s, e, space);
            Backtrack(FileLinePattern, space, 2, s, q) == Some([e, f, f + Span(s, f, NotNewline)])
  {
    var cands := Ends(CountGroup, space, s, q);
    var e := CountEnd(space, s, q);
    var f := e + Span(s, e, space);
    assert FileLinePattern[2] == CountGroup;
    FirstCountCandidate(space, s, q);
    LastWhitespaceTaken(space, s, e);
    FirstWorks(FileLinePattern, space, 2, s, q, cands);
    assert [e] + [f, f + Span(s, f, NotNewline)] == [e, f, f + Span(s, f, NotNewline)];
  }

  /** The second count group fails when no whitespace follows the place `CountEnd` names. */
  lemma CountRejected(space: char -> bool, s: string, q: nat)
    requires SpaceClass(space) && q <= |s| && Span(s, CountEnd(space, s, q), space) == 0
    ensures Backtrack(FileLinePattern, space, 2, s, q).None?
  {
    var cands := Ends(CountGroup, space, s, q);
    assert FileLinePattern[2] == CountGroup && FileLinePattern[3] == Whitespace;
    FirstCountCandidate(space, s, q);
    WhitespaceFails(FileLinePattern, space, 3, s, cands[0]);
    FirstFails(FileLinePattern, space, 2, s, q, cands);
    forall x | q <= x < |s| && !space(s[x])
      ensures Backtrack(FileLinePattern, space, 3, s, x).None?
    {
      WhitespaceFails(FileLinePattern, space, 3, s, x);
    }
    LaterCountCandidatesFail(space, s, q, 2);
  }

  /** The whitespace after the first count, when the second count and its whitespace follow. */
  lemma SecondWhitespaceDirect(space: char -> bool, s: string, p: nat)
    requires SpaceClass(space) && p <= |s|
    requires var k := Span(s, p, space);
             k > 0 && Span(s, CountEnd(space, s, p + k), space) > 0
    ensures var q := p + Span(s, p, space);
            var e := CountEnd(space, s, q);
            var f := e + Span(s, e, space);
            Backtrack(FileLinePattern, space, 1, s, p) == Some([q, e, f, f + Span(s, f, NotNewline)])
  {
    var q := p + Span(s, p, space);
    var e := CountEnd(space, s, q);
    var f := e + Span(s, e, space);
    CountTaken(space, s, q);
    assert FileLinePattern[1] == Whitespace;
    WhitespaceTaken(FileLinePattern, space, 1, s, p, [e, f, f + Span(s, f, NotNewline)]);
    assert [q] + [e, f, f + Span(s, f, NotNewline)] == [q, e, f, f + Span(s, f, NotNewline)];
  }

  /**
   * The whitespace after the first count, when no whitespace follows the second count: the
   * regex gives back one space, and the second count matches empty there.
   */
  lemma SecondWhitespaceBackoff(space: char -> bool, s: string, p: nat)
    requires SpaceClass(space) && p <= |s|
    requires var k := Span(s, p, space);
             k >= 2 && Span(s, CountEnd(space, s, p + k), space) == 0
    ensures var q := p + Span(s, p, space);
            Backtrack(FileLinePattern, space, 1, s, p)
              == Some([q - 1, q - 1, q, q + Span(s, q, NotNewline)])
  {
    var k := Span(s, p, space);
    var cands := Ends(Whitespace, space, s, p);
    assert FileLinePattern[1] == Whitespace;
    assert cands[0] == p + k;
    CountRejected(space, s, p + k);
    FirstFails(FileLinePattern, space, 1, s, p, cands);
    SecondWhitespaceRetry(space, s, p);
  }

  /** The second choice of the whitespace after the first count: its run less one character. */
  lemma SecondWhitespaceRetry(space: char -> bool, s: string, p: nat)
    requires SpaceClass(space) && p <= |s| && Span(s, p, space) >= 2
    ensures var q := p + Span(s, p, space);
            TryEach(FileLinePattern, space, 1, s, p, Ends(Whitespace, space, s, p)[1..])
              == Some([q - 1, q - 1, q, q + Span(s, q, NotNewline)])
  {
    var later := Ends(Whitespace, space, s, p)[1..];
    var q := p + Span(s, p, space);
    var x := q - 1;
    SpanRun(s, p, space);
    assert later[0] == x && space(s[x]);
    assert CountEnd(space, s, x) == x by {
      assert s[x] != '-';
      assert Digits(s, x) == 0;
    }
    SpanIs(s, x, space, 1);
    CountTaken(space, s, x);
    FirstWorks(FileLinePattern, space, 1, s, p, later);
    assert [x] + [x, q, q + Span(s, q, NotNewline)] == [x, x, q, q + Span(s, q, NotNewline)];
  }

  /** A single space after the first count cannot be shared when no whitespace follows the second. */
  lemma SecondWhitespaceShort(space: char -> bool, s: string, p: nat)
    requires SpaceClass(space) && p <= |s|
    requires Span(s, p, space) == 1 && Span(s, CountEnd(space, s, p + 1), space) == 0
    ensures Backtrack(FileLinePattern, space, 1, s, p).None?
  {
    var cands := Ends(Whitespace, space, s, p);
    assert FileLinePattern[1] == Whitespace;
    assert cands == [p + 1];
    CountRejected(space, s, p + 1);
    FirstFails(FileLinePattern, space, 1, s, p, cands);
    assert cands[1..] == [];
  }

  /** When whitespace follows the first count's `CountEnd` and the rest succeeds there, the search takes that end. */
  lemma FirstCountTaken(space: char -> bool, s: string, a: nat, b: nat, c: nat, d: nat)
    requires SpaceClass(space) && Span(s, CountEnd(space, s, 0), space) > 0
    requires Backtrack(FileLinePattern, space, 1, s, CountEnd(space, s, 0)) == Some([a, b, c, d])
    ensures Backtrack(FileLinePattern, space, 0, s, 0) == Some([CountEnd(space, s, 0), a, b, c, d])
  {
    var cands := Ends(CountGroup, space, s, 0);
    assert FileLinePattern[0] == CountGroup;
    FirstCountCandidate(space, s, 0);
    FirstWorks(FileLinePattern, space, 0, s, 0, cands);
    assert [CountEnd(space, s, 0)] + [a, b, c, d] == [CountEnd(space, s, 0), a, b, c, d];
  }

  /** If the rest of the pattern fails after the first count's first choice, the match fails. */
  lemma FirstCountRejected(space: char -> bool, s: string)
    requires SpaceClass(space)
    requires Backtrack(FileLinePattern, space, 1, s, Ends(CountGroup, space, s, 0)[0]).None?
    ensures Backtrack(FileLinePattern, space, 0, s, 0).None?
  {
    var cands := Ends(CountGroup, space, s, 0);
    assert FileLinePattern[0] == CountGroup && FileLinePattern[1] == Whitespace;
    FirstFails(FileLinePattern, space, 0, s, 0, cands);
    forall x | 0 <= x < |s| && !space(s[x])
      ensures Backtrack(FileLinePattern, space, 1, s, x).None?
    {
      WhitespaceFails(FileLinePattern, space, 1, s, x);
    }
    LaterCountCandidatesFail(space, s, 0, 0);
  }

  /** The search and the searchless computation find the same end positions. */
  lemma EndsAgree(space: char -> bool, s: string)
    requires SpaceClass(space)
    ensures Backtrack(FileLinePattern, space, 0, s, 0) == FileLineEnds(space, s)
  {
    var e1 := CountEnd(space, s, 0);
    var w1 := Span(s, e1, space);
    if w1 == 0 {
      EndsAgreeRejected(space, s);
    } else if Span(s, CountEnd(space, s, e1 + w1), space) > 0 {
      EndsAgreeDirect(space, s);
    } else if w1 >= 2 {
      EndsAgreeBackoff(space, s);
    } else {
      EndsAgreeRejected(space, s);
    }
  }

  lemma EndsAgreeDirect(space: char -> bool, s: string)
    requires SpaceClass(space)
    requires var e1 := CountEnd(space, s, 0);
             var w1 := Span(s, e1, space);
             w1 > 0 && Span(s, CountEnd(space, s, e1 + w1), space) > 0
    ensures Backtrack(FileLinePattern, space, 0, s, 0) == FileLineEnds(space, s)
  {
    BacktrackDirect(space, s);
    DirectEnds(space, s);
  }

  /** The search when both whitespace runs are taken whole. */
  lemma BacktrackDirect(space: char -> bool, s: string)
    requires SpaceClass(space)
    requires var e1 := CountEnd(space, s, 0);
             var w1 := Span(s, e1, space);
             w1 > 0 && Span(s, CountEnd(space, s, e1 + w1), space) > 0
    ensures var e1 := CountEnd(space, s, 0);
            var q := e1 + Span(s, e1, space);
            var e2 := CountEnd(space, s, q);
            var f := e2 + Span(s, e2, space);
            Backtrack(FileLinePattern, space, 0, s, 0) == Some([e1, q, e2, f, f + Span(s, f, NotNewline)])
  {
    var e1 := CountEnd(space, s, 0);
    var q := e1 + Span(s, e1, space);
    var e2 := CountEnd(space, s, q);
    var f := e2 + Span(s, e2, space);
    SecondWhitespaceDirect(space, s, e1);
    FirstCountTaken(space, s, q, e2, f, f + Span(s, f, NotNewline));
  }

  /** `FileLineEnds` when both whitespace runs are taken whole. */
  lemma DirectEnds(space: char -> bool, s: string)
    requires var e1 := CountEnd(space, s, 0);
             var w1 := Span(s, e1, space);
             w1 > 0 && Span(s, CountEnd(space, s, e1 + w1), space) > 0
    ensures var e1 := CountEnd(space, s, 0);
            var q := e1 + Span(s, e1, space);
            var e2 := CountEnd(space, s, q);
            var f := e2 + Span(s, e2, space);
            FileLineEnds(space, s) == Some([e1, q, e2, f, f + Span(s, f, NotNewline)])
  {
  }

  lemma EndsAgreeBackoff(space: char -> bool, s: string)
    requires SpaceClass(space)
    requires var e1 := CountEnd(space, s, 0);
             var w1 := Span(s, e1, space);
             w1 >= 2 && Span(s, CountEnd(space, s, e1 + w1), space) == 0
    ensures Backtrack(FileLinePattern, space, 0, s, 0) == FileLineEnds(space, s)
  {
    BacktrackBackoff(space, s);
    BackoffEnds(space, s);
  }

  /** The search when the first whitespace run gives one character back. */
  lemma BacktrackBackoff(space: char -> bool, s: string)
    requires SpaceClass(space)
    requires var e1 := CountEnd(space, s, 0);
             var w1 := Span(s, e1, space);
             w1 >= 2 && Span(s, CountEnd(space, s, e1 + w1), space) == 0
    ensures var e1 := CountEnd(space, s, 0);
            var q := e1 + Span(s, e1, space);
            Backtrack(FileLinePattern, space, 0, s, 0) == Some([e1, q - 1, q - 1, q, q + Span(s, q, NotNewline)])
  {
    var e1 := CountEnd(space, s, 0);
    var q := e1 + Span(s, e1, space);
    SecondWhitespaceBackoff(space, s, e1);
    FirstCountTaken(space, s, q - 1, q - 1, q, q + Span(s, q, NotNewline));
  }

  /** `FileLineEnds` when the first whitespace run gives one character back. */
  lemma BackoffEnds(space: char -> bool, s: string)
    requires var e1 := CountEnd(space, s, 0);
             var w1 := Span(s, e1, space);
             w1 >= 2 && Span(s, CountEnd(space, s, e1 + w1), space) == 0
    ensures var e1 := CountEnd(space, s, 0);
            var q := e1 + Span(s, e1, space);
            FileLineEnds(space, s) == Some([e1, q - 1, q - 1, q, q + Span(s, q, NotNewline)])
  {
  }

  lemma EndsAgreeRejected(space: char -> bool, s: string)
    requires SpaceClass(space)
    requires var e1 := CountEnd(space, s, 0);
             var w1 := Span(s, e1, space);
             w1 == 0 || (w1 == 1 && Span(s, CountEnd(space, s, e1 + w1), space) == 0)
    ensures Backtrack(FileLinePattern, space, 0, s, 0).None? && FileLineEnds(space, s).None?
  {
    var e1 := CountEnd(space, s, 0);
    var c0 := Ends(CountGroup, space, s, 0)[0];
    FirstCountCandidate(space, s, 0);
    assert FileLinePattern[1] == Whitespace;
    if Span(s, e1, space) == 0 {
      WhitespaceFails(FileLinePattern, space, 1, s, c0);
    } else {
      SecondWhitespaceShort(space, s, e1);
    }
    FirstCountRejected(space, s);
  }

  /** The hand-written matcher gives exactly the groups Python's backtracking matcher gives. */
  lemma MatchIsRegex(s: string)
    ensures Match(s) == RegexMatch(s)
  {
    SpacesAreSpaceClass();
    EndsAgree(IsSpace, s);
  }

  // Reading the count fields (git-reader.py:153-154).

  /** The value of an ASCII digit. */
  function DigitValue(c: char): (d: nat)
    requires IsDigit(c)
    ensures d < 10
  {
    (c as int) - ('0' as int)
  }

  /** The digit character for `d`. */
  function DigitChar(d: nat): (c: char)
    requires d < 10
    ensures IsDigit(c) && DigitValue(c) == d
  {
    (('0' as int) + d) as char
  }

  /** `int(f)` on a string of ASCII digits: its value in base ten. */
  function DecimalValue(f: string): (n: nat)
    requires forall i :: 0 <= i < |f| ==> IsDigit(f[i])
    ensures n == 0 <==> forall i :: 0 <= i < |f| ==> f[i] == '0'
    decreases |f|
  {
    if f == [] then 0 else 10 * DecimalValue(f[..|f| - 1]) + DigitValue(f[|f| - 1])
  }

  /** `str(n)`: the decimal numeral of `n`, without leading zeros; git prints counts this way. */
  function Decimal(n: nat): (f: string)
    ensures |f| >= 1 && (forall i :: 0 <= i < |f| ==> IsDigit(f[i]))
    ensures |f| > 1 ==> f[0] != '0'
  {
    if n < 10 then [DigitChar(n)] else Decimal(n / 10) + [DigitChar(n % 10)]
  }

  lemma {:induction false} DecimalRoundTrip(n: nat)
    ensures DecimalValue(Decimal(n)) == n
  {
    if n >= 10 {
      var f := Decimal(n);
      assert f[..|f| - 1] == Decimal(n / 10);
      DecimalRoundTrip(n / 10);
    }
  }

  /**
   * The other direction: a numeral without leading zeros is `str` of its `int`, so `int`
   * reads every such numeral as the number it denotes.
   */
  lemma {:induction false} DecimalValueRoundTrip(f: string)
    requires f != [] && (forall i :: 0 <= i < |f| ==> IsDigit(f[i]))
    requires |f| > 1 ==> f[0] != '0'
    ensures Decimal(DecimalValue(f)) == f
    decreases |f|
  {
    var d := DigitValue(f[|f| - 1]);
    assert DigitChar(d) == f[|f| - 1];
    if |f| > 1 {
      var init := f[..|f| - 1];
      assert init[0] == f[0] != '0';
      DecimalValueRoundTrip(init);
      var m := DecimalValue(init);
      assert m != 0;
      assert (10 * m + d) / 10 == m && (10 * m + d) % 10 == d;
      assert f == init + [f[|f| - 1]];
    }
  }

  /**
   * `int(x) if x[0] != '-' else 0` on a captured count field: a dash counts as 0, digits
   * as their decimal value, and an empty field has no first character (None: the
   * IndexError, which nothing catches). No field the pattern captures makes `int` raise
   * the ValueError that the `except` clause waits for.
   */
  function CountValue(f: string): (r: Option<nat>)
    requires IsCountField(f)
    ensures r.None? <==> f == []
    ensures f == "-" ==> r == Some(0)
  {
    if f == [] then None
    else if f[0] == '-' then Some(0)
    else Some(DecimalValue(f))
  }

  /** A number git prints is read back as itself. */
  lemma CountOfDecimal(n: nat)
    ensures CountValue(Decimal(n)) == Some(n)
  {
    DecimalRoundTrip(n);
  }

  // One line of `git show --numstat` output (git-reader.py:148-157).

  /** An item of `getCommitFiles`' result: `(fname, lines added, lines removed)`. */
  datatype FileStat = FileStat(fname: string, added: nat, removed: nat)

  /** Why `getCommitFiles` stops: the IndexError raised on this line's empty count field. */
  datatype Failure = EmptyCountField(line: string)

  /** What one output line contributes: nothing, one item, or the uncaught error. */
  datatype LineOutcome = Skip | Item(stat: FileStat) | Fail(failure: Failure)

  /** The body of the loop of `getCommitFiles` (git-reader.py:149-157) on one line. */
  function ParseFileLine(line: string): (o: LineOutcome)
    ensures o.Skip? <==> Match(line).None?
    ensures o.Fail? <==> Match(line).Some? && (Match(line).value.added == [] || Match(line).value.removed == [])
    ensures o.Fail? ==> o.failure == EmptyCountField(line)
    ensures o.Item? ==> o.stat.fname == Match(line).value.fname
    ensures o.Item? ==> && Some(o.stat.added) == CountValue(Match(line).value.added)
                        && Some(o.stat.removed) == CountValue(Match(line).value.removed)
  {
    match Match(line)
    case None => Skip
    case Some(g) =>
      match (CountValue(g.added), CountValue(g.removed))
      case (Some(a), Some(r)) => Item(FileStat(g.fname, a, r))
      case _ => Fail(EmptyCountField(line))
  }

  /**
   * The loop of `getCommitFiles` over the lines of one `git show` output, each line handled
   * by `parse` (for the program, `ParseFileLine`): the items in order, or the failure of
   * the first line that fails.
   */
  function Collect(parse: string -> LineOutcome, lines: seq<string>): (r: Result<seq<FileStat>, Failure>)
    ensures r.Ok? ==> |r.value| <= |lines|
    ensures r.Err? ==> exists i :: 0 <= i < |lines| && parse(lines[i]) == Fail(r.error)
    decreases |lines|
  {
    if lines == [] then Ok([])
    else
      match Collect(parse, lines[..|lines| - 1])
      case Err(e) => Err(e)
      case Ok(items) =>
        match parse(lines[|lines| - 1])
        case Skip => Ok(items)
        case Item(stat) => Ok(items + [stat])
        case Fail(e) => Err(e)
  }

  /** `getCommitFiles` (git-reader.py:147-158). */
  method CommitFiles(lines: seq<string>) returns (r: Result<seq<FileStat>, Failure>)
    ensures r == Collect(ParseFileLine, lines)
  {
    var items: seq<FileStat> := [];
    for i := 0 to |lines|
      invariant Collect(ParseFileLine, lines[..i]) == Ok(items)
    {
      assert lines[..i + 1][..i] == lines[..i];
      match ParseFileLine(lines[i])
      case Skip =>
      case Item(stat) =>
        items := items + [stat];
      case Fail(e) =>
        FailureIsFinal(ParseFileLine, lines, i + 1);
        return Err(e);
    }
    assert lines[..|lines|] == lines;
    return Ok(items);
  }

  /** Once a prefix of the lines has failed, no later line changes the result. */
  lemma {:induction false} FailureIsFinal(parse: string -> LineOutcome, lines: seq<string>, n: nat)
    requires n <= |lines| && Collect(parse, lines[..n]).Err?
    ensures Collect(parse, lines) == Collect(parse, lines[..n])
    decreases |lines| - n
  {
    if n < |lines| {
      assert lines[..n + 1][..n] == lines[..n];
      FailureIsFinal(parse, lines, n + 1);
    } else {
      assert lines[..n] == lines;
    }
  }

  /** The lines `parse` does not skip, in order. */
  function Kept(parse: string -> LineOutcome, lines: seq<string>): (m: seq<string>)
    ensures |m| <= |lines|
    ensures forall i :: 0 <= i < |m| ==> !parse(m[i]).Skip?
    decreases |lines|
  {
    if lines == [] then []
    else
      var rest := Kept(parse, lines[..|lines| - 1]);
      if parse(lines[|lines| - 1]).Skip? then rest else rest + [lines[|lines| - 1]]
  }

  /** The loop succeeds exactly when no line fails. */
  lemma {:induction false} CollectSucceeds(parse: string -> LineOutcome, lines: seq<string>)
    ensures Collect(parse, lines).Ok? <==> forall i :: 0 <= i < |lines| ==> !parse(lines[i]).Fail?
    decreases |lines|
  {
    if lines != [] {
      var init := lines[..|lines| - 1];
      CollectSucceeds(parse, init);
      assert forall i :: 0 <= i < |init| ==> init[i] == lines[i];
    }
  }

  /** A successful loop gives one item per line not skipped, in order: the item it parses to. */
  lemma {:induction false} CollectPerKeptLine(parse: string -> LineOutcome, lines: seq<string>)
    requires Collect(parse, lines).Ok?
    ensures var items := Collect(parse, lines).value;
            var m := Kept(parse, lines);
            && |items| == |m|
            && forall k :: 0 <= k < |m| ==> parse(m[k]) == Item(items[k])
    decreases |lines|
  {
    if lines != [] {
      var init := lines[..|lines| - 1];
      var last := lines[|lines| - 1];
      assert Collect(parse, init).Ok?;
      CollectPerKeptLine(parse, init);
      var items0 := Collect(parse, init).value;
      var m0 := Kept(parse, init);
      match parse(last)
      case Skip =>
        assert Kept(parse, lines) == m0;
      case Item(stat) =>
        assert Kept(parse, lines) == m0 + [last];
        assert Collect(parse, lines).value == items0 + [stat];
    }
  }

  /** On an error, the error is that of the first line that fails. */
  lemma {:induction false} CollectFirstFailure(parse: string -> LineOutcome, lines: seq<string>)
    ensures Collect(parse, lines).Err? ==>
              exists i :: && 0 <= i < |lines| && parse(lines[i]).Fail?
                          && Collect(parse, lines).error == parse(lines[i]).failure
                          && forall j :: 0 <= j < i ==> !parse(lines[j]).Fail?
    decreases |lines|
  {
    if lines != [] {
      var init := lines[..|lines| - 1];
      CollectFirstFailure(parse, init);
      CollectSucceeds(parse, init);
      assert forall i :: 0 <= i < |init| ==> init[i] == lines[i];
    }
  }

  /** The lines `getCommitFiles` keeps are exactly the ones `file_line_expr` matches. */
  lemma {:induction false} KeptAreMatching(lines: seq<string>)
    ensures Kept(ParseFileLine, lines) == Matching(lines)
    decreases |lines|
  {
    if lines != [] {
      KeptAreMatching(lines[..|lines| - 1]);
    }
  }

  /** The lines the pattern matches, in order. */
  function Matching(lines: seq<string>): (m: seq<string>)
    ensures |m| <= |lines|
    ensures forall i :: 0 <= i < |m| ==> Match(m[i]).Some?
    decreases |lines|
  {
    if lines == [] then []
    else
      var rest := Matching(lines[..|lines| - 1]);
      if Match(lines[|lines| - 1]).Some? then rest + [lines[|lines| - 1]] else rest
  }

  // Which lines are file lines.

  /** An empty line (the last piece of every output) is skipped. */
  lemma EmptyLineSkipped()
    ensures ParseFileLine("") == Skip
  {
  }

  /** The characters of `%H`: lower-case hexadecimal digits. */
  predicate IsHexDigit(c: char)
  {
    IsDigit(c) || 'a' <= c <= 'f'
  }

  /**
   * The `%H %ad` header line of `git show` output is not a file line: a 40-digit commit id,
   * a space, and a date that starts with a weekday name.
   */
  lemma HeaderIsNotFileLine(id: string, date: string)
    requires |id| == 40 && forall i :: 0 <= i < |id| ==> IsHexDigit(id[i])
    requires date != [] && !IsDigit(date[0]) && !IsSpace(date[0]) && date[0] != '-'
    ensures Match(id + " " + date) == None
  {
    var s := id + " " + date;
    assert s[40] == ' ' && s[41] == date[0];
    assert forall i :: 0 <= i < 40 ==> s[i] == id[i];
    var d := Digits(s, 0);
    DigitsRun(s, 0);
    assert d <= 40;
    assert CountEnd(IsSpace, s, 0) == d;
    if d < 40 {
      assert !IsSpace(s[d]);
    } else {
      SpanIs(s, 40, IsSpace, 1);
      assert CountEnd(IsSpace, s, 41) == 41;
    }
  }

  /** A line that starts with whitespace has an empty first count, so it never gives an item. */
  lemma LeadingSpaceNeverItem(line: string)
    requires line != [] && IsSpace(line[0])
    ensures !ParseFileLine(line).Item?
  {
    assert CountEnd(IsSpace, line, 0) == 0 by {
      if IsDigit(line[0]) {
        DigitIsNotSpace(line[0]);
      }
    }
  }

  /**
   * Two tabs between the counts: the first `\s+` gives one back, the second count group
   * captures the empty string, and `removed[0]` raises.
   */
  lemma EmptyRemovedExample()
    ensures Match("10\t\tfoo") == Some(Groups("10", "", "foo"))
    ensures ParseFileLine("10\t\tfoo") == Fail(EmptyCountField("10\t\tfoo"))
  {
    var s := "10\t\tfoo";
    assert Digits(s, 0) == 2;
    assert CountEnd(IsSpace, s, 0) == 2;
    assert Span(s, 2, IsSpace) == 2;
    assert CountEnd(IsSpace, s, 4) == 4;
    assert Span(s, 4, IsSpace) == 0;
    assert Span(s, 4, NotNewline) == 3;
    assert FileLineEnds(IsSpace, s) == Some([2, 3, 3, 4, 7]);
    assert s[..2] == "10" && s[3..3] == "" && s[4..7] == "foo";
  }

  // Lines as git writes them.

  /** How `--numstat` prints a count: `-` for a binary file (None), else the number. */
  function CountText(c: Option<nat>): (f: string)
    ensures f != [] && IsCountField(f)
    ensures f[0] == '-' <==> c.None?
  {
    match c
    case None => "-"
    case Some(n) => Decimal(n)
  }

  /** What `int(x) if x[0] != '-' else 0` makes of a count git printed. */
  function CountOf(c: Option<nat>): nat
  {
    match c
    case None => 0
    case Some(n) => n
  }

  /** A `--numstat` line: lines added, a tab, lines removed, a tab, the path. */
  function NumstatLine(added: Option<nat>, removed: Option<nat>, path: string): string
  {
    CountText(added) + "\t" + CountText(removed) + "\t" + path
  }

  /** A count field followed by whitespace and then by no more whitespace. */
  lemma CountFieldAt(space: char -> bool, s: string, p: nat, f: string)
    requires SpaceClass(space)
    requires f != [] && IsCountField(f) && p + |f| < |s|
    requires forall i :: 0 <= i < |f| ==> s[p + i] == f[i]
    requires space(s[p + |f|]) && (p + |f| + 1 == |s| || !space(s[p + |f| + 1]))
    ensures CountEnd(space, s, p) == p + |f|
    ensures Span(s, p + |f|, space) == 1
  {
    SpanIs(s, p + |f|, space, 1);
    CountFieldEnd(space, s, p, f);
  }

  /** A count field followed by whitespace ends where the field ends. */
  lemma CountFieldEnd(space: char -> bool, s: string, p: nat, f: string)
    requires SpaceClass(space)
    requires f != [] && IsCountField(f) && p + |f| < |s|
    requires forall i :: 0 <= i < |f| ==> s[p + i] == f[i]
    requires space(s[p + |f|])
    ensures CountEnd(space, s, p) == p + |f|
  {
    assert s[p] == f[0];
    if f == "-" {
      assert s[p] == '-' && space(s[p + 1]);
    } else {
      assert forall i :: 0 <= i < |f| ==> IsDigit(f[i]);
      assert s[p] != '-' by {
        assert IsDigit(f[0]);
      }
      assert !IsDigit(s[p + |f|]);
      forall i | p <= i < p + |f| ensures IsDigit(s[i]) {
        assert s[i] == f[i - p];
      }
      DigitsIs(s, p, |f|);
    }
  }

  /** `s` is laid out as `a`, a tab, `r`, a tab and `path`, character by character. */
  ghost predicate LaidOut(s: string, a: string, r: string, path: string)
  {
    var q := |a| + 1;
    var f := q + |r| + 1;
    && |s| == f + |path|
    && (forall i :: 0 <= i < |a| ==> s[i] == a[i])
    && s[|a|] == '\t'
    && (forall i :: 0 <= i < |r| ==> s[q + i] == r[i])
    && s[q + |r|] == '\t'
    && (forall i :: 0 <= i < |path| ==> s[f + i] == path[i])
  }

  lemma NumstatLayout(a: string, r: string, path: string)
    ensures LaidOut(a + "\t" + r + "\t" + path, a, r, path)
  {
  }

  /** The first count field of a `--numstat` line and the tab after it. */
  lemma AddedFieldEnds(space: char -> bool, s: string, a: string, r: string, path: string)
    requires SpaceClass(space) && space('\t') && LaidOut(s, a, r, path)
    requires a != [] && IsCountField(a) && r != [] && IsCountField(r)
    ensures CountEnd(space, s, 0) == |a| && Span(s, |a|, space) == 1
  {
    assert s[|a| + 1] == r[0];
    assert !space(r[0]) by {
      if r != "-" {
        assert IsDigit(r[0]);
      }
    }
    CountFieldAt(space, s, 0, a);
  }

  /** The second count field of a `--numstat` line and the tab after it. */
  lemma RemovedFieldEnds(space: char -> bool, s: string, a: string, r: string, path: string)
    requires SpaceClass(space) && space('\t') && LaidOut(s, a, r, path)
    requires r != [] && IsCountField(r)
    requires path == [] || !space(path[0])
    ensures var q := |a| + 1;
            CountEnd(space, s, q) == q + |r| && Span(s, q + |r|, space) == 1
  {
    var q := |a| + 1;
    var f := q + |r| + 1;
    assert f < |s| ==> s[f] == path[0];
    CountFieldAt(space, s, q, r);
  }

  /** The path of a `--numstat` line runs to its end. */
  lemma PathFieldEnds(s: string, a: string, r: string, path: string)
    requires LaidOut(s, a, r, path) && '\n' !in path
    ensures Span(s, |a| + |r| + 2, NotNewline) == |path|
  {
    var f := |a| + |r| + 2;
    forall i | f <= i < f + |path| ensures NotNewline(s[i]) {
      assert s[i] == path[i - f];
    }
    SpanIs(s, f, NotNewline, |path|);
  }

  /** Where the pieces of the pattern end on a line git wrote. */
  lemma NumstatLineEnds(space: char -> bool, s: string, a: string, r: string, path: string)
    requires SpaceClass(space) && space('\t') && LaidOut(s, a, r, path)
    requires a != [] && IsCountField(a) && r != [] && IsCountField(r)
    requires path == [] || !space(path[0])
    requires '\n' !in path
    ensures var e := FileLineEnds(space, s);
            && e.Some? && e.value[0] == |a| && e.value[1] == |a| + 1
            && e.value[2] == |a| + 1 + |r| && e.value[3] == |a| + |r| + 2 && e.value[4] == |s|
  {
    AddedFieldEnds(space, s, a, r, path);
    RemovedFieldEnds(space, s, a, r, path);
    PathFieldEnds(s, a, r, path);
  }

  /** The groups `Match` reports for the positions `FileLineEnds` finds. */
  lemma MatchOfEnds(s: string, e: seq<nat>)
    requires FileLineEnds(IsSpace, s) == Some(e)
    ensures Match(s) == Some(Groups(s[..e[0]], s[e[1]..e[2]], s[e[3]..e[4]]))
  {
  }

  /** The groups of a line laid out as two count fields, tabs and a path. */
  lemma MatchLaidOut(s: string, a: string, r: string, path: string)
    requires LaidOut(s, a, r, path)
    requires a != [] && IsCountField(a) && r != [] && IsCountField(r)
    requires '\n' !in path && (path == [] || !IsSpace(path[0]))
    ensures Match(s) == Some(Groups(a, r, path))
  {
    var q := |a| + 1;
    SpacesAreSpaceClass();
    NumstatLineEnds(IsSpace, s, a, r, path);
    LaidOutSlices(s, a, r, path);
    MatchOfEnds(s, [|a|, q, q + |r|, q + |r| + 1, |s|]);
  }

  /** The three fields of a laid-out line, as slices. */
  lemma LaidOutSlices(s: string, a: string, r: string, path: string)
    requires LaidOut(s, a, r, path)
    ensures var q := |a| + 1;
            s[..|a|] == a && s[q..q + |r|] == r && s[q + |r| + 1..|s|] == path
  {
    var q := |a| + 1;
    assert s[..|a|] == a;
    assert s[q..q + |r|] == r;
    assert s[q + |r| + 1..|s|] == path;
  }

  /** The groups of a line made of two count fields, tabs and a path. */
  lemma MatchNumstatFields(a: string, r: string, path: string)
    requires a != [] && IsCountField(a) && r != [] && IsCountField(r)
    requires '\n' !in path && (path == [] || !IsSpace(path[0]))
    ensures Match(a + "\t" + r + "\t" + path) == Some(Groups(a, r, path))
  {
    NumstatLayout(a, r, path);
    MatchLaidOut(a + "\t" + r + "\t" + path, a, r, path);
  }

  /** A count git printed reads back as the count. */
  lemma CountTextRoundTrip(c: Option<nat>)
    ensures CountValue(CountText(c)) == Some(CountOf(c))
  {
    if c.Some? {
      CountOfDecimal(c.value);
    }
  }

  /**
   * What git writes is read back: the counts as printed, the path whole (inner spaces
   * included), provided it does not start with whitespace and holds no newline.
   */
  lemma NumstatLineRoundTrip(added: Option<nat>, removed: Option<nat>, path: string)
    requires '\n' !in path && (path == [] || !IsSpace(path[0]))
    ensures Match(NumstatLine(added, removed, path))
            == Some(Groups(CountText(added), CountText(removed), path))
    ensures ParseFileLine(NumstatLine(added, removed, path))
            == Item(FileStat(path, CountOf(added), CountOf(removed)))
  {
    MatchNumstatFields(CountText(added), CountText(removed), path);
    CountTextRoundTrip(added);
    CountTextRoundTrip(removed);
  }

  // Whitespace at the ends of a path.

  /** Every character of `w` is whitespace. */
  predicate AllSpace(w: string)
  {
    forall i :: 0 <= i < |w| ==> IsSpace(w[i])
  }

  /**
   * Whitespace at the start of a path is lost: the second `\s+` takes it along with the tab
   * before it, so the filename group starts at the path's first other character.
   */
  lemma LeadingPathSpaceLost(added: Option<nat>, removed: Option<nat>, lead: string, path: string)
    requires lead != [] && AllSpace(lead)
    requires '\n' !in path && (path == [] || !IsSpace(path[0]))
    ensures Match(NumstatLine(added, removed, lead + path)) == Some(Groups(CountText(added), CountText(removed), path))
    ensures ParseFileLine(NumstatLine(added, removed, lead + path))
            == Item(FileStat(path, CountOf(added), CountOf(removed)))
  {
    MatchLeadFields(CountText(added), CountText(removed), lead, path);
    CountTextRoundTrip(added);
    CountTextRoundTrip(removed);
  }

  lemma MatchLeadFields(a: string, r: string, lead: string, path: string)
    requires a != [] && IsCountField(a) && r != [] && IsCountField(r)
    requires lead != [] && AllSpace(lead)
    requires '\n' !in path && (path == [] || !IsSpace(path[0]))
    ensures Match(a + "\t" + r + "\t" + (lead + path)) == Some(Groups(a, r, path))
  {
    NumstatLayout(a, r, lead + path);
    MatchLeadLaidOut(a + "\t" + r + "\t" + (lead + path), a, r, lead, path);
  }

  lemma MatchLeadLaidOut(s: string, a: string, r: string, lead: string, path: string)
    requires LaidOut(s, a, r, lead + path)
    requires a != [] && IsCountField(a) && r != [] && IsCountField(r)
    requires lead != [] && AllSpace(lead)
    requires '\n' !in path && (path == [] || !IsSpace(path[0]))
    ensures Match(s) == Some(Groups(a, r, path))
  {
    var q := |a| + 1;
    var t := q + |r|;
    var f := t + 1 + |lead|;
    SpacesAreSpaceClass();
    LeadingSpaceEnds(IsSpace, s, a, r, lead, path);
    LaidOutSlices(s, a, r, lead + path);
    assert s[f..|s|] == path by {
      assert s[f..|s|] == s[t + 1..|s|][|lead|..];
    }
    MatchOfEnds(s, [|a|, q, t, f, |s|]);
  }

  /** Where the pieces of the pattern end on a numstat line whose path starts with whitespace. */
  lemma LeadingSpaceEnds(space: char -> bool, s: string, a: string, r: string, lead: string, path: string)
    requires SpaceClass(space) && space('\t') && LaidOut(s, a, r, lead + path)
    requires a != [] && IsCountField(a) && r != [] && IsCountField(r)
    requires lead != [] && forall i :: 0 <= i < |lead| ==> space(lead[i])
    requires '\n' !in path && (path == [] || !space(path[0]))
    ensures FileLineEnds(space, s) == Some([|a|, |a| + 1, |a| + 1 + |r|, |a| + |r| + 2 + |lead|, |s|])
  {
    var q := |a| + 1;
    var t := q + |r|;
    var f := t + 1 + |lead|;
    var rest := lead + path;
    AddedFieldEnds(space, s, a, r, rest);
    CountFieldEnd(space, s, q, r);
    forall i | t <= i < f ensures space(s[i]) {
      if i > t {
        assert s[i] == rest[i - t - 1] == lead[i - t - 1];
      }
    }
    assert f < |s| ==> s[f] == rest[|lead|] == path[0];
    SpanIs(s, t, space, 1 + |lead|);
    forall i | f <= i < f + |path| ensures NotNewline(s[i]) {
      assert s[i] == rest[i - t - 1] == path[i - f];
    }
    SpanIs(s, f, NotNewline, |path|);
  }
}
