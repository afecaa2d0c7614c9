/**
 * A reference semantics for the one regular expression git-reader.py uses on numstat
 * output, `^(-|[0-9]*)\s+(-|[0-9]*)\s+(.*)` (git-reader.py:24-25), applied with
 * `re.match`, i.e. anchored at the start and not required to reach the end.
 *
 * Python's matcher is a backtracking one: every piece of the pattern offers the places
 * where it could end, in a fixed order of preference (an alternation its left branch
 * first, a greedy repetition its longest run first), and the first combination of
 * choices under which the whole pattern succeeds decides the groups. `Backtrack` is that
 * search, written once for any list of pieces.
 */
module FileLineRegex {
  import opened Wrappers
  import opened Text

  /** `.` without the DOTALL flag: anything but a newline. */
  predicate NotNewline(c: char)
  {
    c != '\n'
  }

  /** The length of the longest run of characters satisfying `P` that starts at `p`. */
  function Span(s: string, p: nat, P: char -> bool): (k: nat)
    requires p <= |s|
    ensures p + k <= |s|
    decreases |s| - p
  {
    if p < |s| && P(s[p]) then 1 + Span(s, p + 1, P) else 0
  }

  /** Every character of the run satisfies `P`, and the one after it (if any) does not. */
  lemma {:induction false} SpanRun(s: string, p: nat, P: char -> bool)
    requires p <= |s|
    ensures forall i :: p <= i < p + Span(s, p, P) ==> P(s[i])
    ensures p + Span(s, p, P) == |s| || !P(s[p + Span(s, p, P)])
    decreases |s| - p
  {
    if p < |s| && P(s[p]) {
      SpanRun(s, p + 1, P);
    }
  }

  /** A run is determined by where it starts: any maximal run from `p` is the `Span`. */
  lemma SpanIs(s: string, p: nat, P: char -> bool, k: nat)
    requires p + k <= |s|
    requires forall i :: p <= i < p + k ==> P(s[i])
    requires p + k == |s| || !P(s[p + k])
    ensures Span(s, p, P) == k
    decreases k
  {
    if k > 0 {
      SpanIs(s, p + 1, P, k - 1);
    }
  }

  /** The length of the run of ASCII digits at `p`: the `Span` of the class `[0-9]`. */
  function Digits(s: string, p: nat): (k: nat)
    requires p <= |s|
    ensures p + k <= |s|
    decreases |s| - p
  {
    if p < |s| && IsDigit(s[p]) then 1 + Digits(s, p + 1) else 0
  }

  /** Every character of the digit run is a digit, and the one after it (if any) is not. */
  lemma {:induction false} DigitsRun(s: string, p: nat)
    requires p <= |s|
    ensures forall i :: p <= i < p + Digits(s, p) ==> IsDigit(s[i])
    ensures p + Digits(s, p) == |s| || !IsDigit(s[p + Digits(s, p)])
    decreases |s| - p
  {
    if p < |s| && IsDigit(s[p]) {
      DigitsRun(s, p + 1);
    }
  }

  /** Any maximal run of digits from `p` is the digit run. */
  lemma DigitsIs(s: string, p: nat, k: nat)
    requires p + k <= |s|
    requires forall i :: p <= i < p + k ==> IsDigit(s[i])
    requires p + k == |s| || !IsDigit(s[p + k])
    ensures Digits(s, p) == k
    decreases k
  {
    if k > 0 {
      DigitsIs(s, p + 1, k - 1);
    }
  }

  /** The shapes the group `(-|[0-9]*)` can capture: a dash, or a run (maybe empty) of digits. */
  predicate IsCountField(f: string)
  {
    f == "-" || forall i :: 0 <= i < |f| ==> IsDigit(f[i])
  }

  /** The pieces of the pattern after its anchor `^`. */
  datatype Piece =
    | CountGroup   // `(-|[0-9]*)`
    | Whitespace   // `\s+`
    | Remainder    // `(.*)`

  const FileLinePattern: seq<Piece> := [CountGroup, Whitespace, CountGroup, Whitespace, Remainder]

  /** `hi, hi - 1, ..., lo`. */
  function Descending(hi: nat, lo: nat): (r: seq<nat>)
    requires lo <= hi
    ensures |r| == hi - lo + 1 && r[0] == hi
    decreases hi - lo
  {
    if hi == lo then [lo] else [hi] + Descending(hi - 1, lo)
  }

  /** The `i`-th position of `Descending(hi, lo)` is `hi - i`. */
  lemma {:induction false} DescendingAt(hi: nat, lo: nat)
    requires lo <= hi
    ensures forall i :: 0 <= i < |Descending(hi, lo)| ==> Descending(hi, lo)[i] == hi - i
    decreases hi - lo
  {
    if hi > lo {
      DescendingAt(hi - 1, lo);
    }
  }

  /** The places where `piece`, tried at `p`, can end, in the order the matcher tries them. */
  function Ends(piece: Piece, space: char -> bool, s: string, p: nat): (r: seq<nat>)
    requires p <= |s|
    ensures forall i :: 0 <= i < |r| ==> p <= r[i] <= |s|
  {
    match piece
    case CountGroup =>
      // the literal `-` first, then `[0-9]*` from its longest run down to the empty one
      DescendingAt(p + Digits(s, p), p);
      (if p < |s| && s[p] == '-' then [p + 1] else []) + Descending(p + Digits(s, p), p)
    case Whitespace =>
      // `\s+` from its longest run down to a single character
      var k := Span(s, p, space);
      if k == 0 then [] else DescendingAt(p + k, p + 1); Descending(p + k, p + 1)
    case Remainder =>
      // `.*` from its longest run down to the empty one
      DescendingAt(p + Span(s, p, NotNewline), p);
      Descending(p + Span(s, p, NotNewline), p)
  }

  /** Positions in `[p, n]`, in non-decreasing order. */
  ghost predicate Ascending(p: nat, e: seq<nat>, n: nat)
  {
    && (forall i :: 0 <= i < |e| ==> p <= e[i] <= n)
    && (forall i, j :: 0 <= i <= j < |e| ==> e[i] <= e[j])
  }

  /**
   * The first way, in the matcher's order of preference, to match the pieces `pat[i..]`
   * one after the other from `p`: the end position of every piece, or None if there is no way.
   */
  function Backtrack(pat: seq<Piece>, space: char -> bool, i: nat, s: string, p: nat): (r: Option<seq<nat>>)
    requires i <= |pat| && p <= |s|
    ensures r.Some? ==> |r.value| == |pat| - i
    decreases |pat| - i, 1
  {
    if i == |pat| then Some([]) else TryEach(pat, space, i, s, p, Ends(pat[i], space, s, p))
  }

  /** Try the candidate ends `cands` of `pat[i]` in order, each followed by the rest of `pat`. */
  function TryEach(pat: seq<Piece>, space: char -> bool, i: nat, s: string, p: nat, cands: seq<nat>): (r: Option<seq<nat>>)
    requires i < |pat|
    requires forall k :: 0 <= k < |cands| ==> p <= cands[k] <= |s|
    ensures r.Some? ==> |r.value| == |pat| - i
    decreases |pat| - i, 0, |cands|
  {
    if cands == [] then None
    else
      match Backtrack(pat, space, i + 1, s, cands[0])
      case Some(rest) => Some([cands[0]] + rest)
      case None => TryEach(pat, space, i, s, p, cands[1..])
  }

  /** The three groups of a match, as `m.groups()` returns them. */
  datatype Groups = Groups(added: string, removed: string, fname: string)

  /** `file_line_expr.match(s)` (git-reader.py:25, git-reader.py:149). */
  function RegexMatch(s: string): (r: Option<Groups>)
    ensures r.Some? ==> IsCountField(r.value.added) && IsCountField(r.value.removed)
    ensures r.Some? ==> r.value.added <= s && '\n' !in r.value.fname
  {
    match Backtrack(FileLinePattern, IsSpace, 0, s, 0)
    case None => None
    case Some(e) =>
      BacktrackAscending(FileLinePattern, IsSpace, 0, s, 0);
      RegexGroupsShape(IsSpace, s, 0, e);
      assert s[..e[0]] == s[0..e[0]];
      Some(Groups(s[..e[0]], s[e[1]..e[2]], s[e[3]..e[4]]))
  }

  /**
   * What the groups of a successful search can hold: the two count groups are a dash or a
   * run of digits, and `(.*)` stops before any newline.
   */
  lemma RegexGroupsShape(space: char -> bool, s: string, p: nat, e: seq<nat>)
    requires p <= |s| && Backtrack(FileLinePattern, space, 0, s, p) == Some(e)
    ensures |e| == 5 && p <= e[0] <= |s| && IsCountField(s[p..e[0]])
    ensures e[1] <= e[2] <= |s| && IsCountField(s[e[1]..e[2]])
    ensures e[3] <= e[4] <= |s| && '\n' !in s[e[3]..e[4]]
  {
    assert |FileLinePattern| == 5;
    CountStep(space, 0, s, p);
    var t := e[1..];
    TailShape(space, s, e[0], t);
    assert t[0] == e[1] && t[1] == e[2] && t[2] == e[3] && t[3] == e[4];
  }

  /** The pieces after the first count group: the second count group and the remainder. */
  lemma TailShape(space: char -> bool, s: string, p: nat, t: seq<nat>)
    requires p <= |s| && Backtrack(FileLinePattern, space, 1, s, p) == Some(t)
    ensures |t| == 4 && t[0] <= t[1] <= t[2] <= |s| && IsCountField(s[t[0]..t[1]])
    ensures t[2] <= t[3] <= |s| && '\n' !in s[t[2]..t[3]]
  {
    WhitespaceStep(space, 1, s, p);
    CountStep(space, 2, s, t[0]);
    assert t[1..][0] == t[1] && t[1..][1..] == t[2..];
    WhitespaceStep(space, 3, s, t[1]);
    assert t[2..][0] == t[2] && t[2..][1..] == t[3..];
    RemainderStep(space, s, t[2]);
    assert t[3..][0] == t[3];
  }

  /** A count group of the pattern, matched at `p`: what it takes, and where the rest goes on. */
  lemma CountStep(space: char -> bool, i: nat, s: string, p: nat)
    requires i < |FileLinePattern| && FileLinePattern[i] == CountGroup && p <= |s|
    ensures var r := Backtrack(FileLinePattern, space, i, s, p);
            r.Some? ==> && p <= r.value[0] <= |s| && IsCountField(s[p..r.value[0]])
                        && Backtrack(FileLinePattern, space, i + 1, s, r.value[0]) == Some(r.value[1..])
  {
    var r := Backtrack(FileLinePattern, space, i, s, p);
    BacktrackStep(FileLinePattern, space, i, s, p);
    if r.Some? {
      CountGroupEnd(space, s, p, r.value[0]);
    }
  }

  /** A `\s+` of the pattern, matched at `p`: where the rest goes on. */
  lemma WhitespaceStep(space: char -> bool, i: nat, s: string, p: nat)
    requires i < |FileLinePattern| && FileLinePattern[i] == Whitespace && p <= |s|
    ensures var r := Backtrack(FileLinePattern, space, i, s, p);
            r.Some? ==> && p <= r.value[0] <= |s|
                        && Backtrack(FileLinePattern, space, i + 1, s, r.value[0]) == Some(r.value[1..])
  {
    BacktrackStep(FileLinePattern, space, i, s, p);
  }

  /** `(.*)` at `p`: what it takes has no newline. */
  lemma RemainderStep(space: char -> bool, s: string, p: nat)
    requires p <= |s|
    ensures var r := Backtrack(FileLinePattern, space, 4, s, p);
            r.Some? ==> p <= r.value[0] <= |s| && '\n' !in s[p..r.value[0]]
  {
    var r := Backtrack(FileLinePattern, space, 4, s, p);
    assert FileLinePattern[4] == Remainder;
    BacktrackStep(FileLinePattern, space, 4, s, p);
    if r.Some? {
      RemainderEnd(space, s, p, r.value[0]);
    }
  }

  /** A successful search ends its first piece at one of that piece's candidates, and the rest of the search goes on from there. */
  lemma BacktrackStep(pat: seq<Piece>, space: char -> bool, i: nat, s: string, p: nat)
    requires i < |pat| && p <= |s|
    ensures var r := Backtrack(pat, space, i, s, p);
            r.Some? ==> && r.value[0] in Ends(pat[i], space, s, p)
                        && r.value[0] <= |s|
                        && Backtrack(pat, space, i + 1, s, r.value[0]) == Some(r.value[1..])
  {
    TryEachHead(pat, space, i, s, p, Ends(pat[i], space, s, p));
  }

  lemma {:induction false} TryEachHead(pat: seq<Piece>, space: char -> bool, i: nat, s: string, p: nat, cands: seq<nat>)
    requires i < |pat|
    requires forall k :: 0 <= k < |cands| ==> p <= cands[k] <= |s|
    ensures var r := TryEach(pat, space, i, s, p, cands);
            r.Some? ==> && r.value[0] in cands
                        && r.value[0] <= |s|
                        && Backtrack(pat, space, i + 1, s, r.value[0]) == Some(r.value[1..])
    decreases |cands|
  {
    if cands != [] {
      var rest := Backtrack(pat, space, i + 1, s, cands[0]);
      if rest.Some? {
        assert ([cands[0]] + rest.value)[1..] == rest.value;
      } else {
        TryEachHead(pat, space, i, s, p, cands[1..]);
      }
    }
  }

  /** Every place `(-|[0-9]*)` can end at delimits a dash or a run of digits. */
  lemma CountGroupEnd(space: char -> bool, s: string, p: nat, x: nat)
    requires p <= |s| && x in Ends(CountGroup, space, s, p)
    ensures p <= x <= |s| && IsCountField(s[p..x])
  {
    var d := Digits(s, p);
    var dash := if p < |s| && s[p] == '-' then [p + 1] else [];
    var desc := Descending(p + d, p);
    assert Ends(CountGroup, space, s, p) == dash + desc;
    if x in dash {
      assert s[p..x] == "-";
    } else {
      DescendingAt(p + d, p);
      DigitsRun(s, p);
      var k :| 0 <= k < |desc| && desc[k] == x;
      assert p <= x <= p + d;
      assert forall j :: 0 <= j < x - p ==> s[p..x][j] == s[p + j];
    }
  }

  /** Every place `.*` can end at leaves no newline in what it took. */
  lemma RemainderEnd(space: char -> bool, s: string, p: nat, x: nat)
    requires p <= |s| && x in Ends(Remainder, space, s, p)
    ensures p <= x <= |s| && '\n' !in s[p..x]
  {
    var k := Span(s, p, NotNewline);
    var desc := Descending(p + k, p);
    DescendingAt(p + k, p);
    SpanRun(s, p, NotNewline);
    var j :| 0 <= j < |desc| && desc[j] == x;
    assert p <= x <= p + k;
    forall j | 0 <= j < x - p ensures s[p..x][j] != '\n' {
      assert s[p..x][j] == s[p + j];
      assert NotNewline(s[p + j]);
    }
  }

  /** The end positions a successful search reports lie in order between its start and the end. */
  lemma {:induction false} BacktrackAscending(pat: seq<Piece>, space: char -> bool, i: nat, s: string, p: nat)
    requires i <= |pat| && p <= |s|
    ensures Backtrack(pat, space, i, s, p).Some? ==> Ascending(p, Backtrack(pat, space, i, s, p).value, |s|)
    decreases |pat| - i, 1
  {
    if i < |pat| {
      TryEachAscending(pat, space, i, s, p, Ends(pat[i], space, s, p));
    }
  }

  lemma {:induction false} TryEachAscending(pat: seq<Piece>, space: char -> bool, i: nat, s: string, p: nat, cands: seq<nat>)
    requires i < |pat|
    requires forall k :: 0 <= k < |cands| ==> p <= cands[k] <= |s|
    ensures TryEach(pat, space, i, s, p, cands).Some? ==> Ascending(p, TryEach(pat, space, i, s, p, cands).value, |s|)
    decreases |pat| - i, 0, |cands|
  {
    if cands != [] {
      var c := cands[0];
      var r := Backtrack(pat, space, i + 1, s, c);
      BacktrackAscending(pat, space, i + 1, s, c);
      if r.Some? {
        var e := [c] + r.value;
        assert forall k :: 1 <= k < |e| ==> e[k] == r.value[k - 1];
      } else {
        TryEachAscending(pat, space, i, s, p, cands[1..]);
      }
    }
  }

  /** A candidate after which the rest matches is taken. */
  lemma FirstWorks(pat: seq<Piece>, space: char -> bool, i: nat, s: string, p: nat, cands: seq<nat>)
    requires i < |pat| && cands != []
    requires forall k :: 0 <= k < |cands| ==> p <= cands[k] <= |s|
    requires Backtrack(pat, space, i + 1, s, cands[0]).Some?
    ensures TryEach(pat, space, i, s, p, cands) == Some([cands[0]] + Backtrack(pat, space, i + 1, s, cands[0]).value)
  {
  }

  /** `\s+` takes its whole run when the rest of the pattern matches after it. */
  lemma WhitespaceTaken(pat: seq<Piece>, space: char -> bool, i: nat, s: string, p: nat, rest: seq<nat>)
    requires i < |pat| && pat[i] == Whitespace && p <= |s| && Span(s, p, space) > 0
    requires Backtrack(pat, space, i + 1, s, p + Span(s, p, space)) == Some(rest)
    ensures Backtrack(pat, space, i, s, p) == Some([p + Span(s, p, space)] + rest)
  {
    var cands := Ends(Whitespace, space, s, p);
    assert cands[0] == p + Span(s, p, space);
    FirstWorks(pat, space, i, s, p, cands);
  }

  /** `\s+` fails where no whitespace starts. */
  lemma WhitespaceFails(pat: seq<Piece>, space: char -> bool, i: nat, s: string, p: nat)
    requires i < |pat| && pat[i] == Whitespace && p <= |s| && Span(s, p, space) == 0
    ensures Backtrack(pat, space, i, s, p).None?
  {
    assert Ends(Whitespace, space, s, p) == [];
  }

  /** A candidate after which the rest cannot match is passed over for the next one. */
  lemma FirstFails(pat: seq<Piece>, space: char -> bool, i: nat, s: string, p: nat, cands: seq<nat>)
    requires i < |pat| && cands != []
    requires forall k :: 0 <= k < |cands| ==> p <= cands[k] <= |s|
    requires Backtrack(pat, space, i + 1, s, cands[0]).None?
    ensures TryEach(pat, space, i, s, p, cands) == TryEach(pat, space, i, s, p, cands[1..])
  {
  }

  /** If no candidate leads to a match of the rest, the piece fails. */
  lemma {:induction false} NoCandidateWorks(pat: seq<Piece>, space: char -> bool, i: nat, s: string, p: nat, cands: seq<nat>)
    requires i < |pat|
    requires forall k :: 0 <= k < |cands| ==> p <= cands[k] <= |s|
    requires forall k :: 0 <= k < |cands| ==> Backtrack(pat, space, i + 1, s, cands[k]).None?
    ensures TryEach(pat, space, i, s, p, cands).None?
  {
    if cands != [] {
      assert Backtrack(pat, space, i + 1, s, cands[0]).None?;
      NoCandidateWorks(pat, space, i, s, p, cands[1..]);
    }
  }
}
