/** The Python 2 string operations the parsers are written with: `str.split`
    with and without a separator, `re.split(r'\s+', ...)`, `str.strip`,
    `str.find`, the regular-expression scans `re.match`/`re.search`/
    `re.findall` for the patterns the checks use, and the conversions `int()`,
    `long()`, `float()` and `str()` of an integer. Strings are `seq<char>`;
    Python 2 `str` is a byte string, and every pattern here is ASCII. */
module Text {
  import opened Common
  import opened Seqs

  /** The characters Python 2 treats as whitespace in `str.split()`,
      `str.strip()` and the regular-expression class `\s`. */
  predicate IsSpace(c: char) {
    c == ' ' || c == '\t' || c == '\n' || c == '\r' || c == '\U{B}' || c == '\U{C}'
  }

  predicate NotSpace(c: char) { !IsSpace(c) }

  /** `[0-9]`, which is also `\d` for a byte-string pattern. */
  predicate IsDigit(c: char) { '0' <= c <= '9' }

  predicate All(s: string, p: char -> bool) {
    forall i :: 0 <= i < |s| ==> p(s[i])
  }

  predicate IsDigits(s: string) { |s| > 0 && All(s, IsDigit) }

  /** Length of the longest prefix of `s` whose characters satisfy `p`. */
  function Span(s: string, p: char -> bool): (n: nat)
    ensures n <= |s| && All(s[..n], p)
    ensures n < |s| ==> !p(s[n])
    ensures |s| > 0 && p(s[0]) ==> n > 0
    decreases |s|
  {
    if |s| == 0 || !p(s[0]) then 0
    else
      var n := 1 + Span(s[1..], p);
      assert forall i :: 1 <= i < n ==> s[..n][i] == s[1..][..n - 1][i - 1];
      n
  }

  /** A prefix made of `p`-characters and ended by a non-`p` character is
      exactly what `Span` measures. */
  lemma {:induction false} SpanExact(s: string, p: char -> bool, j: nat)
    requires j <= |s| && All(s[..j], p) && (j < |s| ==> !p(s[j]))
    ensures Span(s, p) == j
    decreases j
  {
    if j > 0 {
      assert s[0] == s[..j][0];
      assert s[1..][..j - 1] == s[..j][1..];
      SpanExact(s[1..], p, j - 1);
    }
  }

  /** Length of the longest suffix of `s` whose characters satisfy `p`. */
  function TrailSpan(s: string, p: char -> bool): (n: nat)
    ensures n <= |s| && All(s[|s| - n..], p)
    ensures n < |s| ==> !p(s[|s| - n - 1])
    decreases |s|
  {
    if |s| == 0 || !p(s[|s| - 1]) then 0
    else
      var t := s[..|s| - 1];
      var m := TrailSpan(t, p);
      var n := 1 + m;
      assert All(s[|s| - n..], p) by {
        forall i | |s| - n <= i < |s| ensures p(s[i]) {
          if i < |s| - 1 {
            assert s[i] == t[|t| - m..][i - (|t| - m)];
          }
        }
      }
      assert n < |s| ==> s[|s| - n - 1] == t[|t| - m - 1];
      n
  }

  /** The maximal runs of characters satisfying `p`, from left to right. This
      is `re.findall` of a pattern `[...]+` for a character class, and, with
      `NotSpace`, it is `str.split()` (see `Words`). */
  function Runs(s: string, p: char -> bool): (r: seq<string>)
    ensures forall k :: 0 <= k < |r| ==> |r[k]| > 0 && All(r[k], p)
    ensures |r| == 0 <==> forall i :: 0 <= i < |s| ==> !p(s[i])
    decreases |s|
  {
    if |s| == 0 then []
    else if !p(s[0]) then
      var r := Runs(s[1..], p);
      assert forall i :: 1 <= i < |s| ==> s[i] == s[1..][i - 1];
      r
    else
      var n := Span(s, p);
      [s[..n]] + Runs(s[n..], p)
  }

  /** Python's `str.split()`: the maximal runs of non-whitespace. */
  function Words(s: string): (r: seq<string>)
    ensures forall k :: 0 <= k < |r| ==> |r[k]| > 0 && All(r[k], NotSpace)
  {
    Runs(s, NotSpace)
  }

  /** Words separated by single spaces; the inverse of `Words`. */
  function Unwords(ws: seq<string>): string
  {
    if |ws| == 0 then "" else if |ws| == 1 then ws[0] else ws[0] + " " + Unwords(ws[1..])
  }

  lemma {:induction false} RunsAfterWord(w: string, c: char, t: string, p: char -> bool)
    requires |w| > 0 && All(w, p) && !p(c)
    ensures Runs(w + [c] + t, p) == [w] + Runs(t, p)
  {
    var s := w + [c] + t;
    assert s[..|w|] == w;
    assert s[|w|] == c;
    SpanExact(s, p, |w|);
    assert s[|w|..] == [c] + t;
    assert ([c] + t)[1..] == t;
  }

  /** Splitting words that were joined with spaces gives the words back. */
  lemma {:induction false} WordsOfUnwords(ws: seq<string>)
    requires forall k :: 0 <= k < |ws| ==> |ws[k]| > 0 && All(ws[k], NotSpace)
    ensures Words(Unwords(ws)) == ws
    decreases |ws|
  {
    if |ws| == 1 {
      var w := ws[0];
      SpanExact(w, NotSpace, |w|);
      assert w[..|w|] == w && w[|w|..] == [];
    } else if |ws| > 1 {
      WordsOfUnwords(ws[1..]);
      RunsAfterWord(ws[0], ' ', Unwords(ws[1..]), NotSpace);
      assert ws[0] + " " + Unwords(ws[1..]) == ws[0] + [' '] + Unwords(ws[1..]);
    }
  }

  /** Python's `re.split(r'\s+', s)`: the pieces between maximal runs of
      whitespace, keeping the empty piece before leading whitespace and the
      one after trailing whitespace. */
  function SplitRuns(s: string): (r: seq<string>)
    ensures |r| >= 1
    ensures forall k :: 0 <= k < |r| ==> All(r[k], NotSpace)
    decreases |s|
  {
    var n := Span(s, NotSpace);
    if n == |s| then
      assert s[..n] == s;
      [s]
    else
      var m := n + Span(s[n..], IsSpace);
      [s[..n]] + SplitRuns(s[m..])
  }

  /** Pieces with the gaps between them: `pieces[0] + gaps[0] + pieces[1]
      + ...`. */
  function Interleave(pieces: seq<string>, gaps: seq<string>): string
    requires |gaps| + 1 == |pieces|
    decreases |gaps|
  {
    if |gaps| == 0 then pieces[0] else pieces[0] + gaps[0] + Interleave(pieces[1..], gaps[1..])
  }

  lemma InterleaveCons(p: string, ps: seq<string>, g: string, gs: seq<string>)
    requires |gs| + 1 == |ps|
    ensures Interleave([p] + ps, [g] + gs) == p + g + Interleave(ps, gs)
  {
    assert ([p] + ps)[1..] == ps && ([g] + gs)[1..] == gs;
  }

  lemma Split3(s: string, n: nat, m: nat)
    requires n <= m <= |s|
    ensures s == s[..n] + s[n..m] + s[m..]
  {
    assert s[..m] == s[..n] + s[n..m];
    assert s == s[..m] + s[m..];
  }

  /** One cut of `re.split(r'\s+', s)`: the first piece, the whitespace
      run after it, and the rest, whose split starts with a non-empty piece
      unless the rest is empty. */
  lemma SplitRunsStep(s: string) returns (n: nat, m: nat)
    requires Span(s, NotSpace) < |s|
    ensures n == Span(s, NotSpace) && m == n + Span(s[n..], IsSpace)
    ensures n < m <= |s| && SplitRuns(s) == [s[..n]] + SplitRuns(s[m..]) && Gaps(s) == [s[n..m]] + Gaps(s[m..])
    ensures m < |s| ==> |SplitRuns(s[m..])[0]| > 0
  {
    n := Span(s, NotSpace);
    m := n + Span(s[n..], IsSpace);
    var r := SplitRuns(s);
    assert r == [s[..n]] + SplitRuns(s[m..]);
    if m < |s| {
      SplitRunsHead(s[m..]);
    }
  }

  lemma SplitRunsHead(t: string)
    requires |t| > 0 && NotSpace(t[0])
    ensures |SplitRuns(t)[0]| > 0
  {
    var n := Span(t, NotSpace);
    if n < |t| {
      assert SplitRuns(t)[0] == t[..n];
    }
  }

  /** A non-empty run of whitespace. */
  predicate IsGap(g: string) { |g| > 0 && All(g, IsSpace) }

  /** The whitespace runs `re.split(r'\s+', s)` cuts at, from left to
      right. */
  function Gaps(s: string): (g: seq<string>)
    ensures forall k :: 0 <= k < |g| ==> IsGap(g[k])
    decreases |s|
  {
    var n := Span(s, NotSpace);
    if n == |s| then []
    else
      var m := n + Span(s[n..], IsSpace);
      assert s[n..m] == s[n..][..m - n];
      [s[n..m]] + Gaps(s[m..])
  }

  /** `re.split(r'\s+', s)` loses nothing: the pieces, put back together
      with the whitespace runs between them, give `s`. */
  lemma {:induction false} SplitRunsJoin(s: string)
    ensures |Gaps(s)| + 1 == |SplitRuns(s)| && Interleave(SplitRuns(s), Gaps(s)) == s
    decreases |s|
  {
    if Span(s, NotSpace) == |s| {
      assert s[..|s|] == s;
    } else {
      var n, m := SplitRunsStep(s);
      Split3(s, n, m);
      SplitRunsJoin(s[m..]);
      InterleaveCons(s[..n], SplitRuns(s[m..]), s[n..m], Gaps(s[m..]));
    }
  }

  /** The runs `re.split(r'\s+', s)` cuts at are maximal: every piece
      between two of them is non-empty. */
  lemma {:induction false} SplitRunsInterior(s: string)
    ensures forall k :: 0 < k < |SplitRuns(s)| - 1 ==> |SplitRuns(s)[k]| > 0
    decreases |s|
  {
    if Span(s, NotSpace) < |s| {
      var n, m := SplitRunsStep(s);
      SplitRunsInterior(s[m..]);
      var r, rest := SplitRuns(s), SplitRuns(s[m..]);
      forall k | 0 < k < |r| - 1 ensures |r[k]| > 0 {
        assert r[k] == rest[k - 1];
      }
    }
  }

  /** No character of `t` satisfies `p`. */
  predicate NoneIn(t: string, p: char -> bool) {
    forall i :: 0 <= i < |t| ==> !p(t[i])
  }

  predicate NonEmpty(t: string) { |t| > 0 }

  /** The stretches around the runs of `Runs(s, p)`: before the first run,
      between each two runs, and after the last. */
  function RunGaps(s: string, p: char -> bool): (g: seq<string>)
    ensures |g| == |Runs(s, p)| + 1
    decreases |s|
  {
    if |s| == 0 then [""]
    else if !p(s[0]) then
      var g := RunGaps(s[1..], p);
      [[s[0]] + g[0]] + g[1..]
    else
      [""] + RunGaps(s[Span(s, p)..], p)
  }

  /** No stretch holds a `p`-character. */
  lemma {:induction false} RunGapsOutside(s: string, p: char -> bool)
    ensures forall k :: 0 <= k < |RunGaps(s, p)| ==> NoneIn(RunGaps(s, p)[k], p)
    decreases |s|
  {
    if |s| > 0 && !p(s[0]) {
      RunsSkipOne(s, p);
      RunGapsOutside(s[1..], p);
      var h := RunGaps(s[1..], p)[0];
      assert NoneIn([s[0]] + h, p) by {
        assert forall i :: 1 <= i < |[s[0]] + h| ==> ([s[0]] + h)[i] == h[i - 1];
      }
    } else if |s| > 0 {
      var n := RunsTakeOne(s, p);
      RunGapsOutside(s[n..], p);
    }
  }

  lemma InterleaveHead(c: string, pieces: seq<string>, gaps: seq<string>)
    requires |gaps| + 1 == |pieces|
    ensures Interleave([c + pieces[0]] + pieces[1..], gaps) == c + Interleave(pieces, gaps)
  {
    var ps := [c + pieces[0]] + pieces[1..];
    assert ps[0] == c + pieces[0] && ps[1..] == pieces[1..];
  }

  /** A non-`p` character at the front joins the first stretch. */
  lemma RunsSkipOne(s: string, p: char -> bool)
    requires |s| > 0 && !p(s[0])
    ensures var g := RunGaps(s[1..], p);
      Runs(s, p) == Runs(s[1..], p) && RunGaps(s, p) == [[s[0]] + g[0]] + g[1..] && s == [s[0]] + s[1..]
  {
  }

  /** A `p`-character at the front starts the first run. */
  lemma RunsTakeOne(s: string, p: char -> bool) returns (n: nat)
    requires |s| > 0 && p(s[0])
    ensures n == Span(s, p) && 0 < n <= |s| && s == s[..n] + s[n..] && (n < |s| ==> !p(s[n]))
    ensures Runs(s, p) == [s[..n]] + Runs(s[n..], p) && RunGaps(s, p) == [""] + RunGaps(s[n..], p)
  {
    n := Span(s, p);
  }

  /** The runs lose nothing: with the stretches around them they give back
      `s`. Together with `RunsApart` and `Runs`' own contract this fixes
      `re.findall` of a character class `[...]+`, and `str.split()`
      (`Words`). */
  lemma {:induction false} RunsJoin(s: string, p: char -> bool)
    ensures Interleave(RunGaps(s, p), Runs(s, p)) == s
    decreases |s|
  {
    if |s| > 0 && !p(s[0]) {
      RunsJoin(s[1..], p);
      JoinSkipStep(s, p);
    } else if |s| > 0 {
      RunsJoin(s[Span(s, p)..], p);
      JoinTakeStep(s, p);
    }
  }

  lemma JoinSkipStep(s: string, p: char -> bool)
    requires |s| > 0 && !p(s[0])
    requires Interleave(RunGaps(s[1..], p), Runs(s[1..], p)) == s[1..]
    ensures Interleave(RunGaps(s, p), Runs(s, p)) == s
  {
    RunsSkipOne(s, p);
    InterleaveHead([s[0]], RunGaps(s[1..], p), Runs(s[1..], p));
  }

  lemma JoinTakeStep(s: string, p: char -> bool)
    requires |s| > 0 && p(s[0])
    requires var n := Span(s, p); Interleave(RunGaps(s[n..], p), Runs(s[n..], p)) == s[n..]
    ensures Interleave(RunGaps(s, p), Runs(s, p)) == s
  {
    var n := RunsTakeOne(s, p);
    JoinAfterRun(s[..n], s[n..], RunGaps(s[n..], p), Runs(s[n..], p));
  }

  lemma JoinAfterRun(head: string, rest: string, g: seq<string>, r: seq<string>)
    requires |g| == |r| + 1 && Interleave(g, r) == rest
    ensures Interleave([""] + g, [head] + r) == head + rest
  {
    InterleaveCons("", g, head, r);
    assert "" + head == head;
  }

  /** Every stretch between two runs is non-empty, so the runs are
      maximal. */
  lemma {:induction false} RunsApart(s: string, p: char -> bool)
    ensures forall k :: 0 < k < |Runs(s, p)| ==> |RunGaps(s, p)[k]| > 0
    decreases |s|
  {
    if |s| > 0 && !p(s[0]) {
      RunsSkipOne(s, p);
      RunsApart(s[1..], p);
    } else if |s| > 0 {
      var n := RunsTakeOne(s, p);
      RunsApart(s[n..], p);
      if |Runs(s[n..], p)| > 0 {
        assert n < |s|;
        RunsSkipOne(s[n..], p);
      }
    }
  }

  /** Characters that are not `p` at the front of `s` start no run. */
  lemma {:induction false} RunsSkip(s: string, p: char -> bool, j: nat)
    requires j <= |s| && NoneIn(s[..j], p)
    ensures Runs(s, p) == Runs(s[j..], p)
    decreases j
  {
    if j > 0 {
      assert s[0] == s[..j][0];
      var t := s[1..][..j - 1];
      forall i | 0 <= i < |t| ensures !p(t[i]) {
        assert t[i] == s[..j][i + 1];
      }
      RunsSkip(s[1..], p, j - 1);
      assert s[1..][j - 1..] == s[j..];
    }
  }

  lemma SpacesSkipped(t: string, k: nat)
    requires k == Span(t, IsSpace)
    ensures Runs(t, NotSpace) == Runs(t[k..], NotSpace)
  {
    assert NoneIn(t[..k], NotSpace) by {
      assert All(t[..k], IsSpace);
    }
    RunsSkip(t, NotSpace, k);
  }

  /** One piece of `re.split(r'\s+')` and the words it contributes. */
  lemma WordsStep(s: string) returns (n: nat, m: nat)
    requires Span(s, NotSpace) < |s|
    ensures n < m <= |s| && SplitRuns(s) == [s[..n]] + SplitRuns(s[m..])
    ensures Words(s) == (if n > 0 then [s[..n]] else []) + Words(s[m..])
  {
    n, m := SplitRunsStep(s);
    var t, k := s[n..], m - n;
    SpacesSkipped(t, k);
    assert t[k..] == s[m..];
    if n == 0 {
      assert t == s;
    } else {
      var n' := RunsTakeOne(s, NotSpace);
    }
  }

  /** `str.split()` is `re.split(r'\s+')` without its empty pieces. */
  lemma {:induction false} WordsSplitRuns(s: string)
    ensures Words(s) == Filter(SplitRuns(s), NonEmpty)
    decreases |s|
  {
    if Span(s, NotSpace) == |s| {
      assert s[..|s|] == s && s[|s|..] == [];
    } else {
      var n, m := WordsStep(s);
      WordsSplitRuns(s[m..]);
      FilterCons(s[..n], SplitRuns(s[m..]), NonEmpty);
    }
  }

  /** Python's `str.strip()`. */
  function Strip(s: string): (r: string)
    ensures |r| <= |s|
    ensures |r| > 0 ==> NotSpace(r[0]) && NotSpace(r[|r| - 1])
    ensures All(s, NotSpace) ==> r == s
  {
    var t := s[Span(s, IsSpace)..];
    var r := t[..|t| - TrailSpan(t, IsSpace)];
    assert |t| > 0 ==> NotSpace(t[0]);
    assert |r| > 0 ==> r[0] == t[0];
    r
  }

  /** `strip()` removes only whitespace: the input is the result with a
      run of whitespace before it and one after it. */
  lemma StripTrims(s: string) returns (a: string, b: string)
    ensures s == a + Strip(s) + b && All(a, IsSpace) && All(b, IsSpace)
  {
    var n := Span(s, IsSpace);
    var t := s[n..];
    var m := TrailSpan(t, IsSpace);
    a, b := s[..n], t[|t| - m..];
    assert Strip(s) == t[..|t| - m] == s[n..|s| - m];
    assert b == s[|s| - m..];
    Split3(s, n, |s| - m);
  }

  /** A separator occurs in `s` at position `i`. */
  predicate OccursAt(s: string, sep: string, i: nat) {
    i + |sep| <= |s| && s[i..i + |sep|] == sep
  }

  lemma OccursAtTail(s: string, sep: string)
    requires |s| > 0
    ensures forall i: nat :: 0 < i ==> (OccursAt(s, sep, i) <==> OccursAt(s[1..], sep, i - 1))
  {
    forall i: nat | 0 < i ensures OccursAt(s, sep, i) <==> OccursAt(s[1..], sep, i - 1) {
      if i + |sep| <= |s| {
        var a, b := s[1..][i - 1..i - 1 + |sep|], s[i..i + |sep|];
        assert forall k :: 0 <= k < |sep| ==> a[k] == b[k];
      }
    }
  }

  /** Python's `str.find(sep)`, with `None` for -1: the first position at
      which `sep` occurs. */
  function IndexOf(s: string, sep: string): (r: Option<nat>)
    requires |sep| > 0
    ensures r.Some? ==> OccursAt(s, sep, r.value)
    ensures forall i: nat :: (r.None? || i < r.value) ==> !OccursAt(s, sep, i)
    decreases |s|
  {
    if |s| < |sep| then None
    else if s[..|sep|] == sep then Some(0)
    else
      var r := IndexOf(s[1..], sep);
      OccursAtTail(s, sep);
      assert s[0..|sep|] == s[..|sep|];
      match r
      case None => None
      case Some(i) => Some(i + 1)
  }

  /** Python's `sub in s` for strings. */
  predicate Contains(s: string, sub: string)
    requires |sub| > 0
  {
    IndexOf(s, sub).Some?
  }

  /** Pieces joined with a separator; the inverse of `SplitOn`. */
  function Join(parts: seq<string>, sep: string): string
  {
    if |parts| == 0 then "" else if |parts| == 1 then parts[0] else parts[0] + sep + Join(parts[1..], sep)
  }

  lemma JoinCons(a: string, rest: seq<string>, sep: string)
    requires |rest| >= 1
    ensures Join([a] + rest, sep) == a + sep + Join(rest, sep)
  {
    assert ([a] + rest)[1..] == rest;
  }

  lemma SplitAround(s: string, sep: string, i: nat)
    requires OccursAt(s, sep, i)
    ensures s == s[..i] + sep + s[i + |sep|..]
  {
    assert s == s[..i] + s[i..i + |sep|] + s[i + |sep|..];
  }

  /** Python's `s.split(sep)` for a non-empty separator. */
  function SplitOn(s: string, sep: string): (r: seq<string>)
    requires |sep| > 0
    ensures |r| >= 1 && Join(r, sep) == s
    ensures |r| == 1 <==> IndexOf(s, sep).None?
    decreases |s|
  {
    match IndexOf(s, sep)
    case None => [s]
    case Some(i) =>
      var rest := SplitOn(s[i + |sep|..], sep);
      SplitAround(s, sep, i);
      JoinCons(s[..i], rest, sep);
      [s[..i]] + rest
  }

  /** No piece of the split holds the separator. */
  lemma {:induction false} SplitOnPieces(s: string, sep: string)
    requires |sep| > 0
    ensures forall k :: 0 <= k < |SplitOn(s, sep)| ==> IndexOf(SplitOn(s, sep)[k], sep).None?
    decreases |s|
  {
    match IndexOf(s, sep)
    case None =>
    case Some(i) =>
      var head := s[..i];
      forall p: nat ensures !OccursAt(head, sep, p) {
        if OccursAt(head, sep, p) {
          assert s[p..p + |sep|] == head[p..p + |sep|];
          assert OccursAt(s, sep, p);
        }
      }
      SplitOnPieces(s[i + |sep|..], sep);
      assert SplitOn(s, sep) == [head] + SplitOn(s[i + |sep|..], sep);
  }

  /** A line without the single-character separator, followed by the
      separator, is the first piece of the split. */
  lemma SplitOnFirst(h: string, sep: string, rest: string)
    requires |sep| == 1 && forall i :: 0 <= i < |h| ==> h[i] != sep[0]
    ensures SplitOn(h + sep + rest, sep) == [h] + SplitOn(rest, sep)
  {
    var s := h + sep + rest;
    assert OccursAt(s, sep, |h|) by { assert s[|h|..|h| + 1] == sep; }
    forall i: nat | i < |h| ensures !OccursAt(s, sep, i) {
      assert s[i..i + 1] == [h[i]];
    }
    var r := IndexOf(s, sep);
    assert r == Some(|h|);
    assert s[|h| + 1..] == rest && s[..|h|] == h;
  }

  /** Python's `re.search('[0-9]+', s)`: the first maximal run of digits. */
  function FirstDigitRun(s: string): (r: Option<string>)
    ensures r.Some? ==> IsDigits(r.value)
    ensures r.None? <==> forall i :: 0 <= i < |s| ==> !IsDigit(s[i])
  {
    var runs := Runs(s, IsDigit);
    if |runs| == 0 then None else Some(runs[0])
  }

  /** No character before position `i` satisfies `p`. */
  predicate NoneBefore(s: string, p: char -> bool, i: nat) {
    forall k :: 0 <= k < i && k < |s| ==> !p(s[k])
  }

  lemma NoneBeforeShift(s: string, p: char -> bool, j: nat)
    requires |s| > 0 && !p(s[0]) && NoneBefore(s[1..], p, j)
    ensures NoneBefore(s, p, j + 1)
  {
    forall k | 0 < k < j + 1 && k < |s| ensures !p(s[k]) {
      assert s[k] == s[1..][k - 1];
    }
  }

  /** The first run sits at a position `i` with no `p`-character before it
      and a non-`p` character (or the end) after it. */
  lemma {:induction false} RunsFirst(s: string, p: char -> bool) returns (i: nat)
    requires |Runs(s, p)| > 0
    ensures var t := Runs(s, p)[0];
      i + |t| <= |s| && s[i..i + |t|] == t &&
      NoneBefore(s, p, i) && (i + |t| < |s| ==> !p(s[i + |t|]))
    decreases |s|
  {
    if !p(s[0]) {
      assert Runs(s, p) == Runs(s[1..], p);
      var j := RunsFirst(s[1..], p);
      i := j + 1;
      var t := Runs(s, p)[0];
      assert s[i..i + |t|] == s[1..][j..j + |t|];
      NoneBeforeShift(s, p, j);
      if i + |t| < |s| {
        assert s[i + |t|] == s[1..][j + |t|];
      }
    } else {
      i := 0;
      var n := Span(s, p);
      assert Runs(s, p)[0] == s[..n] == s[0..n];
    }
  }

  /** `re.search('[0-9]+', s)` finds the leftmost digit and takes the whole
      run of digits from there. */
  lemma FirstDigitRunAt(s: string) returns (i: nat)
    requires FirstDigitRun(s).Some?
    ensures var t := FirstDigitRun(s).value;
      i + |t| <= |s| && s[i..i + |t|] == t &&
      (forall k :: 0 <= k < i ==> !IsDigit(s[k])) && (i + |t| < |s| ==> !IsDigit(s[i + |t|]))
  {
    i := RunsFirst(s, IsDigit);
    assert NoneBefore(s, IsDigit, i);
  }

  /** True when `t` is a run of digits, one separator from `seps`, and a
      second run of digits. */
  predicate IsDecimal(t: string, seps: set<char>) {
    var j := Span(t, IsDigit);
    0 < j && j + 1 < |t| && t[j] in seps && IsDigits(t[j + 1..])
  }

  /** A match of `[0-9]+[<seps>][0-9]+` can start at the beginning of `t`:
      its run of digits is followed by a separator and a digit. (No
      separator is a digit, so backtracking into the run cannot help.) */
  predicate StartsMatch(t: string, seps: set<char>) {
    var j := Span(t, IsDigit);
    0 < j && j + 1 < |t| && t[j] in seps && IsDigit(t[j + 1])
  }

  /** The length of the match at the start of `t`: the first run of
      digits, the separator, and the whole second run of digits. */
  function MatchLen(t: string, seps: set<char>): (k: nat)
    requires StartsMatch(t, seps)
    ensures Span(t, IsDigit) + 1 < k <= |t|
  {
    var j := Span(t, IsDigit);
    j + 1 + Span(t[j + 1..], IsDigit)
  }

  /** Python's `re.findall('[0-9]+[<seps>][0-9]+', s)`: the leftmost
      non-overlapping matches, from left to right. A match starts where a run
      of digits is followed by a separator and a digit; the match then takes
      the whole second run of digits. */
  function Decimals(s: string, seps: set<char>): (r: seq<string>)
    ensures forall k :: 0 <= k < |r| ==> IsDecimal(r[k], seps)
    decreases |s|
  {
    if |s| == 0 then []
    else
      var j := Span(s, IsDigit);
      if StartsMatch(s, seps) then
        var k := MatchLen(s, seps);
        var t := s[..k];
        assert IsDecimal(t, seps) by {
          assert t[..j] == s[..j];
          SpanExact(t, IsDigit, j);
          assert t[j + 1..] == s[j + 1..][..k - j - 1];
        }
        [t] + Decimals(s[k..], seps)
      else
        Decimals(s[1..], seps)
  }

  /** One step of `Decimals` at a position where a match starts: `j`
      digits, a separator, the digits `t`, and then a non-digit. */
  lemma DecimalsMatch(s: string, seps: set<char>, j: nat, t: string, u: string)
    requires j == Span(s, IsDigit) && 0 < j && j + 1 < |s| && s[j] in seps
    requires IsDigits(t) && |u| > 0 && !IsDigit(u[0]) && s[j + 1..] == t + u
    ensures Decimals(s, seps) == [s[..j + 1 + |t|]] + Decimals(s[j + 1 + |t|..], seps)
  {
    var v := s[j + 1..];
    assert v[..|t|] == t && v[|t|] == u[0];
    SpanExact(v, IsDigit, |t|);
    assert s[j + 1] == v[0] == t[0];
  }

  /** A match that runs to the end of the text is its last one. */
  lemma DecimalsEnd(s: string, seps: set<char>, j: nat)
    requires j == Span(s, IsDigit) && 0 < j && j + 1 < |s| && s[j] in seps && IsDigits(s[j + 1..])
    ensures Decimals(s, seps) == [s]
  {
    var v := s[j + 1..];
    assert v[..|v|] == v;
    SpanExact(v, IsDigit, |v|);
    assert s[j + 1] == v[0];
    assert s[..|s|] == s && s[|s|..] == [];
  }

  /** A decimal token followed by whitespace is the first match, and the
      scan goes on after the whitespace. */
  lemma DecimalsCons(a: string, c: char, b: string, rest: string, seps: set<char>)
    requires IsDigits(a) && IsDigits(b) && c in seps && !IsDigit(c)
    ensures Decimals(a + [c] + b + " " + rest, seps) == [a + [c] + b] + Decimals(rest, seps)
  {
    var t := a + [c] + b;
    var s := t + (" " + rest);
    assert s == a + [c] + b + " " + rest;
    assert s[..|a|] == a && s[|a|] == c;
    SpanExact(s, IsDigit, |a|);
    assert s[|a| + 1..] == b + (" " + rest);
    DecimalsMatch(s, seps, |a|, b, " " + rest);
    assert s[..|t|] == t && s[|t|..] == " " + rest;
    assert (" " + rest)[1..] == rest;
  }

  /** A decimal token that ends the text is its last match. */
  lemma DecimalsLast(a: string, c: char, b: string, seps: set<char>)
    requires IsDigits(a) && IsDigits(b) && c in seps && !IsDigit(c)
    ensures Decimals(a + [c] + b, seps) == [a + [c] + b]
  {
    var s := a + [c] + b;
    assert s[..|a|] == a && s[|a|] == c;
    SpanExact(s, IsDigit, |a|);
    assert s[|a| + 1..] == b;
    DecimalsEnd(s, seps, |a|);
  }

  /** A match can start at position `p` of `s`. */
  predicate MatchAt(s: string, seps: set<char>, p: nat) {
    p <= |s| && StartsMatch(s[p..], seps)
  }

  /** The match `t` sits at position `p` of `s`: a match can start there,
      and `t` takes the whole second run of digits. */
  predicate SitsAt(s: string, seps: set<char>, t: string, p: nat) {
    p + |t| <= |s| && s[p..p + |t|] == t && MatchAt(s, seps, p) &&
    (p + |t| < |s| ==> !IsDigit(s[p + |t|]))
  }

  /** `pos[k]` is where the `k`-th match `r[k]` sits in `s`. */
  predicate Located(s: string, seps: set<char>, r: seq<string>, pos: seq<nat>) {
    |pos| == |r| && forall k :: 0 <= k < |r| ==> SitsAt(s, seps, r[k], pos[k])
  }

  /** The matches do not overlap and come from left to right. */
  predicate Apart(r: seq<string>, pos: seq<nat>) {
    |pos| == |r| && forall k :: 0 < k < |r| ==> pos[k - 1] + |r[k - 1]| <= pos[k]
  }

  /** Every position at which a match can start lies inside a match, so no
      match is missed. */
  ghost predicate Covered(s: string, seps: set<char>, r: seq<string>, pos: seq<nat>) {
    |pos| == |r| &&
    forall p: nat :: MatchAt(s, seps, p) ==> exists k :: 0 <= k < |r| && pos[k] <= p < pos[k] + |r[k]|
  }

  function Shift(pos: seq<nat>, d: nat): (r: seq<nat>)
    ensures |r| == |pos| && forall k :: 0 <= k < |pos| ==> r[k] == pos[k] + d
  {
    seq(|pos|, k requires 0 <= k < |pos| => pos[k] + d)
  }

  lemma MatchAtDrop(s: string, seps: set<char>, d: nat, p: nat)
    requires d <= p
    ensures MatchAt(s, seps, p) <==> d <= |s| && MatchAt(s[d..], seps, p - d)
  {
    if p <= |s| {
      assert s[d..][p - d..] == s[p..];
    }
  }

  lemma SitsAtDrop(s: string, seps: set<char>, d: nat, t: string, p: nat)
    requires d <= |s| && SitsAt(s[d..], seps, t, p)
    ensures SitsAt(s, seps, t, p + d)
  {
    assert s[p + d..p + d + |t|] == s[d..][p..p + |t|];
    MatchAtDrop(s, seps, d, p + d);
    if p + d + |t| < |s| {
      assert s[p + d + |t|] == s[d..][p + |t|];
    }
  }

  lemma LocatedDrop(s: string, seps: set<char>, d: nat, r: seq<string>, pos: seq<nat>)
    requires d <= |s| && Located(s[d..], seps, r, pos)
    ensures Located(s, seps, r, Shift(pos, d))
  {
    forall k | 0 <= k < |r| ensures SitsAt(s, seps, r[k], Shift(pos, d)[k]) {
      SitsAtDrop(s, seps, d, r[k], pos[k]);
    }
  }

  lemma CoveredDrop(s: string, seps: set<char>, d: nat, r: seq<string>, pos: seq<nat>, p: nat)
    requires d <= p && d <= |s| && Covered(s[d..], seps, r, pos) && MatchAt(s, seps, p)
    ensures exists k :: 0 <= k < |r| && Shift(pos, d)[k] <= p < Shift(pos, d)[k] + |r[k]|
  {
    MatchAtDrop(s, seps, d, p);
    var k :| 0 <= k < |r| && pos[k] <= p - d < pos[k] + |r[k]|;
    assert Shift(pos, d)[k] == pos[k] + d;
  }

  /** Where the matches of `Decimals(s, seps)` start, found by the same
      scan. */
  ghost function MatchStarts(s: string, seps: set<char>): seq<nat>
    decreases |s|
  {
    if |s| == 0 then []
    else if StartsMatch(s, seps) then
      var k := MatchLen(s, seps);
      [0] + Shift(MatchStarts(s[k..], seps), k)
    else Shift(MatchStarts(s[1..], seps), 1)
  }

  /** One step of the scan where a match starts: the match is the first
      `MatchLen(s, seps)` characters, and the scan resumes after it. */
  lemma DecimalsStep(s: string, seps: set<char>)
    requires |s| > 0 && StartsMatch(s, seps)
    ensures var k := MatchLen(s, seps);
      MatchAt(s, seps, 0) && (k < |s| ==> !IsDigit(s[k])) &&
      Decimals(s, seps) == [s[..k]] + Decimals(s[k..], seps)
  {
    var j := Span(s, IsDigit);
    var k := MatchLen(s, seps);
    assert s[0..] == s;
    assert k < |s| ==> s[k] == s[j + 1..][k - j - 1];
  }

  /** One step of the scan where no match starts. */
  lemma DecimalsSkip(s: string, seps: set<char>)
    requires |s| > 0 && !StartsMatch(s, seps)
    ensures !MatchAt(s, seps, 0)
    ensures Decimals(s, seps) == Decimals(s[1..], seps)
    ensures MatchStarts(s, seps) == Shift(MatchStarts(s[1..], seps), 1)
  {
    assert s[0..] == s;
  }

  lemma LocatedPrepend(s: string, seps: set<char>, t: string, p: nat, r: seq<string>, pos: seq<nat>)
    requires SitsAt(s, seps, t, p) && Located(s, seps, r, pos)
    ensures Located(s, seps, [t] + r, [p] + pos)
  {
    forall i | 0 < i < |r| + 1 ensures ([t] + r)[i] == r[i - 1] && ([p] + pos)[i] == pos[i - 1] {
    }
  }

  lemma LocatedCons(s: string, seps: set<char>, k: nat, rest: seq<string>, q: seq<nat>)
    requires 0 < k <= |s| && MatchAt(s, seps, 0) && (k < |s| ==> !IsDigit(s[k]))
    requires Located(s[k..], seps, rest, q)
    ensures Located(s, seps, [s[..k]] + rest, [0] + Shift(q, k))
  {
    LocatedDrop(s, seps, k, rest, q);
    assert s[0..k] == s[..k];
    LocatedPrepend(s, seps, s[..k], 0, rest, Shift(q, k));
  }

  lemma ApartCons(head: string, rest: seq<string>, q: seq<nat>)
    requires Apart(rest, q)
    ensures Apart([head] + rest, [0] + Shift(q, |head|))
  {
    var r, pos := [head] + rest, [0] + Shift(q, |head|);
    forall i | 1 < i < |r| ensures pos[i - 1] + |r[i - 1]| <= pos[i] {
      assert r[i - 1] == rest[i - 2] && pos[i] == q[i - 1] + |head| && pos[i - 1] == q[i - 2] + |head|;
    }
  }

  lemma ApartShift(r: seq<string>, q: seq<nat>, d: nat)
    requires Apart(r, q)
    ensures Apart(r, Shift(q, d))
  {
  }

  lemma CoveredCons(s: string, seps: set<char>, k: nat, rest: seq<string>, q: seq<nat>)
    requires 0 < k <= |s| && Covered(s[k..], seps, rest, q)
    ensures Covered(s, seps, [s[..k]] + rest, [0] + Shift(q, k))
  {
    var r, pos := [s[..k]] + rest, [0] + Shift(q, k);
    forall p: nat | MatchAt(s, seps, p) ensures exists i :: 0 <= i < |r| && pos[i] <= p < pos[i] + |r[i]| {
      if p >= k {
        CoveredDrop(s, seps, k, rest, q, p);
        var i :| 0 <= i < |rest| && Shift(q, k)[i] <= p < Shift(q, k)[i] + |rest[i]|;
        assert pos[i + 1] <= p < pos[i + 1] + |r[i + 1]|;
      } else {
        assert pos[0] <= p < pos[0] + |r[0]|;
      }
    }
  }

  lemma CoveredSkip(s: string, seps: set<char>, r: seq<string>, q: seq<nat>)
    requires |s| > 0 && !MatchAt(s, seps, 0) && Covered(s[1..], seps, r, q)
    ensures Covered(s, seps, r, Shift(q, 1))
  {
    forall p: nat | MatchAt(s, seps, p) ensures exists i :: 0 <= i < |r| && Shift(q, 1)[i] <= p < Shift(q, 1)[i] + |r[i]| {
      CoveredDrop(s, seps, 1, r, q, p);
    }
  }

  /** Each match sits at its start, where a match can start, and takes the
      whole second run of digits. */
  lemma {:induction false} DecimalsLocated(s: string, seps: set<char>)
    ensures Located(s, seps, Decimals(s, seps), MatchStarts(s, seps))
    decreases |s|
  {
    if |s| > 0 && StartsMatch(s, seps) {
      DecimalsStep(s, seps);
      var k := MatchLen(s, seps);
      DecimalsLocated(s[k..], seps);
      LocatedCons(s, seps, k, Decimals(s[k..], seps), MatchStarts(s[k..], seps));
    } else if |s| > 0 {
      DecimalsSkip(s, seps);
      DecimalsLocated(s[1..], seps);
      LocatedDrop(s, seps, 1, Decimals(s[1..], seps), MatchStarts(s[1..], seps));
    }
  }

  /** The matches do not overlap and come from left to right. */
  lemma {:induction false} DecimalsApart(s: string, seps: set<char>)
    ensures Apart(Decimals(s, seps), MatchStarts(s, seps))
    decreases |s|
  {
    if |s| > 0 && StartsMatch(s, seps) {
      DecimalsStep(s, seps);
      var k := MatchLen(s, seps);
      DecimalsApart(s[k..], seps);
      ApartCons(s[..k], Decimals(s[k..], seps), MatchStarts(s[k..], seps));
    } else if |s| > 0 {
      DecimalsSkip(s, seps);
      DecimalsApart(s[1..], seps);
      ApartShift(Decimals(s[1..], seps), MatchStarts(s[1..], seps), 1);
    }
  }

  /** No match is missed: every position where a match can start lies
      inside one of the matches. */
  lemma {:induction false} DecimalsCovered(s: string, seps: set<char>)
    ensures Covered(s, seps, Decimals(s, seps), MatchStarts(s, seps))
    decreases |s|
  {
    if |s| > 0 && StartsMatch(s, seps) {
      DecimalsStep(s, seps);
      var k := MatchLen(s, seps);
      DecimalsCovered(s[k..], seps);
      CoveredCons(s, seps, k, Decimals(s[k..], seps), MatchStarts(s[k..], seps));
    } else if |s| > 0 {
      DecimalsSkip(s, seps);
      DecimalsCovered(s[1..], seps);
      CoveredSkip(s, seps, Decimals(s[1..], seps), MatchStarts(s[1..], seps));
    }
  }

  /** Python's `s.replace(x, y)` for single characters. */
  function Replace(s: string, x: char, y: char): (r: string)
    ensures |r| == |s|
    ensures forall i :: 0 <= i < |s| ==> r[i] == (if s[i] == x then y else s[i])
  {
    seq(|s|, i requires 0 <= i < |s| => if s[i] == x then y else s[i])
  }

  function DigitValue(c: char): nat
    requires IsDigit(c)
  {
    c as int - '0' as int
  }

  function DigitChar(d: nat): (c: char)
    requires d < 10
    ensures IsDigit(c) && DigitValue(c) == d
  {
    ('0' as int + d) as char
  }

  /** The value of a string of decimal digits. */
  function DigitsValue(s: string): nat
    requires All(s, IsDigit)
    decreases |s|
  {
    if |s| == 0 then 0
    else
      assert All(s[..|s| - 1], IsDigit) by {
        assert forall i :: 0 <= i < |s| - 1 ==> s[..|s| - 1][i] == s[i];
      }
      10 * DigitsValue(s[..|s| - 1]) + DigitValue(s[|s| - 1])
  }

  /** An integer literal as `int()` accepts it: one or more decimal digits,
      optionally after a `+` or `-` sign. */
  predicate IsIntLiteral(s: string) {
    IsDigits(s) || (|s| > 1 && (s[0] == '+' || s[0] == '-') && IsDigits(s[1..]))
  }

  /** Python 2's `int(s)` and `long(s)` on a string without surrounding
      whitespace: an optional sign followed by one or more decimal digits;
      anything else raises `ValueError`, which is `None` here. */
  function ParseInt(s: string): (r: Option<int>)
    ensures IsDigits(s) ==> r == Some(DigitsValue(s))
    ensures |s| == 0 || (!IsDigit(s[0]) && s[0] != '+' && s[0] != '-') ==> r.None?
  {
    if IsDigits(s) then Some(DigitsValue(s))
    else if |s| > 1 && (s[0] == '+' || s[0] == '-') && IsDigits(s[1..]) then
      var v: int := DigitsValue(s[1..]);
      Some(if s[0] == '-' then -v else v)
    else None
  }

  /** `int()` accepts exactly the integer literals; a sign in front of
      the digits keeps or negates their value. */
  lemma ParseIntAccepts(s: string)
    ensures ParseInt(s).Some? <==> IsIntLiteral(s)
    ensures |s| > 1 && s[0] == '+' && IsDigits(s[1..]) ==> ParseInt(s) == Some(DigitsValue(s[1..]))
    ensures |s| > 1 && s[0] == '-' && IsDigits(s[1..]) ==> ParseInt(s) == Some(-(DigitsValue(s[1..]) as int))
  {
  }

  /** Python's `str(n)` for a natural number. */
  function ShowNat(n: nat): (r: string)
    ensures IsDigits(r)
    decreases n
  {
    if n < 10 then [DigitChar(n)] else ShowNat(n / 10) + [DigitChar(n % 10)]
  }

  /** Python's `str(n)` for an integer (or a `long`: Python 2 prints no `L`). */
  function ShowInt(n: int): string
  {
    if n < 0 then "-" + ShowNat(-n) else ShowNat(n)
  }

  lemma {:induction false} DigitsValueShowNat(n: nat)
    ensures DigitsValue(ShowNat(n)) == n
    decreases n
  {
    if n >= 10 {
      DigitsValueShowNat(n / 10);
      var s := ShowNat(n);
      assert s[..|s| - 1] == ShowNat(n / 10);
    }
  }

  /** `int(str(n)) == n`. */
  lemma ParseShowInt(n: int)
    ensures ParseInt(ShowInt(n)) == Some(n)
  {
    if n < 0 {
      DigitsValueShowNat(-n);
      var s := ShowInt(n);
      assert s[1..] == ShowNat(-n);
    } else {
      DigitsValueShowNat(n);
    }
  }

  function Pow10(k: nat): (r: nat)
    ensures r >= 1
  {
    if k == 0 then 1 else 10 * Pow10(k - 1)
  }

  /** The value of `x.y` where `y` has `k` digits (leading zeros
      included). */
  function PointValue(x: nat, y: nat, k: nat): real
  {
    x as real + y as real / Pow10(k) as real
  }

  /** A point at `i` with only digits before and after it. */
  predicate PointAt(u: string, i: int) {
    0 <= i < |u| && u[i] == '.' && All(u[..i], IsDigit) && All(u[i + 1..], IsDigit)
  }

  /** An unsigned literal as `float()` reads it in plain decimal notation:
      digits, or digits around a single point with at least one digit. */
  predicate IsUnsignedFloat(u: string) {
    IsDigits(u) || (|u| > 1 && exists i :: 0 <= i < |u| && PointAt(u, i))
  }

  /** The same, optionally after a `+` or `-` sign. */
  predicate IsFloatLiteral(s: string) {
    IsUnsignedFloat(s) || (|s| > 0 && (s[0] == '+' || s[0] == '-') && IsUnsignedFloat(s[1..]))
  }

  /** The value of an unsigned decimal literal: digits, optionally a point
      and more digits, with at least one digit overall. */
  function UnsignedReal(u: string): (r: Option<real>)
    ensures IsDigits(u) ==> r == Some(DigitsValue(u) as real)
  {
    var j := Span(u, IsDigit);
    if j == |u| && j > 0 then
      assert u[..j] == u;
      Some(DigitsValue(u) as real)
    else if j < |u| && u[j] == '.' && All(u[j + 1..], IsDigit) && (j > 0 || j + 1 < |u|) then
      Some(PointValue(DigitsValue(u[..j]), DigitsValue(u[j + 1..]), |u| - j - 1))
    else None
  }

  /** Python's `float(s)` on a string without surrounding whitespace, for
      plain decimal notation with an optional sign (`3.59`, `-0.5`, `12`,
      `.5`, `1.`); any other form is `None` (`ValueError`). */
  function ParseReal(s: string): (r: Option<real>)
    ensures ParseInt(s).Some? ==> r == Some(ParseInt(s).value as real)
  {
    if |s| > 0 && (s[0] == '+' || s[0] == '-') then
      match UnsignedReal(s[1..])
      case None => None
      case Some(v) => Some(if s[0] == '-' then -v else v)
    else UnsignedReal(s)
  }

  /** `float()` accepts exactly the plain decimal literals, signed or not. */
  lemma ParseRealAccepts(s: string)
    ensures ParseReal(s).Some? <==> IsFloatLiteral(s)
  {
    if |s| > 0 && (s[0] == '+' || s[0] == '-') {
      UnsignedRealSome(s[1..]);
      SignedNotUnsigned(s);
    } else {
      UnsignedRealSome(s);
    }
  }

  /** `UnsignedReal` accepts exactly the unsigned literals. */
  lemma UnsignedRealSome(u: string)
    ensures UnsignedReal(u).Some? <==> IsUnsignedFloat(u)
  {
    if IsDigits(u) {
      SpanExact(u, IsDigit, |u|);
    } else if |u| > 1 && exists i :: 0 <= i < |u| && PointAt(u, i) {
      var i :| 0 <= i < |u| && PointAt(u, i);
      SpanExact(u, IsDigit, i);
    } else {
      assert |u| > 1 ==> !PointAt(u, Span(u, IsDigit));
    }
  }

  /** A signed text is not itself an unsigned literal. */
  lemma SignedNotUnsigned(s: string)
    requires |s| > 0 && (s[0] == '+' || s[0] == '-')
    ensures !IsUnsignedFloat(s)
  {
  }

  lemma AllAppend(a: string, b: string, p: char -> bool)
    requires All(a, p) && All(b, p)
    ensures All(a + b, p)
  {
    forall i | 0 <= i < |a + b| ensures p((a + b)[i]) {
      if i >= |a| {
        assert (a + b)[i] == b[i - |a|];
      }
    }
  }

  lemma ShiftDigit(va: int, p: int, vb: int, d: int)
    ensures 10 * (va * p + vb) + d == va * (10 * p) + (10 * vb + d)
  {
  }

  /** Appending digits shifts the value of the first digits left. */
  lemma {:induction false} DigitsValueAppend(a: string, b: string)
    requires All(a, IsDigit) && All(b, IsDigit)
    ensures All(a + b, IsDigit)
    ensures DigitsValue(a + b) == DigitsValue(a) * Pow10(|b|) + DigitsValue(b)
    decreases |b|
  {
    AllAppend(a, b, IsDigit);
    if |b| == 0 {
      assert a + b == a;
    } else {
      var b', ab := b[..|b| - 1], a + b;
      assert All(b', IsDigit) by {
        assert forall i :: 0 <= i < |b'| ==> b'[i] == b[i];
      }
      DigitsValueAppend(a, b');
      assert ab[..|ab| - 1] == a + b';
      assert ab[|ab| - 1] == b[|b| - 1];
      ShiftDigit(DigitsValue(a), Pow10(|b'|), DigitsValue(b'), DigitValue(b[|b| - 1]));
    }
  }

  lemma RealOfShift(z: nat, x: nat, y: nat, k: nat)
    requires z == x * Pow10(k) + y
    ensures z as real / Pow10(k) as real == PointValue(x, y, k)
  {
    var p := Pow10(k);
    assert z as real == x as real * p as real + y as real;
    DivShift(z as real, x as real, y as real, p as real);
  }

  lemma DivShift(z: real, x: real, y: real, p: real)
    requires p > 0.0 && z == x * p + y
    ensures z / p == x + y / p
  {
  }

  /** `UnsignedReal` on digits, a point and digits. */
  lemma UnsignedPoint(u: string, j: nat)
    requires j == Span(u, IsDigit) && j < |u| && u[j] == '.' && All(u[j + 1..], IsDigit) && (j > 0 || j + 1 < |u|)
    ensures UnsignedReal(u) == Some(PointValue(DigitsValue(u[..j]), DigitsValue(u[j + 1..]), |u| - j - 1))
  {
  }

  /** The value of an unsigned decimal `a.b`: the digits of `a` and `b`
      read as one integer, divided by ten to the number of digits after the
      point. */
  lemma UnsignedDecimal(a: string, b: string)
    requires All(a, IsDigit) && All(b, IsDigit) && |a| + |b| > 0
    ensures All(a + b, IsDigit)
    ensures UnsignedReal(a + "." + b) == Some(DigitsValue(a + b) as real / Pow10(|b|) as real)
  {
    DigitsValueAppend(a, b);
    var u := a + "." + b;
    assert u[..|a|] == a && u[|a|] == '.' && u[|a| + 1..] == b;
    SpanExact(u, IsDigit, |a|);
    UnsignedPoint(u, |a|);
    RealOfShift(DigitsValue(a + b), DigitsValue(a), DigitsValue(b), |b|);
  }

  /** Without a sign, `ParseReal` is `UnsignedReal`. */
  lemma ParseRealUnsigned(u: string)
    requires |u| > 0 && u[0] != '+' && u[0] != '-'
    ensures ParseReal(u) == UnsignedReal(u)
  {
  }

  /** A sign in front negates the value (or keeps it). */
  lemma ParseRealSign(sign: char, u: string)
    requires sign == '+' || sign == '-'
    ensures ParseReal([sign] + u) ==
      if UnsignedReal(u).None? then None
      else Some(if sign == '-' then -UnsignedReal(u).value else UnsignedReal(u).value)
  {
    assert ([sign] + u)[1..] == u;
  }

  /** `float()` of an unsigned decimal literal such as `3.59`, `.5` or
      `1.` (a plain integer is covered by `ParseReal`'s own contract). */
  lemma ParseRealDecimal(a: string, b: string)
    requires All(a, IsDigit) && All(b, IsDigit) && |a| + |b| > 0
    ensures All(a + b, IsDigit)
    ensures ParseReal(a + "." + b) == Some(DigitsValue(a + b) as real / Pow10(|b|) as real)
  {
    UnsignedDecimal(a, b);
    var u := a + "." + b;
    assert u[0] == if |a| > 0 then a[0] else '.';
    ParseRealUnsigned(u);
  }

  /** `float()` of a signed decimal literal such as `-0.5`. */
  lemma ParseRealSignedDecimal(sign: char, a: string, b: string)
    requires sign == '+' || sign == '-'
    requires All(a, IsDigit) && All(b, IsDigit) && |a| + |b| > 0
    ensures All(a + b, IsDigit)
    ensures var v := DigitsValue(a + b) as real / Pow10(|b|) as real;
      ParseReal([sign] + (a + "." + b)) == Some(if sign == '-' then -v else v)
  {
    UnsignedDecimal(a, b);
    ParseRealSign(sign, a + "." + b);
  }
}
