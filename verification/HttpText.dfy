/** The proxy's readers of HTTP text (src/handle.c): lines, header names, the end of the header
    and the value of Content-Length. */
module HttpText {
  import opened Text

  const CRLF := "\r\n"

  // ----- lines

  /** Length of the first line of `s`, its line feed included. */
  function LineLength(s: string): (n: nat)
    ensures n <= |s| && (s != "" ==> n > 0)
  {
    var n := RunLength(s, {'\n'});
    if n < |s| then n + 1 else n
  }

  /** The lines of `s`, line feeds included. */
  function Lines(s: string): seq<string>
    decreases |s|
  {
    if s == "" then [] else [s[..LineLength(s)]] + Lines(s[LineLength(s)..])
  }

  function Flatten(lines: seq<string>): string {
    if lines == [] then "" else lines[0] + Flatten(lines[1..])
  }

  /** `read_line` and the step past the line: `src` stands for the pointer `buffer + total`. For lines
      shorter than the line buffer. */
  method ReadLine(src: string) returns (line: string, rest: string)
    requires src != ""
    ensures line != "" && |rest| < |src| && src == line + rest
    ensures Lines(src) != [] && Lines(src)[0] == line && Lines(src)[1..] == Lines(rest)
  {
    var i := 0;
    while i < |src| && src[i] != '\n'
      invariant i <= |src|
      invariant i <= RunLength(src, {'\n'})
    {
      i := i + 1;
    }
    if i < |src| {
      i := i + 1;
    }
    assert i == LineLength(src);
    line, rest := src[..i], src[i..];
  }

  // ----- start_with

  predicate IsBlank(c: char) {
    c == ' ' || c == '\t'
  }

  /** The leading blanks of `s`, at most `cap` of them. */
  function BlankRun(s: string, cap: nat): (k: nat)
    ensures k <= cap && k <= |s|
    ensures forall i | 0 <= i < k :: IsBlank(s[i])
    ensures k < cap && k < |s| ==> !IsBlank(s[k])
  {
    if cap == 0 || s == "" || !IsBlank(s[0]) then 0 else 1 + BlankRun(s[1..], cap - 1)
  }

  /** `start_with`: each leading blank of the line also shortens the pattern by one character. */
  predicate StartWith(line: string, pattern: string) {
    var k := BlankRun(line, |pattern|);
    |pattern| <= |line| && line[k..|pattern|] == pattern[..|pattern| - k]
  }

  /** The two loops of `start_with`; reading past the line yields the zeroes of its buffer. */
  method StartsWith(line: string, pattern: string) returns (r: bool)
    ensures r == StartWith(line, pattern)
  {
    var size := |pattern|;
    ghost var k := BlankRun(line, size);
    var i := 0;
    while i < size && i < |line| && IsBlank(line[i])
      invariant i <= k
    {
      i := i + 1;
    }
    var j := 0;
    while i < size
      invariant k <= i <= size && j == i - k
      invariant i <= |line| && line[k..i] == pattern[..j]
    {
      if i >= |line| || line[i] != pattern[j] {
        if |pattern| <= |line| {
          assert line[k..size][j] == line[i] && pattern[..size - k][j] == pattern[j];
        }
        return false;
      }
      assert line[k..i + 1] == line[k..i] + [line[i]] && pattern[..j + 1] == pattern[..j] + [pattern[j]];
      i := i + 1;
      j := j + 1;
    }
    return true;
  }

  // ----- what start_with accepts

  /** The number of leading blanks. */
  function Indent(line: string): (k: nat)
    ensures k <= |line| && (forall i | 0 <= i < k :: IsBlank(line[i])) && (k < |line| ==> !IsBlank(line[k]))
  {
    if line == "" || !IsBlank(line[0]) then 0 else 1 + Indent(line[1..])
  }

  /** The plain reading of a line: skip all leading blanks, then test for the pattern. */
  predicate StartsPlainly(line: string, pattern: string) {
    pattern <= line[Indent(line)..]
  }

  /** How many characters two texts have in common at the front. */
  function Common(s: string, t: string): (n: nat)
    ensures n <= |s| && n <= |t| && s[..n] == t[..n]
    ensures n < |s| && n < |t| ==> s[n] != t[n]
  {
    if s == "" || t == "" || s[0] != t[0] then 0
    else
      assert s[0] == t[0] && s[1..][..Common(s[1..], t[1..])] == t[1..][..Common(s[1..], t[1..])];
      1 + Common(s[1..], t[1..])
  }

  lemma CommonAtLeast(s: string, t: string, n: nat)
    requires n <= |s| && n <= |t|
    ensures n <= Common(s, t) <==> s[..n] == t[..n]
  {
    var c := Common(s, t);
    if n <= c {
      assert s[..n] == s[..c][..n] && t[..n] == t[..c][..n];
    } else {
      assert s[..n][c] == s[c] && t[..n][c] == t[c];
    }
  }

  lemma BlankRunIndent(line: string, cap: nat)
    ensures BlankRun(line, cap) == if Indent(line) <= cap then Indent(line) else cap
  {
  }

  /** What `start_with` accepts: leading blanks make up for characters of the pattern that the line does not have. */
  lemma StartWithMeans(line: string, pattern: string)
    ensures StartWith(line, pattern) <==> Indent(line) + Common(line[Indent(line)..], pattern) >= |pattern|
    ensures StartsPlainly(line, pattern) <==> Common(line[Indent(line)..], pattern) == |pattern|
  {
    var k, text := Indent(line), line[Indent(line)..];
    BlankRunIndent(line, |pattern|);
    if k < |pattern| && |pattern| <= |line| {
      assert line[k..|pattern|] == text[..|pattern| - k];
      CommonAtLeast(text, pattern, |pattern| - k);
    }
    if |pattern| <= |text| {
      CommonAtLeast(text, pattern, |pattern|);
      assert text[..|pattern|] == pattern <==> pattern <= text;
      assert pattern[..|pattern|] == pattern;
    }
  }

  /** The blanks of the line do not decide the test: they are too few, or not needed. */
  predicate ReadsRight(line: string, pattern: string) {
    var common := Common(line[Indent(line)..], pattern);
    common == |pattern| || Indent(line) + common < |pattern|
  }

  /** `start_with` never misses a line, and it is right about a line exactly when the blanks do not decide. */
  lemma StartWithRightExactly(line: string, pattern: string)
    ensures StartsPlainly(line, pattern) ==> StartWith(line, pattern)
    ensures (StartWith(line, pattern) <==> StartsPlainly(line, pattern)) <==> ReadsRight(line, pattern)
  {
    StartWithMeans(line, pattern);
  }

  ghost predicate AllBlank(s: string) {
    forall c | c in s :: c == ' ' || c == '\t'
  }

  lemma {:induction false} IndentOf(blanks: string, rest: string)
    requires AllBlank(blanks) && (rest == "" || (rest[0] != ' ' && rest[0] != '\t'))
    ensures Indent(blanks + rest) == |blanks| && (blanks + rest)[|blanks|..] == rest
  {
    if blanks != "" {
      assert (blanks + rest)[0] == blanks[0] && blanks[0] in blanks && (blanks + rest)[1..] == blanks[1..] + rest;
      assert forall c | c in blanks[1..] :: c in blanks;
      IndentOf(blanks[1..], rest);
    } else {
      assert blanks + rest == rest;
    }
  }

  lemma CommonOfPrefix(s: string, t: string)
    requires s <= t
    ensures Common(s, t) == |s|
  {
    CommonAtLeast(s, t, |s|);
  }

  /** Which indentations are harmless, whatever stands behind them: none but the empty one. */
  lemma IndentHarmlessExactly(blanks: string, pattern: string)
    requires AllBlank(blanks) && pattern != "" && !IsBlank(pattern[0])
    ensures (forall rest | rest == "" || !IsBlank(rest[0]) :: StartWith(blanks + rest, pattern) <==> pattern <= rest)
            <==> blanks == ""
  {
    var k := |blanks|;
    if blanks == "" {
      forall rest | rest == "" || !IsBlank(rest[0])
        ensures StartWith(blanks + rest, pattern) <==> pattern <= rest
      {
        IndentOf(blanks, rest);
        StartWithRightExactly(blanks + rest, pattern);
      }
    } else {
      var rest := if k < |pattern| then pattern[..|pattern| - k] else "";
      IndentOf(blanks, rest);
      CommonOfPrefix(rest, pattern);
      StartWithMeans(blanks + rest, pattern);
      assert StartWith(blanks + rest, pattern) && !(pattern <= rest);
    }
  }

  /** Without leading blanks it is the plain prefix test. */
  lemma StartWithPlain(line: string, pattern: string)
    requires line != "" && !IsBlank(line[0])
    ensures StartWith(line, pattern) <==> pattern <= line
  {
  }

  /** A line that starts with a pattern starts with every prefix of it. */
  lemma StartWithPrefix(line: string, long: string, short: string)
    requires StartWith(line, long) && short <= long
    ensures StartWith(line, short)
  {
    var k, k' := BlankRun(line, |long|), BlankRun(line, |short|);
    BlankRunCap(line, |short|, |long|);
    assert line[k'..|short|] == if k' < |short| then line[k..|long|][..|short| - k] else [];
  }

  lemma {:induction false} BlankRunCap(s: string, small: nat, large: nat)
    requires small <= large
    ensures var k := BlankRun(s, large); BlankRun(s, small) == if k <= small then k else small
  {
    if small > 0 && s != "" && IsBlank(s[0]) {
      BlankRunCap(s[1..], small - 1, large - 1);
    }
  }

  // ----- the end of the header

  /** One byte through the four-state loop of `handle_server_recv`; state 4 has left the loop. */
  function Step(state: nat, c: char): nat {
    if state == 4 then 4
    else if c == '\r' then (if state == 0 then 1 else if state == 2 then 3 else state)
    else if c == '\n' then (if state == 1 then 2 else if state == 3 then 4 else state)
    else if state == 2 then 0 else state
  }

  function Run(state: nat, s: string): nat
    decreases |s|
  {
    if s == "" then state else Run(Step(state, s[0]), s[1..])
  }

  /** The loop leaves the header at byte `n` of the stream. */
  ghost predicate StopsAt(s: string, n: nat) {
    0 < n <= |s| && Run(0, s[..n]) == 4 && Run(0, s[..n - 1]) != 4
  }

  /** The loop itself; `found` is false when the stream ended first. */
  method ScanHeader(stream: string) returns (n: nat, found: bool)
    ensures found ==> StopsAt(stream, n)
    ensures !found ==> n == |stream| && forall m: nat :: !StopsAt(stream, m)
  {
    var state := 0;
    n := 0;
    while n < |stream|
      invariant n <= |stream| && state < 4
      invariant state == Run(0, stream[..n])
    {
      var ch := stream[n];
      RunSnoc(0, stream, n);
      n := n + 1;
      if ch == '\r' {
        if state == 0 {
          state := state + 1;
        }
        if state == 2 {
          state := state + 1;
        }
      } else if ch == '\n' {
        if state == 1 {
          state := state + 1;
        }
        if state == 3 {
          return n, true;
        }
      } else {
        if state == 2 {
          state := 0;
        }
      }
    }
    forall m: nat
      ensures !StopsAt(stream, m)
    {
      if StopsAt(stream, m) {
        RunPrefix(stream, m, n);
      }
    }
    return n, false;
  }

  lemma {:induction false} RunAppend(state: nat, a: string, b: string)
    ensures Run(state, a + b) == Run(Run(state, a), b)
    decreases |a|
  {
    if a == "" {
      assert a + b == b;
    } else {
      assert (a + b)[0] == a[0] && (a + b)[1..] == a[1..] + b;
      RunAppend(Step(state, a[0]), a[1..], b);
    }
  }

  lemma RunSnoc(state: nat, s: string, n: nat)
    requires n < |s|
    ensures Run(state, s[..n + 1]) == Step(Run(state, s[..n]), s[n])
  {
    assert s[..n + 1] == s[..n] + [s[n]];
    RunAppend(state, s[..n], [s[n]]);
    assert Run(Run(state, s[..n]), [s[n]]) == Run(Step(Run(state, s[..n]), s[n]), "");
  }

  lemma {:induction false} RunSticks(s: string)
    ensures Run(4, s) == 4
  {
    if s != "" {
      RunSticks(s[1..]);
    }
  }

  lemma RunPrefix(s: string, m: nat, n: nat)
    requires m <= n <= |s| && Run(0, s[..m]) == 4
    ensures Run(0, s[..n]) == 4
  {
    assert s[..n] == s[..m] + s[m..n];
    RunAppend(0, s[..m], s[m..n]);
    RunSticks(s[m..n]);
  }

  /** There is at most one place to stop. */
  lemma StopsAtUnique(s: string, m: nat, n: nat)
    requires StopsAt(s, m) && StopsAt(s, n)
    ensures m == n
  {
    if m < n {
      RunPrefix(s, m, n - 1);
    } else if n < m {
      RunPrefix(s, n, m - 1);
    }
  }

  /** A blank line, that is CRLFCRLF, ends at byte `n`. */
  ghost predicate BlankLineEnds(s: string, n: int) {
    4 <= n <= |s| && s[n - 4] == '\r' && s[n - 3] == '\n' && s[n - 2] == '\r' && s[n - 1] == '\n'
  }

  /** The header as RFC 9112 delimits it: the first CRLFCRLF. */
  ghost predicate HeaderEnds(s: string, n: nat) {
    BlankLineEnds(s, n) && forall m | BlankLineEnds(s, m) :: n <= m
  }

  /** Every CR is followed by LF, unless the stream ends there, and every LF is preceded by CR. */
  ghost predicate Paired(s: string) {
    && (forall i | 0 <= i < |s| - 1 && s[i] == '\r' :: s[i + 1] == '\n')
    && forall i | 0 <= i < |s| && s[i] == '\n' :: i > 0 && s[i - 1] == '\r'
  }

  /** On no stream does the scanner read past a CRLFCRLF. */
  lemma ScannerNeverLate(s: string, n: nat)
    requires BlankLineEnds(s, n)
    ensures Run(0, s[..n]) == 4
  {
    RunStates(s, n - 4);
    RunSnoc(0, s, n - 4);
    RunSnoc(0, s, n - 3);
    RunSnoc(0, s, n - 2);
    RunSnoc(0, s, n - 1);
  }

  lemma {:induction false} RunStates(s: string, n: nat)
    requires n <= |s|
    ensures Run(0, s[..n]) <= 4
  {
    if n > 0 {
      RunStates(s, n - 1);
      RunSnoc(0, s, n - 1);
    }
  }

  /** What each state means on a paired stream, up to the first blank line. */
  lemma {:induction false} PairedStates(s: string, n: nat)
    requires Paired(s) && n <= |s| && forall m | m < n :: !BlankLineEnds(s, m)
    ensures var q := Run(0, s[..n]);
      && (q == 4 <==> BlankLineEnds(s, n))
      && (q == 3 <==> 3 <= n && s[n - 3] == '\r' && s[n - 2] == '\n' && s[n - 1] == '\r')
      && (q == 2 ==> 2 <= n && s[n - 2] == '\r' && s[n - 1] == '\n')
      && (q == 1 ==> 1 <= n && s[n - 1] == '\r')
      && (q == 0 ==> n == 0 || (s[n - 1] != '\r' && s[n - 1] != '\n'))
      && q <= 4
  {
    if n > 0 {
      PairedStates(s, n - 1);
      RunSnoc(0, s, n - 1);
    }
  }

  /** On every paired stream the scanner stops exactly at the end of the first CRLFCRLF. */
  lemma ScannerExactWhenPaired(s: string, n: nat)
    requires Paired(s)
    ensures StopsAt(s, n) <==> HeaderEnds(s, n)
  {
    if HeaderEnds(s, n) {
      PairedStates(s, n - 1);
      PairedStates(s, n);
    }
    if StopsAt(s, n) {
      forall m | m < n
        ensures !BlankLineEnds(s, m)
      {
        if BlankLineEnds(s, m) {
          ScannerNeverLate(s, m);
          RunPrefix(s, m, n - 1);
        }
      }
      PairedStates(s, n);
    }
  }

  /** Where the scanner stops is never behind the first CRLFCRLF, and is its end when those bytes were read last. */
  lemma ScannerExactWhen(s: string, n: nat)
    requires StopsAt(s, n)
    ensures forall m | HeaderEnds(s, m) :: n <= m
    ensures HeaderEnds(s, n) <==> BlankLineEnds(s, n)
  {
    forall m | BlankLineEnds(s, m)
      ensures n <= m
    {
      ScannerNeverLate(s, m);
      if m < n {
        RunPrefix(s, m, n - 1);
      }
    }
  }

  ghost predicate NoLf(s: string, from: int, end: int)
    requires 0 <= from && end <= |s|
  {
    forall i | from <= i < end :: s[i] != '\n'
  }

  ghost predicate OnlyLf(s: string, from: int, end: int)
    requires 0 <= from && end <= |s|
  {
    forall i | from <= i < end :: s[i] == '\n'
  }

  /** A CR, at some point later a run of LFs, then a CR at once. */
  ghost predicate Armed(s: string, a: int, b: int, c: int) {
    0 <= a < b < c < |s| && s[a] == '\r' && NoLf(s, a, b) && OnlyLf(s, b, c) && s[c] == '\r'
  }

  /** What the scanner really looks for: the pattern of `Armed`, and the first LF after it ends at byte `n`. */
  ghost predicate MatchEnds(s: string, n: int) {
    exists a, b, c :: Armed(s, a, b, c) && c < n - 1 < |s| && NoLf(s, c, n - 1) && s[n - 1] == '\n'
  }

  /** State 1: a CR has been read, and no LF since. */
  ghost predicate AfterCr(s: string, n: nat)
    requires n <= |s|
  {
    exists a :: 0 <= a < n && s[a] == '\r' && NoLf(s, a, n)
  }

  /** State 2: only LFs since the first LF after a CR. */
  ghost predicate AfterLf(s: string, n: nat)
    requires n <= |s|
  {
    exists a, b :: 0 <= a < b < n && s[a] == '\r' && NoLf(s, a, b) && OnlyLf(s, b, n)
  }

  /** State 3: armed, and no LF since. */
  ghost predicate AfterArmed(s: string, n: nat)
    requires n <= |s|
  {
    exists a, b, c :: Armed(s, a, b, c) && c < n && NoLf(s, c, n)
  }

  /** What the states mean, on every stream. */
  lemma {:induction false} StateMeaning(s: string, n: nat)
    requires n <= |s|
    ensures Run(0, s[..n]) == 1 ==> AfterCr(s, n)
    ensures Run(0, s[..n]) == 2 ==> AfterLf(s, n)
    ensures Run(0, s[..n]) == 3 ==> AfterArmed(s, n)
    ensures Run(0, s[..n]) == 4 ==> exists m :: m <= n && MatchEnds(s, m)
  {
    if n > 0 {
      StateMeaning(s, n - 1);
      RunSnoc(0, s, n - 1);
      StepMeaning(s, n, Run(0, s[..n - 1]));
    }
  }

  lemma StepMeaning(s: string, n: nat, q: nat)
    requires 0 < n <= |s|
    requires q == 1 ==> AfterCr(s, n - 1)
    requires q == 2 ==> AfterLf(s, n - 1)
    requires q == 3 ==> AfterArmed(s, n - 1)
    ensures Step(q, s[n - 1]) == 1 ==> AfterCr(s, n)
    ensures Step(q, s[n - 1]) == 2 ==> AfterLf(s, n)
    ensures Step(q, s[n - 1]) == 3 ==> AfterArmed(s, n)
    ensures Step(q, s[n - 1]) == 4 && q != 4 ==> MatchEnds(s, n)
  {
    var ch := s[n - 1];
    if q == 0 && ch == '\r' {
      assert s[n - 1] == '\r' && NoLf(s, n - 1, n);
    } else if q == 1 {
      var a :| 0 <= a < n - 1 && s[a] == '\r' && NoLf(s, a, n - 1);
      if ch == '\n' {
        assert OnlyLf(s, n - 1, n);
      } else {
        assert NoLf(s, a, n);
      }
    } else if q == 2 {
      var a, b :| 0 <= a < b < n - 1 && s[a] == '\r' && NoLf(s, a, b) && OnlyLf(s, b, n - 1);
      if ch == '\n' {
        assert OnlyLf(s, b, n);
      } else if ch == '\r' {
        assert Armed(s, a, b, n - 1) && NoLf(s, n - 1, n);
      }
    } else if q == 3 {
      var a, b, c :| Armed(s, a, b, c) && c < n - 1 && NoLf(s, c, n - 1);
      if ch != '\n' {
        assert NoLf(s, c, n);
      }
    }
  }

  /** A CR in any state, and then no LF: the scanner waits for the LF, unless it has stopped. */
  lemma {:induction false} WaitsForLf(s: string, from: nat, end: nat)
    requires from < end <= |s| && s[from] == '\r' && NoLf(s, from, end)
    ensures Run(0, s[..end]) in {1, 3, 4}
    ensures Run(0, s[..from]) >= 2 ==> Run(0, s[..end]) >= 3
    decreases end
  {
    RunStates(s, from);
    RunSnoc(0, s, end - 1);
    if from < end - 1 {
      WaitsForLf(s, from, end - 1);
    }
  }

  /** LFs keep the scanner at a line end, once it is there. */
  lemma {:induction false} StaysAtLineEnd(s: string, from: nat, end: nat)
    requires from <= end <= |s| && OnlyLf(s, from, end) && Run(0, s[..from]) in {2, 4}
    ensures Run(0, s[..end]) in {2, 4}
    decreases end
  {
    if from < end {
      RunSnoc(0, s, end - 1);
      StaysAtLineEnd(s, from, end - 1);
    }
  }

  lemma MatchStops(s: string, n: nat)
    requires n <= |s| && MatchEnds(s, n)
    ensures Run(0, s[..n]) == 4
  {
    var a, b, c :| Armed(s, a, b, c) && c < n - 1 < |s| && NoLf(s, c, n - 1) && s[n - 1] == '\n';
    WaitsForLf(s, a, b);
    RunSnoc(0, s, b);
    StaysAtLineEnd(s, b + 1, c);
    WaitsForLf(s, c, n - 1);
    RunSnoc(0, s, n - 1);
  }

  /** Where the scanner stops, on every stream: at the first match of its own pattern. */
  lemma ScannerStopsAtFirstMatch(s: string, n: nat)
    ensures StopsAt(s, n) <==> n <= |s| && MatchEnds(s, n) && forall m | m < n :: !MatchEnds(s, m)
  {
    if StopsAt(s, n) {
      forall m | m < n
        ensures !MatchEnds(s, m)
      {
        if MatchEnds(s, m) {
          MatchStops(s, m);
          RunPrefix(s, m, n - 1);
        }
      }
      StateMeaning(s, n);
    }
    if n <= |s| && MatchEnds(s, n) && forall m | m < n :: !MatchEnds(s, m) {
      MatchStops(s, n);
      StateMeaning(s, n - 1);
    }
  }

  /** The exact condition: the scanner finds the end of a header if and only if nothing before it matches
      the scanner's own pattern. */
  lemma ScannerExactly(s: string, m: nat)
    requires HeaderEnds(s, m)
    ensures StopsAt(s, m) <==> forall n | n < m :: !MatchEnds(s, n)
  {
    assert NoLf(s, m - 4, m - 3) && OnlyLf(s, m - 3, m - 2) && NoLf(s, m - 2, m - 1);
    assert Armed(s, m - 4, m - 3, m - 2) && MatchEnds(s, m);
    ScannerStopsAtFirstMatch(s, m);
  }

  /** A stray CR after a line end makes it stop early. */
  lemma ScannerCanBeEarly()
    ensures StopsAt("A\r\n\rB\nC\r\n\r\n", 6) && HeaderEnds("A\r\n\rB\nC\r\n\r\n", 11)
  {
    var s := "A\r\n\rB\nC\r\n\r\n";
    RunSnoc(0, s, 0);
    RunSnoc(0, s, 1);
    RunSnoc(0, s, 2);
    RunSnoc(0, s, 3);
    RunSnoc(0, s, 4);
    RunSnoc(0, s, 5);
  }

  // ----- Content-Length

  /** The first line that starts with the pattern, or the number of lines. */
  function FirstWith(lines: seq<string>, pattern: string): (k: nat)
    ensures k <= |lines|
    ensures k < |lines| ==> StartWith(lines[k], pattern)
    ensures forall i | 0 <= i < k :: !StartWith(lines[i], pattern)
  {
    if lines == [] || StartWith(lines[0], pattern) then 0 else 1 + FirstWith(lines[1..], pattern)
  }

  /** The number is what stands between column 16 and the next CR. */
  function LengthOnLine(line: string): int {
    if |line| < 16 then 0 else Atoi(line[16..16 + RunLength(line[16..], {'\r'})])
  }

  lemma ValueOnLine(name: string, value: string)
    requires |name| == 15 && value != "" && '\r' !in value
    ensures LengthOnLine(name + value + CRLF) == Atoi(value[1..])
  {
    hide Atoi;
    var line, rest := name + value + CRLF, value[1..];
    assert line[16..] == rest + CRLF;
    assert forall c | c in rest :: c in value;
    RunLengthWord(rest, CRLF, {'\r'});
    assert line[16..16 + |rest|] == rest;
  }

  /** What is read from a field that is a name of fifteen characters, white space and a number: the number, exactly when
      there is white space or the number is 0. Otherwise its first digit is skipped. */
  lemma LengthReadExactly(name: string, space: string, n: nat)
    requires |name| == 15 && (forall c | c in space :: c in WHITESPACE && c != '\r')
    ensures LengthOnLine(name + (space + Itoa(n)) + CRLF) == n <==> space != "" || n == 0
  {
    hide LengthOnLine;
    var digits := Itoa(n);
    ValueOnLine(name, space + digits);
    if space != "" {
      assert (space + digits)[1..] == space[1..] + digits && forall c | c in space[1..] :: c in space;
      AtoiSkips(space[1..], digits);
      AtoiItoa(n, "");
      assert digits + "" == digits;
    } else {
      assert space + digits == digits && forall c | c in digits[1..] :: c in digits;
      AtoiDigits(digits[1..]);
      if n > 0 {
        TailSmaller(n);
      }
    }
  }

  /** For instance 23 for 123. */
  lemma FirstDigitSkipped()
    ensures LengthOnLine("Content-Length:123\r\n") == 23
  {
    var line := "Content-Length:123\r\n";
    assert line[16..] == "23" + CRLF;
    RunLengthWord("23", CRLF, {'\r'});
    assert line[16..18] == "23" && "23"[1..] == "3" && "3"[1..] == "";
    AtoiDigits("23");
    assert DigitRun("23", 0) == DigitRun("3", 2) == DigitRun("", 23);
  }

  /** A Content-Length line is present and carries a CR; the C loops run out of the buffer otherwise. */
  ghost predicate HasLength(header: string) {
    var lines := Lines(header);
    var k := FirstWith(lines, "Content-Length:");
    k < |lines| && |lines[k]| > 16 && '\r' in lines[k][16..]
  }

  ghost function LengthIn(header: string): int
    requires HasLength(header)
  {
    LengthOnLine(Lines(header)[FirstWith(Lines(header), "Content-Length:")])
  }

  /** The inner loop of `get_response_content_length`: copy up to the CR. */
  method ReadLength(line: string) returns (length: int)
    requires |line| > 16 && '\r' in line[16..]
    ensures length == LengthOnLine(line)
  {
    var j := 16;
    ghost var tail := line[16..];
    while line[j] != '\r'
      invariant 16 <= j < |line| && j - 16 <= RunLength(tail, {'\r'}) < |tail|
      decreases |line| - j
    {
      assert tail[j - 16] == line[j];
      j := j + 1;
    }
    assert tail[j - 16] == line[j];
    length := Atoi(line[16..j]);
  }

  /** `get_response_content_length`. */
  method GetContentLength(header: string) returns (length: int)
    requires HasLength(header)
    ensures length == LengthIn(header)
  {
    var p := header;
    ghost var rest := Lines(header);
    while true
      invariant rest == Lines(p)
      invariant FirstWith(rest, "Content-Length:") < |rest|
      invariant rest[FirstWith(rest, "Content-Length:")] == Lines(header)[FirstWith(Lines(header), "Content-Length:")]
      decreases |p|
    {
      var line;
      line, p := ReadLine(p);
      var isLength := StartsWith(line, "Content-Length:");
      if isLength {
        length := ReadLength(line);
        return;
      }
      rest := rest[1..];
    }
  }

  // ----- lemmas about lines

  ghost predicate IsLine(line: string) {
    line != "" && line[|line| - 1] == '\n' && '\n' !in line[..|line| - 1]
  }

  lemma LinesCons(line: string, rest: string)
    requires IsLine(line)
    ensures Lines(line + rest) == [line] + Lines(rest)
  {
    var w := line[..|line| - 1];
    assert line + rest == w + (['\n'] + rest);
    RunLengthWord(w, ['\n'] + rest, {'\n'});
    assert (line + rest)[..|line|] == line && (line + rest)[|line|..] == rest;
  }

  lemma FlattenFirst(lines: seq<string>, rest: string)
    requires lines != []
    ensures Flatten(lines) + rest == lines[0] + (Flatten(lines[1..]) + rest)
  {
  }

  lemma FlattenNone(rest: string)
    ensures Flatten([]) + rest == rest
  {
  }

  lemma {:induction false} LinesFlatten(lines: seq<string>, rest: string)
    requires forall l | l in lines :: IsLine(l)
    ensures Lines(Flatten(lines) + rest) == lines + Lines(rest)
  {
    hide *;
    if lines == [] {
      FlattenNone(rest);
    } else {
      var tail := Flatten(lines[1..]) + rest;
      FlattenFirst(lines, rest);
      assert IsLine(lines[0]) && forall l | l in lines[1..] :: l in lines;
      LinesCons(lines[0], tail);
      LinesFlatten(lines[1..], rest);
      assert [lines[0]] + (lines[1..] + Lines(rest)) == lines + Lines(rest);
    }
  }

  lemma {:induction false} FlattenLines(s: string)
    ensures Flatten(Lines(s)) == s
    decreases |s|
  {
    if s != "" {
      FlattenLines(s[LineLength(s)..]);
      assert s == s[..LineLength(s)] + s[LineLength(s)..];
    }
  }
}
