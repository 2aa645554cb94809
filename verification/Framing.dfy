/** What the rewritten manifest message means to the proxy's own reader, which lines the filter keeps,
    and what it records in the session (src/handle.c). */
module Framing {
  import opened Text
  import opened HttpText
  import opened Manifest

  // ----- the filter: lines through the first </media>, without bitrate lines

  /** How many lines are considered: through the first `</media>` line, but not past the end of the manifest. */
  function CutAt(lines: seq<string>): (n: nat)
    ensures n <= |lines|
  {
    if lines == [] || KindOf(lines[0]).End? then 0
    else if KindOf(lines[0]).Media? then 1
    else 1 + CutAt(lines[1..])
  }

  function WithoutBitrate(lines: seq<string>): seq<string> {
    if lines == [] then []
    else (if KindOf(lines[0]).Bitrate? then [] else [lines[0]]) + WithoutBitrate(lines[1..])
  }

  function KeptLines(lines: seq<string>): seq<string> {
    WithoutBitrate(lines[..CutAt(lines)])
  }

  lemma {:induction false} NothingAfterMedia(lines: seq<string>)
    requires HasEnd(lines)
    ensures Filtered(lines, true) == END
  {
    EndLater(lines);
    if KindOf(lines[0]).End? {
      assert END + "" == END;
    } else {
      NothingAfterMedia(lines[1..]);
      assert "" + END == END;
    }
  }

  /** The kept lines, one line at a time. */
  lemma KeptLinesNext(lines: seq<string>)
    requires lines != []
    ensures KeptLines(lines) == match KindOf(lines[0])
                                case End => []
                                case Media => [lines[0]]
                                case Bitrate => KeptLines(lines[1..])
                                case Other => [lines[0]] + KeptLines(lines[1..])
  {
    var l, rest := lines[0], lines[1..];
    if KindOf(l).End? {
      assert lines[..0] == [];
    } else if KindOf(l).Media? {
      assert lines[..1] == [l];
      assert WithoutBitrate([l]) == [l] + WithoutBitrate([l][1..]);
    } else {
      assert lines[..CutAt(lines)] == [l] + rest[..CutAt(rest)];
      assert ([l] + rest[..CutAt(rest)])[1..] == rest[..CutAt(rest)];
    }
  }

  lemma FlattenCons(l: string, rest: seq<string>)
    ensures Flatten([l] + rest) + END == l + (Flatten(rest) + END)
  {
    assert ([l] + rest)[1..] == rest;
    Associative(l, Flatten(rest), END);
  }

  /** The filtered manifest is the kept lines followed by `</manifest>`, as the code tells the lines apart. */
  lemma {:induction false} KeptAsRead(lines: seq<string>)
    requires HasEnd(lines)
    ensures Filtered(lines, false) == Flatten(KeptLines(lines)) + END
  {
    EndLater(lines);
    KeptLinesNext(lines);
    var l, rest := lines[0], lines[1..];
    if KindOf(l).End? {
      assert END + "" == END && Flatten([]) + END == END;
    } else if KindOf(l).Media? {
      NothingAfterMedia(rest);
      FlattenCons(l, []);
      assert [l] + [] == [l] && Flatten([]) + END == END;
    } else {
      KeptAsRead(rest);
      FlattenCons(l, KeptLines(rest));
    }
  }

  lemma {:induction false} KeptLinesKinds(lines: seq<string>)
    requires forall i | 0 <= i < |lines| - 1 :: IsLine(lines[i])
    requires HasEnd(lines)
    ensures forall l | l in KeptLines(lines) :: IsLine(l) && !KindOf(l).Bitrate? && !KindOf(l).End?
    ensures forall i | 0 <= i < |KeptLines(lines)| - 1 :: !KindOf(KeptLines(lines)[i]).Media?
  {
    hide KindOf, KeptLines, IsLine, HasEnd;
    EndPosition(lines);
    EndLater(lines);
    KeptLinesNext(lines);
    var rest := lines[1..];
    if KindOf(lines[0]).Bitrate? || KindOf(lines[0]).Other? {
      forall i | 0 <= i < |rest| - 1
        ensures IsLine(rest[i])
      {
        assert rest[i] == lines[i + 1];
      }
      KeptLinesKinds(rest);
    }
  }

  lemma EndPosition(lines: seq<string>)
    requires HasEnd(lines)
    ensures lines != [] && (!KindOf(lines[0]).End? ==> |lines| > 1)
  {
  }

  /** Lines that the filter has kept are kept again. */
  lemma {:induction false} KeptAgain(kept: seq<string>)
    requires forall l | l in kept :: !KindOf(l).Bitrate? && !KindOf(l).End?
    requires forall i | 0 <= i < |kept| - 1 :: !KindOf(kept[i]).Media?
    ensures HasEnd(kept + [END]) && KeptLines(kept + [END]) == kept
  {
    var lines := kept + [END];
    EndIsEnd();
    assert KindOf(lines[|kept|]).End?;
    KeptLinesNext(lines);
    if kept != [] {
      assert lines[0] == kept[0] && kept[0] in kept && lines[1..] == kept[1..] + [END];
      if !KindOf(kept[0]).Media? {
        forall i | 0 <= i < |kept[1..]| - 1
          ensures !KindOf(kept[1..][i]).Media?
        {
          assert kept[1..][i] == kept[i + 1];
        }
        KeptAgain(kept[1..]);
      }
    }
  }

  lemma EndIsEnd()
    ensures KindOf(END) == End
  {
    StartWithPlain(END, "bitrate");
    StartWithPlain(END, "</media>");
    StartWithPlain(END, END);
    assert "bitrate"[0] != END[0] && "</media>"[3] != END[3];
  }

  lemma EndIsOneLine()
    ensures Lines(END) == [END]
  {
    RunLengthWord(END, "", {'\n'});
    assert END + "" == END;
    assert END[..|END|] == END && END[|END|..] == "";
  }

  lemma {:induction false} LinesAreLines(s: string)
    ensures forall i | 0 <= i < |Lines(s)| - 1 :: IsLine(Lines(s)[i])
    decreases |s|
  {
    if s != "" {
      var n := LineLength(s);
      LinesAreLines(s[n..]);
      if s[n..] != "" {
        assert '\n' !in s[..n][..n - 1];
        assert IsLine(s[..n]);
      }
      forall i | 0 <= i < |Lines(s)| - 1
        ensures IsLine(Lines(s)[i])
      {
        if i > 0 {
          assert Lines(s)[i] == Lines(s[n..])[i - 1];
        }
      }
    }
  }

  /** Filtering a filtered manifest changes nothing. */
  lemma FilterIdempotent(xml: string)
    requires HasEnd(Lines(xml))
    ensures HasEnd(Lines(Kept(xml))) && Kept(Kept(xml)) == Kept(xml)
  {
    var kept := KeptLines(Lines(xml));
    LinesAreLines(xml);
    KeptLinesKinds(Lines(xml));
    KeptAsRead(Lines(xml));
    EndIsOneLine();
    LinesFlatten(kept, END);
    KeptAgain(kept);
    KeptAsRead(kept + [END]);
  }

  // ----- the recorded bitrates

  ghost predicate FilledPrefix(slots: seq<int>, k: nat) {
    && k <= |slots|
    && (forall i | 0 <= i < k :: slots[i] != -1)
    && forall i | k <= i < |slots| :: slots[i] == -1
  }

  function Real(rates: seq<int>): seq<int> {
    if rates == [] then [] else (if rates[0] == -1 then [] else [rates[0]]) + Real(rates[1..])
  }

  /** As many of the rates as there is room for. */
  function Fitting(room: nat, rates: seq<int>): (r: seq<int>)
    ensures |r| == if |rates| <= room then |rates| else room
  {
    if |rates| <= room then rates else rates[..room]
  }

  /** The slots with `rates` written from slot `k` on. */
  function FilledFrom(slots: seq<int>, k: nat, rates: seq<int>): seq<int>
    requires k <= |slots|
  {
    var fitting := Fitting(|slots| - k, rates);
    slots[..k] + fitting + slots[k + |fitting|..]
  }

  lemma FilledStep(slots: seq<int>, k: nat, rate: int, rest: seq<int>)
    requires k < |slots|
    ensures FilledFrom(slots, k, [rate] + rest) == FilledFrom(slots[k := rate], k + 1, rest)
  {
    var fitting := Fitting(|slots| - (k + 1), rest);
    assert Fitting(|slots| - k, [rate] + rest) == [rate] + fitting;
  }

  lemma RealNext(rates: seq<int>)
    requires rates != []
    ensures Real(rates) == if rates[0] == -1 then Real(rates[1..]) else [rates[0]] + Real(rates[1..])
  {
    assert [] + Real(rates[1..]) == Real(rates[1..]);
  }

  lemma FillAllNext(slots: seq<int>, k: nat, rates: seq<int>)
    requires FilledPrefix(slots, k) && rates != []
    ensures FillAll(slots, rates) == FillAll(if k < |slots| then slots[k := rates[0]] else slots, rates[1..])
  {
    FillSlotAt(slots, k, rates[0]);
  }

  lemma NothingToFill(slots: seq<int>, k: nat, rates: seq<int>)
    requires k <= |slots| && (k == |slots| || rates == [])
    ensures FilledFrom(slots, k, rates) == slots
  {
  }

  /** The slots stay a filled prefix followed by -1s: the new rates, in manifest order, fill the free slots until
      none is left. (A rate of -1 fills nothing.) */
  lemma {:induction false} RatesFillInOrder(slots: seq<int>, k: nat, rates: seq<int>)
    requires FilledPrefix(slots, k)
    ensures FilledPrefix(FillAll(slots, rates), k + |Fitting(|slots| - k, Real(rates))|)
    ensures FillAll(slots, rates) == FilledFrom(slots, k, Real(rates))
    decreases |rates|
  {
    hide FilledFrom, FillAll, Real;
    if rates == [] {
      NoRates(slots);
      NothingToFill(slots, k, []);
    } else {
      var r, rest := rates[0], rates[1..];
      FillAllNext(slots, k, rates);
      RealNext(rates);
      if r == -1 || k == |slots| {
        assert k < |slots| ==> slots[k := -1] == slots;
        RatesFillInOrder(slots, k, rest);
        if k == |slots| {
          NothingToFill(slots, k, Real(rest));
          NothingToFill(slots, k, Real(rates));
        }
      } else {
        RatesFillInOrder(slots[k := r], k + 1, rest);
        FilledStep(slots, k, r, Real(rest));
      }
    }
  }

  lemma NoRates(slots: seq<int>)
    ensures Real([]) == [] && FillAll(slots, []) == slots
  {
  }

  // ----- framing of the rewritten message

  /** A header field without its line end. */
  ghost predicate Clean(h: string) {
    h != "" && forall c | c in h :: c != '\r' && c != '\n'
  }

  function WithCrlf(hs: seq<string>): (r: seq<string>)
    ensures |r| == |hs| && forall i | 0 <= i < |r| :: r[i] == hs[i] + CRLF
  {
    seq(|hs|, i requires 0 <= i < |hs| => hs[i] + CRLF)
  }

  ghost predicate HeaderLine(l: string) {
    exists h :: Clean(h) && l == h + CRLF
  }

  /** The proxy's own reader finds a header end, and a Content-Length that counts exactly the bytes after it. */
  ghost predicate Framed(out: string) {
    exists n: nat :: StopsAt(out, n) && HasLength(out[..n]) && LengthIn(out[..n]) == |out| - n
  }

  lemma {:induction false} RunOther(state: nat, s: string)
    requires (forall c | c in s :: c != '\r' && c != '\n') && (state == 0 || (state == 2 && s != ""))
    ensures Run(state, s) == 0
    decreases |s|
  {
    if s != "" {
      assert s[0] in s && forall c | c in s[1..] :: c in s;
      RunOther(0, s[1..]);
    }
  }

  lemma RunCrlf()
    ensures Run(0, CRLF) == 2
  {
    assert CRLF[1..] == "\n" && "\n"[1..] == "";
  }

  lemma HeaderLineIsLine(l: string)
    requires HeaderLine(l)
    ensures IsLine(l) && Run(0, l) == 2 && Run(2, l) == 2
  {
    var h :| Clean(h) && l == h + CRLF;
    assert l[..|l| - 1] == h + "\r";
    RunCrlf();
    RunOther(0, h);
    RunOther(2, h);
    RunAppend(0, h, CRLF);
    RunAppend(2, h, CRLF);
  }

  /** Reading header lines leaves the scanner at a line end. */
  lemma {:induction false} RunHeaderLines(state: nat, lines: seq<string>)
    requires (forall l | l in lines :: HeaderLine(l)) && (state == 2 || (state == 0 && lines != []))
    ensures Run(state, Flatten(lines)) == 2
    decreases |lines|
  {
    if lines != [] {
      assert lines[0] in lines;
      HeaderLineIsLine(lines[0]);
      RunAppend(state, lines[0], Flatten(lines[1..]));
      RunHeaderLines(2, lines[1..]);
    }
  }

  /** After a line's CR the scanner waits for the next LF, whatever comes between. */
  lemma {:induction false} RunToLf(s: string)
    requires '\n' !in s
    ensures Run(3, s) == 3
  {
    if s != "" {
      assert s[0] in s;
      RunToLf(s[1..]);
    }
  }

  lemma RunToBlank(lines: seq<string>, text: string)
    requires (forall l | l in lines :: HeaderLine(l)) && lines != [] && '\n' !in text
    ensures Run(0, Flatten(lines) + "\r" + text) == 3
  {
    hide HeaderLine, Flatten;
    RunHeaderLines(0, lines);
    RunAppend(0, Flatten(lines), "\r");
    assert Run(2, "\r") == 3 by { assert "\r"[1..] == ""; }
    RunAppend(0, Flatten(lines) + "\r", text);
    RunToLf(text);
  }

  /** A text that leaves the scanner waiting for LF stops it at its end when LF follows. */
  lemma StopsAtNextLf(before: string, after: string)
    requires Run(0, before) == 3
    ensures forall n :: StopsAt(before + "\n" + after, n) <==> n == |before| + 1
  {
    var out := before + "\n" + after;
    assert out[..|before|] == before && out[|before|] == '\n';
    RunSnoc(0, out, |before|);
    forall n | StopsAt(out, n)
      ensures n == |before| + 1
    {
      StopsAtUnique(out, n, |before| + 1);
    }
  }

  lemma NoStopYet(before: string)
    requires Run(0, before) == 3
    ensures forall n :: !StopsAt(before, n)
  {
    forall n | StopsAt(before, n)
      ensures false
    {
      assert before[..|before|] == before;
      RunPrefix(before, n, |before|);
    }
  }

  lemma SplitAtLf(head: string, kept: string, x: nat)
    requires x < |kept| && kept[x] == '\n'
    ensures head + kept == (head + kept[..x]) + "\n" + kept[x + 1..]
  {
  }

  /** Where the scanner stops in a rewritten message: at the first LF of the kept text. */
  lemma StopsAtFirstLf(lines: seq<string>, kept: string)
    requires lines != [] && forall l | l in lines :: HeaderLine(l)
    ensures var out, x := Flatten(lines) + "\r" + kept, RunLength(kept, {'\n'});
      forall n :: StopsAt(out, n) <==> x < |kept| && n == |Flatten(lines)| + 1 + x + 1
  {
    hide StopsAt, Run, Flatten, HeaderLine;
    var r, x := Flatten(lines) + "\r", RunLength(kept, {'\n'});
    RunToBlank(lines, kept[..x]);
    if x < |kept| {
      SplitAtLf(r, kept, x);
      StopsAtNextLf(r + kept[..x], kept[x + 1..]);
    } else {
      assert kept[..x] == kept;
      NoStopYet(r + kept);
    }
  }

  lemma {:induction false} FirstWithAppend(a: seq<string>, b: seq<string>, pattern: string)
    requires FirstWith(a, pattern) < |a|
    ensures FirstWith(a + b, pattern) == FirstWith(a, pattern)
  {
    if !StartWith(a[0], pattern) {
      assert (a + b)[1..] == a[1..] + b;
      FirstWithAppend(a[1..], b, pattern);
    }
  }

  lemma LengthLineNumber(n: nat)
    ensures var l := LengthLine(n); |l| > 16 && '\r' in l[16..] && LengthOnLine(l) == n
  {
    var l, digits := LengthLine(n), Itoa(n);
    assert l[16..] == digits + CRLF;
    assert (digits + CRLF)[|digits|] == '\r';
    RunLengthWord(digits, CRLF, {'\r'});
    assert l[16..16 + |digits|] == digits == digits + "";
    AtoiItoa(n, "");
  }

  lemma LengthLineReads(n: nat)
    ensures var l := LengthLine(n);
      |l| > 16 && '\r' in l[16..] && LengthOnLine(l) == n && HeaderLine(l) && StartWith(l, "Content-Length:")
  {
    hide LengthOnLine;
    LengthLineNumber(n);
    assert Clean("Content-Length: " + Itoa(n));
    StartWithPlain(LengthLine(n), "Content-Length:");
  }

  /** What the reader finds as Content-Length, anywhere past the header lines. */
  lemma LengthFound(lines: seq<string>, rest: string, length: nat)
    requires forall l | l in lines :: HeaderLine(l)
    requires var u := FirstWith(lines, "Content-Length:"); u < |lines| && lines[u] == LengthLine(length)
    ensures HasLength(Flatten(lines) + rest) && LengthIn(Flatten(lines) + rest) == length
  {
    forall l | l in lines
      ensures IsLine(l)
    {
      HeaderLineIsLine(l);
    }
    LinesFlatten(lines, rest);
    FirstWithAppend(lines, Lines(rest), "Content-Length:");
    LengthLineReads(length);
  }

  /** The stop, and what has been read by then. */
  lemma StopOfOutput(lines: seq<string>, kept: string) returns (n: nat, read: string)
    requires lines != [] && forall l | l in lines :: HeaderLine(l)
    requires '\n' in kept
    ensures var out := Flatten(lines) + "\r" + kept;
      StopsAt(out, n) && out[..n] == Flatten(lines) + read && n <= |out|
    ensures |Flatten(lines) + "\r" + kept| - n == |kept| - 1 <==> kept[0] == '\n'
  {
    var x := RunLength(kept, {'\n'});
    StopsAtFirstLf(lines, kept);
    n, read := |Flatten(lines)| + 1 + x + 1, "\r" + kept[..x + 1];
    PrefixOfOutput(Flatten(lines), kept, x);
  }

  /** The heart of the matter: a header with the announced length `|kept| - 1`, a CR, and the kept text form a
      framed message exactly when the kept text begins with LF. */
  lemma FramedWhenLfFirst(lines: seq<string>, kept: string)
    requires kept != "" && forall l | l in lines :: HeaderLine(l)
    requires var u := FirstWith(lines, "Content-Length:"); u < |lines| && lines[u] == LengthLine(|kept| - 1)
    ensures Framed(Flatten(lines) + "\r" + kept) <==> kept[0] == '\n'
  {
    if '\n' in kept {
      var n, read := StopOfOutput(lines, kept);
      LengthFound(lines, read, |kept| - 1);
      FramedAt(Flatten(lines) + "\r" + kept, n, Flatten(lines) + read, |kept| - 1);
    } else {
      NeverStops(lines, kept);
      assert kept[0] in kept;
    }
  }

  lemma NeverStops(lines: seq<string>, kept: string)
    requires lines != [] && forall l | l in lines :: HeaderLine(l)
    requires '\n' !in kept
    ensures !Framed(Flatten(lines) + "\r" + kept)
  {
    StopsAtFirstLf(lines, kept);
  }

  lemma PrefixOfOutput(r: string, kept: string, x: nat)
    requires x < |kept|
    ensures (r + "\r" + kept)[..|r| + 1 + x + 1] == r + ("\r" + kept[..x + 1])
  {
  }

  /** Once the stop and the announced length are known. */
  lemma FramedAt(out: string, n: nat, header: string, length: nat)
    requires StopsAt(out, n) && out[..n] == header && HasLength(header) && LengthIn(header) == length
    ensures Framed(out) <==> length == |out| - n
  {
    forall m: nat | StopsAt(out, m)
      ensures m == n
    {
      StopsAtUnique(out, m, n);
    }
  }

  // ----- the new header

  lemma {:induction false} NewHeadStops(a: seq<string>, b: seq<string>, length: nat)
    requires HasType(a)
    ensures NewHead(a + b, length) == NewHead(a, length)
  {
    TypeLater(a);
    assert (a + b)[1..] == a[1..] + b;
    if !IsType(a[0]) {
      NewHeadStops(a[1..], b, length);
    }
  }

  /** The new header consists of header lines, and the first Content-Length line is the new one. */
  lemma {:induction false} NewHeadLines(lines: seq<string>, length: nat)
    requires HasType(lines) && forall l | l in lines :: HeaderLine(l)
    ensures forall l | l in NewHead(lines, length) :: HeaderLine(l)
    ensures NewHead(lines, length) != []
    ensures FirstWith(lines, "Content-Length") < FirstWith(lines, "Content-Type") ==>
              var written, u := NewHead(lines, length), FirstWith(NewHead(lines, length), "Content-Length:");
              u < |written| && written[u] == LengthLine(length)
  {
    TypeLater(lines);
    LengthLineReads(length);
    var l := lines[0];
    assert l in lines;
    if StartWith(l, "Content-Length") {
      NewHeadLines(lines[1..], length);
    } else if StartWith(l, "Content-Type") {
    } else {
      NewHeadLines(lines[1..], length);
      if StartWith(l, "Content-Length:") {
        StartWithPrefix(l, "Content-Length:", "Content-Length");
      }
    }
  }

  /** Line by line: the new header ends with the Content-Type line, announces the new length wherever a length was announced,
      and is otherwise the old one. */
  lemma {:induction false} NewHeadAt(lines: seq<string>, length: nat)
    requires HasType(lines)
    ensures var head := NewHead(lines, length);
      && 0 < |head| <= |lines| && IsType(lines[|head| - 1]) && (forall i | 0 <= i < |head| - 1 :: !IsType(lines[i]))
      && forall i | 0 <= i < |head| ::
           head[i] == if StartWith(lines[i], "Content-Length") then "Content-Length: " + Itoa(length) + "\r\n" else lines[i]
  {
    hide StartWith;
    TypeLater(lines);
    if !IsType(lines[0]) {
      NewHeadAt(lines[1..], length);
    }
  }

  /** Without a Content-Length line nothing is added. */
  lemma {:induction false} NewHeadPlain(lines: seq<string>, length: nat)
    requires HasType(lines) && forall l | l in lines :: !StartWith(l, "Content-Length")
    ensures NewHead(lines, length) != [] && forall l | l in NewHead(lines, length) :: l in lines
  {
    hide StartWith;
    TypeLater(lines);
    assert lines[0] in lines && forall l | l in lines[1..] :: l in lines;
    if !StartWith(lines[0], "Content-Type") {
      NewHeadPlain(lines[1..], length);
    }
  }

  lemma {:induction false} FirstWithNone(lines: seq<string>, pattern: string)
    requires forall l | l in lines :: !StartWith(l, pattern)
    ensures FirstWith(lines, pattern) == |lines|
  {
    if lines != [] {
      assert lines[0] in lines && forall l | l in lines[1..] :: l in lines;
      FirstWithNone(lines[1..], pattern);
    }
  }

  /** The line that the scanner reads after the header lines. */
  lemma LastLineRead(text: string)
    requires '\n' !in text
    ensures var line := "\r" + text + "\n"; IsLine(line) && !StartWith(line, "Content-Length:")
  {
    var line := "\r" + text + "\n";
    assert line[..|line| - 1] == "\r" + text;
    StartWithPlain(line, "Content-Length:");
    assert line[0] != "Content-Length:"[0];
  }

  lemma NothingFound(lines: seq<string>, text: string)
    requires forall l | l in lines :: HeaderLine(l) && !StartWith(l, "Content-Length:")
    requires '\n' !in text
    ensures !HasLength(Flatten(lines) + ("\r" + text + "\n"))
  {
    hide Flatten, HeaderLine, StartWith;
    var line := "\r" + text + "\n";
    LastLineRead(text);
    forall l | l in lines
      ensures IsLine(l)
    {
      HeaderLineIsLine(l);
    }
    LinesFlatten(lines, line);
    LinesCons(line, "");
    assert line + "" == line && [line] + Lines("") == [line];
    FirstWithNone(lines + [line], "Content-Length:");
  }

  /** Header lines without a Content-Length announce nothing. */
  lemma NotFramedWithoutLength(lines: seq<string>, kept: string)
    requires lines != [] && forall l | l in lines :: HeaderLine(l) && !StartWith(l, "Content-Length:")
    ensures !Framed(Flatten(lines) + "\r" + kept)
  {
    hide HasLength, LengthIn, StopsAt, HeaderLine, StartWith, Flatten;
    var x := RunLength(kept, {'\n'});
    StopsAtFirstLf(lines, kept);
    if x < |kept| {
      PrefixOfOutput(Flatten(lines), kept, x);
      assert kept[..x + 1] == kept[..x] + "\n";
      assert "\r" + kept[..x + 1] == "\r" + kept[..x] + "\n";
      NothingFound(lines, kept[..x]);
    }
  }

  // ----- the split at the offset

  /** The message as it arrives: header fields, a blank line, the manifest. */
  ghost function Message(hs: seq<string>, body: string): string {
    Flatten(WithCrlf(hs)) + (CRLF + body)
  }

  /** What follows the Content-Type line, which is field `t`. */
  ghost function AfterType(hs: seq<string>, t: nat, body: string): (r: string)
    requires t < |hs|
    ensures r != ""
  {
    Flatten(WithCrlf(hs[t + 1..])) + (CRLF + body)
  }

  /** The text before the offset: it ends one byte into the line after Content-Type. */
  ghost function HeadPart(hs: seq<string>, t: nat, body: string): string
    requires t < |hs|
  {
    Flatten(WithCrlf(hs[..t + 1])) + AfterType(hs, t, body)[..1]
  }

  ghost function XmlPart(hs: seq<string>, t: nat, body: string): string
    requires t < |hs|
  {
    AfterType(hs, t, body)[1..]
  }

  lemma {:induction false} FlattenAppend(a: seq<string>, b: seq<string>)
    ensures Flatten(a + b) == Flatten(a) + Flatten(b)
  {
    if a == [] {
      assert a + b == b;
    } else {
      FlattenAppend(a[1..], b);
      assert (a + b)[1..] == a[1..] + b;
      Associative(a[0], Flatten(a[1..]), Flatten(b));
    }
  }

  /** The two parts are the message. */
  lemma PartsOfMessage(hs: seq<string>, t: nat, body: string)
    requires t < |hs|
    ensures HeadPart(hs, t, body) + XmlPart(hs, t, body) == Message(hs, body)
  {
    assert WithCrlf(hs) == WithCrlf(hs[..t + 1]) + WithCrlf(hs[t + 1..]);
    FlattenAppend(WithCrlf(hs[..t + 1]), WithCrlf(hs[t + 1..]));
    Associative(Flatten(WithCrlf(hs[..t + 1])), Flatten(WithCrlf(hs[t + 1..])), CRLF + body);
    var after := AfterType(hs, t, body);
    assert after == after[..1] + after[1..];
    Associative(Flatten(WithCrlf(hs[..t + 1])), after[..1], after[1..]);
  }

  /** A manifest response: clean fields, and field `t` the first Content-Type. */
  ghost predicate GoodHeader(hs: seq<string>, t: nat) {
    && (forall h | h in hs :: Clean(h))
    && t == FirstWith(WithCrlf(hs), "Content-Type") < |hs|
    && !StartWith(WithCrlf(hs)[t], "Content-Length")
  }

  /** A Content-Length comes before field `t`. */
  predicate LengthBefore(hs: seq<string>, t: nat) {
    FirstWith(WithCrlf(hs), "Content-Length") < t
  }

  lemma {:induction false} FirstWithIs(lines: seq<string>, pattern: string, k: nat)
    requires k < |lines| && StartWith(lines[k], pattern) && forall i | 0 <= i < k :: !StartWith(lines[i], pattern)
    ensures FirstWith(lines, pattern) == k
  {
    if k > 0 {
      FirstWithIs(lines[1..], pattern, k - 1);
    }
  }

  lemma FieldsAreHeaderLines(hs: seq<string>)
    requires forall h | h in hs :: Clean(h)
    ensures forall l | l in WithCrlf(hs) :: HeaderLine(l) && IsLine(l)
  {
    forall l | l in WithCrlf(hs)
      ensures HeaderLine(l) && IsLine(l)
    {
      var i :| 0 <= i < |hs| && WithCrlf(hs)[i] == l;
      assert hs[i] in hs && l == hs[i] + CRLF;
      HeaderLineIsLine(l);
    }
  }

  /** The fields through Content-Type, on their own. */
  lemma FieldsThroughType(hs: seq<string>, t: nat)
    requires GoodHeader(hs, t)
    ensures var fields := WithCrlf(hs[..t + 1]);
      && HasType(fields) && (forall l | l in fields :: HeaderLine(l) && IsLine(l))
      && (LengthBefore(hs, t) ==> FirstWith(fields, "Content-Length") < FirstWith(fields, "Content-Type"))
      && (!LengthBefore(hs, t) ==> forall l | l in fields :: !StartWith(l, "Content-Length"))
  {
    hide FirstWith, StartWith, HeaderLine, IsLine, Clean;
    var all, fields := WithCrlf(hs), WithCrlf(hs[..t + 1]);
    assert fields == all[..t + 1];
    assert forall h | h in hs[..t + 1] :: h in hs;
    FieldsAreHeaderLines(hs[..t + 1]);
    if LengthBefore(hs, t) {
      FirstWithIs(fields, "Content-Length", FirstWith(all, "Content-Length"));
      FirstWithIs(fields, "Content-Type", t);
    }
    assert IsType(fields[t]);
  }

  /** The new header is that of the fields alone: the loop does not reach the byte behind them. */
  lemma HeadPartLines(hs: seq<string>, t: nat, body: string, length: nat)
    requires GoodHeader(hs, t)
    ensures HasType(Lines(HeadPart(hs, t, body)))
    ensures NewHead(Lines(HeadPart(hs, t, body)), length) == NewHead(WithCrlf(hs[..t + 1]), length)
  {
    hide FirstWith, HeaderLine, IsLine, Clean, StartWith, Lines, NewHead, IsType;
    var fields, tail := WithCrlf(hs[..t + 1]), Lines(AfterType(hs, t, body)[..1]);
    FieldsThroughType(hs, t);
    LinesFlatten(fields, AfterType(hs, t, body)[..1]);
    var i :| 0 <= i < |fields| && IsType(fields[i]);
    assert (fields + tail)[i] == fields[i];
    NewHeadStops(fields, tail, length);
  }

  // ----- the kept text of a message

  predicate BeginsWithLf(s: string) {
    s != "" && s[0] == '\n'
  }

  /** Lines none of which begins with LF, up to a blank CRLF line, leave something that does not begin with LF. */
  lemma {:induction false} NoLeadingLf(lines: seq<string>, m: nat)
    requires HasEnd(lines) && m < |lines| && lines[m] == CRLF
    requires forall i | 0 <= i <= m :: lines[i] != "" && lines[i][0] != '\n'
    ensures !BeginsWithLf(Filtered(lines, false))
  {
    EndLater(lines);
    var rest := Filtered(lines[1..], KindOf(lines[0]).Media?);
    if m == 0 {
      CrlfIsOther();
    }
    if KindOf(lines[0]).Bitrate? {
      NoLeadingLf(lines[1..], m - 1);
      assert "" + rest == rest;
    } else if KindOf(lines[0]).End? {
      assert Filtered(lines, false) == END + "";
      assert (END + "")[0] == '<';
    } else {
      assert (lines[0] + rest)[0] == lines[0][0];
    }
  }

  lemma CrlfIsOther()
    ensures KindOf(CRLF) == Other && KindOf("\n") == Other
  {
    StartWithPlain(CRLF, "bitrate");
    StartWithPlain(CRLF, "</media>");
    StartWithPlain(CRLF, END);
    StartWithPlain("\n", "bitrate");
    StartWithPlain("\n", "</media>");
    StartWithPlain("\n", END);
  }

  /** When Content-Type is the last field, the kept text is LF and the filtered manifest. */
  lemma KeptWhenLast(body: string)
    requires HasEnd(Lines("\n" + body))
    ensures HasEnd(Lines(body)) && Kept("\n" + body) == "\n" + Kept(body)
  {
    LinesCons("\n", body);
    CrlfIsOther();
    EndLater(Lines("\n" + body));
    assert ("\n" + body) != "" && ["\n"] + Lines(body) == Lines("\n" + body);
    assert (["\n"] + Lines(body))[1..] == Lines(body);
  }

  lemma XmlPartShape(hs: seq<string>, t: nat, body: string)
    requires t + 1 < |hs| && hs[t + 1] != ""
    ensures XmlPart(hs, t, body) == (hs[t + 1][1..] + CRLF) + (Flatten(WithCrlf(hs[t + 2..])) + (CRLF + body))
  {
    assert WithCrlf(hs[t + 1..]) == [hs[t + 1] + CRLF] + WithCrlf(hs[t + 2..]);
  }

  lemma LaterLines(hs: seq<string>, l: string)
    requires (forall h | h in hs :: Clean(h)) && l in WithCrlf(hs)
    ensures HeaderLine(l) && IsLine(l) && l[0] != '\n'
  {
    var i :| 0 <= i < |hs| && WithCrlf(hs)[i] == l;
    assert hs[i] in hs && hs[i][0] in hs[i];
    HeaderLineIsLine(l);
  }

  lemma RestOfFieldIsLine(h: string)
    requires Clean(h)
    ensures IsLine(h[1..] + CRLF) && (h[1..] + CRLF)[0] != '\n'
  {
    assert forall c | c in h[1..] :: c in h;
    assert (h[1..] + CRLF)[..|h|] == h[1..] + "\r";
    assert h[1..] == "" || h[1..][0] in h[1..];
  }

  lemma XmlPartLines(hs: seq<string>, t: nat, body: string)
    requires GoodHeader(hs, t) && t + 1 < |hs| && hs[t + 1] != ""
    ensures Lines(XmlPart(hs, t, body)) == [hs[t + 1][1..] + CRLF] + (WithCrlf(hs[t + 2..]) + ([CRLF] + Lines(body)))
  {
    var first, later := hs[t + 1][1..] + CRLF, WithCrlf(hs[t + 2..]);
    XmlPartShape(hs, t, body);
    assert hs[t + 1] in hs;
    RestOfFieldIsLine(hs[t + 1]);
    forall l | l in later
      ensures IsLine(l)
    {
      LaterLines(hs[t + 2..], l);
    }
    LinesCons(first, Flatten(later) + (CRLF + body));
    LinesFlatten(later, CRLF + body);
    assert IsLine(CRLF);
    LinesCons(CRLF, body);
  }

  /** When it is not, the kept text does not begin with LF. */
  lemma KeptWhenNotLast(hs: seq<string>, t: nat, body: string)
    requires GoodHeader(hs, t) && t + 1 < |hs| && HasEnd(Lines(XmlPart(hs, t, body)))
    ensures !BeginsWithLf(Kept(XmlPart(hs, t, body)))
  {
    assert hs[t + 1] in hs;
    XmlPartLines(hs, t, body);
    var lines, later := Lines(XmlPart(hs, t, body)), WithCrlf(hs[t + 2..]);
    assert lines[1 + |later|] == CRLF;
    RestOfFieldIsLine(hs[t + 1]);
    forall i | 0 <= i <= 1 + |later|
      ensures lines[i] != "" && lines[i][0] != '\n'
    {
      if 0 < i <= |later| {
        assert lines[i] == later[i - 1] && later[i - 1] in later;
        LaterLines(hs[t + 2..], later[i - 1]);
      }
    }
    NoLeadingLf(lines, 1 + |later|);
  }

  // ----- the main results

  /** The split that `parse_f4m_response` makes of such a message. */
  lemma SplitOfMessage(hs: seq<string>, t: nat, body: string)
    requires GoodHeader(hs, t)
    ensures var lines := Lines(Message(hs, body));
      && FirstWith(lines, "Content-Type") == t < |lines| && lines[t] == hs[t] + CRLF
      && Flatten(lines[t + 1..]) != ""
      && SplitAtType(lines) == (HeadPart(hs, t, body), XmlPart(hs, t, body))
  {
    hide Lines, Flatten, FirstWith, StartWith, IsLine, HeaderLine, Clean;
    var fields, tail, lines := WithCrlf(hs), Lines(CRLF + body), Lines(Message(hs, body));
    forall l | l in fields
      ensures IsLine(l)
    {
      LaterLines(hs, l);
    }
    LinesFlatten(fields, CRLF + body);
    assert lines == fields + tail;
    FirstWithAppend(fields, tail, "Content-Type");
    SplitOfFields(hs, t, tail);
    FlattenLines(CRLF + body);
  }

  lemma SplitOfFields(hs: seq<string>, t: nat, tail: seq<string>)
    requires t < |hs|
    ensures var lines := WithCrlf(hs) + tail;
      && lines[..t + 1] == WithCrlf(hs[..t + 1])
      && Flatten(lines[t + 1..]) == Flatten(WithCrlf(hs[t + 1..])) + Flatten(tail)
  {
    var lines := WithCrlf(hs) + tail;
    assert lines[t + 1..] == WithCrlf(hs[t + 1..]) + tail;
    FlattenAppend(WithCrlf(hs[t + 1..]), tail);
  }

  lemma XmlPartWhenLast(hs: seq<string>, t: nat, body: string)
    requires t == |hs| - 1
    ensures XmlPart(hs, t, body) == "\n" + body
  {
    assert WithCrlf(hs[t + 1..]) == [] && AfterType(hs, t, body) == CRLF + body;
  }

  lemma KeptBeginsWithLf(hs: seq<string>, t: nat, body: string)
    requires GoodHeader(hs, t) && HasEnd(Lines(XmlPart(hs, t, body)))
    ensures Kept(XmlPart(hs, t, body)) != ""
    ensures BeginsWithLf(Kept(XmlPart(hs, t, body))) <==> t == |hs| - 1
  {
    SomethingKept(XmlPart(hs, t, body));
    if t == |hs| - 1 {
      XmlPartWhenLast(hs, t, body);
      KeptWhenLast(body);
    } else {
      KeptWhenNotLast(hs, t, body);
    }
  }

  lemma NoColonEither(lines: seq<string>)
    requires forall l | l in lines :: !StartWith(l, "Content-Length")
    ensures forall l | l in lines :: !StartWith(l, "Content-Length:")
  {
    forall l | l in lines && StartWith(l, "Content-Length:")
      ensures false
    {
      StartWithPrefix(l, "Content-Length:", "Content-Length");
    }
  }

  /** The rewritten message is framed for the proxy's own reader exactly when a Content-Length comes before
      Content-Type and Content-Type is the last field. */
  lemma FramedExactlyWhenTypeLast(hs: seq<string>, t: nat, body: string)
    requires GoodHeader(hs, t) && HasEnd(Lines(XmlPart(hs, t, body)))
    ensures Framed(Output(HeadPart(hs, t, body), XmlPart(hs, t, body))) <==> LengthBefore(hs, t) && t == |hs| - 1
  {
    hide Framed, Lines, Kept, NewHead, HeadPart, XmlPart, FirstWith, StartWith, HeaderLine, LengthLine, HasType, HasEnd;
    var kept, fields := Kept(XmlPart(hs, t, body)), WithCrlf(hs[..t + 1]);
    KeptBeginsWithLf(hs, t, body);
    HeadPartLines(hs, t, body, |kept| - 1);
    FieldsThroughType(hs, t);
    if LengthBefore(hs, t) {
      NewHeadLines(fields, |kept| - 1);
      FramedWhenLfFirst(NewHead(fields, |kept| - 1), kept);
    } else {
      NewHeadPlain(fields, |kept| - 1);
      NoColonEither(fields);
      NotFramedWithoutLength(NewHead(fields, |kept| - 1), kept);
    }
  }

  const LENGTH_FIELD := "Content-Length: 12"
  const TYPE_FIELD := "Content-Type: text/xml"
  const LATE_FIELD := [LENGTH_FIELD, TYPE_FIELD, "Server: x"]

  lemma LengthFieldStarts()
    ensures StartWith(LENGTH_FIELD + CRLF, "Content-Length") && !StartWith(LENGTH_FIELD + CRLF, "Content-Type")
  {
    var line := LENGTH_FIELD + CRLF;
    StartWithPlain(line, "Content-Type");
    StartWithPlain(line, "Content-Length");
    assert line[8] != "Content-Type"[8];
  }

  lemma TypeFieldStarts()
    ensures StartWith(TYPE_FIELD + CRLF, "Content-Type") && !StartWith(TYPE_FIELD + CRLF, "Content-Length")
  {
    var line := TYPE_FIELD + CRLF;
    StartWithPlain(line, "Content-Type");
    StartWithPlain(line, "Content-Length");
    assert line[8] != "Content-Length"[8];
  }

  lemma LateFieldLines()
    ensures GoodHeader(LATE_FIELD, 1) && LengthBefore(LATE_FIELD, 1)
  {
    hide StartWith, FirstWith;
    LengthFieldStarts();
    TypeFieldStarts();
    var lines := WithCrlf(LATE_FIELD);
    FirstWithIs(lines, "Content-Length", 0);
    FirstWithIs(lines, "Content-Type", 1);
  }

  /** The shortest manifest. */
  const EMPTY := END + "\n"

  lemma EmptyIsEnd()
    ensures Lines(EMPTY) == [EMPTY] && KindOf(EMPTY) == End
  {
    assert EMPTY[..|EMPTY| - 1] == END && EMPTY + "" == EMPTY;
    LinesCons(EMPTY, "");
    assert [EMPTY] + Lines("") == [EMPTY];
    StartWithPlain(EMPTY, "bitrate");
    StartWithPlain(EMPTY, "</media>");
    StartWithPlain(EMPTY, END);
    assert "bitrate"[0] != EMPTY[0] && "</media>"[3] != EMPTY[3];
  }

  /** With a field after Content-Type the end of the manifest is still found. */
  lemma EmptyEnds(hs: seq<string>, t: nat)
    requires GoodHeader(hs, t)
    ensures HasEnd(Lines(XmlPart(hs, t, EMPTY)))
  {
    hide Lines, GoodHeader, KindOf;
    EmptyIsEnd();
    FieldCount(hs, t);
    var lines := Lines(XmlPart(hs, t, EMPTY));
    if t == |hs| - 1 {
      XmlPartWhenLast(hs, t, EMPTY);
      LinesCons("\n", EMPTY);
    } else {
      XmlPartLines(hs, t, EMPTY);
    }
    assert lines[|lines| - 1] == EMPTY;
  }

  lemma FieldCount(hs: seq<string>, t: nat)
    requires GoodHeader(hs, t)
    ensures t < |hs| && (t + 1 < |hs| ==> hs[t + 1] != "")
  {
    assert t + 1 < |hs| ==> hs[t + 1] in hs;
  }

  /** For instance one field after Content-Type, before an otherwise empty manifest. */
  lemma LateFieldBreaksFraming()
    ensures GoodHeader(LATE_FIELD, 1) && LengthBefore(LATE_FIELD, 1)
    ensures HasEnd(Lines(XmlPart(LATE_FIELD, 1, EMPTY)))
    ensures !Framed(Output(HeadPart(LATE_FIELD, 1, EMPTY), XmlPart(LATE_FIELD, 1, EMPTY)))
  {
    hide Framed, Output, HeadPart, XmlPart, GoodHeader, LengthBefore, Lines;
    LateFieldLines();
    EmptyEnds(LATE_FIELD, 1);
    FramedExactlyWhenTypeLast(LATE_FIELD, 1, EMPTY);
  }

  /** The scanner stops right before `text`, and the Content-Length read by then is its size. */
  ghost predicate ScannedBody(out: string, text: string) {
    && |text| <= |out|
    && var n := |out| - |text|;
    && StopsAt(out, n) && out[n..] == text
    && HasLength(out[..n]) && LengthIn(out[..n]) == |text|
  }

  lemma ScannedAt(out: string, n: nat, header: string, text: string)
    requires n <= |out| && out[..n] == header && out[n..] == text
    requires StopsAt(out, n) && HasLength(header) && LengthIn(header) == |text|
    ensures ScannedBody(out, text)
  {
    hide StopsAt, HasLength, LengthIn;
  }

  lemma BlankLineSplit(head: string, text: string)
    ensures var out, n := head + "\r" + ("\n" + text), |head| + 2;
      n <= |out| && out[..n] == head + CRLF && out[n..] == text
  {
  }

  /** Header lines, a blank line, and a text whose size the header announces. */
  lemma AnnouncedText(lines: seq<string>, text: string)
    requires lines != [] && forall l | l in lines :: HeaderLine(l)
    requires var u := FirstWith(lines, "Content-Length:"); u < |lines| && lines[u] == LengthLine(|text|)
    ensures ScannedBody(Flatten(lines) + "\r" + ("\n" + text), text)
  {
    hide *;
    var head := Flatten(lines);
    var out := head + "\r" + ("\n" + text);
    LfFirst(text);
    StopsAtFirstLf(lines, "\n" + text);
    LengthFound(lines, CRLF, |text|);
    BlankLineSplit(head, text);
    ScannedAt(out, |head| + 2, head + CRLF, text);
  }

  lemma LfFirst(text: string)
    ensures RunLength("\n" + text, {'\n'}) == 0
  {
  }

  lemma OutputWhenLast(hs: seq<string>, t: nat, body: string) returns (lines: seq<string>)
    requires GoodHeader(hs, t) && LengthBefore(hs, t) && t == |hs| - 1 && HasEnd(Lines(XmlPart(hs, t, body)))
    ensures Output(HeadPart(hs, t, body), XmlPart(hs, t, body)) == Flatten(lines) + "\r" + ("\n" + Kept(body))
    ensures lines != [] && forall l | l in lines :: HeaderLine(l)
    ensures var u := FirstWith(lines, "Content-Length:"); u < |lines| && lines[u] == LengthLine(|Kept(body)|)
  {
    XmlPartWhenLast(hs, t, body);
    KeptWhenLast(body);
    HeadPartLines(hs, t, body, |Kept(body)|);
    FieldsThroughType(hs, t);
    NewHeadLines(WithCrlf(hs[..t + 1]), |Kept(body)|);
    lines := NewHead(WithCrlf(hs[..t + 1]), |Kept(body)|);
  }

  /** In that case the scanner stops right before the filtered manifest, and Content-Length is its size. */
  lemma BodyIsFilteredManifest(hs: seq<string>, t: nat, body: string)
    requires GoodHeader(hs, t) && LengthBefore(hs, t) && t == |hs| - 1 && HasEnd(Lines(XmlPart(hs, t, body)))
    ensures ScannedBody(Output(HeadPart(hs, t, body), XmlPart(hs, t, body)), Kept(body))
  {
    hide *;
    var lines := OutputWhenLast(hs, t, body);
    AnnouncedText(lines, Kept(body));
  }
}
