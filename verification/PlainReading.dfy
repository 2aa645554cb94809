/** What the lines of a manifest plainly are, leading blanks aside, and when the code, whose `start_with` (src/handle.c) lets
    leading blanks stand for characters of the pattern, takes them for that. */
module PlainReading {
  import opened Text
  import opened HttpText
  import opened Manifest
  import opened Framing

  // ----- manifest lines

  /** What a line is, when blanks in front of it mean nothing. */
  function PlainKind(line: string): Kind {
    if StartsPlainly(line, "bitrate") then Bitrate
    else if StartsPlainly(line, "</media>") then Media
    else if StartsPlainly(line, END) then End
    else Other
  }

  /** What the kinds stand for. */
  lemma KindsInText(line: string)
    ensures var text := line[Indent(line)..];
      && (PlainKind(line).Bitrate? <==> "bitrate" <= text)
      && (PlainKind(line).Media? <==> "</media>" <= text)
      && (PlainKind(line).End? <==> "</manifest>" <= text)
  {
    hide Indent;
    assert "</media>"[3] == 'e' && END[3] == 'a';
  }

  /** The blanks decide none of the tests that the line is put to. */
  predicate KindClear(line: string) {
    && ReadsRight(line, "bitrate")
    && (StartsPlainly(line, "bitrate")
        || (ReadsRight(line, "</media>") && (StartsPlainly(line, "</media>") || ReadsRight(line, END))))
  }

  /** A line is taken for what it is exactly when it is clear; a line that is not indented always is. */
  lemma KindReadExactly(line: string)
    ensures KindOf(line) == PlainKind(line) <==> KindClear(line)
    ensures line != "" && !IsBlank(line[0]) ==> KindClear(line)
  {
    hide StartWith, StartsPlainly;
    StartWithRightExactly(line, "bitrate");
    StartWithRightExactly(line, "</media>");
    StartWithRightExactly(line, END);
    if line != "" && !IsBlank(line[0]) {
      UnindentedReadsRight(line, "bitrate");
      UnindentedReadsRight(line, "</media>");
      UnindentedReadsRight(line, END);
    }
  }

  lemma UnindentedReadsRight(line: string, pattern: string)
    requires line != "" && !IsBlank(line[0])
    ensures ReadsRight(line, pattern)
  {
  }

  predicate HasPlainEnd(lines: seq<string>) {
    exists i :: 0 <= i < |lines| && PlainKind(lines[i]).End?
  }

  /** Every line up to the first end tag is clear. */
  predicate ClearThroughEnd(lines: seq<string>) {
    lines != [] ==> KindClear(lines[0]) && (PlainKind(lines[0]).End? || ClearThroughEnd(lines[1..]))
  }

  /** How many lines there are through the first `</media>`, but not past the end of the manifest. */
  function PlainCut(lines: seq<string>): (n: nat)
    ensures n <= |lines|
  {
    if lines == [] || PlainKind(lines[0]).End? then 0
    else if PlainKind(lines[0]).Media? then 1
    else 1 + PlainCut(lines[1..])
  }

  function PlainWithoutBitrate(lines: seq<string>): seq<string> {
    if lines == [] then []
    else (if PlainKind(lines[0]).Bitrate? then [] else [lines[0]]) + PlainWithoutBitrate(lines[1..])
  }

  /** What the filter is for: the lines through the first `</media>` line, without the bitrate lines. */
  function PlainKept(lines: seq<string>): seq<string> {
    PlainWithoutBitrate(lines[..PlainCut(lines)])
  }

  /** The rates on the bitrate lines before the end of the manifest. */
  function PlainRates(lines: seq<string>): seq<int> {
    if lines == [] || PlainKind(lines[0]).End? then []
    else (if PlainKind(lines[0]).Bitrate? then [RateOn(lines[0])] else []) + PlainRates(lines[1..])
  }

  /** The kept lines, one line at a time. */
  lemma PlainKeptNext(lines: seq<string>)
    requires lines != []
    ensures PlainKept(lines) == match PlainKind(lines[0])
                                case End => []
                                case Media => [lines[0]]
                                case Bitrate => PlainKept(lines[1..])
                                case Other => [lines[0]] + PlainKept(lines[1..])
  {
    var l, rest := lines[0], lines[1..];
    if PlainKind(l).End? {
      assert lines[..0] == [];
    } else if PlainKind(l).Media? {
      assert lines[..1] == [l];
      assert PlainWithoutBitrate([l]) == [l] + PlainWithoutBitrate([l][1..]);
    } else {
      assert lines[..PlainCut(lines)] == [l] + rest[..PlainCut(rest)];
      assert ([l] + rest[..PlainCut(rest)])[1..] == rest[..PlainCut(rest)];
    }
  }

  lemma PlainRatesNext(lines: seq<string>)
    requires lines != []
    ensures PlainRates(lines) == match PlainKind(lines[0])
                                 case End => []
                                 case Bitrate => [RateOn(lines[0])] + PlainRates(lines[1..])
                                 case _ => PlainRates(lines[1..])
  {
    assert [] + PlainRates(lines[1..]) == PlainRates(lines[1..]);
  }

  lemma PlainEndLater(lines: seq<string>)
    requires HasPlainEnd(lines)
    ensures lines != [] && (!PlainKind(lines[0]).End? ==> HasPlainEnd(lines[1..]))
  {
    var i :| 0 <= i < |lines| && PlainKind(lines[i]).End?;
    if i > 0 {
      assert lines[1..][i - 1] == lines[i];
    }
  }

  lemma EndBehind(line: string, rest: seq<string>)
    requires HasEnd(rest)
    ensures HasEnd([line] + rest)
  {
    hide KindOf;
    var i :| 0 <= i < |rest| && KindOf(rest[i]).End?;
    assert ([line] + rest)[i + 1] == rest[i];
  }

  /** Clear lines are kept as they plainly should be. */
  lemma {:induction false} KeptPlainly(lines: seq<string>)
    requires HasPlainEnd(lines) && ClearThroughEnd(lines)
    ensures HasEnd(lines) && KeptLines(lines) == PlainKept(lines) && Rates(lines) == PlainRates(lines)
  {
    hide KindOf, PlainKind, KindClear, KeptLines, PlainKept, PlainRates, HasPlainEnd, HasEnd;
    PlainEndLater(lines);
    var l, rest := lines[0], lines[1..];
    KindReadExactly(l);
    KeptLinesNext(lines);
    PlainKeptNext(lines);
    PlainRatesNext(lines);
    if KindOf(l).End? {
      EndFirst(lines);
    } else {
      KeptPlainly(rest);
      EndBehind(l, rest);
      assert [l] + rest == lines;
    }
  }

  lemma EndFirst(lines: seq<string>)
    requires lines != [] && KindOf(lines[0]).End?
    ensures HasEnd(lines)
  {
  }

  /** The filter does what it is for on every manifest that is clear through its end: the kept text is the lines through
      the first `</media>` line but no bitrate lines, then `</manifest>`, and the rates are those of the bitrate lines. */
  lemma FilterKeeps(lines: seq<string>)
    requires HasPlainEnd(lines) && ClearThroughEnd(lines)
    ensures HasEnd(lines) && Filtered(lines, false) == Flatten(PlainKept(lines)) + END
    ensures Rates(lines) == PlainRates(lines)
  {
    KeptPlainly(lines);
    KeptAsRead(lines);
  }

  // ----- the rates that a manifest quotes

  /** The rate on a line is the number behind its first quote, whatever stands in front and behind. */
  lemma RateQuoted(front: string, n: nat, rest: string)
    requires '"' !in front && (rest == "" || !IsDigit(rest[0]))
    ensures RateOn(front + "\"" + Itoa(n) + rest) == n
  {
    var line, quoted := front + "\"" + Itoa(n) + rest, "\"" + (Itoa(n) + rest);
    assert line == front + quoted;
    RunLengthWord(front, quoted, {'"'});
    assert line[|front| + 1..] == Itoa(n) + rest;
    AtoiItoa(n, rest);
  }

  /** The first quotes on the line enclose the number. */
  ghost predicate Quotes(line: string, n: nat) {
    exists front, rest :: '"' !in front && line == front + "\"" + Itoa(n) + ("\"" + rest)
  }

  /** The bitrate lines before the end of the manifest quote these numbers, in order. */
  ghost predicate Announces(lines: seq<string>, rates: seq<nat>) {
    if lines == [] || PlainKind(lines[0]).End? then rates == []
    else if PlainKind(lines[0]).Bitrate? then
      rates != [] && Quotes(lines[0], rates[0]) && Announces(lines[1..], rates[1..])
    else Announces(lines[1..], rates)
  }

  lemma {:induction false} AnnouncedRates(lines: seq<string>, rates: seq<nat>)
    requires Announces(lines, rates)
    ensures PlainRates(lines) == rates
  {
    hide PlainKind, RateOn;
    if lines != [] && !PlainKind(lines[0]).End? {
      if PlainKind(lines[0]).Bitrate? {
        var front, rest :| '"' !in front && lines[0] == front + "\"" + Itoa(rates[0]) + ("\"" + rest);
        RateQuoted(front, rates[0], "\"" + rest);
        AnnouncedRates(lines[1..], rates[1..]);
      } else {
        AnnouncedRates(lines[1..], rates);
      }
    }
  }

  lemma {:induction false} RealOfNats(rates: seq<nat>)
    ensures Real(rates) == rates
  {
    if rates != [] {
      RealOfNats(rates[1..]);
    }
  }

  lemma EmptySlotsFilled(slots: seq<int>, rates: seq<int>)
    requires |slots| == 10 && forall i | 0 <= i < 10 :: slots[i] == -1
    ensures var filled := FilledFrom(slots, 0, rates);
      |filled| == 10 && forall i | 0 <= i < 10 :: filled[i] == if i < |rates| then rates[i] else -1
  {
  }

  /** What a new session's ten slots hold after a clear manifest: the quoted rates in order, as many as there is room for,
      and -1 in the rest. */
  lemma SlotsOfManifest(lines: seq<string>, rates: seq<nat>, slots: seq<int>)
    requires HasPlainEnd(lines) && ClearThroughEnd(lines) && Announces(lines, rates)
    requires |slots| == 10 && forall i | 0 <= i < 10 :: slots[i] == -1
    ensures var filled := FillAll(slots, Rates(lines));
      |filled| == 10 && forall i | 0 <= i < 10 :: filled[i] == if i < |rates| then rates[i] else -1
  {
    hide FillAll, Rates, PlainRates, HasPlainEnd, ClearThroughEnd, Announces, Filtered, PlainKept, Real, FilledFrom;
    EmptySlotsFilled(slots, rates);
    FilterKeeps(lines);
    AnnouncedRates(lines, rates);
    RealOfNats(rates);
    RatesFillInOrder(slots, 0, Rates(lines));
  }

  // ----- the condition is exact, line by line

  const REST := ["x\n", EMPTY]

  lemma RestKinds()
    ensures KindOf("x\n") == PlainKind("x\n") == Other && KindOf(EMPTY) == PlainKind(EMPTY) == End
    ensures HasPlainEnd(REST) && ClearThroughEnd(REST)
  {
    hide KindOf, PlainKind, KindClear;
    EmptyIsEnd();
    ShortIsOther();
    KindReadExactly("x\n");
    KindReadExactly(EMPTY);
    assert PlainKind(REST[1]).End?;
    assert REST[1..] == [EMPTY];
  }

  lemma ShortIsOther()
    ensures KindOf("x\n") == Other
  {
    StartWithPlain("x\n", "bitrate");
    StartWithPlain("x\n", "</media>");
    StartWithPlain("x\n", END);
  }

  /** How much a line of some kind leaves of itself and of `REST`. */
  function Weight(kind: Kind, size: nat): nat {
    match kind
    case Bitrate => 2
    case Media => size
    case End => 0
    case Other => size + 2
  }

  lemma WeightAsRead(line: string)
    ensures HasEnd([line] + REST) && |Filtered([line] + REST, false)| == Weight(KindOf(line), |line|) + |END|
  {
    hide KindOf, PlainKind, HasPlainEnd, ClearThroughEnd;
    RestKinds();
    var lines := [line] + REST;
    assert KindOf(lines[2]).End? && lines[1..] == REST && REST[1..] == [EMPTY];
    TwoLines(false);
    TwoLines(true);
  }

  lemma TwoLines(noWrite: bool)
    requires KindOf("x\n") == Other && KindOf(EMPTY) == End
    ensures Filtered(REST, noWrite) == (if noWrite then "" else "x\n") + END
  {
    hide KindOf;
    assert REST[1..] == [EMPTY] && END + "" == END;
    assert Filtered([EMPTY], noWrite) == END;
  }

  lemma WeightPlainly(line: string)
    ensures |Flatten(PlainKept([line] + REST)) + END| == Weight(PlainKind(line), |line|) + |END|
  {
    hide KindOf, PlainKind, HasPlainEnd, ClearThroughEnd, PlainKept;
    RestKinds();
    var lines := [line] + REST;
    assert lines[1..] == REST && REST[1..] == [EMPTY];
    PlainKeptNext(lines);
    PlainKeptNext(REST);
    PlainKeptNext([EMPTY]);
    assert PlainKept(REST) == ["x\n"];
    FlattenOne("x\n");
    FlattenOne(line);
    FlattenTwo(line, "x\n");
  }

  lemma FlattenOne(a: string)
    ensures Flatten([a]) == a
  {
    assert [a][1..] == [] && a + "" == a;
  }

  lemma FlattenTwo(a: string, b: string)
    ensures Flatten([a] + [b]) == a + b
  {
    FlattenOne(b);
    assert ([a] + [b])[1..] == [b];
  }

  lemma MediaIsLong(line: string)
    ensures KindOf(line).Media? || PlainKind(line).Media? ==> |line| >= 8
  {
  }

  /** The filter keeps what it should in every manifest that is otherwise clear and contains the line in front, exactly
      when the line is clear. */
  lemma LineReadExactly(line: string)
    requires line != ""
    ensures (forall rest | HasPlainEnd(rest) && ClearThroughEnd(rest) ::
               Filtered([line] + rest, false) == Flatten(PlainKept([line] + rest)) + END)
            <==> KindClear(line)
  {
    if KindClear(line) {
      forall rest | HasPlainEnd(rest) && ClearThroughEnd(rest)
        ensures Filtered([line] + rest, false) == Flatten(PlainKept([line] + rest)) + END
      {
        InFrontOfClear(line, rest);
        FilterKeeps([line] + rest);
      }
    } else {
      hide KindOf, PlainKind, KindClear, PlainKept, Filtered, HasPlainEnd, ClearThroughEnd;
      KindReadExactly(line);
      MediaIsLong(line);
      RestKinds();
      WeightAsRead(line);
      WeightPlainly(line);
      assert |Filtered([line] + REST, false)| != |Flatten(PlainKept([line] + REST)) + END|;
    }
  }

  lemma InFrontOfClear(line: string, rest: seq<string>)
    requires KindClear(line) && HasPlainEnd(rest) && ClearThroughEnd(rest)
    ensures HasPlainEnd([line] + rest) && ClearThroughEnd([line] + rest)
  {
    hide KindClear, PlainKind;
    var i :| 0 <= i < |rest| && PlainKind(rest[i]).End?;
    assert ([line] + rest)[i + 1] == rest[i] && ([line] + rest)[1..] == rest;
  }

  const INDENTED_MEDIA := "       <media url=1>\n"
  const INDENTED_END := "       </manifest>\n"

  lemma BlanksMeanNothing(blanks: string, rest: string, pattern: string)
    requires AllBlank(blanks) && rest != "" && !IsBlank(rest[0])
    ensures StartsPlainly(blanks + rest, pattern) <==> StartsPlainly(rest, pattern)
  {
    IndentOf(blanks, rest);
    IndentOf("", rest);
    assert "" + rest == rest;
  }

  lemma SevenBlanks(rest: string)
    requires rest != "" && !IsBlank(rest[0])
    ensures KindOf("       " + rest) == Bitrate
    ensures PlainKind("       " + rest) == PlainKind(rest)
  {
    hide StartWith, StartsPlainly;
    var blanks := "       ";
    IndentOf(blanks, rest);
    StartWithMeans(blanks + rest, "bitrate");
    BlanksMeanNothing(blanks, rest, "bitrate");
    BlanksMeanNothing(blanks, rest, "</media>");
    BlanksMeanNothing(blanks, rest, END);
  }

  /** For instance seven blanks: a media line is dropped as a bitrate line, and its rate is read as 0; an end tag is
      missed. */
  lemma SevenBlanksMisread()
    ensures Lines(INDENTED_MEDIA + EMPTY) == [INDENTED_MEDIA, EMPTY]
    ensures Kept(INDENTED_MEDIA + EMPTY) == END && Rates(Lines(INDENTED_MEDIA + EMPTY)) == [0]
    ensures PlainKept(Lines(INDENTED_MEDIA + EMPTY)) == [INDENTED_MEDIA] && PlainRates(Lines(INDENTED_MEDIA + EMPTY)) == []
    ensures PlainKind(INDENTED_END) == End && !HasEnd([INDENTED_END])
  {
    hide KindOf, PlainKind, PlainKept, PlainRates, Lines, StartWith, RateOn;
    MediaLine();
    MediaText();
    EmptyIsEnd();
    KindReadExactly(EMPTY);
    EmptyClear();
    var lines := [INDENTED_MEDIA, EMPTY];
    LinesCons(INDENTED_MEDIA, EMPTY);
    assert lines[1..] == [EMPTY];
    FilteredBitrate(lines);
    PlainKeptNext(lines);
    PlainKeptNext([EMPTY]);
    PlainRatesNext(lines);
    PlainRatesNext([EMPTY]);
    EndText();
  }

  lemma NoQuote(line: string)
    requires '"' !in line
    ensures RateOn(line) == 0
  {
    assert line + "" == line;
    RunLengthWord(line, "", {'"'});
  }

  lemma MediaLine()
    ensures IsLine(INDENTED_MEDIA) && RateOn(INDENTED_MEDIA) == 0
  {
    hide RateOn;
    assert INDENTED_MEDIA[..|INDENTED_MEDIA| - 1] == "       <media url=1>";
    NoQuote(INDENTED_MEDIA);
  }

  const MEDIA := "<media url=1>\n"

  lemma MediaIsOther()
    ensures Indent(MEDIA) == 0 && PlainKind(MEDIA) == Other
  {
    IndentOf("", MEDIA);
    assert "" + MEDIA == MEDIA;
    assert MEDIA[0] != "bitrate"[0] && MEDIA[1] != "</media>"[1] && MEDIA[1] != END[1];
  }

  lemma MediaText()
    ensures KindOf(INDENTED_MEDIA) == Bitrate && PlainKind(INDENTED_MEDIA) == Other
  {
    hide KindOf, PlainKind;
    assert INDENTED_MEDIA == "       " + MEDIA;
    SevenBlanks(MEDIA);
    MediaIsOther();
  }

  lemma EndText()
    ensures KindOf(INDENTED_END) == Bitrate && PlainKind(INDENTED_END) == End
  {
    assert INDENTED_END == "       " + EMPTY;
    SevenBlanks(EMPTY);
    EmptyIsEnd();
    KindReadExactly(EMPTY);
  }

  lemma EmptyClear()
    ensures KindClear(EMPTY) && PlainKind(EMPTY) == End
  {
    EmptyIsEnd();
    KindReadExactly(EMPTY);
  }

  lemma FilteredBitrate(lines: seq<string>)
    requires |lines| == 2 && KindOf(lines[0]) == Bitrate && KindOf(lines[1]) == End && RateOn(lines[0]) == 0
    ensures Filtered(lines, false) == END && Rates(lines) == [0]
  {
    hide KindOf, RateOn;
    assert lines[1..][0] == lines[1] && "" + END == END && END + "" == END;
    assert Filtered(lines[1..], false) == END && Rates(lines[1..]) == [] && [0] + [] == [0];
  }
}
