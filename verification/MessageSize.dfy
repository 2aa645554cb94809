/** Whether the rewritten manifest message fits in the buffer of its size as received (src/handle.c:145-146). */
module MessageSize {
  import opened Text
  import opened HttpText
  import opened Manifest
  import opened Framing

  /** By how much the lines grow when each one taken for a Content-Length is replaced. */
  function Growth(lines: seq<string>, length: nat): int {
    if lines == [] then 0
    else
      (if StartWith(lines[0], "Content-Length") then |LengthLine(length)| - |lines[0]| else 0) + Growth(lines[1..], length)
  }

  /** The new header of lines whose last one is the first Content-Type. */
  lemma {:induction false} HeadSize(lines: seq<string>, length: nat)
    requires lines != [] && forall i | 0 <= i < |lines| - 1 :: !StartWith(lines[i], "Content-Type")
    ensures |Flatten(NewHead(lines, length))| == |Flatten(lines)| + Growth(lines, length)
  {
    hide StartWith, LengthLine;
    var rest := lines[1..];
    var l := if StartWith(lines[0], "Content-Length") then LengthLine(length) else lines[0];
    if |lines| == 1 {
      assert NewHead(rest, length) == [] && rest == [];
      FlattenCons(l, []);
      assert [l] + [] == [l];
    } else {
      assert forall i | 0 <= i < |rest| :: rest[i] == lines[i + 1];
      HeadSize(rest, length);
      FlattenCons(l, NewHead(rest, length));
    }
  }

  /** The fields through Content-Type, which is field `t`. */
  function Through(hs: seq<string>, t: nat): seq<string>
    requires t < |hs|
  {
    WithCrlf(hs[..t + 1])
  }

  lemma FieldsForSize(hs: seq<string>, t: nat)
    requires GoodHeader(hs, t)
    ensures var fields := Through(hs, t);
      && |fields| == t + 1 && (forall i | 0 <= i <= t :: fields[i] == WithCrlf(hs)[i])
      && forall i | 0 <= i < |fields| - 1 :: !StartWith(fields[i], "Content-Type")
  {
    hide StartWith;
    assert forall i | 0 <= i <= t :: WithCrlf(hs[..t + 1])[i] == WithCrlf(hs)[i];
  }

  /** By how much the rewritten message is longer than the message received: by what the lines taken for a
      Content-Length grow, less the bytes that the filter drops. */
  lemma OutputSize(hs: seq<string>, t: nat, body: string)
    requires GoodHeader(hs, t) && HasEnd(Lines(XmlPart(hs, t, body)))
    ensures var kept := Kept(XmlPart(hs, t, body));
      && kept != ""
      && |Output(HeadPart(hs, t, body), XmlPart(hs, t, body))| - |Message(hs, body)|
         == Growth(Through(hs, t), |kept| - 1) - (|XmlPart(hs, t, body)| - |kept|)
  {
    hide Kept, Lines, StartWith, FirstWith, Clean, XmlPart, AfterType, NewHead, HasEnd, HasType, Growth;
    var xml := XmlPart(hs, t, body);
    SomethingKept(xml);
    FieldsForSize(hs, t);
    HeadPartLines(hs, t, body, |Kept(xml)| - 1);
    HeadSize(Through(hs, t), |Kept(xml)| - 1);
    PartsOfMessage(hs, t, body);
  }

  /** It fits exactly when these lines grow by no more than the filter drops. */
  lemma FitsExactly(hs: seq<string>, t: nat, body: string)
    requires GoodHeader(hs, t) && HasEnd(Lines(XmlPart(hs, t, body)))
    ensures var xml := XmlPart(hs, t, body);
      && Kept(xml) != ""
      && (|Output(HeadPart(hs, t, body), xml)| <= |Message(hs, body)|
          <==> Growth(Through(hs, t), |Kept(xml)| - 1) <= |xml| - |Kept(xml)|)
  {
    hide Kept, Output, Message, HeadPart, XmlPart, Growth;
    OutputSize(hs, t, body);
  }

  lemma StartWithIsLong(line: string, pattern: string)
    requires StartWith(line, pattern)
    ensures |line| >= |pattern|
  {
  }

  lemma EmitNoLonger(line: string, noWrite: bool)
    ensures |Emit(line, noWrite)| <= |line|
  {
    hide StartWith;
    if StartWith(line, END) {
      StartWithIsLong(line, END);
    }
  }

  /** The filter adds nothing. */
  lemma {:induction false} FilteredNoLonger(lines: seq<string>, noWrite: bool)
    ensures |Filtered(lines, noWrite)| <= |Flatten(lines)|
  {
    hide Emit, KindOf;
    if lines != [] {
      EmitNoLonger(lines[0], noWrite);
      FilteredNoLonger(lines[1..], noWrite || KindOf(lines[0]).Media?);
    }
  }

  /** A line that announces `n` bytes is long enough to announce no more than that. */
  lemma AnnouncesEnough(line: string, n: nat, m: nat)
    requires LengthOnLine(line) == n && m <= n && n > 0 && |line| >= 2 && line[|line| - 2..] == CRLF
    ensures |LengthLine(m)| <= |line|
  {
    hide Atoi, Itoa;
    var r := RunLength(line[16..], {'\r'});
    assert line[|line| - 2] == '\r';
    NothingReadAtEnd(line);
    assert line[16..][|line| - 18] == '\r';
    AtoiShort(line[16..16 + r]);
    ItoaLonger(m, n);
  }

  lemma NothingReadAtEnd(line: string)
    requires LengthOnLine(line) > 0 && |line| >= 2 && line[|line| - 2..] == CRLF
    ensures |line| >= 18
  {
    if |line| == 17 {
      assert line[15..] == CRLF && line[16] == '\n';
      assert line[16..] == "\n" + "" && "\n"[1..] == "";
      RunLengthWord("\n", "", {'\r'});
      assert line[16..16 + 1] == "\n" && Atoi("\n") == 0;
    }
  }

  lemma {:induction false} GrowthOfEnough(lines: seq<string>, n: nat, m: nat)
    requires m <= n && n > 0
    requires forall l | l in lines :: |l| >= 2 && l[|l| - 2..] == CRLF
    requires forall l | l in lines && StartWith(l, "Content-Length") :: LengthOnLine(l) == n
    ensures Growth(lines, m) <= 0
  {
    hide StartWith, LengthOnLine, LengthLine;
    if lines != [] {
      assert lines[0] in lines && forall l | l in lines[1..] :: l in lines;
      GrowthOfEnough(lines[1..], n, m);
      if StartWith(lines[0], "Content-Length") {
        AnnouncesEnough(lines[0], n, m);
      }
    }
  }

  /** With Content-Type as the last field the message fits whenever every line taken for a Content-Length is read as the
      length of the body. */
  lemma FitsWhenTypeLast(hs: seq<string>, t: nat, body: string)
    requires GoodHeader(hs, t) && t == |hs| - 1 && HasEnd(Lines(XmlPart(hs, t, body)))
    requires forall l | l in WithCrlf(hs) && StartWith(l, "Content-Length") :: LengthOnLine(l) == |body|
    ensures |Output(HeadPart(hs, t, body), XmlPart(hs, t, body))| <= |Message(hs, body)|
  {
    hide Kept, Lines, Output, Message, HeadPart, XmlPart, HasEnd, StartWith, FirstWith, Clean, LengthOnLine, Growth;
    OutputSize(hs, t, body);
    XmlPartWhenLast(hs, t, body);
    KeptWhenLast(body);
    KeptNoLonger(body);
    SomethingKept(body);
    assert hs[..t + 1] == hs;
    forall l | l in WithCrlf(hs)
      ensures |l| >= 2 && l[|l| - 2..] == CRLF
    {
      var i :| 0 <= i < |hs| && WithCrlf(hs)[i] == l;
    }
    GrowthOfEnough(WithCrlf(hs), |body|, |Kept(body)|);
  }

  lemma KeptNoLonger(xml: string)
    ensures |Kept(xml)| <= |xml|
  {
    FilteredNoLonger(Lines(xml), false);
    FlattenLines(xml);
  }

  function Xs(n: nat): (s: string)
    ensures |s| == n && forall c | c in s :: c == 'x'
  {
    seq(n, i => 'x')
  }

  lemma LongHeader()
    ensures GoodHeader([LENGTH_FIELD, TYPE_FIELD, Xs(1000)], 1)
  {
    hide StartWith, FirstWith;
    LengthFieldStarts();
    TypeFieldStarts();
    FirstWithIs(WithCrlf([LENGTH_FIELD, TYPE_FIELD, Xs(1000)]), "Content-Type", 1);
  }

  /** The kept text of that message: everything but the last line feed. */
  lemma LongKept()
    ensures var hs := [LENGTH_FIELD, TYPE_FIELD, Xs(1000)];
      && HasEnd(Lines(XmlPart(hs, 1, EMPTY)))
      && |Kept(XmlPart(hs, 1, EMPTY))| == |XmlPart(hs, 1, EMPTY)| - 1 == 1014
  {
    hide Lines, KindOf, GoodHeader, XmlPart, HasEnd, Filtered, Flatten;
    LongHeader();
    var hs, first := [LENGTH_FIELD, TYPE_FIELD, Xs(1000)], Xs(1000)[1..] + CRLF;
    EmptyEnds(hs, 1);
    XmlPartLines(hs, 1, EMPTY);
    EmptyIsEnd();
    CrlfIsOther();
    XsAreOther(first);
    var lines := Lines(XmlPart(hs, 1, EMPTY));
    FlattenLines(XmlPart(hs, 1, EMPTY));
    assert lines == [first, CRLF, EMPTY];
    ThreeLines(first, CRLF, EMPTY);
  }

  lemma XsAreOther(line: string)
    requires line != "" && line[0] == 'x'
    ensures KindOf(line) == Other
  {
    StartWithPlain(line, "bitrate");
    StartWithPlain(line, "</media>");
    StartWithPlain(line, END);
  }

  lemma ThreeLines(a: string, b: string, c: string)
    requires KindOf(a) == KindOf(b) == Other && KindOf(c) == End
    ensures |Filtered([a, b, c], false)| == |a| + |b| + |END| && |Flatten([a, b, c])| == |a| + |b| + |c|
  {
    hide KindOf;
    assert [a, b, c][1..] == [b, c] && [b, c][1..] == [c] && [c][1..] == [];
    assert Filtered([c], false) == END + "" && Flatten([c]) == c + "";
    assert Filtered([b, c], false) == b + Filtered([c], false) && Flatten([b, c]) == b + Flatten([c]);
  }

  /** Two fields, of which the first is a Content-Length. */
  lemma GrowthOfTwo(a: string, b: string, length: nat)
    requires StartWith(a, "Content-Length") && !StartWith(b, "Content-Length")
    ensures Growth([a, b], length) == |LengthLine(length)| - |a|
  {
    hide StartWith, LengthLine;
    assert [a, b][1..] == [b] && [b][1..] == [];
    assert Growth([b], length) == 0;
  }

  /** A field of a thousand bytes after Content-Type makes it overflow: the announced number grows from two digits to
      four, and the filter drops a single byte. */
  lemma LongFieldOverflows()
    ensures var hs := [LENGTH_FIELD, TYPE_FIELD, Xs(1000)];
      && GoodHeader(hs, 1) && HasEnd(Lines(XmlPart(hs, 1, EMPTY))) && LengthOnLine(WithCrlf(hs)[0]) == |EMPTY|
      && |Output(HeadPart(hs, 1, EMPTY), XmlPart(hs, 1, EMPTY))| > |Message(hs, EMPTY)|
  {
    hide Lines, GoodHeader, HeadPart, XmlPart, Output, Message, Kept, HasEnd, Xs, StartWith, Growth, LengthOnLine, Itoa;
    var hs := [LENGTH_FIELD, TYPE_FIELD, Xs(1000)];
    LongHeader();
    LongKept();
    OutputSize(hs, 1, EMPTY);
    LengthFieldStarts();
    TypeFieldStarts();
    assert Through(hs, 1) == [LENGTH_FIELD + CRLF, TYPE_FIELD + CRLF];
    GrowthOfTwo(LENGTH_FIELD + CRLF, TYPE_FIELD + CRLF, 1013);
    TwelveAnnounced();
    ThousandDigits();
    ItoaLonger(1000, 1013);
  }

  lemma TwelveAnnounced()
    ensures LengthOnLine(LENGTH_FIELD + CRLF) == |EMPTY| == 12
  {
    hide LengthOnLine;
    LengthLineNumber(12);
    assert Itoa(1) == "1" && Itoa(12) == "1" + "2";
    assert LENGTH_FIELD == "Content-Length: " + Itoa(12);
  }

  // ----- several length fields

  const BARE_FIELD := "Content-Length"
  const TWICE := [LENGTH_FIELD, BARE_FIELD, TYPE_FIELD]

  lemma BareFieldStarts()
    ensures StartWith(BARE_FIELD + CRLF, "Content-Length") && !StartWith(BARE_FIELD + CRLF, "Content-Type")
  {
    var line := BARE_FIELD + CRLF;
    StartWithPlain(line, "Content-Type");
    StartWithPlain(line, "Content-Length");
    assert line[8] != "Content-Type"[8];
  }

  lemma TwiceHeader()
    ensures GoodHeader(TWICE, 2)
  {
    hide StartWith, FirstWith;
    LengthFieldStarts();
    BareFieldStarts();
    TypeFieldStarts();
    FirstWithIs(WithCrlf(TWICE), "Content-Type", 2);
  }

  lemma GrowthOfThree(a: string, b: string, c: string, length: nat)
    requires StartWith(a, "Content-Length") && StartWith(b, "Content-Length") && !StartWith(c, "Content-Length")
    ensures Growth([a, b, c], length) == 2 * |LengthLine(length)| - |a| - |b|
  {
    hide StartWith, LengthLine;
    assert [a, b, c][1..] == [b, c];
    GrowthOfTwo(b, c, length);
  }

  /** A second, bare Content-Length makes it overflow even with Content-Type last: it is written out as well. */
  lemma SecondLengthOverflows()
    ensures GoodHeader(TWICE, 2) && HasEnd(Lines(XmlPart(TWICE, 2, EMPTY))) && LengthOnLine(WithCrlf(TWICE)[0]) == |EMPTY|
    ensures |Output(HeadPart(TWICE, 2, EMPTY), XmlPart(TWICE, 2, EMPTY))| == |Message(TWICE, EMPTY)| + 3
  {
    hide Lines, GoodHeader, HeadPart, XmlPart, Output, Message, Kept, HasEnd, StartWith, Growth, LengthOnLine, Itoa, KindOf;
    TwiceHeader();
    EmptyEnds(TWICE, 2);
    OutputSize(TWICE, 2, EMPTY);
    XmlPartWhenLast(TWICE, 2, EMPTY);
    KeptWhenLast(EMPTY);
    EmptyKept();
    LengthFieldStarts();
    BareFieldStarts();
    TypeFieldStarts();
    assert Through(TWICE, 2) == [LENGTH_FIELD + CRLF, BARE_FIELD + CRLF, TYPE_FIELD + CRLF];
    GrowthOfThree(LENGTH_FIELD + CRLF, BARE_FIELD + CRLF, TYPE_FIELD + CRLF, 11);
    TwelveAnnounced();
    ElevenDigits();
  }

  lemma EmptyKept()
    ensures Kept(EMPTY) == END
  {
    EmptyIsEnd();
    assert END + "" == END;
  }

  lemma ElevenDigits()
    ensures Itoa(11) == "11"
  {
    assert Itoa(1) == "1" && Itoa(11) == "1" + "1";
  }
}
