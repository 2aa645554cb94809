/** What the fields of a header plainly are, leading blanks aside; which responses the code recognises, and which of those
    it recognises it frames as it should (src/handle.c). */
module PlainHeader {
  import opened Text
  import opened HttpText
  import opened Manifest
  import opened Framing
  import opened MessageSize
  import opened PlainReading

  // ----- header fields

  function PlainFirst(lines: seq<string>, pattern: string): (k: nat)
    ensures k <= |lines|
    ensures k < |lines| ==> StartsPlainly(lines[k], pattern)
    ensures forall i | 0 <= i < k :: !StartsPlainly(lines[i], pattern)
  {
    if lines == [] || StartsPlainly(lines[0], pattern) then 0 else 1 + PlainFirst(lines[1..], pattern)
  }

  lemma {:induction false} PlainFirstIs(lines: seq<string>, pattern: string, k: nat)
    requires k <= |lines| && (k < |lines| ==> StartsPlainly(lines[k], pattern))
    requires forall i | 0 <= i < k :: !StartsPlainly(lines[i], pattern)
    ensures PlainFirst(lines, pattern) == k
  {
    hide StartsPlainly;
    if k > 0 {
      PlainFirstIs(lines[1..], pattern, k - 1);
    }
  }

  /** What a field plainly is comes no earlier than what it is taken for. */
  lemma PlainIsLater(lines: seq<string>, pattern: string)
    ensures FirstWith(lines, pattern) <= PlainFirst(lines, pattern)
  {
    hide StartWith, StartsPlainly;
    var k := PlainFirst(lines, pattern);
    if k < |lines| {
      StartWithRightExactly(lines[k], pattern);
    }
  }

  // ----- which responses are recognised

  /** The media type that a line plainly gives. */
  function PlainMedia(line: string): string {
    MediaType(line[Indent(line)..])
  }

  /** A media type is only read from a line that begins with `Content-Type:`. */
  lemma MediaNamesType(line: string)
    requires MediaType(line) != ""
    ensures Indent(line) == 0 && StartsPlainly(line, "Content-Type")
    ensures StartWith(line, "Content-Type") && !StartWith(line, "Content-Length")
  {
    assert line[..13] == "Content-Type:" && line[0] == 'C' && line[..12] == "Content-Type";
    StartWithPlain(line, "Content-Type");
    StartWithPlain(line, "Content-Length");
    assert line[8] == 'T' && "Content-Length"[8] == 'L';
    assert line[Indent(line)..] == line;
  }

  /** What is recognised is always the plain Content-Type. */
  lemma RecognisedIsPlain(lines: seq<string>)
    requires FirstWith(lines, "Content-Type") < |lines| && MediaType(lines[FirstWith(lines, "Content-Type")]) != ""
    ensures PlainFirst(lines, "Content-Type") == FirstWith(lines, "Content-Type")
    ensures PlainMedia(lines[PlainFirst(lines, "Content-Type")]) == MediaType(lines[FirstWith(lines, "Content-Type")])
  {
    hide StartWith, StartsPlainly, MediaType;
    var t := FirstWith(lines, "Content-Type");
    MediaNamesType(lines[t]);
    PlainIsLater(lines, "Content-Type");
    assert lines[t][0..] == lines[t];
  }

  /** A response of some media type is recognised exactly when no field before its Content-Type is wrongly taken for
      one, and that field is not indented. */
  lemma RecognisedExactly(lines: seq<string>, media: string)
    requires media != "" && PlainFirst(lines, "Content-Type") < |lines|
    requires PlainMedia(lines[PlainFirst(lines, "Content-Type")]) == media
    ensures var t, plain := FirstWith(lines, "Content-Type"), PlainFirst(lines, "Content-Type");
      t < |lines| && (MediaType(lines[t]) == media <==> t == plain && Indent(lines[plain]) == 0)
  {
    hide StartWith, StartsPlainly, MediaType;
    var t := FirstWith(lines, "Content-Type");
    PlainIsLater(lines, "Content-Type");
    if MediaType(lines[t]) == media {
      RecognisedIsPlain(lines);
      MediaNamesType(lines[t]);
    }
    assert lines[t][0..] == lines[t];
  }

  lemma MessageLines(hs: seq<string>, body: string)
    requires forall h | h in hs :: Clean(h)
    ensures Lines(Message(hs, body)) == WithCrlf(hs) + Lines(CRLF + body)
    ensures Lines(Flatten(WithCrlf(hs)) + CRLF) == WithCrlf(hs) + [CRLF]
  {
    hide Clean, HeaderLine, IsLine, Flatten, Lines;
    FieldsAreHeaderLines(hs);
    LinesFlatten(WithCrlf(hs), CRLF + body);
    LinesFlatten(WithCrlf(hs), CRLF);
    CrlfLine();
  }

  lemma CrlfLine()
    ensures Lines(CRLF) == [CRLF]
  {
    assert IsLine(CRLF) && CRLF + "" == CRLF;
    LinesCons(CRLF, "");
    assert [CRLF] + Lines("") == [CRLF];
  }

  /** The media type read from a field is the word behind its name, whatever the word. */
  lemma MediaOfField(media: string)
    requires IsWord(media, WHITESPACE)
    ensures MediaType("Content-Type: " + media + CRLF) == media
  {
    var line, text := "Content-Type: " + media + CRLF, media + ['\r'] + "\n";
    assert line[..13] == "Content-Type:" && line[13..] == " " + text && (" " + text)[1..] == text;
    FieldsWord(media, '\r', "\n", WHITESPACE);
  }

  lemma TypeFieldMedia()
    ensures MediaType(TYPE_FIELD + CRLF) == "text/xml"
  {
    assert TYPE_FIELD + CRLF == "Content-Type: " + "text/xml" + CRLF;
    MediaOfField("text/xml");
  }

  /** Field t is the first that is taken for a Content-Type, and it gives the media type plainly. */
  ghost predicate TypeGiven(hs: seq<string>, t: nat, media: string) {
    && (forall h | h in hs :: Clean(h)) && IsWord(media, WHITESPACE)
    && t < |hs| && hs[t] == "Content-Type: " + media
    && forall i | 0 <= i < t :: !StartWith(hs[i] + CRLF, "Content-Type")
  }

  /** The message's lines as they are searched. */
  lemma TypeFound(hs: seq<string>, t: nat, media: string, body: string)
    requires TypeGiven(hs, t, media)
    ensures var lines := Lines(Message(hs, body));
      FirstWith(lines, "Content-Type") == t < |lines| && MediaType(lines[t]) == media
    ensures FirstWith(WithCrlf(hs), "Content-Type") == t
  {
    hide StartWith, FirstWith, MediaType, Lines, Message, Clean;
    MediaOfField(media);
    MediaNamesType(hs[t] + CRLF);
    FirstWithIs(WithCrlf(hs), "Content-Type", t);
    MessageLines(hs, body);
    FirstWithAppend(WithCrlf(hs), Lines(CRLF + body), "Content-Type");
  }

  /** A video chunk is recognised by its media type, and so is a manifest; no other response is taken for either. */
  lemma MediaDecides(hs: seq<string>, t: nat, media: string, body: string)
    requires TypeGiven(hs, t, media)
    ensures IsVideo(Lines(Message(hs, body))) <==> media == "video/f4f"
    ensures IsManifest(Lines(Message(hs, body))) <==> media == "text/xml"
  {
    hide StartWith, FirstWith, MediaType, Lines, Message, TypeGiven;
    TypeFound(hs, t, media, body);
  }

  lemma TypeFieldPlain()
    ensures StartsPlainly(TYPE_FIELD + CRLF, "Content-Type") && !StartsPlainly(TYPE_FIELD + CRLF, "Content-Length")
    ensures StartWith(TYPE_FIELD + CRLF, "Content-Type") && !StartWith(TYPE_FIELD + CRLF, "Content-Length")
    ensures Indent(TYPE_FIELD + CRLF) == 0
  {
    hide StartWith, StartsPlainly, MediaType;
    TypeFieldMedia();
    MediaNamesType(TYPE_FIELD + CRLF);
    StartWithRightExactly(TYPE_FIELD + CRLF, "Content-Length");
  }

  const INDENTED_FIELD := "            x"
  const TWELVE := [LENGTH_FIELD, INDENTED_FIELD, TYPE_FIELD]

  lemma TwelveBlanksTaken()
    ensures Clean(INDENTED_FIELD) && !StartsPlainly(INDENTED_FIELD + CRLF, "Content-Type")
    ensures StartWith(INDENTED_FIELD + CRLF, "Content-Type")
  {
    var line, rest := INDENTED_FIELD + CRLF, "x" + CRLF;
    assert line == "            " + rest;
    IndentOf("            ", rest);
    StartWithMeans(line, "Content-Type");
    assert Common(rest, "Content-Type") == 0;
  }

  lemma TwelveFields()
    ensures var lines := WithCrlf(TWELVE);
      && (forall h | h in TWELVE :: Clean(h))
      && FirstWith(lines, "Content-Type") == 1 && PlainFirst(lines, "Content-Type") == 2
  {
    hide StartWith, StartsPlainly, FirstWith, PlainFirst;
    LengthFieldStarts();
    StartWithRightExactly(LENGTH_FIELD + CRLF, "Content-Type");
    TwelveBlanksTaken();
    TypeFieldPlain();
    FirstWithIs(WithCrlf(TWELVE), "Content-Type", 1);
    PlainFirstIs(WithCrlf(TWELVE), "Content-Type", 2);
  }

  lemma {:induction false} FirstInFront(lines: seq<string>, more: seq<string>, pattern: string)
    requires PlainFirst(lines, pattern) < |lines|
    ensures PlainFirst(lines + more, pattern) == PlainFirst(lines, pattern)
  {
    hide StartsPlainly;
    assert forall i | 0 <= i < |lines| :: (lines + more)[i] == lines[i];
    PlainFirstIs(lines + more, pattern, PlainFirst(lines, pattern));
  }

  /** For instance a field of twelve blanks and a letter, in a response that is plainly text/xml: it is not recognised as a
      manifest, nor as a video. */
  lemma TwelveBlanksMissed()
    ensures var lines := Lines(Message(TWELVE, EMPTY));
      && PlainFirst(lines, "Content-Type") == 2 < |lines| && PlainMedia(lines[2]) == "text/xml"
      && FirstWith(lines, "Content-Type") == 1 && MediaType(lines[1]) == ""
      && !IsManifest(lines) && !IsVideo(lines)
  {
    hide StartWith, StartsPlainly, FirstWith, PlainFirst, MediaType, Lines, Message, Clean;
    var lines := Lines(Message(TWELVE, EMPTY));
    TwelveFields();
    MessageLines(TWELVE, EMPTY);
    FirstWithAppend(WithCrlf(TWELVE), Lines(CRLF + EMPTY), "Content-Type");
    FirstInFront(WithCrlf(TWELVE), Lines(CRLF + EMPTY), "Content-Type");
    TypeFieldMedia();
    TypeFieldPlain();
    assert lines[2] == TYPE_FIELD + CRLF && lines[2][0..] == lines[2];
    TwelveBlanksTaken();
    assert lines[1] == INDENTED_FIELD + CRLF;
    if MediaType(lines[1]) != "" {
      MediaNamesType(lines[1]);
    }
  }

  /** So it is forwarded as it came. */
  method TwelveBlanksForwarded(buffer: string, newbuffer: array<char>, bitrate: array<int>) returns (r: int)
    requires buffer == Message(TWELVE, EMPTY) && bitrate.Length == SLOTS
    modifies newbuffer, bitrate
    ensures r == -1
  {
    TwelveBlanksMissed();
    hide IsManifest, IsVideo, Lines;
    NotRecognised(Lines(buffer));
    r := ParseF4m(buffer, newbuffer, bitrate);
  }

  lemma NotRecognised(lines: seq<string>)
    requires !IsManifest(lines)
    ensures Parsable(lines)
  {
  }

  // ----- what is sent for the responses that are recognised

  /** What the rewriting needs, plainly: a Content-Length, and Content-Type as the last field. */
  predicate WellOrdered(hs: seq<string>) {
    var lines := WithCrlf(hs);
    PlainFirst(lines, "Content-Length") < PlainFirst(lines, "Content-Type") == |hs| - 1
  }

  /** The message is complete: the header announces, to the proxy's own reader, what follows it. */
  ghost predicate Received(hs: seq<string>, body: string) {
    var header := Flatten(WithCrlf(hs)) + CRLF;
    (forall h | h in hs :: Clean(h)) && HasLength(header) && LengthIn(header) == |body|
  }

  /** The end tag is there, and its line is complete. */
  ghost predicate HasEndLine(lines: seq<string>) {
    exists i :: 0 <= i < |lines| && KindOf(lines[i]).End? && IsLine(lines[i])
  }

  /** What is sent. */
  ghost function Sent(hs: seq<string>, body: string): string
    requires FirstWith(WithCrlf(hs), "Content-Type") < |hs|
  {
    var t := FirstWith(WithCrlf(hs), "Content-Type");
    Output(HeadPart(hs, t, body), XmlPart(hs, t, body))
  }

  /** A complete response that is recognised as a manifest and that the code rewrites within its buffers. */
  ghost predicate Sendable(hs: seq<string>, body: string) {
    var t := FirstWith(WithCrlf(hs), "Content-Type");
    && Received(hs, body)
    && t < |hs| && MediaType(WithCrlf(hs)[t]) == "text/xml"
    && HasEndLine(Lines(XmlPart(hs, t, body)))
    && |Kept(XmlPart(hs, t, body))| <= BUFFER_SIZE && |Sent(hs, body)| <= |Message(hs, body)|
  }

  lemma SendableHeader(hs: seq<string>, body: string)
    requires Sendable(hs, body)
    ensures var t := FirstWith(WithCrlf(hs), "Content-Type");
      && t < |hs| && GoodHeader(hs, t) && HasEnd(Lines(XmlPart(hs, t, body)))
      && PlainFirst(WithCrlf(hs), "Content-Type") == t && !StartWith(WithCrlf(hs)[t], "Content-Length")
  {
    hide StartWith, StartsPlainly, MediaType, Clean, Lines, XmlPart, Sent, HasLength, LengthIn, Kept, Message, KindOf, IsLine;
    var lines, t := WithCrlf(hs), FirstWith(WithCrlf(hs), "Content-Type");
    MediaNamesType(lines[t]);
    RecognisedIsPlain(lines);
  }

  /** For such a response `parse_f4m_response` leaves that message in its buffer. */
  method RewriteReceived(buffer: string, ghost hs: seq<string>, ghost body: string, newbuffer: array<char>, bitrate: array<int>)
    returns (size: int)
    requires Sendable(hs, body) && buffer == Message(hs, body)
    requires newbuffer.Length == |buffer| && bitrate.Length == SLOTS
    modifies newbuffer, bitrate
    ensures size == |Sent(hs, body)| && newbuffer[..size] == Sent(hs, body)
  {
    hide IsManifest, Parsable, Output, Lines, HeadPart, XmlPart, Message, MediaType, FirstWith, Rates, FillAll, SplitAtType;
    ReceivedManifest(hs, body);
    size := ParseF4m(buffer, newbuffer, bitrate);
  }

  /** What `parse_f4m_response` answers for a message, by the media type alone. */
  method Classify(buffer: string, ghost hs: seq<string>, ghost t: nat, ghost media: string, ghost body: string,
                  newbuffer: array<char>, bitrate: array<int>)
    returns (r: int)
    requires TypeGiven(hs, t, media) && buffer == Message(hs, body) && (media == "text/xml" ==> Sendable(hs, body))
    requires newbuffer.Length == |buffer| && bitrate.Length == SLOTS
    modifies newbuffer, bitrate
    ensures r == -2 <==> media == "video/f4f"
    ensures r >= 0 <==> media == "text/xml"
    ensures r == -1 || r == -2 || r == |Sent(hs, body)|
  {
    hide IsManifest, IsVideo, Parsable, Output, Lines, HeadPart, XmlPart, Message, MediaType, FirstWith, Rates, FillAll,
      SplitAtType, TypeGiven, HasEndLine, Received;
    MediaDecides(hs, t, media, body);
    if media == "text/xml" {
      ReceivedManifest(hs, body);
    } else {
      NotRecognised(Lines(buffer));
    }
    r := ParseF4m(buffer, newbuffer, bitrate);
  }

  /** And the slots take the rates that the manifest quotes. */
  method RecordReceived(buffer: string, ghost hs: seq<string>, ghost body: string, ghost rates: seq<nat>,
                        newbuffer: array<char>, bitrate: array<int>)
    returns (size: int)
    requires Sendable(hs, body) && buffer == Message(hs, body)
    requires var lines := Lines(XmlPart(hs, FirstWith(WithCrlf(hs), "Content-Type"), body));
      HasPlainEnd(lines) && ClearThroughEnd(lines) && Announces(lines, rates)
    requires newbuffer.Length == |buffer| && bitrate.Length == 10 && forall i | 0 <= i < 10 :: bitrate[i] == -1
    modifies newbuffer, bitrate
    ensures size == |Sent(hs, body)| && newbuffer[..size] == Sent(hs, body)
    ensures forall i | 0 <= i < 10 :: bitrate[i] == if i < |rates| then rates[i] else -1
  {
    hide IsManifest, Parsable, Output, Lines, HeadPart, XmlPart, Message, MediaType, FirstWith, Rates, FillAll, SplitAtType,
      HasPlainEnd, ClearThroughEnd, Announces, HasEndLine, Received;
    ReceivedManifest(hs, body);
    ghost var lines := Lines(XmlPart(hs, FirstWith(WithCrlf(hs), "Content-Type"), body));
    SlotsOfManifest(lines, rates, bitrate[..]);
    size := ParseF4m(buffer, newbuffer, bitrate);
    assert forall i | 0 <= i < 10 :: bitrate[i] == bitrate[..][i];
  }

  lemma ReceivedManifest(hs: seq<string>, body: string)
    requires Sendable(hs, body)
    ensures var lines, t := Lines(Message(hs, body)), FirstWith(WithCrlf(hs), "Content-Type");
      && t < |hs| && FirstWith(lines, "Content-Type") < |lines|
      && Flatten(lines[FirstWith(lines, "Content-Type") + 1..]) != ""
      && SplitAtType(lines) == (HeadPart(hs, t, body), XmlPart(hs, t, body))
      && IsManifest(lines) && Parsable(lines)
  {
    hide StartWith, StartsPlainly, MediaType, Clean, Lines, HeadPart, XmlPart, HasLength, LengthIn, Kept, Message, Flatten,
      FirstWith, NewHead, HasEnd, HasType, SplitAtType, GoodHeader, Parsable, Received, HasEndLine, Sent;
    var t := FirstWith(WithCrlf(hs), "Content-Type");
    SendableHeader(hs, body);
    SplitOfMessage(hs, t, body);
    HeadPartLines(hs, t, body, 0);
    ParsableAt(Lines(Message(hs, body)), HeadPart(hs, t, body), XmlPart(hs, t, body));
  }

  lemma ParsableAt(lines: seq<string>, head: string, xml: string)
    requires FirstWith(lines, "Content-Type") < |lines| && Flatten(lines[FirstWith(lines, "Content-Type") + 1..]) != ""
    requires SplitAtType(lines) == (head, xml) && HasType(Lines(head)) && HasEnd(Lines(xml)) && |Kept(xml)| <= BUFFER_SIZE
    ensures Parsable(lines)
  {
    hide StartWith, MediaType, Lines, Kept, Flatten, FirstWith, HasEnd, HasType, SplitAtType;
  }

  /** In terms of the fields: what is sent is framed as the fields are taken, and well ordered as they plainly are. */
  lemma FramedByFields(hs: seq<string>, body: string)
    requires Sendable(hs, body)
    ensures var lines, t := WithCrlf(hs), FirstWith(WithCrlf(hs), "Content-Type");
      && t < |hs|
      && (Framed(Sent(hs, body)) <==> FirstWith(lines, "Content-Length") < t && t == |hs| - 1)
      && (WellOrdered(hs) <==> PlainFirst(lines, "Content-Length") < t && t == |hs| - 1)
      && FirstWith(lines, "Content-Length") <= PlainFirst(lines, "Content-Length")
  {
    hide Framed, Output, HeadPart, XmlPart, HasEnd, Lines, FirstWith, PlainFirst, Sendable, GoodHeader;
    SendableHeader(hs, body);
    FramedExactlyWhenTypeLast(hs, FirstWith(WithCrlf(hs), "Content-Type"), body);
    PlainIsLater(WithCrlf(hs), "Content-Length");
  }

  /** The rewritten message is framed for the proxy's own reader, whenever the fields before Content-Type that are taken for
      a Content-Length are, exactly when a Content-Length comes before Content-Type and Content-Type is the last field. */
  lemma FramedExactly(hs: seq<string>, body: string)
    requires Sendable(hs, body)
    requires var lines := WithCrlf(hs);
      forall i | 0 <= i < |lines| && i < FirstWith(lines, "Content-Type") :: ReadsRight(lines[i], "Content-Length")
    ensures Framed(Sent(hs, body)) <==> WellOrdered(hs)
  {
    hide Framed, Sent, Sendable, WellOrdered, StartWith, StartsPlainly, ReadsRight;
    FramedByFields(hs, body);
    var lines := WithCrlf(hs);
    var u := FirstWith(lines, "Content-Length");
    if u < FirstWith(lines, "Content-Type") {
      StartWithRightExactly(lines[u], "Content-Length");
    }
  }

  /** Header by header: the plain order decides, unless Content-Type is last and what is taken for the Content-Length before
      it is none. */
  lemma HeaderReadExactly(hs: seq<string>, body: string)
    requires Sendable(hs, body)
    ensures var lines, t := WithCrlf(hs), FirstWith(WithCrlf(hs), "Content-Type");
      (Framed(Sent(hs, body)) <==> WellOrdered(hs))
      <==> !(t == |hs| - 1 && FirstWith(lines, "Content-Length") < t <= PlainFirst(lines, "Content-Length"))
  {
    hide Framed, Sent, Sendable, WellOrdered, FirstWith, PlainFirst;
    FramedByFields(hs, body);
  }

  // ----- the fields that mislead

  /** A field that is no Content-Length, but from which the proxy reads one that leaves room for an end tag. */
  predicate Misleads(h: string) {
    var line := h + CRLF;
    && StartWith(line, "Content-Length:") && !StartsPlainly(line, "Content-Length")
    && !StartWith(line, "Content-Type") && LengthOnLine(line) >= |EMPTY|
  }

  lemma {:induction false} LineFits(s: string, l: string)
    requires l in Lines(s)
    ensures |l| <= |s|
    decreases |s|
  {
    if s != "" && l != s[..LineLength(s)] {
      LineFits(s[LineLength(s)..], l);
    }
  }

  /** A complete line with the end tag takes twelve bytes. */
  lemma EndLineSize(body: string)
    requires HasEndLine(Lines("\n" + body))
    ensures |body| >= |EMPTY|
  {
    hide KindOf, Lines;
    LinesCons("\n", body);
    CrlfIsOther();
    var lines := Lines("\n" + body);
    var i :| 0 <= i < |lines| && KindOf(lines[i]).End? && IsLine(lines[i]);
    assert i > 0 && lines[i] == Lines(body)[i - 1] && lines[i] in Lines(body);
    LineFits(body, lines[i]);
    EndLineLong(lines[i]);
  }

  lemma EndLineLong(line: string)
    requires KindOf(line).End? && IsLine(line)
    ensures |line| >= |EMPTY|
  {
    StartWithIsLong(line, END);
    if |line| == |END| {
      StartWithMeans(line, END);
      LastIsNotBlank(line);
    }
  }

  /** A line as long as the pattern that `start_with` accepts ends as some prefix of the pattern does, or in a blank. */
  lemma LastIsNotBlank(line: string)
    requires |line| == |END| && IsLine(line)
    ensures !StartWith(line, END)
  {
    var k := BlankRun(line, |END|);
    assert line[|line| - 1] == '\n' && !IsBlank('\n');
    if k < |END| && line[k..|END|] == END[..|END| - k] {
      assert line[k..|END|][|END| - k - 1] == '\n';
      assert '\n' in END[..|END| - k];
      NoLfInEnd(|END| - k);
    }
  }

  lemma NoLfInEnd(n: nat)
    requires n <= |END|
    ensures '\n' !in END[..n]
  {
    assert forall c | c in END :: c != '\n';
    assert forall c | c in END[..n] :: c in END;
  }

  /** When the plain order does not decide, some field misleads. */
  lemma SomethingMisleads(hs: seq<string>, body: string)
    requires Sendable(hs, body) && !(Framed(Sent(hs, body)) <==> WellOrdered(hs))
    ensures exists i :: 0 <= i < |hs| && !StartsPlainly(WithCrlf(hs)[i], "Content-Length") && Misleads(hs[i])
                        && StartWith(WithCrlf(hs)[i], "Content-Length")
  {
    hide Framed, Sent, WellOrdered, StartWith, StartsPlainly, FirstWith, PlainFirst, Lines, Kept, XmlPart, Message, KindOf,
      IsLine, LengthOnLine, Clean, Flatten, MediaType;
    var lines, t := WithCrlf(hs), FirstWith(WithCrlf(hs), "Content-Type");
    HeaderReadExactly(hs, body);
    SendableHeader(hs, body);
    XmlPartWhenLast(hs, t, body);
    EndLineSize(body);
    MessageLines(hs, body);
    var k := LengthField(hs);
    StartWithPrefix(lines[k], "Content-Length:", "Content-Length");
    assert k != t && k < t;
    assert LengthOnLine(lines[k]) == |body|;
  }

  /** The field from which the length is read. */
  lemma LengthField(hs: seq<string>) returns (k: nat)
    requires (forall h | h in hs :: Clean(h)) && HasLength(Flatten(WithCrlf(hs)) + CRLF)
    ensures k < |hs| && StartWith(WithCrlf(hs)[k], "Content-Length:")
    ensures LengthIn(Flatten(WithCrlf(hs)) + CRLF) == LengthOnLine(WithCrlf(hs)[k])
  {
    hide StartWith, Lines, LengthOnLine, Clean, Flatten;
    MessageLines(hs, "");
    k := FirstWith(WithCrlf(hs) + [CRLF], "Content-Length:");
    if k == |hs| {
      CrlfIsNoField();
    }
  }

  lemma CrlfIsNoField()
    ensures !StartWith(CRLF, "Content-Length:")
  {
    StartWithPlain(CRLF, "Content-Length:");
  }

  /** A manifest of any size from twelve bytes on: an end tag and padding behind it. */
  function Padded(n: nat): (s: string)
    requires n >= |EMPTY|
    ensures |s| == n
  {
    END + Xs(n - |EMPTY|) + "\n"
  }

  lemma PaddedEnds(n: nat)
    requires n >= |EMPTY|
    ensures Lines(Padded(n)) == [Padded(n)] && KindOf(Padded(n)) == End && IsLine(Padded(n)) && Kept(Padded(n)) == END
  {
    var s := Padded(n);
    assert s[..|s| - 1] == END + Xs(n - |EMPTY|) && s + "" == s;
    NoLfInEnd(|END|);
    assert END[..|END|] == END;
    assert IsLine(s);
    LinesCons(s, "");
    assert [s] + Lines("") == [s];
    PaddedKind(s);
    assert END + "" == END;
  }

  lemma PaddedKind(s: string)
    requires END <= s
    ensures KindOf(s) == End
  {
    assert s[..|END|] == END && s[0] == END[0] && s[3] == END[3];
    StartWithPlain(s, "bitrate");
    StartWithPlain(s, "</media>");
    StartWithPlain(s, END);
    assert "bitrate"[0] != s[0] && "</media>"[3] != s[3];
  }

  lemma MisleadingFields(h: string)
    requires Clean(h) && Misleads(h)
    ensures var lines := WithCrlf([h, TYPE_FIELD]);
      && GoodHeader([h, TYPE_FIELD], 1) && FirstWith(lines, "Content-Type") == 1
      && FirstWith(lines, "Content-Length") == 0 && PlainFirst(lines, "Content-Length") == 2
  {
    hide StartWith, StartsPlainly, FirstWith, PlainFirst, LengthOnLine;
    var hs := [h, TYPE_FIELD];
    TypeFieldPlain();
    StartWithPrefix(h + CRLF, "Content-Length:", "Content-Length");
    FirstWithIs(WithCrlf(hs), "Content-Length", 0);
    FirstWithIs(WithCrlf(hs), "Content-Type", 1);
    PlainFirstIs(WithCrlf(hs), "Content-Length", 2);
  }

  lemma MisleadingReceived(h: string)
    requires Clean(h) && Misleads(h)
    ensures Received([h, TYPE_FIELD], Padded(LengthOnLine(h + CRLF)))
  {
    hide StartWith, StartsPlainly, FirstWith, Lines, LengthOnLine, Flatten;
    var hs, line := [h, TYPE_FIELD], h + CRLF;
    assert Clean(TYPE_FIELD);
    MessageLines(hs, "");
    FirstWithIs(WithCrlf(hs) + [CRLF], "Content-Length:", 0);
    NothingReadAtEnd(line);
    assert line[16..][|line| - 18] == '\r';
  }

  lemma MisleadingFits(h: string)
    requires Clean(h) && Misleads(h)
    ensures var hs, body := [h, TYPE_FIELD], Padded(LengthOnLine(h + CRLF));
      && GoodHeader(hs, 1)
      && |Kept(XmlPart(hs, 1, body))| == |EMPTY| && HasEndLine(Lines(XmlPart(hs, 1, body)))
      && |Output(HeadPart(hs, 1, body), XmlPart(hs, 1, body))| <= |Message(hs, body)|
  {
    hide StartWith, StartsPlainly, FirstWith, PlainFirst, Lines, LengthOnLine, Kept, XmlPart, HeadPart, Output, Message,
      Growth, KindOf, IsLine, Clean, Padded;
    var hs, line := [h, TYPE_FIELD], h + CRLF;
    var n := LengthOnLine(line);
    var body := Padded(n);
    MisleadingFields(h);
    XmlPartWhenLast(hs, 1, body);
    PaddedEnds(n);
    LinesOfTwo(body);
    KeptWhenLast(body);
    OutputSize(hs, 1, body);
    TypeFieldPlain();
    StartWithPrefix(line, "Content-Length:", "Content-Length");
    assert Through(hs, 1) == [line, TYPE_FIELD + CRLF];
    GrowthOfTwo(line, TYPE_FIELD + CRLF, 11);
    AnnouncesEnough(line, n, 11);
  }

  lemma LinesOfTwo(body: string)
    requires Lines(body) == [body] && KindOf(body) == End && IsLine(body)
    ensures HasEndLine(Lines("\n" + body)) && HasEnd(Lines("\n" + body))
  {
    hide Lines, KindOf;
    LinesCons("\n", body);
    assert Lines("\n" + body)[1] == body;
  }

  /** A misleading field, before a Content-Type: framed, although there plainly is no Content-Length. */
  lemma MisleadingHeader(h: string)
    requires Clean(h) && Misleads(h)
    ensures var hs, body := [h, TYPE_FIELD], Padded(LengthOnLine(h + CRLF));
      Sendable(hs, body) && !WellOrdered(hs) && Framed(Sent(hs, body))
  {
    hide StartWith, StartsPlainly, FirstWith, PlainFirst, Lines, LengthOnLine, Kept, XmlPart, HeadPart, Output, Message,
      KindOf, IsLine, Clean, Padded, MediaType, Framed, Received, HasEndLine, GoodHeader;
    MisleadingFields(h);
    MisleadingReceived(h);
    MisleadingFits(h);
    TypeFieldMedia();
    FramedByFields([h, TYPE_FIELD], Padded(LengthOnLine(h + CRLF)));
  }

  /** Field by field: the plain order decides for every response with the field and otherwise clear ones, exactly when the
      field does not mislead. */
  lemma FieldReadExactly(h: string)
    requires Clean(h)
    ensures (forall hs, body | Sendable(hs, body)
                               && (forall f | f in hs && f != h :: ReadsRight(f + CRLF, "Content-Length")) ::
               Framed(Sent(hs, body)) <==> WellOrdered(hs))
            <==> !Misleads(h)
  {
    hide StartWith, StartsPlainly, ReadsRight, Framed, Sent, WellOrdered, Misleads, LengthOnLine, Padded, FirstWith, MediaType,
      Received, HasEndLine, Kept, XmlPart, Message;
    if Misleads(h) {
      MisleadingHeader(h);
      UnindentedReadsRight(TYPE_FIELD + CRLF, "Content-Length");
      assert forall f | f in [h, TYPE_FIELD] && f != h :: ReadsRight(f + CRLF, "Content-Length");
    } else {
      forall hs, body | Sendable(hs, body)
                        && (forall f | f in hs && f != h :: ReadsRight(f + CRLF, "Content-Length"))
        ensures Framed(Sent(hs, body)) <==> WellOrdered(hs)
      {
        if !(Framed(Sent(hs, body)) <==> WellOrdered(hs)) {
          SomethingMisleads(hs, body);
          var i :| 0 <= i < |hs| && !StartsPlainly(WithCrlf(hs)[i], "Content-Length") && Misleads(hs[i])
                   && StartWith(WithCrlf(hs)[i], "Content-Length");
          assert hs[i] in hs && hs[i] != h;
          StartWithRightExactly(hs[i] + CRLF, "Content-Length");
        }
      }
    }
  }

  const MISSPELT := "  Content-Lengtx12"

  lemma CommonIs(s: string, t: string, n: nat)
    requires n < |s| && n < |t| && s[..n] == t[..n] && s[n] != t[n]
    ensures Common(s, t) == n
  {
    CommonAtLeast(s, t, n);
    CommonAtLeast(s, t, n + 1);
    assert s[..n + 1][n] == s[n] && t[..n + 1][n] == t[n];
  }

  /** For instance a misspelt name behind two blanks. */
  lemma MisspeltMisleads()
    ensures Clean(MISSPELT) && Misleads(MISSPELT)
    ensures Sendable([MISSPELT, TYPE_FIELD], Padded(12)) && !WellOrdered([MISSPELT, TYPE_FIELD])
            && Framed(Sent([MISSPELT, TYPE_FIELD], Padded(12)))
  {
    hide StartWith, StartsPlainly, LengthOnLine, Padded, Sendable, WellOrdered, Framed, Sent;
    MisspeltText();
    MisspeltNumber();
    MisleadingHeader(MISSPELT);
  }

  const UNINDENTED := "Content-Lengtx12\r\n"

  lemma MisspeltCommon()
    ensures Common(UNINDENTED, "Content-Length:") == 13 && Common(UNINDENTED, "Content-Length") == 13
    ensures Common(UNINDENTED, "Content-Type") == 8
  {
    hide Common;
    assert UNINDENTED[..13] == "Content-Lengt" && UNINDENTED[13] == 'x' && UNINDENTED[..8] == "Content-" && UNINDENTED[8] == 'L';
    assert "Content-Length:"[..13] == "Content-Lengt" && "Content-Length"[..13] == "Content-Lengt";
    assert "Content-Type"[..8] == "Content-" && "Content-Type"[8] == 'T';
    CommonIs(UNINDENTED, "Content-Length:", 13);
    CommonIs(UNINDENTED, "Content-Length", 13);
    CommonIs(UNINDENTED, "Content-Type", 8);
  }

  lemma MisspeltParts()
    ensures Clean(MISSPELT) && MISSPELT + CRLF == "  " + UNINDENTED
  {
  }

  lemma MisspeltText()
    ensures Clean(MISSPELT)
    ensures StartWith(MISSPELT + CRLF, "Content-Length:") && !StartsPlainly(MISSPELT + CRLF, "Content-Length")
    ensures !StartWith(MISSPELT + CRLF, "Content-Type")
  {
    hide StartWith, StartsPlainly, Common, Clean;
    var line := MISSPELT + CRLF;
    MisspeltParts();
    IndentOf("  ", UNINDENTED);
    MisspeltCommon();
    StartWithMeans(line, "Content-Length:");
    StartWithMeans(line, "Content-Length");
    StartWithMeans(line, "Content-Type");
  }

  lemma MisspeltNumber()
    ensures LengthOnLine(MISSPELT + CRLF) == |EMPTY| == 12
  {
    hide LengthOnLine;
    assert MISSPELT + CRLF == "  Content-Lengt" + "x12" + CRLF;
    ValueOnLine("  Content-Lengt", "x12");
    assert "x12"[1..] == "12" && "12"[1..] == "2" && "2"[1..] == "";
    AtoiDigits("12");
    assert DigitRun("12", 0) == DigitRun("2", 1) == DigitRun("", 12);
  }
}
