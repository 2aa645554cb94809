/** Rewriting a manifest response (`write_f4m_nolist` and `parse_f4m_response`, src/handle.c): which lines of the
    manifest are kept, which bitrates are recorded, and whether the message that leaves is framed correctly. */
module Manifest {
  import opened Text
  import opened HttpText

  const END := "</manifest>"
  const SLOTS := 10
  const BUFFER_SIZE := 256000

  // ----- the manifest filter

  datatype Kind = Bitrate | Media | End | Other

  /** The order in which the filter tests a line. */
  function KindOf(line: string): Kind {
    if StartWith(line, "bitrate") then Bitrate
    else if StartWith(line, "</media>") then Media
    else if StartWith(line, END) then End
    else Other
  }

  /** Some line makes the loop stop; in C it would otherwise run past the message. */
  predicate HasEnd(lines: seq<string>) {
    exists i :: 0 <= i < |lines| && KindOf(lines[i]).End?
  }

  /** What a line contributes; `noWrite` is set once a `</media>` line has passed. */
  function Emit(line: string, noWrite: bool): string {
    match KindOf(line)
    case Bitrate => ""
    case End => END
    case _ => if noWrite then "" else line
  }

  /** What the loop leaves in `buffer`. */
  function Filtered(lines: seq<string>, noWrite: bool): string {
    if lines == [] then ""
    else Emit(lines[0], noWrite)
         + if KindOf(lines[0]).End? then "" else Filtered(lines[1..], noWrite || KindOf(lines[0]).Media?)
  }

  function Kept(xml: string): string {
    Filtered(Lines(xml), false)
  }

  /** The number on a bitrate line: what follows its first quote. */
  function RateOn(line: string): int {
    var i := RunLength(line, {'"'});
    if i < |line| then Atoi(line[i + 1..]) else 0
  }

  /** The rates that the loop reads before it stops, in manifest order. */
  function Rates(lines: seq<string>): seq<int> {
    if lines == [] then []
    else match KindOf(lines[0])
      case Bitrate => [RateOn(lines[0])] + Rates(lines[1..])
      case End => []
      case _ => Rates(lines[1..])
  }

  /** Record a rate in the first slot that holds -1, if there is one. */
  function FillSlot(slots: seq<int>, rate: int): seq<int> {
    if slots == [] then []
    else if slots[0] == -1 then [rate] + slots[1..]
    else [slots[0]] + FillSlot(slots[1..], rate)
  }

  function FillAll(slots: seq<int>, rates: seq<int>): seq<int>
    decreases |rates|
  {
    if rates == [] then slots else FillAll(FillSlot(slots, rates[0]), rates[1..])
  }

  // ----- the new header

  function LengthLine(length: nat): string {
    "Content-Length: " + Itoa(length) + CRLF
  }

  /** The header lines through Content-Type, with the length replaced. */
  function NewHead(lines: seq<string>, length: nat): seq<string> {
    if lines == [] then []
    else if StartWith(lines[0], "Content-Length") then [LengthLine(length)] + NewHead(lines[1..], length)
    else if StartWith(lines[0], "Content-Type") then [lines[0]]
    else [lines[0]] + NewHead(lines[1..], length)
  }

  /** The line at which the header loop stops; in C it would otherwise run past the header. */
  predicate HasType(lines: seq<string>) {
    exists i :: 0 <= i < |lines| && IsType(lines[i])
  }

  /** The message that `write_f4m_nolist` leaves in `newbuffer`, from the text before and after its offset.
      The offset is one past the start of the line after Content-Type, so the kept text is expected to begin
      with that line's LF, and is one byte longer than the announced length. */
  function Output(head: string, xml: string): string {
    var kept := Kept(xml);
    Flatten(NewHead(Lines(head), if kept == "" then 0 else |kept| - 1)) + "\r" + kept
  }

  // ----- the code

  /** `memcpy`. */
  method Copy(dst: array<char>, offset: nat, text: string)
    requires offset + |text| <= dst.Length
    modifies dst
    ensures dst[..offset + |text|] == old(dst[..offset]) + text
  {
    for i := 0 to |text|
      invariant dst[..offset + i] == old(dst[..offset]) + text[..i]
    {
      dst[offset + i] := text[i];
    }
    assert text[..|text|] == text;
  }

  lemma {:induction false} FillSlotAt(slots: seq<int>, k: nat, rate: int)
    requires k <= |slots| && forall i | 0 <= i < k :: slots[i] != -1
    requires k < |slots| ==> slots[k] == -1
    ensures FillSlot(slots, rate) == if k < |slots| then slots[k := rate] else slots
  {
    if k > 0 {
      assert forall i | 0 <= i < |slots| - 1 :: slots[1..][i] == slots[i + 1];
      FillSlotAt(slots[1..], k - 1, rate);
    }
  }

  /** The search for a free slot. */
  method StoreRate(bitrate: array<int>, rate: int)
    modifies bitrate
    ensures bitrate[..] == FillSlot(old(bitrate[..]), rate)
  {
    var i := 0;
    while i < bitrate.Length && bitrate[i] != -1
      invariant i <= bitrate.Length && bitrate[..] == old(bitrate[..])
      invariant forall k | 0 <= k < i :: bitrate[k] != -1
    {
      i := i + 1;
    }
    FillSlotAt(bitrate[..], i, rate);
    if i < bitrate.Length {
      bitrate[i] := rate;
    }
  }

  /** The test for the line that stops the first loop. */
  method StopsFilter(line: string) returns (stop: bool)
    ensures stop == KindOf(line).End?
  {
    var isBitrate := StartsWith(line, "bitrate");
    var isMedia := StartsWith(line, "</media>");
    var isEnd := StartsWith(line, END);
    stop := !isBitrate && !isMedia && isEnd;
  }

  /** The body of the first loop of `write_f4m_nolist`, for a line that does not stop it. */
  method FilterLine(line: string, buffer: array<char>, writeOffset: nat, noWrite: bool, bitrate: array<int>)
    returns (writeOffset': nat, noWrite': bool)
    requires !KindOf(line).End? && writeOffset + |Emit(line, noWrite)| <= buffer.Length
    modifies buffer, bitrate
    ensures writeOffset' == writeOffset + |Emit(line, noWrite)|
    ensures buffer[..writeOffset'] == old(buffer[..writeOffset]) + Emit(line, noWrite)
    ensures noWrite' == (noWrite || KindOf(line).Media?)
    ensures bitrate[..] == FillAll(old(bitrate[..]), RateOf(line))
  {
    writeOffset', noWrite' := writeOffset, noWrite;
    var isBitrate := StartsWith(line, "bitrate");
    var isMedia := StartsWith(line, "</media>");
    if isBitrate {
      FillAllCons(bitrate[..], RateOn(line), []);
      StoreRate(bitrate, RateOn(line));
    } else {
      if !noWrite {
        Copy(buffer, writeOffset, line);
        writeOffset' := writeOffset + |line|;
      }
      if isMedia {
        noWrite' := true;
      }
    }
  }

  lemma Associative(a: string, b: string, c: string)
    ensures a + (b + c) == (a + b) + c
  {
  }

  /** One line of the first loop, as text. */
  lemma FilteredNext(done: string, lines: seq<string>, noWrite: bool)
    requires lines != []
    ensures var line, rest := lines[0], lines[1..];
      done + Filtered(lines, noWrite)
      == if KindOf(line).End? then done + END
         else (done + Emit(line, noWrite)) + Filtered(rest, noWrite || KindOf(line).Media?)
  {
    if KindOf(lines[0]).End? {
      assert Emit(lines[0], noWrite) + "" == END;
    } else {
      Associative(done, Emit(lines[0], noWrite), Filtered(lines[1..], noWrite || KindOf(lines[0]).Media?));
    }
  }

  function RateOf(line: string): seq<int> {
    if KindOf(line).Bitrate? then [RateOn(line)] else []
  }

  /** One line of the first loop, as rates. */
  lemma RatesNext(slots: seq<int>, lines: seq<string>)
    requires lines != []
    ensures KindOf(lines[0]).End? ==> FillAll(slots, Rates(lines)) == slots
    ensures !KindOf(lines[0]).End? ==>
              FillAll(slots, Rates(lines)) == FillAll(FillAll(slots, RateOf(lines[0])), Rates(lines[1..]))
  {
    if KindOf(lines[0]).Bitrate? {
      FillAllCons(slots, RateOn(lines[0]), Rates(lines[1..]));
    }
  }

  lemma FillAllCons(slots: seq<int>, rate: int, rates: seq<int>)
    ensures FillAll(slots, [rate] + rates) == FillAll(FillSlot(slots, rate), rates)
    ensures FillAll(slots, [rate]) == FillSlot(slots, rate)
  {
    assert ([rate] + rates)[1..] == rates;
    assert FillAll(FillSlot(slots, rate), [rate][1..]) == FillSlot(slots, rate);
  }

  /** The first loop of `write_f4m_nolist`. */
  method FilterManifest(xml: string, buffer: array<char>, bitrate: array<int>) returns (writeOffset: nat)
    requires HasEnd(Lines(xml)) && |Kept(xml)| <= buffer.Length
    modifies buffer, bitrate
    ensures writeOffset == |Kept(xml)| && buffer[..writeOffset] == Kept(xml)
    ensures bitrate[..] == FillAll(old(bitrate[..]), Rates(Lines(xml)))
  {
    hide Filtered, Rates, FillAll, KindOf, Emit, Lines, RateOf;
    ghost var kept, slots, rest := Kept(xml), FillAll(bitrate[..], Rates(Lines(xml))), Lines(xml);
    var p, noWrite := xml, false;
    writeOffset := 0;
    while true
      invariant rest == Lines(p) && HasEnd(rest)
      invariant writeOffset <= buffer.Length && |kept| <= buffer.Length
      invariant kept == buffer[..writeOffset] + Filtered(rest, noWrite)
      invariant slots == FillAll(bitrate[..], Rates(rest))
      decreases |p|
    {
      NoLines();
      var line;
      line, p := ReadLine(p);
      FilteredNext(buffer[..writeOffset], rest, noWrite);
      RatesNext(bitrate[..], rest);
      var stop := StopsFilter(line);
      if stop {
        Copy(buffer, writeOffset, END);
        writeOffset := writeOffset + |END|;
        return;
      }
      EndLater(rest);
      writeOffset, noWrite := FilterLine(line, buffer, writeOffset, noWrite, bitrate);
      rest := rest[1..];
    }
  }

  /** The line written for a header line. */
  function NewLine(line: string, length: nat): string {
    if StartWith(line, "Content-Length") then LengthLine(length) else line
  }

  predicate IsType(line: string) {
    !StartWith(line, "Content-Length") && StartWith(line, "Content-Type")
  }

  /** One line of the second loop. */
  lemma NewHeadNext(done: string, lines: seq<string>, length: nat)
    requires lines != []
    ensures done + Flatten(NewHead(lines, length))
            == (done + NewLine(lines[0], length)) + if IsType(lines[0]) then "" else Flatten(NewHead(lines[1..], length))
  {
    var tail := if IsType(lines[0]) then [] else NewHead(lines[1..], length);
    assert NewHead(lines, length) == [NewLine(lines[0], length)] + tail;
    assert ([NewLine(lines[0], length)] + tail)[1..] == tail;
    Associative(done, NewLine(lines[0], length), Flatten(tail));
  }

  /** The body of the second loop of `write_f4m_nolist`. */
  method WriteHeadLine(line: string, length: nat, newbuffer: array<char>, offset: nat) returns (offset': nat, stop: bool)
    requires offset + |NewLine(line, length)| <= newbuffer.Length
    modifies newbuffer
    ensures offset' == offset + |NewLine(line, length)|
    ensures newbuffer[..offset'] == old(newbuffer[..offset]) + NewLine(line, length)
    ensures stop == IsType(line)
  {
    var isLength := StartsWith(line, "Content-Length");
    stop := false;
    if isLength {
      Copy(newbuffer, offset, LengthLine(length));
    } else {
      stop := StartsWith(line, "Content-Type");
      Copy(newbuffer, offset, line);
    }
    offset' := offset + |NewLine(line, length)|;
  }

  /** The second loop of `write_f4m_nolist`. */
  method WriteHead(head: string, length: nat, newbuffer: array<char>) returns (offset: nat)
    requires HasType(Lines(head)) && |Flatten(NewHead(Lines(head), length))| <= newbuffer.Length
    modifies newbuffer
    ensures offset == |Flatten(NewHead(Lines(head), length))|
    ensures newbuffer[..offset] == Flatten(NewHead(Lines(head), length))
  {
    ghost var text, rest := Flatten(NewHead(Lines(head), length)), Lines(head);
    var p := head;
    offset := 0;
    while true
      invariant rest == Lines(p) && HasType(rest)
      invariant offset <= newbuffer.Length && |text| <= newbuffer.Length
      invariant text == newbuffer[..offset] + Flatten(NewHead(rest, length))
      decreases |p|
    {
      var line;
      line, p := ReadLine(p);
      NewHeadNext(newbuffer[..offset], rest, length);
      var stop;
      offset, stop := WriteHeadLine(line, length, newbuffer, offset);
      if stop {
        return;
      }
      TypeLater(rest);
      rest := rest[1..];
    }
  }

  /** The end of `write_f4m_nolist`: a CR, an LF that the next copy overwrites, and the kept text. */
  method FinishMessage(newbuffer: array<char>, offset: nat, kept: string) returns (size: nat)
    requires offset + 1 + |kept| <= newbuffer.Length && kept != ""
    modifies newbuffer
    ensures size == offset + 1 + |kept|
    ensures newbuffer[..size] == old(newbuffer[..offset]) + "\r" + kept
  {
    newbuffer[offset] := '\r';
    newbuffer[offset + 1] := '\n';
    Copy(newbuffer, offset + 1, kept);
    size := offset + 1 + |kept|;
  }

  /** `write_f4m_nolist`: `head` and `xml` are the message before and after its offset. */
  method WriteF4m(head: string, xml: string, newbuffer: array<char>, bitrate: array<int>) returns (size: nat)
    requires bitrate.Length == SLOTS && HasType(Lines(head)) && HasEnd(Lines(xml))
    requires |Kept(xml)| <= BUFFER_SIZE && |Output(head, xml)| <= newbuffer.Length
    modifies newbuffer, bitrate
    ensures size == |Output(head, xml)| && newbuffer[..size] == Output(head, xml)
    ensures bitrate[..] == FillAll(old(bitrate[..]), Rates(Lines(xml)))
  {
    hide Lines, Kept, NewHead, Flatten, FillAll, Rates, HasEnd, HasType;
    var buffer := new char[BUFFER_SIZE](_ => '\0');
    SomethingKept(xml);
    var writeOffset := FilterManifest(xml, buffer, bitrate);
    var kept := buffer[..writeOffset];
    assert kept == Kept(xml) && |kept| > 0;
    ghost var text := Flatten(NewHead(Lines(head), |kept| - 1));
    assert Output(head, xml) == text + "\r" + kept;
    var bufferOffset := WriteHead(head, writeOffset - 1, newbuffer);
    assert newbuffer[..bufferOffset] == text;
    size := FinishMessage(newbuffer, bufferOffset, kept);
  }

  /** The media type that `sscanf(line, "Content-Type: %s")` reads. */
  function MediaType(line: string): string {
    if "Content-Type:" <= line && Fields(line[13..], WHITESPACE) != [] then Fields(line[13..], WHITESPACE)[0] else ""
  }

  /** The text through the first Content-Type line and one byte more, and what follows: the split at `total + 1`. */
  function SplitAtType(lines: seq<string>): (r: (string, string))
    requires FirstWith(lines, "Content-Type") < |lines| && Flatten(lines[FirstWith(lines, "Content-Type") + 1..]) != ""
  {
    var k := FirstWith(lines, "Content-Type");
    var after := Flatten(lines[k + 1..]);
    (Flatten(lines[..k + 1]) + after[..1], after[1..])
  }

  predicate IsVideo(lines: seq<string>) {
    var k := FirstWith(lines, "Content-Type");
    k < |lines| && MediaType(lines[k]) == "video/f4f"
  }

  predicate IsManifest(lines: seq<string>) {
    var k := FirstWith(lines, "Content-Type");
    k < |lines| && MediaType(lines[k]) == "text/xml"
  }

  /** A response on which `parse_f4m_response` stays inside its buffers. */
  predicate Parsable(lines: seq<string>) {
    var k := FirstWith(lines, "Content-Type");
    k < |lines| && MediaType(lines[k]) == "text/xml" ==>
      && Flatten(lines[k + 1..]) != ""
      && HasType(Lines(SplitAtType(lines).0)) && HasEnd(Lines(SplitAtType(lines).1))
      && |Kept(SplitAtType(lines).1)| <= BUFFER_SIZE
  }

  lemma {:induction false} FirstWithSplit(seen: seq<string>, ahead: seq<string>, pattern: string)
    requires forall l | l in seen :: !StartWith(l, pattern)
    requires ahead == [] || StartWith(ahead[0], pattern)
    ensures FirstWith(seen + ahead, pattern) == |seen|
  {
    hide StartWith;
    if seen == [] {
      assert seen + ahead == ahead;
    } else {
      assert (seen + ahead)[0] == seen[0] && seen[0] in seen && (seen + ahead)[1..] == seen[1..] + ahead;
      assert forall l | l in seen[1..] :: l in seen;
      FirstWithSplit(seen[1..], ahead, pattern);
    }
  }

  lemma SplitParts(seen: seq<string>, ahead: seq<string>)
    requires ahead != []
    ensures var lines, k := seen + ahead, |seen|;
      lines[k] == ahead[0] && lines[..k + 1] == seen + [ahead[0]] && lines[k + 1..] == ahead[1..]
  {
  }

  /** The line loop of `parse_f4m_response`: `done` has been read when the Content-Type line is found. */
  method FindType(buffer: string) returns (found: bool, line: string, done: string, rest: string)
    ensures var lines := Lines(buffer);
      var k := FirstWith(lines, "Content-Type");
      && found == (k < |lines|)
      && (found ==> line == lines[k] && done == Flatten(lines[..k + 1]) && rest == Flatten(lines[k + 1..]))
  {
    hide *;
    ghost var seen: seq<string>, ahead := [], Lines(buffer);
    line, done, rest := "", "", buffer;
    FlattenNone("");
    while rest != ""
      invariant seen + ahead == Lines(buffer) && ahead == Lines(rest)
      invariant forall l | l in seen :: !StartWith(l, "Content-Type")
      invariant done == Flatten(seen)
      decreases |rest|
    {
      line, rest := ReadLine(rest);
      SplitParts(seen, ahead);
      FlattenSnoc(seen, line);
      done := done + line;
      var isType := StartsWith(line, "Content-Type");
      if isType {
        FlattenLines(rest);
        FirstWithSplit(seen, ahead, "Content-Type");
        return true, line, done, rest;
      }
      assert (seen + [line]) + ahead[1..] == seen + ahead;
      seen, ahead := seen + [line], ahead[1..];
    }
    NoLines();
    FirstWithSplit(seen, ahead, "Content-Type");
    return false, line, done, rest;
  }

  lemma NoLines()
    ensures Lines("") == []
  {
  }

  /** `parse_f4m_response`: -2 for a video chunk, the size of the new message for a manifest, -1 otherwise. */
  method ParseF4m(buffer: string, newbuffer: array<char>, bitrate: array<int>) returns (r: int)
    requires Parsable(Lines(buffer)) && bitrate.Length == SLOTS
    requires IsManifest(Lines(buffer)) ==>
               |Output(SplitAtType(Lines(buffer)).0, SplitAtType(Lines(buffer)).1)| <= newbuffer.Length
    modifies newbuffer, bitrate
    ensures r == -2 <==> IsVideo(Lines(buffer))
    ensures r >= 0 <==> IsManifest(Lines(buffer))
    ensures r < 0 ==> r == -1 || r == -2
    ensures IsManifest(Lines(buffer)) ==>
              var (head, xml) := SplitAtType(Lines(buffer));
              && r == |Output(head, xml)| && newbuffer[..r] == Output(head, xml)
              && bitrate[..] == FillAll(old(bitrate[..]), Rates(Lines(xml)))
  {
    var found, line, done, rest := FindType(buffer);
    if !found {
      return -1;
    }
    if MediaType(line) == "video/f4f" {
      return -2;
    } else if MediaType(line) == "text/xml" {
      r := WriteF4m(done + rest[..1], rest[1..], newbuffer, bitrate);
    } else {
      return -1;
    }
  }

  // ----- lemmas for the code

  lemma EndLater(lines: seq<string>)
    requires lines != [] && HasEnd(lines)
    ensures !KindOf(lines[0]).End? ==> HasEnd(lines[1..])
  {
    var i :| 0 <= i < |lines| && KindOf(lines[i]).End?;
    if i > 0 {
      assert lines[1..][i - 1] == lines[i];
    }
  }

  lemma TypeLater(lines: seq<string>)
    requires lines != [] && HasType(lines)
    ensures !IsType(lines[0]) ==> HasType(lines[1..])
  {
    var i :| 0 <= i < |lines| && IsType(lines[i]);
    if i > 0 {
      assert lines[1..][i - 1] == lines[i];
    }
  }

  lemma {:induction false} FlattenSnoc(lines: seq<string>, line: string)
    ensures Flatten(lines + [line]) == Flatten(lines) + line
  {
    if lines == [] {
      assert lines + [line] == [line] && Flatten([line]) == line + Flatten([line][1..]);
    } else {
      FlattenSnoc(lines[1..], line);
      assert (lines + [line])[1..] == lines[1..] + [line];
      Associative(lines[0], Flatten(lines[1..]), line);
    }
  }

  lemma SomethingKept(xml: string)
    requires HasEnd(Lines(xml))
    ensures Kept(xml) != ""
  {
    KeptNonEmpty(Lines(xml), false);
  }

  lemma {:induction false} KeptNonEmpty(lines: seq<string>, noWrite: bool)
    requires HasEnd(lines)
    ensures |Filtered(lines, noWrite)| >= |END|
  {
    EndLater(lines);
    if !KindOf(lines[0]).End? {
      KeptNonEmpty(lines[1..], noWrite || KindOf(lines[0]).Media?);
    }
  }
}
