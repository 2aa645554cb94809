/** The request rewriting of `update_bitrate` (src/bitrate.c): the path segment before the first "Seg"
    is replaced by the chosen bitrate. */
module Rewrite {
  import opened Text

  predicate SegAt(s: string, i: nat) {
    i + 2 < |s| && s[i] == 'S' && s[i + 1] == 'e' && s[i + 2] == 'g'
  }

  /** `strstr(s, "Seg")`: the first occurrence from position `from` on, or the length of the text. */
  function FirstSeg(s: string, from: nat): (k: nat)
    requires from <= |s|
    ensures from <= k <= |s| && (k < |s| ==> SegAt(s, k))
    decreases |s| - from
  {
    if from == |s| || SegAt(s, from) then from else FirstSeg(s, from + 1)
  }

  /** The last '/' before position `k`, or -1. */
  function SlashBefore(s: string, k: nat): (i: int)
    requires k <= |s|
    ensures -1 <= i < k && (i >= 0 ==> s[i] == '/')
  {
    if k == 0 then -1 else if s[k - 1] == '/' then k - 1 else SlashBefore(s, k - 1)
  }

  /** "Seg" occurs, with a '/' before it; in C the searches would otherwise leave the buffer. */
  predicate Rewritable(request: string) {
    var k := FirstSeg(request, 0);
    k < |request| && SlashBefore(request, k) >= 0
  }

  function Rewritten(request: string, rate: nat): string
    requires Rewritable(request)
  {
    var k := FirstSeg(request, 0);
    request[..SlashBefore(request, k) + 1] + Itoa(rate) + request[k..]
  }

  /** The number that stands in a request where the rate belongs: behind the '/' before the first "Seg". */
  function RateIn(request: string): int
    requires Rewritable(request)
  {
    Atoi(request[SlashBefore(request, FirstSeg(request, 0)) + 1..])
  }

  /** The second half of `update_bitrate`, on the text of the buffer. */
  method RewriteRequest(buffer: string, rate: nat) returns (text: string)
    requires Rewritable(buffer)
    ensures text == Rewritten(buffer, rate)
    ensures Rewritable(text) && RateIn(text) == rate
  {
    RateReadsBack(buffer, rate);
    var result := FirstSeg(buffer, 0);
    var second := buffer[result..];
    while buffer[result] != '/'
      invariant result < |buffer|
      invariant result == FirstSeg(buffer, 0) || SlashBefore(buffer, result + 1) == SlashBefore(buffer, FirstSeg(buffer, 0))
      invariant SlashBefore(buffer, FirstSeg(buffer, 0)) <= result
      decreases result
    {
      result := result - 1;
    }
    var first := "";
    for i := 0 to result + 1
      invariant first == buffer[..i]
    {
      first := first + [buffer[i]];
    }
    text := first + Itoa(rate) + second;
  }

  // ----- lemmas

  lemma {:induction false} FirstSegIs(s: string, from: nat, k: nat)
    requires from <= k <= |s| && (k < |s| ==> SegAt(s, k))
    requires forall i | from <= i < k :: !SegAt(s, i)
    ensures FirstSeg(s, from) == k
    decreases k - from
  {
    if from < k {
      FirstSegIs(s, from + 1, k);
    }
  }

  lemma {:induction false} NoSegBeforeFirst(s: string, from: nat, i: nat)
    requires from <= |s| && from <= i < FirstSeg(s, from)
    ensures !SegAt(s, i)
    decreases i - from
  {
    if from < i {
      NoSegBeforeFirst(s, from + 1, i);
    }
  }

  lemma {:induction false} SlashBeforeIs(s: string, k: nat, slash: nat)
    requires slash < k <= |s| && s[slash] == '/' && forall j | slash < j < k :: s[j] != '/'
    ensures SlashBefore(s, k) == slash
  {
    if slash < k - 1 {
      SlashBeforeIs(s, k - 1, slash);
    }
  }

  /** Where "Seg" and the '/' are after rewriting: the digits cannot create an earlier "Seg", nor a '/'. */
  lemma RewrittenLandmarks(request: string, rate: nat, slash: nat, k: nat)
    requires Rewritable(request) && slash == SlashBefore(request, FirstSeg(request, 0)) && k == slash + 1 + |Itoa(rate)|
    ensures var text := Rewritten(request, rate);
      k < |text| && FirstSeg(text, 0) == k && SlashBefore(text, k) == slash
  {
    var seg, digits, text := FirstSeg(request, 0), Itoa(rate), Rewritten(request, rate);
    forall j | slash < j < k
      ensures IsDigit(text[j])
    {
      assert text[j] == digits[j - slash - 1] && digits[j - slash - 1] in digits;
    }
    assert forall j | 0 <= j <= slash :: text[j] == request[j];
    assert text[k] == request[seg] && text[k + 1] == request[seg + 1] && text[k + 2] == request[seg + 2];
    forall i | 0 <= i < k
      ensures !SegAt(text, i)
    {
      if i + 1 < slash {
        NoSegBeforeFirst(request, 0, i);
      }
    }
    FirstSegIs(text, 0, k);
    SlashBeforeIs(text, k, slash);
  }

  /** What stands between the '/' and "Seg" after rewriting: digits only, and they are the rate. */
  lemma RateReadsBack(request: string, rate: nat)
    requires Rewritable(request)
    ensures var text := Rewritten(request, rate);
      && Rewritable(text) && RateIn(text) == rate
      && forall j | SlashBefore(text, FirstSeg(text, 0)) < j < FirstSeg(text, 0) :: IsDigit(text[j])
  {
    hide Itoa, Atoi;
    var seg, digits, text := FirstSeg(request, 0), Itoa(rate), Rewritten(request, rate);
    var slash := SlashBefore(request, seg);
    RewrittenLandmarks(request, rate, slash, slash + 1 + |digits|);
    assert text[slash + 1..] == digits + request[seg..];
    AtoiItoa(rate, request[seg..]);
    forall j | slash < j < slash + 1 + |digits|
      ensures IsDigit(text[j])
    {
      assert text[j] == digits[j - slash - 1] && digits[j - slash - 1] in digits;
    }
  }

  lemma SegInText(s: string, i: nat)
    requires i <= |s|
    ensures SegAt(s, i) <==> "Seg" <= s[i..]
  {
    if SegAt(s, i) {
      assert s[i..][..3] == "Seg";
    }
  }

  lemma RequestParts(front: string, segment: string, rest: string)
    ensures var s, slash, k := front + "/" + segment + "Seg" + rest, |front|, |front| + 1 + |segment|;
      && |s| >= k + 3 && s[slash] == '/' && s[..slash + 1] == front + "/" && s[k..] == "Seg" + rest
      && forall j | slash < j < k :: s[j] == segment[j - slash - 1]
  {
  }

  /** The rewriting as a text: the path segment that ends at the first "Seg" is replaced by the rate. */
  lemma SegmentIsReplaced(front: string, segment: string, rest: string, rate: nat)
    requires '/' !in segment
    requires var request := front + "/" + segment + "Seg" + rest;
      forall i | 0 <= i < |front| + 1 + |segment| :: !("Seg" <= request[i..])
    ensures var request := front + "/" + segment + "Seg" + rest;
      Rewritable(request) && Rewritten(request, rate) == front + "/" + Itoa(rate) + ("Seg" + rest)
  {
    hide FirstSeg, SlashBefore, Itoa;
    var request, k := front + "/" + segment + "Seg" + rest, |front| + 1 + |segment|;
    RequestParts(front, segment, rest);
    SegInText(request, k);
    forall i | 0 <= i < k
      ensures !SegAt(request, i)
    {
      SegInText(request, i);
    }
    FirstSegIs(request, 0, k);
    SlashBeforeIs(request, k, |front|);
  }

  lemma Splice(front: string, middle: string, back: string)
    ensures (front + middle + back)[..|front|] == front
    ensures (front + middle + back)[|front| + |middle|..] == back
  {
  }

  /** Rewriting is last-writer-wins: a second rewriting leaves no trace of the first. */
  lemma LastRewriteWins(request: string, r1: nat, r2: nat)
    requires Rewritable(request)
    ensures Rewritable(Rewritten(request, r1))
    ensures Rewritten(Rewritten(request, r1), r2) == Rewritten(request, r2)
  {
    var slash := SlashBefore(request, FirstSeg(request, 0));
    RewrittenLandmarks(request, r1, slash, slash + 1 + |Itoa(r1)|);
    Splice(request[..slash + 1], Itoa(r1), request[FirstSeg(request, 0)..]);
  }

  /** What the proxy forwards: it writes as many bytes as it read, from a buffer that holds the new text,
      a NUL, and what was there before. */
  function Forwarded(request: string, text: string): string {
    if |text| >= |request| then text[..|request|] else text + "\0" + request[|text| + 1..]
  }

  /** The rewritten request keeps everything through the '/' and from "Seg" on; it reaches the server intact
      exactly when the replaced segment is as long as the new digits. */
  lemma ForwardedIntactExactly(request: string, rate: nat)
    requires Rewritable(request)
    ensures var k := FirstSeg(request, 0);
      var slash := SlashBefore(request, k);
      var text := Rewritten(request, rate);
      && |text| == |request| - (k - slash - 1) + |Itoa(rate)|
      && text[..slash + 1] == request[..slash + 1] && text[slash + 1 + |Itoa(rate)|..] == request[k..]
      && (Forwarded(request, text) == text <==> k - slash - 1 == |Itoa(rate)|)
  {
  }

  const REQUEST := "GET /500Seg1 HTTP/1.1"

  lemma RequestLandmarks()
    ensures FirstSeg(REQUEST, 0) == 8 && SlashBefore(REQUEST, 8) == 4
  {
    FirstSegIs(REQUEST, 0, 8);
    SlashBeforeIs(REQUEST, 8, 4);
  }

  /** For instance a rate of four digits over one of three: the last byte of the request is not sent. */
  lemma LongerRateIsCut()
    ensures Rewritable(REQUEST) && Rewritten(REQUEST, 1000) == "GET /1000Seg1 HTTP/1.1"
    ensures Forwarded(REQUEST, Rewritten(REQUEST, 1000)) == "GET /1000Seg1 HTTP/1."
  {
    hide FirstSeg, SlashBefore, Itoa;
    RequestLandmarks();
    ThousandDigits();
    assert REQUEST[..5] + "1000" + REQUEST[8..] == "GET /1000Seg1 HTTP/1.1";
    assert "GET /1000Seg1 HTTP/1.1"[..21] == "GET /1000Seg1 HTTP/1.";
  }

  /** And a rate of two digits over one of three: a NUL is sent behind the request, in place of its last byte. */
  lemma ShorterRateIsPadded()
    ensures Rewritable(REQUEST) && Rewritten(REQUEST, 10) == "GET /10Seg1 HTTP/1.1"
    ensures Forwarded(REQUEST, Rewritten(REQUEST, 10)) == "GET /10Seg1 HTTP/1.1\0"
  {
    hide FirstSeg, SlashBefore, Itoa;
    RequestLandmarks();
    TenDigits();
    assert REQUEST[..5] + "10" + REQUEST[8..] == "GET /10Seg1 HTTP/1.1";
    assert REQUEST[21..] == "";
  }

  lemma TenDigits()
    ensures Itoa(10) == "10"
  {
    assert Itoa(1) == "1" && Itoa(10) == "1" + "0";
  }
}
