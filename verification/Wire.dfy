/** The DNS encodings of src/mydns.c and the address parsing of src/nameserver.c, against section 4.1 of RFC 1035. */
module Wire {
  import opened Text

  type Byte = b: int | 0 <= b < 256

  const DOT: Byte := 46
  const HEADER_SIZE := 12
  const NAME_SIZE := 18

  /** `valid_dns`: the only name that is served. */
  const VALID_DNS: seq<Byte> := [0x05, 0x76, 0x69, 0x64, 0x65, 0x6f,
                                 0x02, 0x63, 0x73,
                                 0x03, 0x63, 0x6d, 0x75,
                                 0x03, 0x65, 0x64, 0x75, 0x00]

  // ----- names

  /** The label form of section 3.1: each label behind its length, and a zero at the end. */
  function Encode(labels: seq<seq<Byte>>): seq<Byte>
    requires forall l | l in labels :: |l| < 256
  {
    if labels == [] then [0] else [|labels[0]|] + labels[0] + Encode(labels[1..])
  }

  /** The reader of the label form. */
  function Decode(wire: seq<Byte>): Option<seq<seq<Byte>>>
    decreases |wire|
  {
    if wire == [] then None
    else if wire[0] == 0 then Some([])
    else if wire[0] > 63 || |wire| < 1 + wire[0] then None
    else
      match Decode(wire[1 + wire[0]..])
      case None => None
      case Some(rest) => Some([wire[1..1 + wire[0]]] + rest)
  }

  function Dotted(labels: seq<seq<Byte>>): seq<Byte> {
    if labels == [] then []
    else if |labels| == 1 then labels[0]
    else labels[0] + [DOT] + Dotted(labels[1..])
  }

  ghost predicate GoodLabels(labels: seq<seq<Byte>>) {
    labels != [] && forall l | l in labels :: 1 <= |l| <= 63 && DOT !in l
  }

  /** Length of the label that starts at `k`. */
  function LabelLength(dns: seq<Byte>, k: nat): (n: nat)
    requires k <= |dns|
    ensures k + n <= |dns| && (k + n < |dns| ==> dns[k + n] == DOT)
    ensures forall i | k <= i < k + n :: dns[i] != DOT
    decreases |dns| - k
  {
    if k == |dns| || dns[k] == DOT then 0 else 1 + LabelLength(dns, k + 1)
  }

  /** Start of the last label. */
  function LastStart(dns: seq<Byte>): (k: nat)
    ensures k <= |dns| && (k > 0 ==> dns[k - 1] == DOT)
    ensures forall i | k <= i < |dns| :: dns[i] != DOT
  {
    if dns == [] || dns[|dns| - 1] == DOT then |dns| else LastStart(dns[..|dns| - 1])
  }

  /** Byte `k` of the label form, from the dotted text: a dot becomes the length of the label after it. */
  function WireByte(dns: seq<Byte>, k: nat): int
    requires k < |dns| + 2
  {
    if k == |dns| + 1 then 0
    else if k == 0 || dns[k - 1] == DOT then LabelLength(dns, k)
    else dns[k - 1]
  }

  /** A name as `transfer_dns_name` expects it: non-empty labels of at most 63 bytes. */
  ghost predicate GoodName(dns: seq<Byte>) {
    && dns != [] && dns[0] != DOT && dns[|dns| - 1] != DOT
    && (forall k | 0 <= k < |dns| - 1 && dns[k] == DOT :: dns[k + 1] != DOT)
    && forall k | 0 <= k <= |dns| :: LabelLength(dns, k) <= 63
  }

  /** The bytes begin with the label form. */
  ghost predicate HoldsLabelForm(bytes: seq<Byte>, dns: seq<Byte>) {
    |dns| + 2 <= |bytes| && forall k | 0 <= k < |dns| + 2 :: bytes[k] == WireByte(dns, k)
  }

  /** `transfer_dns_name` stays inside its buffer: no dot follows index `last`; or exactly one does, at the next index
      or, if a label starts at `last`, at the one after, and there is no dot at `last` itself. */
  ghost predicate StaysInside(dns: seq<Byte>, last: nat) {
    forall k | last < k < |dns| && dns[k] == DOT ::
      && dns[last] != DOT
      && (k == last + 1 || (k == last + 2 && (last == 0 || dns[last - 1] == DOT)))
      && forall j | k < j < |dns| :: dns[j] != DOT
  }

  lemma RoomForLabel(dns: seq<Byte>, last: nat, start: nat, i: nat, out: nat)
    requires StaysInside(dns, last) && last < i < |dns| && dns[i] == DOT && start <= i
    requires (start == 0 || dns[start - 1] == DOT) && forall k | start <= k < i :: dns[k] != DOT
    requires (forall k | last <= k < i :: dns[k] != DOT) ==> out == if start < last then start + 1 else start
    ensures out + (i - start) < last + 3
  {
    if k :| last <= k < i && dns[k] == DOT {
      assert false;
    }
  }

  /** The label form of one label. */
  lemma LabelBytes(dns: seq<Byte>, start: nat, n: nat)
    requires start + n < |dns| && dns[start + n] == DOT && (start == 0 || dns[start - 1] == DOT)
    requires forall k | start <= k < start + n :: dns[k] != DOT
    ensures WireByte(dns, start) == n && forall k | start < k <= start + n :: WireByte(dns, k) == dns[k - 1]
  {
    LabelLengthIs(dns, start, n);
  }

  lemma NotEmpty(dns: seq<Byte>)
    requires GoodName(dns)
    ensures dns != []
  {
  }

  lemma InsideLabel(dns: seq<Byte>, start: nat, i: nat)
    requires GoodName(dns) && start <= i < |dns| && forall k | start <= k < i :: dns[k] != DOT
    ensures i - start <= 64 && (dns[i] == DOT ==> i + 1 < |dns|)
  {
    LabelLengthAtLeast(dns, start, i - start);
  }

  lemma {:induction false} LabelLengthAtLeast(dns: seq<Byte>, start: nat, n: nat)
    requires start + n <= |dns| && forall k | start <= k < start + n :: dns[k] != DOT
    ensures LabelLength(dns, start) >= n
    decreases n
  {
    if n > 0 {
      LabelLengthAtLeast(dns, start + 1, n - 1);
    }
  }

  /** `transfer_dns_name`: `start` and `out` stand for the moving pointers into the text and the buffer. The last label
      has no dot behind it; it is written when the index reaches `last`. The result is the label form exactly when `last`
      is the last index and the last label has at least two bytes; for a name that fits and misses that, the last label
      is left out. */
  method TransferDnsName(dns: seq<Byte>, buffer: array<Byte>, last: nat)
    requires GoodName(dns) && StaysInside(dns, last) && buffer.Length == last + 3
    modifies buffer
    ensures HoldsLabelForm(buffer[..], dns) <==> |dns| == last + 1 && |dns| - LastStart(dns) >= 2
    ensures |dns| <= last + 1 && !(|dns| == last + 1 && |dns| - LastStart(dns) >= 2) ==>
              forall k | 0 <= k < buffer.Length :: buffer[k] == if k < LastStart(dns) then WireByte(dns, k) else 0
  {
    hide StaysInside, GoodName, WireByte, LabelLength;
    NotEmpty(dns);
    Clear(buffer);
    var start, out, sublen := 0, 0, 0;
    ghost var written, fits := false, |dns| <= last + 1;
    for i := 0 to |dns|
      invariant 0 <= start <= i && sublen == i - start
      invariant start == 0 || dns[start - 1] == DOT
      invariant forall k | start <= k < i :: dns[k] != DOT
      invariant i == |dns| ==> start < |dns|
      invariant i <= last ==> out == start
      invariant i > last && (forall k | last <= k < i :: dns[k] != DOT) ==> out == if start < last then start + 1 else start
      invariant fits ==> forall k | 0 <= k < start :: buffer[k] == WireByte(dns, k)
      invariant fits && written ==> i == |dns| && buffer[start] == sublen
                                    && forall k | start < k <= start + sublen :: buffer[k] == dns[k - 1]
      invariant fits && !written ==> forall k | start <= k < buffer.Length :: buffer[k] == 0
      invariant fits && written ==> forall k | start + 1 + sublen <= k < buffer.Length :: buffer[k] == 0
      invariant fits ==> (written <==> i == |dns| == last + 1 && sublen >= 2)
    {
      InsideLabel(dns, start, i);
      if i == last && sublen > 0 {
        CopyLabel(dns, start, sublen + 1, buffer, out);
        out := out + 1;
        written := true;
      }
      if dns[i] == DOT {
        LabelBytes(dns, start, sublen);
        if i > last {
          RoomForLabel(dns, last, start, i, out);
        }
        CopyLabel(dns, start, sublen, buffer, out);
        start := start + sublen + 1;
        out := out + 1 + sublen;
        sublen := -1;
      }
      sublen := sublen + 1;
    }
    LastStartIs(dns, start);
    if fits {
      Transferred(dns, buffer[..], start, written);
    }
  }

  /** What the loop leaves for a name that fits. */
  lemma Transferred(dns: seq<Byte>, bytes: seq<Byte>, start: nat, written: bool)
    requires start == LastStart(dns) < |dns| && |dns| + 2 <= |bytes|
    requires forall k | 0 <= k < start :: bytes[k] == WireByte(dns, k)
    requires written ==> bytes[start] == |dns| - start && forall k | start < k <= |dns| :: bytes[k] == dns[k - 1]
    requires forall k | (if written then |dns| + 1 else start) <= k < |bytes| :: bytes[k] == 0
    ensures HoldsLabelForm(bytes, dns) <==> written
    ensures !written ==> forall k | 0 <= k < |bytes| :: bytes[k] == if k < start then WireByte(dns, k) else 0
  {
    LabelLengthIs(dns, start, |dns| - start);
    assert WireByte(dns, start) == |dns| - start;
    if written {
      forall k | 0 <= k < |dns| + 2
        ensures bytes[k] == WireByte(dns, k)
      {
        assert k <= start || k > |dns| || dns[k - 1] != DOT;
      }
    }
  }

  /** The first `memset`. */
  method Clear(buffer: array<Byte>)
    modifies buffer
    ensures forall k | 0 <= k < buffer.Length :: buffer[k] == 0
  {
    for i := 0 to buffer.Length
      invariant forall k | 0 <= k < i :: buffer[k] == 0
    {
      buffer[i] := 0;
    }
  }

  /** The `memset` and `memcpy` of one label. */
  method CopyLabel(dns: seq<Byte>, start: nat, length: nat, buffer: array<Byte>, out: nat)
    requires start + length <= |dns| && out + length < buffer.Length && length < 256
    modifies buffer
    ensures buffer[out] == length
    ensures forall k | out < k <= out + length :: buffer[k] == dns[start + k - out - 1]
    ensures forall k | 0 <= k < out || out + length < k < buffer.Length :: buffer[k] == old(buffer[k])
  {
    buffer[out] := length;
    for i := 0 to length
      invariant buffer[out] == length
      invariant forall k | out < k <= out + i :: buffer[k] == dns[start + k - out - 1]
      invariant forall k | 0 <= k < out || out + length < k < buffer.Length :: buffer[k] == old(buffer[k])
    {
      buffer[out + 1 + i] := dns[start + i];
    }
  }

  lemma {:induction false} LabelLengthIs(dns: seq<Byte>, start: nat, n: nat)
    requires start + n <= |dns| && forall k | start <= k < start + n :: dns[k] != DOT
    ensures start + n == |dns| || dns[start + n] == DOT ==> LabelLength(dns, start) == n
    decreases n
  {
    if n > 0 {
      LabelLengthIs(dns, start + 1, n - 1);
    }
  }

  lemma {:induction false} LastStartIs(dns: seq<Byte>, k: nat)
    requires k <= |dns| && (k > 0 ==> dns[k - 1] == DOT) && forall i | k <= i < |dns| :: dns[i] != DOT
    ensures LastStart(dns) == k
  {
  }

  // ----- the label form and back

  lemma {:induction false} LabelLengthShift(a: seq<Byte>, b: seq<Byte>, k: nat)
    requires k <= |b|
    ensures LabelLength(a + b, |a| + k) == LabelLength(b, k)
    decreases |b| - k
  {
    if k < |b| && b[k] != DOT {
      LabelLengthShift(a, b, k + 1);
    }
  }

  /** The bytes that `TransferDnsName` compares with are the label form of the dotted name. */
  lemma {:induction false} WireBytesEncode(labels: seq<seq<Byte>>)
    requires GoodLabels(labels)
    ensures var dns := Dotted(labels);
      && GoodName(dns) && |Encode(labels)| == |dns| + 2
      && forall k | 0 <= k < |dns| + 2 :: Encode(labels)[k] == WireByte(dns, k)
    decreases |labels|
  {
    hide GoodName, WireByte;
    var l := labels[0];
    assert l in labels;
    if |labels| == 1 {
      assert Encode(labels) == [|l|] + l + [0] by { assert |labels[1..]| == 0; }
      BytesOfOne(l);
    } else {
      WireBytesEncode(labels[1..]);
      assert Encode(labels) == [|l|] + l + Encode(labels[1..]);
      BytesOfMore(l, Dotted(labels[1..]), Encode(labels[1..]));
    }
  }

  lemma BytesOfOne(l: seq<Byte>)
    requires 1 <= |l| <= 63 && DOT !in l
    ensures GoodName(l) && forall k | 0 <= k < |l| + 2 :: ([|l|] + l + [0])[k] == WireByte(l, k)
  {
    forall k | 0 <= k <= |l|
      ensures LabelLength(l, k) == |l| - k
    {
      LabelLengthIs(l, k, |l| - k);
    }
  }

  lemma BytesOfMore(l: seq<Byte>, rest: seq<Byte>, wire: seq<Byte>)
    requires GoodName(rest) && 1 <= |l| <= 63 && DOT !in l
    requires |wire| == |rest| + 2 && forall k | 0 <= k < |rest| + 2 :: wire[k] == WireByte(rest, k)
    ensures var dns := l + [DOT] + rest;
      GoodName(dns) && forall k | 0 <= k < |dns| + 2 :: ([|l|] + l + wire)[k] == WireByte(dns, k)
  {
    hide GoodName, WireByte;
    NameCons(l, rest);
  }

  lemma NameCons(l: seq<Byte>, rest: seq<Byte>)
    requires GoodName(rest) && 1 <= |l| <= 63 && DOT !in l
    ensures var dns := l + [DOT] + rest;
      && GoodName(dns)
      && WireByte(dns, 0) == |l|
      && (forall k | 0 < k <= |l| :: WireByte(dns, k) == l[k - 1])
      && forall k | |l| < k < |dns| + 2 :: WireByte(dns, k) == WireByte(rest, k - |l| - 1)
  {
    var dns := l + [DOT] + rest;
    forall k | 0 <= k <= |dns|
      ensures LabelLength(dns, k) == if k <= |l| then |l| - k else LabelLength(rest, k - |l| - 1)
    {
      if k <= |l| {
        LabelLengthIs(dns, k, |l| - k);
      } else {
        LabelLengthShift(l + [DOT], rest, k - |l| - 1);
      }
    }
    assert forall k | |l| < k < |dns| :: dns[k] == rest[k - |l| - 1];
  }

  /** Decoding the label form gives the labels back. */
  lemma {:induction false} DecodeEncode(labels: seq<seq<Byte>>)
    requires forall l | l in labels :: 1 <= |l| <= 63
    ensures Decode(Encode(labels)) == Some(labels)
  {
    if labels != [] {
      var l, wire := labels[0], Encode(labels);
      assert l in labels;
      assert wire == [|l|] + l + Encode(labels[1..]);
      assert wire[1 + wire[0]..] == Encode(labels[1..]) && wire[1..1 + wire[0]] == l;
      DecodeEncode(labels[1..]);
      assert [l] + labels[1..] == labels;
    }
  }

  /** The label form and anything behind it decode to the labels. */
  lemma {:induction false} DecodePrefix(labels: seq<seq<Byte>>, rest: seq<Byte>)
    requires forall l | l in labels :: 1 <= |l| <= 63
    ensures Decode(Encode(labels) + rest) == Some(labels)
  {
    if labels != [] {
      var l, wire := labels[0], Encode(labels) + rest;
      assert l in labels;
      assert wire == [|l|] + l + (Encode(labels[1..]) + rest);
      assert wire[1 + wire[0]..] == Encode(labels[1..]) + rest && wire[1..1 + wire[0]] == l;
      DecodePrefix(labels[1..], rest);
      assert [l] + labels[1..] == labels;
    } else {
      assert (Encode([]) + rest)[0] == 0;
    }
  }

  lemma EncodeCons(l: seq<Byte>, labels: seq<seq<Byte>>)
    requires |l| < 256 && forall x | x in labels :: |x| < 256
    ensures (forall x | x in [l] + labels :: |x| < 256) && Encode([l] + labels) == [|l|] + l + Encode(labels)
  {
    assert ([l] + labels)[1..] == labels;
  }

  lemma DecodeNext(wire: seq<Byte>)
    requires Decode(wire).Some? && wire[0] != 0
    ensures 1 + wire[0] <= |wire| && Decode(wire[1 + wire[0]..]).Some?
    ensures Decode(wire) == Some([wire[1..1 + wire[0]]] + Decode(wire[1 + wire[0]..]).value)
  {
  }

  lemma PrefixBehind(front: seq<Byte>, l: seq<Byte>, encoded: seq<Byte>, tail: seq<Byte>)
    requires encoded <= tail
    ensures front + l + encoded <= front + l + tail
  {
  }

  /** What decodes begins with the label form of what it decodes to. */
  lemma {:induction false} DecodedIsEncoded(wire: seq<Byte>)
    requires Decode(wire).Some?
    ensures (forall l | l in Decode(wire).value :: |l| < 256) && Encode(Decode(wire).value) <= wire
    decreases |wire|
  {
    if wire[0] == 0 {
      assert Encode([]) == [0] == wire[..1];
    } else {
      hide Decode, Encode;
      DecodeNext(wire);
      var l, tail := wire[1..1 + wire[0]], wire[1 + wire[0]..];
      DecodedIsEncoded(tail);
      var labels := Decode(tail).value;
      EncodeCons(l, labels);
      PrefixBehind([wire[0]], l, Encode(labels), tail);
      assert wire == [wire[0]] + l + tail;
    }
  }

  /** video, cs, cmu, edu. */
  const SERVED: seq<seq<Byte>> :=
    [[0x76, 0x69, 0x64, 0x65, 0x6f], [0x63, 0x73], [0x63, 0x6d, 0x75], [0x65, 0x64, 0x75]]

  lemma ServedLabelsGood()
    ensures GoodLabels(SERVED)
  {
    forall i | 0 <= i < |SERVED|
      ensures 1 <= |SERVED[i]| <= 63 && DOT !in SERVED[i]
    {
      assert i == 0 || i == 1 || i == 2 || i == 3;
    }
  }

  /** Where label `k` of the served name starts in its label form. */
  const STARTS: seq<nat> := [0, 6, 9, 13, 17]

  lemma ServedPiece(k: nat)
    requires k < 4
    ensures VALID_DNS[STARTS[k]..] == [|SERVED[k]|] + SERVED[k] + VALID_DNS[STARTS[k + 1]..]
  {
    assert k == 0 || k == 1 || k == 2 || k == 3;
  }

  lemma {:induction false} ServedFrom(k: nat)
    requires k <= 4 && GoodLabels(SERVED)
    ensures Encode(SERVED[k..]) == VALID_DNS[STARTS[k]..]
    decreases 4 - k
  {
    if k == 4 {
      assert VALID_DNS[17..] == [0];
    } else {
      ServedFrom(k + 1);
      ServedPiece(k);
      assert SERVED[k..][1..] == SERVED[k + 1..];
    }
  }

  /** The name that is served, in label form, is the constant that the name server compares with. */
  lemma ServedNameEncoded()
    ensures GoodLabels(SERVED) && Encode(SERVED) == VALID_DNS
  {
    ServedLabelsGood();
    ServedFrom(0);
    assert SERVED[0..] == SERVED && VALID_DNS[0..] == VALID_DNS;
  }

  /** Exactly the texts that begin with the constant decode to the served name. */
  lemma ServedNameDecoded(wire: seq<Byte>)
    ensures Decode(wire) == Some(SERVED) <==> VALID_DNS <= wire
  {
    hide Encode, Decode;
    ServedNameEncoded();
    if Decode(wire) == Some(SERVED) {
      DecodedIsEncoded(wire);
    }
    if VALID_DNS <= wire {
      assert wire == VALID_DNS + wire[|VALID_DNS|..];
      DecodePrefix(SERVED, wire[|VALID_DNS|..]);
    }
  }

  /** The served name in plain text. */
  lemma ServedText()
    ensures |Dotted(SERVED)| == |"video.cs.cmu.edu"|
    ensures forall k | 0 <= k < |Dotted(SERVED)| :: Dotted(SERVED)[k] == "video.cs.cmu.edu"[k] as int
  {
    DottedServed();
    var text := "video.cs.cmu.edu";
    assert forall k | 0 <= k < 16 :: Dotted(SERVED)[k] == text[k] as int;
  }

  lemma DottedServed()
    ensures Dotted(SERVED) == [0x76, 0x69, 0x64, 0x65, 0x6f, 0x2e, 0x63, 0x73, 0x2e, 0x63, 0x6d, 0x75, 0x2e, 0x65, 0x64, 0x75]
  {
    DottedCons(SERVED[2], [SERVED[3]]);
    DottedCons(SERVED[1], [SERVED[2], SERVED[3]]);
    DottedCons(SERVED[0], [SERVED[1], SERVED[2], SERVED[3]]);
    assert SERVED == [SERVED[0]] + [SERVED[1], SERVED[2], SERVED[3]];
    assert [SERVED[1], SERVED[2], SERVED[3]] == [SERVED[1]] + [SERVED[2], SERVED[3]];
    assert [SERVED[2], SERVED[3]] == [SERVED[2]] + [SERVED[3]];
  }

  lemma DottedCons(l: seq<Byte>, rest: seq<seq<Byte>>)
    requires rest != []
    ensures Dotted([l] + rest) == l + [DOT] + Dotted(rest)
  {
    assert ([l] + rest)[1..] == rest;
  }

  /** The literals 15 and 18 fit it: sixteen bytes, and a last label of three. */
  lemma ServedNameFits()
    ensures |Dotted(SERVED)| == 16 && |Dotted(SERVED)| - LastStart(Dotted(SERVED)) == 3
  {
    DottedCons(SERVED[2], [SERVED[3]]);
    DottedCons(SERVED[1], [SERVED[2], SERVED[3]]);
    DottedCons(SERVED[0], [SERVED[1], SERVED[2], SERVED[3]]);
    assert SERVED == [SERVED[0]] + [SERVED[1], SERVED[2], SERVED[3]];
    assert [SERVED[1], SERVED[2], SERVED[3]] == [SERVED[1]] + [SERVED[2], SERVED[3]];
    assert [SERVED[2], SERVED[3]] == [SERVED[2]] + [SERVED[3]];
    var dns := Dotted(SERVED);
    assert dns[12] == DOT && dns[13] == 0x65 && dns[14] == 0x64 && dns[15] == 0x75;
    LastStartIs(dns, 13);
  }

  lemma LastStartShift(l: seq<Byte>, rest: seq<Byte>)
    ensures LastStart(l + [DOT] + rest) == |l| + 1 + LastStart(rest)
  {
    var dns, k := l + [DOT] + rest, LastStart(rest);
    assert forall i | |l| + 1 <= i < |dns| :: dns[i] == rest[i - |l| - 1];
    LastStartIs(dns, |l| + 1 + k);
  }

  /** The last label of the dotted text is the last label. */
  lemma {:induction false} LastStartDotted(labels: seq<seq<Byte>>)
    requires GoodLabels(labels)
    ensures |Dotted(labels)| - LastStart(Dotted(labels)) == |labels[|labels| - 1]|
    decreases |labels|
  {
    hide LastStart, Dotted;
    DottedNext(labels);
    if |labels| == 1 {
      LastStartIs(labels[0], 0);
    } else {
      LastStartDotted(labels[1..]);
      LastStartShift(labels[0], Dotted(labels[1..]));
    }
  }

  lemma DottedNext(labels: seq<seq<Byte>>)
    requires GoodLabels(labels)
    ensures |labels| == 1 ==> Dotted(labels) == labels[0] && forall i | 0 <= i < |labels[0]| :: labels[0][i] != DOT
    ensures |labels| > 1 ==> Dotted(labels) == labels[0] + [DOT] + Dotted(labels[1..]) && GoodLabels(labels[1..])
  {
    assert labels[0] in labels;
  }

  /** `transfer_dns_name` on the dotted text of any labels: the label form comes out, and so a reader gets the
      labels back, exactly when the text ends at index `last` and the last label has at least two bytes. */
  method TransferLabels(labels: seq<seq<Byte>>, buffer: array<Byte>, last: nat)
    requires GoodLabels(labels) && StaysInside(Dotted(labels), last) && buffer.Length == last + 3
    modifies buffer
    ensures Encode(labels) <= buffer[..] <==> |Dotted(labels)| == last + 1 && |labels[|labels| - 1]| >= 2
    ensures Encode(labels) == buffer[..] ==> Decode(buffer[..]) == Some(labels)
  {
    hide *;
    var dns := Dotted(labels);
    GoodLabelsEncode(labels);
    TransferDnsName(dns, buffer, last);
    SameBytes(Encode(labels), buffer[..], dns);
  }

  lemma GoodLabelsEncode(labels: seq<seq<Byte>>)
    requires GoodLabels(labels)
    ensures GoodName(Dotted(labels)) && (forall l | l in labels :: |l| < 256)
    ensures |Encode(labels)| == |Dotted(labels)| + 2 && Decode(Encode(labels)) == Some(labels)
    ensures forall k | 0 <= k < |Dotted(labels)| + 2 :: Encode(labels)[k] == WireByte(Dotted(labels), k)
    ensures |Dotted(labels)| - LastStart(Dotted(labels)) == |labels[|labels| - 1]|
  {
    WireBytesEncode(labels);
    DecodeEncode(labels);
    LastStartDotted(labels);
  }

  lemma SameBytes(wire: seq<Byte>, bytes: seq<Byte>, dns: seq<Byte>)
    requires |wire| == |dns| + 2 && forall k | 0 <= k < |dns| + 2 :: wire[k] == WireByte(dns, k)
    ensures wire <= bytes <==> HoldsLabelForm(bytes, dns)
  {
  }

  lemma ShortStaysInside(dns: seq<Byte>, last: nat)
    requires |dns| <= last + 1
    ensures StaysInside(dns, last)
  {
  }

  /** A name of sixteen bytes whose last label is a single one: aaaaaaaaaaaaaa.b. */
  const LONELY: seq<seq<Byte>> :=
    [[0x61, 0x61, 0x61, 0x61, 0x61, 0x61, 0x61, 0x61, 0x61, 0x61, 0x61, 0x61, 0x61, 0x61], [0x62]]

  lemma LonelyFits()
    ensures GoodLabels(LONELY) && |Dotted(LONELY)| == 16
  {
    forall i | 0 <= i < |LONELY|
      ensures 1 <= |LONELY[i]| <= 63 && DOT !in LONELY[i]
    {
      assert i == 0 || i == 1;
    }
    assert LONELY[1..] == [[0x62]];
  }

  /** It has the right length for the literal 15, and the label form still does not come out. */
  method LonelyLabelLost(buffer: array<Byte>)
    requires buffer.Length == NAME_SIZE
    modifies buffer
    ensures GoodLabels(LONELY) && |Dotted(LONELY)| == 16 && !(Encode(LONELY) <= buffer[..])
  {
    LonelyFits();
    ShortStaysInside(Dotted(LONELY), 15);
    TransferLabels(LONELY, buffer, 15);
  }

  /** With its literals 15 and 18 it turns the served name into the constant that the name server compares with. */
  method TransferServedName(buffer: array<Byte>)
    requires buffer.Length == NAME_SIZE
    modifies buffer
    ensures buffer[..] == VALID_DNS
  {
    ServedNameEncoded();
    ServedNameFits();
    ShortStaysInside(Dotted(SERVED), 15);
    TransferLabels(SERVED, buffer, 15);
  }

  // ----- the response packet

  /** Id 0, a response with authority (AA), one question and one answer. */
  function HeaderBytes(): (bytes: seq<Byte>)
    ensures |bytes| == HEADER_SIZE
  {
    [0, 0, 0x84, 0x00, 0, 1, 0, 1, 0, 0, 0, 0]
  }

  /** Type and class of the question, both zero. */
  function QuestionBytes(): (bytes: seq<Byte>)
    ensures |bytes| == 4
  {
    [0, 0, 0, 0]
  }

  /** Type A, class IN, time to live 0, four bytes of data. */
  function AnswerBytes(): (bytes: seq<Byte>)
    ensures |bytes| == 10
  {
    [0, 1, 0, 1, 0, 0, 0, 0, 0, 4]
  }

  /** The packet of `gen_resp_pkt`: header, question, and one answer with the address `hex`. */
  function Response(hex: seq<Byte>): seq<Byte> {
    HeaderBytes() + VALID_DNS + QuestionBytes() + VALID_DNS + AnswerBytes() + hex
  }

  /** The appending steps of `gen_resp_pkt`. */
  method GenRespPkt(buffer: array<Byte>, hex: seq<Byte>) returns (size: nat)
    requires buffer.Length >= 66 && |hex| == 4
    modifies buffer
    ensures size == 66 && buffer[..size] == Response(hex)
  {
    hide HeaderBytes, QuestionBytes, AnswerBytes;
    size := Append(buffer, 0, HeaderBytes());
    size := Append(buffer, size, VALID_DNS);
    size := Append(buffer, size, QuestionBytes());
    size := Append(buffer, size, VALID_DNS);
    size := Append(buffer, size, AnswerBytes());
    size := Append(buffer, size, hex);
  }

  method Append(buffer: array<Byte>, offset: nat, bytes: seq<Byte>) returns (end: nat)
    requires offset + |bytes| <= buffer.Length
    modifies buffer
    ensures end == offset + |bytes| && buffer[..end] == old(buffer[..offset]) + bytes
  {
    for i := 0 to |bytes|
      invariant buffer[..offset + i] == old(buffer[..offset]) + bytes[..i]
    {
      buffer[offset + i] := bytes[i];
    }
    end := offset + |bytes|;
    assert bytes[..|bytes|] == bytes;
  }

  /** `parse_response`: the last four bytes, whatever comes before. */
  function ParseResponse(packet: seq<Byte>): (address: seq<Byte>)
    requires |packet| >= 4
  {
    packet[|packet| - 4..]
  }

  function Number16(packet: seq<Byte>, at: nat): nat
    requires at + 2 <= |packet|
  {
    256 * (packet[at] as int) + packet[at + 1] as int
  }

  /** One past the name at `at`, as section 4.1.2 reads it; the length of the packet when there is none. */
  function AfterName(packet: seq<Byte>, at: nat): (next: nat)
    requires at <= |packet|
    ensures at <= next <= |packet|
    decreases |packet| - at
  {
    if at == |packet| then at
    else if packet[at] == 0 then at + 1
    else if packet[at] > 63 || at + 1 + packet[at] > |packet| then |packet|
    else AfterName(packet, at + 1 + packet[at])
  }

  /** A reader that follows section 4.1: require a response without an error code, skip the header and the one question,
      and take the data of the first answer if it is an Internet address. */
  function FirstAddress(packet: seq<Byte>): Option<seq<Byte>> {
    if |packet| < HEADER_SIZE || packet[2] < 128 || packet[3] % 16 != 0 || Number16(packet, 4) != 1 || Number16(packet, 6) == 0
    then None
    else
      var question := AfterName(packet, HEADER_SIZE);
      if question + 4 > |packet| then None
      else
        var answer := AfterName(packet, question + 4);
        if answer + 10 > |packet| || Number16(packet, answer) != 1 || Number16(packet, answer + 2) != 1 then None
        else
          var data, length := answer + 10, Number16(packet, answer + 8);
          if data + length > |packet| then None else Some(packet[data..data + length])
  }

  lemma ServedNameLength(packet: seq<Byte>, at: nat)
    requires at + NAME_SIZE <= |packet| && packet[at..at + NAME_SIZE] == VALID_DNS
    ensures AfterName(packet, at) == at + NAME_SIZE
  {
    var name := packet[at..at + NAME_SIZE];
    assert packet[at] == name[0] == 5;
    assert packet[at + 6] == name[6] == 2;
    assert packet[at + 9] == name[9] == 3;
    assert packet[at + 13] == name[13] == 3;
    assert packet[at + 17] == name[17] == 0;
    assert AfterName(packet, at + 17) == at + 18;
    assert AfterName(packet, at + 13) == AfterName(packet, at + 17);
    assert AfterName(packet, at + 9) == AfterName(packet, at + 13);
    assert AfterName(packet, at + 6) == AfterName(packet, at + 9);
  }

  lemma ResponseParts(header: seq<Byte>, name: seq<Byte>, question: seq<Byte>, answer: seq<Byte>, hex: seq<Byte>)
    requires |header| == HEADER_SIZE && |name| == NAME_SIZE && |question| == 4 && |answer| == 10 && |hex| == 4
    ensures var packet := header + name + question + name + answer + hex;
      && |packet| == 66 && packet[..12] == header
      && packet[30..34] == question && packet[12..30] == name && packet[34..52] == name && packet[52..62] == answer && packet[62..] == hex
  {
  }

  /** A reader that follows section 4.1 understands the packet, and the proxy's shortcut reads the same
      address from it. */
  lemma ResponseRoundTrip(hex: seq<Byte>)
    requires |hex| == 4
    ensures ParseResponse(Response(hex)) == hex
    ensures FirstAddress(Response(hex)) == Some(hex)
  {
    hide AfterName, HeaderBytes, AnswerBytes;
    var packet := Response(hex);
    ResponseParts(HeaderBytes(), VALID_DNS, QuestionBytes(), AnswerBytes(), hex);
    ServedNameLength(packet, 12);
    ServedNameLength(packet, 34);
    ResponseNumbers(packet);
    assert packet[62..66] == hex;
  }

  lemma FourBytes(s: seq<Byte>, k: nat)
    requires k + 4 <= |s|
    ensures s[k..k + 4] == [s[k], s[k + 1], s[k + 2], s[k + 3]]
  {
  }

  lemma ResponseNumbers(packet: seq<Byte>)
    requires |packet| == 66 && packet[..12] == HeaderBytes() && packet[52..62] == AnswerBytes()
    ensures packet[2] == 0x84 && packet[3] == 0 && Number16(packet, 4) == 1 && Number16(packet, 6) == 1
    ensures Number16(packet, 52) == 1 && Number16(packet, 54) == 1 && Number16(packet, 60) == 4
    ensures packet[0] == packet[1] == 0 && packet[8..12] == [0, 0, 0, 0] && packet[56..60] == [0, 0, 0, 0]
  {
    var header, answer := packet[..12], packet[52..62];
    assert packet[0] == header[0] && packet[1] == header[1] && packet[2] == header[2] && packet[3] == header[3];
    assert packet[4] == header[4] && packet[5] == header[5] && packet[6] == header[6] && packet[7] == header[7];
    FourBytes(packet, 8);
    FourBytes(packet, 56);
    assert packet[8] == header[8] && packet[9] == header[9] && packet[10] == header[10] && packet[11] == header[11];
    assert packet[56] == answer[4] && packet[57] == answer[5] && packet[58] == answer[6] && packet[59] == answer[7];
    assert packet[52] == answer[0] && packet[53] == answer[1] && packet[54] == answer[2] && packet[55] == answer[3];
    assert packet[60] == answer[8] && packet[61] == answer[9];
  }

  /** The rest of the packet: id 0, a response (QR) with authority (AA) and nothing else, one question of the served name
      with type and class 0, one answer for that name with time to live 0, and no further records. */
  lemma ResponseFields(hex: seq<Byte>)
    requires |hex| == 4
    ensures var packet := Response(hex);
      && |packet| == 66
      && packet[..2] == [0, 0] && packet[2] == 128 + 4 && packet[3] == 0
      && Number16(packet, 4) == 1 && Number16(packet, 6) == 1 && packet[8..12] == [0, 0, 0, 0]
      && Decode(packet[12..]) == Some(SERVED) && packet[30..34] == [0, 0, 0, 0]
      && Decode(packet[34..]) == Some(SERVED) && packet[56..60] == [0, 0, 0, 0]
  {
    hide Decode, HeaderBytes, AnswerBytes, QuestionBytes;
    var packet := Response(hex);
    ResponseParts(HeaderBytes(), VALID_DNS, QuestionBytes(), AnswerBytes(), hex);
    ResponseNumbers(packet);
    assert packet[..2] == [packet[0], packet[1]];
    assert packet[12..][..NAME_SIZE] == VALID_DNS && packet[34..][..NAME_SIZE] == VALID_DNS;
    ServedNameDecoded(packet[12..]);
    ServedNameDecoded(packet[34..]);
    NoQuestionType();
  }

  lemma NoQuestionType()
    ensures QuestionBytes() == [0, 0, 0, 0]
  {
  }

  // ----- addresses

  /** `translate_ip_to_hex`: the numbers between the dots, stored as bytes; a fifth one ends the loop. */
  method TranslateIp(sname: string, hex: array<Byte>)
    requires |sname| < 15 && hex.Length == 4
    modifies hex
    ensures forall i | 0 <= i < 4 ::
              hex[i] == if i < |Fields(sname, {'.'})| then Atoi(Fields(sname, {'.'})[i]) % 256 else old(hex[i])
  {
    var tokens := Fields(sname, {'.'});
    var i := 0;
    while i < |tokens|
      invariant i <= |tokens| && i <= 4
      invariant forall k | 0 <= k < 4 :: hex[k] == if k < i then Atoi(tokens[k]) % 256 else old(hex[k])
    {
      var a := Atoi(tokens[i]);
      if i >= 4 {
        return;
      }
      hex[i] := a % 256;
      i := i + 1;
    }
  }

  function Quad(a: Byte, b: Byte, c: Byte, d: Byte): string {
    Itoa(a) + "." + Itoa(b) + "." + Itoa(c) + "." + Itoa(d)
  }

  lemma FourFields(a: string, b: string, c: string, d: string)
    requires IsWord(a, {'.'}) && IsWord(b, {'.'}) && IsWord(c, {'.'}) && IsWord(d, {'.'})
    ensures Fields(a + ['.'] + (b + ['.'] + (c + ['.'] + d)), {'.'}) == [a, b, c, d]
  {
    hide *;
    FieldsWord(a, '.', b + ['.'] + (c + ['.'] + d), {'.'});
    FieldsWord(b, '.', c + ['.'] + d, {'.'});
    FieldsWord(c, '.', d, {'.'});
    FieldsLastWord(d, {'.'});
  }

  lemma QuadShape(a: string, b: string, c: string, d: string, end: string)
    ensures a + "." + b + "." + c + "." + d + end == a + ['.'] + (b + ['.'] + (c + ['.'] + (d + end)))
  {
  }

  lemma AtoiPlain(n: nat)
    ensures Atoi(Itoa(n)) == n
  {
    AtoiItoa(n, "");
    assert Itoa(n) + "" == Itoa(n);
  }

  lemma ItoaIsWord(n: nat, end: string)
    requires end == "" || end == "\n"
    ensures IsWord(Itoa(n) + end, {'.'}) && IsWord(Itoa(n), {'.'})
  {
  }

  /** Every dotted quad, with or without the newline that `getline` leaves, is read as its four numbers. */
  lemma QuadFields(a: Byte, b: Byte, c: Byte, d: Byte, end: string)
    requires end == "" || end == "\n"
    ensures Fields(Quad(a, b, c, d) + end, {'.'}) == [Itoa(a), Itoa(b), Itoa(c), Itoa(d) + end]
    ensures Atoi(Itoa(a)) == a && Atoi(Itoa(b)) == b && Atoi(Itoa(c)) == c && Atoi(Itoa(d) + end) == d
  {
    hide Fields, Itoa, Atoi;
    QuadShape(Itoa(a), Itoa(b), Itoa(c), Itoa(d), end);
    ItoaIsWord(a, "");
    ItoaIsWord(b, "");
    ItoaIsWord(c, "");
    ItoaIsWord(d, end);
    FourFields(Itoa(a), Itoa(b), Itoa(c), Itoa(d) + end);
    AtoiPlain(a);
    AtoiPlain(b);
    AtoiPlain(c);
    AtoiItoa(d, end);
  }

  /** `translate_ip_to_hex` on the text of a quad. */
  method TranslateQuad(a: Byte, b: Byte, c: Byte, d: Byte, end: string, hex: array<Byte>)
    requires (end == "" || end == "\n") && |Quad(a, b, c, d) + end| < 15 && hex.Length == 4
    modifies hex
    ensures hex[..] == [a, b, c, d]
  {
    hide Fields, Itoa, Atoi;
    QuadFields(a, b, c, d, end);
    TranslateIp(Quad(a, b, c, d) + end, hex);
    assert hex[..] == [hex[0], hex[1], hex[2], hex[3]];
  }

  /** From the servers file to the proxy's socket address: the four numbers arrive unchanged. */
  method AddressRoundTrip(a: Byte, b: Byte, c: Byte, d: Byte, end: string) returns (address: seq<Byte>)
    requires (end == "" || end == "\n") && |Quad(a, b, c, d) + end| < 15
    ensures address == [a, b, c, d]
  {
    var hex := new Byte[4](_ => 0);
    TranslateQuad(a, b, c, d, end, hex);
    var quad := hex[..];
    var buffer := new Byte[8192](_ => 0);
    var size := GenRespPkt(buffer, quad);
    ResponseRoundTrip(quad);
    var packet := buffer[..size];
    address := ParseResponse(packet);
  }
}
