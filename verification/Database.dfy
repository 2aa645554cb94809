/** The link-state database that `graph_init` (src/dijkstra.c) builds from the printed announcements:
    what its loop over `fscanf("%s")` tokens computes, and when that is the newest announcement of each node. */
module Database {
  import opened Text
  import opened Walks
  import opened Generator

  /** Position of the entry for `name`, or the length of the list. */
  function Find(db: seq<Lsa>, name: Name): (k: nat)
    ensures k <= |db|
    ensures k < |db| ==> db[k].sender == name
    ensures forall i | 0 <= i < k :: db[i].sender != name
  {
    if db == [] || db[0].sender == name then 0 else 1 + Find(db[1..], name)
  }

  /** An entry exists and carries a larger sequence number. */
  predicate Stale(db: seq<Lsa>, name: Name, seqnum: int) {
    var k := Find(db, name);
    k < |db| && seqnum < db[k].seqnum
  }

  /** Overwrite the sender's entry in place, or put a new one in front. */
  function Store(db: seq<Lsa>, l: Lsa): seq<Lsa> {
    var k := Find(db, l.sender);
    if k < |db| then db[k := l] else [l] + db
  }

  /** The token that `fscanf` leaves in the zeroed line buffer; empty at end of file. */
  function TokenAt(tokens: seq<string>, k: nat): string {
    if k < |tokens| then tokens[k] else ""
  }

  function After(tokens: seq<string>, k: nat): seq<string> {
    if k <= |tokens| then tokens[k..] else []
  }

  /** The loop of `graph_init` on any token stream. A stale record is skipped without its third token. */
  function Load(db: seq<Lsa>, tokens: seq<string>): seq<Lsa>
    decreases |tokens|
  {
    if tokens == [] then db
    else
      var seqnum := Atoi(TokenAt(tokens, 1));
      if Stale(db, tokens[0], seqnum) then Load(db, After(tokens, 2))
      else Load(Store(db, Lsa(tokens[0], seqnum, Fields(TokenAt(tokens, 2), {','}))), After(tokens, 3))
  }

  /** The positions in the stream (counted from `at`) at which the loop reads a sender. */
  function SenderReads(db: seq<Lsa>, tokens: seq<string>, at: nat): seq<nat>
    decreases |tokens|
  {
    if tokens == [] then []
    else
      var seqnum := Atoi(TokenAt(tokens, 1));
      [at] + if Stale(db, tokens[0], seqnum) then SenderReads(db, After(tokens, 2), at + 2)
             else SenderReads(Store(db, Lsa(tokens[0], seqnum, Fields(TokenAt(tokens, 2), {','}))), After(tokens, 3), at + 3)
  }

  // ----- what the database should be

  /** The last announcement made by `name`. */
  ghost function LastOf(lsas: seq<Lsa>, name: Name): Lsa
    requires HasSender(lsas, name)
  {
    var l := lsas[|lsas| - 1];
    if l.sender == name then l else LastOf(lsas[..|lsas| - 1], name)
  }

  /** The senders, in order of first appearance. */
  ghost function FirstSeen(lsas: seq<Lsa>): seq<Name> {
    if lsas == [] then []
    else
      var before, name := FirstSeen(lsas[..|lsas| - 1]), lsas[|lsas| - 1].sender;
      if name in before then before else before + [name]
  }

  ghost predicate HasSender(lsas: seq<Lsa>, name: Name) {
    exists l :: l in lsas && l.sender == name
  }

  ghost predicate DistinctSenders(db: seq<Lsa>) {
    forall i, j | 0 <= i < j < |db| :: db[i].sender != db[j].sender
  }

  /** `db` holds the last announcement of every sender, latest newcomer first. */
  ghost predicate IsNewest(lsas: seq<Lsa>, db: seq<Lsa>) {
    && |db| == |FirstSeen(lsas)|
    && DistinctSenders(db)
    && (forall name :: HasSender(db, name) <==> HasSender(lsas, name))
    && forall i | 0 <= i < |db| ::
      && db[i].sender == FirstSeen(lsas)[|db| - 1 - i]
      && HasSender(lsas, db[i].sender) && db[i] == LastOf(lsas, db[i].sender)
  }

  /** No node ever announces a smaller sequence number than it did before. */
  ghost predicate PerSenderOrdered(lsas: seq<Lsa>) {
    forall i, j | 0 <= i < j < |lsas| && lsas[i].sender == lsas[j].sender :: lsas[i].seqnum <= lsas[j].seqnum
  }

  /** An announcement that survives printing: words where words are expected, and somebody to name. */
  ghost predicate Printable(l: Lsa) {
    && IsWord(l.sender, WHITESPACE)
    && l.seqnum >= 0
    && l.neighbors != []
    && forall n | n in l.neighbors :: IsWord(n, WHITESPACE + {','})
  }

  /** The three tokens of a printed announcement. */
  ghost function Triple(l: Lsa): seq<string>
    requires l.seqnum >= 0
  {
    [l.sender, Itoa(l.seqnum), Join(l.neighbors, ',')]
  }

  ghost function Stream(lsas: seq<Lsa>): seq<string>
    requires Numbered(lsas)
  {
    if lsas == [] then [] else Triple(lsas[0]) + Stream(lsas[1..])
  }

  ghost function StoreAll(db: seq<Lsa>, lsas: seq<Lsa>): seq<Lsa>
    decreases |lsas|
  {
    if lsas == [] then db else StoreAll(Store(db, lsas[0]), lsas[1..])
  }

  /** No record is stale at the moment it is read. */
  ghost predicate NeverStale(db: seq<Lsa>, lsas: seq<Lsa>)
    decreases |lsas|
  {
    lsas != [] ==>
      !Stale(db, lsas[0].sender, lsas[0].seqnum) && NeverStale(Store(db, lsas[0]), lsas[1..])
  }

  // ----- lemmas: from text to tokens

  lemma WordsAvoidSpace(w: string)
    requires IsWord(w, WHITESPACE + {','})
    ensures IsWord(w, WHITESPACE) && IsWord(w, {','})
  {
  }

  lemma TripleWords(l: Lsa)
    requires Printable(l)
    ensures IsWord(Itoa(l.seqnum), WHITESPACE)
    ensures IsWord(Join(l.neighbors, ','), WHITESPACE)
    ensures Atoi(Itoa(l.seqnum)) == l.seqnum
    ensures Fields(Join(l.neighbors, ','), {','}) == l.neighbors
  {
    forall n | n in l.neighbors
      ensures IsWord(n, WHITESPACE) && IsWord(n, {','})
    {
      WordsAvoidSpace(n);
    }
    JoinIsWord(l.neighbors, ',', WHITESPACE);
    FieldsJoin(l.neighbors, ',');
    AtoiItoa(l.seqnum, "");
    assert Itoa(l.seqnum) + "" == Itoa(l.seqnum);
  }

  lemma ThreeTokens(a: string, b: string, c: string, rest: string)
    requires IsWord(a, WHITESPACE) && IsWord(b, WHITESPACE) && IsWord(c, WHITESPACE)
    ensures Fields(a + " " + b + " " + c + "\n" + rest, WHITESPACE) == [a, b, c] + Fields(rest, WHITESPACE)
  {
    var tail2 := c + ['\n'] + rest;
    var tail1 := b + [' '] + tail2;
    assert a + " " + b + " " + c + "\n" + rest == a + [' '] + tail1;
    FieldsWord(a, ' ', tail1, WHITESPACE);
    FieldsWord(b, ' ', tail2, WHITESPACE);
    FieldsWord(c, '\n', rest, WHITESPACE);
  }

  /** One printed line is read as three tokens. */
  lemma LineTokens(l: Lsa, rest: string)
    requires Printable(l)
    ensures Fields(Line(l) + rest, WHITESPACE) == Triple(l) + Fields(rest, WHITESPACE)
  {
    TripleWords(l);
    ThreeTokens(l.sender, Itoa(l.seqnum), Join(l.neighbors, ','), rest);
  }

  /** Reading back what the generator printed gives the announcements, three tokens each. */
  lemma {:induction false} PrintTokens(lsas: seq<Lsa>)
    requires forall l | l in lsas :: Printable(l)
    ensures Numbered(lsas) && Fields(Print(lsas), WHITESPACE) == Stream(lsas)
  {
    if lsas != [] {
      assert lsas[0] in lsas;
      PrintTokens(lsas[1..]);
      LineTokens(lsas[0], Print(lsas[1..]));
    }
  }

  // ----- lemmas: from tokens to the database

  /** The loop reads a sender only where a record starts. */
  ghost predicate OnBoundaries(db: seq<Lsa>, tokens: seq<string>, at: nat) {
    forall p | p in SenderReads(db, tokens, at) :: p % 3 == 0
  }

  lemma TripleAt(l: Lsa, rest: seq<string>)
    requires Printable(l)
    ensures var tokens := Triple(l) + rest;
      && tokens != [] && tokens[0] == l.sender && Atoi(TokenAt(tokens, 1)) == l.seqnum
      && Lsa(tokens[0], l.seqnum, Fields(TokenAt(tokens, 2), {','})) == l
      && After(tokens, 3) == rest
      && After(tokens, 2) == [Join(l.neighbors, ',')] + rest
  {
    TripleWords(l);
  }

  /** One record that is not stale is consumed whole. */
  lemma LoadTriple(db: seq<Lsa>, l: Lsa, rest: seq<string>)
    requires Printable(l) && !Stale(db, l.sender, l.seqnum)
    ensures Load(db, Triple(l) + rest) == Load(Store(db, l), rest)
  {
    TripleAt(l, rest);
  }

  /** Where the loop reads senders when a printed record comes first. */
  lemma ReadsTriple(db: seq<Lsa>, l: Lsa, rest: seq<string>, at: nat)
    requires Printable(l)
    ensures SenderReads(db, Triple(l) + rest, at)
            == [at] + if Stale(db, l.sender, l.seqnum) then SenderReads(db, [Join(l.neighbors, ',')] + rest, at + 2)
                      else SenderReads(Store(db, l), rest, at + 3)
  {
    TripleAt(l, rest);
    hide Stale, Store, Join, Triple, Atoi, Fields, Printable, TokenAt, After;
  }

  lemma BoundariesTriple(db: seq<Lsa>, l: Lsa, rest: seq<string>, at: nat)
    requires Printable(l) && at % 3 == 0
    ensures OnBoundaries(db, Triple(l) + rest, at)
            <==> !Stale(db, l.sender, l.seqnum) && OnBoundaries(Store(db, l), rest, at + 3)
  {
    hide OnBoundaries, SenderReads, Stale, Store, Triple, Join;
    ReadsTriple(db, l, rest, at);
    if Stale(db, l.sender, l.seqnum) {
      OffBoundary(db, Triple(l) + rest, [Join(l.neighbors, ',')] + rest, at);
    } else {
      OnBoundary(db, Triple(l) + rest, Store(db, l), rest, at);
    }
  }

  lemma FirstRead(db: seq<Lsa>, tokens: seq<string>, at: nat)
    requires tokens != []
    ensures SenderReads(db, tokens, at) != [] && SenderReads(db, tokens, at)[0] == at
  {
  }

  lemma OffBoundary(db: seq<Lsa>, tokens: seq<string>, next: seq<string>, at: nat)
    requires next != [] && at % 3 == 0 && SenderReads(db, tokens, at) == [at] + SenderReads(db, next, at + 2)
    ensures !OnBoundaries(db, tokens, at)
  {
    hide SenderReads;
    FirstRead(db, next, at + 2);
    assert SenderReads(db, tokens, at)[1] == at + 2 && at + 2 in SenderReads(db, tokens, at);
  }

  lemma OnBoundary(db: seq<Lsa>, tokens: seq<string>, db': seq<Lsa>, next: seq<string>, at: nat)
    requires at % 3 == 0 && SenderReads(db, tokens, at) == [at] + SenderReads(db', next, at + 3)
    ensures OnBoundaries(db, tokens, at) <==> OnBoundaries(db', next, at + 3)
  {
    hide SenderReads;
    var positions := SenderReads(db', next, at + 3);
    assert forall p :: p in [at] + positions <==> p == at || p in positions;
  }

  /** The framing: boundaries are kept exactly when no record is stale. */
  lemma {:induction false} FramingKept(db: seq<Lsa>, lsas: seq<Lsa>, at: nat)
    requires (forall l | l in lsas :: Printable(l)) && Numbered(lsas) && at % 3 == 0
    ensures OnBoundaries(db, Stream(lsas), at) <==> NeverStale(db, lsas)
    decreases |lsas|
  {
    if lsas != [] {
      assert lsas[0] in lsas;
      BoundariesTriple(db, lsas[0], Stream(lsas[1..]), at);
      FramingKept(Store(db, lsas[0]), lsas[1..], at + 3);
    }
  }

  lemma {:induction false} LoadStream(db: seq<Lsa>, lsas: seq<Lsa>)
    requires (forall l | l in lsas :: Printable(l)) && Numbered(lsas) && NeverStale(db, lsas)
    ensures Load(db, Stream(lsas)) == StoreAll(db, lsas)
    decreases |lsas|
  {
    if lsas != [] {
      assert lsas[0] in lsas;
      LoadTriple(db, lsas[0], Stream(lsas[1..]));
      LoadStream(Store(db, lsas[0]), lsas[1..]);
    }
  }

  lemma HasSenderSnoc(lsas: seq<Lsa>, l: Lsa, name: Name)
    ensures HasSender(lsas + [l], name) <==> HasSender(lsas, name) || l.sender == name
  {
    assert forall x :: x in lsas + [l] <==> x in lsas || x == l;
  }

  lemma FindHas(db: seq<Lsa>, name: Name)
    ensures Find(db, name) < |db| <==> HasSender(db, name)
  {
    if Find(db, name) < |db| {
      assert db[Find(db, name)] in db;
    }
  }

  lemma {:induction false} FirstSeenHas(lsas: seq<Lsa>, name: Name)
    ensures name in FirstSeen(lsas) <==> HasSender(lsas, name)
  {
    if lsas != [] {
      var init, l := lsas[..|lsas| - 1], lsas[|lsas| - 1];
      assert lsas == init + [l];
      HasSenderSnoc(init, l, name);
      FirstSeenHas(init, name);
      FirstSeenHas(init, l.sender);
    }
  }

  lemma LastOfSnoc(lsas: seq<Lsa>, l: Lsa, name: Name)
    requires HasSender(lsas + [l], name)
    ensures l.sender != name ==> HasSender(lsas, name)
    ensures LastOf(lsas + [l], name) == if l.sender == name then l else LastOf(lsas, name)
  {
    HasSenderSnoc(lsas, l, name);
    assert (lsas + [l])[..|lsas|] == lsas;
  }

  /** One more announcement, in order of first appearance. */
  lemma FirstSeenSnoc(lsas: seq<Lsa>, l: Lsa)
    ensures FirstSeen(lsas + [l]) == if HasSender(lsas, l.sender) then FirstSeen(lsas) else FirstSeen(lsas) + [l.sender]
  {
    FirstSeenHas(lsas, l.sender);
    assert (lsas + [l])[..|lsas|] == lsas;
  }

  /** The senders of `db` are `names`, from back to front. */
  ghost predicate Backwards(db: seq<Lsa>, names: seq<Name>) {
    |db| == |names| && forall i | 0 <= i < |db| :: db[i].sender == names[|db| - 1 - i]
  }

  lemma BackwardsUpdate(db: seq<Lsa>, k: nat, l: Lsa, names: seq<Name>)
    requires Backwards(db, names) && k < |db| && db[k].sender == l.sender
    ensures Backwards(db[k := l], names)
  {
  }

  lemma BackwardsCons(db: seq<Lsa>, l: Lsa, names: seq<Name>)
    requires Backwards(db, names)
    ensures Backwards([l] + db, names + [l.sender])
  {
    forall i | 0 <= i < |db| + 1
      ensures ([l] + db)[i].sender == (names + [l.sender])[|db| - i]
    {
      if i > 0 {
        assert ([l] + db)[i] == db[i - 1];
      }
    }
  }

  lemma BackwardsStore(db: seq<Lsa>, l: Lsa, names: seq<Name>)
    requires Backwards(db, names)
    ensures Backwards(Store(db, l), if Find(db, l.sender) < |db| then names else names + [l.sender])
  {
    hide Find, Backwards;
    FindHas(db, l.sender);
    if Find(db, l.sender) < |db| {
      BackwardsUpdate(db, Find(db, l.sender), l, names);
    } else {
      BackwardsCons(db, l, names);
    }
  }

  /** Storing one more announcement keeps the database newest. */
  lemma NewestStore(lsas: seq<Lsa>, db: seq<Lsa>, l: Lsa)
    requires IsNewest(lsas, db)
    ensures IsNewest(lsas + [l], Store(db, l))
  {
    hide FirstSeen, LastOf, Store, HasSender, Find;
    var all, db' := lsas + [l], Store(db, l);
    FindHas(db, l.sender);
    FirstSeenSnoc(lsas, l);
    BackwardsStore(db, l, FirstSeen(lsas));
    StoreDistinct(db, l);
    forall name
      ensures HasSender(db', name) <==> HasSender(all, name)
    {
      HasSenderSnoc(lsas, l, name);
      StoreHas(db, l, name);
    }
    forall i | 0 <= i < |db'|
      ensures HasSender(all, db'[i].sender) && db'[i] == LastOf(all, db'[i].sender)
    {
      HasAt(db', i);
      LastOfSnoc(lsas, l, db'[i].sender);
      StoredAt(db, l, i);
    }
  }

  lemma HasAt(db: seq<Lsa>, i: int)
    requires 0 <= i < |db|
    ensures HasSender(db, db[i].sender)
  {
    assert db[i] in db;
  }

  /** An entry after storing is the announcement stored, or an entry of another sender from before. */
  lemma StoredAt(db: seq<Lsa>, l: Lsa, i: int)
    requires DistinctSenders(db) && 0 <= i < |Store(db, l)|
    ensures Store(db, l)[i].sender == l.sender ==> Store(db, l)[i] == l
    ensures Store(db, l)[i].sender != l.sender ==> exists j :: 0 <= j < |db| && db[j] == Store(db, l)[i]
  {
    var k := Find(db, l.sender);
    if k == |db| && i > 0 {
      assert Store(db, l)[i] == db[i - 1];
    } else if k < |db| && i != k {
      assert Store(db, l)[i] == db[i];
    }
  }

  lemma StoreDistinct(db: seq<Lsa>, l: Lsa)
    requires DistinctSenders(db)
    ensures DistinctSenders(Store(db, l))
  {
  }

  lemma StoreHas(db: seq<Lsa>, l: Lsa, name: Name)
    ensures HasSender(Store(db, l), name) <==> HasSender(db, name) || l.sender == name
  {
    var db', k := Store(db, l), Find(db, l.sender);
    if k < |db| {
      assert db'[k] in db';
      forall x | x in db && x.sender == name
        ensures HasSender(db', name)
      {
        var i :| 0 <= i < |db| && db[i] == x;
        assert db'[i] in db';
      }
    } else {
      assert forall x :: x in db' <==> x == l || x in db;
    }
  }

  lemma {:induction false} StoreAllNewest(before: seq<Lsa>, db: seq<Lsa>, lsas: seq<Lsa>)
    requires IsNewest(before, db)
    ensures IsNewest(before + lsas, StoreAll(db, lsas))
    decreases |lsas|
  {
    hide IsNewest, Store;
    if lsas == [] {
      assert before + lsas == before;
    } else {
      NewestStore(before, db, lsas[0]);
      StoreAllNewest(before + [lsas[0]], Store(db, lsas[0]), lsas[1..]);
      assert before + [lsas[0]] + lsas[1..] == before + lsas;
    }
  }

  /** In an ordered list the last announcement of a node carries its largest number. */
  lemma {:induction false} LastOfLargest(lsas: seq<Lsa>, name: Name)
    requires PerSenderOrdered(lsas) && HasSender(lsas, name)
    ensures LastOf(lsas, name) in lsas && LastOf(lsas, name).sender == name
    ensures forall l | l in lsas && l.sender == name :: l.seqnum <= LastOf(lsas, name).seqnum
    decreases |lsas|
  {
    var init, last := lsas[..|lsas| - 1], lsas[|lsas| - 1];
    assert lsas == init + [last];
    HasSenderSnoc(init, last, name);
    if last.sender != name {
      assert PerSenderOrdered(init);
      LastOfLargest(init, name);
    }
  }

  lemma OrderedSnoc(lsas: seq<Lsa>, db: seq<Lsa>, l: Lsa)
    requires PerSenderOrdered(lsas) && IsNewest(lsas, db)
    ensures PerSenderOrdered(lsas + [l]) <==> !Stale(db, l.sender, l.seqnum)
  {
    var all, k := lsas + [l], Find(db, l.sender);
    FindHas(db, l.sender);
    if k < |db| {
      LastOfLargest(lsas, l.sender);
      var i :| 0 <= i < |lsas| && lsas[i] == db[k];
      assert all[i] == db[k] && all[|lsas|] == l;
    }
    if !Stale(db, l.sender, l.seqnum) {
      forall i, j | 0 <= i < j < |all| && all[i].sender == all[j].sender
        ensures all[i].seqnum <= all[j].seqnum
      {
        if j == |lsas| {
          assert all[i] in lsas;
        } else {
          assert all[i] == lsas[i] && all[j] == lsas[j];
        }
      }
    }
  }

  lemma {:induction false} NeverStaleOrdered(before: seq<Lsa>, db: seq<Lsa>, lsas: seq<Lsa>)
    requires PerSenderOrdered(before) && IsNewest(before, db)
    ensures NeverStale(db, lsas) <==> PerSenderOrdered(before + lsas)
    decreases |lsas|
  {
    if lsas == [] {
      assert before + lsas == before;
    } else {
      var l, rest := lsas[0], lsas[1..];
      OrderedSnoc(before, db, l);
      NewestStore(before, db, l);
      assert before + [l] + rest == before + lsas;
      if Stale(db, l.sender, l.seqnum) {
        if PerSenderOrdered(before + lsas) {
          OrderedPrefix(before + [l], rest);
        }
      } else {
        NeverStaleOrdered(before + [l], Store(db, l), rest);
      }
    }
  }

  lemma OrderedPrefix(a: seq<Lsa>, b: seq<Lsa>)
    requires PerSenderOrdered(a + b)
    ensures PerSenderOrdered(a)
  {
    forall i, j | 0 <= i < j < |a| && a[i].sender == a[j].sender
      ensures a[i].seqnum <= a[j].seqnum
    {
      assert (a + b)[i] == a[i] && (a + b)[j] == a[j];
    }
  }

  // ----- the main results about the database

  /** On printed announcements, `graph_init` stays on record boundaries exactly when every sender's numbers
      are non-decreasing; and then the database is the last announcement of each sender, distinct, in reverse
      order of first appearance. */
  lemma LoadIsNewestWins(lsas: seq<Lsa>)
    requires forall l | l in lsas :: Printable(l)
    ensures Numbered(lsas)
    ensures var tokens := Fields(Print(lsas), WHITESPACE);
      && (OnBoundaries([], tokens, 0) <==> PerSenderOrdered(lsas))
      && (PerSenderOrdered(lsas) ==> IsNewest(lsas, Load([], tokens)))
  {
    PrintTokens(lsas);
    FramingKept([], lsas, 0);
    assert [] + lsas == lsas;
    NeverStaleOrdered([], [], lsas);
    StoreAllNewest([], [], lsas);
    if PerSenderOrdered(lsas) {
      LoadStream([], lsas);
    }
  }

  const FRESH := Lsa("a", 1, ["b"])
  const STALE := Lsa("a", 0, ["b"])

  lemma StaleTokens()
    ensures Printable(FRESH) && Printable(STALE)
    ensures Fields(Print([FRESH, STALE]), WHITESPACE) == Triple(FRESH) + (Triple(STALE) + [])
  {
    hide Triple, Printable;
    BothPrintable();
    assert forall l | l in [FRESH, STALE] :: Printable(l);
    PrintTokens([FRESH, STALE]);
    assert [FRESH, STALE][1..] == [STALE] && [STALE][1..] == [];
    assert Stream([STALE]) == Triple(STALE) + Stream([]);
    assert Stream([FRESH, STALE]) == Triple(FRESH) + Stream([STALE]);
  }

  lemma BothPrintable()
    ensures Printable(FRESH) && Printable(STALE)
  {
  }

  /** What is left of the stale record is read as a sender. */
  lemma LeftoverToken()
    ensures Load([FRESH], ["b"]) == [Lsa("b", 0, []), FRESH]
  {
    var l := Lsa("b", 0, []);
    assert TokenAt(["b"], 1) == "" && TokenAt(["b"], 2) == "" && Atoi("") == 0 && Fields("", {','}) == [];
    assert Find([FRESH][1..], "b") == 0;
    assert !Stale([FRESH], "b", 0) && Store([FRESH], l) == [l, FRESH];
    assert Load(Store([FRESH], l), After(["b"], 3)) == Store([FRESH], l);
  }

  lemma StaleSkipped(rest: seq<string>)
    requires Printable(STALE)
    ensures Load([FRESH], Triple(STALE) + rest) == Load([FRESH], [Join(["b"], ',')] + rest)
  {
    TripleAt(STALE, rest);
    assert Stale([FRESH], "a", 0);
  }

  /** A stale record really derails the reader: its neighbour token becomes the next sender. */
  lemma StaleRecordDerails()
    ensures var lsas := [Lsa("a", 1, ["b"]), Lsa("a", 0, ["b"])];
      && Numbered(lsas)
      && Load([], Fields(Print(lsas), WHITESPACE)) == [Lsa("b", 0, []), Lsa("a", 1, ["b"])]
  {
    hide Load, Fields, Triple, Print, Printable;
    StaleTokens();
    assert !Stale([], "a", 1) && Store([], FRESH) == [FRESH];
    LoadTriple([], FRESH, Triple(STALE) + []);
    StaleSkipped([]);
    assert [Join(["b"], ',')] + [] == ["b"];
    LeftoverToken();
  }
}
