/** The linked lists of src/bitrate.c: `tracker_head`, one tracker per client, each with its chain of chunks.
    The methods are `create_tracker`, `search_seg`, `update_bitrate` and `update_throughput`. */
module Tracker {
  import opened Text
  import opened Bitrate
  import opened Rewrite
  import opened Sessions

  /** `proxy_session_list_t`, of which only the client descriptor matters here. */
  class ProxySession {
    const clientFd: int

    constructor (clientFd: int)
      ensures this.clientFd == clientFd
    {
      this.clientFd := clientFd;
    }
  }

  lemma InFront<T>(longer: seq<T>, first: T, shorter: seq<T>)
    requires |longer| == |shorter| + 1 && longer[0] == first
    requires forall i | 0 < i < |longer| :: longer[i] == shorter[i - 1]
    ensures longer == [first] + shorter
  {
  }

  class Chunk {
    var file: string
    var next: Chunk?

    constructor (file: string, next: Chunk?)
      ensures this.file == file && this.next == next
    {
      this.file, this.next := file, next;
    }
  }

  /** The chunks follow each other, and the last one is the end. */
  ghost predicate IsChain(chunks: seq<Chunk>)
    reads chunks`next
  {
    && (forall i {:trigger chunks[i].next} | 0 <= i < |chunks| ::
          chunks[i].next == if i + 1 < |chunks| then chunks[i + 1] else null)
    && (forall i, j | 0 <= i < j < |chunks| :: chunks[i] != chunks[j])
  }

  ghost function Files(chunks: seq<Chunk>): (names: seq<string>)
    reads chunks`file
    ensures |names| == |chunks| && forall i | 0 <= i < |names| :: names[i] == chunks[i].file
  {
    if chunks == [] then [] else [chunks[0].file] + Files(chunks[1..])
  }

  lemma ChainInFront(chunk: Chunk, chunks: seq<Chunk>)
    requires IsChain(chunks) && chunk !in chunks && chunk.next == if chunks == [] then null else chunks[0]
    ensures IsChain([chunk] + chunks) && Files([chunk] + chunks) == [chunk.file] + Files(chunks)
  {
    var longer := [chunk] + chunks;
    forall i | 0 <= i < |longer|
      ensures longer[i].next == if i + 1 < |longer| then longer[i + 1] else null
    {
      if i > 0 {
        assert longer[i] == chunks[i - 1];
      }
    }
    InFront(Files(longer), chunk.file, Files(chunks));
  }

  lemma ChainNext(chunks: seq<Chunk>)
    requires IsChain(chunks)
    ensures forall i {:trigger chunks[i].next} | 0 <= i < |chunks| ::
              chunks[i].next == if i + 1 < |chunks| then chunks[i + 1] else null
  {
  }

  /** Unlinking everything behind a chunk. */
  method CutAfter(before: Chunk, ghost chunks: seq<Chunk>, ghost k: nat)
    requires IsChain(chunks) && 0 < k < |chunks| && before == chunks[k - 1]
    modifies before`next
    ensures IsChain(chunks[..k])
  {
    before.next := null;
    forall i | 0 <= i < k
      ensures chunks[..k][i].next == if i + 1 < k then chunks[..k][i + 1] else null
    {
      if i < k - 1 {
        assert chunks[i] != before && old(chunks[i].next) == chunks[i + 1];
      }
    }
  }

  lemma {:induction false} FilesPrefix(chunks: seq<Chunk>, k: nat)
    requires k <= |chunks|
    ensures Files(chunks[..k]) == Files(chunks)[..k]
  {
  }

  lemma FirstFile(chunk: Chunk, rest: seq<Chunk>)
    requires IsChain([chunk] + rest)
    ensures chunk !in rest && Files([chunk] + rest) == [chunk.file] + Files(rest)
  {
    var longer := [chunk] + rest;
    forall c | c in rest
      ensures c != chunk
    {
      var i :| 0 <= i < |rest| && rest[i] == c;
      assert longer[0] != longer[i + 1];
    }
    InFront(Files(longer), chunk.file, Files(rest));
  }

  class TrackerNode {
    const ps: ProxySession
    var throughput: real
    var bitrate: int
    var chunks: Chunk?
    var next: TrackerNode?
    ghost var linked: seq<Chunk>

    ghost predicate Valid()
      reads this, linked
    {
      chunks == (if linked == [] then null else linked[0]) && IsChain(linked)
    }

    ghost function Queue(): (q: seq<string>)
      reads this, linked
      ensures |q| == |linked| && forall i | 0 <= i < |q| :: q[i] == linked[i].file
    {
      Files(linked)
    }

    ghost function State(): Session
      reads this, linked
    {
      Session(Queue(), throughput, bitrate)
    }

    constructor (ps: ProxySession, next: TrackerNode?)
      ensures Valid() && State() == NEW_SESSION && linked == [] && this.ps == ps && this.next == next
    {
      this.ps, this.next := ps, next;
      throughput, bitrate := 100.0, 100;
      chunks, linked := null, [];
    }

    /** Neither this tracker nor its chunks have changed. */
    twostate predicate Same()
      reads this, linked
    {
      unchanged(this) && forall c | c in linked :: unchanged(c)
    }

    twostate lemma Untouched()
      requires old(Valid()) && Same()
      ensures Valid() && State() == old(State())
    {
      assert forall i | 0 <= i < |linked| :: linked[i] in linked;
      assert Queue() == old(Queue());
    }

    /** The end of `create_tracker`: a new chunk in front. */
    method Push(file: string)
      requires Valid()
      modifies this
      ensures Valid() && next == old(next)
      ensures linked != [] && fresh(linked[0]) && linked[1..] == old(linked)
      ensures State() == Session([file] + old(Queue()), old(throughput), old(bitrate))
    {
      hide IsChain, Files;
      var chunk := new Chunk(file, chunks);
      chunks := chunk;
      ChainInFront(chunk, linked);
      linked := [chunk] + linked;
    }

    /** `update_bitrate`: choose the rate, rewrite the request, and name the newest chunk after the new URI. */
    method UpdateBitrate(buffer: string) returns (text: string)
      requires Valid() && linked != [] && Rewritable(buffer)
      modifies this, linked[0]
      ensures Valid() && next == old(next) && linked == old(linked)
      ensures text == Rewritten(buffer, Rate(throughput))
      ensures State() == Session([Uri(text)] + old(Queue())[1..], old(throughput), Rate(old(throughput)))
    {
      hide Uri, Rewritten, Rewritable, Rate, IsChain, Files;
      ghost var first, rest := linked[0], linked[1..];
      assert linked == [first] + rest;
      FirstFile(first, rest);
      var rate := ChooseRate(throughput);
      bitrate := rate;
      text := RewriteRequest(buffer, rate);
      chunks.file := Uri(text);
      FirstFile(first, rest);
    }

    /** The end of `create_tracker`, and `update_bitrate`, as `handle_client_recv` calls them. */
    method AskChunk(file: string, buffer: string) returns (text: string)
      requires Valid() && Rewritable(buffer)
      modifies this
      ensures Valid() && next == old(next)
      ensures linked != [] && fresh(linked[0]) && linked[1..] == old(linked)
      ensures text == Rewritten(buffer, Rate(old(throughput))) && State() == Ask(old(State()), Uri(text))
    {
      hide Rewritten, Rewritable, Uri, Rate;
      ghost var queue := Queue();
      Push(file);
      text := UpdateBitrate(buffer);
      assert ([file] + queue)[1..] == queue;
    }

    /** `update_throughput` on the tracker found: `file` is what it logs. */
    method UpdateThroughput(alpha: real, sample: real) returns (file: string)
      requires Valid() && linked != []
      modifies this, linked
      ensures Valid() && next == old(next) && linked != [] && linked <= old(linked)
      ensures State() == Answer(old(State()), alpha, sample) && file == Oldest(old(State()))
    {
      hide IsChain, Files;
      ChainNext(linked);
      var tracker: Chunk := chunks;
      var before: Chunk? := null;
      ghost var k := 0;
      while tracker.next != null
        invariant 0 <= k < |linked| && tracker == linked[k]
        invariant before == if k == 0 then null else linked[k - 1]
        decreases |linked| - k
      {
        before := tracker;
        tracker := tracker.next;
        k := k + 1;
      }
      throughput := Average(alpha, throughput, sample);
      if before != null {
        CutAfter(before, linked, k);
        FilesPrefix(linked, k);
        linked := linked[..k];
      }
      file := tracker.file;
    }
  }

  /** The name recorded for a request: what stands between "GET " and the blank before "HTTP/1.1". */
  function Uri(request: string): string {
    var http := HttpAt(request, 0);
    if 5 <= http < |request| then request[4..http - 1] else ""
  }

  function HttpAt(s: string, from: nat): (k: nat)
    requires from <= |s|
    ensures from <= k <= |s|
    decreases |s| - from
  {
    if from == |s| || "HTTP/1.1" <= s[from..] then from else HttpAt(s, from + 1)
  }

  /** `strstr(file, "-Frag") != NULL`. */
  predicate IsFragment(file: string) {
    exists i | 0 <= i < |file| :: "-Frag" <= file[i..]
  }

  lemma {:induction false} HttpAtIs(s: string, from: nat, k: nat)
    requires from <= k <= |s| && (k < |s| ==> "HTTP/1.1" <= s[k..])
    requires forall i | from <= i < k :: !("HTTP/1.1" <= s[i..])
    ensures HttpAt(s, from) == k
    decreases k - from
  {
    if from < k {
      HttpAtIs(s, from + 1, k);
    }
  }

  lemma {:induction false} NoHttpBefore(s: string, from: nat, i: nat)
    requires from <= |s| && from <= i < HttpAt(s, from)
    ensures !("HTTP/1.1" <= s[i..])
    decreases i - from
  {
    if from < i {
      NoHttpBefore(s, from + 1, i);
    }
  }

  /** Where the version stands at i, its k-th character stands at i + k. */
  lemma VersionAt(s: string, i: nat, k: nat)
    requires i <= |s| && "HTTP/1.1" <= s[i..] && k < 8
    ensures i + k < |s| && s[i + k] == "HTTP/1.1"[k] && s[i + k] != ' '
  {
    assert s[i..][k] == "HTTP/1.1"[k];
  }

  /** An occurrence of the version in the request line lies in the URI or right behind it: it contains no blank. */
  lemma HttpInRequest(uri: string, rest: string, i: nat)
    requires i < 5 + |uri| && "HTTP/1.1" <= ("GET " + uri + " HTTP/1.1" + rest)[i..]
    ensures 4 <= i && i + 8 <= 4 + |uri| && "HTTP/1.1" <= uri[i - 4..]
  {
    var request := "GET " + uri + " HTTP/1.1" + rest;
    assert request[3] == ' ' && request[4 + |uri|] == ' ';
    if i <= 3 {
      VersionAt(request, i, 3 - i);
    }
    if i <= 4 + |uri| < i + 8 {
      VersionAt(request, i, 4 + |uri| - i);
    }
    assert uri[i - 4..] == request[i..4 + |uri|];
    assert request[i..4 + |uri|] == request[i..][..4 + |uri| - i];
  }

  /** A URI without the version is recorded. */
  lemma PlainUri(uri: string, rest: string)
    requires forall i | 0 <= i < |uri| :: !("HTTP/1.1" <= uri[i..])
    ensures Uri("GET " + uri + " HTTP/1.1" + rest) == uri
  {
    var request := "GET " + uri + " HTTP/1.1" + rest;
    var k := 5 + |uri|;
    assert request[k..] == "HTTP/1.1" + rest;
    forall i | 0 <= i < k
      ensures !("HTTP/1.1" <= request[i..])
    {
      if "HTTP/1.1" <= request[i..] {
        HttpInRequest(uri, rest, i);
      }
    }
    HttpAtIs(request, 0, k);
    assert request[4..4 + |uri|] == uri;
  }

  /** The version within a URI cuts it. */
  lemma VersionCuts(uri: string, rest: string, i: nat)
    requires i < |uri| && "HTTP/1.1" <= uri[i..]
    ensures |Uri("GET " + uri + " HTTP/1.1" + rest)| < |uri|
  {
    var request := "GET " + uri + " HTTP/1.1" + rest;
    assert request[i + 4..] == uri[i..] + " HTTP/1.1" + rest;
    if HttpAt(request, 0) > i + 4 {
      NoHttpBefore(request, 0, i + 4);
    }
  }

  /** The name recorded for a request is its URI, exactly when the URI does not contain the version. */
  lemma UriExactly(uri: string, rest: string)
    ensures Uri("GET " + uri + " HTTP/1.1" + rest) == uri <==> forall i | 0 <= i < |uri| :: !("HTTP/1.1" <= uri[i..])
  {
    hide Uri;
    if forall i | 0 <= i < |uri| :: !("HTTP/1.1" <= uri[i..]) {
      PlainUri(uri, rest);
    } else {
      var i :| 0 <= i < |uri| && "HTTP/1.1" <= uri[i..];
      VersionCuts(uri, rest, i);
    }
  }

  /** A chunk is whatever has "-Frag" in its name. */
  lemma FragmentExactly(file: string)
    ensures IsFragment(file) <==> exists front, rest :: file == front + "-Frag" + rest
  {
    if IsFragment(file) {
      var i :| 0 <= i < |file| && "-Frag" <= file[i..];
      assert file == file[..i] + "-Frag" + file[i + 5..];
    }
    if front, rest :| file == front + "-Frag" + rest {
      assert file[|front|..] == "-Frag" + rest;
    }
  }

  /** The global `tracker_head`. */
  class Trackers {
    var head: TrackerNode?
    ghost var nodes: seq<TrackerNode>
    ghost var repr: set<object>

    ghost predicate Valid()
      reads this, repr
    {
      && this in repr
      && (forall t | t in nodes :: t in repr && (forall c | c in t.linked :: c in repr) && t.Valid() && t.linked != [])
      && head == (if nodes == [] then null else nodes[0])
      && (forall i {:trigger nodes[i].next} | 0 <= i < |nodes| ::
            nodes[i].next == if i + 1 < |nodes| then nodes[i + 1] else null)
      && (forall i, j | 0 <= i < j < |nodes| :: nodes[i] != nodes[j])
      && forall s, t, c | s in nodes && t in nodes && s != t && c in s.linked :: c !in t.linked
    }

    /** The table that the list represents. */
    ghost function Table(): (table: seq<Entry>)
      requires Valid()
      reads this, repr
      ensures |table| == |nodes|
      ensures forall i | 0 <= i < |table| :: table[i] == Entry(nodes[i].ps.clientFd, nodes[i].State())
    {
      seq(|nodes|, i requires Valid() && 0 <= i < |nodes| reads this, repr =>
        (assert nodes[i] in nodes; Entry(nodes[i].ps.clientFd, nodes[i].State())))
    }

    constructor ()
      ensures Valid() && nodes == [] && fresh(repr)
    {
      head, nodes := null, [];
      repr := {this};
    }

    /** `search_seg`. */
    method SearchSeg(session: ProxySession) returns (t: TrackerNode?)
      requires Valid()
      ensures var k := FindFd(Table(), session.clientFd);
        t == if k < |nodes| then nodes[k] else null
    {
      ghost var k, table := 0, Table();
      t := head;
      while t != null && t.ps.clientFd != session.clientFd
        invariant k <= |nodes| && t == if k < |nodes| then nodes[k] else null
        invariant forall i | 0 <= i < k :: table[i].fd != session.clientFd
        decreases |nodes| - k
      {
        t := t.next;
        k := k + 1;
      }
      FindFdIs(table, session.clientFd, k);
    }

    /** A change confined to tracker `k`, its chunks and new objects. */
    twostate lemma OnlyOneChanged(k: nat)
      requires old(Valid()) && k < |nodes|
      requires nodes == old(nodes) && head == old(head) && old(repr) <= repr
      requires forall s | s in nodes && s != nodes[k] :: s.Same()
      requires nodes[k].Valid() && nodes[k].linked != [] && nodes[k].next == old(nodes[k].next)
      requires forall c | c in nodes[k].linked :: c in old(nodes[k].linked) || (c in repr && fresh(c))
      ensures Valid() && Table() == old(Table())[k := Entry(nodes[k].ps.clientFd, nodes[k].State())]
    {
      hide IsChain, Files;
      var t := nodes[k];
      forall i | 0 <= i < |nodes|
        ensures nodes[i].next == if i + 1 < |nodes| then nodes[i + 1] else null
      {
        assert nodes[i] in nodes;
      }
      forall s | s in nodes && s != t
        ensures s.Valid() && s.State() == old(s.State())
      {
        s.Untouched();
      }
      assert forall i | 0 <= i < |nodes| && i != k :: nodes[i] in nodes && nodes[i] != t;
    }

    /** A new tracker with a new chunk stands in front. */
    twostate predicate NewInFront(new t: TrackerNode)
      reads this, t, t.linked
    {
      && fresh(t) && nodes == [t] + old(nodes) && head == t && t.next == old(head)
      && t.Valid() && |t.linked| == 1 && fresh(t.linked[0])
      && repr == old(repr) + {t, t.linked[0]}
    }

    /** Nothing happens to the others. */
    twostate lemma OthersUntouched()
      requires old(Valid()) && forall s | s in old(nodes) :: s.Same()
      ensures forall s | s in old(nodes) :: s.Valid() && s.State() == old(s.State())
      ensures forall s | s in old(nodes) :: s.linked == old(s.linked) && s.next == old(s.next)
    {
      forall s | s in old(nodes)
        ensures s.Valid() && s.State() == old(s.State())
      {
        s.Untouched();
      }
    }

    /** The links of the longer list. */
    twostate lemma LinkedInFront(new t: TrackerNode)
      requires old(Valid()) && NewInFront(t) && forall s | s in old(nodes) :: s.Same()
      ensures forall i {:trigger nodes[i].next} | 0 <= i < |nodes| ::
                nodes[i].next == if i + 1 < |nodes| then nodes[i + 1] else null
      ensures forall i, j | 0 <= i < j < |nodes| :: nodes[i] != nodes[j]
    {
      assert forall i | 0 < i < |nodes| :: nodes[i] == old(nodes)[i - 1];
      forall i | 0 <= i < |nodes|
        ensures nodes[i].next == if i + 1 < |nodes| then nodes[i + 1] else null
      {
        if i > 0 {
          assert old(nodes)[i - 1] in old(nodes);
        }
      }
    }

    /** The new chunk is shared with nobody. */
    twostate lemma DisjointInFront(new t: TrackerNode)
      requires old(Valid()) && NewInFront(t) && forall s | s in old(nodes) :: s.Same()
      ensures forall s, u, c | s in nodes && u in nodes && s != u && c in s.linked :: c !in u.linked
    {
      assert forall s :: s in nodes <==> s == t || s in old(nodes);
      assert forall s | s in old(nodes) :: s.linked == old(s.linked);
    }

    /** The longer list is valid. */
    twostate lemma ValidInFront(new t: TrackerNode)
      requires old(Valid()) && NewInFront(t) && forall s | s in old(nodes) :: s.Same()
      ensures Valid()
    {
      OthersUntouched();
      LinkedInFront(t);
      DisjointInFront(t);
      assert forall s :: s in nodes <==> s == t || s in old(nodes);
    }

    /** It represents the longer table. */
    twostate lemma OneInFront(new t: TrackerNode)
      requires old(Valid()) && NewInFront(t) && forall s | s in old(nodes) :: s.Same()
      ensures Valid() && Table() == [Entry(t.ps.clientFd, t.State())] + old(Table())
    {
      ValidInFront(t);
      OthersUntouched();
      hide TrackerNode.Same, TrackerNode.State, TrackerNode.Queue, NewInFront, TrackerNode.Valid;
      forall i | 0 < i < |nodes|
        ensures Table()[i] == old(Table())[i - 1]
      {
        var s := old(nodes)[i - 1];
        assert s in old(nodes) && nodes[i] == s;
      }
      InFront(Table(), Entry(t.ps.clientFd, t.State()), old(Table()));
    }

    /** A response for the tracker at position `k`. */
    method AnswerAt(t: TrackerNode, ghost k: nat, alpha: real, sample: real) returns (file: string)
      requires Valid() && k < |nodes| && t == nodes[k]
      modifies repr
      ensures Valid() && fresh(repr - old(repr)) && nodes == old(nodes)
      ensures Table() == old(Table())[k := Entry(t.ps.clientFd, Answer(old(t.State()), alpha, sample))]
      ensures old(t.Queue()) != [] && file == Oldest(old(t.State()))
    {
      assert t in nodes;
      file := t.UpdateThroughput(alpha, sample);
      OnlyOneChanged(k);
    }

    /** The tracker part of `update_throughput`; a client without a tracker is a NULL dereference in C. */
    method OnAnswer(session: ProxySession, alpha: real, sample: real) returns (file: string)
      requires Valid() && FindFd(Table(), session.clientFd) < |Table()|
      modifies repr
      ensures Valid() && fresh(repr - old(repr)) && nodes == old(nodes)
      ensures Table() == OnResponse(old(Table()), session.clientFd, alpha, sample)
      ensures var table := old(Table());
        var s := table[FindFd(table, session.clientFd)].session;
        s.queue != [] && file == Oldest(s)
    {
      var t := SearchSeg(session);
      file := AnswerAt(t, FindFd(Table(), session.clientFd), alpha, sample);
    }

    /** A known client asks for a chunk. */
    method AskAgain(t: TrackerNode, ghost k: nat, file: string, buffer: string) returns (text: string)
      requires Valid() && k < |nodes| && t == nodes[k] && Rewritable(buffer)
      modifies repr
      ensures Valid() && fresh(repr - old(repr)) && nodes == old(nodes)
      ensures text == Rewritten(buffer, Rate(old(t.throughput)))
      ensures Table() == old(Table())[k := Entry(t.ps.clientFd, Ask(old(t.State()), Uri(text)))]
    {
      hide Rewritten, Rewritable, Uri, Rate, Ask, IsChain, Files, TrackerNode.State, TrackerNode.Queue, TrackerNode.Valid;
      assert t in nodes;
      ghost var state := t.State();
      text := t.AskChunk(file, buffer);
      ghost var chunk: Chunk := t.linked[0];
      repr := repr + {chunk};
      assert fresh(chunk) && t.State() == Ask(state, Uri(text));
      assert t.linked == [chunk] + old(t.linked);
      OnlyOneChanged(k);
    }

    /** A new client asks for a chunk: its tracker goes to the front. */
    method AskFirst(session: ProxySession, file: string, buffer: string) returns (text: string)
      requires Valid() && Rewritable(buffer)
      modifies this
      ensures Valid() && fresh(repr - old(repr))
      ensures text == Rewritten(buffer, Rate(100.0))
      ensures Table() == [Entry(session.clientFd, Ask(NEW_SESSION, Uri(text)))] + old(Table())
    {
      hide Rewritten, Rewritable, Uri, Ask, IsChain, Files, TrackerNode.Queue, TrackerNode.Valid;
      var t := new TrackerNode(session, head);
      head := t;
      text := t.AskChunk(file, buffer);
      ghost var chunk: Chunk := t.linked[0];
      nodes := [t] + nodes;
      repr := repr + {t, chunk};
      assert fresh(chunk) && fresh(t);
      OneInFront(t);
    }

    /** `create_tracker` followed by `update_bitrate`, as `handle_client_recv` calls them. `file` is the URI as
        requested; a request for anything but a chunk is forwarded as it is. */
    method OnAsk(session: ProxySession, file: string, buffer: string) returns (text: string)
      requires Valid() && (IsFragment(file) ==> Rewritable(buffer))
      modifies repr
      ensures Valid() && fresh(repr - old(repr))
      ensures !IsFragment(file) ==> text == buffer && Table() == old(Table())
      ensures IsFragment(file) ==>
                && text == Rewritten(buffer, NextRate(old(Table()), session.clientFd))
                && Rewritable(text) && RateIn(text) == NextRate(old(Table()), session.clientFd)
                && Table() == OnRequest(old(Table()), session.clientFd, Uri(text))
    {
      if !IsFragment(file) {
        return buffer;
      }
      RateReadsBack(buffer, NextRate(Table(), session.clientFd));
      var t := SearchSeg(session);
      if t == null {
        text := AskFirst(session, file, buffer);
      } else {
        text := AskAgain(t, FindFd(Table(), session.clientFd), file, buffer);
      }
    }

    /** One more message, after those of `before`. */
    method Handle(alpha: real, ghost before: seq<Message>, m: Message) returns (log: seq<LogLine>, text: string)
      requires Valid() && Playable(alpha, before) && Playable(alpha, before + [m])
      requires Table() == RunAll(alpha, EventsOf(alpha, before))
      modifies repr
      ensures Valid() && fresh(repr - old(repr)) && Table() == RunAll(alpha, EventsOf(alpha, before + [m]))
      ensures LogAll(alpha, EventsOf(alpha, before + [m])) == LogAll(alpha, EventsOf(alpha, before)) + log
      ensures SentFor(alpha, before, m, text)
    {
      hide IsFragment, Rewritable, Rewritten, Uri, OnRequest, OnResponse, NextRate, Oldest, EventsOf, RunAll, LogAll, Playable,
        SentFor, RateIn;
      log, text := [], "";
      if m.Requested? {
        OneMoreRequest(alpha, before, m);
        text := OnAsk(m.session, m.file, m.buffer);
      } else {
        OneMoreResponse(alpha, before, m);
        var file := OnAnswer(m.session, alpha, m.sample);
        log := [LogLine(m.session.clientFd, file)];
      }
      SentIs(alpha, before, m, text);
    }

    /** A whole run of messages over all clients, from no tracker: the linked lists end as the run of values does,
        every response logs what it should, and every chunk is requested at the rate for the average of the samples
        that the responses for its own client have given so far. */
    method HandleAll(alpha: real, messages: seq<Message>) returns (log: seq<LogLine>, sent: seq<string>)
      requires Valid() && Table() == [] && Playable(alpha, messages)
      modifies repr
      ensures Valid() && fresh(repr - old(repr))
      ensures Table() == RunAll(alpha, EventsOf(alpha, messages)) && log == LogAll(alpha, EventsOf(alpha, messages))
      ensures |sent| == |messages| && forall i | 0 <= i < |sent| :: SentFor(alpha, messages[..i], messages[i], sent[i])
    {
      hide *;
      NoMessages(alpha);
      log, sent := [], [];
      for i := 0 to |messages|
        invariant Valid() && fresh(repr - old(repr)) && Playable(alpha, messages[..i])
        invariant Table() == RunAll(alpha, EventsOf(alpha, messages[..i]))
        invariant log == LogAll(alpha, EventsOf(alpha, messages[..i]))
        invariant |sent| == i && forall j | 0 <= j < i :: SentFor(alpha, messages[..j], messages[j], sent[j])
      {
        assert messages[..i + 1] == messages[..i] + [messages[i]];
        PlayablePrefix(alpha, messages, i + 1);
        var lines, text := Handle(alpha, messages[..i], messages[i]);
        log, sent := log + lines, sent + [text];
      }
      assert messages[..|messages|] == messages;
    }
  }

  /** What reaches the proxy: a request of a client, or a video chunk for one. */
  datatype Message = Requested(session: ProxySession, file: string, buffer: string)
                   | Responded(session: ProxySession, sample: real)

  /** The steps that the messages amount to; the name of a chunk depends on the rate chosen so far. */
  function EventsOf(alpha: real, messages: seq<Message>): seq<Event> {
    if messages == [] then []
    else
      var events := EventsOf(alpha, messages[..|messages| - 1]);
      match messages[|messages| - 1]
      case Requested(session, file, buffer) =>
        if IsFragment(file) && Rewritable(buffer) then
          events + [Event(session.clientFd, Asked(Uri(Rewritten(buffer, NextRate(RunAll(alpha, events), session.clientFd)))))]
        else events
      case Responded(session, sample) => events + [Event(session.clientFd, Answered(sample))]
  }

  /** No message makes the C code leave its buffer or follow NULL. */
  ghost predicate Playable(alpha: real, messages: seq<Message>) {
    messages != [] ==>
      var init, m := messages[..|messages| - 1], messages[|messages| - 1];
      var table := RunAll(alpha, EventsOf(alpha, init));
      && Playable(alpha, init)
      && (m.Requested? && IsFragment(m.file) ==> Rewritable(m.buffer))
      && (m.Responded? ==> FindFd(table, m.session.clientFd) < |table|)
  }

  /** The samples measured for one client. */
  function SamplesFor(messages: seq<Message>, fd: int): seq<real> {
    if messages == [] then []
    else
      var m := messages[|messages| - 1];
      SamplesFor(messages[..|messages| - 1], fd) + if m.Responded? && m.session.clientFd == fd then [m.sample] else []
  }

  /** What is sent to the server for one more message: a chunk is asked for at the rate for the client's own samples,
      anything else as the client asked. */
  ghost predicate SentFor(alpha: real, before: seq<Message>, m: Message, text: string) {
    m.Requested? ==>
      if IsFragment(m.file) then
        Rewritable(text) && RateIn(text) == Rate(After(alpha, 100.0, SamplesFor(before, m.session.clientFd)))
      else text == m.buffer
  }

  /** The steps of a client carry the samples measured for it. */
  lemma {:induction false} OwnSamples(alpha: real, messages: seq<Message>, fd: int)
    requires Playable(alpha, messages)
    ensures Samples(StepsOf(EventsOf(alpha, messages), fd)) == SamplesFor(messages, fd)
    decreases |messages|
  {
    hide IsFragment, Rewritable, Rewritten, Uri, NextRate, RunAll, Samples, StepsOf;
    NoSamples(fd);
    if messages != [] {
      var init, m := messages[..|messages| - 1], messages[|messages| - 1];
      var events := EventsOf(alpha, init);
      OwnSamples(alpha, init, fd);
      SessionsIndependent(alpha, events, m.session.clientFd);
      if EventsOf(alpha, messages) != events {
        var e := EventsOf(alpha, messages)[|events|];
        assert EventsOf(alpha, messages) == events + [e];
        OneMoreStep(events, e, fd);
      }
    }
  }

  lemma NoSamples(fd: int)
    ensures Samples(StepsOf([], fd)) == []
  {
  }

  lemma OneMoreStep(events: seq<Event>, e: Event, fd: int)
    requires e.step.Answered? ==> StepsOf(events, e.fd) != []
    ensures Samples(StepsOf(events + [e], fd))
            == Samples(StepsOf(events, fd)) + if e.step.Answered? && e.fd == fd then [e.step.sample] else []
  {
    assert (events + [e])[..|events|] == events;
    var steps := StepsOf(events, fd);
    if e.fd == fd {
      assert (steps + [e.step])[..|steps|] == steps;
    }
  }

  /** What `OnAsk` promises, in terms of the samples. */
  lemma SentIs(alpha: real, before: seq<Message>, m: Message, text: string)
    requires Playable(alpha, before)
    requires m.Requested? && !IsFragment(m.file) ==> text == m.buffer
    requires m.Requested? && IsFragment(m.file) ==>
               Rewritable(text) && RateIn(text) == NextRate(RunAll(alpha, EventsOf(alpha, before)), m.session.clientFd)
    ensures SentFor(alpha, before, m, text)
  {
    hide IsFragment, Rewritable, RateIn, NextRate, Playable;
    NextRateIsOwn(alpha, EventsOf(alpha, before), m.session.clientFd);
    OwnSamples(alpha, before, m.session.clientFd);
  }

  lemma {:induction false} PlayablePrefix(alpha: real, messages: seq<Message>, n: nat)
    requires Playable(alpha, messages) && n <= |messages|
    ensures Playable(alpha, messages[..n])
    decreases |messages|
  {
    if n < |messages| {
      PlayablePrefix(alpha, messages[..|messages| - 1], n);
      assert messages[..|messages| - 1][..n] == messages[..n];
    } else {
      assert messages[..n] == messages;
    }
  }

  lemma NoMessages(alpha: real)
    ensures EventsOf(alpha, []) == [] && RunAll(alpha, []) == [] && LogAll(alpha, []) == [] && Playable(alpha, [])
  {
  }

  /** One more request, in terms of the table and the log before it. */
  lemma OneMoreRequest(alpha: real, messages: seq<Message>, m: Message)
    requires Playable(alpha, messages + [m]) && m.Requested?
    ensures var events, events' := EventsOf(alpha, messages), EventsOf(alpha, messages + [m]);
      var table, fd := RunAll(alpha, events), m.session.clientFd;
      && (IsFragment(m.file) ==> Rewritable(m.buffer))
      && LogAll(alpha, events') == LogAll(alpha, events)
      && (!IsFragment(m.file) ==> RunAll(alpha, events') == table)
      && (IsFragment(m.file) ==>
            RunAll(alpha, events') == OnRequest(table, fd, Uri(Rewritten(m.buffer, NextRate(table, fd)))))
  {
    hide Rewritable, Rewritten, Uri, OnRequest, NextRate, IsFragment;
    assert (messages + [m])[..|messages|] == messages;
    if IsFragment(m.file) {
      var events, fd := EventsOf(alpha, messages), m.session.clientFd;
      var e := Event(fd, Asked(Uri(Rewritten(m.buffer, NextRate(RunAll(alpha, events), fd)))));
      assert (events + [e])[..|events|] == events;
    }
  }

  /** One more response. */
  lemma OneMoreResponse(alpha: real, messages: seq<Message>, m: Message)
    requires Playable(alpha, messages + [m]) && m.Responded?
    ensures var events, events' := EventsOf(alpha, messages), EventsOf(alpha, messages + [m]);
      var table, fd := RunAll(alpha, events), m.session.clientFd;
      var k := FindFd(table, fd);
      && k < |table| && RunAll(alpha, events') == OnResponse(table, fd, alpha, m.sample)
      && (table[k].session.queue != [] ==>
            LogAll(alpha, events') == LogAll(alpha, events) + [LogLine(fd, Oldest(table[k].session))])
  {
    assert (messages + [m])[..|messages|] == messages;
    var events := EventsOf(alpha, messages);
    assert (events + [Event(m.session.clientFd, Answered(m.sample))])[..|events|] == events;
  }
}
