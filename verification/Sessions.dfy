/** The bookkeeping of src/bitrate.c on values: one tracker per client, its queue of chunks, and what a run of
    requests and responses does to it. */
module Sessions {
  import opened Bitrate

  /** A tracker: chunk names, newest first, and the adaptive state. */
  datatype Session = Session(queue: seq<string>, throughput: real, bitrate: int)

  const NEW_SESSION := Session([], 100.0, 100)

  /** `create_tracker` and `update_bitrate`: the chunk `name` is requested. */
  function Ask(s: Session, name: string): Session {
    Session([name] + s.queue, s.throughput, Rate(s.throughput))
  }

  /** `update_throughput`: the oldest chunk is unlinked, unless it is the only one. */
  function Answer(s: Session, alpha: real, sample: real): Session {
    Session(if |s.queue| > 1 then s.queue[..|s.queue| - 1] else s.queue, Average(alpha, s.throughput, sample), s.bitrate)
  }

  /** The chunk that `update_throughput` logs: the oldest one still linked. */
  function Oldest(s: Session): string
    requires s.queue != []
  {
    s.queue[|s.queue| - 1]
  }

  // ----- runs of one session

  datatype Step = Asked(name: string) | Answered(sample: real)

  function Run(alpha: real, steps: seq<Step>): Session {
    if steps == [] then NEW_SESSION
    else
      var s := Run(alpha, steps[..|steps| - 1]);
      match steps[|steps| - 1]
      case Asked(name) => Ask(s, name)
      case Answered(sample) => Answer(s, alpha, sample)
  }

  /** The chunks asked for, in order. */
  function Names(steps: seq<Step>): seq<string> {
    if steps == [] then []
    else
      var last := steps[|steps| - 1];
      Names(steps[..|steps| - 1]) + if last.Asked? then [last.name] else []
  }

  function Samples(steps: seq<Step>): seq<real> {
    if steps == [] then []
    else
      var last := steps[|steps| - 1];
      Samples(steps[..|steps| - 1]) + if last.Answered? then [last.sample] else []
  }

  /** How many chunks have been unlinked. */
  function Dropped(steps: seq<Step>): nat {
    if steps == [] then 0
    else
      var init := steps[..|steps| - 1];
      Dropped(init) + if steps[|steps| - 1].Answered? && |Names(init)| - Dropped(init) > 1 then 1 else 0
  }

  /** What the responses log, in order; a response without a chunk (NULL in C) logs nothing. */
  function Logged(alpha: real, steps: seq<Step>): seq<string> {
    if steps == [] then []
    else
      var init := steps[..|steps| - 1];
      Logged(alpha, init)
      + if steps[|steps| - 1].Answered? && Run(alpha, init).queue != [] then [Oldest(Run(alpha, init))] else []
  }

  /** In every run the unlinked chunks are a prefix of the order of creation, the queue is the rest of it,
      newest first, and it never becomes empty again. */
  lemma {:induction false} QueueIsRest(alpha: real, steps: seq<Step>)
    ensures var q, names, d := Run(alpha, steps).queue, Names(steps), Dropped(steps);
      && |q| == |names| - d
      && (names != [] ==> d < |names|)
      && forall i | 0 <= i < |q| :: q[i] == names[|names| - 1 - i]
    decreases |steps|
  {
    if steps != [] {
      QueueIsRest(alpha, steps[..|steps| - 1]);
    }
  }

  /** Each response logs the oldest chunk not yet unlinked; that is the chunk asked for last exactly when
      no other is linked. */
  lemma {:induction false} ResponseLogsOldest(alpha: real, steps: seq<Step>, sample: real)
    requires Names(steps) != []
    ensures var names, d := Names(steps), Dropped(steps);
      && d < |names|
      && Logged(alpha, steps + [Answered(sample)]) == Logged(alpha, steps) + [names[d]]
      && (d == |names| - 1 <==> |Run(alpha, steps).queue| == 1)
  {
    QueueIsRest(alpha, steps);
    assert (steps + [Answered(sample)])[..|steps|] == steps;
  }

  /** Requests and responses in strict alternation. */
  function Alternating(names: seq<string>, samples: seq<real>): seq<Step>
    requires |names| == |samples|
  {
    if names == [] then []
    else
      var n := |names| - 1;
      Alternating(names[..n], samples[..n]) + [Asked(names[n])] + [Answered(samples[n])]
  }

  lemma StepAsked(alpha: real, steps: seq<Step>, name: string)
    ensures var steps' := steps + [Asked(name)];
      && Names(steps') == Names(steps) + [name] && Dropped(steps') == Dropped(steps)
      && Logged(alpha, steps') == Logged(alpha, steps) && Samples(steps') == Samples(steps)
      && Run(alpha, steps') == Ask(Run(alpha, steps), name)
  {
    assert (steps + [Asked(name)])[..|steps|] == steps;
  }

  lemma StepAnswered(alpha: real, steps: seq<Step>, sample: real)
    ensures var steps' := steps + [Answered(sample)];
      && Names(steps') == Names(steps)
      && Dropped(steps') == Dropped(steps) + (if |Names(steps)| - Dropped(steps) > 1 then 1 else 0)
      && Samples(steps') == Samples(steps) + [sample]
      && Run(alpha, steps') == Answer(Run(alpha, steps), alpha, sample)
  {
    assert (steps + [Answered(sample)])[..|steps|] == steps;
  }

  /** Under strict alternation the log lags: the first response logs chunk 1, and the k-th logs chunk k - 1. */
  lemma {:induction false} AlternationLags(alpha: real, names: seq<string>, samples: seq<real>)
    requires |names| == |samples|
    ensures var steps := Alternating(names, samples);
      && Names(steps) == names
      && Dropped(steps) == (if |names| > 0 then |names| - 1 else 0)
      && |Logged(alpha, steps)| == |names|
      && forall k | 0 <= k < |names| :: Logged(alpha, steps)[k] == names[if k == 0 then 0 else k - 1]
    decreases |names|
  {
    if names != [] {
      var n := |names| - 1;
      var before := Alternating(names[..n], samples[..n]);
      AlternationLags(alpha, names[..n], samples[..n]);
      StepAsked(alpha, before, names[n]);
      var asked := before + [Asked(names[n])];
      assert names[..n] + [names[n]] == names;
      StepAnswered(alpha, asked, samples[n]);
      ResponseLogsOldest(alpha, asked, samples[n]);
    }
  }

  /** The throughput of a session is the average over its samples, from 100. */
  lemma {:induction false} ThroughputIsAverage(alpha: real, steps: seq<Step>)
    ensures Run(alpha, steps).throughput == After(alpha, 100.0, Samples(steps))
    decreases |steps|
  {
    if steps != [] {
      var init, last := steps[..|steps| - 1], steps[|steps| - 1];
      ThroughputIsAverage(alpha, init);
      if last.Answered? {
        assert (Samples(init) + [last.sample])[..|Samples(init)|] == Samples(init);
      } else {
        assert Samples(init) + [] == Samples(init);
      }
    }
  }

  /** The rate kept for a request, which the log of its response shows, is the one for the average of the samples before. */
  lemma RequestedRate(alpha: real, steps: seq<Step>, name: string)
    ensures Run(alpha, steps + [Asked(name)]).bitrate == Rate(After(alpha, 100.0, Samples(steps)))
  {
    StepAsked(alpha, steps, name);
    ThroughputIsAverage(alpha, steps);
  }

  /** Convergence of a session: once enough responses have been measured, all of them above one and a half times
      the rung `r`, the next request is made at `r` or more. */
  lemma SessionConverges(alpha: real, steps: seq<Step>, name: string, s: real, r: int)
    requires 0.0 < alpha <= 1.0 && r in RATES && s > 1.5 * r as real
    requires forall x | x in Samples(steps) :: x >= s
    requires |Samples(steps)| >= SettlingTime(alpha, s, 1.5 * r as real)
    ensures Run(alpha, steps + [Asked(name)]).bitrate >= r
  {
    StepAsked(alpha, steps, name);
    ThroughputIsAverage(alpha, steps);
    RateConverges(alpha, 100.0, Samples(steps), s, r);
  }

  // ----- runs of all sessions

  /** An entry of the list `tracker_head`. */
  datatype Entry = Entry(fd: int, session: Session)

  function FindFd(table: seq<Entry>, fd: int): (k: nat)
    ensures k <= |table| && (k < |table| ==> table[k].fd == fd)
    ensures forall i | 0 <= i < k :: table[i].fd != fd
  {
    if table == [] || table[0].fd == fd then 0 else 1 + FindFd(table[1..], fd)
  }

  function OnRequest(table: seq<Entry>, fd: int, name: string): seq<Entry> {
    var k := FindFd(table, fd);
    if k < |table| then table[k := Entry(fd, Ask(table[k].session, name))]
    else [Entry(fd, Ask(NEW_SESSION, name))] + table
  }

  /** The rate at which the client's next chunk is requested. */
  function NextRate(table: seq<Entry>, fd: int): nat {
    var k := FindFd(table, fd);
    Rate(if k < |table| then table[k].session.throughput else NEW_SESSION.throughput)
  }

  function OnResponse(table: seq<Entry>, fd: int, alpha: real, sample: real): seq<Entry> {
    var k := FindFd(table, fd);
    if k < |table| then table[k := Entry(fd, Answer(table[k].session, alpha, sample))] else table
  }

  /** A step of the session on descriptor `fd`. */
  datatype Event = Event(fd: int, step: Step)

  function RunAll(alpha: real, events: seq<Event>): seq<Entry> {
    if events == [] then []
    else
      var table, e := RunAll(alpha, events[..|events| - 1]), events[|events| - 1];
      match e.step
      case Asked(name) => OnRequest(table, e.fd, name)
      case Answered(sample) => OnResponse(table, e.fd, alpha, sample)
  }

  /** The steps of one descriptor, from its first request on: a response without a tracker does not happen. */
  function StepsOf(events: seq<Event>, fd: int): seq<Step> {
    if events == [] then []
    else
      var steps, e := StepsOf(events[..|events| - 1], fd), events[|events| - 1];
      if e.fd == fd && (e.step.Asked? || steps != []) then steps + [e.step] else steps
  }

  ghost predicate DistinctFds(table: seq<Entry>) {
    forall i, j | 0 <= i < j < |table| :: table[i].fd != table[j].fd
  }

  /** In every run over all clients, no two trackers share a descriptor, there is one for exactly the descriptors
      that asked for a chunk, and each is in the state its own steps alone lead to. */
  lemma {:induction false} SessionsIndependent(alpha: real, events: seq<Event>, fd: int)
    ensures var table := RunAll(alpha, events);
      var k := FindFd(table, fd);
      && DistinctFds(table)
      && (k < |table| <==> StepsOf(events, fd) != [])
      && (k < |table| ==> table[k].session == Run(alpha, StepsOf(events, fd)))
    decreases |events|
  {
    if events != [] {
      var before, e := events[..|events| - 1], events[|events| - 1];
      SessionsIndependent(alpha, before, fd);
      SessionsIndependent(alpha, before, e.fd);
      var table, steps := RunAll(alpha, before), StepsOf(before, fd);
      FindAfterUpdate(table, RunAll(alpha, events), e.fd, fd);
      assert (steps + [e.step])[..|steps|] == steps;
    }
  }

  /** The rate at which a client's next chunk is requested is the one for the average of its own samples. */
  lemma NextRateIsOwn(alpha: real, events: seq<Event>, fd: int)
    ensures NextRate(RunAll(alpha, events), fd) == Rate(After(alpha, 100.0, Samples(StepsOf(events, fd))))
  {
    SessionsIndependent(alpha, events, fd);
    ThroughputIsAverage(alpha, StepsOf(events, fd));
    assert Samples([]) == [];
  }

  /** A line of the log: the client and the chunk. */
  datatype LogLine = LogLine(fd: int, file: string)

  /** What the responses to all clients log, in order. */
  function LogAll(alpha: real, events: seq<Event>): seq<LogLine> {
    if events == [] then []
    else
      var init, e := events[..|events| - 1], events[|events| - 1];
      var table := RunAll(alpha, init);
      var k := FindFd(table, e.fd);
      LogAll(alpha, init)
      + if e.step.Answered? && k < |table| && table[k].session.queue != [] then [LogLine(e.fd, Oldest(table[k].session))] else []
  }

  /** The part of the log that is about one client. */
  function LinesOf(log: seq<LogLine>, fd: int): seq<string> {
    if log == [] then []
    else
      var last := log[|log| - 1];
      LinesOf(log[..|log| - 1], fd) + if last.fd == fd then [last.file] else []
  }

  lemma LinesOfSnoc(log: seq<LogLine>, line: LogLine, fd: int)
    ensures LinesOf(log + [line], fd) == LinesOf(log, fd) + if line.fd == fd then [line.file] else []
  {
    assert (log + [line])[..|log|] == log;
  }

  lemma LoggedSnoc(alpha: real, steps: seq<Step>, step: Step)
    ensures Logged(alpha, steps + [step])
            == Logged(alpha, steps)
               + if step.Answered? && Run(alpha, steps).queue != [] then [Oldest(Run(alpha, steps))] else []
  {
    assert (steps + [step])[..|steps|] == steps;
  }

  /** Clients do not disturb each other's log: what is logged for one is what its own steps alone log. */
  lemma {:induction false} LogIndependent(alpha: real, events: seq<Event>, fd: int)
    ensures LinesOf(LogAll(alpha, events), fd) == Logged(alpha, StepsOf(events, fd))
    decreases |events|
  {
    hide Logged, LinesOf, Run, RunAll, Oldest;
    if events == [] {
      NothingLogged(alpha, fd);
    } else {
      var before, e := events[..|events| - 1], events[|events| - 1];
      LogIndependent(alpha, before, fd);
      SessionsIndependent(alpha, before, e.fd);
      var table, log := RunAll(alpha, before), LogAll(alpha, before);
      var k := FindFd(table, e.fd);
      if e.step.Answered? && k < |table| && table[k].session.queue != [] {
        LinesOfSnoc(log, LogLine(e.fd, Oldest(table[k].session)), fd);
      } else {
        assert log + [] == log;
      }
      LoggedSnoc(alpha, StepsOf(before, fd), e.step);
    }
  }

  lemma NothingLogged(alpha: real, fd: int)
    ensures Logged(alpha, []) == [] && LinesOf([], fd) == []
  {
  }

  lemma FindAfterUpdate(table: seq<Entry>, table': seq<Entry>, changed: int, fd: int)
    requires DistinctFds(table)
    requires var k := FindFd(table, changed);
      || table' == table
      || (k < |table| && |table'| == |table| && table'[k].fd == changed && table' == table[k := table'[k]])
      || (k == |table| && |table'| == |table| + 1 && table'[0].fd == changed && table'[1..] == table)
    ensures DistinctFds(table')
    ensures var k, k' := FindFd(table, fd), FindFd(table', fd);
      && (fd != changed ==> (k < |table| <==> k' < |table'|) && (k < |table| ==> table'[k'] == table[k]))
      && (fd == changed && table' != table && |table'| == |table| ==> k' == k)
      && (fd == changed && |table'| == |table| + 1 ==> k' == 0)
  {
    if table' != table && |table'| == |table| {
      FindFdIs(table', fd, FindFd(table, fd));
    }
  }

  lemma {:induction false} FindFdIs(table: seq<Entry>, fd: int, k: nat)
    requires k <= |table| && (k < |table| ==> table[k].fd == fd) && forall i | 0 <= i < k :: table[i].fd != fd
    ensures FindFd(table, fd) == k
  {
    if k > 0 {
      FindFdIs(table[1..], fd, k - 1);
    }
  }
}
