/** The server of the step system sends what the sending methods send: whole attempts, window by window. */
module ProtocolServer {
  import opened Bytes
  import opened Transfer
  import opened Protocol
  import RS = RoadrunnerServer

  /** Packets by window and attempt, as `SendFile` returns them. */
  type Log = seq<seq<seq<seq<byte>>>>

  function Stream(log: Log): (r: seq<seq<byte>>) { Flatten(Flatten(log)) }

  /** One more attempt at the last window. */
  function WithAttempt(log: Log, attempt: seq<seq<byte>>): (r: Log)
    requires log != []
  {
    log[..|log| - 1] + [log[|log| - 1] + [attempt]]
  }

  lemma FlattenOne<T>(s: seq<T>)
    ensures Flatten([s]) == s
  {
    assert [s][1..] == [];
  }

  lemma StreamWithAttempt(log: Log, attempt: seq<seq<byte>>)
    requires log != []
    ensures Stream(WithAttempt(log, attempt)) == Stream(log) + attempt
    ensures |Flatten(WithAttempt(log, attempt))| == |Flatten(log)| + 1
  {
    var front, last := log[..|log| - 1], log[|log| - 1];
    assert log == front + [last];
    FlattenAppend(front, [last]);
    FlattenAppend(front, [last + [attempt]]);
    FlattenOne(last);
    FlattenOne(last + [attempt]);
    assert Flatten(front) + (last + [attempt]) == (Flatten(front) + last) + [attempt];
    FlattenAppend(Flatten(log), [attempt]);
    FlattenOne(attempt);
  }

  lemma StreamWithWindow(log: Log)
    ensures Stream(log + [[]]) == Stream(log) && Flatten(log + [[]]) == Flatten(log)
  {
    FlattenAppend(log, [[]]);
    FlattenOne<seq<seq<byte>>>([]);
    assert Flatten(log) + [] == Flatten(log);
  }

  /** The windows before `n` have been sent, each at least once. */
  ghost predicate NoneSkipped(log: Log, n: nat) {
    n <= |log| && forall k | 0 <= k < n :: log[k] != []
  }

  /** Where the server is, and what it has sent so far: the attempts of `log`, at least one for each window it has left,
      and the first packets of the current one. */
  ghost predicate Trace(sc: Scenario, v: Server, log: Log, sent: seq<seq<byte>>)
    requires sc.cfg.Valid()
  {
    && v.window < sc.Count()
    && RS.SentInOrder(sc.cfg, sc.file, log)
    && |Flatten(log)| == v.attempt
    && NoneSkipped(log, if v.finished then |log| else v.window)
    && (if v.finished then v.window == sc.Count() - 1 && |log| == sc.Count() && sent == Stream(log)
        else
          && |log| == v.window + 1 && v.base == Base(sc.cfg, v.window)
          && v.next <= |Packets(sc.cfg, sc.file, v.window)|
          && sent == Stream(log) + Packets(sc.cfg, sc.file, v.window)[..v.next])
  }

  /** What an event makes the server send. */
  function Emitted(sc: Scenario, s: System, e: Event): (r: seq<seq<byte>>)
    requires WellFormed(sc, s) && (e.Send? ==> s.server.next < |Outgoing(sc, s.server)|)
  {
    if e.Send? then [Outgoing(sc, s.server)[s.server.next]] else []
  }

  lemma InOrderWithAttempt(sc: Scenario, log: Log, k: nat)
    requires sc.cfg.Valid() && k < sc.Count() && |log| == k + 1 && RS.SentInOrder(sc.cfg, sc.file, log)
    ensures RS.SentInOrder(sc.cfg, sc.file, WithAttempt(log, Packets(sc.cfg, sc.file, k)))
  {
    var log' := WithAttempt(log, Packets(sc.cfg, sc.file, k));
    forall w, a | 0 <= w < |log'| && 0 <= a < |log'[w]|
      ensures log'[w][a] == Packets(sc.cfg, sc.file, w)
    {
      if w < k || a < |log[w]| {
        assert log'[w][a] == log[w][a];
      }
    }
  }

  lemma CompletedAttempt(sc: Scenario, v: Server, log: Log, sent: seq<seq<byte>>) returns (log': Log)
    requires sc.cfg.Valid() && Trace(sc, v, log, sent) && !v.finished
    requires v.next == |Packets(sc.cfg, sc.file, v.window)|
    ensures RS.SentInOrder(sc.cfg, sc.file, log') && |log'| == |log| && sent == Stream(log')
    ensures |Flatten(log')| == v.attempt + 1 && NoneSkipped(log', |log'|)
  {
    var own := Packets(sc.cfg, sc.file, v.window);
    log' := WithAttempt(log, own);
    InOrderWithAttempt(sc, log, v.window);
    StreamWithAttempt(log, own);
    assert own[..v.next] == own;
  }

  lemma NextWindow(sc: Scenario, v: Server, log: Log, sent: seq<seq<byte>>) returns (log': Log)
    requires sc.cfg.Valid() && v.window < sc.Count() && v.base == Base(sc.cfg, v.window)
    requires RS.SentInOrder(sc.cfg, sc.file, log) && |log| == v.window + 1 && sent == Stream(log)
    requires |Flatten(log)| == v.attempt + 1 && NoneSkipped(log, |log|)
    ensures Trace(sc, Advanced(sc, v), log', sent)
  {
    BasesAlternate(sc.cfg, v.window);
    log' := log;
    if v.window + 1 < sc.Count() {
      log' := log + [[]];
      StreamWithWindow(log);
      assert Packets(sc.cfg, sc.file, v.window + 1)[..0] == [];
      assert sent + [] == sent;
    }
  }

  lemma TraceStep(sc: Scenario, s: System, e: Event, log: Log, sent: seq<seq<byte>>) returns (log': Log)
    requires WellFormed(sc, s) && Enabled(sc, s, e) && Trace(sc, s.server, log, sent)
    ensures Trace(sc, Step(sc, s, e).server, log', sent + Emitted(sc, s, e))
  {
    var v := s.server;
    log' := log;
    assert sent + [] == sent;
    match e
    case Send =>
      var own := Packets(sc.cfg, sc.file, v.window);
      assert own[..v.next + 1] == own[..v.next] + [own[v.next]];
      assert (Stream(log) + own[..v.next]) + [own[v.next]] == Stream(log) + (own[..v.next] + [own[v.next]]);
    case Timeout =>
      log' := CompletedAttempt(sc, v, log, sent);
      assert Packets(sc.cfg, sc.file, v.window)[..0] == [];
      assert Stream(log') + [] == Stream(log');
    case DeliverReply(i) =>
      if s.replies[i] == Reply(v.attempt, Expected(sc, v)) {
        log' := CompletedAttempt(sc, v, log, sent);
        log' := NextWindow(sc, v, log', sent);
      }
    case _ =>
  }

  /** Everything the server sends on a run, in order. */
  ghost function Sends(sc: Scenario, s: System, events: seq<Event>): (r: seq<seq<byte>>)
    requires WellFormed(sc, s) && Run(sc, s, events).Some?
    decreases |events|
  {
    if events == [] then []
    else Emitted(sc, s, events[0]) + Sends(sc, Step(sc, s, events[0]), events[1..])
  }

  lemma Regroup<T>(a: seq<T>, b: seq<T>, c: seq<T>)
    ensures (a + b) + c == a + (b + c)
  {
  }

  lemma {:induction false} TraceRun(sc: Scenario, s: System, events: seq<Event>, log: Log, sent: seq<seq<byte>>)
    returns (log': Log)
    requires WellFormed(sc, s) && Run(sc, s, events).Some? && Trace(sc, s.server, log, sent)
    ensures Trace(sc, Run(sc, s, events).value.server, log', sent + Sends(sc, s, events))
    decreases |events|
  {
    if events == [] {
      log' := log;
      assert sent + [] == sent;
    } else {
      var next, first := Step(sc, s, events[0]), Emitted(sc, s, events[0]);
      log' := TraceStep(sc, s, events[0], log, sent);
      log' := TraceRun(sc, next, events[1..], log', sent + first);
      Regroup(sent, first, Sends(sc, next, events[1..]));
    }
  }

  /** On every run of every scenario, what the server sends is a log as `SendFile` promises it, whole attempts at the
      windows in order, followed by the first packets of the attempt under way. There is at least one attempt for each
      window the server has left, and in all as many as it has opened sockets before the current one. */
  lemma SendsInOrder(sc: Scenario, events: seq<Event>) returns (log: Log)
    requires WellFormed(sc, Initial) && Run(sc, Initial, events).Some?
    ensures RS.SentInOrder(sc.cfg, sc.file, log)
    ensures var v := Run(sc, Initial, events).value.server;
            |Flatten(log)| == v.attempt && NoneSkipped(log, if v.finished then |log| else v.window)
    ensures var v, sent := Run(sc, Initial, events).value.server, Sends(sc, Initial, events);
            && v.window < sc.Count() && |log| == v.window + 1
            && if v.finished then v.window == sc.Count() - 1 && sent == Stream(log)
               else
                 v.next <= |Packets(sc.cfg, sc.file, v.window)|
                 && sent == Stream(log) + Packets(sc.cfg, sc.file, v.window)[..v.next]
  {
    FlattenOne<seq<seq<byte>>>([]);
    assert Packets(sc.cfg, sc.file, 0)[..0] == [];
    assert Flatten<seq<seq<byte>>>([[]]) == [];
    log := TraceRun(sc, Initial, events, [[]], []);
    assert [] + Sends(sc, Initial, events) == Sends(sc, Initial, events);
  }
}
