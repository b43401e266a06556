/** What an attempt without losses achieves, on every run: once all its packets and replies have been delivered, the
    server has left the window. */
module ProtocolAttempts {
  import opened Bytes
  import opened Transfer
  import opened Protocol
  import opened ProtocolSafety
  import opened ProtocolProgress

  // ---------------------------------------------------------------------------------------------
  // Nothing is heard of an attempt before it begins

  /** Packets of the current attempt carry indices below the next one to send, and nothing has been heard or answered
      before the first of them is sent. */
  ghost predicate AttemptInv(s: System)
  {
    !s.server.finished ==>
      && (forall fl | fl in s.data && fl.attempt == s.server.attempt :: fl.index < s.server.next)
      && (s.server.next == 0 ==> s.heard == {} && !s.answered)
  }

  lemma AttemptStep(sc: Scenario, s: System, e: Event)
    requires Proper(sc) && Inv(sc, s) && WellFormed(sc, s) && Enabled(sc, s, e) && AttemptInv(s)
    ensures AttemptInv(Step(sc, s, e))
  {
    var t := Step(sc, s, e);
    forall fl | fl in t.data && !t.server.finished && fl.attempt == t.server.attempt
      ensures fl.index < t.server.next
    {
      if fl in s.data {
        assert FlightInv(sc, s, fl);
      }
    }
    if e.Deliver? {
      assert s.data[e.i] in s.data;
    }
  }

  lemma {:induction false} AttemptRun(sc: Scenario, s: System, events: seq<Event>)
    requires Proper(sc) && Inv(sc, s) && WellFormed(sc, s) && AttemptInv(s)
    requires Run(sc, s, events).Some?
    ensures AttemptInv(Run(sc, s, events).value)
    decreases |events|
  {
    if events != [] {
      StepInv(sc, s, events[0]);
      AttemptStep(sc, s, events[0]);
      AttemptRun(sc, Step(sc, s, events[0]), events[1..]);
    }
  }

  lemma ReachableAttempt(sc: Scenario, s: System)
    requires Proper(sc) && Reachable(sc, s)
    ensures AttemptInv(s)
  {
    InitialWellFormed(sc);
    InitialInv(sc);
    var events :| Run(sc, Initial, events) == Some(s);
    AttemptRun(sc, Initial, events);
  }

  // ---------------------------------------------------------------------------------------------
  // An attempt without losses

  /** Every packet sent in this attempt is under way or has been heard. */
  ghost predicate Accounted(s: System)
  {
    forall j: nat | j < s.server.next ::
      j in s.heard || exists i :: 0 <= i < |s.data| && s.data[i].attempt == s.server.attempt && s.data[i].index == j
  }

  /** If the attempt has been answered, the answer is under way. */
  ghost predicate AnswerUnderWay(sc: Scenario, s: System)
    requires sc.cfg.Valid() && s.server.window < sc.Count()
  {
    s.answered ==> Reply(s.server.attempt, Expected(sc, s.server)) in s.replies
  }

  /** Either attempt `a` of window `k` is still going on and nothing of it is lost, or the server has left the window. */
  ghost predicate Undiminished(sc: Scenario, s: System, k: nat, a: nat)
    requires WellFormed(sc, s)
  {
    if s.server.attempt == a then
      !s.server.finished && s.server.window == k && Accounted(s) && AnswerUnderWay(sc, s)
    else
      s.server.attempt > a && (s.server.finished || s.server.window > k)
  }

  lemma RemovedOther<T>(s: seq<T>, i: nat, x: T)
    requires i < |s| && x in s && s[i] != x
    ensures x in Remove(s, i)
  {
    var j :| 0 <= j < |s| && s[j] == x;
    assert Remove(s, i)[if j < i then j else j - 1] == x;
  }

  lemma DuplicateKeeps<T>(s: seq<T>, i: nat)
    requires i < |s|
    ensures forall x | x in s :: x in Twice(s, i)
  {
    forall x | x in s ensures x in Twice(s, i) {
      var j :| 0 <= j < |s| && s[j] == x;
      assert Twice(s, i)[if j <= i then j else j + 1] == x;
    }
  }

  lemma AccountedStep(sc: Scenario, s: System, e: Event)
    requires Proper(sc) && Inv(sc, s) && WellFormed(sc, s) && Enabled(sc, s, e)
    requires !s.server.finished && Accounted(s) && Spares(s, e, s.server.attempt)
    requires Step(sc, s, e).server.attempt == s.server.attempt
    ensures Accounted(Step(sc, s, e))
  {
    var t := Step(sc, s, e);
    forall j: nat | j < t.server.next && j !in t.heard
      ensures exists i :: 0 <= i < |t.data| && t.data[i].attempt == t.server.attempt && t.data[i].index == j
    {
      var fl: Flight;
      if e.Send? && j == s.server.next {
        fl := t.data[|s.data|];
      } else {
        var i :| 0 <= i < |s.data| && s.data[i].attempt == s.server.attempt && s.data[i].index == j;
        fl := s.data[i];
        match e
        case Deliver(d) => RemovedOther(s.data, d, fl);
        case Lose(l) => RemovedOther(s.data, l, fl);
        case Duplicate(d) => DuplicateKeeps(s.data, d);
        case _ =>
      }
      assert fl in t.data;
    }
  }

  lemma AnswerStep(sc: Scenario, s: System, e: Event)
    requires Proper(sc) && Inv(sc, s) && WellFormed(sc, s) && Enabled(sc, s, e)
    requires !s.server.finished && AnswerUnderWay(sc, s) && Spares(s, e, s.server.attempt)
    requires Step(sc, s, e).server.attempt == s.server.attempt
    ensures AnswerUnderWay(sc, Step(sc, s, e))
  {
    var t, r := Step(sc, s, e), Reply(s.server.attempt, Expected(sc, s.server));
    if s.answered {
      match e
      case DeliverReply(i) => RemovedOther(s.replies, i, r);
      case LoseReply(i) => RemovedOther(s.replies, i, r);
      case DuplicateReply(i) => DuplicateKeeps(s.replies, i);
      case _ =>
    }
  }

  lemma LeavingAttempt(sc: Scenario, s: System, e: Event)
    requires WellFormed(sc, s) && Enabled(sc, s, e)
    ensures var v, w := s.server, Step(sc, s, e).server;
            && w.attempt >= v.attempt && w.window >= v.window && (v.finished ==> w.finished)
            && (w.attempt == v.attempt ==> w.window == v.window && w.finished == v.finished)
            && (w.attempt > v.attempt ==> e.Timeout? || w.finished || w.window > v.window)
  {
  }

  lemma UndiminishedStep(sc: Scenario, s: System, e: Event, k: nat, a: nat)
    requires Proper(sc) && Inv(sc, s) && WellFormed(sc, s) && Enabled(sc, s, e)
    requires Undiminished(sc, s, k, a) && Spares(s, e, a)
    ensures Undiminished(sc, Step(sc, s, e), k, a)
  {
    LeavingAttempt(sc, s, e);
    if s.server.attempt == a && Step(sc, s, e).server.attempt == a {
      AccountedStep(sc, s, e);
      AnswerStep(sc, s, e);
    }
  }

  lemma {:induction false} UndiminishedRun(sc: Scenario, s: System, events: seq<Event>, k: nat, a: nat)
    requires Proper(sc) && Inv(sc, s) && WellFormed(sc, s) && Run(sc, s, events).Some?
    requires Undiminished(sc, s, k, a) && AllSpare(sc, s, events, a)
    ensures Undiminished(sc, Run(sc, s, events).value, k, a)
    decreases |events|
  {
    if events != [] {
      UndiminishedStep(sc, s, events[0], k, a);
      StepInv(sc, s, events[0]);
      UndiminishedRun(sc, Step(sc, s, events[0]), events[1..], k, a);
    }
  }

  /** If attempt `a` is still going on, all its packets have been sent, and no packet and no reply of it is under way. */
  ghost predicate Delivered(sc: Scenario, s: System, a: nat)
    requires WellFormed(sc, s)
  {
    s.server.attempt == a ==>
      && s.server.next == |Outgoing(sc, s.server)|
      && (forall i :: 0 <= i < |s.data| ==> s.data[i].attempt != a)
      && (forall i :: 0 <= i < |s.replies| ==> s.replies[i].attempt != a)
  }

  /** The events begin with an attempt, lose nothing of it, do not time it out, and deliver all of it. */
  ghost predicate GoesThrough(sc: Scenario, s: System, events: seq<Event>)
    requires WellFormed(sc, s) && Run(sc, s, events).Some?
  {
    && !s.server.finished && s.server.next == 0
    && AllSpare(sc, s, events, s.server.attempt)
    && Delivered(sc, Run(sc, s, events).value, s.server.attempt)
  }

  /** When all packets of an attempt that lost nothing have been sent and delivered, its acknowledgement is waiting. */
  lemma AnswerWaits(sc: Scenario, t: System)
    requires Proper(sc) && Reachable(sc, t) && WellFormed(sc, t) && !t.server.finished
    requires Accounted(t) && AnswerUnderWay(sc, t) && t.server.next == |Outgoing(sc, t.server)|
    requires forall i :: 0 <= i < |t.data| ==> t.data[i].attempt != t.server.attempt
    ensures exists i :: 0 <= i < |t.replies| && t.replies[i].attempt == t.server.attempt
  {
    FullAttemptIsAnswered(sc, t);
    assert Reply(t.server.attempt, Expected(sc, t.server)) in t.replies;
  }

  /** On every run: after an attempt none of whose packets and replies are lost and all of which are delivered, with
      whatever else in between, the server has left the window. */
  lemma WholeAttemptAdvances(sc: Scenario, s: System, events: seq<Event>)
    requires Proper(sc) && Reachable(sc, s) && WellFormed(sc, s)
    requires Run(sc, s, events).Some? && GoesThrough(sc, s, events)
    ensures Remaining(sc, Run(sc, s, events).value.server) < Remaining(sc, s.server)
  {
    var k, a, t := s.server.window, s.server.attempt, Run(sc, s, events).value;
    ReachableInv(sc, s);
    ReachableAttempt(sc, s);
    UndiminishedRun(sc, s, events, k, a);
    RunInv(sc, s, events);
    if t.server.attempt == a {
      assert Reaches(sc, s, t);
      ReachableTransitively(sc, s, t);
      AnswerWaits(sc, t);
      assert false;
    }
  }

  /** From every reachable state in which the client still receives, the present attempt can be given up and the next one
      can go through. */
  lemma AttemptCanGoThrough(sc: Scenario, s: System) returns (u: System, events: seq<Event>)
    requires Proper(sc) && Reachable(sc, s) && !s.client.done && !s.server.finished
    ensures WellFormed(sc, s) && Reaches(sc, s, u) && u.server.attempt == s.server.attempt + 1
    ensures WellFormed(sc, u) && Run(sc, u, events).Some? && GoesThrough(sc, u, events)
  {
    ReachableInv(sc, s);
    u := GivesUp(sc, s);
    var t := Undeterred(sc, u);
    events :| Run(sc, u, events) == Some(t) && AllSpare(sc, u, events, u.server.attempt);
  }

  // ---------------------------------------------------------------------------------------------
  // Whole transfers

  lemma {:induction false} NeverBack(sc: Scenario, s: System, events: seq<Event>)
    requires WellFormed(sc, s) && Run(sc, s, events).Some?
    ensures Remaining(sc, Run(sc, s, events).value.server) <= Remaining(sc, s.server)
    decreases |events|
  {
    if events != [] {
      LeavingAttempt(sc, s, events[0]);
      NeverBack(sc, Step(sc, s, events[0]), events[1..]);
    }
  }

  /** The state after the pieces of a run, if they are possible one after the other. */
  ghost function RunPieces(sc: Scenario, s: System, pieces: seq<seq<Event>>): (t: Option<System>)
    requires WellFormed(sc, s)
    ensures t.Some? ==> WellFormed(sc, t.value)
    decreases |pieces|
  {
    if pieces == [] then Some(s)
    else
      match Run(sc, s, pieces[0])
      case None => None
      case Some(next) => RunPieces(sc, next, pieces[1..])
  }

  /** How many of the pieces are attempts that go through. */
  ghost function Successes(sc: Scenario, s: System, pieces: seq<seq<Event>>): (n: nat)
    requires WellFormed(sc, s) && RunPieces(sc, s, pieces).Some?
    decreases |pieces|
  {
    if pieces == [] then 0
    else
      (if GoesThrough(sc, s, pieces[0]) then 1 else 0)
      + Successes(sc, Run(sc, s, pieces[0]).value, pieces[1..])
  }

  /** However a run is cut into pieces: each attempt that goes through is one window less, and what happens in the other
      pieces sets nothing back. So a run with as many such attempts as there are remaining windows finishes. */
  lemma {:induction false} OneSuccessPerWindow(sc: Scenario, s: System, pieces: seq<seq<Event>>)
    requires Proper(sc) && Reachable(sc, s) && WellFormed(sc, s) && RunPieces(sc, s, pieces).Some?
    ensures var v := RunPieces(sc, s, pieces).value.server;
            Remaining(sc, v) + Successes(sc, s, pieces) <= Remaining(sc, s.server)
    ensures Successes(sc, s, pieces) == Remaining(sc, s.server) ==> RunPieces(sc, s, pieces).value.server.finished
    decreases |pieces|
  {
    if pieces == [] {
      ReachableInv(sc, s);
    } else {
      var next := Run(sc, s, pieces[0]).value;
      assert Reaches(sc, s, next);
      ReachableTransitively(sc, s, next);
      NeverBack(sc, s, pieces[0]);
      if GoesThrough(sc, s, pieces[0]) {
        WholeAttemptAdvances(sc, s, pieces[0]);
      }
      OneSuccessPerWindow(sc, next, pieces[1..]);
    }
  }
}
