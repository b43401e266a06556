/** How the transfer ends: the client acknowledges the last window eight times and leaves, and what the server can still
    do then. */
module ProtocolFinish {
  import opened Bytes
  import opened Transfer
  import opened Reassembly
  import opened Protocol
  import opened ProtocolSafety
  import opened ProtocolProgress

  // ---------------------------------------------------------------------------------------------
  // What the client sends when it completes a window

  lemma AddressedCopies(attempt: nat, num: byte, n: nat)
    ensures Addressed(attempt, Repeat(num, n)) == Repeat(Reply(attempt, num), n)
  {
  }

  /** The acknowledgements of the delivery that completes a window, on plain values. */
  lemma CopiesSent(attempt: nat, before: RC.Client, after: RC.Client, num: byte, n: nat)
    requires after.sent == before.sent + Repeat(num, n)
    ensures Answers(attempt, before, after) == Repeat(Reply(attempt, num), n)
  {
    AddressedCopies(attempt, num, n);
  }

  /** On every run, the delivery that completes a window adds the acknowledgement the server waits for, to the socket
      the packet came from: eight times when this finishes the client, and once when it does not. */
  lemma CompletingAnswers(sc: Scenario, s: System, i: nat)
    requires Proper(sc) && Reachable(sc, s) && WellFormed(sc, s) && Enabled(sc, s, Deliver(i))
    requires Step(sc, s, Deliver(i)).client.windows != s.client.windows
    ensures var t := Step(sc, s, Deliver(i));
            && !s.server.finished && s.data[i].window == s.server.window == s.client.windows
            && t.server == s.server && t.client.windows == s.client.windows + 1
            && t.replies == s.replies
                 + Repeat(Reply(s.data[i].attempt, Expected(sc, s.server)), if t.client.done then 8 else 1)
  {
    ReachableInv(sc, s);
    InvWellFormed(sc, s);
    var t, fl := Step(sc, s, Deliver(i)), s.data[i];
    StepInv(sc, s, Deliver(i));
    DeliveryCases(sc, s, i);
    LayoutFacts(sc, fl.window);
    CopiesSent(fl.attempt, s.client, t.client, Expected(sc, s.server), if t.client.done then 8 else 1);
  }

  // ---------------------------------------------------------------------------------------------
  // The server after the client has finished

  /** An acknowledgement that ends the last window is on its way to the server's socket. */
  ghost predicate Awaited(sc: Scenario, s: System)
    requires sc.cfg.Valid() && s.server.window < sc.Count()
  {
    Reply(s.server.attempt, Expected(sc, s.server)) in s.replies
  }

  /** How many of them there are. */
  ghost function Copies(sc: Scenario, s: System): (n: nat)
    requires sc.cfg.Valid() && s.server.window < sc.Count()
  {
    multiset(s.replies)[Reply(s.server.attempt, Expected(sc, s.server))]
  }

  /** The client has finished and the server has not. */
  ghost predicate Ending(sc: Scenario, s: System)
    requires Proper(sc)
  {
    Inv(sc, s) && WellFormed(sc, s) && s.client.done && !s.server.finished
  }

  lemma EndingFacts(sc: Scenario, s: System)
    requires Proper(sc) && Ending(sc, s)
    ensures s.server.window == sc.Count() - 1 && s.client.collector.None?
  {
  }

  lemma RemoveCounts<T>(s: seq<T>, i: nat, x: T)
    requires i < |s|
    ensures multiset(Remove(s, i))[x] == multiset(s)[x] - if s[i] == x then 1 else 0
  {
    assert s == s[..i] + [s[i]] + s[i + 1..];
  }

  lemma TwiceCounts<T>(s: seq<T>, i: nat, x: T)
    requires i < |s|
    ensures multiset(Twice(s, i))[x] == multiset(s)[x] + if s[i] == x then 1 else 0
  {
    assert Twice(s, i) == s[..i] + [s[i]] + s[i..];
    assert s == s[..i] + s[i..];
  }

  /** One event other than a timeout takes at most one of the acknowledgements away, and only by losing it, unless the
      server finishes. */
  lemma EndingStep(sc: Scenario, s: System, e: Event)
    requires Proper(sc) && Ending(sc, s) && Enabled(sc, s, e) && !e.Timeout?
    ensures var t := Step(sc, s, e);
            t.server.finished
            || (Ending(sc, t) && Copies(sc, t) >= Copies(sc, s) - if e.LoseReply? then 1 else 0)
  {
    EndingFacts(sc, s);
    StepInv(sc, s, e);
    var x := Reply(s.server.attempt, Expected(sc, s.server));
    match e
    case DeliverReply(i) => RemoveCounts(s.replies, i, x);
    case LoseReply(i) => RemoveCounts(s.replies, i, x);
    case DuplicateReply(i) => TwiceCounts(s.replies, i, x);
    case _ =>
  }

  lemma FinishedStep(sc: Scenario, s: System, e: Event)
    requires WellFormed(sc, s) && s.server.finished && Enabled(sc, s, e)
    ensures Step(sc, s, e).server.finished
  {
  }

  /** How many replies the network loses. */
  function Losses(events: seq<Event>): (n: nat) {
    if events == [] then 0 else (if events[0].LoseReply? then 1 else 0) + Losses(events[1..])
  }

  ghost predicate NoTimeout(events: seq<Event>) {
    forall k :: 0 <= k < |events| ==> !events[k].Timeout?
  }

  lemma {:induction false} FinishedRun(sc: Scenario, s: System, events: seq<Event>)
    requires WellFormed(sc, s) && s.server.finished && Run(sc, s, events).Some?
    ensures Run(sc, s, events).value.server.finished
    decreases |events|
  {
    if events != [] {
      FinishedStep(sc, s, events[0]);
      FinishedRun(sc, Step(sc, s, events[0]), events[1..]);
    }
  }

  lemma {:induction false} EndingRun(sc: Scenario, s: System, events: seq<Event>)
    requires Proper(sc) && Ending(sc, s) && Run(sc, s, events).Some? && NoTimeout(events)
    ensures var t := Run(sc, s, events).value;
            t.server.finished || (Ending(sc, t) && Copies(sc, t) >= Copies(sc, s) - Losses(events))
    decreases |events|
  {
    if events != [] {
      var t := Step(sc, s, events[0]);
      assert !events[0].Timeout?;
      EndingStep(sc, s, events[0]);
      if t.server.finished {
        FinishedRun(sc, t, events[1..]);
      } else {
        EndingRun(sc, t, events[1..]);
      }
    }
  }

  // ---------------------------------------------------------------------------------------------
  // With one of them left, the server can finish without the client

  ghost predicate OnlySends(events: seq<Event>) {
    forall k :: 0 <= k < |events| ==> events[k].Send?
  }

  /** The server sends the rest of its attempt; nothing else changes. */
  lemma {:induction false} SendRest(sc: Scenario, s: System) returns (sends: seq<Event>, t: System)
    requires WellFormed(sc, s) && !s.server.finished && s.server.next <= |Outgoing(sc, s.server)|
    ensures Run(sc, s, sends) == Some(t) && OnlySends(sends) && WellFormed(sc, t)
    ensures t.server == s.server.(next := |Outgoing(sc, s.server)|) && t.replies == s.replies
    decreases |Outgoing(sc, s.server)| - s.server.next
  {
    if s.server.next == |Outgoing(sc, s.server)| {
      sends, t := [], s;
    } else {
      var more;
      more, t := SendRest(sc, Step(sc, s, Send));
      sends := [Send] + more;
      assert sends[1..] == more;
    }
  }

  /** The server finishes by sending what is left of its attempt and receiving reply `j`; no packet is delivered. */
  ghost predicate SendsAndFinishes(sc: Scenario, s: System, sends: seq<Event>, j: nat)
    requires WellFormed(sc, s)
  {
    var t := Run(sc, s, sends + [DeliverReply(j)]);
    OnlySends(sends) && t.Some? && t.value.server.finished
  }

  ghost predicate FinishesByItself(sc: Scenario, s: System)
    requires WellFormed(sc, s)
  {
    exists sends, j :: SendsAndFinishes(sc, s, sends, j)
  }

  lemma FinishesAlone(sc: Scenario, s: System)
    requires Proper(sc) && Ending(sc, s) && Awaited(sc, s)
    ensures FinishesByItself(sc, s)
  {
    EndingFacts(sc, s);
    InvWellFormed(sc, s);
    var x := Reply(s.server.attempt, Expected(sc, s.server));
    var sends, u := SendRest(sc, s);
    var j :| 0 <= j < |u.replies| && u.replies[j] == x;
    RunAppend(sc, s, sends, [DeliverReply(j)]);
    RunOne(sc, u, DeliverReply(j));
    assert SendsAndFinishes(sc, s, sends, j);
  }

  // ---------------------------------------------------------------------------------------------
  // Without any, it never finishes

  lemma AbandonedStep(sc: Scenario, s: System, e: Event)
    requires Proper(sc) && Ending(sc, s) && !Awaited(sc, s) && Enabled(sc, s, e)
    ensures Ending(sc, Step(sc, s, e)) && !Awaited(sc, Step(sc, s, e))
  {
    var t := Step(sc, s, e);
    EndingFacts(sc, s);
    StepInv(sc, s, e);
    var x := Reply(t.server.attempt, Expected(sc, t.server));
    assert x in t.replies ==> x in s.replies;
    assert x in s.replies ==> ReplyInv(s, x);
  }

  lemma {:induction false} AbandonedRun(sc: Scenario, s: System, events: seq<Event>)
    requires Proper(sc) && Ending(sc, s) && !Awaited(sc, s) && Run(sc, s, events).Some?
    ensures !Run(sc, s, events).value.server.finished
    decreases |events|
  {
    if events != [] {
      AbandonedStep(sc, s, events[0]);
      AbandonedRun(sc, Step(sc, s, events[0]), events[1..]);
    }
  }

  // ---------------------------------------------------------------------------------------------
  // Main results

  /** Some run from here finishes the server. */
  ghost predicate MayFinish(sc: Scenario, s: System)
    requires WellFormed(sc, s)
  {
    exists t :: Reaches(sc, s, t) && t.server.finished
  }

  /** After the client has left, the server can finish if and only if an acknowledgement of its current attempt is still
      on its way: no timeout and no further attempt ever helps. */
  lemma FinishesIff(sc: Scenario, s: System)
    requires Proper(sc) && Reachable(sc, s) && WellFormed(sc, s) && s.client.done && !s.server.finished
    ensures MayFinish(sc, s) <==> Reply(s.server.attempt, Expected(sc, s.server)) in s.replies
  {
    ReachableInv(sc, s);
    if Awaited(sc, s) {
      FinishesAlone(sc, s);
      var sends, j :| SendsAndFinishes(sc, s, sends, j);
      assert Reaches(sc, s, Run(sc, s, sends + [DeliverReply(j)]).value);
    } else if MayFinish(sc, s) {
      var t :| Reaches(sc, s, t) && t.server.finished;
      var events :| Run(sc, s, events) == Some(t);
      AbandonedRun(sc, s, events);
    }
  }

  /** Right after the client has finished: it depends only on whether the last packet came from the server's current
      attempt. */
  lemma FinishesByOwnAttemptIff(sc: Scenario, s: System, i: nat)
    requires Proper(sc) && Reachable(sc, s) && WellFormed(sc, s) && Enabled(sc, s, Deliver(i))
    requires Step(sc, s, Deliver(i)).client.done
    ensures MayFinish(sc, Step(sc, s, Deliver(i))) <==> s.data[i].attempt == s.server.attempt
  {
    ReachableInv(sc, s);
    var t := Step(sc, s, Deliver(i));
    StepInv(sc, s, Deliver(i));
    CompletingAnswers(sc, s, i);
    ReachesItself(sc, s);
    ReachesNext(sc, s, s, Deliver(i));
    ReachableTransitively(sc, s, t);
    FinishesIff(sc, t);
    var x := Reply(s.server.attempt, Expected(sc, s.server));
    assert x in s.replies ==> ReplyInv(s, x);
    if s.data[i].attempt == s.server.attempt {
      assert t.replies[|s.replies|] == x;
    }
  }

  /** The eight acknowledgements: if the client finishes by a packet of the server's current attempt, then on every run
      from there without a timeout, as long as at most seven replies are lost, the server has finished or can do so by
      itself, sending the rest of its attempt and receiving one reply. */
  lemma SevenLosses(sc: Scenario, s: System, i: nat, events: seq<Event>)
    requires Proper(sc) && Reachable(sc, s) && WellFormed(sc, s) && Enabled(sc, s, Deliver(i))
    requires Step(sc, s, Deliver(i)).client.done && s.data[i].attempt == s.server.attempt
    requires Run(sc, Step(sc, s, Deliver(i)), events).Some?
    requires NoTimeout(events) && Losses(events) <= 7
    ensures var u := Run(sc, Step(sc, s, Deliver(i)), events).value;
            u.server.finished || FinishesByItself(sc, u)
  {
    ReachableInv(sc, s);
    var t, x := Step(sc, s, Deliver(i)), Reply(s.server.attempt, Expected(sc, s.server));
    StepInv(sc, s, Deliver(i));
    CompletingAnswers(sc, s, i);
    CopiesCount(s.replies, x, 8);
    EndingRun(sc, t, events);
    var u := Run(sc, t, events).value;
    if !u.server.finished {
      FinishesAlone(sc, u);
    }
  }

  lemma CopiesCount<T>(s: seq<T>, x: T, n: nat)
    ensures multiset(s + Repeat(x, n))[x] >= n
  {
    RepeatCounts(x, n);
  }

  lemma {:induction false} RepeatCounts<T>(x: T, n: nat)
    ensures multiset(Repeat(x, n))[x] == n
  {
    if n > 0 {
      RepeatCounts(x, n - 1);
      assert Repeat(x, n) == Repeat(x, n - 1) + [x];
    }
  }

  /** An eighth loss is one too many: if all of them are lost, no run finishes the server. */
  lemma EightLosses(sc: Scenario, s: System, i: nat) returns (losses: seq<Event>, u: System)
    requires Proper(sc) && Reachable(sc, s) && WellFormed(sc, s) && Enabled(sc, s, Deliver(i))
    requires Step(sc, s, Deliver(i)).client.done
    ensures |losses| == 8 && losses == Repeat(LoseReply(|s.replies|), 8)
    ensures Run(sc, Step(sc, s, Deliver(i)), losses) == Some(u) && !MayFinish(sc, u)
  {
    ReachableInv(sc, s);
    var t := Step(sc, s, Deliver(i));
    StepInv(sc, s, Deliver(i));
    CompletingAnswers(sc, s, i);
    losses := Repeat(LoseReply(|s.replies|), 8);
    u := t.(replies := s.replies);
    LoseCopies(sc, t, s.replies, Reply(s.data[i].attempt, Expected(sc, s.server)), 8);
    RunInv(sc, t, losses);
    var x := Reply(s.server.attempt, Expected(sc, s.server));
    assert x in s.replies ==> ReplyInv(s, x);
    if MayFinish(sc, u) {
      var v :| Reaches(sc, u, v) && v.server.finished;
      var events :| Run(sc, u, events) == Some(v);
      AbandonedRun(sc, u, events);
    }
  }

  lemma {:induction false} LoseCopies(sc: Scenario, t: System, rest: seq<Reply>, x: Reply, n: nat)
    requires WellFormed(sc, t) && t.replies == rest + Repeat(x, n)
    ensures Run(sc, t, Repeat(LoseReply(|rest|), n)) == Some(t.(replies := rest))
    decreases n
  {
    if n == 0 {
      assert rest + Repeat(x, 0) == rest;
    } else {
      var e, losses := LoseReply(|rest|), Repeat(LoseReply(|rest|), n);
      assert losses[1..] == Repeat(e, n - 1);
      assert Remove(t.replies, |rest|) == rest + Repeat(x, n - 1);
      LoseCopies(sc, Step(sc, t, e), rest, x, n - 1);
    }
  }
}
