/** Progress of the transfer: an attempt whose packets all reach the client is always answered, and from every state in
    which the client still receives, one such attempt moves the server on. */
module ProtocolProgress {
  import opened Bytes
  import opened Transfer
  import opened Reassembly
  import opened Protocol
  import opened ProtocolSafety

  /** The collector has stored every block of `heard`. */
  ghost predicate Stored(heard: set<nat>, received: seq<bool>)
  {
    forall j | j in heard :: j < |received| && received[j]
  }

  ghost predicate SomeUnheard(heard: set<nat>, m: nat)
  {
    exists j | 0 <= j < m :: j !in heard
  }

  /** The blocks of the current attempt the client has heard are stored, or the window is complete; and then the
      attempt has been answered unless some of its packets have not been heard yet. */
  ghost predicate ProgressInv(sc: Scenario, s: System)
    requires sc.cfg.Valid() && s.server.window < sc.Count()
  {
    !s.server.finished ==>
      if s.client.windows == s.server.window then
        if s.client.collector.None? then s.heard == {}
        else Stored(s.heard, s.client.collector.value.received)
      else
        s.answered || SomeUnheard(s.heard, |Wire(sc, s.server.window)|)
  }

  lemma WireNonEmpty(sc: Scenario, k: nat)
    requires sc.cfg.Valid() && sc.file != [] && k < sc.Count()
    ensures 1 <= |Wire(sc, k)| <= sc.cfg.windowsize
    ensures |Wire(sc, k)| == |LayoutOf(sc, k).blocks|
  {
    BlockFacts(sc.cfg, sc.file, k);
  }

  /** A packet of the current attempt either leaves the client collecting the same window, with that block added, or
      is answered with the acknowledgement the server waits for. */
  ghost predicate Added(s: System, t: System, i: nat)
    requires i < |s.data|
  {
    && t.client.windows == s.client.windows == s.server.window
    && t.answered == s.answered
    && s.client.collector.Some? && t.client.collector.Some?
    && s.data[i].index < |s.client.collector.value.received|
    && t.client.collector.value.received == s.client.collector.value.received[s.data[i].index := true]
  }

  lemma CurrentDelivery(sc: Scenario, s: System, i: nat)
    requires Proper(sc) && Inv(sc, s) && WellFormed(sc, s)
    requires Enabled(sc, s, Deliver(i))
    requires !s.server.finished && s.data[i].attempt == s.server.attempt
    ensures var t := Step(sc, s, Deliver(i));
            && t.heard == s.heard + {s.data[i].index}
            && (Added(s, t, i) || (t.answered && t.client.windows == s.server.window + 1))
            && t.server == s.server && t.data == Remove(s.data, i)
            && (t.answered && !s.answered ==> Reply(s.server.attempt, Expected(sc, s.server)) in t.replies)
  {
    var fl, t := s.data[i], Step(sc, s, Deliver(i));
    InvWellFormed(sc, s);
    DeliveryCases(sc, s, i);
    LayoutFacts(sc, fl.window);
    WireNonEmpty(sc, fl.window);
    var answers := Answers(fl.attempt, s.client, t.client);
    if t.client.sent != s.client.sent {
      assert answers[0] == Reply(fl.attempt, Expected(sc, s.server));
    } else {
      assert answers == [];
    }
  }

  /** The block that completes a window was missing before. */
  lemma CompletingBlockWasMissing(l: Layout, received: seq<bool>, i: nat)
    requires i < |l.blocks| <= |received|
    requires !Full(l, received) && Full(l, received[i := true])
    ensures !received[i]
  {
    assert forall j | 0 <= j < |l.blocks| && j != i :: received[j] == received[i := true][j];
  }

  /** The client's side of a delivery from an earlier attempt. */
  lemma OtherClient(sc: Scenario, c: RC.Client, heard: set<nat>, i: nat, c': RC.Client)
    requires sc.cfg.Valid() && sc.file != [] && ClientInv(sc, c) && c.collector.Some?
    requires i < |Wire(sc, c.windows)| && Progressed(sc, c, i, c')
    requires Stored(heard, c.collector.value.received)
    ensures c'.windows == c.windows ==> c'.collector.Some? && Stored(heard, c'.collector.value.received)
    ensures c'.windows != c.windows ==> c'.windows == c.windows + 1 && i !in heard
  {
    LayoutFacts(sc, c.windows);
    WireNonEmpty(sc, c.windows);
    var received := c.collector.value.received;
    if c'.windows != c.windows {
      CompletingBlockWasMissing(LayoutOf(sc, c.windows), received, i);
    }
  }

  /** A packet of an earlier attempt cannot answer the current one, but if it completes the window it is one the
      current attempt has not delivered. */
  lemma OtherDelivery(sc: Scenario, s: System, i: nat)
    requires Proper(sc) && Inv(sc, s) && WellFormed(sc, s) && ProgressInv(sc, s)
    requires Enabled(sc, s, Deliver(i))
    requires !s.server.finished && s.data[i].attempt != s.server.attempt
    ensures ProgressInv(sc, Step(sc, s, Deliver(i)))
  {
    var fl, c, c' := s.data[i], s.client, Step(sc, s, Deliver(i)).client;
    DeliveryCases(sc, s, i);
    if fl.window == c.windows && c.windows == s.server.window {
      OtherClient(sc, c, s.heard, fl.index, c');
    }
  }

  lemma AddedProgress(sc: Scenario, s: System, t: System, i: nat)
    requires sc.cfg.Valid() && s.server.window < sc.Count() && ProgressInv(sc, s)
    requires i < |s.data| && !s.server.finished && t.server == s.server
    requires t.heard == s.heard + {s.data[i].index} && Added(s, t, i)
    ensures ProgressInv(sc, t)
  {
  }

  lemma DeliverProgress(sc: Scenario, s: System, i: nat)
    requires Proper(sc) && Inv(sc, s) && WellFormed(sc, s) && ProgressInv(sc, s)
    requires Enabled(sc, s, Deliver(i))
    ensures ProgressInv(sc, Step(sc, s, Deliver(i)))
  {
    if !s.server.finished {
      if s.data[i].attempt == s.server.attempt {
        var t := Step(sc, s, Deliver(i));
        CurrentDelivery(sc, s, i);
        if Added(s, t, i) {
          AddedProgress(sc, s, t, i);
        }
      } else {
        OtherDelivery(sc, s, i);
      }
    }
  }

  lemma OtherProgress(sc: Scenario, s: System, e: Event)
    requires Proper(sc) && Inv(sc, s) && WellFormed(sc, s) && ProgressInv(sc, s)
    requires Enabled(sc, s, e) && !e.Deliver?
    ensures ProgressInv(sc, Step(sc, s, e))
  {
    var t := Step(sc, s, e);
    WireNonEmpty(sc, t.server.window);
    if t.heard == {} {
      assert 0 !in t.heard;
    }
    if e.DeliverReply? {
      assert ReplyInv(s, s.replies[e.i]);
    }
  }

  lemma ProgressStep(sc: Scenario, s: System, e: Event)
    requires Proper(sc) && Inv(sc, s) && WellFormed(sc, s) && ProgressInv(sc, s)
    requires Enabled(sc, s, e)
    ensures Inv(sc, Step(sc, s, e))
    ensures ProgressInv(sc, Step(sc, s, e))
  {
    StepInv(sc, s, e);
    if e.Deliver? {
      DeliverProgress(sc, s, e.i);
    } else {
      OtherProgress(sc, s, e);
    }
  }

  lemma {:induction false} ProgressRun(sc: Scenario, s: System, events: seq<Event>)
    requires Proper(sc) && Inv(sc, s) && WellFormed(sc, s) && ProgressInv(sc, s)
    requires Run(sc, s, events).Some?
    ensures Inv(sc, Run(sc, s, events).value)
    ensures ProgressInv(sc, Run(sc, s, events).value)
    decreases |events|
  {
    if events != [] {
      ProgressStep(sc, s, events[0]);
      ProgressRun(sc, Step(sc, s, events[0]), events[1..]);
    }
  }

  lemma ReachableProgress(sc: Scenario, s: System)
    requires Proper(sc) && Reachable(sc, s)
    ensures Inv(sc, s) && WellFormed(sc, s) && ProgressInv(sc, s)
  {
    InitialWellFormed(sc);
    InitialInv(sc);
    var events :| Run(sc, Initial, events) == Some(s);
    ProgressRun(sc, Initial, events);
  }

  lemma CollectingMeansUnheard(sc: Scenario, s: System)
    requires Proper(sc) && Inv(sc, s) && ProgressInv(sc, s)
    requires !s.server.finished && s.client.windows == s.server.window
    ensures SomeUnheard(s.heard, |Wire(sc, s.server.window)|)
  {
    WireNonEmpty(sc, s.server.window);
    if s.client.collector.None? {
      assert 0 !in s.heard;
    } else {
      var l, received := LayoutOf(sc, s.server.window), s.client.collector.value.received;
      var j :| 0 <= j < |l.blocks| && !received[j];
      assert j !in s.heard;
    }
  }

  lemma HeardAllIsAnswered(sc: Scenario, s: System)
    requires Proper(sc) && Inv(sc, s) && ProgressInv(sc, s)
    requires !s.server.finished
    requires !SomeUnheard(s.heard, |Wire(sc, s.server.window)|)
    ensures s.answered
  {
    if s.client.windows == s.server.window {
      CollectingMeansUnheard(sc, s);
    }
  }

  /** In every run: if all packets of the server's current attempt have been delivered to a receiving client, in
      whatever order and with whatever else in between, the client has sent the acknowledgement the server waits
      for to the socket of that attempt. */
  lemma FullAttemptIsAnswered(sc: Scenario, s: System)
    requires Proper(sc) && Reachable(sc, s) && WellFormed(sc, s)
    requires !s.server.finished
    requires forall j | 0 <= j < |Outgoing(sc, s.server)| :: j in s.heard
    ensures s.answered
  {
    ReachableProgress(sc, s);
    InvWellFormed(sc, s);
    HeardAllIsAnswered(sc, s);
  }

  // ---------------------------------------------------------------------------------------------
  // One undisturbed attempt

  /** Windows the server has not left yet. */
  function Remaining(sc: Scenario, v: Server): (r: int)
    requires sc.cfg.Valid()
  {
    if v.finished then 0 else sc.Count() - v.window
  }

  lemma ReachesItself(sc: Scenario, s: System)
    requires WellFormed(sc, s)
    ensures Reaches(sc, s, s)
  {
    assert Run(sc, s, []) == Some(s);
  }

  lemma ReachesNext(sc: Scenario, s: System, t: System, e: Event)
    requires WellFormed(sc, s) && Reaches(sc, s, t) && WellFormed(sc, t) && Enabled(sc, t, e)
    ensures Reaches(sc, s, Step(sc, t, e))
  {
    RunOne(sc, t, e);
    ReachesTransitively(sc, s, t, Step(sc, t, e));
  }

  /** The network may lose all that is on its way. */
  lemma {:induction false} Purge(sc: Scenario, s: System)
    requires WellFormed(sc, s)
    ensures WellFormed(sc, s.(data := [])) && Reaches(sc, s, s.(data := []))
    decreases |s.data|
  {
    ReachesItself(sc, s);
    if s.data != [] {
      var t := Step(sc, s, Lose(0));
      ReachesNext(sc, s, s, Lose(0));
      Purge(sc, t);
      ReachesTransitively(sc, s, t, s.(data := []));
    } else {
      assert s == s.(data := []);
    }
  }

  /** The server may finish its attempt with all of the remaining packets lost. */
  lemma {:induction false} SendAndLose(sc: Scenario, s: System)
    requires WellFormed(sc, s) && s.data == [] && !s.server.finished
    requires s.server.next <= |Outgoing(sc, s.server)|
    ensures var t := s.(server := s.server.(next := |Outgoing(sc, s.server)|));
            WellFormed(sc, t) && Reaches(sc, s, t)
    decreases |Outgoing(sc, s.server)| - s.server.next
  {
    ReachesItself(sc, s);
    if s.server.next < |Outgoing(sc, s.server)| {
      var a := Step(sc, s, Send);
      ReachesNext(sc, s, s, Send);
      var b := Step(sc, a, Lose(0));
      ReachesNext(sc, s, a, Lose(0));
      SendAndLose(sc, b);
      ReachesTransitively(sc, s, b, s.(server := s.server.(next := |Outgoing(sc, s.server)|)));
    } else {
      assert s == s.(server := s.server.(next := |Outgoing(sc, s.server)|));
    }
  }

  // ---------------------------------------------------------------------------------------------
  // Runs that lose nothing of an attempt

  /** The event loses no packet and no reply of attempt `a`, and does not end it by a timeout. */
  ghost predicate Spares(s: System, e: Event, a: nat)
  {
    match e
    case Timeout => s.server.attempt != a
    case Lose(i) => i < |s.data| ==> s.data[i].attempt != a
    case LoseReply(i) => i < |s.replies| ==> s.replies[i].attempt != a
    case _ => true
  }

  ghost predicate AllSpare(sc: Scenario, s: System, events: seq<Event>, a: nat)
    requires WellFormed(sc, s) && Run(sc, s, events).Some?
    decreases |events|
  {
    events != [] ==> Spares(s, events[0], a) && AllSpare(sc, Step(sc, s, events[0]), events[1..], a)
  }

  ghost predicate ReachesSparing(sc: Scenario, s: System, t: System, a: nat)
    requires WellFormed(sc, s)
  {
    exists events :: Run(sc, s, events) == Some(t) && AllSpare(sc, s, events, a)
  }

  lemma {:induction false} AllSpareAppend(sc: Scenario, s: System, first: seq<Event>, t: System, second: seq<Event>,
                                          a: nat)
    requires WellFormed(sc, s) && Run(sc, s, first) == Some(t) && AllSpare(sc, s, first, a)
    requires Run(sc, t, second).Some? && AllSpare(sc, t, second, a)
    ensures Run(sc, s, first + second) == Run(sc, t, second) && AllSpare(sc, s, first + second, a)
    decreases |first|
  {
    RunAppend(sc, s, first, second);
    if first == [] {
      assert first + second == second;
    } else {
      assert (first + second)[1..] == first[1..] + second;
      AllSpareAppend(sc, Step(sc, s, first[0]), first[1..], t, second, a);
    }
  }

  lemma SparingItself(sc: Scenario, s: System, a: nat)
    requires WellFormed(sc, s)
    ensures ReachesSparing(sc, s, s, a)
  {
    assert Run(sc, s, []) == Some(s) && AllSpare(sc, s, [], a);
  }

  lemma SparingTransitively(sc: Scenario, s: System, t: System, u: System, a: nat)
    requires WellFormed(sc, s) && ReachesSparing(sc, s, t, a) && WellFormed(sc, t) && ReachesSparing(sc, t, u, a)
    ensures ReachesSparing(sc, s, u, a)
  {
    var first :| Run(sc, s, first) == Some(t) && AllSpare(sc, s, first, a);
    var second :| Run(sc, t, second) == Some(u) && AllSpare(sc, t, second, a);
    AllSpareAppend(sc, s, first, t, second, a);
  }

  lemma SparingNext(sc: Scenario, s: System, t: System, e: Event, a: nat)
    requires WellFormed(sc, s) && ReachesSparing(sc, s, t, a) && WellFormed(sc, t) && Enabled(sc, t, e) && Spares(t, e, a)
    ensures ReachesSparing(sc, s, Step(sc, t, e), a)
  {
    RunOne(sc, t, e);
    assert [e][1..] == [];
    assert AllSpare(sc, t, [e], a);
    SparingTransitively(sc, s, t, Step(sc, t, e), a);
  }

  lemma SparingReaches(sc: Scenario, s: System, t: System, a: nat)
    requires WellFormed(sc, s) && ReachesSparing(sc, s, t, a)
    ensures Reaches(sc, s, t)
  {
  }

  function ZeroSlots(cfg: Config): (slots: seq<seq<byte>>)
    ensures RC.SlotsShaped(cfg, slots)
  {
    Repeat(Repeat(0, cfg.blocksize), cfg.windowsize)
  }

  /** In the middle of an attempt none of whose packets and replies are lost. */
  ghost predicate Undisturbed(sc: Scenario, s: System)
  {
    && Proper(sc) && Inv(sc, s) && WellFormed(sc, s) && ProgressInv(sc, s)
    && !s.server.finished && (!s.answered ==> s.data == [])
    && (if s.answered then Reply(s.server.attempt, Expected(sc, s.server)) in s.replies
        else !s.client.done && forall j | 0 <= j < s.server.next :: j in s.heard)
  }

  /** The packet sent last is on its way and all before it have been heard. */
  ghost predicate OneOnItsWay(sc: Scenario, s: System)
  {
    && Proper(sc) && Inv(sc, s) && WellFormed(sc, s) && ProgressInv(sc, s)
    && !s.server.finished && !s.answered && !s.client.done && s.client.collector.Some?
    && |s.data| == 1 && s.data[0].attempt == s.server.attempt && s.data[0].index + 1 == s.server.next
    && forall j | 0 <= j < s.server.next - 1 :: j in s.heard
  }

  lemma SentFurther(sc: Scenario, s: System)
    requires Undisturbed(sc, s) && s.server.next < |Wire(sc, s.server.window)| && !s.answered
    requires s.client.collector.Some?
    ensures Enabled(sc, s, Send) && OneOnItsWay(sc, Step(sc, s, Send))
    ensures Step(sc, s, Send).server == s.server.(next := s.server.next + 1)
  {
    InvWellFormed(sc, s);
    ProgressStep(sc, s, Send);
  }

  /** The packets before the one that has just been heard have been heard, too. */
  lemma AllHeard(heard: set<nat>, index: nat)
    requires forall j | 0 <= j < index :: j in heard
    ensures forall j | 0 <= j < index + 1 :: j in heard + {index}
  {
  }

  lemma HeardOrAnswered(sc: Scenario, s: System, t: System)
    requires OneOnItsWay(sc, s)
    requires Inv(sc, t) && WellFormed(sc, t) && ProgressInv(sc, t)
    requires t.server == s.server && t.data == [] && t.heard == s.heard + {s.data[0].index}
    requires Added(s, t, 0) || t.answered
    requires t.answered ==> Reply(s.server.attempt, Expected(sc, s.server)) in t.replies
    ensures Undisturbed(sc, t)
  {
    if !t.answered {
      AllHeard(s.heard, s.data[0].index);
      assert t.client.windows < sc.Count();
    }
  }

  lemma HearsIt(sc: Scenario, s: System)
    requires OneOnItsWay(sc, s)
    ensures Enabled(sc, s, Deliver(0)) && Undisturbed(sc, Step(sc, s, Deliver(0)))
    ensures Step(sc, s, Deliver(0)).server == s.server
  {
    CurrentDelivery(sc, s, 0);
    ProgressStep(sc, s, Deliver(0));
    HeardOrAnswered(sc, s, Step(sc, s, Deliver(0)));
  }

  /** Before the answer: the next packet is sent and delivered. */
  lemma HeardFurther(sc: Scenario, s: System, a: nat) returns (t: System)
    requires Undisturbed(sc, s) && s.server.next < |Wire(sc, s.server.window)| && !s.answered
    requires s.client.collector.Some?
    ensures Undisturbed(sc, t) && ReachesSparing(sc, s, t, a)
    ensures t.server == s.server.(next := s.server.next + 1)
  {
    SparingItself(sc, s, a);
    SentFurther(sc, s);
    var b := Step(sc, s, Send);
    SparingNext(sc, s, s, Send, a);
    HearsIt(sc, b);
    t := Step(sc, b, Deliver(0));
    SparingNext(sc, s, b, Deliver(0), a);
  }

  /** After the answer: the rest of the attempt is sent, and need not arrive. */
  lemma AnsweredFurther(sc: Scenario, s: System, a: nat) returns (t: System)
    requires Undisturbed(sc, s) && s.server.next < |Wire(sc, s.server.window)| && s.answered
    ensures Undisturbed(sc, t) && ReachesSparing(sc, s, t, a)
    ensures t.server == s.server.(next := s.server.next + 1)
  {
    InvWellFormed(sc, s);
    SparingItself(sc, s, a);
    ProgressStep(sc, s, Send);
    t := Step(sc, s, Send);
    SparingNext(sc, s, s, Send, a);
  }

  lemma Entered(sc: Scenario, s: System, a: nat) returns (t: System)
    requires Undisturbed(sc, s) && !s.answered
    ensures Undisturbed(sc, t) && ReachesSparing(sc, s, t, a)
    ensures t.server == s.server && !t.answered && t.client.collector.Some?
  {
    SparingItself(sc, s, a);
    t := s;
    if s.client.collector.None? {
      var e := Enter(ZeroSlots(sc.cfg));
      t := Step(sc, s, e);
      ProgressStep(sc, s, e);
      SparingNext(sc, s, s, e, a);
    }
  }

  lemma OnePacketFurther(sc: Scenario, s: System, a: nat) returns (t: System)
    requires Undisturbed(sc, s) && s.server.next < |Wire(sc, s.server.window)|
    ensures Undisturbed(sc, t) && ReachesSparing(sc, s, t, a)
    ensures t.server == s.server.(next := s.server.next + 1)
  {
    if s.answered {
      t := AnsweredFurther(sc, s, a);
    } else {
      var u := Entered(sc, s, a);
      t := HeardFurther(sc, u, a);
      SparingTransitively(sc, s, u, t, a);
    }
  }

  lemma {:induction false} WholeAttempt(sc: Scenario, s: System, a: nat) returns (t: System)
    requires Undisturbed(sc, s)
    ensures Undisturbed(sc, t) && ReachesSparing(sc, s, t, a)
    ensures t.server == s.server.(next := |Wire(sc, s.server.window)|)
    decreases |Wire(sc, s.server.window)| - s.server.next
  {
    if s.server.next < |Wire(sc, s.server.window)| {
      var u := OnePacketFurther(sc, s, a);
      t := WholeAttempt(sc, u, a);
      SparingTransitively(sc, s, u, t, a);
    } else {
      t := s;
      SparingItself(sc, s, a);
    }
  }

  /** The present attempt is given up: all that is on its way is lost, and the next attempt begins. */
  lemma GivesUp(sc: Scenario, s: System) returns (t: System)
    requires Proper(sc) && Reachable(sc, s) && WellFormed(sc, s)
    requires !s.client.done && !s.server.finished
    ensures Reaches(sc, s, t) && Reachable(sc, t) && Undisturbed(sc, t)
    ensures t.server == s.server.(attempt := s.server.attempt + 1, next := 0)
  {
    ReachableProgress(sc, s);
    InvWellFormed(sc, s);
    Purge(sc, s);
    var a := s.(data := []);
    SendAndLose(sc, a);
    var b := a.(server := a.server.(next := |Outgoing(sc, a.server)|));
    ReachesTransitively(sc, s, a, b);
    ReachableTransitively(sc, s, b);
    ReachableProgress(sc, b);
    ProgressStep(sc, b, Timeout);
    t := Step(sc, b, Timeout);
    ReachesNext(sc, s, b, Timeout);
    ReachableTransitively(sc, s, t);
  }

  /** Nothing of the window being collected has been stored. */
  ghost predicate Blank(c: RC.Client)
  {
    c.collector.Some? ==> forall j | 0 <= j < |c.collector.value.received| :: !c.collector.value.received[j]
  }

  /** The acknowledgement that waits for the server gets it out of the window. */
  lemma LeavesOnAnswer(sc: Scenario, s: System) returns (i: nat)
    requires Proper(sc) && Reachable(sc, s) && WellFormed(sc, s) && Waiting(sc, s.server)
    requires Reply(s.server.attempt, Expected(sc, s.server)) in s.replies
    ensures Enabled(sc, s, DeliverReply(i)) && Reachable(sc, Step(sc, s, DeliverReply(i)))
    ensures var t := Step(sc, s, DeliverReply(i));
            t.server == Advanced(sc, s.server) && t.client.windows == s.server.window + 1 && Blank(t.client)
  {
    ReachableInv(sc, s);
    i :| 0 <= i < |s.replies| && s.replies[i] == Reply(s.server.attempt, Expected(sc, s.server));
    AckSound(sc, s, i);
    ReachesItself(sc, s);
    ReachesNext(sc, s, s, DeliverReply(i));
    ReachableTransitively(sc, s, Step(sc, s, DeliverReply(i)));
  }

  lemma AnswerIsThere(sc: Scenario, s: System)
    requires Undisturbed(sc, s) && s.server.next == |Wire(sc, s.server.window)|
    ensures Waiting(sc, s.server) && Reply(s.server.attempt, Expected(sc, s.server)) in s.replies
  {
    InvWellFormed(sc, s);
    if !s.answered {
      HeardAllIsAnswered(sc, s);
    }
  }

  /** An attempt that is undisturbed from its beginning gets the server out of the window. */
  lemma Undeterred(sc: Scenario, s: System) returns (t: System)
    requires Undisturbed(sc, s) && Reachable(sc, s)
    ensures ReachesSparing(sc, s, t, s.server.attempt) && Reachable(sc, t)
    ensures t.server == Advanced(sc, s.server.(next := |Wire(sc, s.server.window)|))
    ensures t.client.windows == s.server.window + 1 && Blank(t.client)
  {
    var a := s.server.attempt;
    var v := WholeAttempt(sc, s, a);
    SparingReaches(sc, s, v, a);
    ReachableTransitively(sc, s, v);
    AnswerIsThere(sc, v);
    var i := LeavesOnAnswer(sc, v);
    t := Step(sc, v, DeliverReply(i));
    SparingNext(sc, s, v, DeliverReply(i), a);
  }

  /** From every reachable state in which the client still receives, some run makes the server leave its window with two
      attempts: the present one is given up and the next one goes through. Unless that was the last window, the client
      again receives, with nothing stored. */
  lemma OneAttemptSuffices(sc: Scenario, s: System) returns (t: System)
    requires Proper(sc) && Reachable(sc, s)
    requires !s.client.done && !s.server.finished
    ensures WellFormed(sc, s) && Reaches(sc, s, t) && Reachable(sc, t)
    ensures Remaining(sc, t.server) == Remaining(sc, s.server) - 1 && t.server.attempt == s.server.attempt + 2
    ensures !t.server.finished ==> t.server.next == 0 && t.data == []
    ensures !t.server.finished ==> !t.client.done && t.client.windows == t.server.window && Blank(t.client)
  {
    ReachableInv(sc, s);
    var u := GivesUp(sc, s);
    var v := Undeterred(sc, u);
    SparingReaches(sc, u, v, u.server.attempt);
    ReachesTransitively(sc, s, u, v);
    ReachableInv(sc, v);
    Purge(sc, v);
    t := v.(data := []);
    ReachesTransitively(sc, s, v, t);
    ReachableTransitively(sc, s, t);
  }

  lemma ReachableTransitively(sc: Scenario, s: System, t: System)
    requires sc.cfg.Valid() && Reachable(sc, s) && WellFormed(sc, s) && Reaches(sc, s, t)
    ensures Reachable(sc, t)
  {
    InitialWellFormed(sc);
    ReachesTransitively(sc, Initial, s, t);
  }

  /** Two attempts for each remaining window, of which one goes through, are enough to finish. */
  lemma {:induction false} CanFinish(sc: Scenario, s: System) returns (t: System)
    requires Proper(sc) && Reachable(sc, s)
    requires !s.client.done || s.server.finished
    ensures WellFormed(sc, s) && Reaches(sc, s, t) && Reachable(sc, t)
    ensures t.server.finished && t.client.done
    ensures t.server.attempt == s.server.attempt + 2 * Remaining(sc, s.server)
    decreases Remaining(sc, s.server)
  {
    ReachableInv(sc, s);
    if s.server.finished {
      t := s;
      ReachesItself(sc, s);
    } else {
      var u := OneAttemptSuffices(sc, s);
      ReachableInv(sc, u);
      t := CanFinish(sc, u);
      ReachesTransitively(sc, s, u, t);
    }
  }
}
