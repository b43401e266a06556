/** Why the network must keep windows in order: the doubled sequence space is only just large enough. */
module ProtocolOrder {
  import opened Bytes
  import opened Transfer
  import opened Reassembly
  import opened Protocol
  import opened ProtocolSafety
  import opened ProtocolProgress

  // ---------------------------------------------------------------------------------------------
  // Holding packets back

  /** The same state with more packets on their way, ahead of all others. */
  function Held(s: System, fls: seq<Flight>): (t: System)
  {
    s.(data := fls + s.data)
  }

  function Shifted(e: Event, h: nat): (r: Event)
  {
    match e
    case Deliver(i) => Deliver(h + i)
    case Lose(i) => Lose(h + i)
    case Duplicate(i) => Duplicate(h + i)
    case _ => e
  }

  function AllShifted(events: seq<Event>, h: nat): (r: seq<Event>)
  {
    if events == [] then [] else [Shifted(events[0], h)] + AllShifted(events[1..], h)
  }

  function Ordered(sc: Scenario): (r: Scenario) { sc.(ordered := true) }

  lemma HeldChannel(data: seq<Flight>, i: nat, fls: seq<Flight>)
    requires i < |data|
    ensures (fls + data)[|fls| + i] == data[i]
    ensures Remove(fls + data, |fls| + i) == fls + Remove(data, i)
    ensures Twice(fls + data, |fls| + i) == fls + Twice(data, i)
  {
    var h := |fls|;
    assert (fls + data)[..h + i] == fls + data[..i];
    assert (fls + data)[h + i + 1..] == data[i + 1..];
    assert (fls + data)[..h + i + 1] == fls + data[..i + 1];
    assert (fls + data)[h + i..] == data[i..];
  }

  /** With packets held back, the event has the same effect on the rest. */
  ghost predicate SameHeld(sc: Scenario, s: System, e: Event, fls: seq<Flight>)
    requires !sc.ordered && WellFormed(Ordered(sc), s) && Enabled(Ordered(sc), s, e)
  {
    && WellFormed(sc, Held(s, fls)) && Enabled(sc, Held(s, fls), Shifted(e, |fls|))
    && Step(sc, Held(s, fls), Shifted(e, |fls|)) == Held(Step(Ordered(sc), s, e), fls)
  }

  lemma HeldSend(sc: Scenario, s: System, fls: seq<Flight>)
    requires !sc.ordered && WellFormed(Ordered(sc), s) && Enabled(Ordered(sc), s, Send)
    ensures SameHeld(sc, s, Send, fls)
  {
    var x := Step(Ordered(sc), s, Send).data[|s.data|];
    assert (fls + s.data) + [x] == fls + (s.data + [x]);
  }

  lemma HeldArrival(sc: Scenario, s: System, i: nat, fls: seq<Flight>)
    requires !sc.ordered && WellFormed(Ordered(sc), s) && i < |s.data| && s.client.collector.Some?
    ensures WellFormed(sc, Held(s, fls))
    ensures AfterDelivery(sc, Held(s, fls), |fls| + i) == Held(AfterDelivery(Ordered(sc), s, i), fls)
  {
    HeldChannel(s.data, i, fls);
  }

  lemma MayArriveHeld(sc: Scenario, s: System, i: nat, fls: seq<Flight>)
    requires !sc.ordered && WellFormed(Ordered(sc), s) && Enabled(Ordered(sc), s, Deliver(i))
    ensures WellFormed(sc, Held(s, fls)) && Enabled(sc, Held(s, fls), Deliver(|fls| + i))
  {
  }

  lemma HeldDelivery(sc: Scenario, s: System, i: nat, fls: seq<Flight>)
    requires !sc.ordered && WellFormed(Ordered(sc), s) && Enabled(Ordered(sc), s, Deliver(i))
    ensures SameHeld(sc, s, Deliver(i), fls)
  {
    MayArriveHeld(sc, s, i, fls);
    HeldArrival(sc, s, i, fls);
    SameHeldDelivery(sc, s, i, fls, Held(s, fls), AfterDelivery(Ordered(sc), s, i));
  }

  lemma SameHeldDelivery(sc: Scenario, s: System, i: nat, fls: seq<Flight>, held: System, t: System)
    requires !sc.ordered && WellFormed(Ordered(sc), s) && Enabled(Ordered(sc), s, Deliver(i))
    requires held == Held(s, fls) && WellFormed(sc, held) && Enabled(sc, held, Deliver(|fls| + i))
    requires t == AfterDelivery(Ordered(sc), s, i) && AfterDelivery(sc, held, |fls| + i) == Held(t, fls)
    ensures SameHeld(sc, s, Deliver(i), fls)
  {
    assert Step(Ordered(sc), s, Deliver(i)) == t;
    assert Step(sc, held, Deliver(|fls| + i)) == Held(t, fls);
  }

  lemma HeldLose(sc: Scenario, s: System, i: nat, fls: seq<Flight>)
    requires !sc.ordered && WellFormed(Ordered(sc), s) && Enabled(Ordered(sc), s, Lose(i))
    ensures SameHeld(sc, s, Lose(i), fls)
  {
    HeldChannel(s.data, i, fls);
  }

  lemma HeldDuplicate(sc: Scenario, s: System, i: nat, fls: seq<Flight>)
    requires !sc.ordered && WellFormed(Ordered(sc), s) && Enabled(Ordered(sc), s, Duplicate(i))
    ensures SameHeld(sc, s, Duplicate(i), fls)
  {
    HeldChannel(s.data, i, fls);
  }

  /** The events that do not concern the data channel. */
  lemma HeldOther(sc: Scenario, s: System, e: Event, fls: seq<Flight>)
    requires !sc.ordered && WellFormed(Ordered(sc), s) && Enabled(Ordered(sc), s, e)
    requires !e.Send? && !e.Deliver? && !e.Lose? && !e.Duplicate?
    ensures SameHeld(sc, s, e, fls)
  {
  }

  lemma HeldStep(sc: Scenario, s: System, e: Event, fls: seq<Flight>)
    requires !sc.ordered && WellFormed(Ordered(sc), s) && Enabled(Ordered(sc), s, e)
    ensures SameHeld(sc, s, e, fls)
  {
    match e
    case Send => HeldSend(sc, s, fls);
    case Deliver(i) => HeldDelivery(sc, s, i, fls);
    case Lose(i) => HeldLose(sc, s, i, fls);
    case Duplicate(i) => HeldDuplicate(sc, s, i, fls);
    case _ => HeldOther(sc, s, e, fls);
  }

  /** Every run of the ordered network is a run of the unordered one while packets are held back. */
  lemma {:induction false} HeldRun(sc: Scenario, s: System, events: seq<Event>, fls: seq<Flight>)
    requires !sc.ordered && WellFormed(Ordered(sc), s) && Run(Ordered(sc), s, events).Some?
    ensures WellFormed(sc, Held(s, fls))
    ensures Run(sc, Held(s, fls), AllShifted(events, |fls|)) == Some(Held(Run(Ordered(sc), s, events).value, fls))
    decreases |events|
  {
    if events != [] {
      HeldStep(sc, s, events[0], fls);
      HeldRun(sc, Step(Ordered(sc), s, events[0]), events[1..], fls);
      assert AllShifted(events, |fls|)[1..] == AllShifted(events[1..], |fls|);
    }
  }

  lemma HeldReaches(sc: Scenario, s: System, t: System, fls: seq<Flight>)
    requires !sc.ordered && WellFormed(Ordered(sc), s) && Reaches(Ordered(sc), s, t)
    ensures WellFormed(sc, Held(s, fls)) && Reaches(sc, Held(s, fls), Held(t, fls))
  {
    var events :| Run(Ordered(sc), s, events) == Some(t);
    HeldRun(sc, s, events, fls);
  }

  /** Whatever an ordered network can reach, an unordered one can. */
  lemma OrderIsNotNeeded(sc: Scenario, t: System)
    requires sc.cfg.Valid() && Reachable(Ordered(sc), t)
    ensures Reachable(sc, t)
  {
    InitialWellFormed(sc);
    if sc.ordered {
      assert Ordered(sc) == sc;
    } else {
      HeldReaches(sc, Initial, t, []);
      assert Held(Initial, []) == Initial && Held(t, []) == t;
    }
  }

  // ---------------------------------------------------------------------------------------------
  // The client collects window 2 while packets of window 0 are held back

  /** The first `h` packets of the file, as they are sent. */
  function FirstFlights(sc: Scenario, h: nat): (fls: seq<Flight>)
    requires sc.cfg.Valid() && sc.Count() > 0 && h <= |Wire(sc, 0)|
    ensures |fls| == h
  {
    seq(h, i requires 0 <= i < h => Flight(0, 0, i, Wire(sc, 0)[i]))
  }

  /** The server has sent the first `h` packets, and `data` is on its way. */
  function Started(h: nat, data: seq<Flight>): (s: System)
  {
    Initial.(server := InitialServer.(next := h), data := data)
  }

  lemma {:induction false} FirstSends(sc: Scenario, h: nat)
    requires sc.cfg.Valid() && sc.file != [] && sc.Count() > 0 && h <= |Wire(sc, 0)|
    ensures WellFormed(sc, Initial) && WellFormed(sc, Started(h, FirstFlights(sc, h)))
    ensures Reaches(sc, Initial, Started(h, FirstFlights(sc, h)))
  {
    InitialWellFormed(sc);
    if h == 0 {
      ReachesItself(sc, Initial);
    } else {
      FirstSends(sc, h - 1);
      var s := Started(h - 1, FirstFlights(sc, h - 1));
      assert Outgoing(sc, s.server) == Wire(sc, 0);
      assert Step(sc, s, Send).data == FirstFlights(sc, h);
      assert Step(sc, s, Send) == Started(h, FirstFlights(sc, h));
      ReachesNext(sc, Initial, s, Send);
    }
  }

  /** On an ordered network, the client can be made to collect window 2, with the server about to send it. */
  lemma CollectsWindowTwo(sc: Scenario, s: System) returns (t: System)
    requires Proper(sc) && sc.Count() >= 3 && Reachable(sc, s) && !s.client.done && !s.server.finished
    requires s.server.window == 0
    ensures WellFormed(sc, s) && Reaches(sc, s, t) && Reachable(sc, t)
    ensures t.client.collector.Some? && t.client.windows == 2 && Blank(t.client)
    ensures !t.server.finished && t.server.window == 2 && t.server.next == 0 && t.data == []
  {
    ReachableInv(sc, s);
    var u := OneAttemptSuffices(sc, s);
    ReachableInv(sc, u);
    var v := OneAttemptSuffices(sc, u);
    ReachableInv(sc, v);
    ReachesTransitively(sc, s, u, v);
    t := v;
    if v.client.collector.None? {
      var e := Enter(ZeroSlots(sc.cfg));
      t := Step(sc, v, e);
      ReachesNext(sc, s, v, e);
      ReachableTransitively(sc, s, t);
    }
  }

  /** The client is about to collect window 2, the server about to send it, and nothing but the first `h` packets of the
      file is on its way. */
  ghost predicate BeforeWindowTwo(sc: Scenario, s: System, h: nat)
  {
    && sc.cfg.Valid() && sc.file != [] && sc.Count() >= 3 && 1 <= h <= |Wire(sc, 0)|
    && Reachable(sc, s) && WellFormed(sc, s)
    && ClientInv(sc, s.client) && s.client.collector.Some? && s.client.windows == 2 && Blank(s.client)
    && !s.server.finished && s.server.window == 2 && s.server.next == 0 && s.server.base == Base(sc.cfg, 2)
    && s.data == FirstFlights(sc, h)
  }

  lemma HoldsBack(sc: Scenario, h: nat) returns (s: System)
    requires sc.cfg.Valid() && sc.file != [] && !sc.ordered && sc.Count() >= 3 && 1 <= h <= |Wire(sc, 0)|
    ensures BeforeWindowTwo(sc, s, h)
  {
    var sco, fls := Ordered(sc), FirstFlights(sc, h);
    FirstSends(sc, h);
    FirstSends(sco, h);
    assert FirstFlights(sco, h) == fls;
    var started, empty := Started(h, fls), Started(h, []);
    Purge(sco, started);
    assert started.(data := []) == empty;
    ReachableTransitively(sco, Initial, started) by {
      ReachesItself(sco, Initial);
    }
    ReachableTransitively(sco, started, empty);
    var t := CollectsWindowTwo(sco, empty);
    HeldReaches(sc, empty, t, fls);
    assert Held(empty, fls) == started;
    s := Held(t, fls);
    assert s.data == fls;
    ReachesTransitively(sc, Initial, started, s);
    ReachableInv(sco, t);
  }

  /** A delivery that the client takes for a packet of the window it collects, though it belongs to the window two
      before. */
  ghost predicate Mistaken(sc: Scenario, s: System, i: nat)
    requires WellFormed(sc, s) && Enabled(sc, s, Deliver(i))
  {
    var fl := s.data[i];
    var w := s.client.collector.value;
    && fl.window + 2 == s.client.windows
    && fl.raw != []
    && w.base <= Num(fl.raw[0]) < w.base + sc.cfg.windowsize
  }

  lemma UnorderedMistake(sc: Scenario) returns (s: System)
    requires sc.cfg.Valid() && sc.file != [] && !sc.ordered && sc.Count() >= 3
    ensures Reachable(sc, s) && WellFormed(sc, s) && Enabled(sc, s, Deliver(0)) && Mistaken(sc, s, 0)
  {
    WireNonEmpty(sc, 0);
    s := HoldsBack(sc, 1);
    PacketFacts(sc.cfg, sc.file, 0, 0);
  }

  /** The client can trust its range check, in every run, if and only if the network keeps windows in order or the
      file has at most two of them. */
  lemma RangeCheckSoundIff(sc: Scenario)
    requires sc.cfg.Valid() && sc.file != []
    ensures (forall s, i | Reachable(sc, s) && WellFormed(sc, s) && Enabled(sc, s, Deliver(i)) :: !Mistaken(sc, s, i))
       <==> sc.ordered || sc.Count() <= 2
  {
    if sc.ordered || sc.Count() <= 2 {
      forall s, i | Reachable(sc, s) && WellFormed(sc, s) && Enabled(sc, s, Deliver(i))
        ensures !Mistaken(sc, s, i)
      {
        ReachableInv(sc, s);
        DeliveredWindow(sc, s, i);
      }
    } else {
      var s := UnorderedMistake(sc);
    }
  }
}
