/** What the return paths are good for: on every run of a chain of routers, replies reach the first sender. */
module ZigzagReplies {
  import opened Bytes
  import opened ZigzagRouter
  import opened ZigzagNetwork
  import opened ZigzagPaths

  ghost predicate Runs(chain: Chain, net: Network, events: seq<Event>, end: Network)
    decreases |events|
  {
    if events == [] then end == net
    else
      && |net.routers| == |chain.routers| > 0 && Enabled(chain, net, events[0])
      && Runs(chain, Step(chain, net, events[0]), events[1..], end)
  }

  /** No control message among the events. */
  ghost predicate Quiet(events: seq<Event>) {
    forall k :: 0 <= k < |events| ==> !events[k].Control?
  }

  ghost predicate OnlyArrivals(events: seq<Event>) {
    forall k :: 0 <= k < |events| ==> events[k].Arrive?
  }

  /** The states of all runs since the control messages that set the chain up. */
  ghost predicate Reachable(chain: Chain, net: Network) {
    chain.Valid() && exists events :: Quiet(events) && Runs(chain, Initial(chain), events, net)
  }

  lemma {:induction false} RunsInv(chain: Chain, net: Network, events: seq<Event>, end: Network)
    requires Inv(chain, net) && Runs(chain, net, events, end) && Quiet(events)
    ensures Inv(chain, end) && Grows(chain, net, end)
    decreases |events|
  {
    if events != [] {
      StepInv(chain, net, events[0]);
      RunsInv(chain, Step(chain, net, events[0]), events[1..], end);
    }
  }

  lemma InitialInv(chain: Chain)
    requires chain.Valid()
    ensures Inv(chain, Initial(chain))
  {
    var net := Initial(chain);
    forall i: nat | i < |net.routers| ensures RouterInv(chain, net, i) {
      assert i == 0 || chain.routers[i].returnPath == Some(FILL_IN)
          || chain.routers[i].returnPath == Some(chain.routers[i - 1].ReturnAddr());
    }
  }

  lemma ReachableInv(chain: Chain, net: Network)
    requires Reachable(chain, net)
    ensures Inv(chain, net)
  {
    var events :| Quiet(events) && Runs(chain, Initial(chain), events, net);
    InitialInv(chain);
    RunsInv(chain, Initial(chain), events, net);
  }

  lemma RunsOne(chain: Chain, net: Network, e: Event, events: seq<Event>, end: Network)
    requires |net.routers| == |chain.routers| > 0 && Enabled(chain, net, e)
    requires Runs(chain, Step(chain, net, e), events, end)
    ensures Runs(chain, net, [e] + events, end)
  {
    assert ([e] + events)[1..] == events;
  }

  // ---------------------------------------------------------------------------------------------
  // Main results

  /** Once one datagram has come through, every return path is the exact reverse of the forward chain, beginning at the
      first sender, and no later event but a control message changes any of them. */
  lemma ReversePaths(chain: Chain, net: Network, events: seq<Event>, end: Network)
    requires Reachable(chain, net) && net.atDestination != []
    requires Runs(chain, net, events, end) && Quiet(events)
    ensures net.first.Some? && end.first == net.first
    ensures |end.routers| == |chain.routers|
    ensures forall i :: 0 <= i < |chain.routers| ==>
              end.routers[i] == chain.routers[i].(returnPath := Some(Before(chain, net.first.value, i)))
  {
    ReachableInv(chain, net);
    RunsInv(chain, net, events, end);
    assert Received(chain, net, net.atDestination[0]);
    assert Learned(chain, net, 0);
    forall i: nat | i < |chain.routers|
      ensures end.routers[i] == chain.routers[i].(returnPath := Some(Before(chain, net.first.value, i)))
    {
      assert Learned(chain, net, i) && RouterInv(chain, end, i);
    }
  }

  /** The routers that a datagram has passed have learned; so the chain learns from its first router on. */
  lemma LearnsInOrder(chain: Chain, net: Network, k: nat, i: nat)
    requires Reachable(chain, net) && k < |net.flight| && i < |chain.routers|
    requires net.flight[k].source == chain.routers[i].ReturnAddr()
    ensures |net.routers| == |chain.routers|
    ensures forall j: nat :: j <= i ==> Learned(chain, net, j)
  {
    ReachableInv(chain, net);
    var d := net.flight[k];
    assert DatagramInv(chain, net, d);
    if leg: nat :| OnForwardLeg(chain, net, d, leg) {
      assert leg == i + 1;
    }
  }

  /** Nothing arrives that was not sent, and whatever arrives at a sender goes to the first one and comes from the
      first router. */
  lemma OnlyToTheFirstSender(chain: Chain, net: Network)
    requires Reachable(chain, net)
    ensures forall k :: 0 <= k < |net.atDestination| ==> PayloadOf(net.atDestination[k].payload, net.sent, true)
    ensures forall k :: 0 <= k < |net.atSenders| ==>
              && net.first == Some(net.atSenders[k].destination)
              && net.atSenders[k].source == chain.routers[0].ReturnAddr()
              && PayloadOf(net.atSenders[k].payload, net.replied, true)
  {
    ReachableInv(chain, net);
    forall k | 0 <= k < |net.atDestination| ensures PayloadOf(net.atDestination[k].payload, net.sent, true) {
      assert Received(chain, net, net.atDestination[k]);
    }
    forall k | 0 <= k < |net.atSenders|
      ensures net.first == Some(net.atSenders[k].destination)
      ensures net.atSenders[k].source == chain.routers[0].ReturnAddr()
      ensures PayloadOf(net.atSenders[k].payload, net.replied, true)
    {
      assert Answered(chain, net, net.atSenders[k]);
    }
  }

  lemma ArrivalsFirst(e: Event, more: seq<Event>)
    requires e.Arrive? && OnlyArrivals(more)
    ensures OnlyArrivals([e] + more)
  {
  }

  /** A reply on leg `i` is passed on by router `i` - 1. */
  lemma ReturnStep(chain: Chain, net: Network, rest: seq<Datagram>, d: Datagram, i: nat) returns (out: Datagram)
    requires Inv(chain, net) && net.flight == rest + [d] && OnReturnLeg(chain, net, d, i) && i > 0
    ensures out.payload == Cut(d.payload)
    ensures var e, next := Arrive(|rest|, false, ReturnSocket(i - 1)), net.(flight := rest + [out]);
            && Enabled(chain, net, e) && Step(chain, net, e) == next
            && Inv(chain, next) && OnReturnLeg(chain, next, out, i - 1)
  {
    var e := Arrive(|rest|, false, ReturnSocket(i - 1));
    assert Without(net.flight, |rest|) == rest;
    assert net.flight[|rest|] == d;
    SameSockets(chain, net, d.destination, e.place);
    OutgoingReply(chain, net, d, i - 1);
    out := Outgoing(net.routers[i - 1], net.routers[i - 1].returnPath, d.payload).value;
    StepInv(chain, net, e);
    ReturnLegKept(chain, net, net.(flight := rest + [out]), out, i - 1);
  }

  /** A reply on the last leg arrives at the first sender. */
  lemma ReturnEnd(chain: Chain, net: Network, rest: seq<Datagram>, d: Datagram)
    requires Inv(chain, net) && net.flight == rest + [d] && OnReturnLeg(chain, net, d, 0)
    ensures d == Datagram(chain.routers[0].ReturnAddr(), net.first.value, d.payload)
    ensures var e := Arrive(|rest|, false, Elsewhere);
            Enabled(chain, net, e) && Step(chain, net, e) == net.(flight := rest, atSenders := net.atSenders + [d])
  {
    assert Without(net.flight, |rest|) == rest;
    assert net.flight[|rest|] == d;
    SameSockets(chain, net, d.destination, Elsewhere);
  }

  /** From leg `i` a reply reaches the first sender in exactly `i` forwarding steps and one arrival. */
  lemma {:induction false} Returns(chain: Chain, net: Network, rest: seq<Datagram>, d: Datagram, i: nat)
    returns (events: seq<Event>, end: Network)
    requires Inv(chain, net) && net.flight == rest + [d] && OnReturnLeg(chain, net, d, i)
    ensures Runs(chain, net, events, end) && |events| == i + 1 && OnlyArrivals(events)
    ensures end == net.(flight := rest,
                        atSenders := net.atSenders + [Datagram(chain.routers[0].ReturnAddr(), net.first.value,
                                                               if i == 0 then d.payload else Cut(d.payload))])
    decreases i
  {
    if i == 0 {
      ReturnEnd(chain, net, rest, d);
      var e := Arrive(|rest|, false, Elsewhere);
      end := net.(flight := rest, atSenders := net.atSenders + [d]);
      events := [e];
      RunsOne(chain, net, e, [], end);
    } else {
      var e := Arrive(|rest|, false, ReturnSocket(i - 1));
      var out := ReturnStep(chain, net, rest, d, i);
      var more;
      more, end := Returns(chain, net.(flight := rest + [out]), rest, out, i - 1);
      events := [e] + more;
      ArrivalsFirst(e, more);
      RunsOne(chain, net, e, more, end);
    }
  }

  /** From every reachable state in which something has reached the destination, a reply reaches the first sender in
      exactly as many forwarding steps as there are routers; it is unchanged up to the size of the buffer. */
  lemma ReplyReachesFirstSender(chain: Chain, net: Network, k: nat, answer: seq<byte>)
    returns (events: seq<Event>, end: Network)
    requires Reachable(chain, net) && k < |net.atDestination|
    ensures Runs(chain, net, [Reply(k, answer)] + events, end)
    ensures |events| == |chain.routers| + 1 && OnlyArrivals(events)
    ensures net.first.Some?
    ensures end == net.(replied := net.replied + {answer},
                        atSenders := net.atSenders
                          + [Datagram(chain.routers[0].ReturnAddr(), net.first.value,
                                      if |answer| <= 4096 then answer else answer[..4096])])
  {
    ReachableInv(chain, net);
    ReplyStep(chain, net, k, answer);
    var next := Step(chain, net, Reply(k, answer));
    var d := next.flight[|net.flight|];
    events, end := Returns(chain, next, net.flight, d, |chain.routers|);
    RunsOne(chain, net, Reply(k, answer), events, end);
  }

  /** From leg `i` a message reaches the destination after passing the routers that are left. */
  lemma {:induction false} Passes(chain: Chain, net: Network, rest: seq<Datagram>, d: Datagram, i: nat)
    returns (events: seq<Event>, end: Network)
    requires Inv(chain, net) && net.flight == rest + [d] && OnForwardLeg(chain, net, d, i)
    ensures Runs(chain, net, events, end) && |events| == |chain.routers| - i + 1 && OnlyArrivals(events)
    ensures end.flight == rest && end.atSenders == net.atSenders
    ensures end.atDestination == net.atDestination
              + [Datagram(chain.routers[|chain.routers| - 1].ReturnAddr(), chain.destination,
                          if i == |chain.routers| then d.payload else Cut(d.payload))]
    ensures end.first == if i == 0 && net.first.None? then Some(d.source) else net.first
    decreases |chain.routers| - i
  {
    var e := Arrive(|rest|, false, if i == |chain.routers| then Destination else ForwardSocket(i));
    assert Without(net.flight, |rest|) == rest;
    assert net.flight[|rest|] == d;
    SameSockets(chain, net, d.destination, e.place);
    assert Enabled(chain, net, e);
    var next := Step(chain, net, e);
    if i == |chain.routers| {
      end := next;
      events := [e];
      RunsOne(chain, net, e, [], end);
    } else {
      ForwardSocketStep(chain, net, d, i, rest);
      OutgoingForward(chain, net, d, i, next);
      var out := Outgoing(next.routers[i], next.routers[i].forwardPath, d.payload).value;
      var more;
      more, end := Passes(chain, next, rest, out, i + 1);
      events := [e] + more;
      ArrivalsFirst(e, more);
      RunsOne(chain, net, e, more, end);
    }
  }

  /** From every reachable state a message can get through, so that the chain has learned. */
  lemma MessageReachesDestination(chain: Chain, net: Network, from: Addr, message: seq<byte>)
    returns (events: seq<Event>, end: Network)
    requires Reachable(chain, net) && chain.Outside(from)
    ensures Runs(chain, net, [Send(from, message)] + events, end)
    ensures |events| == |chain.routers| + 1 && OnlyArrivals(events)
    ensures end.flight == net.flight && end.atSenders == net.atSenders
    ensures end.atDestination == net.atDestination
              + [Datagram(chain.routers[|chain.routers| - 1].ReturnAddr(), chain.destination,
                          if |message| <= 4096 then message else message[..4096])]
    ensures end.first == if net.first.None? then Some(from) else net.first
  {
    ReachableInv(chain, net);
    SameSockets(chain, net, from, Elsewhere);
    SendStep(chain, net, from, message);
    var next := Step(chain, net, Send(from, message));
    events, end := Passes(chain, next, net.flight, next.flight[|net.flight|], 0);
    RunsOne(chain, net, Send(from, message), events, end);
  }

  // ---------------------------------------------------------------------------------------------
  // What the network may do

  /** From any state, the network may lose all that is under way, one datagram at a time, and nothing else changes. */
  lemma {:induction false} Settles(chain: Chain, net: Network) returns (events: seq<Event>)
    requires |net.routers| == |chain.routers| > 0
    ensures Runs(chain, net, events, net.(flight := [])) && |events| == |net.flight|
    ensures forall k :: 0 <= k < |events| ==> events[k] == Lose(0)
    decreases |net.flight|
  {
    events := [];
    if net.flight != [] {
      assert Without(net.flight, 0) == net.flight[1..];
      var next := Step(chain, net, Lose(0));
      events := Settles(chain, next);
      RunsOne(chain, net, Lose(0), events, net.(flight := []));
      events := [Lose(0)] + events;
    }
  }

  /** A datagram to the destination may arrive any number of times. */
  lemma {:induction false} ArrivesOften(chain: Chain, net: Network, k: nat, n: nat) returns (events: seq<Event>)
    requires |net.routers| == |chain.routers| > 0
    requires k < |net.flight| && net.flight[k].destination == chain.destination
    ensures OnlyArrivals(events) && |events| == n
    ensures Runs(chain, net, events, net.(atDestination := net.atDestination + Repeat(net.flight[k], n)))
    decreases n
  {
    events := [];
    if n > 0 {
      var e, d := Arrive(k, true, Destination), net.flight[k];
      var next := Step(chain, net, e);
      events := ArrivesOften(chain, next, k, n - 1);
      assert (net.atDestination + [d]) + Repeat(d, n - 1) == net.atDestination + Repeat(d, n);
      RunsOne(chain, net, e, events, net.(atDestination := net.atDestination + Repeat(d, n)));
      ArrivalsFirst(e, events);
      events := [e] + events;
    } else {
      assert net.atDestination + Repeat(net.flight[k], 0) == net.atDestination;
    }
  }

  // ---------------------------------------------------------------------------------------------
  // Control messages

  /** No event is a control message to router `i`. */
  ghost predicate Undirected(events: seq<Event>, i: nat) {
    forall k :: 0 <= k < |events| ==> !(events[k].Control? && events[k].router == i)
  }

  /** On any run at all, from any state, and whatever control messages go to other routers: a router that has a return
      path keeps it, and all else it has been told, until the next control message to itself. */
  lemma {:induction false} KeptUntilControl(chain: Chain, net: Network, events: seq<Event>, end: Network, i: nat)
    requires Runs(chain, net, events, end) && Undirected(events, i)
    requires i < |net.routers| == |chain.routers| && net.routers[i].returnPath != Some(FILL_IN)
    ensures i < |end.routers| && end.routers[i] == net.routers[i]
    decreases |events|
  {
    if events != [] {
      assert !(events[0].Control? && events[0].router == i);
      KeptUntilControl(chain, Step(chain, net, events[0]), events[1..], end, i);
    }
  }

  /** The network with its history forgotten. */
  function Forgetful(net: Network): (r: Network) { Network(net.routers, net.flight, [], [], None, {}, {}) }

  /** A control message that makes the first router learn again, when nothing is under way, leaves the network as at its
      beginning: the chain is valid as it now is, and the next sender that gets through is the first one. */
  lemma LearnsAgain(chain: Chain, net: Network, message: Configuration, chosenForward: nat, chosenReturn: nat)
    requires Reachable(chain, net) && net.flight == []
    requires message == Configuration(chain.routers[0].forwardPort, chain.Hop(1), chain.routers[0].returnPort, FILL_IN)
    ensures Enabled(chain, net, Control(0, message, chosenForward, chosenReturn)) && |net.routers| == |chain.routers|
    ensures var next := Step(chain, net, Control(0, message, chosenForward, chosenReturn));
            Present(chain, next).Valid() && Forgetful(next) == Initial(Present(chain, next))
  {
    ReachableInv(chain, net);
    var next := Step(chain, net, Control(0, message, chosenForward, chosenReturn));
    var now := Present(chain, next);
    forall i: nat | i < |chain.routers|
      ensures next.routers[i] == chain.routers[i].(returnPath := next.routers[i].returnPath)
      ensures now.Hop(i) == chain.Hop(i)
      ensures i == 0 ==> next.routers[i].returnPath == Some(FILL_IN)
      ensures i > 0 ==> next.routers[i].returnPath == Some(FILL_IN)
                        || next.routers[i].returnPath == Some(chain.routers[i - 1].ReturnAddr())
    {
      assert RouterInv(chain, net, i);
    }
    SameButReturnPaths(chain, now);
  }

  lemma SameButReturnPaths(chain: Chain, now: Chain)
    requires chain.Valid() && now.destination == chain.destination && |now.routers| == |chain.routers|
    requires forall i: nat :: i < |chain.routers| ==>
               now.routers[i] == chain.routers[i].(returnPath := now.routers[i].returnPath)
    requires now.routers[0].returnPath == Some(FILL_IN)
    requires forall i: nat :: 0 < i < |chain.routers| ==>
               now.routers[i].returnPath == Some(FILL_IN)
               || now.routers[i].returnPath == Some(chain.routers[i - 1].ReturnAddr())
    ensures now.Valid()
  {
    assert forall i: nat :: i <= |chain.routers| ==> now.Hop(i) == chain.Hop(i);
    forall i: nat | i < |chain.routers|
      ensures now.routers[i].forwardPath == Some(now.Hop(i + 1))
    {
      assert chain.routers[i].forwardPath == Some(chain.Hop(i + 1));
    }
  }
}
