/** What control messages do to a chain of routers: they move it to new sockets and paths, and it works there. */
module ZigzagControl {
  import opened Bytes
  import opened ZigzagRouter
  import opened ZigzagNetwork
  import opened ZigzagPaths
  import opened ZigzagReplies

  /** An accepted message: a port that is asked for is bound, an equal one is kept, only a change to 0 leaves the choice
      to the system, and both paths are those of the message. */
  lemma ControlBinds(r: Node, c: Configuration, chosenForward: nat, chosenReturn: nat)
    ensures var next := OnControl(r, c, chosenForward, chosenReturn);
            && next.host == r.host
            && (c.forwardReceive != 0 ==> next.forwardPort == c.forwardReceive)
            && (c.forwardReceive == r.forwardPort ==> next.forwardPort == r.forwardPort)
            && (c.forwardReceive == 0 && r.forwardPort != 0 ==> next.forwardPort == chosenForward)
            && (c.returnReceive != 0 ==> next.returnPort == c.returnReceive)
            && (c.returnReceive == r.returnPort ==> next.returnPort == r.returnPort)
            && (c.returnReceive == 0 && r.returnPort != 0 ==> next.returnPort == chosenReturn)
            && next.forwardPath == Some(c.forwardSend) && next.returnPath == Some(c.returnSend)
  {
  }

  /** Where a chain is to be moved: the hosts of its routers, their new ports, and the final destination. */
  datatype Plan = Plan(hosts: seq<nat>, forwardPorts: seq<nat>, returnPorts: seq<nat>, destination: Addr) {
    ghost predicate Sized() {
      |hosts| == |forwardPorts| == |returnPorts| > 0
    }

    /** Where forward leg `i` goes. */
    function Hop(i: nat): (r: Addr)
      requires |hosts| == |forwardPorts| && i <= |hosts|
    {
      if i == |hosts| then destination else Addr(hosts[i], forwardPorts[i])
    }

    function Back(i: nat): (r: Addr)
      requires |hosts| == |returnPorts| && i < |hosts|
    {
      Addr(hosts[i], returnPorts[i])
    }

    /** The address is none of the chain's. */
    ghost predicate Outside(a: Addr)
      requires Sized()
    {
      a != Addr(0, 0) && a != destination && forall i: nat :: i < |hosts| ==> a != Hop(i) && a != Back(i)
    }

    /** Real ports, and distinct addresses. */
    ghost predicate Distinct()
      requires Sized()
    {
      && destination != Addr(0, 0)
      && (forall i: nat :: i < |hosts| ==>
            forwardPorts[i] != 0 && returnPorts[i] != 0 && Hop(i) != destination && Back(i) != destination)
      && (forall i: nat, j: nat :: i < |hosts| && j < |hosts| ==>
            Hop(i) != Back(j) && (i != j ==> Hop(i) != Hop(j) && Back(i) != Back(j)))
    }

    /** Router `i` when it has been told, with its return path still to be learned. */
    function Told(i: nat): (r: Node)
      requires |hosts| == |forwardPorts| == |returnPorts| && i < |hosts|
    {
      Node(hosts[i], forwardPorts[i], returnPorts[i], Some(Hop(i + 1)), Some(Addr(0, 0)))
    }

    /** The message to router `i`, with 0 for a port where the system is to choose, and happens to choose as planned. */
    ghost predicate Asks(e: Event)
      requires Sized()
    {
      && e.Control? && e.router < |hosts|
      && e.message.forwardSend == Hop(e.router + 1) && e.message.returnSend == Addr(0, 0)
      && (e.message.forwardReceive == forwardPorts[e.router]
          || (e.message.forwardReceive == 0 && e.chosenForward == forwardPorts[e.router]))
      && (e.message.returnReceive == returnPorts[e.router]
          || (e.message.returnReceive == 0 && e.chosenReturn == returnPorts[e.router]))
    }
  }

  /** The routers run on the hosts of the plan, and their sockets are bound. */
  ghost predicate Running(plan: Plan, routers: seq<Node>)
    requires plan.Sized()
  {
    && |routers| == |plan.hosts|
    && forall i: nat :: i < |routers| ==>
         routers[i].host == plan.hosts[i] && routers[i].forwardPort != 0 && routers[i].returnPort != 0
  }

  lemma AskedStep(chain: Chain, net: Network, plan: Plan, e: Event)
    requires plan.Sized() && plan.Distinct() && plan.Asks(e) && Running(plan, net.routers)
    requires |net.routers| == |chain.routers| && Enabled(chain, net, e)
    ensures var next := Step(chain, net, e);
            && next == net.(routers := net.routers[e.router := plan.Told(e.router)]) && Running(plan, next.routers)
  {
    ControlBinds(net.routers[e.router], e.message, e.chosenForward, e.chosenReturn);
  }

  /** Some message goes to router `i`. */
  ghost predicate IsTold(events: seq<Event>, i: nat) {
    exists k :: 0 <= k < |events| && events[k].Control? && events[k].router == i
  }

  ghost predicate AllAsk(plan: Plan, events: seq<Event>)
    requires plan.Sized()
  {
    forall k :: 0 <= k < |events| ==> plan.Asks(events[k])
  }

  /** Messages in any order, and repeated ones: a router that some message went to is where the plan wants it. */
  lemma {:induction false} Moved(chain: Chain, net: Network, plan: Plan, events: seq<Event>, end: Network, i: nat)
    requires plan.Sized() && plan.Distinct() && Running(plan, net.routers) && |net.routers| == |chain.routers|
    requires Runs(chain, net, events, end) && AllAsk(plan, events)
    requires i < |net.routers|
    requires net.routers[i] == plan.Told(i) || IsTold(events, i)
    ensures |end.routers| == |net.routers| && end.routers[i] == plan.Told(i)
    ensures end == net.(routers := end.routers)
    decreases |events|
  {
    if events != [] {
      var e := events[0];
      assert plan.Asks(e);
      AskedStep(chain, net, plan, e);
      if e.router != i && net.routers[i] != plan.Told(i) {
        var k :| 0 <= k < |events| && events[k].Control? && events[k].router == i;
        assert events[1..][k - 1] == events[k];
      }
      Moved(chain, Step(chain, net, e), plan, events[1..], end, i);
    }
  }

  lemma AllMoved(chain: Chain, net: Network, plan: Plan, events: seq<Event>, end: Network)
    requires plan.Sized() && plan.Distinct() && Running(plan, net.routers) && |net.routers| == |chain.routers|
    requires Runs(chain, net, events, end) && AllAsk(plan, events)
    requires forall i: nat :: i < |plan.hosts| ==> IsTold(events, i)
    ensures end == net.(routers := end.routers) && |end.routers| == |plan.hosts|
    ensures forall i: nat :: i < |plan.hosts| ==> end.routers[i] == plan.Told(i)
  {
    assert IsTold(events, 0);
    Moved(chain, net, plan, events, end, 0);
    forall i: nat | i < |plan.hosts| ensures end.routers[i] == plan.Told(i) {
      assert IsTold(events, i);
      Moved(chain, net, plan, events, end, i);
    }
  }

  lemma ToldChain(plan: Plan, chain: Chain)
    requires plan.Sized() && plan.Distinct() && chain.destination == plan.destination
    requires |chain.routers| == |plan.hosts| && forall i: nat :: i < |plan.hosts| ==> chain.routers[i] == plan.Told(i)
    ensures chain.Valid()
    ensures forall i: nat :: i <= |plan.hosts| ==> chain.Hop(i) == plan.Hop(i)
    ensures forall i: nat :: i < |plan.hosts| ==> chain.routers[i].ReturnAddr() == plan.Back(i)
    ensures forall a :: plan.Outside(a) ==> chain.Outside(a)
  {
    forall i: nat | i <= |plan.hosts| ensures chain.Hop(i) == plan.Hop(i) {
      if i < |plan.hosts| {
        assert chain.routers[i] == plan.Told(i);
      }
    }
    forall i: nat | i < |plan.hosts|
      ensures chain.routers[i].ReturnAddr() == plan.Back(i) && chain.routers[i].ForwardAddr() == plan.Hop(i)
      ensures chain.routers[i].forwardPath == Some(chain.Hop(i + 1)) && chain.routers[i].returnPath == Some(FILL_IN)
    {
      assert chain.routers[i] == plan.Told(i);
    }
  }

  // ---------------------------------------------------------------------------------------------
  // What a chain does next does not depend on what has arrived before

  /** `net` is `later` with what had arrived in `old` before it. */
  ghost predicate Continues(before: Network, later: Network, net: Network) {
    && net.routers == later.routers && net.flight == later.flight
    && net.atDestination == before.atDestination + later.atDestination
    && net.atSenders == before.atSenders + later.atSenders
  }

  /** The same event when more has arrived before. */
  function Shifted(e: Event, n: nat): (r: Event) {
    if e.Reply? then Reply(n + e.k, e.answer) else e
  }

  lemma ContinuedStep(chain: Chain, before: Network, later: Network, net: Network, e: Event)
    requires Continues(before, later, net) && |later.routers| == |chain.routers| > 0 && Enabled(chain, later, e)
    ensures var shifted := Shifted(e, |before.atDestination|);
            Enabled(chain, net, shifted) && Continues(before, Step(chain, later, e), Step(chain, net, shifted))
  {
    if e.Arrive? {
      ContinuedArrival(before, later, net, later.flight[e.at], e.place,
                       if e.again then later.flight else Without(later.flight, e.at));
    }
  }

  lemma ContinuedArrival(before: Network, later: Network, net: Network, d: Datagram, place: Place, rest: seq<Datagram>)
    requires Continues(before, later, net)
    requires place.ForwardSocket? || place.ReturnSocket? ==> place.i < |later.routers|
    ensures Continues(before, Arrived(later, d, place, rest), Arrived(net, d, place, rest))
  {
  }

  ghost predicate NoReplies(events: seq<Event>) {
    forall k :: 0 <= k < |events| ==> !events[k].Reply?
  }

  lemma {:induction false} ContinuedRun(chain: Chain, before: Network, later: Network, net: Network, events: seq<Event>,
                                        laterEnd: Network)
    returns (end: Network)
    requires Continues(before, later, net) && Runs(chain, later, events, laterEnd) && NoReplies(events)
    ensures Runs(chain, net, events, end) && Continues(before, laterEnd, end)
    decreases |events|
  {
    if events == [] {
      end := net;
    } else {
      var e := events[0];
      ContinuedStep(chain, before, later, net, e);
      end := ContinuedRun(chain, before, Step(chain, later, e), Step(chain, net, e), events[1..], laterEnd);
    }
  }

  lemma {:induction false} RunsOn(chain: Chain, net: Network, events: seq<Event>, middle: Network, more: seq<Event>,
                                  end: Network)
    requires Runs(chain, net, events, middle) && Runs(chain, middle, more, end)
    ensures Runs(chain, net, events + more, end)
    decreases |events|
  {
    if events == [] {
      assert events + more == more;
    } else {
      RunsOn(chain, Step(chain, net, events[0]), events[1..], middle, more, end);
      assert (events + more)[1..] == events[1..] + more;
    }
  }

  // ---------------------------------------------------------------------------------------------
  // The chain works at its new place

  /** The same message and reply after other datagrams have arrived. */
  lemma SameTrip(chain: Chain, net: Network, from: Addr, text: seq<byte>, answer: seq<byte>,
                 there: seq<Event>, middle: Network, back: seq<Event>, laterEnd: Network)
    returns (end: Network)
    requires net.routers == chain.routers && net.flight == []
    requires Runs(chain, Initial(chain), [Send(from, text)] + there, middle)
    requires Runs(chain, middle, [Reply(0, answer)] + back, laterEnd)
    requires OnlyArrivals(there) && OnlyArrivals(back)
    ensures Runs(chain, net, [Send(from, text)] + there + ([Reply(|net.atDestination|, answer)] + back), end)
    ensures Continues(net, laterEnd, end)
  {
    var half := ContinuedRun(chain, net, Initial(chain), net, [Send(from, text)] + there, middle);
    ContinuedStep(chain, net, middle, half, Reply(0, answer));
    var replied := Reply(|net.atDestination|, answer);
    assert ([Reply(0, answer)] + back)[1..] == back;
    end := ContinuedRun(chain, net, Step(chain, middle, Reply(0, answer)), Step(chain, half, replied), back, laterEnd);
    RunsOne(chain, half, replied, back, end);
    RunsOn(chain, net, [Send(from, text)] + there, half, [replied] + back, end);
  }

  /** A message, its `n` forwardings and its arrival, a reply to arrival `k`, its `n` forwardings and its arrival. */
  ghost predicate Exchange(events: seq<Event>, n: nat, from: Addr, text: seq<byte>, k: nat, answer: seq<byte>) {
    && |events| == 2 * n + 4 && events[0] == Send(from, text) && events[n + 2] == Reply(k, answer)
    && OnlyArrivals(events[1..n + 2]) && OnlyArrivals(events[n + 3..])
  }

  lemma ExchangeOf(there: seq<Event>, back: seq<Event>, n: nat, from: Addr, text: seq<byte>, k: nat, answer: seq<byte>)
    requires |there| == |back| == n + 1 && OnlyArrivals(there) && OnlyArrivals(back)
    ensures Exchange([Send(from, text)] + there + ([Reply(k, answer)] + back), n, from, text, k, answer)
  {
    var events := [Send(from, text)] + there + ([Reply(k, answer)] + back);
    assert events[1..n + 2] == there && events[n + 3..] == back;
  }

  /** The network when the exchange is over: what has arrived, and the return paths the reverse of the chain. */
  ghost predicate Exchanged(chain: Chain, net: Network, from: Addr, text: seq<byte>, answer: seq<byte>, end: Network)
    requires chain.routers != []
  {
    && end.flight == [] && |end.routers| == |chain.routers|
    && end.atDestination == net.atDestination
         + [Datagram(chain.routers[|chain.routers| - 1].ReturnAddr(), chain.destination,
                     if |text| <= 4096 then text else text[..4096])]
    && end.atSenders == net.atSenders
         + [Datagram(chain.routers[0].ReturnAddr(), from, if |answer| <= 4096 then answer else answer[..4096])]
    && forall i: nat :: i < |chain.routers| ==>
         end.routers[i] == chain.routers[i].(returnPath := Some(Before(chain, from, i)))
  }

  /** After its first message, a chain passes a reply back to the sender, and all its return paths point backwards. */
  lemma FirstReply(chain: Chain, from: Addr, text: seq<byte>, there: seq<Event>, middle: Network, answer: seq<byte>)
    returns (back: seq<Event>, end: Network)
    requires chain.Valid() && Runs(chain, Initial(chain), [Send(from, text)] + there, middle) && OnlyArrivals(there)
    requires middle.first == Some(from) && middle.flight == [] && middle.atSenders == []
    requires middle.atDestination == [Datagram(chain.routers[|chain.routers| - 1].ReturnAddr(), chain.destination,
                                               if |text| <= 4096 then text else text[..4096])]
    ensures Runs(chain, middle, [Reply(0, answer)] + back, end)
    ensures |back| == |chain.routers| + 1 && OnlyArrivals(back)
    ensures Exchanged(chain, Initial(chain), from, text, answer, end)
  {
    assert Quiet([Send(from, text)] + there);
    assert Reachable(chain, middle);
    back, end := ReplyReachesFirstSender(chain, middle, 0, answer);
    assert Quiet([Reply(0, answer)] + back);
    ReversePaths(chain, middle, [Reply(0, answer)] + back, end);
  }

  lemma ExchangedLater(chain: Chain, net: Network, from: Addr, text: seq<byte>, answer: seq<byte>, laterEnd: Network,
                       end: Network)
    requires chain.routers != [] && Exchanged(chain, Initial(chain), from, text, answer, laterEnd)
    requires Continues(net, laterEnd, end)
    ensures Exchanged(chain, net, from, text, answer, end)
  {
  }

  /** A message and its reply get through any chain at its beginning, whatever has arrived before. */
  lemma ChainWorks(chain: Chain, net: Network, from: Addr, text: seq<byte>, answer: seq<byte>)
    returns (events: seq<Event>, end: Network)
    requires chain.Valid() && chain.Outside(from) && net.routers == chain.routers && net.flight == []
    ensures Exchange(events, |chain.routers|, from, text, |net.atDestination|, answer)
    ensures Runs(chain, net, events, end) && Exchanged(chain, net, from, text, answer, end)
  {
    assert Runs(chain, Initial(chain), [], Initial(chain)) && Quiet([]);
    var there, middle := MessageReachesDestination(chain, Initial(chain), from, text);
    var back, laterEnd := FirstReply(chain, from, text, there, middle, answer);
    end := SameTrip(chain, net, from, text, answer, there, middle, back, laterEnd);
    events := [Send(from, text)] + there + ([Reply(|net.atDestination|, answer)] + back);
    ExchangeOf(there, back, |chain.routers|, from, text, |net.atDestination|, answer);
    ExchangedLater(chain, net, from, text, answer, laterEnd, end);
  }

  /** The same in the terms of the plan. */
  ghost predicate Delivered(plan: Plan, net: Network, from: Addr, text: seq<byte>, answer: seq<byte>, end: Network)
    requires plan.Sized()
  {
    && end.flight == [] && |end.routers| == |plan.hosts|
    && end.atDestination == net.atDestination
         + [Datagram(plan.Back(|plan.hosts| - 1), plan.destination, if |text| <= 4096 then text else text[..4096])]
    && end.atSenders == net.atSenders
         + [Datagram(plan.Back(0), from, if |answer| <= 4096 then answer else answer[..4096])]
    && forall i: nat :: i < |plan.hosts| ==>
         end.routers[i] == Node(plan.hosts[i], plan.forwardPorts[i], plan.returnPorts[i], Some(plan.Hop(i + 1)),
                                Some(if i == 0 then from else plan.Back(i - 1)))
  }

  lemma DeliveredAsPlanned(plan: Plan, chain: Chain, net: Network, from: Addr, text: seq<byte>, answer: seq<byte>,
                           end: Network)
    requires plan.Sized() && |chain.routers| == |plan.hosts| && chain.destination == plan.destination
    requires forall i: nat :: i < |plan.hosts| ==> chain.routers[i] == plan.Told(i)
    requires Exchanged(chain, net, from, text, answer, end)
    ensures Delivered(plan, net, from, text, answer, end)
  {
    forall i: nat | i < |plan.hosts|
      ensures end.routers[i] == Node(plan.hosts[i], plan.forwardPorts[i], plan.returnPorts[i], Some(plan.Hop(i + 1)),
                                     Some(if i == 0 then from else plan.Back(i - 1)))
    {
      assert chain.routers[i] == plan.Told(i);
      assert i > 0 ==> chain.routers[i - 1] == plan.Told(i - 1);
    }
    assert chain.routers[0] == plan.Told(0);
  }

  /** Whatever has become of a chain when nothing is under way: after control messages to all of its routers, in any
      order and any number of times, the next message gets through the chain at its new place, the reply to it comes
      back, and each router then stands exactly where the plan wants it and replies along the way the message came. */
  lemma NewChainWorks(chain: Chain, net: Network, plan: Plan, control: seq<Event>, moved: Network,
                      from: Addr, text: seq<byte>, answer: seq<byte>)
    returns (events: seq<Event>, end: Network)
    requires plan.Sized() && plan.Distinct() && plan.Outside(from)
    requires Running(plan, net.routers) && |chain.routers| == |plan.hosts| && net.flight == []
    requires Runs(chain, net, control, moved) && AllAsk(plan, control)
    requires forall i: nat :: i < |plan.hosts| ==> IsTold(control, i)
    ensures Exchange(events, |plan.hosts|, from, text, |net.atDestination|, answer)
    ensures Runs(Chain(moved.routers, plan.destination), moved, events, end)
    ensures Delivered(plan, net, from, text, answer, end)
  {
    AllMoved(chain, net, plan, control, moved);
    var now := Chain(moved.routers, plan.destination);
    ToldChain(plan, now);
    events, end := ChainWorks(now, moved, from, text, answer);
    DeliveredAsPlanned(plan, now, moved, from, text, answer, end);
    SameHistory(plan, net, moved, from, text, answer, end);
  }

  lemma SameHistory(plan: Plan, net: Network, moved: Network, from: Addr, text: seq<byte>, answer: seq<byte>,
                    end: Network)
    requires plan.Sized() && moved == net.(routers := moved.routers)
    requires Delivered(plan, moved, from, text, answer, end)
    ensures Delivered(plan, net, from, text, answer, end)
  {
  }
}
