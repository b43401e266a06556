/** The chain of routers on every run: return paths are the exact reverse of the way the first datagram came, and
    replies go back along them to the first sender. */
module ZigzagPaths {
  import opened Bytes
  import opened ZigzagRouter
  import opened ZigzagNetwork

  // ---------------------------------------------------------------------------------------------
  // What steps only add to

  /** What one step or many may change: more is learned, more is sent, more arrives. */
  ghost predicate Grows(chain: Chain, net: Network, next: Network) {
    && |net.routers| == |chain.routers| == |next.routers|
    && (net.first.Some? ==> next.first == net.first)
    && (forall i: nat :: i < |net.routers| && Learned(chain, net, i) ==> Learned(chain, next, i))
    && net.sent <= next.sent && net.replied <= next.replied
    && net.atDestination <= next.atDestination && net.atSenders <= next.atSenders
  }

  lemma ForwardLegKept(chain: Chain, net: Network, next: Network, d: Datagram, i: nat)
    requires Grows(chain, net, next) && OnForwardLeg(chain, net, d, i)
    ensures OnForwardLeg(chain, next, d, i)
  {
    forall j: nat | j < i ensures Learned(chain, next, j) {
      assert Learned(chain, net, j);
    }
  }

  lemma ReturnLegKept(chain: Chain, net: Network, next: Network, d: Datagram, i: nat)
    requires Grows(chain, net, next) && OnReturnLeg(chain, net, d, i)
    ensures OnReturnLeg(chain, next, d, i)
  {
    forall j: nat | j < |chain.routers| ensures Learned(chain, next, j) {
      assert Learned(chain, net, j);
    }
  }

  lemma DatagramKept(chain: Chain, net: Network, next: Network, d: Datagram)
    requires Grows(chain, net, next) && DatagramInv(chain, net, d)
    ensures DatagramInv(chain, next, d)
  {
    if i: nat :| OnForwardLeg(chain, net, d, i) {
      ForwardLegKept(chain, net, next, d, i);
    } else {
      var i: nat :| OnReturnLeg(chain, net, d, i);
      ReturnLegKept(chain, net, next, d, i);
    }
  }

  // ---------------------------------------------------------------------------------------------
  // Addresses identify legs

  lemma ForwardLegPlace(chain: Chain, net: Network, d: Datagram, i: nat, place: Place)
    requires Inv(chain, net) && OnForwardLeg(chain, net, d, i) && ArrivesAt(chain, d.destination, place)
    ensures place == if i < |chain.routers| then ForwardSocket(i) else Destination
  {
  }

  lemma ReturnLegPlace(chain: Chain, net: Network, d: Datagram, i: nat, place: Place)
    requires Inv(chain, net) && OnReturnLeg(chain, net, d, i) && ArrivesAt(chain, d.destination, place)
    ensures place == if i > 0 then ReturnSocket(i - 1) else Elsewhere
  {
    if i > 0 {
      assert d.destination == chain.routers[i - 1].ReturnAddr();
    }
  }

  /** Where a datagram arrives tells which leg it was on. */
  lemma Arrival(chain: Chain, net: Network, d: Datagram, place: Place)
    requires Inv(chain, net) && DatagramInv(chain, net, d) && ArrivesAt(chain, d.destination, place)
    ensures match place
            case ForwardSocket(i) => OnForwardLeg(chain, net, d, i)
            case ReturnSocket(i) => OnReturnLeg(chain, net, d, i + 1)
            case Destination => Received(chain, net, d)
            case Elsewhere => Answered(chain, net, d)
  {
    if i: nat :| OnForwardLeg(chain, net, d, i) {
      ForwardLegPlace(chain, net, d, i, place);
    } else {
      var i: nat :| OnReturnLeg(chain, net, d, i);
      ReturnLegPlace(chain, net, d, i, place);
    }
  }

  // ---------------------------------------------------------------------------------------------
  // Every step keeps the invariant

  /** The parts of the invariant that follow when the network has grown and only good datagrams have been added. */
  lemma KeptByGrowth(chain: Chain, net: Network, next: Network)
    requires Inv(chain, net) && Grows(chain, net, next)
    requires next.first.Some? ==> chain.Outside(next.first.value)
    requires forall i: nat :: i < |next.routers| ==> RouterInv(chain, next, i)
    requires forall k :: 0 <= k < |next.flight| ==> next.flight[k] in net.flight || DatagramInv(chain, next, next.flight[k])
    requires forall k :: |net.atDestination| <= k < |next.atDestination| ==> Received(chain, next, next.atDestination[k])
    requires forall k :: |net.atSenders| <= k < |next.atSenders| ==> Answered(chain, next, next.atSenders[k])
    ensures Inv(chain, next)
  {
    forall k | 0 <= k < |next.flight| ensures DatagramInv(chain, next, next.flight[k]) {
      if next.flight[k] in net.flight {
        DatagramKept(chain, net, next, next.flight[k]);
      }
    }
    forall k | 0 <= k < |next.atDestination| ensures Received(chain, next, next.atDestination[k]) {
      if k < |net.atDestination| {
        assert next.atDestination[k] == net.atDestination[k];
        ForwardLegKept(chain, net, next, next.atDestination[k], |chain.routers|);
      }
    }
    forall k | 0 <= k < |next.atSenders| ensures Answered(chain, next, next.atSenders[k]) {
      if k < |net.atSenders| {
        assert next.atSenders[k] == net.atSenders[k];
        ReturnLegKept(chain, net, next, next.atSenders[k], 0);
      }
    }
  }

  lemma RoutersUnchanged(chain: Chain, net: Network, next: Network)
    requires Inv(chain, net) && next.routers == net.routers && next.first == net.first
    ensures forall i: nat :: i < |next.routers| ==> RouterInv(chain, next, i)
    ensures forall i: nat :: i < |net.routers| && Learned(chain, net, i) ==> Learned(chain, next, i)
  {
    forall i: nat | i < |next.routers| ensures RouterInv(chain, next, i) {
      assert RouterInv(chain, net, i);
    }
  }

  /** A datagram on leg `i` makes router `i` learn, and goes on to leg `i + 1`. */
  lemma Forwards(chain: Chain, net: Network, d: Datagram, i: nat, next: Network)
    requires Inv(chain, net) && i < |chain.routers| && OnForwardLeg(chain, net, d, i)
    requires next == net.(routers := net.routers[i := Learn(net.routers[i], d.source)],
                          first := if i == 0 && net.first.None? then Some(d.source) else net.first)
    ensures Grows(chain, net, next) && Learned(chain, next, i)
    ensures next.first.Some? ==> chain.Outside(next.first.value)
    ensures forall j: nat :: j < |next.routers| ==> RouterInv(chain, next, j)
  {
    assert RouterInv(chain, net, i);
    if i > 0 {
      assert Learned(chain, net, 0);
    }
    assert Learned(chain, next, i);
    forall j: nat | j < |next.routers|
      ensures RouterInv(chain, next, j) && (Learned(chain, net, j) ==> Learned(chain, next, j))
    {
      assert RouterInv(chain, net, j);
    }
  }

  lemma OutgoingForward(chain: Chain, net: Network, d: Datagram, i: nat, next: Network)
    requires Inv(chain, net) && Grows(chain, net, next) && i < |chain.routers|
    requires OnForwardLeg(chain, net, d, i) && Learned(chain, next, i) && RouterInv(chain, next, i)
    ensures var out := Outgoing(next.routers[i], next.routers[i].forwardPath, d.payload);
            out.Some? && OnForwardLeg(chain, next, out.value, i + 1)
  {
    ForwardLegKept(chain, net, next, d, i);
    CutOnce(d.payload, next.sent, i > 0);
  }

  lemma OutgoingReply(chain: Chain, net: Network, d: Datagram, i: nat)
    requires Inv(chain, net) && i < |chain.routers| && OnReturnLeg(chain, net, d, i + 1)
    ensures var out := Outgoing(net.routers[i], net.routers[i].returnPath, d.payload);
            out.Some? && OnReturnLeg(chain, net, out.value, i)
  {
    assert Learned(chain, net, i) && RouterInv(chain, net, i);
    CutOnce(d.payload, net.replied, i + 1 < |chain.routers|);
  }

  /** Cutting a payload that another router has already cut changes nothing more. */
  lemma CutOnce(payload: seq<byte>, messages: set<seq<byte>>, cut: bool)
    requires PayloadOf(payload, messages, cut)
    ensures PayloadOf(Cut(payload), messages, true)
  {
    var m :| m in messages && payload == if cut then Cut(m) else m;
    assert Cut(payload) == Cut(m);
  }

  ghost predicate Within(rest: seq<Datagram>, flight: seq<Datagram>) {
    forall k :: 0 <= k < |rest| ==> rest[k] in flight
  }

  lemma RoutersUnchangedExactly(chain: Chain, net: Network, next: Network)
    requires |net.routers| == |chain.routers| && next.routers == net.routers && next.first == net.first
    ensures forall i: nat :: i < |net.routers| ==> (RouterInv(chain, next, i) <==> RouterInv(chain, net, i))
    ensures forall i: nat :: i < |net.routers| ==> (Learned(chain, next, i) <==> Learned(chain, net, i))
  {
  }

  /** The invariant after one more good datagram has been put on its way. */
  lemma KeptByLaunch(chain: Chain, net: Network, next: Network, rest: seq<Datagram>, out: Datagram)
    requires Inv(chain, net) && Grows(chain, net, next)
    requires next.first.Some? ==> chain.Outside(next.first.value)
    requires forall i: nat :: i < |next.routers| ==> RouterInv(chain, next, i)
    requires Within(rest, net.flight) && next.flight == rest + [out] && DatagramInv(chain, next, out)
    requires next.atDestination == net.atDestination && next.atSenders == net.atSenders
    ensures Inv(chain, next)
  {
    KeptByGrowth(chain, net, next);
  }

  lemma ForwardSocketStep(chain: Chain, net: Network, d: Datagram, i: nat, rest: seq<Datagram>)
    requires Inv(chain, net) && i < |chain.routers| && OnForwardLeg(chain, net, d, i) && Within(rest, net.flight)
    ensures Inv(chain, Arrived(net, d, ForwardSocket(i), rest))
    ensures Grows(chain, net, Arrived(net, d, ForwardSocket(i), rest))
    ensures Learned(chain, Arrived(net, d, ForwardSocket(i), rest), i)
  {
    var next := Arrived(net, d, ForwardSocket(i), rest);
    var learned := next.(flight := net.flight);
    Forwards(chain, net, d, i, learned);
    RoutersUnchangedExactly(chain, learned, next);
    assert Grows(chain, net, next);
    OutgoingForward(chain, net, d, i, next);
    KeptByLaunch(chain, net, next, rest, Outgoing(next.routers[i], next.routers[i].forwardPath, d.payload).value);
  }

  lemma ReturnSocketStep(chain: Chain, net: Network, d: Datagram, i: nat, rest: seq<Datagram>)
    requires Inv(chain, net) && i < |chain.routers| && OnReturnLeg(chain, net, d, i + 1) && Within(rest, net.flight)
    ensures Inv(chain, Arrived(net, d, ReturnSocket(i), rest))
    ensures Grows(chain, net, Arrived(net, d, ReturnSocket(i), rest))
  {
    var next := Arrived(net, d, ReturnSocket(i), rest);
    RoutersUnchanged(chain, net, next);
    OutgoingReply(chain, net, d, i);
    var out := Outgoing(net.routers[i], net.routers[i].returnPath, d.payload).value;
    ReturnLegKept(chain, net, next, out, i);
    KeptByLaunch(chain, net, next, rest, out);
  }

  lemma LeavingStep(chain: Chain, net: Network, d: Datagram, place: Place, rest: seq<Datagram>)
    requires Inv(chain, net) && Within(rest, net.flight)
    requires (place == Destination && Received(chain, net, d)) || (place == Elsewhere && Answered(chain, net, d))
    ensures Inv(chain, Arrived(net, d, place, rest)) && Grows(chain, net, Arrived(net, d, place, rest))
  {
    var next := Arrived(net, d, place, rest);
    RoutersUnchanged(chain, net, next);
    if place == Destination {
      ForwardLegKept(chain, net, next, d, |chain.routers|);
    } else {
      ReturnLegKept(chain, net, next, d, 0);
    }
    KeptByGrowth(chain, net, next);
  }

  lemma ArrivedStep(chain: Chain, net: Network, d: Datagram, place: Place, rest: seq<Datagram>)
    requires Inv(chain, net) && DatagramInv(chain, net, d) && ArrivesAt(chain, d.destination, place)
    requires Within(rest, net.flight)
    ensures Inv(chain, Arrived(net, d, place, rest)) && Grows(chain, net, Arrived(net, d, place, rest))
  {
    Arrival(chain, net, d, place);
    match place {
      case ForwardSocket(i) => ForwardSocketStep(chain, net, d, i, rest);
      case ReturnSocket(i) => ReturnSocketStep(chain, net, d, i, rest);
      case _ => LeavingStep(chain, net, d, place, rest);
    }
  }

  lemma SameAddresses(chain: Chain, other: Chain, a: Addr, place: Place)
    requires chain.destination == other.destination && |chain.routers| == |other.routers|
    requires forall i :: 0 <= i < |chain.routers| ==>
               && chain.routers[i].ForwardAddr() == other.routers[i].ForwardAddr()
               && chain.routers[i].ReturnAddr() == other.routers[i].ReturnAddr()
    ensures other.Outside(a) <==> chain.Outside(a)
    ensures ArrivesAt(other, a, place) <==> ArrivesAt(chain, a, place)
  {
  }

  /** Between control messages the sockets are those of the chain. */
  lemma SameSockets(chain: Chain, net: Network, a: Addr, place: Place)
    requires Inv(chain, net)
    ensures Present(chain, net).Outside(a) <==> chain.Outside(a)
    ensures ArrivesAt(Present(chain, net), a, place) <==> ArrivesAt(chain, a, place)
  {
    forall i | 0 <= i < |chain.routers|
      ensures net.routers[i].ForwardAddr() == chain.routers[i].ForwardAddr()
      ensures net.routers[i].ReturnAddr() == chain.routers[i].ReturnAddr()
    {
      assert RouterInv(chain, net, i);
    }
    SameAddresses(chain, Present(chain, net), a, place);
  }

  lemma SendStep(chain: Chain, net: Network, from: Addr, message: seq<byte>)
    requires Inv(chain, net) && chain.Outside(from) && Enabled(chain, net, Send(from, message))
    ensures var next := Step(chain, net, Send(from, message));
            Inv(chain, next) && Grows(chain, net, next) && OnForwardLeg(chain, next, next.flight[|net.flight|], 0)
  {
    var next := Step(chain, net, Send(from, message));
    RoutersUnchanged(chain, net, next);
    assert PayloadOf(message, next.sent, false);
    assert OnForwardLeg(chain, next, next.flight[|net.flight|], 0);
    KeptByGrowth(chain, net, next);
  }

  lemma ReplyStep(chain: Chain, net: Network, k: nat, answer: seq<byte>)
    requires Inv(chain, net) && k < |net.atDestination|
    ensures var next := Step(chain, net, Reply(k, answer));
            && Inv(chain, next) && Grows(chain, net, next)
            && OnReturnLeg(chain, next, next.flight[|net.flight|], |chain.routers|)
  {
    var next := Step(chain, net, Reply(k, answer));
    RoutersUnchanged(chain, net, next);
    ForwardLegKept(chain, net, next, net.atDestination[k], |chain.routers|);
    assert Learned(chain, next, 0);
    assert PayloadOf(answer, next.replied, false);
    assert OnReturnLeg(chain, next, next.flight[|net.flight|], |chain.routers|);
    KeptByGrowth(chain, net, next);
  }

  /** Every step but a control message keeps the invariant and what has been learned. */
  lemma StepInv(chain: Chain, net: Network, e: Event)
    requires Inv(chain, net) && Enabled(chain, net, e) && !e.Control?
    ensures Inv(chain, Step(chain, net, e)) && Grows(chain, net, Step(chain, net, e))
  {
    match e {
      case Arrive(at, again, place) =>
        SameSockets(chain, net, net.flight[at].destination, place);
        ArrivedStep(chain, net, net.flight[at], place, if again then net.flight else Without(net.flight, at));
      case Send(from, text) =>
        SameSockets(chain, net, from, Elsewhere);
        SendStep(chain, net, from, text);
      case Reply(k, answer) => ReplyStep(chain, net, k, answer);
      case Lose(_) =>
        var next := Step(chain, net, e);
        RoutersUnchanged(chain, net, next);
        assert Within(next.flight, net.flight);
        KeptByGrowth(chain, net, next);
    }
  }
}
