/** A chain of overlay routers as a system of steps over a network that loses, duplicates and reorders datagrams: what
    the learned return paths are on every run, and where replies go. */
module ZigzagNetwork {
  import opened Bytes
  import opened ZigzagRouter

  /** The routers as the control messages leave them, and the final destination. */
  datatype Chain = Chain(routers: seq<Node>, destination: Addr) {
    /** Where the datagrams of forward leg `i` go: to router `i`, or to the destination. */
    function Hop(i: nat): (r: Addr)
      requires i <= |routers|
    {
      if i == |routers| then destination else routers[i].ForwardAddr()
    }

    /** An address that is not one of the sockets of the chain. */
    predicate Outside(a: Addr) {
      && a != FILL_IN && a != destination
      && forall i :: 0 <= i < |routers| ==> a != routers[i].ForwardAddr() && a != routers[i].ReturnAddr()
    }

    /** Sockets have distinct addresses, each router forwards to the next one, and return paths are still to be learned
        or already point backwards; the first router has yet to learn its one. */
    ghost predicate Valid() {
      && |routers| > 0
      && destination != FILL_IN
      && (forall i :: 0 <= i < |routers| ==>
            && routers[i].ForwardAddr() != FILL_IN && routers[i].ReturnAddr() != FILL_IN
            && routers[i].ForwardAddr() != destination && routers[i].ReturnAddr() != destination)
      && (forall i, j :: 0 <= i < |routers| && 0 <= j < |routers| ==>
            && routers[i].ForwardAddr() != routers[j].ReturnAddr()
            && (i != j ==> routers[i].ForwardAddr() != routers[j].ForwardAddr()
                           && routers[i].ReturnAddr() != routers[j].ReturnAddr()))
      && (forall i :: 0 <= i < |routers| ==> routers[i].forwardPath == Some(Hop(i + 1)))
      && routers[0].returnPath == Some(FILL_IN)
      && (forall i :: 0 < i < |routers| ==>
            routers[i].returnPath == Some(FILL_IN) || routers[i].returnPath == Some(routers[i - 1].ReturnAddr()))
    }
  }

  /** `first` is the source of the first datagram the chain accepted; `sent` and `replied` are the payloads handed to
      the network by senders and by the destination. */
  datatype Network = Network(
    routers: seq<Node>,
    flight: seq<Datagram>,
    atDestination: seq<Datagram>,
    atSenders: seq<Datagram>,
    first: Option<Addr>,
    sent: set<seq<byte>>,
    replied: set<seq<byte>>
  )

  function Initial(chain: Chain): (r: Network) { Network(chain.routers, [], [], [], None, {}, {}) }

  datatype Place = ForwardSocket(i: nat) | ReturnSocket(i: nat) | Destination | Elsewhere

  datatype Event =
    | Send(from: Addr, text: seq<byte>)
    | Reply(k: nat, answer: seq<byte>)
    | Arrive(at: nat, again: bool, place: Place)
    | Lose(lost: nat)
    | Control(router: nat, message: Configuration, chosenForward: nat, chosenReturn: nat)

  /** The address decides where a datagram arrives. */
  predicate ArrivesAt(chain: Chain, a: Addr, place: Place) {
    match place
    case ForwardSocket(i) => i < |chain.routers| && a == chain.routers[i].ForwardAddr()
    case ReturnSocket(i) => i < |chain.routers| && a == chain.routers[i].ReturnAddr()
    case Destination => a == chain.destination
    case Elsewhere => chain.Outside(a)
  }

  /** The chain with the sockets and paths of the present moment. */
  function Present(chain: Chain, net: Network): (r: Chain) { chain.(routers := net.routers) }

  ghost predicate Enabled(chain: Chain, net: Network, e: Event) {
    match e
    case Send(from, _) => Present(chain, net).Outside(from)
    case Reply(k, _) => k < |net.atDestination|
    case Arrive(at, _, place) =>
      at < |net.flight| && ArrivesAt(Present(chain, net), net.flight[at].destination, place)
    case Lose(lost) => lost < |net.flight|
    case Control(router, _, _, _) => router < |net.routers|
  }

  function Without<T>(s: seq<T>, k: nat): (r: seq<T>)
    requires k < |s|
  {
    s[..k] + s[k + 1..]
  }

  function Launched(flight: seq<Datagram>, out: Option<Datagram>): (r: seq<Datagram>) {
    if out.Some? then flight + [out.value] else flight
  }

  /** The network after the datagram has arrived; `flight` is what else is under way. */
  function Arrived(net: Network, d: Datagram, place: Place, flight: seq<Datagram>): (r: Network)
    requires place.ForwardSocket? || place.ReturnSocket? ==> place.i < |net.routers|
  {
    match place
    case ForwardSocket(i) =>
      var r := Learn(net.routers[i], d.source);
      net.(routers := net.routers[i := r],
           flight := Launched(flight, Outgoing(r, r.forwardPath, d.payload)),
           first := if i == 0 && net.first.None? then Some(d.source) else net.first)
    case ReturnSocket(i) =>
      var r := net.routers[i];
      net.(flight := Launched(flight, Outgoing(r, r.returnPath, d.payload)))
    case Destination => net.(flight := flight, atDestination := net.atDestination + [d])
    case Elsewhere => net.(flight := flight, atSenders := net.atSenders + [d])
  }

  ghost function Step(chain: Chain, net: Network, e: Event): (r: Network)
    requires Enabled(chain, net, e) && |net.routers| == |chain.routers| > 0
  {
    match e
    case Send(from, text) =>
      net.(flight := net.flight + [Datagram(from, chain.Hop(0), text)], sent := net.sent + {text})
    case Reply(k, answer) =>
      net.(flight := net.flight + [Datagram(chain.destination, net.atDestination[k].source, answer)],
           replied := net.replied + {answer})
    case Arrive(at, again, place) =>
      Arrived(net, net.flight[at], place, if again then net.flight else Without(net.flight, at))
    case Lose(lost) => net.(flight := Without(net.flight, lost))
    case Control(router, message, chosenForward, chosenReturn) =>
      net.(routers := net.routers[router := OnControl(net.routers[router], message, chosenForward, chosenReturn)])
  }

  // ---------------------------------------------------------------------------------------------
  // The invariant

  /** The return socket or the sender that precedes router `i` on the forward chain; `Before(n)` is the last router's
      return socket, where the destination's replies go. */
  function Before(chain: Chain, first: Addr, i: nat): (r: Addr)
    requires i <= |chain.routers|
  {
    if i == 0 then first else chain.routers[i - 1].ReturnAddr()
  }

  ghost predicate Learned(chain: Chain, net: Network, i: nat)
    requires i < |net.routers| && |net.routers| == |chain.routers|
  {
    net.first.Some? && net.routers[i].returnPath == Some(Before(chain, net.first.value, i))
  }

  ghost predicate LearnedBelow(chain: Chain, net: Network, i: nat)
    requires i <= |net.routers| && |net.routers| == |chain.routers|
  {
    forall j: nat :: j < i ==> Learned(chain, net, j)
  }

  ghost predicate PayloadOf(payload: seq<byte>, messages: set<seq<byte>>, cut: bool) {
    exists m :: m in messages && payload == if cut then Cut(m) else m
  }

  /** A datagram on its way to router `i` or, when `i` is the number of routers, to the destination. */
  ghost predicate OnForwardLeg(chain: Chain, net: Network, d: Datagram, i: nat)
    requires |net.routers| == |chain.routers|
  {
    && i <= |chain.routers| && d.destination == chain.Hop(i)
    && (if i == 0 then chain.Outside(d.source) else d.source == chain.routers[i - 1].ReturnAddr())
    && LearnedBelow(chain, net, i)
    && PayloadOf(d.payload, net.sent, i > 0)
  }

  /** A reply on its way to what precedes router `i`. */
  ghost predicate OnReturnLeg(chain: Chain, net: Network, d: Datagram, i: nat)
    requires |net.routers| == |chain.routers|
  {
    && i <= |chain.routers| && net.first.Some? && d.destination == Before(chain, net.first.value, i)
    && d.source == (if i == |chain.routers| then chain.destination else chain.routers[i].ReturnAddr())
    && LearnedBelow(chain, net, |chain.routers|)
    && PayloadOf(d.payload, net.replied, i < |chain.routers|)
  }

  ghost predicate RouterInv(chain: Chain, net: Network, i: nat)
    requires i < |net.routers| && |net.routers| == |chain.routers|
  {
    && net.routers[i] == chain.routers[i].(returnPath := net.routers[i].returnPath)
    && (net.routers[i].returnPath == Some(FILL_IN) || Learned(chain, net, i)
        || (i > 0 && net.routers[i].returnPath == Some(chain.routers[i - 1].ReturnAddr())))
    && (i == 0 && net.first.Some? ==> Learned(chain, net, i))
  }

  ghost predicate DatagramInv(chain: Chain, net: Network, d: Datagram)
    requires |net.routers| == |chain.routers|
  {
    || (exists i: nat :: OnForwardLeg(chain, net, d, i))
    || (exists i: nat :: OnReturnLeg(chain, net, d, i))
  }

  /** What is true of a datagram that has reached the destination. */
  ghost predicate Received(chain: Chain, net: Network, d: Datagram)
    requires |net.routers| == |chain.routers|
  {
    OnForwardLeg(chain, net, d, |chain.routers|)
  }

  /** What is true of a datagram that has reached a sender. */
  ghost predicate Answered(chain: Chain, net: Network, d: Datagram)
    requires |net.routers| == |chain.routers|
  {
    OnReturnLeg(chain, net, d, 0)
  }

  ghost predicate Inv(chain: Chain, net: Network) {
    && chain.Valid() && |net.routers| == |chain.routers|
    && (net.first.Some? ==> chain.Outside(net.first.value))
    && (forall i: nat :: i < |net.routers| ==> RouterInv(chain, net, i))
    && (forall k :: 0 <= k < |net.flight| ==> DatagramInv(chain, net, net.flight[k]))
    && (forall k :: 0 <= k < |net.atDestination| ==> Received(chain, net, net.atDestination[k]))
    && (forall k :: 0 <= k < |net.atSenders| ==> Answered(chain, net, net.atSenders[k]))
  }
}
