/** One overlay router (lab6/v1/zigzagrouter.c): where it forwards, and how it learns its return path. Sockets are
    abstracted to the addresses they are bound to. */
module ZigzagRouter {
  import opened Bytes

  const BUFFER_SIZE: nat := 4096

  datatype Addr = Addr(ip: nat, port: nat)

  /** "0.0.0.0" and "0": the return path is to be learned. */
  const FILL_IN := Addr(0, 0)

  datatype Datagram = Datagram(source: Addr, destination: Addr, payload: seq<byte>)

  /** A decoded control message. */
  datatype Configuration = Configuration(forwardReceive: nat, forwardSend: Addr, returnReceive: nat, returnSend: Addr)

  /** The state of a router; a path is `None` while its strings are still empty. */
  datatype Node = Node(host: nat, forwardPort: nat, returnPort: nat, forwardPath: Option<Addr>, returnPath: Option<Addr>) {
    function ForwardAddr(): (r: Addr) { Addr(host, forwardPort) }
    function ReturnAddr(): (r: Addr) { Addr(host, returnPort) }
  }

  /** `recvfrom` keeps what fits into the buffer. */
  function Cut(payload: seq<byte>): (r: seq<byte>)
    ensures |r| <= 4096 && r <= payload
    ensures |payload| <= 4096 <==> r == payload
    ensures |payload| >= 4096 ==> |r| == 4096
  {
    if |payload| <= BUFFER_SIZE then payload else payload[..BUFFER_SIZE]
  }

  /** The port of a socket that is asked to bind to `requested`: 0 leaves the choice to the system. */
  function Bound(current: nat, requested: nat, chosen: nat): (r: nat) {
    if current == requested then current else if requested == 0 then chosen else requested
  }

  function OnControl(r: Node, c: Configuration, chosenForward: nat, chosenReturn: nat): (result: Node) {
    Node(r.host, Bound(r.forwardPort, c.forwardReceive, chosenForward), Bound(r.returnPort, c.returnReceive, chosenReturn),
         Some(c.forwardSend), Some(c.returnSend))
  }

  /** A datagram on the forward socket teaches the return path if that is still to be learned. */
  function Learn(r: Node, from: Addr): (result: Node) {
    if r.returnPath == Some(FILL_IN) then r.(returnPath := Some(from)) else r
  }

  /** What goes out along a path: always from the return socket. */
  function Outgoing(r: Node, path: Option<Addr>, payload: seq<byte>): (result: Option<Datagram>) {
    if path.None? then None else Some(Datagram(r.ReturnAddr(), path.value, Cut(payload)))
  }

  class Router {
    const host: nat
    var forwardPort: nat
    var returnPort: nat
    var forwardPath: Option<Addr>
    var returnPath: Option<Addr>

    ghost function State(): (r: Node)
      reads this
    {
      Node(host, forwardPort, returnPort, forwardPath, returnPath)
    }

    constructor (host: nat, forwardPort: nat, returnPort: nat)
      ensures State() == Node(host, forwardPort, returnPort, None, None)
    {
      this.host, this.forwardPort, this.returnPort := host, forwardPort, returnPort;
      forwardPath, returnPath := None, None;
    }

    /** `None` stands for a message that cannot be received or has the wrong size. */
    method UpdateForwardings(message: Option<Configuration>, chosenForward: nat, chosenReturn: nat) returns (ok: bool)
      modifies this
      ensures ok == message.Some?
      ensures State() == if ok then OnControl(old(State()), message.value, chosenForward, chosenReturn) else old(State())
      ensures ok ==> forwardPath == Some(message.value.forwardSend) && returnPath == Some(message.value.returnSend)
      ensures ok && message.value.forwardReceive != 0 ==> forwardPort == message.value.forwardReceive
      ensures ok && message.value.forwardReceive == old(forwardPort) ==> forwardPort == old(forwardPort)
      ensures ok && message.value.forwardReceive == 0 && old(forwardPort) != 0 ==> forwardPort == chosenForward
      ensures ok && message.value.returnReceive != 0 ==> returnPort == message.value.returnReceive
      ensures ok && message.value.returnReceive == old(returnPort) ==> returnPort == old(returnPort)
      ensures ok && message.value.returnReceive == 0 && old(returnPort) != 0 ==> returnPort == chosenReturn
    {
      if message.None? {
        return false;
      }
      var c := message.value;
      if forwardPort != c.forwardReceive {
        forwardPort := if c.forwardReceive == 0 then chosenForward else c.forwardReceive;
      }
      if returnPort != c.returnReceive {
        returnPort := if c.returnReceive == 0 then chosenReturn else c.returnReceive;
      }
      forwardPath := Some(c.forwardSend);
      returnPath := Some(c.returnSend);
      return true;
    }

    method UpdateReturnPath(from: Addr)
      modifies `returnPath
      ensures returnPath == Some(from)
    {
      returnPath := Some(from);
    }

    /** Handles a datagram on the forward socket (`learning`) or on the return socket; no datagram out is an error. */
    method ForwardData(arrival: Option<Datagram>, learning: bool) returns (out: Option<Datagram>)
      modifies `returnPath
      ensures State() == if arrival.Some? && learning then Learn(old(State()), arrival.value.source) else old(State())
      ensures out == if arrival.None? then None
                     else Outgoing(State(), if learning then forwardPath else old(returnPath), arrival.value.payload)
    {
      if arrival.None? {
        return None;
      }
      var path := if learning then forwardPath else returnPath;
      var buffer := Cut(arrival.value.payload);
      if learning && returnPath == Some(FILL_IN) {
        UpdateReturnPath(arrival.value.source);
      }
      if path.None? {
        return None;
      }
      return Some(Datagram(Addr(host, returnPort), path.value, buffer));
    }

    /** One round of the loop: control, then forward, then return; a reply in the same round already uses the path
        that was just learned. */
    method Round(control: Option<Configuration>, chosenForward: nat, chosenReturn: nat,
                 forward: Option<Datagram>, back: Option<Datagram>)
      returns (forwarded: Option<Datagram>, replied: Option<Datagram>)
      modifies this
      ensures var configured := if control.Some? then OnControl(old(State()), control.value, chosenForward, chosenReturn)
                                else old(State());
              && State() == (if forward.Some? then Learn(configured, forward.value.source) else configured)
              && forwarded == (if forward.Some? then Outgoing(configured, configured.forwardPath, forward.value.payload)
                               else None)
              && replied == (if back.Some? then Outgoing(State(), State().returnPath, back.value.payload) else None)
    {
      var ok := true;
      if control.Some? {
        ok := UpdateForwardings(control, chosenForward, chosenReturn);
      }
      forwarded := None;
      if forward.Some? {
        forwarded := ForwardData(forward, true);
      }
      replied := None;
      if back.Some? {
        replied := ForwardData(back, false);
      }
    }
  }
}
