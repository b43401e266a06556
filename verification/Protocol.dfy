/** The two programs and the network between them as one step system. */
module Protocol {
  import opened Bytes
  import opened Transfer
  import RC = RoadrunnerClient

  /** One transfer. `ordered` says whether the network keeps packets of different windows in sending order;
      packets of the same window may overtake one another in either case. */
  datatype Scenario = Scenario(cfg: Config, variant: RC.Variant, file: seq<byte>, ordered: bool) {
    function Count(): (r: nat)
      requires cfg.Valid()
    {
      |Windows(cfg, file)|
    }
  }

  /** The server inside `send_file`: `attempt` numbers its sockets, `next` is the next block of the attempt, and it
      waits for an acknowledgement once all blocks are sent. */
  datatype Server = Server(window: nat, base: nat, attempt: nat, next: nat, finished: bool)

  /** A datagram on its way to the client, with where it came from. */
  datatype Flight = Flight(window: nat, attempt: nat, index: nat, raw: seq<byte>)

  /** An acknowledgement on its way to the socket of one attempt. */
  datatype Reply = Reply(attempt: nat, num: byte)

  /** `heard` and `answered` are history: the blocks of the current attempt delivered to a receiving client, and
      whether one of them provoked the acknowledgement the server waits for. */
  datatype System = System(server: Server, client: RC.Client, data: seq<Flight>, replies: seq<Reply>,
                           heard: set<nat>, answered: bool)

  datatype Event =
    | Send
    | Timeout
    | Enter(junk: seq<seq<byte>>)
    | Deliver(i: nat)
    | Lose(i: nat)
    | Duplicate(i: nat)
    | DeliverReply(i: nat)
    | LoseReply(i: nat)
    | DuplicateReply(i: nat)

  const InitialServer := Server(0, 0, 0, 0, false)

  const Initial := System(InitialServer, RC.InitialClient, [], [], {}, false)

  ghost predicate WellFormed(sc: Scenario, s: System)
  {
    && sc.cfg.Valid()
    && s.server.window < sc.Count()
    && RC.ClientShaped(sc.cfg, s.client)
  }

  /** The datagrams of the server's current window. */
  function Outgoing(sc: Scenario, v: Server): (r: seq<seq<byte>>)
    requires sc.cfg.Valid() && v.window < sc.Count()
  {
    WindowPackets(sc.cfg, v.base, Windows(sc.cfg, sc.file)[v.window], v.window == sc.Count() - 1)
  }

  function Expected(sc: Scenario, v: Server): (r: byte)
    requires sc.cfg.Valid() && v.window < sc.Count()
  {
    ExpectedAck(sc.cfg, v.base, |Outgoing(sc, v)|)
  }

  predicate Waiting(sc: Scenario, v: Server)
    requires sc.cfg.Valid() && v.window < sc.Count()
  {
    !v.finished && v.next >= |Outgoing(sc, v)|
  }

  /** A packet may arrive if no packet of another window was sent before it and is still on its way; an unordered
      network has no such rule. */
  ghost predicate MayArrive(sc: Scenario, data: seq<Flight>, i: nat)
    requires i < |data|
  {
    sc.ordered ==> forall j | 0 <= j < i :: data[j].window == data[i].window
  }

  ghost predicate Enabled(sc: Scenario, s: System, e: Event)
    requires WellFormed(sc, s)
  {
    match e
    case Send => !s.server.finished && s.server.next < |Outgoing(sc, s.server)|
    case Timeout => Waiting(sc, s.server)
    case Enter(junk) => !s.client.done && s.client.collector.None? && RC.SlotsShaped(sc.cfg, junk)
    case Deliver(i) => i < |s.data| && s.client.collector.Some? && MayArrive(sc, s.data, i)
    case Lose(i) => i < |s.data|
    case Duplicate(i) => i < |s.data|
    case DeliverReply(i) => i < |s.replies| && Waiting(sc, s.server)
    case LoseReply(i) => i < |s.replies|
    case DuplicateReply(i) => i < |s.replies|
  }

  function Remove<T>(s: seq<T>, i: nat): (r: seq<T>)
    requires i < |s|
  {
    s[..i] + s[i + 1..]
  }

  /** A copy of element `i` right behind it. */
  function Twice<T>(s: seq<T>, i: nat): (r: seq<T>)
    requires i < |s|
  {
    s[..i + 1] + s[i..]
  }

  /** A fresh attempt: new socket, back to the first block. */
  function Restarted(v: Server): (r: Server)
  {
    v.(attempt := v.attempt + 1, next := 0)
  }

  /** The server leaves its window. */
  function Advanced(sc: Scenario, v: Server): (r: Server)
    requires sc.cfg.Valid()
  {
    if v.window + 1 == sc.Count() then
      Server(v.window, NextBase(sc.cfg, v.base), v.attempt + 1, 0, true)
    else
      Server(v.window + 1, NextBase(sc.cfg, v.base), v.attempt + 1, 0, false)
  }

  /** The acknowledgements the client's new state has sent, addressed to the socket the packet came from. */
  function Answers(attempt: nat, before: RC.Client, after: RC.Client): (r: seq<Reply>)
    requires |before.sent| <= |after.sent|
  {
    Addressed(attempt, after.sent[|before.sent|..])
  }

  function Addressed(attempt: nat, acks: seq<byte>): (r: seq<Reply>)
    ensures |r| == |acks|
    ensures forall i | 0 <= i < |r| :: r[i] == Reply(attempt, acks[i])
  {
    seq(|acks|, i requires 0 <= i < |acks| => Reply(attempt, acks[i]))
  }

  function AfterDelivery(sc: Scenario, s: System, i: nat): (r: System)
    requires WellFormed(sc, s) && i < |s.data| && s.client.collector.Some?
  {
    var fl := s.data[i];
    var client := RC.ClientReceive(sc.cfg, sc.variant, s.client, fl.raw);
    var answers := Answers(fl.attempt, s.client, client);
    var current := fl.attempt == s.server.attempt && !s.server.finished;
    s.(client := client,
       data := Remove(s.data, i),
       replies := s.replies + answers,
       heard := if current then s.heard + {fl.index} else s.heard,
       answered := s.answered || (current && Reply(fl.attempt, Expected(sc, s.server)) in answers))
  }

  function AfterReply(sc: Scenario, s: System, i: nat): (r: System)
    requires WellFormed(sc, s) && i < |s.replies|
  {
    var t := s.(replies := Remove(s.replies, i));
    if s.replies[i] == Reply(s.server.attempt, Expected(sc, s.server)) then
      t.(server := Advanced(sc, s.server), heard := {}, answered := false)
    else
      t
  }

  function Step(sc: Scenario, s: System, e: Event): (t: System)
    requires WellFormed(sc, s) && Enabled(sc, s, e)
    ensures WellFormed(sc, t)
  {
    match e
    case Send =>
      var v := s.server;
      s.(server := v.(next := v.next + 1),
         data := s.data + [Flight(v.window, v.attempt, v.next, Outgoing(sc, v)[v.next])])
    case Timeout => s.(server := Restarted(s.server), heard := {}, answered := false)
    case Enter(junk) => s.(client := RC.EnterWindow(sc.cfg, s.client, junk))
    case Deliver(i) => AfterDelivery(sc, s, i)
    case Lose(i) => s.(data := Remove(s.data, i))
    case Duplicate(i) => s.(data := Twice(s.data, i))
    case DeliverReply(i) => AfterReply(sc, s, i)
    case LoseReply(i) => s.(replies := Remove(s.replies, i))
    case DuplicateReply(i) => s.(replies := Twice(s.replies, i))
  }

  /** The state after a sequence of events, if every one of them is possible when it comes. */
  ghost function Run(sc: Scenario, s: System, events: seq<Event>): (t: Option<System>)
    requires WellFormed(sc, s)
    ensures t.Some? ==> WellFormed(sc, t.value)
    decreases |events|
  {
    if events == [] then Some(s)
    else if !Enabled(sc, s, events[0]) then None
    else Run(sc, Step(sc, s, events[0]), events[1..])
  }

  ghost predicate Reaches(sc: Scenario, s: System, t: System)
    requires WellFormed(sc, s)
  {
    exists events :: Run(sc, s, events) == Some(t)
  }

  lemma InitialWellFormed(sc: Scenario)
    requires sc.cfg.Valid()
    ensures WellFormed(sc, Initial)
  {
    WindowFacts(sc.cfg, sc.file);
  }

  lemma {:induction false} RunAppend(sc: Scenario, s: System, first: seq<Event>, second: seq<Event>)
    requires WellFormed(sc, s) && Run(sc, s, first).Some?
    ensures Run(sc, s, first + second) == Run(sc, Run(sc, s, first).value, second)
    decreases |first|
  {
    if first == [] {
      assert first + second == second;
    } else {
      assert (first + second)[1..] == first[1..] + second;
      RunAppend(sc, Step(sc, s, first[0]), first[1..], second);
    }
  }

  lemma RunOne(sc: Scenario, s: System, e: Event)
    requires WellFormed(sc, s) && Enabled(sc, s, e)
    ensures Run(sc, s, [e]) == Some(Step(sc, s, e))
  {
    assert [e][1..] == [];
  }

  lemma ReachesTransitively(sc: Scenario, s: System, t: System, u: System)
    requires WellFormed(sc, s) && Reaches(sc, s, t) && WellFormed(sc, t) && Reaches(sc, t, u)
    ensures Reaches(sc, s, u)
  {
    var first :| Run(sc, s, first) == Some(t);
    var second :| Run(sc, t, second) == Some(u);
    RunAppend(sc, s, first, second);
  }
}
