/** The encrypted transfer is the plain transfer: same events, same states, same output; only the bytes on the wire
    differ. */
module EncryptedTransfer {
  import opened Bytes
  import opened Transfer
  import opened Reassembly
  import opened Protocol
  import opened ProtocolSafety

  function PlainConfig(cfg: Config): (r: Config) { cfg.(key := None) }

  function PlainScenario(sc: Scenario): (r: Scenario) { sc.(cfg := PlainConfig(sc.cfg)) }

  lemma SameLayout(sc: Scenario)
    requires sc.cfg.Valid()
    ensures PlainScenario(sc).cfg.Valid()
    ensures Windows(PlainScenario(sc).cfg, sc.file) == Windows(sc.cfg, sc.file)
    ensures forall k | 0 <= k < sc.Count() :: LayoutOf(PlainScenario(sc), k) == LayoutOf(sc, k)
  {
  }

  lemma SameCount(sc: Scenario, k: nat)
    requires sc.cfg.Valid() && sc.file != [] && k < sc.Count()
    ensures k < PlainScenario(sc).Count()
    ensures |Wire(PlainScenario(sc), k)| == |Wire(sc, k)|
  {
    SameLayout(sc);
    BlockFacts(sc.cfg, sc.file, k);
    BlockFacts(PlainConfig(sc.cfg), sc.file, k);
  }

  /** The same packet without encryption. */
  function PlainFlight(sc: Scenario, fl: Flight): (r: Flight)
    requires sc.cfg.Valid()
  {
    var plain := PlainScenario(sc);
    if fl.window < plain.Count() && fl.index < |Wire(plain, fl.window)| then
      fl.(raw := Wire(plain, fl.window)[fl.index])
    else fl
  }

  function PlainData(sc: Scenario, data: seq<Flight>): (d: seq<Flight>)
    requires sc.cfg.Valid()
    ensures |d| == |data|
  {
    seq(|data|, i requires 0 <= i < |data| => PlainFlight(sc, data[i]))
  }

  /** The state of the plain transfer that corresponds to a state of the encrypted one. */
  function PlainState(sc: Scenario, s: System): (r: System)
    requires sc.cfg.Valid()
  {
    s.(data := PlainData(sc, s.data))
  }

  lemma SameStore(cfg: Config, variant: RC.Variant, l: Layout, w: RC.Collector, i: nat)
    requires l.Fits(cfg) && RC.Shaped(cfg, w) && w.base == l.base && i < |l.blocks|
    ensures StoreOutcome(cfg, variant, l, w, i) == StoreOutcome(PlainConfig(cfg), variant, l, w, i)
  {
  }

  /** The receive loop sees the same in an encrypted packet as in the plain one. */
  lemma SameOutcome(cfg: Config, variant: RC.Variant, l: Layout, w: RC.Collector, i: nat, r: seq<byte>, r': seq<byte>)
    requires l.Fits(cfg) && RC.Shaped(cfg, w) && w.base == l.base && i < |l.blocks|
    requires Carries(cfg, l, i, r) && Carries(PlainConfig(cfg), l, i, r')
    ensures RC.OnDatagram(cfg, variant, w, r) == RC.OnDatagram(PlainConfig(cfg), variant, w, r')
  {
    OwnOutcome(cfg, variant, l, w, i, r);
    OwnOutcome(PlainConfig(cfg), variant, l, w, i, r');
    SameStore(cfg, variant, l, w, i);
  }

  lemma SameOwn(sc: Scenario, c: RC.Client, i: nat)
    requires Proper(sc) && ClientInv(sc, c) && c.collector.Some?
    requires i < |Wire(sc, c.windows)|
    requires c.windows < PlainScenario(sc).Count() && i < |Wire(PlainScenario(sc), c.windows)|
    ensures RC.ClientReceive(sc.cfg, sc.variant, c, Wire(sc, c.windows)[i])
         == RC.ClientReceive(PlainConfig(sc.cfg), sc.variant, c, Wire(PlainScenario(sc), c.windows)[i])
  {
    var k, w, plain := c.windows, c.collector.value, PlainScenario(sc);
    SameLayout(sc);
    LayoutFacts(sc, k);
    LayoutFacts(plain, k);
    SameOutcome(sc.cfg, sc.variant, LayoutOf(sc, k), w, i, Wire(sc, k)[i], Wire(plain, k)[i]);
    SameAbsorbed(sc.cfg, c, RC.OnDatagram(sc.cfg, sc.variant, w, Wire(sc, k)[i]));
  }

  lemma SameStale(sc: Scenario, c: RC.Client, k: nat, i: nat)
    requires Proper(sc) && ClientInv(sc, c) && c.collector.Some? && c.windows == k + 1
    requires i < |Wire(sc, k)|
    requires k < PlainScenario(sc).Count() && i < |Wire(PlainScenario(sc), k)|
    ensures RC.ClientReceive(sc.cfg, sc.variant, c, Wire(sc, k)[i])
         == RC.ClientReceive(PlainConfig(sc.cfg), sc.variant, c, Wire(PlainScenario(sc), k)[i])
  {
    SameRepeat(sc, c.collector.value, k, i);
    SameAbsorbed(sc.cfg, c, RC.OnDatagram(sc.cfg, sc.variant, c.collector.value, Wire(sc, k)[i]));
  }

  lemma SameRepeat(sc: Scenario, w: RC.Collector, k: nat, i: nat)
    requires sc.cfg.Valid() && sc.file != [] && k + 1 < sc.Count()
    requires RC.Shaped(sc.cfg, w) && w.base == Base(sc.cfg, k + 1)
    requires i < |Wire(sc, k)|
    requires k < PlainScenario(sc).Count() && i < |Wire(PlainScenario(sc), k)|
    ensures RC.OnDatagram(sc.cfg, sc.variant, w, Wire(sc, k)[i])
         == RC.OnDatagram(PlainConfig(sc.cfg), sc.variant, w, Wire(PlainScenario(sc), k)[i])
  {
    SameLayout(sc);
    LayoutFacts(sc, k);
    LayoutFacts(PlainScenario(sc), k);
    BasesAlternate(sc.cfg, k);
    SameStaleOutcome(sc.cfg, sc.variant, LayoutOf(sc, k), w, i, Wire(sc, k)[i], Wire(PlainScenario(sc), k)[i]);
  }

  lemma SameStaleOutcome(cfg: Config, variant: RC.Variant, l: Layout, w: RC.Collector, i: nat,
                         r: seq<byte>, r': seq<byte>)
    requires cfg.Valid() && l.Fits(cfg) && !l.last
    requires RC.Shaped(cfg, w) && w.base == NextBase(cfg, l.base)
    requires i < |l.blocks| && Carries(cfg, l, i, r) && Carries(PlainConfig(cfg), l, i, r')
    ensures RC.OnDatagram(cfg, variant, w, r) == RC.OnDatagram(PlainConfig(cfg), variant, w, r')
  {
    StalePacket(cfg, variant, l, w, i, r);
    StalePacket(PlainConfig(cfg), variant, l, w, i, r');
  }

  lemma SameReceive(sc: Scenario, s: System, i: nat)
    requires Proper(sc) && Inv(sc, s) && WellFormed(sc, s) && Enabled(sc, s, Deliver(i))
    ensures RC.ClientReceive(sc.cfg, sc.variant, s.client, s.data[i].raw)
         == RC.ClientReceive(PlainConfig(sc.cfg), sc.variant, s.client, PlainFlight(sc, s.data[i]).raw)
  {
    var fl := s.data[i];
    DeliveredWindow(sc, s, i);
    SameCount(sc, fl.window);
    if fl.window == s.client.windows {
      SameOwn(sc, s.client, fl.index);
    } else {
      SameStale(sc, s.client, fl.window, fl.index);
    }
  }

  lemma SameAbsorbed(cfg: Config, c: RC.Client, o: RC.Outcome)
    requires cfg.Valid()
    ensures RC.Absorb(cfg, c, o) == RC.Absorb(PlainConfig(cfg), c, o)
  {
  }

  lemma SameServer(sc: Scenario, s: System)
    requires Proper(sc) && Inv(sc, s) && !s.server.finished
    ensures WellFormed(sc, s) && WellFormed(PlainScenario(sc), PlainState(sc, s))
    ensures |Outgoing(PlainScenario(sc), s.server)| == |Outgoing(sc, s.server)|
    ensures Expected(PlainScenario(sc), s.server) == Expected(sc, s.server)
    ensures Outgoing(PlainScenario(sc), s.server) == Wire(PlainScenario(sc), s.server.window)
  {
    SameLayout(sc);
    SameCount(sc, s.server.window);
    InvWellFormed(sc, s);
  }

  lemma SameArrivals(sc: Scenario, s: System)
    requires sc.cfg.Valid()
    ensures forall i | 0 <= i < |s.data| ::
              MayArrive(PlainScenario(sc), PlainData(sc, s.data), i) <==> MayArrive(sc, s.data, i)
  {
    assert forall i | 0 <= i < |s.data| :: PlainData(sc, s.data)[i].window == s.data[i].window;
  }

  lemma SameEnabled(sc: Scenario, s: System, e: Event)
    requires Proper(sc) && Inv(sc, s) && WellFormed(sc, s)
    ensures WellFormed(PlainScenario(sc), PlainState(sc, s))
    ensures Enabled(PlainScenario(sc), PlainState(sc, s), e) <==> Enabled(sc, s, e)
  {
    SameLayout(sc);
    SameArrivals(sc, s);
    if !s.server.finished {
      SameServer(sc, s);
    }
  }

  lemma SameRemoval(sc: Scenario, data: seq<Flight>, i: nat)
    requires sc.cfg.Valid() && i < |data|
    ensures PlainData(sc, Remove(data, i)) == Remove(PlainData(sc, data), i)
  {
    var a, b := PlainData(sc, Remove(data, i)), Remove(PlainData(sc, data), i);
    forall j | 0 <= j < |a| ensures a[j] == b[j] {
      assert Remove(data, i)[j] == data[if j < i then j else j + 1];
    }
  }

  lemma SameCopy(sc: Scenario, data: seq<Flight>, i: nat)
    requires sc.cfg.Valid() && i < |data|
    ensures PlainData(sc, Twice(data, i)) == Twice(PlainData(sc, data), i)
  {
    var a, b := PlainData(sc, Twice(data, i)), Twice(PlainData(sc, data), i);
    forall j | 0 <= j < |a| ensures a[j] == b[j] {
      assert Twice(data, i)[j] == data[if j <= i then j else j - 1];
    }
  }

  lemma SameDelivery(sc: Scenario, s: System, i: nat)
    requires Proper(sc) && Inv(sc, s) && WellFormed(sc, s) && Enabled(sc, s, Deliver(i))
    requires WellFormed(PlainScenario(sc), PlainState(sc, s))
    requires Enabled(PlainScenario(sc), PlainState(sc, s), Deliver(i))
    ensures AfterDelivery(PlainScenario(sc), PlainState(sc, s), i) == PlainState(sc, AfterDelivery(sc, s, i))
  {
    SameReceive(sc, s, i);
    SameRemoval(sc, s.data, i);
    if !s.server.finished {
      SameServer(sc, s);
    }
  }

  lemma SameAdvance(sc: Scenario, v: Server)
    requires sc.cfg.Valid()
    ensures Advanced(PlainScenario(sc), v) == Advanced(sc, v)
  {
    SameLayout(sc);
    assert NextBase(PlainConfig(sc.cfg), v.base) == NextBase(sc.cfg, v.base);
  }

  lemma SameReply(sc: Scenario, s: System, i: nat)
    requires Proper(sc) && Inv(sc, s) && WellFormed(sc, s) && Enabled(sc, s, DeliverReply(i))
    requires WellFormed(PlainScenario(sc), PlainState(sc, s))
    ensures AfterReply(PlainScenario(sc), PlainState(sc, s), i) == PlainState(sc, AfterReply(sc, s, i))
  {
    SameServer(sc, s);
    SameAdvance(sc, s.server);
  }

  lemma SameSend(sc: Scenario, s: System)
    requires Proper(sc) && Inv(sc, s) && WellFormed(sc, s) && Enabled(sc, s, Send)
    requires WellFormed(PlainScenario(sc), PlainState(sc, s))
    requires Enabled(PlainScenario(sc), PlainState(sc, s), Send)
    ensures Step(PlainScenario(sc), PlainState(sc, s), Send) == PlainState(sc, Step(sc, s, Send))
  {
    var p, t := PlainState(sc, s), Step(sc, s, Send);
    SameServer(sc, s);
    SameLayout(sc);
    SameCount(sc, s.server.window);
    assert PlainData(sc, t.data) == p.data + [PlainFlight(sc, t.data[|s.data|])];
  }

  lemma SameStep(sc: Scenario, s: System, e: Event)
    requires Proper(sc) && Inv(sc, s) && WellFormed(sc, s) && Enabled(sc, s, e)
    requires WellFormed(PlainScenario(sc), PlainState(sc, s))
    requires Enabled(PlainScenario(sc), PlainState(sc, s), e)
    ensures Step(PlainScenario(sc), PlainState(sc, s), e) == PlainState(sc, Step(sc, s, e))
  {
    match e
    case Send =>
      SameSend(sc, s);
    case Deliver(i) =>
      SameDelivery(sc, s, i);
    case Lose(i) =>
      SameRemoval(sc, s.data, i);
    case Duplicate(i) =>
      SameCopy(sc, s.data, i);
    case DeliverReply(i) =>
      SameReply(sc, s, i);
    case _ =>
  }

  lemma {:induction false} SameRun(sc: Scenario, s: System, events: seq<Event>)
    requires Proper(sc) && Inv(sc, s) && WellFormed(sc, s)
    ensures WellFormed(PlainScenario(sc), PlainState(sc, s))
    ensures Run(PlainScenario(sc), PlainState(sc, s), events)
         == match Run(sc, s, events)
            case None => None
            case Some(t) => Some(PlainState(sc, t))
    decreases |events|
  {
    SameLayout(sc);
    if events != [] {
      SameEnabled(sc, s, events[0]);
      if Enabled(sc, s, events[0]) {
        SameStep(sc, s, events[0]);
        StepInv(sc, s, events[0]);
        SameRun(sc, Step(sc, s, events[0]), events[1..]);
      }
    }
  }

  /** The encrypted transfer refines the plain one in both directions: a sequence of events is a run of one if and
      only if it is a run of the other, and the two ends then agree on everything, the output included. */
  lemma EncryptionIsInvisible(sc: Scenario, events: seq<Event>)
    requires Proper(sc)
    ensures WellFormed(sc, Initial) && WellFormed(PlainScenario(sc), Initial)
    ensures Run(sc, Initial, events).Some? <==> Run(PlainScenario(sc), Initial, events).Some?
    ensures Run(sc, Initial, events).Some? ==>
              var t, p := Run(sc, Initial, events).value, Run(PlainScenario(sc), Initial, events).value;
              && t.client == p.client && t.server == p.server && t.replies == p.replies
              && |t.data| == |p.data|
              && forall i | 0 <= i < |t.data| :: p.data[i] == PlainFlight(sc, t.data[i])
  {
    InitialWellFormed(sc);
    InitialInv(sc);
    assert PlainState(sc, Initial) == Initial;
    SameRun(sc, Initial, events);
  }
}
