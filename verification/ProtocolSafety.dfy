/** What every run of the transfer keeps: agreement of the two ends, soundness of acknowledgements, and the result. */
module ProtocolSafety {
  import opened Bytes
  import opened Transfer
  import opened Reassembly
  import opened Protocol

  /** A file with contents, and a network that keeps windows apart unless there are at most two of them. */
  ghost predicate Proper(sc: Scenario)
  {
    sc.cfg.Valid() && sc.file != [] && (sc.ordered || sc.Count() <= 2)
  }

  /** Window `k` as the receiver should see it. */
  function LayoutOf(sc: Scenario, k: nat): (r: Layout)
    requires sc.cfg.Valid() && k < sc.Count()
  {
    Layout(Base(sc.cfg, k), Blocks(sc.cfg, sc.file, k), k == sc.Count() - 1)
  }

  function Wire(sc: Scenario, k: nat): (r: seq<seq<byte>>)
    requires sc.cfg.Valid() && k < sc.Count()
  {
    Packets(sc.cfg, sc.file, k)
  }

  lemma LayoutFacts(sc: Scenario, k: nat)
    requires sc.cfg.Valid() && sc.file != [] && k < sc.Count()
    ensures LayoutOf(sc, k).Fits(sc.cfg)
    ensures LayoutOf(sc, k).Data() == Windows(sc.cfg, sc.file)[k]
    ensures PacketsOfLayout(sc.cfg, LayoutOf(sc, k), Wire(sc, k))
    ensures LayoutOf(sc, k).Ack(sc.cfg) == ExpectedAck(sc.cfg, Base(sc.cfg, k), |Wire(sc, k)|)
  {
    BlockFacts(sc.cfg, sc.file, k);
    forall i | 0 <= i < |Wire(sc, k)|
      ensures Carries(sc.cfg, LayoutOf(sc, k), i, Wire(sc, k)[i])
    {
      PacketFacts(sc.cfg, sc.file, k, i);
    }
  }

  // ---------------------------------------------------------------------------------------------
  // The invariant

  /** The final block needs no remembering: it is full, or it is alone in its window. */
  ghost predicate SelfEvident(sc: Scenario)
    requires sc.cfg.Valid() && sc.file != []
  {
    WindowFacts(sc.cfg, sc.file);
    var l := LayoutOf(sc, sc.Count() - 1);
    |l.blocks| == 1 || (l.blocks != [] && |l.FinalBlock()| == sc.cfg.blocksize)
  }

  /** What a finished client holds: the file, and perhaps fewer than a block's worth of excess. */
  ghost predicate Result(sc: Scenario, output: seq<byte>)
    requires sc.cfg.Valid() && sc.file != []
  {
    && sc.file <= output
    && |output| < |sc.file| + sc.cfg.blocksize
    && (sc.variant == RC.Repaired || SelfEvident(sc) ==> output == sc.file)
  }

  ghost predicate ServerInv(sc: Scenario, v: Server)
    requires sc.cfg.Valid()
  {
    && v.window < sc.Count()
    && (!v.finished ==> v.base == Base(sc.cfg, v.window) && v.next <= |Wire(sc, v.window)|)
    && (v.finished ==> v.window == sc.Count() - 1)
  }

  ghost predicate CollectorInv(sc: Scenario, k: nat, w: RC.Collector)
    requires sc.cfg.Valid() && sc.file != [] && k < sc.Count()
  {
    LayoutFacts(sc, k);
    Holds(sc.cfg, LayoutOf(sc, k), w) && !Full(LayoutOf(sc, k), w.received)
  }

  ghost predicate ClientInv(sc: Scenario, c: RC.Client)
    requires sc.cfg.Valid() && sc.file != []
  {
    && c.windows <= sc.Count()
    && c.base == Base(sc.cfg, c.windows)
    && (c.done <==> c.windows == sc.Count())
    && (c.collector.Some? ==> !c.done && CollectorInv(sc, c.windows, c.collector.value))
    && (if c.done then Result(sc, c.output)
        else c.output == Flatten(Windows(sc.cfg, sc.file)[..c.windows]))
  }

  /** The client has completed the server's window or is collecting it. */
  ghost predicate InStep(sc: Scenario, s: System)
    requires sc.cfg.Valid()
  {
    var c := s.client.windows;
    if s.server.finished then c == sc.Count()
    else c == s.server.window || c == s.server.window + 1
  }

  ghost predicate FlightInv(sc: Scenario, s: System, fl: Flight)
    requires sc.cfg.Valid()
  {
    && fl.window <= s.server.window < sc.Count()
    && fl.index < |Wire(sc, fl.window)|
    && fl.raw == Wire(sc, fl.window)[fl.index]
    && (!s.client.done ==> s.client.windows <= fl.window + 1)
    && fl.attempt <= s.server.attempt
    && (fl.attempt == s.server.attempt && !s.server.finished ==> fl.window == s.server.window)
  }

  /** Packets are on their way in the order of their windows. */
  ghost predicate WindowsAscend(data: seq<Flight>)
  {
    forall i, j | 0 <= i < j < |data| :: data[i].window <= data[j].window
  }

  ghost predicate DataInv(sc: Scenario, s: System)
    requires sc.cfg.Valid()
  {
    && (forall fl | fl in s.data :: FlightInv(sc, s, fl))
    && (sc.ordered ==> WindowsAscend(s.data))
  }

  /** Acknowledgements for the current attempt exist only if the client has completed the current window. */
  ghost predicate ReplyInv(s: System, r: Reply)
  {
    && r.attempt <= s.server.attempt
    && (r.attempt == s.server.attempt && !s.server.finished ==> s.client.windows == s.server.window + 1)
  }

  /** While the client is a window ahead it has stored nothing. */
  ghost predicate NothingEarly(s: System)
  {
    !s.server.finished && s.client.windows == s.server.window + 1 && s.client.collector.Some? ==>
      forall j | 0 <= j < |s.client.collector.value.received| :: !s.client.collector.value.received[j]
  }

  ghost predicate Inv(sc: Scenario, s: System)
    requires Proper(sc)
  {
    && ServerInv(sc, s.server)
    && ClientInv(sc, s.client)
    && InStep(sc, s)
    && DataInv(sc, s)
    && (forall r | r in s.replies :: ReplyInv(s, r))
    && NothingEarly(s)
  }

  lemma InvWellFormed(sc: Scenario, s: System)
    requires Proper(sc) && Inv(sc, s)
    ensures WellFormed(sc, s)
    ensures !s.server.finished ==> Outgoing(sc, s.server) == Wire(sc, s.server.window)
    ensures !s.server.finished ==>
              Expected(sc, s.server) == ExpectedAck(sc.cfg, s.server.base, |Wire(sc, s.server.window)|)
  {
  }

  lemma InitialInv(sc: Scenario)
    requires Proper(sc)
    ensures Inv(sc, Initial)
  {
    WindowFacts(sc.cfg, sc.file);
    assert Windows(sc.cfg, sc.file)[..0] == [];
  }

  // ---------------------------------------------------------------------------------------------
  // What the client makes of a packet

  /** A packet of the window being collected: it is stored, and if that completes the window, the window is appended
      and the acknowledgement the server waits for is sent. */
  ghost predicate Progressed(sc: Scenario, c: RC.Client, i: nat, c': RC.Client)
    requires sc.cfg.Valid() && sc.file != [] && ClientInv(sc, c) && c.collector.Some?
    requires i < |Wire(sc, c.windows)|
  {
    LayoutFacts(sc, c.windows);
    var l, w := LayoutOf(sc, c.windows), c.collector.value;
    if Full(l, w.received[i := true]) then
      && c'.collector.None? && c'.windows == c.windows + 1
      && c'.sent == c.sent + Repeat(l.Ack(sc.cfg), if l.last then NUM_EOF_ACKS else 1)
      && c.output + l.Data() <= c'.output
      && |c'.output| == |c.output| + |l.Data()| + ExcessSize(sc.cfg, sc.variant, l, i)
    else
      && c'.collector.Some? && c'.windows == c.windows
      && c'.sent == c.sent
      && c'.collector.value.received == w.received[i := true]
  }

  /** The completed windows and the one that is appended to them. */
  lemma WindowAppended(sc: Scenario, k: nat)
    requires sc.cfg.Valid() && sc.file != [] && k < sc.Count()
    ensures var ws := Windows(sc.cfg, sc.file);
            && Flatten(ws[..k + 1]) == Flatten(ws[..k]) + LayoutOf(sc, k).Data()
            && (k + 1 == sc.Count() ==> Flatten(ws[..k + 1]) == sc.file)
  {
    var ws := Windows(sc.cfg, sc.file);
    LayoutFacts(sc, k);
    FlattenSnoc(ws, k);
    WindowFacts(sc.cfg, sc.file);
    assert ws[..|ws|] == ws;
  }

  /** The output after appending window `k` to the windows before it, in the two cases. */
  lemma OutputGrown(sc: Scenario, k: nat, i: nat, output: seq<byte>, written: seq<byte>)
    requires sc.cfg.Valid() && sc.file != [] && k < sc.Count()
    requires output == Flatten(Windows(sc.cfg, sc.file)[..k])
    requires LayoutOf(sc, k).Fits(sc.cfg) && i < |LayoutOf(sc, k).blocks|
    requires LayoutOf(sc, k).Data() <= written
    requires |written| == |LayoutOf(sc, k).Data()| + ExcessSize(sc.cfg, sc.variant, LayoutOf(sc, k), i)
    ensures if k + 1 == sc.Count() then Result(sc, output + written)
            else output + written == Flatten(Windows(sc.cfg, sc.file)[..k + 1])
  {
    WindowAppended(sc, k);
    assert output + LayoutOf(sc, k).Data() <= output + written;
  }

  lemma AbsorbedReturn(sc: Scenario, c: RC.Client, i: nat, o: RC.Outcome)
    requires Proper(sc) && ClientInv(sc, c) && c.collector.Some? && o.Return?
    requires LayoutOf(sc, c.windows).Fits(sc.cfg) && i < |LayoutOf(sc, c.windows).blocks|
    requires Collected(sc.cfg, sc.variant, LayoutOf(sc, c.windows), c.collector.value, i, o)
    ensures ClientInv(sc, RC.Absorb(sc.cfg, c, o))
  {
    BasesAlternate(sc.cfg, c.windows);
    OutputGrown(sc, c.windows, i, c.output, o.written);
  }

  lemma AbsorbedContinue(sc: Scenario, c: RC.Client, i: nat, o: RC.Outcome)
    requires Proper(sc) && ClientInv(sc, c) && c.collector.Some? && o.Continue?
    requires LayoutOf(sc, c.windows).Fits(sc.cfg) && i < |LayoutOf(sc, c.windows).blocks|
    requires Collected(sc.cfg, sc.variant, LayoutOf(sc, c.windows), c.collector.value, i, o)
    ensures ClientInv(sc, RC.Absorb(sc.cfg, c, o))
  {
  }

  lemma AbsorbedProgress(sc: Scenario, c: RC.Client, i: nat, o: RC.Outcome)
    requires Proper(sc) && ClientInv(sc, c) && c.collector.Some?
    requires i < |Wire(sc, c.windows)|
    requires LayoutOf(sc, c.windows).Fits(sc.cfg) && i < |LayoutOf(sc, c.windows).blocks|
    requires Collected(sc.cfg, sc.variant, LayoutOf(sc, c.windows), c.collector.value, i, o)
    ensures Progressed(sc, c, i, RC.Absorb(sc.cfg, c, o))
  {
    if o.Continue? {
      assert c.sent + [] == c.sent;
    }
  }

  lemma Absorbed(sc: Scenario, c: RC.Client, i: nat, o: RC.Outcome)
    requires Proper(sc) && ClientInv(sc, c) && c.collector.Some?
    requires i < |Wire(sc, c.windows)|
    requires LayoutOf(sc, c.windows).Fits(sc.cfg) && i < |LayoutOf(sc, c.windows).blocks|
    requires Collected(sc.cfg, sc.variant, LayoutOf(sc, c.windows), c.collector.value, i, o)
    ensures Progressed(sc, c, i, RC.Absorb(sc.cfg, c, o))
    ensures ClientInv(sc, RC.Absorb(sc.cfg, c, o))
  {
    AbsorbedProgress(sc, c, i, o);
    if o.Return? {
      AbsorbedReturn(sc, c, i, o);
    } else {
      AbsorbedContinue(sc, c, i, o);
    }
  }

  lemma OwnPacketReceived(sc: Scenario, c: RC.Client, i: nat)
    requires Proper(sc) && ClientInv(sc, c) && c.collector.Some?
    requires i < |Wire(sc, c.windows)|
    ensures var c' := RC.ClientReceive(sc.cfg, sc.variant, c, Wire(sc, c.windows)[i]);
            Progressed(sc, c, i, c') && ClientInv(sc, c')
  {
    var l, w, r := LayoutOf(sc, c.windows), c.collector.value, Wire(sc, c.windows)[i];
    LayoutFacts(sc, c.windows);
    OwnPacket(sc.cfg, sc.variant, l, w, i, r);
    Absorbed(sc, c, i, RC.OnDatagram(sc.cfg, sc.variant, w, r));
  }

  /** A packet of the window before: the client only repeats that window's acknowledgement. */
  lemma StaleOutcome(sc: Scenario, w: RC.Collector, k: nat, i: nat)
    requires sc.cfg.Valid() && sc.file != [] && k + 1 < sc.Count() && i < |Wire(sc, k)|
    requires RC.Shaped(sc.cfg, w) && w.base == Base(sc.cfg, k + 1)
    ensures RC.OnDatagram(sc.cfg, sc.variant, w, Wire(sc, k)[i]) == RC.Continue(w, [LayoutOf(sc, k).Ack(sc.cfg)])
  {
    LayoutFacts(sc, k);
    BasesAlternate(sc.cfg, k);
    StalePacket(sc.cfg, sc.variant, LayoutOf(sc, k), w, i, Wire(sc, k)[i]);
  }

  lemma StalePacketReceived(sc: Scenario, c: RC.Client, k: nat, i: nat)
    requires Proper(sc) && ClientInv(sc, c) && c.collector.Some? && k + 1 == c.windows
    requires i < |Wire(sc, k)|
    ensures RC.ClientReceive(sc.cfg, sc.variant, c, Wire(sc, k)[i])
         == c.(sent := c.sent + [LayoutOf(sc, k).Ack(sc.cfg)])
  {
    var w := c.collector.value;
    StaleOutcome(sc, w, k, i);
    Repeated(sc, c, RC.OnDatagram(sc.cfg, sc.variant, w, Wire(sc, k)[i]), LayoutOf(sc, k).Ack(sc.cfg));
  }

  lemma Repeated(sc: Scenario, c: RC.Client, o: RC.Outcome, ack: byte)
    requires sc.cfg.Valid() && c.collector.Some? && o == RC.Continue(c.collector.value, [ack])
    ensures RC.Absorb(sc.cfg, c, o) == c.(sent := c.sent + [ack])
  {
  }

  // ---------------------------------------------------------------------------------------------
  // Every step keeps the invariant

  lemma RemoveKeeps(data: seq<Flight>, i: nat)
    requires i < |data|
    ensures forall fl | fl in Remove(data, i) :: fl in data
    ensures WindowsAscend(data) ==> WindowsAscend(Remove(data, i))
  {
  }

  lemma TwiceKeeps(data: seq<Flight>, i: nat)
    requires i < |data|
    ensures forall fl | fl in Twice(data, i) :: fl in data
    ensures WindowsAscend(data) ==> WindowsAscend(Twice(data, i))
  {
  }

  lemma SendStep(sc: Scenario, s: System, e: Event)
    requires Proper(sc) && Inv(sc, s) && WellFormed(sc, s)
    requires e.Send? && Enabled(sc, s, e)
    ensures Inv(sc, Step(sc, s, e))
  {
    InvWellFormed(sc, s);
    var t := Step(sc, s, e);
    forall fl | fl in t.data
      ensures FlightInv(sc, t, fl)
    {
      assert fl in s.data || fl == t.data[|s.data|];
    }
    forall i, j | 0 <= i < j < |t.data| && sc.ordered
      ensures t.data[i].window <= t.data[j].window
    {
      assert FlightInv(sc, t, t.data[i]);
    }
    assert forall r | r in t.replies :: ReplyInv(s, r) ==> ReplyInv(t, r);
  }

  lemma TimeoutStep(sc: Scenario, s: System, e: Event)
    requires Proper(sc) && Inv(sc, s) && WellFormed(sc, s)
    requires e.Timeout? && Enabled(sc, s, e)
    ensures Inv(sc, Step(sc, s, e))
  {
    var t := Step(sc, s, e);
    assert forall fl | fl in t.data :: FlightInv(sc, s, fl) ==> FlightInv(sc, t, fl);
    assert forall r | r in t.replies :: ReplyInv(s, r) ==> ReplyInv(t, r);
  }

  lemma EnterStep(sc: Scenario, s: System, e: Event)
    requires Proper(sc) && Inv(sc, s) && WellFormed(sc, s)
    requires e.Enter? && Enabled(sc, s, e)
    ensures Inv(sc, Step(sc, s, e))
  {
    var t, k := Step(sc, s, e), s.client.windows;
    LayoutFacts(sc, k);
    FreshHolds(sc.cfg, LayoutOf(sc, k), e.junk);
    assert forall fl | fl in t.data :: FlightInv(sc, s, fl) ==> FlightInv(sc, t, fl);
    assert forall r | r in t.replies :: ReplyInv(s, r) ==> ReplyInv(t, r);
  }

  lemma DataChannelStep(sc: Scenario, s: System, e: Event)
    requires Proper(sc) && Inv(sc, s) && WellFormed(sc, s)
    requires e.Lose? || e.Duplicate?
    requires Enabled(sc, s, e)
    ensures Inv(sc, Step(sc, s, e))
  {
    var t := Step(sc, s, e);
    RemoveKeeps(s.data, e.i);
    TwiceKeeps(s.data, e.i);
    assert forall fl | fl in t.data :: FlightInv(sc, s, fl) ==> FlightInv(sc, t, fl);
    assert forall r | r in t.replies :: ReplyInv(s, r) ==> ReplyInv(t, r);
  }

  lemma ReplyChannelStep(sc: Scenario, s: System, e: Event)
    requires Proper(sc) && Inv(sc, s) && WellFormed(sc, s)
    requires e.LoseReply? || e.DuplicateReply?
    requires Enabled(sc, s, e)
    ensures Inv(sc, Step(sc, s, e))
  {
    var t := Step(sc, s, e);
    assert forall fl | fl in t.data :: FlightInv(sc, s, fl) ==> FlightInv(sc, t, fl);
    forall r | r in t.replies
      ensures ReplyInv(t, r)
    {
      assert r in s.replies;
    }
  }

  lemma ReplyStep(sc: Scenario, s: System, e: Event)
    requires Proper(sc) && Inv(sc, s) && WellFormed(sc, s)
    requires e.DeliverReply? && Enabled(sc, s, e)
    ensures Inv(sc, Step(sc, s, e))
  {
    var t := Step(sc, s, e);
    BasesAlternate(sc.cfg, s.server.window);
    assert ReplyInv(s, s.replies[e.i]);
    forall fl | fl in t.data
      ensures FlightInv(sc, t, fl)
    {
      assert FlightInv(sc, s, fl);
    }
    forall r | r in t.replies
      ensures ReplyInv(t, r)
    {
      assert r in s.replies;
    }
  }

  /** A delivered packet belongs to the window the client is collecting or to the one before, and on an ordered
      network everything still on its way is not older. */
  lemma DeliveredWindow(sc: Scenario, s: System, i: nat)
    requires Proper(sc) && Inv(sc, s) && WellFormed(sc, s)
    requires Enabled(sc, s, Deliver(i))
    ensures var fl := s.data[i];
            && FlightInv(sc, s, fl)
            && (fl.window == s.client.windows || fl.window + 1 == s.client.windows)
            && (sc.ordered ==> forall j | 0 <= j < |s.data| :: s.data[j].window >= fl.window)
  {
    assert FlightInv(sc, s, s.data[i]);
  }

  /** What a datagram of window `k` makes of a client that collects this window or the next. */
  ghost predicate Reacted(sc: Scenario, c: RC.Client, k: nat, i: nat, c': RC.Client)
    requires sc.cfg.Valid() && sc.file != [] && ClientInv(sc, c) && c.collector.Some?
    requires k < sc.Count() && i < |Wire(sc, k)|
  {
    && ClientInv(sc, c')
    && c.sent <= c'.sent
    && (if k == c.windows then Progressed(sc, c, i, c')
        else c' == c.(sent := c.sent + [LayoutOf(sc, k).Ack(sc.cfg)]))
  }

  lemma OwnReaction(sc: Scenario, c: RC.Client, k: nat, i: nat, c': RC.Client)
    requires Proper(sc) && ClientInv(sc, c) && c.collector.Some? && k == c.windows && i < |Wire(sc, k)|
    requires c' == RC.ClientReceive(sc.cfg, sc.variant, c, Wire(sc, k)[i])
    ensures Reacted(sc, c, k, i, c')
  {
    OwnPacketReceived(sc, c, i);
  }

  lemma Answered(sc: Scenario, c: RC.Client, k: nat, i: nat, c': RC.Client)
    requires sc.cfg.Valid() && sc.file != [] && ClientInv(sc, c) && c.collector.Some? && k + 1 == c.windows
    requires i < |Wire(sc, k)|
    requires c' == c.(sent := c.sent + [LayoutOf(sc, k).Ack(sc.cfg)])
    ensures Reacted(sc, c, k, i, c')
  {
  }

  lemma StaleReaction(sc: Scenario, c: RC.Client, k: nat, i: nat, c': RC.Client)
    requires Proper(sc) && ClientInv(sc, c) && c.collector.Some? && k + 1 == c.windows && i < |Wire(sc, k)|
    requires c' == RC.ClientReceive(sc.cfg, sc.variant, c, Wire(sc, k)[i])
    ensures Reacted(sc, c, k, i, c')
  {
    StalePacketReceived(sc, c, k, i);
    Answered(sc, c, k, i, c');
  }

  lemma ClientReacts(sc: Scenario, c: RC.Client, k: nat, i: nat, c': RC.Client)
    requires Proper(sc) && ClientInv(sc, c) && c.collector.Some?
    requires k < sc.Count() && i < |Wire(sc, k)| && (k == c.windows || k + 1 == c.windows)
    requires c' == RC.ClientReceive(sc.cfg, sc.variant, c, Wire(sc, k)[i])
    ensures Reacted(sc, c, k, i, c')
  {
    if k == c.windows {
      OwnReaction(sc, c, k, i, c');
    } else {
      StaleReaction(sc, c, k, i, c');
    }
  }

  /** The client after a delivery: a packet of its own window or of the one before. */
  lemma DeliveryCases(sc: Scenario, s: System, i: nat)
    requires Proper(sc) && Inv(sc, s) && WellFormed(sc, s)
    requires Enabled(sc, s, Deliver(i))
    ensures var fl := s.data[i];
            && FlightInv(sc, s, fl)
            && (fl.window == s.client.windows || fl.window + 1 == s.client.windows)
            && Reacted(sc, s.client, fl.window, fl.index, Step(sc, s, Deliver(i)).client)
  {
    DeliveredWindow(sc, s, i);
    ClientReacts(sc, s.client, s.data[i].window, s.data[i].index, Step(sc, s, Deliver(i)).client);
  }

  /** The answers to a delivery are addressed to its attempt, and there are none while the window stays incomplete. */
  lemma AnswerFacts(sc: Scenario, s: System, i: nat)
    requires Proper(sc) && Inv(sc, s) && WellFormed(sc, s) && Enabled(sc, s, Deliver(i))
    ensures var t := Step(sc, s, Deliver(i));
            forall r | r in t.replies :: r in s.replies
              || (r.attempt == s.data[i].attempt && t.client.windows == s.data[i].window + 1)
  {
    DeliveryCases(sc, s, i);
    var t, fl := Step(sc, s, Deliver(i)), s.data[i];
    var answers := Answers(fl.attempt, s.client, t.client);
    assert s.client.windows == fl.window && t.client.windows == s.client.windows ==> answers == [];
    assert forall r | r in answers :: r.attempt == fl.attempt;
  }

  lemma DeliverStep(sc: Scenario, s: System, e: Event)
    requires Proper(sc) && Inv(sc, s) && WellFormed(sc, s)
    requires e.Deliver? && Enabled(sc, s, e)
    ensures Inv(sc, Step(sc, s, e))
  {
    var t := Step(sc, s, e);
    DeliveredWindow(sc, s, e.i);
    DeliveryCases(sc, s, e.i);
    AnswerFacts(sc, s, e.i);
    RemoveKeeps(s.data, e.i);
    forall x | x in t.data
      ensures FlightInv(sc, t, x)
    {
      assert FlightInv(sc, s, x);
    }
    forall r | r in t.replies
      ensures ReplyInv(t, r)
    {
      assert r in s.replies || r.attempt == s.data[e.i].attempt;
    }
  }

  lemma StepInv(sc: Scenario, s: System, e: Event)
    requires Proper(sc) && Inv(sc, s) && WellFormed(sc, s)
    requires Enabled(sc, s, e)
    ensures Inv(sc, Step(sc, s, e))
  {
    match e
    case Send => SendStep(sc, s, e);
    case Timeout => TimeoutStep(sc, s, e);
    case Enter(_) => EnterStep(sc, s, e);
    case Deliver(_) => DeliverStep(sc, s, e);
    case Lose(_) => DataChannelStep(sc, s, e);
    case Duplicate(_) => DataChannelStep(sc, s, e);
    case DeliverReply(_) => ReplyStep(sc, s, e);
    case LoseReply(_) => ReplyChannelStep(sc, s, e);
    case DuplicateReply(_) => ReplyChannelStep(sc, s, e);
  }

  lemma {:induction false} RunInv(sc: Scenario, s: System, events: seq<Event>)
    requires Proper(sc) && Inv(sc, s) && WellFormed(sc, s)
    requires Run(sc, s, events).Some?
    ensures Inv(sc, Run(sc, s, events).value)
    decreases |events|
  {
    if events != [] {
      StepInv(sc, s, events[0]);
      RunInv(sc, Step(sc, s, events[0]), events[1..]);
    }
  }

  /** The states of all runs. */
  ghost predicate Reachable(sc: Scenario, s: System)
    requires sc.cfg.Valid()
  {
    InitialWellFormed(sc);
    Reaches(sc, Initial, s)
  }

  lemma ReachableInv(sc: Scenario, s: System)
    requires Proper(sc) && Reachable(sc, s)
    ensures Inv(sc, s) && WellFormed(sc, s)
  {
    InitialWellFormed(sc);
    InitialInv(sc);
    var events :| Run(sc, Initial, events) == Some(s);
    RunInv(sc, Initial, events);
  }

  // ---------------------------------------------------------------------------------------------
  // Main results

  /** Agreement: in every reachable state the client has completed as many windows as the server has left, or one
      more, and as long as it has not finished, its output is exactly those windows of the file. */
  lemma Agreement(sc: Scenario, s: System)
    requires Proper(sc) && Reachable(sc, s)
    ensures WellFormed(sc, s)
    ensures var c := s.client.windows;
            && (!s.server.finished ==> c == s.server.window || c == s.server.window + 1)
            && (s.server.finished ==> s.client.done)
            && (s.client.done <==> c == sc.Count())
            && (!s.client.done ==> c < sc.Count() && s.client.output == Flatten(Windows(sc.cfg, sc.file)[..c]))
  {
    ReachableInv(sc, s);
  }

  /** What order means: on an ordered network, exactly the packets of the oldest window under way may arrive, in any
      order among themselves. */
  lemma ArrivesIff(sc: Scenario, s: System, i: nat)
    requires Proper(sc) && Reachable(sc, s) && sc.ordered && i < |s.data|
    ensures WellFormed(sc, s)
    ensures Enabled(sc, s, Deliver(i)) <==> s.client.collector.Some? && s.data[i].window == s.data[0].window
    ensures forall j :: 0 <= j < |s.data| ==> s.data[0].window <= s.data[j].window
  {
    ReachableInv(sc, s);
  }

  /** A number of window `k` lies in the range accepted for window `c` only if they are the same window, when
      `c` is `k` or the next. */
  lemma RangesApart(cfg: Config, k: nat, i: nat, c: nat)
    requires i < cfg.windowsize && (c == k || c == k + 1)
    ensures Base(cfg, c) <= Base(cfg, k) + i < Base(cfg, c) + cfg.windowsize <==> k == c
  {
  }

  /** The doubled sequence space suffices: whenever a datagram arrives, in any reachable state, the client's range
      check tells its own window from the one before, and no other window's packet can arrive. Both ends number
      their windows from 0 and W in turn, and no number exceeds a byte. */
  lemma SequenceSpaceSuffices(sc: Scenario, s: System, i: nat)
    requires Proper(sc) && Reachable(sc, s)
    requires WellFormed(sc, s) && Enabled(sc, s, Deliver(i))
    ensures s.data[i].raw != []
    ensures var fl, c := s.data[i], s.client;
            var num := Num(fl.raw[0]);
            var base := c.collector.value.base;
            && (base <= num < base + sc.cfg.windowsize <==> fl.window == c.windows)
            && (fl.window != c.windows ==> fl.window + 1 == c.windows)
            && base == c.base == Base(sc.cfg, c.windows)
            && num == Base(sc.cfg, fl.window) + fl.index < 128
    ensures !s.server.finished ==> s.server.base == Base(sc.cfg, s.server.window)
  {
    ReachableInv(sc, s);
    DeliveredWindow(sc, s, i);
    var fl := s.data[i];
    LayoutFacts(sc, fl.window);
    assert Carries(sc.cfg, LayoutOf(sc, fl.window), fl.index, fl.raw);
    RangesApart(sc.cfg, fl.window, fl.index, s.client.windows);
  }

  /** Acknowledgements are sound: when the server takes an acknowledgement for its current window, the client has
      already appended that very window to its output. */
  lemma AckSound(sc: Scenario, s: System, i: nat)
    requires Proper(sc) && Reachable(sc, s)
    requires WellFormed(sc, s) && Enabled(sc, s, DeliverReply(i))
    requires s.replies[i] == Reply(s.server.attempt, Expected(sc, s.server))
    ensures s.client.windows == s.server.window + 1
    ensures Flatten(Windows(sc.cfg, sc.file)[..s.server.window + 1]) <= s.client.output
  {
    ReachableInv(sc, s);
    assert ReplyInv(s, s.replies[i]);
    WindowFacts(sc.cfg, sc.file);
    var ws := Windows(sc.cfg, sc.file);
    if s.client.done {
      assert ws[..s.server.window + 1] == ws;
    }
  }

  /** When either end reports success, the client's output is the file, followed by less than one block of excess;
      and there is none if the client is repaired, or the final block is full or alone in its window. */
  lemma EndToEnd(sc: Scenario, s: System)
    requires Proper(sc) && Reachable(sc, s)
    requires s.client.done || s.server.finished
    ensures s.client.done
    ensures sc.file <= s.client.output
    ensures |s.client.output| < |sc.file| + sc.cfg.blocksize
    ensures sc.variant == RC.Repaired || SelfEvident(sc) ==> s.client.output == sc.file
  {
    ReachableInv(sc, s);
  }

  lemma NothingExtra(file: seq<byte>, output: seq<byte>, extra: int)
    requires file <= output && |output| == |file| + extra
    ensures output == file <==> extra == 0
  {
    if extra == 0 {
      assert output == output[..|file|];
    }
  }

  /** How much the completing packet makes the client write, in all. */
  lemma FinishedOutput(sc: Scenario, c: RC.Client, k: nat, i: nat, c': RC.Client)
    requires Proper(sc) && ClientInv(sc, c) && c.collector.Some? && k < sc.Count() && i < |Wire(sc, k)|
    requires Reacted(sc, c, k, i, c') && c'.done
    ensures k == sc.Count() - 1
    ensures i < |LayoutOf(sc, k).blocks|
    ensures sc.file <= c'.output
    ensures c'.output == sc.file <==> !WrongSize(sc.cfg, sc.variant, LayoutOf(sc, k), i)
    ensures WrongSize(sc.cfg, sc.variant, LayoutOf(sc, k), i) ==>
              |c'.output| == |sc.file| + sc.cfg.blocksize - |LayoutOf(sc, k).FinalBlock()|
  {
    LayoutFacts(sc, k);
    WindowAppended(sc, k);
    NothingExtra(sc.file, c'.output, ExcessSize(sc.cfg, sc.variant, LayoutOf(sc, k), i));
  }

  lemma FinishingStep(sc: Scenario, s: System, i: nat, c': RC.Client)
    requires Proper(sc) && Inv(sc, s) && WellFormed(sc, s) && Enabled(sc, s, Deliver(i))
    requires c' == Step(sc, s, Deliver(i)).client && c'.done
    ensures s.data[i].window < sc.Count() && s.data[i].index < |Wire(sc, s.data[i].window)|
    ensures Reacted(sc, s.client, s.data[i].window, s.data[i].index, c')
  {
    DeliveryCases(sc, s, i);
  }

  /** The exact outcome of the delivery that finishes the client: excess bytes are written if and only if that
      packet is not the one that ends the file, the final block is short, and the client is as written. */
  lemma FinishingDelivery(sc: Scenario, s: System, i: nat)
    requires Proper(sc) && Reachable(sc, s)
    requires WellFormed(sc, s) && Enabled(sc, s, Deliver(i))
    requires Step(sc, s, Deliver(i)).client.done
    ensures s.data[i].window == sc.Count() - 1
    ensures s.data[i].index < |Blocks(sc.cfg, sc.file, sc.Count() - 1)|
    ensures var output := Step(sc, s, Deliver(i)).client.output;
            var l := LayoutOf(sc, sc.Count() - 1);
            && sc.file <= output
            && (output == sc.file <==> !WrongSize(sc.cfg, sc.variant, l, s.data[i].index))
            && (WrongSize(sc.cfg, sc.variant, l, s.data[i].index) ==>
                |output| == |sc.file| + sc.cfg.blocksize - |l.FinalBlock()|)
  {
    ReachableInv(sc, s);
    var c' := Step(sc, s, Deliver(i)).client;
    FinishingStep(sc, s, i, c');
    FinishedOutput(sc, s.client, s.data[i].window, s.data[i].index, c');
  }
}
