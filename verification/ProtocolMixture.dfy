/** What an unordered network can do to a file: packets of window 0 that arrive while window 2 is collected take the
    place of its blocks. */
module ProtocolMixture {
  import opened Bytes
  import opened Transfer
  import opened Reassembly
  import opened Protocol
  import opened ProtocolSafety
  import opened ProtocolProgress
  import opened ProtocolOrder

  /** The last block of the file is a block of its own, or the whole window is replaced. */
  ghost predicate Replaceable(sc: Scenario, h: nat)
  {
    && sc.cfg.Valid() && sc.file != [] && sc.Count() >= 3
    && 1 <= h <= sc.cfg.windowsize
    && (h == sc.cfg.windowsize || h < |Blocks(sc.cfg, sc.file, 2)|)
  }

  /** Window 2 with its first `h` blocks replaced by those of window 0; a whole window of these does not end the file. */
  function Mixture(sc: Scenario, h: nat): (l: Layout)
    requires sc.cfg.Valid() && sc.Count() >= 3 && h <= |Blocks(sc.cfg, sc.file, 0)|
  {
    var own := Blocks(sc.cfg, sc.file, 2);
    if h < |own| then Layout(Base(sc.cfg, 2), Blocks(sc.cfg, sc.file, 0)[..h] + own[h..], sc.Count() == 3)
    else Layout(Base(sc.cfg, 2), Blocks(sc.cfg, sc.file, 0)[..h], false)
  }

  lemma MixtureFits(sc: Scenario, h: nat)
    requires Replaceable(sc, h)
    ensures |Wire(sc, 0)| == |Blocks(sc.cfg, sc.file, 0)| == sc.cfg.windowsize
    ensures Mixture(sc, h).Fits(sc.cfg)
    ensures |Mixture(sc, h).blocks| == if h < |Blocks(sc.cfg, sc.file, 2)| then |Blocks(sc.cfg, sc.file, 2)| else h
  {
    BlockFacts(sc.cfg, sc.file, 0);
    BlockFacts(sc.cfg, sc.file, 2);
  }

  /** To a receiver the held packets and the rest of window 2 are the packets of the mixture. */
  lemma MixtureCarries(sc: Scenario, h: nat, i: nat)
    requires Replaceable(sc, h) && |Blocks(sc.cfg, sc.file, 0)| == |Wire(sc, 0)| == sc.cfg.windowsize
    requires Mixture(sc, h).Fits(sc.cfg) && i < |Mixture(sc, h).blocks|
    ensures i < |Wire(sc, if i < h then 0 else 2)|
    ensures Carries(sc.cfg, Mixture(sc, h), i, Wire(sc, if i < h then 0 else 2)[i])
  {
    var k := if i < h then 0 else 2;
    BlockFacts(sc.cfg, sc.file, 2);
    PacketFacts(sc.cfg, sc.file, k, i);
    var r := Wire(sc, k)[i];
    assert Payload(sc.cfg, r) == Mixture(sc, h).blocks[i];
  }

  // ---------------------------------------------------------------------------------------------
  // Deliveries in index order

  /** The collector holds exactly the first `i` blocks of the layout. */
  ghost predicate Filled(sc: Scenario, l: Layout, c: RC.Client, i: nat)
    requires sc.cfg.Valid()
  {
    && l.Fits(sc.cfg) && c.collector.Some? && !c.done && Holds(sc.cfg, l, c.collector.value)
    && forall j | 0 <= j < |c.collector.value.received| :: c.collector.value.received[j] <==> j < i
  }

  /** Block `i` is added; the last one completes the window, which is appended without excess. */
  ghost predicate FilledFurther(sc: Scenario, l: Layout, c: RC.Client, i: nat, c': RC.Client)
    requires sc.cfg.Valid()
  {
    if i + 1 < |l.blocks| then
      Filled(sc, l, c', i + 1) && c'.windows == c.windows && c'.output == c.output
    else
      c'.windows == c.windows + 1 && c'.output == c.output + l.Data() && c'.done == l.last
  }

  lemma FullAtTheEnd(l: Layout, received: seq<bool>, i: nat)
    requires i < |l.blocks| <= |received| && forall j | 0 <= j < |received| :: received[j] <==> j < i
    ensures Full(l, received[i := true]) <==> i + 1 == |l.blocks|
  {
    if i + 1 < |l.blocks| {
      assert !received[i := true][i + 1];
    }
  }

  lemma CollectedFurther(sc: Scenario, l: Layout, c: RC.Client, i: nat, o: RC.Outcome)
    requires sc.cfg.Valid() && Filled(sc, l, c, i) && i < |l.blocks|
    requires Collected(sc.cfg, sc.variant, l, c.collector.value, i, o)
    ensures FilledFurther(sc, l, c, i, RC.Absorb(sc.cfg, c, o))
  {
    FullAtTheEnd(l, c.collector.value.received, i);
    if o.Return? {
      assert o.written == l.Data();
    }
  }

  lemma ReceivedFurther(sc: Scenario, l: Layout, c: RC.Client, i: nat, r: seq<byte>)
    requires sc.cfg.Valid() && Filled(sc, l, c, i) && i < |l.blocks| && Carries(sc.cfg, l, i, r)
    ensures FilledFurther(sc, l, c, i, RC.ClientReceive(sc.cfg, sc.variant, c, r))
  {
    OwnPacket(sc.cfg, sc.variant, l, c.collector.value, i, r);
    CollectedFurther(sc, l, c, i, RC.OnDatagram(sc.cfg, sc.variant, c.collector.value, r));
  }

  lemma Onward(sc: Scenario, s: System, e: Event)
    requires sc.cfg.Valid() && Reachable(sc, s) && WellFormed(sc, s) && Enabled(sc, s, e)
    ensures Reachable(sc, Step(sc, s, e))
  {
    ReachesItself(sc, s);
    ReachesNext(sc, s, s, e);
    ReachableTransitively(sc, s, Step(sc, s, e));
  }

  /** Where the run stands: blocks 0 to `i` - 1 of the mixture have been delivered. */
  ghost predicate Filling(sc: Scenario, h: nat, s: System, i: nat)
  {
    && Replaceable(sc, h) && !sc.ordered && |Blocks(sc.cfg, sc.file, 0)| == |Wire(sc, 0)| == sc.cfg.windowsize
    && Reachable(sc, s) && WellFormed(sc, s)
    && !s.server.finished && s.server.window == 2 && s.server.base == Base(sc.cfg, 2)
    && s.client.windows == 2 && s.client.output == Flatten(Windows(sc.cfg, sc.file)[..2])
    && i < |Mixture(sc, h).blocks| && Filled(sc, Mixture(sc, h), s.client, i)
  }

  /** The third window has been completed, with the mixture in place of window 2. */
  ghost predicate Replaced(sc: Scenario, h: nat, s: System)
    requires Replaceable(sc, h) && h <= |Blocks(sc.cfg, sc.file, 0)|
  {
    && Reachable(sc, s) && s.client.windows == 3
    && s.client.output == Flatten(Windows(sc.cfg, sc.file)[..2]) + Mixture(sc, h).Data()
  }

  lemma DeliverFurther(sc: Scenario, h: nat, s: System, i: nat)
    requires Filling(sc, h, s, i) && s.data != [] && Carries(sc.cfg, Mixture(sc, h), i, s.data[0].raw)
    ensures Enabled(sc, s, Deliver(0))
    ensures var t := Step(sc, s, Deliver(0));
            && t.server == s.server && t.data == s.data[1..]
            && if i + 1 < |Mixture(sc, h).blocks| then Filling(sc, h, t, i + 1) else Replaced(sc, h, t)
  {
    ReceivedFurther(sc, Mixture(sc, h), s.client, i, s.data[0].raw);
    Onward(sc, s, Deliver(0));
    assert Remove(s.data, 0) == s.data[1..];
  }

  /** The held packets arrive. */
  lemma DeliverHeld(sc: Scenario, h: nat, s: System, i: nat) returns (t: System)
    requires Filling(sc, h, s, i) && i < h && s.data == FirstFlights(sc, h)[i..]
    ensures if h < |Mixture(sc, h).blocks| then Filling(sc, h, t, h) && t.server == s.server && t.data == []
            else Replaced(sc, h, t)
    decreases h - i
  {
    MixtureFits(sc, h);
    MixtureCarries(sc, h, i);
    assert s.data[0] == FirstFlights(sc, h)[i];
    DeliverFurther(sc, h, s, i);
    t := Step(sc, s, Deliver(0));
    if i + 1 < h {
      assert t.data == FirstFlights(sc, h)[i + 1..];
      t := DeliverHeld(sc, h, t, i + 1);
    }
  }

  lemma OneSent(sc: Scenario, h: nat, s: System, i: nat)
    requires Filling(sc, h, s, i) && s.data == [] && s.server.next < |Wire(sc, 2)|
    ensures Enabled(sc, s, Send) && Filling(sc, h, Step(sc, s, Send), i)
    ensures var v := s.server;
            Step(sc, s, Send) == s.(server := v.(next := v.next + 1),
                                    data := [Flight(2, v.attempt, v.next, Wire(sc, 2)[v.next])])
  {
    assert Outgoing(sc, s.server) == Wire(sc, 2);
    Onward(sc, s, Send);
  }

  /** The server's own first `h` packets are lost. */
  lemma LoseOwn(sc: Scenario, h: nat, s: System) returns (t: System)
    requires Filling(sc, h, s, h) && s.data == [] && s.server.next <= h < |Wire(sc, 2)|
    ensures Filling(sc, h, t, h) && t.data == [] && t.server.next == h
    decreases h - s.server.next
  {
    t := s;
    if s.server.next < h {
      OneSent(sc, h, s, h);
      var u := Step(sc, s, Send);
      Onward(sc, u, Lose(0));
      t := LoseOwn(sc, h, Step(sc, u, Lose(0)));
    }
  }

  /** The rest of window 2 arrives. */
  lemma DeliverOwn(sc: Scenario, h: nat, s: System, i: nat) returns (t: System)
    requires Filling(sc, h, s, i) && s.data == [] && h <= s.server.next == i < |Wire(sc, 2)|
    requires |Mixture(sc, h).blocks| == |Wire(sc, 2)|
    ensures Replaced(sc, h, t)
    decreases |Wire(sc, 2)| - i
  {
    OneSent(sc, h, s, i);
    var u := Step(sc, s, Send);
    MixtureCarries(sc, h, i);
    DeliverFurther(sc, h, u, i);
    t := Step(sc, u, Deliver(0));
    if i + 1 < |Wire(sc, 2)| {
      t := DeliverOwn(sc, h, t, i + 1);
    }
  }

  lemma BlankIsFilled(sc: Scenario, h: nat, s: System)
    requires Replaceable(sc, h) && !sc.ordered && |Blocks(sc.cfg, sc.file, 0)| == |Wire(sc, 0)| == sc.cfg.windowsize
    requires BeforeWindowTwo(sc, s, h) && Mixture(sc, h).Fits(sc.cfg)
    ensures Filling(sc, h, s, 0)
  {
    LayoutFacts(sc, 2);
  }

  /** On an unordered network, for windows of every size and a third window that may be short or the last: some run
      completes the third window with its first `h` blocks, or all of it, replaced by those of the first window. */
  lemma UnorderedReplaces(sc: Scenario, h: nat) returns (t: System)
    requires Replaceable(sc, h) && !sc.ordered
    ensures h <= |Blocks(sc.cfg, sc.file, 0)| && Replaced(sc, h, t)
  {
    MixtureFits(sc, h);
    WireNonEmpty(sc, 2);
    var s := HoldsBack(sc, h);
    BlankIsFilled(sc, h, s);
    assert FirstFlights(sc, h)[0..] == FirstFlights(sc, h);
    t := DeliverHeld(sc, h, s, 0);
    if h < |Mixture(sc, h).blocks| {
      t := LoseOwn(sc, h, t);
      t := DeliverOwn(sc, h, t, h);
    }
  }

  // ---------------------------------------------------------------------------------------------
  // When the output is wrong

  lemma {:induction false} FlattenInjective(a: seq<seq<byte>>, b: seq<seq<byte>>)
    requires |a| == |b| && forall i | 0 <= i < |a| :: |a[i]| == |b[i]|
    ensures Flatten(a) == Flatten(b) <==> a == b
  {
    if a != [] {
      FlattenInjective(a[1..], b[1..]);
      if Flatten(a) == Flatten(b) {
        assert a[0] == Flatten(a)[..|a[0]|] == Flatten(b)[..|b[0]|] == b[0];
        assert Flatten(a[1..]) == Flatten(a)[|a[0]|..] == Flatten(b)[|b[0]|..] == Flatten(b[1..]);
        assert a == [a[0]] + a[1..] && b == [b[0]] + b[1..];
      }
    }
  }

  lemma SameFront<T>(front: seq<T>, a: seq<T>, b: seq<T>)
    ensures front + a == front + b <==> a == b
  {
    if front + a == front + b {
      assert a == (front + a)[|front|..] == (front + b)[|front|..] == b;
    }
  }

  lemma MixedPrefix(a: seq<seq<byte>>, b: seq<seq<byte>>, h: nat)
    requires h <= |a| && h <= |b| && forall i | 0 <= i < h :: |a[i]| == |b[i]|
    ensures Flatten(a[..h] + b[h..]) == Flatten(b) <==> a[..h] == b[..h]
  {
    FlattenInjective(a[..h] + b[h..], b);
    assert b == b[..h] + b[h..];
    if a[..h] + b[h..] == b {
      assert a[..h] == (a[..h] + b[h..])[..h] == b[..h];
    }
  }

  /** What is replaced is the same as what replaces it. */
  predicate SameContents(sc: Scenario, h: nat)
    requires sc.cfg.Valid() && sc.Count() >= 3 && h <= |Blocks(sc.cfg, sc.file, 0)|
  {
    var own := Blocks(sc.cfg, sc.file, 2);
    if h < |own| then Blocks(sc.cfg, sc.file, 0)[..h] == own[..h]
    else Windows(sc.cfg, sc.file)[0] == Windows(sc.cfg, sc.file)[2]
  }

  lemma MixtureIsRightIff(sc: Scenario, h: nat)
    requires Replaceable(sc, h) && |Blocks(sc.cfg, sc.file, 0)| == sc.cfg.windowsize
    ensures Mixture(sc, h).Data() == Windows(sc.cfg, sc.file)[2] <==> SameContents(sc, h)
  {
    var first, own := Blocks(sc.cfg, sc.file, 0), Blocks(sc.cfg, sc.file, 2);
    BlockFacts(sc.cfg, sc.file, 0);
    BlockFacts(sc.cfg, sc.file, 2);
    if h < |own| {
      MixedPrefix(first, own, h);
    } else {
      assert first[..h] == first;
    }
  }

  /** And then the output is wrong if and only if what was replaced differs. */
  lemma UnorderedCorruptsIff(sc: Scenario, h: nat) returns (t: System)
    requires Replaceable(sc, h) && !sc.ordered
    ensures Reachable(sc, t) && t.client.windows == 3 && h <= |Blocks(sc.cfg, sc.file, 0)|
    ensures t.client.output == Flatten(Windows(sc.cfg, sc.file)[..2]) + Mixture(sc, h).Data()
    ensures t.client.output == Flatten(Windows(sc.cfg, sc.file)[..3]) <==> SameContents(sc, h)
  {
    MixtureFits(sc, h);
    t := UnorderedReplaces(sc, h);
    MixtureIsRightIff(sc, h);
    var ws := Windows(sc.cfg, sc.file);
    FlattenSnoc(ws, 2);
    SameFront(Flatten(ws[..2]), Mixture(sc, h).Data(), ws[2]);
  }

  /** So a file whose first and third window differ can be received wrongly, whatever the sizes. */
  lemma UnorderedCorrupts(sc: Scenario) returns (t: System)
    requires sc.cfg.Valid() && sc.file != [] && sc.Count() >= 3 && !sc.ordered
    requires Windows(sc.cfg, sc.file)[0] != Windows(sc.cfg, sc.file)[2]
    ensures Reachable(sc, t) && t.client.windows == 3
    ensures t.client.output == Flatten(Windows(sc.cfg, sc.file)[..2]) + Windows(sc.cfg, sc.file)[0]
    ensures t.client.output != Flatten(Windows(sc.cfg, sc.file)[..3])
  {
    BlockFacts(sc.cfg, sc.file, 0);
    BlockFacts(sc.cfg, sc.file, 2);
    var first := Blocks(sc.cfg, sc.file, 0);
    assert first[..sc.cfg.windowsize] == first;
    t := UnorderedCorruptsIff(sc, sc.cfg.windowsize);
  }
}
