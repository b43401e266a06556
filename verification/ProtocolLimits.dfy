/** Exactly when a transfer goes right: which file sizes the client as written can corrupt, the empty file, and what
    an unordered network can do. */
module ProtocolLimits {
  import opened Bytes
  import opened Transfer
  import opened Reassembly
  import opened Protocol
  import opened ProtocolSafety
  import opened ProtocolOrder
  import opened ProtocolProgress

  // ---------------------------------------------------------------------------------------------
  // Which sizes are safe

  /** The file ends with a full block, or with a window of one block. */
  predicate SafeSize(cfg: Config, size: nat)
    requires cfg.Valid()
  {
    size % cfg.blocksize == 0 || size % (cfg.blocksize * cfg.windowsize) < cfg.blocksize
  }

  lemma MultipleModulus(x: nat, n: nat, count: nat)
    requires n > 0 && count > 0
    ensures n * count > 0 && x % (n * count) % n == x % n
  {
    var c := n * count;
    assert c > 0 by { assert c >= n; }
    var q, r := x / c, x % c;
    assert x == c * q + r;
    assert c * q == n * (count * q);
    ModuloUnique(x, n, count * q + r / n, r % n) by {
      assert r == n * (r / n) + r % n;
      assert n * (count * q + r / n) == n * (count * q) + n * (r / n);
    }
  }

  /** `c` is the size of a full window and `last` that of the final one. */
  lemma SafeByLastWindow(size: nat, b: nat, c: nat, last: nat)
    requires 0 < b <= c && c % b == 0 && size % c % b == size % b
    requires last == if size % c == 0 then c else size % c
    ensures last % b == size % b
    ensures last <= b || last % b == 0 <==> size % b == 0 || size % c < b
  {
    assert 0 % b == 0;
    if last == b {
      assert b % b == 0;
    }
  }

  lemma SafeSizeIsSelfEvident(sc: Scenario)
    requires sc.cfg.Valid() && sc.file != []
    ensures SafeSize(sc.cfg, |sc.file|) <==> SelfEvident(sc)
  {
    var b, c, size := sc.cfg.blocksize, sc.cfg.WindowBytes(), |sc.file|;
    assert c == b * sc.cfg.windowsize by { TimesIsProduct(b, sc.cfg.windowsize); }
    assert c >= b;
    assert c % b == 0 by { ModuloUnique(c, b, sc.cfg.windowsize, 0); }
    assert size % c % b == size % b by { MultipleModulus(size, b, sc.cfg.windowsize); }
    WindowFacts(sc.cfg, sc.file);
    LastChunkSize(c, sc.file);
    var last := Windows(sc.cfg, sc.file)[sc.Count() - 1];
    SafeByLastWindow(size, b, c, |last|);
    LastChunkSize(b, last);
    OneChunk(b, last);
  }

  lemma OneChunk(n: nat, s: seq<byte>)
    requires n > 0 && s != []
    ensures |Chunks(n, s)| == 1 <==> |s| <= n
  {
    if |s| > n {
      ChunksExact(n, s[n..]);
    }
  }

  // ---------------------------------------------------------------------------------------------
  // A run that corrupts every other size

  lemma ReachLastWindow(sc: Scenario, s: System) returns (t: System)
    requires Proper(sc) && Reachable(sc, s)
    requires !s.client.done && !s.server.finished && s.server.next == 0 && s.data == [] && Blank(s.client)
    requires s.client.windows == s.server.window
    ensures Reachable(sc, t)
    ensures !t.client.done && !t.server.finished && t.server.next == 0 && t.data == [] && Blank(t.client)
    ensures t.client.windows == t.server.window == sc.Count() - 1
    decreases sc.Count() - s.server.window
  {
    ReachableInv(sc, s);
    if s.server.window == sc.Count() - 1 {
      t := s;
    } else {
      var u := OneAttemptSuffices(sc, s);
      ReachableInv(sc, u);
      t := ReachLastWindow(sc, u);
    }
  }

  /** The last window is being sent, its first block is lost, and blocks 1 to `next` - 1 have arrived. */
  ghost predicate FirstBlockMissing(sc: Scenario, s: System)
    requires Proper(sc)
  {
    && Reachable(sc, s) && Inv(sc, s) && WellFormed(sc, s)
    && !s.server.finished && s.data == []
    && s.client.windows == s.server.window == sc.Count() - 1
    && 1 <= s.server.next <= |Wire(sc, s.server.window)|
    && LacksFirst(s.client, s.server.next)
  }

  lemma Stepped(sc: Scenario, s: System, e: Event)
    requires Proper(sc) && Reachable(sc, s) && WellFormed(sc, s) && Inv(sc, s) && Enabled(sc, s, e)
    ensures Reachable(sc, Step(sc, s, e)) && Inv(sc, Step(sc, s, e))
  {
    StepInv(sc, s, e);
    ReachesItself(sc, s);
    ReachesNext(sc, s, s, e);
    ReachableTransitively(sc, s, Step(sc, s, e));
  }

  lemma LoseFirstBlock(sc: Scenario, s: System) returns (t: System)
    requires Proper(sc) && Reachable(sc, s) && WellFormed(sc, s) && Inv(sc, s)
    requires !s.client.done && !s.server.finished && s.server.next == 0 && s.data == [] && Blank(s.client)
    requires s.client.windows == s.server.window == sc.Count() - 1
    ensures FirstBlockMissing(sc, t)
  {
    WireNonEmpty(sc, s.server.window);
    InvWellFormed(sc, s);
    var a := s;
    if s.client.collector.None? {
      Stepped(sc, s, Enter(ZeroSlots(sc.cfg)));
      a := Step(sc, s, Enter(ZeroSlots(sc.cfg)));
    }
    Stepped(sc, a, Send);
    var b := Step(sc, a, Send);
    Stepped(sc, b, Lose(0));
    t := Step(sc, b, Lose(0));
  }

  /** The collector has blocks 1 to `next` - 1. */
  ghost predicate LacksFirst(c: RC.Client, next: nat)
  {
    && c.collector.Some?
    && forall j | 0 <= j < |c.collector.value.received| :: c.collector.value.received[j] <==> 1 <= j < next
  }

  lemma StillLacksFirst(sc: Scenario, c: RC.Client, next: nat, c': RC.Client)
    requires sc.cfg.Valid() && sc.file != [] && ClientInv(sc, c) && LacksFirst(c, next)
    requires 1 <= next < |Wire(sc, c.windows)| && Progressed(sc, c, next, c')
    ensures c'.windows == c.windows && LacksFirst(c', next + 1)
  {
    LayoutFacts(sc, c.windows);
    assert !c.collector.value.received[next := true][0];
  }

  lemma OneMoreBlock(sc: Scenario, s: System) returns (t: System)
    requires Proper(sc) && FirstBlockMissing(sc, s) && s.server.next < |Wire(sc, s.server.window)|
    ensures FirstBlockMissing(sc, t) && t.server.next == s.server.next + 1
  {
    InvWellFormed(sc, s);
    Stepped(sc, s, Send);
    var a := Step(sc, s, Send);
    DeliverOnly(sc, a, s.server.next);
    t := Step(sc, a, Deliver(0));
  }

  lemma DeliverOnly(sc: Scenario, a: System, next: nat)
    requires Proper(sc) && Reachable(sc, a) && Inv(sc, a) && WellFormed(sc, a) && !a.server.finished
    requires a.client.windows == a.server.window == sc.Count() - 1 && LacksFirst(a.client, next)
    requires 1 <= next < |Wire(sc, a.server.window)| && a.server.next == next + 1
    requires |a.data| == 1 && a.data[0].index == next && a.data[0].window == a.server.window
    ensures Enabled(sc, a, Deliver(0)) && FirstBlockMissing(sc, Step(sc, a, Deliver(0)))
    ensures Step(sc, a, Deliver(0)).server == a.server
  {
    Stepped(sc, a, Deliver(0));
    DeliveryCases(sc, a, 0);
    StillLacksFirst(sc, a.client, next, Step(sc, a, Deliver(0)).client);
  }

  lemma AllButFirst(sc: Scenario, s: System) returns (t: System)
    requires Proper(sc) && FirstBlockMissing(sc, s)
    ensures FirstBlockMissing(sc, t) && t.server.next == |Wire(sc, t.server.window)|
    decreases |Wire(sc, s.server.window)| - s.server.next
  {
    t := s;
    if s.server.next < |Wire(sc, s.server.window)| {
      var u := OneMoreBlock(sc, s);
      t := AllButFirst(sc, u);
    }
  }

  lemma CompletedByFirst(sc: Scenario, c: RC.Client, c': RC.Client)
    requires sc.cfg.Valid() && sc.file != [] && ClientInv(sc, c)
    requires c.windows == sc.Count() - 1 && LacksFirst(c, |Wire(sc, c.windows)|)
    requires Progressed(sc, c, 0, c') && ClientInv(sc, c')
    ensures c'.done
  {
    LayoutFacts(sc, c.windows);
    assert Full(LayoutOf(sc, c.windows), c.collector.value.received[0 := true]);
  }

  /** The retransmitted first block completes the file, and its size cuts the final block. */
  lemma DeliverFirst(sc: Scenario, e: System)
    requires Proper(sc) && Reachable(sc, e) && Inv(sc, e) && WellFormed(sc, e)
    requires sc.variant == RC.AsWritten && !SelfEvident(sc)
    requires e.client.windows == sc.Count() - 1 && LacksFirst(e.client, |Wire(sc, e.client.windows)|)
    requires |e.data| == 1 && e.data[0].index == 0 && e.data[0].window == e.client.windows
    ensures Enabled(sc, e, Deliver(0)) && Reachable(sc, Step(sc, e, Deliver(0)))
    ensures Step(sc, e, Deliver(0)).client.done && Step(sc, e, Deliver(0)).client.output != sc.file
  {
    Stepped(sc, e, Deliver(0));
    DeliveryCases(sc, e, 0);
    CompletedByFirst(sc, e.client, Step(sc, e, Deliver(0)).client);
    FinishingDelivery(sc, e, 0);
    BlockFacts(sc.cfg, sc.file, sc.Count() - 1);
  }

  /** A reachable state in which the file has been received wrongly. */
  lemma Corrupted(sc: Scenario) returns (t: System)
    requires Proper(sc) && sc.variant == RC.AsWritten && !SelfEvident(sc)
    ensures Reachable(sc, t) && t.client.done && t.client.output != sc.file
  {
    InitialWellFormed(sc);
    ReachesItself(sc, Initial);
    var a := ReachLastWindow(sc, Initial);
    ReachableInv(sc, a);
    var b := LoseFirstBlock(sc, a);
    var c := AllButFirst(sc, b);
    InvWellFormed(sc, c);
    Stepped(sc, c, Timeout);
    var d := Step(sc, c, Timeout);
    InvWellFormed(sc, d);
    WireNonEmpty(sc, d.server.window);
    Stepped(sc, d, Send);
    var e := Step(sc, d, Send);
    DeliverFirst(sc, e);
    t := Step(sc, e, Deliver(0));
  }

  /** The client as written gets every file right, in every run, if and only if the file ends with a full block or
      with a window of one block; the repaired client always does. */
  lemma CorrectIff(sc: Scenario)
    requires Proper(sc)
    ensures (forall t | Reachable(sc, t) && t.client.done :: t.client.output == sc.file)
       <==> sc.variant == RC.Repaired || SafeSize(sc.cfg, |sc.file|)
  {
    SafeSizeIsSelfEvident(sc);
    if sc.variant == RC.Repaired || SelfEvident(sc) {
      forall t | Reachable(sc, t) && t.client.done
        ensures t.client.output == sc.file
      {
        EndToEnd(sc, t);
      }
    } else {
      var t := Corrupted(sc);
    }
  }

  // ---------------------------------------------------------------------------------------------
  // The empty file

  /** Nothing is ever sent. */
  ghost predicate Silent(s: System)
  {
    s.data == [] && s.replies == [] && !s.server.finished && !s.client.done && s.server.window == 0
  }

  lemma {:induction false} EmptyFileRun(sc: Scenario, s: System, events: seq<Event>)
    requires WellFormed(sc, s) && sc.file == [] && Silent(s)
    requires Run(sc, s, events).Some?
    ensures Silent(Run(sc, s, events).value)
    decreases |events|
  {
    if events != [] {
      assert Windows(sc.cfg, sc.file) == [[]];
      assert Encrypted(sc.cfg, []) == [];
      assert Outgoing(sc, s.server) == [];
      EmptyFileRun(sc, Step(sc, s, events[0]), events[1..]);
    }
  }

  /** A transfer can succeed if and only if the file is not empty. */
  lemma SucceedsIffNonEmpty(sc: Scenario)
    requires sc.cfg.Valid()
    ensures (exists t :: Reachable(sc, t) && t.server.finished && t.client.done) <==> sc.file != []
  {
    var sco := Ordered(sc);
    InitialWellFormed(sc);
    InitialWellFormed(sco);
    if sc.file != [] {
      WindowFacts(sc.cfg, sc.file);
      ReachesItself(sco, Initial);
      var t := CanFinish(sco, Initial);
      OrderIsNotNeeded(sc, t);
    } else {
      forall t | Reachable(sc, t)
        ensures !t.server.finished
      {
        var events :| Run(sc, Initial, events) == Some(t);
        EmptyFileRun(sc, Initial, events);
      }
    }
  }
}
