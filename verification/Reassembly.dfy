/** What the window receive loop does with the packets of one window: the heart of the client. */
module Reassembly {
  import opened Bytes
  import opened Transfer
  import opened RoadrunnerClient

  /** A window as the receiver should see it: first number, blocks in order, whether it ends the file. */
  datatype Layout = Layout(base: nat, blocks: seq<seq<byte>>, last: bool) {
    function Data(): (r: seq<byte>) { Flatten(blocks) }

    function FinalBlock(): (r: seq<byte>)
      requires blocks != []
    {
      blocks[|blocks| - 1]
    }

    /** The acknowledgement that lets the server leave this window. */
    function Ack(cfg: Config): (r: byte) { ExpectedAck(cfg, base, |blocks|) }

    ghost predicate Fits(cfg: Config) {
      && 1 <= |blocks| <= cfg.windowsize
      && (base == 0 || base == cfg.windowsize)
      && (!last ==> |blocks| == cfg.windowsize && |FinalBlock()| == cfg.blocksize)
      && (forall i | 0 <= i < |blocks| :: 1 <= |blocks[i]| <= cfg.blocksize)
      && (forall i | 0 <= i < |blocks| - 1 :: |blocks[i]| == cfg.blocksize)
    }
  }

  /** `r` is the datagram that carries block `i`: its length alone says whether it ends the file. */
  ghost predicate Carries(cfg: Config, l: Layout, i: nat, r: seq<byte>)
    requires i < |l.blocks|
  {
    && 1 <= |r| <= cfg.blocksize + 2
    && Num(r[0]) == l.base + i
    && Payload(cfg, r) == l.blocks[i]
    && (|r| != cfg.blocksize + 1 <==> l.last && i == |l.blocks| - 1)
  }

  /** The collector holds the true block in every slot it has marked as received. */
  ghost predicate Holds(cfg: Config, l: Layout, w: Collector)
    requires l.Fits(cfg)
  {
    && Shaped(cfg, w)
    && w.base == l.base
    && (forall j | 0 <= j < cfg.windowsize && w.received[j] :: j < |l.blocks| && l.blocks[j] <= w.slots[j])
    && (w.isEof <==> l.last && w.received[|l.blocks| - 1])
    && w.lastNum == w.base + (if w.isEof then |l.blocks| else cfg.windowsize) - 1
    && (w.isEof ==> w.eofSize == |l.FinalBlock()|)
  }

  /** Every block of the window has been received. */
  ghost predicate Full(l: Layout, received: seq<bool>)
    requires |l.blocks| <= |received|
  {
    forall j | 0 <= j < |l.blocks| :: received[j]
  }

  lemma FreshHolds(cfg: Config, l: Layout, junk: seq<seq<byte>>)
    requires cfg.Valid() && l.Fits(cfg) && SlotsShaped(cfg, junk)
    ensures Holds(cfg, l, Fresh(cfg, l.base, junk))
    ensures !Full(l, Fresh(cfg, l.base, junk).received)
  {
    assert !Fresh(cfg, l.base, junk).received[0];
  }

  /** The collector with block `i` added. */
  function WithBlock(l: Layout, w: Collector, i: nat): (r: Collector)
    requires i < |l.blocks| && i < |w.slots| == |w.received| && |l.blocks[i]| <= |w.slots[i]|
  {
    var final := l.last && i == |l.blocks| - 1;
    Collector(w.base, w.received[i := true], w.slots[i := l.blocks[i] + w.slots[i][|l.blocks[i]|..]],
              if final then l.base + i else w.lastNum, w.isEof || final,
              if final then |l.blocks[i]| else w.eofSize)
  }

  lemma StoredBlock(cfg: Config, l: Layout, w: Collector, i: nat, r: seq<byte>)
    requires l.Fits(cfg) && Shaped(cfg, w) && w.base == l.base
    requires i < |l.blocks| && Carries(cfg, l, i, r)
    ensures Stored(cfg, w, r) == WithBlock(l, w, i)
  {
  }

  /** Storing a packet keeps the collector truthful, whatever was received before, in whatever order. */
  lemma StoreHolds(cfg: Config, l: Layout, w: Collector, i: nat)
    requires l.Fits(cfg) && Holds(cfg, l, w) && i < |l.blocks|
    ensures Holds(cfg, l, WithBlock(l, w, i))
  {
    var w' := WithBlock(l, w, i);
    forall j | 0 <= j < cfg.windowsize && w'.received[j]
      ensures j < |l.blocks| && l.blocks[j] <= w'.slots[j]
    {
      assert j != i ==> w.received[j] && w'.slots[j] == w.slots[j];
    }
  }

  /** The completion test succeeds exactly when every block up to the true last one has arrived. */
  lemma CompleteIffFull(cfg: Config, l: Layout, w: Collector)
    requires l.Fits(cfg) && Holds(cfg, l, w)
    ensures Complete(cfg, w) <==> Full(l, w.received)
    ensures Full(l, w.received) ==> Count(w) == |l.blocks| && (w.isEof <==> l.last)
  {
    if Complete(cfg, w) && !w.isEof {
      assert w.received[cfg.windowsize - 1];
    }
    if Full(l, w.received) {
      assert w.received[|l.blocks| - 1];
    }
  }

  /** The bytes appended for a full collector: the window, plus whatever follows the last block in its slot when
      the size passed to the append is too large. */
  lemma AppendedByFull(cfg: Config, l: Layout, w: Collector, size: nat)
    requires l.Fits(cfg) && Holds(cfg, l, w) && Full(l, w.received)
    requires |l.FinalBlock()| <= size <= cfg.blocksize
    ensures AppendedBytes(cfg, w.slots, |l.blocks|, size)
         == l.Data() + w.slots[|l.blocks| - 1][|l.FinalBlock()|..size]
  {
    var m, final := |l.blocks|, l.FinalBlock();
    forall j | 0 <= j < m - 1
      ensures w.slots[j] == l.blocks[j]
    {
      assert w.received[j];
    }
    assert w.slots[..m - 1] == l.blocks[..m - 1];
    assert w.received[m - 1];
    assert l.blocks[..m] == l.blocks;
    FlattenSnoc(l.blocks, m - 1);
    var slot := w.slots[m - 1];
    assert slot[..size] == final + slot[|final|..size];
  }

  /** The completing block is not the final one, which is short, and the client does not remember its size. */
  predicate WrongSize(cfg: Config, variant: Variant, l: Layout, i: nat)
    requires l.blocks != []
  {
    variant == AsWritten && i < |l.blocks| - 1 && |l.FinalBlock()| < cfg.blocksize
  }

  function ExcessSize(cfg: Config, variant: Variant, l: Layout, i: nat): (r: int)
    requires l.blocks != []
  {
    if WrongSize(cfg, variant, l, i) then cfg.blocksize - |l.FinalBlock()| else 0
  }

  /** What happens on a packet of the window being collected. Either the loop goes on with that block added, or
      all blocks are there: then it leaves with the acknowledgement the server waits for (8 times at the end of the
      file), and it appends the window, followed by excess bytes exactly when `WrongSize`. */
  ghost predicate Collected(cfg: Config, variant: Variant, l: Layout, w: Collector, i: nat, o: Outcome)
    requires l.Fits(cfg) && Holds(cfg, l, w) && i < |l.blocks|
  {
    && o.w.received == w.received[i := true]
    && Holds(cfg, l, o.w)
    && (o.Return? <==> Full(l, o.w.received))
    && (o.Continue? ==> o.acks == [])
    && (o.Return? ==>
        && (o.w.isEof <==> l.last)
        && o.acks == Repeat(l.Ack(cfg), if l.last then NUM_EOF_ACKS else 1)
        && l.Data() <= o.written
        && |o.written| == |l.Data()| + ExcessSize(cfg, variant, l, i))
  }

  /** The outcome of storing block `i`, in terms of the layout. */
  function StoreOutcome(cfg: Config, variant: Variant, l: Layout, w: Collector, i: nat): (r: Outcome)
    requires l.Fits(cfg) && Shaped(cfg, w) && w.base == l.base && i < |l.blocks|
  {
    var w' := WithBlock(l, w, i);
    if Complete(cfg, w') then
      Return(w', AppendedBytes(cfg, w'.slots, Count(w'), LastSize(cfg, variant, w', |l.blocks[i]|)), FinalAcks(w'))
    else
      Continue(w', [])
  }

  lemma OwnOutcome(cfg: Config, variant: Variant, l: Layout, w: Collector, i: nat, r: seq<byte>)
    requires l.Fits(cfg) && Shaped(cfg, w) && w.base == l.base
    requires i < |l.blocks| && Carries(cfg, l, i, r)
    ensures OnDatagram(cfg, variant, w, r) == StoreOutcome(cfg, variant, l, w, i)
  {
    StoredBlock(cfg, l, w, i, r);
    AcceptedOutcome(cfg, variant, w, r);
    assert BlockSize(cfg, r) == |l.blocks[i]|;
  }

  /** The size passed to the append when block `i` completes the window. */
  lemma AppendedSize(cfg: Config, variant: Variant, l: Layout, w: Collector, i: nat)
    requires l.Fits(cfg) && Holds(cfg, l, w) && Full(l, w.received) && i < |l.blocks|
    ensures LastSize(cfg, variant, w, |l.blocks[i]|) == |l.FinalBlock()| + ExcessSize(cfg, variant, l, i) <= cfg.blocksize
  {
    assert w.received[|l.blocks| - 1];
  }

  /** What a full collector leads to. */
  lemma FullReturns(cfg: Config, variant: Variant, l: Layout, w: Collector, i: nat)
    requires l.Fits(cfg) && Holds(cfg, l, w) && Full(l, w.received) && i < |l.blocks|
    ensures (w.isEof <==> l.last) && Count(w) == |l.blocks|
    ensures FinalAcks(w) == Repeat(l.Ack(cfg), if l.last then NUM_EOF_ACKS else 1)
    ensures var written := AppendedBytes(cfg, w.slots, |l.blocks|, LastSize(cfg, variant, w, |l.blocks[i]|));
            l.Data() <= written && |written| == |l.Data()| + ExcessSize(cfg, variant, l, i)
  {
    CompleteIffFull(cfg, l, w);
    AppendedSize(cfg, variant, l, w, i);
    assert w.received[|l.blocks| - 1];
    AppendedByFull(cfg, l, w, LastSize(cfg, variant, w, |l.blocks[i]|));
  }

  lemma StoreCollects(cfg: Config, variant: Variant, l: Layout, w: Collector, i: nat)
    requires l.Fits(cfg) && Holds(cfg, l, w) && i < |l.blocks|
    ensures Collected(cfg, variant, l, w, i, StoreOutcome(cfg, variant, l, w, i))
  {
    var w' := WithBlock(l, w, i);
    StoreHolds(cfg, l, w, i);
    CompleteIffFull(cfg, l, w');
    if Full(l, w'.received) {
      FullReturns(cfg, variant, l, w', i);
    }
  }

  lemma OwnPacket(cfg: Config, variant: Variant, l: Layout, w: Collector, i: nat, r: seq<byte>)
    requires l.Fits(cfg) && Holds(cfg, l, w)
    requires i < |l.blocks| && Carries(cfg, l, i, r)
    ensures Collected(cfg, variant, l, w, i, OnDatagram(cfg, variant, w, r))
  {
    OwnOutcome(cfg, variant, l, w, i, r);
    StoreCollects(cfg, variant, l, w, i);
  }

  /** Lines 82-89 of the receive loop. */
  lemma BelowRange(cfg: Config, variant: Variant, w: Collector, raw: seq<byte>)
    requires Shaped(cfg, w) && 1 <= |raw| <= cfg.blocksize + 2
    requires Num(raw[0]) < w.base
    ensures OnDatagram(cfg, variant, w, raw) == Continue(w, [U8(w.base - 1)])
  {
  }

  /** Lines 90-100 of the receive loop. */
  lemma AboveRange(cfg: Config, variant: Variant, w: Collector, raw: seq<byte>)
    requires Shaped(cfg, w) && 1 <= |raw| <= cfg.blocksize + 2
    requires Num(raw[0]) >= w.base + cfg.windowsize
    ensures OnDatagram(cfg, variant, w, raw) == Continue(w, [U8(w.base + cfg.windowsize * 2 - 1)])
  {
  }

  /** The two cases of a full window and the number the next one begins with. */
  lemma StaleNumbers(cfg: Config, l: Layout, next: nat)
    requires cfg.Valid() && l.Fits(cfg) && !l.last && next == NextBase(cfg, l.base)
    ensures if l.base == 0 then next == cfg.windowsize && U8(next - 1) == l.Ack(cfg)
            else l.base == cfg.windowsize && next == 0 && U8(next + cfg.windowsize * 2 - 1) == l.Ack(cfg)
  {
    BasesAlternate(cfg, if l.base == 0 then 0 else 1);
  }

  /** A packet of the window just before the one being collected is never stored: it provokes the
      acknowledgement the server waits for in that earlier window. */
  lemma StalePacket(cfg: Config, variant: Variant, l: Layout, w: Collector, i: nat, r: seq<byte>)
    requires cfg.Valid() && l.Fits(cfg) && !l.last
    requires Shaped(cfg, w) && w.base == NextBase(cfg, l.base)
    requires i < |l.blocks| && Carries(cfg, l, i, r)
    ensures OnDatagram(cfg, variant, w, r) == Continue(w, [l.Ack(cfg)])
  {
    StaleNumbers(cfg, l, w.base);
    if l.base == 0 {
      BelowRange(cfg, variant, w, r);
    } else {
      AboveRange(cfg, variant, w, r);
    }
  }

  // ---------------------------------------------------------------------------------------------
  // Order and multiplicity of deliveries within a window do not matter

  /** Deliveries of a window's packets, given as block indices. */
  function Delivered(packets: seq<seq<byte>>, js: seq<nat>): (d: seq<seq<byte>>)
    requires forall n | 0 <= n < |js| :: js[n] < |packets|
    ensures |d| == |js|
  {
    seq(|js|, n requires 0 <= n < |js| => packets[js[n]])
  }

  ghost predicate Covers(l: Layout, received: seq<bool>, js: seq<nat>)
    requires |l.blocks| <= |received|
  {
    forall j | 0 <= j < |l.blocks| :: received[j] || j in js
  }

  ghost predicate PacketsOfLayout(cfg: Config, l: Layout, packets: seq<seq<byte>>)
  {
    |packets| == |l.blocks| && forall i | 0 <= i < |packets| :: Carries(cfg, l, i, packets[i])
  }

  /** The result of the receive loop on the deliveries `js`, starting from a truthful collector. It leaves exactly
      when the set of delivered blocks covers the window, at the first delivery that completes the set; short of
      that its state records exactly that set. */
  ghost predicate RunOutcome(cfg: Config, variant: Variant, l: Layout, w: Collector, js: seq<nat>, res: WindowResult)
    requires l.Fits(cfg) && |w.received| == cfg.windowsize
    requires forall n | 0 <= n < |js| :: js[n] < |l.blocks|
  {
    match res
    case Interrupted(w', acks) =>
      && !Covers(l, w.received, js)
      && Holds(cfg, l, w') && acks == []
      && (forall j | 0 <= j < |l.blocks| :: w'.received[j] <==> w.received[j] || j in js)
    case Finished(w', written, acks, used) =>
      && 1 <= used <= |js|
      && !Covers(l, w.received, js[..used - 1])
      && Covers(l, w.received, js[..used])
      && (w'.isEof <==> l.last)
      && acks == Repeat(l.Ack(cfg), if l.last then NUM_EOF_ACKS else 1)
      && l.Data() <= written
      && |written| == |l.Data()| + ExcessSize(cfg, variant, l, js[used - 1])
  }

  /** The receive loop on any deliveries of the window's packets, in any order and multiplicity. */
  lemma {:induction false} AnyOrder(cfg: Config, variant: Variant, l: Layout, packets: seq<seq<byte>>,
                                    w: Collector, js: seq<nat>)
    requires l.Fits(cfg) && PacketsOfLayout(cfg, l, packets)
    requires Holds(cfg, l, w) && !Full(l, w.received)
    requires forall n | 0 <= n < |js| :: js[n] < |packets|
    ensures RunOutcome(cfg, variant, l, w, js, WindowRun(cfg, variant, w, Delivered(packets, js)))
    decreases |js|, 1
  {
    if js != [] {
      var d := Delivered(packets, js);
      OwnPacket(cfg, variant, l, w, js[0], packets[js[0]]);
      RunUnfolds(cfg, variant, w, d);
      assert d[1..] == Delivered(packets, js[1..]);
      StepOfRun(cfg, variant, l, packets, w, js, OnDatagram(cfg, variant, w, packets[js[0]]));
    }
  }

  lemma {:induction false} StepOfRun(cfg: Config, variant: Variant, l: Layout, packets: seq<seq<byte>>,
                                     w: Collector, js: seq<nat>, o: Outcome)
    requires l.Fits(cfg) && PacketsOfLayout(cfg, l, packets)
    requires Holds(cfg, l, w) && !Full(l, w.received) && js != []
    requires forall n | 0 <= n < |js| :: js[n] < |packets|
    requires Collected(cfg, variant, l, w, js[0], o)
    ensures RunOutcome(cfg, variant, l, w, js, Then(o, WindowRun(cfg, variant, o.w, Delivered(packets, js[1..]))))
    decreases |js|, 0
  {
    if o.Continue? {
      AnyOrder(cfg, variant, l, packets, o.w, js[1..]);
      OneMore(cfg, variant, l, w, js, o.w, WindowRun(cfg, variant, o.w, Delivered(packets, js[1..])));
    } else {
      assert js[..1] == [js[0]] && js[..0] == [];
      LastBlockCovers(l, w.received, js[0]);
    }
  }

  lemma LastBlockCovers(l: Layout, received: seq<bool>, i: nat)
    requires i < |l.blocks| <= |received| && Full(l, received[i := true])
    ensures Covers(l, received, [i])
  {
    forall j | 0 <= j < |l.blocks| ensures received[j] || j in [i] {
      assert received[i := true][j];
      assert i in [i];
    }
  }

  /** The run that starts with the outcome `o` and would go on with `rest`. */
  function Then(o: Outcome, rest: WindowResult): (r: WindowResult)
  {
    match o
    case Return(w, written, acks) => Finished(w, written, acks, 1)
    case Continue(_, acks) => Prefixed(acks, 1, rest)
  }

  lemma RunUnfolds(cfg: Config, variant: Variant, w: Collector, inbox: seq<seq<byte>>)
    requires Shaped(cfg, w) && inbox != []
    ensures var o := OnDatagram(cfg, variant, w, inbox[0]);
            WindowRun(cfg, variant, w, inbox) == Then(o, WindowRun(cfg, variant, o.w, inbox[1..]))
  {
  }

  lemma OneMore(cfg: Config, variant: Variant, l: Layout, w: Collector, js: seq<nat>, w': Collector, rest: WindowResult)
    requires l.Fits(cfg) && |w.received| == cfg.windowsize && js != []
    requires forall n | 0 <= n < |js| :: js[n] < |l.blocks|
    requires w'.received == w.received[js[0] := true]
    requires RunOutcome(cfg, variant, l, w', js[1..], rest)
    ensures RunOutcome(cfg, variant, l, w, js, Prefixed([], 1, rest))
  {
    PrefixCover(l, w.received, js, |js|);
    assert js[..|js|] == js && js[1..][..|js| - 1] == js[1..];
    if rest.Finished? {
      PrefixCover(l, w.received, js, rest.used);
      PrefixCover(l, w.received, js, rest.used + 1);
      assert js[1..][rest.used - 1] == js[rest.used];
    } else {
      assert forall j :: j in js <==> j == js[0] || j in js[1..];
    }
  }

  lemma PrefixCover(l: Layout, received: seq<bool>, js: seq<nat>, n: nat)
    requires 1 <= n <= |js| && js[0] < |l.blocks| <= |received|
    ensures Covers(l, received, js[..n]) <==> Covers(l, received[js[0] := true], js[1..][..n - 1])
  {
    assert js[..n] == [js[0]] + js[1..][..n - 1];
    assert forall j :: j in js[..n] <==> j == js[0] || j in js[1..][..n - 1];
  }

  lemma FreshCovers(cfg: Config, l: Layout, junk: seq<seq<byte>>, js: seq<nat>)
    requires cfg.Valid() && l.Fits(cfg) && SlotsShaped(cfg, junk)
    ensures Covers(l, Fresh(cfg, l.base, junk).received, js) <==> forall j | 0 <= j < |l.blocks| :: j in js
  {
  }

  /** On a fresh call: whether the window completes depends only on the set of delivered blocks, and on a window that
      does not end the file the bytes appended are the window's, whatever the order and the repetitions. */
  lemma OnlyTheSetMatters(cfg: Config, variant: Variant, l: Layout, packets: seq<seq<byte>>,
                          junk: seq<seq<byte>>, js: seq<nat>)
    requires cfg.Valid() && l.Fits(cfg) && PacketsOfLayout(cfg, l, packets) && SlotsShaped(cfg, junk)
    requires forall n | 0 <= n < |js| :: js[n] < |packets|
    ensures var res := WindowRun(cfg, variant, Fresh(cfg, l.base, junk), Delivered(packets, js));
            && (res.Finished? <==> forall j | 0 <= j < |l.blocks| :: j in js)
            && (res.Finished? ==> (res.w.isEof <==> l.last))
            && (res.Finished? && !l.last ==> res.written == l.Data())
  {
    var w := Fresh(cfg, l.base, junk);
    FreshHolds(cfg, l, junk);
    AnyOrder(cfg, variant, l, packets, w, js);
    var res := WindowRun(cfg, variant, w, Delivered(packets, js));
    FreshCovers(cfg, l, junk, js);
    if res.Finished? {
      FreshCovers(cfg, l, junk, js[..res.used]);
      assert forall j :: j in js[..res.used] ==> j in js;
    }
  }
}
