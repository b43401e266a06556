/** The receiving side of roadrunner (lab4/lib/roadrunner_client.c). */
module RoadrunnerClient {
  import opened Bytes
  import opened BbCodec
  import opened PacketCodec
  import opened Transfer

  /** `AsWritten` passes the size of the completing packet's block to the append of a window;
      `Repaired` remembers the size of the block that ended the file. */
  datatype Variant = AsWritten | Repaired

  /** Local state of one call of the window receive loop. */
  datatype Collector = Collector(base: nat, received: seq<bool>, slots: seq<seq<byte>>,
                                 lastNum: nat, isEof: bool, eofSize: nat)

  predicate SlotsShaped(cfg: Config, slots: seq<seq<byte>>)
  {
    |slots| == cfg.windowsize && forall i | 0 <= i < |slots| :: |slots[i]| == cfg.blocksize
  }

  ghost predicate Shaped(cfg: Config, w: Collector)
  {
    && |w.received| == cfg.windowsize
    && SlotsShaped(cfg, w.slots)
    && w.base <= w.lastNum < w.base + cfg.windowsize
    && w.eofSize <= cfg.blocksize
  }

  /** State at the head of the loop; `junk` is the uninitialised content of the window buffer. */
  function Fresh(cfg: Config, base: nat, junk: seq<seq<byte>>): (w: Collector)
    requires cfg.Valid() && SlotsShaped(cfg, junk)
    ensures Shaped(cfg, w)
  {
    Collector(base, Repeat(false, cfg.windowsize), junk, base + cfg.windowsize - 1, false, 0)
  }

  /** Effect of one datagram on the loop: go on, or leave it having written and acknowledged. */
  datatype Outcome =
    | Continue(w: Collector, acks: seq<byte>)
    | Return(w: Collector, written: seq<byte>, acks: seq<byte>)

  function Count(w: Collector): (n: nat)
    requires w.base <= w.lastNum
    ensures n >= 1
  {
    w.lastNum - w.base + 1
  }

  predicate Complete(cfg: Config, w: Collector)
    requires Shaped(cfg, w)
  {
    forall i | 0 <= i < Count(w) :: w.received[i]
  }

  /** The collector after storing the block of an accepted datagram. */
  function Stored(cfg: Config, w: Collector, r: seq<byte>): (w': Collector)
    requires Shaped(cfg, w) && r != []
    requires w.base <= Num(r[0]) < w.base + cfg.windowsize
    ensures Shaped(cfg, w')
  {
    var i, block, last := Num(r[0]) - w.base, Payload(cfg, r), |r| != cfg.blocksize + 1;
    Collector(w.base, w.received[i := true], w.slots[i := block + w.slots[i][|block|..]],
              if last then Num(r[0]) else w.lastNum, w.isEof || last,
              if last then |block| else w.eofSize)
  }

  /** `append_window_to_file`: whole slots, then a prefix of the last one. */
  function AppendedBytes(cfg: Config, slots: seq<seq<byte>>, count: nat, lastSize: nat): (r: seq<byte>)
    requires SlotsShaped(cfg, slots)
    requires 1 <= count <= cfg.windowsize && lastSize <= cfg.blocksize
  {
    Flatten(slots[..count - 1]) + slots[count - 1][..lastSize]
  }

  /** The acknowledgements sent on leaving the loop. */
  function FinalAcks(w: Collector): (r: seq<byte>)
    ensures |r| == if w.isEof then 8 else 1
  {
    Repeat(U8(w.lastNum), if w.isEof then NUM_EOF_ACKS else 1)
  }

  function LastSize(cfg: Config, variant: Variant, w: Collector, size: nat): (n: nat)
    requires Shaped(cfg, w) && size <= cfg.blocksize
    ensures n <= cfg.blocksize
  {
    if variant == Repaired && w.isEof then w.eofSize else size
  }

  function OnDatagram(cfg: Config, variant: Variant, w: Collector, raw: seq<byte>): (o: Outcome)
    requires Shaped(cfg, w)
    ensures Shaped(cfg, o.w) && o.w.base == w.base
  {
    var r := Arrived(cfg, raw);
    if r == [] then
      Return(w, [], FinalAcks(w))
    else if Num(r[0]) < w.base then
      Continue(w, [U8(w.base - 1)])
    else if Num(r[0]) >= w.base + cfg.windowsize then
      Continue(w, [U8(w.base + cfg.windowsize * SEQUENCE_NUMBER_SPACE_TO_WINDOWSIZE_RATIO - 1)])
    else
      var w' := Stored(cfg, w, r);
      if Complete(cfg, w') then
        Return(w', AppendedBytes(cfg, w'.slots, Count(w'), LastSize(cfg, variant, w', BlockSize(cfg, r))),
               FinalAcks(w'))
      else
        Continue(w', [])
  }

  // ---------------------------------------------------------------------------------------------
  // The whole file

  /** State of the file receive loop; between two windows there is no collector.
      `windows` counts the completed windows and `sent` records every acknowledgement. */
  datatype Client = Client(collector: Option<Collector>, base: nat, windows: nat,
                           output: seq<byte>, done: bool, sent: seq<byte>)

  const InitialClient := Client(None, 0, 0, [], false, [])

  ghost predicate ClientShaped(cfg: Config, c: Client)
  {
    c.collector.Some? ==> !c.done && Shaped(cfg, c.collector.value)
  }

  function EnterWindow(cfg: Config, c: Client, junk: seq<seq<byte>>): (c': Client)
    requires cfg.Valid() && SlotsShaped(cfg, junk) && !c.done
    ensures ClientShaped(cfg, c')
  {
    c.(collector := Some(Fresh(cfg, c.base, junk)))
  }

  /** The file loop after one turn of the window loop. */
  function Absorb(cfg: Config, c: Client, o: Outcome): (c': Client)
    requires cfg.Valid()
    ensures c.sent <= c'.sent
  {
    match o
    case Continue(w, acks) => c.(collector := Some(w), sent := c.sent + acks)
    case Return(w, written, acks) =>
      Client(None, NextBase(cfg, c.base), c.windows + 1, c.output + written, w.isEof, c.sent + acks)
  }

  function ClientReceive(cfg: Config, variant: Variant, c: Client, raw: seq<byte>): (c': Client)
    requires cfg.Valid() && ClientShaped(cfg, c) && c.collector.Some?
    ensures ClientShaped(cfg, c') && c.sent <= c'.sent
  {
    Absorb(cfg, c, OnDatagram(cfg, variant, c.collector.value, raw))
  }

  /** The datagrams that store nothing. A number below the range is answered with the last number of the window before,
      one above it with the last number of the doubled range; an empty datagram ends the window as if it were complete,
      without appending anything, and is acknowledged with its last number, eight times at the end of the file. */
  lemma StoresNothing(cfg: Config, variant: Variant, c: Client, raw: seq<byte>)
    requires cfg.Valid() && ClientShaped(cfg, c) && c.collector.Some?
    ensures var c', w := ClientReceive(cfg, variant, c, raw), c.collector.value;
            && (raw != [] && raw[0] as int < w.base ==> c' == c.(sent := c.sent + [U8(w.base - 1)]))
            && (raw != [] && raw[0] as int >= w.base + cfg.windowsize ==>
                  c' == c.(sent := c.sent + [U8(w.base + 2 * cfg.windowsize - 1)]))
            && (raw == [] ==>
                  c' == Client(None, (c.base + cfg.windowsize) % (2 * cfg.windowsize), c.windows + 1, c.output, w.isEof,
                               c.sent + Repeat(U8(w.lastNum), if w.isEof then 8 else 1)))
  {
    assert c.output + [] == c.output;
    if raw != [] {
      assert Arrived(cfg, raw)[0] == raw[0];
    }
  }

  // ---------------------------------------------------------------------------------------------
  // The loop over the datagrams of one window

  datatype WindowResult =
    | Interrupted(w: Collector, acks: seq<byte>)
    | Finished(w: Collector, written: seq<byte>, acks: seq<byte>, used: nat)

  /** The receive loop on a given sequence of arrivals; running out of arrivals is the interrupted `recvfrom`. */
  function WindowRun(cfg: Config, variant: Variant, w: Collector, inbox: seq<seq<byte>>): (res: WindowResult)
    requires Shaped(cfg, w)
    ensures res.Finished? ==> 1 <= res.used <= |inbox|
    decreases |inbox|
  {
    if inbox == [] then Interrupted(w, [])
    else
      match OnDatagram(cfg, variant, w, inbox[0])
      case Return(w', written, acks) => Finished(w', written, acks, 1)
      case Continue(w', acks) => Prefixed(acks, 1, WindowRun(cfg, variant, w', inbox[1..]))
  }

  function Prefixed(acks: seq<byte>, used: nat, res: WindowResult): (r: WindowResult)
    ensures r.Finished? <==> res.Finished?
    ensures r.Finished? ==> r.used == used + res.used
  {
    match res
    case Interrupted(w, a) => Interrupted(w, acks + a)
    case Finished(w, written, a, u) => Finished(w, written, acks + a, used + u)
  }

  lemma PrefixedTwice(a: seq<byte>, m: nat, b: seq<byte>, n: nat, res: WindowResult)
    ensures Prefixed(a, m, Prefixed(b, n, res)) == Prefixed(a + b, m + n, res)
  {
    assert a + (b + res.acks) == (a + b) + res.acks;
  }

  // ---------------------------------------------------------------------------------------------
  // The receive loop itself

  function Row(a: array2<byte>, i: nat): (r: seq<byte>)
    requires i < a.Length0
    reads a
    ensures |r| == a.Length1
  {
    seq(a.Length1, j requires 0 <= j < a.Length1 reads a => a[i, j])
  }

  function Rows(a: array2<byte>): (r: seq<seq<byte>>)
    reads a
    ensures |r| == a.Length0
  {
    seq(a.Length0, i requires 0 <= i < a.Length0 reads a => Row(a, i))
  }

  method AppendWindow(cfg: Config, windowData: array2<byte>, count: nat, lastSize: nat, file: seq<byte>)
    returns (file': seq<byte>)
    requires windowData.Length0 == cfg.windowsize && windowData.Length1 == cfg.blocksize
    requires 1 <= count <= cfg.windowsize && lastSize <= cfg.blocksize
    ensures file' == file + AppendedBytes(cfg, Rows(windowData), count, lastSize)
  {
    ghost var rows := Rows(windowData);
    file' := file;
    var i := 0;
    while i < count
      invariant i <= count
      invariant i < count ==> file' == file + Flatten(rows[..i])
      invariant i == count ==> file' == file + Flatten(rows[..count - 1]) + rows[count - 1][..lastSize]
    {
      var row := Row(windowData, i);
      assert row == rows[i];
      if i + 1 < count {
        FlattenSnoc(rows, i);
        assert file + Flatten(rows[..i]) + row == file + Flatten(rows[..i + 1]);
      }
      file' := file' + if i == count - 1 then row[..lastSize] else row;
      i := i + 1;
    }
    assert file + Flatten(rows[..count - 1]) + rows[count - 1][..lastSize]
        == file + (Flatten(rows[..count - 1]) + rows[count - 1][..lastSize]);
  }

  method CheckCompleted(received: array<bool>, base: nat, lastNum: nat) returns (completed: bool)
    requires base <= lastNum < base + received.Length
    ensures completed <==> forall i | 0 <= i < lastNum - base + 1 :: received[i]
  {
    completed := true;
    var i := base;
    while i <= lastNum
      invariant base <= i <= lastNum + 1
      invariant forall j | 0 <= j < i - base :: received[j]
    {
      if !received[i - base] {
        completed := false;
        break;
      }
      i := i + 1;
    }
  }

  /** Copying a block over the front of its slot changes that slot only. */
  method CopyBlock(windowData: array2<byte>, index: nat, block: array<byte>)
    requires index < windowData.Length0 && block.Length <= windowData.Length1
    modifies windowData
    ensures Rows(windowData)
         == old(Rows(windowData))[index := block[..] + old(Row(windowData, index))[block.Length..]]
  {
    var j := 0;
    while j < block.Length
      invariant j <= block.Length
      invariant forall k | 0 <= k < j :: windowData[index, k] == block[k]
      invariant forall i, k | 0 <= i < windowData.Length0 && 0 <= k < windowData.Length1 ::
                  i != index || k >= j ==> windowData[i, k] == old(windowData[i, k])
    {
      windowData[index, j] := block[j];
      j := j + 1;
    }
    ghost var target := old(Rows(windowData))[index := block[..] + old(Row(windowData, index))[block.Length..]];
    forall i | 0 <= i < windowData.Length0
      ensures Rows(windowData)[i] == target[i]
    {
      assert Row(windowData, i) == target[i];
    }
  }

  /** Lines 75-80 and 102: split the datagram and decode its block. */
  method DecodeBlock(cfg: Config, r: seq<byte>) returns (num: nat, block: array<byte>)
    requires r != []
    ensures fresh(block)
    ensures num == Num(r[0]) && block[..] == Payload(cfg, r)
  {
    block := new byte[BlockSize(cfg, r)];
    var header := DecodePacket(r, block);
    num := Num(header);
    if cfg.key.Some? {
      assert block[..block.Length] == block[..];
      BbDecodeData(block, block.Length, cfg.key.value);
      assert block[..block.Length] == block[..];
    }
  }

  ghost function View(base: nat, received: array<bool>, windowData: array2<byte>,
                      lastNum: nat, isEof: bool, eofSize: nat): (w: Collector)
    reads received, windowData
  {
    Collector(base, received[..], Rows(windowData), lastNum, isEof, eofSize)
  }

  /** Lines 104-111: store an accepted block and note the end of the file. */
  method StoreBlock(cfg: Config, base: nat, ghost r: seq<byte>, size: nat, num: nat, block: array<byte>,
                    received: array<bool>, windowData: array2<byte>, lastNum: nat, isEof: bool, eofSize: nat)
    returns (lastNum': nat, isEof': bool, eofSize': nat)
    requires r != [] && size == |r| && num == Num(r[0]) && block[..] == Payload(cfg, r)
    requires base <= num < base + cfg.windowsize
    requires block as object != received
    requires windowData.Length0 == cfg.windowsize && windowData.Length1 == cfg.blocksize
    requires Shaped(cfg, View(base, received, windowData, lastNum, isEof, eofSize))
    modifies received, windowData
    ensures View(base, received, windowData, lastNum', isEof', eofSize')
         == Stored(cfg, old(View(base, received, windowData, lastNum, isEof, eofSize)), r)
  {
    ghost var slots, data := Rows(windowData), block[..];
    received[num - base] := true;
    assert Rows(windowData) == slots && block[..] == data;
    CopyBlock(windowData, num - base, block);
    assert Rows(windowData) == slots[num - base := data + slots[num - base][|data|..]];
    lastNum', isEof', eofSize' := lastNum, isEof, eofSize;
    if size != cfg.blocksize + 1 {
      lastNum', isEof', eofSize' := num, true, block.Length;
    }
    assert received[..] == old(received[..])[num - base := true];
  }

  lemma AcceptedOutcome(cfg: Config, variant: Variant, w: Collector, raw: seq<byte>)
    requires Shaped(cfg, w)
    requires Arrived(cfg, raw) != []
    requires w.base <= Num(Arrived(cfg, raw)[0]) < w.base + cfg.windowsize
    ensures var r := Arrived(cfg, raw); var w' := Stored(cfg, w, r);
            OnDatagram(cfg, variant, w, raw)
            == if Complete(cfg, w') then
                 Return(w', AppendedBytes(cfg, w'.slots, Count(w'), LastSize(cfg, variant, w', BlockSize(cfg, r))),
                        FinalAcks(w'))
               else Continue(w', [])
  {
  }

  /** Lines 104-128 for an accepted datagram: store, and append the window if it is complete. */
  method AcceptDatagram(cfg: Config, variant: Variant, base: nat, ghost r: seq<byte>, size: nat, num: nat,
                        block: array<byte>, file: seq<byte>, received: array<bool>, windowData: array2<byte>,
                        lastNum: nat, isEof: bool, eofSize: nat)
    returns (completed: bool, acks: seq<byte>, file': seq<byte>, lastNum': nat, isEof': bool, eofSize': nat)
    requires r != [] && size == |r| && num == Num(r[0]) && block[..] == Payload(cfg, r)
    requires base <= num < base + cfg.windowsize
    requires block as object != received
    requires windowData.Length0 == cfg.windowsize && windowData.Length1 == cfg.blocksize
    requires Shaped(cfg, View(base, received, windowData, lastNum, isEof, eofSize))
    modifies received, windowData
    ensures var w := Stored(cfg, old(View(base, received, windowData, lastNum, isEof, eofSize)), r);
            && View(base, received, windowData, lastNum', isEof', eofSize') == w
            && completed == Complete(cfg, w)
            && acks == (if completed then FinalAcks(w) else [])
            && file' == if completed then
                          file + AppendedBytes(cfg, w.slots, Count(w), LastSize(cfg, variant, w, BlockSize(cfg, r)))
                        else file
  {
    ghost var w := Stored(cfg, View(base, received, windowData, lastNum, isEof, eofSize), r);
    lastNum', isEof', eofSize' :=
      StoreBlock(cfg, base, r, size, num, block, received, windowData, lastNum, isEof, eofSize);
    completed := CheckCompleted(received, base, lastNum');
    assert completed == Complete(cfg, w);
    acks, file' := [], file;
    if completed {
      var lastSize := if variant == Repaired && isEof' then eofSize' else block.Length;
      file' := AppendWindow(cfg, windowData, lastNum' - base + 1, lastSize, file);
      acks := Repeat(U8(lastNum'), if isEof' then NUM_EOF_ACKS else 1);
    }
  }

  /** One turn of the receive loop; `leave` says whether the loop ends. */
  method HandleDatagram(cfg: Config, variant: Variant, base: nat, raw: seq<byte>, file: seq<byte>,
                        received: array<bool>, windowData: array2<byte>, lastNum: nat, isEof: bool, eofSize: nat)
    returns (leave: bool, acks: seq<byte>, file': seq<byte>, lastNum': nat, isEof': bool, eofSize': nat)
    requires windowData.Length0 == cfg.windowsize && windowData.Length1 == cfg.blocksize
    requires Shaped(cfg, View(base, received, windowData, lastNum, isEof, eofSize))
    modifies received, windowData
    ensures var o := OnDatagram(cfg, variant, old(View(base, received, windowData, lastNum, isEof, eofSize)), raw);
            && View(base, received, windowData, lastNum', isEof', eofSize') == o.w
            && acks == o.acks
            && leave == o.Return?
            && file' == if leave then file + o.written else file
  {
    var r := Arrived(cfg, raw);
    if r == [] {
      acks := Repeat(U8(lastNum), if isEof then NUM_EOF_ACKS else 1);
      return true, acks, file + [], lastNum, isEof, eofSize;
    }
    var num, block := DecodeBlock(cfg, r);
    if num < base {
      return false, [U8(base - 1)], file, lastNum, isEof, eofSize;
    }
    if num >= base + cfg.windowsize {
      acks := [U8(base + cfg.windowsize * SEQUENCE_NUMBER_SPACE_TO_WINDOWSIZE_RATIO - 1)];
      return false, acks, file, lastNum, isEof, eofSize;
    }
    AcceptedOutcome(cfg, variant, View(base, received, windowData, lastNum, isEof, eofSize), raw);
    leave, acks, file', lastNum', isEof', eofSize' :=
      AcceptDatagram(cfg, variant, base, r, |r|, num, block, file, received, windowData, lastNum, isEof, eofSize);
  }

  /** What one more turn does to a run of which `consumed` arrivals have been handled. */
  lemma RunTakes(cfg: Config, variant: Variant, start: Collector, inbox: seq<seq<byte>>, consumed: nat, acks: seq<byte>,
                 w: Collector, o: Outcome)
    requires Shaped(cfg, start) && Shaped(cfg, w) && consumed < |inbox|
    requires WindowRun(cfg, variant, start, inbox)
          == Prefixed(acks, consumed, WindowRun(cfg, variant, w, inbox[consumed..]))
    requires o == OnDatagram(cfg, variant, w, inbox[consumed])
    ensures WindowRun(cfg, variant, start, inbox)
         == match o
            case Return(w', written, more) => Finished(w', written, acks + more, consumed + 1)
            case Continue(w', more) =>
              Prefixed(acks + more, consumed + 1, WindowRun(cfg, variant, w', inbox[consumed + 1..]))
  {
    assert inbox[consumed..][0] == inbox[consumed] && inbox[consumed..][1..] == inbox[consumed + 1..];
    if o.Continue? {
      PrefixedTwice(acks, consumed, o.acks, 1, WindowRun(cfg, variant, o.w, inbox[consumed + 1..]));
    }
  }

  /** `receive_window_and_cancel_timeout` on the arrivals `inbox`; `ok` is false for the -1 of an interrupted wait.
      `junk` is what the window buffer held before; the program leaves it uninitialised. */
  method ReceiveWindow(cfg: Config, variant: Variant, base: nat, inbox: seq<seq<byte>>, file: seq<byte>)
    returns (ok: bool, isEof: bool, consumed: nat, acks: seq<byte>, file': seq<byte>, junk: seq<seq<byte>>)
    requires cfg.Valid()
    ensures SlotsShaped(cfg, junk)
    ensures var res := WindowRun(cfg, variant, Fresh(cfg, base, junk), inbox);
            && ok == res.Finished?
            && acks == res.acks
            && isEof == res.w.isEof
            && consumed == (if ok then res.used else |inbox|)
            && file' == if ok then file + res.written else file
  {
    isEof := false;
    var lastNum: nat, eofSize: nat := base + cfg.windowsize - 1, 0;
    var received := new bool[cfg.windowsize](_ => false);
    var windowData := new byte[cfg.windowsize, cfg.blocksize];
    junk := Rows(windowData);
    ghost var start := Fresh(cfg, base, junk);
    ghost var w := start;
    assert w.received == received[..];
    consumed, acks, file', ok := 0, [], file, false;
    while consumed < |inbox|
      invariant consumed <= |inbox| && file' == file && !ok
      invariant Shaped(cfg, w) && w == View(base, received, windowData, lastNum, isEof, eofSize)
      invariant WindowRun(cfg, variant, start, inbox)
             == Prefixed(acks, consumed, WindowRun(cfg, variant, w, inbox[consumed..]))
    {
      var answer;
      ghost var o := OnDatagram(cfg, variant, w, inbox[consumed]);
      RunTakes(cfg, variant, start, inbox, consumed, acks, w, o);
      ok, answer, file', lastNum, isEof, eofSize :=
        HandleDatagram(cfg, variant, base, inbox[consumed], file', received, windowData, lastNum, isEof, eofSize);
      w := o.w;
      consumed, acks := consumed + 1, acks + answer;
      if ok {
        return;
      }
    }
  }

  // ---------------------------------------------------------------------------------------------
  // The loop over the windows of the file

  datatype ClientEvent = Enter(junk: seq<seq<byte>>) | Arrive(raw: seq<byte>)

  predicate Possible(cfg: Config, c: Client, e: ClientEvent)
  {
    match e
    case Enter(junk) => !c.done && c.collector.None? && SlotsShaped(cfg, junk)
    case Arrive(_) => c.collector.Some?
  }

  function ClientStep(cfg: Config, variant: Variant, c: Client, e: ClientEvent): (c': Client)
    requires cfg.Valid() && ClientShaped(cfg, c) && Possible(cfg, c, e)
    ensures ClientShaped(cfg, c')
  {
    match e
    case Enter(junk) => EnterWindow(cfg, c, junk)
    case Arrive(raw) => ClientReceive(cfg, variant, c, raw)
  }

  /** The client after a sequence of events, if each of them is possible when it comes. */
  function After(cfg: Config, variant: Variant, c: Client, events: seq<ClientEvent>): (c': Option<Client>)
    requires cfg.Valid() && ClientShaped(cfg, c)
    ensures c'.Some? ==> ClientShaped(cfg, c'.value)
    decreases |events|
  {
    if events == [] then Some(c)
    else if !Possible(cfg, c, events[0]) then None
    else After(cfg, variant, ClientStep(cfg, variant, c, events[0]), events[1..])
  }

  lemma FirstEvent(cfg: Config, variant: Variant, c: Client, e: ClientEvent, tail: seq<ClientEvent>, c': Client)
    requires cfg.Valid() && ClientShaped(cfg, c) && Possible(cfg, c, e)
    requires c' == ClientStep(cfg, variant, c, e)
    ensures After(cfg, variant, c, [e] + tail) == After(cfg, variant, c', tail)
  {
    assert ([e] + tail)[1..] == tail;
  }

  /** Two sequences that begin with the same event, which is possible. */
  lemma SameFirstEvent(cfg: Config, variant: Variant, c: Client, a: seq<ClientEvent>, b: seq<ClientEvent>)
    returns (c': Client)
    requires cfg.Valid() && ClientShaped(cfg, c) && a != [] && b != [] && a[0] == b[0]
    requires After(cfg, variant, c, a).Some?
    ensures ClientShaped(cfg, c')
    ensures After(cfg, variant, c, a) == After(cfg, variant, c', a[1..])
    ensures After(cfg, variant, c, b) == After(cfg, variant, c', b[1..])
  {
    c' := ClientStep(cfg, variant, c, a[0]);
  }

  /** `whole` is `first` and then `second`. */
  lemma {:induction false} AfterAppend(cfg: Config, variant: Variant, c: Client, first: seq<ClientEvent>, c1: Client,
                                       second: seq<ClientEvent>, whole: seq<ClientEvent>)
    requires cfg.Valid() && ClientShaped(cfg, c) && After(cfg, variant, c, first) == Some(c1)
    requires whole == first + second
    ensures After(cfg, variant, c, whole) == After(cfg, variant, c1, second)
    decreases |first|
  {
    if first == [] {
      assert whole == second;
    } else {
      var c' := SameFirstEvent(cfg, variant, c, first, whole);
      assert whole[1..] == first[1..] + second;
      AfterAppend(cfg, variant, c', first[1..], c1, second, whole[1..]);
    }
  }

  function Arrivals(raws: seq<seq<byte>>): (es: seq<ClientEvent>)
    ensures |es| == |raws|
  {
    seq(|raws|, i requires 0 <= i < |raws| => Arrive(raws[i]))
  }

  function Datagrams(events: seq<ClientEvent>): (r: seq<seq<byte>>)
  {
    if events == [] then []
    else (if events[0].Arrive? then [events[0].raw] else []) + Datagrams(events[1..])
  }

  lemma {:induction false} DatagramsAppend(a: seq<ClientEvent>, b: seq<ClientEvent>)
    ensures Datagrams(a + b) == Datagrams(a) + Datagrams(b)
  {
    if a == [] {
      assert a + b == b;
    } else {
      assert (a + b)[1..] == a[1..] + b;
      DatagramsAppend(a[1..], b);
    }
  }

  lemma {:induction false} DatagramsOfArrivals(raws: seq<seq<byte>>)
    ensures Datagrams(Arrivals(raws)) == raws
  {
    if raws != [] {
      assert Arrivals(raws)[1..] == Arrivals(raws[1..]);
      DatagramsOfArrivals(raws[1..]);
    }
  }

  /** What the file loop sees of one call of the window loop. */
  function AfterWindow(cfg: Config, c: Client, res: WindowResult): (r: Client)
    requires cfg.Valid()
  {
    match res
    case Interrupted(w, acks) => c.(collector := Some(w), sent := c.sent + acks)
    case Finished(w, written, acks, _) =>
      Client(None, NextBase(cfg, c.base), c.windows + 1, c.output + written, w.isEof, c.sent + acks)
  }

  function Used(res: WindowResult, inbox: seq<seq<byte>>): (r: nat)
  {
    if res.Finished? then res.used else |inbox|
  }

  /** One more datagram in front of a run of the window loop. */
  lemma UsedOneMore(cfg: Config, c: Client, inbox: seq<seq<byte>>, w: Collector, acks: seq<byte>, rest: WindowResult)
    requires cfg.Valid() && inbox != [] && c.collector.Some?
    requires rest.Finished? ==> rest.used <= |inbox| - 1
    ensures var res := Prefixed(acks, 1, rest);
            && Used(res, inbox) == 1 + Used(rest, inbox[1..]) <= |inbox|
            && Arrivals(inbox[..Used(res, inbox)]) == [Arrive(inbox[0])] + Arrivals(inbox[1..][..Used(rest, inbox[1..])])
            && AfterWindow(cfg, Absorb(cfg, c, Continue(w, acks)), rest) == AfterWindow(cfg, c, res)
  {
    assert (c.sent + acks) + rest.acks == c.sent + (acks + rest.acks);
  }

  /** The window loop is the client's reaction to the datagrams it consumed, one by one. */
  lemma {:induction false} WindowRunIsAfter(cfg: Config, variant: Variant, c: Client, inbox: seq<seq<byte>>)
    requires cfg.Valid() && ClientShaped(cfg, c) && c.collector.Some?
    ensures var res := WindowRun(cfg, variant, c.collector.value, inbox);
            var events := Arrivals(inbox[..Used(res, inbox)]);
            After(cfg, variant, c, events) == Some(AfterWindow(cfg, c, res))
    decreases |inbox|
  {
    if inbox == [] {
      assert Arrivals(inbox[..0]) == [] && c.sent + [] == c.sent;
    } else {
      var o, c' := OnDatagram(cfg, variant, c.collector.value, inbox[0]), ClientReceive(cfg, variant, c, inbox[0]);
      if o.Continue? {
        var rest := WindowRun(cfg, variant, o.w, inbox[1..]);
        WindowRunIsAfter(cfg, variant, c', inbox[1..]);
        UsedOneMore(cfg, c, inbox, o.w, o.acks, rest);
        FirstEvent(cfg, variant, c, Arrive(inbox[0]), Arrivals(inbox[1..][..Used(rest, inbox[1..])]), c');
      } else {
        assert Arrivals(inbox[..1]) == [Arrive(inbox[0])] + [];
        FirstEvent(cfg, variant, c, Arrive(inbox[0]), [], c');
      }
    }
  }

  /** What is known of the client's history at the head of the file loop. */
  ghost predicate History(cfg: Config, variant: Variant, events: seq<ClientEvent>, c: Client,
                          arrived: seq<seq<byte>>)
    requires cfg.Valid()
  {
    && After(cfg, variant, InitialClient, events) == Some(c)
    && Datagrams(events) == arrived
  }

  lemma HistoryGrows(cfg: Config, variant: Variant, events: seq<ClientEvent>, c: Client, arrived: seq<seq<byte>>,
                     added: seq<ClientEvent>, c': Client, more: seq<seq<byte>>)
    requires cfg.Valid() && History(cfg, variant, events, c, arrived)
    requires ClientShaped(cfg, c) && After(cfg, variant, c, added) == Some(c')
    requires Datagrams(added) == more
    ensures History(cfg, variant, events + added, c', arrived + more)
  {
    AfterAppend(cfg, variant, InitialClient, events, c, added, events + added);
    DatagramsAppend(events, added);
  }

  lemma InboxUsed(inbox: seq<seq<byte>>, consumed: nat, used: nat)
    requires consumed + used <= |inbox|
    ensures inbox[..consumed] + inbox[consumed..][..used] == inbox[..consumed + used]
  {
  }

  lemma EnterIsNoDatagram(junk: seq<seq<byte>>, raws: seq<seq<byte>>)
    ensures Datagrams([Enter(junk)] + Arrivals(raws)) == raws
  {
    assert ([Enter(junk)] + Arrivals(raws))[1..] == Arrivals(raws);
    DatagramsOfArrivals(raws);
  }

  /** One call of the window loop, from entering the window. */
  lemma EnterAndReceive(cfg: Config, variant: Variant, c: Client, junk: seq<seq<byte>>, rest: seq<seq<byte>>)
    requires cfg.Valid() && SlotsShaped(cfg, junk) && !c.done && c.collector.None?
    ensures var res := WindowRun(cfg, variant, Fresh(cfg, c.base, junk), rest);
            && Used(res, rest) <= |rest|
            && After(cfg, variant, c, [Enter(junk)] + Arrivals(rest[..Used(res, rest)])) == Some(AfterWindow(cfg, c, res))
  {
    var res := WindowRun(cfg, variant, Fresh(cfg, c.base, junk), rest);
    var entered := EnterWindow(cfg, c, junk);
    WindowRunIsAfter(cfg, variant, entered, rest);
    FirstEvent(cfg, variant, c, Enter(junk), Arrivals(rest[..Used(res, rest)]), entered);
  }

  /** One more call of the window loop extends the history. */
  lemma HistoryExtends(cfg: Config, variant: Variant, events: seq<ClientEvent>, c: Client,
                       inbox: seq<seq<byte>>, consumed: nat, junk: seq<seq<byte>>)
    requires cfg.Valid() && SlotsShaped(cfg, junk) && consumed <= |inbox|
    requires History(cfg, variant, events, c, inbox[..consumed])
    requires !c.done && c.collector.None?
    ensures var rest := inbox[consumed..];
            var res := WindowRun(cfg, variant, Fresh(cfg, c.base, junk), rest);
            History(cfg, variant, events + ([Enter(junk)] + Arrivals(rest[..Used(res, rest)])),
                    AfterWindow(cfg, c, res), inbox[..consumed + Used(res, rest)])
  {
    var rest := inbox[consumed..];
    var res := WindowRun(cfg, variant, Fresh(cfg, c.base, junk), rest);
    var raws := rest[..Used(res, rest)];
    EnterAndReceive(cfg, variant, c, junk, rest);
    EnterIsNoDatagram(junk, raws);
    HistoryGrows(cfg, variant, events, c, inbox[..consumed], [Enter(junk)] + Arrivals(raws),
                 AfterWindow(cfg, c, res), raws);
    InboxUsed(inbox, consumed, Used(res, rest));
  }

  /** `receive_file_and_cancel_timeout`: windows until the one that ended the file, or an interrupted wait. */
  method ReceiveFile(cfg: Config, variant: Variant, inbox: seq<seq<byte>>)
    returns (ok: bool, consumed: nat, acks: seq<byte>, file: seq<byte>, ghost events: seq<ClientEvent>)
    requires cfg.Valid()
    ensures consumed <= |inbox| && (!ok ==> consumed == |inbox|)
    ensures Datagrams(events) == inbox[..consumed]
    ensures var c := After(cfg, variant, InitialClient, events);
            c.Some? && c.value.output == file && c.value.done == ok && c.value.sent == acks
  {
    var base: nat, isEof := 0, false;
    ghost var c := InitialClient;
    ok, consumed, acks, file, events := true, 0, [], [], [];
    while ok && !isEof
      invariant consumed <= |inbox| && (!ok ==> consumed == |inbox|)
      invariant c.output == file && c.sent == acks && c.done == (ok && isEof)
      invariant ok ==> c.collector.None? && c.base == base
      invariant History(cfg, variant, events, c, inbox[..consumed])
      decreases ok, |inbox| - consumed
    {
      var rest := inbox[consumed..];
      var used, answer;
      var junk;
      ok, isEof, used, answer, file, junk := ReceiveWindow(cfg, variant, base, rest, file);
      HistoryExtends(cfg, variant, events, c, inbox, consumed, junk);
      c := AfterWindow(cfg, c, WindowRun(cfg, variant, Fresh(cfg, base, junk), rest));
      events, acks := events + ([Enter(junk)] + Arrivals(rest[..used])), acks + answer;
      consumed, base := consumed + used, NextBase(cfg, base);
    }
  }
}
