/** The sending side of roadrunner (lab4/lib/roadrunner_server.c). */
module RoadrunnerServer {
  import opened Bytes
  import opened BbCodec
  import opened PacketCodec
  import opened Transfer

  /** `receive_ack_and_cancel_timeout`: `inbox` is what reaches the socket before the alarm interrupts the wait. */
  method ReceiveAck(inbox: seq<byte>, expected: byte) returns (ok: bool)
    ensures ok <==> expected in inbox
  {
    var i := 0;
    while i < |inbox|
      invariant i <= |inbox|
      invariant expected !in inbox[..i]
    {
      if inbox[i] == expected {
        return true;
      }
      i := i + 1;
    }
    return false;
  }

  function Min(a: nat, b: nat): (r: nat) { if a < b then a else b }

  /** The block at offset `at` is the next chunk, and it is the last one and full exactly when it meets the end. */
  lemma NextChunk(n: nat, wire: seq<byte>, at: nat)
    requires n > 0 && at < |wire|
    ensures var rest := Chunks(n, wire[at..]);
            var size := Min(|wire| - at, n);
            && rest != []
            && rest[0] == wire[at..at + size]
            && rest[1..] == Chunks(n, wire[Min(at + n, |wire|)..])
            && (at + n == |wire| <==> |rest| == 1 && size == n)
  {
    var s := wire[at..];
    ChunksExact(n, s);
    if |s| > n {
      assert s[n..] == wire[at + n..];
      ChunksExact(n, s[n..]);
      assert Chunks(n, s)[1..] == Chunks(n, s[n..]);
    } else {
      assert wire[Min(at + n, |wire|)..] == [];
    }
  }

  lemma PacketAt(cfg: Config, base: nat, wire: seq<byte>, isEof: bool, i: nat)
    requires cfg.Valid() && i < |Chunks(cfg.blocksize, wire)|
    ensures var blocks := Chunks(cfg.blocksize, wire);
            PacketsOf(cfg, base, wire, isEof)[i]
            == Packet(base + i, blocks[i], isEof && i == |blocks| - 1 && |blocks[i]| == cfg.blocksize)
  {
  }

  /** The block after `i` blocks, and what follows it, when these cover the first `at` bytes. */
  lemma BlockAt(n: nat, wire: seq<byte>, i: nat, at: nat)
    requires n > 0 && at < |wire|
    requires i <= |Chunks(n, wire)| && Chunks(n, wire)[i..] == Chunks(n, wire[at..])
    ensures i < |Chunks(n, wire)|
    ensures Chunks(n, wire)[i] == wire[at..at + Min(|wire| - at, n)]
    ensures Chunks(n, wire)[i + 1..] == Chunks(n, wire[Min(at + n, |wire|)..])
    ensures at + n == |wire| <==> i == |Chunks(n, wire)| - 1 && |Chunks(n, wire)[i]| == n
  {
    var blocks := Chunks(n, wire);
    NextChunk(n, wire, at);
    assert blocks[i..][0] == blocks[i] && blocks[i..][1..] == blocks[i + 1..];
  }

  /** What the packet loop sends next, at offset `at` after `i` packets. */
  lemma NextPacket(cfg: Config, base: nat, wire: seq<byte>, isEof: bool, i: nat, at: nat)
    requires cfg.Valid() && at < |wire|
    requires i <= |Chunks(cfg.blocksize, wire)|
    requires Chunks(cfg.blocksize, wire)[i..] == Chunks(cfg.blocksize, wire[at..])
    ensures i < |Chunks(cfg.blocksize, wire)|
    ensures Chunks(cfg.blocksize, wire)[i + 1..]
         == Chunks(cfg.blocksize, wire[Min(at + cfg.blocksize, |wire|)..])
    ensures PacketsOf(cfg, base, wire, isEof)[i]
         == Packet(base + i, wire[at..at + Min(|wire| - at, cfg.blocksize)],
                   isEof && at + cfg.blocksize == |wire|)
  {
    BlockAt(cfg.blocksize, wire, i, at);
    PacketAt(cfg, base, wire, isEof, i);
  }

  /** The packets of the window that carry its first `at` bytes. */
  ghost predicate Covered(cfg: Config, base: nat, wire: seq<byte>, isEof: bool, packets: seq<seq<byte>>, at: nat)
    requires cfg.Valid()
  {
    && packets <= PacketsOf(cfg, base, wire, isEof)
    && Chunks(cfg.blocksize, wire)[|packets|..] == Chunks(cfg.blocksize, wire[Min(at, |wire|)..])
  }

  lemma CoveredStart(cfg: Config, base: nat, wire: seq<byte>, isEof: bool)
    requires cfg.Valid()
    ensures Covered(cfg, base, wire, isEof, [], 0)
  {
    assert wire[0..] == wire;
    assert Chunks(cfg.blocksize, wire)[0..] == Chunks(cfg.blocksize, wire);
  }

  lemma CoveredNext(cfg: Config, base: nat, wire: seq<byte>, isEof: bool, packets: seq<seq<byte>>, at: nat,
                    packet: seq<byte>)
    requires cfg.Valid() && at < |wire| && Covered(cfg, base, wire, isEof, packets, at)
    requires packet == Packet(base + |packets|, wire[at..at + Min(|wire| - at, cfg.blocksize)],
                              isEof && at + cfg.blocksize == |wire|)
    ensures Covered(cfg, base, wire, isEof, packets + [packet], at + cfg.blocksize)
  {
    NextPacket(cfg, base, wire, isEof, |packets|, at);
  }

  lemma CoveredAll(cfg: Config, base: nat, wire: seq<byte>, isEof: bool, packets: seq<seq<byte>>, at: nat)
    requires cfg.Valid() && at >= |wire| && Covered(cfg, base, wire, isEof, packets, at)
    ensures packets == PacketsOf(cfg, base, wire, isEof)
  {
    assert Chunks(cfg.blocksize, wire)[|packets|..] == [];
  }

  /** Lines 57-66: copy a block out of the window and build its packet. */
  method BuildPacket(number: nat, data: array<byte>, ghost wire: seq<byte>, at: nat, blocksize: nat, needDummy: bool)
    returns (packet: seq<byte>)
    requires at + blocksize <= |wire| <= data.Length && data[..|wire|] == wire
    ensures packet == Packet(number, wire[at..at + blocksize], needDummy)
  {
    var block := data[at..at + blocksize];
    forall j | 0 <= j < blocksize
      ensures block[j] == wire[at..at + blocksize][j]
    {
      assert data[..|wire|][at + j] == wire[at + j];
    }
    var buffer := new byte[1 + blocksize + if needDummy then 1 else 0];
    EncodePacket(U8(number), block, buffer);
    if needDummy {
      buffer[blocksize + 1] := DUMMY_END_OF_PACKET;
    }
    assert buffer[..1 + blocksize] == [U8(number)] + wire[at..at + blocksize];
    packet := buffer[..];
  }

  /** Lines 44-78: one pass over the (already encoded) window. The counter `number` is a `uint8_t` in the program:
      its wrap-around is applied where it is used. */
  method SendAttempt(cfg: Config, base: nat, data: array<byte>, size: nat, isEof: bool)
    returns (packets: seq<seq<byte>>, expected: byte)
    requires cfg.Valid() && size <= data.Length
    ensures packets == PacketsOf(cfg, base, data[..size], isEof)
    ensures expected == ExpectedAck(cfg, base, |packets|)
  {
    ghost var wire := data[..size];
    var number: nat, blockIndex: nat := base, 0;
    packets := [];
    CoveredStart(cfg, base, wire, isEof);
    while blockIndex < size
      invariant number == base + |packets|
      invariant Covered(cfg, base, wire, isEof, packets, blockIndex)
      decreases size - blockIndex
    {
      var blocksize := if size - blockIndex < cfg.blocksize then size - blockIndex else cfg.blocksize;
      var needDummy := isEof && blockIndex + cfg.blocksize == size;
      var packet := BuildPacket(number, data, wire, blockIndex, blocksize, needDummy);
      CoveredNext(cfg, base, wire, isEof, packets, blockIndex, packet);
      packets := packets + [packet];
      number := number + 1;
      blockIndex := blockIndex + cfg.blocksize;
    }
    CoveredAll(cfg, base, wire, isEof, packets, blockIndex);
    expected := U8(number - 1);
  }

  /** Some attempt received the acknowledgement before its timeout. */
  ghost predicate Acknowledged(attempts: seq<seq<byte>>, expected: byte)
  {
    exists a | 0 <= a < |attempts| :: expected in attempts[a]
  }

  /** How many attempts it takes: up to the first one that is acknowledged, or all of them. */
  function AttemptsNeeded(attempts: seq<seq<byte>>, expected: byte): (n: nat)
    ensures n <= |attempts|
    decreases |attempts|
  {
    if attempts == [] then 0
    else if expected in attempts[0] then 1
    else 1 + AttemptsNeeded(attempts[1..], expected)
  }

  /** The last of the attempts needed is the first that is acknowledged, if any is. */
  lemma {:induction false} LastAttemptNeeded(attempts: seq<seq<byte>>, expected: byte, n: nat)
    requires n <= |attempts|
    ensures n == AttemptsNeeded(attempts, expected)
       <==> && (forall a | 0 <= a < n - 1 :: expected !in attempts[a])
            && (if Acknowledged(attempts, expected) then n > 0 && expected in attempts[n - 1] else n == |attempts|)
    decreases |attempts|
  {
    if attempts != [] {
      var rest := attempts[1..];
      if n > 0 {
        LastAttemptNeeded(rest, expected, n - 1);
        assert forall a | 1 <= a < |attempts| :: attempts[a] == rest[a - 1];
        assert forall a | 0 <= a < n - 2 :: rest[a] == attempts[a + 1];
      }
    }
  }

  /** `send_window`: `attempts[a]` is what reaches the socket of attempt `a`; every attempt sends the same packets,
      the window is encoded once, and the first acknowledged attempt is the last. */
  method SendWindow(cfg: Config, data: array<byte>, size: nat, isEof: bool, base: nat, attempts: seq<seq<byte>>)
    returns (ok: bool, sent: seq<seq<seq<byte>>>, base': nat)
    requires cfg.Valid() && size <= data.Length
    modifies data
    ensures var packets := WindowPackets(cfg, base, old(data[..size]), isEof);
            var expected := ExpectedAck(cfg, base, |packets|);
            && |sent| == AttemptsNeeded(attempts, expected)
            && (forall a | 0 <= a < |sent| :: sent[a] == packets)
            && (ok <==> Acknowledged(attempts, expected))
    ensures base' == if ok then NextBase(cfg, base) else base
  {
    ok, base' := false, base;
    ghost var packets := WindowPackets(cfg, base, data[..size], isEof);
    if cfg.key.Some? {
      BbEncodeData(data, size, cfg.key.value);
    }
    ghost var wire := data[..size];
    assert packets == PacketsOf(cfg, base, wire, isEof);
    sent := [];
    while |sent| < |attempts|
      invariant data[..size] == wire
      invariant |sent| <= |attempts|
      invariant forall a | 0 <= a < |sent| ::
                  sent[a] == packets && a < |attempts| && ExpectedAck(cfg, base, |packets|) !in attempts[a]
    {
      var passed, expected := SendAttempt(cfg, base, data, size, isEof);
      var acked := ReceiveAck(attempts[|sent|], expected);
      sent := sent + [passed];
      if acked {
        LastAttemptNeeded(attempts, expected, |sent|);
        return true, sent, NextBase(cfg, base);
      }
    }
    LastAttemptNeeded(attempts, ExpectedAck(cfg, base, |packets|), |sent|);
    return false, sent, base;
  }

  // ---------------------------------------------------------------------------------------------
  // The whole file, with double buffering

  /** `fread`: as many bytes as fit and are left; a short count sets the end-of-file mark. */
  method FRead(file: seq<byte>, pos: nat, buf: array<byte>) returns (n: nat, eof: bool)
    requires pos <= |file|
    modifies buf
    ensures n == Min(buf.Length, |file| - pos)
    ensures buf[..n] == file[pos..pos + n]
    ensures eof <==> n < buf.Length
  {
    n := 0;
    while n < buf.Length && pos + n < |file|
      invariant n <= Min(buf.Length, |file| - pos)
      invariant buf[..n] == file[pos..pos + n]
    {
      buf[n] := file[pos + n];
      n := n + 1;
    }
    eof := n < buf.Length;
  }

  /** `data` is window `k` of the file, and the windows after it begin at offset `pos`. */
  ghost predicate Ahead(cfg: Config, file: seq<byte>, k: nat, data: seq<byte>, pos: nat)
    requires cfg.Valid()
  {
    && cfg.WindowBytes() > 0 && pos <= |file|
    && k < |Windows(cfg, file)|
    && Windows(cfg, file)[k] == data
    && Windows(cfg, file)[k + 1..] == Chunks(cfg.WindowBytes(), file[pos..])
  }

  lemma AheadStart(cfg: Config, file: seq<byte>, n: nat)
    requires cfg.Valid() && n == Min(cfg.WindowBytes(), |file|)
    ensures Ahead(cfg, file, 0, file[..n], n)
  {
    assert cfg.WindowBytes() > 0;
    if file != [] {
      assert file[0..] == file;
      NextChunk(cfg.WindowBytes(), file, 0);
    }
  }

  lemma AheadLast(cfg: Config, file: seq<byte>, k: nat, data: seq<byte>, pos: nat)
    requires cfg.Valid() && Ahead(cfg, file, k, data, pos)
    ensures k == |Windows(cfg, file)| - 1 <==> pos == |file|
  {
    ChunksExact(cfg.WindowBytes(), file[pos..]);
  }

  lemma AheadNext(cfg: Config, file: seq<byte>, k: nat, data: seq<byte>, pos: nat, n: nat)
    requires cfg.Valid() && pos < |file| && Ahead(cfg, file, k, data, pos)
    requires n == Min(cfg.WindowBytes(), |file| - pos)
    ensures Ahead(cfg, file, k + 1, file[pos..pos + n], pos + n)
  {
    var ws := Windows(cfg, file);
    NextChunk(cfg.WindowBytes(), file, pos);
    assert ws[k + 1..][0] == ws[k + 1] && ws[k + 1..][1..] == ws[k + 2..];
  }

  function RepliesTo(replies: seq<seq<seq<byte>>>, k: nat): (r: seq<seq<byte>>)
  {
    if k < |replies| then replies[k] else []
  }

  /** The number that lets the server leave window `k`. */
  function AckOf(cfg: Config, file: seq<byte>, k: nat): (ack: byte)
    requires cfg.Valid() && k < |Windows(cfg, file)|
  {
    ExpectedAck(cfg, Base(cfg, k), |Packets(cfg, file, k)|)
  }

  /** Window `k` is acknowledged in one of its attempts. */
  ghost predicate WindowAcknowledged(cfg: Config, file: seq<byte>, replies: seq<seq<seq<byte>>>, k: nat)
    requires cfg.Valid() && k < |Windows(cfg, file)|
  {
    Acknowledged(RepliesTo(replies, k), AckOf(cfg, file, k))
  }

  ghost predicate FirstAcknowledged(cfg: Config, file: seq<byte>, replies: seq<seq<seq<byte>>>, n: int)
    requires cfg.Valid() && n <= |Windows(cfg, file)|
  {
    forall k | 0 <= k < n :: WindowAcknowledged(cfg, file, replies, k)
  }

  /** Every attempt at a window sends exactly that window's packets. */
  ghost predicate SentInOrder(cfg: Config, file: seq<byte>, log: seq<seq<seq<seq<byte>>>>)
    requires cfg.Valid()
  {
    && |log| <= |Windows(cfg, file)|
    && forall k, a | 0 <= k < |log| && 0 <= a < |log[k]| :: log[k][a] == Packets(cfg, file, k)
  }

  /** Every window of the log has been sent as often as its replies make it necessary. */
  ghost predicate SentAsNeeded(cfg: Config, file: seq<byte>, replies: seq<seq<seq<byte>>>,
                               log: seq<seq<seq<seq<byte>>>>)
    requires cfg.Valid() && |log| <= |Windows(cfg, file)|
  {
    forall k | 0 <= k < |log| :: |log[k]| == AttemptsNeeded(RepliesTo(replies, k), AckOf(cfg, file, k))
  }

  /** The buffer holds window `k`, and the windows after it begin at offset `pos`. */
  ghost predicate Loaded(cfg: Config, file: seq<byte>, k: nat, buf: array<byte>, size: nat, pos: nat)
    requires cfg.Valid()
    reads buf
  {
    buf.Length == cfg.WindowBytes() && size <= buf.Length && Ahead(cfg, file, k, buf[..size], pos)
  }

  method LoadFirst(cfg: Config, file: seq<byte>, buf: array<byte>) returns (n: nat, eof: bool)
    requires cfg.Valid() && buf.Length == cfg.WindowBytes()
    modifies buf
    ensures n <= |file| && Loaded(cfg, file, 0, buf, n, n)
  {
    n, eof := FRead(file, 0, buf);
    AheadStart(cfg, file, n);
    assert buf[..n] == file[..n];
  }

  /** Reads ahead into the second buffer while the first holds window `k`. */
  method LoadNext(cfg: Config, file: seq<byte>, ghost k: nat, prevBuf: array<byte>, ghost prev: nat, pos: nat,
                  currBuf: array<byte>)
    returns (curr: nat, eof: bool)
    requires cfg.Valid() && Loaded(cfg, file, k, prevBuf, prev, pos)
    requires currBuf.Length == cfg.WindowBytes() && prevBuf != currBuf
    modifies currBuf
    ensures pos + curr <= |file| && (curr == 0 <==> pos == |file|) && (eof ==> pos + curr == |file|)
    ensures !eof ==> curr > 0
    ensures curr > 0 ==> Loaded(cfg, file, k + 1, currBuf, curr, pos + curr)
  {
    curr, eof := FRead(file, pos, currBuf);
    if pos < |file| {
      AheadNext(cfg, file, k, prevBuf[..prev], pos, curr);
    }
  }

  /** `memcpy(prev_buf, curr_buf, n)`. */
  method CopyBuffer(cfg: Config, ghost file: seq<byte>, ghost k: nat, target: array<byte>, source: array<byte>, n: nat,
                    ghost pos: nat)
    requires cfg.Valid() && Loaded(cfg, file, k, source, n, pos)
    requires target.Length == source.Length && target != source
    modifies target
    ensures target[..n] == source[..n] && Loaded(cfg, file, k, target, n, pos)
  {
    forall i | 0 <= i < n {
      target[i] := source[i];
    }
    assert target[..n] == source[..n];
  }

  /** All windows of the log have been sent and acknowledged; the next one begins with number `base`. */
  ghost predicate Underway(cfg: Config, file: seq<byte>, replies: seq<seq<seq<byte>>>, log: seq<seq<seq<seq<byte>>>>,
                           base: nat)
    requires cfg.Valid()
  {
    && SentInOrder(cfg, file, log) && SentAsNeeded(cfg, file, replies, log)
    && FirstAcknowledged(cfg, file, replies, |log|) && base == Base(cfg, |log|)
  }

  /** How `send_file` ends: every window of the log has been sent, whole, once for each attempt its replies make
      necessary; all windows but the last of the log are acknowledged, and that one if it succeeds; then these are all
      windows of the file. */
  ghost predicate Ended(cfg: Config, file: seq<byte>, replies: seq<seq<seq<byte>>>, log: seq<seq<seq<seq<byte>>>>,
                        ok: bool)
    requires cfg.Valid()
  {
    && |log| >= 1 && SentInOrder(cfg, file, log) && SentAsNeeded(cfg, file, replies, log)
    && FirstAcknowledged(cfg, file, replies, |log| - 1)
    && (ok <==> WindowAcknowledged(cfg, file, replies, |log| - 1))
    && (ok ==> |log| == |Windows(cfg, file)|)
  }

  /** A window that has been left was sent at least once, and its last attempt is the one that was acknowledged. */
  lemma LeftWindowsWereSent(cfg: Config, file: seq<byte>, replies: seq<seq<seq<byte>>>, log: seq<seq<seq<seq<byte>>>>,
                            ok: bool, k: nat)
    requires cfg.Valid() && Ended(cfg, file, replies, log, ok) && k < |log| && (ok || k < |log| - 1)
    ensures 1 <= |log[k]| <= |RepliesTo(replies, k)|
    ensures forall a | 0 <= a < |log[k]| :: log[k][a] == Packets(cfg, file, k)
    ensures forall a | 0 <= a < |log[k]| :: AckOf(cfg, file, k) in RepliesTo(replies, k)[a] <==> a == |log[k]| - 1
  {
    assert WindowAcknowledged(cfg, file, replies, k);
    LastAttemptNeeded(RepliesTo(replies, k), AckOf(cfg, file, k), |log[k]|);
  }

  lemma InOrderExtended(cfg: Config, file: seq<byte>, log: seq<seq<seq<seq<byte>>>>, attempts: seq<seq<seq<byte>>>)
    requires cfg.Valid() && SentInOrder(cfg, file, log) && |log| < |Windows(cfg, file)|
    requires forall a | 0 <= a < |attempts| :: attempts[a] == Packets(cfg, file, |log|)
    ensures SentInOrder(cfg, file, log + [attempts])
  {
    var log' := log + [attempts];
    forall k, a | 0 <= k < |log'| && 0 <= a < |log'[k]|
      ensures log'[k][a] == Packets(cfg, file, k)
    {
      assert log'[k] == if k < |log| then log[k] else attempts;
    }
  }

  lemma AsNeededExtended(cfg: Config, file: seq<byte>, replies: seq<seq<seq<byte>>>, log: seq<seq<seq<seq<byte>>>>,
                         attempts: seq<seq<seq<byte>>>)
    requires cfg.Valid() && |log| < |Windows(cfg, file)| && SentAsNeeded(cfg, file, replies, log)
    requires |attempts| == AttemptsNeeded(RepliesTo(replies, |log|), AckOf(cfg, file, |log|))
    ensures SentAsNeeded(cfg, file, replies, log + [attempts])
  {
    var log' := log + [attempts];
    forall k | 0 <= k < |log'|
      ensures |log'[k]| == AttemptsNeeded(RepliesTo(replies, k), AckOf(cfg, file, k))
    {
      assert log'[k] == if k < |log| then log[k] else attempts;
    }
  }

  /** The log after one more window. */
  lemma LogExtended(cfg: Config, file: seq<byte>, replies: seq<seq<seq<byte>>>, log: seq<seq<seq<seq<byte>>>>, base: nat,
                    attempts: seq<seq<seq<byte>>>, ok: bool)
    requires cfg.Valid() && Underway(cfg, file, replies, log, base) && |log| < |Windows(cfg, file)|
    requires |attempts| == AttemptsNeeded(RepliesTo(replies, |log|), AckOf(cfg, file, |log|))
    requires forall a | 0 <= a < |attempts| :: attempts[a] == Packets(cfg, file, |log|)
    requires ok <==> WindowAcknowledged(cfg, file, replies, |log|)
    ensures ok ==> Underway(cfg, file, replies, log + [attempts], Base(cfg, |log| + 1))
    ensures !ok || |log| == |Windows(cfg, file)| - 1 ==> Ended(cfg, file, replies, log + [attempts], ok)
  {
    InOrderExtended(cfg, file, log, attempts);
    AsNeededExtended(cfg, file, replies, log, attempts);
  }

  /** One call of `send_window` from the file loop. */
  method SendNext(cfg: Config, ghost file: seq<byte>, buf: array<byte>, size: nat, isEof: bool, base: nat, ghost pos: nat,
                  replies: seq<seq<seq<byte>>>, log: seq<seq<seq<seq<byte>>>>)
    returns (ok: bool, log': seq<seq<seq<seq<byte>>>>, base': nat)
    requires cfg.Valid() && Loaded(cfg, file, |log|, buf, size, pos) && Underway(cfg, file, replies, log, base)
    requires isEof <==> pos == |file|
    modifies buf
    ensures |log'| == |log| + 1
    ensures ok && !isEof ==> Underway(cfg, file, replies, log', base')
    ensures !ok || isEof ==> Ended(cfg, file, replies, log', ok)
  {
    BasesAlternate(cfg, |log|);
    AheadLast(cfg, file, |log|, buf[..size], pos);
    var attempts;
    ok, attempts, base' := SendWindow(cfg, buf, size, isEof, base, RepliesTo(replies, |log|));
    log' := log + [attempts];
    LogExtended(cfg, file, replies, log, base, attempts, ok);
  }

  /** One turn of the file loop: reads ahead, and sends the window read before, or the last one or two. */
  method SendTurn(cfg: Config, file: seq<byte>, replies: seq<seq<seq<byte>>>, prevBuf: array<byte>, prev: nat,
                  currBuf: array<byte>, pos: nat, base: nat, log: seq<seq<seq<seq<byte>>>>)
    returns (over: bool, ok: bool, prev': nat, pos': nat, base': nat, log': seq<seq<seq<seq<byte>>>>)
    requires cfg.Valid() && Loaded(cfg, file, |log|, prevBuf, prev, pos) && Underway(cfg, file, replies, log, base)
    requires currBuf.Length == cfg.WindowBytes() && prevBuf != currBuf
    modifies prevBuf, currBuf
    ensures over ==> Ended(cfg, file, replies, log', ok)
    ensures !over ==> pos < pos' && Loaded(cfg, file, |log'|, prevBuf, prev', pos')
                      && Underway(cfg, file, replies, log', base')
  {
    prev', pos' := prev, pos;
    var curr: nat, eof := LoadNext(cfg, file, |log|, prevBuf, prev, pos, currBuf);
    if eof && curr == 0 {
      ok, log', base' := SendNext(cfg, file, prevBuf, prev, true, base, pos, replies, log);
      return true, ok, prev', pos', base', log';
    }
    ok, log', base' := SendNext(cfg, file, prevBuf, prev, false, base, pos, replies, log);
    if !ok {
      return true, ok, prev', pos', base', log';
    }
    if eof {
      ok, log', base' := SendNext(cfg, file, currBuf, curr, true, base', pos + curr, replies, log');
      return true, ok, prev', pos', base', log';
    }
    CopyBuffer(cfg, file, |log'|, prevBuf, currBuf, curr, pos + curr);
    return false, ok, curr, pos + curr, base', log';
  }

  /** `send_file`: `replies[k][a]` is what reaches the socket of attempt `a` at window `k`. The windows are sent in
      order, each attempt at window `k` is `Packets(cfg, file, k)`, and the end-of-file mark is on the last one only. */
  method SendFile(cfg: Config, file: seq<byte>, replies: seq<seq<seq<byte>>>)
    returns (ok: bool, log: seq<seq<seq<seq<byte>>>>)
    requires cfg.Valid()
    ensures Ended(cfg, file, replies, log, ok)
  {
    var capacity := cfg.WindowBytes();
    var prevBuf, currBuf := new byte[capacity], new byte[capacity];
    var prev: nat, prevEof := LoadFirst(cfg, file, prevBuf);
    var pos: nat, base: nat, over := prev, 0, false;
    ok, log := true, [];
    while !over
      invariant currBuf.Length == capacity && prevBuf != currBuf && fresh(prevBuf) && fresh(currBuf)
      invariant over ==> Ended(cfg, file, replies, log, ok)
      invariant !over ==> Loaded(cfg, file, |log|, prevBuf, prev, pos) && Underway(cfg, file, replies, log, base)
      decreases !over, |file| - pos
    {
      over, ok, prev, pos, base, log := SendTurn(cfg, file, replies, prevBuf, prev, currBuf, pos, base, log);
    }
  }
}
