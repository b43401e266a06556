/** The byte queue of the audio client, used sequentially (lab5/lib/queue.c), and the drain loop at the end of a
    stream (lab5/lib/audio_client.c). */
module AudioQueue {
  import opened Bytes
  import opened Circular

  const AUDIO_FRAME_SIZE: nat := 4096

  class Queue {
    var head: nat
    var tail: nat
    var length: nat
    var data: array<byte>

    ghost predicate Valid()
      reads this, data
    {
      length == data.Length && Indices(data[..], head, tail)
    }

    /** The abstract value: the stored bytes, oldest first. */
    ghost function Bytes(): (s: seq<byte>)
      requires Valid()
      reads this, data
      ensures |s| < length
    {
      Contents(data[..], head, tail)
    }

    constructor (bufferSize: nat)
      ensures Valid() && fresh(data) && length == bufferSize + 1 && Bytes() == []
    {
      head, tail, length := 0, 0, bufferSize + 1;
      data := new byte[bufferSize + 1];
    }

    method IsQueueEmpty() returns (empty: bool)
      requires Valid()
      ensures empty <==> Bytes() == []
    {
      empty := head == tail;
    }

    method IsQueueFull() returns (full: bool)
      requires Valid()
      ensures full <==> |Bytes()| == length - 1
    {
      FullIffNoRoom(head, tail, length);
      full := (head + 1) % length == tail;
    }

    method GetQueueLoad() returns (load: nat)
      requires Valid()
      ensures load == |Bytes()|
    {
      if head >= tail {
        load := head - tail;
      } else {
        load := length + head - tail;
      }
    }

    method Dequeue() returns (status: int, value: byte)
      requires Valid()
      modifies this`tail
      ensures Valid()
      ensures if old(Bytes()) == [] then status == -1 && Bytes() == []
              else status == 0 && old(Bytes()) == [value] + Bytes()
    {
      value := 0;
      var empty := IsQueueEmpty();
      if empty {
        return -1, value;
      }
      Dequeued(data[..], head, tail);
      value := data[tail];
      tail := (tail + 1) % length;
      status := 0;
    }

    method Enqueue(value: byte) returns (status: int)
      requires Valid()
      modifies this`head, data
      ensures Valid() && length == old(length)
      ensures if |old(Bytes())| == length - 1 then status == -1 && Bytes() == old(Bytes())
              else status == 0 && Bytes() == old(Bytes()) + [value]
    {
      var full := IsQueueFull();
      if full {
        return -1;
      }
      ghost var before := data[..];
      Enqueued(before, head, tail, value);
      data[head] := value;
      assert data[..] == before[head := value];
      Enqueued(data[..], head, tail, value);
      head := (head + 1) % length;
      status := 0;
    }

    /** All or nothing: exactly the `n` oldest bytes, or -1 and no change. */
    method ReadQueue(buffer: array<byte>, n: nat) returns (status: int)
      requires Valid() && n <= buffer.Length && buffer != data
      modifies this`tail, buffer
      ensures Valid()
      ensures if |old(Bytes())| < n then status == -1 && Bytes() == old(Bytes()) && buffer[..] == old(buffer[..])
              else status == n
                   && buffer[..n] == old(Bytes())[..n]
                   && Bytes() == old(Bytes())[n..]
                   && buffer[n..] == old(buffer[n..])
    {
      var load := GetQueueLoad();
      if load < n {
        return -1;
      }
      ghost var start := Bytes();
      var read := 0;
      while read < n
        invariant read <= n && Valid() && Bytes() == start[read..]
        invariant forall i | 0 <= i < read :: buffer[i] == start[i]
        invariant forall i | n <= i < buffer.Length :: buffer[i] == old(buffer[i])
      {
        var ok, value := Dequeue();
        buffer[read] := value;
        assert ok == 0 && value == start[read]; // so the return of -1 from this loop is never taken
        read := read + 1;
      }
      status := read;
    }

    /** All or nothing: the whole block is appended, or -1 and no change. */
    method WriteQueue(block: seq<byte>) returns (status: int)
      requires Valid()
      modifies this`head, data
      ensures Valid() && length == old(length)
      ensures if |old(Bytes())| + |block| > length - 1 then status == -1 && Bytes() == old(Bytes())
              else status == |block| && Bytes() == old(Bytes()) + block
    {
      var load := GetQueueLoad();
      if load + |block| > length - 1 {
        return -1;
      }
      ghost var start := Bytes();
      var written := 0;
      while written < |block|
        invariant written <= |block| && Valid() && length == old(length)
        invariant Bytes() == start + block[..written]
      {
        var ok := Enqueue(block[written]);
        assert ok == 0; // so the return of -1 from this loop is never taken
        assert block[..written + 1] == block[..written] + [block[written]];
        written := written + 1;
      }
      status := written;
    }

    /** One call of the consumer: a frame is taken from the queue and played if there is one. */
    method StreamAudioToDevice() returns (played: seq<byte>)
      requires Valid()
      modifies this`tail
      ensures Valid()
      ensures (played, Bytes()) == Frame(old(Bytes()))
      ensures if |old(Bytes())| < 4096 then played == [] && Bytes() == old(Bytes())
              else played == old(Bytes())[..4096] && Bytes() == old(Bytes())[4096..]
    {
      var buffer := new byte[AUDIO_FRAME_SIZE];
      var bytesRead := ReadQueue(buffer, AUDIO_FRAME_SIZE);
      played := [];
      if bytesRead > 0 {
        played := buffer[..];
        assert buffer[..AUDIO_FRAME_SIZE] == buffer[..];
      }
    }

    /** The final loop, on the loads for which it ends: everything is played, in order. */
    method Drain() returns (played: seq<byte>)
      requires Valid() && |Bytes()| % 4096 == 0
      modifies this`tail
      ensures Valid() && Bytes() == []
      ensures played == old(Bytes())
    {
      ghost var start := Bytes();
      played := [];
      var load := GetQueueLoad();
      while load > 0
        invariant Valid() && load == |Bytes()| && load % 4096 == 0
        invariant played + Bytes() == start
        decreases load
      {
        ghost var before := Bytes();
        var frame := StreamAudioToDevice();
        FrameInOrder(played, before);
        played := played + frame;
        load := GetQueueLoad();
      }
    }
  }

  /** What one call of the consumer plays, and what it leaves. */
  function Frame(contents: seq<byte>): (r: (seq<byte>, seq<byte>))
  {
    if |contents| < AUDIO_FRAME_SIZE then ([], contents)
    else (contents[..AUDIO_FRAME_SIZE], contents[AUDIO_FRAME_SIZE..])
  }

  lemma FrameInOrder(played: seq<byte>, contents: seq<byte>)
    ensures var (frame, rest) := Frame(contents); (played + frame) + rest == played + contents
    ensures |contents| >= AUDIO_FRAME_SIZE ==> |Frame(contents).1| == |contents| - AUDIO_FRAME_SIZE
  {
  }

  /** What the drain loop has played, and what is left, after at most `n` turns. */
  function DrainTurns(contents: seq<byte>, n: nat): (r: (seq<byte>, seq<byte>))
  {
    if n == 0 || contents == [] then ([], contents)
    else
      var (played, rest) := Frame(contents);
      var (played', rest') := DrainTurns(rest, n - 1);
      (played + played', rest')
  }

  /** The loop plays the stored bytes in order; what is left keeps its remainder. */
  lemma {:induction false} DrainInOrder(contents: seq<byte>, n: nat)
    ensures var (played, rest) := DrainTurns(contents, n);
            played + rest == contents && |rest| % AUDIO_FRAME_SIZE == |contents| % AUDIO_FRAME_SIZE
  {
    if n > 0 && contents != [] {
      var (played, rest) := Frame(contents);
      DrainInOrder(rest, n - 1);
      var (played', rest') := DrainTurns(rest, n - 1);
      assert (played + played') + rest' == played + (played' + rest');
    }
  }

  lemma {:induction false} WholeFramesDrain(contents: seq<byte>)
    requires |contents| % AUDIO_FRAME_SIZE == 0
    ensures DrainTurns(contents, |contents| / AUDIO_FRAME_SIZE).1 == []
    decreases |contents|
  {
    if contents != [] {
      WholeFramesDrain(contents[AUDIO_FRAME_SIZE..]);
    }
  }

  /** The drain loop ends if and only if the residual load is a multiple of the frame size, 4096 bytes. */
  lemma DrainEndsIff(contents: seq<byte>)
    ensures (exists n: nat :: DrainTurns(contents, n).1 == []) <==> |contents| % 4096 == 0
  {
    if |contents| % AUDIO_FRAME_SIZE == 0 {
      WholeFramesDrain(contents);
    } else {
      forall n: nat
        ensures DrainTurns(contents, n).1 != []
      {
        DrainInOrder(contents, n);
      }
    }
  }

  // ---------------------------------------------------------------------------------------------
  // Any sequence of bulk operations

  datatype Op = Write(block: seq<byte>) | Read(n: nat)

  /** A first-in first-out sequence of bounded capacity, with all that went in and came out. */
  datatype Fifo = Fifo(contents: seq<byte>, accepted: seq<byte>, consumed: seq<byte>)

  function FifoStep(capacity: nat, f: Fifo, op: Op): (r: Fifo)
  {
    match op
    case Write(block) =>
      if |f.contents| + |block| > capacity then f
      else f.(contents := f.contents + block, accepted := f.accepted + block)
    case Read(n) =>
      if |f.contents| < n then f
      else f.(contents := f.contents[n..], consumed := f.consumed + f.contents[..n])
  }

  function FifoRun(capacity: nat, f: Fifo, ops: seq<Op>): (r: Fifo)
    decreases |ops|
  {
    if ops == [] then f else FifoRun(capacity, FifoStep(capacity, f, ops[0]), ops[1..])
  }

  /** Nothing is lost, invented or reordered: what came out, then what is stored, is what went in. */
  lemma {:induction false} FifoConserves(capacity: nat, f: Fifo, ops: seq<Op>)
    requires f.consumed + f.contents == f.accepted && |f.contents| <= capacity
    ensures var g := FifoRun(capacity, f, ops);
            g.consumed + g.contents == g.accepted && |g.contents| <= capacity
    decreases |ops|
  {
    if ops != [] {
      var g := FifoStep(capacity, f, ops[0]);
      assert g.consumed + g.contents == g.accepted;
      FifoConserves(capacity, g, ops[1..]);
    }
  }

  method OperateOne(q: Queue, op: Op, ghost f: Fifo) returns (accepted: seq<byte>, consumed: seq<byte>)
    requires q.Valid() && f.contents == q.Bytes()
    modifies q, q.data
    ensures q.Valid() && q.length == old(q.length) && q.data == old(q.data)
    ensures FifoStep(q.length - 1, f, op) == Fifo(q.Bytes(), f.accepted + accepted, f.consumed + consumed)
  {
    accepted, consumed := [], [];
    assert f.accepted + [] == f.accepted && f.consumed + [] == f.consumed;
    match op
    case Write(block) =>
      var status := q.WriteQueue(block);
      if status >= 0 {
        accepted := block;
      }
    case Read(n) =>
      var buffer := new byte[n];
      var status := q.ReadQueue(buffer, n);
      if status >= 0 {
        consumed := buffer[..n];
      }
  }

  /** The circular array behaves as the bounded sequence on every sequence of bulk operations. */
  method Operate(q: Queue, ops: seq<Op>) returns (accepted: seq<byte>, consumed: seq<byte>)
    requires q.Valid()
    modifies q, q.data
    ensures q.Valid() && q.length == old(q.length)
    ensures Fifo(q.Bytes(), accepted, consumed) == FifoRun(q.length - 1, Fifo(old(q.Bytes()), [], []), ops)
  {
    accepted, consumed := [], [];
    ghost var start := Fifo(q.Bytes(), [], []);
    var i := 0;
    while i < |ops|
      invariant i <= |ops| && q.Valid() && q.length == old(q.length) && q.data == old(q.data)
      invariant FifoRun(q.length - 1, Fifo(q.Bytes(), accepted, consumed), ops[i..])
             == FifoRun(q.length - 1, start, ops)
    {
      assert ops[i..][0] == ops[i] && ops[i..][1..] == ops[i + 1..];
      var more, taken := OperateOne(q, ops[i], Fifo(q.Bytes(), accepted, consumed));
      accepted, consumed := accepted + more, consumed + taken;
      i := i + 1;
    }
  }
}
