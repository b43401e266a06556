/** The queue under a consumer that is a signal handler: it may run to completion between any two reads or writes of
    shared variables by the producer (lab5/lib/queue.c, lab5/lib/audio_client.c, lab5/v2/audiocli.c). */
module AudioInterrupts {
  import opened Bytes
  import opened Circular
  import opened AudioQueue

  /** Where the producer is inside `write_queue`: before the comparison of head and tail, before the subtraction,
      before the capacity test, before the full test of one byte, before its store, before the advance of the head.
      `Failed` is the return of -1 in the middle of the loop. */
  datatype Pc =
    | Idle
    | Compare
    | Subtract(headFirst: bool)
    | Decide(load: int)
    | FullTest
    | Store
    | Bump
    | Failed

  /** The shared queue, the producer's private state, and as history the blocks accepted and the bytes consumed. */
  datatype State = State(data: seq<byte>, head: nat, tail: nat,
                         pc: Pc, block: seq<byte>, written: nat,
                         accepted: seq<byte>, consumed: seq<byte>)

  datatype Event =
    | Begin(block: seq<byte>)
    | Produce
    | Interrupt

  function Length(s: State): (r: nat) { |s.data| }

  /** In the byte loop of an accepted block. */
  predicate Writing(s: State) { s.pc.FullTest? || s.pc.Store? || s.pc.Bump? }

  /** The indices in use are within bounds; every step keeps this by itself. */
  ghost predicate WellFormed(s: State)
  {
    && Indices(s.data, s.head, s.tail)
    && s.written <= |s.block|
    && (Writing(s) ==> s.written < |s.block|)
  }

  ghost predicate Enabled(s: State, e: Event)
  {
    match e
    case Begin(_) => s.pc.Idle?
    case Produce => !s.pc.Idle? && !s.pc.Failed?
    case Interrupt => true
  }

  /** After `written` bytes: the next byte, or the return. */
  function NextByte(s: State): (r: Pc)
  {
    if s.written < |s.block| then FullTest else Idle
  }

  /** One elementary step of the producer. */
  function Producer(s: State): (t: State)
    requires WellFormed(s)
    ensures WellFormed(t)
  {
    match s.pc
    case Idle => s
    case Failed => s
    case Compare => s.(pc := Subtract(s.head >= s.tail))
    case Subtract(headFirst) =>
      s.(pc := Decide(if headFirst then s.head - s.tail else Length(s) + s.head - s.tail))
    case Decide(load) =>
      if load + |s.block| > Length(s) - 1 then s.(pc := Idle)
      else
        var t := s.(written := 0, accepted := s.accepted + s.block);
        t.(pc := NextByte(t))
    case FullTest => s.(pc := if IsFull(s.head, s.tail, Length(s)) then Failed else Store)
    case Store => s.(data := s.data[s.head := s.block[s.written]], pc := Bump)
    case Bump =>
      var t := s.(head := Next(s.head, Length(s)), written := s.written + 1);
      t.(pc := NextByte(t))
  }

  /** The handler takes a whole frame or nothing. */
  function Consumer(s: State, frame: nat): (t: State)
    requires WellFormed(s)
    ensures WellFormed(t)
  {
    if Load(s.head, s.tail, Length(s)) < frame then s
    else
      s.(tail := Forward(s.tail, frame, Length(s)),
         consumed := s.consumed + Contents(s.data, s.head, s.tail)[..frame])
  }

  function Step(s: State, e: Event, frame: nat): (t: State)
    requires WellFormed(s) && Enabled(s, e)
    ensures WellFormed(t)
  {
    match e
    case Begin(block) => s.(pc := Compare, block := block, written := 0)
    case Produce => Producer(s)
    case Interrupt => Consumer(s, frame)
  }

  /** An empty queue over an uninitialised array. */
  function Initial(junk: seq<byte>): (s: State)
    requires junk != []
    ensures WellFormed(s)
  {
    State(junk, 0, 0, Idle, [], 0, [], [])
  }

  /** The bytes of the current block that are accepted but not yet stored. */
  function Pending(s: State): (r: seq<byte>)
    requires s.written <= |s.block|
  {
    if Writing(s) then s.block[s.written..] else []
  }

  ghost predicate Inv(s: State)
  {
    && WellFormed(s)
    && !s.pc.Failed?
    && (s.pc == Subtract(true) ==> s.head >= s.tail)
    && (s.pc.Decide? ==> s.pc.load >= Load(s.head, s.tail, Length(s)))
    && (Writing(s) ==> Load(s.head, s.tail, Length(s)) + |s.block| - s.written <= Length(s) - 1)
    && (s.pc.Bump? ==> s.data[s.head] == s.block[s.written])
    && s.consumed + Contents(s.data, s.head, s.tail) + Pending(s) == s.accepted
  }

  lemma InitialInv(junk: seq<byte>)
    requires junk != []
    ensures Inv(Initial(junk))
  {
  }

  /** The byte that moves from what is pending to what is stored keeps its place. */
  lemma StoredInOrder(consumed: seq<byte>, stored: seq<byte>, block: seq<byte>, written: nat)
    requires written < |block|
    ensures consumed + (stored + [block[written]]) + block[written + 1..] == consumed + stored + block[written..]
  {
    assert block[written..] == [block[written]] + block[written + 1..];
  }

  lemma BumpInv(s: State)
    requires Inv(s) && s.pc.Bump?
    ensures Inv(Producer(s))
  {
    var t, stored := Producer(s), Contents(s.data, s.head, s.tail);
    FullIffNoRoom(s.head, s.tail, Length(s));
    Enqueued(s.data, s.head, s.tail, s.block[s.written]);
    StoredInOrder(s.consumed, stored, s.block, s.written);
    assert Contents(t.data, t.head, t.tail) == stored + [s.block[s.written]];
    assert Pending(t) == s.block[s.written + 1..];
  }

  lemma StoreInv(s: State)
    requires Inv(s) && s.pc.Store?
    ensures Inv(Producer(s))
  {
    Enqueued(s.data, s.head, s.tail, s.block[s.written]);
  }

  lemma ProducerInv(s: State)
    requires Inv(s)
    ensures Inv(Producer(s))
  {
    match s.pc
    case Decide(_) =>
      assert s.block[0..] == s.block;
      assert s.consumed + Contents(s.data, s.head, s.tail) + [] == s.accepted;
    case FullTest => FullIffNoRoom(s.head, s.tail, Length(s));
    case Store => StoreInv(s);
    case Bump => BumpInv(s);
    case _ =>
  }

  /** Consuming moves the tail towards the head without passing it: if it has not wrapped, it stays behind. */
  lemma {:induction false} ForwardBehind(head: nat, tail: nat, n: nat, length: nat)
    requires head < length && tail < length && n <= Load(head, tail, length)
    ensures Load(head, Forward(tail, n, length), length) == Load(head, tail, length) - n
    ensures head >= tail ==> head >= Forward(tail, n, length)
  {
    if n > 0 {
      ForwardBehind(head, tail, n - 1, length);
    }
  }

  /** Taking a frame off the front of what is stored keeps the order of all bytes. */
  lemma TakenInOrder(consumed: seq<byte>, stored: seq<byte>, pending: seq<byte>, frame: nat)
    requires frame <= |stored|
    ensures (consumed + stored[..frame]) + stored[frame..] + pending == consumed + stored + pending
  {
    assert stored == stored[..frame] + stored[frame..];
  }

  lemma ConsumerInv(s: State, frame: nat)
    requires Inv(s)
    ensures Inv(Consumer(s, frame))
  {
    var stored, t := Contents(s.data, s.head, s.tail), Consumer(s, frame);
    if frame <= |stored| {
      ForwardBehind(s.head, s.tail, frame, Length(s));
      Removed(s.data, s.head, s.tail, frame);
      TakenInOrder(s.consumed, stored, Pending(s), frame);
      assert Pending(t) == Pending(s);
      assert t.consumed + Contents(t.data, t.head, t.tail) + Pending(t) == t.accepted;
    }
  }

  lemma StepInv(s: State, e: Event, frame: nat)
    requires Inv(s) && Enabled(s, e)
    ensures Inv(Step(s, e, frame))
  {
    match e
    case Begin(_) =>
    case Produce => ProducerInv(s);
    case Interrupt => ConsumerInv(s, frame);
  }

  /** The events, with interrupts anywhere among the producer's steps, lead from `s` to `t`. */
  ghost predicate Runs(s: State, events: seq<Event>, frame: nat, t: State)
    requires WellFormed(s)
    decreases |events|
  {
    if events == [] then s == t
    else Enabled(s, events[0]) && Runs(Step(s, events[0], frame), events[1..], frame, t)
  }

  lemma {:induction false} RunInv(s: State, events: seq<Event>, frame: nat, t: State)
    requires Inv(s) && Runs(s, events, frame, t)
    ensures Inv(t)
    decreases |events|
  {
    if events != [] {
      StepInv(s, events[0], frame);
      RunInv(Step(s, events[0], frame), events[1..], frame, t);
    }
  }

  // ---------------------------------------------------------------------------------------------
  // Main results, for every placement of the interrupts

  /** What the handler has consumed, then what is stored, then what is left of the block being written, is the
      concatenation of the accepted blocks; and the -1 in the middle of the byte loop is never returned. */
  lemma NothingLostOrReordered(junk: seq<byte>, events: seq<Event>, frame: nat, t: State)
    requires junk != [] && Runs(Initial(junk), events, frame, t)
    ensures WellFormed(t)
    ensures t.consumed + Contents(t.data, t.head, t.tail) + Pending(t) == t.accepted
    ensures t.consumed <= t.accepted
    ensures !t.pc.Failed?
  {
    InitialInv(junk);
    RunInv(Initial(junk), events, frame, t);
  }

  /** The load the producer has computed stays an upper bound of the true load until it stores the next byte,
      whatever the handler does in between; so an accepted block fits, and the test can err only by refusing. */
  lemma LoadNeverTooLow(junk: seq<byte>, events: seq<Event>, frame: nat, t: State)
    requires junk != [] && Runs(Initial(junk), events, frame, t) && t.pc.Decide?
    ensures WellFormed(t)
    ensures 0 <= Load(t.head, t.tail, Length(t)) <= t.pc.load
    ensures !Producer(t).pc.Idle? ==> Load(t.head, t.tail, Length(t)) + |t.block| <= Length(t) - 1
  {
    InitialInv(junk);
    RunInv(Initial(junk), events, frame, t);
  }

  /** The load computed by the subtraction is exact, unless the tail wrapped around between the comparison and the
      subtraction; then it is too large by the length of the array, and any block is refused. */
  lemma LoadExactIff(junk: seq<byte>, events: seq<Event>, frame: nat, s: State)
    requires junk != [] && Runs(Initial(junk), events, frame, s) && s.pc.Subtract?
    ensures WellFormed(s)
    ensures var wrapped := !s.pc.headFirst && s.tail <= s.head;
            var load := Load(s.head, s.tail, Length(s));
            var t := Producer(s);
            && t.pc == Decide(if wrapped then load + Length(s) else load)
            && (wrapped ==> Producer(t) == t.(pc := Idle))
  {
    InitialInv(junk);
    RunInv(Initial(junk), events, frame, s);
  }

  /** Elementary steps the producer still has to make to return from the byte loop. */
  function StepsLeft(s: State): (r: nat)
    requires s.written <= |s.block|
  {
    var rest := |s.block| - s.written;
    match s.pc
    case FullTest => 3 * rest
    case Store => if rest == 0 then 0 else 3 * rest - 1
    case Bump => if rest == 0 then 0 else 3 * rest - 2
    case _ => 0
  }

  /** An accepted write always finishes: each of the producer's own steps brings the return nearer, and interrupts
      do not set it back. */
  lemma AcceptedWriteFinishes(s: State, e: Event, frame: nat)
    requires Inv(s) && Enabled(s, e) && Writing(s)
    ensures var t := Step(s, e, frame);
            && t.written <= |t.block|
            && StepsLeft(s) > 0
            && StepsLeft(t) == StepsLeft(s) - (if e.Produce? then 1 else 0)
            && (Writing(t) || (StepsLeft(t) == 0 && t.pc.Idle? && t.written == |t.block|))
  {
    FullIffNoRoom(s.head, s.tail, Length(s));
  }

  /** How many of the events are steps of the producer. */
  function Produced(events: seq<Event>): (n: nat)
    ensures n <= |events|
  {
    if events == [] then 0 else (if events[0].Produce? then 1 else 0) + Produced(events[1..])
  }

  /** In the byte loop of an accepted block, or just returned from it. */
  predicate Accepted(s: State) { Writing(s) || (s.pc.Idle? && s.written == |s.block|) }

  lemma {:induction false} LoopReturns(s: State, events: seq<Event>, frame: nat, t: State) returns (n: nat, u: State)
    requires Inv(s) && Accepted(s) && Runs(s, events, frame, t) && Produced(events) >= StepsLeft(s)
    ensures n <= |events| && Runs(s, events[..n], frame, u) && Produced(events[..n]) == StepsLeft(s)
    ensures u.pc.Idle? && u.written == |u.block| && u.block == s.block && u.accepted == s.accepted
    decreases |events|
  {
    if Writing(s) {
      var e := events[0];
      var next := Step(s, e, frame);
      AcceptedWriteFinishes(s, e, frame);
      StepInv(s, e, frame);
      n, u := LoopReturns(next, events[1..], frame, t);
      n := n + 1;
      assert events[..n][1..] == events[1..][..n - 1];
    } else {
      n, u := 0, s;
      assert events[..0] == [];
    }
  }

  /** On every run: when a block has been accepted, 3 steps of the producer for each of its bytes, with interrupts
      anywhere among them, and the write has returned with the whole block. */
  lemma AcceptedWriteReturns(junk: seq<byte>, before: seq<Event>, s: State, events: seq<Event>, frame: nat, t: State)
    returns (n: nat, u: State)
    requires junk != [] && Runs(Initial(junk), before, frame, s)
    requires s.pc.Decide? && WellFormed(s) && s.pc.load + |s.block| <= Length(s) - 1
    requires Runs(Producer(s), events, frame, t) && Produced(events) >= 3 * |s.block|
    ensures n <= |events| && Runs(Producer(s), events[..n], frame, u) && Produced(events[..n]) == 3 * |s.block|
    ensures u.pc.Idle? && u.written == |u.block| && u.block == s.block && WellFormed(u)
    ensures u.consumed + Contents(u.data, u.head, u.tail) == u.accepted == s.accepted + s.block
  {
    InitialInv(junk);
    RunInv(Initial(junk), before, frame, s);
    ProducerInv(s);
    n, u := LoopReturns(Producer(s), events, frame, t);
    RunInv(Producer(s), events[..n], frame, u);
  }

  // ---------------------------------------------------------------------------------------------
  // The same queue without interrupts

  /** The producer alone, until it returns. */
  function Alone(s: State, n: nat): (t: State)
    requires WellFormed(s)
    ensures WellFormed(t)
    decreases n
  {
    if n == 0 then s else Alone(Producer(s), n - 1)
  }

  lemma {:induction false} LoopAlone(s: State, n: nat)
    requires Inv(s) && (Writing(s) || s.pc.Idle?) && n == StepsLeft(s)
    ensures var t := Alone(s, n);
            Inv(t) && t.pc.Idle? && t.accepted == s.accepted && t.consumed == s.consumed
    decreases n
  {
    if Writing(s) {
      ProducerInv(s);
      AcceptedWriteFinishes(s, Produce, 1);
      LoopAlone(Producer(s), n - 1);
    }
  }

  lemma {:induction false} AloneAppend(s: State, m: nat, n: nat)
    requires WellFormed(s)
    ensures Alone(s, m + n) == Alone(Alone(s, m), n)
    decreases m
  {
    if m > 0 {
      AloneAppend(Producer(s), m - 1, n);
    }
  }

  /** Alone, the producer decides in three steps, with the true load. */
  lemma Decision(s: State, block: seq<byte>)
    requires Inv(s) && s.pc.Idle?
    ensures var d := Alone(Step(s, Begin(block), 1), 3);
            && Inv(d) && (Writing(d) || d.pc.Idle?) && d.consumed == s.consumed
            && d.accepted == s.accepted
                 + if Load(s.head, s.tail, Length(s)) + |block| > Length(s) - 1 then [] else block
  {
    var a := Step(s, Begin(block), 1);
    var b := Producer(a);
    var c := Producer(b);
    StepInv(s, Begin(block), 1);
    ProducerInv(a);
    ProducerInv(b);
    ProducerInv(c);
    assert Alone(a, 3) == Alone(b, 2) == Alone(c, 1) == Alone(Producer(c), 0);
    assert s.accepted + [] == s.accepted;
  }

  lemma SuffixGrows(consumed: seq<byte>, before: seq<byte>, block: seq<byte>, after: seq<byte>)
    requires consumed + after == (consumed + before) + block
    ensures after == before + block
  {
    assert (consumed + after)[|consumed|..] == after;
    assert ((consumed + before) + block)[|consumed|..] == before + block;
  }

  lemma Completion(s: State, d: State, added: seq<byte>)
    requires Inv(s) && s.pc.Idle?
    requires Inv(d) && (Writing(d) || d.pc.Idle?)
    requires d.consumed == s.consumed && d.accepted == s.accepted + added
    ensures var t := Alone(d, StepsLeft(d));
            t.pc.Idle? && Contents(t.data, t.head, t.tail) == Contents(s.data, s.head, s.tail) + added
  {
    LoopAlone(d, StepsLeft(d));
    var t := Alone(d, StepsLeft(d));
    assert s.consumed + Contents(s.data, s.head, s.tail) == s.accepted;
    assert t.consumed + Contents(t.data, t.head, t.tail) == t.accepted;
    SuffixGrows(s.consumed, Contents(s.data, s.head, s.tail), added, Contents(t.data, t.head, t.tail));
  }

  /** An uninterrupted write is the write of the sequential queue: the whole block, or nothing. */
  lemma UninterruptedWrite(s: State, block: seq<byte>) returns (n: nat)
    requires Inv(s) && s.pc.Idle?
    ensures var t := Alone(Step(s, Begin(block), 1), n);
            && t.pc.Idle?
            && Contents(t.data, t.head, t.tail)
               == Contents(s.data, s.head, s.tail)
                  + if Load(s.head, s.tail, Length(s)) + |block| > Length(s) - 1 then [] else block
  {
    var a := Step(s, Begin(block), 1);
    var d := Alone(a, 3);
    Decision(s, block);
    Completion(s, d, if Load(s.head, s.tail, Length(s)) + |block| > Length(s) - 1 then [] else block);
    AloneAppend(a, 3, StepsLeft(d));
    n := 3 + StepsLeft(d);
  }

  /** The handler takes from the queue what one call of the sequential consumer takes. */
  lemma InterruptIsFrame(s: State)
    requires Inv(s)
    ensures var t, contents := Consumer(s, AUDIO_FRAME_SIZE), Contents(s.data, s.head, s.tail);
            && Indices(t.data, t.head, t.tail)
            && t.consumed == s.consumed + Frame(contents).0
            && Contents(t.data, t.head, t.tail) == Frame(contents).1
            && |t.consumed| == |s.consumed| + if |contents| < 4096 then 0 else 4096
  {
    if AUDIO_FRAME_SIZE <= Load(s.head, s.tail, Length(s)) {
      Removed(s.data, s.head, s.tail, AUDIO_FRAME_SIZE);
    } else {
      assert s.consumed + [] == s.consumed;
    }
  }
}
