/** A run on which the queue refuses a block although it is empty: the tail wraps around between the comparison and the
    subtraction of the load (lab5/lib/queue.c, lab5/lib/audio_client.c). */
module AudioRefusal {
  import opened Bytes
  import opened Circular
  import opened AudioQueue
  import opened AudioInterrupts

  lemma {:induction false} RunsAppend(s: State, first: seq<Event>, t: State, second: seq<Event>, u: State, frame: nat)
    requires WellFormed(s) && Runs(s, first, frame, t) && WellFormed(t) && Runs(t, second, frame, u)
    ensures Runs(s, first + second, frame, u)
    decreases |first|
  {
    if first == [] {
      assert first + second == second;
    } else {
      assert (first + second)[0] == first[0] && (first + second)[1..] == first[1..] + second;
      RunsAppend(Step(s, first[0], frame), first[1..], t, second, u, frame);
    }
  }

  lemma RunsOne(s: State, e: Event, frame: nat)
    requires WellFormed(s) && Enabled(s, e)
    ensures Runs(s, [e], frame, Step(s, e, frame))
  {
    assert [e][1..] == [];
  }

  lemma RunsThenOne(s: State, events: seq<Event>, t: State, e: Event, frame: nat)
    requires WellFormed(s) && Runs(s, events, frame, t) && WellFormed(t) && Enabled(t, e)
    ensures Runs(s, events + [e], frame, Step(t, e, frame))
  {
    RunsOne(t, e, frame);
    RunsAppend(s, events, t, [e], Step(t, e, frame), frame);
  }

  /** The byte loop of an accepted block, without interrupts. */
  lemma {:induction false} LoopRuns(s: State, frame: nat) returns (events: seq<Event>, t: State)
    requires Inv(s) && Accepted(s)
    ensures Runs(s, events, frame, t) && Inv(t) && t.pc.Idle?
    ensures t.tail == s.tail && Length(t) == Length(s) && t.accepted == s.accepted && t.consumed == s.consumed
    decreases StepsLeft(s)
  {
    events, t := [], s;
    if Writing(s) {
      var next := Producer(s);
      ProducerInv(s);
      AcceptedWriteFinishes(s, Produce, frame);
      var more;
      more, t := LoopRuns(next, frame);
      RunsOne(s, Produce, frame);
      RunsAppend(s, [Produce], next, more, t, frame);
      events := [Produce] + more;
    }
  }

  /** The steps of an uninterrupted write up to the capacity test, which a block that fits passes. */
  lemma AcceptanceRuns(s: State, block: seq<byte>, frame: nat) returns (events: seq<Event>, t: State)
    requires Inv(s) && s.pc.Idle? && Load(s.head, s.tail, Length(s)) + |block| <= Length(s) - 1
    ensures Runs(s, events, frame, t) && Inv(t) && Accepted(t)
    ensures t.tail == s.tail && Length(t) == Length(s) && t.consumed == s.consumed && t.accepted == s.accepted + block
  {
    var a := Step(s, Begin(block), frame);
    var b := Producer(a);
    var c := Producer(b);
    t := Producer(c);
    StepInv(s, Begin(block), frame);
    ProducerInv(a);
    ProducerInv(b);
    ProducerInv(c);
    RunsOne(s, Begin(block), frame);
    RunsThenOne(s, [Begin(block)], a, Produce, frame);
    RunsThenOne(s, [Begin(block)] + [Produce], b, Produce, frame);
    RunsThenOne(s, [Begin(block)] + [Produce] + [Produce], c, Produce, frame);
    events := [Begin(block)] + [Produce] + [Produce] + [Produce];
  }

  lemma WriteRuns(s: State, block: seq<byte>, frame: nat) returns (events: seq<Event>, t: State)
    requires Inv(s) && s.pc.Idle? && Load(s.head, s.tail, Length(s)) + |block| <= Length(s) - 1
    ensures Runs(s, events, frame, t) && Inv(t) && t.pc.Idle? && t.tail == s.tail && Length(t) == Length(s)
    ensures Load(t.head, t.tail, Length(t)) == Load(s.head, s.tail, Length(s)) + |block|
  {
    var first, u := AcceptanceRuns(s, block, frame);
    var second;
    second, t := LoopRuns(u, frame);
    RunsAppend(s, first, u, second, t, frame);
    events := first + second;
    SameLength(s, t, block);
  }

  lemma SameLength(s: State, t: State, block: seq<byte>)
    requires Inv(s) && Inv(t) && s.pc.Idle? && t.pc.Idle?
    requires t.consumed == s.consumed && t.accepted == s.accepted + block
    ensures Load(t.head, t.tail, Length(t)) == Load(s.head, s.tail, Length(s)) + |block|
  {
    assert |t.accepted| == |t.consumed| + |Contents(t.data, t.head, t.tail)|;
    assert |s.accepted| == |s.consumed| + |Contents(s.data, s.head, s.tail)|;
  }

  /** An interrupt that takes all there is. */
  lemma EmptyingInterrupt(s: State, frame: nat)
    requires Inv(s) && Load(s.head, s.tail, Length(s)) == frame
    ensures var t := Step(s, Interrupt, frame);
            Inv(t) && t.pc == s.pc && t.block == s.block && t.head == s.head && Length(t) == Length(s) && t.tail == t.head
  {
    ConsumerInv(s, frame);
    ForwardBehind(s.head, s.tail, frame, Length(s));
  }

  /** The array the client allocates for `n` units, as the run finds it. */
  function Allocated(n: nat): (junk: seq<byte>)
    ensures |junk| == AUDIO_FRAME_SIZE * n + 1
  {
    Repeat(0, AUDIO_FRAME_SIZE * n + 1)
  }

  /** Writing and consuming frame by frame takes both indices through the array. */
  lemma {:induction false} FrameByFrame(n: nat, m: nat) returns (events: seq<Event>, t: State)
    requires m <= n
    ensures Runs(Initial(Allocated(n)), events, AUDIO_FRAME_SIZE, t) && Inv(t) && t.pc.Idle?
    ensures Length(t) == AUDIO_FRAME_SIZE * n + 1 && t.head == t.tail == AUDIO_FRAME_SIZE * m
    decreases m
  {
    events, t := [], Initial(Allocated(n));
    InitialInv(Allocated(n));
    if m > 0 {
      var before, s := FrameByFrame(n, m - 1);
      var write, u := WriteRuns(s, Repeat(0, AUDIO_FRAME_SIZE), AUDIO_FRAME_SIZE);
      RunsAppend(Initial(Allocated(n)), before, s, write, u, AUDIO_FRAME_SIZE);
      EmptyingInterrupt(u, AUDIO_FRAME_SIZE);
      t := Step(u, Interrupt, AUDIO_FRAME_SIZE);
      RunsThenOne(Initial(Allocated(n)), before + write, u, Interrupt, AUDIO_FRAME_SIZE);
      events := before + write + [Interrupt];
    }
  }

  /** The stored frame lies across the end of the array. */
  lemma AcrossTheEnd(n: nat) returns (events: seq<Event>, t: State)
    requires n > 0
    ensures Runs(Initial(Allocated(n)), events, AUDIO_FRAME_SIZE, t) && Inv(t) && t.pc.Idle?
    ensures Length(t) == AUDIO_FRAME_SIZE * n + 1
    ensures t.head < t.tail && Load(t.head, t.tail, Length(t)) == AUDIO_FRAME_SIZE
  {
    var before, s := FrameByFrame(n, n);
    var write;
    write, t := WriteRuns(s, Repeat(0, AUDIO_FRAME_SIZE), AUDIO_FRAME_SIZE);
    RunsAppend(Initial(Allocated(n)), before, s, write, t, AUDIO_FRAME_SIZE);
    events := before + write;
  }

  /** For every size of the buffer the client can be given, and every block that fits into it: some run comes to the
      capacity test with an empty queue and a load of the whole array, so that the block is refused. A single
      interrupt, between the comparison and the subtraction, is enough. */
  lemma FitsButRefused(n: nat, block: seq<byte>) returns (events: seq<Event>, t: State)
    requires n > 0 && |block| <= AUDIO_FRAME_SIZE * n
    ensures Runs(Initial(Allocated(n)), events, AUDIO_FRAME_SIZE, t) && WellFormed(t) && t.block == block
    ensures t.pc == Decide(Length(t)) && Contents(t.data, t.head, t.tail) == []
    ensures Load(t.head, t.tail, Length(t)) + |block| <= Length(t) - 1
    ensures Producer(t) == t.(pc := Idle)
  {
    var before, s := AcrossTheEnd(n);
    var start := Initial(Allocated(n));
    var a := Step(s, Begin(block), AUDIO_FRAME_SIZE);
    StepInv(s, Begin(block), AUDIO_FRAME_SIZE);
    RunsThenOne(start, before, s, Begin(block), AUDIO_FRAME_SIZE);
    var b := Producer(a);
    ProducerInv(a);
    RunsThenOne(start, before + [Begin(block)], a, Produce, AUDIO_FRAME_SIZE);
    EmptyingInterrupt(b, AUDIO_FRAME_SIZE);
    var c := Step(b, Interrupt, AUDIO_FRAME_SIZE);
    RunsThenOne(start, before + [Begin(block)] + [Produce], b, Interrupt, AUDIO_FRAME_SIZE);
    t := Producer(c);
    RunsThenOne(start, before + [Begin(block)] + [Produce] + [Interrupt], c, Produce, AUDIO_FRAME_SIZE);
    events := before + [Begin(block)] + [Produce] + [Interrupt] + [Produce];
  }
}
