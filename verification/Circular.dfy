/** The arithmetic of a circular buffer in which one slot always stays free (lab5/lib/queue.c). */
module Circular {
  import opened Bytes

  function Next(i: nat, length: nat): (r: nat)
    requires i < length
    ensures r == if i + 1 == length then 0 else i + 1
  {
    (i + 1) % length
  }

  ghost predicate Indices(data: seq<byte>, head: nat, tail: nat)
  {
    head < |data| && tail < |data|
  }

  /** The number of stored bytes. */
  function Load(head: nat, tail: nat, length: nat): (n: nat)
    requires head < length && tail < length
    ensures n < length
  {
    if head >= tail then head - tail else length + head - tail
  }

  /** The stored bytes, oldest first. */
  function Contents(data: seq<byte>, head: nat, tail: nat): (s: seq<byte>)
    requires Indices(data, head, tail)
    ensures |s| == Load(head, tail, |data|)
  {
    if head >= tail then data[tail..head] else data[tail..] + data[..head]
  }

  predicate IsFull(head: nat, tail: nat, length: nat)
    requires head < length
  {
    Next(head, length) == tail
  }

  lemma FullIffNoRoom(head: nat, tail: nat, length: nat)
    requires head < length && tail < length
    ensures IsFull(head, tail, length) <==> Load(head, tail, length) == length - 1
    ensures head == tail <==> Load(head, tail, length) == 0
  {
  }

  /** Writing into the free slot at the head changes no stored byte, and advancing the head then appends it. */
  lemma Enqueued(data: seq<byte>, head: nat, tail: nat, value: byte)
    requires Indices(data, head, tail)
    ensures Contents(data[head := value], head, tail) == Contents(data, head, tail)
    ensures !IsFull(head, tail, |data|) && data[head] == value ==>
              Contents(data, Next(head, |data|), tail) == Contents(data, head, tail) + [value]
  {
  }

  lemma Dequeued(data: seq<byte>, head: nat, tail: nat)
    requires Indices(data, head, tail) && head != tail
    ensures data[tail] == Contents(data, head, tail)[0]
    ensures Contents(data, head, Next(tail, |data|)) == Contents(data, head, tail)[1..]
  {
  }

  /** Where the tail is after removing `n` bytes. */
  function Forward(tail: nat, n: nat, length: nat): (r: nat)
    requires tail < length
    ensures r < length
  {
    if n == 0 then tail else Next(Forward(tail, n - 1, length), length)
  }

  lemma {:induction false} Removed(data: seq<byte>, head: nat, tail: nat, n: nat)
    requires Indices(data, head, tail) && n <= Load(head, tail, |data|)
    ensures Contents(data, head, Forward(tail, n, |data|)) == Contents(data, head, tail)[n..]
  {
    if n > 0 {
      Removed(data, head, tail, n - 1);
      Dequeued(data, head, Forward(tail, n - 1, |data|));
    }
  }
}
