/** Bytes, the C `uint8_t` conversions, and facts about sequences that every component uses. */
module Bytes {

  newtype byte = x: int | 0 <= x < 256

  datatype Option<+T> = None | Some(value: T)

  /** Conversion of an `int` to `uint8_t`: reduction modulo 256, also for negative values. */
  function U8(x: int): byte
  {
    (x % 256) as byte
  }

  /** Promotion of a `uint8_t` to `int`. */
  function Num(b: byte): (n: nat)
  {
    b as int
  }

  lemma NumOfU8(x: int)
    requires 0 <= x < 256
    ensures Num(U8(x)) == x
  {
  }

  function Repeat<T>(x: T, n: nat): (s: seq<T>)
    ensures |s| == n
    ensures forall i | 0 <= i < n :: s[i] == x
  {
    seq(n, _ => x)
  }

  function Flatten<T>(ss: seq<seq<T>>): (r: seq<T>)
  {
    if ss == [] then [] else ss[0] + Flatten(ss[1..])
  }

  lemma {:induction false} FlattenAppend<T>(a: seq<seq<T>>, b: seq<seq<T>>)
    ensures Flatten(a + b) == Flatten(a) + Flatten(b)
  {
    if a == [] {
      assert a + b == b;
    } else {
      assert (a + b)[1..] == a[1..] + b;
      FlattenAppend(a[1..], b);
    }
  }

  /** Appending one more piece at the end appends it to the flattening. */
  lemma FlattenSnoc<T>(ss: seq<seq<T>>, n: nat)
    requires n < |ss|
    ensures Flatten(ss[..n + 1]) == Flatten(ss[..n]) + ss[n]
  {
    assert ss[..n + 1] == ss[..n] + [ss[n]];
    FlattenAppend(ss[..n], [ss[n]]);
    assert [ss[n]][1..] == [];
  }

  lemma ModuloUnique(x: int, n: nat, q: int, r: nat)
    requires r < n
    requires x == n * q + r
    ensures x % n == r
  {
    var p := x / n - q;
    assert x == n * (x / n) + x % n;
    assert n * p == r - x % n;
    MultipleInRange(n, p);
  }

  lemma MultipleInRange(n: nat, p: int)
    ensures 0 - n < n * p < n ==> p == 0
  {
    if p >= 1 {
      assert n * p >= n;
    } else if p <= -1 {
      assert n * -p >= n;
    }
  }
}
