/** Fixed-width integers of the driver and the byte-sequence helpers its
    specifications are written with. */
module Bytes {

  /** An unsigned 8-bit value (`uint8_t`). */
  type byte = b: int | 0 <= b < 256

  /** An unsigned 16-bit value (`uint16_t`), the type of every timeout. */
  type uint16 = w: int | 0 <= w < 0x1_0000

  /** Truncation to `uint8_t`, as C does on assignment. */
  function U8(x: int): (r: byte)
    ensures 0 <= x < 256 ==> r == x
    ensures (r - x) % 256 == 0
  {
    x % 256
  }

  /** Plain sum of a byte sequence, added from the left as the source's loops do. */
  function Sum(s: seq<byte>): nat
  {
    if s == [] then 0 else Sum(s[..|s| - 1]) + s[|s| - 1]
  }

  lemma {:induction false} SumAppend(a: seq<byte>, b: seq<byte>)
    ensures Sum(a + b) == Sum(a) + Sum(b)
    decreases |b|
  {
    if b == [] {
      assert a + b == a;
    } else {
      assert (a + b)[..|a + b| - 1] == a + b[..|b| - 1];
      SumAppend(a, b[..|b| - 1]);
    }
  }

  /** `n` zero bytes. */
  function Zeros(n: nat): (r: seq<byte>)
    ensures |r| == n && forall i :: 0 <= i < n ==> r[i] == 0
  {
    seq(n, _ => 0)
  }

  /** The first `n` bytes a scripted queue delivers; an exhausted queue reads as 0x00. */
  function Take(q: seq<byte>, n: nat): (r: seq<byte>)
    ensures |r| == n
    ensures forall i :: 0 <= i < n ==> r[i] == if i < |q| then q[i] else 0
  {
    seq(n, i requires 0 <= i < n => if i < |q| then q[i] else 0)
  }

  /** The next byte a scripted queue delivers (0x00 once it is exhausted). */
  function Next(q: seq<byte>): byte
  {
    if q == [] then 0 else q[0]
  }

  /** What is left of a queue after `n` bytes have been taken. */
  function Drop(q: seq<byte>, n: nat): (r: seq<byte>)
    ensures n <= |q| ==> r == q[n..]
    ensures n > |q| ==> r == []
  {
    if n <= |q| then q[n..] else []
  }

  /** Reading past a prefix of the queue continues in the rest of it. */
  lemma TakeAppend(a: seq<byte>, b: seq<byte>, n: nat)
    requires |a| <= n
    ensures Take(a + b, n) == a + Take(b, n - |a|)
  {
    var r := a + Take(b, n - |a|);
    forall i | 0 <= i < n
      ensures Take(a + b, n)[i] == r[i]
    {
      if i >= |a| {
        assert r[i] == Take(b, n - |a|)[i - |a|];
      }
    }
  }

  lemma DropAppend(a: seq<byte>, b: seq<byte>)
    ensures Drop(a + b, |a|) == b
  {
  }

  lemma Assoc<T>(a: seq<T>, b: seq<T>, c: seq<T>)
    ensures a + b + c == a + (b + c)
  {
  }

  lemma DropDrop(q: seq<byte>, a: nat, b: nat)
    ensures Drop(Drop(q, a), b) == Drop(q, a + b)
  {
  }

  /** Sequences that agree at every index are equal. */
  lemma Pointwise(a: seq<byte>, b: seq<byte>)
    requires |a| == |b| && forall i :: 0 <= i < |a| ==> a[i] == b[i]
    ensures a == b
  {
  }
}
