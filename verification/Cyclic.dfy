/** Ring buffers over a fixed store: `count` elements from index `tail` on, wrapping at the end. */
module Cyclic {
  /** C's (i + 1u) % n on an index. */
  function Succ(i: nat, n: nat): (r: nat)
    requires i < n
    ensures r < n
  {
    if i + 1 == n then 0 else i + 1
  }

  /** Where the i-th element from `tail` is. */
  function At(tail: nat, i: nat, n: nat): (r: nat)
    requires tail < n && i <= n
    ensures r < n
  {
    if tail + i < n then tail + i else tail + i - n
  }

  function Window<T>(store: seq<T>, tail: nat, count: nat): (q: seq<T>)
    requires count <= |store| && (tail < |store| || |store| == 0)
    ensures |q| == count
  {
    seq(count, i requires 0 <= i < count => store[At(tail, i, |store|)])
  }

  /** Writing at the head appends. */
  lemma Push<T>(store: seq<T>, tail: nat, count: nat, head: nat, x: T)
    requires count < |store| && tail < |store| && head == At(tail, count, |store|)
    ensures Window(store[head := x], tail, count + 1) == Window(store, tail, count) + [x]
    ensures Succ(head, |store|) == At(tail, count + 1, |store|)
  {
  }

  /** Advancing the tail drops the oldest element. */
  lemma Pop<T>(store: seq<T>, tail: nat, count: nat)
    requires 0 < count <= |store| && tail < |store|
    ensures Window(store, Succ(tail, |store|), count - 1) == Window(store, tail, count)[1..]
    ensures At(Succ(tail, |store|), count - 1, |store|) == At(tail, count, |store|)
  {
  }

  /** A slot outside the window does not matter. */
  lemma Outside<T>(store: seq<T>, tail: nat, count: nat, head: nat, x: T)
    requires count < |store| && tail < |store| && head == At(tail, count, |store|)
    ensures Window(store[head := x], tail, count) == Window(store, tail, count)
  {
  }

  /** Writing inside the window replaces one element. */
  lemma Set<T>(store: seq<T>, tail: nat, count: nat, k: nat, x: T)
    requires k < count <= |store| && tail < |store|
    ensures Window(store[At(tail, k, |store|) := x], tail, count) == Window(store, tail, count)[k := x]
  {
  }
}
