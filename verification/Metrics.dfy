/** Timing statistics (metrics.c): sample rings, their average, 95th percentile and maximum, and the two
    component averages that are made to add up to the whole. */
module Metrics {
  import opened Words
  import opened Cyclic

  const RING: nat := 100                          // METRICS_LATENCY_RING_SIZE

  // ---------------------------------------------------------------- sorting

  /** `x` put into an ascending sequence, behind the elements equal to it. */
  function Insert(q: seq<u32>, x: u32): (r: seq<u32>)
    ensures |r| == |q| + 1
    decreases |q|
  {
    if q == [] || q[|q| - 1] <= x then q + [x]
    else Insert(q[..|q| - 1], x) + [q[|q| - 1]]
  }

  function Sorted(q: seq<u32>): (r: seq<u32>)
    ensures |r| == |q|
    decreases |q|
  {
    if q == [] then [] else Insert(Sorted(q[..|q| - 1]), q[|q| - 1])
  }

  predicate Ascending(q: seq<u32>) {
    forall i, j :: 0 <= i < j < |q| ==> q[i] <= q[j]
  }

  /** No element of the result exceeds the larger of `x` and the last one. */
  lemma {:induction false} InsertBound(q: seq<u32>, x: u32, top: u32)
    requires Ascending(q) && x <= top && (q != [] ==> q[|q| - 1] <= top)
    ensures forall i :: 0 <= i <= |q| ==> Insert(q, x)[i] <= top
    decreases |q|
  {
    if q != [] && q[|q| - 1] > x {
      InsertBound(q[..|q| - 1], x, top);
    }
  }

  lemma {:induction false} InsertAscends(q: seq<u32>, x: u32)
    requires Ascending(q)
    ensures Ascending(Insert(q, x))
    decreases |q|
  {
    if q != [] && q[|q| - 1] > x {
      InsertAscends(q[..|q| - 1], x);
      InsertBound(q[..|q| - 1], x, q[|q| - 1]);
    }
  }

  lemma {:induction false} InsertAdds(q: seq<u32>, x: u32)
    ensures multiset(Insert(q, x)) == multiset(q) + multiset{x}
    decreases |q|
  {
    if q != [] && q[|q| - 1] > x {
      InsertAdds(q[..|q| - 1], x);
      assert q == q[..|q| - 1] + [q[|q| - 1]];
    }
  }

  /** Sorting gives an ascending permutation. */
  lemma {:induction false} SortedAscends(q: seq<u32>)
    ensures Ascending(Sorted(q)) && multiset(Sorted(q)) == multiset(q)
    decreases |q|
  {
    if q != [] {
      SortedAscends(q[..|q| - 1]);
      InsertAscends(Sorted(q[..|q| - 1]), q[|q| - 1]);
      InsertAdds(Sorted(q[..|q| - 1]), q[|q| - 1]);
      assert q == q[..|q| - 1] + [q[|q| - 1]];
    }
  }

  /** An ascending front with a gap after its first j + 1 elements, and what follows it. */
  function Gap(q: seq<u32>, j: int, hole: u32, rest: seq<u32>): (r: seq<u32>)
    requires -1 <= j < |q|
    ensures |r| == |q| + 1 + |rest|
  {
    q[..j + 1] + [hole] + q[j + 1..] + rest
  }

  lemma GapMoves(q: seq<u32>, j: nat, hole: u32, rest: seq<u32>, key: u32)
    requires j < |q|
    ensures Gap(q, j, hole, rest)[j] == q[j] && Gap(q, j, hole, rest)[j + 1 := q[j]] == Gap(q, j - 1, q[j], rest)
    ensures q[j] > key ==> Insert(q[..j + 1], key) + q[j + 1..] == Insert(q[..j], key) + q[j..]
  {
    assert q[..j + 1][..j] == q[..j] && [q[j]] + q[j + 1..] == q[j..];
  }

  /** The gap filled with an element that is not below those in front of it. */
  lemma GapFilled(front: seq<u32>, hole: u32, back: seq<u32>, rest: seq<u32>, key: u32)
    requires front == [] || front[|front| - 1] <= key
    ensures (front + [hole] + back + rest)[|front| := key] == Insert(front, key) + back + rest
  {
    Fill(front, hole, back, rest, key);
    InsertAtEnd(front, key);
  }

  lemma InsertAtEnd(front: seq<u32>, key: u32)
    requires front == [] || front[|front| - 1] <= key
    ensures Insert(front, key) == front + [key]
  {
  }

  lemma Fill(front: seq<u32>, hole: u32, back: seq<u32>, rest: seq<u32>, key: u32)
    ensures (front + [hole] + back + rest)[|front| := key] == front + [key] + back + rest
  {
    var n := |front|;
    assert (front + [hole])[n := key] == front + [key];
    UpdateFront(front + [hole], back, n, key);
    UpdateFront(front + [hole] + back, rest, n, key);
  }

  lemma UpdateFront(x: seq<u32>, y: seq<u32>, i: nat, key: u32)
    requires i < |x|
    ensures (x + y)[i := key] == x[i := key] + y
  {
  }

  /** One turn of the outer loop of sort_u32: the ascending front `q` takes in the element behind it. */
  method InsertOne(a: array<u32>, i: nat, ghost q: seq<u32>, ghost rest: seq<u32>)
    requires 0 < i < a.Length && |q| == i && rest != [] && a[..] == q + rest
    modifies a
    ensures a[..] == Insert(q, rest[0]) + rest[1..]
  {
    var key := a[i];
    var j := i - 1;
    ghost var hole := key;
    assert Gap(q, j, hole, rest[1..]) == q + rest;
    assert q[..j + 1] == q && q[j + 1..] == [];
    while j >= 0 && a[j] > key
      invariant -1 <= j < i && a[..] == Gap(q, j, hole, rest[1..])
      invariant Insert(q, key) == Insert(q[..j + 1], key) + q[j + 1..]
    {
      GapMoves(q, j, hole, rest[1..], key);
      hole := q[j];
      Store(a, j + 1, a[j]);
      j := j - 1;
    }
    ghost var front := q[..j + 1];
    if j >= 0 {
      GapMoves(q, j, hole, rest[1..], key);
      assert front[j] == q[j];
    }
    GapFilled(front, hole, q[j + 1..], rest[1..], key);
    Store(a, j + 1, key);
  }

  method Store(a: array<u32>, i: nat, x: u32)
    requires i < a.Length
    modifies a
    ensures a[..] == old(a[..])[i := x]
  {
    a[i] := x;
  }

  /** sort_u32 */
  method SortInPlace(a: array<u32>, n: nat)
    requires n <= a.Length
    modifies a
    ensures a[..] == Sorted(old(a[..n])) + old(a[n..])
  {
    var i := 1;
    ghost var was := a[..];
    assert was[..n] == a[..n] && was[n..] == a[n..];
    if n == 0 {
      return;
    }
    assert was[..1][..0] == [];
    assert Sorted(was[..1]) + was[1..] == was;
    while i < n
      invariant 1 <= i <= n && a[..] == Sorted(was[..i]) + was[i..]
    {
      InsertOne(a, i, Sorted(was[..i]), was[i..]);
      assert was[..i + 1][..i] == was[..i];
      i := i + 1;
    }
  }

  // ---------------------------------------------------------------- statistics

  function Sum(q: seq<u32>): (s: nat)
    decreases |q|
  {
    if q == [] then 0 else Sum(q[..|q| - 1]) + q[|q| - 1]
  }

  /** How many samples are at most `v`. */
  function AtMost(q: seq<u32>, v: int): (n: nat)
    ensures n <= |q|
    decreases |q|
  {
    if q == [] then 0 else AtMost(q[..|q| - 1], v) + if q[|q| - 1] <= v then 1 else 0
  }

  lemma Last(q: seq<u32>, x: u32, v: int)
    ensures Sum(q + [x]) == Sum(q) + x && AtMost(q + [x], v) == AtMost(q, v) + if x <= v then 1 else 0
  {
    assert (q + [x])[..|q|] == q;
  }

  lemma {:induction false} InsertKeeps(q: seq<u32>, x: u32, v: int)
    ensures Sum(Insert(q, x)) == Sum(q) + x && AtMost(Insert(q, x), v) == AtMost(q, v) + if x <= v then 1 else 0
    decreases |q|
  {
    if q == [] || q[|q| - 1] <= x {
      Last(q, x, v);
    } else {
      InsertKeeps(q[..|q| - 1], x, v);
      Last(Insert(q[..|q| - 1], x), q[|q| - 1], v);
    }
  }

  /** Sorting changes neither the sum nor how many samples are at most a value. */
  lemma {:induction false} SortedKeeps(q: seq<u32>, v: int)
    ensures Sum(Sorted(q)) == Sum(q) && AtMost(Sorted(q), v) == AtMost(q, v)
    decreases |q|
  {
    if q != [] {
      SortedKeeps(q[..|q| - 1], v);
      InsertKeeps(Sorted(q[..|q| - 1]), q[|q| - 1], v);
    }
  }

  lemma {:induction false} AtMostAscending(q: seq<u32>, k: nat, v: int)
    requires Ascending(q) && k <= |q|
    ensures (k > 0 && q[k - 1] <= v) ==> AtMost(q, v) >= k
    ensures (k < |q| && q[k] > v) ==> AtMost(q, v) <= k
    decreases |q|
  {
    if q != [] {
      var p := q[..|q| - 1];
      if k < |q| {
        AtMostAscending(p, k, v);
      } else {
        AtMostAscending(p, k - 1, v);
      }
    }
  }

  lemma {:induction false} SumBounds(q: seq<u32>, top: u32)
    requires forall i :: 0 <= i < |q| ==> q[i] <= top
    ensures Sum(q) <= top * |q|
    decreases |q|
  {
    if q != [] {
      SumBounds(q[..|q| - 1], top);
    }
  }

  datatype Stats = Stats(avg: u32, p95: u32, max: u32)

  /** The index of the 95th percentile among n samples, as the code computes it. */
  function P95Index(n: nat): (i: nat)
    requires 0 < n <= RING
    ensures i < n && 100 * (i + 1) >= 95 * n && 100 * i < 95 * n
  {
    (n * 95 + 99) / 100 - 1
  }

  ghost predicate IsMax(q: seq<u32>, m: u32) {
    m in q && forall x :: x in q ==> x <= m
  }

  /** The smallest sample that at least 95% of the samples do not exceed. */
  ghost predicate IsP95(q: seq<u32>, p: u32) {
    && p in q && 100 * AtMost(q, p) >= 95 * |q|
    && forall v :: 0 <= v < p ==> 100 * AtMost(q, v) < 95 * |q|
  }

  ghost predicate Describes(s: Stats, q: seq<u32>) {
    if q == [] then s == Stats(0, 0, 0)
    else s.avg == Sum(q) / |q| && IsP95(q, s.p95) && IsMax(q, s.max)
  }

  /** `s` has the samples of `q` in ascending order. */
  ghost predicate Orders(s: seq<u32>, q: seq<u32>) {
    && |s| == |q| && Ascending(s) && Sum(s) == Sum(q)
    && (forall x :: x in s <==> x in q)
    && (forall v: int :: AtMost(s, v) == AtMost(q, v))
  }

  lemma SortedOrders(q: seq<u32>)
    ensures Orders(Sorted(q), q)
  {
    SortedAscends(q);
    SortedKeeps(q, 0);
    forall v: int ensures AtMost(Sorted(q), v) == AtMost(q, v) {
      SortedKeeps(q, v);
    }
    forall x: u32 ensures x in Sorted(q) <==> x in q {
      assert x in multiset(Sorted(q)) <==> x in multiset(q);
    }
  }

  lemma Percentile(q: seq<u32>, s: seq<u32>)
    requires 0 < |q| <= RING && Orders(s, q)
    ensures IsP95(q, s[P95Index(|q|)])
  {
    var i := P95Index(|q|);
    AtMostAscending(s, i + 1, s[i]);
    forall v | 0 <= v < s[i] ensures 100 * AtMost(q, v) < 95 * |q| {
      AtMostAscending(s, i, v);
      assert AtMost(s, v) == AtMost(q, v);
    }
  }

  lemma Largest(q: seq<u32>, s: seq<u32>)
    requires q != [] && Orders(s, q)
    ensures IsMax(q, s[|q| - 1])
  {
    forall x | x in q ensures x <= s[|q| - 1] {
      assert x in s;
    }
  }

  lemma Average(q: seq<u32>) returns (a: u32)
    requires q != []
    ensures a == Sum(q) / |q|
  {
    SumBounds(q, 0xFFFF_FFFF);
    Quotient(Sum(q), |q|, 0xFFFF_FFFF);
    a := Sum(q) / |q|;
  }

  lemma Quotient(a: nat, n: nat, c: nat)
    requires n > 0 && a <= c * n
    ensures a / n <= c
  {
  }

  lemma {:induction false} Append(x: seq<u32>, y: seq<u32>, v: int)
    ensures Sum(x + y) == Sum(x) + Sum(y) && AtMost(x + y, v) == AtMost(x, v) + AtMost(y, v)
    decreases |y|
  {
    if y == [] {
      assert x + y == x;
    } else {
      assert (x + y)[..|x + y| - 1] == x + y[..|y| - 1];
      Append(x, y[..|y| - 1], v);
    }
  }

  lemma RotatedCounts(x: seq<u32>, y: seq<u32>, v: int)
    ensures Sum(y + x) == Sum(x + y) && AtMost(y + x, v) == AtMost(x + y, v)
  {
    Append(x, y, v);
    Append(y, x, v);
  }

  lemma RotatedP95(x: seq<u32>, y: seq<u32>, p: u32)
    requires IsP95(x + y, p)
    ensures IsP95(y + x, p)
  {
    RotatedCounts(x, y, p);
    forall v | 0 <= v < p ensures 100 * AtMost(y + x, v) < 95 * |y + x| {
      RotatedCounts(x, y, v);
    }
  }

  lemma RotatedMax(x: seq<u32>, y: seq<u32>, m: u32)
    requires IsMax(x + y, m)
    ensures IsMax(y + x, m)
  {
    forall z | z in y + x ensures z <= m {
      assert z in x + y;
    }
  }

  /** Statistics do not depend on where a ring starts. */
  lemma Rotated(s: Stats, x: seq<u32>, y: seq<u32>)
    requires Describes(s, x + y)
    ensures Describes(s, y + x)
  {
    if x + y != [] {
      RotatedCounts(x, y, 0);
      RotatedP95(x, y, s.p95);
      RotatedMax(x, y, s.max);
    }
  }

  /** What compute_stats picks from the sorted samples. */
  lemma Picked(q: seq<u32>, s: seq<u32>) returns (r: Stats)
    requires 0 < |q| <= RING && Orders(s, q)
    ensures r.avg == Sum(s) / |q| && r.p95 == s[P95Index(|q|)] && r.max == s[|q| - 1]
    ensures Describes(r, q)
  {
    var a := Average(q);
    Percentile(q, s);
    Largest(q, s);
    r := Stats(a, s[P95Index(|q|)], s[|q| - 1]);
    AllThree(r, q);
  }

  lemma AllThree(r: Stats, q: seq<u32>)
    requires q != [] && r.avg == Sum(q) / |q| && IsP95(q, r.p95) && IsMax(q, r.max)
    ensures Describes(r, q)
  {
  }

  method AddUp(a: array<u32>, n: nat) returns (sum: nat)
    requires n <= a.Length
    ensures sum == Sum(a[..n])
  {
    sum := 0;
    for i := 0 to n
      invariant sum == Sum(a[..i])
    {
      assert a[..i + 1][..i] == a[..i];
      sum := sum + a[i];
    }
  }

  /** compute_stats on the samples in slot order. */
  method ComputeStats(samples: array<u32>, count: nat) returns (s: Stats)
    requires samples.Length == RING && count <= RING
    ensures Describes(s, samples[..count])
  {
    if count == 0 {
      return Stats(0, 0, 0);
    }
    ghost var q := samples[..count];
    var scratch := new u32[RING](_ => 0);
    CopyFront(samples, scratch, count);
    SortInPlace(scratch, count);
    assert scratch[..count] == Sorted(q);
    var sum := AddUp(scratch, count);
    var p95 := (count * 95 + 99) / 100;
    if p95 > 0 {
      p95 := p95 - 1;
    }
    if p95 >= count {
      p95 := count - 1;
    }
    SortedOrders(q);
    ghost var picked := Picked(q, Sorted(q));
    assert p95 == P95Index(count);
    assert picked.avg == sum / count;
    s := Stats(sum / count, scratch[p95], scratch[count - 1]);
  }

  /** memcpy of the valid samples */
  method CopyFront(from: array<u32>, to: array<u32>, n: nat)
    requires from != to && n <= from.Length && n <= to.Length
    modifies to
    ensures to[..n] == from[..n]
  {
    for i := 0 to n
      invariant to[..i] == from[..i]
    {
      to[i] := from[i];
    }
  }

  // ---------------------------------------------------------------- rings of samples

  /** The samples a ring that has been given `all` holds. */
  function Recent(all: seq<u32>): (q: seq<u32>)
    ensures |q| == if |all| < RING then |all| else RING
  {
    if |all| <= RING then all else all[|all| - RING..]
  }

  class LatencyRing {
    const samples: array<u32>
    var head: nat
    var count: nat
    /** All samples since the ring was last reset. */
    ghost var all: seq<u32>

    ghost predicate Detail()
      reads this, samples
    {
      && samples.Length == RING && head < RING && count == |Recent(all)|
      && Recent(all) == (if count < RING then samples[..count] else Window(samples[..], head, RING))
      && (count < RING ==> head == count)
    }

    /** Callers see the samples given; the slots are looked at only through Open and Close. */
    ghost predicate Sealed(n: nat)
      reads this, samples
      decreases n, this
    {
      if n > 0 then Sealed(n - 1) else Detail()
    }

    ghost predicate Valid()
      reads this, samples
    {
      Sealed(3)
    }

    lemma Open()
      requires Valid()
      ensures Detail()
    {
      assert Sealed(2);
      assert Sealed(1);
      assert Sealed(0);
    }

    lemma Close()
      requires Detail()
      ensures Valid()
    {
      assert Sealed(0);
      assert Sealed(1);
      assert Sealed(2);
    }

    constructor ()
      ensures Valid() && all == [] && fresh(samples)
    {
      samples := new u32[RING](_ => 0);
      head, count, all := 0, 0, [];
      new;
      Close();
    }

    /** ring_add: the ring holds the last 100 samples. */
    method Add(x: u32)
      requires Valid()
      modifies this, samples
      ensures Valid() && all == old(all) + [x]
    {
      Open();
      ghost var was, q := samples[..], Recent(all);
      RecentMore(all, x);
      if count == RING {
        Pop(was, head, RING);
        Push(was, Succ(head, RING), RING - 1, head, x);
      }
      samples[head] := x;
      assert samples[..] == was[head := x];
      all := all + [x];
      head := Succ(head, RING);
      if count < RING {
        count := count + 1;
        if count == RING {
          assert Window(samples[..], 0, RING) == samples[..];
        }
      }
      Close();
    }

    /** ring_reset */
    method Reset()
      requires Valid()
      modifies this
      ensures Valid() && all == []
    {
      Open();
      head, count, all := 0, 0, [];
      Close();
    }

    /** compute_stats of a ring: the statistics of the last 100 samples. */
    method Compute() returns (s: Stats)
      requires Valid()
      ensures Describes(s, Recent(all))
    {
      Open();
      s := ComputeStats(samples, count);
      var k := SlotOrder();
      assert samples[..count] == samples[..k] + samples[k..count];
      Rotated(s, samples[..k], samples[k..count]);
    }

    /** What the ring holds, in slot order, is what it was last given, rotated. */
    lemma SlotOrder() returns (k: nat)
      requires Detail()
      ensures k <= count <= samples.Length && Recent(all) == samples[k..count] + samples[..k]
    {
      k := if count < RING then 0 else head;
    }
  }

  lemma RecentMore(all: seq<u32>, x: u32)
    ensures Recent(all + [x]) == if |all| < RING then Recent(all) + [x] else Recent(all)[1..] + [x]
  {
  }

  // ---------------------------------------------------------------- the exported averages

  /** Sample by sample, `total` is `before` plus `publish`. */
  ghost predicate AddsUp(total: seq<u32>, before: seq<u32>, publish: seq<u32>) {
    && |total| == |before| == |publish|
    && forall i :: 0 <= i < |total| ==> (total[i] as int) == (before[i] as int) + (publish[i] as int)
  }

  lemma {:induction false} SumsAddUp(total: seq<u32>, before: seq<u32>, publish: seq<u32>)
    requires AddsUp(total, before, publish)
    ensures Sum(total) == Sum(before) + Sum(publish)
    decreases |total|
  {
    if total != [] {
      var n := |total| - 1;
      SumsAddUp(total[..n], before[..n], publish[..n]);
    }
  }

  lemma RecentAddsUp(total: seq<u32>, before: seq<u32>, publish: seq<u32>)
    requires AddsUp(total, before, publish)
    ensures AddsUp(Recent(total), Recent(before), Recent(publish))
  {
  }

  /** The floors of two averages fall short of the floor of their sum by at most one. */
  lemma Floors(b: nat, p: nat, n: nat)
    requires n > 0
    ensures b / n + p / n <= (b + p) / n <= b / n + p / n + 1 && b / n <= (b + p) / n
  {
    var x, y := b / n, p / n;
    assert b == x * n + b % n && p == y * n + p % n;
    Multiples(x, y, n, b % n + p % n);
  }

  lemma Multiples(x: nat, y: nat, n: nat, r: nat)
    requires n > 0 && r < 2 * n
    ensures x + y <= (x * n + y * n + r) / n <= x + y + 1
  {
    assert x * n + y * n == (x + y) * n;
    if r < n {
      Division(x + y, n, r);
    } else {
      assert (x + y) * n + r == (x + y + 1) * n + (r - n);
      Division(x + y + 1, n, r - n);
    }
  }

  lemma Division(q: nat, n: nat, r: nat)
    requires r < n
    ensures (q * n + r) / n == q
  {
    var d := (q * n + r) / n;
    assert q * n + r == d * n + (q * n + r) % n;
    Strictly(d, q, n);
    Strictly(q, d, n);
  }

  lemma Strictly(x: nat, y: nat, n: nat)
    ensures x < y ==> x * n + n <= y * n
  {
    if x < y {
      var k := y - x - 1;
      assert y * n == (x + 1 + k) * n == x * n + n + k * n;
    }
  }

  /** `before` is the floor average of its samples and `publish` that of its own, or one more. */
  ghost predicate Components(before: u32, publish: u32, befores: seq<u32>, publishes: seq<u32>) {
    publishes != [] ==>
      var p := Recent(publishes);
      before == Sum(Recent(befores)) / |p| && Sum(p) / |p| <= publish <= Sum(p) / |p| + 1
  }

  /** The publish average made to fit the other two, where the code allows for their not adding up. */
  method Remainder(whole: Stats, first: Stats, own: u32, ghost total: seq<u32>, ghost before: seq<u32>,
                   ghost publish: seq<u32>)
    returns (rest: u32)
    requires AddsUp(total, before, publish) && Describes(whole, Recent(total)) && Describes(first, Recent(before))
    ensures first.avg + rest == whole.avg && Components(first.avg, rest, before, publish)
  {
    rest := own;
    Exported(whole, first, total, before, publish);
    if whole.avg >= first.avg {
      rest := whole.avg - first.avg;
    }
  }

  /** What a snapshot exports about the path from reading a record to publishing it. */
  datatype PathTiming = PathTiming(total: Stats, before: u32, publish: u32, rolling: Stats)

  class PathTimings {
    const total: LatencyRing        // s_window_read_to_pub
    const before: LatencyRing       // s_window_telemetry_before_pub
    const publish: LatencyRing      // s_window_telemetry_pub
    const rolling: LatencyRing      // s_ring_read_to_pub

    ghost predicate Valid()
      reads this, total, before, publish, rolling, total.samples, before.samples, publish.samples, rolling.samples
    {
      && total.Valid() && before.Valid() && publish.Valid() && rolling.Valid()
      && total != before && total != publish && total != rolling
      && before != publish && before != rolling && publish != rolling
      && total.samples != before.samples && total.samples != publish.samples && total.samples != rolling.samples
      && before.samples != publish.samples && before.samples != rolling.samples && publish.samples != rolling.samples
      && AddsUp(total.all, before.all, publish.all)
    }

    constructor ()
      ensures Valid() && total.all == [] && rolling.all == []
    {
      total := new LatencyRing();
      before := new LatencyRing();
      publish := new LatencyRing();
      rolling := new LatencyRing();
    }

    /** metrics_record_telemetry_path_us, as buffer_flush_records calls it: with a latency, the part
        of it before the publish, and the rest. */
    method Record(latency: u32, beforePublish: u32)
      requires Valid() && beforePublish <= latency
      modifies total, before, publish, rolling, total.samples, before.samples, publish.samples, rolling.samples
      ensures Valid() && total.all == old(total.all) + [latency] && rolling.all == old(rolling.all) + [latency]
      ensures before.all == old(before.all) + [beforePublish]
    {
      total.Add(latency);
      rolling.Add(latency);
      before.Add(beforePublish);
      publish.Add(latency - beforePublish);
    }

    method PublishAverage() returns (own: u32)
      requires Valid()
    {
      var r := publish.Compute();
      own := r.avg;
    }

    method Parts(whole: Stats, own: u32) returns (first: u32, rest: u32)
      requires Valid() && Describes(whole, Recent(total.all))
      ensures first + rest == whole.avg && Components(first, rest, before.all, publish.all)
    {
      var f := before.Compute();
      first := f.avg;
      rest := Remainder(whole, f, own, total.all, before.all, publish.all);
    }

    /** The three window averages, the last of them replaced by the difference of the first two. */
    method Averages() returns (whole: Stats, first: u32, rest: u32)
      requires Valid()
      ensures Describes(whole, Recent(total.all)) && first + rest == whole.avg
      ensures Components(first, rest, before.all, publish.all)
    {
      whole := total.Compute();
      var own := PublishAverage();
      first, rest := Parts(whole, own);
    }

    /** The timing part of metrics_snapshot_and_reset.  The exported component averages add up to
        the whole exactly, and the publish component is its own floor average or one more. */
    method Snapshot() returns (t: PathTiming)
      requires Valid()
      modifies total, before, publish
      ensures Valid() && total.all == [] && rolling.all == old(rolling.all)
      ensures Describes(t.total, Recent(old(total.all))) && Describes(t.rolling, Recent(old(rolling.all)))
      ensures t.before + t.publish == t.total.avg
      ensures Components(t.before, t.publish, old(before.all), old(publish.all))
    {
      var whole, first, rest := Averages();
      var around := rolling.Compute();
      t := PathTiming(whole, first, rest, around);
      ResetWindows();
    }

    method ResetWindows()
      requires Valid()
      modifies total, before, publish
      ensures Valid() && total.all == [] && rolling.all == old(rolling.all)
    {
      total.Reset();
      before.Reset();
      publish.Reset();
    }
  }

  /** The difference the code exports is never negative, and is the publish component's floor
      average or one more. */
  lemma Exported(whole: Stats, first: Stats, total: seq<u32>, before: seq<u32>, publish: seq<u32>)
    requires AddsUp(total, before, publish) && Describes(whole, Recent(total)) && Describes(first, Recent(before))
    ensures whole.avg >= first.avg && (total == [] ==> whole.avg == 0)
    ensures Components(first.avg, whole.avg - first.avg, before, publish)
  {
    if total != [] {
      var n := Additive(total, before, publish);
      AverageIs(whole, Recent(total), n);
      AverageIs(first, Recent(before), n);
    } else {
      assert Recent(total) == [] && Recent(before) == [];
    }
  }

  lemma AverageIs(s: Stats, q: seq<u32>, n: nat)
    requires Describes(s, q) && n == |q| > 0
    ensures s.avg == Sum(q) / n
  {
  }

  lemma Additive(total: seq<u32>, before: seq<u32>, publish: seq<u32>) returns (n: nat)
    requires AddsUp(total, before, publish) && total != []
    ensures n == |Recent(total)| == |Recent(before)| == |Recent(publish)| > 0
    ensures Sum(Recent(before)) / n <= Sum(Recent(total)) / n
    ensures var parts := Sum(Recent(before)) / n + Sum(Recent(publish)) / n;
            parts <= Sum(Recent(total)) / n <= parts + 1
  {
    n := |Recent(total)|;
    RecentAddsUp(total, before, publish);
    SumsAddUp(Recent(total), Recent(before), Recent(publish));
    Floors(Sum(Recent(before)), Sum(Recent(publish)), n);
  }
}
