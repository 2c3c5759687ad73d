/** The in-flight tracker and the recent-response cache (cmd_handler.c): two rings of fixed size,
    one of which deletes from its middle by shifting. */
module CmdHandler {
  import opened Words
  import opened Cyclic

  const QUEUE_DEPTH: nat := 4
  const CACHE_DEPTH: nat := 4
  const INFLIGHT_DEPTH: nat := 9                  // 2 * QUEUE_DEPTH + 1

  /** A correlation id; the parser refuses one that would not fit its 16 bytes, so copies are exact. */
  type Id = string

  datatype Response = Response(id: Id, status: byte)

  // ---------------------------------------------------------------- what the rings mean

  /** The element deleted is the newest that matches. */
  function WithoutNewest(q: seq<Id>, id: Id): (r: seq<Id>)
    ensures |r| <= |q|
    decreases |q|
  {
    if q == [] then []
    else if q[|q| - 1] == id then q[..|q| - 1]
    else WithoutNewest(q[..|q| - 1], id) + [q[|q| - 1]]
  }

  lemma {:induction false} WithoutNewestAt(q: seq<Id>, k: nat, id: Id)
    requires k < |q| && q[k] == id && forall i :: k < i < |q| ==> q[i] != id
    ensures WithoutNewest(q, id) == q[..k] + q[k + 1..]
    decreases |q|
  {
    var p := q[..|q| - 1];
    if k < |q| - 1 {
      WithoutNewestAt(p, k, id);
      assert q[..k] + q[k + 1..] == (p[..k] + p[k + 1..]) + [q[|q| - 1]];
    } else {
      assert q[k + 1..] == [];
    }
  }

  lemma {:induction false} WithoutNone(q: seq<Id>, id: Id)
    requires id !in q
    ensures WithoutNewest(q, id) == q
    decreases |q|
  {
    if q != [] {
      WithoutNone(q[..|q| - 1], id);
    }
  }

  /** Deleting takes exactly one occurrence out. */
  lemma {:induction false} WithoutNewestCounts(q: seq<Id>, id: Id)
    ensures multiset(WithoutNewest(q, id)) == multiset(q) - multiset{id}
    decreases |q|
  {
    if q == [] {
    } else {
      var p := q[..|q| - 1];
      assert q == p + [q[|q| - 1]];
      WithoutNewestCounts(p, id);
    }
  }

  /** The last CACHE_DEPTH responses. */
  function Remembered(q: seq<Response>, r: Response): (s: seq<Response>)
    ensures |q| <= CACHE_DEPTH ==> |s| <= CACHE_DEPTH
  {
    if |q| < CACHE_DEPTH then q + [r] else q[1..] + [r]
  }

  /** Where the i-th newest element of a ring is, as the code computes it. */
  function Back(head: nat, i: nat, depth: nat): nat
    requires head < depth && i < depth
  {
    (head + depth - 1 - i) % depth
  }

  lemma BackIsAt(head: nat, tail: nat, count: nat, i: nat, depth: nat)
    requires tail < depth && i < count <= depth && head == At(tail, count, depth)
    ensures Back(head, i, depth) == At(tail, count - 1 - i, depth)
  {
    var r := At(tail, count - 1 - i, depth);
    OneTurn(r, depth);
    assert head + depth - 1 - i == r || head + depth - 1 - i == r + depth;
  }

  lemma OneTurn(r: nat, depth: nat)
    requires r < depth
    ensures r % depth == r && (r + depth) % depth == r
  {
  }

  // ---------------------------------------------------------------- the rings

  /** `q` while its `i` newest elements are being shifted down over the one before them: `j` are
      still to go. */
  function Shifted(q: seq<Id>, i: nat, j: nat): (r: seq<Id>)
    requires j <= i < |q|
    ensures |r| == |q|
  {
    q[..|q| - 1 - i] + q[|q| - i..|q| - j] + q[|q| - 1 - j..]
  }

  lemma NoneShifted(q: seq<Id>, i: nat)
    requires i < |q|
    ensures Shifted(q, i, i) == q
  {
  }

  lemma AllShifted(q: seq<Id>, i: nat)
    requires i < |q|
    ensures Shifted(q, i, 0) == q[..|q| - 1 - i] + q[|q| - i..] + [q[|q| - 1]]
  {
  }

  lemma ShiftedStep(q: seq<Id>, i: nat, j: nat)
    requires 0 < j <= i < |q|
    ensures var w := Shifted(q, i, j); Shifted(q, i, j - 1) == w[|q| - 1 - j := w[|q| - j]]
  {
  }

  /** One turn of the compaction loop. */
  lemma ShiftOne(store: seq<Id>, head: nat, tail: nat, n: nat, q: seq<Id>, i: nat, j: nat)
    requires |store| == INFLIGHT_DEPTH && tail < INFLIGHT_DEPTH && head < INFLIGHT_DEPTH && n <= INFLIGHT_DEPTH
    requires head == At(tail, n, INFLIGHT_DEPTH)
    requires |q| == n && 0 < j <= i < n && Window(store, tail, n) == Shifted(q, i, j)
    ensures Back(head, j, INFLIGHT_DEPTH) < INFLIGHT_DEPTH && Back(head, j - 1, INFLIGHT_DEPTH) < INFLIGHT_DEPTH
    ensures Window(store[Back(head, j, INFLIGHT_DEPTH) := store[Back(head, j - 1, INFLIGHT_DEPTH)]], tail, n)
            == Shifted(q, i, j - 1)
  {
    BackIsAt(head, tail, n, j, INFLIGHT_DEPTH);
    BackIsAt(head, tail, n, j - 1, INFLIGHT_DEPTH);
    var src := At(tail, n - j, INFLIGHT_DEPTH);
    assert store[src] == Window(store, tail, n)[n - j];
    Set(store, tail, n, n - 1 - j, store[src]);
    ShiftedStep(q, i, j);
  }

  class InflightTracker {
    const slots: array<Id>          // s_inflight
    var head: nat
    var count: nat
    ghost var items: seq<Id>        // the ids tracked, oldest first

    function Tail(): (t: nat)
      requires head < INFLIGHT_DEPTH && count <= INFLIGHT_DEPTH
      reads this
      ensures t < INFLIGHT_DEPTH && head == At(t, count, INFLIGHT_DEPTH)
    {
      if count == INFLIGHT_DEPTH then head else if head >= count then head - count else head + INFLIGHT_DEPTH - count
    }

    ghost predicate Detail()
      reads this, slots
    {
      && slots.Length == INFLIGHT_DEPTH && head < INFLIGHT_DEPTH && count <= INFLIGHT_DEPTH
      && items == Window(slots[..], Tail(), count) && "" !in items
    }

    /** Callers see the ids; the slots are looked at only through Open and Close. */
    ghost predicate Sealed(n: nat)
      reads this, slots
      decreases n, this
    {
      if n > 0 then Sealed(n - 1) else Detail()
    }

    ghost predicate Valid()
      reads this, slots
    {
      Sealed(3) && |items| <= INFLIGHT_DEPTH && "" !in items
    }

    lemma Open()
      requires Valid()
      ensures Detail()
    {
      assert Sealed(2);
      assert Sealed(1);
      assert Sealed(0);
    }

    lemma Close()
      requires Detail()
      ensures Valid()
    {
      assert Sealed(0);
      assert Sealed(1);
      assert Sealed(2);
    }

    constructor ()
      ensures Valid() && items == [] && fresh(slots)
    {
      slots := new Id[INFLIGHT_DEPTH](_ => "");
      head, count, items := 0, 0, [];
      new;
      Close();
    }

    /** The search from the newest entry on, in cmd_inflight_check and cmd_inflight_remove. */
    method Find(id: Id) returns (i: nat, found: bool)
      requires Detail()
      ensures i <= count && found == (i < count)
      ensures found ==> items[count - 1 - i] == id
      ensures forall k :: count - i <= k < count ==> items[k] != id
    {
      i := 0;
      while i < count
        invariant i <= count
        invariant forall k :: count - i <= k < count ==> items[k] != id
      {
        BackIsAt(head, Tail(), count, i, INFLIGHT_DEPTH);
        assert slots[Back(head, i, INFLIGHT_DEPTH)] == items[count - 1 - i];
        if slots[Back(head, i, INFLIGHT_DEPTH)] == id {
          return i, true;
        }
        i := i + 1;
      }
      return i, false;
    }

    /** cmd_inflight_check */
    method Check(id: Id) returns (found: bool)
      requires Valid()
      ensures found == (id in items)
    {
      if id == "" {
        return false;
      }
      Open();
      var i;
      i, found := Find(id);
    }

    /** cmd_inflight_add */
    method Add(id: Id) returns (ok: bool)
      requires Valid()
      modifies this, slots
      ensures Valid() && ok == (id != "" && |old(items)| < INFLIGHT_DEPTH)
      ensures items == if ok then old(items) + [id] else old(items)
    {
      if id == "" {
        return false;
      }
      Open();
      if count >= INFLIGHT_DEPTH {
        return false;
      }
      Push(slots[..], Tail(), count, head, id);
      slots[head] := id;
      assert slots[..] == old(slots[..])[head := id];
      head := Succ(head, INFLIGHT_DEPTH);
      count := count + 1;
      items := items + [id];
      Close();
      return true;
    }

    method CopySlot(dst: nat, src: nat)
      requires dst < slots.Length && src < slots.Length
      modifies slots
      ensures slots[..] == old(slots[..])[dst := old(slots[src])]
    {
      slots[dst] := slots[src];
    }

    /** The compaction loop: the i newest entries each move one slot towards the tail. */
    method ShiftDown(i: nat)
      requires slots.Length == INFLIGHT_DEPTH && head < INFLIGHT_DEPTH && i < count <= INFLIGHT_DEPTH
      requires |items| == count && items == Window(slots[..], Tail(), count)
      modifies slots
      ensures Window(slots[..], Tail(), count) == Shifted(items, i, 0)
    {
      var j: nat := i;
      ghost var q, tail := items, Tail();
      NoneShifted(q, i);
      while j > 0
        invariant j <= i && Window(slots[..], tail, count) == Shifted(q, i, j)
      {
        ShiftSlot(q, i, j);
        j := j - 1;
      }
    }

    /** One turn of it. */
    method ShiftSlot(ghost q: seq<Id>, ghost i: nat, j: nat)
      requires slots.Length == INFLIGHT_DEPTH && head < INFLIGHT_DEPTH && count <= INFLIGHT_DEPTH
      requires |q| == count && 0 < j <= i < count && Window(slots[..], Tail(), count) == Shifted(q, i, j)
      modifies slots
      ensures Window(slots[..], Tail(), count) == Shifted(q, i, j - 1)
    {
      ShiftOne(slots[..], head, Tail(), count, q, i, j);
      var dst := Back(head, j, INFLIGHT_DEPTH);
      var src := Back(head, j - 1, INFLIGHT_DEPTH);
      CopySlot(dst, src);
    }

    /** cmd_inflight_remove */
    method Remove(id: Id)
      requires Valid()
      modifies this, slots
      ensures Valid() && items == WithoutNewest(old(items), id)
    {
      if id == "" {
        WithoutNone(items, id);
        return;
      }
      Open();
      var i, found := Find(id);
      if found {
        WithoutNewestAt(items, count - 1 - i, id);
        ShiftDown(i);
        Unpush(i);
        Close();
      } else {
        WithoutNone(items, id);
      }
    }

    /** Retracting the head over the slot the compaction has freed. */
    method Unpush(i: nat)
      requires slots.Length == INFLIGHT_DEPTH && head < INFLIGHT_DEPTH && i < count <= INFLIGHT_DEPTH
      requires |items| == count && "" !in items
      requires Window(slots[..], Tail(), count) == Shifted(items, i, 0)
      modifies this, slots
      ensures Detail() && items == old(items)[..|old(items)| - 1 - i] + old(items)[|old(items)| - i..]
    {
      ghost var w := Window(slots[..], Tail(), count);
      ghost var tail := Tail();
      AllShifted(items, i);
      BackIsAt(head, tail, count, 0, INFLIGHT_DEPTH);
      head := Back(head, 0, INFLIGHT_DEPTH);
      slots[head] := "";
      items := items[..count - 1 - i] + items[count - i..];
      count := count - 1;
      assert Tail() == tail;
      assert w[..count] == items;
    }
  }

  class ResponseCache {
    const slots: array<Response>    // s_cache
    var head: nat
    var count: nat
    ghost var recent: seq<Response> // the responses remembered, oldest first

    function Tail(): (t: nat)
      requires head < CACHE_DEPTH && count <= CACHE_DEPTH
      reads this
      ensures t < CACHE_DEPTH && head == At(t, count, CACHE_DEPTH)
    {
      if count == CACHE_DEPTH then head else if head >= count then head - count else head + CACHE_DEPTH - count
    }

    ghost predicate Detail()
      reads this, slots
    {
      && slots.Length == CACHE_DEPTH && head < CACHE_DEPTH && count <= CACHE_DEPTH
      && recent == Window(slots[..], Tail(), count)
    }

    /** Callers see the responses; the slots are looked at only through Open and Close. */
    ghost predicate Sealed(n: nat)
      reads this, slots
      decreases n, this
    {
      if n > 0 then Sealed(n - 1) else Detail()
    }

    ghost predicate Valid()
      reads this, slots
    {
      Sealed(3) && |recent| <= CACHE_DEPTH
    }

    lemma Open()
      requires Valid()
      ensures Detail()
    {
      assert Sealed(2);
      assert Sealed(1);
      assert Sealed(0);
    }

    lemma Close()
      requires Detail()
      ensures Valid()
    {
      assert Sealed(0);
      assert Sealed(1);
      assert Sealed(2);
    }

    constructor ()
      ensures Valid() && recent == [] && fresh(slots)
    {
      slots := new Response[CACHE_DEPTH](_ => Response("", 0));
      head, count, recent := 0, 0, [];
      new;
      Close();
    }

    /** cmd_cache_lookup: the newest response to this id. */
    method Lookup(id: Id) returns (out: Response, found: bool)
      requires Valid()
      ensures found <==> id != "" && exists k :: 0 <= k < |recent| && recent[k].id == id
      ensures found ==>
                exists k :: 0 <= k < |recent| && recent[k] == out && out.id == id
                            && forall m :: k < m < |recent| ==> recent[m].id != id
    {
      out := Response("", 0);
      if id == "" {
        return out, false;
      }
      Open();
      for i := 0 to count
        invariant forall k :: count - i <= k < count ==> recent[k].id != id
      {
        BackIsAt(head, Tail(), count, i, CACHE_DEPTH);
        assert slots[Back(head, i, CACHE_DEPTH)] == recent[count - 1 - i];
        if slots[Back(head, i, CACHE_DEPTH)].id == id {
          return slots[Back(head, i, CACHE_DEPTH)], true;
        }
      }
      return out, false;
    }

    /** cmd_cache_put */
    method Put(r: Response)
      requires Valid()
      modifies this, slots
      ensures Valid() && recent == Remembered(old(recent), r)
    {
      Open();
      if count < CACHE_DEPTH {
        Push(slots[..], Tail(), count, head, r);
      } else {
        Pop(slots[..], head, count);
        Push(slots[..], Succ(head, CACHE_DEPTH), count - 1, head, r);
      }
      recent := Remembered(recent, r);
      slots[head] := r;
      assert slots[..] == old(slots[..])[head := r];
      head := Succ(head, CACHE_DEPTH);
      if count < CACHE_DEPTH {
        count := count + 1;
      }
      Close();
    }
  }
}
