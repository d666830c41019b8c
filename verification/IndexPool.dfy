/** The control plane's pool of indices: a circular queue of the free ones, with a flag per index. */
module IndexPool {
  import opened Common

  // ---------------------------------------------------------------- the queue it stands for

  /** The free indices below `max`, first out first; all other indices below `max` are allocated. */
  datatype Queue = Queue(free: seq<nat>, max: nat) {
    ghost predicate Valid() {
      && (forall i :: 0 <= i < |free| ==> free[i] < max)
      && (forall i, j :: 0 <= i < j < |free| ==> free[i] != free[j])
    }

    ghost predicate Allocated(x: nat) {
      x < max && x !in free
    }

    ghost function Full(): (q: Queue) {
      Queue(seq(max, i => i), max)
    }

    ghost function AfterAlloc(): (q: Queue) {
      if free == [] then this else Queue(free[1..], max)
    }

    ghost function AfterRelease(x: nat): (q: Queue) {
      if Allocated(x) then Queue(free + [x], max) else this
    }
  }

  /** Exactly the allocated indices are missing from the queue, so it is empty iff all are allocated. */
  lemma {:induction false} DistinctBounded(s: seq<nat>, max: nat)
    requires forall i :: 0 <= i < |s| ==> s[i] < max
    requires forall i, j :: 0 <= i < j < |s| ==> s[i] != s[j]
    ensures |s| <= max
    ensures |s| == max ==> forall x :: 0 <= x < max ==> x in s
    decreases max
  {
    if s != [] {
      assert s[0] < max;
      if max - 1 in s {
        var k :| 0 <= k < |s| && s[k] == max - 1;
        DistinctBounded(s[..k] + s[k + 1..], max - 1);
        assert forall x :: x in s[..k] + s[k + 1..] ==> x in s;
      } else {
        DistinctBounded(s, max - 1);
      }
    }
  }

  // ---------------------------------------------------------------- rings

  /** The `n` elements of the circular buffer `a` from `head` on. */
  function Ring(a: seq<nat>, head: nat, n: nat): (r: seq<nat>)
    requires n <= |a| && (|a| == 0 || head < |a|)
    ensures |r| == n
    ensures forall i :: 0 <= i < n ==> r[i] == a[if head + i < |a| then head + i else head + i - |a|]
  {
    if n == 0 then [] else if head + n <= |a| then a[head..head + n] else a[head..] + a[..head + n - |a|]
  }

  lemma Wrap(k: nat, m: nat)
    requires k < 2 * m
    ensures k % m == if k < m then k else k - m
  {
    if k >= m {
      assert k == 1 * m + (k - m);
      assert k / m == 1;
    }
  }

  lemma RingPop(a: seq<nat>, head: nat, n: nat)
    requires 0 < n <= |a| && head < |a|
    ensures Ring(a, head, n)[0] == a[head]
    ensures Ring(a, (head + 1) % |a|, n - 1) == Ring(a, head, n)[1..]
  {
    Wrap(head + 1, |a|);
  }

  lemma RingPush(a: seq<nat>, head: nat, n: nat, x: nat)
    requires n < |a| && head < |a|
    ensures var tail := (head + n) % |a|;
      Ring(a[tail := x], head, n + 1) == Ring(a, head, n) + [x]
  {
    var tail := (head + n) % |a|;
    Wrap(head + n, |a|);
    hide Ring;
    var r := Ring(a[tail := x], head, n + 1);
    forall i | 0 <= i <= n ensures r[i] == (Ring(a, head, n) + [x])[i] {
    }
  }

  // ---------------------------------------------------------------- the pool

  /** The flags mark exactly the allocated indices. */
  ghost predicate Flags(q: Queue, taken: seq<bool>) {
    && |taken| == q.max
    && forall x :: 0 <= x < q.max ==> (taken[x] <==> x !in q.free)
  }

  lemma AllocKeeps(q: Queue, taken: seq<bool>)
    requires q.Valid() && Flags(q, taken) && q.free != []
    ensures q.free[0] < |taken| && q.AfterAlloc().Valid() && Flags(q.AfterAlloc(), taken[q.free[0] := true])
  {
    var x, rest := q.free[0], q.free[1..];
    assert x !in rest;
    forall y | 0 <= y < q.max ensures taken[x := true][y] <==> y !in rest {
      assert y in q.free <==> y == x || y in rest;
    }
  }

  lemma ReleaseKeeps(q: Queue, taken: seq<bool>, x: nat)
    requires q.Valid() && Flags(q, taken) && q.Allocated(x)
    ensures q.AfterRelease(x).Valid() && Flags(q.AfterRelease(x), taken[x := false])
    ensures |q.free| < q.max
  {
    DistinctBounded(q.free, q.max);
  }

  /** Allocation fails iff every index is allocated. */
  lemma EmptyIffAllAllocated(q: Queue)
    requires q.Valid()
    ensures q.free == [] <==> forall x :: 0 <= x < q.max ==> q.Allocated(x)
  {
    if q.free != [] {
      assert !q.Allocated(q.free[0]);
    }
  }

  class Pool {
    const maxSize: nat
    const indexes: array<nat>
    const taken: array<bool>
    var head: nat
    var length: nat

    ghost predicate Valid()
      reads this, indexes, taken
    {
      && indexes.Length == maxSize && taken.Length == maxSize
      && length <= maxSize
      && (maxSize == 0 || head < maxSize)
      && Free().Valid()
      && Flags(Free(), taken[..])
    }

    ghost function Free(): (q: Queue)
      requires indexes.Length == maxSize && length <= maxSize && (maxSize == 0 || head < maxSize)
      reads this, indexes
      ensures q.max == maxSize
    {
      Queue(Ring(indexes[..], head, length), maxSize)
    }

    constructor (max: nat)
      ensures Valid() && maxSize == max && Free() == Queue([], max).Full()
      ensures fresh(indexes) && fresh(taken)
    {
      maxSize := max;
      indexes := new nat[max];
      taken := new bool[max];
      head, length := 0, 0;
      new;
      Rewind();
    }

    method Rewind()
      requires indexes.Length == maxSize && taken.Length == maxSize
      modifies this, indexes, taken
      ensures Valid() && Free() == Queue([], maxSize).Full()
    {
      head, length := 0, maxSize;
      for i := 0 to maxSize
        invariant forall k :: 0 <= k < i ==> indexes[k] == k && !taken[k]
        invariant head == 0 && length == maxSize
      {
        indexes[i] := i;
        taken[i] := false;
      }
      assert indexes[..] == seq(maxSize, i => i);
      assert forall x :: 0 <= x < maxSize ==> Free().free[x] == x;
    }

    /** Takes the index freed longest ago; fails iff every index is allocated. */
    method Alloc() returns (index: Option<nat>)
      requires Valid()
      modifies this, taken
      ensures Valid() && Free() == old(Free()).AfterAlloc()
      ensures index == if old(Free()).free == [] then None else Some(old(Free()).free[0])
    {
      hide Ring, Queue.Valid;
      if length == 0 {
        return None;
      }
      RingPop(indexes[..], head, length);
      AllocKeeps(Free(), taken[..]);
      var x := indexes[head];
      taken[x] := true;
      head, length := (head + 1) % maxSize, length - 1;
      index := Some(x);
    }

    /** Returns an index to the queue; an index out of range or already free is left alone. */
    method Release(index: nat)
      requires Valid()
      modifies this, indexes, taken
      ensures Valid() && Free() == old(Free()).AfterRelease(index)
    {
      hide Ring, Queue.Valid;
      if index >= maxSize || !taken[index] {
        return;
      }
      ReleaseKeeps(Free(), taken[..], index);
      RingPush(indexes[..], head, length, index);
      var tail := (head + length) % maxSize;
      indexes[tail] := index;
      taken[index] := false;
      length := length + 1;
    }
  }

  // ---------------------------------------------------------------- whole runs

  datatype PoolOp = Alloc | Release(index: nat) | Rewind

  /** The queue after a run of operations on a fresh pool. */
  ghost function After(max: nat, ops: seq<PoolOp>): (q: Queue)
    ensures q.max == max
  {
    if ops == [] then Queue([], max).Full()
    else
      var q := After(max, ops[..|ops| - 1]);
      match ops[|ops| - 1]
      case Alloc => q.AfterAlloc()
      case Release(x) => q.AfterRelease(x)
      case Rewind => q.Full()
  }

  lemma {:induction false} AfterValid(max: nat, ops: seq<PoolOp>)
    ensures After(max, ops).Valid()
  {
    if ops != [] {
      AfterValid(max, ops[..|ops| - 1]);
    }
  }

  /** What operation `i` of the run hands out. */
  ghost function Handed(max: nat, ops: seq<PoolOp>, i: nat): Option<nat>
    requires i < |ops|
  {
    var q := After(max, ops[..i]);
    if ops[i] == Alloc && q.free != [] then Some(q.free[0]) else None
  }

  lemma {:induction false} StaysAllocated(max: nat, ops: seq<PoolOp>, i: nat, j: nat, x: nat)
    requires i < j <= |ops| && Handed(max, ops, i) == Some(x)
    requires forall k :: i < k < j ==> ops[k] != Release(x) && ops[k] != Rewind
    ensures After(max, ops[..j]).Allocated(x)
    decreases j
  {
    assert ops[..j][..j - 1] == ops[..j - 1];
    AfterValid(max, ops[..j - 1]);
    if i + 1 < j {
      StaysAllocated(max, ops, i, j - 1, x);
    }
  }

  /** No index is handed out twice without being released, or the pool rewound, in between. */
  lemma NoDoubleHandout(max: nat, ops: seq<PoolOp>, i: nat, j: nat, x: nat)
    requires i < j < |ops| && Handed(max, ops, i) == Handed(max, ops, j) == Some(x)
    ensures exists k :: i < k < j && (ops[k] == Release(x) || ops[k] == Rewind)
  {
    if forall k :: i < k < j ==> ops[k] != Release(x) && ops[k] != Rewind {
      StaysAllocated(max, ops, i, j, x);
    }
  }

  /** The pool hands out exactly what the queue does. */
  method Replay(max: nat, ops: seq<PoolOp>) returns (handed: seq<Option<nat>>)
    ensures |handed| == |ops|
    ensures forall i :: 0 <= i < |ops| ==> handed[i] == Handed(max, ops, i)
  {
    hide Ring, Flags, Queue.Valid;
    var pool := new Pool(max);
    handed := [];
    for k := 0 to |ops|
      invariant pool.Valid() && fresh(pool) && fresh(pool.indexes) && fresh(pool.taken)
      invariant pool.Free() == After(max, ops[..k]) && |handed| == k
      invariant forall i :: 0 <= i < k ==> handed[i] == Handed(max, ops, i)
    {
      assert ops[..k + 1][..k] == ops[..k];
      var out := None;
      match ops[k] {
        case Alloc => out := pool.Alloc();
        case Release(x) => pool.Release(x);
        case Rewind => pool.Rewind();
      }
      handed := handed + [out];
    }
  }
}
