/** The run queue: tasks in a min-heap on virtual runtime, with back pointers into the heap. */
module RunQueue {
  import opened RunHeap

  const MAX_TASKS := 1024

  datatype TaskState = RUNNING | RUNNABLE | SLEEPING | ZOMBIE

  /** `task_t`, without what the scheduler never reads back. */
  datatype Task = Task(tid: nat, state: TaskState, vruntime: nat, weight: nat, rsp: nat,
                       heapIdx: int, nextAll: nat, prevAll: nat, totalRuntime: nat, switches: nat)

  type Tcbs = map<nat, Task>

  function KeysOf(tcb: Tcbs): Keys {
    map t | t in tcb :: tcb[t].vruntime
  }

  /** Each queued task knows its position. */
  ghost predicate Indexed(q: seq<nat>, tcb: Tcbs) {
    forall i :: 0 <= i < |q| ==> q[i] in tcb && tcb[q[i]].heapIdx == i
  }

  ghost predicate Queue(q: seq<nat>, tcb: Tcbs) {
    |q| <= MAX_TASKS && Indexed(q, tcb) && Keyed(q, KeysOf(tcb)) && MinHeap(q, KeysOf(tcb))
  }

  /** The step changed heap positions of tasks in `s` and nothing else. */
  ghost predicate OnlyIndices(tcb: Tcbs, tcb': Tcbs, s: multiset<nat>) {
    && (forall t :: t in tcb' <==> t in tcb)
    && (forall t :: t in tcb ==> tcb'[t] == tcb[t].(heapIdx := tcb'[t].heapIdx))
    && (forall t :: t in tcb && t !in s ==> tcb'[t] == tcb[t])
  }

  lemma OnlyIndicesKeys(tcb: Tcbs, tcb': Tcbs, s: multiset<nat>)
    requires OnlyIndices(tcb, tcb', s)
    ensures KeysOf(tcb') == KeysOf(tcb)
  {
  }

  lemma OnlyIndicesTwice(t0: Tcbs, t1: Tcbs, t2: Tcbs, s: multiset<nat>)
    requires OnlyIndices(t0, t1, s) && OnlyIndices(t1, t2, s)
    ensures OnlyIndices(t0, t2, s)
  {
  }

  lemma IndexedDistinct(q: seq<nat>, tcb: Tcbs)
    requires Indexed(q, tcb)
    ensures forall i, j :: 0 <= i < j < |q| ==> q[i] != q[j]
    ensures forall t :: multiset(q)[t] <= 1
  {
    forall i, j | 0 <= i < j < |q|
      ensures q[i] != q[j]
    {
      assert tcb[q[i]].heapIdx == i && tcb[q[j]].heapIdx == j;
    }
    DistinctOnce(q);
  }

  lemma {:induction false} DistinctOnce(q: seq<nat>)
    requires forall i, j :: 0 <= i < j < |q| ==> q[i] != q[j]
    ensures forall t :: multiset(q)[t] <= 1
  {
    if |q| > 0 {
      var n := |q| - 1;
      DistinctOnce(q[..n]);
      assert q == q[..n] + [q[n]];
      assert q[n] !in q[..n];
    }
  }

  class RunQ {
    const data: array<nat>
    var size: nat
    var tcb: Tcbs                        // task control blocks by address

    ghost predicate Sized() {
      data.Length == MAX_TASKS
    }

    function Q(): seq<nat>
      requires size <= data.Length
      reads this, data
    {
      data[..size]
    }

    ghost predicate Valid()
      reads this, data
    {
      Sized() && size <= MAX_TASKS && Queue(Q(), tcb)
    }

    constructor ()
      ensures Valid() && size == 0 && tcb == map[] && fresh(data)
    {
      data := new nat[MAX_TASKS](_ => 0);
      size, tcb := 0, map[];
      new;
      assert Q() == [];
    }

    /** `heap_swap`. */
    method HeapSwap(a: nat, b: nat)
      requires Sized() && size <= MAX_TASKS && a < size && b < size && a != b
      requires Indexed(Q(), tcb)
      modifies data, this`tcb
      ensures Q() == Swap(old(Q()), a, b) && Indexed(Q(), tcb)
      ensures OnlyIndices(old(tcb), tcb, multiset(old(Q())))
    {
      var tmp := data[a];
      data[a] := data[b];
      data[b] := tmp;
      ghost var q := old(Q());
      assert Q() == Swap(q, a, b);
      assert q[a] in q && q[b] in q && q[a] != q[b] by {
        IndexedDistinct(q, tcb);
      }
      tcb := tcb[data[a] := tcb[data[a]].(heapIdx := a)];
      tcb := tcb[data[b] := tcb[data[b]].(heapIdx := b)];
      IndexedDistinct(q, old(tcb));
      SwapIndexed(q, old(tcb), tcb, a, b);
    }

    /** `heap_up`: the element at `i` moves up to where it belongs. */
    method HeapUp(i: nat)
      requires Sized() && i < size <= MAX_TASKS && Indexed(Q(), tcb)
      requires Keyed(Q(), KeysOf(tcb)) && Hole(Q(), KeysOf(tcb), i)
      modifies data, this`tcb
      ensures Indexed(Q(), tcb) && KeysOf(tcb) == old(KeysOf(tcb)) && Keyed(Q(), KeysOf(tcb))
      ensures DownHole(Q(), KeysOf(tcb), i) && multiset(Q()) == multiset(old(Q()))
      ensures OnlyIndices(old(tcb), tcb, multiset(old(Q())))
    {
      hide Indexed, Keyed, KeysOf, Hole, UpHole, DownHole, UpOk, MinHeap, OnlyIndices, Swap, Parent;
      var c: nat := i;
      OnlyIndicesSame(tcb, multiset(Q()));
      while c > 0
        invariant c <= i && Indexed(Q(), tcb) && KeysOf(tcb) == old(KeysOf(tcb)) && Keyed(Q(), KeysOf(tcb))
        invariant if c == i then Hole(Q(), KeysOf(tcb), i) else UpHole(Q(), KeysOf(tcb), c)
        invariant multiset(Q()) == multiset(old(Q()))
        invariant OnlyIndices(old(tcb), tcb, multiset(old(Q())))
      {
        var parent := Parent(c);
        InTcb(Q(), tcb, parent);
        InTcb(Q(), tcb, c);
        if tcb[data[parent]].vruntime <= tcb[data[c]].vruntime {
          UpOkFrom(Q(), KeysOf(tcb), c);
          break;
        }
        HoleStep(Q(), KeysOf(tcb), c);
        ghost var (q1, tcb1) := (Q(), tcb);
        HeapSwap(parent, c);
        OnlyIndicesKeys(tcb1, tcb, multiset(q1));
        OnlyIndicesTwice(old(tcb), tcb1, tcb, multiset(old(Q())));
        c := parent;
      }
      UpDone(Q(), KeysOf(tcb), c, i);
    }

    /** `heap_down`: the element at `i` moves down to where it belongs. */
    method HeapDown(i: nat)
      requires Sized() && i < size <= MAX_TASKS && Indexed(Q(), tcb)
      requires Keyed(Q(), KeysOf(tcb)) && DownHole(Q(), KeysOf(tcb), i)
      modifies data, this`tcb
      ensures Valid() && KeysOf(tcb) == old(KeysOf(tcb))
      ensures multiset(Q()) == multiset(old(Q()))
      ensures OnlyIndices(old(tcb), tcb, multiset(old(Q())))
    {
      hide Indexed, Keyed, KeysOf, DownHole, MinHeap, OnlyIndices, Swap, IsSmallest;
      var c: nat := i;
      OnlyIndicesSame(tcb, multiset(Q()));
      while true
        invariant c < size && Indexed(Q(), tcb) && KeysOf(tcb) == old(KeysOf(tcb)) && Keyed(Q(), KeysOf(tcb))
        invariant DownHole(Q(), KeysOf(tcb), c)
        invariant multiset(Q()) == multiset(old(Q()))
        invariant OnlyIndices(old(tcb), tcb, multiset(old(Q())))
        decreases size - c
      {
        var smallest := Smallest(c);
        if smallest == c {
          DownStop(Q(), KeysOf(tcb), c);
          break;
        }
        SmallestIsBelow(Q(), KeysOf(tcb), c, smallest);
        DownStep(Q(), KeysOf(tcb), c, smallest);
        ghost var (q1, tcb1) := (Q(), tcb);
        HeapSwap(c, smallest);
        OnlyIndicesKeys(tcb1, tcb, multiset(q1));
        OnlyIndicesTwice(old(tcb), tcb1, tcb, multiset(old(Q())));
        c := smallest;
      }
    }

    /** The comparisons of `heap_down`. */
    method Smallest(i: nat) returns (smallest: nat)
      requires Sized() && i < size <= MAX_TASKS && Indexed(Q(), tcb) && Keyed(Q(), KeysOf(tcb))
      ensures IsSmallest(Q(), KeysOf(tcb), i, smallest)
    {
      var l, r := 2 * i + 1, 2 * i + 2;
      smallest := i;
      if l < size && tcb[Q()[l]].vruntime < tcb[Q()[smallest]].vruntime {
        smallest := l;
      }
      if r < size && tcb[Q()[r]].vruntime < tcb[Q()[smallest]].vruntime {
        smallest := r;
      }
      assert forall j :: 0 < j < size && Parent(j) == i ==> j == l || j == r;
    }

    /** `rq_push`: a task joins the queue, unless the queue is full. */
    method RqPush(t: nat)
      requires Valid() && t in tcb && t !in Q()
      modifies data, this`size, this`tcb
      ensures Valid() && KeysOf(tcb) == old(KeysOf(tcb))
      ensures old(size) == MAX_TASKS ==> Q() == old(Q()) && tcb == old(tcb)
      ensures old(size) < MAX_TASKS ==> multiset(Q()) == multiset(old(Q())) + multiset{t}
      ensures OnlyIndices(old(tcb), tcb, multiset(Q()))
    {
      hide Keyed, KeysOf, DownHole, Hole, MinHeap, OnlyIndices, Indexed;
      if size >= MAX_TASKS {
        OnlyIndicesSame(tcb, multiset(Q()));
        return;
      }
      ghost var q := Q();
      Append(t);
      PushStart(q, old(tcb), tcb, t);
      ghost var tcb1 := tcb;
      HeapUp(size - 1);
      LastHole(Q(), KeysOf(tcb));
      OnlyIndicesTwice(old(tcb), tcb1, tcb, multiset(q + [t]));
    }

    /** The stores of `rq_push`. */
    method Append(t: nat)
      requires Sized() && size < MAX_TASKS && t in tcb
      modifies data, this`size, this`tcb
      ensures size == old(size) + 1 && Q() == old(Q()) + [t]
      ensures tcb == old(tcb)[t := old(tcb)[t].(heapIdx := old(size))]
    {
      var i := size;
      size := size + 1;
      data[i] := t;
      tcb := tcb[t := tcb[t].(heapIdx := i)];
    }

    /** `rq_pop`: a task of least virtual runtime leaves the queue; 0 when it is empty. */
    method RqPop() returns (top: nat)
      requires Valid() && 0 !in Q()
      modifies data, this`size, this`tcb
      ensures Valid() && KeysOf(tcb) == old(KeysOf(tcb))
      ensures old(size) == 0 ==> top == 0 && Q() == old(Q()) && tcb == old(tcb)
      ensures old(size) > 0 ==> top == old(Q())[0] && top in tcb && tcb[top].heapIdx == -1
      ensures old(size) > 0 ==> forall t :: t in old(Q()) ==> t in tcb && tcb[top].vruntime <= tcb[t].vruntime
      ensures old(size) > 0 ==> multiset(Q()) == multiset(old(Q())) - multiset{top} && top !in Q()
      ensures OnlyIndices(old(tcb), tcb, multiset(old(Q())))
    {
      hide Queue, KeysOf, OnlyIndices;
      OnlyIndicesSame(tcb, multiset(Q()));
      if size == 0 {
        return 0;
      }
      ghost var (q, tcb0) := (Q(), tcb);
      LeastFirst(q, tcb);
      top := data[0];
      RemoveTop();
      LeastStays(q, tcb0, tcb, multiset(q));
    }

    /** The stores of `rq_pop`. */
    method RemoveTop()
      requires Valid() && size > 0
      modifies data, this`size, this`tcb
      ensures Valid() && KeysOf(tcb) == old(KeysOf(tcb))
      ensures multiset(Q()) == multiset(old(Q())) - multiset{old(Q())[0]} && old(Q())[0] !in Q()
      ensures old(Q())[0] in tcb && tcb[old(Q())[0]].heapIdx == -1
      ensures OnlyIndices(old(tcb), tcb, multiset(old(Q())))
    {
      hide Keyed, KeysOf, DownHole, Hole, MinHeap, OnlyIndices, Indexed, Shrunk, Removed;
      ghost var (q, tcb0) := (Q(), tcb);
      InTcb(q, tcb, 0);
      IndexAt(q, tcb, 0);
      var top := data[0];
      RemovedIs(q, tcb0, top, 0);
      ShrunkIs(q, 0);
      MoveLast(top, 0);
      ghost var tcb2 := tcb;
      OnlyIndicesSame(tcb, multiset(Q()));
      if size > 0 {
        RootHole(Q(), KeysOf(tcb));
        HeapDown(0);
      }
      RemovedEnd(q, tcb0, tcb2, tcb, top, 0);
      OnlyIndicesWider(tcb0, tcb, multiset(q) + multiset{top}, multiset(q));
      NotAmong(Q(), multiset(Shrunk(q, 0)), top);
    }

    /** The queue without the element at `i`: the last one takes its place. */
    method MoveLast(t: nat, i: nat)
      requires Sized() && 0 < size <= MAX_TASKS && i < size && t in tcb && data[size - 1] in tcb
      modifies data, this`size, this`tcb
      ensures size == old(size) - 1
      ensures Q() == Shrunk(old(Q()), i) && tcb == Removed(old(Q()), old(tcb), t, i)
    {
      hide Shrunk, Removed;
      ghost var (q, tcb0) := (Q(), tcb);
      ShrunkIs(q, i);
      RemovedTcb(q, tcb0, t, i);
      tcb := tcb[t := tcb[t].(heapIdx := -1)];
      size := size - 1;
      if i < size {
        CopyLast(i);
        tcb := tcb[data[i] := tcb[data[i]].(heapIdx := i)];
      } else {
        CutLastIs(q, i);
      }
    }

    /** The store into the place of the element that leaves. */
    method CopyLast(i: nat)
      requires Sized() && i < size < MAX_TASKS
      modifies data
      ensures Q() == Shrunk(old(data[..size + 1]), i) && data[i] == old(data[size])
    {
      hide Shrunk;
      ShrunkIs(data[..size + 1], i);
      data[i] := data[size];
    }

    /** The two calls with which `rq_remove` repairs the heap order around `i`. */
    method Repair(i: nat)
      requires Sized() && i < size <= MAX_TASKS && Indexed(Q(), tcb)
      requires Keyed(Q(), KeysOf(tcb)) && Hole(Q(), KeysOf(tcb), i)
      modifies data, this`tcb
      ensures Valid() && KeysOf(tcb) == old(KeysOf(tcb))
      ensures multiset(Q()) == multiset(old(Q()))
      ensures OnlyIndices(old(tcb), tcb, multiset(old(Q())))
    {
      hide Keyed, KeysOf, DownHole, Hole, MinHeap, OnlyIndices, Indexed;
      HeapUp(i);
      ghost var tcb1 := tcb;
      HeapDown(i);
      OnlyIndicesTwice(old(tcb), tcb1, tcb, multiset(old(Q())));
    }

    /**
     * `rq_remove`: a queued task leaves the queue.  A task that is not queued is left alone
     * unless its position still lies in the queue; then the task at that position leaves.
     */
    method RqRemove(t: nat)
      requires Valid() && t in tcb
      modifies data, this`size, this`tcb
      ensures Valid() && KeysOf(tcb) == old(KeysOf(tcb))
      ensures t in old(Q()) ==> multiset(Q()) == multiset(old(Q())) - multiset{t} && t !in Q()
      ensures t in old(Q()) ==> t in tcb && tcb[t].heapIdx == -1
      ensures var i := old(tcb[t].heapIdx);
        if 0 <= i < old(size) then multiset(Q()) == multiset(old(Q())) - multiset{old(Q())[i]}
        else t !in old(Q()) && Q() == old(Q()) && tcb == old(tcb)
      ensures OnlyIndices(old(tcb), tcb, multiset(old(Q())) + multiset{t})
    {
      hide Queue, KeysOf, OnlyIndices;
      OnlyIndicesSame(tcb, multiset(Q()) + multiset{t});
      QueuedAt(Q(), tcb, t);
      if tcb[t].heapIdx < 0 || tcb[t].heapIdx >= size {
        return;
      }
      RemoveAt(t);
    }

    /** The stores of `rq_remove`. */
    method RemoveAt(t: nat)
      requires Valid() && t in tcb && 0 <= tcb[t].heapIdx < size
      modifies data, this`size, this`tcb
      ensures Valid() && KeysOf(tcb) == old(KeysOf(tcb))
      ensures multiset(Q()) == multiset(old(Q())) - multiset{old(Q())[old(tcb[t].heapIdx)]}
      ensures t !in Q() && t in tcb && tcb[t].heapIdx == -1
      ensures OnlyIndices(old(tcb), tcb, multiset(old(Q())) + multiset{t})
    {
      hide Keyed, KeysOf, DownHole, Hole, MinHeap, OnlyIndices, Shrunk, Indexed, Removed;
      var i: nat := tcb[t].heapIdx;
      ghost var (q, tcb0) := (Q(), tcb);
      InTcb(q, tcb, size - 1);
      RemovedIs(q, tcb0, t, i);
      ShrunkIs(q, i);
      MoveLast(t, i);
      ghost var tcb2 := tcb;
      OnlyIndicesSame(tcb, multiset(Q()));
      if i < size {
        Repair(i);
      }
      RemovedEnd(q, tcb0, tcb2, tcb, t, i);
      NotAmong(Q(), multiset(Shrunk(q, i)), t);
    }
  }

  /** The task control blocks when `t` has left and the last task has taken position `i`. */
  function Removed(q: seq<nat>, tcb: Tcbs, t: nat, i: nat): Tcbs
    requires t in tcb && i < |q| && q[|q| - 1] in tcb
  {
    var n := |q| - 1;
    var tcb1 := tcb[t := tcb[t].(heapIdx := -1)];
    if i < n then tcb1[q[n] := tcb1[q[n]].(heapIdx := i)] else tcb1
  }

  lemma RemovedTcb(q: seq<nat>, tcb: Tcbs, t: nat, i: nat)
    requires t in tcb && i < |q| && q[|q| - 1] in tcb
    ensures var tcb1 := tcb[t := tcb[t].(heapIdx := -1)];
      && q[|q| - 1] in tcb1
      && Removed(q, tcb, t, i) ==
         if i < |q| - 1 then tcb1[q[|q| - 1] := tcb1[q[|q| - 1]].(heapIdx := i)] else tcb1
  {
  }

  lemma CutLastIs(q: seq<nat>, i: nat)
    requires i < |q| && i == |q| - 1
    ensures Shrunk(q, i) == q[..i]
  {
  }

  lemma RemovedIs(q: seq<nat>, tcb: Tcbs, t: nat, i: nat)
    requires Queue(q, tcb) && t in tcb && tcb[t].heapIdx == i < |q|
    ensures q[|q| - 1] in tcb && (t in q <==> t == q[i])
    ensures var (q', tcb') := (Shrunk(q, i), Removed(q, tcb, t, i));
      && Indexed(q', tcb') && KeysOf(tcb') == KeysOf(tcb) && Keyed(q', KeysOf(tcb'))
      && t !in q'
      && (if i < |q| - 1 then Hole(q', KeysOf(tcb'), i) else Queue(q', tcb'))
  {
    hide Hole, MinHeap, UpOk, Shrunk, Keyed;
    RemoveStart(q, tcb, i);
    ShrunkIs(q, i);
    IndexedDistinct(q, tcb);
    assert tcb[q[i]].heapIdx == i;
    var (q', tcb') := (Shrunk(q, i), Removed(q, tcb, t, i));
    assert KeysOf(tcb') == KeysOf(tcb);
    forall k | 0 <= k < |q'|
      ensures q'[k] in tcb' && tcb'[q'[k]].heapIdx == k
    {
    }
  }

  lemma RemovedEnd(q: seq<nat>, tcb0: Tcbs, tcb1: Tcbs, tcb2: Tcbs, t: nat, i: nat)
    requires t in tcb0 && i < |q| && q[|q| - 1] in tcb0 && tcb1 == Removed(q, tcb0, t, i)
    requires OnlyIndices(tcb1, tcb2, multiset(Shrunk(q, i))) && t !in Shrunk(q, i)
    ensures OnlyIndices(tcb0, tcb2, multiset(q) + multiset{t}) && t in tcb2 && tcb2[t].heapIdx == -1
  {
    hide OnlyIndices, Shrunk;
    var u := multiset(q) + multiset{t};
    RemovedOnly(q, tcb0, t, i);
    ShrunkIs(q, i);
    OnlyIndicesWider(tcb1, tcb2, multiset(Shrunk(q, i)), u);
    OnlyIndicesTwice(tcb0, tcb1, tcb2, u);
    OnlyIndicesAt(tcb1, tcb2, Shrunk(q, i), t);
    RemovedAt(q, tcb0, t, i);
  }

  lemma RemovedOnly(q: seq<nat>, tcb: Tcbs, t: nat, i: nat)
    requires t in tcb && i < |q| && q[|q| - 1] in tcb
    ensures OnlyIndices(tcb, Removed(q, tcb, t, i), multiset(q) + multiset{t})
  {
    assert q[|q| - 1] in multiset(q);
  }

  lemma RemovedAt(q: seq<nat>, tcb: Tcbs, t: nat, i: nat)
    requires t in tcb && i < |q| && q[|q| - 1] in tcb && t !in Shrunk(q, i)
    ensures t in Removed(q, tcb, t, i) && Removed(q, tcb, t, i)[t].heapIdx == -1
  {
    if i < |q| - 1 {
      ShrunkIs(q, i);
      assert Shrunk(q, i)[i] == q[|q| - 1];
    }
  }

  lemma OnlyIndicesWider(tcb: Tcbs, tcb': Tcbs, s: multiset<nat>, u: multiset<nat>)
    requires OnlyIndices(tcb, tcb', s) && forall x :: x in s ==> x in u
    ensures OnlyIndices(tcb, tcb', u)
  {
  }

  lemma OnlyIndicesAt(tcb: Tcbs, tcb': Tcbs, q: seq<nat>, t: nat)
    requires OnlyIndices(tcb, tcb', multiset(q)) && t in tcb && t !in q
    ensures t in tcb' && tcb'[t] == tcb[t]
  {
    assert t !in multiset(q);
  }

  lemma OnlyIndicesSame(tcb: Tcbs, s: multiset<nat>)
    ensures OnlyIndices(tcb, tcb, s)
  {
  }

  lemma SwapIndexed(q: seq<nat>, tcb: Tcbs, tcb': Tcbs, a: nat, b: nat)
    requires Indexed(q, tcb) && a < |q| && b < |q| && a != b && q[a] != q[b]
    requires q[a] in tcb && q[b] in tcb
    requires tcb' == tcb[q[b] := tcb[q[b]].(heapIdx := a)][q[a] := tcb[q[a]].(heapIdx := b)]
    ensures Indexed(Swap(q, a, b), tcb') && OnlyIndices(tcb, tcb', multiset(q))
  {
    var q' := Swap(q, a, b);
    assert q[a] in multiset(q) && q[b] in multiset(q);
    forall i | 0 <= i < |q'|
      ensures q'[i] in tcb' && tcb'[q'[i]].heapIdx == i
    {
      assert tcb[q[i]].heapIdx == i;
    }
  }

  lemma InTcb(q: seq<nat>, tcb: Tcbs, i: nat)
    requires Indexed(q, tcb) && i < |q|
    ensures q[i] in tcb && q[i] in KeysOf(tcb) && KeysOf(tcb)[q[i]] == tcb[q[i]].vruntime
  {
  }

  lemma UpOkFrom(q: seq<nat>, key: Keys, c: nat)
    requires Keyed(q, key) && 0 < c < |q| && q[Parent(c)] in key && q[c] in key && key[q[Parent(c)]] <= key[q[c]]
    ensures UpOk(q, key, c)
  {
  }

  lemma HoleStep(q: seq<nat>, key: Keys, c: nat)
    requires Keyed(q, key) && 0 < c < |q| && (Hole(q, key, c) || UpHole(q, key, c))
    requires q[Parent(c)] in key && q[c] in key && key[q[Parent(c)]] > key[q[c]]
    ensures Keyed(Swap(q, Parent(c), c), key) && UpHole(Swap(q, Parent(c), c), key, Parent(c))
  {
    UpStep(q, key, c);
  }

  lemma UpDone(q: seq<nat>, key: Keys, c: nat, i: nat)
    requires Keyed(q, key) && c <= i < |q|
    requires if c == i then Hole(q, key, i) else UpHole(q, key, c)
    requires c == 0 || UpOk(q, key, c)
    ensures DownHole(q, key, i)
  {
    assert UpOk(q, key, c);
    if c == i {
      UpStop(q, key, i);
    } else {
      UpHoleStop(q, key, c);
      HeapHasNoHole(q, key, i);
    }
  }

  lemma SmallestIsBelow(q: seq<nat>, key: Keys, i: nat, s: nat)
    requires Keyed(q, key) && i < |q| && IsSmallest(q, key, i, s) && s != i
    ensures i < s < |q|
  {
  }

  lemma PushStart(q: seq<nat>, tcb: Tcbs, tcb': Tcbs, t: nat)
    requires Queue(q, tcb) && t in tcb && t !in q && tcb' == tcb[t := tcb[t].(heapIdx := |q|)]
    ensures Indexed(q + [t], tcb') && KeysOf(tcb') == KeysOf(tcb) && OnlyIndices(tcb, tcb', multiset(q + [t]))
    ensures Keyed(q + [t], KeysOf(tcb')) && Hole(q + [t], KeysOf(tcb'), |q|)
  {
    hide Hole, MinHeap;
    assert t in multiset(q + [t]);
    assert KeysOf(tcb') == KeysOf(tcb);
    AppendHole(q, KeysOf(tcb), t);
  }

  lemma LeastFirst(q: seq<nat>, tcb: Tcbs)
    requires Queue(q, tcb) && |q| > 0
    ensures q[0] in tcb && forall t :: t in q ==> t in tcb && tcb[q[0]].vruntime <= tcb[t].vruntime
  {
    hide MinHeap;
    forall j | 0 <= j < |q|
      ensures tcb[q[0]].vruntime <= tcb[q[j]].vruntime
    {
      RootIsLeast(q, KeysOf(tcb), j);
    }
  }

  lemma LeastStays(q: seq<nat>, tcb: Tcbs, tcb': Tcbs, s: multiset<nat>)
    requires |q| > 0 && q[0] in tcb && OnlyIndices(tcb, tcb', s)
    requires forall t :: t in q ==> t in tcb && tcb[q[0]].vruntime <= tcb[t].vruntime
    ensures q[0] in tcb' && forall t :: t in q ==> t in tcb' && tcb'[q[0]].vruntime <= tcb'[t].vruntime
  {
  }

  /** The queue with the element at `i` replaced by the last one, which is cut off. */
  function Shrunk(q: seq<nat>, i: nat): seq<nat>
    requires i < |q|
  {
    var n := |q| - 1;
    if i < n then q[..n][i := q[n]] else q[..n]
  }

  lemma ShrunkIs(q: seq<nat>, i: nat)
    requires i < |q|
    ensures |Shrunk(q, i)| == |q| - 1
    ensures forall j :: 0 <= j < |q| - 1 ==> Shrunk(q, i)[j] == if j == i then q[|q| - 1] else q[j]
    ensures multiset(Shrunk(q, i)) == multiset(q) - multiset{q[i]}
  {
    var n := |q| - 1;
    assert q == q[..n] + [q[n]];
    if i < n {
      assert q[..n] == q[..i] + [q[i]] + q[i + 1..n];
      assert Shrunk(q, i) == q[..i] + [q[n]] + q[i + 1..n];
    }
  }

  lemma RemoveStart(q: seq<nat>, tcb: Tcbs, i: nat)
    requires Queue(q, tcb) && i < |q|
    ensures q[i] in tcb && q[|q| - 1] in tcb
    ensures var (q', tcb') := (Shrunk(q, i), Removed(q, tcb, q[i], i));
      && Indexed(q', tcb') && KeysOf(tcb') == KeysOf(tcb) && Keyed(q', KeysOf(tcb'))
      && multiset(q') == multiset(q) - multiset{q[i]} && q[i] !in q'
      && (if i < |q| - 1 then Hole(q', KeysOf(tcb'), i) else Queue(q', tcb'))
  {
    hide Hole, MinHeap, UpOk;
    var (n, q', tcb') := (|q| - 1, Shrunk(q, i), Removed(q, tcb, q[i], i));
    ShrunkIs(q, i);
    IndexedDistinct(q, tcb);
    assert KeysOf(tcb') == KeysOf(tcb);
    CutLast(q, KeysOf(tcb));
    if i < n {
      ReplaceHole(q[..n], KeysOf(tcb), i, q[n]);
    }
  }

  lemma IndexAt(q: seq<nat>, tcb: Tcbs, i: nat)
    requires Indexed(q, tcb) && i < |q|
    ensures q[i] in tcb && tcb[q[i]].heapIdx == i && q[|q| - 1] in tcb
  {
  }

  lemma QueuedAt(q: seq<nat>, tcb: Tcbs, t: nat)
    requires Queue(q, tcb)
    ensures t in q ==> t in tcb && 0 <= tcb[t].heapIdx < |q| && q[tcb[t].heapIdx] == t
  {
    hide MinHeap, Keyed;
  }

  lemma NotAmong(q: seq<nat>, s: multiset<nat>, t: nat)
    requires multiset(q) == s && t !in s
    ensures t !in q
  {
  }
}
