/** The state of the scheduler, its invariant, and what each step may do to it. */
module SchedState {
  import opened Common
  import opened RunHeap
  import opened RunQueue

  const TIMESLICE_NS := 4_000_000
  const NICE_0_WEIGHT := 1024
  const TSC_PER_NS := 3
  const PRIO_MIN := -20
  const PRIO_MAX := 19
  const KSTACK_SIZE := 16384
  const FRAME_SIZE := 168                 // sizeof(sched_frame_t)

  datatype Sched = Sched(tcb: Tcbs, q: seq<nat>, current: nat, idle: nat, head: nat, count: int,
                         nextTid: nat, minV: nat, slice: nat, all: seq<nat>)

  /** The weights of nice levels -20 to -1. */
  function UpperWeights(): (w: seq<nat>)
    ensures |w| == 20 && forall i :: 0 <= i < 20 ==> w[i] > 0
  {
    [88761, 71755, 56483, 46273, 36291, 29154, 23254, 18705, 14949, 11916,
     9548, 7620, 6100, 4904, 3906, 3121, 2501, 1991, 1586, 1277]
  }

  /** The weights of nice levels 0 to 19. */
  function LowerWeights(): (w: seq<nat>)
    ensures |w| == 20 && forall i :: 0 <= i < 20 ==> w[i] > 0
  {
    [1024, 820, 655, 526, 423, 335, 272, 215, 172, 137,
     110, 87, 70, 56, 45, 36, 29, 23, 18, 15]
  }

  /** The weights of nice levels -20 to 19. */
  function Weights(): (w: seq<nat>)
    ensures |w| == 40 && forall i :: 0 <= i < 40 ==> w[i] > 0
  {
    UpperWeights() + LowerWeights()
  }

  /** `prio_to_w`. */
  function PrioToWeight(prio: int): (w: nat)
    ensures w > 0
  {
    var p := if prio < PRIO_MIN then PRIO_MIN else if prio > PRIO_MAX then PRIO_MAX else prio;
    Weights()[p + 20]
  }

  /** The stack pointer `setup_kstack` builds: a frame below the aligned top of the stack. */
  function InitialRsp(stack: nat): nat {
    (stack + KSTACK_SIZE) / 16 * 16 - FRAME_SIZE
  }

  /** The list of all live tasks, linked both ways from `head`. */
  ghost predicate AllLinks(tcb: Tcbs, head: nat, l: seq<nat>) {
    && head == At(l, 0)
    && (forall k :: 0 <= k < |l| ==> l[k] != 0 && l[k] in tcb)
    && (forall j, k :: 0 <= j < k < |l| ==> l[j] != l[k])
    && (forall k :: 0 <= k < |l| ==> tcb[l[k]].nextAll == At(l, k + 1) && tcb[l[k]].prevAll == At(l, k - 1))
  }

  /** The run queue holds exactly the runnable tasks other than idle; at most one task runs. */
  ghost predicate Queued(s: Sched) {
    && Queue(s.q, s.tcb) && 0 !in s.tcb && s.idle in s.tcb && s.current in s.tcb && s.idle !in s.q
    && (forall t :: t in s.tcb && t != s.idle ==> (s.tcb[t].state == RUNNABLE <==> t in s.q))
    && (forall t :: t in s.tcb && s.tcb[t].state == RUNNING ==> t == s.current)
    && (s.current != s.idle ==> s.tcb[s.current].state != RUNNABLE)
    && s.tcb[s.idle].state in {RUNNING, RUNNABLE}
  }

  /** The list of all tasks holds exactly those that have not exited. */
  ghost predicate Listing(s: Sched) {
    && AllLinks(s.tcb, s.head, s.all) && s.count == |s.all|
    && (forall t :: t in s.tcb ==> (t in s.all <==> s.tcb[t].state != ZOMBIE))
    && s.idle in s.all && |s.all| <= MAX_TASKS + 1
  }

  /** Identifiers are given out in order; the counter has 32 bits and has not wrapped. */
  ghost predicate Ids(s: Sched) {
    && s.nextTid < TWO_32
    && (forall t :: t in s.tcb ==> s.tcb[t].tid < s.nextTid && s.tcb[t].weight > 0)
    && (forall t, u :: t in s.tcb && u in s.tcb && s.tcb[t].tid == s.tcb[u].tid ==> t == u)
  }

  ghost predicate Inv(s: Sched) {
    Queued(s) && Listing(s) && Ids(s)
  }

  // ---------------------------------------------------------------- the steps

  /** `update_min_vruntime`. */
  function NewMin(s: Sched): (m: nat)
    requires s.current in s.tcb && (|s.q| > 0 ==> s.q[0] in s.tcb)
    ensures m >= s.minV
  {
    var mv := if s.current != s.idle then s.tcb[s.current].vruntime else s.minV;
    var mv2 :=
      if |s.q| > 0 && (mv == 0 || s.tcb[s.q[0]].vruntime < mv) then s.tcb[s.q[0]].vruntime else mv;
    if mv2 > s.minV then mv2 else s.minV
  }

  /** The time since the slice began, in nanoseconds; the difference is a 64-bit one. */
  function DeltaNs(s: Sched, tsc: nat): nat {
    Wrap(tsc - s.slice) / TSC_PER_NS
  }

  /**
   * The current task, unless it is idle, is charged for the time since its slice began: its
   * virtual runtime advances by that time in proportion to the weight of nice level 0 over its own.
   */
  function Charged(s: Sched, now: nat): Sched
    requires s.current in s.tcb && s.tcb[s.current].weight > 0
  {
    if s.current == s.idle then s
    else
      var (t, d) := (s.tcb[s.current], DeltaNs(s, now));
      s.(tcb := s.tcb[s.current := t.(vruntime := Wrap(t.vruntime + Wrap(d * NICE_0_WEIGHT) / t.weight),
                                      totalRuntime := Wrap(t.totalRuntime + d))])
  }

  /** Whether the timer interrupt preempts the current task. */
  predicate NeedSwitch(s: Sched, deltaNs: nat) {
    || deltaNs >= TIMESLICE_NS
    || (|s.q| > 0 && s.current == s.idle)
    || (|s.q| > 0 && s.current in s.tcb && s.q[0] in s.tcb
        && s.tcb[s.current].vruntime > s.tcb[s.q[0]].vruntime + TIMESLICE_NS)
  }

  /** What no step but creation and exit touches. */
  ghost predicate SameTasks(s: Sched, s': Sched) {
    && (forall t :: t in s'.tcb <==> t in s.tcb)
    && (forall t :: t in s.tcb ==> s'.tcb[t].tid == s.tcb[t].tid && s'.tcb[t].weight == s.tcb[t].weight)
    && (forall t :: t in s.tcb ==> s'.tcb[t].nextAll == s.tcb[t].nextAll && s'.tcb[t].prevAll == s.tcb[t].prevAll)
    && s'.idle == s.idle && s'.head == s.head && s'.count == s.count && s'.nextTid == s.nextTid && s'.all == s.all
  }

  /** The running task gives up the processor, unless it is idle, sleeps or has exited. */
  ghost predicate Requeues(s: Sched)
    requires s.current in s.tcb
  {
    s.current != s.idle && s.tcb[s.current].state == RUNNING
  }

  /** The candidates of a switch. */
  ghost function Candidates(s: Sched): multiset<nat>
    requires s.current in s.tcb
  {
    multiset(s.q) + if Requeues(s) then multiset{s.current} else multiset{}
  }

  /** Virtual time after a switch: the interrupted task is charged, and a new slice begins. */
  ghost predicate Timed(s: Sched, s': Sched, now: nat) {
    && s.current in s.tcb && s.tcb[s.current].weight > 0 && (|s.q| > 0 ==> s.q[0] in s.tcb)
    && s.current in s'.tcb && s'.tcb[s.current].vruntime == Charged(s, now).tcb[s.current].vruntime
    && s'.minV == NewMin(Charged(s, now)) && s'.slice == now
  }

  /** The statistics of a switch: the time used by `p`, and one more switch to `n`. */
  ghost predicate Counted(s: Sched, s': Sched, p: nat, n: nat, now: nat)
    requires SameTasks(s, s') && p in s.tcb && s.current == p && s.tcb[p].weight > 0
  {
    && (forall t :: t in s.tcb ==>
          s'.tcb[t].totalRuntime == if t == p then Charged(s, now).tcb[p].totalRuntime else s.tcb[t].totalRuntime)
    && (forall t :: t in s.tcb ==>
          s'.tcb[t].switches == if t == n then Wrap(s.tcb[t].switches + 1) else s.tcb[t].switches)
  }

  /**
   * A switch: the stack pointer of the interrupted task is saved; among the queued tasks and the
   * interrupted one, if it is still running, one of least virtual runtime is resumed at its own
   * saved stack pointer; idle runs only when there is none.
   */
  ghost predicate Switched(s: Sched, s': Sched, now: nat, frame: nat, rsp: nat) {
    && s.current in s.tcb && s'.current in s'.tcb && SameTasks(s, s') && s'.current in s.tcb && s'.minV >= s.minV
    && Timed(s, s', now) && Counted(s, s', s.current, s'.current, now)
    && Resumed(s, s', s.current, s'.current) && Saved(s, s', s.current, s'.current, frame)
    && rsp == s'.tcb[s'.current].rsp
  }

  /** `n` was chosen among the candidates, and the others are queued. */
  ghost predicate Resumed(s: Sched, s': Sched, p: nat, n: nat)
    requires SameTasks(s, s') && s.current in s.tcb && n in s.tcb
  {
    && (if n == s.idle then Candidates(s) == multiset{} else n in Candidates(s))
    && multiset(s'.q) == Candidates(s) - multiset{n}
    && (forall t :: t in s'.q ==> t in s'.tcb && s'.tcb[n].vruntime <= s'.tcb[t].vruntime)
    && (forall t :: t in s.tcb && t != p ==> s'.tcb[t].vruntime == s.tcb[t].vruntime)
  }

  /** The states and stack pointers after `p` was interrupted and `n` resumed. */
  ghost predicate Saved(s: Sched, s': Sched, p: nat, n: nat, frame: nat)
    requires SameTasks(s, s') && p in s.tcb
  {
    && (forall t :: t in s.tcb ==> s'.tcb[t].rsp == if t == p then frame else s.tcb[t].rsp)
    && (forall t :: t in s.tcb ==>
          s'.tcb[t].state ==
          if t == n then RUNNING else if t == p && s.tcb[p].state == RUNNING then RUNNABLE else s.tcb[t].state)
  }

  /** A switch keeps the invariant. */
  lemma SwitchKeepsInv(s: Sched, s': Sched, now: nat, frame: nat, rsp: nat)
    requires Inv(s) && Switched(s, s', now, frame, rsp) && Queue(s'.q, s'.tcb)
    ensures Inv(s')
  {
    hide Queue, AllLinks, Candidates;
    SwitchMembers(s, s', now, frame, rsp);
    SwitchListing(s, s', now, frame, rsp);
  }

  lemma SwitchMembers(s: Sched, s': Sched, now: nat, frame: nat, rsp: nat)
    requires Queued(s) && Switched(s, s', now, frame, rsp)
    ensures forall t :: t in s'.q <==> (t in s.q || (Requeues(s) && t == s.current)) && t != s'.current
    ensures s'.current == s.idle || s'.current in s.q || (Requeues(s) && s'.current == s.current)
    ensures s'.current == s.idle ==> s.q == [] && !Requeues(s)
  {
    hide Queue;
    IndexedOnce(s);
    var c := Candidates(s);
    assert forall t :: c[t] <= 1;
    forall t
      ensures t in s'.q <==> (t in s.q || (Requeues(s) && t == s.current)) && t != s'.current
    {
      assert t in s'.q <==> t in multiset(s'.q);
      assert t in s.q <==> t in multiset(s.q);
    }
    assert |multiset(s.q)| == |s.q|;
  }

  lemma SwitchZombies(s: Sched, s': Sched, now: nat, frame: nat, rsp: nat)
    requires Queued(s) && Switched(s, s', now, frame, rsp)
    ensures forall t :: t in s.tcb ==> (s'.tcb[t].state == ZOMBIE <==> s.tcb[t].state == ZOMBIE)
  {
    hide Queue, Candidates, Timed;
    SwitchMembers(s, s', now, frame, rsp);
  }

  lemma SwitchListing(s: Sched, s': Sched, now: nat, frame: nat, rsp: nat)
    requires Inv(s) && Switched(s, s', now, frame, rsp)
    ensures Listing(s') && Ids(s')
  {
    hide Queued, Resumed, Saved, Timed, AllLinks;
    SwitchZombies(s, s', now, frame, rsp);
    ListedTasks(s);
    AllLinksFrame(s.tcb, s'.tcb, s.head, s.all);
  }

  lemma ListedTasks(s: Sched)
    requires Listing(s)
    ensures forall t :: t in s.all ==> t in s.tcb
  {
  }

  lemma IndexedOnce(s: Sched)
    requires Queue(s.q, s.tcb)
    ensures forall t :: multiset(s.q)[t] <= 1
  {
    hide MinHeap, Keyed;
    IndexedDistinct(s.q, s.tcb);
  }

  lemma AllLinksFrame(tcb: Tcbs, tcb': Tcbs, head: nat, l: seq<nat>)
    requires AllLinks(tcb, head, l)
    requires forall t :: t in l ==> t in tcb' && tcb'[t].nextAll == tcb[t].nextAll && tcb'[t].prevAll == tcb[t].prevAll
    ensures AllLinks(tcb', head, l)
  {
  }

  // ---------------------------------------------------------------- creation

  /**
   * A new runnable task at address `t`, first in the list of all tasks.  It is queued unless
   * the queue is full; then it is lost, since nothing but the queue is ever selected from.
   */
  ghost predicate Created(s: Sched, s': Sched, t: nat, prio: int, rsp: nat) {
    && t != 0 && t !in s.tcb && s.current in s.tcb && (|s.q| > 0 ==> s.q[0] in s.tcb)
    && (forall u :: u in s'.tcb <==> u in s.tcb || u == t)
    && (forall u :: u in s.tcb ==> s'.tcb[u].(heapIdx := 0, prevAll := 0) == s.tcb[u].(heapIdx := 0, prevAll := 0))
    && s'.tcb[t].tid == s.nextTid && s'.tcb[t].state == RUNNABLE && s'.tcb[t].vruntime == NewMin(s)
    && s'.tcb[t].weight == PrioToWeight(prio) && s'.tcb[t].rsp == rsp
    && s'.tcb[t].totalRuntime == 0 && s'.tcb[t].switches == 0
    && multiset(s'.q) == multiset(s.q) + (if |s.q| < MAX_TASKS then multiset{t} else multiset{})
    && s'.all == [t] + s.all && s'.head == t && s'.count == s.count + 1
    && s'.nextTid == (s.nextTid + 1) % TWO_32 && s'.minV == NewMin(s)
    && s'.current == s.current && s'.idle == s.idle && s'.slice == s.slice
  }

  lemma CreateKeepsInv(s: Sched, s': Sched, t: nat, prio: int, rsp: nat)
    requires Inv(s) && Created(s, s', t, prio, rsp) && |s.all| <= MAX_TASKS && |s.q| < MAX_TASKS
    requires s.nextTid + 1 < TWO_32
    requires Queue(s'.q, s'.tcb) && AllLinks(s'.tcb, t, [t] + s.all)
    ensures Inv(s')
  {
    hide Queue, AllLinks, NewMin, PrioToWeight;
    InList(s);
    forall u
      ensures u in s'.q <==> u in s.q || u == t
    {
      assert u in s'.q <==> u in multiset(s'.q);
      assert u in s.q <==> u in multiset(s.q);
    }
    forall u | u in s'.tcb
      ensures u in s'.all <==> s'.tcb[u].state != ZOMBIE
    {
    }
  }

  /** More tasks than the queue holds, or more than there are identifiers, break the invariant. */
  lemma CreateBreaksInv(s: Sched, s': Sched, t: nat, prio: int, rsp: nat)
    requires Inv(s) && Created(s, s', t, prio, rsp)
    requires |s.all| > MAX_TASKS || s.nextTid + 1 >= TWO_32
    ensures !Inv(s')
  {
    hide Queue, AllLinks, NewMin, PrioToWeight;
    if s.nextTid + 1 >= TWO_32 {
      assert s'.nextTid == 0 && t in s'.tcb;
    }
  }

  lemma InList(s: Sched)
    requires Inv(s)
    ensures forall u :: u in s.all ==> u in s.tcb
    ensures forall u :: u in s.q ==> u in s.tcb
  {
    hide MinHeap;
  }

  /** Pushing a task on the list of all tasks. */
  function PushAll(tcb: Tcbs, head: nat, t: nat): Tcbs
    requires t in tcb && (head != 0 ==> head in tcb)
  {
    var tcb1 := tcb[t := tcb[t].(nextAll := head)];
    if head != 0 then tcb1[head := tcb1[head].(prevAll := t)] else tcb1
  }

  lemma PushAllLinks(tcb: Tcbs, head: nat, l: seq<nat>, t: nat)
    requires AllLinks(tcb, head, l) && t in tcb && t != 0 && t !in l && tcb[t].prevAll == 0
    ensures head != 0 ==> head in tcb
    ensures AllLinks(PushAll(tcb, head, t), t, [t] + l)
  {
    var (tcb', l') := (PushAll(tcb, head, t), [t] + l);
    forall k | 0 <= k < |l'|
      ensures tcb'[l'[k]].nextAll == At(l', k + 1) && tcb'[l'[k]].prevAll == At(l', k - 1)
    {
      if k > 0 {
        assert l'[k] == l[k - 1] && tcb[l[k - 1]].nextAll == At(l, k) && tcb[l[k - 1]].prevAll == At(l, k - 2);
      }
    }
  }

  // ---------------------------------------------------------------- exit

  /** The running task has exited: it is off the list of all tasks, and no longer runs or waits. */
  ghost predicate Exited(s: Sched, s': Sched) {
    && s.current in s.tcb && (forall t :: t in s'.tcb <==> t in s.tcb)
    && (forall t :: t in s.tcb ==>
          s'.tcb[t].(nextAll := 0, prevAll := 0) ==
          s.tcb[t].(nextAll := 0, prevAll := 0, state := if t == s.current then ZOMBIE else s.tcb[t].state))
    && (exists k :: 0 <= k < |s.all| && s.all[k] == s.current && s'.all == Without(s.all, k))
    && s'.count == s.count - 1 && s'.q == s.q && s'.current == s.current && s'.idle == s.idle
    && s'.nextTid == s.nextTid && s'.minV == s.minV && s'.slice == 0
  }

  lemma ExitKeepsInv(s: Sched, s': Sched)
    requires Inv(s) && Exited(s, s') && s.current != s.idle && s.tcb[s.current].state == RUNNING
    requires AllLinks(s'.tcb, s'.head, s'.all)
    ensures Inv(s')
  {
    hide Queue, AllLinks, Without, Exited;
    ExitedFields(s, s');
    ListDistinct(s);
    InList(s);
    ExitedList(s, s');
    QueueFrame(s.q, s.tcb, s'.tcb);
    assert Queued(s') && Ids(s');
  }

  lemma ExitedFields(s: Sched, s': Sched)
    requires Exited(s, s')
    ensures forall t :: t in s'.tcb <==> t in s.tcb
    ensures forall t :: t in s.tcb ==>
      && s'.tcb[t].tid == s.tcb[t].tid && s'.tcb[t].weight == s.tcb[t].weight
      && s'.tcb[t].heapIdx == s.tcb[t].heapIdx && s'.tcb[t].vruntime == s.tcb[t].vruntime
      && s'.tcb[t].state == (if t == s.current then ZOMBIE else s.tcb[t].state)
    ensures s'.q == s.q && s'.current == s.current && s'.idle == s.idle && s'.nextTid == s.nextTid
  {
    hide Without;
  }

  lemma ExitedList(s: Sched, s': Sched)
    requires Exited(s, s') && s.count == |s.all|
    requires forall i, j :: 0 <= i < j < |s.all| ==> s.all[i] != s.all[j]
    ensures s'.count == |s'.all| && |s'.all| == |s.all| - 1
    ensures forall t :: t in s'.all <==> t in s.all && t != s.current
  {
    hide Without;
    var k :| 0 <= k < |s.all| && s.all[k] == s.current && s'.all == Without(s.all, k);
    WithoutMembers(s.all, k);
    WithoutAt(s.all, k);
  }

  /** The queue depends only on the keys and positions of the queued tasks. */
  lemma QueueFrame(q: seq<nat>, tcb: Tcbs, tcb': Tcbs)
    requires Queue(q, tcb)
    requires forall t :: t in q ==> t in tcb && t in tcb' && tcb'[t].heapIdx == tcb[t].heapIdx && tcb'[t].vruntime == tcb[t].vruntime
    ensures Queue(q, tcb')
  {
    forall j | 0 <= j < |q|
      ensures UpOk(q, KeysOf(tcb'), j)
    {
      assert UpOk(q, KeysOf(tcb), j);
    }
  }

  /** Taking `l[k]` off the list of all tasks; its own links stay as they are. */
  function UnlinkAll(tcb: Tcbs, t: nat): Tcbs
    requires t in tcb && (tcb[t].prevAll != 0 ==> tcb[t].prevAll in tcb) && (tcb[t].nextAll != 0 ==> tcb[t].nextAll in tcb)
  {
    var (p, n) := (tcb[t].prevAll, tcb[t].nextAll);
    var tcb1 := if p != 0 then tcb[p := tcb[p].(nextAll := n)] else tcb;
    if n != 0 then tcb1[n := tcb1[n].(prevAll := p)] else tcb1
  }

  lemma Neighbours(tcb: Tcbs, head: nat, l: seq<nat>, k: nat)
    requires AllLinks(tcb, head, l) && k < |l|
    ensures l[k] in tcb && l[k] != 0
    ensures tcb[l[k]].prevAll == At(l, k - 1) && tcb[l[k]].nextAll == At(l, k + 1)
    ensures tcb[l[k]].prevAll != 0 ==> tcb[l[k]].prevAll in tcb && k > 0
    ensures tcb[l[k]].nextAll != 0 ==> tcb[l[k]].nextAll in tcb && k + 1 < |l|
  {
  }

  lemma UnlinkAllAt(tcb: Tcbs, head: nat, l: seq<nat>, k: nat, i: nat)
    requires AllLinks(tcb, head, l) && k < |l| && i < |l| && i != k && l[k] in tcb
    requires tcb[l[k]].prevAll != 0 ==> tcb[l[k]].prevAll in tcb
    requires tcb[l[k]].nextAll != 0 ==> tcb[l[k]].nextAll in tcb
    ensures var tcb' := UnlinkAll(tcb, l[k]);
      && l[i] in tcb'
      && tcb'[l[i]].nextAll == (if i + 1 == k then At(l, k + 1) else At(l, i + 1))
      && tcb'[l[i]].prevAll == (if i == k + 1 then At(l, k - 1) else At(l, i - 1))
  {
    hide AllLinks;
    Neighbours(tcb, head, l, k);
    Neighbours(tcb, head, l, i);
    if k > 0 {
      Distinct(tcb, head, l, i, k - 1);
    }
    if k + 1 < |l| {
      Distinct(tcb, head, l, i, k + 1);
    }
  }

  lemma Distinct(tcb: Tcbs, head: nat, l: seq<nat>, i: nat, j: nat)
    requires AllLinks(tcb, head, l) && i < |l| && j < |l|
    ensures l[i] == l[j] <==> i == j
  {
  }

  lemma UnlinkAllSlot(tcb: Tcbs, head: nat, l: seq<nat>, k: nat, j: nat)
    requires AllLinks(tcb, head, l) && k < |l| && j < |l| - 1
    ensures l[k] in tcb
    ensures tcb[l[k]].prevAll != 0 ==> tcb[l[k]].prevAll in tcb
    ensures tcb[l[k]].nextAll != 0 ==> tcb[l[k]].nextAll in tcb
    ensures var (tcb', l') := (UnlinkAll(tcb, l[k]), Without(l, k));
      && |l'| == |l| - 1 && l'[j] in tcb'
      && tcb'[l'[j]].nextAll == At(l', j + 1) && tcb'[l'[j]].prevAll == At(l', j - 1)
  {
    hide UnlinkAll, Without, AllLinks, At;
    Neighbours(tcb, head, l, k);
    WithoutAt(l, k);
    AtWithout(l, k, j + 1);
    AtWithout(l, k, j - 1);
    UnlinkAllAt(tcb, head, l, k, if j < k then j else j + 1);
  }

  lemma HeadWithout(tcb: Tcbs, head: nat, l: seq<nat>, k: nat)
    requires AllLinks(tcb, head, l) && k < |l|
    ensures (if head == l[k] then tcb[l[k]].nextAll else head) == At(Without(l, k), 0)
  {
    hide Without;
    Neighbours(tcb, head, l, k);
    AtWithout(l, k, 0);
    if k > 0 {
      Distinct(tcb, head, l, 0, k);
    }
  }

  lemma UnlinkAllLinks(tcb: Tcbs, head: nat, l: seq<nat>, k: nat)
    requires AllLinks(tcb, head, l) && k < |l|
    ensures l[k] in tcb
    ensures tcb[l[k]].prevAll != 0 ==> tcb[l[k]].prevAll in tcb
    ensures tcb[l[k]].nextAll != 0 ==> tcb[l[k]].nextAll in tcb
    ensures AllLinks(UnlinkAll(tcb, l[k]), if head == l[k] then tcb[l[k]].nextAll else head, Without(l, k))
  {
    hide UnlinkAll, Without, At;
    Neighbours(tcb, head, l, k);
    WithoutAt(l, k);
    HeadWithout(tcb, head, l, k);
    var (tcb', l') := (UnlinkAll(tcb, l[k]), Without(l, k));
    forall j | 0 <= j < |l'|
      ensures l'[j] in tcb' && tcb'[l'[j]].nextAll == At(l', j + 1) && tcb'[l'[j]].prevAll == At(l', j - 1)
    {
      UnlinkAllSlot(tcb, head, l, k, j);
    }
  }

  // ---------------------------------------------------------------- sleep, wake, yield

  ghost predicate Slept(s: Sched, s': Sched) {
    s.current in s.tcb &&
    s' == s.(tcb := s.tcb[s.current := s.tcb[s.current].(state := SLEEPING)], slice := 0)
  }

  lemma SleepKeepsInv(s: Sched, s': Sched)
    requires Inv(s) && Slept(s, s') && s.current != s.idle && s.tcb[s.current].state == RUNNING
    ensures Inv(s')
  {
    hide Queue, AllLinks;
    InList(s);
    QueueFrame(s.q, s.tcb, s'.tcb);
    AllLinksFrame(s.tcb, s'.tcb, s.head, s.all);
  }

  /** The sleeping task with this id, if there is one. */
  ghost predicate Sleeper(s: Sched, tid: nat, t: nat) {
    t in s.tcb && s.tcb[t].tid == tid && s.tcb[t].state == SLEEPING
  }

  /** The task `t` becomes runnable, with at least the minimum virtual runtime. */
  ghost predicate Woken(s: Sched, s': Sched, t: nat) {
    && t in s.tcb && s.current in s.tcb && (|s.q| > 0 ==> s.q[0] in s.tcb)
    && SameTasks(s, s') && s'.current == s.current && s'.slice == s.slice && s'.minV == NewMin(s)
    && (forall u :: u in s.tcb && u != t ==> s'.tcb[u].(heapIdx := 0) == s.tcb[u].(heapIdx := 0))
    && s'.tcb[t].state == RUNNABLE && s'.tcb[t].rsp == s.tcb[t].rsp
    && s'.tcb[t].totalRuntime == s.tcb[t].totalRuntime && s'.tcb[t].switches == s.tcb[t].switches
    && s'.tcb[t].vruntime == (if s.tcb[t].vruntime < NewMin(s) then NewMin(s) else s.tcb[t].vruntime)
    && multiset(s'.q) == multiset(s.q) + multiset{t}
  }

  lemma WakeKeepsInv(s: Sched, s': Sched, t: nat)
    requires Inv(s) && Woken(s, s', t) && t in s.tcb && s.tcb[t].state == SLEEPING && t != s.current && t != s.idle
    requires Queue(s'.q, s'.tcb)
    ensures Inv(s')
  {
    hide Queue, AllLinks, NewMin;
    InList(s);
    AllLinksFrame(s.tcb, s'.tcb, s.head, s.all);
    forall u
      ensures u in s'.q <==> u in s.q || u == t
    {
      assert u in s'.q <==> u in multiset(s'.q);
      assert u in s.q <==> u in multiset(s.q);
    }
  }

  /** Waking the current task breaks it: the task is queued while it runs. */
  lemma WakeBreaksInv(s: Sched, s': Sched, t: nat)
    requires Inv(s) && Woken(s, s', t) && t == s.current != s.idle
    ensures t in s'.q && !Inv(s')
  {
    hide Queue, AllLinks, NewMin;
    assert t in multiset(s'.q);
  }

  /**
   * What follows: the next switch charges that task where it stands in the queue, and the heap
   * order survives exactly when no child of it has a smaller virtual runtime.
   */
  lemma ChargeInQueue(s: Sched, now: nat, i: nat)
    requires Queue(s.q, s.tcb) && i < |s.q| && s.current == s.q[i] && s.current != s.idle
    requires s.current in s.tcb && s.tcb[s.current].weight > 0
    requires Charged(s, now).tcb[s.current].vruntime >= s.tcb[s.current].vruntime
    ensures Queue(s.q, Charged(s, now).tcb) <==>
      forall j :: 0 < j < |s.q| && Parent(j) == i ==>
        s.q[j] in s.tcb && Charged(s, now).tcb[s.current].vruntime <= s.tcb[s.q[j]].vruntime
  {
    hide Charged;
    var tcb' := Charged(s, now).tcb;
    ChargedTcb(s, now);
    IndexedDistinct(s.q, s.tcb);
    forall j | 0 < j < |s.q|
      ensures UpOk(s.q, KeysOf(tcb'), j) <==>
        (Parent(j) == i ==> s.q[j] in s.tcb && tcb'[s.current].vruntime <= s.tcb[s.q[j]].vruntime)
    {
      assert UpOk(s.q, KeysOf(s.tcb), j);
    }
  }

  lemma ChargedTcb(s: Sched, now: nat)
    requires s.current in s.tcb && s.tcb[s.current].weight > 0
    ensures var t := Charged(s, now).tcb;
      && s.current in t
      && t == s.tcb[s.current := s.tcb[s.current].(vruntime := t[s.current].vruntime, totalRuntime := t[s.current].totalRuntime)]
  {
  }

  /** The queue never overflows: the queued tasks are live tasks other than idle. */
  lemma QueueHasRoom(s: Sched, t: nat)
    requires Inv(s) && t in s.tcb && t !in s.q && t != s.idle && s.tcb[t].state != ZOMBIE
    ensures |s.q| < MAX_TASKS
  {
    hide Queue, AllLinks, Keyed, MinHeap;
    InList(s);
    QueueDistinct(s);
    ListDistinct(s);
    ElementsSize(s.q);
    ElementsSize(s.all);
    RoomFor(s.q, s.all, t, s.idle);
  }

  lemma RoomFor(q: seq<nat>, l: seq<nat>, t: nat, u: nat)
    requires |Elements(q)| == |q| && |Elements(l)| == |l| && t != u && t !in q && u !in q && t in l && u in l
    requires forall x :: x in q ==> x in l
    ensures |q| + 2 <= |l|
  {
    hide Elements;
    SubsetSize(Elements(q) + {t, u}, Elements(l));
    assert |Elements(q) + {t, u}| == |Elements(q)| + |{t, u}|;
  }

  lemma QueueDistinct(s: Sched)
    requires Inv(s)
    ensures forall i, j :: 0 <= i < j < |s.q| ==> s.q[i] != s.q[j]
  {
    hide MinHeap, AllLinks;
    IndexedDistinct(s.q, s.tcb);
  }

  lemma ListDistinct(s: Sched)
    requires Inv(s)
    ensures forall i, j :: 0 <= i < j < |s.all| ==> s.all[i] != s.all[j]
  {
    hide Queue;
  }
}
