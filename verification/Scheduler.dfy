/**
 * The scheduler.  Each method is one critical section.  The time stamp counter, the addresses
 * the allocator returns and the stack pointers of interrupted tasks are inputs.
 */
module Scheduler {
  import opened Common
  import opened RunHeap
  import opened RunQueue
  import opened SchedState

  class Scheduler {
    const rq: RunQ
    var current: nat
    var idle: nat
    var allHead: nat
    var taskCount: int
    var nextTid: nat
    var minVruntime: nat
    var sliceStart: nat
    var ready: bool
    ghost var all: seq<nat>

    ghost function State(): Sched
      requires rq.size <= rq.data.Length
      reads this, rq, rq.data
    {
      Sched(rq.tcb, rq.Q(), current, idle, allHead, taskCount, nextTid, minVruntime, sliceStart, all)
    }

    ghost predicate Valid()
      reads this, rq, rq.data
    {
      rq.Valid() && Inv(State())
    }

    /** The zeroed scheduler before `sched_init`. */
    constructor ()
      ensures rq.Valid() && rq.size == 0 && rq.tcb == map[] && !ready
      ensures fresh(rq) && fresh(rq.data)
    {
      rq := new RunQ();
      current, idle, allHead, taskCount, nextTid, minVruntime, sliceStart := 0, 0, 0, 0, 0, 0, 0;
      ready, all := false, [];
    }

    /**
     * `sched_init`; a zero address says the allocation failed.  `raw` is what the memory of the
     * idle task holds before: the code does not clear it, so that fields it does not set stay.
     * The invariant holds unless that leaves the links of the idle task wrong.
     */
    method Init(idleTask: nat, stack: nat, raw: Task) returns (code: int)
      requires rq.Valid() && rq.size == 0 && rq.tcb == map[] && !ready
      modifies this, rq
      ensures code == (if idleTask == 0 || stack == 0 then -1 else 0) && (ready <==> code == 0) && rq.Valid()
      ensures code == 0 ==> State() == Sched(map[idleTask := IdleTask(stack, raw)], [], idleTask, idleTask, idleTask,
                                             1, 1, 0, 0, [idleTask])
      ensures code == 0 ==> (Valid() <==> raw.nextAll == 0 && raw.prevAll == 0)
    {
      hide Inv, Queue, PrioToWeight, InitialRsp;
      EmptyQueue(map[]);
      nextTid := 1;
      if idleTask == 0 {
        return -1;
      }
      if stack == 0 {
        return -1;
      }
      rq.tcb := map[idleTask := raw.(tid := 0, state := RUNNABLE, weight := PrioToWeight(PRIO_MAX), vruntime := 0)];
      rq.tcb := rq.tcb[idleTask := rq.tcb[idleTask].(rsp := InitialRsp(stack))];
      idle, current, allHead, taskCount := idleTask, idleTask, idleTask, 1;
      all := [idleTask];
      minVruntime, sliceStart := 0, 0;
      ready := true;
      assert rq.Q() == [];
      assert rq.tcb == map[idleTask := rq.tcb[idleTask]];
      InitialState(idleTask, rq.tcb[idleTask]);
      EmptyQueue(rq.tcb);
      return 0;
    }

    /** `update_min_vruntime`. */
    method UpdateMinVruntime()
      requires rq.Valid() && current in rq.tcb
      modifies this`minVruntime
      ensures State() == old(State()).(minV := NewMin(old(State())))
    {
      var mv := minVruntime;
      if current != idle {
        mv := rq.tcb[current].vruntime;
      }
      if rq.size > 0 {
        var rqMin := rq.tcb[rq.data[0]].vruntime;
        if mv == 0 || rqMin < mv {
          mv := rqMin;
        }
      }
      if mv > minVruntime {
        minVruntime := mv;
      }
    }

    /** The part of `context_switch` that charges the interrupted task for its time slice. */
    method Charge(now: nat)
      requires Valid()
      modifies rq`tcb
      ensures rq.Valid() && ChargedOnly(old(State()), State(), now)
    {
      hide Queue, NewMin, AllLinks;
      InvFacts(State());
      var prev := current;
      var deltaNs := Wrap(now - sliceStart) / TSC_PER_NS;
      if prev != idle {
        var weighted := Wrap(deltaNs * NICE_0_WEIGHT) / rq.tcb[prev].weight;
        ghost var tcb0 := rq.tcb;
        rq.tcb := rq.tcb[prev := rq.tcb[prev].(vruntime := Wrap(rq.tcb[prev].vruntime + weighted))];
        rq.tcb := rq.tcb[prev := rq.tcb[prev].(totalRuntime := Wrap(rq.tcb[prev].totalRuntime + deltaNs))];
        QueueFrame(rq.Q(), tcb0, rq.tcb);
      }
    }

    /** The part of `context_switch` that saves the interrupted task. */
    method Park(frame: nat)
      requires rq.Valid() && ParkReady(State())
      modifies rq, rq.data
      ensures rq.Valid() && Parked(old(State()), State(), frame)
    {
      hide Queue, NewMin, AllLinks, OnlyIndices, KeysOf;
      ghost var s := State();
      var prev := current;
      rq.tcb := rq.tcb[prev := rq.tcb[prev].(rsp := frame)];
      ghost var tcb2 := rq.tcb;
      if rq.tcb[prev].state == RUNNING {
        rq.tcb := rq.tcb[prev := rq.tcb[prev].(state := RUNNABLE)];
        tcb2 := rq.tcb;
        QueueFrame(rq.Q(), s.tcb, rq.tcb);
        if prev != idle {
          rq.RqPush(prev);
        } else {
          OnlyIndicesSame(rq.tcb, multiset(rq.Q()));
        }
      } else {
        QueueFrame(rq.Q(), s.tcb, rq.tcb);
        OnlyIndicesSame(rq.tcb, multiset(rq.Q()));
      }
      ParkedIntro(s, tcb2, State(), frame);
    }

    /** The stores that make a task the running one. */
    method StartTask(next: nat)
      requires next in rq.tcb
      modifies rq`tcb
      ensures rq.tcb == var n := old(rq.tcb[next]); old(rq.tcb)[next := n.(state := RUNNING, switches := Wrap(n.switches + 1))]
    {
      rq.tcb := rq.tcb[next := rq.tcb[next].(state := RUNNING)];
      rq.tcb := rq.tcb[next := rq.tcb[next].(switches := Wrap(rq.tcb[next].switches + 1))];
    }

    /** The part of `context_switch` that picks the next task. */
    method PickNext() returns (next: nat)
      requires rq.Valid() && idle in rq.tcb && 0 !in rq.tcb && forall t :: t in rq.Q() ==> t in rq.tcb
      modifies rq, rq.data
      ensures rq.Valid() && next in rq.tcb && OnlyIndices(old(rq.tcb), rq.tcb, multiset(old(rq.Q())))
      ensures if old(rq.Q()) == [] then next == idle && rq.Q() == [] else next == old(rq.Q())[0]
      ensures multiset(rq.Q()) == multiset(old(rq.Q())) - multiset{next}
      ensures forall t :: t in rq.Q() ==> t in old(rq.Q()) && t in rq.tcb && rq.tcb[next].vruntime <= rq.tcb[t].vruntime
    {
      hide Queue, OnlyIndices, KeysOf;
      ghost var (q, tcb0) := (rq.Q(), rq.tcb);
      next := rq.RqPop();
      PopFacts(q, tcb0, rq.Q(), rq.tcb, next);
      if next == 0 {
        next := idle;
        NothingLess(q, idle);
      }
    }

    /** The part of `context_switch` that takes the next task. */
    method TakeNext() returns (next: nat)
      requires rq.Valid() && idle in rq.tcb && idle !in rq.Q() && 0 !in rq.tcb && forall t :: t in rq.Q() ==> t in rq.tcb
      modifies this`current, rq, rq.data
      ensures rq.Valid() && Taken(old(State()), State()) && next == current && next in rq.tcb
    {
      hide Queue, NewMin, AllLinks, OnlyIndices, KeysOf, Taken, MinHeap, Keyed, Indexed;
      ghost var s := State();
      next := PickNext();
      ghost var (q1, tcb1) := (rq.Q(), rq.tcb);
      StartTask(next);
      assert rq.Q() == q1;
      StartedQueue(q1, tcb1, next);
      current := next;
      assert State() == s.(tcb := rq.tcb, q := q1, current := next);
      TakenIntro(s, tcb1, State());
    }

    /** `context_switch`: returns the stack pointer to resume. */
    method ContextSwitch(frame: nat, now: nat) returns (rsp: nat)
      requires Valid()
      modifies this, rq, rq.data
      ensures Valid() && Switched(old(State()), State(), now, frame, rsp)
      ensures all == old(all) && idle == old(idle) && ready == old(ready)
    {
      hide Queue, NewMin, AllLinks, Parked, Taken, ParkReady, Inv, Switched, ChargedOnly, Charged;
      ghost var s := State();
      InvFacts(s);
      Charge(now);
      ghost var s1 := State();
      ChargedFacts(s, s1, now);
      UpdateMinVruntime();
      ghost var s2 := State();
      ParkIsReady(s, s1, s2, now);
      Park(frame);
      ghost var s3 := State();
      TakeIsReady(s2, s3, frame);
      var next := TakeNext();
      sliceStart := now;
      rsp := rq.tcb[next].rsp;
      SwitchedIntro(s, s1, s2, s3, State(), now, frame, rsp);
      SwitchKeepsInv(s, State(), now, frame, rsp);
    }

    /** The decision of `sched_tick`. */
    method Preempts(tsc: nat) returns (needSwitch: bool)
      requires rq.Valid() && current in rq.tcb && forall t :: t in rq.Q() ==> t in rq.tcb
      ensures needSwitch == NeedSwitch(State(), DeltaNs(State(), tsc))
    {
      hide Queue, Wrap;
      QueueHead(State());
      var cur := current;
      var deltaNs := Wrap(tsc - sliceStart) / TSC_PER_NS;
      needSwitch := deltaNs >= TIMESLICE_NS;
      if !needSwitch && rq.size > 0 && cur != idle {
        var best := rq.data[0];
        var lag := if rq.tcb[cur].vruntime > rq.tcb[best].vruntime then rq.tcb[cur].vruntime - rq.tcb[best].vruntime else 0;
        if lag > TIMESLICE_NS {
          needSwitch := true;
        }
      }
      if cur == idle && rq.size > 0 {
        needSwitch := true;
      }
    }

    /** `sched_tick`: the two readings of the counter are inputs; returns the stack pointer to resume. */
    method Tick(frame: nat, tsc: nat, now: nat) returns (rsp: nat)
      requires ready ==> Valid()
      requires rq.size <= rq.data.Length
      modifies this, rq, rq.data
      ensures ready == old(ready) && (ready ==> Valid())
      ensures rq.size <= rq.data.Length
      ensures ready ==> Ticked(old(State()), State(), tsc, now, frame, rsp)
      ensures !ready ==> rsp == frame && State() == old(State())
    {
      hide Queue, NewMin, AllLinks, Switched, Inv, NeedSwitch, DeltaNs;
      if !ready {
        return frame;
      }
      InvFacts(State());
      var needSwitch := Preempts(tsc);
      rsp := frame;
      if needSwitch {
        rsp := ContextSwitch(frame, now);
      }
    }

    /**
     * `sched_create_kthread`; `hasFn` says that the function pointer is not null, `task` and
     * `stack` are the addresses the allocator returns, 0 when it fails.  The invariant holds
     * again unless there are already 1024 tasks besides idle or the 32-bit identifiers run out;
     * the new task is lost exactly when 1024 tasks are queued.
     */
    method CreateKthread(hasFn: bool, task: nat, stack: nat, prio: int) returns (tid: int)
      requires Valid() && task !in rq.tcb
      modifies this, rq, rq.data
      ensures rq.Valid()
      ensures Valid() <==>
        !hasFn || task == 0 || (old(nextTid) + 1 < TWO_32 && (stack == 0 || old(|all|) <= MAX_TASKS))
      ensures hasFn && task != 0 && stack != 0 ==>
        tid == ToInt32(old(nextTid)) && Created(old(State()), State(), task, prio, InitialRsp(stack))
      ensures hasFn && task != 0 && stack != 0 ==> (task in rq.Q() <==> old(rq.size) < 1024)
      ensures !hasFn || task == 0 ==> tid == -1 && State() == old(State())
      ensures hasFn && task != 0 && stack == 0 ==>
        && tid == -1
        && State() == old(State()).(nextTid := (old(nextTid) + 1) % TWO_32, minV := NewMin(old(State())))
      ensures idle == old(idle) && ready == old(ready)
    {
      hide Queue, NewMin, AllLinks, Inv, Created, PrioToWeight;
      ghost var s := State();
      if !hasFn {
        return -1;
      }
      if task == 0 {
        return -1;
      }
      InvFacts(s);
      InvList(s);
      var id := nextTid;
      nextTid := (nextTid + 1) % TWO_32;
      MinIgnoresTid(s, nextTid);
      UpdateMinVruntime();
      var t := Task(id, RUNNABLE, minVruntime, PrioToWeight(prio), 0, -1, 0, 0, 0, 0);
      if stack == 0 {
        CountersInv(s, State());
        return -1;
      }
      t := t.(rsp := InitialRsp(stack));
      Enlist(task, t, s, prio);
      return ToInt32(id);
    }

    /** The part of `sched_create_kthread` that puts a task on the list of all tasks. */
    method OnList(t: nat)
      requires t in rq.tcb && (allHead != 0 ==> allHead in rq.tcb)
      modifies rq`tcb, this`allHead, this`taskCount
      ensures rq.tcb == PushAll(old(rq.tcb), old(allHead), t) && allHead == t && taskCount == old(taskCount) + 1
    {
      rq.tcb := rq.tcb[t := rq.tcb[t].(nextAll := allHead)];
      if allHead != 0 {
        rq.tcb := rq.tcb[allHead := rq.tcb[allHead].(prevAll := t)];
      }
      allHead := t;
      taskCount := taskCount + 1;
    }

    /** The part of `sched_create_kthread` that adds the new task to the list and to the queue. */
    method Enlist(task: nat, t: Task, ghost s: Sched, ghost prio: int)
      requires rq.Valid() && Inv(s) && State() == s.(nextTid := (s.nextTid + 1) % TWO_32, minV := minVruntime)
      requires task != 0 && task !in s.tcb && NewTask(s, t, prio, minVruntime)
      modifies this`allHead, this`taskCount, this`all, rq, rq.data
      ensures rq.Valid() && Created(s, State(), task, prio, t.rsp)
      ensures task in rq.Q() <==> |s.q| < MAX_TASKS
      ensures Inv(State()) <==> s.nextTid + 1 < TWO_32 && |s.all| <= MAX_TASKS
    {
      hide Queue, NewMin, AllLinks, Inv, OnlyIndices, KeysOf, PushAll, Created, PrioToWeight, NewTask;
      NewTaskLinks(s, t, prio, minVruntime);
      ListNew(task, t, s);
      ghost var tcb2 := rq.tcb;
      Enqueue(task);
      CreatedIntro(s, t, s.tcb[task := t], tcb2, State(), task, prio, t.rsp);
      LinksAfterIndices(tcb2, rq.tcb, multiset(rq.Q()), task, all);
      CreateOutcome(s, State(), task, prio, t.rsp);
    }

    /** The new task joins the list of all tasks; the queue is as it was. */
    method ListNew(task: nat, t: Task, ghost s: Sched)
      requires rq.Valid() && Inv(s) && rq.tcb == s.tcb && rq.Q() == s.q && allHead == s.head && taskCount == s.count && all == s.all
      requires task != 0 && task !in s.tcb && t.prevAll == 0
      modifies this`allHead, this`taskCount, this`all, rq`tcb
      ensures s.current in s.tcb && (|s.q| > 0 ==> s.q[0] in s.tcb) && s.head != task && (s.head != 0 ==> s.head in s.tcb)
      ensures rq.tcb == PushAll(s.tcb[task := t], s.head, task) && task in rq.tcb && task !in s.q
      ensures rq.Valid() && allHead == task && taskCount == s.count + 1 && all == [task] + s.all
      ensures AllLinks(rq.tcb, task, all)
    {
      hide Queue, AllLinks, Inv, PushAll;
      InvFacts(s);
      InvList(s);
      HeadIsOther(s, task);
      rq.tcb := rq.tcb[task := t];
      ghost var tcb1 := rq.tcb;
      AllLinksFrame(s.tcb, tcb1, allHead, all);
      PushAllLinks(tcb1, allHead, all, task);
      OnList(task);
      all := [task] + all;
      PushAllSame(tcb1, s.head, task);
      QueueFrame(rq.Q(), s.tcb, rq.tcb);
    }

    /** The call of `rq_push` for a new task, which a full queue ignores. */
    method Enqueue(t: nat)
      requires rq.Valid() && t in rq.tcb && t !in rq.Q()
      modifies rq, rq.data
      ensures rq.Valid() && OnlyIndices(old(rq.tcb), rq.tcb, multiset(rq.Q()))
      ensures multiset(rq.Q()) == old(multiset(rq.Q())) + (if old(rq.size) < MAX_TASKS then multiset{t} else multiset{})
      ensures t in rq.Q() <==> old(rq.size) < MAX_TASKS
    {
      hide Queue, OnlyIndices, KeysOf;
      rq.RqPush(t);
      assert t in rq.Q() <==> t in multiset(rq.Q());
    }

    /** `sched_exit`, up to the wait for the timer. */
    method Exit()
      requires Valid() && current != idle && rq.tcb[current].state == RUNNING
      modifies this, rq
      ensures Valid() && Exited(old(State()), State())
      ensures idle == old(idle) && ready == old(ready)
    {
      hide Queue, NewMin, AllLinks, Inv, UnlinkAll, Exited, Without, ZombieOnly;
      ghost var s := State();
      InvFacts(s);
      InvList(s);
      var t := current;
      ghost var k :| 0 <= k < |all| && all[k] == t;
      Neighbours(rq.tcb, allHead, all, k);
      NotOwnNeighbour(rq.tcb, allHead, all, k);
      UnlinkAllLinks(rq.tcb, allHead, all, k);
      rq.tcb := rq.tcb[t := rq.tcb[t].(state := ZOMBIE)];
      ghost var tcb1 := rq.tcb;
      OffList(t);
      sliceStart := 0;
      all := Without(all, k);
      UnlinkZombie(s.tcb, t, s.head, allHead, all, rq.tcb);
      ExitedIntro(s, State(), k);
      ExitKeepsInv(s, State());
      InvQueue(State());
    }

    /** The part of `sched_exit` that takes a task off the list of all tasks. */
    method OffList(t: nat)
      requires t in rq.tcb && rq.tcb[t].prevAll != t && rq.tcb[t].nextAll != t
      requires rq.tcb[t].prevAll != 0 ==> rq.tcb[t].prevAll in rq.tcb
      requires rq.tcb[t].nextAll != 0 ==> rq.tcb[t].nextAll in rq.tcb
      modifies rq`tcb, this`allHead, this`taskCount
      ensures rq.tcb == UnlinkAll(old(rq.tcb), t)
      ensures allHead == if old(allHead) == t then old(rq.tcb[t]).nextAll else old(allHead)
      ensures taskCount == old(taskCount) - 1
    {
      if rq.tcb[t].prevAll != 0 {
        rq.tcb := rq.tcb[rq.tcb[t].prevAll := rq.tcb[rq.tcb[t].prevAll].(nextAll := rq.tcb[t].nextAll)];
      }
      if rq.tcb[t].nextAll != 0 {
        rq.tcb := rq.tcb[rq.tcb[t].nextAll := rq.tcb[rq.tcb[t].nextAll].(prevAll := rq.tcb[t].prevAll)];
      }
      if allHead == t {
        allHead := rq.tcb[t].nextAll;
      }
      taskCount := taskCount - 1;
    }

    /** `sched_sleep_ns`, up to the wait for the timer. */
    method Sleep()
      requires Valid() && current != idle && rq.tcb[current].state == RUNNING
      modifies this`sliceStart, rq`tcb
      ensures Valid() && Slept(old(State()), State())
    {
      hide Queue, NewMin, AllLinks, Inv;
      ghost var s := State();
      InvFacts(s);
      rq.tcb := rq.tcb[current := rq.tcb[current].(state := SLEEPING)];
      sliceStart := 0;
      SleepKeepsInv(s, State());
      InvQueue(State());
    }

    /** `sched_yield`, up to the wait for the timer. */
    method Yield()
      requires Valid()
      modifies this`sliceStart
      ensures Valid() && State() == old(State()).(slice := 0)
    {
      hide Queue, NewMin, AllLinks;
      sliceStart := 0;
    }

    /**
     * `sched_wake`.  The invariant holds again unless the task that is woken is still current,
     * having gone to sleep but not been switched out: that one is then both current and queued.
     */
    method Wake(tid: nat)
      requires Valid()
      modifies this, rq, rq.data
      ensures rq.Valid() && idle == old(idle) && ready == old(ready)
      ensures Valid() <==> !old(Sleeper(State(), tid, current))
      ensures forall t :: old(Sleeper(State(), tid, t)) ==> Woken(old(State()), State(), t)
      ensures (forall t :: !old(Sleeper(State(), tid, t))) ==> State() == old(State())
    {
      hide Queue, NewMin, AllLinks, Inv, Woken;
      ghost var s := State();
      InvFacts(s);
      InvList(s);
      var t := allHead;
      ghost var k := 0;
      WalkAll(s, 0);
      while t != 0
        invariant Valid() && State() == s && ready == old(ready)
        invariant k <= |all| && t == At(all, k)
        invariant forall i :: 0 <= i < k ==> !Sleeper(s, tid, all[i])
        decreases |all| - k
      {
        WalkAll(s, k);
        if rq.tcb[t].tid == tid && rq.tcb[t].state == SLEEPING {
          WakeTask(t);
          OneSleeper(s, tid, t);
          return;
        }
        t := rq.tcb[t].nextAll;
        k := k + 1;
      }
      WalkAll(s, k);
      NoSleeper(s, tid);
    }

    /** The body of the branch of `sched_wake` that found its task. */
    method WakeTask(t: nat)
      requires Valid() && t in rq.tcb && rq.tcb[t].state == SLEEPING
      modifies this`minVruntime, rq, rq.data
      ensures rq.Valid() && Woken(old(State()), State(), t)
      ensures Inv(State()) <==> t != old(current)
    {
      hide Queue, NewMin, AllLinks, Inv, OnlyIndices, KeysOf, Woken;
      ghost var s := State();
      InvFacts(s);
      SleeperFacts(s, t);
      QueueHasRoom(s, t);
      rq.tcb := rq.tcb[t := rq.tcb[t].(state := RUNNABLE)];
      ghost var tcb1 := rq.tcb;
      QueueFrame(rq.Q(), s.tcb, tcb1);
      UpdateMinVruntime();
      MinIgnoresState(s, tcb1);
      if rq.tcb[t].vruntime < minVruntime {
        rq.tcb := rq.tcb[t := rq.tcb[t].(vruntime := minVruntime)];
      }
      ghost var tcb2 := rq.tcb;
      QueueFrame(rq.Q(), s.tcb, tcb2);
      rq.RqPush(t);
      WokenIntro(s, tcb2, State(), t);
      if t != current {
        WakeKeepsInv(s, State(), t);
      } else {
        WakeBreaksInv(s, State(), t);
      }
    }
  }

  /** The idle task: nice 19, at the frame on its stack, with what its memory held in the fields that are not set. */
  function IdleTask(stack: nat, raw: Task): Task {
    Task(0, RUNNABLE, 0, 15, InitialRsp(stack), raw.heapIdx, raw.nextAll, raw.prevAll, raw.totalRuntime, raw.switches)
  }

  /** The state that `sched_init` builds: the idle task is the only one, and current. */
  lemma InitialState(idle: nat, t: Task)
    requires idle != 0 && t.tid == 0 && t.state == RUNNABLE && t.weight == PrioToWeight(PRIO_MAX)
    ensures Queue([], map[idle := t]) && t.weight == 15
    ensures Inv(Sched(map[idle := t], [], idle, idle, idle, 1, 1, 0, 0, [idle])) <==> t.nextAll == 0 && t.prevAll == 0
  {
    hide MinHeap, Keyed;
    EmptyQueue(map[idle := t]);
  }

  lemma EmptyQueue(tcb: Tcbs)
    ensures Queue([], tcb)
  {
  }

  /** A timer interrupt: a switch, or nothing. */
  ghost predicate Ticked(s: Sched, s': Sched, tsc: nat, now: nat, frame: nat, rsp: nat) {
    if NeedSwitch(s, DeltaNs(s, tsc)) then Switched(s, s', now, frame, rsp) else s' == s && rsp == frame
  }

  /** A current task that is not queued has been charged. */
  ghost predicate ChargedOnly(s: Sched, s': Sched, now: nat) {
    && s.current in s.tcb && s.tcb[s.current].weight > 0 && s.current !in s.q && (|s.q| > 0 ==> s.q[0] in s.tcb)
    && s' == Charged(s, now)
  }

  lemma ChargedFacts(s: Sched, s': Sched, now: nat)
    requires ChargedOnly(s, s', now)
    ensures s.current in s.tcb && s'.current == s.current && s.current in s'.tcb
    ensures s' == s.(tcb := s.tcb[s.current := s.tcb[s.current].(
      vruntime := s'.tcb[s.current].vruntime, totalRuntime := s'.tcb[s.current].totalRuntime)])
  {
    hide Wrap;
  }

  lemma InvFacts(s: Sched)
    requires Inv(s)
    ensures s.current in s.tcb && s.idle in s.tcb && 0 !in s.tcb && s.tcb[s.current].weight > 0
    ensures s.current != s.idle ==> s.current !in s.q
    ensures s.idle !in s.q && 0 !in s.q
    ensures forall t :: t in s.q ==> t in s.tcb
  {
    hide MinHeap;
  }

  lemma QueueHead(s: Sched)
    ensures |s.q| > 0 ==> s.q[0] in s.q
  {
  }

  /** The state in which the interrupted task can be saved. */
  ghost predicate ParkReady(s: Sched) {
    && s.current in s.tcb && s.idle in s.tcb && s.idle !in s.q && |s.q| <= MAX_TASKS
    && s.current !in s.q && (Requeues(s) ==> |s.q| < MAX_TASKS)
    && (forall t :: t in s.q ==> t in s.tcb) && 0 !in s.tcb
  }

  lemma ParkIsReady(s: Sched, s1: Sched, s2: Sched, now: nat)
    requires Inv(s) && ChargedOnly(s, s1, now) && s2 == s1.(minV := s2.minV)
    requires Queue(s1.q, s1.tcb)
    ensures ParkReady(s2)
  {
    hide Queue, AllLinks, Charged;
    InvFacts(s);
    ChargedFacts(s, s1, now);
    if Requeues(s) {
      QueueHasRoom(s, s.current);
    } else {
      QueueBounded(s);
    }
  }

  lemma QueueBounded(s: Sched)
    requires Inv(s)
    ensures |s.q| <= MAX_TASKS
  {
    hide MinHeap, AllLinks;
  }

  /** The interrupted task is saved, and queued if it was running. */
  ghost predicate Parked(s: Sched, s': Sched, frame: nat) {
    && s.current in s.tcb && SameTasks(s, s') && s'.current == s.current && s'.minV == s.minV && s'.slice == s.slice
    && multiset(s'.q) == Candidates(s)
    && (forall t :: t in s.tcb ==> s'.tcb[t].vruntime == s.tcb[t].vruntime)
    && (forall t :: t in s.tcb ==> s'.tcb[t].totalRuntime == s.tcb[t].totalRuntime && s'.tcb[t].switches == s.tcb[t].switches)
    && (forall t :: t in s.tcb ==> s'.tcb[t].rsp == if t == s.current then frame else s.tcb[t].rsp)
    && (forall t :: t in s.tcb ==>
          s'.tcb[t].state == if t == s.current && s.tcb[t].state == RUNNING then RUNNABLE else s.tcb[t].state)
  }

  lemma ParkedIntro(s: Sched, tcb2: Tcbs, s': Sched, frame: nat)
    requires ParkReady(s) && OnlyIndices(tcb2, s'.tcb, multiset(s'.q))
    requires var p := s.tcb[s.current];
      tcb2 == s.tcb[s.current := p.(rsp := frame, state := if p.state == RUNNING then RUNNABLE else p.state)]
    requires s' == s.(tcb := s'.tcb, q := s'.q) && multiset(s'.q) == Candidates(s)
    ensures Parked(s, s', frame)
  {
  }

  /** The next task is current; it was the least of the queue, or idle when the queue was empty. */
  ghost predicate Taken(s: Sched, s': Sched) {
    && SameTasks(s, s') && s'.current in s.tcb && s'.minV == s.minV && s'.slice == s.slice
    && (if s'.current == s.idle then s.q == [] else s'.current in s.q)
    && multiset(s'.q) == multiset(s.q) - multiset{s'.current}
    && (forall t :: t in s'.q ==> t in s'.tcb && s'.tcb[s'.current].vruntime <= s'.tcb[t].vruntime)
    && (forall t :: t in s.tcb ==> s'.tcb[t].vruntime == s.tcb[t].vruntime && s'.tcb[t].rsp == s.tcb[t].rsp)
    && (forall t :: t in s.tcb ==> s'.tcb[t].state == if t == s'.current then RUNNING else s.tcb[t].state)
    && (forall t :: t in s.tcb ==> s'.tcb[t].totalRuntime == s.tcb[t].totalRuntime)
    && (forall t :: t in s.tcb ==>
          s'.tcb[t].switches == if t == s'.current then Wrap(s.tcb[t].switches + 1) else s.tcb[t].switches)
  }

  lemma PopFacts(q: seq<nat>, tcb: Tcbs, q': seq<nat>, tcb': Tcbs, top: nat)
    requires 0 !in tcb && (forall t :: t in q ==> t in tcb) && OnlyIndices(tcb, tcb', multiset(q))
    requires if q == [] then top == 0 && q' == q
             else top == q[0] && multiset(q') == multiset(q) - multiset{top}
    ensures forall t :: t in q' ==> t in q && t in tcb'
    ensures forall t :: t in tcb <==> t in tcb'
    ensures top == 0 <==> q == []
  {
    forall t | t in q'
      ensures t in q
    {
      assert t in multiset(q');
    }
  }

  lemma StartedQueue(q: seq<nat>, tcb: Tcbs, next: nat)
    requires Queue(q, tcb) && next in tcb && forall t :: t in q ==> t in tcb
    ensures Queue(q, tcb[next := tcb[next].(state := RUNNING, switches := Wrap(tcb[next].switches + 1))])
  {
    hide Queue;
    QueueFrame(q, tcb, tcb[next := tcb[next].(state := RUNNING, switches := Wrap(tcb[next].switches + 1))]);
  }

  lemma NothingLess(q: seq<nat>, idle: nat)
    requires q == []
    ensures multiset(q) == multiset(q) - multiset{idle}
  {
  }

  lemma TakenFields(s: Sched, tcb1: Tcbs, n: nat, tcb2: Tcbs)
    requires OnlyIndices(s.tcb, tcb1, multiset(s.q)) && n in tcb1
    requires tcb2 == tcb1[n := tcb1[n].(state := RUNNING, switches := Wrap(tcb1[n].switches + 1))]
    ensures n in s.tcb && forall t :: t in tcb2 <==> t in s.tcb
    ensures forall t :: t in s.tcb ==>
      && tcb2[t].tid == s.tcb[t].tid && tcb2[t].weight == s.tcb[t].weight
      && tcb2[t].nextAll == s.tcb[t].nextAll && tcb2[t].prevAll == s.tcb[t].prevAll
      && tcb2[t].vruntime == s.tcb[t].vruntime && tcb2[t].rsp == s.tcb[t].rsp
      && tcb2[t].state == (if t == n then RUNNING else s.tcb[t].state)
      && tcb2[t].totalRuntime == s.tcb[t].totalRuntime
      && tcb2[t].switches == (if t == n then Wrap(s.tcb[t].switches + 1) else s.tcb[t].switches)
  {
  }

  lemma TakenIntro(s: Sched, tcb1: Tcbs, s': Sched)
    requires OnlyIndices(s.tcb, tcb1, multiset(s.q)) && s.idle !in s.q && s'.current in tcb1
    requires if s.q == [] then s'.current == s.idle && s'.q == [] else s'.current == s.q[0]
    requires multiset(s'.q) == multiset(s.q) - multiset{s'.current}
    requires forall t :: t in s'.q ==> t in tcb1 && tcb1[s'.current].vruntime <= tcb1[t].vruntime
    requires var n := tcb1[s'.current];
      s' == s.(tcb := tcb1[s'.current := n.(state := RUNNING, switches := Wrap(n.switches + 1))], q := s'.q, current := s'.current)
    ensures Taken(s, s')
  {
    hide OnlyIndices;
    TakenFields(s, tcb1, s'.current, s'.tcb);
  }

  lemma TakeIsReady(s: Sched, s': Sched, frame: nat)
    requires ParkReady(s) && Parked(s, s', frame)
    ensures s'.idle in s'.tcb && s'.idle !in s'.q && 0 !in s'.tcb && forall t :: t in s'.q ==> t in s'.tcb
  {
    forall t | t in s'.q
      ensures t in s'.tcb && t != s'.idle
    {
      assert t in multiset(s'.q);
      assert t in s.q || t == s.current;
    }
  }

  lemma SwitchedSaved(s: Sched, s1: Sched, s2: Sched, s3: Sched, s': Sched, now: nat, frame: nat)
    requires ChargedOnly(s, s1, now) && s2 == s1.(minV := s2.minV)
    requires Parked(s2, s3, frame) && Taken(s3, s'.(slice := s3.slice))
    ensures s'.current in s.tcb && SameTasks(s, s') && Saved(s, s', s.current, s'.current, frame)
    ensures forall t :: t in s.tcb && t != s.current ==> s'.tcb[t].vruntime == s.tcb[t].vruntime
    ensures s.current in s1.tcb && s'.tcb[s.current].vruntime == s1.tcb[s.current].vruntime
  {
    hide Candidates, Charged, Parked, Taken, Saved;
    ChargedFacts(s, s1, now);
    MovedTasks(s2, s3, s', frame);
    ChargedThenMoved(s, s1, s2, s', frame);
  }

  /** What parking and taking together do to the tasks. */
  lemma MovedTasks(s2: Sched, s3: Sched, s': Sched, frame: nat)
    requires Parked(s2, s3, frame) && Taken(s3, s'.(slice := s3.slice))
    ensures s2.current in s2.tcb && s'.current in s2.tcb && SameTasks(s2, s')
    ensures Saved(s2, s', s2.current, s'.current, frame)
    ensures forall t :: t in s2.tcb ==> t in s'.tcb && s'.tcb[t].vruntime == s2.tcb[t].vruntime
  {
    hide Candidates;
  }

  lemma ChargedThenMoved(s: Sched, s1: Sched, s2: Sched, s': Sched, frame: nat)
    requires s.current in s.tcb && s1.current == s.current && s.current in s1.tcb && s2 == s1.(minV := s2.minV)
    requires s1 == s.(tcb := s.tcb[s.current := s.tcb[s.current].(
      vruntime := s1.tcb[s.current].vruntime, totalRuntime := s1.tcb[s.current].totalRuntime)])
    requires s'.current in s2.tcb && SameTasks(s2, s') && Saved(s2, s', s2.current, s'.current, frame)
    requires forall t :: t in s2.tcb ==> t in s'.tcb && s'.tcb[t].vruntime == s2.tcb[t].vruntime
    ensures s'.current in s.tcb && SameTasks(s, s') && Saved(s, s', s.current, s'.current, frame)
    ensures forall t :: t in s.tcb && t != s.current ==> s'.tcb[t].vruntime == s.tcb[t].vruntime
    ensures s'.tcb[s.current].vruntime == s1.tcb[s.current].vruntime
  {
  }

  lemma SwitchedIntro(s: Sched, s1: Sched, s2: Sched, s3: Sched, s': Sched, now: nat, frame: nat, rsp: nat)
    requires ChargedOnly(s, s1, now) && s1.current in s1.tcb && (|s1.q| > 0 ==> s1.q[0] in s1.tcb)
    requires s2 == s1.(minV := NewMin(s1))
    requires Parked(s2, s3, frame) && Taken(s3, s'.(slice := s3.slice)) && s3.idle !in s3.q && s'.slice == now
    requires s'.current in s'.tcb && rsp == s'.tcb[s'.current].rsp
    ensures Switched(s, s', now, frame, rsp)
  {
    hide Saved, Charged, NewMin, Parked, Taken, Candidates;
    ChargedFacts(s, s1, now);
    SwitchedLeast(s2, s3, s', frame);
    SwitchedSaved(s, s1, s2, s3, s', now, frame);
    SwitchedCounts(s, s1, s2, s3, s', now, frame);
    SwitchedChoice(s, s2, s3, s', frame);
  }

  lemma SwitchedCounts(s: Sched, s1: Sched, s2: Sched, s3: Sched, s': Sched, now: nat, frame: nat)
    requires ChargedOnly(s, s1, now) && s2 == s1.(minV := s2.minV) && SameTasks(s, s')
    requires Parked(s2, s3, frame) && Taken(s3, s'.(slice := s3.slice))
    ensures s.current in s.tcb && s.tcb[s.current].weight > 0 && Counted(s, s', s.current, s'.current, now)
  {
    hide Candidates, Charged, SameTasks, Wrap;
    ChargedFacts(s, s1, now);
    MovedCounts(s1, s3, s', s2, frame);
  }

  lemma MovedCounts(s1: Sched, s3: Sched, s': Sched, s2: Sched, frame: nat)
    requires s2 == s1.(minV := s2.minV) && Parked(s2, s3, frame) && Taken(s3, s'.(slice := s3.slice))
    ensures forall t :: t in s1.tcb ==> t in s'.tcb && s'.tcb[t].totalRuntime == s1.tcb[t].totalRuntime
    ensures forall t :: t in s1.tcb ==>
      s'.tcb[t].switches == if t == s'.current then Wrap(s1.tcb[t].switches + 1) else s1.tcb[t].switches
  {
    hide Candidates, Wrap;
  }

  lemma SwitchedLeast(s2: Sched, s3: Sched, s': Sched, frame: nat)
    requires Parked(s2, s3, frame) && Taken(s3, s'.(slice := s3.slice))
    ensures s'.minV == s2.minV && forall t :: t in s'.q ==> t in s'.tcb && s'.tcb[s'.current].vruntime <= s'.tcb[t].vruntime
  {
    hide Candidates;
  }

  lemma SwitchedChoice(s: Sched, s2: Sched, s3: Sched, s': Sched, frame: nat)
    requires s.current in s.tcb && s2.current in s2.tcb && s2.q == s.q && s2.current == s.current && s2.idle == s.idle
    requires s2.tcb[s.current].state == s.tcb[s.current].state
    requires Parked(s2, s3, frame) && Taken(s3, s'.(slice := s3.slice)) && s3.idle !in s3.q
    ensures if s'.current == s.idle then Candidates(s) == multiset{} else s'.current in Candidates(s)
    ensures multiset(s'.q) == Candidates(s) - multiset{s'.current}
  {
    assert Candidates(s) == Candidates(s2);
    if s'.current == s.idle {
      assert s3.q == [];
    } else {
      assert s'.current in multiset(s3.q);
    }
  }

  // ---------------------------------------------------------------- consequences of the invariant

  lemma InvList(s: Sched)
    requires Inv(s)
    ensures AllLinks(s.tcb, s.head, s.all) && s.count == |s.all| && s.idle in s.all
    ensures forall t :: t in s.tcb ==> (t in s.all <==> s.tcb[t].state != ZOMBIE)
    ensures forall t :: t in s.all ==> t in s.tcb
  {
    hide Queue;
  }

  lemma InvQueue(s: Sched)
    requires Inv(s)
    ensures Queue(s.q, s.tcb)
  {
    hide Queue, AllLinks;
  }

  lemma CountersInv(s: Sched, s': Sched)
    requires Inv(s) && s' == s.(nextTid := s'.nextTid, minV := s'.minV) && s'.nextTid == (s.nextTid + 1) % TWO_32
    ensures Inv(s') <==> s.nextTid + 1 < TWO_32
  {
    hide Queue, AllLinks;
    if s.nextTid + 1 >= TWO_32 {
      assert s'.nextTid == 0 && s.idle in s'.tcb;
    }
  }

  lemma CreateOutcome(s: Sched, s': Sched, t: nat, prio: int, rsp: nat)
    requires Inv(s) && Created(s, s', t, prio, rsp)
    requires Queue(s'.q, s'.tcb) && AllLinks(s'.tcb, t, [t] + s.all)
    ensures Inv(s') <==> s.nextTid + 1 < TWO_32 && |s.all| <= MAX_TASKS
  {
    hide Inv, Created, Queue, AllLinks;
    if s.nextTid + 1 < TWO_32 && |s.all| <= MAX_TASKS {
      QueueIsShort(s);
      CreateKeepsInv(s, s', t, prio, rsp);
    } else {
      CreateBreaksInv(s, s', t, prio, rsp);
    }
  }

  /** The value of a 32-bit unsigned number as a signed one. */
  function ToInt32(n: nat): (r: int)
    ensures n < TWO_32 ==> -0x8000_0000 <= r < 0x8000_0000 && (r == n || r == n - TWO_32)
  {
    if n < 0x8000_0000 then n else n - TWO_32
  }

  lemma QueueIsShort(s: Sched)
    requires Inv(s) && |s.all| <= MAX_TASKS
    ensures |s.q| < MAX_TASKS
  {
    hide Queue, AllLinks;
    QueueDistinct(s);
    ListDistinct(s);
    ElementsSize(s.q);
    ElementsSize(s.all);
    QueuedAreLive(s);
    ShorterThan(s.q, s.all, s.idle);
  }

  lemma QueuedAreLive(s: Sched)
    requires Inv(s)
    ensures s.idle in s.all && s.idle !in s.q && forall t :: t in s.q ==> t in s.all
  {
    hide AllLinks, MinHeap;
  }

  lemma ShorterThan(q: seq<nat>, l: seq<nat>, u: nat)
    requires |Elements(q)| == |q| && |Elements(l)| == |l| && u !in q && u in l && forall x :: x in q ==> x in l
    ensures |q| < |l|
  {
    hide Elements;
    SubsetSize(Elements(q) + {u}, Elements(l));
  }

  // ---------------------------------------------------------------- creation

  lemma PushAllSame(tcb: Tcbs, head: nat, t: nat)
    requires t in tcb && (head != 0 ==> head in tcb) && head != t
    ensures var tcb' := PushAll(tcb, head, t);
      && (forall u :: u in tcb' <==> u in tcb)
      && (forall u :: u in tcb && u != t ==> tcb'[u].(prevAll := 0) == tcb[u].(prevAll := 0))
      && tcb'[t] == tcb[t].(nextAll := head)
  {
  }

  /** A task control block as `sched_create_kthread` fills it in. */
  ghost predicate NewTask(s: Sched, t: Task, prio: int, minV: nat) {
    && s.current in s.tcb && (|s.q| > 0 ==> s.q[0] in s.tcb) && minV == NewMin(s)
    && t == Task(s.nextTid, RUNNABLE, minV, PrioToWeight(prio), t.rsp, -1, 0, 0, 0, 0)
  }

  lemma NewTaskLinks(s: Sched, t: Task, prio: int, minV: nat)
    requires NewTask(s, t, prio, minV)
    ensures t.prevAll == 0 && minV == NewMin(s)
  {
    hide NewMin, PrioToWeight;
  }

  lemma HeadIsOther(s: Sched, t: nat)
    requires Inv(s) && t !in s.tcb && t != 0
    ensures s.head != t && (s.head != 0 ==> s.head in s.tcb)
  {
    hide Queue;
  }

  lemma CreatedIntro(s: Sched, task: Task, tcb1: Tcbs, tcb2: Tcbs, s': Sched, t: nat, prio: int, rsp: nat)
    requires t != 0 && t !in s.tcb && s.current in s.tcb && (|s.q| > 0 ==> s.q[0] in s.tcb)
    requires s.current in s.tcb && NewTask(s, task, prio, NewMin(s)) && task.rsp == rsp
    requires tcb1 == s.tcb[t := task] && s.head != t && (s.head != 0 ==> s.head in s.tcb) && tcb2 == PushAll(tcb1, s.head, t)
    requires OnlyIndices(tcb2, s'.tcb, multiset(s'.q)) && multiset(s'.q) == multiset(s.q) + (if |s.q| < MAX_TASKS then multiset{t} else multiset{})
    requires s' == s.(tcb := s'.tcb, q := s'.q, head := t, count := s.count + 1,
                      nextTid := (s.nextTid + 1) % TWO_32, minV := NewMin(s), all := [t] + s.all)
    ensures Created(s, s', t, prio, rsp)
  {
    hide NewMin, PrioToWeight, PushAll;
    PushAllSame(tcb1, s.head, t);
    CreatedFields(s, task, tcb1, tcb2, s'.tcb, multiset(s'.q), t);
  }

  lemma CreatedFields(s: Sched, task: Task, tcb1: Tcbs, tcb2: Tcbs, tcb3: Tcbs, q: multiset<nat>, t: nat)
    requires t !in s.tcb && tcb1 == s.tcb[t := task] && OnlyIndices(tcb2, tcb3, q)
    requires forall u :: u in tcb2 <==> u in tcb1
    requires forall u :: u in tcb1 && u != t ==> tcb2[u].(prevAll := 0) == tcb1[u].(prevAll := 0)
    requires tcb2[t] == tcb1[t].(nextAll := s.head)
    ensures forall u :: u in tcb3 <==> u in s.tcb || u == t
    ensures forall u :: u in s.tcb ==> tcb3[u].(heapIdx := 0, prevAll := 0) == s.tcb[u].(heapIdx := 0, prevAll := 0)
    ensures tcb3[t].tid == task.tid && tcb3[t].state == task.state && tcb3[t].vruntime == task.vruntime
    ensures tcb3[t].weight == task.weight && tcb3[t].rsp == task.rsp
  {
    forall u | u in s.tcb
      ensures tcb3[u].(heapIdx := 0, prevAll := 0) == s.tcb[u].(heapIdx := 0, prevAll := 0)
    {
      assert tcb3[u] == tcb2[u].(heapIdx := tcb3[u].heapIdx);
      assert tcb2[u].(prevAll := 0) == s.tcb[u].(prevAll := 0);
      SameButTwo(s.tcb[u], tcb2[u], tcb3[u]);
    }
  }

  lemma SameButTwo(a: Task, b: Task, c: Task)
    requires b.(prevAll := 0) == a.(prevAll := 0) && c == b.(heapIdx := c.heapIdx)
    ensures c.(heapIdx := 0, prevAll := 0) == a.(heapIdx := 0, prevAll := 0)
  {
  }

  lemma LinksAfterIndices(tcb: Tcbs, tcb': Tcbs, q: multiset<nat>, head: nat, l: seq<nat>)
    requires AllLinks(tcb, head, l) && OnlyIndices(tcb, tcb', q)
    ensures AllLinks(tcb', head, l)
  {
    AllLinksFrame(tcb, tcb', head, l);
  }

  // ---------------------------------------------------------------- exit

  lemma NotOwnNeighbour(tcb: Tcbs, head: nat, l: seq<nat>, k: nat)
    requires AllLinks(tcb, head, l) && k < |l| && l[k] in tcb
    ensures tcb[l[k]].prevAll != l[k] && tcb[l[k]].nextAll != l[k] && l[k] !in Without(l, k)
  {
    WithoutMembers(l, k);
  }

  /** Only the state of `t` and list links differ. */
  ghost predicate ZombieOnly(tcb: Tcbs, t: nat, tcb': Tcbs) {
    && (forall u :: u in tcb' <==> u in tcb)
    && (forall u :: u in tcb ==>
          tcb'[u].(nextAll := 0, prevAll := 0) ==
          tcb[u].(nextAll := 0, prevAll := 0, state := if u == t then ZOMBIE else tcb[u].state))
  }

  lemma UnlinkZombie(tcb: Tcbs, t: nat, head: nat, head': nat, l': seq<nat>, tcb': Tcbs)
    requires t in tcb && (tcb[t].prevAll != 0 ==> tcb[t].prevAll in tcb) && (tcb[t].nextAll != 0 ==> tcb[t].nextAll in tcb)
    requires tcb[t].prevAll != t && tcb[t].nextAll != t
    requires AllLinks(UnlinkAll(tcb, t), head', l') && t !in l'
    requires tcb' == UnlinkAll(tcb[t := tcb[t].(state := ZOMBIE)], t)
    ensures AllLinks(tcb', head', l') && ZombieOnly(tcb, t, tcb')
  {
    hide AllLinks, UnlinkAll, ZombieOnly;
    StateThenUnlink(tcb, t);
    UnlinkOnlyLinks(tcb, t);
    ListedIn(UnlinkAll(tcb, t), head', l');
    AllLinksFrame(UnlinkAll(tcb, t), tcb', head', l');
    ZombieIntro(tcb, t, UnlinkAll(tcb, t), tcb');
  }

  lemma ListedIn(tcb: Tcbs, head: nat, l: seq<nat>)
    requires AllLinks(tcb, head, l)
    ensures forall u :: u in l ==> u in tcb
  {
  }

  lemma StateThenUnlink(tcb: Tcbs, t: nat)
    requires t in tcb && (tcb[t].prevAll != 0 ==> tcb[t].prevAll in tcb) && (tcb[t].nextAll != 0 ==> tcb[t].nextAll in tcb)
    requires tcb[t].prevAll != t && tcb[t].nextAll != t
    ensures var m := UnlinkAll(tcb, t);
      t in m && UnlinkAll(tcb[t := tcb[t].(state := ZOMBIE)], t) == m[t := m[t].(state := ZOMBIE)]
  {
  }

  lemma UnlinkOnlyLinks(tcb: Tcbs, t: nat)
    requires t in tcb && (tcb[t].prevAll != 0 ==> tcb[t].prevAll in tcb) && (tcb[t].nextAll != 0 ==> tcb[t].nextAll in tcb)
    ensures var m := UnlinkAll(tcb, t);
      && (forall u :: u in m <==> u in tcb)
      && (forall u :: u in tcb ==> m[u].(nextAll := 0, prevAll := 0) == tcb[u].(nextAll := 0, prevAll := 0))
  {
  }

  lemma ZombieIntro(tcb: Tcbs, t: nat, m: Tcbs, tcb': Tcbs)
    requires t in m && tcb' == m[t := m[t].(state := ZOMBIE)]
    requires forall u :: u in m <==> u in tcb
    requires forall u :: u in tcb ==> m[u].(nextAll := 0, prevAll := 0) == tcb[u].(nextAll := 0, prevAll := 0)
    ensures ZombieOnly(tcb, t, tcb')
  {
  }

  lemma ExitedIntro(s: Sched, s': Sched, k: nat)
    requires s.current in s.tcb && ZombieOnly(s.tcb, s.current, s'.tcb)
    requires k < |s.all| && s.all[k] == s.current
    requires s' == s.(tcb := s'.tcb, head := s'.head, count := s.count - 1, slice := 0, all := Without(s.all, k))
    ensures Exited(s, s')
  {
    hide Without;
  }

  // ---------------------------------------------------------------- wake

  lemma WalkAll(s: Sched, k: nat)
    requires Inv(s)
    ensures s.head == At(s.all, 0)
    ensures k < |s.all| ==> s.all[k] in s.tcb && s.all[k] != 0 && s.tcb[s.all[k]].nextAll == At(s.all, k + 1)
  {
    hide Queue;
  }

  lemma OneSleeper(s: Sched, tid: nat, t: nat)
    requires Inv(s) && Sleeper(s, tid, t)
    ensures forall u :: Sleeper(s, tid, u) ==> u == t
  {
    hide Queue, AllLinks;
  }

  lemma NoSleeper(s: Sched, tid: nat)
    requires Inv(s) && forall i :: 0 <= i < |s.all| ==> !Sleeper(s, tid, s.all[i])
    ensures forall t :: !Sleeper(s, tid, t)
  {
    InvList(s);
    hide Queue, AllLinks, Inv;
  }

  lemma SleeperFacts(s: Sched, t: nat)
    requires Inv(s) && t in s.tcb && s.tcb[t].state == SLEEPING
    ensures t !in s.q && t != s.idle
  {
    hide Queue, AllLinks;
  }

  lemma MinIgnoresTid(s: Sched, n: nat)
    requires s.current in s.tcb && (|s.q| > 0 ==> s.q[0] in s.tcb)
    ensures NewMin(s.(nextTid := n)) == NewMin(s)
  {
  }

  lemma MinIgnoresState(s: Sched, tcb1: Tcbs)
    requires s.current in s.tcb && s.current in tcb1 && tcb1[s.current].vruntime == s.tcb[s.current].vruntime
    requires |s.q| > 0 ==> s.q[0] in s.tcb && s.q[0] in tcb1 && tcb1[s.q[0]].vruntime == s.tcb[s.q[0]].vruntime
    ensures NewMin(s.(tcb := tcb1)) == NewMin(s)
  {
  }

  lemma WokenIntro(s: Sched, tcb2: Tcbs, s': Sched, t: nat)
    requires t in s.tcb && s.current in s.tcb && (|s.q| > 0 ==> s.q[0] in s.tcb)
    requires tcb2 == s.tcb[t := s.tcb[t].(state := RUNNABLE,
      vruntime := if s.tcb[t].vruntime < NewMin(s) then NewMin(s) else s.tcb[t].vruntime)]
    requires OnlyIndices(tcb2, s'.tcb, multiset(s'.q)) && multiset(s'.q) == multiset(s.q) + multiset{t}
    requires s' == s.(tcb := s'.tcb, q := s'.q, minV := NewMin(s))
    ensures Woken(s, s', t)
  {
    hide NewMin;
  }
}
