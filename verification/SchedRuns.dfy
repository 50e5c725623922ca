/** What every run of the scheduler keeps. */
module SchedRuns {
  import opened Common
  import opened RunQueue
  import opened SchedState
  import S = Scheduler

  /** One critical section, with the results that matter. */
  datatype Event =
    | Tick(tsc: nat, now: nat, frame: nat, rsp: nat)
    | Create(task: nat, prio: int, stackRsp: nat)
    | CreateFails
    | Exit
    | Sleep
    | Yield
    | Wake(tid: nat)

  /**
   * One step, as the contracts of `Scheduler` state it: what the section does, and that the run
   * queue and the list of all tasks are well formed again.  Calls are made by a running current
   * task, and tasks are created within the limits.
   */
  ghost predicate Step(s: Sched, e: Event, s': Sched) {
    && Queue(s'.q, s'.tcb) && AllLinks(s'.tcb, s'.head, s'.all)
    && match e
       case Tick(tsc, now, frame, rsp) => S.Ticked(s, s', tsc, now, frame, rsp)
       case Create(task, prio, rsp) => Created(s, s', task, prio, rsp) && HasRoom(s)
       case CreateFails =>
         && s.current in s.tcb && (|s.q| > 0 ==> s.q[0] in s.tcb)
         && s' == s.(nextTid := s.nextTid + 1, minV := NewMin(s)) && s'.nextTid < TWO_32
       case Exit => s.current != s.idle && Runs(s) && Exited(s, s')
       case Sleep => s.current != s.idle && Runs(s) && Slept(s, s')
       case Yield => s' == s.(slice := 0)
       case Wake(tid) =>
         if forall t :: !Sleeper(s, tid, t) then s' == s else exists t :: Sleeper(s, tid, t) && t != s.current && Woken(s, s', t)
  }

  /** There is room for one more task, and an identifier for it. */
  ghost predicate HasRoom(s: Sched) {
    |s.all| <= MAX_TASKS && s.nextTid + 1 < TWO_32
  }

  ghost predicate Runs(s: Sched) {
    s.current in s.tcb && s.tcb[s.current].state == RUNNING
  }

  ghost predicate Run(states: seq<Sched>, events: seq<Event>) {
    && |states| == |events| + 1
    && forall i :: 0 <= i < |events| ==> Step(states[i], events[i], states[i + 1])
  }

  lemma RunSuffix(states: seq<Sched>, events: seq<Event>, k: nat)
    requires Run(states, events) && k <= |events|
    ensures Run(states[k..], events[k..])
  {
    hide Step;
  }

  ghost predicate Zombie(s: Sched, t: nat) {
    t in s.tcb && s.tcb[t].state == ZOMBIE
  }

  // ---------------------------------------------------------------- the invariant

  /** Every step keeps the invariant. */
  lemma StepKeepsInv(s: Sched, e: Event, s': Sched)
    requires Inv(s) && Step(s, e, s')
    ensures Inv(s')
  {
    hide Inv, Queue, AllLinks, Created, Switched, Exited, Slept, Woken, NeedSwitch, NewMin;
    match e
    case Tick(tsc, now, frame, rsp) =>
      if NeedSwitch(s, DeltaNs(s, tsc)) {
        SwitchKeepsInv(s, s', now, frame, rsp);
      }
    case Create(task, prio, rsp) =>
      S.QueueIsShort(s);
      CreatedAtFront(s, s', task, prio, rsp);
      CreateKeepsInv(s, s', task, prio, rsp);
    case CreateFails =>
      S.CountersInv(s, s');
    case Exit =>
      ExitKeepsInv(s, s');
    case Sleep =>
      SleepKeepsInv(s, s');
    case Yield =>
      SliceInv(s, s');
    case Wake(tid) =>
      if exists t :: Sleeper(s, tid, t) {
        var t :| Sleeper(s, tid, t) && t != s.current && Woken(s, s', t);
        S.SleeperFacts(s, t);
        WakeKeepsInv(s, s', t);
      }
  }

  lemma CreatedAtFront(s: Sched, s': Sched, t: nat, prio: int, rsp: nat)
    requires Created(s, s', t, prio, rsp)
    ensures s'.head == t && s'.all == [t] + s.all
  {
    hide NewMin, PrioToWeight;
  }

  /** The slice start is no part of the invariant. */
  lemma SliceInv(s: Sched, s': Sched)
    requires Inv(s) && s' == s.(slice := s'.slice)
    ensures Inv(s')
  {
    hide Queue, AllLinks;
  }

  /** A run from a state with the invariant has it at every state. */
  lemma {:induction false} RunInv(states: seq<Sched>, events: seq<Event>, k: nat)
    requires Run(states, events) && Inv(states[0]) && k <= |events|
    ensures Inv(states[k])
    decreases k
  {
    hide Inv, Step;
    if k > 0 {
      RunInv(states, events, k - 1);
      assert Step(states[k - 1], events[k - 1], states[k]);
      StepKeepsInv(states[k - 1], events[k - 1], states[k]);
    }
  }

  // ---------------------------------------------------------------- single steps

  /** Tasks stay. */
  lemma StepTasks(s: Sched, e: Event, s': Sched, t: nat)
    requires Step(s, e, s') && t in s.tcb
    ensures t in s'.tcb
  {
    hide Queue, AllLinks, NewMin, PrioToWeight, Without, Candidates;
  }

  /** A task that has exited stays exited, and once switched out is never current again. */
  lemma StepZombie(s: Sched, e: Event, s': Sched, t: nat)
    requires Inv(s) && Step(s, e, s')
    ensures Zombie(s, t) ==> Zombie(s', t)
    ensures Zombie(s, t) && s.current != t ==> s'.current != t
    ensures Zombie(s, t) && e.Tick? && NeedSwitch(s, DeltaNs(s, e.tsc)) ==> s'.current != t
  {
    hide Inv, AllLinks, Queue, NewMin, PrioToWeight, Without, Candidates, Switched, NeedSwitch;
    if Zombie(s, t) && e.Tick? && NeedSwitch(s, DeltaNs(s, e.tsc)) {
      SwitchZombie(s, s', e.now, e.frame, e.rsp, t);
    }
  }

  lemma SwitchZombie(s: Sched, s': Sched, now: nat, frame: nat, rsp: nat, t: nat)
    requires Inv(s) && Switched(s, s', now, frame, rsp) && Zombie(s, t)
    ensures Zombie(s', t) && s'.current != t
  {
    hide Queue, Listing, Ids, Candidates, Timed, Resumed;
    SwitchMembers(s, s', now, frame, rsp);
  }

  /** The saved stack pointer of a task changes only when it is interrupted. */
  lemma StepRsp(s: Sched, e: Event, s': Sched, t: nat)
    requires Step(s, e, s') && t in s.tcb && t != s.current
    ensures t in s'.tcb && s'.tcb[t].rsp == s.tcb[t].rsp
    ensures s'.current == t ==> e.Tick? && e.rsp == s.tcb[t].rsp
  {
    hide Inv, NewMin, PrioToWeight, Without, Candidates;
  }

  lemma StepMin(s: Sched, e: Event, s': Sched)
    requires Step(s, e, s')
    ensures s'.minV >= s.minV
  {
    hide Inv, PrioToWeight, Without, Candidates;
  }

  // ---------------------------------------------------------------- whole runs

  /** `min_vruntime` never decreases over a run. */
  lemma {:induction false} RunMin(states: seq<Sched>, events: seq<Event>)
    requires Run(states, events)
    ensures states[|events|].minV >= states[0].minV
    decreases |events|
  {
    hide Step;
    if |events| > 0 {
      assert Step(states[0], events[0], states[1]);
      StepMin(states[0], events[0], states[1]);
      RunSuffix(states, events, 1);
      RunMin(states[1..], events[1..]);
    }
  }

  /** An exited task that is not current any more is never selected again. */
  lemma {:induction false} RunZombie(states: seq<Sched>, events: seq<Event>, t: nat)
    requires Run(states, events) && Inv(states[0]) && Zombie(states[0], t) && states[0].current != t
    ensures Zombie(states[|events|], t) && states[|events|].current != t
    decreases |events|
  {
    hide Step, Zombie, Inv;
    if |events| > 0 {
      assert Step(states[0], events[0], states[1]);
      StepZombie(states[0], events[0], states[1], t);
      StepKeepsInv(states[0], events[0], states[1]);
      RunSuffix(states, events, 1);
      RunZombie(states[1..], events[1..], t);
    }
  }

  lemma {:induction false} RunKeepsTask(states: seq<Sched>, events: seq<Event>, t: nat)
    requires Run(states, events) && t in states[0].tcb
    ensures t in states[|events|].tcb
    decreases |events|
  {
    hide Step;
    if |events| > 0 {
      assert Step(states[0], events[0], states[1]);
      StepTasks(states[0], events[0], states[1], t);
      RunSuffix(states, events, 1);
      RunKeepsTask(states[1..], events[1..], t);
    }
  }

  /**
   * No task is lost: at every later state of a run a task has exited, or it is listed and is
   * asleep, current, idle, or queued exactly once.
   */
  lemma RunLosesNoTask(states: seq<Sched>, events: seq<Event>, t: nat)
    requires Run(states, events) && Inv(states[0]) && t in states[0].tcb
    ensures var s := states[|events|];
      && t in s.tcb
      && (s.tcb[t].state == ZOMBIE || t in s.all)
      && (s.tcb[t].state in {ZOMBIE, SLEEPING} || t == s.current || t == s.idle || multiset(s.q)[t] == 1)
      && (s.tcb[t].state == RUNNING ==> t == s.current)
      && (t in s.q <==> t != s.idle && s.tcb[t].state == RUNNABLE)
  {
    RunKeepsTask(states, events, t);
    RunInv(states, events, |events|);
    TaskAccountedFor(states[|events|], t);
  }

  lemma TaskAccountedFor(s: Sched, t: nat)
    requires Inv(s) && t in s.tcb
    ensures s.tcb[t].state == ZOMBIE || t in s.all
    ensures s.tcb[t].state in {ZOMBIE, SLEEPING} || t == s.current || t == s.idle || multiset(s.q)[t] == 1
    ensures s.tcb[t].state == RUNNING ==> t == s.current
    ensures t in s.q <==> t != s.idle && s.tcb[t].state == RUNNABLE
  {
    hide AllLinks, Queue;
    IndexedOnce(s);
    assert t in s.q <==> t in multiset(s.q);
  }

  /** While a task is not current, its saved stack pointer does not change. */
  lemma {:induction false} RunRsp(states: seq<Sched>, events: seq<Event>, t: nat)
    requires Run(states, events) && t in states[0].tcb
    requires forall i :: 0 <= i < |events| ==> states[i].current != t
    ensures t in states[|events|].tcb && states[|events|].tcb[t].rsp == states[0].tcb[t].rsp
    decreases |events|
  {
    hide Step;
    if |events| > 0 {
      assert Step(states[0], events[0], states[1]);
      StepRsp(states[0], events[0], states[1], t);
      RunSuffix(states, events, 1);
      RunRsp(states[1..], events[1..], t);
    }
  }

  /** The event put this stack pointer into `t`: it was interrupted there, or created so. */
  ghost predicate Leaves(s: Sched, e: Event, s': Sched, t: nat, rsp: nat) {
    match e
    case Tick(_, _, frame, _) => s.current == t && s'.current != t && frame == rsp
    case Create(task, _, stackRsp) => task == t && stackRsp == rsp
    case _ => false
  }

  /**
   * A task is always resumed where it left off: when it was switched out with a stack pointer,
   * or created with one, the next switch to it resumes exactly that stack pointer.
   */
  lemma RunResumesWhereLeft(states: seq<Sched>, events: seq<Event>, t: nat, rsp: nat)
    requires Run(states, events) && |events| >= 2
    requires Leaves(states[0], events[0], states[1], t, rsp)
    requires forall i :: 1 <= i < |events| ==> states[i].current != t
    requires states[|events|].current == t
    ensures var last := events[|events| - 1]; last.Tick? && last.rsp == rsp
  {
    hide Step;
    var n := |events|;
    assert Step(states[0], events[0], states[1]);
    LeftRsp(states[0], events[0], states[1], t, rsp);
    RunSuffix(states, events, 1);
    var (states1, events1) := (states[1..][..n - 1], events[1..][..n - 2]);
    RunPrefix(states[1..], events[1..], n - 2);
    RunRsp(states1, events1, t);
    assert Step(states[n - 1], events[n - 1], states[n]);
    StepRsp(states[n - 1], events[n - 1], states[n], t);
  }

  lemma RunPrefix(states: seq<Sched>, events: seq<Event>, k: nat)
    requires Run(states, events) && k <= |events|
    ensures Run(states[..k + 1], events[..k])
  {
    hide Step;
  }

  lemma LeftRsp(s: Sched, e: Event, s': Sched, t: nat, rsp: nat)
    requires Step(s, e, s') && Leaves(s, e, s', t, rsp)
    ensures t in s'.tcb && s'.tcb[t].rsp == rsp
  {
    hide NewMin, PrioToWeight, Without, Candidates, Queue, AllLinks;
  }

  // ---------------------------------------------------------------- leaving the processor

  /** The counter stands at more than one time slice, so that a slice start of 0 is long ago. */
  predicate PastOneSlice(tsc: nat) {
    Wrap(tsc) >= TIMESLICE_NS * TSC_PER_NS
  }

  /** `t` neither runs nor waits to run; while it is still current, its slice is over. */
  ghost predicate Leaving(s: Sched, t: nat) {
    && t in s.tcb && s.tcb[t].state in {ZOMBIE, SLEEPING} && s.current == t != s.idle && s.slice == 0
  }

  lemma StepLeaving(s: Sched, e: Event, s': Sched, t: nat)
    requires Inv(s) && Step(s, e, s') && Leaving(s, t)
    ensures s'.current != t || (Leaving(s', t) && s'.tcb[t].state == s.tcb[t].state)
    ensures !e.Tick? ==> s'.current == t
    ensures e.Tick? && PastOneSlice(e.tsc) ==> s'.current != t
  {
    hide Queue, Listing, Ids, NewMin, PrioToWeight, Without, Candidates, Timed, Wrap;
    if e.Tick? && NeedSwitch(s, DeltaNs(s, e.tsc)) {
      SwitchMembers(s, s', e.now, e.frame, e.rsp);
    }
  }

  /** From the call on, the task leaves at a tick, or is still leaving. */
  lemma {:induction false} RunLeaving(states: seq<Sched>, events: seq<Event>, t: nat)
    requires Run(states, events) && Inv(states[0]) && Leaving(states[0], t) && states[0].tcb[t].state == ZOMBIE
    ensures Zombie(states[|events|], t)
    ensures states[|events|].current != t || Leaving(states[|events|], t)
    decreases |events|
  {
    hide Step, Leaving, PastOneSlice, Inv;
    LeavingZombie(states[0], t);
    var n := |events|;
    if n > 0 {
      RunInv(states, events, n - 1);
      assert Step(states[n - 1], events[n - 1], states[n]);
      RunPrefix(states, events, n - 1);
      RunLeaving(states[..n], events[..n - 1], t);
      StepZombie(states[n - 1], events[n - 1], states[n], t);
      if states[n - 1].current == t {
        StepLeaving(states[n - 1], events[n - 1], states[n], t);
      }
    }
  }

  lemma LeavingZombie(s: Sched, t: nat)
    requires Leaving(s, t)
    ensures t in s.tcb && (s.tcb[t].state == ZOMBIE ==> Zombie(s, t))
  {
  }

  /**
   * After `sched_exit` the first timer interrupt at which the counter is past one slice leaves
   * the task, if none has before; and it never runs again.
   */
  lemma ExitLeaves(states: seq<Sched>, events: seq<Event>, j: nat)
    requires Run(states, events) && Inv(states[0]) && 0 < j < |events| && events[0].Exit?
    requires events[j].Tick? && PastOneSlice(events[j].tsc)
    ensures Zombie(states[|events|], states[0].current) && states[|events|].current != states[0].current
  {
    hide Step, Leaving, PastOneSlice, Inv;
    var t := states[0].current;
    RunInv(states, events, 1);
    RunInv(states, events, j);
    RunInv(states, events, j + 1);
    assert Step(states[0], events[0], states[1]);
    ExitIsLeaving(states[0], states[1]);
    LeavingZombie(states[1], t);
    RunPrefix(states, events, j);
    RunSuffix(states[..j + 1], events[..j], 1);
    RunLeaving(states[..j + 1][1..], events[..j][1..], t);
    assert states[..j + 1][1..][j - 1] == states[j];
    assert Step(states[j], events[j], states[j + 1]);
    StepZombie(states[j], events[j], states[j + 1], t);
    if states[j].current == t {
      StepLeaving(states[j], events[j], states[j + 1], t);
    }
    RunSuffix(states, events, j + 1);
    RunZombie(states[j + 1..], events[j + 1..], t);
  }

  lemma ExitIsLeaving(s: Sched, s': Sched)
    requires Step(s, Exit, s')
    ensures Leaving(s', s.current) && s'.tcb[s.current].state == ZOMBIE
  {
    hide Inv, Without;
    assert s'.tcb[s.current].(nextAll := 0, prevAll := 0).state == ZOMBIE;
  }

  /** After `sched_sleep_ns` the task stays current until a timer interrupt, and leaves at one past one slice. */
  lemma SleepLeaves(states: seq<Sched>, events: seq<Event>, j: nat)
    requires Run(states, events) && Inv(states[0]) && 0 < j < |events| && events[0].Sleep?
    requires forall i :: 0 < i < j ==> !events[i].Tick?
    ensures var t := states[0].current;
      && states[j].current == t && t in states[j].tcb && states[j].tcb[t].state == SLEEPING
      && (events[j].Tick? && PastOneSlice(events[j].tsc) ==> states[j + 1].current != t)
  {
    hide Step, Leaving, PastOneSlice, Inv;
    var t := states[0].current;
    RunInv(states, events, j);
    SleepStays(states, events, j);
    LeavingZombie(states[j], t);
    assert Step(states[j], events[j], states[j + 1]);
    StepLeaving(states[j], events[j], states[j + 1], t);
  }

  lemma {:induction false} SleepStays(states: seq<Sched>, events: seq<Event>, j: nat)
    requires Run(states, events) && Inv(states[0]) && 0 < j < |events| && events[0].Sleep?
    requires forall i :: 0 < i < j ==> !events[i].Tick?
    ensures Leaving(states[j], states[0].current) && states[j].current == states[0].current
    ensures states[0].current in states[j].tcb && states[j].tcb[states[0].current].state == SLEEPING
    decreases j
  {
    hide Step, PastOneSlice, Inv;
    if j == 1 {
      assert Step(states[0], events[0], states[1]);
      SleepIsLeaving(states[0], states[1]);
    } else {
      SleepStays(states, events, j - 1);
      RunInv(states, events, j - 1);
      assert Step(states[j - 1], events[j - 1], states[j]);
      StepLeaving(states[j - 1], events[j - 1], states[j], states[0].current);
    }
  }

  lemma SleepIsLeaving(s: Sched, s': Sched)
    requires Step(s, Sleep, s')
    ensures Leaving(s', s.current) && s'.tcb[s.current].state == SLEEPING && s'.current == s.current
  {
    hide Inv;
  }
}
