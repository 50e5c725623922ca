/** What virtual time means: the charge of a switch, weights, the minimum, and when a tick switches. */
module SchedTime {
  import opened Common
  import opened RunHeap
  import opened RunQueue
  import opened SchedState
  import opened Scheduler

  // ---------------------------------------------------------------- the charge

  /**
   * The time used, `d` nanoseconds of three counts each, is charged in proportion 1024 to the
   * weight: `v` is their product over the weight, rounded down, with the product and the sums
   * in 64 bits.  Idle is not charged, and no other task is.
   */
  lemma SwitchCharges(s: Sched, s': Sched, now: nat, frame: nat, rsp: nat) returns (d: nat, v: nat)
    requires Switched(s, s', now, frame, rsp)
    ensures 3 * d <= (now - s.slice) % TWO_64 < 3 * d + 3
    ensures s.current in s.tcb && s.current in s'.tcb
    ensures var (t, t') := (s.tcb[s.current], s'.tcb[s.current]);
      if s.current == s.idle then t'.vruntime == t.vruntime && t'.totalRuntime == t.totalRuntime
      else
        && v * t.weight <= d * 1024 % TWO_64 < (v + 1) * t.weight
        && t'.vruntime == (t.vruntime + v) % TWO_64 && t'.totalRuntime == (t.totalRuntime + d) % TWO_64
    ensures forall t :: t in s.tcb && t != s.current ==>
      t in s'.tcb && s'.tcb[t].vruntime == s.tcb[t].vruntime && s'.tcb[t].totalRuntime == s.tcb[t].totalRuntime
  {
    hide Saved, Candidates, NewMin, Charged;
    d, v := ChargeOf(s, now);
  }

  /** The charge itself. */
  lemma ChargeOf(s: Sched, now: nat) returns (d: nat, v: nat)
    requires s.current in s.tcb && s.tcb[s.current].weight > 0
    ensures 3 * d <= (now - s.slice) % TWO_64 < 3 * d + 3
    ensures s.current in Charged(s, now).tcb
    ensures var (t, t') := (s.tcb[s.current], Charged(s, now).tcb[s.current]);
      if s.current == s.idle then t' == t
      else
        && v * t.weight <= d * 1024 % TWO_64 < (v + 1) * t.weight
        && t'.vruntime == (t.vruntime + v) % TWO_64 && t'.totalRuntime == (t.totalRuntime + d) % TWO_64
  {
    var p: nat := (now - s.slice) % TWO_64;
    d := p / 3;
    v := Quotient(d * 1024 % TWO_64, s.tcb[s.current].weight);
  }

  lemma Quotient(p: nat, w: nat) returns (v: nat)
    requires w > 0
    ensures v == p / w && v * w <= p < (v + 1) * w
  {
    v := p / w;
    assert p == w * v + p % w;
    assert (v + 1) * w == v * w + w;
  }

  /** A task of nice 0 is charged the time itself. */
  lemma NiceZeroCharge(prio: int, d: nat, v: nat)
    requires prio == 0 && d * 1024 < TWO_64
    requires v * PrioToWeight(prio) <= d * 1024 % TWO_64 < (v + 1) * PrioToWeight(prio)
    ensures v == d
  {
    assert PrioToWeight(0) == 1024;
  }

  /** Of two tasks that used the same time the heavier is charged no more. */
  lemma HeavierChargedLess(p: nat, w: nat, v: nat, w': nat, v': nat)
    requires v * w <= p < (v + 1) * w && v' * w' <= p < (v' + 1) * w' && w <= w'
    ensures v' <= v
  {
    Grows(w, w', v');
    assert v' * w == w * v' && v' * w' == w' * v';
    Smaller(v', v + 1, w);
  }

  lemma Grows(a: nat, b: nat, k: nat)
    requires a <= b
    ensures a * k <= b * k
  {
    MulAdd(a, b - a, k);
  }

  lemma Smaller(a: nat, b: nat, k: nat)
    requires a * k < b * k
    ensures a < b
  {
    if b <= a {
      Grows(b, a, k);
    }
  }

  // ---------------------------------------------------------------- weights

  /**
   * The weight is 1024 at nice 0 and falls with nice by a factor between 1.2 and 1.28 at each
   * step; the code's table aims at 1.25.
   */
  lemma WeightsFall(prio: int)
    requires -20 <= prio < 19
    ensures var (w, w') := (PrioToWeight(prio), PrioToWeight(prio + 1)); w' < w && 6 * w' <= 5 * w && 25 * w <= 32 * w'
    ensures prio == 0 ==> PrioToWeight(prio) == 1024
  {
    WeightIs(prio);
    WeightIs(prio + 1);
    hide PrioToWeight;
    if prio < -1 {
      UpperSteps(prio + 20);
    } else if prio > -1 {
      LowerSteps(prio);
    }
  }

  lemma WeightIs(prio: int)
    requires -20 <= prio <= 19
    ensures PrioToWeight(prio) == if prio < 0 then UpperWeights()[prio + 20] else LowerWeights()[prio]
  {
    hide UpperWeights, LowerWeights;
  }

  lemma UpperSteps(i: nat)
    requires i < 19
    ensures var (w, w') := (UpperWeights()[i], UpperWeights()[i + 1]); w' < w && 6 * w' <= 5 * w && 25 * w <= 32 * w'
  {
  }

  lemma LowerSteps(i: nat)
    requires i < 19
    ensures var (w, w') := (LowerWeights()[i], LowerWeights()[i + 1]); w' < w && 6 * w' <= 5 * w && 25 * w <= 32 * w'
  {
  }

  /** Out of range the weight is that of the nearest nice level. */
  lemma WeightsEnd(prio: int)
    ensures prio <= -20 ==> PrioToWeight(prio) == 88761
    ensures prio >= 19 ==> PrioToWeight(prio) == 15
  {
  }

  // ---------------------------------------------------------------- the minimum

  /**
   * When `min_vruntime` moves: to the smaller of the current task's and the queue head's virtual
   * runtime, if that is larger.  A current task whose virtual runtime is still 0 is passed over,
   * and while idle is current a minimum that is no longer 0 stays.
   */
  lemma NewMinIs(s: Sched)
    requires s.current in s.tcb && (|s.q| > 0 ==> s.q[0] in s.tcb)
    ensures var c := s.tcb[s.current].vruntime;
      if s.q == [] then NewMin(s) == if s.current == s.idle then s.minV else Max(s.minV, c)
      else
        var h := s.tcb[s.q[0]].vruntime;
        NewMin(s) ==
          if s.current == s.idle then (if s.minV == 0 then h else s.minV)
          else Max(s.minV, if c == 0 then h else Min(c, h))
  {
  }

  // ---------------------------------------------------------------- ticks

  /**
   * When a tick does not switch: less than 12 million counts of the slice are over, idle is not
   * current while a task is queued, and no queued task is more than a slice behind the current one.
   */
  lemma TickStays(s: Sched, tsc: nat)
    requires Inv(s)
    ensures s.current in s.tcb && forall t :: t in s.q ==> t in s.tcb
    ensures !NeedSwitch(s, DeltaNs(s, tsc)) <==>
      && (tsc - s.slice) % TWO_64 < 12_000_000
      && (s.current == s.idle ==> s.q == [])
      && forall t :: t in s.q ==> s.tcb[s.current].vruntime <= s.tcb[t].vruntime + 4_000_000
  {
    hide AllLinks, MinHeap;
    forall j: nat | j < |s.q|
      ensures s.q[j] in s.tcb && s.tcb[s.q[0]].vruntime <= s.tcb[s.q[j]].vruntime
    {
      RootIsLeast(s.q, KeysOf(s.tcb), j);
    }
    assert |s.q| > 0 ==> s.q[0] in s.q;
  }

  // ---------------------------------------------------------------- the first frame

  /** A new task starts on a frame of 168 bytes that ends at the top of its stack, rounded down to 16. */
  lemma InitialFrame(stack: nat)
    ensures var top := InitialRsp(stack) + 168;
      top % 16 == 0 && stack + 16384 - 16 < top <= stack + 16384 && stack < InitialRsp(stack)
  {
  }
}
