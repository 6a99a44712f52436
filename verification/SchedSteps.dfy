/**
 Every step of the scheduler keeps its invariant: for each critical section, the
 tasks, the CPUs and the sleep list separately.
 */
module SchedSteps {
  import opened Options
  import opened Links
  import opened Sched

  lemma PutTask(s: State, a: nat, u: Tid)
    requires Inv(s) && a < CPUS && u in s.task
    requires s.pc[a].Requeue? && s.pc[a].t in s.task
    ensures u in DoPut(s, a).task && TaskOk(DoPut(s, a), u)
  {
    assert TaskOk(s, u) && CpuOk(s, a);
  }

  lemma PutCpu(s: State, a: nat, c: nat)
    requires Inv(s) && a < CPUS && c < CPUS
    requires s.pc[a].Requeue? && s.pc[a].t in s.task
    ensures CpuOk(DoPut(s, a), c)
  {
    assert CpuOk(s, a) && CpuOk(s, c);
  }

  lemma HandOverTask(s: State, a: nat, u: Tid)
    requires Inv(s) && a < CPUS && u in s.task
    requires s.pc[a].Hand? && s.pc[a].t in s.task && s.task[s.pc[a].t].cpu < CPUS
    ensures u in DoHandOver(s, a).task && TaskOk(DoHandOver(s, a), u)
  {
    assert TaskOk(s, u) && CpuOk(s, a);
  }

  lemma HandOverCpu(s: State, a: nat, c: nat)
    requires Inv(s) && a < CPUS && c < CPUS
    requires s.pc[a].Hand? && s.pc[a].t in s.task && s.task[s.pc[a].t].cpu < CPUS
    ensures CpuOk(DoHandOver(s, a), c)
  {
    assert CpuOk(s, a) && CpuOk(s, c);
  }

  lemma PassTask(s: State, a: nat, u: Tid)
    requires Inv(s) && a < CPUS && u in s.task
    requires s.pc[a].Pass? && s.pc[a].i < |s.sleepers| && s.sleepers[s.pc[a].i] in s.task
    ensures u in DoPass(s, a).task && TaskOk(DoPass(s, a), u)
  {
    assert TaskOk(s, u) && CpuOk(s, a);
  }

  lemma PassCpu(s: State, a: nat, c: nat)
    requires Inv(s) && a < CPUS && c < CPUS
    requires s.pc[a].Pass? && s.pc[a].i < |s.sleepers| && s.sleepers[s.pc[a].i] in s.task
    ensures CpuOk(DoPass(s, a), c)
  {
    assert CpuOk(s, a) && CpuOk(s, c);
  }

  lemma SwitchOutTask(s: State, a: nat, u: Tid)
    requires Inv(s) && a < CPUS && u in s.task
    requires s.pc[a] == Enter && (s.cur[a] == Idle || (s.cur[a].Running? && s.cur[a].t in s.task))
    ensures u in DoSwitchOut(s, a).task && TaskOk(DoSwitchOut(s, a), u)
  {
    assert TaskOk(s, u) && CpuOk(s, a);
  }

  lemma SwitchOutCpu(s: State, a: nat, c: nat)
    requires Inv(s) && a < CPUS && c < CPUS
    requires s.pc[a] == Enter && (s.cur[a] == Idle || (s.cur[a].Running? && s.cur[a].t in s.task))
    ensures CpuOk(DoSwitchOut(s, a), c)
  {
    assert CpuOk(s, a) && CpuOk(s, c);
  }

  lemma SwitchInTask(s: State, a: nat, u: Tid)
    requires Inv(s) && a < CPUS && u in s.task
    requires ((s.pc[a].Got? && s.pc[a].t in s.task) || (s.pc[a].Steal? && s.pc[a].i == CPUS))
    ensures u in DoSwitchIn(s, a).task && TaskOk(DoSwitchIn(s, a), u)
  {
    assert TaskOk(s, u) && CpuOk(s, a);
  }

  lemma SwitchInCpu(s: State, a: nat, c: nat)
    requires Inv(s) && a < CPUS && c < CPUS
    requires ((s.pc[a].Got? && s.pc[a].t in s.task) || (s.pc[a].Steal? && s.pc[a].i == CPUS))
    ensures CpuOk(DoSwitchIn(s, a), c)
  {
    assert CpuOk(s, a) && CpuOk(s, c);
  }

  lemma TakeTask(s: State, a: nat, u: Tid)
    requires Inv(s) && a < CPUS && u in s.task
    requires s.pc[a] == Pick && (s.queue[a] != [] ==> s.queue[a][0] in s.task)
    ensures u in DoTake(s, a).task && TaskOk(DoTake(s, a), u)
  {
    assert TaskOk(s, u) && CpuOk(s, a);
  }

  lemma TakeCpu(s: State, a: nat, c: nat)
    requires Inv(s) && a < CPUS && c < CPUS
    requires s.pc[a] == Pick && (s.queue[a] != [] ==> s.queue[a][0] in s.task)
    ensures CpuOk(DoTake(s, a), c)
  {
    assert CpuOk(s, a) && CpuOk(s, c);
  }

  lemma StealTask(s: State, a: nat, u: Tid)
    requires Inv(s) && a < CPUS && u in s.task
    requires s.pc[a].Steal? && 1 <= s.pc[a].i < CPUS && (s.queue[Victim(a, s.pc[a].i)] != [] ==> s.queue[Victim(a, s.pc[a].i)][0] in s.task)
    ensures u in DoSteal(s, a).task && TaskOk(DoSteal(s, a), u)
  {
    assert TaskOk(s, u) && CpuOk(s, a) && CpuOk(s, Victim(a, s.pc[a].i));
  }

  lemma StealCpu(s: State, a: nat, c: nat)
    requires Inv(s) && a < CPUS && c < CPUS
    requires s.pc[a].Steal? && 1 <= s.pc[a].i < CPUS && (s.queue[Victim(a, s.pc[a].i)] != [] ==> s.queue[Victim(a, s.pc[a].i)][0] in s.task)
    ensures CpuOk(DoSteal(s, a), c)
  {
    assert CpuOk(s, a) && CpuOk(s, c) && CpuOk(s, Victim(a, s.pc[a].i));
  }

  lemma SleepTask(s: State, a: nat, jf: nat, u: Tid)
    requires Inv(s) && a < CPUS && u in s.task
    requires s.pc[a] == Run && s.cur[a].Running? && s.cur[a].t in s.task && s.lock == None
    ensures u in DoSleep(s, a, jf).task && TaskOk(DoSleep(s, a, jf), u)
  {
    assert TaskOk(s, u) && CpuOk(s, a);
  }

  lemma SleepCpu(s: State, a: nat, jf: nat, c: nat)
    requires Inv(s) && a < CPUS && c < CPUS
    requires s.pc[a] == Run && s.cur[a].Running? && s.cur[a].t in s.task && s.lock == None
    ensures CpuOk(DoSleep(s, a, jf), c)
  {
    assert CpuOk(s, a) && CpuOk(s, c);
  }

  lemma SleepList(s: State, a: nat, jf: nat)
    requires Inv(s) && a < CPUS && s.pc[a] == Run && s.cur[a].Running? && s.cur[a].t in s.task
    ensures SleepOk(DoSleep(s, a, jf))
  {
    assert CpuOk(s, a) && TaskOk(s, s.cur[a].t);
  }

  lemma PassList(s: State, a: nat)
    requires Inv(s) && a < CPUS && s.pc[a].Pass? && s.pc[a].i < |s.sleepers| && s.sleepers[s.pc[a].i] in s.task
    ensures SleepOk(DoPass(s, a))
  {
  }

  lemma BirthTask(s: State, t: Tid, u: Tid)
    requires Inv(s) && t in s.task && u in s.task && s.task[t].where.Born? && s.task[t].where.cpu < CPUS
    ensures TaskOk(Enqueue(s, s.task[t].where.cpu, t), u)
  {
    assert TaskOk(s, u) && TaskOk(s, t);
  }

  lemma BirthCpu(s: State, t: Tid, c: nat)
    requires Inv(s) && t in s.task && c < CPUS && s.task[t].where.Born? && s.task[t].where.cpu < CPUS
    ensures CpuOk(Enqueue(s, s.task[t].where.cpu, t), c)
  {
    assert CpuOk(s, c) && TaskOk(s, t);
  }

  /** The steps that only move a program counter, the clock, the lock or a CPU's coming online, or add a task. */
  predicate Quiet(step: Step) {
    step.Boot? || step.Yield? || step.TimerIrq? || step.Create?
  }

  predicate Locks(step: Step) {
    step.PassStart? || step.PassEnd?
  }

  lemma QuietTask(s: State, step: Step, u: Tid)
    requires Inv(s) && Enabled(s, step) && u in Apply(s, step).task && (Quiet(step) || Locks(step))
    ensures TaskOk(Apply(s, step), u)
  {
    hide DoHandOver, DoPut, DoTake, DoSwitchIn, DoSwitchOut, DoPass, DoSteal, DoSleep;
    assert u in s.task ==> TaskOk(s, u);
    assert CpuOk(s, step.c);
  }

  lemma QuietCpu(s: State, step: Step, c: nat)
    requires Inv(s) && Enabled(s, step) && c < CPUS && Quiet(step)
    ensures CpuOk(Apply(s, step), c)
  {
    hide DoHandOver, DoPut, DoTake, DoSwitchIn, DoSwitchOut, DoPass, DoSteal, DoSleep;
    assert CpuOk(s, c) && CpuOk(s, step.c);
  }

  lemma LocksCpu(s: State, step: Step, c: nat)
    requires Inv(s) && Enabled(s, step) && c < CPUS && Locks(step)
    ensures CpuOk(Apply(s, step), c)
  {
    hide DoHandOver, DoPut, DoTake, DoSwitchIn, DoSwitchOut, DoPass, DoSteal, DoSleep;
    assert CpuOk(s, c) && CpuOk(s, step.c);
  }

  lemma RestKept(s: State, step: Step)
    requires Inv(s) && Enabled(s, step) && !step.Sleep? && !step.PassStep?
    ensures Shape(Apply(s, step)) && SleepOk(Apply(s, step)) && Apply(s, step).jiffies < LIMIT
  {
    hide TaskOk, CpuOk;
    assert Apply(s, step).sleepers == s.sleepers;
  }

  lemma ShapeKept(s: State, step: Step)
    requires Inv(s) && Enabled(s, step) && (step.Sleep? || step.PassStep?)
    ensures Shape(Apply(s, step)) && Apply(s, step).jiffies < LIMIT
  {
    hide TaskOk, CpuOk;
  }

  /** Every step keeps the invariant. */
  lemma StepKeeps(s: State, step: Step)
    requires Inv(s) && Enabled(s, step)
    ensures Inv(Apply(s, step))
  {
    hide TaskOk, CpuOk, Enqueue, DoHandOver, DoPut, DoTake, DoSwitchIn, DoSwitchOut, DoPass, DoSteal, DoSleep;
    var s' := Apply(s, step);
    if step.Sleep? {
      SleepList(s, step.c, step.jf);
      ShapeKept(s, step);
    } else if step.PassStep? {
      PassList(s, step.c);
      ShapeKept(s, step);
    } else {
      RestKept(s, step);
    }
    forall u | u in s'.task
      ensures TaskOk(s', u)
    {
      StepTask(s, step, u);
    }
    forall c: nat | c < CPUS
      ensures CpuOk(s', c)
    {
      StepCpu(s, step, c);
    }
  }

  lemma TasksStay(s: State, step: Step, u: Tid)
    requires Inv(s) && Enabled(s, step) && u in Apply(s, step).task && !step.Create?
    ensures u in s.task
  {
    hide TaskOk, CpuOk;
  }

  lemma StepTask(s: State, step: Step, u: Tid)
    requires Inv(s) && Enabled(s, step) && u in Apply(s, step).task
    ensures TaskOk(Apply(s, step), u)
  {
    if Quiet(step) || Locks(step) {
      QuietTask(s, step, u);
    } else {
      TasksStay(s, step, u);
      hide TaskOk, CpuOk, Enqueue, DoHandOver, DoPut, DoTake, DoSwitchIn, DoSwitchOut, DoPass, DoSteal, DoSleep;
      match step
      case Sleep(a, jf) => SleepTask(s, a, jf, u);
      case Birth(t) => BirthTask(s, t, u);
      case HandOver(a) => HandOverTask(s, a, u);
      case Put(a) => PutTask(s, a, u);
      case PassStep(a) => PassTask(s, a, u);
      case SwitchOut(a) => SwitchOutTask(s, a, u);
      case SwitchIn(a) => SwitchInTask(s, a, u);
      case Take(a) => TakeTask(s, a, u);
      case StealStep(a) => StealTask(s, a, u);
    }
  }

  lemma StepCpu(s: State, step: Step, c: nat)
    requires Inv(s) && Enabled(s, step) && c < CPUS
    ensures CpuOk(Apply(s, step), c)
  {
    if Quiet(step) {
      QuietCpu(s, step, c);
    } else if Locks(step) {
      LocksCpu(s, step, c);
    } else {
      hide TaskOk, CpuOk, Enqueue, DoHandOver, DoPut, DoTake, DoSwitchIn, DoSwitchOut, DoPass, DoSteal, DoSleep;
      match step
      case Sleep(a, jf) => SleepCpu(s, a, jf, c);
      case Birth(t) => BirthCpu(s, t, c);
      case HandOver(a) => HandOverCpu(s, a, c);
      case Put(a) => PutCpu(s, a, c);
      case PassStep(a) => PassCpu(s, a, c);
      case SwitchOut(a) => SwitchOutCpu(s, a, c);
      case SwitchIn(a) => SwitchInCpu(s, a, c);
      case Take(a) => TakeCpu(s, a, c);
      case StealStep(a) => StealCpu(s, a, c);
    }
  }
}
