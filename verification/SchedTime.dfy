/**
 Time and order in the scheduler: no task wakes before its deadline, a finished
 wake pass leaves no expired sleeper, and queues are first in, first out
 (src/kernel/sched.c:68-147, 280-329; src/kernel/acpi/timer.c:16-31).
 */
module SchedTime {
  import opened Options
  import opened Links
  import opened Sched
  import opened SchedSteps
  import opened SchedRuns

  // ----- Deadlines -----

  lemma StepSleeps(s: State, step: Step, t: Tid)
    requires Inv(s) && Enabled(s, step) && t in s.task && s.task[t].state == Sleeping
    ensures t in Apply(s, step).task && Apply(s, step).jiffies >= s.jiffies
    ensures Apply(s, step).task[t].state == Ready ==> step.PassStep? && s.jiffies >= s.task[t].wake
    ensures Apply(s, step).task[t].state == Sleeping ==> Apply(s, step).task[t].wake == s.task[t].wake
  {
    assert TaskOk(s, t);
    if !step.Birth? {
      assert CpuOk(s, step.c);
    }
  }

  lemma ClockRises(s: State, step: Step)
    requires Inv(s) && Enabled(s, step)
    ensures Apply(s, step).jiffies >= s.jiffies
  {
    hide TaskOk, CpuOk;
  }

  lemma {:induction false} RunClock(s: State, steps: seq<Step>)
    requires Inv(s) && Valid(s, steps)
    ensures After(s, steps).jiffies >= s.jiffies
    decreases |steps|
  {
    hide Inv, Apply, Enabled;
    if steps != [] {
      ClockRises(s, steps[0]);
      RunClock(Next(s, steps[0]), steps[1..]);
    }
  }

  /** A sleeping task sleeps on, with its deadline, in every run that ends before the deadline. */
  lemma {:induction false} SleepsOn(s: State, steps: seq<Step>, t: Tid)
    requires Inv(s) && Valid(s, steps) && t in s.task && s.task[t].state == Sleeping && After(s, steps).jiffies < s.task[t].wake
    ensures t in After(s, steps).task && After(s, steps).task[t].state == Sleeping && After(s, steps).task[t].wake == s.task[t].wake
    decreases |steps|
  {
    hide Inv, Apply, Enabled;
    if steps != [] {
      var s1 := Next(s, steps[0]);
      StepSleeps(s, steps[0], t);
      RunClock(s1, steps[1..]);
      SleepsOn(s1, steps[1..], t);
    }
  }

  /**
   After sched_sleep_jiffies(jf) the deadline lies ahead exactly when the 64-bit
   sum does not wrap; then the task sleeps at least jf ticks.
   */
  lemma SleepsAtLeast(s: State, c: nat, jf: nat, steps: seq<Step>)
    requires Inv(s) && Enabled(s, Sleep(c, jf)) && Valid(Next(s, Sleep(c, jf)), steps)
    ensures var s1, t := Next(s, Sleep(c, jf)), s.cur[c].t;
            && t in s1.task && (s1.task[t].wake > s1.jiffies <==> s.jiffies + jf < LIMIT)
            && (s.jiffies + jf < LIMIT && After(s1, steps).jiffies < s.jiffies + jf ==>
                  t in After(s1, steps).task && After(s1, steps).task[t].state == Sleeping)
  {
    var s1, t := Next(s, Sleep(c, jf)), s.cur[c].t;
    SleepWake(s, c, jf);
    hide Inv, Apply, Enabled, Valid, After;
    if s.jiffies + jf < LIMIT && After(s1, steps).jiffies < s.jiffies + jf {
      SleepsOn(s1, steps, t);
    }
  }

  lemma SleepWake(s: State, c: nat, jf: nat)
    requires Inv(s) && Enabled(s, Sleep(c, jf))
    ensures var s1, t := Next(s, Sleep(c, jf)), s.cur[c].t;
            && t in s1.task && s1.task[t].state == Sleeping && s1.jiffies == s.jiffies
            && s1.task[t].wake == (if s.jiffies + jf < LIMIT then s.jiffies + jf else s.jiffies + jf - LIMIT)
  {
    hide TaskOk, CpuOk;
  }

  // ----- The wake pass -----

  /** What one step of any CPU does to the pass of CPU c: only c's own steps move it. */
  lemma PassStays(s: State, step: Step, c: nat)
    requires Inv(s) && Enabled(s, step) && c < CPUS && Locking(s.pc[c]) && step != PassEnd(c)
    ensures var s' := Apply(s, step);
            && Shape(s') && Locking(s'.pc[c]) && s'.pc[c].since == s.pc[c].since && s'.pc[c].i <= |s'.sleepers|
            && |s'.sleepers| - s'.pc[c].i + (if step == PassStep(c) then 1 else 0) == |s.sleepers| - s.pc[c].i
  {
    assert CpuOk(s, c);
    if !step.Birth? {
      assert CpuOk(s, step.c);
    }
  }

  /** How often a step occurs. */
  function Count(steps: seq<Step>, step: Step): nat {
    if steps == [] then 0 else (if steps[0] == step then 1 else 0) + Count(steps[1..], step)
  }

  lemma {:induction false} CountIs(steps: seq<Step>, step: Step)
    ensures Count(steps, step) == multiset(steps)[step]
  {
    if steps != [] {
      CountIs(steps[1..], step);
      assert steps == [steps[0]] + steps[1..];
    }
  }

  lemma {:induction false} PassRun(s: State, steps: seq<Step>, c: nat)
    requires Inv(s) && Valid(s, steps) && c < CPUS && Locking(s.pc[c]) && Count(steps, PassEnd(c)) == 0
    ensures var s' := After(s, steps);
            && Locking(s'.pc[c]) && s'.pc[c].since == s.pc[c].since
            && |s'.sleepers| - s'.pc[c].i + Count(steps, PassStep(c)) == |s.sleepers| - s.pc[c].i
    decreases |steps|
  {
    hide Apply, Enabled, TaskOk, CpuOk;
    if steps != [] {
      PassStays(s, steps[0], c);
      PassRun(Next(s, steps[0]), steps[1..], c);
    }
  }

  /**
   When the wake pass that CPU c began at s ends, whatever ran in between, every
   sleeper that had expired when it began has been woken, and the pass has looked
   at every sleeper once.
   */
  lemma PassLeavesNone(s: State, c: nat, steps: seq<Step>)
    requires Inv(s) && Enabled(s, PassStart(c)) && Valid(Next(s, PassStart(c)), steps) && Count(steps, PassEnd(c)) == 0
    requires Enabled(After(Next(s, PassStart(c)), steps), PassEnd(c))
    ensures Count(steps, PassStep(c)) == |s.sleepers|
    ensures var s' := After(Next(s, PassStart(c)), steps);
            forall j :: 0 <= j < |s'.sleepers| ==> s'.sleepers[j] in s'.task && s'.task[s'.sleepers[j]].wake > s.jiffies
  {
    var s1 := Next(s, PassStart(c));
    PassBegun(s, c);
    PassRun(s1, steps, c);
    hide Apply, TaskOk, Valid, After;
    var s' := After(s1, steps);
    assert CpuOk(s', c);
  }

  lemma PassBegun(s: State, c: nat)
    requires Inv(s) && Enabled(s, PassStart(c))
    ensures Next(s, PassStart(c)).pc[c] == Pass(0, s.jiffies) && Next(s, PassStart(c)).sleepers == s.sleepers
  {
    hide TaskOk, CpuOk;
  }

  // ----- Queue order -----

  /**
   A queued task's position never rises, and falls when its CPU takes from the
   queue; it leaves the queue only from the front, into the hands of the CPU that took it.
   */
  lemma Advances(s: State, step: Step, c: nat, i: nat)
    requires Inv(s) && Enabled(s, step) && c < CPUS && i < |s.queue[c]|
    ensures var q', t := Apply(s, step).queue[c], s.queue[c][i];
            || (i < |q'| && q'[i] == t && step != Take(c))
            || (0 < i <= |q'| && q'[i - 1] == t)
            || (i == 0 && t !in q' && (step == Take(c) || step.StealStep?) && Apply(s, step).pc[step.c] == Got(t))
  {
    if !step.Birth? {
      assert CpuOk(s, step.c);
    }
    assert CpuOk(s, c);
  }

  /** The task stays on the queue all through the run. */
  ghost predicate Stays(s: State, steps: seq<Step>, c: nat, t: Tid)
    requires Inv(s) && Valid(s, steps) && c < CPUS
    decreases |steps|
  {
    t in s.queue[c] && (steps == [] || Stays(Next(s, steps[0]), steps[1..], c, t))
  }

  /** That is: after every beginning of the run it is there. */
  lemma {:induction false} StaysIs(s: State, steps: seq<Step>, c: nat, t: Tid)
    requires Inv(s) && Valid(s, steps) && c < CPUS
    ensures Stays(s, steps, c, t)
            <==> forall k: nat :: k <= |steps| ==> Valid(s, steps[..k]) && t in After(s, steps[..k]).queue[c]
    decreases |steps|
  {
    hide Apply, Enabled, TaskOk, CpuOk, SleepOk;
    assert steps[..0] == [];
    if steps != [] {
      var s1, rest := Next(s, steps[0]), steps[1..];
      StaysIs(s1, rest, c, t);
      forall k: nat | 0 < k <= |steps|
        ensures Valid(s, steps[..k]) <==> Valid(s1, rest[..k - 1])
        ensures Valid(s, steps[..k]) ==> After(s, steps[..k]) == After(s1, rest[..k - 1])
      {
        assert steps[..k][0] == steps[0] && steps[..k][1..] == rest[..k - 1];
      }
      if forall k: nat :: k <= |steps| ==> Valid(s, steps[..k]) && t in After(s, steps[..k]).queue[c] {
        forall k: nat | k <= |rest|
          ensures Valid(s1, rest[..k]) && t in After(s1, rest[..k]).queue[c]
        {
          assert Valid(s, steps[..k + 1]);
        }
        assert t in After(s, steps[..0]).queue[c];
      }
    }
  }

  lemma {:induction false} FewTakes(s: State, steps: seq<Step>, c: nat, i: nat)
    requires Inv(s) && Valid(s, steps) && c < CPUS && i < |s.queue[c]| && Stays(s, steps, c, s.queue[c][i])
    ensures Count(steps, Take(c)) <= i
    decreases |steps|
  {
    hide Apply, Enabled, TaskOk, CpuOk;
    if steps != [] {
      var s1, t := Next(s, steps[0]), s.queue[c][i];
      Advances(s, steps[0], c, i);
      assert t in s1.queue[c];
      if 0 < i <= |s1.queue[c]| && s1.queue[c][i - 1] == t {
        FewTakes(s1, steps[1..], c, i - 1);
      } else {
        FewTakes(s1, steps[1..], c, i);
      }
    }
  }

  /** A task at position i of a queue leaves it within i + 1 takes of its CPU. */
  lemma TakenInTurn(s: State, steps: seq<Step>, c: nat, i: nat)
    requires Inv(s) && Valid(s, steps) && c < CPUS && i < |s.queue[c]| && Count(steps, Take(c)) >= i + 1
    ensures !Stays(s, steps, c, s.queue[c][i])
  {
    if Stays(s, steps, c, s.queue[c][i]) {
      FewTakes(s, steps, c, i);
    }
  }
}
