/**
 The scheduler's lists as the code keeps them: run queues linked through next
 with head and tail pointers, and the sleep list linked through sleep_next. Each
 method is a piece of src/kernel/sched.c:68-147, 185-189, 280-379 and takes the
 steps of the transition system that belong to it.
 */
module SchedLists {
  import opened Options
  import opened Links
  import opened Sched
  import opened SchedSteps
  import opened SchedRuns

  class Kernel {
    var head: seq<Link>
    var tail: seq<Link>
    var next: map<Tid, Link>
    var sleepHead: Link
    var sleepNext: map<Tid, Link>
    var task: map<Tid, Task>
    var cur: seq<Current>
    var jiffies: nat
    ghost var s: State

    /** The fields hold the abstract state. */
    ghost predicate Rep()
      reads this
    {
      && Inv(s) && |head| == CPUS && |tail| == CPUS
      && task == s.task && cur == s.cur && jiffies == s.jiffies
      && (forall c :: 0 <= c < CPUS ==> IsQueue(next, head[c], tail[c], s.queue[c]))
      && IsList(sleepNext, sleepHead, s.sleepers)
    }

    /** ready_enqueue_locked, for a task that is on no queue or already on one. */
    method ReadyEnqueue(c: nat, t: Tid)
      requires Rep() && c < CPUS && t in s.task
      modifies this`head, this`tail, this`next, this`task, this`s
      ensures |head| == CPUS && |tail| == CPUS && task == s.task
      ensures s == Enqueue(old(s), c, t)
      ensures forall d :: 0 <= d < CPUS ==> IsQueue(next, head[d], tail[d], s.queue[d])
    {
      hide LinkOk, TaskOk, CpuOk, SleepOk;
      NotQueued(t);
      if task[t].onReady {
        return;
      }
      ghost var q := s.queue[c];
      task := task[t := task[t].(onReady := true, cpu := c, where := InQueue(c))];
      next := next[t := None];
      forall d | 0 <= d < CPUS
        ensures IsQueue(next, head[d], tail[d], s.queue[d])
      {
        Unlinked(old(next), head[d], tail[d], s.queue[d], t, None);
      }
      QueueDistinct(s, c);
      OneQueued(next, head[c], tail[c], q, t);
      if tail[c].Some? {
        ghost var next1 := next;
        LastElsewhere(c);
        next := next[tail[c].value := Some(t)];
        forall d | 0 <= d < CPUS && d != c
          ensures IsQueue(next, head[d], tail[d], s.queue[d])
        {
          Unlinked(next1, head[d], tail[d], s.queue[d], tail[c].value, Some(t));
        }
      } else {
        head := head[c := Some(t)];
      }
      tail := tail[c := Some(t)];
      s := Enqueue(s, c, t);
    }

    /** A task that is not marked ready is on no queue. */
    lemma NotQueued(t: Tid)
      requires Inv(s) && t in s.task
      ensures !s.task[t].onReady ==> forall d :: 0 <= d < CPUS ==> t !in s.queue[d]
    {
      assert TaskOk(s, t);
      forall d: nat | d < CPUS
        ensures !s.task[t].onReady ==> t !in s.queue[d]
      {
        assert CpuOk(s, d);
      }
    }

    /** A queued task is on one queue only. */
    lemma Elsewhere(c: nat, i: nat)
      requires Inv(s) && c < CPUS && i < |s.queue[c]|
      ensures s.queue[c][i] in s.task && forall d :: 0 <= d < CPUS && d != c ==> s.queue[c][i] !in s.queue[d]
    {
      assert CpuOk(s, c);
      forall d: nat | d < CPUS && d != c
        ensures s.queue[c][i] !in s.queue[d]
      {
        assert CpuOk(s, d);
      }
    }

    lemma LastElsewhere(c: nat)
      requires Inv(s) && c < CPUS
      ensures s.queue[c] != [] ==> forall d :: 0 <= d < CPUS && d != c ==> s.queue[c][|s.queue[c]| - 1] !in s.queue[d]
    {
      if s.queue[c] != [] {
        Elsewhere(c, |s.queue[c]| - 1);
      }
    }

    /** ready_dequeue_locked on queue from, by CPU c. */
    method ReadyDequeue(from: nat, c: nat) returns (r: Link)
      requires Rep() && from < CPUS && c < CPUS
      modifies this`head, this`tail, this`next, this`task, this`s
      ensures |head| == CPUS && |tail| == CPUS && task == s.task
      ensures r == if old(s).queue[from] == [] then None else Some(old(s).queue[from][0])
      ensures r == None ==> s == old(s)
      ensures r.Some? ==> r.value in old(s).task && s == Dequeue(old(s), from, c)
      ensures forall d :: 0 <= d < CPUS ==> IsQueue(next, head[d], tail[d], s.queue[d])
    {
      hide LinkOk, TaskOk, CpuOk, SleepOk;
      r := head[from];
      if r == None {
        return;
      }
      var t := r.value;
      ghost var q := s.queue[from];
      Elsewhere(from, 0);
      QueueDistinct(s, from);
      FirstRemoved(next, head[from], tail[from], q);
      head := head[from := next[t]];
      if head[from] == None {
        tail := tail[from := None];
      }
      next := next[t := None];
      task := task[t := task[t].(onReady := false, where := HeldBy(c))];
      s := Dequeue(s, from, c);
      forall d | 0 <= d < CPUS && d != from
        ensures IsQueue(next, head[d], tail[d], s.queue[d])
      {
        Unlinked(old(next), head[d], tail[d], s.queue[d], t, None);
      }
    }

    /** ready_dequeue_local. */
    method DequeueLocal(c: nat) returns (r: Link)
      requires Rep() && c < CPUS && s.pc[c] == Pick
      modifies this
      ensures Rep() && Enabled(old(s), Take(c)) && s == Next(old(s), Take(c))
      ensures r == if old(s).queue[c] == [] then None else Some(old(s).queue[c][0])
      ensures s.pc[c] == if r.Some? then Got(r.value) else Steal(1)
      ensures s.queue == (if r.Some? then old(s).queue[c := old(s).queue[c][1..]] else old(s).queue) && Alike(old(s), s)
    {
      HeadKnown(c);
      ghost var s0 := s;
      ghost var step := Next(s, Take(c));
      r := ReadyDequeue(c, c);
      s := step;
    }

    lemma HeadKnown(c: nat)
      requires Inv(s) && c < CPUS
      ensures s.queue[c] != [] ==> s.queue[c][0] in s.task
    {
      assert CpuOk(s, c);
    }

    /** One victim of rq_steal_one: skipped when offline, empty or headed by a pinned task. */
    method StealFrom(c: nat, i: nat) returns (r: Link)
      requires Rep() && c < CPUS && s.pc[c] == Steal(i) && 1 <= i < CPUS
      modifies this
      ensures Rep() && Enabled(old(s), StealStep(c)) && s == Next(old(s), StealStep(c))
      ensures r.Some? ==> s.pc[c] == Got(r.value)
      ensures r == None ==> s.pc[c] == Steal(i + 1) && s.queue == old(s).queue
      ensures var v := Victim(c, i);
              && (r.Some? <==> !Barren(old(s), v))
              && (r.Some? ==> old(s).queue[v] != [] && r.value == old(s).queue[v][0] && s.queue == old(s).queue[v := old(s).queue[v][1..]])
    {
      var victim := Victim(c, i);
      HeadKnown(victim);
      ghost var s' := Next(s, StealStep(c));
      r := None;
      if cur[victim] == Offline {
        s := s';
        return;
      }
      if head[victim].Some? && task[head[victim].value].pinned {
        s := s';
        return;
      }
      r := ReadyDequeue(victim, c);
      s := s';
    }
  
    // ----- The sleep list -----

    /** The locked part of sched_sleep_jiffies for the current task of c: sleep_enqueue puts it first. */
    method SleepOn(c: nat, jf: nat)
      requires Rep() && Enabled(s, Sleep(c, jf))
      modifies this
      ensures Rep() && s == Next(old(s), Sleep(c, jf))
      ensures var t := old(s).cur[c].t;
              && s.sleepers == [t] + old(s).sleepers && s.queue == old(s).queue && s.cur == old(s).cur && t in s.task
              && s.task[t].state == Sleeping && s.task[t].wake == (old(s).jiffies + jf) % 0x1_0000_0000_0000_0000
    {
      hide LinkOk, TaskOk, CpuOk, IsList;
      var t := cur[c].t;
      ghost var s' := Next(s, Sleep(c, jf));
      AwakeNotListed(c);
      Prepended(sleepNext, sleepHead, s.sleepers, t);
      task := task[t := task[t].(state := Sleeping, wake := (jiffies + jf) % LIMIT)];
      sleepNext := sleepNext[t := sleepHead];
      sleepHead := Some(t);
      s := s';
    }

    lemma AwakeNotListed(c: nat)
      requires Inv(s) && c < CPUS && s.pc[c] == Run && s.cur[c].Running?
      ensures s.cur[c].t in s.task && s.cur[c].t !in s.sleepers
    {
      assert CpuOk(s, c) && TaskOk(s, s.cur[c].t);
    }

    /** What *pp reads: the link after the last sleeper kept, or the head of the list. */
    function At(pp: Link): Link
      requires pp.Some? ==> pp.value in sleepNext
      reads this`sleepHead, this`sleepNext
    {
      if pp.Some? then sleepNext[pp.value] else sleepHead
    }

    /** pp stands behind the first i sleepers. */
    ghost predicate Behind(pp: Link, i: nat)
      reads this`s
    {
      i <= |s.sleepers| && pp == if i == 0 then None else Some(s.sleepers[i - 1])
    }

    lemma KeptSome(c: nat, pp: Link)
      requires Rep() && c < CPUS && s.pc[c].Pass? && Behind(pp, s.pc[c].i)
      ensures pp.Some? ==> pp.value in sleepNext
      ensures At(pp).Some? <==> s.pc[c].i < |s.sleepers|
      ensures s.pc[c].i < |s.sleepers| ==> At(pp) == Some(s.sleepers[s.pc[c].i])
    {
      if s.pc[c].i > 0 {
        assert LinkOk(sleepNext, s.sleepers, s.pc[c].i - 1);
      }
    }

    /** One round of the loop of sched_wake_sleepers, pp standing behind the sleepers kept so far. */
    method WakeRound(c: nat, pp: Link) returns (pp': Link, woken: Link)
      requires Rep() && c < CPUS && s.pc[c].Pass? && s.pc[c].i < |s.sleepers| && Behind(pp, s.pc[c].i)
      modifies this
      ensures Rep() && Enabled(old(s), PassStep(c)) && s == Next(old(s), PassStep(c))
      ensures woken == None ==> s.pc[c].Pass? && Behind(pp', s.pc[c].i)
      ensures woken.Some? ==> s.pc[c].Hand? && s.pc[c].t == woken.value && Behind(pp', s.pc[c].i)
      ensures var i := old(s).pc[c].i;
              var t := old(s).sleepers[i];
              && t in old(s).task && t in s.task && s.queue == old(s).queue && s.cur == old(s).cur
              && if old(s).jiffies >= old(s).task[t].wake
                 then s.sleepers == old(s).sleepers[..i] + old(s).sleepers[i + 1..] && s.task[t].state == Ready
                      && woken == if old(s).task[t].onCpu then None else Some(t)
                 else s.sleepers == old(s).sleepers && s.task == old(s).task && woken == None
    {
      hide LinkOk, TaskOk, CpuOk;
      ghost var i, q := s.pc[c].i, s.sleepers;
      ghost var s' := Next(s, PassStep(c));
      KeptSome(c, pp);
      var t := At(pp).value;
      pp', woken := pp, None;
      if jiffies >= task[t].wake {
        LinkPast(sleepNext, sleepHead, q, i);
        if pp.Some? {
          sleepNext := sleepNext[pp.value := sleepNext[t]];
        } else {
          sleepHead := sleepNext[t];
        }
        sleepNext := sleepNext[t := None];
        if task[t].onCpu {
          task := task[t := task[t].(state := Ready)];
        } else {
          task := task[t := task[t].(state := Ready, where := InHand(c))];
          woken := Some(t);
        }
      } else {
        pp' := Some(t);
      }
      s := s';
    }

    /** The ready_enqueue of a woken task. */
    method EnqueueWoken(c: nat, t: Tid)
      requires Rep() && Enabled(s, HandOver(c)) && s.pc[c].t == t
      modifies this
      ensures Rep() && s == Next(old(s), HandOver(c))
      ensures t in old(s).task && var k := old(s).task[t].cpu;
              k < CPUS && s.queue == old(s).queue[k := old(s).queue[k] + [t]] && s.cur == old(s).cur && s.sleepers == old(s).sleepers
    {
      NeverDropped(s, HandOver(c));
      hide LinkOk, TaskOk, CpuOk;
      ghost var s' := Next(s, HandOver(c));
      ReadyEnqueue(task[t].cpu, t);
      s := s';
    }

    /** A step that changes none of the fields. */
    ghost method Silent(step: Step)
      requires Rep() && Enabled(s, step) && (step.PassStart? || step.PassEnd?)
      modifies this`s
      ensures Rep() && s == Next(old(s), step)
    {
      hide LinkOk, TaskOk, CpuOk;
      s := Next(s, step);
    }

    lemma InHandKnown(c: nat)
      requires Inv(s) && c < CPUS && s.pc[c].Hand?
      ensures Enabled(s, HandOver(c))
    {
      assert CpuOk(s, c) && TaskOk(s, s.pc[c].t);
    }

    lemma SleepersEnd(c: nat)
      requires Rep() && c < CPUS && s.pc[c].Pass? && s.pc[c].i >= |s.sleepers|
      ensures s.pc[c].i == |s.sleepers|
    {
      assert CpuOk(s, c);
    }

    /** sched_wake_sleepers, undisturbed: it takes steps of this CPU only and leaves no expired sleeper. */
    method WakeSleepers(c: nat) returns (ghost steps: seq<Step>)
      requires Rep() && c < CPUS && Enabled(s, PassStart(c))
      modifies this
      ensures Rep() && Valid(old(s), steps) && s == After(old(s), steps)
      ensures s.pc[c] == Enter && s.lock == None
      ensures forall i :: 0 <= i < |s.sleepers| ==> s.sleepers[i] in s.task && jiffies < s.task[s.sleepers[i]].wake
      ensures forall k :: 0 <= k < |steps| ==> steps[k] in {PassStart(c), PassStep(c), HandOver(c), PassEnd(c)}
      ensures forall t :: t in s.sleepers <==> t in old(s).sleepers && t in old(s).task && old(s).task[t].wake > old(s).jiffies
    {
      hide LinkOk, TaskOk, CpuOk, SleepOk, Apply, Enabled, Thinned, PassOnly;
      ghost var s0 := s;
      Silent(PassStart(c));
      steps := [PassStart(c)];
      var pp := None;
      PassStarted(s0, c);
      PassBegins(steps, c);
      KeptSome(c, pp);
      while At(pp).Some?
        invariant Rep() && Valid(s0, steps) && s == After(s0, steps) && Thinned(s0, s) && PassOnly(steps, c)
        invariant s.pc[c].Pass? && s.pc[c].since == s.jiffies && Behind(pp, s.pc[c].i) && (pp.Some? ==> pp.value in sleepNext)
        invariant At(pp).Some? <==> s.pc[c].i < |s.sleepers|
        decreases |s.sleepers| - s.pc[c].i
      {
        ghost var s1 := s;
        pp, steps := WakeOne(c, pp, s0, steps);
        ThinnedMore(s0, s1, s);
        KeptSome(c, pp);
      }
      SleepersEnd(c);
      NoneLeft(s, c);
      LeftOver(s0, s);
      Silent(PassEnd(c));
      Snoc(s0, steps, PassEnd(c));
      PassGoesOn(steps, c, PassEnd(c));
      steps := steps + [PassEnd(c)];
      PassShows(steps, c);
    }

    /** One round, and the enqueue that follows it if a task was woken that is off every CPU. */
    method WakeOne(c: nat, pp: Link, ghost s0: State, ghost steps0: seq<Step>) returns (pp': Link, ghost steps: seq<Step>)
      requires Rep() && c < CPUS && s.pc[c].Pass? && s.pc[c].i < |s.sleepers| && Behind(pp, s.pc[c].i)
      requires Inv(s0) && Valid(s0, steps0) && s == After(s0, steps0) && PassOnly(steps0, c)
      modifies this
      ensures Rep() && Valid(s0, steps) && s == After(s0, steps) && PassOnly(steps, c) && Thinned(old(s), s)
      ensures s.pc[c].Pass? && s.pc[c].since == old(s).pc[c].since && s.jiffies == old(s).jiffies && Behind(pp', s.pc[c].i)
      ensures |s.sleepers| - s.pc[c].i == |old(s).sleepers| - old(s).pc[c].i - 1
    {
      hide LinkOk, TaskOk, CpuOk, SleepOk, Apply, Enabled, Thinned, PassOnly;
      var woken;
      ghost var s1 := s;
      pp', woken := WakeRound(c, pp);
      Snoc(s0, steps0, PassStep(c));
      PassGoesOn(steps0, c, PassStep(c));
      steps := steps0 + [PassStep(c)];
      RoundLess(s1, c);
      if woken.Some? {
        InHandKnown(c);
        ghost var s2 := s;
        EnqueueWoken(c, woken.value);
        Snoc(s0, steps, HandOver(c));
        PassGoesOn(steps, c, HandOver(c));
        steps := steps + [HandOver(c)];
        HandedOver(s2, c);
        ThinnedMore(s1, s2, s);
      }
    }

    // ----- Switching -----

    /** schedule_from_irq up to the decision to requeue the outgoing task. */
    method SwitchOutOf(c: nat) returns (requeue: Link)
      requires Rep() && Enabled(s, SwitchOut(c))
      modifies this
      ensures Rep() && s == Next(old(s), SwitchOut(c)) && s.queue == old(s).queue && Alike(old(s), s)
      ensures if requeue.Some? then s.pc[c] == Requeue(requeue.value) else s.pc[c] == Pick
      ensures Outgoing(old(s), c) == if requeue.Some? then [requeue.value] else []
    {
      hide LinkOk, TaskOk, CpuOk;
      ghost var s' := Next(s, SwitchOut(c));
      requeue := None;
      if cur[c] != Idle {
        var t := cur[c].t;
        if task[t].state == Ready {
          requeue := Some(t);
          task := task[t := task[t].(onCpu := false)];
        } else {
          task := task[t := task[t].(onCpu := false, where := Dormant)];
        }
      }
      s := s';
    }

    /** The outgoing task goes to the end of this CPU's queue. */
    method PutBack(c: nat, t: Tid)
      requires Rep() && Enabled(s, Put(c)) && s.pc[c].t == t
      modifies this
      ensures Rep() && s == Next(old(s), Put(c)) && s.pc[c] == Pick
      ensures s.queue == old(s).queue[c := old(s).queue[c] + [t]] && Alike(old(s), s)
    {
      NeverDropped(s, Put(c));
      hide LinkOk, TaskOk, CpuOk;
      ghost var s' := Next(s, Put(c));
      ReadyEnqueue(c, t);
      s := s';
    }

    /** The end of schedule_from_irq: the next task, or the idle task, becomes current. */
    method SwitchTo(c: nat, next: Link)
      requires Rep() && Enabled(s, SwitchIn(c)) && (if next.Some? then s.pc[c] == Got(next.value) else s.pc[c].Steal?)
      modifies this
      ensures Rep() && s == Next(old(s), SwitchIn(c)) && s.pc[c] == Run && s.queue == old(s).queue
      ensures s.cur == old(s).cur[c := if next.Some? then Running(next.value) else Idle]
      ensures forall t :: t in old(s).task ==> t in s.task && s.task[t].pinned == old(s).task[t].pinned
    {
      hide LinkOk, TaskOk, CpuOk;
      ghost var s' := Next(s, SwitchIn(c));
      if next.Some? {
        var t := next.value;
        task := task[t := task[t].(onCpu := true, cpu := c)];
        cur := cur[c := Running(t)];
      } else {
        cur := cur[c := Idle];
      }
      s := s';
    }

    lemma GotKnown(c: nat)
      requires Inv(s) && c < CPUS
      ensures s.pc[c].Got? ==> Enabled(s, SwitchIn(c))
      ensures s.pc[c].Requeue? ==> Enabled(s, Put(c))
      ensures s.pc[c] == Steal(CPUS) ==> Enabled(s, SwitchIn(c))
      ensures s.pc[c] == Enter && s.lock == None ==> Enabled(s, SwitchOut(c))
    {
      assert CpuOk(s, c);
    }

    /**
     rq_steal_one, undisturbed: the first task of the next CPU, in a round that
     starts behind this one, that has anything to take; nothing exactly if no
     other CPU has.
     */
    method StealOne(c: nat, ghost s0: State, ghost steps0: seq<Step>) returns (next: Link, ghost steps: seq<Step>, ghost from: nat)
      requires Rep() && c < CPUS && s.pc[c] == Steal(1) && Inv(s0) && Valid(s0, steps0) && s == After(s0, steps0)
      modifies this
      ensures Rep() && Valid(s0, steps) && s == After(s0, steps)
      ensures |steps0| <= |steps| && Own(steps, c, |steps0|) && steps[..|steps0|] == steps0
      ensures if next.Some? then s.pc[c] == Got(next.value) && TakenFrom(old(s), s, c, from, next.value)
              else s.pc[c] == Steal(CPUS) && s.task == old(s).task && NoneToTake(old(s), c)
      ensures s.cur == old(s).cur && (next == None ==> s.queue == old(s).queue)
    {
      hide LinkOk, TaskOk, CpuOk, Apply, Enabled, SleepOk;
      steps, next, from := steps0, None, 0;
      var i := 1;
      while i < CPUS
        invariant 1 <= i <= CPUS && Rep() && Valid(s0, steps) && s == After(s0, steps) && s.pc[c] == Steal(i)
        invariant Own(steps, c, |steps0|) && steps[..|steps0|] == steps0
        invariant s.queue == old(s).queue && s.task == old(s).task && s.cur == old(s).cur
        invariant next == None && forall v: nat :: v < CPUS && v != c && Turn(c, v) < i ==> Barren(old(s), v)
      {
        ghost var s1 := s;
        from := Victim(c, i);
        TurnOf(c, i);
        next := StealFrom(c, i);
        Snoc(s0, steps, StealStep(c));
        steps := steps + [StealStep(c)];
        Stolen(s1, c, i);
        if next.Some? {
          return;
        }
        i := i + 1;
      }
    }

    /**
     schedule_from_irq, undisturbed: it takes steps of this CPU only. The outgoing
     task, if ready, goes behind the others; the first of the queue runs next, else the
     first task of the next CPU that has anything to take, else the idle task, and that
     exactly if no other CPU has. No other queue changes.
     */
    method ScheduleFromIrq(c: nat) returns (ghost steps: seq<Step>, ghost from: nat)
      requires Rep() && c < CPUS && s.pc[c] == Enter && s.lock == None
      modifies this
      ensures Rep() && Valid(old(s), steps) && s == After(old(s), steps) && s.pc[c] == Run && Own(steps, c, 0)
      ensures var waiting := old(s).queue[c] + Outgoing(old(s), c);
              if waiting != [] then s.cur[c] == Running(waiting[0])
              else if s.cur[c] == Idle then s.queue == old(s).queue && NoneToTake(old(s), c)
              else s.cur[c].Running? && TakenFrom(old(s), s, c, from, s.cur[c].t)
      ensures var waiting := old(s).queue[c] + Outgoing(old(s), c);
              waiting != [] ==> s.queue == old(s).queue[c := waiting[1..]]
    {
      hide TaskOk, CpuOk, Apply, Enabled, SleepOk, Barren, NoneToTake, TakenFrom, Alike;
      ghost var s0 := s;
      GotKnown(c);
      var requeue := SwitchOutOf(c);
      steps := [];
      Snoc(s0, steps, SwitchOut(c));
      steps := steps + [SwitchOut(c)];
      if requeue.Some? {
        GotKnown(c);
        PutBack(c, requeue.value);
        Snoc(s0, steps, Put(c));
        steps := steps + [Put(c)];
      }
      ghost var steps1 := steps;
      ghost var mid, waiting := s, s0.queue[c] + Outgoing(s0, c);
      assert mid.queue[c] == waiting && mid.queue == s0.queue[c := waiting];
      var r;
      r, steps, from := PickNext(c, s0, steps);
      OwnAll(steps, c, |steps1|);
      GotKnown(c);
      Snoc(s0, steps, SwitchIn(c));
      ghost var s1 := s;
      SwitchTo(c, r);
      steps := steps + [SwitchIn(c)];
      if waiting == [] {
        TakenAlike(s0, mid, s1, s, c, from, r);
      }
    }

    /** schedule_from_irq between the two switches: the local queue, then the others. */
    method PickNext(c: nat, ghost s0: State, ghost steps0: seq<Step>) returns (r: Link, ghost steps: seq<Step>, ghost from: nat)
      requires Rep() && c < CPUS && s.pc[c] == Pick && Inv(s0) && Valid(s0, steps0) && s == After(s0, steps0)
      modifies this
      ensures Rep() && Valid(s0, steps) && s == After(s0, steps)
      ensures |steps0| <= |steps| && Own(steps, c, |steps0|) && steps[..|steps0|] == steps0
      ensures if r.Some? then s.pc[c] == Got(r.value) else s.pc[c] == Steal(CPUS)
      ensures old(s).queue[c] != [] ==> r == Some(old(s).queue[c][0]) && s.queue == old(s).queue[c := old(s).queue[c][1..]]
      ensures old(s).queue[c] == [] ==>
                if r.Some? then TakenFrom(old(s), s, c, from, r.value) else s.queue == old(s).queue && NoneToTake(old(s), c)
      ensures s.cur == old(s).cur
    {
      hide TaskOk, CpuOk, Apply, Enabled, SleepOk, Barren, Own, TakenFrom, NoneToTake;
      ghost var s1 := s;
      from := c;
      r := DequeueLocal(c);
      Snoc(s0, steps0, Take(c));
      steps := steps0 + [Take(c)];
      OwnNothing(steps, c);
      if r == None {
        ghost var s2 := s;
        r, steps, from := StealOne(c, s0, steps);
        TakenAlike(s1, s2, s, s, c, from, r);
      }
      OwnFrom(steps0, Take(c), steps, c);
    }
  }

  /** From number k on, the steps are those of schedule_from_irq on CPU c. */
  ghost predicate Own(steps: seq<Step>, c: nat, k: nat) {
    k <= |steps| && forall j :: k <= j < |steps| ==> steps[j] in {SwitchOut(c), Put(c), Take(c), StealStep(c), SwitchIn(c)}
  }

  lemma OwnNothing(steps: seq<Step>, c: nat)
    ensures Own(steps, c, |steps|) && steps[..|steps|] == steps
  {
  }

  lemma OwnFrom(steps0: seq<Step>, step: Step, steps: seq<Step>, c: nat)
    requires |steps0| < |steps| && steps[..|steps0| + 1] == steps0 + [step] && Own(steps, c, |steps0| + 1)
    requires step in {SwitchOut(c), Put(c), Take(c), StealStep(c), SwitchIn(c)}
    ensures |steps0| <= |steps| && Own(steps, c, |steps0|) && steps[..|steps0|] == steps0
  {
    assert steps[|steps0|] == steps[..|steps0| + 1][|steps0|];
    assert steps[..|steps0|] == steps[..|steps0| + 1][..|steps0|];
  }

  lemma OwnAll(steps: seq<Step>, c: nat, k: nat)
    requires Own(steps, c, k) && Own(steps[..k], c, 0)
    ensures Own(steps, c, 0)
  {
    assert forall j :: 0 <= j < k ==> steps[..k][j] == steps[j];
  }

  /** The outgoing task of CPU c if it is still ready. */
  ghost function Outgoing(s: State, c: nat): seq<Tid>
    requires c < |s.cur|
  {
    if s.cur[c].Running? && s.cur[c].t in s.task && s.task[s.cur[c].t].state == Ready then [s.cur[c].t] else []
  }

  /** CPU v has nothing a thief may take. */
  ghost predicate Barren(s: State, v: nat)
    requires Shape(s) && v < CPUS
  {
    s.cur[v] == Offline || s.queue[v] == [] || (s.queue[v][0] in s.task && s.task[s.queue[v][0]].pinned)
  }

  /** The same tasks run, and tasks keep their pinning. */
  ghost predicate Alike(s: State, s': State) {
    s'.cur == s.cur && forall t :: t in s.task ==> t in s'.task && s'.task[t].pinned == s.task[t].pinned
  }

  lemma BarrenAlike(s: State, s': State)
    requires Inv(s) && Shape(s') && Alike(s, s') && s'.queue == s.queue
    ensures forall v: nat :: v < CPUS ==> (Barren(s', v) <==> Barren(s, v))
  {
    forall v: nat | v < CPUS
      ensures Barren(s', v) <==> Barren(s, v)
    {
      assert CpuOk(s, v);
    }
  }

  /** What is true of the choice is true of the state at the start, which had the same queues and running tasks. */
  lemma TakenAlike(s0: State, s1: State, s2: State, s3: State, c: nat, v: nat, r: Link)
    requires Inv(s0) && Shape(s1) && Alike(s0, s1) && s1.queue == s0.queue && s3.queue == s2.queue && c < CPUS
    requires if r.Some? then TakenFrom(s1, s2, c, v, r.value) else NoneToTake(s1, c)
    ensures if r.Some? then TakenFrom(s0, s3, c, v, r.value) else NoneToTake(s0, c)
  {
    hide Barren, Alike;
    BarrenAlike(s0, s1);
  }

  /** When, in the round of CPU c, the turn of CPU v comes. */
  function Turn(c: nat, v: nat): nat
    requires c < CPUS && v < CPUS
  {
    if v > c then v - c else v + CPUS - c
  }

  /** Every other CPU has its turn, once, after fewer than CPUS tries. */
  lemma TurnOf(c: nat, i: nat)
    requires c < CPUS && 1 <= i < CPUS
    ensures Victim(c, i) != c && Turn(c, Victim(c, i)) == i
    ensures forall v: nat :: v < CPUS && v != c ==> 1 <= Turn(c, v) < CPUS && Victim(c, Turn(c, v)) == v
    ensures forall v: nat :: v < CPUS && v != c && Turn(c, v) == i ==> v == Victim(c, i)
  {
  }

  /** No CPU but c has anything a thief may take. */
  ghost predicate NoneToTake(s: State, c: nat)
    requires Shape(s)
  {
    forall v: nat :: v < CPUS && v != c ==> Barren(s, v)
  }

  /** t was the first task of CPU v, the first in the round of c that had anything to take, and left only v's queue. */
  ghost predicate TakenFrom(s: State, s': State, c: nat, v: nat, t: Tid)
    requires Shape(s) && c < CPUS
  {
    && v < CPUS && v != c && !Barren(s, v) && s.queue[v] != [] && t == s.queue[v][0]
    && s'.queue == s.queue[v := s.queue[v][1..]]
    && forall w: nat :: w < CPUS && w != c && Turn(c, w) < Turn(c, v) ==> Barren(s, w)
  }

  /** What a try to steal does. */
  lemma Stolen(s: State, c: nat, i: nat)
    requires Inv(s) && c < CPUS && s.pc[c] == Steal(i) && Enabled(s, StealStep(c))
    ensures var s', v := Next(s, StealStep(c)), Victim(c, i);
            && s'.cur == s.cur
            && (s'.pc[c] == Steal(i + 1) ==> s' == At(s, c, Steal(i + 1)) && Barren(s, v))
            && (s'.pc[c] != Steal(i + 1) ==>
                !Barren(s, v) && s.queue[v] != [] && s'.pc[c] == Got(s.queue[v][0]) && s'.queue == s.queue[v := s.queue[v][1..]])
  {
    hide LinkOk, TaskOk, CpuOk;
  }

  /** No deadline has changed. */
  ghost predicate SameWakes(s: State, s': State) {
    forall t :: t in s.task ==> t in s'.task && s'.task[t].wake == s.task[t].wake
  }

  /** Sleepers went, but none whose deadline lies ahead; no deadline changed. */
  ghost predicate Thinned(s: State, s': State) {
    && s'.jiffies == s.jiffies && SameWakes(s, s')
    && (forall t :: t in s'.sleepers ==> t in s.sleepers)
    && (forall t :: t in s.sleepers && t in s.task && s.task[t].wake > s.jiffies ==> t in s'.sleepers)
  }

  lemma ThinnedMore(s0: State, s1: State, s2: State)
    requires Thinned(s0, s1) && Thinned(s1, s2)
    ensures Thinned(s0, s2)
  {
  }

  lemma LeftOver(s0: State, s: State)
    requires Inv(s0) && Thinned(s0, s)
    requires forall i :: 0 <= i < |s.sleepers| ==> s.sleepers[i] in s.task && s.jiffies < s.task[s.sleepers[i]].wake
    ensures forall t :: t in s.sleepers <==> t in s0.sleepers && t in s0.task && s0.task[t].wake > s0.jiffies
  {
    hide TaskOk, CpuOk;
    assert SleepOk(s0);
    forall t | t in s.sleepers
      ensures t in s0.task && s0.task[t].wake > s0.jiffies
    {
      var i :| 0 <= i < |s.sleepers| && s.sleepers[i] == t;
      var j :| 0 <= j < |s0.sleepers| && s0.sleepers[j] == t;
    }
  }

  /** The steps are those of a wake pass of CPU c. */
  ghost predicate PassOnly(steps: seq<Step>, c: nat) {
    forall k :: 0 <= k < |steps| ==> steps[k] in {PassStart(c), PassStep(c), HandOver(c), PassEnd(c)}
  }

  lemma PassBegins(steps: seq<Step>, c: nat)
    requires steps == [PassStart(c)]
    ensures PassOnly(steps, c)
  {
  }

  lemma PassGoesOn(steps: seq<Step>, c: nat, step: Step)
    requires PassOnly(steps, c) && step in {PassStep(c), HandOver(c), PassEnd(c)}
    ensures PassOnly(steps + [step], c)
  {
  }

  lemma PassShows(steps: seq<Step>, c: nat)
    requires PassOnly(steps, c)
    ensures forall k :: 0 <= k < |steps| ==> steps[k] in {PassStart(c), PassStep(c), HandOver(c), PassEnd(c)}
  {
  }

  lemma PassStarted(s: State, c: nat)
    requires Inv(s) && Enabled(s, PassStart(c))
    ensures c < CPUS && Next(s, PassStart(c)).pc[c] == Pass(0, s.jiffies) && Next(s, PassStart(c)).jiffies == s.jiffies
    ensures Thinned(s, Next(s, PassStart(c)))
  {
    hide LinkOk, TaskOk, CpuOk;
  }

  lemma RoundLess(s: State, c: nat)
    requires Inv(s) && Enabled(s, PassStep(c))
    ensures var s' := Next(s, PassStep(c));
            && Locking(s'.pc[c]) && s'.pc[c].since == s.pc[c].since && s'.jiffies == s.jiffies && Thinned(s, s')
            && |s'.sleepers| - s'.pc[c].i == |s.sleepers| - s.pc[c].i - 1
  {
    hide LinkOk, TaskOk, CpuOk;
  }

  lemma HandedOver(s: State, c: nat)
    requires Inv(s) && Enabled(s, HandOver(c))
    ensures var s' := Next(s, HandOver(c));
            && s'.pc[c] == Pass(s.pc[c].i, s.pc[c].since) && s'.jiffies == s.jiffies && s'.sleepers == s.sleepers
            && Thinned(s, s')
  {
    hide LinkOk, TaskOk, CpuOk;
  }

  lemma NoneLeft(s: State, c: nat)
    requires Inv(s) && c < CPUS && s.pc[c] == Pass(|s.sleepers|, s.jiffies)
    ensures Enabled(s, PassEnd(c))
    ensures var s' := Next(s, PassEnd(c));
            && s'.pc[c] == Enter && s'.lock == None && s'.sleepers == s.sleepers && s'.task == s.task
            && forall i :: 0 <= i < |s.sleepers| ==> s.sleepers[i] in s.task && s.jiffies < s.task[s.sleepers[i]].wake
  {
    assert CpuOk(s, c);
  }

  lemma QueueDistinct(s: State, c: nat)
    requires Inv(s) && c < CPUS
    ensures Distinct(s.queue[c])
  {
    assert CpuOk(s, c);
  }
}
