/**
 The SMP scheduler as a transition system (src/kernel/sched.c). Every step is
 one critical section, or one access to state that is read or written outside a
 lock; each CPU has a program counter between its steps.

 Task.home and Task.where are history: the CPU that created the task, and where
 the steps have put it. The code does not store them.
 */
module Sched {
  import opened Options
  import opened Links

  const CPUS := 256
  const LIMIT := 0x1_0000_0000_0000_0000

  type Tid = nat

  datatype RunState = Ready | Sleeping

  datatype Where = InQueue(cpu: nat) | HeldBy(cpu: nat) | InHand(cpu: nat) | Born(cpu: nat) | Dormant

  datatype Task = Task(state: RunState, onReady: bool, onCpu: bool, pinned: bool, cpu: nat, wake: nat, home: nat, where: Where)

  /** g_current of one CPU. */
  datatype Current = Offline | Idle | Running(t: Tid)

  /**
   Run: in thread context. Slept: has put its task on the sleep list and must yield.
   Timer: in the timer interrupt, before the wake pass. Pass: in the wake pass, i sleepers kept so far, begun at jiffies since.
   Hand: has taken t off the sleep list and is about to enqueue it. Enter: at the start of schedule_from_irq.
   Requeue: about to enqueue the outgoing task. Pick: about to take from its own queue. Steal: about to try victim number i.
   Got: has dequeued t and is about to make it current.
   */
  datatype Pc =
    | Off | Run | Slept | Timer
    | Pass(i: nat, since: nat) | Hand(i: nat, since: nat, t: Tid)
    | Enter | Requeue(t: Tid) | Pick | Steal(i: nat) | Got(t: Tid)

  datatype State = State(
    queue: seq<seq<Tid>>, pc: seq<Pc>, cur: seq<Current>,
    sleepers: seq<Tid>, task: map<Tid, Task>, jiffies: nat, lock: Option<nat>)

  /** init_sched on the boot CPU. */
  function Init(bsp: nat): State
    requires bsp < CPUS
  {
    State(seq(CPUS, _ => []), seq(CPUS, _ => Off)[bsp := Run], seq(CPUS, _ => Offline)[bsp := Idle], [], map[], 0, None)
  }

  datatype Step =
    | Boot(c: nat)
    | Create(c: nat, t: Tid, pinned: bool, target: nat)
    | Birth(t: Tid)
    | Sleep(c: nat, jf: nat)
    | Yield(c: nat)
    | TimerIrq(c: nat, bsp: bool)
    | PassStart(c: nat)
    | PassStep(c: nat)
    | HandOver(c: nat)
    | PassEnd(c: nat)
    | SwitchOut(c: nat)
    | Put(c: nat)
    | Take(c: nat)
    | StealStep(c: nat)
    | SwitchIn(c: nat)

  ghost predicate Shape(s: State) {
    |s.queue| == CPUS && |s.pc| == CPUS && |s.cur| == CPUS
  }

  // ----- The critical sections -----

  /** ready_enqueue_locked. */
  function Enqueue(s: State, c: nat, t: Tid): State
    requires c < |s.queue| && t in s.task
  {
    if s.task[t].onReady then s
    else s.(queue := s.queue[c := s.queue[c] + [t]], task := s.task[t := s.task[t].(onReady := true, cpu := c, where := InQueue(c))])
  }

  /** ready_dequeue_locked on the queue of CPU from, by CPU c. */
  function Dequeue(s: State, from: nat, c: nat): State
    requires from < |s.queue| && c < |s.pc| && s.queue[from] != [] && s.queue[from][0] in s.task
  {
    var t := s.queue[from][0];
    s.(queue := s.queue[from := s.queue[from][1..]], pc := s.pc[c := Got(t)],
       task := s.task[t := s.task[t].(onReady := false, where := HeldBy(c))])
  }

  function At(s: State, c: nat, pc: Pc): State
    requires c < |s.pc|
  {
    s.(pc := s.pc[c := pc])
  }

  /** The CPU that rq_steal_one tries i-th. */
  function Victim(c: nat, i: nat): (v: nat)
    ensures v < CPUS
  {
    (c + i) % CPUS
  }

  ghost predicate Enabled(s: State, step: Step)
    requires Shape(s)
  {
    match step
    case Boot(c) => c < CPUS && s.pc[c] == Off
    case Create(c, t, pinned, target) =>
      c < CPUS && s.pc[c] == Run && t !in s.task && target < CPUS && (if pinned then target == c else s.cur[target] != Offline)
    case Birth(t) => t in s.task && s.task[t].where.Born? && s.task[t].where.cpu < CPUS
    case Sleep(c, jf) => c < CPUS && s.pc[c] == Run && s.cur[c].Running? && s.cur[c].t in s.task && 0 < jf < LIMIT && s.lock == None
    case Yield(c) => c < CPUS && (s.pc[c] == Run || s.pc[c] == Slept)
    case TimerIrq(c, bsp) => c < CPUS && (s.pc[c] == Run || s.pc[c] == Slept) && s.jiffies + 1 < LIMIT
    case PassStart(c) => c < CPUS && s.pc[c] == Timer && s.lock == None
    case PassStep(c) => c < CPUS && s.pc[c].Pass? && s.pc[c].i < |s.sleepers| && s.sleepers[s.pc[c].i] in s.task
    case HandOver(c) => c < CPUS && s.pc[c].Hand? && s.pc[c].t in s.task && s.task[s.pc[c].t].cpu < CPUS
    case PassEnd(c) => c < CPUS && s.pc[c].Pass? && s.pc[c].i == |s.sleepers|
    case SwitchOut(c) =>
      c < CPUS && s.pc[c] == Enter && (s.cur[c] == Idle || (s.cur[c].Running? && s.cur[c].t in s.task && s.lock == None))
    case Put(c) => c < CPUS && s.pc[c].Requeue? && s.pc[c].t in s.task
    case Take(c) => c < CPUS && s.pc[c] == Pick && (s.queue[c] != [] ==> s.queue[c][0] in s.task)
    case StealStep(c) =>
      c < CPUS && s.pc[c].Steal? && 1 <= s.pc[c].i < CPUS
      && (s.queue[Victim(c, s.pc[c].i)] != [] ==> s.queue[Victim(c, s.pc[c].i)][0] in s.task)
    case SwitchIn(c) =>
      c < CPUS && ((s.pc[c].Got? && s.pc[c].t in s.task) || (s.pc[c].Steal? && s.pc[c].i == CPUS))
  }

  ghost function Apply(s: State, step: Step): State
    requires Shape(s) && Enabled(s, step)
  {
    match step
    case Boot(c) => At(s, c, Run).(cur := s.cur[c := Idle])
    case Create(c, t, pinned, target) => s.(task := s.task[t := Task(Ready, false, false, pinned, target, 0, c, Born(target))])
    case Birth(t) => Enqueue(s, s.task[t].where.cpu, t)
    case Sleep(c, jf) => DoSleep(s, c, jf)
    case Yield(c) => At(s, c, Enter)
    case TimerIrq(c, bsp) => At(s, c, Timer).(jiffies := if bsp then s.jiffies + 1 else s.jiffies)
    case PassStart(c) => At(s, c, Pass(0, s.jiffies)).(lock := Some(c))
    case PassStep(c) => DoPass(s, c)
    case HandOver(c) => DoHandOver(s, c)
    case PassEnd(c) => At(s, c, Enter).(lock := None)
    case SwitchOut(c) => DoSwitchOut(s, c)
    case Put(c) => DoPut(s, c)
    case Take(c) => DoTake(s, c)
    case StealStep(c) => DoSteal(s, c)
    case SwitchIn(c) => DoSwitchIn(s, c)
  }

  /** The locked part of sched_sleep_jiffies. */
  function DoSleep(s: State, c: nat, jf: nat): State
    requires c < |s.pc| && c < |s.cur| && s.cur[c].Running? && s.cur[c].t in s.task
  {
    var t := s.cur[c].t;
    At(s, c, Slept).(sleepers := [t] + s.sleepers, task := s.task[t := s.task[t].(state := Sleeping, wake := (s.jiffies + jf) % LIMIT)])
  }

  /** One round of the loop of sched_wake_sleepers, up to the enqueueing. */
  function DoPass(s: State, c: nat): State
    requires c < |s.pc| && s.pc[c].Pass? && s.pc[c].i < |s.sleepers| && s.sleepers[s.pc[c].i] in s.task
  {
    var i, since := s.pc[c].i, s.pc[c].since;
    var t := s.sleepers[i];
    if s.jiffies >= s.task[t].wake then
      var s1 := s.(sleepers := s.sleepers[..i] + s.sleepers[i + 1..]);
      if s.task[t].onCpu then s1.(task := s.task[t := s.task[t].(state := Ready)])
      else At(s1, c, Hand(i, since, t)).(task := s.task[t := s.task[t].(state := Ready, where := InHand(c))])
    else At(s, c, Pass(i + 1, since))
  }

  /** The ready_enqueue of sched_wake_sleepers. */
  function DoHandOver(s: State, c: nat): State
    requires c < |s.pc| && s.pc[c].Hand? && s.pc[c].t in s.task && s.task[s.pc[c].t].cpu < |s.queue|
  {
    At(Enqueue(s, s.task[s.pc[c].t].cpu, s.pc[c].t), c, Pass(s.pc[c].i, s.pc[c].since))
  }

  /** The ready_enqueue of schedule_from_irq. */
  function DoPut(s: State, c: nat): State
    requires c < |s.pc| && c < |s.queue| && s.pc[c].Requeue? && s.pc[c].t in s.task
  {
    At(Enqueue(s, c, s.pc[c].t), c, Pick)
  }

  /** ready_dequeue_local. */
  function DoTake(s: State, c: nat): State
    requires c < |s.pc| && c < |s.queue| && (s.queue[c] != [] ==> s.queue[c][0] in s.task)
  {
    if s.queue[c] == [] then At(s, c, Steal(1)) else Dequeue(s, c, c)
  }

  /** schedule_from_irq up to the decision to requeue. */
  function DoSwitchOut(s: State, c: nat): State
    requires c < |s.pc| && c < |s.cur| && (s.cur[c] == Idle || (s.cur[c].Running? && s.cur[c].t in s.task))
  {
    if s.cur[c] == Idle then At(s, c, Pick)
    else
      var t := s.cur[c].t;
      if s.task[t].state == Ready then At(s, c, Requeue(t)).(task := s.task[t := s.task[t].(onCpu := false)])
      else At(s, c, Pick).(task := s.task[t := s.task[t].(onCpu := false, where := Dormant)])
  }

  /** One victim of rq_steal_one. */
  function DoSteal(s: State, c: nat): State
    requires c < |s.pc| == |s.queue| == |s.cur| == CPUS && s.pc[c].Steal?
    requires s.queue[Victim(c, s.pc[c].i)] != [] ==> s.queue[Victim(c, s.pc[c].i)][0] in s.task
  {
    var v := Victim(c, s.pc[c].i);
    if s.cur[v] == Offline || s.queue[v] == [] || s.task[s.queue[v][0]].pinned then At(s, c, Steal(s.pc[c].i + 1))
    else Dequeue(s, v, c)
  }

  /** The end of schedule_from_irq. */
  function DoSwitchIn(s: State, c: nat): State
    requires c < |s.pc| && c < |s.cur| && (s.pc[c].Got? ==> s.pc[c].t in s.task)
  {
    if s.pc[c].Got? then
      At(s, c, Run).(cur := s.cur[c := Running(s.pc[c].t)], task := s.task[s.pc[c].t := s.task[s.pc[c].t].(onCpu := true, cpu := c)])
    else At(s, c, Run).(cur := s.cur[c := Idle])
  }

  // ----- The invariant -----

  /** The CPU runs its current task: it has not yet given it up in schedule_from_irq. */
  predicate Live(pc: Pc) {
    pc.Run? || pc.Slept? || pc.Timer? || pc.Pass? || pc.Hand? || pc.Enter?
  }

  /** The task a CPU holds: its current one until it is given up, then the one it is about to queue or run. */
  function Held(pc: Pc, cur: Current): Option<Tid> {
    if Live(pc) && cur.Running? then Some(cur.t)
    else if pc.Requeue? || pc.Got? then Some(pc.t)
    else None
  }

  predicate Locking(pc: Pc) {
    pc.Pass? || pc.Hand?
  }

  ghost predicate TaskOk(s: State, t: Tid)
    requires Shape(s) && t in s.task
  {
    var k := s.task[t];
    && k.cpu < CPUS && k.wake < LIMIT
    && (k.onReady <==> k.where.InQueue?)
    && (k.where.Dormant? || k.where.cpu < CPUS)
    && (k.where.InQueue? ==> t in s.queue[k.where.cpu] && k.cpu == k.where.cpu)
    && (k.where.HeldBy? ==> Held(s.pc[k.where.cpu], s.cur[k.where.cpu]) == Some(t))
    && (k.where.InHand? ==> s.pc[k.where.cpu].Hand? && s.pc[k.where.cpu].t == t)
    && (k.onCpu <==> k.where.HeldBy? && Live(s.pc[k.where.cpu]))
    && (k.state == Sleeping <==> t in s.sleepers)
    && (k.state == Sleeping ==> k.where.Dormant? || (k.where.HeldBy? && Live(s.pc[k.where.cpu]) && s.pc[k.where.cpu] != Run))
    && (k.where.Dormant? ==> k.state == Sleeping)
    && (k.pinned ==> k.cpu == k.home && (!k.where.Dormant? && !k.where.InHand? ==> k.where.cpu == k.home))
  }

  ghost predicate CpuOk(s: State, c: nat)
    requires Shape(s) && c < CPUS
  {
    && (s.pc[c] == Off <==> s.cur[c] == Offline)
    && Distinct(s.queue[c])
    && (forall i :: 0 <= i < |s.queue[c]| ==> s.queue[c][i] in s.task && s.task[s.queue[c][i]].where == InQueue(c))
    && (Held(s.pc[c], s.cur[c]).Some? ==>
        Held(s.pc[c], s.cur[c]).value in s.task && s.task[Held(s.pc[c], s.cur[c]).value].where == HeldBy(c))
    && (s.pc[c].Hand? ==> s.pc[c].t in s.task && s.task[s.pc[c].t].where == InHand(c))
    && (Locking(s.pc[c]) <==> s.lock == Some(c))
    && (Locking(s.pc[c]) ==> s.pc[c].i <= |s.sleepers| && s.pc[c].since <= s.jiffies)
    && (Locking(s.pc[c]) ==> forall j :: 0 <= j < s.pc[c].i ==> s.sleepers[j] in s.task && s.task[s.sleepers[j]].wake > s.pc[c].since)
    && (s.pc[c].Steal? ==> 1 <= s.pc[c].i <= CPUS)
  }

  ghost predicate SleepOk(s: State) {
    Distinct(s.sleepers) && forall i :: 0 <= i < |s.sleepers| ==> s.sleepers[i] in s.task
  }

  ghost predicate Inv(s: State) {
    && Shape(s) && SleepOk(s) && s.jiffies < LIMIT
    && (forall t :: t in s.task ==> TaskOk(s, t))
    && (forall c: nat :: c < CPUS ==> CpuOk(s, c))
  }

  lemma InitInv(bsp: nat)
    requires bsp < CPUS
    ensures var s := Init(bsp);
            && Inv(s) && s.jiffies == 0 && s.task == map[] && s.sleepers == []
            && forall c: nat :: c < CPUS ==> s.queue[c] == [] && s.cur[c] == if c == bsp then Idle else Offline
  {
  }
}
