/**
 The multi-CPU run queue as a step machine.

 One step is a whole `schedule()` on one CPU, or one `sched_task()`.  The queue
 runs from head to tail; tasks enter at the head and leave at the tail.

 `pop_task` never resets `head`.  Popping the last task therefore leaves a head
 without a tail, and no later push sets the tail again: the queue is `stuck`
 and every pop yields the idle task.  `resets` chooses the repair, which clears
 `head` with `tail`; with `resets` false the machine is the source as written.
 */
module SchedSpec {
  import opened Collections
  import opened IntrusiveList

  const IDLE: nat := 0

  type Regs = seq<nat>

  datatype Sched = Sched(resets: bool, stuck: bool, queue: seq<nat>, current: seq<int>, saved: seq<Regs>)

  predicate IsTask(t: int) {
    t != NULL && t != IDLE
  }

  /** `_sched_task`. */
  function Push(s: Sched, t: int): Sched
    requires t >= NULL
  {
    if !IsTask(t) || s.stuck then s else s.(queue := [t as nat] + s.queue)
  }

  /** `pop_task`. */
  function Pop(s: Sched): (Sched, nat) {
    if s.stuck || s.queue == [] then (s, IDLE)
    else (s.(queue := s.queue[..|s.queue| - 1], stuck := |s.queue| == 1 && !s.resets), s.queue[|s.queue| - 1])
  }

  /** `save_task`. */
  function Save(s: Sched, cpu: nat, regs: Regs): Sched
    requires cpu < |s.current| && NULL <= s.current[cpu] < |s.saved|
  {
    if s.current[cpu] == NULL then s else s.(saved := s.saved[s.current[cpu] := regs])
  }

  /** `schedule` through `go_to_task`. */
  function Schedule(s: Sched, cpu: nat, regs: Regs): Sched
    requires cpu < |s.current| && NULL <= s.current[cpu] < |s.saved|
  {
    var (s', t) := Pop(Push(Save(s, cpu, regs), s.current[cpu]));
    s'.(current := s.current[cpu := t])
  }

  /** A task is queued at most once or current on at most one CPU, never both; idle is never queued. */
  ghost predicate Inv(s: Sched) {
    && |s.saved| > IDLE
    && (s.stuck ==> s.queue == [] && !s.resets)
    && Distinct(s.queue) && (forall t :: t in s.queue ==> IDLE < t < |s.saved|)
    && (forall c :: 0 <= c < |s.current| ==> NULL <= s.current[c] < |s.saved| && s.current[c] !in s.queue)
    && (forall c, d :: 0 <= c < d < |s.current| && IsTask(s.current[c]) ==> s.current[c] != s.current[d])
  }

  ghost predicate Known(s: Sched, t: nat) {
    t in s.queue || (IsTask(t) && exists c :: 0 <= c < |s.current| && s.current[c] == t)
  }

  /** How many tasks are nearer the tail than `t`. */
  ghost predicate Waits(s: Sched, t: nat, k: nat) {
    !s.stuck && k < |s.queue| && s.queue[|s.queue| - 1 - k] == t
  }

  datatype Op = Tick(cpu: nat, regs: Regs) | Spawn(task: nat)

  ghost predicate Legal(s: Sched, op: Op) {
    match op
    case Tick(cpu, _) => cpu < |s.current|
    case Spawn(t) => t < |s.saved| && !Known(s, t)
  }

  ghost function Step(s: Sched, op: Op): Sched
    requires Inv(s) && Legal(s, op)
  {
    match op
    case Tick(cpu, regs) => Schedule(s, cpu, regs)
    case Spawn(t) => Push(s, t)
  }

  /* ---- one step ---- */

  lemma PushKeepsInv(s: Sched, t: int)
    requires Inv(s) && NULL <= t < |s.saved| && t !in s.queue
    requires IsTask(t) ==> forall c :: 0 <= c < |s.current| ==> s.current[c] != t
    ensures Inv(Push(s, t))
  {
  }

  lemma LastOut(q: seq<nat>)
    requires Distinct(q) && q != []
    ensures var last, rest := q[|q| - 1], q[..|q| - 1];
      Distinct(rest) && last !in rest && forall t :: t in q <==> t in rest || t == last
  {
    assert q == q[..|q| - 1] + [q[|q| - 1]];
  }

  /** Dispatching the popped task `t` on `cpu`, whose own task is back in the queue. */
  lemma DispatchKeepsInv(s: Sched, cpu: nat, rest: seq<nat>, t: nat, current: seq<int>)
    requires Inv(s) && cpu < |s.current| && current == s.current[cpu := t] && !s.stuck
    requires Distinct(rest) && t < |s.saved| && t !in rest
    requires forall x :: x in rest || x == t ==> x == s.current[cpu] || x in s.queue
    requires forall x :: x in rest ==> IsTask(x)
    ensures Inv(s.(queue := rest, current := current))
    ensures rest == [] && !s.resets ==> Inv(s.(queue := rest, current := current, stuck := true))
  {
    hide Distinct;
    forall c | 0 <= c < |current| ensures NULL <= current[c] < |s.saved| && current[c] !in rest {
      assert s.current[c] !in s.queue;
    }
    forall c, d | 0 <= c < d < |current| && IsTask(current[c]) ensures current[c] != current[d] {
      assert s.current[c] !in s.queue && s.current[d] !in s.queue;
    }
  }

  lemma SaveKeepsInv(s: Sched, cpu: nat, regs: Regs)
    requires Inv(s) && cpu < |s.current|
    ensures Inv(Save(s, cpu, regs))
  {
    hide Distinct;
  }

  lemma PushedQueue(s: Sched, t: int)
    requires Inv(s) && NULL <= t < |s.saved| && t !in s.queue && !s.stuck
    ensures var q := Push(s, t).queue;
      && Distinct(q)
      && forall x :: x in q <==> x in s.queue || (IsTask(t) && x == t)
  {
  }

  lemma TickKeepsInv(s: Sched, cpu: nat, regs: Regs)
    requires Inv(s) && cpu < |s.current|
    ensures Inv(Schedule(s, cpu, regs))
  {
    hide Distinct;
    var s0 := Save(s, cpu, regs);
    SaveKeepsInv(s, cpu, regs);
    if s.stuck {
      return;
    }
    PushedQueue(s0, s.current[cpu]);
    var q := Push(s0, s.current[cpu]).queue;
    if q != [] {
      LastOut(q);
      DispatchKeepsInv(s0, cpu, q[..|q| - 1], q[|q| - 1], s.current[cpu := q[|q| - 1]]);
    }
  }

  lemma StepKeepsInv(s: Sched, op: Op)
    requires Inv(s) && Legal(s, op)
    ensures Inv(Step(s, op))
  {
    match op
    case Tick(cpu, regs) => TickKeepsInv(s, cpu, regs);
    case Spawn(t) => PushKeepsInv(s, t);
  }

  /** A tick loses no task and invents none, except from a stuck queue. */
  lemma TickKeepsTasks(s: Sched, cpu: nat, regs: Regs, t: nat)
    requires Inv(s) && cpu < |s.current| && !s.stuck
    ensures Known(Schedule(s, cpu, regs), t) <==> Known(s, t)
  {
    hide Distinct;
    var s1 := Push(Save(s, cpu, regs), s.current[cpu]);
    var s' := Schedule(s, cpu, regs);
    SaveKeepsInv(s, cpu, regs);
    PushedQueue(Save(s, cpu, regs), s.current[cpu]);
    if s1.queue != [] {
      LastOut(s1.queue);
    }
    assert t in s1.queue <==> t in s.queue || (IsTask(t) && t == s.current[cpu]);
    assert s'.current[cpu] == Pop(s1).1;
    if Known(s, t) && t !in s1.queue {
      var c :| 0 <= c < |s.current| && s.current[c] == t;
      assert s'.current[c] == t;
    }
    if Known(s', t) && t !in s'.queue {
      var c :| 0 <= c < |s'.current| && s'.current[c] == t;
      assert c != cpu ==> s.current[c] == t;
    }
  }

  /** Exactly when one `schedule()` of the source breaks the queue: it pops the only task there is to pop. */
  lemma BreaksIff(s: Sched, cpu: nat, regs: Regs)
    requires Inv(s) && cpu < |s.current|
    ensures Schedule(s, cpu, regs).stuck <==>
      s.stuck || (!s.resets && |s.queue| + (if IsTask(s.current[cpu]) then 1 else 0) == 1)
  {
  }

  /** A tick either dispatches the task at the tail or moves every waiting task one place nearer to it. */
  lemma TickServes(s: Sched, cpu: nat, regs: Regs, t: nat, k: nat)
    requires Inv(s) && cpu < |s.current| && Waits(s, t, k)
    ensures var s' := Schedule(s, cpu, regs);
      if k == 0 then s'.current[cpu] == t else Waits(s', t, k - 1)
  {
  }

  /** Where the registers go: to the task the CPU ran, idle included, and nowhere else.  No other CPU changes its task. */
  lemma TickSaves(s: Sched, cpu: nat, regs: Regs)
    requires Inv(s) && cpu < |s.current|
    ensures var s' := Schedule(s, cpu, regs);
      && |s'.saved| == |s.saved| && |s'.current| == |s.current|
      && (forall u: nat :: u < |s.saved| ==> s'.saved[u] == if u == s.current[cpu] then regs else s.saved[u])
      && (forall c: nat :: c < |s.current| && c != cpu ==> s'.current[c] == s.current[c])
  {
  }

  /** Which task a tick goes to. */
  function Target(s: Sched, cpu: nat): int
    requires cpu < |s.current|
  {
    if s.queue != [] then s.queue[|s.queue| - 1]
    else if s.stuck || s.current[cpu] == NULL then IDLE
    else s.current[cpu]
  }

  /**
   What a tick restores: the saved registers of the task at the tail; with
   nobody waiting, the very registers it was given if the CPU keeps its task,
   idle included, and the saved ones of idle if it had none or its task is lost
   in a stuck queue.
   */
  lemma TickRestores(s: Sched, cpu: nat, regs: Regs)
    requires Inv(s) && cpu < |s.current|
    ensures var s' := Schedule(s, cpu, regs); var t := s'.current[cpu];
      && t == Target(s, cpu) && 0 <= t < |s'.saved|
      && s'.saved[t] == if t == s.current[cpu] then regs else s.saved[t]
  {
    hide Distinct;
    TickSaves(s, cpu, regs);
    TickKeepsInv(s, cpu, regs);
    assert s.queue != [] ==> s.queue[|s.queue| - 1] in s.queue;
  }

  /** A spawned task waits behind all others; a stuck queue swallows it.  Nothing else changes. */
  lemma SpawnQueues(s: Sched, t: nat)
    requires Inv(s) && Legal(s, Spawn(t))
    ensures var s' := Step(s, Spawn(t));
      && s'.saved == s.saved && s'.current == s.current && s'.stuck == s.stuck
      && if IsTask(t) && !s.stuck then Waits(s', t, |s.queue|) && |s'.queue| == |s.queue| + 1 else s'.queue == s.queue
  {
  }

  lemma SpawnKeepsPlace(s: Sched, t': nat, t: nat, k: nat)
    requires Inv(s) && Waits(s, t, k)
    ensures Waits(Push(s, t'), t, k)
  {
  }
}
