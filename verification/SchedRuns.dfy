/**
 Whole runs of the scheduler: tasks are never lost while they outnumber the
 CPUs, waiting is bounded, registers survive preemption, and a stuck queue
 never recovers.
 */
module SchedRuns {
  import opened Collections
  import opened IntrusiveList
  import opened SchedSpec

  ghost predicate LegalRun(s: Sched, ops: seq<Op>)
    requires Inv(s)
    decreases |ops|
  {
    ops == [] || (Legal(s, ops[0]) && (StepKeepsInv(s, ops[0]); LegalRun(Step(s, ops[0]), ops[1..])))
  }

  ghost function Run(s: Sched, ops: seq<Op>): Sched
    requires Inv(s) && LegalRun(s, ops)
    decreases |ops|
  {
    if ops == [] then s
    else
      StepKeepsInv(s, ops[0]);
      Run(Step(s, ops[0]), ops[1..])
  }

  function Ticks(ops: seq<Op>): nat {
    if ops == [] then 0 else (if ops[0].Tick? then 1 else 0) + Ticks(ops[1..])
  }

  lemma {:induction false} RunKeepsInv(s: Sched, ops: seq<Op>)
    requires Inv(s) && LegalRun(s, ops)
    ensures Inv(Run(s, ops)) && |Run(s, ops).current| == |s.current| && |Run(s, ops).saved| == |s.saved|
    decreases |ops|
  {
    if ops == [] {
    } else {
      StepKeepsInv(s, ops[0]);
      RunKeepsInv(Step(s, ops[0]), ops[1..]);
    }
  }

  /* ---- no task is lost ---- */

  function Running(current: seq<int>): (r: set<int>)
    ensures |r| <= |current|
    ensures forall t :: t in r <==> IsTask(t) && t in current
  {
    if current == [] then {}
    else
      var n := |current| - 1;
      assert current == current[..n] + [current[n]];
      Running(current[..n]) + if IsTask(current[n]) then {current[n]} else {}
  }

  /** The tasks the scheduler knows: queued or current. */
  function Tasks(s: Sched): set<int> {
    Running(s.queue) + Running(s.current)
  }

  lemma InTasks(s: Sched)
    ensures forall t: int :: t in Tasks(s) <==> IsTask(t) && ((t >= 0 && t as nat in s.queue) || t in s.current)
  {
  }

  lemma TasksAreKnown(s: Sched, t: nat)
    requires Inv(s)
    ensures t in Tasks(s) <==> Known(s, t)
  {
  }

  lemma {:induction false} IdleCpu(current: seq<int>, cpu: nat)
    requires cpu < |current| && !IsTask(current[cpu])
    ensures |Running(current)| < |current|
  {
    var n := |current| - 1;
    if cpu < n {
      IdleCpu(current[..n], cpu);
    }
  }

  /** With more tasks than CPUs, a tick always leaves a task in the queue. */
  lemma TickStaysSound(s: Sched, cpu: nat, regs: Regs)
    requires Inv(s) && cpu < |s.current| && !s.stuck && |Tasks(s)| > |s.current|
    ensures !Schedule(s, cpu, regs).stuck
  {
    hide Schedule, Running, Inv, Tasks;
    BreaksIff(s, cpu, regs);
    var mine := if IsTask(s.current[cpu]) then {s.current[cpu]} else {};
    var others := Running(s.current[cpu := NULL]);
    IdleCpu(s.current[cpu := NULL], cpu);
    if |s.queue| + |mine| == 1 {
      var queued := Running(s.queue);
      TasksCovered(s, cpu);
      CardOfUnion(queued + mine, others, Tasks(s));
      CardOfUnion(queued, mine, queued + mine);
      assert false;
    }
  }

  lemma TasksCovered(s: Sched, cpu: nat)
    requires cpu < |s.current|
    ensures Tasks(s) <= Running(s.queue) + (if IsTask(s.current[cpu]) then {s.current[cpu]} else {}) + Running(s.current[cpu := NULL])
  {
    forall t | t in s.current ensures t == s.current[cpu] || t in s.current[cpu := NULL] {
      var c :| 0 <= c < |s.current| && s.current[c] == t;
      assert c != cpu ==> s.current[cpu := NULL][c] == t;
    }
    InTasks(s);
    forall t: int | t in Tasks(s)
      ensures t in Running(s.queue) || t == s.current[cpu] || t in Running(s.current[cpu := NULL])
    {
    }
  }

  lemma CardOfUnion(a: set<int>, b: set<int>, c: set<int>)
    requires c <= a + b
    ensures |c| <= |a| + |b|
  {
    Smaller(c, a + b);
    assert |a + b| + |a * b| == |a| + |b|;
  }

  lemma Smaller(c: set<int>, d: set<int>)
    requires c <= d
    ensures |c| <= |d|
  {
    assert d == c + (d - c);
    assert c * (d - c) == {};
    assert |c + (d - c)| + |c * (d - c)| == |c| + |d - c|;
  }

  lemma TickKeepsTaskSet(s: Sched, cpu: nat, regs: Regs)
    requires Inv(s) && cpu < |s.current| && !s.stuck
    ensures Tasks(Schedule(s, cpu, regs)) == Tasks(s)
  {
    hide Schedule, Tasks, Known, Distinct;
    var s' := Schedule(s, cpu, regs);
    TickKeepsInv(s, cpu, regs);
    hide Inv;
    TasksAreNats(s);
    TasksAreNats(s');
    forall t: nat ensures t in Tasks(s') <==> t in Tasks(s) {
      TickKeepsTasks(s, cpu, regs, t);
      TasksAreKnown(s, t);
      TasksAreKnown(s', t);
    }
  }

  lemma TasksAreNats(s: Sched)
    requires Inv(s)
    ensures forall t :: t in Tasks(s) ==> t >= 0
  {
  }

  lemma SpawnAddsTask(s: Sched, t: nat)
    requires !s.stuck
    ensures Tasks(Push(s, t)) == Tasks(s) + if t != IDLE then {t as int} else {}
  {
    hide Tasks, Running;
    InTasks(s);
    InTasks(Push(s, t));
    forall x: int ensures x in Tasks(Push(s, t)) <==> x in Tasks(s) || (IsTask(t) && x == t) {
      if x >= 0 && t != IDLE {
        var q: seq<nat> := [t] + s.queue;
        assert x as nat in q <==> x as nat in s.queue || x == t;
      }
    }
  }

  lemma StepKeepsTasks(s: Sched, op: Op)
    requires Inv(s) && Legal(s, op) && !s.stuck
    ensures Tasks(Step(s, op)) == Tasks(s) + if op.Spawn? && op.task != IDLE then {op.task as int} else {}
  {
    hide Tasks, Distinct;
    match op
    case Tick(cpu, regs) => TickKeepsTaskSet(s, cpu, regs);
    case Spawn(t) => SpawnAddsTask(s, t);
  }

  /** As written, the scheduler loses no task over any run if its tasks outnumber its CPUs; with the repair, always. */
  lemma {:induction false} RunKeepsTasks(s: Sched, ops: seq<Op>)
    requires Inv(s) && LegalRun(s, ops) && !s.stuck && (s.resets || |Tasks(s)| > |s.current|)
    ensures !Run(s, ops).stuck && Tasks(s) <= Tasks(Run(s, ops))
    decreases |ops|
  {
    hide Tasks, Distinct;
    if ops == [] {
    } else {
      var op := ops[0];
      var s1 := Step(s, op);
      StepKeepsInv(s, op);
      StepKeepsTasks(s, op);
      if op.Tick? {
        if !s.resets {
          TickStaysSound(s, op.cpu, op.regs);
        }
      }
      Smaller(Tasks(s), Tasks(s1));
      RunKeepsTasks(s1, ops[1..]);
    }
  }

  /** How many places hold task `t`. */
  function Places(s: Sched, t: int): nat {
    multiset(s.current)[t] + if t >= 0 then multiset(s.queue)[t as nat] else 0
  }

  lemma {:induction false} OnOneCpu(current: seq<int>, t: int)
    requires forall c, d :: 0 <= c < d < |current| && current[c] == t ==> current[d] != t
    ensures multiset(current)[t] == if t in current then 1 else 0
  {
    if current == [] {
    } else {
      OnOneCpu(current[1..], t);
      assert current == [current[0]] + current[1..];
    }
  }

  /** Every task is, at every point of a run, queued once or current on one CPU; idle is never queued. */
  lemma RunsPlaceTasksOnce(s: Sched, ops: seq<Op>, t: nat)
    requires Inv(s) && LegalRun(s, ops) && !s.stuck && (s.resets || |Tasks(s)| > |s.current|)
    requires t in Tasks(s)
    ensures Places(Run(s, ops), t) == 1 && IDLE !in Run(s, ops).queue
  {
    var s' := Run(s, ops);
    RunKeepsInv(s, ops);
    RunKeepsTasks(s, ops);
    assert IsTask(t) && t in Tasks(s');
    OnOneCpu(s'.current, t);
    DistinctMultiset(s'.queue);
    if t in s'.current {
      var c :| 0 <= c < |s'.current| && s'.current[c] == t;
      assert s'.current[c] !in s'.queue;
    }
  }

  /* ---- bounded wait and registers ---- */

  /** A waiting task stays queued, its registers untouched, until the ticks before it are used up. */
  lemma {:induction false} StillWaiting(s: Sched, t: nat, k: nat, ops: seq<Op>)
    requires Inv(s) && LegalRun(s, ops) && Waits(s, t, k) && Ticks(ops) <= k
    ensures Waits(Run(s, ops), t, k - Ticks(ops))
    ensures t < |s.saved| == |Run(s, ops).saved| && Run(s, ops).saved[t] == s.saved[t]
    decreases |ops|
  {
    hide Distinct;
    assert t in s.queue;
    if ops == [] {
    } else {
      var op := ops[0];
      StepKeepsInv(s, op);
      match op
      case Tick(cpu, regs) =>
        TickServes(s, cpu, regs, t, k);
        assert s.current[cpu] !in s.queue;
        StillWaiting(Step(s, op), t, k - 1, ops[1..]);
      case Spawn(t') =>
        SpawnKeepsPlace(s, t', t, k);
        StillWaiting(Step(s, op), t, k, ops[1..]);
    }
  }

  /**
   Bounded wait: a task with `k` tasks nearer the tail is queued through the
   next `k` ticks of any CPUs, whatever is spawned meanwhile, and the tick after
   those dispatches it, with the registers last saved for it.
   */
  lemma BoundedWait(s: Sched, t: nat, k: nat, ops: seq<Op>, cpu: nat, regs: Regs)
    requires Inv(s) && LegalRun(s, ops) && Waits(s, t, k) && Ticks(ops) <= k && cpu < |s.current|
    ensures t in Run(s, ops).queue && Inv(Run(s, ops)) && |Run(s, ops).current| == |s.current|
    ensures Ticks(ops) == k ==>
      var s' := Schedule(Run(s, ops), cpu, regs);
      s'.current[cpu] == t && t < |s'.saved| == |s.saved| && s'.saved[t] == s.saved[t]
  {
    hide Distinct;
    StillWaiting(s, t, k, ops);
    RunKeepsInv(s, ops);
    var r := Run(s, ops);
    assert t in r.queue && r.current[cpu] !in r.queue;
    if Ticks(ops) == k {
      TickServes(r, cpu, regs, t, 0);
    }
  }

  /** The preempted task is queued behind all others, or dispatched again at once if there are none. */
  lemma Rejoins(s: Sched, cpu: nat, regs: Regs)
    requires Inv(s) && !s.stuck && cpu < |s.current| && IsTask(s.current[cpu])
    ensures var t, s1 := s.current[cpu], Schedule(s, cpu, regs);
      && |s1.current| == |s.current| && t < |s1.saved| && s1.saved[t] == regs
      && if s.queue == [] then s1.current[cpu] == t else Waits(s1, t, |s.queue| - 1)
  {
    hide Distinct;
  }

  lemma {:induction false} RunOfConcat(s: Sched, a: seq<Op>, b: seq<Op>)
    requires Inv(s) && LegalRun(s, a + b)
    ensures LegalRun(s, a) && Inv(Run(s, a)) && LegalRun(Run(s, a), b)
    ensures Run(s, a + b) == Run(Run(s, a), b) && Ticks(a + b) == Ticks(a) + Ticks(b)
    decreases |a|
  {
    hide Inv;
    if a == [] {
      assert a + b == b;
    } else {
      assert (a + b)[0] == a[0] && (a + b)[1..] == a[1..] + b;
      StepKeepsInv(s, a[0]);
      RunOfConcat(Step(s, a[0]), a[1..], b);
    }
  }

  lemma RunOfOne(s: Sched, op: Op)
    requires Inv(s) && LegalRun(s, [op])
    ensures Legal(s, op) && Run(s, [op]) == Step(s, op) && Ticks([op]) == if op.Tick? then 1 else 0
  {
    StepKeepsInv(s, op);
    assert [op][1..] == [];
  }

  /**
   Context preservation: take any run that begins with the preemption of a task
   on `ops[0].cpu` and ends with a tick, so many ticks long that those queued
   before the task have had theirs.  The last tick dispatches the task, on
   whichever CPU, with the registers saved at the first; in between it is queued.
   */
  lemma ContextPreserved(s: Sched, ops: seq<Op>)
    requires Inv(s) && !s.stuck && LegalRun(s, ops)
    requires ops != [] && ops[0].Tick? && ops[|ops| - 1].Tick? && Ticks(ops) == |s.queue| + 1
    requires ops[0].cpu < |s.current| && IsTask(s.current[ops[0].cpu])
    ensures var t, r := s.current[ops[0].cpu], Run(s, ops);
      && ops[|ops| - 1].cpu < |r.current| && r.current[ops[|ops| - 1].cpu] == t
      && t < |r.saved| && r.saved[t] == ops[0].regs
    ensures forall j :: 0 < j < |ops| ==> LegalRun(s, ops[..j]) && s.current[ops[0].cpu] in Run(s, ops[..j]).queue
  {
    hide Inv, Distinct, Schedule;
    var cpu, n := ops[0].cpu, |ops| - 1;
    assert ops == [ops[0]] + ops[1..];
    RunOfConcat(s, [ops[0]], ops[1..]);
    RunOfOne(s, ops[0]);
    Rejoins(s, cpu, ops[0].regs);
    if s.queue == [] {
      OnlyTick(ops);
    } else {
      QueuedUntilLast(s, ops);
    }
  }

  /** A run that ends in a tick has one. */
  lemma {:induction false} LastTick(ops: seq<Op>)
    ensures ops != [] && ops[|ops| - 1].Tick? ==> Ticks(ops) > 0
  {
    if ops == [] || |ops| == 1 {
    } else {
      LastTick(ops[1..]);
    }
  }

  lemma OnlyTick(ops: seq<Op>)
    requires ops != [] && ops[0].Tick? && ops[|ops| - 1].Tick? && Ticks(ops) == 1
    ensures ops == [ops[0]]
  {
    if |ops| > 1 {
      LastTick(ops[1..]);
    }
  }

  /** The first tick aside, the task waits through all but the last. */
  lemma QueuedUntilLast(s: Sched, ops: seq<Op>)
    requires Inv(s) && !s.stuck && LegalRun(s, ops) && s.queue != []
    requires ops != [] && ops[0].Tick? && ops[|ops| - 1].Tick? && Ticks(ops) == |s.queue| + 1
    requires ops[0].cpu < |s.current| && IsTask(s.current[ops[0].cpu])
    ensures var t, r := s.current[ops[0].cpu], Run(s, ops);
      && ops[|ops| - 1].cpu < |r.current| && r.current[ops[|ops| - 1].cpu] == t
      && t < |r.saved| && r.saved[t] == ops[0].regs
    ensures forall j :: 0 < j < |ops| ==> LegalRun(s, ops[..j]) && s.current[ops[0].cpu] in Run(s, ops[..j]).queue
  {
    hide Inv, Distinct, Schedule, Run, LegalRun;
    var t, k, n := s.current[ops[0].cpu], |s.queue| - 1, |ops| - 1;
    forall j | 0 < j < |ops| ensures LegalRun(s, ops[..j]) && t in Run(s, ops[..j]).queue {
      QueuedAfter(s, ops, j);
    }
    QueuedAfter(s, ops, n);
  }

  lemma QueuedAfter(s: Sched, ops: seq<Op>, j: nat)
    requires Inv(s) && !s.stuck && LegalRun(s, ops) && s.queue != [] && 0 < j < |ops|
    requires ops[0].Tick? && ops[|ops| - 1].Tick? && Ticks(ops) == |s.queue| + 1
    requires ops[0].cpu < |s.current| && IsTask(s.current[ops[0].cpu])
    ensures LegalRun(s, ops[..j]) && s.current[ops[0].cpu] in Run(s, ops[..j]).queue
    ensures j == |ops| - 1 ==>
      var t, r := s.current[ops[0].cpu], Run(s, ops);
      ops[j].cpu < |r.current| && r.current[ops[j].cpu] == t && t < |r.saved| && r.saved[t] == ops[0].regs
  {
    hide Inv, Distinct, Schedule, Run, LegalRun, Legal;
    var first, mid, rest := [ops[0]], ops[1..j], ops[j..];
    assert ops == ops[..j] + rest && ops[..j] == first + mid;
    RunOfConcat(s, ops[..j], rest);
    RunOfConcat(s, first, mid);
    RunOfOne(s, ops[0]);
    Rejoins(s, ops[0].cpu, ops[0].regs);
    LastTick(rest);
    var s1, t, k := Run(s, first), s.current[ops[0].cpu], |s.queue| - 1;
    StillWaiting(s1, t, k, mid);
    if j == |ops| - 1 {
      assert rest == [ops[j]];
      RunOfOne(Run(s, ops[..j]), ops[j]);
      TickServes(Run(s, ops[..j]), ops[j].cpu, ops[j].regs, t, 0);
      TickKeepsSaved(Run(s, ops[..j]), ops[j].cpu, ops[j].regs, t);
    }
  }

  lemma TickKeepsSaved(s: Sched, cpu: nat, regs: Regs, t: nat)
    requires Inv(s) && cpu < |s.current| && t in s.queue
    ensures var s' := Schedule(s, cpu, regs);
      |s'.current| == |s.current| && t < |s'.saved| == |s.saved| && s'.saved[t] == s.saved[t]
  {
    hide Distinct;
    assert s.current[cpu] !in s.queue;
  }

  /* ---- the stuck queue ---- */

  predicate Ticked(ops: seq<Op>, cpu: nat) {
    ops != [] && ((ops[0].Tick? && ops[0].cpu == cpu) || Ticked(ops[1..], cpu))
  }

  /** Once the queue is stuck it stays so: every CPU runs idle from its next tick on, whatever is spawned. */
  lemma {:induction false} StuckForever(s: Sched, ops: seq<Op>, cpu: nat)
    requires Inv(s) && LegalRun(s, ops) && s.stuck && cpu < |s.current|
    ensures Run(s, ops).stuck && |Run(s, ops).current| == |s.current|
    ensures Run(s, ops).current[cpu] == if Ticked(ops, cpu) then IDLE else s.current[cpu]
    decreases |ops|
  {
    if ops == [] {
    } else {
      StepKeepsInv(s, ops[0]);
      StuckForever(Step(s, ops[0]), ops[1..], cpu);
    }
  }

  /* ---- when ticks alone can break the queue ---- */

  predicate OnlyTicks(ops: seq<Op>) {
    forall i :: 0 <= i < |ops| ==> ops[i].Tick?
  }

  ghost predicate Breaks(s: Sched, ops: seq<Op>)
    requires Inv(s)
  {
    OnlyTicks(ops) && LegalRun(s, ops) && Run(s, ops).stuck
  }

  /** Distinct tasks, each counted once. */
  lemma {:induction false} AllRunning(l: seq<int>)
    requires forall i :: 0 <= i < |l| ==> IsTask(l[i])
    requires forall i, j :: 0 <= i < j < |l| ==> l[i] != l[j]
    ensures |Running(l)| == |l|
  {
    if l == [] {
    } else {
      var n := |l| - 1;
      AllRunning(l[..n]);
      assert l[n] !in l[..n];
    }
  }

  lemma {:induction false} NoneRunning(l: seq<int>)
    requires forall i :: 0 <= i < |l| ==> !IsTask(l[i])
    ensures Running(l) == {}
  {
    if l == [] {
    } else {
      NoneRunning(l[..|l| - 1]);
    }
  }

  lemma TaskCount(s: Sched)
    requires Inv(s)
    ensures |Tasks(s)| == |s.queue| + |Running(s.current)|
  {
    forall i | 0 <= i < |s.queue| ensures IsTask(s.queue[i]) {
      assert s.queue[i] in s.queue;
    }
    AllRunning(s.queue);
    InTasks(s);
    assert Running(s.queue) !! Running(s.current) by {
      forall t: int | t in Running(s.queue) ensures t !in Running(s.current) {
        assert t in s.queue;
        assert forall c :: 0 <= c < |s.current| ==> s.current[c] !in s.queue;
      }
    }
  }

  /** With no more tasks than CPUs and one of them queued, some CPU is idle. */
  lemma SomeIdleCpu(s: Sched) returns (cpu: nat)
    requires Inv(s) && s.queue != [] && |Tasks(s)| <= |s.current|
    ensures cpu < |s.current| && !IsTask(s.current[cpu])
  {
    TaskCount(s);
    if forall c :: 0 <= c < |s.current| ==> IsTask(s.current[c]) {
      AllRunning(s.current);
      assert false;
    }
    cpu :| cpu < |s.current| && !IsTask(s.current[cpu]);
  }

  /** With at least one task and no more than CPUs, ticks on idle CPUs drain the queue until one breaks it. */
  lemma {:induction false} DrainBreaks(s: Sched) returns (ops: seq<Op>)
    requires Inv(s) && !s.stuck && !s.resets && 1 <= |Tasks(s)| <= |s.current|
    ensures Breaks(s, ops)
    decreases |s.queue|
  {
    hide Distinct, Tasks;
    if s.queue == [] {
      var cpu := SomeRunning(s);
      BreaksIff(s, cpu, []);
      ops := [Tick(cpu, [])];
      BreakAtOnce(s, ops[0]);
    } else {
      var cpu := SomeIdleCpu(s);
      var op := Tick(cpu, []);
      BreaksIff(s, cpu, []);
      StepKeepsInv(s, op);
      if |s.queue| == 1 {
        ops := [op];
        BreakAtOnce(s, op);
      } else {
        TickKeepsTaskSet(s, cpu, []);
        var rest := DrainBreaks(Step(s, op));
        ops := [op] + rest;
        assert ops[1..] == rest;
      }
    }
  }

  lemma SomeRunning(s: Sched) returns (cpu: nat)
    requires Inv(s) && s.queue == [] && |Tasks(s)| >= 1
    ensures cpu < |s.current| && IsTask(s.current[cpu])
  {
    TaskCount(s);
    if forall c :: 0 <= c < |s.current| ==> !IsTask(s.current[c]) {
      NoneRunning(s.current);
      assert false;
    }
    cpu :| cpu < |s.current| && IsTask(s.current[cpu]);
  }

  lemma BreakAtOnce(s: Sched, op: Op)
    requires Inv(s) && op.Tick? && Legal(s, op) && Step(s, op).stuck
    ensures Breaks(s, [op])
  {
    hide Inv, Step;
    StepKeepsInv(s, op);
    assert [op][1..] == [];
    assert LegalRun(Step(s, op), []) && Run(Step(s, op), []) == Step(s, op);
    assert LegalRun(s, [op]);
    RunOfOne(s, op);
  }

  /** Ticks alone change no task set, so without tasks, or with more than CPUs, they never break the queue. */
  lemma {:induction false} TicksKeepSound(s: Sched, ops: seq<Op>)
    requires Inv(s) && LegalRun(s, ops) && OnlyTicks(ops) && !s.stuck
    requires s.resets || Tasks(s) == {} || |Tasks(s)| > |s.current|
    ensures !Run(s, ops).stuck
    decreases |ops|
  {
    hide Distinct, Tasks;
    if ops == [] {
    } else {
      var op := ops[0];
      StepKeepsInv(s, op);
      TickKeepsTaskSet(s, op.cpu, op.regs);
      if !s.resets {
        if Tasks(s) == {} {
          NoTaskNoBreak(s, op.cpu, op.regs);
        } else {
          TickStaysSound(s, op.cpu, op.regs);
        }
      }
      TicksKeepSound(Step(s, op), ops[1..]);
    }
  }

  lemma NoTaskNoBreak(s: Sched, cpu: nat, regs: Regs)
    requires Inv(s) && cpu < |s.current| && !s.stuck && Tasks(s) == {}
    ensures !Schedule(s, cpu, regs).stuck
  {
    TaskCount(s);
    BreaksIff(s, cpu, regs);
    assert s.current[cpu] in s.current && Running(s.current) == {};
  }

  /** From an unbroken queue some run of ticks breaks it if and only if there are tasks, but no more than CPUs, and no repair. */
  lemma CanBreakIff(s: Sched)
    requires Inv(s) && !s.stuck
    ensures (exists ops :: Breaks(s, ops)) <==> !s.resets && 1 <= |Tasks(s)| <= |s.current|
  {
    hide Inv, Tasks, Run, LegalRun;
    if !s.resets && 1 <= |Tasks(s)| <= |s.current| {
      var ops := DrainBreaks(s);
    } else {
      forall ops ensures !Breaks(s, ops) {
        if OnlyTicks(ops) && LegalRun(s, ops) {
          TicksKeepSound(s, ops);
        }
      }
    }
  }

  function Boot(resets: bool, cpus: nat, saved: seq<Regs>): Sched {
    Sched(resets, false, [], seq(cpus, _ => IDLE), saved)
  }

  lemma BootOk(resets: bool, cpus: nat, saved: seq<Regs>)
    requires |saved| > 0
    ensures Inv(Boot(resets, cpus, saved)) && Tasks(Boot(resets, cpus, saved)) == {}
  {
    assert forall t :: t in Boot(resets, cpus, saved).current ==> t == IDLE;
    InTasks(Boot(resets, cpus, saved));
    assert forall t: int :: t !in Tasks(Boot(resets, cpus, saved));
  }

  /** One task on one CPU: the source runs it for one slice and never again; the repair keeps running it. */
  lemma OneTaskIsLost(saved: seq<Regs>, regs: Regs)
    requires |saved| == 2
    ensures var ops := [Spawn(1), Tick(0, regs), Tick(0, regs)];
      && Inv(Boot(false, 1, saved)) && LegalRun(Boot(false, 1, saved), ops)
      && Inv(Boot(true, 1, saved)) && LegalRun(Boot(true, 1, saved), ops)
      && Places(Run(Boot(false, 1, saved), ops), 1) == 0
      && Places(Run(Boot(true, 1, saved), ops), 1) == 1
  {
    BootOk(false, 1, saved);
    BootOk(true, 1, saved);
    OneTaskRun(false, saved, regs);
    OneTaskRun(true, saved, regs);
  }

  lemma OneTaskRun(resets: bool, saved: seq<Regs>, regs: Regs)
    requires |saved| == 2 && Inv(Boot(resets, 1, saved))
    ensures var ops := [Spawn(1), Tick(0, regs), Tick(0, regs)];
      && LegalRun(Boot(resets, 1, saved), ops)
      && var s' := Run(Boot(resets, 1, saved), ops);
         s'.queue == [] && s'.current == [if resets then 1 else IDLE]
  {
    var s0 := Boot(resets, 1, saved);
    var ops := [Spawn(1), Tick(0, regs), Tick(0, regs)];
    assert s0.current == [IDLE];
    var s1 := Step(s0, ops[0]);
    StepKeepsInv(s0, ops[0]);
    assert s1.queue == [1];
    var s2 := Step(s1, ops[1]);
    StepKeepsInv(s1, ops[1]);
    assert s2.queue == [] && s2.current == [1];
    var s3 := Step(s2, ops[2]);
    StepKeepsInv(s2, ops[2]);
    assert s3.current == [if resets then 1 else IDLE];
    assert ops[1..][1..] == [ops[2]] && ops[1..] == [ops[1], ops[2]];
    assert [ops[2]][1..] == [];
    StepKeepsInv(s2, ops[2]);
    assert LegalRun(s3, []) && Run(s3, []) == s3;
    assert LegalRun(s2, [ops[2]]) && Run(s2, [ops[2]]) == s3;
    assert LegalRun(s1, ops[1..]) && Run(s1, ops[1..]) == s3;
  }
}
