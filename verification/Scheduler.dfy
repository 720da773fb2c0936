/**
 The scheduler on its fields: the doubly linked run queue, the task each CPU
 runs, the register block of every task.  Task 0 is the idle task.

 With `resetsHead` false the code is the source's; true is the repair.
 */
module Scheduler {
  import opened Collections
  import opened IntrusiveList
  import opened SchedSpec

  /** The queue `q` with its tail, or, when stuck, a head that no longer starts a queue. */
  ghost predicate Threads(next: seq<int>, prev: seq<int>, head: int, tail: int, stuck: bool, q: seq<nat>) {
    if stuck then |next| == |prev| && 0 <= head < |next| && tail == NULL && q == []
    else Chain(next, prev, head, q) && Distinct(q) && tail == At(q, |q| - 1)
  }

  lemma PushThreads(next: seq<int>, prev: seq<int>, head: int, tail: int, q: seq<nat>, t: nat)
    requires Threads(next, prev, head, tail, false, q) && t < |next| && t !in q
    ensures head != NULL ==> 0 <= head < |next|
    ensures var next', prev' := next[t := head], prev[t := NULL];
      if head != NULL then Threads(next', prev'[head := t], t, tail, false, [t] + q)
      else Threads(next', prev', t, t, false, [t] + q)
  {
    var prev' := (if q != [] then prev[q[0] := t] else prev)[t := NULL];
    PushKeepsChain(next, prev, head, q, t, next[t := head], prev');
    if q != [] {
      assert q[0] in q;
      assert prev' == prev[t := NULL][head := t];
    }
  }

  /** Dropping the tail; the new tail's `next` is cleared. */
  lemma PopThreads(next: seq<int>, prev: seq<int>, head: int, tail: int, q: seq<nat>)
    requires Threads(next, prev, head, tail, false, q) && q != []
    ensures 0 <= tail < |next| && tail == q[|q| - 1] && prev[tail] == At(q, |q| - 2)
    ensures var t := q[|q| - 1];
      if |q| > 1 then Threads(next[prev[t] := NULL][t := NULL], prev[t := NULL], head, prev[t], false, q[..|q| - 1])
      else prev[t] == NULL && head == t && Threads(next[t := NULL], prev[t := NULL], NULL, NULL, false, [])
           && Threads(next[t := NULL], prev[t := NULL], head, NULL, true, [])
  {
    var n := |q| - 1;
    var t, rest := q[n], q[..n];
    assert LinkedAt(next, prev, q, n);
    if n > 0 {
      var next', prev' := next[q[n - 1] := NULL][t := NULL], prev[t := NULL];
      forall i: nat | i < n ensures LinkedAt(next', prev', rest, i) {
        assert LinkedAt(next, prev, q, i) && q[i] != t && (i < n - 1 ==> q[i] != q[n - 1]);
      }
    }
  }

  class RunQueue {
    const resetsHead: bool
    var head: int
    var tail: int
    const next: array<int>
    const prev: array<int>
    const regs: array<Regs>
    const current: array<int>
    ghost var queue: seq<nat>
    ghost var stuck: bool

    ghost function Repr(): set<object> {
      {this, next, prev, regs, current}
    }

    ghost predicate Valid()
      reads Repr()
    {
      && next != prev && next != current && prev != current
      && regs.Length == next.Length
      && Threads(next[..], prev[..], head, tail, stuck, queue)
      && Inv(View())
    }

    ghost function View(): Sched
      reads this, regs, current
    {
      Sched(resetsHead, stuck, queue, current[..], regs[..])
    }

    constructor (resetsHead: bool, cpus: nat, tasks: nat, regs: array<Regs>)
      requires tasks > 0 && regs.Length == tasks
      ensures Valid() && this.regs == regs && fresh(Repr() - {regs})
      ensures View() == Sched(resetsHead, false, [], seq(cpus, _ => IDLE), old(regs[..]))
    {
      this.resetsHead := resetsHead;
      this.regs := regs;
      head, tail := NULL, NULL;
      next := new int[tasks](_ => NULL);
      prev := new int[tasks](_ => NULL);
      current := new int[cpus](_ => IDLE);
      queue, stuck := [], false;
    }

    /** All of `Valid` but that a current task stays out of the queue. */
    ghost predicate Linked()
      reads Repr()
    {
      && next != prev && next != current && prev != current && regs.Length == next.Length > IDLE
      && Threads(next[..], prev[..], head, tail, stuck, queue)
      && (stuck ==> !resetsHead)
    }

    /** `_sched_task`. */
    method SchedTask(task: int)
      requires Linked() && NULL <= task < next.Length && task !in queue
      modifies this, next, prev
      ensures Linked() && View() == Push(old(View()), task)
    {
      if task == IDLE || task == NULL {
        return;
      }
      if !stuck {
        PushThreads(next[..], prev[..], head, tail, queue, task);
        queue := [task as nat] + queue;
      }
      next[task] := head;
      prev[task] := NULL;
      head := task;
      if next[task] != NULL {
        prev[next[task]] := task;
      } else {
        tail := task;
      }
    }

    /** `pop_task`. */
    method PopTask() returns (ret: nat)
      requires Linked()
      modifies this, next, prev
      ensures Linked() && (View(), ret) == Pop(old(View())) && (ret == IDLE || ret in old(queue))
    {
      ret := IDLE;
      if tail == NULL {
        return;
      }
      PopThreads(next[..], prev[..], head, tail, queue);
      ret := tail;
      tail := prev[ret];
      if tail != NULL {
        next[tail] := NULL;
      } else if resetsHead {
        head := NULL;  // repair
      }
      prev[ret] := NULL;
      next[ret] := NULL;
      stuck := |queue| == 1 && !resetsHead;
      queue := queue[..|queue| - 1];
    }

    /** `save_task`. */
    method SaveTask(cpu: nat, r: Regs)
      requires Linked() && cpu < current.Length && NULL <= current[cpu] < regs.Length
      modifies regs
      ensures Linked() && View() == Save(old(View()), cpu, r)
    {
      if current[cpu] == NULL {
        return;
      }
      regs[current[cpu]] := r;
    }

    /** `sched_task`, for a task that is not yet queued or running. */
    method Spawn(task: nat)
      requires Valid() && Legal(View(), Op.Spawn(task))
      modifies this, next, prev
      ensures Valid() && View() == Step(old(View()), Op.Spawn(task))
    {
      StepKeepsInv(View(), Op.Spawn(task));
      SchedTask(task);
    }

    /** `schedule` through `go_to_task`: the task it switches to, and the registers it restores. */
    method Schedule(cpu: nat, r: Regs) returns (target: nat, restored: Regs)
      requires Valid() && cpu < current.Length
      modifies Repr()
      ensures Valid() && View() == SchedSpec.Schedule(old(View()), cpu, r)
      ensures target == current[cpu] && target < regs.Length && restored == regs[target]
    {
      TickKeepsInv(View(), cpu, r);
      SaveTask(cpu, r);
      SchedTask(current[cpu]);
      target := PopTask();
      current[cpu] := target;
      restored := regs[target];
    }
  }
}
