/** The round-robin scheduler: 64 slots, of which the timer's tick runs one after the other.
    First the steps as functions of the slot array, then the runs they make, then the code. */
module Scheduler {
  const MAX_TASKS: nat := 64

  datatype Status = Stopped | Running | NoInit

  type Registers = seq<nat>

  datatype Task = Task(pid: int, status: Status, regs: Registers, pageMap: nat, flags: nat)

  datatype Queue = Queue(tasks: seq<Task>, count: int)

  /** The first `count` slots are the initialised ones, and one task runs at most. */
  ghost predicate QueueOk(q: Queue) {
    && |q.tasks| == MAX_TASKS && 0 <= q.count <= MAX_TASKS
    && (forall i | 0 <= i < MAX_TASKS :: q.tasks[i].status != NoInit <==> i < q.count)
    && (forall i, j | 0 <= i < j < MAX_TASKS :: !(q.tasks[i].status == Running && q.tasks[j].status == Running))
  }

  /** The lowest running slot from `from` on, -1 if none runs. */
  function RunningFrom(tasks: seq<Task>, from: nat): (r: int)
    ensures r == -1 || (from <= r < |tasks| && tasks[r].status == Running)
    ensures forall i | from <= i < |tasks| && (r == -1 || i < r) :: tasks[i].status != Running
    decreases |tasks| - from
  {
    if from >= |tasks| then -1 else if tasks[from].status == Running then from else RunningFrom(tasks, from + 1)
  }

  function Current(q: Queue): int { RunningFrom(q.tasks, 0) }

  // ----- steps

  datatype Event = Load(task: Task) | Tick(regs: Registers)

  /** A load fills the lowest free slot, a full queue takes no more. */
  function Loaded(q: Queue, task: Task): Queue
    requires QueueOk(q)
  {
    if q.count == MAX_TASKS then q
    else Queue(q.tasks[q.count := task.(status := Stopped)], q.count + 1)
  }

  /** The slot that a tick switches to, -1 if it leaves things as they are. */
  function Dispatched(q: Queue): int
    requires QueueOk(q)
  {
    var i := Current(q);
    if q.count == 0 || (q.count == 1 && i != -1) then -1
    else if i == -1 then 0
    else (i + 1) % q.count
  }

  /** A tick stops the running task, with its registers, and starts the next. */
  function Ticked(q: Queue, regs: Registers): Queue
    requires QueueOk(q)
  {
    var i, next := Current(q), Dispatched(q);
    if next == -1 then q
    else
      var saved := if i == -1 then q.tasks else q.tasks[i := q.tasks[i].(status := Stopped, regs := regs)];
      q.(tasks := saved[next := saved[next].(status := Running)])
  }

  /** Slot k before and after a tick that dispatched `to`. */
  predicate SlotTicked(before: Task, after: Task, k: int, to: int, regs: Registers) {
    && after.pid == before.pid && after.pageMap == before.pageMap && after.flags == before.flags
    && after.status == (if to == -1 then before.status else if k == to then Running
                        else if before.status == Running then Stopped else before.status)
    && after.regs == if to != -1 && before.status == Running then regs else before.regs
  }

  /** A tick, slot by slot. */
  lemma TickedSlots(q: Queue, regs: Registers)
    requires QueueOk(q)
    ensures var r, to := Ticked(q, regs), Dispatched(q);
            && r.count == q.count && |r.tasks| == MAX_TASKS && -1 <= to < MAX_TASKS
            && (forall k | 0 <= k < MAX_TASKS :: SlotTicked(q.tasks[k], r.tasks[k], k, to, regs))
            && (q.count == 0 ==> to == -1)
            && (q.count > 0 && (forall k | 0 <= k < MAX_TASKS :: q.tasks[k].status != Running) ==> to == 0)
            && (forall i | 0 <= i < MAX_TASKS && q.tasks[i].status == Running ::
                  to == if q.count == 1 then -1 else if i + 1 < q.count then i + 1 else 0)
  {
    forall i: nat | i < MAX_TASKS && q.tasks[i].status == Running
      ensures Dispatched(q) == if q.count == 1 then -1 else if i + 1 < q.count then i + 1 else 0
    {
      CurrentIs(q, i);
      Wrapped(i, q.count);
    }
  }

  function Step(q: Queue, e: Event): Queue
    requires QueueOk(q)
  {
    match e
    case Load(task) => Loaded(q, task)
    case Tick(regs) => Ticked(q, regs)
  }

  lemma CurrentIs(q: Queue, i: nat)
    requires QueueOk(q) && i < MAX_TASKS && q.tasks[i].status == Running
    ensures Current(q) == i && i < q.count
  {
  }

  lemma StepOk(q: Queue, e: Event)
    requires QueueOk(q)
    ensures QueueOk(Step(q, e))
  {
  }

  /** Loads do not disturb who runs; a tick runs whom it dispatches. */
  lemma StepCurrent(q: Queue, e: Event)
    requires QueueOk(q)
    ensures QueueOk(Step(q, e))
    ensures Current(Step(q, e)) == if e.Tick? && Dispatched(q) != -1 then Dispatched(q) else Current(q)
    ensures q.count <= Step(q, e).count
  {
    StepOk(q, e);
    var i := if e.Tick? && Dispatched(q) != -1 then Dispatched(q) else Current(q);
    if i != -1 {
      CurrentIs(Step(q, e), i);
    }
  }

  // ----- runs

  function Run(q: Queue, events: seq<Event>): (r: Queue)
    requires QueueOk(q)
    ensures QueueOk(r)
  {
    if events == [] then q
    else
      StepOk(Run(q, events[..|events| - 1]), events[|events| - 1]);
      Step(Run(q, events[..|events| - 1]), events[|events| - 1])
  }

  function Ticks(events: seq<Event>): nat {
    if events == [] then 0
    else Ticks(events[..|events| - 1]) + if events[|events| - 1].Tick? then 1 else 0
  }

  /** How many ticks at most until slot t is dispatched. */
  function Distance(q: Queue, t: nat): int {
    if Current(q) < t then t - Current(q) else MAX_TASKS - Current(q) + t
  }

  lemma NextInUse(q: Queue)
    requires QueueOk(q) && q.count > 1 && Current(q) != -1
    ensures Dispatched(q) == if Current(q) + 1 < q.count then Current(q) + 1 else 0
  {
    assert q.tasks[Current(q)].status != NoInit;
    Wrapped(Current(q), q.count);
  }

  lemma Wrapped(i: nat, n: nat)
    requires i < n
    ensures (i + 1) % n == if i + 1 < n then i + 1 else 0
  {
  }

  /** A step on which t is not dispatched brings it nearer, if it is a tick. */
  lemma Nearer(q: Queue, e: Event, t: nat)
    requires QueueOk(q) && t < q.count && (q.count > 1 || Current(q) == -1)
    requires !(e.Tick? && Dispatched(q) == t)
    ensures QueueOk(Step(q, e)) && t < Step(q, e).count && (Step(q, e).count > 1 || Current(Step(q, e)) == -1)
    ensures 1 <= Distance(q, t) <= MAX_TASKS
    ensures Distance(Step(q, e), t) <= Distance(q, t) - if e.Tick? then 1 else 0
  {
    StepCurrent(q, e);
    if q.count > 1 && Current(q) != -1 {
      NextInUse(q);
      hide Dispatched, Current, Step;
    }
  }

  /** Event k is a tick that dispatches t. */
  ghost predicate DispatchedAt(q: Queue, events: seq<Event>, k: nat, t: nat)
    requires QueueOk(q)
  {
    k < |events| && events[k].Tick? && Dispatched(Run(q, events[..k])) == t
  }

  lemma DispatchedEarlier(q: Queue, events: seq<Event>, k: nat, t: nat)
    requires QueueOk(q) && events != []
    ensures DispatchedAt(q, events[..|events| - 1], k, t) ==> DispatchedAt(q, events, k, t)
  {
    var n := |events| - 1;
    assert k < n ==> events[..n][..k] == events[..k];
  }

  lemma {:induction false} Undispatched(q: Queue, events: seq<Event>, t: nat)
    requires QueueOk(q) && t < q.count && (q.count > 1 || Current(q) == -1)
    requires forall k: nat :: !DispatchedAt(q, events, k, t)
    ensures var r := Run(q, events); t < r.count && (r.count > 1 || Current(r) == -1)
    ensures 1 <= Distance(Run(q, events), t) <= Distance(q, t) - Ticks(events)
  {
    if events == [] {
    } else {
      var n := |events| - 1;
      forall k: nat
        ensures !DispatchedAt(q, events[..n], k, t)
      {
        DispatchedEarlier(q, events, k, t);
      }
      Undispatched(q, events[..n], t);
      assert !DispatchedAt(q, events, n, t);
      Nearer(Run(q, events[..n]), events[n], t);
      assert 1 <= Distance(Run(q, events), t) by { DistancePositive(Run(q, events), t); }
    }
  }

  lemma DistancePositive(q: Queue, t: nat)
    requires QueueOk(q)
    ensures 1 <= Distance(q, t) <= MAX_TASKS + t
    ensures t < q.count ==> Distance(q, t) <= MAX_TASKS
  {
  }

  lemma {:induction false} TicksOfPrefix(events: seq<Event>, k: nat)
    requires k <= |events|
    ensures Ticks(events[..k]) <= Ticks(events)
  {
    if k < |events| {
      TicksOfPrefix(events[..|events| - 1], k);
      assert events[..|events| - 1][..k] == events[..k];
    } else {
      assert events[..k] == events;
    }
  }

  /** No task starves: whatever is loaded in between, every initialised slot is dispatched by one of
      the next 64 ticks, unless it is the only task and runs already. */
  lemma {:induction false} DispatchedSoon(q: Queue, events: seq<Event>, t: nat)
    requires QueueOk(q) && t < q.count && (q.count > 1 || Current(q) == -1)
    requires Ticks(events) >= Distance(q, t)
    ensures Distance(q, t) <= MAX_TASKS
    ensures exists k: nat :: DispatchedAt(q, events, k, t) && Ticks(events[..k]) < Distance(q, t)
  {
    DistancePositive(q, t);
    var n := |events| - 1;
    if Ticks(events[..n]) >= Distance(q, t) {
      DispatchedSoon(q, events[..n], t);
      var k: nat :| DispatchedAt(q, events[..n], k, t) && Ticks(events[..n][..k]) < Distance(q, t);
      assert events[..n][..k] == events[..k];
      assert DispatchedAt(q, events, k, t);
    } else {
      if forall k: nat :: !DispatchedAt(q, events, k, t) {
        Undispatched(q, events, t);
      }
      var k: nat :| DispatchedAt(q, events, k, t);
      TicksOfPrefix(events[..n], k);
      assert events[..n][..k] == events[..k];
    }
  }

  /** The exception is real: a task that runs alone is never dispatched again by ticks. */
  lemma {:induction false} LoneTaskRunsOn(q: Queue, events: seq<Event>, t: nat)
    requires QueueOk(q) && q.count == 1 && Current(q) != -1
    requires forall i | 0 <= i < |events| :: events[i].Tick?
    ensures Run(q, events) == q && forall k: nat :: !DispatchedAt(q, events, k, t)
  {
    if events != [] {
      var n := |events| - 1;
      LoneTaskRunsOn(q, events[..n], t);
      forall k: nat
        ensures !DispatchedAt(q, events, k, t)
      {
        assert !DispatchedAt(q, events[..n], k, t);
        assert k < n ==> events[..n][..k] == events[..k];
      }
    }
  }

  predicate OnlyLoads(events: seq<Event>) { forall i | 0 <= i < |events| :: events[i].Load? }

  /** Round robin: once slot i runs, and whatever is loaded then, the next tick dispatches the
      next slot of those then in use; from the last one it goes back to slot 0. */
  lemma {:induction false} NextInTurn(q: Queue, events: seq<Event>)
    requires QueueOk(q) && Current(q) != -1 && OnlyLoads(events)
    ensures var r := Run(q, events);
            Current(r) == Current(q) && Dispatched(r) == if r.count == 1 then -1 else (Current(q) + 1) % r.count
  {
    if events != [] {
      var n := |events| - 1;
      NextInTurn(q, events[..n]);
      StepCurrent(Run(q, events[..n]), events[n]);
    }
  }

  /** The registers that slot t was last preempted with, or loaded with if it never was. */
  ghost function LastSaved(q: Queue, events: seq<Event>, t: nat): Registers
    requires QueueOk(q) && t < MAX_TASKS
  {
    if events == [] then q.tasks[t].regs
    else
      var earlier := events[..|events| - 1];
      var before := Run(q, earlier);
      match events[|events| - 1]
      case Tick(regs) => if Current(before) == t && Dispatched(before) != -1 then regs else LastSaved(q, earlier, t)
      case Load(task) => if before.count == t then task.regs else LastSaved(q, earlier, t)
  }

  /** A slot resumes with what it was preempted with, over every run. */
  lemma {:induction false} ResumesWhereItStopped(q: Queue, events: seq<Event>, t: nat)
    requires QueueOk(q) && t < MAX_TASKS
    ensures Run(q, events).tasks[t].regs == LastSaved(q, events, t)
  {
    if events != [] {
      ResumesWhereItStopped(q, events[..|events| - 1], t);
    }
  }

  /** In a proper queue the first stopped slot behind the one just stopped is its successor. */
  lemma NextFound(q: Queue, regs: Registers, i: nat, next: nat)
    requires QueueOk(q) && q.count > 1 && i < MAX_TASKS && next < MAX_TASKS && q.tasks[i].status == Running
    requires var s := q.tasks[i := q.tasks[i].(status := Stopped, regs := regs)];
             && s[next].status == Stopped
             && (forall k | i < k < MAX_TASKS && (k < next || next <= i) :: s[k].status != Stopped)
             && (next <= i ==> forall k | 0 <= k < next :: s[k].status != Stopped)
    ensures next == Dispatched(q)
  {
    CurrentIs(q, i);
    NextInUse(q);
    var s := q.tasks[i := q.tasks[i].(status := Stopped, regs := regs)];
    if i + 1 < q.count {
      assert s[i + 1].status == q.tasks[i + 1].status == Stopped;
    } else {
      assert s[0].status == q.tasks[0].status == Stopped;
    }
  }

  // ----- the code

  /** The inner loops of the search: the first stopped slot after i, from the start again when
      there is none behind.  Behind the last slot nothing is looked at. */
  method NextStopped(tasks: array<Task>, i: nat) returns (found: bool, next: nat)
    requires tasks.Length == MAX_TASKS && i < MAX_TASKS && tasks[i].status == Stopped
    ensures found <==> i < MAX_TASKS - 1
    ensures found ==> next < MAX_TASKS && tasks[next].status == Stopped
    ensures found && next > i ==> forall k | i < k < next :: tasks[k].status != Stopped
    ensures found && next <= i ==> forall k | i < k < MAX_TASKS || 0 <= k < next :: tasks[k].status != Stopped
    ensures !found ==> next == 0
  {
    var j := i + 1;
    while j < MAX_TASKS
      invariant i < j <= MAX_TASKS && (j == MAX_TASKS ==> i == MAX_TASKS - 1)
      invariant forall k | i < k < j :: tasks[k].status != Stopped
    {
      if tasks[j].status == Stopped {
        return true, j;
      } else if j == MAX_TASKS - 1 {
        var k := 0;
        while tasks[k].status != Stopped
          invariant 0 <= k <= i && forall m | 0 <= m < k :: tasks[m].status != Stopped
          decreases i - k
        {
          k := k + 1;
        }
        return true, k;
      }
      j := j + 1;
    }
    return false, 0;
  }

  class Scheduler {
    var tasks: array<Task>
    var taskCount: int

    ghost function State(): Queue
      reads this, tasks
    {
      Queue(tasks[..], taskCount)
    }

    ghost predicate Valid()
      reads this, tasks
    {
      QueueOk(State())
    }

    /** Static storage starts as zero. */
    constructor ()
      ensures taskCount == 0
    {
      tasks, taskCount := new Task[0], 0;
    }

    /** PsThreadsInit does not reset the count, so it leaves a proper queue exactly when no task
        had been loaded. */
    method ThreadsInit()
      modifies this`tasks
      ensures fresh(tasks) && tasks.Length == MAX_TASKS
      ensures forall i | 0 <= i < MAX_TASKS :: tasks[i].status == NoInit
      ensures Valid() <==> taskCount == 0
    {
      tasks := new Task[MAX_TASKS];
      var i := 0;
      while i < MAX_TASKS
        invariant 0 <= i <= MAX_TASKS && fresh(tasks) && tasks.Length == MAX_TASKS
        invariant forall j | 0 <= j < i :: tasks[j].status == NoInit
      {
        tasks[i] := tasks[i].(status := NoInit);
        i := i + 1;
      }
      assert State().tasks[0].status == NoInit;
    }

    /** PsLoadTask. */
    method LoadTask(task: Task)
      requires Valid()
      modifies this`taskCount, tasks
      ensures Valid() && State() == Loaded(old(State()), task)
      ensures if old(taskCount) < 64 then
                && taskCount == old(taskCount) + 1
                && tasks[old(taskCount)] == Task(task.pid, Stopped, task.regs, task.pageMap, task.flags)
                && forall k | 0 <= k < 64 && k != old(taskCount) :: tasks[k] == old(tasks[k])
              else taskCount == 64 && tasks[..] == old(tasks[..])
    {
      StepOk(State(), Load(task));
      ghost var before := State();
      var i := 0;
      while i < MAX_TASKS
        invariant 0 <= i <= before.count && State() == before
      {
        if tasks[i].status == NoInit {
          tasks[i] := task;
          tasks[i] := tasks[i].(status := Stopped);
          taskCount := taskCount + 1;
          assert tasks[..] == before.tasks[i := task.(status := Stopped)];
          break;
        }
        assert before.tasks[i].status != NoInit;
        i := i + 1;
      }
    }

    /** PsScheduleThreads.  The slot switched to, -1 if none, and the registers it resumes with. */
    method ScheduleThreads(regs: Registers) returns (to: int, restored: Registers)
      requires Valid()
      modifies tasks
      ensures Valid() && State() == Ticked(old(State()), regs)
      ensures to == Dispatched(old(State()))
      ensures to != -1 ==> restored == tasks[to].regs
      ensures taskCount == old(taskCount) && forall k | 0 <= k < 64 :: SlotTicked(old(tasks[k]), tasks[k], k, to, regs)
      ensures old(taskCount) == 0 ==> to == -1
      ensures old(taskCount) > 0 && (forall k | 0 <= k < 64 :: old(tasks[k]).status != Running) ==> to == 0
      ensures forall i | 0 <= i < 64 && old(tasks[i]).status == Running ::
                to == if old(taskCount) == 1 then -1 else if i + 1 < old(taskCount) then i + 1 else 0
    {
      ghost var before := State();
      TickedSlots(before, regs);
      StepOk(before, Tick(regs));
      to, restored := -1, [];
      if taskCount == 0 {
        return;
      }
      var next := 0;
      ghost var saved := before.tasks;
      if taskCount > 1 {
        next, saved := FindNext(regs);
      }
      if tasks[next].status != Running {
        tasks[next] := tasks[next].(status := Running);
        to, restored := next, tasks[next].regs;
      }
    }

    /** The search: the running task is stopped, and the next stopped one looked for. */
    method FindNext(regs: Registers) returns (next: nat, ghost saved: seq<Task>)
      requires Valid() && taskCount > 1
      modifies tasks
      ensures next == Dispatched(old(State())) && tasks[..] == saved
      ensures var i := Current(old(State()));
              saved == if i == -1 then old(tasks[..]) else old(tasks[..])[i := old(tasks[i]).(status := Stopped, regs := regs)]
    {
      ghost var before := State();
      next := 0;
      var i := 0;
      while i < MAX_TASKS
        invariant 0 <= i <= MAX_TASKS
        invariant next == 0
        invariant if i == MAX_TASKS && Current(before) == MAX_TASKS - 1
                  then tasks[..] == before.tasks[i - 1 := before.tasks[i - 1].(status := Stopped, regs := regs)]
                  else tasks[..] == before.tasks && forall j | 0 <= j < i :: before.tasks[j].status != Running
      {
        if tasks[i].status == Running {
          CurrentIs(before, i);
          NextInUse(before);
          tasks[i] := tasks[i].(status := Stopped, regs := regs);
          saved := tasks[..];
          assert saved == before.tasks[i := before.tasks[i].(status := Stopped, regs := regs)];
          var found: bool;
          found, next := NextStopped(tasks, i);
          if found {
            NextFound(before, regs, i, next);
            return;
          }
        }
        i := i + 1;
      }
      saved := tasks[..];
    }
  }
}
