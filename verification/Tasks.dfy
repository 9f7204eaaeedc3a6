/**
 The scheduler (Task, TaskManager and SleepWaitable in kernel/tasks.cpp): round-robin
 choice of the next task, blocking on a waitable, and the accounting of CPU time in
 jiffies, which are 32-bit words that wrap.
 */
module Tasks {
  import opened TwoMath
  import opened Regions

  /** Jiffies a second. */
  const SYS_HZ: nat := 8

  function Wrap(x: int): nat {
    x % WORD
  }

  /** What a task can wait for. */
  datatype Waitable = Sleep(endTime: nat) | UartRequest

  /** What the waitables look at. */
  datatype World = World(now: nat, uartFinished: bool)

  predicate IsFinished(waitable: Waitable, world: World) {
    match waitable
    case Sleep(endTime) => endTime <= world.now
    case UartRequest => world.uartFinished
  }

  /** The waitable of sleep(secs) at time `now`; the sum wraps. */
  function SleepWaitable(secs: nat, now: nat): Waitable {
    Sleep(Wrap(now + secs * SYS_HZ))
  }

  /**
   While the clock has not wrapped, a sleeper is woken no earlier than `secs` seconds later,
   exactly if the end time fits in a word.
   */
  lemma SleepLastsUnlessWrapped(secs: nat, start: nat, later: nat)
    requires start <= later < WORD && secs < WORD
    ensures start + secs * SYS_HZ < WORD ==>
              (IsFinished(SleepWaitable(secs, start), World(later, false)) <==> later - start >= secs * SYS_HZ)
    ensures (IsFinished(SleepWaitable(secs, start), World(start, false))
             <==> Wrap(secs * SYS_HZ) == 0 || start + Wrap(secs * SYS_HZ) >= WORD)
  {
  }

  datatype State = New | Runnable | Waiting

  datatype Task = Task(state: State, waitingFor: Option<Waitable>, scheduledAt: nat, cpuJiffies: nat) {
    predicate CanRun() {
      state == New || state == Runnable
    }

    function UpdateState(world: World): Task {
      if state == Waiting && waitingFor.Some? && IsFinished(waitingFor.value, world) then
        this.(state := Runnable)
      else this
    }

    /** The task can run once its state is brought up to date. */
    predicate Ready(world: World) {
      UpdateState(world).CanRun()
    }

    function Start(now: nat): Task {
      this.(state := Runnable, scheduledAt := now)
    }

    /** switch_to: the task is charged for the time since it was scheduled. */
    function SwitchFrom(now: nat): Task {
      this.(cpuJiffies := Wrap(cpuJiffies + now - scheduledAt))
    }

    function WaitFor(waitable: Waitable): Task {
      this.(state := Waiting, waitingFor := Some(waitable))
    }
  }

  /** Who may run, written on the fields: a task that does not wait, or whose wait is over. */
  predicate MayRun(t: Task, world: World) {
    || t.state != Waiting
    || (t.waitingFor == Some(UartRequest) && world.uartFinished)
    || (t.waitingFor.Some? && t.waitingFor.value.Sleep? && t.waitingFor.value.endTime <= world.now)
  }

  /** Bringing the state up to date wakes exactly the tasks whose wait is over. */
  lemma UpdateStateWakes(t: Task, world: World)
    ensures t.Ready(world) <==> MayRun(t, world)
    ensures t.UpdateState(world) == if MayRun(t, world) && t.state == Waiting then t.(state := Runnable) else t
  {
  }

  // ------------------------------------------------------------ the choice

  predicate SomeReady(tasks: seq<Task>, world: World) {
    exists i | 0 <= i < |tasks| :: tasks[i].Ready(world)
  }

  /** The index that the search looks at after i. */
  function After(i: nat, n: nat): nat {
    if i + 1 >= n then 0 else i + 1
  }

  /** How many tasks the search passes between i and j. */
  function Offset(i: nat, j: nat, n: nat): nat
    requires i < n && j < n
  {
    if i <= j then j - i else j + n - i
  }

  /** The first ready task among `tries` tasks from index i on. */
  function PickFrom(tasks: seq<Task>, world: World, i: nat, tries: nat): (p: nat)
    requires i < |tasks|
    ensures p < |tasks|
    decreases tries
  {
    if tries == 0 || tasks[i].Ready(world) then i else PickFrom(tasks, world, After(i, |tasks|), tries - 1)
  }

  /** pick_next_task. */
  function Pick(tasks: seq<Task>, running: nat, world: World): (p: nat)
    requires tasks != []
    ensures p < |tasks|
  {
    PickFrom(tasks, world, After(running, |tasks|), |tasks|)
  }

  lemma {:induction false} PickFromIsFirst(tasks: seq<Task>, world: World, i: nat, tries: nat, goal: nat)
    requires i < |tasks| && goal < |tasks| && tasks[goal].Ready(world)
    requires Offset(i, goal, |tasks|) <= tries
    ensures var p := PickFrom(tasks, world, i, tries);
            tasks[p].Ready(world) && Offset(i, p, |tasks|) <= Offset(i, goal, |tasks|)
    decreases tries
  {
    if tries > 0 && !tasks[i].Ready(world) {
      PickFromIsFirst(tasks, world, After(i, |tasks|), tries - 1, goal);
    }
  }

  lemma OffsetIsModular(i: nat, j: nat, n: nat)
    requires i < n && j < n
    ensures (j - i) % n == Offset(i, j, n)
  {
    DivModUnique(j - i, n, if i <= j then 0 else -1, Offset(i, j, n));
  }

  /**
   The choice is the first task that may run, counted cyclically from the one after the
   running one, or from the first one after the last.
   */
  lemma PickIsFirst(tasks: seq<Task>, running: nat, world: World)
    requires SomeReady(tasks, world)
    ensures var p, next := Pick(tasks, running, world), if running + 1 < |tasks| then running + 1 else 0;
            && MayRun(tasks[p], world)
            && forall j | 0 <= j < |tasks| && MayRun(tasks[j], world) ::
                 (p - next) % |tasks| <= (j - next) % |tasks|
  {
    var i, p := After(running, |tasks|), Pick(tasks, running, world);
    OffsetIsModular(i, p, |tasks|);
    forall j | 0 <= j < |tasks| && tasks[j].Ready(world)
      ensures tasks[p].Ready(world) && (p - i) % |tasks| <= (j - i) % |tasks|
    {
      PickFromIsFirst(tasks, world, i, |tasks|, j);
      OffsetIsModular(i, j, |tasks|);
    }
  }

  // ------------------------------------------------------------ the task manager's state

  datatype Scheduler = Scheduler(tasks: seq<Task>, running: nat)

  function Scheduled(s: Scheduler, world: World): (t: Scheduler)
    requires s.running < |s.tasks|
    ensures t.running < |t.tasks| == |s.tasks|
  {
    var p := Pick(s.tasks, s.running, world);
    var tasks := s.tasks[p := s.tasks[p].UpdateState(world)];
    if p == s.running then Scheduler(tasks, p)
    else
      var stopped := tasks[s.running := tasks[s.running].SwitchFrom(world.now)];
      Scheduler(stopped[p := stopped[p].Start(world.now)], p)
  }

  /** reschedule_while_waiting_for. */
  function Blocked(s: Scheduler, waitable: Waitable, world: World): (t: Scheduler)
    requires s.running < |s.tasks|
    ensures t.running < |t.tasks| == |s.tasks|
  {
    Scheduled(s.(tasks := s.tasks[s.running := s.tasks[s.running].WaitFor(waitable)]), world)
  }

  function Exited(s: Scheduler, world: World): (t: Scheduler)
    requires s.running < |s.tasks| && |s.tasks| > 1
    ensures t.running < |t.tasks| == |s.tasks| - 1
  {
    var tasks := RemoveAt(s.tasks, s.running);
    var p := Pick(tasks, s.running, world);
    Scheduler(tasks[p := tasks[p].UpdateState(world).Start(world.now)], p)
  }

  /**
   Scheduling changes two tasks at most: the one chosen runs from now on, and the one that
   stops has the jiffies since it was scheduled added to its own.
   */
  lemma ScheduleSwitches(s: Scheduler, world: World)
    requires s.running < |s.tasks| && SomeReady(s.tasks, world)
    ensures var t, p, now := Scheduled(s, world), Pick(s.tasks, s.running, world), world.now;
            var from := s.tasks[s.running];
            && t.running == p && MayRun(s.tasks[p], world)
            && (p == s.running ==> t.tasks == s.tasks[p := from.(state := if from.state == New then New else Runnable)])
            && (p != s.running ==>
                  && t.tasks[p] == s.tasks[p].(state := Runnable, scheduledAt := now)
                  && t.tasks[s.running] == from.(cpuJiffies := (from.cpuJiffies + now - from.scheduledAt) % WORD)
                  && forall i | 0 <= i < |s.tasks| && i != p && i != s.running :: t.tasks[i] == s.tasks[i])
  {
    hide Pick;
    PickIsFirst(s.tasks, s.running, world);
  }

  /** An exit removes the running task, starts the next choice and leaves the others as they were. */
  lemma ExitSwitches(s: Scheduler, world: World)
    requires s.running < |s.tasks| && |s.tasks| > 1 && SomeReady(RemoveAt(s.tasks, s.running), world)
    ensures var t, left := Exited(s, world), s.tasks[..s.running] + s.tasks[s.running + 1..];
            && t.running == Pick(left, s.running, world) && MayRun(left[t.running], world)
            && t.tasks == left[t.running := left[t.running].(state := Runnable, scheduledAt := world.now)]
  {
    hide Pick;
    assert RemoveAt(s.tasks, s.running) == s.tasks[..s.running] + s.tasks[s.running + 1..];
    PickIsFirst(RemoveAt(s.tasks, s.running), s.running, world);
  }

  function CpuTime(s: Scheduler, i: nat, now: nat): nat
    requires i < |s.tasks|
  {
    if i == s.running then Wrap(s.tasks[i].cpuJiffies + now - s.tasks[i].scheduledAt)
    else s.tasks[i].cpuJiffies
  }

  // ------------------------------------------------------------ CPU time

  function CpuTimes(s: Scheduler, now: nat): seq<nat> {
    seq(|s.tasks|, i requires 0 <= i < |s.tasks| => CpuTime(s, i, now))
  }

  function Sum(xs: seq<nat>): nat {
    if xs == [] then 0 else xs[0] + Sum(xs[1..])
  }

  function CpuJiffies(tasks: seq<Task>): seq<nat> {
    seq(|tasks|, i requires 0 <= i < |tasks| => tasks[i].cpuJiffies)
  }

  lemma {:induction false} SumReplace(xs: seq<nat>, i: nat, x: nat)
    requires i < |xs|
    ensures Sum(xs[i := x]) == Sum(xs) - xs[i] + x
  {
    if i == 0 {
      assert xs[0 := x][1..] == xs[1..];
    } else {
      assert xs[i := x][1..] == xs[1..][i - 1 := x];
      SumReplace(xs[1..], i - 1, x);
    }
  }

  lemma {:induction false} SumRemove(xs: seq<nat>, i: nat)
    requires i < |xs|
    ensures Sum(RemoveAt(xs, i)) == Sum(xs) - xs[i]
  {
    if i == 0 {
      assert RemoveAt(xs, 0) == xs[1..];
    } else {
      assert RemoveAt(xs, i)[1..] == RemoveAt(xs[1..], i - 1);
      SumRemove(xs[1..], i - 1);
    }
  }

  /** Congruent modulo the word size. */
  predicate Same(x: int, y: int) {
    x % WORD == y % WORD
  }

  lemma SameShift(x: int, y: int, z: int)
    ensures Same(x, y) <==> Same(x + z, y + z)
  {
    assert (x - y) % WORD == 0 <==> x % WORD == y % WORD by { ModDifference(x, y); }
    assert (x + z - (y + z)) % WORD == 0 <==> (x + z) % WORD == (y + z) % WORD by { ModDifference(x + z, y + z); }
    assert x + z - (y + z) == x - y;
  }

  lemma ModDifference(x: int, y: int)
    ensures (x - y) % WORD == 0 <==> x % WORD == y % WORD
  {
    var q, r := x / WORD - y / WORD, x % WORD - y % WORD;
    assert x - y == q * WORD + r && r < WORD && r + WORD > 0;
  }

  /** The CPU times add up to the time charged plus that of the running task. */
  lemma CpuTimesSum(s: Scheduler, now: nat)
    requires s.running < |s.tasks|
    ensures var t := s.tasks[s.running];
            Same(Sum(CpuTimes(s, now)), Sum(CpuJiffies(s.tasks)) + now - t.scheduledAt)
  {
    var t, r := s.tasks[s.running], CpuTime(s, s.running, now);
    assert CpuTimes(s, now) == CpuJiffies(s.tasks)[s.running := r];
    SumReplace(CpuJiffies(s.tasks), s.running, r);
    SameShift(r, t.cpuJiffies + now - t.scheduledAt, Sum(CpuJiffies(s.tasks)) - t.cpuJiffies);
  }

  /** Scheduling charges and starts tasks without losing or inventing time. */
  lemma ScheduleKeepsTime(s: Scheduler, world: World)
    requires s.running < |s.tasks|
    ensures Same(Sum(CpuTimes(Scheduled(s, world), world.now)), Sum(CpuTimes(s, world.now)))
  {
    var p, now := Pick(s.tasks, s.running, world), world.now;
    var t := Scheduled(s, world);
    CpuTimesSum(s, now);
    CpuTimesSum(t, now);
    if p == s.running {
      assert CpuJiffies(t.tasks) == CpuJiffies(s.tasks);
    } else {
      var charged := CpuTime(s, s.running, now);
      assert CpuJiffies(t.tasks) == CpuJiffies(s.tasks)[s.running := charged];
      assert CpuTimes(s, now) == CpuJiffies(s.tasks)[s.running := charged];
    }
  }

  /** No task gains or loses time by scheduling. */
  lemma ScheduleKeepsEachTime(s: Scheduler, i: nat, world: World)
    requires s.running < |s.tasks| && i < |s.tasks|
    requires s.tasks[i].cpuJiffies < WORD
    ensures CpuTime(Scheduled(s, world), i, world.now) == CpuTime(s, i, world.now)
    ensures Scheduled(s, world).tasks[i].cpuJiffies < WORD
  {
  }

  lemma BlockKeepsEachTime(s: Scheduler, i: nat, waitable: Waitable, world: World)
    requires s.running < |s.tasks| && i < |s.tasks|
    requires s.tasks[i].cpuJiffies < WORD
    ensures CpuTime(Blocked(s, waitable, world), i, world.now) == CpuTime(s, i, world.now)
    ensures Blocked(s, waitable, world).tasks[i].cpuJiffies < WORD
  {
    ScheduleKeepsEachTime(s.(tasks := s.tasks[s.running := s.tasks[s.running].WaitFor(waitable)]), i, world);
  }

  /** The tasks that remain after an exit keep their times; those behind the gap move up. */
  lemma ExitKeepsEachTime(s: Scheduler, i: nat, world: World)
    requires s.running < |s.tasks| && |s.tasks| > 1 && i < |s.tasks| && i != s.running
    requires s.tasks[i].cpuJiffies < WORD
    ensures var k := if i < s.running then i else i - 1;
            && CpuTime(Exited(s, world), k, world.now) == CpuTime(s, i, world.now)
            && Exited(s, world).tasks[k].cpuJiffies < WORD
  {
    var k := if i < s.running then i else i - 1;
    assert RemoveAt(s.tasks, s.running)[k] == s.tasks[i];
  }

  /** A tick adds its jiffies to the running task, and to no other. */
  lemma TickAddsToTheRunningTask(s: Scheduler, i: nat, now: nat, diff: nat)
    requires s.running < |s.tasks| && i < |s.tasks| && s.tasks[i].cpuJiffies < WORD
    ensures CpuTime(s, i, (now + diff) % WORD)
            == (CpuTime(s, i, now) + if i == s.running then diff else 0) % WORD
  {
    if i == s.running {
      var charged := s.tasks[i].cpuJiffies - s.tasks[i].scheduledAt;
      SameShift((now + diff) % WORD, now + diff, charged);
      SameShift(CpuTime(s, i, now), charged + now, diff);
    }
  }

  /** Waiting for something does not change the time spent. */
  lemma BlockKeepsTime(s: Scheduler, waitable: Waitable, world: World)
    requires s.running < |s.tasks|
    ensures Same(Sum(CpuTimes(Blocked(s, waitable, world), world.now)), Sum(CpuTimes(s, world.now)))
  {
    var waiting := s.(tasks := s.tasks[s.running := s.tasks[s.running].WaitFor(waitable)]);
    assert CpuTimes(waiting, world.now) == CpuTimes(s, world.now);
    ScheduleKeepsTime(waiting, world);
  }

  /** A task that exits takes its own time with it, and nothing else. */
  lemma ExitTakesOwnTime(s: Scheduler, world: World)
    requires s.running < |s.tasks| && |s.tasks| > 1
    ensures Same(Sum(CpuTimes(Exited(s, world), world.now)),
                 Sum(CpuTimes(s, world.now)) - CpuTime(s, s.running, world.now))
  {
    var now, t := world.now, Exited(s, world);
    CpuTimesSum(t, now);
    var left := RemoveAt(CpuTimes(s, now), s.running);
    forall i | 0 <= i < |t.tasks| ensures CpuJiffies(t.tasks)[i] == left[i] {
      assert RemoveAt(s.tasks, s.running)[i] == s.tasks[if i < s.running then i else i + 1];
    }
    assert CpuJiffies(t.tasks) == left;
    SumRemove(CpuTimes(s, now), s.running);
  }

  /** A tick adds its jiffies to the running task. */
  lemma TickAddsTime(s: Scheduler, now: nat, diff: nat)
    requires s.running < |s.tasks|
    ensures Same(Sum(CpuTimes(s, Wrap(now + diff))), Sum(CpuTimes(s, now)) + diff)
  {
    var charged := Sum(CpuJiffies(s.tasks)) - s.tasks[s.running].scheduledAt;
    CpuTimesSum(s, now);
    CpuTimesSum(s, Wrap(now + diff));
    SameShift(Wrap(now + diff), now + diff, charged);
    SameShift(Sum(CpuTimes(s, now)), charged + now, diff);
  }

  // ------------------------------------------------------------ round robin

  /** How many calls of schedule the search needs at most to reach task i. */
  function Distance(s: Scheduler, i: nat): nat
    requires s.running < |s.tasks| && i < |s.tasks|
  {
    (i - s.running - 1) % |s.tasks| + 1
  }

  lemma DistanceIsOffset(s: Scheduler, i: nat)
    requires s.running < |s.tasks| && i < |s.tasks|
    ensures Distance(s, i) == if i <= s.running then i + |s.tasks| - s.running else i - s.running
  {
    var n, a := |s.tasks|, i - s.running - 1;
    DivModUnique(a, n, if i <= s.running then -1 else 0, if i <= s.running then a + n else a);
  }

  /** A ready task runs next or comes nearer. */
  lemma ScheduleApproaches(s: Scheduler, i: nat, world: World)
    requires s.running < |s.tasks| && i < |s.tasks| && MayRun(s.tasks[i], world)
    ensures var t := Scheduled(s, world);
            t.running == i || Distance(t, i) < Distance(s, i)
  {
    hide Scheduled, Distance;
    var n, p, next := |s.tasks|, Pick(s.tasks, s.running, world), After(s.running, |s.tasks|);
    UpdateStateWakes(s.tasks[i], world);
    PickIsFirst(s.tasks, s.running, world);
    ScheduleSwitches(s, world);
    OffsetIsModular(next, p, n);
    OffsetIsModular(next, i, n);
    DistanceIsOffset(s, i);
    DistanceIsOffset(Scheduled(s, world), i);
  }

  /** The running task itself comes last. */
  lemma PickIsLast(tasks: seq<Task>, running: nat, world: World)
    requires running < |tasks| && SomeReady(tasks, world)
    ensures Pick(tasks, running, world) == running
            <==> forall j | 0 <= j < |tasks| && j != running :: !MayRun(tasks[j], world)
  {
    hide Pick, MayRun;
    PickIsFirst(tasks, running, world);
    forall j | 0 <= j < |tasks| && j != running && MayRun(tasks[j], world)
      ensures Pick(tasks, running, world) != running
    {
      var next := After(running, |tasks|);
      OffsetIsModular(next, j, |tasks|);
      OffsetIsModular(next, running, |tasks|);
    }
  }

  /**
   The task after the one that exits moves into its slot, where the search looks last:
   every other ready task goes first.
   */
  lemma ExitSkipsTheNextTask(s: Scheduler, world: World)
    requires s.running < |s.tasks| - 1
    ensures var tasks := RemoveAt(s.tasks, s.running);
            && tasks[s.running] == s.tasks[s.running + 1]
            && (SomeReady(tasks, world) ==>
                  (Exited(s, world).running == s.running
                   <==> forall j | 0 <= j < |tasks| && j != s.running :: !MayRun(tasks[j], world)))
  {
    hide Pick;
    var tasks := RemoveAt(s.tasks, s.running);
    if SomeReady(tasks, world) {
      PickIsLast(tasks, s.running, world);
    }
  }

  // ------------------------------------------------------------ in place

  class TaskManager {
    var tasks: seq<Task>
    var running: nat

    constructor (tasks: seq<Task>)
      ensures View() == Scheduler(tasks, 0)
    {
      this.tasks, running := tasks, 0;
    }

    ghost function View(): Scheduler
      reads this
    {
      Scheduler(tasks, running)
    }

    method PickNextTask(world: World)
      requires SomeReady(tasks, world)
      modifies this
      ensures running == Pick(old(tasks), old(running), world)
      ensures tasks == old(tasks)[running := old(tasks)[running].UpdateState(world)]
    {
      ghost var before, n, tries := tasks, |tasks|, |tasks|;
      ghost var goal :| 0 <= goal < |tasks| && tasks[goal].Ready(world);
      while true
        invariant |tasks| == n && tries > Offset(After(running, n), goal, n)
        invariant PickFrom(before, world, After(running, n), tries) == Pick(before, old(running), world)
        invariant tasks == before
        decreases tries
      {
        running := running + 1;
        if running >= |tasks| {
          running := 0;
        }
        tasks := tasks[running := tasks[running].UpdateState(world)];
        if tasks[running].CanRun() {
          break;
        }
        tries := tries - 1;
      }
    }

    method Schedule(world: World)
      requires running < |tasks| && SomeReady(tasks, world)
      modifies this
      ensures View() == Scheduled(old(View()), world)
    {
      var current := running;
      PickNextTask(world);
      if running == current {
        return;
      }
      tasks := tasks[current := tasks[current].SwitchFrom(world.now)];
      tasks := tasks[running := tasks[running].Start(world.now)];
    }

    method RescheduleWhileWaitingFor(waitable: Waitable, world: World)
      requires running < |tasks| && SomeReady(tasks[running := tasks[running].WaitFor(waitable)], world)
      modifies this
      ensures View() == Blocked(old(View()), waitable, world)
    {
      tasks := tasks[running := tasks[running].WaitFor(waitable)];
      Schedule(world);
    }

    method ExitRunningTask(world: World)
      requires running < |tasks| && |tasks| > 1 && SomeReady(RemoveAt(tasks, running), world)
      modifies this
      ensures View() == Exited(old(View()), world)
    {
      tasks := RemoveAt(tasks, running);
      PickNextTask(world);
      tasks := tasks[running := tasks[running].Start(world.now)];
    }
  }
}
