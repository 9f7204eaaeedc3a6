/**
 The scheduler, the timer and the serial port together, as a step system: interrupts
 (kernel/device/bcm2835/interrupts.cpp), system calls of ordinary tasks, and one client
 of the serial port, whose read or write (UARTFile in kernel/device/pl011/uart.cpp) is
 taken apart into the steps between which interrupts can land.
 */
module Kernel {
  import opened TwoMath
  import opened Buffers
  import opened Regions
  import opened Tasks
  import opened Uart

  /** The task that uses the serial port: the shell. */
  const CLIENT: nat := 0

  /** The task that never waits. */
  const SPIN: nat := 1

  /** Where the client is in a read or write; Returning is the check before the result. */
  datatype Place = Outside | Installed | Armed | Committed | Returning

  /**
   What a read or write started from, what came in from then on, and how many free slots each
   character of a write has found in the transmit queue.
   */
  datatype Call = Call(before: string, arrived: string, base: string, used: seq<nat>)

  datatype Machine = Machine(sched: Scheduler, now: nat, request: Request, uart: Registers,
                             place: Place, call: Call, elapsed: nat, retired: nat)
  {
    function World(): World {
      Tasks.World(now, request.Finished())
    }

    predicate Ok() {
      request.Valid() && sched.running < |sched.tasks|
    }

    predicate ClientRuns(at: Place) {
      sched.running == CLIENT && place == at
    }
  }

  datatype Event =
    | Interrupt(timer: Option<nat>, uart: Option<(string, seq<nat>)>)
    | Yield
    | Sleep(secs: nat)
    | Exit
    | Install(buf: string, isWrite: bool)
    | Enable
    | Check
    | Wait
    | Return

  datatype Outcome = Next(m: Machine) | Panic

  // ------------------------------------------------------------ steps

  /** What can happen: interrupts at any time, and the next step of the running task. */
  predicate Allowed(m: Machine, e: Event) {
    match e
    case Interrupt(_, _) => true
    case Yield => m.sched.running == CLIENT ==> m.place == Outside
    case Sleep(_) => m.sched.running != SPIN && (m.sched.running == CLIENT ==> m.place == Outside)
    case Exit => m.sched.running != SPIN && m.sched.running != CLIENT
    case Install(_, _) => m.ClientRuns(Outside)
    case Enable => m.ClientRuns(Installed)
    case Check => m.ClientRuns(Armed)
    case Wait => m.ClientRuns(Committed)
    case Return => m.ClientRuns(Returning)
  }

  /** The timer's part of an interrupt: the clock. */
  function Tick(m: Machine, diff: nat): Machine {
    m.(now := Wrap(m.now + diff), elapsed := m.elapsed + diff)
  }

  /** The serial port's part: characters `arrived` came in, and the driver finds `slots` in the transmit queue. */
  function Serve(m: Machine, arrived: string, slots: seq<nat>): Machine
    requires m.request.Valid()
  {
    var (q, uart) := Handled(m.request, m.uart.(received := m.uart.received + arrived), slots);
    m.(request := q, uart := uart,
       call := m.call.(arrived := m.call.arrived + arrived, used := m.call.used + Used(m.request, slots)))
  }

  function Rescheduled(m: Machine): Machine
    requires m.sched.running < |m.sched.tasks|
  {
    m.(sched := Scheduled(m.sched, m.World()))
  }

  /** interrupts_handle_irq: timer, serial port, then the scheduler if the timer fired. */
  function Interrupted(m: Machine, timer: Option<nat>, uart: Option<(string, seq<nat>)>): Machine
    requires m.Ok()
  {
    var ticked := if timer.Some? then Tick(m, timer.value) else m;
    var served := if uart.Some? then Serve(ticked, uart.value.0, uart.value.1) else ticked;
    if timer.Some? then Rescheduled(served) else served
  }

  function Step(m: Machine, e: Event): (o: Outcome)
    requires m.Ok()
    ensures o.Next? ==> o.m.Ok()
  {
    match e
    case Interrupt(timer, uart) => Next(Interrupted(m, timer, uart))
    case Yield => Next(Rescheduled(m))
    case Sleep(secs) => Next(m.(sched := Blocked(m.sched, SleepWaitable(secs, m.now), m.World())))
    case Exit =>
      // With no other task there is nothing to switch to.
      if |m.sched.tasks| == 1 then Panic
      else Next(m.(sched := Exited(m.sched, m.World()),
                   retired := m.retired + CpuTime(m.sched, m.sched.running, m.now)))
    case Install(buf, isWrite) =>
      if !m.request.Finished() then Panic
      else Next(m.(request := Request(buf, 0, |buf|, isWrite), place := Installed,
                   call := Call(buf, m.uart.received, m.uart.sent, [])))
    case Enable => Next(m.(uart := SetIrq(m.uart, m.request.isWrite, true), place := Armed))
    case Check => Next(m.(place := if m.request.Finished() then Returning else Committed))
    case Wait => Next(m.(sched := Blocked(m.sched, UartRequest, m.World()), place := Returning))
    case Return => if !m.request.Finished() then Panic else Next(m.(place := Outside))
  }

  // ------------------------------------------------------------ the invariant

  /** How far the transfer of the current call is. */
  predicate Progress(m: Machine) {
    if m.request.isWrite then WriteProgress(m.request, m.uart, m.call.before, m.call.base, m.call.used)
    else
      || ReadPending(m.request, m.uart, m.call.before, m.call.arrived, m.call.base)
      || ReadStarted(m)
  }

  /** An interrupt has looked at the device for the current read. */
  predicate ReadStarted(m: Machine) {
    ReadProgress(m.request, m.uart, m.call.before, |m.call.before|, m.call.arrived, m.call.base)
  }

  predicate WaitsForUart(t: Task) {
    t.state == Waiting && t.waitingFor == Some(UartRequest)
  }

  /** The scheduler's part: somebody runs, the spinning task can, and only the client waits for the port. */
  ghost predicate TasksOk(s: Scheduler) {
    && s.running < |s.tasks| && SPIN < |s.tasks|
    && s.tasks[s.running].state == Runnable
    && s.tasks[SPIN].CanRun()
    && forall i | 0 <= i < |s.tasks| && i != CLIENT :: !WaitsForUart(s.tasks[i])
  }

  /** The time charged to a task is a word. */
  ghost predicate ChargesFit(s: Scheduler) {
    forall i | 0 <= i < |s.tasks| :: s.tasks[i].cpuJiffies < WORD
  }

  ghost predicate Inv(m: Machine) {
    && TasksOk(m.sched) && ChargesFit(m.sched)
    && m.request.Valid()
    && (m.place == Outside ==> m.request.Finished())
    && (m.place != Outside ==> Progress(m))
    && (WaitsForUart(m.sched.tasks[CLIENT]) ==> m.place == Returning)
    && (m.place != Outside && m.sched.tasks[CLIENT].state == Waiting ==> WaitsForUart(m.sched.tasks[CLIENT]))
    && (m.place == Returning && !WaitsForUart(m.sched.tasks[CLIENT]) ==> m.request.Finished())
    && (m.place in {Armed, Committed, Returning} && !m.request.Finished() ==> IrqOn(m.uart, m.request.isWrite))
    && Same(Sum(CpuTimes(m.sched, m.now)) + m.retired, m.elapsed)
  }

  /** start_scheduler, with freshly made tasks and no request. */
  function Boot(n: nat, now: nat, uart: Registers): Machine
    requires n >= 2
  {
    var tasks := seq(n, i => Task(New, None, 0, 0));
    Machine(Scheduler(tasks[0 := tasks[0].Start(now)], 0), now, Request("", 0, 0, false), uart,
            Outside, Call("", "", "", []), 0, 0)
  }

  lemma {:induction false} SumOfZeros(xs: seq<nat>)
    requires forall i | 0 <= i < |xs| :: xs[i] == 0
    ensures Sum(xs) == 0
  {
    if xs != [] {
      SumOfZeros(xs[1..]);
    }
  }

  lemma BootInv(n: nat, now: nat, uart: Registers)
    requires n >= 2
    ensures Inv(Boot(n, now, uart))
  {
    SumOfZeros(CpuTimes(Boot(n, now, uart).sched, now));
  }

  /** What schedule does to the states of the tasks. */
  lemma ScheduledStates(s: Scheduler, world: World)
    requires s.running < |s.tasks| && SPIN < |s.tasks| && s.tasks[SPIN].CanRun()
    requires s.tasks[s.running].state != New
    ensures var t := Scheduled(s, world);
            && t.tasks[t.running].state == Runnable && MayRun(s.tasks[t.running], world)
            && t.tasks[t.running].waitingFor == s.tasks[t.running].waitingFor
            && forall i | 0 <= i < |s.tasks| && i != t.running ::
                 t.tasks[i].state == s.tasks[i].state && t.tasks[i].waitingFor == s.tasks[i].waitingFor
  {
    assert s.tasks[SPIN].Ready(world);
    PickIsFirst(s.tasks, s.running, world);
  }

  lemma ScheduledCharges(s: Scheduler, world: World)
    requires s.running < |s.tasks| && ChargesFit(s)
    ensures ChargesFit(Scheduled(s, world))
  {
    hide Scheduled;
    forall i | 0 <= i < |s.tasks| ensures Scheduled(s, world).tasks[i].cpuJiffies < WORD {
      ScheduleKeepsEachTime(s, i, world);
    }
  }

  lemma BlockedCharges(s: Scheduler, waitable: Waitable, world: World)
    requires s.running < |s.tasks| && ChargesFit(s)
    ensures ChargesFit(Blocked(s, waitable, world))
  {
    ScheduledCharges(s.(tasks := s.tasks[s.running := s.tasks[s.running].WaitFor(waitable)]), world);
  }

  lemma ExitedCharges(s: Scheduler, world: World)
    requires s.running < |s.tasks| && |s.tasks| > 1 && ChargesFit(s)
    ensures ChargesFit(Exited(s, world))
  {
    hide Exited;
    var t := Exited(s, world);
    forall k | 0 <= k < |t.tasks| ensures t.tasks[k].cpuJiffies < WORD {
      ExitKeepsEachTime(s, if k < s.running then k else k + 1, world);
    }
  }

  /** The accounts only need the sum of the CPU times. */
  lemma StillAccounted(time': nat, time: nat, retired: nat, elapsed: nat)
    requires Same(time', time) && Same(time + retired, elapsed)
    ensures Same(time' + retired, elapsed)
  {
    SameShift(time', time, retired);
  }

  lemma RescheduledInv(m: Machine)
    requires Inv(m)
    ensures Inv(Rescheduled(m))
  {
    hide Scheduled, CpuTimes, Same;
    ScheduledStates(m.sched, m.World());
    ScheduleKeepsTime(m.sched, m.World());
    ScheduledCharges(m.sched, m.World());
    var sched := Scheduled(m.sched, m.World());
    StillAccounted(Sum(CpuTimes(sched, m.now)), Sum(CpuTimes(m.sched, m.now)), m.retired, m.elapsed);
  }

  /** The running task may wait for anything but the port, and the client for that, unless it spins. */
  lemma BlockedStates(s: Scheduler, waitable: Waitable, world: World)
    requires TasksOk(s) && s.running != SPIN && (waitable == UartRequest ==> s.running == CLIENT)
    ensures var t := Blocked(s, waitable, world);
            && TasksOk(t)
            && (forall i | 0 <= i < |s.tasks| && i != t.running ::
                  var u := if i == s.running then s.tasks[i].WaitFor(waitable) else s.tasks[i];
                  t.tasks[i].state == u.state && t.tasks[i].waitingFor == u.waitingFor)
            && (WaitsForUart(t.tasks[CLIENT]) ==>
                  WaitsForUart(s.tasks[CLIENT]) || (s.running == CLIENT && waitable == UartRequest))
            && (!WaitsForUart(t.tasks[CLIENT])
                && (WaitsForUart(s.tasks[CLIENT]) || (s.running == CLIENT && waitable == UartRequest))
                ==> world.uartFinished)
  {
    hide Scheduled;
    ScheduledStates(s.(tasks := s.tasks[s.running := s.tasks[s.running].WaitFor(waitable)]), world);
  }

  lemma TickInv(m: Machine, diff: nat)
    requires Inv(m)
    ensures Inv(Tick(m, diff))
  {
    hide CpuTimes, Same;
    var time, time' := Sum(CpuTimes(m.sched, m.now)), Sum(CpuTimes(m.sched, Wrap(m.now + diff)));
    TickAddsTime(m.sched, m.now, diff);
    SameShift(time + m.retired, m.elapsed, diff);
    StillAccounted(time', time + diff, m.retired, m.elapsed + diff);
  }

  /** After an exit of an ordinary task, some task runs, and the client waits as before. */
  lemma ExitedStates(s: Scheduler, world: World)
    requires TasksOk(s) && s.running != SPIN && s.running != CLIENT
    ensures var t := Exited(s, world);
            && TasksOk(t)
            && (t.tasks[CLIENT] == s.tasks[CLIENT]
                || (t.tasks[CLIENT].state == Runnable && MayRun(s.tasks[CLIENT], world)))
  {
    var tasks := RemoveAt(s.tasks, s.running);
    assert tasks[SPIN].Ready(world);
    PickIsFirst(tasks, s.running, world);
  }

  lemma ExitedInv(m: Machine)
    requires Inv(m) && m.sched.running != SPIN && m.sched.running != CLIENT
    ensures Step(m, Exit).Next? && Inv(Step(m, Exit).m)
  {
    hide Exited, CpuTimes, CpuTime, Same;
    ExitedStates(m.sched, m.World());
    ExitTakesOwnTime(m.sched, m.World());
    ExitedCharges(m.sched, m.World());
    var own := CpuTime(m.sched, m.sched.running, m.now);
    var time, time' := Sum(CpuTimes(m.sched, m.now)), Sum(CpuTimes(Exited(m.sched, m.World()), m.now));
    SameShift(time', time - own, own + m.retired);
    assert time - own + (own + m.retired) == time + m.retired;
    SameAgain(time' + (own + m.retired), time + m.retired, m.elapsed);
  }

  lemma SameAgain(x: int, y: int, z: int)
    requires Same(x, y) && Same(y, z)
    ensures Same(x, z)
  {
  }

  /** An interrupt of the port moves the transfer on. */
  lemma ServeProgress(m: Machine, arrived: string, slots: seq<nat>)
    requires m.request.Valid() && Progress(m)
    ensures Progress(Serve(m, arrived, slots))
    ensures !m.request.isWrite ==> ReadStarted(Serve(m, arrived, slots))
  {
    hide WriteProgress, ReadProgress, FillWrite, FillRead, Used;
    var q, call, uart := m.request, m.call, m.uart.(received := m.uart.received + arrived);
    if q.isWrite {
      WriteIgnoresInput(q, m.uart, uart, call.before, call.base, call.used);
      FillWriteProgress(q, uart, slots, call.before, call.base, call.used);
    } else if ReadPending(q, m.uart, call.before, call.arrived, call.base) {
      ReadStarts(q, uart, call.before, call.arrived + arrived, call.base);
    } else {
      FillReadProgress(q, m.uart, arrived, call.before, |call.before|, call.arrived, call.base);
    }
    var (q', uart') := Fill(q, uart, slots);
    MaskIsNoProgress(q', uart', q.isWrite, false, call.before, |call.before|, call.arrived + arrived, call.base,
                     call.used + Used(q, slots));
  }

  /** A finished request stays finished. */
  lemma ServeStaysFinished(m: Machine, arrived: string, slots: seq<nat>)
    requires m.request.Valid() && m.request.Finished()
    ensures Serve(m, arrived, slots).request.Finished()
  {
    NothingLeftToRead(m.request, m.uart.(received := m.uart.received + arrived));
  }

  lemma ServeInv(m: Machine, arrived: string, slots: seq<nat>)
    requires Inv(m)
    ensures Inv(Serve(m, arrived, slots))
  {
    hide Progress, Same, CpuTimes, Handled;
    if m.request.Finished() {
      ServeStaysFinished(m, arrived, slots);
    }
    if m.place != Outside {
      ServeProgress(m, arrived, slots);
    }
    IrqOnWhileUnfinished(m.request, m.uart.(received := m.uart.received + arrived), slots);
  }

  /** The client's own steps, but for the waiting. */
  lemma ClientStepInv(m: Machine, e: Event)
    requires Inv(m) && Allowed(m, e) && (e.Install? || e == Enable || e == Check || e == Return)
    ensures Step(m, e).Next? && Inv(Step(m, e).m)
  {
    hide Same, CpuTimes, ReadProgress;
    if e.Install? {
      assert Transmitted(e.buf[..0], []) == "" && m.uart.sent + "" == m.uart.sent;
    } else if e == Enable {
      MaskIsNoProgress(m.request, m.uart, m.request.isWrite, true, m.call.before, |m.call.before|, m.call.arrived,
                       m.call.base, m.call.used);
    }
  }

  /** No step panics, and every step keeps the invariant. */
  lemma StepKeepsInv(m: Machine, e: Event)
    requires Inv(m) && Allowed(m, e)
    ensures Step(m, e).Next? && Inv(Step(m, e).m)
  {
    hide Same, CpuTimes, Scheduled, Exited, Handled, WriteProgress, ReadProgress, ReadPending;
    match e
    case Interrupt(timer, uart) =>
      var ticked := if timer.Some? then Tick(m, timer.value) else m;
      if timer.Some? {
        TickInv(m, timer.value);
      }
      var served := if uart.Some? then Serve(ticked, uart.value.0, uart.value.1) else ticked;
      if uart.Some? {
        ServeInv(ticked, uart.value.0, uart.value.1);
      }
      if timer.Some? {
        RescheduledInv(served);
      }
    case Yield =>
      RescheduledInv(m);
    case Sleep(secs) =>
      BlockedStates(m.sched, SleepWaitable(secs, m.now), m.World());
      BlockKeepsTime(m.sched, SleepWaitable(secs, m.now), m.World());
      BlockedCharges(m.sched, SleepWaitable(secs, m.now), m.World());
      StillAccounted(Sum(CpuTimes(Blocked(m.sched, SleepWaitable(secs, m.now), m.World()), m.now)),
                     Sum(CpuTimes(m.sched, m.now)), m.retired, m.elapsed);
    case Wait =>
      BlockedStates(m.sched, UartRequest, m.World());
      BlockKeepsTime(m.sched, UartRequest, m.World());
      BlockedCharges(m.sched, UartRequest, m.World());
      StillAccounted(Sum(CpuTimes(Blocked(m.sched, UartRequest, m.World()), m.now)),
                     Sum(CpuTimes(m.sched, m.now)), m.retired, m.elapsed);
    case Exit =>
      ExitedInv(m);
    case _ =>
      ClientStepInv(m, e);
  }

  // ------------------------------------------------------------ runs

  /** Every event is allowed when its turn comes. */
  ghost predicate Follows(m: Machine, events: seq<Event>)
    requires m.Ok()
    decreases |events|
  {
    events != [] ==>
      Allowed(m, events[0]) && (Step(m, events[0]).Next? ==> Follows(Step(m, events[0]).m, events[1..]))
  }

  function Run(m: Machine, events: seq<Event>): (o: Outcome)
    requires m.Ok()
    ensures o.Next? ==> o.m.Ok()
    decreases |events|
  {
    if events == [] then Next(m)
    else
      match Step(m, events[0])
      case Panic => Panic
      case Next(m') => Run(m', events[1..])
  }

  lemma {:induction false} RunKeepsInv(m: Machine, events: seq<Event>)
    requires Inv(m) && Follows(m, events)
    ensures Run(m, events).Next? && Inv(Run(m, events).m)
    decreases |events|
  {
    if events != [] {
      StepKeepsInv(m, events[0]);
      RunKeepsInv(Step(m, events[0]).m, events[1..]);
    }
  }

  /** No run from boot reaches one of the panics of a read or write. */
  lemma NeverPanics(n: nat, now: nat, uart: Registers, events: seq<Event>)
    requires n >= 2 && Follows(Boot(n, now, uart), events)
    ensures Run(Boot(n, now, uart), events).Next?
    ensures Inv(Run(Boot(n, now, uart), events).m)
  {
    BootInv(n, now, uart);
    RunKeepsInv(Boot(n, now, uart), events);
  }

  /**
   No wakeup is lost and none comes early: a client that waits is found ready exactly when
   its request is finished, and until then the interrupt that finishes it is enabled.
   */
  lemma ReadyExactlyWhenFinished(m: Machine)
    requires Inv(m) && m.place == Returning
    ensures MayRun(m.sched.tasks[CLIENT], m.World()) <==> m.request.size == m.request.capacity
    ensures m.sched.running == CLIENT ==> m.request.size == m.request.capacity
    ensures m.request.size < m.request.capacity ==> if m.request.isWrite then m.uart.writeIrq else m.uart.readIrq
  {
  }

  // ------------------------------------------------------------ whole calls

  /** All characters that come in during the events. */
  function Arrivals(events: seq<Event>): string {
    if events == [] then "" else Arrived(events[0]) + Arrivals(events[1..])
  }

  function Arrived(e: Event): string {
    match e
    case Interrupt(_, Some(pair)) => pair.0
    case _ => ""
  }

  lemma StepTracksArrivals(m: Machine, e: Event)
    requires m.Ok() && m.place != Outside && Allowed(m, e) && e != Return && Step(m, e).Next?
    ensures var m' := Step(m, e).m;
            && m'.place != Outside && m'.request.isWrite == m.request.isWrite
            && m'.call == Call(m.call.before, m.call.arrived + Arrived(e), m.call.base, m'.call.used)
  {
    assert m.call.arrived + "" == m.call.arrived;
  }

  /** Until the client returns, its call keeps its start and collects what comes in. */
  lemma {:induction false} CallTracksArrivals(m: Machine, events: seq<Event>)
    requires Inv(m) && m.place != Outside && Follows(m, events) && Return !in events
    ensures Run(m, events).Next?
    ensures var m' := Run(m, events).m;
            && Inv(m') && m'.place != Outside && m'.request.isWrite == m.request.isWrite
            && m'.call == Call(m.call.before, m.call.arrived + Arrivals(events), m.call.base, m'.call.used)
    decreases |events|
  {
    assert m.Ok();
    hide Step, Allowed, Inv;
    if events == [] {
      assert m.call.arrived + "" == m.call.arrived;
    } else {
      var e, rest := events[0], events[1..];
      StepKeepsInv(m, e);
      StepTracksArrivals(m, e);
      var m1 := Step(m, e).m;
      assert Return !in rest;
      CallTracksArrivals(m1, rest);
      assert Run(m, events) == Run(m1, rest);
      ConcatAssociates(m.call.arrived, Arrived(e), Arrivals(rest));
    }
  }

  /**
   Whatever interrupts and other tasks do in between, a write that gets to its return has
   sent its buffer, with every line feed followed by a carriage return exactly if no line
   feed took the last free slot of the transmit queue.
   */
  lemma WriteSendsTheBuffer(m: Machine, buf: string, events: seq<Event>)
    requires Inv(m) && Follows(m, [Install(buf, true)] + events) && Return !in events
    ensures var o := Run(m, [Install(buf, true)] + events);
            o.Next? && (Allowed(o.m, Return) ==>
              && o.m.request.size == |buf| == |o.m.call.used|
              && o.m.uart.sent == m.uart.sent + Transmitted(buf, o.m.call.used)
              && (o.m.uart.sent == m.uart.sent + Expand(buf) <==> RoomForReturns(buf, o.m.call.used)))
  {
    hide Inv, Expand, Transmitted, RoomForReturns;
    var install := Install(buf, true);
    assert ([install] + events)[1..] == events;
    InvOk(m);
    StepKeepsInv(m, install);
    var m1 := Step(m, install).m;
    CallTracksArrivals(m1, events);
    var o := Run(m1, events);
    if Allowed(o.m, Return) {
      FinishedWrite(o.m);
      TransmittedExactly(buf, o.m.call.used);
      SameTail(m.uart.sent, Transmitted(buf, o.m.call.used), Expand(buf));
    }
  }

  lemma SameTail(base: string, a: string, b: string)
    ensures base + a == base + b <==> a == b
  {
    assert (base + a)[|base|..] == a && (base + b)[|base|..] == b;
  }

  /** A run in which the carriage return is lost: the line feed finds one free slot. */
  lemma WriteLosesReturn(n: nat, now: nat, uart: Registers)
    requires n >= 2
    ensures var events := [Install("\n", true), Enable, Interrupt(None, Some(("", [1]))), Check];
            var o := Run(Boot(n, now, uart), events);
            && Follows(Boot(n, now, uart), events)
            && o.Next? && Allowed(o.m, Return) && o.m.uart.sent == uart.sent + "\n"
  {
    hide CpuTimes, Same, Scheduled;
    var m := Boot(n, now, uart);
    var m1 := Step(m, Install("\n", true)).m;
    var m2 := Step(m1, Enable).m;
    var m3 := Step(m2, Interrupt(None, Some(("", [1])))).m;
    OneSlot(m2.request, m2.uart.(received := m2.uart.received + ""));
    assert m3.request.Finished() && m3.uart.sent == uart.sent + "\n";
    var events := [Install("\n", true), Enable, Interrupt(None, Some(("", [1]))), Check];
    assert events[1..] == [Enable, Interrupt(None, Some(("", [1]))), Check];
    assert events[1..][1..] == [Interrupt(None, Some(("", [1]))), Check];
    assert events[1..][1..][1..] == [Check] && [Check][1..] == [];
    assert Follows(m3, [Check]) && Run(m3, [Check]) == Run(Step(m3, Check).m, []);
  }

  lemma OneSlot(q: Request, uart: Registers)
    requires q == Request("\n", 0, 1, true)
    ensures var (q', uart') := Handled(q, uart, [1]); q'.Finished() && uart'.sent == uart.sent + "\n"
  {
    assert Room([1]) == 1 && "\n"[0..1] == "\n";
    assert Transmitted("\n"[..0], [1]) == "";
  }

  lemma InvOk(m: Machine)
    requires Inv(m)
    ensures m.Ok() && (m.place == Outside ==> m.request.Finished())
  {
  }

  lemma FinishedWrite(m: Machine)
    requires Inv(m) && m.ClientRuns(Returning) && m.request.isWrite
    ensures m.request.size == |m.call.before| == |m.call.used|
    ensures m.uart.sent == m.call.base + Transmitted(m.call.before, m.call.used)
  {
    hide Transmitted, Same, CpuTimes;
    var text := m.call.before;
    assert text[..|text|] == text;
  }

  /**
   Whatever interrupts and other tasks do in between, a read that gets to its return has
   stored exactly the characters up to the first break or its capacity, has echoed them, and
   has left the rest in the device.
   */
  lemma ReadStoresTheLine(m: Machine, buf: string, events: seq<Event>)
    requires Inv(m) && Follows(m, [Install(buf, false)] + events) && Return !in events
    ensures var o := Run(m, [Install(buf, false)] + events);
            var text := m.uart.received + Arrivals(events);
            o.Next? && (Allowed(o.m, Return) ==>
              var n := o.m.request.size;
              && n <= |buf| && n <= |text| && '\n' !in text[..n] && '\r' !in text[..n]
              && (n < |buf| ==> n < |text| && (text[n] == '\n' || text[n] == '\r'))
              && o.m.request.buf == text[..n] + buf[n..]
              && o.m.uart.received == text[if n < |buf| then n + 1 else n..]
              && o.m.uart.sent == m.uart.sent + text[..n] + if n < |buf| then "\n" else "")
  {
    hide Inv, Step;
    var install := Install(buf, false);
    assert ([install] + events)[1..] == events;
    InvOk(m);
    InstallStarts(m, buf, false);
    var m1 := Step(m, install).m;
    CallTracksArrivals(m1, events);
    if Allowed(Run(m1, events).m, Return) {
      FinishedReadCall(Run(m1, events).m);
    }
  }

  lemma FinishedReadCall(m: Machine)
    requires Inv(m) && m.ClientRuns(Returning) && !m.request.isWrite
    ensures var text, buf, n := m.call.arrived, m.call.before, m.request.size;
            && n <= |buf| && n <= |text| && '\n' !in text[..n] && '\r' !in text[..n]
            && (n < |buf| ==> n < |text| && (text[n] == '\n' || text[n] == '\r'))
            && m.request.buf == text[..n] + buf[n..]
            && m.uart.received == text[if n < |buf| then n + 1 else n..]
            && m.uart.sent == m.call.base + text[..n] + if n < |buf| then "\n" else ""
  {
    hide ReadProgress, ReadPending, Same, CpuTimes;
    FinishedRead(m.request, m.uart, m.call.before, m.call.arrived, m.call.base);
    LineStored(m.request, m.uart, m.call.before, m.call.arrived, m.call.base);
  }

  /** How many free slots the interrupts of the port find, one after the other. */
  function RoomFound(events: seq<Event>): nat {
    if events == [] then 0 else RoomFoundBy(events[0]) + RoomFound(events[1..])
  }

  function RoomFoundBy(e: Event): nat {
    match e
    case Interrupt(_, Some(pair)) => Room(pair.1)
    case _ => 0
  }

  lemma StepSends(m: Machine, e: Event)
    requires m.Ok() && m.place != Outside && m.request.isWrite && Allowed(m, e) && e != Return && Step(m, e).Next?
    ensures var q, q' := m.request, Step(m, e).m.request;
            q'.capacity == q.capacity && q'.size == Min(q.size + RoomFoundBy(e), q.capacity)
  {
    hide Room, Transmitted;
  }

  /** A call starts with the whole buffer before it and the characters that have come in so far. */
  lemma InstallStarts(m: Machine, buf: string, isWrite: bool)
    requires Inv(m) && Allowed(m, Install(buf, isWrite))
    ensures var o := Step(m, Install(buf, isWrite));
            && o.Next? && Inv(o.m) && o.m.place != Outside && o.m.request == Request(buf, 0, |buf|, isWrite)
            && o.m.call == Call(buf, m.uart.received, m.uart.sent, [])
  {
    hide Inv;
    InvOk(m);
    StepKeepsInv(m, Install(buf, isWrite));
  }

  lemma {:induction false} WriteSizeOverRun(m: Machine, events: seq<Event>)
    requires Inv(m) && m.place != Outside && m.request.isWrite && Follows(m, events) && Return !in events
    ensures Run(m, events).Next?
    ensures var q, q' := m.request, Run(m, events).m.request;
            q'.capacity == q.capacity && q'.size == Min(q.size + RoomFound(events), q.capacity)
    decreases |events|
  {
    hide Step, Allowed, Inv, RoomFoundBy;
    InvOk(m);
    if events != [] {
      var e, rest := events[0], events[1..];
      StepKeepsInv(m, e);
      StepTracksArrivals(m, e);
      StepSends(m, e);
      assert Return !in rest;
      WriteSizeOverRun(Step(m, e).m, rest);
    }
  }

  /** A write is finished exactly when the interrupts have found a free slot for each of its characters. */
  lemma WriteFinishesExactly(m: Machine, buf: string, events: seq<Event>)
    requires Inv(m) && Follows(m, [Install(buf, true)] + events) && Return !in events
    ensures var o := Run(m, [Install(buf, true)] + events);
            o.Next? && (o.m.request.size == o.m.request.capacity <==> RoomFound(events) >= |buf|)
  {
    hide Inv, Step;
    var install := Install(buf, true);
    assert ([install] + events)[1..] == events;
    InvOk(m);
    InstallStarts(m, buf, true);
    WriteSizeOverRun(Step(m, install).m, events);
  }

  /** Some interrupt of the port is among the events. */
  predicate PortServed(events: seq<Event>) {
    events != [] && ((events[0].Interrupt? && events[0].uart.Some?) || PortServed(events[1..]))
  }

  lemma StepStarts(m: Machine, e: Event)
    requires Inv(m) && m.place != Outside && !m.request.isWrite && Allowed(m, e) && e != Return && Step(m, e).Next?
    requires ReadStarted(m) || (e.Interrupt? && e.uart.Some?)
    ensures ReadStarted(Step(m, e).m)
  {
    hide Scheduled, Exited, Handled, ReadProgress, ReadPending, CpuTimes, Sum, Same;
    if e.Interrupt? && e.uart.Some? {
      var ticked := if e.timer.Some? then Tick(m, e.timer.value) else m;
      ServeProgress(ticked, e.uart.value.0, e.uart.value.1);
    } else if e == Enable {
      MaskIsNoProgress(m.request, m.uart, false, true, m.call.before, |m.call.before|, m.call.arrived, m.call.base, []);
    }
  }

  lemma {:induction false} StartedOverRun(m: Machine, events: seq<Event>)
    requires Inv(m) && m.place != Outside && !m.request.isWrite && Follows(m, events) && Return !in events
    requires ReadStarted(m) || PortServed(events)
    ensures Run(m, events).Next? && ReadStarted(Run(m, events).m)
    decreases |events|
  {
    hide Step, Allowed, Inv, ReadStarted;
    InvOk(m);
    if events != [] {
      var e, rest := events[0], events[1..];
      StepKeepsInv(m, e);
      StepTracksArrivals(m, e);
      if ReadStarted(m) || (e.Interrupt? && e.uart.Some?) {
        StepStarts(m, e);
      }
      assert Return !in rest;
      StartedOverRun(Step(m, e).m, rest);
    }
  }

  /** Once an interrupt has looked, a read is finished exactly when what came in fills the buffer or holds a break. */
  lemma ReadFinishesExactly(m: Machine, buf: string, events: seq<Event>)
    requires Inv(m) && Follows(m, [Install(buf, false)] + events) && Return !in events && PortServed(events)
    ensures var o := Run(m, [Install(buf, false)] + events);
            var text := m.uart.received + Arrivals(events);
            o.Next? && (o.m.request.size == o.m.request.capacity
                        <==> |text| >= |buf| || '\n' in text || '\r' in text)
  {
    hide Inv, Step, ReadProgress;
    var install := Install(buf, false);
    assert ([install] + events)[1..] == events;
    InvOk(m);
    InstallStarts(m, buf, false);
    var m1 := Step(m, install).m;
    CallTracksArrivals(m1, events);
    StartedOverRun(m1, events);
    var o := Run(m1, events).m;
    FinishedExactly(o.request, o.uart, o.call.before, o.call.arrived, o.call.base);
  }

  // ------------------------------------------------------------ time

  function Jiffies(e: Event): nat {
    match e
    case Interrupt(Some(diff), _) => diff
    case _ => 0
  }

  /** The jiffies that pass during the events. */
  function Elapsed(events: seq<Event>): nat {
    if events == [] then 0 else Jiffies(events[0]) + Elapsed(events[1..])
  }

  lemma {:induction false} ElapsedOverRun(m: Machine, events: seq<Event>)
    requires m.Ok()
    ensures Run(m, events).Next? ==> Run(m, events).m.elapsed == m.elapsed + Elapsed(events)
    decreases |events|
  {
    if events != [] && Step(m, events[0]).Next? {
      ElapsedOverRun(Step(m, events[0]).m, events[1..]);
    }
  }

  /**
   The CPU times of all tasks, with those that exited tasks had, add up to the jiffies
   since the scheduler started.
   */
  lemma CpuTimeIsConserved(n: nat, now: nat, uart: Registers, events: seq<Event>)
    requires n >= 2 && Follows(Boot(n, now, uart), events)
    ensures var o := Run(Boot(n, now, uart), events);
            o.Next? && Same(Sum(CpuTimes(o.m.sched, o.m.now)) + o.m.retired, Elapsed(events))
  {
    hide Sum, CpuTimes, Run, Elapsed;
    NeverPanics(n, now, uart, events);
    ElapsedOverRun(Boot(n, now, uart), events);
  }

  // ------------------------------------------------------------ the time of each task

  /** Where task i is after an event: an exit closes the gap that the task leaves. */
  function Moved(m: Machine, e: Event, i: nat): Option<nat> {
    if e != Exit || i < m.sched.running then Some(i) else if i == m.sched.running then None else Some(i - 1)
  }

  /** Where task i is after the events, unless it has exited. */
  function TaskAt(m: Machine, events: seq<Event>, i: nat): Option<nat>
    requires m.Ok()
    decreases |events|
  {
    if events == [] then Some(i)
    else
      var k := Moved(m, events[0], i);
      if k.None? || Step(m, events[0]).Panic? then None else TaskAt(Step(m, events[0]).m, events[1..], k.value)
  }

  /** The jiffies of the ticks that find task i running. */
  function JiffiesRun(m: Machine, events: seq<Event>, i: nat): nat
    requires m.Ok()
    decreases |events|
  {
    if events == [] then 0
    else
      var k := Moved(m, events[0], i);
      (if i == m.sched.running then Jiffies(events[0]) else 0)
      + if k.None? || Step(m, events[0]).Panic? then 0 else JiffiesRun(Step(m, events[0]).m, events[1..], k.value)
  }

  /** A step gives its jiffies to the running task and leaves the time of every other task as it is. */
  lemma StepKeepsOwnTime(m: Machine, e: Event, i: nat)
    requires Inv(m) && Allowed(m, e) && i < |m.sched.tasks| && Moved(m, e, i).Some? && Step(m, e).Next?
    ensures var m', k := Step(m, e).m, Moved(m, e, i).value;
            && k < |m'.sched.tasks|
            && CpuTime(m'.sched, k, m'.now)
               == (CpuTime(m.sched, i, m.now) + if i == m.sched.running then Jiffies(e) else 0) % WORD
  {
    hide Scheduled, Exited, Handled, CpuTimes, Sum, Progress, Same;
    OwnTimeIsAWord(m, i);
    match e
    case Interrupt(timer, uart) =>
      if timer.Some? {
        TickAddsToTheRunningTask(m.sched, i, m.now, timer.value);
        var ticked := Tick(m, timer.value);
        var served := if uart.Some? then Serve(ticked, uart.value.0, uart.value.1) else ticked;
        ScheduleKeepsEachTime(served.sched, i, served.World());
      }
    case Yield => ScheduleKeepsEachTime(m.sched, i, m.World());
    case Sleep(secs) => BlockKeepsEachTime(m.sched, i, SleepWaitable(secs, m.now), m.World());
    case Wait => BlockKeepsEachTime(m.sched, i, UartRequest, m.World());
    case Exit => ExitKeepsEachTime(m.sched, i, m.World());
    case _ =>
  }

  lemma OwnTimeIsAWord(m: Machine, i: nat)
    requires Inv(m) && i < |m.sched.tasks|
    ensures CpuTime(m.sched, i, m.now) % WORD == CpuTime(m.sched, i, m.now)
  {
  }

  /**
   Over any run, the CPU time of every task that has not exited grows by the jiffies of the
   ticks that found it running.
   */
  lemma {:induction false} OwnTimeOverRun(m: Machine, events: seq<Event>, i: nat)
    requires Inv(m) && Follows(m, events) && i < |m.sched.tasks| && TaskAt(m, events, i).Some?
    ensures var o, k := Run(m, events), TaskAt(m, events, i).value;
            && o.Next? && k < |o.m.sched.tasks|
            && CpuTime(o.m.sched, k, o.m.now) == (CpuTime(m.sched, i, m.now) + JiffiesRun(m, events, i)) % WORD
    decreases |events|
  {
    hide Allowed, CpuTime, Step, Inv, Jiffies, Moved;
    InvOk(m);
    OwnTimeIsAWord(m, i);
    if events != [] {
      var e, k := events[0], Moved(m, events[0], i).value;
      StepKeepsInv(m, e);
      StepKeepsOwnTime(m, e, i);
      var m' := Step(m, e).m;
      OwnTimeOverRun(m', events[1..], k);
      AddWrapped(CpuTime(m.sched, i, m.now) + if i == m.sched.running then Jiffies(e) else 0,
                 JiffiesRun(m', events[1..], k));
    }
  }

  /** From the start of the scheduler, that time is the jiffies of the ticks that found the task running. */
  lemma CpuTimeIsTimeRun(n: nat, now: nat, uart: Registers, events: seq<Event>, i: nat)
    requires n >= 2 && Follows(Boot(n, now, uart), events) && i < n && TaskAt(Boot(n, now, uart), events, i).Some?
    ensures var m := Boot(n, now, uart);
            var o, k := Run(m, events), TaskAt(m, events, i).value;
            && o.Next? && k < |o.m.sched.tasks|
            && CpuTime(o.m.sched, k, o.m.now) == JiffiesRun(m, events, i) % WORD
  {
    hide Run, TaskAt, JiffiesRun;
    BootInv(n, now, uart);
    var m := Boot(n, now, uart);
    assert CpuTime(m.sched, i, now) == 0;
    OwnTimeOverRun(m, events, i);
  }

  /** The clock counts the jiffies modulo 2^32. */
  lemma {:induction false} ClockOverRun(m: Machine, events: seq<Event>)
    requires m.Ok() && m.now < WORD
    ensures Run(m, events).Next? ==> Run(m, events).m.now == (m.now + Elapsed(events)) % WORD
    decreases |events|
  {
    hide Step, Jiffies;
    if events != [] && Step(m, events[0]).Next? {
      StepClock(m, events[0]);
      ClockOverRun(Step(m, events[0]).m, events[1..]);
      AddWrapped(m.now + Jiffies(events[0]), Elapsed(events[1..]));
    }
  }

  lemma AddWrapped(x: int, y: int)
    ensures (x % WORD + y) % WORD == (x + y) % WORD
  {
    SameShift(x % WORD, x, y);
  }

  lemma StepClock(m: Machine, e: Event)
    requires m.Ok() && m.now < WORD && Step(m, e).Next?
    ensures Step(m, e).m.now == (m.now + Jiffies(e)) % WORD
  {
    hide Scheduled, Blocked, Exited, Handled;
  }

  // ------------------------------------------------------------ sleeping

  /** Task i sleeps until `end`. */
  predicate Sleeping(m: Machine, i: nat, end: nat) {
    && i < |m.sched.tasks| && i != m.sched.running && m.now < end < WORD
    && m.sched.tasks[i].state == Waiting && m.sched.tasks[i].waitingFor == Some(Waitable.Sleep(end))
  }

  lemma SleepBegins(m: Machine, secs: nat)
    requires Inv(m) && Allowed(m, Event.Sleep(secs)) && secs > 0 && m.now + secs * SYS_HZ < WORD
    ensures var m' := Step(m, Event.Sleep(secs)).m;
            m'.now == m.now && Sleeping(m', m.sched.running, m.now + secs * SYS_HZ)
  {
    hide Scheduled;
    var end := m.now + secs * SYS_HZ;
    assert SleepWaitable(secs, m.now) == Waitable.Sleep(end);
    var tasks := m.sched.tasks;
    ScheduledStates(m.sched.(tasks := tasks[m.sched.running := tasks[m.sched.running].WaitFor(Waitable.Sleep(end))]),
                    m.World());
  }

  /** A step that does not bring the end leaves the sleeper asleep. */
  lemma SleepGoesOn(m: Machine, e: Event, i: nat, end: nat)
    requires Inv(m) && Allowed(m, e) && Sleeping(m, i, end) && m.now + Jiffies(e) < end && Step(m, e).Next?
    ensures var m', k := Step(m, e).m, Moved(m, e, i);
            m'.now == m.now + Jiffies(e) && k.Some? && Sleeping(m', k.value, end)
  {
    hide Scheduled, Handled, CpuTimes, Sum, Progress, Same;
    match e
    case Interrupt(timer, uart) =>
      if timer.Some? {
        var ticked := Tick(m, timer.value);
        var served := if uart.Some? then Serve(ticked, uart.value.0, uart.value.1) else ticked;
        ScheduledStates(served.sched, served.World());
      }
    case Yield => ScheduledStates(m.sched, m.World());
    case Sleep(secs) => BlockedKeepsSleeper(m.sched, i, end, SleepWaitable(secs, m.now), m.World());
    case Wait => BlockedKeepsSleeper(m.sched, i, end, UartRequest, m.World());
    case Exit => ExitedKeepsSleeper(m.sched, i, end, m.World());
    case _ =>
  }

  lemma BlockedKeepsSleeper(s: Scheduler, i: nat, end: nat, waitable: Waitable, world: World)
    requires TasksOk(s) && s.running != SPIN && i < |s.tasks| && i != s.running && world.now < end
    requires s.tasks[i].state == Waiting && s.tasks[i].waitingFor == Some(Waitable.Sleep(end))
    ensures var t := Blocked(s, waitable, world);
            i != t.running && t.tasks[i].state == Waiting && t.tasks[i].waitingFor == Some(Waitable.Sleep(end))
  {
    hide Scheduled;
    ScheduledStates(s.(tasks := s.tasks[s.running := s.tasks[s.running].WaitFor(waitable)]), world);
  }

  lemma ExitedKeepsSleeper(s: Scheduler, i: nat, end: nat, world: World)
    requires TasksOk(s) && s.running != SPIN && s.running != CLIENT
    requires i < |s.tasks| && i != s.running && world.now < end
    requires s.tasks[i].state == Waiting && s.tasks[i].waitingFor == Some(Waitable.Sleep(end))
    ensures var t, k := Exited(s, world), if i < s.running then i else i - 1;
            k != t.running && t.tasks[k].state == Waiting && t.tasks[k].waitingFor == Some(Waitable.Sleep(end))
  {
    hide Exited;
    var tasks := RemoveAt(s.tasks, s.running);
    assert tasks[SPIN].Ready(world);
    ExitSwitches(s, world);
    assert tasks[if i < s.running then i else i - 1] == s.tasks[i];
  }

  lemma {:induction false} SleepsOverRun(m: Machine, events: seq<Event>, i: nat, end: nat)
    requires Inv(m) && Follows(m, events) && Sleeping(m, i, end) && m.now + Elapsed(events) < end
    ensures var o, k := Run(m, events), TaskAt(m, events, i);
            && o.Next? && Inv(o.m) && k.Some? && o.m.now == m.now + Elapsed(events)
            && Sleeping(o.m, k.value, end)
    decreases |events|
  {
    hide Inv, Allowed, Sleeping, Moved, Step;
    InvOk(m);
    if events != [] {
      StepKeepsInv(m, events[0]);
      SleepGoesOn(m, events[0], i, end);
      SleepsOverRun(Step(m, events[0]).m, events[1..], Moved(m, events[0], i).value, end);
    }
  }

  /**
   Whatever happens, a task that sleeps is not run before its seconds have passed, as long
   as its end time fits in a word.
   */
  lemma SleepLasts(m: Machine, secs: nat, events: seq<Event>)
    requires Inv(m) && Follows(m, [Event.Sleep(secs)] + events)
    requires m.now + secs * SYS_HZ < WORD && Elapsed(events) < secs * SYS_HZ
    ensures var all := [Event.Sleep(secs)] + events;
            var o, k := Run(m, all), TaskAt(m, all, m.sched.running);
            && o.Next? && k.Some? && k.value < |o.m.sched.tasks|
            && o.m.sched.running != k.value && o.m.sched.tasks[k.value].state == Waiting
  {
    hide Inv, Step, Allowed, Elapsed;
    var sleep, i := Event.Sleep(secs), m.sched.running;
    assert ([sleep] + events)[1..] == events;
    InvOk(m);
    StepKeepsInv(m, sleep);
    SleepBegins(m, secs);
    SleepsOverRun(Step(m, sleep).m, events, i, m.now + secs * SYS_HZ);
  }

  // ------------------------------------------------------------ fairness

  predicate CallsSchedule(e: Event) {
    match e
    case Interrupt(timer, _) => timer.Some?
    case Yield => true
    case Sleep(_) => true
    case Wait => true
    case _ => false
  }

  function ScheduleCalls(events: seq<Event>): nat {
    if events == [] then 0 else (if CallsSchedule(events[0]) then 1 else 0) + ScheduleCalls(events[1..])
  }

  /** The task sleeps, and its end time has come. */
  predicate Overslept(m: Machine, i: nat) {
    && i < |m.sched.tasks| && m.sched.tasks[i].state == Waiting && m.sched.tasks[i].waitingFor.Some?
    && m.sched.tasks[i].waitingFor.value.Sleep? && m.sched.tasks[i].waitingFor.value.endTime <= m.now
  }

  /** The task can run, or its sleep is over, or it is the client and its request is finished. */
  predicate WantsToRun(m: Machine, i: nat) {
    && i < |m.sched.tasks|
    && (m.sched.tasks[i].CanRun() || Overslept(m, i)
        || (i == CLIENT && m.place == Returning && m.request.size == m.request.capacity))
  }

  /** Scheduling runs a task that wants to run, or brings it nearer. */
  lemma RescheduledApproaches(s: Scheduler, i: nat, world: World)
    requires s.running < |s.tasks| && SPIN < |s.tasks| && s.tasks[SPIN].CanRun() && s.tasks[s.running].state != New
    requires i < |s.tasks| && MayRun(s.tasks[i], world)
    ensures var t := Scheduled(s, world);
            && (t.running == i || Distance(t, i) < Distance(s, i))
            && (t.running == i ==> t.tasks[i].CanRun())
            && (t.running != i ==>
                  t.tasks[i].state == s.tasks[i].state && t.tasks[i].waitingFor == s.tasks[i].waitingFor)
  {
    ScheduleApproaches(s, i, world);
    ScheduledStates(s, world);
  }

  /**
   A task that wants to run still does after a step, and every call of schedule brings it
   nearer.  For a sleeper this holds while the clock does not wrap.
   */
  lemma StepApproaches(m: Machine, e: Event, i: nat)
    requires Inv(m) && Allowed(m, e) && WantsToRun(m, i) && m.sched.running != i && Step(m, e).Next?
    requires e != Exit
    requires Overslept(m, i) ==> m.now + Jiffies(e) < WORD
    ensures var m' := Step(m, e).m;
            && WantsToRun(m', i)
            && (Overslept(m', i) && m'.sched.running != i ==> Overslept(m, i) && m'.now == m.now + Jiffies(e))
            && (CallsSchedule(e) ==> m'.sched.running == i || Distance(m'.sched, i) < Distance(m.sched, i))
            && (!CallsSchedule(e) ==> m'.sched == m.sched)
  {
    hide Scheduled, Distance;
    match e
    case Interrupt(timer, uart) =>
      var ticked := if timer.Some? then Tick(m, timer.value) else m;
      var served := if uart.Some? then Serve(ticked, uart.value.0, uart.value.1) else ticked;
      if uart.Some? && m.request.Finished() {
        ServeStaysFinished(ticked, uart.value.0, uart.value.1);
      }
      RescheduledApproaches(served.sched, i, served.World());
    case Yield =>
      RescheduledApproaches(m.sched, i, m.World());
    case Sleep(secs) =>
      BlockedApproaches(m.sched, i, SleepWaitable(secs, m.now), m.World());
    case Wait =>
      BlockedApproaches(m.sched, i, UartRequest, m.World());
    case _ =>
  }

  /**
   A call of schedule considers every task as it stands after the tick and the port: one whose
   wait they end runs at once or comes nearer.
   */
  lemma StepSchedules(m: Machine, e: Event, i: nat)
    requires Inv(m) && Allowed(m, e) && CallsSchedule(e) && Step(m, e).Next?
    requires i < |m.sched.tasks| && i != m.sched.running
    requires MayRun(m.sched.tasks[i], Step(m, e).m.World())
    ensures var m' := Step(m, e).m; m'.sched.running == i || Distance(m'.sched, i) < Distance(m.sched, i)
  {
    hide Scheduled, Distance, Handled, CpuTimes, Sum, Progress, Same, MayRun;
    match e
    case Interrupt(timer, uart) =>
      var ticked := Tick(m, timer.value);
      var served := if uart.Some? then Serve(ticked, uart.value.0, uart.value.1) else ticked;
      ScheduleApproaches(served.sched, i, served.World());
    case Yield => ScheduleApproaches(m.sched, i, m.World());
    case Sleep(secs) => BlockedApproaches(m.sched, i, SleepWaitable(secs, m.now), m.World());
    case Wait => BlockedApproaches(m.sched, i, UartRequest, m.World());
  }

  lemma BlockedApproaches(s: Scheduler, i: nat, waitable: Waitable, world: World)
    requires TasksOk(s) && s.running != SPIN && i < |s.tasks| && s.running != i && MayRun(s.tasks[i], world)
    ensures var t := Blocked(s, waitable, world);
            && (t.running == i || Distance(t, i) < Distance(s, i))
            && (t.running == i ==> t.tasks[i].CanRun())
            && (t.running != i ==>
                  t.tasks[i].state == s.tasks[i].state && t.tasks[i].waitingFor == s.tasks[i].waitingFor)
  {
    hide Scheduled;
    RescheduledApproaches(s.(tasks := s.tasks[s.running := s.tasks[s.running].WaitFor(waitable)]), i, world);
  }

  lemma WantsInv(m: Machine, i: nat)
    requires Inv(m) && WantsToRun(m, i)
    ensures m.Ok() && i < |m.sched.tasks|
    ensures Distance(m.sched, i) > 0
  {
  }

  /** A task that wants to run is run within as many calls of schedule as it is away. */
  lemma {:induction false} RunsInItsTurn(m: Machine, events: seq<Event>, i: nat)
    requires Inv(m) && Follows(m, events) && WantsToRun(m, i)
    requires Exit !in events && (Overslept(m, i) ==> m.now + Elapsed(events) < WORD)
    requires ScheduleCalls(events) >= Distance(m.sched, i)
    ensures exists j | 0 <= j <= |events| ::
              Run(m, events[..j]).Next? && Run(m, events[..j]).m.sched.running == i
    decreases |events|
  {
    hide Inv, Step, Allowed, Distance, WantsToRun;
    WantsInv(m, i);
    if m.sched.running == i {
      assert Run(m, events[..0]) == Next(m);
    } else {
      var e := events[0];
      StepKeepsInv(m, e);
      StepApproaches(m, e, i);
      var m' := Step(m, e).m;
      if m'.sched.running == i {
        assert events[..1][1..] == [] && Run(m, events[..1]) == Next(m');
      } else {
        RunsInItsTurn(m', events[1..], i);
        var j :| 0 <= j <= |events[1..]| && Run(m', events[1..][..j]).Next?
          && Run(m', events[1..][..j]).m.sched.running == i;
        assert events[..j + 1][1..] == events[1..][..j];
        assert Run(m, events[..j + 1]) == Run(m', events[1..][..j]);
      }
    }
  }

  /**
   Round robin: n calls of schedule are always enough, for a task that can run, for a
   client whose request is finished, and for a sleeper whose time has come.
   */
  lemma RunsWithinOneRound(m: Machine, events: seq<Event>, i: nat)
    requires Inv(m) && Follows(m, events) && WantsToRun(m, i)
    requires Exit !in events && (Overslept(m, i) ==> m.now + Elapsed(events) < WORD)
    requires ScheduleCalls(events) >= |m.sched.tasks|
    ensures exists j | 0 <= j <= |events| ::
              Run(m, events[..j]).Next? && Run(m, events[..j]).m.sched.running == i
  {
    RunsInItsTurn(m, events, i);
  }

  /** The tick that brings the end of a sleep, or a later schedule, runs the sleeper or wakes it. */
  lemma SleepEnds(m: Machine, e: Event, i: nat, end: nat)
    requires Inv(m) && Allowed(m, e) && Sleeping(m, i, end) && end <= m.now + Jiffies(e) < WORD && Step(m, e).Next?
    ensures var m' := Step(m, e).m;
            && m'.now == m.now + Jiffies(e)
            && (m'.sched.running == i || (Overslept(m', i) && Distance(m'.sched, i) < Distance(m.sched, i)))
  {
    hide Scheduled, Distance, Handled, CpuTimes, Sum, Progress, Same;
    StepSchedules(m, e, i);
    var ticked := Tick(m, e.timer.value);
    var served := if e.uart.Some? then Serve(ticked, e.uart.value.0, e.uart.value.1) else ticked;
    ScheduledStates(served.sched, served.World());
  }

  /**
   A sleeper whose time comes is run within as many calls of schedule as it is away, counting
   that of the tick that brings the end.
   */
  lemma SleeperRunsInItsTurn(m: Machine, e: Event, events: seq<Event>, i: nat, end: nat)
    requires Inv(m) && Follows(m, [e] + events) && Sleeping(m, i, end)
    requires end <= m.now + Jiffies(e) && m.now + Jiffies(e) + Elapsed(events) < WORD
    requires Exit !in events && 1 + ScheduleCalls(events) >= Distance(m.sched, i)
    ensures exists j | 0 <= j <= |events| ::
              Run(m, [e] + events[..j]).Next? && Run(m, [e] + events[..j]).m.sched.running == i
  {
    hide Inv, Step, Allowed, Distance;
    assert ([e] + events)[1..] == events;
    InvOk(m);
    StepKeepsInv(m, e);
    SleepEnds(m, e, i, end);
    var m' := Step(m, e).m;
    if m'.sched.running == i {
      assert events[..0] == [] && ([e] + events[..0])[1..] == [];
      assert Run(m, [e] + events[..0]) == Next(m');
    } else {
      RunsInItsTurn(m', events, i);
      var j :| 0 <= j <= |events| && Run(m', events[..j]).Next? && Run(m', events[..j]).m.sched.running == i;
      assert ([e] + events[..j])[1..] == events[..j];
      assert Run(m, [e] + events[..j]) == Run(m', events[..j]);
    }
  }
}
