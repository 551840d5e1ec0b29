/** What the scheduler guarantees over whole runs, in every interleaving. */
module SchedulerRuns {
  import opened Basics
  import opened Scheduler

  /** A run is a list of events each of which is possible when it happens and
      none of which shuts the system down. */
  ghost predicate IsRun(s: Sys, events: seq<Event>)
    decreases events
  {
    events == [] ||
    (Enabled(s, events[0]) && Step(s, events[0]).Resume? && IsRun(Step(s, events[0]).sys, events[1..]))
  }

  ghost function After(s: Sys, events: seq<Event>): Sys
    requires IsRun(s, events)
    decreases events
  {
    if events == [] then s else After(Step(s, events[0]).sys, events[1..])
  }

  lemma {:induction false} RunKeepsInv(s: Sys, events: seq<Event>)
    requires Inv(s) && IsRun(s, events)
    ensures Inv(After(s, events))
    decreases events
  {
    if events != [] {
      StepKeepsInv(s, events[0]);
      RunKeepsInv(Step(s, events[0]).sys, events[1..]);
    }
  }

  // ----- bounded waiting

  /** The events at which the scheduler decides who runs next. */
  ghost predicate IsDecision(s: Sys, e: Event) {
    s.cur <= LAST && (e.DoTick? || e.DoSleep? || Ends(s, e))
  }

  ghost function Decisions(s: Sys, events: seq<Event>): nat
    requires IsRun(s, events)
    decreases events
  {
    if events == [] then 0
    else (if IsDecision(s, events[0]) then 1 else 0) + Decisions(Step(s, events[0]).sys, events[1..])
  }

  /** If `r` is ready the scan finds a context no further away than `r`. */
  lemma PickIsNoFurther(ctxs: Contexts, cur: nat, reason: Reason, r: nat)
    requires cur <= LAST && IsReady(ctxs, r) && r != cur
    ensures PickNext(ctxs, cur, reason).Some?
    ensures var n := PickNext(ctxs, cur, reason).value;
            1 <= n <= LAST && n != cur && (n == r || 1 <= Dist(n, r) < Dist(cur, r))
  {
    ScanReachesAll(cur, r);
    assert IsReady(ctxs, Scanned(cur, Dist(cur, r)));
    assert FirstReady(ctxs, cur) <= Dist(cur, r);
  }

  /** One step leaves a ready context ready, unless it is chosen; a decision brings
      it closer. */
  lemma StepBringsCloser(s: Sys, e: Event, r: nat)
    requires Inv(s) && Enabled(s, e) && IsReady(s.ctxs, r)
    ensures Step(s, e).Resume?
    ensures var s' := Step(s, e).sys;
            if IsDecision(s, e) then s'.cur == r || (IsReady(s'.ctxs, r) && 1 <= Dist(s'.cur, r) < Dist(s.cur, r))
            else s'.cur == s.cur && IsReady(s'.ctxs, r)
  {
    match e
    case DoTick(user) =>
      PickIsNoFurther(Counted(s.ctxs, s.cur), s.cur, TIMER, r);
    case DoSleep(ticks, user) =>
      PickIsNoFurther(Slept(s, ticks, user), s.cur, SLEEPING, r);
    case DoExit =>
      PickIsNoFurther(WithState(s.ctxs, s.cur, UNUSED), s.cur, DO_EXIT, r);
    case DoFault(fault, user) =>
      PickIsNoFurther(WithState(s.ctxs, s.cur, UNUSED), s.cur, DO_EXIT, r);
    case _ =>
  }

  /** In every run a ready context is running after at most `Dist` decisions, and
      never after more than 15, whatever the others do. */
  lemma {:induction false} BoundedWaiting(s: Sys, events: seq<Event>, r: nat) returns (k: nat)
    requires Inv(s) && IsRun(s, events) && IsReady(s.ctxs, r)
    requires Decisions(s, events) >= Dist(s.cur, r)
    ensures Dist(s.cur, r) <= 15
    ensures k <= |events| && IsRun(s, events[..k])
    ensures After(s, events[..k]).cur == r && After(s, events[..k]).ctxs[r].state == RUNNING
    ensures Decisions(s, events[..k]) <= Dist(s.cur, r)
    decreases events
  {
    var e, s' := events[0], Step(s, events[0]).sys;
    StepBringsCloser(s, e, r);
    StepKeepsInv(s, e);
    if s'.cur == r {
      k := 1;
      assert events[..1] == [e];
      assert [e][1..] == [];
    } else {
      var j := BoundedWaiting(s', events[1..], r);
      k := j + 1;
      assert events[..k][0] == e && events[..k][1..] == events[1..][..j];
    }
  }

  // ----- registers

  /** A context that is not running keeps its registers until it is chosen, and
      is then resumed with them. */
  lemma RegistersAreKept(s: Sys, e: Event, c: nat)
    requires Inv(s) && Enabled(s, e) && Step(s, e).Resume?
    requires c <= LAST && c != s.cur && s.ctxs[c].state != UNUSED
    ensures var s' := Step(s, e).sys;
            if s'.cur == c then Step(s, e).cpu == s.ctxs[c].regs
            else s'.ctxs[c].state != UNUSED && s'.ctxs[c].regs == s.ctxs[c].regs
  {
    match e
    case DoTick(user) => TickOnOther(s, user, c);
    case _ =>
  }

  /** What a tick does to a context other than the current one. */
  lemma TickOnOther(s: Sys, user: Regs, c: nat)
    requires Inv(s) && Tick(s, user).Resume? && c <= LAST && c != s.cur
    ensures var s', b, a := Tick(s, user).sys, s.ctxs[c], Tick(s, user).sys.ctxs[c];
            && a.regs == b.regs && (s'.cur == c ==> Tick(s, user).cpu == b.regs)
            && a.ticks_to_sleep == (if b.ticks_to_sleep > 0 then b.ticks_to_sleep - 1 else 0)
            && a.state == if s'.cur == c then RUNNING else if b.ticks_to_sleep == 1 then READY else b.state
  {
    var ctxs := Counted(s.ctxs, s.cur);
    var counted := if c == 1 then AlarmCounted(s.ctxs[1]) else s.ctxs[c];
    assert ctxs[c] == SleepCounted(counted);
    var n := PickNext(ctxs, s.cur, TIMER).value;
    PickedIsReadyOrCurrent(ctxs, s.cur, TIMER);
    assert ctxs[n].state == READY by { TickKeepsInv(s, user); }
  }

  /** Context `c` is not current until the last event, and is then. */
  ghost predicate ResumesAtEnd(s: Sys, events: seq<Event>, c: nat)
    requires IsRun(s, events)
    decreases events
  {
    && s.cur != c && events != []
    && var s' := Step(s, events[0]).sys;
       if |events| == 1 then s'.cur == c else ResumesAtEnd(s', events[1..], c)
  }

  ghost function LastCpu(s: Sys, events: seq<Event>): Regs
    requires IsRun(s, events) && events != []
    decreases events
  {
    if |events| == 1 then Step(s, events[0]).cpu else LastCpu(Step(s, events[0]).sys, events[1..])
  }

  lemma {:induction false} ResumedWithSavedRegisters(s: Sys, events: seq<Event>, c: nat)
    requires Inv(s) && IsRun(s, events) && c <= LAST && s.ctxs[c].state != UNUSED && ResumesAtEnd(s, events, c)
    ensures LastCpu(s, events) == s.ctxs[c].regs
    decreases events
  {
    RegistersAreKept(s, events[0], c);
    if |events| > 1 {
      StepKeepsInv(s, events[0]);
      ResumedWithSavedRegisters(Step(s, events[0]).sys, events[1..], c);
    }
  }

  /** A context that the timer preempts resumes, whenever and by whatever event,
      with all the registers it had, after the signal, if any, was delivered. */
  lemma PreemptionPreservesRegisters(s: Sys, user: Regs, events: seq<Event>)
    requires Inv(s) && Tick(s, user).Resume? && Tick(s, user).sys.cur != s.cur
    requires IsRun(Tick(s, user).sys, events) && ResumesAtEnd(Tick(s, user).sys, events, s.cur)
    ensures LastCpu(Tick(s, user).sys, events) == SignalledAtTick(s, user).0
  {
    StepKeepsInv(s, DoTick(user));
    ResumedWithSavedRegisters(Tick(s, user).sys, events, s.cur);
  }

  /** The general registers of two register sets agree. */
  predicate SameGeneral(a: Regs, b: Regs) {
    a == b.(rbp := a.rbp, rip := a.rip, cs := a.cs, rflags := a.rflags, rsp := a.rsp, ss := a.ss)
  }

  /** A context that sleeps goes on after the system call on the same stack, but
      with all its registers exactly if it was in the user segments and the last
      saved general registers happen to be those it had at the call. */
  lemma SleepPreservesRegistersIff(s: Sys, ticks: U32, call: Regs, events: seq<Event>)
    requires Inv(s) && Enabled(s, DoSleep(ticks, call))
    requires IsRun(Sleep(s, ticks, call).sys, events) && ResumesAtEnd(Sleep(s, ticks, call).sys, events, s.cur)
    ensures var cpu := LastCpu(Sleep(s, ticks, call).sys, events);
            && cpu.rip == call.rip && cpu.rsp == call.rsp && cpu.rbp == call.rbp && cpu.rflags == call.rflags
            && SameGeneral(cpu, s.ctxs[s.cur].regs)
            && (cpu == call <==> call.cs == USER_CS && call.ss == USER_SS && SameGeneral(call, s.ctxs[s.cur].regs))
  {
    StepKeepsInv(s, DoSleep(ticks, call));
    ResumedWithSavedRegisters(Sleep(s, ticks, call).sys, events, s.cur);
  }

  /** Registers are lost: context 1, which was never preempted, sleeps for one tick
      and wakes up with the `rax` it was created with. */
  lemma SleeperLosesRegister(swapper: Regs, init: Regs, unused: Regs, call: Regs, user: Regs)
    requires call.rax != init.rax
    ensures Inv(Boot(swapper, init, unused))
    ensures var s := Sleep(Boot(swapper, init, unused), 1, call).sys;
            && IsRun(s, [DoTick(user)]) && ResumesAtEnd(s, [DoTick(user)], 1)
            && LastCpu(s, [DoTick(user)]).rip == call.rip && LastCpu(s, [DoTick(user)]).rax == init.rax
  {
    hide FirstReady, PickNext;
    var b := Boot(swapper, init, unused);
    BootIsValid(swapper, init, unused);
    NoneReady(Slept(b, 1, call), 1, SLEEPING);
    var s := Sleep(b, 1, call).sys;
    assert s.cur == 0 && s.ctxs[1] == Slept(b, 1, call)[1];
    var counted := Counted(s.ctxs, 0);
    assert counted[1] == SleepCounted(AlarmCounted(s.ctxs[1]));
    NextIsFirst(counted, TIMER);
    assert [DoTick(user)][1..] == [];
  }

  lemma NoneReady(ctxs: Contexts, cur: nat, reason: Reason)
    requires cur <= LAST && reason == SLEEPING && forall i | 1 <= i <= LAST :: ctxs[i].state != READY
    ensures PickNext(ctxs, cur, reason) == Some(0)
  {
  }

  lemma NextIsFirst(ctxs: Contexts, reason: Reason)
    requires IsReady(ctxs, 1)
    ensures PickNext(ctxs, 0, reason) == Some(1)
  {
    assert Scanned(0, 1) == 1;
  }

  /** A clone enters its function on its own stack, with the general registers that
      were last saved for context 1, when it is first chosen. */
  lemma CloneStartsAtFunction(s: Sys, slot: nat, func: U64, stack: U64, rflags: U64, user: Regs, events: seq<Event>)
    requires Inv(s) && Enabled(s, DoClone(slot, func, stack, rflags, user))
    requires IsRun(Clone(s, slot, func, stack, rflags), events)
    requires ResumesAtEnd(Clone(s, slot, func, stack, rflags), events, slot)
    ensures var cpu := LastCpu(Clone(s, slot, func, stack, rflags), events);
            && cpu.rip == func && cpu.rsp == cpu.rbp == stack && cpu.rflags == rflags
            && cpu.cs == USER_CS && cpu.ss == USER_SS
            && SameGeneral(cpu, s.ctxs[1].regs)
  {
    StepKeepsInv(s, DoClone(slot, func, stack, rflags, user));
    ResumedWithSavedRegisters(Clone(s, slot, func, stack, rflags), events, slot);
  }

  /** What a delivered SIGALRM changes: the handler is entered with the interrupted
      instruction as the return address on top of the user stack. */
  lemma SignalFrame(s: Sys, user: Regs)
    requires s.cur <= LAST && user.rsp >= 8
    ensures var (frame, umem) := SignalledAtTick(s, user);
            var handler := s.ctxs[s.cur].sighandlers[SIGALRM];
            if AlarmFires(s.ctxs) && handler != 0 then
              && frame.rip == handler && frame.rsp == user.rsp - 8
              && frame.rsp in umem && umem[frame.rsp] == user.rip
              && frame.(rip := user.rip, rsp := user.rsp) == user
              && forall a :: a in s.umem && a != frame.rsp ==> a in umem && umem[a] == s.umem[a]
            else frame == user && umem == s.umem
  {
  }

  /** The registers of a context: the processor's while it runs, the saved ones otherwise. */
  function RegsOf(s: Sys, cpu: Regs, c: nat): Regs
    requires c <= LAST
  {
    if s.cur == c then cpu else s.ctxs[c].regs
  }

  lemma DeliveryMovesStack(s: Sys, user: Regs)
    requires s.cur <= LAST && AlarmFires(s.ctxs)
    ensures SignalledAtTick(s, user).0 != user <==> s.ctxs[s.cur].sighandlers[SIGALRM] != 0
  {
    if s.ctxs[s.cur].sighandlers[SIGALRM] != 0 {
      assert SignalledAtTick(s, user).0.rsp == (user.rsp + TWO_TO_64 - 8) % TWO_TO_64 != user.rsp;
    }
  }

  /** A tick at which the alarm of context 1 fires changes the registers of the
      current context, to those at the entry of its own handler, and of no other: it
      reaches context 1 exactly if that is current and has a handler. */
  lemma AlarmReachesIff(s: Sys, user: Regs, c: nat)
    requires Inv(s) && AlarmFires(s.ctxs) && Tick(s, user).Resume? && c <= LAST
    ensures var after := RegsOf(Tick(s, user).sys, Tick(s, user).cpu, c);
            && (after != RegsOf(s, user, c) <==> s.cur == c && s.ctxs[c].sighandlers[SIGALRM] != 0)
            && (after != RegsOf(s, user, c) ==> after.rip == s.ctxs[c].sighandlers[SIGALRM])
  {
    if c == s.cur {
      DeliveryMovesStack(s, user);
    } else {
      TickOnOther(s, user, c);
    }
  }

  // ----- sleeping

  ghost function Ticks(events: seq<Event>): nat
    decreases events
  {
    if events == [] then 0 else (if events[0].DoTick? then 1 else 0) + Ticks(events[1..])
  }

  lemma SleeperCounts(s: Sys, e: Event, c: nat)
    requires Inv(s) && Enabled(s, e) && Step(s, e).Resume?
    requires c <= LAST && s.ctxs[c].state == WAITING
    ensures var n, c' := s.ctxs[c].ticks_to_sleep, Step(s, e).sys.ctxs[c];
            if !e.DoTick? then c'.state == WAITING && c'.ticks_to_sleep == n
            else if n > 1 then c'.state == WAITING && c'.ticks_to_sleep == n - 1
            else c'.state == READY || c'.state == RUNNING
  {
    hide FirstReady, Delivered;
    match e
    case DoTick(user) => TickOnOther(s, user, c);
    case _ =>
  }

  lemma {:induction false} SleepsUntil(s: Sys, events: seq<Event>, c: nat)
    requires Inv(s) && IsRun(s, events) && c <= LAST && s.ctxs[c].state == WAITING
    requires Ticks(events) < s.ctxs[c].ticks_to_sleep
    ensures After(s, events).ctxs[c].state == WAITING
    ensures After(s, events).ctxs[c].ticks_to_sleep == s.ctxs[c].ticks_to_sleep - Ticks(events)
    decreases events
  {
    if events != [] {
      SleeperCounts(s, events[0], c);
      StepKeepsInv(s, events[0]);
      SleepsUntil(Step(s, events[0]).sys, events[1..], c);
    }
  }

  /** A context that sleeps for `n` ticks waits through the next `n-1` ticks and is
      ready or running right after the `n`-th, in every interleaving. */
  lemma SleepsExactly(s: Sys, n: U32, call: Regs, events: seq<Event>, user: Regs)
    requires Inv(s) && s.cur != 0 && n >= 1 && IsRun(s, [DoSleep(n, call)] + events)
    requires Ticks(events) < n
    ensures IsRun(Sleep(s, n, call).sys, events)
    ensures var s' := After(Sleep(s, n, call).sys, events);
            && s'.ctxs[s.cur].state == WAITING
            && Enabled(s', DoTick(user))
            && (Ticks(events) == n - 1 && Tick(s', user).Resume? ==>
                  var c' := Tick(s', user).sys.ctxs[s.cur];
                  c'.state == READY || c'.state == RUNNING)
  {
    var run := [DoSleep(n, call)] + events;
    assert run[0] == DoSleep(n, call) && run[1..] == events;
    var s1 := Sleep(s, n, call).sys;
    StepKeepsInv(s, DoSleep(n, call));
    assert s1.ctxs[s.cur].state == WAITING && s1.ctxs[s.cur].ticks_to_sleep == n;
    SleepsUntil(s1, events, s.cur);
    RunKeepsInv(s1, events);
    var s' := After(s1, events);
    if Ticks(events) == n - 1 && Tick(s', user).Resume? {
      SleeperCounts(s', DoTick(user), s.cur);
    }
  }

  // ----- the alarm

  /** Context 1 does not set its alarm anew. */
  ghost predicate NoAlarmCall(s: Sys, events: seq<Event>)
    requires IsRun(s, events)
    decreases events
  {
    events == [] || (!(events[0].DoAlarm? && s.cur == 1) && NoAlarmCall(Step(s, events[0]).sys, events[1..]))
  }

  /** A clone that takes the slot of context 1. */
  predicate TakesSlotOne(e: Event) {
    e.DoClone? && e.slot == 1
  }

  /** The ticks before context 1 is replaced by a clone; all of them if it never is. */
  ghost function TicksToClone(events: seq<Event>): nat
    decreases events
  {
    if events == [] || TakesSlotOne(events[0]) then 0
    else (if events[0].DoTick? then 1 else 0) + TicksToClone(events[1..])
  }

  lemma {:induction false} NoCloneAllTicks(events: seq<Event>)
    requires forall i | 0 <= i < |events| :: !TakesSlotOne(events[i])
    ensures TicksToClone(events) == Ticks(events)
    decreases events
  {
    if events != [] {
      NoCloneAllTicks(events[1..]);
    }
  }

  lemma {:induction false} TicksBeforeClone(before: seq<Event>, e: Event, after: seq<Event>)
    requires TakesSlotOne(e) && forall i | 0 <= i < |before| :: !TakesSlotOne(before[i])
    ensures TicksToClone(before + [e] + after) == Ticks(before)
    ensures Ticks(before + [e] + after) == Ticks(before) + Ticks(after)
    decreases before
  {
    var all := before + [e] + after;
    if before == [] {
      assert all[0] == e && all[1..] == after;
    } else {
      TicksBeforeClone(before[1..], e, after);
      assert all[0] == before[0] && all[1..] == before[1..] + [e] + after;
    }
  }

  /** How often SIGALRM is invoked. */
  ghost function Alarms(s: Sys, events: seq<Event>): nat
    requires IsRun(s, events)
    decreases events
  {
    if events == [] then 0
    else (if events[0].DoTick? && AlarmFires(s.ctxs) then 1 else 0) + Alarms(Step(s, events[0]).sys, events[1..])
  }

  lemma AlarmStep(s: Sys, e: Event)
    requires Inv(s) && Enabled(s, e) && Step(s, e).Resume?
    requires !(e.DoAlarm? && s.cur == 1) && !TakesSlotOne(e)
    ensures var c, c' := s.ctxs[1], Step(s, e).sys.ctxs[1];
            && c'.alarm_config_time == c.alarm_config_time
            && c'.ticks_to_alarm == if e.DoTick? then AlarmCounted(c).ticks_to_alarm else c.ticks_to_alarm
  {
    match e
    case DoTick(user) => TickOnAlarm(s, user);
    case _ =>
  }

  lemma TickOnAlarm(s: Sys, user: Regs)
    requires Inv(s) && Tick(s, user).Resume?
    ensures var c := Tick(s, user).sys.ctxs[1];
            && c.alarm_config_time == s.ctxs[1].alarm_config_time
            && c.ticks_to_alarm == AlarmCounted(s.ctxs[1]).ticks_to_alarm
  {
    var ctxs := Counted(s.ctxs, s.cur);
    var n := PickNext(ctxs, s.cur, TIMER).value;
    assert AllSleepCounted(s.ctxs[1 := AlarmCounted(s.ctxs[1])])[1] == SleepCounted(AlarmCounted(s.ctxs[1]));
    assert SameAlarm(SleepCounted(AlarmCounted(s.ctxs[1])), ctxs[1]);
    assert SameAlarm(ctxs[1], WithState(ctxs, n, RUNNING)[1]);
    assert SameAlarm(WithState(ctxs, n, RUNNING)[1], Tick(s, user).sys.ctxs[1]);
  }

  predicate SameAlarm(c: Context, d: Context) {
    c.alarm_config_time == d.alarm_config_time && c.ticks_to_alarm == d.ticks_to_alarm
  }

  /** With `j` ticks gone since the alarm last fired, `t` more ticks before a clone
      takes slot 1 make it fire as often as `n` goes into `j + t`. */
  lemma {:induction false} AlarmsInRun(s: Sys, events: seq<Event>, n: nat, j: nat)
    requires Inv(s) && IsRun(s, events) && NoAlarmCall(s, events)
    requires j < n && s.ctxs[1].alarm_config_time == n && s.ctxs[1].ticks_to_alarm == n - j
    ensures n * Alarms(s, events) <= j + TicksToClone(events) < n * Alarms(s, events) + n
    decreases events
  {
    hide Inv, Step;
    if events != [] {
      var e, s' := events[0], Step(s, events[0]).sys;
      StepKeepsInv(s, e);
      if TakesSlotOne(e) {
        CloneResetsAlarm(s, e);
        NoAlarmAfterReset(s', events[1..]);
      } else {
        AlarmStep(s, e);
        var j' := if !e.DoTick? then j else if j + 1 < n then j + 1 else 0;
        AlarmsInRun(s', events[1..], n, j');
        AlarmArithmetic(n, j, e.DoTick?, Alarms(s', events[1..]), TicksToClone(events[1..]));
      }
    }
  }

  lemma CloneResetsAlarm(s: Sys, e: Event)
    requires Enabled(s, e) && TakesSlotOne(e)
    ensures Step(s, e).Resume? && Step(s, e).sys.ctxs[1].ticks_to_alarm == 0
  {
  }

  lemma AlarmArithmetic(n: nat, j: nat, tick: bool, alarms: nat, ticks: nat)
    requires j < n
    requires var j' := if !tick then j else if j + 1 < n then j + 1 else 0;
             n * alarms <= j' + ticks < n * alarms + n
    ensures var more, gone := if tick && j + 1 == n then 1 else 0, if tick then 1 else 0;
            n * (more + alarms) <= j + (gone + ticks) < n * (more + alarms) + n
  {
    assert n * (1 + alarms) == n + n * alarms;
  }

  lemma Quotient(t: nat, n: nat, q: nat)
    requires n * q <= t < n * q + n
    ensures t / n == q
  {
    var d := t / n;
    if d < q {
      ProductGrows(n, d, q);
    } else if q < d {
      ProductGrows(n, q, d);
    }
  }

  lemma {:induction false} ProductGrows(n: nat, a: nat, b: nat)
    requires a < b
    ensures n * a + n <= n * b
    decreases b
  {
    assert n * b == n * (b - 1) + n;
    if a + 1 < b {
      ProductGrows(n, a, b - 1);
    }
  }

  /** After context 1 sets an alarm of `n` ticks, and until it sets another, SIGALRM
      is invoked once every `n` ticks, but only while no clone has taken slot 1: the
      count is `t / n` for the ticks up to the clone, and so the one that was asked
      for exactly if the ticks after it complete no further `n`. */
  lemma AlarmsExactly(s: Sys, n: U32, events: seq<Event>)
    requires Inv(s) && s.cur == 1 && n >= 1
    requires IsRun(Alarm(s, n), events) && NoAlarmCall(Alarm(s, n), events)
    ensures Alarms(Alarm(s, n), events) == TicksToClone(events) / n
    ensures Alarms(Alarm(s, n), events) == Ticks(events) / n <==> TicksToClone(events) / n == Ticks(events) / n
    ensures (forall i | 0 <= i < |events| :: !TakesSlotOne(events[i])) ==> Alarms(Alarm(s, n), events) == Ticks(events) / n
  {
    AlarmsInRun(Alarm(s, n), events, n, 0);
    Quotient(TicksToClone(events), n, Alarms(Alarm(s, n), events));
    if forall i | 0 <= i < |events| :: !TakesSlotOne(events[i]) {
      NoCloneAllTicks(events);
    }
  }

  /** A run in which a clone takes slot 1 half-way. */
  lemma AlarmsWithClone(s: Sys, n: U32, before: seq<Event>, e: Event, after: seq<Event>)
    requires Inv(s) && s.cur == 1 && n >= 1
    requires TakesSlotOne(e) && forall i | 0 <= i < |before| :: !TakesSlotOne(before[i])
    requires IsRun(Alarm(s, n), before + [e] + after) && NoAlarmCall(Alarm(s, n), before + [e] + after)
    ensures Alarms(Alarm(s, n), before + [e] + after) == Ticks(before) / n
    ensures Alarms(Alarm(s, n), before + [e] + after) == Ticks(before + [e] + after) / n
            <==> Ticks(before) / n == (Ticks(before) + Ticks(after)) / n
  {
    AlarmsExactly(s, n, before + [e] + after);
    TicksBeforeClone(before, e, after);
  }

  /** An alarm does not survive a clone into slot 1: it does not fire again before
      another alarm call of context 1. */
  lemma CloneStopsAlarm(s: Sys, func: U64, stack: U64, rflags: U64, user: Regs, events: seq<Event>)
    requires Inv(s) && Enabled(s, DoClone(1, func, stack, rflags, user))
    requires IsRun(Clone(s, 1, func, stack, rflags), events)
    requires NoAlarmCall(Clone(s, 1, func, stack, rflags), events)
    ensures Alarms(Clone(s, 1, func, stack, rflags), events) == 0
  {
    StepKeepsInv(s, DoClone(1, func, stack, rflags, user));
    NoAlarmAfterReset(Clone(s, 1, func, stack, rflags), events);
  }

  lemma {:induction false} NoAlarmAfterReset(s: Sys, events: seq<Event>)
    requires Inv(s) && IsRun(s, events) && NoAlarmCall(s, events) && s.ctxs[1].ticks_to_alarm == 0
    ensures Alarms(s, events) == 0
    decreases events
  {
    hide Inv, Step;
    if events != [] {
      if TakesSlotOne(events[0]) {
        CloneResetsAlarm(s, events[0]);
      } else {
        AlarmStep(s, events[0]);
      }
      StepKeepsInv(s, events[0]);
      NoAlarmAfterReset(Step(s, events[0]).sys, events[1..]);
    }
  }


  // ----- two runs in which the alarm of context 1 goes astray

  lemma RunOn(s: Sys, e: Event, rest: seq<Event>)
    requires Enabled(s, e) && Step(s, e).Resume? && IsRun(Step(s, e).sys, rest)
    ensures IsRun(s, [e] + rest) && After(s, [e] + rest) == After(Step(s, e).sys, rest)
    ensures Alarms(s, [e] + rest) == (if e.DoTick? && AlarmFires(s.ctxs) then 1 else 0) + Alarms(Step(s, e).sys, rest)
    ensures !e.DoAlarm? ==> (NoAlarmCall(s, [e] + rest) <==> NoAlarmCall(Step(s, e).sys, rest))
    ensures Ticks([e] + rest) == (if e.DoTick? then 1 else 0) + Ticks(rest)
  {
    assert ([e] + rest)[0] == e && ([e] + rest)[1..] == rest;
  }

  /** From the start, with an alarm every tick: context 1 clones context 2 and ends,
      and context 2 clones into slot 1. The next tick invokes no SIGALRM. */
  lemma AlarmIsLost(swapper: Regs, init: Regs, unused: Regs, func: U64, stack: U64, rflags: U64, user: Regs)
    ensures var s := Boot(swapper, init, unused);
            var before, e := [DoClone(2, func, stack, rflags, user), DoExit], DoClone(1, func, stack, rflags, user);
            && Inv(s) && s.cur == 1 && TakesSlotOne(e)
            && IsRun(Alarm(s, 1), before + [e] + [DoTick(user)])
            && NoAlarmCall(Alarm(s, 1), before + [e] + [DoTick(user)])
            && Alarms(Alarm(s, 1), before + [e] + [DoTick(user)]) == 0
            && Ticks(before + [e] + [DoTick(user)]) == 1
  {
    hide PickNext, FirstReady, Counted;
    var s0 := Alarm(Boot(swapper, init, unused), 1);
    BootIsValid(swapper, init, unused);
    var e1, e2 := DoClone(2, func, stack, rflags, user), DoExit;
    var e3, e4 := DoClone(1, func, stack, rflags, user), DoTick(user);
    var s1 := Clone(s0, 2, func, stack, rflags);
    StepKeepsInv(s0, e1);
    StepBringsCloser(s1, e2, 2);
    StepKeepsInv(s1, e2);
    var s2 := Exit(s1).sys;
    assert s2.ctxs[1].state == UNUSED;
    var s3 := Clone(s2, 1, func, stack, rflags);
    StepKeepsInv(s2, e3);
    StepBringsCloser(s3, e4, 1);
    RunOn(s3, e4, []);
    RunOn(s2, e3, [e4] + []);
    RunOn(s1, e2, [e3] + ([e4] + []));
    RunOn(s0, e1, [e2] + ([e3] + ([e4] + [])));
    assert [e1] + ([e2] + ([e3] + ([e4] + []))) == [e1, e2] + [e3] + [e4];
  }

  /** From the start: context 1 registers a handler, sets an alarm of two ticks and
      clones context 2. At the second tick context 2 is current and has a handler. */
  lemma AlarmGoesToAnother(swapper: Regs, init: Regs, unused: Regs, handler: U64, func: U64, stack: U64, rflags: U64, user: Regs)
    requires handler != 0
    ensures var s, clone := Boot(swapper, init, unused), DoClone(2, func, stack, rflags, user);
            var events := [DoSignal(SIGALRM, handler, user), DoAlarm(2, user), clone, DoTick(user)];
            && IsRun(s, events) && Inv(After(s, events)) && After(s, events).cur == 2
            && AlarmFires(After(s, events).ctxs) && After(s, events).ctxs[2].sighandlers[SIGALRM] == handler
  {
    hide PickNext, FirstReady;
    var s0 := Boot(swapper, init, unused);
    BootIsValid(swapper, init, unused);
    var e1, e2 := DoSignal(SIGALRM, handler, user), DoAlarm(2, user);
    var e3, e4 := DoClone(2, func, stack, rflags, user), DoTick(user);
    var s1 := Signal(s0, SIGALRM, handler);
    StepKeepsInv(s0, e1);
    var s2 := Alarm(s1, 2);
    StepKeepsInv(s1, e2);
    var s3 := Clone(s2, 2, func, stack, rflags);
    StepKeepsInv(s2, e3);
    StepBringsCloser(s3, e4, 2);
    TickOnAlarm(s3, user);
    HandlersStay(s3, user, 2);
    RunOn(s3, e4, []);
    RunOn(s2, e3, [e4] + []);
    RunOn(s1, e2, [e3] + ([e4] + []));
    RunOn(s0, e1, [e2] + ([e3] + ([e4] + [])));
    assert [e1] + ([e2] + ([e3] + ([e4] + []))) == [e1, e2, e3, e4];
    RunKeepsInv(s0, [e1, e2, e3, e4]);
  }

  lemma HandlersStay(s: Sys, user: Regs, c: nat)
    requires Inv(s) && Tick(s, user).Resume? && c <= LAST
    ensures Tick(s, user).sys.ctxs[c].sighandlers == s.ctxs[c].sighandlers
  {
    var ctxs := s.ctxs[1 := AlarmCounted(s.ctxs[1])];
    assert AllSleepCounted(ctxs)[c] == SleepCounted(ctxs[c]);
  }
}
