/** What one event does, read off the state before and after it: every context
    field by field, the processor's registers, user memory, and who runs next. */
module SchedulerSteps {
  import opened Basics
  import opened Scheduler
  import opened SchedulerRuns

  // ----- who runs next

  /** Going up from `cur`, and on from 1 after 15, `n` comes first in `ready`. */
  ghost predicate IsFirstAfter(cur: nat, n: nat, ready: set<nat>) {
    n in ready && forall i | i in ready :: if n > cur then i <= cur || n <= i else n <= i <= cur
  }

  /** The user contexts other than the current one that are ready. */
  ghost function ReadyOthers(ctxs: Contexts, cur: nat): set<nat> {
    set i: nat | 1 <= i <= LAST && i != cur && ctxs[i].state == READY
  }

  lemma ScanFindsAll(ctxs: Contexts, cur: nat, i: nat)
    requires cur <= LAST && 1 <= i <= LAST && i != cur
    ensures 1 <= Dist(cur, i) <= ScanLength(cur) && Scanned(cur, Dist(cur, i)) == i
  {
  }

  lemma FirstReadyIsFirst(ctxs: Contexts, cur: nat)
    requires cur <= LAST
    ensures FirstReady(ctxs, cur) <= ScanLength(cur) <==> ReadyOthers(ctxs, cur) != {}
    ensures FirstReady(ctxs, cur) <= ScanLength(cur) ==>
              IsFirstAfter(cur, Scanned(cur, FirstReady(ctxs, cur)), ReadyOthers(ctxs, cur))
  {
    hide FirstReady;
    var k := FirstReady(ctxs, cur);
    forall i | i in ReadyOthers(ctxs, cur)
      ensures k <= Dist(cur, i) <= ScanLength(cur)
    {
      ScanFindsAll(ctxs, cur, i);
    }
    if k <= ScanLength(cur) {
      assert Scanned(cur, k) in ReadyOthers(ctxs, cur);
    }
  }

  /** The whole of `pick_next_context`. */
  lemma PickNextMeans(ctxs: Contexts, cur: nat, reason: Reason)
    requires cur <= LAST
    ensures ReadyOthers(ctxs, cur) != {} ==>
              && PickNext(ctxs, cur, reason).Some?
              && IsFirstAfter(cur, PickNext(ctxs, cur, reason).value, ReadyOthers(ctxs, cur))
    ensures ReadyOthers(ctxs, cur) == {} ==>
              PickNext(ctxs, cur, reason) ==
              if reason == TIMER && cur != 0 then Some(cur)
              else if reason == SLEEPING || exists i | 1 <= i <= LAST && i != cur :: ctxs[i].state == WAITING then Some(0)
              else None
  {
    hide FirstReady;
    FirstReadyIsFirst(ctxs, cur);
  }

  // ----- a tick

  /** The stack pointer after one push. */
  function Pushed(rsp: U64): U64 {
    if rsp >= 8 then rsp - 8 else rsp + TWO_TO_64 - 8
  }

  /** A tick without a SIGALRM that is due and handled leaves the interrupted
      registers and user memory alone. With one, the handler is entered with the
      interrupted address pushed. Either way they are what the processor goes on
      with, or what is saved if another context is chosen. */
  lemma TickRegisters(s: Sys, user: Regs)
    requires Inv(s) && Tick(s, user).Resume?
    ensures var s', cpu, handler := Tick(s, user).sys, Tick(s, user).cpu, s.ctxs[s.cur].sighandlers[2];
            var due := s.ctxs[1].ticks_to_alarm == 1 && handler != 0;
            var frame := if due then user.(rip := handler, rsp := Pushed(user.rsp)) else user;
            && s'.umem == (if due then s.umem[Pushed(user.rsp) := user.rip] else s.umem)
            && (s'.cur == s.cur ==> cpu == frame && s'.ctxs[s.cur].regs == s.ctxs[s.cur].regs)
            && (s'.cur != s.cur ==> cpu == s.ctxs[s'.cur].regs && s'.ctxs[s.cur].regs == frame)
            && forall i | 0 <= i <= LAST && i != s.cur :: s'.ctxs[i].regs == s.ctxs[i].regs
  {
    hide FirstReady, PickNext;
    CountedContext(s, s.cur);
    forall i: nat | i <= LAST && i != s.cur
      ensures Tick(s, user).sys.ctxs[i].regs == s.ctxs[i].regs
    {
      TickOnOther(s, user, i);
    }
    if Tick(s, user).sys.cur != s.cur {
      TickOnOther(s, user, Tick(s, user).sys.cur);
    }
  }

  lemma CountedContext(s: Sys, i: nat)
    requires s.cur <= LAST && i <= LAST
    ensures var c, c' := s.ctxs[i], Counted(s.ctxs, s.cur)[i];
            && c'.regs == c.regs && c'.sighandlers == c.sighandlers && c'.alarm_config_time == c.alarm_config_time
            && c'.ticks_to_sleep == (if c.ticks_to_sleep > 0 then c.ticks_to_sleep - 1 else 0)
            && c'.state == (if i == s.cur || c.ticks_to_sleep == 1 then READY else c.state)
            && c'.ticks_to_alarm == if i != 1 || c.ticks_to_alarm == 0 then c.ticks_to_alarm
                                    else if c.ticks_to_alarm == 1 then c.alarm_config_time
                                    else c.ticks_to_alarm - 1
  {
    var ctxs := s.ctxs[1 := AlarmCounted(s.ctxs[1])];
    assert AllSleepCounted(ctxs)[i] == SleepCounted(ctxs[i]);
  }

  /** The other fields of context `i` after a tick. */
  lemma TickContext(s: Sys, user: Regs, i: nat)
    requires Inv(s) && Tick(s, user).Resume? && i <= LAST
    ensures var s', c, c' := Tick(s, user).sys, s.ctxs[i], Tick(s, user).sys.ctxs[i];
            && c'.sighandlers == c.sighandlers && c'.alarm_config_time == c.alarm_config_time
            && c'.ticks_to_sleep == (if c.ticks_to_sleep > 0 then c.ticks_to_sleep - 1 else 0)
            && c'.state == (if i == s'.cur then RUNNING else if i == s.cur || c.ticks_to_sleep == 1 then READY else c.state)
            && c'.ticks_to_alarm == if i != 1 || c.ticks_to_alarm == 0 then c.ticks_to_alarm
                                    else if c.ticks_to_alarm == 1 then c.alarm_config_time
                                    else c.ticks_to_alarm - 1
  {
    hide FirstReady, PickNext, Counted, SignalledAtTick;
    CountedContext(s, i);
  }

  /** The user contexts that a tick may switch to: the ready ones and those it wakes. */
  ghost function ReadyAtTick(s: Sys): set<nat> {
    set i: nat | 1 <= i <= LAST && i != s.cur && (s.ctxs[i].state == READY || s.ctxs[i].ticks_to_sleep == 1)
  }

  lemma TickChooses(s: Sys, user: Regs)
    requires Inv(s)
    ensures Enabled(s, DoTick(user)) && Step(s, DoTick(user)) == Tick(s, user)
    ensures ReadyAtTick(s) != {} ==> Tick(s, user).Resume? && IsFirstAfter(s.cur, Tick(s, user).sys.cur, ReadyAtTick(s))
    ensures ReadyAtTick(s) == {} && s.cur != 0 ==> Tick(s, user).Resume? && Tick(s, user).sys.cur == s.cur
    ensures ReadyAtTick(s) == {} && s.cur == 0 ==>
              if exists i | 1 <= i <= LAST :: s.ctxs[i].state == WAITING then
                Tick(s, user).Resume? && Tick(s, user).sys.cur == 0
              else Tick(s, user) == Shutdown
  {
    hide FirstReady, PickNext, Counted, SignalledAtTick;
    var ctxs := Counted(s.ctxs, s.cur);
    forall i: nat | i <= LAST
      ensures ctxs[i].state == if i == s.cur || s.ctxs[i].ticks_to_sleep == 1 then READY else s.ctxs[i].state
    {
      CountedContext(s, i);
    }
    assert ReadyOthers(ctxs, s.cur) == ReadyAtTick(s);
    if ReadyAtTick(s) == {} {
      forall i | 1 <= i <= LAST && i != s.cur
        ensures ctxs[i].state == s.ctxs[i].state
      {
        assert i !in ReadyAtTick(s);
      }
    }
    PickNextMeans(ctxs, s.cur, TIMER);
  }

  // ----- an exit and a sleep

  /** The current context becomes unused, and whoever is chosen runs with its saved
      registers; nothing else changes. */
  lemma ExitMeans(s: Sys)
    requires Inv(s) && s.cur != 0
    ensures Enabled(s, DoExit) && Step(s, DoExit) == Exit(s)
    ensures ReadyOthers(s.ctxs, s.cur) != {} ==>
              Exit(s).Resume? && IsFirstAfter(s.cur, Exit(s).sys.cur, ReadyOthers(s.ctxs, s.cur))
    ensures ReadyOthers(s.ctxs, s.cur) == {} ==>
              if exists i | 1 <= i <= LAST :: s.ctxs[i].state == WAITING then Exit(s).Resume? && Exit(s).sys.cur == 0
              else Exit(s) == Shutdown
    ensures Exit(s).Resume? ==>
              var s' := Exit(s).sys;
              && s'.umem == s.umem && Exit(s).cpu == s.ctxs[s'.cur].regs && s'.cur != s.cur
              && forall i | 0 <= i <= LAST ::
                   s'.ctxs[i] == s.ctxs[i].(state := if i == s'.cur then RUNNING else if i == s.cur then UNUSED else s.ctxs[i].state)
  {
    hide FirstReady, PickNext;
    var ctxs := WithState(s.ctxs, s.cur, UNUSED);
    assert ReadyOthers(ctxs, s.cur) == ReadyOthers(s.ctxs, s.cur);
    assert forall i | 1 <= i <= LAST && s.ctxs[i].state == WAITING :: i != s.cur && ctxs[i].state == WAITING;
    PickNextMeans(ctxs, s.cur, DO_EXIT);
  }

  /** The current context waits for the ticks given. Of its registers the frame words
      of the call are saved, with the user segments, and the general ones are not. */
  lemma SleepMeans(s: Sys, ticks: U32, call: Regs)
    requires Inv(s) && s.cur != 0 && ticks >= 1
    ensures Enabled(s, DoSleep(ticks, call)) && Step(s, DoSleep(ticks, call)) == Sleep(s, ticks, call)
    ensures var s', others := Sleep(s, ticks, call).sys, ReadyOthers(s.ctxs, s.cur);
            && (if others != {} then IsFirstAfter(s.cur, s'.cur, others) else s'.cur == 0)
            && s'.umem == s.umem && Sleep(s, ticks, call).cpu == s.ctxs[s'.cur].regs && s'.cur != s.cur
            && (forall i | 0 <= i <= LAST && i != s.cur ::
                  s'.ctxs[i] == s.ctxs[i].(state := if i == s'.cur then RUNNING else s.ctxs[i].state))
            && var c, c' := s.ctxs[s.cur], s'.ctxs[s.cur];
               && c'.state == WAITING && c'.ticks_to_sleep == ticks && c'.sighandlers == c.sighandlers
               && c'.ticks_to_alarm == c.ticks_to_alarm && c'.alarm_config_time == c.alarm_config_time
               && c'.regs == c.regs.(rbp := call.rbp, rip := call.rip, rflags := call.rflags, rsp := call.rsp,
                                     cs := 0x23, ss := 0x2b)
  {
    hide FirstReady, PickNext;
    var ctxs := Slept(s, ticks, call);
    assert ReadyOthers(ctxs, s.cur) == ReadyOthers(s.ctxs, s.cur);
    PickNextMeans(ctxs, s.cur, SLEEPING);
  }

  // ----- the other calls, and faults

  /** The new context, and nothing else: ready, without sleep or alarm, with the
      handlers and general registers of context 1, at its function on its stack. */
  lemma CloneMeans(s: Sys, slot: nat, func: U64, stack: U64, rflags: U64, user: Regs)
    requires Inv(s) && 1 <= slot <= 15 && s.ctxs[slot].state == UNUSED
    ensures Enabled(s, DoClone(slot, func, stack, rflags, user))
    ensures var o := Step(s, DoClone(slot, func, stack, rflags, user));
            && o.Resume? && o.cpu == user && o.sys.cur == s.cur && o.sys.umem == s.umem
            && (forall i | 0 <= i <= LAST && i != slot :: o.sys.ctxs[i] == s.ctxs[i])
            && var c, init := o.sys.ctxs[slot], s.ctxs[1];
               && c.state == READY && c.ticks_to_sleep == c.ticks_to_alarm == c.alarm_config_time == 0
               && c.sighandlers == init.sighandlers
               && c.regs == init.regs.(rip := func, rsp := stack, rbp := stack, rflags := rflags, cs := 0x23, ss := 0x2b)
  {
  }

  /** One handler of the current context, and nothing else. */
  lemma SignalMeans(s: Sys, signo: nat, handler: U64, user: Regs)
    requires Inv(s) && signo <= 2
    ensures Enabled(s, DoSignal(signo, handler, user))
    ensures var o := Step(s, DoSignal(signo, handler, user));
            && o.Resume? && o.cpu == user && o.sys.cur == s.cur && o.sys.umem == s.umem
            && (forall i | 0 <= i <= LAST && i != s.cur :: o.sys.ctxs[i] == s.ctxs[i])
            && o.sys.ctxs[s.cur] == s.ctxs[s.cur].(sighandlers := o.sys.ctxs[s.cur].sighandlers)
            && forall k | 0 <= k < MAX_SIGNALS ::
                 o.sys.ctxs[s.cur].sighandlers[k] == if k == signo then handler else s.ctxs[s.cur].sighandlers[k]
  {
  }

  /** The alarm of the current context, and nothing else. */
  lemma AlarmMeans(s: Sys, ticks: U32, user: Regs)
    requires Inv(s)
    ensures Enabled(s, DoAlarm(ticks, user))
    ensures var o := Step(s, DoAlarm(ticks, user));
            && o.Resume? && o.cpu == user && o.sys.cur == s.cur && o.sys.umem == s.umem
            && forall i | 0 <= i <= LAST ::
                 o.sys.ctxs[i] == if i == s.cur then s.ctxs[i].(ticks_to_alarm := ticks, alarm_config_time := ticks)
                                  else s.ctxs[i]
  {
  }

  /** A fault enters its handler like an alarm does; without one the context ends. */
  lemma FaultMeans(s: Sys, signo: nat, user: Regs)
    requires Inv(s) && s.cur != 0 && signo <= 1
    ensures Enabled(s, DoFault(signo, user))
    ensures var handler, o := s.ctxs[s.cur].sighandlers[signo], Step(s, DoFault(signo, user));
            if handler == 0 then o == Step(s, DoExit)
            else
              && o.Resume? && o.cpu == user.(rip := handler, rsp := Pushed(user.rsp))
              && o.sys.umem == s.umem[Pushed(user.rsp) := user.rip]
              && o.sys.ctxs == s.ctxs && o.sys.cur == s.cur
  {
  }
}
