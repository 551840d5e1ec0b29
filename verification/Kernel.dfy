/** The scheduler as the source keeps it: an array of contexts whose fields are
    updated one by one, and the current context. */
module Kernel {
  import opened Basics
  import opened Scheduler
  import opened SchedulerRuns

  /** The six words at the frame pointer of the interrupt handler. */
  datatype Frame = Frame(rbp: U64, rip: U64, cs: U64, rflags: U64, rsp: U64, ss: U64)

  class ContextList {
    const ctxs: array<Context>
    var cur: nat
    var umem: map<nat, U64>
    var numticks: nat

    constructor (ctxs: array<Context>, cur: nat)
      requires ctxs.Length == MAX_PROCESSES && cur <= LAST
      ensures Valid() && this.ctxs == ctxs && this.cur == cur && umem == map[]
    {
      this.ctxs, this.cur, this.umem, this.numticks := ctxs, cur, map[], 0;
    }

    ghost predicate Valid()
      reads this
    {
      ctxs.Length == MAX_PROCESSES && cur <= LAST
    }

    ghost function Sys(): Scheduler.Sys
      requires Valid()
      reads this, ctxs
    {
      Scheduler.Sys(ctxs[..], cur, umem)
    }

    /** The outcome of a step: `None` stands for `do_cleanup`, which does not return. */
    ghost predicate Did(outcome: Outcome, cpu: Option<Regs>)
      reads this, ctxs
    {
      && Valid()
      && match outcome
         case Shutdown => cpu == None
         case Resume(sys, regs) => cpu == Some(regs) && Sys() == sys
    }

    /** One of the two scanning loops of `pick_next_context`. */
    method Scan(lo: nat, hi: nat) returns (ready: Option<nat>, is_wait: bool)
      requires Valid() && hi <= 16
      ensures ready.Some? ==> lo <= ready.value < hi && ctxs[ready.value].state == READY
      ensures forall j | lo <= j < hi && (ready.Some? ==> j < ready.value) :: ctxs[j].state != READY
      ensures ready.None? ==> (is_wait <==> exists j | lo <= j < hi :: ctxs[j].state == WAITING)
    {
      is_wait := false;
      var i := lo;
      while i < hi
        invariant lo <= i && (i <= hi || hi < lo)
        invariant forall j | lo <= j < i && j < hi :: ctxs[j].state != READY
        invariant is_wait <==> exists j | lo <= j < i && j < hi :: ctxs[j].state == WAITING
      {
        if ctxs[i].state == READY {
          return Some(i), is_wait;
        }
        if ctxs[i].state == WAITING {
          is_wait := true;
        }
        i := i + 1;
      }
      return None, is_wait;
    }

    /** `pick_next_context`: the contexts after the current one are scanned, then
        those before it. */
    method PickNextContext(reason: Reason) returns (next: Option<nat>)
      requires Valid()
      ensures next == PickNext(ctxs[..], cur, reason)
    {
      hide PickNext, FirstReady;
      var ready, waits := Scan(cur + 1, 16);
      if ready.Some? {
        PickedAfter(ctxs[..], cur, ready.value, reason);
        return ready;
      }
      var ready', waits' := Scan(1, cur);
      if ready'.Some? {
        PickedBefore(ctxs[..], cur, ready'.value, reason);
        return ready';
      }
      var is_wait := waits || waits';
      NonePicked(ctxs[..], cur, reason, is_wait);
      if reason == TIMER {
        if cur != 0 {
          return Some(cur);
        }
        if !is_wait {
          return None;
        }
        return Some(0);
      } else if reason == SLEEPING {
        return Some(0);
      } else {
        if !is_wait {
          return None;
        }
        return Some(0);
      }
    }

    static lemma FirstReadyIs(c: Contexts, cur: nat, r: nat)
      requires cur <= LAST && 1 <= r <= ScanLength(cur) + 1
      requires forall k :: 1 <= k < r ==> !IsReady(c, Scheduler.Scanned(cur, k))
      requires r <= ScanLength(cur) ==> IsReady(c, Scheduler.Scanned(cur, r))
      ensures FirstReady(c, cur) == r
    {
    }

    static lemma PickedAfter(c: Contexts, cur: nat, i: nat, reason: Reason)
      requires cur < i <= LAST && c[i].state == READY
      requires forall j | cur < j < i :: c[j].state != READY
      ensures PickNext(c, cur, reason) == Some(i)
    {
      FirstReadyIs(c, cur, i - cur);
    }

    static lemma PickedBefore(c: Contexts, cur: nat, i: nat, reason: Reason)
      requires 1 <= i < cur <= LAST && c[i].state == READY
      requires forall j | cur < j <= LAST :: c[j].state != READY
      requires forall j | 1 <= j < i :: c[j].state != READY
      ensures PickNext(c, cur, reason) == Some(i)
    {
      FirstReadyIs(c, cur, LAST - cur + i);
    }

    static lemma NonePicked(c: Contexts, cur: nat, reason: Reason, is_wait: bool)
      requires cur <= LAST
      requires forall j | cur < j <= LAST || 1 <= j < cur :: c[j].state != READY
      requires is_wait <==> (exists j | cur < j <= LAST :: c[j].state == WAITING) || (exists j | 1 <= j < cur :: c[j].state == WAITING)
      ensures PickNext(c, cur, reason) ==
              if reason == TIMER && cur != 0 then Some(cur)
              else if reason == SLEEPING || is_wait then Some(0)
              else None
    {
      FirstReadyIs(c, cur, ScanLength(cur) + 1);
      assert is_wait <==> SomeWaits(c, cur);
    }

    // ----- the timer tick

    /** The fourteen pushes at the start of the handler; the last word pushed is
        at the saved stack pointer, so it comes first. */
    static method PushRegisters(user: Regs) returns (stack: seq<U64>)
      ensures stack == Pushed(user)
    {
      stack := [];
      stack := [user.r8] + stack;
      stack := [user.r9] + stack;
      stack := [user.r10] + stack;
      stack := [user.r11] + stack;
      stack := [user.r12] + stack;
      stack := [user.r13] + stack;
      stack := [user.r14] + stack;
      stack := [user.r15] + stack;
      stack := [user.rax] + stack;
      stack := [user.rbx] + stack;
      stack := [user.rcx] + stack;
      stack := [user.rdx] + stack;
      stack := [user.rdi] + stack;
      stack := [user.rsi] + stack;
    }

    /** The saved copy: the general registers from the stack by their offsets, in
        words, and the rest from the frame. */
    static function FromStack(stack: seq<U64>, f: Frame): Regs
      requires |stack| == 14
    {
      Regs(stack[6], stack[7], stack[8], stack[9], stack[10], stack[11], stack[12], stack[13],
           stack[1], stack[0], stack[2], stack[3], stack[4], stack[5],
           f.rbp, f.rip, f.cs, f.rflags, f.rsp, f.ss)
    }

    /** The saved copy holds every register that was pushed. */
    static lemma SavedIsPushed(user: Regs, f: Frame)
      ensures |Pushed(user)| == 14
      ensures FromStack(Pushed(user), f)
              == user.(rbp := f.rbp, rip := f.rip, cs := f.cs, rflags := f.rflags, rsp := f.rsp, ss := f.ss)
    {
    }

    static function Pushed(user: Regs): seq<U64> {
      [user.rsi, user.rdi, user.rdx, user.rcx, user.rbx, user.rax, user.r15,
       user.r14, user.r13, user.r12, user.r11, user.r10, user.r9, user.r8]
    }

    static function FrameOf(user: Regs): Frame {
      Frame(user.rbp, user.rip, user.cs, user.rflags, user.rsp, user.ss)
    }

    /** `invoke_sync_signal` when it does not end the context: the handler's address
        goes into the frame and the interrupted one onto the user stack. */
    method InvokeSyncSignal(signo: nat, ustackp: U64, urip: U64) returns (ustackp': U64, urip': U64)
      requires Valid() && signo < MAX_SIGNALS
      modifies this`umem
      ensures forall user: Regs | user.rsp == ustackp && user.rip == urip ::
                (user.(rsp := ustackp', rip := urip'), umem) == Delivered(ctxs[cur], signo, user, old(umem))
    {
      ustackp', urip' := ustackp, urip;
      if ctxs[cur].sighandlers[signo] != 0 {
        ustackp' := (ustackp + TWO_TO_64 - 8) % TWO_TO_64;
        umem := umem[ustackp' := urip];
        urip' := ctxs[cur].sighandlers[signo];
      }
    }

    /** The alarm of context 1, which is delivered to the current context. */
    method CountAlarm(ustackp: U64, urip: U64) returns (ustackp': U64, urip': U64)
      requires Valid()
      modifies ctxs, this`umem
      ensures ctxs[..] == old(ctxs[..])[1 := AlarmCounted(old(ctxs[1]))]
      ensures forall user: Regs | user.rsp == ustackp && user.rip == urip ::
                (user.(rsp := ustackp', rip := urip'), umem) == SignalledAtTick(old(Sys()), user)
    {
      ustackp', urip' := ustackp, urip;
      if ctxs[1].ticks_to_alarm >= 1 {
        ctxs[1] := ctxs[1].(ticks_to_alarm := ctxs[1].ticks_to_alarm - 1);
        if ctxs[1].ticks_to_alarm == 0 {
          ctxs[1] := ctxs[1].(ticks_to_alarm := ctxs[1].alarm_config_time);
          ustackp', urip' := InvokeSyncSignal(SIGALRM, ustackp, urip);
        }
      }
    }

    method CountSleeps()
      requires Valid()
      modifies ctxs
      ensures ctxs[..] == AllSleepCounted(old(ctxs[..]))
    {
      for i := 0 to 16
        invariant forall k :: 0 <= k < 16 ==> ctxs[k] == if k < i then SleepCounted(old(ctxs[k])) else old(ctxs[k])
      {
        if ctxs[i].ticks_to_sleep >= 1 {
          ctxs[i] := ctxs[i].(ticks_to_sleep := ctxs[i].ticks_to_sleep - 1);
          if ctxs[i].ticks_to_sleep == 0 {
            ctxs[i] := ctxs[i].(state := READY);
          }
        }
      }
    }

    /** `handle_timer_tick` up to the choice of the next context. */
    method CountTick(user: Regs) returns (frame: Frame)
      requires Valid()
      modifies this`umem, this`numticks, ctxs
      ensures ctxs[..] == Counted(old(ctxs[..]), cur) && numticks == old(numticks) + 1
      ensures frame == FrameOf(SignalledAtTick(old(Sys()), user).0) && umem == SignalledAtTick(old(Sys()), user).1
    {
      numticks := numticks + 1;
      frame := FrameOf(user);
      var ustackp, urip := CountAlarm(frame.rsp, frame.rip);
      frame := frame.(rip := urip, rsp := ustackp);
      assert user.(rsp := ustackp, rip := urip) == SignalledAtTick(old(Sys()), user).0;
      CountSleeps();
      ctxs[cur] := ctxs[cur].(state := READY);
    }

    /** `handle_timer_tick`. The result are the registers with which the processor
        goes on. */
    method HandleTimerTick(user: Regs) returns (cpu: Option<Regs>)
      requires Valid()
      modifies this, ctxs
      ensures Did(Tick(old(Sys()), user), cpu) && numticks == old(numticks) + 1
    {
      ghost var before := Sys();
      var stack := PushRegisters(user);
      var frame := CountTick(user);
      SavedIsPushed(user, frame);
      assert FromStack(stack, frame) == SignalledAtTick(before, user).0;
      var next := PickNextContext(TIMER);
      if next.None? {
        return None;
      }
      var new_ := next.value;
      ctxs[new_] := ctxs[new_].(state := RUNNING);
      if new_ != cur {
        ctxs[cur] := ctxs[cur].(regs := FromStack(stack, frame));
        cur := new_;
        return Some(ctxs[new_].regs);
      }
      return Some(FromStack(stack, frame));
    }

    // ----- the system calls

    /** `do_exit`. */
    method DoExit() returns (cpu: Option<Regs>)
      requires Valid()
      modifies this, ctxs
      ensures Did(Exit(old(Sys())), cpu)
    {
      ctxs[cur] := ctxs[cur].(state := UNUSED);
      var next := PickNextContext(DO_EXIT);
      if next.None? {
        return None;
      }
      ctxs[next.value] := ctxs[next.value].(state := RUNNING);
      cur := next.value;
      return Some(ctxs[cur].regs);
    }

    /** `do_sleep`; `call` holds the frame words of the system call. */
    method DoSleep(ticks: U32, call: Regs) returns (cpu: Option<Regs>)
      requires Valid()
      modifies this, ctxs
      ensures Did(Sleep(old(Sys()), ticks, call), cpu)
    {
      ghost var before := Sys();
      ctxs[cur] := ctxs[cur].(ticks_to_sleep := ticks);
      ctxs[cur] := ctxs[cur].(state := WAITING);
      var regs := ctxs[cur].regs;
      regs := regs.(rbp := call.rbp);
      regs := regs.(rip := call.rip);
      regs := regs.(rflags := call.rflags);
      regs := regs.(rsp := call.rsp);
      regs := regs.(cs := USER_CS);
      regs := regs.(ss := USER_SS);
      assert regs == SleepRegs(before.ctxs[cur].regs, call);
      ctxs[cur] := ctxs[cur].(regs := regs);
      assert ctxs[..] == Slept(before, ticks, call);
      var next := PickNextContext(SLEEPING);
      if next.None? {
        return None;
      }
      ctxs[next.value] := ctxs[next.value].(state := RUNNING);
      cur := next.value;
      return Some(ctxs[cur].regs);
    }

    /** `do_clone` into the slot that `get_new_ctx` found; `rflags` is the word at
        the top of context 1's kernel stack. */
    method DoClone(slot: nat, func: U64, stack: U64, rflags: U64)
      requires Valid() && 1 <= slot <= LAST
      modifies ctxs
      ensures Sys() == Clone(old(Sys()), slot, func, stack, rflags)
    {
      ghost var init := ctxs[1];
      ctxs[slot] := ctxs[slot].(state := READY);
      ctxs[slot] := ctxs[slot].(ticks_to_alarm := 0, ticks_to_sleep := 0);
      for i := 0 to MAX_SIGNALS
        invariant ctxs[slot] == ctxs[slot].(state := READY, ticks_to_alarm := 0, ticks_to_sleep := 0)
        invariant ctxs[slot].regs == old(ctxs[slot].regs)
        invariant forall k :: 0 <= k < i ==> ctxs[slot].sighandlers[k] == init.sighandlers[k]
        invariant slot == 1 ==> ctxs[slot].sighandlers == init.sighandlers
        invariant forall k :: 0 <= k < MAX_PROCESSES && k != slot ==> ctxs[k] == old(ctxs[k])
      {
        ctxs[slot] := SetHandler(ctxs[slot], i, ctxs[1].sighandlers[i]);
      }
      assert ctxs[slot].sighandlers == init.sighandlers;
      ctxs[slot] := ctxs[slot].(regs := ctxs[1].regs);
      var regs := ctxs[slot].regs;
      regs := regs.(cs := USER_CS, ss := USER_SS);
      regs := regs.(rip := func);
      regs := regs.(rsp := stack);
      regs := regs.(rbp := regs.rsp);
      ctxs[slot] := ctxs[slot].(alarm_config_time := 0);
      regs := regs.(rflags := rflags);
      ctxs[slot] := ctxs[slot].(regs := regs);
      assert ctxs[slot] == Cloned(init, func, stack, rflags);
    }

    /** `do_signal`. */
    method DoSignal(signo: nat, handler: U64)
      requires Valid() && signo < MAX_SIGNALS
      modifies ctxs
      ensures Sys() == Signal(old(Sys()), signo, handler)
    {
      ctxs[cur] := SetHandler(ctxs[cur], signo, handler);
    }

    /** `do_alarm`. */
    method DoAlarm(ticks: U32)
      requires Valid()
      modifies ctxs
      ensures Sys() == Alarm(old(Sys()), ticks)
    {
      ctxs[cur] := ctxs[cur].(ticks_to_alarm := ticks);
      ctxs[cur] := ctxs[cur].(alarm_config_time := ticks);
    }

    /** A fault: `invoke_sync_signal` ends a context that has no handler for it. */
    method HandleFault(signo: nat, user: Regs) returns (cpu: Option<Regs>)
      requires Valid() && signo < SIGALRM
      modifies this, ctxs
      ensures Did(Fault(old(Sys()), signo, user), cpu)
    {
      if ctxs[cur].sighandlers[signo] == 0 {
        cpu := DoExit();
        return;
      }
      ghost var before := Sys();
      var rsp, rip := InvokeSyncSignal(signo, user.rsp, user.rip);
      assert (user.(rsp := rsp, rip := rip), umem) == Delivered(before.ctxs[before.cur], signo, user, before.umem);
      return Some(user.(rsp := rsp, rip := rip));
    }

    /** One event of a run. */
    method Handle(e: Event) returns (cpu: Option<Regs>)
      requires Valid() && Enabled(Sys(), e)
      modifies this, ctxs
      ensures Did(Step(old(Sys()), e), cpu)
    {
      match e
      case DoTick(user) => cpu := HandleTimerTick(user);
      case DoSleep(ticks, user) => cpu := DoSleep(ticks, user);
      case DoExit => cpu := DoExit();
      case DoClone(slot, func, stack, rflags, user) => DoClone(slot, func, stack, rflags); cpu := Some(user);
      case DoSignal(signo, handler, user) => DoSignal(signo, handler); cpu := Some(user);
      case DoAlarm(alarm, user) => DoAlarm(alarm); cpu := Some(user);
      case DoFault(fault, user) => cpu := HandleFault(fault, user);
    }

    /** Executing the events of a run one after the other. */
    method Run(events: seq<Event>)
      requires Valid() && IsRun(Sys(), events)
      modifies this, ctxs
      ensures Valid() && Sys() == After(old(Sys()), events)
      decreases events
    {
      if events != [] {
        var cpu := Handle(events[0]);
        Run(events[1..]);
      }
    }
  }
}
