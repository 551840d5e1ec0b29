/** The round-robin scheduler as a step machine over 16 contexts: timer ticks,
    and the system calls that sleep, exit, clone, set an alarm or register a
    signal handler. The methods of `Kernel` are proved against these steps. */
module Scheduler {
  import opened Basics

  datatype State = UNUSED | NEW | READY | RUNNING | WAITING | EXITING

  /** The saved registers of a context: fourteen general ones and the six words
      `rbp`, `rip`, `cs`, `rflags`, `rsp` and `ss` of the interrupt frame. */
  datatype Regs = Regs(r15: U64, r14: U64, r13: U64, r12: U64, r11: U64, r10: U64, r9: U64, r8: U64,
                       rdi: U64, rsi: U64, rdx: U64, rcx: U64, rbx: U64, rax: U64,
                       rbp: U64, rip: U64, cs: U64, rflags: U64, rsp: U64, ss: U64)

  /** Signals: SIGSEGV, SIGFPE, SIGALRM. */
  const SIGALRM := 2
  const MAX_SIGNALS := 3

  type Handlers = h: seq<U64> | |h| == MAX_SIGNALS witness [0, 0, 0]

  datatype Context = Context(state: State, ticks_to_sleep: U32, ticks_to_alarm: U32, alarm_config_time: U32,
                             sighandlers: Handlers, regs: Regs)

  const MAX_PROCESSES := 16
  const LAST := 15

  type Contexts = c: seq<Context> | |c| == MAX_PROCESSES
    witness seq(MAX_PROCESSES, _ => Context(UNUSED, 0, 0, 0, [0, 0, 0],
                                            Regs(0, 0, 0, 0, 0, 0, 0, 0, 0, 0, 0, 0, 0, 0, 0, 0, 0, 0, 0, 0)))

  /** The contexts, the current one, and the words of user memory. */
  datatype Sys = Sys(ctxs: Contexts, cur: nat, umem: map<nat, U64>)

  /** A step either ends with `do_cleanup` or goes on with these processor registers. */
  datatype Outcome = Shutdown | Resume(sys: Sys, cpu: Regs)

  // ----- pick_next_context

  datatype Reason = TIMER | SLEEPING | DO_EXIT

  /** The number of contexts that the scan looks at. */
  function ScanLength(cur: nat): nat {
    if cur == 0 then 15 else 14
  }

  /** The `k`-th context that the scan looks at: after `cur` up to 15, then from 1. */
  function Scanned(cur: nat, k: nat): nat {
    if cur + k <= LAST then cur + k else cur + k - LAST
  }

  /** How far on the scan from `cur` finds context `i`. */
  function Dist(cur: nat, i: nat): int {
    if i > cur then i - cur else i + LAST - cur
  }

  predicate IsReady(ctxs: Contexts, i: nat) {
    1 <= i <= LAST && ctxs[i].state == READY
  }

  function FirstReady(ctxs: Contexts, cur: nat, k: nat := 1): (r: nat)
    requires cur <= LAST && 1 <= k <= ScanLength(cur) + 1
    ensures k <= r <= ScanLength(cur) + 1
    ensures forall j :: k <= j < r ==> !IsReady(ctxs, Scanned(cur, j))
    ensures r <= ScanLength(cur) ==> IsReady(ctxs, Scanned(cur, r))
    decreases ScanLength(cur) + 1 - k
  {
    if k > ScanLength(cur) || IsReady(ctxs, Scanned(cur, k)) then k else FirstReady(ctxs, cur, k + 1)
  }

  predicate SomeWaits(ctxs: Contexts, cur: nat) {
    exists i | 1 <= i <= LAST && i != cur :: ctxs[i].state == WAITING
  }

  /** None stands for `do_cleanup`. */
  function PickNext(ctxs: Contexts, cur: nat, reason: Reason): (r: Option<nat>)
    requires cur <= LAST
    ensures r.Some? ==> r.value <= LAST
    ensures reason == SLEEPING ==> r.Some?
  {
    var k := FirstReady(ctxs, cur);
    if k <= ScanLength(cur) then Some(Scanned(cur, k))
    else if reason == TIMER then
      if cur != 0 then Some(cur) else if SomeWaits(ctxs, cur) then Some(0) else None
    else if reason == SLEEPING then Some(0)
    else if SomeWaits(ctxs, cur) then Some(0) else None
  }

  // ----- invoke_sync_signal

  /** The user frame and memory after a handler was pushed onto the user stack. */
  function Delivered(c: Context, signo: nat, cpu: Regs, umem: map<nat, U64>): (Regs, map<nat, U64>)
    requires signo < MAX_SIGNALS
  {
    if c.sighandlers[signo] == 0 then (cpu, umem)
    else
      var rsp: U64 := (cpu.rsp + TWO_TO_64 - 8) % TWO_TO_64;
      (cpu.(rsp := rsp, rip := c.sighandlers[signo]), umem[rsp := cpu.rip])
  }

  // ----- handle_timer_tick

  predicate AlarmFires(ctxs: Contexts) {
    ctxs[1].ticks_to_alarm == 1
  }

  function AlarmCounted(c: Context): Context {
    if c.ticks_to_alarm == 0 then c
    else if c.ticks_to_alarm == 1 then c.(ticks_to_alarm := c.alarm_config_time)
    else c.(ticks_to_alarm := c.ticks_to_alarm - 1)
  }

  function SleepCounted(c: Context): Context {
    if c.ticks_to_sleep == 0 then c
    else if c.ticks_to_sleep == 1 then c.(ticks_to_sleep := 0, state := READY)
    else c.(ticks_to_sleep := c.ticks_to_sleep - 1)
  }

  function AllSleepCounted(ctxs: Contexts): Contexts {
    seq(MAX_PROCESSES, i requires 0 <= i < MAX_PROCESSES => SleepCounted(ctxs[i]))
  }

  function WithState(ctxs: Contexts, i: nat, state: State): Contexts
    requires i <= LAST
  {
    ctxs[i := ctxs[i].(state := state)]
  }

  function WithRegs(ctxs: Contexts, i: nat, regs: Regs): Contexts
    requires i <= LAST
  {
    ctxs[i := ctxs[i].(regs := regs)]
  }

  /** The contexts when the tick has counted alarm and sleeps and the current
      context may be chosen again. */
  function Counted(ctxs: Contexts, cur: nat): Contexts
    requires cur <= LAST
  {
    WithState(AllSleepCounted(ctxs[1 := AlarmCounted(ctxs[1])]), cur, READY)
  }

  function SignalledAtTick(s: Sys, user: Regs): (Regs, map<nat, U64>)
    requires s.cur <= LAST
  {
    if AlarmFires(s.ctxs) then Delivered(s.ctxs[s.cur], SIGALRM, user, s.umem) else (user, s.umem)
  }

  function Tick(s: Sys, user: Regs): Outcome
    requires s.cur <= LAST
  {
    var (frame, umem) := SignalledAtTick(s, user);
    var ctxs := Counted(s.ctxs, s.cur);
    var next := PickNext(ctxs, s.cur, TIMER);
    if next.None? then Shutdown
    else
      var ctxs' := WithState(ctxs, next.value, RUNNING);
      if next.value == s.cur then Resume(Sys(ctxs', s.cur, umem), frame)
      else Resume(Sys(WithRegs(ctxs', s.cur, frame), next.value, umem), ctxs[next.value].regs)
  }

  // ----- do_exit, do_sleep, do_clone, do_signal, do_alarm

  function Exit(s: Sys): Outcome
    requires s.cur <= LAST
  {
    var ctxs := WithState(s.ctxs, s.cur, UNUSED);
    var next := PickNext(ctxs, s.cur, DO_EXIT);
    if next.None? then Shutdown
    else Resume(Sys(WithState(ctxs, next.value, RUNNING), next.value, s.umem), ctxs[next.value].regs)
  }

  const USER_CS: U64 := 0x23
  const USER_SS: U64 := 0x2b

  /** What `do_sleep` saves: the frame words of the system call. */
  function SleepRegs(saved: Regs, call: Regs): Regs {
    saved.(rbp := call.rbp, rip := call.rip, rflags := call.rflags, rsp := call.rsp, cs := USER_CS, ss := USER_SS)
  }

  function Slept(s: Sys, ticks: U32, call: Regs): Contexts
    requires s.cur <= LAST
  {
    var c := s.ctxs[s.cur];
    s.ctxs[s.cur := c.(ticks_to_sleep := ticks, state := WAITING, regs := SleepRegs(c.regs, call))]
  }

  function Sleep(s: Sys, ticks: U32, call: Regs): (r: Outcome)
    requires s.cur <= LAST
    ensures r.Resume?
  {
    var ctxs := Slept(s, ticks, call);
    var next := PickNext(ctxs, s.cur, SLEEPING);
    if next.None? then Shutdown
    else Resume(Sys(WithState(ctxs, next.value, RUNNING), next.value, s.umem), ctxs[next.value].regs)
  }

  function Cloned(init: Context, func: U64, stack: U64, rflags: U64): Context {
    Context(READY, 0, 0, 0, init.sighandlers,
            init.regs.(cs := USER_CS, ss := USER_SS, rip := func, rsp := stack, rbp := stack, rflags := rflags))
  }

  function Clone(s: Sys, slot: nat, func: U64, stack: U64, rflags: U64): Sys
    requires slot <= LAST
  {
    s.(ctxs := s.ctxs[slot := Cloned(s.ctxs[1], func, stack, rflags)])
  }

  function SetHandler(c: Context, signo: nat, handler: U64): Context
    requires signo < MAX_SIGNALS
  {
    c.(sighandlers := c.sighandlers[signo := handler])
  }

  function Signal(s: Sys, signo: nat, handler: U64): Sys
    requires s.cur <= LAST && signo < MAX_SIGNALS
  {
    s.(ctxs := s.ctxs[s.cur := SetHandler(s.ctxs[s.cur], signo, handler)])
  }

  function Alarm(s: Sys, ticks: U32): Sys
    requires s.cur <= LAST
  {
    s.(ctxs := s.ctxs[s.cur := s.ctxs[s.cur].(ticks_to_alarm := ticks, alarm_config_time := ticks)])
  }

  /** `invoke_sync_signal` for a fault: without a handler the context exits. */
  function Fault(s: Sys, signo: nat, user: Regs): Outcome
    requires s.cur <= LAST && signo < SIGALRM
  {
    if s.ctxs[s.cur].sighandlers[signo] == 0 then Exit(s)
    else
      var (frame, umem) := Delivered(s.ctxs[s.cur], signo, user, s.umem);
      Resume(s.(umem := umem), frame)
  }

  // ----- events

  /** What may happen next; `user` are the processor registers at that moment. */
  datatype Event =
    | DoTick(user: Regs)
    | DoSleep(ticks: U32, user: Regs)
    | DoExit
    | DoClone(slot: nat, func: U64, stack: U64, rflags: U64, user: Regs)
    | DoSignal(signo: nat, handler: U64, user: Regs)
    | DoAlarm(alarm: U32, user: Regs)
    | DoFault(fault: nat, user: Regs)

  /** Sleeps are for at least one tick, the swapper neither sleeps nor ends, and
      a clone gets an unused slot. */
  predicate Enabled(s: Sys, e: Event) {
    && s.cur <= LAST
    && match e
       case DoTick(user) => true
       case DoSleep(ticks, user) => s.cur != 0 && ticks >= 1
       case DoExit => s.cur != 0
       case DoClone(slot, func, stack, rflags, user) => 1 <= slot <= LAST && s.ctxs[slot].state == UNUSED
       case DoSignal(signo, handler, user) => signo < MAX_SIGNALS
       case DoAlarm(alarm, user) => true
       case DoFault(fault, user) => s.cur != 0 && fault < SIGALRM
  }

  function Step(s: Sys, e: Event): Outcome
    requires Enabled(s, e)
  {
    match e
    case DoTick(user) => Tick(s, user)
    case DoSleep(ticks, user) => Sleep(s, ticks, user)
    case DoExit => Exit(s)
    case DoClone(slot, func, stack, rflags, user) => Resume(Clone(s, slot, func, stack, rflags), user)
    case DoSignal(signo, handler, user) => Resume(Signal(s, signo, handler), user)
    case DoAlarm(alarm, user) => Resume(Alarm(s, alarm), user)
    case DoFault(fault, user) => Fault(s, fault, user)
  }

  // ----- the invariant

  /** Exactly the current context is running, a context waits exactly while it has
      ticks left to sleep, and the swapper is always ready or running. */
  ghost predicate Inv(s: Sys) {
    && s.cur <= LAST
    && (forall i :: 0 <= i <= LAST ==> (s.ctxs[i].state == RUNNING <==> i == s.cur))
    && (forall i :: 0 <= i <= LAST ==> (s.ctxs[i].state == WAITING <==> s.ctxs[i].ticks_to_sleep >= 1))
    && (s.ctxs[0].state == READY || s.ctxs[0].state == RUNNING)
  }

  /** Context `i` at the start: the swapper is ready and context 1 runs. */
  function BootContext(i: nat, swapper: Regs, init: Regs, unused: Regs): Context {
    if i == 0 then Context(READY, 0, 0, 0, [0, 0, 0], swapper)
    else if i == 1 then Context(RUNNING, 0, 0, 0, [0, 0, 0], init)
    else Context(UNUSED, 0, 0, 0, [0, 0, 0], unused)
  }

  function Boot(swapper: Regs, init: Regs, unused: Regs): Sys {
    var ctxs: Contexts := seq(MAX_PROCESSES, i requires 0 <= i < MAX_PROCESSES => BootContext(i, swapper, init, unused));
    Sys(ctxs, 1, map[])
  }

  lemma BootIsValid(swapper: Regs, init: Regs, unused: Regs)
    ensures Inv(Boot(swapper, init, unused))
  {
  }

  lemma PickedIsReadyOrCurrent(ctxs: Contexts, cur: nat, reason: Reason)
    requires cur <= LAST && PickNext(ctxs, cur, reason).Some?
    ensures var n := PickNext(ctxs, cur, reason).value;
            IsReady(ctxs, n) || n == 0 || (n == cur && reason == TIMER)
  {
  }

  /** While the scheduler chooses no context is running. */
  ghost predicate AllStopped(ctxs: Contexts) {
    && (forall i :: 0 <= i <= LAST ==> ctxs[i].state != RUNNING)
    && (forall i :: 0 <= i <= LAST ==> (ctxs[i].state == WAITING <==> ctxs[i].ticks_to_sleep >= 1))
    && ctxs[0].state == READY
  }

  lemma RunningTheChosen(ctxs: Contexts, cur: nat, reason: Reason, umem: map<nat, U64>)
    requires cur <= LAST && AllStopped(ctxs) && PickNext(ctxs, cur, reason).Some?
    requires reason == TIMER ==> ctxs[cur].state == READY
    ensures var n := PickNext(ctxs, cur, reason).value;
            Inv(Sys(WithState(ctxs, n, RUNNING), n, umem))
  {
    PickedIsReadyOrCurrent(ctxs, cur, reason);
  }

  lemma TickKeepsInv(s: Sys, user: Regs)
    requires Inv(s)
    ensures AllStopped(Counted(s.ctxs, s.cur))
    ensures Tick(s, user).Resume? ==> Inv(Tick(s, user).sys)
  {
    hide PickNext, SignalledAtTick;
    var ctxs := Counted(s.ctxs, s.cur);
    assert AllStopped(ctxs);
    if PickNext(ctxs, s.cur, TIMER).Some? {
      RunningTheChosen(ctxs, s.cur, TIMER, SignalledAtTick(s, user).1);
    }
  }

  lemma ExitKeepsInv(s: Sys)
    requires Inv(s) && s.cur != 0
    ensures AllStopped(WithState(s.ctxs, s.cur, UNUSED))
    ensures Exit(s).Resume? ==> Inv(Exit(s).sys)
  {
    var ctxs := WithState(s.ctxs, s.cur, UNUSED);
    assert AllStopped(ctxs);
    if PickNext(ctxs, s.cur, DO_EXIT).Some? {
      RunningTheChosen(ctxs, s.cur, DO_EXIT, s.umem);
    }
  }

  lemma SleepKeepsInv(s: Sys, ticks: U32, call: Regs)
    requires Inv(s) && s.cur != 0 && ticks >= 1
    ensures AllStopped(Slept(s, ticks, call))
    ensures Inv(Sleep(s, ticks, call).sys)
  {
    assert AllStopped(Slept(s, ticks, call));
    RunningTheChosen(Slept(s, ticks, call), s.cur, SLEEPING, s.umem);
  }

  /** Every step that does not shut the system down keeps the invariant. */
  lemma StepKeepsInv(s: Sys, e: Event)
    requires Inv(s) && Enabled(s, e)
    ensures Step(s, e).Resume? ==> Inv(Step(s, e).sys)
  {
    match e
    case DoTick(user) => TickKeepsInv(s, user);
    case DoSleep(ticks, user) => SleepKeepsInv(s, ticks, user);
    case DoExit => ExitKeepsInv(s);
    case DoFault(fault, user) => ExitKeepsInv(s);
    case _ =>
  }

  // ----- when the system shuts down

  /** No other user context is ready or waiting. */
  ghost predicate NothingElse(s: Sys) {
    forall i :: 1 <= i <= LAST && i != s.cur ==> s.ctxs[i].state != READY && s.ctxs[i].state != WAITING
  }

  ghost predicate Ends(s: Sys, e: Event)
    requires s.cur <= LAST
  {
    e.DoExit? || (e.DoFault? && e.fault < MAX_SIGNALS && s.ctxs[s.cur].sighandlers[e.fault] == 0)
  }

  lemma ScanReachesAll(cur: nat, i: nat)
    requires cur <= LAST && 1 <= i <= LAST && i != cur
    ensures 1 <= Dist(cur, i) <= ScanLength(cur) && Scanned(cur, Dist(cur, i)) == i
  {
  }

  lemma NonePickedIff(ctxs: Contexts, cur: nat, reason: Reason)
    requires cur <= LAST
    ensures PickNext(ctxs, cur, reason).None? <==>
            && (forall i :: 1 <= i <= LAST && i != cur ==> ctxs[i].state != READY && ctxs[i].state != WAITING)
            && (reason == DO_EXIT || (reason == TIMER && cur == 0))
  {
    var k := FirstReady(ctxs, cur);
    forall i | 1 <= i <= LAST && i != cur && ctxs[i].state == READY
      ensures k <= ScanLength(cur)
    {
      ScanReachesAll(cur, i);
      assert IsReady(ctxs, Scanned(cur, Dist(cur, i)));
    }
    if k <= ScanLength(cur) {
      var i := Scanned(cur, k);
      assert 1 <= i <= LAST && i != cur && ctxs[i].state == READY;
    }
  }

  lemma ExitShutsDownIff(s: Sys)
    requires s.cur <= LAST
    ensures Exit(s).Shutdown? <==> NothingElse(s)
  {
    var ctxs := WithState(s.ctxs, s.cur, UNUSED);
    NonePickedIff(ctxs, s.cur, DO_EXIT);
    assert forall i :: 1 <= i <= LAST && i != s.cur ==> ctxs[i] == s.ctxs[i];
  }

  /** The system shuts down exactly when no other context in 1..15 is ready or
      waiting and the swapper is interrupted or the current context ends. */
  lemma ShutdownIff(s: Sys, e: Event)
    requires Inv(s) && Enabled(s, e)
    ensures Step(s, e).Shutdown? <==> NothingElse(s) && ((e.DoTick? && s.cur == 0) || Ends(s, e))
  {
    match e
    case DoTick(user) =>
      NonePickedIff(Counted(s.ctxs, s.cur), s.cur, TIMER);
      CountingKeepsIdle(s);
    case DoSleep(ticks, user) =>
      NonePickedIff(Slept(s, ticks, user), s.cur, SLEEPING);
    case DoExit => ExitShutsDownIff(s);
    case DoFault(fault, user) => ExitShutsDownIff(s);
    case _ =>
  }

  /** Counting a tick makes a waiting context ready at most. */
  lemma CountingKeepsIdle(s: Sys)
    requires Inv(s)
    ensures forall i :: 1 <= i <= LAST && i != s.cur ==>
              var c, c' := s.ctxs[i], Counted(s.ctxs, s.cur)[i];
              (c.state == READY || c.state == WAITING) <==> (c'.state == READY || c'.state == WAITING)
  {
  }
}
