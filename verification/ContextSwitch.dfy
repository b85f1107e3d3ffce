/** Interrupt-level accounting across spinlocks, interrupts and context switches, as
    processors interleave.

    Source: kern/thread/spl.c, kern/thread/spinlock.c, kern/thread/thread.c
    (thread_create, thread_fork, thread_switch, thread_startup, thread_exit,
    thread_make_runnable, exorcise, thread_consider_migration), the interrupt case of
    kern/arch/mips/locore/trap.c and cpu_idle of kern/arch/mips/thread/cpu.c. */
module ContextSwitch {

  // ------------------------------------------------------- spl.c and spinlock.c

  /** What the spl and spinlock code reads and writes: t_curspl and t_iplhigh_count of
      the current thread, c_spinlocks of its processor, and the interrupt enable. */
  datatype View = View(high: bool, count: int, spinlocks: int, irq: bool)

  function SplRaise(v: View): View {
    v.(irq := if v.count == 0 then false else v.irq, count := v.count + 1)
  }

  function SplLower(v: View): View {
    v.(count := v.count - 1, irq := if v.count - 1 == 0 then true else v.irq)
  }

  /** splx; the old level is v.high. */
  function Splx(v: View, high: bool): View {
    if !v.high && high then SplRaise(v).(high := true)
    else if v.high && !high then SplLower(v.(high := false))
    else v
  }

  function SpinAcquire(v: View): View {
    var r := SplRaise(v);
    r.(spinlocks := r.spinlocks + 1)
  }

  function SpinRelease(v: View): View { SplLower(v.(spinlocks := v.spinlocks - 1)) }

  /** The count is the number of reasons to keep interrupts off, and they are off
      exactly when there is one. */
  predicate Accounted(v: View) {
    && v.spinlocks >= 0 && v.count == v.spinlocks + (if v.high then 1 else 0)
    && (v.irq <==> v.count == 0)
  }

  lemma PrimitivesKeepAccount(v: View, high: bool)
    requires Accounted(v)
    ensures Accounted(Splx(v, high)) && Splx(v, high).high == high && Splx(v, high).spinlocks == v.spinlocks
    ensures Accounted(SpinAcquire(v)) && SpinAcquire(v).spinlocks == v.spinlocks + 1
    ensures v.spinlocks > 0 ==> Accounted(SpinRelease(v))
    ensures Splx(Splx(v, true), v.high) == v && SpinRelease(SpinAcquire(v)) == v
  {
    RaiseLower(v);
    LevelKept(v, high);
  }

  /** One more reason and one less give the view back. */
  lemma RaiseLower(v: View)
    requires Accounted(v)
    ensures SplLower(SplRaise(v)) == v && SplRaise(v).count > 0 && !SplRaise(v).irq
  {
  }

  lemma LevelKept(v: View, high: bool)
    requires Accounted(v)
    ensures Accounted(Splx(v, high)) && Splx(v, high).high == high && Splx(v, high).spinlocks == v.spinlocks
  {
  }

  /** Spinlocks and spl calls need not nest: the order of release does not matter. */
  lemma ReleasesCommute(v: View, high: bool)
    requires Accounted(v) && v.spinlocks > 0
    ensures Splx(SpinRelease(v), high) == SpinRelease(Splx(v, high))
  {
  }

  // ---------------------------------------------------------------- the whole system

  /** Where a thread is: running code, on a run queue, on a wait channel, or exited. */
  datatype Place = OnCpu | Queued(cpu: nat) | Waiting | Zombie

  /** `saved` is the spl that the thread's own thread_switch will restore, and `irqLow`
      says that an interrupt handler raised the level on its behalf. */
  datatype Thr = Thr(high: bool, count: int, saved: bool, irqLow: bool, cpu: nat, place: Place)

  /** Running ordinary code; between queueing the current thread and picking the next;
      in cpu_idle with interrupts off, on, or in a handler; and after the switch with
      the run queue still locked. */
  datatype Phase = Running | Choosing | IdleOff | IdleOn | IdleHandler | Resuming

  datatype Cpu = Cpu(cur: int, spinlocks: int, irq: bool, phase: Phase)

  datatype System = System(cpus: seq<Cpu>, thr: map<int, Thr>)

  function ViewOf(s: System, c: nat): View
    requires c < |s.cpus| && s.cpus[c].cur in s.thr
  {
    var t := s.thr[s.cpus[c].cur];
    View(t.high, t.count, s.cpus[c].spinlocks, s.cpus[c].irq)
  }

  /** Processor c's view becomes v, its phase p, and its current thread's place q. */
  function Put(s: System, c: nat, v: View, p: Phase, q: Place): System
    requires c < |s.cpus| && s.cpus[c].cur in s.thr
  {
    var cpu := s.cpus[c];
    System(s.cpus[c := cpu.(spinlocks := v.spinlocks, irq := v.irq, phase := p)],
           s.thr[cpu.cur := s.thr[cpu.cur].(high := v.high, count := v.count, place := q)])
  }

  datatype NewState = Ready | Sleep | Exit

  datatype Event =
    | Level(high: bool)              // splhigh, spl0 or splx
    | Acquire                        // spinlock_acquire, once it stops spinning
    | Release                        // spinlock_release
    | Leave(state: NewState)         // thread_switch up to the choice of a thread
    | Pick(next: int)                // a thread is on the run queue: switch to it
    | GoIdle                         // the run queue is empty
    | IdleEnable | IdleDisable       // cpu_irqonoff
    | IdleInterrupt | IdleReturn     // an interrupt during cpu_idle, and its end
    | Relock                         // back from cpu_idle
    | Resume                         // the rest of thread_switch, or thread_startup
    | Interrupt | InterruptReturn    // an interrupt while running, and its end
    | Fork(child: int)               // thread_create and thread_fork
    | Wake(t: int)                   // thread_make_runnable of a sleeping thread
    | Migrate(t: int, to: nat)       // one move of thread_consider_migration
    | Exorcise(t: int)               // thread_destroy of a zombie

  datatype Next = Disabled | Stepped(sys: System)

  predicate Basic(s: System, c: nat) { c < |s.cpus| && s.cpus[c].cur in s.thr }

  /** What thread_switch does before it chooses: raise the level, take the run queue
      lock, and when sleeping let go of the wait channel's lock. */
  function LeaveView(v: View, st: NewState): View {
    var w := SpinAcquire(Splx(v, true));
    if st == Sleep then SpinRelease(w) else w
  }

  /** The spinlocks a caller of thread_switch may hold: the wait channel's when going to
      sleep, which wchan_sleep asserts, and none otherwise. */
  function LocksAllowed(st: NewState): nat { if st == Sleep then 1 else 0 }

  function LeavePlace(st: NewState, c: nat): Place {
    match st case Ready => Queued(c) case Sleep => Waiting case Exit => Zombie
  }

  predicate NoneQueued(s: System, c: nat) { forall t :: t in s.thr ==> s.thr[t].place != Queued(c) }

  /** A yield that finds the run queue empty: lock, look, unlock. */
  function IdleYieldView(v: View): View { Splx(SpinRelease(SpinAcquire(Splx(v, true))), v.high) }

  /** thread_switch up to the choice of a thread, whatever spinlocks its caller holds. */
  function Away(s: System, c: nat, st: NewState): System
    requires Basic(s, c)
  {
    var cur, v := s.cpus[c].cur, ViewOf(s, c);
    var s1 := Put(s, c, LeaveView(v, st), Choosing, LeavePlace(st, c));
    s1.(thr := s1.thr[cur := s1.thr[cur].(saved := v.high)])
  }

  /** The choice: the processor's spinlocks and interrupt enable stay, the level and the
      count are now those of the thread chosen. */
  function SwitchTo(s: System, c: nat, next: int): System
    requires c < |s.cpus| && next in s.thr
  {
    System(s.cpus[c := s.cpus[c].(cur := next, phase := Resuming)], s.thr[next := s.thr[next].(place := OnCpu)])
  }

  /** One atomic step of processor c. */
  function Step(s: System, c: nat, ev: Event): Next
    requires Basic(s, c)
  {
    var cpu := s.cpus[c];
    var v := ViewOf(s, c);
    var me := s.thr[cpu.cur];
    var working := cpu.phase == Running || cpu.phase == IdleHandler;
    match ev
    case Level(high) =>
      if working && (high || (cpu.phase == Running && !me.irqLow))
      then Stepped(Put(s, c, Splx(v, high), cpu.phase, me.place)) else Disabled
    case Acquire =>
      if working then Stepped(Put(s, c, SpinAcquire(v), cpu.phase, me.place)) else Disabled
    case Release =>
      if working && v.spinlocks > 0 then Stepped(Put(s, c, SpinRelease(v), cpu.phase, me.place)) else Disabled
    case Leave(st) =>
      if cpu.phase == Running && v.spinlocks == LocksAllowed(st) && (st == Ready || !me.irqLow) then
        if st == Ready && NoneQueued(s, c) then Stepped(Put(s, c, IdleYieldView(v), Running, me.place))
        else Stepped(Away(s, c, st))
      else Disabled
    case Pick(next) =>
      if cpu.phase == Choosing && next in s.thr && s.thr[next].place == Queued(c)
      then Stepped(SwitchTo(s, c, next)) else Disabled
    case GoIdle =>
      if cpu.phase == Choosing && NoneQueued(s, c)
      then Stepped(Put(s, c, SpinRelease(v), IdleOff, me.place)) else Disabled
    case IdleEnable =>
      if cpu.phase == IdleOff then Stepped(Put(s, c, v.(irq := true), IdleOn, me.place)) else Disabled
    case IdleInterrupt =>
      if cpu.phase == IdleOn then Stepped(Put(s, c, v.(irq := false), IdleHandler, me.place)) else Disabled
    case IdleReturn =>
      if cpu.phase == IdleHandler && v.spinlocks == 0
      then Stepped(Put(s, c, v.(irq := true), IdleOn, me.place)) else Disabled
    case IdleDisable =>
      if cpu.phase == IdleOn then Stepped(Put(s, c, v.(irq := false), IdleOff, me.place)) else Disabled
    case Relock =>
      if cpu.phase == IdleOff then Stepped(Put(s, c, SpinAcquire(v), Choosing, me.place)) else Disabled
    case Resume =>
      if cpu.phase == Resuming then Stepped(Put(s, c, Splx(SpinRelease(v), me.saved), Running, OnCpu)) else Disabled
    case Interrupt =>
      if cpu.phase == Running && v.irq then
        var s1 := Put(s, c, View(true, v.count + 1, v.spinlocks, false), Running, me.place);
        Stepped(s1.(thr := s1.thr[cpu.cur := s1.thr[cpu.cur].(irqLow := true)]))
      else Disabled
    case InterruptReturn =>
      if cpu.phase == Running && me.irqLow && v.spinlocks == 0 then
        var s1 := Put(s, c, View(false, v.count - 1, v.spinlocks, true), Running, me.place);
        Stepped(s1.(thr := s1.thr[cpu.cur := s1.thr[cpu.cur].(irqLow := false)]))
      else Disabled
    case Fork(child) =>
      if cpu.phase == Running && child !in s.thr
      then Stepped(s.(thr := s.thr[child := Thr(true, 2, false, false, c, Queued(c))])) else Disabled
    case Wake(t) =>
      if working && t in s.thr && s.thr[t].place == Waiting
      then Stepped(s.(thr := s.thr[t := s.thr[t].(place := Queued(s.thr[t].cpu))])) else Disabled
    case Migrate(t, to) =>
      if working && t in s.thr && s.thr[t].place == Queued(c) && t != cpu.cur && to < |s.cpus|
      then Stepped(s.(thr := s.thr[t := s.thr[t].(place := Queued(to), cpu := to)])) else Disabled
    case Exorcise(t) =>
      if cpu.phase == Running && t in s.thr && s.thr[t].place == Zombie && s.thr[t].cpu == c && t != cpu.cur
      then Stepped(s.(thr := s.thr - {t})) else Disabled
  }

  // ------------------------------------------------------------------- the invariant

  ghost predicate Current(s: System, t: int) { exists c :: 0 <= c < |s.cpus| && s.cpus[c].cur == t }

  /** What holds of a processor and its current thread in each phase. */
  predicate PhaseOk(cpu: Cpu, t: Thr) {
    match cpu.phase
    case Running => t.place == OnCpu && (t.irqLow ==> t.high)
    case Choosing => t.high && cpu.spinlocks == 1 && t.place != OnCpu
    case IdleOff => t.high && cpu.spinlocks == 0 && t.place != OnCpu
    case IdleOn => t.high && cpu.spinlocks == 0 && t.place != OnCpu
    case IdleHandler => t.high && t.place != OnCpu
    case Resuming => t.high && cpu.spinlocks == 1 && t.place == OnCpu
  }

  /** The account of a current thread, with interrupts on in the idle instruction. */
  predicate AccountOk(cpu: Cpu, t: Thr) {
    && cpu.spinlocks >= 0 && t.count == cpu.spinlocks + (if t.high then 1 else 0)
    && (if cpu.phase == IdleOn then cpu.irq else (cpu.irq <==> t.count == 0))
  }

  predicate CpuOk(s: System, c: nat)
    requires c < |s.cpus|
  {
    var cpu := s.cpus[c];
    && cpu.cur in s.thr && s.thr[cpu.cur].cpu == c
    && PhaseOk(cpu, s.thr[cpu.cur]) && AccountOk(cpu, s.thr[cpu.cur])
    && (cpu.phase != Running && s.thr[cpu.cur].irqLow ==> s.thr[cpu.cur].saved)
  }

  /** A thread that is off every processor was switched away from, or is new: its
      level is high and two reasons are counted, the level and the run queue lock. */
  predicate Parked(t: Thr) { t.high && t.count == 2 && t.place != OnCpu && (t.irqLow ==> t.saved) }

  predicate QueueOk(s: System, t: Thr) { t.cpu < |s.cpus| && (t.place.Queued? ==> t.place.cpu == t.cpu) }

  ghost predicate Inv(s: System) {
    && (forall c :: 0 <= c < |s.cpus| ==> CpuOk(s, c))
    && (forall t :: t in s.thr ==> QueueOk(s, s.thr[t]))
    && (forall t :: t in s.thr && !Current(s, t) ==> Parked(s.thr[t]))
  }

  /** The current threads differ, since each names its own processor. */
  lemma CurrentsDiffer(s: System, c: nat, d: nat)
    requires Inv(s) && c < |s.cpus| && d < |s.cpus| && s.cpus[c].cur == s.cpus[d].cur
    ensures c == d
  {
    assert CpuOk(s, c) && CpuOk(s, d);
  }

  /** A step that changes one processor and its current thread only. */
  lemma LocalStep(s: System, c: nat, s': System, cpu: Cpu, t: Thr)
    requires Inv(s) && c < |s.cpus| && cpu.cur == s.cpus[c].cur && t.cpu == c
    requires s' == System(s.cpus[c := cpu], s.thr[cpu.cur := t])
    requires PhaseOk(cpu, t) && AccountOk(cpu, t) && QueueOk(s, t)
    requires cpu.phase != Running && t.irqLow ==> t.saved
    ensures Inv(s')
  {
    assert CpuOk(s, c);
    forall d | 0 <= d < |s'.cpus| ensures CpuOk(s', d) {
      assert CpuOk(s, d);
      if d != c && s.cpus[d].cur == cpu.cur { CurrentsDiffer(s, c, d); }
    }
    forall d | 0 <= d < |s.cpus| ensures Current(s', s.cpus[d].cur) { assert s'.cpus[d].cur == s.cpus[d].cur; }
    forall x | x in s'.thr && !Current(s', x) ensures Parked(s'.thr[x]) {
      assert Parked(s.thr[x]);
    }
    forall x | x in s'.thr ensures QueueOk(s', s'.thr[x]) {
      if x != cpu.cur { assert QueueOk(s, s.thr[x]); }
    }
  }

  /** A step that changes one parked thread only. */
  lemma ParkedStep(s: System, s': System, x: int, t: Thr)
    requires Inv(s) && s' == s.(thr := s.thr[x := t]) && !Current(s, x) && Parked(t) && QueueOk(s, t)
    ensures Inv(s')
  {
    forall d | 0 <= d < |s'.cpus| ensures CpuOk(s', d) {
      assert CpuOk(s, d);
      assert s.cpus[d].cur != x;
    }
    forall d | 0 <= d < |s.cpus| ensures Current(s', s.cpus[d].cur) { assert s'.cpus[d].cur == s.cpus[d].cur; }
    forall y | y in s'.thr && !Current(s', y) ensures Parked(s'.thr[y]) {
      if y != x {
        assert Parked(s.thr[y]);
      }
    }
    forall y | y in s'.thr ensures QueueOk(s', s'.thr[y]) {
      if y != x { assert QueueOk(s, s.thr[y]); }
    }
  }

  /** Processor c switches from its current thread to one on its run queue. */
  lemma PickStep(s: System, c: nat, next: int)
    requires Inv(s) && Basic(s, c) && Step(s, c, Pick(next)).Stepped?
    ensures Inv(Step(s, c, Pick(next)).sys)
  {
    var s' := Step(s, c, Pick(next)).sys;
    var cpu := s.cpus[c];
    assert CpuOk(s, c) && QueueOk(s, s.thr[next]);
    forall d | 0 <= d < |s.cpus| && s.cpus[d].cur == next ensures d == c { assert CpuOk(s, d); }
    if next != cpu.cur {
      assert !Current(s, next);
      assert Parked(s.thr[next]);
    }
    forall d | 0 <= d < |s'.cpus| ensures CpuOk(s', d) {
      assert CpuOk(s, d);
    }
    forall d | 0 <= d < |s.cpus| && d != c ensures Current(s', s.cpus[d].cur) {
      assert s'.cpus[d].cur == s.cpus[d].cur;
    }
    assert Current(s', next) by { assert s'.cpus[c].cur == next; }
    forall x | x in s'.thr && !Current(s', x) ensures Parked(s'.thr[x]) {
      if x != cpu.cur {
        assert Parked(s.thr[x]);
      }
    }
    forall x | x in s'.thr ensures QueueOk(s', s'.thr[x]) {
      assert QueueOk(s, s.thr[x]);
    }
  }

  /** The events that change one processor and its current thread only. */
  predicate Local(ev: Event) { !ev.Pick? && !ev.Fork? && !ev.Wake? && !ev.Migrate? && !ev.Exorcise? }

  /** What such an event does is local, and leaves the thread on the same processor. */
  lemma LocalShape(s: System, c: nat, ev: Event)
    requires Basic(s, c) && Step(s, c, ev).Stepped? && Local(ev)
    ensures var s', x := Step(s, c, ev).sys, s.cpus[c].cur;
            && c < |s'.cpus| && x in s'.thr && s'.cpus[c].cur == x && s'.thr[x].cpu == s.thr[x].cpu
            && s' == System(s.cpus[c := s'.cpus[c]], s.thr[x := s'.thr[x]])
  {
  }

  /** The account and the phase of processor c after a step of its own. */
  ghost predicate AccountAfter(s: System, c: nat, s': System)
    requires Basic(s, c)
  {
    var x := s.cpus[c].cur;
    && c < |s'.cpus| && x in s'.thr
    && PhaseOk(s'.cpus[c], s'.thr[x]) && AccountOk(s'.cpus[c], s'.thr[x])
    && (s'.cpus[c].phase != Running && s'.thr[x].irqLow ==> s'.thr[x].saved)
    && (s'.thr[x].place.Queued? ==> s'.thr[x].place == s.thr[x].place || s'.thr[x].place.cpu == c)
  }

  lemma LockAccount(s: System, c: nat, ev: Event)
    requires Basic(s, c) && CpuOk(s, c) && Step(s, c, ev).Stepped? && (ev.Level? || ev.Acquire? || ev.Release?)
    ensures AccountAfter(s, c, Step(s, c, ev).sys)
  {
  }

  lemma InterruptAccount(s: System, c: nat, ev: Event)
    requires Basic(s, c) && CpuOk(s, c) && Step(s, c, ev).Stepped? && (ev.Interrupt? || ev.InterruptReturn?)
    ensures AccountAfter(s, c, Step(s, c, ev).sys)
  {
  }

  lemma LeaveAccount(s: System, c: nat, st: NewState)
    requires Basic(s, c) && CpuOk(s, c) && Step(s, c, Leave(st)).Stepped?
    ensures AccountAfter(s, c, Step(s, c, Leave(st)).sys)
  {
    if st == Ready && NoneQueued(s, c) { EmptyYieldIsNothing(s, c); } else { AwayAccount(s, c, st); }
  }

  lemma AwayAccount(s: System, c: nat, st: NewState)
    requires Basic(s, c) && CpuOk(s, c) && Step(s, c, Leave(st)).Stepped? && !(st == Ready && NoneQueued(s, c))
    ensures AccountAfter(s, c, Step(s, c, Leave(st)).sys)
  {
  }

  lemma YieldChangesNothing(v: View)
    requires Accounted(v)
    ensures IdleYieldView(v) == v
  {
    PrimitivesKeepAccount(v, true);
  }

  lemma SwitchAccount(s: System, c: nat, ev: Event)
    requires Basic(s, c) && CpuOk(s, c) && Step(s, c, ev).Stepped? && (ev.GoIdle? || ev.Relock? || ev.Resume?)
    ensures AccountAfter(s, c, Step(s, c, ev).sys)
  {
  }

  lemma IdleAccount(s: System, c: nat, ev: Event)
    requires Basic(s, c) && CpuOk(s, c) && Step(s, c, ev).Stepped?
    requires ev.IdleEnable? || ev.IdleDisable? || ev.IdleInterrupt? || ev.IdleReturn?
    ensures AccountAfter(s, c, Step(s, c, ev).sys)
  {
  }

  lemma LocalAccount(s: System, c: nat, ev: Event)
    requires Basic(s, c) && CpuOk(s, c) && Step(s, c, ev).Stepped? && Local(ev)
    ensures AccountAfter(s, c, Step(s, c, ev).sys)
  {
    match ev
    case Leave(st) => LeaveAccount(s, c, st);
    case GoIdle => SwitchAccount(s, c, ev);
    case Relock => SwitchAccount(s, c, ev);
    case Resume => SwitchAccount(s, c, ev);
    case Interrupt => InterruptAccount(s, c, ev);
    case InterruptReturn => InterruptAccount(s, c, ev);
    case Level(_) => LockAccount(s, c, ev);
    case Acquire => LockAccount(s, c, ev);
    case Release => LockAccount(s, c, ev);
    case _ => IdleAccount(s, c, ev);
  }

  lemma LocalEventKeeps(s: System, c: nat, ev: Event)
    requires Inv(s) && Basic(s, c) && Step(s, c, ev).Stepped? && Local(ev)
    ensures Inv(Step(s, c, ev).sys)
  {
    var s', x := Step(s, c, ev).sys, s.cpus[c].cur;
    assert CpuOk(s, c) && QueueOk(s, s.thr[x]);
    LocalShape(s, c, ev);
    LocalAccount(s, c, ev);
    LocalStep(s, c, s', s'.cpus[c], s'.thr[x]);
  }

  /** Waking finds the sleeper either parked or still the idle processor's thread. */
  lemma WakeKeeps(s: System, c: nat, t: int)
    requires Inv(s) && Basic(s, c) && Step(s, c, Wake(t)).Stepped?
    ensures Inv(Step(s, c, Wake(t)).sys)
  {
    var s' := Step(s, c, Wake(t)).sys;
    assert QueueOk(s, s.thr[t]);
    if Current(s, t) {
      var d :| 0 <= d < |s.cpus| && s.cpus[d].cur == t;
      assert CpuOk(s, d);
      assert s' == System(s.cpus[d := s.cpus[d]], s.thr[t := s'.thr[t]]);
      LocalStep(s, d, s', s.cpus[d], s'.thr[t]);
    } else {
      ParkedStep(s, s', t, s'.thr[t]);
    }
  }

  lemma MigrateKeeps(s: System, c: nat, t: int, to: nat)
    requires Inv(s) && Basic(s, c) && Step(s, c, Migrate(t, to)).Stepped?
    ensures Inv(Step(s, c, Migrate(t, to)).sys)
  {
    assert QueueOk(s, s.thr[t]);
    forall d | 0 <= d < |s.cpus| ensures s.cpus[d].cur != t { assert CpuOk(s, d); }
    assert Parked(s.thr[t]);
    var s' := Step(s, c, Migrate(t, to)).sys;
    ParkedStep(s, s', t, s'.thr[t]);
  }

  lemma ExorciseKeeps(s: System, c: nat, t: int)
    requires Inv(s) && Basic(s, c) && Step(s, c, Exorcise(t)).Stepped?
    ensures Inv(Step(s, c, Exorcise(t)).sys)
  {
    var s' := Step(s, c, Exorcise(t)).sys;
    forall d | 0 <= d < |s'.cpus| ensures CpuOk(s', d) { assert CpuOk(s, d); }
    forall x | x in s'.thr ensures QueueOk(s', s'.thr[x]) { assert QueueOk(s, s.thr[x]); }
    forall d | 0 <= d < |s.cpus| ensures Current(s', s.cpus[d].cur) { assert s'.cpus[d].cur == s.cpus[d].cur; }
    forall x | x in s'.thr && !Current(s', x) ensures Parked(s'.thr[x]) { assert Parked(s.thr[x]); }
  }

  lemma ForkKeeps(s: System, c: nat, child: int)
    requires Inv(s) && Basic(s, c) && Step(s, c, Fork(child)).Stepped?
    ensures Inv(Step(s, c, Fork(child)).sys)
  {
    forall d | 0 <= d < |s.cpus| ensures s.cpus[d].cur != child { assert CpuOk(s, d); }
    var s' := Step(s, c, Fork(child)).sys;
    ParkedStep(s, s', child, s'.thr[child]);
  }

  /** Every step of every processor keeps the accounting. */
  lemma StepKeepsInv(s: System, c: nat, ev: Event)
    requires Inv(s) && Basic(s, c) && Step(s, c, ev).Stepped?
    ensures Inv(Step(s, c, ev).sys)
  {
    match ev
    case Pick(next) => PickStep(s, c, next);
    case Fork(child) => ForkKeeps(s, c, child);
    case Wake(t) => WakeKeeps(s, c, t);
    case Migrate(t, to) => MigrateKeeps(s, c, t, to);
    case Exorcise(t) => ExorciseKeeps(s, c, t);
    case _ => LocalEventKeeps(s, c, ev);
  }

  // -------------------------------------------------------------------- whole runs

  datatype Move = Move(cpu: nat, event: Event)

  /** The state after a schedule; a move that cannot happen is skipped. */
  function Run(s: System, moves: seq<Move>): System {
    if moves == [] then s
    else
      var t := Run(s, moves[..|moves| - 1]);
      var m := moves[|moves| - 1];
      if !Basic(t, m.cpu) then t
      else match Step(t, m.cpu, m.event) case Disabled => t case Stepped(t') => t'
  }

  /** cpu_create: each processor starts in a thread of its own, with t_curspl high and
      interrupts off. */
  function BootCpus(n: nat): (r: seq<Cpu>)
    ensures |r| == n && forall c :: 0 <= c < n ==> r[c] == Cpu(c, 0, false, Running)
  {
    seq(n, c => Cpu(c, 0, false, Running))
  }

  function BootSystem(n: nat): System {
    System(BootCpus(n), map c: int | 0 <= c < n :: Thr(true, 1, true, false, c, OnCpu))
  }

  lemma {:induction false} RunsKeepInv(n: nat, moves: seq<Move>)
    ensures Inv(Run(BootSystem(n), moves))
  {
    var s := BootSystem(n);
    if moves == [] {
      forall t | t in s.thr ensures Current(s, t) { assert s.cpus[t].cur == t; }
    } else {
      RunsKeepInv(n, moves[..|moves| - 1]);
      var t := Run(s, moves[..|moves| - 1]);
      var m := moves[|moves| - 1];
      if Basic(t, m.cpu) && Step(t, m.cpu, m.event).Stepped? { StepKeepsInv(t, m.cpu, m.event); }
    }
  }

  /** In every reachable state: a current thread's count is its processor's spinlocks
      plus its level; interrupts are on exactly when that is zero, or in the idle
      instruction; a thread on no processor counts exactly two; the handler's and the
      wait channel's assertions hold; and no two processors run one thread. */
  lemma InterruptAccounting(n: nat, moves: seq<Move>, c: nat, t: int)
    requires c < n && t in Run(BootSystem(n), moves).thr
    ensures var s := Run(BootSystem(n), moves);
            && Basic(s, c)
            && (var v := ViewOf(s, c);
                && v.count == v.spinlocks + (if v.high then 1 else 0)
                && (s.cpus[c].phase != IdleOn ==> (v.irq <==> v.count == 0))
                && (s.cpus[c].phase == IdleOn ==> v.irq && v.count == 1)
                && (Step(s, c, InterruptReturn).Stepped? ==> v.high && v.count == 1)
                && (s.cpus[c].phase == Running && v.irq ==> !v.high && v.count == 0))
            && (!Current(s, t) ==> s.thr[t].high && s.thr[t].count == 2)
            && (forall d :: 0 <= d < |s.cpus| && s.cpus[d].cur == s.cpus[c].cur ==> c == d)
  {
    var s := Run(BootSystem(n), moves);
    RunsKeepInv(n, moves);
    CpusStay(n, moves);
    assert CpuOk(s, c);
    forall d | 0 <= d < |s.cpus| && s.cpus[d].cur == s.cpus[c].cur ensures c == d { CurrentsDiffer(s, c, d); }
    assert !Current(s, t) ==> Parked(s.thr[t]);
  }

  lemma {:induction false} CpusStay(n: nat, moves: seq<Move>)
    ensures |Run(BootSystem(n), moves).cpus| == n
  {
    if moves != [] {
      CpusStay(n, moves[..|moves| - 1]);
      var t, m := Run(BootSystem(n), moves[..|moves| - 1]), moves[|moves| - 1];
      if Basic(t, m.cpu) { StepCpus(t, m.cpu, m.event); }
    }
  }

  lemma StepCpus(s: System, c: nat, ev: Event)
    requires Basic(s, c)
    ensures Step(s, c, ev).Stepped? ==> |Step(s, c, ev).sys.cpus| == |s.cpus|
  {
  }

  /** A yield to an empty run queue changes nothing. */
  lemma EmptyYieldIsNothing(s: System, c: nat)
    requires Basic(s, c) && CpuOk(s, c) && s.cpus[c].phase == Running && s.cpus[c].spinlocks == 0 && NoneQueued(s, c)
    ensures Step(s, c, Leave(Ready)) == Stepped(s)
  {
    YieldChangesNothing(ViewOf(s, c));
    PutBack(s, c);
  }

  lemma PutBack(s: System, c: nat)
    requires Basic(s, c)
    ensures Put(s, c, ViewOf(s, c), s.cpus[c].phase, s.thr[s.cpus[c].cur].place) == s
  {
  }

  /** What thread t sees after thread_switch has come back to it on a processor with these
      spinlocks and this interrupt enable: its own level and count, then the run queue lock
      let go and its level restored. */
  function ResumedView(t: Thr, spinlocks: int, irq: bool): View {
    Splx(SpinRelease(View(t.high, t.count, spinlocks, irq)), t.saved)
  }

  /** The thread switched to, which counts two, gets an account that is true, and comes out
      of thread_switch with one, if and only if the thread switched away from held the
      spinlocks thread_switch allows for. The leaver's own account is true in any case. */
  lemma LeaveBalancedIff(v: View, st: NewState, cur: int, t: Thr)
    requires Accounted(v) && t.high && t.count == 2
    ensures LeaveView(v, st).high && Accounted(LeaveView(v, st))
    ensures var w := LeaveView(v, st);
            && (AccountOk(Cpu(cur, w.spinlocks, w.irq, Resuming), t) <==> v.spinlocks == LocksAllowed(st))
            && (Accounted(ResumedView(t, w.spinlocks, w.irq)) <==> v.spinlocks == LocksAllowed(st))
            && (w.count == 2 && w.spinlocks == 1 <==> v.spinlocks == LocksAllowed(st))
  {
    LeaveLocks(v, st);
    ResumedIff(LeaveView(v, st), cur, t);
  }

  /** A thread that counts two needs one spinlock on the processor it comes back to. */
  lemma ResumedIff(w: View, cur: int, t: Thr)
    requires t.high && t.count == 2 && w.high && Accounted(w)
    ensures AccountOk(Cpu(cur, w.spinlocks, w.irq, Resuming), t) <==> w.spinlocks == 1
    ensures Accounted(ResumedView(t, w.spinlocks, w.irq)) <==> w.spinlocks == 1
    ensures w.count == 2 <==> w.spinlocks == 1
  {
    assert SpinRelease(View(t.high, t.count, w.spinlocks, w.irq)) == View(true, 1, w.spinlocks - 1, false);
  }

  /** The spinlocks handed over with the processor. */
  lemma LeaveLocks(v: View, st: NewState)
    requires Accounted(v)
    ensures var w := LeaveView(v, st);
            w.high && Accounted(w) && !w.irq && w.spinlocks == v.spinlocks + 1 - LocksAllowed(st)
  {
    var u := Splx(v, true);
    assert u.high && u.spinlocks == v.spinlocks && u.count == v.spinlocks + 1 && !u.irq;
  }

  /** The same for whole systems: from a state in order, the switch by processor c to a
      queued thread leaves c in order if and only if its caller held those spinlocks. */
  lemma SwitchInOrderIff(s: System, c: nat, st: NewState, next: int)
    requires Inv(s) && Basic(s, c) && s.cpus[c].phase == Running && (st == Ready || !s.thr[s.cpus[c].cur].irqLow)
    requires next in s.thr && s.thr[next].place == Queued(c)
    ensures Basic(SwitchTo(Away(s, c, st), c, next), c)
    ensures CpuOk(SwitchTo(Away(s, c, st), c, next), c) <==> s.cpus[c].spinlocks == LocksAllowed(st)
  {
    var v, cur := ViewOf(s, c), s.cpus[c].cur;
    assert CpuOk(s, c) && QueueOk(s, s.thr[next]);
    forall d | 0 <= d < |s.cpus| ensures s.cpus[d].cur != next { assert CpuOk(s, d); }
    assert Parked(s.thr[next]);
    LeaveLocks(v, st);
  }

  /** A yield by a caller that holds a spinlock: the next thread counts two but has two
      spinlocks on its processor, and comes out of thread_switch with interrupts on and one
      spinlock still counted. */
  lemma YieldHoldingLock(t: Thr)
    requires t.high && t.count == 2 && !t.saved
    ensures var v := View(false, 1, 1, false);
            var w := LeaveView(v, Ready);
            && Accounted(v) && !Accounted(View(t.high, t.count, w.spinlocks, w.irq))
            && ResumedView(t, w.spinlocks, w.irq) == View(false, 0, 1, true)
  {
    LeaveLocks(View(false, 1, 1, false), Ready);
  }

  // ------------------------------------------------------------ where each thread is

  /** An event that happened; `switched` says whether a leave went on to choose a thread. */
  datatype Entry = Entry(cpu: nat, event: Event, switched: bool)

  /** What happened in a schedule. */
  function Log(s: System, moves: seq<Move>): seq<Entry> {
    if moves == [] then []
    else
      var before, m := moves[..|moves| - 1], moves[|moves| - 1];
      var t := Run(s, before);
      if !Basic(t, m.cpu) || Step(t, m.cpu, m.event).Disabled? then Log(s, before)
      else Log(s, before) + [EntryOf(m.cpu, m.event, Step(t, m.cpu, m.event).sys)]
  }

  function EntryOf(c: nat, ev: Event, s': System): Entry {
    Entry(c, ev, c < |s'.cpus| && s'.cpus[c].phase == Choosing)
  }

  /** The last thread chosen on a processor; at boot, each has its own. */
  function Chosen(log: seq<Entry>, c: nat): int {
    if log == [] then c
    else
      var e, before := log[|log| - 1], log[..|log| - 1];
      if e.cpu == c && e.event.Pick? then e.event.next else Chosen(before, c)
  }

  datatype Life = Gone | Active | Sleeping | Dead

  /** A thread's life by its history: it is dead once it has left with Exit, it sleeps from
      leaving with Sleep until it is woken, and it is gone before its fork and after it is
      reaped. */
  function LifeOf(n: nat, log: seq<Entry>, t: int): Life {
    if log == [] then (if 0 <= t < n then Active else Gone)
    else
      var e, before := log[|log| - 1], log[..|log| - 1];
      match e.event
      case Fork(x) => if x == t then Active else LifeOf(n, before, t)
      case Exorcise(x) => if x == t then Gone else LifeOf(n, before, t)
      case Wake(x) => if x == t then Active else LifeOf(n, before, t)
      case Leave(st) =>
        if Chosen(before, e.cpu) != t then LifeOf(n, before, t)
        else (match st case Ready => Active case Sleep => Sleeping case Exit => Dead)
      case _ => LifeOf(n, before, t)
  }

  /** The processor a thread belongs to: where it was forked, or last migrated to. */
  function HomeOf(log: seq<Entry>, t: int): int {
    if log == [] then t
    else
      var e, before := log[|log| - 1], log[..|log| - 1];
      match e.event
      case Fork(x) => if x == t then e.cpu else HomeOf(before, t)
      case Migrate(x, to) => if x == t then to else HomeOf(before, t)
      case _ => HomeOf(before, t)
  }

  /** A thread is off since it last left, or was forked, until it comes out of thread_switch
      again. */
  function IsOff(log: seq<Entry>, t: int): bool {
    if log == [] then false
    else
      var e, before := log[|log| - 1], log[..|log| - 1];
      match e.event
      case Fork(x) => if x == t then true else IsOff(before, t)
      case Leave(st) => if Chosen(before, e.cpu) == t && (st != Ready || e.switched) then true else IsOff(before, t)
      case Resume => if Chosen(before, e.cpu) == t then false else IsOff(before, t)
      case _ => IsOff(before, t)
  }

  /** The level a thread last set, or an interrupt set for it, while it was not off. */
  function LevelOf(log: seq<Entry>, t: int): bool {
    if log == [] then true
    else
      var e, before := log[|log| - 1], log[..|log| - 1];
      var mine := Chosen(before, e.cpu) == t && !IsOff(before, t);
      match e.event
      case Fork(x) => if x == t then false else LevelOf(before, t)
      case Level(high) => if mine then high else LevelOf(before, t)
      case Interrupt => if mine then true else LevelOf(before, t)
      case InterruptReturn => if mine then false else LevelOf(before, t)
      case _ => LevelOf(before, t)
  }

  /** Whether an interrupt handler runs on a thread's behalf. */
  function InHandler(log: seq<Entry>, t: int): bool {
    if log == [] then false
    else
      var e, before := log[|log| - 1], log[..|log| - 1];
      match e.event
      case Fork(x) => if x == t then false else InHandler(before, t)
      case Interrupt => if Chosen(before, e.cpu) == t then true else InHandler(before, t)
      case InterruptReturn => if Chosen(before, e.cpu) == t then false else InHandler(before, t)
      case _ => InHandler(before, t)
  }

  /** What a processor is at, by its last event that says so. */
  function PhaseOf(log: seq<Entry>, c: nat): Phase {
    if log == [] then Running
    else
      var e, before := log[|log| - 1], log[..|log| - 1];
      if e.cpu != c then PhaseOf(before, c)
      else
        match e.event
        case Leave(_) => if e.switched then Choosing else PhaseOf(before, c)
        case Pick(_) => Resuming
        case GoIdle => IdleOff
        case IdleEnable => IdleOn
        case IdleDisable => IdleOff
        case IdleInterrupt => IdleHandler
        case IdleReturn => IdleOn
        case Relock => Choosing
        case Resume => Running
        case _ => PhaseOf(before, c)
  }

  /** The spinlocks of a processor: those its threads acquired and did not release, and the
      run queue's from leaving or unidling until idling or coming back. A thread that goes
      to sleep lets go of the wait channel's. */
  function SpinsOf(log: seq<Entry>, c: nat): int {
    if log == [] then 0
    else
      var e, before := log[|log| - 1], log[..|log| - 1];
      if e.cpu != c then SpinsOf(before, c)
      else
        match e.event
        case Acquire => SpinsOf(before, c) + 1
        case Release => SpinsOf(before, c) - 1
        case Leave(st) => SpinsOf(before, c) + (if e.switched && st != Sleep then 1 else 0)
        case GoIdle => SpinsOf(before, c) - 1
        case Relock => SpinsOf(before, c) + 1
        case Resume => SpinsOf(before, c) - 1
        case _ => SpinsOf(before, c)
  }

  /** A thread waits on c's run queue, by its history: it is off, and not just chosen. */
  predicate ReadyOn(n: nat, log: seq<Entry>, c: nat, x: int) {
    && LifeOf(n, log, x) == Active && IsOff(log, x) && HomeOf(log, x) == c
    && !(PhaseOf(log, c) == Resuming && Chosen(log, c) == x)
  }

  ghost predicate NoneReady(n: nat, log: seq<Entry>, c: nat) { forall x :: !ReadyOn(n, log, c, x) }

  /** When an event can happen, by the history so far. */
  ghost predicate Can(n: nat, log: seq<Entry>, c: nat, ev: Event) {
    var me, phase, spins := Chosen(log, c), PhaseOf(log, c), SpinsOf(log, c);
    var working := phase == Running || phase == IdleHandler;
    match ev
    case Level(high) => working && (high || (phase == Running && !InHandler(log, me)))
    case Acquire => working
    case Release => working && spins > 0
    case Leave(st) => phase == Running && spins == LocksAllowed(st) && (st == Ready || !InHandler(log, me))
    case Pick(x) => phase == Choosing && ReadyOn(n, log, c, x)
    case GoIdle => phase == Choosing && NoneReady(n, log, c)
    case IdleEnable => phase == IdleOff
    case IdleDisable => phase == IdleOn
    case IdleInterrupt => phase == IdleOn
    case IdleReturn => phase == IdleHandler && spins == 0
    case Relock => phase == IdleOff
    case Resume => phase == Resuming
    case Interrupt => phase == Running && spins == 0 && !LevelOf(log, me)
    case InterruptReturn => phase == Running && spins == 0 && InHandler(log, me)
    case Fork(x) => phase == Running && LifeOf(n, log, x) == Gone
    case Wake(x) => working && LifeOf(n, log, x) == Sleeping
    case Migrate(x, to) => working && ReadyOn(n, log, c, x) && x != me && to < n
    case Exorcise(x) => phase == Running && LifeOf(n, log, x) == Dead && HomeOf(log, x) == c && x != me
  }

  /** An entry of the log could happen; a yield switches exactly if a thread is ready, and
      leaving to sleep or exit always does. */
  ghost predicate Allowed(n: nat, log: seq<Entry>, e: Entry) {
    && Can(n, log, e.cpu, e.event)
    && (e.event.Leave? ==> (e.switched <==> e.event.state != Ready || !NoneReady(n, log, e.cpu)))
  }

  /** Where a thread is, by its history. */
  predicate PlaceOk(life: Life, off: bool, home: nat, cpu: Cpu, x: int, p: Place) {
    match life
    case Gone => false
    case Dead => off && p == Zombie
    case Sleeping => off && p == Waiting
    case Active =>
      if !off then p == OnCpu && cpu.cur == x && cpu.phase == Running
      else p == Queued(home) || (p == OnCpu && cpu.cur == x && cpu.phase == Resuming)
  }

  /** The state of thread x is what its history says. */
  ghost predicate Traced(n: nat, log: seq<Entry>, s: System, x: int) {
    && (x in s.thr <==> LifeOf(n, log, x) != Gone)
    && (x in s.thr ==>
          var t := s.thr[x];
          && t.cpu == HomeOf(log, x) && t.cpu < |s.cpus| && t.irqLow == InHandler(log, x)
          && PlaceOk(LifeOf(n, log, x), IsOff(log, x), t.cpu, s.cpus[t.cpu], x, t.place)
          && (if IsOff(log, x) then t.saved == LevelOf(log, x) else t.high == LevelOf(log, x)))
  }

  predicate CpuTraced(log: seq<Entry>, c: nat, cpu: Cpu) {
    cpu.cur == Chosen(log, c) && cpu.phase == PhaseOf(log, c) && cpu.spinlocks == SpinsOf(log, c)
  }

  ghost predicate Tracked(n: nat, log: seq<Entry>, s: System) {
    && |s.cpus| == n && (forall c :: 0 <= c < n ==> CpuTraced(log, c, s.cpus[c]))
    && forall x :: Traced(n, log, s, x)
  }

  /** A thread is ready on c exactly if it is on c's run queue. */
  lemma ReadyIsQueued(n: nat, log: seq<Entry>, s: System, c: nat, x: int)
    requires Inv(s) && Tracked(n, log, s) && c < n
    ensures ReadyOn(n, log, c, x) <==> x in s.thr && s.thr[x].place == Queued(c)
  {
    assert Traced(n, log, s, x) && CpuTraced(log, c, s.cpus[c]) && CpuOk(s, c);
    assert x in s.thr ==> QueueOk(s, s.thr[x]);
  }

  lemma NoneReadyIsNoneQueued(n: nat, log: seq<Entry>, s: System, c: nat)
    requires Inv(s) && Tracked(n, log, s) && c < n
    ensures NoneReady(n, log, c) <==> NoneQueued(s, c)
  {
    forall x ensures ReadyOn(n, log, c, x) <==> x in s.thr && s.thr[x].place == Queued(c) {
      ReadyIsQueued(n, log, s, c, x);
    }
  }

  /** An event happens exactly when the history says it can. */
  lemma HappensIff(n: nat, log: seq<Entry>, s: System, c: nat, ev: Event)
    requires Inv(s) && Tracked(n, log, s) && c < n
    ensures Basic(s, c) && (Step(s, c, ev).Stepped? <==> Can(n, log, c, ev))
  {
    assert CpuOk(s, c) && CpuTraced(log, c, s.cpus[c]) && Traced(n, log, s, s.cpus[c].cur);
    match ev {
      case Pick(x) => ReadyIsQueued(n, log, s, c, x);
      case GoIdle => NoneReadyIsNoneQueued(n, log, s, c);
      case Fork(x) => assert Traced(n, log, s, x);
      case Wake(x) => assert Traced(n, log, s, x);
      case Migrate(x, to) => ReadyIsQueued(n, log, s, c, x);
      case Exorcise(x) => assert Traced(n, log, s, x);
      case _ =>
    }
  }

  /** Other processors stay as they were. */
  lemma CpuElsewhere(s: System, c: nat, ev: Event, d: nat)
    requires Basic(s, c) && Step(s, c, ev).Stepped? && d < |s.cpus| && d != c
    ensures d < |Step(s, c, ev).sys.cpus| && Step(s, c, ev).sys.cpus[d] == s.cpus[d]
  {
  }

  /** The processor, under its own event. */
  lemma CpuAfter(n: nat, log: seq<Entry>, s: System, c: nat, ev: Event, d: nat)
    requires Inv(s) && Tracked(n, log, s) && Basic(s, c) && Step(s, c, ev).Stepped? && d < n
    ensures var s' := Step(s, c, ev).sys;
            |s'.cpus| == n && CpuTraced(log + [EntryOf(c, ev, s')], d, s'.cpus[d])
  {
    var e := EntryOf(c, ev, Step(s, c, ev).sys);
    assert (log + [e])[..|log + [e]| - 1] == log;
    assert CpuTraced(log, d, s.cpus[d]);
    StepCpus(s, c, ev);
    if d != c {
      CpuElsewhere(s, c, ev, d);
    } else if ev.Leave? {
      CpuLeaves(s, c, ev.state);
    } else {
      CpuItself(s, c, ev);
    }
  }

  lemma CpuLeaves(s: System, c: nat, st: NewState)
    requires Inv(s) && Basic(s, c) && Step(s, c, Leave(st)).Stepped?
    ensures var s' := Step(s, c, Leave(st)).sys;
            && c < |s'.cpus| && s'.cpus[c].cur == s.cpus[c].cur
            && (if s'.cpus[c].phase == Choosing
                then s'.cpus[c].spinlocks == s.cpus[c].spinlocks + (if st == Sleep then 0 else 1)
                else s'.cpus[c] == s.cpus[c])
  {
    assert CpuOk(s, c);
    if st == Ready && NoneQueued(s, c) { EmptyYieldIsNothing(s, c); } else { LeaveLocks(ViewOf(s, c), st); }
  }

  /** What the other events do to it. */
  lemma CpuItself(s: System, c: nat, ev: Event)
    requires Basic(s, c) && Step(s, c, ev).Stepped? && !ev.Leave?
    ensures var was, now := s.cpus[c], Step(s, c, ev).sys.cpus[c];
            && now.cur == (if ev.Pick? then ev.next else was.cur)
            && now.spinlocks == was.spinlocks + (if ev.Acquire? || ev.Relock? then 1
                                                 else if ev.Release? || ev.GoIdle? || ev.Resume? then -1 else 0)
            && now.phase == match ev
                            case Pick(_) => Resuming
                            case GoIdle => IdleOff
                            case IdleEnable => IdleOn
                            case IdleDisable => IdleOff
                            case IdleInterrupt => IdleHandler
                            case IdleReturn => IdleOn
                            case Relock => Choosing
                            case Resume => Running
                            case _ => was.phase
  {
  }

  /** A thread other than the current one, under an event of the current one. */
  lemma LocalOther(n: nat, log: seq<Entry>, s: System, c: nat, ev: Event, x: int)
    requires Inv(s) && Tracked(n, log, s) && Basic(s, c) && Step(s, c, ev).Stepped? && Local(ev) && x != s.cpus[c].cur
    ensures Traced(n, log + [EntryOf(c, ev, Step(s, c, ev).sys)], Step(s, c, ev).sys, x)
  {
    var e, s' := EntryOf(c, ev, Step(s, c, ev).sys), Step(s, c, ev).sys;
    assert (log + [e])[..|log + [e]| - 1] == log;
    LocalShape(s, c, ev);
    assert Traced(n, log, s, x) && CpuTraced(log, c, s.cpus[c]);
  }

  /** The current thread itself. */
  lemma LocalSelf(n: nat, log: seq<Entry>, s: System, c: nat, ev: Event)
    requires Inv(s) && Tracked(n, log, s) && Basic(s, c) && Step(s, c, ev).Stepped? && Local(ev)
    requires !ev.Leave? && !ev.Resume?
    ensures Traced(n, log + [EntryOf(c, ev, Step(s, c, ev).sys)], Step(s, c, ev).sys, s.cpus[c].cur)
  {
    var e := EntryOf(c, ev, Step(s, c, ev).sys);
    assert (log + [e])[..|log + [e]| - 1] == log;
    assert CpuOk(s, c) && CpuTraced(log, c, s.cpus[c]);
    assert Traced(n, log, s, s.cpus[c].cur);
  }

  lemma LeaveSelf(n: nat, log: seq<Entry>, s: System, c: nat, st: NewState)
    requires Inv(s) && Tracked(n, log, s) && Basic(s, c) && Step(s, c, Leave(st)).Stepped?
    ensures var s' := Step(s, c, Leave(st)).sys; Traced(n, log + [EntryOf(c, Leave(st), s')], s', s.cpus[c].cur)
    ensures EntryOf(c, Leave(st), Step(s, c, Leave(st)).sys).switched <==> st != Ready || !NoneQueued(s, c)
  {
    var e := EntryOf(c, Leave(st), Step(s, c, Leave(st)).sys);
    assert (log + [e])[..|log + [e]| - 1] == log;
    assert CpuOk(s, c) && CpuTraced(log, c, s.cpus[c]);
    assert Traced(n, log, s, s.cpus[c].cur);
    if st == Ready && NoneQueued(s, c) { EmptyYieldIsNothing(s, c); }
  }

  lemma ResumeSelf(n: nat, log: seq<Entry>, s: System, c: nat)
    requires Inv(s) && Tracked(n, log, s) && Basic(s, c) && Step(s, c, Resume).Stepped?
    ensures var s' := Step(s, c, Resume).sys; Traced(n, log + [EntryOf(c, Resume, s')], s', s.cpus[c].cur)
  {
    var e := EntryOf(c, Resume, Step(s, c, Resume).sys);
    assert (log + [e])[..|log + [e]| - 1] == log;
    assert CpuOk(s, c) && CpuTraced(log, c, s.cpus[c]);
    assert Traced(n, log, s, s.cpus[c].cur);
  }

  lemma LocalTraced(n: nat, log: seq<Entry>, s: System, c: nat, ev: Event, x: int)
    requires Inv(s) && Tracked(n, log, s) && Basic(s, c) && Step(s, c, ev).Stepped? && Local(ev)
    ensures Traced(n, log + [EntryOf(c, ev, Step(s, c, ev).sys)], Step(s, c, ev).sys, x)
  {
    if x != s.cpus[c].cur { LocalOther(n, log, s, c, ev, x); }
    else {
      match ev
      case Leave(st) => LeaveSelf(n, log, s, c, st);
      case Resume => ResumeSelf(n, log, s, c);
      case _ => LocalSelf(n, log, s, c, ev);
    }
  }

  lemma PickTraced(n: nat, log: seq<Entry>, s: System, c: nat, next: int, x: int)
    requires Inv(s) && Tracked(n, log, s) && Basic(s, c) && Step(s, c, Pick(next)).Stepped?
    ensures Traced(n, log + [EntryOf(c, Pick(next), Step(s, c, Pick(next)).sys)], Step(s, c, Pick(next)).sys, x)
  {
    var e := EntryOf(c, Pick(next), Step(s, c, Pick(next)).sys);
    assert (log + [e])[..|log + [e]| - 1] == log;
    assert CpuOk(s, c) && QueueOk(s, s.thr[next]) && CpuTraced(log, c, s.cpus[c]);
    assert Traced(n, log, s, x) && Traced(n, log, s, next);
  }

  lemma OtherTraced(n: nat, log: seq<Entry>, s: System, c: nat, ev: Event, x: int)
    requires Inv(s) && Tracked(n, log, s) && Basic(s, c) && Step(s, c, ev).Stepped? && !Local(ev) && !ev.Pick?
    ensures Traced(n, log + [EntryOf(c, ev, Step(s, c, ev).sys)], Step(s, c, ev).sys, x)
  {
    var e := EntryOf(c, ev, Step(s, c, ev).sys);
    assert (log + [e])[..|log + [e]| - 1] == log;
    assert Traced(n, log, s, x) && CpuOk(s, c) && CpuTraced(log, c, s.cpus[c]);
    assert x in s.thr ==> QueueOk(s, s.thr[x]);
  }

  lemma StepTracked(n: nat, log: seq<Entry>, s: System, c: nat, ev: Event)
    requires Inv(s) && Tracked(n, log, s) && c < n && Basic(s, c) && Step(s, c, ev).Stepped?
    ensures var s' := Step(s, c, ev).sys;
            Tracked(n, log + [EntryOf(c, ev, s')], s') && Allowed(n, log, EntryOf(c, ev, s'))
  {
    var s' := Step(s, c, ev).sys;
    var log' := log + [EntryOf(c, ev, s')];
    StepCpus(s, c, ev);
    forall d | 0 <= d < n ensures CpuTraced(log', d, s'.cpus[d]) { CpuAfter(n, log, s, c, ev, d); }
    forall x ensures Traced(n, log', s', x) {
      if Local(ev) { LocalTraced(n, log, s, c, ev, x); }
      else if ev.Pick? { PickTraced(n, log, s, c, ev.next, x); }
      else { OtherTraced(n, log, s, c, ev, x); }
    }
    StepAllowed(n, log, s, c, ev);
  }

  lemma StepAllowed(n: nat, log: seq<Entry>, s: System, c: nat, ev: Event)
    requires Inv(s) && Tracked(n, log, s) && c < n && Basic(s, c) && Step(s, c, ev).Stepped?
    ensures Allowed(n, log, EntryOf(c, ev, Step(s, c, ev).sys))
  {
    HappensIff(n, log, s, c, ev);
    if ev.Leave? {
      LeaveSelf(n, log, s, c, ev.state);
      NoneReadyIsNoneQueued(n, log, s, c);
    }
  }

  lemma BootTracked(n: nat)
    ensures Tracked(n, [], BootSystem(n))
  {
    var s := BootSystem(n);
    forall x ensures Traced(n, [], s, x) { if 0 <= x < n { assert s.cpus[x] == Cpu(x, 0, false, Running); } }
  }

  /** Over every schedule: each thread is where its own history puts it, belongs to the
      processor its history says, and has, or will come back to, the level it last had; each
      processor is at what its own events say; and all that happened could, by the history
      before it. */
  lemma {:induction false} Whereabouts(n: nat, moves: seq<Move>)
    ensures var s, log := Run(BootSystem(n), moves), Log(BootSystem(n), moves);
            Tracked(n, log, s) && forall k :: 0 <= k < |log| ==> Allowed(n, log[..k], log[k])
  {
    var s0 := BootSystem(n);
    if moves == [] {
      BootTracked(n);
    } else {
      var before, m := moves[..|moves| - 1], moves[|moves| - 1];
      var t, log := Run(s0, before), Log(s0, before);
      Whereabouts(n, before);
      RunsKeepInv(n, before);
      if Basic(t, m.cpu) && Step(t, m.cpu, m.event).Stepped? {
        StepTracked(n, log, t, m.cpu, m.event);
        var e := EntryOf(m.cpu, m.event, Step(t, m.cpu, m.event).sys);
        forall k | 0 <= k < |log + [e]| ensures Allowed(n, (log + [e])[..k], (log + [e])[k]) {
          assert k < |log| ==> (log + [e])[..k] == log[..k];
          assert k == |log| ==> (log + [e])[..k] == log;
        }
      }
    }
  }

  /** And conversely: after every schedule a processor can take exactly the steps that the
      history allows. */
  lemma NextSteps(n: nat, moves: seq<Move>, c: nat, ev: Event)
    requires c < n
    ensures var s, log := Run(BootSystem(n), moves), Log(BootSystem(n), moves);
            Basic(s, c) && (Step(s, c, ev).Stepped? <==> Can(n, log, c, ev))
  {
    Whereabouts(n, moves);
    RunsKeepInv(n, moves);
    HappensIff(n, Log(BootSystem(n), moves), Run(BootSystem(n), moves), c, ev);
  }
}
