/** Counting semaphores over a wait channel, as threads interleave: no wakeup is
    lost, and counts are conserved.

    Source: kern/thread/synch.c (P and V) and kern/thread/thread.c (wchan_sleep,
    wchan_wakeone, and the sleep case of thread_switch). */
module Semaphore {

  type Thread = int

  const UINT_LIMIT := 0x1_0000_0000

  /** Where a thread stands. PCheck, VIncrement, VWake and VRelease hold the
      semaphore's spinlock; `again` marks a thread that was woken. */
  datatype Pc =
    | Idle
    | PWants
    | PCheck(again: bool)
    | Asleep
    | Woken
    | VWants
    | VIncrement
    | VWake
    | VRelease
  {
    predicate Locked() { PCheck? || VIncrement? || VWake? || VRelease? }
  }

  datatype Lock = Free | HeldBy(thread: Thread)

  /** The semaphore, its wait channel in queue order, and every thread's place. */
  datatype Sem = Sem(count: nat, lock: Lock, channel: seq<Thread>, pc: map<Thread, Pc>)

  datatype Choice = DoP | DoV

  /** One atomic step of thread t; `c` says what an idle thread starts. None is a step
      that cannot be taken: spinning on the lock, sleeping, or a panic. */
  datatype MaybeSem = Blocked | Stepped(sem: Sem)

  function Step(s: Sem, t: Thread, c: Choice): MaybeSem {
    if t !in s.pc then Blocked
    else
      match s.pc[t]
      case Idle => Stepped(s.(pc := s.pc[t := if c == DoP then PWants else VWants]))
      case PWants =>
        if s.lock.Free? then Stepped(s.(lock := HeldBy(t), pc := s.pc[t := PCheck(false)])) else Blocked
      case Woken =>
        if s.lock.Free? then Stepped(s.(lock := HeldBy(t), pc := s.pc[t := PCheck(true)])) else Blocked
      case PCheck(_) =>
        if s.count == 0 then
          // wchan_sleep: on the channel before the lock is let go
          Stepped(s.(lock := Free, channel := s.channel + [t], pc := s.pc[t := Asleep]))
        else
          Stepped(s.(lock := Free, count := s.count - 1, pc := s.pc[t := Idle]))
      case Asleep => Blocked
      case VWants =>
        if s.lock.Free? then Stepped(s.(lock := HeldBy(t), pc := s.pc[t := VIncrement])) else Blocked
      case VIncrement =>
        // the assertion after the increment fails when the count wraps to zero
        if s.count + 1 == UINT_LIMIT then Blocked
        else Stepped(s.(count := s.count + 1, pc := s.pc[t := VWake]))
      case VWake =>
        // wchan_wakeone
        if s.channel == [] then Stepped(s.(pc := s.pc[t := VRelease]))
        else Stepped(s.(channel := s.channel[1..], pc := s.pc[s.channel[0] := Woken][t := VRelease]))
      case VRelease => Stepped(s.(lock := Free, pc := s.pc[t := Idle]))
  }

  // ----------------------------------------------------------------------- invariant

  /** The lock's holder is the one thread inside a critical section. */
  ghost predicate LockOk(s: Sem) {
    && (s.lock.HeldBy? ==> s.lock.thread in s.pc)
    && (forall t :: t in s.pc ==> (s.pc[t].Locked() <==> s.lock == HeldBy(t)))
  }

  /** The channel lists each sleeping thread once. */
  ghost predicate ChannelOk(s: Sem) {
    && (forall i :: 0 <= i < |s.channel| ==> s.channel[i] in s.pc && s.pc[s.channel[i]] == Asleep)
    && (forall t :: t in s.pc && s.pc[t] == Asleep ==> t in s.channel)
    && (forall i, j :: 0 <= i < j < |s.channel| ==> s.channel[i] != s.channel[j])
  }

  predicate Pends(p: Pc) { p == Woken || p == PCheck(true) }

  /** The threads that were woken and have yet to look at the count again. */
  function Pending(s: Sem): set<Thread> { set t | t in s.pc && Pends(s.pc[t]) }

  /** 1 while a V has counted up but not yet woken anybody. */
  function AboutToWake(s: Sem): nat {
    if s.lock.HeldBy? && s.lock.thread in s.pc && s.pc[s.lock.thread] == VWake then 1 else 0
  }

  /** No lost wakeup: while anybody sleeps, each unit of the count has a thread under
      way to take it. */
  ghost predicate NoLostWakeup(s: Sem) {
    s.channel != [] ==> s.count <= |Pending(s)| + AboutToWake(s)
  }

  ghost predicate Inv(s: Sem) { LockOk(s) && ChannelOk(s) && NoLostWakeup(s) && s.count < UINT_LIMIT }

  // ------------------------------------------------------------------------- proofs

  /** How Pending changes when one thread moves. */
  lemma PendingMoved(s: Sem, s': Sem, t: Thread)
    requires t in s.pc && t in s'.pc && s'.pc == s.pc[t := s'.pc[t]]
    ensures Pends(s.pc[t]) == Pends(s'.pc[t]) ==> Pending(s') == Pending(s)
    ensures Pends(s.pc[t]) && !Pends(s'.pc[t]) ==> |Pending(s')| == |Pending(s)| - 1
    ensures !Pends(s.pc[t]) && Pends(s'.pc[t]) ==> |Pending(s')| == |Pending(s)| + 1
  {
    if Pends(s.pc[t]) == Pends(s'.pc[t]) {
      assert Pending(s') == Pending(s);
    } else if Pends(s.pc[t]) {
      assert Pending(s') == Pending(s) - {t};
    } else {
      assert Pending(s') == Pending(s) + {t};
    }
  }

  lemma WakeStep(s: Sem, t: Thread, c: Choice)
    requires Inv(s) && t in s.pc && s.pc[t] == VWake && s.channel != []
    ensures Inv(Step(s, t, c).sem)
  {
    var w := s.channel[0];
    var s1 := s.(channel := s.channel[1..], pc := s.pc[w := Woken]);
    var s2 := Step(s, t, c).sem;
    PendingMoved(s, s1, w);
    PendingMoved(s1, s2, t);
    assert s.lock == HeldBy(t);
    forall x | x in s2.pc && s2.pc[x] == Asleep ensures x in s2.channel {
      assert x in s.channel;
    }
  }

  /** Every step keeps the invariant. */
  lemma StepKeepsInv(s: Sem, t: Thread, c: Choice)
    requires Inv(s) && Step(s, t, c).Stepped?
    ensures Inv(Step(s, t, c).sem)
  {
    var s' := Step(s, t, c).sem;
    if s.pc[t] == VWake && s.channel != [] {
      WakeStep(s, t, c);
    } else {
      PendingMoved(s, s', t);
      assert NoLostWakeup(s');
      assert LockOk(s');
      ChannelStep(s, t, c);
    }
  }

  lemma ChannelStep(s: Sem, t: Thread, c: Choice)
    requires Inv(s) && Step(s, t, c).Stepped? && !(s.pc[t] == VWake && s.channel != [])
    ensures ChannelOk(Step(s, t, c).sem)
  {
    var s' := Step(s, t, c).sem;
    assert t !in s.channel;
    forall x | x in s'.pc && s'.pc[x] == Asleep ensures x in s'.channel {
      if x != t { assert x in s.channel; }
    }
  }

  /** A schedule: which thread moves, and what it starts when idle. */
  datatype Move = Move(t: Thread, c: Choice)

  ghost predicate Runs(s: Sem, moves: seq<Move>, s': Sem)
    decreases moves
  {
    if moves == [] then s == s'
    else Step(s, moves[0].t, moves[0].c).Stepped? && Runs(Step(s, moves[0].t, moves[0].c).sem, moves[1..], s')
  }

  /** A new semaphore, and threads that have not touched it. */
  ghost predicate Initial(s: Sem) {
    && s.lock.Free? && s.channel == [] && s.count < UINT_LIMIT
    && forall t :: t in s.pc ==> s.pc[t] == Idle
  }

  /** In every interleaving no wakeup is lost. */
  lemma {:induction false} NeverLosesWakeup(s: Sem, moves: seq<Move>, s': Sem)
    requires Inv(s) && Runs(s, moves, s')
    ensures Inv(s')
    decreases moves
  {
    if moves != [] {
      var m := moves[0];
      StepKeepsInv(s, m.t, m.c);
      NeverLosesWakeup(Step(s, m.t, m.c).sem, moves[1..], s');
    }
  }

  lemma InitialInv(s: Sem)
    requires Initial(s)
    ensures Inv(s)
  {
  }

  // ------------------------------------------------------- what the calls amount to

  /** What an observer of a schedule notes: which call each thread is in, how many calls of
      P and of V have returned, and who went to sleep and who was woken, in order. */
  datatype Notes = Notes(call: map<Thread, Choice>, ps: nat, vs: nat, slept: seq<Thread>, woken: seq<Thread>)

  /** Thread t moves, s becoming s'. A call begins when an idle thread moves, and returns
      when its thread is idle again. */
  function Note(n: Notes, s: Sem, m: Move, s': Sem): Notes
    requires m.t in s.pc && m.t in s'.pc
  {
    var was, now := s.pc[m.t], s'.pc[m.t];
    var call := if was == Idle then n.call[m.t := m.c] else n.call;
    var returned := was != Idle && now == Idle && m.t in call;
    Notes(call,
          n.ps + (if returned && call[m.t] == DoP then 1 else 0),
          n.vs + (if returned && call[m.t] == DoV then 1 else 0),
          if was != Asleep && now == Asleep then n.slept + [m.t] else n.slept,
          if s.channel != [] && s.channel[0] in s'.pc && s'.pc[s.channel[0]] != Asleep
          then n.woken + [s.channel[0]] else n.woken)
  }

  const NOTHING := Notes(map[], 0, 0, [], [])

  /** The notes of a whole schedule. */
  ghost function Noted(n: Notes, s: Sem, moves: seq<Move>, s': Sem): Notes
    requires Runs(s, moves, s')
    decreases moves
  {
    if moves == [] then n
    else
      var s1 := Step(s, moves[0].t, moves[0].c).sem;
      StepKeepsThreads(s, moves[0]);
      Noted(Note(n, s, moves[0], s1), s1, moves[1..], s')
  }

  lemma StepKeepsThreads(s: Sem, m: Move)
    requires Step(s, m.t, m.c).Stepped?
    ensures m.t in s.pc && m.t in Step(s, m.t, m.c).sem.pc
  {
  }

  predicate InP(p: Pc) { p.PWants? || p.PCheck? || p.Asleep? || p.Woken? }

  /** 1 while a V that has counted up has not returned. */
  function Raised(s: Sem): nat {
    if s.lock.HeldBy? && s.lock.thread in s.pc && (s.pc[s.lock.thread] == VWake || s.pc[s.lock.thread] == VRelease)
    then 1 else 0
  }

  /** The calls are the ones the threads' places show; every unit is accounted for; and the
      channel holds those who went to sleep and were not woken, in order. */
  ghost predicate Tallied(n: Notes, first: nat, s: Sem) {
    && (forall t :: t in s.pc && s.pc[t] != Idle ==> t in n.call && (n.call[t] == DoP <==> InP(s.pc[t])))
    && first + n.vs + Raised(s) == s.count + n.ps
    && n.slept == n.woken + s.channel
  }

  lemma TallyWake(n: Notes, first: nat, s: Sem, m: Move)
    requires Inv(s) && Tallied(n, first, s) && m.t in s.pc && s.pc[m.t] == VWake
    ensures Step(s, m.t, m.c).Stepped? && m.t in Step(s, m.t, m.c).sem.pc
    ensures Tallied(Note(n, s, m, Step(s, m.t, m.c).sem), first, Step(s, m.t, m.c).sem)
  {
    var s' := Step(s, m.t, m.c).sem;
    assert s.lock == HeldBy(m.t) && s'.lock == HeldBy(m.t) && s'.pc[m.t] == VRelease;
    if s.channel != [] {
      var w := s.channel[0];
      assert s.pc[w] == Asleep && w != m.t && s'.pc[w] == Woken;
      assert n.woken + s.channel == (n.woken + [w]) + s.channel[1..];
      assert Note(n, s, m, s') == n.(woken := n.woken + [w]);
    } else {
      assert Note(n, s, m, s') == n;
    }
  }

  lemma TallyStep(n: Notes, first: nat, s: Sem, m: Move)
    requires Inv(s) && Tallied(n, first, s) && Step(s, m.t, m.c).Stepped?
    ensures m.t in s.pc && m.t in Step(s, m.t, m.c).sem.pc
    ensures Tallied(Note(n, s, m, Step(s, m.t, m.c).sem), first, Step(s, m.t, m.c).sem)
  {
    var s' := Step(s, m.t, m.c).sem;
    if s.pc[m.t] == VWake {
      TallyWake(n, first, s, m);
    } else {
      assert forall i :: 0 <= i < |s.channel| ==> s.channel[i] != m.t && s'.pc[s.channel[i]] == Asleep;
      assert s.lock.HeldBy? && s.lock.thread != m.t ==> !s.pc[m.t].Locked();
      TallyCount(n, first, s, m);
      TallyCalls(n, first, s, m);
    }
  }

  lemma TallyCalls(n: Notes, first: nat, s: Sem, m: Move)
    requires Inv(s) && Tallied(n, first, s) && Step(s, m.t, m.c).Stepped? && s.pc[m.t] != VWake
    ensures var s' := Step(s, m.t, m.c).sem;
            forall t :: t in s'.pc && s'.pc[t] != Idle ==>
              t in Note(n, s, m, s').call && (Note(n, s, m, s').call[t] == DoP <==> InP(s'.pc[t]))
  {
  }

  lemma TallyCount(n: Notes, first: nat, s: Sem, m: Move)
    requires Inv(s) && Tallied(n, first, s) && Step(s, m.t, m.c).Stepped? && s.pc[m.t] != VWake
    ensures var s' := Step(s, m.t, m.c).sem;
            first + Note(n, s, m, s').vs + Raised(s') == s'.count + Note(n, s, m, s').ps
  {
    assert s.pc[m.t].Locked() <==> s.lock == HeldBy(m.t);
  }

  lemma {:induction false} RunTally(n: Notes, first: nat, s: Sem, moves: seq<Move>, s': Sem)
    requires Inv(s) && Tallied(n, first, s) && Runs(s, moves, s')
    ensures Tallied(Noted(n, s, moves, s'), first, s')
    decreases moves
  {
    if moves != [] {
      var s1 := Step(s, moves[0].t, moves[0].c).sem;
      TallyStep(n, first, s, moves[0]);
      StepKeepsInv(s, moves[0].t, moves[0].c);
      RunTally(Note(n, s, moves[0], s1), first, s1, moves[1..], s');
    }
  }

  /** In every interleaving each call of V that returned added one unit and each call of P
      that returned took one: initial count plus returned V, plus one if a V is about to
      return, is the count plus returned P. */
  lemma CountConserved(s: Sem, moves: seq<Move>, s': Sem)
    requires Initial(s) && Runs(s, moves, s')
    ensures s.count + Noted(NOTHING, s, moves, s').vs + Raised(s') == s'.count + Noted(NOTHING, s, moves, s').ps
  {
    RunTally(NOTHING, s.count, s, moves, s');
  }

  /** Threads are woken in the order in which they went to sleep, each once. */
  lemma WokenInOrder(s: Sem, moves: seq<Move>, s': Sem)
    requires Initial(s) && Runs(s, moves, s')
    ensures Noted(NOTHING, s, moves, s').slept == Noted(NOTHING, s, moves, s').woken + s'.channel
  {
    RunTally(NOTHING, s.count, s, moves, s');
  }

  /** A move changes no other thread, but that a V wakes at most the longest sleeper. */
  lemma OthersStay(s: Sem, m: Move, x: Thread)
    requires Inv(s) && Step(s, m.t, m.c).Stepped? && x in s.pc && x != m.t
    ensures var s' := Step(s, m.t, m.c).sem;
            && x in s'.pc
            && (s'.pc[x] == s.pc[x] ||
                (s.pc[m.t] == VWake && s.channel != [] && x == s.channel[0] && s.pc[x] == Asleep && s'.pc[x] == Woken))
  {
    if s.pc[m.t] == VWake && s.channel != [] { assert s.pc[s.channel[0]] == Asleep; }
  }

  /** A thread cannot move exactly when it sleeps, or spins on a lock that another thread
      holds, or its V would wrap the count. */
  lemma StuckIff(s: Sem, m: Move)
    requires Inv(s) && m.t in s.pc
    ensures Step(s, m.t, m.c).Blocked? <==>
              || m.t in s.channel
              || (!s.pc[m.t].Locked() && s.pc[m.t] != Idle && s.lock.HeldBy?)
              || (s.pc[m.t] == VIncrement && s.count == UINT_LIMIT - 1)
  {
  }

  /** If a thread sleeps while the count is positive and no V is half done, some woken
      thread is still to take a unit. */
  lemma SleeperHasRunner(s: Sem)
    requires Inv(s) && s.channel != [] && s.count > 0 && AboutToWake(s) == 0
    ensures exists t :: t in s.pc && Pends(s.pc[t])
  {
    assert (forall t :: t in s.pc ==> !Pends(s.pc[t])) ==> Pending(s) == {};
  }
}
