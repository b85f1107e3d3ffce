/** The locked sections of one migration, run one after the other with nothing between them,
    do what thread_consider_migration promises when it is alone; and what each step does to a
    queue, to the threads as a whole and to t_cpu, whatever else goes on.

    Source: kern/thread/thread.c (thread_consider_migration, thread_make_runnable, the
    choice of the next thread in thread_switch). */
module MigrationAlone {
  import opened Migration
  import opened MigrationRuns

  /** Only processor c moves, and only in its migration. */
  ghost predicate By(moves: seq<Move>, c: nat) { forall k :: 0 <= k < |moves| ==> OfMigration(moves[k], c) }

  predicate OfMigration(m: Move, c: nat) { m.cpu == c && !m.event.Wake? && !m.event.Next? }

  lemma {:induction false} RunConcat(s: State, a: seq<Move>, b: seq<Move>)
    ensures Run(s, a + b) == Run(Run(s, a), b)
    decreases b
  {
    if b == [] {
      assert a + b == a;
    } else {
      assert (a + b)[..|a + b| - 1] == a + b[..|b| - 1];
      RunConcat(s, a, b[..|b| - 1]);
    }
  }

  lemma RunThen(s: State, a: seq<Move>, c: nat, ev: Event)
    requires By(a, c) && OfMigration(Move(c, ev), c) && Sizes(Run(s, a)) && c < |Run(s, a).queues|
    ensures By(a + [Move(c, ev)], c) && Run(s, a + [Move(c, ev)]) == Step(Run(s, a), c, ev)
  {
    var b := a + [Move(c, ev)];
    assert b[..|b| - 1] == a;
  }

  // ------------------------------------------------------------------------ counting

  lemma {:induction false} TotalNext(qs: seq<seq<Thread>>, q: seq<Thread>)
    ensures Total(qs + [q]) == Total(qs) + |q|
  {
    if qs == [] {
      assert qs + [q] == [q] && [q][1..] == [];
    } else {
      assert (qs + [q])[1..] == qs[1..] + [q];
      TotalNext(qs[1..], q);
    }
  }

  /** What processor c knows when it has counted k queues. */
  function Counted(qs: seq<seq<Thread>>, c: nat, k: nat): Local
    requires c < |qs| && k <= |qs|
  {
    Counting(k, if k > c then |qs[c]| else 0, Total(qs[..k]))
  }

  lemma {:induction false} Counts(s: State, c: nat, k: nat) returns (moves: seq<Move>)
    requires Sizes(s) && c < |s.queues| && s.local[c] == Quiet && k <= |s.queues|
    ensures By(moves, c) && Run(s, moves) == s.(local := s.local[c := Counted(s.queues, c, k)])
    decreases k
  {
    if k == 0 {
      moves := [Move(c, Begin)];
      assert moves[..0] == [] && Run(s, []) == s;
      assert s.queues[..0] == [];
    } else {
      var before := Counts(s, c, k - 1);
      RunThen(s, before, c, Count);
      moves := before + [Move(c, Count)];
      assert s.queues[..k] == s.queues[..k - 1] + [s.queues[k - 1]];
      TotalNext(s.queues[..k - 1], s.queues[k - 1]);
      CountStep(s, c, k);
    }
  }

  lemma CountStep(s: State, c: nat, k: nat)
    requires Sizes(s) && c < |s.queues| && 0 < k <= |s.queues|
    requires Total(s.queues[..k]) == Total(s.queues[..k - 1]) + |s.queues[k - 1]|
    ensures var t := s.(local := s.local[c := Counted(s.queues, c, k - 1)]);
            Step(t, c, Count) == s.(local := s.local[c := Counted(s.queues, c, k)])
  {
    var t := s.(local := s.local[c := Counted(s.queues, c, k - 1)]);
    assert t.local[c := Counted(s.queues, c, k)] == s.local[c := Counted(s.queues, c, k)];
  }

  // ------------------------------------------------------------------------- filling

  /** Where the loop over the other processors is: the queues were q0 and the list `victims`. */
  datatype Loop = Loop(q0: seq<seq<Thread>>, victims: seq<Thread>, all: multiset<Thread>, me: nat, cur: Thread,
                       share: nat)

  ghost predicate At(loop: Loop, queues: seq<seq<Thread>>, left: seq<Thread>, i: nat, toSend: nat) {
    && Underway(loop.q0, queues, loop.me, loop.share, loop.cur, i, left, toSend, loop.all)
    && DealtTo(loop.q0, queues, loop.me, loop.share, loop.cur, loop.victims, i, left, toSend)
  }

  ghost predicate Handing(loop: Loop, s: State) {
    && Sizes(s) && loop.me < |s.queues| && s.cur[loop.me] == loop.cur
    && match s.local[loop.me]
       case Sending(i, share, toSend) => share == loop.share && At(loop, s.queues, s.victims[loop.me], i, toSend)
       case _ => false
  }

  lemma PassesOver(loop: Loop, queues: seq<seq<Thread>>, left: seq<Thread>, toSend: nat)
    requires loop.me < |queues| && At(loop, queues, left, loop.me, toSend)
    ensures At(loop, queues, left, loop.me + 1, toSend)
  {
    DealtSkip(loop.q0, queues, loop.me, loop.share, loop.cur, loop.victims, loop.me, left, toSend);
    RoomSame(queues, queues, loop.me, loop.share, loop.me + 1);
  }

  lemma GoesOn(loop: Loop, queues: seq<seq<Thread>>, had: seq<Thread>, i: nat, toSend: nat, moved: seq<Thread>,
               left: seq<Thread>, more: nat)
    requires i < |queues| && i != loop.me && toSend > 0 && At(loop, queues, had, i, toSend)
    requires InOrder(had, toSend, loop.cur, moved, left, more) && FillOk(had, toSend, loop.cur, moved, left, more)
    requires UpToShare(|queues[i]|, loop.share, moved, more)
    ensures At(loop, queues[i := queues[i] + moved], left, i + 1, more)
  {
    UnderwayNext(loop.q0, queues, loop.me, loop.share, loop.cur, i, had, toSend, loop.all, moved, left, more);
    DealtNext(loop.q0, queues, loop.me, loop.share, loop.cur, loop.victims, i, had, toSend, moved, left, more);
  }

  /** Nothing but the queues, t_cpu and what belongs to processor c differs. */
  ghost predicate OnlyOf(c: nat, s: State, s': State) {
    && Sizes(s) && Sizes(s') && |s'.queues| == |s.queues| && c < |s.queues| && s'.cur == s.cur
    && (forall d :: 0 <= d < |s.queues| && d != c ==> s'.victims[d] == s.victims[d] && s'.local[d] == s.local[d])
  }

  /** There is a next fill, and it goes on as the loop does. */
  lemma NextFill(loop: Loop, s: State) returns (ev: Event)
    requires Handing(loop, s) && s.local[loop.me].i < |s.queues| && s.local[loop.me].toSend > 0
    ensures var s', c := Step(s, loop.me, ev), loop.me;
            Handing(loop, s') && OnlyOf(c, s, s') && s'.local[c].i == s.local[c].i + 1
    ensures ev.Fill?
  {
    var c := loop.me;
    var i, toSend := s.local[c].i, s.local[c].toSend;
    if i == c {
      ev := Fill([], [], 0);
      PassesOver(loop, s.queues, s.victims[c], toSend);
    } else {
      var moved, left, more := OneFill(|s.queues[i]|, loop.share, s.victims[c], toSend, loop.cur);
      ev := Fill(moved, left, more);
      FillStep(s, c, i, loop.share, toSend, moved, left, more);
      GoesOn(loop, s.queues, s.victims[c], i, toSend, moved, left, more);
      FilledHands(loop, s, i, moved, left, more);
    }
  }

  lemma FilledHands(loop: Loop, s: State, i: nat, moved: seq<Thread>, left: seq<Thread>, more: nat)
    requires Sizes(s) && loop.me < |s.queues| && s.cur[loop.me] == loop.cur && i < |s.queues|
    requires At(loop, s.queues[i := s.queues[i] + moved], left, i + 1, more)
    ensures var s' := Filled(s, loop.me, i, moved, left, Sending(i + 1, loop.share, more));
            Handing(loop, s') && OnlyOf(loop.me, s, s')
  {
  }

  lemma FillStep(s: State, c: nat, i: nat, share: nat, toSend: nat, moved: seq<Thread>, left: seq<Thread>, more: nat)
    requires Sizes(s) && c < |s.queues| && s.local[c] == Sending(i, share, toSend) && i < |s.queues| && i != c
    requires toSend > 0 && InOrder(s.victims[c], toSend, s.cur[c], moved, left, more)
    requires StopsAt(|s.queues[i]|, share, s.victims[c], toSend, s.cur[c], more)
    ensures Step(s, c, Fill(moved, left, more)) == Filled(s, c, i, moved, left, Sending(i + 1, share, more))
  {
    FillIsNext(s, c, i, share, toSend, moved, left, more);
  }

  lemma FillIsNext(s: State, c: nat, i: nat, share: nat, toSend: nat, moved: seq<Thread>, left: seq<Thread>, more: nat)
    requires Sizes(s) && c < |s.queues| && s.local[c] == Sending(i, share, toSend)
    ensures Step(s, c, Fill(moved, left, more)) == FillNext(s, c, i, share, toSend, moved, left, more)
  {
  }

  lemma OneFill(had: nat, share: nat, victims: seq<Thread>, toSend: nat, cur: Thread)
    returns (moved: seq<Thread>, left: seq<Thread>, more: nat)
    requires toSend <= |victims| && AllAre(victims[toSend..], cur)
    ensures InOrder(victims, toSend, cur, moved, left, more) && StopsAt(had, share, victims, toSend, cur, more)
    ensures FillOk(victims, toSend, cur, moved, left, more) && UpToShare(had, share, moved, more)
  {
    more := StopsSomewhere(had, share, victims, toSend, cur, toSend);
    moved := Others(victims[..toSend - more], cur);
    left := victims[toSend - more..] + Selves(victims[..toSend - more], cur);
    DealtFills(victims, toSend, cur, moved, left, more);
    StopsUpToShare(had, share, victims, toSend, cur, moved, left, more);
  }

  /** What a fill does is determined: two that take place are the same. */
  lemma FillDetermined(s: State, c: nat, e: Event, f: Event)
    requires Sizes(s) && c < |s.queues| && e.Fill? && f.Fill?
    requires Step(s, c, e) != s && Step(s, c, f) != s
    ensures Step(s, c, e) == Step(s, c, f)
  {
    var i, toSend := s.local[c].i, s.local[c].toSend;
    if i != c {
      StopsOnce(|s.queues[i]|, s.local[c].share, s.victims[c], toSend, s.cur[c], e.more, f.more);
    }
  }

  /** The loop over the other processors comes to its end with every victim looked at. */
  lemma {:induction false} Fills(loop: Loop, s: State) returns (moves: seq<Move>)
    requires Handing(loop, s)
    ensures By(moves, loop.me)
    ensures var s' := Run(s, moves); Handing(loop, s') && OnlyOf(loop.me, s, s') && s'.local[loop.me].toSend == 0
    decreases |s.queues| - s.local[loop.me].i
  {
    var c := loop.me;
    if s.local[c].toSend == 0 || s.local[c].i == |s.queues| {
      moves := [];
    } else {
      var ev := NextFill(loop, s);
      var t, first := Step(s, c, ev), [Move(c, ev)];
      assert Run(s, []) == s && [] + first == first;
      RunThen(s, [], c, ev);
      var rest := Fills(loop, t);
      moves := first + rest;
      RunConcat(s, first, rest);
    }
  }

  // -------------------------------------------------------------- the whole of it, alone

  /** Counting, then deciding. */
  lemma Decides(s: State, c: nat) returns (moves: seq<Move>)
    requires Inv(s) && c < |s.queues| && s.local[c] == Quiet
    ensures By(moves, c)
    ensures var share := DivRoundUp(Total(s.queues), |s.queues|);
            Run(s, moves) == if |s.queues[c]| < share then s else Cut(s, c, share)
  {
    var before := Counts(s, c, |s.queues|);
    assert s.queues[..|s.queues|] == s.queues;
    RunThen(s, before, c, Decide);
    moves := before + [Move(c, Decide)];
    var t := s.(local := s.local[c := Counted(s.queues, c, |s.queues|)]);
    DecideStep(s, t, c);
  }

  /** The victims are the tail of the own queue, above the share. */
  function Cut(s: State, c: nat, share: nat): State
    requires Sizes(s) && c < |s.queues| && share <= |s.queues[c]|
  {
    s.(queues := s.queues[c := s.queues[c][..share]], victims := s.victims[c := s.queues[c][share..]],
       local := s.local[c := Sending(0, share, |s.queues[c]| - share)])
  }

  lemma DecideStep(s: State, t: State, c: nat)
    requires Sizes(s) && c < |s.queues| && s.local[c] == Quiet
    requires t == s.(local := s.local[c := Counting(|s.queues|, |s.queues[c]|, Total(s.queues))])
    ensures var share := DivRoundUp(Total(s.queues), |s.queues|);
            Step(t, c, Decide) == if |s.queues[c]| < share then s else Cut(s, c, share)
  {
    var share := DivRoundUp(Total(s.queues), |s.queues|);
    assert t.local[c := Quiet] == s.local;
    if |s.queues[c]| >= share {
      var l := Sending(0, share, |s.queues[c]| - share);
      assert t.local[c := l] == s.local[c := l];
    }
  }

  function LoopOf(s: State, c: nat, share: nat): Loop
    requires Sizes(s) && c < |s.queues| && share <= |s.queues[c]|
  {
    Loop(Cut(s, c, share).queues, s.queues[c][share..], AllOf(s.queues), c, s.cur[c], share)
  }

  lemma CutHands(s: State, c: nat, share: nat)
    requires Inv(s) && c < |s.queues| && share <= |s.queues[c]| && share * |s.queues| >= Total(s.queues)
    ensures Handing(LoopOf(s, c, share), Cut(s, c, share)) && OnlyOf(c, s, Cut(s, c, share))
    ensures AllOf(Cut(s, c, share).queues) + multiset(s.queues[c][share..]) == AllOf(s.queues)
  {
    var t, victims := Cut(s, c, share), s.queues[c][share..];
    assert t.queues[c] + victims == s.queues[c];
    TookFrom(s.queues, c, share, victims, t.queues);
    NothingDealt(t.queues, c, share, s.cur[c], victims);
  }

  lemma QueuesOnce(s: State)
    requires Inv(s)
    ensures AtMostOnce(AllOf(s.queues))
  {
    forall t ensures AllOf(s.queues)[t] <= 1 {
      assert Everyone(s)[t] == AllOf(s.queues)[t] + AllOf(s.victims)[t];
    }
  }

  /** The queues once the leftovers are back. */
  lemma PutBackQueues(s: State, c: nat, share: nat, queues: seq<seq<Thread>>, left: seq<Thread>, i: nat)
    requires Inv(s) && c < |s.queues| && |s.queues[c]| >= share
    requires At(LoopOf(s, c, share), queues, left, i, 0)
    requires AllOf(Cut(s, c, share).queues) + multiset(s.queues[c][share..]) == AllOf(s.queues)
    ensures |queues| == |s.queues|
    ensures var queues' := queues[c := queues[c] + left];
            && Balanced(s.queues, queues', c, share, s.cur[c])
            && Dealt(s.queues, queues', c, share, s.cur[c], s.queues[c][share..])
  {
    var q1, victims := Cut(s, c, share).queues, s.queues[c][share..];
    assert left[0..] == left;
    QueuesOnce(s);
    PutBackResult(s.queues, q1, queues, c, share, s.cur[c], victims, left);
    DealtDone(q1, queues, c, share, s.cur[c], victims, i, left, 0);
    DealtBack(s.queues, q1, queues, queues[c := queues[c] + left], c, share, s.cur[c], victims);
  }

  /** Putting the leftovers back ends the migration of processor c. */
  lemma Finishes(s: State, t: State, c: nat, share: nat)
    requires Inv(s) && c < |s.queues| && s.local[c] == Quiet && |s.queues[c]| >= share
    requires Handing(LoopOf(s, c, share), t) && OnlyOf(c, s, t) && t.local[c].toSend == 0
    requires AllOf(Cut(s, c, share).queues) + multiset(s.queues[c][share..]) == AllOf(s.queues)
    ensures var s' := Step(t, c, Finish);
            && Balanced(s.queues, s'.queues, c, share, s.cur[c])
            && Dealt(s.queues, s'.queues, c, share, s.cur[c], s.queues[c][share..])
            && s'.victims == s.victims && s'.local == s.local && s'.cur == s.cur
  {
    PutBackQueues(s, c, share, t.queues, t.victims[c], t.local[c].i);
    var s' := Step(t, c, Finish);
    assert LocalOk(s, c);
    assert s'.victims == s.victims && s'.local == s.local;
  }

  /** From the decision to the end. */
  lemma HandsOver(s: State, c: nat, share: nat) returns (moves: seq<Move>)
    requires Inv(s) && c < |s.queues| && s.local[c] == Quiet && share <= |s.queues[c]|
    requires share * |s.queues| >= Total(s.queues)
    ensures By(moves, c)
    ensures var s' := Run(Cut(s, c, share), moves);
            && Balanced(s.queues, s'.queues, c, share, s.cur[c])
            && Dealt(s.queues, s'.queues, c, share, s.cur[c], s.queues[c][share..])
            && s'.victims == s.victims && s'.local == s.local && s'.cur == s.cur
  {
    var t := Cut(s, c, share);
    CutHands(s, c, share);
    var fills := Fills(LoopOf(s, c, share), t);
    Finishes(s, Run(t, fills), c, share);
    RunThen(t, fills, c, Finish);
    moves := fills + [Move(c, Finish)];
  }

  /** Alone, the steps of a migration take place, and they leave the queues as
      ConsiderMigration does: the own queue cut down to the ceiling of the average, the
      others filled up to it from its tail, in order. */
  lemma AloneBalances(s: State, c: nat) returns (moves: seq<Move>)
    requires Inv(s) && c < |s.queues| && s.local[c] == Quiet
    ensures By(moves, c)
    ensures var s', share := Run(s, moves), DivRoundUp(Total(s.queues), |s.queues|);
            && s'.victims == s.victims && s'.local == s.local && s'.cur == s.cur
            && if |s.queues[c]| < share then s'.queues == s.queues
               else Balanced(s.queues, s'.queues, c, share, s.cur[c])
                    && Dealt(s.queues, s'.queues, c, share, s.cur[c], s.queues[c][share..])
  {
    var share := DivRoundUp(Total(s.queues), |s.queues|);
    moves := Decides(s, c);
    if |s.queues[c]| >= share {
      var rest := HandsOver(s, c, share);
      RunConcat(s, moves, rest);
      moves := moves + rest;
    }
  }

  // ------------------------------------------------- each step, whatever else goes on

  /** A run of migrations alone keeps every thread. */
  lemma {:induction false} MigrationsConserve(s: State, moves: seq<Move>)
    requires Inv(s) && forall k :: 0 <= k < |moves| ==> OfMigration(moves[k], moves[k].cpu)
    ensures Inv(Run(s, moves)) && Everyone(Run(s, moves)) == Everyone(s)
  {
    if moves != [] {
      MigrationsConserve(s, moves[..|moves| - 1]);
      var t, m := Run(s, moves[..|moves| - 1]), moves[|moves| - 1];
      assert OfMigration(m, m.cpu);
      if m.cpu < |t.queues| { StepKeepsInv(t, m.cpu, m.event); }
    }
  }

  /** A thread is woken once: afterwards it is queued, at the end of the queue of the
      processor it names unless it was on some queue or list already. */
  lemma WakeQueues(s: State, c: nat, t: Thread)
    requires Inv(s) && c < |s.queues| && t in s.cpuOf && s.cpuOf[t] < |s.queues|
    ensures var s' := Step(s, c, Wake(t));
            && Everyone(s') == Everyone(s)[t := 1] && s'.cur == s.cur
            && (t !in Everyone(s) ==> s'.queues[s.cpuOf[t]] == s.queues[s.cpuOf[t]] + [t])
  {
    var s' := Step(s, c, Wake(t));
    if t in Everyone(s) {
      assert Everyone(s)[t] == 1;
    } else {
      AppendToQueue(s.queues, s.cpuOf[t], [t]);
      assert Everyone(s') == Everyone(s) + multiset{t};
    }
  }

  /** A processor that is not migrating takes the thread at the head of its queue, the one
      there longest, and only that one leaves the queues. */
  lemma NextTakesHead(s: State, c: nat)
    requires Inv(s) && c < |s.queues| && s.local[c] == Quiet && s.queues[c] != []
    ensures var s' := Step(s, c, Next);
            && s.queues[c] == [s'.cur[c]] + s'.queues[c] && Everyone(s) == Everyone(s') + multiset{s'.cur[c]}
            && forall d :: 0 <= d < |s.queues| && d != c ==> s'.queues[d] == s.queues[d] && s'.cur[d] == s.cur[d]
  {
    var s' := Step(s, c, Next);
    DropHead(s.queues, c);
    MoveAcross(AllOf(s'.queues), multiset{s'.cur[c]}, AllOf(s.victims));
  }

  /** Threads join a queue at its end, and leave it at its head to run or from its end to
      migrate. */
  lemma QueueDiscipline(s: State, c: nat, ev: Event, q: nat)
    requires Inv(s) && c < |s.queues| && q < |s.queues|
    ensures var s' := Step(s, c, ev);
            || s.queues[q] <= s'.queues[q]
            || (q == c && s.queues[q] == [s'.cur[c]] + s'.queues[q])
            || (q == c && s.queues[q] == s'.queues[q] + s'.victims[c])
  {
  }

  /** t_cpu of a thread changes only with its move from the list of one processor to the
      queue of another. */
  lemma NamesNewQueue(s: State, c: nat, ev: Event, t: Thread)
    requires Inv(s) && c < |s.queues| && t in s.cpuOf
    ensures var s' := Step(s, c, ev);
            && s'.cpuOf.Keys == s.cpuOf.Keys
            && (s'.cpuOf[t] != s.cpuOf[t] ==>
                  t in s.victims[c] && s'.cpuOf[t] < |s'.queues| && t in s'.queues[s'.cpuOf[t]])
  {
    var s' := Step(s, c, ev);
    if ev.Fill? {
      FillCases(s, c, ev.moved, ev.left, ev.more);
      if s'.cpuOf[t] != s.cpuOf[t] {
        assert LocalOk(s, c);
        MovedWere(s.victims[c], s.local[c].toSend, s.cur[c], ev.moved, ev.left, ev.more, t);
      }
    }
  }

  lemma MovedWere(victims: seq<Thread>, toSend: nat, cur: Thread, moved: seq<Thread>, left: seq<Thread>, more: nat,
                  t: Thread)
    requires InOrder(victims, toSend, cur, moved, left, more) && AllAre(victims[toSend..], cur) && t in moved
    ensures t in victims
  {
    DealtFills(victims, toSend, cur, moved, left, more);
    assert multiset(moved)[t] > 0;
    assert multiset(victims)[t] > 0;
  }
}
