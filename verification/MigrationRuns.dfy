/** Migration while everything else goes on: processors count, take, hand over and put
    back threads one locked section at a time, several may migrate at once, threads are
    woken and run meanwhile, and still none is lost, doubled or misplaced.

    Source: kern/thread/thread.c (thread_consider_migration, thread_make_runnable, the
    choice of the next thread in thread_switch). */
module MigrationRuns {
  import opened Migration

  /** Where processor c is in thread_consider_migration. */
  datatype Local =
    | Quiet                                          // not in it
    | Counting(i: nat, mine: nat, total: nat)        // queues below i are counted
    | Sending(i: nat, share: nat, toSend: nat)       // queues below i are filled

  /** Run queues, the victim list each processor holds, t_cpu, and current threads. */
  datatype State = State(queues: seq<seq<Thread>>, victims: seq<seq<Thread>>, cpuOf: map<Thread, nat>,
                         cur: seq<Thread>, local: seq<Local>)

  datatype Event =
    | Begin                                                       // the timer calls it
    | Count                                                       // one queue, under its lock
    | Decide                                                      // the share, and the victims taken
    | Fill(moved: seq<Thread>, left: seq<Thread>, more: nat)      // one queue filled, under its lock
    | Finish                                                      // leftovers put back
    | Wake(t: Thread)                                             // a sleeping thread made runnable
    | Next                                                        // the head of the queue runs

  /** All threads on a queue or in a victim list. */
  function Everyone(s: State): multiset<Thread> { AllOf(s.queues) + AllOf(s.victims) }

  predicate Sizes(s: State) { |s.victims| == |s.cur| == |s.local| == |s.queues| }

  function Moved(cpuOf: map<Thread, nat>, moved: seq<Thread>, i: nat): map<Thread, nat> {
    map t | t in cpuOf :: if t in moved then i else cpuOf[t]
  }

  /** Threads moved from the list of processor c to the queue of processor i. */
  function Filled(s: State, c: nat, i: nat, moved: seq<Thread>, left: seq<Thread>, l: Local): State
    requires Sizes(s) && c < |s.queues| && i < |s.queues|
  {
    s.(queues := s.queues[i := s.queues[i] + moved], victims := s.victims[c := left],
       cpuOf := Moved(s.cpuOf, moved, i), local := s.local[c := l])
  }

  /** The next queue filled, or passed over if it is the own one. */
  function FillNext(s: State, c: nat, i: nat, share: nat, toSend: nat, moved: seq<Thread>, left: seq<Thread>,
                    more: nat): State
    requires Sizes(s) && c < |s.queues|
  {
    if i >= |s.queues| || toSend == 0 then s
    else if i == c then s.(local := s.local[c := Sending(i + 1, share, toSend)])
    else if !InOrder(s.victims[c], toSend, s.cur[c], moved, left, more) ||
      !StopsAt(|s.queues[i]|, share, s.victims[c], toSend, s.cur[c], more) then s
    else Filled(s, c, i, moved, left, Sending(i + 1, share, more))
  }

  /** A step of processor c; the same state where the event cannot happen. */
  function Step(s: State, c: nat, ev: Event): State
    requires Sizes(s) && c < |s.queues|
  {
    match (ev, s.local[c])
    case (Begin, Quiet) => s.(local := s.local[c := Counting(0, 0, 0)])
    case (Count, Counting(i, mine, total)) =>
      if i >= |s.queues| then s
      else
        var n := |s.queues[i]|;
        s.(local := s.local[c := Counting(i + 1, if i == c then n else mine, total + n)])
    case (Decide, Counting(i, mine, total)) =>
      if i < |s.queues| then s
      else
        var share := DivRoundUp(total, |s.queues|);
        if mine < share || mine - share > |s.queues[c]| then s.(local := s.local[c := Quiet])
        else
          var keep := |s.queues[c]| - (mine - share);
          s.(queues := s.queues[c := s.queues[c][..keep]], victims := s.victims[c := s.queues[c][keep..]],
             local := s.local[c := Sending(0, share, mine - share)])
    case (Fill(moved, left, more), Sending(i, share, toSend)) => FillNext(s, c, i, share, toSend, moved, left, more)
    case (Finish, Sending(i, share, toSend)) =>
      if i < |s.queues| && toSend > 0 then s
      else
        s.(queues := s.queues[c := s.queues[c] + s.victims[c]], victims := s.victims[c := []],
           local := s.local[c := Quiet])
    case (Wake(t), _) =>
      if t !in s.cpuOf || s.cpuOf[t] >= |s.queues| || t in Everyone(s) then s
      else s.(queues := s.queues[s.cpuOf[t] := s.queues[s.cpuOf[t]] + [t]])
    case (Next, Quiet) =>
      if s.queues[c] == [] then s
      else s.(cur := s.cur[c := s.queues[c][0]], queues := s.queues[c := s.queues[c][1..]])
    case _ => s
  }

  /** A processor that has counted its own queue will find at least that many on it: only
      it takes threads off. Its victims are its own, and enough for what is to send. */
  ghost predicate LocalOk(s: State, c: nat)
    requires Sizes(s) && c < |s.queues|
  {
    && (forall t :: t in s.victims[c] ==> t in s.cpuOf && s.cpuOf[t] == c)
    && match s.local[c]
       case Quiet => s.victims[c] == []
       case Counting(i, mine, _) => s.victims[c] == [] && i <= |s.queues| &&
         mine <= (if i > c then |s.queues[c]| else 0)
       case Sending(i, _, toSend) => toSend <= |s.victims[c]| && AllAre(s.victims[c][toSend..], s.cur[c])
  }

  /** No thread twice, each on the queue of the processor it names. */
  ghost predicate Inv(s: State) {
    && Sizes(s) && |s.queues| > 0
    && AtMostOnce(Everyone(s)) && PlacedIn(s.queues, s.cpuOf)
    && forall c :: 0 <= c < |s.queues| ==> LocalOk(s, c)
  }

  lemma {:induction false} Empty(vs: seq<seq<Thread>>)
    requires forall c :: 0 <= c < |vs| ==> vs[c] == []
    ensures AllOf(vs) == multiset{}
  {
    if vs != [] { Empty(vs[1..]); }
  }

  /** With no migration under way, each thread queued once, where it says, is enough. */
  lemma QuietStart(s: State)
    requires Sizes(s) && |s.queues| > 0 && AtMostOnce(AllOf(s.queues)) && PlacedIn(s.queues, s.cpuOf)
    requires forall c :: 0 <= c < |s.queues| ==> s.local[c] == Quiet && s.victims[c] == []
    ensures Inv(s)
  {
    Empty(s.victims);
    assert Everyone(s) == AllOf(s.queues);
  }

  /** A thread in two places would count twice. */
  lemma Elsewhere(s: State, q: nat, c: nat, t: Thread)
    requires Inv(s) && q < |s.queues| && c < |s.victims| && t in s.queues[q]
    ensures t !in s.victims[c]
  {
    OnSomeQueue(s.queues, q, t);
    assert Everyone(s)[t] == AllOf(s.queues)[t] + AllOf(s.victims)[t];
    if t in s.victims[c] { OnSomeQueue(s.victims, c, t); }
  }

  lemma {:induction false} TwoLists(vs: seq<seq<Thread>>, c: nat, d: nat, t: Thread)
    requires c < d < |vs| && t in vs[c] && t in vs[d]
    ensures AllOf(vs)[t] > 1
  {
    if c == 0 {
      OnSomeQueue(vs[1..], d - 1, t);
      assert multiset(vs[0])[t] > 0;
    } else {
      TwoLists(vs[1..], c - 1, d - 1, t);
    }
  }

  lemma OtherList(s: State, c: nat, d: nat, t: Thread)
    requires Inv(s) && c < |s.victims| && d < |s.victims| && c != d && t in s.victims[c]
    ensures t !in s.victims[d]
  {
    assert Everyone(s)[t] == AllOf(s.queues)[t] + AllOf(s.victims)[t];
    if t in s.victims[d] {
      if c < d { TwoLists(s.victims, c, d, t); } else { TwoLists(s.victims, d, c, t); }
    }
  }

  /** The steps that move no thread. */
  lemma CountKeeps(s: State, c: nat, ev: Event)
    requires Inv(s) && c < |s.queues| && (ev == Begin || ev == Count)
    ensures Inv(Step(s, c, ev)) && Everyone(Step(s, c, ev)) == Everyone(s)
  {
    var s' := Step(s, c, ev);
    assert LocalOk(s, c);
    forall d | 0 <= d < |s'.queues| ensures LocalOk(s', d) { assert LocalOk(s, d); }
  }

  /** Cutting a queue in two and keeping the end in an empty list loses nobody. */
  lemma CutQueue(queues: seq<seq<Thread>>, lists: seq<seq<Thread>>, c: nat, keep: nat)
    requires c < |queues| == |lists| && keep <= |queues[c]| && lists[c] == []
    ensures AllOf(queues[c := queues[c][..keep]]) + AllOf(lists[c := queues[c][keep..]]) == AllOf(queues) + AllOf(lists)
  {
    var q, cut := queues[c], queues[c := queues[c][..keep]];
    assert q == q[..keep] + q[keep..];
    AppendToQueue(cut, c, q[keep..]);
    assert cut[c := cut[c] + q[keep..]] == queues;
    assert lists[c] + q[keep..] == q[keep..];
    AppendToQueue(lists, c, q[keep..]);
  }

  /** And appending a list to a queue and emptying it gains nobody. */
  lemma JoinQueue(queues: seq<seq<Thread>>, lists: seq<seq<Thread>>, c: nat)
    requires c < |queues| == |lists|
    ensures AllOf(queues[c := queues[c] + lists[c]]) + AllOf(lists[c := []]) == AllOf(queues) + AllOf(lists)
  {
    var v, none := lists[c], lists[c := []];
    AppendToQueue(queues, c, v);
    AppendToQueue(none, c, v);
    assert none[c] + v == v;
    assert none[c := none[c] + v] == lists;
    MoveAcross(AllOf(queues), multiset(v), AllOf(none));
  }

  lemma MoveAcross(a: multiset<Thread>, v: multiset<Thread>, b: multiset<Thread>)
    ensures (a + v) + b == a + (b + v)
  {
  }

  lemma DropHead(queues: seq<seq<Thread>>, c: nat)
    requires c < |queues| && queues[c] != []
    ensures AllOf(queues[c := queues[c][1..]]) + multiset{queues[c][0]} == AllOf(queues)
  {
    var q := queues[c];
    HeadAndRest(q);
    AllOfUpdate(queues, c, q[1..]);
    var rest := AllOf(queues[c := q[1..]]);
    assert (rest + multiset{q[0]}) + multiset(q[1..]) == rest + multiset(q);
    Cancel(rest + multiset{q[0]}, AllOf(queues), multiset(q[1..]));
  }

  /** Taking: never from an empty queue, and the end of the queue becomes the list. */
  lemma DecideKeeps(s: State, c: nat)
    requires Inv(s) && c < |s.queues|
    ensures Inv(Step(s, c, Decide)) && Everyone(Step(s, c, Decide)) == Everyone(s)
    ensures s.local[c].Counting? ==> s.local[c].mine <= |s.queues[c]|
  {
    var s' := Step(s, c, Decide);
    assert LocalOk(s, c);
    if s'.local[c].Sending? && s.local[c].Counting? {
      var keep := |s'.queues[c]|;
      Taken(s, c, keep, s'.local[c]);
      assert s' == s.(queues := s.queues[c := s.queues[c][..keep]], victims := s.victims[c := s.queues[c][keep..]],
                      local := s.local[c := s'.local[c]]);
    } else {
      forall d | 0 <= d < |s'.queues| ensures LocalOk(s', d) { assert LocalOk(s, d); }
    }
  }

  lemma Taken(s: State, c: nat, keep: nat, l: Local)
    requires Inv(s) && c < |s.queues| && s.local[c].Counting? && keep <= |s.queues[c]|
    requires l.Sending? && l.toSend == |s.queues[c]| - keep
    ensures var s' := s.(queues := s.queues[c := s.queues[c][..keep]], victims := s.victims[c := s.queues[c][keep..]],
                         local := s.local[c := l]);
            Inv(s') && Everyone(s') == Everyone(s)
  {
    var s' := s.(queues := s.queues[c := s.queues[c][..keep]], victims := s.victims[c := s.queues[c][keep..]],
                 local := s.local[c := l]);
    assert LocalOk(s, c);
    CutQueue(s.queues, s.victims, c, keep);
    CutPlaced(s.queues, s.cpuOf, c, keep);
    forall d | 0 <= d < |s'.queues| ensures LocalOk(s', d) {
      assert LocalOk(s, d);
      if d == c { assert s'.victims[c][l.toSend..] == []; }
    }
  }

  lemma CutPlaced(queues: seq<seq<Thread>>, cpuOf: map<Thread, nat>, c: nat, keep: nat)
    requires PlacedIn(queues, cpuOf) && c < |queues| && keep <= |queues[c]|
    ensures PlacedIn(queues[c := queues[c][..keep]], cpuOf)
    ensures forall t :: t in queues[c][keep..] ==> t in cpuOf && cpuOf[t] == c
  {
    forall t | t in queues[c][..keep] ensures t in queues[c] {}
    forall t | t in queues[c][keep..] ensures t in queues[c] {}
  }

  lemma FillPlaces(s: State, c: nat, i: nat, moved: seq<Thread>)
    requires Inv(s) && c < |s.queues| && i < |s.queues| && i != c
    requires multiset(moved) <= multiset(s.victims[c])
    ensures PlacedIn(s.queues[i := s.queues[i] + moved], Moved(s.cpuOf, moved, i))
  {
    assert LocalOk(s, c);
    forall t | t in moved ensures t in s.victims[c] { assert multiset(moved)[t] > 0; }
    forall q, t | 0 <= q < |s.queues| && t in s.queues[q] ensures t !in moved { Elsewhere(s, q, c, t); }
  }

  lemma FillLocals(s: State, c: nat, i: nat, toSend: nat, moved: seq<Thread>, left: seq<Thread>, more: nat, l: Local,
                   d: nat)
    requires Inv(s) && c < |s.queues| && i < |s.queues| && i != c && d < |s.queues| && s.local[c].Sending?
    requires FillOk(s.victims[c], toSend, s.cur[c], moved, left, more) && l.Sending? && l.toSend == more
    ensures LocalOk(Filled(s, c, i, moved, left, l), d)
  {
    assert LocalOk(s, c) && LocalOk(s, d);
    assert multiset(moved) <= multiset(s.victims[c]);
    forall t | t in moved ensures t in s.victims[c] { assert multiset(moved)[t] > 0; }
    if d == c {
      forall t | t in left ensures t in s.victims[c] && t !in moved { SplitList(s, c, moved, left, t); }
    } else {
      forall t | t in s.victims[d] ensures t !in moved {
        if t in moved { OtherList(s, c, d, t); }
      }
    }
  }

  /** A thread that stays in the list did not move as well. */
  lemma SplitList(s: State, c: nat, moved: seq<Thread>, left: seq<Thread>, t: Thread)
    requires Inv(s) && c < |s.victims| && multiset(moved) + multiset(left) == multiset(s.victims[c]) && t in left
    ensures t in s.victims[c] && t !in moved
  {
    assert multiset(left)[t] > 0 && multiset(s.victims[c])[t] == multiset(moved)[t] + multiset(left)[t];
    CountInList(s.victims, c, t);
    assert Everyone(s)[t] == AllOf(s.queues)[t] + AllOf(s.victims)[t];
  }

  lemma {:induction false} CountInList(vs: seq<seq<Thread>>, c: nat, t: Thread)
    requires c < |vs|
    ensures multiset(vs[c])[t] <= AllOf(vs)[t]
  {
    if c > 0 { CountInList(vs[1..], c - 1, t); }
  }

  lemma FilledKeeps(s: State, c: nat, i: nat, toSend: nat, moved: seq<Thread>, left: seq<Thread>, more: nat, l: Local)
    requires Inv(s) && c < |s.queues| && i < |s.queues| && i != c && s.local[c].Sending?
    requires FillOk(s.victims[c], toSend, s.cur[c], moved, left, more) && l.Sending? && l.toSend == more
    ensures Inv(Filled(s, c, i, moved, left, l)) && Everyone(Filled(s, c, i, moved, left, l)) == Everyone(s)
  {
    var s' := Filled(s, c, i, moved, left, l);
    FillPlaces(s, c, i, moved);
    AppendToQueue(s.queues, i, moved);
    AllOfUpdate(s.victims, c, left);
    Handover(AllOf(s.queues), AllOf(s.victims), AllOf(s'.victims), s.victims[c], moved, left);
    forall d | 0 <= d < |s'.queues| ensures LocalOk(s', d) { FillLocals(s, c, i, toSend, moved, left, more, l, d); }
  }

  /** A fill does nothing, passes over its own processor, or moves threads. */
  ghost predicate FillEffect(s: State, c: nat, moved: seq<Thread>, left: seq<Thread>, more: nat, s': State)
    requires Sizes(s) && c < |s.queues|
  {
    s' == s || match s.local[c]
               case Sending(i, share, toSend) =>
                 || s' == s.(local := s.local[c := Sending(i + 1, share, toSend)])
                 || (i < |s.queues| && i != c && InOrder(s.victims[c], toSend, s.cur[c], moved, left, more)
                     && s' == Filled(s, c, i, moved, left, Sending(i + 1, share, more)))
               case _ => false
  }

  lemma FillCases(s: State, c: nat, moved: seq<Thread>, left: seq<Thread>, more: nat)
    requires Sizes(s) && c < |s.queues|
    ensures FillEffect(s, c, moved, left, more, Step(s, c, Fill(moved, left, more)))
  {
  }

  lemma FillEffectKeeps(s: State, c: nat, moved: seq<Thread>, left: seq<Thread>, more: nat, s': State)
    requires Inv(s) && c < |s.queues| && FillEffect(s, c, moved, left, more, s')
    ensures Inv(s') && Everyone(s') == Everyone(s)
  {
    if s' != s {
      var l := s.local[c];
      assert LocalOk(s, c);
      if s' == s.(local := s.local[c := Sending(l.i + 1, l.share, l.toSend)]) {
        forall d | 0 <= d < |s'.queues| ensures LocalOk(s', d) { assert LocalOk(s, d); }
      } else {
        DealtFills(s.victims[c], l.toSend, s.cur[c], moved, left, more);
        FilledKeeps(s, c, l.i, l.toSend, moved, left, more, Sending(l.i + 1, l.share, more));
      }
    }
  }

  lemma FillKeeps(s: State, c: nat, moved: seq<Thread>, left: seq<Thread>, more: nat)
    requires Inv(s) && c < |s.queues|
    ensures Inv(Step(s, c, Fill(moved, left, more)))
    ensures Everyone(Step(s, c, Fill(moved, left, more))) == Everyone(s)
  {
    FillCases(s, c, moved, left, more);
    FillEffectKeeps(s, c, moved, left, more, Step(s, c, Fill(moved, left, more)));
  }

  lemma Handover(queues: multiset<Thread>, had: multiset<Thread>, has: multiset<Thread>,
                 victims: seq<Thread>, moved: seq<Thread>, left: seq<Thread>)
    requires has + multiset(victims) == had + multiset(left) && multiset(moved) + multiset(left) == multiset(victims)
    ensures (queues + multiset(moved)) + has == queues + had
  {
    assert (has + multiset(moved)) + multiset(left) == had + multiset(left);
    Cancel(has + multiset(moved), had, multiset(left));
  }

  /** Locals after one queue grows or its owner, which is Quiet, shrinks it. */
  lemma LocalKept(s: State, s': State, c: nat, d: nat)
    requires Inv(s) && Sizes(s') && |s'.queues| == |s.queues| && c < |s.queues| && d < |s.queues|
    requires s'.cpuOf == s.cpuOf && s'.victims[d] == s.victims[d] && s'.local[d] == s.local[d]
    requires d != c || s'.local[d] == Quiet || |s'.queues[d]| >= |s.queues[d]|
    requires d != c ==> |s'.queues[d]| >= |s.queues[d]| && s'.cur[d] == s.cur[d]
    requires d == c && s.local[d] != Quiet ==> s'.cur[d] == s.cur[d]
    ensures LocalOk(s', d)
  {
    assert LocalOk(s, d);
  }

  lemma FinishKeeps(s: State, c: nat)
    requires Inv(s) && c < |s.queues|
    ensures Inv(Step(s, c, Finish)) && Everyone(Step(s, c, Finish)) == Everyone(s)
  {
    var s' := Step(s, c, Finish);
    assert LocalOk(s, c);
    if s' != s {
      JoinQueue(s.queues, s.victims, c);
      assert PlacedIn(s'.queues, s'.cpuOf);
      forall d | 0 <= d < |s'.queues| ensures LocalOk(s', d) {
        if d != c { LocalKept(s, s', c, d); }
      }
    }
  }

  lemma WakeKeeps(s: State, c: nat, t: Thread)
    requires Inv(s) && c < |s.queues|
    ensures Inv(Step(s, c, Wake(t)))
  {
    var s' := Step(s, c, Wake(t));
    if s' != s {
      AppendToQueue(s.queues, s.cpuOf[t], [t]);
      OneMore(AllOf(s.queues), AllOf(s.victims), t);
      assert PlacedIn(s'.queues, s'.cpuOf);
      forall d | 0 <= d < |s'.queues| ensures LocalOk(s', d) { LocalKept(s, s', s.cpuOf[t], d); }
    }
  }

  lemma OneMore(a: multiset<Thread>, b: multiset<Thread>, t: Thread)
    requires AtMostOnce(a + b) && t !in a + b
    ensures AtMostOnce((a + multiset([t])) + b)
  {
    assert (a + multiset([t])) + b == (a + b) + multiset{t};
  }

  lemma NextKeeps(s: State, c: nat)
    requires Inv(s) && c < |s.queues|
    ensures Inv(Step(s, c, Next))
  {
    var s' := Step(s, c, Next);
    if s.local[c] == Quiet && s.queues[c] != [] {
      DropHead(s.queues, c);
      OneLess(AllOf(s'.queues), AllOf(s.victims), s.queues[c][0], AllOf(s.queues));
      TailPlaced(s.queues, s.cpuOf, c);
      forall d | 0 <= d < |s'.queues| ensures LocalOk(s', d) { LocalKept(s, s', c, d); }
    }
  }

  lemma TailPlaced(queues: seq<seq<Thread>>, cpuOf: map<Thread, nat>, c: nat)
    requires PlacedIn(queues, cpuOf) && c < |queues| && queues[c] != []
    ensures PlacedIn(queues[c := queues[c][1..]], cpuOf)
  {
    assert forall t :: t in queues[c][1..] ==> t in queues[c];
  }

  lemma OneLess(a: multiset<Thread>, b: multiset<Thread>, t: Thread, was: multiset<Thread>)
    requires a + multiset{t} == was && AtMostOnce(was + b)
    ensures AtMostOnce(a + b)
  {
    assert (a + b) + multiset{t} == was + b;
    Fewer(a + b, was + b, t);
  }

  lemma Fewer(a: multiset<Thread>, b: multiset<Thread>, t: Thread)
    requires AtMostOnce(b) && a + multiset{t} == b
    ensures AtMostOnce(a)
  {
    forall x ensures a[x] <= 1 { assert (a + multiset{t})[x] == b[x]; }
  }

  /** Every step keeps the invariant, and the steps of migration itself keep every thread
      where some queue or victim list has it. */
  lemma StepKeepsInv(s: State, c: nat, ev: Event)
    requires Inv(s) && c < |s.queues|
    ensures Inv(Step(s, c, ev))
    ensures !ev.Wake? && !ev.Next? ==> Everyone(Step(s, c, ev)) == Everyone(s)
  {
    match ev
    case Decide => DecideKeeps(s, c);
    case Fill(moved, left, more) => FillKeeps(s, c, moved, left, more);
    case Finish => FinishKeeps(s, c);
    case Wake(t) => WakeKeeps(s, c, t);
    case Next => NextKeeps(s, c);
    case _ => CountKeeps(s, c, ev);
  }

  /** How a run queue grows, whatever else goes on: by a fill from another processor, never
      above that processor's share; by a wakeup, by one; and by its own processor putting
      back what it took from it. */
  lemma QueueGrowth(s: State, c: nat, ev: Event, q: nat)
    requires Inv(s) && c < |s.queues| && q < |s.queues|
    ensures var s' := Step(s, c, ev);
            && |s'.queues| == |s.queues|
            && (|s'.queues[q]| > |s.queues[q]| ==>
                  || (ev.Fill? && c != q && s.local[c].Sending? && |s'.queues[q]| <= s.local[c].share)
                  || (ev.Wake? && |s'.queues[q]| == |s.queues[q]| + 1)
                  || (ev == Finish && c == q && |s'.queues[q]| == |s.queues[q]| + |s.victims[q]|))
  {
    if ev.Fill? && s.local[c].Sending? && s.local[c].i == q && Step(s, c, ev).queues != s.queues {
      var l := s.local[c];
      StopsUpToShare(|s.queues[q]|, l.share, s.victims[c], l.toSend, s.cur[c], ev.moved, ev.left, ev.more);
    }
  }

  datatype Move = Move(cpu: nat, event: Event)

  function Run(s: State, moves: seq<Move>): State {
    if moves == [] then s
    else
      var t, m := Run(s, moves[..|moves| - 1]), moves[|moves| - 1];
      if Sizes(t) && m.cpu < |t.queues| then Step(t, m.cpu, m.event) else t
  }

  /** Over every interleaving: no thread is on two queues or lists, each is on the queue
      of the processor it names, and a processor that hands threads over has them. */
  lemma {:induction false} RunsKeepInv(s: State, moves: seq<Move>)
    requires Inv(s)
    ensures Inv(Run(s, moves))
  {
    if moves != [] {
      RunsKeepInv(s, moves[..|moves| - 1]);
      var t, m := Run(s, moves[..|moves| - 1]), moves[|moves| - 1];
      if Sizes(t) && m.cpu < |t.queues| { StepKeepsInv(t, m.cpu, m.event); }
    }
  }
}
