/** Run-queue migration: threads move from a busy processor to the others, none is
    lost or doubled, and the load evens out.

    Source: kern/thread/thread.c (thread_consider_migration). */
module Migration {

  type Thread = int

  /** Every thread on some run queue, with its multiplicity. */
  function AllOf(qs: seq<seq<Thread>>): multiset<Thread> {
    if qs == [] then multiset{} else multiset(qs[0]) + AllOf(qs[1..])
  }

  /** The number of queued threads. */
  function Total(qs: seq<seq<Thread>>): nat {
    if qs == [] then 0 else |qs[0]| + Total(qs[1..])
  }

  lemma {:induction false} AllOfUpdate(qs: seq<seq<Thread>>, i: nat, q: seq<Thread>)
    requires i < |qs|
    ensures AllOf(qs[i := q]) + multiset(qs[i]) == AllOf(qs) + multiset(q)
  {
    if i == 0 {
      assert qs[0 := q][1..] == qs[1..];
    } else {
      var rest := qs[1..];
      assert qs[i := q][1..] == rest[i - 1 := q] && qs[i := q][0] == qs[0] && rest[i - 1] == qs[i];
      AllOfUpdate(rest, i - 1, q);
      calc {
        AllOf(qs[i := q]) + multiset(qs[i]);
        multiset(qs[0]) + (AllOf(rest[i - 1 := q]) + multiset(rest[i - 1]));
        multiset(qs[0]) + (AllOf(rest) + multiset(q));
        AllOf(qs) + multiset(q);
      }
    }
  }

  lemma {:induction false} OnSomeQueue(qs: seq<seq<Thread>>, i: nat, t: Thread)
    requires i < |qs| && t in qs[i]
    ensures AllOf(qs)[t] > 0
  {
    if i == 0 {
      assert multiset(qs[0])[t] > 0;
    } else {
      OnSomeQueue(qs[1..], i - 1, t);
    }
  }

  function DivRoundUp(a: nat, b: nat): (r: nat)
    requires b > 0
    ensures (r - 1) * b < a <= r * b
  {
    RoundsUp(a, b);
    (a + b - 1) / b
  }

  lemma RoundsUp(a: nat, b: nat)
    requires b > 0
    ensures var q := (a + b - 1) / b; q >= 0 && (q - 1) * b < a <= q * b
  {
    var q, r := (a + b - 1) / b, (a + b - 1) % b;
    assert a + b - 1 == q * b + r;
    assert (q - 1) * b == q * b - b;
  }

  /** The places left below `share` on the queues from i on, other than `me`. */
  function Room(qs: seq<seq<Thread>>, me: nat, share: nat, i: nat): nat
    requires i <= |qs|
    decreases |qs| - i
  {
    if i == |qs| then 0
    else (if i != me && |qs[i]| < share then share - |qs[i]| else 0) + Room(qs, me, share, i + 1)
  }

  lemma {:induction false} RoomSame(qs: seq<seq<Thread>>, rs: seq<seq<Thread>>, me: nat, share: nat, i: nat)
    requires |qs| == |rs| && i <= |qs| && forall k :: i <= k < |qs| && k != me ==> |rs[k]| == |qs[k]|
    ensures Room(rs, me, share, i) == Room(qs, me, share, i)
    decreases |qs| - i
  {
    if i < |qs| { RoomSame(qs, rs, me, share, i + 1); }
  }

  lemma {:induction false} TotalFrom(qs: seq<seq<Thread>>, i: nat)
    requires i < |qs|
    ensures Total(qs[i..]) == |qs[i]| + Total(qs[i + 1..])
  {
    assert qs[i..][1..] == qs[i + 1..];
  }

  /** With share at least the average, the others have room for what is above it. */
  lemma {:induction false} RoomEnough(qs: seq<seq<Thread>>, me: nat, share: nat, i: nat)
    requires i <= |qs|
    ensures Total(qs[i..]) + Room(qs, me, share, i)
            == share * (|qs| - i) + (if i <= me < |qs| then |qs[me]| - share else 0) + Above(qs, me, share, i)
    decreases |qs| - i
  {
    if i == |qs| {
      assert qs[i..] == [];
    } else {
      TotalFrom(qs, i);
      RoomEnough(qs, me, share, i + 1);
      assert share * (|qs| - i) == share * (|qs| - (i + 1)) + share;
    }
  }

  /** What the queues other than `me` hold above share. */
  function Above(qs: seq<seq<Thread>>, me: nat, share: nat, i: nat): nat
    requires i <= |qs|
    decreases |qs| - i
  {
    if i == |qs| then 0
    else (if i != me && |qs[i]| > share then |qs[i]| - share else 0) + Above(qs, me, share, i + 1)
  }

  /** What filling one queue may do with the victim list, of which toSend are still to be
      looked at: some move, never the current thread, the others stay. */
  predicate FillOk(victims: seq<Thread>, toSend: nat, cur: Thread, moved: seq<Thread>, left: seq<Thread>, more: nat) {
    && multiset(moved) + multiset(left) == multiset(victims) && cur !in moved
    && more <= |left| && AllAre(left[more..], cur) && |moved| + more <= toSend
  }

  /** The threads of a list other than cur, in order. */
  function Others(s: seq<Thread>, cur: Thread): seq<Thread> {
    if s == [] then [] else (if s[0] == cur then [] else [s[0]]) + Others(s[1..], cur)
  }

  lemma {:induction false} OthersConcat(s: seq<Thread>, t: seq<Thread>, cur: Thread)
    ensures Others(s + t, cur) == Others(s, cur) + Others(t, cur)
  {
    if s == [] {
      assert s + t == t;
    } else {
      assert (s + t)[1..] == s[1..] + t;
      OthersConcat(s[1..], t, cur);
    }
  }

  /** What Others leaves out. */
  function Selves(s: seq<Thread>, cur: Thread): seq<Thread> {
    if s == [] then [] else (if s[0] == cur then [cur] else []) + Selves(s[1..], cur)
  }

  lemma {:induction false} SplitLast(s: seq<Thread>, t: Thread, cur: Thread)
    ensures Others(s + [t], cur) == if t == cur then Others(s, cur) else Others(s, cur) + [t]
    ensures Selves(s + [t], cur) == if t == cur then Selves(s, cur) + [t] else Selves(s, cur)
  {
    if s == [] {
      assert [t][1..] == [] && s + [t] == [t];
    } else {
      assert (s + [t])[1..] == s[1..] + [t];
      SplitLast(s[1..], t, cur);
    }
  }

  lemma {:induction false} SplitKinds(s: seq<Thread>, cur: Thread)
    ensures cur !in Others(s, cur) && AllAre(Selves(s, cur), cur) && |Others(s, cur)| <= |s|
  {
    if s != [] { SplitKinds(s[1..], cur); }
  }

  lemma {:induction false} SplitAll(s: seq<Thread>, cur: Thread)
    ensures multiset(Others(s, cur)) + multiset(Selves(s, cur)) == multiset(s)
  {
    if s != [] {
      HeadAndRest(s);
      SplitAll(s[1..], cur);
      OneMoreOf(s[0], Others(s[1..], cur), Selves(s[1..], cur), multiset(s[1..]));
      assert [] + Others(s[1..], cur) == Others(s[1..], cur) && [] + Selves(s[1..], cur) == Selves(s[1..], cur);
    }
  }

  lemma OneMoreOf(t: Thread, a: seq<Thread>, b: seq<Thread>, all: multiset<Thread>)
    requires multiset(a) + multiset(b) == all
    ensures multiset([t] + a) + multiset(b) == multiset{t} + all == multiset(a) + multiset([t] + b)
  {
    assert multiset([t] + a) == multiset{t} + multiset(a);
    assert multiset([t] + b) == multiset{t} + multiset(b);
  }

  /** The list is dealt from its head: of the toSend threads to be looked at, those before the
      last `more` move, but for cur, which goes to the end of the list. */
  predicate InOrder(victims: seq<Thread>, toSend: nat, cur: Thread, moved: seq<Thread>, left: seq<Thread>, more: nat) {
    && more <= toSend <= |victims| && moved == Others(victims[..toSend - more], cur)
    && left == victims[toSend - more..] + Selves(victims[..toSend - more], cur)
  }

  lemma DealtOne(victims: seq<Thread>, toSend: nat, cur: Thread, moved: seq<Thread>, left: seq<Thread>, more: nat)
    requires InOrder(victims, toSend, cur, moved, left, more) && more > 0
    ensures left != []
    ensures var t := left[0];
            if t == cur then InOrder(victims, toSend, cur, moved, left[1..] + [t], more - 1)
            else InOrder(victims, toSend, cur, moved + [t], left[1..], more - 1)
  {
    var k := toSend - more;
    var t, selves := victims[k], Selves(victims[..k], cur);
    assert victims[..k + 1] == victims[..k] + [t];
    SplitLast(victims[..k], t, cur);
    FromHead(victims, k, selves);
  }

  lemma FromHead(victims: seq<Thread>, k: nat, selves: seq<Thread>)
    requires k < |victims|
    ensures var left := victims[k..] + selves;
            left[0] == victims[k] && left[1..] == victims[k + 1..] + selves &&
            left[1..] + [left[0]] == victims[k + 1..] + (selves + [left[0]])
  {
  }

  /** So some move, never cur, and the others stay. */
  lemma DealtFills(victims: seq<Thread>, toSend: nat, cur: Thread, moved: seq<Thread>, left: seq<Thread>, more: nat)
    requires InOrder(victims, toSend, cur, moved, left, more) && AllAre(victims[toSend..], cur)
    ensures FillOk(victims, toSend, cur, moved, left, more)
  {
    var k := toSend - more;
    var selves := Selves(victims[..k], cur);
    SplitKinds(victims[..k], cur);
    RestAreCurrent(victims, k, toSend, cur, selves);
    DealtSame(victims, k, cur, moved, left);
  }

  lemma DealtSame(victims: seq<Thread>, k: nat, cur: Thread, moved: seq<Thread>, left: seq<Thread>)
    requires k <= |victims| && moved == Others(victims[..k], cur)
    requires left == victims[k..] + Selves(victims[..k], cur)
    ensures multiset(moved) + multiset(left) == multiset(victims)
  {
    SplitAll(victims[..k], cur);
    SameThreads(victims, k, moved, Selves(victims[..k], cur), left);
  }

  lemma RestAreCurrent(victims: seq<Thread>, k: nat, toSend: nat, cur: Thread, selves: seq<Thread>)
    requires k <= toSend <= |victims| && AllAre(victims[toSend..], cur) && AllAre(selves, cur)
    ensures AllAre((victims[k..] + selves)[toSend - k..], cur)
  {
    assert (victims[k..] + selves)[toSend - k..] == victims[toSend..] + selves;
  }

  lemma SameThreads(victims: seq<Thread>, k: nat, moved: seq<Thread>, selves: seq<Thread>, left: seq<Thread>)
    requires k <= |victims| && multiset(moved) + multiset(selves) == multiset(victims[..k])
    requires left == victims[k..] + selves
    ensures multiset(moved) + multiset(left) == multiset(victims)
  {
    assert victims == victims[..k] + victims[k..];
  }

  /** A queue of `had` threads is filled up to the share and no further, unless no thread is
      left to look at. */
  predicate UpToShare(had: nat, share: nat, moved: seq<Thread>, more: nat) {
    && (had + |moved| <= share || moved == [])
    && (more == 0 || had + |moved| >= share)
  }

  /** The filling of a queue that had `had` threads stops as soon as the queue has its share or
      no thread is left to look at. */
  predicate StopsAt(had: nat, share: nat, victims: seq<Thread>, toSend: nat, cur: Thread, more: nat) {
    && more <= toSend <= |victims|
    && (more == 0 || had + |Others(victims[..toSend - more], cur)| >= share)
    && (more < toSend ==> had + |Others(victims[..toSend - more - 1], cur)| < share)
  }

  lemma StopsUpToShare(had: nat, share: nat, victims: seq<Thread>, toSend: nat, cur: Thread, moved: seq<Thread>,
                       left: seq<Thread>, more: nat)
    requires InOrder(victims, toSend, cur, moved, left, more) && StopsAt(had, share, victims, toSend, cur, more)
    ensures UpToShare(had, share, moved, more)
  {
    if more < toSend {
      var k := toSend - more - 1;
      assert victims[..k + 1] == victims[..k] + [victims[k]];
      SplitLast(victims[..k], victims[k], cur);
    } else {
      assert victims[..0] == [];
    }
  }

  lemma {:induction false} OthersGrow(s: seq<Thread>, t: seq<Thread>, cur: Thread)
    requires s <= t
    ensures |Others(s, cur)| <= |Others(t, cur)|
  {
    OthersConcat(s, t[|s|..], cur);
    assert s + t[|s|..] == t;
  }

  /** There is one place where it stops, so what one fill does is determined. */
  lemma StopsOnce(had: nat, share: nat, victims: seq<Thread>, toSend: nat, cur: Thread, m: nat, n: nat)
    requires StopsAt(had, share, victims, toSend, cur, m) && StopsAt(had, share, victims, toSend, cur, n)
    ensures m == n
  {
    if m > n {
      OthersGrow(victims[..toSend - m], victims[..toSend - n - 1], cur);
    } else if n > m {
      OthersGrow(victims[..toSend - n], victims[..toSend - m - 1], cur);
    }
  }

  lemma {:induction false} StopsSomewhere(had: nat, share: nat, victims: seq<Thread>, toSend: nat, cur: Thread,
                                          from: nat)
    returns (more: nat)
    requires from <= toSend <= |victims|
    requires from < toSend ==> had + |Others(victims[..toSend - from - 1], cur)| < share
    ensures StopsAt(had, share, victims, toSend, cur, more)
    decreases from
  {
    if from == 0 || had + |Others(victims[..toSend - from], cur)| >= share {
      more := from;
    } else {
      more := StopsSomewhere(had, share, victims, toSend, cur, from - 1);
    }
  }

  /** The run queues, and for each thread the processor its t_cpu names. */
  class Processors {
    var queues: seq<seq<Thread>>
    var cpuOf: map<Thread, nat>

    constructor (queues: seq<seq<Thread>>, cpuOf: map<Thread, nat>)
      ensures this.queues == queues && this.cpuOf == cpuOf
    {
      this.queues, this.cpuOf := queues, cpuOf;
    }

    /** Each queued thread names the processor whose queue it is on. */
    ghost predicate Placed()
      reads this
    {
      PlacedIn(queues, cpuOf)
    }

    /** The counting loop: the queue lengths, each read under its own lock. */
    method CountQueues(me: nat) returns (mine: nat, total: nat)
      requires me < |queues|
      ensures mine == |queues[me]| && total == Total(queues)
    {
      mine, total := 0, 0;
      var i := 0;
      assert queues[0..] == queues;
      while i < |queues|
        invariant 0 <= i <= |queues| && total + Total(queues[i..]) == Total(queues)
        invariant i > me ==> mine == |queues[me]|
      {
        TotalFrom(queues, i);
        total := total + |queues[i]|;
        if i == me {
          mine := |queues[i]|;
        }
        i := i + 1;
      }
    }

    /** Take the last toSend threads off the queue of `me`, in order. */
    method TakeVictims(me: nat, toSend: nat) returns (victims: seq<Thread>)
      requires me < |queues| && toSend <= |queues[me]|
      modifies this`queues
      ensures |victims| == toSend && |queues| == |old(queues)| && queues == old(queues)[me := queues[me]]
      ensures queues[me] + victims == old(queues[me])
    {
      victims := [];
      var i := 0;
      while i < toSend
        invariant 0 <= i <= toSend && |victims| == i
        invariant |queues| == |old(queues)| && queues == old(queues)[me := queues[me]]
        invariant queues[me] + victims == old(queues[me])
      {
        var q := queues[me];
        var t := q[|q| - 1];
        queues := queues[me := q[..|q| - 1]];
        assert q == q[..|q| - 1] + [t];
        assert q[..|q| - 1] + ([t] + victims) == q + victims;
        victims := [t] + victims;
        i := i + 1;
      }
    }

    /** The inner loop: fill the queue of processor i up to `share` from the head of
        the victim list. The current thread is not moved: it goes to the end of the
        list, past the `toSend` threads still to look at. */
    method FillQueue(i: nat, share: nat, cur: Thread, victims: seq<Thread>, toSend: nat)
      returns (left: seq<Thread>, more: nat, ghost moved: seq<Thread>)
      requires i < |queues| && toSend <= |victims| && AllAre(victims[toSend..], cur)
      modifies this
      ensures queues == old(queues)[i := old(queues)[i] + moved]
      ensures FillOk(victims, toSend, cur, moved, left, more)
      ensures InOrder(victims, toSend, cur, moved, left, more) && UpToShare(|old(queues)[i]|, share, moved, more)
      ensures StopsAt(|old(queues)[i]|, share, victims, toSend, cur, more)
      ensures Renamed(old(cpuOf), cpuOf, moved, i)
    {
      left, more, moved := victims, toSend, [];
      assert queues[i] + [] == queues[i];
      while |queues[i]| < share && more > 0
        invariant |queues| == |old(queues)| && queues == old(queues)[i := old(queues)[i] + moved]
        invariant more < toSend ==> |old(queues)[i]| + |Others(victims[..toSend - more - 1], cur)| < share
        invariant InOrder(victims, toSend, cur, moved, left, more)
        invariant Renamed(old(cpuOf), cpuOf, moved, i)
        decreases more
      {
        DealtOne(victims, toSend, cur, moved, left, more);
        var t := left[0];
        if t == cur {
          left := left[1..] + [t];
          more := more - 1;
        } else {
          left := left[1..];
          RenamedOne(old(cpuOf), cpuOf, moved, i, t);
          cpuOf := cpuOf[t := i];
          assert old(queues)[i] + moved + [t] == old(queues)[i] + (moved + [t]);
          queues := queues[i := queues[i] + [t]];
          moved := moved + [t];
          more := more - 1;
        }
      }
      DealtFills(victims, toSend, cur, moved, left, more);
      StopsUpToShare(|old(queues)[i]|, share, victims, toSend, cur, moved, left, more);
    }

    /** One round of the loop over the other processors. */
    method FillNext(ghost q0: seq<seq<Thread>>, me: nat, share: nat, cur: Thread, ghost victims: seq<Thread>, i: nat,
                    left: seq<Thread>, toSend: nat, ghost all: multiset<Thread>)
      returns (left': seq<Thread>, more: nat)
      requires Underway(q0, queues, me, share, cur, i, left, toSend, all) && Placed() && AtMostOnce(all)
      requires DealtTo(q0, queues, me, share, cur, victims, i, left, toSend) && i < |queues| && toSend > 0
      modifies this
      ensures Underway(q0, queues, me, share, cur, i + 1, left', more, all) && Placed()
      ensures DealtTo(q0, queues, me, share, cur, victims, i + 1, left', more)
      ensures cur in old(cpuOf) ==> cur in cpuOf && cpuOf[cur] == old(cpuOf)[cur]
    {
      if i == me {
        DealtSkip(q0, queues, me, share, cur, victims, i, left, toSend);
        RoomSame(queues, queues, me, share, i + 1);
        return left, toSend;
      }
      ghost var before, was := queues, cpuOf;
      ghost var moved;
      left', more, moved := FillQueue(i, share, cur, left, toSend);
      UnderwayNext(q0, before, me, share, cur, i, left, toSend, all, moved, left', more);
      StillPlaced(before, i, moved, left, all, was, cpuOf);
      DealtNext(q0, before, me, share, cur, victims, i, left, toSend, moved, left', more);
    }

    /** The loop over the other processors. */
    method Distribute(me: nat, share: nat, cur: Thread, victims: seq<Thread>) returns (left: seq<Thread>)
      requires me < |queues| && Placed() && AtMostOnce(AllOf(queues) + multiset(victims))
      requires |victims| <= Room(queues, me, share, 0)
      modifies this
      ensures Spread(old(queues), queues, me, share, cur) && queues[me] == old(queues)[me]
      ensures Placed() && AllOf(queues) + multiset(left) == AllOf(old(queues)) + multiset(victims)
      ensures AllAre(left, cur) && AllOf(queues)[cur] == AllOf(old(queues))[cur]
      ensures Dealt(old(queues), queues, me, share, cur, victims)
      ensures cur in old(cpuOf) ==> cur in cpuOf && cpuOf[cur] == old(cpuOf)[cur]
    {
      ghost var q0, all := queues, AllOf(queues) + multiset(victims);
      left := victims;
      var toSend: nat, i: nat := |victims|, 0;
      NothingDealt(q0, me, share, cur, victims);
      while i < |queues| && toSend > 0
        invariant Underway(q0, queues, me, share, cur, i, left, toSend, all)
        invariant DealtTo(q0, queues, me, share, cur, victims, i, left, toSend)
        invariant Placed() && (cur in old(cpuOf) ==> cur in cpuOf && cpuOf[cur] == old(cpuOf)[cur])
      {
        left, toSend := FillNext(q0, me, share, cur, victims, i, left, toSend, all);
        i := i + 1;
      }
      DealtDone(q0, queues, me, share, cur, victims, i, left, toSend);
      assert left[0..] == left;
    }

    /** The last loop: what is left goes back to the end of the own queue. */
    method PutBack(me: nat, left: seq<Thread>)
      requires me < |queues|
      modifies this`queues
      ensures queues == old(queues)[me := old(queues)[me] + left]
    {
      var rest := left;
      ghost var back: seq<Thread> := [];
      assert queues[me] + [] == queues[me];
      while rest != []
        invariant |queues| == |old(queues)| && back + rest == left
        invariant queues == old(queues)[me := old(queues)[me] + back]
        decreases |rest|
      {
        var t := rest[0];
        assert (old(queues)[me] + back) + [t] == old(queues)[me] + (back + [t]);
        queues := queues[me := queues[me] + [t]];
        back, rest := back + [t], rest[1..];
      }
      assert back == left;
    }

    /** thread_consider_migration on processor `me`, whose current thread is `cur`,
        when nothing else changes the queues meanwhile. */
    method ConsiderMigration(me: nat, cur: Thread)
      requires me < |queues| && Placed() && AtMostOnce(AllOf(queues))
      modifies this
      ensures AllOf(queues) == AllOf(old(queues)) && Placed()
      ensures var share := DivRoundUp(Total(old(queues)), |old(queues)|);
              if |old(queues)[me]| < share then queues == old(queues)
              else Balanced(old(queues), queues, me, share, cur)
                   && Dealt(old(queues), queues, me, share, cur, old(queues)[me][share..])
    {
      var mine, total := CountQueues(me);
      var share := DivRoundUp(total, |queues|);
      if mine < share {
        return;
      }
      SendAway(me, cur, share);
    }

    /** The part of thread_consider_migration that moves threads. */
    method SendAway(me: nat, cur: Thread, share: nat)
      requires me < |queues| && Placed() && AtMostOnce(AllOf(queues))
      requires share * |queues| >= Total(queues) && |queues[me]| >= share
      modifies this
      ensures AllOf(queues) == AllOf(old(queues)) && Placed()
      ensures Balanced(old(queues), queues, me, share, cur)
      ensures Dealt(old(queues), queues, me, share, cur, old(queues)[me][share..])
    {
      ghost var q0, map0 := queues, cpuOf;
      var victims := TakeVictims(me, |queues[me]| - share);
      ghost var q1 := queues;
      TookFrom(q0, me, share, victims, q1);
      TookPlaced(q0, q1, me, victims, cpuOf);
      var left := Distribute(me, share, cur, victims);
      ghost var q2 := queues;
      PutBackResult(q0, q1, q2, me, share, cur, victims, left);
      PutBackPlaced(q0, map0, q2, cpuOf, me, share, cur, left);
      PutBack(me, left);
      DealtBack(q0, q1, q2, queues, me, share, cur, victims);
    }
  }

  /** The own queue keeps its first `share` threads and, if it was among the rest, the
      current thread; the others gain at their ends, up to share. */
  ghost predicate Balanced(q0: seq<seq<Thread>>, q: seq<seq<Thread>>, me: nat, share: nat, cur: Thread) {
    && me < |q0| == |q| && |q0[me]| >= share && Spread(q0, q, me, share, cur)
    && q[me] == q0[me][..share] + (if cur in q0[me][share..] then [cur] else [])
  }

  lemma PutBackPlaced(q0: seq<seq<Thread>>, was: map<Thread, nat>, q2: seq<seq<Thread>>, now: map<Thread, nat>,
                      me: nat, share: nat, cur: Thread, left: seq<Thread>)
    requires me < |q0| == |q2| && |q0[me]| >= share && PlacedIn(q0, was) && PlacedIn(q2, now)
    requires left == if cur in q0[me][share..] then [cur] else []
    requires cur in was ==> cur in now && now[cur] == was[cur]
    ensures PlacedIn(q2[me := q2[me] + left], now)
  {
    if cur in q0[me][share..] { assert cur in q0[me]; }
  }

  /** The victims are the tail of the queue, and the others have room for them. */
  lemma TookFrom(q0: seq<seq<Thread>>, me: nat, share: nat, victims: seq<Thread>, q1: seq<seq<Thread>>)
    requires me < |q0| == |q1| && q1 == q0[me := q1[me]] && q1[me] + victims == q0[me]
    requires |q1[me]| == share && share * |q0| >= Total(q0)
    ensures AllOf(q1) + multiset(victims) == AllOf(q0)
    ensures |victims| <= Room(q1, me, share, 0)
    ensures q1[me] == q0[me][..share] && victims == q0[me][share..]
  {
    AppendToQueue(q1, me, victims);
    assert q1[me := q1[me] + victims] == q0;
    RoomEnough(q0, me, share, 0);
    assert q0[0..] == q0;
    RoomSame(q0, q1, me, share, 0);
  }

  lemma TookPlaced(q0: seq<seq<Thread>>, q1: seq<seq<Thread>>, me: nat, victims: seq<Thread>, cpuOf: map<Thread, nat>)
    requires PlacedIn(q0, cpuOf) && me < |q0| == |q1| && q1 == q0[me := q1[me]] && q1[me] + victims == q0[me]
    ensures PlacedIn(q1, cpuOf)
  {
    forall c, t | 0 <= c < |q1| && t in q1[c] ensures t in q0[c] {
      if c == me { assert t in q1[me] + victims; }
    }
  }

  lemma PutBackResult(q0: seq<seq<Thread>>, q1: seq<seq<Thread>>, q2: seq<seq<Thread>>, me: nat, share: nat,
                      cur: Thread, victims: seq<Thread>, left: seq<Thread>)
    requires me < |q0| == |q1| == |q2| && AtMostOnce(AllOf(q0))
    requires AllOf(q1) + multiset(victims) == AllOf(q0) && |q0[me]| >= share && victims == q0[me][share..]
    requires Spread(q1, q2, me, share, cur) && q2[me] == q1[me] == q0[me][..share]
    requires q1 == q0[me := q1[me]]
    requires AllOf(q2) + multiset(left) == AllOf(q1) + multiset(victims) && AllAre(left, cur)
    requires AllOf(q2)[cur] == AllOf(q1)[cur]
    ensures AllOf(q2[me := q2[me] + left]) == AllOf(q0)
    ensures left == if cur in victims then [cur] else []
    ensures Balanced(q0, q2[me := q2[me] + left], me, share, cur)
  {
    AppendToQueue(q2, me, left);
    LeftIsCurrent(AllOf(q1), AllOf(q2), victims, left, cur);
    SpreadBack(q0, q1, q2, me, share, cur, q2[me] + left);
  }

  /** What the own queue holds is not part of how the others were filled. */
  lemma SpreadBack(q0: seq<seq<Thread>>, q1: seq<seq<Thread>>, q2: seq<seq<Thread>>, me: nat, share: nat, cur: Thread,
                   own: seq<Thread>)
    requires me < |q0| == |q1| == |q2| && q1 == q0[me := q1[me]] && Spread(q1, q2, me, share, cur)
    ensures Spread(q0, q2[me := own], me, share, cur)
  {
  }

  lemma LeftIsCurrent(a: multiset<Thread>, b: multiset<Thread>, victims: seq<Thread>, left: seq<Thread>, cur: Thread)
    requires AtMostOnce(a + multiset(victims)) && b + multiset(left) == a + multiset(victims)
    requires a[cur] == b[cur] && AllAre(left, cur)
    ensures left == if cur in victims then [cur] else []
  {
    CountOfSame(left, cur);
    assert (a + multiset(victims))[cur] == a[cur] + multiset(victims)[cur] == b[cur] + multiset(left)[cur];
    assert cur in victims <==> multiset(victims)[cur] > 0;
  }

  lemma {:induction false} CountOfSame(s: seq<Thread>, t: Thread)
    requires AllAre(s, t)
    ensures multiset(s)[t] == |s|
  {
    if s != [] {
      HeadAndRest(s);
      CountOfSame(s[1..], t);
    }
  }

  ghost predicate AtMostOnce(m: multiset<Thread>) { forall t :: m[t] <= 1 }

  /** The other queues only grow at their end, not past share, and without the
      current thread. */
  ghost predicate Spread(was: seq<seq<Thread>>, now: seq<seq<Thread>>, me: nat, share: nat, cur: Thread) {
    && |now| == |was|
    && forall c :: 0 <= c < |was| && c != me ==>
         && was[c] <= now[c] && (|now[c]| <= share || now[c] == was[c])
         && (cur in now[c] ==> cur in was[c])
  }

  /** What the queues below i, other than `me`, gained, in the order of the processors. */
  function GainsTo(was: seq<seq<Thread>>, now: seq<seq<Thread>>, me: nat, i: nat): seq<Thread>
    requires i <= |was| == |now| && forall c :: 0 <= c < i && c != me ==> |was[c]| <= |now[c]|
  {
    if i == 0 then []
    else GainsTo(was, now, me, i - 1) + (if i - 1 == me then [] else now[i - 1][|was[i - 1]|..])
  }

  /** A queue gains only if those before it, other than `me`, have their share. */
  ghost predicate InTurn(was: seq<seq<Thread>>, now: seq<seq<Thread>>, me: nat, share: nat)
    requires |was| == |now|
  {
    forall c, d :: 0 <= c < d < |was| && c != me && d != me && now[d] != was[d] ==> |now[c]| >= share
  }

  /** The victims other than cur go to the queues in the order of the processors. */
  ghost predicate Dealt(was: seq<seq<Thread>>, now: seq<seq<Thread>>, me: nat, share: nat, cur: Thread,
                        victims: seq<Thread>) {
    && |was| == |now| && (forall c :: 0 <= c < |was| && c != me ==> |was[c]| <= |now[c]|)
    && GainsTo(was, now, me, |was|) == Others(victims, cur) && InTurn(was, now, me, share)
  }

  /** The same before queue i is filled, with toSend still to be looked at. */
  ghost predicate DealtTo(was: seq<seq<Thread>>, now: seq<seq<Thread>>, me: nat, share: nat, cur: Thread,
                          victims: seq<Thread>, i: nat, left: seq<Thread>, toSend: nat) {
    && i <= |was| == |now| && toSend <= |left| && (forall c :: 0 <= c < |was| && c != me ==> |was[c]| <= |now[c]|)
    && (forall c :: i <= c < |was| ==> now[c] == was[c])
    && GainsTo(was, now, me, i) + Others(left[..toSend], cur) == Others(victims, cur)
    && (toSend > 0 ==> forall c :: 0 <= c < i && c != me ==> |now[c]| >= share)
    && InTurn(was, now, me, share)
  }

  lemma {:induction false} GainsSame(was: seq<seq<Thread>>, now: seq<seq<Thread>>, now': seq<seq<Thread>>, me: nat,
                                     i: nat)
    requires i <= |was| == |now| == |now'|
    requires forall c :: 0 <= c < i && c != me ==> |was[c]| <= |now[c]| && now'[c] == now[c]
    ensures GainsTo(was, now', me, i) == GainsTo(was, now, me, i)
  {
    if i > 0 { GainsSame(was, now, now', me, i - 1); }
  }

  /** Queues that gain nothing more add nothing. */
  lemma {:induction false} GainsEnd(was: seq<seq<Thread>>, now: seq<seq<Thread>>, me: nat, i: nat, j: nat)
    requires i <= j <= |was| == |now| && (forall c :: 0 <= c < |was| && c != me ==> |was[c]| <= |now[c]|)
    requires forall c :: i <= c < j ==> now[c] == was[c]
    ensures GainsTo(was, now, me, j) == GainsTo(was, now, me, i)
    decreases j
  {
    if i < j { GainsEnd(was, now, me, i, j - 1); }
  }

  lemma DealtNext(was: seq<seq<Thread>>, now: seq<seq<Thread>>, me: nat, share: nat, cur: Thread, victims: seq<Thread>,
                  i: nat, left: seq<Thread>, toSend: nat, moved: seq<Thread>, left': seq<Thread>, more: nat)
    requires DealtTo(was, now, me, share, cur, victims, i, left, toSend) && i < |was| && i != me && toSend > 0
    requires InOrder(left, toSend, cur, moved, left', more) && UpToShare(|now[i]|, share, moved, more)
    ensures DealtTo(was, now[i := now[i] + moved], me, share, cur, victims, i + 1, left', more)
  {
    GainsNext(was, now, me, i, moved);
    OthersNext(left, toSend, cur, moved, left', more);
    var was', others := GainsTo(was, now, me, i), Others(left'[..more], cur);
    assert was' + (moved + others) == (was' + moved) + others;
    TurnNext(was, now, me, share, i, moved);
  }

  lemma OthersNext(left: seq<Thread>, toSend: nat, cur: Thread, moved: seq<Thread>, left': seq<Thread>, more: nat)
    requires InOrder(left, toSend, cur, moved, left', more)
    ensures more <= |left'| && Others(left[..toSend], cur) == moved + Others(left'[..more], cur)
  {
    var k := toSend - more;
    assert left[..toSend] == left[..k] + left[k..toSend] && left'[..more] == left[k..toSend];
    OthersConcat(left[..k], left[k..toSend], cur);
  }

  lemma GainsNext(was: seq<seq<Thread>>, now: seq<seq<Thread>>, me: nat, i: nat, moved: seq<Thread>)
    requires i < |was| == |now| && i != me && now[i] == was[i]
    requires forall c :: 0 <= c < i && c != me ==> |was[c]| <= |now[c]|
    ensures GainsTo(was, now[i := now[i] + moved], me, i + 1) == GainsTo(was, now, me, i) + moved
  {
    var now' := now[i := now[i] + moved];
    GainsSame(was, now, now', me, i);
    assert now'[i][|was[i]|..] == moved;
  }

  lemma TurnNext(was: seq<seq<Thread>>, now: seq<seq<Thread>>, me: nat, share: nat, i: nat, moved: seq<Thread>)
    requires i < |was| == |now| && InTurn(was, now, me, share)
    requires forall c :: 0 <= c < i && c != me ==> |now[c]| >= share
    requires forall c :: i <= c < |was| ==> now[c] == was[c]
    ensures InTurn(was, now[i := now[i] + moved], me, share)
  {
    var now' := now[i := now[i] + moved];
    forall c, d | 0 <= c < d < |was| && c != me && d != me && now'[d] != was[d] ensures |now'[c]| >= share {
      if d != i { assert now[d] != was[d]; }
    }
  }

  lemma NothingDealt(qs: seq<seq<Thread>>, me: nat, share: nat, cur: Thread, victims: seq<Thread>)
    requires me < |qs| && |victims| <= Room(qs, me, share, 0)
    ensures DealtTo(qs, qs, me, share, cur, victims, 0, victims, |victims|)
    ensures Underway(qs, qs, me, share, cur, 0, victims, |victims|, AllOf(qs) + multiset(victims))
  {
    assert victims[|victims|..] == [] && victims[..|victims|] == victims;
  }

  lemma DealtSkip(was: seq<seq<Thread>>, now: seq<seq<Thread>>, me: nat, share: nat, cur: Thread, victims: seq<Thread>,
                  i: nat, left: seq<Thread>, toSend: nat)
    requires DealtTo(was, now, me, share, cur, victims, i, left, toSend) && i < |was| && i == me
    ensures DealtTo(was, now, me, share, cur, victims, i + 1, left, toSend)
  {
    assert GainsTo(was, now, me, i + 1) == GainsTo(was, now, me, i);
  }

  lemma DealtDone(was: seq<seq<Thread>>, now: seq<seq<Thread>>, me: nat, share: nat, cur: Thread, victims: seq<Thread>,
                  i: nat, left: seq<Thread>, toSend: nat)
    requires DealtTo(was, now, me, share, cur, victims, i, left, toSend) && toSend == 0
    ensures Dealt(was, now, me, share, cur, victims)
  {
    GainsEnd(was, now, me, i, |was|);
    assert left[..0] == [];
  }

  /** The own queue is not part of it. */
  lemma DealtBack(q0: seq<seq<Thread>>, q1: seq<seq<Thread>>, q2: seq<seq<Thread>>, q3: seq<seq<Thread>>, me: nat,
                  share: nat, cur: Thread, victims: seq<Thread>)
    requires me < |q0| == |q1| == |q2| == |q3| && Dealt(q1, q2, me, share, cur, victims)
    requires forall c :: 0 <= c < |q0| && c != me ==> q0[c] == q1[c] && q3[c] == q2[c]
    ensures Dealt(q0, q3, me, share, cur, victims)
  {
    GainsOf(q0, q1, q2, q3, me, |q0|);
  }

  lemma {:induction false} GainsOf(q0: seq<seq<Thread>>, q1: seq<seq<Thread>>, q2: seq<seq<Thread>>,
                                   q3: seq<seq<Thread>>, me: nat, i: nat)
    requires i <= |q0| == |q1| == |q2| == |q3|
    requires forall c :: 0 <= c < |q0| && c != me ==> q0[c] == q1[c] && q3[c] == q2[c] && |q1[c]| <= |q2[c]|
    ensures GainsTo(q0, q3, me, i) == GainsTo(q1, q2, me, i)
  {
    if i > 0 { GainsOf(q0, q1, q2, q3, me, i - 1); }
  }

  /** The threads that moved name processor i, all others what they named before. */
  ghost predicate Renamed(was: map<Thread, nat>, now: map<Thread, nat>, moved: seq<Thread>, i: nat) {
    && (forall t :: t in now <==> t in was || t in moved)
    && (forall t :: t in now ==> now[t] == if t in moved then i else was[t])
  }

  lemma RenamedOne(was: map<Thread, nat>, now: map<Thread, nat>, moved: seq<Thread>, i: nat, t: Thread)
    requires Renamed(was, now, moved, i)
    ensures Renamed(was, now[t := i], moved + [t], i)
  {
  }

  ghost predicate PlacedIn(qs: seq<seq<Thread>>, cpuOf: map<Thread, nat>) {
    forall c, t :: 0 <= c < |qs| && t in qs[c] ==> t in cpuOf && cpuOf[t] == c
  }

  /** Before queue i is filled: the queues from i on are untouched and have room for
      the toSend threads still to look at. */
  ghost predicate Underway(q0: seq<seq<Thread>>, qs: seq<seq<Thread>>, me: nat, share: nat, cur: Thread, i: nat,
                           left: seq<Thread>, toSend: nat, all: multiset<Thread>) {
    && me < |qs| && i <= |qs| && Spread(q0, qs, me, share, cur) && qs[me] == q0[me]
    && (forall k :: i <= k < |qs| ==> qs[k] == q0[k])
    && AllOf(qs) + multiset(left) == all && AllOf(qs)[cur] == AllOf(q0)[cur]
    && toSend <= |left| && AllAre(left[toSend..], cur) && toSend <= Room(qs, me, share, i)
  }

  lemma UnderwayNext(q0: seq<seq<Thread>>, qs: seq<seq<Thread>>, me: nat, share: nat, cur: Thread, i: nat,
                     left: seq<Thread>, toSend: nat, all: multiset<Thread>,
                     moved: seq<Thread>, left': seq<Thread>, more: nat)
    requires Underway(q0, qs, me, share, cur, i, left, toSend, all) && i < |qs| && i != me
    requires multiset(moved) + multiset(left') == multiset(left) && cur !in moved
    requires more <= |left'| && AllAre(left'[more..], cur)
    requires |moved| + more <= toSend && (more == 0 || |qs[i]| + |moved| >= share)
    requires |qs[i]| + |moved| <= share || moved == []
    ensures Underway(q0, qs[i := qs[i] + moved], me, share, cur, i + 1, left', more, all)
  {
    var qs' := qs[i := qs[i] + moved];
    AppendToQueue(qs, i, moved);
    RoomSame(qs, qs', me, share, i + 1);
    Regroup(AllOf(qs), multiset(moved), multiset(left'), multiset(left), all);
    NotCounted(AllOf(qs), moved, cur);
    SpreadNext(q0, qs, me, share, cur, i, moved);
  }

  lemma Regroup(queued: multiset<Thread>, moved: multiset<Thread>, left': multiset<Thread>, left: multiset<Thread>,
                all: multiset<Thread>)
    requires queued + left == all && moved + left' == left
    ensures (queued + moved) + left' == all
  {
  }

  lemma NotCounted(queued: multiset<Thread>, moved: seq<Thread>, cur: Thread)
    requires cur !in moved
    ensures (queued + multiset(moved))[cur] == queued[cur]
  {
  }

  lemma SpreadNext(q0: seq<seq<Thread>>, qs: seq<seq<Thread>>, me: nat, share: nat, cur: Thread, i: nat,
                   moved: seq<Thread>)
    requires Spread(q0, qs, me, share, cur) && i < |qs| && qs[i] == q0[i] && cur !in moved
    requires |qs[i]| + |moved| <= share || moved == []
    ensures Spread(q0, qs[i := qs[i] + moved], me, share, cur)
  {
    if moved == [] { assert qs[i] + moved == qs[i]; }
  }

  /** A thread that was on the victim list is on no queue, so moving it upsets no other
      thread's processor. */
  lemma StillPlaced(qs: seq<seq<Thread>>, i: nat, moved: seq<Thread>, had: seq<Thread>, all: multiset<Thread>,
                    was: map<Thread, nat>, now: map<Thread, nat>)
    requires i < |qs| && AllOf(qs) + multiset(had) == all && AtMostOnce(all) && multiset(moved) <= multiset(had)
    requires PlacedIn(qs, was)
    requires Renamed(was, now, moved, i)
    ensures PlacedIn(qs[i := qs[i] + moved], now)
  {
    forall c, t | 0 <= c < |qs| && t in qs[c] ensures t !in moved { QueuedNotMoved(qs, c, moved, had, t); }
    PlacedAfter(qs, i, moved, was, now);
  }

  /** Nobody on a queue moved, and those who moved name processor i. */
  lemma PlacedAfter(qs: seq<seq<Thread>>, i: nat, moved: seq<Thread>, was: map<Thread, nat>, now: map<Thread, nat>)
    requires i < |qs| && PlacedIn(qs, was) && forall c, t :: 0 <= c < |qs| && t in qs[c] ==> t !in moved
    requires Renamed(was, now, moved, i)
    ensures PlacedIn(qs[i := qs[i] + moved], now)
  {
    var qs' := qs[i := qs[i] + moved];
    forall c, t | 0 <= c < |qs'| && t in qs'[c] ensures t in now && now[t] == c {
      PlacedOne(qs, i, moved, was, now, c, t);
    }
  }

  lemma PlacedOne(qs: seq<seq<Thread>>, i: nat, moved: seq<Thread>, was: map<Thread, nat>,
                  now: map<Thread, nat>, c: nat, t: Thread)
    requires i < |qs| && c < |qs| && PlacedIn(qs, was) && (t in qs[c] ==> t !in moved)
    requires t in now <==> t in was || t in moved
    requires t in now ==> now[t] == if t in moved then i else was[t]
    requires t in qs[i := qs[i] + moved][c]
    ensures t in now && now[t] == c
  {
  }

  lemma QueuedNotMoved(qs: seq<seq<Thread>>, c: nat, moved: seq<Thread>, had: seq<Thread>, t: Thread)
    requires c < |qs| && t in qs[c] && AtMostOnce(AllOf(qs) + multiset(had)) && multiset(moved) <= multiset(had)
    ensures t !in moved
  {
    OnSomeQueue(qs, c, t);
    NotAmong(AllOf(qs), multiset(had), multiset(moved), t);
  }

  lemma NotAmong(queued: multiset<Thread>, had: multiset<Thread>, moved: multiset<Thread>, t: Thread)
    requires AtMostOnce(queued + had) && moved <= had && queued[t] > 0
    ensures moved[t] == 0
  {
    assert (queued + had)[t] == queued[t] + had[t];
  }

  lemma AppendToQueue(qs: seq<seq<Thread>>, i: nat, moved: seq<Thread>)
    requires i < |qs|
    ensures AllOf(qs[i := qs[i] + moved]) == AllOf(qs) + multiset(moved)
  {
    AllOfUpdate(qs, i, qs[i] + moved);
    assert multiset(qs[i] + moved) == multiset(qs[i]) + multiset(moved);
    Cancel(AllOf(qs[i := qs[i] + moved]), AllOf(qs) + multiset(moved), multiset(qs[i]));
  }

  lemma Cancel(a: multiset<Thread>, b: multiset<Thread>, c: multiset<Thread>)
    requires a + c == b + c
    ensures a == b
  {
    assert (a + c) - c == a && (b + c) - c == b;
  }

  predicate AllAre(s: seq<Thread>, t: Thread) { forall k :: 0 <= k < |s| ==> s[k] == t }

  lemma HeadAndRest(s: seq<Thread>)
    requires s != []
    ensures multiset(s) == multiset{s[0]} + multiset(s[1..])
  {
    assert s == [s[0]] + s[1..];
  }
}
