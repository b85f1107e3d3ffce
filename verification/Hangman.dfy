/** The deadlock detector: the waits-for graph stays free of cycles, and a wait is
    reported exactly when it would close one.

    Source: kern/thread/hangman.c. */
module Hangman {

  /** Actors and lockables are named by numbers. */
  type Actor = int
  type Lockable = int

  datatype Reached = Nowhere | At(actor: Actor)

  /** a_waiting of every actor and l_holding of every lockable; a key that is absent
      is a null pointer. */
  datatype Graph = Graph(waiting: map<Actor, Lockable>, holding: map<Lockable, Actor>)

  function Holder(g: Graph, l: Lockable): Reached {
    if l in g.holding then At(g.holding[l]) else Nowhere
  }

  /** The actor that `a` waits for, if any. */
  function Next(g: Graph, a: Actor): Reached {
    if a in g.waiting then Holder(g, g.waiting[a]) else Nowhere
  }

  /** The actor k steps along the graph. */
  function Walk(g: Graph, from: Reached, k: nat): Reached
    decreases k
  {
    if k == 0 || from.Nowhere? then from else Walk(g, Next(g, from.actor), k - 1)
  }

  ghost predicate Acyclic(g: Graph) {
    forall a, k {:trigger Walk(g, At(a), k)} :: k > 0 ==> Walk(g, At(a), k) != At(a)
  }

  /** The condition hangman_check looks for: a path from the lockable to the actor. */
  ghost predicate Leads(g: Graph, l: Lockable, a: Actor) {
    exists k: nat :: Walk(g, Holder(g, l), k) == At(a)
  }

  // ----------------------------------------------------------------------- walks

  lemma {:induction false} WalkAdd(g: Graph, from: Reached, i: nat, j: nat)
    ensures Walk(g, Walk(g, from, i), j) == Walk(g, from, i + j)
    decreases i
  {
    if i > 0 && from.At? {
      WalkAdd(g, Next(g, from.actor), i - 1, j);
    } else if from.Nowhere? {
      NowhereStays(g, i);
      NowhereStays(g, j);
    }
  }

  lemma NowhereStays(g: Graph, k: nat)
    ensures Walk(g, Nowhere, k) == Nowhere
  {
  }

  /** In a graph without cycles a walk meets no actor twice. */
  lemma NoRepeat(g: Graph, from: Reached, i: nat, j: nat)
    requires Acyclic(g) && i < j && Walk(g, from, j).At?
    ensures Walk(g, from, i) != Walk(g, from, j)
  {
    WalkAdd(g, from, i, j - i);
  }

  /** A cycle can be entered at any actor on it. */
  lemma Rotate(g: Graph, x: Actor, k: nat, i: nat)
    requires Walk(g, At(x), k) == At(x)
    ensures Walk(g, Walk(g, At(x), i), k) == Walk(g, At(x), i)
  {
    WalkAdd(g, At(x), i, k);
    WalkAdd(g, At(x), k, i);
  }

  // ----------------------------------------------------- what each operation changes

  function WithWait(g: Graph, a: Actor, l: Lockable): Graph { g.(waiting := g.waiting[a := l]) }

  function WithAcquire(g: Graph, a: Actor, l: Lockable): Graph {
    Graph(g.waiting - {a}, g.holding[l := a])
  }

  function WithRelease(g: Graph, l: Lockable): Graph { g.(holding := g.holding - {l}) }

  /** All actors but a wait for what they did, and all lockables but l are held as they were. */
  ghost predicate ElseSame(g: Graph, h: Graph, a: Actor, l: Lockable) {
    && (forall x :: x != a ==> (x in h.waiting <==> x in g.waiting))
    && (forall x :: x != a && x in g.waiting ==> h.waiting[x] == g.waiting[x])
    && (forall m :: m != l ==> Holder(h, m) == Holder(g, m))
  }

  /** A walk that meets `a` only at its end is the same with and without a's edge. */
  lemma {:induction false} WalkAvoiding(g: Graph, h: Graph, a: Actor, from: Reached, k: nat)
    requires forall x :: x != a ==> Next(h, x) == Next(g, x)
    requires forall i :: 0 <= i < k ==> Walk(g, from, i) != At(a)
    ensures Walk(h, from, k) == Walk(g, from, k)
    decreases k
  {
    if k > 0 && from.At? {
      assert Walk(g, from, 0) == from;
      forall i | 0 <= i < k - 1 ensures Walk(g, Next(g, from.actor), i) != At(a) {
        assert Walk(g, from, i + 1) == Walk(g, Next(g, from.actor), i);
      }
      WalkAvoiding(g, h, a, Next(g, from.actor), k - 1);
    }
  }

  /** The least number of steps after which a walk is at `a`. */
  lemma {:induction false} FirstVisit(g: Graph, from: Reached, a: Actor, k: nat) returns (j: nat)
    requires Walk(g, from, k) == At(a)
    ensures j <= k && Walk(g, from, j) == At(a) && forall i :: 0 <= i < j ==> Walk(g, from, i) != At(a)
    decreases k
  {
    if i: nat :| i < k && Walk(g, from, i) == At(a) {
      j := FirstVisit(g, from, a, i);
    } else {
      j := k;
    }
  }

  /** An actor that waits for nothing starts no walk. */
  lemma StuckActor(g: Graph, a: Actor, from: Reached, k: nat, i: nat)
    requires Next(g, a) == Nowhere && Walk(g, from, k) == At(a) && i < k
    ensures Walk(g, from, i) != At(a)
  {
    if Walk(g, from, i) == At(a) {
      WalkAdd(g, from, i, k - i);
    }
  }

  /** A new wait closes a cycle exactly when a path leads from the lockable back to
      the actor. */
  lemma WaitClosesCycleIff(g: Graph, a: Actor, l: Lockable)
    requires Acyclic(g) && a !in g.waiting
    ensures Acyclic(WithWait(g, a, l)) <==> !Leads(g, l, a)
  {
    var h := WithWait(g, a, l);
    if Leads(g, l, a) {
      var k: nat :| Walk(g, Holder(g, l), k) == At(a);
      forall i | 0 <= i < k ensures Walk(g, Holder(g, l), i) != At(a) {
        StuckActor(g, a, Holder(g, l), k, i);
      }
      WalkAvoiding(g, h, a, Holder(g, l), k);
      assert Walk(h, At(a), k + 1) == At(a);
    } else {
      forall x, k | k > 0 ensures Walk(h, At(x), k) != At(x) {
        if Walk(h, At(x), k) == At(x) {
          CycleImpliesLead(g, a, l, x, k);
        }
      }
    }
  }

  lemma CycleImpliesLead(g: Graph, a: Actor, l: Lockable, x: Actor, k: nat)
    requires Acyclic(g) && a !in g.waiting && k > 0 && Walk(WithWait(g, a, l), At(x), k) == At(x)
    ensures Leads(g, l, a)
  {
    var h := WithWait(g, a, l);
    if i: nat :| i < k && Walk(h, At(x), i) == At(a) {
      Rotate(h, x, k, i);
      assert Walk(h, Holder(g, l), k - 1) == At(a);
      var j := FirstVisit(h, Holder(g, l), a, k - 1);
      WalkAvoiding(h, g, a, Holder(g, l), j);
      assert Walk(g, Holder(g, l), j) == At(a);
    } else {
      WalkAvoiding(h, g, a, At(x), k);
    }
  }

  /** The actor that acquires stops waiting, so no cycle goes through it. */
  lemma AcquireKeepsAcyclic(g: Graph, a: Actor, l: Lockable)
    requires Acyclic(g) && a in g.waiting && g.waiting[a] == l && l !in g.holding
    ensures Acyclic(WithAcquire(g, a, l))
  {
    var h := WithAcquire(g, a, l);
    forall x, k | k > 0 ensures Walk(h, At(x), k) != At(x) {
      if Walk(h, At(x), k) == At(x) {
        NotThroughStuck(h, a, x, k);
        SameUntil(h, g, a, At(x), k);
      }
    }
  }

  /** No cycle goes through an actor that waits for nothing. */
  lemma NotThroughStuck(h: Graph, a: Actor, x: Actor, k: nat)
    requires Next(h, a) == Nowhere && k > 0 && Walk(h, At(x), k) == At(x)
    ensures forall i :: 0 <= i <= k ==> Walk(h, At(x), i) != At(a)
  {
    forall i | 0 <= i <= k ensures Walk(h, At(x), i) != At(a) {
      if Walk(h, At(x), i) == At(a) {
        Rotate(h, x, k, i);
      }
    }
  }

  /** Edges that do not end at `a` are the same in both graphs. */
  lemma {:induction false} SameUntil(h: Graph, g: Graph, a: Actor, from: Reached, k: nat)
    requires forall x :: Next(h, x) != Nowhere && Next(h, x) != At(a) ==> Next(g, x) == Next(h, x)
    requires Walk(h, from, k).At? && forall i :: 0 <= i <= k ==> Walk(h, from, i) != At(a)
    ensures Walk(g, from, k) == Walk(h, from, k)
    decreases k
  {
    if k > 0 && from.At? {
      var n := Next(h, from.actor);
      forall i | 0 <= i <= k - 1 ensures Walk(h, n, i) != At(a) {
        assert Walk(h, from, i + 1) == Walk(h, n, i);
      }
      NowhereStays(h, k - 1);
      assert Walk(h, n, 0) == n;
      SameUntil(h, g, a, n, k - 1);
    }
  }

  /** Releasing only removes edges. */
  lemma ReleaseKeepsAcyclic(g: Graph, l: Lockable)
    requires Acyclic(g)
    ensures Acyclic(WithRelease(g, l))
  {
    var h := WithRelease(g, l);
    forall x, k | k > 0 ensures Walk(h, At(x), k) != At(x) {
      if Walk(h, At(x), k) == At(x) { FewerEdges(h, g, At(x), k); }
    }
  }

  lemma {:induction false} FewerEdges(h: Graph, g: Graph, from: Reached, k: nat)
    requires forall x :: Next(h, x) != Nowhere ==> Next(g, x) == Next(h, x)
    requires Walk(h, from, k).At?
    ensures Walk(g, from, k) == Walk(h, from, k)
    decreases k
  {
    if k > 0 && from.At? {
      NowhereStays(h, k - 1);
      FewerEdges(h, g, Next(h, from.actor), k - 1);
    }
  }

  // -------------------------------------------------------------------- the detector

  datatype Outcome = Done | Skipped | Deadlock | Misuse

  /** The lockable of hangman_lock itself, which the detector leaves out. */
  const HANGMAN_LOCK: Lockable := -1

  class Detector {
    var waiting: map<Actor, Lockable>
    var holding: map<Lockable, Actor>

    constructor ()
      ensures State() == START && Acyclic(State())
    {
      waiting, holding := map[], map[];
      NoEdges();
    }

    ghost function State(): Graph
      reads this
    {
      Graph(waiting, holding)
    }

    /** hangman_check: the walk ends, because in a graph without cycles it meets no
        actor twice, and it finds the target exactly when a path leads there. */
    method Check(start: Lockable, target: Actor) returns (found: bool)
      requires Acyclic(State())
      ensures found <==> Leads(State(), start, target)
    {
      ghost var g := State();
      ghost var from := Holder(g, start);
      var cur := if start in holding then At(holding[start]) else Nowhere;
      ghost var k: nat := 0;
      ghost var visited: set<Actor> := {};
      while cur.At?
        invariant cur == Walk(g, from, k)
        invariant visited <= waiting.Keys && forall x :: x in visited ==> MetBefore(g, from, k, x)
        invariant forall i :: 0 <= i < k ==> Walk(g, from, i) != At(target)
        decreases waiting.Keys - visited, cur.At?
      {
        if cur.actor == target {
          return true;
        }
        if cur.actor !in waiting {
          PathEnds(g, from, k, target);
          return false;
        }
        NotMetBefore(g, from, k, cur.actor);
        visited := visited + {cur.actor};
        StepOn(g, from, k, visited - {cur.actor}, cur.actor);
        var l := waiting[cur.actor];
        cur := if l in holding then At(holding[l]) else Nowhere;
        k := k + 1;
      }
      PathEnds(g, from, k, target);
      found := false;
    }

    /** hangman_wait. */
    method Wait(a: Actor, l: Lockable) returns (r: Outcome)
      requires Acyclic(State())
      modifies this
      ensures Acyclic(State())
      ensures State() == if r == Done then WithWait(old(State()), a, l) else old(State())
      ensures ElseSame(old(State()), State(), a, l) && holding == old(holding)
      ensures r == Done ==> a in waiting && waiting[a] == l
      ensures r == Skipped <==> l == HANGMAN_LOCK
      ensures r == Misuse <==> l != HANGMAN_LOCK && a in old(waiting)
      ensures r == Deadlock <==>
                l != HANGMAN_LOCK && a !in old(waiting) && !Acyclic(WithWait(old(State()), a, l))
    {
      if l == HANGMAN_LOCK {
        return Skipped;
      }
      if a in waiting {
        return Misuse;
      }
      WaitClosesCycleIff(State(), a, l);
      var found := Check(l, a);
      if found {
        return Deadlock;
      }
      waiting := waiting[a := l];
      r := Done;
    }

    /** hangman_acquire. */
    method Acquire(a: Actor, l: Lockable) returns (r: Outcome)
      requires Acyclic(State())
      modifies this
      ensures Acyclic(State())
      ensures State() == if r == Done then WithAcquire(old(State()), a, l) else old(State())
      ensures ElseSame(old(State()), State(), a, l)
      ensures r == Done ==> a !in waiting && l in holding && holding[l] == a
      ensures r == Skipped <==> l == HANGMAN_LOCK
      ensures r == Done <==>
                l != HANGMAN_LOCK && a in old(waiting) && old(waiting)[a] == l && l !in old(holding)
    {
      if l == HANGMAN_LOCK {
        return Skipped;
      }
      if a !in waiting || waiting[a] != l {
        return Misuse;
      }
      if l in holding {
        return Misuse;
      }
      AcquireKeepsAcyclic(State(), a, l);
      holding := holding[l := a];
      waiting := waiting - {a};
      r := Done;
    }

    /** hangman_release. */
    method Release(a: Actor, l: Lockable) returns (r: Outcome)
      requires Acyclic(State())
      modifies this
      ensures Acyclic(State())
      ensures State() == if r == Done then WithRelease(old(State()), l) else old(State())
      ensures ElseSame(old(State()), State(), a, l) && waiting == old(waiting)
      ensures r == Done ==> l !in holding
      ensures r == Skipped <==> l == HANGMAN_LOCK
      ensures r == Done <==>
                l != HANGMAN_LOCK && a !in old(waiting) && l in old(holding) && old(holding)[l] == a
    {
      if l == HANGMAN_LOCK {
        return Skipped;
      }
      if a in waiting {
        return Misuse;
      }
      if l !in holding || holding[l] != a {
        return Misuse;
      }
      ReleaseKeepsAcyclic(State(), l);
      holding := holding - {l};
      r := Done;
    }
  }

  ghost predicate MetBefore(g: Graph, from: Reached, k: nat, x: Actor) {
    exists i :: 0 <= i < k && Walk(g, from, i) == At(x)
  }

  lemma NotMetBefore(g: Graph, from: Reached, k: nat, x: Actor)
    requires Acyclic(g) && Walk(g, from, k) == At(x)
    ensures !MetBefore(g, from, k, x)
  {
    forall i | 0 <= i < k ensures Walk(g, from, i) != At(x) {
      NoRepeat(g, from, i, k);
    }
  }

  lemma StepOn(g: Graph, from: Reached, k: nat, visited: set<Actor>, x: Actor)
    requires Walk(g, from, k) == At(x) && forall y :: y in visited ==> MetBefore(g, from, k, y)
    ensures Walk(g, from, k + 1) == Next(g, x)
    ensures forall y :: y in visited + {x} ==> MetBefore(g, from, k + 1, y)
  {
    WalkAdd(g, from, k, 1);
    assert Walk(g, At(x), 1) == Walk(g, Next(g, x), 0);
    forall y | y in visited ensures MetBefore(g, from, k + 1, y) {
      var i :| 0 <= i < k && Walk(g, from, i) == At(y);
    }
    assert 0 <= k < k + 1 && Walk(g, from, k) == At(x);
  }

  /** Nothing more lies beyond the end of a path. */
  lemma PathEnds(g: Graph, from: Reached, k: nat, a: Actor)
    requires Walk(g, from, k) == Nowhere || (Walk(g, from, k) != At(a) && Next(g, Walk(g, from, k).actor) == Nowhere)
    requires forall i :: 0 <= i < k ==> Walk(g, from, i) != At(a)
    ensures forall i: nat :: Walk(g, from, i) != At(a)
  {
    forall i: nat ensures Walk(g, from, i) != At(a) {
      if i > k {
        WalkAdd(g, from, k, i - k);
        NowhereStays(g, i - k);
        NowhereStays(g, i - k - 1);
      }
    }
  }

  // ------------------------------------------------------------------------- runs

  datatype Op = OpWait(a: Actor, l: Lockable) | OpAcquire(a: Actor, l: Lockable) | OpRelease(a: Actor, l: Lockable)

  /** The operation returns; otherwise it panics and the run ends. */
  ghost predicate Allowed(g: Graph, op: Op) {
    match op
    case OpWait(a, l) => a !in g.waiting && !Leads(g, l, a)
    case OpAcquire(a, l) => a in g.waiting && g.waiting[a] == l && l !in g.holding
    case OpRelease(a, l) => a !in g.waiting && l in g.holding && g.holding[l] == a
  }

  function After(g: Graph, op: Op): Graph {
    match op
    case OpWait(a, l) => WithWait(g, a, l)
    case OpAcquire(a, l) => WithAcquire(g, a, l)
    case OpRelease(_, l) => WithRelease(g, l)
  }

  /** Whether a sequence of operations runs to its end, and where it leads. */
  ghost predicate Runs(g: Graph, ops: seq<Op>, h: Graph)
    decreases ops
  {
    if ops == [] then g == h else Allowed(g, ops[0]) && Runs(After(g, ops[0]), ops[1..], h)
  }

  /** Over every run the waits-for graph has no cycle. */
  lemma {:induction false} RunsStayAcyclic(g: Graph, ops: seq<Op>, h: Graph)
    requires Acyclic(g) && Runs(g, ops, h)
    ensures Acyclic(h)
    decreases ops
  {
    if ops != [] {
      match ops[0] {
        case OpWait(a, l) => WaitClosesCycleIff(g, a, l);
        case OpAcquire(a, l) => AcquireKeepsAcyclic(g, a, l);
        case OpRelease(a, l) => ReleaseKeepsAcyclic(g, l);
      }
      RunsStayAcyclic(After(g, ops[0]), ops[1..], h);
    }
  }

  // ----------------------------------------------------- the graph by what has happened

  const START := Graph(map[], map[])

  /** The actor that acquired l and has not released it since. */
  function HeldBy(ops: seq<Op>, l: Lockable): Reached {
    if ops == [] then Nowhere
    else
      match ops[|ops| - 1]
      case OpAcquire(a, m) => if m == l then At(a) else HeldBy(ops[..|ops| - 1], l)
      case OpRelease(_, m) => if m == l then Nowhere else HeldBy(ops[..|ops| - 1], l)
      case OpWait(_, _) => HeldBy(ops[..|ops| - 1], l)
  }

  /** `a` began to wait for l and has acquired nothing since. */
  predicate WaitsFor(ops: seq<Op>, a: Actor, l: Lockable) {
    ops != [] &&
    match ops[|ops| - 1]
    case OpWait(x, m) => if x == a then m == l else WaitsFor(ops[..|ops| - 1], a, l)
    case OpAcquire(x, _) => x != a && WaitsFor(ops[..|ops| - 1], a, l)
    case OpRelease(_, _) => WaitsFor(ops[..|ops| - 1], a, l)
  }

  /** The graph says who holds and who waits. */
  ghost predicate Records(g: Graph, ops: seq<Op>) {
    && (forall l :: Holder(g, l) == HeldBy(ops, l))
    && (forall a, l :: WaitsFor(ops, a, l) <==> a in g.waiting && g.waiting[a] == l)
  }

  lemma StepRecords(g: Graph, ops: seq<Op>, op: Op)
    requires Records(g, ops)
    ensures Records(After(g, op), ops + [op])
  {
    var h, more := After(g, op), ops + [op];
    assert more[..|more| - 1] == ops;
    forall l ensures Holder(h, l) == HeldBy(more, l) { assert Holder(g, l) == HeldBy(ops, l); }
    forall a, l ensures WaitsFor(more, a, l) <==> a in h.waiting && h.waiting[a] == l {
      assert WaitsFor(ops, a, l) <==> a in g.waiting && g.waiting[a] == l;
    }
  }

  lemma {:induction false} RunRecords(g: Graph, past: seq<Op>, ops: seq<Op>, h: Graph)
    requires Records(g, past) && Runs(g, ops, h)
    ensures Records(h, past + ops)
    decreases ops
  {
    if ops == [] {
      assert past + ops == past;
    } else {
      StepRecords(g, past, ops[0]);
      RunRecords(After(g, ops[0]), past + [ops[0]], ops[1..], h);
      assert (past + [ops[0]]) + ops[1..] == past + ops;
    }
  }

  /** A chain of hold-ups, by what has happened: the holder of l waits for a lockable whose
      holder waits, and so on, k times, to `a`. */
  ghost predicate HeldUp(ops: seq<Op>, l: Lockable, a: Actor, k: nat)
    decreases k
  {
    && HeldBy(ops, l).At?
    && if k == 0 then HeldBy(ops, l) == At(a)
       else exists m :: WaitsFor(ops, HeldBy(ops, l).actor, m) && HeldUp(ops, m, a, k - 1)
  }

  lemma {:induction false} WalkIsHeldUp(g: Graph, ops: seq<Op>, l: Lockable, a: Actor, k: nat)
    requires Records(g, ops)
    ensures Walk(g, Holder(g, l), k) == At(a) <==> HeldUp(ops, l, a, k)
    decreases k
  {
    assert Holder(g, l) == HeldBy(ops, l);
    if k > 0 && Holder(g, l).At? {
      var x := Holder(g, l).actor;
      if x in g.waiting {
        var m := g.waiting[x];
        assert WaitsFor(ops, x, m);
        WalkIsHeldUp(g, ops, m, a, k - 1);
        assert forall n :: WaitsFor(ops, x, n) ==> n == m;
      } else {
        NowhereStays(g, k - 1);
        assert forall n :: !WaitsFor(ops, x, n);
      }
    }
  }

  /** By what has happened, op returns: who waits does not wait already, and no chain leads
      from the lockable back to it; who acquires waited for the lockable, which is free; who
      releases holds it and does not wait. */
  ghost predicate Returns(ops: seq<Op>, op: Op) {
    match op
    case OpWait(a, l) => (forall m :: !WaitsFor(ops, a, m)) && (forall k: nat :: !HeldUp(ops, l, a, k))
    case OpAcquire(a, l) => WaitsFor(ops, a, l) && HeldBy(ops, l) == Nowhere
    case OpRelease(a, l) => (forall m :: !WaitsFor(ops, a, m)) && HeldBy(ops, l) == At(a)
  }

  lemma AllowedIffReturns(g: Graph, ops: seq<Op>, op: Op)
    requires Records(g, ops)
    ensures Allowed(g, op) <==> Returns(ops, op)
  {
    var a, l := op.a, op.l;
    assert Holder(g, l) == HeldBy(ops, l);
    assert a in g.waiting ==> WaitsFor(ops, a, g.waiting[a]);
    forall k: nat ensures Walk(g, Holder(g, l), k) == At(a) <==> HeldUp(ops, l, a, k) {
      WalkIsHeldUp(g, ops, l, a, k);
    }
  }

  /** Over every run from the start the graph holds what has happened and nothing else, and
      what may come next can be told from what has happened. */
  lemma RunsAreRecorded(ops: seq<Op>, g: Graph, op: Op)
    requires Runs(START, ops, g)
    ensures Records(g, ops) && Acyclic(g) && (Allowed(g, op) <==> Returns(ops, op))
  {
    RunRecords(START, [], ops, g);
    assert [] + ops == ops;
    NoEdges();
    RunsStayAcyclic(START, ops, g);
    AllowedIffReturns(g, ops, op);
  }

  lemma NoEdges()
    ensures Acyclic(START)
  {
    assert forall a, k {:trigger Walk(START, At(a), k)} :: k > 0 ==>
      Walk(START, At(a), k) == Walk(START, Nowhere, k - 1);
  }
}
