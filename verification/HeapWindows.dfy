/** Descriptors of the kernel heap while several callers are at work: allocpageref marks a
    descriptor and then, if its root has no page yet, drops the heap's lock to get one. The
    module says exactly when the assertion of freepageref on roots without a page holds.

    Source: kern/vm/kmalloc.c (allocpagerefpage, allocpageref, freepageref). */
module HeapWindows {
  import opened Common
  import opened HeapDescriptors

  /** The roots; the descriptors whose caller is inside allocpagerefpage, without the lock;
      those handed out; and those marked for a caller that got no page, which nobody
      gives back. */
  datatype State = State(roots: seq<Root>, pending: set<int>, held: set<int>, lost: set<int>)

  datatype Event =
    | Begin(r: int)              // allocpageref, up to its return or to the dropped lock
    | Arrive(r: int, va: int)    // allocpagerefpage has the lock again, alloc_kpages gave va
    | Free(r: int)               // freepageref

  function Home(r: int): int { r / NPAGEREFS_PER_PAGE }

  predicate Descriptor(r: int) { 0 <= r < TOTAL_PAGEREFS }

  /** The assertion on every root that freepageref passes on its way to r's. */
  predicate FreeAsserts(roots: seq<Root>, r: int)
    requires |roots| == NUM_PAGEREFPAGES && Descriptor(r)
  {
    forall k :: 0 <= k < Home(r) ==> (roots[k].page == 0 ==> roots[k].numinuse == 0)
  }

  ghost predicate Step(s: State, ev: Event, t: State) {
    && Counted(s.roots)
    && match ev
       case Begin(r) =>
         && Descriptor(r) && !InUse(s.roots, r) && (forall q :: 0 <= q < r ==> InUse(s.roots, q))
         && t == (if s.roots[Home(r)].page != 0 then s.(roots := Reserve(s.roots, r, 0), held := s.held + {r})
                  else s.(roots := Reserve(s.roots, r, 0), pending := s.pending + {r}))
       case Arrive(r, va) =>
         && r in s.pending && Descriptor(r)
         && (var root := s.roots[Home(r)];
             t == if root.page == 0 && va == 0 then s.(pending := s.pending - {r}, lost := s.lost + {r})
                  else State(s.roots[Home(r) := root.(page := if root.page == 0 then va else root.page)],
                             s.pending - {r}, s.held + {r}, s.lost))
       case Free(r) =>
         && r in s.held && Descriptor(r) && FreeAsserts(s.roots, r)
         && t == s.(roots := Unreserve(s.roots, r), held := s.held - {r})
  }

  // --------------------------------------------------------------------- the invariant

  ghost predicate Counted(roots: seq<Root>) {
    && |roots| == NUM_PAGEREFPAGES
    && forall k :: 0 <= k < |roots| ==>
         Words(roots[k].inuse) && roots[k].numinuse == Count(roots[k].inuse, NPAGEREFS_PER_PAGE)
  }

  /** The marked descriptors are those in one of the three states. */
  ghost predicate Accounted(s: State) {
    && (forall r :: InUse(s.roots, r) <==> r in s.pending || r in s.held || r in s.lost)
    && s.pending !! s.held && s.pending !! s.lost && s.held !! s.lost
  }

  /** A descriptor handed out lies on its root's page. */
  ghost predicate HeldHavePages(s: State)
    requires Counted(s.roots)
  {
    forall r :: r in s.held ==> Descriptor(r) && s.roots[Home(r)].page != 0
  }

  /** A later root is used only once an earlier one is full, and one without a page stays so. */
  ghost predicate InOrder(s: State)
    requires Counted(s.roots)
  {
    forall r, q :: InUse(s.roots, r) && 0 <= q && Home(q) < Home(r) && s.roots[Home(q)].page == 0 ==> InUse(s.roots, q)
  }

  ghost predicate Inv(s: State) { Counted(s.roots) && Accounted(s) && HeldHavePages(s) && InOrder(s) }

  lemma {:induction false} CountPositive(ws: seq<seq<bool>>, n: nat)
    requires Words(ws) && n <= NPAGEREFS_PER_PAGE
    ensures Count(ws, n) > 0 <==> exists i :: 0 <= i < n && Used(ws, i)
  {
    if n > 0 { CountPositive(ws, n - 1); }
  }

  lemma MarkCounted(roots: seq<Root>, r: int)
    requires Counted(roots) && Descriptor(r) && !InUse(roots, r)
    ensures var roots' := Reserve(roots, r, 0);
            && Counted(roots') && (forall q :: InUse(roots', q) <==> InUse(roots, q) || q == r)
            && forall k :: 0 <= k < |roots| ==> roots'[k].page == roots[k].page
  {
    CountWithBit(roots[Home(r)].inuse, r % NPAGEREFS_PER_PAGE, true, NPAGEREFS_PER_PAGE);
    SameIndex(r);
  }

  lemma ClearCounted(roots: seq<Root>, r: int)
    requires Counted(roots) && Descriptor(r) && InUse(roots, r)
    ensures var roots' := Unreserve(roots, r);
            && Counted(roots') && (forall q :: InUse(roots', q) <==> InUse(roots, q) && q != r)
            && forall k :: 0 <= k < |roots| ==> roots'[k].page == roots[k].page
  {
    CountWithBit(roots[Home(r)].inuse, r % NPAGEREFS_PER_PAGE, false, NPAGEREFS_PER_PAGE);
    SameIndex(r);
  }

  lemma BeginKeeps(s: State, r: int, t: State)
    requires Inv(s) && Step(s, Begin(r), t)
    ensures Inv(t)
  {
    MarkCounted(s.roots, r);
  }

  lemma ArriveKeeps(s: State, r: int, va: int, t: State)
    requires Inv(s) && Step(s, Arrive(r, va), t)
    ensures Inv(t)
  {
    assert forall q :: InUse(t.roots, q) <==> InUse(s.roots, q);
  }

  lemma FreeKeeps(s: State, r: int, t: State)
    requires Inv(s) && Step(s, Free(r), t)
    ensures Inv(t)
  {
    ClearCounted(s.roots, r);
  }

  lemma StepKeepsInv(s: State, ev: Event, t: State)
    requires Inv(s) && Step(s, ev, t)
    ensures Inv(t)
  {
    match ev
    case Begin(r) => BeginKeeps(s, r, t);
    case Arrive(r, va) => ArriveKeeps(s, r, va, t);
    case Free(r) => FreeKeeps(s, r, t);
  }

  // ------------------------------------------------------------------------- whole runs

  ghost predicate Boot(s: State) {
    && s.pending == {} && s.held == {} && s.lost == {} && Counted(s.roots)
    && (forall k :: 0 <= k < |s.roots| ==> s.roots[k].page == 0)
    && (forall r :: !InUse(s.roots, r))
  }

  ghost predicate IsRun(ss: seq<State>, evs: seq<Event>) {
    && |ss| == |evs| + 1 && Boot(ss[0])
    && forall k {:trigger StepAt(ss, evs, k)} :: 0 <= k < |evs| ==> StepAt(ss, evs, k)
  }

  ghost predicate StepAt(ss: seq<State>, evs: seq<Event>, k: int)
    requires 0 <= k < |evs| && |ss| == |evs| + 1
  {
    Step(ss[k], evs[k], ss[k + 1])
  }

  lemma {:induction false} RunsKeepInv(ss: seq<State>, evs: seq<Event>, k: nat)
    requires IsRun(ss, evs) && k < |ss|
    ensures Inv(ss[k])
  {
    if k > 0 {
      RunsKeepInv(ss, evs, k - 1);
      assert StepAt(ss, evs, k - 1);
      StepKeepsInv(ss[k - 1], evs[k - 1], ss[k]);
    }
  }

  /** All of root k's descriptors are marked, and none has come with a page: each caller is
      still waiting for one, or got none. */
  ghost predicate Swamped(s: State, k: int)
    requires |s.roots| == NUM_PAGEREFPAGES && 0 <= k < NUM_PAGEREFPAGES
  {
    s.roots[k].page == 0 && forall q {:trigger Descriptor(q)} :: Descriptor(q) && Home(q) == k ==>
      q in s.pending || q in s.lost
  }

  lemma PassedRoot(s: State, r: int, k: int)
    requires Inv(s) && r in s.held && 0 <= k < Home(r) && s.roots[k].page == 0
    ensures s.roots[k].numinuse == 0 <==> !Swamped(s, k)
  {
    var ws := s.roots[k].inuse;
    CountPositive(ws, NPAGEREFS_PER_PAGE);
    if s.roots[k].numinuse != 0 {
      forall q | Descriptor(q) && Home(q) == k ensures q in s.pending || q in s.lost { assert InUse(s.roots, q); }
    }
    if Swamped(s, k) {
      var q := k * NPAGEREFS_PER_PAGE;
      assert Descriptor(q) && Home(q) == k && q % NPAGEREFS_PER_PAGE == 0;
      assert InUse(s.roots, q);
      assert Used(ws, 0);
    }
  }

  lemma AssertsIff(s: State, r: int)
    requires Inv(s) && r in s.held
    ensures FreeAsserts(s.roots, r) <==> forall k :: 0 <= k < Home(r) ==> !Swamped(s, k)
  {
    forall k | 0 <= k < Home(r) ensures Swamped(s, k) <==> (s.roots[k].page == 0 && s.roots[k].numinuse != 0) {
      if s.roots[k].page == 0 { PassedRoot(s, r, k); }
    }
  }

  /** In every interleaving, freeing a descriptor fails no assertion if and only if no root
      before its own is swamped. */
  lemma AssertionHoldsIff(ss: seq<State>, evs: seq<Event>, i: nat, r: int)
    requires IsRun(ss, evs) && i < |ss| && r in ss[i].held
    ensures Counted(ss[i].roots) && Descriptor(r)
    ensures FreeAsserts(ss[i].roots, r) <==> forall k :: 0 <= k < Home(r) ==> !Swamped(ss[i], k)
  {
    RunsKeepInv(ss, evs, i);
    AssertsIff(ss[i], r);
  }

  /** So it holds as long as fewer than 256 callers are waiting for such a page or have got
      none. */
  lemma FewWaitersNoFailure(ss: seq<State>, evs: seq<Event>, i: nat, r: int)
    requires IsRun(ss, evs) && i < |ss| && r in ss[i].held && |ss[i].pending + ss[i].lost| < NPAGEREFS_PER_PAGE
    ensures Counted(ss[i].roots) && Descriptor(r) && FreeAsserts(ss[i].roots, r)
  {
    AssertionHoldsIff(ss, evs, i, r);
    forall k | 0 <= k < Home(r) ensures !Swamped(ss[i], k) {
      var all := Range(k * NPAGEREFS_PER_PAGE, NPAGEREFS_PER_PAGE);
      if Swamped(ss[i], k) {
        forall q | q in all ensures q in ss[i].pending + ss[i].lost { assert Descriptor(q) && Home(q) == k; }
        SubsetSize(all, ss[i].pending + ss[i].lost);
      }
    }
  }

  /** n callers wait for pages, no root has one, and nothing else has happened. */
  ghost predicate Crowded(s: State, n: nat) {
    && Counted(s.roots) && s.pending == Range(0, n) && s.held == {} && s.lost == {}
    && (forall r :: InUse(s.roots, r) <==> 0 <= r < n)
    && (forall k :: 0 <= k < |s.roots| ==> s.roots[k].page == 0)
  }

  lemma OneMoreWaits(s: State, n: nat) returns (t: State)
    requires Crowded(s, n) && n < TOTAL_PAGEREFS
    ensures Step(s, Begin(n), t) && Crowded(t, n + 1)
  {
    t := s.(roots := Reserve(s.roots, n, 0), pending := s.pending + {n});
    MarkCounted(s.roots, n);
    assert s.pending + {n} == Range(0, n + 1);
  }

  lemma {:induction false} Crowd(s0: State, n: nat) returns (ss: seq<State>, evs: seq<Event>)
    requires Boot(s0) && n <= TOTAL_PAGEREFS
    ensures IsRun(ss, evs) && |evs| == n && Crowded(ss[n], n)
  {
    if n == 0 {
      ss, evs := [s0], [];
    } else {
      ss, evs := Crowd(s0, n - 1);
      var t := OneMoreWaits(ss[n - 1], n - 1);
      ss, evs := Extended(ss, evs, Begin(n - 1), t);
    }
  }

  lemma Extended(ss: seq<State>, evs: seq<Event>, ev: Event, t: State) returns (ss': seq<State>, evs': seq<Event>)
    requires IsRun(ss, evs) && Step(ss[|evs|], ev, t)
    ensures ss' == ss + [t] && evs' == evs + [ev] && IsRun(ss', evs')
  {
    ss', evs' := ss + [t], evs + [ev];
    forall k | 0 <= k < |evs'| ensures StepAt(ss', evs', k) {
      if k < |evs| { assert StepAt(ss, evs, k); }
    }
  }

  /** The caller with a descriptor of the second root gets its page first. */
  lemma SecondRootFirst(s: State, va: int) returns (t: State)
    requires Crowded(s, NPAGEREFS_PER_PAGE + 1) && va != 0
    ensures Step(s, Arrive(NPAGEREFS_PER_PAGE, va), t)
    ensures t.held == {NPAGEREFS_PER_PAGE} && Counted(t.roots) && !FreeAsserts(t.roots, NPAGEREFS_PER_PAGE)
  {
    var r := NPAGEREFS_PER_PAGE;
    t := State(s.roots[1 := s.roots[1].(page := va)], s.pending - {r}, s.held + {r}, s.lost);
    assert Used(s.roots[0].inuse, 0) by { assert InUse(s.roots, 0); }
    CountPositive(s.roots[0].inuse, NPAGEREFS_PER_PAGE);
    assert t.roots[0] == s.roots[0];
  }

  /** It can fail: 256 callers wait for the first root's page, one more takes a descriptor
      of the second root, gets its page first, and frees the descriptor. */
  lemma AssertionCanFail(s0: State, va: int) returns (ss: seq<State>, evs: seq<Event>)
    requires Boot(s0) && va != 0
    ensures IsRun(ss, evs) && |evs| == NPAGEREFS_PER_PAGE + 2
    ensures var s := ss[|evs|];
            NPAGEREFS_PER_PAGE in s.held && Counted(s.roots) && !FreeAsserts(s.roots, NPAGEREFS_PER_PAGE)
  {
    ss, evs := Crowd(s0, NPAGEREFS_PER_PAGE + 1);
    var t := SecondRootFirst(ss[NPAGEREFS_PER_PAGE + 1], va);
    ss, evs := Extended(ss, evs, Arrive(NPAGEREFS_PER_PAGE, va), t);
  }
}
