/** The kernel heap by what has happened: which pointers are live, what a client finds where
    it stored something, and exactly when each step can take place, over every interleaving
    of callers.

    Source: kern/vm/kmalloc.c. */
module HeapHistory {
  import opened Common
  import opened HeapDescriptors
  import opened HeapLists
  import opened HeapState
  import HR = HeapRuns
  import W = HeapWindows
  import opened HeapCallers

  // --------------------------------------------------------------------- live pointers

  /** The live pointers after one more, which was none of them. */
  ghost predicate OneMore(was: map<int, Live>, now: map<int, Live>, p: int, l: Live) {
    p !in was && now == was[p := l]
  }

  /** A block of page r handed out for sz bytes. */
  ghost predicate BlockGiven(was: map<int, Live>, now: map<int, Live>, r: int, sz: int) {
    exists p, i: nat :: OneMore(was, now, p, Block(sz, r, i))
  }

  /** What each step does to the live pointers: an allocation adds one, for the size asked
      for, a free takes away the one freed, and nothing else changes any. */
  ghost predicate LiveAfter(ev: Event, was: map<int, Live>, now: map<int, Live>) {
    match ev
    case TakeBlock(r, sz) => BlockGiven(was, now, r, sz)
    case Link(r, _, _, sz) => BlockGiven(was, now, r, sz)
    case Arrive(r, _, _, _, sz) => BlockGiven(was, now, r, sz)
    case TakeRun(a, sz) => 0 <= sz < WORD && OneMore(was, now, a, Run(sz, HR.Npages(sz)))
    case FreeBlock(a) => a in was && now == was - {a}
    case FreeRun(a) => a in was && now == was - {a}
    case _ => now == was
  }

  lemma TakeLive(h: Heap, r: int, sz: int, x: int)
    requires InvBut(h, x) && CanTake(h, r, sz) && (x == r || x == NIL)
    ensures BlockGiven(h.live, Take(h, r, sz).live, r, sz)
  {
    TakeLives(h, r, sz, x);
    assert OneMore(h.live, Take(h, r, sz).live, TakenAt(h, r), Block(sz, r, h.free[r][0]));
  }

  lemma LinkLive(s: State, r: int, b: int, page: int, sz: int, h': Heap)
    requires HeapState.Inv(s.heap) && SparesOk(s) && Spare(s, page, 1) && Linked(s.heap, r, b, page, sz, h')
    requires r !in s.heap.all && s.heap.roots[r / NPAGEREFS_PER_PAGE].page != 0
    ensures BlockGiven(s.heap.live, h'.live, r, sz)
  {
    SpareIsNew(s, page);
    assert CanAdd(s.heap, r, b, page);
    AddPageKeeps(s.heap, r, b, page);
    TakeLive(AddPage(s.heap, r, b, page), r, sz, r);
  }

  lemma ArriveLive(s: State, r: int, va: int, b: int, page: int, sz: int, t: State)
    requires HeapCallers.Inv(s) && Step(s, Arrive(r, va, b, page, sz), t)
    ensures BlockGiven(s.heap.live, t.heap.live, r, sz)
  {
    ArriveWindow(s.win, r, va, t.win);
    var m := RootHeap(s, W.Home(r), va);
    LinkLive(m, r, b, page, sz, t.heap);
  }

  /** A descriptor taken at once is not in use and its root has a page. */
  lemma LinkReady(s: State, r: int, b: int, page: int, sz: int, t: State)
    requires HeapCallers.Inv(s) && Step(s, Link(r, b, page, sz), t)
    ensures r !in s.heap.all && W.Home(r) < |s.heap.roots| && s.heap.roots[W.Home(r)].page != 0
    ensures W.Descriptor(r) && Spare(s, page, 1) && Linked(s.heap, r, b, page, sz, t.heap)
    ensures !InUse(s.win.roots, r) && forall q :: 0 <= q < r ==> InUse(s.win.roots, q)
  {
    assert r !in s.win.held && s.win.roots[W.Home(r)].page != 0;
  }

  lemma StepLive(s: State, ev: Event, t: State)
    requires HeapCallers.Inv(s) && Step(s, ev, t)
    ensures LiveAfter(ev, s.heap.live, t.heap.live)
  {
    match ev {
      case TakeBlock(r, sz) => TakeLive(s.heap, r, sz, NIL);
      case Link(r, b, page, sz) =>
        LinkReady(s, r, b, page, sz, t);
        LinkLive(s, r, b, page, sz, t.heap);
      case Arrive(r, va, b, page, sz) => ArriveLive(s, r, va, b, page, sz, t);
      case TakeRun(a, sz) =>
        SpareIsNew(s, a);
        HR.NewIsNotLive(s.heap, a, HR.Npages(sz));
      case _ => PlainLive(s, ev, t);
    }
  }

  lemma PlainLive(s: State, ev: Event, t: State)
    requires Step(s, ev, t) && !ev.TakeBlock? && !ev.Link? && !ev.Arrive? && !ev.TakeRun?
    ensures LiveAfter(ev, s.heap.live, t.heap.live)
  {
  }

  // ----------------------------------------------------------------------- client data

  /** x is an address a live pointer may use. */
  predicate Within(h: Heap, a: int, x: int) {
    a in h.live && (h.live[a].Block? ==> HR.IsBlock(h, a)) && a <= x < a + HR.Extent(h, a)
  }

  /** New pages hold no address a live pointer may use. */
  lemma NotOnNewPage(h: Heap, a: int, x: int, page: int)
    requires HeapState.Inv(h) && Within(h, a, x) && NewPages(h, page, 1)
    ensures !(page <= x < page + PAGE_SIZE)
  {
    HR.WhereLive(h, a);
    var p := if h.live[a].Block? then PageOf(h, h.live[a].r) else a;
    assert Apart(page, 1, p, h.pages[p]);
  }

  /** What a and x have in both heaps. */
  ghost predicate DataKept(h: Heap, h': Heap, a: int, x: int)
    requires Within(h, a, x)
  {
    && Within(h', a, x) && h'.live[a] == h.live[a] && HR.Extent(h', a) == HR.Extent(h, a)
    && (x in h.word ==> Holds(h'.word, x, h.word[x]))
  }

  /** A pointer that stays live on a page of the same type keeps its room. */
  lemma SameRoom(h: Heap, h': Heap, a: int, x: int)
    requires Within(h, a, x) && Lives(h') && a in h'.live && h'.live[a] == h.live[a]
    requires h.live[a].Block? ==> (var r := h.live[a].r; r < |h'.refs| && h'.refs[r].pab == h.refs[r].pab)
    requires x in h.word ==> Holds(h'.word, x, h.word[x])
    ensures DataKept(h, h', a, x)
  {
    if h.live[a].Block? { assert BlockLive(h', a, h'.live[a]); }
  }

  lemma TakeData(h: Heap, r: int, sz: int, a: int, x: int)
    requires CanTake(h, r, sz) && Within(h, a, x) && Lives(Take(h, r, sz)) && TakenAt(h, r) !in h.live
    ensures DataKept(h, Take(h, r, sz), a, x)
  {
    SameRoom(h, Take(h, r, sz), a, x);
  }

  lemma TakenData(h: Heap, r: int, sz: int, y: int, a: int, x: int)
    requires InvBut(h, y) && (y == r || y == NIL) && CanTake(h, r, sz) && Within(h, a, x)
    ensures DataKept(h, Take(h, r, sz), a, x)
  {
    TakeLives(h, r, sz, y);
    TakeData(h, r, sz, a, x);
  }

  lemma AddData(h: Heap, r: int, b: int, page: int, a: int, x: int)
    requires Tables(h) && 0 <= b < NSIZES && 0 <= r < TOTAL_PAGEREFS && r !in h.all && Within(h, a, x)
    requires Lives(AddPage(h, r, b, page)) && !(page <= x < page + PAGE_SIZE)
    ensures DataKept(h, AddPage(h, r, b, page), a, x)
  {
    ThreadKeeps(h.word, page, b, Blocks(b));
    SameRoom(h, AddPage(h, r, b, page), a, x);
  }

  lemma AddedData(h: Heap, r: int, b: int, page: int, a: int, x: int)
    requires HeapState.Inv(h) && CanAdd(h, r, b, page) && Within(h, a, x)
    ensures InvBut(AddPage(h, r, b, page), r) && DataKept(h, AddPage(h, r, b, page), a, x)
  {
    NotOnNewPage(h, a, x, page);
    AddPageKeeps(h, r, b, page);
    ReserveAgain(h, r, b, page);
    AddData(h, r, b, page, a, x);
  }

  lemma LinkData(s: State, r: int, b: int, page: int, sz: int, h': Heap, a: int, x: int)
    requires HeapState.Inv(s.heap) && SparesOk(s) && Spare(s, page, 1) && Linked(s.heap, r, b, page, sz, h')
    requires r !in s.heap.all && s.heap.roots[r / NPAGEREFS_PER_PAGE].page != 0 && Within(s.heap, a, x)
    ensures DataKept(s.heap, h', a, x)
  {
    SpareIsNew(s, page);
    assert CanAdd(s.heap, r, b, page) by { assert Roots(s.heap); }
    AddedData(s.heap, r, b, page, a, x);
    TakenData(AddPage(s.heap, r, b, page), r, sz, r, a, x);
  }

  lemma RootData(h: Heap, k: int, va: int, a: int, x: int)
    requires 0 <= k < |h.roots| && Within(h, a, x) && Lives(h)
    ensures DataKept(h, Rooted(h, k, va), a, x)
  {
    if h.live[a].Block? { assert HR.IsBlock(Rooted(h, k, va), a); }
  }

  lemma ArriveData(s: State, r: int, va: int, b: int, page: int, sz: int, t: State, a: int, x: int)
    requires HeapCallers.Inv(s) && Step(s, Arrive(r, va, b, page, sz), t) && Within(s.heap, a, x)
    ensures DataKept(s.heap, t.heap, a, x)
  {
    ArriveWindow(s.win, r, va, t.win);
    RootData(s.heap, W.Home(r), va, a, x);
    var m := RootHeap(s, W.Home(r), va);
    LinkData(m, r, b, page, sz, t.heap, a, x);
  }

  lemma FreedMisses(word: map<int, int>, c: int, b: nat, pr: Pageref, x: int)
    requires b < NSIZES && !(c <= x < c + SIZES[b])
    ensures x in word ==> Holds(HR.FreedWords(word, c, SIZES[b], pr), x, word[x])
  {
    assert Blocks(b) >= 2;
    HR.FreedKeeps(word, c, SIZES[b], pr);
  }

  lemma OtherAddress(h: Heap, c: int, a: int, x: int)
    requires HeapState.Inv(h) && HR.IsBlock(h, c) && Within(h, a, x) && a != c
    ensures !(c <= x < c + SIZES[BlockType(h.refs[h.live[c].r])])
  {
    HR.LiveApart(h, a, c);
  }

  lemma PushData(h: Heap, c: int, a: int, x: int)
    requires HR.IsBlock(h, c) && Within(h, a, x) && a != c && Lives(HR.Push(h, c))
    requires !(c <= x < c + SIZES[BlockType(h.refs[h.live[c].r])])
    ensures DataKept(h, HR.Push(h, c), a, x)
  {
    var pr := h.refs[h.live[c].r];
    FreedMisses(h.word, c, BlockType(pr), pr, x);
    SameRoom(h, HR.Push(h, c), a, x);
  }

  lemma DropData(m: Heap, h': Heap, r: int, a: int, x: int)
    requires HR.Dropped(m, h', r) && Within(m, a, x) && Lives(h')
    ensures DataKept(m, h', a, x)
  {
    if m.live[a].Block? { assert HR.SameBut(m.refs[m.live[a].r], h'.refs[m.live[a].r]); }
    SameRoom(m, h', a, x);
  }

  lemma FreeData(h: Heap, c: int, h': Heap, a: int, x: int)
    requires HeapState.Inv(h) && HR.IsBlock(h, c) && HR.Freed(h, c, h') && Within(h, a, x) && a != c
    ensures DataKept(h, h', a, x)
  {
    var m, r := HR.Push(h, c), h.live[c].r;
    OtherAddress(h, c, a, x);
    HR.PushKeeps(h, c);
    PushData(h, c, a, x);
    HR.FreedKeepsInv(h, c, h');
    if |m.free[r]| == Blocks(HR.TypeOf(h, r)) { DropData(m, h', r, a, x); }
  }

  /** Every step leaves a client its memory and what is in it, but for the client's own
      stores, until it frees it. */
  lemma StepKeepsData(s: State, ev: Event, t: State, a: int, x: int)
    requires HeapCallers.Inv(s) && Step(s, ev, t) && Within(s.heap, a, x) && ev != FreeBlock(a) && ev != FreeRun(a)
    requires ev.ClientStore? ==> ev.x != x
    ensures DataKept(s.heap, t.heap, a, x)
  {
    match ev {
      case TakeBlock(r, sz) => TakenData(s.heap, r, sz, NIL, a, x);
      case Link(r, b, page, sz) =>
        LinkReady(s, r, b, page, sz, t);
        LinkData(s, r, b, page, sz, t.heap, a, x);
      case TakeRun(c, sz) =>
        SpareIsNew(s, c);
        HR.NewIsNotLive(s.heap, c, HR.Npages(sz));
        OtherData(s, ev, t, a, x);
      case Arrive(r, va, b, page, sz) => ArriveData(s, r, va, b, page, sz, t, a, x);
      case FreeBlock(c) => FreeData(s.heap, c, t.heap, a, x);
      case _ => OtherData(s, ev, t, a, x);
    }
  }

  /** The steps that touch no block. */
  lemma OtherData(s: State, ev: Event, t: State, a: int, x: int)
    requires Lives(s.heap) && Step(s, ev, t) && Within(s.heap, a, x)
    requires !ev.TakeBlock? && !ev.Link? && !ev.Arrive? && !ev.FreeBlock? && (ev.ClientStore? ==> ev.x != x)
    requires ev.TakeRun? ==> ev.a !in s.heap.live
    requires ev.FreeRun? ==> ev.a != a
    ensures DataKept(s.heap, t.heap, a, x)
  {
    var h, h' := s.heap, t.heap;
    OtherHeap(s, ev, t, a);
    if h.live[a].Block? { assert BlockLive(h', a, h'.live[a]); }
  }

  lemma OtherHeap(s: State, ev: Event, t: State, a: int)
    requires Step(s, ev, t) && a in s.heap.live && !ev.TakeBlock? && !ev.Link? && !ev.Arrive? && !ev.FreeBlock?
    requires ev.TakeRun? ==> ev.a !in s.heap.live
    requires ev.FreeRun? ==> ev.a != a
    ensures t.heap.refs == s.heap.refs && t.heap.all == s.heap.all && t.heap.free == s.heap.free
    ensures a in t.heap.live && t.heap.live[a] == s.heap.live[a]
    ensures t.heap.word == if ev.ClientStore? then s.heap.word[ev.x := ev.w] else s.heap.word
  {
  }

  /** No step from j to k frees a or stores at x. */
  ghost predicate Undisturbed(evs: seq<Event>, j: nat, k: nat, a: int, x: int) {
    k <= |evs| && forall i :: j <= i < k ==>
      evs[i] != FreeBlock(a) && evs[i] != FreeRun(a) && (evs[i].ClientStore? ==> evs[i].x != x)
  }

  lemma {:induction false} RunKeepsData(ss: seq<State>, evs: seq<Event>, j: nat, k: nat, a: int, x: int, w: int)
    requires IsRun(ss, evs) && j <= k && Undisturbed(evs, j, k, a, x)
    requires Within(ss[j].heap, a, x) && Holds(ss[j].heap.word, x, w)
    ensures Within(ss[k].heap, a, x) && Holds(ss[k].heap.word, x, w)
    ensures ss[k].heap.live[a] == ss[j].heap.live[a]
    decreases k - j
  {
    if j < k {
      RunKeepsData(ss, evs, j, k - 1, a, x, w);
      NextKeepsData(ss, evs, k - 1, a, x);
    }
  }

  lemma NextKeepsData(ss: seq<State>, evs: seq<Event>, k: nat, a: int, x: int)
    requires IsRun(ss, evs) && k < |evs| && Undisturbed(evs, k, k + 1, a, x) && Within(ss[k].heap, a, x)
    ensures DataKept(ss[k].heap, ss[k + 1].heap, a, x)
  {
    RunsKeepInv(ss, evs, k);
    assert StepAt(ss, evs, k);
    StepKeepsData(ss[k], evs[k], ss[k + 1], a, x);
  }

  /** What a client stores in memory it was given is there, whatever other callers do, until
      it stores there again or frees it. */
  lemma StoredIsFound(ss: seq<State>, evs: seq<Event>, j: nat, k: nat, a: int, x: int, w: int)
    requires IsRun(ss, evs) && j < k && Undisturbed(evs, j + 1, k, a, x) && evs[j] == ClientStore(a, x, w)
    ensures a in ss[j].heap.live && a in ss[k].heap.live && ss[k].heap.live[a] == ss[j].heap.live[a]
    ensures Holds(ss[k].heap.word, x, w)
  {
    assert StepAt(ss, evs, j);
    RunKeepsData(ss, evs, j + 1, k, a, x, w);
  }

  // -------------------------------------------------------- when a step can take place

  /** The element after q. */
  function After(ids: seq<int>, q: int): int {
    if |ids| <= 1 then NIL else if ids[0] == q then ids[1] else After(ids[1..], q)
  }

  lemma {:induction false} AfterAt(ids: seq<int>, k: nat)
    requires NoDup(ids) && k < |ids|
    ensures After(ids, ids[k]) == At(ids, k + 1)
  {
    if k > 0 {
      assert NoDup(ids[1..]) && ids[1..][k - 1] == ids[k];
      AfterAt(ids[1..], k - 1);
    }
  }

  lemma {:induction false} WithoutNoDup(ids: seq<int>, x: int)
    requires NoDup(ids)
    ensures NoDup(Without(ids, x))
  {
    if ids != [] {
      var rest := Without(ids[1..], x);
      WithoutNoDup(ids[1..], x);
      if ids[0] != x {
        assert ids[0] !in rest;
        ConsNoDup(ids[0], rest);
      }
    }
  }

  /** The table with one chain leading through ids. */
  function Chained(refs: seq<Pageref>, ids: seq<int>, chain: Chain): (r: seq<Pageref>)
    ensures |r| == |refs|
  {
    seq(|refs|, q requires 0 <= q < |refs| =>
      if q in ids then SetNext(refs[q], chain, After(ids, q)) else refs[q])
  }

  lemma ChainedOk(refs: seq<Pageref>, ids: seq<int>, chain: Chain)
    requires NoDup(ids) && forall k :: 0 <= k < |ids| ==> 0 <= ids[k] < |refs|
    ensures ListOk(Chained(refs, ids, chain), At(ids, 0), ids, chain)
  {
    forall k | 0 <= k < |ids| ensures Next(Chained(refs, ids, chain), ids[k], chain) == At(ids, k + 1) {
      AfterAt(ids, k);
    }
  }

  /** The table with its two chains leading through all and same. */
  function Rechained(refs: seq<Pageref>, all: seq<int>, same: seq<int>): (r: seq<Pageref>)
    ensures |r| == |refs|
  {
    Chained(Chained(refs, all, All), same, Same)
  }

  predicate InTable(refs: seq<Pageref>, ids: seq<int>) { forall k :: 0 <= k < |ids| ==> 0 <= ids[k] < |refs| }

  lemma RechainedOk(refs: seq<Pageref>, all: seq<int>, same: seq<int>)
    requires NoDup(all) && NoDup(same) && InTable(refs, all) && InTable(refs, same)
    ensures ListOk(Rechained(refs, all, same), At(all, 0), all, All)
    ensures ListOk(Rechained(refs, all, same), At(same, 0), same, Same)
    ensures forall q :: 0 <= q < |refs| ==> HR.SameBut(refs[q], Rechained(refs, all, same)[q])
  {
    var refs1 := Chained(refs, all, All);
    ChainedOk(refs, all, All);
    ChainedOk(refs1, same, Same);
    ListKept(refs1, Rechained(refs, all, same), At(all, 0), all, All);
  }

  /** Another list of descriptors of one size stays. */
  lemma OtherChain(refs: seq<Pageref>, all: seq<int>, same: seq<int>, head: int, ids: seq<int>)
    requires ListOk(refs, head, ids, Same) && forall q :: q in ids ==> q !in same
    ensures ListOk(Rechained(refs, all, same), head, ids, Same)
  {
    ListKept(refs, Rechained(refs, all, same), head, ids, Same);
  }

  lemma ListWithout(refs: seq<Pageref>, head: int, ids: seq<int>, chain: Chain, r: int)
    requires ListOk(refs, head, ids, chain)
    ensures NoDup(Without(ids, r)) && InTable(refs, Without(ids, r))
  {
    WithoutNoDup(ids, r);
    var rest := Without(ids, r);
    forall k | 0 <= k < |rest| ensures 0 <= rest[k] < |refs| { assert rest[k] in ids; }
  }

  lemma OtherChains(h: Heap, r: int, b: nat, c: nat)
    requires Lists(h) && b < NSIZES && c < NSIZES && c != b
    ensures ListOk(Rechained(h.refs, Without(h.all, r), Without(h.same[b], r)), h.sizebases[c], h.same[c], Same)
  {
    forall q | q in h.same[c] ensures q !in Without(h.same[b], r) {}
    OtherChain(h.refs, Without(h.all, r), Without(h.same[b], r), h.sizebases[c], h.same[c]);
  }

  /** The heap without page r. */
  function WithoutPage(h: Heap, r: int, b: nat, page: int): Heap
    requires b < |h.same| && |h.sizebases| == |h.same| && 0 <= r < TOTAL_PAGEREFS && InUse(h.roots, r)
  {
    var all, same := Without(h.all, r), Without(h.same[b], r);
    h.(refs := Rechained(h.refs, all, same), allbase := At(all, 0), sizebases := h.sizebases[b := At(same, 0)],
       all := all, same := h.same[b := same], roots := Unreserve(h.roots, r), free := h.free - {r},
       pages := h.pages - {page}, owner := h.owner - {page})
  }

  /** A page can always be taken off the lists. */
  lemma CanDrop(h: Heap, r: int)
    requires Lists(h) && Roots(h) && r in h.all
    ensures HR.Dropped(h, WithoutPage(h, r, BlockType(h.refs[r]), PageOf(h, r)), r)
  {
    var b := BlockType(h.refs[r]);
    var h' := WithoutPage(h, r, b, PageOf(h, r));
    ListWithout(h.refs, h.allbase, h.all, All, r);
    ListWithout(h.refs, h.sizebases[b], h.same[b], Same, r);
    RechainedOk(h.refs, Without(h.all, r), Without(h.same[b], r));
    forall c | 0 <= c < NSIZES ensures ListOk(h'.refs, h'.sizebases[c], h'.same[c], Same) {
      if c != b { OtherChains(h, r, b, c); }
    }
  }

  lemma CanPush(h: Heap, a: int) returns (h': Heap)
    requires HeapState.Inv(h) && HR.IsBlock(h, a)
    ensures HR.Freed(h, a, h')
  {
    var m, r := HR.Push(h, a), h.live[a].r;
    HR.PushKeeps(h, a);
    h' := m;
    if |m.free[r]| == Blocks(HR.TypeOf(h, r)) {
      CanDrop(m, r);
      h' := WithoutPage(m, r, BlockType(m.refs[r]), PageOf(m, r));
    }
  }

  /** No descriptor below r is unmarked, and r is. */
  ghost predicate Lowest(w: W.State, r: int) {
    && W.Descriptor(r) && !Marked(w, r) && forall q :: 0 <= q < r ==> Marked(w, q)
  }

  /** Waited for, handed out, or lost. */
  predicate Marked(w: W.State, r: int) { r in w.pending || r in w.held || r in w.lost }

  predicate HasPage(s: State, r: int) {
    W.Descriptor(r) && W.Home(r) < |s.heap.roots| && s.heap.roots[W.Home(r)].page != 0
  }

  predicate Fits(b: int, sz: int) { 0 <= b < NSIZES && sz <= SIZES[b] }

  /** Some block of page r is not live. */
  ghost predicate SomeNotLive(h: Heap, r: int)
    requires 0 <= r < |h.refs| && BlockType(h.refs[r]) < NSIZES
  {
    exists i: nat :: i < Blocks(BlockType(h.refs[r])) && BlockAt(PageOf(h, r), BlockType(h.refs[r]), i) !in h.live
  }

  /** The block is live, and its page stays or no root before the page's is swamped. */
  ghost predicate CanFree(h: Heap, w: W.State, a: int) {
    && HR.IsBlock(h, a) && |w.roots| == NUM_PAGEREFPAGES
    && (HR.OtherLive(h, a) ||
        forall k :: 0 <= k < NUM_PAGEREFPAGES && k < W.Home(h.live[a].r) ==> !W.Swamped(w, k))
  }

  /** By what a caller knows, the step can take place. */
  ghost predicate Can(s: State, ev: Event) {
    var h := s.heap;
    match ev
    case GetPages(p, n) => Fresh(AllPages(s), p, n)
    case PutPages(p) => p in s.spare
    case TakeBlock(r, sz) =>
      r in h.all && 0 <= r < |h.refs| && Fits(BlockType(h.refs[r]), sz) && SomeNotLive(h, r)
    case Link(r, b, page, sz) => Lowest(s.win, r) && HasPage(s, r) && Spare(s, page, 1) && Fits(b, sz)
    case Wait(r) => Lowest(s.win, r) && !HasPage(s, r)
    case Arrive(r, va, b, page, sz) =>
      && r in s.win.pending && Spare(s, page, 1) && Fits(b, sz)
      && (HasPage(s, r) || (va != page && Spare(s, va, 1)))
    case GiveUp(r) => r in s.win.pending && !HasPage(s, r)
    case FreeBlock(a) => CanFree(h, s.win, a)
    case TakeRun(a, sz) =>
      LARGEST_SUBPAGE_SIZE <= sz && sz + PAGE_SIZE - 1 < WORD && Spare(s, a, HR.Npages(sz))
    case FreeRun(a) => a in h.live && h.live[a].Run?
    case ClientStore(a, x, w) => Within(h, a, x)
  }

  lemma TakeIff(h: Heap, r: int, sz: int)
    requires HeapState.Inv(h)
    ensures CanTake(h, r, sz) <==>
            r in h.all && 0 <= r < |h.refs| && Fits(BlockType(h.refs[r]), sz) && SomeNotLive(h, r)
  {
    if r in h.all {
      Descriptor(h, r, NIL);
      forall i: nat | i < Blocks(BlockType(h.refs[r]))
        ensures i in h.free[r] <==> BlockAt(PageOf(h, r), BlockType(h.refs[r]), i) !in h.live
      {
        HR.LiveXorFree(h, r, i);
      }
      if h.free[r] != [] { assert h.free[r][0] in h.free[r]; }
    }
  }

  lemma TakeBlockIff(s: State, r: int, sz: int)
    requires HeapState.Inv(s.heap)
    ensures (exists t :: Step(s, TakeBlock(r, sz), t)) <==> Can(s, TakeBlock(r, sz))
  {
    TakeIff(s.heap, r, sz);
    if CanTake(s.heap, r, sz) { assert Step(s, TakeBlock(r, sz), s.(heap := Take(s.heap, r, sz))); }
  }

  lemma LowestIff(w: W.State, r: int)
    requires W.Inv(w)
    ensures Lowest(w, r) <==> W.Descriptor(r) && !InUse(w.roots, r) && forall q :: 0 <= q < r ==> InUse(w.roots, q)
  {
    forall q ensures Marked(w, q) <==> InUse(w.roots, q) {}
  }

  /** A fresh page gives a block of its type. */
  lemma FreshGives(h: Heap, r: int, b: int, page: int, sz: int)
    requires Tables(h) && 0 <= b < NSIZES && 0 <= r < TOTAL_PAGEREFS && page % PAGE_SIZE == 0
    ensures CanTake(AddPage(h, r, b, page), r, sz) <==> sz <= SIZES[b]
  {
    PabRoundTrip(page, b);
  }

  lemma LinkedIff(h: Heap, r: int, b: int, page: int, sz: int)
    requires Tables(h) && 0 <= r < TOTAL_PAGEREFS && page % PAGE_SIZE == 0
    ensures (exists h' :: Linked(h, r, b, page, sz, h')) <==> Fits(b, sz)
  {
    if 0 <= b < NSIZES {
      FreshGives(h, r, b, page, sz);
      if sz <= SIZES[b] { assert Linked(h, r, b, page, sz, Take(AddPage(h, r, b, page), r, sz)); }
    }
  }

  lemma LinkIff(s: State, r: int, b: int, page: int, sz: int)
    requires HeapCallers.Inv(s)
    ensures (exists t :: Step(s, Link(r, b, page, sz), t)) <==> Can(s, Link(r, b, page, sz))
  {
    LowestIff(s.win, r);
    if t :| Step(s, Link(r, b, page, sz), t) {
      LinkReady(s, r, b, page, sz, t);
      SpareIsNew(s, page);
      LinkedIff(s.heap, r, b, page, sz);
    } else if Can(s, Link(r, b, page, sz)) {
      SpareIsNew(s, page);
      LinkedIff(s.heap, r, b, page, sz);
      var h' :| Linked(s.heap, r, b, page, sz, h');
      LinkHappens(s, r, b, page, sz, h');
    }
  }

  lemma LinkHappens(s: State, r: int, b: int, page: int, sz: int, h': Heap)
    requires W.Counted(s.win.roots) && W.Descriptor(r) && !InUse(s.win.roots, r)
    requires (forall q :: 0 <= q < r ==> InUse(s.win.roots, q)) && s.win.roots[W.Home(r)].page != 0
    requires Spare(s, page, 1) && Linked(s.heap, r, b, page, sz, h')
    ensures exists t :: Step(s, Link(r, b, page, sz), t)
  {
    var w := s.win.(roots := Reserve(s.win.roots, r, 0), held := s.win.held + {r});
    assert Step(s, Link(r, b, page, sz), State(h', w, s.spare - {page}));
  }

  lemma WaitIff(s: State, r: int)
    requires HeapCallers.Inv(s)
    ensures (exists t :: Step(s, Wait(r), t)) <==> Can(s, Wait(r))
  {
    LowestIff(s.win, r);
    if Can(s, Wait(r)) {
      var w := s.win.(roots := Reserve(s.win.roots, r, 0), pending := s.win.pending + {r});
      assert Step(s, Wait(r), s.(win := w));
    }
  }

  lemma GiveUpIff(s: State, r: int)
    requires HeapCallers.Inv(s)
    ensures (exists t :: Step(s, GiveUp(r), t)) <==> Can(s, GiveUp(r))
  {
    if r in s.win.pending {
      assert InUse(s.win.roots, r);
      if Can(s, GiveUp(r)) {
        var w := s.win.(pending := s.win.pending - {r}, lost := s.win.lost + {r});
        assert Step(s, GiveUp(r), s.(win := w));
      }
    }
  }

  lemma ArriveIff(s: State, r: int, va: int, b: int, page: int, sz: int)
    requires HeapCallers.Inv(s)
    ensures (exists t :: Step(s, Arrive(r, va, b, page, sz), t)) <==> Can(s, Arrive(r, va, b, page, sz))
  {
    var ev := Arrive(r, va, b, page, sz);
    if r in s.win.pending && Spare(s, page, 1) && (HasPage(s, r) || (va != page && Spare(s, va, 1))) {
      assert InUse(s.win.roots, r);
      SpareIsNew(s, page);
      var k := W.Home(r);
      var m := RootHeap(s, k, va);
      LinkedIff(m.heap, r, b, page, sz);
      if Fits(b, sz) {
        var h' :| Linked(m.heap, r, b, page, sz, h');
        ArriveHappens(s, ev, h');
      }
    }
  }

  lemma ArriveMarks(w: W.State, r: int, va: int) returns (w': W.State)
    requires W.Inv(w) && r in w.pending && W.Descriptor(r) && (w.roots[W.Home(r)].page == 0 ==> va != 0)
    ensures W.Step(w, W.Arrive(r, va), w') && r in w'.held
  {
    var root := w.roots[W.Home(r)];
    w' := W.State(w.roots[W.Home(r) := root.(page := if root.page == 0 then va else root.page)],
                  w.pending - {r}, w.held + {r}, w.lost);
  }

  lemma ArriveHappens(s: State, ev: Event, h': Heap)
    requires HeapCallers.Inv(s) && ev.Arrive? && Can(s, ev) && W.Descriptor(ev.r)
    requires Linked(Rooted(s.heap, W.Home(ev.r), ev.va), ev.r, ev.b, ev.page, ev.sz, h')
    ensures exists t :: Step(s, ev, t)
  {
    var k := W.Home(ev.r);
    assert |s.heap.roots| == NUM_PAGEREFPAGES && s.heap.roots[k].page == s.win.roots[k].page;
    if s.heap.roots[k].page == 0 { SpareIsNew(s, ev.va); }
    var w := ArriveMarks(s.win, ev.r, ev.va);
    var spare := if s.heap.roots[k].page == 0 then s.spare - {ev.va} - {ev.page} else s.spare - {ev.page};
    ArriveStep(s, ev, h', w, spare);
  }

  lemma ArriveStep(s: State, ev: Event, h': Heap, w: W.State, spare: map<int, nat>)
    requires ev.Arrive? && W.Step(s.win, W.Arrive(ev.r, ev.va), w) && ev.r in w.held && Spare(s, ev.page, 1)
    requires |s.heap.roots| == NUM_PAGEREFPAGES && W.Descriptor(ev.r)
    requires s.heap.roots[W.Home(ev.r)].page == 0 ==> ev.va != ev.page && Spare(s, ev.va, 1)
    requires Linked(Rooted(s.heap, W.Home(ev.r), ev.va), ev.r, ev.b, ev.page, ev.sz, h')
    requires spare == if s.heap.roots[W.Home(ev.r)].page == 0 then s.spare - {ev.va} - {ev.page}
                      else s.spare - {ev.page}
    ensures exists t :: Step(s, ev, t)
  {
    assert Step(s, ev, State(h', w, spare));
  }

  lemma FreeIff(s: State, a: int)
    requires HeapCallers.Inv(s)
    ensures (exists t :: Step(s, FreeBlock(a), t)) <==> Can(s, FreeBlock(a))
  {
    if t :| Step(s, FreeBlock(a), t) {
      FreeNeeds(s, a, t);
    } else if Can(s, FreeBlock(a)) {
      FreeHappens(s, a);
    }
  }

  lemma FreeNeeds(s: State, a: int, t: State)
    requires HeapCallers.Inv(s) && Step(s, FreeBlock(a), t)
    ensures CanFree(s.heap, s.win, a)
  {
    HR.PageKeptIff(s.heap, a, t.heap);
    if !HR.OtherLive(s.heap, a) { NoneSwamped(s.heap, s.win, a); }
  }

  lemma NoneSwamped(h: Heap, w: W.State, a: int)
    requires W.Inv(w) && Agrees(h, w) && HR.IsBlock(h, a)
    ensures var r := h.live[a].r;
            && r in w.held && W.Descriptor(r)
            && (W.FreeAsserts(w.roots, r) <==> forall k :: 0 <= k < W.Home(r) ==> !W.Swamped(w, k))
  {
    W.AssertsIff(w, h.live[a].r);
  }

  lemma FreeHappens(s: State, a: int)
    requires HeapCallers.Inv(s) && CanFree(s.heap, s.win, a)
    ensures exists t :: Step(s, FreeBlock(a), t)
  {
    var r := s.heap.live[a].r;
    var h' := CanPush(s.heap, a);
    HR.PageKeptIff(s.heap, a, h');
    if HR.OtherLive(s.heap, a) {
      FreeKept(s, a, h');
    } else {
      var w := FreeMarks(s.heap, s.win, a);
      FreeGivesPage(s, a, h', w);
    }
  }

  lemma FreeMarks(h: Heap, w: W.State, a: int) returns (w': W.State)
    requires W.Inv(w) && Agrees(h, w) && CanFree(h, w, a) && !HR.OtherLive(h, a)
    ensures W.Step(w, W.Free(h.live[a].r), w')
  {
    var r := h.live[a].r;
    NoneSwamped(h, w, a);
    w' := w.(roots := Unreserve(w.roots, r), held := w.held - {r});
  }

  lemma FreeKept(s: State, a: int, h': Heap)
    requires HR.IsBlock(s.heap, a) && HR.Freed(s.heap, a, h') && PageOf(s.heap, s.heap.live[a].r) in h'.pages
    ensures exists t :: Step(s, FreeBlock(a), t)
  {
    assert Step(s, FreeBlock(a), s.(heap := h'));
  }

  lemma FreeGivesPage(s: State, a: int, h': Heap, w: W.State)
    requires HR.IsBlock(s.heap, a) && HR.Freed(s.heap, a, h') && PageOf(s.heap, s.heap.live[a].r) !in h'.pages
    requires W.Step(s.win, W.Free(s.heap.live[a].r), w)
    ensures exists t :: Step(s, FreeBlock(a), t)
  {
    assert Step(s, FreeBlock(a), State(h', w, s.spare[PageOf(s.heap, s.heap.live[a].r) := 1]));
  }

  /** A step takes place exactly when a caller could tell that it can: a block where the page
      has one that is not live, a descriptor where it is the lowest unmarked, a free where the
      pointer is live and no root before its page's is swamped, or its page stays. */
  lemma HappensIff(s: State, ev: Event)
    requires HeapCallers.Inv(s)
    ensures (exists t :: Step(s, ev, t)) <==> Can(s, ev)
  {
    match ev {
      case TakeBlock(r, sz) => TakeBlockIff(s, r, sz);
      case Link(r, b, page, sz) => LinkIff(s, r, b, page, sz);
      case Wait(r) => WaitIff(s, r);
      case Arrive(r, va, b, page, sz) => ArriveIff(s, r, va, b, page, sz);
      case GiveUp(r) => GiveUpIff(s, r);
      case FreeBlock(a) => FreeIff(s, a);
      case _ => PlainIff(s, ev);
    }
  }

  lemma PlainIff(s: State, ev: Event)
    requires ev.GetPages? || ev.PutPages? || ev.TakeRun? || ev.FreeRun? || ev.ClientStore?
    ensures (exists t :: Step(s, ev, t)) <==> Can(s, ev)
  {
    var h := s.heap;
    if Can(s, ev) {
      var t := match ev
        case GetPages(p, n) => s.(spare := s.spare[p := n])
        case PutPages(p) => s.(spare := s.spare - {p})
        case TakeRun(a, sz) => s.(heap := HR.GetRun(h, a, sz, HR.Npages(sz)), spare := s.spare - {a})
        case FreeRun(a) => s.(heap := HR.PutRun(h, a), spare := s.spare[a := h.live[a].npages])
        case ClientStore(a, x, w) => s.(heap := HR.Store(h, x, w));
      assert Step(s, ev, t);
    }
  }

  /** So every run from boot can go on by exactly these steps. */
  lemma NextSteps(ss: seq<State>, evs: seq<Event>, k: nat, ev: Event)
    requires IsRun(ss, evs) && k < |ss|
    ensures (exists t :: Step(ss[k], ev, t)) <==> Can(ss[k], ev)
  {
    RunsKeepInv(ss, evs, k);
    HappensIff(ss[k], ev);
  }

  // ------------------------------------------------------------- the order of the lists

  /** A descriptor whose list gets a block and gives it. */
  lemma RefBack(pr: Pageref, word: map<int, int>, free: seq<nat>, a: int)
    requires FreeOk(pr, word, free) && PageAddr(pr) > 0
    ensures var word', pr' := HR.FreedWords(word, a, SIZES[BlockType(pr)], pr),
                              pr.(nfree := pr.nfree + 1, freelist := a - PageAddr(pr));
            PageAddr(pr') + pr'.freelist == a && PopRef(pr', word') == pr
  {
    if free != [] { BlockBounds(BlockType(pr), free[0], 0); }
  }

  /** A block just freed is the next one its page gives, and taking it undoes the free but
      for the block's words. */
  lemma FreedComesBack(h: Heap, a: int, sz: int)
    requires HeapState.Inv(h) && HR.IsBlock(h, a) && sz <= SIZES[HR.TypeOf(h, h.live[a].r)]
    ensures var m, r := HR.Push(h, a), h.live[a].r;
            && CanTake(m, r, sz) && TakenAt(m, r) == a
            && Take(m, r, sz) == h.(word := m.word, live := h.live[a := Block(sz, r, h.live[a].i)])
  {
    Descriptor(h, h.live[a].r, NIL);
    PushTake(h, a, sz);
  }

  lemma PushTake(h: Heap, a: int, sz: int)
    requires HR.IsBlock(h, a) && sz <= SIZES[HR.TypeOf(h, h.live[a].r)] && PageOf(h, h.live[a].r) > 0
    requires FreeOk(h.refs[h.live[a].r], h.word, h.free[h.live[a].r])
    ensures var m, r := HR.Push(h, a), h.live[a].r;
            && CanTake(m, r, sz) && TakenAt(m, r) == a
            && Take(m, r, sz) == h.(word := m.word, live := h.live[a := Block(sz, r, h.live[a].i)])
  {
    var m, r := HR.Push(h, a), h.live[a].r;
    RefBack(h.refs[r], h.word, h.free[r], a);
    assert m.free[r][1..] == h.free[r];
    assert m.refs[r := h.refs[r]] == h.refs;
    assert m.free[r := h.free[r]] == h.free;
    assert m.live[a := Block(sz, r, h.live[a].i)] == h.live[a := Block(sz, r, h.live[a].i)];
  }

  lemma {:induction false} Filled(word: map<int, int>, a: int, n: nat, k: nat)
    requires k < n
    ensures Holds(Fill(word, a, n), a + 4 * k, DEADBEEF)
  {
    if k < n - 1 { Filled(word, a, n - 1, k); }
  }

  /** Where the free list leads from a block put in front of it. */
  function LinkOf(pr: Pageref, free: seq<nat>): int
    requires BlockType(pr) < NSIZES
  {
    if free == [] then 0 else BlockAt(PageAddr(pr), BlockType(pr), free[0])
  }

  lemma FreedWordAt(pr: Pageref, word: map<int, int>, free: seq<nat>, a: int, k: nat)
    requires FreeOk(pr, word, free) && k < SIZES[BlockType(pr)] / 4
    ensures Holds(HR.FreedWords(word, a, SIZES[BlockType(pr)], pr), a + 4 * k, if k == 0 then LinkOf(pr, free)
            else DEADBEEF)
  {
    if free != [] { BlockBounds(BlockType(pr), free[0], 0); }
    if k > 0 { Filled(word, a, SIZES[BlockType(pr)] / 4, k); }
  }

  /** The words of a freed block: the first leads to the block freed before it, or nowhere, and
      the others are 0xdeadbeef. */
  lemma FreedIsFilled(h: Heap, a: int, k: nat)
    requires HeapState.Inv(h) && HR.IsBlock(h, a) && k < SIZES[HR.TypeOf(h, h.live[a].r)] / 4
    ensures var r := h.live[a].r;
            Holds(HR.Push(h, a).word, a + 4 * k, if k == 0 then LinkOf(h.refs[r], h.free[r]) else DEADBEEF)
  {
    var r := h.live[a].r;
    Descriptor(h, r, NIL);
    FreedWordAt(h.refs[r], h.word, h.free[r], a, k);
  }

  /** A new page heads the list of all pages and that of its size, a page given back leaves
      both, and the order of the others stays. */
  ghost predicate ListsAfter(ev: Event, h: Heap, h': Heap)
    requires |h.same| == NSIZES
  {
    match ev
    case Link(r, b, _, _) => 0 <= b < NSIZES && h'.all == [r] + h.all && h'.same == h.same[b := [r] + h.same[b]]
    case Arrive(r, _, b, _, _) => 0 <= b < NSIZES && h'.all == [r] + h.all && h'.same == h.same[b := [r] + h.same[b]]
    case FreeBlock(a) =>
      && HR.IsBlock(h, a)
      && (var r, b := h.live[a].r, HR.TypeOf(h, h.live[a].r);
          if HR.OtherLive(h, a) then h'.all == h.all && h'.same == h.same
          else h'.all == Without(h.all, r) && h'.same == h.same[b := Without(h.same[b], r)])
    case _ => h'.all == h.all && h'.same == h.same
  }

  lemma StepLists(s: State, ev: Event, t: State)
    requires HeapCallers.Inv(s) && Step(s, ev, t)
    ensures ListsAfter(ev, s.heap, t.heap)
  {
    if ev.FreeBlock? { HR.PushFull(s.heap, ev.a); }
  }
}
