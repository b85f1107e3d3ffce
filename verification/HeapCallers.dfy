/** The kernel heap with several callers at work: pages are got and given back without the
    heap's lock, and allocpageref drops it in the middle, while other callers go on. Between
    two locked sections a page is spare: it is no longer, or not yet, the heap's.

    The heap of HeapState stands for all but the descriptor bitmaps, which HeapWindows has:
    they mark descriptors that the heap does not use yet, or never will.

    Source: kern/vm/kmalloc.c. */
module HeapCallers {
  import opened Common
  import opened HeapDescriptors
  import opened HeapLists
  import opened HeapState
  import HR = HeapRuns
  import W = HeapWindows

  datatype State = State(heap: Heap, win: W.State, spare: map<int, nat>)

  /** The locked sections, and what callers do between them. */
  datatype Event =
    | GetPages(p: int, n: nat)                            // alloc_kpages(n) returns p
    | PutPages(p: int)                                    // free_kpages(p)
    | TakeBlock(r: int, sz: int)                          // a block of a page that has one
    | Link(r: int, b: int, page: int, sz: int)            // a descriptor at once: page linked, block taken
    | Wait(r: int)                                        // a descriptor marked, its root's page awaited
    | Arrive(r: int, va: int, b: int, page: int, sz: int) // the root has a page: page linked, block taken
    | GiveUp(r: int)                                      // the root has none and none was to be had
    | FreeBlock(a: int)
    | TakeRun(a: int, sz: int)                            // kmalloc of whole pages returns
    | FreeRun(a: int)                                     // kfree of whole pages
    | ClientStore(a: int, x: int, w: int)

  function AllPages(s: State): map<int, nat> { s.heap.pages + s.spare }

  predicate Spare(s: State, p: int, n: nat) { p in s.spare && s.spare[p] == n }

  /** What the page allocator promises: pages apart from all it has given out. */
  ghost predicate Fresh(pages: map<int, nat>, p: int, n: nat) {
    PageShape(p, n) && p !in pages && forall q :: q in pages ==> Apart(p, n, q, pages[q])
  }

  /** Descriptor r heads the lists with a fresh page, and the page's first block is taken. */
  ghost predicate Linked(h: Heap, r: int, b: int, page: int, sz: int, h': Heap) {
    && Tables(h) && 0 <= b < NSIZES && 0 <= r < TOTAL_PAGEREFS
    && CanTake(AddPage(h, r, b, page), r, sz) && h' == Take(AddPage(h, r, b, page), r, sz)
  }

  /** The heap with root k's page set to va if it had none. */
  function Rooted(h: Heap, k: int, va: int): Heap
    requires 0 <= k < |h.roots|
  {
    if h.roots[k].page == 0 then AddRoot(h, k, va) else h
  }

  ghost predicate Step(s: State, ev: Event, t: State) {
    var h := s.heap;
    match ev
    case GetPages(p, n) => Fresh(AllPages(s), p, n) && t == s.(spare := s.spare[p := n])
    case PutPages(p) => p in s.spare && t == s.(spare := s.spare - {p})
    case TakeBlock(r, sz) => CanTake(h, r, sz) && t == s.(heap := Take(h, r, sz))
    case Link(r, b, page, sz) =>
      && W.Step(s.win, W.Begin(r), t.win) && r in t.win.held && Spare(s, page, 1)
      && Linked(h, r, b, page, sz, t.heap) && t.spare == s.spare - {page}
    case Wait(r) => W.Step(s.win, W.Begin(r), t.win) && r in t.win.pending && t == s.(win := t.win)
    case Arrive(r, va, b, page, sz) =>
      && W.Step(s.win, W.Arrive(r, va), t.win) && r in t.win.held && Spare(s, page, 1)
      && |h.roots| == NUM_PAGEREFPAGES
      && (var k := W.Home(r);
          && (h.roots[k].page == 0 ==> va != page && Spare(s, va, 1))
          && Linked(Rooted(h, k, va), r, b, page, sz, t.heap)
          && t.spare == if h.roots[k].page == 0 then s.spare - {va} - {page} else s.spare - {page})
    case GiveUp(r) => W.Step(s.win, W.Arrive(r, 0), t.win) && r in t.win.lost && t == s.(win := t.win)
    case FreeBlock(a) =>
      && HR.IsBlock(h, a) && HR.Freed(h, a, t.heap)
      && (var r := h.live[a].r;
          if PageOf(h, r) in t.heap.pages then t.win == s.win && t.spare == s.spare
          else W.Step(s.win, W.Free(r), t.win) && t.spare == s.spare[PageOf(h, r) := 1])
    case TakeRun(a, sz) =>
      && LARGEST_SUBPAGE_SIZE <= sz && sz + PAGE_SIZE - 1 < WORD && Spare(s, a, HR.Npages(sz))
      && t == s.(heap := HR.GetRun(h, a, sz, HR.Npages(sz)), spare := s.spare - {a})
    case FreeRun(a) =>
      && a in h.live && h.live[a].Run?
      && t == s.(heap := HR.PutRun(h, a), spare := s.spare[a := h.live[a].npages])
    case ClientStore(a, x, w) => HR.Step(h, HR.ClientStore(a, x, w), t.heap) && t == s.(heap := t.heap)
  }

  // ------------------------------------------------------------------- the invariant

  ghost predicate MapApart(m: map<int, nat>) {
    && (forall p :: p in m ==> PageShape(p, m[p]))
    && (forall p, q :: p in m && q in m && p != q ==> Apart(p, m[p], q, m[q]))
  }

  /** No spare page is the heap's, and all lie apart. */
  ghost predicate SparesOk(s: State) { s.heap.pages.Keys !! s.spare.Keys && MapApart(AllPages(s)) }

  /** The heap's descriptors are those handed out, and the roots have their pages. */
  ghost predicate Agrees(h: Heap, w: W.State) {
    && |h.roots| == |w.roots| && (forall q :: q in w.held <==> q in h.all)
    && (forall k :: 0 <= k < |h.roots| ==> w.roots[k].page == h.roots[k].page)
  }

  ghost predicate Inv(s: State) { HeapState.Inv(s.heap) && W.Inv(s.win) && Agrees(s.heap, s.win) && SparesOk(s) }

  /** A spare page is new to the heap. */
  lemma SpareIsNew(s: State, p: int)
    requires SparesOk(s) && p in s.spare
    ensures NewPages(s.heap, p, s.spare[p])
  {
    var m := AllPages(s);
    assert p in m && m[p] == s.spare[p];
    forall q | q in s.heap.pages
      ensures Apart(p, s.spare[p], q, s.heap.pages[q])
    {
      assert q in m && m[q] == s.heap.pages[q];
    }
  }

  /** A spare page that becomes the heap's, or one of the heap's that becomes spare. */
  lemma PageJoins(s: State, p: int, h': Heap)
    requires SparesOk(s) && p in s.spare && h'.pages == s.heap.pages[p := s.spare[p]]
    ensures var t := s.(heap := h', spare := s.spare - {p}); SparesOk(t) && AllPages(t) == AllPages(s)
  {
    assert AllPages(s.(heap := h', spare := s.spare - {p})) == AllPages(s);
  }

  lemma PageLeaves(s: State, p: int, h': Heap)
    requires SparesOk(s) && p in s.heap.pages && h'.pages == s.heap.pages - {p}
    ensures var t := s.(heap := h', spare := s.spare[p := s.heap.pages[p]]); SparesOk(t) && AllPages(t) == AllPages(s)
  {
    assert AllPages(s.(heap := h', spare := s.spare[p := s.heap.pages[p]])) == AllPages(s);
  }

  // -------------------------------------------------------------------- every step

  lemma SpareAdded(s: State, p: int, n: nat)
    requires s.heap.pages.Keys !! s.spare.Keys && p !in AllPages(s)
    ensures AllPages(s.(spare := s.spare[p := n])) == AllPages(s)[p := n]
  {
  }

  lemma SpareRemoved(s: State, p: int)
    requires s.heap.pages.Keys !! s.spare.Keys && p in s.spare
    ensures AllPages(s.(spare := s.spare - {p})) == AllPages(s) - {p}
  {
  }

  lemma GetKeeps(s: State, p: int, n: nat, t: State)
    requires Inv(s) && Step(s, GetPages(p, n), t)
    ensures Inv(t)
  {
    SpareAdded(s, p, n);
    FreshJoins(AllPages(s), p, n);
  }

  lemma FreshJoins(m: map<int, nat>, p: int, n: nat)
    requires MapApart(m) && Fresh(m, p, n)
    ensures MapApart(m[p := n])
  {
    var m' := m[p := n];
    forall x, y | x in m' && y in m' && x != y ensures Apart(x, m'[x], y, m'[y]) {
      if x == p { assert Apart(p, n, y, m[y]); } else if y == p { assert Apart(p, n, x, m[x]); }
    }
  }

  lemma PutKeeps(s: State, p: int, t: State)
    requires Inv(s) && Step(s, PutPages(p), t)
    ensures Inv(t)
  {
    assert forall q :: q in AllPages(t) ==> q in AllPages(s) && AllPages(t)[q] == AllPages(s)[q];
  }

  /** The roots' pages and the lists do not change. */
  lemma SameAgrees(h: Heap, w: W.State, h': Heap)
    requires Agrees(h, w) && h'.roots == h.roots && h'.all == h.all
    ensures Agrees(h', w)
  {
  }

  lemma SameSpares(s: State, t: State)
    requires SparesOk(s) && t.heap.pages == s.heap.pages && t.spare == s.spare
    ensures SparesOk(t) && AllPages(t) == AllPages(s)
  {
    assert AllPages(t) == AllPages(s);
  }

  lemma TakeBlockKeeps(s: State, r: int, sz: int, t: State)
    requires Inv(s) && Step(s, TakeBlock(r, sz), t)
    ensures Inv(t) && AllPages(t) == AllPages(s)
  {
    TakeKeeps(s.heap, r, sz, NIL);
    SameAgrees(s.heap, s.win, t.heap);
    SameSpares(s, t);
  }

  lemma StoreKeeps(s: State, a: int, x: int, w: int, t: State)
    requires Inv(s) && Step(s, ClientStore(a, x, w), t)
    ensures Inv(t) && AllPages(t) == AllPages(s)
  {
    HR.StepKeepsInv(s.heap, HR.ClientStore(a, x, w), t.heap);
    SameAgrees(s.heap, s.win, t.heap);
    SameSpares(s, t);
  }

  /** A marked descriptor whose root has a page takes a spare page into the heap. */
  lemma LinkHeap(s: State, r: int, b: int, page: int, sz: int, h': Heap)
    requires HeapState.Inv(s.heap) && SparesOk(s) && Spare(s, page, 1) && Linked(s.heap, r, b, page, sz, h')
    requires r !in s.heap.all && s.heap.roots[r / NPAGEREFS_PER_PAGE].page != 0
    ensures HeapState.Inv(h') && h'.all == [r] + s.heap.all && h'.pages == s.heap.pages[page := 1]
    ensures |h'.roots| == |s.heap.roots|
    ensures forall k :: 0 <= k < |s.heap.roots| ==> h'.roots[k].page == s.heap.roots[k].page
  {
    SpareIsNew(s, page);
    assert Roots(s.heap);
    assert CanAdd(s.heap, r, b, page);
    AddPageKeeps(s.heap, r, b, page);
    TakeKeeps(AddPage(s.heap, r, b, page), r, sz, r);
    ReserveAgain(s.heap, r, b, page);
  }

  /** Handing out r, in the bitmaps and in the heap. */
  lemma HandedOut(h: Heap, w: W.State, r: int, h': Heap, w': W.State)
    requires Agrees(h, w) && h'.all == [r] + h.all && w'.held == w.held + {r}
    requires |h'.roots| == |h.roots| && |w'.roots| == |w.roots|
    requires forall k :: 0 <= k < |h.roots| ==> h'.roots[k].page == h.roots[k].page
    requires forall k :: 0 <= k < |w.roots| ==> w'.roots[k].page == w.roots[k].page
    ensures Agrees(h', w')
  {
  }

  lemma LinkKeeps(s: State, r: int, b: int, page: int, sz: int, t: State)
    requires Inv(s) && Step(s, Link(r, b, page, sz), t)
    ensures Inv(t) && AllPages(t) == AllPages(s)
  {
    W.StepKeepsInv(s.win, W.Begin(r), t.win);
    W.MarkCounted(s.win.roots, r);
    assert r !in s.win.held && s.win.roots[W.Home(r)].page != 0;
    LinkHeap(s, r, b, page, sz, t.heap);
    HandedOut(s.heap, s.win, r, t.heap, t.win);
    PageJoins(s, page, t.heap);
    assert t == State(t.heap, t.win, s.spare - {page});
  }

  lemma WaitKeeps(s: State, ev: Event, t: State)
    requires Inv(s) && Step(s, ev, t) && (ev.Wait? || ev.GiveUp?)
    ensures Inv(t) && AllPages(t) == AllPages(s)
  {
    if ev.Wait? {
      W.StepKeepsInv(s.win, W.Begin(ev.r), t.win);
      W.MarkCounted(s.win.roots, ev.r);
    } else {
      W.StepKeepsInv(s.win, W.Arrive(ev.r, 0), t.win);
    }
  }

  /** The awaited page becomes the root's, if it still has none. */
  lemma RootHeap(s: State, k: int, va: int) returns (m: State)
    requires HeapState.Inv(s.heap) && SparesOk(s) && 0 <= k < |s.heap.roots|
    requires s.heap.roots[k].page == 0 ==> Spare(s, va, 1)
    ensures m == s.(heap := Rooted(s.heap, k, va), spare := if s.heap.roots[k].page == 0 then s.spare - {va}
            else s.spare)
    ensures HeapState.Inv(m.heap) && SparesOk(m) && AllPages(m) == AllPages(s)
    ensures m.heap.all == s.heap.all && |m.heap.roots| == |s.heap.roots|
    ensures m.heap.roots[k].page != 0
    ensures forall j :: 0 <= j < |s.heap.roots| && j != k ==> m.heap.roots[j].page == s.heap.roots[j].page
    ensures m.heap.roots[k].page == if s.heap.roots[k].page == 0 then va else s.heap.roots[k].page
  {
    m := s.(heap := Rooted(s.heap, k, va), spare := if s.heap.roots[k].page == 0 then s.spare - {va} else s.spare);
    if s.heap.roots[k].page == 0 {
      SpareIsNew(s, va);
      AddRootKeeps(s.heap, k, va);
      PageJoins(s, va, m.heap);
    }
  }

  /** The bitmaps' side of an arrival. */
  lemma ArriveWindow(w: W.State, r: int, va: int, w': W.State)
    requires W.Inv(w) && W.Step(w, W.Arrive(r, va), w') && r in w'.held
    ensures W.Inv(w') && r !in w.held && w'.held == w.held + {r} && |w'.roots| == |w.roots|
    ensures var k := W.Home(r);
            && 0 <= k < |w.roots| && w'.roots[k].page == (if w.roots[k].page == 0 then va else w.roots[k].page)
            && forall j :: 0 <= j < |w.roots| && j != k ==> w'.roots[j].page == w.roots[j].page
  {
    W.StepKeepsInv(w, W.Arrive(r, va), w');
  }

  /** The heap's side of an arrival. */
  lemma ArriveHeap(s: State, r: int, va: int, b: int, page: int, sz: int, t: State)
    requires HeapState.Inv(s.heap) && SparesOk(s) && Spare(s, page, 1) && r !in s.heap.all
    requires 0 <= r < TOTAL_PAGEREFS && |s.heap.roots| == NUM_PAGEREFPAGES
    requires var k := W.Home(r);
             && (s.heap.roots[k].page == 0 ==> va != page && Spare(s, va, 1))
             && Linked(Rooted(s.heap, k, va), r, b, page, sz, t.heap)
             && t.spare == if s.heap.roots[k].page == 0 then s.spare - {va} - {page} else s.spare - {page}
    ensures HeapState.Inv(t.heap) && SparesOk(t) && AllPages(t) == AllPages(s)
    ensures t.heap.all == [r] + s.heap.all && |t.heap.roots| == |s.heap.roots|
    ensures var k := W.Home(r);
            && t.heap.roots[k].page == (if s.heap.roots[k].page == 0 then va else s.heap.roots[k].page)
            && forall j :: 0 <= j < |s.heap.roots| && j != k ==> t.heap.roots[j].page == s.heap.roots[j].page
  {
    var m := RootHeap(s, W.Home(r), va);
    LinkHeap(m, r, b, page, sz, t.heap);
    PageJoins(m, page, t.heap);
    SameSpares(m.(heap := t.heap, spare := m.spare - {page}), t);
  }

  lemma ArriveKeeps(s: State, r: int, va: int, b: int, page: int, sz: int, t: State)
    requires Inv(s) && Step(s, Arrive(r, va, b, page, sz), t)
    ensures Inv(t) && AllPages(t) == AllPages(s)
  {
    ArriveWindow(s.win, r, va, t.win);
    ArriveHeap(s, r, va, b, page, sz, t);
    ArriveAgrees(s.heap, s.win, r, va, t.heap, t.win);
  }

  lemma ArriveAgrees(h: Heap, w: W.State, r: int, va: int, h': Heap, w': W.State)
    requires Agrees(h, w) && h'.all == [r] + h.all && w'.held == w.held + {r} && 0 <= W.Home(r) < |h.roots|
    requires |h'.roots| == |h.roots| && |w'.roots| == |w.roots|
    requires h'.roots[W.Home(r)].page == (if h.roots[W.Home(r)].page == 0 then va else h.roots[W.Home(r)].page)
    requires w'.roots[W.Home(r)].page == (if w.roots[W.Home(r)].page == 0 then va else w.roots[W.Home(r)].page)
    requires forall j :: 0 <= j < |h.roots| && j != W.Home(r) ==> h'.roots[j].page == h.roots[j].page
    requires forall j :: 0 <= j < |w.roots| && j != W.Home(r) ==> w'.roots[j].page == w.roots[j].page
    ensures Agrees(h', w')
  {
  }

  /** A page given up is one of the heap's, and its descriptor leaves the lists. */
  lemma DroppedPage(h: Heap, a: int, h': Heap)
    requires HeapState.Inv(h) && HR.IsBlock(h, a) && HR.Freed(h, a, h')
    ensures var r := h.live[a].r;
            && r in h.all && PageOf(h, r) in h.pages && h.pages[PageOf(h, r)] == 1 && |h'.roots| == |h.roots|
            && (forall k :: 0 <= k < |h.roots| ==> h'.roots[k].page == h.roots[k].page)
            && (if PageOf(h, r) in h'.pages then h'.pages == h.pages && h'.all == h.all
                else h'.pages == h.pages - {PageOf(h, r)} && h'.all == Without(h.all, r))
  {
    HR.PageKeptIff(h, a, h');
    assert Single(h, PageOf(h, h.live[a].r), HeapPage(h.live[a].r));
  }

  lemma FreeBlockKeeps(s: State, a: int, t: State)
    requires Inv(s) && Step(s, FreeBlock(a), t)
    ensures Inv(t) && AllPages(t) == AllPages(s)
  {
    var r := s.heap.live[a].r;
    DroppedPage(s.heap, a, t.heap);
    HR.FreedKeepsInv(s.heap, a, t.heap);
    if PageOf(s.heap, r) in t.heap.pages {
      SameSpares(s, t);
    } else {
      W.StepKeepsInv(s.win, W.Free(r), t.win);
      FreeAgrees(s.heap, s.win, r, t.heap, t.win);
      PageLeaves(s, PageOf(s.heap, r), t.heap);
      SameSpares(s.(heap := t.heap, spare := t.spare), t);
    }
  }

  /** Taking r back, in the bitmaps and in the heap. */
  lemma FreeAgrees(h: Heap, w: W.State, r: int, h': Heap, w': W.State)
    requires Agrees(h, w) && W.Inv(w) && W.Step(w, W.Free(r), w') && h'.all == Without(h.all, r)
    requires |h'.roots| == |h.roots| && forall k :: 0 <= k < |h.roots| ==> h'.roots[k].page == h.roots[k].page
    ensures Agrees(h', w')
  {
    InWithoutAll(h.all, r);
    FreedRoots(w, r, w');
  }

  lemma FreedRoots(w: W.State, r: int, w': W.State)
    requires W.Inv(w) && W.Step(w, W.Free(r), w')
    ensures |w'.roots| == |w.roots| && w'.held == w.held - {r}
    ensures forall k :: 0 <= k < |w.roots| ==> w'.roots[k].page == w.roots[k].page
  {
    W.ClearCounted(w.roots, r);
  }

  lemma InWithoutAll(list: seq<int>, r: int)
    ensures forall q :: q in Without(list, r) <==> q in list && q != r
  {
  }

  lemma RunKeeps(s: State, ev: Event, t: State)
    requires Inv(s) && Step(s, ev, t) && (ev.TakeRun? || ev.FreeRun?)
    ensures Inv(t) && AllPages(t) == AllPages(s)
  {
    match ev {
      case TakeRun(a, sz) =>
        SpareIsNew(s, a);
        HR.PagesHoldRequestIff(sz);
        HR.GetRunKeeps(s.heap, a, sz, HR.Npages(sz));
        PageJoins(s, a, t.heap);
      case FreeRun(a) =>
        HR.PutRunKeeps(s.heap, a);
        PageLeaves(s, a, t.heap);
    }
  }

  /** Every locked section, every page call between them and every client store keeps the
      heap's invariant, the account of marked descriptors, and the spare pages apart; a
      locked section moves pages between heap and callers and loses none. */
  lemma StepKeepsInv(s: State, ev: Event, t: State)
    requires Inv(s) && Step(s, ev, t)
    ensures Inv(t)
    ensures !ev.GetPages? && !ev.PutPages? ==> AllPages(t) == AllPages(s)
  {
    match ev
    case GetPages(p, n) => GetKeeps(s, p, n, t);
    case PutPages(p) => PutKeeps(s, p, t);
    case TakeBlock(r, sz) => TakeBlockKeeps(s, r, sz, t);
    case Link(r, b, page, sz) => LinkKeeps(s, r, b, page, sz, t);
    case Wait(_) => WaitKeeps(s, ev, t);
    case Arrive(r, va, b, page, sz) => ArriveKeeps(s, r, va, b, page, sz, t);
    case GiveUp(_) => WaitKeeps(s, ev, t);
    case FreeBlock(a) => FreeBlockKeeps(s, a, t);
    case TakeRun(_, _) => RunKeeps(s, ev, t);
    case FreeRun(_) => RunKeeps(s, ev, t);
    case ClientStore(a, x, w) => StoreKeeps(s, a, x, w, t);
  }

  // -------------------------------------------------------------------- whole runs

  /** The zero-initialised heap, before any caller. */
  function Boot(): State {
    State(HR.BootHeap(), W.State(HR.BootRoots(), {}, {}, {}), map[])
  }

  lemma BootInv()
    ensures Inv(Boot()) && W.Boot(Boot().win)
  {
    HR.BootInv();
    var roots := HR.BootRoots();
    CountZero(HR.NoBits(), NPAGEREFS_PER_PAGE);
    forall k | 0 <= k < |roots| ensures roots[k] == Root(0, HR.NoBits(), 0) {}
    forall q ensures !InUse(roots, q) {}
  }

  ghost predicate IsRun(ss: seq<State>, evs: seq<Event>) {
    && |ss| == |evs| + 1 && ss[0] == Boot()
    && forall k {:trigger StepAt(ss, evs, k)} :: 0 <= k < |evs| ==> StepAt(ss, evs, k)
  }

  ghost predicate StepAt(ss: seq<State>, evs: seq<Event>, k: int)
    requires 0 <= k < |evs| && |ss| == |evs| + 1
  {
    Step(ss[k], evs[k], ss[k + 1])
  }

  lemma {:induction false} RunsKeepInv(ss: seq<State>, evs: seq<Event>, k: nat)
    requires IsRun(ss, evs) && k < |ss|
    ensures Inv(ss[k])
  {
    if k == 0 {
      BootInv();
    } else {
      RunsKeepInv(ss, evs, k - 1);
      assert StepAt(ss, evs, k - 1);
      StepKeepsInv(ss[k - 1], evs[k - 1], ss[k]);
    }
  }

  /** Heap safety with every window open: after any interleaving of any number of callers a
      live pointer has the bytes asked for and shares none with another; a block of a heap
      page is free exactly when it is not live; and no page that a caller holds between two
      locked sections is the heap's. */
  lemma HeapSafety(ss: seq<State>, evs: seq<Event>, k: nat, a: int, c: int, r: int, i: nat)
    requires IsRun(ss, evs) && k < |ss|
    ensures var h := ss[k].heap;
            && (a in h.live ==> (h.live[a].Block? ==> HR.IsBlock(h, a)) && h.live[a].sz <= HR.Extent(h, a))
            && (a in h.live && c in h.live && a != c ==>
                  && (h.live[c].Block? ==> HR.IsBlock(h, c))
                  && (a + HR.Extent(h, a) <= c || c + HR.Extent(h, c) <= a))
            && (r in h.all ==> 0 <= r < |h.refs| && r in h.free && FreeOk(h.refs[r], h.word, h.free[r]))
            && (r in h.all && i < Blocks(BlockType(h.refs[r])) ==>
                  (i in h.free[r] <==> BlockAt(PageOf(h, r), BlockType(h.refs[r]), i) !in h.live))
            && h.pages.Keys !! ss[k].spare.Keys
  {
    var h := ss[k].heap;
    RunsKeepInv(ss, evs, k);
    HR.SafetyOf(h, a, c);
    if r in h.all {
      Descriptor(h, r, NIL);
      if i < Blocks(BlockType(h.refs[r])) { HR.LiveXorFree(h, r, i); }
    }
  }

  /** And giving back the page of a descriptor in use fails no assertion of freepageref if
      and only if no root before its own is swamped by callers without its page. */
  lemma DropAssertsIff(ss: seq<State>, evs: seq<Event>, k: nat, r: int)
    requires IsRun(ss, evs) && k < |ss| && r in ss[k].heap.all
    ensures W.Counted(ss[k].win.roots) && W.Descriptor(r)
    ensures W.FreeAsserts(ss[k].win.roots, r) <==> forall i :: 0 <= i < W.Home(r) ==> !W.Swamped(ss[k].win, i)
  {
    RunsKeepInv(ss, evs, k);
    W.AssertsIff(ss[k].win, r);
  }
}
