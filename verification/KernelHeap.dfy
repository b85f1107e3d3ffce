/** The kernel heap's code, updating its variables in place.

    Source: kern/vm/kmalloc.c, in the default configuration (no guard bands, labels or
    consistency checks). What alloc_kpages returns is a parameter: pages not in use here. */
module KernelHeap {
  import opened Common
  import opened HeapDescriptors
  import opened HeapLists
  import opened HeapState
  import opened HeapRuns
  import Digits

  /** The heap once the root of descriptor r has a page: va, if it had none. */
  ghost function Rooted(h: Heap, r: int, va: int): Heap
    requires 0 <= r < TOTAL_PAGEREFS && |h.roots| == NUM_PAGEREFPAGES
  {
    var k := r / NPAGEREFS_PER_PAGE;
    if h.roots[k].page == 0 then AddRoot(h, k, va) else h
  }

  /** Both addresses alloc_kpages may be asked for are new, and differ. */
  ghost predicate Offered(h: Heap, page: int, va: int) {
    NewPages(h, page, 1) && NewPages(h, va, 1) && Apart(page, 1, va, 1)
  }

  lemma RootedKeeps(h: Heap, r: int, page: int, va: int)
    requires Inv(h) && 0 <= r < TOTAL_PAGEREFS && !InUse(h.roots, r) && Offered(h, page, va)
    ensures Inv(Rooted(h, r, va))
  {
    var k := r / NPAGEREFS_PER_PAGE;
    if h.roots[k].page == 0 { AddRootKeeps(h, k, va); }
  }

  lemma RootedCanAdd(h: Heap, r: int, b: nat, page: int, va: int)
    requires Inv(h) && 0 <= r < TOTAL_PAGEREFS && !InUse(h.roots, r) && Offered(h, page, va) && b < NSIZES
    requires Inv(Rooted(h, r, va))
    ensures CanAdd(Rooted(h, r, va), r, b, page)
  {
    var h' := Rooted(h, r, va);
    assert va > 0 by { assert PageShape(va, 1); }
    forall q | q in h'.pages ensures Apart(page, 1, q, h'.pages[q]) {
      if q in h.pages { assert Apart(page, 1, q, h.pages[q]); }
    }
  }

  lemma RootedTables(h: Heap, r: int, va: int)
    requires Tables(h) && 0 <= r < TOTAL_PAGEREFS
    ensures Tables(Rooted(h, r, va))
  {
    var h' := Rooted(h, r, va);
    forall j | 0 <= j < |h'.roots| ensures RootOk(h'.roots[j]) { assert RootOk(h.roots[j]); }
  }

  /** Giving the root its page and then taking a descriptor, or both at once. */
  lemma RootedReserve(h: Heap, r: int, va: int)
    requires Tables(h) && 0 <= r < TOTAL_PAGEREFS && va != 0 && Tables(Rooted(h, r, va))
    ensures Reserve(Rooted(h, r, va).roots, r, 0) == Reserve(h.roots, r, va)
  {
  }

  lemma SetUpReady(h: Heap, r: int, b: nat, page: int, va: int)
    requires Inv(h) && 0 <= r < TOTAL_PAGEREFS && !InUse(h.roots, r) && Offered(h, page, va) && b < NSIZES
    ensures CanAdd(Rooted(h, r, va), r, b, page)
    ensures InvBut(AddPage(Rooted(h, r, va), r, b, page), r)
  {
    RootedKeeps(h, r, page, va);
    RootedCanAdd(h, r, b, page, va);
    AddPageKeeps(Rooted(h, r, va), r, b, page);
  }

  /** What doalloc finds: the head of the list, in memory. */
  lemma TakeReady(h: Heap, pr: int, sz: int, x: int)
    requires InvBut(h, x) && CanTake(h, pr, sz)
    ensures TakenAt(h, pr) in h.word && TakenAt(h, pr) > 0
  {
    Descriptor(h, pr, x);
    HeadInMemory(h.refs[pr], h.word, h.free[pr], TakenAt(h, pr));
  }

  lemma HeadInMemory(pr: Pageref, word: map<int, int>, free: seq<nat>, a: int)
    requires FreeOk(pr, word, free) && free != [] && PageAddr(pr) > 0 && a == PageAddr(pr) + pr.freelist
    ensures a in word && a > 0
  {
    BlockBounds(BlockType(pr), free[0], 0);
    ChainPop(PageAddr(pr), BlockType(pr), word, free);
  }

  /** No page on a list has a free block. */
  predicate NoneFree(refs: seq<Pageref>, ids: seq<int>) {
    forall k :: 0 <= k < |ids| ==> 0 <= ids[k] < |refs| && refs[ids[k]].nfree <= 0
  }

  /** pr is the first page on a list with a free block. */
  ghost predicate FirstFreePage(refs: seq<Pageref>, ids: seq<int>, pr: int) {
    exists k :: 0 <= k < |ids| && ids[k] == pr && NoneFree(refs, ids[..k]) && 0 <= pr < |refs| && refs[pr].nfree > 0
  }

  lemma SearchResult(refs: seq<Pageref>, ids: seq<int>, pr: int)
    requires pr != NIL ==> 0 <= pr < |refs| && refs[pr].nfree > 0
    requires forall j :: 0 <= j < |ids| ==> 0 <= ids[j]
    requires exists k :: 0 <= k <= |ids| && pr == At(ids, k)
                         && forall j :: 0 <= j < k ==> 0 <= ids[j] < |refs| && refs[ids[j]].nfree <= 0
    ensures pr == NIL <==> NoneFree(refs, ids)
    ensures pr != NIL ==> FirstFreePage(refs, ids, pr)
  {
    var k :| 0 <= k <= |ids| && pr == At(ids, k)
             && forall j :: 0 <= j < k ==> 0 <= ids[j] < |refs| && refs[ids[j]].nfree <= 0;
    if pr != NIL { assert ids[k] == pr && NoneFree(refs, ids[..k]); }
  }

  predicate AllInUse(roots: seq<Root>) { forall q :: 0 <= q < TOTAL_PAGEREFS ==> InUse(roots, q) }

  /** Root pages lie apart, as freepageref's search relies on. */
  lemma RootsApart(h: Heap, x: int)
    requires InvBut(h, x)
    ensures RootPagesApart(h.roots)
  {
    forall k | 0 <= k < |h.roots| ensures h.roots[k].page % PAGE_SIZE == 0 {
      if h.roots[k].page != 0 { assert Single(h, h.roots[k].page, RefPage(k)); assert PageShape(h.roots[k].page, 1); }
    }
    forall k, l | 0 <= k < l < |h.roots| && h.roots[k].page != 0 ensures h.roots[k].page != h.roots[l].page {
      assert Single(h, h.roots[k].page, RefPage(k));
      if h.roots[l].page != 0 { assert Single(h, h.roots[l].page, RefPage(l)); }
    }
  }

  /** pr is off both chains: first off ids, giving refs1, then off all, giving refs2. */
  ghost predicate OffBoth(refs: seq<Pageref>, refs1: seq<Pageref>, refs2: seq<Pageref>, head: int, base: int, pr: int,
                          ids: seq<int>, all: seq<int>)
  {
    && OnlyNext(refs, refs1, Same) && OnlyNext(refs1, refs2, All)
    && (forall r :: 0 <= r < |refs| && r !in ids ==> refs1[r] == refs[r])
    && ListOk(refs1, head, Without(ids, pr), Same) && ListOk(refs2, base, Without(all, pr), All)
  }

  /** The two loops of remove_lists. */
  method UnlinkBoth(refs: seq<Pageref>, head: int, base: int, pr: int, ghost ids: seq<int>, ghost all: seq<int>)
    returns (refs2: seq<Pageref>, head': int, base': int, ghost refs1: seq<Pageref>)
    requires 0 <= pr < |refs| && ListOk(refs, head, ids, Same) && ListOk(refs, base, all, All)
    ensures OffBoth(refs, refs1, refs2, head', base', pr, ids, all)
  {
    var mid;
    mid, head' := Unlink(refs, head, pr, Same, ids);
    refs1 := mid;
    ListKept(refs, mid, base, all, All);
    refs2, base' := Unlink(mid, base, pr, All, all);
  }

  class Kheap {
    var roots: seq<Root>
    var refs: seq<Pageref>
    var sizebases: seq<int>
    var allbase: int
    var word: map<int, int>
    var pages: map<int, nat>
    ghost var all: seq<int>
    ghost var same: seq<seq<int>>
    ghost var free: map<int, seq<nat>>
    ghost var live: map<int, Live>
    ghost var owner: map<int, Owner>

    ghost function State(): Heap
      reads this
    {
      Heap(roots, refs, sizebases, allbase, word, pages, all, same, free, live, owner)
    }

    constructor ()
      ensures State() == BootHeap() && Inv(State())
    {
      roots := BootRoots();
      refs := BootRefs();
      sizebases := [NIL, NIL, NIL, NIL, NIL, NIL, NIL, NIL];
      allbase := NIL;
      word := map[];
      pages := map[];
      all := [];
      same := [[], [], [], [], [], [], [], []];
      free := map[];
      live := map[];
      owner := map[];
      BootInv();
    }

    /** doalloc: take the first free block of page pr. */
    method DoAlloc(pr: int, ghost sz: int) returns (p: int)
      requires CanTake(State(), pr, sz) && TakenAt(State(), pr) in word
      modifies this
      ensures State() == Take(old(State()), pr, sz) && p == TakenAt(old(State()), pr)
    {
      var prpage := PageAddr(refs[pr]);
      p := prpage + refs[pr].freelist;
      var fl := word[p];
      ghost var i := free[pr][0];
      if fl != 0 {
        refs := refs[pr := refs[pr].(nfree := refs[pr].nfree - 1, freelist := fl - prpage)];
      } else {
        refs := refs[pr := refs[pr].(nfree := refs[pr].nfree - 1, freelist := INVALID_OFFSET)];
      }
      free := free[pr := free[pr][1..]];
      live := live[p := Block(sz, pr, i)];
    }

    /** allocpageref, with the root's page put in its place. */
    method TakeDescriptor(va: int) returns (pr: int)
      requires Tables(State()) && va != 0
      modifies this
      ensures pr == NIL ==> State() == old(State()) && AllInUse(roots)
      ensures pr != NIL ==>
                && 0 <= pr < TOTAL_PAGEREFS && !InUse(old(roots), pr)
                && State() == Rooted(old(State()), pr, va).(roots := Reserve(old(roots), pr, va))
    {
      var roots';
      roots', pr := AllocPageref(roots, va);
      if pr < 0 { return NIL; }
      if roots[pr / NPAGEREFS_PER_PAGE].page == 0 {
        pages := pages[va := 1];
        owner := owner[va := RefPage(pr / NPAGEREFS_PER_PAGE)];
      }
      roots := roots';
    }

    /** A fresh page threaded and linked under descriptor pr. */
    method ThreadAndLink(pr: int, b: nat, page: int)
      requires |refs| == TOTAL_PAGEREFS && |sizebases| == NSIZES && |same| == NSIZES
      requires b < NSIZES && 0 <= pr < TOTAL_PAGEREFS
      modifies this
      ensures State() == LinkPage(old(State()), pr, b, page)
    {
      var fla;
      word, fla := ThreadPage(word, page, b);
      var offset := fla - page;
      assert offset == (Blocks(b) - 1) * SIZES[b];
      Link(pr, b, page, offset);
    }

    /** The new descriptor, at the head of both its lists. */
    method Link(pr: int, b: nat, page: int, offset: int)
      requires |refs| == TOTAL_PAGEREFS && |sizebases| == NSIZES && |same| == NSIZES
      requires b < NSIZES && 0 <= pr < TOTAL_PAGEREFS
      modifies this
      ensures State() == old(State()).(
                refs := old(refs)[pr := Pageref(old(sizebases)[b], old(allbase), MkPab(page, b), offset, Blocks(b))],
                sizebases := old(sizebases)[b := pr], allbase := pr, pages := old(pages)[page := 1],
                all := [pr] + old(all), same := old(same)[b := [pr] + old(same)[b]],
                free := old(free)[pr := Down(Blocks(b))], owner := old(owner)[page := HeapPage(pr)])
    {
      pages := pages[page := 1];
      refs := refs[pr := Pageref(sizebases[b], allbase, MkPab(page, b), offset, Blocks(b))];
      sizebases := sizebases[b := pr];
      allbase := pr;
      all := [pr] + all;
      same := same[b := [pr] + same[b]];
      free := free[pr := Down(Blocks(b))];
      owner := owner[page := HeapPage(pr)];
    }

    /** The part of subpage_kmalloc that sets up a fresh page; it fails only when every
        descriptor is in use. */
    method SetUpPage(b: nat, page: int, va: int) returns (pr: int)
      requires Tables(State()) && b < NSIZES && va != 0
      modifies this
      ensures pr == NIL ==> State() == old(State()) && AllInUse(roots)
      ensures pr != NIL ==>
                && 0 <= pr < TOTAL_PAGEREFS && !InUse(old(roots), pr) && Tables(Rooted(old(State()), pr, va))
                && State() == AddPage(Rooted(old(State()), pr, va), pr, b, page)
    {
      ghost var h := State();
      pr := TakeDescriptor(va);
      if pr != NIL {
        RootedTables(h, pr, va);
        RootedReserve(h, pr, va);
        ThreadAndLink(pr, b, page);
      }
    }

    /** subpage_kmalloc. The block comes from the first page of the smallest fitting type
        b that has one; only when none has, from a fresh page. `mid` is the heap it was
        taken from, `pr` its page. */
    method SubpageKmalloc(sz: int, page: int, va: int) returns (p: int, ghost mid: Heap, ghost pr: int, ghost b: nat)
      requires Inv(State()) && 0 <= sz < LARGEST_SUBPAGE_SIZE && Offered(State(), page, va)
      modifies this
      ensures Inv(State()) && Smallest(b, sz) && |old(same)| == NSIZES
      ensures p == 0 ==> State() == old(State()) && AllInUse(roots) && NoneFree(refs, same[b])
      ensures p != 0 ==>
                && p !in old(live) && CanTake(mid, pr, sz) && p == TakenAt(mid, pr) && State() == Take(mid, pr, sz)
                && mid.live == old(live)
                && (if NoneFree(old(refs), old(same)[b])
                    then CanAdd(Rooted(old(State()), pr, va), pr, b, page)
                         && mid == AddPage(Rooted(old(State()), pr, va), pr, b, page)
                    else mid == old(State()) && FirstFreePage(old(refs), old(same)[b], pr))
    {
      ghost var h := State();
      var blktype := Blocktype(sz);
      b := blktype;
      var found := FirstWithFree(refs, sizebases[blktype], same[blktype]);
      SearchResult(refs, same[b], found);
      if found != NIL {
        mid, pr := h, found;
        Descriptor(h, found, NIL);
        TakeReady(h, found, sz, NIL);
        TakeKeeps(h, found, sz, NIL);
        p := DoAlloc(found, sz);
        return;
      }
      assert va != 0 by { assert PageShape(va, 1); }
      found := SetUpPage(blktype, page, va);
      mid, pr := State(), found;
      if found == NIL {
        p := 0;
      } else {
        SetUpReady(h, found, b, page, va);
        FreshTakes(h, mid, found, b, page, va, sz);
        TakeReady(mid, found, sz, found);
        TakeKeeps(mid, found, sz, found);
        p := DoAlloc(found, sz);
      }
    }

    /** The block at ptr goes to the head of its page's free list. */
    method PushBlock(pr: int, ptr: int)
      requires IsBlock(State(), ptr) && pr == live[ptr].r
      modifies this
      ensures State() == Push(old(State()), ptr)
    {
      ghost var l := live[ptr];
      var prpage, blktype := PageAddr(refs[pr]), BlockType(refs[pr]);
      var offset := ptr - prpage;
      var next := if refs[pr].freelist == INVALID_OFFSET then 0 else prpage + refs[pr].freelist;
      word := FillDeadbeef(word, ptr, SIZES[blktype]);
      word := word[ptr := next];
      refs := refs[pr := refs[pr].(freelist := offset, nfree := refs[pr].nfree + 1)];
      free := free[pr := [l.i] + free[pr]];
      live := live - {ptr};
    }

    /** remove_lists; refs1 is the table between its two loops. */
    method RemoveLists(pr: int, blktype: nat) returns (ghost refs1: seq<Pageref>)
      requires 0 <= pr < |refs| && blktype < NSIZES && |sizebases| == NSIZES && |same| == NSIZES
      requires ListOk(refs, sizebases[blktype], same[blktype], Same) && ListOk(refs, allbase, all, All)
      modifies this
      ensures |sizebases| == NSIZES
      ensures State() == old(State()).(
                refs := refs, sizebases := old(sizebases)[blktype := sizebases[blktype]], allbase := allbase,
                all := Without(old(all), pr), same := old(same)[blktype := Without(old(same)[blktype], pr)])
      ensures OffBoth(old(refs), refs1, refs, sizebases[blktype], allbase, pr, old(same)[blktype], old(all))
    {
      var head, base;
      refs, head, base, refs1 := UnlinkBoth(refs, sizebases[blktype], allbase, pr, same[blktype], all);
      sizebases := sizebases[blktype := head];
      allbase := base;
      all := Without(all, pr);
      same := same[blktype := Without(same[blktype], pr)];
    }

    /** A page all of whose blocks are free is given back. */
    method ReturnPage(pr: int)
      requires InvBut(State(), pr) && pr in all
      modifies this
      ensures Dropped(old(State()), State(), pr)
    {
      ghost var h := State();
      Descriptor(h, pr, pr);
      RootsApart(h, pr);
      var prpage := PageAddr(refs[pr]);
      ghost var refs1 := RemoveLists(pr, BlockType(refs[pr]));
      roots := FreePageref(roots, pr);
      FreeKpages(prpage);
      free := free - {pr};
      DroppedIs(h, State(), pr, refs1);
    }

    /** free_kpages takes only the base of pages that alloc_kpages gave. */
    method FreeKpages(p: int)
      requires p in pages
      modifies this
      ensures State() == old(State()).(pages := old(pages) - {p}, owner := old(owner) - {p})
    {
      pages := pages - {p};
      owner := owner - {p};
    }

    /** subpage_kfree: frees the block, or answers -1 for a pointer that is not one. */
    method SubpageKfree(ptr: int) returns (r: int)
      requires Inv(State()) && ptr in live
      modifies this
      ensures r == -1 || r == 0
      ensures if r == -1 then State() == old(State()) && live[ptr].Run? else BlockFreed(old(State()), ptr, State())
    {
      ghost var h := State();
      var pr := FirstHolding(refs, allbase, ptr, all);
      RoutedBy(h, ptr, pr);
      if pr == NIL { return -1; }
      var offset, blktype := ptr - PageAddr(refs[pr]), BlockType(refs[pr]);
      WellPlaced(h, ptr, pr, offset, blktype);
      assert 0 <= offset < PAGE_SIZE && Aligned(offset, blktype);
      PushBlock(pr, ptr);
      PushKeeps(h, ptr);
      PushShape(h, ptr);
      if refs[pr].nfree == PAGE_SIZE / SIZES[blktype] {
        ReturnPage(pr);
      }
      r := 0;
    }

    /** kmalloc. `page` and `va` are what alloc_kpages gives for a heap page and for a
        page of descriptors, `run` what it gives for a request of whole pages. */
    method Kmalloc(sz: int, page: int, va: int, run: int) returns (p: int)
      requires Inv(State()) && 0 <= sz < WORD
      requires if sz < LARGEST_SUBPAGE_SIZE then Offered(State(), page, va)
               else run != 0 && (Npages(sz) > 0 ==> NewPages(State(), run, Npages(sz)))
      modifies this
      ensures sz + PAGE_SIZE - 1 < WORD ==> Inv(State())
      ensures sz >= LARGEST_SUBPAGE_SIZE ==> p == run && State() == GetRun(old(State()), run, sz, Npages(sz))
      ensures sz < LARGEST_SUBPAGE_SIZE && p != 0 ==> p in live && live[p].Block? && live[p].sz == sz
      ensures sz + PAGE_SIZE - 1 < WORD && p != 0 ==>
                p !in old(live) && live == old(live)[p := live[p]] && live[p].sz == sz
      ensures p == 0 ==> sz < LARGEST_SUBPAGE_SIZE && State() == old(State()) && AllInUse(roots)
      ensures p == 0 ==> |same| == NSIZES && forall b: nat :: Smallest(b, sz) ==> NoneFree(refs, same[b])
    {
      if sz >= LARGEST_SUBPAGE_SIZE {
        PagesHoldRequestIff(sz);
        if sz + PAGE_SIZE - 1 < WORD { GetRunKeeps(State(), run, sz, Npages(sz)); }
        AllocKpages(run, (sz + PAGE_SIZE - 1) % WORD / PAGE_SIZE, sz);
        return run;
      }
      ghost var mid, pr, b;
      p, mid, pr, b := SubpageKmalloc(sz, page, va);
    }

    /** A run of whole pages, as alloc_kpages gave it. */
    method AllocKpages(run: int, npages: nat, ghost sz: int)
      modifies this
      ensures State() == GetRun(old(State()), run, sz, npages)
    {
      pages := pages[run := npages];
      owner := owner[run := RunPage];
      live := live[run := Run(sz, npages)];
    }

    /** The large case of kfree. */
    method FreeRunAt(ptr: int)
      requires ptr in pages
      modifies this
      ensures State() == PutRun(old(State()), ptr)
    {
      FreeKpages(ptr);
      live := live - {ptr};
    }

    /** kfree sends each live pointer back to the allocator it came from. */
    method Kfree(ptr: int)
      requires Inv(State()) && (ptr == 0 || ptr in live)
      modifies this
      ensures Kfreed(old(State()), ptr, State()) && Inv(State()) && live == old(live) - {ptr}
    {
      ghost var h := State();
      NullNotLive(h);
      if ptr != 0 {
        var r := SubpageKfree(ptr);
        if r != 0 {
          RunReady(h, ptr);
          assert ptr % PAGE_SIZE == 0;
          FreeRunAt(ptr);
        }
      }
      KfreedKeeps(h, ptr, State());
    }
  }

  ghost predicate BlockFreed(h: Heap, ptr: int, h': Heap) { IsBlock(h, ptr) && Freed(h, ptr, h') }

  /** What kfree does: nothing for NULL, a run's pages freed, or a block freed. */
  ghost predicate Kfreed(h: Heap, ptr: int, h': Heap) {
    if ptr !in h.live then h' == h
    else if h.live[ptr].Run? then h' == PutRun(h, ptr)
    else BlockFreed(h, ptr, h')
  }

  lemma KfreedKeeps(h: Heap, ptr: int, h': Heap)
    requires Inv(h) && Kfreed(h, ptr, h')
    ensures Inv(h')
  {
    if ptr in h.live {
      if h.live[ptr].Run? { PutRunKeeps(h, ptr); } else { FreedKeepsInv(h, ptr, h'); }
    }
  }

  /** What the four parts of giving a page back amount to. */
  lemma DroppedIs(h: Heap, h': Heap, pr: int, refs1: seq<Pageref>)
    requires Lists(h) && Roots(h) && pr in h.all && |h'.sizebases| == NSIZES
    requires var b := BlockType(h.refs[pr]);
             && OffBoth(h.refs, refs1, h'.refs, h'.sizebases[b], h'.allbase, pr, h.same[b], h.all)
             && h' == h.(refs := h'.refs, sizebases := h.sizebases[b := h'.sizebases[b]], allbase := h'.allbase,
                         all := Without(h.all, pr), same := h.same[b := Without(h.same[b], pr)],
                         roots := Unreserve(h.roots, pr), free := h.free - {pr},
                         pages := h.pages - {PageOf(h, pr)}, owner := h.owner - {PageOf(h, pr)})
    ensures Dropped(h, h', pr)
  {
    var b := BlockType(h.refs[pr]);
    Unlinked(h, refs1, h'.refs, h'.sizebases[b], h'.allbase, pr, b);
    assert InUse(h.roots, pr);
  }

  lemma Unlinked(h: Heap, refs1: seq<Pageref>, refs2: seq<Pageref>, head: int, base: int, pr: int, b: nat)
    requires Lists(h) && pr in h.all && b == BlockType(h.refs[pr])
    requires OffBoth(h.refs, refs1, refs2, head, base, pr, h.same[b], h.all)
    ensures forall q :: 0 <= q < |h.refs| ==> SameBut(h.refs[q], refs2[q])
    ensures ListOk(refs2, head, Without(h.same[b], pr), Same)
    ensures forall c :: 0 <= c < NSIZES && c != b ==> ListOk(refs2, h.sizebases[c], h.same[c], Same)
  {
    ListKept(refs1, refs2, head, Without(h.same[b], pr), Same);
    forall c | 0 <= c < NSIZES && c != b ensures ListOk(refs2, h.sizebases[c], h.same[c], Same) {
      assert forall r :: r in h.same[c] ==> r !in h.same[b];
      ListKept(h.refs, refs2, h.sizebases[c], h.same[c], Same);
    }
  }

  /** The search finds the block's own page, and none for a run of pages. */
  lemma RoutedBy(h: Heap, ptr: int, pr: int)
    requires Inv(h) && ptr in h.live
    requires pr != NIL ==> pr in h.all && 0 <= pr < |h.refs| && Contains(h.refs[pr], ptr)
    requires pr == NIL ==> forall r :: r in h.all && 0 <= r < |h.refs| ==> !Contains(h.refs[r], ptr)
    ensures pr == NIL <==> h.live[ptr].Run?
    ensures pr != NIL ==> IsBlock(h, ptr) && h.live[ptr].r == pr
  {
    WhereLive(h, ptr);
    if pr != NIL {
      Descriptor(h, pr, NIL);
      BaseOwner(h, ptr);
      OnePage(h, PageOf(h, pr), Base(h, ptr), ptr);
    }
  }

  /** A live block is where kfree's check of its position wants it. */
  lemma WellPlaced(h: Heap, ptr: int, pr: int, offset: int, b: nat)
    requires IsBlock(h, ptr) && pr == h.live[ptr].r && offset == ptr - PageAddr(h.refs[pr]) &&
             b == BlockType(h.refs[pr])
    ensures 0 <= offset < PAGE_SIZE && Aligned(offset, b)
  {
    BlockBounds(b, h.live[ptr].i, 0);
    Multiple(h.live[ptr].i, b);
  }

  /** The offset is that of a block of the page. */
  predicate Aligned(offset: int, b: nat) { b < NSIZES && offset % SIZES[b] == 0 }

  lemma Multiple(i: nat, b: nat)
    requires b < NSIZES
    ensures Aligned(i * SIZES[b], b)
  {
    var x, z := i * SIZES[b], SIZES[b];
    Digits.DivMod(x, z, x / z, x % z);
    Digits.SplitUnique(i, 0, x / z, x % z, z);
  }

  lemma PushShape(h: Heap, a: int)
    requires Inv(h) && IsBlock(h, a)
    ensures var m, r := Push(h, a), h.live[a].r;
            && r in m.all && 0 <= r < |m.refs| && m.refs[r].nfree == |m.free[r]| && BlockType(m.refs[r]) == TypeOf(h, r)
  {
    PushKeeps(h, a);
    Descriptor(Push(h, a), h.live[a].r, h.live[a].r);
  }

  lemma RunReady(h: Heap, a: int)
    requires Inv(h) && a in h.live && h.live[a].Run?
    ensures Inv(PutRun(h, a)) && a in h.pages && a % PAGE_SIZE == 0
  {
    PutRunKeeps(h, a);
    assert PageShape(a, h.pages[a]);
  }

  lemma NullNotLive(h: Heap)
    requires Inv(h)
    ensures 0 !in h.live
  {
    if 0 in h.live {
      WhereLive(h, 0);
    }
  }

  lemma FreshTakes(h: Heap, mid: Heap, pr: int, b: nat, page: int, va: int, sz: int)
    requires 0 <= pr < TOTAL_PAGEREFS && |h.roots| == NUM_PAGEREFPAGES && b < NSIZES && sz <= SIZES[b]
    requires CanAdd(Rooted(h, pr, va), pr, b, page) && mid == AddPage(Rooted(h, pr, va), pr, b, page)
    ensures CanTake(mid, pr, sz) && mid.live == h.live
  {
    PabRoundTrip(page, b);
  }
}
