/** Freeing, whole-page allocations, client stores, and what holds over whole runs of the
    kernel heap.

    Source: kern/vm/kmalloc.c (subpage_kfree, kmalloc, kfree). */
module HeapRuns {
  import opened Common
  import opened HeapDescriptors
  import opened HeapLists
  import opened HeapState

  // ------------------------------------------------------------------ freeing a block

  predicate IsBlock(h: Heap, a: int) { a in h.live && h.live[a].Block? && BlockLive(h, a, h.live[a]) }

  function TypeOf(h: Heap, r: int): (b: int)
    requires 0 <= r < |h.refs|
    ensures 0 <= b
  {
    BlockType(h.refs[r])
  }

  /** The words after the block is filled and linked to the old head. */
  function FreedWords(word: map<int, int>, a: int, size: int, pr: Pageref): map<int, int>
    requires size >= 0
  {
    Fill(word, a, size / 4)[a := if pr.freelist == INVALID_OFFSET then 0 else PageAddr(pr) + pr.freelist]
  }

  /** subpage_kfree up to the test whether the whole page is free. */
  function Push(h: Heap, a: int): Heap
    requires IsBlock(h, a)
  {
    var l := h.live[a];
    var pr := h.refs[l.r];
    h.(refs := h.refs[l.r := pr.(nfree := pr.nfree + 1, freelist := a - PageAddr(pr))],
       word := FreedWords(h.word, a, SIZES[BlockType(pr)], pr),
       free := h.free[l.r := [l.i] + h.free[l.r]],
       live := h.live - {a})
  }

  lemma FreedKeeps(word: map<int, int>, a: int, size: int, pr: Pageref)
    requires size >= 4 && size % 4 == 0
    ensures KeptOutside(word, FreedWords(word, a, size, pr), a, a + size)
  {
    FillKeeps(word, a, size / 4);
  }

  /** The freed block's own page, its list and its words. */
  lemma PushChain(page: int, b: nat, word: map<int, int>, free: seq<nat>, i: nat, a: int, word': map<int, int>)
    requires FreeChain(page, b, word, free) && i < Blocks(b) && i !in free && a == BlockAt(page, b, i)
    requires KeptOutside(word, word', a, a + SIZES[b])
    requires Holds(word', a, if FreeHead(b, free) == INVALID_OFFSET then 0 else page + FreeHead(b, free))
    ensures FreeChain(page, b, word', [i] + free)
  {
    forall k | 0 <= k < |free| ensures !(a <= BlockAt(page, b, free[k]) < a + SIZES[b]) { BlockBounds(b, i, free[k]); }
    ChainKept(page, b, word, word', free, a, a + SIZES[b]);
    ChainPush(page, b, word', free, i);
  }

  lemma PushOwnList(pr: Pageref, word: map<int, int>, free: seq<nat>, i: nat, a: int)
    requires FreeOk(pr, word, free) && i < Blocks(BlockType(pr)) && i !in free
    requires a == BlockAt(PageAddr(pr), BlockType(pr), i)
    ensures FreeOk(pr.(nfree := pr.nfree + 1, freelist := a - PageAddr(pr)),
                   FreedWords(word, a, SIZES[BlockType(pr)], pr), [i] + free)
    ensures KeptOutside(word, FreedWords(word, a, SIZES[BlockType(pr)], pr), a, a + SIZES[BlockType(pr)])
    ensures PageAddr(pr) <= a && a + SIZES[BlockType(pr)] <= PageAddr(pr) + PAGE_SIZE
  {
    var page, b := PageAddr(pr), BlockType(pr);
    BlockBounds(b, i, 0);
    FreedKeeps(word, a, SIZES[b], pr);
    PushChain(page, b, word, free, i, a, FreedWords(word, a, SIZES[b], pr));
    FreeOkOf(pr, pr.(nfree := pr.nfree + 1, freelist := a - page), FreedWords(word, a, SIZES[b], pr), [i] + free);
  }

  /** A descriptor of the same page whose fields agree with a list. */
  lemma FreeOkOf(pr: Pageref, pr': Pageref, word: map<int, int>, free: seq<nat>)
    requires pr'.pab == pr.pab && FreeChain(PageAddr(pr), BlockType(pr), word, free)
    requires pr'.nfree == |free| && pr'.freelist == FreeHead(BlockType(pr), free)
    ensures FreeOk(pr', word, free)
  {
  }

  /** Only the free-list fields of descriptor r, words, free lists and live blocks differ. */
  ghost predicate Touched(h: Heap, h': Heap, r: int) {
    && |h'.refs| == |h.refs| && 0 <= r < |h.refs|
    && (forall q :: 0 <= q < |h.refs| && q != r ==> h'.refs[q] == h.refs[q])
    && h'.refs[r].pab == h.refs[r].pab && h'.refs[r].nextSame == h.refs[r].nextSame &&
       h'.refs[r].nextAll == h.refs[r].nextAll
    && h'.roots == h.roots && h'.sizebases == h.sizebases && h'.allbase == h.allbase
    && h'.pages == h.pages && h'.owner == h.owner && h'.all == h.all && h'.same == h.same
    && (forall a :: a in h.live && h.live[a].Run? ==> a in h'.live && h'.live[a] == h.live[a])
    && (forall a :: a in h'.live && h'.live[a].Run? ==> a in h.live && h'.live[a] == h.live[a])
  }

  lemma TouchedLists(h: Heap, h': Heap, r: int, x: int)
    requires InvBut(h, x) && Touched(h, h', r)
    ensures Lists(h') && Roots(h')
  {
    forall q | 0 <= q < |h.refs| ensures SameLinks(h.refs[q], h'.refs[q]) {}
    ListsTouched(h, h');
  }

  lemma TouchedOwners(h: Heap, h': Heap, r: int, x: int)
    requires InvBut(h, x) && Touched(h, h', r)
    ensures PagesApart(h') && Owners(h')
  {
    forall p | p in h'.owner ensures OwnerTrue(h', p) { assert OwnerTrue(h, p); }
    forall q | q in h'.all && 0 <= q < |h'.refs| ensures Single(h', PageOf(h', q), HeapPage(q)) {
      assert Single(h, PageOf(h, q), HeapPage(q));
    }
    forall k | 0 <= k < |h'.roots| && h'.roots[k].page != 0 ensures Single(h', h'.roots[k].page, RefPage(k)) {
      assert Single(h, h.roots[k].page, RefPage(k));
    }
  }

  lemma PushFrees(h: Heap, h': Heap, a: int)
    requires Inv(h) && IsBlock(h, a) && Touched(h, h', h.live[a].r)
    requires var pr := h.refs[h.live[a].r];
             && h'.refs[h.live[a].r] == pr.(nfree := pr.nfree + 1, freelist := a - PageAddr(pr))
             && h'.word == FreedWords(h.word, a, SIZES[BlockType(pr)], pr)
    requires h'.free == h.free[h.live[a].r := [h.live[a].i] + h.free[h.live[a].r]]
    ensures Frees(h', h.live[a].r)
  {
    var l := h.live[a];
    Descriptor(h, l.r, NIL);
    PushOwnList(h.refs[l.r], h.word, h.free[l.r], l.i, a);
    FreesAfter(h, h', l.r, a, a + SIZES[TypeOf(h, l.r)]);
  }

  /** Free lists when only page r's list and words of page r differ. */
  lemma FreesAfter(h: Heap, h': Heap, r: int, lo: int, hi: int)
    requires Inv(h) && r in h.all && Touched(h, h', r)
    requires KeptOutside(h.word, h'.word, lo, hi) && PageOf(h, r) <= lo && hi <= PageOf(h, r) + PAGE_SIZE
    requires r in h'.free && FreeOk(h'.refs[r], h'.word, h'.free[r])
    requires forall q :: q in h.free && q != r ==> q in h'.free && h'.free[q] == h.free[q]
    ensures Frees(h', r)
  {
    forall q | q in h'.all && 0 <= q < |h'.refs|
      ensures && q in h'.free && FreeOk(h'.refs[q], h'.word, h'.free[q])
              && (q != r ==> |h'.free[q]| < Blocks(BlockType(h'.refs[q])))
    {
      if q != r { OtherList(h, r, q, h'.word, lo, hi); }
    }
  }

  /** Words of page r change; the list of page q does not. */
  lemma OtherList(h: Heap, r: int, q: int, word': map<int, int>, lo: int, hi: int)
    requires Inv(h) && r in h.all && q in h.all && q != r
    requires KeptOutside(h.word, word', lo, hi) && PageOf(h, r) <= lo && hi <= PageOf(h, r) + PAGE_SIZE
    ensures q in h.free && FreeOk(h.refs[q], word', h.free[q])
  {
    Descriptor(h, r, NIL);
    Descriptor(h, q, NIL);
    assert PageOf(h, q) != PageOf(h, r);
    assert Apart(PageOf(h, q), 1, PageOf(h, r), 1);
    ChainElsewhere(PageOf(h, q), BlockType(h.refs[q]), h.word, word', h.free[q], lo, hi);
  }

  lemma PushLives(h: Heap, h': Heap, a: int)
    requires Inv(h) && IsBlock(h, a) && Touched(h, h', h.live[a].r)
    requires h'.live == h.live - {a} && h'.free == h.free[h.live[a].r := [h.live[a].i] + h.free[h.live[a].r]]
    ensures Lives(h')
  {
    forall c | c in h'.live && h'.live[c].Block? ensures BlockLive(h', c, h'.live[c]) { StillLive(h, h', a, c); }
    forall q, i: nat | NotFree(h', q, i) ensures KnownLive(h', q, i) {
      NotFreed(h, h', a, q, i);
      StillKnown(h, h', a, q, i);
    }
  }

  lemma NotFreed(h: Heap, h': Heap, a: int, q: int, i: nat)
    requires IsBlock(h, a) && Touched(h, h', h.live[a].r) && NotFree(h', q, i) && (q in h.all ==> q in h.free)
    requires h'.free == h.free[h.live[a].r := [h.live[a].i] + h.free[h.live[a].r]]
    ensures NotFree(h, q, i) && !(q == h.live[a].r && i == h.live[a].i)
  {
    var l := h.live[a];
    if q == l.r { assert i !in [l.i] + h.free[l.r]; }
  }

  lemma StillKnown(h: Heap, h': Heap, a: int, q: int, i: nat)
    requires IsBlock(h, a) && Touched(h, h', h.live[a].r) && NotFree(h, q, i) && KnownLive(h, q, i)
    requires h'.live == h.live - {a} && !(q == h.live[a].r && i == h.live[a].i)
    ensures KnownLive(h', q, i)
  {
  }

  lemma StillLive(h: Heap, h': Heap, a: int, c: int)
    requires IsBlock(h, a) && IsBlock(h, c) && a != c && Touched(h, h', h.live[a].r)
    requires h'.live == h.live - {a} && h'.free == h.free[h.live[a].r := [h.live[a].i] + h.free[h.live[a].r]]
    ensures BlockLive(h', c, h'.live[c])
  {
    var l, m := h.live[a], h.live[c];
    if m.r == l.r {
      assert m.i != l.i;
      assert m.i !in [l.i] + h.free[l.r];
    }
  }

  lemma PushKeeps(h: Heap, a: int)
    requires Inv(h) && IsBlock(h, a)
    ensures InvBut(Push(h, a), h.live[a].r)
  {
    var h', r := Push(h, a), h.live[a].r;
    assert Touched(h, h', r);
    TouchedLists(h, h', r, NIL);
    TouchedOwners(h, h', r, NIL);
    PushFrees(h, h', a);
    PushLives(h, h', a);
  }

  // ----------------------------------------------------------- giving a whole page back

  predicate SameBut(pr: Pageref, pr': Pageref) {
    pr'.pab == pr.pab && pr'.freelist == pr.freelist && pr'.nfree == pr.nfree
  }

  /** remove_lists, freepageref and free_kpages for page r. */
  ghost predicate Dropped(h: Heap, h': Heap, r: int) {
    && 0 <= r < |h.refs| && TypeOf(h, r) < NSIZES && |h.same| == NSIZES && |h'.sizebases| == NSIZES
    && r < TOTAL_PAGEREFS && InUse(h.roots, r)
    && |h'.refs| == |h.refs| && (forall q :: 0 <= q < |h.refs| ==> SameBut(h.refs[q], h'.refs[q]))
    && h'.all == Without(h.all, r)
    && h'.same == h.same[TypeOf(h, r) := Without(h.same[TypeOf(h, r)], r)]
    && ListOk(h'.refs, h'.allbase, h'.all, All)
    && (forall b :: 0 <= b < NSIZES ==> ListOk(h'.refs, h'.sizebases[b], h'.same[b], Same))
    && h'.roots == Unreserve(h.roots, r)
    && h'.word == h.word && h'.live == h.live
    && h'.pages == h.pages - {PageOf(h, r)} && h'.owner == h.owner - {PageOf(h, r)} && h'.free == h.free - {r}
  }

  lemma DropOwners(h: Heap, h': Heap, r: int)
    requires InvBut(h, r) && r in h.all && Dropped(h, h', r)
    ensures Owners(h') && PagesApart(h')
  {
    var page := PageOf(h, r);
    Descriptor(h, r, r);
    forall k | 0 <= k < |h.roots| ensures h'.roots[k].page == h.roots[k].page {}
    OwnersWithout(h, h', page);
  }

  /** Owners after one page that has no other use is given up. */
  lemma OwnersWithout(h: Heap, h': Heap, page: int)
    requires Owners(h) && page in h.owner && h'.pages == h.pages - {page} && h'.owner == h.owner - {page}
    requires |h'.refs| == |h.refs| && forall q :: 0 <= q < |h.refs| ==> SameBut(h.refs[q], h'.refs[q])
    requires |h'.roots| == |h.roots| && forall k :: 0 <= k < |h.roots| ==> h'.roots[k].page == h.roots[k].page
    requires forall q :: q in h'.all <==> q in h.all && h.owner[page] != HeapPage(q)
    requires forall k :: 0 <= k < |h.roots| && h.roots[k].page != 0 ==> h.owner[page] != RefPage(k)
    requires forall a :: a in h'.live && h'.live[a].Run? ==> a in h.live && h'.live[a] == h.live[a] && a != page
    requires forall a :: a in h.live && h.live[a].Run? && a != page ==> a in h'.live && h'.live[a] == h.live[a]
    ensures Owners(h')
  {
    forall p | p in h'.owner ensures OwnerTrue(h', p) {
      assert OwnerTrue(h, p);
      if h.owner[p].HeapPage? { assert SameBut(h.refs[h.owner[p].r], h'.refs[h.owner[p].r]); }
    }
    forall q | q in h'.all && 0 <= q < |h'.refs| ensures Single(h', PageOf(h', q), HeapPage(q)) {
      assert Single(h, PageOf(h, q), HeapPage(q)) && SameBut(h.refs[q], h'.refs[q]);
    }
    forall k | 0 <= k < |h'.roots| && h'.roots[k].page != 0 ensures Single(h', h'.roots[k].page, RefPage(k)) {
      assert Single(h, h.roots[k].page, RefPage(k));
    }
  }

  lemma DropLists(h: Heap, h': Heap, r: int)
    requires InvBut(h, r) && r in h.all && Dropped(h, h', r)
    ensures Lists(h') && Roots(h')
  {
    UnreserveGivesOne(h.roots, r);
    forall q | q in h'.all
      ensures 0 <= q < |h'.refs| && BlockType(h'.refs[q]) < NSIZES && q in h'.same[BlockType(h'.refs[q])]
    {
      assert q in h.all && SameBut(h.refs[q], h'.refs[q]);
    }
    forall b, q | 0 <= b < NSIZES && q in h'.same[b] ensures q in h'.all && BlockType(h'.refs[q]) == b {
      assert q in h.same[b] && SameBut(h.refs[q], h'.refs[q]);
    }
  }

  /** No live block is lost: the page had none. */
  lemma DropLives(h: Heap, h': Heap, r: int)
    requires InvBut(h, r) && r in h.all && Dropped(h, h', r) && |h.free[r]| == Blocks(TypeOf(h, r))
    ensures Lives(h')
  {
    Descriptor(h, r, r);
    FullIffAll(h.free[r], Blocks(TypeOf(h, r)));
    forall a | a in h'.live && h'.live[a].Block? ensures BlockLive(h', a, h'.live[a]) {
      var l := h.live[a];
      assert BlockLive(h, a, l);
      assert SameBut(h.refs[l.r], h'.refs[l.r]);
    }
    forall q, i: nat | NotFree(h', q, i) ensures KnownLive(h', q, i) {
      assert SameBut(h.refs[q], h'.refs[q]);
      assert NotFree(h, q, i);
      assert KnownLive(h, q, i);
    }
  }

  lemma DropFrees(h: Heap, h': Heap, r: int)
    requires InvBut(h, r) && r in h.all && Dropped(h, h', r)
    ensures Frees(h', NIL)
  {
    forall q | q in h'.all && 0 <= q < |h'.refs|
      ensures q in h'.free && FreeOk(h'.refs[q], h'.word, h'.free[q]) && |h'.free[q]| < Blocks(BlockType(h'.refs[q]))
    {
      Descriptor(h, q, r);
      FreeOkOf(h.refs[q], h'.refs[q], h.word, h.free[q]);
    }
  }

  lemma DropKeeps(h: Heap, h': Heap, r: int)
    requires InvBut(h, r) && r in h.all && Dropped(h, h', r) && |h.free[r]| == Blocks(TypeOf(h, r))
    ensures Inv(h')
  {
    DropLists(h, h', r);
    DropOwners(h, h', r);
    DropLives(h, h', r);
    DropFrees(h, h', r);
  }

  // -------------------------------------------------------------------- whole pages

  /** kmalloc's page count for a large request, in 32-bit arithmetic. */
  function Npages(sz: int): nat
    requires 0 <= sz < WORD
  {
    (sz + PAGE_SIZE - 1) % WORD / PAGE_SIZE
  }

  /** The pages hold the request exactly when the rounding does not wrap; for the last
      4095 sizes it does, and kmalloc asks for no pages at all. */
  lemma PagesHoldRequestIff(sz: int)
    requires 0 <= sz < WORD
    ensures sz <= Npages(sz) * PAGE_SIZE <==> sz + PAGE_SIZE - 1 < WORD
    ensures sz + PAGE_SIZE - 1 < WORD ==> Npages(sz) * PAGE_SIZE < sz + PAGE_SIZE
    ensures sz + PAGE_SIZE - 1 >= WORD ==> Npages(sz) == 0
    ensures Npages(0xffff_ffff) == 0
  {
  }

  function GetRun(h: Heap, a: int, sz: int, n: nat): Heap {
    h.(pages := h.pages[a := n], owner := h.owner[a := RunPage], live := h.live[a := Run(sz, n)])
  }

  function PutRun(h: Heap, a: int): Heap {
    h.(pages := h.pages - {a}, owner := h.owner - {a}, live := h.live - {a})
  }

  /** A page that is new here is no live pointer. */
  lemma NewIsNotLive(h: Heap, a: int, n: nat)
    requires Inv(h) && NewPages(h, a, n)
    ensures a !in h.live
  {
    if a in h.live {
      var l := h.live[a];
      assert l.Block?;
      assert BlockLive(h, a, l);
      Descriptor(h, l.r, NIL);
      BlockBounds(BlockType(h.refs[l.r]), l.i, 0);
    }
  }

  lemma RunOwners(h: Heap, a: int, sz: int, n: nat)
    requires Owners(h) && NewPages(h, a, n) && a !in h.live
    ensures Owners(GetRun(h, a, sz, n))
  {
    var h' := GetRun(h, a, sz, n);
    forall p | p in h'.owner ensures OwnerTrue(h', p) { if p != a { assert OwnerTrue(h, p); } }
    forall q | q in h'.all && 0 <= q < |h'.refs| ensures Single(h', PageOf(h', q), HeapPage(q)) {
      assert Single(h, PageOf(h, q), HeapPage(q));
    }
    forall k | 0 <= k < |h'.roots| && h'.roots[k].page != 0 ensures Single(h', h'.roots[k].page, RefPage(k)) {
      assert Single(h, h.roots[k].page, RefPage(k));
    }
  }

  /** Blocks are live as before when only runs come or go. */
  lemma RunLives(h: Heap, h': Heap, a: int)
    requires Inv(h) && h'.refs == h.refs && h'.all == h.all && h'.free == h.free
    requires a in h.live ==> h.live[a].Run?
    requires forall c :: c != a ==> (c in h'.live <==> c in h.live) && (c in h.live ==> h'.live[c] == h.live[c])
    requires a in h'.live ==> h'.live[a].Run? && h'.live[a].sz <= h'.live[a].npages * PAGE_SIZE
    ensures Lives(h')
  {
    forall c | c in h'.live && h'.live[c].Block?
      ensures BlockLive(h', c, h'.live[c])
    {
      assert BlockLive(h, c, h.live[c]);
    }
    forall q, i: nat | NotFree(h', q, i) ensures KnownLive(h', q, i) {
      assert NotFree(h, q, i);
      assert KnownLive(h, q, i);
    }
  }

  lemma GetRunKeeps(h: Heap, a: int, sz: int, n: nat)
    requires Inv(h) && NewPages(h, a, n) && sz <= n * PAGE_SIZE
    ensures Inv(GetRun(h, a, sz, n)) && a !in h.live
  {
    NewIsNotLive(h, a, n);
    RunOwners(h, a, sz, n);
    ApartAfter(h, GetRun(h, a, sz, n), a, n);
    RunLives(h, GetRun(h, a, sz, n), a);
  }

  lemma PutRunKeeps(h: Heap, a: int)
    requires Inv(h) && a in h.live && h.live[a].Run?
    ensures Inv(PutRun(h, a)) && a in h.pages
  {
    var h' := PutRun(h, a);
    PutRunOwners(h, a);
    RunLives(h, h', a);
  }

  lemma PutRunOwners(h: Heap, a: int)
    requires Owners(h) && a in h.live && h.live[a].Run?
    ensures Owners(PutRun(h, a)) && a in h.pages
  {
    var h' := PutRun(h, a);
    forall q | 0 <= q < |h.refs| ensures SameBut(h.refs[q], h'.refs[q]) {}
    OwnersWithout(h, h', a);
  }

  // -------------------------------------------------------------------- client stores

  /** The bytes a live pointer may use. */
  function Extent(h: Heap, a: int): int
    requires a in h.live && (h.live[a].Block? ==> IsBlock(h, a))
  {
    match h.live[a]
    case Block(_, r, _) => SIZES[BlockType(h.refs[r])]
    case Run(_, n) => n * PAGE_SIZE
  }

  /** A live pointer's bytes lie in one allocation of pages; for a block, its own page. */
  lemma WhereLive(h: Heap, a: int)
    requires Inv(h) && a in h.live
    ensures h.live[a].Block? ==> IsBlock(h, a) && h.live[a].r in h.all
    ensures h.live[a].Block? ==>
              (var page := PageOf(h, h.live[a].r);
               page in h.pages && h.pages[page] == 1 && page <= a && a + Extent(h, a) <= page + PAGE_SIZE)
    ensures h.live[a].Run? ==> a in h.pages && h.pages[a] == h.live[a].npages
    ensures h.live[a].sz <= Extent(h, a)
  {
    var l := h.live[a];
    if l.Block? {
      assert BlockLive(h, a, l);
      Descriptor(h, l.r, NIL);
      BlockBounds(BlockType(h.refs[l.r]), l.i, 0);
    }
  }

  /** The base of the pages a live pointer lies in. */
  function Base(h: Heap, a: int): int
    requires a in h.live && (h.live[a].Block? ==> IsBlock(h, a))
  {
    if h.live[a].Block? then PageOf(h, h.live[a].r) else a
  }

  lemma BaseOwner(h: Heap, a: int)
    requires Inv(h) && a in h.live && (h.live[a].Block? ==> IsBlock(h, a))
    ensures Base(h, a) in h.owner
    ensures h.owner[Base(h, a)] == if h.live[a].Block? then HeapPage(h.live[a].r) else RunPage
  {
    if h.live[a].Block? { Descriptor(h, h.live[a].r, NIL); }
  }

  /** Two live pointers never share a byte. */
  lemma LiveApart(h: Heap, a: int, c: int)
    requires Inv(h) && a in h.live && c in h.live && a != c
    requires (h.live[a].Block? ==> IsBlock(h, a)) && (h.live[c].Block? ==> IsBlock(h, c))
    ensures a + Extent(h, a) <= c || c + Extent(h, c) <= a
  {
    WhereLive(h, a);
    WhereLive(h, c);
    var p, q := Base(h, a), Base(h, c);
    if p != q {
      assert Apart(p, h.pages[p], q, h.pages[q]);
    } else {
      BaseOwner(h, a);
      BaseOwner(h, c);
      BlocksApart(h, a, c);
    }
  }

  lemma BlocksApart(h: Heap, a: int, c: int)
    requires IsBlock(h, a) && IsBlock(h, c) && a != c && h.live[a].r == h.live[c].r
    ensures a + Extent(h, a) <= c || c + Extent(h, c) <= a
  {
    BlockBounds(BlockType(h.refs[h.live[a].r]), h.live[a].i, h.live[c].i);
  }

  function Store(h: Heap, x: int, w: int): Heap { h.(word := h.word[x := w]) }

  /** A client that writes within what it was given cannot disturb any free list. */
  lemma StoreKeeps(h: Heap, a: int, x: int, w: int)
    requires Inv(h) && a in h.live && (h.live[a].Block? ==> IsBlock(h, a)) && a <= x < a + Extent(h, a)
    ensures Inv(Store(h, x, w))
  {
    var h' := Store(h, x, w);
    LivesKept(h, h', NIL);
    forall p | p in h'.owner ensures OwnerTrue(h', p) { assert OwnerTrue(h, p); }
    forall q | q in h'.all && 0 <= q < |h'.refs| ensures Single(h', PageOf(h', q), HeapPage(q)) {
      assert Single(h, PageOf(h, q), HeapPage(q));
    }
    forall k | 0 <= k < |h'.roots| && h'.roots[k].page != 0 ensures Single(h', h'.roots[k].page, RefPage(k)) {
      assert Single(h, h.roots[k].page, RefPage(k));
    }
    forall q | q in h'.all && 0 <= q < |h'.refs|
      ensures q in h'.free && FreeOk(h'.refs[q], h'.word, h'.free[q]) && |h'.free[q]| < Blocks(BlockType(h'.refs[q]))
    {
      StoreMissesFree(h, a, x, w, q);
    }
  }

  lemma StoreMissesFree(h: Heap, a: int, x: int, w: int, q: int)
    requires Inv(h) && a in h.live && (h.live[a].Block? ==> IsBlock(h, a)) && a <= x < a + Extent(h, a) && q in h.all
    ensures q in h.free && FreeOk(h.refs[q], h.word[x := w], h.free[q])
  {
    Descriptor(h, q, NIL);
    var page, b := PageOf(h, q), BlockType(h.refs[q]);
    forall k | 0 <= k < |h.free[q]|
      ensures BlockAt(page, b, h.free[q][k]) != x
    {
      NotAFreeBlock(h, a, x, q, h.free[q][k]);
    }
    assert KeptOutside(h.word, h.word[x := w], x, x + 1);
    ChainKept(page, b, h.word, h.word[x := w], h.free[q], x, x + 1);
  }

  lemma NotAFreeBlock(h: Heap, a: int, x: int, q: int, i: nat)
    requires Inv(h) && a in h.live && (h.live[a].Block? ==> IsBlock(h, a)) && a <= x < a + Extent(h, a)
    requires q in h.all && q in h.free && i in h.free[q] && i < Blocks(BlockType(h.refs[q]))
    ensures BlockAt(PageOf(h, q), BlockType(h.refs[q]), i) != x
  {
    WhereLive(h, a);
    Descriptor(h, q, NIL);
    BlockBounds(BlockType(h.refs[q]), i, 0);
    var page, at := PageOf(h, q), BlockAt(PageOf(h, q), BlockType(h.refs[q]), i);
    if at == x {
      var p := if h.live[a].Block? then PageOf(h, h.live[a].r) else a;
      OnePage(h, p, page, x);
      assert h.live[a].Block? && h.live[a].r == q by {
        if h.live[a].Block? { Descriptor(h, h.live[a].r, NIL); }
      }
      BlockBounds(BlockType(h.refs[q]), i, h.live[a].i);
      assert false;
    }
  }

  // ------------------------------------------------------------------------ whole runs

  /** The steps of kmalloc, kfree and their clients, each done under the heap's lock:
      a block from a page that has one, or from a fresh page; a page for descriptors;
      freeing a block; whole pages got and freed; a client's store. */
  datatype Event =
    | TakeBlock(r: int, sz: int)
    | FreshBlock(r: int, b: int, page: int, sz: int)
    | RootPage(k: int, va: int)
    | FreeBlock(a: int)
    | TakeRun(a: int, sz: int)
    | FreeRun(a: int)
    | ClientStore(a: int, x: int, w: int)

  /** A block freed: the page goes back exactly when it was the page's last live one. */
  ghost predicate Freed(h: Heap, a: int, h': Heap)
    requires IsBlock(h, a)
  {
    var m, r := Push(h, a), h.live[a].r;
    if |m.free[r]| == Blocks(TypeOf(h, r)) then Dropped(m, h', r) else h' == m
  }

  ghost predicate Step(h: Heap, ev: Event, h': Heap) {
    match ev
    case TakeBlock(r, sz) => CanTake(h, r, sz) && h' == Take(h, r, sz)
    case FreshBlock(r, b, page, sz) =>
      && CanAdd(h, r, b, page) && CanTake(AddPage(h, r, b, page), r, sz)
      && h' == Take(AddPage(h, r, b, page), r, sz)
    case RootPage(k, va) => CanAddRoot(h, k, va) && h' == AddRoot(h, k, va)
    case FreeBlock(a) => IsBlock(h, a) && Freed(h, a, h')
    case TakeRun(a, sz) =>
      0 <= sz && sz + PAGE_SIZE - 1 < WORD && NewPages(h, a, Npages(sz)) && h' == GetRun(h, a, sz, Npages(sz))
    case FreeRun(a) => a in h.live && h.live[a].Run? && h' == PutRun(h, a)
    case ClientStore(a, x, w) =>
      a in h.live && (h.live[a].Block? ==> IsBlock(h, a)) && a <= x < a + Extent(h, a) && h' == Store(h, x, w)
  }

  lemma FreedKeepsInv(h: Heap, a: int, h': Heap)
    requires Inv(h) && IsBlock(h, a) && Freed(h, a, h')
    ensures Inv(h')
  {
    var m, r := Push(h, a), h.live[a].r;
    PushKeeps(h, a);
    if |m.free[r]| == Blocks(TypeOf(h, r)) {
      DropKeeps(m, h', r);
    } else {
      FullNone(m, r);
    }
  }

  /** A page that is not all free needs no exception. */
  lemma FullNone(m: Heap, r: int)
    requires InvBut(m, r) && r in m.all && |m.free[r]| != Blocks(TypeOf(m, r))
    ensures Inv(m)
  {
    Descriptor(m, r, r);
    FullIffAll(m.free[r], Blocks(TypeOf(m, r)));
    forall q | q in m.all && 0 <= q < |m.refs|
      ensures q in m.free && FreeOk(m.refs[q], m.word, m.free[q]) && |m.free[q]| < Blocks(BlockType(m.refs[q]))
    {
      assert q in m.free && FreeOk(m.refs[q], m.word, m.free[q]);
    }
  }

  lemma StepKeepsInv(h: Heap, ev: Event, h': Heap)
    requires Inv(h) && Step(h, ev, h')
    ensures Inv(h')
  {
    match ev
    case TakeBlock(r, sz) => TakeKeeps(h, r, sz, NIL);
    case FreshBlock(r, b, page, sz) =>
      AddPageKeeps(h, r, b, page);
      TakeKeeps(AddPage(h, r, b, page), r, sz, r);
    case RootPage(k, va) => AddRootKeeps(h, k, va);
    case FreeBlock(a) => FreedKeepsInv(h, a, h');
    case TakeRun(a, sz) =>
      PagesHoldRequestIff(sz);
      GetRunKeeps(h, a, sz, Npages(sz));
    case FreeRun(a) => PutRunKeeps(h, a);
    case ClientStore(a, x, w) => StoreKeeps(h, a, x, w);
  }

  /** kmalloc's variables before the first call. */
  function BootRoots(): (roots: seq<Root>)
    ensures |roots| == NUM_PAGEREFPAGES && forall k :: 0 <= k < NUM_PAGEREFPAGES ==> roots[k] == Root(0, NoBits(), 0)
  {
    seq(NUM_PAGEREFPAGES, _ => Root(0, NoBits(), 0))
  }

  function ZeroWord(): (w: seq<bool>)
    ensures |w| == 32 && forall j :: 0 <= j < 32 ==> !w[j]
  {
    seq(32, _ => false)
  }

  function NoBits(): (ws: seq<seq<bool>>)
    ensures Words(ws) && forall i :: 0 <= i < NPAGEREFS_PER_PAGE ==> !Used(ws, i)
  {
    seq(INUSE_WORDS, _ => ZeroWord())
  }

  function BootRefs(): (refs: seq<Pageref>)
    ensures |refs| == TOTAL_PAGEREFS
  {
    seq(TOTAL_PAGEREFS, _ => Pageref(NIL, NIL, 0, 0, 0))
  }

  function BootHeap(): Heap {
    Heap(BootRoots(), BootRefs(), [NIL, NIL, NIL, NIL, NIL, NIL, NIL, NIL], NIL, map[], map[],
         [], [[], [], [], [], [], [], [], []], map[], map[], map[])
  }

  lemma BootInv()
    ensures Inv(BootHeap())
  {
    var h := BootHeap();
    CountZero(NoBits(), NPAGEREFS_PER_PAGE);
    forall k | 0 <= k < |h.roots| ensures RootOk(h.roots[k]) { assert h.roots[k] == Root(0, NoBits(), 0); }
    forall q ensures !InUse(h.roots, q) {}
  }

  ghost predicate IsRun(states: seq<Heap>, events: seq<Event>) {
    && |states| == |events| + 1 && states[0] == BootHeap()
    && forall k :: 0 <= k < |events| ==> Step(states[k], events[k], states[k + 1])
  }

  /** The k-th state of any run. */
  lemma {:induction false} RunsKeepInv(states: seq<Heap>, events: seq<Event>, k: nat)
    requires IsRun(states, events) && k < |states|
    ensures Inv(states[k])
  {
    if k == 0 {
      BootInv();
    } else {
      RunsKeepInv(states, events, k - 1);
      StepKeepsInv(states[k - 1], events[k - 1], states[k]);
    }
  }

  /** After any run: a live pointer has at least the bytes asked for, shares none with
      another, and every block of a heap page is either live or free, never both. */
  lemma HeapSafety(states: seq<Heap>, events: seq<Event>, k: nat, a: int, c: int, r: int, i: nat)
    requires IsRun(states, events) && k < |states|
    ensures var h := states[k];
            && (a in h.live ==> (h.live[a].Block? ==> IsBlock(h, a)) && h.live[a].sz <= Extent(h, a))
            && (a in h.live && c in h.live && a != c ==>
                  && (h.live[c].Block? ==> IsBlock(h, c))
                  && (a + Extent(h, a) <= c || c + Extent(h, c) <= a))
            && (r in h.all ==> 0 <= r < |h.refs| && r in h.free && FreeOk(h.refs[r], h.word, h.free[r]))
            && (r in h.all && i < Blocks(BlockType(h.refs[r])) ==>
                  (i in h.free[r] <==> BlockAt(PageOf(h, r), BlockType(h.refs[r]), i) !in h.live))
  {
    var h := states[k];
    RunsKeepInv(states, events, k);
    SafetyOf(h, a, c);
    if r in h.all {
      Descriptor(h, r, NIL);
      if i < Blocks(BlockType(h.refs[r])) { LiveXorFree(h, r, i); }
    }
  }

  lemma SafetyOf(h: Heap, a: int, c: int)
    requires Inv(h)
    ensures a in h.live ==> (h.live[a].Block? ==> IsBlock(h, a)) && h.live[a].sz <= Extent(h, a)
    ensures a in h.live && c in h.live && a != c ==>
              (h.live[c].Block? ==> IsBlock(h, c)) && (a + Extent(h, a) <= c || c + Extent(h, c) <= a)
  {
    if a in h.live { WhereLive(h, a); }
    if c in h.live { WhereLive(h, c); }
    if a in h.live && c in h.live && a != c { LiveApart(h, a, c); }
  }

  lemma LiveXorFree(h: Heap, r: int, i: nat)
    requires Inv(h) && r in h.all && i < Blocks(BlockType(h.refs[r]))
    ensures i in h.free[r] <==> BlockAt(PageOf(h, r), BlockType(h.refs[r]), i) !in h.live
  {
    if i in h.free[r] {
      FreeIsNotLive(h, r, i, NIL);
    } else {
      assert NotFree(h, r, i);
      assert KnownLive(h, r, i);
    }
  }

  /** Another block of a's page is live. */
  ghost predicate OtherLive(h: Heap, a: int)
    requires IsBlock(h, a)
  {
    exists c :: c != a && IsBlock(h, c) && h.live[c].r == h.live[a].r
  }

  /** A heap page goes back to the page allocator exactly when its last live block is
      freed: freeing a keeps the page if and only if another block of it is live. */
  lemma PageKeptIff(h: Heap, a: int, h': Heap)
    requires Inv(h) && IsBlock(h, a) && Freed(h, a, h')
    ensures var r := h.live[a].r;
            && (PageOf(h, r) in h'.pages <==> OtherLive(h, a))
            && (r in h'.all <==> PageOf(h, r) in h'.pages)
            && (r in h'.all <==> InUse(h'.roots, r))
  {
    var r, i, b := h.live[a].r, h.live[a].i, TypeOf(h, h.live[a].r);
    var m := Push(h, a);
    PushKeeps(h, a);
    Descriptor(h, r, NIL);
    FreedKeepsInv(h, a, h');
    FullIffAll(h.free[r], Blocks(b));
    PushFull(h, a);
    if |m.free[r]| != Blocks(b) {
      assert PageOf(h, r) in h'.pages && r in h'.all;
    } else {
      assert r !in h'.all && PageOf(h, r) !in h'.pages;
    }
  }

  /** Freeing a fills its page exactly when no other block of the page is live. */
  lemma PushFull(h: Heap, a: int)
    requires Inv(h) && IsBlock(h, a)
    ensures |Push(h, a).free[h.live[a].r]| == Blocks(TypeOf(h, h.live[a].r)) <==> !OtherLive(h, a)
  {
    var r, i := h.live[a].r, h.live[a].i;
    Descriptor(h, r, NIL);
    FullButOne(h.free[r], i, Blocks(TypeOf(h, r)));
    if OtherLive(h, a) {
      var c :| c != a && IsBlock(h, c) && h.live[c].r == r;
      assert h.live[c].i != i && h.live[c].i !in h.free[r];
    } else {
      forall j: nat | j < Blocks(TypeOf(h, r)) ensures j == i || j in h.free[r] { OnlyOneLive(h, a, j); }
    }
  }

  lemma FullButOne(free: seq<nat>, i: nat, n: nat)
    requires Distinct(free, n) && i < n && i !in free
    ensures |[i] + free| == n <==> forall j: nat :: j < n ==> j == i || j in free
  {
    var free' := [i] + free;
    assert forall j: nat :: j in free' <==> j == i || j in free;
    FullIffAll(free', n);
  }

  lemma OnlyOneLive(h: Heap, a: int, j: nat)
    requires Inv(h) && IsBlock(h, a) && j < Blocks(TypeOf(h, h.live[a].r)) && !OtherLive(h, a)
    ensures j == h.live[a].i || j in h.free[h.live[a].r]
  {
    var r := h.live[a].r;
    if j !in h.free[r] {
      assert NotFree(h, r, j);
      var c := BlockAt(PageOf(h, r), BlockType(h.refs[r]), j);
      assert KnownLive(h, r, j);
      assert IsBlock(h, c);
    }
  }
}
