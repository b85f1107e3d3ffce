/** The kernel heap as a whole: what is allocated, what is free, and who owns each page.

    Source: kern/vm/kmalloc.c (subpage_kmalloc, subpage_kfree, kmalloc, kfree). */
module HeapState {
  import opened Common
  import opened HeapDescriptors
  import opened HeapLists

  /** What a live pointer stands for: a block of a heap page, or a run of whole pages;
      sz is what was asked for. */
  datatype Live = Block(sz: int, r: int, i: nat) | Run(sz: int, npages: nat)

  /** What a page got from alloc_kpages is used for. */
  datatype Owner = HeapPage(r: int) | RefPage(root: int) | RunPage

  /** The variables of kmalloc.c; the memory words it uses; the pages it has from
      alloc_kpages; and, to say what those mean: the two lists of descriptors, each
      page's list of free blocks, what is live, and the use of each page. */
  datatype Heap = Heap(
    roots: seq<Root>, refs: seq<Pageref>, sizebases: seq<int>, allbase: int,
    word: map<int, int>, pages: map<int, nat>,
    all: seq<int>, same: seq<seq<int>>, free: map<int, seq<nat>>, live: map<int, Live>, owner: map<int, Owner>)

  ghost predicate Lists(h: Heap) {
    && |h.refs| == TOTAL_PAGEREFS && |h.sizebases| == NSIZES && |h.same| == NSIZES
    && ListOk(h.refs, h.allbase, h.all, All)
    && (forall b :: 0 <= b < NSIZES ==> ListOk(h.refs, h.sizebases[b], h.same[b], Same))
    && (forall r :: r in h.all ==>
          0 <= r < |h.refs| && BlockType(h.refs[r]) < NSIZES && r in h.same[BlockType(h.refs[r])])
    && (forall b, r :: 0 <= b < NSIZES && r in h.same[b] ==> r in h.all && BlockType(h.refs[r]) == b)
  }

  ghost predicate Roots(h: Heap) { RootsOk(h.roots) && forall q :: InUse(h.roots, q) <==> q in h.all }

  function PageOf(h: Heap, r: int): int
    requires 0 <= r < |h.refs|
  {
    PageAddr(h.refs[r])
  }

  predicate Single(h: Heap, p: int, o: Owner) { p in h.owner && h.owner[p] == o && p in h.pages && h.pages[p] == 1 }

  predicate OwnerTrue(h: Heap, p: int)
    requires p in h.owner
  {
    match h.owner[p]
    case HeapPage(r) => r in h.all && 0 <= r < |h.refs| && PageOf(h, r) == p
    case RefPage(k) => 0 <= k < |h.roots| && h.roots[k].page == p
    case RunPage => p in h.live && h.live[p].Run?
  }

  predicate PageShape(p: int, n: nat) { p > 0 && p % PAGE_SIZE == 0 && n >= 1 }

  predicate Apart(p: int, n: nat, q: int, m: nat) { p + n * PAGE_SIZE <= q || q + m * PAGE_SIZE <= p }

  ghost predicate PagesApart(h: Heap) {
    && (forall p :: p in h.pages ==> PageShape(p, h.pages[p]))
    && (forall p, q :: p in h.pages && q in h.pages && p != q ==> Apart(p, h.pages[p], q, h.pages[q]))
  }

  /** Every page has one use, and every use has its page. */
  ghost predicate Owners(h: Heap) {
    && h.pages.Keys == h.owner.Keys
    && (forall p :: p in h.owner ==> OwnerTrue(h, p))
    && (forall r :: r in h.all && 0 <= r < |h.refs| ==> Single(h, PageOf(h, r), HeapPage(r)))
    && (forall k :: 0 <= k < |h.roots| && h.roots[k].page != 0 ==> Single(h, h.roots[k].page, RefPage(k)))
    && (forall a :: a in h.live && h.live[a].Run? ==>
          a in h.pages && a in h.owner && h.owner[a] == RunPage && h.pages[a] == h.live[a].npages)
  }

  /** The free lists; a page all of whose blocks are free is kept only in passing, as x. */
  ghost predicate Frees(h: Heap, x: int) {
    forall r :: r in h.all && 0 <= r < |h.refs| ==>
      && r in h.free && FreeOk(h.refs[r], h.word, h.free[r])
      && (r != x ==> |h.free[r]| < Blocks(BlockType(h.refs[r])))
  }

  predicate BlockLive(h: Heap, a: int, l: Live)
    requires l.Block?
  {
    && l.r in h.all && 0 <= l.r < |h.refs| && l.r in h.free && BlockType(h.refs[l.r]) < NSIZES
    && (var b := BlockType(h.refs[l.r]);
        && l.i < Blocks(b) && l.i !in h.free[l.r]
        && a == BlockAt(PageOf(h, l.r), b, l.i) && l.sz <= SIZES[b])
  }

  /** Block i of page r is live, and known as such. */
  predicate KnownLive(h: Heap, r: int, i: nat)
    requires 0 <= r < |h.refs| && BlockType(h.refs[r]) < NSIZES
  {
    var a := BlockAt(PageOf(h, r), BlockType(h.refs[r]), i);
    a in h.live && h.live[a].Block? && h.live[a].r == r && h.live[a].i == i
  }

  /** Block i of page r is on no free list. */
  predicate NotFree(h: Heap, r: int, i: nat) {
    && r in h.all && 0 <= r < |h.refs| && r in h.free && BlockType(h.refs[r]) < NSIZES
    && i < Blocks(BlockType(h.refs[r])) && i !in h.free[r]
  }

  /** Live pointers are exactly the blocks that are on no free list, and the runs. */
  ghost predicate Lives(h: Heap) {
    && (forall a :: a in h.live && h.live[a].Block? ==> BlockLive(h, a, h.live[a]))
    && (forall a :: a in h.live && h.live[a].Run? ==> h.live[a].sz <= h.live[a].npages * PAGE_SIZE)
    && (forall r, i: nat :: NotFree(h, r, i) ==> KnownLive(h, r, i))
  }

  /** The invariant, but for page x, which may be all free. */
  ghost predicate InvBut(h: Heap, x: int) {
    Lists(h) && Roots(h) && PagesApart(h) && Owners(h) && Frees(h, x) && Lives(h)
  }

  ghost predicate Inv(h: Heap) { InvBut(h, NIL) }

  // --------------------------------------------------------------------- taking a block

  /** doalloc: the descriptor after its first free block is taken. */
  function PopRef(pr: Pageref, word: map<int, int>): Pageref {
    var a := PageAddr(pr) + pr.freelist;
    if a !in word then pr
    else pr.(nfree := pr.nfree - 1, freelist := if word[a] == 0 then INVALID_OFFSET else word[a] - PageAddr(pr))
  }

  predicate CanTake(h: Heap, r: int, sz: int) {
    && r in h.all && 0 <= r < |h.refs| && r in h.free && h.free[r] != [] && BlockType(h.refs[r]) < NSIZES
    && sz <= SIZES[BlockType(h.refs[r])]
  }

  /** The pointer the next block of page r gives. */
  function TakenAt(h: Heap, r: int): int
    requires 0 <= r < |h.refs|
  {
    PageOf(h, r) + h.refs[r].freelist
  }

  function Take(h: Heap, r: int, sz: int): Heap
    requires CanTake(h, r, sz)
  {
    h.(refs := h.refs[r := PopRef(h.refs[r], h.word)],
       free := h.free[r := h.free[r][1..]],
       live := h.live[TakenAt(h, r) := Block(sz, r, h.free[r][0])])
  }

  lemma InTail(s: seq<nat>, i: nat)
    requires s != []
    ensures i in s <==> i == s[0] || i in s[1..]
  {
    assert s == [s[0]] + s[1..];
  }

  /** What a descriptor on the list of all pages is known to satisfy. */
  lemma Descriptor(h: Heap, r: int, x: int)
    requires InvBut(h, x) && r in h.all
    ensures 0 <= r < |h.refs| && r in h.free && FreeOk(h.refs[r], h.word, h.free[r])
    ensures PageOf(h, r) > 0 && PageOf(h, r) % PAGE_SIZE == 0 && Single(h, PageOf(h, r), HeapPage(r))
  {
    assert Single(h, PageOf(h, r), HeapPage(r));
    assert PageShape(PageOf(h, r), 1);
  }

  /** A descriptor whose first free block is taken. */
  lemma PopFacts(pr: Pageref, word: map<int, int>, free: seq<nat>)
    requires FreeOk(pr, word, free) && free != [] && PageAddr(pr) > 0
    ensures var b, page := BlockType(pr), PageAddr(pr);
            && FreeChain(page, b, word, free[1..]) && free[0] !in free[1..] && free[0] < Blocks(b)
            && page + pr.freelist == BlockAt(page, b, free[0])
            && PopRef(pr, word) == pr.(nfree := |free| - 1, freelist := FreeHead(b, free[1..]))
  {
    var b, page := BlockType(pr), PageAddr(pr);
    ChainPop(page, b, word, free);
    assert page + pr.freelist == page + FreeHead(b, free);
  }

  lemma PopFreeOk(pr: Pageref, word: map<int, int>, free: seq<nat>)
    requires FreeOk(pr, word, free) && free != [] && PageAddr(pr) > 0
    ensures FreeOk(PopRef(pr, word), word, free[1..])
  {
    PopFacts(pr, word, free);
  }

  /** What taking a block from page r changes, and where the block is. */
  lemma TakeFacts(h: Heap, r: int, sz: int, x: int)
    requires InvBut(h, x) && CanTake(h, r, sz)
    ensures var b, page, free := BlockType(h.refs[r]), PageOf(h, r), h.free[r];
            && FreeOk(PopRef(h.refs[r], h.word), h.word, free[1..]) && free[0] !in free[1..] && free[0] < Blocks(b)
            && TakenAt(h, r) == BlockAt(page, b, free[0])
            && PopRef(h.refs[r], h.word) == h.refs[r].(nfree := |free| - 1, freelist := FreeHead(b, free[1..]))
            && |free| <= Blocks(b)
  {
    Descriptor(h, r, x);
    PopFacts(h.refs[r], h.word, h.free[r]);
    PopFreeOk(h.refs[r], h.word, h.free[r]);
    FullIffAll(h.free[r], Blocks(BlockType(h.refs[r])));
  }

  lemma TakeLists(h: Heap, r: int, sz: int, x: int)
    requires InvBut(h, x) && CanTake(h, r, sz) && (x == r || x == NIL)
    ensures Lists(Take(h, r, sz)) && Roots(Take(h, r, sz))
  {
    TakeFacts(h, r, sz, x);
    ListsTouched(h, Take(h, r, sz));
  }

  /** The lists see only the next fields and block types of descriptors. */
  lemma ListsTouched(h: Heap, h': Heap)
    requires Lists(h) && |h'.refs| == |h.refs| && h'.all == h.all && h'.same == h.same
    requires h'.sizebases == h.sizebases && h'.allbase == h.allbase
    requires forall q :: 0 <= q < |h.refs| ==> SameLinks(h.refs[q], h'.refs[q])
    ensures Lists(h')
  {
    ChainTouched(h, h', h.allbase, h.all, All);
    forall b | 0 <= b < NSIZES ensures ListOk(h'.refs, h'.sizebases[b], h'.same[b], Same) {
      ChainTouched(h, h', h.sizebases[b], h.same[b], Same);
    }
    forall r | r in h'.all
      ensures 0 <= r < |h'.refs| && BlockType(h'.refs[r]) < NSIZES && r in h'.same[BlockType(h'.refs[r])]
    {
      assert SameLinks(h.refs[r], h'.refs[r]);
    }
    forall b, r | 0 <= b < NSIZES && r in h'.same[b] ensures r in h'.all && BlockType(h'.refs[r]) == b {
      assert SameLinks(h.refs[r], h'.refs[r]);
    }
  }

  lemma ChainTouched(h: Heap, h': Heap, head: int, ids: seq<int>, chain: Chain)
    requires ListOk(h.refs, head, ids, chain) && |h'.refs| == |h.refs|
    requires forall q :: 0 <= q < |h.refs| ==> SameLinks(h.refs[q], h'.refs[q])
    ensures ListOk(h'.refs, head, ids, chain)
  {
    forall r | r in ids && 0 <= r < |h.refs| ensures Next(h'.refs, r, chain) == Next(h.refs, r, chain) {
      assert SameLinks(h.refs[r], h'.refs[r]);
    }
    ListKept(h.refs, h'.refs, head, ids, chain);
  }

  predicate SameLinks(pr: Pageref, pr': Pageref) {
    pr'.pab == pr.pab && pr'.nextSame == pr.nextSame && pr'.nextAll == pr.nextAll
  }

  lemma TakeFrees(h: Heap, r: int, sz: int, x: int)
    requires InvBut(h, x) && CanTake(h, r, sz) && (x == r || x == NIL)
    ensures Frees(Take(h, r, sz), NIL)
  {
    var h' := Take(h, r, sz);
    TakeFacts(h, r, sz, x);
    forall q | q in h'.all && 0 <= q < |h'.refs|
      ensures q in h'.free && FreeOk(h'.refs[q], h'.word, h'.free[q]) && |h'.free[q]| < Blocks(BlockType(h'.refs[q]))
    {
      assert q in h.free && FreeOk(h.refs[q], h.word, h.free[q]);
    }
  }

  /** The pointer was not live before: its block was free, and its page is a heap page. */
  lemma FreeIsNotLive(h: Heap, r: int, i: nat, x: int)
    requires InvBut(h, x) && r in h.all && i in h.free[r] && i < Blocks(BlockType(h.refs[r]))
    ensures BlockAt(PageOf(h, r), BlockType(h.refs[r]), i) !in h.live
  {
    var a := BlockAt(PageOf(h, r), BlockType(h.refs[r]), i);
    if a in h.live { HeldBy(h, r, i, a, x); }
  }

  /** An address lies in one allocation of pages only. */
  lemma OnePage(h: Heap, p: int, q: int, a: int)
    requires PagesApart(h) && p in h.pages && q in h.pages
    requires p <= a < p + h.pages[p] * PAGE_SIZE && q <= a < q + h.pages[q] * PAGE_SIZE
    ensures p == q
  {
    assert p != q ==> Apart(p, h.pages[p], q, h.pages[q]);
  }

  /** An address in a heap page that is live is a block of that page, and not a free one. */
  lemma HeldBy(h: Heap, r: int, i: nat, a: int, x: int)
    requires InvBut(h, x) && r in h.all && i < Blocks(BlockType(h.refs[r])) && a in h.live
    requires a == BlockAt(PageOf(h, r), BlockType(h.refs[r]), i)
    ensures h.live[a].Block? && h.live[a].r == r && h.live[a].i == i && i !in h.free[r]
  {
    var b, page := BlockType(h.refs[r]), PageOf(h, r);
    Descriptor(h, r, x);
    BlockBounds(b, i, 0);
    var l := h.live[a];
    if l.Run? {
      OnePage(h, page, a, a);
    } else {
      assert BlockLive(h, a, l);
      Descriptor(h, l.r, x);
      BlockBounds(BlockType(h.refs[l.r]), l.i, 0);
      OnePage(h, page, PageOf(h, l.r), a);
      BlocksDiffer(page, b, i, l.i);
    }
  }

  lemma TakeLives(h: Heap, r: int, sz: int, x: int)
    requires InvBut(h, x) && CanTake(h, r, sz) && (x == r || x == NIL)
    ensures Lives(Take(h, r, sz)) && TakenAt(h, r) !in h.live
  {
    var h' := Take(h, r, sz);
    TakeFacts(h, r, sz, x);
    FreeIsNotLive(h, r, h.free[r][0], x);
    assert TakenAt(h, r) !in h.live;
    forall a | a in h'.live && h'.live[a].Block? ensures BlockLive(h', a, h'.live[a]) { TakeStillLive(h, r, sz, x, a); }
    forall q, i: nat | NotFree(h', q, i) ensures KnownLive(h', q, i) { TakeStillKnown(h, r, sz, x, q, i); }
  }

  lemma TakeStillLive(h: Heap, r: int, sz: int, x: int, a: int)
    requires InvBut(h, x) && CanTake(h, r, sz)
    requires a in Take(h, r, sz).live && Take(h, r, sz).live[a].Block?
    ensures BlockLive(Take(h, r, sz), a, Take(h, r, sz).live[a])
  {
    TakeFacts(h, r, sz, x);
    if a != TakenAt(h, r) {
      assert BlockLive(h, a, h.live[a]);
      InTail(h.free[r], h.live[a].i);
    }
  }

  lemma TakeStillKnown(h: Heap, r: int, sz: int, x: int, q: int, i: nat)
    requires InvBut(h, x) && CanTake(h, r, sz) && NotFree(Take(h, r, sz), q, i) && TakenAt(h, r) !in h.live
    ensures KnownLive(Take(h, r, sz), q, i)
  {
    TakeFacts(h, r, sz, x);
    InTail(h.free[r], i);
    if q == r && i == h.free[r][0] {
      NewKnown(h, r, sz);
    } else {
      assert NotFree(h, q, i);
      OldKnown(h, r, sz, q, i);
    }
  }

  lemma NewKnown(h: Heap, r: int, sz: int)
    requires CanTake(h, r, sz) && PopRef(h.refs[r], h.word).pab == h.refs[r].pab
    requires TakenAt(h, r) == BlockAt(PageOf(h, r), BlockType(h.refs[r]), h.free[r][0])
    ensures KnownLive(Take(h, r, sz), r, h.free[r][0])
  {
    assert Take(h, r, sz).refs[r].pab == h.refs[r].pab;
  }

  lemma OldKnown(h: Heap, r: int, sz: int, q: int, i: nat)
    requires CanTake(h, r, sz) && TakenAt(h, r) !in h.live && 0 <= q < |h.refs| && BlockType(h.refs[q]) < NSIZES
    requires KnownLive(h, q, i) && PopRef(h.refs[r], h.word).pab == h.refs[r].pab
    ensures KnownLive(Take(h, r, sz), q, i)
  {
    assert Take(h, r, sz).refs[q].pab == h.refs[q].pab;
  }

  lemma TakeOwners(h: Heap, r: int, sz: int, x: int)
    requires InvBut(h, x) && CanTake(h, r, sz) && (x == r || x == NIL)
    ensures PagesApart(Take(h, r, sz)) && Owners(Take(h, r, sz))
  {
    var h' := Take(h, r, sz);
    TakeLives(h, r, sz, x);
    forall p | p in h'.owner ensures OwnerTrue(h', p) { assert OwnerTrue(h, p); }
    forall q | q in h'.all && 0 <= q < |h'.refs| ensures Single(h', PageOf(h', q), HeapPage(q)) {
      assert Single(h, PageOf(h, q), HeapPage(q));
    }
    forall k | 0 <= k < |h'.roots| && h'.roots[k].page != 0 ensures Single(h', h'.roots[k].page, RefPage(k)) {
      assert Single(h, h.roots[k].page, RefPage(k));
    }
  }

  lemma TakeKeeps(h: Heap, r: int, sz: int, x: int)
    requires InvBut(h, x) && CanTake(h, r, sz) && (x == r || x == NIL)
    ensures Inv(Take(h, r, sz)) && TakenAt(h, r) !in h.live
  {
    TakeLists(h, r, sz, x);
    TakeFrees(h, r, sz, x);
    TakeLives(h, r, sz, x);
    TakeOwners(h, r, sz, x);
  }

  // -------------------------------------------------------------------- adding a page

  /** Pages at p that alloc_kpages may hand out: none of them is in use here. */
  ghost predicate NewPages(h: Heap, p: int, n: nat) {
    PageShape(p, n) && p !in h.pages && forall q :: q in h.pages ==> Apart(p, n, q, h.pages[q])
  }

  /** The tables have their sizes. */
  ghost predicate Tables(h: Heap) {
    && |h.refs| == TOTAL_PAGEREFS && |h.sizebases| == NSIZES && |h.same| == NSIZES
    && RootsOk(h.roots)
  }

  ghost predicate CanAdd(h: Heap, r: int, b: int, page: int) {
    && 0 <= b < NSIZES && 0 <= r < TOTAL_PAGEREFS && !InUse(h.roots, r) && NewPages(h, page, 1)
    && Tables(h) && h.roots[r / NPAGEREFS_PER_PAGE].page != 0
  }

  /** The part of subpage_kmalloc that threads a fresh page and links descriptor r. */
  function LinkPage(h: Heap, r: int, b: int, page: int): Heap
    requires |h.refs| == TOTAL_PAGEREFS && |h.sizebases| == NSIZES && |h.same| == NSIZES
    requires 0 <= b < NSIZES && 0 <= r < TOTAL_PAGEREFS
  {
    h.(refs := h.refs[r := Pageref(h.sizebases[b], h.allbase, MkPab(page, b), (Blocks(b) - 1) * SIZES[b], Blocks(b))],
       sizebases := h.sizebases[b := r], allbase := r,
       word := Thread(h.word, page, b, Blocks(b)),
       pages := h.pages[page := 1],
       all := [r] + h.all, same := h.same[b := [r] + h.same[b]],
       free := h.free[r := Down(Blocks(b))],
       owner := h.owner[page := HeapPage(r)])
  }

  /** The same with descriptor r taken first. */
  ghost function AddPage(h: Heap, r: int, b: int, page: int): Heap
    requires Tables(h) && 0 <= b < NSIZES && 0 <= r < TOTAL_PAGEREFS
  {
    LinkPage(h.(roots := Reserve(h.roots, r, 0)), r, b, page)
  }

  lemma PabRoundTrip(page: int, b: int)
    requires page % PAGE_SIZE == 0 && 0 <= b < NSIZES
    ensures var pab := MkPab(page, b); pab % PAGE_SIZE == b && pab - pab % PAGE_SIZE == page
  {
  }

  lemma ReserveAgain(h: Heap, r: int, b: int, page: int)
    requires InvBut(h, NIL) && CanAdd(h, r, b, page)
    ensures Roots(AddPage(h, r, b, page)) && r !in h.all
    ensures forall k :: 0 <= k < |h.roots| ==> AddPage(h, r, b, page).roots[k].page == h.roots[k].page
  {
    var k := r / NPAGEREFS_PER_PAGE;
    assert Reserve(h.roots, r, 0) == Reserve(h.roots, r, 1);
    ReserveTakesOne(h.roots, r, 1);
  }

  lemma AddChains(h: Heap, r: int, b: int, page: int, c: int)
    requires Inv(h) && CanAdd(h, r, b, page) && 0 <= c < NSIZES
    ensures var h' := AddPage(h, r, b, page);
            ListOk(h'.refs, h'.allbase, h'.all, All) && ListOk(h'.refs, h'.sizebases[c], h'.same[c], Same)
  {
    var h' := AddPage(h, r, b, page);
    ReserveAgain(h, r, b, page);
    assert r !in h.same[c];
    ListPush(h.refs, h'.refs, h.allbase, h.all, All, r);
    if c == b {
      ListPush(h.refs, h'.refs, h.sizebases[c], h.same[c], Same, r);
    } else {
      ListKept(h.refs, h'.refs, h.sizebases[c], h.same[c], Same);
    }
  }

  lemma AddLists(h: Heap, r: int, b: int, page: int)
    requires Inv(h) && CanAdd(h, r, b, page)
    ensures Lists(AddPage(h, r, b, page))
  {
    var h' := AddPage(h, r, b, page);
    ReserveAgain(h, r, b, page);
    PabRoundTrip(page, b);
    forall c | 0 <= c < NSIZES
      ensures ListOk(h'.refs, h'.sizebases[c], h'.same[c], Same)
    {
      AddChains(h, r, b, page, c);
    }
    AddChains(h, r, b, page, b);
    forall q | q in h'.all
      ensures 0 <= q < |h'.refs| && BlockType(h'.refs[q]) < NSIZES && q in h'.same[BlockType(h'.refs[q])]
    {
      assert q != r ==> q in h.all;
    }
    forall c, q | 0 <= c < NSIZES && q in h'.same[c] ensures q in h'.all && BlockType(h'.refs[q]) == c {
      assert q in h.same[c] || (q == r && c == b);
    }
  }

  lemma ApartAfter(h: Heap, h': Heap, p: int, n: nat)
    requires PagesApart(h) && NewPages(h, p, n) && h'.pages == h.pages[p := n]
    ensures PagesApart(h')
  {
    forall x, y | x in h'.pages && y in h'.pages && x != y ensures Apart(x, h'.pages[x], y, h'.pages[y]) {
      if x == p { assert Apart(p, n, y, h.pages[y]); }
      else if y == p { assert Apart(p, n, x, h.pages[x]); }
    }
  }

  /** Owners, when the only change to pages is that descriptor r gets a page of its own. */
  lemma OwnersAfter(h: Heap, h': Heap, r: int, page: int)
    requires Owners(h) && page !in h.pages && r !in h.all && 0 <= r < |h.refs| && page != 0
    requires h'.all == [r] + h.all && h'.live == h.live && |h'.refs| == |h.refs| && |h'.roots| == |h.roots|
    requires h'.pages == h.pages[page := 1] && h'.owner == h.owner[page := HeapPage(r)]
    requires forall q :: 0 <= q < |h.refs| && q != r ==> h'.refs[q] == h.refs[q]
    requires forall k :: 0 <= k < |h.roots| ==> h'.roots[k].page == h.roots[k].page
    requires PageOf(h', r) == page
    ensures Owners(h')
  {
    forall p | p in h'.owner ensures OwnerTrue(h', p) { if p != page { assert OwnerTrue(h, p); } }
    forall q | q in h'.all && 0 <= q < |h'.refs| ensures Single(h', PageOf(h', q), HeapPage(q)) {
      if q != r { assert Single(h, PageOf(h, q), HeapPage(q)); }
    }
    forall k | 0 <= k < |h'.roots| && h'.roots[k].page != 0 ensures Single(h', h'.roots[k].page, RefPage(k)) {
      assert Single(h, h.roots[k].page, RefPage(k));
    }
  }

  lemma AddOwners(h: Heap, r: int, b: int, page: int)
    requires Inv(h) && CanAdd(h, r, b, page)
    ensures Owners(AddPage(h, r, b, page))
  {
    ReserveAgain(h, r, b, page);
    PabRoundTrip(page, b);
    OwnersAfter(h, AddPage(h, r, b, page), r, page);
  }

  lemma AddFrees(h: Heap, r: int, b: int, page: int)
    requires Inv(h) && CanAdd(h, r, b, page)
    ensures Frees(AddPage(h, r, b, page), r)
  {
    var h' := AddPage(h, r, b, page);
    ReserveAgain(h, r, b, page);
    PabRoundTrip(page, b);
    FreshChain(page, b, h.word);
    ThreadKeeps(h.word, page, b, Blocks(b));
    forall q | q in h'.all && 0 <= q < |h'.refs|
      ensures && q in h'.free && FreeOk(h'.refs[q], h'.word, h'.free[q])
              && (q != r ==> |h'.free[q]| < Blocks(BlockType(h'.refs[q])))
    {
      if q != r { FreeElsewhere(h, q, h'.word, page); }
    }
  }

  /** Words of a new page are in no free list. */
  lemma FreeElsewhere(h: Heap, q: int, word': map<int, int>, page: int)
    requires Inv(h) && q in h.all && NewPages(h, page, 1) && KeptOutside(h.word, word', page, page + PAGE_SIZE)
    ensures q in h.free && FreeOk(h.refs[q], word', h.free[q])
  {
    Descriptor(h, q, NIL);
    assert Apart(page, 1, PageOf(h, q), 1);
    ChainElsewhere(PageOf(h, q), BlockType(h.refs[q]), h.word, word', h.free[q], page, page + PAGE_SIZE);
  }

  lemma AddLives(h: Heap, r: int, b: int, page: int)
    requires Inv(h) && CanAdd(h, r, b, page)
    ensures Lives(AddPage(h, r, b, page))
  {
    var h' := AddPage(h, r, b, page);
    ReserveAgain(h, r, b, page);
    PabRoundTrip(page, b);
    forall a | a in h'.live && h'.live[a].Block?
      ensures BlockLive(h', a, h'.live[a])
    {
      assert BlockLive(h, a, h.live[a]);
    }
    forall q, i: nat | NotFree(h', q, i) ensures KnownLive(h', q, i) {
      if q == r { FullIffAll(h'.free[r], Blocks(b)); }
      assert NotFree(h, q, i);
    }
  }

  lemma AddPageKeeps(h: Heap, r: int, b: int, page: int)
    requires Inv(h) && CanAdd(h, r, b, page)
    ensures InvBut(AddPage(h, r, b, page), r)
  {
    ReserveAgain(h, r, b, page);
    AddLists(h, r, b, page);
    ApartAfter(h, AddPage(h, r, b, page), page, 1);
    AddOwners(h, r, b, page);
    AddFrees(h, r, b, page);
    AddLives(h, r, b, page);
  }

  /** allocpagerefpage: root k gets its page of descriptors. */
  ghost predicate CanAddRoot(h: Heap, k: int, va: int) {
    0 <= k < |h.roots| && h.roots[k].page == 0 && NewPages(h, va, 1)
  }

  function AddRoot(h: Heap, k: int, va: int): Heap
    requires 0 <= k < |h.roots|
  {
    h.(roots := h.roots[k := h.roots[k].(page := va)], pages := h.pages[va := 1], owner := h.owner[va := RefPage(k)])
  }

  lemma AddRootOwners(h: Heap, k: int, va: int)
    requires Owners(h) && PagesApart(h) && CanAddRoot(h, k, va)
    ensures Owners(AddRoot(h, k, va))
  {
    var h' := AddRoot(h, k, va);
    forall p | p in h'.owner ensures OwnerTrue(h', p) {
      if p != va { assert OwnerTrue(h, p) && PageShape(p, h.pages[p]); }
    }
    forall q | q in h'.all && 0 <= q < |h'.refs| ensures Single(h', PageOf(h', q), HeapPage(q)) {
      assert Single(h, PageOf(h, q), HeapPage(q));
    }
    forall j | 0 <= j < |h'.roots| && h'.roots[j].page != 0 ensures Single(h', h'.roots[j].page, RefPage(j)) {
      if j != k { assert Single(h, h.roots[j].page, RefPage(j)); }
    }
  }

  lemma AddRootRoots(h: Heap, k: int, va: int)
    requires Inv(h) && CanAddRoot(h, k, va)
    ensures Roots(AddRoot(h, k, va))
  {
    var h' := AddRoot(h, k, va);
    forall q ensures InUse(h'.roots, q) <==> InUse(h.roots, q) {}
    forall j | 0 <= j < |h'.roots| ensures RootOk(h'.roots[j]) { assert RootOk(h.roots[j]); }
  }

  /** Live pointers and free lists do not depend on the roots or on other pages. */
  lemma LivesKept(h: Heap, h': Heap, x: int)
    requires InvBut(h, x) && h'.refs == h.refs && h'.all == h.all && h'.free == h.free && h'.live == h.live
    ensures Lives(h')
  {
    forall a | a in h'.live && h'.live[a].Block?
      ensures BlockLive(h', a, h'.live[a])
    {
      assert BlockLive(h, a, h.live[a]);
    }
    forall q, i: nat | NotFree(h', q, i) ensures KnownLive(h', q, i) {
      assert NotFree(h, q, i);
      assert KnownLive(h, q, i);
    }
  }

  lemma AddRootKeeps(h: Heap, k: int, va: int)
    requires Inv(h) && CanAddRoot(h, k, va)
    ensures Inv(AddRoot(h, k, va))
  {
    AddRootRoots(h, k, va);
    AddRootOwners(h, k, va);
    ApartAfter(h, AddRoot(h, k, va), va, 1);
    LivesKept(h, AddRoot(h, k, va), NIL);
  }
}
