/** The table of page descriptors of the kernel heap: sixteen roots, each a page of 256
    descriptors with a bit for each one in use. A 32-bit word of the bitmap is written as
    the sequence of its bits, lowest first.

    Source: kern/vm/kmalloc.c (kheap_root, allocpageref, freepageref). */
module HeapDescriptors {
  import opened Common

  const INUSE_WORDS := 8
  const NPAGEREFS_PER_PAGE := 256
  const NUM_PAGEREFPAGES := 16
  const TOTAL_PAGEREFS := 4096
  const PAGEREF_SIZE := 16

  /** kheap_root; page 0 is NULL. */
  datatype Root = Root(page: int, inuse: seq<seq<bool>>, numinuse: int)

  predicate Words(ws: seq<seq<bool>>) { |ws| == INUSE_WORDS && forall i :: 0 <= i < |ws| ==> |ws[i]| == 32 }

  /** Whether a word is 0xffffffff. */
  predicate FullWord(w: seq<bool>) { forall j :: 0 <= j < |w| ==> w[j] }

  predicate Used(ws: seq<seq<bool>>, i: nat)
    requires Words(ws) && i < NPAGEREFS_PER_PAGE
  {
    ws[i / 32][i % 32]
  }

  function WithBit(ws: seq<seq<bool>>, i: nat, on: bool): (r: seq<seq<bool>>)
    requires Words(ws) && i < NPAGEREFS_PER_PAGE
    ensures Words(r)
    ensures forall j :: 0 <= j < NPAGEREFS_PER_PAGE ==> Used(r, j) == if i == j then on else Used(ws, j)
  {
    ws[i / 32 := ws[i / 32][i % 32 := on]]
  }

  /** How many of the first n descriptors are in use. */
  function Count(ws: seq<seq<bool>>, n: nat): (c: nat)
    requires Words(ws) && n <= NPAGEREFS_PER_PAGE
    ensures c <= n
  {
    if n == 0 then 0 else Count(ws, n - 1) + (if Used(ws, n - 1) then 1 else 0)
  }

  lemma {:induction false} CountWithBit(ws: seq<seq<bool>>, i: nat, on: bool, n: nat)
    requires Words(ws) && i < NPAGEREFS_PER_PAGE && n <= NPAGEREFS_PER_PAGE && Used(ws, i) != on
    ensures Count(WithBit(ws, i, on), n) == Count(ws, n) + (if i >= n then 0 else if on then 1 else -1)
  {
    if n > 0 { CountWithBit(ws, i, on, n - 1); }
  }

  lemma {:induction false} CountFull(ws: seq<seq<bool>>, n: nat)
    requires Words(ws) && n <= NPAGEREFS_PER_PAGE
    ensures Count(ws, n) == n <==> forall i :: 0 <= i < n ==> Used(ws, i)
  {
    if n > 0 { CountFull(ws, n - 1); }
  }

  lemma {:induction false} CountZero(ws: seq<seq<bool>>, n: nat)
    requires Words(ws) && n <= NPAGEREFS_PER_PAGE && forall i :: 0 <= i < n ==> !Used(ws, i)
    ensures Count(ws, n) == 0
  {
    if n > 0 { CountZero(ws, n - 1); }
  }

  /** allocpageref's search of a root's words: the lowest free descriptor, if any. */
  method FindClear(ws: seq<seq<bool>>) returns (r: int)
    requires Words(ws)
    ensures -1 <= r < NPAGEREFS_PER_PAGE
    ensures r >= 0 ==> !Used(ws, r)
    ensures forall k :: 0 <= k < (if r >= 0 then r else NPAGEREFS_PER_PAGE) ==> Used(ws, k)
  {
    var i := 0;
    while i < INUSE_WORDS
      invariant 0 <= i <= INUSE_WORDS
      invariant forall k :: 0 <= k < 32 * i ==> Used(ws, k)
    {
      if !FullWord(ws[i]) {
        var j := 0;
        while ws[i][j]
          invariant 0 <= j < 32 && forall k :: 0 <= k < j ==> ws[i][k]
          invariant !FullWord(ws[i])
          decreases 32 - j
        {
          j := j + 1;
        }
        return 32 * i + j;
      }
      i := i + 1;
    }
    r := -1;
  }

  // ------------------------------------------------------------------- all the roots

  /** A root's count is the number of its bits, and it has a page once it is used. */
  ghost predicate RootOk(root: Root) {
    && Words(root.inuse)
    && root.numinuse == Count(root.inuse, NPAGEREFS_PER_PAGE)
    && (root.page == 0 ==> root.numinuse == 0)
  }

  ghost predicate RootsOk(roots: seq<Root>) {
    |roots| == NUM_PAGEREFPAGES && forall k :: 0 <= k < |roots| ==> RootOk(roots[k])
  }

  /** Whether descriptor r, of root r / 256, is in use. */
  predicate InUse(roots: seq<Root>, r: int) {
    && 0 <= r < TOTAL_PAGEREFS && |roots| == NUM_PAGEREFPAGES
    && Words(roots[r / NPAGEREFS_PER_PAGE].inuse)
    && Used(roots[r / NPAGEREFS_PER_PAGE].inuse, r % NPAGEREFS_PER_PAGE)
  }

  /** The address of descriptor r. */
  function RefAddress(roots: seq<Root>, r: nat): int
    requires |roots| == NUM_PAGEREFPAGES && r < TOTAL_PAGEREFS
  {
    roots[r / NPAGEREFS_PER_PAGE].page + PAGEREF_SIZE * (r % NPAGEREFS_PER_PAGE)
  }

  /** The roots with descriptor r taken, its root's page being va if it had none. */
  function Reserve(roots: seq<Root>, r: nat, va: int): seq<Root>
    requires |roots| == NUM_PAGEREFPAGES && r < TOTAL_PAGEREFS && Words(roots[r / NPAGEREFS_PER_PAGE].inuse)
  {
    var k := r / NPAGEREFS_PER_PAGE;
    var root := roots[k];
    roots[k := Root(if root.page == 0 then va else root.page,
                    WithBit(root.inuse, r % NPAGEREFS_PER_PAGE, true), root.numinuse + 1)]
  }

  function Unreserve(roots: seq<Root>, r: nat): seq<Root>
    requires |roots| == NUM_PAGEREFPAGES && r < TOTAL_PAGEREFS && Words(roots[r / NPAGEREFS_PER_PAGE].inuse)
  {
    var k := r / NPAGEREFS_PER_PAGE;
    var root := roots[k];
    roots[k := root.(inuse := WithBit(root.inuse, r % NPAGEREFS_PER_PAGE, false), numinuse := root.numinuse - 1)]
  }

  lemma ReserveTakesOne(roots: seq<Root>, r: nat, va: int)
    requires RootsOk(roots) && r < TOTAL_PAGEREFS && !InUse(roots, r) && va != 0
    ensures RootsOk(Reserve(roots, r, va))
    ensures forall q :: InUse(Reserve(roots, r, va), q) <==> InUse(roots, q) || q == r
  {
    var k, i := r / NPAGEREFS_PER_PAGE, r % NPAGEREFS_PER_PAGE;
    assert RootOk(roots[k]);
    CountWithBit(roots[k].inuse, i, true, NPAGEREFS_PER_PAGE);
    SameIndex(r);
  }

  lemma UnreserveGivesOne(roots: seq<Root>, r: nat)
    requires RootsOk(roots) && InUse(roots, r)
    ensures RootsOk(Unreserve(roots, r))
    ensures forall q :: InUse(Unreserve(roots, r), q) <==> InUse(roots, q) && q != r
    ensures roots[r / NPAGEREFS_PER_PAGE].page != 0 && roots[r / NPAGEREFS_PER_PAGE].numinuse > 0
  {
    var k, i := r / NPAGEREFS_PER_PAGE, r % NPAGEREFS_PER_PAGE;
    assert RootOk(roots[k]);
    CountWithBit(roots[k].inuse, i, false, NPAGEREFS_PER_PAGE);
    SameIndex(r);
  }

  lemma SameIndex(r: nat)
    ensures forall q: nat ::
              q / NPAGEREFS_PER_PAGE == r / NPAGEREFS_PER_PAGE && q % NPAGEREFS_PER_PAGE == r % NPAGEREFS_PER_PAGE ==>
              q == r
  {
  }

  /** Descriptor pages are whole pages that do not overlap. */
  predicate RootPagesApart(roots: seq<Root>) {
    && (forall k :: 0 <= k < |roots| ==> roots[k].page % PAGE_SIZE == 0)
    && (forall k, l :: 0 <= k < l < |roots| && roots[k].page != 0 ==> roots[k].page != roots[l].page)
  }

  /** allocpageref. `va` is what alloc_kpages gives if the root still needs its page.
      The lowest free descriptor is taken; there is none only when all are in use. */
  method AllocPageref(roots: seq<Root>, va: int) returns (roots': seq<Root>, r: int)
    requires RootsOk(roots) && va != 0
    ensures -1 <= r < TOTAL_PAGEREFS
    ensures r >= 0 ==> !InUse(roots, r) && roots' == Reserve(roots, r, va)
    ensures r < 0 ==> roots' == roots
    ensures forall q :: 0 <= q < (if r >= 0 then r else TOTAL_PAGEREFS) ==> InUse(roots, q)
  {
    var whichroot := 0;
    while whichroot < NUM_PAGEREFPAGES
      invariant 0 <= whichroot <= NUM_PAGEREFPAGES
      invariant forall q :: 0 <= q < whichroot * NPAGEREFS_PER_PAGE ==> InUse(roots, q)
    {
      var root := roots[whichroot];
      assert RootOk(root);
      CountFull(root.inuse, NPAGEREFS_PER_PAGE);
      if root.numinuse < NPAGEREFS_PER_PAGE {
        var i := FindClear(root.inuse);
        r := whichroot * NPAGEREFS_PER_PAGE + i;
        assert r / NPAGEREFS_PER_PAGE == whichroot && r % NPAGEREFS_PER_PAGE == i;
        var page := if root.page == 0 then va else root.page;
        roots' := roots[whichroot := Root(page, WithBit(root.inuse, i, true), root.numinuse + 1)];
        return;
      }
      whichroot := whichroot + 1;
    }
    return roots, -1;
  }

  /** freepageref: the root is found by where the descriptor's address lies. */
  method FreePageref(roots: seq<Root>, r: int) returns (roots': seq<Root>)
    requires RootsOk(roots) && RootPagesApart(roots) && InUse(roots, r)
    ensures roots' == Unreserve(roots, r)
  {
    var p := RefAddress(roots, r);
    var home := r / NPAGEREFS_PER_PAGE;
    UnreserveGivesOne(roots, r);
    var whichroot := 0;
    while true
      invariant 0 <= whichroot <= home
      decreases home - whichroot
    {
      var root := roots[whichroot];
      assert RootOk(root);
      if root.page == 0 {
        assert root.numinuse == 0;
      } else {
        var j := p - root.page;
        if 0 <= j < PAGE_SIZE {
          assert whichroot == home;
          var n := j / PAGEREF_SIZE;
          assert n == r % NPAGEREFS_PER_PAGE;
          return roots[whichroot := root.(inuse := WithBit(root.inuse, n, false), numinuse := root.numinuse - 1)];
        }
      }
      whichroot := whichroot + 1;
    }
  }
}
