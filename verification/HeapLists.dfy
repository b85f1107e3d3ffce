/** The linked structures of the kernel heap: block sizes, the lists of page descriptors,
    and the free list threaded through the blocks of a page.

    Source: kern/vm/kmalloc.c (sizes, struct pageref, remove_lists, blocktype and the
    list code of subpage_kmalloc and subpage_kfree). */
module HeapLists {
  import opened Common

  // ----------------------------------------------------------------------- block sizes

  const NSIZES := 8
  const LARGEST_SUBPAGE_SIZE := 2048
  const SIZES: seq<int> := [16, 32, 64, 128, 256, 512, 1024, 2048]

  /** Blocks of type b on a page. */
  function Blocks(b: nat): (n: nat)
    requires b < NSIZES
    ensures n >= 2 && n * SIZES[b] == PAGE_SIZE && SIZES[b] % 16 == 0 && 16 <= SIZES[b] <= 2048
  {
    PAGE_SIZE / SIZES[b]
  }

  /** The address of block i of a page of blocks of type b. */
  function BlockAt(page: int, b: nat, i: int): int
    requires b < NSIZES
  {
    page + i * SIZES[b]
  }

  lemma BlockBounds(b: nat, i: int, j: int)
    requires b < NSIZES && 0 <= i < Blocks(b)
    ensures 0 <= i * SIZES[b] <= PAGE_SIZE - SIZES[b]
    ensures i < j ==> i * SIZES[b] + SIZES[b] <= j * SIZES[b]
    ensures j < i ==> j * SIZES[b] + SIZES[b] <= i * SIZES[b]
  {
    var z := SIZES[b];
    assert (i + 1) * z <= Blocks(b) * z;
    if i < j { assert (i + 1) * z <= j * z; }
    if j < i { assert (j + 1) * z <= i * z; }
  }

  lemma BlocksDiffer(page: int, b: nat, i: int, j: int)
    requires b < NSIZES && 0 <= i < Blocks(b) && BlockAt(page, b, i) == BlockAt(page, b, j)
    ensures i == j
  {
    BlockBounds(b, i, j);
  }

  /** b is the smallest block type that holds sz bytes. */
  predicate Smallest(b: nat, sz: int) { b < NSIZES && sz <= SIZES[b] && forall c :: 0 <= c < b ==> SIZES[c] < sz }

  /** blocktype: the smallest block type that holds the request. */
  method Blocktype(sz: int) returns (b: nat)
    requires sz <= LARGEST_SUBPAGE_SIZE
    ensures Smallest(b, sz)
  {
    b := 0;
    while sz > SIZES[b]
      invariant b < NSIZES && forall c :: 0 <= c < b ==> SIZES[c] < sz
      decreases NSIZES - b
    {
      b := b + 1;
    }
  }

  // ------------------------------------------------------------------ page descriptors

  const NIL := -1
  const INVALID_OFFSET := 0xffff

  /** struct pageref; a pointer to one is its number, or NIL. */
  datatype Pageref = Pageref(nextSame: int, nextAll: int, pab: int, freelist: int, nfree: int)

  function PageAddr(pr: Pageref): int { pr.pab - pr.pab % PAGE_SIZE }

  function BlockType(pr: Pageref): (b: int)
    ensures 0 <= b < PAGE_SIZE
  {
    pr.pab % PAGE_SIZE
  }

  function MkPab(page: int, b: int): int { page - page % PAGE_SIZE + b % PAGE_SIZE }

  /** The two chains every descriptor is on. */
  datatype Chain = Same | All

  function Next(refs: seq<Pageref>, r: int, chain: Chain): int
    requires 0 <= r < |refs|
  {
    if chain == Same then refs[r].nextSame else refs[r].nextAll
  }

  function SetNext(pr: Pageref, chain: Chain, n: int): Pageref {
    if chain == Same then pr.(nextSame := n) else pr.(nextAll := n)
  }

  /** The k-th element, or NIL past the end. */
  function At(ids: seq<int>, k: nat): int
    requires k <= |ids|
  {
    if k < |ids| then ids[k] else NIL
  }

  predicate NoDup(ids: seq<int>) { forall i, j :: 0 <= i < j < |ids| ==> ids[i] != ids[j] }

  /** The chain from head visits exactly ids, each once. */
  ghost predicate ListOk(refs: seq<Pageref>, head: int, ids: seq<int>, chain: Chain) {
    && NoDup(ids)
    && head == At(ids, 0)
    && (forall k :: 0 <= k < |ids| ==> 0 <= ids[k] < |refs| && Next(refs, ids[k], chain) == At(ids, k + 1))
  }

  /** ids with x left out. */
  function Without(ids: seq<int>, x: int): (r: seq<int>)
    ensures forall y :: y in r ==> y in ids && y != x
    ensures forall y :: y in ids && y != x ==> y in r
  {
    if ids == [] then []
    else if ids[0] == x then Without(ids[1..], x)
    else [ids[0]] + Without(ids[1..], x)
  }

  lemma {:induction false} WithoutAbsent(ids: seq<int>, x: int)
    requires x !in ids
    ensures Without(ids, x) == ids
  {
    if ids != [] { WithoutAbsent(ids[1..], x); }
  }

  /** The list with its k-th element left out. */
  function Cut(ids: seq<int>, k: nat): (r: seq<int>)
    requires k < |ids|
    ensures |r| == |ids| - 1 && forall i :: 0 <= i < |r| ==> r[i] == if i < k then ids[i] else ids[i + 1]
  {
    ids[..k] + ids[k + 1..]
  }

  lemma {:induction false} WithoutAt(ids: seq<int>, k: nat)
    requires NoDup(ids) && k < |ids|
    ensures Without(ids, ids[k]) == Cut(ids, k)
  {
    if k == 0 {
      WithoutAbsent(ids[1..], ids[k]);
      assert Cut(ids, 0) == ids[1..];
    } else {
      WithoutAt(ids[1..], k - 1);
      assert Cut(ids, k) == [ids[0]] + Cut(ids[1..], k - 1);
    }
  }

  /** A chain does not see changes to other fields, nor to descriptors off it. */
  lemma ListKept(refs: seq<Pageref>, refs': seq<Pageref>, head: int, ids: seq<int>, chain: Chain)
    requires ListOk(refs, head, ids, chain) && |refs'| == |refs|
    requires forall r :: r in ids && 0 <= r < |refs| ==> Next(refs', r, chain) == Next(refs, r, chain)
    ensures ListOk(refs', head, ids, chain)
  {
    forall k | 0 <= k < |ids| ensures 0 <= ids[k] < |refs'| && Next(refs', ids[k], chain) == At(ids, k + 1) {
      assert ids[k] in ids;
    }
  }

  lemma ListPush(refs: seq<Pageref>, refs': seq<Pageref>, head: int, ids: seq<int>, chain: Chain, r: int)
    requires ListOk(refs, head, ids, chain) && |refs'| == |refs| && 0 <= r < |refs| && r !in ids
    requires forall q :: 0 <= q < |refs| && q != r ==> Next(refs', q, chain) == Next(refs, q, chain)
    requires Next(refs', r, chain) == head
    ensures ListOk(refs', r, [r] + ids, chain)
  {
    var ids' := [r] + ids;
    forall k | 0 <= k < |ids'| ensures 0 <= ids'[k] < |refs'| && Next(refs', ids'[k], chain) == At(ids', k + 1) {
      if k > 0 { assert ids'[k] == ids[k - 1] && ids[k - 1] in ids; }
    }
    ConsNoDup(r, ids);
  }

  lemma ConsNoDup(r: int, ids: seq<int>)
    requires NoDup(ids) && r !in ids
    ensures NoDup([r] + ids)
  {
  }

  /** Nothing but next fields of one chain differs. */
  ghost predicate OnlyNext(refs: seq<Pageref>, refs': seq<Pageref>, chain: Chain) {
    |refs'| == |refs| && forall r :: 0 <= r < |refs| ==> refs'[r] == SetNext(refs[r], chain, Next(refs', r, chain))
  }

  lemma OnlyNextAt(refs: seq<Pageref>, r: nat, chain: Chain, n: int)
    requires r < |refs|
    ensures OnlyNext(refs, refs, chain) && OnlyNext(refs, refs[r := SetNext(refs[r], chain, n)], chain)
  {
  }

  lemma UnlinkHead(refs: seq<Pageref>, head: int, ids: seq<int>, chain: Chain)
    requires ListOk(refs, head, ids, chain) && ids != []
    ensures ListOk(refs, At(ids, 1), Cut(ids, 0), chain)
  {
    var rest := Cut(ids, 0);
    forall i | 0 <= i < |rest| ensures 0 <= rest[i] < |refs| && Next(refs, rest[i], chain) == At(rest, i + 1) {
      assert rest[i] == ids[i + 1];
    }
    CutNoDup(ids, 0);
  }

  lemma CutNoDup(ids: seq<int>, k: nat)
    requires NoDup(ids) && k < |ids|
    ensures NoDup(Cut(ids, k))
  {
  }

  /** Unlinking past the head: the predecessor's next field skips the element. */
  lemma UnlinkInside(refs: seq<Pageref>, refs': seq<Pageref>, head: int, ids: seq<int>, chain: Chain, k: nat)
    requires ListOk(refs, head, ids, chain) && 0 < k < |ids| && |refs'| == |refs|
    requires forall r :: 0 <= r < |refs| && r != ids[k - 1] ==> Next(refs', r, chain) == Next(refs, r, chain)
    requires 0 <= ids[k - 1] < |refs'| && Next(refs', ids[k - 1], chain) == At(ids, k + 1)
    ensures ListOk(refs', head, Cut(ids, k), chain)
  {
    var rest := Cut(ids, k);
    forall i | 0 <= i < |rest| ensures 0 <= rest[i] < |refs'| && Next(refs', rest[i], chain) == At(rest, i + 1) {
      CutNext(refs, refs', ids, chain, k, i);
    }
    CutNoDup(ids, k);
  }

  lemma CutNext(refs: seq<Pageref>, refs': seq<Pageref>, ids: seq<int>, chain: Chain, k: nat, i: nat)
    requires 0 < k < |ids| && i < |ids| - 1 && NoDup(ids) && |refs'| == |refs|
    requires forall j :: 0 <= j < |ids| ==> 0 <= ids[j] < |refs| && Next(refs, ids[j], chain) == At(ids, j + 1)
    requires forall r :: 0 <= r < |refs| && r != ids[k - 1] ==> Next(refs', r, chain) == Next(refs, r, chain)
    requires Next(refs', ids[k - 1], chain) == At(ids, k + 1)
    ensures 0 <= Cut(ids, k)[i] < |refs'| && Next(refs', Cut(ids, k)[i], chain) == At(Cut(ids, k), i + 1)
  {
    if i != k - 1 {
      var j := if i < k then i else i + 1;
      assert Cut(ids, k)[i] == ids[j] && ids[j] != ids[k - 1];
    }
  }

  /** One of remove_lists' loops: follow the chain and unlink pr where it is found. */
  method Unlink(refs: seq<Pageref>, head: int, pr: int, chain: Chain, ghost ids: seq<int>)
    returns (refs': seq<Pageref>, head': int)
    requires ListOk(refs, head, ids, chain) && 0 <= pr < |refs|
    ensures ListOk(refs', head', Without(ids, pr), chain)
    ensures OnlyNext(refs, refs', chain) && forall r :: 0 <= r < |refs| && r !in ids ==> refs'[r] == refs[r]
  {
    OnlyNextAt(refs, 0, chain, Next(refs, 0, chain));
    var prev, guy := NIL, head;
    ghost var k := 0;
    while guy != NIL
      invariant 0 <= k <= |ids| && guy == At(ids, k) && prev == (if k == 0 then NIL else ids[k - 1])
      invariant forall j :: 0 <= j < k ==> ids[j] != pr
      decreases |ids| - k
    {
      if guy == pr {
        WithoutAt(ids, k);
        if prev == NIL {
          UnlinkHead(refs, head, ids, chain);
          return refs, Next(refs, pr, chain);
        }
        refs' := refs[prev := SetNext(refs[prev], chain, Next(refs, pr, chain))];
        OnlyNextAt(refs, prev, chain, Next(refs, pr, chain));
        UnlinkInside(refs, refs', head, ids, chain, k);
        return refs', head;
      }
      prev, guy := guy, Next(refs, guy, chain);
      k := k + 1;
    }
    WithoutAbsent(ids, pr);
    return refs, head;
  }

  /** The search of a size's list: the first page on it with a free block. */
  method FirstWithFree(refs: seq<Pageref>, head: int, ghost ids: seq<int>) returns (pr: int)
    requires ListOk(refs, head, ids, Same)
    ensures pr == NIL || (pr in ids && 0 <= pr < |refs| && refs[pr].nfree > 0)
    ensures exists k :: 0 <= k <= |ids| && pr == At(ids, k)
                        && forall j :: 0 <= j < k ==> 0 <= ids[j] < |refs| && refs[ids[j]].nfree <= 0
  {
    pr := head;
    ghost var k := 0;
    while pr != NIL
      invariant 0 <= k <= |ids| && pr == At(ids, k)
      invariant forall j :: 0 <= j < k ==> 0 <= ids[j] < |refs| && refs[ids[j]].nfree <= 0
      decreases |ids| - k
    {
      if refs[pr].nfree > 0 { return; }
      pr := refs[pr].nextSame;
      k := k + 1;
    }
  }

  predicate Contains(pr: Pageref, ptr: int) { PageAddr(pr) <= ptr < PageAddr(pr) + PAGE_SIZE }

  /** subpage_kfree's search: a page that holds the pointer, if one does. */
  method FirstHolding(refs: seq<Pageref>, base: int, ptr: int, ghost ids: seq<int>) returns (pr: int)
    requires ListOk(refs, base, ids, All)
    ensures pr != NIL ==> pr in ids && 0 <= pr < |refs| && Contains(refs[pr], ptr)
    ensures pr == NIL ==> forall r :: r in ids && 0 <= r < |refs| ==> !Contains(refs[r], ptr)
  {
    pr := base;
    ghost var k := 0;
    while pr != NIL
      invariant 0 <= k <= |ids| && pr == At(ids, k)
      invariant forall j :: 0 <= j < k ==> 0 <= ids[j] < |refs| && !Contains(refs[ids[j]], ptr)
      decreases |ids| - k
    {
      if Contains(refs[pr], ptr) { return; }
      pr := refs[pr].nextAll;
      k := k + 1;
    }
  }

  // ----------------------------------------------------------------- a page's free list

  /** Blocks of a page as numbers below Blocks(b), none twice. */
  predicate Distinct(free: seq<nat>, n: nat) {
    && (forall k :: 0 <= k < |free| ==> free[k] < n)
    && (forall i, j :: 0 <= i < j < |free| ==> free[i] != free[j])
  }

  /** The address held in the first word of the k-th free block: the next one, or NULL. */
  function NextFree(page: int, b: nat, free: seq<nat>, k: nat): int
    requires b < NSIZES && k < |free|
  {
    if k + 1 < |free| then BlockAt(page, b, free[k + 1]) else 0
  }

  predicate Holds(word: map<int, int>, a: int, v: int) { a in word && word[a] == v }

  /** Starting at its first block, the list visits exactly the blocks in `free`. */
  ghost predicate FreeChain(page: int, b: nat, word: map<int, int>, free: seq<nat>) {
    && b < NSIZES && Distinct(free, Blocks(b))
    && (forall k :: 0 <= k < |free| ==> Holds(word, BlockAt(page, b, free[k]), NextFree(page, b, free, k)))
  }

  /** The offset at which the list starts. */
  function FreeHead(b: nat, free: seq<nat>): int
    requires b < NSIZES
  {
    if free == [] then INVALID_OFFSET else free[0] * SIZES[b]
  }

  /** The descriptor's free list is `free`, with its length in nfree. */
  ghost predicate FreeOk(pr: Pageref, word: map<int, int>, free: seq<nat>) {
    && FreeChain(PageAddr(pr), BlockType(pr), word, free)
    && pr.nfree == |free| && pr.freelist == FreeHead(BlockType(pr), free)
  }

  /** Words outside [lo, hi) are as they were. */
  ghost predicate KeptOutside(word: map<int, int>, word': map<int, int>, lo: int, hi: int) {
    forall x :: x in word && !(lo <= x < hi) ==> x in word' && word'[x] == word[x]
  }

  /** A free list does not see changes to words that are not in its free blocks. */
  lemma ChainKept(page: int, b: nat, word: map<int, int>, word': map<int, int>, free: seq<nat>, lo: int, hi: int)
    requires FreeChain(page, b, word, free) && KeptOutside(word, word', lo, hi)
    requires forall k :: 0 <= k < |free| ==> !(lo <= BlockAt(page, b, free[k]) < hi)
    ensures FreeChain(page, b, word', free)
  {
    forall k | 0 <= k < |free| ensures Holds(word', BlockAt(page, b, free[k]), NextFree(page, b, free, k)) {
      assert Holds(word, BlockAt(page, b, free[k]), NextFree(page, b, free, k));
    }
  }

  /** In particular, not to words of other pages. */
  lemma ChainElsewhere(page: int, b: nat, word: map<int, int>, word': map<int, int>, free: seq<nat>, lo: int, hi: int)
    requires FreeChain(page, b, word, free) && KeptOutside(word, word', lo, hi)
    requires page + PAGE_SIZE <= lo || hi <= page
    ensures FreeChain(page, b, word', free)
  {
    forall k | 0 <= k < |free| ensures !(lo <= BlockAt(page, b, free[k]) < hi) { BlockBounds(b, free[k], 0); }
    ChainKept(page, b, word, word', free, lo, hi);
  }

  /** doalloc: the head leaves the list, and its first word leads to the new head. */
  lemma ChainPop(page: int, b: nat, word: map<int, int>, free: seq<nat>)
    requires FreeChain(page, b, word, free) && free != [] && page > 0
    ensures FreeChain(page, b, word, free[1..]) && free[0] !in free[1..]
    ensures var a := page + FreeHead(b, free);
            && a == BlockAt(page, b, free[0]) && a in word
            && FreeHead(b, free[1..]) == (if word[a] == 0 then INVALID_OFFSET else word[a] - page)
  {
    assert Holds(word, BlockAt(page, b, free[0]), NextFree(page, b, free, 0));
    if |free| > 1 { BlockBounds(b, free[1], 0); }
    forall k | 0 <= k < |free[1..]|
      ensures Holds(word, BlockAt(page, b, free[1..][k]), NextFree(page, b, free[1..], k))
    {
      assert free[1..][k] == free[k + 1] && NextFree(page, b, free[1..], k) == NextFree(page, b, free, k + 1);
    }
  }

  /** subpage_kfree: block i becomes the head, its first word leading to the old one. */
  lemma ChainPush(page: int, b: nat, word: map<int, int>, free: seq<nat>, i: nat)
    requires FreeChain(page, b, word, free) && i < Blocks(b) && i !in free
    requires Holds(word, BlockAt(page, b, i), if FreeHead(b, free) == INVALID_OFFSET then 0
             else page + FreeHead(b, free))
    ensures FreeChain(page, b, word, [i] + free)
  {
    if free != [] { BlockBounds(b, free[0], 0); }
    var free' := [i] + free;
    forall k | 0 <= k < |free'| ensures Holds(word, BlockAt(page, b, free'[k]), NextFree(page, b, free', k)) {
      if k > 0 { assert free'[k] == free[k - 1] && NextFree(page, b, free', k) == NextFree(page, b, free, k - 1); }
    }
  }

  /** n - 1, n - 2, ..., 0: the order in which a fresh page's blocks are handed out. */
  function Down(n: nat): (s: seq<nat>)
    ensures |s| == n && forall k :: 0 <= k < n ==> s[k] == n - 1 - k
  {
    if n == 0 then [] else [n - 1] + Down(n - 1)
  }

  function Below(page: int, b: nat, i: nat): int
    requires b < NSIZES
  {
    if i == 0 then 0 else BlockAt(page, b, i - 1)
  }

  /** The words once the first n blocks of a fresh page are threaded. */
  function Thread(word: map<int, int>, page: int, b: nat, n: nat): map<int, int>
    requires b < NSIZES
  {
    if n == 0 then word else Thread(word, page, b, n - 1)[BlockAt(page, b, n - 1) := Below(page, b, n - 1)]
  }

  lemma {:induction false} ThreadHolds(word: map<int, int>, page: int, b: nat, n: nat, i: nat)
    requires b < NSIZES && i < n <= Blocks(b)
    ensures Holds(Thread(word, page, b, n), BlockAt(page, b, i), Below(page, b, i))
  {
    if i < n - 1 {
      ThreadHolds(word, page, b, n - 1, i);
      BlockBounds(b, n - 1, i);
    }
  }

  lemma {:induction false} ThreadKeeps(word: map<int, int>, page: int, b: nat, n: nat)
    requires b < NSIZES && n <= Blocks(b)
    ensures KeptOutside(word, Thread(word, page, b, n), page, page + PAGE_SIZE)
  {
    if n > 0 {
      ThreadKeeps(word, page, b, n - 1);
      BlockBounds(b, n - 1, 0);
    }
  }

  /** The loop that threads a fresh page; fla ends at its last block. */
  method ThreadPage(word: map<int, int>, page: int, b: nat) returns (word': map<int, int>, fla: int)
    requires b < NSIZES
    ensures word' == Thread(word, page, b, Blocks(b)) && fla == BlockAt(page, b, Blocks(b) - 1)
  {
    var nfree := Blocks(b);
    fla := page;
    word' := word[fla := 0];
    assert word' == Thread(word, page, b, 1) by { assert Thread(word, page, b, 0) == word; }
    var i := 1;
    while i < nfree
      invariant 1 <= i <= nfree && fla == BlockAt(page, b, i - 1)
      invariant word' == Thread(word, page, b, i)
    {
      fla := page + i * SIZES[b];
      word' := word'[fla := page + (i - 1) * SIZES[b]];
      i := i + 1;
    }
  }

  /** A freshly threaded page has all its blocks on the list, last block first. */
  lemma FreshChain(page: int, b: nat, word: map<int, int>)
    requires b < NSIZES
    ensures FreeChain(page, b, Thread(word, page, b, Blocks(b)), Down(Blocks(b)))
  {
    var free, word' := Down(Blocks(b)), Thread(word, page, b, Blocks(b));
    forall k | 0 <= k < |free| ensures Holds(word', BlockAt(page, b, free[k]), NextFree(page, b, free, k)) {
      ThreadHolds(word, page, b, Blocks(b), free[k]);
      assert NextFree(page, b, free, k) == Below(page, b, free[k]);
    }
  }

  const DEADBEEF := 0xdeadbeef

  function Fill(word: map<int, int>, a: int, n: nat): map<int, int> {
    if n == 0 then word else Fill(word, a, n - 1)[a + 4 * (n - 1) := DEADBEEF]
  }

  lemma {:induction false} FillKeeps(word: map<int, int>, a: int, n: nat)
    ensures KeptOutside(word, Fill(word, a, n), a, a + 4 * n)
  {
    if n > 0 { FillKeeps(word, a, n - 1); }
  }

  /** fill_deadbeef. */
  method FillDeadbeef(word: map<int, int>, a: int, len: nat) returns (word': map<int, int>)
    ensures word' == Fill(word, a, len / 4)
  {
    word' := word;
    var i := 0;
    while i < len / 4
      invariant 0 <= i <= len / 4 && word' == Fill(word, a, i)
    {
      word' := word'[a + 4 * i := DEADBEEF];
      i := i + 1;
    }
  }

  // -------------------------------------------------------------------------- counting

  function Members(free: seq<nat>): (r: set<int>)
    ensures forall x :: x in r <==> x in free
  {
    if free == [] then {} else Members(free[1..]) + {free[0]}
  }

  lemma {:induction false} MembersSize(free: seq<nat>, n: nat)
    requires Distinct(free, n)
    ensures |Members(free)| == |free|
  {
    if free != [] {
      MembersSize(free[1..], n);
      assert free[0] !in free[1..];
    }
  }

  /** A list of distinct numbers below n has n elements just when it holds them all. */
  lemma FullIffAll(free: seq<nat>, n: nat)
    requires Distinct(free, n)
    ensures |free| <= n
    ensures |free| == n <==> forall i: nat :: i < n ==> i in free
  {
    MembersSize(free, n);
    SubsetSize(Members(free), Range(0, n));
    assert Members(free) == Range(0, n) <==> forall i: nat :: i < n ==> i in free;
  }
}
