/** The coremap as a value: which frames are in use, by which allocation run,
    for which page-table entry. The search for free frames is given round by round and
    by its simplest definition, the search for a victim by its simplest definition; the
    class in VmKernel runs the loops of the source.

    Source: kern/vm/coremap.c. */
module Coremap {
  import opened Common

  /** A page-table entry named by its address space and its index there. */
  datatype EntryRef = EntryRef(id: int, idx: nat)

  /** struct cm_entry. `used` is the field cm_free, whose value 1 means in use. */
  datatype Cm = Cm(used: bool, size: nat, lock: bool, owner: Option<EntryRef>)

  const FreeCm := Cm(false, 0, false, None)
  const BootCm := Cm(true, 1, false, None)

  /** A frame that holds a page of a process. */
  function UserCm(e: EntryRef): Cm { Cm(true, 1, false, Some(e)) }

  // -------------------------------------------------------------------- tiling

  predicate Covers(cm: seq<Cm>, h: int, i: int) {
    0 <= h <= i < |cm| && cm[h].size > 0 && i < h + cm[h].size
  }

  /** Allocation runs lie inside the map, wholly in use, and do not overlap: the size is
      nonzero only at run heads. */
  ghost predicate Laid(cm: seq<Cm>) {
    && (forall i :: 0 <= i < |cm| && !cm[i].used ==> cm[i].size == 0)
    && (forall h :: 0 <= h < |cm| ==> h + cm[h].size <= |cm|)
    && (forall h, i :: Covers(cm, h, i) ==> cm[i].used && (i > h ==> cm[i].size == 0))
  }

  /** The frames split into free frames and allocation runs: besides, every frame in use
      lies in some run. */
  ghost predicate Tiled(cm: seq<Cm>) {
    Laid(cm) && forall i {:trigger Covered(cm, i)} :: 0 <= i < |cm| && cm[i].used ==> Covered(cm, i)
  }

  /** A frame in use that belongs to no run. */
  ghost predicate Lost(cm: seq<Cm>, i: int) { 0 <= i < |cm| && cm[i].used && !Covered(cm, i) }

  ghost predicate Covered(cm: seq<Cm>, i: int) { exists h :: Covers(cm, h, i) }

  /** coremap_bootstrap: the first `kernel` frames hold the kernel and the map. */
  function Bootstrap(frames: nat, kernel: nat): (cm: seq<Cm>)
    ensures |cm| == frames
  {
    seq(frames, i requires 0 <= i < frames => if i < kernel then BootCm else FreeCm)
  }

  lemma BootstrapTiled(frames: nat, kernel: nat)
    ensures Tiled(Bootstrap(frames, kernel))
  {
    var cm := Bootstrap(frames, kernel);
    forall i | 0 <= i < |cm| && cm[i].used ensures Covered(cm, i) {
      assert Covers(cm, i, i);
    }
  }

  // ---------------------------------------------------------- free-frame search

  /** n free frames from `a` on, n at least one. */
  predicate FreeRange(cm: seq<Cm>, a: nat, n: nat) {
    n > 0 && a + n <= |cm| && forall i :: a <= i < a + n ==> !cm[i].used
  }

  /** The least start, from `a` on, of n free frames in a row; for n = 0, none. */
  function FirstFree(cm: seq<Cm>, n: nat, a: nat): (r: Option<nat>)
    requires a <= |cm|
    ensures r.Some? ==> a <= r.value && FreeRange(cm, r.value, n)
    ensures forall x :: a <= x < (if r.Some? then r.value else |cm|) ==> !FreeRange(cm, x, n)
    decreases |cm| - a
  {
    if a == |cm| then None
    else if FreeRange(cm, a, n) then Some(a)
    else FirstFree(cm, n, a + 1)
  }

  /** A start with only occupied starts before it is the one FirstFree finds. */
  lemma FirstFreeIs(cm: seq<Cm>, n: nat, r: nat)
    requires r < |cm| && FreeRange(cm, r, n)
    requires forall x :: 0 <= x < r ==> !FreeRange(cm, x, n)
    ensures FirstFree(cm, n, 0) == Some(r)
  {
  }

  /** Where the loop of coremap_find_freeframes stands, or what it returned; Done(-1) is
      the failure. */
  datatype Scan = At(end: nat, beginning: int) | Done(result: int)

  const SCAN_START := At(0, -1)

  /** One round of the loop, with the test after it. */
  function ScanStep(cm: seq<Cm>, n: nat, p: Scan): Scan {
    match p
    case Done(_) => p
    case At(end, beginning) =>
      if end >= |cm| then Done(if end - beginning == n then beginning else -1)
      else if cm[end].used then At(end + cm[end].size, -1)
      else
        var b := if beginning == -1 then end else beginning;
        if end + 1 - b == n then Done(b) else At(end + 1, b)
  }

  /** Where the loop stands after k rounds. */
  function ScanAfter(cm: seq<Cm>, n: nat, k: nat): Scan {
    if k == 0 then SCAN_START else ScanStep(cm, n, ScanAfter(cm, n, k - 1))
  }

  /** The loop stands at a frame in use whose size is 0, and stays there. */
  predicate StuckAt(cm: seq<Cm>, p: Scan) { p.At? && p.end < |cm| && cm[p.end].used && cm[p.end].size == 0 }

  ghost predicate ScanEnds(cm: seq<Cm>, n: nat) { exists k :: ScanAfter(cm, n, k).Done? }

  /** What the scan comes to from p on: the result, or None if it never ends. */
  function ScanFrom(cm: seq<Cm>, n: nat, p: Scan): (r: Option<int>)
    decreases match p case Done(_) => 0 case At(end, _) => 1 + if end <= |cm| then |cm| + 1 - end else 0
  {
    if p.Done? then Some(p.result)
    else if StuckAt(cm, p) then None
    else if p.end >= |cm| then Some(ScanStep(cm, n, p).result)
    else ScanFrom(cm, n, ScanStep(cm, n, p))
  }

  /** coremap_find_freeframes. */
  function FindFree(cm: seq<Cm>, n: nat): Option<int> { ScanFrom(cm, n, SCAN_START) }

  lemma {:induction false} StaysDone(cm: seq<Cm>, n: nat, k: nat, j: nat)
    requires k <= j && (ScanAfter(cm, n, k).Done? || StuckAt(cm, ScanAfter(cm, n, k)))
    ensures ScanAfter(cm, n, k).Done? ==> ScanAfter(cm, n, j) == ScanAfter(cm, n, k)
    ensures ScanAfter(cm, n, k).At? ==> ScanAfter(cm, n, j).At? && StuckAt(cm, ScanAfter(cm, n, j))
  {
    if k < j { StaysDone(cm, n, k, j - 1); }
  }

  /** From the k-th position on, the loop gets to what ScanFrom says. */
  lemma {:induction false} ScanComes(cm: seq<Cm>, n: nat, k: nat) returns (j: nat)
    ensures k <= j
    ensures ScanFrom(cm, n, ScanAfter(cm, n, k)) ==
              if ScanAfter(cm, n, j).Done? then Some(ScanAfter(cm, n, j).result) else None
    ensures ScanAfter(cm, n, j).Done? || StuckAt(cm, ScanAfter(cm, n, j))
    decreases match ScanAfter(cm, n, k) case Done(_) => 0
      case At(end, _) => 1 + if end <= |cm| then |cm| + 1 - end else 0
  {
    var p := ScanAfter(cm, n, k);
    if p.Done? || StuckAt(cm, p) {
      j := k;
    } else {
      assert ScanAfter(cm, n, k + 1) == ScanStep(cm, n, p);
      if p.end >= |cm| { j := k + 1; } else { j := ScanComes(cm, n, k + 1); }
    }
  }

  /** The scan ends if and only if no frame it lands on is in use with size 0; and if it
      ends, it ends with what FindFree says. */
  lemma ScanEndsIff(cm: seq<Cm>, n: nat)
    ensures ScanEnds(cm, n) <==> forall k :: !StuckAt(cm, ScanAfter(cm, n, k))
    ensures ScanEnds(cm, n) <==> FindFree(cm, n).Some?
    ensures forall k :: ScanAfter(cm, n, k).Done? ==> FindFree(cm, n) == Some(ScanAfter(cm, n, k).result)
  {
    var j := ScanComes(cm, n, 0);
    assert ScanAfter(cm, n, 0) == SCAN_START;
    forall k ensures ScanAfter(cm, n, k).Done? ==> ScanAfter(cm, n, j) == ScanAfter(cm, n, k)
             ensures StuckAt(cm, ScanAfter(cm, n, k)) ==> !ScanAfter(cm, n, j).Done?
    {
      if k <= j {
        if ScanAfter(cm, n, k).Done? || StuckAt(cm, ScanAfter(cm, n, k)) { StaysDone(cm, n, k, j); }
      } else {
        StaysDone(cm, n, j, k);
      }
    }
  }

  // ------------------------------------------------- the scan on runs that do not overlap

  /** No run starting before `end` reaches past it. */
  ghost predicate Boundary(cm: seq<Cm>, end: nat) {
    forall h, i :: Covers(cm, h, i) && h < end ==> i < end
  }

  lemma NextBoundary(cm: seq<Cm>, end: nat)
    requires Laid(cm) && end < |cm| && Boundary(cm, end)
    ensures cm[end].used && cm[end].size > 0 ==> Boundary(cm, end + cm[end].size) && end + cm[end].size <= |cm|
    ensures cm[end].used && cm[end].size > 0 ==> forall i :: end <= i < end + cm[end].size ==> cm[i].used
    ensures cm[end].used && cm[end].size == 0 ==> Lost(cm, end)
    ensures !cm[end].used ==> Boundary(cm, end + 1)
  {
    if cm[end].used && cm[end].size > 0 {
      var next := end + cm[end].size;
      forall h, i | Covers(cm, h, i) && h < next ensures i < next {
        if end < h { assert Covers(cm, end, h); }
      }
      forall i | end <= i < next ensures cm[i].used { assert Covers(cm, end, i); }
    }
  }

  /** What holds where the loop stands: all before `end` is seen, and no n free frames
      start there but the ones being counted. */
  ghost predicate Seen(cm: seq<Cm>, n: nat, p: Scan) {
    && p.At? && p.end <= |cm| && -1 <= p.beginning < p.end && Boundary(cm, p.end)
    && (p.beginning >= 0 ==> FreeRange(cm, p.beginning, p.end - p.beginning) && p.end - p.beginning != n)
    && (n > 0 && p.beginning >= 0 ==> p.end - p.beginning < n)
    && (forall x :: 0 <= x < (if p.beginning == -1 then p.end else p.beginning) ==> !FreeRange(cm, x, n))
    && (forall i :: 0 <= i < p.end ==> !Lost(cm, i))
  }

  lemma SeenStep(cm: seq<Cm>, n: nat, p: Scan)
    requires Laid(cm) && Seen(cm, n, p) && p.end < |cm| && !StuckAt(cm, p)
    ensures var q := ScanStep(cm, n, p);
            if q.At? then Seen(cm, n, q)
            else q.result >= 0 && FreeRange(cm, q.result, n) && forall x :: 0 <= x < q.result ==> !FreeRange(cm, x, n)
  {
    NextBoundary(cm, p.end);
    if cm[p.end].used {
      SeenRun(cm, n, p);
    } else {
      SeenFree(cm, n, p);
    }
  }

  lemma SeenRun(cm: seq<Cm>, n: nat, p: Scan)
    requires Laid(cm) && Seen(cm, n, p) && p.end < |cm| && cm[p.end].used && cm[p.end].size > 0
    ensures Seen(cm, n, At(p.end + cm[p.end].size, -1))
  {
    NextBoundary(cm, p.end);
    var next := p.end + cm[p.end].size;
    forall x | 0 <= x < next ensures !FreeRange(cm, x, n) {
      assert x >= p.end ==> cm[x].used;
      assert 0 <= p.beginning <= x < p.end && n > 0 ==> x <= p.end < x + n && cm[p.end].used;
    }
    forall i | 0 <= i < next ensures !Lost(cm, i) {
      if i >= p.end { assert Covers(cm, p.end, i); }
    }
  }

  lemma SeenFree(cm: seq<Cm>, n: nat, p: Scan)
    requires Laid(cm) && Seen(cm, n, p) && p.end < |cm| && !cm[p.end].used
    ensures var q := ScanStep(cm, n, p);
            if q.At? then Seen(cm, n, q)
            else q.result >= 0 && FreeRange(cm, q.result, n) && forall x :: 0 <= x < q.result ==> !FreeRange(cm, x, n)
  {
    NextBoundary(cm, p.end);
  }

  /** The scan of non-overlapping runs from where it stands: it finds the least start of n
      free frames; or none, having seen the whole map, and then no frame is lost; or it
      never ends, at a lost frame. */
  lemma {:induction false} ScanLaid(cm: seq<Cm>, n: nat, p: Scan)
    requires Laid(cm) && Seen(cm, n, p)
    ensures var r := ScanFrom(cm, n, p);
            && (r.None? ==> exists i :: Lost(cm, i))
            && (r.Some? && r.value >= 0 ==> FirstFree(cm, n, 0) == Some(r.value))
            && (r.Some? && r.value < 0 ==> r.value == -1 && FirstFree(cm, n, 0).None? && Tiled(cm))
    decreases |cm| - p.end
  {
    if StuckAt(cm, p) {
      NextBoundary(cm, p.end);
      assert Lost(cm, p.end);
    } else if p.end == |cm| {
      assert forall x :: 0 <= x < |cm| ==> !FreeRange(cm, x, n);
      assert forall i :: 0 <= i < |cm| && cm[i].used ==> !Lost(cm, i);
    } else {
      SeenStep(cm, n, p);
      var q := ScanStep(cm, n, p);
      if q.At? { ScanLaid(cm, n, q); } else { FirstFreeIs(cm, n, q.result); }
    }
  }

  /** On a tiling the scan always ends, with the least start of n free frames or -1 when
      there is none; on any non-overlapping runs an answer it gives is right. */
  lemma FindFreeIs(cm: seq<Cm>, n: nat)
    requires Laid(cm)
    ensures var r := FindFree(cm, n);
            && (r.Some? ==> r.value >= -1 && FirstFree(cm, n, 0) == if r.value >= 0 then Some(r.value as nat) else None)
            && (r == Some(-1) ==> Tiled(cm))
            && (Tiled(cm) ==> r.Some?)
  {
    ScanLaid(cm, n, SCAN_START);
    if FindFree(cm, n).None? {
      var i :| Lost(cm, i);
      assert Tiled(cm) ==> Covered(cm, i);
    }
  }

  // ------------------------------------------------------- allocate and release

  /** The table update at the end of coremap_getppages. */
  function AllocRun(cm: seq<Cm>, f: nat, n: nat, owner: Option<EntryRef>): (r: seq<Cm>)
    ensures |r| == |cm|
    ensures forall i :: 0 <= i < |cm| ==> r[i] == Taken(cm[i], i == f, f <= i < f + n, n, owner)
  {
    seq(|cm|, i requires 0 <= i < |cm| => Taken(cm[i], i == f, f <= i < f + n, n, owner))
  }

  function Taken(c: Cm, head: bool, inside: bool, n: nat, owner: Option<EntryRef>): Cm {
    Cm(c.used || inside, if head then n else c.size, c.lock, if inside then owner else c.owner)
  }

  /** coremap_freeppages as one step. The owner field keeps its old value. */
  function ReleaseRun(cm: seq<Cm>, f: nat): (r: seq<Cm>)
    requires f < |cm|
    ensures |r| == |cm|
    ensures forall i :: 0 <= i < |cm| ==> r[i] == Released(cm[i], i == f, f <= i < f + cm[f].size)
  {
    seq(|cm|, i requires 0 <= i < |cm| => Released(cm[i], i == f, f <= i < f + cm[f].size))
  }

  function Released(c: Cm, head: bool, inside: bool): Cm {
    Cm(c.used && !inside, if head then 0 else c.size, c.lock, c.owner)
  }

  /** A new run covers its own frames and leaves the other runs as they were. */
  lemma AllocCovers(cm: seq<Cm>, f: nat, n: nat, owner: Option<EntryRef>, h: int, i: int)
    requires Laid(cm) && FreeRange(cm, f, n)
    ensures Covers(AllocRun(cm, f, n, owner), h, i) <==>
              if h == f then f <= i < f + n else Covers(cm, h, i)
  {
  }

  lemma AllocLaid(cm: seq<Cm>, f: nat, n: nat, owner: Option<EntryRef>)
    requires Laid(cm) && FreeRange(cm, f, n)
    ensures Laid(AllocRun(cm, f, n, owner))
    ensures forall i :: Lost(AllocRun(cm, f, n, owner), i) <==> Lost(cm, i)
  {
    var r := AllocRun(cm, f, n, owner);
    forall h, i | Covers(r, h, i) ensures r[i].used && (i > h ==> r[i].size == 0) {
      AllocCovers(cm, f, n, owner, h, i);
    }
    forall i ensures Lost(r, i) <==> Lost(cm, i) {
      AllocLost(cm, f, n, owner, i);
    }
  }

  lemma AllocLost(cm: seq<Cm>, f: nat, n: nat, owner: Option<EntryRef>, i: int)
    requires Laid(cm) && FreeRange(cm, f, n)
    ensures Lost(AllocRun(cm, f, n, owner), i) <==> Lost(cm, i)
  {
    var r := AllocRun(cm, f, n, owner);
    if f <= i < f + n {
      assert Covers(r, f, i);
    } else {
      forall h ensures Covers(r, h, i) <==> Covers(cm, h, i) { AllocCovers(cm, f, n, owner, h, i); }
    }
  }

  /** Taking n free frames keeps the tiling. */
  lemma AllocTiled(cm: seq<Cm>, f: nat, n: nat, owner: Option<EntryRef>)
    requires Tiled(cm) && FreeRange(cm, f, n)
    ensures Tiled(AllocRun(cm, f, n, owner))
  {
    AllocLaid(cm, f, n, owner);
    TiledIffNoneLost(cm);
    TiledIffNoneLost(AllocRun(cm, f, n, owner));
  }

  lemma TiledIffNoneLost(cm: seq<Cm>)
    requires Laid(cm)
    ensures Tiled(cm) <==> forall i :: !Lost(cm, i)
  {
    if forall i :: !Lost(cm, i) {
      forall i | 0 <= i < |cm| && cm[i].used ensures Covered(cm, i) { assert !Lost(cm, i); }
    }
  }

  /** Recording a request of at most one page on a victim's frame: for one page nothing
      changes hands; for none, the frame is lost. */
  lemma ReuseLaid(cm: seq<Cm>, f: nat, n: nat, owner: Option<EntryRef>)
    requires Laid(cm) && f < |cm| && cm[f].used && cm[f].size == 1 && n <= 1
    ensures Laid(AllocRun(cm, f, n, owner))
    ensures forall i :: Lost(AllocRun(cm, f, n, owner), i) <==> Lost(cm, i) || (i == f && n == 0)
  {
    var r := AllocRun(cm, f, n, owner);
    assert forall h, i :: Covers(r, h, i) <==> Covers(cm, h, i) && (n == 1 || h != f);
    forall i ensures Lost(r, i) <==> Lost(cm, i) || (i == f && n == 0) {
      if i != f {
        assert forall h :: Covers(cm, h, i) ==> h != f;
      } else {
        assert Covers(cm, f, f);
        assert forall h :: Covers(cm, h, f) ==> h == f;
        if n == 1 { assert Covers(r, f, f); }
      }
    }
  }

  /** Recording a request of at most one page on a victim's frame keeps the tiling if and
      only if it is for one page. */
  lemma ReuseTiledIff(cm: seq<Cm>, f: nat, n: nat, owner: Option<EntryRef>)
    requires Tiled(cm) && f < |cm| && cm[f].used && cm[f].size == 1 && n <= 1
    ensures Tiled(AllocRun(cm, f, n, owner)) <==> n == 1
  {
    ReuseLaid(cm, f, n, owner);
    TiledIffNoneLost(cm);
    TiledIffNoneLost(AllocRun(cm, f, n, owner));
    assert n == 0 ==> Lost(AllocRun(cm, f, n, owner), f);
  }

  /** Releasing the run at a head removes that run and no other. */
  lemma ReleaseCovers(cm: seq<Cm>, f: nat, h: int, i: int)
    requires Laid(cm) && f < |cm| && cm[f].size > 0
    ensures Covers(ReleaseRun(cm, f), h, i) <==> h != f && Covers(cm, h, i)
  {
  }

  lemma ReleaseLaid(cm: seq<Cm>, f: nat)
    requires Laid(cm) && f < |cm| && cm[f].size > 0
    ensures Laid(ReleaseRun(cm, f))
    ensures forall i :: Lost(ReleaseRun(cm, f), i) <==> Lost(cm, i)
  {
    var r := ReleaseRun(cm, f);
    forall h, i | Covers(r, h, i) ensures r[i].used && (i > h ==> r[i].size == 0) {
      ReleaseCovers(cm, f, h, i);
      RunsDisjoint(cm, f, h, i);
    }
    forall i | 0 <= i < |r| && !r[i].used ensures r[i].size == 0 {
      if cm[i].used { assert Covers(cm, f, i); }
    }
    forall i ensures Lost(r, i) <==> Lost(cm, i) { ReleaseLost(cm, f, i); }
  }

  lemma ReleaseLost(cm: seq<Cm>, f: nat, i: int)
    requires Laid(cm) && f < |cm| && cm[f].size > 0
    ensures Lost(ReleaseRun(cm, f), i) <==> Lost(cm, i)
  {
    if 0 <= i < |cm| && cm[i].used {
      if Covers(cm, f, i) {
        assert Covered(cm, i);
      } else {
        forall h ensures Covers(ReleaseRun(cm, f), h, i) <==> Covers(cm, h, i) { ReleaseCovers(cm, f, h, i); }
      }
    }
  }

  lemma ReleaseTiled(cm: seq<Cm>, f: nat)
    requires Tiled(cm) && f < |cm| && cm[f].size > 0
    ensures Tiled(ReleaseRun(cm, f))
  {
    ReleaseLaid(cm, f);
    TiledIffNoneLost(cm);
    TiledIffNoneLost(ReleaseRun(cm, f));
  }

  lemma RunsDisjoint(cm: seq<Cm>, f: nat, h: nat, i: nat)
    requires Laid(cm) && Covers(cm, h, i) && f < |cm| && cm[f].size > 0 && f != h
    ensures !Covers(cm, f, i)
  {
    if Covers(cm, f, i) {
      if f < h { assert Covers(cm, f, h); } else { assert Covers(cm, h, f); }
    }
  }

  // -------------------------------------------------------------- victim search

  /** A frame coremap_get_victim may return. */
  predicate Eligible(e: Cm) { e.owner.Some? && !e.lock }

  /** The k-th frame, k at least 1, met going round from `v`. */
  function Around(n: nat, v: nat, k: nat): (r: nat)
    requires v < n && k <= n
    ensures r < n
  {
    if v + k < n then v + k else v + k - n
  }

  /** The first eligible frame going round from `v`, not looking before step k. */
  function NextVictim(cm: seq<Cm>, v: nat, k: nat): (r: Option<nat>)
    requires v < |cm|
    ensures r.Some? ==> r.value < |cm| && Eligible(cm[r.value])
    decreases |cm| + 1 - k
  {
    if k > |cm| then None
    else if Eligible(cm[Around(|cm|, v, k)]) then Some(Around(|cm|, v, k))
    else NextVictim(cm, v, k + 1)
  }

  /** How far round `g` is from `v`: between 1 and n. */
  function Distance(n: nat, v: nat, g: nat): (d: nat)
    requires v < n && g < n
    ensures 1 <= d <= n && Around(n, v, d) == g
  {
    if g > v then g - v else g - v + n
  }

  /** No victim exactly when no frame is eligible. */
  lemma NoVictimIffNoneEligible(cm: seq<Cm>, v: nat)
    requires v < |cm|
    ensures NextVictim(cm, v, 1).None? <==> forall g :: 0 <= g < |cm| ==> !Eligible(cm[g])
  {
    forall g | 0 <= g < |cm| && Eligible(cm[g]) ensures NextVictim(cm, v, 1).Some? {
      VictimNotBeyond(cm, v, 1, g);
    }
  }

  /** The victim is no further round than any eligible frame. */
  lemma {:induction false} VictimNotBeyond(cm: seq<Cm>, v: nat, k: nat, g: nat)
    requires v < |cm| && g < |cm| && Eligible(cm[g]) && 1 <= k <= Distance(|cm|, v, g)
    ensures var r := NextVictim(cm, v, k);
            r.Some? && k <= Distance(|cm|, v, r.value) <= Distance(|cm|, v, g)
    decreases |cm| + 1 - k
  {
    if Eligible(cm[Around(|cm|, v, k)]) {
      DistanceOfAround(|cm|, v, k);
    } else {
      VictimNotBeyond(cm, v, k + 1, g);
    }
  }

  lemma DistanceOfAround(n: nat, v: nat, k: nat)
    requires v < n && 1 <= k <= n
    ensures Distance(n, v, Around(n, v, k)) == k
  {
  }

  /** A history of choices: each is the victim found from the one before it in
      the map of that moment. */
  ghost predicate Choices(cms: seq<seq<Cm>>, cs: seq<nat>) {
    && |cs| == |cms| + 1
    && forall t {:trigger ChoiceAt(cms, cs, t)} :: 0 <= t < |cms| ==> ChoiceAt(cms, cs, t)
  }

  ghost predicate ChoiceAt(cms: seq<seq<Cm>>, cs: seq<nat>, t: int)
    requires 0 <= t < |cms| && |cs| == |cms| + 1
  {
    |cms[t]| == |cms[0]| && cs[t] < |cms[t]| && NextVictim(cms[t], cs[t], 1) == Some(cs[t + 1])
  }

  ghost predicate EligibleThroughout(cms: seq<seq<Cm>>, g: nat) {
    forall t :: 0 <= t < |cms| ==> g < |cms[t]| && Eligible(cms[t][g])
  }

  /** While `g` stays eligible and is not chosen, every choice is nearer to it. */
  lemma {:induction false} ApproachesEligible(cms: seq<seq<Cm>>, cs: seq<nat>, g: nat, t: nat)
    requires Choices(cms, cs) && EligibleThroughout(cms, g) && |cms| > 0
    requires 0 < t <= |cms| && forall i :: 0 < i <= t ==> cs[i] != g
    ensures cs[t] < |cms[0]| && cs[0] < |cms[0]| && g < |cms[0]|
    ensures Distance(|cms[0]|, cs[t], g) < Distance(|cms[0]|, cs[0], g)
  {
    if t > 1 { ApproachesEligible(cms, cs, g, t - 1); }
    assert ChoiceAt(cms, cs, 0) && ChoiceAt(cms, cs, t - 1) && g < |cms[t - 1]|;
    VictimNotBeyond(cms[t - 1], cs[t - 1], 1, g);
  }

  /** Round robin, first half: between two choices of `f`, every other frame that
      stays eligible is chosen. */
  lemma RoundRobinAtLeastOnce(cms: seq<seq<Cm>>, cs: seq<nat>, f: nat, g: nat)
    requires Choices(cms, cs) && |cms| > 0 && f != g
    requires cs[0] == f && cs[|cms|] == f
    requires EligibleThroughout(cms, g)
    ensures exists t :: 0 < t < |cms| && cs[t] == g
  {
    if forall t :: 0 < t < |cms| ==> cs[t] != g {
      ApproachesEligible(cms, cs, g, |cms|);
    }
  }

  /** Going on from c to d, the hand passes f without choosing it. */
  predicate Passes(n: nat, c: nat, d: nat, f: nat)
    requires c < n && d < n && f < n
  {
    Distance(n, c, f) < Distance(n, c, d)
  }

  /** The hand passes only frames that are not eligible at that moment. */
  lemma PassedIsIneligible(cm: seq<Cm>, c: nat, d: nat, f: nat)
    requires c < |cm| && d < |cm| && f < |cm| && NextVictim(cm, c, 1) == Some(d) && Passes(|cm|, c, d, f)
    ensures !Eligible(cm[f])
  {
    if Eligible(cm[f]) { VictimNotBeyond(cm, c, 1, f); }
  }

  /** How often g is chosen in the first t choices. */
  function Times(cs: seq<nat>, g: nat, t: nat): nat
    requires t < |cs|
  {
    if t == 0 then 0 else Times(cs, g, t - 1) + (if cs[t] == g then 1 else 0)
  }

  predicate Below(cs: seq<nat>, n: nat) { forall t :: 0 <= t < |cs| ==> cs[t] < n }

  /** How often the hand passes f, unchosen, in the first t choices. */
  function Skips(n: nat, cs: seq<nat>, f: nat, t: nat): nat
    requires t < |cs| && Below(cs, n) && f < n
  {
    if t == 0 then 0 else Skips(n, cs, f, t - 1) + (if Passes(n, cs[t - 1], cs[t], f) then 1 else 0)
  }

  /** How far round from f a frame is, f itself being at the start. */
  function FromStart(n: nat, f: nat, x: nat): nat
    requires f < n && x < n
  {
    if x == f then 0 else Distance(n, f, x)
  }

  lemma ChoicesBelow(cms: seq<seq<Cm>>, cs: seq<nat>)
    requires Choices(cms, cs) && |cms| > 0
    ensures Below(cs, |cms[0]|)
  {
    forall t | 0 <= t < |cs| ensures cs[t] < |cms[0]| {
      if t > 0 { assert ChoiceAt(cms, cs, t - 1); } else { assert ChoiceAt(cms, cs, 0); }
    }
  }

  /** One choice: where the hand is in its turn from f, and whether it met g. */
  lemma OneChoice(n: nat, c: nat, d: nat, f: nat, g: nat)
    requires c < n && d < n && f < n && g < n && f != g && d != f && Distance(n, c, d) <= Distance(n, c, g)
    ensures var was, now := FromStart(n, f, c) >= FromStart(n, f, g), FromStart(n, f, d) >= FromStart(n, f, g);
            && (Passes(n, c, d, f) ==> was && (now <==> d == g))
            && (!Passes(n, c, d, f) ==> (was ==> now && d != g) && (!was ==> (now <==> d == g)))
  {
  }

  /** While f is not chosen, g has been met once for every time the hand passed f, and once
      more if the hand is at or past g in the present turn. */
  lemma {:induction false} TurnCount(cms: seq<seq<Cm>>, cs: seq<nat>, f: nat, g: nat, t: nat)
    requires Choices(cms, cs) && t <= |cms| && |cms| > 0 && cs[0] == f && f != g && EligibleThroughout(cms, g)
    requires forall i :: 0 < i <= t ==> cs[i] != f
    ensures Below(cs, |cms[0]|) && f < |cms[0]| && g < |cms[0]|
    ensures Times(cs, g, t) == Skips(|cms[0]|, cs, f, t)
                               + (if FromStart(|cms[0]|, f, cs[t]) >= FromStart(|cms[0]|, f, g) then 1 else 0)
  {
    ChoicesBelow(cms, cs);
    assert g < |cms[0]|;
    if t > 0 {
      TurnCount(cms, cs, f, g, t - 1);
      assert ChoiceAt(cms, cs, t - 1) && g < |cms[t - 1]|;
      VictimNotBeyond(cms[t - 1], cs[t - 1], 1, g);
      OneChoice(|cms[0]|, cs[t - 1], cs[t], f, g);
    }
  }

  /** Round robin, in full: between two successive choices of f, a frame that stays
      eligible is chosen once, and once more for every time the hand passes f. */
  lemma RoundRobinCount(cms: seq<seq<Cm>>, cs: seq<nat>, f: nat, g: nat)
    requires Choices(cms, cs) && |cms| > 0 && f != g && EligibleThroughout(cms, g)
    requires cs[0] == f && cs[|cms|] == f && forall t :: 0 < t < |cms| ==> cs[t] != f
    ensures Below(cs, |cms[0]|) && f < |cms[0]|
    ensures Times(cs, g, |cms|) == 1 + Skips(|cms[0]|, cs, f, |cms|)
  {
    var t := |cms| - 1;
    TurnCount(cms, cs, f, g, t);
    assert ChoiceAt(cms, cs, t) && g < |cms[t]|;
    VictimNotBeyond(cms[t], cs[t], 1, g);
  }

  /** So it is chosen exactly once if and only if the hand never passes f, which it does
      only while f is not eligible. */
  lemma ChosenOnceIff(cms: seq<seq<Cm>>, cs: seq<nat>, f: nat, g: nat)
    requires Choices(cms, cs) && |cms| > 0 && f != g && EligibleThroughout(cms, g)
    requires cs[0] == f && cs[|cms|] == f && forall t :: 0 < t < |cms| ==> cs[t] != f
    ensures Below(cs, |cms[0]|) && f < |cms[0]|
    ensures Times(cs, g, |cms|) == 1 <==> forall t :: 0 <= t < |cms| ==> !Passes(|cms[0]|, cs[t], cs[t + 1], f)
    ensures forall t :: 0 <= t < |cms| && Passes(|cms[0]|, cs[t], cs[t + 1], f) ==> f < |cms[t]| && !Eligible(cms[t][f])
  {
    RoundRobinCount(cms, cs, f, g);
    NoSkips(|cms[0]|, cs, f, |cms|);
    forall t | 0 <= t < |cms| && Passes(|cms[0]|, cs[t], cs[t + 1], f) ensures f < |cms[t]| && !Eligible(cms[t][f]) {
      assert ChoiceAt(cms, cs, t);
      PassedIsIneligible(cms[t], cs[t], cs[t + 1], f);
    }
  }

  /** A choice that neither is f nor passes it is further on in the turn from f. */
  lemma {:induction false} FurtherOn(n: nat, cs: seq<nat>, f: nat, a: nat, b: nat)
    requires Below(cs, n) && f < n && a < b < |cs|
    requires forall t :: a < t <= b ==> cs[t] != f
    requires forall t :: a <= t < b ==> !Passes(n, cs[t], cs[t + 1], f)
    ensures FromStart(n, f, cs[a]) < FromStart(n, f, cs[b])
    decreases b
  {
    assert !Passes(n, cs[b - 1], cs[b - 1 + 1], f);
    if a < b - 1 { FurtherOn(n, cs, f, a, b - 1); }
  }

  /** And while the hand neither chooses nor passes f, no frame at all, eligible throughout
      or not, is chosen twice. */
  lemma RoundRobinAtMostOnce(cms: seq<seq<Cm>>, cs: seq<nat>, f: nat, g: nat, a: nat, b: nat)
    requires Choices(cms, cs) && |cms| > 0 && Below(cs, |cms[0]|) && f < |cms[0]|
    requires forall t :: 0 < t < |cms| ==> cs[t] != f
    requires forall t :: 0 <= t < |cms| - 1 ==> !Passes(|cms[0]|, cs[t], cs[t + 1], f)
    requires 0 < a <= b < |cms| && cs[a] == g && cs[b] == g
    ensures a == b
  {
    if a < b { FurtherOn(|cms[0]|, cs, f, a, b); }
  }

  lemma {:induction false} NoSkips(n: nat, cs: seq<nat>, f: nat, t: nat)
    requires t < |cs| && Below(cs, n) && f < n
    ensures Skips(n, cs, f, t) == 0 <==> forall i :: 0 <= i < t ==> !Passes(n, cs[i], cs[i + 1], f)
  {
    if t > 0 { NoSkips(n, cs, f, t - 1); }
  }

  /** f is chosen at a and next at b, and g is eligible at every choice in between. */
  ghost predicate BetweenChoices(cms: seq<seq<Cm>>, cs: seq<nat>, a: nat, b: nat, f: nat, g: nat) {
    && |cs| == |cms| + 1 && a < b <= |cms| && f != g && EligibleThroughout(cms[a..b], g)
    && cs[a] == f && cs[b] == f && forall t :: a < t < b ==> cs[t] != f
  }

  lemma ChoicesSlice(cms: seq<seq<Cm>>, cs: seq<nat>, a: nat, b: nat, f: nat, g: nat, cms': seq<seq<Cm>>, cs': seq<nat>)
    requires Choices(cms, cs) && BetweenChoices(cms, cs, a, b, f, g) && cms' == cms[a..b] && cs' == cs[a..b + 1]
    ensures Choices(cms', cs') && cs'[0] == f && cs'[b - a] == f && forall t :: 0 < t < b - a ==> cs'[t] != f
    ensures |cms'[0]| == |cms[0]|
  {
    assert ChoiceAt(cms, cs, a);
    forall t | 0 <= t < |cms'| ensures ChoiceAt(cms', cs', t) { assert ChoiceAt(cms, cs, a + t); }
  }

  /** Over these choices g is chosen once, and once more for every time the hand passes f;
      so exactly once if and only if it never does. */
  ghost predicate OncePerTurn(n: nat, cs: seq<nat>, f: nat, g: nat) {
    && |cs| > 0 && Below(cs, n) && f < n && Times(cs, g, |cs| - 1) == 1 + Skips(n, cs, f, |cs| - 1)
    && (Times(cs, g, |cs| - 1) == 1 <==> forall t :: 0 <= t < |cs| - 1 ==> !Passes(n, cs[t], cs[t + 1], f))
  }

  lemma RoundRobinBetween(cms: seq<seq<Cm>>, cs: seq<nat>, n: nat, a: nat, b: nat, f: nat, g: nat)
    requires Choices(cms, cs) && BetweenChoices(cms, cs, a, b, f, g) && |cms[0]| == n
    ensures OncePerTurn(n, cs[a..b + 1], f, g)
  {
    ChoicesSlice(cms, cs, a, b, f, g, cms[a..b], cs[a..b + 1]);
    RoundRobinCount(cms[a..b], cs[a..b + 1], f, g);
    ChosenOnceIff(cms[a..b], cs[a..b + 1], f, g);
  }

  /** It can fail: frame 1 is the kernel's from its first choice until it is freed, and a
      process takes it again; frame 2, with another page of the process each time, is chosen
      twice between the two choices of frame 1. */
  lemma ChosenTwice(a: EntryRef, b: EntryRef, c: EntryRef)
    requires a != b && b != c && a != c
    ensures var cms := [[BootCm, BootCm, UserCm(b)], [BootCm, BootCm, UserCm(c)], [BootCm, UserCm(b), UserCm(a)]];
            var cs := [1, 2, 2, 1];
            && Choices(cms, cs) && EligibleThroughout(cms, 2) && Times(cs, 2, 3) == 2
            && (forall t :: 0 < t < 3 ==> cs[t] != 1)
  {
    var m0, m1, m2 := [BootCm, BootCm, UserCm(b)], [BootCm, BootCm, UserCm(c)], [BootCm, UserCm(b), UserCm(a)];
    var cms, cs := [m0, m1, m2], [1, 2, 2, 1];
    assert NextVictim(m1, 2, 3) == NextVictim(m1, 2, 2) == Some(2);
    assert NextVictim(m2, 2, 2) == Some(1);
    assert ChoiceAt(cms, cs, 0) && ChoiceAt(cms, cs, 1) && ChoiceAt(cms, cs, 2);
    assert Times(cs, 2, 1) == 1;
    assert Times(cs, 2, 2) == 2;
  }
}
