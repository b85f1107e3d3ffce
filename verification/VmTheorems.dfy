/** What the invariant means after any run from boot: who owns each frame and swap slot,
    what the TLB holds, that dropping text loses nothing, and exactly when a fault fails. */
module VmTheorems {
  import opened Common
  import opened AddressSpace
  import opened Coremap
  import opened VmState
  import opened VmInvariant
  import opened VmSteps
  import opened VmDestroy
  import opened VmRuns
  import opened VmHistory

  /** s is reached from boot. */
  ghost predicate Reached(s: Vm) {
    exists s0: Vm, evs: seq<Event> :: BootState(s0) && RunsTo(s0, evs, s)
  }

  ghost predicate RunsTo(s0: Vm, evs: seq<Event>, s: Vm) { Inv(s0) && Run(s0, evs) == Some(s) }

  lemma ReachedInv(s: Vm)
    requires Reached(s)
    ensures Inv(s)
  {
    var s0: Vm, evs: seq<Event> :| BootState(s0) && RunsTo(s0, evs, s);
  }

  lemma ReachedFacts(s: Vm)
    requires Reached(s)
    ensures Inv(s) && LostOwned(s.cm) && Stale(s)
  {
    var s0: Vm, evs: seq<Event> :| BootState(s0) && RunsTo(s0, evs, s);
    RunFacts(s0, evs);
  }

  ghost predicate InMemoryAt(s: Vm, e: EntryRef, f: int) {
    HasEntry(s, e) && Entry(s, e).Resident() && Entry(s, e).frame == f
  }

  /** A run's head names an entry exactly when the entry is in memory at that frame. */
  lemma FrameNamesEntryIff(s: Vm, f: nat, e: EntryRef)
    requires Reached(s) && f < |s.cm|
    ensures (Owned(s.cm[f]) && s.cm[f].owner == Some(e)) <==> InMemoryAt(s, e, f)
  {
    ReachedInv(s);
    if Owned(s.cm[f]) && s.cm[f].owner == Some(e) { assert FrameNames(s, f); }
    if HasEntry(s, e) && Entry(s, e).Resident() { assert EntryNames(s, NO_FRAME, e); }
  }

  /** Every frame in use names an entry exactly when the entry is in memory at that frame. */
  ghost predicate OwnersExact(s: Vm) {
    forall f, e {:trigger InMemoryAt(s, e, f)} :: 0 <= f < |s.cm| ==>
      ((s.cm[f].used && s.cm[f].owner == Some(e)) <==> InMemoryAt(s, e, f))
  }

  /** That holds if and only if the frames in use are a tiling. */
  lemma OwnersExactIffTiled(s: Vm)
    requires Reached(s)
    ensures OwnersExact(s) <==> Tiled(s.cm)
  {
    ReachedFacts(s);
    if Tiled(s.cm) {
      forall f, e | 0 <= f < |s.cm| ensures (s.cm[f].used && s.cm[f].owner == Some(e)) <==> InMemoryAt(s, e, f) {
        FrameNamesEntryIff(s, f, e);
        if s.cm[f].used && s.cm[f].owner == Some(e) { TiledHead(s.cm, f); }
      }
    } else {
      TiledIffNoneLost(s.cm);
      var f :| Lost(s.cm, f);
      assert s.cm[f].size > 0 ==> Covers(s.cm, f, f);
      var e := s.cm[f].owner.value;
      FrameNamesEntryIff(s, f, e);
    }
  }

  /** In a tiling a frame in use with an owner is a head. */
  lemma TiledHead(cm: seq<Cm>, f: nat)
    requires Tiled(cm) && InsideUnowned(cm) && f < |cm| && cm[f].used && cm[f].owner.Some?
    ensures Owned(cm[f])
  {
    assert Covered(cm, f);
    var h :| Covers(cm, h, f);
  }

  /** And so, after a run from boot, if and only if nobody asked for no pages in it. */
  lemma OwnersExactIff(s0: Vm, evs: seq<Event>)
    requires BootState(s0) && Inv(s0) && Run(s0, evs).Some?
    ensures OwnersExact(Run(s0, evs).value) <==> KernelAlloc(0) !in evs
  {
    var s := Run(s0, evs).value;
    assert RunsTo(s0, evs, s);
    OwnersExactIffTiled(s);
    TiledIffNoZeroRequest(s0, evs);
  }

  /** A swap bit is set exactly when an entry is in that slot, and then one entry only. */
  lemma SlotTakenIff(s: Vm, k: nat, e: EntryRef, o: EntryRef)
    requires Reached(s) && k < |s.swapmap|
    ensures s.swapmap[k] <==> Occupied(s, k)
    ensures InSwapAt(s, e, k) && InSwapAt(s, o, k) ==> e == o
  {
    ReachedInv(s);
    if Occupied(s, k) { var x :| InSwapAt(s, x, k); }
  }

  /** From the activation of a space until it is destroyed, running or not, every valid TLB
      slot is a page of it, at the frame its table says, writable exactly when it is not
      text; before and after, no valid slot holds a page of any process. */
  lemma TlbTrue(s0: Vm, evs: seq<Event>, s: Vm, i: nat)
    requires BootState(s0) && RunsTo(s0, evs, s) && i < |s.tlb| && s.tlb[i].valid
    ensures match LastActivated(evs)
            case User(id) => s.mapped == User(id) && id in s.spaces && SlotAgrees(s, NO_FRAME, s.tlb[i])
            case KernelOnly => s.tlb[i].frame < |s.cm| ==> !Owned(s.cm[s.tlb[i].frame])
  {
    RunFacts(s0, evs);
  }

  /** In that time no two valid slots share a page or a frame. */
  lemma TlbSlotsApart(s0: Vm, evs: seq<Event>, s: Vm, i: nat, j: nat)
    requires BootState(s0) && RunsTo(s0, evs, s) && LastActivated(evs).User?
    requires i < j < |s.tlb| && s.tlb[i].valid && s.tlb[j].valid
    ensures s.tlb[i].vpage != s.tlb[j].vpage && s.tlb[i].frame != s.tlb[j].frame
  {
    RunFacts(s0, evs);
    TlbFramesDistinct(s, NO_FRAME, i, j);
  }

  /** After an eviction, whoever was activated last, no valid slot holds the frame. */
  lemma EvictionClearsTlb(s: Vm, i: nat)
    requires Reached(s) && Shape(s) && SwapoutOne(s).Some? && i < |s.tlb|
    ensures var (t, f) := SwapoutOne(s).value; i < |t.tlb| && (t.tlb[i].valid ==> t.tlb[i].frame != f)
  {
    ReachedFacts(s);
    var (t, f) := SwapoutOne(s).value;
    if s.mapped.User? {
      SwapoutSound(s, 1);
      assert t.tlb[i].valid ==> SlotAgrees(t, f, t.tlb[i]);
    } else {
      assert s.tlb[i].valid ==> s.tlb[i].frame != f;
    }
  }

  /** Text is in memory read-only or not loaded, never in swap; and dropping a text frame and
      loading it again, for whichever byte faults, always works and gives back its bytes. */
  lemma DroppingTextLosesNothing(s: Vm, e: EntryRef, va: nat)
    requires Reached(s) && HasEntry(s, e) && SegmentTypeOf(s.spaces[e.id], va) == Some(Text)
    requires e.idx == PtIndex(s.spaces[e.id], va)
    ensures Entry(s, e).status == NotLoaded || Entry(s, e).status == InMemoryRdonly
    ensures var sp := s.spaces[e.id];
            && WfSegments(sp) && Within(sp.text, va)
            && (Entry(s, e).Resident() ==>
                  && Entry(s, e).frame < |s.ram|
                  && FirstContents(sp.text, false, sp.elf, va) == Some(s.ram[Entry(s, e).frame]))
  {
    ReachedInv(s);
    var sp := s.spaces[e.id];
    assert WfSpace(sp);
    PtIndexInSegment(sp, va);
    assert TextEntryOk(s, e);
    if Entry(s, e).Resident() {
      assert EntryNames(s, NO_FRAME, e);
      LoadsIffInFile(sp.text, false, sp.elf, va);
      LoadedPageIsImage(sp.text, false, sp.elf, va);
    }
  }

  lemma LayoutTwice(s: Vm, m: Vm, ev: Event, id: int, t: Vm)
    requires Inv(m) && Step(m, ev) == Some(t) && ev != Reap(id) && id in s.spaces && id in m.spaces
    requires SameLayout(s.spaces[id], m.spaces[id])
    ensures id in t.spaces && SameLayout(s.spaces[id], t.spaces[id])
  {
    StepLayout(m, ev, id);
  }

  lemma {:induction false} RunLayout(s: Vm, evs: seq<Event>, id: int)
    requires Inv(s) && Run(s, evs).Some? && id in s.spaces && Reap(id) !in evs
    ensures var t := Run(s, evs).value; id in t.spaces && SameLayout(s.spaces[id], t.spaces[id])
  {
    if evs != [] {
      var m := RunSplit(s, evs);
      var before, ev := evs[..|evs| - 1], evs[|evs| - 1];
      RunLayout(s, before, id);
      LayoutTwice(s, m, ev, id, Run(s, evs).value);
    }
  }

  /** A text page that has once been in memory can be loaded at any later time, so a fault
      on it fails only for want of memory: the file being short is never why. */
  lemma OnceLoadedNeverShort(s: Vm, evs: seq<Event>, e: EntryRef, va: nat)
    requires Reached(s) && HasEntry(s, e) && SegmentTypeOf(s.spaces[e.id], va) == Some(Text)
    requires e.idx == PtIndex(s.spaces[e.id], va) && Entry(s, e).Resident()
    requires Inv(s) && Run(s, evs).Some? && Reap(e.id) !in evs
    ensures var t := Run(s, evs).value;
            && HasEntry(t, e) && SegmentTypeOf(t.spaces[e.id], va) == Some(Text) && WfSegments(t.spaces[e.id])
            && Within(t.spaces[e.id].text, va) && !FileShort(t.spaces[e.id], Text, va)
            && FirstContents(t.spaces[e.id].text, false, t.spaces[e.id].elf, va) == Some(s.ram[Entry(s, e).frame])
  {
    DroppingTextLosesNothing(s, e, va);
    RunLayout(s, evs, e.id);
  }

  // --------------------------------------------------------------- when a fault fails

  /** No frame is free, and the frame whose turn it is cannot be given up: there is none,
      or its page is not text and every swap slot is taken. */
  ghost predicate Exhausted(s: Vm)
    requires Shape(s)
  {
    && (forall f :: 0 <= f < |s.cm| ==> s.cm[f].used)
    && (var v := NextVictim(s.cm, s.victim, 1);
        v.None? || (VictimDirty(s, v.value) && forall k :: 0 <= k < |s.swapmap| ==> s.swapmap[k]))
  }

  ghost predicate VictimDirty(s: Vm, f: nat) {
    && f < |s.cm| && s.cm[f].owner.Some?
    && HasEntry(s, s.cm[f].owner.value) && Entry(s, s.cm[f].owner.value).status != InMemoryRdonly
  }

  /** No frame can be had. */
  ghost predicate NoFrame(s: Vm)
    requires Shape(s)
  {
    !ScanEnds(s.cm, 1) || Exhausted(s)
  }

  /** A request for one page fails exactly when memory and swap are exhausted, or the scan
      for a free frame never ends, which it does on a tiling. */
  lemma OnePageFailsIff(s: Vm, owner: Option<EntryRef>)
    requires Inv(s)
    ensures GetPages(s, 1, owner).None? <==> NoFrame(s)
    ensures Tiled(s.cm) ==> ScanEnds(s.cm, 1)
  {
    ScanEndsIff(s.cm, 1);
    FindFreeIs(s.cm, 1);
    var b := FirstFree(s.cm, 1, 0);
    if b.Some? {
      ClaimableApart(s, NO_FRAME, b.value, 1);
      assert FreeRange(s.cm, b.value, 1);
      assert !s.cm[b.value].used;
    } else if FindFree(s.cm, 1).Some? {
      assert forall f :: 0 <= f < |s.cm| ==> s.cm[f].used || FreeRange(s.cm, f, 1);
      if NextVictim(s.cm, s.victim, 1).Some? { VictimFailsIff(s); }
    }
  }

  lemma VictimFailsIff(s: Vm)
    requires Inv(s) && FindFree(s.cm, 1) == Some(-1) && NextVictim(s.cm, s.victim, 1).Some?
    ensures var f := NextVictim(s.cm, s.victim, 1).value;
            && f > 0
            && (SwapoutOne(s).None? <==> VictimDirty(s, f) && forall k :: 0 <= k < |s.swapmap| ==> s.swapmap[k])
            && (SwapoutOne(s).Some? ==> SwapoutOne(s).value.1 == f)
  {
    VictimIsEvictable(s);
    var f := NextVictim(s.cm, s.victim, 1).value;
    assert FrameNames(s, f);
    assert s.(victim := f).cm[f] == s.cm[f];
  }

  /** The program's file is too short to load the page from. */
  predicate FileShort(sp: Space, ty: SegmentType, va: nat)
    requires WfSegment(SegmentOf(sp, ty)) && Within(SegmentOf(sp, ty), va)
  {
    FirstContents(SegmentOf(sp, ty), ty == Stack, sp.elf, va).None?
  }

  lemma ResidentFailsIff(s: Vm, e: EntryRef, ty: SegmentType, va: nat)
    requires Inv(s) && HasEntry(s, e) && Within(SegmentOf(s.spaces[e.id], ty), va)
    ensures MakeResident(s, e, ty, va).None? <==>
              !Entry(s, e).Resident() && (NoFrame(s) || (Entry(s, e).status == NotLoaded &&
                FileShort(s.spaces[e.id], ty, va)))
  {
    OnePageFailsIff(s, Some(e));
    match Entry(s, e).status
    case NotLoaded => LoadFails(s, e, ty, va);
    case InSwap => SwapFails(s, e, ty);
    case _ =>
  }

  lemma SwapFails(s: Vm, e: EntryRef, ty: SegmentType)
    requires Inv(s) && HasEntry(s, e) && Entry(s, e).status == InSwap
    ensures FaultSwapIn(s, e, ty).None? <==> GetPages(s, 1, Some(e)).None?
  {
    if GetPages(s, 1, Some(e)).Some? { SwapInWorks(s, e); }
  }

  lemma LoadFails(s: Vm, e: EntryRef, ty: SegmentType, va: nat)
    requires Shape(s) && HasEntry(s, e) && Within(SegmentOf(s.spaces[e.id], ty), va)
    ensures FaultLoad(s, e, ty, va).None? <==> GetPages(s, 1, Some(e)).None? || FileShort(s.spaces[e.id], ty, va)
  {
  }

  /** vm_fault inside a segment panics, or never returns, exactly when the page is not in
      memory and no frame can be had, or the program's file is too short to load it from. */
  lemma FaultPanicsIff(s: Vm, kind: FaultType, va: nat, e: EntryRef, ty: SegmentType)
    requires Reached(s) && (kind == FaultRead || kind == FaultWrite) && s.cur == User(e.id) && e.id in s.spaces
    requires SegmentTypeOf(s.spaces[e.id], va) == Some(ty) && e.idx == PtIndex(s.spaces[e.id], va)
    ensures Shape(s) && HasEntry(s, e) && Within(SegmentOf(s.spaces[e.id], ty), va)
    ensures Fault(s, kind, va) == Panicked <==>
              !Entry(s, e).Resident() && (NoFrame(s) || (Entry(s, e).status == NotLoaded &&
                FileShort(s.spaces[e.id], ty, va)))
  {
    ReachedInv(s);
    var sp := s.spaces[e.id];
    assert WfSpace(sp);
    PtIndexIsPageIndex(sp, va);
    PageIndexBijection(sp, 0, va / PAGE_SIZE);
    ResidentFailsIff(s, e, ty, va);
  }

  /** The slot of a swapped page is still its own once a frame has been found for it. */
  lemma SwapInWorks(s: Vm, e: EntryRef)
    requires Inv(s) && HasEntry(s, e) && Entry(s, e).status == InSwap && GetPages(s, 1, Some(e)).Some?
    ensures var (t, f) := GetPages(s, 1, Some(e)).value;
            && f < |t.ram| && |t.swapmap| == |t.swap| && HasEntry(t, e) && SwapIn(t, f, Entry(t, e).slot).Some?
  {
    GetPagesSound(s, 1, Some(e));
    var (t, f) := GetPages(s, 1, Some(e)).value;
    assert InSwapAt(t, e, Entry(t, e).slot);
  }
}
