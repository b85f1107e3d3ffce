/** Every operation of the virtual memory system keeps the invariant and the
    bytes of every page. */
module VmSteps {
  import opened Common
  import opened AddressSpace
  import opened Coremap
  import opened VmState
  import opened VmInvariant

  // ------------------------------------------------------------ claiming frames

  /** Frames f..f+n may be claimed: all free, or the one frame just emptied, for a request
      of at most one page. */
  ghost predicate Claimable(s: Vm, h: int, f: nat, n: nat) {
    || (h == NO_FRAME && FreeRange(s.cm, f, n))
    || (h == f && n <= 1 && s.boot <= f < |s.cm| && s.cm[f].used && s.cm[f].size == 1)
  }

  function HoleFor(f: nat, owner: Option<EntryRef>): int { if owner.Some? then f else NO_FRAME }

  lemma ClaimableApart(s: Vm, h: int, f: nat, n: nat)
    requires Sound(s, h) && Claimable(s, h, f, n)
    ensures s.boot <= f && f + n <= |s.cm|
    ensures forall e :: HasEntry(s, e) && Entry(s, e).Resident() ==>
              EntryNames(s, h, e) && Entry(s, e).frame != f && !(f <= Entry(s, e).frame < f + n)
  {
    forall e | HasEntry(s, e) && Entry(s, e).Resident()
      ensures EntryNames(s, h, e) && Entry(s, e).frame != f && !(f <= Entry(s, e).frame < f + n)
    {
      assert EntryNames(s, h, e);
    }
    assert FreeRange(s.cm, f, n) ==> !s.cm[f].used;
  }

  lemma ClaimSound(s: Vm, h: int, f: nat, n: nat, owner: Option<EntryRef>)
    requires Sound(s, h) && Claimable(s, h, f, n) && (owner.Some? ==> n == 1)
    ensures var t := Claim(s, f, n, owner);
            Sound(t, HoleFor(f, owner)) && SamePages(s, t) && (n > 0 ==> t.cm[f] == Cm(true, n, false, owner))
  {
    var t := Claim(s, f, n, owner);
    ClaimableApart(s, h, f, n);
    assert Kept(s, t);
    KeptShape(s, t);
    ClaimRuns(s.cm, f, n, owner);
    ClaimNames(s, h, f, n, owner);
    SlotsUnchanged(s, t);
    ClaimText(s, h, f, n, owner);
    ClaimTlb(s, h, f, n, owner);
    ClaimPages(s, h, f, n, owner);
  }

  /** The runs still do not overlap, and have their owner at the head only. */
  lemma ClaimRuns(cm: seq<Cm>, f: nat, n: nat, owner: Option<EntryRef>)
    requires Laid(cm) && InsideUnowned(cm) && (owner.Some? ==> n == 1)
    requires FreeRange(cm, f, n) || (n <= 1 && f < |cm| && cm[f].used && cm[f].size == 1)
    ensures Laid(AllocRun(cm, f, n, owner)) && InsideUnowned(AllocRun(cm, f, n, owner))
  {
    var r := AllocRun(cm, f, n, owner);
    if FreeRange(cm, f, n) {
      AllocLaid(cm, f, n, owner);
      forall h, i | Covers(r, h, i) && h < i ensures r[i].owner.None? { AllocCovers(cm, f, n, owner, h, i); }
    } else {
      ReuseLaid(cm, f, n, owner);
      forall h, i | Covers(r, h, i) && h < i ensures r[i].owner.None? { assert Covers(cm, h, i); }
    }
  }

  lemma ClaimNames(s: Vm, h: int, f: nat, n: nat, owner: Option<EntryRef>)
    requires Sound(s, h) && Claimable(s, h, f, n) && (owner.Some? ==> n == 1)
    ensures var t := Claim(s, f, n, owner);
            FramesNameEntries(t, HoleFor(f, owner)) && EntriesNameFrames(t, HoleFor(f, owner))
  {
    var t, h' := Claim(s, f, n, owner), HoleFor(f, owner);
    ClaimableApart(s, h, f, n);
    forall g | 0 <= g < |t.cm| && g != h' && Owned(t.cm[g]) ensures FrameNames(t, g) {
      assert g != f && !(f <= g < f + n);
      assert FrameNames(s, g);
    }
    forall o | HasEntry(t, o) && Entry(t, o).Resident() ensures EntryNames(t, h', o) {
      assert HasEntry(s, o) && Entry(s, o) == Entry(t, o);
    }
  }

  lemma ClaimText(s: Vm, h: int, f: nat, n: nat, owner: Option<EntryRef>)
    requires Sound(s, h) && Claimable(s, h, f, n)
    ensures Shape(Claim(s, f, n, owner)) && TextIsImage(Claim(s, f, n, owner))
  {
    var t := Claim(s, f, n, owner);
    ClaimableApart(s, h, f, n);
    KeptShape(s, t);
    forall o | HasEntry(t, o) ensures TextEntryOk(t, o) {
      assert HasEntry(s, o) && TextEntryOk(s, o);
    }
  }

  lemma ClaimTlb(s: Vm, h: int, f: nat, n: nat, owner: Option<EntryRef>)
    requires Sound(s, h) && Claimable(s, h, f, n) && (owner.Some? ==> n == 1)
    ensures Shape(Claim(s, f, n, owner)) && TlbAgrees(Claim(s, f, n, owner), HoleFor(f, owner))
  {
    var t := Claim(s, f, n, owner);
    ClaimableApart(s, h, f, n);
    KeptShape(s, t);
    if s.mapped.User? {
      forall i | 0 <= i < |t.tlb| && t.tlb[i].valid ensures SlotAgrees(t, HoleFor(f, owner), t.tlb[i]) {
        assert SlotAgrees(s, h, s.tlb[i]);
      }
    }
  }

  lemma ClaimPages(s: Vm, h: int, f: nat, n: nat, owner: Option<EntryRef>)
    requires Sound(s, h) && Claimable(s, h, f, n)
    ensures Shape(Claim(s, f, n, owner)) && SamePages(s, Claim(s, f, n, owner))
  {
    var t := Claim(s, f, n, owner);
    ClaimableApart(s, h, f, n);
    KeptShape(s, t);
    forall o | HasEntry(s, o) ensures HasEntry(t, o) && PageOf(t, o) == PageOf(s, o) {
      assert Entry(t, o) == Entry(s, o);
      PageKept(s, t, o);
    }
  }

  // ------------------------------------------------------------- getting a page

  /** When the scan finds no free frame, the victim is in use, heads its run, and the two
      assertions about it hold. */
  lemma VictimIsEvictable(s: Vm)
    requires Inv(s) && FindFree(s.cm, 1) == Some(-1) && NextVictim(s.cm, s.victim, 1).Some?
    ensures var f := NextVictim(s.cm, s.victim, 1).value;
            Evictable(s, f) && s.cm[f].size == 1 && s.boot <= f
  {
    FindFreeIs(s.cm, 1);
    var f := NextVictim(s.cm, s.victim, 1).value;
    assert !FreeRange(s.cm, f, 1);
    assert Covered(s.cm, f);
    var h :| Covers(s.cm, h, f);
    assert FrameNames(s, f);
  }

  lemma SwapoutSound(s: Vm, n: nat)
    requires Inv(s) && n <= 1 && SwapoutOne(s).Some?
    ensures var (t, f) := SwapoutOne(s).value;
            && Sound(t, f) && SamePages(s, t) && Claimable(t, f, f, n)
            && forall e :: HasEntry(s, e) && !Entry(s, e).Resident() ==> HasEntry(t, e) && Entry(t, e) == Entry(s, e)
  {
    var f := NextVictim(s.cm, s.victim, 1).value;
    var s0 := s.(victim := f);
    MoveHand(s, f);
    EvictEffect(s0, f);
    EvictSound(s0, f);
    assert FrameNames(s0, f);
  }

  /** Moving the victim index changes nothing the invariant or a page depends on. */
  lemma MoveHand(s: Vm, v: nat)
    requires Inv(s) && v < |s.cm|
    ensures Inv(s.(victim := v)) && SamePages(s, s.(victim := v))
  {
    var t := s.(victim := v);
    assert forall e :: HasEntry(t, e) <==> HasEntry(s, e);
    assert forall o, j :: InSwapAt(t, o, j) <==> InSwapAt(s, o, j);
    SlotsUnchanged(s, t);
    forall f | 0 <= f < |t.cm| && Owned(t.cm[f]) ensures FrameNames(t, f) { assert FrameNames(s, f); }
    forall e | HasEntry(t, e) ensures TextEntryOk(t, e) && (Entry(t, e).Resident() ==> EntryNames(t, NO_FRAME, e)) {
      assert TextEntryOk(s, e) && (Entry(s, e).Resident() ==> EntryNames(s, NO_FRAME, e));
    }
    if s.mapped.User? {
      forall i | 0 <= i < |t.tlb| && t.tlb[i].valid ensures SlotAgrees(t, NO_FRAME, t.tlb[i]) {
        assert SlotAgrees(s, NO_FRAME, s.tlb[i]);
      }
    }
    forall e | HasEntry(s, e) ensures PageOf(t, e) == PageOf(s, e) { PageKept(s, t, e); }
  }

  /** The frames a request returns read as zeros. */
  lemma RequestZeroes(s: Vm, n: nat, owner: Option<EntryRef>, i: nat)
    requires Shape(s) && GetPages(s, n, owner).Some?
    ensures var (t, f) := GetPages(s, n, owner).value; f <= i < f + n && i < |t.ram| ==> t.ram[i] == ZeroPage()
  {
  }

  /** coremap_getppages keeps every page's bytes; the frames it returns are past
      the boot frames and belong to nobody else. */
  lemma GetPagesSound(s: Vm, n: nat, owner: Option<EntryRef>)
    requires Inv(s) && (owner.Some? ==> n == 1) && GetPages(s, n, owner).Some?
    ensures var (t, f) := GetPages(s, n, owner).value;
            && Sound(t, HoleFor(f, owner)) && SamePages(s, t)
            && s.boot <= f && f + n <= |t.cm| && (n > 0 ==> t.cm[f] == Cm(true, n, false, owner))
            && forall e :: HasEntry(s, e) && !Entry(s, e).Resident() ==> HasEntry(t, e) && Entry(t, e) == Entry(s, e)
  {
    var b := FindFree(s.cm, n);
    FindFreeIs(s.cm, n);
    if b.value >= 0 {
      ClaimSound(s, NO_FRAME, b.value, n, owner);
      ClaimableApart(s, NO_FRAME, b.value, n);
    } else {
      SwapoutSound(s, n);
      var (t, f) := SwapoutOne(s).value;
      ClaimSound(t, f, f, n, owner);
    }
  }

  // ------------------------------------------------------- making a page resident

  /** The frame recorded for e gets e's bytes and e's entry points at it; a slot
      it came from is cleared. */
  ghost predicate Installed(s: Vm, f: nat, e: EntryRef, t: Vm)
    requires Shape(s) && f < |s.ram| && HasEntry(s, e)
  {
    && Kept(s, t) && t.cm == s.cm && t.swap == s.swap && t.tlb == s.tlb && HasEntry(t, e)
    && t.ram == s.ram[f := PageOf(s, e)]
    && Entry(t, e) == PtEntry(f, 0, if IsText(s, e) then InMemoryRdonly else InMemory)
    && (IsText(s, e) ==> Backed(s, e))
    && (forall o :: HasEntry(s, o) && o != e ==> HasEntry(t, o) && Entry(t, o) == Entry(s, o))
    && t.swapmap == (if Entry(s, e).status == InSwap && Entry(s, e).slot < |s.swapmap|
                     then s.swapmap[Entry(s, e).slot := false] else s.swapmap)
  }

  ghost predicate Pending(s: Vm, f: nat, e: EntryRef) {
    && Sound(s, f) && s.boot <= f < |s.cm| && s.cm[f] == Cm(true, 1, false, Some(e))
    && HasEntry(s, e) && !Entry(s, e).Resident()
  }

  lemma InstallSound(s: Vm, f: nat, e: EntryRef, t: Vm)
    requires Pending(s, f, e) && Installed(s, f, e, t)
    ensures Inv(t) && SamePages(s, t) && HasEntry(t, e) && Entry(t, e).Resident()
  {
    KeptShape(s, t);
    InstallNames(s, f, e, t);
    InstallSlots(s, f, e, t);
    InstallTextAndPages(s, f, e, t);
    InstallTlb(s, f, e, t);
  }

  lemma InstallNames(s: Vm, f: nat, e: EntryRef, t: Vm)
    requires Pending(s, f, e) && Installed(s, f, e, t)
    ensures FramesNameEntries(t, NO_FRAME) && EntriesNameFrames(t, NO_FRAME)
  {
    KeptShape(s, t);
    forall g | 0 <= g < |t.cm| && Owned(t.cm[g]) ensures FrameNames(t, g) {
      if g != f { assert FrameNames(s, g); }
    }
    forall o | HasEntry(t, o) && Entry(t, o).Resident() ensures EntryNames(t, NO_FRAME, o) {
      if o != e { assert EntryNames(s, f, o); }
    }
  }

  lemma InstallSlots(s: Vm, f: nat, e: EntryRef, t: Vm)
    requires Pending(s, f, e) && Installed(s, f, e, t)
    ensures SlotsMatch(t)
  {
    KeptShape(s, t);
    if Entry(s, e).status == InSwap {
      assert InSwapAt(s, e, Entry(s, e).slot);
      SlotsAfterSwapIn(s, t, e, Entry(s, e).slot);
    } else {
      SlotsUnchanged(s, t);
    }
  }

  lemma InstalledPage(s: Vm, f: nat, e: EntryRef, t: Vm)
    requires Pending(s, f, e) && Installed(s, f, e, t) && Shape(t)
    ensures TextEntryOk(t, e) && PageOf(t, e) == PageOf(s, e)
  {
    assert TextEntryOk(s, e);
    ImageKept(s, t, e);
  }

  lemma InstalledOther(s: Vm, f: nat, e: EntryRef, t: Vm, o: EntryRef)
    requires Pending(s, f, e) && Installed(s, f, e, t) && Shape(t) && HasEntry(s, o) && o != e
    ensures HasEntry(t, o) && TextEntryOk(t, o) && PageOf(t, o) == PageOf(s, o)
  {
    assert TextEntryOk(s, o);
    if Entry(s, o).Resident() { assert EntryNames(s, f, o); }
    ImageKept(s, t, o);
    PageKept(s, t, o);
  }

  lemma InstallTextAndPages(s: Vm, f: nat, e: EntryRef, t: Vm)
    requires Pending(s, f, e) && Installed(s, f, e, t)
    ensures Shape(t) && TextIsImage(t) && SamePages(s, t)
  {
    KeptShape(s, t);
    forall o | HasEntry(s, o) ensures HasEntry(t, o) && TextEntryOk(t, o) && PageOf(t, o) == PageOf(s, o) {
      if o == e { InstalledPage(s, f, e, t); } else { InstalledOther(s, f, e, t, o); }
    }
  }

  lemma InstallTlb(s: Vm, f: nat, e: EntryRef, t: Vm)
    requires Pending(s, f, e) && Installed(s, f, e, t)
    ensures Shape(t) && TlbAgrees(t, NO_FRAME)
  {
    KeptShape(s, t);
    if s.mapped.User? {
      ResidentPtKept(s, t, f, e);
      forall i | 0 <= i < |t.tlb| && t.tlb[i].valid ensures SlotAgrees(t, NO_FRAME, t.tlb[i]) {
        SlotTransfer(s, f, t, NO_FRAME, f, s.tlb[i]);
      }
    }
  }

  /** A fault on a page not loaded yet brings in its image. */
  lemma FaultLoadSound(s: Vm, e: EntryRef, t: SegmentType, va: nat)
    requires Inv(s) && HasEntry(s, e) && Entry(s, e).status == NotLoaded
    requires SegmentTypeOf(s.spaces[e.id], va) == Some(t)
    requires WfSegments(s.spaces[e.id]) && e.idx == PtIndex(s.spaces[e.id], va)
    requires FaultLoad(s, e, t, va).Some?
    ensures var r := FaultLoad(s, e, t, va).value;
            Inv(r) && SamePages(s, r) && HasEntry(r, e) && Entry(r, e).Resident()
  {
    GetOneFor(s, e);
    var (s1, f) := GetPages(s, 1, Some(e)).value;
    var page := LoadIsSet(s, e, t, va, s1, f);
    LoadIsInstall(s, e, t, va, s1, f, page, FaultLoad(s, e, t, va).value);
    InstallAfter(s, s1, f, e, FaultLoad(s, e, t, va).value);
  }

  /** A frame for one entry: recorded for it, everything else as it was. */
  lemma GetOneFor(s: Vm, e: EntryRef)
    requires Inv(s) && HasEntry(s, e) && !Entry(s, e).Resident() && GetPages(s, 1, Some(e)).Some?
    ensures var (s1, f) := GetPages(s, 1, Some(e)).value;
            Pending(s1, f, e) && SamePages(s, s1) && Entry(s1, e) == Entry(s, e)
  {
    GetPagesSound(s, 1, Some(e));
  }

  lemma InstallAfter(s: Vm, s1: Vm, f: nat, e: EntryRef, r: Vm)
    requires Shape(s) && Pending(s1, f, e) && SamePages(s, s1) && Installed(s1, f, e, r)
    ensures Inv(r) && SamePages(s, r) && HasEntry(r, e) && Entry(r, e).Resident()
  {
    InstallSound(s1, f, e, r);
    SamePagesTwice(s, s1, r);
  }

  lemma SamePagesTwice(s: Vm, t: Vm, u: Vm)
    requires Shape(s) && Shape(t) && Shape(u) && SamePages(s, t) && SamePages(t, u)
    ensures SamePages(s, u)
  {
  }

  /** The bytes loaded are the page's image. */
  lemma LoadedImage(s: Vm, e: EntryRef, t: SegmentType, va: nat)
    requires Shape(s) && HasEntry(s, e) && SegmentTypeOf(s.spaces[e.id], va) == Some(t) &&
             e.idx == PtIndex(s.spaces[e.id], va)
    requires Entry(s, e).status == NotLoaded
    requires FirstContents(SegmentOf(s.spaces[e.id], t), t == Stack, s.spaces[e.id].elf, va).Some?
    ensures PageOf(s, e) == FirstContents(SegmentOf(s.spaces[e.id], t), t == Stack, s.spaces[e.id].elf, va).value
    ensures (IsText(s, e) <==> t == Text) && (t == Text ==> Backed(s, e))
  {
    var sp := s.spaces[e.id];
    PtIndexInSegment(sp, va);
    LoadsIffInFile(SegmentOf(sp, t), t == Stack, sp.elf, va);
    LoadedPageIsImage(SegmentOf(sp, t), t == Stack, sp.elf, va);
  }

  lemma LoadIsInstall(s: Vm, e: EntryRef, t: SegmentType, va: nat, s1: Vm, f: nat, page: Page, r: Vm)
    requires Shape(s) && HasEntry(s, e) && SegmentTypeOf(s.spaces[e.id], va) == Some(t)
    requires e.idx == PtIndex(s.spaces[e.id], va) && Entry(s, e).status == NotLoaded
    requires FirstContents(SegmentOf(s.spaces[e.id], t), t == Stack, s.spaces[e.id].elf, va) == Some(page)
    requires Shape(s1) && HasEntry(s1, e) && Entry(s1, e) == Entry(s, e)
    requires f < |s1.ram| && SameLayout(s.spaces[e.id], s1.spaces[e.id])
    requires r == SetEntry(s1, e, PtEntry(f, 0, StatusWhenResident(t))).(ram := s1.ram[f := page])
    ensures Installed(s1, f, e, r)
  {
    LoadedImage(s, e, t, va);
    ImageKept(s, s1, e);
    SetIsInstall(s1, f, e, t);
  }

  /** What a fault that loads leaves, from the state its request left. */
  lemma LoadIsSet(s: Vm, e: EntryRef, t: SegmentType, va: nat, s1: Vm, f: nat) returns (page: Page)
    requires Shape(s) && HasEntry(s, e) && Within(SegmentOf(s.spaces[e.id], t), va)
    requires FaultLoad(s, e, t, va).Some? && GetPages(s, 1, Some(e)) == Some((s1, f))
    ensures HasEntry(s1, e) && f < |s1.ram| && SameLayout(s.spaces[e.id], s1.spaces[e.id])
    ensures FirstContents(SegmentOf(s.spaces[e.id], t), t == Stack, s.spaces[e.id].elf, va) == Some(page)
    ensures FaultLoad(s, e, t, va).value ==
              SetEntry(s1, e, PtEntry(f, 0, StatusWhenResident(t))).(ram := s1.ram[f := page])
  {
    RequestZeroes(s, 1, Some(e), f);
    page := FirstContents(SegmentOf(s.spaces[e.id], t), t == Stack, s.spaces[e.id].elf, va).value;
  }

  /** Setting the entry of a page not loaded, and the frame's bytes, installs it. */
  lemma SetIsInstall(s: Vm, f: nat, e: EntryRef, t: SegmentType)
    requires Shape(s) && HasEntry(s, e) && f < |s.ram| && Entry(s, e).status == NotLoaded
    requires (IsText(s, e) <==> t == Text) && (t == Text ==> Backed(s, e))
    ensures Installed(s, f, e, SetEntry(s, e, PtEntry(f, 0, StatusWhenResident(t))).(ram := s.ram[f := PageOf(s, e)]))
  {
  }

  /** A fault on a swapped page brings it back from its slot. */
  lemma FaultSwapInSound(s: Vm, e: EntryRef, t: SegmentType)
    requires Inv(s) && HasEntry(s, e) && Entry(s, e).status == InSwap && TypeAt(s.spaces[e.id], e.idx) == t
    requires FaultSwapIn(s, e, t).Some?
    ensures var r := FaultSwapIn(s, e, t).value;
            Inv(r) && SamePages(s, r) && HasEntry(r, e) && Entry(r, e).Resident()
  {
    GetOneFor(s, e);
    assert TextEntryOk(s, e);
    var (s1, f) := GetPages(s, 1, Some(e)).value;
    SwapInIsInstall(s, e, t, s1, f);
    InstallAfter(s, s1, f, e, FaultSwapIn(s, e, t).value);
  }

  lemma SwapInIsInstall(s: Vm, e: EntryRef, t: SegmentType, s1: Vm, f: nat)
    requires Shape(s) && HasEntry(s, e) && TypeAt(s.spaces[e.id], e.idx) == t && FaultSwapIn(s, e, t).Some?
    requires GetPages(s, 1, Some(e)) == Some((s1, f))
    requires !IsText(s, e) && Entry(s, e).status == InSwap && Shape(s1) && HasEntry(s1, e) &&
             Entry(s1, e) == Entry(s, e)
    ensures f < |s1.ram| && Installed(s1, f, e, FaultSwapIn(s, e, t).value)
  {
    ImageKept(s, s1, e);
    SetIsSwapIn(s1, f, e, t);
  }

  /** Reading the slot and setting the entry installs a page that was in swap. */
  lemma SetIsSwapIn(s: Vm, f: nat, e: EntryRef, t: SegmentType)
    requires Shape(s) && HasEntry(s, e) && f < |s.ram| && Entry(s, e).status == InSwap && !IsText(s, e) && t != Text
    requires SwapIn(s, f, Entry(s, e).slot).Some?
    ensures Installed(s, f, e, SetEntry(SwapIn(s, f, Entry(s, e).slot).value, e, PtEntry(f, 0, StatusWhenResident(t))))
  {
  }

  // --------------------------------------------------------------- the TLB entry

  predicate Maps(t: TlbEntry, vpage: nat) { t.valid && t.vpage == vpage }

  ghost predicate Misses(s: Vm, vpage: nat) { forall i :: 0 <= i < |s.tlb| ==> !Maps(s.tlb[i], vpage) }

  lemma TlbInsertSound(s: Vm, vpage: nat, e: EntryRef)
    requires Inv(s) && s.cur.User? && Misses(s, vpage)
    requires e.id == s.cur.id && HasEntry(s, e) && Entry(s, e).Resident()
    requires PageIndex(s.spaces[e.id], vpage) == Some(e.idx)
    ensures var t := TlbInsert(s, vpage, Entry(s, e).frame, IsText(s, e));
            && Inv(t) && SamePages(s, t)
            && exists i :: 0 <= i < |t.tlb| && Maps(t.tlb[i], vpage)
  {
    var t := TlbInsert(s, vpage, Entry(s, e).frame, IsText(s, e));
    var k := s.tlbVictim;
    assert t.tlb == s.tlb[k := TlbEntry(vpage, Entry(s, e).frame, true, !IsText(s, e))];
    TlbOnly(s, t);
    forall i | 0 <= i < |t.tlb| && t.tlb[i].valid ensures SlotAgrees(t, NO_FRAME, t.tlb[i]) {
      if i != k { assert SlotAgrees(s, NO_FRAME, s.tlb[i]); }
    }
    forall i | 0 <= i < |s.tlb| && s.tlb[i].valid ensures s.tlb[i].vpage != vpage {
      assert !Maps(s.tlb[i], vpage);
    }
    assert TlbAgrees(t, NO_FRAME);
    assert Maps(t.tlb[k], vpage);
  }

  /** The rest of the invariant does not look at the TLB. */
  lemma TlbOnly(s: Vm, t: Vm)
    requires Inv(s) && Shape(t)
    requires t == s.(tlb := t.tlb, tlbVictim := t.tlbVictim, tlbFree := t.tlbFree, cur := t.cur, mapped := t.mapped)
    ensures SamePages(s, t)
    ensures TlbAgrees(t, NO_FRAME) ==> Inv(t)
  {
    assert forall e :: HasEntry(t, e) <==> HasEntry(s, e);
    SlotsUnchanged(s, t);
    forall f | 0 <= f < |t.cm| && Owned(t.cm[f]) ensures FrameNames(t, f) { assert FrameNames(s, f); }
    forall e | HasEntry(t, e)
      ensures TextEntryOk(t, e) && (Entry(t, e).Resident() ==>
              EntryNames(t, NO_FRAME, e)) && PageOf(t, e) == PageOf(s, e)
    {
      assert TextEntryOk(s, e) && (Entry(s, e).Resident() ==> EntryNames(s, NO_FRAME, e));
    }
  }

  /** A handled fault, taken apart. */
  lemma FaultParts(s: Vm, kind: FaultType, va: nat) returns (e: EntryRef, ty: SegmentType, u: Vm)
    requires Inv(s) && Fault(s, kind, va).Handled?
    ensures s.cur.User? && e.id == s.cur.id && HasEntry(s, e) && WfSpace(s.spaces[e.id])
    ensures SegmentTypeOf(s.spaces[e.id], va) == Some(ty) && e.idx == PtIndex(s.spaces[e.id], va)
    ensures MakeResident(s, e, ty, va) == Some(u) && HasEntry(u, e) && u.tlbVictim < |u.tlb|
    ensures Fault(s, kind, va).vm == TlbInsert(u, va / PAGE_SIZE, Entry(u, e).frame, ty == Text)
  {
    var sp := s.spaces[s.cur.id];
    ty := SegmentTypeOf(sp, va).value;
    e := EntryRef(s.cur.id, PtIndex(sp, va));
    u := MakeResident(s, e, ty, va).value;
    KeptShape(s, u);
  }

  /** vm_fault keeps the invariant and every page's bytes, and leaves the faulting
      page mapped, so the instruction that faulted then runs. */
  lemma FaultSound(s: Vm, kind: FaultType, va: nat)
    requires Inv(s) && Fault(s, kind, va).Handled?
    requires Misses(s, va / PAGE_SIZE)
    ensures var t := Fault(s, kind, va).vm;
            && Inv(t) && SamePages(s, t)
            && exists i :: 0 <= i < |t.tlb| && Maps(t.tlb[i], va / PAGE_SIZE)
  {
    var e, ty, u := FaultParts(s, kind, va);
    MakeResidentSound(s, e, ty, va);
    InsertAfter(s, u, e, va / PAGE_SIZE);
  }

  lemma InsertAfter(s: Vm, u: Vm, e: EntryRef, vpage: nat)
    requires Inv(s) && Inv(u) && SamePages(s, u) && u.cur.User? && Misses(u, vpage)
    requires e.id == u.cur.id && HasEntry(u, e) && Entry(u, e).Resident()
    requires PageIndex(u.spaces[e.id], vpage) == Some(e.idx)
    ensures var t := TlbInsert(u, vpage, Entry(u, e).frame, IsText(u, e));
            && Inv(t) && SamePages(s, t)
            && exists i :: 0 <= i < |t.tlb| && Maps(t.tlb[i], vpage)
  {
    TlbInsertSound(u, vpage, e);
  }

  lemma MakeResidentSound(s: Vm, e: EntryRef, t: SegmentType, va: nat)
    requires Inv(s) && HasEntry(s, e) && SegmentTypeOf(s.spaces[e.id], va) == Some(t)
    requires WfSpace(s.spaces[e.id]) && e.idx == PtIndex(s.spaces[e.id], va)
    requires MakeResident(s, e, t, va).Some?
    requires Misses(s, va / PAGE_SIZE)
    ensures var u := MakeResident(s, e, t, va).value;
            && Inv(u) && SamePages(s, u) && HasEntry(u, e) && Entry(u, e).Resident()
            && Misses(u, va / PAGE_SIZE) && u.cur == s.cur
            && PageIndex(u.spaces[e.id], va / PAGE_SIZE) == Some(e.idx) && (IsText(u, e) <==> t == Text)
  {
    PtIndexIsPageIndex(s.spaces[e.id], va);
    BroughtIn(s, e, t, va);
    KeptMapping(s, MakeResident(s, e, t, va).value, e, va / PAGE_SIZE);
  }

  /** The three cases of the table entry. */
  lemma BroughtIn(s: Vm, e: EntryRef, t: SegmentType, va: nat)
    requires Inv(s) && HasEntry(s, e) && SegmentTypeOf(s.spaces[e.id], va) == Some(t)
    requires WfSpace(s.spaces[e.id]) && e.idx == PtIndex(s.spaces[e.id], va) && TypeAt(s.spaces[e.id], e.idx) == t
    requires MakeResident(s, e, t, va).Some?
    ensures var u := MakeResident(s, e, t, va).value;
            Inv(u) && SamePages(s, u) && HasEntry(u, e) && Entry(u, e).Resident()
  {
    match Entry(s, e).status {
      case NotLoaded => FaultLoadSound(s, e, t, va);
      case InSwap => FaultSwapInSound(s, e, t);
      case InMemory =>
      case InMemoryRdonly =>
    }
  }

  /** What the TLB update needs survives any change that keeps the layout. */
  lemma KeptMapping(s: Vm, u: Vm, e: EntryRef, vpage: nat)
    requires Kept(s, u) && HasEntry(s, e) && Misses(s, vpage)
    ensures HasEntry(u, e) && Misses(u, vpage) && u.cur == s.cur
    ensures PageIndex(u.spaces[e.id], vpage) == PageIndex(s.spaces[e.id], vpage)
    ensures IsText(u, e) <==> IsText(s, e)
  {
    assert SameLayout(s.spaces[e.id], u.spaces[e.id]);
    forall i | 0 <= i < |u.tlb| ensures !Maps(u.tlb[i], vpage) {
      assert !Maps(s.tlb[i], vpage);
    }
  }
}
