/** The invariant that ties coremap, page tables, swap map and TLB together, and
    the contents of a page as the process would see them.

    The invariant has a hole: inside vm_fault one frame may already be recorded
    for an entry that is not resident yet. Sound(s, h) leaves out frame h. */
module VmInvariant {
  import opened Common
  import opened AddressSpace
  import opened Coremap
  import opened VmState

  const NO_FRAME := -1

  predicate IsText(s: Vm, e: EntryRef)
    requires HasEntry(s, e)
  {
    TypeAt(s.spaces[e.id], e.idx) == Text
  }

  /** The frame heads a run recorded for a page-table entry. A frame that is in use but
      lost, with size 0, is none: only a request for no pages leaves one. */
  predicate Owned(c: Cm) { c.used && c.size > 0 && c.owner.Some? }

  /** Such a frame is a one-frame run holding that entry's page. */
  ghost predicate FramesNameEntries(s: Vm, h: int) {
    forall f :: 0 <= f < |s.cm| && f != h && Owned(s.cm[f]) ==> FrameNames(s, f)
  }

  /** Frames inside a run, past its head, have no owner. */
  ghost predicate InsideUnowned(cm: seq<Cm>) {
    forall h, i :: Covers(cm, h, i) && h < i ==> cm[i].owner.None?
  }

  ghost predicate FrameNames(s: Vm, f: nat)
    requires f < |s.cm| && s.cm[f].owner.Some?
  {
    var e := s.cm[f].owner.value;
    s.cm[f].size == 1 && HasEntry(s, e) && Entry(s, e).Resident() && Entry(s, e).frame == f
  }

  /** A resident entry's frame is in use and names it. */
  ghost predicate EntriesNameFrames(s: Vm, h: int) {
    forall e :: HasEntry(s, e) && Entry(s, e).Resident() ==> EntryNames(s, h, e)
  }

  ghost predicate EntryNames(s: Vm, h: int, e: EntryRef)
    requires HasEntry(s, e)
  {
    var f := Entry(s, e).frame;
    f < |s.cm| && f != h && s.cm[f].used && s.cm[f].size == 1 && s.cm[f].owner == Some(e)
  }

  ghost predicate InSwapAt(s: Vm, e: EntryRef, k: int) {
    HasEntry(s, e) && Entry(s, e).status == InSwap && Entry(s, e).slot == k
  }

  ghost predicate Occupied(s: Vm, k: int) { exists e :: InSwapAt(s, e, k) }

  /** Swapped entries hold distinct slots and the set bits are exactly those. */
  ghost predicate SlotsMatch(s: Vm) {
    && (forall e, k :: InSwapAt(s, e, k) ==> 0 <= k < |s.swapmap| && s.swapmap[k])
    && (forall e, o, k :: InSwapAt(s, e, k) && InSwapAt(s, o, k) ==> e == o)
    && (forall k {:trigger Occupied(s, k)} :: 0 <= k < |s.swapmap| && s.swapmap[k] ==> Occupied(s, k))
  }

  /** Text is read-only, never in swap, and a resident text frame is its image, which the
      file still holds. */
  ghost predicate TextIsImage(s: Vm)
    requires Shape(s)
  {
    forall e :: HasEntry(s, e) ==> TextEntryOk(s, e)
  }

  ghost predicate TextEntryOk(s: Vm, e: EntryRef)
    requires Shape(s) && HasEntry(s, e)
  {
    var pe := Entry(s, e);
    if IsText(s, e) then
      && (pe.status == NotLoaded || pe.status == InMemoryRdonly)
      && (pe.status == InMemoryRdonly ==> Backed(s, e))
      && (pe.status == InMemoryRdonly && pe.frame < |s.ram| ==> s.ram[pe.frame] == Image(s, e))
    else pe.status != InMemoryRdonly
  }

  /** The page can be loaded from its program's file. */
  ghost predicate Backed(s: Vm, e: EntryRef)
    requires HasEntry(s, e) && WfSegments(s.spaces[e.id])
  {
    var sp := s.spaces[e.id];
    PageInFile(SegmentOf(sp, TypeAt(sp, e.idx)), sp.elf, PageAtIndex(sp, e.idx))
  }

  function Image(s: Vm, e: EntryRef): Page
    requires HasEntry(s, e) && WfSegments(s.spaces[e.id])
  {
    ImagePage(s.spaces[e.id], e.idx)
  }

  /** A TLB slot agrees with the page table of the space the TLB was activated for. */
  ghost predicate SlotAgrees(s: Vm, h: int, t: TlbEntry)
    requires s.mapped.User? && s.mapped.id in s.spaces
  {
    var ix := PageIndex(s.spaces[s.mapped.id], t.vpage);
    && ix.Some?
    && var e := EntryRef(s.mapped.id, ix.value);
       && HasEntry(s, e) && Entry(s, e).Resident() && Entry(s, e).frame == t.frame && t.frame != h
       && (t.dirty <==> !IsText(s, e))
  }

  ghost predicate TlbAgrees(s: Vm, h: int)
    requires s.mapped.User? ==> s.mapped.id in s.spaces
  {
    s.mapped.User? ==>
      && (forall i :: 0 <= i < |s.tlb| && s.tlb[i].valid ==> SlotAgrees(s, h, s.tlb[i]))
      && (forall i :: 0 <= i < |s.tlb| && !s.tlb[i].valid ==> s.tlb[i].frame == 0)
      && (forall i, j :: 0 <= i < j < |s.tlb| && s.tlb[i].valid && s.tlb[j].valid ==>
            s.tlb[i].vpage != s.tlb[j].vpage)
  }

  ghost predicate BootFrames(s: Vm) {
    && 1 <= s.boot <= |s.cm|
    && forall i :: 0 <= i < s.boot ==> s.cm[i] == BootCm
  }

  ghost predicate Unlocked(s: Vm) { forall i :: 0 <= i < |s.cm| ==> !s.cm[i].lock }

  ghost predicate SpacesOk(s: Vm) { forall id :: id in s.spaces ==> WfSpace(s.spaces[id]) }

  ghost predicate Sound(s: Vm, h: int) {
    && Shape(s) && SpacesOk(s) && BootFrames(s) && Unlocked(s) && Laid(s.cm) && InsideUnowned(s.cm)
    && FramesNameEntries(s, h) && EntriesNameFrames(s, h)
    && SlotsMatch(s) && TextIsImage(s) && TlbAgrees(s, h)
  }

  /** The invariant between atomic steps. */
  ghost predicate Inv(s: Vm) { Sound(s, NO_FRAME) }

  /** The bytes of the page behind an entry, wherever they are kept. */
  function PageOf(s: Vm, e: EntryRef): Page
    requires Shape(s) && HasEntry(s, e)
  {
    var pe := Entry(s, e);
    if pe.Resident() && pe.frame < |s.ram| then s.ram[pe.frame]
    else if pe.status == InSwap && pe.slot < |s.swap| then s.swap[pe.slot]
    else Image(s, e)
  }

  ghost predicate SamePages(s: Vm, t: Vm)
    requires Shape(s) && Shape(t)
  {
    forall e :: HasEntry(s, e) ==> HasEntry(t, e) && PageOf(t, e) == PageOf(s, e)
  }

  /** A page's image, whether it is text and whether its file holds it depend on its space's layout only. */
  lemma ImageKept(s: Vm, t: Vm, o: EntryRef)
    requires Shape(s) && Shape(t) && HasEntry(s, o) && HasEntry(t, o) && SameLayout(s.spaces[o.id], t.spaces[o.id])
    ensures Image(t, o) == Image(s, o) && (IsText(t, o) <==> IsText(s, o)) && (Backed(t, o) <==> Backed(s, o))
  {
    assert t.spaces[o.id] == s.spaces[o.id].(pt := t.spaces[o.id].pt);
  }

  /** An entry that stays as it was, its frame or slot too, keeps its bytes. */
  lemma PageKept(s: Vm, t: Vm, o: EntryRef)
    requires Shape(s) && Shape(t) && HasEntry(s, o) && HasEntry(t, o) && SameLayout(s.spaces[o.id], t.spaces[o.id])
    requires Entry(t, o) == Entry(s, o) && |t.ram| == |s.ram| && |t.swap| == |s.swap|
    requires Entry(s, o).Resident() && Entry(s, o).frame < |s.ram| ==>
             t.ram[Entry(s, o).frame] == s.ram[Entry(s, o).frame]
    requires Entry(s, o).status == InSwap && Entry(s, o).slot < |s.swap| ==>
             t.swap[Entry(s, o).slot] == s.swap[Entry(s, o).slot]
    ensures PageOf(t, o) == PageOf(s, o)
  {
    ImageKept(s, t, o);
  }

  // ------------------------------------------------------------------- eviction

  lemma KeptShape(s: Vm, t: Vm)
    requires Shape(s) && Kept(s, t)
    ensures Shape(t)
    ensures forall e :: HasEntry(s, e) <==> HasEntry(t, e)
    ensures forall e :: HasEntry(s, e) ==>
              Image(t, e) == Image(s, e) && (IsText(t, e) <==> IsText(s, e)) && (Backed(t, e) <==> Backed(s, e))
    ensures SpacesOk(s) ==> SpacesOk(t)
  {
    forall id | id in t.spaces ensures WfSegments(t.spaces[id]) && (SpacesOk(s) ==> WfSpace(t.spaces[id])) {
      assert SameLayout(s.spaces[id], t.spaces[id]);
    }
    forall e | HasEntry(s, e)
      ensures HasEntry(t, e) && Image(t, e) == Image(s, e) && (IsText(t, e) <==> IsText(s, e)) &&
              (Backed(t, e) <==> Backed(s, e))
    {
      assert SameLayout(s.spaces[e.id], t.spaces[e.id]);
      ImageKept(s, t, e);
    }
    forall e | HasEntry(t, e) ensures HasEntry(s, e) {
      assert SameLayout(s.spaces[e.id], t.spaces[e.id]);
    }
  }

  /** tlb_remove_by_paddr clears one slot at most; if the frames of valid slots
      differ, no valid slot holds the frame afterwards. */
  lemma {:induction false} TlbRemoveClears(tlb: seq<TlbEntry>, f: nat, i: nat)
    requires i <= |tlb| && f > 0
    requires forall a, b :: i <= a < b < |tlb| && tlb[a].valid && tlb[b].valid ==> tlb[a].frame != tlb[b].frame
    requires forall a :: 0 <= a < |tlb| && !tlb[a].valid ==> tlb[a].frame == 0
    requires forall a :: 0 <= a < i ==> tlb[a].frame != f
    ensures var r := TlbRemove(tlb, f, i);
            forall a :: 0 <= a < |tlb| ==> r[a] == if tlb[a].frame == f then InvalidTlb(a) else tlb[a]
    decreases |tlb| - i
  {
    if i < |tlb| {
      if tlb[i].frame == f {
        assert tlb[i].valid;
      } else {
        TlbRemoveClears(tlb, f, i + 1);
      }
    }
  }

  /** No two valid TLB slots share a frame. */
  lemma TlbFramesDistinct(s: Vm, h: int, i: nat, j: nat)
    requires Sound(s, h) && s.mapped.User?
    requires i < j < |s.tlb| && s.tlb[i].valid && s.tlb[j].valid
    ensures s.tlb[i].frame != s.tlb[j].frame
  {
    var sp := s.spaces[s.mapped.id];
    assert WfSpace(sp);
    assert SlotAgrees(s, h, s.tlb[i]) && SlotAgrees(s, h, s.tlb[j]);
    PageIndexBijection(sp, 0, s.tlb[i].vpage);
    PageIndexBijection(sp, 0, s.tlb[j].vpage);
    var e := EntryRef(s.mapped.id, PageIndex(sp, s.tlb[i].vpage).value);
    var o := EntryRef(s.mapped.id, PageIndex(sp, s.tlb[j].vpage).value);
    assert EntryNames(s, h, e) && EntryNames(s, h, o);
  }

  /** The frame a victim search may evict. */
  ghost predicate Evictable(s: Vm, f: nat) {
    f < |s.cm| && Owned(s.cm[f])
  }

  /** What eviction of frame f does to the tables. */
  ghost predicate Evicted(s: Vm, f: nat, t: Vm)
    requires Inv(s) && Evictable(s, f)
  {
    var e := s.cm[f].owner.value;
    && Kept(s, t) && t.cm == s.cm && t.ram == s.ram && HasEntry(s, e) && HasEntry(t, e)
    && (forall o :: HasEntry(s, o) && o != e ==> HasEntry(t, o) && Entry(t, o) == Entry(s, o))
    && (if IsText(s, e) then Entry(t, e) == FreshEntry && t.swap == s.swap && t.swapmap == s.swapmap
        else
          var k := Entry(t, e).slot;
          && Entry(t, e) == PtEntry(0, k, InSwap) && k < |s.swapmap| && !s.swapmap[k]
          && t.swapmap == s.swapmap[k := true] && t.swap == s.swap[k := s.ram[f]])
    && t.tlb == TlbRemove(s.tlb, f, 0)
  }

  lemma EvictEffect(s: Vm, f: nat)
    requires Inv(s) && Evictable(s, f) && Evict(s, f).Some?
    ensures 0 < f && Evicted(s, f, Evict(s, f).value)
  {
    var e := s.cm[f].owner.value;
    assert FrameNames(s, f);
    assert TextEntryOk(s, e);
  }

  /** Eviction keeps every page's bytes and empties the frame: nothing resident
      and no TLB slot refers to it any more. */
  lemma EvictSound(s: Vm, f: nat)
    requires Inv(s) && Evictable(s, f) && Evict(s, f).Some?
    ensures var t := Evict(s, f).value; Sound(t, f) && SamePages(s, t)
  {
    var t := Evict(s, f).value;
    EvictEffect(s, f);
    KeptShape(s, t);
    EvictNames(s, f, t);
    EvictSlots(s, f, t);
    EvictText(s, f, t);
    EvictTlb(s, f, t);
    EvictPages(s, f, t);
  }

  lemma EvictNames(s: Vm, f: nat, t: Vm)
    requires Inv(s) && Evictable(s, f) && Evicted(s, f, t)
    ensures FramesNameEntries(t, f) && EntriesNameFrames(t, f)
  {
    KeptShape(s, t);
    forall g | 0 <= g < |t.cm| && g != f && Owned(t.cm[g]) ensures FrameNames(t, g) { OtherFrame(s, f, t, g); }
    forall o | HasEntry(t, o) && Entry(t, o).Resident() ensures EntryNames(t, f, o) { OtherEntry(s, f, t, o); }
  }

  /** Frame g holds the page it held. */
  lemma OtherFrame(s: Vm, f: nat, t: Vm, g: nat)
    requires Inv(s) && Evictable(s, f) && Evicted(s, f, t) && g < |t.cm| && g != f && Owned(t.cm[g])
    ensures FrameNames(t, g)
  {
    assert FrameNames(s, g) && FrameNames(s, f);
  }

  /** What is still in memory is in another frame. */
  lemma OtherEntry(s: Vm, f: nat, t: Vm, o: EntryRef)
    requires Inv(s) && Evictable(s, f) && Evicted(s, f, t) && HasEntry(s, o) && HasEntry(t, o) && Entry(t, o).Resident()
    ensures EntryNames(t, f, o)
  {
    assert o != s.cm[f].owner.value;
    assert EntryNames(s, NO_FRAME, o);
  }

  /** Entry e alone changed, and it went to the clear slot k. */
  lemma SlotsAfterSwapOut(s: Vm, t: Vm, e: EntryRef, k: nat)
    requires SlotsMatch(s) && k < |s.swapmap| && !s.swapmap[k] && t.swapmap == s.swapmap[k := true]
    requires forall o, j :: InSwapAt(t, o, j) <==> if o == e then j == k else InSwapAt(s, o, j)
    requires forall j :: !InSwapAt(s, e, j)
    ensures SlotsMatch(t)
  {
    forall j | 0 <= j < |t.swapmap| && t.swapmap[j] ensures Occupied(t, j) {
      if j == k {
        assert InSwapAt(t, e, k);
      } else {
        assert Occupied(s, j);
        var o :| InSwapAt(s, o, j);
        assert InSwapAt(t, o, j);
      }
    }
  }

  lemma SlotsUnchanged(s: Vm, t: Vm)
    requires SlotsMatch(s) && t.swapmap == s.swapmap
    requires forall o, j :: InSwapAt(t, o, j) <==> InSwapAt(s, o, j)
    ensures SlotsMatch(t)
  {
    forall j | 0 <= j < |t.swapmap| && t.swapmap[j] ensures Occupied(t, j) {
      assert Occupied(s, j);
      var o :| InSwapAt(s, o, j);
      assert InSwapAt(t, o, j);
    }
  }

  /** Entry e alone changed, and it left slot k, which was then cleared. */
  lemma SlotsAfterSwapIn(s: Vm, t: Vm, e: EntryRef, k: nat)
    requires SlotsMatch(s) && InSwapAt(s, e, k) && t.swapmap == s.swapmap[k := false]
    requires forall o, j :: InSwapAt(t, o, j) <==> o != e && InSwapAt(s, o, j)
    ensures SlotsMatch(t)
  {
    forall j | 0 <= j < |t.swapmap| && t.swapmap[j] ensures Occupied(t, j) {
      assert Occupied(s, j);
      var o :| InSwapAt(s, o, j);
      assert InSwapAt(t, o, j);
    }
  }

  lemma EvictSlots(s: Vm, f: nat, t: Vm)
    requires Inv(s) && Evictable(s, f) && Evicted(s, f, t)
    ensures SlotsMatch(t)
  {
    var e := s.cm[f].owner.value;
    KeptShape(s, t);
    assert FrameNames(s, f);
    if IsText(s, e) {
      SlotsUnchanged(s, t);
    } else {
      SlotsAfterSwapOut(s, t, e, Entry(t, e).slot);
    }
  }

  lemma EvictText(s: Vm, f: nat, t: Vm)
    requires Inv(s) && Evictable(s, f) && Evicted(s, f, t)
    ensures Shape(t) && TextIsImage(t)
  {
    KeptShape(s, t);
    forall o | HasEntry(t, o) ensures TextEntryOk(t, o) {
      assert TextEntryOk(s, o);
    }
  }

  lemma EvictTlb(s: Vm, f: nat, t: Vm)
    requires Inv(s) && 0 < f && Evictable(s, f) && Evicted(s, f, t)
    ensures Shape(t) && TlbAgrees(t, f)
  {
    KeptShape(s, t);
    if s.mapped.User? {
      forall i, j | 0 <= i < j < |s.tlb| && s.tlb[i].valid && s.tlb[j].valid
        ensures s.tlb[i].frame != s.tlb[j].frame
      {
        TlbFramesDistinct(s, NO_FRAME, i, j);
      }
      TlbRemoveClears(s.tlb, f, 0);
      assert FrameNames(s, f);
      ResidentPtKept(s, t, f, s.cm[f].owner.value);
      forall i | 0 <= i < |t.tlb| && t.tlb[i].valid ensures SlotAgrees(t, f, t.tlb[i]) {
        SlotTransfer(s, NO_FRAME, t, f, f, s.tlb[i]);
      }
    }
  }

  /** Only entry e changed: other resident entries of the mapped space stay. */
  lemma ResidentPtKept(s: Vm, t: Vm, h: int, e: EntryRef)
    requires Shape(s) && Kept(s, t) && s.mapped.User? && HasEntry(s, e)
    requires Entry(s, e).Resident() ==> Entry(s, e).frame == h
    requires forall o :: HasEntry(s, o) && o != e ==> HasEntry(t, o) && Entry(t, o) == Entry(s, o)
    ensures PtKept(s, t, h)
  {
    var pt := s.spaces[s.mapped.id].pt;
    assert SameLayout(s.spaces[s.mapped.id], t.spaces[s.mapped.id]);
    forall i | 0 <= i < |pt| && pt[i].Resident() && pt[i].frame != h ensures t.spaces[s.mapped.id].pt[i] == pt[i] {
      assert HasEntry(s, EntryRef(s.mapped.id, i)) && Entry(s, EntryRef(s.mapped.id, i)) == pt[i];
    }
  }

  ghost predicate PtKept(s: Vm, t: Vm, h: int) {
    && s.mapped.User? && t.mapped == s.mapped && s.mapped.id in s.spaces && t.mapped.id in t.spaces
    && SameLayout(s.spaces[s.mapped.id], t.spaces[s.mapped.id])
    && var pt := s.spaces[s.mapped.id].pt;
       forall i :: 0 <= i < |pt| && pt[i].Resident() && pt[i].frame != h ==> t.spaces[s.mapped.id].pt[i] == pt[i]
  }

  /** A slot goes on agreeing while the entry it maps stays as it was. */
  lemma SlotTransfer(s: Vm, h: int, t: Vm, h': int, x: int, m: TlbEntry)
    requires PtKept(s, t, x) && SlotAgrees(s, h, m) && m.frame != h' && m.frame != x
    ensures SlotAgrees(t, h', m)
  {
  }

  /** The evicted page itself: in its slot, or dropped and equal to its image. */
  lemma EvictedPage(s: Vm, f: nat, t: Vm, e: EntryRef)
    requires Inv(s) && Evictable(s, f) && Evicted(s, f, t) && Shape(t) && e == s.cm[f].owner.value
    ensures PageOf(t, e) == PageOf(s, e)
  {
    assert FrameNames(s, f);
    assert TextEntryOk(s, e);
    ImageKept(s, t, e);
  }

  lemma OtherPage(s: Vm, f: nat, t: Vm, o: EntryRef)
    requires Inv(s) && Evictable(s, f) && Evicted(s, f, t) && Shape(t) && HasEntry(s, o) && o != s.cm[f].owner.value
    ensures HasEntry(t, o) && PageOf(t, o) == PageOf(s, o)
  {
    if Entry(s, o).status == InSwap { assert InSwapAt(s, o, Entry(s, o).slot); }
    PageKept(s, t, o);
  }

  lemma EvictPages(s: Vm, f: nat, t: Vm)
    requires Inv(s) && Evictable(s, f) && Evicted(s, f, t)
    ensures Shape(t) && SamePages(s, t)
  {
    KeptShape(s, t);
    forall o | HasEntry(s, o) ensures HasEntry(t, o) && PageOf(t, o) == PageOf(s, o) {
      if o == s.cm[f].owner.value { EvictedPage(s, f, t, o); } else { OtherPage(s, f, t, o); }
    }
  }
}
