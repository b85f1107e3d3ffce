/** as_destroy releases exactly the frames and the swap slots of its space. */
module VmDestroy {
  import opened Common
  import opened AddressSpace
  import opened Coremap
  import opened VmState
  import opened VmInvariant

  /** Some entry below index i of the table holds swap slot k. */
  ghost predicate HoldsSlot(pt: seq<PtEntry>, i: nat, k: int)
    requires i <= |pt|
  {
    exists j :: 0 <= j < i && pt[j].status == InSwap && pt[j].slot == k
  }

  /** Frame c holds a page of an entry below index i of space id. */
  predicate HeldBy(c: Cm, id: int, i: nat) {
    Owned(c) && c.owner.value.id == id && c.owner.value.idx < i
  }

  ghost predicate SameLost(a: seq<Cm>, b: seq<Cm>) { forall i :: Lost(b, i) <==> Lost(a, i) }

  /** The state after i rounds of pt_empty on space id of state s: the frames and
      slots of the first i entries are free, all else is as it was. */
  ghost predicate EmptiedTo(s: Vm, id: int, i: nat, t: Vm)
    requires id in s.spaces && i <= |s.spaces[id].pt|
  {
    && t == s.(cm := t.cm, swapmap := t.swapmap)
    && |t.cm| == |s.cm| && |t.swapmap| == |s.swapmap| && Laid(t.cm) && SameLost(s.cm, t.cm)
    && (forall f :: 0 <= f < |s.cm| ==>
          t.cm[f] == if HeldBy(s.cm[f], id, i) then Released(s.cm[f], true, true) else s.cm[f])
    && (forall k :: 0 <= k < |s.swapmap| ==>
          (t.swapmap[k] <==> s.swapmap[k] && !HoldsSlot(s.spaces[id].pt, i, k)))
  }

  /** One round of the loop never fails an assertion. */
  lemma ReleaseEntryStep(s: Vm, id: int, i: nat, t: Vm)
    requires Inv(s) && id in s.spaces && i < |s.spaces[id].pt| && EmptiedTo(s, id, i, t)
    ensures var r := ReleaseEntry(t, s.spaces[id].pt[i]);
            r.Some? && EmptiedTo(s, id, i + 1, r.value)
  {
    var pt := s.spaces[id].pt;
    var pe, e := pt[i], EntryRef(id, i);
    assert HasEntry(s, e) && Entry(s, e) == pe;
    if pe.Resident() {
      ReleaseFrameStep(s, id, i, t);
    } else if pe.status == InSwap {
      ReleaseSlotStep(s, id, i, t);
    } else {
      NoSlotStep(s, id, i);
      assert EmptiedTo(s, id, i + 1, t) by {
        forall f | 0 <= f < |s.cm| ensures HeldBy(s.cm[f], id, i + 1) <==> HeldBy(s.cm[f], id, i) {
          assert Owned(s.cm[f]) ==> FrameNames(s, f);
        }
      }
    }
  }

  lemma NoSlotStep(s: Vm, id: int, i: nat)
    requires id in s.spaces && i < |s.spaces[id].pt| && s.spaces[id].pt[i].status != InSwap
    ensures forall k :: HoldsSlot(s.spaces[id].pt, i + 1, k) <==> HoldsSlot(s.spaces[id].pt, i, k)
  {
  }

  lemma ReleaseFrameStep(s: Vm, id: int, i: nat, t: Vm)
    requires Inv(s) && id in s.spaces && i < |s.spaces[id].pt| && EmptiedTo(s, id, i, t)
    requires s.spaces[id].pt[i].Resident()
    ensures var r := ReleaseEntry(t, s.spaces[id].pt[i]);
            r.Some? && EmptiedTo(s, id, i + 1, r.value)
  {
    var e := EntryRef(id, i);
    var f := s.spaces[id].pt[i].frame;
    assert HasEntry(s, e) && Entry(s, e).frame == f;
    assert EntryNames(s, NO_FRAME, e);
    assert FrameNames(s, f);
    assert t.cm[f] == s.cm[f];
    ReleaseLaid(t.cm, f);
    NoSlotStep(s, id, i);
    var r := t.(cm := ReleaseRun(t.cm, f));
    forall g | 0 <= g < |s.cm|
      ensures r.cm[g] == if HeldBy(s.cm[g], id, i + 1) then Released(s.cm[g], true, true) else s.cm[g]
    {
      assert Owned(s.cm[g]) ==> FrameNames(s, g);
    }
  }

  lemma ReleaseSlotStep(s: Vm, id: int, i: nat, t: Vm)
    requires Inv(s) && id in s.spaces && i < |s.spaces[id].pt| && EmptiedTo(s, id, i, t)
    requires s.spaces[id].pt[i].status == InSwap
    ensures var r := ReleaseEntry(t, s.spaces[id].pt[i]);
            r.Some? && EmptiedTo(s, id, i + 1, r.value)
  {
    var pt, e := s.spaces[id].pt, EntryRef(id, i);
    var k := pt[i].slot;
    assert InSwapAt(s, e, k);
    assert !HoldsSlot(pt, i, k) by {
      if HoldsSlot(pt, i, k) {
        var j :| 0 <= j < i && pt[j].status == InSwap && pt[j].slot == k;
        assert InSwapAt(s, EntryRef(id, j), k);
      }
    }
    forall f | 0 <= f < |s.cm| ensures HeldBy(s.cm[f], id, i + 1) <==> HeldBy(s.cm[f], id, i) {
      assert Owned(s.cm[f]) ==> FrameNames(s, f);
    }
    SlotStep(pt, i);
  }

  lemma SlotStep(pt: seq<PtEntry>, i: nat)
    requires i < |pt| && pt[i].status == InSwap
    ensures forall k :: HoldsSlot(pt, i + 1, k) <==> HoldsSlot(pt, i, k) || k == pt[i].slot
  {
    forall k ensures HoldsSlot(pt, i + 1, k) <==> HoldsSlot(pt, i, k) || k == pt[i].slot {
      if k == pt[i].slot { assert 0 <= i < i + 1 && pt[i].status == InSwap && pt[i].slot == k; }
    }
  }

  /** pt_empty runs to its end and leaves the state EmptiedTo describes. */
  lemma {:induction false} PtEmptyRuns(s: Vm, id: int, i: nat, t: Vm)
    requires Inv(s) && id in s.spaces && i <= |s.spaces[id].pt| && EmptiedTo(s, id, i, t)
    ensures var pt := s.spaces[id].pt;
            var r := PtEmpty(t, pt, i);
            r.Some? && EmptiedTo(s, id, |pt|, r.value)
    decreases |s.spaces[id].pt| - i
  {
    if i < |s.spaces[id].pt| {
      ReleaseEntryStep(s, id, i, t);
      PtEmptyRuns(s, id, i + 1, ReleaseEntry(t, s.spaces[id].pt[i]).value);
    }
  }

  /** The frames and slots a destroyed space gives back are exactly its own. */
  ghost predicate GivesBack(s: Vm, id: int, t: Vm)
    requires id in s.spaces
  {
    && |t.cm| == |s.cm| && |t.swapmap| == |s.swapmap|
    && t.spaces == s.spaces - {id} && t.mapped == (if s.mapped == User(id) then KernelOnly else s.mapped)
    && t == s.(cm := t.cm, swapmap := t.swapmap, spaces := t.spaces, mapped := t.mapped)
    && (forall f :: 0 <= f < |s.cm| ==>
          t.cm[f] == if HeldBySpace(s.cm[f], id) then Released(s.cm[f], true, true) else s.cm[f])
    && (forall k :: 0 <= k < |s.swapmap| ==>
          (t.swapmap[k] <==> s.swapmap[k] && !HoldsSlot(s.spaces[id].pt, |s.spaces[id].pt|, k)))
  }

  predicate HeldBySpace(c: Cm, id: int) { Owned(c) && c.owner.value.id == id }

  lemma DestroyGivesBack(s: Vm, id: int)
    requires Inv(s) && id in s.spaces
    ensures var r := Destroy(s, id);
            r.Some? && GivesBack(s, id, r.value) && Laid(r.value.cm) && SameLost(s.cm, r.value.cm)
  {
    assert EmptiedTo(s, id, 0, s);
    PtEmptyRuns(s, id, 0, s);
    forall f | 0 <= f < |s.cm| && HeldBySpace(s.cm[f], id)
      ensures HeldBy(s.cm[f], id, |s.spaces[id].pt|)
    {
      assert FrameNames(s, f);
    }
  }

  lemma DestroySound(s: Vm, id: int)
    requires Inv(s) && id in s.spaces && s.cur != User(id)
    ensures var r := Destroy(s, id);
            && r.Some? && Inv(r.value) && r.value.spaces == s.spaces - {id}
            && forall e :: HasEntry(r.value, e) ==> HasEntry(s, e) && PageOf(r.value, e) == PageOf(s, e)
  {
    DestroyGivesBack(s, id);
    var t := Destroy(s, id).value;
    GivenBackNames(s, id, t);
    GivenBackRuns(s, id, t);
    GivenBackSlots(s, id, t);
    GivenBackRest(s, id, t);
  }

  lemma GivenBackNames(s: Vm, id: int, t: Vm)
    requires Inv(s) && id in s.spaces && GivesBack(s, id, t)
    ensures FramesNameEntries(t, NO_FRAME) && EntriesNameFrames(t, NO_FRAME)
  {
    forall f | 0 <= f < |t.cm| && Owned(t.cm[f]) ensures FrameNames(t, f) {
      assert FrameNames(s, f);
    }
    forall e | HasEntry(t, e) && Entry(t, e).Resident() ensures EntryNames(t, NO_FRAME, e) {
      assert HasEntry(s, e) && EntryNames(s, NO_FRAME, e);
    }
  }

  lemma GivenBackRuns(s: Vm, id: int, t: Vm)
    requires Inv(s) && id in s.spaces && GivesBack(s, id, t)
    ensures InsideUnowned(t.cm)
  {
    forall h, i | Covers(t.cm, h, i) && h < i ensures t.cm[i].owner.None? { assert Covers(s.cm, h, i); }
  }

  lemma SwappedEntryHolds(s: Vm, e: EntryRef, k: int)
    requires InSwapAt(s, e, k)
    ensures HoldsSlot(s.spaces[e.id].pt, |s.spaces[e.id].pt|, k)
  {
    var pt := s.spaces[e.id].pt;
    assert pt[e.idx].status == InSwap && pt[e.idx].slot == k;
  }

  lemma GivenBackSlots(s: Vm, id: int, t: Vm)
    requires Inv(s) && id in s.spaces && GivesBack(s, id, t)
    ensures SlotsMatch(t)
  {
    var pt := s.spaces[id].pt;
    assert forall e, k :: InSwapAt(t, e, k) ==> InSwapAt(s, e, k) && e.id != id;
    forall e, k | InSwapAt(t, e, k) ensures 0 <= k < |t.swapmap| && t.swapmap[k] {
      assert forall j :: 0 <= j < |pt| && pt[j].status == InSwap ==> InSwapAt(s, EntryRef(id, j), pt[j].slot);
    }
    forall k | 0 <= k < |t.swapmap| && t.swapmap[k] ensures Occupied(t, k) {
      assert Occupied(s, k);
      var e :| InSwapAt(s, e, k);
      SwappedEntryHolds(s, e, k);
      assert InSwapAt(t, e, k);
    }
  }

  lemma GivenBackRest(s: Vm, id: int, t: Vm)
    requires Inv(s) && id in s.spaces && s.cur != User(id) && GivesBack(s, id, t)
    ensures Shape(t) && SpacesOk(t) && BootFrames(t) && Unlocked(t) && TextIsImage(t) && TlbAgrees(t, NO_FRAME)
    ensures forall e :: HasEntry(t, e) ==> HasEntry(s, e) && PageOf(t, e) == PageOf(s, e)
  {
    forall i | 0 <= i < s.boot ensures t.cm[i] == BootCm { assert s.cm[i] == BootCm; }
    forall e | HasEntry(t, e) ensures HasEntry(s, e) && TextEntryOk(t, e) && PageOf(t, e) == PageOf(s, e) {
      assert TextEntryOk(s, e);
    }
    if t.mapped.User? {
      forall i | 0 <= i < |t.tlb| && t.tlb[i].valid ensures SlotAgrees(t, NO_FRAME, t.tlb[i]) {
        assert SlotAgrees(s, NO_FRAME, s.tlb[i]);
      }
    }
  }
}
