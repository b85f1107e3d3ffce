/** The virtual memory system in the form the kernel runs it: arrays changed in
    place by loops. Each method is proved to compute the state function that
    VmState gives for it. A false `ok` is a panic, a failed assertion, or a search for
    free frames that never ends.

    Source: kern/vm/coremap.c, kern/vm/vm.c, kern/vm/vm_tlb.c,
    kern/vm/swapfile.c and kern/vm/pt.c. */
module VmKernel {
  import opened Common
  import opened AddressSpace
  import opened Coremap
  import opened Bitmap
  import opened VmState
  import opened VmInvariant
  import opened VmSteps
  import opened VmDestroy
  import VmRuns

  class Kernel {
    const boot: nat
    const cm: array<Cm>
    var victim: nat
    const ram: array<Page>
    const swapmap: BitArray
    const swap: array<Page>
    const tlb: array<TlbEntry>
    var tlbVictim: nat
    var tlbFree: bool
    var spaces: map<int, Space>
    var cur: Running
    ghost var mapped: Running   // whom the TLB was last activated for

    ghost predicate Valid()
      reads this, cm, ram, swapmap, swapmap.v, swap, tlb
    {
      Separate() && swapmap.Valid() && Shape(State())
    }

    /** The buffers are different objects. */
    ghost predicate Separate() {
      && ram != swap
      && swapmap.v as object !in {cm as object, ram, swap, tlb}
      && cm as object !in {ram as object, swap, tlb} && tlb as object !in {ram as object, swap}
    }

    ghost function State(): Vm
      requires swapmap.Valid()
      reads this, cm, ram, swapmap, swapmap.v, swap, tlb
    {
      Vm(boot, cm[..], victim, ram[..], swapmap.Bits(), swap[..], tlb[..], tlbVictim, tlbFree, spaces, cur, mapped)
    }

    /** coremap_bootstrap and swap_bootstrap, on a machine with `frames` frames of
        which the first `kernelPages` hold the kernel and the map. */
    constructor (frames: nat, kernelPages: nat, slots: nat, tlbSlots: nat)
      requires 1 <= kernelPages <= frames && slots <= SWAP_INDEX_LIMIT && tlbSlots > 0
      ensures Valid() && VmRuns.BootState(State()) && boot == kernelPages && cm.Length == frames
      ensures fresh(cm) && fresh(ram) && fresh(swapmap) && fresh(swapmap.v) && fresh(swap) && fresh(tlb)
    {
      boot := kernelPages;
      cm := new Cm[frames](_ => FreeCm);
      ram := new Page[frames](_ => ZeroPage());
      swapmap := new BitArray(slots);
      swap := new Page[slots](_ => ZeroPage());
      tlb := new TlbEntry[tlbSlots](_ => InvalidTlb(0));
      victim, tlbVictim, tlbFree, spaces, cur, mapped := 0, 0, true, map[], KernelOnly, KernelOnly;
      new;
      InitMap(cm, kernelPages);
    }

    /** coremap_find_freeframes. Where the loop of the code would repeat one round for
        ever, the result is that the scan does not end. */
    method FindFreeFrames(npages: nat) returns (ends: bool, beginning: int)
      ensures FindFree(cm[..], npages) == if ends then Some(beginning) else None
    {
      ghost var c := cm[..];
      var end := 0;
      beginning := -1;
      while end < cm.Length
        invariant 0 <= end && -1 <= beginning && c == cm[..]
        invariant ScanFrom(c, npages, At(end, beginning)) == FindFree(c, npages)
        decreases cm.Length - end
      {
        if cm[end].used {
          if cm[end].size == 0 {
            return false, -1;
          }
          beginning := -1;
          end := end + cm[end].size;
        } else {
          if beginning == -1 {
            beginning := end;
          }
          end := end + 1;
          if end - beginning == npages {
            break;
          }
        }
      }
      ends := true;
      if end - beginning != npages {
        beginning := -1;
      }
    }

    /** coremap_get_victim: one turn round the frames at most. */
    method GetVictim() returns (r: int)
      requires victim < cm.Length
      modifies this`victim
      ensures -1 <= r < cm.Length
      ensures NextVictim(cm[..], old(victim), 1) == if r == -1 then None else Some(r)
      ensures victim == if r == -1 then old(victim) else r
    {
      ghost var c, v := cm[..], victim;
      var i := 0;
      while i < cm.Length
        invariant 0 <= i <= cm.Length && cm[..] == c && victim == Around(cm.Length, v, i)
        invariant NextVictim(c, v, 1) == NextVictim(c, v, i + 1)
      {
        AroundStep(cm.Length, v, i);
        victim := (victim + 1) % cm.Length;
        if cm[victim].owner.Some? && !cm[victim].lock {
          return victim;
        }
        i := i + 1;
      }
      r := -1;
    }

    /** tlb_invalidate. */
    method TlbInvalidateAll()
      requires Valid()
      modifies tlb, this`tlbVictim, this`tlbFree
      ensures Valid() && State() == TlbInvalidate(old(State()))
    {
      for i := 0 to tlb.Length
        modifies tlb
        invariant forall k :: 0 <= k < i ==> tlb[k] == InvalidTlb(k)
      {
        tlb[i] := InvalidTlb(i);
      }
      tlbVictim := 0;
      tlbFree := true;
    }

    /** The switch to a process: its space becomes current and as_activate clears the TLB. */
    method Activate(id: int)
      requires Valid() && id in spaces
      modifies tlb, this`tlbVictim, this`tlbFree, this`cur, this`mapped
      ensures Valid() && VmRuns.Step(old(State()), VmRuns.Activate(id)) == Some(State())
    {
      cur := User(id);
      mapped := User(id);
      TlbInvalidateAll();
    }

    /** tlb_insert. */
    method TlbInsertEntry(vpage: nat, frame: nat, ro: bool)
      requires Valid()
      modifies tlb, this`tlbVictim, this`tlbFree
      ensures swapmap.Valid() && State() == TlbInsert(old(State()), vpage, frame, ro)
    {
      tlb[tlbVictim] := TlbEntry(vpage, frame, true, !ro);
      tlbVictim := (tlbVictim + 1) % tlb.Length;
      if tlbVictim == 0 {
        tlbFree := false;
      }
    }

    /** tlb_remove_by_paddr: the loop stops at its first match. */
    method TlbRemoveByPaddr(frame: nat)
      modifies tlb
      ensures tlb[..] == TlbRemove(old(tlb[..]), frame, 0)
    {
      ghost var was := tlb[..];
      var i := 0;
      while i < tlb.Length
        invariant 0 <= i <= tlb.Length && tlb[..] == was
        invariant TlbRemove(was, frame, 0) == TlbRemove(was, frame, i)
      {
        if tlb[i].frame == frame {
          tlb[i] := InvalidTlb(i);
          assert tlb[..] == was[i := InvalidTlb(i)];
          return;
        }
        i := i + 1;
      }
    }

    /** swap_out. */
    method SwapOutFrame(frame: nat) returns (ok: bool, slot: nat)
      requires Valid() && frame < ram.Length
      modifies swapmap.v, swap
      ensures Valid()
      ensures var r := SwapOut(old(State()), frame);
              ok == r.Some? && (ok ==> r == Some((State(), slot)))
    {
      var k := swapmap.Alloc();
      ok, slot := k.Some?, 0;
      if ok {
        slot := k.value;
        swap[slot] := ram[frame];
      }
    }

    /** swap_in. */
    method SwapInFrame(frame: nat, slot: nat) returns (ok: bool)
      requires Valid() && frame < ram.Length
      modifies swapmap.v, ram
      ensures Valid()
      ensures var r := SwapIn(old(State()), frame, slot);
              ok == r.Some? && (ok ==> r == Some(State()))
    {
      if slot >= swapmap.nbits {
        return false;
      }
      ok := swapmap.IsSet(slot);
      if ok {
        ram[frame] := swap[slot];
        swapmap.Unmark(slot);
      }
    }

    /** pt_set_entry. */
    method PtSetEntry(e: EntryRef, pe: PtEntry)
      requires Valid() && HasEntry(State(), e)
      modifies this`spaces
      ensures swapmap.Valid() && State() == SetEntry(old(State()), e, pe)
    {
      var sp := spaces[e.id];
      spaces := spaces[e.id := sp.(pt := sp.pt[e.idx := pe])];
    }

    /** The swap write of coremap_swapout, with the frame locked while it lasts. */
    method WriteVictim(frame: nat) returns (ok: bool, slot: nat)
      requires Valid() && frame < cm.Length && !cm[frame].lock
      modifies cm, swapmap.v, swap
      ensures Valid()
      ensures var r := SwapOut(old(State()), frame);
              ok == r.Some? && (ok ==> r == Some((State(), slot)))
    {
      cm[frame] := cm[frame].(lock := true);
      ok, slot := SwapOutFrame(frame);
      cm[frame] := cm[frame].(lock := false);
      assert cm[..] == old(cm[..]);
    }

    /** coremap_swapout after the victim is chosen. */
    method EvictFrame(frame: nat) returns (ok: bool)
      requires Valid() && frame < cm.Length && !cm[frame].lock
      requires cm[frame].owner.Some? && HasEntry(State(), cm[frame].owner.value)
      modifies this`spaces, cm, swapmap.v, swap, tlb
      ensures swapmap.Valid()
      ensures var r := Evict(old(State()), frame);
              ok == r.Some? && (ok ==> r == Some(State()))
    {
      var e := cm[frame].owner.value;
      if spaces[e.id].pt[e.idx].status == InMemoryRdonly {
        PtSetEntry(e, FreshEntry);
        TlbRemoveByPaddr(frame);
        ok := true;
      } else {
        var slot;
        ok, slot := WriteVictim(frame);
        if ok {
          PtSetEntry(e, PtEntry(0, slot, InSwap));
          TlbRemoveByPaddr(frame);
        }
      }
    }

    /** coremap_swapout for one page, with the two assertions on the victim. */
    method Swapout() returns (ok: bool, frame: nat)
      requires Valid() && Inv(State())
      modifies this`victim, this`spaces, cm, swapmap.v, swap, tlb
      ensures swapmap.Valid()
      ensures var r := SwapoutOne(old(State()));
              ok == r.Some? && (ok ==> r == Some((State(), frame)))
    {
      ghost var s := State();
      var v := GetVictim();
      if v == -1 || !cm[v].used || cm[v].size != 1 {
        return false, 0;
      }
      frame := v;
      assert Valid() && State() == s.(victim := frame);
      assert FrameNames(s, frame);
      ok := EvictFrame(frame);
    }

    /** The last part of coremap_getppages: clear the frames and record the run. */
    method ClaimRun(first: nat, npages: nat, owner: Option<EntryRef>)
      requires swapmap.Valid() && Separate() && first < cm.Length == ram.Length && first + npages <= cm.Length
      modifies cm, ram
      ensures swapmap.Valid() && State() == Claim(old(State()), first, npages, owner)
    {
      ghost var c, m := cm[..], ram[..];
      var i := 0;
      while i < npages
        modifies ram
        invariant 0 <= i <= npages
        invariant forall k :: 0 <= k < ram.Length ==> ram[k] == if first <= k < first + i then ZeroPage() else m[k]
      {
        ram[first + i] := ZeroPage();
        i := i + 1;
      }
      cm[first] := cm[first].(size := npages);
      i := 0;
      while i < npages
        modifies cm
        invariant 0 <= i <= npages
        invariant forall k :: 0 <= k < cm.Length ==>
                    cm[k] == Taken(c[k], k == first, first <= k < first + i, npages, owner)
      {
        cm[first + i] := cm[first + i].(used := true, owner := owner);
        i := i + 1;
      }
      assert cm[..] == AllocRun(c, first, npages, owner);
      assert ram[..] == ZeroRun(m, first, npages);
    }

    /** coremap_getppages, with the panic of getppages on address 0. */
    method GetPpages(npages: nat, owner: Option<EntryRef>) returns (ok: bool, frame: nat)
      requires Valid() && Inv(State())
      modifies this`victim, this`spaces, cm, ram, swapmap.v, swap, tlb
      ensures swapmap.Valid()
      ensures var r := GetPages(old(State()), npages, owner);
              ok == r.Some? && (ok ==> r == Some((State(), frame)))
    {
      var ends, beginning := FindFreeFrames(npages);
      FindFreeIs(cm[..], npages);
      if !ends {
        return false, 0;
      } else if beginning == -1 {
        if npages > 1 {
          return false, 0;
        }
        ok, frame := Swapout();
        if !ok || frame == 0 {
          return false, 0;
        }
      } else {
        frame := beginning;
        if frame == 0 {
          return false, 0;
        }
      }
      ClaimRun(frame, npages, owner);
      ok := true;
    }

    /** coremap_freeppages of the run at `first`, a head. */
    method FreePpages(first: nat)
      requires Valid() && Laid(cm[..]) && first < cm.Length && cm[first].size > 0
      modifies cm
      ensures swapmap.Valid() && State() == old(State()).(cm := ReleaseRun(old(cm[..]), first))
    {
      ghost var c := cm[..];
      var allocSize := cm[first].size;
      cm[first] := cm[first].(size := 0);
      var i := 0;
      while i < allocSize
        invariant 0 <= i <= allocSize
        invariant forall k :: 0 <= k < cm.Length ==>
                    cm[k] == Released(c[k], k == first, first <= k < first + i)
      {
        cm[first + i] := cm[first + i].(used := false);
        i := i + 1;
      }
      assert cm[..] == ReleaseRun(c, first);
    }

    /** The NOT_LOADED case of vm_fault. */
    method LoadPage(e: EntryRef, t: SegmentType, va: nat) returns (ok: bool)
      requires Valid() && Inv(State()) && HasEntry(State(), e)
      requires Within(SegmentOf(spaces[e.id], t), va)
      modifies this`victim, this`spaces, cm, ram, swapmap.v, swap, tlb
      ensures swapmap.Valid()
      ensures var r := FaultLoad(old(State()), e, t, va);
              ok == r.Some? && (ok ==> r == Some(State()))
    {
      ghost var s := State();
      var sp := spaces[e.id];
      assert WfSegments(sp);
      var frame;
      ok, frame := GetPpages(1, Some(e));
      if !ok {
        return;
      }
      KeptShape(s, State());
      PtSetEntry(e, PtEntry(frame, 0, StatusWhenResident(t)));
      var page := LoadFrame(ram[frame], SegmentOf(sp, t), t == Stack, sp.elf, va);
      ok := page.Some?;
      if ok {
        ram[frame] := page.value;
      }
    }

    /** The IN_SWAP case of vm_fault. */
    method SwapInPage(e: EntryRef, t: SegmentType) returns (ok: bool)
      requires Valid() && Inv(State()) && HasEntry(State(), e)
      modifies this`victim, this`spaces, cm, ram, swapmap.v, swap, tlb
      ensures swapmap.Valid()
      ensures var r := FaultSwapIn(old(State()), e, t);
              ok == r.Some? && (ok ==> r == Some(State()))
    {
      ghost var s := State();
      var frame;
      ok, frame := GetPpages(1, Some(e));
      if !ok {
        return;
      }
      ghost var s1 := State();
      KeptShape(s, s1);
      ok := SwapInFrame(frame, spaces[e.id].pt[e.idx].slot);
      if ok {
        PtSetEntry(e, PtEntry(frame, 0, StatusWhenResident(t)));
      }
    }

    /** The switch of vm_fault on the status of the entry. */
    method BringIn(e: EntryRef, t: SegmentType, va: nat) returns (ok: bool)
      requires Valid() && Inv(State()) && HasEntry(State(), e)
      requires Within(SegmentOf(spaces[e.id], t), va)
      modifies this`victim, this`spaces, cm, ram, swapmap.v, swap, tlb
      ensures swapmap.Valid()
      ensures var r := MakeResident(old(State()), e, t, va);
              ok == r.Some? && (ok ==> r == Some(State()))
    {
      ok := true;
      match spaces[e.id].pt[e.idx].status {
        case NotLoaded => ok := LoadPage(e, t, va);
        case InSwap => ok := SwapInPage(e, t);
        case InMemory =>
        case InMemoryRdonly =>
      }
    }

    /** vm_fault. The result is that of the function Fault, with the new state in
        place of its `vm`. */
    method VmFault(kind: FaultType, va: nat) returns (r: FaultOutcome)
      requires Valid() && Inv(State())
      modifies this`victim, this`spaces, this`tlbVictim, this`tlbFree, cm, ram, swapmap.v, swap, tlb
      ensures swapmap.Valid()
      ensures match Fault(old(State()), kind, va)
              case Handled(vm) => r == Resolved && State() == vm
              case Invalid => r == EINVAL && State() == old(State())
              case NoSpace => r == EFAULT && State() == old(State())
              case Killed => r == ProcessKilled && State() == old(State())
              case Panicked => r == KernelPanic
    {
      ghost var s := State();
      if kind == FaultReadonly {
        return ProcessKilled;
      } else if kind == FaultOther {
        return EINVAL;
      }
      if cur.KernelOnly? {
        return EFAULT;
      }
      var sp := spaces[cur.id];
      assert WfSegments(sp);
      var t := SegmentTypeOf(sp, va);
      if t.None? {
        return ProcessKilled;
      }
      var e := EntryRef(cur.id, PtIndex(sp, va));
      var ok := BringIn(e, t.value, va);
      if !ok {
        return KernelPanic;
      }
      KeptShape(s, State());
      TlbInsertEntry(va / PAGE_SIZE, spaces[e.id].pt[e.idx].frame, t.value == Text);
      r := Resolved;
    }

    /** One round of pt_empty, where its assertions hold. */
    method ReleaseOne(pe: PtEntry)
      requires Valid() && Laid(cm[..]) && ReleaseEntry(State(), pe).Some?
      modifies cm, swapmap.v
      ensures Valid() && ReleaseEntry(old(State()), pe) == Some(State())
    {
      if pe.Resident() {
        FreePpages(pe.frame);
      } else if pe.status == InSwap {
        swapmap.Unmark(pe.slot);
      }
    }

    /** pt_empty and the rest of as_destroy: no assertion of the loop fails, and
        the space gives back exactly its own frames and slots. */
    method AsDestroy(id: int)
      requires Valid() && Inv(State()) && id in spaces
      modifies this`spaces, this`mapped, cm, swapmap.v
      ensures swapmap.Valid() && GivesBack(old(State()), id, State())
      ensures Destroy(old(State()), id) == Some(State())
    {
      ghost var s := State();
      var pt := spaces[id].pt;
      PtEmptyRuns(s, id, 0, s);
      var i := 0;
      while i < |pt|
        invariant 0 <= i <= |pt| && Valid() && EmptiedTo(s, id, i, State())
        invariant PtEmpty(s, pt, 0) == PtEmpty(State(), pt, i)
      {
        ReleaseEntryStep(s, id, i, State());
        ReleaseOne(pt[i]);
        i := i + 1;
      }
      DestroyGivesBack(s, id);
      spaces := spaces - {id};
      mapped := if mapped == User(id) then KernelOnly else mapped;
    }
  }

  /** The two loops of coremap_bootstrap. */
  method InitMap(cm: array<Cm>, kernelPages: nat)
    requires kernelPages <= cm.Length
    modifies cm
    ensures cm[..] == Bootstrap(cm.Length, kernelPages)
  {
    for i := 0 to cm.Length
      invariant forall k :: 0 <= k < i ==> cm[k] == FreeCm
    {
      cm[i] := Cm(false, 0, false, None);
    }
    for i := 0 to kernelPages
      invariant forall k :: 0 <= k < cm.Length ==> cm[k] == if k < i then BootCm else FreeCm
    {
      cm[i] := cm[i].(used := true, size := 1);
    }
  }

  datatype FaultOutcome = Resolved | EINVAL | EFAULT | ProcessKilled | KernelPanic

  lemma AroundStep(n: nat, v: nat, i: nat)
    requires v < n && i < n
    ensures (Around(n, v, i) + 1) % n == Around(n, v, i + 1)
  {
    NextIndex(Around(n, v, i), n);
  }

  lemma NextIndex(x: nat, n: nat)
    requires x < n
    ensures (x + 1) % n == if x + 1 < n then x + 1 else 0
  {
  }
}
