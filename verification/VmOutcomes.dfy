/** What happens, and when: which page requests are served and with which frames, what each
    fault comes to, that every access of a process inside its program completes, and which
    events can happen, all in terms of the run so far. */
module VmOutcomes {
  import opened Common
  import opened AddressSpace
  import opened Bitmap
  import opened Coremap
  import opened VmState
  import opened VmInvariant
  import opened VmSteps
  import opened VmDestroy
  import opened VmRuns
  import opened VmHistory
  import opened VmTheorems

  // ----------------------------------------------------------------- page requests

  ghost predicate SomeFree(cm: seq<Cm>, n: nat) { exists a: nat :: FreeRange(cm, a, n) }

  /** f is the least start of n free frames. */
  ghost predicate LeastFree(cm: seq<Cm>, n: nat, f: nat) {
    FreeRange(cm, f, n) && forall a: nat :: a < f ==> !FreeRange(cm, a, n)
  }

  lemma FirstFreeIff(cm: seq<Cm>, n: nat)
    ensures var r := FirstFree(cm, n, 0);
            (r.Some? <==> SomeFree(cm, n)) && (r.Some? ==> LeastFree(cm, n, r.value))
  {
    if a: nat :| FreeRange(cm, a, n) { assert a < |cm|; }
  }

  /** A request for two or more pages is served exactly when so many frames in a row are free
      (and the search ends, as it does on a tiling); it gets the first such frames, which
      then read as zeros, and nothing is evicted. */
  lemma ManyPagesServedIff(s: Vm, n: nat, owner: Option<EntryRef>)
    requires Inv(s) && n >= 2
    ensures GetPages(s, n, owner).Some? <==> ScanEnds(s.cm, n) && SomeFree(s.cm, n)
    ensures Tiled(s.cm) ==> ScanEnds(s.cm, n)
    ensures GetPages(s, n, owner).Some? ==>
              var (t, f) := GetPages(s, n, owner).value;
              && LeastFree(s.cm, n, f) && t.cm == AllocRun(s.cm, f, n, owner)
              && t == s.(cm := t.cm, ram := t.ram)
              && (forall i :: f <= i < f + n && i < |t.ram| ==> t.ram[i] == ZeroPage())
  {
    ScanEndsIff(s.cm, n);
    FindFreeIs(s.cm, n);
    FirstFreeIff(s.cm, n);
    if FindFree(s.cm, n).Some? && FindFree(s.cm, n).value >= 0 {
      ClaimableApart(s, NO_FRAME, FindFree(s.cm, n).value, n);
    }
  }

  /** The frame one page comes from: the first free one, else the next victim's. */
  lemma OnePageFrom(s: Vm, owner: Option<EntryRef>)
    requires Inv(s) && GetPages(s, 1, owner).Some?
    ensures var (t, f) := GetPages(s, 1, owner).value;
            && t.cm == AllocRun(s.cm, f, 1, owner) && f < |t.ram| && t.ram[f] == ZeroPage()
            && (if SomeFree(s.cm, 1) then LeastFree(s.cm, 1, f) && t.victim == s.victim
                else NextVictim(s.cm, s.victim, 1) == Some(f) && t.victim == f)
  {
    RequestEffect(s, 1, owner);
    RequestZeroes(s, 1, owner, GetPages(s, 1, owner).value.1);
    FindFreeIs(s.cm, 1);
    FirstFreeIff(s.cm, 1);
  }

  /** A request for no pages is served exactly when the next victim holds a page that can be
      given up: it is text, or a swap slot is clear. */
  lemma NoPagesServedIff(s: Vm)
    requires Inv(s)
    ensures GetPages(s, 0, None).Some? <==>
              && ScanEnds(s.cm, 0)
              && var v := NextVictim(s.cm, s.victim, 1);
                 && v.Some? && Owned(s.cm[v.value])
                 && !(VictimDirty(s, v.value) && forall k :: 0 <= k < |s.swapmap| ==> s.swapmap[k])
  {
    ScanEndsIff(s.cm, 0);
    FindFreeIs(s.cm, 0);
    var v := NextVictim(s.cm, s.victim, 1);
    if v.Some? && Owned(s.cm[v.value]) {
      assert FrameNames(s, v.value);
      assert s.(victim := v.value).cm[v.value] == s.cm[v.value];
    }
  }

  /** A page that is evicted and not dropped goes to the first clear swap slot. */
  lemma EvictedTo(s: Vm)
    requires Inv(s) && SwapoutOne(s).Some?
    ensures var (t, f) := SwapoutOne(s).value;
            && Owned(s.cm[f]) && HasEntry(s, s.cm[f].owner.value) && HasEntry(t, s.cm[f].owner.value)
            && (var e := s.cm[f].owner.value;
                if IsText(s, e) then Entry(t, e) == FreshEntry
                else
                  && InSwapAt(t, e, Entry(t, e).slot) && Entry(t, e).slot < |s.swapmap| && !s.swapmap[Entry(t, e).slot]
                  && forall k :: 0 <= k < Entry(t, e).slot ==> s.swapmap[k])
  {
    var f := NextVictim(s.cm, s.victim, 1).value;
    assert FrameNames(s, f);
    assert TextEntryOk(s, s.cm[f].owner.value);
    FirstClearIs(s.swapmap);
  }

  lemma FirstClearIs(bits: seq<bool>)
    ensures var k := FirstClear(bits, 0);
            k.Some? ==> k.value < |bits| && !bits[k.value] && forall j :: 0 <= j < k.value ==> bits[j]
  {
  }

  /** The frames of a destroyed process are free, but go on naming its entries, so that a
      search for a victim may still stop at them. */
  lemma FreedStillEligible(s: Vm, id: int, f: nat)
    requires Inv(s) && Step(s, Reap(id)).Some? && f < |s.cm| && HeldBySpace(s.cm[f], id)
    ensures var t := Step(s, Reap(id)).value;
            f < |t.cm| && !t.cm[f].used && t.cm[f].owner == s.cm[f].owner && Eligible(t.cm[f])
  {
    DestroyGivesBack(s, id);
  }

  // -------------------------------------------------------------- what a fault comes to

  /** The page of va is in memory. */
  predicate InMemory(s: Vm, id: int, va: nat) {
    && id in s.spaces && WfSegments(s.spaces[id]) && SegmentTypeOf(s.spaces[id], va).Some?
    && s.spaces[id].pt[PtIndex(s.spaces[id], va)].Resident()
  }

  /** The page of va has never been in memory, or is text that was dropped. */
  predicate ToLoad(s: Vm, id: int, va: nat) {
    && id in s.spaces && WfSegments(s.spaces[id]) && SegmentTypeOf(s.spaces[id], va).Some?
    && s.spaces[id].pt[PtIndex(s.spaces[id], va)].status == NotLoaded
  }

  /** The page of va is there, or can be brought in: a frame can be had and, if the page is
      to be loaded, the file holds it. */
  ghost predicate Available(evs: seq<Event>, s: Vm, id: int, va: nat)
    requires Shape(s) && Has(evs, id, va)
  {
    var ev := Creation(evs, id).value;
    InMemory(s, id, va) || (!NoFrame(s) && (ToLoad(s, id, va) ==> FileHolds(ev.text, ev.data, ev.elf, va)))
  }

  /** What an address of a program is in a space laid out for it. */
  lemma LayoutFacts(text: Phdr, data: Phdr, elf: seq<byte>, sp: Space, va: nat)
    requires Loadable(text, data, elf) && SameLayout(BuildSpace(text, data, elf).value, sp) && InProgram(text, data, va)
    ensures WfSpace(sp) && SegmentTypeOf(sp, va).Some?
    ensures var ty := SegmentTypeOf(sp, va).value;
            && Within(SegmentOf(sp, ty), va) && TypeAt(sp, PtIndex(sp, va)) == ty
            && (ty == Text <==> InHeader(text, va)) && (FileShort(sp, ty, va) <==> !FileHolds(text, data, elf, va))
  {
    var built := BuildSpace(text, data, elf).value;
    BuiltSpace(text, data, elf);
    BuiltLoadsIff(text, data, elf, va);
    SameLayoutSameIndex(built, sp, va);
    assert sp == built.(pt := sp.pt);
    PtIndexInSegment(sp, va);
  }

  /** What a process's address is, in its table. */
  lemma Located(s0: Vm, evs: seq<Event>, s: Vm, id: int, va: nat) returns (e: EntryRef, ty: SegmentType)
    requires BootState(s0) && RunsTo(s0, evs, s) && Has(evs, id, va)
    ensures Inv(s) && Reached(s) && id in s.spaces && e.id == id && HasEntry(s, e)
    ensures SegmentTypeOf(s.spaces[id], va) == Some(ty) && WfSpace(s.spaces[id])
    ensures e.idx == PtIndex(s.spaces[id], va) && Within(SegmentOf(s.spaces[id], ty), va)
    ensures var ev := Creation(evs, id).value;
            && (FileShort(s.spaces[id], ty, va) <==> !FileHolds(ev.text, ev.data, ev.elf, va))
            && (IsText(s, e) <==> InHeader(ev.text, va)) && (ty == Text <==> InHeader(ev.text, va))
  {
    RunSpaces(s0, evs, id);
    var ev := Creation(evs, id).value;
    LayoutFacts(ev.text, ev.data, ev.elf, s.spaces[id], va);
    ty := SegmentTypeOf(s.spaces[id], va).value;
    e := EntryRef(id, PtIndex(s.spaces[id], va));
  }

  predicate Access(kind: FaultType) { kind == FaultRead || kind == FaultWrite }

  /** Every outcome of vm_fault, for every fault in every reachable state: a store to a
      read-only page and an access outside the program kill the process; without a process
      it is EFAULT and for an unknown fault EINVAL; any other fault is handled exactly if
      its page is available, else the kernel panics or never returns. */
  lemma FaultOutcome(s0: Vm, evs: seq<Event>, s: Vm, kind: FaultType, va: nat)
    requires BootState(s0) && RunsTo(s0, evs, s)
    ensures Shape(s)
    ensures var r := Fault(s, kind, va);
            && (r == Invalid <==> kind == FaultOther)
            && (r == NoSpace <==> Access(kind) && s.cur.KernelOnly?)
            && (r == Killed <==> kind == FaultReadonly || (Access(kind) && s.cur.User? && !Has(evs, s.cur.id, va)))
            && (r.Handled? <==>
                  Access(kind) && s.cur.User? && Has(evs, s.cur.id, va) && Available(evs, s, s.cur.id, va))
            && (r == Panicked <==>
                  Access(kind) && s.cur.User? && Has(evs, s.cur.id, va) && !Available(evs, s, s.cur.id, va))
  {
    assert Reached(s);
    if Access(kind) && s.cur.User? {
      HasIff(s0, evs, s.cur.id, va);
      if Has(evs, s.cur.id, va) {
        var e, ty := Located(s0, evs, s, s.cur.id, va);
        FaultPanicsIff(s, kind, va, e, ty);
      }
    }
  }

  // ---------------------------------------------------------- every access completes

  lemma HitStores(s: Vm, id: int, va: nat, value: byte, e: EntryRef)
    requires Inv(s) && s.cur == User(id) && id in s.spaces && SegmentTypeOf(s.spaces[id], va).Some? && Hit(s, va).Some?
    requires e == EntryRef(id, PtIndex(s.spaces[id], va))
    ensures HasEntry(s, e)
    ensures Step(s, Store(id, va, value)).Some? <==> !IsText(s, e)
    ensures Step(s, Trap(FaultReadonly, va)) == if IsText(s, e) then Some(s.(cur := KernelOnly)) else None
  {
    var o := HitIsEntry(s, va);
    assert WfSpace(s.spaces[id]);
    PtIndexIsPageIndex(s.spaces[id], va);
  }

  /** A load that hits returns what flat memory holds, and nothing else. */
  lemma LoadHits(s0: Vm, evs: seq<Event>, s: Vm, id: int, va: nat, value: byte)
    requires BootState(s0) && RunsTo(s0, evs, s) && s.cur == User(id) && Has(evs, id, va) && Hit(s, va).Some?
    ensures Shape(s) && Step(s, Load(id, va, value)) == if value == Flat(evs, id, va) then Some(s) else None
  {
    PagingInvisible(s0, evs, id, va);
    HitLoads(s, id, va, value);
  }

  /** What a fault adds to the run does not change what processes have. */
  lemma TrapAdded(evs: seq<Event>, kind: FaultType, va: nat, id: int, a: nat)
    ensures var all := evs + [Trap(kind, va)];
            && Creation(all, id) == Creation(evs, id) && Flat(all, id, a) == Flat(evs, id, a)
            && (Has(all, id, a) <==> Has(evs, id, a))
  {
    var all := evs + [Trap(kind, va)];
    assert all[..|all| - 1] == evs && all[|all| - 1] == Trap(kind, va);
  }

  /** A handled fault: the same process runs on, and the address hits. */
  lemma FaultThenHit(s: Vm, kind: FaultType, va: nat)
    requires Inv(s) && s.cur.User? && Hit(s, va).None? && Access(kind) && Fault(s, kind, va).Handled?
    ensures var t := Fault(s, kind, va).vm;
            Step(s, Trap(kind, va)) == Some(t) && t.cur == s.cur && Hit(t, va).Some?
  {
    HandledSteps(s, kind, va);
    FaultSound(s, kind, va);
    SameProcess(s, kind, va);
    MappedHits(Fault(s, kind, va).vm, va);
  }

  lemma HandledSteps(s: Vm, kind: FaultType, va: nat)
    requires Shape(s) && s.cur.User? && Hit(s, va).None? && Access(kind) && Fault(s, kind, va).Handled?
    ensures Step(s, Trap(kind, va)) == Some(Fault(s, kind, va).vm) && Misses(s, va / PAGE_SIZE)
  {
  }

  lemma SameProcess(s: Vm, kind: FaultType, va: nat)
    requires Inv(s) && Fault(s, kind, va).Handled?
    ensures Fault(s, kind, va).vm.cur == s.cur
  {
    var e, ty, u := FaultParts(s, kind, va);
  }

  lemma MappedHits(t: Vm, va: nat)
    requires exists i :: 0 <= i < |t.tlb| && Maps(t.tlb[i], va / PAGE_SIZE)
    ensures Hit(t, va).Some?
  {
  }

  /** A miss on an available page is resolved by one fault. */
  lemma MissResolved(s0: Vm, evs: seq<Event>, s: Vm, id: int, va: nat, kind: FaultType) returns (t: Vm)
    requires BootState(s0) && RunsTo(s0, evs, s) && s.cur == User(id) && Has(evs, id, va) && Hit(s, va).None?
    requires Access(kind) && Available(evs, s, id, va)
    ensures Step(s, Trap(kind, va)) == Some(t) && RunsTo(s0, evs + [Trap(kind, va)], t)
    ensures t.cur == User(id) && Hit(t, va).Some?
  {
    FaultOutcome(s0, evs, s, kind, va);
    FaultThenHit(s, kind, va);
    RunExtends(s0, evs, Trap(kind, va));
    t := Fault(s, kind, va).vm;
  }

  /** Every read of a running process inside its program completes, with the byte that flat
      memory holds, at once or after one fault, unless the page is not available. */
  lemma ReadCompletes(s0: Vm, evs: seq<Event>, s: Vm, id: int, va: nat)
    requires BootState(s0) && RunsTo(s0, evs, s) && s.cur == User(id) && Has(evs, id, va)
    ensures Shape(s)
    ensures var load := Load(id, va, Flat(evs, id, va));
            if Hit(s, va).Some? then Step(s, load) == Some(s)
            else
              var t := Step(s, Trap(FaultRead, va));
              (t.Some? <==> Available(evs, s, id, va)) && (t.Some? ==> Shape(t.value) && Step(t.value, load) == t)
  {
    if Hit(s, va).Some? {
      LoadHits(s0, evs, s, id, va, Flat(evs, id, va));
    } else {
      FaultOutcome(s0, evs, s, FaultRead, va);
      if Available(evs, s, id, va) {
        var t := MissResolved(s0, evs, s, id, va, FaultRead);
        TrapAdded(evs, FaultRead, va, id, va);
        LoadHits(s0, evs + [Trap(FaultRead, va)], t, id, va, Flat(evs, id, va));
      }
    }
  }

  /** Every write outside the text completes likewise; a write to the text kills the process,
      at once or after the fault that brings the page in. */
  lemma WriteCompletes(s0: Vm, evs: seq<Event>, s: Vm, id: int, va: nat, value: byte)
    requires BootState(s0) && RunsTo(s0, evs, s) && s.cur == User(id) && Has(evs, id, va)
    ensures Shape(s)
    ensures Hit(s, va).Some? ==> Written(evs, s, id, va, value)
    ensures Hit(s, va).None? ==>
              var t := Step(s, Trap(FaultWrite, va));
              && (t.Some? <==> Available(evs, s, id, va))
              && (t.Some? ==> Shape(t.value) && Written(evs, t.value, id, va, value))
  {
    if Hit(s, va).Some? {
      WriteHits(s0, evs, s, id, va, value);
    } else {
      FaultOutcome(s0, evs, s, FaultWrite, va);
      if Available(evs, s, id, va) { WriteMisses(s0, evs, s, id, va, value); }
    }
  }

  lemma WriteMisses(s0: Vm, evs: seq<Event>, s: Vm, id: int, va: nat, value: byte)
    requires BootState(s0) && RunsTo(s0, evs, s) && s.cur == User(id) && Has(evs, id, va) && Hit(s, va).None?
    requires Shape(s) && Available(evs, s, id, va)
    ensures var t := Step(s, Trap(FaultWrite, va));
            t.Some? && Shape(t.value) && Written(evs, t.value, id, va, value)
  {
    var t := MissResolved(s0, evs, s, id, va, FaultWrite);
    TrapAdded(evs, FaultWrite, va, id, va);
    WriteHits(s0, evs + [Trap(FaultWrite, va)], t, id, va, value);
  }

  /** The store is done, or it is to the text and traps, and the process is killed. */
  ghost predicate Written(evs: seq<Event>, s: Vm, id: int, va: nat, value: byte)
    requires Shape(s) && Creation(evs, id).Some?
  {
    if InHeader(Creation(evs, id).value.text, va)
    then Step(s, Store(id, va, value)).None? && Step(s, Trap(FaultReadonly, va)) == Some(s.(cur := KernelOnly))
    else Step(s, Store(id, va, value)).Some? && Step(s, Trap(FaultReadonly, va)).None?
  }

  lemma WriteHits(s0: Vm, evs: seq<Event>, s: Vm, id: int, va: nat, value: byte)
    requires BootState(s0) && RunsTo(s0, evs, s) && s.cur == User(id) && Has(evs, id, va) && Hit(s, va).Some?
    ensures Shape(s) && Written(evs, s, id, va, value)
  {
    var e, ty := Located(s0, evs, s, id, va);
    HitStores(s, id, va, value, e);
  }

  // ------------------------------------------------------------ which events can happen

  /** A process is activated exactly if it is there, and destroyed exactly if it is there and
      not running. */
  lemma ProcessEventsIff(s0: Vm, evs: seq<Event>, s: Vm, id: int)
    requires BootState(s0) && RunsTo(s0, evs, s)
    ensures Shape(s) && Step(s, Exit) == Some(s.(cur := KernelOnly))
    ensures Step(s, Activate(id)).Some? <==> Creation(evs, id).Some?
    ensures Step(s, Reap(id)).Some? <==> Creation(evs, id).Some? && s.cur != User(id)
  {
    RunSpaces(s0, evs, id);
    ReapIff(s, id);
  }

  lemma ReapIff(s: Vm, id: int)
    requires Inv(s)
    ensures Step(s, Reap(id)).Some? <==> id in s.spaces && s.cur != User(id)
  {
    if id in s.spaces && s.cur != User(id) { DestroySound(s, id); }
  }

  /** The kernel frees exactly the runs it heads, and may write every frame in use that no
      page of a process is in. */
  lemma KernelEventsIff(s: Vm, f: nat, page: Page)
    requires Reached(s)
    ensures Shape(s)
    ensures Step(s, KernelFree(f)).Some? <==>
              s.boot <= f < |s.cm| && s.cm[f].used && s.cm[f].size > 0 && s.cm[f].owner.None?
    ensures Step(s, KernelWrite(f, page)).Some? <==> f < |s.cm| && s.cm[f].used && !exists e :: InMemoryAt(s, e, f)
  {
    ReachedInv(s);
    if f < |s.cm| && s.cm[f].used { NobodysIff(s, f); }
  }

  lemma NobodysIff(s: Vm, f: nat)
    requires Reached(s) && f < |s.cm| && s.cm[f].used
    ensures Owned(s.cm[f]) <==> exists e :: InMemoryAt(s, e, f)
  {
    if Owned(s.cm[f]) {
      FrameNamesEntryIff(s, f, s.cm[f].owner.value);
    } else {
      forall e ensures !InMemoryAt(s, e, f) { FrameNamesEntryIff(s, f, e); }
    }
  }

  /** A program is created exactly if its id is free and it can be loaded. */
  lemma CreateIff(s0: Vm, evs: seq<Event>, s: Vm, id: int, text: Phdr, data: Phdr, elf: seq<byte>)
    requires BootState(s0) && RunsTo(s0, evs, s)
    ensures Shape(s)
    ensures Step(s, Create(id, text, data, elf)).Some? <==> Creation(evs, id).None? && Loadable(text, data, elf)
  {
    RunSpaces(s0, evs, id);
  }

  /** Whose memory the processor sees after an event: an activation changes it to that
      process; an exit, a store to the text and an access outside the program end it. */
  lemma WhoRuns(s0: Vm, evs: seq<Event>, s: Vm, ev: Event)
    requires BootState(s0) && RunsTo(s0, evs, s) && Step(s, ev).Some?
    ensures Step(s, ev).value.cur ==
              match ev
              case Activate(id) => User(id)
              case Exit => KernelOnly
              case Trap(kind, va) =>
                if s.cur.User? && kind != FaultReadonly && Has(evs, s.cur.id, va) then s.cur else KernelOnly
              case _ => s.cur
  {
    match ev {
      case Trap(kind, va) =>
        FaultOutcome(s0, evs, s, kind, va);
        if Fault(s, kind, va).Handled? { var e, ty, u := FaultParts(s, kind, va); }
      case Reap(id) => DestroyGivesBack(s, id);
      case _ =>
    }
  }

  // --------------------------------------------------------------- the TLB's own order

  /** A mapping as tlb_insert is given it. */
  datatype Mapping = Mapping(vpage: nat, frame: nat, ro: bool)

  function InsertAll(s: Vm, ms: seq<Mapping>): (r: Vm)
    requires s.tlbVictim < |s.tlb|
    ensures |r.tlb| == |s.tlb| && r.tlbVictim < |r.tlb|
  {
    if ms == [] then s
    else
      var t, m := InsertAll(s, ms[..|ms| - 1]), ms[|ms| - 1];
      TlbInsert(t, m.vpage, m.frame, m.ro)
  }

  /** k modulo n. */
  function Turn(k: nat, n: nat): (r: nat)
    requires n > 0
    ensures r < n
  {
    if k < n then k else Turn(k - n, n)
  }

  /** Insertions after an activation fill the slots in turn, and the latest ones, as many as
      there are slots, are always all there; the TLB counts as free until it has been
      filled once. */
  lemma {:induction false} LatestStay(s: Vm, ms: seq<Mapping>, k: nat)
    requires |s.tlb| > 0 && k < |ms| <= k + |s.tlb|
    ensures var t := InsertAll(TlbInvalidate(s), ms);
            && t.tlb[Turn(k, |s.tlb|)] == TlbEntry(ms[k].vpage, ms[k].frame, true, !ms[k].ro)
            && t.tlbVictim == Turn(|ms|, |s.tlb|) && (t.tlbFree <==> |ms| < |s.tlb|)
    decreases |ms|
  {
    var before := ms[..|ms| - 1];
    InsertTurn(s, before);
    InsertTurn(s, ms);
    if k < |before| {
      LatestStay(s, before, k);
      TurnsDiffer(k, |before|, |s.tlb|);
    }
  }

  lemma {:induction false} InsertTurn(s: Vm, ms: seq<Mapping>)
    requires |s.tlb| > 0
    ensures var t := InsertAll(TlbInvalidate(s), ms);
            |t.tlb| == |s.tlb| && t.tlbVictim == Turn(|ms|, |s.tlb|) && (t.tlbFree <==> |ms| < |s.tlb|)
  {
    if ms != [] {
      InsertTurn(s, ms[..|ms| - 1]);
      NextTurn(|ms| - 1, |s.tlb|);
    }
  }

  lemma {:induction false} NextTurn(k: nat, n: nat)
    requires n > 0
    ensures (Turn(k, n) + 1) % n == Turn(k + 1, n)
    ensures k < n ==> (Turn(k + 1, n) == 0 <==> k + 1 == n)
  {
    if k < n { Wraps(k, n); } else { NextTurn(k - n, n); }
  }

  lemma Wraps(k: nat, n: nat)
    requires k < n
    ensures (k + 1) % n == if k + 1 < n then k + 1 else 0
  {
  }

  lemma {:induction false} TurnsDiffer(k: nat, j: nat, n: nat)
    requires k < j < k + n
    ensures Turn(k, n) != Turn(j, n)
  {
    if k >= n { TurnsDiffer(k - n, j - n, n); }
  }
}
