/** Runs of the whole virtual memory system, and the theorem that paging cannot
    be seen: every byte of every process reads as in a flat private memory.

    An event is one atomic step: a load or store that hits the TLB, a fault, a
    kernel page operation, or the creation, activation, exit or destruction of an
    address space. vm_fault, with the swap write inside it, is one step. */
module VmRuns {
  import opened Common
  import opened AddressSpace
  import opened Coremap
  import opened VmState
  import opened VmInvariant
  import opened VmSteps
  import opened VmDestroy

  datatype Event =
    | Create(id: int, text: Phdr, data: Phdr, elf: seq<byte>)   // runprogram up to user mode
    | Activate(id: int)                                         // as_activate
    | Exit                                                      // the running process exits
    | Trap(kind: FaultType, va: nat)                            // mips_trap to vm_fault
    | Load(id: int, va: nat, value: byte)                       // process id reads value at va
    | Store(id: int, va: nat, value: byte)
    | KernelAlloc(n: nat)                                       // alloc_kpages
    | KernelFree(frame: nat)                                    // free_kpages
    | KernelWrite(frame: nat, page: Page)                       // the kernel uses its own frame
    | Reap(id: int)                                             // proc_destroy to as_destroy

  /** The slot that translates a page, if any. */
  function Lookup(tlb: seq<TlbEntry>, vpage: nat, i: nat): (r: Option<nat>)
    requires i <= |tlb|
    ensures r.Some? ==> r.value < |tlb| && Maps(tlb[r.value], vpage)
    ensures r.None? ==> forall k :: i <= k < |tlb| ==> !Maps(tlb[k], vpage)
    decreases |tlb| - i
  {
    if i == |tlb| then None else if Maps(tlb[i], vpage) then Some(i) else Lookup(tlb, vpage, i + 1)
  }

  function Hit(s: Vm, va: nat): Option<nat> { Lookup(s.tlb, va / PAGE_SIZE, 0) }

  /** The address ranges a program may ask for: what the kernel does not check. */
  predicate Loadable(text: Phdr, data: Phdr, elf: seq<byte>) {
    && Word32(text) && Word32(data)
    && text.vaddr + text.memsz < WORD && data.vaddr + data.memsz < WORD
    && BuildSpace(text, data, elf).Some? && PageDisjoint(BuildSpace(text, data, elf).value)
  }

  /** A trap the processor raises: a miss, or a store to a read-only page. */
  predicate Traps(s: Vm, kind: FaultType, va: nat) {
    match kind
    case FaultReadonly => Hit(s, va).Some? && !s.tlb[Hit(s, va).value].dirty
    case FaultOther => false
    case _ => Hit(s, va).None?
  }

  /** The frame is in use and holds no page of a process: the kernel's, or a lost one. */
  predicate KernelUses(s: Vm, f: nat) { f < |s.cm| && s.cm[f].used && !Owned(s.cm[f]) }

  predicate KernelOwns(s: Vm, f: nat) { f < |s.cm| && s.cm[f].used && s.cm[f].owner.None? }

  /** One step. None is an event that cannot happen, or a panic ending the run. */
  function Step(s: Vm, ev: Event): (r: Option<Vm>)
    requires Shape(s)
  {
    match ev
    case Create(id, text, data, elf) =>
      if id in s.spaces || !Loadable(text, data, elf) then None
      else Some(s.(spaces := s.spaces[id := BuildSpace(text, data, elf).value]))
    case Activate(id) =>
      if id !in s.spaces then None else Some(TlbInvalidate(s).(cur := User(id), mapped := User(id)))
    case Exit =>
      Some(s.(cur := KernelOnly))
    case Trap(kind, va) =>
      if s.cur.KernelOnly? || !Traps(s, kind, va) then None
      else (match Fault(s, kind, va)
            case Handled(t) => Some(t)
            case Killed => Some(s.(cur := KernelOnly))
            case _ => None)
    case Load(id, va, value) =>
      if s.cur != User(id) || Hit(s, va).None? then None
      else
        var f := s.tlb[Hit(s, va).value].frame;
        if f < |s.ram| && s.ram[f][va % PAGE_SIZE] == value then Some(s) else None
    case Store(id, va, value) =>
      if s.cur != User(id) || Hit(s, va).None? || !s.tlb[Hit(s, va).value].dirty then None
      else
        var f := s.tlb[Hit(s, va).value].frame;
        if f < |s.ram| then Some(s.(ram := s.ram[f := s.ram[f][va % PAGE_SIZE := value]])) else None
    case KernelAlloc(n) =>
      var g := GetPages(s, n, None);
      if g.None? then None else Some(g.value.0)
    case KernelFree(f) =>
      if KernelOwns(s, f) && s.boot <= f && s.cm[f].size > 0 then Some(s.(cm := ReleaseRun(s.cm, f))) else None
    case KernelWrite(f, page) =>
      if KernelUses(s, f) then Some(s.(ram := s.ram[f := page])) else None
    case Reap(id) =>
      if id !in s.spaces || s.cur == User(id) then None else Destroy(s, id)
  }

  // -------------------------------------------------------------- the flat memory

  /** A byte of a process's memory, wherever paging has put it. */
  function Byte(s: Vm, id: int, va: nat): byte
    requires Shape(s) && id in s.spaces && SegmentTypeOf(s.spaces[id], va).Some?
  {
    PageOf(s, EntryRef(id, PtIndex(s.spaces[id], va)))[va % PAGE_SIZE]
  }

  /** What a flat private memory holds after the events: the last value process id stored at
      va since it was created, else the byte its program's headers and file give. */
  function Flat(evs: seq<Event>, id: int, va: nat): byte {
    if evs == [] then 0 as byte
    else
      var ev, before := evs[|evs| - 1], evs[..|evs| - 1];
      match ev
      case Store(i, a, b) => if i == id && a == va then b else Flat(before, id, va)
      case Create(i, text, data, elf) => if i == id then ProgramByte(text, data, elf, va) else Flat(before, id, va)
      case _ => Flat(before, id, va)
  }

  /** The creation of process id, if it has not been destroyed since. */
  function Creation(evs: seq<Event>, id: int): (r: Option<Event>)
    ensures r.Some? ==> r.value.Create? && r.value.id == id
  {
    if evs == [] then None
    else
      var ev, before := evs[|evs| - 1], evs[..|evs| - 1];
      if ev.Create? && ev.id == id then Some(ev)
      else if ev == Reap(id) then None
      else Creation(before, id)
  }

  /** Process id is there, and its program has a byte at va. */
  predicate Has(evs: seq<Event>, id: int, va: nat) {
    var ev := Creation(evs, id);
    ev.Some? && InProgram(ev.value.text, ev.value.data, va)
  }

  // ------------------------------------------------------------ each step is sound

  /** Which entry a store changes. */
  ghost predicate StoredOnly(s: Vm, t: Vm, id: int, va: nat, value: byte)
    requires Shape(s) && Shape(t)
  {
    forall e :: HasEntry(s, e) ==>
      && HasEntry(t, e)
      && PageOf(t, e) == if e.id == id && PageIndex(s.spaces[id], va / PAGE_SIZE) == Some(e.idx)
                         then PageOf(s, e)[va % PAGE_SIZE := value] else PageOf(s, e)
  }

  /** The frame a hit goes to is the frame of the page's entry. */
  lemma HitIsEntry(s: Vm, va: nat) returns (e: EntryRef)
    requires Inv(s) && s.cur.User? && Hit(s, va).Some?
    ensures var m := s.tlb[Hit(s, va).value];
            && PageIndex(s.spaces[s.cur.id], va / PAGE_SIZE) == Some(e.idx) && e.id == s.cur.id
            && HasEntry(s, e) && Entry(s, e).Resident() && Entry(s, e).frame == m.frame < |s.ram|
            && (m.dirty <==> !IsText(s, e)) && PageOf(s, e) == s.ram[m.frame]
            && s.cm[m.frame].used && s.cm[m.frame].owner == Some(e)
  {
    var m := s.tlb[Hit(s, va).value];
    assert SlotAgrees(s, NO_FRAME, m);
    e := EntryRef(s.cur.id, PageIndex(s.spaces[s.cur.id], m.vpage).value);
    assert EntryNames(s, NO_FRAME, e);
  }

  lemma StoreSound(s: Vm, id: int, va: nat, value: byte)
    requires Inv(s) && Step(s, Store(id, va, value)).Some?
    ensures var t := Step(s, Store(id, va, value)).value;
            Inv(t) && t.spaces == s.spaces && StoredOnly(s, t, id, va, value)
  {
    var t := Step(s, Store(id, va, value)).value;
    var e := HitIsEntry(s, va);
    var f := Entry(s, e).frame;
    RamOnly(s, t, f);
    forall o | HasEntry(s, o) && o != e && Entry(s, o).Resident() ensures Entry(s, o).frame != f {
      assert EntryNames(s, NO_FRAME, o);
    }
    forall o | HasEntry(t, o) ensures TextEntryOk(t, o) { StoreText(s, t, f, e, o); }
  }

  lemma StoreText(s: Vm, t: Vm, f: nat, e: EntryRef, o: EntryRef)
    requires Inv(s) && Shape(t) && t == s.(ram := t.ram) && |t.ram| == |s.ram| && HasEntry(s, e) && !IsText(s, e)
    requires forall g :: 0 <= g < |s.ram| && g != f ==> t.ram[g] == s.ram[g]
    requires HasEntry(s, o) && (o != e && Entry(s, o).Resident() ==> Entry(s, o).frame != f)
    ensures TextEntryOk(t, o)
  {
    assert TextEntryOk(s, o);
    ImageKept(s, t, o);
  }

  /** Writing frame f leaves every part of the invariant but the text images. */
  lemma RamOnly(s: Vm, t: Vm, f: nat)
    requires Inv(s) && f < |s.ram| && |t.ram| == |s.ram| && t == s.(ram := t.ram)
    requires forall g :: 0 <= g < |s.ram| && g != f ==> t.ram[g] == s.ram[g]
    ensures Shape(t) && (TextIsImage(t) ==> Inv(t))
    ensures forall e :: HasEntry(s, e) <==> HasEntry(t, e)
    ensures forall e :: HasEntry(s, e) ==> Entry(t, e) == Entry(s, e)
    ensures forall e :: HasEntry(s, e) && !(Entry(s, e).Resident() && Entry(s, e).frame == f) ==>
            PageOf(t, e) == PageOf(s, e)
  {
    SlotsUnchanged(s, t);
    forall g | 0 <= g < |t.cm| && Owned(t.cm[g]) ensures FrameNames(t, g) { assert FrameNames(s, g); }
    forall e | HasEntry(t, e) && Entry(t, e).Resident() ensures EntryNames(t, NO_FRAME, e) {
      assert EntryNames(s, NO_FRAME, e);
    }
    if s.mapped.User? {
      forall i | 0 <= i < |t.tlb| && t.tlb[i].valid ensures SlotAgrees(t, NO_FRAME, t.tlb[i]) {
        assert SlotAgrees(s, NO_FRAME, s.tlb[i]);
      }
    }
  }

  lemma KernelWriteSound(s: Vm, f: nat, page: Page)
    requires Inv(s) && Step(s, KernelWrite(f, page)).Some?
    ensures var t := Step(s, KernelWrite(f, page)).value; Inv(t) && SamePages(s, t)
  {
    var t := Step(s, KernelWrite(f, page)).value;
    RamOnly(s, t, f);
    forall e | HasEntry(s, e) && Entry(s, e).Resident() ensures Entry(s, e).frame != f {
      assert EntryNames(s, NO_FRAME, e);
    }
    forall e | HasEntry(t, e) ensures TextEntryOk(t, e) { assert TextEntryOk(s, e); }
  }

  lemma KernelFreeSound(s: Vm, f: nat)
    requires Inv(s) && Step(s, KernelFree(f)).Some?
    ensures var t := Step(s, KernelFree(f)).value; Inv(t) && SamePages(s, t)
  {
    var t := s.(cm := ReleaseRun(s.cm, f));
    assert Step(s, KernelFree(f)).value == t;
    ReleaseLaid(s.cm, f);
    forall h, i | Covers(t.cm, h, i) && h < i ensures t.cm[i].owner.None? { ReleaseCovers(s.cm, f, h, i); }
    assert Kept(s, t);
    KeptShape(s, t);
    SlotsUnchanged(s, t);
    KernelRun(s, f);
    forall g | 0 <= g < |t.cm| && Owned(t.cm[g]) ensures FrameNames(t, g) { assert FrameNames(s, g); }
    forall e | HasEntry(t, e)
      ensures TextEntryOk(t, e) && (Entry(t, e).Resident() ==>
              EntryNames(t, NO_FRAME, e)) && PageOf(t, e) == PageOf(s, e)
    {
      assert HasEntry(s, e) && TextEntryOk(s, e);
      assert Entry(s, e).Resident() ==> EntryNames(s, NO_FRAME, e);
    }
    if s.mapped.User? {
      forall i | 0 <= i < |t.tlb| && t.tlb[i].valid ensures SlotAgrees(t, NO_FRAME, t.tlb[i]) {
        assert SlotAgrees(s, NO_FRAME, s.tlb[i]);
      }
    }
  }

  /** No frame of a run the kernel heads belongs to a page-table entry. */
  lemma KernelRun(s: Vm, f: nat)
    requires Inv(s) && KernelOwns(s, f) && s.cm[f].size > 0
    ensures forall g :: f <= g < f + s.cm[f].size ==> g < |s.cm| && s.cm[g].owner.None?
  {
    forall g | f <= g < f + s.cm[f].size ensures g < |s.cm| && s.cm[g].owner.None? {
      assert Covers(s.cm, f, g);
    }
  }

  lemma ActivateSound(s: Vm, id: int)
    requires Inv(s) && id in s.spaces
    ensures var t := TlbInvalidate(s).(cur := User(id), mapped := User(id)); Inv(t) && SamePages(s, t)
  {
    TlbOnly(s, TlbInvalidate(s).(cur := User(id), mapped := User(id)));
  }

  lemma ExitSound(s: Vm)
    requires Inv(s)
    ensures var t := s.(cur := KernelOnly); Inv(t) && SamePages(s, t)
  {
    TlbOnly(s, s.(cur := KernelOnly));
  }

  lemma BuiltSpace(text: Phdr, data: Phdr, elf: seq<byte>)
    requires Loadable(text, data, elf)
    ensures var sp := BuildSpace(text, data, elf).value;
            && WfSpace(sp) && sp.elf == elf
            && forall i :: 0 <= i < |sp.pt| ==> sp.pt[i] == FreshEntry
  {
    RegionWellFormed(text);
    RegionWellFormed(data);
    TableFits(DefineRegion(text).value, DefineRegion(data).value, elf);
  }

  lemma TableFits(text: Segment, data: Segment, elf: seq<byte>)
    requires WfSegment(text) && WfSegment(data)
    requires PageDisjoint(Space(text, data, StackSegment, FreshTable(data.npages + text.npages +
             StackSegment.npages), elf))
    ensures WfSpace(Space(text, data, StackSegment, FreshTable(data.npages + text.npages + StackSegment.npages), elf))
  {
  }

  lemma CreateSound(s: Vm, ev: Event)
    requires Inv(s) && ev.Create? && Step(s, ev).Some?
    ensures var t := Step(s, ev).value; Inv(t) && SamePages(s, t)
  {
    BuiltSpace(ev.text, ev.data, ev.elf);
    var t, sp := Step(s, ev).value, BuildSpace(ev.text, ev.data, ev.elf).value;
    assert t == s.(spaces := s.spaces[ev.id := sp]);
    CreatedSlots(s, t, ev.id, sp);
    CreatedRest(s, t, ev.id, sp);
  }

  lemma CreatedSlots(s: Vm, t: Vm, id: int, sp: Space)
    requires SlotsMatch(s) && id !in s.spaces && t == s.(spaces := s.spaces[id := sp])
    requires forall i :: 0 <= i < |sp.pt| ==> sp.pt[i] == FreshEntry
    ensures SlotsMatch(t)
  {
    assert forall e :: HasEntry(t, e) && e.id != id ==> HasEntry(s, e) && Entry(s, e) == Entry(t, e);
    assert forall e :: HasEntry(t, e) && e.id == id ==> Entry(t, e) == FreshEntry;
    assert forall e :: HasEntry(s, e) ==> HasEntry(t, e) && Entry(t, e) == Entry(s, e);
    SlotsUnchanged(s, t);
  }

  lemma CreatedRest(s: Vm, t: Vm, id: int, sp: Space)
    requires Inv(s) && id !in s.spaces && WfSpace(sp) && t == s.(spaces := s.spaces[id := sp]) && SlotsMatch(t)
    requires forall i :: 0 <= i < |sp.pt| ==> sp.pt[i] == FreshEntry
    ensures Inv(t) && SamePages(s, t)
  {
    CreatedNames(s, t, id, sp);
    forall e | HasEntry(t, e) ensures TextEntryOk(t, e) {
      if e.id != id { OldEntry(s, t, id, sp, e); }
    }
    forall e | HasEntry(s, e) ensures HasEntry(t, e) && PageOf(t, e) == PageOf(s, e) { OldEntry(s, t, id, sp, e); }
    CreatedTlb(s, t, id, sp);
  }

  lemma OldEntry(s: Vm, t: Vm, id: int, sp: Space, e: EntryRef)
    requires Inv(s) && Shape(t) && id !in s.spaces && t == s.(spaces := s.spaces[id := sp])
    requires e.id != id && HasEntry(t, e)
    ensures HasEntry(s, e) && TextEntryOk(t, e) && PageOf(t, e) == PageOf(s, e)
  {
    assert t.spaces[e.id] == s.spaces[e.id];
    assert TextEntryOk(s, e);
    ImageKept(s, t, e);
    PageKept(s, t, e);
  }

  lemma CreatedNames(s: Vm, t: Vm, id: int, sp: Space)
    requires Inv(s) && id !in s.spaces && WfSpace(sp) && t == s.(spaces := s.spaces[id := sp])
    requires forall i :: 0 <= i < |sp.pt| ==> sp.pt[i] == FreshEntry
    ensures Shape(t) && SpacesOk(t) && FramesNameEntries(t, NO_FRAME) && EntriesNameFrames(t, NO_FRAME)
  {
    forall f | 0 <= f < |t.cm| && Owned(t.cm[f]) ensures FrameNames(t, f) { assert FrameNames(s, f); }
    forall e | HasEntry(t, e) && Entry(t, e).Resident() ensures EntryNames(t, NO_FRAME, e) {
      assert HasEntry(s, e) && EntryNames(s, NO_FRAME, e);
    }
  }

  lemma CreatedTlb(s: Vm, t: Vm, id: int, sp: Space)
    requires Inv(s) && id !in s.spaces && t == s.(spaces := s.spaces[id := sp])
    ensures s.mapped.User? ==> t.mapped.id in t.spaces
    ensures TlbAgrees(t, NO_FRAME)
  {
    if s.mapped.User? {
      forall i | 0 <= i < |t.tlb| && t.tlb[i].valid ensures SlotAgrees(t, NO_FRAME, t.tlb[i]) {
        assert SlotAgrees(s, NO_FRAME, s.tlb[i]);
      }
    }
  }

  /** Every space of t was in s with the same segments and executable. */
  ghost predicate LayoutKept(s: Vm, t: Vm) {
    forall id :: id in t.spaces ==> id in s.spaces && SameLayout(s.spaces[id], t.spaces[id])
  }

  /** A step that neither stores nor creates leaves every page that remains. */
  ghost predicate Quiet(s: Vm, t: Vm)
    requires Shape(s) && Shape(t)
  {
    LayoutKept(s, t) && forall e :: HasEntry(t, e) ==> HasEntry(s, e) && PageOf(t, e) == PageOf(s, e)
  }

  lemma QuietFromKept(s: Vm, t: Vm)
    requires Shape(s) && Shape(t) && SamePages(s, t) && LayoutKept(s, t)
    ensures Quiet(s, t)
  {
  }

  lemma TrapSound(s: Vm, kind: FaultType, va: nat)
    requires Inv(s) && Step(s, Trap(kind, va)).Some?
    ensures var t := Step(s, Trap(kind, va)).value; Inv(t) && Quiet(s, t)
  {
    if Fault(s, kind, va).Handled? {
      assert Misses(s, va / PAGE_SIZE);
      FaultSound(s, kind, va);
      var e, ty, u := FaultParts(s, kind, va);
      QuietFromKept(s, Fault(s, kind, va).vm);
    } else {
      ExitSound(s);
      QuietFromKept(s, s.(cur := KernelOnly));
    }
  }

  /** Every step keeps the invariant; the steps other than store and create leave
      every page of every space that remains as it was. */
  lemma StepSound(s: Vm, ev: Event)
    requires Inv(s) && Step(s, ev).Some?
    ensures Inv(Step(s, ev).value)
    ensures !ev.Store? && !ev.Create? ==> Quiet(s, Step(s, ev).value)
  {
    match ev {
      case Create(_, _, _, _) => CreateSound(s, ev);
      case Activate(id) => ActivateSound(s, id); QuietFromKept(s, Step(s, ev).value);
      case Exit => ExitSound(s); QuietFromKept(s, Step(s, ev).value);
      case Trap(kind, va) => TrapSound(s, kind, va);
      case Load(_, _, _) =>
      case Store(id, va, b) => StoreSound(s, id, va, b);
      case KernelAlloc(n) => GetPagesSound(s, n, None); QuietFromKept(s, Step(s, ev).value);
      case KernelFree(f) => KernelFreeSound(s, f); QuietFromKept(s, Step(s, ev).value);
      case KernelWrite(f, p) => KernelWriteSound(s, f, p); QuietFromKept(s, Step(s, ev).value);
      case Reap(id) => DestroySound(s, id);
    }
  }

  // ------------------------------------------------------------------ byte by byte

  /** A new space reads as its program's headers and file say. */
  lemma CreatedByte(s: Vm, ev: Event, va: nat)
    requires Inv(s) && ev.Create? && Step(s, ev).Some?
    requires SegmentTypeOf(Step(s, ev).value.spaces[ev.id], va).Some?
    ensures var t := Step(s, ev).value;
            && Inv(t) && ev.id in t.spaces && t.spaces[ev.id] == BuildSpace(ev.text, ev.data, ev.elf).value
            && InProgram(ev.text, ev.data, va) && Byte(t, ev.id, va) == ProgramByte(ev.text, ev.data, ev.elf, va)
  {
    CreateSound(s, ev);
    BuiltSpace(ev.text, ev.data, ev.elf);
    var sp := BuildSpace(ev.text, ev.data, ev.elf).value;
    ImageByteAt(sp, va);
    BuiltFromHeaders(ev.text, ev.data, ev.elf, va);
  }

  /** A byte of a page's image is the segment's byte at that address. */
  lemma ImageByteAt(sp: Space, va: nat)
    requires WfSpace(sp) && SegmentTypeOf(sp, va).Some?
    ensures PtIndex(sp, va) < |sp.pt|
    ensures ImagePage(sp, PtIndex(sp, va))[va % PAGE_SIZE] ==
              ImageByte(SegmentOf(sp, SegmentTypeOf(sp, va).value), sp.elf, va)
  {
    PtIndexInSegment(sp, va);
    assert va == va / PAGE_SIZE * PAGE_SIZE + va % PAGE_SIZE;
  }

  lemma SameLayoutSameIndex(a: Space, b: Space, va: nat)
    requires WfSegments(a) && SameLayout(a, b)
    ensures WfSegments(b) && SegmentTypeOf(b, va) == SegmentTypeOf(a, va)
    ensures SegmentTypeOf(a, va).Some? ==> PtIndex(b, va) == PtIndex(a, va)
  {
  }

  lemma QuietByte(s: Vm, t: Vm, id: int, va: nat)
    requires Inv(s) && Inv(t) && Quiet(s, t) && id in t.spaces && SegmentTypeOf(t.spaces[id], va).Some?
    ensures id in s.spaces && SegmentTypeOf(s.spaces[id], va).Some? && Byte(t, id, va) == Byte(s, id, va)
  {
    SameLayoutSameIndex(s.spaces[id], t.spaces[id], va);
    assert HasEntry(t, EntryRef(id, PtIndex(t.spaces[id], va)));
  }

  /** A store changes the byte at its address and no other byte of any process. */
  lemma StoreByte(s: Vm, i: int, a: nat, b: byte, id: int, va: nat)
    requires Inv(s) && Step(s, Store(i, a, b)).Some? && id in s.spaces && SegmentTypeOf(s.spaces[id], va).Some?
    ensures var t := Step(s, Store(i, a, b)).value;
            && Inv(t) && t.spaces == s.spaces
            && Byte(t, id, va) == if i == id && a == va then b else Byte(s, id, va)
  {
    StoreSound(s, i, a, b);
    var sp := s.spaces[id];
    assert WfSpace(sp);
    PtIndexIsPageIndex(sp, va);
    PageIndexBijection(sp, 0, va / PAGE_SIZE);
    PageIndexBijection(sp, 0, a / PAGE_SIZE);
    assert HasEntry(s, EntryRef(id, PtIndex(sp, va)));
    if va / PAGE_SIZE == a / PAGE_SIZE && va % PAGE_SIZE == a % PAGE_SIZE {
      assert va == a;
    }
  }

  // ------------------------------------------------------------------------- runs

  /** The state coremap_bootstrap and swap_bootstrap leave. */
  ghost predicate BootState(s: Vm) {
    && 1 <= s.boot <= |s.cm| && s.cm == Bootstrap(|s.cm|, s.boot) && |s.ram| == |s.cm| && s.victim == 0
    && |s.swapmap| == |s.swap| <= SWAP_INDEX_LIMIT && (forall k :: 0 <= k < |s.swapmap| ==> !s.swapmap[k])
    && s.tlbVictim < |s.tlb| && s.spaces == map[] && s.cur == KernelOnly && s.mapped == KernelOnly
  }

  lemma BootInv(s: Vm)
    requires BootState(s)
    ensures Inv(s)
  {
    BootstrapTiled(|s.cm|, s.boot);
  }

  /** The state after a sequence of events, or None if one of them cannot happen. */
  ghost function Run(s: Vm, evs: seq<Event>): (r: Option<Vm>)
    requires Inv(s)
    ensures r.Some? ==> Inv(r.value)
  {
    if evs == [] then Some(s)
    else
      var m := Run(s, evs[..|evs| - 1]);
      if m.None? then None
      else
        var r := Step(m.value, evs[|evs| - 1]);
        if r.Some? then StepSound(m.value, evs[|evs| - 1]); r else None
  }

  // ------------------------------------------------------------ which processes there are

  /** A step other than its own destruction leaves a space where it is, with its segments
      and its file. */
  lemma StepLayout(s: Vm, ev: Event, id: int)
    requires Inv(s) && Step(s, ev).Some? && id in s.spaces && ev != Reap(id)
    ensures var t := Step(s, ev).value; id in t.spaces && SameLayout(s.spaces[id], t.spaces[id])
  {
    match ev {
      case Trap(kind, va) =>
        if Fault(s, kind, va).Handled? { var e, ty, u := FaultParts(s, kind, va); }
      case Reap(o) => DestroyGivesBack(s, o);
      case _ =>
    }
  }

  /** A space appears only by its creation, and is gone after its destruction. */
  lemma StepSpaces(s: Vm, ev: Event, id: int)
    requires Inv(s) && Step(s, ev).Some?
    ensures var t := Step(s, ev).value;
            && (id in t.spaces && id !in s.spaces ==> ev.Create? && ev.id == id)
            && (ev.Create? && ev.id == id ==>
                  && id in t.spaces && Loadable(ev.text, ev.data, ev.elf)
                  && t.spaces[id] == BuildSpace(ev.text, ev.data, ev.elf).value)
            && (ev == Reap(id) ==> id !in t.spaces)
  {
    match ev {
      case Trap(kind, va) =>
        if Fault(s, kind, va).Handled? { var e, ty, u := FaultParts(s, kind, va); }
      case Reap(o) => DestroyGivesBack(s, o);
      case _ =>
    }
  }

  /** The spaces after a run are those created and not destroyed, laid out as created. */
  lemma {:induction false} RunSpaces(s0: Vm, evs: seq<Event>, id: int)
    requires BootState(s0) && Inv(s0) && Run(s0, evs).Some?
    ensures var s, ev := Run(s0, evs).value, Creation(evs, id);
            && (id in s.spaces <==> ev.Some?)
            && (ev.Some? ==> Loadable(ev.value.text, ev.value.data, ev.value.elf)
                             && SameLayout(BuildSpace(ev.value.text, ev.value.data, ev.value.elf).value, s.spaces[id]))
  {
    if evs != [] {
      var before, ev := evs[..|evs| - 1], evs[|evs| - 1];
      var m := Run(s0, before).value;
      RunSpaces(s0, before, id);
      StepSpaces(m, ev, id);
      if id in m.spaces && ev != Reap(id) { StepLayout(m, ev, id); }
    }
  }

  /** An address is in a segment of a process exactly if the process has it. */
  lemma HasIff(s0: Vm, evs: seq<Event>, id: int, va: nat)
    requires BootState(s0) && Inv(s0) && Run(s0, evs).Some?
    ensures var s := Run(s0, evs).value;
            Has(evs, id, va) <==> id in s.spaces && SegmentTypeOf(s.spaces[id], va).Some?
  {
    RunSpaces(s0, evs, id);
    var ev := Creation(evs, id);
    if ev.Some? {
      BuiltSpace(ev.value.text, ev.value.data, ev.value.elf);
      BuiltFromHeaders(ev.value.text, ev.value.data, ev.value.elf, va);
      var sp := BuildSpace(ev.value.text, ev.value.data, ev.value.elf).value;
      SameLayoutSameIndex(sp, Run(s0, evs).value.spaces[id], va);
    }
  }

  /** Paging is invisible: after any run from boot, each byte that a process has is what a
      flat private memory would hold. */
  lemma PagingInvisible(s0: Vm, evs: seq<Event>, id: int, va: nat)
    requires BootState(s0) && Inv(s0) && Run(s0, evs).Some? && Has(evs, id, va)
    ensures var s := Run(s0, evs).value;
            && id in s.spaces && SegmentTypeOf(s.spaces[id], va).Some?
            && Byte(s, id, va) == Flat(evs, id, va)
  {
    HasIff(s0, evs, id, va);
    ByteIsFlat(s0, evs, id, va);
  }

  lemma {:induction false} ByteIsFlat(s0: Vm, evs: seq<Event>, id: int, va: nat)
    requires BootState(s0) && Inv(s0) && Run(s0, evs).Some?
    requires var s := Run(s0, evs).value; id in s.spaces && SegmentTypeOf(s.spaces[id], va).Some?
    ensures Byte(Run(s0, evs).value, id, va) == Flat(evs, id, va)
  {
    if evs != [] {
      var before, ev := evs[..|evs| - 1], evs[|evs| - 1];
      var m := Run(s0, before).value;
      var s := Run(s0, evs).value;
      StepSound(m, ev);
      if ev.Create? && ev.id == id {
        CreatedByte(m, ev, va);
      } else if ev.Create? {
        CreateSound(m, ev);
        assert m.spaces[id] == s.spaces[id];
        assert HasEntry(m, EntryRef(id, PtIndex(m.spaces[id], va)));
        ByteIsFlat(s0, before, id, va);
      } else if ev.Store? {
        StoreSound(m, ev.id, ev.va, ev.value);
        StoreByte(m, ev.id, ev.va, ev.value, id, va);
        ByteIsFlat(s0, before, id, va);
      } else {
        QuietByte(m, s, id, va);
        ByteIsFlat(s0, before, id, va);
      }
    }
  }

  /** A run with one event more. */
  lemma RunExtends(s0: Vm, evs: seq<Event>, ev: Event)
    requires Inv(s0) && Run(s0, evs).Some?
    ensures Run(s0, evs + [ev]) == Step(Run(s0, evs).value, ev)
  {
    var all := evs + [ev];
    assert all[..|all| - 1] == evs && all[|all| - 1] == ev;
  }

  /** A hit of the running process goes to the bytes of its page. */
  lemma HitLoads(s: Vm, id: int, va: nat, value: byte)
    requires Inv(s) && s.cur == User(id) && id in s.spaces && SegmentTypeOf(s.spaces[id], va).Some? && Hit(s, va).Some?
    ensures Step(s, Load(id, va, value)) == if value == Byte(s, id, va) then Some(s) else None
  {
    var e := HitIsEntry(s, va);
    assert WfSpace(s.spaces[id]);
    PtIndexIsPageIndex(s.spaces[id], va);
  }

  lemma LoadedByte(s: Vm, id: int, va: nat, value: byte)
    requires Inv(s) && Step(s, Load(id, va, value)).Some? && id in s.spaces && SegmentTypeOf(s.spaces[id], va).Some?
    ensures value == Byte(s, id, va)
  {
    HitLoads(s, id, va, value);
  }

  /** Every load returns the last value its process stored there, or the byte the
      program started with. */
  lemma LoadsReadFlatMemory(s0: Vm, evs: seq<Event>, id: int, va: nat, value: byte)
    requires BootState(s0) && Inv(s0) && Run(s0, evs + [Load(id, va, value)]).Some?
    requires Run(s0, evs).Some? && Has(evs, id, va)
    ensures value == Flat(evs, id, va)
  {
    RunExtends(s0, evs, Load(id, va, value));
    PagingInvisible(s0, evs, id, va);
    LoadedByte(Run(s0, evs).value, id, va, value);
  }
}
