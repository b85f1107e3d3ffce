/** The virtual memory system as a value, and its operations as functions from
    state to state. A kernel panic or failed assertion is the result None.

    Source: kern/vm/vm.c, kern/vm/coremap.c, kern/vm/vm_tlb.c,
    kern/vm/swapfile.c and kern/vm/pt.c, built with swap and noswap_rdonly. */
module VmState {
  import opened Common
  import opened AddressSpace
  import opened Coremap
  import opened Bitmap

  /** One TLB slot: EntryHi holds the virtual page, EntryLo the frame and bits. */
  datatype TlbEntry = TlbEntry(vpage: nat, frame: nat, valid: bool, dirty: bool)

  /** TLBHI_INVALID(i), TLBLO_INVALID(): an unmapped kernel page and frame 0. */
  function InvalidTlb(i: nat): TlbEntry { TlbEntry(0x80000 + i, 0, false, false) }

  /** Whose memory the processor sees: the kernel alone, or a user's as well. */
  datatype Running = KernelOnly | User(id: int)

  datatype Vm = Vm(
    boot: nat,                                  // frames taken by coremap_bootstrap
    cm: seq<Cm>, victim: nat, ram: seq<Page>,
    swapmap: seq<bool>, swap: seq<Page>,
    tlb: seq<TlbEntry>, tlbVictim: nat, tlbFree: bool,
    spaces: map<int, Space>, cur: Running,
    mapped: Running)                            // whom the TLB was last activated for, until destroyed

  const SWAP_INDEX_LIMIT := 0xfff   // pt_set_entry asserts the slot is below this

  /** Sizes agree and indices are in range; each table fits its segments. */
  ghost predicate Shape(s: Vm) {
    && |s.cm| == |s.ram| && s.victim < |s.cm|
    && |s.swapmap| == |s.swap| <= SWAP_INDEX_LIMIT
    && s.tlbVictim < |s.tlb|
    && (forall id :: id in s.spaces ==> WfSegments(s.spaces[id]))
    && (s.mapped.User? ==> s.mapped.id in s.spaces)
    && (s.cur.User? ==> s.mapped == s.cur)
  }

  /** t has the sizes, the current space and the segments of s: only table
      entries, frames, slots and map contents may differ. */
  ghost predicate Kept(s: Vm, t: Vm) {
    && t.boot == s.boot && |t.cm| == |s.cm| && |t.ram| == |s.ram| && t.victim < |t.cm|
    && |t.swapmap| == |s.swapmap| && |t.swap| == |s.swap|
    && OnlyInvalidates(s.tlb, t.tlb) && t.tlbVictim == s.tlbVictim
    && t.cur == s.cur && t.mapped == s.mapped && t.spaces.Keys == s.spaces.Keys
    && (forall id :: id in s.spaces ==> SameLayout(s.spaces[id], t.spaces[id]))
  }

  predicate OnlyInvalidates(a: seq<TlbEntry>, b: seq<TlbEntry>) {
    |b| == |a| && forall i :: 0 <= i < |a| ==> b[i] == a[i] || !b[i].valid
  }

  predicate SameLayout(a: Space, b: Space) {
    b == a.(pt := b.pt) && |b.pt| == |a.pt|
  }

  // ------------------------------------------------------------- table entries

  predicate HasEntry(s: Vm, e: EntryRef) { e.id in s.spaces && e.idx < |s.spaces[e.id].pt| }

  function Entry(s: Vm, e: EntryRef): PtEntry
    requires HasEntry(s, e)
  {
    s.spaces[e.id].pt[e.idx]
  }

  /** pt_set_entry through the pointer held by the caller. */
  function SetEntry(s: Vm, e: EntryRef, pe: PtEntry): (r: Vm)
    requires HasEntry(s, e)
    ensures r == s.(spaces := r.spaces) && r.spaces.Keys == s.spaces.Keys
    ensures forall id :: id in s.spaces ==> SameLayout(s.spaces[id], r.spaces[id])
    ensures forall o :: HasEntry(r, o) <==> HasEntry(s, o)
    ensures forall o :: HasEntry(s, o) ==> Entry(r, o) == if o == e then pe else Entry(s, o)
  {
    var sp := s.spaces[e.id];
    s.(spaces := s.spaces[e.id := sp.(pt := sp.pt[e.idx := pe])])
  }

  // ----------------------------------------------------------------------- TLB

  /** tlb_remove_by_paddr: clear the first slot, from i on, that holds frame f. */
  function TlbRemove(tlb: seq<TlbEntry>, f: nat, i: nat): (r: seq<TlbEntry>)
    ensures OnlyInvalidates(tlb, r)
    decreases |tlb| - i
  {
    if i >= |tlb| then tlb
    else if tlb[i].frame == f then tlb[i := InvalidTlb(i)]
    else TlbRemove(tlb, f, i + 1)
  }

  /** tlb_insert: overwrite the slot whose turn it is. */
  function TlbInsert(s: Vm, vpage: nat, f: nat, ro: bool): Vm
    requires s.tlbVictim < |s.tlb|
  {
    var next := (s.tlbVictim + 1) % |s.tlb|;
    s.(tlb := s.tlb[s.tlbVictim := TlbEntry(vpage, f, true, !ro)],
       tlbVictim := next, tlbFree := s.tlbFree && next != 0)
  }

  function AllInvalid(n: nat): (r: seq<TlbEntry>)
    ensures |r| == n && forall i :: 0 <= i < n ==> r[i] == InvalidTlb(i)
  {
    seq(n, i requires 0 <= i < n => InvalidTlb(i))
  }

  /** tlb_invalidate. */
  function TlbInvalidate(s: Vm): Vm {
    s.(tlb := AllInvalid(|s.tlb|), tlbVictim := 0, tlbFree := true)
  }

  // ---------------------------------------------------------------------- swap

  /** swap_out: the new state and the slot the page went to. */
  function SwapOut(s: Vm, f: nat): (r: Option<(Vm, nat)>)
    requires f < |s.ram| && |s.swapmap| == |s.swap|
  {
    var k := FirstClear(s.swapmap, 0);
    if k.None? then None
    else Some((s.(swapmap := s.swapmap[k.value := true], swap := s.swap[k.value := s.ram[f]]), k.value))
  }

  /** swap_in: read the slot into the frame, then clear its bit. */
  function SwapIn(s: Vm, f: nat, slot: nat): (r: Option<Vm>)
    requires f < |s.ram| && |s.swapmap| == |s.swap|
  {
    if slot >= |s.swapmap| || !s.swapmap[slot] then None
    else Some(s.(ram := s.ram[f := s.swap[slot]], swapmap := s.swapmap[slot := false]))
  }

  // ------------------------------------------------------------- physical pages

  /** The part of coremap_swapout after the victim is chosen: read-only pages are
      dropped, others go to swap; the TLB forgets the frame either way. */
  function Evict(s: Vm, f: nat): (r: Option<Vm>)
    requires Shape(s) && f < |s.cm|
    ensures r.Some? ==> Kept(s, r.value)
  {
    if s.cm[f].owner.None? || !HasEntry(s, s.cm[f].owner.value) then None
    else
      var e := s.cm[f].owner.value;
      if Entry(s, e).status == InMemoryRdonly then
        Some(SetEntry(s, e, FreshEntry).(tlb := TlbRemove(s.tlb, f, 0)))
      else
        var o := SwapOut(s, f);
        if o.None? || o.value.1 >= SWAP_INDEX_LIMIT then None
        else Some(SetEntry(o.value.0, e, PtEntry(0, o.value.1, InSwap)).(tlb := TlbRemove(s.tlb, f, 0)))
  }

  function ZeroRun(ram: seq<Page>, f: nat, n: nat): (r: seq<Page>)
    ensures |r| == |ram|
    ensures forall i :: 0 <= i < |ram| ==> r[i] == Zeroed(ram[i], f <= i < f + n)
  {
    seq(|ram|, i requires 0 <= i < |ram| => Zeroed(ram[i], f <= i < f + n))
  }

  function Zeroed(p: Page, z: bool): Page { if z then ZeroPage() else p }

  /** The last part of coremap_getppages: clear the frames, record the run. */
  function Claim(s: Vm, f: nat, n: nat, owner: Option<EntryRef>): Vm {
    s.(cm := AllocRun(s.cm, f, n, owner), ram := ZeroRun(s.ram, f, n))
  }

  /** coremap_swapout for one frame: choose, check the two assertions, evict. */
  function SwapoutOne(s: Vm): (r: Option<(Vm, nat)>)
    requires Shape(s)
    ensures r.Some? ==> Kept(s, r.value.0) && r.value.1 < |s.cm|
  {
    var v := NextVictim(s.cm, s.victim, 1);
    if v.None? || !s.cm[v.value].used || s.cm[v.value].size != 1 then None
    else
      var t := Evict(s.(victim := v.value), v.value);
      if t.None? then None else Some((t.value, v.value))
  }

  /** coremap_getppages under getppages: frames from the free ones, else from an
      eviction; every failure panics. None is also a scan for free frames that never
      ends. A request for no pages finds no free frames and takes a victim's. */
  function GetPages(s: Vm, n: nat, owner: Option<EntryRef>): (r: Option<(Vm, nat)>)
    requires Shape(s)
    ensures r.Some? ==> Kept(s, r.value.0) && 0 < r.value.1 < |s.cm|
  {
    var b := FindFree(s.cm, n);
    if b.None? then None
    else if b.value >= 0 then
      if b.value == 0 || b.value >= |s.cm| then None else Some((Claim(s, b.value, n, owner), b.value))
    else if n > 1 then None
    else
      var t := SwapoutOne(s);
      if t.None? || t.value.1 == 0 then None
      else Some((Claim(t.value.0, t.value.1, n, owner), t.value.1))
  }

  // -------------------------------------------------------------------- vm_fault

  datatype FaultType = FaultRead | FaultWrite | FaultReadonly | FaultOther

  datatype FaultResult =
    | Handled(vm: Vm)        // return 0
    | Invalid                // EINVAL
    | NoSpace                // EFAULT: no process or no address space
    | Killed                 // sys__exit(-1)
    | Panicked

  function StatusWhenResident(t: SegmentType): Status {
    if t == Text then InMemoryRdonly else InMemory
  }

  /** The NOT_LOADED case: frame, table entry, then the bytes. */
  function FaultLoad(s: Vm, e: EntryRef, t: SegmentType, va: nat): (r: Option<Vm>)
    requires Shape(s) && HasEntry(s, e) && Within(SegmentOf(s.spaces[e.id], t), va)
    ensures r.Some? ==> Kept(s, r.value)
  {
    var g := GetPages(s, 1, Some(e));
    var sp := s.spaces[e.id];
    if g.None? then None
    else
      var (s1, f) := g.value;
      var page := LoadFrame(s1.ram[f], SegmentOf(sp, t), t == Stack, sp.elf, va);
      if page.None? then None
      else Some(SetEntry(s1, e, PtEntry(f, 0, StatusWhenResident(t))).(ram := s1.ram[f := page.value]))
  }

  /** The IN_SWAP case: frame, bytes, then the table entry. */
  function FaultSwapIn(s: Vm, e: EntryRef, t: SegmentType): (r: Option<Vm>)
    requires Shape(s) && HasEntry(s, e)
    ensures r.Some? ==> Kept(s, r.value)
  {
    var g := GetPages(s, 1, Some(e));
    if g.None? then None
    else
      var (s1, f) := g.value;
      var u := SwapIn(s1, f, Entry(s1, e).slot);
      if u.None? then None
      else Some(SetEntry(u.value, e, PtEntry(f, 0, StatusWhenResident(t))))
  }

  /** vm_fault after the segment check, up to the TLB update. */
  function MakeResident(s: Vm, e: EntryRef, t: SegmentType, va: nat): (r: Option<Vm>)
    requires Shape(s) && HasEntry(s, e) && Within(SegmentOf(s.spaces[e.id], t), va)
    ensures r.Some? ==> Kept(s, r.value)
  {
    match Entry(s, e).status
    case NotLoaded => FaultLoad(s, e, t, va)
    case InSwap => FaultSwapIn(s, e, t)
    case InMemory => Some(s)
    case InMemoryRdonly => Some(s)
  }

  /** vm_fault. */
  function Fault(s: Vm, kind: FaultType, va: nat): (r: FaultResult)
    requires Shape(s)
  {
    if kind == FaultReadonly then Killed
    else if kind == FaultOther then Invalid
    else if s.cur.KernelOnly? then NoSpace
    else
      var sp := s.spaces[s.cur.id];
      var t := SegmentTypeOf(sp, va);
      if t.None? then Killed
      else
        var e := EntryRef(s.cur.id, PtIndex(sp, va));
        var u := MakeResident(s, e, t.value, va);
        if u.None? then Panicked
        else Handled(TlbInsert(u.value, va / PAGE_SIZE, Entry(u.value, e).frame, t.value == Text))
  }

  // ------------------------------------------------------------------ as_destroy

  /** One round of the loop of pt_empty. */
  function ReleaseEntry(s: Vm, pe: PtEntry): (r: Option<Vm>)
  {
    if pe.Resident() then
      if pe.frame >= |s.cm| || s.cm[pe.frame].size == 0
         || !forall i :: pe.frame <= i < pe.frame + s.cm[pe.frame].size ==> i < |s.cm| && s.cm[i].used then None
      else Some(s.(cm := ReleaseRun(s.cm, pe.frame)))
    else if pe.status == InSwap then
      if pe.slot >= |s.swapmap| || !s.swapmap[pe.slot] then None
      else Some(s.(swapmap := s.swapmap[pe.slot := false]))
    else Some(s)
  }

  /** pt_empty from index i on. */
  function PtEmpty(s: Vm, pt: seq<PtEntry>, i: nat): (r: Option<Vm>)
    requires i <= |pt|
    decreases |pt| - i
  {
    if i == |pt| then Some(s)
    else
      var t := ReleaseEntry(s, pt[i]);
      if t.None? then None else PtEmpty(t.value, pt, i + 1)
  }

  /** as_destroy of a space that is not running. */
  function Destroy(s: Vm, id: int): (r: Option<Vm>)
    requires id in s.spaces
  {
    var t := PtEmpty(s, s.spaces[id].pt, 0);
    if t.None? then None
    else
      var mapped := if s.mapped == User(id) then KernelOnly else s.mapped;
      Some(t.value.(spaces := t.value.spaces - {id}, mapped := mapped))
  }
}
