/** Address spaces: the three segments, the page-table index, and the bytes a
    page holds before the process writes to it.

    Source: kern/vm/addrspace.c, kern/vm/segment.c, kern/vm/pt.c (index and
    creation) and kern/syscall/loadelf.c. */
module AddressSpace {
  import opened Common

  /** struct segment. Addresses are byte addresses, `npages` counts pages. */
  datatype Segment = Segment(first: nat, last: nat, elfSize: nat, elfOffset: nat, npages: nat)

  datatype SegmentType = Text | Data | Stack

  datatype Status = NotLoaded | InMemory | InSwap | InMemoryRdonly

  /** struct pt_entry. */
  datatype PtEntry = PtEntry(frame: nat, slot: nat, status: Status)
  {
    predicate Resident() { status == InMemory || status == InMemoryRdonly }
  }

  const FreshEntry := PtEntry(0, 0, NotLoaded)

  /** struct addrspace together with the bytes of the executable it maps. */
  datatype Space = Space(text: Segment, data: Segment, stack: Segment, pt: seq<PtEntry>, elf: seq<byte>)

  /** One PT_LOAD program header: the arguments of as_define_region. */
  datatype Phdr = Phdr(vaddr: nat, memsz: nat, offset: nat, filesz: nat)

  predicate Word32(ph: Phdr) { ph.vaddr < WORD && ph.memsz < WORD && ph.filesz < WORD }

  // ---------------------------------------------------------------- definition

  function PageBase(va: nat): (r: nat)
    ensures r <= va < r + PAGE_SIZE && r % PAGE_SIZE == 0 && r / PAGE_SIZE == va / PAGE_SIZE
  {
    va - va % PAGE_SIZE
  }

  function RoundUp(x: nat): (r: nat)
    ensures x <= r < x + PAGE_SIZE && r % PAGE_SIZE == 0
  {
    (x + PAGE_SIZE - 1) / PAGE_SIZE * PAGE_SIZE
  }

  /** as_define_region followed by segment_define, in 32-bit arithmetic. None is
      a failed assertion, which stops the kernel. */
  function DefineRegion(ph: Phdr): (r: Option<Segment>)
    requires Word32(ph)
  {
    var last := (ph.vaddr + ph.memsz) % WORD;
    var padded := (ph.memsz + ph.vaddr % PAGE_SIZE) % WORD;
    var npages := ((padded + PAGE_SIZE - 1) % WORD) / PAGE_SIZE;
    if ph.memsz == 0 || ph.vaddr >= USERSPACETOP || last > USERSPACETOP then None
    else
      var span := (last - ph.vaddr) % WORD;
      Some(Segment(ph.vaddr, last, if ph.filesz > span then span else ph.filesz, ph.offset, npages))
  }

  /** as_define_stack. */
  const StackSegment :=
    Segment(USERSTACK - VM_STACKPAGES * PAGE_SIZE, USERSTACK, 0, 0, VM_STACKPAGES)

  function FreshTable(n: nat): (r: seq<PtEntry>)
    ensures |r| == n && forall i :: 0 <= i < n ==> r[i] == FreshEntry
  {
    seq(n, _ => FreshEntry)
  }

  /** load_elf, as_define_stack and as_define_pt for an executable with the two
      loadable segments the kernel supports. */
  function BuildSpace(text: Phdr, data: Phdr, elf: seq<byte>): (r: Option<Space>)
    requires Word32(text) && Word32(data)
  {
    var t := DefineRegion(text);
    var d := DefineRegion(data);
    if t.None? || d.None? then None
    else
      var npages := d.value.npages + t.value.npages + StackSegment.npages;
      Some(Space(t.value, d.value, StackSegment, FreshTable(npages), elf))
  }

  /** pt_create: NULL if kmalloc finds no room, else a table the loop has filled. */
  method PtCreate(size: nat, room: bool) returns (pt: array?<PtEntry>)
    ensures pt != null <==> room
    ensures pt != null ==> fresh(pt) && pt[..] == FreshTable(size)
  {
    if !room {
      return null;
    }
    pt := new PtEntry[size](_ => FreshEntry);
    for i := 0 to size
      invariant forall k :: 0 <= k < i ==> pt[k] == FreshEntry
    {
      pt[i] := PtEntry(0, 0, NotLoaded);
    }
  }

  /** A segment whose byte range is the one its page count covers. */
  predicate WfSegment(s: Segment) {
    && s.first < s.last <= USERSPACETOP
    && s.elfSize <= s.last - s.first
    && s.first / PAGE_SIZE + s.npages == (s.last + PAGE_SIZE - 1) / PAGE_SIZE
  }

  /** A region is accepted exactly when it has a byte, starts in user space, and ends there
      or past the 32-bit address range. */
  lemma RegionAcceptedIff(ph: Phdr)
    requires Word32(ph)
    ensures DefineRegion(ph).Some? <==>
              && ph.memsz > 0 && ph.vaddr < USERSPACETOP
              && (ph.vaddr + ph.memsz <= USERSPACETOP || ph.vaddr + ph.memsz >= WORD)
  {
    if ph.vaddr + ph.memsz < WORD { NoWrap(ph.vaddr, ph.memsz); } else { Wrap(ph.vaddr, ph.memsz); }
  }

  lemma Wrap(x: nat, y: nat)
    requires x < WORD && y < WORD && x + y >= WORD
    ensures (x + y) % WORD == x + y - WORD
  {
  }

  /** A defined region is a well-formed segment exactly when its end does not
      wrap around the 32-bit address range. */
  lemma RegionWellFormed(ph: Phdr)
    requires Word32(ph) && DefineRegion(ph).Some?
    ensures WfSegment(DefineRegion(ph).value) <==> ph.vaddr + ph.memsz < WORD
    ensures DefineRegion(ph).value.elfOffset == ph.offset && DefineRegion(ph).value.first == ph.vaddr
    ensures ph.vaddr + ph.memsz < WORD ==>
              var s := DefineRegion(ph).value;
              s.last == ph.vaddr + ph.memsz && s.elfSize == Min(ph.filesz, ph.memsz)
  {
    var s := DefineRegion(ph).value;
    if ph.vaddr + ph.memsz < WORD {
      NoWrap(ph.vaddr, ph.memsz);
      PagesSpanned(ph.vaddr, ph.memsz);
    } else {
      assert s.last == ph.vaddr + ph.memsz - WORD;
    }
  }

  lemma NoWrap(x: nat, y: nat)
    requires x + y < WORD
    ensures (x + y) % WORD == x + y && ((x + y) % WORD - x) % WORD == y
  {
  }

  /** The page count, in 32-bit arithmetic, is the number of pages the bytes touch. */
  lemma PagesSpanned(vaddr: nat, memsz: nat)
    requires vaddr + memsz <= USERSPACETOP
    ensures var npages := (((memsz + vaddr % PAGE_SIZE) % WORD + PAGE_SIZE - 1) % WORD) / PAGE_SIZE;
            vaddr / PAGE_SIZE + npages == (vaddr + memsz + PAGE_SIZE - 1) / PAGE_SIZE
  {
    var off := vaddr % PAGE_SIZE;
    assert vaddr == vaddr / PAGE_SIZE * PAGE_SIZE + off;
    assert vaddr + memsz + PAGE_SIZE - 1 == vaddr / PAGE_SIZE * PAGE_SIZE + (memsz + off + PAGE_SIZE - 1);
  }

  /** A region whose end wraps: it is accepted, and ends before it begins. */
  lemma WrappingRegionAccepted()
    ensures var r := DefineRegion(Phdr(0x40_0000, 0xffc0_0001, 0, 0));
            r.Some? && r.value.last == 1 && !WfSegment(r.value)
  {
    RegionWellFormed(Phdr(0x40_0000, 0xffc0_0001, 0, 0));
  }

  // --------------------------------------------------------------- page numbers

  /** The virtual pages a segment occupies are First..First+npages. */
  predicate HasPage(s: Segment, vpage: nat) {
    s.first / PAGE_SIZE <= vpage < s.first / PAGE_SIZE + s.npages
  }

  predicate PagesApart(a: Segment, b: Segment) {
    || a.first / PAGE_SIZE + a.npages <= b.first / PAGE_SIZE
    || b.first / PAGE_SIZE + b.npages <= a.first / PAGE_SIZE
  }

  predicate PageDisjoint(sp: Space) {
    PagesApart(sp.text, sp.data) && PagesApart(sp.text, sp.stack) && PagesApart(sp.data, sp.stack)
  }

  function TotalPages(sp: Space): nat { sp.data.npages + sp.text.npages + sp.stack.npages }

  predicate WfSegments(sp: Space) {
    && WfSegment(sp.text) && WfSegment(sp.data) && WfSegment(sp.stack) && sp.stack.elfSize == 0
    && |sp.pt| == TotalPages(sp)
  }

  predicate WfSpace(sp: Space) { WfSegments(sp) && PageDisjoint(sp) }

  predicate Within(s: Segment, va: nat) { s.first <= va < s.last }

  /** as_get_segment_type; None is its result 0. */
  function SegmentTypeOf(sp: Space, va: nat): Option<SegmentType> {
    if Within(sp.text, va) then Some(Text)
    else if Within(sp.data, va) then Some(Data)
    else if Within(sp.stack, va) then Some(Stack)
    else None
  }

  function SegmentOf(sp: Space, t: SegmentType): Segment {
    match t case Text => sp.text case Data => sp.data case Stack => sp.stack
  }

  /** The table index of the first page of a segment. */
  function BaseIndex(sp: Space, t: SegmentType): nat {
    match t
    case Text => 0
    case Data => sp.text.npages
    case Stack => sp.data.npages + sp.text.npages
  }

  /** pt_get_index. */
  function PtIndex(sp: Space, va: nat): (r: nat)
    requires WfSegments(sp) && SegmentTypeOf(sp, va).Some?
    ensures r < |sp.pt|
  {
    var t := SegmentTypeOf(sp, va).value;
    BaseIndex(sp, t) + (va - PageBase(SegmentOf(sp, t).first)) / PAGE_SIZE
  }

  /** The segment an index belongs to, and the virtual page it stands for. */
  function TypeAt(sp: Space, i: nat): SegmentType {
    if i < sp.text.npages then Text else if i < sp.text.npages + sp.data.npages then Data else Stack
  }

  function PageAtIndex(sp: Space, i: nat): (r: nat)
    requires WfSegments(sp) && i < |sp.pt|
    ensures HasPage(SegmentOf(sp, TypeAt(sp, i)), r)
  {
    var t := TypeAt(sp, i);
    SegmentOf(sp, t).first / PAGE_SIZE + (i - BaseIndex(sp, t))
  }

  /** The index of a whole page, used to speak of pages the hardware maps. */
  function PageIndex(sp: Space, vpage: nat): Option<nat> {
    if HasPage(sp.text, vpage) then Some(vpage - sp.text.first / PAGE_SIZE)
    else if HasPage(sp.data, vpage) then Some(BaseIndex(sp, Data) + (vpage - sp.data.first / PAGE_SIZE))
    else if HasPage(sp.stack, vpage) then Some(BaseIndex(sp, Stack) + (vpage - sp.stack.first / PAGE_SIZE))
    else None
  }

  lemma PtIndexInSegment(sp: Space, va: nat)
    requires WfSegments(sp) && SegmentTypeOf(sp, va).Some?
    ensures var t := SegmentTypeOf(sp, va).value;
            && HasPage(SegmentOf(sp, t), va / PAGE_SIZE)
            && PtIndex(sp, va) == BaseIndex(sp, t) + (va / PAGE_SIZE - SegmentOf(sp, t).first / PAGE_SIZE)
            && TypeAt(sp, PtIndex(sp, va)) == t
            && PageAtIndex(sp, PtIndex(sp, va)) == va / PAGE_SIZE
  {
    var s := SegmentOf(sp, SegmentTypeOf(sp, va).value);
    assert PageBase(s.first) == s.first / PAGE_SIZE * PAGE_SIZE;
    assert (va - PageBase(s.first)) / PAGE_SIZE == va / PAGE_SIZE - s.first / PAGE_SIZE;
  }

  /** Every page of a segment holds at least one byte of it. */
  lemma SegmentPageTouched(s: Segment, vpage: nat) returns (va: nat)
    requires WfSegment(s) && HasPage(s, vpage)
    ensures Within(s, va) && va / PAGE_SIZE == vpage
  {
    va := if vpage == s.first / PAGE_SIZE then s.first else vpage * PAGE_SIZE;
  }

  /** PageIndex and PageAtIndex are inverse bijections between the pages of the
      three segments and 0..TotalPages. */
  lemma PageIndexBijection(sp: Space, i: nat, vpage: nat)
    requires WfSpace(sp)
    ensures i < |sp.pt| ==> PageIndex(sp, PageAtIndex(sp, i)) == Some(i)
    ensures PageIndex(sp, vpage).Some? ==>
              PageIndex(sp, vpage).value < |sp.pt| && PageAtIndex(sp, PageIndex(sp, vpage).value) == vpage
  {
  }

  /** An address inside a segment has the index of its page. */
  lemma PtIndexIsPageIndex(sp: Space, va: nat)
    requires WfSpace(sp) && SegmentTypeOf(sp, va).Some?
    ensures PageIndex(sp, va / PAGE_SIZE) == Some(PtIndex(sp, va))
    ensures TypeAt(sp, PtIndex(sp, va)) == SegmentTypeOf(sp, va).value
  {
    PtIndexInSegment(sp, va);
    PageIndexBijection(sp, PtIndex(sp, va), va / PAGE_SIZE);
  }

  /** Every index is the index of some address: the table has no spare entry. */
  lemma PtIndexOnto(sp: Space, i: nat) returns (va: nat)
    requires WfSpace(sp) && i < |sp.pt|
    ensures SegmentTypeOf(sp, va).Some? && PtIndex(sp, va) == i
  {
    va := SegmentPageTouched(SegmentOf(sp, TypeAt(sp, i)), PageAtIndex(sp, i));
    PtIndexIsPageIndex(sp, va);
    PageIndexBijection(sp, i, 0);
  }

  /** pt_get_index gives two addresses one entry exactly when they lie on one page. */
  ghost predicate IndexSeparatesPages(sp: Space)
    requires WfSegments(sp)
  {
    forall va: nat, wa: nat | SegmentTypeOf(sp, va).Some? && SegmentTypeOf(sp, wa).Some? ::
      PtIndex(sp, va) == PtIndex(sp, wa) <==> va / PAGE_SIZE == wa / PAGE_SIZE
  }

  /** No page holds bytes that as_get_segment_type gives to two segments. */
  ghost predicate NoMixedPage(sp: Space) {
    forall va: nat, wa: nat | SegmentTypeOf(sp, va).Some? && SegmentTypeOf(sp, wa).Some? ::
      va / PAGE_SIZE == wa / PAGE_SIZE ==> SegmentTypeOf(sp, va) == SegmentTypeOf(sp, wa)
  }

  /** It does so for all addresses if and only if no page is of two segments. */
  lemma IndexSeparatesIff(sp: Space)
    requires WfSegments(sp)
    ensures IndexSeparatesPages(sp) <==> NoMixedPage(sp)
  {
    forall va: nat, wa: nat | SegmentTypeOf(sp, va).Some? && SegmentTypeOf(sp, wa).Some?
      ensures PtIndex(sp, va) == PtIndex(sp, wa) ==> va / PAGE_SIZE == wa / PAGE_SIZE
      ensures va / PAGE_SIZE == wa / PAGE_SIZE ==>
                (PtIndex(sp, va) == PtIndex(sp, wa) <==> SegmentTypeOf(sp, va) == SegmentTypeOf(sp, wa))
    {
      PtIndexInSegment(sp, va);
      PtIndexInSegment(sp, wa);
    }
  }

  /** The segments as a caller sees them before the table exists: no byte lies in two. */
  predicate BytesApart(a: Segment, b: Segment) { a.last <= b.first || b.last <= a.first }

  predicate BytesDisjoint(sp: Space) {
    BytesApart(sp.text, sp.data) && BytesApart(sp.text, sp.stack) && BytesApart(sp.data, sp.stack)
  }

  /** For segments that do not overlap, that is: if and only if no two share a page. */
  lemma IndexSeparatesIffDisjoint(sp: Space)
    requires WfSegments(sp) && BytesDisjoint(sp)
    ensures IndexSeparatesPages(sp) <==> PageDisjoint(sp)
  {
    if PageDisjoint(sp) {
      forall va: nat, wa: nat | SegmentTypeOf(sp, va).Some? && SegmentTypeOf(sp, wa).Some?
        ensures PtIndex(sp, va) == PtIndex(sp, wa) <==> va / PAGE_SIZE == wa / PAGE_SIZE
      {
        PtIndexInSegment(sp, va);
        PtIndexInSegment(sp, wa);
        PtIndexIsPageIndex(sp, va);
        PtIndexIsPageIndex(sp, wa);
      }
    } else {
      if !PagesApart(sp.text, sp.data) {
        SharedPageConfuses(sp, Text, Data);
      } else if !PagesApart(sp.text, sp.stack) {
        SharedPageConfuses(sp, Text, Stack);
      } else {
        SharedPageConfuses(sp, Data, Stack);
      }
    }
  }

  /** A program with text and data on one page: it is accepted, and one page then has two
      table entries. */
  lemma SharedPageAccepted()
    ensures var text, data := Phdr(0x40_0000, 0x100, 0, 0x100), Phdr(0x40_0100, 0x100, 0x100, 0x100);
            var sp := BuildSpace(text, data, []);
            && sp.Some? && WfSegments(sp.value) && !IndexSeparatesPages(sp.value)
            && PtIndex(sp.value, 0x40_00ff) != PtIndex(sp.value, 0x40_0100)
  {
    var text, data := Phdr(0x40_0000, 0x100, 0, 0x100), Phdr(0x40_0100, 0x100, 0x100, 0x100);
    RegionWellFormed(text);
    RegionWellFormed(data);
    var sp := BuildSpace(text, data, []).value;
    assert SegmentTypeOf(sp, 0x40_00ff) == Some(Text) && SegmentTypeOf(sp, 0x40_0100) == Some(Data);
    PtIndexInSegment(sp, 0x40_00ff);
    PtIndexInSegment(sp, 0x40_0100);
  }

  lemma TypeOfByte(sp: Space, t: SegmentType, va: nat)
    requires BytesDisjoint(sp) && Within(SegmentOf(sp, t), va)
    ensures SegmentTypeOf(sp, va) == Some(t)
  {
  }

  lemma SharedPage(a: Segment, b: Segment) returns (vpage: nat)
    requires WfSegment(a) && WfSegment(b) && !PagesApart(a, b)
    ensures HasPage(a, vpage) && HasPage(b, vpage)
  {
    var p, q := a.first / PAGE_SIZE, b.first / PAGE_SIZE;
    vpage := if p >= q then p else q;
  }

  lemma SharedPageConfuses(sp: Space, t: SegmentType, u: SegmentType)
    requires WfSegments(sp) && BytesDisjoint(sp) && t != u
    requires !PagesApart(SegmentOf(sp, t), SegmentOf(sp, u))
    ensures !IndexSeparatesPages(sp)
  {
    var vpage := SharedPage(SegmentOf(sp, t), SegmentOf(sp, u));
    var va := SegmentPageTouched(SegmentOf(sp, t), vpage);
    var wa := SegmentPageTouched(SegmentOf(sp, u), vpage);
    TypeOfByte(sp, t, va);
    TypeOfByte(sp, u, wa);
    assert PtIndex(sp, va) != PtIndex(sp, wa) by {
      PtIndexInSegment(sp, va);
      PtIndexInSegment(sp, wa);
    }
  }

  // -------------------------------------------------------------- page contents

  predicate FileByte(s: Segment, va: nat) { s.first <= va < s.first + s.elfSize }

  /** Loading everything at once with zero fill: the byte at `va` of a segment's
      pages before any store. This is the rule of PT_LOAD headers: file bytes
      from the start of the segment, zeros elsewhere. */
  function ImageByte(s: Segment, elf: seq<byte>, va: nat): byte {
    if FileByte(s, va) && s.elfOffset + (va - s.first) < |elf|
    then elf[s.elfOffset + (va - s.first)] else 0
  }

  function SegmentImage(s: Segment, elf: seq<byte>, vpage: nat): (r: seq<byte>)
    ensures |r| == PAGE_SIZE
    ensures forall j :: 0 <= j < PAGE_SIZE ==> r[j] == ImageByte(s, elf, vpage * PAGE_SIZE + j)
  {
    seq(PAGE_SIZE, j requires 0 <= j < PAGE_SIZE => ImageByte(s, elf, vpage * PAGE_SIZE + j))
  }

  /** The initial contents of the page behind table entry i. */
  function ImagePage(sp: Space, i: nat): Page
    requires WfSegments(sp) && i < |sp.pt|
  {
    SegmentImage(SegmentOf(sp, TypeAt(sp, i)), sp.elf, PageAtIndex(sp, i))
  }

  /** What as_load_page hands to load_page: where in the file, where in the
      frame, and how many bytes. */
  datatype LoadPlan = LoadPlan(offset: int, target: nat, size: nat)

  /** as_check_in_elf. */
  predicate InElf(s: Segment, va: nat) { va < RoundUp(s.first + s.elfSize) }

  /** The three cases of as_load_page: first page, last page with file bytes,
      and the pages between. */
  function PlanLoad(s: Segment, va: nat): (p: LoadPlan)
  {
    if PageBase(s.first) == PageBase(va) then
      var room := PAGE_SIZE - s.first % PAGE_SIZE;
      LoadPlan(s.elfOffset, s.first % PAGE_SIZE, if room > s.elfSize then s.elfSize else room)
    else if PageBase(s.first + s.elfSize) == PageBase(va) then
      LoadPlan(s.elfOffset + PageBase(va) - s.first, 0, (s.first + s.elfSize) % PAGE_SIZE)
    else
      LoadPlan(s.elfOffset + PageBase(va) - s.first, 0, PAGE_SIZE)
  }

  /** load_page into a frame: None is the panic on a short read. */
  function LoadInto(page: Page, elf: seq<byte>, p: LoadPlan): (r: Option<Page>)
    requires p.target + p.size <= PAGE_SIZE && 0 <= p.offset
  {
    if p.offset + p.size > |elf| && p.size > 0 then None
    else if p.size == 0 then Some(page)
    else Some(page[..p.target] + elf[p.offset..p.offset + p.size] + page[p.target + p.size..])
  }

  /** A load never reads outside the segment's file bytes nor writes outside
      the frame. */
  lemma PlanInBounds(s: Segment, va: nat)
    requires WfSegment(s) && Within(s, va) && InElf(s, va)
    ensures var p := PlanLoad(s, va);
            && p.target + p.size <= PAGE_SIZE
            && s.elfOffset <= p.offset && p.offset + p.size <= s.elfOffset + s.elfSize
  {
    var end := s.first + s.elfSize;
    if PageBase(s.first) != PageBase(va) {
      BasesApart(s.first, va);
      InElfPage(s, va);
      if PageBase(end) != PageBase(va) { BasesApart(va, end); }
    }
  }

  /** Addresses on different pages have page bases a page apart. */
  lemma BasesApart(x: nat, y: nat)
    requires PageBase(x) != PageBase(y)
    ensures x < y ==> PageBase(x) + PAGE_SIZE <= PageBase(y)
  {
    assert PageBase(x) == x / PAGE_SIZE * PAGE_SIZE && PageBase(y) == y / PAGE_SIZE * PAGE_SIZE;
  }

  /** A page past the first that holds file bytes starts before their end. */
  lemma InElfPage(s: Segment, va: nat)
    requires WfSegment(s) && Within(s, va) && InElf(s, va) && PageBase(s.first) != PageBase(va)
    ensures PageBase(va) < s.first + s.elfSize
    ensures PageBase(s.first + s.elfSize) != PageBase(va) ==> va < s.first + s.elfSize
  {
    var end := s.first + s.elfSize;
    RoundUpIs(end);
    if va >= end && PageBase(end) != PageBase(va) { BasesApart(end, va); }
  }

  lemma RoundUpIs(x: nat)
    ensures RoundUp(x) == if PageBase(x) == x then x else PageBase(x) + PAGE_SIZE
  {
    assert PageBase(x) == x / PAGE_SIZE * PAGE_SIZE;
  }

  /** vm_fault's choice: load from the file into the frame, or leave it as it is. */
  function LoadFrame(frame: Page, s: Segment, isStack: bool, elf: seq<byte>, va: nat): (r: Option<Page>)
    requires WfSegment(s) && Within(s, va)
  {
    if !isStack && InElf(s, va) then
      PlanInBounds(s, va);
      LoadInto(frame, elf, PlanLoad(s, va))
    else Some(frame)
  }

  /** The same in a frame of zeros. */
  function FirstContents(s: Segment, isStack: bool, elf: seq<byte>, va: nat): (r: Option<Page>)
    requires WfSegment(s) && Within(s, va)
  {
    LoadFrame(ZeroPage(), s, isStack, elf, va)
  }

  /** Loading one page on demand gives the bytes that eager loading puts there,
      whichever byte of the page faulted. */
  lemma LoadedPageIsImage(s: Segment, isStack: bool, elf: seq<byte>, va: nat)
    requires WfSegment(s) && Within(s, va) && (isStack ==> s.elfSize == 0)
    requires FirstContents(s, isStack, elf, va).Some?
    ensures FirstContents(s, isStack, elf, va).value == SegmentImage(s, elf, va / PAGE_SIZE)
  {
    var r, img := FirstContents(s, isStack, elf, va).value, SegmentImage(s, elf, va / PAGE_SIZE);
    var base := PageBase(va);
    assert base == va / PAGE_SIZE * PAGE_SIZE;
    if !isStack && InElf(s, va) {
      PlanInBounds(s, va);
      var p := PlanLoad(s, va);
      PlanCoversFileBytes(s, va);
      forall j | 0 <= j < PAGE_SIZE ensures r[j] == img[j] {
        assert FileByte(s, base + j) <==> p.target <= j < p.target + p.size;
        assert img[j] == ImageByte(s, elf, base + j);
      }
    } else {
      assert base >= s.first + s.elfSize || s.elfSize == 0;
      forall j | 0 <= j < PAGE_SIZE ensures r[j] == img[j] {
        assert img[j] == ImageByte(s, elf, base + j);
      }
    }
  }

  /** The file holds every file byte of a segment's page. */
  ghost predicate PageInFile(s: Segment, elf: seq<byte>, vpage: nat) {
    forall a :: vpage * PAGE_SIZE <= a < (vpage + 1) * PAGE_SIZE && FileByte(s, a) ==>
      s.elfOffset + (a - s.first) < |elf|
  }

  /** A page loads if and only if the file holds its file bytes, whichever byte of the page
      faulted. */
  lemma LoadsIffInFile(s: Segment, isStack: bool, elf: seq<byte>, va: nat)
    requires WfSegment(s) && Within(s, va) && (isStack ==> s.elfSize == 0)
    ensures FirstContents(s, isStack, elf, va).Some? <==> PageInFile(s, elf, va / PAGE_SIZE)
  {
    var base := PageBase(va);
    assert base == va / PAGE_SIZE * PAGE_SIZE;
    if !isStack && InElf(s, va) {
      PlanInBounds(s, va);
      PlanCoversFileBytes(s, va);
      var p := PlanLoad(s, va);
      if p.size > 0 { assert FileByte(s, base + p.target + p.size - 1); }
    } else {
      assert base >= s.first + s.elfSize || s.elfSize == 0;
    }
  }

  /** The bytes a load copies are exactly the file bytes of that page. */
  lemma PlanCoversFileBytes(s: Segment, va: nat)
    requires WfSegment(s) && Within(s, va) && InElf(s, va)
    ensures var p, base := PlanLoad(s, va), PageBase(va);
            && (forall a :: base <= a < base + PAGE_SIZE ==>
                 (FileByte(s, a) <==> p.target <= a - base < p.target + p.size))
            && (p.size > 0 ==> p.offset - p.target == s.elfOffset + base - s.first)
  {
    var p, base, end := PlanLoad(s, va), PageBase(va), s.first + s.elfSize;
    if PageBase(s.first) == base {
      assert s.first == base + s.first % PAGE_SIZE;
    } else {
      assert s.first < base by {
        assert s.first / PAGE_SIZE < va / PAGE_SIZE;
        assert base == va / PAGE_SIZE * PAGE_SIZE;
      }
      if PageBase(end) != base {
        PlanInBounds(s, va);
        assert end >= base + PAGE_SIZE;
      }
    }
  }

  // ------------------------------------------------- the program, by its headers alone

  predicate InHeader(ph: Phdr, va: nat) { ph.vaddr <= va < ph.vaddr + ph.memsz }

  predicate InStack(va: nat) { USERSTACK - VM_STACKPAGES * PAGE_SIZE <= va < USERSTACK }

  /** The addresses a program may use: its two loadable segments and its stack. */
  predicate InProgram(text: Phdr, data: Phdr, va: nat) { InHeader(text, va) || InHeader(data, va) || InStack(va) }

  /** The byte a loadable segment starts with: its file byte, else zero. */
  function HeaderByte(ph: Phdr, elf: seq<byte>, va: nat): byte
    requires InHeader(ph, va)
  {
    var i := va - ph.vaddr;
    if i < ph.filesz && ph.offset + i < |elf| then elf[ph.offset + i] else 0
  }

  /** The byte a program starts with at an address, by the rule of PT_LOAD headers; where the
      two overlap, the text's. */
  function ProgramByte(text: Phdr, data: Phdr, elf: seq<byte>, va: nat): byte {
    if InHeader(text, va) then HeaderByte(text, elf, va)
    else if InHeader(data, va) then HeaderByte(data, elf, va)
    else 0
  }

  /** A space built from two headers spans the addresses of the program and starts with its
      bytes. */
  lemma BuiltFromHeaders(text: Phdr, data: Phdr, elf: seq<byte>, va: nat)
    requires Word32(text) && Word32(data) && BuildSpace(text, data, elf).Some?
    requires text.vaddr + text.memsz < WORD && data.vaddr + data.memsz < WORD
    ensures var sp := BuildSpace(text, data, elf).value;
            var t := SegmentTypeOf(sp, va);
            && (t.Some? <==> InProgram(text, data, va))
            && (t.Some? ==> ImageByte(SegmentOf(sp, t.value), sp.elf, va) == ProgramByte(text, data, elf, va))
  {
    RegionWellFormed(text);
    RegionWellFormed(data);
  }

  /** The file holds every file byte of a header's page. */
  ghost predicate HeaderInFile(ph: Phdr, elf: seq<byte>, vpage: nat) {
    forall a :: vpage * PAGE_SIZE <= a < (vpage + 1) * PAGE_SIZE && InHeader(ph, a) && a - ph.vaddr < ph.filesz ==>
      ph.offset + (a - ph.vaddr) < |elf|
  }

  /** The file holds what the page of va is loaded from. */
  ghost predicate FileHolds(text: Phdr, data: Phdr, elf: seq<byte>, va: nat) {
    if InHeader(text, va) then HeaderInFile(text, elf, va / PAGE_SIZE)
    else InHeader(data, va) ==> HeaderInFile(data, elf, va / PAGE_SIZE)
  }

  /** The first contents of a page are to be had exactly if the file holds them. */
  lemma BuiltLoadsIff(text: Phdr, data: Phdr, elf: seq<byte>, va: nat)
    requires Word32(text) && Word32(data) && BuildSpace(text, data, elf).Some?
    requires text.vaddr + text.memsz < WORD && data.vaddr + data.memsz < WORD && InProgram(text, data, va)
    ensures var sp := BuildSpace(text, data, elf).value;
            var t := SegmentTypeOf(sp, va);
            && t.Some? && WfSegment(SegmentOf(sp, t.value))
            && (FirstContents(SegmentOf(sp, t.value), t.value == Stack, sp.elf, va).Some? <==>
                  FileHolds(text, data, elf, va))
            && (t.value == Text <==> InHeader(text, va))
  {
    RegionWellFormed(text);
    RegionWellFormed(data);
    var sp := BuildSpace(text, data, elf).value;
    var t := SegmentTypeOf(sp, va).value;
    LoadsIffInFile(SegmentOf(sp, t), t == Stack, sp.elf, va);
    HeaderFileIff(text, elf, va / PAGE_SIZE);
    HeaderFileIff(data, elf, va / PAGE_SIZE);
  }

  lemma HeaderFileIff(ph: Phdr, elf: seq<byte>, vpage: nat)
    requires Word32(ph) && DefineRegion(ph).Some? && ph.vaddr + ph.memsz < WORD
    ensures PageInFile(DefineRegion(ph).value, elf, vpage) <==> HeaderInFile(ph, elf, vpage)
  {
    RegionWellFormed(ph);
    var s := DefineRegion(ph).value;
    assert forall a: nat :: FileByte(s, a) <==> InHeader(ph, a) && a - ph.vaddr < ph.filesz;
  }
}
