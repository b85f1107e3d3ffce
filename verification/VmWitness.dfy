/** Runs from boot that show what the virtual memory system can come to: a frame that stays
    eligible and is chosen twice between two choices of another, and a frame lost to a
    request for no pages. The process touches pages of text that its file holds no bytes of,
    so they load as zeros and are dropped when evicted, whatever the swap file. */
module VmWitness {
  import opened Common
  import opened AddressSpace
  import opened Coremap
  import opened VmState
  import opened VmInvariant
  import opened VmSteps
  import opened VmRuns
  import opened VmHistory
  import opened VmTheorems

  // ------------------------------------------------------------------- the program

  const TEXT := Phdr(0x40_0000, 0x3000, 0, 0)
  const DATA := Phdr(0x50_0000, 0x1000, 0, 0)

  /** The address of page i of the text. */
  function TextAt(i: nat): nat { 0x40_0000 + i * PAGE_SIZE }

  /** The program runs, in a space laid out as it was built. */
  ghost predicate Runs(s: Vm) {
    && Inv(s) && s.cur == User(0) && 0 in s.spaces
    && s.spaces[0].text == Segment(0x40_0000, 0x40_3000, 0, 0, 3) && s.spaces[0].elf == []
  }

  /** Page i of its text is an entry of its table. */
  lemma TextEntry(sp: Space, i: nat)
    requires WfSegments(sp) && sp.text == Segment(0x40_0000, 0x40_3000, 0, 0, 3) && i < 3
    ensures SegmentTypeOf(sp, TextAt(i)) == Some(Text) && PtIndex(sp, TextAt(i)) == i && i < |sp.pt|
  {
    PtIndexInSegment(sp, TextAt(i));
  }

  lemma ProgramLoads()
    ensures Loadable(TEXT, DATA, [])
    ensures BuildSpace(TEXT, DATA, []).value.text == Segment(0x40_0000, 0x40_3000, 0, 0, 3)
    ensures BuildSpace(TEXT, DATA, []).value.elf == []
  {
    RegionWellFormed(TEXT);
    RegionWellFormed(DATA);
  }

  // ------------------------------------------------------------------ simple coremaps

  /** Every run is one frame long, and has no owner or page 0, 1 or 2 of the text. */
  ghost predicate Simple(cm: seq<Cm>) {
    forall i :: 0 <= i < |cm| ==>
      (cm[i].used <==> cm[i].size == 1) && (!cm[i].used <==> cm[i].size == 0)
      && (cm[i].owner.Some? ==> cm[i].owner.value.id == 0 && cm[i].owner.value.idx < 3)
  }

  lemma SimpleTiled(cm: seq<Cm>)
    requires Simple(cm)
    ensures Tiled(cm)
  {
    forall i | 0 <= i < |cm| && cm[i].used ensures Covered(cm, i) { assert Covers(cm, i, i); }
  }

  /** The frame a request for one page gets: the first free one, else the next victim. */
  ghost predicate Serves(cm: seq<Cm>, victim: nat, f: nat)
    requires victim < |cm|
  {
    && f < |cm| && (forall i :: 0 <= i < f ==> cm[i].used)
    && (cm[f].used ==> (forall i :: 0 <= i < |cm| ==> cm[i].used) && NextVictim(cm, victim, 1) == Some(f))
  }

  lemma ServedAt(cm: seq<Cm>, victim: nat, f: nat)
    requires Simple(cm) && victim < |cm| && Serves(cm, victim, f)
    ensures Tiled(cm) && FindFree(cm, 1) == if cm[f].used then Some(-1) else Some(f as int)
  {
    SimpleTiled(cm);
    FindFreeIs(cm, 1);
    if cm[f].used {
      FoundUnused(cm);
    } else {
      forall x | 0 <= x < f ensures !FreeRange(cm, x, 1) { assert cm[x].used; }
      FirstFreeIs(cm, 1, f);
    }
  }

  lemma FoundUnused(cm: seq<Cm>)
    ensures var r := FirstFree(cm, 1, 0); r.Some? ==> r.value < |cm| && !cm[r.value].used
  {
  }

  /** So a request for one page succeeds: the victim is text, which needs no swap slot. */
  lemma OnePageServed(s: Vm, f: nat, owner: Option<EntryRef>)
    requires Runs(s) && Simple(s.cm) && Serves(s.cm, s.victim, f)
    ensures GetPages(s, 1, owner).Some?
  {
    ServedAt(s.cm, s.victim, f);
    OnePageFailsIff(s, owner);
    if s.cm[f].used {
      assert Owned(s.cm[f]) && FrameNames(s, f);
      assert TextEntryOk(s, s.cm[f].owner.value);
    }
  }

  // ------------------------------------------------------------------- single events

  /** No frame in use is recorded for page i. */
  predicate NotThere(cm: seq<Cm>, i: nat) {
    forall g :: 0 <= g < |cm| && cm[g].used ==> cm[g].owner != Some(EntryRef(0, i))
  }

  function Mine(i: nat): Cm { UserCm(EntryRef(0, i)) }

  /** A page not in memory misses the TLB. */
  lemma AbsentMisses(s: Vm, i: nat)
    requires Runs(s) && i < 3 && NotThere(s.cm, i)
    ensures Absent(s, 0, TextAt(i)) && Hit(s, TextAt(i)).None?
  {
    var sp, va, e := s.spaces[0], TextAt(i), EntryRef(0, i);
    TextEntry(sp, i);
    assert WfSpace(sp);
    PtIndexIsPageIndex(sp, va);
    assert HasEntry(s, e) && (Entry(s, e).Resident() ==> EntryNames(s, NO_FRAME, e));
    forall k | 0 <= k < |s.tlb| ensures !Maps(s.tlb[k], va / PAGE_SIZE) {
      assert s.tlb[k].valid ==> SlotAgrees(s, NO_FRAME, s.tlb[k]);
    }
  }

  /** Its page of zeros loads. */
  lemma TextLoads(sp: Space, i: nat)
    requires WfSegments(sp) && sp.text == Segment(0x40_0000, 0x40_3000, 0, 0, 3) && sp.elf == [] && i < 3
    ensures Within(sp.text, TextAt(i)) && FirstContents(sp.text, false, sp.elf, TextAt(i)).Some?
  {
    LoadsIffInFile(sp.text, false, sp.elf, TextAt(i));
  }

  /** So touching it is a fault that succeeds if a frame can be had. */
  lemma TouchHappens(s: Vm, i: nat, f: nat)
    requires Runs(s) && Simple(s.cm) && Serves(s.cm, s.victim, f) && i < 3 && NotThere(s.cm, i)
    ensures Step(s, Trap(FaultRead, TextAt(i))).Some?
    ensures Asks(s, Trap(FaultRead, TextAt(i))) == Some(1)
    ensures RequestOwner(s, Trap(FaultRead, TextAt(i))) == Some(EntryRef(0, i))
  {
    var e := EntryRef(0, i);
    AbsentMisses(s, i);
    TextEntry(s.spaces[0], i);
    TextLoads(s.spaces[0], i);
    OnePageServed(s, f, Some(e));
    ResidentFailsIff(s, e, Text, TextAt(i));
    assert TextEntryOk(s, e);
    ServedAt(s.cm, s.victim, f);
    ScanEndsIff(s.cm, 1);
    OnePageFailsIff(s, Some(e));
  }

  /** What a served request for one page does to the coremap and the hand. */
  ghost predicate Served(s: Vm, f: nat, c: Cm, t: Vm)
    requires f < |s.cm|
  {
    t.boot == s.boot && t.cm == s.cm[f := c] && t.victim == if s.cm[f].used then f else s.victim
  }

  lemma RequestServed(s: Vm, f: nat, owner: Option<EntryRef>)
    requires Runs(s) && Simple(s.cm) && Serves(s.cm, s.victim, f) && GetPages(s, 1, owner).Some?
    ensures Served(s, f, Cm(true, 1, false, owner), GetPages(s, 1, owner).value.0)
    ensures NoneFree(s.cm, 1) <==> s.cm[f].used
  {
    ServedAt(s.cm, s.victim, f);
    RequestEffect(s, 1, owner);
    assert !s.cm[f].lock;
  }

  lemma Touch(s: Vm, i: nat, f: nat)
    requires Runs(s) && Simple(s.cm) && Serves(s.cm, s.victim, f) && i < 3 && NotThere(s.cm, i)
    ensures var ev := Trap(FaultRead, TextAt(i));
            && Step(s, ev).Some? && Runs(Step(s, ev).value) && Served(s, f, Mine(i), Step(s, ev).value)
            && (Evicts(s, ev) <==> s.cm[f].used)
  {
    var ev := Trap(FaultRead, TextAt(i));
    TouchHappens(s, i, f);
    StepSound(s, ev);
    var owner := StepRequests(s, ev);
    RequestServed(s, f, owner);
    StepLayout(s, ev, 0);
    TouchStays(s, i);
  }

  lemma TouchStays(s: Vm, i: nat)
    requires Runs(s) && i < 3 && Step(s, Trap(FaultRead, TextAt(i))).Some?
    ensures Step(s, Trap(FaultRead, TextAt(i))).value.cur == User(0)
  {
    TextEntry(s.spaces[0], i);
    var e, ty, u := FaultParts(s, FaultRead, TextAt(i));
  }

  lemma KernelTake(s: Vm, f: nat)
    requires Runs(s) && Simple(s.cm) && Serves(s.cm, s.victim, f)
    ensures var ev := KernelAlloc(1);
            && Step(s, ev).Some? && Runs(Step(s, ev).value) && Served(s, f, BootCm, Step(s, ev).value)
            && (Evicts(s, ev) <==> s.cm[f].used)
  {
    OnePageServed(s, f, None);
    RequestServed(s, f, None);
    StepSound(s, KernelAlloc(1));
    StepLayout(s, KernelAlloc(1), 0);
  }

  lemma KernelGive(s: Vm, f: nat)
    requires Runs(s) && s.boot <= f < |s.cm| && s.cm[f] == BootCm
    ensures var ev := KernelFree(f);
            && Step(s, ev).Some? && Runs(Step(s, ev).value) && !Evicts(s, ev)
            && Step(s, ev).value.boot == s.boot && Step(s, ev).value.cm == s.cm[f := FreeCm]
            && Step(s, ev).value.victim == s.victim
  {
    StepSound(s, KernelFree(f));
    StepLayout(s, KernelFree(f), 0);
  }

  // ---------------------------------------------------------------------- the runs

  /** The coremap, the hand, and the choices made so far. */
  datatype Snap = Snap(cm: seq<Cm>, victim: nat, cms: seq<seq<Cm>>, cs: seq<nat>)

  /** A run so far: the program runs, and the coremap, hand and choices are these. */
  ghost predicate After(s0: Vm, evs: seq<Event>, k: Snap) {
    && Inv(s0) && Run(s0, evs).Some? && Hands(s0, evs) == (k.cms, k.cs)
    && (var s := Run(s0, evs).value; Runs(s) && s.boot == 1 && s.cm == k.cm && s.victim == k.victim)
  }

  /** One event more. */
  lemma OneMore(s0: Vm, evs: seq<Event>, ev: Event, t: Vm)
    requires Inv(s0) && Run(s0, evs).Some? && Step(Run(s0, evs).value, ev) == Some(t)
    ensures Run(s0, evs + [ev]) == Some(t)
    ensures var (cms, cs) := Hands(s0, evs);
            Hands(s0, evs + [ev]) ==
              if Evicts(Run(s0, evs).value, ev) then (cms + [Run(s0, evs).value.cm], cs + [t.victim]) else (cms, cs)
  {
    var all := evs + [ev];
    assert all[..|all| - 1] == evs && all[|all| - 1] == ev;
  }

  ghost predicate CanServe(k: Snap, f: nat) {
    Simple(k.cm) && k.victim < |k.cm| && Serves(k.cm, k.victim, f)
  }

  /** A request served at frame f, which is a choice if the frame was in use. */
  function Record(k: Snap, f: nat, c: Cm): Snap
    requires f < |k.cm|
  {
    if k.cm[f].used then Snap(k.cm[f := c], f, k.cms + [k.cm], k.cs + [f]) else k.(cm := k.cm[f := c])
  }

  lemma ThenTouch(s0: Vm, evs: seq<Event>, k: Snap, i: nat, f: nat) returns (evs': seq<Event>)
    requires After(s0, evs, k) && CanServe(k, f) && i < 3 && NotThere(k.cm, i)
    ensures evs' == evs + [Trap(FaultRead, TextAt(i))] && After(s0, evs', Record(k, f, Mine(i)))
  {
    var s, ev := Run(s0, evs).value, Trap(FaultRead, TextAt(i));
    Touch(s, i, f);
    OneMore(s0, evs, ev, Step(s, ev).value);
    evs' := evs + [ev];
  }

  lemma ThenTake(s0: Vm, evs: seq<Event>, k: Snap, f: nat) returns (evs': seq<Event>)
    requires After(s0, evs, k) && CanServe(k, f)
    ensures evs' == evs + [KernelAlloc(1)] && After(s0, evs', Record(k, f, BootCm))
  {
    var s := Run(s0, evs).value;
    KernelTake(s, f);
    OneMore(s0, evs, KernelAlloc(1), Step(s, KernelAlloc(1)).value);
    evs' := evs + [KernelAlloc(1)];
  }

  lemma ThenGive(s0: Vm, evs: seq<Event>, k: Snap, f: nat) returns (evs': seq<Event>)
    requires After(s0, evs, k) && 1 <= f < |k.cm| && k.cm[f] == BootCm
    ensures evs' == evs + [KernelFree(f)] && After(s0, evs', k.(cm := k.cm[f := FreeCm]))
  {
    var s := Run(s0, evs).value;
    KernelGive(s, f);
    OneMore(s0, evs, KernelFree(f), Step(s, KernelFree(f)).value);
    evs' := evs + [KernelFree(f)];
  }

  /** The program is started. */
  const START := [Create(0, TEXT, DATA, []), Activate(0)]

  lemma Started(s0: Vm)
    requires BootState(s0) && s0.boot == 1
    ensures After(s0, START, Snap(s0.cm, 0, [], [0]))
  {
    BootInv(s0);
    ProgramLoads();
    var create := Create(0, TEXT, DATA, []);
    assert Run(s0, []) == Some(s0);
    var s1 := Step(s0, create).value;
    OneMore(s0, [], create, s1);
    assert [] + [create] == [create];
    var s2 := Step(s1, Activate(0)).value;
    OneMore(s0, [create], Activate(0), s2);
    assert [create] + [Activate(0)] == START;
  }

  // ---------------------------------------------------------- a frame chosen twice

  /** A memory of three frames, the first the kernel's. */
  function Three(a: Cm, b: Cm): (r: seq<Cm>)
    ensures |r| == 3 && r[0] == BootCm && r[1] == a && r[2] == b
  {
    [BootCm, a, b]
  }

  /** A frame that is free, the kernel's, or the program's. */
  predicate Plain(c: Cm) { c == FreeCm || c == BootCm || c == Mine(0) || c == Mine(1) || c == Mine(2) }

  /** Which frame a request gets on it: the first free one; else, the hand going round, the
      next that is the program's. */
  lemma ThreeServes(a: Cm, b: Cm, victim: nat)
    requires Plain(a) && Plain(b) && victim < 3
    ensures Simple(Three(a, b))
    ensures !a.used ==> Serves(Three(a, b), victim, 1)
    ensures a.used && !b.used ==> Serves(Three(a, b), victim, 2)
    ensures a.used && b.used && a.owner.Some? && victim != 1 ==> Serves(Three(a, b), victim, 1)
    ensures a.used && b.used && b.owner.Some? && (victim == 1 || a.owner.None?) ==> Serves(Three(a, b), victim, 2)
  {
    var cm := Three(a, b);
    assert Around(3, victim, 1) == (if victim == 2 then 0 else victim + 1);
    assert NextVictim(cm, victim, 1) ==
           if Eligible(cm[Around(3, victim, 1)]) then Some(Around(3, victim, 1)) else NextVictim(cm, victim, 2);
    assert NextVictim(cm, victim, 2) ==
           if Eligible(cm[Around(3, victim, 2)]) then Some(Around(3, victim, 2)) else NextVictim(cm, victim, 3);
  }

  function SnapOf(a: Cm, b: Cm, victim: nat, cms: seq<seq<Cm>>, cs: seq<nat>): Snap {
    Snap(Three(a, b), victim, cms, cs)
  }

  lemma RecordFirst(a: Cm, b: Cm, victim: nat, cms: seq<seq<Cm>>, cs: seq<nat>, c: Cm)
    ensures Record(SnapOf(a, b, victim, cms, cs), 1, c) ==
              if a.used then SnapOf(c, b, 1, cms + [Three(a, b)], cs + [1]) else SnapOf(c, b, victim, cms, cs)
  {
    assert Three(a, b)[1 := c] == Three(c, b);
  }

  lemma RecordSecond(a: Cm, b: Cm, victim: nat, cms: seq<seq<Cm>>, cs: seq<nat>, c: Cm)
    ensures Record(SnapOf(a, b, victim, cms, cs), 2, c) ==
              if b.used then SnapOf(a, c, 2, cms + [Three(a, b)], cs + [2]) else SnapOf(a, c, victim, cms, cs)
  {
    assert Three(a, b)[2 := c] == Three(a, c);
  }

  /** Pages 0 and 1 come in, and the kernel takes frame 1. */
  lemma RunFirst(s0: Vm) returns (evs: seq<Event>)
    requires BootState(s0) && s0.boot == 1 && |s0.cm| == 3
    ensures After(s0, evs, SnapOf(BootCm, Mine(1), 1, [] + [Three(Mine(0), Mine(1))], [0] + [1]))
  {
    Started(s0);
    assert s0.cm == Three(FreeCm, FreeCm);
    ThreeServes(FreeCm, FreeCm, 0);
    evs := ThenTouch(s0, START, SnapOf(FreeCm, FreeCm, 0, [], [0]), 0, 1);
    RecordFirst(FreeCm, FreeCm, 0, [], [0], Mine(0));
    evs := FirstFilled(s0, evs);
  }

  lemma FirstFilled(s0: Vm, evs0: seq<Event>) returns (evs: seq<Event>)
    requires After(s0, evs0, SnapOf(Mine(0), FreeCm, 0, [], [0]))
    ensures After(s0, evs, SnapOf(BootCm, Mine(1), 1, [] + [Three(Mine(0), Mine(1))], [0] + [1]))
  {
    ThreeServes(Mine(0), FreeCm, 0);
    evs := ThenTouch(s0, evs0, SnapOf(Mine(0), FreeCm, 0, [], [0]), 1, 2);
    RecordSecond(Mine(0), FreeCm, 0, [], [0], Mine(1));
    ThreeServes(Mine(0), Mine(1), 0);
    evs := ThenTake(s0, evs, SnapOf(Mine(0), Mine(1), 0, [], [0]), 1);
    RecordFirst(Mine(0), Mine(1), 0, [], [0], BootCm);
  }

  /** Frame 2 is the victim twice, frame 1 being the kernel's. */
  lemma RunSecond(s0: Vm, evs0: seq<Event>, cms: seq<seq<Cm>>, cs: seq<nat>) returns (evs: seq<Event>)
    requires After(s0, evs0, SnapOf(BootCm, Mine(1), 1, cms, cs))
    ensures After(s0, evs, SnapOf(BootCm, Mine(0), 2, cms + [Three(BootCm, Mine(1))] + [Three(BootCm, Mine(2))],
                                  cs + [2] + [2]))
  {
    ThreeServes(BootCm, Mine(1), 1);
    evs := ThenTouch(s0, evs0, SnapOf(BootCm, Mine(1), 1, cms, cs), 2, 2);
    RecordSecond(BootCm, Mine(1), 1, cms, cs, Mine(2));
    var cms1, cs1 := cms + [Three(BootCm, Mine(1))], cs + [2];
    ThreeServes(BootCm, Mine(2), 2);
    evs := ThenTouch(s0, evs, SnapOf(BootCm, Mine(2), 2, cms1, cs1), 0, 2);
    RecordSecond(BootCm, Mine(2), 2, cms1, cs1, Mine(0));
  }

  /** The kernel frees frame 1, page 1 comes in there, and it is the victim again. */
  lemma RunThird(s0: Vm, evs0: seq<Event>, cms: seq<seq<Cm>>, cs: seq<nat>) returns (evs: seq<Event>)
    requires After(s0, evs0, SnapOf(BootCm, Mine(0), 2, cms, cs))
    ensures After(s0, evs, SnapOf(Mine(2), Mine(0), 1, cms + [Three(Mine(1), Mine(0))], cs + [1]))
  {
    evs := ThenGive(s0, evs0, SnapOf(BootCm, Mine(0), 2, cms, cs), 1);
    assert Three(BootCm, Mine(0))[1 := FreeCm] == Three(FreeCm, Mine(0));
    ThreeServes(FreeCm, Mine(0), 2);
    evs := ThenTouch(s0, evs, SnapOf(FreeCm, Mine(0), 2, cms, cs), 1, 1);
    RecordFirst(FreeCm, Mine(0), 2, cms, cs, Mine(1));
    ThreeServes(Mine(1), Mine(0), 2);
    evs := ThenTouch(s0, evs, SnapOf(Mine(1), Mine(0), 2, cms, cs), 2, 1);
    RecordFirst(Mine(1), Mine(0), 2, cms, cs, Mine(2));
  }

  /** The maps and the choices of that run. */
  const MAPS := [Three(Mine(0), Mine(1)), Three(BootCm, Mine(1)), Three(BootCm, Mine(2)), Three(Mine(1), Mine(0))]
  const CHOICES: seq<nat> := [0, 1, 2, 2, 1]

  lemma ChoicesCounted()
    ensures BetweenChoices(MAPS, CHOICES, 1, 4, 1, 2) && Times(CHOICES[1..5], 2, 3) == 2
  {
    var cms, cs := MAPS[1..4], CHOICES[1..5];
    assert cms == [Three(BootCm, Mine(1)), Three(BootCm, Mine(2)), Three(Mine(1), Mine(0))] && cs == [1, 2, 2, 1];
    assert Times(cs, 2, 1) == 1;
    assert Times(cs, 2, 2) == 2;
  }

  lemma MapsAre()
    ensures [] + [Three(Mine(0), Mine(1))] + [Three(BootCm, Mine(1))] + [Three(BootCm, Mine(2))] +
            [Three(Mine(1), Mine(0))] == MAPS
    ensures [0] + [1] + [2] + [2] + [1] == CHOICES
  {
  }

  lemma TwiceRun(s0: Vm) returns (evs: seq<Event>)
    requires BootState(s0) && s0.boot == 1 && |s0.cm| == 3
    ensures After(s0, evs, SnapOf(Mine(2), Mine(0), 1, MAPS, CHOICES))
  {
    evs := RunFirst(s0);
    evs := RunOn(s0, evs, [] + [Three(Mine(0), Mine(1))], [0] + [1]);
    MapsAre();
  }

  lemma RunOn(s0: Vm, evs0: seq<Event>, cms: seq<seq<Cm>>, cs: seq<nat>) returns (evs: seq<Event>)
    requires After(s0, evs0, SnapOf(BootCm, Mine(1), 1, cms, cs))
    ensures After(s0, evs,
                  SnapOf(Mine(2), Mine(0), 1,
                         cms + [Three(BootCm, Mine(1))] + [Three(BootCm, Mine(2))] + [Three(Mine(1), Mine(0))],
                         cs + [2] + [2] + [1]))
  {
    evs := RunSecond(s0, evs0, cms, cs);
    evs := RunThird(s0, evs, cms + [Three(BootCm, Mine(1))] + [Three(BootCm, Mine(2))], cs + [2] + [2]);
  }

  /** On every machine with two frames besides the kernel's: a run from boot in which frame
      1 is chosen, then frame 2, eligible throughout, twice, and then frame 1 again. In
      between frame 1 is the kernel's, and the hand passes it. */
  lemma ChosenTwiceInRun(s0: Vm) returns (evs: seq<Event>)
    requires BootState(s0) && s0.boot == 1 && |s0.cm| == 3
    ensures Inv(s0) && Run(s0, evs).Some? && Hands(s0, evs) == (MAPS, CHOICES)
    ensures BetweenChoices(MAPS, CHOICES, 1, 4, 1, 2) && Times(CHOICES[1..5], 2, 3) == 2
  {
    evs := TwiceRun(s0);
    ChoicesCounted();
  }

  // --------------------------------------------------------------- a frame to be lost

  lemma TwoServe(c: Cm)
    requires c == FreeCm || c == Mine(0)
    ensures Simple([BootCm, c]) && Serves([BootCm, c], 0, 1) && (c == FreeCm ==> NotThere([BootCm, c], 0))
  {
    assert c == Mine(0) ==> NextVictim([BootCm, c], 0, 1) == Some(1);
  }

  lemma TouchOnly(s0: Vm) returns (evs: seq<Event>)
    requires BootState(s0) && s0.boot == 1 && |s0.cm| == 2
    ensures After(s0, evs, Snap([BootCm, Mine(0)], 0, [], [0])) && KernelAlloc(0) !in evs
  {
    Started(s0);
    TwoServe(FreeCm);
    assert s0.cm == [BootCm, FreeCm];
    evs := ThenTouch(s0, START, Snap([BootCm, FreeCm], 0, [], [0]), 0, 1);
    assert [BootCm, FreeCm][1 := Mine(0)] == [BootCm, Mine(0)];
  }

  /** A machine with one frame besides the kernel's, once the program has touched a page:
      no frame is free, and a page can be had from an eviction. */
  lemma OneFrameTaken(s0: Vm) returns (evs: seq<Event>, s: Vm)
    requires BootState(s0) && s0.boot == 1 && |s0.cm| == 2
    ensures Inv(s0) && Run(s0, evs) == Some(s) && KernelAlloc(0) !in evs
    ensures Inv(s) && s.cm == [BootCm, Mine(0)] && FindFree(s.cm, 1) == Some(-1) && GetPages(s, 1, None).Some?
  {
    evs := TouchOnly(s0);
    s := Run(s0, evs).value;
    TwoServe(Mine(0));
    ServedAt(s.cm, 0, 1);
    OnePageServed(s, 1, None);
  }
}
