/** The kernel heap on top of the coremap. The pages of the heap and of its callers are runs
    of frames that alloc_kpages took from the coremap, so what the heap must assume of them
    is proved from what the coremap promises, over every interleaving of the heap's locked
    sections, page calls, page faults, evictions and other users of kernel pages.

    Source: kern/vm/kmalloc.c, and alloc_kpages and free_kpages of kern/vm/vm.c. */
module HeapOverVm {
  import opened Common
  import opened Coremap
  import opened VmState
  import opened VmInvariant
  import opened VmSteps
  import opened VmDestroy
  import opened VmHistory
  import R = VmRuns
  import T = VmTheorems
  import VmWitness
  import C = HeapCallers
  import H = HeapState
  import HR = HeapRuns
  import HH = HeapHistory

  // ------------------------------------------------- the page requests that wrap to nothing

  /** Where one page would come from an eviction, so does a request for no pages. */
  lemma ZeroRequestEvicts(s: Vm)
    requires Inv(s) && FindFree(s.cm, 1) == Some(-1)
    ensures FindFree(s.cm, 0) == Some(-1)
    ensures GetPages(s, 0, None).Some? <==> GetPages(s, 1, None).Some?
  {
    FindFreeIs(s.cm, 1);
    FindFreeIs(s.cm, 0);
  }

  /** kmalloc asks for no pages for the last 4095 sizes; if that is served, the frames in
      use are a tiling no more, and until a frame is freed every further page request,
      memory being full, is a scan that never ends. */
  lemma WrappedRequestLosesFrame(s: Vm, sz: int, n: nat, owner: Option<EntryRef>)
    requires Inv(s) && 0 <= sz < WORD && sz + PAGE_SIZE - 1 >= WORD
    requires R.Step(s, R.KernelAlloc(HR.Npages(sz))).Some?
    ensures var t := R.Step(s, R.KernelAlloc(HR.Npages(sz))).value;
            && !Tiled(t.cm)
            && ((forall f :: 0 <= f < |s.cm| ==> s.cm[f].used) ==>
                  !ScanEnds(t.cm, n) && Shape(t) && GetPages(t, n, owner).None?)
  {
    HR.PagesHoldRequestIff(sz);
    var t := R.Step(s, R.KernelAlloc(0)).value;
    ServedLoses(s, t);
    if forall f :: 0 <= f < |s.cm| ==> s.cm[f].used { StuckForGood(t, n, owner); }
  }

  lemma AllocSteps(s: Vm, n: nat)
    requires Shape(s) && GetPages(s, n, None).Some?
    ensures R.Step(s, R.KernelAlloc(n)) == Some(GetPages(s, n, None).value.0)
  {
  }

  lemma ServedLoses(s: Vm, t: Vm)
    requires Inv(s) && R.Step(s, R.KernelAlloc(0)) == Some(t)
    ensures Shape(t) && Laid(t.cm) && !Tiled(t.cm)
    ensures (forall f :: 0 <= f < |s.cm| ==> s.cm[f].used) ==> forall f :: 0 <= f < |t.cm| ==> t.cm[f].used
  {
    R.StepSound(s, R.KernelAlloc(0));
    StepLoses(s, R.KernelAlloc(0));
    TiledIffNoneLost(t.cm);
    if forall f :: 0 <= f < |s.cm| ==> s.cm[f].used {
      forall f | 0 <= f < |t.cm| ensures t.cm[f].used { RequestFreesNone(s, 0, None, f); }
    }
  }

  /** In a full memory with a lost frame no page request ends. */
  lemma StuckForGood(t: Vm, n: nat, owner: Option<EntryRef>)
    requires Shape(t) && Laid(t.cm) && !Tiled(t.cm) && forall f :: 0 <= f < |t.cm| ==> t.cm[f].used
    ensures !ScanEnds(t.cm, n) && GetPages(t, n, owner).None?
  {
    FullScanStuck(t.cm, n);
  }

  /** A request takes frames and frees none. */
  lemma RequestFreesNone(s: Vm, n: nat, owner: Option<EntryRef>, f: nat)
    requires Shape(s) && GetPages(s, n, owner).Some? && f < |s.cm| && s.cm[f].used
    ensures GetPages(s, n, owner).value.0.cm[f].used
  {
    RequestEffect(s, n, owner);
  }

  lemma FoundIsFree(cm: seq<Cm>, n: nat)
    ensures var r := FirstFree(cm, n, 0); r.Some? ==> r.value < |cm| && !cm[r.value].used
  {
  }

  /** In a full memory with a lost frame no scan ends. */
  lemma FullScanStuck(cm: seq<Cm>, n: nat)
    requires Laid(cm) && !Tiled(cm) && forall f :: 0 <= f < |cm| ==> cm[f].used
    ensures !ScanEnds(cm, n) && FindFree(cm, n).None?
  {
    FindFreeIs(cm, n);
    ScanEndsIff(cm, n);
    FoundIsFree(cm, n);
  }

  /** A run from boot that ends with the page request of kmalloc(0xffff_ffff), on every
      machine with one frame besides the kernel's: it is served, the frames in use are a
      tiling no more, and no page request after it ends. */
  lemma LargestRequestLosesFrame(s0: Vm) returns (evs: seq<R.Event>)
    requires R.BootState(s0) && s0.boot == 1 && |s0.cm| == 2
    ensures Inv(s0) && R.Run(s0, evs).Some? && Shape(R.Run(s0, evs).value)
    ensures evs != [] && evs[|evs| - 1] == R.KernelAlloc(HR.Npages(0xffff_ffff)) &&
            R.KernelAlloc(0) !in evs[..|evs| - 1]
    ensures !Tiled(R.Run(s0, evs).value.cm)
    ensures forall n, owner :: GetPages(R.Run(s0, evs).value, n, owner).None?
  {
    var s;
    evs, s := VmWitness.OneFrameTaken(s0);
    var t := LargestServed(s);
    VmWitness.OneMore(s0, evs, R.KernelAlloc(HR.Npages(0xffff_ffff)), t);
    assert (evs + [R.KernelAlloc(HR.Npages(0xffff_ffff))])[..|evs|] == evs;
    evs := evs + [R.KernelAlloc(HR.Npages(0xffff_ffff))];
  }

  /** That request, where memory is full and one page could be had by an eviction. */
  lemma LargestServed(s: Vm) returns (t: Vm)
    requires Inv(s) && FindFree(s.cm, 1) == Some(-1) && GetPages(s, 1, None).Some?
    requires forall f :: 0 <= f < |s.cm| ==> s.cm[f].used
    ensures R.Step(s, R.KernelAlloc(HR.Npages(0xffff_ffff))) == Some(t) && Shape(t) && !Tiled(t.cm)
    ensures forall n, owner :: GetPages(t, n, owner).None?
  {
    HR.PagesHoldRequestIff(0xffff_ffff);
    ZeroRequestEvicts(s);
    t := GetPages(s, 0, None).value.0;
    AllocSteps(s, 0);
    ServedLoses(s, t);
    forall n, owner ensures GetPages(t, n, owner).None? { StuckForGood(t, n, owner); }
  }

  // ------------------------------------------------------------ heap pages are kernel runs

  const KSEG0 := 0x8000_0000

  /** PADDR_TO_KVADDR of a frame's address. */
  function Kva(f: nat): int { KSEG0 + f * PAGE_SIZE }

  /** Frame f heads a run of n frames that alloc_kpages took and nobody freed. */
  predicate KernelRunAt(s: Vm, f: nat, n: nat) { s.boot <= f < |s.cm| && n > 0 && s.cm[f] == Cm(true, n, false, None) }

  /** The n pages at address p are such a run. */
  ghost predicate BackedBy(s: Vm, p: int, n: nat, f: nat) { p == Kva(f) && KernelRunAt(s, f, n) }

  ghost predicate PageBacked(s: Vm, p: int, n: nat) { exists f: nat :: BackedBy(s, p, n, f) }

  /** Every one of these pages is: the heap's, and those its callers hold. */
  ghost predicate Coupled(pages: map<int, nat>, s: Vm) { forall p :: p in pages ==> PageBacked(s, p, pages[p]) }

  lemma FramesApart(f: nat, n: nat, g: nat, m: nat)
    requires f + n <= g
    ensures Kva(f) + n * PAGE_SIZE <= Kva(g)
  {
  }

  /** Two runs with different heads lie apart. */
  lemma RunsApart(s: Vm, f: nat, n: nat, g: nat, m: nat)
    requires Laid(s.cm) && KernelRunAt(s, f, n) && KernelRunAt(s, g, m) && f != g
    ensures H.Apart(Kva(f), n, Kva(g), m) && Kva(f) != Kva(g)
  {
    if f < g {
      assert !Covers(s.cm, f, g);
      FramesApart(f, n, g, m);
    } else {
      assert !Covers(s.cm, g, f);
      FramesApart(g, m, f, n);
    }
  }

  /** A page request leaves the kernel's runs alone. */
  lemma RequestKeepsRun(s: Vm, n: nat, owner: Option<EntryRef>, g: nat, m: nat)
    requires Inv(s) && GetPages(s, n, owner).Some? && KernelRunAt(s, g, m)
    ensures KernelRunAt(GetPages(s, n, owner).value.0, g, m) && GetPages(s, n, owner).value.1 != g
  {
    FindFreeIs(s.cm, n);
    RequestEffect(s, n, owner);
  }

  /** What alloc_kpages returns is what the heap assumes: pages apart from all given out. */
  lemma FreshPagesAreNew(pages: map<int, nat>, s: Vm, n: nat)
    requires Inv(s) && Coupled(pages, s) && n > 0 && GetPages(s, n, None).Some?
    ensures var (t, f) := GetPages(s, n, None).value;
            Inv(t) && KernelRunAt(t, f, n) && C.Fresh(pages, Kva(f), n) && Coupled(pages, t)
  {
    var (t, f) := GetPages(s, n, None).value;
    GetPagesSound(s, n, None);
    forall p | p in pages ensures PageBacked(t, p, pages[p]) && H.Apart(Kva(f), n, p, pages[p]) && p != Kva(f) {
      var g: nat :| BackedBy(s, p, pages[p], g);
      RequestKeepsRun(s, n, None, g, pages[p]);
      assert BackedBy(t, p, pages[p], g);
      RunsApart(t, f, n, g, pages[p]);
    }
  }

  /** Freeing one of these runs meets the coremap's assertions and leaves the others. */
  lemma FreeKeepsRuns(pages: map<int, nat>, s: Vm, p: int, f: nat)
    requires Inv(s) && Coupled(pages, s) && p in pages && BackedBy(s, p, pages[p], f)
    ensures var t := R.Step(s, R.KernelFree(f)); t.Some? && Inv(t.value) && Coupled(pages - {p}, t.value)
  {
    R.StepSound(s, R.KernelFree(f));
    var t := R.Step(s, R.KernelFree(f)).value;
    forall q | q in pages && q != p ensures PageBacked(t, q, pages[q]) {
      var g: nat :| BackedBy(s, q, pages[q], g);
      ReleaseKeepsRun(s, f, g, pages[q]);
      assert BackedBy(t, q, pages[q], g);
    }
  }

  lemma ReleaseKeepsRun(s: Vm, f: nat, g: nat, m: nat)
    requires Laid(s.cm) && f < |s.cm| && KernelRunAt(s, g, m) && f != g
    ensures ReleaseRun(s.cm, f)[g] == s.cm[g]
  {
    if f < g { assert !Covers(s.cm, f, g); }
  }

  /** Nothing else that happens to the virtual memory system touches a kernel run, but its
      own free. */
  lemma VmKeepsRun(s: Vm, ev: R.Event, g: nat, m: nat)
    requires Inv(s) && R.Step(s, ev).Some? && KernelRunAt(s, g, m) && ev != R.KernelFree(g)
    ensures KernelRunAt(R.Step(s, ev).value, g, m)
  {
    match ev {
      case Trap(_, _) => RequestStepKeepsRun(s, ev, g, m);
      case KernelAlloc(_) => RequestStepKeepsRun(s, ev, g, m);
      case KernelFree(f) => ReleaseKeepsRun(s, f, g, m);
      case Reap(id) => DestroyGivesBack(s, id);
      case _ =>
    }
  }

  lemma RequestStepKeepsRun(s: Vm, ev: R.Event, g: nat, m: nat)
    requires Inv(s) && (ev.Trap? || ev.KernelAlloc?) && R.Step(s, ev).Some? && KernelRunAt(s, g, m)
    ensures KernelRunAt(R.Step(s, ev).value, g, m)
  {
    var owner := StepRequests(s, ev);
    if Asks(s, ev).Some? { RequestKeepsRun(s, Asks(s, ev).value, owner, g, m); }
  }

  // --------------------------------------------------------------------- joint steps

  datatype Joint = Joint(callers: C.State, vm: Vm)

  /** A step of the heap's callers, page calls included; or any other step of the virtual
      memory system, which frees no page of theirs. */
  datatype JointEvent = OfHeap(h: C.Event) | OfVm(v: R.Event)

  /** alloc_kpages(n) returns p. */
  ghost predicate Gives(s: Vm, n: nat, p: int, t: Vm) { exists f: nat :: Given(s, n, p, t, f) }

  ghost predicate Given(s: Vm, n: nat, p: int, t: Vm, f: nat) {
    Shape(s) && GetPages(s, n, None) == Some((t, f)) && p == Kva(f)
  }

  /** free_kpages(p), whether or not its assertions hold. */
  ghost predicate TakesBack(s: Vm, p: int, t: Vm) { exists f: nat :: TakenBack(s, p, t, f) }

  ghost predicate TakenBack(s: Vm, p: int, t: Vm, f: nat) {
    p == Kva(f) && f < |s.cm| && t == s.(cm := ReleaseRun(s.cm, f))
  }

  /** The page calls go to the coremap and nothing is assumed of what they give; the locked
      sections do not touch it. */
  ghost predicate HeapStep(j: Joint, ev: C.Event, j': Joint) {
    var c := j.callers;
    match ev
    case GetPages(p, n) => n > 0 && Gives(j.vm, n, p, j'.vm) && j'.callers == c.(spare := c.spare[p := n])
    case PutPages(p) => p in c.spare && TakesBack(j.vm, p, j'.vm) && j'.callers == c.(spare := c.spare - {p})
    case _ => C.Step(c, ev, j'.callers) && j'.vm == j.vm
  }

  ghost predicate JointStep(j: Joint, ev: JointEvent, j': Joint) {
    match ev
    case OfHeap(h) => HeapStep(j, h, j')
    case OfVm(v) =>
      && j'.callers == j.callers && Shape(j.vm) && R.Step(j.vm, v) == Some(j'.vm)
      && (v.KernelFree? ==> Kva(v.frame) !in C.AllPages(j.callers))
  }

  /** A page call returns exactly when the coremap serves it, no free of a page that a caller
      holds fails, and a locked section takes place exactly when the callers say it can. */
  lemma HeapStepIff(j: Joint, ev: C.Event)
    requires JointInv(j)
    ensures (exists j' :: HeapStep(j, ev, j')) <==>
              match ev
              case GetPages(p, n) =>
                n > 0 && GetPages(j.vm, n, None).Some? && p == Kva(GetPages(j.vm, n, None).value.1)
              case PutPages(p) => p in j.callers.spare
              case _ => HH.Can(j.callers, ev)
  {
    var c := j.callers;
    match ev {
      case GetPages(p, n) =>
        if n > 0 && GetPages(j.vm, n, None).Some? && p == Kva(GetPages(j.vm, n, None).value.1) {
          var (t, f) := GetPages(j.vm, n, None).value;
          assert Given(j.vm, n, p, t, f);
          assert HeapStep(j, ev, Joint(c.(spare := c.spare[p := n]), t));
        }
      case PutPages(p) => if p in c.spare { PutHappens(j, p); }
      case _ => SectionIff(j, ev);
    }
  }

  lemma PutHappens(j: Joint, p: int)
    requires Coupled(C.AllPages(j.callers), j.vm) && p in j.callers.spare
    ensures exists j' :: HeapStep(j, C.PutPages(p), j')
  {
    var s, c := j.vm, j.callers;
    assert p in C.AllPages(c);
    var f: nat :| BackedBy(s, p, C.AllPages(c)[p], f);
    var t := s.(cm := ReleaseRun(s.cm, f));
    assert TakenBack(s, p, t, f);
    assert HeapStep(j, C.PutPages(p), Joint(c.(spare := c.spare - {p}), t));
  }

  lemma SectionIff(j: Joint, ev: C.Event)
    requires C.Inv(j.callers) && !ev.GetPages? && !ev.PutPages?
    ensures (exists j' :: HeapStep(j, ev, j')) <==> HH.Can(j.callers, ev)
  {
    HH.HappensIff(j.callers, ev);
    if t :| C.Step(j.callers, ev, t) {
      assert HeapStep(j, ev, Joint(t, j.vm));
    }
  }

  ghost predicate JointInv(j: Joint) { C.Inv(j.callers) && Inv(j.vm) && Coupled(C.AllPages(j.callers), j.vm) }

  /** The virtual memory system's side of a heap step: nothing, or a page event. */
  ghost predicate VmSide(s: Vm, t: Vm) { t == s || exists ev :: PageEvent(s, ev, t) }

  ghost predicate PageEvent(s: Vm, ev: R.Event, t: Vm) {
    (ev.KernelAlloc? || ev.KernelFree?) && Shape(s) && R.Step(s, ev) == Some(t)
  }

  /** The pages given are fresh, and with them all are still runs of the coremap. */
  lemma GivenPages(pages: map<int, nat>, s: Vm, n: nat, p: int, t: Vm)
    requires Inv(s) && Coupled(pages, s) && n > 0 && Gives(s, n, p, t)
    ensures C.Fresh(pages, p, n) && Inv(t) && Coupled(pages[p := n], t) && VmSide(s, t)
  {
    var f: nat :| Given(s, n, p, t, f);
    FreshPagesAreNew(pages, s, n);
    assert BackedBy(t, p, n, f);
    AllocIsPageEvent(s, n, f, t);
  }

  lemma AllocIsPageEvent(s: Vm, n: nat, f: nat, t: Vm)
    requires Shape(s) && GetPages(s, n, None) == Some((t, f))
    ensures VmSide(s, t)
  {
    assert PageEvent(s, R.KernelAlloc(n), t);
  }

  lemma GivenBackPages(pages: map<int, nat>, s: Vm, p: int, t: Vm)
    requires Inv(s) && Coupled(pages, s) && p in pages && TakesBack(s, p, t)
    ensures Inv(t) && Coupled(pages - {p}, t) && VmSide(s, t)
  {
    var f: nat :| TakenBack(s, p, t, f);
    var g: nat :| BackedBy(s, p, pages[p], g);
    assert f == g;
    FreeKeepsRuns(pages, s, p, f);
    FreeIsPageEvent(s, f, t);
  }

  lemma FreeIsPageEvent(s: Vm, f: nat, t: Vm)
    requires Shape(s) && R.Step(s, R.KernelFree(f)).Some? && t == s.(cm := ReleaseRun(s.cm, f))
    ensures R.Step(s, R.KernelFree(f)) == Some(t) && VmSide(s, t)
  {
    assert PageEvent(s, R.KernelFree(f), t);
  }

  lemma GetStepKeeps(j: Joint, p: int, n: nat, j': Joint)
    requires JointInv(j) && HeapStep(j, C.GetPages(p, n), j')
    ensures C.Step(j.callers, C.GetPages(p, n), j'.callers) && Inv(j'.vm) && VmSide(j.vm, j'.vm)
    ensures Coupled(C.AllPages(j'.callers), j'.vm)
  {
    GivenPages(C.AllPages(j.callers), j.vm, n, p, j'.vm);
    C.SpareAdded(j.callers, p, n);
  }

  lemma PutStepKeeps(j: Joint, p: int, j': Joint)
    requires JointInv(j) && HeapStep(j, C.PutPages(p), j')
    ensures C.Step(j.callers, C.PutPages(p), j'.callers) && Inv(j'.vm) && VmSide(j.vm, j'.vm)
    ensures Coupled(C.AllPages(j'.callers), j'.vm)
  {
    GivenBackPages(C.AllPages(j.callers), j.vm, p, j'.vm);
    C.SpareRemoved(j.callers, p);
  }

  /** Every heap step over the coremap is a step of the callers alone: what that step assumes
      of its pages holds. The coupling and both invariants are kept. */
  lemma HeapStepKeeps(j: Joint, ev: C.Event, j': Joint)
    requires JointInv(j) && HeapStep(j, ev, j')
    ensures C.Step(j.callers, ev, j'.callers) && JointInv(j') && VmSide(j.vm, j'.vm)
  {
    if ev.GetPages? {
      GetStepKeeps(j, ev.p, ev.n, j');
    } else if ev.PutPages? {
      PutStepKeeps(j, ev.p, j');
    }
    C.StepKeepsInv(j.callers, ev, j'.callers);
  }

  lemma VmStepKeeps(j: Joint, ev: R.Event, j': Joint)
    requires JointInv(j) && JointStep(j, OfVm(ev), j')
    ensures JointInv(j')
  {
    var pages := C.AllPages(j.callers);
    R.StepSound(j.vm, ev);
    forall p | p in pages ensures PageBacked(j'.vm, p, pages[p]) {
      var f: nat :| BackedBy(j.vm, p, pages[p], f);
      VmKeepsRun(j.vm, ev, f, pages[p]);
      assert BackedBy(j'.vm, p, pages[p], f);
    }
  }

  // ---------------------------------------------------------------------- joint runs

  ghost predicate IsJointRun(js: seq<Joint>, evs: seq<JointEvent>) {
    && |js| == |evs| + 1 && js[0].callers == C.Boot() && R.BootState(js[0].vm)
    && forall k {:trigger StepAt(js, evs, k)} :: 0 <= k < |evs| ==> StepAt(js, evs, k)
  }

  ghost predicate StepAt(js: seq<Joint>, evs: seq<JointEvent>, k: int)
    requires 0 <= k < |evs| && |js| == |evs| + 1
  {
    JointStep(js[k], evs[k], js[k + 1])
  }

  lemma StillReached(s: Vm, ev: R.Event, t: Vm)
    requires T.Reached(s) && Shape(s) && R.Step(s, ev) == Some(t)
    ensures T.Reached(t)
  {
    var s0: Vm, evs: seq<R.Event> :| R.BootState(s0) && T.RunsTo(s0, evs, s);
    R.RunExtends(s0, evs, ev);
    assert T.RunsTo(s0, evs + [ev], t);
  }

  lemma BootReached(s: Vm)
    requires R.BootState(s)
    ensures Inv(s) && T.Reached(s)
  {
    R.BootInv(s);
    assert T.RunsTo(s, [], s);
  }

  lemma JointBoot(j: Joint)
    requires j.callers == C.Boot() && R.BootState(j.vm)
    ensures JointInv(j) && T.Reached(j.vm)
  {
    C.BootInv();
    BootReached(j.vm);
  }

  /** Over every run of heap and virtual memory together, page calls and the heap's locked
      sections being separate steps: both invariants hold, each page of the heap and of its
      callers is a kernel run of the coremap, and the virtual memory system is in a state it
      reaches by itself, so all that is proved of either holds of both together. */
  lemma {:induction false} JointRunsKeepInv(js: seq<Joint>, evs: seq<JointEvent>, k: nat)
    requires IsJointRun(js, evs) && k < |js|
    ensures JointInv(js[k]) && T.Reached(js[k].vm)
  {
    if k == 0 {
      JointBoot(js[0]);
    } else {
      JointRunsKeepInv(js, evs, k - 1);
      JointNext(js, evs, k);
    }
  }

  lemma JointNext(js: seq<Joint>, evs: seq<JointEvent>, k: nat)
    requires IsJointRun(js, evs) && 0 < k < |js| && JointInv(js[k - 1]) && T.Reached(js[k - 1].vm)
    ensures JointInv(js[k]) && T.Reached(js[k].vm)
  {
    assert StepAt(js, evs, k - 1);
    JointStepKeeps(js[k - 1], evs[k - 1], js[k]);
  }

  lemma JointStepKeeps(j: Joint, ev: JointEvent, j': Joint)
    requires JointInv(j) && T.Reached(j.vm) && JointStep(j, ev, j')
    ensures JointInv(j') && T.Reached(j'.vm)
  {
    match ev {
      case OfVm(v) => VmStepKeeps(j, v, j'); StillReached(j.vm, v, j'.vm);
      case OfHeap(h) => HeapStepKeeps(j, h, j'); SideReached(j.vm, j'.vm);
    }
  }

  lemma SideReached(s: Vm, t: Vm)
    requires T.Reached(s) && VmSide(s, t)
    ensures T.Reached(t)
  {
    if t != s {
      var ev :| PageEvent(s, ev, t);
      StillReached(s, ev, t);
    }
  }

  /** After any such run a live pointer has the bytes asked for and shares none with another. */
  lemma JointHeapSafety(js: seq<Joint>, evs: seq<JointEvent>, k: nat, a: int, c: int)
    requires IsJointRun(js, evs) && k < |js|
    requires a in js[k].callers.heap.live && c in js[k].callers.heap.live && a != c
    ensures var h := js[k].callers.heap;
            && (h.live[a].Block? ==> HR.IsBlock(h, a)) && (h.live[c].Block? ==> HR.IsBlock(h, c))
            && h.live[a].sz <= HR.Extent(h, a)
            && (a + HR.Extent(h, a) <= c || c + HR.Extent(h, c) <= a)
  {
    JointRunsKeepInv(js, evs, k);
    HR.SafetyOf(js[k].callers.heap, a, c);
  }

  /** No byte of the heap, nor of a page a caller holds, is in a frame that holds a page of
      a process. */
  lemma HeapApartFromProcesses(js: seq<Joint>, evs: seq<JointEvent>, k: nat, p: int, e: EntryRef)
    requires IsJointRun(js, evs) && k < |js| && p in C.AllPages(js[k].callers)
    requires HasEntry(js[k].vm, e) && Entry(js[k].vm, e).Resident()
    ensures H.Apart(p, C.AllPages(js[k].callers)[p], Kva(Entry(js[k].vm, e).frame), 1)
  {
    JointRunsKeepInv(js, evs, k);
    var s, n, g := js[k].vm, C.AllPages(js[k].callers)[p], Entry(js[k].vm, e).frame;
    var f: nat :| BackedBy(s, p, n, f);
    assert EntryNames(s, NO_FRAME, e);
    assert !Covers(s.cm, f, g);
    if f < g { FramesApart(f, n, g, 1); } else { FramesApart(g, 1, f, n); }
  }
}
