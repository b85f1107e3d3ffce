/** What whole runs keep besides the invariant: which frames a request for no pages has
    lost, what a TLB that outlives its space may still hold, which space that is, and how
    the victim's hand has moved. */
module VmHistory {
  import opened Common
  import opened AddressSpace
  import opened Coremap
  import opened VmState
  import opened VmInvariant
  import opened VmSteps
  import opened VmDestroy
  import opened VmRuns

  // ---------------------------------------------------------------- page requests

  /** How many pages an event asks the coremap for, if any. */
  function Asks(s: Vm, ev: Event): Option<nat>
    requires Shape(s)
  {
    match ev
    case KernelAlloc(n) => Some(n)
    case Trap(kind, va) =>
      if (kind == FaultRead || kind == FaultWrite) && s.cur.User? && Absent(s, s.cur.id, va) then Some(1) else None
    case _ => None
  }

  /** The address is in a segment and its page is not in memory. */
  predicate Absent(s: Vm, id: int, va: nat)
    requires Shape(s) && id in s.spaces
  {
    var sp := s.spaces[id];
    SegmentTypeOf(sp, va).Some? && !Entry(s, EntryRef(id, PtIndex(sp, va))).Resident()
  }

  /** What a request does to the coremap and to the hand: the run is recorded on free
      frames, or on the frame of the next victim, to which the hand moves. */
  lemma RequestEffect(s: Vm, n: nat, owner: Option<EntryRef>)
    requires Shape(s) && GetPages(s, n, owner).Some?
    ensures var (t, f) := GetPages(s, n, owner).value;
            && t.cm == AllocRun(s.cm, f, n, owner) && f < |s.cm|
            && (if FindFree(s.cm, n) == Some(f as int) then t.victim == s.victim
                else
                  && FindFree(s.cm, n).Some? && FindFree(s.cm, n).value < 0 && n <= 1
                  && NextVictim(s.cm, s.victim, 1) == Some(f) && t.victim == f
                  && s.cm[f].used && s.cm[f].size == 1)
  {
    if FindFree(s.cm, n).value < 0 { SwapoutEffect(s); }
  }

  lemma SwapoutEffect(s: Vm)
    requires Shape(s) && SwapoutOne(s).Some?
    ensures var (t, f) := SwapoutOne(s).value;
            && t.cm == s.cm && t.victim == f && NextVictim(s.cm, s.victim, 1) == Some(f)
            && s.cm[f].used && s.cm[f].size == 1
  {
    var f := NextVictim(s.cm, s.victim, 1).value;
    EvictKeepsMap(s.(victim := f), f);
  }

  lemma EvictKeepsMap(s: Vm, f: nat)
    requires Shape(s) && f < |s.cm| && Evict(s, f).Some?
    ensures Evict(s, f).value.cm == s.cm && Evict(s, f).value.victim == s.victim
  {
  }

  lemma LoadRequests(s: Vm, e: EntryRef, ty: SegmentType, va: nat)
    requires Shape(s) && HasEntry(s, e) && Within(SegmentOf(s.spaces[e.id], ty), va) && FaultLoad(s, e, ty, va).Some?
    ensures var g, u := GetPages(s, 1, Some(e)), FaultLoad(s, e, ty, va).value;
            g.Some? && u.cm == g.value.0.cm && u.victim == g.value.0.victim
  {
  }

  lemma SwapInRequests(s: Vm, e: EntryRef, ty: SegmentType)
    requires Shape(s) && HasEntry(s, e) && FaultSwapIn(s, e, ty).Some?
    ensures var g, u := GetPages(s, 1, Some(e)), FaultSwapIn(s, e, ty).value;
            g.Some? && u.cm == g.value.0.cm && u.victim == g.value.0.victim
  {
  }

  /** Bringing a page in makes one request, unless the page is there. */
  lemma ResidentRequests(s: Vm, e: EntryRef, ty: SegmentType, va: nat)
    requires Shape(s) && HasEntry(s, e) && Within(SegmentOf(s.spaces[e.id], ty), va) && MakeResident(s, e, ty, va).Some?
    ensures var g, u := GetPages(s, 1, Some(e)), MakeResident(s, e, ty, va).value;
            if Entry(s, e).Resident() then u == s
            else g.Some? && u.cm == g.value.0.cm && u.victim == g.value.0.victim
  {
    match Entry(s, e).status
    case NotLoaded => LoadRequests(s, e, ty, va);
    case InSwap => SwapInRequests(s, e, ty);
    case _ =>
  }

  /** What a fault does to the coremap is the one request it makes, if it makes one. */
  ghost predicate Requests(s: Vm, ev: Event, owner: Option<EntryRef>, t: Vm)
    requires Shape(s)
  {
    t.boot == s.boot &&
    if Asks(s, ev).None? then t.cm == s.cm && t.victim == s.victim
    else
      var g := GetPages(s, Asks(s, ev).value, owner);
      (owner.Some? ==> Asks(s, ev).value == 1) && g.Some? && t.cm == g.value.0.cm && t.victim == g.value.0.victim
  }

  /** The entry a request is made for; none for the kernel's. */
  function RequestOwner(s: Vm, ev: Event): Option<EntryRef>
    requires Shape(s) && Asks(s, ev).Some?
  {
    match ev
    case Trap(_, va) => Some(EntryRef(s.cur.id, PtIndex(s.spaces[s.cur.id], va)))
    case _ => None
  }

  lemma StepRequests(s: Vm, ev: Event) returns (owner: Option<EntryRef>)
    requires Inv(s) && (ev.Trap? || ev.KernelAlloc?) && Step(s, ev).Some?
    ensures Requests(s, ev, owner, Step(s, ev).value)
    ensures Asks(s, ev).Some? ==> owner == RequestOwner(s, ev)
  {
    owner := None;
    if ev.Trap? && Fault(s, ev.kind, ev.va).Handled? { owner := FaultRequests(s, ev.kind, ev.va); }
  }

  lemma AsksForOne(s: Vm, kind: FaultType, va: nat, e: EntryRef)
    requires Shape(s) && Fault(s, kind, va).Handled? && s.cur == User(e.id)
    requires SegmentTypeOf(s.spaces[e.id], va).Some? && e.idx == PtIndex(s.spaces[e.id], va)
    ensures Asks(s, Trap(kind, va)) == if Entry(s, e).Resident() then None else Some(1)
  {
  }

  lemma FaultRequests(s: Vm, kind: FaultType, va: nat) returns (owner: Option<EntryRef>)
    requires Inv(s) && Fault(s, kind, va).Handled?
    ensures Requests(s, Trap(kind, va), owner, Fault(s, kind, va).vm)
    ensures Asks(s, Trap(kind, va)).Some? ==> owner == RequestOwner(s, Trap(kind, va))
  {
    var e, ty, u := FaultParts(s, kind, va);
    ResidentRequests(s, e, ty, va);
    AsksForOne(s, kind, va, e);
    owner := Some(e);
  }

  // -------------------------------------------------------------------- lost frames

  /** A lost frame still has the owner whose page was evicted from it. */
  ghost predicate LostOwned(cm: seq<Cm>) { forall i :: Lost(cm, i) ==> cm[i].owner.Some? }

  /** A request for pages loses no frame and finds none again, unless it is for no pages:
      then it loses the frame it returns. */
  lemma RequestLoses(s: Vm, n: nat, owner: Option<EntryRef>)
    requires Inv(s) && (owner.Some? ==> n == 1) && GetPages(s, n, owner).Some?
    ensures var (t, f) := GetPages(s, n, owner).value;
            && (forall i :: Lost(t.cm, i) <==> Lost(s.cm, i) || (n == 0 && i == f))
            && (LostOwned(s.cm) ==> LostOwned(t.cm))
  {
    var f := GetPages(s, n, owner).value.1;
    RequestEffect(s, n, owner);
    FindFreeIs(s.cm, n);
    RunLoses(s.cm, f, n, owner);
  }

  lemma RunLoses(cm: seq<Cm>, f: nat, n: nat, owner: Option<EntryRef>)
    requires Laid(cm)
    requires FreeRange(cm, f, n) || (n <= 1 && f < |cm| && cm[f].used && cm[f].size == 1 && cm[f].owner.Some?)
    ensures var r := AllocRun(cm, f, n, owner);
            && (forall i :: Lost(r, i) <==> Lost(cm, i) || (n == 0 && i == f))
            && (LostOwned(cm) ==> LostOwned(r))
  {
    if FreeRange(cm, f, n) {
      AllocLaid(cm, f, n, owner);
    } else {
      ReuseLaid(cm, f, n, owner);
      assert Covers(cm, f, f);
    }
  }

  /** Only a request for no pages loses a frame, and a lost frame stays lost. */
  lemma StepLoses(s: Vm, ev: Event)
    requires Inv(s) && Step(s, ev).Some?
    ensures var t := Step(s, ev).value;
            && (ev != KernelAlloc(0) ==> SameLost(s.cm, t.cm))
            && (ev == KernelAlloc(0) ==> exists i :: Lost(t.cm, i))
            && (LostOwned(s.cm) ==> LostOwned(t.cm))
  {
    match ev {
      case Trap(_, _) => RequestStepLoses(s, ev);
      case KernelAlloc(_) => RequestStepLoses(s, ev);
      case KernelFree(f) => FreeLoses(s, f);
      case Reap(id) => ReapLoses(s, id);
      case _ => assert Step(s, ev).value.cm == s.cm;
    }
  }

  lemma FreeLoses(s: Vm, f: nat)
    requires Inv(s) && Step(s, KernelFree(f)).Some?
    ensures var t := Step(s, KernelFree(f)).value; SameLost(s.cm, t.cm) && (LostOwned(s.cm) ==> LostOwned(t.cm))
  {
    ReleaseLaid(s.cm, f);
  }

  lemma ReapLoses(s: Vm, id: int)
    requires Inv(s) && Step(s, Reap(id)).Some?
    ensures var t := Step(s, Reap(id)).value; SameLost(s.cm, t.cm) && (LostOwned(s.cm) ==> LostOwned(t.cm))
  {
    DestroyGivesBack(s, id);
  }

  lemma RequestStepLoses(s: Vm, ev: Event)
    requires Inv(s) && (ev.Trap? || ev.KernelAlloc?) && Step(s, ev).Some?
    ensures var t := Step(s, ev).value;
            && (ev != KernelAlloc(0) ==> SameLost(s.cm, t.cm))
            && (ev == KernelAlloc(0) ==> exists i :: Lost(t.cm, i))
            && (LostOwned(s.cm) ==> LostOwned(t.cm))
  {
    var owner := StepRequests(s, ev);
    if Asks(s, ev).Some? {
      RequestLoses(s, Asks(s, ev).value, owner);
      var (t, f) := GetPages(s, Asks(s, ev).value, owner).value;
      assert ev == KernelAlloc(0) ==> Lost(t.cm, f);
    }
  }

  // ------------------------------------------------------------- the TLB afterwards

  /** Once the space it was activated for is gone, the TLB holds no frame with a page of
      any process. */
  ghost predicate Stale(s: Vm) {
    s.mapped.KernelOnly? ==>
      forall i :: 0 <= i < |s.tlb| && s.tlb[i].valid && s.tlb[i].frame < |s.cm| ==> !Owned(s.cm[s.tlb[i].frame])
  }

  /** A request of the kernel gives no frame to a process. */
  lemma KernelTakes(s: Vm, n: nat, f: nat)
    requires Shape(s) && GetPages(s, n, None).Some? && f < |s.cm|
    ensures Owned(GetPages(s, n, None).value.0.cm[f]) ==> Owned(s.cm[f])
  {
    RequestEffect(s, n, None);
  }

  lemma StepStale(s: Vm, ev: Event)
    requires Inv(s) && Stale(s) && Step(s, ev).Some?
    ensures Stale(Step(s, ev).value)
  {
    var t := Step(s, ev).value;
    match ev {
      case KernelAlloc(n) =>
        forall f | 0 <= f < |s.cm| ensures Owned(t.cm[f]) ==> Owned(s.cm[f]) { KernelTakes(s, n, f); }
      case Reap(id) => ReapStale(s, id);
      case Trap(kind, va) =>
        if Fault(s, kind, va).Handled? { var e, ty, u := FaultParts(s, kind, va); }
      case _ =>
    }
  }

  lemma ReapStale(s: Vm, id: int)
    requires Inv(s) && Stale(s) && Step(s, Reap(id)).Some?
    ensures Stale(Step(s, Reap(id)).value)
  {
    var t := Step(s, Reap(id)).value;
    DestroyGivesBack(s, id);
    if s.mapped == User(id) {
      forall i | 0 <= i < |t.tlb| && t.tlb[i].valid && t.tlb[i].frame < |t.cm| ensures !Owned(t.cm[t.tlb[i].frame]) {
        assert SlotAgrees(s, NO_FRAME, s.tlb[i]);
        var e := EntryRef(id, PageIndex(s.spaces[id], s.tlb[i].vpage).value);
        assert EntryNames(s, NO_FRAME, e);
      }
    }
  }

  /** The space last activated, until it is destroyed. */
  function LastActivated(evs: seq<Event>): Running {
    if evs == [] then KernelOnly
    else
      var ev, before := evs[|evs| - 1], LastActivated(evs[..|evs| - 1]);
      match ev
      case Activate(id) => User(id)
      case Reap(id) => if before == User(id) then KernelOnly else before
      case _ => before
  }

  lemma StepMapped(s: Vm, ev: Event)
    requires Inv(s) && Step(s, ev).Some?
    ensures Step(s, ev).value.mapped ==
              match ev
              case Activate(id) => User(id)
              case Reap(id) => if s.mapped == User(id) then KernelOnly else s.mapped
              case _ => s.mapped
  {
    match ev {
      case Reap(id) => DestroyGivesBack(s, id);
      case Trap(kind, va) =>
        if Fault(s, kind, va).Handled? { var e, ty, u := FaultParts(s, kind, va); }
      case _ =>
    }
  }

  // -------------------------------------------------------------------- whole runs

  /** The last event of a run, and the state before it. */
  lemma RunSplit(s0: Vm, evs: seq<Event>) returns (m: Vm)
    requires Inv(s0) && evs != [] && Run(s0, evs).Some?
    ensures Run(s0, evs[..|evs| - 1]) == Some(m) && Inv(m) && Step(m, evs[|evs| - 1]) == Run(s0, evs)
  {
    m := Run(s0, evs[..|evs| - 1]).value;
  }

  lemma BootFacts(s0: Vm)
    requires BootState(s0)
    ensures Inv(s0) && Tiled(s0.cm) && LostOwned(s0.cm) && Stale(s0)
  {
    BootInv(s0);
    BootstrapTiled(|s0.cm|, s0.boot);
    TiledIffNoneLost(s0.cm);
  }

  lemma {:induction false} RunFacts(s0: Vm, evs: seq<Event>)
    requires BootState(s0) && Inv(s0) && Run(s0, evs).Some?
    ensures var s := Run(s0, evs).value; LostOwned(s.cm) && Stale(s) && s.mapped == LastActivated(evs)
  {
    BootFacts(s0);
    if evs != [] {
      var m := RunSplit(s0, evs);
      RunFacts(s0, evs[..|evs| - 1]);
      StepLoses(m, evs[|evs| - 1]);
      StepStale(m, evs[|evs| - 1]);
      StepMapped(m, evs[|evs| - 1]);
    }
  }

  /** The coremap is a tiling after a run if and only if nobody asked for no pages in it. */
  lemma {:induction false} TiledIffNoZeroRequest(s0: Vm, evs: seq<Event>)
    requires BootState(s0) && Inv(s0) && Run(s0, evs).Some?
    ensures Tiled(Run(s0, evs).value.cm) <==> KernelAlloc(0) !in evs
  {
    BootFacts(s0);
    if evs != [] {
      var m := RunSplit(s0, evs);
      var before, ev := evs[..|evs| - 1], evs[|evs| - 1];
      TiledIffNoZeroRequest(s0, before);
      StepTiledIff(m, ev);
      assert evs == before + [ev];
    }
  }

  lemma StepTiledIff(s: Vm, ev: Event)
    requires Inv(s) && Step(s, ev).Some?
    ensures Tiled(Step(s, ev).value.cm) <==> Tiled(s.cm) && ev != KernelAlloc(0)
  {
    var t := Step(s, ev).value;
    StepSound(s, ev);
    StepLoses(s, ev);
    TiledIffNoneLost(s.cm);
    TiledIffNoneLost(t.cm);
    if ev != KernelAlloc(0) && exists i :: Lost(s.cm, i) {
      var i :| Lost(s.cm, i);
      assert Lost(t.cm, i);
    }
  }

  // --------------------------------------------------------------- the victim's hand

  /** The scan ends without n free frames. */
  predicate NoneFree(cm: seq<Cm>, n: nat) { FindFree(cm, n).Some? && FindFree(cm, n).value < 0 }

  /** The event makes the coremap give up a frame. */
  predicate Evicts(s: Vm, ev: Event)
    requires Shape(s)
  {
    Asks(s, ev).Some? && NoneFree(s.cm, Asks(s, ev).value)
  }

  lemma RequestHand(s: Vm, n: nat, owner: Option<EntryRef>)
    requires Shape(s) && GetPages(s, n, owner).Some?
    ensures var t := GetPages(s, n, owner).value.0;
            && |t.cm| == |s.cm|
            && (if NoneFree(s.cm, n) then NextVictim(s.cm, s.victim, 1) == Some(t.victim) else t.victim == s.victim)
  {
    RequestEffect(s, n, owner);
  }

  lemma RequestStepHand(s: Vm, ev: Event)
    requires Inv(s) && (ev.Trap? || ev.KernelAlloc?) && Step(s, ev).Some?
    ensures var t := Step(s, ev).value;
            && |t.cm| == |s.cm|
            && (if Evicts(s, ev) then NextVictim(s.cm, s.victim, 1) == Some(t.victim) else t.victim == s.victim)
  {
    var owner := StepRequests(s, ev);
    if Asks(s, ev).Some? { RequestHand(s, Asks(s, ev).value, owner); }
  }

  /** The hand moves on an eviction, to the next victim, and at no other time. */
  lemma StepHand(s: Vm, ev: Event)
    requires Inv(s) && Step(s, ev).Some?
    ensures var t := Step(s, ev).value;
            && |t.cm| == |s.cm|
            && (if Evicts(s, ev) then NextVictim(s.cm, s.victim, 1) == Some(t.victim) else t.victim == s.victim)
  {
    match ev {
      case Trap(_, _) => RequestStepHand(s, ev);
      case KernelAlloc(_) => RequestStepHand(s, ev);
      case Reap(id) => DestroyGivesBack(s, id);
      case _ =>
    }
  }

  /** The maps in which victims were chosen in a run, and the choices. */
  ghost function Hands(s0: Vm, evs: seq<Event>): (r: (seq<seq<Cm>>, seq<nat>))
    requires Inv(s0) && Run(s0, evs).Some?
    ensures |r.1| == |r.0| + 1
  {
    if evs == [] then ([], [s0.victim])
    else
      var m := Run(s0, evs[..|evs| - 1]).value;
      var (cms, cs) := Hands(s0, evs[..|evs| - 1]);
      if Evicts(m, evs[|evs| - 1]) then (cms + [m.cm], cs + [Run(s0, evs).value.victim]) else (cms, cs)
  }

  lemma OneMoreChoice(cms: seq<seq<Cm>>, cs: seq<nat>, cm: seq<Cm>, v: nat)
    requires Choices(cms, cs) && cs[|cms|] < |cm| && NextVictim(cm, cs[|cms|], 1) == Some(v)
    requires forall t :: 0 <= t < |cms| ==> |cms[t]| == |cm|
    ensures Choices(cms + [cm], cs + [v])
  {
    forall t | 0 <= t <= |cms| ensures ChoiceAt(cms + [cm], cs + [v], t) {
      if t < |cms| { assert ChoiceAt(cms, cs, t); }
    }
  }

  /** The victims of a run are a history of choices, each found from the one before. */
  lemma {:induction false} HandsAreChoices(s0: Vm, evs: seq<Event>)
    requires Inv(s0) && Run(s0, evs).Some?
    ensures var (cms, cs) := Hands(s0, evs);
            && Choices(cms, cs) && cs[|cms|] == Run(s0, evs).value.victim
            && |Run(s0, evs).value.cm| == |s0.cm|
            && (forall t :: 0 <= t < |cms| ==> |cms[t]| == |s0.cm|)
  {
    if evs != [] {
      var m := RunSplit(s0, evs);
      var before, ev := evs[..|evs| - 1], evs[|evs| - 1];
      HandsAreChoices(s0, before);
      StepHand(m, ev);
      var (cms, cs) := Hands(s0, before);
      if Evicts(m, ev) { OneMoreChoice(cms, cs, m.cm, Run(s0, evs).value.victim); }
    }
  }

  /** Round robin over runs: between two successive choices of frame f in a run, a frame
      that stays eligible is chosen once for every turn of the hand, and so exactly once if
      and only if the hand never passes f. */
  lemma RoundRobinInRuns(s0: Vm, evs: seq<Event>, a: nat, b: nat, f: nat, g: nat)
    requires Inv(s0) && Run(s0, evs).Some?
    requires BetweenChoices(Hands(s0, evs).0, Hands(s0, evs).1, a, b, f, g)
    ensures OncePerTurn(|s0.cm|, Hands(s0, evs).1[a..b + 1], f, g)
  {
    HandsAreChoices(s0, evs);
    RoundRobinBetween(Hands(s0, evs).0, Hands(s0, evs).1, |s0.cm|, a, b, f, g);
  }
}
