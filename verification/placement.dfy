/** Where libraries go: fresh, disjoint regions clear of the errno page, as long
    as no fault has mapped memory inside the library range. */
module Placement {
  import opened Words
  import opened GuestMemory
  import opened PageAlloc
  import opened VmState
  import opened Resolver
  import opened Relocation
  import opened Image
  import opened Runtime

  /** Above the bump pointer only the errno page is mapped in the library range. */
  ghost predicate AreaClear(st: State) {
    forall a | a in st.mem && LIBRARY_ADDRESS + st.libAlloc.offset <= a < LIBRARY_ADDRESS + LIBRARY_SIZE ::
      ERRNO_ADDRESS <= a < ERRNO_ADDRESS + GRANULE
  }

  lemma InitiallyClear()
    ensures AreaClear(InitialState())
  {
    hide InitialMemory;
    InitialMapping();
  }

  lemma ClearKept(st: State, after: State)
    requires AreaClear(st) && after.mem.Keys == st.mem.Keys && after.libAlloc == st.libAlloc
    ensures AreaClear(after)
  {
  }

  lemma SettleArena(st: State, r: Resolution)
    requires Settle(st, r).Continue?
    ensures Settle(st, r).value.0.libAlloc == st.libAlloc
  {
    hide RET_BYTES, Write;
  }

  lemma {:induction false} EntriesArena(st: State, lib: Lib, es: seq<Entry>)
    requires ApplyEntries(st, lib, es).Continue?
    ensures ApplyEntries(st, lib, es).value.libAlloc == st.libAlloc
    decreases |es|
  {
    hide Settle, Target, Classify;
    if es != [] {
      if Symbolic(es[0]) {
        SettleArena(st, Classify(st.mem, st.libs, lib, es[0].sym));
      }
      var st1 := StepEntry(st, lib, es[0]).value;
      assert st1.libAlloc == st.libAlloc;
      hide StepEntry;
      EntriesArena(st1, lib, es[1..]);
    }
  }

  lemma RelocateClear(st: State, lib: Lib, nsyms: nat)
    requires Inv(st) && AreaClear(st) && Relocatable(st.mem, lib, nsyms) && ApplyRelocations(st, lib).Continue?
    ensures AreaClear(ApplyRelocations(st, lib).value)
  {
    hide Inv, ApplyRelocations, ApplyEntries, Entries, TablesWellFormed, Clear, PairwiseApart, AreaClear, LinkReady;
    LinkReadyIn(st);
    RelocationIsEntries(st, lib, nsyms);
    RelocationMeetsSpec(st, lib, nsyms);
    EntriesArena(st, lib, Entries(st.mem, lib));
    ClearKept(st, ApplyRelocations(st, lib).value);
  }

  lemma LoadClear(st: State, name: string, file: seq<Byte>)
    requires Inv(st) && AreaClear(st) && Allowed(st, Load(name, file)) && LoadLibrary(st, name, file).Continue?
    ensures AreaClear(LoadLibrary(st, name, file).value.0)
  {
    hide Inv, AreaClear, Loadable, LoadSegments, ContentsInFile;
    if Recognised(file) {
      SegmentsClear(st, name, Phdrs(file), file);
    }
  }

  lemma SegmentsClear(st: State, name: string, phs: seq<Phdr>, file: seq<Byte>)
    requires Inv(st) && AreaClear(st) && Loadable(st, phs, file) && forall ph | ph in phs :: ContentsInFile(ph, file)
    requires LoadSegments(st, name, phs, file).Continue?
    ensures AreaClear(LoadSegments(st, name, phs, file).value.0)
  {
    hide GoodSegments, SpanOf, Inv, PlaceLibrary, NoWrap, LibraryArenaOk, ContentsInFile, AreaClear, Alloc;
    var r := SpanOf(phs);
    if r.lo < r.hi {
      SpanAligned(phs);
      LibraryArenaIn(st);
      LibraryAlloc(st.libAlloc, r.hi - r.lo);
      var (base, arena) := Alloc(st.libAlloc, r.hi - r.lo).value;
      PlaceClear(st, name, phs, file, base, r, arena);
    }
  }

  lemma PlaceClear(st: State, name: string, phs: seq<Phdr>, file: seq<Byte>, base: U64, r: Range, arena: Arena)
    requires Inv(st) && AreaClear(st) && GoodSegments(phs, file)
    requires r == SpanOf(phs) && r.lo < r.hi && (r.hi - r.lo) % GRANULE == 0
    requires base == LIBRARY_ADDRESS + st.libAlloc.offset && LibraryArenaOk(arena)
    requires arena.offset == st.libAlloc.offset + (r.hi - r.lo)
    ensures forall ph | ph in phs :: ContentsInFile(ph, file)
    ensures AreaClear(PlaceLibrary(st.(libAlloc := arena), name, phs, file, base, r).0)
  {
    hide GoodSegments, SpanOf, CopySegments, Describe, Inv, AreaClear, MapRegion, DynamicAddr, Fits, ContentsInFile,
      LibraryArenaOk;
    SpanFits(phs, file);
    ArenaTop(arena);
    var m := MapRegion(st.mem, base, r.hi - r.lo);
    CopyFrame(m, base, r.lo, r.hi - r.lo, phs, file);
    MapAdds(st.mem, base, r.hi - r.lo);
    var after := PlaceLibrary(st.(libAlloc := arena), name, phs, file, base, r).0;
    assert after.mem.Keys == m.Keys;
    ClearAbove(st, after, base, r.hi - r.lo);
  }

  lemma ArenaTop(ar: Arena)
    requires LibraryArenaOk(ar)
    ensures ar.offset <= LIBRARY_SIZE
  {
  }

  lemma MapAdds(m: Mem, base: U64, span: nat)
    requires base + span <= TWO64
    ensures forall a | a in MapRegion(m, base, span) :: a in m || base <= a < base + span
  {
  }

  lemma ClearAbove(st: State, after: State, base: U64, span: nat)
    requires AreaClear(st) && base == LIBRARY_ADDRESS + st.libAlloc.offset
    requires after.libAlloc.offset == st.libAlloc.offset + span
    requires forall a | a in after.mem :: a in st.mem || base <= a < base + span
    ensures AreaClear(after)
  {
  }

  lemma HeapEventClear(st: State, ev: Event)
    requires Inv(st) && AreaClear(st) && IsHeapEvent(ev) && Allowed(st, ev) && Step(st, ev).Continue?
    ensures AreaClear(Step(st, ev).value.0)
  {
    hide Inv, BlockContents, NoWrap, AreaClear, Alloc, Write;
    if HeapRequest(ev).Some? {
      ClearKept(st, Step(st, ev).value.0);
    }
  }

  lemma StepClear(st: State, ev: Event)
    requires Inv(st) && AreaClear(st) && Allowed(st, ev) && !ev.Fault? && Step(st, ev).Continue?
    ensures AreaClear(Step(st, ev).value.0)
  {
    hide Inv, AreaClear, GoodSegments, Relocatable, ApplyRelocations, LoadLibrary, Write, InFile, SpanOf, Phdrs;
    match ev
    case DlsymCall(name) => ClearKept(st, Step(st, ev).value.0);
    case GuestWrite(a, data) => ClearKept(st, Step(st, ev).value.0);
    case Load(name, file) => LoadClear(st, name, file);
    case Relocate(i, nsyms) => RelocateClear(st, st.libs[i], nsyms);
    case _ => HeapEventClear(st, ev);
  }

  /** Runs without faults, from the constructor on, keep the library range clear. */
  lemma {:induction false} RunClear(st: State, evs: seq<Event>)
    requires Inv(st) && AreaClear(st) && AllowedRun(st, evs)
    requires forall ev | ev in evs :: !ev.Fault? && (ev.Load? ==> InFile(ev.file))
    requires Run(st, evs).Continue?
    ensures Inv(Run(st, evs).value) && AreaClear(Run(st, evs).value)
    decreases |evs|
  {
    hide Inv, AreaClear, Step, Allowed, InFile, Grows;
    if evs != [] {
      StepKeepsInv(st, evs[0]);
      StepClear(st, evs[0]);
      RunClear(Step(st, evs[0]).value.0, evs[1..]);
    }
  }

  /** A library's region is unmapped before it is placed exactly when it avoids the errno page. */
  lemma FreshIff(st: State, base: U64, span: U64)
    requires Inv(st) && AreaClear(st)
    requires base == LIBRARY_ADDRESS + st.libAlloc.offset && 0 < span && base + span <= LIBRARY_ADDRESS + LIBRARY_SIZE
    requires span % GRANULE == 0
    ensures Unmapped(st.mem, base, span) <==> base + span <= ERRNO_ADDRESS || ERRNO_ADDRESS + GRANULE <= base
  {
    hide Granular, RegistryOk, StubsReturn, LibrariesPlaced, HeapOk;
    if base + span > ERRNO_ADDRESS && ERRNO_ADDRESS + GRANULE > base {
      assert base <= ERRNO_ADDRESS;
      assert ERRNO_ADDRESS in st.mem;
    }
  }

  /** Main result: loading at the end of any run without faults a library that
      still ends below the errno page succeeds in a fresh region above every
      earlier library, and leaves the image the file describes. */
  lemma LoadFresh(st: State, name: string, phs: seq<Phdr>, file: seq<Byte>)
    requires Inv(st) && AreaClear(st) && Loadable(st, phs, file) && forall ph | ph in phs :: ContentsInFile(ph, file)
    requires SpanOf(phs).lo < SpanOf(phs).hi && LoadSegments(st, name, phs, file).Continue?
    requires st.libAlloc.offset + (SpanOf(phs).hi - SpanOf(phs).lo) <= ERRNO_ADDRESS - LIBRARY_ADDRESS
    ensures LoadedFresh(st, LoadSegments(st, name, phs, file).value.0, phs, file)
    ensures LoadSegments(st, name, phs, file).value.1
  {
    hide GoodSegments, SpanOf, NoWrap, ImageOf, AreaClear, Inv, PlaceLibrary, Grows, Unmapped, ContentsInFile,
      LibraryArenaOk, Alloc;
    var r := SpanOf(phs);
    SpanAligned(phs);
    LibraryArenaIn(st);
    EarlierBelow(st);
    LibraryAlloc(st.libAlloc, r.hi - r.lo);
    var (base, arena) := Alloc(st.libAlloc, r.hi - r.lo).value;
    FreshIff(st, base, r.hi - r.lo);
    PlaceKeepsInv(st, name, phs, file, base, r, arena);
    ImageCorrect(st.(libAlloc := arena), name, phs, file, base, r);
    PlacedOk(st.(libAlloc := arena), name, phs, file, base, r);
  }

  /** What loading needs of a machine that some run has led to. */
  ghost predicate CanLoad(st: State, name: string, phs: seq<Phdr>, file: seq<Byte>) {
    && Loadable(st, phs, file) && (forall ph | ph in phs :: ContentsInFile(ph, file))
    && SpanOf(phs).lo < SpanOf(phs).hi && LoadSegments(st, name, phs, file).Continue?
    && st.libAlloc.offset + (SpanOf(phs).hi - SpanOf(phs).lo) <= ERRNO_ADDRESS - LIBRARY_ADDRESS
  }

  /** Main result: so it is after any run without faults of the machine as constructed. */
  lemma LoadFreshFromStart(start: State, evs: seq<Event>, name: string, phs: seq<Phdr>, file: seq<Byte>)
    requires forall ev | ev in evs :: !ev.Fault? && (ev.Load? ==> InFile(ev.file))
    requires AllowedRun(start, evs) && Run(start, evs).Continue? && CanLoad(Run(start, evs).value, name, phs, file)
    requires start == InitialState()
    ensures forall ph | ph in phs :: ContentsInFile(ph, file)
    ensures var st := Run(start, evs).value;
            LoadSegments(st, name, phs, file).Continue?
            && LoadedFresh(st, LoadSegments(st, name, phs, file).value.0, phs, file) &&
                 LoadSegments(st, name, phs, file).value.1
  {
    hide Inv, AreaClear, Run, AllowedRun, InitialState, LoadSegments, LoadedFresh, SpanOf, ContentsInFile, InFile,
      Loadable;
    InitialInv();
    InitiallyClear();
    RunClear(start, evs);
    LoadFresh(Run(start, evs).value, name, phs, file);
  }

  ghost predicate LoadedFresh(st: State, after: State, phs: seq<Phdr>, file: seq<Byte>) {
    var r := SpanOf(phs);
    var base := LIBRARY_ADDRESS + st.libAlloc.offset;
    && |after.libs| == |st.libs| + 1 && after.libs[|st.libs|].base == base
    && (r.lo < r.hi ==> Unmapped(st.mem, base, r.hi - r.lo))
    && (forall i | 0 <= i < |st.libs| :: st.libs[i].base + SpanLength(st.libs[i]) <= base)
    && base < TWO64 && ImageOf(st.mem, after.mem, base, r, phs, file)
  }

  lemma PlacedOk(st: State, name: string, phs: seq<Phdr>, file: seq<Byte>, base: U64, r: Range)
    requires r.lo < r.hi && base + (r.hi - r.lo) <= TWO64 && forall ph | ph in phs :: ContentsInFile(ph, file)
    ensures PlaceLibrary(st, name, phs, file, base, r).1
  {
    hide CopySegments, Describe;
  }

  lemma EarlierBelow(st: State)
    requires Inv(st)
    ensures forall i | 0 <= i < |st.libs| ::
              st.libs[i].base + SpanLength(st.libs[i]) <= LIBRARY_ADDRESS + st.libAlloc.offset
  {
  }
}
