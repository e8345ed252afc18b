/** The running machine: every event the loader, the hooks and the guest can
    cause, and what each of them keeps. */
module Runtime {
  import opened Words
  import opened GuestMemory
  import opened PageAlloc
  import opened VmState
  import opened Resolver
  import opened Relocation
  import opened Image

  // The machine as constructed -----------------------------------------------------

  function InitialMemory(): Mem {
    MapRegion(
      MapRegion(
        MapRegion(
          MapRegion(
            MapRegion(map[], HEAP_ADDRESS, HEAP_SIZE),
            STACK_ADDRESS, STACK_SIZE),
          IMPORT_ADDRESS, IMPORT_SIZE),
        0, GRANULE),
      ERRNO_ADDRESS, GRANULE)
  }

  function InitialState(): State {
    State(Write(InitialMemory(), ERRNO_ADDRESS, Zeros(4)),
          Arena(HEAP_ADDRESS, HEAP_SIZE, 0, 64),
          Arena(LIBRARY_ADDRESS, LIBRARY_SIZE, 0, GRANULE),
          map[], map[], IMPORT_ADDRESS, [])
  }

  // Hooks ---------------------------------------------------------------------------

  datatype FaultKind = Fetch | ReadUnmapped | WriteUnmapped

  datatype Event =
    | Malloc(size: U64)
    | Calloc(num: U64, size: U64)
    | Realloc(ptr: U64, size: U64)
    | WriteBytes(data: seq<Byte>)
    | AllocateException(size: U64)
    | HeapAllocate(size: U64)
    | DlsymCall(name: string)
    | GuestWrite(addr: U64, data: seq<Byte>)
    | Fault(kind: FaultKind, addr: U64)
    | Load(name: string, file: seq<Byte>)
    | Relocate(index: nat, nsyms: nat)

  /** The size `heap.alloc` is asked for. */
  function HeapRequest(ev: Event): Option<U64> {
    match ev
    case Malloc(size) => Some(Wrap(size + 16))
    case Calloc(num, size) => Some(Wrap(Wrap(num * size) + 16))
    case Realloc(_, size) => Some(Wrap(size + 16))
    case WriteBytes(data) => if data == [] then None else Some(Wrap(|data| + 16))
    case AllocateException(size) => Some(Wrap(size + 128))
    case HeapAllocate(size) => Some(size)
    case _ => None
  }

  /** The bytes of the returned block its caller may use. */
  function BlockLength(ev: Event): nat {
    match ev
    case Malloc(size) => size
    case Calloc(num, size) => num * size
    case Realloc(_, size) => size
    case WriteBytes(data) => |data|
    case AllocateException(size) => size
    case HeapAllocate(size) => size
    case _ => 0
  }

  /** What the hook writes at the start of the block it returns.  `realloc`
      copies through a zeroed buffer, so an unreadable source copies zeros. */
  function BlockContents(m: Mem, ev: Event): seq<Byte> {
    match ev
    case Calloc(num, size) => Zeros(Wrap(num * size))
    case Realloc(ptr, size) =>
      if ptr != 0 && size > 0 then
        match Read(m, ptr, size)
        case Some(bs) => bs
        case None => Zeros(size)
      else []
    case WriteBytes(data) => data
    case _ => []
  }

  function HeapStep(st: State, ev: Event, request: U64): Outcome<(State, U64)> {
    var (p, heap) :- Alloc(st.heap, request);
    Continue((st.(heap := heap, mem := Write(st.mem, p, BlockContents(st.mem, ev))), p))
  }

  function FloorGranule(a: U64): U64 {
    AlignDown(a, GRANULE)
  }

  /** `hook_mem_invalid`: the new memory, and whether the guest may go on. */
  function MemInvalid(m: Mem, kind: FaultKind, a: U64): (Mem, bool) {
    var page := FloorGranule(a);
    if kind == Fetch then (m, false)
    else if page == 0 && kind == WriteUnmapped then (m, false)
    else (MapRegion(m, page, GRANULE), true)
  }

  /** One event; the number is what the hook returns in x0 (0 where it returns nothing). */
  function Step(st: State, ev: Event): Outcome<(State, nat)>
    requires ev.Load? ==> InFile(ev.file)
    requires ev.Relocate? ==> ev.index < |st.libs|
  {
    match ev
    case DlsymCall(name) => Continue(Dlsym(st, name))
    case GuestWrite(a, data) => Continue((st.(mem := Write(st.mem, a, data)), 0))
    case Fault(kind, a) =>
      var (m, on) := MemInvalid(st.mem, kind, a);
      Continue((st.(mem := m), if on then 1 else 0))
    case Load(name, file) =>
      var (st1, ok) :- LoadLibrary(st, name, file);
      Continue((st1, if ok then 1 else 0))
    case Relocate(i, _) =>
      var st1 :- ApplyRelocations(st, st.libs[i]);
      Continue((st1, 0))
    case _ =>
      match HeapRequest(ev)
      case None => Continue((st, 0))
      case Some(n) => HeapStep(st, ev, n)
  }

  // The invariant ------------------------------------------------------------------

  /** Memory is mapped in whole 64 KiB granules. */
  ghost predicate Granular(m: Mem) {
    forall a | a in m :: Mapped(m, FloorGranule(a), GRANULE)
  }

  ghost predicate FixedRegions(m: Mem) {
    && Mapped(m, 0, GRANULE)
    && Mapped(m, HEAP_ADDRESS, HEAP_SIZE)
    && Mapped(m, STACK_ADDRESS, STACK_SIZE)
    && Mapped(m, IMPORT_ADDRESS, IMPORT_SIZE)
    && Mapped(m, ERRNO_ADDRESS, GRANULE)
  }

  predicate LibraryArenaOk(ar: Arena) {
    && ar.base == LIBRARY_ADDRESS && ar.size == LIBRARY_SIZE && ar.alignment == GRANULE
    && ar.offset <= LIBRARY_SIZE && ar.offset % GRANULE == 0
  }

  predicate IsStub(next: nat, a: nat) {
    IMPORT_ADDRESS <= a < next && a % 8 == 0
  }

  /** Each stub's name is bound to it. */
  ghost predicate Mirrors(imports: map<string, nat>, stubs: map<nat, string>) {
    forall a | a in stubs :: stubs[a] in imports && imports[stubs[a]] == a
  }

  /** Each name is bound to its stub or to heap data, and to no other name's. */
  ghost predicate BoundOnce(imports: map<string, nat>, stubs: map<nat, string>, heapEnd: int) {
    && (forall n | n in imports ::
          (imports[n] in stubs && stubs[imports[n]] == n) || HEAP_ADDRESS <= imports[n] < heapEnd)
    && (forall n, k | n in imports && k in imports && n != k :: imports[n] != imports[k])
  }

  /** Stubs and bindings mirror each other; a name is bound to its stub or to heap data. */
  ghost predicate RegistryOk(st: State) {
    && IMPORT_ADDRESS <= st.next && st.next % 8 == 0
    && (forall a :: a in st.stubs <==> IsStub(st.next, a))
    && Mirrors(st.imports, st.stubs)
    && BoundOnce(st.imports, st.stubs, HEAP_ADDRESS + st.heap.offset)
  }

  /** Every stub inside the hooked range holds the return instruction. */
  ghost predicate StubsReturn(st: State) {
    forall a | a in st.stubs && a + 4 <= IMPORT_ADDRESS + IMPORT_SIZE :: Read(st.mem, a, 4) == Some(RET_BYTES)
  }

  function SpanLength(lib: Lib): int {
    lib.maxVaddr - lib.minVaddr
  }

  /** Libraries occupy consecutive, disjoint parts of the library range. */
  ghost predicate LibrariesPlaced(st: State) {
    && (forall i | 0 <= i < |st.libs| ::
          LIBRARY_ADDRESS <= st.libs[i].base && 0 < SpanLength(st.libs[i])
          && st.libs[i].base + SpanLength(st.libs[i]) <= LIBRARY_ADDRESS + st.libAlloc.offset)
    && (forall i, j | 0 <= i < j < |st.libs| :: st.libs[i].base + SpanLength(st.libs[i]) <= st.libs[j].base)
  }

  ghost predicate Inv(st: State) {
    && Granular(st.mem) && FixedRegions(st.mem)
    && HeapOk(st.heap) && LibraryArenaOk(st.libAlloc)
    && RegistryOk(st) && StubsReturn(st) && LibrariesPlaced(st)
  }

  /** What holds of an event: guest code stays out of the import range, faults
      happen at unmapped addresses, no heap request wraps, files are well
      formed, and relocated libraries are well laid out. */
  ghost predicate Allowed(st: State, ev: Event) {
    match ev
    case GuestWrite(a, data) => a + |data| <= IMPORT_ADDRESS || IMPORT_ADDRESS + IMPORT_SIZE <= a
    case Fault(_, a) => a !in st.mem
    case Load(_, file) => InFile(file) && (Recognised(file) ==> Loadable(st, Phdrs(file), file))
    case Relocate(i, nsyms) => i < |st.libs| && Relocatable(st.mem, st.libs[i], nsyms)
    case DlsymCall(_) => true
    case _ => HeapRequest(ev).Some? ==>
      NoWrap(st.heap, HeapRequest(ev).value) && BlockLength(ev) <= HeapRequest(ev).value
  }

  /** Segments the ABI allows, whose span the library range's bump pointer can count. */
  ghost predicate Loadable(st: State, phs: seq<Phdr>, file: seq<Byte>) {
    && GoodSegments(phs, file)
    && (SpanOf(phs).lo < SpanOf(phs).hi ==> NoWrap(st.libAlloc, SpanOf(phs).hi - SpanOf(phs).lo))
  }

  /** Bindings and stubs are only added, mapped memory stays mapped, and the
      heap's bump pointer never goes back. */
  ghost predicate Grows(st: State, after: State) {
    && Extends(st.imports, after.imports)
    && (forall a | a in st.stubs :: a in after.stubs && after.stubs[a] == st.stubs[a])
    && st.mem.Keys <= after.mem.Keys
    && st.heap.offset <= after.heap.offset
  }

  // Each part of the invariant under the changes events make ---------------------------

  lemma KeysKept(m: Mem, m1: Mem)
    requires Granular(m) && FixedRegions(m) && m1.Keys == m.Keys
    ensures Granular(m1) && FixedRegions(m1)
  {
    forall a | a in m1
      ensures Mapped(m1, FloorGranule(a), GRANULE)
    {
      assert Mapped(m, FloorGranule(a), GRANULE);
    }
  }

  lemma StubsKept(st: State, after: State)
    requires StubsReturn(st) && after.stubs == st.stubs && FixedRegions(st.mem) && st.mem.Keys <= after.mem.Keys
    requires RegistryOk(st)
    requires forall a | IMPORT_ADDRESS <= a < IMPORT_ADDRESS + IMPORT_SIZE && a in st.mem :: after.mem[a] == st.mem[a]
    ensures StubsReturn(after)
  {
    forall a | a in after.stubs && a + 4 <= IMPORT_ADDRESS + IMPORT_SIZE
      ensures Read(after.mem, a, 4) == Some(RET_BYTES)
    {
      assert Read(st.mem, a, 4) == Some(RET_BYTES);
      assert Mapped(st.mem, a, 4) && Mapped(after.mem, a, 4);
      assert Slice(after.mem, a, 4) == Slice(st.mem, a, 4);
    }
  }

  /** A change of memory outside the import range, with nothing unmapped. */
  lemma MemoryChange(st: State, m: Mem)
    requires Inv(st) && m.Keys == st.mem.Keys
    requires forall a | IMPORT_ADDRESS <= a < IMPORT_ADDRESS + IMPORT_SIZE && a in st.mem :: m[a] == st.mem[a]
    ensures Inv(st.(mem := m)) && Grows(st, st.(mem := m))
  {
    KeysKept(st.mem, m);
    StubsKept(st, st.(mem := m));
  }

  predicate InFixedRegion(a: int) {
    || 0 <= a < GRANULE
    || HEAP_ADDRESS <= a < HEAP_ADDRESS + HEAP_SIZE
    || STACK_ADDRESS <= a < STACK_ADDRESS + STACK_SIZE
    || IMPORT_ADDRESS <= a < IMPORT_ADDRESS + IMPORT_SIZE
    || ERRNO_ADDRESS <= a < ERRNO_ADDRESS + GRANULE
  }

  /** The constructor's mappings succeed and map exactly the fixed regions. */
  lemma InitialMapping()
    ensures forall a :: a in InitialMemory() <==> InFixedRegion(a)
    ensures Granular(InitialMemory())
  {
    var m1 := MapRegion(map[], HEAP_ADDRESS, HEAP_SIZE);
    var m2 := MapRegion(m1, STACK_ADDRESS, STACK_SIZE);
    var m3 := MapRegion(m2, IMPORT_ADDRESS, IMPORT_SIZE);
    var m4 := MapRegion(m3, 0, GRANULE);
    var m5 := MapRegion(m4, ERRNO_ADDRESS, GRANULE);
    assert m5 == InitialMemory();
    hide MapRegion, InitialMemory, Granular;
    assert Granular(map[]) by { EmptyGranular(); }
    MapKeepsGranular(map[], HEAP_ADDRESS, HEAP_SIZE);
    MapKeepsGranular(m1, STACK_ADDRESS, STACK_SIZE);
    MapKeepsGranular(m2, IMPORT_ADDRESS, IMPORT_SIZE);
    MapKeepsGranular(m3, 0, GRANULE);
    MapKeepsGranular(m4, ERRNO_ADDRESS, GRANULE);
  }

  lemma EmptyGranular()
    ensures Granular(map[])
  {
  }

  lemma InitialInv()
    ensures Inv(InitialState())
  {
    hide InitialMemory, Granular;
    var m := InitialMemory();
    InitialMapping();
    assert FixedRegions(m);
    KeysKept(m, Write(m, ERRNO_ADDRESS, Zeros(4)));
    hide FixedRegions, Write, Zeros;
    var st := InitialState();
    assert RegistryOk(st) && StubsReturn(st) && LibrariesPlaced(st);
  }

  /** The machine as constructed, in numbers: what is mapped, all of it zero, the
      two allocators and the first import address. */
  lemma StartLayout()
    ensures var st := InitialState();
            && (forall a :: a in st.mem <==>
                  || 0 <= a < 0x1_0000 || 0x3FF0_0000 <= a < 0x3FF1_0000 || 0x4800_0000 <= a < 0x6800_0000
                  || 0x7000_0000 <= a < 0x7100_0000 || 0x8000_0000 <= a < 0x8001_0000)
            && (forall a | a in st.mem :: st.mem[a] == 0)
            && st.heap == Arena(0x4800_0000, 0x2000_0000, 0, 64)
            && st.libAlloc == Arena(0x1000_0000, 0x3000_0000, 0, 0x1_0000)
            && st.next == 0x8000_0000 && st.imports == map[] && st.stubs == map[] && st.libs == []
  {
    InitialMapping();
    InitialZeros();
    hide InitialMemory;
  }

  lemma InitialZeros()
    ensures forall a | a in InitialMemory() :: InitialMemory()[a] == 0
  {
    var m1 := MapRegion(map[], HEAP_ADDRESS, HEAP_SIZE);
    var m2 := MapRegion(m1, STACK_ADDRESS, STACK_SIZE);
    var m3 := MapRegion(m2, IMPORT_ADDRESS, IMPORT_SIZE);
    var m4 := MapRegion(m3, 0, GRANULE);
    var m5 := MapRegion(m4, ERRNO_ADDRESS, GRANULE);
    assert m5 == InitialMemory();
    hide MapRegion, InitialMemory;
    assert AllZero(map[]);
    MapZeros(map[], HEAP_ADDRESS, HEAP_SIZE);
    MapZeros(m1, STACK_ADDRESS, STACK_SIZE);
    MapZeros(m2, IMPORT_ADDRESS, IMPORT_SIZE);
    MapZeros(m3, 0, GRANULE);
    MapZeros(m4, ERRNO_ADDRESS, GRANULE);
  }

  predicate AllZero(m: Mem) {
    forall a | a in m :: m[a] == 0
  }

  lemma MapZeros(m: Mem, a: int, n: nat)
    requires AllZero(m) && 0 <= a && a + n <= TWO64
    ensures AllZero(MapRegion(m, a, n))
  {
  }

  /** Mapping whole granules, whether or not the engine accepts, keeps memory granular. */
  lemma MapKeepsGranular(m: Mem, a: int, n: nat)
    requires Granular(m) && 0 <= a && a + n <= TWO64 && a % GRANULE == 0 && n % GRANULE == 0
    ensures Granular(MapRegion(m, a, n))
    ensures m.Keys <= MapRegion(m, a, n).Keys
  {
    if Unmapped(m, a, n) {
      var r := MapRegion(m, a, n);
      forall x | x in r
        ensures Mapped(r, FloorGranule(x), GRANULE)
      {
        if x in m {
          assert Mapped(m, FloorGranule(x), GRANULE);
        } else {
          FloorInside(a, n, x);
        }
      }
    }
  }

  lemma FloorInside(a: int, n: nat, x: int)
    requires 0 <= a <= x < a + n <= TWO64 && a % GRANULE == 0 && n % GRANULE == 0
    ensures a <= FloorGranule(x) && FloorGranule(x) + GRANULE <= a + n
  {
  }

  // Binding names ---------------------------------------------------------------------

  /** A new stub is a fresh address of the import range, next to the last one. */
  lemma NewStubRegistry(st: State, name: string)
    requires RegistryOk(st) && HeapOk(st.heap) && name !in st.imports
    ensures RegistryOk(RegisterImport(st, name).0)
  {
    hide Write, RET_BYTES, HeapOk, IsStub, Mirrors, BoundOnce;
    HeapOkBound(st.heap);
    NextIsNew(st);
    StubRange(st.next);
    MirrorsAfter(st.imports, st.stubs, st.next, name);
    BoundAfter(st.imports, st.stubs, st.next, name, HEAP_ADDRESS + st.heap.offset);
  }

  /** Each stub's name is still bound to it, the new one included. */
  lemma MirrorsAfter(imports: map<string, nat>, stubs: map<nat, string>, next: nat, name: string)
    requires Mirrors(imports, stubs) && name !in imports && next !in stubs
    ensures Mirrors(imports[name := next], stubs[next := name])
  {
  }

  /** Each name is still bound to its stub or to heap data, and to nobody else's. */
  lemma BoundAfter(imports: map<string, nat>, stubs: map<nat, string>, next: nat, name: string, heapEnd: int)
    requires BoundOnce(imports, stubs, heapEnd)
    requires name !in imports && next !in stubs && forall n | n in imports :: imports[n] != next
    ensures BoundOnce(imports[name := next], stubs[next := name], heapEnd)
  {
  }

  lemma StubRange(next: nat)
    requires IMPORT_ADDRESS <= next && next % 8 == 0
    ensures forall a :: IsStub(next + 8, a) <==> IsStub(next, a) || a == next
  {
  }

  lemma NextIsNew(st: State)
    requires RegistryOk(st) && st.heap.offset <= HEAP_SIZE
    ensures st.next !in st.stubs
    ensures forall n | n in st.imports :: st.imports[n] != st.next
  {
    assert !IsStub(st.next, st.next);
  }

  lemma HeapOkBound(ar: Arena)
    requires HeapOk(ar)
    ensures ar.offset <= HEAP_SIZE
  {
  }

  lemma NewStubReturns(st: State, name: string)
    requires RegistryOk(st) && StubsReturn(st) && FixedRegions(st.mem) && name !in st.imports
    requires IMPORT_ADDRESS <= st.next
    ensures StubsReturn(RegisterImport(st, name).0)
  {
    ImportMapped(st.mem);
    assert |RET_BYTES| == 4;
    assert forall a | a in st.stubs :: IMPORT_ADDRESS <= a && a + 8 <= st.next by { StubsBelowNext(st); }
    hide RET_BYTES, FixedRegions, RegistryOk, Write;
    var after := RegisterImport(st, name).0;
    forall a | a in after.stubs && a + 4 <= IMPORT_ADDRESS + IMPORT_SIZE && IMPORT_ADDRESS <= a
      ensures Read(after.mem, a, 4) == Some(RET_BYTES)
    {
      assert Mapped(st.mem, a, 4);
      if a == st.next {
        ReadAfterWrite(st.mem, a, RET_BYTES);
      } else {
        ReadAgree(st.mem, after.mem, a, 4);
      }
    }
  }

  lemma StubsBelowNext(st: State)
    requires RegistryOk(st)
    ensures forall a | a in st.stubs :: IMPORT_ADDRESS <= a && a + 8 <= st.next
  {
    hide Mirrors, BoundOnce;
    forall a | a in st.stubs
      ensures IMPORT_ADDRESS <= a && a + 8 <= st.next
    {
      assert IsStub(st.next, a);
    }
  }

  lemma NewStubGrows(st: State, name: string)
    requires RegistryOk(st) && name !in st.imports
    ensures Grows(st, RegisterImport(st, name).0)
  {
    hide Write, RET_BYTES;
    assert !IsStub(st.next, st.next);
  }

  lemma ImportMapped(m: Mem)
    requires FixedRegions(m)
    ensures Mapped(m, IMPORT_ADDRESS, IMPORT_SIZE)
  {
  }

  lemma RegisterKeepsInv(st: State, name: string)
    requires Inv(st)
    ensures Inv(RegisterImport(st, name).0) && Grows(st, RegisterImport(st, name).0)
    ensures RegisterImport(st, name).0.libs == st.libs && RegisterImport(st, name).0.heap == st.heap
    ensures RegisterImport(st, name).0.mem.Keys == st.mem.Keys
  {
    hide Granular, FixedRegions, StubsReturn, HeapOk, LibraryArenaOk, Write, RegistryOk, LibrariesPlaced, Grows;
    if name !in st.imports {
      NewStubRegistry(st, name);
      NewStubAligned(st);
      NewStubReturns(st, name);
      KeysKept(st.mem, RegisterImport(st, name).0.mem);
      NewStubGrows(st, name);
      PlacedSame(st, RegisterImport(st, name).0);
    } else {
      GrowsSelf(st);
    }
  }

  lemma NewStubAligned(st: State)
    requires RegistryOk(st)
    ensures IMPORT_ADDRESS <= st.next
  {
  }

  // Heap events -----------------------------------------------------------------------

  /** An allocation that does not wrap keeps the machine's invariant whatever
      is written inside the block. */
  lemma HeapStepKeepsInv(st: State, ev: Event, n: U64)
    requires Inv(st) && NoWrap(st.heap, n) && |BlockContents(st.mem, ev)| <= n
    requires HeapStep(st, ev, n).Continue?
    ensures var (after, p) := HeapStep(st, ev, n).value;
            && Inv(after) && Grows(st, after) && after.libs == st.libs && after.mem.Keys == st.mem.Keys
            && after.imports == st.imports
            && p == HEAP_ADDRESS + st.heap.offset && p % 64 == 0
            && p + n <= HEAP_ADDRESS + after.heap.offset <= HEAP_ADDRESS + HEAP_SIZE
            && st.heap.offset < after.heap.offset
  {
    HeapAlloc(st.heap, n);
    var (p, heap) := Alloc(st.heap, n).value;
    var contents := BlockContents(st.mem, ev);
    var m := Write(st.mem, p, contents);
    hide NoWrap, Alloc, BlockContents, Write;
    MemoryChange(st, m);
    HeapGrows(st.(mem := m), heap);
  }

  lemma HeapGrows(st: State, heap: Arena)
    requires Inv(st) && HeapOk(heap) && st.heap.offset <= heap.offset
    ensures Inv(st.(heap := heap))
  {
    hide Granular, FixedRegions, LibraryArenaOk;
    var after := st.(heap := heap);
    assert RegistryOk(after);
    assert StubsReturn(after) && LibrariesPlaced(after);
  }

  lemma ContentsFit(m: Mem, ev: Event)
    requires HeapRequest(ev).Some? && BlockLength(ev) <= HeapRequest(ev).value
    ensures |BlockContents(m, ev)| <= HeapRequest(ev).value
  {
    if ev.Calloc? {
      ProductFits(ev.num * ev.size);
    }
  }

  lemma ProductFits(total: nat)
    requires total <= Wrap(Wrap(total) + 16)
    ensures Wrap(total) == total
  {
  }

  // Faults ----------------------------------------------------------------------------

  /** A fault the guest survives maps the whole unmapped granule around the
      address, zeroed, and changes nothing else.  The null granule is never
      reached, so the branch for writes to it is dead. */
  lemma FaultMapsGranule(st: State, kind: FaultKind, a: U64)
    requires Inv(st) && a !in st.mem
    ensures FloorGranule(a) == a - a % 0x1_0000 && FloorGranule(a) != 0
    ensures Unmapped(st.mem, FloorGranule(a), GRANULE)
    ensures var (m, on) := MemInvalid(st.mem, kind, a);
            && (on <==> kind != Fetch)
            && (on ==>
                  && a in m
                  && forall x :: x in m <==> x in st.mem || FloorGranule(a) <= x < FloorGranule(a) + GRANULE)
            && (forall x | x in st.mem :: x in m && m[x] == st.mem[x])
            && (forall x | x in m && x !in st.mem :: m[x] == 0)
  {
    var page := FloorGranule(a);
    assert page != 0 by {
      assert Mapped(st.mem, 0, GRANULE);
    }
    forall x | page <= x < page + GRANULE
      ensures x !in st.mem
    {
      if x in st.mem {
        assert Mapped(st.mem, FloorGranule(x), GRANULE);
        SameFloor(a, x);
      }
    }
    assert page + GRANULE <= TWO64;
  }

  /** Whatever is mapped: a fetch is refused, a write to the lowest granule is
      too, and any other fault lets the guest go on. */
  lemma FaultAnswers(m: Mem, kind: FaultKind, a: U64)
    ensures MemInvalid(m, kind, a).1 <==> kind == ReadUnmapped || (kind == WriteUnmapped && a >= 0x1_0000)
    ensures !MemInvalid(m, kind, a).1 ==> MemInvalid(m, kind, a).0 == m
  {
    AlignDownBounds(a, GRANULE);
  }

  lemma SameFloor(a: U64, x: U64)
    requires FloorGranule(a) <= x < FloorGranule(a) + GRANULE
    ensures FloorGranule(x) == FloorGranule(a)
  {
  }

  lemma FaultKeepsInv(st: State, kind: FaultKind, a: U64)
    requires Inv(st) && a !in st.mem
    ensures var after := st.(mem := MemInvalid(st.mem, kind, a).0);
            Inv(after) && Grows(st, after)
  {
    FaultMapsGranule(st, kind, a);
    hide FixedRegions, Granular, HeapOk, LibraryArenaOk, RegistryOk, StubsReturn, MapRegion, FloorGranule,
      LibrariesPlaced;
    var m := MemInvalid(st.mem, kind, a).0;
    FaultGranular(st.mem, kind, a);
    FixedGrow(st.mem, m);
    StubsKept(st, st.(mem := m));
    RegistryIgnoresMemory(st, m);
  }

  lemma FaultGranular(m: Mem, kind: FaultKind, a: U64)
    requires Granular(m)
    ensures Granular(MemInvalid(m, kind, a).0)
  {
    MapKeepsGranular(m, FloorGranule(a), GRANULE);
  }

  lemma FixedGrow(m: Mem, m1: Mem)
    requires FixedRegions(m) && m.Keys <= m1.Keys
    ensures FixedRegions(m1)
  {
  }

  lemma RegistryIgnoresMemory(st: State, m: Mem)
    requires RegistryOk(st) && LibrariesPlaced(st)
    ensures RegistryOk(st.(mem := m)) && LibrariesPlaced(st.(mem := m))
  {
  }

  // Loading a library -------------------------------------------------------------------

  lemma LibraryAlloc(ar: Arena, span: U64)
    requires LibraryArenaOk(ar) && span > 0 && span % GRANULE == 0 && NoWrap(ar, span) && Alloc(ar, span).Continue?
    ensures var (base, after) := Alloc(ar, span).value;
            && LibraryArenaOk(after) && base == LIBRARY_ADDRESS + ar.offset && after.offset == ar.offset + span
            && base % GRANULE == 0
  {
    assert AlignDown(span + GRANULE - 1, GRANULE) == span;
    assert AlignedSize(ar, span) == span;
    hide AlignDown, AlignedSize;
  }

  lemma SpanAligned(phs: seq<Phdr>)
    ensures var r := SpanOf(phs); r.lo < r.hi ==> (r.hi - r.lo) % GRANULE == 0
  {
    hide SpanOf;
    SpanCovers(phs);
  }

  /** The memory a placed library leaves: granular, nothing unmapped, nothing
      outside the span changed. */
  lemma PlacedMemory(m: Mem, base: U64, r: Range, phs: seq<Phdr>, file: seq<Byte>)
    requires Granular(m) && FixedRegions(m)
    requires GoodSegments(phs, file) && r == SpanOf(phs) && r.lo < r.hi && (r.hi - r.lo) % GRANULE == 0
    requires base % GRANULE == 0 && base + (r.hi - r.lo) <= TWO64
    ensures forall ph | ph in phs :: ContentsInFile(ph, file)
    ensures var after := CopySegments(MapRegion(m, base, r.hi - r.lo), base, r.lo, phs, file);
            && Granular(after) && FixedRegions(after) && m.Keys <= after.Keys
            && forall a | a in m && !(base <= a < base + (r.hi - r.lo)) :: after[a] == m[a]
  {
    var span := r.hi - r.lo;
    SpanFits(phs, file);
    hide GoodSegments, SpanOf, CopySegments, Granular, FixedRegions, MapRegion;
    var m1 := MapRegion(m, base, span);
    CopyFrame(m1, base, r.lo, span, phs, file);
    MapKeepsGranular(m, base, span);
    FixedGrow(m, m1);
    KeysKept(m1, CopySegments(m1, base, r.lo, phs, file));
  }

  lemma PlaceKeepsInv(st: State, name: string, phs: seq<Phdr>, file: seq<Byte>, base: U64, r: Range, arena: Arena)
    requires Inv(st) && GoodSegments(phs, file)
    requires r == SpanOf(phs) && r.lo < r.hi && (r.hi - r.lo) % GRANULE == 0
    requires base == LIBRARY_ADDRESS + st.libAlloc.offset && LibraryArenaOk(arena)
    requires arena.offset == st.libAlloc.offset + (r.hi - r.lo)
    ensures forall ph | ph in phs :: ContentsInFile(ph, file)
    ensures var after := PlaceLibrary(st.(libAlloc := arena), name, phs, file, base, r).0;
            && Inv(after) && Grows(st, after)
            && after == st.(libAlloc := arena, mem := after.mem, libs := after.libs)
            && (forall a | a in st.mem && !(base <= a < base + (r.hi - r.lo)) :: after.mem[a] == st.mem[a])
            && |after.libs| == |st.libs| + 1 && after.libs[..|st.libs|] == st.libs
            && after.libs[|st.libs|].base == base && SpanLength(after.libs[|st.libs|]) == r.hi - r.lo
  {
    hide GoodSegments, SpanOf, CopySegments, Describe, Granular, FixedRegions, MapRegion, LibrariesPlaced, RegistryOk,
      StubsReturn, HeapOk;
    PlacedMemory(st.mem, base, r, phs, file);
    var m := CopySegments(MapRegion(st.mem, base, r.hi - r.lo), base, r.lo, phs, file);
    var lib := Describe(m, name, base, r, DynamicAddr(base, r.lo, phs));
    DescribeFields(m, name, base, r, DynamicAddr(base, r.lo, phs));
    AddLibrary(st, m, arena, lib);
    hide Inv, Grows, LibraryArenaOk, DynamicAddr;
  }

  lemma AddLibrary(st: State, m: Mem, arena: Arena, lib: Lib)
    requires Inv(st) && Granular(m) && FixedRegions(m) && st.mem.Keys <= m.Keys
    requires forall a | a in st.mem && IMPORT_ADDRESS <= a < IMPORT_ADDRESS + IMPORT_SIZE :: m[a] == st.mem[a]
    requires LibraryArenaOk(arena) && arena.offset == st.libAlloc.offset + SpanLength(lib)
    requires lib.base == LIBRARY_ADDRESS + st.libAlloc.offset && SpanLength(lib) > 0
    ensures var after := st.(libAlloc := arena, mem := m, libs := st.libs + [lib]);
            Inv(after) && Grows(st, after)
  {
    hide Granular, FixedRegions, StubsReturn, RegistryOk, HeapOk;
    var after := st.(libAlloc := arena, mem := m, libs := st.libs + [lib]);
    StubsKept(st, after);
    RegistryIgnoresLibraries(st, m, arena, after.libs);
    assert forall i | 0 <= i < |st.libs| :: after.libs[i] == st.libs[i];
    assert LibrariesPlaced(after);
  }

  lemma RegistryIgnoresLibraries(st: State, m: Mem, arena: Arena, libs: seq<Lib>)
    requires RegistryOk(st)
    ensures RegistryOk(st.(libAlloc := arena, mem := m, libs := libs))
  {
  }

  lemma SegmentsKeepInv(st: State, name: string, phs: seq<Phdr>, file: seq<Byte>)
    requires Inv(st) && Loadable(st, phs, file) && forall ph | ph in phs :: ContentsInFile(ph, file)
    requires LoadSegments(st, name, phs, file).Continue?
    ensures var after := LoadSegments(st, name, phs, file).value.0;
            Inv(after) && Grows(st, after) && after.imports == st.imports
  {
    hide GoodSegments, SpanOf, Inv, PlaceLibrary, NoWrap, LibraryArenaOk, ContentsInFile, Grows, Alloc;
    var r := SpanOf(phs);
    if r.lo < r.hi {
      SpanAligned(phs);
      LibraryArenaIn(st);
      LibraryAlloc(st.libAlloc, r.hi - r.lo);
      var (base, arena) := Alloc(st.libAlloc, r.hi - r.lo).value;
      PlaceKeepsInv(st, name, phs, file, base, r, arena);
    } else {
      GrowsSelf(st);
    }
  }

  lemma LoadKeepsInv(st: State, name: string, file: seq<Byte>)
    requires Inv(st) && Allowed(st, Load(name, file)) && LoadLibrary(st, name, file).Continue?
    ensures var after := LoadLibrary(st, name, file).value.0;
            Inv(after) && Grows(st, after) && after.imports == st.imports
  {
    hide Inv, Grows, Loadable, LoadSegments, ContentsInFile;
    if Recognised(file) {
      SegmentsKeepInv(st, name, Phdrs(file), file);
    } else {
      GrowsSelf(st);
    }
  }

  lemma LibraryArenaIn(st: State)
    requires Inv(st)
    ensures LibraryArenaOk(st.libAlloc)
  {
  }

  // Relocating a library -----------------------------------------------------------------

  /** Settling a symbol keeps the invariant. */
  lemma SettleKeepsInv(st: State, r: Resolution)
    requires Inv(st) && Settle(st, r).Continue?
    ensures var after := Settle(st, r).value.0;
            Inv(after) && Grows(st, after) && after.mem.Keys == st.mem.Keys
  {
    if r.Unbound? {
      if r.isData {
        if r.name !in st.imports {
          hide NoWrap;
          DataKeepsInv(st, r.name);
        }
      } else {
        hide Inv;
        RegisterKeepsInv(st, r.name);
      }
    }
  }

  lemma DataKeepsInv(st: State, name: string)
    requires Inv(st) && HeapOk(st.heap) && name !in st.imports && RegisterData(st, name).Continue?
    ensures var after := RegisterData(st, name).value.0;
            Inv(after) && Grows(st, after) && after.mem.Keys == st.mem.Keys
  {
    hide NoWrap, Inv, Alloc, Grows;
    var ev := WriteBytes(Zeros(256));
    SmallNoWrap(st.heap, 256);
    DataIsHeapStep(st, name);
    HeapStepKeepsInv(st, ev, 256);
    hide HeapStep, RegisterData;
    var (st1, p) := HeapStep(st, ev, 256).value;
    BindHeapData(st, st1, name, p);
    GrowsByBinding(st, st1, name, p);
  }

  lemma GrowsByBinding(st: State, st1: State, name: string, p: nat)
    requires Grows(st, st1) && st1.imports == st.imports && name !in st.imports
    ensures Grows(st, st1.(imports := st.imports[name := p]))
  {
  }

  lemma DataIsHeapStep(st: State, name: string)
    requires name !in st.imports
    ensures RegisterData(st, name) ==
            match HeapStep(st, WriteBytes(Zeros(256)), 256)
            case Abort => Abort
            case Continue((st1, p)) => Continue((st1.(imports := st.imports[name := p]), p as nat))
  {
    hide Alloc, Write, Zeros;
  }

  lemma BindHeapData(st: State, st1: State, name: string, p: nat)
    requires Inv(st) && Inv(st1) && st1.imports == st.imports && name !in st.imports
    requires p == HEAP_ADDRESS + st.heap.offset && st.heap.offset < st1.heap.offset
    ensures Inv(st1.(imports := st.imports[name := p]))
  {
    hide Granular, FixedRegions, StubsReturn, LibrariesPlaced, LibraryArenaOk, HeapOk, RegistryOk;
    HeapBound(st1);
    var after := st1.(imports := st.imports[name := p]);
    HeapDataRegistry(st, st1, name, p);
    StubsIgnoreImports(st1, after.imports);
    PlacedSame(st1, after);
  }

  lemma HeapDataRegistry(st: State, st1: State, name: string, p: nat)
    requires RegistryOk(st) && RegistryOk(st1) && st1.imports == st.imports && name !in st.imports
    requires p == HEAP_ADDRESS + st.heap.offset && st.heap.offset < st1.heap.offset <= HEAP_SIZE
    ensures RegistryOk(st1.(imports := st.imports[name := p]))
  {
    StubsBelowNext(st);
    StubsBelowNext(st1);
    assert p !in st.stubs && p !in st1.stubs;
    assert forall n | n in st.imports :: st.imports[n] != p;
    hide IsStub;
  }

  lemma HeapBound(st: State)
    requires Inv(st)
    ensures st.heap.offset <= HEAP_SIZE
  {
  }

  lemma StubsIgnoreImports(st: State, imports: map<string, nat>)
    requires StubsReturn(st)
    ensures StubsReturn(st.(imports := imports))
  {
  }

  lemma PlacedSame(st: State, after: State)
    requires LibrariesPlaced(st) && after.libs == st.libs && after.libAlloc == st.libAlloc
    ensures LibrariesPlaced(after)
  {
  }

  lemma SmallNoWrap(ar: Arena, n: U64)
    requires HeapOk(ar) && n <= 0x1_0000_0000
    ensures NoWrap(ar, n)
  {
    AlignedSizeBounds(ar, n);
  }

  lemma GrowsTrans(a: State, b: State, c: State)
    requires Grows(a, b) && Grows(b, c)
    ensures Grows(a, c)
  {
  }

  lemma LinkReadyIn(st: State)
    requires Inv(st)
    ensures LinkReady(st)
  {
  }

  /** Storing an entry's word keeps the invariant: its target lies below the heap. */
  lemma StoreKeepsInv(st: State, lib: Lib, nsyms: nat, e: Entry, v: U64)
    requires Inv(st) && Active(e) && Clear(st.mem, lib, nsyms, e)
    ensures Inv(StoreWord(st, Target(lib, e), v)) && Grows(st, StoreWord(st, Target(lib, e), v))
  {
    hide Inv, InTables, Target, ToLE;
    MemoryChange(st, Write(st.mem, Target(lib, e), ToLE(v, 8)));
  }

  lemma ClearSame(m0: Mem, m: Mem, lib: Lib, nsyms: nat, e: Entry)
    requires Clear(m0, lib, nsyms, e) && m.Keys == m0.Keys
    ensures Clear(m, lib, nsyms, e)
  {
    hide InTables, Target;
  }

  lemma EntryKeepsInv(m0: Mem, st: State, lib: Lib, nsyms: nat, e: Entry)
    requires Inv(st) && TablesWellFormed(m0, lib, nsyms) && TablesKept(m0, st.mem, lib, nsyms)
    requires Clear(m0, lib, nsyms, e) && StepEntry(st, lib, e).Continue?
    ensures var after := StepEntry(st, lib, e).value;
            Inv(after) && Grows(st, after)
  {
    hide Inv, TablesWellFormed, Target, Grows, StoreWord, Settle, Clear;
    StepUnfolds(m0, st, lib, nsyms, e);
    KeysOfKept(m0, st.mem, lib, nsyms);
    hide StepEntry, TablesKept, Meaning, VaddrIn;
    ClearSame(m0, st.mem, lib, nsyms, e);
    if e.kind == R_RELATIVE {
      StoreKeepsInv(st, lib, nsyms, e, VaddrIn(lib, e.addend));
    } else if Symbolic(e) {
      var r := Meaning(m0, st.libs, lib, e);
      SettleKeepsInv(st, r);
      var (st1, a) := Settle(st, r).value;
      if a != 0 {
        ClearSame(st.mem, st1.mem, lib, nsyms, e);
        StoreKeepsInv(st1, lib, nsyms, e, Wrap(a + e.addend));
        GrowsTrans(st, st1, StoreWord(st1, Target(lib, e), Wrap(a + e.addend)));
      }
    } else {
      GrowsSelf(st);
    }
  }

  lemma GrowsSelf(st: State)
    ensures Grows(st, st)
  {
  }

  lemma KeysOfKept(m0: Mem, m: Mem, lib: Lib, nsyms: nat)
    requires TablesKept(m0, m, lib, nsyms)
    ensures m.Keys == m0.Keys
  {
  }

  lemma {:induction false} EntriesKeepInv(m0: Mem, st: State, lib: Lib, nsyms: nat, es: seq<Entry>)
    requires Inv(st) && TablesWellFormed(m0, lib, nsyms) && TablesKept(m0, st.mem, lib, nsyms)
    requires forall e | e in es :: Clear(m0, lib, nsyms, e)
    requires ApplyEntries(st, lib, es).Continue?
    ensures var after := ApplyEntries(st, lib, es).value;
            Inv(after) && Grows(st, after)
    decreases |es|
  {
    hide Inv, TablesWellFormed, TablesKept, Clear, StepEntry, Grows, LinkReady;
    if es == [] {
      GrowsSelf(st);
    } else {
      LinkReadyIn(st);
      EntryKeepsInv(m0, st, lib, nsyms, es[0]);
      StepSpec(m0, st, lib, nsyms, es[0]);
      var st1 := StepEntry(st, lib, es[0]).value;
      EntriesKeepInv(m0, st1, lib, nsyms, es[1..]);
      GrowsTrans(st, st1, ApplyEntries(st1, lib, es[1..]).value);
    }
  }

  lemma RelocateKeepsInv(st: State, lib: Lib, nsyms: nat)
    requires Inv(st) && Relocatable(st.mem, lib, nsyms) && ApplyRelocations(st, lib).Continue?
    ensures var after := ApplyRelocations(st, lib).value;
            Inv(after) && Grows(st, after) && after.libs == st.libs
  {
    hide Inv, Grows, LinkReady, ApplyRelocations, ApplyEntries, Entries, TablesWellFormed, Clear, Relocated,
      PairwiseApart;
    LinkReadyIn(st);
    RelocationIsEntries(st, lib, nsyms);
    RelocationMeetsSpec(st, lib, nsyms);
    EntriesKeepInv(st.mem, st, lib, nsyms, Entries(st.mem, lib));
  }

  // Every event, every run ---------------------------------------------------------------

  predicate IsHeapEvent(ev: Event) {
    ev.Malloc? || ev.Calloc? || ev.Realloc? || ev.WriteBytes? || ev.AllocateException? || ev.HeapAllocate?
  }

  lemma HeapEventKeepsInv(st: State, ev: Event)
    requires Inv(st) && IsHeapEvent(ev) && Allowed(st, ev) && Step(st, ev).Continue?
    ensures var after := Step(st, ev).value.0; Inv(after) && Grows(st, after)
  {
    hide Inv, Grows, BlockContents, NoWrap, HeapStep;
    if HeapRequest(ev).Some? {
      ContentsFit(st.mem, ev);
      HeapStepKeepsInv(st, ev, HeapRequest(ev).value);
    } else {
      GrowsSelf(st);
    }
  }

  lemma GuestWriteKeepsInv(st: State, a: U64, data: seq<Byte>)
    requires Inv(st) && Allowed(st, GuestWrite(a, data))
    ensures var after := st.(mem := Write(st.mem, a, data)); Inv(after) && Grows(st, after)
  {
    hide Inv;
    MemoryChange(st, Write(st.mem, a, data));
  }

  /** Every allowed event keeps the machine's invariant, adds bindings only, and unmaps nothing. */
  lemma StepKeepsInv(st: State, ev: Event)
    requires Inv(st) && Allowed(st, ev) && Step(st, ev).Continue?
    ensures var after := Step(st, ev).value.0; Inv(after) && Grows(st, after)
  {
    hide Inv, Grows, GoodSegments, Relocatable, ApplyRelocations, LoadLibrary, MemInvalid, Write, RegisterImport,
      InFile, SpanOf, Phdrs;
    match ev
    case DlsymCall(name) =>
      GrowsSelf(st);
      RegisterKeepsInv(st, name);
    case GuestWrite(a, data) => GuestWriteKeepsInv(st, a, data);
    case Fault(kind, a) => FaultKeepsInv(st, kind, a);
    case Load(name, file) => LoadKeepsInv(st, name, file);
    case Relocate(i, nsyms) => RelocateKeepsInv(st, st.libs[i], nsyms);
    case _ => HeapEventKeepsInv(st, ev);
  }

  /** A run, or the point at which the process ended. */
  function Run(st: State, evs: seq<Event>): Outcome<State>
    requires forall ev | ev in evs :: ev.Load? ==> InFile(ev.file)
    decreases |evs|
  {
    if evs == [] then Continue(st)
    else if evs[0].Relocate? && evs[0].index >= |st.libs| then Abort
    else
      var (st1, _) :- Step(st, evs[0]);
      Run(st1, evs[1..])
  }

  ghost predicate AllowedRun(st: State, evs: seq<Event>)
    decreases |evs|
  {
    evs == [] ||
    (Allowed(st, evs[0]) && (Step(st, evs[0]).Continue? ==> AllowedRun(Step(st, evs[0]).value.0, evs[1..])))
  }

  /** The invariant holds in every reachable state. */
  lemma {:induction false} RunKeepsInv(st: State, evs: seq<Event>)
    requires Inv(st) && AllowedRun(st, evs)
    requires forall ev | ev in evs :: ev.Load? ==> InFile(ev.file)
    requires Run(st, evs).Continue?
    ensures Inv(Run(st, evs).value) && Grows(st, Run(st, evs).value)
    decreases |evs|
  {
    hide Inv, Grows, Step, Allowed, InFile;
    if evs == [] {
      GrowsSelf(st);
    } else {
      StepKeepsInv(st, evs[0]);
      var st1 := Step(st, evs[0]).value.0;
      RunKeepsInv(st1, evs[1..]);
      GrowsTrans(st, st1, Run(st1, evs[1..]).value);
    }
  }
}
