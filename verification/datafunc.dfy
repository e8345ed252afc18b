/** Undefined symbols of a whole program, from the bytes of their tables to what
    their words hold once everything is linked: a function's leads to a hooked
    stub that routes back to its name, an object's to 256 zero bytes of the heap. */
module DataOrFunction {
  import opened Words
  import opened GuestMemory
  import opened PageAlloc
  import opened VmState
  import opened Resolver
  import opened Relocation
  import opened Image
  import opened Runtime
  import opened Dispatch
  import opened Position
  import opened LinkAll
  import opened LinkedSlots
  import opened HostRelocation
  import opened TableBytes
  import opened SymbolBytes

  // A name bound as data stays on zero bytes --------------------------------------------------------

  /** 256 zero bytes of the heap that was still free at `from`. */
  ghost predicate ZeroBlock(m: Mem, p: int, from: nat, end: nat) {
    && HEAP_ADDRESS + from <= p && p % 64 == 0 && p + 256 <= HEAP_ADDRESS + end
    && forall a | p <= a < p + 256 :: a in m && m[a] == 0
  }

  ghost predicate BoundToZeros(st: State, name: string, from: nat) {
    && HeapOk(st.heap) && Mapped(st.mem, HEAP_ADDRESS, HEAP_SIZE) && st.next >= IMPORT_ADDRESS
    && from <= st.heap.offset
    && (name in st.imports ==> ZeroBlock(st.mem, st.imports[name], from, st.heap.offset))
  }

  /** Writes elsewhere leave it so. */
  lemma ZerosKept(st: State, after: State, name: string, from: nat)
    requires BoundToZeros(st, name, from) && HeapOk(after.heap) && st.heap.offset <= after.heap.offset
    requires after.mem.Keys == st.mem.Keys && after.next >= IMPORT_ADDRESS
    requires name in after.imports ==> name in st.imports && after.imports[name] == st.imports[name]
    requires forall a | a in st.mem && HEAP_ADDRESS <= a < HEAP_ADDRESS + st.heap.offset :: after.mem[a] == st.mem[a]
    ensures BoundToZeros(after, name, from)
  {
  }

  lemma SettleZeros(st: State, r: Resolution, name: string, from: nat)
    requires BoundToZeros(st, name, from) && r != Unbound(name, false) && Settle(st, r).Continue?
    ensures BoundToZeros(Settle(st, r).value.0, name, from)
  {
    hide RET_BYTES;
    var after := Settle(st, r).value.0;
    if r.Unbound? && r.name !in st.imports {
      if r.isData {
        NewBlock(st, r.name, name, from);
      } else {
        ZerosKept(st, after, name, from);
      }
    } else {
      assert after == st;
    }
  }

  lemma NewBlock(st: State, bound: string, name: string, from: nat)
    requires BoundToZeros(st, name, from) && bound !in st.imports && RegisterData(st, bound).Continue?
    ensures BoundToZeros(RegisterData(st, bound).value.0, name, from)
  {
    HeapAlloc(st.heap, 256);
    NoWrapHere(st.heap);
    var (p, heap) := Alloc(st.heap, 256).value;
    hide Alloc, NoWrap;
    var after := RegisterData(st, bound).value.0;
    assert Mapped(st.mem, p, 256);
    if bound == name {
      assert forall a | p <= a < p + 256 :: after.mem[a] == Zeros(256)[a - p];
    } else {
      ZerosKept(st, after, name, from);
    }
  }

  lemma NoWrapHere(ar: Arena)
    requires HeapOk(ar)
    ensures NoWrap(ar, 256)
  {
    AlignedSizeBounds(ar, 256);
  }

  /** None of these entries binds the name as a function. */
  ghost predicate NeverFunction(m0: Mem, libs: seq<Lib>, lib: Lib, es: seq<Entry>, name: string) {
    forall e | e in es && Symbolic(e) :: Meaning(m0, libs, lib, e) != Unbound(name, false)
  }

  lemma StepZeros(m0: Mem, st: State, lib: Lib, nsyms: nat, e: Entry, name: string, from: nat)
    requires LinkReady(st) && TablesWellFormed(m0, lib, nsyms) && TablesKept(m0, st.mem, lib, nsyms)
    requires Clear(m0, lib, nsyms, e) && StepEntry(st, lib, e).Continue?
    requires BoundToZeros(st, name, from) && NeverFunction(m0, st.libs, lib, [e], name)
    ensures BoundToZeros(StepEntry(st, lib, e).value, name, from)
  {
    StepUnfolds(m0, st, lib, nsyms, e);
    assert e in [e];
    hide StepEntry, LinkReady, TablesWellFormed, TablesKept, Settle, Meaning, Target, BoundToZeros, InTables, ToLE;
    if Symbolic(e) {
      var r := Settle(st, Meaning(m0, st.libs, lib, e)).value;
      SettleZeros(st, Meaning(m0, st.libs, lib, e), name, from);
      StoreZeros(r.0, Target(lib, e), Wrap(r.1 + e.addend), name, from);
    } else if e.kind == R_RELATIVE {
      StoreZeros(st, Target(lib, e), VaddrIn(lib, e.addend), name, from);
    }
  }

  lemma StoreZeros(st: State, t: U64, v: U64, name: string, from: nat)
    requires BoundToZeros(st, name, from) && t + 8 <= HEAP_ADDRESS
    ensures BoundToZeros(StoreWord(st, t, v), name, from)
  {
    hide BoundToZeros, ToLE;
    HeapIn(st, name, from);
    ZerosKept(st, StoreWord(st, t, v), name, from);
  }

  lemma HeapIn(st: State, name: string, from: nat)
    requires BoundToZeros(st, name, from)
    ensures HeapOk(st.heap) && st.next >= IMPORT_ADDRESS
  {
  }

  lemma {:induction false} EntriesZeros(m0: Mem, st: State, lib: Lib, nsyms: nat, es: seq<Entry>, name: string,
                                        from: nat)
    requires LinkReady(st) && TablesWellFormed(m0, lib, nsyms) && TablesKept(m0, st.mem, lib, nsyms)
    requires forall e | e in es :: Clear(m0, lib, nsyms, e)
    requires NeverFunction(m0, st.libs, lib, es, name) && BoundToZeros(st, name, from)
    requires ApplyEntries(st, lib, es).Continue?
    ensures BoundToZeros(ApplyEntries(st, lib, es).value, name, from)
    decreases |es|
  {
    hide LinkReady, TablesWellFormed, TablesKept, Clear, StepEntry, Meaning, BoundToZeros;
    if es != [] {
      assert es[0] in es;
      StepSpec(m0, st, lib, nsyms, es[0]);
      StepZeros(m0, st, lib, nsyms, es[0], name, from);
      EntriesZeros(m0, StepEntry(st, lib, es[0]).value, lib, nsyms, es[1..], name, from);
    }
  }

  // A whole program -------------------------------------------------------------------------------------

  ghost predicate NowhereFunction(m0: Mem, libs: seq<Lib>, name: string) {
    forall lib | lib in libs :: NeverFunction(m0, libs, lib, Entries(m0, lib), name)
  }

  lemma LibraryZeros(m0: Mem, st: State, libs: seq<Lib>, shares: seq<Share>, i: nat, name: string, from: nat)
    requires AllLinkable(m0, libs, shares) && i < |libs| && Progress(m0, st, libs, shares, i)
    requires NowhereFunction(m0, libs, name) && BoundToZeros(st, name, from)
    requires ApplyRelocations(st, libs[i]).Continue?
    ensures BoundToZeros(ApplyRelocations(st, libs[i]).value, name, from)
  {
    hide ApplyRelocations, ApplyEntries, ShareKept, ShareRelocated, SharesApart, Clear, TablesWellFormed, TablesKept,
      Entries, PairwiseApart, TablesInside, Target, NeverFunction, LinkReady, BoundToZeros;
    var lib, s := libs[i], shares[i];
    assert Linkable(m0, lib, s) && ShareKept(m0, st.mem, lib, s);
    KeptLinkable(m0, st.mem, lib, s);
    KeptTables(m0, st.mem, lib, s);
    RelocationIsEntries(st, lib, s.nsyms);
    assert lib in libs;
    EntriesZeros(m0, st, lib, s.nsyms, Entries(m0, lib), name, from);
  }

  lemma {:induction false} LinkZeros(m0: Mem, st: State, libs: seq<Lib>, shares: seq<Share>, i: nat, name: string,
                                     from: nat)
    requires AllLinkable(m0, libs, shares) && i <= |libs| && Progress(m0, st, libs, shares, i)
    requires NowhereFunction(m0, libs, name) && BoundToZeros(st, name, from) && RelocateFrom(st, libs, i).Continue?
    ensures BoundToZeros(RelocateFrom(st, libs, i).value, name, from)
    decreases |libs| - i
  {
    hide ApplyRelocations, AllLinkable, Progress, NowhereFunction, BoundToZeros;
    if i < |libs| {
      LinkableLength(m0, libs, shares);
      LibraryZeros(m0, st, libs, shares, i, name, from);
      OneMore(m0, st, libs, shares, i);
      LinkZeros(m0, ApplyRelocations(st, libs[i]).value, libs, shares, i + 1, name, from);
    }
  }

  // From the bytes on -------------------------------------------------------------------------------------

  /** Symbol `idx` of a library is called `name`. */
  ghost predicate SymbolNamed(m: Mem, lib: Lib, idx: U32, name: string) {
    var r := RawSymbolAt(m, SymbolPlace(lib, idx));
    Mapped(m, SymbolPlace(lib, idx), 24) && 0 <= r.name < 0x1_0000_0000 && NameAt(m, lib, r.name) == name
  }

  /** Wherever a symbol of that name has the type, or wherever it has not. */
  ghost predicate AlwaysObject(m: Mem, libs: seq<Lib>, name: string, isObject: bool) {
    forall lib, idx: U32 | lib in libs && SymbolNamed(m, lib, idx, name) ::
      (Type(RawSymbolAt(m, SymbolPlace(lib, idx))) == 1) == isObject
  }

  /** An entry for an undefined symbol of that name, which no library defines. */
  ghost predicate References(m: Mem, libs: seq<Lib>, lib: Lib, r: RawEntry, name: string) {
    && lib in libs && r in Raw(m, lib) && ByName(r)
    && Mapped(m, SymbolPlace(lib, SymbolIndex(r)), 24)
    && Called(m, lib, RawSymbolAt(m, SymbolPlace(lib, SymbolIndex(r))), name)
    && Undefined(RawSymbolAt(m, SymbolPlace(lib, SymbolIndex(r))))
    && NowhereDefined(libs, name)
  }

  /** The tables are mapped. */
  ghost predicate TablesMapped(m: Mem, lib: Lib) {
    && (lib.rela != 0 ==> Mapped(m, lib.rela, lib.relasz) && lib.relasz % 24 == 0)
    && (lib.jmprel != 0 ==> Mapped(m, lib.jmprel, lib.pltrelsz) && lib.pltrelsz % 24 == 0)
  }

  /** The decoded entry of a raw one. */
  lemma EntryOf(m: Mem, lib: Lib, r: RawEntry) returns (e: Entry)
    requires TablesMapped(m, lib) && r in Raw(m, lib)
    ensures e in Entries(m, lib) && Agrees(e, r) && r.addend == Some(e.addend)
  {
    hide Entries, Raw;
    EntriesAreRaw(m, lib);
    var i :| 0 <= i < |Raw(m, lib)| && Raw(m, lib)[i] == r;
    e := Entries(m, lib)[i];
  }

  lemma ReferenceMeans(m: Mem, libs: seq<Lib>, lib: Lib, r: RawEntry, e: Entry, name: string)
    requires References(m, libs, lib, r, name) && Agrees(e, r)
    ensures Symbolic(e) && e.sym == SymbolIndex(r)
    ensures Meaning(m, libs, lib, e) ==
              Unbound(name, NamesData(RawSymbolAt(m, SymbolPlace(lib, SymbolIndex(r))), name))
  {
    SameTarget(lib, e, r);
    hide RawSymbolAt, SymbolPlace, Called, Undefined, NowhereDefined, NamesData, Classify, Symbolic, ByName, Raw,
      Target, Spot;
    NamedSymbol(m, libs, lib, SymbolIndex(r), name);
  }

  /** What kind a name is bound as is decided by its symbols' types, unless it is listed. */
  lemma KindOfName(m: Mem, libs: seq<Lib>, lib: Lib, e: Entry, name: string, isData: bool, isObject: bool)
    requires lib in libs && AlwaysObject(m, libs, name, isObject)
    requires Meaning(m, libs, lib, e) == Unbound(name, isData)
    ensures isData == (isObject || Listed(name))
  {
    hide Classify, RawSymbolAt, SymbolPlace, Listed;
    DataReference(m, libs, lib, e.sym, name, isData);
    assert SymbolNamed(m, lib, e.sym, name);
  }

  lemma NeverAsData(m: Mem, st: State, libs: seq<Lib>, name: string)
    requires AlwaysObject(m, libs, name, false) && !Listed(name)
    requires name in st.imports ==> st.imports[name] in st.stubs
    ensures NowhereData(m, st, libs, name)
  {
    hide Entries, Meaning, AlwaysObject, Listed;
    forall lib, e | lib in libs && e in Entries(m, lib) && Symbolic(e)
      ensures Meaning(m, libs, lib, e) != Unbound(name, true)
    {
      if Meaning(m, libs, lib, e) == Unbound(name, true) {
        KindOfName(m, libs, lib, e, name, true, false);
      }
    }
  }

  lemma NeverAsFunction(m: Mem, libs: seq<Lib>, name: string)
    requires AlwaysObject(m, libs, name, true) || Listed(name)
    ensures NowhereFunction(m, libs, name)
  {
    hide Entries, Meaning, AlwaysObject, Listed, NamesData, RawSymbolAt, SymbolPlace;
    forall lib, e | lib in libs && e in Entries(m, lib) && Symbolic(e)
      ensures Meaning(m, libs, lib, e) != Unbound(name, false)
    {
      if Meaning(m, libs, lib, e) == Unbound(name, false) {
        if Listed(name) {
          ListedIsData(m, libs, lib, e, name);
        } else {
          KindOfName(m, libs, lib, e, name, false, true);
        }
      }
    }
  }

  lemma ListedIsData(m: Mem, libs: seq<Lib>, lib: Lib, e: Entry, name: string)
    requires Listed(name)
    ensures Meaning(m, libs, lib, e) != Unbound(name, false)
  {
    hide Classify, RawSymbolAt, SymbolPlace, Listed, NameAt;
    if Meaning(m, libs, lib, e) == Unbound(name, false) {
      DataReference(m, libs, lib, e.sym, name, false);
    }
  }

  /** The word of an entry whose name is bound to a non-zero address. */
  lemma BoundWord(m0: Mem, m: Mem, libs: seq<Lib>, lib: Lib, s: Share, imports: map<string, nat>, r: RawEntry,
                  e: Entry, name: string, isData: bool)
    requires ShareRelocated(m0, m, libs, lib, s, imports) && e in Entries(m0, lib) && Symbolic(e)
    requires Agrees(e, r) && r.addend == Some(e.addend) && Meaning(m0, libs, lib, e) == Unbound(name, isData)
    ensures name in imports
    ensures imports[name] != 0 ==>
              PeekWord(m, Spot(lib, r)) == (imports[name] + r.addend.value) % 0x1_0000_0000_0000_0000
  {
    hide Entries, Meaning, Target, ToLE, Read, PeekWord, Spot, Agrees;
    assert Bound(Meaning(m0, libs, lib, e), imports);
    if imports[name] != 0 {
      SlotHolds(m0, m, libs, lib, s, imports, e);
      SameTarget(lib, e, r);
      WordStored(m, Target(lib, e), Value(m0, libs, lib, e, imports));
    }
  }

  /** A stub that runs the hook of `name`: it lies in the hooked range, holds
      the AArch64 return instruction and is routed back to the name. */
  ghost predicate StubOf(st: State, a: nat, name: string) {
    && 0x8000_0000 <= a < 0x8001_0000
    && Peek(st.mem, a, 4) == [0xC0, 0x03, 0x5F, 0xD6]
    && a in st.stubs && st.stubs[a] == name
  }

  lemma RouteIsStub(st: State, a: nat, name: string)
    requires RoutesTo(st, a, name)
    ensures StubOf(st, a, name)
  {
    ReturnInstruction();
    hide RET_BYTES;
    assert Slice(st.mem, a, 4) == Peek(st.mem, a, 4);
  }

  lemma ReturnInstruction()
    ensures RET_BYTES == [0xC0, 0x03, 0x5F, 0xD6]
  {
    var w: nat := 0xD65F_03C0;
    assert ToLE(w, 4) == [w % 256] + ToLE(w / 256, 3);
    assert ToLE(w / 256, 3) == [w / 256 % 256] + ToLE(w / 256 / 256, 2);
    assert ToLE(w / 256 / 256, 2) == [w / 256 / 256 % 256] + ToLE(w / 256 / 256 / 256, 1);
    assert ToLE(w / 256 / 256 / 256, 1) == [w / 256 / 256 / 256 % 256] + ToLE(0, 0);
  }

  /** Main result: when an undefined symbol's type is not 1 and its name is not
      listed, every word that refers to it holds, once all libraries are linked,
      a stub of that very name, plus the entry's addend. */
  lemma FunctionLeadsToStub(st: State, shares: seq<Share>, j: nat, r: RawEntry, name: string)
    requires Inv(st) && AllLinkable(st.mem, st.libs, shares) && RelocateFrom(st, st.libs, 0).Continue?
    requires j < |st.libs| && TablesMapped(st.mem, st.libs[j]) && References(st.mem, st.libs, st.libs[j], r, name)
    requires AlwaysObject(st.mem, st.libs, name, false) && !Listed(name)
    requires name in st.imports ==> st.imports[name] in st.stubs
    requires RelocateFrom(st, st.libs, 0).value.next <= 0x8001_0000
    ensures var after := RelocateFrom(st, st.libs, 0).value;
            && name in after.imports && StubOf(after, after.imports[name], name)
            && r.addend.Some?
            && PeekWord(after.mem, Spot(st.libs[j], r)) ==
                 (after.imports[name] + r.addend.value) % 0x1_0000_0000_0000_0000
  {
    hide Inv, AllLinkable, RelocateFrom, Entries, Meaning, RoutesTo, NowhereData, Progress, LinkReady, InShare,
      ShareRelocated, References, Agrees, Spot, PeekWord, StubOf, TablesMapped, AlwaysObject, Listed, Raw;
    var lib, after := st.libs[j], RelocateFrom(st, st.libs, 0).value;
    assert r in Raw(st.mem, lib) by { ReferenceIn(st.mem, st.libs, lib, r, name); }
    var e := EntryOf(st.mem, lib, r);
    ReferenceMeans(st.mem, st.libs, lib, r, e, name);
    NeverAsData(st.mem, st, st.libs, name);
    LinkableLength(st.mem, st.libs, shares);
    LinkReadyIn(st);
    StartOfLink(st, shares);
    LinkKeepsInv(st.mem, st, st.libs, shares, 0, name);
    AllRelocated(st, shares);
    BoundWord(st.mem, after.mem, st.libs, lib, shares[j], after.imports, r, e, name,
              NamesData(RawSymbolAt(st.mem, SymbolPlace(lib, SymbolIndex(r))), name));
    BoundStubRoutes(after, name);
    RoutesInRange(after, after.imports[name], name);
    RouteIsStub(after, after.imports[name], name);
  }

  lemma ReferenceIn(m: Mem, libs: seq<Lib>, lib: Lib, r: RawEntry, name: string)
    requires References(m, libs, lib, r, name)
    ensures r in Raw(m, lib) && lib in libs
  {
  }

  /** Main result: when its type is 1 or its name is listed, every such word
      holds the address of 256 zero bytes of the heap, plus the addend. */
  lemma ObjectLeadsToZeros(st: State, shares: seq<Share>, j: nat, r: RawEntry, name: string)
    requires Inv(st) && AllLinkable(st.mem, st.libs, shares) && RelocateFrom(st, st.libs, 0).Continue?
    requires j < |st.libs| && TablesMapped(st.mem, st.libs[j]) && References(st.mem, st.libs, st.libs[j], r, name)
    requires AlwaysObject(st.mem, st.libs, name, true) || Listed(name)
    requires name !in st.imports
    ensures var after := RelocateFrom(st, st.libs, 0).value;
            && name in after.imports && r.addend.Some?
            && var p := after.imports[name];
               && 0x4800_0000 + st.heap.offset <= p && p % 64 == 0 && p + 256 <= 0x6800_0000
               && (forall a | p <= a < p + 256 :: a in after.mem && after.mem[a] == 0)
               && PeekWord(after.mem, Spot(st.libs[j], r)) == (p + r.addend.value) % 0x1_0000_0000_0000_0000
  {
    hide Inv, AllLinkable, RelocateFrom, Entries, Meaning, NowhereFunction, Progress, LinkReady, InShare,
      ShareRelocated, References, Agrees, Spot, PeekWord, TablesMapped, AlwaysObject, Listed, Raw, BoundToZeros;
    var lib, after := st.libs[j], RelocateFrom(st, st.libs, 0).value;
    ReferenceIn(st.mem, st.libs, lib, r, name);
    var e := EntryOf(st.mem, lib, r);
    ReferenceMeans(st.mem, st.libs, lib, r, e, name);
    NeverAsFunction(st.mem, st.libs, name);
    LinkableLength(st.mem, st.libs, shares);
    LinkReadyIn(st);
    StartOfLink(st, shares);
    ZerosAtFirst(st, name);
    LinkZeros(st.mem, st, st.libs, shares, 0, name, st.heap.offset);
    AllRelocated(st, shares);
    BoundWord(st.mem, after.mem, st.libs, lib, shares[j], after.imports, r, e, name,
              NamesData(RawSymbolAt(st.mem, SymbolPlace(lib, SymbolIndex(r))), name));
    ZerosAre(after, name, st.heap.offset);
  }

  lemma ZerosAtFirst(st: State, name: string)
    requires Inv(st) && name !in st.imports
    ensures BoundToZeros(st, name, st.heap.offset)
  {
    hide Granular, StubsReturn, LibraryArenaOk, LibrariesPlaced;
  }

  lemma ZerosAre(st: State, name: string, from: nat)
    requires BoundToZeros(st, name, from) && name in st.imports
    ensures var p := st.imports[name];
            && 0x4800_0000 + from <= p && p % 64 == 0 && p + 256 <= 0x6800_0000
            && forall a | p <= a < p + 256 :: a in st.mem && st.mem[a] == 0
  {
  }
}
