/** Where bound names lead: from a relocated slot through its stub back to the
    name, and the agreement of load-time and run-time resolution. */
module Dispatch {
  import opened Words
  import opened GuestMemory
  import opened VmState
  import opened SymbolNames
  import opened Resolver
  import opened Relocation
  import opened Image
  import opened Runtime

  /** `import_callback_router`: the name whose hook runs at an address, if any. */
  function Router(st: State, address: nat): Option<string> {
    if address in st.stubs then Some(st.stubs[address]) else None
  }

  /** A name bound to a stub inside the hooked range that returns and routes back to it. */
  ghost predicate RoutesTo(st: State, a: nat, name: string) {
    && IMPORT_ADDRESS <= a < IMPORT_ADDRESS + IMPORT_SIZE
    && Read(st.mem, a, 4) == Some(RET_BYTES)
    && Router(st, a) == Some(name)
  }

  /** The first 8192 stubs, and only those, lie inside the hooked range. */
  lemma StubHookedIff(st: State, a: nat)
    requires RegistryOk(st) && a in st.stubs
    ensures a < IMPORT_ADDRESS + IMPORT_SIZE <==> (a - IMPORT_ADDRESS) / 8 < 8192
    ensures a < IMPORT_ADDRESS + IMPORT_SIZE <==> a + 4 <= IMPORT_ADDRESS + IMPORT_SIZE
  {
    assert IsStub(st.next, a);
  }

  lemma BoundStubRoutes(st: State, name: string)
    requires Inv(st) && name in st.imports && st.imports[name] in st.stubs
    requires st.next <= IMPORT_ADDRESS + IMPORT_SIZE
    ensures RoutesTo(st, st.imports[name], name)
  {
    hide Granular, FixedRegions, HeapOk, LibraryArenaOk, LibrariesPlaced;
    var a := st.imports[name];
    assert IsStub(st.next, a);
    StubHookedIff(st, a);
    assert st.stubs[a] == name;
  }

  /** A name is not, and will not be, bound as data by these entries. */
  ghost predicate NeverData(m0: Mem, libs: seq<Lib>, lib: Lib, es: seq<Entry>, imports: map<string, nat>,
                            stubs: map<nat, string>, name: string) {
    && (name in imports ==> imports[name] in stubs)
    && forall e | e in es && Symbolic(e) :: Meaning(m0, libs, lib, e) != Unbound(name, true)
  }

  lemma SettleBindsStub(st: State, r: Resolution, name: string)
    requires Settle(st, r).Continue? && r != Unbound(name, true)
    requires name in st.imports ==> st.imports[name] in st.stubs
    ensures var after := Settle(st, r).value.0;
            && after.libs == st.libs
            && (name in after.imports ==> after.imports[name] in after.stubs)
  {
    hide RET_BYTES, Write;
  }

  lemma {:induction false} EntriesBindStub(m0: Mem, st: State, lib: Lib, nsyms: nat, es: seq<Entry>, name: string)
    requires LinkReady(st) && TablesWellFormed(m0, lib, nsyms) && TablesKept(m0, st.mem, lib, nsyms)
    requires forall e | e in es :: Clear(m0, lib, nsyms, e)
    requires NeverData(m0, st.libs, lib, es, st.imports, st.stubs, name)
    requires ApplyEntries(st, lib, es).Continue?
    ensures var after := ApplyEntries(st, lib, es).value;
            name in after.imports ==> after.imports[name] in after.stubs
    decreases |es|
  {
    hide LinkReady, TablesWellFormed, TablesKept, Clear, StepEntry, Settle, Meaning, Target;
    if es != [] {
      var e := es[0];
      assert e in es;
      StepUnfolds(m0, st, lib, nsyms, e);
      StepSpec(m0, st, lib, nsyms, e);
      if Symbolic(e) {
        SettleBindsStub(st, Meaning(m0, st.libs, lib, e), name);
      }
      EntriesBindStub(m0, StepEntry(st, lib, e).value, lib, nsyms, es[1..], name);
    }
  }

  /** Main result: relocating an undefined function symbol that nothing binds
      as data leaves its slot holding the address of a stub that returns and
      that the router maps back to exactly that name. */
  lemma SlotReachesName(st: State, lib: Lib, nsyms: nat, i: nat, name: string)
    requires Inv(st) && Relocatable(st.mem, lib, nsyms) && ApplyRelocations(st, lib).Continue?
    requires i < |Entries(st.mem, lib)|
    requires var e := Entries(st.mem, lib)[i];
             e.kind == R_JUMP_SLOT && e.addend == 0 && Meaning(st.mem, st.libs, lib, e) == Unbound(name, false)
    requires NeverData(st.mem, st.libs, lib, Entries(st.mem, lib), st.imports, st.stubs, name)
    requires ApplyRelocations(st, lib).value.next <= IMPORT_ADDRESS + IMPORT_SIZE
    ensures var after := ApplyRelocations(st, lib).value;
            && name in after.imports
            && Read(after.mem, Target(lib, Entries(st.mem, lib)[i]), 8) == Some(ToLE(after.imports[name], 8))
            && RoutesTo(after, after.imports[name], name)
  {
    hide Inv, TablesWellFormed, Clear, ApplyEntries, ApplyRelocations, Entries, EntriesFrom, PairwiseApart, NeverData,
      RoutesTo, Target, Grows, LinkReady;
    var e, es := Entries(st.mem, lib)[i], Entries(st.mem, lib);
    LinkReadyIn(st);
    TablesKeptSelf(st.mem, lib, nsyms);
    RelocationIsEntries(st, lib, nsyms);
    RelocationMeetsSpec(st, lib, nsyms);
    RelocateKeepsInv(st, lib, nsyms);
    EntriesBindStub(st.mem, st, lib, nsyms, es, name);
    hide TablesKept, Meaning;
    var after := ApplyRelocations(st, lib).value;
    assert Bound(Meaning(st.mem, st.libs, lib, e), after.imports);
    BoundStubRoutes(after, name);
    assert IMPORT_ADDRESS <= after.imports[name] < IMPORT_ADDRESS + IMPORT_SIZE by {
      RoutesInRange(after, after.imports[name], name);
    }
    SlotValue(st.mem, st.libs, lib, e, after.imports, name);
  }

  lemma SlotValue(m0: Mem, libs: seq<Lib>, lib: Lib, e: Entry, imports: map<string, nat>, name: string)
    requires e.kind == R_JUMP_SLOT && e.addend == 0 && Meaning(m0, libs, lib, e) == Unbound(name, false)
    requires name in imports && 0 < imports[name] < TWO64
    ensures Writes(m0, libs, lib, e, imports) && Value(m0, libs, lib, e, imports) == imports[name]
  {
    hide Meaning;
  }

  lemma RoutesInRange(st: State, a: nat, name: string)
    requires RoutesTo(st, a, name)
    ensures IMPORT_ADDRESS <= a < IMPORT_ADDRESS + IMPORT_SIZE
  {
  }

  /** Whatever happens later, the name keeps its address and the address its name. */
  lemma RouteSurvives(st: State, evs: seq<Event>, name: string)
    requires Inv(st) && AllowedRun(st, evs)
    requires forall ev | ev in evs :: ev.Load? ==> InFile(ev.file)
    requires name in st.imports && RoutesTo(st, st.imports[name], name)
    requires Run(st, evs).Continue?
    ensures var after := Run(st, evs).value;
            name in after.imports && after.imports[name] == st.imports[name] &&
              RoutesTo(after, after.imports[name], name)
  {
    hide Run, AllowedRun, Granular, FixedRegions, HeapOk, LibraryArenaOk, LibrariesPlaced;
    RunKeepsInv(st, evs);
    var after := Run(st, evs).value;
    var a := st.imports[name];
    assert a in after.stubs && after.stubs[a] == name;
    StubHookedIff(after, a);
  }

  /** Distinct names never share an address, stub or data. */
  lemma AddressesDistinct(st: State, n: string, k: string)
    requires Inv(st) && n in st.imports && k in st.imports && n != k
    ensures st.imports[n] != st.imports[k]
    ensures Router(st, st.imports[n]) == None || Router(st, st.imports[n]) == Some(n)
  {
    hide Granular, FixedRegions, HeapOk, LibraryArenaOk, LibrariesPlaced, StubsReturn;
  }
}
