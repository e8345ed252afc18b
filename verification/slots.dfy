/** The slots of a whole program: after every library has been relocated, and
    whatever runs later, an undefined function's slot leads to its hook. */
module LinkedSlots {
  import opened Words
  import opened GuestMemory
  import opened VmState
  import opened Resolver
  import opened Relocation
  import opened Image
  import opened Runtime
  import opened Dispatch
  import opened Position
  import opened LinkAll

  /** No library of the program binds the name as data, and nothing has so far. */
  ghost predicate NowhereData(m0: Mem, st: State, libs: seq<Lib>, name: string) {
    && (name in st.imports ==> st.imports[name] in st.stubs)
    && forall lib | lib in libs :: EntriesNotData(m0, libs, lib, name)
  }

  ghost predicate EntriesNotData(m0: Mem, libs: seq<Lib>, lib: Lib, name: string) {
    forall e | e in Entries(m0, lib) && Symbolic(e) :: Meaning(m0, libs, lib, e) != Unbound(name, true)
  }

  lemma OneLibrary(m0: Mem, st: State, libs: seq<Lib>, shares: seq<Share>, i: nat, name: string)
    requires AllLinkable(m0, libs, shares) && i < |libs| && Progress(m0, st, libs, shares, i)
    requires Inv(st) && NowhereData(m0, st, libs, name) && ApplyRelocations(st, libs[i]).Continue?
    ensures var after := ApplyRelocations(st, libs[i]).value;
            Inv(after) && NowhereData(m0, after, libs, name)
  {
    hide Inv, ApplyRelocations, ApplyEntries, ShareKept, ShareRelocated, SharesApart, Grows, Clear, TablesWellFormed,
      TablesKept, Entries, PairwiseApart, TablesInside, Target, EntriesNotData, LinkReady;
    var lib, s := libs[i], shares[i];
    assert Linkable(m0, lib, s) && ShareKept(m0, st.mem, lib, s);
    KeptLinkable(m0, st.mem, lib, s);
    KeptTables(m0, st.mem, lib, s);
    RelocationIsEntries(st, lib, s.nsyms);
    RelocateKeepsInv(st, lib, s.nsyms);
    assert lib in libs;
    LibraryNeverData(m0, st, libs, lib, name);
    EntriesBindStub(m0, st, lib, s.nsyms, Entries(m0, lib), name);
  }

  lemma LibraryNeverData(m0: Mem, st: State, libs: seq<Lib>, lib: Lib, name: string)
    requires NowhereData(m0, st, libs, name) && lib in libs
    ensures NeverData(m0, libs, lib, Entries(m0, lib), st.imports, st.stubs, name)
  {
    hide Entries, Meaning;
    assert EntriesNotData(m0, libs, lib, name);
  }

  lemma {:induction false} LinkKeepsInv(m0: Mem, st: State, libs: seq<Lib>, shares: seq<Share>, i: nat, name: string)
    requires AllLinkable(m0, libs, shares) && i <= |libs| && Progress(m0, st, libs, shares, i)
    requires Inv(st) && NowhereData(m0, st, libs, name) && RelocateFrom(st, libs, i).Continue?
    ensures var after := RelocateFrom(st, libs, i).value;
            Inv(after) && (name in after.imports ==> after.imports[name] in after.stubs)
    decreases |libs| - i
  {
    hide Inv, ApplyRelocations, AllLinkable, Progress, EntriesNotData;
    if i < |libs| {
      LinkableLength(m0, libs, shares);
      OneLibrary(m0, st, libs, shares, i, name);
      OneMore(m0, st, libs, shares, i);
      LinkKeepsInv(m0, ApplyRelocations(st, libs[i]).value, libs, shares, i + 1, name);
    }
  }

  lemma LinkableLength(m0: Mem, libs: seq<Lib>, shares: seq<Share>)
    requires AllLinkable(m0, libs, shares)
    ensures |shares| == |libs|
  {
    hide Linkable, SharesApart;
  }

  lemma StartOfLink(st: State, shares: seq<Share>)
    requires Inv(st) && |shares| == |st.libs|
    ensures Progress(st.mem, st, st.libs, shares, 0)
  {
    hide ShareRelocated, Granular, FixedRegions, StubsReturn, LibraryArenaOk, LibrariesPlaced;
  }

  /** Main result: once all libraries are relocated, the slot of an undefined
      function that nothing binds as data holds the address of a hooked stub that
      returns and that the router maps back to that name. */
  lemma LinkedSlotReachesName(st: State, shares: seq<Share>, j: nat, e: Entry, name: string)
    requires Inv(st) && AllLinkable(st.mem, st.libs, shares) && RelocateFrom(st, st.libs, 0).Continue?
    requires j < |st.libs| && e in Entries(st.mem, st.libs[j])
    requires e.kind == R_JUMP_SLOT && e.addend == 0 && Meaning(st.mem, st.libs, st.libs[j], e) == Unbound(name, false)
    requires NowhereData(st.mem, st, st.libs, name)
    requires RelocateFrom(st, st.libs, 0).value.next <= IMPORT_ADDRESS + IMPORT_SIZE
    ensures var after := RelocateFrom(st, st.libs, 0).value;
            && Inv(after) && name in after.imports
            && Read(after.mem, Target(st.libs[j], e), 8) == Some(ToLE(after.imports[name], 8))
            && RoutesTo(after, after.imports[name], name)
  {
    hide Inv, AllLinkable, RelocateFrom, Entries, Meaning, Target, RoutesTo, NowhereData, Progress, LinkReady,
      InShare, ToLE, Read, ShareRelocated;
    LinkableLength(st.mem, st.libs, shares);
    LinkReadyIn(st);
    StartOfLink(st, shares);
    LinkKeepsInv(st.mem, st, st.libs, shares, 0, name);
    AllRelocated(st, shares);
    var after := RelocateFrom(st, st.libs, 0).value;
    SlotBound(st.mem, after.mem, st.libs, st.libs[j], shares[j], after.imports, e, name);
    BoundStubRoutes(after, name);
    RoutesInRange(after, after.imports[name], name);
    SlotValue(st.mem, st.libs, st.libs[j], e, after.imports, name);
    SlotHolds(st.mem, after.mem, st.libs, st.libs[j], shares[j], after.imports, e);
  }

  lemma SlotBound(m0: Mem, m: Mem, libs: seq<Lib>, lib: Lib, s: Share, imports: map<string, nat>, e: Entry,
                  name: string)
    requires ShareRelocated(m0, m, libs, lib, s, imports) && e in Entries(m0, lib)
    requires e.kind == R_JUMP_SLOT && Meaning(m0, libs, lib, e) == Unbound(name, false)
    ensures name in imports
  {
    hide Entries, Meaning, Target, Value, ToLE, Read;
    assert Bound(Meaning(m0, libs, lib, e), imports);
  }

  lemma SlotHolds(m0: Mem, m: Mem, libs: seq<Lib>, lib: Lib, s: Share, imports: map<string, nat>, e: Entry)
    requires ShareRelocated(m0, m, libs, lib, s, imports) && e in Entries(m0, lib) && Writes(m0, libs, lib, e, imports)
    ensures Read(m, Target(lib, e), 8) == Some(ToLE(Value(m0, libs, lib, e, imports), 8))
  {
    hide Entries, Meaning, Target, Value, ToLE, Read, Writes, Bound;
  }

  /** Main result: the address in that slot still leads to that name after any later run. */
  lemma LinkedSlotSurvives(st: State, shares: seq<Share>, j: nat, e: Entry, name: string, evs: seq<Event>)
    requires Inv(st) && AllLinkable(st.mem, st.libs, shares) && RelocateFrom(st, st.libs, 0).Continue?
    requires j < |st.libs| && e in Entries(st.mem, st.libs[j])
    requires e.kind == R_JUMP_SLOT && e.addend == 0 && Meaning(st.mem, st.libs, st.libs[j], e) == Unbound(name, false)
    requires NowhereData(st.mem, st, st.libs, name)
    requires RelocateFrom(st, st.libs, 0).value.next <= IMPORT_ADDRESS + IMPORT_SIZE
    requires forall ev | ev in evs :: ev.Load? ==> InFile(ev.file)
    requires AllowedRun(RelocateFrom(st, st.libs, 0).value, evs) &&
               Run(RelocateFrom(st, st.libs, 0).value, evs).Continue?
    ensures var linked := RelocateFrom(st, st.libs, 0).value;
            var after := Run(linked, evs).value;
            && name in linked.imports
            && Read(linked.mem, Target(st.libs[j], e), 8) == Some(ToLE(linked.imports[name], 8))
            && RoutesTo(after, linked.imports[name], name)
  {
    hide Inv, AllLinkable, RelocateFrom, Entries, Meaning, Target, RoutesTo, NowhereData, Run, AllowedRun, InFile,
      ToLE, Read;
    LinkedSlotReachesName(st, shares, j, e, name);
    RouteSurvives(RelocateFrom(st, st.libs, 0).value, evs, name);
  }
}
