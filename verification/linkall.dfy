/** `relocate_all_vm_libraries`: relocating every library in turn leaves all of
    them relocated, because each keeps to its own span. */
module LinkAll {
  import opened Words
  import opened GuestMemory
  import opened VmState
  import opened Resolver
  import opened Relocation
  import opened Position

  function RelocateFrom(st: State, libs: seq<Lib>, i: nat): Outcome<State>
    requires i <= |libs|
    decreases |libs| - i
  {
    if i == |libs| then Continue(st)
    else
      var st1 :- ApplyRelocations(st, libs[i]);
      RelocateFrom(st1, libs, i + 1)
  }

  /** A library's share of memory, and the number of its symbols. */
  datatype Share = Share(span: nat, nsyms: nat)

  ghost predicate InShare(lib: Lib, s: Share, a: int) {
    lib.base <= a < lib.base + s.span
  }

  /** A library that is relocatable and reads and writes only its own share. */
  ghost predicate Linkable(m: Mem, lib: Lib, s: Share) {
    && lib.base + s.span <= HEAP_ADDRESS
    && Relocatable(m, lib, s.nsyms)
    && TablesInside(lib, s.nsyms, s.span)
    && (forall e | e in Entries(m, lib) && Active(e) ::
          lib.base <= Target(lib, e) && Target(lib, e) + 8 <= lib.base + s.span)
  }

  predicate SharesApart(p: Lib, s: Share, q: Lib, t: Share) {
    p.base + s.span <= q.base || q.base + t.span <= p.base
  }

  /** The bytes of a share are as they were. */
  ghost predicate ShareKept(m0: Mem, m: Mem, lib: Lib, s: Share) {
    && m.Keys == m0.Keys
    && forall a | a in m0 && InShare(lib, s, a) :: m[a] == m0[a]
  }

  /** A share holds the library relocated under these bindings. */
  ghost predicate ShareRelocated(m0: Mem, m: Mem, libs: seq<Lib>, lib: Lib, s: Share, imports: map<string, nat>) {
    var es := Entries(m0, lib);
    && m.Keys == m0.Keys
    && (forall e | e in es && Symbolic(e) :: Bound(Meaning(m0, libs, lib, e), imports))
    && (forall e | e in es && Writes(m0, libs, lib, e, imports) ::
          Read(m, Target(lib, e), 8) == Some(ToLE(Value(m0, libs, lib, e, imports), 8)))
    && (forall a | a in m0 && InShare(lib, s, a) ::
          (forall e | e in es && Writes(m0, libs, lib, e, imports) :: !(Target(lib, e) <= a < Target(lib, e) + 8))
          ==> m[a] == m0[a])
  }

  // A share that is still as loaded can be relocated as if first -------------------------------

  lemma KeptTables(m0: Mem, m: Mem, lib: Lib, s: Share)
    requires ShareKept(m0, m, lib, s) && TablesInside(lib, s.nsyms, s.span)
    ensures TablesKept(m0, m, lib, s.nsyms)
  {
  }

  lemma {:induction false} KeptEntriesFrom(m0: Mem, m: Mem, lib: Lib, s: Share, table: U64, size: U64, offset: nat)
    requires ShareKept(m0, m, lib, s) && table != 0 && size % RELA_SIZE == 0 && offset % RELA_SIZE == 0
    requires lib.base <= table && table + size <= lib.base + s.span
    ensures EntriesFrom(m, table, size, offset) == EntriesFrom(m0, table, size, offset)
    decreases size - offset
  {
    hide DecodeEntry;
    if offset < size {
      ReadAgree(m0, m, table + offset, RELA_SIZE);
      KeptEntriesFrom(m0, m, lib, s, table, size, offset + RELA_SIZE);
    }
  }

  lemma KeptEntries(m0: Mem, m: Mem, lib: Lib, s: Share)
    requires ShareKept(m0, m, lib, s) && TablesInside(lib, s.nsyms, s.span) && TablesWellFormed(m0, lib, s.nsyms)
    ensures Entries(m, lib) == Entries(m0, lib)
  {
    hide ShareKept;
    if lib.rela != 0 {
      KeptEntriesFrom(m0, m, lib, s, lib.rela, lib.relasz, 0);
    }
    if lib.jmprel != 0 {
      KeptEntriesFrom(m0, m, lib, s, lib.jmprel, lib.pltrelsz, 0);
    }
  }

  lemma KeptWellFormed(m0: Mem, m: Mem, lib: Lib, s: Share)
    requires ShareKept(m0, m, lib, s) && TablesInside(lib, s.nsyms, s.span) && TablesWellFormed(m0, lib, s.nsyms)
    ensures TablesWellFormed(m, lib, s.nsyms)
  {
  }

  lemma KeptLinkable(m0: Mem, m: Mem, lib: Lib, s: Share)
    requires Linkable(m0, lib, s) && ShareKept(m0, m, lib, s)
    ensures Relocatable(m, lib, s.nsyms) && Entries(m, lib) == Entries(m0, lib)
  {
    hide ShareKept, TablesInside, TablesWellFormed, Entries, PairwiseApart, Target, InTables;
    KeptEntries(m0, m, lib, s);
    KeptWellFormed(m0, m, lib, s);
    forall e | e in Entries(m0, lib)
      ensures Clear(m, lib, s.nsyms, e)
    {
      ClearAgain(m0, m, lib, s, e);
    }
  }

  lemma ClearAgain(m0: Mem, m: Mem, lib: Lib, s: Share, e: Entry)
    requires Clear(m0, lib, s.nsyms, e) && ShareKept(m0, m, lib, s)
    ensures Clear(m, lib, s.nsyms, e)
  {
    hide InTables, Target;
  }

  lemma KeptMeaning(m0: Mem, m: Mem, libs: seq<Lib>, lib: Lib, s: Share, e: Entry)
    requires Linkable(m0, lib, s) && ShareKept(m0, m, lib, s) && e in Entries(m0, lib) && Symbolic(e)
    ensures Meaning(m, libs, lib, e) == Meaning(m0, libs, lib, e)
  {
    hide ShareKept, TablesInside, TablesWellFormed, TablesKept, Entries, PairwiseApart, Target, Classify;
    KeptTables(m0, m, lib, s);
    assert Clear(m0, lib, s.nsyms, e);
    ClassifyKept(m0, m, libs, lib, s.nsyms, e.sym);
  }

  /** Relocating an untouched share relocates it. */
  lemma OneShare(m0: Mem, st: State, lib: Lib, s: Share)
    requires Linkable(m0, lib, s) && ShareKept(m0, st.mem, lib, s) && LinkReady(st)
    requires ApplyRelocations(st, lib).Continue?
    ensures var after := ApplyRelocations(st, lib).value;
            && ShareRelocated(m0, after.mem, st.libs, lib, s, after.imports)
            && Extends(st.imports, after.imports) && LinkReady(after) && after.libs == st.libs
            && after.mem.Keys == st.mem.Keys
            && forall a | a in st.mem && a < HEAP_ADDRESS && !InShare(lib, s, a) :: after.mem[a] == st.mem[a]
  {
    hide Linkable, ShareKept, TablesWellFormed, Clear, Entries, ApplyRelocations, LinkReady, Relocatable, Relocated,
      ShareRelocated, Extends;
    KeptLinkable(m0, st.mem, lib, s);
    RelocationMeetsSpec(st, lib, s.nsyms);
    var after := ApplyRelocations(st, lib).value;
    FromRelocated(m0, st.mem, after.mem, st.libs, lib, s, after.imports);
  }

  lemma SameValue(m0: Mem, m: Mem, libs: seq<Lib>, lib: Lib, e: Entry, imports: map<string, nat>)
    requires Symbolic(e) ==> Meaning(m, libs, lib, e) == Meaning(m0, libs, lib, e)
    ensures Writes(m, libs, lib, e, imports) == Writes(m0, libs, lib, e, imports)
    ensures Active(e) ==> Value(m, libs, lib, e, imports) == Value(m0, libs, lib, e, imports)
  {
    hide Meaning;
  }

  lemma FromRelocated(m0: Mem, m: Mem, after: Mem, libs: seq<Lib>, lib: Lib, s: Share, imports: map<string, nat>)
    requires Linkable(m0, lib, s) && ShareKept(m0, m, lib, s)
    requires Relocated(m, m, after, libs, lib, Entries(m0, lib), imports)
    ensures ShareRelocated(m0, after, libs, lib, s, imports)
    ensures after.Keys == m.Keys
    ensures forall a | a in m && a < HEAP_ADDRESS && !InShare(lib, s, a) :: after[a] == m[a]
  {
    var es := Entries(m0, lib);
    forall e | e in es
      ensures Symbolic(e) ==> Bound(Meaning(m0, libs, lib, e), imports)
      ensures Writes(m, libs, lib, e, imports) == Writes(m0, libs, lib, e, imports)
      ensures Active(e) ==> Value(m, libs, lib, e, imports) == Value(m0, libs, lib, e, imports)
      ensures Writes(m, libs, lib, e, imports) ==> lib.base <= Target(lib, e) && Target(lib, e) + 8 <= lib.base + s.span
    {
      EntryFacts(m0, m, after, libs, lib, s, imports, e);
    }
    assert lib.base + s.span <= HEAP_ADDRESS;
    hide Linkable, Entries, Meaning, Value, Writes, Target, Bound, ToLE, Read;
    forall e | e in es && Writes(m0, libs, lib, e, imports)
      ensures Read(after, Target(lib, e), 8) == Some(ToLE(Value(m0, libs, lib, e, imports), 8))
    {
      WritesActive(m0, libs, lib, e, imports);
      var i :| 0 <= i < |es| && es[i] == e;
    }
  }

  lemma EntryFacts(m0: Mem, m: Mem, after: Mem, libs: seq<Lib>, lib: Lib, s: Share, imports: map<string, nat>, e: Entry)
    requires Linkable(m0, lib, s) && ShareKept(m0, m, lib, s) && e in Entries(m0, lib)
    requires Relocated(m, m, after, libs, lib, Entries(m0, lib), imports)
    ensures Symbolic(e) ==> Bound(Meaning(m0, libs, lib, e), imports)
    ensures Writes(m, libs, lib, e, imports) == Writes(m0, libs, lib, e, imports)
    ensures Active(e) ==> Value(m, libs, lib, e, imports) == Value(m0, libs, lib, e, imports)
    ensures Writes(m, libs, lib, e, imports) ==> lib.base <= Target(lib, e) && Target(lib, e) + 8 <= lib.base + s.span
  {
    hide Meaning, Target, Entries, Relocatable, TablesInside, ShareKept, ToLE, Read, Bound;
    if Symbolic(e) {
      KeptMeaning(m0, m, libs, lib, s, e);
      var es := Entries(m0, lib);
      var i :| 0 <= i < |es| && es[i] == e;
      assert Bound(Meaning(m, libs, lib, es[i]), imports);
    }
    hide Linkable;
    SameValue(m0, m, libs, lib, e, imports);
  }

  // A relocated share survives the relocation of the others ------------------------------------

  lemma SurvivesOther(m0: Mem, m: Mem, after: Mem, libs: seq<Lib>, lib: Lib, s: Share, before: map<string, nat>,
                      imports: map<string, nat>)
    requires Linkable(m0, lib, s) && ShareRelocated(m0, m, libs, lib, s, before) && Extends(before, imports)
    requires after.Keys == m.Keys && forall a | a in m && InShare(lib, s, a) :: after[a] == m[a]
    ensures ShareRelocated(m0, after, libs, lib, s, imports)
  {
    var es := Entries(m0, lib);
    forall e | e in es
      ensures Symbolic(e) ==> Bound(Meaning(m0, libs, lib, e), imports)
      ensures Writes(m0, libs, lib, e, before) == Writes(m0, libs, lib, e, imports)
      ensures Active(e) ==> Value(m0, libs, lib, e, before) == Value(m0, libs, lib, e, imports)
      ensures Writes(m0, libs, lib, e, before) ==> lib.base <= Target(lib, e) && Target(lib, e) + 8 <= lib.base + s.span
    {
      hide Meaning, Target, Entries, Relocatable, TablesInside, ToLE, Read, Extends;
      ValueKept(m0, libs, lib, e, before, imports);
    }
    hide Linkable, Entries, Meaning, Value, Writes, Target, Bound, ToLE, Extends;
    forall e | e in es && Writes(m0, libs, lib, e, imports)
      ensures Read(after, Target(lib, e), 8) == Some(ToLE(Value(m0, libs, lib, e, imports), 8))
    {
      WritesActive(m0, libs, lib, e, imports);
      ReadAgree(m, after, Target(lib, e), 8);
    }
  }

  // All libraries --------------------------------------------------------------------------------

  ghost predicate AllLinkable(m0: Mem, libs: seq<Lib>, shares: seq<Share>) {
    && |shares| == |libs|
    && (forall j | 0 <= j < |libs| :: Linkable(m0, libs[j], shares[j]))
    && (forall i, j | 0 <= i < j < |libs| :: SharesApart(libs[i], shares[i], libs[j], shares[j]))
  }

  /** Half way: the first `i` libraries are relocated, the others untouched. */
  ghost predicate Progress(m0: Mem, st: State, libs: seq<Lib>, shares: seq<Share>, i: nat)
    requires |shares| == |libs|
  {
    && st.libs == libs && LinkReady(st) && st.mem.Keys == m0.Keys
    && (forall j | 0 <= j < |libs| && j < i :: ShareRelocated(m0, st.mem, libs, libs[j], shares[j], st.imports))
    && (forall j | 0 <= j < |libs| && i <= j :: ShareKept(m0, st.mem, libs[j], shares[j]))
    && (forall a | a in m0 && a < HEAP_ADDRESS && (forall j | 0 <= j < |libs| :: !InShare(libs[j], shares[j], a)) ::
          st.mem[a] == m0[a])
  }

  lemma OneMore(m0: Mem, st: State, libs: seq<Lib>, shares: seq<Share>, i: nat)
    requires AllLinkable(m0, libs, shares) && i < |libs| && Progress(m0, st, libs, shares, i)
    requires ApplyRelocations(st, libs[i]).Continue?
    ensures Progress(m0, ApplyRelocations(st, libs[i]).value, libs, shares, i + 1)
  {
    hide ApplyRelocations, Linkable, LinkReady, ShareKept, ShareRelocated, Extends, InShare;
    OneShare(m0, st, libs[i], shares[i]);
    var after := ApplyRelocations(st, libs[i]).value;
    forall j | 0 <= j < |libs| && j != i
      ensures forall a | a in st.mem && InShare(libs[j], shares[j], a) :: after.mem[a] == st.mem[a]
    {
      assert SharesApart(libs[i], shares[i], libs[j], shares[j]);
      ShareBelowHeap(m0, libs[j], shares[j]);
      ApartShares(libs[i], shares[i], libs[j], shares[j]);
    }
    forall j | 0 <= j < |libs| && j < i
      ensures ShareRelocated(m0, after.mem, libs, libs[j], shares[j], after.imports)
    {
      SurvivesOther(m0, st.mem, after.mem, libs, libs[j], shares[j], st.imports, after.imports);
    }
    forall j | 0 <= j < |libs| && i + 1 <= j
      ensures ShareKept(m0, after.mem, libs[j], shares[j])
    {
      KeptOn(m0, st.mem, after.mem, libs[j], shares[j]);
    }
  }

  lemma ShareBelowHeap(m0: Mem, lib: Lib, s: Share)
    requires Linkable(m0, lib, s)
    ensures forall a | InShare(lib, s, a) :: a < HEAP_ADDRESS
  {
  }

  lemma ApartShares(p: Lib, s: Share, q: Lib, t: Share)
    requires SharesApart(p, s, q, t)
    ensures forall a | InShare(q, t, a) :: !InShare(p, s, a)
  {
  }

  lemma KeptOn(m0: Mem, m: Mem, after: Mem, lib: Lib, s: Share)
    requires ShareKept(m0, m, lib, s) && after.Keys == m.Keys
    requires forall a | a in m && InShare(lib, s, a) :: after[a] == m[a]
    ensures ShareKept(m0, after, lib, s)
  {
  }

  lemma {:induction false} FinishLinking(m0: Mem, st: State, libs: seq<Lib>, shares: seq<Share>, i: nat)
    requires AllLinkable(m0, libs, shares) && i <= |libs| && Progress(m0, st, libs, shares, i)
    requires RelocateFrom(st, libs, i).Continue?
    ensures Progress(m0, RelocateFrom(st, libs, i).value, libs, shares, |libs|)
    decreases |libs| - i
  {
    hide ApplyRelocations, Progress;
    if i < |libs| {
      OneMore(m0, st, libs, shares, i);
      FinishLinking(m0, ApplyRelocations(st, libs[i]).value, libs, shares, i + 1);
    }
  }

  /** Main result: after every library has been relocated, each one's words hold
      what its own entries ask for under the final bindings, and below the heap
      nothing but those words has changed. */
  lemma AllRelocated(st: State, shares: seq<Share>)
    requires LinkReady(st) && AllLinkable(st.mem, st.libs, shares)
    requires RelocateFrom(st, st.libs, 0).Continue?
    ensures var after := RelocateFrom(st, st.libs, 0).value;
            && after.libs == st.libs
            && (forall j | 0 <= j < |st.libs| ::
                  ShareRelocated(st.mem, after.mem, st.libs, st.libs[j], shares[j], after.imports))
            && (forall a | a in st.mem && a < HEAP_ADDRESS &&
                  (forall j | 0 <= j < |st.libs| :: !InShare(st.libs[j], shares[j], a)) ::
                  a in after.mem && after.mem[a] == st.mem[a])
  {
    hide RelocateFrom, Linkable, LinkReady, ShareRelocated, InShare;
    FinishLinking(st.mem, st, st.libs, shares, 0);
  }
}
