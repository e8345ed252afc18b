/** Relocation on the bytes of the tables themselves.  An entry is an offset word
    and an info word, whose low half is the type and whose high half is the
    symbol's index; in a RELA table an addend word follows. */
module TableBytes {
  import opened Words
  import opened GuestMemory
  import opened VmState
  import opened Resolver
  import opened Relocation
  import opened HostRelocation
  import opened HostRel

  datatype RawEntry = RawEntry(offset: U64, info: U64, addend: Option<U64>)

  function RawAt(m: Mem, explicit: bool, at: int): RawEntry {
    RawEntry(PeekWord(m, at), PeekWord(m, at + 8), if explicit then Some(PeekWord(m, at + 16)) else None)
  }

  function Width(explicit: bool): nat {
    if explicit then 24 else 16
  }

  /** The entries of a table, straight from its bytes; the rest of a cut entry is passed over. */
  function RawTable(m: Mem, explicit: bool, table: U64, size: U64): (rs: seq<RawEntry>)
    ensures |rs| == if table == 0 then 0 else size / Width(explicit)
  {
    if table == 0 then []
    else
      seq(size / Width(explicit), i requires 0 <= i => RawAt(m, explicit, table + Width(explicit) * i))
  }

  function Kind(r: RawEntry): U32 {
    r.info % 0x1_0000_0000
  }

  function SymbolIndex(r: RawEntry): U32 {
    r.info / 0x1_0000_0000
  }

  // The decoded entries ---------------------------------------------------------------------------

  predicate Reads(e: HostEntry, r: RawEntry) {
    e.offset == r.offset && e.kind == Kind(r) && e.sym == SymbolIndex(r) && e.addend == r.addend
  }

  lemma WordInside(m: Mem, at: int, n: nat, k: nat)
    requires k + 8 <= n
    ensures Peek(m, at, n)[k..k + 8] == Peek(m, at + k, 8)
  {
  }

  /** A decoded entry is what its words say. */
  lemma DecodedReads(m: Mem, at: int)
    ensures var e := DecodeEntry(Peek(m, at, 24));
            Reads(HostEntry(e.offset, e.kind, e.sym, Some(e.addend)), RawAt(m, true, at))
  {
    var bs := Peek(m, at, 24);
    WordInside(m, at, 24, 0);
    WordInside(m, at, 24, 8);
    WordInside(m, at, 24, 16);
    HalvesOfWord(bs[8..16]);
    assert bs[8..16][0..4] == bs[8..12] && bs[8..16][4..8] == bs[12..16];
    hide Word, Half;
  }

  lemma {:induction false} TableReads(m: Mem, k: TableKind, table: U64, size: U64, i: nat)
    requires i <= size / Width(k.Rela?)
    ensures var es, rs := TableEntries(m, k, table, size / EntrySize(k), i), RawTable(m, k.Rela?, table, size);
            && |es| == (if table == 0 then 0 else |rs| - i)
            && forall j | 0 <= j < |es| :: Reads(es[j], rs[i + j])
    decreases size / Width(k.Rela?) - i
  {
    hide HostEntryAt, Reads, RawAt;
    if table != 0 && i < size / Width(k.Rela?) {
      TableReads(m, k, table, size, i + 1);
      HostEntryReads(m, k, table, i);
      var rest := TableEntries(m, k, table, size / EntrySize(k), i + 1);
      var es := TableEntries(m, k, table, size / EntrySize(k), i);
      assert es == [HostEntryAt(m, k, table, i)] + rest;
      var rs := RawTable(m, k.Rela?, table, size);
      forall j | 0 <= j < |es|
        ensures Reads(es[j], rs[i + j])
      {
        if j > 0 {
          assert es[j] == rest[j - 1];
        }
      }
    }
  }

  lemma HostEntryReads(m: Mem, k: TableKind, table: U64, i: nat)
    ensures Reads(HostEntryAt(m, k, table, i), RawAt(m, k.Rela?, table + Width(k.Rela?) * i))
  {
    if k.Rela? {
      DecodedReads(m, table + 24 * i);
    } else {
      var at := table + 16 * i;
      var bs := Peek(m, at, 16);
      WordInside(m, at, 16, 0);
      WordInside(m, at, 16, 8);
      HalvesOfWord(bs[8..16]);
      assert bs[8..16][0..4] == bs[8..12] && bs[8..16][4..8] == bs[12..16];
      hide Word, Half;
    }
  }

  // The types -----------------------------------------------------------------------------------------

  /** R_AARCH64_RELATIVE. */
  predicate Relative(r: RawEntry) {
    Kind(r) == 0x403
  }

  /** R_AARCH64_GLOB_DAT and R_AARCH64_JUMP_SLOT. */
  predicate ToSlot(r: RawEntry) {
    Kind(r) == 0x401 || Kind(r) == 0x402
  }

  /** R_AARCH64_ABS64, or one of the two before. */
  predicate ByName(r: RawEntry) {
    Kind(r) == 0x101 || ToSlot(r)
  }

  // The emulator ----------------------------------------------------------------------------------------

  /** A library's entries: its RELA table's, then its JMPREL table's. */
  function Raw(m: Mem, lib: Lib): seq<RawEntry> {
    RawTable(m, true, lib.rela, lib.relasz) + RawTable(m, true, lib.jmprel, lib.pltrelsz)
  }

  /** Where an entry's word is. */
  function Spot(lib: Lib, r: RawEntry): U64 {
    (lib.base + r.offset - lib.minVaddr) % 0x1_0000_0000_0000_0000
  }

  predicate Over(lib: Lib, r: RawEntry, a: int) {
    (Relative(r) || ByName(r)) && Spot(lib, r) <= a < Spot(lib, r) + 8
  }

  ghost predicate RawClear(m: Mem, lib: Lib, nsyms: nat, r: RawEntry) {
    Relative(r) || ByName(r) ==>
      && (ByName(r) ==> SymbolIndex(r) < nsyms)
      && Spot(lib, r) + 8 <= 0x4800_0000
      && Mapped(m, Spot(lib, r), 8)
      && forall a | Over(lib, r, a) :: !InTables(lib, nsyms, a)
  }

  ghost predicate RawApart(lib: Lib, r: RawEntry, q: RawEntry) {
    forall a :: !(Over(lib, r, a) && Over(lib, q, a))
  }

  /** Tables that are mapped, whole and well placed, and whose words are clear of
      the tables and of one another. */
  ghost predicate RawReady(m: Mem, lib: Lib, nsyms: nat) {
    && TablesWellFormed(m, lib, nsyms)
    && (lib.rela != 0 ==> Mapped(m, lib.rela, lib.relasz))
    && (lib.jmprel != 0 ==> Mapped(m, lib.jmprel, lib.pltrelsz))
    && (forall r | r in Raw(m, lib) :: RawClear(m, lib, nsyms, r))
    && forall i, j | 0 <= i < j < |Raw(m, lib)| :: RawApart(lib, Raw(m, lib)[i], Raw(m, lib)[j])
  }

  predicate Agrees(e: Entry, r: RawEntry) {
    Reads(HostEntry(e.offset, e.kind, e.sym, Some(e.addend)), r)
  }

  lemma OneTable(m: Mem, table: U64, size: U64)
    requires table != 0 ==> Mapped(m, table, size) && size % RELA_SIZE == 0
    ensures var es, rs := EntriesFrom(m, table, size, 0), RawTable(m, true, table, size);
            |es| == |rs| && forall i | 0 <= i < |es| :: Agrees(es[i], rs[i])
  {
    hide DecodeEntry, RawAt, Agrees;
    if table != 0 {
      EntriesAt(m, table, size, 0);
      var es, rs := EntriesFrom(m, table, size, 0), RawTable(m, true, table, size);
      forall i | 0 <= i < |es|
        ensures Agrees(es[i], rs[i])
      {
        var at := table + 24 * i;
        assert Slice(m, at, 24) == Peek(m, at, 24);
        EntryAgrees(m, at);
      }
    }
  }

  lemma EntryAgrees(m: Mem, at: int)
    ensures Agrees(DecodeEntry(Peek(m, at, 24)), RawAt(m, true, at))
  {
    DecodedReads(m, at);
  }

  /** Main result: the entries the relocation is proved about are those of the
      bytes, field by field. */
  lemma EntriesAreRaw(m: Mem, lib: Lib)
    requires lib.rela != 0 ==> Mapped(m, lib.rela, lib.relasz) && lib.relasz % 24 == 0
    requires lib.jmprel != 0 ==> Mapped(m, lib.jmprel, lib.pltrelsz) && lib.pltrelsz % 24 == 0
    ensures var es, rs := Entries(m, lib), Raw(m, lib);
            && |es| == |rs|
            && forall i | 0 <= i < |es| ::
                 && es[i].offset == rs[i].offset && Some(es[i].addend) == rs[i].addend
                 && es[i].kind == rs[i].info % 0x1_0000_0000 && es[i].sym == rs[i].info / 0x1_0000_0000
  {
    hide EntriesFrom, RawTable;
    OneTable(m, lib.rela, lib.relasz);
    OneTable(m, lib.jmprel, lib.pltrelsz);
    var es, rs := Entries(m, lib), Raw(m, lib);
    assert forall i | 0 <= i < |es| :: Agrees(es[i], rs[i]);
  }

  lemma SameTarget(lib: Lib, e: Entry, r: RawEntry)
    requires Agrees(e, r)
    ensures Target(lib, e) == Spot(lib, r)
    ensures Active(e) <==> Relative(r) || ByName(r)
    ensures Symbolic(e) <==> ByName(r)
    ensures e.kind == R_RELATIVE <==> Relative(r)
  {
  }

  lemma EntriesAgree(m: Mem, lib: Lib, nsyms: nat)
    requires RawReady(m, lib, nsyms)
    ensures var es, rs := Entries(m, lib), Raw(m, lib);
            |es| == |rs| && forall i | 0 <= i < |es| :: Agrees(es[i], rs[i])
  {
    hide Entries, Raw, RawClear, RawApart;
    TableSizes(m, lib, nsyms);
    EntriesAreRaw(m, lib);
  }

  lemma ClearFromRaw(m: Mem, lib: Lib, nsyms: nat, e: Entry, r: RawEntry)
    requires Agrees(e, r) && RawClear(m, lib, nsyms, r)
    ensures Clear(m, lib, nsyms, e)
  {
    SameTarget(lib, e, r);
    hide InTables, Target, Spot, Active, Symbolic, Relative, ByName;
    assert forall a | Target(lib, e) <= a < Target(lib, e) + 8 && Active(e) :: Over(lib, r, a);
  }

  lemma ApartFromRaw(lib: Lib, e: Entry, r: RawEntry, f: Entry, q: RawEntry)
    requires Agrees(e, r) && Agrees(f, q) && RawApart(lib, r, q)
    ensures Apart(lib, e, f)
  {
    SameTarget(lib, e, r);
    SameTarget(lib, f, q);
    hide Target, Spot, Active, Relative, ByName;
    var s, t := Spot(lib, r), Spot(lib, q);
    assert !(Over(lib, r, s) && Over(lib, q, s)) && !(Over(lib, r, t) && Over(lib, q, t));
  }

  lemma AllClear(m: Mem, lib: Lib, nsyms: nat)
    requires RawReady(m, lib, nsyms)
    ensures forall e | e in Entries(m, lib) :: Clear(m, lib, nsyms, e)
  {
    EntriesAgree(m, lib, nsyms);
    hide Entries, Raw, RawClear, RawApart, Agrees, Clear, TablesWellFormed, Mapped;
    var es, rs := Entries(m, lib), Raw(m, lib);
    forall e | e in es
      ensures Clear(m, lib, nsyms, e)
    {
      var i :| 0 <= i < |es| && es[i] == e;
      assert rs[i] in rs;
      ClearFromRaw(m, lib, nsyms, es[i], rs[i]);
    }
  }

  lemma ReadyIsRelocatable(m: Mem, lib: Lib, nsyms: nat)
    requires RawReady(m, lib, nsyms)
    ensures Relocatable(m, lib, nsyms)
  {
    EntriesAgree(m, lib, nsyms);
    AllClear(m, lib, nsyms);
    hide Entries, Raw, RawClear, RawApart, Agrees, Clear, TablesWellFormed, Apart, Mapped;
    var es, rs := Entries(m, lib), Raw(m, lib);
    forall i, j | 0 <= i < j < |es|
      ensures Apart(lib, es[i], es[j])
    {
      ApartFromRaw(lib, es[i], rs[i], es[j], rs[j]);
    }
  }

  /** What an entry's word must be: base + (A - lowest address), or S + A; the
      word as it was when its symbol has no address. */
  function RightWord(m: Mem, lib: Lib, r: RawEntry, s: nat): U64
    requires r.addend.Some?
  {
    if Relative(r) then (lib.base + r.addend.value - lib.minVaddr) % 0x1_0000_0000_0000_0000
    else if s != 0 then (s + r.addend.value) % 0x1_0000_0000_0000_0000
    else PeekWord(m, Spot(lib, r))
  }

  /** The address of the symbol with an index. */
  function AddressOfSymbol(st: State, lib: Lib, idx: U32, imports: map<string, nat>): nat {
    Address(Classify(st.mem, st.libs, lib, idx), imports)
  }

  lemma RawHasAddend(m: Mem, lib: Lib)
    ensures forall r | r in Raw(m, lib) :: r.addend.Some?
  {
    hide PeekWord;
  }

  /** Main result: relocation on the bytes of a library's tables. */
  lemma BytesRelocated(st: State, lib: Lib, nsyms: nat)
    requires LinkReady(st) && RawReady(st.mem, lib, nsyms) && ApplyRelocations(st, lib).Continue?
    ensures forall r | r in Raw(st.mem, lib) :: r.addend.Some?
    ensures var after := ApplyRelocations(st, lib).value;
            && (forall r | r in Raw(st.mem, lib) && (Relative(r) || ByName(r)) ::
                  PeekWord(after.mem, Spot(lib, r)) ==
                    RightWord(st.mem, lib, r, AddressOfSymbol(st, lib, SymbolIndex(r), after.imports)))
            && (forall a | a in st.mem && a < 0x4800_0000 && (forall r | r in Raw(st.mem, lib) :: !Over(lib, r, a)) ::
                 a in after.mem && after.mem[a] == st.mem[a])
  {
    hide RawReady, ApplyRelocations, Relocatable, Entries, Raw, Agrees, Relocated, HeapOk, RightWord, AddressOfSymbol,
      Extends, PeekWord, Spot, Over, Relative, ByName;
    RawHasAddend(st.mem, lib);
    EntriesAgree(st.mem, lib, nsyms);
    ReadyIsRelocatable(st.mem, lib, nsyms);
    RelocationMeetsSpec(st, lib, nsyms);
    var after := ApplyRelocations(st, lib).value;
    var es, rs := Entries(st.mem, lib), Raw(st.mem, lib);
    forall r | r in rs && (Relative(r) || ByName(r))
      ensures PeekWord(after.mem, Spot(lib, r)) ==
              RightWord(st.mem, lib, r, AddressOfSymbol(st, lib, SymbolIndex(r), after.imports))
    {
      var i :| 0 <= i < |rs| && rs[i] == r;
      RightInPlace(st, after, lib, nsyms, i);
    }
    forall a | a in st.mem && a < 0x4800_0000 && (forall r | r in rs :: !Over(lib, r, a))
      ensures a in after.mem && after.mem[a] == st.mem[a]
    {
      OtherByte(st, after, lib, a);
    }
  }

  lemma OtherByte(st: State, after: State, lib: Lib, a: int)
    requires var es, rs := Entries(st.mem, lib), Raw(st.mem, lib);
             |es| == |rs| && forall i | 0 <= i < |es| :: Agrees(es[i], rs[i])
    requires Relocated(st.mem, st.mem, after.mem, st.libs, lib, Entries(st.mem, lib), after.imports)
    requires a in st.mem && a < 0x4800_0000 && forall r | r in Raw(st.mem, lib) :: !Over(lib, r, a)
    ensures a in after.mem && after.mem[a] == st.mem[a]
  {
    hide Entries, Raw, Agrees, Meaning, Value, Target, Spot, ToLE, Read, Bound, Writes, Relative, ByName;
    var es, rs := Entries(st.mem, lib), Raw(st.mem, lib);
    forall i | 0 <= i < |es| && Writes(st.mem, st.libs, lib, es[i], after.imports)
      ensures !(Target(lib, es[i]) <= a < Target(lib, es[i]) + 8)
    {
      SameTarget(lib, es[i], rs[i]);
      WritesActive(st.mem, st.libs, lib, es[i], after.imports);
      assert rs[i] in rs;
    }
  }

  lemma RightInPlace(st: State, after: State, lib: Lib, nsyms: nat, i: nat)
    requires var es, rs := Entries(st.mem, lib), Raw(st.mem, lib);
             && |es| == |rs| && i < |rs| && Agrees(es[i], rs[i]) && rs[i].addend.Some?
             && (Relative(rs[i]) || ByName(rs[i]))
    requires Relocatable(st.mem, lib, nsyms)
    requires Relocated(st.mem, st.mem, after.mem, st.libs, lib, Entries(st.mem, lib), after.imports)
    ensures var r := Raw(st.mem, lib)[i];
            PeekWord(after.mem, Spot(lib, r)) ==
              RightWord(st.mem, lib, r, AddressOfSymbol(st, lib, SymbolIndex(r), after.imports))
  {
    hide Entries, Raw, ToLE, Read, PeekWord, Classify, Relocatable, Spot, Target, Kind;
    var e, r := Entries(st.mem, lib)[i], Raw(st.mem, lib)[i];
    SameTarget(lib, e, r);
    if Writes(st.mem, st.libs, lib, e, after.imports) {
      WordStored(after.mem, Target(lib, e), Value(st.mem, st.libs, lib, e, after.imports));
    } else {
      UnwrittenWord(st, after, lib, nsyms, i);
    }
  }

  lemma WordStored(m: Mem, t: int, v: U64)
    requires Read(m, t, 8) == Some(ToLE(v, 8))
    ensures PeekWord(m, t) == v
  {
    WordRoundTrip(v);
    hide ToLE, Word;
    assert Peek(m, t, 8) == Slice(m, t, 8);
  }

  /** The word of an entry that writes nothing is left alone by the others. */
  lemma UnwrittenWord(st: State, after: State, lib: Lib, nsyms: nat, i: nat)
    requires Relocatable(st.mem, lib, nsyms) && i < |Entries(st.mem, lib)| && Active(Entries(st.mem, lib)[i])
    requires !Writes(st.mem, st.libs, lib, Entries(st.mem, lib)[i], after.imports)
    requires Relocated(st.mem, st.mem, after.mem, st.libs, lib, Entries(st.mem, lib), after.imports)
    ensures PeekWord(after.mem, Target(lib, Entries(st.mem, lib)[i])) ==
              PeekWord(st.mem, Target(lib, Entries(st.mem, lib)[i]))
  {
    hide Entries, Meaning, Value, Target, ToLE, Read, Bound, Writes, Active, PeekWord, TablesWellFormed, InTables;
    var es := Entries(st.mem, lib);
    var t := Target(lib, es[i]);
    assert Clear(st.mem, lib, nsyms, es[i]);
    forall a | t <= a < t + 8 && a in st.mem
      ensures after.mem[a] == st.mem[a]
    {
      forall j | 0 <= j < |es| && Writes(st.mem, st.libs, lib, es[j], after.imports)
        ensures !(Target(lib, es[j]) <= a < Target(lib, es[j]) + 8)
      {
        WritesActive(st.mem, st.libs, lib, es[j], after.imports);
        assert j != i && (if i < j then Apart(lib, es[i], es[j]) else Apart(lib, es[j], es[i]));
      }
    }
    WordKept(st.mem, after.mem, t);
  }

  // The host ----------------------------------------------------------------------------------------------

  /** A library's entries: its RELA, REL and JMPREL tables', the last of the kind DT_PLTREL says. */
  function HostRaw(m: Mem, ld: Loader): seq<RawEntry> {
    if ld.base == 0 || ld.symtab == 0 || ld.strtab == 0 then []
    else
      RawTable(m, true, ld.rela, ld.relasz) + RawTable(m, false, ld.rel, ld.relsz)
      + RawTable(m, ld.pltrelKind != 17, ld.jmprel, ld.pltrelsz)
  }

  function HostSpot(ld: Loader, r: RawEntry): U64 {
    (ld.base + r.offset) % 0x1_0000_0000_0000_0000
  }

  predicate HostOver(ld: Loader, r: RawEntry, a: int) {
    (Relative(r) || ByName(r)) && HostSpot(ld, r) <= a < HostSpot(ld, r) + 8
  }

  ghost predicate HostRawApart(ld: Loader, r: RawEntry, q: RawEntry) {
    forall a :: !(HostOver(ld, r, a) && HostOver(ld, q, a))
  }

  ghost predicate HostRawClear(m: Mem, ld: Loader, strsz: nat, r: RawEntry) {
    forall a | HostOver(ld, r, a) :: a in m && !InHostTables(ld, strsz, a)
  }

  /** Words that are mapped and clear of the tables and of one another. */
  ghost predicate HostRawReady(m: Mem, ld: Loader, strsz: nat) {
    && HostTablesOk(m, ld, strsz)
    && (forall r | r in HostRaw(m, ld) :: HostRawClear(m, ld, strsz, r))
    && forall i, j | 0 <= i < j < |HostRaw(m, ld)| :: HostRawApart(ld, HostRaw(m, ld)[i], HostRaw(m, ld)[j])
  }

  /** Main result: the entries the host's pass is proved about are those of the
      bytes; in a REL table an entry has no addend of its own. */
  lemma HostEntriesAreRaw(m: Mem, ld: Loader)
    ensures var es, rs := AllEntries(m, ld), HostRaw(m, ld);
            && |es| == |rs|
            && forall i | 0 <= i < |es| ::
                 && es[i].offset == rs[i].offset && es[i].addend == rs[i].addend
                 && es[i].kind == rs[i].info % 0x1_0000_0000 && es[i].sym == rs[i].info / 0x1_0000_0000
  {
    hide TableEntries, RawTable;
    var k := JmprelKind(ld);
    TableReads(m, Rela, ld.rela, ld.relasz, 0);
    TableReads(m, Rel, ld.rel, ld.relsz, 0);
    TableReads(m, k, ld.jmprel, ld.pltrelsz, 0);
    var es, rs := AllEntries(m, ld), HostRaw(m, ld);
    assert forall i | 0 <= i < |es| :: Reads(es[i], rs[i]);
  }

  lemma HostEntriesRead(m: Mem, ld: Loader)
    ensures var es, rs := AllEntries(m, ld), HostRaw(m, ld);
            |es| == |rs| && forall i | 0 <= i < |es| :: Reads(es[i], rs[i])
  {
    hide AllEntries, HostRaw;
    HostEntriesAreRaw(m, ld);
  }

  lemma HostSameTarget(ld: Loader, e: HostEntry, r: RawEntry)
    requires Reads(e, r)
    ensures HostTarget(ld, e) == HostSpot(ld, r)
    ensures Relocates(e) <==> Relative(r) || ByName(r)
  {
  }

  lemma HostClearFromRaw(m: Mem, ld: Loader, strsz: nat, e: HostEntry, r: RawEntry)
    requires Reads(e, r) && HostRawClear(m, ld, strsz, r) && Relocates(e)
    ensures Mapped(m, HostTarget(ld, e), 8)
    ensures forall a | HostTarget(ld, e) <= a < HostTarget(ld, e) + 8 :: !InHostTables(ld, strsz, a)
  {
    HostSameTarget(ld, e, r);
    hide InHostTables, HostTarget, HostSpot, Relocates, Relative, ByName;
    assert forall a | HostTarget(ld, e) <= a < HostTarget(ld, e) + 8 :: HostOver(ld, r, a);
  }

  lemma HostApartFromRaw(ld: Loader, e: HostEntry, r: RawEntry, f: HostEntry, q: RawEntry)
    requires Reads(e, r) && Reads(f, q) && HostRawApart(ld, r, q)
    ensures TargetsApart(ld, e, f)
  {
    HostSameTarget(ld, e, r);
    HostSameTarget(ld, f, q);
    hide HostTarget, HostSpot, Relocates, Relative, ByName;
    var s, t := HostSpot(ld, r), HostSpot(ld, q);
    assert !(HostOver(ld, r, s) && HostOver(ld, q, s)) && !(HostOver(ld, r, t) && HostOver(ld, q, t));
  }

  lemma HostReadyIsSafe(m: Mem, ld: Loader, strsz: nat)
    requires HostRawReady(m, ld, strsz)
    ensures Safe(m, ld, strsz) && Distinct(m, ld, AllEntries(m, ld))
  {
    HostEntriesRead(m, ld);
    hide AllEntries, HostRaw, HostRawClear, HostRawApart, Reads, HostTablesOk, InHostTables, HostTarget, Relocates,
      TargetsApart;
    var es, rs := AllEntries(m, ld), HostRaw(m, ld);
    forall e | e in es && Relocates(e)
      ensures Mapped(m, HostTarget(ld, e), 8)
      ensures forall a | HostTarget(ld, e) <= a < HostTarget(ld, e) + 8 :: !InHostTables(ld, strsz, a)
    {
      var i :| 0 <= i < |es| && es[i] == e;
      assert rs[i] in rs;
      HostClearFromRaw(m, ld, strsz, es[i], rs[i]);
    }
    forall i, j | 0 <= i < j < |es|
      ensures TargetsApart(ld, es[i], es[j])
    {
      HostApartFromRaw(ld, es[i], rs[i], es[j], rs[j]);
    }
  }

  /** What an entry's word must be: base + A, S + A for ABS64, S alone for the
      slots; an entry without an addend of its own takes the word there. */
  function RightHostWord(m: Mem, ld: Loader, r: RawEntry, s: U64): U64 {
    var a := match r.addend case Some(a) => a case None => PeekWord(m, HostSpot(ld, r));
    if Relative(r) then (ld.base + a) % 0x1_0000_0000_0000_0000
    else if ToSlot(r) then s
    else (s + a) % 0x1_0000_0000_0000_0000
  }

  /** Main result: the host's relocation on the bytes of a library's tables. */
  lemma HostBytesRelocated(m: Mem, ld: Loader, strsz: nat, siblings: seq<map<string, U64>>, host: Host)
    requires HostRawReady(m, ld, strsz)
    ensures var after := Pass(m, ld, siblings, host);
            && (forall r | r in HostRaw(m, ld) && (Relative(r) || ByName(r)) ::
                  PeekWord(after, HostSpot(ld, r)) ==
                    RightHostWord(m, ld, r, ResolveHost(m, ld, siblings, host, SymbolIndex(r))))
            && (forall a | a in m && (forall r | r in HostRaw(m, ld) :: !HostOver(ld, r, a)) ::
                 a in after && after[a] == m[a])
  {
    hide AllEntries, HostRaw, HostRawReady, Safe, Distinct, Pass, HostKept, Reads, PeekWord, HostSpot, WordsAfter,
      Relative, ByName, RightHostWord, ResolveHost, HostOver;
    HostEntriesRead(m, ld);
    HostReadyIsSafe(m, ld, strsz);
    KeptRefl(m, ld, strsz);
    PassWords(m, m, ld, strsz, siblings, host);
    var after, rs := Pass(m, ld, siblings, host), HostRaw(m, ld);
    forall r | r in rs && (Relative(r) || ByName(r))
      ensures PeekWord(after, HostSpot(ld, r)) ==
              RightHostWord(m, ld, r, ResolveHost(m, ld, siblings, host, SymbolIndex(r)))
    {
      HostRightInPlace(m, after, ld, siblings, host, r);
    }
    forall a | a in m && (forall r | r in rs :: !HostOver(ld, r, a))
      ensures a in after && after[a] == m[a]
    {
      HostOtherByte(m, after, ld, siblings, host, a);
    }
  }

  lemma HostRightInPlace(m: Mem, after: Mem, ld: Loader, siblings: seq<map<string, U64>>, host: Host, r: RawEntry)
    requires var es, rs := AllEntries(m, ld), HostRaw(m, ld);
             |es| == |rs| && forall i | 0 <= i < |es| :: Reads(es[i], rs[i])
    requires WordsAfter(m, m, after, ld, siblings, host, AllEntries(m, ld))
    requires r in HostRaw(m, ld) && (Relative(r) || ByName(r))
    ensures PeekWord(after, HostSpot(ld, r)) ==
            RightHostWord(m, ld, r, ResolveHost(m, ld, siblings, host, SymbolIndex(r)))
  {
    hide AllEntries, HostRaw, Reads, PeekWord, HostSpot, HostTarget, Relocates, Relative, ByName, RightHostWord,
      Effect, ResolveHost, Covered;
    var es, rs := AllEntries(m, ld), HostRaw(m, ld);
    var i :| 0 <= i < |rs| && rs[i] == r;
    HostSameTarget(ld, es[i], r);
    EffectIsRight(m, ld, es[i], r, ResolveHost(m, ld, siblings, host, SymbolIndex(r)));
    SymbolRead(es[i], r);
    assert es[i] in es;
  }

  lemma HostOtherByte(m: Mem, after: Mem, ld: Loader, siblings: seq<map<string, U64>>, host: Host, a: int)
    requires var es, rs := AllEntries(m, ld), HostRaw(m, ld);
             |es| == |rs| && forall i | 0 <= i < |es| :: Reads(es[i], rs[i])
    requires WordsAfter(m, m, after, ld, siblings, host, AllEntries(m, ld))
    requires a in m && forall r | r in HostRaw(m, ld) :: !HostOver(ld, r, a)
    ensures a in after && after[a] == m[a]
  {
    hide AllEntries, HostRaw, Reads, PeekWord, HostSpot, HostTarget, Relocates, Relative, ByName, Effect, SymbolOf;
    var es, rs := AllEntries(m, ld), HostRaw(m, ld);
    forall e | e in es && Relocates(e)
      ensures !(HostTarget(ld, e) <= a < HostTarget(ld, e) + 8)
    {
      var i :| 0 <= i < |es| && es[i] == e;
      HostSameTarget(ld, es[i], rs[i]);
      assert rs[i] in rs;
    }
  }

  lemma SymbolRead(e: HostEntry, r: RawEntry)
    requires Reads(e, r)
    ensures e.sym == SymbolIndex(r)
  {
  }

  lemma EffectIsRight(m: Mem, ld: Loader, e: HostEntry, r: RawEntry, s: U64)
    requires Reads(e, r)
    ensures Relocates(e) ==> Effect(ld, e, s, PeekWord(m, HostTarget(ld, e))) == RightHostWord(m, ld, r, s)
  {
    hide PeekWord;
  }
}
