/** The DT_HASH section: two counts, then the buckets, then one chain entry for
    every symbol (System V ABI, chapter 5, "Hash Table"). */
module SysvHash {
  import opened Words
  import opened GuestMemory
  import opened VmState
  import opened Relocation
  import opened Image
  import opened Position
  import opened Twins
  import opened HostRelocation
  import opened Agreement
  import opened HostSymbols
  import opened HostDynamic
  import opened HostImage
  import opened HostSections
  import opened HostLoad
  import opened GnuHashTable
  import opened FileAgreement

  datatype HashTable = HashTable(buckets: seq<U32>, chains: seq<U32>)

  function NumberAt(m: Mem, at: int): int {
    Sum4(Peek(m, at, 4))
  }

  /** The section stands at an address. */
  ghost predicate StandsAt(m: Mem, at: int, h: HashTable) {
    && NumberAt(m, at) == |h.buckets| && NumberAt(m, at + 4) == |h.chains|
    && (forall b | 0 <= b < |h.buckets| :: NumberAt(m, at + 8 + 4 * b) == h.buckets[b])
    && (forall c | 0 <= c < |h.chains| :: NumberAt(m, at + 8 + 4 * |h.buckets| + 4 * c) == h.chains[c])
  }

  /** Every bucket and every chain entry names a symbol; symbol 0 ends a chain. */
  ghost predicate Linked(h: HashTable) {
    && |h.chains| > 0
    && (forall b | 0 <= b < |h.buckets| :: h.buckets[b] < |h.chains|)
    && (forall c | 0 <= c < |h.chains| :: h.chains[c] < |h.chains|)
  }

  /** The symbol a lookup in bucket `b` looks at after `k` steps along the chain. */
  function Visited(h: HashTable, b: nat, k: nat): (i: int)
    requires Linked(h) && b < |h.buckets|
    ensures 0 <= i < |h.chains|
  {
    if k == 0 then h.buckets[b] else h.chains[Visited(h, b, k - 1)]
  }

  /** Main result: the loader's count is the length of the chain table, and every
      symbol that a lookup by way of the section can reach is below it. */
  lemma CountIsChainLength(m: Mem, loc: Located, end: nat, h: HashTable)
    requires loc.hash != 0 && StandsAt(m, loc.hash, h) && Linked(h)
    ensures CountIn(m, loc, end) == |h.chains|
    ensures forall b: nat, k: nat | b < |h.buckets| :: Visited(h, b, k) < CountIn(m, loc, end)
  {
    hide Count;
    var bs := Peek(m, loc.hash + 4, 4);
    LowByteFirst(bs);
    hide Half;
  }

  /** The symbols such a library exports: its linear pass's, or its GNU hash section's if it has one too. */
  ghost function HashedExports(m: Mem, base: U64, loc: Located, end: nat, h: HashTable): map<string, U64> {
    if loc.gnuHash == 0
    then AddRange(map[], base, SymbolsIn(m, loc.symtab, loc.strtab, |h.chains|), 0, |h.chains|)
    else Walked(m, base, loc, Section(m, loc, end))
  }

  /** What the file must be: as for any file, with every symbol of the chain
      table plain, or every symbol of the GNU hash section if there is one. */
  ghost predicate HashedSymbols(m: Mem, mh: Mem, libd: Lib, span: nat, loc: Located, end: nat, h: HashTable) {
    var n := if loc.gnuHash == 0 then |h.chains| else Count(Section(mh, loc, end));
    && SymbolsPlain(m, libd, span, n)
    && n <= StopIndex(m, libd, 0) && NoneAfter(m, libd, n, StopIndex(m, libd, 0))
    && (loc.gnuHash != 0 ==>
          var words := Section(mh, loc, end);
          && SectionTiled(words)
          && forall i: nat | i < words[1] && i < n :: SymbolAtHost(mh, loc.symtab, i).value == 0)
  }

  lemma HashedReady(m: Mem, mh: Mem, libd: Lib, span: nat, loc: Located, end: nat, h: HashTable)
    requires loc.hash != 0 && StandsAt(mh, loc.hash, h) && Linked(h)
    requires HashedSymbols(m, mh, libd, span, loc, end, h)
    ensures SectionReady(mh, loc, end) && SymbolsReady(m, mh, libd, span, loc, end)
  {
    CountIsChainLength(mh, loc, end, h);
    hide CountIn, Count, Section, SymbolsPlain, NoneAfter, StopIndex, SymbolAtHost, SectionOk, StandsAt, Linked;
    if loc.gnuHash != 0 {
      SectionParts(Section(mh, loc, end));
    }
  }

  lemma HashedLibrary(mh: Mem, base: U64, loc: Located, end: nat, h: HashTable)
    requires loc.hash != 0 && StandsAt(mh, loc.hash, h) && Linked(h)
    ensures HostLibrary(mh, base, loc, end) ==
              LoaderOf(base, loc, |h.chains|, HashedExports(mh, base, loc, end, h))
  {
    CountIsChainLength(mh, loc, end, h);
    hide CountIn, Walked, AddRange, SymbolsIn, Section, StandsAt, Linked;
  }

  /** The host exports the emulator's symbols. */
  lemma HashedExportsAgree(m: Mem, mh: Mem, lib: Lib, loc: Located, hostBase: U64, span: nat, d: int, end: nat,
                           h: HashTable)
    requires TablesTwin(m, mh, lib, loc.symtab, loc.strtab, hostBase, span, d)
    requires loc.hash != 0 && StandsAt(mh, loc.hash, h) && Linked(h)
    requires HashedSymbols(m, mh, lib, span, loc, end, h)
    ensures SymbolsMoved(ScanSymbols(m, lib, 0, map[]), HashedExports(mh, hostBase, loc, end, h), d)
  {
    hide TablesTwin, HashedSymbols, StandsAt, Linked, ScanSymbols, SymbolsMoved, SectionReady, SymbolsReady,
      ExportsIn, CountIn, HashedExports;
    HashedReady(m, mh, lib, span, loc, end, h);
    ExportsAgree(m, mh, lib, loc, hostBase, span, d, end);
    HashedLibrary(mh, hostBase, loc, end, h);
  }

  /** Both images of a file with a DT_HASH section, with or without a GNU one. */
  ghost predicate HashedFile(st1: State, h1: Mem, name: string, base: U64, r: Range, hostBase: U64, span: nat, v: U64,
                             loc: Located, h: HashTable)
    requires base + v < TWO64
  {
    var libd := ScanDynamic(st1.mem, EmptyLib(name, base, r, base + v), base + v);
    var lib := Describe(st1.mem, name, base, r, base + v);
    && hostBase + v < TWO64
    && loc == Locate(h1, hostBase, hostBase + v, NOTHING_LOCATED)
    && TableInside(st1.mem, EmptyLib(name, base, r, base + v), base + v, span)
    && libd.symtab != 0 && libd.strtab != 0 && libd.strsz > 0
    && base <= libd.symtab && base <= libd.strtab && libd.strtab + libd.strsz <= base + span
    && libd.strtab + libd.strsz - 1 in st1.mem && st1.mem[libd.strtab + libd.strsz - 1] == 0
    && loc.hash != 0 && StandsAt(h1, loc.hash, h) && Linked(h)
    && HashedSymbols(st1.mem, h1, libd, span, loc, hostBase + span, h)
    && Relocatable(st1.mem, lib, |h.chains|) && TablesInside(lib, |h.chains|, span)
    && TargetsInside(st1.mem, lib, span) && NamesInside(st1.mem, lib, |h.chains|)
    && ApplyRelocations(st1, lib).Continue?
  }

  lemma HashedCompares(st1: State, h1: Mem, name: string, base: U64, r: Range, hostBase: U64, span: nat, v: U64,
                       loc: Located, h: HashTable)
    requires base + v < TWO64 && HashedFile(st1, h1, name, base, r, hostBase, span, v, loc, h)
    ensures ReadyToCompare(st1, h1, name, base, r, hostBase, span, v, loc)
  {
    hide ScanDynamic, TableInside, StandsAt, Linked, HashedSymbols, Relocatable, TablesInside, TargetsInside,
      NamesInside, ApplyRelocations, Describe, Locate, CountIn, SectionReady, SymbolsReady;
    var libd := ScanDynamic(st1.mem, EmptyLib(name, base, r, base + v), base + v);
    HashedReady(st1.mem, h1, libd, span, loc, hostBase + span, h);
    CountIsChainLength(h1, loc, hostBase + span, h);
  }

  /** Main result: `FileToRelocatedImages` for a file with a DT_HASH section as
      linkers write it: the host's symbols are those of the chain table, its
      exports the emulator's symbols, and the two relocated images agree. */
  lemma HashedFileAgrees(st: State, st1: State, name: string, phs: seq<Phdr>, file: seq<Byte>, base: U64, mh: Mem,
                         h1: Mem, hostBase: U64, v: U64, loc: Located, h: HashTable, siblings: seq<map<string, U64>>,
                         host: Host)
    requires FileFits(st, phs, file, base, mh, hostBase, v) && LinkReady(st) && base + v < TWO64
    requires PlacedBy(st, st1, name, phs, file, base) && HostPlacedBy(mh, h1, phs, file, hostBase)
    requires HashedFile(st1, h1, name, base, SpanOf(phs), hostBase, HostSpan(phs).hi, v, loc, h)
    ensures var lib := Describe(st1.mem, name, base, SpanOf(phs), base + v);
            var exports := HashedExports(h1, hostBase, loc, hostBase + HostSpan(phs).hi, h);
            var ld := LoaderOf(hostBase, loc, |h.chains|, exports);
            && st1.libs == st.libs + [lib] && ApplyRelocations(st1, lib).Continue?
            && DescribedIn(h1, hostBase, phs) == Some(ld)
            && RelocatedAlike(st1.mem, ApplyRelocations(st1, lib).value.mem, Pass(h1, ld, siblings, host), lib,
                              HostSpan(phs).hi, hostBase - base)
  {
    hide FileFits, LinkReady, PlacedBy, HostPlacedBy, SpanOf, HostSpan, Describe, ReadyToCompare, ApplyRelocations,
      Pass, RelocatedAlike, DescribedIn, HashedExports, HostLibrary, ImageReady, StandsAt, Linked, HashedFile;
    HashedCompares(st1, h1, name, base, SpanOf(phs), hostBase, HostSpan(phs).hi, v, loc, h);
    FileToRelocatedImages(st, st1, name, phs, file, base, mh, h1, hostBase, v, loc, siblings, host);
    HashStands(st1, h1, name, base, SpanOf(phs), hostBase, HostSpan(phs).hi, v, loc, h);
    HashedLibrary(h1, hostBase, loc, hostBase + HostSpan(phs).hi, h);
  }

  lemma HashStands(st1: State, h1: Mem, name: string, base: U64, r: Range, hostBase: U64, span: nat, v: U64,
                   loc: Located, h: HashTable)
    requires base + v < TWO64 && HashedFile(st1, h1, name, base, r, hostBase, span, v, loc, h)
    ensures loc.hash != 0 && StandsAt(h1, loc.hash, h) && Linked(h)
  {
    hide ScanDynamic, TableInside, StandsAt, Linked, HashedSymbols, Relocatable, TablesInside, TargetsInside,
      NamesInside, ApplyRelocations, Describe, Locate;
  }
}
