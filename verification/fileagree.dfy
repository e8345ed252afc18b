/** From one file to the two relocated images: the emulator's and the host's. */
module FileAgreement {
  import opened Words
  import opened GuestMemory
  import opened VmState
  import opened Resolver
  import opened Relocation
  import opened Image
  import opened Position
  import opened Twins
  import opened HostRelocation
  import opened GnuHashTable
  import opened Agreement
  import opened HostSymbols
  import opened HostDynamic
  import opened HostImage
  import opened HostSections
  import opened HostLoad

  // The two headers ---------------------------------------------------------------------------------

  /** The file has dynamic headers, all for one table. */
  predicate OneDynamic(phs: seq<Phdr>, v: U64) {
    && (exists ph | ph in phs :: ph.kind == PT_DYNAMIC)
    && forall ph | ph in phs && ph.kind == PT_DYNAMIC :: ph.vaddr == v
  }

  lemma {:induction false} LastDynamicIs(phs: seq<Phdr>, v: U64, base: U64)
    requires OneDynamic(phs, v)
    ensures DynamicAddr(base, 0, phs) == Wrap(base + v)
    decreases |phs|
  {
    var rest, last := phs[..|phs| - 1], phs[|phs| - 1];
    assert phs == rest + [last] && last in phs;
    if last.kind != PT_DYNAMIC {
      LastDynamicIs(rest, v, base);
    }
  }

  lemma {:induction false} FirstDynamicIs(phs: seq<Phdr>, v: U64, base: U64)
    requires OneDynamic(phs, v)
    ensures FirstDynamic(base, phs) == Some(Wrap(base + v))
    decreases |phs|
  {
    assert phs[0] in phs;
    if phs[0].kind != PT_DYNAMIC {
      assert phs == [phs[0]] + phs[1..];
      FirstDynamicIs(phs[1..], v, base);
    }
  }

  // Twins -----------------------------------------------------------------------------------------------

  /** The symbols from which the host makes its exports. */
  ghost function Exported(mh: Mem, loc: Located, end: nat): nat {
    if loc.gnuHash != 0 then Count(Section(mh, loc, end)) else CountIn(mh, loc, end)
  }

  /** Both loaders find the same definitions: those symbols are plain, the
      emulator's scan finds no definition behind them, and a GNU hash section is
      as linkers write it, the symbols it leaves out being undefined. */
  ghost predicate SymbolsReady(m: Mem, mh: Mem, libd: Lib, span: nat, loc: Located, end: nat) {
    var n := Exported(mh, loc, end);
    && SymbolsPlain(m, libd, span, n)
    && n <= StopIndex(m, libd, 0) && NoneAfter(m, libd, n, StopIndex(m, libd, 0))
    && (loc.gnuHash != 0 ==>
          var words := Section(mh, loc, end);
          && SectionTiled(words)
          && forall i: nat | i < words[1] && i < n :: SymbolAtHost(mh, loc.symtab, i).value == 0)
  }

  /** What the file must be for both loaders to find the same library in it. */
  ghost predicate Describable(m: Mem, mh: Mem, name: string, base: U64, r: Range, span: nat, dyn: U64, loc: Located,
                              end: nat) {
    var libd := ScanDynamic(m, EmptyLib(name, base, r, dyn), dyn);
    && TableInside(m, EmptyLib(name, base, r, dyn), dyn, span)
    && libd.symtab != 0 && libd.strtab != 0 && libd.strsz > 0
    && base <= libd.symtab && base <= libd.strtab && libd.strtab + libd.strsz <= base + span
    && libd.strtab + libd.strsz - 1 in m && m[libd.strtab + libd.strsz - 1] == 0
    && SectionReady(mh, loc, end) && SymbolsReady(m, mh, libd, span, loc, end)
  }

  /** Where the two images and their dynamic tables lie. */
  predicate ImagesApart(base: U64, hostBase: U64, span: nat, dyn: U64) {
    0 < base && base + span <= HEAP_ADDRESS && 0 < hostBase && hostBase + span < TWO64 && base <= dyn <= base + span
  }

  /** Main result: two copies of one file become twins, whichever section the
      host counts its symbols by: the same tables, the same symbols, each at its
      own place. */
  lemma ImagesAreTwins(m: Mem, mh: Mem, name: string, base: U64, r: Range, hostBase: U64, span: nat, dyn: U64,
                       loc: Located, end: nat)
    requires r.lo == 0 && ImagesApart(base, hostBase, span, dyn) && SameImage(m, mh, base, span, hostBase - base)
    requires loc == Locate(mh, hostBase, dyn + (hostBase - base), NOTHING_LOCATED)
    requires Describable(m, mh, name, base, r, span, dyn, loc, end)
    ensures Twin(Describe(m, name, base, r, dyn), HostLibrary(mh, hostBase, loc, end), CountIn(mh, loc, end),
                 hostBase - base)
  {
    hide SameImage, TableInside, SectionReady, SymbolsReady, ScanDynamic, Locate, CountIn, ExportsIn, ScanSymbols,
      TablesTwin, Twin, SymbolsMoved;
    var d := hostBase - base;
    var lib0 := EmptyLib(name, base, r, dyn);
    var libd := ScanDynamic(m, lib0, dyn);
    ScansAlike(m, mh, lib0, NOTHING_LOCATED, base, span, d, hostBase, dyn, dyn + d);
    ScanDynamicFields(m, lib0, dyn);
    LocatedTwin(m, mh, libd, loc, hostBase, span, d);
    ExportsAgree(m, mh, libd, loc, hostBase, span, d, end);
    var symbols := ScanSymbols(m, libd, 0, map[]);
    var exports := ExportsIn(mh, hostBase, loc, end);
    MovedParts(symbols, exports, d);
    TwinFromTables(m, mh, name, base, r, dyn, symbols, span, hostBase, CountIn(mh, loc, end), exports);
  }

  /** The host's exports are the emulator's symbols. */
  lemma ExportsAgree(m: Mem, mh: Mem, lib: Lib, loc: Located, hostBase: U64, span: nat, d: int, end: nat)
    requires TablesTwin(m, mh, lib, loc.symtab, loc.strtab, hostBase, span, d)
    requires SectionReady(mh, loc, end) && SymbolsReady(m, mh, lib, span, loc, end)
    ensures SymbolsMoved(ScanSymbols(m, lib, 0, map[]), ExportsIn(mh, hostBase, loc, end), d)
  {
    hide TablesTwin, SymbolsPlain, NoneAfter, SectionTiled, SectionOk, CountIn, Count, Walked, AddRange, ScanSymbols,
      SymbolAtHost, StopIndex, SymbolsMoved, SymbolsIn, Section;
    if loc.gnuHash != 0 {
      SymbolsAgree(m, mh, lib, loc, hostBase, span, d, Section(mh, loc, end));
    } else {
      LinearAgrees(m, mh, lib, loc, hostBase, span, d, CountIn(mh, loc, end));
    }
  }

  /** Without a GNU hash section: the pass over the counted symbols. */
  lemma LinearAgrees(m: Mem, mh: Mem, lib: Lib, loc: Located, hostBase: U64, span: nat, d: int, count: nat)
    requires TablesTwin(m, mh, lib, loc.symtab, loc.strtab, hostBase, span, d) && SymbolsPlain(m, lib, span, count)
    requires count <= StopIndex(m, lib, 0) && NoneAfter(m, lib, count, StopIndex(m, lib, 0))
    ensures SymbolsMoved(ScanSymbols(m, lib, 0, map[]),
                         AddRange(map[], hostBase, SymbolsIn(mh, loc.symtab, loc.strtab, count), 0, count), d)
  {
    hide TablesTwin, SymbolsPlain, NoneAfter, AddRange, ScanSymbols, StopsAt, SymbolsMoved, SymbolsIn, StopIndex;
    NoSymbols(d);
    ScanIsLinear(m, mh, lib, loc.symtab, loc.strtab, hostBase, span, d, count, StopIndex(m, lib, 0), 0, map[], map[]);
  }

  lemma LocatedTwin(m: Mem, mh: Mem, lib: Lib, loc: Located, hostBase: U64, span: nat, d: int)
    requires LocatedAlike(lib, loc, d) && SameImage(m, mh, lib.base, span, d) && hostBase == lib.base - lib.minVaddr + d
    requires lib.symtab != 0 && lib.strtab != 0 && lib.strsz > 0 && lib.base + span < TWO64
    requires lib.base <= lib.symtab && lib.base <= lib.strtab && lib.strtab + lib.strsz <= lib.base + span
    requires lib.strtab + lib.strsz - 1 in m && m[lib.strtab + lib.strsz - 1] == 0
    ensures TablesTwin(m, mh, lib, loc.symtab, loc.strtab, hostBase, span, d)
  {
    hide SameImage;
  }

  lemma MovedParts(s: map<string, U64>, t: map<string, U64>, d: int)
    requires SymbolsMoved(s, t, d)
    ensures t.Keys == s.Keys && forall n | n in s :: t[n] == Wrap(s[n] + d)
  {
  }

  lemma SectionParts(words: seq<U32>)
    requires SectionTiled(words)
    ensures SectionOk(words)
  {
    hide WellFormed, Tiles, Increasing;
  }

  lemma SymbolsAgree(m: Mem, mh: Mem, lib: Lib, loc: Located, hostBase: U64, span: nat, d: int, words: seq<U32>)
    requires TablesTwin(m, mh, lib, loc.symtab, loc.strtab, hostBase, span, d)
    requires SectionTiled(words) && SymbolsPlain(m, lib, span, Count(words))
    requires Count(words) <= StopIndex(m, lib, 0) && NoneAfter(m, lib, Count(words), StopIndex(m, lib, 0))
    requires forall i: nat | i < words[1] && i < Count(words) :: SymbolAtHost(mh, loc.symtab, i).value == 0
    ensures SectionOk(words)
    ensures SymbolsMoved(ScanSymbols(m, lib, 0, map[]), Walked(mh, hostBase, loc, words), d)
  {
    hide TablesTwin, SymbolsPlain, NoneAfter, WellFormed, Tiles, Increasing, SymCount, WalkFrom, AddRange,
      ScanSymbols, StopsAt, SymbolAtHost, StopIndex, SymbolsMoved;
    var count, n := Count(words), StopIndex(m, lib, 0);
    var syms := SymbolsIn(mh, loc.symtab, loc.strtab, count);
    NoSymbols(d);
    ScanIsLinear(m, mh, lib, loc.symtab, loc.strtab, hostBase, span, d, count, n, 0, map[], map[]);
    forall i | 0 <= i < Parse(words).symoffset && i < |syms|
      ensures syms[i].value == 0
    {
      assert syms[i] == SymbolHere(mh, loc.symtab, loc.strtab, i);
    }
    ExportsEqualLinear(hostBase, syms, Parse(words));
  }

  // From the file on -----------------------------------------------------------------------------------

  /** A file for both loaders, and room for it in both processes. */
  ghost predicate FileFits(st: State, phs: seq<Phdr>, file: seq<Byte>, base: U64, mh: Mem, hostBase: U64, v: U64) {
    var r, h := SpanOf(phs), HostSpan(phs);
    && GoodSegments(phs, file) && HasSegment(phs) && OneDynamic(phs, v) && v <= h.hi
    && r.lo < r.hi && 0 < base && base + (r.hi - r.lo) <= HEAP_ADDRESS && Unmapped(st.mem, base, r.hi - r.lo)
    && h.lo == 0 && 0 < hostBase && hostBase + h.hi < TWO64 && Unmapped(mh, hostBase, h.hi)
  }

  /** The host's image of a file. */
  function HostImageOf(mh: Mem, phs: seq<Phdr>, file: seq<Byte>, hostBase: U64): Mem
    requires hostBase + HostSpan(phs).hi <= TWO64 && forall ph | ph in phs :: ContentsInFile(ph, file)
  {
    CopySegments(MapRegion(mh, hostBase, HostSpan(phs).hi), hostBase, 0, phs, file)
  }

  lemma FileImages(st: State, name: string, phs: seq<Phdr>, file: seq<Byte>, base: U64, mh: Mem, hostBase: U64, v: U64)
    requires FileFits(st, phs, file, base, mh, hostBase, v)
    ensures forall ph | ph in phs :: ContentsInFile(ph, file)
    ensures SpanOf(phs).lo == 0 && base + HostSpan(phs).hi <= HEAP_ADDRESS && hostBase + HostSpan(phs).hi < TWO64
    ensures SpanOf(phs).lo < SpanOf(phs).hi
    ensures var st1 := PlaceLibrary(st, name, phs, file, base, SpanOf(phs)).0;
            var h1 := HostImageOf(mh, phs, file, hostBase);
            && SameImage(st1.mem, h1, base, HostSpan(phs).hi, hostBase - base)
            && SameLinks(st, st1)
            && st1.libs == st.libs + [Describe(st1.mem, name, base, SpanOf(phs), Wrap(base + v))]
    ensures FirstDynamic(hostBase, phs) == Some(Wrap(hostBase + v))
  {
    ImagesAgree(st, name, phs, file, base, mh, hostBase);
    EachGood(phs, file);
    SpansMatch(phs, file);
    LastDynamicIs(phs, v, base);
    FirstDynamicIs(phs, v, hostBase);
    hide GoodSegments, HasSegment, SpanOf, HostSpan, CopySegments, MapRegion, Unmapped, ContentsInFile, SameImage,
      Describe, DynamicAddr, FirstDynamic, OneDynamic, GoodSegment;
  }

  /** What the two images must be for their relocation to be compared. */
  ghost predicate ReadyToCompare(st1: State, h1: Mem, name: string, base: U64, r: Range, hostBase: U64, span: nat,
                                 v: U64, loc: Located) {
    && base + v < TWO64 && hostBase + v < TWO64
    && loc == Locate(h1, hostBase, hostBase + v, NOTHING_LOCATED)
    && Describable(st1.mem, h1, name, base, r, span, base + v, loc, hostBase + span)
    && var lib := Describe(st1.mem, name, base, r, base + v);
       var count := CountIn(h1, loc, hostBase + span);
       && Relocatable(st1.mem, lib, count) && TablesInside(lib, count, span)
       && TargetsInside(st1.mem, lib, span) && NamesInside(st1.mem, lib, count)
       && ApplyRelocations(st1, lib).Continue?
  }

  lemma ComparedAfter(st1: State, h1: Mem, name: string, base: U64, r: Range, hostBase: U64, span: nat, v: U64,
                      loc: Located, siblings: seq<map<string, U64>>, host: Host)
    requires ReadyToCompare(st1, h1, name, base, r, hostBase, span, v, loc)
    requires r.lo == 0 && ImagesApart(base, hostBase, span, base + v) && v <= span && LinkReady(st1)
    requires SameImage(st1.mem, h1, base, span, hostBase - base)
    ensures var lib := Describe(st1.mem, name, base, r, base + v);
            var ld := HostLibrary(h1, hostBase, loc, hostBase + span);
            ApplyRelocations(st1, lib).Continue? &&
            RelocatedAlike(st1.mem, ApplyRelocations(st1, lib).value.mem, Pass(h1, ld, siblings, host), lib, span,
              hostBase - base)
  {
    hide Describe, Locate, CountIn, Describable, Relocatable, TablesInside, TargetsInside, NamesInside, HostLibrary,
      ApplyRelocations, Pass, SectionReady, Twin, SameImage, RelocatedAlike, HeapOk;
    var lib := Describe(st1.mem, name, base, r, base + v);
    ImagesAreTwins(st1.mem, h1, name, base, r, hostBase, span, base + v, loc, hostBase + span);
    DescribeFields(st1.mem, name, base, r, base + v);
    AlikeAfter(st1, lib, CountIn(h1, loc, hostBase + span), span, h1, HostLibrary(h1, hostBase, loc, hostBase + span),
      siblings, host, hostBase - base);
  }

  /** Main result: load one file into the emulator and into the host, relocate
      both copies, and every word that refers into the library is the same
      reference in both, save a GLOB_DAT or JUMP_SLOT word with a non-zero
      addend; every byte no entry aims at is the same. */
  lemma FileToRelocatedImages(st: State, st1: State, name: string, phs: seq<Phdr>, file: seq<Byte>, base: U64,
                              mh: Mem, h1: Mem, hostBase: U64, v: U64, loc: Located, siblings: seq<map<string, U64>>,
                              host: Host)
    requires FileFits(st, phs, file, base, mh, hostBase, v) && LinkReady(st)
    requires PlacedBy(st, st1, name, phs, file, base) && HostPlacedBy(mh, h1, phs, file, hostBase)
    requires ReadyToCompare(st1, h1, name, base, SpanOf(phs), hostBase, HostSpan(phs).hi, v, loc)
    ensures ImageReady(h1, hostBase, phs)
    ensures var lib := Describe(st1.mem, name, base, SpanOf(phs), base + v);
            var ld := HostLibrary(h1, hostBase, loc, hostBase + HostSpan(phs).hi);
            && st1.libs == st.libs + [lib] && ApplyRelocations(st1, lib).Continue?
            && DescribedIn(h1, hostBase, phs) == Some(ld)
            && RelocatedAlike(st1.mem, ApplyRelocations(st1, lib).value.mem, Pass(h1, ld, siblings, host), lib,
                              HostSpan(phs).hi, hostBase - base)
  {
    hide SpanOf, HostSpan, PlaceLibrary, HostImageOf, Describe, ReadyToCompare, ApplyRelocations, Pass, SectionReady,
      HostLibrary, SameImage, RelocatedAlike, HeapOk, FirstDynamic, ContentsInFile, FileFits, ImageReady, DescribedIn;
    SpanAtZero(st, phs, file, base, mh, hostBase, v);
    FileImages(st, name, phs, file, base, mh, hostBase, v);
    FitParts(st, phs, file, base, mh, hostBase, v);
    assert Wrap(base + v) == base + v && Wrap(hostBase + v) == hostBase + v;
    ComparedAfter(st1, h1, name, base, SpanOf(phs), hostBase, HostSpan(phs).hi, v, loc, siblings, host);
    DescribedFound(st1, h1, name, base, SpanOf(phs), hostBase, v, loc, phs);
  }

  lemma SpanAtZero(st: State, phs: seq<Phdr>, file: seq<Byte>, base: U64, mh: Mem, hostBase: U64, v: U64)
    requires FileFits(st, phs, file, base, mh, hostBase, v)
    ensures HostSpan(phs).lo == 0
  {
    hide GoodSegments, HasSegment, SpanOf, HostSpan, Unmapped, OneDynamic;
  }

  /** The host describes its image by the tables it located there. */
  lemma DescribedFound(st1: State, h1: Mem, name: string, base: U64, r: Range, hostBase: U64, v: U64, loc: Located,
                       phs: seq<Phdr>)
    requires ReadyToCompare(st1, h1, name, base, r, hostBase, HostSpan(phs).hi, v, loc)
    requires FirstDynamic(hostBase, phs) == Some(hostBase + v) && HostSpan(phs).lo == 0 && r.lo == 0
    requires 0 < base && 0 < hostBase && hostBase + HostSpan(phs).hi < TWO64
    requires SameImage(st1.mem, h1, base, HostSpan(phs).hi, hostBase - base) && base + HostSpan(phs).hi <= HEAP_ADDRESS
    ensures ImageReady(h1, hostBase, phs)
    ensures DescribedIn(h1, hostBase, phs) == Some(HostLibrary(h1, hostBase, loc, hostBase + HostSpan(phs).hi))
  {
    hide HostSpan, Locate, CountIn, ExportsIn, SectionReady, SymbolsReady, Relocatable, TablesInside, TargetsInside,
      NamesInside, ApplyRelocations, Describe, FirstDynamic, SameImage, TableInside, ScanDynamic;
    TablesLocated(st1.mem, h1, name, base, r, hostBase, HostSpan(phs).hi, v, loc);
  }

  lemma TablesLocated(m: Mem, mh: Mem, name: string, base: U64, r: Range, hostBase: U64, span: nat, v: U64,
                      loc: Located)
    requires r.lo == 0 && 0 < base && 0 < hostBase && hostBase + span < TWO64 && base + span <= HEAP_ADDRESS
    requires SameImage(m, mh, base, span, hostBase - base) && base + v < TWO64
    requires loc == Locate(mh, hostBase, hostBase + v, NOTHING_LOCATED)
    requires Describable(m, mh, name, base, r, span, base + v, loc, hostBase + span)
    ensures loc.symtab != 0 && loc.strtab != 0
  {
    hide SameImage, TableInside, SectionReady, SymbolsReady, ScanDynamic, Locate, Wrap;
    var d := hostBase - base;
    var lib0 := EmptyLib(name, base, r, base + v);
    ScansAlike(m, mh, lib0, NOTHING_LOCATED, base, span, d, hostBase, base + v, hostBase + v);
    ScanDynamicFields(m, lib0, base + v);
  }

  /** The emulator has placed the file. */
  ghost predicate PlacedBy(st: State, st1: State, name: string, phs: seq<Phdr>, file: seq<Byte>, base: U64) {
    && SpanOf(phs).lo < SpanOf(phs).hi && (forall ph | ph in phs :: ContentsInFile(ph, file))
    && st1 == PlaceLibrary(st, name, phs, file, base, SpanOf(phs)).0
  }

  /** The host has placed the file. */
  ghost predicate HostPlacedBy(mh: Mem, h1: Mem, phs: seq<Phdr>, file: seq<Byte>, hostBase: U64) {
    && hostBase + HostSpan(phs).hi <= TWO64 && (forall ph | ph in phs :: ContentsInFile(ph, file))
    && h1 == HostImageOf(mh, phs, file, hostBase)
  }

  lemma FitParts(st: State, phs: seq<Phdr>, file: seq<Byte>, base: U64, mh: Mem, hostBase: U64, v: U64)
    requires FileFits(st, phs, file, base, mh, hostBase, v)
    ensures v <= HostSpan(phs).hi && 0 < base && 0 < hostBase && hostBase + HostSpan(phs).hi < TWO64
  {
    hide GoodSegments, HasSegment, SpanOf, HostSpan, Unmapped, OneDynamic;
  }

  /** The two relocated images, word by word and byte by byte. */
  ghost predicate RelocatedAlike(m0: Mem, m: Mem, mh: Mem, lib: Lib, span: nat, d: int) {
    && (forall e | e in Entries(m0, lib) && Internal(m0, lib, e) ::
          (PeekWord(mh, Target(lib, e) + d) == Wrap(PeekWord(m, Target(lib, e)) + d) <==>
           e.kind == R_RELATIVE || e.kind == R_ABS64 || e.addend == 0))
    && (forall a | lib.base <= a < lib.base + span && !Aimed(lib, Entries(m0, lib), a) :: SameByte(m, mh, a, d))
  }

  lemma AlikeAfter(st: State, lib: Lib, nsyms: nat, span: nat, mh: Mem, ld: Loader, siblings: seq<map<string, U64>>,
                   host: Host, d: int)
    requires LinkReady(st) && Relocatable(st.mem, lib, nsyms) && ApplyRelocations(st, lib).Continue?
    requires TablesInside(lib, nsyms, span) && TargetsInside(st.mem, lib, span) && lib.base + span <= HEAP_ADDRESS
    requires Twin(lib, ld, nsyms, d) && SameImage(st.mem, mh, lib.base, span, d) && NamesInside(st.mem, lib, nsyms)
    ensures RelocatedAlike(st.mem, ApplyRelocations(st, lib).value.mem, Pass(mh, ld, siblings, host), lib, span, d)
  {
    hide ApplyRelocations, Entries, Pass, Internal, TablesInside, Twin, SameImage, TargetsInside, PeekWord, HeapOk,
      Target, Aimed, NamesInside, SameByte, Relocatable;
    RelocatedImagesAgree(st, lib, nsyms, span, mh, ld, siblings, host, d);
  }
}
