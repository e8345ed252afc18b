/** What `ElfLoader::load` makes of a file before it relocates it. */
module HostLoad {
  import opened Words
  import opened GuestMemory
  import opened VmState
  import opened Resolver
  import opened Image
  import opened HostRelocation
  import opened GnuHashTable
  import opened HostProcess
  import opened HostSymbols
  import opened HostDynamic
  import opened HostImage
  import opened HostSections
  import opened PageProtection

  /** The segments noted for the page protections. */
  function SegmentsOf(phs: seq<Phdr>): seq<Segment> {
    if phs == [] then []
    else
      var last := phs[|phs| - 1];
      SegmentsOf(phs[..|phs| - 1]) + if last.kind == PT_LOAD then [Segment(last.vaddr, last.memsz, last.flags)] else []
  }

  predicate Placeable(phs: seq<Phdr>) {
    HasSegment(phs) && HostSpan(phs).lo < HostSpan(phs).hi
  }

  /** The image in memory. */
  function PlacedMem(m: Mem, phs: seq<Phdr>, file: seq<Byte>, base: U64): Mem
    requires Placeable(phs) && base + (HostSpan(phs).hi - HostSpan(phs).lo) <= TWO64
    requires forall ph | ph in phs :: ContentsInFile(ph, file)
  {
    CopySegments(MapRegion(m, base, HostSpan(phs).hi - HostSpan(phs).lo), base, 0, phs, file)
  }

  function EndOf(phs: seq<Phdr>, base: U64): int {
    base + HostSpan(phs).hi - HostSpan(phs).lo
  }

  const FALLBACK_LIMIT := 10000

  /** The scan used when there is no hash section: up to an empty entry, or 10001 entries. */
  function FallbackCount(m: Mem, symtab: U64, n: nat): nat
    decreases FALLBACK_LIMIT + 1 - n
  {
    var sym := SymbolAtHost(m, symtab, n);
    if sym.name == 0 && sym.value == 0 && n > 0 then n
    else if n + 1 > FALLBACK_LIMIT then n + 1
    else FallbackCount(m, symtab, n + 1)
  }

  /** What the source assumes of a hash section: chains that end. */
  ghost predicate SectionReady(m: Mem, loc: Located, end: nat) {
    loc.gnuHash != 0 ==> SectionOk(Section(m, loc, end))
  }

  ghost function CountIn(m: Mem, loc: Located, end: nat): nat {
    if loc.hash != 0 then Half(Peek(m, loc.hash + 4, 4))
    else if loc.gnuHash != 0 then Count(Section(m, loc, end))
    else FallbackCount(m, loc.symtab, 0)
  }

  ghost function ExportsIn(m: Mem, base: U64, loc: Located, end: nat): map<string, U64> {
    if loc.gnuHash != 0 then Walked(m, base, loc, Section(m, loc, end))
    else
      var count := CountIn(m, loc, end);
      AddRange(map[], base, SymbolsIn(m, loc.symtab, loc.strtab, count), 0, count)
  }

  /** The loader the host makes of the tables it located. */
  ghost function HostLibrary(m: Mem, base: U64, loc: Located, end: nat): Loader {
    LoaderOf(base, loc, CountIn(m, loc, end), ExportsIn(m, base, loc, end))
  }

  /** The tables the image names, if it has a dynamic table that names symbols and strings. */
  function LocatedIn(m: Mem, base: U64, phs: seq<Phdr>): Option<Located> {
    match FirstDynamic(base, phs)
    case None => None
    case Some(dyn) =>
      var loc := Locate(m, base, dyn, NOTHING_LOCATED);
      if loc.symtab == 0 || loc.strtab == 0 then None else Some(loc)
  }

  ghost predicate ImageReady(m: Mem, base: U64, phs: seq<Phdr>) {
    match LocatedIn(m, base, phs)
    case None => true
    case Some(loc) => EndOf(phs, base) >= 0 && SectionReady(m, loc, EndOf(phs, base))
  }

  /** The loader as `relocate` will see it. */
  ghost function DescribedIn(m: Mem, base: U64, phs: seq<Phdr>): Option<Loader> {
    match LocatedIn(m, base, phs)
    case None => None
    case Some(loc) => if EndOf(phs, base) >= 0 then Some(HostLibrary(m, base, loc, EndOf(phs, base))) else None
  }

  // The loops ---------------------------------------------------------------------------------------

  method FindDynamic(phs: seq<Phdr>, base: U64) returns (dyn: Option<U64>)
    ensures dyn == FirstDynamic(base, phs)
  {
    var i := 0;
    while i < |phs|
      invariant 0 <= i <= |phs| && FirstDynamic(base, phs) == FirstDynamic(base, phs[i..])
    {
      assert phs[i..][0] == phs[i] && phs[i..][1..] == phs[i + 1..];
      if phs[i].kind == PT_DYNAMIC {
        return Some(Wrap(base + phs[i].vaddr));
      }
      i := i + 1;
    }
    return None;
  }

  method NoteSegments(phs: seq<Phdr>) returns (segs: seq<Segment>)
    ensures segs == SegmentsOf(phs)
  {
    segs := [];
    var i := 0;
    while i < |phs|
      invariant 0 <= i <= |phs| && segs == SegmentsOf(phs[..i])
    {
      assert phs[..i + 1][..i] == phs[..i];
      if phs[i].kind == PT_LOAD {
        segs := segs + [Segment(phs[i].vaddr, phs[i].memsz, phs[i].flags)];
      }
      i := i + 1;
    }
    assert phs[..i] == phs;
  }

  method ScanForCount(proc: Process, symtab: U64) returns (n: nat)
    ensures n == FallbackCount(proc.mem, symtab, 0)
  {
    hide SymbolAtHost;
    n := 0;
    while true
      invariant n <= FALLBACK_LIMIT && FallbackCount(proc.mem, symtab, 0) == FallbackCount(proc.mem, symtab, n)
      decreases FALLBACK_LIMIT - n
    {
      var sym := SymbolAtHost(proc.mem, symtab, n);
      if sym.name == 0 && sym.value == 0 && n > 0 {
        return n;
      }
      if n + 1 > FALLBACK_LIMIT {
        return n + 1;
      }
      n := n + 1;
    }
  }

  method CountSymbols(proc: Process, loc: Located, end: nat) returns (count: nat)
    requires SectionReady(proc.mem, loc, end)
    ensures count == CountIn(proc.mem, loc, end)
  {
    hide WellFormed, SymCount, Section, FallbackCount;
    if loc.hash != 0 {
      return Half(Peek(proc.mem, loc.hash + 4, 4));
    }
    if loc.gnuHash != 0 {
      count := DeriveSymCount(Section(proc.mem, loc, end));
      return;
    }
    count := ScanForCount(proc, loc.symtab);
  }

  method CollectExports(proc: Process, base: U64, loc: Located, end: nat, count: nat)
    returns (exports: map<string, U64>)
    requires SectionReady(proc.mem, loc, end) && count == CountIn(proc.mem, loc, end)
    ensures exports == ExportsIn(proc.mem, base, loc, end)
  {
    hide WellFormed, SymCount, Section, CountIn, WalkFrom, AddRange, SymbolHere;
    if loc.gnuHash != 0 {
      var words := Section(proc.mem, loc, end);
      var hashed := DeriveSymCount(words);
      exports := BuildExports(words, SymbolsIn(proc.mem, loc.symtab, loc.strtab, hashed), base);
    } else {
      exports := BuildExportsLinear(SymbolsIn(proc.mem, loc.symtab, loc.strtab, count), base, count);
    }
  }
}
