/** The host's reading of the dynamic table, and when it describes the library
    the emulator does. */
module HostDynamic {
  import opened Words
  import opened GuestMemory
  import opened VmState
  import opened Image
  import opened Position
  import opened Twins
  import opened HostRelocation
  import opened HostProcess
  import opened Agreement

  const DT_PLTREL := 20
  const DT_HASH := 4
  const DT_GNU_HASH := 0x6fff_fef5

  /** What `ElfLoader::load` notes of the table. */
  datatype Located = Located(
    symtab: U64, strtab: U64, rela: U64, relasz: U64, rel: U64, relsz: U64, jmprel: U64, pltrelsz: U64, pltrelKind: U64,
    hash: U64, gnuHash: U64)

  const NOTHING_LOCATED := Located(0, 0, 0, 0, 0, 0, 0, 0, 0, 0, 0)

  function LocateOne(loc: Located, base: U64, tag: U64, val: U64): Located {
    var ptr := Wrap(base + val);
    if tag == DT_SYMTAB then loc.(symtab := ptr)
    else if tag == DT_STRTAB then loc.(strtab := ptr)
    else if tag == DT_RELA then loc.(rela := ptr)
    else if tag == DT_RELASZ then loc.(relasz := val)
    else if tag == Image.DT_REL then loc.(rel := ptr)
    else if tag == DT_RELSZ then loc.(relsz := val)
    else if tag == DT_JMPREL then loc.(jmprel := ptr)
    else if tag == DT_PLTRELSZ then loc.(pltrelsz := val)
    else if tag == DT_PLTREL then loc.(pltrelKind := val)
    else if tag == DT_HASH then loc.(hash := ptr)
    else if tag == DT_GNU_HASH then loc.(gnuHash := ptr)
    else loc
  }

  function TagAt(m: Mem, at: nat): U64 {
    PeekWord(m, at)
  }

  function ValueAt(m: Mem, at: nat): U64 {
    PeekWord(m, at + 8)
  }

  /** A tag above all of memory would read as DT_NULL. */
  lemma TagInMemory(m: Mem, at: nat)
    requires TagAt(m, at) != DT_NULL
    ensures at < TWO64
  {
    if at >= TWO64 {
      assert Peek(m, at, 8) == Zeros(8);
      ZeroWord();
    }
  }

  function Locate(m: Mem, base: U64, at: nat, loc: Located): Located
    decreases TWO64 - at
  {
    if TagAt(m, at) == DT_NULL then loc
    else
      TagInMemory(m, at);
      Locate(m, base, at + DYN_SIZE, LocateOne(loc, base, TagAt(m, at), ValueAt(m, at)))
  }

  /** The loop over the dynamic table. */
  method LocateTables(proc: Process, base: U64, dyn: U64) returns (loc: Located)
    ensures loc == Locate(proc.mem, base, dyn, NOTHING_LOCATED)
  {
    hide LocateOne, PeekWord;
    loc := NOTHING_LOCATED;
    var at: nat := dyn;
    while TagAt(proc.mem, at) != DT_NULL
      invariant Locate(proc.mem, base, dyn, NOTHING_LOCATED) == Locate(proc.mem, base, at, loc)
      decreases TWO64 - at
    {
      TagInMemory(proc.mem, at);
      loc := LocateOne(loc, base, TagAt(proc.mem, at), ValueAt(proc.mem, at));
      at := at + DYN_SIZE;
    }
  }

  // The two readings ------------------------------------------------------------------------------

  /** The table ends in the span, what it names starts there, at or above the
      lowest address, and it names no REL table. */
  ghost predicate TableInside(m: Mem, lib: Lib, at: nat, span: nat)
    decreases TWO64 - at
  {
    match Read(m, at, DYN_SIZE)
    case None => false
    case Some(bs) =>
      assert at in m;
      var tag, val := Word(bs[0..8]), Word(bs[8..16]);
      && at + DYN_SIZE <= lib.base + span
      && (tag == DT_NULL ||
          ((TableTag(tag) ==> val >= lib.minVaddr && lib.base <= Pointer(lib, val) <= lib.base + span)
           && tag != Image.DT_REL && (tag == DT_PLTREL ==> val != HostRelocation.DT_REL)
           && TableInside(m, lib, at + DYN_SIZE, span)))
  }

  /** The tables as both loaders have noted them so far. */
  ghost predicate LocatedAlike(lib: Lib, loc: Located, d: int) {
    && PointerMoved(lib.symtab, loc.symtab, d) && PointerMoved(lib.strtab, loc.strtab, d)
    && PointerMoved(lib.rela, loc.rela, d) && PointerMoved(lib.jmprel, loc.jmprel, d)
    && loc.relasz == lib.relasz && loc.pltrelsz == lib.pltrelsz
    && loc.rel == 0 && loc.pltrelKind != HostRelocation.DT_REL
  }

  lemma OneAlike(lib: Lib, loc: Located, d: int, hostBase: U64, span: nat, tag: U64, val: U64)
    requires LocatedAlike(lib, loc, d) && hostBase == lib.base - lib.minVaddr + d
    requires 0 < lib.base && 0 < lib.base + d && lib.base + d + span < TWO64
    requires TableTag(tag) ==> val >= lib.minVaddr && lib.base <= Pointer(lib, val) <= lib.base + span
    requires tag != Image.DT_REL && (tag == DT_PLTREL ==> val != HostRelocation.DT_REL)
    ensures LocatedAlike(ApplyDyn(lib, tag, val), LocateOne(loc, hostBase, tag, val), d)
    ensures ApplyDyn(lib, tag, val).base == lib.base && ApplyDyn(lib, tag, val).minVaddr == lib.minVaddr
  {
    hide Wrap;
    if TableTag(tag) {
      var x := lib.base + (val - lib.minVaddr);
      ShiftInRange(x, d, lib.base, span);
      assert hostBase + val == x + d;
    }
  }

  lemma SameTable(m: Mem, lib: Lib, lib1: Lib, at: nat, span: nat)
    requires TableInside(m, lib, at, span) && lib1.base == lib.base && lib1.minVaddr == lib.minVaddr
    ensures TableInside(m, lib1, at, span)
    decreases TWO64 - at
  {
    hide Word, Slice;
    match Read(m, at, DYN_SIZE)
    case Some(bs) =>
      assert at in m;
      if Word(bs[0..8]) != DT_NULL {
        SameTable(m, lib, lib1, at + DYN_SIZE, span);
      }
  }

  /** An entry inside the image reads the same in both. */
  lemma EntryAlike(m: Mem, mh: Mem, lo: int, span: nat, d: int, at: nat, at2: nat)
    requires SameImage(m, mh, lo, span, d) && lo <= at && at + DYN_SIZE <= lo + span && at2 == at + d
    requires Read(m, at, DYN_SIZE).Some?
    ensures var bs := Read(m, at, DYN_SIZE).value;
            TagAt(mh, at2) == Word(bs[0..8]) && ValueAt(mh, at2) == Word(bs[8..16])
  {
    hide Word;
    PeekSame(m, mh, lo, span, d, at, DYN_SIZE);
    var bs := Read(m, at, DYN_SIZE).value;
    assert bs == Peek(mh, at2, DYN_SIZE);
    assert bs[0..8] == Peek(mh, at2, 8);
    assert bs[8..16] == Peek(mh, at2 + 8, 8);
  }

  /** Main result: read in the two images, a table that ends in its library and
      names tables there gives both loaders the same tables. */
  lemma {:induction false} ScansAlike(m: Mem, mh: Mem, lib: Lib, loc: Located, lo: int, span: nat, d: int,
                                      hostBase: U64, at: nat, at2: nat)
    requires SameImage(m, mh, lo, span, d) && lib.base == lo <= at && at2 == at + d
    requires LocatedAlike(lib, loc, d) && hostBase == lib.base - lib.minVaddr + d
    requires 0 < lib.base && 0 < lib.base + d && lib.base + d + span < TWO64
    requires TableInside(m, lib, at, span)
    ensures LocatedAlike(ScanDynamic(m, lib, at), Locate(mh, hostBase, at2, loc), d)
    decreases TWO64 - at
  {
    hide SameImage, Word, Pointer, ApplyDyn, LocateOne, LocatedAlike, TableTag, PeekWord, TagAt, ValueAt, Slice;
    match Read(m, at, DYN_SIZE)
    case Some(bs) =>
      assert at in m;
      EntryAlike(m, mh, lo, span, d, at, at2);
      var tag, val := Word(bs[0..8]), Word(bs[8..16]);
      if tag != DT_NULL {
        TagInMemory(mh, at2);
        OneAlike(lib, loc, d, hostBase, span, tag, val);
        SameTable(m, lib, ApplyDyn(lib, tag, val), at + DYN_SIZE, span);
        ScansAlike(m, mh, ApplyDyn(lib, tag, val), LocateOne(loc, hostBase, tag, val), lo, span, d, hostBase,
                   at + DYN_SIZE, at2 + DYN_SIZE);
      }
  }

  /** The loader that the host makes of what it located. */
  function LoaderOf(base: U64, loc: Located, symCount: nat, exports: map<string, U64>): Loader {
    Loader(base, loc.symtab, loc.strtab, symCount, exports, loc.rela, loc.relasz, loc.rel, loc.relsz,
           loc.jmprel, loc.pltrelsz, loc.pltrelKind)
  }

  /** Main result: so the two descriptions are twins, once both loaders have
      found the same symbols. */
  lemma TwinFromTables(m: Mem, mh: Mem, name: string, base: U64, r: Range, dyn: U64, symbols: map<string, U64>,
                       span: nat, hostBase: U64, nsyms: nat, exports: map<string, U64>)
    requires var d := hostBase - (base - r.lo);
             && SameImage(m, mh, base, span, d) && base <= dyn && 0 < base + d && base + d + span < TWO64
             && exports.Keys == symbols.Keys && (forall n | n in symbols :: exports[n] == Wrap(symbols[n] + d))
             && 0 <= dyn + d
    requires 0 < base && hostBase != 0 && TableInside(m, EmptyLib(name, base, r, dyn), dyn, span)
    requires var lib := ScanDynamic(m, EmptyLib(name, base, r, dyn), dyn); lib.symtab != 0 && lib.strtab != 0
    ensures var d := hostBase - (base - r.lo);
            var lib := ScanDynamic(m, EmptyLib(name, base, r, dyn), dyn).(symbols := symbols);
            Twin(lib, LoaderOf(hostBase, Locate(mh, hostBase, dyn + d, NOTHING_LOCATED), nsyms, exports), nsyms, d)
  {
    hide SameImage, TableInside, ScanDynamic, Locate, Wrap;
    var d := hostBase - (base - r.lo);
    var lib0 := EmptyLib(name, base, r, dyn);
    ScansAlike(m, mh, lib0, NOTHING_LOCATED, base, span, d, hostBase, dyn, dyn + d);
    ScanDynamicFields(m, lib0, dyn);
  }
}
