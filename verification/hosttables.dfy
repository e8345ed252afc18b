/** What the host reads of its image, on the bytes: each table where the last
    dynamic entry with its tag says, and the symbols a scan without a hash
    section counts. */
module HostTables {
  import opened Words
  import opened GuestMemory
  import opened Resolver
  import opened Image
  import opened DynamicTable
  import opened HostRelocation
  import opened HostSymbols
  import opened HostDynamic
  import opened HostSections
  import opened HostLoad
  import opened HostImage
  import opened SymbolBytes

  /** The entries, of 16 bytes each, up to the first with tag zero. */
  function HostDyns(m: Mem, at: nat): seq<Dyn>
    decreases TWO64 - at
  {
    if PeekWord(m, at) == 0 then []
    else
      TagInMemory(m, at);
      [Dyn(PeekWord(m, at), PeekWord(m, at + 8))] + HostDyns(m, at + 16)
  }

  /** An address: the base and the last value, or what was there before. */
  function PlacedAt(ds: seq<Dyn>, tag: U64, base: U64, before: U64): U64 {
    match LastOf(ds, tag)
    case Some(v) => (base + v) % 0x1_0000_0000_0000_0000
    case None => before
  }

  /** What the entries say, by the tags of the System V ABI (chapter 5, "Dynamic
      Section") and the GNU one. */
  ghost predicate LocatedBy(ds: seq<Dyn>, base: U64, loc: Located, r: Located) {
    && r.hash == PlacedAt(ds, 4, base, loc.hash)
    && r.strtab == PlacedAt(ds, 5, base, loc.strtab)
    && r.symtab == PlacedAt(ds, 6, base, loc.symtab)
    && r.rela == PlacedAt(ds, 7, base, loc.rela)
    && r.relasz == SizeOf(ds, 8, loc.relasz)
    && r.rel == PlacedAt(ds, 17, base, loc.rel)
    && r.relsz == SizeOf(ds, 18, loc.relsz)
    && r.jmprel == PlacedAt(ds, 23, base, loc.jmprel)
    && r.pltrelsz == SizeOf(ds, 2, loc.pltrelsz)
    && r.pltrelKind == SizeOf(ds, 20, loc.pltrelKind)
    && r.gnuHash == PlacedAt(ds, 0x6fff_fef5, base, loc.gnuHash)
  }

  lemma PlacedCons(d: Dyn, ds: seq<Dyn>, tag: U64, base: U64, before: U64)
    ensures PlacedAt([d] + ds, tag, base, before) ==
              PlacedAt(ds, tag, base, if d.tag == tag then Wrap(base + d.val) else before)
  {
    LastOfCons(d, ds, tag);
    hide LastOf;
  }

  lemma LocatedCons(d: Dyn, ds: seq<Dyn>, base: U64, loc: Located, r: Located)
    requires LocatedBy(ds, base, LocateOne(loc, base, d.tag, d.val), r)
    ensures LocatedBy([d] + ds, base, loc, r)
  {
    hide SizeOf, PlacedAt, Wrap;
    forall tag, before
      ensures SizeOf([d] + ds, tag, before) == SizeOf(ds, tag, if d.tag == tag then d.val else before)
      ensures PlacedAt([d] + ds, tag, base, before) ==
                PlacedAt(ds, tag, base, if d.tag == tag then Wrap(base + d.val) else before)
    {
      SizeCons(d, ds, tag, before);
      PlacedCons(d, ds, tag, base, before);
    }
  }

  lemma NothingSaid(base: U64, loc: Located)
    ensures LocatedBy([], base, loc, loc)
  {
  }

  /** Main result: the host finds every table where the last entry with its tag says. */
  lemma {:induction false} LocateIsLast(m: Mem, base: U64, at: nat, loc: Located)
    ensures LocatedBy(HostDyns(m, at), base, loc, Locate(m, base, at, loc))
    decreases TWO64 - at
  {
    hide LocatedBy, LocateOne, PeekWord;
    if PeekWord(m, at) == 0 {
      NothingSaid(base, loc);
    } else {
      TagInMemory(m, at);
      var d := Dyn(PeekWord(m, at), PeekWord(m, at + 8));
      LocateIsLast(m, base, at + 16, LocateOne(loc, base, d.tag, d.val));
      LocatedCons(d, HostDyns(m, at + 16), base, loc, Locate(m, base, at, loc));
    }
  }

  // Counting without a hash section ---------------------------------------------------------------------

  predicate EmptySymbol(m: Mem, symtab: U64, i: nat) {
    var r := RawSymbolAt(m, symtab + 24 * i);
    r.name == 0 && r.value == 0
  }

  lemma EmptyIsRaw(m: Mem, symtab: U64, i: nat)
    ensures var sym := SymbolAtHost(m, symtab, i);
            sym.name == 0 && sym.value == 0 <==> EmptySymbol(m, symtab, i)
  {
    DecodedSymbol(m, symtab + 24 * i);
  }

  lemma {:induction false} ScanFrom(m: Mem, symtab: U64, i: nat)
    requires i <= 10000
    ensures var n := FallbackCount(m, symtab, i);
            && 1 <= n && i <= n <= 10001
            && (forall j | i <= j < n && 1 <= j :: !EmptySymbol(m, symtab, j))
            && (n <= 10000 ==> EmptySymbol(m, symtab, n))
    decreases 10000 - i
  {
    hide SymbolAtHost, EmptySymbol;
    EmptyIsRaw(m, symtab, i);
    if i < 10000 && !(EmptySymbol(m, symtab, i) && i > 0) {
      ScanFrom(m, symtab, i + 1);
    }
  }

  /** The scan counts up to the first symbol after symbol 0 that has neither name
      nor value, or 10001 symbols when there is none among the next 10000. */
  lemma ScanCountsToEmpty(m: Mem, symtab: U64)
    ensures var n := FallbackCount(m, symtab, 0);
            && 1 <= n <= 10001 && (forall j | 1 <= j < n :: !EmptySymbol(m, symtab, j))
            && (n <= 10000 ==> EmptySymbol(m, symtab, n))
  {
    ScanFrom(m, symtab, 0);
  }

  // When an image can be described ------------------------------------------------------------------------

  /** Main result: the host accepts a placed image exactly when it has a dynamic
      header and the table there says where symbols and strings are. */
  lemma DescribedIffTables(m: Mem, base: U64, phs: seq<Phdr>)
    requires EndOf(phs, base) >= 0
    ensures DescribedIn(m, base, phs).Some? <==>
            match FirstDynamic(base, phs)
            case None => false
            case Some(dyn) =>
              PlacedAt(HostDyns(m, dyn), 6, base, 0) != 0 && PlacedAt(HostDyns(m, dyn), 5, base, 0) != 0
  {
    hide PlacedAt, HostDyns, Locate, CountIn, ExportsIn, FirstDynamic, HostSpan, SizeOf;
    match FirstDynamic(base, phs)
    case None =>
    case Some(dyn) => LocateIsLast(m, base, dyn, NOTHING_LOCATED);
  }
}
