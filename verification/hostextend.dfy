/** A relocation pass keeps to its own library: it does the same whether or not
    other memory is mapped around it, so loading another library before or after
    it makes no difference. */
module HostExtend {
  import opened Words
  import opened GuestMemory
  import opened Resolver
  import opened Relocation
  import opened Image
  import opened HostRelocation
  import opened HostImage
  import opened HostLoad

  /** All of one memory, and perhaps more. */
  ghost predicate Within(m: Mem, big: Mem) {
    forall a | a in m :: a in big && big[a] == m[a]
  }

  /** The library's tables and words are mapped. */
  ghost predicate SelfMapped(m: Mem, ld: Loader, strsz: nat) {
    && (forall a | InHostTables(ld, strsz, a) :: a in m)
    && forall e | e in AllEntries(m, ld) && Relocates(e) :: Mapped(m, HostTarget(ld, e), 8)
  }

  lemma PeekWithin(m: Mem, big: Mem, a: int, n: nat)
    requires Within(m, big) && Mapped(m, a, n)
    ensures Peek(big, a, n) == Peek(m, a, n)
  {
  }

  lemma {:induction false} CStringWithin(m: Mem, big: Mem, a: int)
    requires Within(m, big) && a + |CStringAt(m, a)| in m
    ensures CStringAt(big, a) == CStringAt(m, a)
    decreases TWO64 - a
  {
    hide CStringAt;
    CStringStep(m, a);
    CStringStep(big, a);
    if a in m && m[a] != 0 {
      CStringWithin(m, big, a + 1);
    }
  }

  lemma SymWithin(m: Mem, big: Mem, ld: Loader, strsz: nat, idx: U32)
    requires Within(m, big) && (forall a | InHostTables(ld, strsz, a) :: a in m) && idx < ld.symCount
    ensures HostSym(big, ld, idx) == HostSym(m, ld, idx)
  {
    hide DecodeSym, Peek, Within;
    var a := ld.symtab + SYM_SIZE * idx;
    assert SYM_SIZE * idx + SYM_SIZE <= SYM_SIZE * ld.symCount;
    assert forall x | a <= x < a + SYM_SIZE :: InHostTables(ld, strsz, x);
    PeekWithin(m, big, a, SYM_SIZE);
  }

  lemma StringWithin(m: Mem, big: Mem, ld: Loader, strsz: nat, name: U32)
    requires Within(m, big) && (forall a | InHostTables(ld, strsz, a) :: a in m)
    requires name < strsz && |CStringAt(m, ld.strtab + name)| < strsz - name
    ensures CStringAt(big, ld.strtab + name) == CStringAt(m, ld.strtab + name)
  {
    hide CStringAt, Within;
    var a := ld.strtab + name;
    assert InHostTables(ld, strsz, a + |CStringAt(m, a)|);
    CStringWithin(m, big, a);
  }

  lemma NameOk(m: Mem, ld: Loader, strsz: nat, idx: U32)
    requires HostTablesOk(m, ld, strsz) && idx < ld.symCount
    ensures var sym := HostSym(m, ld, idx);
            sym.name < strsz && |CStringAt(m, ld.strtab + sym.name)| < strsz - sym.name
  {
    hide HostSym, CStringAt;
  }

  lemma SymbolWithin(m: Mem, big: Mem, ld: Loader, strsz: nat, siblings: seq<map<string, U64>>, host: Host,
                     e: HostEntry)
    requires Within(m, big) && (forall a | InHostTables(ld, strsz, a) :: a in m) && HostTablesOk(m, ld, strsz)
    ensures SymbolOf(big, ld, siblings, host, e) == SymbolOf(m, ld, siblings, host, e)
  {
    hide Within, InHostTables, HostSym, CStringAt, ResolveHostName, Chars, HostTablesOk;
    if e.sym < ld.symCount {
      NameOk(m, ld, strsz, e.sym);
      SymWithin(m, big, ld, strsz, e.sym);
      StringWithin(m, big, ld, strsz, HostSym(m, ld, e.sym).name);
    }
  }

  lemma TablesOkWithin(m: Mem, big: Mem, ld: Loader, strsz: nat)
    requires Within(m, big) && (forall a | InHostTables(ld, strsz, a) :: a in m) && HostTablesOk(m, ld, strsz)
    ensures HostTablesOk(big, ld, strsz)
  {
    hide Within, InHostTables, HostSym, CStringAt;
    forall idx: U32 | idx < ld.symCount
      ensures var sym := HostSym(big, ld, idx);
              sym.name < strsz && |CStringAt(big, ld.strtab + sym.name)| < strsz - sym.name
    {
      SymWithin(m, big, ld, strsz, idx);
      StringWithin(m, big, ld, strsz, HostSym(m, ld, idx).name);
    }
  }

  lemma {:induction false} TableWithin(m: Mem, big: Mem, k: TableKind, table: U64, size: U64, i: nat)
    requires Within(m, big) && (table != 0 ==> Mapped(m, table, size))
    ensures TableEntries(big, k, table, size / EntrySize(k), i) == TableEntries(m, k, table, size / EntrySize(k), i)
    decreases size / EntrySize(k) - i
  {
    hide DecodeEntry, Peek, Within, Word, Half;
    if table != 0 && i < size / EntrySize(k) {
      var n := EntrySize(k);
      assert table + n * i + n <= table + size;
      PeekWithin(m, big, table + n * i, n);
      TableWithin(m, big, k, table, size, i + 1);
    }
  }

  lemma EntriesWithin(m: Mem, big: Mem, ld: Loader, strsz: nat)
    requires Within(m, big) && (forall a | InHostTables(ld, strsz, a) :: a in m)
    ensures AllEntries(big, ld) == AllEntries(m, ld)
  {
    hide Within, TableEntries;
    TablesInTables(ld, strsz);
    TableWithin(m, big, Rela, ld.rela, ld.relasz, 0);
    TableWithin(m, big, Rel, ld.rel, ld.relsz, 0);
    TableWithin(m, big, JmprelKind(ld), ld.jmprel, ld.pltrelsz, 0);
  }

  /** The steps of a pass, side by side. */
  lemma {:induction false} StepsWithin(m0: Mem, big0: Mem, m: Mem, big: Mem, ld: Loader, strsz: nat,
                                       siblings: seq<map<string, U64>>, host: Host, es: seq<HostEntry>)
    requires Within(m0, big0) && (forall a | InHostTables(ld, strsz, a) :: a in m0) && HostTablesOk(m0, ld, strsz)
    requires Within(m, big) && m.Keys == m0.Keys
    requires forall e | e in es && Relocates(e) :: Mapped(m0, HostTarget(ld, e), 8)
    ensures var r, s := StepsFrom(m0, m, ld, siblings, host, es), StepsFrom(big0, big, ld, siblings, host, es);
            Within(r, s) && forall a | a in big && a !in m0 :: s[a] == big[a]
    decreases |es|
  {
    hide InHostTables, HostTablesOk, StepFrom, Within, HostTarget, Relocates;
    if es != [] {
      var e := es[0];
      assert e in es;
      SymbolWithin(m0, big0, ld, strsz, siblings, host, e);
      StepWithin(m0, big0, m, big, ld, siblings, host, e);
      StepsWithin(m0, big0, StepFrom(m0, m, ld, siblings, host, e), StepFrom(big0, big, ld, siblings, host, e), ld,
        strsz,
                  siblings, host, es[1..]);
    }
  }

  lemma StepWithin(m0: Mem, big0: Mem, m: Mem, big: Mem, ld: Loader, siblings: seq<map<string, U64>>, host: Host,
                   e: HostEntry)
    requires Within(m, big) && (Relocates(e) ==> Mapped(m, HostTarget(ld, e), 8))
    requires SymbolOf(big0, ld, siblings, host, e) == SymbolOf(m0, ld, siblings, host, e)
    ensures var r, s := StepFrom(m0, m, ld, siblings, host, e), StepFrom(big0, big, ld, siblings, host, e);
            Within(r, s) && forall a | a in big && a !in m :: s[a] == big[a]
  {
    hide SymbolOf, HostTarget, ToLE, Peek, Relocates;
    if Relocates(e) {
      PeekWithin(m, big, HostTarget(ld, e), 8);
    }
  }

  /** Main result: a pass over more memory does to its library what it does
      alone, and nothing to the rest. */
  lemma PassWithin(m: Mem, big: Mem, ld: Loader, strsz: nat, siblings: seq<map<string, U64>>, host: Host)
    requires Within(m, big) && SelfMapped(m, ld, strsz) && Safe(m, ld, strsz)
    ensures Safe(big, ld, strsz) && AllEntries(big, ld) == AllEntries(m, ld)
    ensures var r, s := Pass(m, ld, siblings, host), Pass(big, ld, siblings, host);
            Within(r, s) && forall a | a in big && a !in m :: s[a] == big[a]
  {
    hide Within, InHostTables, HostTablesOk, StepsFrom, AllEntries, Pass, HostKept, TargetsClear, Relocates, HostTarget;
    EntriesWithin(m, big, ld, strsz);
    TablesOkWithin(m, big, ld, strsz);
    KeptRefl(m, ld, strsz);
    KeptRefl(big, ld, strsz);
    PassIsSteps(m, m, ld, strsz, siblings, host);
    PassIsSteps(big, big, ld, strsz, siblings, host);
    StepsWithin(m, big, m, big, ld, strsz, siblings, host, AllEntries(m, ld));
  }

  // Loading another library --------------------------------------------------------------------------

  /** A second file that goes into unmapped memory. */
  ghost predicate FitsBeside(m: Mem, phs: seq<Phdr>, file: seq<Byte>, base: U64) {
    && GoodSegments(phs, file) && Placeable(phs) && HostSpan(phs).lo == 0
    && base + HostSpan(phs).hi <= TWO64 && Unmapped(m, base, HostSpan(phs).hi)
    && forall ph | ph in phs :: ContentsInFile(ph, file)
  }

  /** Placing a file adds its image and changes nothing else; the image depends on the file alone. */
  lemma PlacedBeside(m: Mem, n: Mem, phs: seq<Phdr>, file: seq<Byte>, base: U64)
    requires FitsBeside(m, phs, file, base) && n.Keys == m.Keys
    ensures FitsBeside(n, phs, file, base)
    ensures var p, q := PlacedMem(m, phs, file, base), PlacedMem(n, phs, file, base);
            && p.Keys == q.Keys && Within(m, p) && Within(n, q)
            && forall a | a in p && a !in m :: q[a] == p[a]
  {
    hide GoodSegments, HostSpan, HasSegment, CopySegments, Loaded, MapRegion, Unmapped, ContentsInFile, Within, Fits;
    var span := HostSpan(phs).hi;
    SameUnmapped(m, n, base, span);
    HostImageCorrect(m, base, phs, file);
    HostImageCorrect(n, base, phs, file);
    SpanIsHigh(phs, file);
    var m1, n1 := MapRegion(m, base, span), MapRegion(n, base, span);
    SameRegion(m, n, m1, n1, base, span);
    OneImage(m, n, m1, n1, PlacedMem(m, phs, file, base), PlacedMem(n, phs, file, base), base, span, phs, file);
  }

  lemma SameUnmapped(m: Mem, n: Mem, base: U64, span: nat)
    requires Unmapped(m, base, span) && n.Keys == m.Keys
    ensures Unmapped(n, base, span)
  {
  }

  lemma SpanIsHigh(phs: seq<Phdr>, file: seq<Byte>)
    requires GoodSegments(phs, file) && HasSegment(phs) && HostSpan(phs).lo == 0
    ensures forall ph | ph in phs :: Fits(0, HostSpan(phs).hi, ph)
  {
    EachGood(phs, file);
    hide GoodSegments, HostSpan, HasSegment, GoodSegment, Fits;
    CopyFitsIff(phs, file);
  }

  lemma SameRegion(m: Mem, n: Mem, m1: Mem, n1: Mem, base: U64, span: nat)
    requires base + span <= TWO64 && Unmapped(m, base, span) && n.Keys == m.Keys
    requires m1 == MapRegion(m, base, span) && n1 == MapRegion(n, base, span)
    ensures m1.Keys == n1.Keys && Within(m, m1) && Within(n, n1)
    ensures forall a | a in m1 :: (a !in m <==> base <= a < base + span) && (a !in m ==> m1[a] == 0 && n1[a] == 0)
  {
    assert Unmapped(n, base, span);
    assert forall a :: a in m1 <==> a in n1;
  }

  lemma OneImage(m: Mem, n: Mem, m1: Mem, n1: Mem, p: Mem, q: Mem, base: U64, span: nat, phs: seq<Phdr>,
                 file: seq<Byte>)
    requires Loaded(m1, p, base, 0, phs, file) && Loaded(n1, q, base, 0, phs, file) && m1.Keys == n1.Keys
    requires Within(m, m1) && Within(n, n1) && n.Keys == m.Keys
    requires forall a | a in m1 :: (a !in m <==> base <= a < base + span) && (a !in m ==> m1[a] == 0 && n1[a] == 0)
    requires forall ph | ph in phs :: Fits(0, span, ph)
    ensures p.Keys == q.Keys && Within(m, p) && Within(n, q)
    ensures forall a | a in p && a !in m :: q[a] == p[a]
  {
    hide SegmentByte, Start;
    forall ph, a | ph in phs && Inside(base, 0, ph, a)
      ensures base <= a < base + span
    {
      InsideSpan(base, 0, span, ph, a);
    }
    hide Inside, Fits;
    forall a | a in p && a !in m
      ensures q[a] == p[a]
    {
      if ph :| ph in phs && Inside(base, 0, ph, a) {
      } else {
        assert p[a] == m1[a] && q[a] == n1[a];
      }
    }
  }

  /** Main result: a library may be relocated before another is placed or after:
      the memory is the same. */
  lemma PlaceAfterPass(m: Mem, ld: Loader, strsz: nat, siblings: seq<map<string, U64>>, host: Host, phs: seq<Phdr>,
                       file: seq<Byte>, base: U64)
    requires SelfMapped(m, ld, strsz) && Safe(m, ld, strsz) && FitsBeside(m, phs, file, base)
    ensures var both := PlacedMem(m, phs, file, base);
            && Safe(both, ld, strsz) && AllEntries(both, ld) == AllEntries(m, ld)
            && FitsBeside(Pass(m, ld, siblings, host), phs, file, base)
            && PlacedMem(Pass(m, ld, siblings, host), phs, file, base) == Pass(both, ld, siblings, host)
  {
    hide SelfMapped, Safe, PlacedMem, Pass, AllEntries, GoodSegments, Placeable, HostSpan, ContentsInFile, Unmapped;
    var r := Pass(m, ld, siblings, host);
    PlacedBeside(m, r, phs, file, base);
    var both, after := PlacedMem(m, phs, file, base), PlacedMem(r, phs, file, base);
    PassWithin(m, both, ld, strsz, siblings, host);
    var s := Pass(both, ld, siblings, host);
    assert s.Keys == both.Keys == after.Keys;
    forall a | a in both
      ensures after[a] == s[a]
    {
      if a in m {
        assert a in r && s[a] == r[a] && after[a] == r[a];
      } else {
        assert s[a] == both[a] && after[a] == both[a];
      }
    }
    assert after == s;
  }
}
