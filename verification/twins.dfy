/** Position independence from the file on: loading one file at two places gives
    the same library moved, down to its tables and symbols, so relocating the
    two copies is the situation of module Position. */
module Twins {
  import opened Words
  import opened GuestMemory
  import opened PageAlloc
  import opened VmState
  import opened Resolver
  import opened Relocation
  import opened Image
  import opened Position

  // The image ---------------------------------------------------------------------------

  /** Behind the two places the same addresses are mapped, as far as a name's buffer reaches. */
  ghost predicate TailAlike(m: Mem, m2: Mem, end: int, d: int) {
    forall a | end <= a < end + NAME_BUFFER :: MappedAlike(m, m2, a, d)
  }

  lemma ImagesMoved(m: Mem, m2: Mem, after: Mem, after2: Mem, base: U64, base2: U64, r: Range, phs: seq<Phdr>,
                    file: seq<Byte>)
    requires r.lo < r.hi && TailAlike(m, m2, base + (r.hi - r.lo), base2 - base)
    requires ImageOf(m, after, base, r, phs, file) && ImageOf(m2, after2, base2, r, phs, file)
    ensures ImageMoved(after, after2, base, r.hi - r.lo, base2 - base)
  {
    hide Inside, Start, SegmentByte;
    var d, end := base2 - base, base + (r.hi - r.lo);
    forall a | base <= a < end
      ensures SameByte(after, after2, a, d)
    {
      if ph :| ph in phs && Inside(base, r.lo, ph, a) {
        InsideMoved(base, base2, r.lo, ph, a);
      } else {
        forall ph | ph in phs
          ensures !Inside(base2, r.lo, ph, a + d)
        {
          InsideMoved(base, base2, r.lo, ph, a);
        }
      }
    }
    forall a | end <= a < end + NAME_BUFFER
      ensures MappedAlike(after, after2, a, d)
    {
      assert MappedAlike(m, m2, a, d);
    }
  }

  // The dynamic table -------------------------------------------------------------------

  predicate TableTag(tag: U64) {
    tag == DT_SYMTAB || tag == DT_STRTAB || tag == DT_RELA || tag == DT_JMPREL
  }

  /** The dynamic section is read inside the span, and every table it names starts there. */
  ghost predicate DynamicInside(m: Mem, lib: Lib, at: nat, span: nat)
    decreases TWO64 - at
  {
    match Read(m, at, DYN_SIZE)
    case None => true
    case Some(bs) =>
      assert at in m;
      var tag, val := Word(bs[0..8]), Word(bs[8..16]);
      && at + DYN_SIZE <= lib.base + span
      && (tag == DT_NULL ||
          ((TableTag(tag) ==> lib.base <= Pointer(lib, val) <= lib.base + span)
           && DynamicInside(m, lib, at + DYN_SIZE, span)))
  }

  lemma ShiftInRange(x: int, d: int, lo: int, span: nat)
    requires 0 < lo <= Wrap(x) <= lo + span && 0 < lo + d && lo + d + span < TWO64
    ensures Wrap(x + d) == Wrap(x) + d
  {
    WrapShift(x, d);
    assert 0 <= Wrap(x) + d < TWO64;
  }

  lemma PointerShift(lib: Lib, lib2: Lib, d: int, val: U64, span: nat)
    requires lib2.base == lib.base + d && lib2.minVaddr == lib.minVaddr
    requires 0 < lib.base <= Pointer(lib, val) <= lib.base + span && 0 < lib2.base && lib2.base + span < TWO64
    ensures PointerMoved(Pointer(lib, val), Pointer(lib2, val), d)
  {
    hide Wrap;
    var x := if val >= lib.minVaddr then lib.base + (val - lib.minVaddr) else lib.base + val;
    ShiftInRange(x, d, lib.base, span);
    assert x + d == if val >= lib2.minVaddr then lib2.base + (val - lib2.minVaddr) else lib2.base + val;
  }

  lemma DynMoved(lib: Lib, lib2: Lib, d: int, tag: U64, val: U64, span: nat)
    requires Moved(lib, lib2, d) && 0 < lib.base && 0 < lib2.base && lib2.base + span < TWO64
    requires TableTag(tag) ==> lib.base <= Pointer(lib, val) <= lib.base + span
    ensures Moved(ApplyDyn(lib, tag, val), ApplyDyn(lib2, tag, val), d)
    ensures ApplyDyn(lib, tag, val).base == lib.base && ApplyDyn(lib, tag, val).minVaddr == lib.minVaddr
  {
    if TableTag(tag) {
      PointerShift(lib, lib2, d, val, span);
    }
    hide Pointer, PointerMoved;
  }

  lemma DynamicInsideSame(m: Mem, lib: Lib, lib1: Lib, at: nat, span: nat)
    requires DynamicInside(m, lib, at, span) && lib1.base == lib.base && lib1.minVaddr == lib.minVaddr
    ensures DynamicInside(m, lib1, at, span)
    decreases TWO64 - at
  {
    hide Word, Slice;
    match Read(m, at, DYN_SIZE)
    case None =>
    case Some(bs) =>
      assert at in m;
      if Word(bs[0..8]) != DT_NULL {
        DynamicInsideSame(m, lib, lib1, at + DYN_SIZE, span);
      }
  }

  lemma {:induction false} ScanDynamicMoved(m: Mem, m2: Mem, lib: Lib, lib2: Lib, lo: int, span: nat, d: int, at: nat,
                                            at2: nat)
    requires ImageMoved(m, m2, lo, span, d) && Moved(lib, lib2, d) && lib.base == lo
    requires lo <= at <= lo + span && at2 == at + d
    requires 0 < lib.base && 0 < lib2.base && lib2.base + span < TWO64
    requires DynamicInside(m, lib, at, span)
    ensures Moved(ScanDynamic(m, lib, at), ScanDynamic(m2, lib2, at2), d)
    decreases TWO64 - at
  {
    hide ImageMoved, Moved, Word, Pointer, ApplyDyn, TableTag, SameImage, Mapped;
    MappedMoved(m, m2, lo, span, d, at, at2, DYN_SIZE);
    match Read(m, at, DYN_SIZE)
    case None =>
    case Some(bs) =>
      MovedBytes(m, m2, lo, span, d);
      ReadMoved(m, m2, lo, span, d, at, at2, DYN_SIZE);
      FirstMapped(m, at, DYN_SIZE);
      FirstMapped(m2, at2, DYN_SIZE);
      var tag, val := Word(bs[0..8]), Word(bs[8..16]);
      if tag != DT_NULL {
        DynMoved(lib, lib2, d, tag, val, span);
        MovedBase(lib, lib2, d);
        var next, next2 := ApplyDyn(lib, tag, val), ApplyDyn(lib2, tag, val);
        MovedBase(next, next2, d);
        DynamicInsideSame(m, lib, next, at + DYN_SIZE, span);
        ScanDynamicMoved(m, m2, next, next2, lo, span, d, at + DYN_SIZE, at2 + DYN_SIZE);
      }
  }

  lemma FirstMapped(m: Mem, a: int, n: nat)
    requires Mapped(m, a, n) && n > 0
    ensures a in m
  {
  }

  // The symbols -------------------------------------------------------------------------

  ghost predicate ScannedMoved(s: Scanned, t: Scanned, d: int) {
    match (s, t)
    case (Stop, Stop) => true
    case (Skip, Skip) => true
    case (Define(n, a), Define(k, b)) => n == k && b == Wrap(a + d)
    case _ => false
  }

  ghost predicate SymbolsMoved(s: map<string, U64>, t: map<string, U64>, d: int) {
    && t.Keys == s.Keys
    && forall n | n in s :: t[n] == Wrap(s[n] + d)
  }

  /** What the symbol scan needs of the two descriptions. */
  ghost predicate ScanSetting(m: Mem, m2: Mem, lib: Lib, lib2: Lib, span: nat, d: int) {
    && ImageMoved(m, m2, lib.base, span, d)
    && lib2.base == lib.base + d && lib2.minVaddr == lib.minVaddr && lib2.strsz == lib.strsz
    && lib2.symtab == lib.symtab + d && lib.base <= lib.symtab
    && lib2.strtab == lib.strtab + d && lib.base <= lib.strtab && lib.strtab + lib.strsz <= lib.base + span
    && lib.base + span <= HEAP_ADDRESS && lib2.base + span <= HEAP_ADDRESS
    && StringsEnd(m, lib, span)
  }

  /** An entry that is not cut off by the end of the span. */
  ghost predicate EntryInside(m: Mem, lib: Lib, span: nat, i: nat) {
    var at := lib.symtab + SYM_SIZE * i;
    at <= lib.base + span && (Mapped(m, at, SYM_SIZE) ==> at + SYM_SIZE <= lib.base + span)
  }

  lemma ScanEntryMoved(m: Mem, m2: Mem, lib: Lib, lib2: Lib, span: nat, d: int, i: nat)
    requires ScanSetting(m, m2, lib, lib2, span, d) && EntryInside(m, lib, span, i)
    ensures ScannedMoved(ScanEntry(m, lib, i), ScanEntry(m2, lib2, i), d)
  {
    hide ImageMoved, NameAt, DecodeSym, SameImage, Mapped, Slice, VaddrIn, StringsEnd;
    var a, b := lib.symtab + SYM_SIZE * i, lib2.symtab + SYM_SIZE * i;
    MappedMoved(m, m2, lib.base, span, d, a, b, SYM_SIZE);
    if Mapped(m, a, SYM_SIZE) {
      MovedBytes(m, m2, lib.base, span, d);
      ReadMoved(m, m2, lib.base, span, d, a, b, SYM_SIZE);
      var sym := DecodeSym(Slice(m, a, SYM_SIZE));
      NameMoved(m, m2, lib, lib2, span, d, sym.name);
      VaddrMoved(lib, lib2, d, sym.value);
      hide Wrap;
    }
  }

  /** Entries before one that is inside are inside too. */
  lemma EarlierInside(m: Mem, lib: Lib, span: nat, i: nat, n: nat)
    requires EntryInside(m, lib, span, n) && i <= n
    ensures EntryInside(m, lib, span, i)
  {
    assert i < n ==> SYM_SIZE * i + SYM_SIZE <= SYM_SIZE * n;
  }

  lemma {:induction false} ScanSymbolsMoved(m: Mem, m2: Mem, lib: Lib, lib2: Lib, span: nat, d: int, i: nat, n: nat,
                                            acc: map<string, U64>, acc2: map<string, U64>)
    requires ScanSetting(m, m2, lib, lib2, span, d) && StopsAt(m, lib, i, n) && EntryInside(m, lib, span, n)
    requires SymbolsMoved(acc, acc2, d)
    ensures SymbolsMoved(ScanSymbols(m, lib, i, acc), ScanSymbols(m2, lib2, i, acc2), d)
    decreases TWO64 - (lib.symtab + SYM_SIZE * i)
  {
    hide ScanSetting, ScanEntry, SymbolsMoved, EntryInside;
    EarlierInside(m, lib, span, i, n);
    ScanEntryMoved(m, m2, lib, lib2, span, d, i);
    match ScanEntry(m, lib, i)
    case Stop =>
    case Skip =>
      ReadableBelowTop(m, lib, i);
      ScanSymbolsMoved(m, m2, lib, lib2, span, d, i + 1, n, acc, acc2);
    case Define(name, a) =>
      ReadableBelowTop(m, lib, i);
      var b := ScanEntry(m2, lib2, i).addr;
      AddMoved(acc, acc2, d, name, a, b);
      ScanSymbolsMoved(m, m2, lib, lib2, span, d, i + 1, n, acc[name := a], acc2[name := b]);
  }

  lemma AddMoved(acc: map<string, U64>, acc2: map<string, U64>, d: int, name: string, a: U64, b: U64)
    requires SymbolsMoved(acc, acc2, d) && b == Wrap(a + d)
    ensures SymbolsMoved(acc[name := a], acc2[name := b], d)
  {
    hide Wrap;
    assert acc[name := a].Keys == acc.Keys + {name};
    assert acc2[name := b].Keys == acc2.Keys + {name};
  }

  // The whole description ------------------------------------------------------------------

  /** The symbols are scanned inside the span, and the names end there. */
  ghost predicate SymbolsInside(m: Mem, lib: Lib, span: nat) {
    && lib.base <= lib.symtab && lib.base <= lib.strtab && lib.strtab + lib.strsz <= lib.base + span
    && StringsEnd(m, lib, span) && EntryInside(m, lib, span, StopIndex(m, lib, 0))
  }

  /** The file's tables, read at the first place, are read inside its span. */
  ghost predicate TablesStartInside(m: Mem, name: string, base: U64, r: Range, dyn: U64)
    requires r.lo < r.hi
  {
    var span := r.hi - r.lo;
    var lib0 := EmptyLib(name, base, r, dyn);
    && (dyn != 0 ==> base <= dyn <= base + span && DynamicInside(m, lib0, dyn, span))
    && var lib := if dyn != 0 then ScanDynamic(m, lib0, dyn) else lib0;
       lib.symtab != 0 && lib.strtab != 0 && lib.strsz != 0 ==> SymbolsInside(m, lib, span)
  }

  lemma EmptyMoved(name: string, base: U64, base2: U64, r: Range, dyn: U64, dyn2: U64)
    ensures Moved(EmptyLib(name, base, r, dyn), EmptyLib(name, base2, r, dyn2), base2 - base)
  {
  }

  lemma DescribeMoved(m: Mem, m2: Mem, name: string, base: U64, base2: U64, r: Range, dyn: U64, dyn2: U64)
    requires r.lo < r.hi && ImageMoved(m, m2, base, r.hi - r.lo, base2 - base)
    requires TablesStartInside(m, name, base, r, dyn) && PointerMoved(dyn, dyn2, base2 - base)
    requires 0 < base && base + (r.hi - r.lo) <= HEAP_ADDRESS && 0 < base2 && base2 + (r.hi - r.lo) <= HEAP_ADDRESS
    ensures Moved(Describe(m, name, base, r, dyn), Describe(m2, name, base2, r, dyn2), base2 - base)
  {
    var d, span := base2 - base, r.hi - r.lo;
    var lib0, lib02 := EmptyLib(name, base, r, dyn), EmptyLib(name, base2, r, dyn2);
    EmptyMoved(name, base, base2, r, dyn, dyn2);
    hide ImageMoved, DynamicInside, ScanSymbols, ScanDynamic, Moved;
    if dyn != 0 {
      ScanDynamicMoved(m, m2, lib0, lib02, base, span, d, dyn, dyn2);
    }
    var lib := if dyn != 0 then ScanDynamic(m, lib0, dyn) else lib0;
    var lib2 := if dyn2 != 0 then ScanDynamic(m2, lib02, dyn2) else lib02;
    if dyn != 0 {
      ScanDynamicFields(m, lib0, dyn);
      ScanDynamicFields(m2, lib02, dyn2);
    }
    FinishMoved(m, m2, lib, lib2, base, span, d);
  }

  function Finish(m: Mem, lib: Lib): Lib {
    if lib.symtab != 0 && lib.strtab != 0 && lib.strsz != 0 then lib.(symbols := ScanSymbols(m, lib, 0, map[])) else lib
  }

  lemma FinishMoved(m: Mem, m2: Mem, lib: Lib, lib2: Lib, base: U64, span: nat, d: int)
    requires Moved(lib, lib2, d) && lib.base == base && ImageMoved(m, m2, base, span, d)
    requires lib.symtab != 0 && lib.strtab != 0 && lib.strsz != 0 ==> SymbolsInside(m, lib, span)
    requires 0 < base && base + span <= HEAP_ADDRESS && 0 < lib2.base && lib2.base + span <= HEAP_ADDRESS
    ensures Moved(Finish(m, lib), Finish(m2, lib2), d)
  {
    hide ImageMoved, ScanSymbols, StringsEnd, EntryInside, StopsAt, StopIndex;
    NoSymbols(d);
    if lib.symtab != 0 && lib.strtab != 0 && lib.strsz != 0 {
      assert ScanSetting(m, m2, lib, lib2, span, d);
      ScanSymbolsMoved(m, m2, lib, lib2, span, d, 0, StopIndex(m, lib, 0), map[], map[]);
      hide ScanSetting;
    }
  }

  lemma NoSymbols(d: int)
    ensures SymbolsMoved(map[], map[], d)
  {
  }

  // Loading the file at two places ------------------------------------------------------------

  lemma {:induction false} DynamicAddrMoved(base: U64, base2: U64, lo: U64, span: nat, phs: seq<Phdr>)
    requires 0 < base && 0 < base2 && base + span < TWO64 && base2 + span < TWO64
    requires DynamicAddr(base, lo, phs) != 0 ==> base <= DynamicAddr(base, lo, phs) <= base + span
    requires forall ph | ph in phs && ph.kind == PT_DYNAMIC :: Place(base, lo, ph) != 0
    ensures PointerMoved(DynamicAddr(base, lo, phs), DynamicAddr(base2, lo, phs), base2 - base)
    decreases |phs|
  {
    if phs != [] {
      var last := phs[|phs| - 1];
      if last.kind == PT_DYNAMIC {
        assert last in phs;
        WrapShift(base + (last.vaddr - lo), base2 - base);
        assert base2 + (last.vaddr - lo) == base + (last.vaddr - lo) + (base2 - base);
      } else {
        DynamicAddrMoved(base, base2, lo, span, phs[..|phs| - 1]);
      }
    }
  }

  /** Unmapped room at `base`, below the heap. */
  ghost predicate Room(st: State, base: U64, span: nat) {
    0 < base && base + span <= HEAP_ADDRESS && Unmapped(st.mem, base, span)
  }

  /** Main result: one file placed at two bases gives moved images and moved descriptions. */
  lemma PlacedTwins(x: State, y: State, name: string, phs: seq<Phdr>, file: seq<Byte>, base: U64, base2: U64, r: Range)
    requires GoodSegments(phs, file) && r == SpanOf(phs) && r.lo < r.hi
    requires Room(x, base, r.hi - r.lo) && Room(y, base2, r.hi - r.lo)
    requires TailAlike(x.mem, y.mem, base + (r.hi - r.lo), base2 - base)
    requires forall ph | ph in phs && ph.kind == PT_DYNAMIC :: Place(base, r.lo, ph) != 0
    requires forall ph | ph in phs :: ContentsInFile(ph, file)
    requires TablesStartInside(PlaceLibrary(x, name, phs, file, base, r).0.mem, name, base, r,
               DynamicAddr(base, r.lo, phs))
    ensures var x1, y1 := PlaceLibrary(x, name, phs, file, base, r).0, PlaceLibrary(y, name, phs, file, base2, r).0;
            && |x1.libs| == |x.libs| + 1 && |y1.libs| == |y.libs| + 1
            && ImageMoved(x1.mem, y1.mem, base, r.hi - r.lo, base2 - base)
            && Moved(x1.libs[|x.libs|], y1.libs[|y.libs|], base2 - base)
  {
    hide GoodSegments, ContentsInFile, SpanOf, ImageOf, CopySegments, MapRegion, Describe, DynamicInside, Unmapped,
      ImageMoved, Moved, Place, TailAlike;
    ImageCorrect(x, name, phs, file, base, r);
    ImageCorrect(y, name, phs, file, base2, r);
    var x1, y1 := PlaceLibrary(x, name, phs, file, base, r).0, PlaceLibrary(y, name, phs, file, base2, r).0;
    ImagesMoved(x.mem, y.mem, x1.mem, y1.mem, base, base2, r, phs, file);
    var dyn, dyn2 := DynamicAddr(base, r.lo, phs), DynamicAddr(base2, r.lo, phs);
    DynamicAddrMoved(base, base2, r.lo, r.hi - r.lo, phs);
    DescribeMoved(x1.mem, y1.mem, name, base, base2, r, dyn, dyn2);
    hide TablesStartInside, DynamicAddr;
  }

  lemma PlacedFields(st: State, name: string, phs: seq<Phdr>, file: seq<Byte>, base: U64, r: Range)
    requires r.lo < r.hi && Room(st, base, r.hi - r.lo) && forall ph | ph in phs :: ContentsInFile(ph, file)
    ensures var after := PlaceLibrary(st, name, phs, file, base, r).0;
            && SameLinks(st, after) && |after.libs| == |st.libs| + 1 && after.libs[..|st.libs|] == st.libs
            && after.libs[|st.libs|].base == base
            && 0 < base && base + (r.hi - r.lo) <= HEAP_ADDRESS
  {
    hide CopySegments, MapRegion, Describe, Unmapped, DynamicAddr, ContentsInFile;
    var m := CopySegments(MapRegion(st.mem, base, r.hi - r.lo), base, r.lo, phs, file);
    DescribeFields(m, name, base, r, DynamicAddr(base, r.lo, phs));
  }

  // Loading several files ---------------------------------------------------------------------------

  /** A file, and where its library goes. */
  datatype Plan = Plan(name: string, phs: seq<Phdr>, file: seq<Byte>, base: U64)

  predicate Loads(p: Plan) {
    SpanOf(p.phs).lo < SpanOf(p.phs).hi && forall ph | ph in p.phs :: ContentsInFile(ph, p.file)
  }

  function Length(p: Plan): int {
    SpanOf(p.phs).hi - SpanOf(p.phs).lo
  }

  function PlaceOne(st: State, p: Plan): State
    requires Loads(p)
  {
    PlaceLibrary(st, p.name, p.phs, p.file, p.base, SpanOf(p.phs)).0
  }

  /** Placing the files one after the other. */
  function PlaceAll(st: State, ps: seq<Plan>): State
    requires forall p | p in ps :: Loads(p)
  {
    if ps == [] then st else PlaceOne(PlaceAll(st, ps[..|ps| - 1]), ps[|ps| - 1])
  }

  /** One file to be placed in two machines: room in both, and tables read inside its own span. */
  ghost predicate TwinRoom(x: State, y: State, p: Plan, q: Plan)
    requires Loads(p)
  {
    && q == p.(base := q.base) && GoodSegments(p.phs, p.file)
    && Room(x, p.base, Length(p)) && Room(y, q.base, Length(p))
    && TailAlike(x.mem, y.mem, p.base + Length(p), q.base - p.base)
    && (forall ph | ph in p.phs && ph.kind == PT_DYNAMIC :: Place(p.base, SpanOf(p.phs).lo, ph) != 0)
    && TablesStartInside(PlaceOne(x, p).mem, p.name, p.base, SpanOf(p.phs),
         DynamicAddr(p.base, SpanOf(p.phs).lo, p.phs))
  }

  /** The same files, each with room at its turn in both machines. */
  ghost predicate TwinPlans(x: State, y: State, ps: seq<Plan>, qs: seq<Plan>) {
    && |ps| == |qs| && (forall p | p in ps :: Loads(p)) && (forall q | q in qs :: Loads(q))
    && (ps == [] || (TwinPlans(x, y, ps[..|ps| - 1], qs[..|ps| - 1])
                     && TwinRoom(PlaceAll(x, ps[..|ps| - 1]), PlaceAll(y, qs[..|ps| - 1]), ps[|ps| - 1], qs[|ps| - 1])))
  }

  function Distances(ps: seq<Plan>, qs: seq<Plan>): (ds: seq<int>)
    requires |ps| == |qs|
    ensures |ds| == |ps| && forall i | 0 <= i < |ps| :: ds[i] == qs[i].base - ps[i].base
  {
    seq(|ps|, i requires 0 <= i < |ps| => qs[i].base - ps[i].base)
  }

  /** A library is where its plan says, and holds the same bytes in both machines. */
  ghost predicate TwinLib(m: Mem, m2: Mem, lib: Lib, lib2: Lib, p: Plan, q: Plan) {
    && lib.base == p.base && lib2.base == q.base
    && Length(p) >= 0 && Placed(lib, lib2, Length(p))
    && SameImage(m, m2, p.base, Length(p), q.base - p.base)
  }

  ghost predicate TwinLibs(x: State, y: State, ps: seq<Plan>, qs: seq<Plan>) {
    && |ps| == |qs| == |x.libs| == |y.libs| && LibsMoved(x.libs, y.libs, Distances(ps, qs))
    && (forall j | 0 <= j < |ps| :: TwinLib(x.mem, y.mem, x.libs[j], y.libs[j], ps[j], qs[j]))
  }

  /** Placing one more file: it moves with its base, and the earlier ones stay as they are. */
  lemma OneMoreTwin(x: State, y: State, ps: seq<Plan>, qs: seq<Plan>, p: Plan, q: Plan)
    requires TwinLibs(x, y, ps, qs) && Loads(p) && Loads(q) && TwinRoom(x, y, p, q)
    ensures TwinLibs(PlaceOne(x, p), PlaceOne(y, q), ps + [p], qs + [q])
    ensures SameLinks(x, PlaceOne(x, p)) && SameLinks(y, PlaceOne(y, q))
  {
    var r := SpanOf(p.phs);
    hide GoodSegments, ContentsInFile, SpanOf, Unmapped, TailAlike, Place, TablesStartInside, PlaceLibrary, Moved,
      DynamicAddr, SameImage, ImageMoved, ImageOf, SameLinks, TwinLibs;
    PlacedTwins(x, y, p.name, p.phs, p.file, p.base, q.base, r);
    PlacedFields(x, p.name, p.phs, p.file, p.base, r);
    PlacedFields(y, p.name, p.phs, p.file, q.base, r);
    ImageCorrect(x, p.name, p.phs, p.file, p.base, r);
    ImageCorrect(y, p.name, p.phs, p.file, q.base, r);
    var x1, y1 := PlaceOne(x, p), PlaceOne(y, q);
    MovedBytes(x1.mem, y1.mem, p.base, Length(p), q.base - p.base);
    BytesOfImage(x.mem, x1.mem, p.base, r, p.phs, p.file);
    BytesOfImage(y.mem, y1.mem, q.base, r, p.phs, p.file);
    TwinLibsGrow(x, y, x1, y1, ps, qs, p, q);
  }

  lemma BytesOfImage(m: Mem, after: Mem, base: U64, r: Range, phs: seq<Phdr>, file: seq<Byte>)
    requires ImageOf(m, after, base, r, phs, file)
    ensures forall a | a in m :: a in after && after[a] == m[a]
  {
  }

  lemma TwinLibsGrow(x: State, y: State, x1: State, y1: State, ps: seq<Plan>, qs: seq<Plan>, p: Plan, q: Plan)
    requires TwinLibs(x, y, ps, qs) && Length(p) >= 0
    requires |x1.libs| == |x.libs| + 1 && x1.libs[..|x.libs|] == x.libs && x1.libs[|x.libs|].base == p.base
    requires |y1.libs| == |y.libs| + 1 && y1.libs[..|y.libs|] == y.libs && y1.libs[|y.libs|].base == q.base
    requires Moved(x1.libs[|x.libs|], y1.libs[|y.libs|], q.base - p.base)
    requires Placed(x1.libs[|x.libs|], y1.libs[|y.libs|], Length(p))
    requires SameImage(x1.mem, y1.mem, p.base, Length(p), q.base - p.base)
    requires (forall a | a in x.mem :: a in x1.mem && x1.mem[a] == x.mem[a])
    requires (forall a | a in y.mem :: a in y1.mem && y1.mem[a] == y.mem[a])
    ensures TwinLibs(x1, y1, ps + [p], qs + [q])
  {
    hide Moved, LibsMoved, Length, Placed, SameImage;
    var n := |ps|;
    var ps1, qs1 := ps + [p], qs + [q];
    assert TwinLib(x1.mem, y1.mem, x1.libs[n], y1.libs[n], p, q);
    hide TwinLib;
    assert forall j | 0 <= j < n :: x1.libs[j] == x1.libs[..n][j] && y1.libs[j] == y1.libs[..n][j];
    forall j | 0 <= j <= n
      ensures TwinLib(x1.mem, y1.mem, x1.libs[j], y1.libs[j], ps1[j], qs1[j])
    {
      if j < n {
        TwinSurvives(x.mem, y.mem, x1.mem, y1.mem, x.libs[j], y.libs[j], ps[j], qs[j]);
      }
    }
    MovedGrow(x.libs, y.libs, x1.libs, y1.libs, Distances(ps, qs), Distances(ps1, qs1));
  }

  lemma MovedGrow(libs: seq<Lib>, libs2: seq<Lib>, more: seq<Lib>, more2: seq<Lib>, ds: seq<int>, es: seq<int>)
    requires LibsMoved(libs, libs2, ds) && |more| == |more2| == |es| == |libs| + 1
    requires forall j | 0 <= j < |libs| :: more[j] == libs[j] && more2[j] == libs2[j] && es[j] == ds[j]
    requires Moved(more[|libs|], more2[|libs|], es[|libs|])
    ensures LibsMoved(more, more2, es)
  {
    hide Moved;
  }

  lemma TwinSurvives(m: Mem, n: Mem, m1: Mem, n1: Mem, lib: Lib, lib2: Lib, p: Plan, q: Plan)
    requires TwinLib(m, n, lib, lib2, p, q)
    requires (forall a | a in m :: a in m1 && m1[a] == m[a]) && (forall a | a in n :: a in n1 && n1[a] == n[a])
    ensures TwinLib(m1, n1, lib, lib2, p, q)
  {
    hide Length, Placed;
    var d := q.base - p.base;
    forall a | p.base <= a < p.base + Length(p)
      ensures SameByte(m1, n1, a, d)
    {
      assert SameByte(m, n, a, d);
    }
  }

  /** Main result: the same files placed in two machines, each at its own two
      bases, become the same libraries, each moved by its own distance. */
  lemma {:induction false} PlacedAllTwins(x: State, y: State, ps: seq<Plan>, qs: seq<Plan>)
    requires TwinPlans(x, y, ps, qs) && x.libs == [] && y.libs == []
    ensures TwinLibs(PlaceAll(x, ps), PlaceAll(y, qs), ps, qs)
    ensures SameLinks(x, PlaceAll(x, ps)) && SameLinks(y, PlaceAll(y, qs))
    decreases |ps|
  {
    hide TwinRoom, TwinLibs, PlaceOne, Loads;
    if ps == [] {
      NoTwins(x, y);
    } else {
      var n := |ps| - 1;
      PlacedAllTwins(x, y, ps[..n], qs[..n]);
      OneMoreTwin(PlaceAll(x, ps[..n]), PlaceAll(y, qs[..n]), ps[..n], qs[..n], ps[n], qs[n]);
      assert ps == ps[..n] + [ps[n]] && qs == qs[..n] + [qs[n]];
    }
  }

  lemma NoTwins(x: State, y: State)
    requires x.libs == [] && y.libs == []
    ensures TwinLibs(x, y, [], [])
  {
  }
}
