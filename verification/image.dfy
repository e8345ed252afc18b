/** `load_library_to_vm`: placing the segments of a file, then reading its
    dynamic table and symbols back from guest memory. */
module Image {
  import opened Words
  import opened GuestMemory
  import opened PageAlloc
  import opened VmState
  import opened Resolver

  const PT_LOAD := 1
  const PT_DYNAMIC := 2
  const EHDR_SIZE := 64
  const PHDR_SIZE := 56
  const DYN_SIZE := 16
  const MAGIC: seq<Byte> := [0x7f, 0x45, 0x4c, 0x46, 2, 1, 1]

  datatype Phdr = Phdr(kind: U32, flags: U32, offset: U64, vaddr: U64, filesz: U64, memsz: U64)

  function DecodePhdr(bs: seq<Byte>): Phdr
    requires |bs| == PHDR_SIZE
  {
    Phdr(Half(bs[0..4]), Half(bs[4..8]), Word(bs[8..16]), Word(bs[16..24]), Word(bs[32..40]), Word(bs[40..48]))
  }

  predicate Recognised(file: seq<Byte>) {
    |file| >= EHDR_SIZE && file[..7] == MAGIC
  }

  function HeaderOffset(file: seq<Byte>): U64
    requires |file| >= EHDR_SIZE
  {
    Word(file[32..40])
  }

  function HeaderCount(file: seq<Byte>): nat
    requires |file| >= EHDR_SIZE
  {
    FromLE(file[56..58])
  }

  function Phdrs(file: seq<Byte>): seq<Phdr>
    requires |file| >= EHDR_SIZE && HeaderOffset(file) + PHDR_SIZE * HeaderCount(file) <= |file|
  {
    var at := HeaderOffset(file);
    seq(HeaderCount(file), i requires 0 <= i < HeaderCount(file) =>
      DecodePhdr(file[at + PHDR_SIZE * i..at + PHDR_SIZE * i + PHDR_SIZE]))
  }

  /** What the loader demands of a file: its headers and its segments' contents lie inside it. */
  predicate InFile(file: seq<Byte>) {
    Recognised(file) ==>
      && HeaderOffset(file) + PHDR_SIZE * HeaderCount(file) <= |file|
      && forall ph | ph in Phdrs(file) :: ContentsInFile(ph, file)
  }

  predicate ContentsInFile(ph: Phdr, file: seq<Byte>) {
    ph.kind == PT_LOAD && ph.filesz > 0 ==> ph.offset + ph.filesz <= |file|
  }

  // The span of a library ---------------------------------------------------------

  function SegStart(ph: Phdr): U64 {
    AlignDown(ph.vaddr, GRANULE)
  }

  function SegEnd(ph: Phdr): U64 {
    AlignDown(Wrap(Wrap(ph.vaddr + ph.memsz) + 0xFFFF), GRANULE)
  }

  datatype Range = Range(lo: U64, hi: U64)

  function Widen(r: Range, ph: Phdr): Range {
    if ph.kind == PT_LOAD then
      Range(if SegStart(ph) < r.lo then SegStart(ph) else r.lo,
            if SegEnd(ph) > r.hi then SegEnd(ph) else r.hi)
    else r
  }

  function SpanOf(phs: seq<Phdr>): Range {
    if phs == [] then Range(TWO64 - 1, 0)
    else Widen(SpanOf(phs[..|phs| - 1]), phs[|phs| - 1])
  }

  /** Every segment lies in the span, whose bounds are multiples of 64 KiB. */
  lemma {:induction false} SpanCovers(phs: seq<Phdr>)
    ensures var r := SpanOf(phs);
            && (forall ph | ph in phs && ph.kind == PT_LOAD :: r.lo <= SegStart(ph) && SegEnd(ph) <= r.hi)
            && (r.lo == TWO64 - 1 || r.lo % GRANULE == 0) && r.hi % GRANULE == 0
  {
    hide SegStart, SegEnd;
    if phs != [] {
      var rest, last := phs[..|phs| - 1], phs[|phs| - 1];
      SpanCovers(rest);
      Rounded(last);
      assert phs == rest + [last];
      hide SpanOf;
    }
  }

  lemma Rounded(ph: Phdr)
    ensures SegStart(ph) % GRANULE == 0 && SegEnd(ph) % GRANULE == 0
  {
    AlignDownBounds(ph.vaddr, GRANULE);
    AlignDownBounds(Wrap(Wrap(ph.vaddr + ph.memsz) + 0xFFFF), GRANULE);
  }

  // Copying the segments ------------------------------------------------------------

  function Place(base: U64, lo: U64, ph: Phdr): U64 {
    Wrap(base + (ph.vaddr - lo))
  }

  function CopySegment(m: Mem, base: U64, lo: U64, ph: Phdr, file: seq<Byte>): Mem
    requires ContentsInFile(ph, file)
  {
    if ph.kind != PT_LOAD then m
    else
      var dest := Place(base, lo, ph);
      WriteBoth(m, dest, Contents(ph, file), Wrap(dest + ph.filesz),
                if ph.memsz > ph.filesz then ph.memsz - ph.filesz else 0)
  }

  /** The file's part of a segment. */
  function Contents(ph: Phdr, file: seq<Byte>): (c: seq<Byte>)
    requires ph.kind == PT_LOAD && ContentsInFile(ph, file)
    ensures |c| == ph.filesz
    ensures forall k | 0 <= k < |c| :: ph.offset + k < |file| && c[k] == file[ph.offset + k]
  {
    if ph.filesz > 0 then file[ph.offset..ph.offset + ph.filesz] else []
  }

  /** Contents, then zeros, each written only when there is something to write. */
  function WriteBoth(m: Mem, dest: U64, contents: seq<Byte>, tail: U64, n: nat): Mem {
    var m1 := if |contents| > 0 then Write(m, dest, contents) else m;
    if n > 0 then Write(m1, tail, Zeros(n)) else m1
  }

  function CopySegments(m: Mem, base: U64, lo: U64, phs: seq<Phdr>, file: seq<Byte>): Mem
    requires forall ph | ph in phs :: ContentsInFile(ph, file)
    decreases |phs|
  {
    if phs == [] then m
    else
      CopySegments(CopySegment(m, base, lo, phs[0], file), base, lo, phs[1..], file)
  }

  /** The last PT_DYNAMIC header gives the dynamic table's address; zero when there is none. */
  function DynamicAddr(base: U64, lo: U64, phs: seq<Phdr>): U64 {
    if phs == [] then 0
    else
      var last := phs[|phs| - 1];
      if last.kind == PT_DYNAMIC then Place(base, lo, last) else DynamicAddr(base, lo, phs[..|phs| - 1])
  }

  /** Segments the System V ABI allows: no larger in the file than in memory,
      without 64-bit wrap, and pairwise disjoint. */
  predicate GoodSegment(ph: Phdr, file: seq<Byte>) {
    ph.kind == PT_LOAD ==>
      ph.filesz <= ph.memsz && ph.vaddr + ph.memsz + 0xFFFF < TWO64 && ContentsInFile(ph, file)
  }

  predicate DisjointSegments(p: Phdr, q: Phdr) {
    p.kind == PT_LOAD && q.kind == PT_LOAD ==> p.vaddr + p.memsz <= q.vaddr || q.vaddr + q.memsz <= p.vaddr
  }

  predicate GoodSegments(phs: seq<Phdr>, file: seq<Byte>) {
    && (forall ph | ph in phs :: GoodSegment(ph, file))
    && forall i, j | 0 <= i < j < |phs| :: DisjointSegments(phs[i], phs[j])
  }

  /** Byte `k` of a segment in memory: the file's inside filesz, zero in the bss tail. */
  function SegmentByte(ph: Phdr, file: seq<Byte>, k: int): Byte {
    if 0 <= k < ph.filesz && ph.offset + k < |file| then file[ph.offset + k] else 0
  }

  /** Where the segment's first byte goes. */
  function Start(base: U64, lo: U64, ph: Phdr): int {
    base + (ph.vaddr - lo)
  }

  predicate Inside(base: U64, lo: U64, ph: Phdr, a: int) {
    ph.kind == PT_LOAD && Start(base, lo, ph) <= a < Start(base, lo, ph) + ph.memsz
  }

  lemma InsideMoved(base: U64, base2: U64, lo: U64, ph: Phdr, a: int)
    ensures Inside(base2, lo, ph, a + (base2 - base)) <==> Inside(base, lo, ph, a)
    ensures a + (base2 - base) - Start(base2, lo, ph) == a - Start(base, lo, ph)
  {
  }

  ghost predicate Region(m: Mem, base: U64, span: nat) {
    base + span <= TWO64 && Mapped(m, base, span)
  }

  predicate Fits(lo: U64, span: nat, ph: Phdr) {
    ph.kind == PT_LOAD ==> lo <= ph.vaddr && ph.vaddr + ph.memsz - lo <= span
  }

  lemma CopySegmentSpec(m: Mem, base: U64, lo: U64, span: nat, ph: Phdr, file: seq<Byte>)
    requires Region(m, base, span) && GoodSegment(ph, file) && Fits(lo, span, ph)
    ensures var r := CopySegment(m, base, lo, ph, file);
            && r.Keys == m.Keys
            && (forall a | Inside(base, lo, ph, a) :: a in r && r[a] == SegmentByte(ph, file, a - Start(base, lo, ph)))
            && (forall a | a in m && !Inside(base, lo, ph, a) :: r[a] == m[a])
  {
    hide CopySegment, WriteBoth, SegmentByte;
    if ph.kind == PT_LOAD && ph.memsz > 0 {
      CopySegmentIsTwoWrites(m, base, lo, span, ph, file);
      BothIsSegment(m, base, lo, ph, file);
    } else {
      NothingCopied(m, base, lo, ph, file);
    }
  }

  lemma BothIsSegment(m: Mem, base: U64, lo: U64, ph: Phdr, file: seq<Byte>)
    requires GoodSegment(ph, file) && ph.kind == PT_LOAD && lo <= ph.vaddr &&
               base + (ph.vaddr - lo) + ph.memsz <= TWO64 && ph.memsz > 0
    requires Mapped(m, base + (ph.vaddr - lo), ph.memsz)
    ensures var dest := Start(base, lo, ph);
            var r := WriteBoth(m, dest, Contents(ph, file), Wrap(dest + ph.filesz), ph.memsz - ph.filesz);
            && r.Keys == m.Keys
            && (forall a | Inside(base, lo, ph, a) :: a in r && r[a] == SegmentByte(ph, file, a - Start(base, lo, ph)))
            && (forall a | a in m && !Inside(base, lo, ph, a) :: r[a] == m[a])
  {
    hide WriteBoth;
    TwoWrites(m, Start(base, lo, ph), Contents(ph, file), ph.memsz - ph.filesz);
  }

  lemma CopySegmentIsTwoWrites(m: Mem, base: U64, lo: U64, span: nat, ph: Phdr, file: seq<Byte>)
    requires base + span <= TWO64 && GoodSegment(ph, file) && Fits(lo, span, ph)
    requires ph.kind == PT_LOAD && ph.memsz > 0
    ensures Start(base, lo, ph) + ph.memsz <= base + span
    ensures CopySegment(m, base, lo, ph, file) ==
            WriteBoth(m, Start(base, lo, ph), Contents(ph, file), Wrap(Start(base, lo, ph) + ph.filesz),
              ph.memsz - ph.filesz)
  {
    hide WriteBoth, Contents, ContentsInFile;
    PlaceIsStart(base, lo, span, ph);
    hide Place, Wrap;
  }

  lemma PlaceIsStart(base: U64, lo: U64, span: nat, ph: Phdr)
    requires base + span <= TWO64 && Fits(lo, span, ph) && ph.kind == PT_LOAD && ph.memsz > 0
    ensures Place(base, lo, ph) == Start(base, lo, ph)
  {
  }

  /** Contents followed by zeros, each part written only when it is not empty. */
  lemma TwoWrites(m: Mem, dest: U64, contents: seq<Byte>, n: nat)
    requires Mapped(m, dest, |contents| + n) && |contents| + n > 0
    ensures var r := WriteBoth(m, dest, contents, Wrap(dest + |contents|), n);
            && r.Keys == m.Keys
            && (forall a | dest <= a < dest + |contents| + n ::
                  r[a] == if a - dest < |contents| then contents[a - dest] else 0)
            && (forall a | a in m && !(dest <= a < dest + |contents| + n) :: r[a] == m[a])
  {
    assert dest + |contents| + n - 1 in m;
    var m1 := if |contents| > 0 then Write(m, dest, contents) else m;
    assert Mapped(m, dest, |contents|);
    assert Mapped(m1, dest + |contents|, n);
    assert n > 0 ==> Wrap(dest + |contents|) == dest + |contents|;
  }

  /** The image: segment bytes where a segment is, the old byte elsewhere. */
  ghost predicate Loaded(m: Mem, r: Mem, base: U64, lo: U64, phs: seq<Phdr>, file: seq<Byte>) {
    && r.Keys == m.Keys
    && (forall ph, a | ph in phs && Inside(base, lo, ph, a) ::
          a in r && r[a] == SegmentByte(ph, file, a - Start(base, lo, ph)))
    && (forall a | a in m && (forall ph | ph in phs :: !Inside(base, lo, ph, a)) :: r[a] == m[a])
  }

  lemma {:induction false} CopySegmentsSpec(m: Mem, base: U64, lo: U64, span: nat, phs: seq<Phdr>, file: seq<Byte>)
    requires Region(m, base, span) && GoodSegments(phs, file)
    requires forall ph | ph in phs :: Fits(lo, span, ph)
    ensures forall ph | ph in phs :: ContentsInFile(ph, file)
    ensures Loaded(m, CopySegments(m, base, lo, phs, file), base, lo, phs, file)
    decreases |phs|
  {
    hide GoodSegment, ContentsInFile, CopySegment, Inside, Fits, GoodSegments, Loaded, Region;
    if phs == [] {
      NothingLoaded(m, base, lo, file);
    } else {
      var ph, rest := phs[0], phs[1..];
      GoodTail(phs, file);
      var m1 := CopySegment(m, base, lo, ph, file);
      CopySegmentSpec(m, base, lo, span, ph, file);
      RegionKept(m, m1, base, span);
      CopySegmentsSpec(m1, base, lo, span, rest, file);
      LoadedCons(m, m1, CopySegments(m1, base, lo, rest, file), base, lo, phs, file);
    }
  }

  lemma NothingLoaded(m: Mem, base: U64, lo: U64, file: seq<Byte>)
    ensures Loaded(m, m, base, lo, [], file)
  {
  }

  lemma RegionKept(m: Mem, m1: Mem, base: U64, span: nat)
    requires Region(m, base, span) && m1.Keys == m.Keys
    ensures Region(m1, base, span)
  {
  }

  lemma GoodTail(phs: seq<Phdr>, file: seq<Byte>)
    requires phs != [] && GoodSegments(phs, file)
    ensures GoodSegment(phs[0], file) && GoodSegments(phs[1..], file)
    ensures forall ph | ph in phs :: ContentsInFile(ph, file)
    ensures forall ph | ph in phs[1..] :: ph in phs
  {
    hide DisjointSegments;
    var rest := phs[1..];
    assert forall ph | ph in phs :: GoodSegment(ph, file);
    forall i, j | 0 <= i < j < |rest|
      ensures DisjointSegments(rest[i], rest[j])
    {
      assert rest[i] == phs[i + 1] && rest[j] == phs[j + 1];
    }
  }

  lemma LoadedCons(m: Mem, m1: Mem, r: Mem, base: U64, lo: U64, phs: seq<Phdr>, file: seq<Byte>)
    requires phs != [] && GoodSegments(phs, file) && m1.Keys == m.Keys
    requires forall a | Inside(base, lo, phs[0], a) ::
               a in m1 && m1[a] == SegmentByte(phs[0], file, a - Start(base, lo, phs[0]))
    requires forall a | a in m && !Inside(base, lo, phs[0], a) :: m1[a] == m[a]
    requires Loaded(m1, r, base, lo, phs[1..], file)
    ensures Loaded(m, r, base, lo, phs, file)
  {
    hide GoodSegment, SegmentByte, Inside, Start, DisjointSegments;
    var rest := phs[1..];
    HeadSegmentKept(m1, r, base, lo, phs, file);
    hide GoodSegments;
    assert forall ph :: ph in phs <==> ph == phs[0] || ph in rest;
  }

  /** Copying the later segments leaves the first one's bytes alone. */
  lemma HeadSegmentKept(m1: Mem, r: Mem, base: U64, lo: U64, phs: seq<Phdr>, file: seq<Byte>)
    requires phs != [] && GoodSegments(phs, file)
    requires Loaded(m1, r, base, lo, phs[1..], file)
    ensures forall a | a in m1 && Inside(base, lo, phs[0], a) :: r[a] == m1[a]
  {
    hide GoodSegment, SegmentByte, Inside, Start, DisjointSegments;
    var rest := phs[1..];
    forall a | a in m1 && Inside(base, lo, phs[0], a)
      ensures r[a] == m1[a]
    {
      forall ph | ph in rest
        ensures !Inside(base, lo, ph, a)
      {
        var j :| 0 <= j < |rest| && rest[j] == ph;
        assert ph == phs[j + 1] && DisjointSegments(phs[0], phs[j + 1]);
        Disjoint(base, lo, phs[0], ph, a);
      }
    }
  }

  lemma Disjoint(base: U64, lo: U64, p: Phdr, q: Phdr, a: int)
    requires DisjointSegments(p, q) && Inside(base, lo, p, a)
    ensures !Inside(base, lo, q, a)
  {
  }

  // The dynamic table -------------------------------------------------------------

  const DT_NULL := 0
  const DT_PLTRELSZ := 2
  const DT_STRTAB := 5
  const DT_SYMTAB := 6
  const DT_RELA := 7
  const DT_RELASZ := 8
  const DT_STRSZ := 10
  const DT_INIT := 12
  const DT_REL := 17
  const DT_RELSZ := 18
  const DT_JMPREL := 23
  const DT_INIT_ARRAY := 25
  const DT_INIT_ARRAYSZ := 27

  function Pointer(lib: Lib, val: U64): U64 {
    if val >= lib.minVaddr then Wrap(lib.base + (val - lib.minVaddr)) else Wrap(lib.base + val)
  }

  function ApplyDyn(lib: Lib, tag: U64, val: U64): Lib {
    var ptr := Pointer(lib, val);
    if tag == DT_SYMTAB then lib.(symtab := ptr)
    else if tag == DT_STRTAB then lib.(strtab := ptr)
    else if tag == DT_STRSZ then lib.(strsz := val)
    else if tag == DT_REL then lib.(rel := ptr)
    else if tag == DT_RELSZ then lib.(relsz := val)
    else if tag == DT_RELA then lib.(rela := ptr)
    else if tag == DT_RELASZ then lib.(relasz := val)
    else if tag == DT_JMPREL then lib.(jmprel := ptr)
    else if tag == DT_PLTRELSZ then lib.(pltrelsz := val)
    else if tag == DT_INIT then lib.(initFunc := ptr)
    else if tag == DT_INIT_ARRAY then lib.(initArray := ptr)
    else if tag == DT_INIT_ARRAYSZ then lib.(initArraysz := val)
    else lib
  }

  function ScanDynamic(m: Mem, lib: Lib, at: nat): Lib
    decreases TWO64 - at
  {
    match Read(m, at, DYN_SIZE)
    case None => lib
    case Some(bs) =>
      assert at in m;
      var tag, val := Word(bs[0..8]), Word(bs[8..16]);
      if tag == DT_NULL then lib else ScanDynamic(m, ApplyDyn(lib, tag, val), at + DYN_SIZE)
  }

  // The symbol table --------------------------------------------------------------

  /** What the scan does at an entry. */
  datatype Scanned = Stop | Skip | Define(name: string, addr: U64)

  function ScanEntry(m: Mem, lib: Lib, i: nat): Scanned {
    match Read(m, lib.symtab + SYM_SIZE * i, SYM_SIZE)
    case None => Stop
    case Some(bs) =>
      var sym := DecodeSym(bs);
      if sym.name >= lib.strsz then Skip
      else
        var name := NameAt(m, lib, sym.name);
        if name == "" then (if i >= 4 && sym.value == 0 then Stop else Skip)
        else if sym.value != 0 then Define(name, VaddrIn(lib, sym.value))
        else Skip
  }

  function ScanSymbols(m: Mem, lib: Lib, i: nat, acc: map<string, U64>): map<string, U64>
    decreases TWO64 - (lib.symtab + SYM_SIZE * i)
  {
    match ScanEntry(m, lib, i)
    case Stop => acc
    case Skip => ReadableBelowTop(m, lib, i); ScanSymbols(m, lib, i + 1, acc)
    case Define(name, a) => ReadableBelowTop(m, lib, i); ScanSymbols(m, lib, i + 1, acc[name := a])
  }

  lemma ReadableBelowTop(m: Mem, lib: Lib, i: nat)
    requires ScanEntry(m, lib, i) != Stop
    ensures lib.symtab + SYM_SIZE * i < TWO64
  {
    hide NameAt, DecodeSym;
    var a := lib.symtab + SYM_SIZE * i;
    assert Mapped(m, a, SYM_SIZE);
    assert a in m;
  }

  /** The entry at which the scan ends. */
  ghost predicate StopsAt(m: Mem, lib: Lib, i: nat, n: nat) {
    && i <= n && ScanEntry(m, lib, n) == Stop
    && forall j: nat | i <= j < n :: ScanEntry(m, lib, j) != Stop
  }

  function StopIndex(m: Mem, lib: Lib, i: nat): (n: nat)
    ensures StopsAt(m, lib, i, n)
    decreases TWO64 - (lib.symtab + SYM_SIZE * i)
  {
    hide ScanEntry;
    if ScanEntry(m, lib, i) == Stop then i
    else
      ReadableBelowTop(m, lib, i);
      StopIndex(m, lib, i + 1)
  }

  predicate Defines(s: Scanned, name: string) {
    s.Define? && s.name == name
  }

  /** The last entry in [i, n) that defines `name`. */
  function LastDefiner(m: Mem, lib: Lib, i: nat, n: nat, name: string): Option<nat>
    decreases n
  {
    if n <= i then None
    else if Defines(ScanEntry(m, lib, n - 1), name) then Some(n - 1)
    else LastDefiner(m, lib, i, n - 1, name)
  }

  lemma {:induction false} LastDefinerIsLast(m: Mem, lib: Lib, i: nat, n: nat, name: string)
    ensures match LastDefiner(m, lib, i, n, name)
            case Some(k) =>
              && i <= k < n && Defines(ScanEntry(m, lib, k), name)
              && forall j: nat | k < j < n :: !Defines(ScanEntry(m, lib, j), name)
            case None => forall j: nat | i <= j < n :: !Defines(ScanEntry(m, lib, j), name)
    decreases n
  {
    hide ScanEntry, Defines;
    if i < n {
      LastDefinerIsLast(m, lib, i, n - 1, name);
    }
  }

  /** The scan reads exactly the entries before the first stopping one, and a
      name ends with the address of its last definition among them. */
  lemma {:induction false} ScanIsLastWriter(m: Mem, lib: Lib, i: nat, acc: map<string, U64>, name: string)
    ensures var r := ScanSymbols(m, lib, i, acc);
            match LastDefiner(m, lib, i, StopIndex(m, lib, i), name)
            case Some(k) => name in r && ScanEntry(m, lib, k) == Define(name, r[name])
            case None => (name in r <==> name in acc) && (name in acc ==> r[name] == acc[name])
    decreases TWO64 - (lib.symtab + SYM_SIZE * i)
  {
    hide ScanEntry;
    var e := ScanEntry(m, lib, i);
    if e != Stop {
      ReadableBelowTop(m, lib, i);
      var n := StopIndex(m, lib, i + 1);
      var acc1 := if e.Define? then acc[e.name := e.addr] else acc;
      ScanIsLastWriter(m, lib, i + 1, acc1, name);
      LastDefinerUnique(m, lib, i, n, name);
    }
  }

  lemma LastDefinerUnique(m: Mem, lib: Lib, i: nat, n: nat, name: string)
    requires i < n
    ensures LastDefiner(m, lib, i, n, name) ==
            match LastDefiner(m, lib, i + 1, n, name)
            case Some(k) => Some(k)
            case None => if Defines(ScanEntry(m, lib, i), name) then Some(i) else None
  {
    hide ScanEntry, Defines;
    LastDefinerIsLast(m, lib, i, n, name);
    LastDefinerIsLast(m, lib, i + 1, n, name);
    hide LastDefiner;
    var x, y := LastDefiner(m, lib, i, n, name), LastDefiner(m, lib, i + 1, n, name);
    if x.Some? && y.Some? {
      assert x.value <= y.value && y.value <= x.value;
    }
  }

  // The whole load ----------------------------------------------------------------

  function EmptyLib(name: string, base: U64, r: Range, dynamicAddr: U64): Lib {
    Lib(name, base, r.lo, r.hi, dynamicAddr, 0, 0, 0, 0, 0, 0, 0, 0, 0, 0, 0, 0, map[])
  }

  /** Reading the dynamic table and the symbols of an image placed in memory. */
  function Describe(m: Mem, name: string, base: U64, r: Range, dynamicAddr: U64): Lib {
    var lib0 := EmptyLib(name, base, r, dynamicAddr);
    var lib := if dynamicAddr != 0 then ScanDynamic(m, lib0, dynamicAddr) else lib0;
    if lib.symtab != 0 && lib.strtab != 0 && lib.strsz != 0 then
      lib.(symbols := ScanSymbols(m, lib, 0, map[]))
    else lib
  }

  function LoadLibrary(st: State, name: string, file: seq<Byte>): Outcome<(State, bool)>
    requires InFile(file)
  {
    if !Recognised(file) then Continue((st, false)) else LoadSegments(st, name, Phdrs(file), file)
  }

  function LoadSegments(st: State, name: string, phs: seq<Phdr>, file: seq<Byte>): Outcome<(State, bool)>
    requires forall ph | ph in phs :: ContentsInFile(ph, file)
  {
    var r := SpanOf(phs);
    if r.lo >= r.hi then Continue((st, false))
    else
      var (base, arena) :- Alloc(st.libAlloc, r.hi - r.lo);
      Continue(PlaceLibrary(st.(libAlloc := arena), name, phs, file, base, r))
  }

  /** The engine refuses a region past the top of the address space; a region
      that overlaps mapped memory is left as it is. */
  function PlaceLibrary(st: State, name: string, phs: seq<Phdr>, file: seq<Byte>, base: U64, r: Range): (State, bool)
    requires r.lo < r.hi && forall ph | ph in phs :: ContentsInFile(ph, file)
  {
    if base + (r.hi - r.lo) > TWO64 then (st, false)
    else
      var m := CopySegments(MapRegion(st.mem, base, r.hi - r.lo), base, r.lo, phs, file);
      var lib := Describe(m, name, base, r, DynamicAddr(base, r.lo, phs));
      (st.(mem := m, libs := st.libs + [lib]), true)
  }

  /** Main result: a library placed in unmapped memory.  Each segment's bytes
      are the file's inside filesz and zero up to memsz, the gaps are zero, the
      whole span becomes mapped, and nothing outside it changes. */
  lemma ImageCorrect(st: State, name: string, phs: seq<Phdr>, file: seq<Byte>, base: U64, r: Range)
    requires GoodSegments(phs, file)
    requires r == SpanOf(phs) && r.lo < r.hi && base + (r.hi - r.lo) <= TWO64
    requires Unmapped(st.mem, base, r.hi - r.lo)
    ensures forall ph | ph in phs :: ContentsInFile(ph, file)
    ensures ImageOf(st.mem, PlaceLibrary(st, name, phs, file, base, r).0.mem, base, r, phs, file)
  {
    hide GoodSegments, CopySegments, Describe, SpanOf, ImageOf, MapRegion, Unmapped, Fits, ContentsInFile, DynamicAddr;
    SpanFits(phs, file);
    ImageOfSegments(st.mem, base, r, phs, file);
  }

  lemma ImageOfSegments(m: Mem, base: U64, r: Range, phs: seq<Phdr>, file: seq<Byte>)
    requires r.lo < r.hi && base + (r.hi - r.lo) <= TWO64 && Unmapped(m, base, r.hi - r.lo)
    requires GoodSegments(phs, file) && forall ph | ph in phs :: Fits(r.lo, r.hi - r.lo, ph)
    ensures forall ph | ph in phs :: ContentsInFile(ph, file)
    ensures ImageOf(m, CopySegments(MapRegion(m, base, r.hi - r.lo), base, r.lo, phs, file), base, r, phs, file)
  {
    hide GoodSegments, CopySegments, ImageOf, Loaded, ContentsInFile, Region, Unmapped, Fits, MapRegion;
    var span := r.hi - r.lo;
    FreshRegion(m, base, span);
    CopySegmentsSpec(MapRegion(m, base, span), base, r.lo, span, phs, file);
    ImageFromLoaded(m, MapRegion(m, base, span), CopySegments(MapRegion(m, base, span), base, r.lo, phs, file), base,
      r, phs, file);
  }

  lemma FreshRegion(m: Mem, base: U64, span: nat)
    requires base + span <= TWO64 && Unmapped(m, base, span)
    ensures Region(MapRegion(m, base, span), base, span)
  {
  }

  ghost predicate ImageOf(before: Mem, after: Mem, base: U64, r: Range, phs: seq<Phdr>, file: seq<Byte>) {
    && (forall a :: a in after <==> a in before || base <= a < base + (r.hi - r.lo))
    && (forall a | a in before :: after[a] == before[a])
    && (forall ph, a | ph in phs && Inside(base, r.lo, ph, a) ::
          base <= a < base + (r.hi - r.lo) && after[a] == SegmentByte(ph, file, a - Start(base, r.lo, ph)))
    && (forall a | base <= a < base + (r.hi - r.lo) && (forall ph | ph in phs :: !Inside(base, r.lo, ph, a)) ::
          after[a] == 0)
  }

  lemma ImageFromLoaded(before: Mem, m: Mem, after: Mem, base: U64, r: Range, phs: seq<Phdr>, file: seq<Byte>)
    requires r.lo < r.hi && base + (r.hi - r.lo) <= TWO64 && Unmapped(before, base, r.hi - r.lo)
    requires m == MapRegion(before, base, r.hi - r.lo)
    requires forall ph | ph in phs :: Fits(r.lo, r.hi - r.lo, ph)
    requires Loaded(m, after, base, r.lo, phs, file)
    ensures ImageOf(before, after, base, r, phs, file)
  {
    hide SegmentByte, Inside, Start, Fits, MapRegion, Unmapped;
    var span := r.hi - r.lo;
    forall ph, a | ph in phs && Inside(base, r.lo, ph, a)
      ensures base <= a < base + span
    {
      InsideSpan(base, r.lo, span, ph, a);
    }
    RegionAdded(before, base, span);
  }

  lemma RegionAdded(m: Mem, base: U64, span: nat)
    requires base + span <= TWO64 && Unmapped(m, base, span)
    ensures var r := MapRegion(m, base, span);
            && (forall a :: a in r <==> a in m || base <= a < base + span)
            && (forall a | a in m :: r[a] == m[a] && !(base <= a < base + span))
            && (forall a | base <= a < base + span :: r[a] == 0)
  {
  }

  lemma InsideSpan(base: U64, lo: U64, span: nat, ph: Phdr, a: int)
    requires Fits(lo, span, ph) && Inside(base, lo, ph, a)
    ensures base <= a < base + span
  {
  }

  lemma SpanFits(phs: seq<Phdr>, file: seq<Byte>)
    requires GoodSegments(phs, file)
    ensures var r := SpanOf(phs);
            r.lo <= r.hi ==> forall ph | ph in phs :: Fits(r.lo, r.hi - r.lo, ph)
  {
    hide SpanOf, GoodSegment, SegStart, SegEnd;
    SpanCovers(phs);
    forall ph | ph in phs && ph.kind == PT_LOAD
      ensures SegStart(ph) <= ph.vaddr && ph.vaddr + ph.memsz <= SegEnd(ph)
    {
      assert GoodSegment(ph, file);
      SegmentRounded(ph, file);
    }
  }

  lemma SegmentRounded(ph: Phdr, file: seq<Byte>)
    requires GoodSegment(ph, file) && ph.kind == PT_LOAD
    ensures SegStart(ph) <= ph.vaddr && ph.vaddr + ph.memsz <= SegEnd(ph)
  {
    AlignDownBounds(ph.vaddr, GRANULE);
    AlignDownBounds(ph.vaddr + ph.memsz + 0xFFFF, GRANULE);
  }

  // Facts the running machine needs ---------------------------------------------------

  lemma CopySegmentFrame(m: Mem, base: U64, lo: U64, span: nat, ph: Phdr, file: seq<Byte>)
    requires base + span <= TWO64 && GoodSegment(ph, file) && Fits(lo, span, ph)
    ensures var r := CopySegment(m, base, lo, ph, file);
            && r.Keys == m.Keys
            && forall a | a in m && !(base <= a < base + span) :: r[a] == m[a]
  {
    hide CopySegment, WriteBoth, Wrap;
    if ph.kind == PT_LOAD && ph.memsz > 0 {
      CopySegmentIsTwoWrites(m, base, lo, span, ph, file);
      BothFrame(m, Start(base, lo, ph), Contents(ph, file), ph.memsz - ph.filesz, base, span);
    } else {
      NothingCopied(m, base, lo, ph, file);
    }
  }

  lemma NothingCopied(m: Mem, base: U64, lo: U64, ph: Phdr, file: seq<Byte>)
    requires GoodSegment(ph, file) && !(ph.kind == PT_LOAD && ph.memsz > 0)
    ensures ContentsInFile(ph, file) && CopySegment(m, base, lo, ph, file) == m
  {
  }

  lemma BothFrame(m: Mem, dest: U64, contents: seq<Byte>, n: nat, base: int, span: nat)
    requires 0 <= base <= dest && dest + |contents| + n <= base + span <= TWO64
    ensures var r := WriteBoth(m, dest, contents, Wrap(dest + |contents|), n);
            && r.Keys == m.Keys
            && forall a | a in m && !(base <= a < base + span) :: r[a] == m[a]
  {
    assert n > 0 ==> Wrap(dest + |contents|) == dest + |contents|;
  }

  /** Whatever the engine mapped, copying touches only the library's span. */
  lemma {:induction false} CopyFrame(m: Mem, base: U64, lo: U64, span: nat, phs: seq<Phdr>, file: seq<Byte>)
    requires base + span <= TWO64 && GoodSegments(phs, file)
    requires forall ph | ph in phs :: Fits(lo, span, ph)
    ensures forall ph | ph in phs :: ContentsInFile(ph, file)
    ensures var r := CopySegments(m, base, lo, phs, file);
            && r.Keys == m.Keys
            && forall a | a in m && !(base <= a < base + span) :: r[a] == m[a]
    decreases |phs|
  {
    hide GoodSegment, ContentsInFile, CopySegment, Fits, GoodSegments;
    if phs != [] {
      GoodTail(phs, file);
      CopySegmentFrame(m, base, lo, span, phs[0], file);
      CopyFrame(CopySegment(m, base, lo, phs[0], file), base, lo, span, phs[1..], file);
    }
  }

  /** Reading the dynamic table never changes where a library is. */
  lemma {:induction false} ScanDynamicFields(m: Mem, lib: Lib, at: nat)
    ensures var r := ScanDynamic(m, lib, at);
            && r.name == lib.name && r.base == lib.base && r.minVaddr == lib.minVaddr && r.maxVaddr == lib.maxVaddr
            && r.dynamicAddr == lib.dynamicAddr && r.symbols == lib.symbols
    decreases TWO64 - at
  {
    hide Pointer, Word;
    match Read(m, at, DYN_SIZE)
    case None =>
    case Some(bs) =>
      assert at in m;
      if Word(bs[0..8]) != DT_NULL {
        ScanDynamicFields(m, ApplyDyn(lib, Word(bs[0..8]), Word(bs[8..16])), at + DYN_SIZE);
      }
  }

  lemma DescribeFields(m: Mem, name: string, base: U64, r: Range, dynamicAddr: U64)
    ensures var lib := Describe(m, name, base, r, dynamicAddr);
            lib.name == name && lib.base == base && lib.minVaddr == r.lo && lib.maxVaddr == r.hi &&
              lib.dynamicAddr == dynamicAddr
  {
    hide ScanDynamic, ScanSymbols;
    ScanDynamicFields(m, EmptyLib(name, base, r, dynamicAddr), dynamicAddr);
  }
}
