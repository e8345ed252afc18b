/** Loading stated on the bytes of the file: the 64-bit ELF header and its
    program headers of 56 bytes, read where the format puts their fields. */
module FileBytes {
  import opened Words
  import opened GuestMemory
  import opened PageAlloc
  import opened VmState
  import opened Image
  import opened DynamicTable
  import opened Runtime
  import opened Placement

  /** `n` bytes of the file; what lies behind its end counts as zero. */
  function Piece(file: seq<Byte>, at: nat, n: nat): (bs: seq<Byte>)
    ensures |bs| == n
  {
    seq(n, i requires 0 <= i < n => if at + i < |file| then file[at + i] else 0)
  }

  function Short(file: seq<Byte>, at: nat): int {
    Sum2(Piece(file, at, 2))
  }

  function Long(file: seq<Byte>, at: nat): int {
    Sum4(Piece(file, at, 4))
  }

  function Wide(file: seq<Byte>, at: nat): U64 {
    Word(Piece(file, at, 8))
  }

  /** The identification of a little-endian 64-bit file of the current version. */
  predicate IsElf64(file: seq<Byte>) {
    && |file| >= 64
    && file[0] == 0x7F && file[1] == 'E' as int && file[2] == 'L' as int && file[3] == 'F' as int
    && file[4] == 2 && file[5] == 1 && file[6] == 1
  }

  /** e_phnum. */
  function Phnum(file: seq<Byte>): int {
    Short(file, 56)
  }

  /** Where program header `i` is: e_phoff is the word at 32. */
  function HeaderAt(file: seq<Byte>, i: nat): nat {
    Wide(file, 32) + 56 * i
  }

  function Type(file: seq<Byte>, i: nat): int {
    Long(file, HeaderAt(file, i))
  }

  function Flags(file: seq<Byte>, i: nat): int {
    Long(file, HeaderAt(file, i) + 4)
  }

  function Offset(file: seq<Byte>, i: nat): U64 {
    Wide(file, HeaderAt(file, i) + 8)
  }

  function Vaddr(file: seq<Byte>, i: nat): U64 {
    Wide(file, HeaderAt(file, i) + 16)
  }

  function FileSize(file: seq<Byte>, i: nat): U64 {
    Wide(file, HeaderAt(file, i) + 32)
  }

  function MemSize(file: seq<Byte>, i: nat): U64 {
    Wide(file, HeaderAt(file, i) + 40)
  }

  predicate HeadersInside(file: seq<Byte>) {
    |file| >= 64 && HeaderAt(file, 0) + 56 * Phnum(file) <= |file|
  }

  // The decoded headers -------------------------------------------------------------------------------

  predicate SameHeader(ph: Phdr, file: seq<Byte>, i: nat) {
    && ph.kind == Type(file, i) && ph.flags == Flags(file, i)
    && ph.offset == Offset(file, i) && ph.vaddr == Vaddr(file, i)
    && ph.filesz == FileSize(file, i) && ph.memsz == MemSize(file, i)
  }

  lemma PieceIs(file: seq<Byte>, at: nat, n: nat)
    requires at + n <= |file|
    ensures Piece(file, at, n) == file[at..at + n]
  {
  }

  /** The numbers in a piece of the file. */
  lemma NumbersIn(file: seq<Byte>, at: nat)
    ensures at + 2 <= |file| ==> FromLE(file[at..at + 2]) == Short(file, at)
    ensures at + 4 <= |file| ==> Half(file[at..at + 4]) == Long(file, at)
    ensures at + 8 <= |file| ==> Word(file[at..at + 8]) == Wide(file, at)
  {
    hide FromLE;
    if at + 2 <= |file| {
      PieceIs(file, at, 2);
      LowByteFirst(file[at..at + 2]);
    }
    if at + 4 <= |file| {
      PieceIs(file, at, 4);
      LowByteFirst(file[at..at + 4]);
    }
    if at + 8 <= |file| {
      PieceIs(file, at, 8);
    }
  }

  lemma PieceOfPiece(file: seq<Byte>, h: nat, n: nat, k: nat, w: nat)
    requires h + n <= |file| && k + w <= n
    ensures file[h..h + n][k..k + w] == file[h + k..h + k + w]
  {
    var inner, outer := file[h..h + n][k..k + w], file[h + k..h + k + w];
    forall j | 0 <= j < w
      ensures inner[j] == outer[j]
    {
      assert inner[j] == file[h..h + n][k + j] == file[h + (k + j)];
      assert outer[j] == file[h + k + j];
    }
  }

  /** The numbers at byte `k` of a program header. */
  lemma FieldIs(file: seq<Byte>, h: nat, k: nat)
    requires h + 56 <= |file|
    ensures k + 4 <= 56 ==> Half(file[h..h + 56][k..k + 4]) == Long(file, h + k)
    ensures k + 8 <= 56 ==> Word(file[h..h + 56][k..k + 8]) == Wide(file, h + k)
  {
    hide Long, Wide;
    NumbersIn(file, h + k);
    if k + 4 <= 56 {
      PieceOfPiece(file, h, 56, k, 4);
    }
    if k + 8 <= 56 {
      PieceOfPiece(file, h, 56, k, 8);
    }
  }

  lemma HeaderIs(file: seq<Byte>, i: nat)
    requires HeaderAt(file, i) + 56 <= |file|
    ensures SameHeader(DecodePhdr(file[HeaderAt(file, i)..HeaderAt(file, i) + 56]), file, i)
  {
    hide Long, Wide, HeaderAt, Half, Word;
    var h := HeaderAt(file, i);
    FieldIs(file, h, 0);
    FieldIs(file, h, 4);
    FieldIs(file, h, 8);
    FieldIs(file, h, 16);
    FieldIs(file, h, 32);
    FieldIs(file, h, 40);
  }

  lemma HeaderNumbers(file: seq<Byte>)
    requires |file| >= 64
    ensures HeaderOffset(file) == HeaderAt(file, 0) == Wide(file, 32) && HeaderCount(file) == Phnum(file)
  {
    NumbersIn(file, 32);
    NumbersIn(file, 56);
  }

  /** Main result: the headers the loaders work with are those of the file, field by field. */
  lemma HeadersAreRaw(file: seq<Byte>)
    requires HeadersInside(file)
    ensures HeaderOffset(file) + PHDR_SIZE * HeaderCount(file) <= |file|
    ensures var phs := Phdrs(file);
            && |phs| == Phnum(file)
            && forall i | 0 <= i < |phs| ::
                 && phs[i].kind == Type(file, i) && phs[i].flags == Flags(file, i)
                 && phs[i].offset == Offset(file, i) && phs[i].vaddr == Vaddr(file, i)
                 && phs[i].filesz == FileSize(file, i) && phs[i].memsz == MemSize(file, i)
  {
    hide DecodePhdr, Type, Flags, Offset, Vaddr, FileSize, MemSize, Wide, Short, HeaderOffset, HeaderCount;
    HeaderNumbers(file);
    forall i | 0 <= i < Phnum(file)
      ensures SameHeader(Phdrs(file)[i], file, i)
    {
      HeaderIs(file, i);
    }
  }

  lemma RecognisedIsElf64(file: seq<Byte>)
    ensures Recognised(file) <==> IsElf64(file)
  {
    if |file| >= 64 {
      assert forall i | 0 <= i < 7 :: file[..7][i] == file[i];
    }
  }

  // What a file must be -----------------------------------------------------------------------------------

  predicate IsLoad(file: seq<Byte>, i: nat) {
    i < Phnum(file) && Type(file, i) == 1
  }

  predicate LoadFits(file: seq<Byte>, i: nat) {
    && FileSize(file, i) <= MemSize(file, i)
    && Vaddr(file, i) + MemSize(file, i) + 0xFFFF < 0x1_0000_0000_0000_0000
    && (FileSize(file, i) > 0 ==> Offset(file, i) + FileSize(file, i) <= |file|)
  }

  predicate LoadsApart(file: seq<Byte>, i: nat, j: nat) {
    || Vaddr(file, i) + MemSize(file, i) <= Vaddr(file, j)
    || Vaddr(file, j) + MemSize(file, j) <= Vaddr(file, i)
  }

  /** A 64-bit ELF file whose headers lie inside it and whose loaded segments
      (type 1) lie inside it too, do not wrap and do not overlap. */
  ghost predicate GoodFile(file: seq<Byte>) {
    && IsElf64(file) && HeadersInside(file)
    && (forall i: nat | IsLoad(file, i) :: LoadFits(file, i))
    && (forall i: nat, j: nat | i < j && IsLoad(file, i) && IsLoad(file, j) :: LoadsApart(file, i, j))
  }

  /** The least range of whole granules of 64 KiB around all loaded segments. */
  ghost predicate IsSpan(file: seq<Byte>, lo: nat, hi: nat) {
    && lo % 0x1_0000 == 0 && hi % 0x1_0000 == 0
    && (forall i: nat | IsLoad(file, i) :: lo <= Vaddr(file, i) && Vaddr(file, i) + MemSize(file, i) <= hi)
    && (exists i: nat :: IsLoad(file, i) && Vaddr(file, i) < lo + 0x1_0000)
    && (exists i: nat :: IsLoad(file, i) && hi < Vaddr(file, i) + MemSize(file, i) + 0x1_0000)
  }

  lemma FileIsGood(file: seq<Byte>)
    requires GoodFile(file)
    ensures Recognised(file) && InFile(file) && GoodSegments(Phdrs(file), file)
  {
    RecognisedIsElf64(file);
    HeadersAreRaw(file);
    hide Type, Flags, Offset, Vaddr, FileSize, MemSize, Phnum, HeadersInside, Phdrs, IsElf64, Recognised,
      HeaderOffset, HeaderCount;
    var phs := Phdrs(file);
    forall i | 0 <= i < |phs|
      ensures GoodSegment(phs[i], file)
    {
      assert phs[i].kind == PT_LOAD ==> IsLoad(file, i) && LoadFits(file, i);
    }
    forall i, j | 0 <= i < j < |phs|
      ensures DisjointSegments(phs[i], phs[j])
    {
      if phs[i].kind == PT_LOAD && phs[j].kind == PT_LOAD {
        assert IsLoad(file, i) && IsLoad(file, j) && LoadsApart(file, i, j);
      }
    }
  }

  /** The span's bounds are reached by some segment each. */
  lemma {:induction false} SpanReachedBySome(phs: seq<Phdr>)
    requires exists ph | ph in phs :: ph.kind == PT_LOAD
    ensures exists ph | ph in phs :: ph.kind == PT_LOAD && SegStart(ph) == SpanOf(phs).lo
    ensures exists ph | ph in phs :: ph.kind == PT_LOAD && SegEnd(ph) == SpanOf(phs).hi
    decreases |phs|
  {
    hide SegEnd;
    var rest, last := phs[..|phs| - 1], phs[|phs| - 1];
    assert phs == rest + [last];
    if exists ph | ph in rest :: ph.kind == PT_LOAD {
      SpanReachedBySome(rest);
    } else {
      NoSegmentNoSpan(rest);
      StartBelowTop(last);
      assert last in phs;
    }
  }

  lemma StartBelowTop(ph: Phdr)
    ensures SegStart(ph) < TWO64 - 1
  {
    AlignDownBounds(ph.vaddr, GRANULE);
  }

  lemma {:induction false} NoSegmentNoSpan(phs: seq<Phdr>)
    requires forall ph | ph in phs :: ph.kind != PT_LOAD
    ensures SpanOf(phs) == Range(TWO64 - 1, 0)
    decreases |phs|
  {
    if phs != [] {
      var rest := phs[..|phs| - 1];
      assert phs == rest + [phs[|phs| - 1]] && phs[|phs| - 1] in phs;
      NoSegmentNoSpan(rest);
    }
  }

  lemma SameMultiple(a: int, b: int)
    requires a % 0x1_0000 == 0 && b % 0x1_0000 == 0 && a < b + 0x1_0000 && b < a + 0x1_0000
    ensures a == b
  {
  }

  lemma RoundedBounds(ph: Phdr, file: seq<Byte>)
    requires GoodSegment(ph, file) && ph.kind == PT_LOAD
    ensures SegStart(ph) % 0x1_0000 == 0 && SegEnd(ph) % 0x1_0000 == 0
    ensures SegStart(ph) <= ph.vaddr < SegStart(ph) + 0x1_0000
    ensures ph.vaddr + ph.memsz <= SegEnd(ph) < ph.vaddr + ph.memsz + 0x1_0000
  {
    Rounded(ph);
    AlignDownBounds(ph.vaddr, GRANULE);
    AlignDownBounds(ph.vaddr + ph.memsz + 0xFFFF, GRANULE);
  }

  /** The segments of the header list are the loaded segments of the file. */
  lemma LoadsAreRaw(file: seq<Byte>, ph: Phdr) returns (i: nat)
    requires HeadersInside(file) && HeaderOffset(file) + PHDR_SIZE * HeaderCount(file) <= |file|
    requires ph in Phdrs(file) && ph.kind == PT_LOAD
    ensures IsLoad(file, i) && SameHeader(ph, file, i)
  {
    HeadersAreRaw(file);
    hide Type, Flags, Offset, Vaddr, FileSize, MemSize, Phnum, HeadersInside, Phdrs, HeaderOffset, HeaderCount;
    i :| 0 <= i < |Phdrs(file)| && Phdrs(file)[i] == ph;
  }

  lemma RawIsLoaded(file: seq<Byte>, i: nat) returns (ph: Phdr)
    requires GoodFile(file) && IsLoad(file, i)
    ensures HeaderOffset(file) + PHDR_SIZE * HeaderCount(file) <= |file|
    ensures ph in Phdrs(file) && ph.kind == PT_LOAD && SameHeader(ph, file, i) && GoodSegment(ph, file)
  {
    FileIsGood(file);
    HeadersAreRaw(file);
    hide Type, Flags, Offset, Vaddr, FileSize, MemSize, Phnum, HeadersInside, Phdrs, HeaderOffset, HeaderCount,
      GoodFile, InFile, Recognised;
    ph := Phdrs(file)[i];
  }

  lemma GoodHeaders(file: seq<Byte>)
    requires GoodFile(file)
    ensures HeadersInside(file) && |file| >= 64 && HeaderOffset(file) + PHDR_SIZE * HeaderCount(file) <= |file|
    ensures GoodSegments(Phdrs(file), file) && InFile(file) && Recognised(file)
  {
    FileIsGood(file);
    HeadersAreRaw(file);
    hide HeaderOffset, HeaderCount, Phdrs, Recognised, GoodSegments, HeadersInside, IsElf64, Phnum;
  }

  /** A span of the file is the span the loader finds. */
  lemma SpanIs(file: seq<Byte>, lo: nat, hi: nat)
    requires GoodFile(file) && IsSpan(file, lo, hi)
    ensures HeaderOffset(file) + PHDR_SIZE * HeaderCount(file) <= |file|
    ensures var r := SpanOf(Phdrs(file)); r.lo == lo && r.hi == hi
  {
    hide GoodFile, Phdrs, HeaderOffset, HeaderCount, SpanOf, SegStart, SegEnd, GoodSegments, HeadersInside, InFile,
      Recognised, Vaddr, MemSize, Phnum, Type, Flags, Offset, FileSize, GoodSegment;
    GoodHeaders(file);
    var phs := Phdrs(file);
    var r := SpanOf(phs);
    var i :| IsLoad(file, i) && Vaddr(file, i) < lo + 0x1_0000;
    var j :| IsLoad(file, j) && hi < Vaddr(file, j) + MemSize(file, j) + 0x1_0000;
    var p := RawIsLoaded(file, i);
    var q := RawIsLoaded(file, j);
    SpanReachedBySome(phs);
    var s :| s in phs && s.kind == PT_LOAD && SegStart(s) == r.lo;
    var t :| t in phs && t.kind == PT_LOAD && SegEnd(t) == r.hi;
    var _ := LoadsAreRaw(file, s);
    var _ := LoadsAreRaw(file, t);
    OneGood(phs, file, s);
    OneGood(phs, file, t);
    RoundedBounds(p, file);
    RoundedBounds(q, file);
    RoundedBounds(s, file);
    RoundedBounds(t, file);
    SpanCovers(phs);
    SameMultiple(lo, r.lo);
    SameMultiple(hi, r.hi);
  }

  lemma OneGood(phs: seq<Phdr>, file: seq<Byte>, ph: Phdr)
    requires GoodSegments(phs, file) && ph in phs
    ensures GoodSegment(ph, file)
  {
  }

  // Loading -------------------------------------------------------------------------------------------------

  /** A byte of segment `i`, where the library is placed. */
  predicate InSegment(file: seq<Byte>, base: int, lo: nat, i: nat, a: int) {
    IsLoad(file, i) && base + (Vaddr(file, i) - lo) <= a < base + (Vaddr(file, i) - lo) + MemSize(file, i)
  }

  /** What that byte must be: the file's, as far as the segment reaches in the file, and zero behind it. */
  function ByteOf(file: seq<Byte>, k: int, i: nat): Byte {
    if 0 <= k < FileSize(file, i) && Offset(file, i) + k < |file| then file[Offset(file, i) + k] else 0
  }

  /** Memory with the file placed in a fresh region. */
  ghost predicate Placed(before: Mem, after: Mem, file: seq<Byte>, base: int, lo: nat, hi: nat) {
    && (forall a :: a in after <==> a in before || base <= a < base + (hi - lo))
    && (forall a | a in before :: after[a] == before[a] && !(base <= a < base + (hi - lo)))
    && (forall i: nat, a | InSegment(file, base, lo, i, a) ::
          a in after && after[a] == ByteOf(file, a - (base + (Vaddr(file, i) - lo)), i))
    && (forall a | base <= a < base + (hi - lo) && (forall i: nat :: !InSegment(file, base, lo, i, a)) :: after[a] == 0)
  }

  /** No header of type 2 comes behind header `i`. */
  ghost predicate LastOfDynamic(file: seq<Byte>, i: nat) {
    i < Phnum(file) && Type(file, i) == 2 && forall j: nat | i < j < Phnum(file) :: Type(file, j) != 2
  }

  /** The dynamic table's address: the last header of type 2 says where it is. */
  ghost predicate DynamicFound(file: seq<Byte>, base: int, lo: nat, at: int) {
    || (at == 0 && forall i: nat | i < Phnum(file) :: Type(file, i) != 2)
    || exists i: nat ::
         LastOfDynamic(file, i) && at == (base + (Vaddr(file, i) - lo)) % 0x1_0000_0000_0000_0000
  }

  /** The library's place is the end of what earlier ones took. */
  function NextBase(st: State): int {
    0x1000_0000 + st.libAlloc.offset
  }

  lemma RoomIsEnough(ar: Arena, span: U64)
    requires LibraryArenaOk(ar) && span > 0 && span % GRANULE == 0 && ar.offset + span <= LIBRARY_SIZE
    ensures NoWrap(ar, span) && Alloc(ar, span).Continue?
  {
    assert AlignDown(span + GRANULE - 1, GRANULE) == span;
    assert AlignedSize(ar, span) == span;
    hide AlignDown, AlignedSize;
  }

  lemma RoomLoads(st: State, name: string, phs: seq<Phdr>, file: seq<Byte>)
    requires LibraryArenaOk(st.libAlloc) && SpanOf(phs).lo < SpanOf(phs).hi
    requires st.libAlloc.offset + (SpanOf(phs).hi - SpanOf(phs).lo) <= 0x2FF0_0000
    requires forall ph | ph in phs :: ContentsInFile(ph, file)
    ensures NoWrap(st.libAlloc, SpanOf(phs).hi - SpanOf(phs).lo) && LoadSegments(st, name, phs, file).Continue?
  {
    hide SpanOf, NoWrap, Alloc, PlaceLibrary, ContentsInFile;
    SpanAligned(phs);
    RoomIsEnough(st.libAlloc, SpanOf(phs).hi - SpanOf(phs).lo);
  }

  lemma CanLoadHere(st: State, name: string, file: seq<Byte>, lo: nat, hi: nat)
    requires Inv(st) && GoodFile(file) && IsSpan(file, lo, hi) && lo < hi
    requires st.libAlloc.offset + (hi - lo) <= 0x2FF0_0000
    ensures HeaderOffset(file) + PHDR_SIZE * HeaderCount(file) <= |file|
    ensures CanLoad(st, name, Phdrs(file), file)
  {
    hide GoodFile, IsSpan, Inv, SpanOf, Phdrs, HeaderOffset, HeaderCount, NoWrap, GoodSegments, LoadSegments,
      ContentsInFile, LibraryArenaOk, InFile, Recognised, HeadersInside;
    GoodHeaders(file);
    SpanIs(file, lo, hi);
    LibraryArenaIn(st);
    AllContents(Phdrs(file), file);
    RoomLoads(st, name, Phdrs(file), file);
  }

  lemma AllContents(phs: seq<Phdr>, file: seq<Byte>)
    requires GoodSegments(phs, file)
    ensures forall ph | ph in phs :: ContentsInFile(ph, file)
  {
    hide ContentsInFile;
    forall ph | ph in phs
      ensures ContentsInFile(ph, file)
    {
      assert GoodSegment(ph, file);
      GoodHasContents(ph, file);
    }
  }

  lemma GoodHasContents(ph: Phdr, file: seq<Byte>)
    requires GoodSegment(ph, file)
    ensures ContentsInFile(ph, file)
  {
  }

  lemma InsideIs(file: seq<Byte>, base: U64, lo: U64, ph: Phdr, i: nat, a: int)
    requires SameHeader(ph, file, i) && i < Phnum(file)
    ensures Inside(base, lo, ph, a) <==> InSegment(file, base, lo, i, a)
    ensures SegmentByte(ph, file, a - Start(base, lo, ph)) == ByteOf(file, a - (base + (Vaddr(file, i) - lo)), i)
  {
    hide Type, Flags, Offset, Vaddr, FileSize, MemSize, Phnum;
  }

  lemma SegmentsPlaced(before: Mem, after: Mem, file: seq<Byte>, base: U64, r: Range, i: nat, a: int)
    requires GoodFile(file) && |file| >= 64 && r.lo < r.hi
    requires HeaderOffset(file) + PHDR_SIZE * HeaderCount(file) <= |file|
    requires ImageOf(before, after, base, r, Phdrs(file), file) && InSegment(file, base, r.lo, i, a)
    ensures a in after && after[a] == ByteOf(file, a - (base + (Vaddr(file, i) - r.lo)), i)
  {
    hide Type, Flags, Offset, Vaddr, FileSize, MemSize, Phnum, Phdrs, HeaderOffset, HeaderCount, IsElf64,
      HeadersInside, Inside, InSegment, ByteOf, SegmentByte, Start, LoadFits, LoadsApart;
    HeadersAreRaw(file);
    var phs := Phdrs(file);
    InCount(file, base, r.lo, i, a);
    InsideIs(file, base, r.lo, phs[i], i, a);
    assert phs[i] in phs && Inside(base, r.lo, phs[i], a);
  }

  lemma GapsPlaced(before: Mem, after: Mem, file: seq<Byte>, base: U64, r: Range, a: int)
    requires GoodFile(file) && |file| >= 64 && r.lo < r.hi
    requires HeaderOffset(file) + PHDR_SIZE * HeaderCount(file) <= |file|
    requires ImageOf(before, after, base, r, Phdrs(file), file)
    requires base <= a < base + (r.hi - r.lo) && forall i: nat :: !InSegment(file, base, r.lo, i, a)
    ensures after[a] == 0
  {
    hide Type, Flags, Offset, Vaddr, FileSize, MemSize, Phnum, Phdrs, HeaderOffset, HeaderCount, IsElf64,
      HeadersInside, Inside, InSegment, ByteOf, SegmentByte, Start, LoadFits, LoadsApart;
    HeadersAreRaw(file);
    var phs := Phdrs(file);
    forall ph | ph in phs
      ensures !Inside(base, r.lo, ph, a)
    {
      var i :| 0 <= i < |phs| && phs[i] == ph;
      InsideIs(file, base, r.lo, ph, i, a);
    }
  }

  lemma PlacedFromImage(before: Mem, after: Mem, file: seq<Byte>, base: U64, r: Range)
    requires GoodFile(file) && |file| >= 64 && r.lo < r.hi
    requires HeaderOffset(file) + PHDR_SIZE * HeaderCount(file) <= |file|
    requires ImageOf(before, after, base, r, Phdrs(file), file) && Unmapped(before, base, r.hi - r.lo)
    ensures Placed(before, after, file, base, r.lo, r.hi)
  {
    hide Phdrs, HeaderOffset, HeaderCount, GoodFile, InSegment, ByteOf, Vaddr;
    forall i: nat, a | InSegment(file, base, r.lo, i, a)
      ensures a in after && after[a] == ByteOf(file, a - (base + (Vaddr(file, i) - r.lo)), i)
    {
      SegmentsPlaced(before, after, file, base, r, i, a);
    }
    forall a | base <= a < base + (r.hi - r.lo) && (forall i: nat :: !InSegment(file, base, r.lo, i, a))
      ensures after[a] == 0
    {
      GapsPlaced(before, after, file, base, r, a);
    }
    FrameOfImage(before, after, base, r, Phdrs(file), file);
    hide ImageOf;
  }

  lemma FrameOfImage(before: Mem, after: Mem, base: U64, r: Range, phs: seq<Phdr>, file: seq<Byte>)
    requires r.lo < r.hi && ImageOf(before, after, base, r, phs, file) && Unmapped(before, base, r.hi - r.lo)
    ensures forall a :: a in after <==> a in before || base <= a < base + (r.hi - r.lo)
    ensures forall a | a in before :: after[a] == before[a] && !(base <= a < base + (r.hi - r.lo))
  {
    hide Inside, SegmentByte, Start;
  }

  lemma InCount(file: seq<Byte>, base: int, lo: nat, i: nat, a: int)
    requires InSegment(file, base, lo, i, a)
    ensures i < Phnum(file)
  {
    hide Phnum, Type, Vaddr, MemSize;
  }

  /** The last PT_DYNAMIC header, or minus one. */
  lemma {:induction false} LastDynamic(base: U64, lo: U64, phs: seq<Phdr>) returns (i: int)
    ensures -1 <= i < |phs| && forall j | i < j < |phs| :: phs[j].kind != PT_DYNAMIC
    ensures i == -1 ==> DynamicAddr(base, lo, phs) == 0
    ensures i >= 0 ==>
              && phs[i].kind == PT_DYNAMIC
              && DynamicAddr(base, lo, phs) == (base + (phs[i].vaddr - lo)) % 0x1_0000_0000_0000_0000
    decreases |phs|
  {
    i := |phs| - 1;
    if phs != [] && phs[|phs| - 1].kind != PT_DYNAMIC {
      i := LastDynamic(base, lo, phs[..|phs| - 1]);
    }
  }

  lemma DynamicIs(file: seq<Byte>, base: U64, lo: U64)
    requires HeadersInside(file) && |file| >= 64 && HeaderOffset(file) + PHDR_SIZE * HeaderCount(file) <= |file|
    ensures DynamicFound(file, base, lo, DynamicAddr(base, lo, Phdrs(file)))
  {
    hide Type, Flags, Offset, Vaddr, FileSize, MemSize, Phnum, Phdrs, HeaderOffset, HeaderCount, HeadersInside,
      DynamicAddr;
    HeadersAreRaw(file);
    var phs := Phdrs(file);
    var i := LastDynamic(base, lo, phs);
    forall j: nat | i < j < Phnum(file)
      ensures Type(file, j) != 2
    {
      assert phs[j].kind != PT_DYNAMIC;
    }
    if i >= 0 {
      assert LastOfDynamic(file, i);
    }
  }

  /** Main result: loading from the file's bytes.  At the end of any run without
      faults, a good file whose span still fits below the errno page is loaded:
      it is placed behind the earlier libraries in a fresh region, every segment
      holds the file's bytes and then zeros, gaps hold zeros, and nothing else
      changes; the library is noted with its place, its span and the dynamic
      table the last header of type 2 names. */
  lemma BytesLoaded(st: State, name: string, file: seq<Byte>, lo: nat, hi: nat)
    requires Inv(st) && AreaClear(st) && GoodFile(file) && IsSpan(file, lo, hi) && lo < hi
    requires st.libAlloc.offset + (hi - lo) <= 0x2FF0_0000
    ensures InFile(file) && LoadLibrary(st, name, file).Continue?
    ensures var (after, ok) := LoadLibrary(st, name, file).value;
            && ok && |after.libs| == |st.libs| + 1 && after.libs[..|st.libs|] == st.libs
            && Placed(st.mem, after.mem, file, NextBase(st), lo, hi)
            && var lib := after.libs[|st.libs|];
               && lib.name == name && lib.base == NextBase(st) && lib.minVaddr == lo && lib.maxVaddr == hi
               && DynamicFound(file, NextBase(st), lo, lib.dynamicAddr)
  {
    GoodHeaders(file);
    SpanIs(file, lo, hi);
    CanLoadHere(st, name, file, lo, hi);
    hide GoodFile, IsSpan, Inv, SpanOf, Phdrs, HeaderOffset, HeaderCount, GoodSegments, LoadSegments, ContentsInFile,
      AreaClear, LoadedFresh, Placed, DynamicFound, Loadable, Recognised, InFile, HeadersInside;
    var phs := Phdrs(file);
    LoadFresh(st, name, phs, file);
    FreshParts(st, LoadSegments(st, name, phs, file).value.0, phs, file);
    LoadedLib(st, name, phs, file);
    PlacedFromImage(st.mem, LoadSegments(st, name, phs, file).value.0.mem, file, NextBase(st), SpanOf(phs));
    DynamicIs(file, NextBase(st), lo);
  }

  lemma FreshParts(st: State, after: State, phs: seq<Phdr>, file: seq<Byte>)
    requires LoadedFresh(st, after, phs, file) && SpanOf(phs).lo < SpanOf(phs).hi
    ensures 0 <= NextBase(st) < TWO64 && Unmapped(st.mem, NextBase(st), SpanOf(phs).hi - SpanOf(phs).lo)
    ensures ImageOf(st.mem, after.mem, NextBase(st), SpanOf(phs), phs, file)
    ensures |after.libs| == |st.libs| + 1 && after.libs[|st.libs|].base == NextBase(st)
  {
    hide ImageOf, SpanOf, Unmapped;
  }

  lemma LoadedLib(st: State, name: string, phs: seq<Phdr>, file: seq<Byte>)
    requires forall ph | ph in phs :: ContentsInFile(ph, file)
    requires LoadSegments(st, name, phs, file).Continue? && LoadSegments(st, name, phs, file).value.1
    requires var libs := LoadSegments(st, name, phs, file).value.0.libs; |libs| == |st.libs| + 1
    ensures var libs := LoadSegments(st, name, phs, file).value.0.libs;
            && libs[..|st.libs|] == st.libs
            && var lib := libs[|st.libs|];
               && lib.name == name && lib.minVaddr == SpanOf(phs).lo && lib.maxVaddr == SpanOf(phs).hi
               && lib.dynamicAddr == DynamicAddr(lib.base, SpanOf(phs).lo, phs)
  {
    hide SpanOf, Alloc, CopySegments, Describe, MapRegion, DynamicAddr, ContentsInFile;
    var r := SpanOf(phs);
    var (base, arena) := Alloc(st.libAlloc, r.hi - r.lo).value;
    var m := CopySegments(MapRegion(st.mem, base, r.hi - r.lo), base, r.lo, phs, file);
    DescribeFields(m, name, base, r, DynamicAddr(base, r.lo, phs));
  }

  /** Main result: the tables and symbols noted with it.  Every field is what the
      last entry with its tag in the placed dynamic table says, and a name has
      the address its last definition gives it before the symbol scan ends. */
  lemma LoadedTables(st: State, name: string, file: seq<Byte>, lo: nat, hi: nat, symbol: string)
    requires Inv(st) && AreaClear(st) && GoodFile(file) && IsSpan(file, lo, hi) && lo < hi
    requires st.libAlloc.offset + (hi - lo) <= 0x2FF0_0000
    requires InFile(file) && LoadLibrary(st, name, file).Continue?
    requires |LoadLibrary(st, name, file).value.0.libs| == |st.libs| + 1
    ensures var after := LoadLibrary(st, name, file).value.0;
            var lib := after.libs[|st.libs|];
            var bare := lib.(symbols := map[]);
            && Describes(if lib.dynamicAddr == 0 then [] else Dyns(after.mem, lib.dynamicAddr),
                         EmptyLib(name, lib.base, Range(lib.minVaddr, lib.maxVaddr), lib.dynamicAddr), bare)
            && (lib.symtab == 0 || lib.strtab == 0 || lib.strsz == 0 ==> lib.symbols == map[])
            && (lib.symtab != 0 && lib.strtab != 0 && lib.strsz != 0 ==>
                  match LastDefiner(after.mem, bare, 0, StopIndex(after.mem, bare, 0), symbol)
                  case Some(k) =>
                    symbol in lib.symbols && ScanEntry(after.mem, bare, k) == Define(symbol, lib.symbols[symbol])
                  case None => symbol !in lib.symbols)
  {
    hide GoodFile, IsSpan, Inv, SpanOf, Phdrs, HeaderOffset, HeaderCount, GoodSegments, ContentsInFile, AreaClear,
      Recognised, InFile, HeadersInside, Describes, Describe, LoadSegments, DynamicAddr, LastDefiner, StopIndex,
      ScanEntry, Dyns;
    GoodHeaders(file);
    SpanIs(file, lo, hi);
    var phs := Phdrs(file);
    AllContents(phs, file);
    LoadedDescribed(st, name, phs, file);
    var after := LoadSegments(st, name, phs, file).value.0;
    var lib := after.libs[|st.libs|];
    DescribedBy(after.mem, name, lib.base, SpanOf(phs), lib.dynamicAddr, symbol);
  }

  lemma LoadedDescribed(st: State, name: string, phs: seq<Phdr>, file: seq<Byte>)
    requires forall ph | ph in phs :: ContentsInFile(ph, file)
    requires LoadSegments(st, name, phs, file).Continue?
    requires |LoadSegments(st, name, phs, file).value.0.libs| == |st.libs| + 1
    ensures var after := LoadSegments(st, name, phs, file).value.0;
            var lib := after.libs[|st.libs|];
            && lib == Describe(after.mem, name, lib.base, SpanOf(phs), lib.dynamicAddr)
            && lib.minVaddr == SpanOf(phs).lo && lib.maxVaddr == SpanOf(phs).hi
  {
    hide SpanOf, Alloc, CopySegments, Describe, MapRegion, DynamicAddr, ContentsInFile;
    var r := SpanOf(phs);
    if r.lo < r.hi {
      var (base, arena) := Alloc(st.libAlloc, r.hi - r.lo).value;
      var m := CopySegments(MapRegion(st.mem, base, r.hi - r.lo), base, r.lo, phs, file);
      DescribeFields(m, name, base, r, DynamicAddr(base, r.lo, phs));
    }
  }

  lemma DescribedBy(m: Mem, name: string, base: U64, r: Range, at: U64, symbol: string)
    ensures var lib := Describe(m, name, base, r, at);
            var bare := lib.(symbols := map[]);
            && Describes(if at == 0 then [] else Dyns(m, at), EmptyLib(name, base, r, at), bare)
            && (lib.symtab == 0 || lib.strtab == 0 || lib.strsz == 0 ==> lib.symbols == map[])
            && (lib.symtab != 0 && lib.strtab != 0 && lib.strsz != 0 ==>
                  match LastDefiner(m, bare, 0, StopIndex(m, bare, 0), symbol)
                  case Some(k) => symbol in lib.symbols && ScanEntry(m, bare, k) == Define(symbol, lib.symbols[symbol])
                  case None => symbol !in lib.symbols)
  {
    hide ScanDynamic, ScanSymbols, Describes, LastDefiner, StopIndex, ScanEntry;
    var lib0 := EmptyLib(name, base, r, at);
    ScanDescribes(m, lib0, at);
    NothingDescribed(lib0);
    ScanDynamicFields(m, lib0, at);
    var bare := if at != 0 then ScanDynamic(m, lib0, at) else lib0;
    ScanIsLastWriter(m, bare, 0, map[], symbol);
    assert Describe(m, name, base, r, at).(symbols := map[]) == bare;
  }

  /** A file that is no 64-bit ELF file is refused, and nothing changes. */
  lemma OtherRefused(st: State, name: string, file: seq<Byte>)
    requires !IsElf64(file)
    ensures InFile(file) && LoadLibrary(st, name, file) == Continue((st, false))
  {
    RecognisedIsElf64(file);
    hide Recognised, LoadSegments;
  }
}
