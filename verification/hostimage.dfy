/** The host loader's copy of a file into memory, and when it is the emulator's image. */
module HostImage {
  import opened Words
  import opened GuestMemory
  import opened PageAlloc
  import opened VmState
  import opened Image
  import opened Position
  import opened HostProcess

  function HostWiden(r: Range, ph: Phdr): Range {
    if ph.kind == PT_LOAD then
      Range(if ph.vaddr < r.lo then ph.vaddr else r.lo,
            if Wrap(ph.vaddr + ph.memsz) > r.hi then Wrap(ph.vaddr + ph.memsz) else r.hi)
    else r
  }

  /** The lowest and highest address of a segment, not rounded. */
  function HostSpan(phs: seq<Phdr>): Range {
    if phs == [] then Range(TWO64 - 1, 0)
    else HostWiden(HostSpan(phs[..|phs| - 1]), phs[|phs| - 1])
  }

  predicate HasSegment(phs: seq<Phdr>) {
    exists ph | ph in phs :: ph.kind == PT_LOAD
  }

  /** The bounds are reached: some segment starts at the lowest and some segment ends at the highest. */
  lemma {:induction false} SpanReached(phs: seq<Phdr>, file: seq<Byte>)
    requires forall ph | ph in phs :: GoodSegment(ph, file)
    ensures var r := HostSpan(phs);
            && (forall ph | ph in phs && ph.kind == PT_LOAD :: r.lo <= ph.vaddr && ph.vaddr + ph.memsz <= r.hi)
            && (r.hi == 0 || exists ph | ph in phs :: ph.kind == PT_LOAD && ph.vaddr + ph.memsz == r.hi)
            && (r.lo == TWO64 - 1 || exists ph | ph in phs :: ph.kind == PT_LOAD && ph.vaddr == r.lo)
  {
    hide ContentsInFile;
    if phs != [] {
      var rest, last := phs[..|phs| - 1], phs[|phs| - 1];
      assert phs == rest + [last];
      SpanReached(rest, file);
      assert GoodSegment(last, file);
    }
  }

  /** The copy adds each address to the base as it stands, while the mapping is
      only as long as the distance from the lowest to the highest: the copy
      stays inside it exactly when the lowest address is zero. */
  lemma CopyFitsIff(phs: seq<Phdr>, file: seq<Byte>)
    requires HasSegment(phs) && forall ph | ph in phs :: GoodSegment(ph, file)
    ensures var r := HostSpan(phs);
            && r.lo <= r.hi
            && ((forall ph | ph in phs :: Fits(0, r.hi - r.lo, ph)) <==> r.lo == 0)
  {
    hide GoodSegment, HostSpan;
    SpanReached(phs, file);
    var ph :| ph in phs && ph.kind == PT_LOAD;
    assert ph.vaddr + ph.memsz <= HostSpan(phs).hi;
  }

  /** A library linked at 64 KiB: its copy starts where its mapping ends. */
  lemma CopyMisses(file: seq<Byte>)
    ensures var ph := Phdr(PT_LOAD, 5, 0, 0x1_0000, 0, 0x1000);
            && GoodSegment(ph, file) && HostSpan([ph]) == Range(0x1_0000, 0x1_1000)
            && !Fits(0, 0x1000, ph) && forall base: U64, a | Inside(base, 0, ph, a) :: !(base <= a < base + 0x1000)
  {
    var ph := Phdr(PT_LOAD, 5, 0, 0x1_0000, 0, 0x1000);
    assert [ph][..0] == [];
    assert HostSpan([ph]) == HostWiden(HostSpan([]), ph);
  }

  /** The span and copy loops of `ElfLoader::load`.  `base` is where `mmap` puts
      the mapping; it refuses a length of zero. */
  method PlaceImage(proc: Process, phs: seq<Phdr>, file: seq<Byte>, base: U64) returns (ok: bool)
    requires forall ph | ph in phs :: ContentsInFile(ph, file)
    requires var r := HostSpan(phs); r.lo < r.hi ==> base + (r.hi - r.lo) <= TWO64
    modifies proc`mem
    ensures ok ==> HasSegment(phs)
    ensures var r := HostSpan(phs);
            if HasSegment(phs) && r.lo < r.hi
            then ok && proc.mem == CopySegments(MapRegion(old(proc.mem), base, r.hi - r.lo), base, 0, phs, file)
            else !ok && proc.mem == old(proc.mem)
  {
    hide CopySegments, ContentsInFile, MapRegion, HostSpan, HasSegment;
    var r, hasLoad := FindHostSpan(phs);
    if !hasLoad || r.lo >= r.hi {
      return false;
    }
    proc.mem := MapRegion(proc.mem, base, r.hi - r.lo);
    CopyAll(proc, phs, file, base);
    return true;
  }

  method FindHostSpan(phs: seq<Phdr>) returns (r: Range, hasLoad: bool)
    ensures r == HostSpan(phs) && hasLoad == HasSegment(phs)
  {
    hide HostSpan, HasSegment;
    var lo: U64, hi: U64 := TWO64 - 1, 0;
    hasLoad := false;
    NoSpan();
    var i := 0;
    assert phs[..0] == [];
    while i < |phs|
      invariant 0 <= i <= |phs|
      invariant Range(lo, hi) == HostSpan(phs[..i])
      invariant hasLoad == HasSegment(phs[..i])
    {
      SpanStep(phs, i);
      var ph := phs[i];
      if ph.kind == PT_LOAD {
        if ph.vaddr < lo {
          lo := ph.vaddr;
        }
        if Wrap(ph.vaddr + ph.memsz) > hi {
          hi := Wrap(ph.vaddr + ph.memsz);
        }
        hasLoad := true;
      }
      i := i + 1;
    }
    assert phs[..i] == phs;
    r := Range(lo, hi);
  }

  lemma NoSpan()
    ensures HostSpan([]) == Range(TWO64 - 1, 0) && !HasSegment([])
  {
  }

  lemma SpanStep(phs: seq<Phdr>, i: nat)
    requires i < |phs|
    ensures HostSpan(phs[..i + 1]) == HostWiden(HostSpan(phs[..i]), phs[i])
    ensures HasSegment(phs[..i + 1]) <==> HasSegment(phs[..i]) || phs[i].kind == PT_LOAD
  {
    assert phs[..i + 1] == phs[..i] + [phs[i]];
  }

  /** The loop that copies the segments. */
  method CopyAll(proc: Process, phs: seq<Phdr>, file: seq<Byte>, base: U64)
    requires forall ph | ph in phs :: ContentsInFile(ph, file)
    modifies proc`mem
    ensures proc.mem == CopySegments(old(proc.mem), base, 0, phs, file)
  {
    hide CopySegment, ContentsInFile;
    var i := 0;
    while i < |phs|
      invariant 0 <= i <= |phs|
      invariant CopySegments(old(proc.mem), base, 0, phs, file) == CopySegments(proc.mem, base, 0, phs[i..], file)
    {
      assert phs[i..][0] == phs[i] && phs[i..][1..] == phs[i + 1..];
      proc.mem := CopySegment(proc.mem, base, 0, phs[i], file);
      i := i + 1;
    }
  }

  /** The image the host makes of a file whose lowest address is zero. */
  lemma HostImageCorrect(m: Mem, base: U64, phs: seq<Phdr>, file: seq<Byte>)
    requires GoodSegments(phs, file) && HasSegment(phs)
    requires var r := HostSpan(phs); r.lo == 0 && base + r.hi <= TWO64 && Unmapped(m, base, r.hi)
    ensures forall ph | ph in phs :: ContentsInFile(ph, file)
    ensures var mapped := MapRegion(m, base, HostSpan(phs).hi);
            Loaded(mapped, CopySegments(mapped, base, 0, phs, file), base, 0, phs, file)
  {
    var span := HostSpan(phs).hi;
    assert forall ph | ph in phs :: GoodSegment(ph, file);
    CopyFitsIff(phs, file);
    hide GoodSegments, HostSpan, HasSegment, CopySegments, Fits, Loaded, MapRegion, Unmapped, ContentsInFile, Region;
    FreshRegion(m, base, span);
    CopySegmentsSpec(MapRegion(m, base, span), base, 0, span, phs, file);
  }

  lemma SpanLowZero(phs: seq<Phdr>)
    requires exists ph | ph in phs :: ph.kind == PT_LOAD && ph.vaddr == 0
    ensures SpanOf(phs).lo == 0
  {
    SpanCovers(phs);
  }

  /** Main result: a file whose lowest address is zero becomes the same image in
      the emulator and on the host, whatever the two bases. */
  lemma ImagesAgree(st: State, name: string, phs: seq<Phdr>, file: seq<Byte>, base: U64, mh: Mem, hostBase: U64)
    requires GoodSegments(phs, file) && HasSegment(phs)
    requires var r := SpanOf(phs); r.lo < r.hi && base + (r.hi - r.lo) <= TWO64 && Unmapped(st.mem, base, r.hi - r.lo)
    requires var r := HostSpan(phs); r.lo == 0 && hostBase + r.hi <= TWO64 && Unmapped(mh, hostBase, r.hi)
    ensures forall ph | ph in phs :: ContentsInFile(ph, file)
    ensures SameImage(PlaceLibrary(st, name, phs, file, base, SpanOf(phs)).0.mem,
                      CopySegments(MapRegion(mh, hostBase, HostSpan(phs).hi), hostBase, 0, phs, file),
                      base, HostSpan(phs).hi, hostBase - base)
  {
    hide GoodSegments, HostSpan, SpanOf, CopySegments, PlaceLibrary, Fits, Unmapped, HasSegment, Loaded, ImageOf,
      ContentsInFile, GoodSegment, SameByte, MapRegion;
    var r, span := SpanOf(phs), HostSpan(phs).hi;
    ImageCorrect(st, name, phs, file, base, r);
    HostImageCorrect(mh, hostBase, phs, file);
    EachGood(phs, file);
    SpansMatch(phs, file);
    var m1 := PlaceLibrary(st, name, phs, file, base, r).0.mem;
    var h0 := MapRegion(mh, hostBase, span);
    var h1 := CopySegments(h0, hostBase, 0, phs, file);
    EveryByteAgrees(st.mem, m1, mh, h0, h1, base, hostBase, r, span, phs, file);
  }

  lemma EachGood(phs: seq<Phdr>, file: seq<Byte>)
    requires GoodSegments(phs, file)
    ensures forall ph | ph in phs :: GoodSegment(ph, file)
  {
  }

  lemma EveryByteAgrees(m: Mem, m1: Mem, mh: Mem, h0: Mem, h1: Mem, base: U64, hostBase: U64, r: Range, span: U64,
                        phs: seq<Phdr>, file: seq<Byte>)
    requires ImageOf(m, m1, base, r, phs, file) && r.lo == 0 && span <= r.hi
    requires hostBase + span <= TWO64 && Unmapped(mh, hostBase, span) && h0 == MapRegion(mh, hostBase, span)
    requires Loaded(h0, h1, hostBase, 0, phs, file)
    ensures SameImage(m1, h1, base, span, hostBase - base)
  {
    hide Unmapped, Loaded, ImageOf, SameByte, MapRegion;
    var d := hostBase - base;
    forall a | base <= a < base + span
      ensures SameByte(m1, h1, a, d)
    {
      ByteAgrees(m, m1, mh, h0, h1, base, hostBase, r, span, phs, file, a);
    }
  }

  lemma SpansMatch(phs: seq<Phdr>, file: seq<Byte>)
    requires HasSegment(phs) && HostSpan(phs).lo == 0
    requires forall ph | ph in phs :: GoodSegment(ph, file)
    ensures SpanOf(phs).lo == 0 && HostSpan(phs).hi <= SpanOf(phs).hi
  {
    hide SpanOf, HostSpan, GoodSegment, SegStart, SegEnd, HasSegment;
    SpanReached(phs, file);
    SpanCovers(phs);
    LowReached(phs, file);
    SpanLowZero(phs);
    if HostSpan(phs).hi != 0 {
      var ph :| ph in phs && ph.kind == PT_LOAD && ph.vaddr + ph.memsz == HostSpan(phs).hi;
      SegmentRounded(ph, file);
    }
  }

  lemma LowReached(phs: seq<Phdr>, file: seq<Byte>)
    requires HostSpan(phs).lo == 0 && forall ph | ph in phs :: GoodSegment(ph, file)
    ensures exists ph | ph in phs :: ph.kind == PT_LOAD && ph.vaddr == 0
  {
    hide HostSpan, GoodSegment;
    SpanReached(phs, file);
  }

  lemma ByteAgrees(m: Mem, m1: Mem, mh: Mem, h0: Mem, h1: Mem, base: U64, hostBase: U64, r: Range, span: U64,
                   phs: seq<Phdr>, file: seq<Byte>, a: int)
    requires ImageOf(m, m1, base, r, phs, file) && r.lo == 0 && span <= r.hi
    requires hostBase + span <= TWO64 && Unmapped(mh, hostBase, span) && h0 == MapRegion(mh, hostBase, span)
    requires Loaded(h0, h1, hostBase, 0, phs, file)
    requires base <= a < base + span
    ensures SameByte(m1, h1, a, hostBase - base)
  {
    hide SegmentByte, Inside, Start, MapRegion, Unmapped;
    var b := a + (hostBase - base);
    FreshZeros(mh, hostBase, span, b);
    assert base <= a < base + (r.hi - r.lo);
    forall ph
      ensures Inside(base, 0, ph, a) <==> Inside(hostBase, 0, ph, b)
      ensures a - Start(base, 0, ph) == b - Start(hostBase, 0, ph)
    {
      InsideMoved(base, hostBase, 0, ph, a);
    }
    if ph :| ph in phs && Inside(base, 0, ph, a) {
      assert Inside(hostBase, 0, ph, b);
    } else {
      assert h1[b] == h0[b];
    }
  }

  lemma FreshZeros(m: Mem, base: U64, span: nat, b: int)
    requires base + span <= TWO64 && Unmapped(m, base, span) && base <= b < base + span
    ensures b in MapRegion(m, base, span) && MapRegion(m, base, span)[b] == 0
  {
  }

}
