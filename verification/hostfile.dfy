/** The host's reading of the file's headers: it checks less of the
    identification than the emulator, but the machine too, and it takes the
    distance between program headers from the file. */
module HostFile {
  import opened Words
  import opened Image
  import opened FileBytes
  import opened HostSections
  import opened HostLoad
  import PageProtection

  /** A 64-byte header, the magic number, and e_machine for AArch64. */
  predicate IsHostElf(file: seq<Byte>) {
    && |file| >= 64
    && file[0] == 0x7F && file[1] == 'E' as int && file[2] == 'L' as int && file[3] == 'F' as int
    && Short(file, 18) == 183
  }

  /** e_phentsize. */
  function Step(file: seq<Byte>): nat {
    Short(file, 54)
  }

  function HostHeaderAt(file: seq<Byte>, i: nat): nat {
    Wide(file, 32) + Step(file) * i
  }

  /** The program headers; one past the end of the file, which the process could
      not read, counts as zero. */
  function HostPhdrs(file: seq<Byte>): (phs: seq<Phdr>)
    ensures |phs| == Phnum(file)
  {
    seq(Phnum(file), i requires 0 <= i => DecodePhdr(Piece(file, HostHeaderAt(file, i), 56)))
  }

  /** Main result: both loaders see the same headers when they are 56 bytes apart, or there is only one. */
  lemma HeadersAlike(file: seq<Byte>)
    requires HeadersInside(file) && (Short(file, 54) == 56 || Phnum(file) <= 1)
    ensures HeaderOffset(file) + PHDR_SIZE * HeaderCount(file) <= |file| && HostPhdrs(file) == Phdrs(file)
  {
    hide Wide, Short, Phnum, DecodePhdr, HeaderOffset, HeaderCount;
    HeaderNumbers(file);
    forall i | 0 <= i < Phnum(file)
      ensures HostPhdrs(file)[i] == Phdrs(file)[i]
    {
      var h := HeaderAt(file, i);
      assert HostHeaderAt(file, i) == h;
      PieceIs(file, h, 56);
    }
  }

  /** The loop over the headers. */
  method ReadHeaders(file: seq<Byte>) returns (phs: seq<Phdr>)
    ensures phs == HostPhdrs(file)
  {
    hide DecodePhdr, HostHeaderAt;
    phs := [];
    var i := 0;
    while i < Phnum(file)
      invariant 0 <= i <= Phnum(file) && phs == HostPhdrs(file)[..i]
    {
      phs := phs + [DecodePhdr(Piece(file, HostHeaderAt(file, i), 56))];
      i := i + 1;
    }
  }

  lemma {:induction false} SegmentsAreLoads(phs: seq<Phdr>, s: PageProtection.Segment)
    ensures s in SegmentsOf(phs) <==>
            exists i :: 0 <= i < |phs| && phs[i].kind == PT_LOAD
                        && s == PageProtection.Segment(phs[i].vaddr, phs[i].memsz, phs[i].flags)
    decreases |phs|
  {
    if phs != [] {
      var rest := phs[..|phs| - 1];
      SegmentsAreLoads(rest, s);
      assert forall i | 0 <= i < |rest| :: rest[i] == phs[i];
    }
  }

  /** A segment noted for protection is loaded segment `i` of the file. */
  predicate NotedFrom(file: seq<Byte>, i: nat, s: PageProtection.Segment) {
    IsLoad(file, i) && s.vaddr == Vaddr(file, i) && s.memsz == MemSize(file, i) && s.flags == Flags(file, i)
  }

  /** Main result: the segments whose pages are protected are the loaded segments
      of the file, each with its own address, size in memory and flags. */
  lemma SegmentsFromBytes(file: seq<Byte>, s: PageProtection.Segment)
    requires HeadersInside(file) && Short(file, 54) == 56
    ensures s in SegmentsOf(HostPhdrs(file)) <==> exists i: nat :: NotedFrom(file, i, s)
  {
    hide Wide, Long, Short, Phnum, DecodePhdr, HeaderOffset, HeaderCount, HeadersInside, HostPhdrs, Phdrs, Vaddr,
      MemSize, Flags, Type, Offset, FileSize, SegmentsOf;
    HeadersAlike(file);
    HeadersAreRaw(file);
    var phs := HostPhdrs(file);
    SegmentsAreLoads(phs, s);
    if i: nat :| NotedFrom(file, i, s) {
      assert s == PageProtection.Segment(phs[i].vaddr, phs[i].memsz, phs[i].flags);
    }
    if s in SegmentsOf(phs) {
      var i :| 0 <= i < |phs| && phs[i].kind == PT_LOAD
               && s == PageProtection.Segment(phs[i].vaddr, phs[i].memsz, phs[i].flags);
      assert NotedFrom(file, i, s);
    }
  }

  lemma {:induction false} FirstDynamicAt(base: U64, phs: seq<Phdr>, i: nat)
    requires i < |phs| && phs[i].kind == PT_DYNAMIC && forall j | 0 <= j < i :: phs[j].kind != PT_DYNAMIC
    ensures FirstDynamic(base, phs) == Some((base + phs[i].vaddr) % 0x1_0000_0000_0000_0000)
    decreases |phs|
  {
    if i > 0 {
      FirstDynamicAt(base, phs[1..], i - 1);
    }
  }

  /** The host's dynamic table is where the first header of type 2 says. */
  lemma DynamicFromBytes(file: seq<Byte>, base: U64, i: nat)
    requires HeadersInside(file) && Short(file, 54) == 56
    requires i < Phnum(file) && Type(file, i) == 2 && forall j: nat | j < i :: Type(file, j) != 2
    ensures FirstDynamic(base, HostPhdrs(file)) == Some((base + Vaddr(file, i)) % 0x1_0000_0000_0000_0000)
  {
    hide Phnum, DecodePhdr, HeaderOffset, HeaderCount, HeadersInside, HostPhdrs, Phdrs, Vaddr, MemSize, Flags, Type,
      Offset, FileSize, FirstDynamic;
    HeadersAlike(file);
    HeadersAreRaw(file);
    FirstDynamicAt(base, HostPhdrs(file), i);
  }
}
