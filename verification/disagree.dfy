/** Three reachable machines in which the resolver and `dlsym` give a name
    different addresses, one for each way they can differ. */
module Disagreements {
  import opened Words
  import opened GuestMemory
  import opened PageAlloc
  import opened VmState
  import opened SymbolNames
  import opened Resolver
  import opened Runtime
  import opened Resolutions

  // A machine with one library of one granule ---------------------------------------------------

  /** The constructed machine with a granule of the library range mapped and these bytes placed in it. */
  function OneLibrary(at: int, bytes: seq<Byte>, lib: Lib): State {
    var st := InitialState();
    st.(mem := Write(MapRegion(st.mem, LIBRARY_ADDRESS, GRANULE), at, bytes),
        libAlloc := st.libAlloc.(offset := GRANULE),
        libs := [lib])
  }

  lemma FreshGranule()
    ensures var m := InitialState().mem;
            && Granular(m) && FixedRegions(m) && Unmapped(m, LIBRARY_ADDRESS, GRANULE)
            && LIBRARY_ADDRESS + GRANULE !in m
  {
    hide InitialMemory, Granular;
    InitialMapping();
    KeysKept(InitialMemory(), Write(InitialMemory(), ERRNO_ADDRESS, Zeros(4)));
  }

  lemma OneLibraryInv(at: int, bytes: seq<Byte>, lib: Lib)
    requires LIBRARY_ADDRESS <= at && at + |bytes| <= LIBRARY_ADDRESS + GRANULE
    requires lib.base == LIBRARY_ADDRESS && SpanLength(lib) == GRANULE
    ensures Inv(OneLibrary(at, bytes, lib))
    ensures var m := OneLibrary(at, bytes, lib).mem;
            && Mapped(m, LIBRARY_ADDRESS, GRANULE) && LIBRARY_ADDRESS + GRANULE !in m
            && forall i | 0 <= i < |bytes| :: m[at + i] == bytes[i]
  {
    hide InitialState, Granular, FixedRegions, Inv, MapRegion, SpanLength;
    InitialInv();
    FreshGranule();
    StartOfRun();
    var m0 := InitialState().mem;
    var m1 := MapRegion(m0, LIBRARY_ADDRESS, GRANULE);
    MapKeepsGranular(m0, LIBRARY_ADDRESS, GRANULE);
    StillFixed(m0, m1);
    GranuleMapped(m0);
    var m2 := Write(m1, at, bytes);
    KeysKept(m1, m2);
    assert Mapped(m1, at, |bytes|);
    WithLibrary(InitialState(), m2, lib);
    WrittenBytes(m1, at, bytes);
  }

  lemma GranuleMapped(m: Mem)
    requires Unmapped(m, LIBRARY_ADDRESS, GRANULE) && LIBRARY_ADDRESS + GRANULE !in m
    ensures Mapped(MapRegion(m, LIBRARY_ADDRESS, GRANULE), LIBRARY_ADDRESS, GRANULE)
    ensures LIBRARY_ADDRESS + GRANULE !in MapRegion(m, LIBRARY_ADDRESS, GRANULE)
  {
  }

  lemma WrittenBytes(m: Mem, at: int, bytes: seq<Byte>)
    requires Mapped(m, at, |bytes|)
    ensures forall i | 0 <= i < |bytes| :: at + i in m && Write(m, at, bytes)[at + i] == bytes[i]
  {
  }

  lemma WithLibrary(st: State, m: Mem, lib: Lib)
    requires Inv(st) && Granular(m) && FixedRegions(m)
    requires st.stubs == map[] && st.libs == []
    requires lib.base == LIBRARY_ADDRESS && SpanLength(lib) == GRANULE
    ensures Inv(st.(mem := m, libAlloc := st.libAlloc.(offset := GRANULE), libs := [lib]))
  {
    hide Granular, FixedRegions;
  }

  lemma StillFixed(m: Mem, m1: Mem)
    requires FixedRegions(m) && m.Keys <= m1.Keys
    ensures FixedRegions(m1)
  {
  }

  /** What the constructed machine has not bound or loaded yet. */
  lemma StartOfRun()
    ensures var st := InitialState();
            st.imports == map[] && st.stubs == map[] && st.next == IMPORT_ADDRESS && st.libs == []
            && st.heap == Arena(HEAP_ADDRESS, HEAP_SIZE, 0, 64)
            && st.libAlloc == Arena(LIBRARY_ADDRESS, LIBRARY_SIZE, 0, GRANULE)
  {
  }

  // A symbol and its name ---------------------------------------------------------------------------

  /** An undefined function symbol whose name is at offset 1 of the strings. */
  const SYMBOL: seq<Byte> := [1, 0, 0, 0, 0x12, 0, 0, 0] + Zeros(16)

  lemma SymbolDecoded()
    ensures |SYMBOL| == SYM_SIZE && DecodeSym(SYMBOL) == Sym(1, 0x12, 0, 0)
  {
    assert SYMBOL[0..4] == [1, 0, 0, 0] && SYMBOL[4] == 0x12 && SYMBOL[6..8] == [0, 0] && SYMBOL[8..16] == Zeros(8);
    SmallWords();
    ZeroWord();
    hide SYMBOL, FromLE, Word, Half;
  }

  lemma SmallWords()
    ensures Half([1, 0, 0, 0]) == 1 && FromLE([0, 0]) == 0
  {
    assert FromLE([0]) == 0 && FromLE([0, 0]) == 0 && FromLE([0, 0, 0]) == 0;
  }

  /** Bytes without a zero, followed by one, are a string. */
  lemma {:induction false} StringHere(m: Mem, a: int, bs: seq<Byte>)
    requires Mapped(m, a, |bs| + 1) && m[a + |bs|] == 0
    requires forall i | 0 <= i < |bs| :: m[a + i] == bs[i] && bs[i] != 0
    ensures CStringAt(m, a) == bs
    decreases |bs|
  {
    hide CStringAt;
    CStringStep(m, a);
    assert a + 0 in m;
    if bs != [] {
      assert m[a + 0] == bs[0];
      forall i | 0 <= i < |bs[1..]|
        ensures m[a + 1 + i] == bs[1..][i] && bs[1..][i] != 0
      {
        assert m[a + (i + 1)] == bs[i + 1];
      }
      StringHere(m, a + 1, bs[1..]);
    }
  }

  /** A library whose tables are a symbol and, behind it, its name between two zeros. */
  predicate HasReference(lib: Lib, at: int, text: seq<Byte>) {
    && lib.base == LIBRARY_ADDRESS && SpanLength(lib) == GRANULE && lib.minVaddr == 0
    && LIBRARY_ADDRESS <= at && at + SYM_SIZE + |text| + 2 <= LIBRARY_ADDRESS + GRANULE
    && lib.symtab == at && lib.strtab == at + SYM_SIZE && lib.strsz == |text| + 2
    && forall i | 0 <= i < |text| :: text[i] != 0
  }

  function Reference(text: seq<Byte>): seq<Byte> {
    SYMBOL + [0] + text + [0]
  }

  /** Such a machine is reachable, and the reference is to that name. */
  lemma ReferenceIs(lib: Lib, at: int, text: seq<Byte>)
    requires HasReference(lib, at, text) && text != []
    ensures var st := OneLibrary(at, Reference(text), lib);
            && Inv(st) && st.libs == [lib] && st.imports == map[]
            && SymAt(st.mem, lib, 0) == Some(Sym(1, 0x12, 0, 0))
            && Refers(st.mem, lib, 0, Chars(text))
            && (NameReadable(st.mem, lib, 0) <==> at + SYM_SIZE + 1 + NAME_BUFFER <= LIBRARY_ADDRESS + GRANULE)
  {
    hide OneLibrary, Inv, SYMBOL, InitialState;
    var bytes := Reference(text);
    SymbolDecoded();
    OneLibraryInv(at, bytes, lib);
    OneLibraryParts(at, bytes, lib);
    ReferenceRead(OneLibrary(at, bytes, lib).mem, lib, at, bytes, text);
  }

  lemma OneLibraryParts(at: int, bytes: seq<Byte>, lib: Lib)
    ensures OneLibrary(at, bytes, lib).libs == [lib] && OneLibrary(at, bytes, lib).imports == map[]
  {
    StartOfRun();
    hide InitialState;
  }

  lemma ReferenceRead(m: Mem, lib: Lib, at: int, bytes: seq<Byte>, text: seq<Byte>)
    requires HasReference(lib, at, text) && text != [] && bytes == Reference(text) && |SYMBOL| == SYM_SIZE
    requires DecodeSym(SYMBOL) == Sym(1, 0x12, 0, 0)
    requires Mapped(m, LIBRARY_ADDRESS, GRANULE) && LIBRARY_ADDRESS + GRANULE !in m
    requires forall i | 0 <= i < |bytes| :: m[at + i] == bytes[i]
    ensures SymAt(m, lib, 0) == Some(Sym(1, 0x12, 0, 0))
    ensures Refers(m, lib, 0, Chars(text))
    ensures NameReadable(m, lib, 0) <==> at + SYM_SIZE + 1 + NAME_BUFFER <= LIBRARY_ADDRESS + GRANULE
  {
    hide SYMBOL, DecodeSym, CStringAt, Chars, Mapped;
    assert Wrap(at) == at;
    PartMapped(m, at, |bytes|);
    SymbolRead(m, at, bytes, text);
    NameRead(m, at, bytes, text);
    BufferFits(m, at + SYM_SIZE + 1);
  }

  lemma PartMapped(m: Mem, a: int, n: nat)
    requires Mapped(m, LIBRARY_ADDRESS, GRANULE) && LIBRARY_ADDRESS <= a && a + n <= LIBRARY_ADDRESS + GRANULE
    ensures Mapped(m, a, n)
  {
  }

  lemma SymbolRead(m: Mem, at: int, bytes: seq<Byte>, text: seq<Byte>)
    requires bytes == Reference(text) && |SYMBOL| == SYM_SIZE
    requires Mapped(m, at, |bytes|) && forall i | 0 <= i < |bytes| :: m[at + i] == bytes[i]
    ensures Read(m, at, SYM_SIZE) == Some(SYMBOL)
  {
    hide SYMBOL;
    assert Mapped(m, at, SYM_SIZE);
    forall i | 0 <= i < SYM_SIZE
      ensures Slice(m, at, SYM_SIZE)[i] == SYMBOL[i]
    {
      assert m[at + i] == bytes[i];
    }
    assert Slice(m, at, SYM_SIZE) == SYMBOL;
  }

  lemma NameRead(m: Mem, at: int, bytes: seq<Byte>, text: seq<Byte>)
    requires bytes == Reference(text) && |SYMBOL| == SYM_SIZE && forall i | 0 <= i < |text| :: text[i] != 0
    requires Mapped(m, at, |bytes|) && forall i | 0 <= i < |bytes| :: m[at + i] == bytes[i]
    ensures CStringAt(m, at + SYM_SIZE + 1) == text
  {
    hide SYMBOL, CStringAt;
    var a := at + SYM_SIZE + 1;
    forall i | 0 <= i < |text|
      ensures m[a + i] == text[i]
    {
      assert m[at + (SYM_SIZE + 1 + i)] == bytes[SYM_SIZE + 1 + i];
    }
    assert m[at + (SYM_SIZE + 1 + |text|)] == bytes[SYM_SIZE + 1 + |text|] == 0;
    assert Mapped(m, a, |text| + 1);
    StringHere(m, a, text);
  }

  lemma BufferFits(m: Mem, a: int)
    requires Mapped(m, LIBRARY_ADDRESS, GRANULE) && LIBRARY_ADDRESS + GRANULE !in m
    requires LIBRARY_ADDRESS <= a < LIBRARY_ADDRESS + GRANULE
    ensures Mapped(m, a, NAME_BUFFER) <==> a + NAME_BUFFER <= LIBRARY_ADDRESS + GRANULE
  {
    assert Mapped(m, a, NAME_BUFFER) && a + NAME_BUFFER > LIBRARY_ADDRESS + GRANULE ==> LIBRARY_ADDRESS + GRANULE in m;
  }

  function LibraryAt(at: U64, strsz: U64, symbols: map<string, U64>): Lib
    requires at + SYM_SIZE < TWO64
  {
    Lib("one", LIBRARY_ADDRESS, 0, GRANULE, 0, at, at + SYM_SIZE, strsz, 0, 0, 0, 0, 0, 0, 0, 0, 0, symbols)
  }

  // The name's buffer is not readable -----------------------------------------------------------------

  const F: seq<Byte> := [0x66]

  /** The strings end the library: "f" is lost, and its caller would jump to the start of its own library. */
  lemma NameLostAtEnd()
    ensures var lib := LibraryAt(LIBRARY_ADDRESS + GRANULE - 27, 3, map[]);
            var st := OneLibrary(lib.symtab, Reference(F), lib);
            && Inv(st) && Refers(st.mem, lib, 0, "f") && !NameReadable(st.mem, lib, 0)
            && Resolve(st, lib, 0) == Continue((st, LIBRARY_ADDRESS))
            && Dlsym(st, "f").1 >= HEAP_ADDRESS
  {
    hide OneLibrary, SymAt, Inv, Refers, NameReadable, Chars, Reference;
    var lib := LibraryAt(LIBRARY_ADDRESS + GRANULE - 27, 3, map[]);
    ReferenceIs(lib, lib.symtab, F);
    TextF();
    LostAnswer(OneLibrary(lib.symtab, Reference(F), lib), lib);
    Stubbed(OneLibrary(lib.symtab, Reference(F), lib), lib, "f");
  }

  lemma TextF()
    ensures Chars(F) == "f"
  {
  }

  lemma LostAnswer(st: State, lib: Lib)
    requires lib.symtab != 0 && lib.strtab != 0 && lib.strtab + 1 < TWO64
    requires SymAt(st.mem, lib, 0) == Some(Sym(1, 0x12, 0, 0)) && !NameReadable(st.mem, lib, 0)
    ensures Resolve(st, lib, 0) == Continue((st, lib.base))
  {
    hide SymAt, BufferReadable;
    UnreadableName(st.mem, st.libs, lib, 0);
    hide Classify;
  }

  /** A name that the one library does not define gets an address at or above the heap from `dlsym`. */
  lemma Stubbed(st: State, lib: Lib, name: string)
    requires Inv(st) && st.libs == [lib] && (name in lib.symbols ==> lib.symbols[name] == 0)
    ensures Dlsym(st, name).1 >= HEAP_ADDRESS
  {
    hide Inv;
    assert SymbolAddress(st.libs, name) == 0;
    DlsymIs(st, name);
    BoundHigh(Dlsym(st, name).0);
  }

  // Only the renamed form is defined --------------------------------------------------------------------

  const NDK_TEXT: seq<Byte> := [0x78, 0x36, 0x5f, 0x5f, 0x6e, 0x64, 0x6b, 0x31]

  const DEFINED_AT: U64 := LIBRARY_ADDRESS + 0x1000
  const NDK_LIB: Lib := LibraryAt(LIBRARY_ADDRESS, 10, map["x3__1" := DEFINED_AT])

  function NdkState(): State {
    OneLibrary(LIBRARY_ADDRESS, Reference(NDK_TEXT), NDK_LIB)
  }

  /** "x6__ndk1", which the resolver finds as "x3__1" and `dlsym` does not find. */
  lemma RenamedForResolverOnly()
    ensures Inv(NdkState())
    ensures Refers(NdkState().mem, NDK_LIB, 0, "x6__ndk1") && NameReadable(NdkState().mem, NDK_LIB, 0)
    ensures Resolve(NdkState(), NDK_LIB, 0) == Continue((NdkState(), DEFINED_AT))
    ensures Dlsym(NdkState(), "x6__ndk1").1 >= HEAP_ADDRESS
  {
    hide OneLibrary, SymAt, Inv, Refers, NameReadable, Chars, Reference;
    ReferenceIs(NDK_LIB, LIBRARY_ADDRESS, NDK_TEXT);
    TextNdk();
    NameFound(NdkState().mem, NDK_LIB, "x6__ndk1");
    RenamedX();
    hide NDK_TEXT;
    RenamedAnswer(NdkState(), NDK_LIB, "x6__ndk1", "x3__1");
    Stubbed(NdkState(), NDK_LIB, "x6__ndk1");
  }

  lemma TextNdk()
    ensures Chars(NDK_TEXT) == "x6__ndk1"
  {
  }

  /** The name a readable reference is read as. */
  lemma NameFound(m: Mem, lib: Lib, name: string)
    requires Refers(m, lib, 0, name) && NameReadable(m, lib, 0) && |name| < NAME_BUFFER
    ensures SymAt(m, lib, 0).Some? && NameAt(m, lib, SymAt(m, lib, 0).value.name) == name
  {
    hide SymAt, NameAt, BufferReadable, CStringAt, Chars;
    NameIsCStringIff(m, lib, SymAt(m, lib, 0).value.name);
  }

  lemma RenamedAnswer(st: State, lib: Lib, name: string, renamed: string)
    requires lib.symtab != 0 && lib.strtab != 0 && SymAt(st.mem, lib, 0) == Some(Sym(1, 0x12, 0, 0))
    requires NameAt(st.mem, lib, 1) == name && name != "" && NdkName(name) == renamed && renamed != name
    requires st.libs == [lib] && name !in lib.symbols && renamed in lib.symbols
    ensures Resolve(st, lib, 0) == Continue((st, lib.symbols[renamed]))
  {
    hide SymAt, NameAt, NdkName;
    assert Lookup(st.libs, name).None? && Lookup(st.libs, renamed) == Some((0, lib.symbols[renamed]));
    hide Lookup;
  }

  // The name is defined at zero --------------------------------------------------------------------------

  /** A name defined at zero: the resolver gives zero, `dlsym` a stub. */
  lemma DefinedAtZero()
    ensures var lib := LibraryAt(LIBRARY_ADDRESS, 3, map["f" := 0]);
            var st := OneLibrary(lib.symtab, Reference(F), lib);
            && Inv(st) && Refers(st.mem, lib, 0, "f") && NameReadable(st.mem, lib, 0)
            && Resolve(st, lib, 0) == Continue((st, 0)) && Dlsym(st, "f").1 >= HEAP_ADDRESS
  {
    hide OneLibrary, SymAt, Inv, Refers, NameReadable, Chars, Reference;
    var lib := LibraryAt(LIBRARY_ADDRESS, 3, map["f" := 0]);
    ReferenceIs(lib, lib.symtab, F);
    TextF();
    var st := OneLibrary(lib.symtab, Reference(F), lib);
    NameFound(st.mem, lib, "f");
    OwnAnswer(st, lib, "f");
    Stubbed(st, lib, "f");
  }

  lemma OwnAnswer(st: State, lib: Lib, name: string)
    requires lib.symtab != 0 && lib.strtab != 0 && SymAt(st.mem, lib, 0) == Some(Sym(1, 0x12, 0, 0))
    requires NameAt(st.mem, lib, 1) == name && name != "" && name in lib.symbols
    ensures Resolve(st, lib, 0) == Continue((st, lib.symbols[name]))
  {
    hide SymAt, NameAt;
  }
}
