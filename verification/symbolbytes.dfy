/** Symbols on the bytes of their table: an entry of 24 bytes holds a name's
    offset in four, a type and binding in one, a section in the seventh and
    eighth and a value in the second word. */
module SymbolBytes {
  import opened Words
  import opened GuestMemory
  import opened VmState
  import opened SymbolNames
  import opened Resolver
  import opened Image
  import opened HostRelocation
  import opened Resolutions
  import opened Lookups

  datatype RawSymbol = RawSymbol(name: int, info: Byte, section: int, value: U64)

  function RawSymbolAt(m: Mem, at: int): RawSymbol {
    RawSymbol(Sum4(Peek(m, at, 4)), Peek(m, at + 4, 1)[0], Sum2(Peek(m, at + 6, 2)), PeekWord(m, at + 8))
  }

  /** Where symbol `idx` of a library is. */
  function SymbolPlace(lib: Lib, idx: U32): U64 {
    (lib.symtab + 24 * idx) % 0x1_0000_0000_0000_0000
  }

  /** The low half of the info byte: the symbol's type. */
  function Type(r: RawSymbol): int {
    r.info % 16
  }

  predicate Undefined(r: RawSymbol) {
    r.value == 0 || r.section == 0
  }

  predicate SameSymbol(sym: Sym, r: RawSymbol) {
    sym.name == r.name && sym.info == r.info && sym.shndx == r.section && sym.value == r.value
  }

  lemma DecodedSymbol(m: Mem, at: int)
    ensures SameSymbol(DecodeSym(Peek(m, at, 24)), RawSymbolAt(m, at))
  {
    var bs := Peek(m, at, 24);
    LowByteFirst(bs[0..4]);
    LowByteFirst(bs[6..8]);
    hide FromLE, Word;
    assert bs[0..4] == Peek(m, at, 4) && bs[6..8] == Peek(m, at + 6, 2) && bs[8..16] == Peek(m, at + 8, 8);
    SumIsSum(bs[0..4]);
  }

  lemma SumIsSum(bs: seq<Byte>)
    requires |bs| == 4
    ensures Half(bs) == Sum4(bs)
  {
    LowByteFirst(bs);
  }

  /** Both loaders read a symbol's fields from its bytes. */
  lemma SymbolsAreRaw(m: Mem, lib: Lib, ld: Loader, idx: U32)
    ensures Mapped(m, SymbolPlace(lib, idx), 24) ==>
              var r := RawSymbolAt(m, SymbolPlace(lib, idx));
              && SymAt(m, lib, idx).Some?
              && var sym := SymAt(m, lib, idx).value;
                 sym.name == r.name && sym.info == r.info && sym.shndx == r.section && sym.value == r.value
    ensures !Mapped(m, SymbolPlace(lib, idx), 24) ==> SymAt(m, lib, idx) == None
    ensures var r, sym := RawSymbolAt(m, ld.symtab + 24 * idx), HostSym(m, ld, idx);
            sym.name == r.name && sym.info == r.info && sym.shndx == r.section && sym.value == r.value
  {
    hide DecodeSym, RawSymbolAt;
    var at := SymbolPlace(lib, idx);
    assert at == Wrap(lib.symtab + idx * SYM_SIZE);
    DecodedSymbol(m, at);
    DecodedSymbol(m, ld.symtab + 24 * idx);
    if Mapped(m, at, 24) {
      assert Slice(m, at, 24) == Peek(m, at, 24);
    }
  }

  // Names ---------------------------------------------------------------------------------------------

  /** Memory spells the name and ends it with a zero. */
  ghost predicate Spells(m: Mem, at: int, name: string) {
    && (forall i | 0 <= i < |name| :: at + i in m && m[at + i] != 0 && m[at + i] as char == name[i])
    && at + |name| in m && m[at + |name|] == 0
  }

  predicate GoesOn(m: Mem, x: int) {
    x in m && m[x] != 0
  }

  /** The spelled string is the one that is read. */
  lemma SpelledIs(m: Mem, at: int, name: string)
    requires Spells(m, at, name)
    ensures Chars(CStringAt(m, at)) == name
  {
    var c := CStringAt(m, at);
    hide CStringAt;
    assert forall x | at <= x < at + |c| :: GoesOn(m, x);
    assert forall x | at <= x < at + |name| :: GoesOn(m, x) by {
      forall x | at <= x < at + |name|
        ensures GoesOn(m, x)
      {
        var letter := name[x - at];
      }
    }
    assert !GoesOn(m, at + |c|) && !GoesOn(m, at + |name|);
    assert |c| == |name|;
    forall i | 0 <= i < |name|
      ensures Chars(c)[i] == name[i]
    {
      assert c[at + i - at] == m[at + i] && m[at + i] as char == name[i];
    }
  }

  /** A symbol of the library is called `name`, and its whole name buffer of 255 bytes is mapped. */
  ghost predicate Called(m: Mem, lib: Lib, r: RawSymbol, name: string) {
    && lib.symtab != 0 && lib.strtab != 0
    && 0 <= r.name < lib.strsz && lib.strtab + r.name < 0x1_0000_0000_0000_0000
    && 0 < |name| < 255 && Spells(m, lib.strtab + r.name, name) && Mapped(m, lib.strtab + r.name, 255)
  }

  lemma BufferIs(m: Mem, lib: Lib, offset: U32, name: string)
    requires offset < lib.strsz && lib.strtab + offset < 0x1_0000_0000_0000_0000 && 0 < |name| < 255
    requires Spells(m, lib.strtab + offset, name) && BufferReadable(m, lib, offset)
    ensures NameAt(m, lib, offset) == name
  {
    hide NameAt, CStringAt, Chars, Spells, BufferReadable;
    SpelledIs(m, lib.strtab + offset, name);
    NameIsCStringIff(m, lib, offset);
  }

  lemma CalledIs(m: Mem, lib: Lib, sym: Sym, r: RawSymbol, name: string)
    requires Called(m, lib, r, name) && SameSymbol(sym, r)
    ensures NameAt(m, lib, sym.name) == name
  {
    hide NameAt, Spells;
    BufferIs(m, lib, sym.name, name);
  }

  // Data or function ------------------------------------------------------------------------------------

  predicate Starts(name: string, p: string) {
    |p| <= |name| && forall i | 0 <= i < |p| :: name[i] == p[i]
  }

  /** The names that are data whatever their symbol's type. */
  predicate Listed(name: string) {
    || Starts(name, "_ZTV") || Starts(name, "_ZTI") || Starts(name, "_ZTS")
    || Starts(name, "kCF") || Starts(name, "kAudio") || Starts(name, "OBJC_")
    || name == "__CFConstantStringClassReference" || name == "__sF" || name == "environ"
    || name == "__stack_chk_guard" || name == "__ctype_"
  }

  /** An object, or a listed name. */
  predicate NamesData(r: RawSymbol, name: string) {
    Type(r) == 1 || Listed(name)
  }

  lemma PrefixIsStart(name: string, p: string)
    ensures HasPrefix(name, p) <==> Starts(name, p)
  {
  }

  lemma PrefixesListed(name: string)
    ensures (exists p | p in DATA_PREFIXES :: HasPrefix(name, p)) <==>
            || HasPrefix(name, "_ZTV") || HasPrefix(name, "_ZTI") || HasPrefix(name, "_ZTS")
            || HasPrefix(name, "kCF") || HasPrefix(name, "kAudio") || HasPrefix(name, "OBJC_")
  {
    hide HasPrefix;
    var ps := DATA_PREFIXES;
    assert ps[0] in ps && ps[1] in ps && ps[2] in ps && ps[3] in ps && ps[4] in ps && ps[5] in ps;
  }

  /** Type 1 and the listed names are data; everything else is a function. */
  lemma DataIsNamed(sym: Sym, r: RawSymbol, name: string)
    requires SameSymbol(sym, r)
    ensures IsData(sym.info % 16, name) <==> NamesData(r, name)
  {
    PrefixesListed(name);
    PrefixIsStart(name, "_ZTV");
    PrefixIsStart(name, "_ZTI");
    PrefixIsStart(name, "_ZTS");
    PrefixIsStart(name, "kCF");
    PrefixIsStart(name, "kAudio");
    PrefixIsStart(name, "OBJC_");
    hide HasPrefix, Starts;
  }

  /** No library defines the name or its renamed form. */
  predicate NowhereDefined(libs: seq<Lib>, name: string) {
    forall lib | lib in libs :: name !in lib.symbols && NdkName(name) !in lib.symbols
  }

  lemma NamedClassified(libs: seq<Lib>, lib: Lib, sym: Sym, r: RawSymbol, name: string)
    requires SameSymbol(sym, r) && name != ""
    ensures !Undefined(r) ==>
              ClassifySym(libs, lib, sym, name) == Own((lib.base + r.value - lib.minVaddr) % 0x1_0000_0000_0000_0000)
    ensures Undefined(r) && lib in libs && NowhereDefined(libs, name) ==>
              ClassifySym(libs, lib, sym, name) == Unbound(name, NamesData(r, name))
  {
    hide NdkName, LookupFrom, IsData, NamesData;
    DataIsNamed(sym, r, name);
    if NowhereDefined(libs, name) {
      assert Lookup(libs, name).None? && Lookup(libs, NdkName(name)).None?;
    }
  }

  /** Main result: what a reference to a named symbol means, from the symbol's
      bytes.  A defined symbol is its own address; an undefined one that no
      library defines is to be bound, as data exactly when its type is 1 or its
      name is listed. */
  lemma NamedSymbol(m: Mem, libs: seq<Lib>, lib: Lib, idx: U32, name: string)
    requires Mapped(m, SymbolPlace(lib, idx), 24)
    requires Called(m, lib, RawSymbolAt(m, SymbolPlace(lib, idx)), name)
    ensures var r := RawSymbolAt(m, SymbolPlace(lib, idx));
            && (!Undefined(r) ==>
                  Classify(m, libs, lib, idx) ==
                    Own((lib.base + r.value - lib.minVaddr) % 0x1_0000_0000_0000_0000))
            && (Undefined(r) && lib in libs && NowhereDefined(libs, name) ==>
                  Classify(m, libs, lib, idx) == Unbound(name, NamesData(r, name)))
  {
    hide RawSymbolAt, SymAt, NameAt, ClassifySym, NamesData, SymbolPlace, Spells, Undefined, NowhereDefined, Mapped;
    var r := RawSymbolAt(m, SymbolPlace(lib, idx));
    SymbolsAreRaw(m, lib, Loader(0, 0, 0, 0, map[], 0, 0, 0, 0, 0, 0, 0), idx);
    var sym := SymAt(m, lib, idx).value;
    CalledIs(m, lib, sym, r, name);
    NamedClassified(libs, lib, sym, r, name);
  }

  lemma UnboundClassified(libs: seq<Lib>, lib: Lib, sym: Sym, read: string, name: string, isData: bool)
    requires ClassifySym(libs, lib, sym, read) == Unbound(name, isData)
    ensures read == name && isData == IsData(sym.info % 16, name)
  {
    hide NdkName, LookupFrom, IsData;
  }

  /** A reference whose bytes make it one to data leads to that symbol's own name. */
  lemma DataReference(m: Mem, libs: seq<Lib>, lib: Lib, idx: U32, name: string, isData: bool)
    requires Classify(m, libs, lib, idx) == Unbound(name, isData)
    ensures Mapped(m, SymbolPlace(lib, idx), 24)
    ensures var r := RawSymbolAt(m, SymbolPlace(lib, idx));
            0 <= r.name < 0x1_0000_0000 && NameAt(m, lib, r.name) == name && isData == NamesData(r, name)
  {
    SymbolsAreRaw(m, lib, Loader(0, 0, 0, 0, map[], 0, 0, 0, 0, 0, 0, 0), idx);
    hide RawSymbolAt, SymAt, NameAt, ClassifySym, IsData, NamesData, SymbolPlace, Mapped;
    var r := RawSymbolAt(m, SymbolPlace(lib, idx));
    var sym := SymAt(m, lib, idx).value;
    UnboundClassified(libs, lib, sym, NameAt(m, lib, sym.name), name, isData);
    DataIsNamed(sym, r, name);
  }

  /** A symbol whose name lies outside the strings, cannot be read whole or is
      empty is taken for an address of its own library. */
  lemma NamelessSymbol(m: Mem, libs: seq<Lib>, lib: Lib, idx: U32)
    requires lib.symtab != 0 && lib.strtab != 0 && Mapped(m, SymbolPlace(lib, idx), 24)
    requires var r := RawSymbolAt(m, SymbolPlace(lib, idx));
             && lib.strtab + r.name < 0x1_0000_0000_0000_0000
             && (r.name >= lib.strsz || !Mapped(m, lib.strtab + r.name, 255) ||
                   (lib.strtab + r.name in m && m[lib.strtab + r.name] == 0))
    ensures var r := RawSymbolAt(m, SymbolPlace(lib, idx));
            Classify(m, libs, lib, idx) ==
              Own(if r.value != 0 then (lib.base + r.value - lib.minVaddr) % 0x1_0000_0000_0000_0000 else lib.base)
  {
    hide RawSymbolAt, SymAt, NameAt, ClassifySym, SymbolPlace, Mapped;
    var r := RawSymbolAt(m, SymbolPlace(lib, idx));
    SymbolsAreRaw(m, lib, Loader(0, 0, 0, 0, map[], 0, 0, 0, 0, 0, 0, 0), idx);
    var sym := SymAt(m, lib, idx).value;
    NoName(m, lib, sym.name);
    NamelessClassified(libs, lib, sym);
  }

  lemma NoName(m: Mem, lib: Lib, offset: U32)
    requires lib.strtab + offset < 0x1_0000_0000_0000_0000
    requires offset >= lib.strsz || !Mapped(m, lib.strtab + offset, 255)
             || (lib.strtab + offset in m && m[lib.strtab + offset] == 0)
    ensures NameAt(m, lib, offset) == ""
  {
    hide Mapped;
    if offset < lib.strsz && Mapped(m, lib.strtab + offset, 255) {
      assert Slice(m, lib.strtab + offset, 255)[0] == m[lib.strtab + offset + 0];
    }
  }

  lemma NamelessClassified(libs: seq<Lib>, lib: Lib, sym: Sym)
    ensures ClassifySym(libs, lib, sym, "") ==
              Own(if sym.value != 0 then (lib.base + sym.value - lib.minVaddr) % 0x1_0000_0000_0000_0000 else lib.base)
  {
    hide NdkName, LookupFrom, IsData;
  }

  /** Main result: an undefined symbol that some library defines, under its name
      or the renamed one, has the first such definition's address. */
  lemma UndefinedSymbol(m: Mem, libs: seq<Lib>, lib: Lib, idx: U32, name: string, imports: map<string, nat>)
    requires Mapped(m, SymbolPlace(lib, idx), 24)
    requires var r := RawSymbolAt(m, SymbolPlace(lib, idx)); Called(m, lib, r, name) && Undefined(r)
    ensures var r := RawSymbolAt(m, SymbolPlace(lib, idx));
            match Found(EmulatorProbes(lib.symbols, Tables(libs), name))
            case Some(a) =>
              !Classify(m, libs, lib, idx).Unbound? && Address(Classify(m, libs, lib, idx), imports) == a
            case None => Classify(m, libs, lib, idx) == Unbound(name, NamesData(r, name))
  {
    hide RawSymbolAt, SymAt, NameAt, ClassifySym, NamesData, SymbolPlace, Spells, Mapped, Found, EmulatorProbes,
      IsData, Tables;
    var r := RawSymbolAt(m, SymbolPlace(lib, idx));
    SymbolsAreRaw(m, lib, Loader(0, 0, 0, 0, map[], 0, 0, 0, 0, 0, 0, 0), idx);
    var sym := SymAt(m, lib, idx).value;
    CalledIs(m, lib, sym, r, name);
    DataIsNamed(sym, r, name);
    EmulatorOrder(libs, lib, sym, name, imports);
  }

  /** Main result: what the host resolves a symbol to, from its bytes: nothing
      past the last symbol, its own value if it has one, and otherwise the first
      definition of its name or renamed name, the hook, the dummy stub. */
  lemma HostSymbol(m: Mem, ld: Loader, siblings: seq<map<string, U64>>, host: Host, idx: U32, name: string)
    requires Spells(m, ld.strtab + RawSymbolAt(m, ld.symtab + 24 * idx).name, name)
    ensures var r := RawSymbolAt(m, ld.symtab + 24 * idx);
            var hooked := if host.hooks(name) != 0 then host.hooks(name) else host.dummyStub;
            ResolveHost(m, ld, siblings, host, idx) ==
            if idx >= ld.symCount then 0
            else if r.value != 0 then (ld.base + r.value) % 0x1_0000_0000_0000_0000
            else if name == "" then hooked
            else match Found(HostProbes([ld.exports] + siblings, name)) case Some(a) => a case None => hooked
  {
    hide RawSymbolAt, HostSym, CStringAt, Chars, Spells, Found, HostProbes, ResolveHostName;
    var r := RawSymbolAt(m, ld.symtab + 24 * idx);
    SymbolsAreRaw(m, EMPTY_LIB, ld, idx);
    SpelledIs(m, ld.strtab + r.name, name);
    if name != "" {
      HostOrder(ld, siblings, host, name);
    } else {
      HostNoName(ld, siblings, host);
    }
  }

  const EMPTY_LIB := Lib("", 0, 0, 0, 0, 0, 0, 0, 0, 0, 0, 0, 0, 0, 0, 0, 0, map[])

  lemma HostNoName(ld: Loader, siblings: seq<map<string, U64>>, host: Host)
    ensures ResolveHostName(ld, siblings, host, "") ==
              if host.hooks("") != 0 then host.hooks("") else host.dummyStub
  {
    hide FindExport, NdkName;
  }

  // The scan when a library is loaded ---------------------------------------------------------------------

  /** The readable entry the scan ends at: past the fourth, it has neither a name nor a value. */
  ghost predicate EndsAt(m: Mem, lib: Lib, i: nat) {
    var r := RawSymbolAt(m, lib.symtab + 24 * i);
    && Mapped(m, lib.symtab + 24 * i, 24) && i >= 4 && r.value == 0
    && 0 <= r.name < lib.strsz && r.name < 0x1_0000_0000 && NameAt(m, lib, r.name) == ""
  }

  lemma SliceIsPeek(m: Mem, at: int, n: nat)
    requires Mapped(m, at, n)
    ensures Read(m, at, n) == Some(Peek(m, at, n))
  {
    assert Slice(m, at, n) == Peek(m, at, n);
  }

  lemma ScanReads(m: Mem, lib: Lib, i: nat) returns (sym: Sym)
    requires Mapped(m, lib.symtab + 24 * i, 24)
    ensures SameSymbol(sym, RawSymbolAt(m, lib.symtab + 24 * i))
    ensures ScanEntry(m, lib, i) == Stop <==> EndsAt(m, lib, i)
    ensures sym.name < lib.strsz && NameAt(m, lib, sym.name) != "" ==>
              ScanEntry(m, lib, i) ==
                if sym.value != 0
                then Define(NameAt(m, lib, sym.name), (lib.base + sym.value - lib.minVaddr) % 0x1_0000_0000_0000_0000)
                else Skip
  {
    hide DecodeSym, RawSymbolAt, NameAt, Mapped;
    var at := lib.symtab + 24 * i;
    DecodedSymbol(m, at);
    SliceIsPeek(m, at, 24);
    sym := DecodeSym(Peek(m, at, 24));
  }

  lemma UnreadableStops(m: Mem, lib: Lib, i: nat)
    requires !Mapped(m, lib.symtab + 24 * i, 24)
    ensures ScanEntry(m, lib, i) == Stop
  {
    hide NameAt;
  }

  /** Main result: what the scan does at entry `i`, from its bytes.  It ends at
      the first entry it cannot read, or that is empty and past the fourth; an
      entry with a name and a value defines the name. */
  lemma ScanFromBytes(m: Mem, lib: Lib, i: nat, name: string)
    ensures var r := RawSymbolAt(m, lib.symtab + 24 * i);
            && (ScanEntry(m, lib, i) == Stop <==> !Mapped(m, lib.symtab + 24 * i, 24) || EndsAt(m, lib, i))
            && (Mapped(m, lib.symtab + 24 * i, 24) && Called(m, lib, r, name) ==>
                  ScanEntry(m, lib, i) ==
                    if r.value != 0
                    then Define(name, (lib.base + r.value - lib.minVaddr) % 0x1_0000_0000_0000_0000)
                    else Skip)
  {
    hide ScanEntry, RawSymbolAt, NameAt, Mapped, EndsAt, Spells;
    var r := RawSymbolAt(m, lib.symtab + 24 * i);
    if Mapped(m, lib.symtab + 24 * i, 24) {
      var sym := ScanReads(m, lib, i);
      if Called(m, lib, r, name) {
        CalledIs(m, lib, sym, r, name);
      }
    } else {
      UnreadableStops(m, lib, i);
    }
  }
}
