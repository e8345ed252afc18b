/** Emulator and host: the same library, placed and relocated by both loaders,
    ends as the same image up to the distance between its two places. */
module Agreement {
  import opened Words
  import opened GuestMemory
  import opened VmState
  import opened Resolver
  import opened Relocation
  import opened Resolutions
  import opened Position
  import opened HostRelocation
  import opened HostRel

  /** One library as the two loaders describe it: address `a` here is address
      `a + d` there, of its tables and of the names it defines. */
  ghost predicate Twin(lib: Lib, ld: Loader, nsyms: nat, d: int) {
    && ld.exports.Keys == lib.symbols.Keys && (forall n | n in lib.symbols :: ld.exports[n] == Wrap(lib.symbols[n] + d))
    && ld.base == lib.base - lib.minVaddr + d
    && ld.base != 0 && lib.symtab != 0 && lib.strtab != 0
    && PointerMoved(lib.symtab, ld.symtab, d) && PointerMoved(lib.strtab, ld.strtab, d)
    && PointerMoved(lib.rela, ld.rela, d) && PointerMoved(lib.jmprel, ld.jmprel, d)
    && ld.relasz == lib.relasz && ld.pltrelsz == lib.pltrelsz && ld.symCount == nsyms
    && ld.rel == 0 && ld.pltrelKind != DT_REL
  }

  lemma PeekSame(m: Mem, mh: Mem, lo: int, span: nat, d: int, a: int, n: nat)
    requires SameImage(m, mh, lo, span, d) && lo <= a && a + n <= lo + span
    ensures Read(m, a, n) == Some(Peek(mh, a + d, n))
  {
    forall x | a <= x < a + n
      ensures x in m
    {
      assert SameByte(m, mh, x, d);
    }
    assert Mapped(m, a, n);
    forall i | 0 <= i < n
      ensures Slice(m, a, n)[i] == Peek(mh, a + d, n)[i]
    {
      var x := a + i;
      assert SameByte(m, mh, x, d) && x + d == a + d + i;
    }
    assert Slice(m, a, n) == Peek(mh, a + d, n);
  }

  function AsHost(e: Entry): HostEntry {
    HostEntry(e.offset, e.kind, e.sym, Some(e.addend))
  }

  function Hosted(es: seq<Entry>): (hs: seq<HostEntry>)
    ensures |hs| == |es| && forall i | 0 <= i < |es| :: hs[i] == AsHost(es[i])
  {
    seq(|es|, i requires 0 <= i < |es| => AsHost(es[i]))
  }

  lemma {:induction false} TableAgrees(m: Mem, mh: Mem, lo: int, span: nat, d: int, p: U64, q: U64, size: U64, i: nat)
    requires SameImage(m, mh, lo, span, d) && PointerMoved(p, q, d)
    requires p != 0 ==> lo <= p && p + size <= lo + span && size % RELA_SIZE == 0
    requires i <= size / RELA_SIZE
    ensures TableEntries(mh, Rela, q, size / RELA_SIZE, i) == Hosted(EntriesFrom(m, p, size, RELA_SIZE * i))
    decreases size / RELA_SIZE - i
  {
    hide DecodeEntry, SameImage, Peek, Hosted, Read, TableEntries, EntriesFrom;
    if p != 0 && i < size / RELA_SIZE {
      assert RELA_SIZE * i + RELA_SIZE <= size;
      TableAgrees(m, mh, lo, span, d, p, q, size, i + 1);
      FirstAgrees(m, mh, lo, span, d, p, q, size, size / RELA_SIZE, i);
    } else {
      assert p != 0 ==> RELA_SIZE * i >= size;
      TableEnds(m, mh, p, q, size, size / RELA_SIZE, i);
    }
  }

  /** Both loops read entry `i` as the same entry. */
  lemma FirstAgrees(m: Mem, mh: Mem, lo: int, span: nat, d: int, p: U64, q: U64, size: U64, count: nat, i: nat)
    requires SameImage(m, mh, lo, span, d) && PointerMoved(p, q, d) && p != 0 && i < count
    requires lo <= p && p + RELA_SIZE * i + RELA_SIZE <= lo + span && RELA_SIZE * i < size
    requires TableEntries(mh, Rela, q, count, i + 1) == Hosted(EntriesFrom(m, p, size, RELA_SIZE * (i + 1)))
    ensures TableEntries(mh, Rela, q, count, i) == Hosted(EntriesFrom(m, p, size, RELA_SIZE * i))
  {
    hide DecodeEntry, SameImage, Peek, Hosted, Read;
    var at := RELA_SIZE * i;
    PeekSame(m, mh, lo, span, d, p + at, RELA_SIZE);
    var bs := Peek(mh, q + at, RELA_SIZE);
    assert p + at + d == q + at && at + RELA_SIZE == RELA_SIZE * (i + 1);
    HostedCons(DecodeEntry(bs), EntriesFrom(m, p, size, at + RELA_SIZE));
  }

  lemma TableEnds(m: Mem, mh: Mem, p: U64, q: U64, size: U64, count: nat, i: nat)
    requires p == 0 || RELA_SIZE * i >= size
    requires q == 0 || i >= count
    ensures TableEntries(mh, Rela, q, count, i) == Hosted(EntriesFrom(m, p, size, RELA_SIZE * i))
  {
    HostedNone();
  }

  lemma HostedNone()
    ensures Hosted([]) == []
  {
  }

  lemma HostedCons(e: Entry, es: seq<Entry>)
    ensures Hosted([e] + es) == [AsHost(e)] + Hosted(es)
  {
  }

  lemma EntriesAgree(m: Mem, mh: Mem, lib: Lib, ld: Loader, nsyms: nat, span: nat, d: int)
    requires Twin(lib, ld, nsyms, d) && SameImage(m, mh, lib.base, span, d)
    requires TablesInside(lib, nsyms, span) && TablesWellFormed(m, lib, nsyms)
    ensures AllEntries(mh, ld) == Hosted(Entries(m, lib))
  {
    hide SameImage, TableEntries, EntriesFrom;
    TableSizes(m, lib, nsyms);
    TableAgrees(m, mh, lib.base, span, d, lib.rela, ld.rela, lib.relasz, 0);
    TableAgrees(m, mh, lib.base, span, d, lib.jmprel, ld.jmprel, lib.pltrelsz, 0);
    NoRelTable(mh, ld);
  }

  lemma NoRelTable(mh: Mem, ld: Loader)
    requires ld.rel == 0
    ensures TableEntries(mh, Rel, ld.rel, ld.relsz / REL_SIZE, 0) == []
  {
  }

  // Words ---------------------------------------------------------------------------------------

  /** A name that the library defines under some symbol, and that the emulator can read. */
  predicate NamedHere(m: Mem, lib: Lib, name: U32) {
    && name < lib.strsz && lib.strtab + name < TWO64
    && BufferReadable(m, lib, name) && |CStringAt(m, lib.strtab + name)| < NAME_BUFFER
    && var s := Chars(CStringAt(m, lib.strtab + name));
       s != "" && s in lib.symbols && lib.symbols[s] != 0
  }

  /** The symbol an entry names is defined in the library itself, under this index or another. */
  predicate OwnSymbol(m: Mem, lib: Lib, e: Entry) {
    match SymAt(m, lib, e.sym)
    case Some(sym) =>
      if sym.value != 0 then sym.shndx != 0 && VaddrIn(lib, sym.value) != 0 else NamedHere(m, lib, sym.name)
    case None => false
  }

  /** An entry whose word refers into the library. */
  predicate Internal(m: Mem, lib: Lib, e: Entry) {
    e.kind == R_RELATIVE || (Symbolic(e) && OwnSymbol(m, lib, e))
  }

  /** A string that ends inside the image reads the same in both. */
  lemma {:induction false} CStringAgrees(m: Mem, mh: Mem, lo: int, span: nat, d: int, a: int)
    requires SameImage(m, mh, lo, span, d) && lo <= a && a + |CStringAt(m, a)| < lo + span
    ensures CStringAt(mh, a + d) == CStringAt(m, a)
    decreases TWO64 - a
  {
    hide SameImage;
    CStringStep(m, a);
    CStringStep(mh, a + d);
    assert SameByte(m, mh, a, d) by { InImage(m, mh, lo, span, d, a); }
    if m[a] != 0 {
      CStringAgrees(m, mh, lo, span, d, a + 1);
      assert a + d + 1 == a + 1 + d;
    }
  }

  /** A zero byte bounds every string before it. */
  lemma {:induction false} StringBefore(m: Mem, a: int, end: int)
    requires a <= end && end in m && m[end] == 0
    ensures a + |CStringAt(m, a)| <= end
    decreases end - a
  {
    hide CStringAt;
    CStringStep(m, a);
    if a < end {
      StringBefore(m, a + 1, end);
    }
  }

  /** A name of a whole string table, as each loader reads it. */
  lemma NamesAgree(m: Mem, mh: Mem, lib: Lib, ld: Loader, nsyms: nat, span: nat, d: int, name: U32)
    requires Twin(lib, ld, nsyms, d) && SameImage(m, mh, lib.base, span, d) && TablesInside(lib, nsyms, span)
    requires TablesWellFormed(m, lib, nsyms) && name < lib.strsz
    ensures CStringAt(mh, ld.strtab + name) == CStringAt(m, lib.strtab + name)
    ensures |CStringAt(m, lib.strtab + name)| < lib.strsz - name
  {
    hide SameImage;
    StringBefore(m, lib.strtab + name, lib.strtab + lib.strsz - 1);
    CStringAgrees(m, mh, lib.base, span, d, lib.strtab + name);
    assert lib.strtab + name + d == ld.strtab + name;
  }

  lemma SymbolAgrees(m: Mem, mh: Mem, lib: Lib, ld: Loader, nsyms: nat, span: nat, d: int, idx: U32)
    requires Twin(lib, ld, nsyms, d) && SameImage(m, mh, lib.base, span, d) && TablesInside(lib, nsyms, span)
    requires idx < nsyms
    ensures SymAt(m, lib, idx) == Some(HostSym(mh, ld, idx))
  {
    hide DecodeSym, Peek;
    var a := lib.symtab + SYM_SIZE * idx;
    assert SYM_SIZE * idx + SYM_SIZE <= SYM_SIZE * nsyms;
    PeekSame(m, mh, lib.base, span, d, a, SYM_SIZE);
    assert a in m by {
      hide SameImage;
      assert Mapped(m, a, SYM_SIZE);
    }
    assert Wrap(a) == a;
  }

  /** Both loaders resolve such a symbol, each to its own copy. */
  lemma OwnAgrees(m: Mem, mh: Mem, libs: seq<Lib>, lib: Lib, ld: Loader, nsyms: nat, span: nat, d: int, e: Entry,
                  siblings: seq<map<string, U64>>, host: Host) returns (a: U64)
    requires Twin(lib, ld, nsyms, d) && SameImage(m, mh, lib.base, span, d) && TablesInside(lib, nsyms, span)
    requires TablesWellFormed(m, lib, nsyms) && OwnSymbol(m, lib, e) && e.sym < nsyms
    ensures a != 0 && Meaning(m, libs, lib, e) == Own(a)
    ensures SymbolOf(mh, ld, siblings, host, AsHost(e)) == Wrap(a + d)
  {
    hide SameImage, DecodeSym, Peek, NameAt, HostName, Lookup, TablesInside, PointerMoved, Wrap, NamedHere, SymAt,
      HostSym, TablesWellFormed;
    SymbolAgrees(m, mh, lib, ld, nsyms, span, d, e.sym);
    var sym := HostSym(mh, ld, e.sym);
    if sym.value != 0 {
      a := VaddrIn(lib, sym.value);
      WrapShift(lib.base + (sym.value - lib.minVaddr), d);
      assert ld.base + sym.value == lib.base + (sym.value - lib.minVaddr) + d;
    } else {
      a := NamedAgrees(m, mh, libs, lib, ld, nsyms, span, d, sym, siblings, host);
    }
  }

  lemma NamedAgrees(m: Mem, mh: Mem, libs: seq<Lib>, lib: Lib, ld: Loader, nsyms: nat, span: nat, d: int, sym: Sym,
                    siblings: seq<map<string, U64>>, host: Host) returns (a: U64)
    requires Twin(lib, ld, nsyms, d) && SameImage(m, mh, lib.base, span, d) && TablesInside(lib, nsyms, span)
    requires TablesWellFormed(m, lib, nsyms) && sym.value == 0 && NamedHere(m, lib, sym.name)
    ensures a != 0 && ClassifySym(libs, lib, sym, NameAt(m, lib, sym.name)) == Own(a)
    ensures ResolveHostName(ld, siblings, host, HostName(mh, ld, sym.name)) == Wrap(a + d)
  {
    hide SameImage, NameAt, HostName, TablesInside, Wrap, TablesWellFormed, CStringAt, Chars, ClassifySym,
      ResolveHostName, Twin, NamedHere;
    var s := NamedString(m, mh, lib, ld, nsyms, span, d, sym.name);
    a := lib.symbols[s];
    TwinExports(lib, ld, nsyms, d, s);
    OwnNameResolves(libs, lib, sym, ld, siblings, host, s);
  }

  /** The name as both loaders read it. */
  lemma NamedString(m: Mem, mh: Mem, lib: Lib, ld: Loader, nsyms: nat, span: nat, d: int, name: U32) returns (s: string)
    requires Twin(lib, ld, nsyms, d) && SameImage(m, mh, lib.base, span, d) && TablesInside(lib, nsyms, span)
    requires TablesWellFormed(m, lib, nsyms) && NamedHere(m, lib, name)
    ensures NameAt(m, lib, name) == s && HostName(mh, ld, name) == s
    ensures s != "" && s in lib.symbols && lib.symbols[s] != 0
  {
    hide SameImage, NameAt, TablesInside, TablesWellFormed, CStringAt, Chars, Twin, NamedHere;
    s := NamedHereIs(m, lib, name);
    NamesAgree(m, mh, lib, ld, nsyms, span, d, name);
  }

  lemma NamedHereIs(m: Mem, lib: Lib, name: U32) returns (s: string)
    requires NamedHere(m, lib, name)
    ensures s == Chars(CStringAt(m, lib.strtab + name)) && NameAt(m, lib, name) == s && name < lib.strsz
    ensures s != "" && s in lib.symbols && lib.symbols[s] != 0
  {
    hide NameAt, CStringAt, Chars, BufferReadable;
    s := Chars(CStringAt(m, lib.strtab + name));
    NameIsCStringIff(m, lib, name);
  }

  lemma TwinExports(lib: Lib, ld: Loader, nsyms: nat, d: int, s: string)
    requires Twin(lib, ld, nsyms, d) && s in lib.symbols
    ensures s in ld.exports && ld.exports[s] == Wrap(lib.symbols[s] + d)
  {
    hide PointerMoved, Wrap;
    assert s in ld.exports.Keys;
  }

  lemma OwnNameResolves(libs: seq<Lib>, lib: Lib, sym: Sym, ld: Loader, siblings: seq<map<string, U64>>, host: Host,
                        s: string)
    requires sym.value == 0 && s != "" && s in lib.symbols && s in ld.exports
    ensures ClassifySym(libs, lib, sym, s) == Own(lib.symbols[s])
    ensures ResolveHostName(ld, siblings, host, s) == ld.exports[s]
  {
    hide Lookup;
    assert ([ld.exports] + siblings)[0] == ld.exports;
  }

  /** What each loader writes for an entry that refers into the library, and
      when the two words are the same reference. */
  lemma WordsAgreeIff(m: Mem, mh: Mem, libs: seq<Lib>, lib: Lib, ld: Loader, nsyms: nat, span: nat, d: int, e: Entry,
                      imports: map<string, nat>, siblings: seq<map<string, U64>>, host: Host, w: U64)
    requires Twin(lib, ld, nsyms, d) && SameImage(m, mh, lib.base, span, d) && TablesInside(lib, nsyms, span)
    requires TablesWellFormed(m, lib, nsyms) && Internal(m, lib, e) && (Symbolic(e) ==> e.sym < nsyms)
    ensures Writes(m, libs, lib, e, imports)
    ensures Effect(ld, AsHost(e), SymbolOf(mh, ld, siblings, host, AsHost(e)), w) ==
              Wrap(Value(m, libs, lib, e, imports) + d) <==>
            e.kind == R_RELATIVE || e.kind == R_ABS64 || e.addend == 0
  {
    hide SameImage, TablesInside, Wrap, Meaning, SymbolOf, TablesWellFormed, OwnSymbol;
    if e.kind == R_RELATIVE {
      TwinBase(lib, ld, nsyms, d);
      WrapShift(lib.base + e.addend - lib.minVaddr, d);
    } else {
      var a := OwnAgrees(m, mh, libs, lib, ld, nsyms, span, d, e, siblings, host);
      hide Twin;
      WrapShift(a + e.addend, d);
      WrapShift(a + d, e.addend);
      assert a + d + e.addend == a + e.addend + d;
      SameWrap(a + d, e.addend);
    }
  }

  lemma TwinBase(lib: Lib, ld: Loader, nsyms: nat, d: int)
    requires Twin(lib, ld, nsyms, d)
    ensures ld.base == lib.base - lib.minVaddr + d
  {
  }

  lemma SameWrap(x: int, a: U64)
    ensures Wrap(x) == Wrap(x + a) <==> a == 0
  {
  }

  /** A target in the image is the same place in both. */
  lemma TargetAgrees(m: Mem, mh: Mem, lib: Lib, ld: Loader, nsyms: nat, span: nat, d: int, e: Entry)
    requires Twin(lib, ld, nsyms, d) && SameImage(m, mh, lib.base, span, d)
    requires lib.base <= Target(lib, e) && Target(lib, e) + 8 <= lib.base + span
    ensures HostTarget(ld, AsHost(e)) == Target(lib, e) + d
  {
    var t := Target(lib, e);
    assert SameByte(m, mh, t, d);
    hide SameImage, PointerMoved;
    WrapShift(lib.base + (e.offset - lib.minVaddr), d);
  }

  lemma StoredWord(m: Mem, t: int, v: U64)
    requires Read(m, t, 8) == Some(ToLE(v, 8))
    ensures PeekWord(m, t) == v
  {
    WordRoundTrip(v);
    hide ToLE, Word;
    assert Peek(m, t, 8) == Slice(m, t, 8);
  }

  ghost predicate TargetsInside(m: Mem, lib: Lib, span: nat) {
    forall e | e in Entries(m, lib) && Active(e) ::
      lib.base <= Target(lib, e) && Target(lib, e) + 8 <= lib.base + span
  }

  predicate Aimed(lib: Lib, es: seq<Entry>, a: int) {
    exists e | e in es :: Active(e) && Target(lib, e) <= a < Target(lib, e) + 8
  }

  /** Every symbol's name starts in the string table. */
  ghost predicate NamesInside(m: Mem, lib: Lib, nsyms: nat) {
    forall idx: U32 | idx < nsyms && SymAt(m, lib, idx).Some? :: SymAt(m, lib, idx).value.name < lib.strsz
  }

  lemma TablesAgree(lib: Lib, ld: Loader, nsyms: nat, d: int, a: int)
    requires Twin(lib, ld, nsyms, d) && InHostTables(ld, lib.strsz, a + d)
    ensures InTables(lib, nsyms, a)
  {
  }

  /** What the host's pass needs of its tables follows from what the emulator's needs. */
  lemma HostSafe(m: Mem, mh: Mem, lib: Lib, ld: Loader, nsyms: nat, span: nat, d: int)
    requires Twin(lib, ld, nsyms, d) && SameImage(m, mh, lib.base, span, d) && TablesInside(lib, nsyms, span)
    requires Relocatable(m, lib, nsyms) && TargetsInside(m, lib, span) && NamesInside(m, lib, nsyms)
    ensures Safe(mh, ld, lib.strsz) && Distinct(mh, ld, AllEntries(mh, ld))
    ensures AllEntries(mh, ld) == Hosted(Entries(m, lib))
  {
    hide TablesInside, TablesWellFormed, SameImage, Entries, AllEntries, Clear, PairwiseApart, TargetsInside,
      HostTablesOk, TargetsClear, Distinct, Twin;
    EntriesAgree(m, mh, lib, ld, nsyms, span, d);
    HostTablesSafe(m, mh, lib, ld, nsyms, span, d);
    HostTargetsSafe(m, mh, lib, ld, nsyms, span, d, Entries(m, lib));
  }

  lemma HostTablesSafe(m: Mem, mh: Mem, lib: Lib, ld: Loader, nsyms: nat, span: nat, d: int)
    requires Twin(lib, ld, nsyms, d) && SameImage(m, mh, lib.base, span, d) && TablesInside(lib, nsyms, span)
    requires TablesWellFormed(m, lib, nsyms) && NamesInside(m, lib, nsyms)
    ensures HostTablesOk(mh, ld, lib.strsz)
  {
    hide TablesInside, TablesWellFormed, SameImage, CStringAt, SymAt, HostSym, PointerMoved;
    forall idx: U32 | idx < ld.symCount
      ensures var sym := HostSym(mh, ld, idx);
              sym.name < lib.strsz && |CStringAt(mh, ld.strtab + sym.name)| < lib.strsz - sym.name
    {
      SymbolAgrees(m, mh, lib, ld, nsyms, span, d, idx);
      NamesAgree(m, mh, lib, ld, nsyms, span, d, HostSym(mh, ld, idx).name);
    }
  }

  lemma HostTargetsSafe(m: Mem, mh: Mem, lib: Lib, ld: Loader, nsyms: nat, span: nat, d: int, es: seq<Entry>)
    requires Twin(lib, ld, nsyms, d) && SameImage(m, mh, lib.base, span, d) && TargetsInside(m, lib, span)
    requires es == Entries(m, lib) && PairwiseApart(lib, es) && forall e | e in es :: Clear(m, lib, nsyms, e)
    ensures TargetsClear(ld, lib.strsz, Hosted(es)) && Distinct(mh, ld, Hosted(es))
  {
    hide Entries, Twin, SameImage, InTables, InHostTables, Target, HostTarget;
    forall e | e in es && Active(e)
      ensures HostTarget(ld, AsHost(e)) == Target(lib, e) + d && Mapped(mh, Target(lib, e) + d, 8)
      ensures forall a | HostTarget(ld, AsHost(e)) <= a < HostTarget(ld, AsHost(e)) + 8 ::
                !InHostTables(ld, lib.strsz, a)
    {
      OneTargetSafe(m, mh, lib, ld, nsyms, span, d, e);
    }
    forall i, j | 0 <= i < j < |es|
      ensures TargetsApart(ld, Hosted(es)[i], Hosted(es)[j])
    {
      assert Apart(lib, es[i], es[j]) && es[i] in es && es[j] in es;
    }
  }

  lemma OneTargetSafe(m: Mem, mh: Mem, lib: Lib, ld: Loader, nsyms: nat, span: nat, d: int, e: Entry)
    requires Twin(lib, ld, nsyms, d) && SameImage(m, mh, lib.base, span, d) && Active(e) && Clear(m, lib, nsyms, e)
    requires lib.base <= Target(lib, e) && Target(lib, e) + 8 <= lib.base + span
    ensures HostTarget(ld, AsHost(e)) == Target(lib, e) + d && Mapped(mh, Target(lib, e) + d, 8)
    ensures forall a | HostTarget(ld, AsHost(e)) <= a < HostTarget(ld, AsHost(e)) + 8 :: !InHostTables(ld, lib.strsz, a)
  {
    TargetAgrees(m, mh, lib, ld, nsyms, span, d, e);
    hide Twin, SameImage, InTables, InHostTables, Target, HostTarget;
    var t := Target(lib, e);
    forall a | t + d <= a < t + d + 8
      ensures a in mh && !InHostTables(ld, lib.strsz, a)
    {
      InImage(m, mh, lib.base, span, d, a - d);
      if InHostTables(ld, lib.strsz, a - d + d) {
        TablesAgree(lib, ld, nsyms, d, a - d);
      }
    }
  }

  /** Main result: after each loader has relocated its copy, every word that
      refers into the library is the same reference in both, save a GLOB_DAT or
      JUMP_SLOT word with a non-zero addend, which the host drops; and every
      byte no entry aims at is the same. */
  lemma RelocatedImagesAgree(st: State, lib: Lib, nsyms: nat, span: nat, mh: Mem, ld: Loader,
                             siblings: seq<map<string, U64>>, host: Host, d: int)
    requires LinkReady(st) && Relocatable(st.mem, lib, nsyms) && ApplyRelocations(st, lib).Continue?
    requires TablesInside(lib, nsyms, span) && TargetsInside(st.mem, lib, span) && lib.base + span <= HEAP_ADDRESS
    requires Twin(lib, ld, nsyms, d) && SameImage(st.mem, mh, lib.base, span, d) && NamesInside(st.mem, lib, nsyms)
    ensures var m1 := ApplyRelocations(st, lib).value.mem;
            var h1 := Pass(mh, ld, siblings, host);
            && (forall e | e in Entries(st.mem, lib) && Internal(st.mem, lib, e) ::
                  (PeekWord(h1, Target(lib, e) + d) == Wrap(PeekWord(m1, Target(lib, e)) + d) <==>
                   e.kind == R_RELATIVE || e.kind == R_ABS64 || e.addend == 0))
            && (forall a | lib.base <= a < lib.base + span && !Aimed(lib, Entries(st.mem, lib), a) ::
                 SameByte(m1, h1, a, d))
  {
    hide ApplyRelocations, Entries, Clear, TablesWellFormed, Safe, Distinct, AllEntries, Pass, WordsAfter, Relocated,
      Internal, TablesInside, Twin, SameImage, TargetsInside, PeekWord, HostKept, Extends, HeapOk, Target, Aimed,
      Value, NamesInside, SameByte;
    RelocationMeetsSpec(st, lib, nsyms);
    HostSafe(st.mem, mh, lib, ld, nsyms, span, d);
    KeptRefl(mh, ld, lib.strsz);
    PassWords(mh, mh, ld, lib.strsz, siblings, host);
    var after := ApplyRelocations(st, lib).value;
    var h1 := Pass(mh, ld, siblings, host);
    forall e | e in Entries(st.mem, lib) && Internal(st.mem, lib, e)
      ensures PeekWord(h1, Target(lib, e) + d) == Wrap(PeekWord(after.mem, Target(lib, e)) + d) <==>
              e.kind == R_RELATIVE || e.kind == R_ABS64 || e.addend == 0
    {
      OneWord(st.mem, after.mem, mh, h1, st.libs, lib, ld, nsyms, span, d, e, after.imports, siblings, host);
    }
    forall a | lib.base <= a < lib.base + span && !Aimed(lib, Entries(st.mem, lib), a)
      ensures SameByte(after.mem, h1, a, d)
    {
      OneByteKept(st.mem, after.mem, mh, h1, st.libs, lib, ld, nsyms, span, d, after.imports, siblings, host, a);
    }
  }

  lemma OneWord(m: Mem, m1: Mem, mh: Mem, h1: Mem, libs: seq<Lib>, lib: Lib, ld: Loader, nsyms: nat, span: nat,
                d: int, e: Entry, imports: map<string, nat>, siblings: seq<map<string, U64>>, host: Host)
    requires Twin(lib, ld, nsyms, d) && SameImage(m, mh, lib.base, span, d) && TablesInside(lib, nsyms, span)
    requires TargetsInside(m, lib, span) && e in Entries(m, lib) && Internal(m, lib, e) && Clear(m, lib, nsyms, e)
    requires TablesWellFormed(m, lib, nsyms)
    requires AllEntries(mh, ld) == Hosted(Entries(m, lib))
    requires Relocated(m, m, m1, libs, lib, Entries(m, lib), imports)
    requires WordsAfter(mh, mh, h1, ld, siblings, host, AllEntries(mh, ld))
    ensures PeekWord(h1, Target(lib, e) + d) == Wrap(PeekWord(m1, Target(lib, e)) + d) <==>
            e.kind == R_RELATIVE || e.kind == R_ABS64 || e.addend == 0
  {
    hide Twin, SameImage, TablesInside, Entries, AllEntries, PeekWord, Target, Value, HostTarget, OwnSymbol, Effect,
      SymbolOf, Relocated, WordsAfter, Writes, Hosted, TablesWellFormed;
    assert Active(e);
    TargetAgrees(m, mh, lib, ld, nsyms, span, d, e);
    var w := PeekWord(mh, HostTarget(ld, AsHost(e)));
    WordsAgreeIff(m, mh, libs, lib, ld, nsyms, span, d, e, imports, siblings, host, w);
    EmulatorWord(m, m1, libs, lib, e, imports);
    HostWord(mh, h1, ld, siblings, host, Entries(m, lib), e);
  }

  lemma EmulatorWord(m: Mem, m1: Mem, libs: seq<Lib>, lib: Lib, e: Entry, imports: map<string, nat>)
    requires Relocated(m, m, m1, libs, lib, Entries(m, lib), imports)
    requires e in Entries(m, lib) && Writes(m, libs, lib, e, imports)
    ensures PeekWord(m1, Target(lib, e)) == Value(m, libs, lib, e, imports)
  {
    hide Entries, PeekWord, Target, Value, ToLE, Read, Bound, Writes, Meaning;
    var i :| 0 <= i < |Entries(m, lib)| && Entries(m, lib)[i] == e;
    StoredWord(m1, Target(lib, e), Value(m, libs, lib, e, imports));
  }

  lemma HostWord(mh: Mem, h1: Mem, ld: Loader, siblings: seq<map<string, U64>>, host: Host, es: seq<Entry>, e: Entry)
    requires WordsAfter(mh, mh, h1, ld, siblings, host, Hosted(es)) && e in es && Active(e)
    ensures PeekWord(h1, HostTarget(ld, AsHost(e)))
         == Effect(ld, AsHost(e), SymbolOf(mh, ld, siblings, host, AsHost(e)), PeekWord(mh, HostTarget(ld, AsHost(e))))
  {
    hide PeekWord, HostTarget, Effect, SymbolOf, Covered;
    var i :| 0 <= i < |es| && es[i] == e;
    assert Hosted(es)[i] == AsHost(e);
  }

  lemma OneByteKept(m: Mem, m1: Mem, mh: Mem, h1: Mem, libs: seq<Lib>, lib: Lib, ld: Loader, nsyms: nat, span: nat,
                    d: int, imports: map<string, nat>, siblings: seq<map<string, U64>>, host: Host, a: int)
    requires Twin(lib, ld, nsyms, d) && SameImage(m, mh, lib.base, span, d) && TargetsInside(m, lib, span)
    requires lib.base + span <= HEAP_ADDRESS
    requires AllEntries(mh, ld) == Hosted(Entries(m, lib))
    requires Relocated(m, m, m1, libs, lib, Entries(m, lib), imports)
    requires WordsAfter(mh, mh, h1, ld, siblings, host, AllEntries(mh, ld))
    requires lib.base <= a < lib.base + span && !Aimed(lib, Entries(m, lib), a)
    ensures SameByte(m1, h1, a, d)
  {
    var es := Entries(m, lib);
    assert SameByte(m, mh, a, d);
    hide SameImage, Twin, Entries, AllEntries, PeekWord, Target, Value, HostTarget, Effect, SymbolOf, ToLE, Read,
      Bound, Meaning;
    forall i | 0 <= i < |es| && Writes(m, libs, lib, es[i], imports)
      ensures !(Target(lib, es[i]) <= a < Target(lib, es[i]) + 8)
    {
      assert es[i] in es && Active(es[i]);
    }
    forall h | h in AllEntries(mh, ld) && Relocates(h)
      ensures !(HostTarget(ld, h) <= a + d < HostTarget(ld, h) + 8)
    {
      var i :| 0 <= i < |es| && h == AsHost(es[i]);
      assert es[i] in es && Active(es[i]);
      TargetAgrees(m, mh, lib, ld, nsyms, span, d, es[i]);
    }
  }
}
