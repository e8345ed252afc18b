/** Position independence of relocation: libraries at bases B + d end as the
    libraries at bases B, each word moved by the distance of the library it
    refers into. */
module Position {
  import opened Words
  import opened GuestMemory
  import opened PageAlloc
  import opened VmState
  import opened SymbolNames
  import opened Resolver
  import opened Relocation

  // Two copies of a library ------------------------------------------------------------

  ghost predicate PointerMoved(p: U64, q: U64, d: int) {
    if p == 0 then q == 0 else q != 0 && q == p + d
  }

  /** The same library described at base + d. */
  ghost predicate Moved(lib: Lib, lib2: Lib, d: int) {
    && lib2.base == lib.base + d && lib2.minVaddr == lib.minVaddr && lib2.maxVaddr == lib.maxVaddr
    && PointerMoved(lib.symtab, lib2.symtab, d) && PointerMoved(lib.strtab, lib2.strtab, d)
    && PointerMoved(lib.rela, lib2.rela, d) && PointerMoved(lib.jmprel, lib2.jmprel, d)
    && lib2.strsz == lib.strsz && lib2.relasz == lib.relasz && lib2.pltrelsz == lib.pltrelsz
    && lib2.symbols.Keys == lib.symbols.Keys
    && forall n | n in lib.symbols :: lib2.symbols[n] == Wrap(lib.symbols[n] + d)
  }

  predicate SameByte(m: Mem, m2: Mem, a: int, d: int) {
    a in m && a + d in m2 && m2[a + d] == m[a]
  }

  /** [lo, lo + span) holds the same bytes at distance d. */
  ghost predicate SameImage(m: Mem, m2: Mem, lo: int, span: nat, d: int) {
    forall a | lo <= a < lo + span :: SameByte(m, m2, a, d)
  }

  predicate MappedAlike(m: Mem, m2: Mem, a: int, d: int) {
    a in m <==> a + d in m2
  }

  /** The same bytes, and the same addresses mapped behind them as far as the
      buffer for a name reaches: another library, or nothing, in both. */
  ghost predicate ImageMoved(m: Mem, m2: Mem, lo: int, span: nat, d: int) {
    && SameImage(m, m2, lo, span, d)
    && forall a | lo + span <= a < lo + span + NAME_BUFFER :: MappedAlike(m, m2, a, d)
  }

  lemma ReadMoved(m: Mem, m2: Mem, lo: int, span: nat, d: int, a: int, b: int, n: nat)
    requires SameImage(m, m2, lo, span, d) && lo <= a && a + n <= lo + span && b == a + d
    ensures Mapped(m, a, n) && Mapped(m2, b, n)
    ensures Read(m2, b, n) == Read(m, a, n)
  {
    forall x | b <= x < b + n
      ensures x in m2
    {
      assert SameByte(m, m2, x - d, d);
    }
    forall x | a <= x < a + n
      ensures x in m
    {
      assert SameByte(m, m2, x, d);
    }
    forall i | 0 <= i < n
      ensures Slice(m2, b, n)[i] == Slice(m, a, n)[i]
    {
      var x := a + i;
      assert SameByte(m, m2, x, d) && x + d == b + i;
    }
    assert Slice(m2, b, n) == Slice(m, a, n);
  }

  /** A read that starts inside and is no longer than a name finds the same addresses mapped. */
  lemma MappedMoved(m: Mem, m2: Mem, lo: int, span: nat, d: int, a: int, b: int, n: nat)
    requires ImageMoved(m, m2, lo, span, d) && lo <= a <= lo + span && b == a + d && n <= NAME_BUFFER
    ensures Mapped(m, a, n) <==> Mapped(m2, b, n)
  {
    forall x | a <= x < a + n
      ensures MappedAlike(m, m2, x, d)
    {
      assert x < lo + span ==> SameByte(m, m2, x, d);
    }
    if Mapped(m, a, n) {
      forall y | b <= y < b + n
        ensures y in m2
      {
        assert MappedAlike(m, m2, y - d, d);
      }
    }
    if Mapped(m2, b, n) {
      forall x | a <= x < a + n
        ensures x in m
      {
        assert MappedAlike(m, m2, x, d);
      }
    }
  }

  /** Everything relocation reads or writes of a library lies in its span. */
  ghost predicate TablesInside(lib: Lib, nsyms: nat, span: nat) {
    && (lib.rela != 0 ==> lib.base <= lib.rela && lib.rela + lib.relasz <= lib.base + span)
    && (lib.jmprel != 0 ==> lib.base <= lib.jmprel && lib.jmprel + lib.pltrelsz <= lib.base + span)
    && (lib.symtab != 0 ==> lib.base <= lib.symtab && lib.symtab + SYM_SIZE * nsyms <= lib.base + span)
    && (lib.strtab != 0 ==> lib.base <= lib.strtab && lib.strtab + lib.strsz <= lib.base + span)
  }

  lemma {:induction false} EntriesFromMoved(m: Mem, m2: Mem, lo: int, span: nat, d: int, p: U64, q: U64, size: U64,
                                            offset: nat)
    requires SameImage(m, m2, lo, span, d) && PointerMoved(p, q, d)
    requires p != 0 ==> lo <= p && p + size <= lo + span && size % RELA_SIZE == 0 && offset % RELA_SIZE == 0
    ensures EntriesFrom(m2, q, size, offset) == EntriesFrom(m, p, size, offset)
    decreases size - offset
  {
    hide DecodeEntry, SameImage;
    if p != 0 && offset < size {
      assert offset + RELA_SIZE <= size;
      ReadMoved(m, m2, lo, span, d, p + offset, q + offset, RELA_SIZE);
      EntriesFromMoved(m, m2, lo, span, d, p, q, size, offset + RELA_SIZE);
    }
  }

  lemma EntriesMoved(m: Mem, m2: Mem, lib: Lib, lib2: Lib, nsyms: nat, span: nat, d: int)
    requires SameImage(m, m2, lib.base, span, d) && Moved(lib, lib2, d) && TablesInside(lib, nsyms, span)
    requires TablesWellFormed(m, lib, nsyms)
    ensures Entries(m2, lib2) == Entries(m, lib)
  {
    hide SameImage, EntriesFrom;
    TableSizes(m, lib, nsyms);
    EntriesFromMoved(m, m2, lib.base, span, d, lib.rela, lib2.rela, lib.relasz, 0);
    EntriesFromMoved(m, m2, lib.base, span, d, lib.jmprel, lib2.jmprel, lib.pltrelsz, 0);
  }

  // Resolution ---------------------------------------------------------------------------

  /** How far each library is moved, and how long its image is. */
  datatype Move = Move(spans: seq<nat>, ds: seq<int>)

  /** Two library lists of which each one is moved by its own distance. */
  ghost predicate LibsMoved(libs: seq<Lib>, libs2: seq<Lib>, ds: seq<int>) {
    && |libs2| == |libs| == |ds|
    && forall i | 0 <= i < |libs| :: Moved(libs[i], libs2[i], ds[i])
  }

  /** The distance of the library an address belongs to; bindings do not move. */
  function Distance(r: Resolution, k: nat, ds: seq<int>): int {
    match r
    case Own(_) => if k < |ds| then ds[k] else 0
    case Library(i, _) => if i < |ds| then ds[i] else 0
    case _ => 0
  }

  /** The same resolution, its address moved with the library it lies in. */
  ghost predicate ResolutionMoved(r: Resolution, r2: Resolution, k: nat, ds: seq<int>) {
    match (r, r2)
    case (Nowhere, Nowhere) => true
    case (Own(a), Own(b)) => b == Wrap(a + Distance(r, k, ds))
    case (Library(i, a), Library(j, b)) => i == j && b == Wrap(a + Distance(r, k, ds))
    case (Unbound(n, isData), Unbound(n2, isData2)) => n == n2 && isData == isData2
    case _ => false
  }

  lemma {:induction false} LookupMoved(libs: seq<Lib>, libs2: seq<Lib>, ds: seq<int>, name: string, from: nat)
    requires LibsMoved(libs, libs2, ds) && from <= |libs|
    ensures match (LookupFrom(libs, name, from), LookupFrom(libs2, name, from))
            case (None, None) => true
            case (Some((i, a)), Some((j, b))) => i == j && i < |ds| && b == Wrap(a + ds[i])
            case _ => false
    decreases |libs| - from
  {
    hide PointerMoved, Wrap;
    if from < |libs| {
      assert Moved(libs[from], libs2[from], ds[from]);
      LookupMoved(libs, libs2, ds, name, from + 1);
    }
  }

  lemma VaddrMoved(lib: Lib, lib2: Lib, d: int, v: U64)
    requires lib2.base == lib.base + d && lib2.minVaddr == lib.minVaddr
    ensures VaddrIn(lib2, v) == Wrap(VaddrIn(lib, v) + d)
  {
    WrapShift(lib.base + (v - lib.minVaddr), d);
  }

  lemma ClassifySymMoved(libs: seq<Lib>, libs2: seq<Lib>, k: nat, ds: seq<int>, lib: Lib, lib2: Lib, sym: Sym,
                         name: string)
    requires LibsMoved(libs, libs2, ds) && k < |ds| && Moved(lib, lib2, ds[k])
    ensures ResolutionMoved(ClassifySym(libs, lib, sym, name), ClassifySym(libs2, lib2, sym, name), k, ds)
  {
    hide NdkName, IsData, PointerMoved, LookupFrom, VaddrIn, LibsMoved;
    VaddrMoved(lib, lib2, ds[k], sym.value);
    BaseMoved(lib, lib2, ds[k]);
    LookupMoved(libs, libs2, ds, name, 0);
    LookupMoved(libs, libs2, ds, NdkName(name), 0);
    hide Wrap;
  }

  lemma BaseMoved(lib: Lib, lib2: Lib, d: int)
    requires lib2.base == lib.base + d
    ensures lib2.base == Wrap(lib.base + d)
  {
  }

  lemma StrtabMoved(lib: Lib, lib2: Lib, nsyms: nat, span: nat, d: int)
    requires Moved(lib, lib2, d) && TablesInside(lib, nsyms, span)
    ensures lib2.base == lib.base + d && lib2.strsz == lib.strsz && (lib.strtab == 0 <==> lib2.strtab == 0)
    ensures lib.strtab != 0 ==>
              lib2.strtab == lib.strtab + d && lib.base <= lib.strtab && lib.strtab + lib.strsz <= lib.base + span
  {
  }

  lemma SymtabMoved(lib: Lib, lib2: Lib, nsyms: nat, span: nat, d: int)
    requires Moved(lib, lib2, d) && TablesInside(lib, nsyms, span)
    ensures lib.symtab == 0 <==> lib2.symtab == 0
    ensures lib.symtab != 0 ==>
              lib2.symtab == lib.symtab + d && lib.base <= lib.symtab &&
                lib.symtab + SYM_SIZE * nsyms <= lib.base + span
  {
  }

  lemma SymMoved(m: Mem, m2: Mem, lib: Lib, lib2: Lib, nsyms: nat, span: nat, d: int, idx: U32)
    requires SameImage(m, m2, lib.base, span, d) && idx < nsyms && lib.symtab != 0
    requires lib2.symtab == lib.symtab + d && lib.base <= lib.symtab && lib.symtab + SYM_SIZE * nsyms <= lib.base + span
    requires lib.base + span <= HEAP_ADDRESS && lib2.symtab + SYM_SIZE * nsyms <= HEAP_ADDRESS
    ensures SymAt(m2, lib2, idx) == SymAt(m, lib, idx)
  {
    hide SameImage, DecodeSym, Read;
    assert idx * SYM_SIZE + SYM_SIZE <= SYM_SIZE * nsyms;
    var a, b := lib.symtab + idx * SYM_SIZE, lib2.symtab + idx * SYM_SIZE;
    assert Wrap(a) == a && Wrap(b) == b;
    hide Wrap;
    ReadMoved(m, m2, lib.base, span, d, a, b, SYM_SIZE);
  }

  /** The strings end with a zero byte, unless nothing is mapped behind the library. */
  ghost predicate StringsEnd(m: Mem, lib: Lib, span: nat) {
    lib.strsz > 0 && lib.base + span in m ==>
      lib.strtab + lib.strsz - 1 in m && m[lib.strtab + lib.strsz - 1] == 0
  }

  lemma NameMoved(m: Mem, m2: Mem, lib: Lib, lib2: Lib, span: nat, d: int, name: U32)
    requires ImageMoved(m, m2, lib.base, span, d) && StringsEnd(m, lib, span) && lib2.strsz == lib.strsz
    requires lib2.strtab == lib.strtab + d && lib.base <= lib.strtab && lib.strtab + lib.strsz <= lib.base + span
    requires lib.base + span <= HEAP_ADDRESS && lib2.strtab + lib2.strsz <= HEAP_ADDRESS
    ensures NameAt(m2, lib2, name) == NameAt(m, lib, name)
  {
    hide ImageMoved, Chars, CString, Slice, Mapped;
    if name < lib.strsz {
      var a, b := lib.strtab + name, lib2.strtab + name;
      assert Wrap(a) == a && Wrap(b) == b;
      hide Wrap;
      MappedMoved(m, m2, lib.base, span, d, a, b, NAME_BUFFER);
      if Mapped(m, a, NAME_BUFFER) {
        BufferMoved(m, m2, lib, lib2, span, d, name);
      }
    }
  }

  lemma BufferMoved(m: Mem, m2: Mem, lib: Lib, lib2: Lib, span: nat, d: int, name: U32)
    requires ImageMoved(m, m2, lib.base, span, d) && StringsEnd(m, lib, span) && name < lib.strsz
    requires lib2.strtab == lib.strtab + d && lib.base <= lib.strtab && lib.strtab + lib.strsz <= lib.base + span
    requires Mapped(m, lib.strtab + name, NAME_BUFFER) && Mapped(m2, lib2.strtab + name, NAME_BUFFER)
    ensures CString(Slice(m2, lib2.strtab + name, NAME_BUFFER)) == CString(Slice(m, lib.strtab + name, NAME_BUFFER))
  {
    hide CString, ImageMoved, SameImage;
    var a, b := lib.strtab + name, lib2.strtab + name;
    var s, t := Slice(m, a, NAME_BUFFER), Slice(m2, b, NAME_BUFFER);
    MovedBytes(m, m2, lib.base, span, d);
    forall i | 0 <= i < NAME_BUFFER && a + i < lib.base + span
      ensures t[i] == s[i]
    {
      InImage(m, m2, lib.base, span, d, a + i);
      assert a + i + d == b + i;
    }
    if a + NAME_BUFFER <= lib.base + span {
      assert s == t;
    } else {
      assert lib.base + span in m;
      var n := lib.strsz - 1 - name;
      assert s[n] == m[lib.strtab + lib.strsz - 1];
      CStringAgree(s, t, n);
    }
  }

  lemma InImage(m: Mem, m2: Mem, lo: int, span: nat, d: int, a: int)
    requires SameImage(m, m2, lo, span, d) && lo <= a < lo + span
    ensures SameByte(m, m2, a, d)
  {
  }

  lemma ClassifyMoved(m: Mem, m2: Mem, libs: seq<Lib>, libs2: seq<Lib>, k: nat, lib: Lib, lib2: Lib, nsyms: nat,
                      span: nat, ds: seq<int>, idx: U32)
    requires LibsMoved(libs, libs2, ds) && k < |ds| && Moved(lib, lib2, ds[k]) &&
               ImageMoved(m, m2, lib.base, span, ds[k])
    requires TablesInside(lib, nsyms, span) && TablesWellFormed(m, lib, nsyms) && idx < nsyms
    requires lib.base + span <= HEAP_ADDRESS && lib2.base + span <= HEAP_ADDRESS
    ensures ResolutionMoved(Classify(m, libs, lib, idx), Classify(m2, libs2, lib2, idx), k, ds)
  {
    hide ImageMoved, ClassifySym, NameAt, SymAt, Moved, TablesInside, ResolutionMoved, TablesWellFormed, LibsMoved,
      SameImage;
    StrtabMoved(lib, lib2, nsyms, span, ds[k]);
    SymtabMoved(lib, lib2, nsyms, span, ds[k]);
    NowhereMoved(k, ds);
    MovedBytes(m, m2, lib.base, span, ds[k]);
    if lib.symtab != 0 && lib.strtab != 0 {
      StringsEndIn(m, lib, nsyms, span);
      SymMoved(m, m2, lib, lib2, nsyms, span, ds[k], idx);
      match SymAt(m, lib, idx)
      case None =>
      case Some(sym) =>
        NameMoved(m, m2, lib, lib2, span, ds[k], sym.name);
        ClassifySymMoved(libs, libs2, k, ds, lib, lib2, sym, NameAt(m, lib, sym.name));
    }
  }

  lemma NowhereMoved(k: nat, ds: seq<int>)
    ensures ResolutionMoved(Nowhere, Nowhere, k, ds)
  {
  }

  lemma StringsEndIn(m: Mem, lib: Lib, nsyms: nat, span: nat)
    requires TablesWellFormed(m, lib, nsyms) && lib.strtab != 0
    ensures StringsEnd(m, lib, span)
  {
  }

  lemma MovedBytes(m: Mem, m2: Mem, lo: int, span: nat, d: int)
    requires ImageMoved(m, m2, lo, span, d)
    ensures SameImage(m, m2, lo, span, d)
  {
  }

  // Well-formedness at both places ----------------------------------------------------------

  /** Every target word lies in the span, and every address that moves lies in
      the image of the library it belongs to. */
  ghost predicate SelfContained(m: Mem, libs: seq<Lib>, lib: Lib, k: nat, nsyms: nat, mv: Move) {
    && k < |mv.spans| && TablesInside(lib, nsyms, mv.spans[k])
    && (forall e | e in Entries(m, lib) && Active(e) ::
          lib.base <= Target(lib, e) && Target(lib, e) + 8 <= lib.base + mv.spans[k])
    && (forall e | e in Entries(m, lib) && Symbolic(e) :: InsideAddress(Meaning(m, libs, lib, e), libs, lib, k, mv))
  }

  ghost predicate InsideAddress(r: Resolution, libs: seq<Lib>, lib: Lib, k: nat, mv: Move) {
    match r
    case Own(a) => k < |mv.spans| && lib.base <= a <= lib.base + mv.spans[k]
    case Library(i, a) =>
      i < |libs| && i < |mv.spans| && i < |mv.ds|
      && (mv.ds[i] != 0 ==> libs[i].base <= a <= libs[i].base + mv.spans[i])
    case _ => true
  }

  lemma TablesMoved(m: Mem, m2: Mem, lib: Lib, lib2: Lib, nsyms: nat, span: nat, d: int)
    requires SameImage(m, m2, lib.base, span, d) && Moved(lib, lib2, d) && TablesInside(lib, nsyms, span)
    requires lib2.base + span <= HEAP_ADDRESS && TablesWellFormed(m, lib, nsyms)
    ensures TablesWellFormed(m2, lib2, nsyms)
  {
    if lib.strtab != 0 && lib.strsz > 0 {
      var last := lib.strtab + lib.strsz - 1;
      assert SameByte(m, m2, last, d);
    }
  }

  lemma InTablesMoved(lib: Lib, lib2: Lib, nsyms: nat, d: int, a: int)
    requires Moved(lib, lib2, d)
    ensures InTables(lib2, nsyms, a + d) <==> InTables(lib, nsyms, a)
  {
  }

  lemma TargetMoved(lib: Lib, lib2: Lib, d: int, span: nat, e: Entry)
    requires lib2.base == lib.base + d && lib2.minVaddr == lib.minVaddr
    requires lib.base <= Target(lib, e) && Target(lib, e) + 8 <= lib.base + span && lib2.base + span <= HEAP_ADDRESS
    ensures Target(lib2, e) == Target(lib, e) + d
  {
    VaddrMoved(lib, lib2, d, e.offset);
  }

  lemma ClearMoved(m: Mem, m2: Mem, lib: Lib, lib2: Lib, nsyms: nat, span: nat, d: int, e: Entry)
    requires SameImage(m, m2, lib.base, span, d) && Moved(lib, lib2, d) && lib2.base + span <= HEAP_ADDRESS
    requires Active(e) ==> lib.base <= Target(lib, e) && Target(lib, e) + 8 <= lib.base + span
    requires Clear(m, lib, nsyms, e)
    ensures Clear(m2, lib2, nsyms, e)
  {
    hide PointerMoved;
    if Active(e) {
      TargetMoved(lib, lib2, d, span, e);
      hide Target;
      var t := Target(lib2, e);
      forall a | t <= a < t + 8
        ensures a in m2 && !InTables(lib2, nsyms, a)
      {
        InTablesMoved(lib, lib2, nsyms, d, a - d);
        assert SameByte(m, m2, a - d, d);
      }
    }
  }

  lemma RelocatableMoved(m: Mem, m2: Mem, libs: seq<Lib>, lib: Lib, lib2: Lib, k: nat, nsyms: nat, mv: Move, d: int)
    requires Moved(lib, lib2, d) && SelfContained(m, libs, lib, k, nsyms, mv) &&
               SameImage(m, m2, lib.base, mv.spans[k], d)
    requires Relocatable(m, lib, nsyms) && lib2.base + mv.spans[k] <= HEAP_ADDRESS
    ensures Entries(m2, lib2) == Entries(m, lib)
    ensures Relocatable(m2, lib2, nsyms)
  {
    hide SameImage, Moved, TablesInside, TablesWellFormed, Clear, Target, Entries, Meaning, InsideAddress;
    var span := mv.spans[k];
    MovedBase(lib, lib2, d);
    EntriesMoved(m, m2, lib, lib2, nsyms, span, d);
    TablesMoved(m, m2, lib, lib2, nsyms, span, d);
    forall e | e in Entries(m, lib)
      ensures Clear(m2, lib2, nsyms, e)
    {
      ClearMoved(m, m2, lib, lib2, nsyms, span, d, e);
    }
    ApartMoved(m, lib, lib2, d, span, Entries(m, lib));
  }

  lemma MovedBase(lib: Lib, lib2: Lib, d: int)
    requires Moved(lib, lib2, d)
    ensures lib2.base == lib.base + d && lib2.minVaddr == lib.minVaddr
  {
  }

  lemma ApartMoved(m: Mem, lib: Lib, lib2: Lib, d: int, span: nat, es: seq<Entry>)
    requires PairwiseApart(lib, es) && lib2.base == lib.base + d && lib2.minVaddr == lib.minVaddr
    requires lib2.base + span <= HEAP_ADDRESS
    requires forall e | e in es && Active(e) :: lib.base <= Target(lib, e) && Target(lib, e) + 8 <= lib.base + span
    ensures PairwiseApart(lib2, es)
  {
    forall i, j | 0 <= i < j < |es|
      ensures Apart(lib2, es[i], es[j])
    {
      assert Apart(lib, es[i], es[j]);
      if Active(es[i]) && Active(es[j]) {
        TargetMoved(lib, lib2, d, span, es[i]);
        TargetMoved(lib, lib2, d, span, es[j]);
      }
    }
  }

  // Two runs in step ------------------------------------------------------------------------

  /** The parts of the machine that fresh addresses come from. */
  predicate SameLinks(x: State, y: State) {
    x.heap == y.heap && x.imports == y.imports && x.stubs == y.stubs && x.next == y.next
  }

  function MovedAddress(a: nat, r: Resolution, k: nat, ds: seq<int>): nat {
    if r.Own? || r.Library? then Wrap(a + Distance(r, k, ds)) else a
  }

  lemma SettleMoved(x: State, y: State, r: Resolution, r2: Resolution, k: nat, ds: seq<int>)
    requires SameLinks(x, y) && ResolutionMoved(r, r2, k, ds)
    ensures Settle(x, r).Abort? <==> Settle(y, r2).Abort?
    ensures Settle(x, r).Continue? ==>
              var (x1, a) := Settle(x, r).value;
              var (y1, b) := Settle(y, r2).value;
              SameLinks(x1, y1) && b == MovedAddress(a, r, k, ds) && x1.libs == x.libs && y1.libs == y.libs
  {
    hide Alloc, Write, RET_BYTES, Wrap;
  }

  /** Where a library and its image lie in the two machines. */
  predicate Placed(lib: Lib, lib2: Lib, span: nat) {
    && 0 < lib.base && lib.base + span <= HEAP_ADDRESS
    && 0 < lib2.base && lib2.base + span <= HEAP_ADDRESS
  }

  /** The fixed setting of the two runs: the memories as loaded and their well-formedness. */
  ghost predicate Setting(m0: Mem, n0: Mem, libs: seq<Lib>, libs2: seq<Lib>, lib: Lib, lib2: Lib, k: nat, nsyms: nat,
                          mv: Move) {
    && LibsMoved(libs, libs2, mv.ds) && |mv.spans| == |libs|
    && k < |libs| && libs[k] == lib && libs2[k] == lib2
    && ImageMoved(m0, n0, lib.base, mv.spans[k], mv.ds[k])
    && SelfContained(m0, libs, lib, k, nsyms, mv)
    && Relocatable(m0, lib, nsyms)
    && Placed(lib, lib2, mv.spans[k])
    && forall i | 0 <= i < |libs| && mv.ds[i] != 0 :: Placed(libs[i], libs2[i], mv.spans[i])
  }

  lemma SettingMeaning(m0: Mem, n0: Mem, libs: seq<Lib>, libs2: seq<Lib>, lib: Lib, lib2: Lib, k: nat, nsyms: nat,
                       mv: Move, e: Entry)
    requires Setting(m0, n0, libs, libs2, lib, lib2, k, nsyms, mv)
    requires e in Entries(m0, lib) && Symbolic(e)
    ensures ResolutionMoved(Meaning(m0, libs, lib, e), Meaning(n0, libs2, lib2, e), k, mv.ds)
    ensures InsideAddress(Meaning(m0, libs, lib, e), libs, lib, k, mv)
  {
    hide LibsMoved, ImageMoved, TablesInside, TablesWellFormed, Entries, Classify, ResolutionMoved, InsideAddress,
      PairwiseApart, Moved;
    assert Clear(m0, lib, nsyms, e);
    OneMoved(libs, libs2, mv.ds, k);
    ClassifyMoved(m0, n0, libs, libs2, k, lib, lib2, nsyms, mv.spans[k], mv.ds, e.sym);
  }

  lemma OneMoved(libs: seq<Lib>, libs2: seq<Lib>, ds: seq<int>, k: nat)
    requires LibsMoved(libs, libs2, ds) && k < |libs|
    ensures k < |ds| && k < |libs2| && Moved(libs[k], libs2[k], ds[k])
  {
  }

  lemma StepMoved(m0: Mem, n0: Mem, x: State, y: State, lib: Lib, lib2: Lib, k: nat, nsyms: nat, mv: Move, e: Entry)
    requires Setting(m0, n0, x.libs, y.libs, lib, lib2, k, nsyms, mv) && SameLinks(x, y)
    requires TablesWellFormed(n0, lib2, nsyms) && Clear(n0, lib2, nsyms, e)
    requires TablesKept(m0, x.mem, lib, nsyms) && TablesKept(n0, y.mem, lib2, nsyms)
    requires e in Entries(m0, lib)
    ensures StepEntry(x, lib, e).Abort? <==> StepEntry(y, lib2, e).Abort?
    ensures StepEntry(x, lib, e).Continue? ==>
              SameLinks(StepEntry(x, lib, e).value, StepEntry(y, lib2, e).value)
  {
    SettingParts(m0, n0, x.libs, y.libs, lib, lib2, k, nsyms, mv, e);
    StepUnfolds(m0, x, lib, nsyms, e);
    StepUnfolds(n0, y, lib2, nsyms, e);
    hide StepEntry, Setting, TablesWellFormed, TablesKept, Clear, Settle, Target, Meaning, ToLE, VaddrIn, Write,
      Entries, ResolutionMoved;
    if Symbolic(e) {
      SettingMeaning(m0, n0, x.libs, y.libs, lib, lib2, k, nsyms, mv, e);
      SettleMoved(x, y, Meaning(m0, x.libs, lib, e), Meaning(n0, y.libs, lib2, e), k, mv.ds);
    }
  }

  lemma SettingParts(m0: Mem, n0: Mem, libs: seq<Lib>, libs2: seq<Lib>, lib: Lib, lib2: Lib, k: nat, nsyms: nat,
                     mv: Move, e: Entry)
    requires Setting(m0, n0, libs, libs2, lib, lib2, k, nsyms, mv)
    requires e in Entries(m0, lib)
    ensures TablesWellFormed(m0, lib, nsyms) && Clear(m0, lib, nsyms, e)
  {
    hide LibsMoved, ImageMoved, SelfContained, TablesWellFormed, Clear, Entries;
  }

  lemma {:induction false} EntriesInStep(m0: Mem, n0: Mem, x: State, y: State, lib: Lib, lib2: Lib, k: nat,
                                         nsyms: nat, mv: Move, es: seq<Entry>)
    requires Setting(m0, n0, x.libs, y.libs, lib, lib2, k, nsyms, mv) && SameLinks(x, y)
    requires LinkReady(x) && LinkReady(y)
    requires TablesWellFormed(n0, lib2, nsyms) && forall e | e in es :: Clear(n0, lib2, nsyms, e)
    requires TablesKept(m0, x.mem, lib, nsyms) && TablesKept(n0, y.mem, lib2, nsyms)
    requires forall e | e in es :: e in Entries(m0, lib)
    ensures ApplyEntries(x, lib, es).Abort? <==> ApplyEntries(y, lib2, es).Abort?
    ensures ApplyEntries(x, lib, es).Continue? ==>
              SameLinks(ApplyEntries(x, lib, es).value, ApplyEntries(y, lib2, es).value)
    decreases |es|
  {
    hide StepEntry, Setting, TablesWellFormed, TablesKept, Clear, LinkReady, Entries, SameLinks;
    if es != [] {
      var e := es[0];
      StepMoved(m0, n0, x, y, lib, lib2, k, nsyms, mv, e);
      if StepEntry(x, lib, e).Continue? {
        SettingParts(m0, n0, x.libs, y.libs, lib, lib2, k, nsyms, mv, e);
        StepSpec(m0, x, lib, nsyms, e);
        StepSpec(n0, y, lib2, nsyms, e);
        EntriesInStep(m0, n0, StepEntry(x, lib, e).value, StepEntry(y, lib2, e).value, lib, lib2, k, nsyms, mv,
          es[1..]);
      }
    }
  }

  // The main result ---------------------------------------------------------------------------

  function WordAt(m: Mem, a: int): U64 {
    match Read(m, a, 8)
    case Some(bs) => Word(bs)
    case None => 0
  }

  /** How far a word's value moves: with its own library, or the one its symbol is found in. */
  function WordDistance(m0: Mem, libs: seq<Lib>, lib: Lib, k: nat, e: Entry, ds: seq<int>): int {
    if e.kind == R_RELATIVE then (if k < |ds| then ds[k] else 0) else Distance(Meaning(m0, libs, lib, e), k, ds)
  }

  lemma WritesMoved(m0: Mem, n0: Mem, libs: seq<Lib>, libs2: seq<Lib>, lib: Lib, lib2: Lib, k: nat, nsyms: nat,
                    mv: Move, e: Entry, imports: map<string, nat>)
    requires Setting(m0, n0, libs, libs2, lib, lib2, k, nsyms, mv) && e in Entries(m0, lib) && Active(e)
    requires Symbolic(e) ==> Bound(Meaning(m0, libs, lib, e), imports)
    ensures Symbolic(e) ==> Bound(Meaning(n0, libs2, lib2, e), imports)
    ensures Writes(n0, libs2, lib2, e, imports) == Writes(m0, libs, lib, e, imports)
    ensures Value(n0, libs2, lib2, e, imports) ==
            Wrap(Value(m0, libs, lib, e, imports) + WordDistance(m0, libs, lib, k, e, mv.ds))
    ensures lib.base <= Target(lib, e) && Target(lib, e) + 8 <= lib.base + mv.spans[k]
    ensures Target(lib2, e) == Target(lib, e) + mv.ds[k]
  {
    hide Setting, Meaning, Entries, Target, Wrap, ResolutionMoved, Address, InsideAddress, Distance;
    SettingBase(m0, n0, libs, libs2, lib, lib2, k, nsyms, mv, e);
    TargetMoved(lib, lib2, mv.ds[k], mv.spans[k], e);
    if e.kind == R_RELATIVE {
      RelativeValueMoved(m0, n0, libs, libs2, lib, lib2, mv.ds[k], e, imports);
    } else {
      SettingMeaning(m0, n0, libs, libs2, lib, lib2, k, nsyms, mv, e);
      var r := Meaning(m0, libs, lib, e);
      DistanceFits(m0, n0, libs, libs2, lib, lib2, k, nsyms, mv, r, imports);
      SymbolicValueMoved(r, Meaning(n0, libs2, lib2, e), k, mv.ds, e.addend, imports);
    }
  }

  lemma RelativeValueMoved(m0: Mem, n0: Mem, libs: seq<Lib>, libs2: seq<Lib>, lib: Lib, lib2: Lib, d: int, e: Entry,
                           imports: map<string, nat>)
    requires lib2.base == lib.base + d && lib2.minVaddr == lib.minVaddr && e.kind == R_RELATIVE
    ensures Value(n0, libs2, lib2, e, imports) == Wrap(Value(m0, libs, lib, e, imports) + d)
  {
    hide Meaning;
    assert lib2.base + e.addend - lib2.minVaddr == (lib.base + e.addend - lib.minVaddr) + d;
    WrapShift(lib.base + e.addend - lib.minVaddr, d);
  }

  lemma SettingBase(m0: Mem, n0: Mem, libs: seq<Lib>, libs2: seq<Lib>, lib: Lib, lib2: Lib, k: nat, nsyms: nat,
                    mv: Move, e: Entry)
    requires Setting(m0, n0, libs, libs2, lib, lib2, k, nsyms, mv) && e in Entries(m0, lib) && Active(e)
    ensures k < |mv.ds| && k < |mv.spans|
    ensures lib2.base == lib.base + mv.ds[k] && lib2.minVaddr == lib.minVaddr
    ensures 0 < lib.base && lib.base + mv.spans[k] <= HEAP_ADDRESS
    ensures 0 < lib2.base && lib2.base + mv.spans[k] <= HEAP_ADDRESS
    ensures lib.base <= Target(lib, e) && Target(lib, e) + 8 <= lib.base + mv.spans[k]
  {
    hide ImageMoved, TablesInside, Entries, Meaning, Relocatable, Target, PointerMoved;
  }

  /** An address that moves stays in range and does not become or cease to be zero. */
  lemma DistanceFits(m0: Mem, n0: Mem, libs: seq<Lib>, libs2: seq<Lib>, lib: Lib, lib2: Lib, k: nat, nsyms: nat,
                     mv: Move, r: Resolution, imports: map<string, nat>)
    requires Setting(m0, n0, libs, libs2, lib, lib2, k, nsyms, mv) && InsideAddress(r, libs, lib, k, mv)
    ensures Distance(r, k, mv.ds) != 0 ==>
              0 < Address(r, imports) < TWO64 && 0 < Address(r, imports) + Distance(r, k, mv.ds) < TWO64
  {
    hide ImageMoved, SelfContained, Relocatable, PointerMoved;
    match r
    case Library(i, a) => assert mv.ds[i] != 0 ==>
      Moved(libs[i], libs2[i], mv.ds[i]) && Placed(libs[i], libs2[i], mv.spans[i]);
    case _ =>
  }

  lemma SymbolicValueMoved(r: Resolution, r2: Resolution, k: nat, ds: seq<int>, addend: U64, imports: map<string, nat>)
    requires ResolutionMoved(r, r2, k, ds) && Bound(r, imports)
    requires Distance(r, k, ds) != 0 ==>
               0 < Address(r, imports) < TWO64 && 0 < Address(r, imports) + Distance(r, k, ds) < TWO64
    ensures Bound(r2, imports)
    ensures Address(r2, imports) == 0 <==> Address(r, imports) == 0
    ensures Wrap(Address(r2, imports) + addend) == Wrap(Wrap(Address(r, imports) + addend) + Distance(r, k, ds))
  {
    var a, d := Address(r, imports), Distance(r, k, ds);
    assert Address(r2, imports) == a + d;
    assert a + d + addend == (a + addend) + d;
    WrapShift(a + addend, d);
  }

  /** The two relocated images of a library. */
  ghost predicate ImagesMatch(m0: Mem, m: Mem, m2: Mem, libs: seq<Lib>, lib: Lib, k: nat, mv: Move, es: seq<Entry>,
                              imports: map<string, nat>) {
    && k < |mv.ds| && k < |mv.spans|
    && (forall e | e in es && Symbolic(e) :: Bound(Meaning(m0, libs, lib, e), imports))
    && (forall e | e in es && Writes(m0, libs, lib, e, imports) ::
          WordAt(m2, Target(lib, e) + mv.ds[k]) ==
            Wrap(WordAt(m, Target(lib, e)) + WordDistance(m0, libs, lib, k, e, mv.ds)))
    && (forall a | lib.base <= a < lib.base + mv.spans[k] && !Written(m0, libs, lib, es, imports, a) ::
          SameByte(m, m2, a, mv.ds[k]))
  }

  ghost predicate Written(m0: Mem, libs: seq<Lib>, lib: Lib, es: seq<Entry>, imports: map<string, nat>, a: int) {
    exists e | e in es :: Writes(m0, libs, lib, e, imports) && Target(lib, e) <= a < Target(lib, e) + 8
  }

  /** A memory in which a library's image has been relocated, whatever else has happened to it. */
  ghost predicate Image(m0: Mem, m: Mem, libs: seq<Lib>, lib: Lib, span: nat, es: seq<Entry>,
                        imports: map<string, nat>) {
    && m.Keys == m0.Keys
    && (forall e | e in es && Symbolic(e) :: Bound(Meaning(m0, libs, lib, e), imports))
    && (forall e | e in es && Writes(m0, libs, lib, e, imports) ::
          Read(m, Target(lib, e), 8) == Some(ToLE(Value(m0, libs, lib, e, imports), 8)))
    && (forall a | a in m0 && lib.base <= a < lib.base + span && !Written(m0, libs, lib, es, imports, a) ::
         m[a] == m0[a])
  }

  lemma MatchFromImages(m0: Mem, n0: Mem, m: Mem, m2: Mem, libs: seq<Lib>, libs2: seq<Lib>, lib: Lib, lib2: Lib,
                        k: nat, nsyms: nat, mv: Move, es: seq<Entry>, imports: map<string, nat>)
    requires Setting(m0, n0, libs, libs2, lib, lib2, k, nsyms, mv) && es == Entries(m0, lib)
    requires Image(m0, m, libs, lib, mv.spans[k], es, imports)
    requires Image(n0, m2, libs2, lib2, mv.spans[k], es, imports)
    ensures ImagesMatch(m0, m, m2, libs, lib, k, mv, es, imports)
  {
    hide Setting, Entries, Meaning, Target, Value, WordDistance, ToLE, Image, Writes, WordAt, Bound, Written, SameByte;
    SettingIndex(m0, n0, libs, libs2, lib, lib2, k, nsyms, mv);
    forall e | e in es && Symbolic(e)
      ensures Bound(Meaning(m0, libs, lib, e), imports)
    {
      BoundIn(m0, m, libs, lib, mv.spans[k], es, imports, e);
    }
    forall e | e in es && Writes(m0, libs, lib, e, imports)
      ensures WordAt(m2, Target(lib, e) + mv.ds[k]) ==
              Wrap(WordAt(m, Target(lib, e)) + WordDistance(m0, libs, lib, k, e, mv.ds))
    {
      WordMatch(m0, n0, m, m2, libs, libs2, lib, lib2, k, nsyms, mv, es, imports, e);
    }
    var d := mv.ds[k];
    forall a | lib.base <= a < lib.base + mv.spans[k] && !Written(m0, libs, lib, es, imports, a)
      ensures SameByte(m, m2, a, d)
    {
      ByteMatch(m0, n0, m, m2, libs, libs2, lib, lib2, k, nsyms, mv, es, imports, a);
    }
  }

  lemma SettingIndex(m0: Mem, n0: Mem, libs: seq<Lib>, libs2: seq<Lib>, lib: Lib, lib2: Lib, k: nat, nsyms: nat,
                     mv: Move)
    requires Setting(m0, n0, libs, libs2, lib, lib2, k, nsyms, mv)
    ensures k < |mv.ds| && k < |mv.spans|
  {
    hide ImageMoved, SelfContained, Relocatable;
  }

  lemma BoundIn(m0: Mem, m: Mem, libs: seq<Lib>, lib: Lib, span: nat, es: seq<Entry>, imports: map<string, nat>,
                e: Entry)
    requires Image(m0, m, libs, lib, span, es, imports) && e in es && Symbolic(e)
    ensures Bound(Meaning(m0, libs, lib, e), imports)
  {
    hide Meaning, Target, Value, ToLE, Written;
  }

  lemma WordMatch(m0: Mem, n0: Mem, m: Mem, m2: Mem, libs: seq<Lib>, libs2: seq<Lib>, lib: Lib, lib2: Lib, k: nat,
                  nsyms: nat, mv: Move, es: seq<Entry>, imports: map<string, nat>, e: Entry)
    requires Setting(m0, n0, libs, libs2, lib, lib2, k, nsyms, mv) && es == Entries(m0, lib) && e in es
    requires k < |mv.ds| && k < |mv.spans|
    requires Image(m0, m, libs, lib, mv.spans[k], es, imports)
    requires Image(n0, m2, libs2, lib2, mv.spans[k], es, imports)
    requires Writes(m0, libs, lib, e, imports)
    ensures WordAt(m2, Target(lib, e) + mv.ds[k]) ==
            Wrap(WordAt(m, Target(lib, e)) + WordDistance(m0, libs, lib, k, e, mv.ds))
  {
    hide Setting, Entries, Meaning, Target, Value, WordDistance, ToLE, Bound, Read, Written;
    WritesMoved(m0, n0, libs, libs2, lib, lib2, k, nsyms, mv, e, imports);
    hide Writes;
    WordRoundTrip(Value(m0, libs, lib, e, imports));
    WordRoundTrip(Value(n0, libs2, lib2, e, imports));
    assert Read(m, Target(lib, e), 8) == Some(ToLE(Value(m0, libs, lib, e, imports), 8));
    assert Read(m2, Target(lib2, e), 8) == Some(ToLE(Value(n0, libs2, lib2, e, imports), 8));
    hide Image, Word;
  }

  lemma ByteMatch(m0: Mem, n0: Mem, m: Mem, m2: Mem, libs: seq<Lib>, libs2: seq<Lib>, lib: Lib, lib2: Lib, k: nat,
                  nsyms: nat, mv: Move, es: seq<Entry>, imports: map<string, nat>, a: int)
    requires Setting(m0, n0, libs, libs2, lib, lib2, k, nsyms, mv) && es == Entries(m0, lib)
    requires k < |mv.ds| && k < |mv.spans|
    requires Image(m0, m, libs, lib, mv.spans[k], es, imports)
    requires Image(n0, m2, libs2, lib2, mv.spans[k], es, imports)
    requires lib.base <= a < lib.base + mv.spans[k] && !Written(m0, libs, lib, es, imports, a)
    ensures SameByte(m, m2, a, mv.ds[k])
  {
    SettingByte(m0, n0, libs, libs2, lib, lib2, k, nsyms, mv, a);
    hide Setting, Entries, Meaning, Target, Value, ToLE, Bound, Read;
    forall e | e in es && Writes(n0, libs2, lib2, e, imports)
      ensures !(Target(lib2, e) <= a + mv.ds[k] < Target(lib2, e) + 8)
    {
      WritesActive(n0, libs2, lib2, e, imports);
      WritesMoved(m0, n0, libs, libs2, lib, lib2, k, nsyms, mv, e, imports);
    }
    hide Writes;
    assert m[a] == m0[a];
    assert !Written(n0, libs2, lib2, es, imports, a + mv.ds[k]);
    assert m2[a + mv.ds[k]] == n0[a + mv.ds[k]];
  }

  lemma SettingByte(m0: Mem, n0: Mem, libs: seq<Lib>, libs2: seq<Lib>, lib: Lib, lib2: Lib, k: nat, nsyms: nat,
                    mv: Move, a: int)
    requires Setting(m0, n0, libs, libs2, lib, lib2, k, nsyms, mv)
    requires lib.base <= a < lib.base + mv.spans[k]
    ensures SameByte(m0, n0, a, mv.ds[k]) && lib2.base == lib.base + mv.ds[k]
  {
    hide SelfContained, Relocatable, PointerMoved, SameByte;
    OneMoved(libs, libs2, mv.ds, k);
  }

  /** What relocation leaves is such an image. */
  lemma ImageFromRelocated(m0: Mem, m: Mem, libs: seq<Lib>, lib: Lib, span: nat, es: seq<Entry>,
                           imports: map<string, nat>)
    requires Relocated(m0, m0, m, libs, lib, es, imports) && lib.base + span <= HEAP_ADDRESS
    ensures Image(m0, m, libs, lib, span, es, imports)
  {
    hide Meaning, Target, Value, ToLE, Read, Writes, Bound;
    forall e | e in es
      ensures Symbolic(e) ==> Bound(Meaning(m0, libs, lib, e), imports)
      ensures Writes(m0, libs, lib, e, imports) ==>
                Read(m, Target(lib, e), 8) == Some(ToLE(Value(m0, libs, lib, e, imports), 8))
    {
      var i :| 0 <= i < |es| && es[i] == e;
    }
    forall a | a in m0 && lib.base <= a < lib.base + span && !Written(m0, libs, lib, es, imports, a)
      ensures m[a] == m0[a]
    {
      assert forall i | 0 <= i < |es| :: es[i] in es;
    }
  }

  /** Main result: relocating one library while each library of the machine is
      somewhere else ends the same way; the machines again agree on fresh
      addresses; and each word moves by the distance of the library it refers into. */
  lemma PositionIndependent(x: State, y: State, lib: Lib, lib2: Lib, k: nat, nsyms: nat, mv: Move)
    requires Setting(x.mem, y.mem, x.libs, y.libs, lib, lib2, k, nsyms, mv) && SameLinks(x, y)
    requires LinkReady(x) && LinkReady(y)
    ensures ApplyRelocations(x, lib).Abort? <==> ApplyRelocations(y, lib2).Abort?
    ensures ApplyRelocations(x, lib).Continue? ==>
              var x1, y1 := ApplyRelocations(x, lib).value, ApplyRelocations(y, lib2).value;
              SameLinks(x1, y1)
              && ImagesMatch(x.mem, x1.mem, y1.mem, x.libs, lib, k, mv, Entries(x.mem, lib), x1.imports)
  {
    var es := Entries(x.mem, lib);
    SettingRelocatable(x.mem, y.mem, x.libs, y.libs, lib, lib2, k, nsyms, mv);
    hide Setting, LinkReady, Relocatable, ApplyRelocations, ApplyEntries, Entries, ImagesMatch, Relocated, Extends,
      Clear, TablesKept, TablesWellFormed, Image;
    RelocationIsEntries(x, lib, nsyms);
    RelocationIsEntries(y, lib2, nsyms);
    TablesKeptSelf(x.mem, lib, nsyms);
    TablesKeptSelf(y.mem, lib2, nsyms);
    EntriesInStep(x.mem, y.mem, x, y, lib, lib2, k, nsyms, mv, es);
    if ApplyEntries(x, lib, es).Continue? {
      RelocationMeetsSpec(x, lib, nsyms);
      RelocationMeetsSpec(y, lib2, nsyms);
      var x1, y1 := ApplyEntries(x, lib, es).value, ApplyEntries(y, lib2, es).value;
      ImageFromRelocated(x.mem, x1.mem, x.libs, lib, mv.spans[k], es, x1.imports);
      ImageFromRelocated(y.mem, y1.mem, y.libs, lib2, mv.spans[k], es, y1.imports);
      MatchFromImages(x.mem, y.mem, x1.mem, y1.mem, x.libs, y.libs, lib, lib2, k, nsyms, mv, es, x1.imports);
    }
  }

  lemma SettingRelocatable(m0: Mem, n0: Mem, libs: seq<Lib>, libs2: seq<Lib>, lib: Lib, lib2: Lib, k: nat, nsyms: nat,
                           mv: Move)
    requires Setting(m0, n0, libs, libs2, lib, lib2, k, nsyms, mv)
    ensures Relocatable(m0, lib, nsyms) && Relocatable(n0, lib2, nsyms)
    ensures Entries(n0, lib2) == Entries(m0, lib)
    ensures TablesWellFormed(n0, lib2, nsyms)
    ensures forall e | e in Entries(m0, lib) :: Clear(n0, lib2, nsyms, e)
    ensures k < |mv.spans| && Placed(lib, lib2, mv.spans[k])
  {
    hide ImageMoved, SelfContained, TablesWellFormed, Clear, Entries, PairwiseApart, LibsMoved, SameImage;
    OneMoved(libs, libs2, mv.ds, k);
    MovedBytes(m0, n0, lib.base, mv.spans[k], mv.ds[k]);
    RelocatableMoved(m0, n0, libs, lib, lib2, k, nsyms, mv, mv.ds[k]);
  }
}
