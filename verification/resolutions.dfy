/** A name resolved when a library is relocated and by `dlsym` when the program
    runs: when the two give the same address. */
module Resolutions {
  import opened Words
  import opened GuestMemory
  import opened VmState
  import opened SymbolNames
  import opened Resolver
  import opened Relocation
  import opened Image
  import opened Runtime
  import opened Dispatch

  // What the resolver reads -------------------------------------------------------------------

  /** The resolver copies a whole buffer of 255 bytes, wherever the name ends. */
  predicate BufferReadable(m: Mem, lib: Lib, name: U32) {
    Mapped(m, lib.strtab + name, NAME_BUFFER)
  }

  /** For a name that the buffer can hold, the resolver reads what `dlsym`
      would exactly when the whole buffer is readable, or the name is empty. */
  lemma NameIsCStringIff(m: Mem, lib: Lib, name: U32)
    requires name < lib.strsz && lib.strtab + name < TWO64
    requires |CStringAt(m, lib.strtab + name)| < NAME_BUFFER
    ensures NameAt(m, lib, name) == Chars(CStringAt(m, lib.strtab + name)) <==>
            BufferReadable(m, lib, name) || CStringAt(m, lib.strtab + name) == []
  {
    hide CString, CStringAt, Chars, Mapped, Slice;
    if BufferReadable(m, lib, name) {
      BufferHolds(m, lib.strtab + name);
    }
  }

  /** A name whose buffer is not readable is lost: an undefined symbol then
      resolves to the start of its own library, whatever it is called. */
  lemma UnreadableName(m: Mem, libs: seq<Lib>, lib: Lib, idx: U32)
    requires lib.symtab != 0 && lib.strtab != 0 && SymAt(m, lib, idx).Some?
    requires var sym := SymAt(m, lib, idx).value;
             lib.strtab + sym.name < TWO64 && !BufferReadable(m, lib, sym.name)
    ensures var sym := SymAt(m, lib, idx).value;
            Classify(m, libs, lib, idx) == Own(if sym.value != 0 then VaddrIn(lib, sym.value) else lib.base)
  {
    hide CString, SymAt, VaddrIn, LookupFrom, NdkName, IsData, Slice;
  }

  lemma BufferHolds(m: Mem, a: int)
    requires Mapped(m, a, NAME_BUFFER) && |CStringAt(m, a)| < NAME_BUFFER
    ensures CString(Slice(m, a, NAME_BUFFER)) == CStringAt(m, a)
  {
    hide CString, CStringAt;
    var bs, c := Slice(m, a, NAME_BUFFER), CStringAt(m, a);
    assert a + |c| in m && bs[|c|] == m[a + |c|];
    forall i | 0 <= i < |c|
      ensures bs[i] == c[i] && c[i] != 0
    {
      var x := a + i;
      assert x in m && m[x] != 0 && c[x - a] == m[x];
    }
    CStringOfBuffer(bs, c);
  }

  lemma CStringOfBuffer(bs: seq<Byte>, c: seq<Byte>)
    requires |c| < |bs| && bs[|c|] == 0
    requires forall i | 0 <= i < |c| :: bs[i] == c[i] && c[i] != 0
    ensures CString(bs) == c
  {
    var s := CString(bs);
    assert |s| <= |c|;
    assert |s| >= |c|;
  }

  // What dlsym answers ---------------------------------------------------------------------------

  /** The address that `dlsym` gives under some bindings: the first library's, unless it is zero. */
  function DlsymAddress(libs: seq<Lib>, imports: map<string, nat>, name: string): nat {
    if SymbolAddress(libs, name) != 0 then SymbolAddress(libs, name)
    else if name in imports then imports[name]
    else 0
  }

  lemma DlsymIs(st: State, name: string)
    requires Inv(st)
    ensures var (after, a) := Dlsym(st, name);
            && Inv(after) && Grows(st, after) && after.libs == st.libs
            && (SymbolAddress(st.libs, name) == 0 ==> name in after.imports)
            && a == DlsymAddress(st.libs, after.imports, name)
  {
    hide Inv, Grows, SymbolAddress;
    RegisterKeepsInv(st, name);
    GrowsSelf(st);
  }

  /** Bound addresses lie at or above the heap, each bound to one name. */
  lemma BoundHigh(st: State)
    requires Inv(st)
    ensures forall n | n in st.imports :: st.imports[n] >= HEAP_ADDRESS
    ensures forall n, k | n in st.imports && k in st.imports && n != k :: st.imports[n] != st.imports[k]
  {
    hide Granular, FixedRegions, StubsReturn, LibraryArenaOk, LibrariesPlaced, Mirrors;
    forall n | n in st.imports
      ensures st.imports[n] >= HEAP_ADDRESS
    {
      assert st.imports[n] in st.stubs ==> IsStub(st.next, st.imports[n]);
    }
  }

  // When the two agree -------------------------------------------------------------------------------

  /** The exact condition.  `there` is the address the libraries give the name
      `dlsym` is asked for.  A reference that leads into a library, by its own value,
      a lost name, the referring library's symbols, a library's or a library's under
      the renamed name, must lead to that address; one that leads nowhere must be to
      that name, and no library may define it. */
  predicate SameAnswer(m: Mem, libs: seq<Lib>, lib: Lib, idx: U32, name: string) {
    && lib.symtab != 0 && lib.strtab != 0
    && match SymAt(m, lib, idx)
       case None => false
       case Some(sym) => SameAsDlsym(libs, lib, sym, NameAt(m, lib, sym.name), SymbolAddress(libs, name), name)
  }

  predicate SameAsDlsym(libs: seq<Lib>, lib: Lib, sym: Sym, read: string, there: U64, name: string) {
    if read == "" && sym.value == 0 then there != 0 && there == lib.base
    else if read == "" || (sym.value != 0 && sym.shndx != 0) then there != 0 && there == VaddrIn(lib, sym.value)
    else if read in lib.symbols then there != 0 && there == lib.symbols[read]
    else if Lookup(libs, read).Some? then there != 0 && there == SymbolAddress(libs, read)
    else if Lookup(libs, NdkName(read)).Some? then there != 0 && there == SymbolAddress(libs, NdkName(read))
    else there == 0 && read == name
  }

  /** The condition for a plain reference: of an undefined symbol whose name the resolver reads whole. */
  predicate NamedAlike(libs: seq<Lib>, lib: Lib, name: string) {
    if name in lib.symbols then SymbolAddress(libs, name) != 0 && SymbolAddress(libs, name) == lib.symbols[name]
    else
      match Lookup(libs, name)
      case Some((_, a)) => a != 0
      case None => Lookup(libs, NdkName(name)).None?
  }

  /** An undefined symbol's name as it stands in memory. */
  predicate Refers(m: Mem, lib: Lib, idx: U32, name: string) {
    && lib.symtab != 0 && lib.strtab != 0
    && match SymAt(m, lib, idx)
       case None => false
       case Some(sym) =>
         && sym.name < lib.strsz && lib.strtab + sym.name < TWO64
         && Chars(CStringAt(m, lib.strtab + sym.name)) == name && name != ""
         && (sym.value == 0 || sym.shndx == 0)
  }

  /** The resolver can read the whole buffer at the name of the reference. */
  predicate NameReadable(m: Mem, lib: Lib, idx: U32) {
    match SymAt(m, lib, idx)
    case Some(sym) => BufferReadable(m, lib, sym.name)
    case None => false
  }

  /** Main result: for names that fit the buffer.  Readable, a name of the
      library's own must first be defined elsewhere or here at that same address,
      a name of another library's must not first be defined at zero, and a name of
      nobody's must have no renamed form that somebody defines.  Unreadable, the
      name must be defined at the very address it is mistaken for. */
  lemma SameAnswerIff(m: Mem, libs: seq<Lib>, lib: Lib, idx: U32, name: string)
    requires Refers(m, lib, idx, name) && |name| < NAME_BUFFER
    ensures SameAnswer(m, libs, lib, idx, name) <==>
            if NameReadable(m, lib, idx) then NamedAlike(libs, lib, name)
            else
              var sym := SymAt(m, lib, idx).value;
              var there := SymbolAddress(libs, name);
              there != 0 && there == if sym.value != 0 then VaddrIn(lib, sym.value) else lib.base
  {
    hide SymAt, NameAt, CStringAt, Chars, VaddrIn, NdkName, LookupFrom, BufferReadable, SameAsDlsym;
    var sym := SymAt(m, lib, idx).value;
    NameIsCStringIff(m, lib, sym.name);
    if NameReadable(m, lib, idx) {
      ReadWhole(libs, lib, sym, name);
    } else {
      UnreadableIsEmpty(m, lib, sym.name);
      ReadNothing(libs, lib, sym, name);
    }
  }

  lemma ReadWhole(libs: seq<Lib>, lib: Lib, sym: Sym, name: string)
    requires name != "" && (sym.value == 0 || sym.shndx == 0)
    ensures SameAsDlsym(libs, lib, sym, name, SymbolAddress(libs, name), name) <==> NamedAlike(libs, lib, name)
  {
    hide VaddrIn, NdkName, LookupFrom;
  }

  lemma ReadNothing(libs: seq<Lib>, lib: Lib, sym: Sym, name: string)
    ensures var there := SymbolAddress(libs, name);
            SameAsDlsym(libs, lib, sym, "", there, name) <==>
            there != 0 && there == if sym.value != 0 then VaddrIn(lib, sym.value) else lib.base
  {
    hide VaddrIn, NdkName, LookupFrom;
  }

  lemma UnreadableIsEmpty(m: Mem, lib: Lib, name: U32)
    requires lib.strtab + name < TWO64 && !BufferReadable(m, lib, name)
    ensures NameAt(m, lib, name) == ""
  {
    hide CString, Slice;
  }

  /** The condition in terms of where the reference leads. */
  lemma SameAnswerIs(m: Mem, libs: seq<Lib>, lib: Lib, idx: U32, name: string)
    ensures var there := SymbolAddress(libs, name);
            SameAnswer(m, libs, lib, idx, name) <==>
            match Classify(m, libs, lib, idx)
            case Nowhere => false
            case Own(a) => there != 0 && there == a
            case Library(_, a) => there != 0 && there == a
            case Unbound(n, _) => there == 0 && n == name
  {
    hide SymAt, NameAt, VaddrIn, NdkName, LookupFrom, IsData;
  }

  /** No library puts a symbol at or above the heap, nor does the reference's own value lead there. */
  predicate AddressesLow(m: Mem, libs: seq<Lib>, lib: Lib, idx: U32) {
    && (forall l, n | l in libs && n in l.symbols :: l.symbols[n] < HEAP_ADDRESS)
    && (forall n | n in lib.symbols :: lib.symbols[n] < HEAP_ADDRESS)
    && lib.base < HEAP_ADDRESS
    && match SymAt(m, lib, idx)
       case Some(sym) => sym.value != 0 ==> VaddrIn(lib, sym.value) < HEAP_ADDRESS
       case None => true
  }

  lemma LookupLow(libs: seq<Lib>, name: string)
    requires forall l, n | l in libs && n in l.symbols :: l.symbols[n] < HEAP_ADDRESS
    ensures Lookup(libs, name).Some? ==> Lookup(libs, name).value.1 < HEAP_ADDRESS
    ensures SymbolAddress(libs, name) < HEAP_ADDRESS
  {
    hide LookupFrom;
    var hit := Lookup(libs, name);
    assert hit.Some? ==> libs[hit.value.0] in libs;
  }

  lemma ClassifyLow(m: Mem, libs: seq<Lib>, lib: Lib, idx: U32)
    requires AddressesLow(m, libs, lib, idx)
    ensures match Classify(m, libs, lib, idx)
            case Own(a) => a < HEAP_ADDRESS
            case Library(_, a) => a < HEAP_ADDRESS
            case _ => true
  {
    hide SymAt, NameAt, VaddrIn, NdkName, Lookup, IsData;
    match SymAt(m, lib, idx)
    case None =>
    case Some(sym) =>
      LookupLow(libs, NameAt(m, lib, sym.name));
      LookupLow(libs, NdkName(NameAt(m, lib, sym.name)));
  }

  /** An address the resolver gave and one `dlsym` gave, under the same bindings. */
  lemma AddressesAgreeIff(m: Mem, st: State, lib: Lib, idx: U32, name: string)
    requires Inv(st) && AddressesLow(m, st.libs, lib, idx)
    requires var r := Classify(m, st.libs, lib, idx); r.Unbound? ==> r.name in st.imports
    requires SymbolAddress(st.libs, name) == 0 ==> name in st.imports
    ensures Address(Classify(m, st.libs, lib, idx), st.imports) == DlsymAddress(st.libs, st.imports, name) <==>
            SameAnswer(m, st.libs, lib, idx, name)
  {
    hide Inv, Classify, SameAnswer, SymbolAddress;
    BoundHigh(st);
    SameAnswerIs(m, st.libs, lib, idx, name);
    ClassifyLow(m, st.libs, lib, idx);
    LookupLow(st.libs, name);
  }

  /** Main result: the resolver, then any run, then `dlsym`: the same address
      exactly when the condition holds of the reference. */
  lemma ResolveThenDlsymIff(st: State, lib: Lib, idx: U32, evs: seq<Event>, name: string)
    requires forall ev | ev in evs :: ev.Load? ==> InFile(ev.file)
    requires Inv(st) && AddressesLow(st.mem, st.libs, lib, idx) && Resolve(st, lib, idx).Continue?
    requires var st1 := Resolve(st, lib, idx).value.0;
             AllowedRun(st1, evs) && Run(st1, evs).Continue? && Run(st1, evs).value.libs == st.libs
    ensures var (st1, a) := Resolve(st, lib, idx).value;
            Dlsym(Run(st1, evs).value, name).1 == a <==> SameAnswer(st.mem, st.libs, lib, idx, name)
  {
    hide Inv, Classify, SameAnswer, SymbolAddress, AddressesLow, Run, AllowedRun, InFile, Settle, Dlsym;
    var r := Classify(st.mem, st.libs, lib, idx);
    SettleKeepsInv(st, r);
    SettleBinds(st, r);
    var st1 := Settle(st, r).value.0;
    RunKeepsInv(st1, evs);
    var st2 := Run(st1, evs).value;
    DlsymIs(st2, name);
    AddressesAgreeIff(st.mem, Dlsym(st2, name).0, lib, idx, name);
  }

  /** Main result: `dlsym`, then any run, then the resolver: the same, of the
      reference as it then stands. */
  lemma DlsymThenResolveIff(st: State, name: string, evs: seq<Event>, lib: Lib, idx: U32)
    requires forall ev | ev in evs :: ev.Load? ==> InFile(ev.file)
    requires Inv(st)
    requires var st1 := Dlsym(st, name).0;
             && AllowedRun(st1, evs) && Run(st1, evs).Continue?
             && var st2 := Run(st1, evs).value;
                st2.libs == st.libs && AddressesLow(st2.mem, st.libs, lib, idx) && Resolve(st2, lib, idx).Continue?
    ensures var (st1, a) := Dlsym(st, name);
            var st2 := Run(st1, evs).value;
            Resolve(st2, lib, idx).value.1 == a <==> SameAnswer(st2.mem, st.libs, lib, idx, name)
  {
    hide Inv, Classify, SameAnswer, SymbolAddress, AddressesLow, Run, AllowedRun, InFile, Settle, Dlsym;
    DlsymIs(st, name);
    RunKeepsInv(Dlsym(st, name).0, evs);
    var st2 := Run(Dlsym(st, name).0, evs).value;
    var r := Classify(st2.mem, st2.libs, lib, idx);
    SettleKeepsInv(st2, r);
    SettleBinds(st2, r);
    AddressesAgreeIff(st2.mem, Settle(st2, r).value.0, lib, idx, name);
  }

  // Any two resolutions ---------------------------------------------------------------------------------

  /** The two ways a name is resolved while a program runs. */
  datatype Call = ResolveCall(lib: Lib, idx: U32) | DlsymByName

  function Answer(st: State, c: Call, name: string): Outcome<(State, nat)> {
    match c
    case ResolveCall(lib, idx) => Resolve(st, lib, idx)
    case DlsymByName => Continue(Dlsym(st, name))
  }

  /** `dlsym` itself, or a reference of which the condition holds. */
  predicate LikeDlsym(st: State, c: Call, name: string) {
    c.ResolveCall? ==> SameAnswer(st.mem, st.libs, c.lib, c.idx, name)
  }

  lemma AnswerIs(st: State, c: Call, name: string)
    requires Inv(st) && LikeDlsym(st, c, name) && Answer(st, c, name).Continue?
    ensures var (after, a) := Answer(st, c, name).value;
            && Inv(after) && Grows(st, after) && after.libs == st.libs
            && (SymbolAddress(st.libs, name) == 0 ==> name in after.imports)
            && a == DlsymAddress(st.libs, after.imports, name)
  {
    hide Inv, Grows, Classify, Settle, Dlsym, SymbolAddress, SameAnswer;
    match c
    case ResolveCall(lib, idx) =>
      SameAnswerIs(st.mem, st.libs, lib, idx, name);
      var r := Classify(st.mem, st.libs, lib, idx);
      SettleKeepsInv(st, r);
      SettleBinds(st, r);
    case DlsymByName => DlsymIs(st, name);
  }

  /** Main result: any two such resolutions of one name, in either order and
      with any run between them, give the same address, also where the name is
      first defined at zero or nowhere. */
  lemma ResolutionsAgree(st: State, c: Call, evs: seq<Event>, d: Call, name: string)
    requires Inv(st) && LikeDlsym(st, c, name) && Answer(st, c, name).Continue?
    requires forall ev | ev in evs :: ev.Load? ==> InFile(ev.file)
    requires var st1 := Answer(st, c, name).value.0;
             && AllowedRun(st1, evs) && Run(st1, evs).Continue?
             && var st2 := Run(st1, evs).value;
                st2.libs == st.libs && LikeDlsym(st2, d, name) && Answer(st2, d, name).Continue?
    ensures var st2 := Run(Answer(st, c, name).value.0, evs).value;
            Answer(st2, d, name).value.1 == Answer(st, c, name).value.1
  {
    hide Inv, SymbolAddress, Answer, LikeDlsym, Run, AllowedRun, InFile;
    AnswerIs(st, c, name);
    var st1 := Answer(st, c, name).value.0;
    RunKeepsInv(st1, evs);
    AnswerIs(Run(st1, evs).value, d, name);
  }
}
