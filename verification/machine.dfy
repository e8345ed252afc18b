/** The virtual machine as the source writes it: fields updated in place, loops
    over tables, each method proved to do what the specification functions say. */
module Machine {
  import opened Words
  import opened GuestMemory
  import opened PageAlloc
  import opened VmState
  import opened SymbolNames
  import opened Resolver
  import opened Relocation
  import opened Image
  import R = Runtime
  import LinkAll
  import Dispatch

  class EmulatorVM {
    var mem: Mem
    const heap: PageAllocator
    const libraryAlloc: PageAllocator
    var imports: map<string, nat>
    var stubs: map<nat, string>
    var next: nat
    var libs: seq<Lib>

    ghost predicate Valid()
      reads this
    {
      heap != libraryAlloc
    }

    ghost function View(): State
      reads this, heap, libraryAlloc
    {
      State(mem, heap.View(), libraryAlloc.View(), imports, stubs, next, libs)
    }

    constructor ()
      ensures Valid() && fresh(heap) && fresh(libraryAlloc)
      ensures View() == R.InitialState()
    {
      heap := new PageAllocator(HEAP_ADDRESS, HEAP_SIZE, 64);
      libraryAlloc := new PageAllocator(LIBRARY_ADDRESS, LIBRARY_SIZE, GRANULE);
      next := IMPORT_ADDRESS;
      imports, stubs, libs := map[], map[], [];
      var m := MapRegion(map[], HEAP_ADDRESS, HEAP_SIZE);
      m := MapRegion(m, STACK_ADDRESS, STACK_SIZE);
      m := MapRegion(m, IMPORT_ADDRESS, IMPORT_SIZE);
      m := MapRegion(m, 0, GRANULE);
      m := MapRegion(m, ERRNO_ADDRESS, GRANULE);
      mem := Write(m, ERRNO_ADDRESS, Zeros(4));
    }

    method RegisterImport(name: string) returns (a: nat)
      requires Valid()
      modifies this
      ensures Valid() && (View(), a) == VmState.RegisterImport(old(View()), name)
    {
      if name in imports {
        return imports[name];
      }
      a := next;
      next := next + 8;
      mem := Write(mem, a, RET_BYTES);
      imports := imports[name := a];
      stubs := stubs[a := name];
    }

    // The heap hooks ------------------------------------------------------------------------

    method Malloc(size: U64) returns (r: Outcome<U64>)
      requires Valid()
      modifies this, heap
      ensures Valid() && Answers(old(View()), View(), R.Malloc(size), r)
    {
      var p :- heap.Allocate(Wrap(size + 16));
      hide Alloc;
      NothingWritten(mem, p);
      return Continue(p);
    }

    method Calloc(num: U64, size: U64) returns (r: Outcome<U64>)
      requires Valid()
      modifies this, heap
      ensures Valid() && Answers(old(View()), View(), R.Calloc(num, size), r)
    {
      var total: nat := Wrap(num * size);
      var p :- heap.Allocate(Wrap(total + 16));
      hide Alloc;
      if total > 0 {
        mem := Write(mem, p, Zeros(total));
      } else {
        NothingWritten(mem, p);
      }
      return Continue(p);
    }

    method Realloc(ptr: U64, size: U64) returns (r: Outcome<U64>)
      requires Valid()
      modifies this, heap
      ensures Valid() && Answers(old(View()), View(), R.Realloc(ptr, size), r)
    {
      var p :- heap.Allocate(Wrap(size + 16));
      hide Alloc;
      if ptr != 0 && size > 0 {
        var buffer := Zeros(size);
        var source := Read(mem, ptr, size);
        if source.Some? {
          buffer := source.value;
        }
        mem := Write(mem, p, buffer);
      } else {
        NothingWritten(mem, p);
      }
      return Continue(p);
    }

    method WriteBytes(data: seq<Byte>) returns (r: Outcome<U64>)
      requires Valid()
      modifies this, heap
      ensures Valid() && Answers(old(View()), View(), R.WriteBytes(data), r)
    {
      if data == [] {
        return Continue(0);
      }
      var p :- heap.Allocate(Wrap(|data| + 16));
      hide Alloc;
      mem := Write(mem, p, data);
      return Continue(p);
    }

    method AllocateException(size: U64) returns (r: Outcome<U64>)
      requires Valid()
      modifies this, heap
      ensures Valid() && Answers(old(View()), View(), R.AllocateException(size), r)
    {
      var p :- heap.Allocate(Wrap(size + 128));
      hide Alloc;
      NothingWritten(mem, p);
      return Continue(p);
    }

    /** The hook ended the process, or left the state and the value the specification gives. */
    static ghost predicate Answers(before: State, after: State, ev: R.Event, r: Outcome<U64>)
      requires R.IsHeapEvent(ev)
    {
      match R.Step(before, ev)
      case Abort => r.Abort?
      case Continue((expected, p)) => r.Continue? && r.value == p && after == expected
    }

    static lemma NothingWritten(m: Mem, p: U64)
      ensures Write(m, p, []) == m
    {
    }

    /** `hook_mem_invalid`. */
    method MemInvalid(kind: R.FaultKind, a: U64) returns (goOn: bool)
      requires Valid()
      modifies this
      ensures Valid() && View() == old(View()).(mem := R.MemInvalid(old(mem), kind, a).0)
      ensures goOn == R.MemInvalid(old(mem), kind, a).1
    {
      var page := AlignDown(a, GRANULE);
      if kind == R.Fetch {
        return false;
      }
      if page == 0 && kind == R.WriteUnmapped {
        return false;
      }
      mem := MapRegion(mem, page, GRANULE);
      return true;
    }

    // Names ---------------------------------------------------------------------------------

    /** The loop of `get_vm_symbol_address` and of the resolver. */
    method FindSymbol(name: string) returns (r: Option<(nat, U64)>)
      ensures r == Lookup(libs, name)
    {
      var i := 0;
      while i < |libs|
        invariant 0 <= i <= |libs|
        invariant LookupFrom(libs, name, i) == Lookup(libs, name)
      {
        if name in libs[i].symbols {
          return Some((i, libs[i].symbols[name]));
        }
        i := i + 1;
      }
      return None;
    }

    /** Reading a C string byte by byte until a zero or an unreadable byte. */
    method ReadString(ptr: U64) returns (s: seq<Byte>)
      ensures s == if ptr != 0 then CStringAt(mem, ptr) else []
    {
      hide CStringAt;
      s := [];
      if ptr == 0 {
        return;
      }
      var a: int := ptr;
      while a in mem && mem[a] != 0
        invariant ptr <= a && s + CStringAt(mem, a) == CStringAt(mem, ptr)
        decreases TWO64 - a
      {
        CStringTake(mem, a, s);
        s := s + [mem[a]];
        a := a + 1;
      }
      CStringStep(mem, a);
    }

    method Dlsym(namePtr: U64) returns (a: nat)
      requires Valid()
      modifies this
      ensures Valid()
      ensures var name := Chars(if namePtr != 0 then CStringAt(old(mem), namePtr) else []);
              (View(), a) == VmState.Dlsym(old(View()), name)
    {
      hide CStringAt, LookupFrom;
      var bytes := ReadString(namePtr);
      var name := Chars(bytes);
      var hit := FindSymbol(name);
      a := if hit.Some? then hit.value.1 else 0;
      if a == 0 {
        a := RegisterImport(name);
      }
    }

    /** `import_callback_router`: in every reachable machine it undoes the import
        registry, finding for a stub the name that is bound to it and nothing for
        any address that is not bound, or bound as data. */
    method Route(address: nat) returns (name: Option<string>)
      ensures name == Dispatch.Router(View(), address)
      ensures R.Inv(View()) ==>
                && (forall n | n in imports && imports[n] == address && address >= IMPORT_ADDRESS :: name == Some(n))
                && (name.Some? ==> name.value in imports && imports[name.value] == address && address >= IMPORT_ADDRESS)
    {
      name := if address in stubs then Some(stubs[address]) else None;
      if R.Inv(View()) {
        RouteIsRegistry(View(), address);
      }
    }

    static lemma RouteIsRegistry(st: State, address: nat)
      requires R.Inv(st)
      ensures var name := Dispatch.Router(st, address);
              && (forall n | n in st.imports && st.imports[n] == address && address >= IMPORT_ADDRESS ::
                   name == Some(n))
              && (name.Some? ==>
                    name.value in st.imports && st.imports[name.value] == address && address >= IMPORT_ADDRESS)
    {
      hide R.Granular, R.FixedRegions, R.StubsReturn, R.LibraryArenaOk, R.LibrariesPlaced;
      if address in st.stubs {
        assert R.IsStub(st.next, address);
      }
    }

    // Relocation ------------------------------------------------------------------------------

    method BindData(name: string) returns (r: Outcome<nat>)
      requires Valid()
      modifies this, heap
      ensures Valid()
      ensures match RegisterData(old(View()), name)
              case Abort => r.Abort?
              case Continue((after, a)) => r == Continue(a) && View() == after
    {
      if name in imports {
        return Continue(imports[name]);
      }
      var dummy :- heap.Allocate(256);
      hide Alloc;
      mem := Write(mem, dummy, Zeros(256));
      imports := imports[name := dummy];
      return Continue(dummy);
    }

    method ResolveSymbol(lib: Lib, idx: U32) returns (r: Outcome<nat>)
      requires Valid()
      modifies this, heap
      ensures Valid()
      ensures match Resolve(old(View()), lib, idx)
              case Abort => r.Abort?
              case Continue((after, a)) => r == Continue(a) && View() == after
    {
      hide RegisterData, VmState.RegisterImport, NdkName, IsData, LookupFrom, Chars, CString, DecodeSym;
      if lib.symtab == 0 || lib.strtab == 0 {
        return Continue(0);
      }
      var bytes := Read(mem, Wrap(lib.symtab + idx * SYM_SIZE), SYM_SIZE);
      if bytes.None? {
        return Continue(0);
      }
      var sym := DecodeSym(bytes.value);
      var name := NameAt(mem, lib, sym.name);
      assert Classify(mem, libs, lib, idx) == ClassifySym(libs, lib, sym, name);
      hide Classify, NameAt;
      r := ResolveNamed(lib, sym, name);
    }

    method ResolveNamed(lib: Lib, sym: Sym, name: string) returns (r: Outcome<nat>)
      requires Valid()
      modifies this, heap
      ensures Valid()
      ensures match Settle(old(View()), ClassifySym(old(libs), lib, sym, name))
              case Abort => r.Abort?
              case Continue((after, a)) => r == Continue(a) && View() == after
    {
      hide RegisterData, VmState.RegisterImport, NdkName, IsData, LookupFrom;
      if name == "" {
        return Continue(if sym.value != 0 then VaddrIn(lib, sym.value) else lib.base);
      }
      if sym.value != 0 && sym.shndx != 0 {
        return Continue(VaddrIn(lib, sym.value));
      }
      if name in lib.symbols {
        return Continue(lib.symbols[name]);
      }
      var hit := FindSymbol(name);
      if hit.Some? {
        return Continue(hit.value.1);
      }
      var converted := NdkName(name);
      if converted != name {
        hit := FindSymbol(converted);
        if hit.Some? {
          return Continue(hit.value.1);
        }
      }
      if IsData(sym.info % 16, name) {
        r := BindData(name);
      } else {
        var a := RegisterImport(name);
        r := Continue(a);
      }
    }

    method ApplyEntry(lib: Lib, e: Entry) returns (r: Outcome<()>)
      requires Valid()
      modifies this, heap
      ensures Valid()
      ensures match StepEntry(old(View()), lib, e)
              case Abort => r.Abort?
              case Continue(after) => r.Continue? && View() == after
    {
      hide Resolve, Write, ToLE, VaddrIn, HeapOk;
      var target := Target(lib, e);
      if e.kind == R_RELATIVE {
        mem := Write(mem, target, ToLE(VaddrIn(lib, e.addend), 8));
      } else if Symbolic(e) {
        var a :- ResolveSymbol(lib, e.sym);
        if a != 0 {
          mem := Write(mem, target, ToLE(Wrap(a + e.addend), 8));
        }
      }
      return Continue(());
    }

    /** `apply_table`: the loop reads each entry from memory as the earlier ones left it. */
    method ApplyTable(lib: Lib, table: U64, size: U64) returns (r: Outcome<()>)
      requires Valid()
      modifies this, heap
      ensures Valid()
      ensures match Relocation.ApplyTable(old(View()), lib, table, size, 0)
              case Abort => r.Abort?
              case Continue(after) => r.Continue? && View() == after
    {
      hide StepEntry, DecodeEntry;
      if table == 0 || size == 0 {
        return Continue(());
      }
      var offset: nat := 0;
      while offset < size
        invariant Valid()
        invariant Relocation.ApplyTable(old(View()), lib, table, size, 0) ==
                    Relocation.ApplyTable(View(), lib, table, size, offset)
        decreases size - offset
      {
        var bytes := Read(mem, table + offset, RELA_SIZE);
        if bytes.None? {
          break;
        }
        var _ :- ApplyEntry(lib, DecodeEntry(bytes.value));
        offset := offset + RELA_SIZE;
      }
      return Continue(());
    }

    method ApplyRelocations(lib: Lib) returns (r: Outcome<()>)
      requires Valid()
      modifies this, heap
      ensures Valid()
      ensures match Relocation.ApplyRelocations(old(View()), lib)
              case Abort => r.Abort?
              case Continue(after) => r.Continue? && View() == after
    {
      hide Relocation.ApplyTable;
      var _ :- ApplyTable(lib, lib.rela, lib.relasz);
      r := ApplyTable(lib, lib.jmprel, lib.pltrelsz);
    }

    /** `relocate_all_vm_libraries`. */
    method RelocateAll() returns (r: Outcome<()>)
      requires Valid()
      modifies this, heap
      ensures Valid()
      ensures match LinkAll.RelocateFrom(old(View()), old(libs), 0)
              case Abort => r.Abort?
              case Continue(after) => r.Continue? && View() == after
    {
      hide Relocation.ApplyRelocations;
      var all := libs;
      var i := 0;
      while i < |all|
        invariant 0 <= i <= |all| && Valid()
        invariant LinkAll.RelocateFrom(old(View()), all, 0) == LinkAll.RelocateFrom(View(), all, i)
      {
        var _ :- ApplyRelocations(all[i]);
        i := i + 1;
      }
      return Continue(());
    }

    // Loading ---------------------------------------------------------------------------------

    static method FindSpan(phs: seq<Phdr>) returns (r: Range)
      ensures r == SpanOf(phs)
    {
      var lo: U64, hi: U64 := TWO64 - 1, 0;
      var i := 0;
      while i < |phs|
        invariant 0 <= i <= |phs|
        invariant Range(lo, hi) == SpanOf(phs[..i])
      {
        assert phs[..i + 1][..i] == phs[..i];
        if phs[i].kind == PT_LOAD {
          var start, end := SegStart(phs[i]), SegEnd(phs[i]);
          if start < lo {
            lo := start;
          }
          if end > hi {
            hi := end;
          }
        }
        i := i + 1;
      }
      assert phs[..i] == phs;
      r := Range(lo, hi);
    }

    /** The loop over the program headers that copies segments and notes the dynamic table. */
    method CopyHeaders(phs: seq<Phdr>, file: seq<Byte>, base: U64, lo: U64) returns (dynamicAddr: U64)
      requires Valid() && forall ph | ph in phs :: ContentsInFile(ph, file)
      modifies this`mem
      ensures mem == CopySegments(old(mem), base, lo, phs, file)
      ensures dynamicAddr == DynamicAddr(base, lo, phs)
    {
      hide CopySegment, ContentsInFile, Place;
      dynamicAddr := 0;
      var i := 0;
      while i < |phs|
        invariant 0 <= i <= |phs|
        invariant CopySegments(old(mem), base, lo, phs, file) == CopySegments(mem, base, lo, phs[i..], file)
        invariant dynamicAddr == DynamicAddr(base, lo, phs[..i])
      {
        assert phs[i..][0] == phs[i] && phs[i..][1..] == phs[i + 1..];
        assert phs[..i + 1][..i] == phs[..i];
        var ph := phs[i];
        if ph.kind == PT_LOAD {
          mem := CopyOne(mem, ph, file, base, lo);
        } else {
          NotLoaded(mem, base, lo, ph, file);
          if ph.kind == PT_DYNAMIC {
            dynamicAddr := Place(base, lo, ph);
          }
        }
        i := i + 1;
      }
      assert phs[..i] == phs;
    }

    static lemma NotLoaded(m: Mem, base: U64, lo: U64, ph: Phdr, file: seq<Byte>)
      requires ph.kind != PT_LOAD && ContentsInFile(ph, file)
      ensures CopySegment(m, base, lo, ph, file) == m
    {
    }

    static method CopyOne(before: Mem, ph: Phdr, file: seq<Byte>, base: U64, lo: U64) returns (m: Mem)
      requires ph.kind == PT_LOAD && ContentsInFile(ph, file)
      ensures m == CopySegment(before, base, lo, ph, file)
    {
      hide Write, Zeros, Place, Wrap;
      var dest := Place(base, lo, ph);
      m := before;
      if ph.filesz > 0 {
        m := Write(m, dest, file[ph.offset..ph.offset + ph.filesz]);
      }
      if ph.memsz > ph.filesz {
        m := Write(m, Wrap(dest + ph.filesz), Zeros(ph.memsz - ph.filesz));
      }
      assert Contents(ph, file) == if ph.filesz > 0 then file[ph.offset..ph.offset + ph.filesz] else [];
    }

    /** The loop over the dynamic table. */
    method ReadDynamic(lib0: Lib, at0: nat) returns (lib: Lib)
      ensures lib == ScanDynamic(mem, lib0, at0)
    {
      hide ApplyDyn, Word;
      lib := lib0;
      var at := at0;
      while true
        invariant ScanDynamic(mem, lib0, at0) == ScanDynamic(mem, lib, at)
        decreases TWO64 - at
      {
        var bytes := Read(mem, at, DYN_SIZE);
        if bytes.None? {
          break;
        }
        assert at in mem;
        var tag, val := Word(bytes.value[0..8]), Word(bytes.value[8..16]);
        if tag == DT_NULL {
          break;
        }
        lib := ApplyDyn(lib, tag, val);
        at := at + DYN_SIZE;
      }
    }

    /** The symbol scan.  It ends because memory is finite. */
    method ReadSymbols(lib: Lib) returns (symbols: map<string, U64>)
      ensures symbols == ScanSymbols(mem, lib, 0, map[])
    {
      hide NameAt, DecodeSym, VaddrIn, ScanSymbols, ScanEntry, Read;
      symbols := map[];
      var i: nat := 0;
      while true
        invariant ScanSymbols(mem, lib, 0, map[]) == ScanSymbols(mem, lib, i, symbols)
        decreases TWO64 - (lib.symtab + SYM_SIZE * i)
      {
        var at := lib.symtab + SYM_SIZE * i;
        ScanUnfolds(mem, lib, i, symbols);
        var bytes := Read(mem, at, SYM_SIZE);
        if bytes.None? {
          break;
        }
        var sym := DecodeSym(bytes.value);
        if sym.name < lib.strsz {
          var name := NameAt(mem, lib, sym.name);
          if name == "" {
            if i >= 4 && sym.value == 0 {
              break;
            }
          } else if sym.value != 0 {
            symbols := symbols[name := VaddrIn(lib, sym.value)];
          }
        }
        i := i + 1;
      }
    }

    /** One pass of the scan's loop. */
    static lemma ScanUnfolds(m: Mem, lib: Lib, i: nat, acc: map<string, U64>)
      ensures match ScanEntry(m, lib, i)
              case Stop => ScanSymbols(m, lib, i, acc) == acc
              case Skip => ScanSymbols(m, lib, i, acc) == ScanSymbols(m, lib, i + 1, acc)
              case Define(name, a) => ScanSymbols(m, lib, i, acc) == ScanSymbols(m, lib, i + 1, acc[name := a])
      ensures match Read(m, lib.symtab + SYM_SIZE * i, SYM_SIZE)
              case None => ScanEntry(m, lib, i) == Stop
              case Some(bs) =>
                && lib.symtab + SYM_SIZE * i < TWO64
                && var sym := DecodeSym(bs);
                   var name := NameAt(m, lib, sym.name);
                   ScanEntry(m, lib, i) ==
                     if sym.name >= lib.strsz then Skip
                     else if name == "" then (if i >= 4 && sym.value == 0 then Stop else Skip)
                     else if sym.value != 0 then Define(name, VaddrIn(lib, sym.value))
                     else Skip
    {
      hide NameAt, DecodeSym, VaddrIn;
      var at := lib.symtab + SYM_SIZE * i;
      assert Mapped(m, at, SYM_SIZE) ==> at in m;
    }

    method LoadLibrary(name: string, file: seq<Byte>) returns (r: Outcome<bool>)
      requires Valid() && InFile(file)
      modifies this, libraryAlloc
      ensures Valid()
      ensures match Image.LoadLibrary(old(View()), name, file)
              case Abort => r.Abort?
              case Continue((after, ok)) => r == Continue(ok) && View() == after
    {
      if !Recognised(file) {
        return Continue(false);
      }
      var phs := Phdrs(file);
      hide Phdrs, Recognised, SpanOf, Alloc, ContentsInFile;
      var range := FindSpan(phs);
      if range.lo >= range.hi {
        return Continue(false);
      }
      var base :- libraryAlloc.Allocate(range.hi - range.lo);
      var ok := PlaceAt(name, phs, file, base, range);
      return Continue(ok);
    }

    method PlaceAt(name: string, phs: seq<Phdr>, file: seq<Byte>, base: U64, range: Range) returns (ok: bool)
      requires Valid() && range.lo < range.hi && forall ph | ph in phs :: ContentsInFile(ph, file)
      modifies this
      ensures Valid()
      ensures (View(), ok) == PlaceLibrary(old(View()), name, phs, file, base, range)
    {
      hide MapRegion, CopySegments, ScanDynamic, ScanSymbols, ContentsInFile, DynamicAddr;
      var span := range.hi - range.lo;
      if base + span > TWO64 {
        return false;
      }
      mem := MapRegion(mem, base, span);
      var dynamicAddr := CopyHeaders(phs, file, base, range.lo);
      var lib := EmptyLib(name, base, range, dynamicAddr);
      if lib.dynamicAddr != 0 {
        lib := ReadDynamic(lib, lib.dynamicAddr);
      }
      if lib.symtab != 0 && lib.strtab != 0 && lib.strsz != 0 {
        var symbols := ReadSymbols(lib);
        lib := lib.(symbols := symbols);
      }
      libs := libs + [lib];
      return true;
    }
  }
}
