/** The virtual machine's state and the import registry. */
module VmState {
  import opened Words
  import opened GuestMemory
  import opened PageAlloc

  const HEAP_ADDRESS: U64 := 0x4800_0000
  const HEAP_SIZE: U64 := 0x2000_0000
  const STACK_ADDRESS: U64 := 0x7000_0000
  const STACK_SIZE: U64 := 0x100_0000
  const IMPORT_ADDRESS: U64 := 0x8000_0000
  const IMPORT_SIZE: U64 := 0x1_0000
  const LIBRARY_ADDRESS: U64 := 0x1000_0000
  const LIBRARY_SIZE: U64 := 0x3000_0000
  const ERRNO_ADDRESS: U64 := 0x3FF0_0000
  const GRANULE: U64 := 0x1_0000

  /** `ret` in AArch64. */
  const RET_WORD: U32 := 0xD65F_03C0
  const RET_BYTES: seq<Byte> := ToLE(RET_WORD, 4)

  datatype Lib = Lib(
    name: string, base: U64, minVaddr: U64, maxVaddr: U64, dynamicAddr: U64,
    symtab: U64, strtab: U64, strsz: U64, rel: U64, relsz: U64, rela: U64, relasz: U64,
    jmprel: U64, pltrelsz: U64, initFunc: U64, initArray: U64, initArraysz: U64,
    symbols: map<string, U64>)

  /** `next` counts without a 64-bit bound; everything else is a machine word. */
  datatype State = State(
    mem: Mem, heap: Arena, libAlloc: Arena,
    imports: map<string, nat>, stubs: map<nat, string>, next: nat,
    libs: seq<Lib>)

  /** The heap's allocator: 64-byte blocks in the fixed heap range. */
  predicate HeapOk(ar: Arena) {
    && ar.base == HEAP_ADDRESS && ar.size == HEAP_SIZE && ar.alignment == 64
    && ar.offset <= HEAP_SIZE && ar.offset % 64 == 0
  }

  lemma HeapAlloc(ar: Arena, bytes: U64)
    requires HeapOk(ar) && Alloc(ar, bytes).Continue?
    ensures var (p, after) := Alloc(ar, bytes).value;
            && HeapOk(after)
            && p == HEAP_ADDRESS + ar.offset && p % 64 == 0
            && (NoWrap(ar, bytes) ==> ar.offset < after.offset && p + bytes <= HEAP_ADDRESS + after.offset)
  {
    assert ValidArena(ar);
    AllocKeepsValid(ar, bytes);
    AllocSafeIffNoWrap(ar, bytes, Alloc(ar, bytes).value.0, Alloc(ar, bytes).value.1);
  }

  function Zeros(n: nat): (z: seq<Byte>)
    ensures |z| == n && forall i | 0 <= i < n :: z[i] == 0
  {
    seq(n, _ => 0)
  }

  lemma ZeroWord()
    ensures Word(Zeros(8)) == 0
  {
    WordRoundTrip(0);
    assert ToLE(0, 8) == Zeros(8);
  }

  function RegisterImport(st: State, name: string): (r: (State, nat)) {
    if name in st.imports then (st, st.imports[name])
    else
      (st.(next := st.next + 8,
           mem := Write(st.mem, st.next, RET_BYTES),
           imports := st.imports[name := st.next],
           stubs := st.stubs[st.next := name]),
       st.next)
  }

  function RegisterData(st: State, name: string): Outcome<(State, nat)> {
    if name in st.imports then Continue((st, st.imports[name]))
    else
      var (p, heap) :- Alloc(st.heap, 256);
      Continue((st.(heap := heap,
                    mem := Write(st.mem, p, Zeros(256)),
                    imports := st.imports[name := p]),
                p))
  }

  function Bind(st: State, name: string, isData: bool): Outcome<(State, nat)> {
    if isData then RegisterData(st, name) else Continue(RegisterImport(st, name))
  }

  /** The first library, in load order, that defines a name. */
  function Lookup(libs: seq<Lib>, name: string): (r: Option<(nat, U64)>)
    ensures r.Some? ==>
              && r.value.0 < |libs|
              && name in libs[r.value.0].symbols
              && r.value.1 == libs[r.value.0].symbols[name]
              && forall j | 0 <= j < r.value.0 :: name !in libs[j].symbols
    ensures r.None? ==> forall j | 0 <= j < |libs| :: name !in libs[j].symbols
  {
    LookupFrom(libs, name, 0)
  }

  function LookupFrom(libs: seq<Lib>, name: string, from: nat): (r: Option<(nat, U64)>)
    requires from <= |libs|
    ensures r.Some? ==>
              && from <= r.value.0 < |libs|
              && name in libs[r.value.0].symbols
              && r.value.1 == libs[r.value.0].symbols[name]
              && forall j | from <= j < r.value.0 :: name !in libs[j].symbols
    ensures r.None? ==> forall j | from <= j < |libs| :: name !in libs[j].symbols
    decreases |libs| - from
  {
    if from == |libs| then None
    else if name in libs[from].symbols then Some((from, libs[from].symbols[name]))
    else LookupFrom(libs, name, from + 1)
  }

  /** `get_vm_symbol_address`: zero when no library defines the name. */
  function SymbolAddress(libs: seq<Lib>, name: string): U64 {
    match Lookup(libs, name)
    case Some((_, a)) => a
    case None => 0
  }

  /** `hook_dlsym` once the name is read from guest memory. */
  function Dlsym(st: State, name: string): (State, nat) {
    var a := SymbolAddress(st.libs, name);
    if a != 0 then (st, a) else RegisterImport(st, name)
  }
}
