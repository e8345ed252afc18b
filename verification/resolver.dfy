/** `vm_resolve_symbol`, split into what it decides from memory and libraries
    alone and the binding step that changes the machine. */
module Resolver {
  import opened Words
  import opened GuestMemory
  import opened PageAlloc
  import opened VmState
  import opened SymbolNames

  datatype Sym = Sym(name: U32, info: Byte, shndx: nat, value: U64)

  const SYM_SIZE := 24
  const NAME_BUFFER := 255

  function DecodeSym(bs: seq<Byte>): Sym
    requires |bs| == SYM_SIZE
  {
    Sym(Half(bs[0..4]), bs[4], FromLE(bs[6..8]), Word(bs[8..16]))
  }

  function SymAt(m: Mem, lib: Lib, idx: U32): Option<Sym> {
    match Read(m, Wrap(lib.symtab + idx * SYM_SIZE), SYM_SIZE)
    case Some(bs) => Some(DecodeSym(bs))
    case None => None
  }

  /** The name buffer is zeroed, so an unreadable string table entry reads as "". */
  function NameAt(m: Mem, lib: Lib, name: U32): string {
    if name < lib.strsz then
      match Read(m, Wrap(lib.strtab + name), NAME_BUFFER)
      case Some(bs) => Chars(CString(bs))
      case None => ""
    else ""
  }

  /** Where a reference leads: an address in the referring library itself, the
      address some loaded library gives the name, a name to bind, or nowhere. */
  datatype Resolution =
    | Nowhere
    | Own(addr: U64)
    | Library(index: nat, addr: U64)
    | Unbound(name: string, isData: bool)

  function VaddrIn(lib: Lib, vaddr: U64): U64 {
    Wrap(lib.base + (vaddr - lib.minVaddr))
  }

  function Classify(m: Mem, libs: seq<Lib>, lib: Lib, idx: U32): Resolution {
    if lib.symtab == 0 || lib.strtab == 0 then Nowhere
    else
      match SymAt(m, lib, idx)
      case None => Nowhere
      case Some(sym) => ClassifySym(libs, lib, sym, NameAt(m, lib, sym.name))
  }

  function ClassifySym(libs: seq<Lib>, lib: Lib, sym: Sym, name: string): Resolution {
    if name == "" then Own(if sym.value != 0 then VaddrIn(lib, sym.value) else lib.base)
    else if sym.value != 0 && sym.shndx != 0 then Own(VaddrIn(lib, sym.value))
    else if name in lib.symbols then Own(lib.symbols[name])
    else
      match Lookup(libs, name)
      case Some((i, a)) => Library(i, a)
      case None => ClassifyRenamed(libs, sym, name, NdkName(name))
  }

  function ClassifyRenamed(libs: seq<Lib>, sym: Sym, name: string, converted: string): Resolution {
    var hit := if converted != name then Lookup(libs, converted) else None;
    match hit
    case Some((i, a)) => Library(i, a)
    case None => Unbound(name, IsData(sym.info % 16, name))
  }

  function Settle(st: State, r: Resolution): Outcome<(State, nat)> {
    match r
    case Nowhere => Continue((st, 0))
    case Own(a) => Continue((st, a))
    case Library(_, a) => Continue((st, a))
    case Unbound(name, isData) => Bind(st, name, isData)
  }

  function Resolve(st: State, lib: Lib, idx: U32): Outcome<(State, nat)> {
    Settle(st, Classify(st.mem, st.libs, lib, idx))
  }

  /** The address a resolution has under a set of bindings; zero while its name is unbound. */
  function Address(r: Resolution, imports: map<string, nat>): nat {
    match r
    case Nowhere => 0
    case Own(a) => a
    case Library(_, a) => a
    case Unbound(name, _) => if name in imports then imports[name] else 0
  }

  /** Bindings are only ever added. */
  ghost predicate Extends(before: map<string, nat>, after: map<string, nat>) {
    forall n | n in before :: n in after && after[n] == before[n]
  }

  lemma SettleBinds(st: State, r: Resolution)
    requires Settle(st, r).Continue?
    ensures var (after, a) := Settle(st, r).value;
            && Extends(st.imports, after.imports)
            && (r.Unbound? ==> r.name in after.imports)
            && a == Address(r, after.imports)
            && after.libs == st.libs && after.heap.alignment == st.heap.alignment
            && after.imports.Keys == st.imports.Keys + (if r.Unbound? then {r.name} else {})
  {
  }
}
