/** `apply_vm_relocations` against a declarative description of the image it leaves. */
module Relocation {
  import opened Words
  import opened GuestMemory
  import opened PageAlloc
  import opened VmState
  import opened Resolver

  const R_ABS64 := 257
  const R_GLOB_DAT := 1025
  const R_JUMP_SLOT := 1026
  const R_RELATIVE := 1027
  const RELA_SIZE := 24

  /** An `Elf64_Rela`; the signed addend is kept as its 64-bit pattern. */
  datatype Entry = Entry(offset: U64, kind: U32, sym: U32, addend: U64)

  function DecodeEntry(bs: seq<Byte>): Entry
    requires |bs| == RELA_SIZE
  {
    Entry(Word(bs[0..8]), Half(bs[8..12]), Half(bs[12..16]), Word(bs[16..24]))
  }

  predicate Symbolic(e: Entry) {
    e.kind == R_JUMP_SLOT || e.kind == R_GLOB_DAT || e.kind == R_ABS64
  }

  function Target(lib: Lib, e: Entry): U64 {
    VaddrIn(lib, e.offset)
  }

  function StoreWord(st: State, a: U64, v: U64): State {
    st.(mem := Write(st.mem, a, ToLE(v, 8)))
  }

  function StepEntry(st: State, lib: Lib, e: Entry): Outcome<State> {
    if e.kind == R_RELATIVE then
      Continue(StoreWord(st, Target(lib, e), VaddrIn(lib, e.addend)))
    else if Symbolic(e) then
      var (st1, a) :- Resolve(st, lib, e.sym);
      Continue(if a != 0 then StoreWord(st1, Target(lib, e), Wrap(a + e.addend)) else st1)
    else Continue(st)
  }

  /** The loop of `apply_table`: each entry is read from memory as the earlier ones left it. */
  function ApplyTable(st: State, lib: Lib, table: U64, size: U64, offset: nat): Outcome<State>
    decreases size - offset
  {
    if table == 0 || offset >= size then Continue(st)
    else
      match Read(st.mem, table + offset, RELA_SIZE)
      case None => Continue(st)
      case Some(bs) =>
        var st1 :- StepEntry(st, lib, DecodeEntry(bs));
        ApplyTable(st1, lib, table, size, offset + RELA_SIZE)
  }

  function ApplyRelocations(st: State, lib: Lib): Outcome<State> {
    var st1 :- ApplyTable(st, lib, lib.rela, lib.relasz, 0);
    ApplyTable(st1, lib, lib.jmprel, lib.pltrelsz, 0)
  }

  // The declarative side ------------------------------------------------------

  function EntriesFrom(m: Mem, table: U64, size: U64, offset: nat): seq<Entry>
    decreases size - offset
  {
    if table == 0 || offset >= size then []
    else
      match Read(m, table + offset, RELA_SIZE)
      case None => []
      case Some(bs) => [DecodeEntry(bs)] + EntriesFrom(m, table, size, offset + RELA_SIZE)
  }

  /** A mapped table of whole entries is read entry by entry. */
  lemma {:induction false} EntriesAt(m: Mem, table: U64, size: U64, offset: nat)
    requires table != 0 && Mapped(m, table, size) && size % RELA_SIZE == 0
    requires offset <= size && offset % RELA_SIZE == 0
    ensures var es := EntriesFrom(m, table, size, offset);
            && |es| == (size - offset) / RELA_SIZE
            && forall i | 0 <= i < |es| ::
                 && Mapped(m, table + offset + RELA_SIZE * i, RELA_SIZE)
                 && es[i] == DecodeEntry(Slice(m, table + offset + RELA_SIZE * i, RELA_SIZE))
    decreases size - offset
  {
    hide DecodeEntry;
    if offset < size {
      EntriesAt(m, table, size, offset + RELA_SIZE);
      var es, rest := EntriesFrom(m, table, size, offset), EntriesFrom(m, table, size, offset + RELA_SIZE);
      assert es == [DecodeEntry(Slice(m, table + offset, RELA_SIZE))] + rest;
      forall i | 0 <= i < |es|
        ensures Mapped(m, table + offset + RELA_SIZE * i, RELA_SIZE)
        ensures es[i] == DecodeEntry(Slice(m, table + offset + RELA_SIZE * i, RELA_SIZE))
      {
        if i > 0 {
          assert table + offset + RELA_SIZE * i == table + (offset + RELA_SIZE) + RELA_SIZE * (i - 1);
          assert es[i] == rest[i - 1];
        }
      }
    }
  }

  /** All entries of a library, in the order they are applied. */
  function Entries(m: Mem, lib: Lib): seq<Entry> {
    EntriesFrom(m, lib.rela, lib.relasz, 0) + EntriesFrom(m, lib.jmprel, lib.pltrelsz, 0)
  }

  /** Addresses of the tables relocation reads: RELA, JMPREL, symbols, strings. */
  ghost predicate InTables(lib: Lib, nsyms: nat, a: int) {
    || (lib.rela != 0 && lib.rela <= a < lib.rela + lib.relasz)
    || (lib.jmprel != 0 && lib.jmprel <= a < lib.jmprel + lib.pltrelsz)
    || (lib.symtab != 0 && lib.symtab <= a < lib.symtab + SYM_SIZE * nsyms)
    || (lib.strtab != 0 && lib.strtab <= a < lib.strtab + lib.strsz)
  }

  /** The tables lie below the heap, in whole entries, and the strings end with a zero byte. */
  ghost predicate TablesWellFormed(m: Mem, lib: Lib, nsyms: nat) {
    && (lib.rela != 0 ==> lib.relasz % RELA_SIZE == 0 && lib.rela + lib.relasz <= HEAP_ADDRESS)
    && (lib.jmprel != 0 ==> lib.pltrelsz % RELA_SIZE == 0 && lib.jmprel + lib.pltrelsz <= HEAP_ADDRESS)
    && (lib.symtab != 0 ==> lib.symtab + SYM_SIZE * nsyms <= HEAP_ADDRESS)
    && (lib.strtab != 0 ==> lib.strtab + lib.strsz <= HEAP_ADDRESS)
    && (lib.strtab != 0 && lib.strsz > 0 ==> lib.strtab + lib.strsz - 1 in m && m[lib.strtab + lib.strsz - 1] == 0)
  }

  ghost predicate TablesKept(m0: Mem, m: Mem, lib: Lib, nsyms: nat) {
    && m0.Keys == m.Keys
    && forall a | a in m0 && InTables(lib, nsyms, a) :: m[a] == m0[a]
  }

  predicate Active(e: Entry) {
    e.kind == R_RELATIVE || Symbolic(e)
  }

  /** An entry whose target word is mapped, below the heap and clear of the tables. */
  ghost predicate Clear(m: Mem, lib: Lib, nsyms: nat, e: Entry) {
    Active(e) ==>
      && (Symbolic(e) ==> e.sym < nsyms)
      && Target(lib, e) + 8 <= HEAP_ADDRESS
      && Mapped(m, Target(lib, e), 8)
      && forall a | Target(lib, e) <= a < Target(lib, e) + 8 :: !InTables(lib, nsyms, a)
  }

  predicate Apart(lib: Lib, e: Entry, f: Entry) {
    Active(e) && Active(f) ==> Target(lib, e) + 8 <= Target(lib, f) || Target(lib, f) + 8 <= Target(lib, e)
  }

  predicate PairwiseApart(lib: Lib, es: seq<Entry>) {
    forall i, j | 0 <= i < j < |es| :: Apart(lib, es[i], es[j])
  }

  /** The parts of the machine that binding a name relies on. */
  predicate LinkReady(st: State) {
    && HeapOk(st.heap)
    && st.next >= IMPORT_ADDRESS
  }

  /** What the tables say about an entry's symbol, before any relocation. */
  function Meaning(m0: Mem, libs: seq<Lib>, lib: Lib, e: Entry): Resolution {
    Classify(m0, libs, lib, e.sym)
  }

  predicate Bound(r: Resolution, imports: map<string, nat>) {
    r.Unbound? ==> r.name in imports
  }

  predicate Writes(m0: Mem, libs: seq<Lib>, lib: Lib, e: Entry, imports: map<string, nat>) {
    e.kind == R_RELATIVE || (Symbolic(e) && Address(Meaning(m0, libs, lib, e), imports) != 0)
  }

  /** The word an entry must leave: base + (A - min_vaddr), or S + A. */
  function Value(m0: Mem, libs: seq<Lib>, lib: Lib, e: Entry, imports: map<string, nat>): U64 {
    if e.kind == R_RELATIVE then Wrap(lib.base + e.addend - lib.minVaddr)
    else Wrap(Address(Meaning(m0, libs, lib, e), imports) + e.addend)
  }

  ghost predicate Relocated(m0: Mem, m: Mem, after: Mem, libs: seq<Lib>, lib: Lib, es: seq<Entry>,
                            imports: map<string, nat>) {
    && after.Keys == m.Keys
    && (forall i | 0 <= i < |es| && Symbolic(es[i]) :: Bound(Meaning(m0, libs, lib, es[i]), imports))
    && (forall i | 0 <= i < |es| && Writes(m0, libs, lib, es[i], imports) ::
          Read(after, Target(lib, es[i]), 8) == Some(ToLE(Value(m0, libs, lib, es[i], imports), 8)))
    && (forall a | a in m && a < HEAP_ADDRESS ::
          (forall i | 0 <= i < |es| && Writes(m0, libs, lib, es[i], imports) ::
             !(Target(lib, es[i]) <= a < Target(lib, es[i]) + 8))
          ==> after[a] == m[a])
  }

  function ApplyEntries(st: State, lib: Lib, es: seq<Entry>): Outcome<State>
    decreases |es|
  {
    if es == [] then Continue(st)
    else
      var st1 :- StepEntry(st, lib, es[0]);
      ApplyEntries(st1, lib, es[1..])
  }

  lemma TablesKeptSelf(m: Mem, lib: Lib, nsyms: nat)
    ensures TablesKept(m, m, lib, nsyms)
  {
  }

  // Names and symbols do not change while the tables are kept -------------------

  lemma NameKept(m0: Mem, m: Mem, lib: Lib, nsyms: nat, name: U32)
    requires TablesWellFormed(m0, lib, nsyms) && TablesKept(m0, m, lib, nsyms) && lib.strtab != 0
    ensures NameAt(m, lib, name) == NameAt(m0, lib, name)
  {
    hide CString, Chars;
    if name < lib.strsz {
      var a := lib.strtab + name;
      assert Mapped(m, a, NAME_BUFFER) == Mapped(m0, a, NAME_BUFFER);
      if Mapped(m0, a, NAME_BUFFER) {
        BufferKept(m0, m, lib, nsyms, name);
      }
    }
  }

  lemma BufferKept(m0: Mem, m: Mem, lib: Lib, nsyms: nat, name: U32)
    requires TablesWellFormed(m0, lib, nsyms) && TablesKept(m0, m, lib, nsyms) && lib.strtab != 0 && name < lib.strsz
    requires Mapped(m0, lib.strtab + name, NAME_BUFFER) && Mapped(m, lib.strtab + name, NAME_BUFFER)
    ensures CString(Slice(m, lib.strtab + name, NAME_BUFFER)) == CString(Slice(m0, lib.strtab + name, NAME_BUFFER))
  {
    hide CString;
    var a := lib.strtab + name;
    var n := lib.strsz - 1 - name;
    var b0, b := Slice(m0, a, NAME_BUFFER), Slice(m, a, NAME_BUFFER);
    forall i | 0 <= i < NAME_BUFFER && i <= n
      ensures b0[i] == b[i]
    {
      assert InTables(lib, nsyms, a + i);
    }
    if n < NAME_BUFFER {
      assert b0[n] == 0;
      CStringAgree(b0, b, n);
    } else {
      assert b0 == b;
    }
  }

  lemma ClassifyKept(m0: Mem, m: Mem, libs: seq<Lib>, lib: Lib, nsyms: nat, idx: U32)
    requires TablesWellFormed(m0, lib, nsyms) && TablesKept(m0, m, lib, nsyms) && idx < nsyms
    ensures Classify(m, libs, lib, idx) == Classify(m0, libs, lib, idx)
  {
    hide ClassifySym, NameAt, DecodeSym;
    if lib.symtab != 0 && lib.strtab != 0 {
      var a := lib.symtab + idx * SYM_SIZE;
      assert idx * SYM_SIZE + SYM_SIZE <= SYM_SIZE * nsyms;
      forall i | a <= i < a + SYM_SIZE
        ensures InTables(lib, nsyms, i)
      {
      }
      ReadAgree(m0, m, a, SYM_SIZE);
      match SymAt(m0, lib, idx)
      case None =>
      case Some(sym) => NameKept(m0, m, lib, nsyms, sym.name);
    }
  }

  // One entry -------------------------------------------------------------------

  /** Binding a name writes only at or above the heap. */
  lemma SettleFrame(st: State, r: Resolution)
    requires LinkReady(st) && Settle(st, r).Continue?
    ensures var after := Settle(st, r).value.0;
            && LinkReady(after) && after.libs == st.libs
            && after.mem.Keys == st.mem.Keys
            && forall a | a in st.mem && a < HEAP_ADDRESS :: after.mem[a] == st.mem[a]
  {
    if r.Unbound? && r.isData && r.name !in st.imports {
      HeapAlloc(st.heap, 256);
    }
  }

  /** Storing an entry's word changes that word alone. */
  lemma StoreFrame(m0: Mem, st: State, lib: Lib, nsyms: nat, e: Entry, v: U64)
    requires TablesKept(m0, st.mem, lib, nsyms) && Active(e) && Clear(m0, lib, nsyms, e)
    ensures var after := StoreWord(st, Target(lib, e), v);
            && TablesKept(m0, after.mem, lib, nsyms)
            && after.mem.Keys == st.mem.Keys
            && Read(after.mem, Target(lib, e), 8) == Some(ToLE(v, 8))
            && (forall a | a in st.mem && !(Target(lib, e) <= a < Target(lib, e) + 8) :: after.mem[a] == st.mem[a])
  {
    hide InTables, Target, ToLE, Symbolic;
    ReadAfterWrite(st.mem, Target(lib, e), ToLE(v, 8));
  }

  /** What a step of the loop is, once the tables are known to be intact. */
  lemma StepUnfolds(m0: Mem, st: State, lib: Lib, nsyms: nat, e: Entry)
    requires TablesWellFormed(m0, lib, nsyms) && TablesKept(m0, st.mem, lib, nsyms) && Clear(m0, lib, nsyms, e)
    ensures e.kind == R_RELATIVE ==>
              StepEntry(st, lib, e) == Continue(StoreWord(st, Target(lib, e), VaddrIn(lib, e.addend)))
    ensures Symbolic(e) ==>
              StepEntry(st, lib, e) ==
              match Settle(st, Meaning(m0, st.libs, lib, e))
              case Abort => Abort
              case Continue(r) =>
                Continue(if r.1 != 0 then StoreWord(r.0, Target(lib, e), Wrap(r.1 + e.addend)) else r.0)
    ensures !Active(e) ==> StepEntry(st, lib, e) == Continue(st)
  {
    hide Settle, Classify, Target, StoreWord, TablesWellFormed, TablesKept, InTables;
    if Symbolic(e) {
      ClassifyKept(m0, st.mem, st.libs, lib, nsyms, e.sym);
    }
  }

  ghost predicate Stepped(m0: Mem, st: State, after: State, lib: Lib, nsyms: nat, e: Entry) {
    && LinkReady(after) && after.libs == st.libs
    && TablesKept(m0, after.mem, lib, nsyms)
    && Extends(st.imports, after.imports)
    && (Symbolic(e) ==> Bound(Meaning(m0, st.libs, lib, e), after.imports))
    && after.mem.Keys == st.mem.Keys
    && (Writes(m0, st.libs, lib, e, after.imports) ==>
          Read(after.mem, Target(lib, e), 8) == Some(ToLE(Value(m0, st.libs, lib, e, after.imports), 8)))
    && (forall a | a in st.mem && a < HEAP_ADDRESS &&
          !(Writes(m0, st.libs, lib, e, after.imports) && Target(lib, e) <= a < Target(lib, e) + 8) ::
          after.mem[a] == st.mem[a])
  }

  lemma StepSpec(m0: Mem, st: State, lib: Lib, nsyms: nat, e: Entry)
    requires LinkReady(st) && TablesWellFormed(m0, lib, nsyms) && TablesKept(m0, st.mem, lib, nsyms)
    requires Clear(m0, lib, nsyms, e) && StepEntry(st, lib, e).Continue?
    ensures Stepped(m0, st, StepEntry(st, lib, e).value, lib, nsyms, e)
  {
    StepUnfolds(m0, st, lib, nsyms, e);
    hide StepEntry, HeapOk, Stepped, TablesWellFormed, TablesKept, Clear, Settle, StoreWord, Target, VaddrIn, Meaning;
    if e.kind == R_RELATIVE {
      StepRelative(m0, st, lib, nsyms, e);
    } else if Symbolic(e) {
      StepSymbolic(m0, st, lib, nsyms, e);
    } else {
      StepOther(m0, st, lib, nsyms, e);
    }
  }

  lemma StepOther(m0: Mem, st: State, lib: Lib, nsyms: nat, e: Entry)
    requires LinkReady(st) && TablesKept(m0, st.mem, lib, nsyms) && !Active(e)
    ensures Stepped(m0, st, st, lib, nsyms, e)
  {
  }

  lemma StepRelative(m0: Mem, st: State, lib: Lib, nsyms: nat, e: Entry)
    requires LinkReady(st) && TablesKept(m0, st.mem, lib, nsyms)
    requires Clear(m0, lib, nsyms, e) && e.kind == R_RELATIVE
    ensures Stepped(m0, st, StoreWord(st, Target(lib, e), VaddrIn(lib, e.addend)), lib, nsyms, e)
  {
    hide HeapOk, InTables, Target, ToLE, TablesKept, Clear, Meaning;
    var v := VaddrIn(lib, e.addend);
    assert v == Value(m0, st.libs, lib, e, st.imports);
    StoreFrame(m0, st, lib, nsyms, e, v);
  }

  lemma KeptBelowHeap(m0: Mem, m: Mem, m1: Mem, lib: Lib, nsyms: nat)
    requires TablesWellFormed(m0, lib, nsyms) && TablesKept(m0, m, lib, nsyms)
    requires m1.Keys == m.Keys && forall a | a in m && a < HEAP_ADDRESS :: m1[a] == m[a]
    ensures TablesKept(m0, m1, lib, nsyms)
  {
  }

  lemma StepSymbolic(m0: Mem, st: State, lib: Lib, nsyms: nat, e: Entry)
    requires LinkReady(st) && TablesWellFormed(m0, lib, nsyms) && TablesKept(m0, st.mem, lib, nsyms)
    requires Clear(m0, lib, nsyms, e) && Symbolic(e) && e.kind != R_RELATIVE
    requires Settle(st, Meaning(m0, st.libs, lib, e)).Continue?
    ensures var (st1, a) := Settle(st, Meaning(m0, st.libs, lib, e)).value;
            var after := if a != 0 then StoreWord(st1, Target(lib, e), Wrap(a + e.addend)) else st1;
            Stepped(m0, st, after, lib, nsyms, e)
  {
    hide Settle, HeapOk, InTables, Target, ToLE, Meaning, TablesWellFormed, TablesKept, Clear, Extends, Write, Read,
      Symbolic;
    var r := Meaning(m0, st.libs, lib, e);
    SettleFrame(st, r);
    SettleBinds(st, r);
    var (st1, a) := Settle(st, r).value;
    KeptBelowHeap(m0, st.mem, st1.mem, lib, nsyms);
    if a != 0 {
      StoreFrame(m0, st1, lib, nsyms, e, Wrap(a + e.addend));
      assert Value(m0, st.libs, lib, e, st1.imports) == Wrap(a + e.addend);
      assert Stepped(m0, st, StoreWord(st1, Target(lib, e), Wrap(a + e.addend)), lib, nsyms, e);
    } else {
      assert Stepped(m0, st, st1, lib, nsyms, e);
    }
  }

  // The whole list of entries -----------------------------------------------------

  lemma {:induction false} EntriesSpec(m0: Mem, st: State, lib: Lib, nsyms: nat, es: seq<Entry>)
    requires LinkReady(st) && TablesWellFormed(m0, lib, nsyms) && TablesKept(m0, st.mem, lib, nsyms)
    requires forall e | e in es :: Clear(m0, lib, nsyms, e)
    requires PairwiseApart(lib, es)
    requires ApplyEntries(st, lib, es).Continue?
    ensures var after := ApplyEntries(st, lib, es).value;
            && LinkReady(after) && after.libs == st.libs
            && TablesKept(m0, after.mem, lib, nsyms)
            && Extends(st.imports, after.imports)
            && Relocated(m0, st.mem, after.mem, st.libs, lib, es, after.imports)
    decreases |es|
  {
    if es != [] {
      var e, rest := es[0], es[1..];
      StepSpec(m0, st, lib, nsyms, e);
      var st1 := StepEntry(st, lib, e).value;
      assert PairwiseApart(lib, rest);
      EntriesSpec(m0, st1, lib, nsyms, rest);
      var after := ApplyEntries(st1, lib, rest).value;
      assert ApplyEntries(st, lib, es) == Continue(after);
      RelocatedCons(m0, st, st1, after, lib, nsyms, es);
    }
  }

  lemma ValueKept(m0: Mem, libs: seq<Lib>, lib: Lib, e: Entry, before: map<string, nat>, after: map<string, nat>)
    requires Extends(before, after)
    requires Symbolic(e) ==> Bound(Meaning(m0, libs, lib, e), before)
    ensures Symbolic(e) ==> Bound(Meaning(m0, libs, lib, e), after)
    ensures Writes(m0, libs, lib, e, before) == Writes(m0, libs, lib, e, after)
    ensures Active(e) ==> Value(m0, libs, lib, e, before) == Value(m0, libs, lib, e, after)
  {
    hide Classify;
  }

  lemma RelocatedCons(m0: Mem, st: State, st1: State, after: State, lib: Lib, nsyms: nat, es: seq<Entry>)
    requires es != [] && PairwiseApart(lib, es)
    requires forall e | e in es :: Clear(m0, lib, nsyms, e)
    requires m0.Keys == st.mem.Keys && Stepped(m0, st, st1, lib, nsyms, es[0])
    requires Extends(st1.imports, after.imports)
    requires Relocated(m0, st1.mem, after.mem, st.libs, lib, es[1..], after.imports)
    ensures Relocated(m0, st.mem, after.mem, st.libs, lib, es, after.imports)
  {
    hide Meaning, Bound, Value, Target, InTables, HeapOk, Symbolic, ToLE;
    var libs, imports := st.libs, after.imports;
    ValueKept(m0, libs, lib, es[0], st1.imports, imports);
    hide Writes, Extends, TablesKept;
    assert es[0] in es;
    if Writes(m0, libs, lib, es[0], imports) {
      HeadKept(m0, st1.mem, after.mem, libs, lib, nsyms, es, imports);
    }
    forall a | a in st.mem && a < HEAP_ADDRESS &&
               (forall i | 0 <= i < |es| && Writes(m0, libs, lib, es[i], imports) ::
                  !(Target(lib, es[i]) <= a < Target(lib, es[i]) + 8))
      ensures after.mem[a] == st.mem[a]
    {
      forall i | 0 <= i < |es[1..]| && Writes(m0, libs, lib, es[1..][i], imports)
        ensures !(Target(lib, es[1..][i]) <= a < Target(lib, es[1..][i]) + 8)
      {
        assert es[1..][i] == es[i + 1];
      }
      assert after.mem[a] == st1.mem[a];
    }
    forall i | 0 <= i < |es| && Symbolic(es[i])
      ensures Bound(Meaning(m0, libs, lib, es[i]), imports)
    {
      assert i > 0 ==> es[i] == es[1..][i - 1];
    }
    forall i | 0 <= i < |es| && Writes(m0, libs, lib, es[i], imports)
      ensures Read(after.mem, Target(lib, es[i]), 8) == Some(ToLE(Value(m0, libs, lib, es[i], imports), 8))
    {
      assert i > 0 ==> es[i] == es[1..][i - 1];
    }
  }

  /** The first entry's word survives the entries after it. */
  lemma HeadKept(m0: Mem, m: Mem, after: Mem, libs: seq<Lib>, lib: Lib, nsyms: nat, es: seq<Entry>,
                 imports: map<string, nat>)
    requires es != [] && PairwiseApart(lib, es)
    requires Clear(m0, lib, nsyms, es[0]) && Active(es[0]) && m0.Keys == m.Keys
    requires Relocated(m0, m, after, libs, lib, es[1..], imports)
    ensures Read(after, Target(lib, es[0]), 8) == Read(m, Target(lib, es[0]), 8)
  {
    hide Meaning, Bound, Value, Target, InTables, Symbolic, ToLE;
    var t := Target(lib, es[0]);
    forall a | t <= a < t + 8
      ensures after[a] == m[a]
    {
      forall i | 0 <= i < |es[1..]| && Writes(m0, libs, lib, es[1..][i], imports)
        ensures !(Target(lib, es[1..][i]) <= a < Target(lib, es[1..][i]) + 8)
      {
        assert es[1..][i] == es[i + 1];
        assert Apart(lib, es[0], es[i + 1]);
      }
    }
    ReadAgree(m, after, t, 8);
  }

  // From the loop to the list of entries ------------------------------------------

  /** Reading each entry from memory as it stands gives the entries that were there at the start. */
  lemma {:induction false} TableIsEntries(m0: Mem, st: State, lib: Lib, nsyms: nat, table: U64, size: U64, offset: nat)
    requires LinkReady(st) && TablesWellFormed(m0, lib, nsyms) && TablesKept(m0, st.mem, lib, nsyms)
    requires offset % RELA_SIZE == 0
    requires table != 0 ==> size % RELA_SIZE == 0 && forall a | table <= a < table + size :: InTables(lib, nsyms, a)
    requires forall e | e in EntriesFrom(m0, table, size, offset) :: Clear(m0, lib, nsyms, e)
    ensures ApplyTable(st, lib, table, size, offset) == ApplyEntries(st, lib, EntriesFrom(m0, table, size, offset))
    decreases size - offset
  {
    hide StepEntry, Clear, LinkReady, TablesWellFormed, DecodeEntry, InTables, TablesKept, Read;
    if table != 0 && offset < size {
      EntryKept(m0, st.mem, lib, nsyms, table, size, offset);
      match Read(m0, table + offset, RELA_SIZE)
      case None =>
      case Some(bs) =>
        var e, rest := DecodeEntry(bs), EntriesFrom(m0, table, size, offset + RELA_SIZE);
        var es := EntriesFrom(m0, table, size, offset);
        assert es == [e] + rest && es[0] == e && es[1..] == rest;
        assert e in es && forall f | f in rest :: f in es;
        if StepEntry(st, lib, e).Continue? {
          StepSpec(m0, st, lib, nsyms, e);
          TableIsEntries(m0, StepEntry(st, lib, e).value, lib, nsyms, table, size, offset + RELA_SIZE);
        }
    }
  }

  lemma EntryKept(m0: Mem, m: Mem, lib: Lib, nsyms: nat, table: U64, size: U64, offset: nat)
    requires TablesKept(m0, m, lib, nsyms)
    requires size % RELA_SIZE == 0 && offset % RELA_SIZE == 0 && offset < size
    requires forall a | table <= a < table + size :: InTables(lib, nsyms, a)
    ensures Read(m, table + offset, RELA_SIZE) == Read(m0, table + offset, RELA_SIZE)
  {
    hide InTables;
    assert offset + RELA_SIZE <= size;
    ReadAgree(m0, m, table + offset, RELA_SIZE);
  }

  lemma {:induction false} ApplyAppend(st: State, lib: Lib, es: seq<Entry>, fs: seq<Entry>)
    ensures ApplyEntries(st, lib, es + fs) ==
            match ApplyEntries(st, lib, es)
            case Abort => Abort
            case Continue(st1) => ApplyEntries(st1, lib, fs)
    decreases |es|
  {
    hide StepEntry;
    if es == [] {
      assert es + fs == fs;
    } else {
      assert (es + fs)[1..] == es[1..] + fs;
      if StepEntry(st, lib, es[0]).Continue? {
        ApplyAppend(StepEntry(st, lib, es[0]).value, lib, es[1..], fs);
      }
    }
  }

  /** A library whose tables are whole and well placed, and whose target words
      are clear of the tables and of one another. */
  ghost predicate Relocatable(m: Mem, lib: Lib, nsyms: nat) {
    && TablesWellFormed(m, lib, nsyms)
    && (forall e | e in Entries(m, lib) :: Clear(m, lib, nsyms, e))
    && PairwiseApart(lib, Entries(m, lib))
  }

  /** Relocation is a pass over the entries the library was loaded with. */
  lemma RelocationIsEntries(st: State, lib: Lib, nsyms: nat)
    requires LinkReady(st) && Relocatable(st.mem, lib, nsyms)
    ensures ApplyRelocations(st, lib) == ApplyEntries(st, lib, Entries(st.mem, lib))
  {
    hide StepEntry, Clear, HeapOk, TablesWellFormed, DecodeEntry, ApplyTable, ApplyEntries, EntriesFrom;
    var es := EntriesFrom(st.mem, lib.rela, lib.relasz, 0);
    var fs := EntriesFrom(st.mem, lib.jmprel, lib.pltrelsz, 0);
    TableSizes(st.mem, lib, nsyms);
    TableIsEntries(st.mem, st, lib, nsyms, lib.rela, lib.relasz, 0);
    ApplyAppend(st, lib, es, fs);
    if ApplyEntries(st, lib, es).Continue? {
      assert PairwiseApart(lib, es) by {
        assert forall i | 0 <= i < |es| :: es[i] == (es + fs)[i];
      }
      EntriesSpec(st.mem, st, lib, nsyms, es);
      TableIsEntries(st.mem, ApplyEntries(st, lib, es).value, lib, nsyms, lib.jmprel, lib.pltrelsz, 0);
    }
  }

  lemma TableSizes(m: Mem, lib: Lib, nsyms: nat)
    requires TablesWellFormed(m, lib, nsyms)
    ensures lib.rela != 0 ==> lib.relasz % RELA_SIZE == 0
    ensures lib.jmprel != 0 ==> lib.pltrelsz % RELA_SIZE == 0
  {
  }

  /** Main result: after `apply_vm_relocations`, every RELATIVE word is
      base + (A - min_vaddr), every symbolic word whose symbol resolves to a
      non-zero S is S + A, and every other byte below the heap is as loaded. */
  lemma RelocationMeetsSpec(st: State, lib: Lib, nsyms: nat)
    requires LinkReady(st) && Relocatable(st.mem, lib, nsyms)
    requires ApplyRelocations(st, lib).Continue?
    ensures var after := ApplyRelocations(st, lib).value;
            && Relocated(st.mem, st.mem, after.mem, st.libs, lib, Entries(st.mem, lib), after.imports)
            && Extends(st.imports, after.imports)
            && LinkReady(after) && after.libs == st.libs
  {
    hide Clear, HeapOk, TablesWellFormed, ApplyRelocations, ApplyEntries, Entries, Relocated, Extends;
    RelocationIsEntries(st, lib, nsyms);
    EntriesSpec(st.mem, st, lib, nsyms, Entries(st.mem, lib));
  }

  // The order of the entries ------------------------------------------------------

  /** A word whose name had no address before: it will hold a fresh one. */
  predicate Fresh(m0: Mem, libs: seq<Lib>, lib: Lib, e: Entry, imports: map<string, nat>) {
    Symbolic(e) && Meaning(m0, libs, lib, e).Unbound? && Meaning(m0, libs, lib, e).name !in imports
  }

  /** The names that entries bind. */
  ghost function NamesBound(m0: Mem, libs: seq<Lib>, lib: Lib, es: seq<Entry>): set<string> {
    set e | e in es && Symbolic(e) && Meaning(m0, libs, lib, e).Unbound? :: Meaning(m0, libs, lib, e).name
  }

  /** Addresses are handed out only at or above the heap. */
  predicate FreshHigh(before: map<string, nat>, after: map<string, nat>) {
    forall n | n in after && n !in before :: after[n] >= HEAP_ADDRESS
  }

  lemma SettleHigh(st: State, r: Resolution)
    requires LinkReady(st) && Settle(st, r).Continue?
    ensures FreshHigh(st.imports, Settle(st, r).value.0.imports)
  {
    if r.Unbound? && r.isData && r.name !in st.imports {
      HeapAlloc(st.heap, 256);
    }
  }

  lemma {:induction false} EntriesBind(m0: Mem, st: State, lib: Lib, nsyms: nat, es: seq<Entry>)
    requires LinkReady(st) && TablesWellFormed(m0, lib, nsyms) && TablesKept(m0, st.mem, lib, nsyms)
    requires forall e | e in es :: Clear(m0, lib, nsyms, e)
    requires ApplyEntries(st, lib, es).Continue?
    ensures var after := ApplyEntries(st, lib, es).value;
            && after.imports.Keys == st.imports.Keys + NamesBound(m0, st.libs, lib, es)
            && FreshHigh(st.imports, after.imports) && Extends(st.imports, after.imports)
    decreases |es|
  {
    hide LinkReady, TablesWellFormed, TablesKept, Clear, StepEntry, Settle, Meaning, NamesBound, FreshHigh;
    if es == [] {
      NoNames(m0, st, lib);
    } else {
      var e := es[0];
      assert e in es;
      StepSpec(m0, st, lib, nsyms, e);
      var st1 := StepEntry(st, lib, e).value;
      StepBinds(m0, st, lib, nsyms, e);
      EntriesBind(m0, st1, lib, nsyms, es[1..]);
      NamesCons(m0, st.libs, lib, es);
      HighTrans(st.imports, st1.imports, ApplyEntries(st1, lib, es[1..]).value.imports);
    }
  }

  lemma StepBinds(m0: Mem, st: State, lib: Lib, nsyms: nat, e: Entry)
    requires LinkReady(st) && TablesWellFormed(m0, lib, nsyms) && TablesKept(m0, st.mem, lib, nsyms)
    requires Clear(m0, lib, nsyms, e) && StepEntry(st, lib, e).Continue?
    ensures var st1 := StepEntry(st, lib, e).value;
            && st1.imports.Keys == st.imports.Keys + NamesBound(m0, st.libs, lib, [e])
            && FreshHigh(st.imports, st1.imports)
  {
    StepUnfolds(m0, st, lib, nsyms, e);
    OneName(m0, st.libs, lib, e);
    hide StepEntry, LinkReady, TablesWellFormed, TablesKept, Clear, Settle, Meaning, NamesBound, Target, Wrap, VaddrIn;
    if Symbolic(e) {
      SettleHigh(st, Meaning(m0, st.libs, lib, e));
      SettleBinds(st, Meaning(m0, st.libs, lib, e));
    }
  }

  lemma NoNames(m0: Mem, st: State, lib: Lib)
    ensures NamesBound(m0, st.libs, lib, []) == {} && FreshHigh(st.imports, st.imports)
  {
  }

  lemma OneName(m0: Mem, libs: seq<Lib>, lib: Lib, e: Entry)
    ensures NamesBound(m0, libs, lib, [e]) ==
            if Symbolic(e) && Meaning(m0, libs, lib, e).Unbound? then {Meaning(m0, libs, lib, e).name} else {}
  {
    hide Meaning;
    assert e in [e];
  }

  lemma NamesCons(m0: Mem, libs: seq<Lib>, lib: Lib, es: seq<Entry>)
    requires es != []
    ensures NamesBound(m0, libs, lib, es) == NamesBound(m0, libs, lib, [es[0]]) + NamesBound(m0, libs, lib, es[1..])
  {
    hide Meaning;
    assert forall e :: e in es <==> e in [es[0]] || e in es[1..];
  }

  lemma HighTrans(a: map<string, nat>, b: map<string, nat>, c: map<string, nat>)
    requires FreshHigh(a, b) && FreshHigh(b, c) && Extends(a, b) && Extends(b, c)
    ensures FreshHigh(a, c) && Extends(a, c)
  {
  }

  /** What two orders of the same entries have in common. */
  ghost predicate SameButFresh(m0: Mem, st: State, x: State, y: State, lib: Lib, es: seq<Entry>) {
    && x.mem.Keys == y.mem.Keys && x.imports.Keys == y.imports.Keys
    && (forall a | a in x.mem && a < HEAP_ADDRESS && !InFreshWord(m0, st, lib, es, a) :: x.mem[a] == y.mem[a])
    && (forall e | e in es && Fresh(m0, st.libs, lib, e, st.imports) ::
          FreshWordIs(m0, st, x, lib, e) && FreshWordIs(m0, st, y, lib, e))
  }

  ghost predicate InFreshWord(m0: Mem, st: State, lib: Lib, es: seq<Entry>, a: int) {
    exists e | e in es :: Fresh(m0, st.libs, lib, e, st.imports) && Target(lib, e) <= a < Target(lib, e) + 8
  }

  /** A fresh word holds its name's new address plus the addend. */
  predicate FreshWordIs(m0: Mem, st: State, x: State, lib: Lib, e: Entry) {
    match Meaning(m0, st.libs, lib, e)
    case Unbound(name, _) =>
      name in x.imports && Read(x.mem, Target(lib, e), 8) == Some(ToLE(Wrap(x.imports[name] + e.addend), 8))
    case _ => false
  }

  /** Main result: entry order matters only for the choice of fresh addresses.
      Two orders of the same entries bind the same names and leave the same
      bytes everywhere below the heap but in the words of names that had no
      address before, which hold each order's own address for the name. */
  lemma OrderIrrelevant(m0: Mem, st: State, lib: Lib, nsyms: nat, es: seq<Entry>, fs: seq<Entry>, x: State, y: State)
    requires LinkReady(st) && TablesWellFormed(m0, lib, nsyms) && TablesKept(m0, st.mem, lib, nsyms)
    requires forall e | e in es :: Clear(m0, lib, nsyms, e)
    requires PairwiseApart(lib, es) && PairwiseApart(lib, fs)
    requires forall e :: e in es <==> e in fs
    requires ApplyEntries(st, lib, es) == Continue(x) && ApplyEntries(st, lib, fs) == Continue(y)
    ensures SameButFresh(m0, st, x, y, lib, es)
  {
    hide HeapOk, TablesWellFormed, TablesKept, ApplyEntries, Meaning, Bound, Value, Target, InTables, Clear, Extends,
      Writes, PairwiseApart, Relocated, FreshHigh, Fresh, FreshWordIs, InFreshWord;
    EntriesSpec(m0, st, lib, nsyms, es);
    EntriesSpec(m0, st, lib, nsyms, fs);
    EntriesBind(m0, st, lib, nsyms, es);
    EntriesBind(m0, st, lib, nsyms, fs);
    SameNames(m0, st.libs, lib, es, fs);
    KeysOfRelocated(m0, st.mem, x.mem, st.libs, lib, es, x.imports);
    KeysOfRelocated(m0, st.mem, y.mem, st.libs, lib, fs, y.imports);
    forall a | a in x.mem && a < HEAP_ADDRESS && !InFreshWord(m0, st, lib, es, a)
      ensures x.mem[a] == y.mem[a]
    {
      OrdersAgree(m0, st, x, y, lib, es, fs, a);
    }
    forall e | e in es && Fresh(m0, st.libs, lib, e, st.imports)
      ensures FreshWordIs(m0, st, x, lib, e) && FreshWordIs(m0, st, y, lib, e)
    {
      FreshWord(m0, st, x, lib, es, e);
      FreshWord(m0, st, y, lib, fs, e);
    }
  }

  lemma KeysOfRelocated(m0: Mem, m: Mem, after: Mem, libs: seq<Lib>, lib: Lib, es: seq<Entry>,
                        imports: map<string, nat>)
    requires Relocated(m0, m, after, libs, lib, es, imports)
    ensures after.Keys == m.Keys
  {
  }

  lemma SameNames(m0: Mem, libs: seq<Lib>, lib: Lib, es: seq<Entry>, fs: seq<Entry>)
    requires forall e :: e in es <==> e in fs
    ensures NamesBound(m0, libs, lib, es) == NamesBound(m0, libs, lib, fs)
  {
    hide Meaning;
  }

  /** The word a fresh entry leaves. */
  lemma FreshWord(m0: Mem, st: State, x: State, lib: Lib, es: seq<Entry>, e: Entry)
    requires Relocated(m0, st.mem, x.mem, st.libs, lib, es, x.imports) && FreshHigh(st.imports, x.imports)
    requires e in es && Fresh(m0, st.libs, lib, e, st.imports)
    ensures FreshWordIs(m0, st, x, lib, e)
  {
    hide Meaning, Target, ToLE, Read;
    var i :| 0 <= i < |es| && es[i] == e;
    assert Bound(Meaning(m0, st.libs, lib, es[i]), x.imports);
  }

  /** Any other word is the same under the bindings of both orders. */
  lemma OldWord(m0: Mem, libs: seq<Lib>, lib: Lib, e: Entry, imports: map<string, nat>, after: map<string, nat>)
    requires Extends(imports, after) && Active(e) && !Fresh(m0, libs, lib, e, imports)
    ensures Writes(m0, libs, lib, e, after) == Writes(m0, libs, lib, e, imports)
    ensures Value(m0, libs, lib, e, after) == Value(m0, libs, lib, e, imports)
  {
    hide Classify;
  }

  /** An entry that writes over a byte, under the bindings there were at the start. */
  predicate OldWriteAt(m0: Mem, st: State, lib: Lib, e: Entry, a: int) {
    Writes(m0, st.libs, lib, e, st.imports) && Target(lib, e) <= a < Target(lib, e) + 8
  }

  /** What one order leaves at a byte outside fresh words: what some old entry writes there, or the byte before. */
  lemma OrderByte(m0: Mem, st: State, x: State, lib: Lib, es: seq<Entry>, a: int)
    requires Relocated(m0, st.mem, x.mem, st.libs, lib, es, x.imports) && Extends(st.imports, x.imports)
    requires a in st.mem && a < HEAP_ADDRESS && !InFreshWord(m0, st, lib, es, a)
    ensures a in x.mem
    ensures forall e | e in es && OldWriteAt(m0, st, lib, e, a) ::
              x.mem[a] == ToLE(Value(m0, st.libs, lib, e, st.imports), 8)[a - Target(lib, e)]
    ensures (forall e | e in es :: !OldWriteAt(m0, st, lib, e, a)) ==> x.mem[a] == st.mem[a]
  {
    hide Meaning, Bound, Value, Target, ToLE, Extends, Fresh, Writes;
    forall e | e in es && Target(lib, e) <= a < Target(lib, e) + 8
      ensures OldWriteAt(m0, st, lib, e, a) <==> Writes(m0, st.libs, lib, e, x.imports)
      ensures OldWriteAt(m0, st, lib, e, a) ==>
                Value(m0, st.libs, lib, e, x.imports) == Value(m0, st.libs, lib, e, st.imports)
    {
      assert !Fresh(m0, st.libs, lib, e, st.imports);
      OldEntry(m0, st.libs, lib, e, st.imports, x.imports);
    }
    forall e | e in es && OldWriteAt(m0, st, lib, e, a)
      ensures x.mem[a] == ToLE(Value(m0, st.libs, lib, e, st.imports), 8)[a - Target(lib, e)]
    {
      var i :| 0 <= i < |es| && es[i] == e;
      var t := Target(lib, e);
      assert Read(x.mem, t, 8) == Some(ToLE(Value(m0, st.libs, lib, e, x.imports), 8));
      assert x.mem[a] == Slice(x.mem, t, 8)[a - t];
    }
    if forall e | e in es :: !OldWriteAt(m0, st, lib, e, a) {
      assert forall i | 0 <= i < |es| :: es[i] in es;
    }
  }

  lemma OldEntry(m0: Mem, libs: seq<Lib>, lib: Lib, e: Entry, imports: map<string, nat>, after: map<string, nat>)
    requires Extends(imports, after) && !Fresh(m0, libs, lib, e, imports)
    ensures Writes(m0, libs, lib, e, imports) == Writes(m0, libs, lib, e, after)
    ensures Writes(m0, libs, lib, e, imports) ==> Value(m0, libs, lib, e, after) == Value(m0, libs, lib, e, imports)
  {
    hide Meaning, Value, Extends, Fresh;
    if Active(e) {
      OldWord(m0, libs, lib, e, imports, after);
    }
  }

  lemma OrdersAgree(m0: Mem, st: State, x: State, y: State, lib: Lib, es: seq<Entry>, fs: seq<Entry>, a: int)
    requires Relocated(m0, st.mem, x.mem, st.libs, lib, es, x.imports) && Extends(st.imports, x.imports)
    requires Relocated(m0, st.mem, y.mem, st.libs, lib, fs, y.imports) && Extends(st.imports, y.imports)
    requires forall e :: e in es <==> e in fs
    requires a in st.mem && a < HEAP_ADDRESS && !InFreshWord(m0, st, lib, es, a)
    ensures a in x.mem && a in y.mem && x.mem[a] == y.mem[a]
  {
    hide Relocated, Extends, OldWriteAt, Value, Target, ToLE, Fresh;
    OrderByte(m0, st, x, lib, es, a);
    OrderByte(m0, st, y, lib, fs, a);
    if e :| e in es && OldWriteAt(m0, st, lib, e, a) {
      assert e in fs;
    }
  }

  lemma WritesActive(m0: Mem, libs: seq<Lib>, lib: Lib, e: Entry, imports: map<string, nat>)
    requires Writes(m0, libs, lib, e, imports)
    ensures Active(e)
  {
  }
}
