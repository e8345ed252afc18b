/** The host loader's relocation pass: what repeating it does, and when binding
    late equals binding early. */
module HostRelocation {
  import opened Words
  import opened GuestMemory
  import opened SymbolNames
  import opened Resolver
  import opened Relocation

  // Raw memory: the host dereferences pointers directly ----------------------------------------

  /** Bytes at an address; an unmapped byte, which the process never reads, counts as zero. */
  function Peek(m: Mem, a: int, n: nat): (bs: seq<Byte>)
    ensures |bs| == n
  {
    seq(n, i requires 0 <= i < n => if a + i in m then m[a + i] else 0)
  }

  function Poke(m: Mem, a: int, bs: seq<Byte>): (r: Mem)
    ensures r.Keys == m.Keys
  {
    map x | x in m :: if a <= x < a + |bs| then bs[x - a] else m[x]
  }

  lemma PeekAgree(m0: Mem, m: Mem, a: int, n: nat)
    requires m.Keys == m0.Keys && forall x | a <= x < a + n && x in m0 :: m[x] == m0[x]
    ensures Peek(m, a, n) == Peek(m0, a, n)
  {
  }

  function PeekWord(m: Mem, a: int): U64 {
    Word(Peek(m, a, 8))
  }

  // A loaded library as the pass sees it -----------------------------------------------------------

  const DT_REL: U64 := 17
  const REL_SIZE := 16

  datatype Loader = Loader(
    base: U64, symtab: U64, strtab: U64, symCount: nat, exports: map<string, U64>,
    rela: U64, relasz: U64, rel: U64, relsz: U64, jmprel: U64, pltrelsz: U64, pltrelKind: U64)

  /** What lies outside the loaders: the host's hooks and the stub for unresolved names. */
  datatype Host = Host(hooks: string -> U64, dummyStub: U64)

  /** The first map that has the name, the library's own before its siblings'. */
  function FindExport(maps: seq<map<string, U64>>, name: string): Option<U64> {
    if maps == [] then None
    else if name in maps[0] then Some(maps[0][name])
    else FindExport(maps[1..], name)
  }

  function HostSym(m: Mem, ld: Loader, idx: U32): Sym {
    DecodeSym(Peek(m, ld.symtab + SYM_SIZE * idx, SYM_SIZE))
  }

  function HostName(m: Mem, ld: Loader, name: U32): string {
    Chars(CStringAt(m, ld.strtab + name))
  }

  function ResolveHost(m: Mem, ld: Loader, siblings: seq<map<string, U64>>, host: Host, idx: U32): U64 {
    if idx >= ld.symCount then 0
    else
      var sym := HostSym(m, ld, idx);
      if sym.value != 0 then Wrap(ld.base + sym.value)
      else ResolveHostName(ld, siblings, host, HostName(m, ld, sym.name))
  }

  function ResolveHostName(ld: Loader, siblings: seq<map<string, U64>>, host: Host, name: string): U64 {
    var maps := [ld.exports] + siblings;
    var direct := if name != "" then FindExport(maps, name) else None;
    var renamed := if name != "" && NdkName(name) != name then FindExport(maps, NdkName(name)) else None;
    match direct
    case Some(a) => a
    case None =>
      match renamed
      case Some(a) => a
      case None => if host.hooks(name) != 0 then host.hooks(name) else host.dummyStub
  }

  /** A REL or RELA entry; a REL entry's addend is the word it relocates. */
  datatype HostEntry = HostEntry(offset: U64, kind: U32, sym: U32, addend: Option<U64>)

  predicate Relocates(e: HostEntry) {
    e.kind == R_RELATIVE || e.kind == R_ABS64 || e.kind == R_GLOB_DAT || e.kind == R_JUMP_SLOT
  }

  function HostTarget(ld: Loader, e: HostEntry): U64 {
    Wrap(ld.base + e.offset)
  }

  /** The word an entry leaves, given its symbol's address and the word before. */
  function Effect(ld: Loader, e: HostEntry, s: U64, before: U64): U64 {
    var addend := match e.addend case Some(a) => a case None => before;
    if e.kind == R_RELATIVE then Wrap(ld.base + addend)
    else if e.kind == R_ABS64 then Wrap(s + addend)
    else s
  }

  function HostStep(m: Mem, ld: Loader, siblings: seq<map<string, U64>>, host: Host, e: HostEntry): (r: Mem)
    ensures r.Keys == m.Keys
  {
    if Relocates(e) then
      var t := HostTarget(ld, e);
      Poke(m, t, ToLE(Effect(ld, e, ResolveHost(m, ld, siblings, host, e.sym), PeekWord(m, t)), 8))
    else m
  }

  datatype TableKind = Rela | Rel

  function EntrySize(k: TableKind): nat {
    if k.Rela? then RELA_SIZE else REL_SIZE
  }

  function HostEntryAt(m: Mem, k: TableKind, table: U64, i: nat): HostEntry {
    if k.Rela? then
      var e := DecodeEntry(Peek(m, table + RELA_SIZE * i, RELA_SIZE));
      HostEntry(e.offset, e.kind, e.sym, Some(e.addend))
    else
      var bs := Peek(m, table + REL_SIZE * i, REL_SIZE);
      HostEntry(Word(bs[0..8]), Half(bs[8..12]), Half(bs[12..16]), None)
  }

  /** One table, each entry read from memory as the earlier ones left it. */
  function HostTable(m: Mem, ld: Loader, siblings: seq<map<string, U64>>, host: Host, k: TableKind, table: U64,
                     count: nat, i: nat): (r: Mem)
    ensures r.Keys == m.Keys
    decreases count - i
  {
    if table == 0 || i >= count then m
    else
      HostTable(HostStep(m, ld, siblings, host, HostEntryAt(m, k, table, i)), ld, siblings, host, k, table, count,
        i + 1)
  }

  function JmprelKind(ld: Loader): TableKind {
    if ld.pltrelKind == DT_REL then Rel else Rela
  }

  /** `ElfLoader::relocate` on memory: RELA, then REL, then JMPREL. */
  function Pass(m: Mem, ld: Loader, siblings: seq<map<string, U64>>, host: Host): (r: Mem)
    ensures r.Keys == m.Keys
  {
    if ld.base == 0 || ld.symtab == 0 || ld.strtab == 0 then m
    else
      var m1 := HostTable(m, ld, siblings, host, Rela, ld.rela, ld.relasz / RELA_SIZE, 0);
      var m2 := HostTable(m1, ld, siblings, host, Rel, ld.rel, ld.relsz / REL_SIZE, 0);
      HostTable(m2, ld, siblings, host, JmprelKind(ld), ld.jmprel, ld.pltrelsz / EntrySize(JmprelKind(ld)), 0)
  }

  // The entries as loaded -----------------------------------------------------------------------------

  function TableEntries(m: Mem, k: TableKind, table: U64, count: nat, i: nat): seq<HostEntry>
    decreases count - i
  {
    if table == 0 || i >= count then [] else [HostEntryAt(m, k, table, i)] + TableEntries(m, k, table, count, i + 1)
  }

  function AllEntries(m: Mem, ld: Loader): seq<HostEntry> {
    if ld.base == 0 || ld.symtab == 0 || ld.strtab == 0 then []
    else
      TableEntries(m, Rela, ld.rela, ld.relasz / RELA_SIZE, 0)
      + TableEntries(m, Rel, ld.rel, ld.relsz / REL_SIZE, 0)
      + TableEntries(m, JmprelKind(ld), ld.jmprel, ld.pltrelsz / EntrySize(JmprelKind(ld)), 0)
  }

  ghost predicate InHostTables(ld: Loader, strsz: nat, a: int) {
    || (ld.rela != 0 && ld.rela <= a < ld.rela + ld.relasz)
    || (ld.rel != 0 && ld.rel <= a < ld.rel + ld.relsz)
    || (ld.jmprel != 0 && ld.jmprel <= a < ld.jmprel + ld.pltrelsz)
    || ld.symtab <= a < ld.symtab + SYM_SIZE * ld.symCount
    || ld.strtab <= a < ld.strtab + strsz
  }

  /** Every symbol's name ends inside the strings. */
  ghost predicate HostTablesOk(m: Mem, ld: Loader, strsz: nat) {
    forall idx: U32 | idx < ld.symCount ::
         var sym := HostSym(m, ld, idx);
         sym.name < strsz && |CStringAt(m, ld.strtab + sym.name)| < strsz - sym.name
  }

  ghost predicate HostKept(m0: Mem, m: Mem, ld: Loader, strsz: nat) {
    && m.Keys == m0.Keys
    && forall a | a in m0 && InHostTables(ld, strsz, a) :: m[a] == m0[a]
  }

  /** No entry writes into the tables the pass reads. */
  ghost predicate TargetsClear(ld: Loader, strsz: nat, es: seq<HostEntry>) {
    forall e | e in es && Relocates(e) ::
      forall a | HostTarget(ld, e) <= a < HostTarget(ld, e) + 8 :: !InHostTables(ld, strsz, a)
  }

  ghost predicate Safe(m: Mem, ld: Loader, strsz: nat) {
    HostTablesOk(m, ld, strsz) && TargetsClear(ld, strsz, AllEntries(m, ld))
  }

  /** An entry's symbol address, as the tables gave it before any pass. */
  function SymbolOf(m0: Mem, ld: Loader, siblings: seq<map<string, U64>>, host: Host, e: HostEntry): U64 {
    ResolveHost(m0, ld, siblings, host, e.sym)
  }

  function StepFrom(m0: Mem, m: Mem, ld: Loader, siblings: seq<map<string, U64>>, host: Host, e: HostEntry): (r: Mem)
    ensures r.Keys == m.Keys
  {
    if Relocates(e) then
      var t := HostTarget(ld, e);
      Poke(m, t, ToLE(Effect(ld, e, SymbolOf(m0, ld, siblings, host, e), PeekWord(m, t)), 8))
    else m
  }

  function StepsFrom(m0: Mem, m: Mem, ld: Loader, siblings: seq<map<string, U64>>, host: Host,
                     es: seq<HostEntry>): (r: Mem)
    ensures r.Keys == m.Keys
    decreases |es|
  {
    if es == [] then m else StepsFrom(m0, StepFrom(m0, m, ld, siblings, host, es[0]), ld, siblings, host, es[1..])
  }

  // Reads of intact tables -----------------------------------------------------------------------------

  lemma SymKept(m0: Mem, m: Mem, ld: Loader, strsz: nat, idx: U32)
    requires HostKept(m0, m, ld, strsz) && idx < ld.symCount
    ensures HostSym(m, ld, idx) == HostSym(m0, ld, idx)
  {
    hide DecodeSym, Peek;
    var a := ld.symtab + SYM_SIZE * idx;
    assert SYM_SIZE * idx + SYM_SIZE <= SYM_SIZE * ld.symCount;
    assert forall x | a <= x < a + SYM_SIZE :: InHostTables(ld, strsz, x);
    PeekAgree(m0, m, a, SYM_SIZE);
  }

  lemma {:induction false} CStringKept(m0: Mem, m: Mem, a: int, end: int)
    requires m.Keys == m0.Keys && a + |CStringAt(m0, a)| < end
    requires forall x | a <= x < end && x in m0 :: m[x] == m0[x]
    ensures CStringAt(m, a) == CStringAt(m0, a)
    decreases TWO64 - a
  {
    if a in m0 && m0[a] != 0 {
      assert CStringAt(m0, a) == [m0[a]] + CStringAt(m0, a + 1);
      CStringKept(m0, m, a + 1, end);
    }
  }

  lemma ResolveKept(m0: Mem, m: Mem, ld: Loader, strsz: nat, siblings: seq<map<string, U64>>, host: Host, idx: U32)
    requires HostKept(m0, m, ld, strsz) && HostTablesOk(m0, ld, strsz)
    ensures ResolveHost(m, ld, siblings, host, idx) == ResolveHost(m0, ld, siblings, host, idx)
  {
    hide HostSym, HostName, ResolveHostName, HostKept, CStringAt;
    if idx < ld.symCount {
      SymKept(m0, m, ld, strsz, idx);
      HostNameKept(m0, m, ld, strsz, HostSym(m0, ld, idx).name);
    }
  }

  lemma HostNameKept(m0: Mem, m: Mem, ld: Loader, strsz: nat, name: U32)
    requires HostKept(m0, m, ld, strsz)
    requires name < strsz && |CStringAt(m0, ld.strtab + name)| < strsz - name
    ensures HostName(m, ld, name) == HostName(m0, ld, name)
  {
    hide CStringAt, Chars, HostKept, InHostTables;
    KeptStrings(m0, m, ld, strsz);
    CStringKept(m0, m, ld.strtab + name, ld.strtab + strsz);
  }

  lemma KeptStrings(m0: Mem, m: Mem, ld: Loader, strsz: nat)
    requires HostKept(m0, m, ld, strsz)
    ensures m.Keys == m0.Keys
    ensures forall x | ld.strtab <= x < ld.strtab + strsz && x in m0 :: m[x] == m0[x]
  {
    assert forall x | ld.strtab <= x < ld.strtab + strsz :: InHostTables(ld, strsz, x);
  }

  lemma EntryAtKept(m0: Mem, m: Mem, ld: Loader, strsz: nat, k: TableKind, table: U64, size: U64, i: nat)
    requires HostKept(m0, m, ld, strsz) && i < size / EntrySize(k)
    requires forall a | table <= a < table + size :: InHostTables(ld, strsz, a)
    ensures HostEntryAt(m, k, table, i) == HostEntryAt(m0, k, table, i)
  {
    hide DecodeEntry, Peek, InHostTables, Word, Half;
    var n := EntrySize(k);
    assert table + n * i + n <= table + size;
    PeekAgree(m0, m, table + n * i, n);
  }

  lemma StepKeeps(m0: Mem, m: Mem, ld: Loader, strsz: nat, siblings: seq<map<string, U64>>, host: Host, e: HostEntry)
    requires HostKept(m0, m, ld, strsz) && HostTablesOk(m0, ld, strsz) && TargetsClear(ld, strsz, [e])
    ensures HostStep(m, ld, siblings, host, e) == StepFrom(m0, m, ld, siblings, host, e)
    ensures HostKept(m0, StepFrom(m0, m, ld, siblings, host, e), ld, strsz)
  {
    ResolveKept(m0, m, ld, strsz, siblings, host, e.sym);
    hide ResolveHost, HostTablesOk, Effect, PeekWord, HostTarget, ToLE, InHostTables;
    assert e in [e];
  }

  lemma {:induction false} TableIsSteps(m0: Mem, m: Mem, ld: Loader, strsz: nat, siblings: seq<map<string, U64>>,
                                        host: Host, k: TableKind, table: U64, size: U64, i: nat)
    requires HostKept(m0, m, ld, strsz) && HostTablesOk(m0, ld, strsz)
    requires table != 0 ==> forall a | table <= a < table + size :: InHostTables(ld, strsz, a)
    requires TargetsClear(ld, strsz, TableEntries(m0, k, table, size / EntrySize(k), i))
    ensures var es := TableEntries(m0, k, table, size / EntrySize(k), i);
            && HostTable(m, ld, siblings, host, k, table, size / EntrySize(k), i) ==
                 StepsFrom(m0, m, ld, siblings, host, es)
            && HostKept(m0, StepsFrom(m0, m, ld, siblings, host, es), ld, strsz)
    decreases size / EntrySize(k) - i
  {
    hide HostKept, HostTablesOk, HostStep, StepFrom, HostEntryAt, InHostTables, HostTarget;
    if table != 0 && i < size / EntrySize(k) {
      var es := TableEntries(m0, k, table, size / EntrySize(k), i);
      var e := HostEntryAt(m0, k, table, i);
      assert es[0] == e && es[1..] == TableEntries(m0, k, table, size / EntrySize(k), i + 1);
      assert e in es;
      EntryAtKept(m0, m, ld, strsz, k, table, size, i);
      StepKeeps(m0, m, ld, strsz, siblings, host, e);
      TableIsSteps(m0, StepFrom(m0, m, ld, siblings, host, e), ld, strsz, siblings, host, k, table, size, i + 1);
    }
  }

  lemma {:induction false} StepsAppend(m0: Mem, m: Mem, ld: Loader, siblings: seq<map<string, U64>>, host: Host,
                                       es: seq<HostEntry>, fs: seq<HostEntry>)
    ensures StepsFrom(m0, m, ld, siblings, host, es + fs) ==
            StepsFrom(m0, StepsFrom(m0, m, ld, siblings, host, es), ld, siblings, host, fs)
    decreases |es|
  {
    hide StepFrom;
    if es == [] {
      assert es + fs == fs;
    } else {
      assert (es + fs)[0] == es[0] && (es + fs)[1..] == es[1..] + fs;
      StepsAppend(m0, StepFrom(m0, m, ld, siblings, host, es[0]), ld, siblings, host, es[1..], fs);
    }
  }

  /** A pass over memory whose tables are intact is a pass over the entries as loaded. */
  lemma PassIsSteps(m0: Mem, m: Mem, ld: Loader, strsz: nat, siblings: seq<map<string, U64>>, host: Host)
    requires Safe(m0, ld, strsz) && HostKept(m0, m, ld, strsz)
    ensures Pass(m, ld, siblings, host) == StepsFrom(m0, m, ld, siblings, host, AllEntries(m0, ld))
    ensures HostKept(m0, Pass(m, ld, siblings, host), ld, strsz)
  {
    hide HostKept, HostTablesOk, HostTable, TableEntries, StepsFrom, InHostTables, HostTarget, Relocates;
    if ld.base != 0 && ld.symtab != 0 && ld.strtab != 0 {
      var k := JmprelKind(ld);
      var es := TableEntries(m0, Rela, ld.rela, ld.relasz / RELA_SIZE, 0);
      var fs := TableEntries(m0, Rel, ld.rel, ld.relsz / REL_SIZE, 0);
      var gs := TableEntries(m0, k, ld.jmprel, ld.pltrelsz / EntrySize(k), 0);
      assert AllEntries(m0, ld) == es + fs + gs;
      TablesInTables(ld, strsz);
      TableIsSteps(m0, m, ld, strsz, siblings, host, Rela, ld.rela, ld.relasz, 0);
      var m1 := StepsFrom(m0, m, ld, siblings, host, es);
      TableIsSteps(m0, m1, ld, strsz, siblings, host, Rel, ld.rel, ld.relsz, 0);
      var m2 := StepsFrom(m0, m1, ld, siblings, host, fs);
      TableIsSteps(m0, m2, ld, strsz, siblings, host, k, ld.jmprel, ld.pltrelsz, 0);
      StepsAppend(m0, m, ld, siblings, host, es, fs);
      StepsAppend(m0, m, ld, siblings, host, es + fs, gs);
    } else {
      NoSteps(m0, m, ld, siblings, host);
    }
  }

  lemma NoSteps(m0: Mem, m: Mem, ld: Loader, siblings: seq<map<string, U64>>, host: Host)
    ensures StepsFrom(m0, m, ld, siblings, host, []) == m
  {
  }

  lemma TablesInTables(ld: Loader, strsz: nat)
    ensures ld.rela != 0 ==> forall a | ld.rela <= a < ld.rela + ld.relasz :: InHostTables(ld, strsz, a)
    ensures ld.rel != 0 ==> forall a | ld.rel <= a < ld.rel + ld.relsz :: InHostTables(ld, strsz, a)
    ensures ld.jmprel != 0 ==> forall a | ld.jmprel <= a < ld.jmprel + ld.pltrelsz :: InHostTables(ld, strsz, a)
  {
  }

  // RELA tables: the last pass wins -------------------------------------------------------------------

  predicate Explicit(es: seq<HostEntry>) {
    forall e | e in es :: e.addend.Some?
  }

  predicate Covered(ld: Loader, es: seq<HostEntry>, a: int) {
    exists e | e in es :: Relocates(e) && HostTarget(ld, e) <= a < HostTarget(ld, e) + 8
  }

  /** A byte some entry writes does not depend on the memory before; any other byte is kept. */
  lemma {:induction false} ExplicitBytes(m0: Mem, m: Mem, m2: Mem, ld: Loader, siblings: seq<map<string, U64>>,
                                         host: Host, es: seq<HostEntry>, a: int)
    requires Explicit(es) && m2.Keys == m.Keys && a in m
    ensures Covered(ld, es, a) ==>
              StepsFrom(m0, m, ld, siblings, host, es)[a] == StepsFrom(m0, m2, ld, siblings, host, es)[a]
    ensures m[a] == m2[a] ==>
              StepsFrom(m0, m, ld, siblings, host, es)[a] == StepsFrom(m0, m2, ld, siblings, host, es)[a]
    ensures !Covered(ld, es, a) ==> StepsFrom(m0, m, ld, siblings, host, es)[a] == m[a]
    decreases |es|
  {
    hide StepFrom, Covered, Explicit;
    if es != [] {
      ExplicitTail(es);
      CoveredCons(ld, es, a);
      OneCovered(ld, es[0], a);
      StepByte(m0, m, ld, siblings, host, es[0], a);
      StepByte(m0, m2, ld, siblings, host, es[0], a);
      ExplicitBytes(m0, StepFrom(m0, m, ld, siblings, host, es[0]), StepFrom(m0, m2, ld, siblings, host, es[0]), ld,
        siblings, host, es[1..], a);
    } else {
      NotCovered(ld, a);
    }
  }

  lemma ExplicitTail(es: seq<HostEntry>)
    requires Explicit(es) && es != []
    ensures es[0].addend.Some? && Explicit(es[1..])
  {
    assert es[0] in es;
  }

  /** What one step leaves at a byte. */
  lemma StepByte(m0: Mem, m: Mem, ld: Loader, siblings: seq<map<string, U64>>, host: Host, e: HostEntry, a: int)
    requires a in m && e.addend.Some?
    ensures StepFrom(m0, m, ld, siblings, host, e)[a] ==
            if Relocates(e) && HostTarget(ld, e) <= a < HostTarget(ld, e) + 8
            then ToLE(Effect(ld, e, SymbolOf(m0, ld, siblings, host, e), 0), 8)[a - HostTarget(ld, e)]
            else m[a]
  {
    hide SymbolOf, HostTarget, ToLE, PeekWord, Relocates;
  }

  lemma NotCovered(ld: Loader, a: int)
    ensures !Covered(ld, [], a)
  {
  }

  lemma OneCovered(ld: Loader, e: HostEntry, a: int)
    ensures Covered(ld, [e], a) <==> Relocates(e) && HostTarget(ld, e) <= a < HostTarget(ld, e) + 8
  {
    assert e in [e];
  }

  lemma CoveredCons(ld: Loader, es: seq<HostEntry>, a: int)
    requires es != []
    ensures Covered(ld, es, a) <==> Covered(ld, [es[0]], a) || Covered(ld, es[1..], a)
  {
    hide Relocates, HostTarget;
    assert forall e :: e in es <==> e == es[0] || e in es[1..];
  }

  /** Main result: for a library relocated by RELA tables alone, whatever the
      first pass resolved against, a second pass leaves what it would have left
      alone.  Targets may even overlap. */
  lemma LastPassWins(m: Mem, ld: Loader, strsz: nat, first: seq<map<string, U64>>, second: seq<map<string, U64>>,
                     host: Host)
    requires Safe(m, ld, strsz) && Explicit(AllEntries(m, ld))
    ensures Pass(Pass(m, ld, first, host), ld, second, host) == Pass(m, ld, second, host)
  {
    hide Pass, StepsFrom, AllEntries, Explicit, Safe, HostKept;
    var es := AllEntries(m, ld);
    KeptRefl(m, ld, strsz);
    PassIsSteps(m, m, ld, strsz, first, host);
    var m1 := Pass(m, ld, first, host);
    PassIsSteps(m, m1, ld, strsz, second, host);
    PassIsSteps(m, m, ld, strsz, second, host);
    var x, y := StepsFrom(m, m1, ld, second, host, es), StepsFrom(m, m, ld, second, host, es);
    forall a | a in m
      ensures x[a] == y[a]
    {
      ExplicitBytes(m, m, m1, ld, second, host, es, a);
      ExplicitBytes(m, m, m, ld, first, host, es, a);
    }
    assert x == y;
  }

  lemma KeptRefl(m: Mem, ld: Loader, strsz: nat)
    ensures HostKept(m, m, ld, strsz)
  {
  }
}
