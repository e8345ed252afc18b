/** A relocation pass in a process some of whose pages are read-execute: storing
    a word there ends the process. */
module GuardedRelocation {
  import opened Words
  import opened GuestMemory
  import opened Relocation
  import opened HostRelocation

  /** The read-execute pages, by number, and the page size. */
  datatype Guard = Guard(pages: set<int>, page: U64) {
    predicate Covers(a: int) {
      page > 0 && a / page in pages
    }

    /** A store of eight bytes at `t` touches such a page. */
    predicate Blocks(t: int) {
      exists a | t <= a < t + 8 :: Covers(a)
    }
  }

  function GuardedStep(m: Mem, ld: Loader, siblings: seq<map<string, U64>>, host: Host, g: Guard,
                       e: HostEntry): Outcome<Mem> {
    if Relocates(e) && g.Blocks(HostTarget(ld, e)) then Abort
    else Continue(HostStep(m, ld, siblings, host, e))
  }

  function GuardedTable(m: Mem, ld: Loader, siblings: seq<map<string, U64>>, host: Host, g: Guard, k: TableKind,
                        table: U64, count: nat, i: nat): Outcome<Mem>
    decreases count - i
  {
    if table == 0 || i >= count then Continue(m)
    else
      var m1 :- GuardedStep(m, ld, siblings, host, g, HostEntryAt(m, k, table, i));
      GuardedTable(m1, ld, siblings, host, g, k, table, count, i + 1)
  }

  /** `ElfLoader::relocate` on memory, as `Pass` but for the stores that fault. */
  function GuardedPass(m: Mem, ld: Loader, siblings: seq<map<string, U64>>, host: Host, g: Guard): Outcome<Mem> {
    if ld.base == 0 || ld.symtab == 0 || ld.strtab == 0 then Continue(m)
    else
      var m1 :- GuardedTable(m, ld, siblings, host, g, Rela, ld.rela, ld.relasz / RELA_SIZE, 0);
      var m2 :- GuardedTable(m1, ld, siblings, host, g, Rel, ld.rel, ld.relsz / REL_SIZE, 0);
      var k := JmprelKind(ld);
      GuardedTable(m2, ld, siblings, host, g, k, ld.jmprel, ld.pltrelsz / EntrySize(k), 0)
  }

  /** Some entry's word lies on a read-execute page. */
  predicate SomeBlocked(ld: Loader, g: Guard, es: seq<HostEntry>) {
    exists e | e in es :: Relocates(e) && g.Blocks(HostTarget(ld, e))
  }

  /** The same, byte by byte. */
  lemma BlockedIffCovered(ld: Loader, g: Guard, es: seq<HostEntry>)
    ensures SomeBlocked(ld, g, es) <==> exists a :: Covered(ld, es, a) && g.Covers(a)
  {
    hide Relocates, HostTarget;
    if SomeBlocked(ld, g, es) {
      var e :| e in es && Relocates(e) && g.Blocks(HostTarget(ld, e));
      var a :| HostTarget(ld, e) <= a < HostTarget(ld, e) + 8 && g.Covers(a);
      assert Covered(ld, es, a);
    }
    if a :| Covered(ld, es, a) && g.Covers(a) {
      var e :| e in es && Relocates(e) && HostTarget(ld, e) <= a < HostTarget(ld, e) + 8;
      assert g.Blocks(HostTarget(ld, e));
    }
  }

  lemma BlockedAppend(ld: Loader, g: Guard, es: seq<HostEntry>, fs: seq<HostEntry>)
    ensures SomeBlocked(ld, g, es + fs) <==> SomeBlocked(ld, g, es) || SomeBlocked(ld, g, fs)
  {
    hide Relocates, HostTarget;
    assert forall e :: e in es + fs <==> e in es || e in fs;
  }

  lemma BlockedCons(ld: Loader, g: Guard, es: seq<HostEntry>)
    requires es != []
    ensures SomeBlocked(ld, g, es) <==>
              (Relocates(es[0]) && g.Blocks(HostTarget(ld, es[0]))) || SomeBlocked(ld, g, es[1..])
  {
    hide Relocates, HostTarget;
    assert forall e :: e in es <==> e == es[0] || e in es[1..];
  }

  lemma BlockedMore(ld: Loader, g: Guard, more: set<int>, es: seq<HostEntry>)
    ensures SomeBlocked(ld, g, es) ==> SomeBlocked(ld, g.(pages := g.pages + more), es)
  {
    hide Relocates, HostTarget;
    var h := g.(pages := g.pages + more);
    if SomeBlocked(ld, g, es) {
      var e :| e in es && Relocates(e) && g.Blocks(HostTarget(ld, e));
      var a :| HostTarget(ld, e) <= a < HostTarget(ld, e) + 8 && g.Covers(a);
      assert h.Covers(a);
      assert h.Blocks(HostTarget(ld, e));
    }
  }

  function Unless<T>(blocked: bool, v: T): Outcome<T> {
    if blocked then Abort else Continue(v)
  }

  lemma {:induction false} TableGuarded(m0: Mem, m: Mem, ld: Loader, strsz: nat, siblings: seq<map<string, U64>>,
                                        host: Host, g: Guard, k: TableKind, table: U64, size: U64, i: nat)
    requires HostKept(m0, m, ld, strsz) && HostTablesOk(m0, ld, strsz)
    requires table != 0 ==> forall a | table <= a < table + size :: InHostTables(ld, strsz, a)
    requires TargetsClear(ld, strsz, TableEntries(m0, k, table, size / EntrySize(k), i))
    ensures var count := size / EntrySize(k);
            GuardedTable(m, ld, siblings, host, g, k, table, count, i) ==
            Unless(SomeBlocked(ld, g, TableEntries(m0, k, table, count, i)),
              HostTable(m, ld, siblings, host, k, table, count, i))
    decreases size / EntrySize(k) - i
  {
    hide HostKept, HostTablesOk, HostStep, StepFrom, HostEntryAt, InHostTables, HostTarget, SomeBlocked, Relocates;
    var count := size / EntrySize(k);
    if table != 0 && i < count {
      var es := TableEntries(m0, k, table, count, i);
      var e := HostEntryAt(m0, k, table, i);
      assert es[0] == e && es[1..] == TableEntries(m0, k, table, count, i + 1);
      assert e in es;
      EntryAtKept(m0, m, ld, strsz, k, table, size, i);
      StepKeeps(m0, m, ld, strsz, siblings, host, e);
      BlockedCons(ld, g, es);
      TableGuarded(m0, HostStep(m, ld, siblings, host, e), ld, strsz, siblings, host, g, k, table, size, i + 1);
    } else {
      NoneBlocked(ld, g);
    }
  }

  lemma NoneBlocked(ld: Loader, g: Guard)
    ensures !SomeBlocked(ld, g, [])
  {
  }

  lemma ClearParts(ld: Loader, strsz: nat, es: seq<HostEntry>, fs: seq<HostEntry>, gs: seq<HostEntry>)
    requires TargetsClear(ld, strsz, es + fs + gs)
    ensures TargetsClear(ld, strsz, es) && TargetsClear(ld, strsz, fs) && TargetsClear(ld, strsz, gs)
  {
    hide InHostTables, HostTarget, Relocates;
    assert forall e | e in es || e in fs || e in gs :: e in es + fs + gs;
  }

  /** Main result: a pass over intact tables faults exactly when some byte it
      relocates lies on a read-execute page, and is otherwise the plain pass. */
  lemma GuardedPassIff(m0: Mem, m: Mem, ld: Loader, strsz: nat, siblings: seq<map<string, U64>>, host: Host, g: Guard)
    requires Safe(m0, ld, strsz) && HostKept(m0, m, ld, strsz)
    ensures GuardedPass(m, ld, siblings, host, g) ==
            Unless(SomeBlocked(ld, g, AllEntries(m0, ld)), Pass(m, ld, siblings, host))
    ensures SomeBlocked(ld, g, AllEntries(m0, ld)) <==> exists a :: Covered(ld, AllEntries(m0, ld), a) && g.Covers(a)
  {
    hide HostKept, HostTablesOk, HostTable, TableEntries, StepsFrom, InHostTables, HostTarget, Relocates,
      GuardedTable, SomeBlocked, TargetsClear, Covered;
    BlockedIffCovered(ld, g, AllEntries(m0, ld));
    NoneBlocked(ld, g);
    if ld.base != 0 && ld.symtab != 0 && ld.strtab != 0 {
      var k := JmprelKind(ld);
      var es := TableEntries(m0, Rela, ld.rela, ld.relasz / RELA_SIZE, 0);
      var fs := TableEntries(m0, Rel, ld.rel, ld.relsz / REL_SIZE, 0);
      var gs := TableEntries(m0, k, ld.jmprel, ld.pltrelsz / EntrySize(k), 0);
      assert AllEntries(m0, ld) == es + fs + gs;
      ClearParts(ld, strsz, es, fs, gs);
      TablesInTables(ld, strsz);
      BlockedAppend(ld, g, es, fs);
      BlockedAppend(ld, g, es + fs, gs);
      TableIsSteps(m0, m, ld, strsz, siblings, host, Rela, ld.rela, ld.relasz, 0);
      TableGuarded(m0, m, ld, strsz, siblings, host, g, Rela, ld.rela, ld.relasz, 0);
      var m1 := HostTable(m, ld, siblings, host, Rela, ld.rela, ld.relasz / RELA_SIZE, 0);
      TableIsSteps(m0, m1, ld, strsz, siblings, host, Rel, ld.rel, ld.relsz, 0);
      TableGuarded(m0, m1, ld, strsz, siblings, host, g, Rel, ld.rel, ld.relsz, 0);
      var m2 := HostTable(m1, ld, siblings, host, Rel, ld.rel, ld.relsz / REL_SIZE, 0);
      TableGuarded(m0, m2, ld, strsz, siblings, host, g, k, ld.jmprel, ld.pltrelsz, 0);
    }
  }
}
