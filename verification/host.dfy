/** The host loader as the source writes it, and the order in which the macOS
    build links its two libraries. */
module HostLoader {
  import opened Words
  import opened GuestMemory
  import opened SymbolNames
  import opened Resolver
  import opened Relocation
  import opened HostRelocation
  import opened GuardedRelocation
  import opened HostProcess
  import opened Image
  import opened HostDynamic
  import opened HostImage
  import opened HostSections
  import opened HostLoad
  import opened HostFile
  import opened HostExtend
  import PageProtection

  const NOTHING_LOADED := Loader(0, 0, 0, 0, map[], 0, 0, 0, 0, 0, 0, 0)

  /** What `load` demands: the file's headers and contents in the file, a mapping
      that ends in memory, and a hash section whose chains end. */
  ghost predicate CanPlace(m: Mem, phs: seq<Phdr>, file: seq<Byte>, at: U64) {
    && (forall ph | ph in phs :: ContentsInFile(ph, file))
    && (HostSpan(phs).lo < HostSpan(phs).hi ==> at + (HostSpan(phs).hi - HostSpan(phs).lo) <= TWO64)
    && (Placeable(phs) ==> ImageReady(PlacedMem(m, phs, file, at), at, phs))
  }

  /** The memory and the loader `load` relocates, if the file has what it needs. */
  ghost function LoadedIn(m: Mem, phs: seq<Phdr>, file: seq<Byte>, at: U64): Option<(Mem, Loader)>
    requires CanPlace(m, phs, file, at)
  {
    if !Placeable(phs) then None
    else
      var placed := PlacedMem(m, phs, file, at);
      match DescribedIn(placed, at, phs)
      case None => None
      case Some(ld) => Some((placed, ld))
  }

  function ExportsOf(ls: seq<ElfLoader>): (maps: seq<map<string, U64>>)
    reads ls
    ensures |maps| == |ls| && forall i | 0 <= i < |ls| :: maps[i] == ls[i].exports
  {
    if ls == [] then [] else [ls[0].exports] + ExportsOf(ls[1..])
  }

  class ElfLoader {
    var base: U64
    var symtab: U64
    var strtab: U64
    var symCount: nat
    var rela: U64
    var relasz: U64
    var rel: U64
    var relsz: U64
    var jmprel: U64
    var pltrelsz: U64
    var pltrelKind: U64
    var exports: map<string, U64>
    var segments: seq<PageProtection.Segment>
    var siblings: seq<ElfLoader>

    function Look(): Loader
      reads this
    {
      Loader(base, symtab, strtab, symCount, exports, rela, relasz, rel, relsz, jmprel, pltrelsz, pltrelKind)
    }

    /** A loader that has loaded nothing. */
    constructor ()
      ensures Look() == NOTHING_LOADED && segments == [] && siblings == []
    {
      base, symtab, strtab, symCount, exports := 0, 0, 0, 0, map[];
      rela, relasz, rel, relsz := 0, 0, 0, 0;
      jmprel, pltrelsz, pltrelKind := 0, 0, 0;
      segments, siblings := [], [];
    }

    method Become(at: U64, loc: Located, count: nat, found: map<string, U64>)
      modifies this
      ensures Look() == LoaderOf(at, loc, count, found) && segments == old(segments) && siblings == old(siblings)
    {
      base, symtab, strtab, symCount, exports := at, loc.symtab, loc.strtab, count, found;
      rela, relasz, rel, relsz := loc.rela, loc.relasz, loc.rel, loc.relsz;
      jmprel, pltrelsz, pltrelKind := loc.jmprel, loc.pltrelsz, loc.pltrelKind;
    }

    /** The steps of `load` up to its relocation. */
    method Prepare(proc: Process, phs: seq<Phdr>, file: seq<Byte>, at: U64) returns (ok: bool)
      requires CanPlace(proc.mem, phs, file, at)
      modifies this, proc`mem
      ensures siblings == old(siblings)
      ensures match LoadedIn(old(proc.mem), phs, file, at)
              case None => !ok
              case Some((m, ld)) => ok && proc.mem == m && Look() == ld && segments == SegmentsOf(phs)
    {
      hide HostSpan, CopySegments, MapRegion, HasSegment, ContentsInFile, SegmentsOf, FirstDynamic, Locate, CountIn,
        ExportsIn, SectionReady;
      var placed := PlaceImage(proc, phs, file, at);
      if !placed {
        return false;
      }
      var dyn := FindDynamic(phs, at);
      if dyn.None? {
        return false;
      }
      var loc := LocateTables(proc, at, dyn.value);
      if loc.symtab == 0 || loc.strtab == 0 {
        return false;
      }
      var range, _ := FindHostSpan(phs);
      var end: nat := at + range.hi - range.lo;
      var count := CountSymbols(proc, loc, end);
      var found := CollectExports(proc, at, loc, end, count);
      Become(at, loc, count, found);
      segments := NoteSegments(phs);
      return true;
    }

    /** `load`: place the image where `mmap` has put it, find its tables and
        symbols, and relocate it. */
    method Load(proc: Process, phs: seq<Phdr>, file: seq<Byte>, at: U64) returns (r: Outcome<bool>)
      requires CanPlace(proc.mem, phs, file, at) && PageProtection.InRange(at, SegmentsOf(phs), proc.page)
      requires this !in siblings
      modifies this, proc
      ensures siblings == old(siblings)
      ensures match LoadedIn(old(proc.mem), phs, file, at)
              case None => r == Continue(false)
              case Some((m, ld)) =>
                match GuardedPass(m, ld, ExportsOf(old(siblings)), proc.host, old(proc.Guarded()))
                case Abort => r.Abort?
                case Continue(after) =>
                  && r == Continue(true) && proc.mem == after && Look() == ld && segments == SegmentsOf(phs)
                  && ld.base == at
                  && proc.executable == old(proc.executable) + PagesOf(ld, SegmentsOf(phs), proc.page)
    {
      hide LoadedIn, CanPlace, SegmentsOf, GuardedPass, PageProtection.InRange, PageProtection.Protected;
      BaseIs(proc.mem, phs, file, at);
      var ok := Prepare(proc, phs, file, at);
      if !ok {
        return Continue(false);
      }
      var _ :- Relocate(proc);
      return Continue(true);
    }

    /** `load` from the bytes of the file: its identification, its headers, and the rest. */
    method LoadFile(proc: Process, file: seq<Byte>, at: U64) returns (r: Outcome<bool>)
      requires IsHostElf(file) ==>
                 CanPlace(proc.mem, HostPhdrs(file), file, at)
                 && PageProtection.InRange(at, SegmentsOf(HostPhdrs(file)), proc.page)
      requires this !in siblings
      modifies this, proc
      ensures siblings == old(siblings)
      ensures !IsHostElf(file) ==>
                r == Continue(false) && proc.mem == old(proc.mem) && proc.executable == old(proc.executable)
      ensures IsHostElf(file) ==>
                match LoadedIn(old(proc.mem), HostPhdrs(file), file, at)
                case None => r == Continue(false)
                case Some((m, ld)) =>
                  match GuardedPass(m, ld, ExportsOf(old(siblings)), proc.host, old(proc.Guarded()))
                  case Abort => r.Abort?
                  case Continue(after) =>
                    && r == Continue(true) && proc.mem == after && Look() == ld
                    && segments == SegmentsOf(HostPhdrs(file)) && ld.base == at
                    && proc.executable == old(proc.executable) + PagesOf(ld, SegmentsOf(HostPhdrs(file)), proc.page)
    {
      hide LoadedIn, CanPlace, SegmentsOf, GuardedPass, PageProtection.InRange, PageProtection.Protected, HostPhdrs;
      if !IsHostElf(file) {
        return Continue(false);
      }
      var phs := ReadHeaders(file);
      r := Load(proc, phs, file, at);
    }

    static lemma BaseIs(m: Mem, phs: seq<Phdr>, file: seq<Byte>, at: U64)
      requires CanPlace(m, phs, file, at)
      ensures LoadedIn(m, phs, file, at).Some? ==> LoadedIn(m, phs, file, at).value.1.base == at
    {
      hide PlacedMem, ImageReady, Placeable, LocatedIn, CountIn, ExportsIn;
    }

    method AddSibling(sibling: ElfLoader)
      modifies this`siblings
      ensures siblings == old(siblings) + [sibling]
    {
      siblings := siblings + [sibling];
    }

    /** `get_symbol`: zero for a name the library does not export. */
    method GetSymbol(name: string) returns (a: U64)
      ensures var hit := FindExport([exports], name);
              a == if hit.Some? then hit.value else 0
    {
      a := if name in exports then exports[name] else 0;
    }

    /** The library's own exports, then each sibling's in the order they were added. */
    method Find(name: string) returns (r: Option<U64>)
      ensures r == FindExport([exports] + ExportsOf(siblings), name)
    {
      ghost var maps := [exports] + ExportsOf(siblings);
      assert maps[1..] == ExportsOf(siblings);
      if name in exports {
        return Some(exports[name]);
      }
      var i := 0;
      while i < |siblings|
        invariant 0 <= i <= |siblings|
        invariant FindExport(maps, name) == FindExport(maps[i + 1..], name)
      {
        assert maps[i + 1..][0] == siblings[i].exports && maps[i + 1..][1..] == maps[i + 2..];
        if name in siblings[i].exports {
          return Some(siblings[i].exports[name]);
        }
        i := i + 1;
      }
      assert maps[i + 1..] == [];
      return None;
    }

    /** The lambda `resolve_symbol` of `relocate`. */
    method ResolveSymbol(proc: Process, idx: U32) returns (a: U64)
      ensures a == ResolveHost(proc.mem, Look(), ExportsOf(siblings), proc.host, idx)
    {
      hide HostSym, HostName, FindExport, NdkName;
      if idx >= symCount {
        return 0;
      }
      var sym := HostSym(proc.mem, Look(), idx);
      if sym.value != 0 {
        return Wrap(base + sym.value);
      }
      var name := HostName(proc.mem, Look(), sym.name);
      if name != "" {
        var hit := Find(name);
        if hit.Some? {
          return hit.value;
        }
        var converted := NdkName(name);
        if converted != name {
          hit := Find(converted);
          if hit.Some? {
            return hit.value;
          }
        }
      }
      if proc.host.hooks(name) != 0 {
        return proc.host.hooks(name);
      }
      return proc.host.dummyStub;
    }

    /** One entry of either kind of table; a store to a read-execute page ends the process. */
    method ApplyEntry(proc: Process, e: HostEntry) returns (r: Outcome<()>)
      modifies proc`mem
      ensures match GuardedStep(old(proc.mem), Look(), ExportsOf(siblings), proc.host, proc.Guarded(), e)
              case Abort => r.Abort?
              case Continue(m) => r.Continue? && proc.mem == m
    {
      hide ResolveHost, Poke, ToLE, PeekWord, HostTarget, Wrap;
      var target := HostTarget(Look(), e);
      if !Relocates(e) {
        return Continue(());
      }
      if proc.Guarded().Blocks(target) {
        return Abort;
      }
      var addend := if e.addend.Some? then e.addend.value else PeekWord(proc.mem, target);
      var a := 0;
      if e.kind != R_RELATIVE {
        a := ResolveSymbol(proc, e.sym);
      }
      var word :=
        if e.kind == R_RELATIVE then Wrap(base + addend) else if e.kind == R_ABS64 then Wrap(a + addend) else a;
      proc.mem := Poke(proc.mem, target, ToLE(word, 8));
      return Continue(());
    }

    /** `apply_rela` and `apply_rel`: a loop over whole entries; a missing table is passed over. */
    method ApplyTable(proc: Process, k: TableKind, table: U64, size: U64) returns (r: Outcome<()>)
      modifies proc`mem
      ensures match GuardedTable(old(proc.mem), Look(), ExportsOf(siblings), proc.host, proc.Guarded(),
                                 k, table, size / EntrySize(k), 0)
              case Abort => r.Abort?
              case Continue(m) => r.Continue? && proc.mem == m
    {
      hide GuardedStep, HostEntryAt;
      if table == 0 || size == 0 {
        return Continue(());
      }
      var count := size / EntrySize(k);
      var i := 0;
      while i < count
        invariant 0 <= i <= count
        invariant GuardedTable(old(proc.mem), Look(), ExportsOf(siblings), proc.host, proc.Guarded(), k, table,
                    count, 0)
               == GuardedTable(proc.mem, Look(), ExportsOf(siblings), proc.host, proc.Guarded(), k, table, count, i)
      {
        var _ :- ApplyEntry(proc, HostEntryAt(proc.mem, k, table, i));
        i := i + 1;
      }
      return Continue(());
    }

    method RelocateWords(proc: Process) returns (r: Outcome<()>)
      requires base != 0 && symtab != 0 && strtab != 0
      modifies proc`mem
      ensures match GuardedPass(old(proc.mem), Look(), ExportsOf(siblings), proc.host, proc.Guarded())
              case Abort => r.Abort?
              case Continue(m) => r.Continue? && proc.mem == m
    {
      hide GuardedTable;
      var _ :- ApplyTable(proc, Rela, rela, relasz);
      var _ :- ApplyTable(proc, Rel, rel, relsz);
      r := ApplyTable(proc, JmprelKind(Look()), jmprel, pltrelsz);
    }

    /** `relocate`: the three tables, then read-execute for executable-only segments. */
    method Relocate(proc: Process) returns (r: Outcome<()>)
      requires PageProtection.InRange(base, segments, proc.page)
      modifies proc
      ensures match GuardedPass(old(proc.mem), Look(), ExportsOf(siblings), proc.host, old(proc.Guarded()))
              case Abort => r.Abort?
              case Continue(m) =>
                r.Continue? && proc.mem == m &&
                  proc.executable == old(proc.executable) + PagesOf(Look(), segments, proc.page)
    {
      hide GuardedTable, PageProtection.Protected;
      if base == 0 || symtab == 0 || strtab == 0 {
        return Continue(());
      }
      var _ :- RelocateWords(proc);
      var pages := PageProtection.Protect(base, segments, proc.page);
      proc.executable := proc.executable + pages;
      return Continue(());
    }
  }

  /** The pages a library's `relocate` makes read-execute. */
  function PagesOf(ld: Loader, segs: seq<PageProtection.Segment>, page: U64): set<int>
    requires PageProtection.InRange(ld.base, segs, page)
  {
    if ld.base == 0 || ld.symtab == 0 || ld.strtab == 0 then {} else PageProtection.Protected(ld.base, segs, page)
  }

  // Two libraries that import from each other -------------------------------------------------------

  /** No word either library relocates is in the other's tables. */
  ghost predicate Separate(m: Mem, p: Loader, pstr: nat, q: Loader, qstr: nat) {
    && (forall a | Covered(p, AllEntries(m, p), a) :: !InHostTables(q, qstr, a))
    && (forall a | Covered(q, AllEntries(m, q), a) :: !InHostTables(p, pstr, a))
  }

  /** A library both passes can be reasoned about: relocated by RELA tables, none of them a target. */
  ghost predicate Passable(m: Mem, ld: Loader, strsz: nat) {
    Safe(m, ld, strsz) && Explicit(AllEntries(m, ld))
  }

  /** A pass gives each covered byte the value it gives on the image as loaded, and keeps the others. */
  lemma PassBytes(m0: Mem, m: Mem, ld: Loader, strsz: nat, siblings: seq<map<string, U64>>, host: Host)
    requires Passable(m0, ld, strsz) && HostKept(m0, m, ld, strsz)
    ensures var r := Pass(m, ld, siblings, host);
            && r.Keys == m0.Keys && HostKept(m0, r, ld, strsz)
            && forall a | a in m0 ::
                 r[a] == if Covered(ld, AllEntries(m0, ld), a) then Pass(m0, ld, siblings, host)[a] else m[a]
  {
    hide Pass, StepsFrom, AllEntries, Explicit, Safe, Covered;
    KeptRefl(m0, ld, strsz);
    PassIsSteps(m0, m, ld, strsz, siblings, host);
    PassIsSteps(m0, m0, ld, strsz, siblings, host);
    var es := AllEntries(m0, ld);
    forall a | a in m0
      ensures Pass(m, ld, siblings, host)[a] == if Covered(ld, es, a) then Pass(m0, ld, siblings, host)[a] else m[a]
    {
      ExplicitBytes(m0, m, m0, ld, siblings, host, es, a);
    }
  }

  /** The other library's pass leaves this one's tables alone. */
  lemma OtherKeeps(m0: Mem, m: Mem, p: Loader, pstr: nat, q: Loader, qstr: nat, siblings: seq<map<string, U64>>,
                   host: Host)
    requires Passable(m0, q, qstr) && HostKept(m0, m, q, qstr) && HostKept(m0, m, p, pstr) &&
               Separate(m0, p, pstr, q, qstr)
    ensures HostKept(m0, Pass(m, q, siblings, host), p, pstr)
  {
    hide Pass, AllEntries, Passable, Covered, InHostTables;
    PassBytes(m0, m, q, qstr, siblings, host);
  }

  /** The source's order: each library is relocated alone as it is loaded, and again
      once the two know each other. */
  function LinkedLate(m: Mem, p: Loader, q: Loader, host: Host): Mem {
    Pass(Pass(Pass(Pass(m, p, [], host), q, [], host), p, [q.exports], host), q, [p.exports], host)
  }

  /** One relocation of each, its sibling already known. */
  function LinkedEarly(m: Mem, p: Loader, q: Loader, host: Host): Mem {
    Pass(Pass(m, p, [q.exports], host), q, [p.exports], host)
  }

  /** Main result: linking late is linking early, and nothing that the first,
      lonely passes resolved differently is left behind. */
  lemma LateIsEarly(m: Mem, p: Loader, pstr: nat, q: Loader, qstr: nat, host: Host)
    requires Passable(m, p, pstr) && Passable(m, q, qstr) && Separate(m, p, pstr, q, qstr)
    ensures LinkedLate(m, p, q, host) == LinkedEarly(m, p, q, host)
  {
    hide Pass, AllEntries, Passable, Covered, Separate, HostKept;
    KeptRefl(m, p, pstr);
    KeptRefl(m, q, qstr);
    var m1 := BothKept(m, m, p, pstr, q, qstr, [], host);
    var m2 := BothKept(m, m1, q, qstr, p, pstr, [], host);
    var m3 := BothKept(m, m2, p, pstr, q, qstr, [q.exports], host);
    var m4 := BothKept(m, m3, q, qstr, p, pstr, [p.exports], host);
    var e1 := BothKept(m, m, p, pstr, q, qstr, [q.exports], host);
    var e2 := BothKept(m, e1, q, qstr, p, pstr, [p.exports], host);
    forall a | a in m
      ensures m4[a] == e2[a]
    {
    }
    assert m4 == e2;
  }

  /** One pass of a pair, and what it does to every byte. */
  lemma BothKept(m0: Mem, m: Mem, p: Loader, pstr: nat, q: Loader, qstr: nat, siblings: seq<map<string, U64>>,
                 host: Host) returns (r: Mem)
    requires Passable(m0, p, pstr) && (Separate(m0, p, pstr, q, qstr) || Separate(m0, q, qstr, p, pstr))
    requires HostKept(m0, m, p, pstr) && HostKept(m0, m, q, qstr)
    ensures r == Pass(m, p, siblings, host) && r.Keys == m0.Keys
    ensures HostKept(m0, r, p, pstr) && HostKept(m0, r, q, qstr)
    ensures forall a | a in m0 ::
              r[a] == if Covered(p, AllEntries(m0, p), a) then Pass(m0, p, siblings, host)[a] else m[a]
  {
    hide Pass, AllEntries, Passable, Covered, HostKept;
    r := Pass(m, p, siblings, host);
    PassBytes(m0, m, p, pstr, siblings, host);
    SeparateSwap(m0, p, pstr, q, qstr);
    OtherKeeps(m0, m, q, qstr, p, pstr, siblings, host);
  }

  lemma SeparateSwap(m: Mem, p: Loader, pstr: nat, q: Loader, qstr: nat)
    ensures Separate(m, p, pstr, q, qstr) == Separate(m, q, qstr, p, pstr)
  {
  }

  /** A library and its segments. */
  datatype Module = Module(ld: Loader, segs: seq<PageProtection.Segment>)

  function PagesIn(p: Module, page: U64): set<int>
    requires PageProtection.InRange(p.ld.base, p.segs, page)
  {
    PagesOf(p.ld, p.segs, page)
  }

  /** The source's order with its page protections: each `relocate` adds its
      library's pages, so the late passes run behind both libraries' pages. */
  function Linked(m: Mem, g: Guard, p: Module, q: Module, host: Host): Outcome<(Mem, Guard)>
    requires PageProtection.InRange(p.ld.base, p.segs, g.page) && PageProtection.InRange(q.ld.base, q.segs, g.page)
  {
    var m1 :- GuardedPass(m, p.ld, [], host, g);
    var g1 := g.(pages := g.pages + PagesIn(p, g.page));
    var m2 :- GuardedPass(m1, q.ld, [], host, g1);
    var g2 := g1.(pages := g1.pages + PagesIn(q, g.page));
    var m3 :- GuardedPass(m2, p.ld, [q.ld.exports], host, g2);
    var m4 :- GuardedPass(m3, q.ld, [p.ld.exports], host, g2);
    Continue((m4, g2))
  }

  /** Every page that is read-execute once both libraries have been loaded. */
  function AfterLoad(g: Guard, p: Module, q: Module): Guard
    requires PageProtection.InRange(p.ld.base, p.segs, g.page) && PageProtection.InRange(q.ld.base, q.segs, g.page)
  {
    g.(pages := g.pages + PagesIn(p, g.page) + PagesIn(q, g.page))
  }

  /** Main result: the whole link faults exactly when some word of either
      library lies on a page that loading the two has made read-execute, and
      otherwise ends as linking once with the siblings known. */
  lemma LinkedIff(m: Mem, g: Guard, p: Module, pstr: nat, q: Module, qstr: nat, host: Host)
    requires PageProtection.InRange(p.ld.base, p.segs, g.page) && PageProtection.InRange(q.ld.base, q.segs, g.page)
    requires Passable(m, p.ld, pstr) && Passable(m, q.ld, qstr) && Separate(m, p.ld, pstr, q.ld, qstr)
    ensures var h := AfterLoad(g, p, q);
            Linked(m, g, p, q, host) ==
            Unless(SomeBlocked(p.ld, h, AllEntries(m, p.ld)) || SomeBlocked(q.ld, h, AllEntries(m, q.ld)),
                   (LinkedEarly(m, p.ld, q.ld, host), h))
  {
    LateIsEarly(m, p.ld, pstr, q.ld, qstr, host);
    hide GuardedPass, Pass, AllEntries, Explicit, Safe, Separate, HostKept, SomeBlocked, PagesIn,
      PageProtection.InRange;
    var es, fs := AllEntries(m, p.ld), AllEntries(m, q.ld);
    KeptRefl(m, p.ld, pstr);
    KeptRefl(m, q.ld, qstr);
    var m1 := BothKept(m, m, p.ld, pstr, q.ld, qstr, [], host);
    var m2 := BothKept(m, m1, q.ld, qstr, p.ld, pstr, [], host);
    var m3 := BothKept(m, m2, p.ld, pstr, q.ld, qstr, [q.ld.exports], host);
    var g1 := g.(pages := g.pages + PagesIn(p, g.page));
    var g2 := AfterLoad(g, p, q);
    GuardedPassIff(m, m, p.ld, pstr, [], host, g);
    GuardedPassIff(m, m1, q.ld, qstr, [], host, g1);
    GuardedPassIff(m, m2, p.ld, pstr, [q.ld.exports], host, g2);
    GuardedPassIff(m, m3, q.ld, qstr, [p.ld.exports], host, g2);
    BlockedMore(p.ld, g, PagesIn(p, g.page) + PagesIn(q, g.page), es);
    BlockedMore(q.ld, g1, PagesIn(q, g.page), fs);
    assert g.(pages := g.pages + (PagesIn(p, g.page) + PagesIn(q, g.page))) == g2 by {
      assert g.pages + (PagesIn(p, g.page) + PagesIn(q, g.page)) == g2.pages;
    }
    assert g1.(pages := g1.pages + PagesIn(q, g.page)) == g2;
  }

  /** Every word of a library lies in its own writable segments. */
  ghost predicate WordsWritable(m: Mem, p: Module, page: U64) {
    page > 0 &&
    forall a | Covered(p.ld, AllEntries(m, p.ld), a) ::
      exists w | w in p.segs :: PageProtection.Writable(w) && PageProtection.Occupies(p.ld.base, w, page, a / page)
  }

  /** No page has both a writable and an execute-only segment of these on it. */
  ghost predicate NoSharedPage(base: U64, segs: seq<PageProtection.Segment>, page: U64) {
    page > 0 &&
    forall w, s, n: int | w in segs && s in segs && PageProtection.Writable(w) && PageProtection.ExecuteOnly(s) &&
                          PageProtection.Occupies(base, w, page, n) ::
      !PageProtection.Occupies(base, s, page, n) && !PageProtection.EmptyInside(base, s, page, n)
  }

  /** Its own pages do not stop a library whose words lie in writable segments. */
  lemma WritableNotBlocked(m: Mem, p: Module, page: U64)
    requires PageProtection.InRange(p.ld.base, p.segs, page) && WordsWritable(m, p, page) &&
               NoSharedPage(p.ld.base, p.segs, page)
    ensures forall a | Covered(p.ld, AllEntries(m, p.ld), a) :: a / page !in PagesOf(p.ld, p.segs, page)
  {
    hide AllEntries, Covered, PageProtection.Occupies, PageProtection.Protected, PageProtection.EmptyInside,
      PageProtection.Writable, PageProtection.ExecuteOnly;
    forall a | Covered(p.ld, AllEntries(m, p.ld), a)
      ensures a / page !in PageProtection.Protected(p.ld.base, p.segs, page)
    {
      var w :| w in p.segs && PageProtection.Writable(w) && PageProtection.Occupies(p.ld.base, w, page, a / page);
      PageProtection.ProtectedIff(p.ld.base, p.segs, page, a / page);
    }
  }

  /** Main result: libraries whose words lie in writable segments that share no
      page with an execute-only one, theirs or the other's, link without a fault. */
  lemma WritableLinks(m: Mem, page: U64, p: Module, pstr: nat, q: Module, qstr: nat, host: Host)
    requires PageProtection.InRange(p.ld.base, p.segs, page) && PageProtection.InRange(q.ld.base, q.segs, page)
    requires Passable(m, p.ld, pstr) && Passable(m, q.ld, qstr) && Separate(m, p.ld, pstr, q.ld, qstr)
    requires WordsWritable(m, p, page) && NoSharedPage(p.ld.base, p.segs, page)
    requires WordsWritable(m, q, page) && NoSharedPage(q.ld.base, q.segs, page)
    requires forall a | Covered(p.ld, AllEntries(m, p.ld), a) :: a / page !in PagesOf(q.ld, q.segs, page)
    requires forall a | Covered(q.ld, AllEntries(m, q.ld), a) :: a / page !in PagesOf(p.ld, p.segs, page)
    ensures var g := Guard({}, page);
            Linked(m, g, p, q, host) == Continue((LinkedEarly(m, p.ld, q.ld, host), AfterLoad(g, p, q)))
  {
    hide AllEntries, Covered, WordsWritable, NoSharedPage, Passable, Separate, PagesOf, Linked, LinkedEarly,
      SomeBlocked, PageProtection.InRange;
    var g := Guard({}, page);
    WritableNotBlocked(m, p, page);
    WritableNotBlocked(m, q, page);
    LinkedIff(m, g, p, pstr, q, qstr, host);
    BlockedIffCovered(p.ld, AfterLoad(g, p, q), AllEntries(m, p.ld));
    BlockedIffCovered(q.ld, AfterLoad(g, p, q), AllEntries(m, q.ld));
  }

  // From the two files on ------------------------------------------------------------------------------

  /** A file, and where `mmap` puts it. */
  datatype Source = Source(phs: seq<Phdr>, file: seq<Byte>, at: U64)

  ghost predicate Fine(m: Mem, s: Source, page: U64) {
    CanPlace(m, s.phs, s.file, s.at) && PageProtection.InRange(s.at, SegmentsOf(s.phs), page)
  }

  /** One `load`, alone: the memory and protections after it and the loader, or nothing when it fails. */
  ghost function LoadOne(m: Mem, g: Guard, s: Source, host: Host): Outcome<Option<(Mem, Guard, Module)>>
    requires Fine(m, s, g.page)
  {
    match LoadedIn(m, s.phs, s.file, s.at)
    case None => Continue(None)
    case Some((placed, ld)) =>
      var after :- GuardedPass(placed, ld, [], host, g);
      ElfLoader.BaseIs(m, s.phs, s.file, s.at);
      var p := Module(ld, SegmentsOf(s.phs));
      Continue(Some((after, g.(pages := g.pages + PagesIn(p, g.page)), p)))
  }

  /** The files can be loaded one after the other. */
  ghost predicate BothFine(m: Mem, g: Guard, s: Source, t: Source, host: Host) {
    Fine(m, s, g.page) &&
    match LoadOne(m, g, s, host)
    case Continue(Some((after, h, p))) => Fine(after, t, h.page)
    case _ => true
  }

  /** The steps of `load_adi_and_setup`: load one, load the other, relocate both again. */
  ghost function LoadBoth(m: Mem, g: Guard, s: Source, t: Source, host: Host): Outcome<Option<(Mem, Guard)>>
    requires BothFine(m, g, s, t, host)
  {
    var first :- LoadOne(m, g, s, host);
    match first
    case None => Continue(None)
    case Some((m1, g1, p)) =>
      var second :- LoadOne(m1, g1, t, host);
      match second
      case None => Continue(None)
      case Some((m2, g2, q)) =>
        var m3 :- GuardedPass(m2, p.ld, [q.ld.exports], host, g2);
        var m4 :- GuardedPass(m3, q.ld, [p.ld.exports], host, g2);
        Continue(Some((m4, g2)))
  }

  lemma LoadedMem(m: Mem, phs: seq<Phdr>, file: seq<Byte>, at: U64)
    requires CanPlace(m, phs, file, at) && Placeable(phs)
    ensures LoadedIn(m, phs, file, at).Some? ==> LoadedIn(m, phs, file, at).value.0 == PlacedMem(m, phs, file, at)
  {
    hide PlacedMem, ImageReady, Placeable, DescribedIn;
  }

  /** Main result: from two files to the linked program.  The second library is
      placed after the first has been relocated alone, and each is relocated
      twice; yet the whole faults exactly when some word lies on a page that the
      two loads protect, and otherwise ends as linking once, with each other known,
      the two images as they come from their files. */
  lemma LoadBothIff(m: Mem, g: Guard, s: Source, t: Source, host: Host, placed: Mem, p: Module, pstr: nat, q: Module,
                    qstr: nat)
    requires BothFine(m, g, s, t, host)
    requires LoadedIn(m, s.phs, s.file, s.at) == Some((placed, p.ld)) && p.segs == SegmentsOf(s.phs)
    requires PageProtection.InRange(p.ld.base, p.segs, g.page) && PageProtection.InRange(q.ld.base, q.segs, g.page)
    requires SelfMapped(placed, p.ld, pstr) && Safe(placed, p.ld, pstr) && FitsBeside(placed, t.phs, t.file, t.at)
    requires var both := PlacedMem(placed, t.phs, t.file, t.at);
             && Passable(both, p.ld, pstr) && Passable(both, q.ld, qstr) && Separate(both, p.ld, pstr, q.ld, qstr)
             && (CanPlace(Pass(placed, p.ld, [], host), t.phs, t.file, t.at) ==>
                   var second := LoadedIn(Pass(placed, p.ld, [], host), t.phs, t.file, t.at);
                   second.Some? && second.value.1 == q.ld)
             && q.segs == SegmentsOf(t.phs)
    ensures var both := PlacedMem(placed, t.phs, t.file, t.at);
            var h := AfterLoad(g, p, q);
            LoadBoth(m, g, s, t, host) ==
            Unless(SomeBlocked(p.ld, h, AllEntries(both, p.ld)) || SomeBlocked(q.ld, h, AllEntries(both, q.ld)),
                   Some((LinkedEarly(both, p.ld, q.ld, host), h)))
  {
    hide GuardedPass, Pass, AllEntries, Passable, Safe, Separate, SomeBlocked, PagesIn, PageProtection.InRange,
      LoadedIn, CanPlace, SelfMapped, PlacedMem, LinkedEarly, SegmentsOf, GoodSegments, Placeable, HostSpan,
      ContentsInFile, Unmapped;
    var both := PlacedMem(placed, t.phs, t.file, t.at);
    PlaceAfterPass(placed, p.ld, pstr, [], host, t.phs, t.file, t.at);
    if CanPlace(Pass(placed, p.ld, [], host), t.phs, t.file, t.at) {
      LoadedMem(Pass(placed, p.ld, [], host), t.phs, t.file, t.at);
    }
    KeptRefl(placed, p.ld, pstr);
    KeptRefl(both, p.ld, pstr);
    GuardedPassIff(placed, placed, p.ld, pstr, [], host, g);
    GuardedPassIff(both, both, p.ld, pstr, [], host, g);
    LinkedIff(both, g, p, pstr, q, qstr, host);
    hide HostKept;
  }

  function ModuleOf(l: ElfLoader): Module
    reads l
  {
    Module(l.Look(), l.segments)
  }

  /** The loading and linking steps of `load_adi_and_setup`. */
  method LoadPair(proc: Process, ssc: ElfLoader, core: ElfLoader, s: Source, t: Source) returns (r: Outcome<bool>)
    requires ssc != core && ssc.siblings == [] && core.siblings == []
    requires BothFine(proc.mem, proc.Guarded(), s, t, proc.host)
    modifies proc, ssc, core
    ensures match LoadBoth(old(proc.mem), old(proc.Guarded()), s, t, proc.host)
            case Abort => r.Abort?
            case Continue(None) => r == Continue(false)
            case Continue(Some((m, g))) =>
              && r == Continue(true) && proc.mem == m && proc.Guarded() == g
              && ssc.siblings == [core] && core.siblings == [ssc]
  {
    hide GuardedPass, LoadedIn, CanPlace, PageProtection.InRange, PageProtection.Protected, SegmentsOf;
    var ok :- ssc.Load(proc, s.phs, s.file, s.at);
    if !ok {
      return Continue(false);
    }
    ok :- core.Load(proc, t.phs, t.file, t.at);
    if !ok {
      return Continue(false);
    }
    ssc.AddSibling(core);
    core.AddSibling(ssc);
    assert ExportsOf([core]) == [core.exports] && ExportsOf([ssc]) == [ssc.exports];
    ghost var pages := proc.executable;
    var _ :- ssc.Relocate(proc);
    assert proc.executable == pages;
    var _ :- core.Relocate(proc);
    assert proc.executable == pages;
    return Continue(true);
  }
}
