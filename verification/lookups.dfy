/** Where both linkers look for an undefined name, as one list of places of which
    the first that has the name decides. */
module Lookups {
  import opened Words
  import opened VmState
  import opened SymbolNames
  import opened Resolver
  import opened HostRelocation

  /** A table to look in, and the name to look for. */
  datatype Probe = Probe(table: map<string, U64>, name: string) {
    predicate Hit() {
      name in table
    }
  }

  /** The first probe that hits. */
  function FirstHit(ps: seq<Probe>): (k: Option<nat>)
    ensures k.Some? ==> k.value < |ps| && ps[k.value].Hit() && forall j | 0 <= j < k.value :: !ps[j].Hit()
    ensures k.None? ==> forall j | 0 <= j < |ps| :: !ps[j].Hit()
  {
    if ps == [] then None
    else if ps[0].Hit() then Some(0)
    else
      match FirstHit(ps[1..])
      case Some(k) => Some(k + 1)
      case None => None
  }

  function Found(ps: seq<Probe>): Option<U64> {
    match FirstHit(ps)
    case Some(k) => Some(ps[k].table[ps[k].name])
    case None => None
  }

  lemma FoundAppend(ps: seq<Probe>, qs: seq<Probe>)
    ensures Found(ps + qs) == match Found(ps) case Some(a) => Some(a) case None => Found(qs)
  {
    var k, i, j := FirstHit(ps + qs), FirstHit(ps), FirstHit(qs);
    assert forall x | 0 <= x < |ps| :: (ps + qs)[x] == ps[x];
    assert forall x | 0 <= x < |qs| :: (ps + qs)[|ps| + x] == qs[x];
    assert i.Some? ==> (ps + qs)[i.value].Hit();
    assert j.Some? ==> (ps + qs)[|ps| + j.value].Hit();
  }

  /** A name looked for in each table, in order. */
  function InMaps(maps: seq<map<string, U64>>, name: string): seq<Probe> {
    if maps == [] then [] else [Probe(maps[0], name)] + InMaps(maps[1..], name)
  }

  lemma OneProbe(table: map<string, U64>, name: string)
    ensures Found([Probe(table, name)]) == if name in table then Some(table[name]) else None
  {
  }

  lemma NoProbe()
    ensures Found([]) == None
  {
  }

  lemma {:induction false} ExportIsFound(maps: seq<map<string, U64>>, name: string)
    ensures Found(InMaps(maps, name)) == FindExport(maps, name)
  {
    if maps != [] {
      ExportIsFound(maps[1..], name);
      FoundAppend([Probe(maps[0], name)], InMaps(maps[1..], name));
      OneProbe(maps[0], name);
    } else {
      NoProbe();
    }
  }

  // The emulator --------------------------------------------------------------------------------

  /** The libraries' symbols, in load order. */
  function Tables(libs: seq<Lib>): (maps: seq<map<string, U64>>)
    ensures |maps| == |libs| && forall i | 0 <= i < |libs| :: maps[i] == libs[i].symbols
  {
    seq(|libs|, i requires 0 <= i < |libs| => libs[i].symbols)
  }

  lemma {:induction false} LookupIsFound(libs: seq<Lib>, name: string, from: nat)
    requires from <= |libs|
    ensures Found(InMaps(Tables(libs)[from..], name)) ==
            match LookupFrom(libs, name, from) case Some((_, a)) => Some(a) case None => None
    decreases |libs| - from
  {
    var maps := Tables(libs);
    if from < |libs| {
      LookupIsFound(libs, name, from + 1);
      assert maps[from..][0] == libs[from].symbols && maps[from..][1..] == maps[from + 1..];
      FoundAppend([Probe(libs[from].symbols, name)], InMaps(maps[from + 1..], name));
    }
  }

  /** Where the emulator looks: the referring library, every library in load
      order, every library in load order under the renamed name. */
  function EmulatorProbes(own: map<string, U64>, maps: seq<map<string, U64>>, name: string): seq<Probe> {
    [Probe(own, name)] + InMaps(maps, name) + if NdkName(name) != name then InMaps(maps, NdkName(name)) else []
  }

  /** Main result: the first of those places that has the name decides; a name
      found nowhere is bound, as data or as a function. */
  lemma EmulatorOrder(libs: seq<Lib>, lib: Lib, sym: Sym, name: string, imports: map<string, nat>)
    requires name != "" && (sym.value == 0 || sym.shndx == 0)
    ensures var r := ClassifySym(libs, lib, sym, name);
            match Found(EmulatorProbes(lib.symbols, Tables(libs), name))
            case Some(a) => !r.Unbound? && Address(r, imports) == a
            case None => r == Unbound(name, IsData(sym.info % 16, name))
  {
    hide NdkName, IsData, LookupFrom, FirstHit, InMaps, Found, Tables;
    var maps := Tables(libs);
    var renamed := if NdkName(name) != name then InMaps(maps, NdkName(name)) else [];
    assert maps[0..] == maps;
    LookupIsFound(libs, name, 0);
    LookupIsFound(libs, NdkName(name), 0);
    FoundAppend([Probe(lib.symbols, name)], InMaps(maps, name));
    FoundAppend([Probe(lib.symbols, name)] + InMaps(maps, name), renamed);
    OneProbe(lib.symbols, name);
    NoProbe();
  }

  // The host --------------------------------------------------------------------------------------

  /** Where the host looks: the library and its siblings, and again under the renamed name. */
  function HostProbes(maps: seq<map<string, U64>>, name: string): seq<Probe> {
    InMaps(maps, name) + if NdkName(name) != name then InMaps(maps, NdkName(name)) else []
  }

  /** Main result: the first of those places that has the name decides, and then
      the hooks; a name found nowhere leads to the dummy stub. */
  lemma HostOrder(ld: Loader, siblings: seq<map<string, U64>>, host: Host, name: string)
    requires name != ""
    ensures ResolveHostName(ld, siblings, host, name) ==
            match Found(HostProbes([ld.exports] + siblings, name))
            case Some(a) => a
            case None => if host.hooks(name) != 0 then host.hooks(name) else host.dummyStub
  {
    hide NdkName, FirstHit, InMaps, Found;
    var maps := [ld.exports] + siblings;
    var renamed := if NdkName(name) != name then InMaps(maps, NdkName(name)) else [];
    ExportIsFound(maps, name);
    ExportIsFound(maps, NdkName(name));
    FoundAppend(InMaps(maps, name), renamed);
    NoProbe();
  }

  // Both ----------------------------------------------------------------------------------------------

  /** Every table but one, in order. */
  function Others(maps: seq<map<string, U64>>, k: nat): seq<map<string, U64>>
    requires k < |maps|
  {
    maps[..k] + maps[k + 1..]
  }

  /** A name found under its renamed form only, which the referring library
      and an earlier one define at different addresses. */
  predicate Conflict(maps: seq<map<string, U64>>, k: nat, name: string)
    requires k < |maps|
  {
    var renamed := NdkName(name);
    && renamed != name && FindExport(maps, name).None?
    && renamed in maps[k]
    && FindExport(maps[..k], renamed).Some? && FindExport(maps[..k], renamed).value != maps[k][renamed]
  }

  lemma {:induction false} FindAppend(maps: seq<map<string, U64>>, more: seq<map<string, U64>>, name: string)
    ensures FindExport(maps + more, name) ==
            match FindExport(maps, name) case Some(a) => Some(a) case None => FindExport(more, name)
  {
    if maps == [] {
      assert maps + more == more;
    } else {
      assert (maps + more)[1..] == maps[1..] + more;
      FindAppend(maps[1..], more, name);
    }
  }

  /** The first table with a name, the tables before and after `k` apart. */
  lemma FindAround(maps: seq<map<string, U64>>, k: nat, name: string)
    requires k < |maps|
    ensures var own := if name in maps[k] then Some(maps[k][name]) else None;
            var before, after := FindExport(maps[..k], name), FindExport(maps[k + 1..], name);
            && FindExport([maps[k]], name) == own
            && FindExport(maps, name) == (if before.Some? then before else if own.Some? then own else after)
            && FindExport([maps[k]] + Others(maps, k), name) ==
               (if own.Some? then own else if before.Some? then before else after)
  {
    assert FindExport([maps[k]], name) == if name in maps[k] then Some(maps[k][name]) else None;
    assert maps == maps[..k] + ([maps[k]] + maps[k + 1..]);
    FindAppend(maps[..k], [maps[k]] + maps[k + 1..], name);
    FindAppend([maps[k]], maps[k + 1..], name);
    FindAppend([maps[k]], Others(maps, k), name);
    FindAppend(maps[..k], maps[k + 1..], name);
  }

  lemma FoundByFind(maps: seq<map<string, U64>>, k: nat, name: string)
    requires k < |maps|
    ensures var renamed := if NdkName(name) != name then FindExport(maps, NdkName(name)) else None;
            Found(EmulatorProbes(maps[k], maps, name)) ==
            match FindExport([maps[k]], name)
            case Some(a) => Some(a)
            case None => (match FindExport(maps, name) case Some(a) => Some(a) case None => renamed)
    ensures var all := [maps[k]] + Others(maps, k);
            var renamed := if NdkName(name) != name then FindExport(all, NdkName(name)) else None;
            Found(HostProbes(all, name)) == match FindExport(all, name) case Some(a) => Some(a) case None => renamed
  {
    hide NdkName, FirstHit, InMaps, Found, Others;
    var all := [maps[k]] + Others(maps, k);
    NoProbe();
    OneProbe(maps[k], name);
    ExportIsFound(maps, name);
    ExportIsFound(maps, NdkName(name));
    ExportIsFound(all, name);
    ExportIsFound(all, NdkName(name));
    FoundAppend([Probe(maps[k], name)], InMaps(maps, name));
    FoundAppend([Probe(maps[k], name)] + InMaps(maps, name),
                if NdkName(name) != name then InMaps(maps, NdkName(name)) else []);
    FoundAppend(InMaps(all, name), if NdkName(name) != name then InMaps(all, NdkName(name)) else []);
  }

  /** Main result: with the same libraries, siblings added in load order, the
      two linkers pick the same definition exactly when there is no conflict. */
  lemma SamePickIff(maps: seq<map<string, U64>>, k: nat, name: string)
    requires k < |maps|
    ensures Found(EmulatorProbes(maps[k], maps, name)) == Found(HostProbes([maps[k]] + Others(maps, k), name))
            <==> !Conflict(maps, k, name)
    ensures Found(EmulatorProbes(maps[k], maps, name)).Some? <==>
              Found(HostProbes([maps[k]] + Others(maps, k), name)).Some?
  {
    hide NdkName, EmulatorProbes, HostProbes, Found, FindExport, Others;
    FoundByFind(maps, k, name);
    FindAround(maps, k, name);
    FindAround(maps, k, NdkName(name));
  }

  /** The same for the two resolvers themselves: a reference that some library
      defines resolves to the same address in both exactly when there is no conflict. */
  lemma SameResolutionIff(libs: seq<Lib>, k: nat, sym: Sym, name: string, imports: map<string, nat>, ld: Loader,
                          host: Host)
    requires k < |libs| && name != "" && (sym.value == 0 || sym.shndx == 0)
    requires ld.exports == libs[k].symbols && Found(EmulatorProbes(libs[k].symbols, Tables(libs), name)).Some?
    ensures Address(ClassifySym(libs, libs[k], sym, name), imports) ==
              ResolveHostName(ld, Others(Tables(libs), k), host, name)
            <==> !Conflict(Tables(libs), k, name)
  {
    hide EmulatorProbes, HostProbes, Found, Others, Conflict, ClassifySym, ResolveHostName, Address, Tables;
    EmulatorOrder(libs, libs[k], sym, name, imports);
    HostOrder(ld, Others(Tables(libs), k), host, name);
    SamePickIff(Tables(libs), k, name);
  }

  const FIRST_AT: U64 := LIBRARY_ADDRESS + 0x1000
  const SECOND_AT: U64 := LIBRARY_ADDRESS + GRANULE + 0x1000

  /** Two libraries of one granule each that define "x3__1". */
  const CONFLICTING: seq<Lib> := [
    Lib("first", LIBRARY_ADDRESS, 0, GRANULE, 0, 0, 0, 0, 0, 0, 0, 0, 0, 0, 0, 0, 0, map["x3__1" := FIRST_AT]),
    Lib("second", LIBRARY_ADDRESS + GRANULE, 0, GRANULE, 0, 0, 0, 0, 0, 0, 0, 0, 0, 0, 0, 0, 0,
      map["x3__1" := SECOND_AT])]

  /** A conflict: for a reference of the second library to "x6__ndk1" the
      emulator takes the first library's definition, the host the second's own. */
  lemma RenamedConflict(sym: Sym, ld: Loader, host: Host, imports: map<string, nat>)
    requires (sym.value == 0 || sym.shndx == 0) && ld.exports == CONFLICTING[1].symbols
    ensures Conflict(Tables(CONFLICTING), 1, "x6__ndk1")
    ensures Address(ClassifySym(CONFLICTING, CONFLICTING[1], sym, "x6__ndk1"), imports) == FIRST_AT
    ensures ResolveHostName(ld, Others(Tables(CONFLICTING), 1), host, "x6__ndk1") == SECOND_AT
  {
    RenamedX();
    hide NdkName, IsData;
    var maps := Tables(CONFLICTING);
    var first, second := CONFLICTING[0].symbols, CONFLICTING[1].symbols;
    assert maps == [first, second] && maps[..1] == [first];
    assert Lookup(CONFLICTING, "x6__ndk1").None? && Lookup(CONFLICTING, "x3__1") == Some((0, FIRST_AT));
    assert [ld.exports] + Others(maps, 1) == [second, first];
    FindTwo(first, second, "x6__ndk1");
    FindTwo(first, second, "x3__1");
    FindTwo(second, first, "x6__ndk1");
    FindTwo(second, first, "x3__1");
  }

  lemma FindTwo(s: map<string, U64>, t: map<string, U64>, name: string)
    ensures FindExport([s], name) == if name in s then Some(s[name]) else None
    ensures FindExport([s, t], name) ==
            if name in s then Some(s[name]) else if name in t then Some(t[name]) else None
  {
    assert [s, t][1..] == [t];
    assert FindExport([t], name) == if name in t then Some(t[name]) else None;
  }
}
