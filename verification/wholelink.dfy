/** Position independence of the whole link: every library at its own distance,
    all of them relocated in turn. */
module WholeLink {
  import opened Words
  import opened GuestMemory
  import opened VmState
  import opened Resolver
  import opened Relocation
  import opened Position
  import opened LinkAll

  /** Two machines that hold the same libraries, each at its own distance, with
      their shares of memory apart in both. */
  ghost predicate LinkSetting(m0: Mem, n0: Mem, libs: seq<Lib>, libs2: seq<Lib>, shares: seq<Share>, mv: Move) {
    && AllLinkable(m0, libs, shares) && |libs2| == |libs| == |shares| == |mv.spans|
    && (forall j | 0 <= j < |libs| :: mv.spans[j] == shares[j].span)
    && (forall j | 0 <= j < |libs| :: Setting(m0, n0, libs, libs2, libs[j], libs2[j], j, shares[j].nsyms, mv))
    && (forall i, j | 0 <= i < j < |libs| :: SharesApart(libs2[i], shares[i], libs2[j], shares[j]))
  }

  /** A library that can be linked at one place can be linked at the other. */
  lemma LinkableMoved(m0: Mem, n0: Mem, libs: seq<Lib>, libs2: seq<Lib>, shares: seq<Share>, mv: Move, j: nat)
    requires LinkSetting(m0, n0, libs, libs2, shares, mv) && j < |libs|
    ensures Linkable(n0, libs2[j], shares[j])
    ensures Entries(n0, libs2[j]) == Entries(m0, libs[j])
  {
    hide AllLinkable, SharesApart, Setting, Entries, Relocatable, TablesInside, Target;
    SettingRelocatable(m0, n0, libs, libs2, libs[j], libs2[j], j, shares[j].nsyms, mv);
    SettingTables(m0, n0, libs, libs2, libs[j], libs2[j], j, shares[j].nsyms, mv);
    forall e | e in Entries(n0, libs2[j]) && Active(e)
      ensures libs2[j].base <= Target(libs2[j], e) && Target(libs2[j], e) + 8 <= libs2[j].base + shares[j].span
    {
      SettingBase(m0, n0, libs, libs2, libs[j], libs2[j], j, shares[j].nsyms, mv, e);
      TargetMoved(libs[j], libs2[j], mv.ds[j], shares[j].span, e);
    }
  }

  lemma SettingTables(m0: Mem, n0: Mem, libs: seq<Lib>, libs2: seq<Lib>, lib: Lib, lib2: Lib, k: nat, nsyms: nat,
                      mv: Move)
    requires Setting(m0, n0, libs, libs2, lib, lib2, k, nsyms, mv)
    ensures k < |mv.spans| && TablesInside(lib2, nsyms, mv.spans[k])
  {
    hide ImageMoved, Relocatable, Entries, LibsMoved;
    OneMoved(libs, libs2, mv.ds, k);
  }

  lemma AllLinkableMoved(m0: Mem, n0: Mem, libs: seq<Lib>, libs2: seq<Lib>, shares: seq<Share>, mv: Move)
    requires LinkSetting(m0, n0, libs, libs2, shares, mv)
    ensures AllLinkable(n0, libs2, shares)
  {
    hide Setting, Linkable, SharesApart;
    forall j | 0 <= j < |libs|
      ensures Linkable(n0, libs2[j], shares[j])
    {
      LinkableMoved(m0, n0, libs, libs2, shares, mv, j);
    }
  }

  /** One library of the two links: neither aborts alone, and both hand out the same addresses. */
  lemma OneInStep(m0: Mem, n0: Mem, x: State, y: State, shares: seq<Share>, mv: Move, j: nat)
    requires LinkSetting(m0, n0, x.libs, y.libs, shares, mv) && j < |x.libs|
    requires LinkReady(x) && LinkReady(y) && SameLinks(x, y)
    requires ShareKept(m0, x.mem, x.libs[j], shares[j]) && ShareKept(n0, y.mem, y.libs[j], shares[j])
    ensures ApplyRelocations(x, x.libs[j]).Abort? <==> ApplyRelocations(y, y.libs[j]).Abort?
    ensures ApplyRelocations(x, x.libs[j]).Continue? ==>
              SameLinks(ApplyRelocations(x, x.libs[j]).value, ApplyRelocations(y, y.libs[j]).value)
  {
    hide Setting, ShareKept, SharesApart, LinkReady, SameLinks, ApplyRelocations, ApplyEntries, Entries, Clear,
      TablesWellFormed, TablesKept, PairwiseApart, TablesInside, Target;
    var lib, lib2, s := x.libs[j], y.libs[j], shares[j];
    var es := Entries(m0, lib);
    assert Linkable(m0, lib, s);
    LinkableMoved(m0, n0, x.libs, y.libs, shares, mv, j);
    KeptLinkable(m0, x.mem, lib, s);
    KeptLinkable(n0, y.mem, lib2, s);
    KeptTables(m0, x.mem, lib, s);
    KeptTables(n0, y.mem, lib2, s);
    RelocationIsEntries(x, lib, s.nsyms);
    RelocationIsEntries(y, lib2, s.nsyms);
    EntriesInStep(m0, n0, x, y, lib, lib2, j, s.nsyms, mv, es);
  }

  lemma {:induction false} LinksInStep(m0: Mem, n0: Mem, x: State, y: State, libs: seq<Lib>, libs2: seq<Lib>,
                                       shares: seq<Share>, mv: Move, i: nat)
    requires LinkSetting(m0, n0, libs, libs2, shares, mv) && AllLinkable(n0, libs2, shares) && i <= |libs|
    requires Progress(m0, x, libs, shares, i) && Progress(n0, y, libs2, shares, i) && SameLinks(x, y)
    ensures RelocateFrom(x, libs, i).Abort? <==> RelocateFrom(y, libs2, i).Abort?
    ensures RelocateFrom(x, libs, i).Continue? ==>
              SameLinks(RelocateFrom(x, libs, i).value, RelocateFrom(y, libs2, i).value)
    decreases |libs| - i
  {
    hide LinkSetting, AllLinkable, Progress, SameLinks, ApplyRelocations;
    LengthsAgree(m0, n0, libs, libs2, shares, mv);
    if i < |libs| {
      ProgressParts(m0, x, libs, shares, i);
      ProgressParts(n0, y, libs2, shares, i);
      OneInStep(m0, n0, x, y, shares, mv, i);
      if ApplyRelocations(x, libs[i]).Continue? {
        OneMore(m0, x, libs, shares, i);
        OneMore(n0, y, libs2, shares, i);
        LinksInStep(m0, n0, ApplyRelocations(x, libs[i]).value, ApplyRelocations(y, libs2[i]).value, libs, libs2,
          shares, mv, i + 1);
      }
    }
  }

  lemma LengthsAgree(m0: Mem, n0: Mem, libs: seq<Lib>, libs2: seq<Lib>, shares: seq<Share>, mv: Move)
    requires LinkSetting(m0, n0, libs, libs2, shares, mv)
    ensures |libs2| == |libs| == |shares| && AllLinkable(m0, libs, shares)
  {
    hide Setting, Linkable, SharesApart;
  }

  lemma ProgressParts(m0: Mem, x: State, libs: seq<Lib>, shares: seq<Share>, i: nat)
    requires |shares| == |libs| && i < |libs| && Progress(m0, x, libs, shares, i)
    ensures x.libs == libs && LinkReady(x) && ShareKept(m0, x.mem, libs[i], shares[i])
  {
    hide ShareKept, ShareRelocated;
  }

  lemma ProgressAtStart(st: State, shares: seq<Share>)
    requires LinkReady(st) && |shares| == |st.libs|
    ensures Progress(st.mem, st, st.libs, shares, 0)
  {
    hide ShareRelocated;
  }

  lemma ImageFromShare(m0: Mem, m: Mem, libs: seq<Lib>, lib: Lib, s: Share, imports: map<string, nat>)
    requires ShareRelocated(m0, m, libs, lib, s, imports)
    ensures Image(m0, m, libs, lib, s.span, Entries(m0, lib), imports)
  {
    hide Entries, Meaning, Writes, Target, Value, ToLE, Read, Bound;
    forall a | a in m0 && lib.base <= a < lib.base + s.span && !Written(m0, libs, lib, Entries(m0, lib), imports, a)
      ensures m[a] == m0[a]
    {
      assert InShare(lib, s, a);
    }
  }

  /** Two links end alike, library by library. */
  ghost predicate LinksMatch(x: State, y: State, mv: Move) {
    && (RelocateFrom(x, x.libs, 0).Abort? <==> RelocateFrom(y, y.libs, 0).Abort?)
    && (RelocateFrom(x, x.libs, 0).Continue? ==>
          var x1, y1 := RelocateFrom(x, x.libs, 0).value, RelocateFrom(y, y.libs, 0).value;
          && SameLinks(x1, y1)
          && forall j | 0 <= j < |x.libs| ::
               ImagesMatch(x.mem, x1.mem, y1.mem, x.libs, x.libs[j], j, mv, Entries(x.mem, x.libs[j]), x1.imports))
  }

  /** Main result: two whole links of the same libraries, each library moved by
      its own distance, end alike: both run out of room or neither does, every
      name gets the same fresh address, and in every library each word has moved
      by the distance of the library it refers into. */
  lemma LinkIndependent(x: State, y: State, shares: seq<Share>, mv: Move)
    requires LinkSetting(x.mem, y.mem, x.libs, y.libs, shares, mv)
    requires LinkReady(x) && LinkReady(y) && SameLinks(x, y)
    ensures LinksMatch(x, y, mv)
  {
    hide LinkSetting, AllLinkable, LinkReady, Progress, RelocateFrom, ShareRelocated, Image, ImagesMatch, Entries,
      InShare;
    LengthsAgree(x.mem, y.mem, x.libs, y.libs, shares, mv);
    AllLinkableMoved(x.mem, y.mem, x.libs, y.libs, shares, mv);
    ProgressAtStart(x, shares);
    ProgressAtStart(y, shares);
    LinksInStep(x.mem, y.mem, x, y, x.libs, y.libs, shares, mv, 0);
    if RelocateFrom(x, x.libs, 0).Continue? {
      AllRelocated(x, shares);
      AllRelocated(y, shares);
      var x1, y1 := RelocateFrom(x, x.libs, 0).value, RelocateFrom(y, y.libs, 0).value;
      forall j | 0 <= j < |x.libs|
        ensures ImagesMatch(x.mem, x1.mem, y1.mem, x.libs, x.libs[j], j, mv, Entries(x.mem, x.libs[j]), x1.imports)
      {
        OneMatch(x.mem, y.mem, x1.mem, y1.mem, x.libs, y.libs, shares, mv, j, x1.imports);
      }
    }
  }

  lemma OneMatch(m0: Mem, n0: Mem, m: Mem, m2: Mem, libs: seq<Lib>, libs2: seq<Lib>, shares: seq<Share>, mv: Move,
                 j: nat, imports: map<string, nat>)
    requires LinkSetting(m0, n0, libs, libs2, shares, mv) && |shares| == |libs| == |libs2| && j < |libs|
    requires ShareRelocated(m0, m, libs, libs[j], shares[j], imports)
    requires ShareRelocated(n0, m2, libs2, libs2[j], shares[j], imports)
    ensures ImagesMatch(m0, m, m2, libs, libs[j], j, mv, Entries(m0, libs[j]), imports)
  {
    hide AllLinkable, SharesApart, Setting, ShareRelocated, Image, ImagesMatch, Entries;
    LinkableMoved(m0, n0, libs, libs2, shares, mv, j);
    ImageFromShare(m0, m, libs, libs[j], shares[j], imports);
    ImageFromShare(n0, m2, libs2, libs2[j], shares[j], imports);
    MatchFromImages(m0, n0, m, m2, libs, libs2, libs[j], libs2[j], j, shares[j].nsyms, mv, Entries(m0, libs[j]),
      imports);
  }
}
