/** From the files on: two machines that load the same files at different places
    and link them end with the same program. */
module LoadLink {
  import opened Words
  import opened GuestMemory
  import opened VmState
  import opened Resolver
  import opened Relocation
  import opened Position
  import opened LinkAll
  import opened WholeLink
  import opened Twins

  /** The moves two lists of plans make. */
  function Moves(ps: seq<Plan>, qs: seq<Plan>, shares: seq<Share>): (mv: Move)
    requires |ps| == |qs|
    ensures |mv.spans| == |shares| && forall j | 0 <= j < |shares| :: mv.spans[j] == shares[j].span
    ensures mv.ds == Distances(ps, qs)
  {
    Move(seq(|shares|, j requires 0 <= j < |shares| => shares[j].span), Distances(ps, qs))
  }

  /** The placed libraries can be linked in the first machine, each refers only
      into the libraries' images, and behind each image the two machines have the
      same addresses mapped. */
  ghost predicate ReadyToLink(x: State, y: State, ps: seq<Plan>, qs: seq<Plan>, shares: seq<Share>) {
    && |ps| == |qs| == |shares| == |x.libs| == |y.libs|
    && AllLinkable(x.mem, x.libs, shares)
    && (forall j | 0 <= j < |ps| :: shares[j].span == Length(ps[j]))
    && (forall j | 0 <= j < |ps| :: SelfContained(x.mem, x.libs, x.libs[j], j, shares[j].nsyms, Moves(ps, qs, shares)))
    && (forall j | 0 <= j < |ps| :: TailAlike(x.mem, y.mem, ps[j].base + shares[j].span, qs[j].base - ps[j].base))
    && (forall i, j | 0 <= i < j < |ps| :: SharesApart(y.libs[i], shares[i], y.libs[j], shares[j]))
  }

  lemma PlacedSetting(x: State, y: State, ps: seq<Plan>, qs: seq<Plan>, shares: seq<Share>, j: nat)
    requires TwinLibs(x, y, ps, qs) && ReadyToLink(x, y, ps, qs, shares) && j < |ps|
    ensures Setting(x.mem, y.mem, x.libs, y.libs, x.libs[j], y.libs[j], j, shares[j].nsyms, Moves(ps, qs, shares))
  {
    hide LibsMoved, SelfContained, SharesApart, Relocatable, Length, Placed, SameImage, MappedAlike, TablesInside,
      Target, Entries;
    assert forall i | 0 <= i < |ps| :: TwinLib(x.mem, y.mem, x.libs[i], y.libs[i], ps[i], qs[i]);
    assert Linkable(x.mem, x.libs[j], shares[j]);
  }

  /** Main result: load the same files into two machines, each file at its own
      two bases, and relocate everything: the two links end alike, every word
      moved by the distance of the library it refers into. */
  lemma LoadLinkIndependent(x: State, y: State, ps: seq<Plan>, qs: seq<Plan>, shares: seq<Share>)
    requires TwinPlans(x, y, ps, qs) && x.libs == [] && y.libs == []
    requires SameLinks(x, y) && LinkReady(x) && LinkReady(y)
    requires ReadyToLink(PlaceAll(x, ps), PlaceAll(y, qs), ps, qs, shares)
    ensures LinksMatch(PlaceAll(x, ps), PlaceAll(y, qs), Moves(ps, qs, shares))
  {
    hide TwinRoom, TwinLibs, PlaceAll, Loads, LinksMatch, Setting, ReadyToLink, LinkSetting, HeapOk;
    PlacedAllTwins(x, y, ps, qs);
    var x1, y1, mv := PlaceAll(x, ps), PlaceAll(y, qs), Moves(ps, qs, shares);
    ReadyParts(x1, y1, ps, qs, shares);
    forall j | 0 <= j < |ps|
      ensures Setting(x1.mem, y1.mem, x1.libs, y1.libs, x1.libs[j], y1.libs[j], j, shares[j].nsyms, mv)
    {
      PlacedSetting(x1, y1, ps, qs, shares, j);
    }
    ReadySetting(x1, y1, ps, qs, shares);
    LinkIndependent(x1, y1, shares, mv);
  }

  lemma ReadyParts(x: State, y: State, ps: seq<Plan>, qs: seq<Plan>, shares: seq<Share>)
    requires ReadyToLink(x, y, ps, qs, shares)
    ensures |ps| == |qs| == |shares| == |x.libs| == |y.libs|
  {
    hide AllLinkable, SelfContained, TailAlike, SharesApart;
  }

  lemma ReadySetting(x: State, y: State, ps: seq<Plan>, qs: seq<Plan>, shares: seq<Share>)
    requires ReadyToLink(x, y, ps, qs, shares)
    requires forall j | 0 <= j < |ps| ::
               Setting(x.mem, y.mem, x.libs, y.libs, x.libs[j], y.libs[j], j, shares[j].nsyms, Moves(ps, qs, shares))
    ensures LinkSetting(x.mem, y.mem, x.libs, y.libs, shares, Moves(ps, qs, shares))
  {
    hide AllLinkable, SelfContained, TailAlike, SharesApart, Setting;
  }
}
