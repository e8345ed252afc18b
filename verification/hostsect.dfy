/** Where the host looks in its image: the dynamic table and the hash section. */
module HostSections {
  import opened Words
  import opened GuestMemory
  import opened Image
  import opened HostRelocation
  import opened GnuHashTable
  import opened HostSymbols
  import opened HostDynamic

  /** The first PT_DYNAMIC header gives the host its dynamic table. */
  function FirstDynamic(base: U64, phs: seq<Phdr>): Option<U64> {
    if phs == [] then None
    else if phs[0].kind == PT_DYNAMIC then Some(Wrap(base + phs[0].vaddr))
    else FirstDynamic(base, phs[1..])
  }

  /** The words from an address to the end of an image. */
  function WordsFrom(m: Mem, at: U64, end: nat): (words: seq<U32>)
    ensures |words| == if at <= end then (end - at) / 4 else 0
  {
    seq(if at <= end then (end - at) / 4 else 0, i requires 0 <= i => Half(Peek(m, at + 4 * i, 4)))
  }

  /** The hash section of the image. */
  function Section(m: Mem, loc: Located, end: nat): seq<U32> {
    WordsFrom(m, loc.gnuHash, end)
  }

  ghost predicate SectionOk(words: seq<U32>) {
    HeaderOk(words) && WellFormed(Parse(words))
  }

  /** The section the linker writes: buckets in order, chains tiling the symbols. */
  ghost predicate SectionTiled(words: seq<U32>) {
    SectionOk(words) && Increasing(Parse(words)) && Tiles(Parse(words))
  }

  /** The symbols a section counts; nothing is said of a section whose chains do not end. */
  ghost function Count(words: seq<U32>): nat {
    if SectionOk(words) then SymCount(Parse(words)) else 0
  }

  /** The exports found by walking the hash chains. */
  ghost function Walked(m: Mem, base: U64, loc: Located, words: seq<U32>): map<string, U64> {
    if SectionOk(words)
    then WalkFrom(map[], base, SymbolsIn(m, loc.symtab, loc.strtab, Count(words)), Parse(words), 0)
    else map[]
  }

  // A GNU hash section on the bytes ---------------------------------------------------------------------

  function Number(m: Mem, at: int): int {
    Sum4(Peek(m, at, 4))
  }

  /** The section stands at an address: four header words, of which the third
      counts the filter's words of eight bytes, the filter, the buckets, the chains. */
  ghost predicate GnuStandsAt(m: Mem, at: int, g: GnuHash, filter: nat) {
    && Number(m, at) == |g.buckets| && Number(m, at + 4) == g.symoffset && Number(m, at + 8) == filter
    && (forall b | 0 <= b < |g.buckets| :: Number(m, at + 16 + 8 * filter + 4 * b) == g.buckets[b])
    && (forall c | 0 <= c < |g.chains| ::
          Number(m, at + 16 + 8 * filter + 4 * |g.buckets| + 4 * c) == g.chains[c])
  }

  lemma WordIsNumber(m: Mem, at: U64, end: nat, k: nat)
    requires k < |WordsFrom(m, at, end)|
    ensures WordsFrom(m, at, end)[k] == Number(m, at + 4 * k)
  {
    LowByteFirst(Peek(m, at + 4 * k, 4));
    hide Half;
  }

  lemma HeaderWords(m: Mem, loc: Located, end: nat, g: GnuHash, filter: nat)
    requires GnuStandsAt(m, loc.gnuHash, g, filter)
    requires loc.gnuHash + 16 + 8 * filter + 4 * |g.buckets| + 4 * |g.chains| <= end <= loc.gnuHash + TWO32
    ensures var words := Section(m, loc, end);
            && HeaderOk(words) && words[0] == |g.buckets| && words[1] == g.symoffset && words[2] == filter
            && |words| >= 4 + 2 * filter + |g.buckets| + |g.chains|
  {
    hide Number;
    WordIsNumber(m, loc.gnuHash, end, 0);
    WordIsNumber(m, loc.gnuHash, end, 1);
    WordIsNumber(m, loc.gnuHash, end, 2);
  }

  /** Main result: the loader's reading of such a section has its buckets and
      starts with its chains; what lies behind it in the image is read as more chains. */
  lemma SectionIsParsed(m: Mem, loc: Located, end: nat, g: GnuHash, filter: nat)
    requires GnuStandsAt(m, loc.gnuHash, g, filter)
    requires loc.gnuHash + 16 + 8 * filter + 4 * |g.buckets| + 4 * |g.chains| <= end <= loc.gnuHash + TWO32
    ensures var words := Section(m, loc, end);
            && HeaderOk(words)
            && Parse(words).symoffset == g.symoffset && Parse(words).buckets == g.buckets
            && |g.chains| <= |Parse(words).chains| && Parse(words).chains[..|g.chains|] == g.chains
  {
    HeaderWords(m, loc, end, g, filter);
    BucketWords(m, loc, end, g, filter);
    ChainWords(m, loc, end, g, filter);
    hide GnuStandsAt, Section;
  }

  lemma BucketWords(m: Mem, loc: Located, end: nat, g: GnuHash, filter: nat)
    requires GnuStandsAt(m, loc.gnuHash, g, filter)
    requires var words := Section(m, loc, end); |words| >= 4 + 2 * filter + |g.buckets| + |g.chains|
    ensures forall b | 0 <= b < |g.buckets| :: Section(m, loc, end)[4 + 2 * filter + b] == g.buckets[b]
  {
    hide Number;
    forall b | 0 <= b < |g.buckets|
      ensures Section(m, loc, end)[4 + 2 * filter + b] == g.buckets[b]
    {
      WordIsNumber(m, loc.gnuHash, end, 4 + 2 * filter + b);
    }
  }

  lemma ChainWords(m: Mem, loc: Located, end: nat, g: GnuHash, filter: nat)
    requires GnuStandsAt(m, loc.gnuHash, g, filter)
    requires var words := Section(m, loc, end); |words| >= 4 + 2 * filter + |g.buckets| + |g.chains|
    ensures forall c | 0 <= c < |g.chains| :: Section(m, loc, end)[4 + 2 * filter + |g.buckets| + c] == g.chains[c]
  {
    hide Number;
    forall c | 0 <= c < |g.chains|
      ensures Section(m, loc, end)[4 + 2 * filter + |g.buckets| + c] == g.chains[c]
    {
      WordIsNumber(m, loc.gnuHash, end, 4 + 2 * filter + |g.buckets| + c);
    }
  }

  /** So its count, too, is the number of the library's symbols. */
  lemma GnuCountIsTotal(m: Mem, loc: Located, end: nat, g: GnuHash, filter: nat)
    requires GnuStandsAt(m, loc.gnuHash, g, filter) && Written(g, |g.chains|)
    requires loc.gnuHash + 16 + 8 * filter + 4 * |g.buckets| + 4 * |g.chains| <= end <= loc.gnuHash + TWO32
    requires g.symoffset + (end - loc.gnuHash) / 4 <= TWO32
    ensures SectionOk(Section(m, loc, end)) && Count(Section(m, loc, end)) == g.symoffset + |g.chains|
  {
    SectionIsParsed(m, loc, end, g, filter);
    hide Section, GnuStandsAt, WellFormed, SymCount, Tiles;
    var h := Parse(Section(m, loc, end));
    SectionLength(m, loc, end);
    MoreChains(g, h);
    CountIsTotal(h, |g.chains|);
  }

  lemma SectionLength(m: Mem, loc: Located, end: nat)
    requires HeaderOk(Section(m, loc, end)) && loc.gnuHash <= end
    ensures |Parse(Section(m, loc, end)).chains| <= (end - loc.gnuHash) / 4
  {
  }

  lemma MoreChains(g: GnuHash, h: GnuHash)
    requires Written(g, |g.chains|) && h.symoffset == g.symoffset && h.buckets == g.buckets
    requires |g.chains| <= |h.chains| && h.chains[..|g.chains|] == g.chains && h.symoffset + |h.chains| <= TWO32
    ensures Written(h, |g.chains|)
  {
    assert forall c | 0 <= c < |g.chains| :: h.chains[c] == h.chains[..|g.chains|][c];
    assert forall i: nat :: StartsChain(h, i) == StartsChain(g, i);
  }
}
