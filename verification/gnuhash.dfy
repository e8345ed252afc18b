/** The host loader's use of the GNU hash section: the symbol count derived from
    it, and the export map built by walking its chains. */
module GnuHashTable {
  import opened Words

  /** The section as the loader reads it: chains extend as far as memory does. */
  datatype GnuHash = GnuHash(symoffset: U32, buckets: seq<U32>, chains: seq<U32>)

  datatype Symbol = Symbol(name: string, value: U64)

  /** The section's words: four header words, the bloom filter, buckets, chains. */
  function Parse(words: seq<U32>): GnuHash
    requires HeaderOk(words)
  {
    var nbuckets: int, bloomSize: int := words[0], words[2];
    var first := 4 + 2 * bloomSize;
    GnuHash(words[1], words[first..first + nbuckets], words[first + nbuckets..])
  }

  predicate HeaderOk(words: seq<U32>) {
    |words| >= 4 && 4 + 2 * (words[2] as int) + words[0] <= |words| <= TWO32
  }

  predicate Ends(w: U32) {
    w % 2 == 1
  }

  /** Buckets are empty or at least symoffset, and after the largest one's slot
      some chain word ends a chain. */
  ghost predicate WellFormed(g: GnuHash) {
    && g.symoffset + |g.chains| <= TWO32
    && (forall b | 0 <= b < |g.buckets| :: g.buckets[b] == 0 || g.symoffset <= g.buckets[b])
    && exists t | 0 <= t < |g.chains| :: LargestBucket(g, |g.buckets|) - g.symoffset <= t && Ends(g.chains[t])
  }

  function LargestBucket(g: GnuHash, n: nat): (m: U32)
    requires n <= |g.buckets|
    ensures g.symoffset <= m
    ensures forall b | 0 <= b < n :: g.buckets[b] <= m
    ensures m == g.symoffset || m in g.buckets
  {
    if n == 0 then g.symoffset
    else
      var m := LargestBucket(g, n - 1);
      if g.buckets[n - 1] > m then g.buckets[n - 1] else m
  }

  /** Some chain word at or after symbol `idx`'s ends its chain. */
  ghost predicate EndsAfter(g: GnuHash, idx: nat) {
    g.symoffset <= idx && exists t | 0 <= t < |g.chains| :: idx - g.symoffset <= t && Ends(g.chains[t])
  }

  /** The last symbol of the chain through `idx`: the first ending word at or after it. */
  ghost predicate IsChainEnd(g: GnuHash, idx: nat, e: nat) {
    && g.symoffset <= idx <= e < g.symoffset + |g.chains|
    && Ends(g.chains[e - g.symoffset])
    && forall t | idx - g.symoffset <= t < e - g.symoffset :: !Ends(g.chains[t])
  }

  function ChainEnd(g: GnuHash, idx: nat): (e: nat)
    requires EndsAfter(g, idx)
    ensures IsChainEnd(g, idx, e)
    decreases g.symoffset as int + |g.chains| - idx
  {
    if Ends(g.chains[idx - g.symoffset]) then idx else ChainEnd(g, idx + 1)
  }

  function SymCount(g: GnuHash): nat
    requires WellFormed(g)
  {
    ChainEnd(g, LargestBucket(g, |g.buckets|)) + 1
  }

  lemma BucketsEnd(g: GnuHash, b: nat)
    requires WellFormed(g) && b < |g.buckets| && g.buckets[b] != 0
    ensures EndsAfter(g, g.buckets[b])
  {
  }

  /** Every symbol a chain walk from a bucket touches is below the derived count. */
  lemma WalkBelowCount(g: GnuHash, b: nat)
    requires WellFormed(g) && b < |g.buckets| && g.buckets[b] != 0
    ensures EndsAfter(g, g.buckets[b]) && ChainEnd(g, g.buckets[b]) < SymCount(g)
  {
    BucketsEnd(g, b);
    var e, last := ChainEnd(g, g.buckets[b]), ChainEnd(g, LargestBucket(g, |g.buckets|));
    assert Ends(g.chains[last - g.symoffset]);
    assert e <= last;
  }

  lemma ChainStep(g: GnuHash, idx: nat)
    requires EndsAfter(g, idx)
    ensures g.symoffset <= idx && idx - g.symoffset < |g.chains|
    ensures !Ends(g.chains[idx - g.symoffset]) ==> EndsAfter(g, idx + 1) && ChainEnd(g, idx) == ChainEnd(g, idx + 1)
    ensures Ends(g.chains[idx - g.symoffset]) ==> ChainEnd(g, idx) == idx
  {
  }

  /** The counting loops of `ElfLoader::load`, over the section's words. */
  method DeriveSymCount(words: seq<U32>) returns (count: nat)
    requires HeaderOk(words) && WellFormed(Parse(words))
    ensures count == SymCount(Parse(words))
  {
    hide SymCount, WellFormed, ChainEnd, Parse, EndsAfter, LargestBucket;
    var nbuckets: int, symoffset: int, bloomSize: int := words[0], words[1], words[2];
    var buckets := 4 + bloomSize * 2;
    ghost var g := Parse(words);
    Parts(words);
    NoBucket(g);
    var maxIdx: nat := symoffset;
    var b := 0;
    while b < nbuckets
      invariant 0 <= b <= nbuckets
      invariant maxIdx == LargestBucket(g, b)
    {
      BucketStep(g, b);
      if words[buckets + b] > maxIdx {
        maxIdx := words[buckets + b];
      }
      b := b + 1;
    }
    LargestEnds(g);
    if maxIdx >= symoffset {
      maxIdx := EndOfChain(words, maxIdx);
    }
    count := maxIdx + 1;
  }

  /** Where the parts of a section are. */
  lemma Parts(words: seq<U32>)
    requires HeaderOk(words)
    ensures var g, buckets := Parse(words), 4 + 2 * (words[2] as int);
            && g.symoffset == words[1] && |g.buckets| == words[0]
            && forall b | 0 <= b < words[0] :: buckets + b < |words| && g.buckets[b] == words[buckets + b]
  {
  }

  lemma NoBucket(g: GnuHash)
    ensures LargestBucket(g, 0) == g.symoffset
  {
  }

  lemma BucketStep(g: GnuHash, b: nat)
    requires b < |g.buckets|
    ensures var m := LargestBucket(g, b);
            LargestBucket(g, b + 1) == if g.buckets[b] > m then g.buckets[b] else m
  {
  }

  lemma LargestEnds(g: GnuHash)
    requires WellFormed(g)
    ensures EndsAfter(g, LargestBucket(g, |g.buckets|))
    ensures SymCount(g) == ChainEnd(g, LargestBucket(g, |g.buckets|)) + 1
  {
  }

  /** The loop to the first ending word at or after a symbol. */
  method EndOfChain(words: seq<U32>, first: nat) returns (e: nat)
    requires HeaderOk(words) && EndsAfter(Parse(words), first)
    ensures e == ChainEnd(Parse(words), first)
  {
    hide ChainEnd, EndsAfter, IsChainEnd;
    ghost var g := Parse(words);
    var nbuckets: int, symoffset: int, bloomSize: int := words[0], words[1], words[2];
    var chains := 4 + bloomSize * 2 + nbuckets;
    ChainStep(g, first);
    e := first;
    var chainIdx := first - symoffset;
    while !Ends(words[chains + chainIdx])
      invariant EndsAfter(g, e) && symoffset <= e && chainIdx == e - symoffset && chainIdx < |g.chains|
      invariant ChainEnd(g, first) == ChainEnd(g, e)
      decreases |g.chains| - chainIdx
    {
      assert words[chains + chainIdx] == g.chains[chainIdx];
      ChainStep(g, e);
      chainIdx, e := chainIdx + 1, e + 1;
      ChainStep(g, e);
    }
    assert words[chains + chainIdx] == g.chains[chainIdx];
    ChainStep(g, e);
  }

  // Exports -------------------------------------------------------------------------------

  function AddExport(acc: map<string, U64>, base: U64, s: Symbol): map<string, U64> {
    if s.value != 0 then acc[s.name := Wrap(base + s.value)] else acc
  }

  /** Adding the symbols in [from, to) in order: a later definition of a name wins. */
  function AddRange(acc: map<string, U64>, base: U64, syms: seq<Symbol>, from: nat, to: nat): map<string, U64>
    requires to <= |syms|
    decreases if from < to then to - from else 0
  {
    if from >= to then acc else AddRange(AddExport(acc, base, syms[from]), base, syms, from + 1, to)
  }

  lemma {:induction false} AddRangeSplit(acc: map<string, U64>, base: U64, syms: seq<Symbol>, from: nat, mid: nat,
                                         to: nat)
    requires from <= mid <= to <= |syms|
    ensures AddRange(acc, base, syms, from, to) == AddRange(AddRange(acc, base, syms, from, mid), base, syms, mid, to)
    decreases mid - from
  {
    if from < mid {
      AddRangeSplit(AddExport(acc, base, syms[from]), base, syms, from + 1, mid, to);
    }
  }

  /** The walk: chain by chain, in bucket order. */
  function WalkFrom(acc: map<string, U64>, base: U64, syms: seq<Symbol>, g: GnuHash, b: nat): map<string, U64>
    requires WellFormed(g) && SymCount(g) <= |syms|
    decreases |g.buckets| - b
  {
    if b >= |g.buckets| then acc
    else if g.buckets[b] == 0 then WalkFrom(acc, base, syms, g, b + 1)
    else
      WalkBelowCount(g, b);
      WalkFrom(AddRange(acc, base, syms, g.buckets[b], ChainEnd(g, g.buckets[b]) + 1), base, syms, g, b + 1)
  }

  /** The export-building loops over buckets and chains. */
  method BuildExports(words: seq<U32>, syms: seq<Symbol>, base: U64) returns (exports: map<string, U64>)
    requires HeaderOk(words) && WellFormed(Parse(words)) && SymCount(Parse(words)) <= |syms|
    ensures exports == WalkFrom(map[], base, syms, Parse(words), 0)
  {
    hide ChainEnd, WellFormed, EndsAfter, AddRange, SymCount, IsChainEnd;
    ghost var g := Parse(words);
    var nbuckets: int, bloomSize: int := words[0], words[2];
    var buckets := 4 + bloomSize * 2;
    exports := map[];
    var b := 0;
    while b < nbuckets
      invariant 0 <= b <= nbuckets == |g.buckets|
      invariant WalkFrom(map[], base, syms, g, 0) == WalkFrom(exports, base, syms, g, b)
    {
      var idx := words[buckets + b];
      assert idx == g.buckets[b];
      if idx != 0 {
        WalkBelowCount(g, b);
        exports := AddChain(words, syms, base, exports, idx);
      }
      b := b + 1;
    }
  }

  /** The inner loop: one chain, from its bucket's symbol to its ending word. */
  method AddChain(words: seq<U32>, syms: seq<Symbol>, base: U64, before: map<string, U64>, first: nat)
    returns (exports: map<string, U64>)
    requires HeaderOk(words) && EndsAfter(Parse(words), first) && ChainEnd(Parse(words), first) < |syms|
    ensures exports == AddRange(before, base, syms, first, ChainEnd(Parse(words), first) + 1)
  {
    hide ChainEnd, EndsAfter;
    ghost var g := Parse(words);
    var nbuckets: int, symoffset: int, bloomSize: int := words[0], words[1], words[2];
    var chains := 4 + bloomSize * 2 + nbuckets;
    exports := before;
    var idx, chainIdx: int := first, first - symoffset;
    while true
      invariant first <= idx <= ChainEnd(g, first) && chainIdx == idx - symoffset
      invariant exports == AddRange(before, base, syms, first, idx)
      decreases ChainEnd(g, first) - idx
    {
      if syms[idx].value != 0 {
        exports := exports[syms[idx].name := Wrap(base + syms[idx].value)];
      }
      AddRangeSplit(before, base, syms, first, idx, idx + 1);
      assert words[chains + chainIdx] == g.chains[chainIdx];
      if Ends(words[chains + chainIdx]) {
        break;
      }
      chainIdx, idx := chainIdx + 1, idx + 1;
    }
  }

  /** The loop used when there is no GNU hash section. */
  method BuildExportsLinear(syms: seq<Symbol>, base: U64, count: nat) returns (exports: map<string, U64>)
    requires count <= |syms|
    ensures exports == AddRange(map[], base, syms, 0, count)
  {
    exports := map[];
    var i := 0;
    while i < count
      invariant 0 <= i <= count
      invariant AddRange(map[], base, syms, 0, count) == AddRange(exports, base, syms, i, count)
    {
      if syms[i].value != 0 {
        exports := exports[syms[i].name := Wrap(base + syms[i].value)];
      }
      i := i + 1;
    }
  }

  // The walk is a linear scan -----------------------------------------------------------------

  /** Non-empty buckets increase. */
  predicate Increasing(g: GnuHash) {
    forall b, c | 0 <= b < c < |g.buckets| && g.buckets[b] != 0 && g.buckets[c] != 0 :: g.buckets[b] < g.buckets[c]
  }

  predicate StartsChain(g: GnuHash, i: nat) {
    i != 0 && exists b | 0 <= b < |g.buckets| :: g.buckets[b] == i
  }

  /** Chains tile [symoffset, count): one starts exactly at symoffset and after each ending word. */
  ghost predicate Tiles(g: GnuHash)
    requires WellFormed(g)
  {
    forall i: nat | g.symoffset <= i < SymCount(g) ::
      (StartsChain(g, i) <==> i == g.symoffset || Ends(g.chains[i - 1 - g.symoffset]))
  }

  /** The first symbol of the next non-empty bucket, or the count when there is none. */
  function NextStart(g: GnuHash, b: nat): (i: nat)
    requires WellFormed(g)
    ensures i == SymCount(g) || (i != 0 && exists c | b <= c < |g.buckets| :: g.buckets[c] == i)
    ensures forall c | b <= c < |g.buckets| && g.buckets[c] != 0 && Increasing(g) :: i <= g.buckets[c]
    decreases |g.buckets| - b
  {
    if b >= |g.buckets| then SymCount(g)
    else if g.buckets[b] != 0 then g.buckets[b]
    else NextStart(g, b + 1)
  }

  /** A chain ends just before the next one starts. */
  lemma ChainMeetsNext(g: GnuHash, b: nat)
    requires WellFormed(g) && Increasing(g) && Tiles(g) && b < |g.buckets| && g.buckets[b] != 0
    ensures EndsAfter(g, g.buckets[b]) && ChainEnd(g, g.buckets[b]) + 1 == NextStart(g, b + 1)
  {
    hide LargestBucket, WellFormed;
    WalkBelowCount(g, b);
    var idx, next := g.buckets[b], NextStart(g, b + 1);
    var e := ChainEnd(g, idx);
    if next < SymCount(g) {
      NextStartsLater(g, b);
    }
    if e + 1 < SymCount(g) {
      assert StartsChain(g, e + 1);
      var c :| 0 <= c < |g.buckets| && g.buckets[c] == e + 1;
      assert c > b;
    } else {
      NextAtMostCount(g, b + 1);
    }
  }

  lemma NextAtMostCount(g: GnuHash, b: nat)
    requires WellFormed(g)
    ensures NextStart(g, b) <= SymCount(g)
  {
    var i := NextStart(g, b);
    if i != SymCount(g) {
      var c :| b <= c < |g.buckets| && g.buckets[c] == i;
      WalkBelowCount(g, c);
    }
  }

  lemma NextStartsLater(g: GnuHash, b: nat)
    requires WellFormed(g) && Increasing(g) && Tiles(g) && b < |g.buckets| && g.buckets[b] != 0
    requires EndsAfter(g, g.buckets[b]) && NextStart(g, b + 1) < SymCount(g)
    ensures NextStart(g, b + 1) >= ChainEnd(g, g.buckets[b]) + 1
  {
    hide NextStart, EndsAfter;
    var next := NextStart(g, b + 1);
    var c :| b + 1 <= c < |g.buckets| && g.buckets[c] == next;
    assert StartsChain(g, next) && next > g.buckets[b];
    assert Ends(g.chains[next - 1 - g.symoffset]);
  }

  lemma {:induction false} WalkIsRange(acc: map<string, U64>, base: U64, syms: seq<Symbol>, g: GnuHash, b: nat)
    requires WellFormed(g) && Increasing(g) && Tiles(g) && SymCount(g) <= |syms| && b <= |g.buckets|
    ensures WalkFrom(acc, base, syms, g, b) == AddRange(acc, base, syms, NextStart(g, b), SymCount(g))
    decreases |g.buckets| - b
  {
    hide ChainEnd, SymCount, WellFormed, Tiles, Increasing, EndsAfter;
    if b < |g.buckets| {
      if g.buckets[b] == 0 {
        WalkIsRange(acc, base, syms, g, b + 1);
      } else {
        ChainMeetsNext(g, b);
        NextAtMostCount(g, b + 1);
        var idx, next := g.buckets[b], NextStart(g, b + 1);
        var acc1 := AddRange(acc, base, syms, idx, next);
        WalkIsRange(acc1, base, syms, g, b + 1);
        AddRangeSplit(acc, base, syms, idx, next, SymCount(g));
      }
    }
  }

  lemma {:induction false} UndefinedAddNothing(acc: map<string, U64>, base: U64, syms: seq<Symbol>, from: nat, to: nat)
    requires to <= |syms| && forall i | from <= i < to :: syms[i].value == 0
    ensures AddRange(acc, base, syms, from, to) == acc
    decreases if from < to then to - from else 0
  {
    if from < to {
      UndefinedAddNothing(acc, base, syms, from + 1, to);
    }
  }

  /** Main result: when buckets increase, chains tile the hashed symbols and the
      unhashed ones are undefined, walking the hash chains builds the map the
      plain scan builds, down to which of several same-named symbols wins. */
  lemma ExportsEqualLinear(base: U64, syms: seq<Symbol>, g: GnuHash)
    requires WellFormed(g) && Increasing(g) && Tiles(g) && SymCount(g) <= |syms|
    requires forall i | 0 <= i < g.symoffset && i < |syms| :: syms[i].value == 0
    ensures WalkFrom(map[], base, syms, g, 0) == AddRange(map[], base, syms, 0, SymCount(g))
  {
    WalkIsRange(map[], base, syms, g, 0);
    FirstStart(g);
    AddRangeSplit(map[], base, syms, 0, g.symoffset, SymCount(g));
    UndefinedAddNothing(map[], base, syms, 0, g.symoffset);
  }

  lemma FirstStart(g: GnuHash)
    requires WellFormed(g) && Increasing(g) && Tiles(g)
    ensures g.symoffset < SymCount(g) && NextStart(g, 0) == g.symoffset
  {
    assert StartsChain(g, g.symoffset);
    var b :| 0 <= b < |g.buckets| && g.buckets[b] == g.symoffset;
    NextAtMostCount(g, 0);
  }

  // The section as linkers write it ---------------------------------------------------------------------

  /** The first `n` chain words are the table: one for every symbol from symoffset
      on, a set low bit ending each chain, a bucket starting each. */
  ghost predicate Written(g: GnuHash, n: nat) {
    && 0 < n <= |g.chains| && g.symoffset + |g.chains| <= TWO32
    && (forall b | 0 <= b < |g.buckets| :: g.buckets[b] == 0 || g.symoffset <= g.buckets[b] < g.symoffset + n)
    && g.chains[n - 1] % 2 == 1
    && (forall i: nat | g.symoffset <= i < g.symoffset + n ::
          (StartsChain(g, i) <==> i == g.symoffset || g.chains[i - 1 - g.symoffset] % 2 == 1))
  }

  /** Main result: the count derived from such a section is the number of the
      library's symbols, the hashed ones and those before them. */
  lemma CountIsTotal(g: GnuHash, n: nat)
    requires Written(g, n)
    ensures WellFormed(g) && Tiles(g) && SymCount(g) == g.symoffset + n
  {
    var first := LargestBucket(g, |g.buckets|);
    assert first < g.symoffset + n;
    assert Ends(g.chains[n - 1]) && first - g.symoffset <= n - 1;
    assert WellFormed(g);
    var e := ChainEnd(g, first);
    assert e <= g.symoffset + n - 1;
    assert StartsChain(g, e + 1) ==> e + 1 <= first;
  }
}
