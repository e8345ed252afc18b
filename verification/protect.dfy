/** The page protections `relocate` ends with: which pages become read-execute. */
module PageProtection {
  import opened Words
  import opened GuestMemory
  import opened PageAlloc

  datatype Segment = Segment(vaddr: U64, memsz: U64, flags: U32)

  /** Executable (PF_X) and not writable (PF_W). */
  predicate ExecuteOnly(s: Segment) {
    s.flags % 2 == 1 && s.flags / 2 % 2 == 0
  }

  predicate Writable(s: Segment) {
    s.flags / 2 % 2 == 1
  }

  /** A page-aligned interval of memory. */
  datatype Pages = Pages(start: nat, size: nat)

  /** The interval the loader protects for a segment. */
  function Cover(base: U64, s: Segment, page: U64): Pages
    requires page > 0 && base + s.vaddr + s.memsz + 2 * page < TWO64
  {
    var first := base + s.vaddr;
    var start := AlignDown(first, page);
    AlignDownBounds(first, page);
    Pages(start, AlignDown(s.memsz + (first - start) + page - 1, page))
  }

  predicate InRange(base: U64, segs: seq<Segment>, page: U64) {
    page > 0 && forall s | s in segs :: base + s.vaddr + s.memsz + 2 * page < TWO64
  }

  /** Page numbers of an aligned interval. */
  function PageNumbers(p: Pages, page: U64): set<int>
    requires page > 0
  {
    Span(p.start / page, p.size / page)
  }

  function Protected(base: U64, segs: seq<Segment>, page: U64): set<int>
    requires InRange(base, segs, page)
  {
    if segs == [] then {}
    else
      var last := segs[|segs| - 1];
      Protected(base, segs[..|segs| - 1], page)
      + if ExecuteOnly(last) then PageNumbers(Cover(base, last, page), page) else {}
  }

  /** The loop over the segments. */
  method Protect(base: U64, segs: seq<Segment>, page: U64) returns (pages: set<int>)
    requires InRange(base, segs, page)
    ensures pages == Protected(base, segs, page)
  {
    hide Cover, PageNumbers;
    pages := {};
    var i := 0;
    while i < |segs|
      invariant 0 <= i <= |segs|
      invariant pages == Protected(base, segs[..i], page)
    {
      assert segs[..i + 1][..i] == segs[..i];
      if ExecuteOnly(segs[i]) {
        pages := pages + PageNumbers(Cover(base, segs[i], page), page);
      }
      i := i + 1;
    }
    assert segs[..i] == segs;
  }

  // Rounding --------------------------------------------------------------------------------

  lemma DivUnique(x: int, q: int, r: int, p: int)
    requires p > 0 && x == q * p + r && 0 <= r < p
    ensures x / p == q
  {
    var k, m := x / p, x % p;
    assert (k - q) * p == r - m;
    MultipleBounds(k - q, p);
  }

  lemma DivMonotone(x: int, y: int, p: int)
    requires p > 0 && x <= y
    ensures x / p <= y / p
  {
    var k, j := x / p, y / p;
    var r := x % p - y % p;
    assert (k - j) * p + r == x - y;
    MultipleBounds(k - j, p);
  }

  /** The cover in page numbers: from the page of the first byte to the page of the last. */
  lemma CoverPages(base: U64, s: Segment, page: U64)
    requires page > 0 && base + s.vaddr + s.memsz + 2 * page < TWO64
    ensures var c := Cover(base, s, page);
            var first := base + s.vaddr;
            && c.start % page == 0 && c.size % page == 0
            && c.start / page == first / page
            && c.start <= first
            && c.start / page + c.size / page == (first + s.memsz - 1) / page + 1
  {
    var first := base + s.vaddr;
    AlignDownBounds(first, page);
    var start: int := AlignDown(first, page);
    PagesCovered(first, s.memsz, page, start, s.memsz + (first - start) + page - 1);
    AlignDownBounds(s.memsz + (first - start) + page - 1, page);
  }

  lemma PagesCovered(first: int, memsz: int, page: int, start: int, total: int)
    requires page > 0 && start == first - first % page && total == memsz + (first - start) + page - 1
    ensures start / page == first / page
    ensures start / page + (total - total % page) / page == (first + memsz - 1) / page + 1
  {
    var j, k, r := first / page, total / page, total % page;
    assert first == j * page + first % page && total == k * page + r;
    DivUnique(start, j, 0, page);
    DivUnique(total - r, k, 0, page);
    assert (j + (k - 1)) * page == j * page + (k - 1) * page && (k - 1) * page == k * page - page;
    DivUnique(first + memsz - 1, j + (k - 1), r, page);
  }

  /** The cover is page-aligned, holds the segment, and lies in every aligned interval that does. */
  lemma CoverIsSmallest(base: U64, s: Segment, page: U64, lo: nat, hi: nat)
    requires page > 0 && base + s.vaddr + s.memsz + 2 * page < TWO64 && s.memsz > 0
    ensures var c := Cover(base, s, page);
            && c.start % page == 0 && c.size % page == 0
            && c.start <= base + s.vaddr && base + s.vaddr + s.memsz <= c.start + c.size
            && (lo % page == 0 && hi % page == 0 && lo <= base + s.vaddr && base + s.vaddr + s.memsz <= hi ==>
                  lo <= c.start && c.start + c.size <= hi)
  {
    CoverPages(base, s, page);
    var c := Cover(base, s, page);
    var first, last := base + s.vaddr, base + s.vaddr + s.memsz - 1;
    hide Cover;
    WholePages(c.start, c.size, last / page + 1, page);
    BelowNextPage(last, page);
    if lo % page == 0 && hi % page == 0 && lo <= first && last < hi {
      AlignedBelow(lo, first, page);
      AlignedAbove(hi, last, page);
      WholePage(c.start, page);
    }
  }

  lemma WholePage(x: int, p: int)
    requires p > 0 && x % p == 0
    ensures x == (x / p) * p
  {
  }

  lemma WholePages(start: nat, size: nat, n: int, p: int)
    requires p > 0 && start % p == 0 && size % p == 0 && start / p + size / p == n
    ensures start + size == n * p
  {
    assert start == (start / p) * p && size == (size / p) * p;
    assert (start / p) * p + (size / p) * p == (start / p + size / p) * p;
  }

  lemma BelowNextPage(x: int, p: int)
    requires p > 0
    ensures x < (x / p + 1) * p
  {
    assert x == (x / p) * p + x % p;
  }

  lemma AlignedBelow(lo: int, x: int, p: int)
    requires p > 0 && lo % p == 0 && lo <= x
    ensures lo <= (x / p) * p
  {
    DivMonotone(lo, x, p);
    MulMonotone(lo / p, x / p, p);
  }

  lemma AlignedAbove(hi: int, x: int, p: int)
    requires p > 0 && hi % p == 0 && x < hi
    ensures (x / p + 1) * p <= hi
  {
    var k := hi / p;
    WholePage(hi, p);
    MulMonotone(k, x / p, p);
    MulMonotone(x / p + 1, k, p);
    assert (x / p) * p <= x;
  }

  lemma MulMonotone(x: int, y: int, p: int)
    requires p > 0
    ensures x <= y ==> x * p <= y * p
  {
  }

  // The whole segment list ----------------------------------------------------------------------

  /** Some byte of the segment lies on the page. */
  predicate Occupies(base: U64, s: Segment, page: U64, q: int)
    requires page > 0
  {
    s.memsz > 0 && (base + s.vaddr) / page <= q <= (base + s.vaddr + s.memsz - 1) / page
  }

  /** An empty segment inside a page still has that page protected. */
  predicate EmptyInside(base: U64, s: Segment, page: U64, q: int)
    requires page > 0
  {
    s.memsz == 0 && (base + s.vaddr) % page != 0 && q == (base + s.vaddr) / page
  }

  lemma CoverOccupies(base: U64, s: Segment, page: U64, q: int)
    requires page > 0 && base + s.vaddr + s.memsz + 2 * page < TWO64
    ensures q in PageNumbers(Cover(base, s, page), page) <==>
              Occupies(base, s, page, q) || EmptyInside(base, s, page, q)
  {
    hide Cover;
    CoverPages(base, s, page);
    LastPage(base + s.vaddr, page);
  }

  /** The page of the byte before an address: the previous one exactly at a page boundary. */
  lemma LastPage(first: int, page: int)
    requires page > 0
    ensures (first - 1) / page == if first % page == 0 then first / page - 1 else first / page
  {
    var j, r := first / page, first % page;
    assert first == j * page + r;
    if r == 0 {
      assert (j - 1) * page == j * page - page;
      DivUnique(first - 1, j - 1, page - 1, page);
    } else {
      DivUnique(first - 1, j, r - 1, page);
    }
  }

  /** Main result: a page becomes read-execute exactly when some execute-only
      segment occupies it, or is empty and starts strictly inside it. */
  lemma {:induction false} ProtectedIff(base: U64, segs: seq<Segment>, page: U64, q: int)
    requires InRange(base, segs, page)
    ensures q in Protected(base, segs, page) <==>
            exists s | s in segs :: ExecuteOnly(s) && (Occupies(base, s, page, q) || EmptyInside(base, s, page, q))
    decreases |segs|
  {
    hide Cover, PageNumbers, Occupies, EmptyInside, ExecuteOnly;
    if segs != [] {
      var rest, last := segs[..|segs| - 1], segs[|segs| - 1];
      assert segs == rest + [last];
      assert last in segs && forall s | s in rest :: s in segs;
      ProtectedIff(base, rest, page, q);
      CoverOccupies(base, last, page, q);
    }
  }

  /** A page of a writable segment is made read-execute only if an execute-only segment is on it too. */
  lemma WritablePageShared(base: U64, segs: seq<Segment>, page: U64, w: Segment, q: int)
    requires InRange(base, segs, page) && w in segs && Writable(w) && Occupies(base, w, page, q)
    requires q in Protected(base, segs, page)
    ensures exists s | s in segs && s != w ::
              ExecuteOnly(s) && (Occupies(base, s, page, q) || EmptyInside(base, s, page, q))
  {
    ProtectedIff(base, segs, page, q);
  }

  /** What the flag bits mean: X is bit 0, W bit 1, R bit 2 (System V ABI,
      chapter 5, "Program Header"). */
  lemma FlagBits(s: Segment, x: bool, w: bool, r: bool, others: nat)
    requires s.flags == (if x then 1 else 0) + (if w then 2 else 0) + (if r then 4 else 0) + 8 * others
    ensures ExecuteOnly(s) <==> x && !w
    ensures Writable(s) <==> w
  {
    var upper := (if r then 1 else 0) + 2 * others;
    Halved(s.flags, if x then 1 else 0, (if w then 1 else 0) + 2 * upper);
    Halved((if w then 1 else 0) + 2 * upper, if w then 1 else 0, upper);
  }

  lemma Halved(x: int, low: int, rest: int)
    requires x == low + 2 * rest && 0 <= low < 2
    ensures x % 2 == low && x / 2 == rest
  {
  }
}
