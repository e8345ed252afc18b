/** `PageAllocator`: a bump allocator over a fixed range, in wrapping 64-bit arithmetic. */
module PageAlloc {
  import opened Words

  datatype Arena = Arena(base: U64, size: U64, offset: U64, alignment: U64)

  /** `x & ~(alignment - 1)` for an alignment that is a power of two, or zero. */
  function AlignDown(x: U64, alignment: U64): U64 {
    if alignment == 0 then 0 else x - x % alignment
  }

  lemma AlignDownBounds(x: U64, a: U64)
    requires a > 0
    ensures AlignDown(x, a) <= x < AlignDown(x, a) + a && AlignDown(x, a) % a == 0
  {
    var q := x / a;
    assert x == q * a + x % a;
    MultipleMod(q, a);
  }

  lemma MultipleMod(q: int, a: int)
    requires a > 0
    ensures (q * a) % a == 0
  {
    var r := (q * a) % a;
    var k := (q * a) / a;
    assert q * a == k * a + r;
    assert (q - k) * a == r;
    MultipleBounds(q - k, a);
  }

  lemma MultipleBounds(k: int, a: int)
    requires a > 0
    ensures k >= 1 ==> k * a >= a
    ensures k >= 2 ==> k * a >= 2 * a
    ensures k <= 1 ==> k * a <= a
    ensures k <= -1 ==> k * a <= -a
  {
  }

  lemma SmallMod(x: int, a: int)
    ensures 0 <= x < a ==> x % a == x
  {
  }

  lemma SumMod(x: int, y: int, a: int)
    requires a > 0 && x % a == 0 && y % a == 0
    ensures (x + y) % a == 0 && (x - y) % a == 0
  {
    var p, q := x / a, y / a;
    assert x == p * a && y == q * a;
    assert x + y == (p + q) * a && x - y == (p - q) * a;
    MultipleMod(p + q, a);
    MultipleMod(p - q, a);
  }

  function AlignedSize(ar: Arena, bytes: U64): U64 {
    var masked := AlignDown(Wrap(bytes + Wrap(ar.alignment - 1)), ar.alignment);
    if masked == 0 then ar.alignment else masked
  }

  function Alloc(ar: Arena, bytes: U64): Outcome<(U64, Arena)> {
    var aligned := AlignedSize(ar, bytes);
    if Wrap(ar.offset + aligned) > ar.size then Abort
    else Continue((Wrap(ar.base + ar.offset), ar.(offset := Wrap(ar.offset + aligned))))
  }

  /** An arena whose bounds are multiples of a power-of-two alignment. */
  predicate ValidArena(ar: Arena) {
    && ar.alignment > 0
    && TWO64 % ar.alignment == 0
    && ar.base % ar.alignment == 0
    && ar.size % ar.alignment == 0
    && ar.offset % ar.alignment == 0
    && ar.offset <= ar.size
    && ar.base + ar.size < TWO64
  }

  /** Neither addition of a request wraps. */
  predicate NoWrap(ar: Arena, bytes: U64) {
    && bytes + ar.alignment - 1 < TWO64
    && ar.offset + AlignedSize(ar, bytes) < TWO64
  }

  lemma AlignedSizeBounds(ar: Arena, bytes: U64)
    requires ar.alignment > 0
    ensures AlignedSize(ar, bytes) % ar.alignment == 0
    ensures AlignedSize(ar, bytes) >= ar.alignment
    ensures bytes + ar.alignment - 1 < TWO64 ==> bytes <= AlignedSize(ar, bytes) < bytes + 2 * ar.alignment
    ensures bytes + ar.alignment - 1 >= TWO64 && TWO64 % ar.alignment == 0 ==> AlignedSize(ar, bytes) == ar.alignment
  {
    var a := ar.alignment;
    var x: int := Wrap(bytes + Wrap(a - 1));
    MaskBounds(x, a);
    hide AlignDown;
    assert Wrap(a - 1) == a - 1;
    assert x == bytes + a - 1 || x == bytes + a - 1 - TWO64;
  }

  lemma MaskBounds(x: U64, a: U64)
    requires a > 0
    ensures AlignDown(x, a) <= x < AlignDown(x, a) + a
    ensures AlignDown(x, a) % a == 0 && a % a == 0
    ensures AlignDown(x, a) == 0 || AlignDown(x, a) >= a
  {
    AlignDownBounds(x, a);
    MultipleMod(1, a);
    SmallMod(AlignDown(x, a), a);
  }

  /** An allocation keeps the arena valid, and returns an aligned address. */
  lemma AllocKeepsValid(ar: Arena, bytes: U64)
    requires ValidArena(ar) && Alloc(ar, bytes).Continue?
    ensures ValidArena(Alloc(ar, bytes).value.1)
    ensures Alloc(ar, bytes).value.0 == ar.base + ar.offset
    ensures Alloc(ar, bytes).value.0 % ar.alignment == 0
  {
    hide AlignedSize, ValidArena;
    AlignedSizeBounds(ar, bytes) by { ArenaParts(ar); }
    ArenaParts(ar);
    BumpAligned(ar.base, ar.offset, AlignedSize(ar, bytes), ar.alignment);
    MovedOn(ar, Wrap(ar.offset + AlignedSize(ar, bytes)));
  }

  lemma ArenaParts(ar: Arena)
    requires ValidArena(ar)
    ensures ar.alignment > 0 && TWO64 % ar.alignment == 0
    ensures ar.base % ar.alignment == 0 && ar.offset % ar.alignment == 0
    ensures Wrap(ar.base + ar.offset) == ar.base + ar.offset
  {
  }

  /** A valid arena stays one at another aligned offset. */
  lemma MovedOn(ar: Arena, offset: U64)
    requires ValidArena(ar)
    ensures offset % ar.alignment == 0 && offset <= ar.size ==> ValidArena(ar.(offset := offset))
  {
  }

  lemma BumpAligned(base: U64, offset: U64, s: U64, a: U64)
    requires a > 0 && TWO64 % a == 0 && base % a == 0 && offset % a == 0 && s % a == 0
    ensures Wrap(offset + s) % a == 0 && (base + offset) % a == 0
  {
    SumMod(base, offset, a);
    SumMod(offset, s, a);
    SumMod(offset + s, TWO64, a);
    assert Wrap(offset + s) == offset + s || Wrap(offset + s) == offset + s - TWO64;
  }

  /** The block returned covers the request and lies above everything returned
      before exactly when no addition wraps. */
  lemma AllocSafeIffNoWrap(ar: Arena, bytes: U64, p: U64, after: Arena)
    requires ValidArena(ar) && Alloc(ar, bytes) == Continue((p, after))
    ensures NoWrap(ar, bytes) <==> ar.offset < after.offset && p + bytes <= after.base + after.offset
  {
    hide ValidArena, AlignedSize;
    LinearFacts(ar, bytes);
    BumpSafe(ar.offset, ar.size, ar.alignment, AlignedSize(ar, bytes), bytes);
  }

  lemma LinearFacts(ar: Arena, bytes: U64)
    requires ValidArena(ar)
    ensures 0 < ar.alignment && 2 * ar.alignment <= TWO64
    ensures ar.offset <= ar.size && ar.base + ar.size < TWO64
    ensures AlignedSize(ar, bytes) >= ar.alignment
    ensures bytes + ar.alignment - 1 < TWO64 ==> bytes <= AlignedSize(ar, bytes)
    ensures bytes + ar.alignment - 1 >= TWO64 ==> AlignedSize(ar, bytes) == ar.alignment
  {
    hide AlignedSize;
    HalfSpace(ar.alignment);
    AlignedSizeBounds(ar, bytes);
  }

  lemma HalfSpace(a: U64)
    requires a > 0 && TWO64 % a == 0
    ensures 2 * a <= TWO64
  {
    var k := TWO64 / a;
    assert TWO64 == k * a;
    MultipleBounds(k, a);
  }

  lemma BumpSafe(offset: U64, size: U64, a: U64, s: U64, bytes: U64)
    requires 0 < a && 2 * a <= TWO64 && offset <= size && Wrap(offset + s) <= size
    requires bytes + a - 1 < TWO64 ==> bytes <= s
    requires bytes + a - 1 >= TWO64 ==> s == a
    requires s > 0
    ensures bytes + a - 1 < TWO64 && offset + s < TWO64 <==>
            offset < Wrap(offset + s) && offset + bytes <= Wrap(offset + s)
  {
    assert Wrap(offset + s) == offset + s || Wrap(offset + s) == offset + s - TWO64;
  }

  /** The least multiple of `a` that is at least `bytes` and not zero. */
  ghost predicate LeastMultiple(a: U64, bytes: U64, n: nat) {
    && a > 0 && n % a == 0 && n > 0 && n >= bytes
    && forall k: nat | k > 0 && k % a == 0 && k >= bytes :: n <= k
  }

  /** Main result: exactly how much a request takes, and exactly when it is refused. */
  lemma AllocExact(ar: Arena, bytes: U64, n: nat)
    requires ValidArena(ar) && NoWrap(ar, bytes) && LeastMultiple(ar.alignment, bytes, n)
    ensures Alloc(ar, bytes) ==
            if ar.offset + n > ar.size then Abort
            else Continue(((ar.base + ar.offset) as U64, ar.(offset := ar.offset + n)))
  {
    hide ValidArena, NoWrap, AlignedSize, LeastMultiple;
    LinearFacts(ar, bytes);
    SumsInRange(ar, bytes);
    TakenIsLeast(ar, bytes, n);
  }

  lemma SumsInRange(ar: Arena, bytes: U64)
    requires NoWrap(ar, bytes)
    ensures bytes + ar.alignment - 1 < TWO64 && ar.offset + AlignedSize(ar, bytes) < TWO64
  {
    hide AlignedSize;
  }

  lemma TakenIsLeast(ar: Arena, bytes: U64, n: nat)
    requires ar.alignment > 0 && bytes + ar.alignment - 1 < TWO64 && LeastMultiple(ar.alignment, bytes, n)
    ensures AlignedSize(ar, bytes) == n
  {
    AlignedSizeBounds(ar, bytes);
    var s: int, a: int := AlignedSize(ar, bytes), ar.alignment;
    TakenTight(ar, bytes);
    hide AlignedSize;
    assert n <= s;
    var d := s - n;
    SumMod(s, n, a);
    assert d % a == 0 && d < a;
    SmallMod(d, a);
  }

  /** Less by one unit would not do. */
  lemma TakenTight(ar: Arena, bytes: U64)
    requires ar.alignment > 0 && bytes + ar.alignment - 1 < TWO64
    ensures AlignedSize(ar, bytes) < (if bytes == 0 then 1 else bytes) + ar.alignment
  {
    MaskBounds(bytes + ar.alignment - 1, ar.alignment);
    hide AlignDown;
  }

  /** The source's class; every call is the function above on its fields. */
  class PageAllocator {
    const base: U64
    const size: U64
    const alignment: U64
    var offset: U64

    ghost function View(): Arena
      reads this
    {
      Arena(base, size, offset, alignment)
    }

    constructor (baseAddr: U64, totalSize: U64, alignBytes: U64)
      ensures View() == Arena(baseAddr, totalSize, 0, alignBytes)
    {
      base, size, alignment, offset := baseAddr, totalSize, alignBytes, 0;
    }

    method Allocate(bytes: U64) returns (r: Outcome<U64>)
      modifies this`offset
      ensures r.Abort? <==> Alloc(old(View()), bytes).Abort?
      ensures r.Continue? ==> Alloc(old(View()), bytes) == Continue((r.value, View()))
      ensures r.Abort? ==> View() == old(View())
    {
      ghost var before := View();
      var mask := Wrap(alignment - 1);
      var alignedSize := AlignDown(Wrap(bytes + mask), alignment);
      if alignedSize == 0 {
        alignedSize := alignment;
      }
      assert alignedSize == AlignedSize(before, bytes);
      if Wrap(offset + alignedSize) > size {
        return Abort;
      }
      var addr := Wrap(base + offset);
      offset := Wrap(offset + alignedSize);
      return Continue(addr);
    }
  }
}
