/** Guest memory as the emulator engine presents it: a finite set of mapped
    addresses, each holding a byte.  A read or write succeeds exactly when its
    whole range is mapped and otherwise changes nothing; mapping a range that
    overlaps mapped memory is refused. */
module GuestMemory {
  import opened Words

  type Mem = m: map<int, Byte> | forall a | a in m :: 0 <= a < TWO64 witness map[]

  predicate Mapped(m: Mem, a: int, n: nat) {
    forall i | a <= i < a + n :: i in m
  }

  predicate Unmapped(m: Mem, a: int, n: nat) {
    forall i | a <= i < a + n :: i !in m
  }

  function Slice(m: Mem, a: int, n: nat): (bs: seq<Byte>)
    requires Mapped(m, a, n)
    ensures |bs| == n
    ensures forall i | 0 <= i < n :: bs[i] == m[a + i]
  {
    seq(n, i requires 0 <= i < n => m[a + i])
  }

  function Read(m: Mem, a: int, n: nat): (r: Option<seq<Byte>>)
    ensures r.Some? ==> |r.value| == n
  {
    if Mapped(m, a, n) then Some(Slice(m, a, n)) else None
  }

  function Write(m: Mem, a: int, bs: seq<Byte>): (r: Mem)
    ensures r.Keys == m.Keys
  {
    if Mapped(m, a, |bs|) then
      map x | x in m :: if a <= x < a + |bs| then bs[x - a] else m[x]
    else m
  }

  function Span(a: int, n: nat): (s: set<int>)
    ensures forall x :: x in s <==> a <= x < a + n
  {
    if n == 0 then {} else Span(a, n - 1) + {a + n - 1}
  }

  function MapRegion(m: Mem, a: int, n: nat): (r: Mem)
    requires 0 <= a && a + n <= TWO64
    ensures !Unmapped(m, a, n) ==> r == m
    ensures Unmapped(m, a, n) ==>
              && (forall x :: x in r <==> x in m || a <= x < a + n)
              && (forall x | x in m :: r[x] == m[x])
              && (forall x | a <= x < a + n :: r[x] == 0)
  {
    if Unmapped(m, a, n) then
      var zeros: map<int, Byte> := map x | x in Span(a, n) :: 0;
      m + zeros
    else m
  }

  lemma ReadAgree(m0: Mem, m1: Mem, a: int, n: nat)
    requires m0.Keys == m1.Keys
    requires forall i | a <= i < a + n && i in m0 :: m1[i] == m0[i]
    ensures Read(m1, a, n) == Read(m0, a, n)
  {
    assert Mapped(m0, a, n) <==> Mapped(m1, a, n);
    if Mapped(m0, a, n) {
      assert Slice(m0, a, n) == Slice(m1, a, n);
    }
  }

  lemma ReadAfterWrite(m: Mem, a: int, bs: seq<Byte>)
    requires Mapped(m, a, |bs|)
    ensures Read(Write(m, a, bs), a, |bs|) == Some(bs)
  {
    var r := Write(m, a, bs);
    assert Mapped(r, a, |bs|);
    assert Slice(r, a, |bs|) == bs;
  }

  /** The C string that starts at `a`: bytes up to the first zero or the first
      unreadable one. */
  function CStringAt(m: Mem, a: int): (s: seq<Byte>)
    ensures forall x | a <= x < a + |s| :: x in m && s[x - a] == m[x] && m[x] != 0
    ensures a + |s| in m ==> m[a + |s|] == 0
    decreases TWO64 - a
  {
    if a in m && m[a] != 0 then
      var rest := CStringAt(m, a + 1);
      [m[a]] + rest
    else []
  }

  lemma CStringStep(m: Mem, a: int)
    ensures CStringAt(m, a) == if a in m && m[a] != 0 then [m[a]] + CStringAt(m, a + 1) else []
  {
  }

  /** Moving one byte from the string still to be read to the string read so far. */
  lemma CStringTake(m: Mem, a: int, s: seq<Byte>)
    requires a in m && m[a] != 0
    ensures s + [m[a]] + CStringAt(m, a + 1) == s + CStringAt(m, a)
  {
    CStringStep(m, a);
  }

  function Chars(bs: seq<Byte>): (s: string)
    ensures |s| == |bs|
    ensures forall i | 0 <= i < |bs| :: s[i] == bs[i] as char
  {
    seq(|bs|, i requires 0 <= i < |bs| => bs[i] as char)
  }

  /** The C string inside a buffer: bytes before its first zero. */
  function CString(bs: seq<Byte>): (s: seq<Byte>)
    ensures |s| <= |bs| && s == bs[..|s|]
    ensures forall i | 0 <= i < |s| :: bs[i] != 0
    ensures |s| < |bs| ==> bs[|s|] == 0
  {
    if bs == [] || bs[0] == 0 then []
    else
      var rest := CString(bs[1..]);
      [bs[0]] + rest
  }

  /** A C string depends only on the bytes up to its terminator. */
  lemma CStringAgree(a: seq<Byte>, b: seq<Byte>, n: nat)
    requires n < |a| && n < |b| && a[n] == 0
    requires forall i | 0 <= i <= n :: a[i] == b[i]
    ensures CString(a) == CString(b)
  {
    var s, t := CString(a), CString(b);
    assert |s| <= n && |t| <= n;
    assert a[..|s|] == b[..|s|];
    assert |s| == |t|;
  }
}
