/** The string hooks over guest memory, against the C functions they stand for. */
module StringHooks {
  import opened Words
  import opened GuestMemory
  import opened Machine

  // Comparison -------------------------------------------------------------------------------------

  /** `std::string::compare`, of which only the sign is fixed: unsigned bytes, then length. */
  function Compare(a: seq<Byte>, b: seq<Byte>): int {
    if a == [] && b == [] then 0
    else if a == [] then -1
    else if b == [] then 1
    else if a[0] < b[0] then -1
    else if a[0] > b[0] then 1
    else Compare(a[1..], b[1..])
  }

  function Prefix(s: seq<Byte>, n: nat): seq<Byte> {
    if n <= |s| then s[..n] else s
  }

  /** A null pointer reads as the empty string. */
  function StringAt(m: Mem, p: U64): seq<Byte> {
    if p != 0 then CStringAt(m, p) else []
  }

  /** The loop both comparisons share: bytes up to a zero, an unreadable byte or a limit. */
  method ReadBounded(vm: EmulatorVM, p: U64, n: U64) returns (s: seq<Byte>)
    ensures s == Prefix(StringAt(vm.mem, p), n)
  {
    hide CStringAt, Prefix;
    var m := vm.mem;
    s := [];
    if p == 0 {
      assert s + [] == s;
      PrefixOf(s, [], n);
      return;
    }
    var i: int := 0;
    ghost var rest := CStringAt(m, p);
    while i < n && p + i in m && m[p + i] != 0
      invariant 0 <= i == |s| && i <= n
      invariant rest == CStringAt(m, p + i) && s + rest == CStringAt(m, p)
      decreases n - i
    {
      CStringTake(m, p + i, s);
      s, i := s + [m[p + i]], i + 1;
      rest := CStringAt(m, p + i);
    }
    CStringStep(m, p + i);
    PrefixOf(s, rest, n);
  }

  lemma PrefixOf(s: seq<Byte>, rest: seq<Byte>, n: nat)
    requires |s| == n || (|s| <= n && rest == [])
    ensures Prefix(s + rest, n) == s
  {
  }

  /** `hook_strcmp`. */
  method Strcmp(vm: EmulatorVM, p: U64, q: U64) returns (r: int)
    ensures r == Compare(StringAt(vm.mem, p), StringAt(vm.mem, q))
  {
    var a := vm.ReadString(p);
    var b := vm.ReadString(q);
    r := Compare(a, b);
  }

  /** `hook_strncmp`. */
  method Strncmp(vm: EmulatorVM, p: U64, q: U64, n: U64) returns (r: int)
    ensures r == Compare(Prefix(StringAt(vm.mem, p), n), Prefix(StringAt(vm.mem, q), n))
  {
    var a := ReadBounded(vm, p, n);
    var b := ReadBounded(vm, q, n);
    r := Compare(a, b);
  }

  /** A pointer C allows: its string ends, or `n` bytes are readable before it would. */
  predicate Readable(m: Mem, p: U64, n: nat) {
    p != 0 && (|CStringAt(m, p)| >= n || p + |CStringAt(m, p)| in m)
  }

  /** The two strings have the same character at `i`, and neither ends there. */
  predicate SameAt(m: Mem, p: U64, q: U64, i: nat) {
    p + i in m && q + i in m && m[p + i] == m[q + i] && m[p + i] != 0
  }

  predicate AgreeTo(m: Mem, p: U64, q: U64, k: nat) {
    forall i: nat | i < k :: SameAt(m, p, q, i)
  }

  /** Section 7.24.4.4 of C11 (7.24.4.2 when nothing cuts the strings short):
      the first byte that differs, a terminator counting as zero, decides. */
  ghost predicate FirstDifference(m: Mem, p: U64, q: U64, n: nat, k: nat) {
    && k < n && AgreeTo(m, p, q, k)
    && p + k in m && q + k in m && m[p + k] != m[q + k]
  }

  ghost predicate LowerAt(m: Mem, p: U64, q: U64, n: nat, k: nat) {
    FirstDifference(m, p, q, n, k) && m[p + k] < m[q + k]
  }

  ghost predicate ComparesAs(m: Mem, p: U64, q: U64, n: nat, r: int) {
    && (r < 0 <==> exists k: nat :: LowerAt(m, p, q, n, k))
    && (r > 0 <==> exists k: nat :: LowerAt(m, q, p, n, k))
  }

  /** The place that decides a comparison. */
  lemma {:induction false} Decider(a: seq<Byte>, b: seq<Byte>) returns (k: nat)
    ensures k <= |a| && k <= |b| && a[..k] == b[..k]
    ensures k < |a| && k < |b| ==> a[k] != b[k] && (Compare(a, b) < 0 <==> a[k] < b[k]) && Compare(a, b) != 0
    ensures k == |a| || k == |b| ==> (Compare(a, b) < 0 <==> |a| < |b|) && (Compare(a, b) > 0 <==> |a| > |b|)
  {
    if a == [] || b == [] || a[0] != b[0] {
      k := 0;
    } else {
      var j := Decider(a[1..], b[1..]);
      k := j + 1;
      assert a[..k] == [a[0]] + a[1..][..j] && b[..k] == [b[0]] + b[1..][..j];
    }
  }

  /** The byte at a place in a string that C may read: its zero past the last character. */
  lemma ByteOf(m: Mem, p: U64, n: nat, k: nat)
    requires Readable(m, p, n) && k < n && k <= |CStringAt(m, p)|
    ensures p + k in m
    ensures m[p + k] == if k < |CStringAt(m, p)| then CStringAt(m, p)[k] else 0
    ensures k < |CStringAt(m, p)| ==> m[p + k] != 0
  {
  }

  /** Main result: the hook's sign is the one the C function has. */
  lemma StrncmpMeetsC(m: Mem, p: U64, q: U64, n: nat)
    requires Readable(m, p, n) && Readable(m, q, n)
    ensures ComparesAs(m, p, q, n, Compare(Prefix(CStringAt(m, p), n), Prefix(CStringAt(m, q), n)))
  {
    hide CStringAt, Compare, Prefix, Readable, LowerAt, AgreeTo, Decides;
    var r := Compare(Prefix(CStringAt(m, p), n), Prefix(CStringAt(m, q), n));
    var k := DecidingByte(m, p, q, n);
    DeciderIsLower(m, p, q, n, k, r);
    forall j: nat
      ensures LowerAt(m, p, q, n, j) ==> r < 0
      ensures LowerAt(m, q, p, n, j) ==> r > 0
    {
      OnlyDecider(m, p, q, n, k, j, r);
    }
  }

  predicate Decides(m: Mem, p: U64, q: U64, n: nat, k: nat, r: int) {
    && k <= n && AgreeTo(m, p, q, k)
    && (k < n ==>
          && p + k in m && q + k in m
          && (r < 0 <==> m[p + k] < m[q + k]) && (r > 0 <==> m[p + k] > m[q + k])
          && (r == 0 ==> m[p + k] == 0))
    && (k == n ==> r == 0)
  }

  lemma OnlyDecider(m: Mem, p: U64, q: U64, n: nat, k: nat, j: nat, r: int)
    requires Decides(m, p, q, n, k, r)
    ensures LowerAt(m, p, q, n, j) ==> r < 0
    ensures LowerAt(m, q, p, n, j) ==> r > 0
  {
    assert j < k ==> SameAt(m, p, q, j);
    assert k < j && AgreeTo(m, p, q, j) ==> SameAt(m, p, q, k);
    assert k < j && AgreeTo(m, q, p, j) ==> SameAt(m, q, p, k);
  }

  lemma DeciderIsLower(m: Mem, p: U64, q: U64, n: nat, k: nat, r: int)
    requires Decides(m, p, q, n, k, r)
    ensures r < 0 ==> LowerAt(m, p, q, n, k)
    ensures r > 0 ==> LowerAt(m, q, p, n, k)
  {
    assert forall i: nat | SameAt(m, p, q, i) :: SameAt(m, q, p, i);
  }

  /** Where memory decides the comparison: at the limit, at a common end or at a difference. */
  lemma DecidingByte(m: Mem, p: U64, q: U64, n: nat) returns (k: nat)
    requires Readable(m, p, n) && Readable(m, q, n)
    ensures Decides(m, p, q, n, k, Compare(Prefix(CStringAt(m, p), n), Prefix(CStringAt(m, q), n)))
  {
    hide CStringAt, AgreeTo, Readable, Compare, Prefix;
    var s, t := CStringAt(m, p), CStringAt(m, q);
    k := Decider(Prefix(s, n), Prefix(t, n));
    PrefixAgrees(m, p, q, n, k);
    NoZeros(m, p);
    NoZeros(m, q);
    PrefixDecides(s, t, n, k);
    if k < n {
      ByteOf(m, p, n, k);
      ByteOf(m, q, n, k);
    }
  }

  lemma NoZeros(m: Mem, p: U64)
    ensures forall i | 0 <= i < |CStringAt(m, p)| :: CStringAt(m, p)[i] != 0
  {
    var s := CStringAt(m, p);
    forall i | 0 <= i < |s|
      ensures s[i] != 0
    {
      assert s[(p + i) - p] == m[p + i];
    }
  }

  /** The comparison of two prefixes in terms of the byte where they part, a missing one being zero. */
  lemma PrefixDecides(s: seq<Byte>, t: seq<Byte>, n: nat, k: nat)
    requires var a, b := Prefix(s, n), Prefix(t, n);
             && k <= |a| && k <= |b|
             && (k < |a| && k < |b| ==> a[k] != b[k] && (Compare(a, b) < 0 <==> a[k] < b[k]) && Compare(a, b) != 0)
             && (k == |a| || k == |b| ==> (Compare(a, b) < 0 <==> |a| < |b|) && (Compare(a, b) > 0 <==> |a| > |b|))
    requires (forall i | 0 <= i < |s| :: s[i] != 0) && (forall i | 0 <= i < |t| :: t[i] != 0)
    ensures var r := Compare(Prefix(s, n), Prefix(t, n));
            && k <= |s| && k <= |t| && k <= n
            && (k == n ==> r == 0)
            && (k < n ==>
                  var x, y := if k < |s| then s[k] else 0, if k < |t| then t[k] else 0;
                  (r < 0 <==> x < y) && (r > 0 <==> x > y) && (r == 0 ==> x == 0))
  {
    hide Compare;
  }

  lemma PrefixAgrees(m: Mem, p: U64, q: U64, n: nat, k: nat)
    requires Readable(m, p, n) && Readable(m, q, n)
    requires var a, b := Prefix(CStringAt(m, p), n), Prefix(CStringAt(m, q), n);
             k <= |a| && k <= |b| && a[..k] == b[..k]
    ensures AgreeTo(m, p, q, k)
  {
    var a, b := Prefix(CStringAt(m, p), n), Prefix(CStringAt(m, q), n);
    forall i: nat | i < k
      ensures SameAt(m, p, q, i)
    {
      ByteOf(m, p, n, i);
      ByteOf(m, q, n, i);
      assert a[..k][i] == b[..k][i];
    }
  }

  /** Main result: strings that end are compared as if nothing cut them short. */
  lemma StrcmpMeetsC(m: Mem, p: U64, q: U64)
    requires Readable(m, p, TWO64) && Readable(m, q, TWO64)
    ensures ComparesAs(m, p, q, TWO64, Compare(CStringAt(m, p), CStringAt(m, q)))
  {
    StringFits(m, p);
    StringFits(m, q);
    StrncmpMeetsC(m, p, q, TWO64);
  }

  lemma StringFits(m: Mem, p: U64)
    ensures |CStringAt(m, p)| <= TWO64
  {
    var s := CStringAt(m, p);
    if |s| > 0 {
      assert p + (|s| - 1) in m;
    }
  }

  // strncpy --------------------------------------------------------------------------------------------

  /** The loop of `hook_strncpy` from byte `i` on, reading the source as already written. */
  function CopyFrom(m: Mem, dst: U64, src: U64, n: nat, i: nat, ended: bool): (r: Mem)
    ensures r.Keys == m.Keys
    decreases n - i
  {
    if i >= n then m
    else
      var c: Byte := if !ended && src + i in m then m[src + i] else 0;
      CopyFrom(Write(m, dst + i, [c]), dst, src, n, i + 1, ended || c == 0)
  }

  method Strncpy(vm: EmulatorVM, dst: U64, src: U64, n: U64) returns (r: U64)
    requires vm.Valid()
    modifies vm`mem
    ensures vm.Valid() && r == dst
    ensures vm.mem == CopyFrom(old(vm.mem), dst, src, n, 0, false)
  {
    hide Write;
    var i: nat := 0;
    var ended := false;
    var c: Byte := 0;
    while i < n
      invariant CopyFrom(old(vm.mem), dst, src, n, 0, false) == CopyFrom(vm.mem, dst, src, n, i, ended)
      decreases n - i
    {
      if !ended {
        if src + i in vm.mem {
          c := vm.mem[src + i];
          if c == 0 {
            ended := true;
          }
        } else {
          ended := true;
          c := 0;
        }
      } else {
        c := 0;
      }
      vm.mem := Write(vm.mem, dst + i, [c]);
      i := i + 1;
    }
    return dst;
  }

  /** Exactly `n` bytes at `dst`: the source's characters, then zeros. */
  ghost predicate Copied(m0: Mem, m: Mem, dst: U64, n: nat, s: seq<Byte>) {
    && m.Keys == m0.Keys
    && forall x | x in m0 ::
         m[x] == if dst <= x < dst + n then (if x - dst < |s| then s[x - dst] else 0) else m0[x]
  }

  /** No byte of the source is written before it is read. */
  predicate ReadBeforeWritten(m: Mem, dst: U64, src: U64, n: nat) {
    var taken := if |CStringAt(m, src)| < n then |CStringAt(m, src)| + 1 else n;
    dst <= src || src + taken <= dst
  }

  /** Half way through the copy. */
  ghost predicate CopyProgress(m0: Mem, m: Mem, dst: U64, n: nat, s: seq<Byte>, i: nat) {
    && m.Keys == m0.Keys && i <= n
    && forall x | x in m0 ::
         m[x] == if dst <= x < dst + i then (if x - dst < |s| then s[x - dst] else 0) else m0[x]
  }

  lemma {:induction false} CopyFinishes(m0: Mem, m: Mem, dst: U64, src: U64, n: nat, i: nat)
    requires ReadBeforeWritten(m0, dst, src, n)
    requires CopyProgress(m0, m, dst, n, CStringAt(m0, src), i)
    ensures Copied(m0, CopyFrom(m, dst, src, n, i, i > |CStringAt(m0, src)|), dst, n, CStringAt(m0, src))
    decreases n - i
  {
    hide CStringAt, ReadBeforeWritten, CopyProgress, Copied, Write;
    var s := CStringAt(m0, src);
    if i >= n {
      CopyDone(m0, m, dst, n, s, i);
    } else {
      var c: Byte := if i <= |s| && src + i in m then m[src + i] else 0;
      SourceByte(m0, m, dst, src, n, i);
      var m1 := Write(m, dst + i, [c]);
      OneByte(m0, m, dst, n, s, i, c);
      assert CopyFrom(m, dst, src, n, i, i > |s|) == CopyFrom(m1, dst, src, n, i + 1, i + 1 > |s|);
      CopyFinishes(m0, m1, dst, src, n, i + 1);
    }
  }

  lemma CopyDone(m0: Mem, m: Mem, dst: U64, n: nat, s: seq<Byte>, i: nat)
    requires CopyProgress(m0, m, dst, n, s, i) && i >= n
    ensures Copied(m0, m, dst, n, s)
  {
  }

  lemma OneByte(m0: Mem, m: Mem, dst: U64, n: nat, s: seq<Byte>, i: nat, c: Byte)
    requires CopyProgress(m0, m, dst, n, s, i) && i < n && c == if i < |s| then s[i] else 0
    ensures CopyProgress(m0, Write(m, dst + i, [c]), dst, n, s, i + 1)
  {
  }

  lemma SourceByte(m0: Mem, m: Mem, dst: U64, src: U64, n: nat, i: nat)
    requires ReadBeforeWritten(m0, dst, src, n) && i < n
    requires CopyProgress(m0, m, dst, n, CStringAt(m0, src), i)
    ensures var s := CStringAt(m0, src);
            var c := if i <= |s| && src + i in m then m[src + i] else 0;
            c == (if i < |s| then s[i] else 0) && (c == 0 <==> i >= |s|)
  {
  }

  /** Main result: unless the copy would overtake its own source, `strncpy`
      writes exactly `n` bytes: the string, then zeros to the end. */
  lemma StrncpyMeetsC(m: Mem, dst: U64, src: U64, n: U64)
    requires ReadBeforeWritten(m, dst, src, n)
    ensures Copied(m, CopyFrom(m, dst, src, n, 0, false), dst, n, CStringAt(m, src))
  {
    CopyFinishes(m, m, dst, src, n, 0);
  }

  /** Overtaking is real: a string copied one byte up fills the buffer with its first character. */
  lemma OvertakenCopy()
    ensures exists m: Mem :: !Copied(m, CopyFrom(m, 11, 10, 2, 0, false), 11, 2, CStringAt(m, 10))
  {
    var m: Mem := map[10 := 65, 11 := 66, 12 := 0, 13 := 0];
    var s := CStringAt(m, 10);
    assert CStringAt(m, 11) == [66] + CStringAt(m, 12);
    assert s == [65, 66];
    var m1 := Write(m, 11, [65]);
    assert m1[11] == 65;
    var m2 := Write(m1, 12, [65]);
    assert CopyFrom(m1, 11, 10, 2, 1, false) == CopyFrom(m2, 11, 10, 2, 2, false) == m2;
    assert CopyFrom(m, 11, 10, 2, 0, false) == m2;
    assert m2[12] == 65;
    assert !Copied(m, m2, 11, 2, s);
  }

  // strtoll --------------------------------------------------------------------------------------------

  /** The host's own `strtoll`: a value, and how many characters it used. */
  datatype Parsed = Parsed(value: int, used: nat)
  type Parser = f: (seq<Byte>, int) -> Parsed | forall s, b :: f(s, b).used <= |s| witness ((s, b) => Parsed(0, 0))

  /** The scan leaves its pointer one past the byte that ended it. */
  method ScanString(vm: EmulatorVM, nptr: U64) returns (str: seq<Byte>, p: int)
    requires nptr != 0
    ensures str == CStringAt(vm.mem, nptr) && p == nptr + |str| + 1
  {
    hide CStringAt;
    str, p := [], nptr;
    while p in vm.mem && vm.mem[p] != 0
      invariant nptr <= p == nptr + |str|
      invariant str + CStringAt(vm.mem, p) == CStringAt(vm.mem, nptr)
      decreases TWO64 - p
    {
      CStringTake(vm.mem, p, str);
      str := str + [vm.mem[p]];
      p := p + 1;
    }
    CStringStep(vm.mem, p);
    p := p + 1;
  }

  /** `hook_strtoll`: the end pointer, counted back from one past the byte that
      ended the scan, is the original pointer advanced by what was used, as section
      7.22.1.4 of C11 asks; a null pointer is not scanned, and counting back from it
      stores the last address there is instead. */
  method Strtoll(vm: EmulatorVM, parse: Parser, nptr: U64, endptr: U64, base: int) returns (r: int)
    requires vm.Valid()
    modifies vm`mem
    ensures vm.Valid()
    ensures var parsed := parse(StringAt(old(vm.mem), nptr), base);
            var end := if nptr != 0 then Wrap(nptr + parsed.used) else TWO64 - 1;
            && r == parsed.value
            && vm.mem == if endptr == 0 then old(vm.mem) else Write(old(vm.mem), endptr, ToLE(end, 8))
  {
    hide Write, CStringAt, ToLE;
    var str: seq<Byte>, p: int := [], nptr;
    if nptr != 0 {
      str, p := ScanString(vm, nptr);
    }
    var parsed := parse(str, base);
    assert parsed.used <= |str|;
    if endptr != 0 {
      var end := Wrap(Wrap(p - |str| - 1) + parsed.used);
      WrapShift(p - |str| - 1, parsed.used);
      vm.mem := Write(vm.mem, endptr, ToLE(end, 8));
    }
    return parsed.value;
  }
}
