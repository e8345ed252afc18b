/** Bytes, 64-bit words, wrap-around and little-endian encoding. */
module Words {

  datatype Option<+T> = None | Some(value: T)

  /** A step of the program either goes on with a value or ends the process (`abort()`). */
  datatype Outcome<+T> = Continue(value: T) | Abort {
    predicate IsFailure() { Abort? }
    function PropagateFailure<U>(): Outcome<U>
      requires Abort?
    {
      Abort
    }
    function Extract(): T
      requires Continue?
    {
      value
    }
  }

  const TWO16: int := 0x1_0000
  const TWO32: int := 0x1_0000_0000
  const TWO64: int := 0x1_0000_0000_0000_0000

  type Byte = x: int | 0 <= x < 256
  type U32 = x: int | 0 <= x < 0x1_0000_0000
  type U64 = x: int | 0 <= x < 0x1_0000_0000_0000_0000

  /** `uint64_t` arithmetic: every result is reduced modulo 2^64. */
  function Wrap(x: int): U64 {
    x % TWO64
  }

  lemma WrapShift(x: int, d: int)
    ensures Wrap(Wrap(x) + d) == Wrap(x + d)
  {
    var k := x / TWO64;
    assert x == TWO64 * k + Wrap(x);
    assert (x + d) - (Wrap(x) + d) == TWO64 * k;
    ModPeriod(Wrap(x) + d, k);
  }

  lemma ModPeriod(x: int, k: int)
    ensures (x + TWO64 * k) % TWO64 == x % TWO64
  {
  }

  // Little-endian words ------------------------------------------------------

  function FromLE(bs: seq<Byte>): nat {
    if bs == [] then 0 else bs[0] + 256 * FromLE(bs[1..])
  }

  function ToLE(v: nat, n: nat): (bs: seq<Byte>)
    ensures |bs| == n
  {
    if n == 0 then [] else [v % 256] + ToLE(v / 256, n - 1)
  }

  function Pow256(n: nat): (p: nat)
    ensures p > 0
  {
    if n == 0 then 1 else 256 * Pow256(n - 1)
  }

  lemma {:induction false} FromLEBound(bs: seq<Byte>)
    ensures FromLE(bs) < Pow256(|bs|)
  {
    if bs != [] {
      FromLEBound(bs[1..]);
    }
  }

  /** Storing a value and loading it back gives the value. */
  lemma {:induction false} LoadAfterStore(v: nat, n: nat)
    requires v < Pow256(n)
    ensures FromLE(ToLE(v, n)) == v
  {
    if n > 0 {
      LoadAfterStore(v / 256, n - 1);
      assert ToLE(v, n)[1..] == ToLE(v / 256, n - 1);
    }
  }

  /** Loading bytes and storing the value back gives the bytes. */
  lemma {:induction false} StoreAfterLoad(bs: seq<Byte>)
    ensures ToLE(FromLE(bs), |bs|) == bs
  {
    if bs != [] {
      StoreAfterLoad(bs[1..]);
      var r := FromLE(bs[1..]);
      assert (bs[0] + 256 * r) % 256 == bs[0];
      assert (bs[0] + 256 * r) / 256 == r;
      assert bs == [bs[0]] + bs[1..];
    }
  }

  lemma Pow256Values()
    ensures Pow256(2) == TWO16 && Pow256(4) == TWO32 && Pow256(8) == TWO64
  {
    assert Pow256(1) == 256;
    assert Pow256(2) == 65536;
    assert Pow256(3) == 16777216;
    assert Pow256(4) == 4294967296;
    assert Pow256(5) == 1099511627776;
    assert Pow256(6) == 281474976710656;
    assert Pow256(7) == 72057594037927936;
  }

  function Word(bs: seq<Byte>): (w: U64)
    requires |bs| == 8
  {
    FromLEBound(bs);
    Pow256Values();
    FromLE(bs)
  }

  function Half(bs: seq<Byte>): (w: U32)
    requires |bs| == 4
  {
    FromLEBound(bs);
    Pow256Values();
    FromLE(bs)
  }

  lemma WordRoundTrip(v: U64)
    ensures Word(ToLE(v, 8)) == v
  {
    Pow256Values();
    LoadAfterStore(v, 8);
  }

  /** Two bytes, the lowest first. */
  function Sum2(bs: seq<Byte>): int
    requires |bs| == 2
  {
    var low: int, high: int := bs[0], bs[1];
    low + 0x100 * high
  }

  /** Four bytes, the lowest first. */
  function Sum4(bs: seq<Byte>): int
    requires |bs| == 4
  {
    Sum2(bs[..2]) + 0x1_0000 * Sum2(bs[2..])
  }

  /** The first byte is the lowest: what two, four and eight bytes are as numbers. */
  lemma LowByteFirst(bs: seq<Byte>)
    ensures |bs| == 2 ==> FromLE(bs) == Sum2(bs)
    ensures |bs| == 4 ==> Half(bs) == Sum4(bs)
    ensures |bs| == 8 ==> Word(bs) == Half(bs[0..4]) + 0x1_0000_0000 * Half(bs[4..8])
  {
    if |bs| == 2 {
      TwoBytes(bs);
    } else if |bs| == 4 {
      FourBytes(bs);
    } else if |bs| == 8 {
      FourBytes(bs[0..4]);
      FourBytes(bs[4..8]);
      hide FromLE;
      EightBytes(bs);
    }
  }

  lemma TwoBytes(bs: seq<Byte>)
    requires |bs| == 2
    ensures FromLE(bs) == Sum2(bs)
  {
    assert FromLE(bs[1..]) == bs[1] + 256 * FromLE(bs[1..][1..]);
  }

  lemma FourBytes(bs: seq<Byte>)
    requires |bs| == 4
    ensures FromLE(bs) == Sum4(bs)
  {
    TwoBytes(bs[2..]);
    assert bs[1..][1..] == bs[2..];
  }

  lemma EightBytes(bs: seq<Byte>)
    requires |bs| == 8
    ensures FromLE(bs) == FromLE(bs[0..4]) + 0x1_0000_0000 * FromLE(bs[4..8])
  {
    assert bs[1..][1..] == bs[2..] && bs[2..][1..] == bs[3..] && bs[3..][1..] == bs[4..8];
    assert FromLE(bs) == bs[0] + 256 * FromLE(bs[1..]) && FromLE(bs[1..]) == bs[1] + 256 * FromLE(bs[2..]);
    assert FromLE(bs[2..]) == bs[2] + 256 * FromLE(bs[3..]) && FromLE(bs[3..]) == bs[3] + 256 * FromLE(bs[4..8]);
    FourBytes(bs[0..4]);
  }

  /** The two halves of a word. */
  lemma HalvesOfWord(bs: seq<Byte>)
    requires |bs| == 8
    ensures Half(bs[0..4]) == Word(bs) % 0x1_0000_0000 && Half(bs[4..8]) == Word(bs) / 0x1_0000_0000
  {
    LowByteFirst(bs);
    hide FromLE;
  }
}
