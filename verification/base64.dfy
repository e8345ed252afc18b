/** `base64_encode` against a strict decoder for sections 4 and 3.5 of RFC 4648. */
module Base64 {
  import opened Words

  const UPPER := "ABCDEFGHIJKLM" + "NOPQRSTUVWXYZ"
  const LOWER := "abcdefghijklm" + "nopqrstuvwxyz"
  const TABLE := UPPER + LOWER + "0123456789+/"
  const PAD := '='

  /** The character of a six-bit value. */
  function Letter(v: nat): char
    requires v < 64
  {
    if v < 26 then ('A' as int + v) as char
    else if v < 52 then ('a' as int + (v - 26)) as char
    else if v < 62 then ('0' as int + (v - 52)) as char
    else if v == 62 then '+'
    else '/'
  }

  /** The value of an alphabet character, if it is one. */
  function Value(c: char): (v: Option<nat>)
    ensures v.Some? ==> v.value < 64 && Letter(v.value) == c
  {
    if 'A' <= c <= 'Z' then Some(c as int - 'A' as int)
    else if 'a' <= c <= 'z' then Some(c as int - 'a' as int + 26)
    else if '0' <= c <= '9' then Some(c as int - '0' as int + 52)
    else if c == '+' then Some(62)
    else if c == '/' then Some(63)
    else None
  }

  lemma ValueOfLetter(v: nat)
    requires v < 64
    ensures Value(Letter(v)) == Some(v) && Letter(v) != PAD
  {
  }

  lemma UpperRow(v: nat)
    requires v < 26
    ensures |UPPER| == 26 && UPPER[v] == Letter(v)
  {
    var left, right := "ABCDEFGHIJKLM", "NOPQRSTUVWXYZ";
    assert UPPER[v] == if v < 13 then left[v] else right[v - 13];
  }

  lemma LowerRow(v: nat)
    requires v < 26
    ensures |LOWER| == 26 && LOWER[v] == Letter(v + 26)
  {
    var left, right := "abcdefghijklm", "nopqrstuvwxyz";
    assert LOWER[v] == if v < 13 then left[v] else right[v - 13];
  }

  lemma DigitRow(v: nat)
    requires v < 12
    ensures "0123456789+/"[v] == Letter(v + 52)
  {
  }

  /** The alphabet is the source's table. */
  lemma LetterIsTable(v: nat)
    requires v < 64
    ensures |TABLE| == 64 && Letter(v) == TABLE[v]
  {
    if v < 26 {
      UpperRow(v);
      assert TABLE[v] == UPPER[v];
    } else if v < 52 {
      LowerRow(v - 26);
      assert TABLE[v] == LOWER[v - 26];
    } else {
      DigitRow(v - 52);
      assert TABLE[v] == "0123456789+/"[v - 52];
    }
  }

  /** The four characters of a group of one to three bytes; missing bytes count as zero bits. */
  function EncodeGroup(bs: seq<Byte>): (s: string)
    requires 1 <= |bs| <= 3
    ensures |s| == 4
  {
    var x := Bits(bs);
    [Letter(x / 0x4_0000 % 64),
     Letter(x / 0x1000 % 64),
     if |bs| > 1 then Letter(x / 64 % 64) else PAD,
     if |bs| > 2 then Letter(x % 64) else PAD]
  }

  /** The bytes of a group, left-aligned in 24 bits. */
  function Bits(bs: seq<Byte>): (x: nat)
    requires 1 <= |bs| <= 3
    ensures x < 0x100_0000
  {
    var first: int := bs[0];
    var second: int := if |bs| > 1 then bs[1] else 0;
    var third: int := if |bs| > 2 then bs[2] else 0;
    first * 0x1_0000 + second * 0x100 + third
  }

  function Encode(bs: seq<Byte>): string {
    if bs == [] then ""
    else if |bs| <= 3 then EncodeGroup(bs)
    else EncodeGroup(bs[..3]) + Encode(bs[3..])
  }

  /** The loop of the source: each pass collects a group's bits and emits four characters. */
  method EncodeLoop(input: seq<Byte>) returns (out: string)
    ensures out == Encode(input)
  {
    hide EncodeGroup;
    out := "";
    if input == [] {
      return;
    }
    var i := 0;
    while i < |input|
      invariant 0 <= i && out + Encode(Rest(input, i)) == Encode(input)
      decreases |input| - i
    {
      var chunk := if |input| - i >= 3 then 3 else |input| - i;
      var group := EmitGroup(input[i..i + chunk]);
      GroupStep(Rest(input, i), chunk);
      assert Rest(input, i)[..chunk] == input[i..i + chunk];
      assert Rest(input, i + 3) == if 3 <= |Rest(input, i)| then Rest(input, i)[3..] else [];
      assert out + (group + Encode(Rest(input, i + 3))) == (out + group) + Encode(Rest(input, i + 3));
      out := out + group;
      i := i + 3;
    }
  }

  function Rest(input: seq<Byte>, i: nat): seq<Byte> {
    if i <= |input| then input[i..] else []
  }

  /** The body of the loop for one group. */
  method EmitGroup(bs: seq<Byte>) returns (out: string)
    requires 1 <= |bs| <= 3
    ensures out == EncodeGroup(bs)
  {
    var b := CollectBits(bs);
    LetterIsTable(b / 0x4_0000 % 64);
    LetterIsTable(b / 0x1000 % 64);
    LetterIsTable(b / 64 % 64);
    LetterIsTable(b % 64);
    hide Letter, Bits, TABLE;
    out := [TABLE[b / 0x4_0000 % 64]];
    out := out + [TABLE[b / 0x1000 % 64]];
    if |bs| > 1 {
      out := out + [TABLE[b / 64 % 64]];
    } else {
      out := out + [PAD];
    }
    if |bs| > 2 {
      out := out + [TABLE[b % 64]];
    } else {
      out := out + [PAD];
    }
  }

  /** The inner loop: each byte is placed eight bits below the one before. */
  method CollectBits(bs: seq<Byte>) returns (b: nat)
    requires 1 <= |bs| <= 3
    ensures b == Bits(bs)
  {
    b := 0;
    var j := 0;
    while j < |bs|
      invariant 0 <= j <= |bs|
      invariant b == if j == 0 then 0 else Bits(bs[..j])
    {
      b := b + (bs[j] as int) * (if j == 0 then 0x1_0000 else if j == 1 then 0x100 else 1);
      j := j + 1;
    }
    assert bs[..j] == bs;
  }

  lemma GroupStep(rest: seq<Byte>, chunk: nat)
    requires |rest| > 0 && chunk == if |rest| >= 3 then 3 else |rest|
    ensures Encode(rest) == EncodeGroup(rest[..chunk]) + Encode(if 3 <= |rest| then rest[3..] else [])
  {
    if |rest| <= 3 {
      assert rest[..chunk] == rest;
    }
  }

  // Decoding ------------------------------------------------------------------------------------

  /** A final group: padding only at its end, and the unused bits zero. */
  function DecodeGroup(s: string, last: bool): (r: Option<seq<Byte>>)
    requires |s| == 4
  {
    match (Value(s[0]), Value(s[1]), Value(s[2]), Value(s[3]))
    case (Some(a), Some(b), Some(c), Some(d)) =>
      Some([a * 4 + b / 16, b % 16 * 16 + c / 4, c % 4 * 64 + d])
    case (Some(a), Some(b), Some(c), None) =>
      if last && s[3] == PAD && c % 4 == 0 then Some([a * 4 + b / 16, b % 16 * 16 + c / 4]) else None
    case (Some(a), Some(b), None, None) =>
      if last && s[2] == PAD && s[3] == PAD && b % 16 == 0 then Some([a * 4 + b / 16]) else None
    case _ => None
  }

  /** The strict decoder: no stray characters, padding only in the last group, unused bits zero. */
  function Decode(s: string): Option<seq<Byte>> {
    if s == "" then Some([])
    else if |s| < 4 then None
    else
      match DecodeGroup(s[..4], |s| == 4)
      case None => None
      case Some(first) =>
        match Decode(s[4..])
        case None => None
        case Some(rest) => Some(first + rest)
  }

  lemma GroupRoundTrip(bs: seq<Byte>, last: bool)
    requires 1 <= |bs| <= 3 && (|bs| < 3 ==> last)
    ensures DecodeGroup(EncodeGroup(bs), last) == Some(bs)
  {
    hide Letter, Value, Bits;
    var x := Bits(bs);
    ValueOfLetter(x / 0x4_0000 % 64);
    ValueOfLetter(x / 0x1000 % 64);
    ValueOfLetter(x / 64 % 64);
    ValueOfLetter(x % 64);
    PadIsNoLetter();
    GroupBits(bs);
    assert bs == if |bs| == 1 then [bs[0]] else if |bs| == 2 then [bs[0], bs[1]] else [bs[0], bs[1], bs[2]];
  }

  lemma PadIsNoLetter()
    ensures Value(PAD) == None
  {
  }

  lemma GroupBits(bs: seq<Byte>)
    requires 1 <= |bs| <= 3
    ensures var x := Bits(bs);
            var a, b, c, d := x / 0x4_0000 % 64, x / 0x1000 % 64, x / 64 % 64, x % 64;
            && a * 4 + b / 16 == bs[0]
            && (if |bs| > 1 then b % 16 * 16 + c / 4 == bs[1] else b % 16 == 0)
            && (if |bs| > 2 then c % 4 * 64 + d == bs[2] else c % 4 == 0)
  {
    var first: int := bs[0];
    var second: int := if |bs| > 1 then bs[1] else 0;
    var third: int := if |bs| > 2 then bs[2] else 0;
    Sextets(first, second, third);
    SextetBytes(first, second, third);
  }

  /** The four six-bit fields of three bytes. */
  lemma Sextets(p: int, q: int, r: int)
    requires 0 <= p < 256 && 0 <= q < 256 && 0 <= r < 256
    ensures var x := p * 0x1_0000 + q * 0x100 + r;
            && x / 0x4_0000 % 64 == p / 4
            && x / 0x1000 % 64 == p % 4 * 16 + q / 16
            && x / 64 % 64 == q % 16 * 4 + r / 64
            && x % 64 == r % 64
  {
    var x := p * 0x1_0000 + q * 0x100 + r;
    var a, b, c, d := p / 4, p % 4 * 16 + q / 16, q % 16 * 4 + r / 64, r % 64;
    assert x == a * 0x4_0000 + b * 0x1000 + c * 64 + d;
    Fields(a, b, c, d);
  }

  lemma Fields(a: int, b: int, c: int, d: int)
    requires 0 <= a < 64 && 0 <= b < 64 && 0 <= c < 64 && 0 <= d < 64
    ensures var x := a * 0x4_0000 + b * 0x1000 + c * 64 + d;
            x / 0x4_0000 % 64 == a && x / 0x1000 % 64 == b && x / 64 % 64 == c && x % 64 == d
  {
    var x := a * 0x4_0000 + b * 0x1000 + c * 64 + d;
    assert x / 64 == a * 0x1000 + b * 64 + c;
    assert x / 0x1000 == a * 64 + b;
    assert x / 0x4_0000 == a;
  }

  lemma SextetBytes(p: int, q: int, r: int)
    requires 0 <= p < 256 && 0 <= q < 256 && 0 <= r < 256
    ensures var a, b, c, d := p / 4, p % 4 * 16 + q / 16, q % 16 * 4 + r / 64, r % 64;
            a * 4 + b / 16 == p && b % 16 * 16 + c / 4 == q && c % 4 * 64 + d == r
  {
    assert (p % 4 * 16 + q / 16) / 16 == p % 4 && (p % 4 * 16 + q / 16) % 16 == q / 16;
    assert (q % 16 * 4 + r / 64) / 4 == q % 16 && (q % 16 * 4 + r / 64) % 4 == r / 64;
  }

  /** Main result: the strict decoder inverts the encoder on every byte string,
      so in particular the encoder's unused bits are zero. */
  lemma {:induction false} RoundTrip(bs: seq<Byte>)
    ensures Decode(Encode(bs)) == Some(bs)
    decreases |bs|
  {
    hide DecodeGroup, EncodeGroup;
    if bs != [] {
      var first, rest := if |bs| <= 3 then bs else bs[..3], if |bs| <= 3 then [] else bs[3..];
      assert bs == first + rest;
      assert Encode(bs) == EncodeGroup(first) + Encode(rest);
      RoundTrip(rest);
      LengthAndPadding(rest);
      GroupRoundTrip(first, Encode(rest) == "");
      var s := Encode(bs);
      assert s[..4] == EncodeGroup(first) && s[4..] == Encode(rest);
    }
  }

  /** Three of the vectors of RFC 4648, section 10: "f", "fo" and "foo". */
  lemma Vectors()
    ensures Encode([102]) == "Zg==" && Encode([102, 111]) == "Zm8=" && Encode([102, 111, 111]) == "Zm9v"
  {
    assert Bits([102]) == 25 * 0x4_0000 + 32 * 0x1000;
    assert Bits([102, 111]) == 25 * 0x4_0000 + 38 * 0x1000 + 60 * 64;
    assert Bits([102, 111, 111]) == 25 * 0x4_0000 + 38 * 0x1000 + 61 * 64 + 47;
  }

  function CountPad(s: string): nat {
    if s == "" then 0 else (if s[0] == PAD then 1 else 0) + CountPad(s[1..])
  }

  lemma CountPadFour(s: string)
    requires |s| >= 4
    ensures CountPad(s) == (if s[0] == PAD then 1 else 0) + (if s[1] == PAD then 1 else 0)
                           + (if s[2] == PAD then 1 else 0) + (if s[3] == PAD then 1 else 0) + CountPad(s[4..])
  {
    assert s[1..][1..] == s[2..] && s[2..][1..] == s[3..] && s[3..][1..] == s[4..];
    assert CountPad(s) == (if s[0] == PAD then 1 else 0) + CountPad(s[1..]);
    assert CountPad(s[1..]) == (if s[1] == PAD then 1 else 0) + CountPad(s[2..]);
    assert CountPad(s[2..]) == (if s[2] == PAD then 1 else 0) + CountPad(s[3..]);
    assert CountPad(s[3..]) == (if s[3] == PAD then 1 else 0) + CountPad(s[4..]);
  }

  lemma GroupPadding(bs: seq<Byte>)
    requires 1 <= |bs| <= 3
    ensures var s := EncodeGroup(bs);
            s[0] != PAD && s[1] != PAD && (s[2] == PAD <==> |bs| == 1) && (s[3] == PAD <==> |bs| < 3)
  {
    var x := Bits(bs);
    ValueOfLetter(x / 0x4_0000 % 64);
    ValueOfLetter(x / 0x1000 % 64);
    ValueOfLetter(x / 64 % 64);
    ValueOfLetter(x % 64);
    hide Letter, Value;
  }

  /** The output has four characters for every started group of three bytes,
      and as many pads as bytes the last group lacks. */
  lemma {:induction false} LengthAndPadding(bs: seq<Byte>)
    ensures |Encode(bs)| == 4 * ((|bs| + 2) / 3)
    ensures CountPad(Encode(bs)) == (3 - |bs| % 3) % 3
    decreases |bs|
  {
    hide EncodeGroup;
    if bs != [] {
      var first, rest := if |bs| <= 3 then bs else bs[..3], if |bs| <= 3 then [] else bs[3..];
      assert Encode(bs) == EncodeGroup(first) + Encode(rest);
      LengthAndPadding(rest);
      GroupPadding(first);
      CountPadFour(Encode(bs));
      assert Encode(bs)[4..] == Encode(rest);
    }
  }

  lemma DecodedGroup(s: string, last: bool, bs: seq<Byte>)
    requires |s| == 4 && DecodeGroup(s, last) == Some(bs)
    ensures 1 <= |bs| <= 3 && EncodeGroup(bs) == s && (|bs| < 3 ==> last)
  {
    var a, b := Value(s[0]).value, Value(s[1]).value;
    var c := if Value(s[2]).Some? then Value(s[2]).value else 0;
    var d := if Value(s[3]).Some? then Value(s[3]).value else 0;
    Fields(a, b, c, d);
    BytesOfFields(a, b, c, d);
    hide Value, Letter;
    assert Bits(bs) == a * 0x4_0000 + b * 0x1000 + c * 64 + d;
    assert s == [s[0], s[1], s[2], s[3]];
  }

  lemma BytesOfFields(a: int, b: int, c: int, d: int)
    requires 0 <= a < 64 && 0 <= b < 64 && 0 <= c < 64 && 0 <= d < 64
    ensures (a * 4 + b / 16) * 0x1_0000 + (b % 16 * 16 + c / 4) * 0x100 + (c % 4 * 64 + d) ==
            a * 0x4_0000 + b * 0x1000 + c * 64 + d
    ensures a * 4 + b / 16 < 256 && b % 16 * 16 + c / 4 < 256 && c % 4 * 64 + d < 256
  {
  }

  /** The encoder inverts the decoder: no two strings decode to the same bytes. */
  lemma {:induction false} Canonical(s: string, bs: seq<Byte>)
    requires Decode(s) == Some(bs)
    ensures Encode(bs) == s
    decreases |s|
  {
    hide DecodeGroup, EncodeGroup;
    if s != "" {
      var first := DecodeGroup(s[..4], |s| == 4).value;
      var rest := Decode(s[4..]).value;
      DecodedGroup(s[..4], |s| == 4, first);
      Canonical(s[4..], rest);
      assert s == s[..4] + s[4..];
      if rest != [] {
        assert |first| == 3;
        assert (first + rest)[..3] == first && (first + rest)[3..] == rest;
      } else {
        assert first + rest == first;
      }
    }
  }
}
