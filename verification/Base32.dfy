/**
  Base32 without padding (sections 6 and 3.2 of RFC 4648), as the cluster key codec uses it:
  five bytes become eight digits of five bits; a shorter last block becomes as many digits as
  its bits need. Shifts and masks are written as division and remainder.
 */
module Base32 {
  import opened Common
  import opened Text

  type Byte = b: int | 0 <= b < 256
  type Digit = d: int | 0 <= d < 32

  // ---------- One block ----------

  /** The eight digits of five bytes. */
  function Pack(b: seq<Byte>): (q: seq<Digit>)
    requires |b| == 5
    ensures |q| == 8
  {
    var b0: int, b1: int, b2: int, b3: int, b4: int := b[0], b[1], b[2], b[3], b[4];
    [ b0 / 8, b0 % 8 * 4 + b1 / 64, b1 / 2 % 32, b1 % 2 * 16 + b2 / 16,
      b2 % 16 * 2 + b3 / 128, b3 / 4 % 32, b3 % 4 * 8 + b4 / 32, b4 % 32 ]
  }

  /** The five bytes of eight digits. */
  function Unpack(q: seq<Digit>): (b: seq<Byte>)
    requires |q| == 8
    ensures |b| == 5
  {
    var q0: int, q1: int, q2: int, q3: int := q[0], q[1], q[2], q[3];
    var q4: int, q5: int, q6: int, q7: int := q[4], q[5], q[6], q[7];
    [ q0 * 8 + q1 / 4, q1 % 4 * 64 + q2 * 2 + q3 / 16, q3 % 16 * 16 + q4 / 2,
      q4 % 2 * 128 + q5 * 4 + q6 / 8, q6 % 8 * 32 + q7 ]
  }

  /** A digit that straddles two bytes gives back its high and low part. */
  lemma Straddles(h: int, l: int)
    ensures 0 <= l < 4 ==> (h * 4 + l) / 4 == h && (h * 4 + l) % 4 == l
    ensures 0 <= l < 16 ==> (h * 16 + l) / 16 == h && (h * 16 + l) % 16 == l
    ensures 0 <= l < 2 ==> (h * 2 + l) / 2 == h && (h * 2 + l) % 2 == l
    ensures 0 <= l < 8 ==> (h * 8 + l) / 8 == h && (h * 8 + l) % 8 == l
  {
  }

  lemma UnpackPack(b: seq<Byte>)
    requires |b| == 5
    ensures Unpack(Pack(b)) == b
  {
    var b0: int, b1: int, b2: int, b3: int, b4: int := b[0], b[1], b[2], b[3], b[4];
    Straddles(b0 % 8, b1 / 64);
    Straddles(b1 % 2, b2 / 16);
    Straddles(b2 % 16, b3 / 128);
    Straddles(b3 % 4, b4 / 32);
    MiddleBits(b1, b3);
    assert Unpack(Pack(b)) == [b0, b1, b2, b3, b4];
  }

  /** The second and fourth byte are spread over three digits. */
  lemma MiddleBits(b1: int, b3: int)
    requires 0 <= b1 < 256 && 0 <= b3 < 256
    ensures b1 / 64 * 64 + b1 / 2 % 32 * 2 + b1 % 2 == b1
    ensures b3 / 128 * 128 + b3 / 4 % 32 * 4 + b3 % 4 == b3
  {
  }

  /** The digits are the base-32 digits of the block read as one 40-bit big-endian number. */
  lemma PackIsPositional(b: seq<Byte>)
    requires |b| == 5
    ensures var b0: int, b1: int, b2: int, b3: int, b4: int := b[0], b[1], b[2], b[3], b[4];
            var q := Pack(b);
            var q0: int, q1: int, q2: int, q3: int := q[0], q[1], q[2], q[3];
            var q4: int, q5: int, q6: int, q7: int := q[4], q[5], q[6], q[7];
            0x1_0000_0000 * b0 + 0x100_0000 * b1 + 0x1_0000 * b2 + 0x100 * b3 + b4 ==
            0x8_0000_0000 * q0 + 0x4000_0000 * q1 + 0x200_0000 * q2 + 0x10_0000 * q3 +
            0x8000 * q4 + 0x400 * q5 + 0x20 * q6 + q7
  {
    MiddleBits(b[1], b[3]);
  }

  const ZEROS: seq<Byte> := [0, 0, 0, 0, 0]
  const ZERO_DIGITS: seq<Digit> := [0, 0, 0, 0, 0, 0, 0, 0]

  /** The number of digits that carry `n` bytes: the ceiling of 8n/5. */
  function DigitCount(n: nat): nat {
    (8 * n + 4) / 5
  }

  /** The number of bytes the decoder takes from a block of `n` digits: none from a length no encoding has. */
  function ByteCount(n: nat): nat
    requires n <= 8
  {
    match n
    case 8 => 5
    case 7 => 4
    case 5 => 3
    case 4 => 2
    case 2 => 1
    case _ => 0
  }

  function EncodeBlock(b: seq<Byte>): (q: seq<Digit>)
    requires |b| <= 5
    ensures |q| == DigitCount(|b|)
  {
    Pack(b + ZEROS[|b|..])[..DigitCount(|b|)]
  }

  function DecodeBlock(q: seq<Digit>): (b: seq<Byte>)
    requires |q| <= 8
    ensures |b| == ByteCount(|q|)
  {
    Unpack(q + ZERO_DIGITS[|q|..])[..ByteCount(|q|)]
  }

  /** The digits that a short block drops are all zero, so padding with zeros restores the full block. */
  lemma DroppedDigitsAreZero(b: seq<Byte>)
    requires |b| <= 5
    ensures EncodeBlock(b) + ZERO_DIGITS[DigitCount(|b|)..] == Pack(b + ZEROS[|b|..])
  {
    hide Pack;
    var p, n := b + ZEROS[|b|..], DigitCount(|b|);
    PackZeroTail(p, |b|);
    assert EncodeBlock(b) == Pack(p)[..n];
  }

  lemma PackZeroTail(p: seq<Byte>, k: nat)
    requires |p| == 5 && k <= 5 && forall i :: k <= i < 5 ==> p[i] == 0
    ensures forall i :: DigitCount(k) <= i < 8 ==> Pack(p)[i] == 0
  {
    assert k <= 4 ==> p[4] == 0;
    assert k <= 3 ==> p[3] == 0;
    assert k <= 2 ==> p[2] == 0;
    assert k <= 1 ==> p[1] == 0;
  }

  lemma BlockRoundTrip(b: seq<Byte>)
    requires |b| <= 5
    ensures DecodeBlock(EncodeBlock(b)) == b
  {
    var p := b + ZEROS[|b|..];
    DroppedDigitsAreZero(b);
    UnpackPack(p);
    assert p[..|b|] == b;
  }

  // ---------- Digit sequences ----------

  function EncodeDigits(b: seq<Byte>): (q: seq<Digit>)
    ensures |q| == DigitCount(|b|)
  {
    if |b| <= 5 then EncodeBlock(b) else EncodeBlock(b[..5]) + EncodeDigits(b[5..])
  }

  function DecodeDigits(q: seq<Digit>): seq<Byte> {
    if |q| <= 8 then DecodeBlock(q) else DecodeBlock(q[..8]) + DecodeDigits(q[8..])
  }

  lemma {:induction false} DigitsRoundTrip(b: seq<Byte>)
    ensures DecodeDigits(EncodeDigits(b)) == b
  {
    if |b| <= 5 {
      BlockRoundTrip(b);
    } else {
      var q := EncodeDigits(b);
      BlockRoundTrip(b[..5]);
      DigitsRoundTrip(b[5..]);
      assert q[..8] == EncodeBlock(b[..5]) && q[8..] == EncodeDigits(b[5..]);
      assert b == b[..5] + b[5..];
    }
  }

  // ---------- The encoding, bit by bit ----------

  function Shift(x: int, s: nat): int
    requires s < 8
  {
    match s
    case 0 => x
    case 1 => x / 2
    case 2 => x / 4
    case 3 => x / 8
    case 4 => x / 16
    case 5 => x / 32
    case 6 => x / 64
    case _ => x / 128
  }

  /** Bit `k` of the bytes, the most significant of each first; zero past the end. */
  function Bit(b: seq<Byte>, k: nat): int {
    if k / 8 < |b| then Shift(b[k / 8], 7 - k % 8) % 2 else 0
  }

  /** The five bits from bit 5i on, as a number. */
  function Quintet(b: seq<Byte>, i: nat): int {
    16 * Bit(b, 5 * i) + 8 * Bit(b, 5 * i + 1) + 4 * Bit(b, 5 * i + 2) + 2 * Bit(b, 5 * i + 3) + Bit(b, 5 * i + 4)
  }

  /** A byte shifted by one more, and the bit that leaves. */
  lemma HighHalves(x: int)
    requires 0 <= x < 256
    ensures x / 16 == 2 * (x / 32) + x / 16 % 2 && x / 32 == 2 * (x / 64) + x / 32 % 2
    ensures x / 64 == 2 * (x / 128) + x / 64 % 2 && x / 128 == x / 128 % 2
  {
  }

  lemma LowHalves(x: int)
    ensures x == 2 * (x / 2) + x % 2 && x / 2 == 2 * (x / 4) + x / 2 % 2
    ensures x / 4 == 2 * (x / 8) + x / 4 % 2 && x / 8 == 2 * (x / 16) + x / 8 % 2
  {
  }

  /** The leading bits of a byte, as a number. */
  lemma Leading(x: int)
    requires 0 <= x < 256
    ensures x / 64 == 2 * (x / 128 % 2) + x / 64 % 2
    ensures x / 32 == 4 * (x / 128 % 2) + 2 * (x / 64 % 2) + x / 32 % 2
    ensures x / 16 == 8 * (x / 128 % 2) + 4 * (x / 64 % 2) + 2 * (x / 32 % 2) + x / 16 % 2
    ensures x / 8 == 16 * (x / 128 % 2) + 8 * (x / 64 % 2) + 4 * (x / 32 % 2) + 2 * (x / 16 % 2) + x / 8 % 2
  {
    HighHalves(x);
    LowHalves(x);
  }

  /** The trailing bits. */
  lemma Trailing(x: int)
    ensures x % 4 == 2 * (x / 2 % 2) + x % 2
    ensures x % 8 == 4 * (x / 4 % 2) + 2 * (x / 2 % 2) + x % 2
    ensures x % 16 == 8 * (x / 8 % 2) + 4 * (x / 4 % 2) + 2 * (x / 2 % 2) + x % 2
  {
    LowHalves(x);
    assert x % 4 == x - 4 * (x / 4);
    assert x % 8 == x - 8 * (x / 8);
    assert x % 16 == x - 16 * (x / 16);
  }

  lemma TrailingFive(x: int)
    ensures x % 32 == 16 * (x / 16 % 2) + 8 * (x / 8 % 2) + 4 * (x / 4 % 2) + 2 * (x / 2 % 2) + x % 2
  {
    Trailing(x);
    assert x % 32 == x - 32 * (x / 32) && x % 16 == x - 16 * (x / 16);
    assert x / 16 == 2 * (x / 32) + x / 16 % 2;
  }

  /** Five bits in the middle of a byte. */
  lemma Inner(x: int)
    ensures x / 2 % 32 == 16 * (x / 32 % 2) + 8 * (x / 16 % 2) + 4 * (x / 8 % 2) + 2 * (x / 4 % 2) + x / 2 % 2
    ensures x / 4 % 32 == 16 * (x / 64 % 2) + 8 * (x / 32 % 2) + 4 * (x / 16 % 2) + 2 * (x / 8 % 2) + x / 4 % 2
  {
    TrailingFive(x / 2);
    TrailingFive(x / 4);
    NestedShift(x);
  }

  lemma NestedShift(x: int)
    ensures x / 2 / 2 == x / 4 && x / 2 / 4 == x / 8 && x / 2 / 8 == x / 16 && x / 2 / 16 == x / 32
    ensures x / 4 / 2 == x / 8 && x / 4 / 4 == x / 16 && x / 4 / 8 == x / 32 && x / 4 / 16 == x / 64
  {
  }

  lemma ByteBit(b: seq<Byte>, j: nat, r: nat)
    requires j < |b| && r < 8
    ensures Bit(b, 8 * j + r) == Shift(b[j], 7 - r) % 2
  {
    hide Shift;
    assert (8 * j + r) / 8 == j && (8 * j + r) % 8 == r;
  }

  /** Bits within the byte they come from. */
  lemma ByteBits(b: seq<Byte>, j: nat)
    requires j < |b|
    ensures var x: int := b[j];
            && Bit(b, 8 * j) == x / 128 % 2 && Bit(b, 8 * j + 1) == x / 64 % 2 && Bit(b, 8 * j + 2) == x / 32 % 2
            && Bit(b, 8 * j + 3) == x / 16 % 2 && Bit(b, 8 * j + 4) == x / 8 % 2 && Bit(b, 8 * j + 5) == x / 4 % 2
            && Bit(b, 8 * j + 6) == x / 2 % 2 && Bit(b, 8 * j + 7) == x % 2
  {
    hide Bit;
    ByteBit(b, j, 0);
    ByteBit(b, j, 1);
    ByteBit(b, j, 2);
    ByteBit(b, j, 3);
    ByteBit(b, j, 4);
    ByteBit(b, j, 5);
    ByteBit(b, j, 6);
    ByteBit(b, j, 7);
  }

  lemma PackQuintets(b: seq<Byte>, i: nat)
    requires |b| == 5 && i < 8
    ensures Pack(b)[i] == Quintet(b, i)
  {
    hide Bit;
    var b0: int, b1: int, b2: int, b3: int, b4: int := b[0], b[1], b[2], b[3], b[4];
    ByteBits(b, 0);
    ByteBits(b, 1);
    ByteBits(b, 2);
    ByteBits(b, 3);
    ByteBits(b, 4);
    Leading(b0);
    Trailing(b0);
    Leading(b1);
    Inner(b1);
    Leading(b2);
    Trailing(b2);
    HighHalves(b3);
    Inner(b3);
    Trailing(b3);
    Leading(b4);
    TrailingFive(b4);
  }

  /** Zero bytes at the end add no bits. */
  lemma PaddedBit(b: seq<Byte>, k: nat)
    requires |b| <= 5
    ensures Bit(b + ZEROS[|b|..], k) == Bit(b, k)
  {
    var p := b + ZEROS[|b|..];
    if |b| <= k / 8 < |p| {
      assert p[k / 8] == 0;
    }
  }

  lemma LaterBit(b: seq<Byte>, k: nat)
    requires |b| >= 5
    ensures Bit(b, k + 40) == Bit(b[5..], k)
  {
    assert (k + 40) / 8 == k / 8 + 5 && (k + 40) % 8 == k % 8;
  }

  /**
    The encoding as section 6 of RFC 4648 describes it: digit `i` is the number made of the five bits
    from bit 5i on, read as one stream of bytes, zero bits past the end.
   */
  lemma {:induction false} EncodeQuintets(b: seq<Byte>, i: nat)
    requires i < |EncodeDigits(b)|
    ensures EncodeDigits(b)[i] == Quintet(b, i)
  {
    hide Pack, Bit;
    if |b| <= 5 {
      PackQuintets(b + ZEROS[|b|..], i);
      PaddedQuintet(b, i);
    } else if i < 8 {
      PackQuintets(b[..5], i);
      assert b[..5] + ZEROS[5..] == b[..5];
      EarlyQuintet(b, i);
    } else {
      EncodeQuintets(b[5..], i - 8);
      LaterQuintet(b, i - 8);
    }
  }

  lemma PaddedQuintet(b: seq<Byte>, i: nat)
    requires |b| <= 5
    ensures Quintet(b + ZEROS[|b|..], i) == Quintet(b, i)
  {
    hide Bit;
    PaddedBit(b, 5 * i);
    PaddedBit(b, 5 * i + 1);
    PaddedBit(b, 5 * i + 2);
    PaddedBit(b, 5 * i + 3);
    PaddedBit(b, 5 * i + 4);
  }

  lemma EarlyQuintet(b: seq<Byte>, i: nat)
    requires |b| >= 5 && i < 8
    ensures Quintet(b[..5], i) == Quintet(b, i)
  {
  }

  lemma LaterQuintet(b: seq<Byte>, i: nat)
    requires |b| >= 5
    ensures Quintet(b, i + 8) == Quintet(b[5..], i)
  {
    hide Bit;
    LaterBit(b, 5 * i);
    LaterBit(b, 5 * i + 1);
    LaterBit(b, 5 * i + 2);
    LaterBit(b, 5 * i + 3);
    LaterBit(b, 5 * i + 4);
  }

  /** And its alphabet. */
  lemma AlphabetIsStandard(d: Digit)
    ensures CharOf(d) == "ABCDEFGHIJKLMNOPQRSTUVWXYZ234567"[d]
  {
  }

  // ---------- The alphabet ----------

  function CharOf(d: Digit): char {
    if d < 26 then 'A' + d as char else '2' + (d - 26) as char
  }

  function DigitOf(c: char): Option<Digit> {
    if 'A' <= c <= 'Z' then Some((c - 'A') as int)
    else if '2' <= c <= '7' then Some((c - '2') as int + 26)
    else None
  }

  function EncodeToString(b: seq<Byte>): (s: string)
    ensures |s| == DigitCount(|b|)
    ensures forall i :: 0 <= i < |s| ==> 'A' <= s[i] <= 'Z' || '2' <= s[i] <= '7'
  {
    var q := EncodeDigits(b);
    seq(|q|, i requires 0 <= i < |q| => CharOf(q[i]))
  }

  /** The digits of `s`, or None if some character is outside the alphabet. */
  function DigitsOf(s: string): (q: Option<seq<Digit>>)
    ensures q.Some? <==> forall i :: 0 <= i < |s| ==> DigitOf(s[i]).Some?
    ensures q.Some? ==> |q.value| == |s| && forall i :: 0 <= i < |s| ==> DigitOf(s[i]) == Some(q.value[i])
  {
    if s == [] then Some([])
    else
      match (DigitOf(s[0]), DigitsOf(s[1..]))
      case (Some(d), Some(rest)) => Some([d] + rest)
      case _ => None
  }

  function StripNewlines(s: string): string {
    if s == [] then []
    else (if s[0] == '\r' || s[0] == '\n' then [] else [s[0]]) + StripNewlines(s[1..])
  }

  lemma {:induction false} StripNothing(s: string)
    requires forall i :: 0 <= i < |s| ==> s[i] != '\r' && s[i] != '\n'
    ensures StripNewlines(s) == s
  {
    if s != [] {
      StripNothing(s[1..]);
      assert s == [s[0]] + s[1..];
    }
  }

  lemma AlphabetRoundTrip(d: Digit)
    ensures DigitOf(CharOf(d)) == Some(d)
    ensures UpperChar(LowerChar(CharOf(d))) == CharOf(d)
  {
  }

  /** The decoder ignores line breaks and fails on any other character outside the alphabet. */
  function DecodeString(s: string): Option<seq<Byte>> {
    match DigitsOf(StripNewlines(s))
    case Some(q) => Some(DecodeDigits(q))
    case None => None
  }

  /** Whatever the text, decoding fails exactly on a character outside the alphabet that is no line break. */
  lemma DecodeAccepts(s: string)
    ensures DecodeString(s).Some? <==>
            forall i :: 0 <= i < |s| ==> s[i] == '\r' || s[i] == '\n' || 'A' <= s[i] <= 'Z' || '2' <= s[i] <= '7'
  {
    hide DecodeDigits;
    StripMembers(s);
    var t := StripNewlines(s);
    if DecodeString(s).Some? {
      forall i | 0 <= i < |s| && s[i] != '\r' && s[i] != '\n' ensures 'A' <= s[i] <= 'Z' || '2' <= s[i] <= '7' {
        assert s[i] in t;
        var k :| 0 <= k < |t| && t[k] == s[i];
        assert DigitOf(t[k]).Some?;
      }
    } else {
      var k :| 0 <= k < |t| && DigitOf(t[k]).None?;
      assert t[k] in t;
      var i :| 0 <= i < |s| && s[i] == t[k];
    }
  }

  lemma {:induction false} StripMembers(s: string)
    ensures forall c :: c in StripNewlines(s) <==> c in s && c != '\r' && c != '\n'
  {
    if s != [] {
      StripMembers(s[1..]);
    }
  }

  /** Decoding undoes encoding, through lower case and back, for every byte string. */
  lemma RoundTrip(b: seq<Byte>)
    ensures DecodeString(ToUpper(ToLower(EncodeToString(b)))) == Some(b)
  {
    hide EncodeDigits, DecodeDigits, CharOf, DigitOf, LowerChar, UpperChar;
    var q, s := EncodeDigits(b), EncodeToString(b);
    forall i | 0 <= i < |s| ensures DigitOf(s[i]) == Some(q[i]) && UpperChar(LowerChar(s[i])) == s[i] {
      AlphabetRoundTrip(q[i]);
    }
    assert ToUpper(ToLower(s)) == s;
    StripNothing(s);
    assert DigitsOf(s).Some?;
    assert DigitsOf(s).value == q;
    DigitsRoundTrip(b);
  }
}
