/** The codecs bit by bit, against the tables as sections 4, 6 and 8 of RFC 4648 print them.

    Data and text are both strings of bits here, so nothing depends on how a group is cut up.
 */
module CodingBits {
  import opened Sequences
  import opened CodingSpec
  import opened CodingProofs
  import opened BaseCoding

  // ---- the tables ----

  const UPPER := "ABCDEFGHIJKLMNOPQRSTUVWXYZ"
  const LOWER := "abcdefghijklmnopqrstuvwxyz"

  ghost function Table(base: Base): (s: string)
    ensures |s| == match base case Base64 => 64 case Base32 => 32 case Base16 => 16
  {
    match base
    case Base64 => UPPER + LOWER + "0123456789+/"
    case Base32 => UPPER + "234567"
    case Base16 => "0123456789ABCDEF"
  }

  lemma CharIsInTable64(code: byte)
    requires code < 64
    ensures Char64(code) as int == Table(Base64)[code as int] as int
  {
    var i := code as int;
    assert forall k :: 0 <= k < 26 ==> UPPER[k] as int == 65 + k;
    assert forall k :: 0 <= k < 26 ==> LOWER[k] as int == 97 + k;
    assert forall k :: 0 <= k < 10 ==> "0123456789+/"[k] as int == 48 + k;
    CharNumber64(code);
  }

  lemma CharNumber64(code: byte)
    requires code < 64
    ensures var i := code as int;
      Char64(code) as int
        == if i < 26 then 65 + i else if i < 52 then 97 + (i - 26) else if i < 62 then 48 + (i - 52)
           else if i == 62 then 43 else 47
  {
  }

  lemma CharIsInTable32(code: byte)
    requires code < 32
    ensures Char32(code) as int == Table(Base32)[code as int] as int
  {
    assert forall k :: 0 <= k < 26 ==> UPPER[k] as int == 65 + k;
    assert forall k :: 0 <= k < 6 ==> "234567"[k] as int == 50 + k;
    CharNumber32(code);
  }

  lemma CharNumber32(code: byte)
    requires code < 32
    ensures var i := code as int; Char32(code) as int == if i < 26 then 65 + i else 50 + (i - 26)
  {
  }

  lemma CharIsInTable16(code: byte)
    requires code < 16
    ensures Char16(code) as int == Table(Base16)[code as int] as int
  {
    assert forall k :: 0 <= k < 10 ==> Table(Base16)[k] as int == 48 + k;
    assert forall k :: 10 <= k < 16 ==> Table(Base16)[k] as int == 65 + (k - 10);
    CharNumber16(code);
  }

  lemma CharNumber16(code: byte)
    requires code < 16
    ensures var i := code as int; Char16(code) as int == if i < 10 then 48 + i else 65 + (i - 10)
  {
  }

  /** Every character is the one the table prints for its code, and padding is what section 3.2 says. */
  lemma CharIsInTable(base: Base, code: byte)
    requires code < Radix(base)
    ensures code as int < |Table(base)| && Char(base, code) as int == Table(base)[code as int] as int
    ensures PADDING as int == '=' as int
  {
    match base
    case Base64 => CharIsInTable64(code);
    case Base32 => CharIsInTable32(code);
    case Base16 => CharIsInTable16(code);
  }

  // ---- bits ----

  function Width(base: Base): (w: nat)
    ensures w > 0
  {
    match base case Base64 => 6 case Base32 => 5 case Base16 => 4
  }

  ghost function OctetBits(b: byte): (bits: seq<bool>)
    ensures |bits| == 8
  {
    [b & 128 != 0, b & 64 != 0, b & 32 != 0, b & 16 != 0, b & 8 != 0, b & 4 != 0, b & 2 != 0, b & 1 != 0]
  }

  /** The low bits of a code, as many as the base is wide. */
  ghost function DigitBits(base: Base, c: byte): (bits: seq<bool>)
    ensures |bits| == Width(base)
  {
    match base
    case Base64 => [c & 32 != 0, c & 16 != 0, c & 8 != 0, c & 4 != 0, c & 2 != 0, c & 1 != 0]
    case Base32 => [c & 16 != 0, c & 8 != 0, c & 4 != 0, c & 2 != 0, c & 1 != 0]
    case Base16 => [c & 8 != 0, c & 4 != 0, c & 2 != 0, c & 1 != 0]
  }

  ghost function DataBits(x: seq<byte>): (bits: seq<bool>)
    ensures |bits| == 8 * |x|
  {
    if x == [] then [] else OctetBits(x[0]) + DataBits(x[1..])
  }

  ghost function CodeBits(base: Base, c: seq<byte>): (bits: seq<bool>)
    ensures |bits| == Width(base) * |c|
  {
    if c == [] then [] else DigitBits(base, c[0]) + CodeBits(base, c[1..])
  }

  // ---- a full group holds the same bits either way ----

  lemma Octet16(x0: byte)
    ensures DigitBits(Base16, x0 >> 4) + DigitBits(Base16, x0 & 0xF) == OctetBits(x0)
  {
  }

  lemma Sextet0(x0: byte)
    ensures DigitBits(Base64, x0 >> 2) == OctetBits(x0)[..6]
  {
    var c := x0 >> 2;
    assert c & 32 != 0 <==> x0 & 128 != 0;
    assert c & 16 != 0 <==> x0 & 64 != 0;
    assert c & 8 != 0 <==> x0 & 32 != 0;
    assert c & 4 != 0 <==> x0 & 16 != 0;
    assert c & 2 != 0 <==> x0 & 8 != 0;
    assert c & 1 != 0 <==> x0 & 4 != 0;
  }

  lemma Sextet1(x0: byte, x1: byte)
    ensures DigitBits(Base64, ((x0 & 3) << 4) | (x1 >> 4)) == OctetBits(x0)[6..] + OctetBits(x1)[..4]
  {
    var c := ((x0 & 3) << 4) | (x1 >> 4);
    assert c & 32 != 0 <==> x0 & 2 != 0;
    assert c & 16 != 0 <==> x0 & 1 != 0;
    assert c & 8 != 0 <==> x1 & 128 != 0;
    assert c & 4 != 0 <==> x1 & 64 != 0;
    assert c & 2 != 0 <==> x1 & 32 != 0;
    assert c & 1 != 0 <==> x1 & 16 != 0;
  }

  lemma Sextet2(x1: byte, x2: byte)
    ensures DigitBits(Base64, ((x1 & 0xF) << 2) | (x2 >> 6)) == OctetBits(x1)[4..] + OctetBits(x2)[..2]
  {
    var c := ((x1 & 0xF) << 2) | (x2 >> 6);
    assert c & 32 != 0 <==> x1 & 8 != 0;
    assert c & 16 != 0 <==> x1 & 4 != 0;
    assert c & 8 != 0 <==> x1 & 2 != 0;
    assert c & 4 != 0 <==> x1 & 1 != 0;
    assert c & 2 != 0 <==> x2 & 128 != 0;
    assert c & 1 != 0 <==> x2 & 64 != 0;
  }

  lemma Sextet3(x2: byte)
    ensures DigitBits(Base64, x2 & 0x3F) == OctetBits(x2)[2..]
  {
    var c := x2 & 0x3F;
    assert c & 32 != 0 <==> x2 & 32 != 0;
    assert c & 16 != 0 <==> x2 & 16 != 0;
    assert c & 8 != 0 <==> x2 & 8 != 0;
    assert c & 4 != 0 <==> x2 & 4 != 0;
    assert c & 2 != 0 <==> x2 & 2 != 0;
    assert c & 1 != 0 <==> x2 & 1 != 0;
  }

  lemma Quintet0(x0: byte)
    ensures DigitBits(Base32, x0 >> 3) == OctetBits(x0)[..5]
  {
    var c := x0 >> 3;
    assert c & 16 != 0 <==> x0 & 128 != 0;
    assert c & 8 != 0 <==> x0 & 64 != 0;
    assert c & 4 != 0 <==> x0 & 32 != 0;
    assert c & 2 != 0 <==> x0 & 16 != 0;
    assert c & 1 != 0 <==> x0 & 8 != 0;
  }

  lemma Quintet1(x0: byte, x1: byte)
    ensures DigitBits(Base32, ((x0 & 7) << 2) | (x1 >> 6)) == OctetBits(x0)[5..] + OctetBits(x1)[..2]
  {
    var c := ((x0 & 7) << 2) | (x1 >> 6);
    assert c & 16 != 0 <==> x0 & 4 != 0;
    assert c & 8 != 0 <==> x0 & 2 != 0;
    assert c & 4 != 0 <==> x0 & 1 != 0;
    assert c & 2 != 0 <==> x1 & 128 != 0;
    assert c & 1 != 0 <==> x1 & 64 != 0;
  }

  lemma Quintet2(x1: byte)
    ensures DigitBits(Base32, (x1 & 0x3F) >> 1) == OctetBits(x1)[2..7]
  {
    var c := (x1 & 0x3F) >> 1;
    var o := OctetBits(x1);
    assert o[2..7] == [o[2], o[3], o[4], o[5], o[6]];
    assert c & 16 != 0 <==> x1 & 32 != 0;
    assert c & 8 != 0 <==> x1 & 16 != 0;
    assert c & 4 != 0 <==> x1 & 8 != 0;
    assert c & 2 != 0 <==> x1 & 4 != 0;
    assert c & 1 != 0 <==> x1 & 2 != 0;
  }

  lemma Quintet3(x1: byte, x2: byte)
    ensures DigitBits(Base32, ((x1 & 1) << 4) | (x2 >> 4)) == OctetBits(x1)[7..] + OctetBits(x2)[..4]
  {
    var c := ((x1 & 1) << 4) | (x2 >> 4);
    assert c & 16 != 0 <==> x1 & 1 != 0;
    assert c & 8 != 0 <==> x2 & 128 != 0;
    assert c & 4 != 0 <==> x2 & 64 != 0;
    assert c & 2 != 0 <==> x2 & 32 != 0;
    assert c & 1 != 0 <==> x2 & 16 != 0;
  }

  lemma Quintet4(x2: byte, x3: byte)
    ensures DigitBits(Base32, ((x2 & 0xF) << 1) | (x3 >> 7)) == OctetBits(x2)[4..] + OctetBits(x3)[..1]
  {
    var c := ((x2 & 0xF) << 1) | (x3 >> 7);
    assert c & 16 != 0 <==> x2 & 8 != 0;
    assert c & 8 != 0 <==> x2 & 4 != 0;
    assert c & 4 != 0 <==> x2 & 2 != 0;
    assert c & 2 != 0 <==> x2 & 1 != 0;
    assert c & 1 != 0 <==> x3 & 128 != 0;
  }

  lemma Quintet5(x3: byte)
    ensures DigitBits(Base32, (x3 & 0x7F) >> 2) == OctetBits(x3)[1..6]
  {
    var c := (x3 & 0x7F) >> 2;
    var o := OctetBits(x3);
    assert o[1..6] == [o[1], o[2], o[3], o[4], o[5]];
    assert c & 16 != 0 <==> x3 & 64 != 0;
    assert c & 8 != 0 <==> x3 & 32 != 0;
    assert c & 4 != 0 <==> x3 & 16 != 0;
    assert c & 2 != 0 <==> x3 & 8 != 0;
    assert c & 1 != 0 <==> x3 & 4 != 0;
  }

  lemma Quintet6(x3: byte, x4: byte)
    ensures DigitBits(Base32, ((x3 & 3) << 3) | (x4 >> 5)) == OctetBits(x3)[6..] + OctetBits(x4)[..3]
  {
    var c := ((x3 & 3) << 3) | (x4 >> 5);
    assert c & 16 != 0 <==> x3 & 2 != 0;
    assert c & 8 != 0 <==> x3 & 1 != 0;
    assert c & 4 != 0 <==> x4 & 128 != 0;
    assert c & 2 != 0 <==> x4 & 64 != 0;
    assert c & 1 != 0 <==> x4 & 32 != 0;
  }

  lemma Quintet7(x4: byte)
    ensures DigitBits(Base32, x4 & 0x1F) == OctetBits(x4)[3..]
  {
    var c := x4 & 0x1F;
    assert c & 16 != 0 <==> x4 & 16 != 0;
    assert c & 8 != 0 <==> x4 & 8 != 0;
    assert c & 4 != 0 <==> x4 & 4 != 0;
    assert c & 2 != 0 <==> x4 & 2 != 0;
    assert c & 1 != 0 <==> x4 & 1 != 0;
  }

  lemma {:induction false} CodeBitsConcat(base: Base, a: seq<byte>, b: seq<byte>)
    ensures CodeBits(base, a + b) == CodeBits(base, a) + CodeBits(base, b)
  {
    hide DigitBits;
    if a == [] {
      assert a + b == b;
    } else {
      assert (a + b)[1..] == a[1..] + b;
      CodeBitsConcat(base, a[1..], b);
    }
  }

  lemma {:induction false} DataBitsConcat(a: seq<byte>, b: seq<byte>)
    ensures DataBits(a + b) == DataBits(a) + DataBits(b)
  {
    hide OctetBits;
    if a == [] {
      assert a + b == b;
    } else {
      assert (a + b)[1..] == a[1..] + b;
      DataBitsConcat(a[1..], b);
    }
  }

  lemma CodeBitsOne(base: Base, c: byte)
    ensures CodeBits(base, [c]) == DigitBits(base, c)
  {
    hide DigitBits;
    assert [c][1..] == [];
    assert DigitBits(base, c) + [] == DigitBits(base, c);
  }

  lemma CodeBitsStep(base: Base, c: seq<byte>)
    requires c != []
    ensures CodeBits(base, c) == DigitBits(base, c[0]) + CodeBits(base, c[1..])
  {
  }

  lemma CodeBitsFour(base: Base, c0: byte, c1: byte, c2: byte, c3: byte)
    ensures CodeBits(base, [c0, c1, c2, c3])
      == DigitBits(base, c0) + DigitBits(base, c1) + DigitBits(base, c2) + DigitBits(base, c3)
  {
    hide DigitBits, CodeBits;
    CodeBitsOne(base, c0);
    CodeBitsOne(base, c1);
    CodeBitsOne(base, c2);
    CodeBitsOne(base, c3);
    CodeBitsConcat(base, [c0], [c1]);
    CodeBitsConcat(base, [c0] + [c1], [c2]);
    CodeBitsConcat(base, [c0] + [c1] + [c2], [c3]);
    assert [c0] + [c1] + [c2] + [c3] == [c0, c1, c2, c3];
  }

  lemma DataBitsOne(x: byte)
    ensures DataBits([x]) == OctetBits(x)
  {
    hide OctetBits;
    assert [x][1..] == [];
    assert OctetBits(x) + [] == OctetBits(x);
  }

  lemma DataBitsThree(x0: byte, x1: byte, x2: byte)
    ensures DataBits([x0, x1, x2]) == OctetBits(x0) + OctetBits(x1) + OctetBits(x2)
  {
    hide OctetBits, DataBits;
    DataBitsOne(x0);
    DataBitsOne(x1);
    DataBitsOne(x2);
    DataBitsConcat([x0], [x1]);
    DataBitsConcat([x0] + [x1], [x2]);
    assert [x0] + [x1] + [x2] == [x0, x1, x2];
  }

  lemma DataBitsFive(x0: byte, x1: byte, x2: byte, x3: byte, x4: byte)
    ensures DataBits([x0, x1, x2, x3, x4])
      == OctetBits(x0) + OctetBits(x1) + OctetBits(x2) + OctetBits(x3) + OctetBits(x4)
  {
    hide OctetBits, DataBits;
    DataBitsThree(x0, x1, x2);
    DataBitsOne(x3);
    DataBitsOne(x4);
    DataBitsConcat([x0, x1, x2], [x3]);
    DataBitsConcat([x0, x1, x2] + [x3], [x4]);
    assert [x0, x1, x2] + [x3] + [x4] == [x0, x1, x2, x3, x4];
  }

  lemma Rejoin64(a: seq<bool>, b: seq<bool>, c: seq<bool>)
    requires |a| == 8 && |b| == 8 && |c| == 8
    ensures a[..6] + (a[6..] + b[..4]) + (b[4..] + c[..2]) + c[2..] == a + b + c
  {
  }

  lemma Rejoin32(a: seq<bool>, b: seq<bool>, c: seq<bool>, d: seq<bool>, e: seq<bool>)
    requires |a| == 8 && |b| == 8 && |c| == 8 && |d| == 8 && |e| == 8
    ensures (a[..5] + (a[5..] + b[..2]) + b[2..7] + (b[7..] + c[..4]))
      + ((c[4..] + d[..1]) + d[1..6] + (d[6..] + e[..3]) + e[3..]) == a + b + c + d + e
  {
  }

  lemma FullGroup64(x: seq<byte>)
    requires |x| == 3
    ensures CodeBits(Base64, ToDigits(Base64, OfOctets(Base64, x))) == DataBits(x)
  {
    hide OctetBits, DigitBits, CodeBits, DataBits, ToDigits, OfOctets;
    Cut64IsRight(x);
    var c := Cut64(x);
    assert c == [c[0], c[1], c[2], c[3]] && x == [x[0], x[1], x[2]];
    CodeBitsFour(Base64, c[0], c[1], c[2], c[3]);
    DataBitsThree(x[0], x[1], x[2]);
    Sextet0(x[0]);
    Sextet1(x[0], x[1]);
    Sextet2(x[1], x[2]);
    Sextet3(x[2]);
    Rejoin64(OctetBits(x[0]), OctetBits(x[1]), OctetBits(x[2]));
  }

  lemma HighHalf32(x0: byte, x1: byte, x2: byte)
    ensures var a, b, c := OctetBits(x0), OctetBits(x1), OctetBits(x2);
      CodeBits(Base32, [x0 >> 3, ((x0 & 7) << 2) | (x1 >> 6), (x1 & 0x3F) >> 1, ((x1 & 1) << 4) | (x2 >> 4)])
        == a[..5] + (a[5..] + b[..2]) + b[2..7] + (b[7..] + c[..4])
  {
    hide OctetBits, DigitBits, CodeBits;
    CodeBitsFour(Base32, x0 >> 3, ((x0 & 7) << 2) | (x1 >> 6), (x1 & 0x3F) >> 1, ((x1 & 1) << 4) | (x2 >> 4));
    Quintet0(x0);
    Quintet1(x0, x1);
    Quintet2(x1);
    Quintet3(x1, x2);
  }

  lemma LowHalf32(x2: byte, x3: byte, x4: byte)
    ensures var c, d, e := OctetBits(x2), OctetBits(x3), OctetBits(x4);
      CodeBits(Base32, [((x2 & 0xF) << 1) | (x3 >> 7), (x3 & 0x7F) >> 2, ((x3 & 3) << 3) | (x4 >> 5), x4 & 0x1F])
        == (c[4..] + d[..1]) + d[1..6] + (d[6..] + e[..3]) + e[3..]
  {
    hide OctetBits, DigitBits, CodeBits;
    CodeBitsFour(Base32, ((x2 & 0xF) << 1) | (x3 >> 7), (x3 & 0x7F) >> 2, ((x3 & 3) << 3) | (x4 >> 5), x4 & 0x1F);
    Quintet4(x2, x3);
    Quintet5(x3);
    Quintet6(x3, x4);
    Quintet7(x4);
  }

  lemma Eight32(h: seq<byte>, l: seq<byte>, a: seq<bool>, b: seq<bool>, c: seq<bool>, d: seq<bool>, e: seq<bool>)
    requires |a| == 8 && |b| == 8 && |c| == 8 && |d| == 8 && |e| == 8
    requires CodeBits(Base32, h) == a[..5] + (a[5..] + b[..2]) + b[2..7] + (b[7..] + c[..4])
    requires CodeBits(Base32, l) == (c[4..] + d[..1]) + d[1..6] + (d[6..] + e[..3]) + e[3..]
    ensures CodeBits(Base32, h + l) == a + b + c + d + e
  {
    hide CodeBits;
    CodeBitsConcat(Base32, h, l);
    Rejoin32(a, b, c, d, e);
  }

  lemma Cut32Halves(x: seq<byte>)
    requires |x| == 5
    ensures Cut32(x)
      == [x[0] >> 3, ((x[0] & 7) << 2) | (x[1] >> 6), (x[1] & 0x3F) >> 1, ((x[1] & 1) << 4) | (x[2] >> 4)]
       + [((x[2] & 0xF) << 1) | (x[3] >> 7), (x[3] & 0x7F) >> 2, ((x[3] & 3) << 3) | (x[4] >> 5), x[4] & 0x1F]
  {
  }

  lemma FullGroup32(x: seq<byte>)
    requires |x| == 5
    ensures CodeBits(Base32, ToDigits(Base32, OfOctets(Base32, x))) == DataBits(x)
  {
    hide OctetBits, DigitBits, CodeBits, DataBits, ToDigits, OfOctets, Cut32;
    Cut32IsRight(x);
    Cut32Halves(x);
    HighHalf32(x[0], x[1], x[2]);
    LowHalf32(x[2], x[3], x[4]);
    DataBitsFive(x[0], x[1], x[2], x[3], x[4]);
    assert x == [x[0], x[1], x[2], x[3], x[4]];
    Eight32(
      [x[0] >> 3, ((x[0] & 7) << 2) | (x[1] >> 6), (x[1] & 0x3F) >> 1, ((x[1] & 1) << 4) | (x[2] >> 4)],
      [((x[2] & 0xF) << 1) | (x[3] >> 7), (x[3] & 0x7F) >> 2, ((x[3] & 3) << 3) | (x[4] >> 5), x[4] & 0x1F],
      OctetBits(x[0]), OctetBits(x[1]), OctetBits(x[2]), OctetBits(x[3]), OctetBits(x[4]));
  }

  lemma PairOf(x0: byte)
    ensures ToDigits(Base16, x0 as bv40) == [x0 >> 4, x0 & 0xF]
  {
    Nibbles(x0);
    var n := x0 as bv40;
    var d := ToDigits(Base16, n);
    assert d[0] == Nibble(n >> 4) && d[1] == Nibble(n);
  }

  lemma PairBits(x0: byte, high: byte, low: byte)
    requires high == x0 >> 4 && low == x0 & 0xF
    ensures CodeBits(Base16, [high, low]) == OctetBits(x0)
  {
    hide OctetBits, DigitBits, CodeBits;
    Octet16(x0);
    CodeBitsOne(Base16, high);
    CodeBitsOne(Base16, low);
    CodeBitsConcat(Base16, [high], [low]);
    assert [high] + [low] == [high, low];
  }

  lemma FullGroup16(x: seq<byte>)
    requires |x| == 1
    ensures CodeBits(Base16, ToDigits(Base16, OfOctets(Base16, x))) == DataBits(x)
  {
    hide OctetBits, DigitBits, CodeBits, DataBits, ToDigits;
    PairOf(x[0]);
    PairBits(x[0], x[0] >> 4, x[0] & 0xF);
    DataBitsOne(x[0]);
    assert x == [x[0]];
  }

  /** A full group of octets and its digits are the same bits. */
  lemma FullGroup(base: Base, x: seq<byte>)
    requires |x| == Octets(base)
    ensures CodeBits(base, ToDigits(base, OfOctets(base, x))) == DataBits(x)
  {
    match base
    case Base64 => FullGroup64(x);
    case Base32 => FullGroup32(x);
    case Base16 => FullGroup16(x);
  }

  // ---- texts ----

  /** The codes of the letters a text begins with. */
  ghost function TextCodes(base: Base, t: seq<byte>): (c: seq<byte>)
    ensures |c| <= |t| && forall j :: 0 <= j < |c| ==> c[j] == Code(base, t[j]) && c[j] != INVALID
  {
    if t == [] || Code(base, t[0]) == INVALID then [] else [Code(base, t[0])] + TextCodes(base, t[1..])
  }

  ghost function TextBits(base: Base, t: seq<byte>): (bits: seq<bool>) {
    CodeBits(base, TextCodes(base, t))
  }

  lemma {:induction false} TextCodesFrom(base: Base, g: seq<byte>, t: seq<byte>)
    requires AllLetters(base, g)
    ensures TextCodes(base, g + t) == Codes(base, g) + TextCodes(base, t)
  {
    hide Code;
    if g == [] {
      assert g + t == t;
    } else {
      assert (g + t)[1..] == g[1..] + t;
      TextCodesFrom(base, g[1..], t);
      CodesStep(base, g);
      TextCodesStep(base, g + t);
      hide TextCodes, Codes;
      Assoc([Code(base, g[0])], Codes(base, g[1..]), TextCodes(base, t));
    }
  }

  lemma CodesStep(base: Base, t: seq<byte>)
    requires t != []
    ensures Codes(base, t) == [Code(base, t[0])] + Codes(base, t[1..])
  {
    hide Code;
  }

  lemma TextCodesStep(base: Base, t: seq<byte>)
    requires t != [] && Code(base, t[0]) != INVALID
    ensures TextCodes(base, t) == [Code(base, t[0])] + TextCodes(base, t[1..])
  {
    hide Code;
  }

  lemma PaddingIsNoLetter(base: Base, t: seq<byte>)
    requires AllPads(t)
    ensures TextCodes(base, t) == []
  {
    if t != [] {
      assert Code(base, t[0]) == INVALID;
    }
  }

  /** The letters of a legal group that holds `n` octets. */
  lemma GroupCodes(base: Base, g: seq<byte>, n: nat)
    requires |g| == Chars(base) && 1 <= n <= Octets(base) && LegalGroup(base, g, n)
    ensures TextCodes(base, g) == Codes(base, g[..Reach(base, n)]) == Read(base, g, n)[..Reach(base, n)]
  {
    hide Code;
    var k := Reach(base, n);
    assert g == g[..k] + g[k..];
    TextCodesFrom(base, g[..k], g[k..]);
    PaddingIsNoLetter(base, g[k..]);
    assert Codes(base, g[..k]) + [] == Codes(base, g[..k]);
  }

  /** A prefix of codes is a prefix of bits. */
  lemma CodeBitsPrefix(base: Base, c: seq<byte>, k: nat)
    requires k <= |c|
    ensures CodeBits(base, c[..k]) <= CodeBits(base, c)
  {
    assert c == c[..k] + c[k..];
    CodeBitsConcat(base, c[..k], c[k..]);
  }

  lemma DataBitsPrefix(x: seq<byte>, k: nat)
    requires k <= |x|
    ensures DataBits(x[..k]) <= DataBits(x)
  {
    assert x == x[..k] + x[k..];
    DataBitsConcat(x[..k], x[k..]);
  }

  lemma {:induction false} ZeroBits(x: seq<byte>)
    requires forall i :: 0 <= i < |x| ==> x[i] == 0
    ensures DataBits(x) == seq(8 * |x|, _ => false)
  {
    if x != [] {
      ZeroBits(x[1..]);
      assert OctetBits(0) == seq(8, _ => false);
    }
  }

  /** What letters reach beyond the octets is less than a letter, and less than an octet. */
  lemma ReachOfBits(base: Base, n: nat)
    requires 1 <= n <= Octets(base)
    ensures 8 * n <= Width(base) * Reach(base, n) < 8 * n + Width(base)
    ensures Width(base) * Chars(base) == 8 * Octets(base)
  {
  }

  /** The bits of a group of text and of the octets in it begin alike. */
  lemma GroupBits(base: Base, g: seq<byte>, n: nat)
    requires |g| == Chars(base) && 1 <= n <= Octets(base) && LegalGroup(base, g, n)
    ensures DataBits(DecodeGroup(base, g, n)[..n]) <= TextBits(base, g)
    ensures |TextBits(base, g)| == Width(base) * Reach(base, n)
    ensures TextBits(base, g) <= DataBits(DecodeGroup(base, g, n))
  {
    var c := Read(base, g, n);
    ReadIsSpelled(base, g, n);
    GroupCodes(base, g, n);
    DigitsAre(base, c);
    NumberOfOctets(base, OfDigits(base, c));
    hide LegalGroup, Read, OfDigits, ToOctets, OfOctets, ToDigits, DataBits, CodeBits, TextCodes;
    var x := DecodeGroup(base, g, n);
    FullGroup(base, x);
    CodeBitsPrefix(base, c, Reach(base, n));
    DataBitsPrefix(x, n);
    ReachOfBits(base, n);
  }

  /** The octets of a text begin with the same bits as its letters, and less than an octet is left over. */
  lemma {:induction false} DecodedBits(base: Base, t: seq<byte>)
    requires Decode(base, t).Ok?
    ensures var d := Decode(base, t).value;
      DataBits(d) <= TextBits(base, t) && |TextBits(base, t)| - 8 * |d| < Width(base)
    decreases |t|
  {
    if t != [] {
      WholeGroups(base, t);
      var g, rest := t[..Chars(base)], t[Chars(base)..];
      assert t == g + rest;
      DecodeStep(base, g, rest);
      var n := if rest == [] then Held(base, g) else Octets(base);
      var x := DecodeGroup(base, g, n)[..n];
      GroupBits(base, g, n);
      ReachOfBits(base, n);
      if rest == [] {
        assert t == g && x + [] == x;
      } else {
        DecodedBits(base, rest);
        DecodedStep(base, g, rest, x, DecodeGroups(base, rest).value);
      }
    }
  }

  lemma DecodedStep(base: Base, g: seq<byte>, rest: seq<byte>, x: seq<byte>, d: seq<byte>)
    requires |g| == Chars(base) && LegalGroup(base, g, Octets(base)) && |x| == Octets(base)
    requires DataBits(x) <= TextBits(base, g) && |TextBits(base, g)| == 8 * Octets(base)
    requires DataBits(d) <= TextBits(base, rest)
    ensures DataBits(x + d) <= TextBits(base, g + rest)
    ensures |TextBits(base, g + rest)| - 8 * |x + d| == |TextBits(base, rest)| - 8 * |d|
  {
    TextBitsConcat(base, g, rest);
    DataBitsConcat(x, d);
    assert DataBits(x) == TextBits(base, g);
  }

  lemma TextBitsConcat(base: Base, g: seq<byte>, rest: seq<byte>)
    requires |g| == Chars(base) && LegalGroup(base, g, Octets(base))
    ensures TextBits(base, g + rest) == TextBits(base, g) + TextBits(base, rest)
  {
    GroupCodes(base, g, Octets(base));
    assert g[..Reach(base, Octets(base))] == g;
    TextCodesFrom(base, g, rest);
    CodeBitsConcat(base, TextCodes(base, g), TextCodes(base, rest));
  }

  ghost function Zeros(z: nat): (bits: seq<bool>)
    ensures |bits| == z
  {
    seq(z, _ => false)
  }

  /** The bits of the last letter that `n` octets of a group do not fill. */
  ghost function Fill(base: Base, n: nat): (z: nat)
    requires 1 <= n <= Octets(base)
    ensures z == Width(base) * Reach(base, n) - 8 * n && z < Width(base) && (n == Octets(base) ==> z == 0)
  {
    ReachOfBits(base, n);
    Width(base) * Reach(base, n) - 8 * n
  }

  /** The bits of the letters of an encoding are the bits of the data, filled up with fewer zeros than a letter has. */
  lemma {:induction false} EncodedBits(base: Base, x: seq<byte>) returns (z: nat)
    ensures z < Width(base) && TextBits(base, Encode(base, x)) == DataBits(x) + Zeros(z)
  {
    hide Encode, EncodeGroup, TextBits, DataBits, Width, Reach;
    EncodeUnfolds(base, x);
    if x == [] {
      z := 0;
      NoBits(base);
    } else {
      var n := Taken(base, x);
      var g, rest := EncodeGroup(base, x[..n]), Encode(base, x[n..]);
      EncodedGroupBits(base, x[..n]);
      if x[n..] == [] {
        z := Fill(base, n);
        assert x[..n] == x && g + rest == g by { EncodeUnfolds(base, x[n..]); }
      } else {
        z := EncodedBits(base, x[n..]);
        GroupRoundTrip(base, x[..n]);
        TextBitsConcat(base, g, rest);
        DataBitsConcat(x[..n], x[n..]);
        assert x == x[..n] + x[n..];
        assert DataBits(x[..n]) + Zeros(0) == DataBits(x[..n]);
        assert DataBits(x[..n]) + DataBits(x[n..]) + Zeros(z) == DataBits(x[..n]) + (DataBits(x[n..]) + Zeros(z));
      }
    }
  }

  lemma NoBits(base: Base)
    ensures TextBits(base, []) == [] && DataBits([]) + Zeros(0) == []
  {
  }

  lemma EncodeUnfolds(base: Base, x: seq<byte>)
    ensures x == [] ==> Encode(base, x) == []
    ensures var n := Taken(base, x); x != [] ==> Encode(base, x) == EncodeGroup(base, x[..n]) + Encode(base, x[n..])
  {
    hide EncodeGroup;
  }

  lemma EncodedGroupBits(base: Base, x: seq<byte>)
    requires 1 <= |x| <= Octets(base)
    ensures TextBits(base, EncodeGroup(base, x)) == DataBits(x) + Zeros(Fill(base, |x|))
  {
    hide EncodeGroup, DecodeGroup, LegalGroup, TextBits, DataBits, Width, Reach;
    var n, g := |x|, EncodeGroup(base, x);
    GroupRoundTrip(base, x);
    GroupDecodesFull(base, x);
    GroupBits(base, g, n);
    var full := Filled(x, Octets(base));
    assert full == x + full[n..];
    DataBitsConcat(x, full[n..]);
    ZeroBits(full[n..]);
    PrefixOfFill(TextBits(base, g), DataBits(x), DataBits(full[n..]));
  }

  lemma PrefixOfFill(text: seq<bool>, data: seq<bool>, fill: seq<bool>)
    requires |data| <= |text| && text <= data + fill && fill == seq(|fill|, _ => false)
    ensures text == data + Zeros(|text| - |data|)
  {
    assert forall i :: 0 <= i < |text| ==> text[i] == (data + fill)[i];
  }

  lemma GroupDecodesFull(base: Base, x: seq<byte>)
    requires 1 <= |x| <= Octets(base)
    ensures DecodeGroup(base, EncodeGroup(base, x), |x|) == Filled(x, Octets(base))
  {
    var full := Filled(x, Octets(base));
    Unreached(base, full, |x|);
    OctetsAre(base, full);
    NumberOfDigits(base, OfOctets(base, full));
    SpelledIsRead(base, ToDigits(base, OfOctets(base, full)), |x|);
  }

  /** The text of an encoding, against the printed table: letter by letter its code spells the next bits
      of the data, zeros fill the last letter, and nothing but '=' follows. */
  lemma EncodedText(base: Base, x: seq<byte>) returns (z: nat)
    ensures var t := Encode(base, x); var c := TextCodes(base, t);
      && (forall j :: 0 <= j < |c| ==> InTable(base, t[j], c[j]))
      && (forall j :: |c| <= j < |t| ==> t[j] as int == '=' as int)
      && z < Width(base) && CodeBits(base, c) == DataBits(x) + Zeros(z)
      && |t| == EncodedSize(base, |x|)
  {
    hide Encode, CodeBits, DataBits, TextCodes, Char, EncodedSize;
    var t := Encode(base, x);
    var c := TextCodes(base, t);
    z := EncodedBits(base, x);
    EncodedLength(base, x);
    forall j | 0 <= j < |c| ensures InTable(base, t[j], c[j]) {
      CharIsInTable(base, c[j]);
    }
    EncodedPadding(base, x);
    CharIsInTable(base, 0);
  }

  ghost predicate InTable(base: Base, b: byte, code: byte) {
    code as int < |Table(base)| && b as int == Table(base)[code as int] as int
  }

  lemma EncodedPadding(base: Base, x: seq<byte>)
    ensures var t := Encode(base, x); AllPads(t[|TextCodes(base, t)|..])
  {
    hide Encode, Decode, Char, TextCodes;
    var t := Encode(base, x);
    RoundTrip(base, x);
    AcceptsExactly(base, t);
    var n :| 1 <= n <= Octets(base) && PaddedFor(base, t, n);
    var k := |t| - (Chars(base) - Reach(base, n));
    assert t == t[..k] + t[k..];
    TextCodesFrom(base, t[..k], t[k..]);
    PaddingIsNoLetter(base, t[k..]);
  }
}
