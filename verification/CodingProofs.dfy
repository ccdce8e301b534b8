/** What the codecs promise: round trips, exactly which texts are accepted, and when re-encoding returns the text. */
module CodingProofs {
  import opened CodingSpec

  // ---- one group ----

  /** The digits that `n` octets do not reach are zero, and so are the unused bits of the last one reached. */
  lemma Unreached(base: Base, x: seq<byte>, n: nat)
    requires |x| == Octets(base) && 1 <= n <= |x| && ZeroFrom(x, n)
    ensures var d := ToDigits(base, OfOctets(base, x)); var k := Reach(base, n);
      ZeroFrom(d, k) && (n < |x| ==> d[k - 1] & Unused(base, n) == 0)
  {
    match base
    case Base64 => Unreached64(x[0], x[1], x[2]);
    case Base32 => Unreached32(x[0], x[1], x[2], x[3], x[4]);
    case Base16 =>
  }

  lemma Unreached64(x0: byte, x1: byte, x2: byte)
    ensures var n := Three(x0, x1, x2);
      && (x2 == 0 ==> Sextet(n) == 0 && Sextet(n >> 6) & 3 == 0)
      && (x1 == 0 && x2 == 0 ==> Sextet(n >> 6) == 0 && Sextet(n >> 12) & 0xF == 0)
  {
  }

  lemma Unreached32(x0: byte, x1: byte, x2: byte, x3: byte, x4: byte)
    ensures var n := Five(x0, x1, x2, x3, x4);
      && (x4 == 0 ==> Quintet(n) == 0 && Quintet(n >> 5) & 7 == 0)
      && (x3 == 0 && x4 == 0 ==> Quintet(n >> 5) == 0 && Quintet(n >> 10) == 0 && Quintet(n >> 15) & 1 == 0)
      && (x2 == 0 && x3 == 0 && x4 == 0 ==> Quintet(n >> 15) == 0 && Quintet(n >> 20) & 0xF == 0)
      && (x1 == 0 && x2 == 0 && x3 == 0 && x4 == 0 ==>
        Quintet(n >> 20) == 0 && Quintet(n >> 25) == 0 && Quintet(n >> 30) & 3 == 0)
  {
  }

  /** Only zero bits in the unused part of the last digit leave the octets beyond it zero. */
  lemma Leftover(base: Base, c: seq<byte>, n: nat)
    requires |c| == Chars(base) && Digits(base, c) && 1 <= n < Octets(base)
    requires ZeroFrom(c, Reach(base, n))
    ensures var x := ToOctets(base, OfDigits(base, c));
      ZeroFrom(x, n + 1) && (x[n] == 0 <==> c[Reach(base, n) - 1] & Unused(base, n) == 0)
  {
    match base
    case Base64 => Leftover64(c[0], c[1], c[2]);
    case Base32 => Leftover32(c[0], c[1], c[2], c[3], c[4], c[5], c[6]);
    case Base16 =>
  }

  lemma Leftover64(c0: byte, c1: byte, c2: byte)
    requires c0 < 64 && c1 < 64 && c2 < 64
    ensures var n := Four(c0, c1, c2, 0);
      && (Octet(n) == 0 <==> c2 & 3 == 0)
      && (c2 == 0 ==> Octet(n) == 0 && (Octet(n >> 8) == 0 <==> c1 & 0xF == 0))
  {
  }

  lemma Leftover32(c0: byte, c1: byte, c2: byte, c3: byte, c4: byte, c5: byte, c6: byte)
    requires c0 < 32 && c1 < 32 && c2 < 32 && c3 < 32 && c4 < 32 && c5 < 32 && c6 < 32
    ensures var n := Eight(c0, c1, c2, c3, c4, c5, c6, 0);
      && (Octet(n) == 0 <==> c6 & 7 == 0)
      && (c6 == 0 && c5 == 0 ==> Octet(n) == 0 && (Octet(n >> 8) == 0 <==> c4 & 1 == 0))
      && (c6 == 0 && c5 == 0 && c4 == 0 ==> Octet(n >> 8) == 0 && (Octet(n >> 16) == 0 <==> c3 & 0xF == 0))
      && (c6 == 0 && c5 == 0 && c4 == 0 && c3 == 0 && c2 == 0 ==>
        Octet(n >> 16) == 0 && (Octet(n >> 24) == 0 <==> c1 & 3 == 0))
  {
  }

  /** The letters of a legal group decide how many octets it holds. */
  lemma HeldIs(base: Base, t: seq<byte>, n: nat)
    requires |t| == Chars(base) && 1 <= n <= Octets(base) && LegalGroup(base, t, n)
    ensures Held(base, t) == n
  {
    var k := Reach(base, n);
    assert forall i :: 0 <= i < k ==> t[i] == t[..k][i] && t[i] != PADDING;
    assert forall i :: k <= i < |t| ==> t[i] == t[k..][i - k];
  }

  ghost predicate ZeroFrom(x: seq<byte>, k: nat) {
    forall i :: k <= i < |x| ==> x[i] == 0
  }

  lemma SpelledIsRead(base: Base, d: seq<byte>, n: nat)
    requires |d| == Chars(base) && Digits(base, d) && 1 <= n <= Octets(base) && ZeroFrom(d, Reach(base, n))
    ensures LegalGroup(base, Spelled(base, d, n), n) && Read(base, Spelled(base, d, n), n) == d
  {
    var t, k := Spelled(base, d, n), Reach(base, n);
    assert t[..k] == Letters(base, d[..k]) && t[k..] == Pads(Chars(base) - k);
  }

  lemma ReadIsSpelled(base: Base, t: seq<byte>, n: nat)
    requires |t| == Chars(base) && 1 <= n <= Octets(base) && LegalGroup(base, t, n)
    ensures Digits(base, Read(base, t, n)) && ZeroFrom(Read(base, t, n), Reach(base, n))
    ensures Spelled(base, Read(base, t, n), n) == t
    ensures Read(base, t, n)[Reach(base, n) - 1] == Code(base, t[Reach(base, n) - 1])
  {
    var d, k := Read(base, t, n), Reach(base, n);
    assert Letters(base, d[..k]) == t[..k];
    assert Pads(Chars(base) - k) == t[k..];
    assert t[k - 1] == t[..k][k - 1];
  }

  lemma GroupRoundTrip(base: Base, x: seq<byte>)
    requires 1 <= |x| <= Octets(base)
    ensures LegalGroup(base, EncodeGroup(base, x), |x|) && DecodeGroup(base, EncodeGroup(base, x), |x|)[..|x|] == x
  {
    var full := Filled(x, Octets(base));
    Unreached(base, full, |x|);
    OctetsAre(base, full);
    NumberOfDigits(base, OfOctets(base, full));
    SpelledIsRead(base, ToDigits(base, OfOctets(base, full)), |x|);
    assert full[..|x|] == x;
  }

  /** What follows the data of a group is zero exactly if the unused bits of the group are. */
  lemma GroupLeftover(base: Base, t: seq<byte>, n: nat)
    requires |t| == Chars(base) && 1 <= n < Octets(base) && LegalGroup(base, t, n)
    ensures var x := DecodeGroup(base, t, n);
      && ZeroFrom(x, n + 1)
      && (x[n] == 0 <==> Code(base, t[Reach(base, n) - 1]) & Unused(base, n) == 0)
  {
    ReadIsSpelled(base, t, n);
    Leftover(base, Read(base, t, n), n);
  }

  lemma GroupReturns(base: Base, t: seq<byte>, n: nat)
    requires |t| == Chars(base) && 1 <= n <= Octets(base) && LegalGroup(base, t, n)
    requires ZeroFrom(DecodeGroup(base, t, n), n)
    ensures EncodeGroup(base, DecodeGroup(base, t, n)[..n]) == t
  {
    var d := Read(base, t, n);
    ReadIsSpelled(base, t, n);
    DigitsAre(base, d);
    NumberOfOctets(base, OfDigits(base, d));
    Refilled(ToOctets(base, OfDigits(base, d)), n);
  }

  /** Encoding what a group holds returns the group exactly if its unused bits are zero. */
  lemma GroupReencodes(base: Base, t: seq<byte>, n: nat)
    requires |t| == Chars(base) && 1 <= n <= Octets(base) && LegalGroup(base, t, n)
    ensures EncodeGroup(base, DecodeGroup(base, t, n)[..n]) == t <==> CanonicalGroup(base, t, n)
  {
    var x := DecodeGroup(base, t, n);
    NothingLeft(base, t, n);
    LeavesCanonical(base, x[..n]);
    hide LegalGroup, EncodeGroup, DecodeGroup, CanonicalGroup, ZeroFrom;
    if ZeroFrom(x, n) { GroupReturns(base, t, n); }
  }

  lemma NothingLeft(base: Base, t: seq<byte>, n: nat)
    requires |t| == Chars(base) && 1 <= n <= Octets(base) && LegalGroup(base, t, n)
    ensures ZeroFrom(DecodeGroup(base, t, n), n) <==> CanonicalGroup(base, t, n)
  {
    hide LegalGroup, DecodeGroup, Code, Unused;
    if n < Octets(base) { GroupLeftover(base, t, n); }
  }

  lemma LeavesCanonical(base: Base, x: seq<byte>)
    requires 1 <= |x| <= Octets(base)
    ensures CanonicalGroup(base, EncodeGroup(base, x), |x|)
  {
    hide EncodeGroup, Code, Unused;
    if |x| < Octets(base) { LeavesNothing(base, x); }
  }

  lemma Refilled(x: seq<byte>, n: nat)
    requires n <= |x|
    ensures ZeroFrom(x, n) ==> Filled(x[..n], |x|) == x
  {
  }

  lemma LeavesNothing(base: Base, x: seq<byte>)
    requires 1 <= |x| < Octets(base)
    ensures Code(base, EncodeGroup(base, x)[Reach(base, |x|) - 1]) & Unused(base, |x|) == 0
  {
    var full := Filled(x, Octets(base));
    Unreached(base, full, |x|);
    SpelledIsRead(base, ToDigits(base, OfOctets(base, full)), |x|);
    ReadIsSpelled(base, EncodeGroup(base, x), |x|);
  }

  // ---- whole texts ----

  ghost function EncodedSize(base: Base, n: nat): nat {
    match base case Base64 => (n + 2) / 3 * 4 case Base32 => (n + 4) / 5 * 8 case Base16 => 2 * n
  }

  lemma {:induction false} EncodedLength(base: Base, x: seq<byte>)
    ensures |Encode(base, x)| == EncodedSize(base, |x|)
  {
    hide EncodedSize, Octets, Chars, EncodeGroup;
    OneGroup(base, |x|);
    if x != [] {
      EncodedLength(base, x[Taken(base, x)..]);
      if |x| >= Octets(base) { OneGroupMore(base, |x|); }
    }
  }

  lemma OneGroup(base: Base, n: nat)
    ensures n == 0 ==> EncodedSize(base, n) == 0
    ensures 1 <= n <= Octets(base) ==> EncodedSize(base, n) == Chars(base) && EncodedSize(base, 0) == 0
  {
  }

  lemma OneGroupMore(base: Base, n: nat)
    requires n >= Octets(base)
    ensures EncodedSize(base, n) == EncodedSize(base, n - Octets(base)) + Chars(base)
  {
    match base
    case Base64 => assert (n + 2) / 3 == (n - 3 + 2) / 3 + 1;
    case Base32 => assert (n + 4) / 5 == (n - 5 + 4) / 5 + 1;
    case Base16 =>
  }

  lemma WholeConcat(base: Base, g: seq<byte>, t: seq<byte>)
    requires |g| == Chars(base) && Whole(base, t)
    ensures Whole(base, g + t)
  {
    match base
    case Base64 => OneMoreGroup(|t|, 4);
    case Base32 => OneMoreGroup(|t|, 8);
    case Base16 => OneMoreGroup(|t|, 2);
  }

  lemma OneMoreGroup(n: nat, size: nat)
    requires size == 2 || size == 4 || size == 8
    ensures (size + n) % size == n % size
  {
  }

  lemma WholeIs(base: Base, t: seq<byte>)
    ensures Whole(base, t) <==> |t| == Chars(base) * (|t| / Chars(base))
    ensures Whole(base, t[|t|..])
  {
  }

  /** Decoding a group and what follows it. */
  lemma DecodeStep(base: Base, g: seq<byte>, t: seq<byte>)
    requires |g| == Chars(base) && Whole(base, t)
    ensures Whole(base, g + t)
    ensures DecodeGroups(base, g + t) == DecodeOne(base, g, t == [], DecodeGroups(base, t))
  {
    hide DecodeOne, Whole;
    WholeConcat(base, g, t);
    assert (g + t)[..Chars(base)] == g && (g + t)[Chars(base)..] == t;
  }

  lemma EncodeOne(base: Base, x: seq<byte>)
    requires x != []
    ensures var n := Taken(base, x);
      DecodeOne(base, EncodeGroup(base, x[..n]), x[n..] == [], Ok(x[n..])) == Ok(x)
  {
    var n := Taken(base, x);
    var g := EncodeGroup(base, x[..n]);
    GroupRoundTrip(base, x[..n]);
    HeldIs(base, g, n);
    assert x == x[..n] + x[n..];
  }

  /** Every byte string is what its encoding decodes to. */
  lemma {:induction false} RoundTrip(base: Base, x: seq<byte>)
    ensures Decode(base, Encode(base, x)) == Ok(x)
  {
    if x != [] {
      var n := Taken(base, x);
      RoundTrip(base, x[n..]);
      DecodeStep(base, EncodeGroup(base, x[..n]), Encode(base, x[n..]));
      EncodeOne(base, x);
    }
  }

  lemma LettersOf(base: Base, a: seq<byte>, b: seq<byte>)
    ensures AllLetters(base, a + b) <==> AllLetters(base, a) && AllLetters(base, b)
  {
    assert forall i :: 0 <= i < |a| ==> a[i] == (a + b)[i];
    assert forall i :: 0 <= i < |b| ==> b[i] == (a + b)[|a| + i];
  }

  lemma PaddedStep(base: Base, g: seq<byte>, t: seq<byte>, n: nat)
    requires |g| == Chars(base) && Whole(base, t) && t != [] && 1 <= n <= Octets(base)
    ensures PaddedFor(base, g + t, n) <==> LegalGroup(base, g, Octets(base)) && PaddedFor(base, t, n)
  {
    WholeGroups(base, t);
    var p := Chars(base) - Reach(base, n);
    assert (g + t)[|g + t| - p..] == t[|t| - p..];
    assert (g + t)[..|g + t| - p] == g + t[..|t| - p];
    LettersOf(base, g, t[..|t| - p]);
    assert g[..Reach(base, Octets(base))] == g;
  }

  lemma LegalLast(base: Base, g: seq<byte>)
    requires |g| == Chars(base)
    ensures Legal(base, g) <==> LegalGroup(base, g, Held(base, g))
  {
    forall n | 1 <= n <= Octets(base) ensures PaddedFor(base, g, n) <==> LegalGroup(base, g, n) {
    }
    if Legal(base, g) {
      var n :| 1 <= n <= Octets(base) && PaddedFor(base, g, n);
      HeldIs(base, g, n);
    }
  }

  /** Decoding succeeds on whole groups of letters with a legal padding at the end, and on nothing else. */
  lemma {:induction false} AcceptsExactly(base: Base, t: seq<byte>)
    ensures Decode(base, t).Ok? <==> Legal(base, t)
    ensures Decode(base, t).Err? ==> Decode(base, t).error == (if Whole(base, t) then InvalidByte else InvalidLength)
    decreases |t|
  {
    hide DecodeGroup;
    if t == [] {
      assert PaddedFor(base, t, Octets(base));
    } else if Whole(base, t) {
      WholeGroups(base, t);
      var g, rest := t[..Chars(base)], t[Chars(base)..];
      assert t == g + rest;
      DecodeStep(base, g, rest);
      AcceptsExactly(base, rest);
      if rest == [] {
        assert t == g;
        LegalLast(base, g);
      } else {
        forall n | 1 <= n <= Octets(base)
          ensures PaddedFor(base, t, n) <==> LegalGroup(base, g, Octets(base)) && PaddedFor(base, rest, n)
        {
          PaddedStep(base, g, rest, n);
        }
      }
    }
  }

  /** How much padding a legal text may end in. */
  lemma LegalPaddings(base: Base, t: seq<byte>)
    ensures Legal(base, t) <==> Whole(base, t) && exists p :: p in Paddings(base) && PaddedBy(base, t, p)
  {
    hide Paddings, PaddedFor, PaddedBy, Whole, Reach;
    forall n | 1 <= n <= Octets(base) && PaddedFor(base, t, n)
      ensures exists p :: p in Paddings(base) && PaddedBy(base, t, p)
    {
      PaddingBeside(base, t, n);
    }
    forall p | p in Paddings(base) && PaddedBy(base, t, p)
      ensures exists n :: 1 <= n <= Octets(base) && PaddedFor(base, t, n)
    {
      PaddingBeside(base, t, HeldBeside(base, p));
    }
  }

  lemma PaddingBeside(base: Base, t: seq<byte>, n: nat)
    requires 1 <= n <= Octets(base)
    ensures Chars(base) - Reach(base, n) in Paddings(base)
    ensures PaddedFor(base, t, n) <==> PaddedBy(base, t, Chars(base) - Reach(base, n))
  {
    hide AllLetters, AllPads;
  }

  ghost function HeldBeside(base: Base, p: int): (n: nat)
    requires p in Paddings(base)
    ensures 1 <= n <= Octets(base) && Chars(base) - Reach(base, n) == p
  {
    match base
    case Base64 => 3 - p
    case Base32 => if p == 0 then 5 else if p == 1 then 4 else if p == 3 then 3 else if p == 4 then 2 else 1
    case Base16 => 1
  }

  ghost function Paddings(base: Base): set<int> {
    match base case Base64 => {0, 1, 2} case Base32 => {0, 1, 3, 4, 6} case Base16 => {0}
  }

  ghost predicate PaddedBy(base: Base, t: seq<byte>, p: int) {
    0 <= p <= |t| && AllLetters(base, t[..|t| - p]) && AllPads(t[|t| - p..])
  }

  /** An accepted text is returned by encoding what it decodes to exactly if its unused trailing bits are zero. */
  lemma {:induction false} ReencodesIfCanonical(base: Base, t: seq<byte>)
    requires Decode(base, t).Ok?
    ensures Encode(base, Decode(base, t).value) == t <==> Canonical(base, t)
    decreases |t|
  {
    if t != [] {
      WholeGroups(base, t);
      var g, rest := t[..Chars(base)], t[Chars(base)..];
      assert t == g + rest;
      DecodeStep(base, g, rest);
      var n := if rest == [] then Held(base, g) else Octets(base);
      ReencodesStep(base, g, n, DecodeGroups(base, rest).value, rest);
      if rest == [] {
        assert t[|t| - Chars(base)..] == g;
      } else {
        WholeGroups(base, rest);
        ReencodesIfCanonical(base, rest);
        assert t[|t| - Chars(base)..] == rest[|rest| - Chars(base)..];
      }
    }
  }

  /** The encoder leaves no unused bit set. */
  lemma EncodingIsCanonical(base: Base, x: seq<byte>)
    ensures Canonical(base, Encode(base, x))
  {
    RoundTrip(base, x);
    ReencodesIfCanonical(base, Encode(base, x));
  }

  /** A buffer into which an encoding was decoded holds the data, and a NUL right after it. */
  lemma RoundTripInBuffer(base: Base, x: seq<byte>, buffer: seq<byte>)
    requires Decode(base, Encode(base, x)).Ok? && Buffered(base, buffer, Encode(base, x))
    ensures |x| < |buffer| && buffer[..|x|] == x && buffer[|x|] == 0
  {
    hide Encode, Decode, Canonical;
    RoundTrip(base, x);
    EncodingIsCanonical(base, x);
  }

  /** "QR==" decodes to "A", whose encoding is "QQ==". */
  lemma AcceptedButNotReturned()
    ensures var t: seq<byte> := [81, 82, PADDING, PADDING];
      Decode(Base64, t) == Ok([65]) && !Canonical(Base64, t) && Encode(Base64, [65]) != t
  {
    var t: seq<byte> := [81, 82, PADDING, PADDING];
    var none: seq<byte> := [];
    assert Code64(81) == 16 && Code64(82) == 17;
    assert t == t + none && t[0..] == t;
    DecodeStep(Base64, t, none);
    QrGroup(t);
    assert DecodeGroup(Base64, t, 1)[..1] + none == [65];
    ReencodesIfCanonical(Base64, t);
  }

  lemma QrGroup(t: seq<byte>)
    requires t == [81, 82, PADDING, PADDING]
    ensures Held(Base64, t) == 1 && LegalGroup(Base64, t, 1) && DecodeGroup(Base64, t, 1)[..1] == [65]
    ensures !CanonicalGroup(Base64, t, 1)
  {
    var d := Read(Base64, t, 1);
    assert d == [16, 17, 0, 0];
    var n := Four(16, 17, 0, 0);
    assert Octet(n >> 16) == 65;
    assert DecodeGroup(Base64, t, 1)[0] == 65;
    assert Code(Base64, t[1]) == 17 && (17 as byte) & 0xF == 1;
  }

  lemma ReencodesStep(base: Base, g: seq<byte>, n: nat, y: seq<byte>, rest: seq<byte>)
    requires |g| == Chars(base) && 1 <= n <= Octets(base) && LegalGroup(base, g, n)
    requires y != [] ==> n == Octets(base)
    ensures Encode(base, DecodeGroup(base, g, n)[..n] + y) == g + rest <==>
      CanonicalGroup(base, g, n) && Encode(base, y) == rest
  {
    var x := DecodeGroup(base, g, n)[..n];
    EncodeStep(base, x, y);
    GroupReencodes(base, g, n);
    SameFront(EncodeGroup(base, x), Encode(base, y), g, rest);
  }

  lemma EncodeStep(base: Base, x: seq<byte>, y: seq<byte>)
    requires 1 <= |x| <= Octets(base) && (y != [] ==> |x| == Octets(base))
    ensures Encode(base, x + y) == EncodeGroup(base, x) + Encode(base, y)
  {
    var n := Taken(base, x + y);
    assert (x + y)[..n] == x && (x + y)[n..] == y;
  }

  lemma SameFront(a: seq<byte>, b: seq<byte>, c: seq<byte>, d: seq<byte>)
    requires |a| == |c|
    ensures a + b == c + d <==> a == c && b == d
  {
    if a + b == c + d {
      assert a == (a + b)[..|a|] && c == (c + d)[..|a|];
      assert b == (a + b)[|a|..] && d == (c + d)[|a|..];
    }
  }

  // ---- steps of the methods ----

  /** Decoding the rest of a text, of which the group at `i` comes next. */
  lemma DecodeNext(base: Base, t: seq<byte>, i: nat, done: seq<byte>)
    requires Whole(base, t) && i + Chars(base) <= |t| && Whole(base, t[i..])
    requires Decode(base, t) == Join(done, DecodeGroups(base, t[i..]))
    ensures var g, rest := t[i..i + Chars(base)], t[i + Chars(base)..];
      var n := if rest == [] then Held(base, g) else Octets(base);
      && Whole(base, rest)
      && (LegalGroup(base, g, n) ==>
        Decode(base, t) == Join(done + DecodeGroup(base, g, n)[..n], DecodeGroups(base, rest)))
      && (!LegalGroup(base, g, n) ==> Decode(base, t) == Err(InvalidByte))
  {
    hide LegalGroup, DecodeGroup, Held;
    var g, rest := t[i..i + Chars(base)], t[i + Chars(base)..];
    WholeGroups(base, t[i..]);
    assert t[i..][Chars(base)..] == rest;
    assert t[i..] == g + rest;
    DecodeStep(base, g, rest);
    var n := if rest == [] then Held(base, g) else Octets(base);
    JoinJoin(done, DecodeGroup(base, g, n)[..n], DecodeGroups(base, rest));
  }

  lemma JoinJoin(a: seq<byte>, b: seq<byte>, r: Result<seq<byte>>)
    ensures Join(a, Join(b, r)) == Join(a + b, r)
  {
    if r.Ok? { assert a + (b + r.value) == a + b + r.value; }
  }

  lemma EncodeNext(base: Base, x: seq<byte>, i: nat, n: nat, done: seq<byte>)
    requires 1 <= n <= Octets(base) && i + n <= |x| && (n < Octets(base) ==> i + n == |x|)
    requires Encode(base, x) == done + Encode(base, x[i..])
    ensures Encode(base, x) == done + EncodeGroup(base, x[i..i + n]) + Encode(base, x[i + n..])
  {
    hide EncodeGroup;
    assert x[i..] == x[i..i + n] + x[i + n..];
    EncodeStep(base, x[i..i + n], x[i + n..]);
  }

  /** The letters of a group are those of its digits. */
  lemma LettersAre(base: Base, x: seq<byte>, full: seq<byte>, d: seq<byte>)
    requires 1 <= |x| <= Octets(base) && full == Filled(x, Octets(base))
    requires d == ToDigits(base, OfOctets(base, full))
    ensures forall k :: 0 <= k < Reach(base, |x|) ==> EncodeGroup(base, x)[k] == Char(base, d[k])
    ensures forall k :: Reach(base, |x|) <= k < Chars(base) ==> EncodeGroup(base, x)[k] == PADDING
  {
    hide Char, ToDigits, OfOctets;
  }

  lemma GroupIs(base: Base, g: seq<byte>, n: nat)
    requires |g| == Chars(base) && 1 <= n <= Octets(base)
    ensures LegalGroup(base, g, n) <==>
      && (forall k :: 0 <= k < Reach(base, n) ==> Code(base, g[k]) != INVALID)
      && (forall k :: Reach(base, n) <= k < |g| ==> g[k] == PADDING)
    ensures forall k :: 0 <= k < |g| ==> Read(base, g, n)[k] == if k < Reach(base, n) then Code(base, g[k]) else 0
  {
    hide Code;
    var k := Reach(base, n);
    assert forall i :: 0 <= i < k ==> g[..k][i] == g[i];
    assert forall i :: k <= i < |g| ==> g[i] == g[k..][i - k];
  }

  lemma EncodeFirst(base: Base, x: seq<byte>, none: seq<byte>)
    requires none == []
    ensures Encode(base, x) == none + Encode(base, x[0..]) && Encode(base, x[|x|..]) == []
  {
    assert x[0..] == x;
  }

  lemma DecodeFirst(base: Base, t: seq<byte>, none: seq<byte>)
    requires Whole(base, t) && none == []
    ensures Decode(base, t) == Join(none, DecodeGroups(base, t[0..]))
  {
    assert t[0..] == t;
    if DecodeGroups(base, t).Ok? { assert none + DecodeGroups(base, t).value == DecodeGroups(base, t).value; }
  }

  /** The buffer once the last group, at `i`, is in place after `j` bytes. */
  lemma LastIsBuffered(base: Base, t: seq<byte>, i: nat, buffer: seq<byte>, j: nat)
    requires Whole(base, t) && i + Chars(base) == |t| && |buffer| == j + Octets(base) + 1
    requires |t| / Chars(base) * Octets(base) == j + Octets(base)
    requires Whole(base, t[i..]) && Decode(base, t) == Join(buffer[..j], DecodeGroups(base, t[i..]))
    requires var g := t[i..]; LegalGroup(base, g, Held(base, g)) && Ended(base, buffer[j..], g, Held(base, g))
    ensures Decode(base, t).Ok? && Buffered(base, buffer, t)
  {
    hide LegalGroup, DecodeGroup, Held, CanonicalGroup, Decode;
    var g := t[i..];
    var n := Held(base, g);
    assert g == t[i..i + Chars(base)];
    DecodeNext(base, t, i, buffer[..j]);
    var d := Decode(base, t).value;
    assert d == buffer[..j] + buffer[j..][..n];
    assert d == buffer[..j + n];
    if n < Octets(base) {
      LeftoverIs(base, g, n);
      assert buffer[j + n] == buffer[j..][n] && buffer[j + n + 1] == buffer[j..][n + 1];
    } else {
      WholeGroupIsCanonical(base, g);
    }
  }

  lemma NothingIsBuffered(base: Base, t: seq<byte>, buffer: seq<byte>)
    requires t == [] && buffer == [0]
    ensures Decode(base, t).Ok? && Buffered(base, buffer, t)
  {
  }

  lemma LeftoverIs(base: Base, g: seq<byte>, n: nat)
    requires |g| == Chars(base) && 1 <= n < Octets(base) && LegalGroup(base, g, n)
    ensures DecodeGroup(base, g, n)[n] == 0 <==> CanonicalGroup(base, g, n)
  {
    GroupLeftover(base, g, n);
  }

  lemma WholeGroupIsCanonical(base: Base, g: seq<byte>)
    requires |g| == Chars(base)
    ensures CanonicalGroup(base, g, Octets(base))
  {
  }

  /** The data of a last group, what is left over and the NUL after it, and the NUL at the end. */
  ghost predicate Ended(base: Base, r: seq<byte>, g: seq<byte>, n: nat)
    requires |g| == Chars(base) && 1 <= n <= Octets(base)
  {
    var x := DecodeGroup(base, g, n);
    && |r| == |x| + 1 && r[..n] == x[..n] && r[|x|] == 0
    && (n < |x| ==> r[n] == x[n] && r[n + 1] == 0)
  }
}
