/** The six functions of base_coding.c.

    `memory` says whether the allocator grants the buffer; bytes of it that are never written hold
    anything. A text or byte string comes as a pointer, which may be null, and a length.
 */
module BaseCoding {
  import opened Options
  import opened CodingSpec
  import opened CodingProofs

  /** Nothing but padding from `p` on. */
  method PaddedFrom(g: seq<byte>, p: nat) returns (ok: bool)
    requires p <= |g|
    ensures ok <==> forall k :: p <= k < |g| ==> g[k] == PADDING
  {
    var i := p;
    while i < |g|
      invariant p <= i <= |g| && forall k :: p <= k < i ==> g[k] == PADDING
    {
      if g[i] != PADDING {
        return false;
      }
      i := i + 1;
    }
    ok := true;
  }

  method Store(t: seq<byte>, out: array<byte>, j: nat)
    requires j + |t| <= out.Length
    modifies out
    ensures out[..j + |t|] == old(out[..j]) + t
    ensures out[j + |t|..] == old(out[j + |t|..])
  {
    for k := 0 to |t|
      invariant forall i :: 0 <= i < j ==> out[i] == old(out[i])
      invariant forall i :: 0 <= i < k ==> out[j + i] == t[i]
      invariant forall i :: j + |t| <= i < out.Length ==> out[i] == old(out[i])
    {
      out[j + k] := t[k];
    }
  }

  // ---- base64 ----

  /** The codes of three octets, by the shifts of the source. */
  ghost function Cut64(x: seq<byte>): (c: seq<byte>)
    requires |x| == 3
    ensures |c| == 4
  {
    [x[0] >> 2, ((x[0] & 3) << 4) | (x[1] >> 4), ((x[1] & 0xF) << 2) | (x[2] >> 6), x[2] & 0x3F]
  }

  lemma Shifts64(x0: byte, x1: byte, x2: byte)
    ensures var n := Three(x0, x1, x2);
      && Sextet(n >> 18) == x0 >> 2 && Sextet(n >> 12) == ((x0 & 3) << 4) | (x1 >> 4)
      && Sextet(n >> 6) == ((x1 & 0xF) << 2) | (x2 >> 6) && Sextet(n) == x2 & 0x3F
  {
  }

  lemma Cut64IsRight(x: seq<byte>)
    requires |x| == 3
    ensures ToDigits(Base64, OfOctets(Base64, x)) == Cut64(x)
  {
    Shifts64(x[0], x[1], x[2]);
  }

  lemma NothingBelow64(x0: byte, x1: byte, x2: byte)
    ensures x1 == 0 ==> ((x0 & 3) << 4) | (x1 >> 4) == (x0 & 3) << 4
    ensures x2 == 0 ==> ((x1 & 0xF) << 2) | (x2 >> 6) == (x1 & 0xF) << 2
  {
  }

  /** The codes of a group, where octets that are not there leave no bits. */
  ghost predicate Codes64(x: seq<byte>, c: seq<byte>) {
    && 1 <= |x| <= 3 && |c| == 4
    && c[0] == x[0] >> 2
    && c[1] == (if |x| == 1 then (x[0] & 3) << 4 else ((x[0] & 3) << 4) | (x[1] >> 4))
    && (|x| > 1 ==> c[2] == if |x| == 2 then (x[1] & 0xF) << 2 else ((x[1] & 0xF) << 2) | (x[2] >> 6))
    && (|x| > 2 ==> c[3] == x[2] & 0x3F)
  }

  lemma CutIsCodes64(x: seq<byte>)
    requires 1 <= |x| <= 3
    ensures Codes64(x, Cut64(Filled(x, 3)))
  {
    var f := Filled(x, 3);
    NothingBelow64(f[0], f[1], f[2]);
  }

  lemma Letters64(x: seq<byte>) returns (c: seq<byte>)
    requires 1 <= |x| <= 3
    ensures Codes64(x, c)
    ensures forall k :: 0 <= k < |x| + 1 ==> c[k] < 64 && EncodeGroup(Base64, x)[k] == Char64(c[k])
    ensures forall k :: |x| + 1 <= k < 4 ==> EncodeGroup(Base64, x)[k] == PADDING
  {
    hide Char64, EncodeGroup, ToDigits, OfOctets;
    c := Cut64(Filled(x, 3));
    CutIsCodes64(x);
    Cut64IsRight(Filled(x, 3));
    LettersAre(Base64, x, Filled(x, 3), c);
  }

  /** The characters of a group: the loop body for three octets, a tail for one or two. */
  method Spell64(x: seq<byte>) returns (t: seq<byte>)
    requires 1 <= |x| <= 3
    ensures t == EncodeGroup(Base64, x)
  {
    hide Char64, EncodeGroup;
    ghost var c := Letters64(x);
    if |x| == 3 {
      t := [Char64(x[0] >> 2), Char64(((x[0] & 3) << 4) | (x[1] >> 4)),
            Char64(((x[1] & 0xF) << 2) | (x[2] >> 6)), Char64(x[2] & 0x3F)];
    } else if |x| == 1 {
      t := [Char64(x[0] >> 2), Char64((x[0] & 3) << 4), PADDING, PADDING];
    } else {
      t := [Char64(x[0] >> 2), Char64(((x[0] & 3) << 4) | (x[1] >> 4)),
            Char64((x[1] & 0xF) << 2), PADDING];
    }
  }

  /** One more group of the encoding of `x` is in place. */
  method Append64(src: array<byte>, ghost x: seq<byte>, i: nat, n: nat, out: array<byte>, j: nat)
    requires 1 <= n <= 3 && i + n <= |x| && (n < 3 ==> i + n == |x|) && j + 4 <= out.Length && src != out
    requires |x| <= src.Length && x == src[..|x|]
    requires Encode(Base64, x) == out[..j] + Encode(Base64, x[i..])
    modifies out
    ensures Encode(Base64, x) == out[..j + 4] + Encode(Base64, x[i + n..])
  {
    hide EncodeGroup, Encode;
    assert x[i..i + n] == src[i..i + n];
    EncodeNext(Base64, x, i, n, out[..j]);
    var t := Spell64(src[i..i + n]);
    Store(t, out, j);
  }

  lemma Length64(x: seq<byte>)
    ensures |Encode(Base64, x)| == (|x| + 2) / 3 * 4
  {
    EncodedLength(Base64, x);
  }

  method Encode64(src: array?<byte>, length: nat, memory: bool) returns (text: array?<byte>, error: Option<Error>)
    requires src != null ==> length <= src.Length
    ensures text == null <==> src == null || !memory
    ensures error == if src != null && !memory then Some(OutOfMemory) else None
    ensures text != null ==> fresh(text) && text[..] == Encode(Base64, src[..length]) + [0]
  {
    hide EncodeGroup, Encode, Whole, Octets, Chars;
    text, error := null, None;
    if src == null {
      return;
    }
    var size := (length + 2) / 3 * 4;
    if !memory {
      return null, Some(OutOfMemory);
    }
    var out := new byte[size + 1];
    var remain := length % 3;
    var whole := length - remain;
    ghost var x, k := src[..length], 0;
    assert whole == 3 * (length / 3);
    Length64(x);
    EncodeFirst(Base64, x, []);
    var i, j := 0, 0;
    while i < whole
      invariant i == 3 * k <= whole && j == 4 * k
      invariant Encode(Base64, x) == out[..j] + Encode(Base64, x[i..])
    {
      Append64(src, x, i, 3, out, j);
      i, j, k := i + 3, j + 4, k + 1;
    }
    if remain > 0 {
      Append64(src, x, i, remain, out, j);
    }
    assert out[..size] == Encode(Base64, x);
    out[size] := 0;
    text := out;
  }

  /** The octets of four codes, by the shifts of the source. */
  ghost function Pack64(c: seq<byte>): (x: seq<byte>)
    requires |c| == 4
    ensures |x| == 3
  {
    [(c[0] << 2) | (c[1] >> 4), (c[1] << 4) | (c[2] >> 2), (c[2] << 6) | (c[3] & 0x3F)]
  }

  lemma PackedBytes64(c0: byte, c1: byte, c2: byte, c3: byte)
    requires c0 < 64 && c1 < 64 && c2 < 64 && c3 < 64
    ensures var n := Four(c0, c1, c2, c3);
      && Octet(n >> 16) == (c0 << 2) | (c1 >> 4)
      && Octet(n >> 8) == (c1 << 4) | (c2 >> 2)
      && Octet(n) == (c2 << 6) | (c3 & 0x3F)
  {
  }

  lemma Pack64IsRight(c: seq<byte>)
    requires |c| == 4 && Digits(Base64, c)
    ensures ToOctets(Base64, OfDigits(Base64, c)) == Pack64(c)
  {
    PackedBytes64(c[0], c[1], c[2], c[3]);
  }

  lemma NothingAfter64(c1: byte, c2: byte, c3: byte)
    ensures c2 == 0 ==> (c1 << 4) | (c2 >> 2) == c1 << 4
    ensures c3 == 0 ==> (c2 << 6) | (c3 & 0x3F) == c2 << 6
  {
  }

  /** The octets a group holds and what is left over, where digits that are not there leave no bits. */
  ghost predicate Bytes64(c: seq<byte>, n: nat, x: seq<byte>) {
    && |c| == 4 && |x| == 3
    && x[0] == (c[0] << 2) | (c[1] >> 4)
    && x[1] == (if n == 1 then c[1] << 4 else (c[1] << 4) | (c[2] >> 2))
    && (n > 1 ==> x[2] == if n == 2 then c[2] << 6 else (c[2] << 6) | (c[3] & 0x3F))
  }

  lemma PackIsBytes64(c: seq<byte>, n: nat)
    requires |c| == 4 && 1 <= n <= 3 && ZeroFrom(c, Reach(Base64, n))
    ensures Bytes64(c, n, Pack64(c))
  {
    NothingAfter64(c[1], c[2], c[3]);
  }

  lemma Group64(g: seq<byte>, n: nat) returns (c: seq<byte>)
    requires |g| == 4 && 1 <= n <= 3
    ensures |c| == 4
    ensures LegalGroup(Base64, g, n) ==> Bytes64(c, n, DecodeGroup(Base64, g, n))
    ensures c[0] == Code64(g[0]) && c[1] == Code64(g[1])
    ensures n > 1 ==> c[2] == Code64(g[2])
    ensures n > 2 ==> c[3] == Code64(g[3])
    ensures LegalGroup(Base64, g, n) <==>
      && c[0] != INVALID && c[1] != INVALID
      && (n > 1 ==> c[2] != INVALID)
      && (n > 2 ==> c[3] != INVALID)
      && (forall k :: n + 1 <= k < 4 ==> g[k] == PADDING)
  {
    hide Code64, LegalGroup, ToOctets, OfDigits, Pack64, Bytes64;
    GroupIs(Base64, g, n);
    c := Read(Base64, g, n);
    if LegalGroup(Base64, g, n) {
      ReadIsSpelled(Base64, g, n);
      Pack64IsRight(c);
      PackIsBytes64(c, n);
    }
  }

  /** The body of the decoding loop. */
  method Take64(g: seq<byte>) returns (ok: bool, b0: byte, b1: byte, b2: byte)
    requires |g| == 4
    ensures ok <==> LegalGroup(Base64, g, 3)
    ensures ok ==> var x := DecodeGroup(Base64, g, 3); b0 == x[0] && b1 == x[1] && b2 == x[2]
  {
    hide Code64, LegalGroup, DecodeGroup;
    ok, b0, b1, b2 := false, 0, 0, 0;
    ghost var c := Group64(g, 3);
    label end: {
      var code := Code64(g[0]);
      if code == INVALID { break end; }
      b0 := code << 2;
      code := Code64(g[1]);
      if code == INVALID { break end; }
      b0 := b0 | (code >> 4);
      b1 := code << 4;
      code := Code64(g[2]);
      if code == INVALID { break end; }
      b1 := b1 | (code >> 2);
      b2 := code << 6;
      code := Code64(g[3]);
      if code == INVALID { break end; }
      b2 := b2 | (code & 0x3F);
      ok := true;
    }
  }

  /** The last four characters, of which two may be padding. */
  method Last64(g: seq<byte>) returns (ok: bool, n: nat, b0: byte, b1: byte, b2: byte)
    requires |g| == 4
    ensures ok <==> LegalGroup(Base64, g, Held(Base64, g))
    ensures n == Held(Base64, g)
    ensures ok ==> b0 == DecodeGroup(Base64, g, n)[0] && b1 == DecodeGroup(Base64, g, n)[1]
    ensures ok && n > 1 ==> b2 == DecodeGroup(Base64, g, n)[2]
  {
    hide Code64, LegalGroup, DecodeGroup;
    ok, b0, b1, b2 := false, 0, 0, 0;
    n := if g[2] == PADDING then 1 else if g[3] == PADDING then 2 else 3;
    ghost var c := Group64(g, n);
    label end: {
      var code := Code64(g[0]);
      if code == INVALID { break end; }
      b0 := code << 2;
      code := Code64(g[1]);
      if code == INVALID { break end; }
      b0 := b0 | (code >> 4);
      b1 := code << 4;
      assert b0 == (c[0] << 2) | (c[1] >> 4) && b1 == c[1] << 4;
      var p := 2;
      if g[2] != PADDING {
        code := Code64(g[2]);
        if code == INVALID { break end; }
        b1 := b1 | (code >> 2);
        b2 := code << 6;
        assert b1 == (c[1] << 4) | (c[2] >> 2) && b2 == c[2] << 6;
        p := 3;
        if g[3] != PADDING {
          code := Code64(g[3]);
          if code == INVALID { break end; }
          b2 := b2 | (code & 0x3F);
          p := 4;
        }
      }
      ok := PaddedFrom(g, p);
    }
  }

  method Decode64(src: array?<byte>, length: nat, memory: bool) returns (bytes: array?<byte>, error: Option<Error>)
    requires src != null ==> length <= src.Length
    ensures bytes == null <==> src == null || error.Some?
    ensures error == if src == null then None else Outcome(Base64, src[..length], memory)
    ensures bytes != null ==> fresh(bytes) && Decode(Base64, src[..length]).Ok? && Buffered(Base64, bytes[..], src[..length])
  {
    hide LegalGroup, DecodeGroup, Held, Ended, DecodeGroups, Buffered, Whole;
    bytes, error := null, None;
    if src == null {
      return;
    }
    WholeIs(Base64, src[..length]);
    if length % 4 != 0 {
      return null, Some(InvalidLength);
    }
    ghost var groups := length / 4;
    var size := length / 4 * 3;
    if !memory {
      return null, Some(OutOfMemory);
    }
    var out := new byte[size + 1];
    ghost var t, k := src[..length], 0;
    var i, j := 0, 0;
    DecodeFirst(Base64, t, out[..j]);
    assert length == 4 * groups && size == 3 * groups;
    while i + 4 < length
      invariant i == 4 * k && j == 3 * k && (k < groups || (k == 0 && groups == 0))
      invariant Whole(Base64, t[i..]) && Decode(Base64, t) == Join(out[..j], DecodeGroups(Base64, t[i..]))
    {
      ghost var g := src[i..i + 4];
      assert g == t[i..i + 4];
      DecodeNext(Base64, t, i, out[..j]);
      var ok := PutNext64(src[i..i + 4], out, j);
      if !ok {
        return null, Some(InvalidByte);
      }
      i, j, k := i + 4, j + 3, k + 1;
    }
    if i < length {
      ghost var done := out[..j];
      assert src[i..length] == t[i..] == t[i..i + 4];
      var ok := PutLast64(src[i..length], out, j);
      DecodeNext(Base64, t, i, done);
      if !ok {
        return null, Some(InvalidByte);
      }
    }
    out[size] := 0;
    if i < length {
      LastIsBuffered(Base64, t, i, out[..], j);
    } else {
      NothingIsBuffered(Base64, t, out[..]);
    }
    bytes := out;
  }

  /** A group that is not the last goes into the buffer. */
  method PutNext64(g: seq<byte>, out: array<byte>, j: nat) returns (ok: bool)
    requires |g| == 4 && j + 3 <= out.Length
    modifies out
    ensures ok <==> LegalGroup(Base64, g, 3)
    ensures ok ==> out[..j + 3] == old(out[..j]) + DecodeGroup(Base64, g, 3)[..3]
  {
    hide LegalGroup, DecodeGroup;
    var b0, b1, b2;
    ok, b0, b1, b2 := Take64(g);
    out[j], out[j + 1], out[j + 2] := b0, b1, b2;
  }

  /** The last group goes into the buffer. */
  method PutLast64(g: seq<byte>, out: array<byte>, j: nat) returns (ok: bool)
    requires |g| == 4 && out.Length == j + 4
    modifies out
    ensures out[..j] == old(out[..j])
    ensures ok <==> LegalGroup(Base64, g, Held(Base64, g))
    ensures ok ==> Ended(Base64, out[j..][3 := 0], g, Held(Base64, g))
  {
    hide LegalGroup, DecodeGroup, Held;
    var n, b0, b1, b2;
    ok, n, b0, b1, b2 := Last64(g);
    if ok {
      out[j], out[j + 1] := b0, b1;
      if n > 1 {
        out[j + 2] := b2;
      }
      out[if n < 3 then j + n + 1 else j + 3] := 0;
    }
  }

  // ---- base32 ----

  ghost function Cut32(x: seq<byte>): (c: seq<byte>)
    requires |x| == 5
    ensures |c| == 8
  {
    [x[0] >> 3, ((x[0] & 7) << 2) | (x[1] >> 6), (x[1] & 0x3F) >> 1, ((x[1] & 1) << 4) | (x[2] >> 4),
     ((x[2] & 0xF) << 1) | (x[3] >> 7), (x[3] & 0x7F) >> 2, ((x[3] & 3) << 3) | (x[4] >> 5), x[4] & 0x1F]
  }

  lemma Shifts32(x0: byte, x1: byte, x2: byte, x3: byte, x4: byte)
    ensures var n := Five(x0, x1, x2, x3, x4);
      && Quintet(n >> 35) == x0 >> 3
      && Quintet(n >> 30) == ((x0 & 7) << 2) | (x1 >> 6)
      && Quintet(n >> 25) == (x1 & 0x3F) >> 1
      && Quintet(n >> 20) == ((x1 & 1) << 4) | (x2 >> 4)
  {
  }

  lemma LowShifts32(x0: byte, x1: byte, x2: byte, x3: byte, x4: byte)
    ensures var n := Five(x0, x1, x2, x3, x4);
      && Quintet(n >> 15) == ((x2 & 0xF) << 1) | (x3 >> 7)
      && Quintet(n >> 10) == (x3 & 0x7F) >> 2
      && Quintet(n >> 5) == ((x3 & 3) << 3) | (x4 >> 5)
      && Quintet(n) == x4 & 0x1F
  {
  }

  lemma Cut32IsRight(x: seq<byte>)
    requires |x| == 5
    ensures ToDigits(Base32, OfOctets(Base32, x)) == Cut32(x)
  {
    Shifts32(x[0], x[1], x[2], x[3], x[4]);
    LowShifts32(x[0], x[1], x[2], x[3], x[4]);
  }

  lemma NothingBelow32(x0: byte, x1: byte, x2: byte, x3: byte, x4: byte)
    ensures x1 == 0 ==> ((x0 & 7) << 2) | (x1 >> 6) == (x0 & 7) << 2
    ensures x2 == 0 ==> ((x1 & 1) << 4) | (x2 >> 4) == (x1 & 1) << 4
    ensures x3 == 0 ==> ((x2 & 0xF) << 1) | (x3 >> 7) == (x2 & 0xF) << 1
    ensures x4 == 0 ==> ((x3 & 3) << 3) | (x4 >> 5) == (x3 & 3) << 3
  {
  }

  ghost predicate Codes32(x: seq<byte>, c: seq<byte>) {
    && 1 <= |x| <= 5 && |c| == 8
    && c[0] == x[0] >> 3
    && c[1] == (if |x| == 1 then (x[0] & 7) << 2 else ((x[0] & 7) << 2) | (x[1] >> 6))
    && (|x| > 1 ==> c[2] == (x[1] & 0x3F) >> 1)
    && (|x| > 1 ==> c[3] == if |x| == 2 then (x[1] & 1) << 4 else ((x[1] & 1) << 4) | (x[2] >> 4))
    && (|x| > 2 ==> c[4] == if |x| == 3 then (x[2] & 0xF) << 1 else ((x[2] & 0xF) << 1) | (x[3] >> 7))
    && (|x| > 3 ==> c[5] == (x[3] & 0x7F) >> 2)
    && (|x| > 3 ==> c[6] == if |x| == 4 then (x[3] & 3) << 3 else ((x[3] & 3) << 3) | (x[4] >> 5))
    && (|x| > 4 ==> c[7] == x[4] & 0x1F)
  }

  lemma CutIsCodes32(x: seq<byte>)
    requires 1 <= |x| <= 5
    ensures Codes32(x, Cut32(Filled(x, 5)))
  {
    var f := Filled(x, 5);
    NothingBelow32(f[0], f[1], f[2], f[3], f[4]);
  }

  lemma Letters32(x: seq<byte>) returns (c: seq<byte>)
    requires 1 <= |x| <= 5
    ensures Codes32(x, c)
    ensures forall k :: 0 <= k < Reach(Base32, |x|) ==> c[k] < 32 && EncodeGroup(Base32, x)[k] == Char32(c[k])
    ensures forall k :: Reach(Base32, |x|) <= k < 8 ==> EncodeGroup(Base32, x)[k] == PADDING
  {
    hide Char32, EncodeGroup, ToDigits, OfOctets;
    c := Cut32(Filled(x, 5));
    CutIsCodes32(x);
    Cut32IsRight(Filled(x, 5));
    LettersAre(Base32, x, Filled(x, 5), c);
  }

  /** The characters of a group: the loop body for five octets, a tail for fewer, and the padding. */
  method Spell32(x: seq<byte>) returns (t: seq<byte>)
    requires 1 <= |x| <= 5
    ensures t == EncodeGroup(Base32, x)
  {
    hide Char32, EncodeGroup;
    ghost var c := Letters32(x);
    if |x| == 5 {
      t := [Char32(x[0] >> 3), Char32(((x[0] & 7) << 2) | (x[1] >> 6)),
            Char32((x[1] & 0x3F) >> 1), Char32(((x[1] & 1) << 4) | (x[2] >> 4)),
            Char32(((x[2] & 0xF) << 1) | (x[3] >> 7)), Char32((x[3] & 0x7F) >> 2),
            Char32(((x[3] & 3) << 3) | (x[4] >> 5)), Char32(x[4] & 0x1F)];
    } else if |x| == 1 {
      t := [Char32(x[0] >> 3), Char32((x[0] & 7) << 2)];
    } else if |x| == 2 {
      t := [Char32(x[0] >> 3), Char32(((x[0] & 7) << 2) | (x[1] >> 6)),
            Char32((x[1] & 0x3F) >> 1), Char32((x[1] & 1) << 4)];
    } else if |x| == 3 {
      t := [Char32(x[0] >> 3), Char32(((x[0] & 7) << 2) | (x[1] >> 6)),
            Char32((x[1] & 0x3F) >> 1), Char32(((x[1] & 1) << 4) | (x[2] >> 4)),
            Char32((x[2] & 0xF) << 1)];
    } else {
      t := [Char32(x[0] >> 3), Char32(((x[0] & 7) << 2) | (x[1] >> 6)),
            Char32((x[1] & 0x3F) >> 1), Char32(((x[1] & 1) << 4) | (x[2] >> 4)),
            Char32(((x[2] & 0xF) << 1) | (x[3] >> 7)), Char32((x[3] & 0x7F) >> 2),
            Char32((x[3] & 3) << 3)];
    }
    assert |t| == Reach(Base32, |x|);
    while |t| < 8
      invariant Reach(Base32, |x|) <= |t| <= 8
      invariant forall k :: 0 <= k < |t| ==> t[k] == EncodeGroup(Base32, x)[k]
    {
      t := t + [PADDING];
    }
  }

  method Append32(src: array<byte>, ghost x: seq<byte>, i: nat, n: nat, out: array<byte>, j: nat)
    requires 1 <= n <= 5 && i + n <= |x| && (n < 5 ==> i + n == |x|) && j + 8 <= out.Length && src != out
    requires |x| <= src.Length && x == src[..|x|]
    requires Encode(Base32, x) == out[..j] + Encode(Base32, x[i..])
    modifies out
    ensures Encode(Base32, x) == out[..j + 8] + Encode(Base32, x[i + n..])
  {
    hide EncodeGroup, Encode;
    assert x[i..i + n] == src[i..i + n];
    EncodeNext(Base32, x, i, n, out[..j]);
    var t := Spell32(src[i..i + n]);
    Store(t, out, j);
  }

  lemma Length32(x: seq<byte>)
    ensures |Encode(Base32, x)| == (|x| + 4) / 5 * 8
  {
    EncodedLength(Base32, x);
  }

  method Encode32(src: array?<byte>, length: nat, memory: bool) returns (text: array?<byte>, error: Option<Error>)
    requires src != null ==> length <= src.Length
    ensures text == null <==> src == null || !memory
    ensures error == if src != null && !memory then Some(OutOfMemory) else None
    ensures text != null ==> fresh(text) && text[..] == Encode(Base32, src[..length]) + [0]
  {
    hide EncodeGroup, Encode, Whole, Octets, Chars;
    text, error := null, None;
    if src == null {
      return;
    }
    var size := (length + 4) / 5 * 8;
    if !memory {
      return null, Some(OutOfMemory);
    }
    var out := new byte[size + 1];
    var remain := length % 5;
    var whole := length - remain;
    ghost var x, k := src[..length], 0;
    assert whole == 5 * (length / 5);
    Length32(x);
    EncodeFirst(Base32, x, []);
    var i, j := 0, 0;
    while i < whole
      invariant i == 5 * k <= whole && j == 8 * k
      invariant Encode(Base32, x) == out[..j] + Encode(Base32, x[i..])
    {
      Append32(src, x, i, 5, out, j);
      i, j, k := i + 5, j + 8, k + 1;
    }
    if remain > 0 {
      Append32(src, x, i, remain, out, j);
    }
    assert out[..size] == Encode(Base32, x);
    out[size] := 0;
    text := out;
  }

  ghost function Pack32(c: seq<byte>): (x: seq<byte>)
    requires |c| == 8
    ensures |x| == 5
  {
    [(c[0] << 3) | (c[1] >> 2), (c[1] << 6) | (c[2] << 1) | (c[3] >> 4), (c[3] << 4) | (c[4] >> 1),
     (c[4] << 7) | (c[5] << 2) | (c[6] >> 3), (c[6] << 5) | c[7]]
  }

  lemma PackedBytes32(c0: byte, c1: byte, c2: byte, c3: byte, c4: byte, c5: byte, c6: byte, c7: byte)
    requires c0 < 32 && c1 < 32 && c2 < 32 && c3 < 32 && c4 < 32 && c5 < 32 && c6 < 32 && c7 < 32
    ensures var n := Eight(c0, c1, c2, c3, c4, c5, c6, c7);
      && Octet(n >> 32) == (c0 << 3) | (c1 >> 2)
      && Octet(n >> 24) == (c1 << 6) | (c2 << 1) | (c3 >> 4)
      && Octet(n >> 16) == (c3 << 4) | (c4 >> 1)
      && Octet(n >> 8) == (c4 << 7) | (c5 << 2) | (c6 >> 3)
      && Octet(n) == (c6 << 5) | c7
  {
  }

  lemma Pack32IsRight(c: seq<byte>)
    requires |c| == 8 && Digits(Base32, c)
    ensures ToOctets(Base32, OfDigits(Base32, c)) == Pack32(c)
  {
    PackedBytes32(c[0], c[1], c[2], c[3], c[4], c[5], c[6], c[7]);
  }

  lemma NothingAfter32(c: seq<byte>)
    requires |c| == 8
    ensures c[2] == 0 && c[3] == 0 ==> (c[1] << 6) | (c[2] << 1) | (c[3] >> 4) == c[1] << 6
    ensures c[4] == 0 ==> (c[3] << 4) | (c[4] >> 1) == c[3] << 4
    ensures c[5] == 0 && c[6] == 0 ==> (c[4] << 7) | (c[5] << 2) | (c[6] >> 3) == c[4] << 7
    ensures c[7] == 0 ==> (c[6] << 5) | c[7] == c[6] << 5
  {
  }

  /** The octets a group holds and what is left over, where digits that are not there leave no bits. */
  ghost predicate Bytes32(c: seq<byte>, n: nat, x: seq<byte>) {
    && |c| == 8 && |x| == 5
    && x[0] == (c[0] << 3) | (c[1] >> 2)
    && x[1] == (if n == 1 then c[1] << 6 else (c[1] << 6) | (c[2] << 1) | (c[3] >> 4))
    && (n > 1 ==> x[2] == if n == 2 then c[3] << 4 else (c[3] << 4) | (c[4] >> 1))
    && (n > 2 ==> x[3] == if n == 3 then c[4] << 7 else (c[4] << 7) | (c[5] << 2) | (c[6] >> 3))
    && (n > 3 ==> x[4] == if n == 4 then c[6] << 5 else (c[6] << 5) | c[7])
  }

  lemma PackIsBytes32(c: seq<byte>, n: nat)
    requires |c| == 8 && 1 <= n <= 5 && ZeroFrom(c, Reach(Base32, n))
    ensures Bytes32(c, n, Pack32(c))
  {
    NothingAfter32(c);
  }

  lemma Group32(g: seq<byte>, n: nat) returns (c: seq<byte>)
    requires |g| == 8 && 1 <= n <= 5
    ensures |c| == 8
    ensures LegalGroup(Base32, g, n) ==> Bytes32(c, n, DecodeGroup(Base32, g, n))
    ensures c[0] == Code32(g[0]) && c[1] == Code32(g[1])
    ensures n > 1 ==> c[2] == Code32(g[2]) && c[3] == Code32(g[3])
    ensures n > 2 ==> c[4] == Code32(g[4])
    ensures n > 3 ==> c[5] == Code32(g[5]) && c[6] == Code32(g[6])
    ensures n > 4 ==> c[7] == Code32(g[7])
    ensures LegalGroup(Base32, g, n) <==>
      && c[0] != INVALID && c[1] != INVALID
      && (n > 1 ==> c[2] != INVALID && c[3] != INVALID)
      && (n > 2 ==> c[4] != INVALID)
      && (n > 3 ==> c[5] != INVALID && c[6] != INVALID)
      && (n > 4 ==> c[7] != INVALID)
      && (forall k :: Reach(Base32, n) <= k < 8 ==> g[k] == PADDING)
  {
    hide Code32, LegalGroup, ToOctets, OfDigits, Pack32, Bytes32;
    GroupIs(Base32, g, n);
    c := Read(Base32, g, n);
    if LegalGroup(Base32, g, n) {
      ReadIsSpelled(Base32, g, n);
      Pack32IsRight(c);
      PackIsBytes32(c, n);
    }
  }

  method Take32(g: seq<byte>) returns (ok: bool, b0: byte, b1: byte, b2: byte, b3: byte, b4: byte)
    requires |g| == 8
    ensures ok <==> LegalGroup(Base32, g, 5)
    ensures ok ==> var x := DecodeGroup(Base32, g, 5);
      b0 == x[0] && b1 == x[1] && b2 == x[2] && b3 == x[3] && b4 == x[4]
  {
    hide Code32, LegalGroup, DecodeGroup;
    ok, b0, b1, b2, b3, b4 := false, 0, 0, 0, 0, 0;
    ghost var c := Group32(g, 5);
    label end: {
      var code := Code32(g[0]);
      if code == INVALID { break end; }
      b0 := code << 3;
      code := Code32(g[1]);
      if code == INVALID { break end; }
      b0 := b0 | (code >> 2);
      b1 := code << 6;
      code := Code32(g[2]);
      if code == INVALID { break end; }
      b1 := b1 | (code << 1);
      code := Code32(g[3]);
      if code == INVALID { break end; }
      b1 := b1 | (code >> 4);
      b2 := code << 4;
      code := Code32(g[4]);
      if code == INVALID { break end; }
      b2 := b2 | (code >> 1);
      b3 := code << 7;
      code := Code32(g[5]);
      if code == INVALID { break end; }
      b3 := b3 | (code << 2);
      code := Code32(g[6]);
      if code == INVALID { break end; }
      b3 := b3 | (code >> 3);
      b4 := code << 5;
      code := Code32(g[7]);
      if code == INVALID { break end; }
      b4 := b4 | code;
      ok := true;
    }
  }

  /** The last eight characters, of which one, three, four or six may be padding. */
  method Last32(g: seq<byte>) returns (ok: bool, n: nat, b0: byte, b1: byte, b2: byte, b3: byte, b4: byte)
    requires |g| == 8
    ensures ok <==> LegalGroup(Base32, g, Held(Base32, g))
    ensures n == Held(Base32, g)
    ensures ok ==> var x := DecodeGroup(Base32, g, n);
      b0 == x[0] && b1 == x[1] && (n > 1 ==> b2 == x[2]) && (n > 2 ==> b3 == x[3]) && (n > 3 ==> b4 == x[4])
  {
    hide Code32, LegalGroup, DecodeGroup;
    ok, b0, b1, b2, b3, b4 := false, 0, 0, 0, 0, 0;
    n := if g[2] == PADDING then 1 else if g[4] == PADDING then 2
      else if g[5] == PADDING then 3 else if g[7] == PADDING then 4 else 5;
    ghost var c := Group32(g, n);
    label end: {
      var code := Code32(g[0]);
      if code == INVALID { break end; }
      b0 := code << 3;
      code := Code32(g[1]);
      if code == INVALID { break end; }
      b0 := b0 | (code >> 2);
      b1 := code << 6;
      var p := 2;
      if g[2] != PADDING {
        code := Code32(g[2]);
        if code == INVALID { break end; }
        b1 := b1 | (code << 1);
        code := Code32(g[3]);
        if code == INVALID { break end; }
        b1 := b1 | (code >> 4);
        b2 := code << 4;
        p := 4;
        if g[4] != PADDING {
          code := Code32(g[4]);
          if code == INVALID { break end; }
          b2 := b2 | (code >> 1);
          b3 := code << 7;
          p := 5;
          if g[5] != PADDING {
            code := Code32(g[5]);
            if code == INVALID { break end; }
            b3 := b3 | (code << 2);
            code := Code32(g[6]);
            if code == INVALID { break end; }
            b3 := b3 | (code >> 3);
            b4 := code << 5;
            p := 7;
            if g[7] != PADDING {
              code := Code32(g[7]);
              if code == INVALID { break end; }
              b4 := b4 | code;
              p := 8;
            }
          }
        }
      }
      ok := PaddedFrom(g, p);
    }
  }

  method Decode32(src: array?<byte>, length: nat, memory: bool) returns (bytes: array?<byte>, error: Option<Error>)
    requires src != null ==> length <= src.Length
    ensures bytes == null <==> src == null || error.Some?
    ensures error == if src == null then None else Outcome(Base32, src[..length], memory)
    ensures bytes != null ==> fresh(bytes) && Decode(Base32, src[..length]).Ok? && Buffered(Base32, bytes[..], src[..length])
  {
    hide LegalGroup, DecodeGroup, Held, Ended, DecodeGroups, Buffered, Whole;
    bytes, error := null, None;
    if src == null {
      return;
    }
    WholeIs(Base32, src[..length]);
    if length % 8 != 0 {
      return null, Some(InvalidLength);
    }
    ghost var groups := length / 8;
    var size := length / 8 * 5;
    if !memory {
      return null, Some(OutOfMemory);
    }
    var out := new byte[size + 1];
    ghost var t, k := src[..length], 0;
    var i, j := 0, 0;
    DecodeFirst(Base32, t, out[..j]);
    assert length == 8 * groups && size == 5 * groups;
    while i + 8 < length
      invariant i == 8 * k && j == 5 * k && (k < groups || (k == 0 && groups == 0))
      invariant Whole(Base32, t[i..]) && Decode(Base32, t) == Join(out[..j], DecodeGroups(Base32, t[i..]))
    {
      ghost var g := src[i..i + 8];
      assert g == t[i..i + 8];
      DecodeNext(Base32, t, i, out[..j]);
      var ok := PutNext32(src[i..i + 8], out, j);
      if !ok {
        return null, Some(InvalidByte);
      }
      i, j, k := i + 8, j + 5, k + 1;
    }
    if i < length {
      ghost var done := out[..j];
      assert src[i..length] == t[i..] == t[i..i + 8];
      var ok := PutLast32(src[i..length], out, j);
      DecodeNext(Base32, t, i, done);
      if !ok {
        return null, Some(InvalidByte);
      }
    }
    out[size] := 0;
    if i < length {
      LastIsBuffered(Base32, t, i, out[..], j);
    } else {
      NothingIsBuffered(Base32, t, out[..]);
    }
    bytes := out;
  }

  /** A group that is not the last goes into the buffer. */
  method PutNext32(g: seq<byte>, out: array<byte>, j: nat) returns (ok: bool)
    requires |g| == 8 && j + 5 <= out.Length
    modifies out
    ensures ok <==> LegalGroup(Base32, g, 5)
    ensures ok ==> out[..j + 5] == old(out[..j]) + DecodeGroup(Base32, g, 5)[..5]
  {
    hide LegalGroup, DecodeGroup;
    var b0, b1, b2, b3, b4;
    ok, b0, b1, b2, b3, b4 := Take32(g);
    out[j], out[j + 1], out[j + 2], out[j + 3], out[j + 4] := b0, b1, b2, b3, b4;
  }

  /** The last group goes into the buffer. */
  method PutLast32(g: seq<byte>, out: array<byte>, j: nat) returns (ok: bool)
    requires |g| == 8 && out.Length == j + 6
    modifies out
    ensures out[..j] == old(out[..j])
    ensures ok <==> LegalGroup(Base32, g, Held(Base32, g))
    ensures ok ==> Ended(Base32, out[j..][5 := 0], g, Held(Base32, g))
  {
    hide LegalGroup, DecodeGroup, Held;
    var n, b0, b1, b2, b3, b4;
    ok, n, b0, b1, b2, b3, b4 := Last32(g);
    if ok {
      out[j], out[j + 1] := b0, b1;
      if n > 1 {
        out[j + 2] := b2;
      }
      if n > 2 {
        out[j + 3] := b3;
      }
      if n > 3 {
        out[j + 4] := b4;
      }
      out[if n < 5 then j + n + 1 else j + 5] := 0;
    }
  }

  // ---- base16 ----

  lemma Nibbles(x: byte)
    ensures Nibble(x as bv40 >> 4) == x >> 4 && Nibble(x as bv40) == x & 0xF
  {
  }

  lemma Pair16(x: seq<byte>)
    requires |x| == 1
    ensures EncodeGroup(Base16, x) == [Char16(x[0] >> 4), Char16(x[0] & 0xF)]
  {
    hide Char16;
    assert Filled(x, 1) == x;
    Nibbles(x[0]);
    LettersAre(Base16, x, x, ToDigits(Base16, OfOctets(Base16, x)));
  }

  method Append16(src: array<byte>, ghost x: seq<byte>, i: nat, out: array<byte>, j: nat)
    requires i < |x| <= src.Length && x == src[..|x|] && j + 2 <= out.Length && src != out
    requires Encode(Base16, x) == out[..j] + Encode(Base16, x[i..])
    modifies out
    ensures Encode(Base16, x) == out[..j + 2] + Encode(Base16, x[i + 1..])
  {
    hide EncodeGroup, Encode, Char16;
    assert x[i..i + 1] == [src[i]];
    EncodeNext(Base16, x, i, 1, out[..j]);
    Pair16([src[i]]);
    Store([Char16(src[i] >> 4), Char16(src[i] & 0xF)], out, j);
  }

  lemma Length16(x: seq<byte>)
    ensures |Encode(Base16, x)| == 2 * |x|
  {
    EncodedLength(Base16, x);
  }

  method Encode16(src: array?<byte>, length: nat, memory: bool) returns (text: array?<byte>, error: Option<Error>)
    requires src != null ==> length <= src.Length
    ensures text == null <==> src == null || !memory
    ensures error == if src != null && !memory then Some(OutOfMemory) else None
    ensures text != null ==> fresh(text) && text[..] == Encode(Base16, src[..length]) + [0]
  {
    hide EncodeGroup, Encode, Whole, Octets, Chars;
    text, error := null, None;
    if src == null {
      return;
    }
    var size := 2 * length;
    if !memory {
      return null, Some(OutOfMemory);
    }
    var out := new byte[size + 1];
    ghost var x := src[..length];
    Length16(x);
    EncodeFirst(Base16, x, []);
    var i, j := 0, 0;
    while i < length
      invariant i <= length && j == 2 * i
      invariant Encode(Base16, x) == out[..j] + Encode(Base16, x[i..])
    {
      Append16(src, x, i, out, j);
      i, j := i + 1, j + 2;
    }
    assert out[..size] == Encode(Base16, x);
    out[size] := 0;
    text := out;
  }

  lemma Joined16(c0: byte, c1: byte)
    requires c0 < 16 && c1 < 16
    ensures Octet(Two(c0, c1)) == (c0 << 4) | c1
  {
  }

  method Take16(g: seq<byte>) returns (ok: bool, b: byte)
    requires |g| == 2
    ensures ok <==> LegalGroup(Base16, g, 1)
    ensures ok ==> [b] == DecodeGroup(Base16, g, 1)
  {
    hide Code16, LegalGroup;
    ok, b := false, 0;
    GroupIs(Base16, g, 1);
    label end: {
      var code := Code16(g[0]);
      if code == INVALID { break end; }
      b := code << 4;
      code := Code16(g[1]);
      if code == INVALID { break end; }
      b := b | code;
      ok := true;
      Joined16(Code16(g[0]), Code16(g[1]));
    }
  }

  method Decode16(src: array?<byte>, length: nat, memory: bool) returns (bytes: array?<byte>, error: Option<Error>)
    requires src != null ==> length <= src.Length
    ensures bytes == null <==> src == null || error.Some?
    ensures error == if src == null then None else Outcome(Base16, src[..length], memory)
    ensures bytes != null ==> fresh(bytes) && bytes.Length == length / 2 + 1 && bytes[length / 2] == 0
    ensures bytes != null ==> Decode(Base16, src[..length]) == Ok(bytes[..length / 2])
  {
    hide LegalGroup, DecodeGroup;
    bytes, error := null, None;
    if src == null {
      return;
    }
    if length % 2 != 0 {
      return null, Some(InvalidLength);
    }
    var size := length / 2;
    if !memory {
      return null, Some(OutOfMemory);
    }
    var out := new byte[size + 1];
    ghost var t := src[..length];
    var i, j := 0, 0;
    DecodeFirst(Base16, t, out[..j]);
    while i < length
      invariant i == 2 * j <= length
      invariant Decode(Base16, t) == Join(out[..j], DecodeGroups(Base16, t[i..]))
    {
      assert src[i..i + 2] == t[i..i + 2];
      DecodeNext(Base16, t, i, out[..j]);
      var ok, b := Take16(src[i..i + 2]);
      if !ok {
        return null, Some(InvalidByte);
      }
      ghost var done := out[..j];
      out[j] := b;
      assert out[..j + 1] == done + [b] == done + [b][..1];
      i, j := i + 2, j + 1;
    }
    ghost var done := out[..size];
    out[size] := 0;
    assert out[..size] == done == done + [];
    bytes := out;
  }
}
