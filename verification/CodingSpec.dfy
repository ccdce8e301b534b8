/** Base64, base32 and base16 as sections 4, 6 and 8 of RFC 4648 describe them.

    A group of octets is one number, and the same number cut into digits of six, five or four bits is
    a group of text. Nothing here shifts or masks a single octet: that is how the methods of
    BaseCoding.dfy work, and they are proved against this.
 */
module CodingSpec {
  import opened Options

  type byte = bv8

  const PADDING: byte := 61    // '='
  const INVALID: byte := 0xFF  // the classifiers' -1

  datatype Base = Base64 | Base32 | Base16
  datatype Error = InvalidLength | InvalidByte | OutOfMemory
  datatype Result<+T> = Ok(value: T) | Err(error: Error)

  // ---- alphabets ----

  function Radix(base: Base): (n: byte) {
    match base case Base64 => 64 case Base32 => 32 case Base16 => 16
  }

  function Char64(code: byte): (b: byte)
    requires code < 64
    ensures b != PADDING
  {
    if code < 26 then 65 + code
    else if code < 52 then 97 + (code - 26)
    else if code < 62 then 48 + (code - 52)
    else if code == 62 then 43 else 47
  }

  function Char32(code: byte): (b: byte)
    requires code < 32
    ensures b != PADDING
  {
    if code < 26 then 65 + code else 50 + (code - 26)
  }

  function Char16(code: byte): (b: byte)
    requires code < 16
    ensures b != PADDING
  {
    if code < 10 then 48 + code else 65 + (code - 10)
  }

  // The three classifiers: each undoes its table, and refuses every byte that is not in it.

  function Code64(b: byte): (code: byte)
    ensures code == INVALID || (code < 64 && Char64(code) == b)
    ensures forall c: byte :: c < 64 && Char64(c) == b ==> code == c
  {
    if 65 <= b && b <= 90 then b - 65
    else if 97 <= b && b <= 122 then b - 97 + 26
    else if 48 <= b && b <= 57 then b - 48 + 52
    else if b == 43 then 62
    else if b == 47 then 63 else INVALID
  }

  function Code32(b: byte): (code: byte)
    ensures code == INVALID || (code < 32 && Char32(code) == b)
    ensures forall c: byte :: c < 32 && Char32(c) == b ==> code == c
  {
    if 65 <= b && b <= 90 then b - 65
    else if 50 <= b && b <= 55 then b - 50 + 26 else INVALID
  }

  function Code16(b: byte): (code: byte)
    ensures code == INVALID || (code < 16 && Char16(code) == b)
    ensures forall c: byte :: c < 16 && Char16(c) == b ==> code == c
  {
    if 48 <= b && b <= 57 then b - 48
    else if 65 <= b && b <= 70 then b - 65 + 10 else INVALID
  }

  ghost function Char(base: Base, code: byte): (b: byte)
    requires code < Radix(base)
    ensures b != PADDING
  {
    match base case Base64 => Char64(code) case Base32 => Char32(code) case Base16 => Char16(code)
  }

  ghost function Code(base: Base, b: byte): (code: byte)
    ensures code == INVALID || (code < Radix(base) && Char(base, code) == b)
    ensures forall c: byte :: c < Radix(base) && Char(base, c) == b ==> code == c
  {
    match base case Base64 => Code64(b) case Base32 => Code32(b) case Base16 => Code16(b)
  }

  // ---- groups ----

  function Octets(base: Base): (n: nat) {
    match base case Base64 => 3 case Base32 => 5 case Base16 => 1
  }

  function Chars(base: Base): (n: nat) {
    match base case Base64 => 4 case Base32 => 8 case Base16 => 2
  }

  /** How many characters `n` octets of one group reach into. */
  function Reach(base: Base, n: nat): (k: nat)
    requires 1 <= n <= Octets(base)
    ensures 2 <= k <= Chars(base)
  {
    match base
    case Base64 => n + 1
    case Base32 => if n == 1 then 2 else if n == 2 then 4 else if n == 3 then 5 else if n == 4 then 7 else 8
    case Base16 => 2
  }

  ghost predicate Digits(base: Base, codes: seq<byte>) {
    forall i :: 0 <= i < |codes| ==> codes[i] < Radix(base)
  }

  // A group of octets as a number, and back

  ghost function OfOctets(base: Base, x: seq<byte>): bv40
    requires |x| == Octets(base)
  {
    match base
    case Base64 => Three(x[0], x[1], x[2])
    case Base32 => Five(x[0], x[1], x[2], x[3], x[4])
    case Base16 => x[0] as bv40
  }

  ghost function Three(x0: byte, x1: byte, x2: byte): bv40 {
    (x0 as bv40 << 16) | (x1 as bv40 << 8) | x2 as bv40
  }

  ghost function Five(x0: byte, x1: byte, x2: byte, x3: byte, x4: byte): bv40 {
    (x0 as bv40 << 32) | (x1 as bv40 << 24) | (x2 as bv40 << 16) | (x3 as bv40 << 8) | x4 as bv40
  }

  ghost function ToOctets(base: Base, n: bv40): (x: seq<byte>)
    ensures |x| == Octets(base)
  {
    match base
    case Base64 => [Octet(n >> 16), Octet(n >> 8), Octet(n)]
    case Base32 => [Octet(n >> 32), Octet(n >> 24), Octet(n >> 16), Octet(n >> 8), Octet(n)]
    case Base16 => [Octet(n)]
  }

  ghost function Octet(n: bv40): byte { (n & 0xFF) as byte }

  // A group of digits as a number, and back

  ghost function OfDigits(base: Base, c: seq<byte>): bv40
    requires |c| == Chars(base)
  {
    match base
    case Base64 => Four(c[0], c[1], c[2], c[3])
    case Base32 => Eight(c[0], c[1], c[2], c[3], c[4], c[5], c[6], c[7])
    case Base16 => Two(c[0], c[1])
  }

  ghost function Two(c0: byte, c1: byte): bv40 {
    (c0 as bv40 << 4) | c1 as bv40
  }

  ghost function Four(c0: byte, c1: byte, c2: byte, c3: byte): bv40 {
    (c0 as bv40 << 18) | (c1 as bv40 << 12) | (c2 as bv40 << 6) | c3 as bv40
  }

  ghost function Eight(c0: byte, c1: byte, c2: byte, c3: byte, c4: byte, c5: byte, c6: byte, c7: byte): bv40 {
    (c0 as bv40 << 35) | (c1 as bv40 << 30) | (c2 as bv40 << 25) | (c3 as bv40 << 20)
    | (c4 as bv40 << 15) | (c5 as bv40 << 10) | (c6 as bv40 << 5) | c7 as bv40
  }

  ghost function Sextet(n: bv40): (d: byte) ensures d < 64 { (n & 0x3F) as byte }
  ghost function Quintet(n: bv40): (d: byte) ensures d < 32 { (n & 0x1F) as byte }
  ghost function Nibble(n: bv40): (d: byte) ensures d < 16 { (n & 0xF) as byte }

  ghost function ToDigits(base: Base, n: bv40): (c: seq<byte>)
    ensures |c| == Chars(base) && Digits(base, c)
  {
    match base
    case Base64 => [Sextet(n >> 18), Sextet(n >> 12), Sextet(n >> 6), Sextet(n)]
    case Base32 =>
      [Quintet(n >> 35), Quintet(n >> 30), Quintet(n >> 25), Quintet(n >> 20),
       Quintet(n >> 15), Quintet(n >> 10), Quintet(n >> 5), Quintet(n)]
    case Base16 => [Nibble(n >> 4), Nibble(n)]
  }

  ghost predicate Fits(base: Base, n: bv40) {
    match base case Base64 => n < 0x1000000 case Base32 => true case Base16 => n < 0x100
  }

  lemma OctetsAre(base: Base, x: seq<byte>)
    requires |x| == Octets(base)
    ensures Fits(base, OfOctets(base, x)) && ToOctets(base, OfOctets(base, x)) == x
  {
    match base
    case Base64 => ThreeAre(x[0], x[1], x[2]);
    case Base32 => FiveAre(x[0], x[1], x[2], x[3], x[4]);
    case Base16 =>
  }

  lemma ThreeAre(x0: byte, x1: byte, x2: byte)
    ensures var n := Three(x0, x1, x2);
      n < 0x1000000 && Octet(n >> 16) == x0 && Octet(n >> 8) == x1 && Octet(n) == x2
  {
  }

  lemma FiveAre(x0: byte, x1: byte, x2: byte, x3: byte, x4: byte)
    ensures var n := Five(x0, x1, x2, x3, x4);
      && Octet(n >> 32) == x0 && Octet(n >> 24) == x1 && Octet(n >> 16) == x2
      && Octet(n >> 8) == x3 && Octet(n) == x4
  {
  }

  lemma DigitsAre(base: Base, c: seq<byte>)
    requires |c| == Chars(base) && Digits(base, c)
    ensures Fits(base, OfDigits(base, c)) && ToDigits(base, OfDigits(base, c)) == c
  {
    match base
    case Base64 => SextetsAre(c[0], c[1], c[2], c[3]);
    case Base32 => QuintetsAre(c[0], c[1], c[2], c[3], c[4], c[5], c[6], c[7]);
    case Base16 =>
  }

  lemma SextetsAre(c0: byte, c1: byte, c2: byte, c3: byte)
    requires c0 < 64 && c1 < 64 && c2 < 64 && c3 < 64
    ensures var n := Four(c0, c1, c2, c3);
      n < 0x1000000 && Sextet(n >> 18) == c0 && Sextet(n >> 12) == c1 && Sextet(n >> 6) == c2 && Sextet(n) == c3
  {
  }

  lemma QuintetsAre(c0: byte, c1: byte, c2: byte, c3: byte, c4: byte, c5: byte, c6: byte, c7: byte)
    requires c0 < 32 && c1 < 32 && c2 < 32 && c3 < 32 && c4 < 32 && c5 < 32 && c6 < 32 && c7 < 32
    ensures var n := Eight(c0, c1, c2, c3, c4, c5, c6, c7);
      && Quintet(n >> 35) == c0 && Quintet(n >> 30) == c1 && Quintet(n >> 25) == c2 && Quintet(n >> 20) == c3
      && Quintet(n >> 15) == c4 && Quintet(n >> 10) == c5 && Quintet(n >> 5) == c6 && Quintet(n) == c7
  {
  }

  lemma NumberOfOctets(base: Base, n: bv40)
    requires Fits(base, n)
    ensures OfOctets(base, ToOctets(base, n)) == n
  {
    var x := ToOctets(base, n);
    match base
    case Base64 =>
      ThreeOctets(n);
      assert x[0] == Octet(n >> 16) && x[1] == Octet(n >> 8) && x[2] == Octet(n);
    case Base32 =>
      FiveOctets(n);
      assert x[0] == Octet(n >> 32) && x[1] == Octet(n >> 24) && x[2] == Octet(n >> 16);
      assert x[3] == Octet(n >> 8) && x[4] == Octet(n);
    case Base16 =>
      assert x[0] == Octet(n);
      OneOctet(n);
  }

  lemma OneOctet(n: bv40)
    requires n < 0x100
    ensures Octet(n) as bv40 == n
  {
  }

  lemma ThreeOctets(n: bv40)
    requires n < 0x1000000
    ensures Three(Octet(n >> 16), Octet(n >> 8), Octet(n)) == n
  {
  }

  lemma FiveOctets(n: bv40)
    ensures Five(Octet(n >> 32), Octet(n >> 24), Octet(n >> 16), Octet(n >> 8), Octet(n)) == n
  {
  }

  lemma NumberOfDigits(base: Base, n: bv40)
    requires Fits(base, n)
    ensures OfDigits(base, ToDigits(base, n)) == n
  {
    var c := ToDigits(base, n);
    match base
    case Base64 =>
      FourSextets(n);
      assert c[0] == Sextet(n >> 18) && c[1] == Sextet(n >> 12) && c[2] == Sextet(n >> 6) && c[3] == Sextet(n);
    case Base32 =>
      EightQuintets(n);
      assert c[0] == Quintet(n >> 35) && c[1] == Quintet(n >> 30) && c[2] == Quintet(n >> 25);
      assert c[3] == Quintet(n >> 20) && c[4] == Quintet(n >> 15) && c[5] == Quintet(n >> 10);
      assert c[6] == Quintet(n >> 5) && c[7] == Quintet(n);
    case Base16 =>
      assert c[0] == Nibble(n >> 4) && c[1] == Nibble(n);
      TwoNibbles(n);
  }

  lemma TwoNibbles(n: bv40)
    requires n < 0x100
    ensures Two(Nibble(n >> 4), Nibble(n)) == n
  {
  }

  lemma FourSextets(n: bv40)
    requires n < 0x1000000
    ensures Four(Sextet(n >> 18), Sextet(n >> 12), Sextet(n >> 6), Sextet(n)) == n
  {
  }

  lemma EightQuintets(n: bv40)
    ensures Eight(Quintet(n >> 35), Quintet(n >> 30), Quintet(n >> 25), Quintet(n >> 20),
        Quintet(n >> 15), Quintet(n >> 10), Quintet(n >> 5), Quintet(n)) == n
  {
  }

  // ---- encoding ----

  /** The first `n` bytes of `x`, where bytes beyond its end are zero. */
  ghost function Filled(x: seq<byte>, n: nat): (r: seq<byte>)
    ensures |r| == n
  {
    seq(n, i => if 0 <= i < |x| then x[i] else 0)
  }

  ghost function Pads(n: nat): (r: seq<byte>)
    ensures |r| == n
  {
    seq(n, _ => PADDING)
  }

  ghost function Letters(base: Base, codes: seq<byte>): (r: seq<byte>)
    requires Digits(base, codes)
    ensures |r| == |codes|
  {
    seq(|codes|, i requires 0 <= i < |codes| => Char(base, codes[i]))
  }

  /** The text of a group that holds `n` octets: as many characters as they reach into, then padding. */
  ghost function Spelled(base: Base, d: seq<byte>, n: nat): (t: seq<byte>)
    requires |d| == Chars(base) && Digits(base, d) && 1 <= n <= Octets(base)
    ensures |t| == Chars(base)
  {
    Letters(base, d[..Reach(base, n)]) + Pads(Chars(base) - Reach(base, n))
  }

  ghost function EncodeGroup(base: Base, x: seq<byte>): (r: seq<byte>)
    requires 1 <= |x| <= Octets(base)
    ensures |r| == Chars(base)
  {
    Spelled(base, ToDigits(base, OfOctets(base, Filled(x, Octets(base)))), |x|)
  }

  ghost function Taken(base: Base, x: seq<byte>): (n: nat)
    ensures n <= |x| && n <= Octets(base) && (x != [] ==> n > 0)
  {
    if |x| < Octets(base) then |x| else Octets(base)
  }

  ghost function Encode(base: Base, x: seq<byte>): (r: seq<byte>)
    ensures Whole(base, r)
  {
    if x == [] then []
    else EncodeGroup(base, x[..Taken(base, x)]) + Encode(base, x[Taken(base, x)..])
  }

  // ---- decoding ----

  ghost predicate Whole(base: Base, t: seq<byte>) {
    match base case Base64 => |t| % 4 == 0 case Base32 => |t| % 8 == 0 case Base16 => |t| % 2 == 0
  }

  ghost predicate AllLetters(base: Base, t: seq<byte>) {
    forall i :: 0 <= i < |t| ==> Code(base, t[i]) != INVALID
  }

  ghost predicate AllPads(t: seq<byte>) {
    forall i :: 0 <= i < |t| ==> t[i] == PADDING
  }

  ghost function Codes(base: Base, t: seq<byte>): (r: seq<byte>)
    ensures |r| == |t| && forall i :: 0 <= i < |t| ==> r[i] == Code(base, t[i])
  {
    seq(|t|, i requires 0 <= i < |t| => Code(base, t[i]))
  }

  /** The octets a last group holds: the first padding character met where one may stand decides. */
  ghost function Held(base: Base, t: seq<byte>): (n: nat)
    requires |t| == Chars(base)
    ensures 1 <= n <= Octets(base)
  {
    match base
    case Base64 => if t[2] == PADDING then 1 else if t[3] == PADDING then 2 else 3
    case Base32 =>
      if t[2] == PADDING then 1 else if t[4] == PADDING then 2
      else if t[5] == PADDING then 3 else if t[7] == PADDING then 4 else 5
    case Base16 => 1
  }

  /** The text of `n` octets: letters, then padding. */
  ghost predicate LegalGroup(base: Base, t: seq<byte>, n: nat)
    requires |t| == Chars(base) && 1 <= n <= Octets(base)
  {
    AllLetters(base, t[..Reach(base, n)]) && AllPads(t[Reach(base, n)..])
  }

  /** The digits of a group that holds `n` octets. */
  ghost function Read(base: Base, t: seq<byte>, n: nat): (d: seq<byte>)
    requires |t| == Chars(base) && 1 <= n <= Octets(base)
    ensures |d| == Chars(base)
  {
    Filled(Codes(base, t[..Reach(base, n)]), Chars(base))
  }

  /** The octets of a group, of which `n` are data. */
  ghost function DecodeGroup(base: Base, t: seq<byte>, n: nat): (r: seq<byte>)
    requires |t| == Chars(base) && 1 <= n <= Octets(base)
    ensures |r| == Octets(base)
  {
    ToOctets(base, OfDigits(base, Read(base, t, n)))
  }

  ghost function Join(front: seq<byte>, r: Result<seq<byte>>): (joined: Result<seq<byte>>)
    ensures joined.Ok? <==> r.Ok?
  {
    if r.Ok? then Ok(front + r.value) else r
  }

  lemma WholeGroups(base: Base, t: seq<byte>)
    requires Whole(base, t) && t != []
    ensures |t| >= Chars(base) && Whole(base, t[Chars(base)..])
  {
  }

  ghost function DecodeGroups(base: Base, t: seq<byte>): (r: Result<seq<byte>>)
    requires Whole(base, t)
    ensures r.Err? ==> r.error == InvalidByte
    decreases |t|
  {
    if t == [] then Ok([])
    else
      WholeGroups(base, t);
      DecodeOne(base, t[..Chars(base)], t[Chars(base)..] == [], DecodeGroups(base, t[Chars(base)..]))
  }

  /** A group before the result of decoding what follows it; only a last one may be padded. */
  ghost function DecodeOne(base: Base, g: seq<byte>, last: bool, rest: Result<seq<byte>>): (r: Result<seq<byte>>)
    requires |g| == Chars(base)
    ensures rest.Err? && rest.error == InvalidByte && r.Err? ==> r.error == InvalidByte
    ensures rest.Ok? && r.Err? ==> r.error == InvalidByte
  {
    var n := if last then Held(base, g) else Octets(base);
    if LegalGroup(base, g, n) then Join(DecodeGroup(base, g, n)[..n], rest) else Err(InvalidByte)
  }

  ghost function Decode(base: Base, t: seq<byte>): (r: Result<seq<byte>>) {
    if Whole(base, t) then DecodeGroups(base, t) else Err(InvalidLength)
  }

  /** Accepted texts: whole groups of letters, but for the padding of a last group. */
  ghost predicate Legal(base: Base, t: seq<byte>) {
    Whole(base, t) && exists n :: 1 <= n <= Octets(base) && PaddedFor(base, t, n)
  }

  ghost predicate PaddedFor(base: Base, t: seq<byte>, n: nat)
    requires 1 <= n <= Octets(base)
  {
    var p := Chars(base) - Reach(base, n);
    p <= |t| && AllLetters(base, t[..|t| - p]) && AllPads(t[|t| - p..])
  }

  /** The bits of the last group that stand for no octet are zero. */
  ghost predicate Canonical(base: Base, t: seq<byte>)
    requires Whole(base, t)
  {
    t == [] || var g := t[|t| - Chars(base)..]; CanonicalGroup(base, g, Held(base, g))
  }

  ghost predicate CanonicalGroup(base: Base, g: seq<byte>, n: nat)
    requires |g| == Chars(base) && 1 <= n <= Octets(base)
  {
    n == Octets(base) || Code(base, g[Reach(base, n) - 1]) & Unused(base, n) == 0
  }

  function Unused(base: Base, n: nat): (mask: byte) {
    match base
    case Base64 => if n == 1 then 0xF else 3
    case Base32 => if n == 1 then 3 else if n == 2 then 0xF else if n == 3 then 1 else 7
    case Base16 => 0
  }

  /** What a decoder reports; `memory` says whether the allocator grants it a buffer. */
  ghost function Outcome(base: Base, t: seq<byte>, memory: bool): (error: Option<Error>) {
    if !Whole(base, t) then Some(InvalidLength)
    else if !memory then Some(OutOfMemory)
    else if Decode(base, t).Ok? then None else Some(InvalidByte)
  }

  // ---- what the decoders leave in their buffer ----

  /** The data; where the last group was padded, the bits left over and a NUL; and a NUL at the very end. */
  ghost predicate Buffered(base: Base, buffer: seq<byte>, t: seq<byte>)
    requires Decode(base, t).Ok?
  {
    var d := Decode(base, t).value;
    && |buffer| == |t| / Chars(base) * Octets(base) + 1
    && |d| < |buffer| && d <= buffer && buffer[|buffer| - 1] == 0
    && (buffer[|d|] == 0 <==> Canonical(base, t))
    && (buffer[|d|] == 0 || (|d| + 1 < |buffer| && buffer[|d| + 1] == 0))
  }
}
