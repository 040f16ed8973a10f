/** Section 6 of RFC 4648, upper case, without padding. */
module Base32 {
  import opened Common

  type quintet = n: nat | n < 32

  function Char(n: quintet): byte {
    if n < 26 then 65 + n else 24 + n
  }

  function Value(c: byte): Option<quintet> {
    if 65 <= c <= 90 then Some(c - 65) else if 50 <= c <= 55 then Some(c - 24) else None
  }

  /** Five bytes as eight numbers. */
  function Spread(a: byte, b: byte, c: byte, d: byte, e: byte): seq<quintet> {
    [a / 8, a % 8 * 4 + b / 64, b % 64 / 2, b % 2 * 16 + c / 16,
     c % 16 * 2 + d / 128, d % 128 / 4, d % 4 * 8 + e / 32, e % 32]
  }

  function First(x: quintet, y: quintet): byte {
    var n: nat := x; n * 8 + y / 4
  }

  function Second(x: quintet, y: quintet, z: quintet): byte {
    var n: nat := x % 4; var m: nat := y; n * 64 + m * 2 + z / 16
  }

  function Third(x: quintet, y: quintet): byte {
    var n: nat := x % 16; n * 16 + y / 2
  }

  function Fourth(x: quintet, y: quintet, z: quintet): byte {
    var n: nat := x % 2; var m: nat := y; n * 128 + m * 4 + z / 8
  }

  function Fifth(x: quintet, y: quintet): byte {
    var n: nat := x % 8; n * 32 + y
  }

  /** Eight numbers as five bytes. */
  function Gather(q: seq<quintet>): bytes
    requires |q| == 8
  {
    [First(q[0], q[1]), Second(q[1], q[2], q[3]), Third(q[3], q[4]), Fourth(q[4], q[5], q[6]), Fifth(q[6], q[7])]
  }

  /** The number of characters for the bytes of a last, incomplete group. */
  function TailChars(n: nat): nat {
    if n == 1 then 2 else if n == 2 then 4 else if n == 3 then 5 else if n == 4 then 7 else 0
  }

  function TailBytes(n: nat): nat {
    if n == 2 then 1 else if n == 4 then 2 else if n == 5 then 3 else if n == 7 then 4 else 0
  }

  function Chars(q: seq<quintet>): bytes {
    if q == [] then [] else [Char(q[0])] + Chars(q[1..])
  }

  function Values(s: bytes): Option<seq<quintet>> {
    if s == [] then Some([])
    else
      match (Value(s[0]), Values(s[1..]))
      case (Some(v), Some(vs)) => Some([v] + vs)
      case _ => None
  }

  const ZEROS: bytes := [0, 0, 0, 0, 0]

  /** How five bytes become eight numbers, and back. */
  datatype Grouping = Grouping(spread: bytes -> seq<quintet>, gather: seq<quintet> -> bytes)

  function Standard(): Grouping {
    Grouping(
      (s: bytes) => if |s| == 5 then Spread(s[0], s[1], s[2], s[3], s[4]) else [],
      (q: seq<quintet>) => if |q| == 8 then Gather(q) else [])
  }

  function Take<T>(s: seq<T>, n: nat): seq<T> {
    if n <= |s| then s[..n] else s
  }

  /** All bytes as numbers below 32, the last group filled up with zero bits. */
  function Quintets(g: Grouping, s: bytes): seq<quintet> {
    if s == [] then []
    else if |s| < 5 then Take(g.spread(s + ZEROS[|s|..]), TailChars(|s|))
    else g.spread(s[..5]) + Quintets(g, s[5..])
  }

  const ZERO_QUINTETS: seq<quintet> := [0, 0, 0, 0, 0, 0, 0, 0]

  /** The bytes in a number sequence; the bits that fill up the last group must be zero. */
  function Bytes(g: Grouping, q: seq<quintet>): Option<bytes> {
    if q == [] then Some([])
    else if |q| < 8 then
      var n := TailBytes(|q|);
      var s := g.gather(q + ZERO_QUINTETS[|q|..]);
      if n == 0 || |s| != 5 || s[n..] != ZEROS[n..] then None else Some(s[..n])
    else
      match Bytes(g, q[8..])
      case None => None
      case Some(s) => Some(g.gather(q[..8]) + s)
  }

  function Encode(g: Grouping, s: bytes): bytes {
    Chars(Quintets(g, s))
  }

  function Decode(g: Grouping, s: bytes): Option<bytes> {
    match Values(s)
    case None => None
    case Some(q) => Bytes(g, q)
  }

  lemma {:induction false} CharsValues(q: seq<quintet>)
    ensures Values(Chars(q)) == Some(q) && |Chars(q)| == |q|
  {
    if q != [] {
      CharsValues(q[1..]);
      assert q == [q[0]] + q[1..];
    }
  }

  lemma {:induction false} ValuesChars(s: bytes)
    requires Values(s).Some?
    ensures Chars(Values(s).value) == s
  {
    if s != [] {
      ValuesChars(s[1..]);
      assert s == [s[0]] + s[1..];
    }
  }

  /** The upper and the lower part of a number. */
  lemma Parts(high: nat, low: nat)
    ensures low < 2 ==> (high * 2 + low) / 2 == high && (high * 2 + low) % 2 == low
    ensures low < 4 ==> (high * 4 + low) / 4 == high && (high * 4 + low) % 4 == low
    ensures low < 8 ==> (high * 8 + low) / 8 == high && (high * 8 + low) % 8 == low
    ensures low < 16 ==> (high * 16 + low) / 16 == high && (high * 16 + low) % 16 == low
    ensures low < 32 ==> (high * 32 + low) / 32 == high && (high * 32 + low) % 32 == low
    ensures low < 64 ==> (high * 64 + low) / 64 == high && (high * 64 + low) % 64 == low
    ensures low < 128 ==> (high * 128 + low) / 128 == high && (high * 128 + low) % 128 == low
  {
  }

  lemma FirstOf(a: byte, b: byte)
    ensures First(a / 8, a % 8 * 4 + b / 64) == a
  {
  }

  lemma SecondOf(a: byte, b: byte, c: byte)
    ensures Second(a % 8 * 4 + b / 64, b % 64 / 2, b % 2 * 16 + c / 16) == b
  {
    Parts(a % 8, b / 64);
    Parts(b % 2, c / 16);
    assert b == b / 64 * 64 + b % 64 / 2 * 2 + b % 2;
  }

  lemma ThirdOf(b: byte, c: byte, d: byte)
    ensures Third(b % 2 * 16 + c / 16, c % 16 * 2 + d / 128) == c
  {
    Parts(b % 2, c / 16);
    Parts(c % 16, d / 128);
    assert c == c / 16 * 16 + c % 16;
  }

  lemma FourthOf(c: byte, d: byte, e: byte)
    ensures Fourth(c % 16 * 2 + d / 128, d % 128 / 4, d % 4 * 8 + e / 32) == d
  {
    Parts(c % 16, d / 128);
    Parts(d % 4, e / 32);
    assert d == d / 128 * 128 + d % 128 / 4 * 4 + d % 4;
  }

  lemma FifthOf(d: byte, e: byte)
    ensures Fifth(d % 4 * 8 + e / 32, e % 32) == e
  {
  }

  lemma SpreadGather(a: byte, b: byte, c: byte, d: byte, e: byte)
    ensures Gather(Spread(a, b, c, d, e)) == [a, b, c, d, e]
  {
    hide First, Second, Third, Fourth, Fifth;
    FirstOf(a, b);
    SecondOf(a, b, c);
    ThirdOf(b, c, d);
    FourthOf(c, d, e);
    FifthOf(d, e);
  }

  lemma Halves(p: quintet, q: quintet, r: quintet, t: quintet)
    ensures First(p, q) / 8 == p && First(p, q) % 8 * 4 + Second(q, r, t) / 64 == q
    ensures Second(q, r, t) % 64 / 2 == r
  {
  }

  lemma SecondLow(q: quintet, r: quintet, t: quintet)
    ensures Second(q, r, t) % 2 == t / 16
  {
  }

  lemma ThirdParts(t: quintet, u: quintet)
    ensures Third(t, u) / 16 == t % 16 && Third(t, u) % 16 == u / 2
  {
  }

  lemma FourthHigh(u: quintet, v: quintet, w: quintet)
    ensures Fourth(u, v, w) / 128 == u % 2
  {
    Parts(u % 2, v * 4 + w / 8);
  }

  lemma FourthMiddle(u: quintet, v: quintet, w: quintet)
    ensures Fourth(u, v, w) % 128 / 4 == v && Fourth(u, v, w) % 4 == w / 8
  {
    Parts(u % 2, v * 4 + w / 8);
    Parts(u % 2 * 32 + v, w / 8);
    Parts(v, w / 8);
  }

  lemma FifthParts(w: quintet, x: quintet)
    ensures Fifth(w, x) / 32 == w % 8 && Fifth(w, x) % 32 == x
  {
  }

  lemma GatherSpread(q: seq<quintet>)
    requires |q| == 8
    ensures var s := Gather(q); |s| == 5 && Spread(s[0], s[1], s[2], s[3], s[4]) == q
  {
    hide First, Second, Third, Fourth, Fifth;
    Halves(q[0], q[1], q[2], q[3]);
    SecondLow(q[1], q[2], q[3]);
    ThirdParts(q[3], q[4]);
    FourthHigh(q[4], q[5], q[6]);
    FourthMiddle(q[4], q[5], q[6]);
    FifthParts(q[6], q[7]);
  }

  // ---------- whole texts ----------

  ghost predicate Spreads(g: Grouping, s: bytes) {
    |g.spread(s)| == 8 && g.gather(g.spread(s)) == s
  }

  ghost predicate Gathers(g: Grouping, q: seq<quintet>) {
    |g.gather(q)| == 5 && g.spread(g.gather(q)) == q
  }

  /** The characters that are left out stand for zero bits. */
  ghost predicate EndsZero(g: Grouping, s: bytes)
    requires |s| < 5
  {
    var q, k := g.spread(s + ZEROS[|s|..]), TailChars(|s|);
    |q| == 8 && q[k..] == ZERO_QUINTETS[k..]
  }

  ghost predicate Inverse(g: Grouping) {
    && (forall s: bytes :: |s| == 5 ==> Spreads(g, s))
    && (forall q: seq<quintet> :: |q| == 8 ==> Gathers(g, q))
    && (forall s: bytes :: 1 <= |s| <= 4 ==> EndsZero(g, s))
  }

  lemma SpreadZeros(a: byte, b: byte, c: byte, d: byte)
    ensures Spread(a, 0, 0, 0, 0)[2..] == ZERO_QUINTETS[2..]
    ensures Spread(a, b, 0, 0, 0)[4..] == ZERO_QUINTETS[4..]
    ensures Spread(a, b, c, 0, 0)[5..] == ZERO_QUINTETS[5..]
    ensures Spread(a, b, c, d, 0)[7..] == ZERO_QUINTETS[7..]
  {
  }

  lemma StandardEndsZero(s: bytes)
    requires 1 <= |s| <= 4
    ensures EndsZero(Standard(), s)
  {
    hide Gather, Spread;
    var t := s + ZEROS[|s|..];
    SpreadZeros(t[0], t[1], t[2], t[3]);
    SpreadLength(t[0], t[1], t[2], t[3], t[4]);
  }

  lemma SpreadLength(a: byte, b: byte, c: byte, d: byte, e: byte)
    ensures |Spread(a, b, c, d, e)| == 8
  {
  }

  lemma StandardSpreads(s: bytes)
    requires |s| == 5
    ensures Spreads(Standard(), s)
  {
    hide Gather;
    SpreadGather(s[0], s[1], s[2], s[3], s[4]);
    assert s == [s[0], s[1], s[2], s[3], s[4]];
  }

  lemma StandardGathers(q: seq<quintet>)
    requires |q| == 8
    ensures Gathers(Standard(), q)
  {
    hide Gather, Spread;
    GatherSpread(q);
  }

  lemma StandardInverse()
    ensures Inverse(Standard())
  {
    hide Standard, Spreads, Gathers, EndsZero;
    forall s: bytes | |s| == 5 ensures Spreads(Standard(), s) { StandardSpreads(s); }
    forall q: seq<quintet> | |q| == 8 ensures Gathers(Standard(), q) { StandardGathers(q); }
    forall s: bytes | 1 <= |s| <= 4 ensures EndsZero(Standard(), s) { StandardEndsZero(s); }
  }

  lemma BytesTail(g: Grouping, p: seq<quintet>, q: seq<quintet>, t: bytes, n: nat)
    requires 0 < |p| < 8 && q == p + ZERO_QUINTETS[|p|..] && t == g.gather(q)
    requires n == TailBytes(|p|) && 0 < n <= |t| == 5 && t[n..] == ZEROS[n..]
    ensures Bytes(g, p) == Some(t[..n])
  {
  }

  lemma TailBack(g: Grouping, s: bytes)
    requires 1 <= |s| <= 4 && EndsZero(g, s) && Spreads(g, s + ZEROS[|s|..])
    ensures Bytes(g, Quintets(g, s)) == Some(s) && Quintets(g, s) != []
  {
    hide Bytes;
    var t, k := s + ZEROS[|s|..], TailChars(|s|);
    var q := g.spread(t);
    assert q[..k] + ZERO_QUINTETS[k..] == q;
    assert t[..|s|] == s && t[|s|..] == ZEROS[|s|..];
    BytesTail(g, q[..k], q, t, |s|);
  }

  lemma QuintetsStep(g: Grouping, p: bytes, s: bytes)
    requires |p| == 5
    ensures Quintets(g, p + s) == g.spread(p) + Quintets(g, s)
  {
    assert (p + s)[..5] == p && (p + s)[5..] == s;
  }

  lemma BytesStep(g: Grouping, p: seq<quintet>, q: seq<quintet>)
    requires |p| == 8
    ensures Bytes(g, p + q) == match Bytes(g, q) case None => None case Some(s) => Some(g.gather(p) + s)
  {
    assert (p + q)[..8] == p && (p + q)[8..] == q;
  }

  lemma InverseGives(g: Grouping, s: bytes, q: seq<quintet>)
    requires Inverse(g)
    ensures |s| == 5 ==> Spreads(g, s)
    ensures |q| == 8 ==> Gathers(g, q)
    ensures 1 <= |s| <= 4 ==> EndsZero(g, s)
  {
  }

  lemma NothingBack(g: Grouping)
    ensures Quintets(g, []) == [] && Bytes(g, []) == Some([])
  {
  }

  lemma SpreadsGives(g: Grouping, s: bytes)
    requires Spreads(g, s)
    ensures |g.spread(s)| == 8 && g.gather(g.spread(s)) == s
  {
  }

  lemma {:induction false} QuintetsBytes(g: Grouping, s: bytes)
    requires Inverse(g)
    ensures Bytes(g, Quintets(g, s)) == Some(s) && (s != [] ==> Quintets(g, s) != [])
    decreases |s|
  {
    hide Inverse, Bytes, Quintets, Spreads, EndsZero;
    if s == [] {
      NothingBack(g);
    } else if |s| < 5 {
      InverseGives(g, s, []);
      InverseGives(g, s + ZEROS[|s|..], []);
      TailBack(g, s);
    } else {
      InverseGives(g, s[..5], []);
      SpreadsGives(g, s[..5]);
      QuintetsBytes(g, s[5..]);
      assert s == s[..5] + s[5..];
      QuintetsStep(g, s[..5], s[5..]);
      BytesStep(g, g.spread(s[..5]), Quintets(g, s[5..]));
    }
  }

  /** Decoding undoes encoding. */
  lemma RoundTrip(g: Grouping, s: bytes)
    requires Inverse(g)
    ensures Decode(g, Encode(g, s)) == Some(s) && (s != [] ==> Encode(g, s) != [])
  {
    hide Inverse, Bytes, Quintets;
    CharsValues(Quintets(g, s));
    QuintetsBytes(g, s);
  }

  lemma TailForth(g: Grouping, q: seq<quintet>)
    requires 0 < |q| < 8 && Bytes(g, q).Some? && Gathers(g, q + ZERO_QUINTETS[|q|..])
    ensures Quintets(g, Bytes(g, q).value) == q
  {
    var full := q + ZERO_QUINTETS[|q|..];
    var n, s := TailBytes(|q|), g.gather(full);
    assert s[..n] + ZEROS[n..] == s && |s[..n]| == n && TailChars(n) == |q|;
    assert full[..|q|] == q;
  }

  lemma GathersGives(g: Grouping, q: seq<quintet>)
    requires Gathers(g, q)
    ensures |g.gather(q)| == 5 && g.spread(g.gather(q)) == q
  {
  }

  lemma {:induction false} BytesQuintets(g: Grouping, q: seq<quintet>)
    requires Inverse(g) && Bytes(g, q).Some?
    ensures Quintets(g, Bytes(g, q).value) == q
    decreases |q|
  {
    hide Inverse, Bytes, Quintets, Gathers;
    if q == [] {
      NothingBack(g);
    } else if |q| < 8 {
      InverseGives(g, [], q + ZERO_QUINTETS[|q|..]);
      TailForth(g, q);
    } else {
      InverseGives(g, [], q[..8]);
      GathersGives(g, q[..8]);
      assert q == q[..8] + q[8..];
      BytesStep(g, q[..8], q[8..]);
      BytesQuintets(g, q[8..]);
      QuintetsStep(g, g.gather(q[..8]), Bytes(g, q[8..]).value);
    }
  }

  /** Decoding accepts nothing but what encoding writes. */
  lemma Canonical(g: Grouping, s: bytes)
    requires Inverse(g) && Decode(g, s).Some?
    ensures Encode(g, Decode(g, s).value) == s
  {
    hide Inverse, Bytes, Quintets;
    ValuesChars(s);
    BytesQuintets(g, Values(s).value);
  }

  lemma {:induction false} EncodedChars(q: seq<quintet>)
    ensures forall b :: b in Chars(q) ==> 65 <= b <= 90 || 50 <= b <= 55
  {
    if q != [] { EncodedChars(q[1..]); }
  }

  // ---------- against the standard ----------

  const ALPHABET: string := "ABCDEFGHIJKLMNOPQRSTUVWXYZ234567"

  /** The alphabet of table 3. */
  lemma AlphabetExact(c: byte, n: quintet)
    ensures Char(n) == Ascii(ALPHABET)[n]
    ensures Value(c) == Some(n) <==> c == Ascii(ALPHABET)[n]
  {
  }

  /** Five bytes and eight quintets are one number, the most significant bits first. */
  lemma SpreadNumber(a: byte, b: byte, c: byte, d: byte, e: byte)
    ensures var q: seq<nat> := Spread(a, b, c, d, e);
      var s: seq<nat> := [a, b, c, d, e];
      (((((((q[0] * 32 + q[1]) * 32 + q[2]) * 32 + q[3]) * 32 + q[4]) * 32 + q[5]) * 32 + q[6]) * 32) + q[7]
        == (((s[0] * 256 + s[1]) * 256 + s[2]) * 256 + s[3]) * 256 + s[4]
  {
    assert a == a / 8 * 8 + a % 8;
    assert b == b / 64 * 64 + b % 64 / 2 * 2 + b % 2;
    assert c == c / 16 * 16 + c % 16;
    assert d == d / 128 * 128 + d % 128 / 4 * 4 + d % 4;
    assert e == e / 32 * 32 + e % 32;
  }
}
