/** The standard alphabet with canonical padding, section 4 of RFC 4648. */
module Base64 {
  import opened Common

  const PAD: byte := 0x3D

  type sextet = n: nat | n < 64

  function Char(n: sextet): byte {
    if n < 26 then 65 + n else if n < 52 then 71 + n else if n < 62 then n - 4 else if n == 62 then 0x2B else 0x2F
  }

  function Value(c: byte): Option<sextet> {
    if 65 <= c <= 90 then Some(c - 65)
    else if 97 <= c <= 122 then Some(c - 71)
    else if 48 <= c <= 57 then Some(c + 4)
    else if c == 0x2B then Some(62)
    else if c == 0x2F then Some(63)
    else None
  }

  function Encode(s: bytes): bytes {
    if s == [] then []
    else if |s| == 1 then [Char(s[0] / 4), Char(s[0] % 4 * 16), PAD, PAD]
    else if |s| == 2 then [Char(s[0] / 4), Char(s[0] % 4 * 16 + s[1] / 16), Char(s[1] % 16 * 4), PAD]
    else Group(s[0], s[1], s[2]) + Encode(s[3..])
  }

  function Group(a: byte, b: byte, c: byte): bytes {
    [Char(a / 4), Char(a % 4 * 16 + b / 16), Char(b % 16 * 4 + c / 64), Char(c % 64)]
  }

  /** The bytes of four characters, the last of which may be padding. */
  function Ungroup(p: byte, q: byte, r: byte, t: byte, last: bool): Option<bytes> {
    if Value(p).None? || Value(q).None? then None
    else
      var (a, b) := (Value(p).value, Value(q).value);
      if last && r == PAD && t == PAD then
        if b % 16 == 0 then Some([a * 4 + b / 16]) else None
      else if Value(r).None? then None
      else
        var c := Value(r).value;
        if last && t == PAD then
          if c % 4 == 0 then Some([a * 4 + b / 16, b % 16 * 16 + c / 4]) else None
        else if Value(t).None? then None
        else Some([a * 4 + b / 16, b % 16 * 16 + c / 4, c % 4 * 64 + Value(t).value])
  }

  /** Decoding as the library does it: padding is demanded, and unused bits must be zero. */
  function Decode(s: bytes): Option<bytes> {
    if s == [] then Some([])
    else if |s| < 4 then None
    else
      match (Ungroup(s[0], s[1], s[2], s[3], |s| == 4), Decode(s[4..]))
      case (Some(x), Some(y)) => Some(x + y)
      case _ => None
  }

  lemma CharValue(n: sextet)
    ensures Value(Char(n)) == Some(n) && Char(n) != PAD
  {
  }

  lemma ValueChar(c: byte)
    ensures Value(c).Some? ==> Char(Value(c).value) == c
  {
  }

  lemma GroupUngrouped(a: byte, b: byte, c: byte, last: bool)
    ensures var g := Group(a, b, c); Ungroup(g[0], g[1], g[2], g[3], last) == Some([a, b, c])
  {
    hide Char, Value;
    CharValue(a / 4);
    CharValue(a % 4 * 16 + b / 16);
    CharValue(b % 16 * 4 + c / 64);
    CharValue(c % 64);
  }

  lemma {:induction false} RoundTrip(s: bytes)
    ensures Decode(Encode(s)) == Some(s)
    decreases |s|
  {
    hide Char, Value, Ungroup, Group;
    if s == [] {
    } else if |s| == 1 {
      OneRoundTrip(s[0]);
      assert s == [s[0]];
    } else if |s| == 2 {
      TwoRoundTrip(s[0], s[1]);
      assert s == [s[0], s[1]];
    } else {
      RoundTrip(s[3..]);
      var g, t := Group(s[0], s[1], s[2]), Encode(s[3..]);
      GroupLength(s[0], s[1], s[2]);
      GroupUngrouped(s[0], s[1], s[2], |g + t| == 4);
      assert (g + t)[4..] == t;
      assert s == [s[0], s[1], s[2]] + s[3..];
    }
  }

  lemma GroupLength(a: byte, b: byte, c: byte)
    ensures |Group(a, b, c)| == 4
  {
  }

  lemma OneUngrouped(a: byte)
    ensures Ungroup(Char(a / 4), Char(a % 4 * 16), PAD, PAD, true) == Some([a])
  {
    hide Char, Value;
    CharValue(a / 4);
    CharValue(a % 4 * 16);
  }

  lemma TwoUngrouped(a: byte, b: byte)
    ensures Ungroup(Char(a / 4), Char(a % 4 * 16 + b / 16), Char(b % 16 * 4), PAD, true) == Some([a, b])
  {
    hide Char, Value;
    CharValue(a / 4);
    CharValue(a % 4 * 16 + b / 16);
    CharValue(b % 16 * 4);
  }

  lemma DecodeLast(s: bytes, x: bytes)
    requires |s| == 4 && Ungroup(s[0], s[1], s[2], s[3], true) == Some(x)
    ensures Decode(s) == Some(x)
  {
    hide Ungroup;
    assert s[4..] == [] && Decode(s[4..]) == Some([]);
    assert x + [] == x;
  }

  lemma OneRoundTrip(a: byte)
    ensures Decode(Encode([a])) == Some([a])
  {
    hide Char, Value, Ungroup, Decode;
    OneUngrouped(a);
    DecodeLast([Char(a / 4), Char(a % 4 * 16), PAD, PAD], [a]);
  }

  lemma TwoRoundTrip(a: byte, b: byte)
    ensures Decode(Encode([a, b])) == Some([a, b])
  {
    hide Char, Value, Ungroup, Decode;
    TwoUngrouped(a, b);
    DecodeLast([Char(a / 4), Char(a % 4 * 16 + b / 16), Char(b % 16 * 4), PAD], [a, b]);
  }

  lemma UngroupCanonical(p: byte, q: byte, r: byte, t: byte, last: bool)
    requires Ungroup(p, q, r, t, last).Some?
    ensures var x := Ungroup(p, q, r, t, last).value;
      1 <= |x| <= 3 && Encode(x) == [p, q, r, t] && (|x| < 3 ==> last)
  {
    hide Char, Value, Encode;
    ValueChar(p);
    ValueChar(q);
    ValueChar(r);
    ValueChar(t);
    var (a, b) := (Value(p).value, Value(q).value);
    if last && r == PAD && t == PAD {
      EncodeOne(a, b);
    } else if last && t == PAD {
      EncodeTwo(a, b, Value(r).value);
    } else {
      EncodeThree(a, b, Value(r).value, Value(t).value);
    }
  }

  lemma EncodeOne(a: sextet, b: sextet)
    requires b % 16 == 0
    ensures Encode([a * 4 + b / 16]) == [Char(a), Char(b), PAD, PAD]
  {
    hide Char;
  }

  lemma EncodeTwo(a: sextet, b: sextet, c: sextet)
    requires c % 4 == 0
    ensures Encode([a * 4 + b / 16, b % 16 * 16 + c / 4]) == [Char(a), Char(b), Char(c), PAD]
  {
    hide Char;
    var (x, y) := (a * 4 + b / 16, b % 16 * 16 + c / 4);
    assert x / 4 == a && x % 4 * 16 + y / 16 == b && y % 16 * 4 == c;
  }

  lemma EncodeThree(a: sextet, b: sextet, c: sextet, d: sextet)
    ensures Encode([a * 4 + b / 16, b % 16 * 16 + c / 4, c % 4 * 64 + d]) == [Char(a), Char(b), Char(c), Char(d)]
  {
    hide Char;
    var (x, y, z) := (a * 4 + b / 16, b % 16 * 16 + c / 4, c % 4 * 64 + d);
    assert x / 4 == a && x % 4 * 16 + y / 16 == b && y % 16 * 4 + z / 64 == c && z % 64 == d;
    assert [x, y, z][3..] == [];
  }

  /** Only one text decodes to given bytes: decoding accepts nothing but what encoding writes. */
  lemma {:induction false} Canonical(s: bytes)
    requires Decode(s).Some?
    ensures Encode(Decode(s).value) == s
    decreases |s|
  {
    hide Char, Value, Ungroup, Group;
    if s != [] {
      var x, y := Ungroup(s[0], s[1], s[2], s[3], |s| == 4).value, Decode(s[4..]).value;
      Canonical(s[4..]);
      UngroupCanonical(s[0], s[1], s[2], s[3], |s| == 4);
      assert s == [s[0], s[1], s[2], s[3]] + s[4..];
      if |s| == 4 {
        assert s[4..] == [] && x + y == x;
      } else {
        EncodeConcat(x, y);
      }
    }
  }

  lemma EncodeConcat(x: bytes, y: bytes)
    requires |x| == 3
    ensures Encode(x + y) == Encode(x) + Encode(y)
  {
    hide Group;
    assert (x + y)[3..] == y && x[3..] == [];
    assert Encode(x[3..]) == [];
  }

  /** The characters that encoding writes. */
  predicate IsBase64Char(c: byte) {
    c == PAD || Value(c).Some?
  }

  lemma {:induction false} EncodeChars(s: bytes)
    ensures forall i :: 0 <= i < |Encode(s)| ==> IsBase64Char(Encode(s)[i])
    ensures s != [] ==> Encode(s) != []
    decreases |s|
  {
    hide Char, Value;
    forall n: sextet ensures Value(Char(n)).Some? { CharValue(n); }
    if |s| >= 3 { EncodeChars(s[3..]); }
  }

  // ---------- against the standard ----------

  const UPPER: bytes := Ascii("ABCDEFGHIJKLMNOPQRSTUVWXYZ")
  const LOWER: bytes := Ascii("abcdefghijklmnopqrstuvwxyz")
  const OTHER: bytes := Ascii("0123456789+/")

  lemma LettersAt(n: nat)
    requires n < 26
    ensures UPPER[n] == 65 + n && LOWER[n] == 97 + n
  {
  }

  lemma OtherAt(n: nat)
    requires n < 12
    ensures OTHER[n] == if n < 10 then 48 + n else if n == 10 then 0x2B else 0x2F
  {
  }

  /** The alphabet of table 1. */
  lemma AlphabetExact(c: byte, n: sextet)
    ensures Char(n) == (UPPER + LOWER + OTHER)[n]
    ensures Value(c) == Some(n) <==> c == (UPPER + LOWER + OTHER)[n]
    ensures PAD == Ascii("=")[0]
  {
    CharValue(n);
    ValueChar(c);
    if n < 26 { LettersAt(n); } else if n < 52 { LettersAt(n - 26); } else { OtherAt(n - 52); }
    assert |UPPER| == |LOWER| == 26;
    hide UPPER, LOWER, OTHER, Value;
  }

  /** Three bytes are four characters whose values make the same number, the most significant bits first. */
  lemma GroupNumber(a: byte, b: byte, c: byte)
    ensures var g := Group(a, b, c);
      && Value(g[0]).Some? && Value(g[1]).Some? && Value(g[2]).Some? && Value(g[3]).Some?
      && var q: seq<nat> := [Value(g[0]).value, Value(g[1]).value, Value(g[2]).value, Value(g[3]).value];
         var s: seq<nat> := [a, b, c];
         ((q[0] * 64 + q[1]) * 64 + q[2]) * 64 + q[3] == (s[0] * 256 + s[1]) * 256 + s[2]
  {
    hide Char, Value;
    CharValue(a / 4);
    CharValue(a % 4 * 16 + b / 16);
    CharValue(b % 16 * 4 + c / 64);
    CharValue(c % 64);
  }

  /** One or two last bytes are filled up with zero bits, and the characters left out are padding. */
  lemma TailPadded(a: byte, b: byte)
    ensures Encode([a]) == Group(a, 0, 0)[..2] + [PAD, PAD]
    ensures Encode([a, b]) == Group(a, b, 0)[..3] + [PAD]
  {
    hide Char;
  }

  lemma EncodeGroups(a: byte, b: byte, c: byte, rest: bytes)
    ensures Encode([]) == [] && Encode([a, b, c] + rest) == Group(a, b, c) + Encode(rest)
  {
    hide Group;
    assert ([a, b, c] + rest)[3..] == rest;
  }
}
