/**
 The ways in which RFC 8259 lets a string be written, character by character,
 and that decoding reads exactly these.
 */
module JsonSpelling {
  import opened Common
  import opened Unicode
  import opened JsonString
  import Utf8

  // ---------- hexadecimal ----------

  const LOWER: string := "0123456789abcdef"
  const UPPER: string := "0123456789ABCDEF"

  predicate IsDigitFor(b: byte, d: nat)
    requires d < 16
  {
    b == Ascii(LOWER)[d] || b == Ascii(UPPER)[d]
  }

  /** The four digits of a number below 2^16. */
  predicate SpellsHex(s: bytes, u: nat) {
    && |s| == 4 && u < 0x10000
    && IsDigitFor(s[0], u / 0x1000) && IsDigitFor(s[1], u / 0x100 % 16)
    && IsDigitFor(s[2], u / 16 % 16) && IsDigitFor(s[3], u % 16)
  }

  lemma HexDigitExact(b: byte, d: nat)
    requires d < 16
    ensures IsDigitFor(b, d) <==> IsHex(b) && HexValue(b) == d
  {
  }

  lemma Digits16(a: nat, b: nat, c: nat, d: nat)
    requires a < 16 && b < 16 && c < 16 && d < 16
    ensures var u := ((a * 16 + b) * 16 + c) * 16 + d;
      u < 0x10000 && u / 0x1000 == a && u / 0x100 % 16 == b && u / 16 % 16 == c && u % 16 == d
  {
  }

  lemma Digits16Of(u: nat)
    requires u < 0x10000
    ensures u == ((u / 0x1000 * 16 + u / 0x100 % 16) * 16 + u / 16 % 16) * 16 + u % 16 && u / 0x1000 < 16
  {
  }

  const ESCAPE_U: bytes := [BACKSLASH, 0x75]

  lemma HexRead(s: bytes, u: nat)
    requires |s| >= 6 && s[..2] == ESCAPE_U
    ensures SpellsHex(s[2..6], u) <==> IsUnicodeEscape(s) && UnicodeEscape(s) == u
  {
    hide IsHex, HexValue, IsDigitFor;
    var t := s[2..6];
    assert s[0] == s[..2][0] && s[1] == s[..2][1];
    assert t[0] == s[2] && t[1] == s[3] && t[2] == s[4] && t[3] == s[5];
    if SpellsHex(t, u) {
      Digits16Of(u);
      HexDigitExact(t[0], u / 0x1000);
      HexDigitExact(t[1], u / 0x100 % 16);
      HexDigitExact(t[2], u / 16 % 16);
      HexDigitExact(t[3], u % 16);
    }
    if IsUnicodeEscape(s) && UnicodeEscape(s) == u {
      var (a, b, c, d) := (HexValue(s[2]), HexValue(s[3]), HexValue(s[4]), HexValue(s[5]));
      HexBelow(s[2]); HexBelow(s[3]); HexBelow(s[4]); HexBelow(s[5]);
      Digits16(a, b, c, d);
      HexDigitExact(s[2], a);
      HexDigitExact(s[3], b);
      HexDigitExact(s[4], c);
      HexDigitExact(s[5], d);
    }
  }

  lemma HexBelow(b: byte)
    requires IsHex(b)
    ensures HexValue(b) < 16
  {
  }

  // ---------- the spellings of one character ----------

  /** The letters that stand for characters behind a backslash, and those characters. */
  const LETTERS: bytes := Ascii("\"\\/bfnrt")
  const MEANT: bytes := [0x22, 0x5C, 0x2F, 8, 12, 10, 13, 9]

  predicate SpellsPlain(t: bytes, c: scalar) {
    c >= 0x20 && c != QUOTE && c != BACKSLASH && t == EncodeScalar(c)
  }

  predicate SpellsLetter(t: bytes, c: scalar) {
    |t| == 2 && t[0] == BACKSLASH && exists i :: 0 <= i < 8 && t[1] == LETTERS[i] && c == MEANT[i]
  }

  predicate SpellsUnit(t: bytes, c: scalar) {
    |t| == 6 && t[..2] == ESCAPE_U && SpellsHex(t[2..6], c)
  }

  predicate SpellsPair(t: bytes, c: scalar) {
    && c >= 0x10000 && |t| == 12 && t[..2] == ESCAPE_U && t[6..8] == ESCAPE_U
    && SpellsHex(t[2..6], 0xD800 + (c - 0x10000) / 0x400) && SpellsHex(t[8..12], 0xDC00 + (c - 0x10000) % 0x400)
  }

  /** A character as itself, behind a backslash, or by its number in one or two escapes. */
  predicate Spells(t: bytes, c: scalar) {
    SpellsPlain(t, c) || SpellsLetter(t, c) || SpellsUnit(t, c) || SpellsPair(t, c)
  }

  lemma LetterExact(b: byte, c: byte)
    ensures SimpleEscape(b) == Some(c) <==> exists i :: 0 <= i < 8 && b == LETTERS[i] && c == MEANT[i]
  {
    assert LETTERS == [0x22, 0x5C, 0x2F, 0x62, 0x66, 0x6E, 0x72, 0x74];
    if SimpleEscape(b) == Some(c) {
      var i := if b == 0x22 then 0 else if b == 0x5C then 1 else if b == 0x2F then 2 else if b == 0x62 then 3
               else if b == 0x66 then 4 else if b == 0x6E then 5 else if b == 0x72 then 6 else 7;
      assert b == LETTERS[i] && c == MEANT[i];
    }
  }

  ghost predicate ReadsAs(t: bytes, c: scalar, rest: bytes) {
    Replace(t + rest) == Prepend(EncodeScalar(c), Replace(rest)) && IsBody(t + rest) == IsBody(rest)
  }

  lemma {:induction false} HighBytesRead(t: bytes, rest: bytes)
    requires forall i :: 0 <= i < |t| ==> IsPlain(t[i])
    ensures Replace(t + rest) == Prepend(t, Replace(rest)) && IsBody(t + rest) == IsBody(rest)
    decreases |t|
  {
    hide IsPlain, Replace, IsBody;
    if t == [] {
      assert t + rest == rest;
      if Replace(rest).Some? { assert [] + Replace(rest).value == Replace(rest).value; }
    } else {
      HighBytesRead(t[1..], rest);
      PlainReplaced(t[0], t[1..] + rest);
      assert [t[0]] + (t[1..] + rest) == t + rest;
      if Replace(rest).Some? { assert [t[0]] + (t[1..] + Replace(rest).value) == t + Replace(rest).value; }
    }
  }

  lemma PlainRead(t: bytes, c: scalar, rest: bytes)
    requires SpellsPlain(t, c)
    ensures ReadsAs(t, c, rest)
  {
    PlainBytes(t, c);
    hide IsPlain, Replace, IsBody;
    HighBytesRead(t, rest);
  }

  lemma PlainBytes(t: bytes, c: scalar)
    requires SpellsPlain(t, c)
    ensures forall i :: 0 <= i < |t| ==> IsPlain(t[i])
  {
  }

  lemma LetterRead(t: bytes, c: scalar, rest: bytes)
    requires SpellsLetter(t, c)
    ensures ReadsAs(t, c, rest)
  {
    hide Replace, IsBody, SimpleEscape, LETTERS;
    LetterExact(t[1], c);
    SimpleReplaced(t[1], c, rest);
    assert t == [BACKSLASH, t[1]];
  }

  lemma UnitRead(t: bytes, c: scalar, rest: bytes)
    requires SpellsUnit(t, c)
    ensures ReadsAs(t, c, rest)
  {
    hide IsHex, HexValue, SpellsHex, EncodeScalar;
    var s := t + rest;
    assert s[..2] == t[..2] && s[2..6] == t[2..6] && s[6..] == rest;
    HexRead(s, c);
    assert s[1] == s[..2][1];
  }

  lemma Surrogates(c: nat)
    requires 0x10000 <= c < 0x110000
    ensures var u, v := 0xD800 + (c - 0x10000) / 0x400, 0xDC00 + (c - 0x10000) % 0x400;
      0xD800 <= u < 0xDC00 <= v < 0xE000 && 0x10000 + (u - 0xD800) * 0x400 + (v - 0xDC00) == c
  {
  }

  lemma SurrogatesOf(u: nat, v: nat)
    requires 0xD800 <= u < 0xDC00 <= v < 0xE000
    ensures var c := 0x10000 + (u - 0xD800) * 0x400 + (v - 0xDC00);
      0x10000 <= c < 0x110000 && u == 0xD800 + (c - 0x10000) / 0x400 && v == 0xDC00 + (c - 0x10000) % 0x400
  {
  }

  lemma EscapeBody(s: bytes)
    requires IsUnicodeEscape(s)
    ensures IsBody(s) == IsBody(s[6..])
  {
  }

  lemma PairReplaced(s: bytes, c: scalar)
    requires IsUnicodeEscape(s) && IsUnicodeEscape(s[6..])
    requires 0xD800 <= UnicodeEscape(s) < 0xDC00 <= UnicodeEscape(s[6..]) < 0xE000
    requires c == 0x10000 + (UnicodeEscape(s) - 0xD800) * 0x400 + (UnicodeEscape(s[6..]) - 0xDC00)
    ensures Replace(s) == Prepend(EncodeScalar(c), Replace(s[12..]))
  {
    hide IsHex, HexValue, UnicodeEscape, EncodeScalar;
  }

  lemma PairRead(t: bytes, c: scalar, rest: bytes)
    requires SpellsPair(t, c)
    ensures ReadsAs(t, c, rest)
  {
    hide IsUnicodeEscape, UnicodeEscape, SpellsHex, EncodeScalar, Replace, IsBody;
    var s := t + rest;
    assert s[..2] == t[..2] && s[2..6] == t[2..6] && s[12..] == rest;
    assert s[6..][..2] == t[6..8] && s[6..][2..6] == t[8..12] && s[6..][6..] == rest;
    Surrogates(c);
    HexRead(s, 0xD800 + (c - 0x10000) / 0x400);
    HexRead(s[6..], 0xDC00 + (c - 0x10000) % 0x400);
    EscapeBody(s);
    EscapeBody(s[6..]);
    PairReplaced(s, c);
  }

  lemma CharacterRead(t: bytes, c: scalar, rest: bytes)
    requires Spells(t, c)
    ensures ReadsAs(t, c, rest)
  {
    hide ReadsAs, SpellsPlain, SpellsLetter, SpellsUnit, SpellsPair;
    if SpellsPlain(t, c) { PlainRead(t, c, rest); }
    if SpellsLetter(t, c) { LetterRead(t, c, rest); }
    if SpellsUnit(t, c) { UnitRead(t, c, rest); }
    if SpellsPair(t, c) { PairRead(t, c, rest); }
  }

  // ---------- whole strings ----------

  function Flat(ts: seq<bytes>): bytes {
    if ts == [] then [] else ts[0] + Flat(ts[1..])
  }

  predicate SpellsAll(ts: seq<bytes>, cs: seq<scalar>) {
    |ts| == |cs| && forall i :: 0 <= i < |ts| ==> Spells(ts[i], cs[i])
  }

  lemma {:induction false} StringRead(ts: seq<bytes>, cs: seq<scalar>)
    requires SpellsAll(ts, cs)
    ensures IsBody(Flat(ts)) && Replace(Flat(ts)) == Some(EncodeAll(cs))
  {
    hide Replace, IsBody, Spells;
    NothingRead();
    if ts != [] {
      StringRead(ts[1..], cs[1..]);
      CharacterRead(ts[0], cs[0], Flat(ts[1..]));
    }
  }

  lemma NothingRead()
    ensures IsBody([]) && Replace([]) == Some([])
  {
  }

  // ---------- no other strings ----------

  lemma ValidRest(c: scalar, rest: bytes)
    requires Utf8.Valid(EncodeScalar(c) + rest)
    ensures Utf8.Valid(rest)
  {
    hide EncodeScalar, Utf8.Scan, Utf8.FirstChar;
    var s := EncodeScalar(c) + rest;
    Utf8.EncodedChar(c, rest);
    Utf8.ScanStep(s);
    assert s[|EncodeScalar(c)|..] == rest;
  }

  lemma PlainStood(body: bytes, s: bytes)
    requires Replace(body) == Some(s) && body != [] && IsPlain(body[0])
    ensures s != [] && s[0] == body[0] && Replace(body[1..]) == Some(s[1..])
  {
  }

  /** A continuation byte in the decoded text has stood there as it is. */
  lemma ContinuationStood(body: bytes, s: bytes)
    requires Replace(body) == Some(s) && s != [] && Utf8.IsContinuation(s[0])
    ensures body != [] && IsPlain(body[0]) && body[0] == s[0] && Replace(body[1..]) == Some(s[1..])
  {
    hide Replace, IsPlain, Spells, EncodeScalar;
    NothingRead();
    if !IsPlain(body[0]) {
      var t, c := EscapeFront(body, s);
      LeadByte(c);
    }
    PlainStood(body, s);
  }

  lemma LeadByte(c: scalar)
    ensures !Utf8.IsContinuation(EncodeScalar(c)[0])
  {
  }

  /** The continuation bytes of a character that starts with a plain byte have stood behind it. */
  lemma {:induction false} CharacterStood(body: bytes, s: bytes, n: nat)
    requires Replace(body) == Some(s) && 1 <= n <= |s| && body != [] && IsPlain(body[0])
    requires forall i :: 1 <= i < n ==> Utf8.IsContinuation(s[i])
    ensures n <= |body| && body[..n] == s[..n] && Replace(body[n..]) == Some(s[n..])
    decreases n
  {
    hide Replace, IsPlain;
    PlainStood(body, s);
    if n > 1 {
      ContinuationStood(body[1..], s[1..]);
      CharacterStood(body[1..], s[1..], n - 1);
      assert body[1..][..n - 1] == body[1..n] && s[1..][..n - 1] == s[1..n];
      assert body[1..][n - 1..] == body[n..] && s[1..][n - 1..] == s[n..];
      assert body[..n] == [body[0]] + body[1..n] && s[..n] == [s[0]] + s[1..n];
    } else {
      assert body[..1] == [body[0]] && s[..1] == [s[0]];
    }
  }

  lemma Continuations(s: bytes)
    requires s != [] && Utf8.FirstChar(s).Complete?
    ensures var n := Utf8.FirstChar(s).len; forall i :: 1 <= i < n ==> Utf8.IsContinuation(s[i])
  {
  }

  /** The spelling at the front of a body, and what it leaves. */
  ghost predicate Front(body: bytes, s: bytes, t: bytes, c: scalar) {
    && t != [] && t <= body && Spells(t, c)
    && Replace(body[|t|..]).Some? && s == EncodeScalar(c) + Replace(body[|t|..]).value
  }

  lemma PlainFront(body: bytes, s: bytes) returns (t: bytes, c: scalar)
    requires Replace(body) == Some(s) && body != [] && IsPlain(body[0]) && Utf8.Valid(s)
    ensures Front(body, s, t, c)
  {
    hide Replace, Utf8.Scan, Utf8.FirstChar, EncodeScalar, SpellsLetter, SpellsUnit, SpellsPair;
    PlainStood(body, s);
    Utf8.ScanStep(s);
    var n := Utf8.FirstChar(s).len;
    Continuations(s);
    c := Utf8.CompleteChar(s);
    CharacterStood(body, s, n);
    t := body[..n];
    assert s == s[..n] + s[n..];
    FirstPlain(c);
  }

  lemma FirstPlain(c: scalar)
    requires IsPlain(EncodeScalar(c)[0])
    ensures c >= 0x20 && c != QUOTE && c != BACKSLASH
  {
  }

  lemma EscapeFront(body: bytes, s: bytes) returns (t: bytes, c: scalar)
    requires Replace(body) == Some(s) && body != [] && !IsPlain(body[0])
    ensures Front(body, s, t, c)
  {
    hide IsHex, HexValue, SpellsHex, LETTERS;
    if body[0] == BACKSLASH && |body| >= 2 && SimpleEscape(body[1]).Some? {
      t, c := body[..2], SimpleEscape(body[1]).value;
      SmallScalar(body[1]);
      LetterExact(body[1], c);
      assert t[1] == body[1];
    } else if UnicodeEscape(body) < 0xD800 || UnicodeEscape(body) >= 0xE000 {
      t, c := body[..6], UnicodeEscape(body);
      HexRead(body, c);
      assert t[..2] == body[..2] == ESCAPE_U && t[2..6] == body[2..6];
    } else {
      var u, v := UnicodeEscape(body), UnicodeEscape(body[6..]);
      t, c := body[..12], 0x10000 + (u - 0xD800) * 0x400 + (v - 0xDC00);
      SurrogatesOf(u, v);
      HexRead(body, u);
      HexRead(body[6..], v);
      assert t[..2] == body[..2] == ESCAPE_U && t[2..6] == body[2..6];
      assert t[6..8] == body[6..][..2] == ESCAPE_U && t[8..12] == body[6..][2..6];
    }
  }

  lemma SmallScalar(b: byte)
    requires SimpleEscape(b).Some?
    ensures SimpleEscape(b).value < 0x80
  {
  }

  lemma {:induction false} StringSpelled(body: bytes) returns (ts: seq<bytes>, cs: seq<scalar>)
    requires Replace(body).Some? && Utf8.Valid(Replace(body).value)
    ensures SpellsAll(ts, cs) && body == Flat(ts) && Replace(body).value == EncodeAll(cs)
    decreases |body|
  {
    hide Replace, IsPlain, Spells, Utf8.Scan, EncodeScalar;
    var s := Replace(body).value;
    if body == [] {
      NothingRead();
      ts, cs := [], [];
    } else {
      var t, c;
      if IsPlain(body[0]) { t, c := PlainFront(body, s); } else { t, c := EscapeFront(body, s); }
      var rest := body[|t|..];
      ValidRest(c, Replace(rest).value);
      var texts, scalars := StringSpelled(rest);
      ts, cs := [t] + texts, [c] + scalars;
      assert body == t + rest && ts[1..] == texts && cs[1..] == scalars;
    }
  }

  /** Exactly the strings that spell the characters of a text decode to it. */
  lemma StringExact(body: bytes, s: bytes)
    ensures Unescape(body) == Some(s) <==>
      exists ts, cs :: SpellsAll(ts, cs) && body == Flat(ts) && s == EncodeAll(cs)
  {
    hide Replace, SpellsAll, Flat, EncodeAll, Utf8.Scan;
    if Unescape(body) == Some(s) { var ts, cs := StringSpelled(body); }
    if exists ts, cs :: SpellsAll(ts, cs) && body == Flat(ts) && s == EncodeAll(cs) {
      var ts, cs :| SpellsAll(ts, cs) && body == Flat(ts) && s == EncodeAll(cs);
      StringRead(ts, cs);
      Utf8.EncodedValid(cs);
    }
  }

  /** What decodes is a string of the grammar. */
  lemma DecodedIsBody(body: bytes)
    requires Unescape(body).Some?
    ensures IsBody(body)
  {
    hide Replace, IsBody, SpellsAll, Flat, EncodeAll, Utf8.Scan;
    var ts, cs := StringSpelled(body);
    StringRead(ts, cs);
  }
}
