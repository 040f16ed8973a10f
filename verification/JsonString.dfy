/** JSON strings: escapes, their decoding and their encoding. */
module JsonString {
  import opened Common
  import opened Unicode
  import Utf8

  const QUOTE: byte := 0x22
  const BACKSLASH: byte := 0x5C

  predicate IsHex(b: byte) {
    0x30 <= b <= 0x39 || 0x41 <= b <= 0x46 || 0x61 <= b <= 0x66
  }

  function HexValue(b: byte): nat
    requires IsHex(b)
  {
    if b <= 0x39 then b - 0x30 else if b <= 0x46 then b - 55 else b - 87
  }

  /** `\" \\ \/ \b \f \n \r \t`. */
  function SimpleEscape(b: byte): Option<byte> {
    if b == QUOTE || b == BACKSLASH || b == 0x2F then Some(b)
    else if b == 0x62 then Some(8)
    else if b == 0x66 then Some(12)
    else if b == 0x6E then Some(10)
    else if b == 0x72 then Some(13)
    else if b == 0x74 then Some(9)
    else None
  }

  predicate IsUnicodeEscape(s: bytes) {
    |s| >= 6 && s[0] == BACKSLASH && s[1] == 0x75 && IsHex(s[2]) && IsHex(s[3]) && IsHex(s[4]) && IsHex(s[5])
  }

  function UnicodeEscape(s: bytes): nat
    requires IsUnicodeEscape(s)
  {
    ((HexValue(s[2]) * 16 + HexValue(s[3])) * 16 + HexValue(s[4])) * 16 + HexValue(s[5])
  }

  predicate IsPlain(b: byte) {
    b >= 0x20 && b != QUOTE && b != BACKSLASH
  }

  /** What may stand between the quotes of a string (RFC 8259, section 7). */
  predicate IsBody(s: bytes) {
    if s == [] then true
    else if IsPlain(s[0]) then IsBody(s[1..])
    else if s[0] == BACKSLASH && |s| >= 2 && SimpleEscape(s[1]).Some? then IsBody(s[2..])
    else IsUnicodeEscape(s) && IsBody(s[6..])
  }

  function Prepend(p: bytes, o: Option<bytes>): Option<bytes> {
    match o
    case None => None
    case Some(s) => Some(p + s)
  }

  /** Replace escapes. A surrogate must come in a pair, high half first. */
  function Replace(s: bytes): Option<bytes>
    decreases |s|
  {
    if s == [] then Some([])
    else if IsPlain(s[0]) then Prepend([s[0]], Replace(s[1..]))
    else if s[0] == BACKSLASH && |s| >= 2 && SimpleEscape(s[1]).Some? then
      Prepend([SimpleEscape(s[1]).value], Replace(s[2..]))
    else if !IsUnicodeEscape(s) then None
    else
      var u := UnicodeEscape(s);
      if 0xD800 <= u < 0xDC00 then
        if !IsUnicodeEscape(s[6..]) then None
        else
          var v := UnicodeEscape(s[6..]);
          if 0xDC00 <= v < 0xE000 then
            Prepend(EncodeScalar(0x10000 + (u - 0xD800) * 0x400 + (v - 0xDC00)), Replace(s[12..]))
          else None
      else if 0xDC00 <= u < 0xE000 then None
      else if u < 0x110000 then Prepend(EncodeScalar(u), Replace(s[6..]))
      else None
  }

  /** The string between the quotes, as the library decodes it into a `String`. */
  function Unescape(body: bytes): Option<bytes> {
    match Replace(body)
    case Some(s) => if Utf8.Valid(s) then Some(s) else None
    case None => None
  }

  function HexDigit(n: nat): byte
    requires n < 16
  {
    if n < 10 then 0x30 + n else 0x57 + n
  }

  function EscapeByte(b: byte): bytes {
    if b == QUOTE || b == BACKSLASH then [BACKSLASH, b]
    else if b == 8 then [BACKSLASH, 0x62]
    else if b == 9 then [BACKSLASH, 0x74]
    else if b == 10 then [BACKSLASH, 0x6E]
    else if b == 12 then [BACKSLASH, 0x66]
    else if b == 13 then [BACKSLASH, 0x72]
    else if b < 0x20 then [BACKSLASH, 0x75, 0x30, 0x30, HexDigit(b / 16), HexDigit(b % 16)]
    else [b]
  }

  /** The body that `serde_json::to_string` writes for a string. */
  function Escape(s: bytes): bytes {
    if s == [] then [] else EscapeByte(s[0]) + Escape(s[1..])
  }

  function Quoted(body: bytes): bytes {
    [QUOTE] + body + [QUOTE]
  }

  lemma PlainReplaced(b: byte, rest: bytes)
    requires IsPlain(b)
    ensures Replace([b] + rest) == Prepend([b], Replace(rest)) && IsBody([b] + rest) == IsBody(rest)
  {
    assert ([b] + rest)[1..] == rest;
  }

  lemma SimpleReplaced(c: byte, b: byte, rest: bytes)
    requires SimpleEscape(c) == Some(b)
    ensures Replace([BACKSLASH, c] + rest) == Prepend([b], Replace(rest))
    ensures IsBody([BACKSLASH, c] + rest) == IsBody(rest)
  {
    assert ([BACKSLASH, c] + rest)[2..] == rest;
  }

  lemma UnicodeReplaced(e: bytes, b: byte, rest: bytes)
    requires |e| == 6 && IsUnicodeEscape(e) && UnicodeEscape(e) == b < 0x80
    ensures Replace(e + rest) == Prepend([b], Replace(rest)) && IsBody(e + rest) == IsBody(rest)
  {
    var s := e + rest;
    assert s[6..] == rest && UnicodeEscape(s) == b;
  }

  lemma EscapeByteReplaced(b: byte, rest: bytes)
    ensures Replace(EscapeByte(b) + rest) == Prepend([b], Replace(rest))
    ensures IsBody(EscapeByte(b) + rest) == IsBody(rest)
  {
    hide Replace, IsBody;
    var e := EscapeByte(b);
    if IsPlain(b) {
      PlainReplaced(b, rest);
    } else if |e| == 2 {
      SimpleReplaced(e[1], b, rest);
    } else {
      UnicodeReplaced(e, b, rest);
    }
  }

  /** Escaping is undone by decoding, for every byte string. */
  lemma {:induction false} EscapeReplaced(s: bytes)
    ensures Replace(Escape(s)) == Some(s) && IsBody(Escape(s))
  {
    if s != [] {
      EscapeReplaced(s[1..]);
      EscapeByteReplaced(s[0], Escape(s[1..]));
      assert s == [s[0]] + s[1..];
    }
  }

  lemma EscapeRoundTrip(s: bytes)
    requires Utf8.Valid(s)
    ensures IsBody(Escape(s)) && Unescape(Escape(s)) == Some(s)
  {
    EscapeReplaced(s);
  }

  /** Only the empty body decodes to the empty string. */
  lemma UnescapeEmpty(body: bytes)
    ensures Unescape(body) == Some([]) <==> body == []
  {
  }

  lemma {:induction false} UnescapePlain(s: bytes)
    requires forall i :: 0 <= i < |s| ==> IsPlain(s[i])
    ensures Replace(s) == Some(s) && IsBody(s)
    decreases |s|
  {
    if s != [] {
      UnescapePlain(s[1..]);
      assert s == [s[0]] + s[1..];
    }
  }

  lemma {:induction false} EscapeConcat(s: bytes, t: bytes)
    ensures Escape(s + t) == Escape(s) + Escape(t)
    decreases |s|
  {
    hide EscapeByte;
    if s == [] {
      assert s + t == t;
    } else {
      EscapeConcat(s[1..], t);
      assert (s + t)[1..] == s[1..] + t;
    }
  }

  lemma {:induction false} EscapeHigh(s: bytes)
    requires forall i :: 0 <= i < |s| ==> s[i] >= 0x80
    ensures Escape(s) == s
    decreases |s|
  {
    if s != [] { EscapeHigh(s[1..]); }
  }

  lemma EscapeByteValid(b: byte)
    requires b < 0x80
    ensures Utf8.Valid(EscapeByte(b))
  {
    var e := EscapeByte(b);
    assert |e| == 1 || |e| == 2 || |e| == 6;
    Utf8.ValidAscii(e);
  }

  lemma CharBytesHigh(c: bytes)
    requires c != [] && Utf8.FirstChar(c) == Utf8.Complete(|c|) && |c| > 1
    ensures forall i :: 0 <= i < |c| ==> c[i] >= 0x80
  {
    assert |c| == 2 || |c| == 3 || |c| == 4;
  }

  lemma EscapeCharValid(c: bytes)
    requires c != [] && Utf8.FirstChar(c) == Utf8.Complete(|c|)
    ensures Utf8.Valid(Escape(c))
  {
    if |c| == 1 {
      EscapeByteValid(c[0]);
      assert Escape([]) == [];
      assert Escape(c) == EscapeByte(c[0]);
    } else {
      CharBytesHigh(c);
      EscapeHigh(c);
      assert c[|c|..] == [];
    }
  }

  /** Escaping touches single-byte characters only. */
  lemma {:induction false} EscapeValid(s: bytes)
    requires Utf8.Valid(s)
    ensures Utf8.Valid(Escape(s))
    decreases |s|
  {
    if s != [] {
      var n := Utf8.FirstChar(s).len;
      var c, t := s[..n], s[n..];
      assert s == c + t && c[0] == s[0];
      assert Utf8.FirstChar(c) == Utf8.FirstChar(s);
      EscapeCharValid(c);
      EscapeValid(t);
      EscapeConcat(c, t);
      Utf8.ValidConcat(Escape(c), Escape(t));
    }
  }
}
