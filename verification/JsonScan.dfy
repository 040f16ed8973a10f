/**
 The byte scanner: what each of its loops computes, on any bytes, and what that
 is on well-formed text.
 */
module JsonScan {
  import opened Common
  import opened JsonString
  import opened JsonGrammar

  // ---------- what the loops compute ----------

  function SpaceLen(s: bytes): (n: nat)
    ensures n <= |s|
  {
    if s == [] || !IsSpaceByte(s[0]) then 0 else 1 + SpaceLen(s[1..])
  }

  /** The bytes up to and including the closing quote. */
  function BodyLen(s: bytes, escaped: bool): (n: Option<nat>)
    ensures n.Some? ==> 1 <= n.value <= |s|
  {
    if s == [] then None
    else if escaped then Plus(1, BodyLen(s[1..], false))
    else if s[0] == BACKSLASH then Plus(1, BodyLen(s[1..], true))
    else if s[0] == QUOTE then Some(1)
    else Plus(1, BodyLen(s[1..], false))
  }

  function StringLen(s: bytes): (n: Option<nat>)
    ensures n.Some? ==> 2 <= n.value <= |s|
  {
    if s == [] || s[0] != QUOTE then None else Plus(1, BodyLen(s[1..], false))
  }

  predicate IsOpen(b: byte) {
    b == 0x7B || b == 0x5B
  }

  predicate IsClose(b: byte) {
    b == 0x7D || b == 0x5D
  }

  /** The bytes up to and including the bracket that brings the depth back to zero. */
  function NestLen(s: bytes, depth: nat, inString: bool, escaped: bool): (n: Option<nat>)
    ensures n.Some? ==> 1 <= n.value <= |s|
    decreases |s|
  {
    if s == [] then None
    else if inString then
      if escaped then Plus(1, NestLen(s[1..], depth, true, false))
      else if s[0] == BACKSLASH then Plus(1, NestLen(s[1..], depth, true, true))
      else if s[0] == QUOTE then Plus(1, NestLen(s[1..], depth, false, false))
      else Plus(1, NestLen(s[1..], depth, true, false))
    else if s[0] == QUOTE then Plus(1, NestLen(s[1..], depth, true, escaped))
    else if IsOpen(s[0]) then Plus(1, NestLen(s[1..], depth + 1, false, escaped))
    else if IsClose(s[0]) then
      if depth == 0 then None
      else if depth == 1 then Some(1)
      else Plus(1, NestLen(s[1..], depth - 1, false, escaped))
    else Plus(1, NestLen(s[1..], depth, false, escaped))
  }

  predicate EndsScalar(b: byte) {
    b == COMMA || b == 0x7D
  }

  function ScalarSpan(s: bytes): (n: nat)
    ensures n <= |s|
  {
    if s == [] || EndsScalar(s[0]) then 0 else 1 + ScalarSpan(s[1..])
  }

  function TrimmedLen(s: bytes): (n: nat)
    ensures n <= |s|
  {
    if s != [] && IsSpaceByte(s[|s| - 1]) then TrimmedLen(s[..|s| - 1]) else |s|
  }

  function ValueLen(s: bytes): (n: Option<nat>)
    ensures n.Some? ==> 1 <= n.value <= |s|
  {
    if s == [] then None
    else if s[0] == QUOTE then StringLen(s)
    else if IsOpen(s[0]) then NestLen(s, 0, false, false)
    else
      var n := TrimmedLen(s[..ScalarSpan(s)]);
      if n > 0 then Some(n) else None
  }

  /** One member of the outermost object: its decoded key and the place of its value. */
  datatype Span = Span(key: bytes, start: nat, end: nat)

  function PrependSpan(p: Span, o: Option<seq<Span>>): Option<seq<Span>> {
    match o
    case None => None
    case Some(s) => Some([p] + s)
  }

  type Decoder = bytes -> Option<bytes>

  /** The decoded key at the front of s, and the length of the string token. */
  function KeyOf(decode: Decoder, s: bytes): (r: Option<(bytes, nat)>)
    ensures r.Some? ==> 2 <= r.value.1 <= |s|
  {
    match StringLen(s)
    case None => None
    case Some(n) =>
      match decode(s[1..n - 1])
      case None => None
      case Some(key) => Some((key, n))
  }

  /** The length of a colon and the space on both sides of it. */
  function ColonLen(s: bytes): (n: Option<nat>)
    ensures n.Some? ==> 1 <= n.value <= |s|
  {
    var c := SpaceLen(s);
    if c == |s| || s[c] != COLON then None else Some(c + 1 + SpaceLen(s[c + 1..]))
  }

  /** The length of a value, alone and with the space after it. */
  function ValueAndSpaceLen(s: bytes): (r: Option<(nat, nat)>)
    ensures r.Some? ==> 1 <= r.value.0 <= r.value.1 <= |s|
  {
    match ValueLen(s)
    case None => None
    case Some(n) => Some((n, n + SpaceLen(s[n..])))
  }

  /** The token readers that the member loop is made of. */
  datatype Lexer = Lexer(key: bytes -> Option<(bytes, nat)>, colon: bytes -> Option<nat>, value: bytes -> Option<(nat, nat)>)

  function JsonLexer(decode: Decoder): Lexer {
    Lexer((s: bytes) => KeyOf(decode, s), (s: bytes) => ColonLen(s), (s: bytes) => ValueAndSpaceLen(s))
  }

  function Drop(s: bytes, n: nat): bytes {
    if n <= |s| then s[n..] else []
  }

  /** The member at the front of s, which stands at `offset` in the text, and its length. */
  function MemberOf(lexer: Lexer, s: bytes, offset: nat): Option<(Span, nat)> {
    match lexer.key(s)
    case None => None
    case Some((key, k)) =>
      match lexer.colon(Drop(s, k))
      case None => None
      case Some(c) =>
        match lexer.value(Drop(s, k + c))
        case None => None
        case Some((n, w)) => Some((Span(key, offset + k + c, offset + k + c + n), k + c + w))
  }

  /** What reads one member at the front of some bytes at some offset. */
  type Reader = (bytes, nat) -> Option<(Span, nat)>

  function JsonReader(decode: Decoder): Reader {
    (s: bytes, offset: nat) => MemberOf(JsonLexer(decode), s, offset)
  }

  /** All members in s, up to the closing brace of the outermost object. */
  function SpansFrom(read: Reader, s: bytes, offset: nat): Option<seq<Span>>
    decreases |s|
  {
    var i := SpaceLen(s);
    if i == |s| then None
    else if s[i] == 0x7D then Some([])
    else
      match read(s[i..], offset + i)
      case None => None
      case Some((span, n)) =>
        if i + n >= |s| then None
        else if s[i + n] == COMMA then PrependSpan(span, SpansFrom(read, s[i + n + 1..], offset + i + n + 1))
        else if s[i + n] == 0x7D then Some([span])
        else None
  }

  function Spans(read: Reader, raw: bytes): Option<seq<Span>> {
    var i := SpaceLen(raw);
    if i == |raw| || raw[i] != 0x7B then None else SpansFrom(read, raw[i + 1..], i + 1)
  }

  /** The members with a given key. */
  function Matching(spans: seq<Span>, field: bytes): seq<Span> {
    if spans == [] then []
    else (if spans[0].key == field then [spans[0]] else []) + Matching(spans[1..], field)
  }

  // ---------- on well-formed text ----------

  lemma {:induction false} SpaceSkipped(w: bytes, rest: bytes)
    requires IsSpace(w)
    ensures SpaceLen(w + rest) == |w| + SpaceLen(rest)
    decreases |w|
  {
    if w == [] {
      assert w + rest == rest;
    } else {
      SpaceSkipped(w[1..], rest);
      assert (w + rest)[1..] == w[1..] + rest;
    }
  }

  lemma BodyLenUnit(u: bytes, rest: bytes)
    requires (|u| == 1 && IsPlain(u[0])) || (|u| == 2 && u[0] == BACKSLASH)
    ensures BodyLen(u + rest, false) == Plus(|u|, BodyLen(rest, false))
  {
    assert (u + rest)[1..] == u[1..] + rest;
    if |u| == 2 { assert (u[1..] + rest)[1..] == rest; } else { assert u[1..] + rest == rest; }
  }

  lemma BodyLenPlain4(a: byte, b: byte, c: byte, d: byte, rest: bytes)
    requires IsPlain(a) && IsPlain(b) && IsPlain(c) && IsPlain(d)
    ensures BodyLen([a, b, c, d] + rest, false) == Plus(4, BodyLen(rest, false))
  {
    BodyLenUnit([d], rest);
    BodyLenUnit([c], [d] + rest);
    BodyLenUnit([b], [c] + ([d] + rest));
    BodyLenUnit([a], [b] + ([c] + ([d] + rest)));
    assert [a, b, c, d] + rest == [a] + ([b] + ([c] + ([d] + rest)));
  }

  /** The length of the first character or escape of a string body. */
  function UnitLen(body: bytes): nat
    requires body != []
  {
    if IsPlain(body[0]) then 1 else if |body| >= 2 && SimpleEscape(body[1]).Some? then 2 else 6
  }

  lemma BodyUnit(body: bytes)
    requires IsBody(body) && body != []
    ensures var n := UnitLen(body);
      && n <= |body| && IsBody(body[n..])
      && (n == 1 ==> IsPlain(body[0])) && (n > 1 ==> body[0] == BACKSLASH)
      && (n == 6 ==> IsPlain(body[2]) && IsPlain(body[3]) && IsPlain(body[4]) && IsPlain(body[5]))
  {
  }

  lemma UnicodeSkipped(u: bytes, t: bytes)
    requires |u| == 6 && u[0] == BACKSLASH && IsPlain(u[2]) && IsPlain(u[3]) && IsPlain(u[4]) && IsPlain(u[5])
    ensures BodyLen(u + t, false) == Plus(6, BodyLen(t, false))
  {
    hide BodyLen, IsPlain;
    var tail := [u[2], u[3], u[4], u[5]] + t;
    BodyLenPlain4(u[2], u[3], u[4], u[5], t);
    BodyLenUnit(u[..2], tail);
    assert u + t == u[..2] + tail;
  }

  /** The closing quote of a well-formed string is the first one that is not escaped. */
  lemma {:induction false} BodySkipped(body: bytes, rest: bytes)
    requires IsBody(body)
    ensures BodyLen(body + rest, false) == Plus(|body|, BodyLen(rest, false))
    decreases |body|
  {
    hide BodyLen, IsBody, IsPlain, UnitLen;
    if body == [] {
      assert body + rest == rest;
    } else {
      BodyUnit(body);
      UnitSmall(body);
      var n := UnitLen(body);
      var t := body[n..] + rest;
      BodySkipped(body[n..], rest);
      assert body + rest == body[..n] + t;
      if n == 6 { UnicodeSkipped(body[..n], t); } else { BodyLenUnit(body[..n], t); }
    }
  }

  lemma UnitSmall(body: bytes)
    requires body != []
    ensures UnitLen(body) == 1 || UnitLen(body) == 2 || UnitLen(body) == 6
  {
  }

  lemma StringFound(body: bytes, rest: bytes)
    requires IsBody(body)
    ensures StringLen(Quoted(body) + rest) == Some(|body| + 2)
  {
    hide IsBody, BodyLen;
    assert (Quoted(body) + rest)[1..] == body + ([QUOTE] + rest);
    BodySkipped(body, [QUOTE] + rest);
    QuoteEndsBody(rest);
  }

  /** Inside a container, `x` is passed over without a change of state. */
  ghost predicate Neutral(x: bytes) {
    forall depth: nat, rest: bytes :: depth >= 1 ==>
      NestLen(x + rest, depth, false, false) == Plus(|x|, NestLen(rest, depth, false, false))
  }

  lemma NeutralUse(x: bytes, depth: nat, rest: bytes)
    requires Neutral(x) && depth >= 1
    ensures NestLen(x + rest, depth, false, false) == Plus(|x|, NestLen(rest, depth, false, false))
  {
  }

  lemma NeutralConcat(x: bytes, y: bytes)
    requires Neutral(x) && Neutral(y)
    ensures Neutral(x + y)
  {
    forall depth: nat, rest: bytes | depth >= 1
      ensures NestLen(x + y + rest, depth, false, false) == Plus(|x + y|, NestLen(rest, depth, false, false))
    {
      assert x + y + rest == x + (y + rest);
      NeutralUse(x, depth, y + rest);
      NeutralUse(y, depth, rest);
    }
  }

  lemma NeutralByte(b: byte)
    requires b != QUOTE && !IsOpen(b) && !IsClose(b)
    ensures Neutral([b])
  {
    forall depth: nat, rest: bytes | depth >= 1
      ensures NestLen([b] + rest, depth, false, false) == Plus(1, NestLen(rest, depth, false, false))
    {
      assert ([b] + rest)[1..] == rest;
    }
  }

  lemma {:induction false} NeutralBytes(x: bytes)
    requires forall i :: 0 <= i < |x| ==> x[i] != QUOTE && !IsOpen(x[i]) && !IsClose(x[i])
    ensures Neutral(x)
    decreases |x|
  {
    if x == [] {
      forall rest: bytes ensures x + rest == rest {}
    } else {
      NeutralByte(x[0]);
      NeutralBytes(x[1..]);
      NeutralConcat([x[0]], x[1..]);
      assert x == [x[0]] + x[1..];
    }
  }

  /** Inside a string the nested scan follows the string scan. */
  /** A byte of a string that does not end it. */
  lemma StringByte(s: bytes, depth: nat, escaped: bool)
    requires s != [] && (escaped || s[0] != QUOTE)
    ensures var e := !escaped && s[0] == BACKSLASH;
      && BodyLen(s, escaped) == Plus(1, BodyLen(s[1..], e))
      && NestLen(s, depth, true, escaped) == Plus(1, NestLen(s[1..], depth, true, e))
  {
  }

  lemma StringCloses(s: bytes, depth: nat)
    requires s != [] && s[0] == QUOTE
    ensures BodyLen(s, false) == Some(1)
    ensures NestLen(s, depth, true, false) == Plus(1, NestLen(s[1..], depth, false, false))
  {
  }

  lemma NoBody(escaped: bool)
    ensures BodyLen([], escaped).None?
  {
  }

  lemma {:induction false} NestInString(s: bytes, depth: nat, escaped: bool)
    requires BodyLen(s, escaped).Some?
    ensures var n := BodyLen(s, escaped).value;
      NestLen(s, depth, true, escaped) == Plus(n, NestLen(s[n..], depth, false, false))
    decreases |s|
  {
    hide BodyLen, NestLen;
    NoBody(escaped);
    if !escaped && s[0] == QUOTE {
      StringCloses(s, depth);
    } else {
      var e := !escaped && s[0] == BACKSLASH;
      StringByte(s, depth, escaped);
      NestInString(s[1..], depth, e);
      var n := BodyLen(s[1..], e).value;
      assert s[1..][n..] == s[n + 1..];
    }
  }

  lemma StringSkipped(body: bytes, rest: bytes, depth: nat)
    requires IsBody(body)
    ensures NestLen(Quoted(body) + rest, depth, false, false) == Plus(|body| + 2, NestLen(rest, depth, false, false))
  {
    hide NestLen, IsBody, BodyLen;
    var s := body + ([QUOTE] + rest);
    BodySkipped(body, [QUOTE] + rest);
    QuoteEndsBody(rest);
    NestInString(s, depth, false);
    assert Quoted(body) + rest == [QUOTE] + s;
    NestQuote(s, depth);
    assert s[|body| + 1..] == rest;
  }

  lemma QuoteEndsBody(rest: bytes)
    ensures BodyLen([QUOTE] + rest, false) == Some(1)
  {
  }

  lemma NestQuote(s: bytes, depth: nat)
    ensures NestLen([QUOTE] + s, depth, false, false) == Plus(1, NestLen(s, depth, true, false))
  {
    assert ([QUOTE] + s)[1..] == s;
  }

  lemma NeutralString(body: bytes)
    requires IsBody(body)
    ensures Neutral(Quoted(body))
  {
    hide NestLen, IsBody;
    forall depth: nat, rest: bytes | depth >= 1
      ensures NestLen(Quoted(body) + rest, depth, false, false) == Plus(|body| + 2, NestLen(rest, depth, false, false))
    {
      StringSkipped(body, rest, depth);
    }
  }

  lemma NestOpen(open: byte, s: bytes, depth: nat)
    requires IsOpen(open)
    ensures NestLen([open] + s, depth, false, false) == Plus(1, NestLen(s, depth + 1, false, false))
  {
    assert ([open] + s)[1..] == s;
  }

  lemma NestClose(close: byte, s: bytes, depth: nat)
    requires IsClose(close) && depth >= 2
    ensures NestLen([close] + s, depth, false, false) == Plus(1, NestLen(s, depth - 1, false, false))
  {
    assert ([close] + s)[1..] == s;
  }

  lemma BracketedSkipped(open: byte, x: bytes, close: byte, rest: bytes, depth: nat)
    requires IsOpen(open) && IsClose(close) && Neutral(x) && depth >= 1
    ensures NestLen([open] + x + [close] + rest, depth, false, false) == Plus(|x| + 2, NestLen(rest, depth, false, false))
  {
    hide NestLen, IsOpen, IsClose, Neutral;
    var t := [close] + rest;
    assert [open] + x + [close] + rest == [open] + (x + t);
    NestOpen(open, x + t, depth);
    NeutralUse(x, depth + 1, t);
    NestClose(close, rest, depth + 1);
  }

  lemma NeutralBracketed(open: byte, x: bytes, close: byte)
    requires IsOpen(open) && IsClose(close) && Neutral(x)
    ensures Neutral([open] + x + [close])
  {
    hide NestLen, IsOpen, IsClose;
    forall depth: nat, rest: bytes | depth >= 1
      ensures NestLen([open] + x + [close] + rest, depth, false, false) == Plus(|x| + 2, NestLen(rest, depth, false, false))
    {
      BracketedSkipped(open, x, close, rest, depth);
    }
  }

  lemma DigitsScalar(s: bytes, n: nat)
    requires n <= |s|
    requires forall i :: 0 <= i < n ==> 0x30 <= s[i] <= 0x39
    ensures IsScalarText(s[..n])
  {
  }

  /** No byte of a scalar is a delimiter. */
  predicate IsScalarText(s: bytes) {
    forall i :: 0 <= i < |s| ==> IsScalarByte(s[i])
  }

  predicate IsScalarByte(b: byte) {
    0x30 <= b <= 0x39 || 0x61 <= b <= 0x75 || b == 0x2B || b == 0x2D || b == 0x2E || b == 0x45
  }

  lemma ScalarTextConcat(s: bytes, n: nat)
    requires n <= |s| && IsScalarText(s[..n]) && IsScalarText(s[n..])
    ensures IsScalarText(s)
  {
    forall i | 0 <= i < |s| ensures IsScalarByte(s[i]) {
      if i < n { assert s[i] == s[..n][i]; } else { assert s[i] == s[n..][i - n]; }
    }
  }

  lemma ExponentText(s: bytes)
    requires IsExponent(s)
    ensures IsScalarText(s)
  {
    if s != [] {
      var n := if |s| > 1 && (s[1] == 0x2B || s[1] == 0x2D) then 2 else 1;
      DigitsScalar(s[n..], |s| - n);
      assert s[n..][..|s| - n] == s[n..];
      ScalarTextConcat(s, n);
    }
  }

  lemma FractionText(s: bytes)
    requires IsFraction(s)
    ensures IsScalarText(s)
  {
    if s != [] && s[0] == 0x2E {
      var t := s[1..];
      var n := DigitCount(t);
      DigitsScalar(t, n);
      assert t[n..] == s[1 + n..];
      ExponentText(t[n..]);
      ScalarTextConcat(t, n);
      ScalarTextConcat(s, 1);
    } else {
      ExponentText(s);
    }
  }

  lemma ScalarText(s: bytes)
    requires IsScalar(s)
    ensures IsScalarText(s) && s != []
  {
    if IsNumber(s) {
      var m := if s != [] && s[0] == 0x2D then 1 else 0;
      var t := s[m..];
      var n := DigitCount(t);
      DigitsScalar(t, n);
      FractionText(t[n..]);
      ScalarTextConcat(t, n);
      ScalarTextConcat(s, m);
    }
  }

  lemma NeutralSpace(w: bytes)
    requires IsSpace(w)
    ensures Neutral(w)
  {
    NeutralBytes(w);
  }

  lemma {:induction false} ValueNeutral(v: Value)
    requires WfValue(v)
    ensures Neutral(ValueText(v))
  {
    match v
    case Scalar(t) => ScalarText(t); NeutralBytes(t);
    case Text(b) => NeutralString(b);
    case Array(items) => ItemsNeutral(items); NeutralBracketed(0x5B, ItemsText(items), 0x5D);
    case Object(members) => MembersNeutral(members); NeutralBracketed(0x7B, MembersText(members), 0x7D);
  }

  lemma {:induction false} ItemsNeutral(items: Items)
    requires WfItems(items)
    ensures Neutral(ItemsText(items))
  {
    match items
    case NoItems(gap) => NeutralSpace(gap);
    case LastItem(b, v, a) =>
      NeutralSpace(b); ValueNeutral(v); NeutralSpace(a);
      NeutralConcat(b, ValueText(v));
      NeutralConcat(b + ValueText(v), a);
    case MoreItems(b, v, a, tail) =>
      NeutralSpace(b); ValueNeutral(v); NeutralSpace(a); NeutralByte(COMMA); ItemsNeutral(tail);
      NeutralConcat(b, ValueText(v));
      NeutralConcat(b + ValueText(v), a);
      NeutralConcat(b + ValueText(v) + a, [COMMA]);
      NeutralConcat(b + ValueText(v) + a + [COMMA], ItemsText(tail));
  }

  lemma {:induction false} MemberNeutral(m: Member)
    requires WfMember(m)
    ensures Neutral(MemberText(m))
    decreases m
  {
    NeutralSpace(m.before); NeutralString(m.key); NeutralSpace(m.beforeColon); NeutralByte(COLON);
    NeutralSpace(m.afterColon); ValueNeutral(m.value); NeutralSpace(m.after);
    var a := m.before + Quoted(m.key);
    NeutralConcat(m.before, Quoted(m.key));
    NeutralConcat(a, m.beforeColon);
    NeutralConcat(a + m.beforeColon, [COLON]);
    NeutralConcat(a + m.beforeColon + [COLON], m.afterColon);
    NeutralConcat(a + m.beforeColon + [COLON] + m.afterColon, ValueText(m.value));
    NeutralConcat(a + m.beforeColon + [COLON] + m.afterColon + ValueText(m.value), m.after);
  }

  lemma {:induction false} MembersNeutral(ms: Members)
    requires WfMembers(ms)
    ensures Neutral(MembersText(ms))
  {
    match ms
    case NoMembers(gap) => NeutralSpace(gap);
    case LastMember(m) => MemberNeutral(m);
    case MoreMembers(m, rest) =>
      MemberNeutral(m); NeutralByte(COMMA); MembersNeutral(rest);
      NeutralConcat(MemberText(m), [COMMA]);
      NeutralConcat(MemberText(m) + [COMMA], MembersText(rest));
  }

  // ---------- spans of a well-formed object ----------

  /** `t` follows a value of the outermost object. */
  predicate Follows(t: bytes) {
    SpaceLen(t) < |t| && EndsScalar(t[SpaceLen(t)])
  }

  lemma {:induction false} ScalarSpanOver(x: bytes, rest: bytes)
    requires forall i :: 0 <= i < |x| ==> !EndsScalar(x[i])
    ensures ScalarSpan(x + rest) == |x| + ScalarSpan(rest)
    decreases |x|
  {
    if x == [] {
      assert x + rest == rest;
    } else {
      ScalarSpanOver(x[1..], rest);
      assert (x + rest)[1..] == x[1..] + rest;
    }
  }

  lemma {:induction false} SpanOfSpace(t: bytes)
    requires Follows(t)
    ensures ScalarSpan(t) == SpaceLen(t)
    decreases |t|
  {
    if IsSpaceByte(t[0]) { SpanOfSpace(t[1..]); }
  }

  lemma {:induction false} TrimSpace(x: bytes, w: bytes)
    requires IsSpace(w) && x != [] && !IsSpaceByte(x[|x| - 1])
    ensures TrimmedLen(x + w) == |x|
    decreases |w|
  {
    if w == [] {
      assert x + w == x;
    } else {
      TrimSpace(x, w[..|w| - 1]);
      assert (x + w)[..|x + w| - 1] == x + w[..|w| - 1];
    }
  }

  lemma {:induction false} SpaceIsSpace(t: bytes)
    ensures IsSpace(t[..SpaceLen(t)])
  {
    if t != [] && IsSpaceByte(t[0]) {
      SpaceIsSpace(t[1..]);
      assert t[..SpaceLen(t)] == [t[0]] + t[1..][..SpaceLen(t[1..])];
    }
  }

  lemma ScalarFound(x: bytes, t: bytes)
    requires IsScalar(x) && Follows(t)
    ensures ValueLen(x + t) == Some(|x|)
  {
    hide IsNumber, ScalarSpan, TrimmedLen, SpaceLen;
    ScalarText(x);
    ScalarSpanOver(x, t);
    SpanOfSpace(t);
    var w := t[..SpaceLen(t)];
    SpaceIsSpace(t);
    TrimSpace(x, w);
    assert (x + t)[..ScalarSpan(x + t)] == x + w;
    assert (x + t)[0] == x[0];
  }

  lemma ContainerFound(open: byte, x: bytes, close: byte, t: bytes)
    requires IsOpen(open) && IsClose(close) && Neutral(x)
    ensures ValueLen([open] + x + [close] + t) == Some(|x| + 2)
  {
    var u := [close] + t;
    NeutralUse(x, 1, u);
    var s := [open] + (x + u);
    assert s[1..] == x + u;
    assert [open] + x + [close] + t == s;
    assert NestLen(s, 0, false, false) == Plus(1, NestLen(x + u, 1, false, false));
  }

  /** The end of a value is found whatever the value is. */
  lemma ValueFound(v: Value, t: bytes)
    requires WfValue(v) && Follows(t)
    ensures ValueLen(ValueText(v) + t) == Some(|ValueText(v)|)
  {
    match v
    case Scalar(x) => ScalarFound(x, t);
    case Text(b) => StringFound(b, t);
    case Array(items) => ItemsNeutral(items); ContainerFound(0x5B, ItemsText(items), 0x5D, t);
    case Object(members) => MembersNeutral(members); ContainerFound(0x7B, MembersText(members), 0x7D, t);
  }

  /** A member with its value as text, the space before it left out. */
  datatype Token = Token(key: bytes, beforeColon: bytes, afterColon: bytes, text: bytes, after: bytes)

  function TokenOf(m: Member): Token {
    Token(m.key, m.beforeColon, m.afterColon, ValueText(m.value), m.after)
  }

  function ColonTail(k: Token, t: bytes): bytes {
    k.beforeColon + ([COLON] + (k.afterColon + (k.text + (k.after + t))))
  }

  function TokenTail(k: Token, t: bytes): bytes {
    Quoted(k.key) + ColonTail(k, t)
  }

  function ValueOffset(k: Token): nat {
    |k.key| + 3 + |k.beforeColon| + |k.afterColon|
  }

  function TokenLen(k: Token): nat {
    ValueOffset(k) + |k.text| + |k.after|
  }

  lemma MemberTextTail(m: Member, t: bytes)
    ensures MemberText(m) + t == m.before + TokenTail(TokenOf(m), t)
    ensures |MemberText(m)| == |m.before| + TokenLen(TokenOf(m))
  {
  }

  lemma KeyFound(decode: Decoder, key: bytes, t: bytes, k: bytes)
    requires IsBody(key) && decode(key) == Some(k)
    ensures KeyOf(decode, Quoted(key) + t) == Some((k, |key| + 2))
  {
    var s := Quoted(key) + t;
    StringFound(key, t);
    assert s[1..|key| + 1] == key;
  }

  lemma ColonFound(w: bytes, x: bytes, t: bytes)
    requires IsSpace(w) && IsSpace(x) && SpaceLen(t) == 0
    ensures ColonLen(w + ([COLON] + (x + t))) == Some(|w| + 1 + |x|)
  {
    var u := [COLON] + (x + t);
    assert SpaceLen(u) == 0;
    hide SpaceLen;
    SpaceSkipped(w, u);
    SpaceSkipped(x, t);
    assert (w + u)[|w| + 1..] == x + t;
  }

  lemma TextPlaced(x: bytes, w: bytes, t: bytes)
    requires ValueLen(x + (w + t)) == Some(|x|)
    requires IsSpace(w) && SpaceLen(t) == 0
    ensures ValueAndSpaceLen(x + (w + t)) == Some((|x|, |x| + |w|))
  {
    SpaceSkipped(w, t);
    assert (x + (w + t))[|x|..] == w + t;
  }

  lemma DelimiterFollows(w: bytes, t: bytes)
    requires IsSpace(w) && t != [] && EndsScalar(t[0])
    ensures Follows(w + t) && SpaceLen(t) == 0
  {
    SpaceSkipped(w, t);
    assert (w + t)[|w|] == t[0];
  }

  lemma ValuePlaced(v: Value, w: bytes, t: bytes)
    requires WfValue(v) && IsSpace(w) && t != [] && EndsScalar(t[0])
    ensures ValueAndSpaceLen(ValueText(v) + (w + t)) == Some((|ValueText(v)|, |ValueText(v)| + |w|))
  {
    DelimiterFollows(w, t);
    ValueFound(v, w + t);
    TextPlaced(ValueText(v), w, t);
  }

  lemma ValueStart(v: Value, t: bytes)
    requires WfValue(v)
    ensures ValueText(v) != [] && SpaceLen(ValueText(v) + t) == 0
  {
    match v {
      case Scalar(x) => ScalarText(x); assert (x + t)[0] == x[0];
      case Text(b) => assert (Quoted(b) + t)[0] == QUOTE;
      case Array(items) => assert (ValueText(v) + t)[0] == 0x5B;
      case Object(members) => assert (ValueText(v) + t)[0] == 0x7B;
    }
  }

  /** The three pieces of a member are read as what they are. */
  ghost predicate Reads(lexer: Lexer, k: Token, t: bytes, key: bytes) {
    && lexer.key(TokenTail(k, t)) == Some((key, |k.key| + 2))
    && lexer.colon(ColonTail(k, t)) == Some(|k.beforeColon| + 1 + |k.afterColon|)
    && lexer.value(k.text + (k.after + t)) == Some((|k.text|, |k.text| + |k.after|))
  }

  lemma MemberReads(decode: Decoder, m: Member, t: bytes, key: bytes)
    requires WfMember(m) && decode(m.key) == Some(key)
    requires t != [] && EndsScalar(t[0])
    ensures Reads(JsonLexer(decode), TokenOf(m), t, key)
  {
    KeyFound(decode, m.key, ColonTail(TokenOf(m), t), key);
    ValueStart(m.value, m.after + t);
    ColonFound(m.beforeColon, m.afterColon, ValueText(m.value) + (m.after + t));
    ValuePlaced(m.value, m.after, t);
  }

  lemma TokenTails(k: Token, t: bytes)
    ensures Drop(TokenTail(k, t), |k.key| + 2) == ColonTail(k, t)
    ensures Drop(TokenTail(k, t), |k.key| + 2 + (|k.beforeColon| + 1 + |k.afterColon|)) == k.text + (k.after + t)
  {
  }

  lemma TokenFound(lexer: Lexer, offset: nat, k: Token, t: bytes, key: bytes)
    requires Reads(lexer, k, t, key)
    ensures MemberOf(lexer, TokenTail(k, t), offset) == Some((TokenSpan(k, offset, key), TokenLen(k)))
  {
    TokenTails(k, t);
  }

  function TokenSpan(k: Token, offset: nat, key: bytes): Span {
    Span(key, offset + ValueOffset(k), offset + ValueOffset(k) + |k.text|)
  }

  function MemberSpan(m: Member, offset: nat, key: bytes): Span {
    TokenSpan(TokenOf(m), offset + |m.before|, key)
  }

  predicate Decodes(decode: Decoder, ms: Members) {
    match ms
    case NoMembers(_) => true
    case LastMember(m) => decode(m.key).Some?
    case MoreMembers(m, rest) => decode(m.key).Some? && Decodes(decode, rest)
  }

  /** Where the members stand in the text, and under which keys. */
  function SpansOf(decode: Decoder, ms: Members, offset: nat): seq<Span>
    requires Decodes(decode, ms)
  {
    match ms
    case NoMembers(_) => []
    case LastMember(m) => [MemberSpan(m, offset, decode(m.key).value)]
    case MoreMembers(m, rest) =>
      [MemberSpan(m, offset, decode(m.key).value)] + SpansOf(decode, rest, offset + |MemberText(m)| + 1)
  }

  lemma SpansFromMember(read: Reader, s: bytes, i: nat, offset: nat, span: Span, n: nat)
    requires SpaceLen(s) == i && i + n < |s| && s[i] == QUOTE && read(s[i..], offset + i) == Some((span, n))
    ensures s[i + n] == COMMA ==>
      SpansFrom(read, s, offset) == PrependSpan(span, SpansFrom(read, s[i + n + 1..], offset + i + n + 1))
    ensures s[i + n] == 0x7D ==> SpansFrom(read, s, offset) == Some([span])
  {
  }

  lemma MemberInPlace(read: Reader, s: bytes, w: bytes, u: bytes, t: bytes, offset: nat, span: Span, n: nat, end: nat)
    requires s == w + u && IsSpace(w) && u != [] && u[0] == QUOTE
    requires read(u, offset + |w|) == Some((span, n)) && end == offset + |w| + n
    requires n < |u| && t != [] && u[n] == t[0] && u[n + 1..] == t[1..]
    ensures t[0] == COMMA ==> SpansFrom(read, s, offset) == PrependSpan(span, SpansFrom(read, t[1..], end + 1))
    ensures t[0] == 0x7D ==> SpansFrom(read, s, offset) == Some([span])
  {
    SpaceSkipped(w, u);
    var i := |w|;
    assert SpaceLen(u) == 0;
    assert s[i..] == u && s[i + n] == u[n];
    assert s[i + n + 1..] == t[1..];
    SpansFromMember(read, s, i, offset, span, n);
  }

  lemma TokenTailEnd(k: Token, t: bytes)
    requires t != []
    ensures var u := TokenTail(k, t);
      u[0] == QUOTE && TokenLen(k) < |u| && u[TokenLen(k)] == t[0] && u[TokenLen(k) + 1..] == t[1..]
  {
  }

  lemma MemberReached(read: Reader, m: Member, t: bytes, offset: nat, key: bytes)
    requires IsSpace(m.before) && t != []
    requires var k := TokenOf(m);
      read(TokenTail(k, t), offset + |m.before|) == Some((MemberSpan(m, offset, key), TokenLen(k)))
    ensures var s, span := MemberText(m) + t, MemberSpan(m, offset, key);
      && (t[0] == COMMA ==>
           SpansFrom(read, s, offset) == PrependSpan(span, SpansFrom(read, t[1..], offset + |MemberText(m)| + 1)))
      && (t[0] == 0x7D ==> SpansFrom(read, s, offset) == Some([span]))
  {
    hide SpansFrom, MemberText, TokenOf, TokenTail, TokenLen, IsSpace;
    var k := TokenOf(m);
    MemberTextTail(m, t);
    TokenTailEnd(k, t);
    MemberInPlace(read, MemberText(m) + t, m.before, TokenTail(k, t), t, offset, MemberSpan(m, offset, key),
                  TokenLen(k), offset + |MemberText(m)|);
  }

  /** `read` finds every well-formed member that a delimiter follows. */
  ghost predicate ReadsMembers(read: Reader, decode: Decoder) {
    forall m, t, offset :: WfMember(m) && decode(m.key).Some? && t != [] && EndsScalar(t[0]) ==>
      ReadsMember(read, m, t, offset, decode(m.key).value)
  }

  ghost predicate ReadsMember(read: Reader, m: Member, t: bytes, offset: nat, key: bytes) {
    read(TokenTail(TokenOf(m), t), offset) == Some((TokenSpan(TokenOf(m), offset, key), TokenLen(TokenOf(m))))
  }

  lemma JsonReadsMembers(decode: Decoder)
    ensures ReadsMembers(JsonReader(decode), decode)
  {
    forall m, t, offset | WfMember(m) && decode(m.key).Some? && t != [] && EndsScalar(t[0])
      ensures ReadsMember(JsonReader(decode), m, t, offset, decode(m.key).value)
    {
      MemberReads(decode, m, t, decode(m.key).value);
      TokenFound(JsonLexer(decode), offset, TokenOf(m), t, decode(m.key).value);
    }
  }

  lemma LastSpanFound(read: Reader, m: Member, t: bytes, offset: nat, key: bytes)
    requires IsSpace(m.before) && ReadsMember(read, m, [0x7D] + t, offset + |m.before|, key)
    ensures SpansFrom(read, MemberText(m) + ([0x7D] + t), offset) == Some([MemberSpan(m, offset, key)])
  {
    MemberReached(read, m, [0x7D] + t, offset, key);
  }

  lemma MoreSpansFound(read: Reader, m: Member, s: bytes, u: bytes, offset: nat, key: bytes, next: nat, spans: seq<Span>)
    requires IsSpace(m.before) && ReadsMember(read, m, [COMMA] + u, offset + |m.before|, key)
    requires s == MemberText(m) + ([COMMA] + u) && next == offset + |MemberText(m)| + 1
    requires SpansFrom(read, u, next) == Some(spans)
    ensures SpansFrom(read, s, offset) == Some([MemberSpan(m, offset, key)] + spans)
  {
    MemberReached(read, m, [COMMA] + u, offset, key);
    assert ([COMMA] + u)[1..] == u;
  }

  /** `read` finds each of these members at its place, the text t following the closing brace. */
  ghost predicate ReadsList(read: Reader, decode: Decoder, ms: Members, t: bytes, offset: nat) {
    match ms
    case NoMembers(gap) => IsSpace(gap)
    case LastMember(m) =>
      && decode(m.key).Some? && IsSpace(m.before)
      && ReadsMember(read, m, [0x7D] + t, offset + |m.before|, decode(m.key).value)
    case MoreMembers(m, rest) =>
      && decode(m.key).Some? && IsSpace(m.before)
      && ReadsMember(read, m, [COMMA] + (MembersText(rest) + ([0x7D] + t)), offset + |m.before|, decode(m.key).value)
      && ReadsList(read, decode, rest, t, offset + |MemberText(m)| + 1)
  }

  lemma {:induction false} WfReadsList(read: Reader, decode: Decoder, ms: Members, t: bytes, offset: nat)
    requires ReadsMembers(read, decode) && WfMembers(ms) && Decodes(decode, ms)
    ensures ReadsList(read, decode, ms, t, offset)
  {
    if ms.MoreMembers? { WfReadsList(read, decode, ms.rest, t, offset + |MemberText(ms.m)| + 1); }
  }

  lemma MoreMembersText(m: Member, rest: Members, c: bytes)
    ensures MembersText(MoreMembers(m, rest)) + c == MemberText(m) + ([COMMA] + (MembersText(rest) + c))
  {
    var x, y := MemberText(m), MembersText(rest);
    assert x + [COMMA] + y + c == x + ([COMMA] + (y + c));
  }

  /** The text of an object from one of its members on. */
  function OpenText(ms: Members, t: bytes): bytes {
    MembersText(ms) + ([0x7D] + t)
  }

  ghost predicate Finds(read: Reader, decode: Decoder, ms: Members, t: bytes, offset: nat)
    requires Decodes(decode, ms)
  {
    SpansFrom(read, OpenText(ms, t), offset) == Some(SpansOf(decode, ms, offset))
  }

  lemma OpenTextMore(m: Member, rest: Members, t: bytes)
    ensures OpenText(MoreMembers(m, rest), t) == MemberText(m) + ([COMMA] + OpenText(rest, t))
  {
    MoreMembersText(m, rest, [0x7D] + t);
  }

  lemma SpansOfMore(decode: Decoder, m: Member, rest: Members, offset: nat, next: nat, key: bytes)
    requires decode(m.key) == Some(key) && Decodes(decode, rest) && next == offset + |MemberText(m)| + 1
    ensures SpansOf(decode, MoreMembers(m, rest), offset) == [MemberSpan(m, offset, key)] + SpansOf(decode, rest, next)
  {
  }

  lemma FindsMore(read: Reader, decode: Decoder, m: Member, rest: Members, t: bytes, offset: nat, next: nat, key: bytes)
    requires decode(m.key) == Some(key) && Decodes(decode, rest) && IsSpace(m.before)
    requires ReadsMember(read, m, [COMMA] + OpenText(rest, t), offset + |m.before|, key)
    requires next == offset + |MemberText(m)| + 1
    requires SpansFrom(read, OpenText(rest, t), next) == Some(SpansOf(decode, rest, next))
    ensures SpansFrom(read, OpenText(MoreMembers(m, rest), t), offset) == Some(SpansOf(decode, MoreMembers(m, rest), offset))
  {
    OpenTextMore(m, rest, t);
    SpansOfMore(decode, m, rest, offset, next, key);
    MoreSpansFound(read, m, OpenText(MoreMembers(m, rest), t), OpenText(rest, t), offset, key, next,
                   SpansOf(decode, rest, next));
  }

  lemma NoSpansFound(read: Reader, decode: Decoder, gap: bytes, t: bytes, offset: nat)
    requires IsSpace(gap)
    ensures Finds(read, decode, NoMembers(gap), t, offset)
  {
    SpaceSkipped(gap, [0x7D] + t);
    assert OpenText(NoMembers(gap), t)[|gap|] == 0x7D;
  }

  /** Scanning a well-formed object finds its members, all of them and nothing else. */
  lemma {:induction false} SpansFound(read: Reader, decode: Decoder, ms: Members, t: bytes, offset: nat)
    requires ReadsList(read, decode, ms, t, offset) && Decodes(decode, ms)
    ensures Finds(read, decode, ms, t, offset)
    decreases ms
  {
    hide ReadsMember, MemberText, MemberSpan, SpansFrom;
    match ms
    case NoMembers(gap) => NoSpansFound(read, decode, gap, t, offset);
    case LastMember(m) =>
      LastSpanFound(read, m, t, offset, decode(m.key).value);
    case MoreMembers(m, rest) =>
      var next := offset + |MemberText(m)| + 1;
      SpansFound(read, decode, rest, t, next);
      FindsMore(read, decode, m, rest, t, offset, next, decode(m.key).value);
  }

  function MembersOffset(d: Document): nat {
    |d.lead| + 1
  }

  lemma DocumentParts(d: Document)
    ensures DocumentText(d) == d.lead + ([0x7B] + (MembersText(d.members) + ([0x7D] + d.trail)))
  {
  }

  lemma BraceSkipped(read: Reader, lead: bytes, u: bytes)
    requires IsSpace(lead)
    ensures Spans(read, lead + ([0x7B] + u)) == SpansFrom(read, u, |lead| + 1)
  {
    hide SpansFrom;
    SpaceSkipped(lead, [0x7B] + u);
    var raw := lead + ([0x7B] + u);
    assert raw[|lead|] == 0x7B && raw[|lead| + 1..] == u;
  }

  /** Scanning the text of an object finds its members. */
  lemma DocumentSpans(decode: Decoder, d: Document)
    requires IsSpace(d.lead) && WfMembers(d.members) && Decodes(decode, d.members)
    ensures Spans(JsonReader(decode), DocumentText(d)) == Some(SpansOf(decode, d.members, MembersOffset(d)))
  {
    hide JsonReader, Spans, SpansFrom, SpansOf, ReadsMembers, ReadsList;
    hide MembersText, DocumentText, IsSpace, WfMembers, Decodes;
    DocumentParts(d);
    JsonReadsMembers(decode);
    BraceSkipped(JsonReader(decode), d.lead, OpenText(d.members, d.trail));
    WfReadsList(JsonReader(decode), decode, d.members, d.trail, MembersOffset(d));
    SpansFound(JsonReader(decode), decode, d.members, d.trail, MembersOffset(d));
  }
}
