/**
 The concrete syntax of RFC 8259 as trees that keep every byte, whitespace
 included: a text is well formed when it is the rendering of a well-formed tree.
 */
module JsonGrammar {
  import opened Common
  import opened JsonString
  import Utf8

  datatype Value =
    | Scalar(text: bytes)
    | Text(body: bytes)
    | Array(items: Items)
    | Object(members: Members)

  datatype Items =
    | NoItems(gap: bytes)
    | LastItem(before: bytes, value: Value, after: bytes)
    | MoreItems(before: bytes, value: Value, after: bytes, tail: Items)

  datatype Member = Member(before: bytes, key: bytes, beforeColon: bytes, afterColon: bytes, value: Value, after: bytes)

  datatype Members =
    | NoMembers(gap: bytes)
    | LastMember(m: Member)
    | MoreMembers(m: Member, rest: Members)

  /** An object with the whitespace around it. */
  datatype Document = Document(lead: bytes, members: Members, trail: bytes)

  // ---------- well-formedness ----------

  predicate IsSpaceByte(b: byte) {
    b == 0x20 || b == 9 || b == 10 || b == 13
  }

  predicate IsSpace(s: bytes) {
    forall i :: 0 <= i < |s| ==> IsSpaceByte(s[i])
  }

  function DigitCount(s: bytes): (n: nat)
    ensures n <= |s|
    ensures forall i :: 0 <= i < n ==> 0x30 <= s[i] <= 0x39
  {
    if s == [] || !(0x30 <= s[0] <= 0x39) then 0 else 1 + DigitCount(s[1..])
  }

  predicate IsExponent(s: bytes) {
    s == [] || (
      && (s[0] == 0x65 || s[0] == 0x45)
      && var t := if |s| > 1 && (s[1] == 0x2B || s[1] == 0x2D) then s[2..] else s[1..];
      0 < DigitCount(t) == |t|)
  }

  predicate IsFraction(s: bytes) {
    if s != [] && s[0] == 0x2E then DigitCount(s[1..]) > 0 && IsExponent(s[1 + DigitCount(s[1..])..])
    else IsExponent(s)
  }

  predicate IsNumber(s: bytes) {
    var t := if s != [] && s[0] == 0x2D then s[1..] else s;
    DigitCount(t) > 0 && (t[0] == 0x30 ==> DigitCount(t) == 1) && IsFraction(t[DigitCount(t)..])
  }

  const TRUE: bytes := [0x74, 0x72, 0x75, 0x65]
  const FALSE: bytes := [0x66, 0x61, 0x6C, 0x73, 0x65]
  const NULL: bytes := [0x6E, 0x75, 0x6C, 0x6C]

  predicate IsScalar(s: bytes) {
    s == TRUE || s == FALSE || s == NULL || IsNumber(s)
  }

  predicate WfValue(v: Value) {
    match v
    case Scalar(t) => IsScalar(t)
    case Text(b) => IsBody(b)
    case Array(items) => WfItems(items)
    case Object(members) => WfMembers(members)
  }

  predicate WfItems(items: Items) {
    match items
    case NoItems(gap) => IsSpace(gap)
    case LastItem(b, v, a) => IsSpace(b) && WfValue(v) && IsSpace(a)
    case MoreItems(b, v, a, tail) => IsSpace(b) && WfValue(v) && IsSpace(a) && WfItems(tail) && !tail.NoItems?
  }

  predicate WfMember(m: Member) {
    && IsSpace(m.before) && IsBody(m.key) && IsSpace(m.beforeColon)
    && IsSpace(m.afterColon) && WfValue(m.value) && IsSpace(m.after)
  }

  predicate WfMembers(ms: Members) {
    match ms
    case NoMembers(gap) => IsSpace(gap)
    case LastMember(m) => WfMember(m)
    case MoreMembers(m, rest) => WfMember(m) && WfMembers(rest) && !rest.NoMembers?
  }

  /** Keys of the outermost object become strings, and its values raw text in UTF-8. */
  predicate Readable(ms: Members) {
    match ms
    case NoMembers(_) => true
    case LastMember(m) => Unescape(m.key).Some? && Utf8.Valid(ValueText(m.value))
    case MoreMembers(m, rest) => Unescape(m.key).Some? && Utf8.Valid(ValueText(m.value)) && Readable(rest)
  }

  predicate WfDocument(d: Document) {
    IsSpace(d.lead) && WfMembers(d.members) && Readable(d.members) && IsSpace(d.trail)
  }

  // ---------- rendering ----------

  const COMMA: byte := 0x2C
  const COLON: byte := 0x3A

  function ValueText(v: Value): (r: bytes) {
    match v
    case Scalar(t) => t
    case Text(b) => Quoted(b)
    case Array(items) => [0x5B] + ItemsText(items) + [0x5D]
    case Object(members) => [0x7B] + MembersText(members) + [0x7D]
  }

  function ItemsText(items: Items): bytes {
    match items
    case NoItems(gap) => gap
    case LastItem(b, v, a) => b + ValueText(v) + a
    case MoreItems(b, v, a, tail) => b + ValueText(v) + a + [COMMA] + ItemsText(tail)
  }

  function MemberText(m: Member): bytes {
    m.before + Quoted(m.key) + m.beforeColon + [COLON] + m.afterColon + ValueText(m.value) + m.after
  }

  function MembersText(ms: Members): bytes {
    match ms
    case NoMembers(gap) => gap
    case LastMember(m) => MemberText(m)
    case MoreMembers(m, rest) => MemberText(m) + [COMMA] + MembersText(rest)
  }

  function DocumentText(d: Document): bytes {
    d.lead + [0x7B] + MembersText(d.members) + [0x7D] + d.trail
  }

  // ---------- numbers by their parts ----------

  predicate IsDigit(b: byte) {
    Ascii("0")[0] <= b <= Ascii("9")[0]
  }

  predicate AllDigits(s: bytes) {
    s != [] && forall i :: 0 <= i < |s| ==> IsDigit(s[i])
  }

  predicate IsSign(b: byte) {
    b == Ascii("+")[0] || b == Ascii("-")[0]
  }

  /** The parts of a number (RFC 8259, section 6): minus, int, frac and exp. */
  predicate NumberParts(minus: bytes, int_: bytes, frac: bytes, exp: bytes) {
    && (minus == [] || minus == Ascii("-"))
    && AllDigits(int_) && (int_[0] == Ascii("0")[0] ==> |int_| == 1)
    && (frac == [] || (frac[0] == Ascii(".")[0] && AllDigits(frac[1..])))
    && IsExp(exp)
  }

  predicate IsExp(exp: bytes) {
    exp == [] || (
      && (exp[0] == Ascii("e")[0] || exp[0] == Ascii("E")[0])
      && (AllDigits(exp[1..]) || (|exp| > 1 && IsSign(exp[1]) && AllDigits(exp[2..]))))
  }

  lemma {:induction false} DigitsCounted(d: bytes, rest: bytes)
    requires (forall i :: 0 <= i < |d| ==> IsDigit(d[i])) && (rest == [] || !IsDigit(rest[0]))
    ensures DigitCount(d + rest) == |d|
    decreases |d|
  {
    if d == [] {
      assert d + rest == rest;
    } else {
      DigitsCounted(d[1..], rest);
      assert (d + rest)[1..] == d[1..] + rest;
    }
  }

  lemma {:induction false} CountedDigits(s: bytes)
    ensures var n := DigitCount(s);
      (forall i :: 0 <= i < n ==> IsDigit(s[i])) && (n == |s| || !IsDigit(s[n]))
  {
    if s != [] && 0x30 <= s[0] <= 0x39 { CountedDigits(s[1..]); }
  }

  lemma ExponentExact(s: bytes)
    ensures IsExponent(s) <==> IsExp(s)
  {
    hide DigitCount;
    if s != [] {
      CountedDigits(s[1..]);
      if AllDigits(s[1..]) { DigitsCounted(s[1..], []); assert s[1..] + [] == s[1..]; }
      if |s| > 1 {
        CountedDigits(s[2..]);
        if AllDigits(s[2..]) { DigitsCounted(s[2..], []); assert s[2..] + [] == s[2..]; }
      }
    }
  }

  lemma ExpStart(exp: bytes)
    requires IsExp(exp)
    ensures exp == [] || (!IsDigit(exp[0]) && exp[0] != Ascii(".")[0])
  {
  }

  lemma FractionWritten(frac: bytes, exp: bytes)
    requires (frac == [] || (frac[0] == Ascii(".")[0] && AllDigits(frac[1..]))) && IsExp(exp)
    ensures IsFraction(frac + exp) && (frac + exp == [] || !IsDigit((frac + exp)[0]))
  {
    hide DigitCount, IsExponent, IsExp;
    ExponentExact(exp);
    ExpStart(exp);
    var s := frac + exp;
    if frac == [] {
      assert s == exp;
    } else {
      DigitsCounted(frac[1..], exp);
      assert s[1..] == frac[1..] + exp && s[1 + |frac[1..]|..] == exp;
    }
  }

  lemma FractionRead(s: bytes) returns (frac: bytes, exp: bytes)
    requires IsFraction(s)
    ensures s == frac + exp && (frac == [] || (frac[0] == Ascii(".")[0] && AllDigits(frac[1..]))) && IsExp(exp)
  {
    hide DigitCount, IsExponent, IsExp;
    if s != [] && s[0] == 0x2E {
      var n := DigitCount(s[1..]);
      CountedDigits(s[1..]);
      frac, exp := s[..1 + n], s[1 + n..];
      ExponentExact(exp);
      assert frac[1..] == s[1..][..n];
    } else {
      frac, exp := [], s;
      ExponentExact(exp);
      assert s == frac + exp;
    }
  }

  /** Exactly the texts that fall into these parts are numbers. */
  lemma NumberExact(s: bytes)
    ensures IsNumber(s) <==>
      exists minus, int_, frac, exp :: NumberParts(minus, int_, frac, exp) && s == minus + int_ + frac + exp
  {
    if IsNumber(s) { var minus, int_, frac, exp := NumberRead(s); }
    if exists minus, int_, frac, exp :: NumberParts(minus, int_, frac, exp) && s == minus + int_ + frac + exp {
      var minus, int_, frac, exp :| NumberParts(minus, int_, frac, exp) && s == minus + int_ + frac + exp;
      NumberWritten(minus, int_, frac, exp);
    }
  }

  lemma NumberRead(s: bytes) returns (minus: bytes, int_: bytes, frac: bytes, exp: bytes)
    requires IsNumber(s)
    ensures NumberParts(minus, int_, frac, exp) && s == minus + int_ + frac + exp
  {
    assert Ascii("0")[0] == 0x30;
    hide DigitCount, IsFraction, IsExp, AllDigits, Ascii;
    minus := MinusRead(s);
    var t := s[|minus|..];
    var n := DigitCount(t);
    DigitsFront(t);
    int_ := t[..n];
    assert int_[0] == t[0];
    frac, exp := FractionRead(t[n..]);
    FourParts(s, minus, t, n, frac, exp);
  }

  lemma FourParts(s: bytes, minus: bytes, t: bytes, n: nat, frac: bytes, exp: bytes)
    requires minus <= s && t == s[|minus|..] && n <= |t| && t[n..] == frac + exp
    ensures s == minus + t[..n] + frac + exp
  {
    assert s == minus + t && t == t[..n] + t[n..];
    assert minus + t[..n] + frac + exp == minus + (t[..n] + (frac + exp));
  }

  lemma MinusRead(s: bytes) returns (minus: bytes)
    ensures minus <= s && (minus == [] || minus == Ascii("-"))
    ensures s[|minus|..] == if s != [] && s[0] == 0x2D then s[1..] else s
  {
    minus := if s != [] && s[0] == 0x2D then s[..1] else [];
    assert s[0..] == s;
  }

  lemma DigitsFront(t: bytes)
    requires DigitCount(t) > 0
    ensures AllDigits(t[..DigitCount(t)])
  {
    hide DigitCount;
    CountedDigits(t);
  }

  lemma NumberWritten(minus: bytes, int_: bytes, frac: bytes, exp: bytes)
    requires NumberParts(minus, int_, frac, exp)
    ensures IsNumber(minus + int_ + frac + exp)
  {
    hide DigitCount, IsFraction, IsExp;
    var s := minus + int_ + frac + exp;
    var t := int_ + (frac + exp);
    assert s == minus + t;
    FractionWritten(frac, exp);
    DigitsCounted(int_, frac + exp);
    assert t[|int_|..] == frac + exp && t[0] == int_[0];
    assert minus != [] ==> s[1..] == t && s[0] == 0x2D;
    assert minus == [] ==> s == t;
  }

  /** The white space and the literal names of the grammar. */
  lemma Terminals(b: byte)
    ensures IsSpaceByte(b) <==> b in [0x20, 0x09, 0x0A, 0x0D]
    ensures TRUE == Ascii("true") && FALSE == Ascii("false") && NULL == Ascii("null")
    ensures IsScalar(TRUE) && IsScalar(FALSE) && IsScalar(NULL)
    ensures [COMMA, COLON] == Ascii(",:")
  {
    hide IsNumber;
  }
}
