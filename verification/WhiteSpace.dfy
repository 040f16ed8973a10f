/** Trimming as `str::trim` does it, on UTF-8. */
module WhiteSpace {
  import opened Common
  import opened Unicode

  // The Unicode characters with the property White_Space, by the bytes of their UTF-8 form.

  predicate White1(a: byte) {
    9 <= a <= 13 || a == 0x20
  }

  predicate White2(a: byte, b: byte) {
    a == 0xC2 && (b == 0x85 || b == 0xA0)
  }

  predicate White3(a: byte, b: byte, c: byte) {
    || (a == 0xE1 && b == 0x9A && c == 0x80)
    || (a == 0xE2 && b == 0x80 && (0x80 <= c <= 0x8A || c == 0xA8 || c == 0xA9 || c == 0xAF))
    || (a == 0xE2 && b == 0x81 && c == 0x9F)
    || (a == 0xE3 && b == 0x80 && c == 0x80)
  }

  /** The length of the white-space character at the front, 0 when there is none. */
  function WhiteLen(s: bytes): (n: nat)
    ensures n <= |s|
  {
    if |s| >= 1 && White1(s[0]) then 1
    else if |s| >= 2 && White2(s[0], s[1]) then 2
    else if |s| >= 3 && White3(s[0], s[1], s[2]) then 3
    else 0
  }

  /** The length of the white-space character at the end, 0 when there is none. */
  function WhiteEnd(s: bytes): (n: nat)
    ensures n <= |s|
  {
    var n := |s|;
    if n >= 1 && White1(s[n - 1]) then 1
    else if n >= 2 && White2(s[n - 2], s[n - 1]) then 2
    else if n >= 3 && White3(s[n - 3], s[n - 2], s[n - 1]) then 3
    else 0
  }

  function TrimStart(s: bytes): bytes {
    if WhiteLen(s) == 0 then s else TrimStart(s[WhiteLen(s)..])
  }

  function TrimEnd(s: bytes): bytes {
    if WhiteEnd(s) == 0 then s else TrimEnd(s[..|s| - WhiteEnd(s)])
  }

  function Trim(s: bytes): bytes {
    TrimEnd(TrimStart(s))
  }

  predicate IsVisible(b: byte) {
    0x21 <= b < 0x80
  }

  lemma PlainEnd(s: bytes)
    requires s != [] && IsVisible(s[|s| - 1])
    ensures WhiteEnd(s) == 0 && TrimEnd(s) == s
  {
  }

  lemma PlainStart(s: bytes)
    requires s != [] && IsVisible(s[0])
    ensures WhiteLen(s) == 0 && TrimStart(s) == s
  {
  }

  /** Text that neither starts nor ends with white space is left alone. */
  lemma Untrimmed(s: bytes)
    requires s != [] && IsVisible(s[0]) && IsVisible(s[|s| - 1])
    ensures Trim(s) == s
  {
    hide WhiteLen, WhiteEnd;
    PlainStart(s);
    PlainEnd(s);
  }

  // ---------- against the property White_Space ----------

  /** The start of a text tells whether its first character is white space. */
  lemma WhiteFirst(c: scalar, rest: bytes)
    ensures WhiteLen(EncodeScalar(c) + rest) == if IsWhite(c) then |EncodeScalar(c)| else 0
  {
    var e := EncodeScalar(c);
    var s := e + rest;
    assert forall i :: 0 <= i < |e| ==> s[i] == e[i];
  }

  /** So does the end, whatever is in front of the last character. */
  lemma WhiteLast(before: bytes, c: scalar)
    ensures WhiteEnd(before + EncodeScalar(c)) == if IsWhite(c) then |EncodeScalar(c)| else 0
  {
    var e, k := EncodeScalar(c), |before|;
    var s := before + e;
    assert forall i :: 0 <= i < |e| ==> s[k + i] == e[i];
  }

  lemma {:induction false} TrimStartOver(a: seq<scalar>, s: bytes)
    requires AllWhite(a)
    ensures TrimStart(EncodeAll(a) + s) == TrimStart(s)
  {
    hide WhiteLen, EncodeScalar;
    if a == [] {
      assert EncodeAll(a) + s == s;
    } else {
      var e, rest := EncodeScalar(a[0]), EncodeAll(a[1..]) + s;
      WhiteFirst(a[0], rest);
      assert EncodeAll(a) + s == e + rest && (e + rest)[|e|..] == rest;
      TrimStartOver(a[1..], s);
    }
  }

  lemma {:induction false} TrimEndOver(s: bytes, a: seq<scalar>)
    requires AllWhite(a)
    ensures TrimEnd(s + EncodeAll(a)) == TrimEnd(s)
  {
    hide WhiteEnd, EncodeScalar;
    if a == [] {
      assert s + EncodeAll(a) == s;
    } else {
      var k := |a| - 1;
      var front, e := s + EncodeAll(a[..k]), EncodeScalar(a[k]);
      EncodeLast(a[..k], a[k]);
      assert a == a[..k] + [a[k]] && s + EncodeAll(a) == front + e;
      WhiteLast(front, a[k]);
      assert (front + e)[..|front|] == front;
      TrimEndOver(s, a[..k]);
    }
  }

  /** Text that neither starts nor ends with white space. */
  predicate Trimmed(s: bytes) {
    WhiteLen(s) == 0 && WhiteEnd(s) == 0
  }

  /** No white-space character is completed by another that follows. */
  lemma WhiteLenKept(p: bytes, a: seq<scalar>)
    requires p != [] && WhiteLen(p) == 0
    ensures WhiteLen(p + EncodeAll(a)) == 0
  {
    var s := p + EncodeAll(a);
    if a != [] { assert EncodeAll(a)[0] == EncodeScalar(a[0])[0] == s[|p|]; }
    assert forall i :: 0 <= i < |p| ==> s[i] == p[i];
  }

  /** White space around a text is what trimming takes away. */
  lemma TrimAround(a: seq<scalar>, p: bytes, b: seq<scalar>)
    requires AllWhite(a) && AllWhite(b) && Trimmed(p)
    ensures Trim(EncodeAll(a) + p + EncodeAll(b)) == p
  {
    hide WhiteLen, WhiteEnd, EncodeAll;
    assert EncodeAll(a) + p + EncodeAll(b) == EncodeAll(a) + (p + EncodeAll(b));
    TrimStartOver(a, p + EncodeAll(b));
    if p == [] {
      assert p + EncodeAll(b) == EncodeAll(b) + p;
      TrimStartOver(b, p);
    } else {
      WhiteLenKept(p, b);
      TrimEndOver(p, b);
    }
  }

  lemma BlankTrimmed(a: seq<scalar>)
    requires AllWhite(a)
    ensures Trim(EncodeAll(a)) == []
  {
    NothingEncoded();
    hide TrimStart, TrimEnd, EncodeAll;
    TrimAround(a, [], []);
    assert EncodeAll(a) + [] + EncodeAll([]) == EncodeAll(a);
  }

  lemma WhiteScalar(s: bytes) returns (c: scalar)
    requires WhiteLen(s) > 0
    ensures IsWhite(c) && s[..WhiteLen(s)] == EncodeScalar(c)
  {
    match WhiteLen(s) {
      case 1 => c := s[0];
      case 2 => c := s[1];
      case _ =>
        var low: nat := s[2];
        c := if s[0] == 0xE1 then 0x1680 else if s[0] == 0xE3 then 0x3000
             else if s[1] == 0x81 then 0x205F else 0x2000 + low - 0x80;
    }
  }

  lemma WhiteScalarLast(s: bytes) returns (c: scalar)
    requires WhiteEnd(s) > 0
    ensures IsWhite(c) && s[|s| - WhiteEnd(s)..] == EncodeScalar(c)
  {
    var t := s[|s| - WhiteEnd(s)..];
    assert WhiteLen(t) == |t| && t[..|t|] == t;
    c := WhiteScalar(t);
  }

  lemma TrimStartNext(s: bytes)
    ensures TrimStart(s) == if WhiteLen(s) == 0 then s else TrimStart(s[WhiteLen(s)..])
  {
  }

  lemma TrimEndNext(s: bytes)
    ensures TrimEnd(s) == if WhiteEnd(s) == 0 then s else TrimEnd(s[..|s| - WhiteEnd(s)])
  {
  }

  /** What is trimmed from the front is white space, and all of it. */
  lemma {:induction false} TrimmedFront(s: bytes) returns (a: seq<scalar>)
    ensures AllWhite(a) && s == EncodeAll(a) + TrimStart(s) && WhiteLen(TrimStart(s)) == 0
    decreases |s|
  {
    hide WhiteLen, EncodeScalar, EncodeAll, TrimStart;
    NothingEncoded();
    TrimStartNext(s);
    if WhiteLen(s) == 0 {
      a := [];
    } else {
      var c := WhiteScalar(s);
      var n := WhiteLen(s);
      var rest := TrimmedFront(s[n..]);
      a := [c] + rest;
      EncodeOne(c);
      EncodeConcat([c], rest);
      assert s == s[..n] + s[n..];
    }
  }

  lemma {:induction false} TrimmedBack(s: bytes) returns (b: seq<scalar>)
    ensures AllWhite(b) && s == TrimEnd(s) + EncodeAll(b) && WhiteEnd(TrimEnd(s)) == 0
    decreases |s|
  {
    hide WhiteEnd, EncodeScalar, EncodeAll, TrimEnd;
    NothingEncoded();
    TrimEndNext(s);
    if WhiteEnd(s) == 0 {
      b := [];
    } else {
      var c := WhiteScalarLast(s);
      var n := WhiteEnd(s);
      var rest := TrimmedBack(s[..|s| - n]);
      b := rest + [c];
      EncodeLast(rest, c);
      assert s == s[..|s| - n] + s[|s| - n..];
    }
  }

  /** The start of a text that starts without white space stays so when its end is cut off. */
  lemma WhiteLenPrefix(s: bytes, n: nat)
    requires n <= |s| && WhiteLen(s) == 0
    ensures WhiteLen(s[..n]) == 0
  {
  }

  /** Trimming takes white space away at both ends, and all of it. */
  lemma TrimmedBoth(s: bytes) returns (a: seq<scalar>, b: seq<scalar>)
    ensures AllWhite(a) && AllWhite(b) && s == EncodeAll(a) + Trim(s) + EncodeAll(b) && Trimmed(Trim(s))
  {
    hide WhiteLen, WhiteEnd, EncodeAll;
    a := TrimmedFront(s);
    var t := TrimStart(s);
    b := TrimmedBack(t);
    assert t[..|Trim(s)|] == Trim(s);
    WhiteLenPrefix(t, |Trim(s)|);
  }
}
