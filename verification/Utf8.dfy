/** Validation of UTF-8 as `core::str::from_utf8` does it. */
module Utf8 {
  import opened Common
  import opened Unicode

  datatype Head = Complete(len: nat) | Truncated | Invalid

  /** The number of bytes announced by a leading byte, 0 when it cannot lead. */
  function LeadLength(b: byte): nat {
    if b < 0x80 then 1
    else if 0xC2 <= b <= 0xDF then 2
    else if 0xE0 <= b <= 0xEF then 3
    else if 0xF0 <= b <= 0xF4 then 4
    else 0
  }

  predicate IsContinuation(b: byte) {
    0x80 <= b <= 0xBF
  }

  predicate IsSecond(lead: byte, b: byte) {
    if lead == 0xE0 then 0xA0 <= b <= 0xBF
    else if lead == 0xED then 0x80 <= b <= 0x9F
    else if lead == 0xF0 then 0x90 <= b <= 0xBF
    else if lead == 0xF4 then 0x80 <= b <= 0x8F
    else IsContinuation(b)
  }

  /** What the first bytes of `s` are: one character, the start of one, or neither. */
  function FirstChar(s: bytes): (h: Head)
    requires s != []
    ensures h.Complete? ==> 1 <= h.len <= |s| && h.len <= 4
    ensures h.Truncated? ==> |s| <= 3
  {
    var n := LeadLength(s[0]);
    if n == 0 then Invalid
    else if n == 1 then Complete(1)
    else if |s| < 2 then Truncated
    else if !IsSecond(s[0], s[1]) then Invalid
    else if n == 2 then Complete(2)
    else if |s| < 3 then Truncated
    else if !IsContinuation(s[2]) then Invalid
    else if n == 3 then Complete(3)
    else if |s| < 4 then Truncated
    else if !IsContinuation(s[3]) then Invalid
    else Complete(4)
  }

  datatype Status = Whole | Partial | Broken

  /** The length of the valid prefix, and why it ends there. */
  function Scan(s: bytes): (r: (nat, Status))
    ensures r.0 <= |s|
    ensures r.1.Whole? <==> r.0 == |s|
    ensures r.1.Partial? ==> |s| - r.0 <= 3
    decreases |s|
  {
    if s == [] then (0, Whole)
    else
      match FirstChar(s)
      case Complete(n) => var (k, st) := Scan(s[n..]); (n + k, st)
      case Truncated => (0, Partial)
      case Invalid => (0, Broken)
  }

  predicate Valid(s: bytes) {
    Scan(s).1.Whole?
  }

  /** A decided character stays decided when more bytes arrive. */
  lemma FirstCharStable(s: bytes, t: bytes)
    requires s != [] && !FirstChar(s).Truncated?
    ensures FirstChar(s + t) == FirstChar(s)
  {
  }

  lemma ScanStep(s: bytes)
    requires s != []
    ensures FirstChar(s).Complete? ==>
      var n := FirstChar(s).len;
      n <= |s| && Scan(s) == (n + Scan(s[n..]).0, Scan(s[n..]).1)
    ensures FirstChar(s).Truncated? ==> Scan(s) == (0, Partial)
    ensures FirstChar(s).Invalid? ==> Scan(s) == (0, Broken)
  {
    hide FirstChar;
  }

  lemma ScanNothing()
    ensures Scan([]) == (0, Whole)
  {
  }

  /**
   Carrying the undecided tail over to the next bytes loses nothing: scanning
   in two parts is scanning the whole.
   */
  lemma {:induction false} ScanCarry(s: bytes, t: bytes)
    ensures var (n, st) := Scan(s);
      Scan(s + t) == if st.Broken? then (n, st) else var (k, st') := Scan(s[n..] + t); (n + k, st')
    decreases |s|
  {
    hide FirstChar, Scan;
    if s == [] {
      ScanNothing();
      assert s + t == t;
    } else {
      ScanStep(s);
      assert s[0..] == s;
      if !FirstChar(s).Truncated? {
        FirstCharStable(s, t);
        ScanStep(s + t);
      }
      if FirstChar(s).Complete? {
        var n := FirstChar(s).len;
        ScanCarry(s[n..], t);
        assert (s + t)[n..] == s[n..] + t;
        var k := Scan(s[n..]).0;
        assert s[n..][k..] == s[n + k..];
      }
    }
  }

  lemma ValidConcat(s: bytes, t: bytes)
    requires Valid(s) && Valid(t)
    ensures Valid(s + t)
  {
    ScanCarry(s, t);
    assert s[|s|..] + t == t;
  }

  lemma {:induction false} ValidAscii(s: bytes)
    requires forall i :: 0 <= i < |s| ==> s[i] < 0x80
    ensures Valid(s)
    decreases |s|
  {
    if s != [] { ValidAscii(s[1..]); }
  }

  /** A character that is decided needs none of the bytes behind it. */
  lemma FirstCharAlone(s: bytes, n: nat)
    requires s != [] && FirstChar(s) == Complete(n)
    ensures FirstChar(s[..n]) == Complete(n)
    ensures forall i :: 0 < i < n ==> s[i] >= 0x80
  {
  }

  /** The bytes behind the valid prefix are still undecided, unless they are invalid. */
  lemma {:induction false} ScanRest(s: bytes)
    ensures var (n, st) := Scan(s); Scan(s[n..]) == (0, st)
    decreases |s|
  {
    if s == [] {
    } else {
      match FirstChar(s)
      case Complete(n) =>
        ScanRest(s[n..]);
        var k := Scan(s[n..]).0;
        assert s[n..][k..] == s[n + k..];
      case Truncated => assert s[0..] == s;
      case Invalid => assert s[0..] == s;
    }
  }

  lemma {:induction false} ScanValidPrefix(s: bytes)
    ensures Valid(s[..Scan(s).0])
    decreases |s|
  {
    if s != [] && FirstChar(s).Complete? {
      var n := FirstChar(s).len;
      ScanValidPrefix(s[n..]);
      var k := Scan(s[n..]).0;
      FirstCharAlone(s, n);
      OneChar(s[..n]);
      ValidConcat(s[..n], s[n..][..k]);
      assert s[..n + k] == s[..n] + s[n..][..k];
    }
  }

  lemma OneChar(c: bytes)
    requires c != [] && FirstChar(c) == Complete(|c|)
    ensures Valid(c)
  {
    assert c[|c|..] == [];
  }

  /** A single-byte character starts at a character boundary. */
  lemma {:induction false} ValidBefore(s: bytes, i: nat)
    requires Valid(s) && i < |s| && s[i] < 0x80
    ensures Valid(s[..i])
    decreases |s|
  {
    hide FirstChar, Scan;
    ScanStep(s);
    ScanNothing();
    if i > 0 {
      var n := FirstChar(s).len;
      FirstCharAlone(s, n);
      assert s[n..][i - n] == s[i];
      ValidBefore(s[n..], i - n);
      OneChar(s[..n]);
      ValidConcat(s[..n], s[n..][..i - n]);
      assert s[..i] == s[..n] + s[n..][..i - n];
    }
  }

  // ---------- against the encoding of scalar values ----------

  /** Every encoded scalar value is one complete character, whatever follows it. */
  lemma EncodedChar(c: scalar, rest: bytes)
    ensures FirstChar(EncodeScalar(c) + rest) == Complete(|EncodeScalar(c)|)
  {
    var e := EncodeScalar(c);
    var s := e + rest;
    assert forall i :: 0 <= i < |e| ==> s[i] == e[i];
  }

  lemma SixBits(a: nat, x: nat)
    requires x < 0x40
    ensures (a * 0x40 + x) / 0x40 == a && (a * 0x40 + x) % 0x40 == x
  {
  }

  /** The scalar value made of the bits of the leading byte and of the continuation bytes. */
  lemma TwoBytes(s: bytes) returns (c: scalar)
    requires |s| == 2 && FirstChar(s) == Complete(2)
    ensures s == EncodeScalar(c)
  {
    var a: nat, x: nat := s[0] - 0xC0, s[1] - 0x80;
    SixBits(a, x);
    c := a * 0x40 + x;
  }

  lemma ThreeBytes(s: bytes) returns (c: scalar)
    requires |s| == 3 && FirstChar(s) == Complete(3)
    ensures s == EncodeScalar(c)
  {
    var a: nat, x: nat, y: nat := s[0] - 0xE0, s[1] - 0x80, s[2] - 0x80;
    SixBits(a, x);
    SixBits(a * 0x40 + x, y);
    c := (a * 0x40 + x) * 0x40 + y;
  }

  lemma FourBytes(s: bytes) returns (c: scalar)
    requires |s| == 4 && FirstChar(s) == Complete(4)
    ensures s == EncodeScalar(c)
  {
    var a: nat, x: nat, y: nat, z: nat := s[0] - 0xF0, s[1] - 0x80, s[2] - 0x80, s[3] - 0x80;
    SixBits(a, x);
    SixBits(a * 0x40 + x, y);
    SixBits((a * 0x40 + x) * 0x40 + y, z);
    c := ((a * 0x40 + x) * 0x40 + y) * 0x40 + z;
  }

  lemma OneByte(s: bytes)
    requires |s| == 1 && FirstChar(s) == Complete(1)
    ensures s[0] < 0x80 && s == EncodeScalar(s[0])
  {
  }

  /** There are no other complete characters. */
  lemma CompleteChar(s: bytes) returns (c: scalar)
    requires s != [] && FirstChar(s).Complete?
    ensures s[..FirstChar(s).len] == EncodeScalar(c)
  {
    hide FirstChar, EncodeScalar;
    var n := FirstChar(s).len;
    FirstCharAlone(s, n);
    match n {
      case 1 => OneByte(s[..1]); c := s[..1][0];
      case 2 => c := TwoBytes(s[..2]);
      case 3 => c := ThreeBytes(s[..3]);
      case _ => c := FourBytes(s[..4]);
    }
  }

  /** A truncated character is the start of one. */
  lemma Completed(s: bytes) returns (t: bytes)
    requires s != [] && FirstChar(s).Truncated?
    ensures FirstChar(s + t) == Complete(|s + t|)
  {
    var second := if s[0] == 0xE0 then 0xA0 else if s[0] == 0xF0 then 0x90 else 0x80;
    var n := LeadLength(s[0]);
    t := if |s| == 1 then [second, 0x80, 0x80][..n - 1] else [0x80, 0x80][..n - |s|];
  }

  lemma {:induction false} EncodedValid(cs: seq<scalar>)
    ensures Valid(EncodeAll(cs))
  {
    hide FirstChar, Scan, EncodeScalar;
    ScanNothing();
    if cs != [] {
      EncodedValid(cs[1..]);
      var e := EncodeScalar(cs[0]);
      EncodedChar(cs[0], []);
      assert e + [] == e;
      OneChar(e);
      ValidConcat(e, EncodeAll(cs[1..]));
    }
  }

  lemma {:induction false} ValidScalars(s: bytes) returns (cs: seq<scalar>)
    requires Valid(s)
    ensures s == EncodeAll(cs)
    decreases |s|
  {
    hide FirstChar, Scan, EncodeScalar;
    if s == [] {
      cs := [];
    } else {
      ScanStep(s);
      var c := CompleteChar(s);
      var n := FirstChar(s).len;
      var rest := ValidScalars(s[n..]);
      cs := [c] + rest;
      assert cs[1..] == rest && s == s[..n] + s[n..];
    }
  }

  /** Valid texts are exactly the encodings of sequences of scalar values. */
  lemma ValidExact(s: bytes)
    ensures Valid(s) <==> exists cs :: s == EncodeAll(cs)
  {
    hide Valid, EncodeAll;
    if Valid(s) { var cs := ValidScalars(s); }
    if exists cs :: s == EncodeAll(cs) {
      var cs :| s == EncodeAll(cs);
      EncodedValid(cs);
    }
  }

  /** Bytes are broken exactly when nothing behind them makes them a text. */
  lemma BrokenExact(s: bytes)
    ensures Scan(s).1.Broken? <==> forall t :: !Valid(s + t)
  {
    hide FirstChar, Scan;
    var (n, status) := Scan(s);
    if status.Broken? {
      forall t ensures !Valid(s + t) { ScanCarry(s, t); }
    } else {
      var rest := s[n..];
      ScanValidPrefix(s);
      ScanRest(s);
      var t := [];
      if rest != [] {
        ScanStep(rest);
        t := Completed(rest);
        OneChar(rest + t);
        ValidConcat(s[..n], rest + t);
      }
      assert s + t == s[..n] + (rest + t);
      assert Valid(s + t) by { if rest == [] { assert s + t == s[..n]; } }
    }
  }

  /** What is passed on is the longest valid prefix. */
  lemma LongestValid(s: bytes, m: nat)
    requires m <= |s| && Valid(s[..m])
    ensures Valid(s[..Scan(s).0]) && m <= Scan(s).0
  {
    hide FirstChar, Scan;
    ScanValidPrefix(s);
    ScanCarry(s[..m], s[m..]);
    assert s[..m] + s[m..] == s && s[..m][m..] == [];
  }
}
