/** Decimal numbers as they are printed, and as `str::parse::<u64>` reads them. */
module Decimal {
  import opened Bits
  import opened Common

  predicate IsDigit(b: byte) {
    0x30 <= b <= 0x39
  }

  function Show(n: nat): bytes {
    if n < 10 then [0x30 + n] else Show(n / 10) + [0x30 + n % 10]
  }

  /** The value of a digit string that continues `n`; nothing on overflow or another byte. */
  function DigitsValue(n: u64, s: bytes): Option<u64>
    decreases |s|
  {
    if s == [] then Some(n)
    else if !IsDigit(s[0]) then None
    else
      var m := n * 10 + (s[0] - 0x30);
      if m >= U64_LIMIT then None else DigitsValue(m, s[1..])
  }

  /** A leading plus sign and leading zeros are accepted. */
  function Parse(s: bytes): Option<u64> {
    var t := if s != [] && s[0] == 0x2B then s[1..] else s;
    if t == [] then None else DigitsValue(0, t)
  }

  lemma {:induction false} DigitsConcat(n: u64, s: bytes, t: bytes)
    ensures DigitsValue(n, s + t) == match DigitsValue(n, s) case None => None case Some(m) => DigitsValue(m, t)
    decreases |s|
  {
    if s == [] {
      assert s + t == t;
    } else {
      assert (s + t)[1..] == s[1..] + t;
      if IsDigit(s[0]) && n * 10 + (s[0] - 0x30) < U64_LIMIT { DigitsConcat(n * 10 + (s[0] - 0x30), s[1..], t); }
    }
  }

  lemma {:induction false} ShowDigits(n: nat)
    ensures Show(n) != [] && forall i :: 0 <= i < |Show(n)| ==> IsDigit(Show(n)[i])
    ensures n < U64_LIMIT ==> DigitsValue(0, Show(n)) == Some(n)
    ensures n >= U64_LIMIT ==> DigitsValue(0, Show(n)).None?
  {
    if n < 10 {
      assert [0x30 + n][1..] == [];
    } else {
      ShowDigits(n / 10);
      DigitsConcat(0, Show(n / 10), [0x30 + n % 10]);
      assert [0x30 + n % 10][1..] == [];
    }
  }

  /** A printed number is read back exactly when it fits in 64 bits. */
  lemma ShowParse(n: nat)
    ensures Parse(Show(n)) == if n < U64_LIMIT then Some(n) else None
    ensures Show(n) != [] && forall i :: 0 <= i < |Show(n)| ==> IsDigit(Show(n)[i])
  {
    ShowDigits(n);
  }

  // ---------- which texts are numbers ----------

  /** A printed number has no leading zero, unless it is zero. */
  lemma {:induction false} ShowCanonical(n: nat)
    ensures Show(n) != [] && (Show(n)[0] == 0x30 <==> n == 0)
  {
    if n >= 10 { ShowCanonical(n / 10); }
  }

  function Zeros(k: nat): bytes {
    if k == 0 then [] else [0x30] + Zeros(k - 1)
  }

  lemma {:induction false} ZerosIgnored(k: nat, s: bytes)
    ensures DigitsValue(0, Zeros(k) + s) == DigitsValue(0, s)
  {
    if k == 0 {
      assert Zeros(k) + s == s;
    } else {
      ZerosIgnored(k - 1, s);
      assert (Zeros(k) + s)[1..] == Zeros(k - 1) + s;
    }
  }

  lemma {:induction false} SplitZeros(s: bytes) returns (k: nat, t: bytes)
    ensures s == Zeros(k) + t && (t == [] || t[0] != 0x30)
  {
    if s == [] || s[0] != 0x30 {
      k, t := 0, s;
    } else {
      k, t := SplitZeros(s[1..]);
      k := k + 1;
      assert s == [0x30] + s[1..];
    }
  }

  /** Digits without a leading zero are the ones that are printed. */
  lemma {:induction false} DigitsShown(s: bytes, n: nat)
    requires s != [] && s[0] != 0x30 && DigitsValue(0, s) == Some(n)
    ensures s == Show(n) && n > 0
    decreases |s|
  {
    var k := |s| - 1;
    var front, x := s[..k], s[k];
    assert s == front + [x];
    DigitsConcat(0, front, [x]);
    assert [x][1..] == [];
    if k == 0 {
      assert DigitsValue(0, front) == Some(0);
    } else {
      DigitsShown(front, DigitsValue(0, front).value);
    }
  }

  lemma {:induction false} ZerosLast(k: nat)
    ensures Zeros(k + 1) == Zeros(k) + [0x30] && |Zeros(k)| == k
  {
    if k > 0 { ZerosLast(k - 1); }
  }

  /** A printed number, with zeros and a plus sign in front. */
  function Written(plus: bool, k: nat, n: nat): bytes {
    (if plus then [0x2B] else []) + (Zeros(k) + Show(n))
  }

  lemma WrittenParsed(plus: bool, k: nat, n: u64)
    ensures Parse(Written(plus, k, n)) == Some(n)
  {
    hide DigitsValue, Show;
    ShowParse(n);
    ShowDigits(n);
    ZerosIgnored(k, Show(n));
    var t := Zeros(k) + Show(n);
    ZerosStart(k, Show(n));
    assert Written(plus, k, n) == if plus then [0x2B] + t else t;
    assert ([0x2B] + t)[1..] == t;
  }

  lemma ZerosStart(k: nat, s: bytes)
    requires s != [] && s[0] != 0x2B
    ensures Zeros(k) + s != [] && (Zeros(k) + s)[0] != 0x2B
  {
  }

  lemma ParsedWritten(s: bytes) returns (plus: bool, k: nat)
    requires Parse(s).Some?
    ensures s == Written(plus, k, Parse(s).value)
  {
    hide DigitsValue, Show, Zeros;
    var n := Parse(s).value;
    plus := s != [] && s[0] == 0x2B;
    var t := if plus then s[1..] else s;
    assert s == (if plus then [0x2B] else []) + t;
    var d;
    k, d := SplitZeros(t);
    ZerosIgnored(k, d);
    if d == [] {
      NoDigits();
      ZerosLast(k);
      ZerosLast(k - 1);
      ShowZero();
      assert t == Zeros(k - 1) + Show(0);
      k := k - 1;
    } else {
      DigitsShown(d, n);
    }
  }

  lemma NoDigits()
    ensures DigitsValue(0, []) == Some(0)
  {
  }

  lemma ShowZero()
    ensures Show(0) == [0x30]
  {
  }

  /** Exactly the printed numbers are read, with any zeros and one plus sign in front, as long as they fit in 64 bits. */
  lemma ParseExact(s: bytes, n: nat)
    ensures Parse(s) == Some(n) <==> n < U64_LIMIT && exists plus, k :: s == Written(plus, k, n)
  {
    hide Parse, Written;
    if Parse(s) == Some(n) { var plus, k := ParsedWritten(s); }
    if n < U64_LIMIT && exists plus, k :: s == Written(plus, k, n) {
      var plus, k :| s == Written(plus, k, n);
      WrittenParsed(plus, k, n);
    }
  }

  /** The digits are decimal, the most significant first. */
  lemma {:induction false} ShowAppend(n: nat, d: nat)
    requires d < 10 && (n > 0 || d > 0)
    ensures Show(n * 10 + d) == (if n == 0 then [] else Show(n)) + [Ascii("0123456789")[d]]
  {
    assert (n * 10 + d) / 10 == n && (n * 10 + d) % 10 == d;
  }
}
