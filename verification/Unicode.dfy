/** Unicode scalar values, their UTF-8 form (RFC 3629), and which of them are white space. */
module Unicode {
  import opened Common

  type scalar = c: nat | c < 0xD800 || 0xE000 <= c < 0x110000

  function EncodeScalar(c: scalar): (r: bytes)
    ensures 1 <= |r| <= 4
  {
    var (high, low) := (c / 0x40, 0x80 + c % 0x40);
    var (higher, middle) := (high / 0x40, 0x80 + high % 0x40);
    if c < 0x80 then [c]
    else if c < 0x800 then [0xC0 + high, low]
    else if c < 0x10000 then [0xE0 + higher, middle, low]
    else [0xF0 + higher / 0x40, 0x80 + higher % 0x40, middle, low]
  }

  function EncodeAll(cs: seq<scalar>): bytes {
    if cs == [] then [] else EncodeScalar(cs[0]) + EncodeAll(cs[1..])
  }

  /** The property White_Space. */
  predicate IsWhite(c: scalar) {
    || 9 <= c <= 13 || c == 0x20 || c == 0x85 || c == 0xA0 || c == 0x1680 || 0x2000 <= c <= 0x200A
    || c == 0x2028 || c == 0x2029 || c == 0x202F || c == 0x205F || c == 0x3000
  }

  predicate AllWhite(cs: seq<scalar>) {
    forall i :: 0 <= i < |cs| ==> IsWhite(cs[i])
  }

  lemma {:induction false} EncodeConcat(a: seq<scalar>, b: seq<scalar>)
    ensures EncodeAll(a + b) == EncodeAll(a) + EncodeAll(b)
    decreases |a|
  {
    if a == [] {
      assert a + b == b;
    } else {
      EncodeConcat(a[1..], b);
      assert (a + b)[1..] == a[1..] + b;
    }
  }

  lemma EncodeOne(c: scalar)
    ensures EncodeAll([c]) == EncodeScalar(c)
  {
    var cs := [c];
    assert cs[1..] == [];
  }

  lemma EncodeLast(a: seq<scalar>, c: scalar)
    ensures EncodeAll(a + [c]) == EncodeAll(a) + EncodeScalar(c)
  {
    EncodeConcat(a, [c]);
    EncodeOne(c);
  }

  lemma NothingEncoded()
    ensures EncodeAll([]) == []
  {
  }
}
