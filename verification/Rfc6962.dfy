/**
 The domain-separated hashing of RFC 6962 section 2.1 and the trees, audit
 paths and consistency proofs that the standard builds from it by recursion.
 As in the program, everything is generic in the digest type.
 */
module Rfc6962 {
  import opened Bits
  import opened Common

  datatype Hasher<!L, !D> = Hasher(empty: D, leaf: L -> D, node: (D, D) -> D)

  /** The largest power of two strictly below n, by doubling k while it stays below. */
  function DoubleBelow(n: nat, k: nat): (r: nat)
    requires 0 < k < n
    ensures 0 < r < n
    decreases n - k
  {
    if 2 * k < n then DoubleBelow(n, 2 * k) else k
  }

  function Split(n: nat): (k: nat)
    requires n > 1
    ensures 0 < k < n
  {
    DoubleBelow(n, 1)
  }

  lemma {:induction false} DoubleBelowIs(n: nat, e: nat, f: nat)
    requires e <= f && Pow2(f) < n <= Pow2(f + 1)
    ensures Pow2(e) < n && DoubleBelow(n, Pow2(e)) == Pow2(f)
    decreases f - e
  {
    Pow2Monotone(e, f);
    if e < f {
      Pow2Monotone(e + 1, f);
      DoubleBelowIs(n, e + 1, f);
    }
  }

  lemma SplitIs(n: nat, e: nat)
    requires Pow2(e) < n <= Pow2(e + 1)
    ensures Split(n) == Pow2(e)
  {
    DoubleBelowIs(n, 0, e);
  }

  lemma {:induction false} SplitExp(n: nat) returns (e: nat)
    requires n > 1
    ensures Pow2(e) < n <= Pow2(e + 1) && Split(n) == Pow2(e)
  {
    e := 0;
    while Pow2(e + 1) < n
      invariant Pow2(e) < n
      decreases n - Pow2(e)
    {
      e := e + 1;
    }
    SplitIs(n, e);
  }

  /** The Merkle Tree Hash of D[lo:hi]. */
  function Root<L, D>(h: Hasher<L, D>, d: seq<L>, lo: nat, hi: nat): D
    requires lo <= hi <= |d|
    decreases hi - lo
  {
    if hi == lo then h.empty
    else if hi == lo + 1 then h.leaf(d[lo])
    else
      var k := Split(hi - lo);
      h.node(Root(h, d, lo, lo + k), Root(h, d, lo + k, hi))
  }

  /** The audit path of entry i of D[lo:hi], deepest sibling first (section 2.1.1). */
  function AuditPath<L, D>(h: Hasher<L, D>, i: nat, d: seq<L>, lo: nat, hi: nat): seq<D>
    requires lo + i < hi <= |d|
    decreases hi - lo
  {
    if hi == lo + 1 then []
    else
      var k := Split(hi - lo);
      if i < k then AuditPath(h, i, d, lo, lo + k) + [Root(h, d, lo + k, hi)]
      else AuditPath(h, i - k, d, lo + k, hi) + [Root(h, d, lo, lo + k)]
  }

  /** The consistency proof between the first m entries and all of them (section 2.1.2). */
  function ConsistencyProof<L, D>(h: Hasher<L, D>, m: nat, d: seq<L>): seq<D>
    requires 0 < m < |d|
  {
    SubProof(h, m, d, 0, |d|, true)
  }

  function SubProof<L, D>(h: Hasher<L, D>, m: nat, d: seq<L>, lo: nat, hi: nat, complete: bool): seq<D>
    requires 0 < m && lo + m <= hi <= |d|
    decreases hi - lo
  {
    if lo + m == hi then
      if complete then [] else [Root(h, d, lo, hi)]
    else
      var k := Split(hi - lo);
      if m <= k then SubProof(h, m, d, lo, lo + k, complete) + [Root(h, d, lo + k, hi)]
      else SubProof(h, m - k, d, lo + k, hi, false) + [Root(h, d, lo, lo + k)]
  }

  // ---------- the standard's hasher ----------

  type Leaf = bytes
  type Digest = s: bytes | |s| == 32 witness seq(32, _ => 0)
  type HashFn = bytes -> Digest

  /** One byte in front of the input tells leaves from inner nodes. */
  function Rfc6962Hasher(hash: HashFn): Hasher<Leaf, Digest> {
    Hasher(hash([]), (leaf: Leaf) => hash([0] + leaf), (l: Digest, r: Digest) => hash([1] + l + r))
  }
}
