/**
 The iterative verifier against the recursive definitions of RFC 6962: what it
 computes from honest proofs, and the sizes for which it accepts them.
 */
module MerkleCorrectness {
  import opened Bits
  import opened Rfc6962
  import opened ProofVerification

  const HALF: nat := 0x8000_0000_0000_0000

  // ---------- chaining ----------

  lemma {:induction false} ChainInnerHigh<L, D>(h: Hasher<L, D>, seed: D, proof: seq<D>, a: nat, e: nat)
    requires |proof| <= e
    ensures ChainInner(h, seed, proof, a + Pow2(e)) == ChainInner(h, seed, proof, a)
    ensures ChainInnerRight(h, seed, proof, a + Pow2(e)) == ChainInnerRight(h, seed, proof, a)
    decreases |proof|
  {
    if proof != [] {
      ChainInnerHigh(h, seed, proof[..|proof| - 1], a, e);
      BitHigh(a, e, |proof| - 1);
    }
  }

  lemma ChainInnerStep<L, D>(h: Hasher<L, D>, seed: D, proof: seq<D>, last: D, index: nat)
    ensures var acc := ChainInner(h, seed, proof, index);
      ChainInner(h, seed, proof + [last], index)
      == if Bit(index, |proof|) == 0 then h.node(acc, last) else h.node(last, acc)
    ensures var acc := ChainInnerRight(h, seed, proof, index);
      ChainInnerRight(h, seed, proof + [last], index)
      == if Bit(index, |proof|) == 1 then h.node(last, acc) else acc
  {
    assert (proof + [last])[..|proof|] == proof;
  }

  /** What the verifier computes from a proof of the right length. */
  ghost function Chain<L, D>(h: Hasher<L, D>, seed: D, proof: seq<D>, inner: nat, index: nat): D
    requires inner <= |proof|
  {
    ChainBorderRight(h, ChainInner(h, seed, proof[..inner], index), proof[inner..])
  }

  ghost function ChainRight<L, D>(h: Hasher<L, D>, seed: D, proof: seq<D>, inner: nat, index: nat): D
    requires inner <= |proof|
  {
    ChainBorderRight(h, ChainInnerRight(h, seed, proof[..inner], index), proof[inner..])
  }

  lemma ChainExtends<L, D>(h: Hasher<L, D>, seed: D, proof: seq<D>, last: D, inner: nat, index: nat)
    requires inner <= |proof|
    ensures Chain(h, seed, proof + [last], inner, index)
         == h.node(last, Chain(h, seed, proof, inner, index))
    ensures ChainRight(h, seed, proof + [last], inner, index)
         == h.node(last, ChainRight(h, seed, proof, inner, index))
  {
    var q := (proof + [last])[inner..];
    assert q[..|q| - 1] == proof[inner..] && q[|q| - 1] == last;
    assert (proof + [last])[..inner] == proof[..inner];
  }

  lemma ChainAllInner<L, D>(h: Hasher<L, D>, seed: D, proof: seq<D>, index: nat)
    ensures Chain(h, seed, proof, |proof|, index) == ChainInner(h, seed, proof, index)
    ensures ChainRight(h, seed, proof, |proof|, index) == ChainInnerRight(h, seed, proof, index)
  {
    assert proof[..|proof|] == proof && proof[|proof|..] == [];
  }

  lemma ChainHigh<L, D>(h: Hasher<L, D>, seed: D, proof: seq<D>, inner: nat, a: nat, e: nat)
    requires inner <= |proof| && inner <= e
    ensures Chain(h, seed, proof, inner, a + Pow2(e)) == Chain(h, seed, proof, inner, a)
    ensures ChainRight(h, seed, proof, inner, a + Pow2(e)) == ChainRight(h, seed, proof, inner, a)
  {
    ChainInnerHigh(h, seed, proof[..inner], a, e);
  }

  // ---------- decomposition ----------

  ghost function Inner(i: nat, n: nat): nat
    requires i < n
  {
    BitLength(Xor(i, n - 1))
  }

  ghost function Border(i: nat, n: nat): nat
    requires i < n
  {
    CountOnes(High(i, Inner(i, n)))
  }

  lemma DecompLeft(i: nat, n: nat, e: nat)
    requires i < Pow2(e) < n <= Pow2(e + 1)
    ensures Inner(i, n) == e + 1 && Border(i, n) == 0
  {
    assert Pow2(0) == 1;
    hide Pow2, Xor, BitLength, High;
    var b := n - 1 - Pow2(e);
    assert n - 1 == b + Pow2(e);
    Pow2Double(e);
    XorOneHigh(i, b, e);
    BitLengthIs(Xor(i, n - 1), e);
    HighBelow(i, e + 1, e + 1);
  }

  lemma DecompRight(i: nat, n: nat, e: nat)
    requires i < n <= Pow2(e)
    ensures var k := Pow2(e);
      Inner(i + k, n + k) == Inner(i, n) <= e && Border(i + k, n + k) == Border(i, n) + 1
  {
    hide Pow2, Xor, BitLength, High;
    var t := Inner(i, n);
    assert n + Pow2(e) - 1 == n - 1 + Pow2(e);
    XorBothHigh(i, n - 1, e);
    XorBelow(i, n - 1, e);
    BitLengthAtMost(Xor(i, n - 1), e);
    HighSum(i, e, t);
    HighBelow(i, e, t);
    CountOnesHigh(High(i, t), e - t);
  }

  /** Left of the split every level is an inner one; right of it the sizes shrink together. */
  lemma DecompAtSplit(i: nat, n: nat, e: nat)
    requires i < n && Pow2(e) < n <= Pow2(e + 1)
    ensures i < Pow2(e) ==> Inner(i, n) == e + 1 && Border(i, n) == 0
    ensures i >= Pow2(e) ==>
      var i', n' := i - Pow2(e), n - Pow2(e);
      Inner(i, n) == Inner(i', n') <= e && Border(i, n) == Border(i', n') + 1
  {
    hide Pow2, Inner, Border;
    Pow2Double(e);
    if i < Pow2(e) { DecompLeft(i, n, e); } else { DecompRight(i - Pow2(e), n - Pow2(e), e); }
  }

  lemma ShiftWraps(i: u64, n: u64)
    requires i < n
    ensures Inner(i, n) == InnerProofSize(i, n) <= 64
    ensures Inner(i, n) == 64 <==> i < HALF < n
  {
    hide Pow2, Xor, BitLength, InnerProofSize;
    InnerProofSizeIs(i, n);
    Pow2Word();
    if n - 1 >= HALF {
      var b := n - 1 - HALF;
      if i < HALF {
        XorOneHigh(i, b, 63);
        BitLengthIs(Xor(i, n - 1), 63);
      } else {
        XorBothHigh(i - HALF, b, 63);
        XorBelow(i - HALF, b, 63);
        BitLengthAtMost(Xor(i, n - 1), 63);
      }
    } else {
      XorBelow(i, n - 1, 63);
      BitLengthAtMost(Xor(i, n - 1), 63);
    }
  }

  /** The exact inputs on which the masked shift of the upper part is the real one. */
  lemma DecompExact(i: u64, n: u64)
    requires i < n
    ensures DecompInclusionProof(i, n).0 == Inner(i, n)
    ensures DecompInclusionProof(i, n).1 == Border(i, n) <==> (n <= HALF || i >= HALF || i == 0)
  {
    assert High(i, 0) == i;
    hide Pow2, Xor, BitLength, InnerProofSize, High;
    ShiftWraps(i, n);
    if Inner(i, n) == 64 {
      Pow2Word();
      HighBelow(i, 64, 64);
      CountOnesPositive(i);
    }
  }

  // ---------- inclusion ----------

  /** One more level of a complete tree: bit e of the index says on which side the sibling is. */
  lemma PerfectStep<L, D>(h: Hasher<L, D>, leaf: D, sub: seq<D>, a: nat, e: nat, sibling: D)
    requires a < Pow2(e) && |sub| == e
    ensures var acc := ChainInner(h, leaf, sub, a);
      && ChainInner(h, leaf, sub + [sibling], a) == h.node(acc, sibling)
      && ChainInner(h, leaf, sub + [sibling], a + Pow2(e)) == h.node(sibling, acc)
  {
    BitTop(a, e);
    ChainInnerHigh(h, leaf, sub, a, e);
    ChainInnerStep(h, leaf, sub, sibling, a);
    ChainInnerStep(h, leaf, sub, sibling, a + Pow2(e));
  }

  ghost predicate PathFolds<L, D>(h: Hasher<L, D>, i: nat, d: seq<L>, lo: nat, hi: nat, e: nat)
    requires lo + i < hi <= |d|
  {
    var path := AuditPath(h, i, d, lo, hi);
    |path| == e && ChainInner(h, h.leaf(d[lo + i]), path, i) == Root(h, d, lo, hi)
  }

  lemma PathFoldsLeft<L, D>(h: Hasher<L, D>, i: nat, d: seq<L>, lo: nat, hi: nat, k: nat, e: nat)
    requires lo + i < lo + k < hi <= |d| && k == Pow2(e) == Split(hi - lo) && PathFolds(h, i, d, lo, lo + k, e)
    ensures PathFolds(h, i, d, lo, hi, e + 1)
  {
    PerfectStep(h, h.leaf(d[lo + i]), AuditPath(h, i, d, lo, lo + k), i, e, Root(h, d, lo + k, hi));
  }

  lemma PathFoldsRight<L, D>(h: Hasher<L, D>, i: nat, d: seq<L>, lo: nat, hi: nat, k: nat, e: nat)
    requires lo + k + i < hi <= |d| && i < k == Pow2(e) == Split(hi - lo) && PathFolds(h, i, d, lo + k, hi, e)
    ensures PathFolds(h, i + k, d, lo, hi, e + 1)
  {
    PerfectStep(h, h.leaf(d[lo + k + i]), AuditPath(h, i, d, lo + k, hi), i, e, Root(h, d, lo, lo + k));
  }

  lemma LeafFolds<L, D>(h: Hasher<L, D>, d: seq<L>, lo: nat)
    requires lo < |d|
    ensures PathFolds(h, 0, d, lo, lo + 1, 0)
  {
  }

  lemma {:induction false} PerfectInclusion<L, D>(h: Hasher<L, D>, i: nat, d: seq<L>, lo: nat, hi: nat, e: nat)
    requires lo + i < hi <= |d| && hi == lo + Pow2(e)
    ensures PathFolds(h, i, d, lo, hi, e)
    decreases e
  {
    hide PathFolds;
    if e == 0 {
      LeafFolds(h, d, lo);
    } else {
      var k := Pow2(e - 1);
      SplitIs(hi - lo, e - 1);
      if i < k {
        PerfectInclusion(h, i, d, lo, lo + k, e - 1);
        PathFoldsLeft(h, i, d, lo, hi, k, e - 1);
      } else {
        PerfectInclusion(h, i - k, d, lo + k, hi, e - 1);
        PathFoldsRight(h, i - k, d, lo, hi, k, e - 1);
      }
    }
  }

  /** One more level of any tree, with a complete subtree on the left. */
  lemma BorderStep<L, D>(h: Hasher<L, D>, leaf: D, sub: seq<D>, a: nat, n: nat, e: nat, sibling: D)
    requires a < n <= Pow2(e) && |sub| == Inner(a, n) + Border(a, n)
    ensures Inner(a + Pow2(e), n + Pow2(e)) == Inner(a, n)
    ensures Border(a + Pow2(e), n + Pow2(e)) == Border(a, n) + 1
    ensures Chain(h, leaf, sub + [sibling], Inner(a, n), a + Pow2(e)) == h.node(sibling, Chain(h, leaf, sub, Inner(a, n), a))
  {
    DecompAtSplit(a + Pow2(e), n + Pow2(e), e);
    ChainHigh(h, leaf, sub, Inner(a, n), a, e);
    ChainExtends(h, leaf, sub, sibling, Inner(a, n), a + Pow2(e));
  }

  lemma InnerStep<L, D>(h: Hasher<L, D>, leaf: D, sub: seq<D>, a: nat, n: nat, e: nat, sibling: D)
    requires a < Pow2(e) < n <= Pow2(e + 1) && |sub| == e
    ensures Inner(a, n) == e + 1 && Border(a, n) == 0
    ensures Chain(h, leaf, sub + [sibling], e + 1, a) == h.node(ChainInner(h, leaf, sub, a), sibling)
  {
    DecompAtSplit(a, n, e);
    PerfectStep(h, leaf, sub, a, e, sibling);
    ChainAllInner(h, leaf, sub + [sibling], a);
  }

  ghost predicate PathChains<L, D>(h: Hasher<L, D>, i: nat, d: seq<L>, lo: nat, hi: nat)
    requires lo + i < hi <= |d|
  {
    var path, n := AuditPath(h, i, d, lo, hi), hi - lo;
    |path| == Inner(i, n) + Border(i, n) && Chain(h, h.leaf(d[lo + i]), path, Inner(i, n), i) == Root(h, d, lo, hi)
  }

  lemma PathAtSplit<L, D>(h: Hasher<L, D>, i: nat, d: seq<L>, lo: nat, hi: nat)
    requires lo + i < hi <= |d| && hi - lo > 1
    ensures var k := Split(hi - lo);
      && Root(h, d, lo, hi) == h.node(Root(h, d, lo, lo + k), Root(h, d, lo + k, hi))
      && AuditPath(h, i, d, lo, hi) ==
           if i < k then AuditPath(h, i, d, lo, lo + k) + [Root(h, d, lo + k, hi)]
           else AuditPath(h, i - k, d, lo + k, hi) + [Root(h, d, lo, lo + k)]
  {
    hide Split;
  }

  lemma PathChainsLeft<L, D>(h: Hasher<L, D>, i: nat, d: seq<L>, lo: nat, hi: nat, k: nat, e: nat)
    requires lo + i < lo + k < hi <= |d| && k == Pow2(e) == Split(hi - lo) && hi - lo <= Pow2(e + 1)
    requires PathFolds(h, i, d, lo, lo + k, e)
    ensures PathChains(h, i, d, lo, hi)
  {
    hide AuditPath, Root, Split, Inner, Border, Chain, Pow2;
    PathAtSplit(h, i, d, lo, hi);
    InnerStep(h, h.leaf(d[lo + i]), AuditPath(h, i, d, lo, lo + k), i, hi - lo, e, Root(h, d, lo + k, hi));
  }

  lemma PathChainsRight<L, D>(h: Hasher<L, D>, i: nat, d: seq<L>, lo: nat, hi: nat, k: nat, e: nat)
    requires lo + k + i < hi <= |d| && k == Pow2(e) == Split(hi - lo) && hi - lo <= k + k
    requires PathChains(h, i, d, lo + k, hi)
    ensures PathChains(h, i + k, d, lo, hi)
  {
    hide AuditPath, Root, Split, Inner, Border, Chain, Pow2;
    PathAtSplit(h, i + k, d, lo, hi);
    BorderStep(h, h.leaf(d[lo + k + i]), AuditPath(h, i, d, lo + k, hi), i, hi - lo - k, e, Root(h, d, lo, lo + k));
  }

  lemma PathChainsLeaf<L, D>(h: Hasher<L, D>, d: seq<L>, lo: nat)
    requires lo < |d|
    ensures PathChains(h, 0, d, lo, lo + 1)
  {
  }

  /** Folding the recursive audit path bit by bit gives the recursive root. */
  lemma {:induction false} AuditPathFolds<L, D>(h: Hasher<L, D>, i: nat, d: seq<L>, lo: nat, hi: nat)
    requires lo + i < hi <= |d|
    ensures PathChains(h, i, d, lo, hi)
    decreases hi - lo
  {
    hide PathChains, PathFolds, Pow2, Split;
    if hi - lo == 1 {
      PathChainsLeaf(h, d, lo);
    } else {
      var e := SplitExp(hi - lo);
      var k := Pow2(e);
      Pow2Double(e);
      if i < k {
        PerfectInclusion(h, i, d, lo, lo + k, e);
        PathChainsLeft(h, i, d, lo, hi, k, e);
      } else {
        AuditPathFolds(h, i - k, d, lo + k, hi);
        PathChainsRight(h, i - k, d, lo, hi, k, e);
      }
    }
  }

  /** The verifier in its own quantities. */
  lemma VerifyInclusionBody<L, D>(h: Hasher<L, D>, i: u64, leafHash: D, n: u64, proof: seq<D>, root: D)
    requires i < n
    ensures var r := VerifyInclusion(h, i, leafHash, n, proof, root);
      var (inner, border) := DecompInclusionProof(i, n);
      if |proof| != inner + border then r.Err? && r.error.WrongProofSize?
      else r.Ok? <==> Chain(h, leafHash, proof, inner, i) == root
  {
    hide DecompInclusionProof, ChainInner, ChainBorderRight;
  }

  /** The verifier in terms of the exact shift. */
  lemma VerifyInclusionChains<L, D>(h: Hasher<L, D>, i: u64, leafHash: D, n: u64, proof: seq<D>, root: D)
    requires i < n
    ensures var r := VerifyInclusion(h, i, leafHash, n, proof, root);
      var exact := n <= HALF || i >= HALF || i == 0;
      && (exact ==> (r.Ok? <==>
           |proof| == Inner(i, n) + Border(i, n) && Chain(h, leafHash, proof, Inner(i, n), i) == root))
      && (!exact && |proof| == Inner(i, n) + Border(i, n) ==> r.Err? && r.error.WrongProofSize?)
  {
    hide VerifyInclusion, DecompInclusionProof, Chain, Inner, Border;
    DecompExact(i, n);
    VerifyInclusionBody(h, i, leafHash, n, proof, root);
  }

  /**
   Completeness of inclusion, with its exact domain: the honest proof is
   accepted for every tree of at most 2^63 entries; above that size, the shift
   by 64 is masked to a shift by 0 and the proof of an entry in the lower half
   (other than entry 0) is refused for its size.
   */
  lemma InclusionComplete<L, D>(h: Hasher<L, D>, d: seq<L>, i: nat)
    requires i < |d| < U64_LIMIT
    ensures var r := VerifyInclusion(h, i, h.leaf(d[i]), |d|, AuditPath(h, i, d, 0, |d|), Root(h, d, 0, |d|));
      && (r.Ok? <==> (|d| <= HALF || i >= HALF || i == 0))
      && (!r.Ok? ==> r.error.WrongProofSize?)
  {
    AuditPathFolds(h, i, d, 0, |d|);
    VerifyInclusionChains(h, i, h.leaf(d[i]), |d|, AuditPath(h, i, d, 0, |d|), Root(h, d, 0, |d|));
  }

  // ---------- consistency ----------

  predicate IsPow2(m: u64)
    requires m > 0
  {
    m == Pow2(TrailingZeros(m))
  }

  /** The root of the largest complete subtree that ends the first m entries. */
  function Seed<L, D>(h: Hasher<L, D>, m: nat, d: seq<L>, lo: nat, hi: nat): D
    requires 0 < m && lo + m <= hi <= |d|
    decreases hi - lo
  {
    if lo + m == hi then Root(h, d, lo, hi)
    else
      var k := Split(hi - lo);
      if m <= k then Seed(h, m, d, lo, lo + k) else Seed(h, m - k, d, lo + k, hi)
  }

  /** The consistency proof above that subtree. */
  function Climb<L, D>(h: Hasher<L, D>, m: nat, d: seq<L>, lo: nat, hi: nat): seq<D>
    requires 0 < m && lo + m <= hi <= |d|
    decreases hi - lo
  {
    if lo + m == hi then []
    else
      var k := Split(hi - lo);
      if m <= k then Climb(h, m, d, lo, lo + k) + [Root(h, d, lo + k, hi)]
      else Climb(h, m - k, d, lo + k, hi) + [Root(h, d, lo, lo + k)]
  }

  ghost predicate Listed<L, D>(h: Hasher<L, D>, m: u64, d: seq<L>, lo: nat, hi: nat)
    requires 0 < m && lo + m <= hi <= |d|
  {
    var climb, seed := Climb(h, m, d, lo, hi), Seed(h, m, d, lo, hi);
    && SubProof(h, m, d, lo, hi, false) == [seed] + climb
    && (lo + m < hi || IsPow2(m) ==> SubProof(h, m, d, lo, hi, true) == (if IsPow2(m) then [] else [seed]) + climb)
    && (IsPow2(m) ==> seed == Root(h, d, lo, lo + m))
  }

  lemma ListedWhole<L, D>(h: Hasher<L, D>, m: u64, d: seq<L>, lo: nat)
    requires 0 < m && lo + m <= |d|
    ensures Listed(h, m, d, lo, lo + m)
  {
    hide IsPow2;
  }

  lemma ListedLeft<L, D>(h: Hasher<L, D>, m: u64, d: seq<L>, lo: nat, hi: nat, k: nat)
    requires 0 < m <= k && lo + k < hi <= |d| && k == Split(hi - lo) && (m == k ==> IsPow2(m))
    requires Listed(h, m, d, lo, lo + k)
    ensures Listed(h, m, d, lo, hi)
  {
    hide IsPow2;
    var climb, seed, last := Climb(h, m, d, lo, lo + k), Seed(h, m, d, lo, lo + k), [Root(h, d, lo + k, hi)];
    assert [seed] + climb + last == [seed] + (climb + last);
    assert [] + climb + last == [] + (climb + last);
  }

  lemma ListedRight<L, D>(h: Hasher<L, D>, m: u64, d: seq<L>, lo: nat, hi: nat, k: nat)
    requires k < m && lo + m < hi <= |d| && k == Split(hi - lo) && !IsPow2(m)
    requires Listed(h, m - k, d, lo + k, hi)
    ensures Listed(h, m, d, lo, hi)
  {
    hide IsPow2;
    var climb, seed, last := Climb(h, m - k, d, lo + k, hi), Seed(h, m - k, d, lo + k, hi), [Root(h, d, lo, lo + k)];
    assert [seed] + climb + last == [seed] + (climb + last);
  }

  /** The seed is listed unless the old tree is complete, when it is the old root. */
  lemma {:induction false} SubProofShape<L, D>(h: Hasher<L, D>, m: u64, d: seq<L>, lo: nat, hi: nat)
    requires 0 < m && lo + m <= hi <= |d| && hi - lo < U64_LIMIT
    ensures Listed(h, m, d, lo, hi)
    decreases hi - lo
  {
    hide Listed;
    if lo + m == hi {
      ListedWhole(h, m, d, lo);
    } else {
      var e := SplitExp(hi - lo);
      var k := Pow2(e);
      if m <= k {
        TrailingZerosPow2(e);
        SubProofShape(h, m, d, lo, lo + k);
        ListedLeft(h, m, d, lo, hi, k);
      } else {
        SubProofShape(h, m - k, d, lo + k, hi);
        NotPow2Between(m, e);
        ListedRight(h, m, d, lo, hi, k);
      }
    }
  }

  lemma NotPow2Between(m: u64, e: nat)
    requires Pow2(e) < m < Pow2(e + 1)
    ensures !IsPow2(m)
  {
    var s := TrailingZeros(m);
    if s <= e { Pow2Monotone(s, e); } else { Pow2Monotone(e + 1, s); }
  }

  function Mask(m: u64): nat
    requires m > 0
  {
    High(m - 1, TrailingZeros(m))
  }

  /** The mask of m is that of its low part with the top bit put back. */
  lemma MaskHigh(m: u64, e: nat)
    requires 0 < m < Pow2(e) && m + Pow2(e) < U64_LIMIT
    ensures var s := TrailingZeros(m);
      && s < e && TrailingZeros(m + Pow2(e)) == s
      && Mask(m + Pow2(e)) == Mask(m) + Pow2(e - s)
      && Bit(Mask(m + Pow2(e)), e - s) == 1
  {
    hide TrailingZeros, High, Pow2;
    var s := TrailingZeros(m);
    TrailingZerosBelow(m, e);
    TrailingZerosHigh(m, e);
    HighSum(m - 1, e, s);
    HighBelow(m - 1, e, s);
    BitTop(Mask(m), e - s);
  }

  ghost predicate BothFold<L, D>(h: Hasher<L, D>, seed: D, climb: seq<D>, mask: nat, newRoot: D, oldRoot: D) {
    ChainInner(h, seed, climb, mask) == newRoot && ChainInnerRight(h, seed, climb, mask) == oldRoot
  }

  /** One more level of a complete tree: old entries end on the left, or on the right. */
  lemma PerfectBothLeft<L, D>(h: Hasher<L, D>, seed: D, sub: seq<D>, m: u64, e: nat, n: D, o: D, sibling: D)
    requires 0 < m <= Pow2(e) && TrailingZeros(m) + |sub| == e && BothFold(h, seed, sub, Mask(m), n, o)
    ensures BothFold(h, seed, sub + [sibling], Mask(m), h.node(n, sibling), o)
  {
    HighBelow(m - 1, e, TrailingZeros(m));
    BitTop(Mask(m), |sub|);
    ChainInnerStep(h, seed, sub, sibling, Mask(m));
  }

  lemma PerfectBothRight<L, D>(h: Hasher<L, D>, seed: D, sub: seq<D>, m: u64, e: nat, n: D, o: D, sibling: D)
    requires 0 < m < Pow2(e) && m + Pow2(e) < U64_LIMIT
    requires TrailingZeros(m) + |sub| == e && BothFold(h, seed, sub, Mask(m), n, o)
    ensures TrailingZeros(m + Pow2(e)) == TrailingZeros(m)
    ensures BothFold(h, seed, sub + [sibling], Mask(m + Pow2(e)), h.node(sibling, n), h.node(sibling, o))
  {
    MaskHigh(m, e);
    ChainInnerHigh(h, seed, sub, Mask(m), |sub|);
    ChainInnerStep(h, seed, sub, sibling, Mask(m + Pow2(e)));
  }

  ghost predicate ClimbFolds<L, D>(h: Hasher<L, D>, m: u64, d: seq<L>, lo: nat, hi: nat, e: nat)
    requires 0 < m && lo + m <= hi <= |d|
  {
    var climb := Climb(h, m, d, lo, hi);
    && TrailingZeros(m) + |climb| == e
    && BothFold(h, Seed(h, m, d, lo, hi), climb, Mask(m), Root(h, d, lo, hi), Root(h, d, lo, lo + m))
  }

  lemma ClimbFoldsLeft<L, D>(h: Hasher<L, D>, m: u64, d: seq<L>, lo: nat, hi: nat, k: nat, e: nat)
    requires 0 < m <= k && lo + k < hi <= |d| && k == Pow2(e) == Split(hi - lo) && ClimbFolds(h, m, d, lo, lo + k, e)
    ensures ClimbFolds(h, m, d, lo, hi, e + 1)
  {
    PerfectBothLeft(h, Seed(h, m, d, lo, lo + k), Climb(h, m, d, lo, lo + k), m, e,
                    Root(h, d, lo, lo + k), Root(h, d, lo, lo + m), Root(h, d, lo + k, hi));
  }

  lemma ClimbFoldsRight<L, D>(h: Hasher<L, D>, m: u64, d: seq<L>, lo: nat, hi: nat, k: nat, e: nat)
    requires 0 < m < k && lo + k + m < hi <= |d| && k == Pow2(e) == Split(hi - lo) && m + k < U64_LIMIT
    requires ClimbFolds(h, m, d, lo + k, hi, e) && Split(m + k) == k
    ensures ClimbFolds(h, m + k, d, lo, hi, e + 1)
  {
    hide BothFold, ChainInner, ChainInnerRight, Mask, High;
    PerfectBothRight(h, Seed(h, m, d, lo + k, hi), Climb(h, m, d, lo + k, hi), m, e,
                     Root(h, d, lo + k, hi), Root(h, d, lo + k, lo + k + m), Root(h, d, lo, lo + k));
    assert lo + (m + k) == lo + k + m;
  }

  lemma WholeFolds<L, D>(h: Hasher<L, D>, m: u64, d: seq<L>, lo: nat, e: nat)
    requires m == Pow2(e) && lo + m <= |d|
    ensures ClimbFolds(h, m, d, lo, lo + m, e)
  {
    TrailingZerosPow2(e);
  }

  /** Both chains over a complete tree, by the bits of the mask. */
  lemma {:induction false} PerfectConsistency<L, D>(h: Hasher<L, D>, m: u64, d: seq<L>, lo: nat, hi: nat, e: nat)
    requires 0 < m <= Pow2(e) < U64_LIMIT && lo + Pow2(e) == hi <= |d|
    ensures ClimbFolds(h, m, d, lo, hi, e)
    decreases e
  {
    hide ClimbFolds, TrailingZeros;
    if m == Pow2(e) {
      WholeFolds(h, m, d, lo, e);
    } else {
      var k := Pow2(e - 1);
      SplitIs(hi - lo, e - 1);
      if m <= k {
        PerfectConsistency(h, m, d, lo, lo + k, e - 1);
        ClimbFoldsLeft(h, m, d, lo, hi, k, e - 1);
      } else {
        SplitIs(m, e - 1);
        PerfectConsistency(h, m - k, d, lo + k, hi, e - 1);
        ClimbFoldsRight(h, m - k, d, lo, hi, k, e - 1);
      }
    }
  }

  ghost predicate BothChain<L, D>(h: Hasher<L, D>, seed: D, climb: seq<D>, m: u64, n: nat, newRoot: D, oldRoot: D)
    requires 0 < m < n
  {
    var full, shift := Inner(m - 1, n), TrailingZeros(m);
    && shift <= full && shift + |climb| == full + Border(m - 1, n)
    && Chain(h, seed, climb, full - shift, Mask(m)) == newRoot
    && ChainRight(h, seed, climb, full - shift, Mask(m)) == oldRoot
  }

  lemma BothLeft<L, D>(h: Hasher<L, D>, seed: D, sub: seq<D>, m: u64, n: nat, e: nat, l: D, o: D, r: D)
    requires 0 < m <= Pow2(e) < n <= Pow2(e + 1)
    requires TrailingZeros(m) + |sub| == e && BothFold(h, seed, sub, Mask(m), l, o)
    ensures BothChain(h, seed, sub + [r], m, n, h.node(l, r), o)
  {
    DecompAtSplit(m - 1, n, e);
    PerfectBothLeft(h, seed, sub, m, e, l, o, r);
    ChainAllInner(h, seed, sub + [r], Mask(m));
  }

  lemma BothRight<L, D>(h: Hasher<L, D>, seed: D, sub: seq<D>, m: u64, n: nat, e: nat, r: D, o: D, l: D)
    requires 0 < m < n <= Pow2(e) && n + Pow2(e) < U64_LIMIT
    requires BothChain(h, seed, sub, m, n, r, o)
    ensures BothChain(h, seed, sub + [l], m + Pow2(e), n + Pow2(e), h.node(l, r), h.node(l, o))
  {
    hide Chain, ChainRight, Pow2, TrailingZeros, CountOnes, BitLength, Xor, High;
    var inner, s, mask := Inner(m - 1, n) - TrailingZeros(m), TrailingZeros(m), Mask(m);
    MaskHigh(m, e);
    BothRightSizes(m, n, e);
    ChainHigh(h, seed, sub, inner, mask, e - s);
    ChainExtends(h, seed, sub, l, inner, mask + Pow2(e - s));
  }

  lemma BothRightSizes(m: u64, n: nat, e: nat)
    requires 0 < m < n <= Pow2(e)
    ensures Inner(m + Pow2(e) - 1, n + Pow2(e)) == Inner(m - 1, n) <= e
    ensures Border(m + Pow2(e) - 1, n + Pow2(e)) == Border(m - 1, n) + 1
  {
    DecompAtSplit(m + Pow2(e) - 1, n + Pow2(e), e);
  }

  ghost predicate ClimbChains<L, D>(h: Hasher<L, D>, m: u64, d: seq<L>, lo: nat, hi: nat)
    requires 0 < m && lo + m < hi <= |d|
  {
    BothChain(h, Seed(h, m, d, lo, hi), Climb(h, m, d, lo, hi), m, hi - lo, Root(h, d, lo, hi), Root(h, d, lo, lo + m))
  }

  lemma ClimbChainsLeft<L, D>(h: Hasher<L, D>, m: u64, d: seq<L>, lo: nat, hi: nat, k: nat, e: nat)
    requires 0 < m <= k && lo + k < hi <= |d| && k == Pow2(e) == Split(hi - lo) && hi - lo <= Pow2(e + 1)
    requires ClimbFolds(h, m, d, lo, lo + k, e)
    ensures ClimbChains(h, m, d, lo, hi)
  {
    hide BothChain, Pow2;
    BothLeft(h, Seed(h, m, d, lo, lo + k), Climb(h, m, d, lo, lo + k), m, hi - lo, e,
             Root(h, d, lo, lo + k), Root(h, d, lo, lo + m), Root(h, d, lo + k, hi));
  }

  lemma ClimbChainsRight<L, D>(h: Hasher<L, D>, m: u64, d: seq<L>, lo: nat, hi: nat, k: nat, e: nat)
    requires 0 < m && lo + k + m < hi <= |d| && k == Pow2(e) == Split(hi - lo) && hi - lo <= k + k && hi - lo < U64_LIMIT
    requires ClimbChains(h, m, d, lo + k, hi) && Split(m + k) == k
    ensures ClimbChains(h, m + k, d, lo, hi)
  {
    hide BothChain, Pow2, TrailingZeros;
    BothRight(h, Seed(h, m, d, lo + k, hi), Climb(h, m, d, lo + k, hi), m, hi - lo - k, e,
              Root(h, d, lo + k, hi), Root(h, d, lo + k, lo + k + m), Root(h, d, lo, lo + k));
    assert lo + (m + k) == lo + k + m;
  }

  /** Both chains over any tree: one reaches the new root, the other the old. */
  lemma {:induction false} ConsistencyFolds<L, D>(h: Hasher<L, D>, m: u64, d: seq<L>, lo: nat, hi: nat)
    requires 0 < m && lo + m < hi <= |d| && hi - lo < U64_LIMIT
    ensures ClimbChains(h, m, d, lo, hi)
    decreases hi - lo
  {
    hide ClimbChains, ClimbFolds;
    var e := SplitExp(hi - lo);
    var k := Pow2(e);
    if m <= k {
      PerfectConsistency(h, m, d, lo, lo + k, e);
      ClimbChainsLeft(h, m, d, lo, hi, k, e);
    } else {
      SplitIs(m, e);
      ConsistencyFolds(h, m - k, d, lo + k, hi);
      ClimbChainsRight(h, m - k, d, lo, hi, k, e);
    }
  }

  /** The quantities of the verifier's last branch are the exact ones, or their sum is too large. */
  lemma ConsistencyShifts(m: u64, n: u64)
    requires 0 < m < n
    ensures var (full, border) := DecompInclusionProof(m - 1, n);
      && full == Inner(m - 1, n) > TrailingZeros(m)
      && (border == Border(m - 1, n) <==> n <= HALF || m > HALF || m == 1)
      && Shr(m - 1, TrailingZeros(m)) == Mask(m)
  {
    hide Inner, Border, CountOnes, High, Xor, InnerProofSize, TrailingZeros, Pow2;
    Pow2Word();
    TrailingZerosBelow(m, 64);
    DecompExact(m - 1, n);
    ShiftWraps(m - 1, n);
    InnerExceedsShift(m, n);
  }

  /** The verifier's last branch, in its own quantities. */
  lemma LastBranch<L, D>(h: Hasher<L, D>, m: u64, n: u64, proof: seq<D>, oldRoot: D, newRoot: D,
                         seed: D, rest: seq<D>, inner: nat, border: nat, mask: nat)
    requires 0 < m < n && proof != []
    requires DecompInclusionProof(m - 1, n) == (inner + TrailingZeros(m), border) && mask == Shr(m - 1, TrailingZeros(m))
    requires (seed, rest) == if IsPow2(m) then (oldRoot, proof) else (proof[0], proof[1..])
    ensures var r := VerifyConsistency(h, m, n, proof, oldRoot, newRoot);
      if |rest| != inner + border then r.Err? && r.error.WrongProofSize?
      else r.Ok? <==> Chain(h, seed, rest, inner, mask) == newRoot && ChainRight(h, seed, rest, inner, mask) == oldRoot
  {
    hide ChainInner, ChainInnerRight, ChainBorderRight, CountOnes, Shr, InnerProofSize, DecompInclusionProof, TrailingZeros, Pow2;
    assert proof[0..] == proof;
  }

  /** The verifier's last branch, in terms of the exact shift. */
  lemma VerifyConsistencyChains<L, D>(h: Hasher<L, D>, m: u64, n: u64, proof: seq<D>, oldRoot: D, newRoot: D)
    requires 0 < m < n && proof != []
    ensures var r := VerifyConsistency(h, m, n, proof, oldRoot, newRoot);
      var exact := n <= HALF || m > HALF || m == 1;
      var (seed, rest) := if IsPow2(m) then (oldRoot, proof) else (proof[0], proof[1..]);
      && (exact ==> (r.Ok? <==> BothChain(h, seed, rest, m, n, newRoot, oldRoot)))
      && (!exact && BothChain(h, seed, rest, m, n, newRoot, oldRoot) ==> r.Err? && r.error.WrongProofSize?)
  {
    hide VerifyConsistency, DecompInclusionProof, Chain, ChainRight, Shr, TrailingZeros, Mask, IsPow2, Inner, Border;
    ConsistencyShifts(m, n);
    var (full, border) := DecompInclusionProof(m - 1, n);
    var inner := full - TrailingZeros(m);
    var (seed, rest) := if IsPow2(m) then (oldRoot, proof) else (proof[0], proof[1..]);
    LastBranch(h, m, n, proof, oldRoot, newRoot, seed, rest, inner, border, Mask(m));
  }

  /** Listing the seed first, when it is listed, hides nothing. */
  lemma SeedListed<L, D>(h: Hasher<L, D>, m: u64, d: seq<L>)
    requires 0 < m < |d| < U64_LIMIT
    ensures var proof, seed, climb := ConsistencyProof(h, m, d), Seed(h, m, d, 0, |d|), Climb(h, m, d, 0, |d|);
      if IsPow2(m) then proof == climb && seed == Root(h, d, 0, m)
      else proof != [] && proof[0] == seed && proof[1..] == climb
    ensures ConsistencyProof(h, m, d) != []
  {
    SubProofShape(h, m, d, 0, |d|);
  }

  /**
   Completeness of consistency, with its exact domain, for every pair of sizes
   the recursive proof is defined on.
   */
  lemma ConsistencyComplete<L, D>(h: Hasher<L, D>, d: seq<L>, m: nat)
    requires 0 < m < |d| < U64_LIMIT
    ensures var r := VerifyConsistency(h, m, |d|, ConsistencyProof(h, m, d), Root(h, d, 0, m), Root(h, d, 0, |d|));
      && (r.Ok? <==> (|d| <= HALF || m > HALF || m == 1))
      && (!r.Ok? ==> r.error.WrongProofSize?)
  {
    ConsistencyFolds(h, m, d, 0, |d|);
    SeedListed(h, m, d);
    VerifyConsistencyChains(h, m, |d|, ConsistencyProof(h, m, d), Root(h, d, 0, m), Root(h, d, 0, |d|));
  }

  // ---------- sizes ----------

  lemma {:induction false} PathLengthBound<L, D>(h: Hasher<L, D>, i: nat, d: seq<L>, lo: nat, hi: nat, e: nat)
    requires lo + i < hi <= |d| && hi - lo <= Pow2(e)
    ensures |AuditPath(h, i, d, lo, hi)| <= e
    decreases hi - lo
  {
    if hi - lo > 1 {
      var f := SplitExp(hi - lo);
      var k := Pow2(f);
      if f >= e { Pow2Monotone(e, f); }
      if i < k {
        PathLengthBound(h, i, d, lo, lo + k, f);
      } else {
        PathLengthBound(h, i - k, d, lo + k, hi, f);
      }
    }
  }

  /** The decomposed proof size is the length of the recursive path, at most ceil(log2 n). */
  lemma ProofLength<L, D>(h: Hasher<L, D>, i: u64, d: seq<L>, e: nat)
    requires i < |d| <= HALF && |d| <= Pow2(e)
    ensures var (inner, border) := DecompInclusionProof(i, |d|);
      inner + border == |AuditPath(h, i, d, 0, |d|)| <= e
  {
    AuditPathFolds(h, i, d, 0, |d|);
    PathLengthBound(h, i, d, 0, |d|, e);
    DecompExact(i, |d|);
  }
}
