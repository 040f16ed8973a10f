/**
 What the iterative verifier accepts: the honest proof of the true data, or
 else a named function finds a collision in the two trees and the proof.
 */
module MerkleSoundness {
  import opened Bits
  import opened Collisions
  import opened Common
  import opened MerkleCorrectness
  import opened ProofVerification
  import opened Rfc6962

  // ---------- both chains as one fold ----------

  /** Level k of a proof has its sibling on the right exactly below the border, when bit k of the index is 0. */
  predicate SiblingRight(inner: nat, index: nat, k: nat) {
    k < inner && Bit(index, k) == 0
  }

  function Children<D>(acc: D, sibling: D, right: bool): (D, D) {
    if right then (acc, sibling) else (sibling, acc)
  }

  /** The two children under the top of a chain. */
  function Top<L, D>(h: Hasher<L, D>, s: D, p: seq<D>, inner: nat, index: nat): (D, D)
    requires p != []
    decreases |p|, 0
  {
    var k := |p| - 1;
    Children(Fold(h, s, p[..k], inner, index), p[k], SiblingRight(inner, index, k))
  }

  function Fold<L, D>(h: Hasher<L, D>, s: D, p: seq<D>, inner: nat, index: nat): D
    decreases |p|, 1
  {
    if p == [] then s else var (l, r) := Top(h, s, p, inner, index); h.node(l, r)
  }

  lemma {:induction false} FoldIsInner<L, D>(h: Hasher<L, D>, s: D, p: seq<D>, inner: nat, index: nat)
    requires |p| <= inner
    ensures Fold(h, s, p, inner, index) == ChainInner(h, s, p, index)
    decreases |p|
  {
    if p != [] {
      hide Bit;
      BitIsBinary(index, |p| - 1);
      FoldIsInner(h, s, p[..|p| - 1], inner, index);
    }
  }

  lemma BitIsBinary(index: nat, k: nat)
    ensures Bit(index, k) == 0 || Bit(index, k) == 1
  {
  }

  lemma {:induction false} FoldIsChain<L, D>(h: Hasher<L, D>, s: D, p: seq<D>, inner: nat, index: nat)
    requires inner <= |p|
    ensures Fold(h, s, p, inner, index) == Chain(h, s, p, inner, index)
    decreases |p|
  {
    hide Bit, ChainInner;
    if |p| == inner {
      FoldIsInner(h, s, p, inner, index);
      assert p[..inner] == p && p[inner..] == [];
    } else {
      var q := p[..|p| - 1];
      FoldIsChain(h, s, q, inner, index);
      assert q[..inner] == p[..inner];
      var border := p[inner..];
      assert border[..|border| - 1] == q[inner..] && border[|border| - 1] == p[|p| - 1];
    }
  }

  // ---------- collisions between chains, and between a chain and a tree ----------

  /** Where two chains of one length and one result differ. */
  function FoldCollision<L, D(==)>(h: Hasher<L, D>, s: D, p: seq<D>, s': D, p': seq<D>, inner: nat, index: nat)
    : Option<Collision<L, D>>
    requires |p| == |p'|
    decreases |p|
  {
    if p == [] then None
    else
      var k := |p| - 1;
      var (l, r) := Top(h, s, p, inner, index);
      var (l', r') := Top(h, s', p', inner, index);
      if l != l' || r != r' then Some(Nodes(l, r, l', r'))
      else FoldCollision(h, s, p[..k], s', p'[..k], inner, index)
  }

  lemma {:induction false} FoldBinds<L, D>(h: Hasher<L, D>, s: D, p: seq<D>, s': D, p': seq<D>, inner: nat, index: nat)
    requires |p| == |p'| && Fold(h, s, p, inner, index) == Fold(h, s', p', inner, index)
    ensures (s == s' && p == p') || Exhibits(h, FoldCollision(h, s, p, s', p', inner, index))
    decreases |p|
  {
    hide SiblingRight;
    if p != [] {
      var k := |p| - 1;
      if Top(h, s, p, inner, index) == Top(h, s', p', inner, index) {
        FoldBinds(h, s, p[..k], s', p'[..k], inner, index);
        assert p == p[..k] + [p[k]] && p' == p'[..k] + [p'[k]];
      }
    }
  }

  /**
   Where a chain that is too long for a tree differs from it, walking down from
   the root. `bottom` are the children of the chain's seed, if it has any.
   */
  function TallCollision<L, D(==)>(h: Hasher<L, D>, s: D, p: seq<D>, inner: nat, index: nat, bottom: Option<(D, D)>,
                                   d: seq<L>, lo: nat, hi: nat): Option<Collision<L, D>>
    requires lo <= hi <= |d|
    decreases |p|
  {
    var top := if p == [] then bottom else Some(Top(h, s, p, inner, index));
    if top.None? then None
    else
      var (l, r) := top.value;
      if hi == lo then Some(NodeEmpty(l, r))
      else if hi == lo + 1 then Some(LeafNode(d[lo], l, r))
      else
        var m := lo + Split(hi - lo);
        var (l', r') := (Root(h, d, lo, m), Root(h, d, m, hi));
        if l != l' || r != r' then Some(Nodes(l, r, l', r'))
        else if p == [] then None
        else
          var k := |p| - 1;
          if SiblingRight(inner, index, k) then TallCollision(h, s, p[..k], inner, index, bottom, d, lo, m)
          else TallCollision(h, s, p[..k], inner, index, bottom, d, m, hi)
  }

  /** A tree of at most 2^e entries is not as deep as the chain. */
  ghost predicate TooTall<L, D>(h: Hasher<L, D>, s: D, p: seq<D>, bottom: Option<(D, D)>, size: nat, e: nat) {
    && size <= Pow2(e)
    && (|p| > e || (|p| == e && bottom.Some? && s == h.node(bottom.value.0, bottom.value.1)))
  }

  lemma ShorterTooTall<L, D>(h: Hasher<L, D>, s: D, p: seq<D>, bottom: Option<(D, D)>, size: nat, e: nat)
    requires TooTall(h, s, p, bottom, size, e) && size > 1
    ensures p != [] && 0 < e
    ensures TooTall(h, s, p[..|p| - 1], bottom, Split(size), e - 1)
    ensures TooTall(h, s, p[..|p| - 1], bottom, size - Split(size), e - 1)
  {
    var f := SplitExp(size);
    if f >= e { Pow2Monotone(e, f); }
    Pow2Monotone(f, e - 1);
  }

  lemma {:induction false} TallBinds<L, D>(h: Hasher<L, D>, s: D, p: seq<D>, inner: nat, index: nat,
                                           bottom: Option<(D, D)>, d: seq<L>, lo: nat, hi: nat, e: nat)
    requires lo <= hi <= |d| && Fold(h, s, p, inner, index) == Root(h, d, lo, hi)
    requires TooTall(h, s, p, bottom, hi - lo, e)
    ensures Exhibits(h, TallCollision(h, s, p, inner, index, bottom, d, lo, hi))
    decreases |p|
  {
    if hi - lo > 1 {
      ShorterTooTall(h, s, p, bottom, hi - lo, e);
      hide TooTall, SiblingRight, Split;
      var k, m := |p| - 1, lo + Split(hi - lo);
      if Top(h, s, p, inner, index) == (Root(h, d, lo, m), Root(h, d, m, hi)) {
        if SiblingRight(inner, index, k) {
          TallBinds(h, s, p[..k], inner, index, bottom, d, lo, m, e - 1);
        } else {
          TallBinds(h, s, p[..k], inner, index, bottom, d, m, hi, e - 1);
        }
      }
    } else {
      if p == [] { assert e == 0; }
    }
  }

  // ---------- sizes above 2^63 ----------

  /** The sizes and indices on which the masked shift is the real one. */
  predicate ExactShift(i: nat, n: nat) {
    n <= HALF || i >= HALF || i == 0
  }

  /** On the others the proof that is asked for is longer than any path in the tree. */
  lemma MaskedDecomp(i: u64, n: u64)
    requires i < n && !ExactShift(i, n)
    ensures DecompInclusionProof(i, n) == (64, CountOnes(i)) && CountOnes(i) > 0
    ensures Inner(i, n) == 64 && Border(i, n) == 0
  {
    ShiftWraps(i, n);
    Pow2Word();
    HighBelow(i, 64, 64);
    CountOnesPositive(i);
  }

  /** Below its lowest one bit, the predecessor of m has nothing but ones. */
  lemma {:induction false} CountOnesBorrow(m: u64)
    requires m > 0
    ensures CountOnes(m - 1) == TrailingZeros(m) + CountOnes(Mask(m))
    ensures Mask(m) == 0 ==> IsPow2(m)
  {
    if m % 2 == 0 {
      CountOnesBorrow(m / 2);
      assert (m - 1) / 2 == m / 2 - 1;
    }
  }

  // ---------- inclusion ----------

  /** Where an accepted inclusion proof departs from the honest one. */
  function InclusionCollision<L, D(==)>(h: Hasher<L, D>, d: seq<L>, i: u64, leafHash: D, proof: seq<D>)
    : Option<Collision<L, D>>
    requires |d| < U64_LIMIT
  {
    if i >= |d| then None
    else
      var inner, path := InnerProofSize(i, |d|), AuditPath(h, i, d, 0, |d|);
      if |proof| == |path| then FoldCollision(h, leafHash, proof, h.leaf(d[i]), path, inner, i)
      else TallCollision(h, leafHash, proof, inner, i, None, d, 0, |d|)
  }

  predicate HonestInclusion<L, D(==)>(h: Hasher<L, D>, d: seq<L>, i: nat, leafHash: D, proof: seq<D>) {
    i < |d| && leafHash == h.leaf(d[i]) && proof == AuditPath(h, i, d, 0, |d|)
  }

  /** For every tree of fewer than 2^64 entries: what is accepted is honest, or the collision is a real one. */
  lemma InclusionSound<L, D>(h: Hasher<L, D>, d: seq<L>, i: u64, leafHash: D, proof: seq<D>)
    requires |d| < U64_LIMIT
    requires VerifyInclusion(h, i, leafHash, |d|, proof, Root(h, d, 0, |d|)).Ok?
    ensures HonestInclusion(h, d, i, leafHash, proof) || Exhibits(h, InclusionCollision(h, d, i, leafHash, proof))
    ensures i < |d|
  {
    var n, root := |d|, Root(h, d, 0, |d|);
    AcceptedIndex(h, i, leafHash, n, proof, root);
    hide VerifyInclusion, DecompInclusionProof, Chain, Root, AuditPath, Fold, FoldCollision, TallCollision, InnerProofSize;
    VerifyInclusionBody(h, i, leafHash, n, proof, root);
    AuditPathFolds(h, i, d, 0, n);
    ShiftWraps(i, n);
    DecompFirst(i, n);
    var inner, path := Inner(i, n), AuditPath(h, i, d, 0, n);
    FoldIsChain(h, leafHash, proof, inner, i);
    if |proof| == |path| {
      FoldIsChain(h, h.leaf(d[i]), path, inner, i);
      FoldBinds(h, leafHash, proof, h.leaf(d[i]), path, inner, i);
    } else {
      DecompExact(i, n);
      MaskedDecomp(i, n);
      Pow2Word();
      TallBinds(h, leafHash, proof, inner, i, None, d, 0, n, 64);
    }
  }

  lemma AcceptedIndex<L, D>(h: Hasher<L, D>, i: u64, leafHash: D, n: u64, proof: seq<D>, root: D)
    requires VerifyInclusion(h, i, leafHash, n, proof, root).Ok?
    ensures i < n
  {
  }

  lemma DecompFirst(i: u64, n: u64)
    requires i < n
    ensures DecompInclusionProof(i, n).0 == InnerProofSize(i, n)
  {
  }

  /**
   The verifier accepts exactly the honest proofs, on the sizes for which it
   accepts any, unless the collision is a real one.
   */
  lemma InclusionExact<L, D>(h: Hasher<L, D>, d: seq<L>, i: u64, leafHash: D, proof: seq<D>)
    requires |d| < U64_LIMIT
    ensures Exhibits(h, InclusionCollision(h, d, i, leafHash, proof)) ||
      (VerifyInclusion(h, i, leafHash, |d|, proof, Root(h, d, 0, |d|)).Ok? <==>
       HonestInclusion(h, d, i, leafHash, proof) && ExactShift(i, |d|))
  {
    hide VerifyInclusion, Root, AuditPath, InclusionCollision;
    if i < |d| { InclusionComplete(h, d, i); }
    if VerifyInclusion(h, i, leafHash, |d|, proof, Root(h, d, 0, |d|)).Ok? {
      InclusionSound(h, d, i, leafHash, proof);
    }
  }

  /** Where an accepted proof for another entry departs from the honest one. */
  function EntryCollision<L(==), D(==)>(h: Hasher<L, D>, d: seq<L>, i: u64, entry: L, proof: seq<D>): Option<Collision<L, D>>
    requires |d| < U64_LIMIT
  {
    Either(h, InclusionCollision(h, d, i, h.leaf(entry), proof), if i < |d| then Some(Leaves(entry, d[i])) else None)
  }

  /** A proof for some entry binds the entry itself. */
  lemma InclusionBindsEntry<L, D>(h: Hasher<L, D>, d: seq<L>, i: u64, entry: L, proof: seq<D>)
    requires |d| < U64_LIMIT
    requires VerifyInclusion(h, i, h.leaf(entry), |d|, proof, Root(h, d, 0, |d|)).Ok?
    ensures i < |d| && (entry == d[i] || Exhibits(h, EntryCollision(h, d, i, entry, proof)))
  {
    hide VerifyInclusion, Root, AuditPath, InclusionCollision;
    InclusionSound(h, d, i, h.leaf(entry), proof);
  }

  // ---------- consistency ----------

  /** The children that the verifier has hashed to the old root, when there is a border. */
  function OldChildren<L, D>(h: Hasher<L, D>, seed: D, rest: seq<D>, inner: nat, mask: nat): Option<(D, D)> {
    if |rest| <= inner then None
    else
      var k := |rest| - 1;
      Some((rest[k], ChainBorderRight(h, ChainInnerRight(h, seed, rest[..inner], mask), rest[inner..k])))
  }

  /** Where an accepted consistency proof departs from the honest one. */
  function ConsistencyCollision<L, D(==)>(h: Hasher<L, D>, d: seq<L>, m: u64, proof: seq<D>, oldRoot: D)
    : Option<Collision<L, D>>
    requires |d| < U64_LIMIT
  {
    if !(0 < m < |d|) || proof == [] then None
    else
      var (seed, rest) := if IsPow2(m) then (oldRoot, proof) else (proof[0], proof[1..]);
      var climb := Climb(h, m, d, 0, |d|);
      InnerExceedsShift(m, |d|);
      var inner := InnerProofSize(m - 1, |d|) - TrailingZeros(m);
      if |rest| == |climb| then FoldCollision(h, seed, rest, Seed(h, m, d, 0, |d|), climb, inner, Mask(m))
      else TallCollision(h, seed, rest, inner, Mask(m), OldChildren(h, seed, rest, inner, Mask(m)), d, 0, |d|)
  }

  predicate HonestConsistency<L, D(==)>(h: Hasher<L, D>, d: seq<L>, m: nat, proof: seq<D>, oldRoot: D) {
    m <= |d| && oldRoot == Root(h, d, 0, m) && proof == if 0 < m < |d| then ConsistencyProof(h, m, d) else []
  }

  /** An accepted proof of the honest length is the honest one. */
  lemma SameLength<L, D>(h: Hasher<L, D>, d: seq<L>, m: u64, seed: D, rest: seq<D>, inner: nat, oldRoot: D)
    requires 0 < m < |d| < U64_LIMIT && inner + TrailingZeros(m) == Inner(m - 1, |d|)
    requires |rest| == |Climb(h, m, d, 0, |d|)| && inner <= |rest|
    requires Chain(h, seed, rest, inner, Mask(m)) == Root(h, d, 0, |d|)
    requires ChainRight(h, seed, rest, inner, Mask(m)) == oldRoot
    ensures var seed', climb := Seed(h, m, d, 0, |d|), Climb(h, m, d, 0, |d|);
      || (seed == seed' && rest == climb && oldRoot == Root(h, d, 0, m))
      || Exhibits(h, FoldCollision(h, seed, rest, seed', climb, inner, Mask(m)))
  {
    hide Chain, ChainRight, Root, Seed, Climb, Fold, FoldCollision, Mask, TrailingZeros, Inner, Border;
    ConsistencyFolds(h, m, d, 0, |d|);
    var seed', climb := Seed(h, m, d, 0, |d|), Climb(h, m, d, 0, |d|);
    FoldIsChain(h, seed, rest, inner, Mask(m));
    FoldIsChain(h, seed', climb, inner, Mask(m));
    FoldBinds(h, seed, rest, seed', climb, inner, Mask(m));
  }

  lemma OldTooTall<L, D>(h: Hasher<L, D>, size: nat, m: u64, seed: D, rest: seq<D>, inner: nat)
    requires 0 < m < size < U64_LIMIT && inner + TrailingZeros(m) == 64 && |rest| == inner + CountOnes(m - 1)
    requires IsPow2(m) ==> seed == ChainRight(h, seed, rest, inner, Mask(m))
    requires CountOnes(m - 1) > 0
    ensures TooTall(h, seed, rest, OldChildren(h, seed, rest, inner, Mask(m)), size, 64)
  {
    hide Mask, TrailingZeros, CountOnes, ChainInnerRight, IsPow2, Pow2;
    CountOnesBorrow(m);
    MaskPositive(m);
    Pow2Word();
    var border, k := rest[inner..], |rest| - 1;
    assert border[..|border| - 1] == rest[inner..k] && border[|border| - 1] == rest[k];
  }

  /** A proof of another length is accepted only above 2^63, and is then too long. */
  lemma OtherLength<L, D>(h: Hasher<L, D>, d: seq<L>, m: u64, seed: D, rest: seq<D>, inner: nat, oldRoot: D)
    requires 0 < m < |d| < U64_LIMIT && !ExactShift(m - 1, |d|)
    requires inner + TrailingZeros(m) == 64 && |rest| == inner + CountOnes(m - 1)
    requires Chain(h, seed, rest, inner, Mask(m)) == Root(h, d, 0, |d|)
    requires ChainRight(h, seed, rest, inner, Mask(m)) == oldRoot && (IsPow2(m) ==> seed == oldRoot)
    ensures Exhibits(h, TallCollision(h, seed, rest, inner, Mask(m), OldChildren(h, seed, rest, inner, Mask(m)), d, 0, |d|))
  {
    hide Chain, ChainRight, Root, Fold, TallCollision, OldChildren, TooTall, Mask, TrailingZeros, CountOnes, IsPow2;
    MaskedDecomp(m - 1, |d|);
    OldTooTall(h, |d|, m, seed, rest, inner);
    FoldIsChain(h, seed, rest, inner, Mask(m));
    TallBinds(h, seed, rest, inner, Mask(m), OldChildren(h, seed, rest, inner, Mask(m)), d, 0, |d|, 64);
  }

  lemma MaskPositive(m: u64)
    requires m > 0
    ensures IsPow2(m) || CountOnes(Mask(m)) > 0
  {
    hide IsPow2, Mask;
    CountOnesBorrow(m);
    if Mask(m) > 0 { CountOnesPositive(Mask(m)); }
  }

  /**
   For every tree of fewer than 2^64 entries, and nothing being assumed of the
   old root: it is the root of the first m entries and the proof is the honest
   one, or the collision is a real one.
   */
  lemma ConsistencySound<L, D>(h: Hasher<L, D>, d: seq<L>, m: u64, proof: seq<D>, oldRoot: D)
    requires |d| < U64_LIMIT
    requires VerifyConsistency(h, m, |d|, proof, oldRoot, Root(h, d, 0, |d|)).Ok?
    ensures HonestConsistency(h, d, m, proof, oldRoot) || Exhibits(h, ConsistencyCollision(h, d, m, proof, oldRoot))
  {
    AcceptedShape(h, d, m, proof, oldRoot);
    if 0 < m < |d| {
      hide VerifyConsistency, HonestConsistency, Root, ConsistencyCollision, IsPow2;
      var (seed, rest) := if IsPow2(m) then (oldRoot, proof) else (proof[0], proof[1..]);
      SoundBetween(h, d, m, proof, oldRoot, seed, rest);
    }
  }

  lemma SoundBetween<L, D>(h: Hasher<L, D>, d: seq<L>, m: u64, proof: seq<D>, oldRoot: D, seed: D, rest: seq<D>)
    requires 0 < m < |d| < U64_LIMIT && proof != []
    requires (seed, rest) == if IsPow2(m) then (oldRoot, proof) else (proof[0], proof[1..])
    requires VerifyConsistency(h, m, |d|, proof, oldRoot, Root(h, d, 0, |d|)).Ok?
    ensures HonestConsistency(h, d, m, proof, oldRoot) || Exhibits(h, ConsistencyCollision(h, d, m, proof, oldRoot))
  {
    hide VerifyConsistency, HonestConsistency, Root, Chain, ChainRight, Seed, Climb, FoldCollision, TallCollision;
    hide OldChildren, InnerProofSize, DecompInclusionProof, TrailingZeros, Mask, IsPow2, ConsistencyCollision;
    var n, root := |d|, Root(h, d, 0, |d|);
    var (full, border) := DecompInclusionProof(m - 1, n);
    InnerExceedsShift(m, n);
    DecompFirst(m - 1, n);
    ShiftWraps(m - 1, n);
    ConsistencyShifts(m, n);
    var inner := full - TrailingZeros(m);
    LastBranch(h, m, n, proof, oldRoot, root, seed, rest, inner, border, Mask(m));
    ClimbLength(h, m, d);
    WitnessIs(h, d, m, proof, oldRoot, seed, rest, inner);
    if |rest| == |Climb(h, m, d, 0, n)| {
      SameLength(h, d, m, seed, rest, inner, oldRoot);
      if !Exhibits(h, ConsistencyCollision(h, d, m, proof, oldRoot)) { HonestParts(h, d, m, proof, oldRoot); }
    } else {
      MaskedDecomp(m - 1, n);
      OtherLength(h, d, m, seed, rest, inner, oldRoot);
    }
  }

  lemma WitnessIs<L, D>(h: Hasher<L, D>, d: seq<L>, m: u64, proof: seq<D>, oldRoot: D, seed: D, rest: seq<D>, inner: nat)
    requires 0 < m < |d| < U64_LIMIT && proof != []
    requires (seed, rest) == if IsPow2(m) then (oldRoot, proof) else (proof[0], proof[1..])
    requires inner + TrailingZeros(m) == InnerProofSize(m - 1, |d|)
    ensures ConsistencyCollision(h, d, m, proof, oldRoot) ==
      if |rest| == |Climb(h, m, d, 0, |d|)| then
        FoldCollision(h, seed, rest, Seed(h, m, d, 0, |d|), Climb(h, m, d, 0, |d|), inner, Mask(m))
      else TallCollision(h, seed, rest, inner, Mask(m), OldChildren(h, seed, rest, inner, Mask(m)), d, 0, |d|)
  {
    hide Seed, Climb, FoldCollision, TallCollision, OldChildren, InnerProofSize, TrailingZeros, Mask, IsPow2;
  }

  lemma AcceptedShape<L, D>(h: Hasher<L, D>, d: seq<L>, m: u64, proof: seq<D>, oldRoot: D)
    requires |d| < U64_LIMIT
    requires VerifyConsistency(h, m, |d|, proof, oldRoot, Root(h, d, 0, |d|)).Ok?
    ensures if 0 < m < |d| then proof != [] else HonestConsistency(h, d, m, proof, oldRoot)
  {
  }

  lemma ClimbLength<L, D>(h: Hasher<L, D>, m: u64, d: seq<L>)
    requires 0 < m < |d| < U64_LIMIT
    ensures TrailingZeros(m) + |Climb(h, m, d, 0, |d|)| == Inner(m - 1, |d|) + Border(m - 1, |d|)
  {
    hide Chain, ChainRight, Root, Seed, Climb, Inner, Border, TrailingZeros;
    ConsistencyFolds(h, m, d, 0, |d|);
  }

  lemma HonestParts<L, D>(h: Hasher<L, D>, d: seq<L>, m: u64, proof: seq<D>, oldRoot: D)
    requires 0 < m < |d| < U64_LIMIT && proof != [] && oldRoot == Root(h, d, 0, m)
    requires var (seed, rest) := if IsPow2(m) then (oldRoot, proof) else (proof[0], proof[1..]);
      seed == Seed(h, m, d, 0, |d|) && rest == Climb(h, m, d, 0, |d|)
    ensures HonestConsistency(h, d, m, proof, oldRoot)
  {
    hide Root, Seed, Climb, IsPow2, ConsistencyProof;
    SeedListed(h, m, d);
    var honest := ConsistencyProof(h, m, d);
    if !IsPow2(m) { assert proof == [proof[0]] + proof[1..] && honest == [honest[0]] + honest[1..]; }
  }

  /**
   The verifier decides consistency exactly, edge cases included: against the
   true new root it accepts one old root and one proof for each old size, on
   the sizes for which it accepts any, unless the collision is a real one.
   */
  lemma ConsistencyExact<L, D>(h: Hasher<L, D>, d: seq<L>, m: u64, proof: seq<D>, oldRoot: D)
    requires |d| < U64_LIMIT
    ensures Exhibits(h, ConsistencyCollision(h, d, m, proof, oldRoot)) ||
      (VerifyConsistency(h, m, |d|, proof, oldRoot, Root(h, d, 0, |d|)).Ok? <==>
       HonestConsistency(h, d, m, proof, oldRoot) && (0 < m < |d| ==> ExactShift(m - 1, |d|)))
  {
    if 0 < m < |d| {
      hide VerifyConsistency, Root, ConsistencyCollision, ConsistencyProof;
      ConsistencyComplete(h, d, m);
      if VerifyConsistency(h, m, |d|, proof, oldRoot, Root(h, d, 0, |d|)).Ok? { ConsistencySound(h, d, m, proof, oldRoot); }
    }
  }

  /** Where the trees of two lists differ, when one is accepted as consistent with the other. */
  function AppendCollision<L(==), D(==)>(h: Hasher<L, D>, a: seq<L>, b: seq<L>, proof: seq<D>): Option<Collision<L, D>>
    requires |a| < U64_LIMIT && |b| < U64_LIMIT
  {
    Either(h, ConsistencyCollision(h, b, |a|, proof, Root(h, a, 0, |a|)),
           if |a| <= |b| then RootCollision(h, a, 0, |a|, b, 0, |a|) else None)
  }

  /** Append-only: accepted roots of two lists make the first a prefix of the second. */
  lemma ConsistencyAppendOnly<L, D>(h: Hasher<L, D>, a: seq<L>, b: seq<L>, proof: seq<D>)
    requires |a| < U64_LIMIT && |b| < U64_LIMIT
    requires VerifyConsistency(h, |a|, |b|, proof, Root(h, a, 0, |a|), Root(h, b, 0, |b|)).Ok?
    ensures a <= b || Exhibits(h, AppendCollision(h, a, b, proof))
  {
    hide VerifyConsistency, Root, ConsistencyCollision, RootCollision, ConsistencyProof;
    var oldRoot := Root(h, a, 0, |a|);
    ConsistencySound(h, b, |a|, proof, oldRoot);
    if HonestConsistency(h, b, |a|, proof, oldRoot) { RootBinds(h, a, 0, |a|, b, 0, |a|); }
  }

  // ---------- with the standard's hash ----------

  /** Two byte strings, computed from the two lists, the proofs and the entry. */
  function LogCollision(hash: HashFn, a: seq<Leaf>, b: seq<Leaf>, consistency: seq<Digest>,
                        i: u64, entry: Leaf, inclusion: seq<Digest>): (bytes, bytes)
    requires |a| < U64_LIMIT && |b| < U64_LIMIT
  {
    var h := Rfc6962Hasher(hash);
    match Either(h, AppendCollision(h, a, b, consistency), EntryCollision(h, b, i, entry, inclusion))
    case Some(c) => HashedBytes(c)
    case None => ([], [])
  }

  /**
   With the RFC 6962 hasher an accepted consistency proof and an accepted
   inclusion proof against the same new root are honest about both, or these
   two byte strings are a collision of the byte hash.
   */
  lemma LogVerified(hash: HashFn, h: Hasher<Leaf, Digest>, a: seq<Leaf>, b: seq<Leaf>, consistency: seq<Digest>,
                    i: u64, entry: Leaf, inclusion: seq<Digest>)
    requires h == Rfc6962Hasher(hash)
    requires |a| < U64_LIMIT && |b| < U64_LIMIT
    requires VerifyConsistency(h, |a|, |b|, consistency, Root(h, a, 0, |a|), Root(h, b, 0, |b|)).Ok?
    requires VerifyInclusion(h, i, h.leaf(entry), |b|, inclusion, Root(h, b, 0, |b|)).Ok?
    ensures (a <= b && i < |b| && b[i] == entry) || Collide(hash, LogCollision(hash, a, b, consistency, i, entry, inclusion))
  {
    hide VerifyConsistency, VerifyInclusion, Root, AppendCollision, EntryCollision, Rfc6962Hasher, HashedBytes, IsCollision, Collide;
    ConsistencyAppendOnly(h, a, b, consistency);
    InclusionBindsEntry(h, b, i, entry, inclusion);
    var o := Either(h, AppendCollision(h, a, b, consistency), EntryCollision(h, b, i, entry, inclusion));
    if o.Some? { CollisionOfBytes(hash, o.value); }
  }
}
