/** Which error the verifier reports, and with which sizes and roots. */
module MerkleErrors {
  import opened Bits
  import opened Rfc6962
  import opened ProofVerification
  import opened MerkleCorrectness
  import opened MerkleSoundness

  // ---------- inclusion ----------

  /**
   The errors of inclusion: an index beyond the tree; another number of hashes
   than the honest path has; or another root than the one for which the very
   same proof is accepted.
   */
  ghost predicate InclusionReport<L, D>(h: Hasher<L, D>, d: seq<L>, i: u64, leafHash: D, proof: seq<D>, root: D,
                                            e: MerkleProofError<D>)
    requires |d| < U64_LIMIT
  {
    match e
    case IndexGtTreeSize => i >= |d|
    case WrongProofSize(got, want) =>
      i < |d| && got == |proof| != want && (ExactShift(i, |d|) ==> want == |AuditPath(h, i, d, 0, |d|)|)
    case MismatchedRoot(calculated, given) =>
      i < |d| && given == root != calculated && VerifyInclusion(h, i, leafHash, |d|, proof, calculated).Ok?
    case _ => false
  }

  lemma InclusionErrors<L, D>(h: Hasher<L, D>, d: seq<L>, i: u64, leafHash: D, proof: seq<D>, root: D)
    requires |d| < U64_LIMIT
    ensures var r := VerifyInclusion(h, i, leafHash, |d|, proof, root);
      if r.Ok? then i < |d| else InclusionReport(h, d, i, leafHash, proof, root, r.error)
  {
    hide DecompInclusionProof, ChainInner, ChainBorderRight, AuditPath, ExactShift;
    if i < |d| && ExactShift(i, |d|) { WantedPath(h, d, i); }
  }

  lemma WantedPath<L, D>(h: Hasher<L, D>, d: seq<L>, i: u64)
    requires i < |d| < U64_LIMIT && ExactShift(i, |d|)
    ensures var (inner, border) := DecompInclusionProof(i, |d|); inner + border == |AuditPath(h, i, d, 0, |d|)|
  {
    hide DecompInclusionProof, AuditPath, Root, Chain, Inner, Border;
    AuditPathFolds(h, i, d, 0, |d|);
    DecompExact(i, |d|);
  }

  /** One proof is accepted for one root only. */
  lemma OneInclusionRoot<L, D>(h: Hasher<L, D>, i: u64, leafHash: D, n: u64, proof: seq<D>, a: D, b: D)
    requires VerifyInclusion(h, i, leafHash, n, proof, a).Ok? && VerifyInclusion(h, i, leafHash, n, proof, b).Ok?
    ensures a == b
  {
  }

  /** The honest proof against another root: the report names the true root and the given one. */
  lemma InclusionRootReported<L, D>(h: Hasher<L, D>, d: seq<L>, i: u64, root: D)
    requires i < |d| < U64_LIMIT && ExactShift(i, |d|)
    ensures var path, true_ := AuditPath(h, i, d, 0, |d|), Root(h, d, 0, |d|);
      VerifyInclusion(h, i, h.leaf(d[i]), |d|, path, root) ==
        if root == true_ then Ok(()) else Err(MismatchedRoot(true_, root))
  {
    hide VerifyInclusion, AuditPath, Root;
    var path, leaf := AuditPath(h, i, d, 0, |d|), h.leaf(d[i]);
    InclusionComplete(h, d, i);
    InclusionErrors(h, d, i, leaf, path, root);
    var r := VerifyInclusion(h, i, leaf, |d|, path, root);
    if r.Ok? {
      assert r.value == ();
      OneInclusionRoot(h, i, leaf, |d|, path, root, Root(h, d, 0, |d|));
    } else if r.error.MismatchedRoot? {
      OneInclusionRoot(h, i, leaf, |d|, path, r.error.expected, Root(h, d, 0, |d|));
    }
  }

  // ---------- consistency ----------

  /**
   The errors of consistency: sizes in the wrong order; hashes where none are
   due, or none where some are; another old root than that of the empty tree;
   another number of hashes than the honest proof has; or another root than the
   one calculated, which for the new root is the one that would be accepted.
   */
  ghost predicate ConsistencyReport<L, D>(h: Hasher<L, D>, d: seq<L>, m: u64, proof: seq<D>, oldRoot: D, newRoot: D,
                                              e: MerkleProofError<D>)
    requires |d| < U64_LIMIT
  {
    match e
    case NewTreeSmaller(new_, old_) => new_ == |d| < m == old_
    case UnexpectedNonEmptyProof => m <= |d| && (m == 0 || m == |d|) && proof != []
    case UnexpectedEmptyProof => 0 < m < |d| && proof == []
    case WrongEmptyTreeHash => m == 0 < |d| && proof == [] && oldRoot != h.empty
    case WrongProofSize(got, want) =>
      0 < m < |d| && got == |proof| != want && (ExactShift(m - 1, |d|) ==> want == |ConsistencyProof(h, m, d)|)
    case MismatchedRoot(calculated, given) =>
      && calculated != given && m <= |d|
      && (if m == |d| then proof == [] && (calculated, given) == (oldRoot, newRoot)
          else
            && m > 0 && proof != []
            && (given == oldRoot || (given == newRoot && VerifyConsistency(h, m, |d|, proof, oldRoot, calculated).Ok?)))
    case _ => false
  }

  lemma ConsistencyErrors<L, D>(h: Hasher<L, D>, d: seq<L>, m: u64, proof: seq<D>, oldRoot: D, newRoot: D)
    requires |d| < U64_LIMIT
    ensures var r := VerifyConsistency(h, m, |d|, proof, oldRoot, newRoot);
      if r.Ok? then m <= |d| else ConsistencyReport(h, d, m, proof, oldRoot, newRoot, r.error)
  {
    hide DecompInclusionProof, ChainInner, ChainInnerRight, ChainBorderRight, ConsistencyProof, ExactShift, Shr, TrailingZeros, Pow2;
    if 0 < m < |d| {
      InnerExceedsShift(m, |d|);
      if ExactShift(m - 1, |d|) { WantedConsistency(h, d, m); }
    }
  }

  lemma WantedConsistency<L, D>(h: Hasher<L, D>, d: seq<L>, m: u64)
    requires 0 < m < |d| < U64_LIMIT && ExactShift(m - 1, |d|)
    ensures var (inner, border) := DecompInclusionProof(m - 1, |d|);
      inner + border == |ConsistencyProof(h, m, d)| + TrailingZeros(m) - (if m == Pow2(TrailingZeros(m)) then 0 else 1)
  {
    hide DecompInclusionProof, ConsistencyProof, Seed, Climb, TrailingZeros, Inner, Border;
    ClimbLength(h, m, d);
    SeedListed(h, m, d);
    ConsistencyShifts(m, |d|);
  }

  /** The honest proof and old root against another new root: the report names the true root and the given one. */
  lemma ConsistencyRootReported<L, D>(h: Hasher<L, D>, d: seq<L>, m: u64, newRoot: D)
    requires 0 < m < |d| < U64_LIMIT && ExactShift(m - 1, |d|)
    ensures var proof, oldRoot, true_ := ConsistencyProof(h, m, d), Root(h, d, 0, m), Root(h, d, 0, |d|);
      VerifyConsistency(h, m, |d|, proof, oldRoot, newRoot) ==
        if newRoot == true_ then Ok(()) else Err(MismatchedRoot(true_, newRoot))
  {
    hide ConsistencyProof, Root;
    ConsistencyComplete(h, d, m);
    hide DecompInclusionProof, ChainInner, ChainInnerRight, ChainBorderRight, Shr, TrailingZeros, Pow2;
    InnerExceedsShift(m, |d|);
  }
}
