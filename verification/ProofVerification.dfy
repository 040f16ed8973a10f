/** The iterative proof verifier: bit decomposition and hash chaining. */
module ProofVerification {
  import opened Bits
  import opened Rfc6962

  datatype MerkleProofError<D> =
    | MismatchedRoot(expected: D, got: D)
    | IndexGtTreeSize
    | UnexpectedNonEmptyProof
    | UnexpectedEmptyProof
    | NewTreeSmaller(new_: u64, old_: u64)
    | WrongProofSize(gotSize: nat, wantSize: nat)
    | WrongEmptyTreeHash

  datatype Result<D, T> = Ok(value: T) | Err(error: MerkleProofError<D>)

  /** The number of levels below the point where the paths to `index` and to the last leaf part. */
  function InnerProofSize(index: u64, treeSize: u64): nat
    requires index < treeSize
  {
    U64_BITS - LeadingZeros(Xor(index, treeSize - 1), U64_BITS)
  }

  function DecompInclusionProof(index: u64, treeSize: u64): (nat, nat)
    requires index < treeSize
  {
    var inner := InnerProofSize(index, treeSize);
    (inner, CountOnes(Shr(index, inner)))
  }

  function ChainInner<L, D>(h: Hasher<L, D>, seed: D, proof: seq<D>, index: nat): D {
    if proof == [] then seed
    else
      var i := |proof| - 1;
      var acc := ChainInner(h, seed, proof[..i], index);
      if Bit(index, i) == 0 then h.node(acc, proof[i]) else h.node(proof[i], acc)
  }

  function ChainInnerRight<L, D>(h: Hasher<L, D>, seed: D, proof: seq<D>, index: nat): D {
    if proof == [] then seed
    else
      var i := |proof| - 1;
      var acc := ChainInnerRight(h, seed, proof[..i], index);
      if Bit(index, i) == 1 then h.node(proof[i], acc) else acc
  }

  function ChainBorderRight<L, D>(h: Hasher<L, D>, seed: D, proof: seq<D>): D {
    if proof == [] then seed
    else
      var i := |proof| - 1;
      h.node(proof[i], ChainBorderRight(h, seed, proof[..i]))
  }

  function RootFromInclusionProof<L, D(==)>(h: Hasher<L, D>, index: u64, leafHash: D, treeSize: u64, proof: seq<D>)
    : Result<D, D>
  {
    if index >= treeSize then Err(IndexGtTreeSize)
    else
      var (inner, border) := DecompInclusionProof(index, treeSize);
      if |proof| != inner + border then Err(WrongProofSize(|proof|, inner + border))
      else
        var left := ChainInner(h, leafHash, proof[..inner], index);
        Ok(ChainBorderRight(h, left, proof[inner..]))
  }

  function VerifyInclusion<L, D(==)>(h: Hasher<L, D>, index: u64, leafHash: D, treeSize: u64, proof: seq<D>, root: D)
    : Result<D, ()>
  {
    if index >= treeSize then Err(IndexGtTreeSize)
    else
      match RootFromInclusionProof(h, index, leafHash, treeSize, proof)
      case Err(e) => Err(e)
      case Ok(calculated) => if calculated == root then Ok(()) else Err(MismatchedRoot(calculated, root))
  }

  function VerifyConsistency<L, D(==)>(h: Hasher<L, D>, oldSize: u64, newSize: u64, proof: seq<D>,
                             oldRoot: D, newRoot: D): Result<D, ()>
  {
    if oldSize > newSize then Err(NewTreeSmaller(newSize, oldSize))
    else if oldSize == newSize then
      if proof != [] then Err(UnexpectedNonEmptyProof)
      else if oldRoot == newRoot then Ok(()) else Err(MismatchedRoot(oldRoot, newRoot))
    else if oldSize == 0 then
      if proof != [] then Err(UnexpectedNonEmptyProof)
      else if oldRoot == h.empty then Ok(()) else Err(WrongEmptyTreeHash)
    else if proof == [] then Err(UnexpectedEmptyProof)
    else
      var shift := TrailingZeros(oldSize);
      var (fullInner, border) := DecompInclusionProof(oldSize - 1, newSize);
      InnerExceedsShift(oldSize, newSize);
      var inner := fullInner - shift;
      var (seed, start) := if oldSize == Pow2(shift) then (oldRoot, 0) else (proof[0], 1);
      if |proof| != start + inner + border then Err(WrongProofSize(|proof|, start + inner + border))
      else
        var rest := proof[start..];
        var mask := Shr(oldSize - 1, shift);
        var hash1 := ChainBorderRight(h, ChainInnerRight(h, seed, rest[..inner], mask), rest[inner..]);
        if hash1 != oldRoot then Err(MismatchedRoot(hash1, oldRoot))
        else
          var hash2 := ChainBorderRight(h, ChainInner(h, seed, rest[..inner], mask), rest[inner..]);
          if hash2 != newRoot then Err(MismatchedRoot(hash2, newRoot)) else Ok(())
  }

  lemma InnerProofSizeIs(index: u64, treeSize: u64)
    requires index < treeSize
    ensures InnerProofSize(index, treeSize) == BitLength(Xor(index, treeSize - 1)) <= U64_BITS
  {
    Pow2Word();
    XorBelow(index, treeSize - 1, U64_BITS);
    LeadingZerosBitLength(Xor(index, treeSize - 1), U64_BITS);
  }

  /** The subtraction of the shift never underflows, whatever the sizes. */
  lemma InnerExceedsShift(oldSize: u64, newSize: u64)
    requires 0 < oldSize < newSize
    ensures InnerProofSize(oldSize - 1, newSize) > TrailingZeros(oldSize)
  {
    hide InnerProofSize, Xor, BitLength, TrailingZeros, High;
    InnerProofSizeIs(oldSize - 1, newSize);
    var s := TrailingZeros(oldSize);
    BitLengthAtMost(Xor(oldSize - 1, newSize - 1), s);
    TrailingZerosBorrow(oldSize);
    HighMonotone(oldSize, newSize - 1, s);
    if Xor(oldSize - 1, newSize - 1) < Pow2(s) { XorBelowSameHigh(oldSize - 1, newSize - 1, s); }
  }
}
