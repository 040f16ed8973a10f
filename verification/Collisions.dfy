/**
 Collisions of a hasher, and where to find them. Nothing is assumed of the
 hasher. Digests are of fixed length, so colliding inputs always exist; what
 counts is which ones. Each result therefore names a function that computes a
 collision from the data at hand.
 */
module Collisions {
  import opened Common
  import opened Rfc6962

  /** Two inputs of the hasher, different in kind or in content. */
  datatype Collision<L, D> =
    | Nodes(l: D, r: D, l': D, r': D)
    | Leaves(a: L, b: L)
    | LeafNode(a: L, l: D, r: D)
    | LeafEmpty(a: L)
    | NodeEmpty(l: D, r: D)

  /** The two inputs differ and have one digest. */
  predicate IsCollision<L(==), D(==)>(h: Hasher<L, D>, c: Collision<L, D>) {
    match c
    case Nodes(l, r, l', r') => (l != l' || r != r') && h.node(l, r) == h.node(l', r')
    case Leaves(a, b) => a != b && h.leaf(a) == h.leaf(b)
    case LeafNode(a, l, r) => h.leaf(a) == h.node(l, r)
    case LeafEmpty(a) => h.leaf(a) == h.empty
    case NodeEmpty(l, r) => h.node(l, r) == h.empty
  }

  predicate Exhibits<L(==), D(==)>(h: Hasher<L, D>, o: Option<Collision<L, D>>) {
    o.Some? && IsCollision(h, o.value)
  }

  /** The first of two candidates that is a collision. */
  function Either<L(==), D(==)>(h: Hasher<L, D>, o: Option<Collision<L, D>>, p: Option<Collision<L, D>>)
    : (r: Option<Collision<L, D>>)
    ensures Exhibits(h, o) || Exhibits(h, p) ==> Exhibits(h, r)
  {
    if Exhibits(h, o) then o else p
  }

  // ---------- in two trees ----------

  /** Where two trees with one root hash different entries. */
  function RootCollision<L(==), D(==)>(h: Hasher<L, D>, a: seq<L>, lo: nat, hi: nat, b: seq<L>, lo': nat, hi': nat)
    : Option<Collision<L, D>>
    requires lo <= hi <= |a| && lo' <= hi' <= |b|
    decreases hi - lo
  {
    var m, n := hi - lo, hi' - lo';
    if m > 1 && n > 1 then
      var k, k' := lo + Split(m), lo' + Split(n);
      var (l, r) := (Root(h, a, lo, k), Root(h, a, k, hi));
      var (l', r') := (Root(h, b, lo', k'), Root(h, b, k', hi'));
      if l != l' || r != r' then Some(Nodes(l, r, l', r'))
      else Either(h, RootCollision(h, a, lo, k, b, lo', k'), RootCollision(h, a, k, hi, b, k', hi'))
    else if m > 1 then KindCollision(h, b, lo', hi', a, lo, hi)
    else if n > 1 then KindCollision(h, a, lo, hi, b, lo', hi')
    else if m == 1 && n == 1 then Some(Leaves(a[lo], b[lo']))
    else if m == 1 then Some(LeafEmpty(a[lo]))
    else if n == 1 then Some(LeafEmpty(b[lo']))
    else None
  }

  /** A tree of at most one entry against a larger one. */
  function KindCollision<L, D>(h: Hasher<L, D>, few: seq<L>, lo: nat, hi: nat, many: seq<L>, lo': nat, hi': nat)
    : Option<Collision<L, D>>
    requires lo <= hi <= |few| && lo' <= hi' <= |many| && hi - lo <= 1 < hi' - lo'
  {
    var k := lo' + Split(hi' - lo');
    var (l, r) := (Root(h, many, lo', k), Root(h, many, k, hi'));
    Some(if lo < hi then LeafNode(few[lo], l, r) else NodeEmpty(l, r))
  }

  lemma LargeRoots<L, D>(h: Hasher<L, D>, a: seq<L>, lo: nat, hi: nat, b: seq<L>, lo': nat, hi': nat)
    requires lo <= hi <= |a| && lo' <= hi' <= |b| && hi - lo > 1 && hi' - lo' > 1
    requires Root(h, a, lo, hi) == Root(h, b, lo', hi')
    ensures var k, k' := lo + Split(hi - lo), lo' + Split(hi' - lo');
      var c := RootCollision(h, a, lo, hi, b, lo', hi');
      || Exhibits(h, c)
      || (&& Root(h, a, lo, k) == Root(h, b, lo', k') && Root(h, a, k, hi) == Root(h, b, k', hi')
          && c == Either(h, RootCollision(h, a, lo, k, b, lo', k'), RootCollision(h, a, k, hi, b, k', hi')))
  {
    hide Split;
  }

  lemma SmallRootBinds<L, D>(h: Hasher<L, D>, a: seq<L>, lo: nat, hi: nat, b: seq<L>, lo': nat, hi': nat)
    requires lo <= hi <= |a| && lo' <= hi' <= |b| && (hi - lo <= 1 || hi' - lo' <= 1)
    requires Root(h, a, lo, hi) == Root(h, b, lo', hi')
    ensures a[lo..hi] == b[lo'..hi'] || Exhibits(h, RootCollision(h, a, lo, hi, b, lo', hi'))
  {
    hide Split;
  }

  /** A root commits to the list of entries and to its length. */
  lemma {:induction false} RootBinds<L, D>(h: Hasher<L, D>, a: seq<L>, lo: nat, hi: nat,
                                           b: seq<L>, lo': nat, hi': nat)
    requires lo <= hi <= |a| && lo' <= hi' <= |b|
    requires Root(h, a, lo, hi) == Root(h, b, lo', hi')
    ensures a[lo..hi] == b[lo'..hi'] || Exhibits(h, RootCollision(h, a, lo, hi, b, lo', hi'))
    decreases hi - lo
  {
    hide RootCollision, Root, Split, Exhibits;
    var m, n := hi - lo, hi' - lo';
    if m <= 1 || n <= 1 {
      SmallRootBinds(h, a, lo, hi, b, lo', hi');
    } else {
      LargeRoots(h, a, lo, hi, b, lo', hi');
      var k, k' := lo + Split(m), lo' + Split(n);
      if Root(h, a, lo, k) == Root(h, b, lo', k') && Root(h, a, k, hi) == Root(h, b, k', hi') {
        RootBinds(h, a, lo, k, b, lo', k');
        RootBinds(h, a, k, hi, b, k', hi');
        assert a[lo..hi] == a[lo..k] + a[k..hi] && b[lo'..hi'] == b[lo'..k'] + b[k'..hi'];
      }
    }
  }

  // ---------- of the standard's hasher ----------

  /** The two byte strings that are hashed. One byte in front tells leaves from inner nodes. */
  function HashedBytes(c: Collision<Leaf, Digest>): (bytes, bytes) {
    match c
    case Nodes(l, r, l', r') => ([1] + l + r, [1] + l' + r')
    case Leaves(a, b) => ([0] + a, [0] + b)
    case LeafNode(a, l, r) => ([0] + a, [1] + l + r)
    case LeafEmpty(a) => ([0] + a, [])
    case NodeEmpty(l, r) => ([1] + l + r, [])
  }

  predicate Collide(hash: HashFn, p: (bytes, bytes)) {
    p.0 != p.1 && hash(p.0) == hash(p.1)
  }

  /** Every collision in a tree is a collision of the byte hash: the prefixes keep the inputs apart. */
  lemma CollisionOfBytes(hash: HashFn, c: Collision<Leaf, Digest>)
    ensures IsCollision(Rfc6962Hasher(hash), c) <==>
      Collide(hash, HashedBytes(c))
  {
    match c
    case Nodes(l, r, l', r') =>
      var x, y := [1] + l + r, [1] + l' + r';
      assert l == x[1..33] && l' == y[1..33] && r == x[33..] && r' == y[33..];
    case Leaves(a, b) =>
      assert ([0] + a)[1..] == a && ([0] + b)[1..] == b;
    case LeafNode(a, l, r) =>
      assert ([0] + a)[0] != ([1] + l + r)[0];
    case LeafEmpty(_) =>
    case NodeEmpty(_, _) =>
  }

  // ---------- of an ideal hasher ----------

  datatype Term<L> = Nothing | LeafOf(entry: L) | NodeOf(left: Term<L>, right: Term<L>)

  function FreeHasher<L>(): Hasher<L, Term<L>> {
    Hasher(Nothing, (entry: L) => LeafOf(entry), (l: Term<L>, r: Term<L>) => NodeOf(l, r))
  }

  /** Hashing to terms has no collisions, so the alternatives are not taken for granted. */
  lemma FreeHasherHasNone<L>(c: Collision<L, Term<L>>)
    ensures !IsCollision(FreeHasher(), c)
  {
  }
}
