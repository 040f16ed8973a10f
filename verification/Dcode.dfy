/** Values that a certificate carries in its DNS names, cut into numbered base32 chunks. */
module Dcode {
  import opened Common
  import opened Lines
  import Base32
  import Decimal

  const DOT: byte := 0x2E

  datatype Chunk = Chunk(index: nat, text: bytes)

  function Upper(s: bytes): (r: bytes)
    ensures |r| == |s|
  {
    if s == [] then [] else [if 97 <= s[0] <= 122 then s[0] - 32 else s[0]] + Upper(s[1..])
  }

  /** The chunk in one name, if its second label is the prefix and its first label has the right shape. */
  function ChunkIn(san: bytes, prefix: bytes): Option<Chunk> {
    var labels := Split(san, DOT);
    if |labels| < 2 || labels[1] != prefix || |labels[0]| < 3 then None
    else
      var first := labels[0];
      if !Decimal.IsDigit(first[0]) || !Decimal.IsDigit(first[1]) then None
      else Some(Chunk((first[0] - 0x30) * 10 + (first[1] - 0x30), Upper(first[2..])))
  }

  function ChunksIn(sans: seq<bytes>, prefix: bytes): seq<Chunk> {
    if sans == [] then []
    else
      match ChunkIn(sans[0], prefix)
      case Some(c) => [c] + ChunksIn(sans[1..], prefix)
      case None => ChunksIn(sans[1..], prefix)
  }

  // ---------- the decoded value, whatever the order ----------

  predicate Distinct(cs: seq<Chunk>) {
    forall i, j :: 0 <= i < j < |cs| ==> cs[i].index != cs[j].index
  }

  /** The text of chunk number k. */
  function Pick(cs: seq<Chunk>, k: nat): bytes {
    if cs == [] then [] else (if cs[0].index == k then cs[0].text else []) + Pick(cs[1..], k)
  }

  /** The texts of the chunks from number k up. */
  function Ordered(cs: seq<Chunk>, k: nat): bytes
    decreases 100 - k
  {
    if k >= 100 then [] else Pick(cs, k) + Ordered(cs, k + 1)
  }

  function Decoded(cs: seq<Chunk>): Option<bytes> {
    if cs == [] || !Distinct(cs) then None else Base32.Decode(Base32.Standard(), Ordered(cs, 0))
  }

  // ---------- sorting ----------

  function Insert(c: Chunk, cs: seq<Chunk>): (r: seq<Chunk>)
    ensures multiset(r) == multiset{c} + multiset(cs)
  {
    if cs == [] || c.index < cs[0].index then [c] + cs
    else
      assert cs == [cs[0]] + cs[1..];
      [cs[0]] + Insert(c, cs[1..])
  }

  /** The stable sort by index. */
  function SortByIndex(cs: seq<Chunk>): (r: seq<Chunk>)
    ensures multiset(r) == multiset(cs)
  {
    if cs == [] then []
    else
      assert cs == cs[..|cs| - 1] + [cs[|cs| - 1]];
      Insert(cs[|cs| - 1], SortByIndex(cs[..|cs| - 1]))
  }

  predicate Sorted(cs: seq<Chunk>) {
    forall i, j :: 0 <= i < j < |cs| ==> cs[i].index <= cs[j].index
  }

  lemma {:induction false} InsertSorted(c: Chunk, cs: seq<Chunk>)
    requires Sorted(cs)
    ensures Sorted(Insert(c, cs))
  {
    if cs != [] && cs[0].index <= c.index {
      InsertSorted(c, cs[1..]);
      var rest := Insert(c, cs[1..]);
      forall d | d in rest ensures cs[0].index <= d.index {
        assert d in multiset(rest);
        assert d == c || d in cs[1..];
      }
    }
  }

  lemma {:induction false} SortSorts(cs: seq<Chunk>)
    ensures Sorted(SortByIndex(cs))
  {
    if cs != [] {
      SortSorts(cs[..|cs| - 1]);
      InsertSorted(cs[|cs| - 1], SortByIndex(cs[..|cs| - 1]));
    }
  }

  // ---------- independence of the order ----------

  lemma {:induction false} PickNone(cs: seq<Chunk>, k: nat)
    requires forall c :: c in cs ==> c.index != k
    ensures Pick(cs, k) == []
  {
    if cs != [] { PickNone(cs[1..], k); }
  }

  lemma {:induction false} PickOnly(cs: seq<Chunk>, c: Chunk)
    requires Distinct(cs) && c in cs
    ensures Pick(cs, c.index) == c.text
  {
    if cs[0] == c {
      forall d | d in cs[1..] ensures d.index != c.index {
        var j :| 0 <= j < |cs[1..]| && cs[1..][j] == d;
        assert cs[j + 1] == d;
      }
      PickNone(cs[1..], c.index);
    } else {
      PickOnly(cs[1..], c);
      var j :| 0 <= j < |cs| && cs[j] == c;
      assert cs[0].index != cs[j].index;
    }
  }

  /** Distinctness in terms of the bag of chunks. */
  ghost predicate DistinctBag(bag: multiset<Chunk>) {
    && (forall c :: c in bag ==> bag[c] == 1)
    && (forall c, d :: c in bag && d in bag && c.index == d.index ==> c == d)
  }

  lemma DistinctRest(first: Chunk, rest: seq<Chunk>)
    requires Distinct([first] + rest)
    ensures Distinct(rest) && forall d :: d in rest ==> d.index != first.index
  {
    var cs := [first] + rest;
    forall i, j | 0 <= i < j < |rest| ensures rest[i].index != rest[j].index {
      assert cs[i + 1].index != cs[j + 1].index;
    }
    forall d | d in rest ensures d.index != first.index {
      var j :| 0 <= j < |rest| && rest[j] == d;
      assert cs[0].index != cs[j + 1].index;
    }
  }

  lemma DistinctBoth(first: Chunk, rest: seq<Chunk>)
    requires Distinct(rest) && forall d :: d in rest ==> d.index != first.index
    ensures Distinct([first] + rest)
  {
    var cs := [first] + rest;
    forall i, j | 0 <= i < j < |cs| ensures cs[i].index != cs[j].index {
      assert cs[j] == rest[j - 1] && (i > 0 ==> cs[i] == rest[i - 1]);
    }
  }

  lemma DistinctCons(first: Chunk, rest: seq<Chunk>)
    ensures Distinct([first] + rest) <==> Distinct(rest) && forall d :: d in rest ==> d.index != first.index
  {
    hide Distinct;
    if Distinct([first] + rest) { DistinctRest(first, rest); }
    if Distinct(rest) && forall d :: d in rest ==> d.index != first.index { DistinctBoth(first, rest); }
  }

  lemma BagCons(first: Chunk, bag: multiset<Chunk>)
    ensures DistinctBag(multiset{first} + bag) <==> DistinctBag(bag) && forall d :: d in bag ==> d.index != first.index
  {
    var all := multiset{first} + bag;
    assert forall c :: c in all <==> c == first || c in bag;
    assert forall c :: all[c] == bag[c] + (if c == first then 1 else 0);
    if DistinctBag(all) {
      assert all[first] == 1;
      forall c | c in bag ensures bag[c] == 1 {
        assert all[c] == 1;
      }
      forall d | d in bag ensures d.index != first.index {
        assert d in all && d != first;
      }
    }
  }

  lemma {:induction false} DistinctIsBag(cs: seq<Chunk>)
    ensures Distinct(cs) <==> DistinctBag(multiset(cs))
  {
    if cs != [] {
      hide Distinct, DistinctBag;
      var first, rest := cs[0], cs[1..];
      assert cs == [first] + rest && multiset(cs) == multiset{first} + multiset(rest);
      DistinctIsBag(rest);
      DistinctCons(first, rest);
      BagCons(first, multiset(rest));
    }
  }

  lemma PickInvariant(cs: seq<Chunk>, ds: seq<Chunk>, k: nat)
    requires multiset(cs) == multiset(ds) && Distinct(cs) && Distinct(ds)
    ensures Pick(cs, k) == Pick(ds, k)
  {
    forall c ensures c in cs <==> c in ds {
      assert c in cs <==> c in multiset(cs);
    }
    if c :| c in cs && c.index == k {
      PickOnly(cs, c);
      PickOnly(ds, c);
    } else {
      PickNone(cs, k);
      PickNone(ds, k);
    }
  }

  lemma {:induction false} OrderedInvariant(cs: seq<Chunk>, ds: seq<Chunk>, k: nat)
    requires multiset(cs) == multiset(ds) && Distinct(cs) && Distinct(ds)
    ensures Ordered(cs, k) == Ordered(ds, k)
    decreases 100 - k
  {
    if k < 100 {
      PickInvariant(cs, ds, k);
      OrderedInvariant(cs, ds, k + 1);
    }
  }

  lemma DecodedInvariant(cs: seq<Chunk>, ds: seq<Chunk>)
    requires multiset(cs) == multiset(ds)
    ensures Decoded(cs) == Decoded(ds)
  {
    hide Base32.Decode, Distinct;
    DistinctIsBag(cs);
    DistinctIsBag(ds);
    assert |cs| == |multiset(cs)| && |ds| == |multiset(ds)|;
    if Distinct(cs) { OrderedInvariant(cs, ds, 0); }
  }

  lemma {:induction false} ChunksConcat(a: seq<bytes>, b: seq<bytes>, prefix: bytes)
    ensures ChunksIn(a + b, prefix) == ChunksIn(a, prefix) + ChunksIn(b, prefix)
    decreases |a|
  {
    hide ChunkIn;
    if a == [] {
      assert a + b == b;
    } else {
      ChunksConcat(a[1..], b, prefix);
      assert (a + b)[1..] == a[1..] + b;
    }
  }

  lemma ChunksMiddle(a: seq<bytes>, x: bytes, b: seq<bytes>, prefix: bytes)
    ensures multiset(ChunksIn(a + [x] + b, prefix)) == multiset(ChunksIn([x] + (a + b), prefix))
  {
    hide ChunksIn;
    ChunksConcat(a + [x], b, prefix);
    ChunksConcat(a, [x], prefix);
    ChunksConcat([x], a + b, prefix);
    ChunksConcat(a, b, prefix);
  }

  lemma BagWithout(x: bytes, rest: seq<bytes>, a: seq<bytes>, b: seq<bytes>)
    requires multiset([x] + rest) == multiset(a + [x] + b)
    ensures multiset(rest) == multiset(a + b)
  {
    assert multiset(rest) == multiset([x] + rest) - multiset{x};
    assert multiset(a + b) == multiset(a + [x] + b) - multiset{x};
  }

  lemma {:induction false} ChunksBag(sans: seq<bytes>, others: seq<bytes>, prefix: bytes)
    requires multiset(sans) == multiset(others)
    ensures multiset(ChunksIn(sans, prefix)) == multiset(ChunksIn(others, prefix))
    decreases |sans|
  {
    hide ChunksIn;
    if sans == [] {
      assert |multiset(others)| == 0 && others == [];
    } else {
      var x, rest := sans[0], sans[1..];
      assert sans == [x] + rest && x in multiset(sans);
      var k :| 0 <= k < |others| && others[k] == x;
      var a, b := others[..k], others[k + 1..];
      assert others == a + [x] + b;
      BagWithout(x, rest, a, b);
      ChunksBag(rest, a + b, prefix);
      ChunksMiddle(a, x, b, prefix);
      ChunksConcat([x], rest, prefix);
      ChunksConcat([x], a + b, prefix);
    }
  }

  /** The result does not depend on the order of the names. */
  lemma OrderIrrelevant(sans: seq<bytes>, others: seq<bytes>, prefix: bytes)
    requires multiset(sans) == multiset(others)
    ensures Decoded(ChunksIn(sans, prefix)) == Decoded(ChunksIn(others, prefix))
  {
    hide Decoded, ChunksIn;
    ChunksBag(sans, others, prefix);
    DecodedInvariant(ChunksIn(sans, prefix), ChunksIn(others, prefix));
  }

  // ---------- joining the sorted chunks ----------

  function Texts(cs: seq<Chunk>): bytes {
    if cs == [] then [] else cs[0].text + Texts(cs[1..])
  }

  predicate StrictlyFrom(cs: seq<Chunk>, k: nat) {
    && (forall i :: 0 <= i < |cs| ==> k <= cs[i].index < 100)
    && (forall i, j :: 0 <= i < j < |cs| ==> cs[i].index < cs[j].index)
  }

  lemma OrderedStep(cs: seq<Chunk>, k: nat)
    ensures Ordered(cs, k) == if k >= 100 then [] else Pick(cs, k) + Ordered(cs, k + 1)
  {
  }

  lemma PickRest(cs: seq<Chunk>, k: nat)
    requires cs != [] && cs[0].index != k
    ensures Pick(cs, k) == Pick(cs[1..], k)
  {
    var rest := Pick(cs[1..], k);
    assert [] + rest == rest;
  }

  lemma {:induction false} OrderedRest(cs: seq<Chunk>, k: nat)
    requires cs != [] && cs[0].index < k
    ensures Ordered(cs, k) == Ordered(cs[1..], k)
    decreases 100 - k
  {
    hide Ordered, Pick;
    OrderedStep(cs, k);
    OrderedStep(cs[1..], k);
    if k < 100 {
      PickRest(cs, k);
      OrderedRest(cs, k + 1);
    }
  }

  lemma StrictlyRest(cs: seq<Chunk>, k: nat)
    requires StrictlyFrom(cs, k) && cs != [] && cs[0].index == k
    ensures StrictlyFrom(cs[1..], k + 1)
  {
    var rest := cs[1..];
    forall i | 0 <= i < |rest| ensures k + 1 <= rest[i].index < 100 {
      assert rest[i] == cs[i + 1] && cs[0].index < cs[i + 1].index;
    }
    forall i, j | 0 <= i < j < |rest| ensures rest[i].index < rest[j].index {
      assert cs[i + 1].index < cs[j + 1].index;
    }
  }

  lemma StrictlyAbove(cs: seq<Chunk>, k: nat)
    requires StrictlyFrom(cs, k) && (cs == [] || cs[0].index != k)
    ensures StrictlyFrom(cs, k + 1)
  {
    forall i | 0 <= i < |cs| ensures k + 1 <= cs[i].index < 100 {
      assert i > 0 ==> cs[0].index < cs[i].index;
    }
  }

  lemma StrictlyPick(cs: seq<Chunk>, k: nat)
    requires StrictlyFrom(cs, k + 1)
    ensures Pick(cs, k) == []
  {
    PickNone(cs, k);
  }

  lemma {:induction false} NothingOrdered(k: nat)
    ensures Ordered([], k) == []
    decreases 100 - k
  {
    if k < 100 { NothingOrdered(k + 1); }
  }

  lemma {:induction false} OrderedIsJoined(cs: seq<Chunk>, k: nat)
    requires StrictlyFrom(cs, k)
    ensures Ordered(cs, k) == Texts(cs)
    decreases 100 - k
  {
    OrderedStep(cs, k);
    if cs == [] {
      NothingOrdered(k);
    } else if cs[0].index == k {
      hide Ordered, StrictlyFrom;
      var rest := cs[1..];
      StrictlyRest(cs, k);
      StrictlyPick(rest, k);
      OrderedRest(cs, k + 1);
      OrderedIsJoined(rest, k + 1);
      assert cs[0].text + [] == cs[0].text;
    } else {
      assert k < cs[0].index < 100;
      hide Ordered, StrictlyFrom, Texts, Pick;
      StrictlyAbove(cs, k);
      StrictlyPick(cs, k);
      OrderedIsJoined(cs, k + 1);
    }
  }

  lemma {:induction false} ChunksBelow100(sans: seq<bytes>, prefix: bytes)
    ensures forall c :: c in ChunksIn(sans, prefix) ==> c.index < 100 && c.text != []
  {
    if sans != [] {
      hide Split, Upper;
      ChunksBelow100(sans[1..], prefix);
    }
  }

  /** Neighbours with equal indices, as the check after the sort looks for them. */
  predicate HasEqualNeighbours(cs: seq<Chunk>) {
    exists i :: 0 <= i < |cs| - 1 && cs[i].index == cs[i + 1].index
  }

  lemma {:induction false} NoEqualNeighbours(cs: seq<Chunk>)
    requires Sorted(cs)
    ensures Distinct(cs) <==> !HasEqualNeighbours(cs)
    ensures Distinct(cs) && (forall c :: c in cs ==> c.index < 100) ==> StrictlyFrom(cs, 0)
  {
    if !HasEqualNeighbours(cs) {
      forall i, j | 0 <= i < j < |cs| ensures cs[i].index != cs[j].index {
        assert cs[i].index <= cs[i + 1].index && cs[i].index != cs[i + 1].index;
        assert j > i + 1 ==> cs[i + 1].index <= cs[j].index;
      }
    }
    if HasEqualNeighbours(cs) {
      var i :| 0 <= i < |cs| - 1 && cs[i].index == cs[i + 1].index;
      assert !Distinct(cs);
    }
  }

  lemma SortedDecodes(cs: seq<Chunk>, sorted: seq<Chunk>)
    requires sorted == SortByIndex(cs) && forall c :: c in cs ==> c.index < 100
    ensures cs == [] <==> sorted == []
    ensures HasEqualNeighbours(sorted) <==> !Distinct(cs)
    ensures cs != [] && Distinct(cs) ==> Decoded(cs) == Base32.Decode(Base32.Standard(), Texts(sorted))
  {
    hide Base32.Decode, Distinct, Sorted, HasEqualNeighbours, StrictlyFrom, SortByIndex;
    SortSorts(cs);
    DistinctIsBag(cs);
    DistinctIsBag(sorted);
    DecodedInvariant(cs, sorted);
    assert |cs| == |multiset(cs)| && |sorted| == |multiset(sorted)|;
    forall c | c in sorted ensures c.index < 100 { assert c in multiset(sorted); }
    NoEqualNeighbours(sorted);
    if Distinct(cs) { OrderedIsJoined(sorted, 0); }
  }

  method DecodeFromSans(sans: seq<bytes>, prefix: bytes) returns (r: Option<bytes>)
    ensures r == Decoded(ChunksIn(sans, prefix))
  {
    hide ChunkIn, Distinct, Sorted, SortByIndex, Base32.Decode, Ordered;
    var chunks: seq<Chunk> := [];
    var i := 0;
    while i < |sans|
      invariant i <= |sans|
      invariant chunks + ChunksIn(sans[i..], prefix) == ChunksIn(sans, prefix)
    {
      assert sans[i..][1..] == sans[i + 1..];
      var c := ChunkIn(sans[i], prefix);
      if c.Some? {
        var rest := ChunksIn(sans[i + 1..], prefix);
        assert chunks + ([c.value] + rest) == chunks + [c.value] + rest;
        chunks := chunks + [c.value];
      }
      i := i + 1;
    }
    assert sans[i..] == [] && chunks == ChunksIn(sans, prefix);
    if chunks == [] { return None; }
    ChunksBelow100(sans, prefix);
    ghost var all := chunks;
    chunks := SortByIndex(chunks);
    SortedDecodes(all, chunks);
    var k := 0;
    while k < |chunks| - 1
      invariant 0 <= k && (k < |chunks| || k == 0)
      invariant forall j :: 0 <= j < k ==> chunks[j].index != chunks[j + 1].index
    {
      if chunks[k].index == chunks[k + 1].index { return None; }
      k := k + 1;
    }
    var combined := Texts(chunks);
    return Base32.Decode(Base32.Standard(), combined);
  }

  // ---------- letter case ----------

  predicate IsLower(b: byte) {
    97 <= b <= 122
  }

  predicate SameLetter(a: byte, b: byte) {
    a == b || (IsLower(a) && a - 32 == b) || (IsLower(b) && b - 32 == a)
  }

  /** Letter by letter the same, up to the case of ASCII letters. */
  predicate SameLetters(s: bytes, t: bytes) {
    |s| == |t| && forall i :: 0 <= i < |s| ==> SameLetter(s[i], t[i])
  }

  predicate NoLower(s: bytes) {
    forall i :: 0 <= i < |s| ==> !IsLower(s[i])
  }

  /** The upper-case form has the same letters and none in lower case; it is the only one that does. */
  lemma {:induction false} UpperExact(s: bytes, t: bytes)
    ensures Upper(s) == t <==> SameLetters(s, t) && NoLower(t)
    decreases |s|
  {
    UpperLetters(s);
    if SameLetters(s, t) && NoLower(t) {
      forall i | 0 <= i < |s| ensures Upper(s)[i] == t[i] {
        assert SameLetter(s[i], t[i]) && SameLetter(s[i], Upper(s)[i]);
        assert !IsLower(t[i]) && !IsLower(Upper(s)[i]);
      }
    }
  }

  lemma {:induction false} UpperLetters(s: bytes)
    ensures SameLetters(s, Upper(s)) && NoLower(Upper(s))
  {
    if s != [] {
      UpperLetters(s[1..]);
      var u := Upper(s);
      forall i | 0 <= i < |s| ensures SameLetter(s[i], u[i]) && !IsLower(u[i]) {
        if i > 0 { assert s[1..][i - 1] == s[i] && Upper(s[1..])[i - 1] == u[i]; }
      }
    }
  }

  lemma {:induction false} UpperConcat(s: bytes, t: bytes)
    ensures Upper(s + t) == Upper(s) + Upper(t)
    decreases |s|
  {
    hide Upper;
    UpperNothing();
    if s == [] {
      assert s + t == t;
    } else {
      UpperConcat(s[1..], t);
      UpperFirst(s[0], s[1..]);
      UpperFirst(s[0], s[1..] + t);
      assert s + t == [s[0]] + (s[1..] + t) && s == [s[0]] + s[1..];
    }
  }

  lemma UpperFirst(b: byte, rest: bytes)
    ensures Upper([b] + rest) == [if 97 <= b <= 122 then b - 32 else b] + Upper(rest)
  {
    assert ([b] + rest)[1..] == rest;
  }

  lemma SameLettersDots(s: bytes, t: bytes)
    requires SameLetters(s, t) && DOT !in t
    ensures DOT !in s
  {
    forall i | 0 <= i < |s| ensures s[i] != DOT { assert SameLetter(s[i], t[i]) && t[i] in t; }
  }

  // ---------- round trip ----------

  /** A chunk as it is written into a name; `tail` is what follows the prefix label. */
  datatype Written = Written(index: nat, text: bytes, tail: bytes)

  predicate IsWritten(w: Written) {
    && w.index < 100 && w.text != [] && DOT !in w.text
    && (w.tail == [] || w.tail[0] == DOT)
  }

  function FirstLabel(w: Written): bytes
    requires w.index < 100
  {
    [0x30 + w.index / 10, 0x30 + w.index % 10] + w.text
  }

  function NameOf(w: Written, prefix: bytes): bytes
    requires w.index < 100
  {
    FirstLabel(w) + [DOT] + (prefix + w.tail)
  }

  lemma NameRead(w: Written, prefix: bytes)
    requires IsWritten(w) && DOT !in prefix
    ensures ChunkIn(NameOf(w, prefix), prefix) == Some(Chunk(w.index, Upper(w.text)))
  {
    hide Split, Upper;
    var first := FirstLabel(w);
    SplitFirst(first, DOT, prefix + w.tail);
    if w.tail == [] {
      assert prefix + w.tail == prefix;
      SplitWhole(prefix, DOT);
    } else {
      assert prefix + w.tail == prefix + [DOT] + w.tail[1..];
      SplitFirst(prefix, DOT, w.tail[1..]);
    }
    assert first[2..] == w.text;
  }

  ghost predicate Spells(w: Written, san: bytes, prefix: bytes, c: Chunk) {
    IsWritten(w) && san == NameOf(w, prefix) && c.index == w.index && SameLetters(w.text, c.text) && NoLower(c.text)
  }

  lemma LabelRead(san: bytes, prefix: bytes) returns (w: Written)
    requires ChunkIn(san, prefix).Some?
    ensures Spells(w, san, prefix, ChunkIn(san, prefix).value)
  {
    hide Split, Upper;
    SplitPieces(san, DOT);
    var labels := Split(san, DOT);
    var rest := labels[1..];
    assert labels[0] in labels && labels[1] in labels;
    var first := labels[0];
    var tail := if |labels| == 2 then [] else [DOT] + Join(rest[1..], DOT);
    w := Written((first[0] - 0x30) * 10 + (first[1] - 0x30), first[2..], tail);
    assert san == first + [DOT] + Join(rest, DOT);
    assert Join(rest, DOT) == prefix + tail;
    assert FirstLabel(w) == first;
    UpperLetters(w.text);
  }

  /**
   Exactly these names hold a chunk: two digits and some text, then the prefix
   as the whole second label. The chunk has the letters of the text, in upper case.
   */
  lemma NameExact(san: bytes, prefix: bytes, c: Chunk)
    requires DOT !in prefix
    ensures ChunkIn(san, prefix) == Some(c) <==> exists w :: Spells(w, san, prefix, c)
  {
    hide ChunkIn, NameOf, Upper;
    if ChunkIn(san, prefix) == Some(c) { var w := LabelRead(san, prefix); }
    if exists w :: Spells(w, san, prefix, c) {
      var w :| Spells(w, san, prefix, c);
      NameRead(w, prefix);
      UpperExact(w.text, c.text);
    }
  }

  /** Numbered in increasing order, none empty. */
  predicate Numbered(ws: seq<Written>) {
    && (forall w :: w in ws ==> w.index < 100 && w.text != [] && (w.tail == [] || w.tail[0] == DOT))
    && (forall i, j :: 0 <= i < j < |ws| ==> ws[i].index < ws[j].index)
  }

  function Names(ws: seq<Written>, prefix: bytes): seq<bytes>
    requires forall w :: w in ws ==> w.index < 100
  {
    if ws == [] then [] else [NameOf(ws[0], prefix)] + Names(ws[1..], prefix)
  }

  /** The texts one after the other, as they are written. */
  function Spelled(ws: seq<Written>): bytes {
    if ws == [] then [] else ws[0].text + Spelled(ws[1..])
  }

  function ChunksOf(ws: seq<Written>): seq<Chunk> {
    if ws == [] then [] else [Chunk(ws[0].index, Upper(ws[0].text))] + ChunksOf(ws[1..])
  }

  lemma {:induction false} NamesRead(ws: seq<Written>, prefix: bytes)
    requires Numbered(ws) && DOT !in prefix && DOT !in Spelled(ws)
    ensures ChunksIn(Names(ws, prefix), prefix) == ChunksOf(ws)
  {
    hide ChunkIn, NameOf, Upper;
    if ws != [] {
      assert DOT !in ws[0].text && DOT !in Spelled(ws[1..]);
      NameRead(ws[0], prefix);
      NamesRead(ws[1..], prefix);
      assert Names(ws, prefix)[1..] == Names(ws[1..], prefix);
    }
  }

  lemma {:induction false} JunkIgnored(junk: seq<bytes>, prefix: bytes)
    requires forall s :: s in junk ==> ChunkIn(s, prefix).None?
    ensures ChunksIn(junk, prefix) == []
  {
    hide ChunkIn;
    if junk != [] { JunkIgnored(junk[1..], prefix); }
  }

  lemma {:induction false} ChunksOfWritten(ws: seq<Written>)
    ensures |ChunksOf(ws)| == |ws| && Texts(ChunksOf(ws)) == Upper(Spelled(ws))
    ensures forall i :: 0 <= i < |ws| ==> ChunksOf(ws)[i].index == ws[i].index
  {
    hide Upper;
    UpperNothing();
    if ws != [] {
      ChunksOfWritten(ws[1..]);
      UpperConcat(ws[0].text, Spelled(ws[1..]));
      assert ChunksOf(ws)[1..] == ChunksOf(ws[1..]);
    }
  }

  lemma UpperNothing()
    ensures Upper([]) == []
  {
  }

  lemma {:induction false} EncodedLetters(data: bytes)
    ensures var e := Base32.Encode(Base32.Standard(), data); DOT !in e && NoLower(e)
  {
    var e := Base32.Encode(Base32.Standard(), data);
    Base32.EncodedChars(Base32.Quintets(Base32.Standard(), data));
    forall i | 0 <= i < |e| ensures !IsLower(e[i]) { assert e[i] in e; }
  }

  /**
   Whatever is written as base32 in numbered chunks, cut anywhere, in any letter
   case, with any names around it and in any order, is read back.
   */
  lemma SanRoundTrip(data: bytes, prefix: bytes, ws: seq<Written>, junk: seq<bytes>, sans: seq<bytes>)
    requires data != [] && DOT !in prefix && Numbered(ws)
    requires SameLetters(Spelled(ws), Base32.Encode(Base32.Standard(), data))
    requires forall s :: s in junk ==> ChunkIn(s, prefix).None?
    requires multiset(sans) == multiset(Names(ws, prefix) + junk)
    ensures Decoded(ChunksIn(sans, prefix)) == Some(data)
  {
    hide Base32.Standard, Base32.Inverse, Base32.Encode, Base32.Decode, ChunkIn, NameOf, Upper, ChunksIn, Decoded, Names;
    hide SameLetters, NoLower;
    var text := Base32.Encode(Base32.Standard(), data);
    EncodedLetters(data);
    SameLettersDots(Spelled(ws), text);
    UpperExact(Spelled(ws), text);
    Base32.StandardInverse();
    Base32.RoundTrip(Base32.Standard(), data);
    NamesRead(ws, prefix);
    JunkIgnored(junk, prefix);
    ChunksConcat(Names(ws, prefix), junk, prefix);
    OrderIrrelevant(sans, Names(ws, prefix) + junk, prefix);
    ChunksOfWritten(ws);
    assert ChunksOf(ws) + [] == ChunksOf(ws);
    StrictDecoded(ChunksOf(ws));
    assert text != [] && ChunksOf(ws) != [] by { UpperNothing(); }
  }

  // ---------- names that differ in case only ----------

  /** The same names, but for the case of the letters in their chunks. */
  predicate SameNames(vs: seq<Written>, ws: seq<Written>) {
    |vs| == |ws| && forall i :: 0 <= i < |vs| ==> vs[i].index == ws[i].index && SameLetters(vs[i].text, ws[i].text)
  }

  predicate AllWritten(ws: seq<Written>) {
    forall i :: 0 <= i < |ws| ==> IsWritten(ws[i])
  }

  lemma SameUpper(s: bytes, t: bytes)
    requires SameLetters(s, t)
    ensures Upper(s) == Upper(t)
  {
    UpperLetters(t);
    var u := Upper(t);
    forall i | 0 <= i < |s| ensures SameLetter(s[i], u[i]) {
      assert SameLetter(s[i], t[i]) && SameLetter(t[i], u[i]) && !IsLower(u[i]);
    }
    UpperExact(s, u);
  }

  lemma {:induction false} SameChunks(vs: seq<Written>, ws: seq<Written>, prefix: bytes)
    requires DOT !in prefix && AllWritten(vs) && AllWritten(ws) && SameNames(vs, ws)
    ensures ChunksIn(Names(vs, prefix), prefix) == ChunksIn(Names(ws, prefix), prefix)
  {
    hide ChunkIn, NameOf, Upper, SameLetters;
    if vs != [] {
      NameRead(vs[0], prefix);
      NameRead(ws[0], prefix);
      SameUpper(vs[0].text, ws[0].text);
      SameChunks(vs[1..], ws[1..], prefix);
      assert Names(vs, prefix)[1..] == Names(vs[1..], prefix) && Names(ws, prefix)[1..] == Names(ws[1..], prefix);
    }
  }

  /** Names that differ in the case of their chunks only, and in what follows the prefix, decode alike. */
  lemma CaseIrrelevant(vs: seq<Written>, ws: seq<Written>, prefix: bytes)
    requires DOT !in prefix && AllWritten(vs) && AllWritten(ws) && SameNames(vs, ws)
    ensures Decoded(ChunksIn(Names(vs, prefix), prefix)) == Decoded(ChunksIn(Names(ws, prefix), prefix))
  {
    hide Decoded, ChunksIn, Names;
    SameChunks(vs, ws, prefix);
  }

  // ---------- when there is nothing ----------

  /** Two names with one number: nothing is decoded, whatever they hold. */
  lemma DuplicateRefused(sans: seq<bytes>, prefix: bytes, c: Chunk, d: Chunk, i: nat, j: nat)
    requires i < j < |sans| && ChunkIn(sans[i], prefix) == Some(c) && ChunkIn(sans[j], prefix) == Some(d)
    requires c.index == d.index
    ensures Decoded(ChunksIn(sans, prefix)).None?
  {
    hide ChunkIn, ChunksIn, Base32.Decode, Ordered;
    ChunkFound(sans, prefix, i);
    ChunkFound(sans[i + 1..], prefix, j - i - 1);
    var before, between, behind := sans[..i], sans[i + 1..j], sans[j + 1..];
    assert sans[i + 1..][..j - i - 1] == between && sans[i + 1..][j - i - 1 + 1..] == behind;
    var (x, y, z) := (ChunksIn(before, prefix), ChunksIn(between, prefix), ChunksIn(behind, prefix));
    var cs := ChunksIn(sans, prefix);
    assert cs == x + [c] + (y + [d] + z);
    assert cs[|x|] == c && cs[|x| + 1 + |y|] == d;
  }

  lemma ChunkFound(sans: seq<bytes>, prefix: bytes, i: nat)
    requires i < |sans| && ChunkIn(sans[i], prefix).Some?
    ensures ChunksIn(sans, prefix) ==
      ChunksIn(sans[..i], prefix) + [ChunkIn(sans[i], prefix).value] + ChunksIn(sans[i + 1..], prefix)
  {
    hide ChunkIn;
    ChunksConcat(sans[..i], sans[i..], prefix);
    assert sans == sans[..i] + sans[i..] && sans[i..][1..] == sans[i + 1..];
  }

  /** A decoded value comes from at least one name, and spells the chunks' texts in the order of their numbers. */
  lemma DecodedExact(sans: seq<bytes>, prefix: bytes, data: bytes)
    ensures var cs := ChunksIn(sans, prefix);
      Decoded(cs) == Some(data) <==>
        cs != [] && Distinct(cs) && Texts(SortByIndex(cs)) == Base32.Encode(Base32.Standard(), data)
  {
    hide ChunksIn, Distinct, SortByIndex, Decoded, Base32.Standard, Base32.Inverse, Base32.Encode, Base32.Decode;
    var cs := ChunksIn(sans, prefix);
    ChunksBelow100(sans, prefix);
    SortedDecodes(cs, SortByIndex(cs));
    Base32.StandardInverse();
    Base32.RoundTrip(Base32.Standard(), data);
    var text := Texts(SortByIndex(cs));
    if Base32.Decode(Base32.Standard(), text) == Some(data) { Base32.Canonical(Base32.Standard(), text); }
    NothingDecoded(cs);
  }

  lemma NothingDecoded(cs: seq<Chunk>)
    ensures cs == [] || !Distinct(cs) ==> Decoded(cs).None?
  {
  }

  lemma StrictDecoded(cs: seq<Chunk>)
    requires StrictlyFrom(cs, 0)
    ensures Decoded(cs) == if cs == [] then None else Base32.Decode(Base32.Standard(), Texts(cs))
  {
    hide Base32.Decode;
    OrderedIsJoined(cs, 0);
  }
}
