/** Searching and splitting of texts. */
module Lines {
  import opened Common

  const LF: byte := 10
  const CR: byte := 13
  const LF_LF: bytes := [LF, LF]

  /** The leftmost occurrence of a pattern. */
  function Find(s: bytes, pattern: bytes): Option<nat>
    requires pattern != []
  {
    if |s| < |pattern| then None
    else if s[..|pattern|] == pattern then Some(0)
    else Plus(1, Find(s[1..], pattern))
  }

  predicate Occurs(s: bytes, pattern: bytes, i: nat) {
    i + |pattern| <= |s| && s[i..i + |pattern|] == pattern
  }

  lemma {:induction false} FindLeftmost(s: bytes, pattern: bytes)
    requires pattern != []
    ensures Find(s, pattern).Some? ==> Occurs(s, pattern, Find(s, pattern).value)
    ensures forall j: nat :: (Find(s, pattern).None? || j < Find(s, pattern).value) ==> !Occurs(s, pattern, j)
  {
    if |s| >= |pattern| { assert s[0..|pattern|] == s[..|pattern|]; }
    if |s| >= |pattern| && s[..|pattern|] != pattern {
      FindLeftmost(s[1..], pattern);
      forall j: nat | Find(s, pattern).None? || j < Find(s, pattern).value ensures !Occurs(s, pattern, j) {
        if j > 0 { OccursNext(s, pattern, j); }
      }
      if Find(s, pattern).Some? { OccursNext(s, pattern, Find(s, pattern).value); }
    }
  }

  lemma OccursNext(s: bytes, pattern: bytes, j: nat)
    requires j > 0 && s != []
    ensures Occurs(s, pattern, j) <==> Occurs(s[1..], pattern, j - 1)
  {
    if j + |pattern| <= |s| { assert s[1..][j - 1..j - 1 + |pattern|] == s[j..j + |pattern|]; }
  }

  function WithoutCr(line: bytes): bytes {
    if line != [] && line[|line| - 1] == CR then line[..|line| - 1] else line
  }

  /** Lines end with LF or CRLF; the end of the text needs neither. */
  function LinesOf(s: bytes): seq<bytes>
    decreases |s|
  {
    match Find(s, [LF])
    case None => if s == [] then [] else [s]
    case Some(i) => if i < |s| then [WithoutCr(s[..i])] + LinesOf(s[i + 1..]) else []
  }

  lemma LfOccurs(s: bytes, i: nat)
    ensures Occurs(s, [LF], i) ==> LF in s
  {
    if Occurs(s, [LF], i) { assert s[i..i + 1][0] == s[i]; }
  }

  lemma NoLf(s: bytes)
    requires LF !in s
    ensures Find(s, [LF]).None?
  {
    hide Find, Occurs;
    FindLeftmost(s, [LF]);
    if Find(s, [LF]).Some? { LfOccurs(s, Find(s, [LF]).value); }
  }

  lemma FindByte(s: bytes, b: byte)
    ensures var o := Find(s, [b]);
      if o.Some? then o.value < |s| && s[o.value] == b && b !in s[..o.value] else b !in s
  {
    hide Find;
    FindLeftmost(s, [b]);
    forall i | 0 <= i < |s| ensures Occurs(s, [b], i) <==> s[i] == b {
      assert s[i..i + 1] == [s[i]];
    }
  }

  /** The pieces between the separators; one more than there are separators. */
  function Split(s: bytes, separator: byte): seq<bytes>
    decreases |s|
  {
    match Find(s, [separator])
    case None => [s]
    case Some(i) => if i < |s| then [s[..i]] + Split(s[i + 1..], separator) else [s]
  }

  /** The pieces with separators between them. */
  function Join(pieces: seq<bytes>, separator: byte): bytes {
    if pieces == [] then []
    else if |pieces| == 1 then pieces[0]
    else pieces[0] + [separator] + Join(pieces[1..], separator)
  }

  function SplitOnce(s: bytes, pattern: bytes): Option<(bytes, bytes)>
    requires pattern != []
  {
    match Find(s, pattern)
    case None => None
    case Some(i) => if i + |pattern| <= |s| then Some((s[..i], s[i + |pattern|..])) else None
  }

  lemma FirstByte(x: bytes, b: byte, rest: bytes)
    requires b !in x
    ensures Find(x + [b] + rest, [b]) == Some(|x|)
  {
    hide Find;
    var s := x + [b] + rest;
    assert s[|x|..|x| + 1] == [b];
    forall j: nat | j < |x| ensures !Occurs(s, [b], j) {
      assert s[j..j + 1][0] == s[j] == x[j];
    }
    FirstOccurrence(s, [b], |x|);
  }

  lemma SplitFirst(x: bytes, b: byte, rest: bytes)
    requires b !in x
    ensures Split(x + [b] + rest, b) == [x] + Split(rest, b)
  {
    hide Find;
    FirstByte(x, b, rest);
    var s := x + [b] + rest;
    assert s[..|x|] == x && s[|x| + 1..] == rest;
  }

  lemma SplitWhole(x: bytes, b: byte)
    requires b !in x
    ensures Split(x, b) == [x]
  {
    hide Find;
    FindByte(x, b);
  }

  lemma {:induction false} SplitJoin(pieces: seq<bytes>, b: byte)
    requires pieces != [] && forall p :: p in pieces ==> b !in p
    ensures Split(Join(pieces, b), b) == pieces
    decreases |pieces|
  {
    hide Split;
    if |pieces| == 1 {
      SplitWhole(pieces[0], b);
    } else {
      SplitJoin(pieces[1..], b);
      SplitFirst(pieces[0], b, Join(pieces[1..], b));
    }
  }

  lemma JoinFirst(x: bytes, rest: seq<bytes>, b: byte)
    requires rest != []
    ensures Join([x] + rest, b) == x + [b] + Join(rest, b)
  {
    assert ([x] + rest)[1..] == rest;
  }

  lemma {:induction false} SplitPieces(s: bytes, b: byte)
    ensures Split(s, b) != [] && forall p :: p in Split(s, b) ==> b !in p
    ensures Join(Split(s, b), b) == s
    decreases |s|
  {
    hide Find;
    FindByte(s, b);
    match Find(s, [b])
    case None =>
    case Some(i) =>
      hide Join;
      var rest := Split(s[i + 1..], b);
      SplitPieces(s[i + 1..], b);
      JoinFirst(s[..i], rest, b);
      assert s == s[..i] + [b] + s[i + 1..];
  }

  /** The split is at the first occurrence. */
  lemma SplitOnceFirst(s: bytes, pattern: bytes)
    requires pattern != []
    ensures SplitOnce(s, pattern).None? ==> Find(s, pattern).None?
    ensures SplitOnce(s, pattern).Some? ==>
      var (a, b) := SplitOnce(s, pattern).value; s == a + pattern + b && Find(a, pattern).None?
  {
    hide Find;
    FindLeftmost(s, pattern);
    if SplitOnce(s, pattern).Some? {
      var i := Find(s, pattern).value;
      FindLeftmost(s[..i], pattern);
      OccursInPrefix(s, i, pattern, if Find(s[..i], pattern).Some? then Find(s[..i], pattern).value else 0);
    }
  }

  lemma OccursInPrefix(s: bytes, i: nat, pattern: bytes, j: nat)
    requires i <= |s|
    ensures Occurs(s[..i], pattern, j) ==> Occurs(s, pattern, j)
  {
    if j + |pattern| <= i { assert s[..i][j..j + |pattern|] == s[j..j + |pattern|]; }
  }

  /** The first occurrence is where one is and none is before. */
  lemma FirstOccurrence(s: bytes, pattern: bytes, i: nat)
    requires pattern != [] && Occurs(s, pattern, i) && forall j: nat :: j < i ==> !Occurs(s, pattern, j)
    ensures Find(s, pattern) == Some(i)
  {
    hide Find;
    FindLeftmost(s, pattern);
  }

  lemma LinesFirst(x: bytes, rest: bytes)
    requires LF !in x
    ensures LinesOf(x + [LF] + rest) == [WithoutCr(x)] + LinesOf(rest)
  {
    hide Find;
    FirstByte(x, LF, rest);
    var s := x + [LF] + rest;
    assert s[..|x|] == x && s[|x| + 1..] == rest;
  }

  /** A line and its end, without the line feed. */
  function WithEnd(l: bytes, crlf: bool): bytes {
    if crlf then l + [CR] else l
  }

  /** Each line with one of the two line ends behind it. */
  function Terminated(ls: seq<bytes>, crlf: seq<bool>): bytes
    requires |ls| == |crlf|
  {
    if ls == [] then [] else WithEnd(ls[0], crlf[0]) + [LF] + Terminated(ls[1..], crlf[1..])
  }

  predicate IsLine(l: bytes) {
    LF !in l && (l == [] || l[|l| - 1] != CR)
  }

  lemma TerminatedFirst(ls: seq<bytes>, crlf: seq<bool>, last: bytes)
    requires |ls| == |crlf| && ls != []
    ensures Terminated(ls, crlf) + last == WithEnd(ls[0], crlf[0]) + [LF] + (Terminated(ls[1..], crlf[1..]) + last)
  {
    hide WithEnd;
    ThreeParts(WithEnd(ls[0], crlf[0]) + [LF], Terminated(ls[1..], crlf[1..]), last);
  }

  lemma ThreeParts(a: bytes, b: bytes, c: bytes)
    ensures a + b + c == a + (b + c)
  {
  }

  lemma EndTaken(l: bytes, crlf: bool)
    requires IsLine(l)
    ensures WithoutCr(WithEnd(l, crlf)) == l && LF !in WithEnd(l, crlf)
  {
    assert (l + [CR])[..|l|] == l;
  }

  lemma NoMoreLines(last: bytes)
    requires LF !in last
    ensures LinesOf(last) == if last == [] then [] else [last]
  {
    hide Find;
    NoLf(last);
  }

  /** Either line end is taken off, and nothing else. */
  lemma {:induction false} LinesRead(ls: seq<bytes>, crlf: seq<bool>, last: bytes)
    requires |ls| == |crlf| && (forall l :: l in ls ==> IsLine(l)) && LF !in last
    ensures LinesOf(Terminated(ls, crlf) + last) == ls + (if last == [] then [] else [last])
    decreases |ls|
  {
    hide LinesOf, WithoutCr, WithEnd, IsLine;
    NoMoreLines(last);
    if ls == [] {
      assert Terminated(ls, crlf) + last == last;
    } else {
      hide Terminated;
      var l, rest := ls[0], ls[1..];
      var tail := if last == [] then [] else [last];
      LinesRead(rest, crlf[1..], last);
      EndTaken(l, crlf[0]);
      TerminatedFirst(ls, crlf, last);
      LinesFirst(WithEnd(l, crlf[0]), Terminated(rest, crlf[1..]) + last);
      assert ls + tail == [l] + (rest + tail);
    }
  }
}
