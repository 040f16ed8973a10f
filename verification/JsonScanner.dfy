/** The scanning loops, each tied to what it computes on any bytes. */
module JsonScanner {
  import opened Common
  import opened JsonString
  import opened JsonGrammar
  import opened JsonScan

  method SkipJsonWhitespace(raw: bytes, start: nat) returns (index: nat)
    ensures index == start + SpaceLen(Drop(raw, start))
  {
    index := start;
    while index < |raw| && IsSpaceByte(raw[index])
      invariant start <= index
      invariant start + SpaceLen(Drop(raw, start)) == index + SpaceLen(Drop(raw, index))
    {
      assert raw[index..][1..] == raw[index + 1..];
      index := index + 1;
    }
  }

  lemma BodyStep(raw: bytes, index: nat, escaped: bool)
    requires index < |raw| && (escaped || raw[index] != QUOTE)
    ensures Plus(index, BodyLen(raw[index..], escaped)) ==
      Plus(index + 1, BodyLen(raw[index + 1..], !escaped && raw[index] == BACKSLASH))
  {
    assert raw[index..][1..] == raw[index + 1..];
  }

  lemma BodyStop(raw: bytes, index: nat)
    requires index <= |raw|
    ensures index == |raw| ==> BodyLen(raw[index..], false).None? && BodyLen(raw[index..], true).None?
    ensures index < |raw| && raw[index] == QUOTE ==> BodyLen(raw[index..], false) == Some(1)
  {
  }

  method JsonStringEnd(raw: bytes, start: nat) returns (end: Option<nat>)
    ensures end == Plus(start, StringLen(Drop(raw, start)))
  {
    if start >= |raw| || raw[start] != QUOTE { return None; }
    assert raw[start..][1..] == raw[start + 1..];
    hide BodyLen;
    var escaped, index := false, start + 1;
    while index < |raw|
      invariant start < index <= |raw|
      invariant Plus(start, StringLen(raw[start..])) == Plus(index, BodyLen(raw[index..], escaped))
    {
      BodyStop(raw, index);
      ghost var before := escaped;
      if escaped {
        escaped := false;
      } else if raw[index] == BACKSLASH {
        escaped := true;
      } else if raw[index] == QUOTE {
        return Some(index + 1);
      }
      BodyStep(raw, index, before);
      index := index + 1;
    }
    BodyStop(raw, index);
    return None;
  }

  /** The state of the bracket scan: depth, inside a string, after a backslash. */
  datatype Nest = Nest(depth: nat, inString: bool, escaped: bool)

  function Rest(s: bytes, n: Nest): Option<nat> {
    NestLen(s, n.depth, n.inString, n.escaped)
  }

  lemma NestStep(raw: bytes, index: nat, n: Nest, n': Nest)
    requires index < |raw|
    requires var b := raw[index];
      n' == if n.inString then
              if n.escaped then n.(escaped := false)
              else if b == BACKSLASH then n.(escaped := true)
              else if b == QUOTE then n.(inString := false)
              else n
            else if b == QUOTE then n.(inString := true)
            else if IsOpen(b) then n.(depth := n.depth + 1)
            else if IsClose(b) && n.depth > 1 then n.(depth := n.depth - 1)
            else n
    requires !n.inString && IsClose(raw[index]) ==> n.depth > 1
    ensures Plus(index, Rest(raw[index..], n)) == Plus(index + 1, Rest(raw[index + 1..], n'))
  {
    var s := raw[index..];
    assert s[1..] == raw[index + 1..] && s[0] == raw[index];
  }

  lemma NestStop(raw: bytes, index: nat, n: Nest)
    requires index < |raw| && !n.inString && IsClose(raw[index])
    ensures n.depth == 0 ==> Rest(raw[index..], n).None?
    ensures n.depth == 1 ==> Rest(raw[index..], n) == Some(1)
  {
  }

  method ContainerEnd(raw: bytes, start: nat) returns (end: Option<nat>)
    requires start < |raw|
    ensures end == Plus(start, NestLen(raw[start..], 0, false, false))
  {
    var depth: nat, inString, escaped, index := 0, false, false, start;
    ghost var total := Plus(start, NestLen(raw[start..], 0, false, false));
    while index < |raw|
      invariant start <= index <= |raw|
      invariant total == Plus(index, Rest(raw[index..], Nest(depth, inString, escaped)))
    {
      ghost var n := Nest(depth, inString, escaped);
      if inString {
        if escaped {
          escaped := false;
        } else if raw[index] == BACKSLASH {
          escaped := true;
        } else if raw[index] == QUOTE {
          inString := false;
        }
      } else if raw[index] == QUOTE {
        inString := true;
      } else if IsOpen(raw[index]) {
        depth := depth + 1;
      } else if IsClose(raw[index]) {
        NestStop(raw, index, n);
        if depth == 0 { return None; }
        depth := depth - 1;
        if depth == 0 { return Some(index + 1); }
      }
      NestStep(raw, index, n, Nest(depth, inString, escaped));
      index := index + 1;
    }
    return None;
  }

  lemma SpanStep(raw: bytes, end: nat)
    requires end <= |raw|
    ensures ScalarSpan(raw[end..]) == if end == |raw| || EndsScalar(raw[end]) then 0 else 1 + ScalarSpan(raw[end + 1..])
  {
    if end < |raw| { assert raw[end..][1..] == raw[end + 1..]; }
  }

  lemma TrimStep(raw: bytes, start: nat, end: nat)
    requires start <= end <= |raw|
    ensures TrimmedLen(raw[start..end]) ==
      if start < end && IsSpaceByte(raw[end - 1]) then TrimmedLen(raw[start..end - 1]) else end - start
  {
    if start < end { assert raw[start..end][..end - start - 1] == raw[start..end - 1]; }
  }

  method ScalarEnd(raw: bytes, start: nat) returns (r: Option<nat>)
    requires start < |raw|
    ensures var n := TrimmedLen(raw[start..][..ScalarSpan(raw[start..])]);
      r == if n > 0 then Some(start + n) else None
  {
    hide ScalarSpan, TrimmedLen;
    var end := start;
    while end < |raw| && !EndsScalar(raw[end])
      invariant start <= end <= |raw|
      invariant ScalarSpan(raw[start..]) == end - start + ScalarSpan(raw[end..])
    {
      SpanStep(raw, end);
      end := end + 1;
    }
    SpanStep(raw, end);
    assert raw[start..][..end - start] == raw[start..end];
    ghost var span := raw[start..end];
    while end > start && IsSpaceByte(raw[end - 1])
      invariant start <= end <= |raw|
      invariant TrimmedLen(span) == TrimmedLen(raw[start..end])
    {
      TrimStep(raw, start, end);
      end := end - 1;
    }
    TrimStep(raw, start, end);
    return if end > start then Some(end) else None;
  }

  method JsonValueEnd(raw: bytes, start: nat) returns (end: Option<nat>)
    ensures end == Plus(start, ValueLen(Drop(raw, start)))
  {
    if start >= |raw| { return None; }
    if raw[start] == QUOTE {
      end := JsonStringEnd(raw, start);
    } else if IsOpen(raw[start]) {
      end := ContainerEnd(raw, start);
    } else {
      end := ScalarEnd(raw, start);
    }
  }

  // ---------- members ----------

  function Join(spans: seq<Span>, o: Option<seq<Span>>): Option<seq<Span>> {
    match o
    case None => None
    case Some(s) => Some(spans + s)
  }

  /** The range of the only member with the given key. */
  function PickUnique(o: Option<seq<Span>>, field: bytes): Option<(nat, nat)> {
    match o
    case None => None
    case Some(spans) =>
      var found := Matching(spans, field);
      if |found| == 1 then Some((found[0].start, found[0].end)) else None
  }

  lemma MatchingFirst(s: Span, rest: seq<Span>, field: bytes)
    ensures Matching([s] + rest, field) == (if s.key == field then [s] else []) + Matching(rest, field)
  {
    assert ([s] + rest)[1..] == rest;
  }

  lemma {:induction false} MatchingConcat(a: seq<Span>, b: seq<Span>, field: bytes)
    ensures Matching(a + b, field) == Matching(a, field) + Matching(b, field)
    decreases |a|
  {
    if a == [] {
      assert a + b == b;
    } else {
      hide Matching;
      MatchingConcat(a[1..], b, field);
      MatchingFirst(a[0], a[1..], field);
      MatchingFirst(a[0], a[1..] + b, field);
      assert a == [a[0]] + a[1..] && a + b == [a[0]] + (a[1..] + b);
    }
  }

  lemma DropAdd(raw: bytes, i: nat, n: nat)
    ensures Drop(Drop(raw, i), n) == Drop(raw, i + n)
  {
  }

  lemma DropAt(raw: bytes, i: nat, n: nat)
    ensures i + n < |raw| ==>
      n < |Drop(raw, i)| && Drop(raw, i)[n] == raw[i + n] && Drop(raw, i)[n + 1..] == Drop(raw, i + n + 1)
  {
  }

  lemma DropLength(raw: bytes, i: nat)
    ensures Drop(raw, i) == [] <==> i >= |raw|
    ensures i <= |raw| ==> |Drop(raw, i)| == |raw| - i
  {
  }

  method KeyAt(decode: Decoder, raw: bytes, index: nat) returns (r: Option<(bytes, nat)>)
    ensures r == KeyOf(decode, Drop(raw, index))
  {
    var keyEnd := JsonStringEnd(raw, index);
    if keyEnd.None? { return None; }
    var key := decode(raw[index + 1..keyEnd.value - 1]);
    assert Drop(raw, index)[1..keyEnd.value - index - 1] == raw[index + 1..keyEnd.value - 1];
    if key.None? { return None; }
    return Some((key.value, keyEnd.value - index));
  }

  method ColonAt(raw: bytes, keyEnd: nat) returns (r: Option<nat>)
    requires keyEnd <= |raw|
    ensures r == ColonLen(Drop(raw, keyEnd))
  {
    hide SpaceLen, Drop;
    DropLength(raw, keyEnd);
    var index := SkipJsonWhitespace(raw, keyEnd);
    DropAt(raw, keyEnd, index - keyEnd);
    if index >= |raw| || raw[index] != COLON { return None; }
    var valueStart := SkipJsonWhitespace(raw, index + 1);
    return Some(valueStart - keyEnd);
  }

  method ValueAt(raw: bytes, valueStart: nat) returns (r: Option<(nat, nat)>)
    ensures r == ValueAndSpaceLen(Drop(raw, valueStart))
  {
    var valueEnd := JsonValueEnd(raw, valueStart);
    if valueEnd.None? { return None; }
    var next := SkipJsonWhitespace(raw, valueEnd.value);
    DropAdd(raw, valueStart, valueEnd.value - valueStart);
    return Some((valueEnd.value - valueStart, next - valueStart));
  }

  /** The member at `index`, with the length it takes. */
  method MemberAt(decode: Decoder, raw: bytes, index: nat) returns (r: Option<(Span, nat)>)
    ensures r == MemberOf(JsonLexer(decode), Drop(raw, index), index)
    ensures r.Some? ==> index < index + r.value.1 <= |raw|
  {
    hide KeyOf, ColonLen, ValueAndSpaceLen, Drop;
    DropLength(raw, index);
    var key := KeyAt(decode, raw, index);
    if key.None? { return None; }
    var k := key.value.1;
    DropAdd(raw, index, k);
    DropLength(raw, index + k);
    var colon := ColonAt(raw, index + k);
    if colon.None? { return None; }
    var c := colon.value;
    DropAdd(raw, index, k + c);
    DropLength(raw, index + k + c);
    var value := ValueAt(raw, index + k + c);
    if value.None? { return None; }
    var (n, w) := value.value;
    return Some((Span(key.value.0, index + k + c, index + k + c + n), k + c + w));
  }

  // ---------- the member loop ----------

  lemma SpansClosed(read: Reader, s: bytes, offset: nat, i: nat)
    requires i == SpaceLen(s)
    ensures i == |s| ==> SpansFrom(read, s, offset).None?
    ensures i < |s| && s[i] == 0x7D ==> SpansFrom(read, s, offset) == Some([])
    ensures i < |s| && s[i] != 0x7D && read(s[i..], offset + i).None? ==> SpansFrom(read, s, offset).None?
  {
  }

  lemma SpansMember(read: Reader, s: bytes, offset: nat, i: nat, span: Span, n: nat)
    requires i == SpaceLen(s) < |s| && s[i] != 0x7D && read(s[i..], offset + i) == Some((span, n))
    ensures SpansFrom(read, s, offset) ==
      if i + n >= |s| then None
      else if s[i + n] == COMMA then PrependSpan(span, SpansFrom(read, s[i + n + 1..], offset + i + n + 1))
      else if s[i + n] == 0x7D then Some([span])
      else None
  {
    hide SpaceLen, PrependSpan;
  }

  ghost predicate FoundSoFar(seen: seq<Span>, field: bytes, found: Option<(nat, nat)>) {
    match found
    case None => Matching(seen, field) == []
    case Some((start, end)) =>
      var matches := Matching(seen, field);
      |matches| == 1 && matches[0].start == start && matches[0].end == end
  }

  lemma FoundNext(seen: seq<Span>, span: Span, field: bytes, found: Option<(nat, nat)>)
    requires FoundSoFar(seen, field, found)
    ensures span.key != field ==> FoundSoFar(seen + [span], field, found)
    ensures span.key == field && found.None? ==> FoundSoFar(seen + [span], field, Some((span.start, span.end)))
    ensures span.key == field && found.Some? ==> |Matching(seen + [span], field)| == 2
  {
    MatchingConcat(seen, [span], field);
    assert Matching([span], field) == if span.key == field then [span] else [];
  }

  lemma FoundLast(seen: seq<Span>, field: bytes, found: Option<(nat, nat)>)
    requires FoundSoFar(seen, field, found)
    ensures PickUnique(Some(seen), field) == found
  {
  }

  /** Two matches already seen: nothing that follows makes the match unique. */
  lemma TwoMatches(seen: seq<Span>, o: Option<seq<Span>>, field: bytes)
    requires |Matching(seen, field)| >= 2
    ensures PickUnique(Join(seen, o), field).None?
  {
    if o.Some? { MatchingConcat(seen, o.value, field); }
  }

  lemma JoinPrepend(seen: seq<Span>, span: Span, o: Option<seq<Span>>)
    ensures Join(seen, PrependSpan(span, o)) == Join(seen + [span], o)
  {
    if o.Some? { assert seen + ([span] + o.value) == seen + [span] + o.value; }
  }

  /** What is left to find behind a member that ends at `next`. */
  function AfterMember(read: Reader, raw: bytes, next: nat, seen: seq<Span>): Option<seq<Span>> {
    if next >= |raw| then None
    else if raw[next] == COMMA then Join(seen, SpansFrom(read, Drop(raw, next + 1), next + 1))
    else if raw[next] == 0x7D then Some(seen)
    else None
  }

  lemma CommaHere(read: Reader, raw: bytes, offset: nat, s: bytes, i: nat, span: Span, n: nat, next: nat, t: bytes)
    requires offset <= |raw| && s == raw[offset..] && i == SpaceLen(s) < |s| && s[i] != 0x7D
    requires read(s[i..], offset + i) == Some((span, n))
    requires next == offset + i + n < |raw| && raw[next] == COMMA && t == raw[next + 1..]
    ensures SpansFrom(read, s, offset) == PrependSpan(span, SpansFrom(read, t, next + 1))
  {
    hide SpansFrom, SpaceLen;
    assert s[i + n + 1..] == t && s[i + n] == COMMA;
    SpansMember(read, s, offset, i, span, n);
  }

  lemma EndHere(read: Reader, raw: bytes, offset: nat, s: bytes, i: nat, span: Span, n: nat, next: nat)
    requires offset <= |raw| && s == raw[offset..] && i == SpaceLen(s) < |s| && s[i] != 0x7D
    requires read(s[i..], offset + i) == Some((span, n))
    requires next == offset + i + n && (next < |raw| ==> raw[next] != COMMA)
    ensures SpansFrom(read, s, offset) == if next < |raw| && raw[next] == 0x7D then Some([span]) else None
  {
    hide SpansFrom, SpaceLen;
    if next < |raw| { assert s[i + n] == raw[next]; }
    SpansMember(read, s, offset, i, span, n);
  }

  lemma MemberHere(read: Reader, raw: bytes, offset: nat, s: bytes, i: nat, span: Span, n: nat, next: nat, seen: seq<Span>)
    requires offset <= |raw| && s == raw[offset..] && i == SpaceLen(s) < |s| && s[i] != 0x7D
    requires read(s[i..], offset + i) == Some((span, n)) && next == offset + i + n
    ensures Join(seen, SpansFrom(read, s, offset)) == AfterMember(read, raw, next, seen + [span])
  {
    if next < |raw| && raw[next] == COMMA {
      var t := raw[next + 1..];
      CommaHere(read, raw, offset, s, i, span, n, next, t);
      JoinPrepend(seen, span, SpansFrom(read, t, next + 1));
    } else {
      EndHere(read, raw, offset, s, i, span, n, next);
    }
  }

  /** All members found, when those from `index` on are still to be read. */
  function Left(read: Reader, raw: bytes, index: nat, seen: seq<Span>): Option<seq<Span>> {
    Join(seen, SpansFrom(read, Drop(raw, index), index))
  }

  lemma SpansStart(read: Reader, raw: bytes, index: nat)
    requires index == SpaceLen(Drop(raw, 0))
    ensures Spans(read, raw) ==
      if index >= |raw| || raw[index] != 0x7B then None else SpansFrom(read, Drop(raw, index + 1), index + 1)
  {
    assert Drop(raw, 0) == raw;
  }

  lemma JoinNothing(o: Option<seq<Span>>)
    ensures Join([], o) == o
  {
    if o.Some? { assert [] + o.value == o.value; }
  }

  lemma ClosedHere(read: Reader, raw: bytes, offset: nat, index: nat, seen: seq<Span>)
    requires offset <= index < |raw| && index == offset + SpaceLen(Drop(raw, offset)) && raw[index] == 0x7D
    ensures Left(read, raw, offset, seen) == Some(seen)
  {
    hide SpansFrom, SpaceLen;
    assert Drop(raw, offset)[index - offset] == 0x7D;
    SpansClosed(read, Drop(raw, offset), offset, index - offset);
    assert seen + [] == seen;
  }

  lemma NothingHere(read: Reader, raw: bytes, offset: nat, index: nat, seen: seq<Span>)
    requires offset <= |raw| && offset <= index && index == offset + SpaceLen(Drop(raw, offset))
    requires index < |raw| ==> raw[index] != 0x7D && read(Drop(raw, index), index).None?
    ensures Left(read, raw, offset, seen).None?
  {
    hide SpansFrom, SpaceLen;
    DropAdd(raw, offset, index - offset);
    SpansClosed(read, Drop(raw, offset), offset, index - offset);
  }

  lemma MemberLeft(read: Reader, raw: bytes, offset: nat, index: nat, span: Span, n: nat, next: nat, seen: seq<Span>)
    requires offset <= index < |raw| && index == offset + SpaceLen(Drop(raw, offset)) && raw[index] != 0x7D
    requires read(Drop(raw, index), index) == Some((span, n)) && next == index + n
    ensures Left(read, raw, offset, seen) == AfterMember(read, raw, next, seen + [span])
  {
    hide SpansFrom, SpaceLen, AfterMember, Join;
    DropAdd(raw, offset, index - offset);
    MemberHere(read, raw, offset, raw[offset..], index - offset, span, n, next, seen);
  }

  lemma TwoMatchesHere(read: Reader, raw: bytes, next: nat, seen: seq<Span>, field: bytes)
    requires |Matching(seen, field)| >= 2
    ensures PickUnique(AfterMember(read, raw, next, seen), field).None?
  {
    if next < |raw| && raw[next] == COMMA {
      TwoMatches(seen, SpansFrom(read, Drop(raw, next + 1), next + 1), field);
    }
  }

  /** `read` finds values inside the bytes it is given. */
  ghost predicate ReadsWithin(read: Reader) {
    forall s, offset :: read(s, offset).Some? ==> Within(read(s, offset).value, |s|, offset)
  }

  predicate Within(r: (Span, nat), len: nat, offset: nat) {
    offset <= r.0.start <= r.0.end <= offset + len && r.1 <= len
  }

  lemma MemberWithin(lexer: Lexer, s: bytes, offset: nat)
    requires lexer.key(s).Some? ==> lexer.key(s).value.1 <= |s|
    requires forall t :: lexer.colon(t).Some? ==> lexer.colon(t).value <= |t|
    requires forall t :: lexer.value(t).Some? ==> lexer.value(t).value.0 <= lexer.value(t).value.1 <= |t|
    ensures MemberOf(lexer, s, offset).Some? ==> Within(MemberOf(lexer, s, offset).value, |s|, offset)
  {
  }

  lemma JsonReadsWithin(decode: Decoder)
    ensures ReadsWithin(JsonReader(decode))
  {
    hide StringLen, SpaceLen, ValueLen;
    forall s, offset | JsonReader(decode)(s, offset).Some?
      ensures Within(JsonReader(decode)(s, offset).value, |s|, offset)
    {
      MemberWithin(JsonLexer(decode), s, offset);
    }
  }

  predicate AllWithin(o: Option<seq<Span>>, end: nat) {
    o.Some? ==> forall p :: p in o.value ==> p.start <= p.end <= end
  }

  lemma PrependWithin(span: Span, o: Option<seq<Span>>, end: nat)
    requires span.start <= span.end <= end && AllWithin(o, end)
    ensures AllWithin(PrependSpan(span, o), end)
  {
  }

  lemma {:induction false} SpansWithin(read: Reader, s: bytes, offset: nat, end: nat)
    requires ReadsWithin(read) && end == offset + |s|
    ensures AllWithin(SpansFrom(read, s, offset), end)
    decreases |s|
  {
    hide ReadsWithin, SpansFrom, PrependSpan;
    var i := SpaceLen(s);
    SpansClosed(read, s, offset, i);
    if i < |s| && s[i] != 0x7D && read(s[i..], offset + i).Some? {
      var (span, n) := read(s[i..], offset + i).value;
      ReadWithin(read, s[i..], offset + i);
      SpansMember(read, s, offset, i, span, n);
      if i + n < |s| && s[i + n] == COMMA {
        var t := s[i + n + 1..];
        SpansWithin(read, t, offset + i + n + 1, end);
        PrependWithin(span, SpansFrom(read, t, offset + i + n + 1), end);
      }
    }
  }

  lemma ReadWithin(read: Reader, s: bytes, offset: nat)
    requires ReadsWithin(read) && read(s, offset).Some?
    ensures Within(read(s, offset).value, |s|, offset)
  {
  }

  lemma {:induction false} MatchingSubset(spans: seq<Span>, field: bytes)
    ensures forall p :: p in Matching(spans, field) ==> p in spans
  {
    if spans != [] { MatchingSubset(spans[1..], field); }
  }

  lemma AllSpansWithin(decode: Decoder, raw: bytes)
    ensures AllWithin(Spans(JsonReader(decode), raw), |raw|)
  {
    hide SpansFrom, JsonReader, ReadsWithin;
    var read := JsonReader(decode);
    if Spans(read, raw).Some? {
      JsonReadsWithin(decode);
      var i := SpaceLen(raw);
      SpansWithin(read, raw[i + 1..], i + 1, |raw|);
    }
  }

  lemma PickWithin(decode: Decoder, raw: bytes, field: bytes)
    ensures var r := PickUnique(Spans(JsonReader(decode), raw), field); r.Some? ==> r.value.0 <= r.value.1 <= |raw|
  {
    hide Matching, Spans, JsonReader;
    AllSpansWithin(decode, raw);
    var o := Spans(JsonReader(decode), raw);
    if o.Some? { MatchingSubset(o.value, field); }
  }

  lemma PickNothing(field: bytes)
    ensures PickUnique(None, field).None?
  {
  }

  lemma ReadsOneMember(decode: Decoder)
    ensures forall s, offset :: JsonReader(decode)(s, offset) == MemberOf(JsonLexer(decode), s, offset)
  {
    hide MemberOf;
  }

  lemma NoSpaceBehind(raw: bytes)
    ensures SpaceLen(Drop(raw, |raw|)) == 0
  {
  }

  lemma LeftAtFirst(read: Reader, raw: bytes, index: nat, field: bytes)
    ensures Left(read, raw, index, []) == SpansFrom(read, Drop(raw, index), index)
    ensures FoundSoFar([], field, None)
  {
    hide SpansFrom;
    JoinNothing(SpansFrom(read, Drop(raw, index), index));
  }

  lemma AfterMemberIs(read: Reader, raw: bytes, next: nat, seen: seq<Span>, field: bytes)
    ensures next >= |raw| ==> AfterMember(read, raw, next, seen).None?
    ensures next < |raw| && raw[next] == COMMA ==> AfterMember(read, raw, next, seen) == Left(read, raw, next + 1, seen)
    ensures next < |raw| && raw[next] == 0x7D ==> AfterMember(read, raw, next, seen) == Some(seen)
    ensures next < |raw| && raw[next] != COMMA && raw[next] != 0x7D ==> AfterMember(read, raw, next, seen).None?
  {
    hide SpansFrom;
  }

  /**
   The range of the only outermost member with a given key, for any bytes: the
   early return on a second match gives up what the full scan would give up.
   */
  method TopLevelValueRange(decode: Decoder, raw: bytes, field: bytes) returns (r: Option<(nat, nat)>)
    ensures r == PickUnique(Spans(JsonReader(decode), raw), field)
    ensures r.Some? ==> r.value.0 <= r.value.1 <= |raw|
  {
    PickWithin(decode, raw, field);
    hide KeyOf, ColonLen, ValueAndSpaceLen, MemberOf, SpansFrom, Spans, SpaceLen, Drop;
    hide Left, AfterMember, PickUnique, FoundSoFar, JsonReader;
    ReadsOneMember(decode);
    PickNothing(field);
    ghost var read := JsonReader(decode);
    ghost var total := PickUnique(Spans(read, raw), field);
    var index := SkipJsonWhitespace(raw, 0);
    SpansStart(read, raw, index);
    if index >= |raw| || raw[index] != 0x7B { return None; }
    index := index + 1;
    var found: Option<(nat, nat)> := None;
    ghost var seen: seq<Span> := [];
    LeftAtFirst(read, raw, index, field);
    while index < |raw|
      invariant index <= |raw|
      invariant total == PickUnique(Left(read, raw, index, seen), field)
      invariant FoundSoFar(seen, field, found)
    {
      ghost var offset := index;
      index := SkipJsonWhitespace(raw, index);
      if index < |raw| && raw[index] == 0x7D {
        ClosedHere(read, raw, offset, index, seen);
        FoundLast(seen, field, found);
        return found;
      }
      var member := MemberAt(decode, raw, index);
      if member.None? {
        NothingHere(read, raw, offset, index, seen);
        return None;
      }
      var (span, n) := member.value;
      var next := index + n;
      MemberLeft(read, raw, offset, index, span, n, next, seen);
      AfterMemberIs(read, raw, next, seen + [span], field);
      FoundNext(seen, span, field, found);
      if span.key == field {
        if found.Some? {
          TwoMatchesHere(read, raw, next, seen + [span], field);
          return None;
        }
        found := Some((span.start, span.end));
      }
      index := next;
      seen := seen + [span];
      if index < |raw| && raw[index] == COMMA {
        index := index + 1;
      } else if index < |raw| && raw[index] == 0x7D {
        FoundLast(seen, field, found);
        return found;
      } else {
        return None;
      }
    }
    NoSpaceBehind(raw);
    NothingHere(read, raw, index, index, seen);
    return None;
  }
}
