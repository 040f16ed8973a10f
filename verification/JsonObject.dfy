/** The members of an object as a map, and the two ways of giving it one more. */
module JsonObject {
  import opened Common
  import opened JsonString
  import opened JsonGrammar
  import opened JsonScan
  import opened JsonScanner

  /** Decoded keys to the exact bytes of their values; of equal keys the last one counts. */
  function Texts(decode: Decoder, ms: Members): map<bytes, bytes>
    requires Decodes(decode, ms)
  {
    match ms
    case NoMembers(_) => map[]
    case LastMember(m) => map[decode(m.key).value := ValueText(m.value)]
    case MoreMembers(m, rest) => map[decode(m.key).value := ValueText(m.value)] + Texts(decode, rest)
  }

  function One(b: bool): nat {
    if b then 1 else 0
  }

  /** How many members have the key. */
  function Count(decode: Decoder, ms: Members, field: bytes): nat
    requires Decodes(decode, ms)
  {
    match ms
    case NoMembers(_) => 0
    case LastMember(m) => One(decode(m.key).value == field)
    case MoreMembers(m, rest) => One(decode(m.key).value == field) + Count(decode, rest, field)
  }

  function WithValue(decode: Decoder, m: Member, field: bytes, v: Value): Member
    requires decode(m.key).Some?
  {
    if decode(m.key).value == field then m.(value := v) else m
  }

  /** The members with another value under the key. */
  function Replaced(decode: Decoder, ms: Members, field: bytes, v: Value): Members
    requires Decodes(decode, ms)
  {
    match ms
    case NoMembers(_) => ms
    case LastMember(m) => LastMember(WithValue(decode, m, field, v))
    case MoreMembers(m, rest) => MoreMembers(WithValue(decode, m, field, v), Replaced(decode, rest, field, v))
  }

  /** The members with one more at the end. */
  function Appended(ms: Members, m: Member): Members {
    match ms
    case NoMembers(gap) => LastMember(m.(before := gap))
    case LastMember(x) => MoreMembers(x, LastMember(m))
    case MoreMembers(x, rest) => MoreMembers(x, Appended(rest, m))
  }

  // ---------- the map ----------

  lemma {:induction false} CountTexts(decode: Decoder, ms: Members, field: bytes)
    requires Decodes(decode, ms)
    ensures field in Texts(decode, ms) <==> Count(decode, ms, field) > 0
  {
    if ms.MoreMembers? { CountTexts(decode, ms.rest, field); }
  }

  lemma NoTexts(decode: Decoder, ms: Members)
    requires Decodes(decode, ms)
    ensures Texts(decode, ms) == map[] <==> ms.NoMembers?
  {
    match ms
    case NoMembers(_) =>
    case LastMember(m) => assert decode(m.key).value in Texts(decode, ms);
    case MoreMembers(m, rest) => assert decode(m.key).value in Texts(decode, ms);
  }

  lemma {:induction false} ReplacedTexts(decode: Decoder, ms: Members, field: bytes, v: Value)
    requires Decodes(decode, ms)
    ensures Decodes(decode, Replaced(decode, ms, field, v))
    ensures var before, after := Texts(decode, ms), Texts(decode, Replaced(decode, ms, field, v));
      after == if field in before then before[field := ValueText(v)] else before
  {
    hide ValueText;
    match ms
    case NoMembers(_) =>
    case LastMember(m) =>
    case MoreMembers(m, rest) =>
      ReplacedTexts(decode, rest, field, v);
      ReplacedFirst(decode(m.key).value, ValueText(m.value), Texts(decode, rest), field, ValueText(v));
  }

  lemma ReplacedFirst(key: bytes, text: bytes, rest: map<bytes, bytes>, field: bytes, new_: bytes)
    ensures var before, rest' := map[key := text] + rest, if field in rest then rest[field := new_] else rest;
      var first := if key == field then new_ else text;
      map[key := first] + rest' == if field in before then before[field := new_] else before
  {
  }

  lemma {:induction false} AppendedTexts(decode: Decoder, ms: Members, m: Member)
    requires Decodes(decode, ms) && decode(m.key).Some?
    ensures Decodes(decode, Appended(ms, m))
    ensures Texts(decode, Appended(ms, m)) == Texts(decode, ms)[decode(m.key).value := ValueText(m.value)]
  {
    hide ValueText;
    if ms.MoreMembers? { AppendedTexts(decode, ms.rest, m); }
  }

  lemma {:induction false} ReadableDecodes(ms: Members)
    requires Readable(ms)
    ensures Decodes(Unescape, ms)
  {
    if ms.MoreMembers? { ReadableDecodes(ms.rest); }
  }

  lemma {:induction false} ReplacedWf(ms: Members, field: bytes, v: Value)
    requires Decodes(Unescape, ms) && WfMembers(ms) && Readable(ms) && WfValue(v) && Utf8.Valid(ValueText(v))
    ensures var after := Replaced(Unescape, ms, field, v); WfMembers(after) && Readable(after)
  {
    if ms.MoreMembers? { ReplacedWf(ms.rest, field, v); }
  }

  lemma {:induction false} AppendedWf(ms: Members, m: Member)
    requires WfMembers(ms) && Readable(ms) && WfMember(m) && Readable(LastMember(m))
    ensures WfMembers(Appended(ms, m)) && Readable(Appended(ms, m))
  {
    if ms.MoreMembers? { AppendedWf(ms.rest, m); }
  }

  // ---------- the bytes ----------

  /** The members behind some byte offset of a text. */
  ghost predicate Stands(raw: bytes, offset: nat, s: bytes) {
    offset + |s| <= |raw| && raw[offset..offset + |s|] == s
  }

  lemma SliceOfSlice(s: bytes, lo: nat, hi: nat, i: nat, j: nat)
    requires lo <= hi <= |s| && i <= j <= hi - lo
    ensures s[lo..hi][i..j] == s[lo + i..lo + j]
  {
    var x, y := s[lo..hi][i..j], s[lo + i..lo + j];
    assert |x| == |y| && forall k :: 0 <= k < |x| ==> x[k] == y[k];
  }

  lemma MiddlePart(a: bytes, b: bytes, c: bytes)
    ensures (a + b + c)[|a|..|a| + |b|] == b
  {
  }

  lemma StandsPart(raw: bytes, offset: nat, a: bytes, b: bytes, c: bytes, at: nat)
    requires Stands(raw, offset, a + b + c) && at == offset + |a|
    ensures Stands(raw, at, b)
  {
    MiddlePart(a, b, c);
    SliceOfSlice(raw, offset, offset + |a + b + c|, |a|, |a| + |b|);
  }

  function MemberHead(m: Member): bytes {
    m.before + Quoted(m.key) + m.beforeColon + [COLON] + m.afterColon
  }

  lemma MemberParts(decode: Decoder, m: Member, offset: nat, key: bytes)
    ensures MemberText(m) == MemberHead(m) + ValueText(m.value) + m.after
    ensures var span := MemberSpan(m, offset, key);
      span.start == offset + |MemberHead(m)| && span.end == span.start + |ValueText(m.value)|
  {
  }

  /** The map that the spans of a text describe. */
  function TextsAt(raw: bytes, spans: seq<Span>): map<bytes, bytes> {
    if spans == [] then map[]
    else
      var s := spans[0];
      map[s.key := if s.start <= s.end <= |raw| then raw[s.start..s.end] else []] + TextsAt(raw, spans[1..])
  }

  lemma SpanText(decode: Decoder, m: Member, raw: bytes, offset: nat, key: bytes)
    requires Stands(raw, offset, MemberText(m))
    ensures var s := MemberSpan(m, offset, key); s.start <= s.end <= |raw| && raw[s.start..s.end] == ValueText(m.value)
  {
    hide ValueText, MemberHead, MemberText, MemberSpan;
    MemberParts(decode, m, offset, key);
    StandsPart(raw, offset, MemberHead(m), ValueText(m.value), m.after, offset + |MemberHead(m)|);
  }

  lemma TextsAtNone(raw: bytes)
    ensures TextsAt(raw, []) == map[]
  {
  }

  lemma TextsAtFirst(raw: bytes, s: Span, rest: seq<Span>, text: bytes)
    requires s.start <= s.end <= |raw| && raw[s.start..s.end] == text
    ensures TextsAt(raw, [s] + rest) == map[s.key := text] + TextsAt(raw, rest)
  {
    assert ([s] + rest)[1..] == rest;
  }

  lemma MoreStand(m: Member, rest: Members, raw: bytes, offset: nat)
    requires Stands(raw, offset, MembersText(MoreMembers(m, rest)))
    ensures Stands(raw, offset, MemberText(m))
    ensures Stands(raw, offset + |MemberText(m)| + 1, MembersText(rest))
  {
    hide MemberText;
    var a, b := MemberText(m), MembersText(rest);
    assert MembersText(MoreMembers(m, rest)) == [] + a + ([COMMA] + b);
    StandsPart(raw, offset, [], a, [COMMA] + b, offset);
    assert MembersText(MoreMembers(m, rest)) == (a + [COMMA]) + b + [];
    StandsPart(raw, offset, a + [COMMA], b, [], offset + |a| + 1);
  }

  /** What deserialization makes of a text depends on its bytes only. */
  lemma {:induction false} SpansDescribe(decode: Decoder, ms: Members, raw: bytes, offset: nat)
    requires Decodes(decode, ms) && Stands(raw, offset, MembersText(ms))
    ensures TextsAt(raw, SpansOf(decode, ms, offset)) == Texts(decode, ms)
    decreases ms
  {
    hide MemberText, MemberSpan, ValueText, Stands, TextsAt;
    TextsAtNone(raw);
    match ms
    case NoMembers(_) =>
    case LastMember(m) =>
      var key := decode(m.key).value;
      SpanText(decode, m, raw, offset, key);
      SpanKey(m, offset, key);
      TextsAtFirst(raw, MemberSpan(m, offset, key), [], ValueText(m.value));
      assert [MemberSpan(m, offset, key)] + [] == [MemberSpan(m, offset, key)];
    case MoreMembers(m, rest) =>
      var key := decode(m.key).value;
      MoreStand(m, rest, raw, offset);
      SpanText(decode, m, raw, offset, key);
      SpanKey(m, offset, key);
      var next := offset + |MemberText(m)| + 1;
      SpansDescribe(decode, rest, raw, next);
      TextsAtFirst(raw, MemberSpan(m, offset, key), SpansOf(decode, rest, next), ValueText(m.value));
  }

  lemma SpanKey(m: Member, offset: nat, key: bytes)
    ensures MemberSpan(m, offset, key).key == key
  {
  }

  lemma {:induction false} CountSpans(decode: Decoder, ms: Members, offset: nat, field: bytes)
    requires Decodes(decode, ms)
    ensures |Matching(SpansOf(decode, ms, offset), field)| == Count(decode, ms, field)
    decreases ms
  {
    hide MemberText, MemberSpan;
    match ms
    case NoMembers(_) =>
    case LastMember(m) =>
      SpanKey(m, offset, decode(m.key).value);
    case MoreMembers(m, rest) =>
      var next := offset + |MemberText(m)| + 1;
      SpanKey(m, offset, decode(m.key).value);
      CountSpans(decode, rest, next, field);
      assert SpansOf(decode, ms, offset)[1..] == SpansOf(decode, rest, next);
  }

  lemma {:induction false} NoneReplaced(decode: Decoder, ms: Members, field: bytes, v: Value)
    requires Decodes(decode, ms) && Count(decode, ms, field) == 0
    ensures Replaced(decode, ms, field, v) == ms
  {
    if ms.MoreMembers? { NoneReplaced(decode, ms.rest, field, v); }
  }

  /** `raw` with the bytes from `start` to `end` replaced. */
  function Spliced(raw: bytes, start: nat, end: nat, s: bytes): bytes
    requires start <= end <= |raw|
  {
    raw[..start] + s + raw[end..]
  }

  lemma SplicedPart(pre: bytes, head: bytes, old_: bytes, tail: bytes, s: bytes, start: nat, end: nat)
    requires start == |pre| + |head| && end == start + |old_|
    ensures Spliced(pre + (head + old_ + tail), start, end, s) == pre + (head + s + tail)
  {
  }

  lemma SplicedValue(decode: Decoder, m: Member, v: Value, pre: bytes, post: bytes, key: bytes)
    ensures var span := MemberSpan(m, |pre|, key);
      && span.start <= span.end <= |pre + (MemberText(m) + post)|
      && Spliced(pre + (MemberText(m) + post), span.start, span.end, ValueText(v)) == pre + (MemberText(m.(value := v)) + post)
  {
    hide ValueText, MemberHead, MemberText, MemberSpan, Spliced;
    var m' := m.(value := v);
    MemberParts(decode, m, |pre|, key);
    MemberParts(decode, m', |pre|, key);
    assert MemberHead(m') == MemberHead(m) by { SameHead(m, v); }
    var head, old_, s, tail := MemberHead(m), ValueText(m.value), ValueText(v), m.after + post;
    assert MemberText(m) + post == head + old_ + tail;
    assert MemberText(m') + post == head + s + tail;
    SplicedPart(pre, head, old_, tail, s, |pre| + |head|, |pre| + |head| + |old_|);
  }

  lemma SameHead(m: Member, v: Value)
    ensures MemberHead(m.(value := v)) == MemberHead(m)
  {
  }

  /** The splice at the only match is the text with the value replaced. */
  ghost predicate SplicesAt(decode: Decoder, ms: Members, field: bytes, v: Value, pre: bytes, post: bytes, spans: seq<Span>)
    requires Decodes(decode, ms)
  {
    var raw := pre + (MembersText(ms) + post);
    && |Matching(spans, field)| == 1
    && var span := Matching(spans, field)[0];
    && span.start <= span.end <= |raw|
    && Spliced(raw, span.start, span.end, ValueText(v)) == pre + (MembersText(Replaced(decode, ms, field, v)) + post)
  }

  lemma MoreText(m: Member, rest: Members, pre: bytes, post: bytes)
    ensures pre + (MembersText(MoreMembers(m, rest)) + post) == pre + (MemberText(m) + ([COMMA] + MembersText(rest) + post))
    ensures pre + (MembersText(MoreMembers(m, rest)) + post) == (pre + MemberText(m) + [COMMA]) + (MembersText(rest) + post)
  {
    hide MemberText;
    var a, b := MemberText(m), MembersText(rest);
    assert MembersText(MoreMembers(m, rest)) == a + [COMMA] + b;
    assert pre + (a + [COMMA] + b + post) == pre + (a + ([COMMA] + b + post));
    assert pre + (a + [COMMA] + b + post) == (pre + a + [COMMA]) + (b + post);
  }

  lemma {:induction false} SplicedMembers(decode: Decoder, ms: Members, field: bytes, v: Value, pre: bytes, post: bytes)
    requires Decodes(decode, ms) && Count(decode, ms, field) == 1
    ensures SplicesAt(decode, ms, field, v, pre, post, SpansOf(decode, ms, |pre|))
    decreases ms
  {
    hide MemberText, MemberSpan, ValueText, Spliced, Matching;
    match ms
    case NoMembers(_) =>
    case LastMember(m) =>
      SplicedValue(decode, m, v, pre, post, field);
      SpanKey(m, |pre|, field);
      MatchingFirst(MemberSpan(m, |pre|, field), [], field);
      MatchingNone(field);
      assert [MemberSpan(m, |pre|, field)] + [] == [MemberSpan(m, |pre|, field)];
    case MoreMembers(m, rest) =>
      var key := decode(m.key).value;
      var pre' := pre + MemberText(m) + [COMMA];
      var span := MemberSpan(m, |pre|, key);
      SpanKey(m, |pre|, key);
      MatchingFirst(span, SpansOf(decode, rest, |pre'|), field);
      MoreText(m, rest, pre, post);
      if key == field {
        SplicedValue(decode, m, v, pre, [COMMA] + MembersText(rest) + post, key);
        CountSpans(decode, rest, |pre'|, field);
        NoneReplaced(decode, rest, field, v);
        MoreText(m.(value := v), rest, pre, post);
      } else {
        SplicedMembers(decode, rest, field, v, pre', post);
        MoreText(m, Replaced(decode, rest, field, v), pre, post);
      }
  }

  lemma MatchingNone(field: bytes)
    ensures Matching([], field) == []
  {
  }

  /** What appending writes in front of the closing brace. */
  lemma {:induction false} AppendedText(ms: Members, m: Member)
    requires m.before == [] && WfMembers(ms)
    ensures MembersText(Appended(ms, m)) == MembersText(ms) + (if ms.NoMembers? then [] else [COMMA]) + MemberText(m)
  {
    hide ValueText, WfMember;
    match ms
    case NoMembers(gap) =>
    case LastMember(x) =>
    case MoreMembers(x, rest) =>
      AppendedText(rest, m);
      assert MemberText(x) + [COMMA] + (MembersText(rest) + [COMMA] + MemberText(m)) ==
        MemberText(x) + [COMMA] + MembersText(rest) + [COMMA] + MemberText(m);
  }
}
