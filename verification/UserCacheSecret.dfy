/**
 Adding the client secret to a request: by splicing bytes into a JSON body, and
 by inserting into a decoded one.
 */
module UserCacheSecret {
  import opened Common
  import opened JsonString
  import opened JsonGrammar
  import opened JsonScan
  import opened JsonScanner
  import opened JsonObject
  import opened JsonSpelling
  import Utf8

  /** "user_cache_secret" */
  const FIELD: bytes := [0x75, 0x73, 0x65, 0x72, 0x5F, 0x63, 0x61, 0x63, 0x68, 0x65,
                         0x5F, 0x73, 0x65, 0x63, 0x72, 0x65, 0x74]

  // ---------- the decoded body ----------

  /** A value: a string by its decoded content, anything else by its exact text. */
  datatype Json = Str(content: bytes) | Raw(text: bytes)

  function Meaning(text: bytes): Json {
    if |text| >= 2 && text[0] == QUOTE == text[|text| - 1] then
      match Unescape(text[1..|text| - 1])
      case Some(s) => Str(s)
      case None => Raw(text)
    else Raw(text)
  }

  function Meanings(texts: map<bytes, bytes>): map<bytes, Json> {
    map key | key in texts :: Meaning(texts[key])
  }

  /** The decoded body of a document. */
  function Parsed(d: Document): map<bytes, Json>
    requires WfDocument(d)
  {
    ReadableDecodes(d.members);
    Meanings(Texts(Unescape, d.members))
  }

  /** The map with the secret, unless the caller has set something but an empty string. */
  function Provisioned(m: map<bytes, Json>, secret: bytes): map<bytes, Json> {
    if FIELD in m && m[FIELD] != Str([]) then m else m[FIELD := Str(secret)]
  }

  datatype Body = Fields(fields: map<bytes, Json>) | NotAnObject

  class RequestBody {
    var body: Body

    constructor (b: Body)
      ensures body == b
    {
      body := b;
    }

    method ProvisionValue(secret: Option<bytes>)
      modifies this
      ensures body == match (old(body), secret)
                      case (Fields(m), Some(s)) => Fields(Provisioned(m, s))
                      case _ => old(body)
    {
      if body.NotAnObject? { return; }
      var fields := body.fields;
      if FIELD in fields && fields[FIELD] != Str([]) { return; }
      if secret.None? { return; }
      body := Fields(fields[FIELD := Str(secret.value)]);
    }
  }

  // ---------- the spliced body ----------

  /** What deserializing a body as a map of raw values gives: nothing unless the bytes are one object. */
  ghost predicate Deserializes(raw: bytes, body: Option<map<bytes, bytes>>) {
    match body
    case None => forall d :: WfDocument(d) ==> DocumentText(d) != raw
    case Some(texts) => exists d :: WfDocument(d) && DocumentText(d) == raw && IsTexts(d, texts)
  }

  ghost predicate IsTexts(d: Document, texts: map<bytes, bytes>) {
    Decodes(Unescape, d.members) && Texts(Unescape, d.members) == texts
  }

  function NewMember(secret: bytes): Member {
    Member([], FIELD, [], [], Text(Escape(secret)), [])
  }

  /** The injection on syntax trees. */
  function Inject(d: Document, secret: bytes): Option<Document>
    requires Decodes(Unescape, d.members)
  {
    var texts := Texts(Unescape, d.members);
    if FIELD !in texts then Some(d.(members := Appended(d.members, NewMember(secret))))
    else if texts[FIELD] != Quoted([]) || Count(Unescape, d.members, FIELD) != 1 then None
    else Some(d.(members := Replaced(Unescape, d.members, FIELD, Text(Escape(secret)))))
  }

  function TextOf(d: Option<Document>): Option<bytes> {
    match d
    case None => None
    case Some(d) => Some(DocumentText(d))
  }

  /** Index of the last byte that is not whitespace. */
  method LastNonSpace(raw: bytes) returns (close: Option<nat>)
    ensures close == if TrimmedLen(raw) == 0 then None else Some(TrimmedLen(raw) - 1)
  {
    var i := |raw|;
    assert raw[..i] == raw;
    while i > 0 && IsSpaceByte(raw[i - 1])
      invariant i <= |raw|
      invariant TrimmedLen(raw[..i]) == TrimmedLen(raw)
    {
      assert raw[..i][..i - 1] == raw[..i - 1];
      i := i - 1;
    }
    return if i == 0 then None else Some(i - 1);
  }

  function SpansIn(raw: bytes): Option<seq<Span>> {
    Spans(JsonReader(Unescape), raw)
  }

  /** The bytes with `s` in place of a range. */
  function SplicedOver(raw: bytes, range: Option<(nat, nat)>, s: bytes): Option<bytes> {
    match range
    case None => None
    case Some((i, j)) => if i <= j <= |raw| then Some(Spliced(raw, i, j, s)) else None
  }

  /** The bytes with a member in front of the last brace. */
  function Grown(raw: bytes, first: bool, secret: bytes): Option<bytes> {
    var end := TrimmedLen(raw);
    if end == 0 || raw[end - 1] != 0x7D then None
    else Some(raw[..end - 1] + (if first then [] else [COMMA]) + MemberText(NewMember(secret)) + raw[end - 1..])
  }

  /** The injection in terms of the bytes and of what deserialization reads in them. */
  function Outcome(raw: bytes, texts: map<bytes, bytes>, secret: bytes): Option<bytes> {
    if FIELD !in texts then Grown(raw, texts == map[], secret)
    else if texts[FIELD] != Quoted([]) then None
    else SplicedOver(raw, PickUnique(SpansIn(raw), FIELD), Quoted(Escape(secret)))
  }

  lemma NewMemberText(secret: bytes)
    ensures MemberText(NewMember(secret)) == [QUOTE] + FIELD + [QUOTE, COLON] + Quoted(Escape(secret))
  {
    hide Escape;
  }

  lemma GrownParts(raw: bytes, at: nat, first: bool, secret: bytes, comma: bytes, value: bytes)
    requires at + 1 == TrimmedLen(raw) && raw[at] == 0x7D && comma == (if first then [] else [COMMA])
    requires value == Quoted(Escape(secret))
    ensures Grown(raw, first, secret) == Some(raw[..at] + comma + [QUOTE] + FIELD + [QUOTE, COLON] + value + raw[at..])
  {
    hide TrimmedLen, Quoted, Escape;
    NewMemberText(secret);
    var m := [QUOTE] + FIELD + [QUOTE, COLON] + value;
    assert raw[..at] + comma + m + raw[at..] == raw[..at] + comma + [QUOTE] + FIELD + [QUOTE, COLON] + value + raw[at..];
  }

  /**
   The splice, for any bytes and whatever deserializing them gave. On the text
   of an object it is the injection on its syntax tree, whichever tree that is.
   */
  method InjectUserCacheSecret(raw: bytes, body: Option<map<bytes, bytes>>, secret: bytes) returns (injected: Option<bytes>)
    requires Deserializes(raw, body)
    ensures body.None? ==> injected.None?
    ensures forall d :: WfDocument(d) && DocumentText(d) == raw ==>
      Decodes(Unescape, d.members) && injected == TextOf(Inject(d, secret))
  {
    injected := Splice(raw, body, secret);
    if body.Some? {
      EveryDocument(raw, body.value, secret);
    } else {
      assert forall d :: WfDocument(d) ==> DocumentText(d) != raw;
    }
  }

  method Splice(raw: bytes, body: Option<map<bytes, bytes>>, secret: bytes) returns (injected: Option<bytes>)
    ensures injected == match body case None => None case Some(texts) => Outcome(raw, texts, secret)
  {
    hide Unescape, Escape, PickUnique, Spans, JsonReader, MemberText, TrimmedLen;
    if body.None? { return None; }
    var texts := body.value;
    if FIELD in texts {
      if texts[FIELD] != [QUOTE, QUOTE] { return None; }
      var range := TopLevelValueRange(Unescape, raw, FIELD);
      if range.None? { return None; }
      return Some(raw[..range.value.0] + Quoted(Escape(secret)) + raw[range.value.1..]);
    }
    var close := LastNonSpace(raw);
    if close.None? { return None; }
    var at := close.value;
    if raw[at] != 0x7D { return None; }
    var out := raw[..at];
    ghost var comma := if texts == map[] then [] else [COMMA];
    if texts != map[] { out := out + [COMMA]; }
    assert out == raw[..at] + comma;
    out := out + [QUOTE];
    out := out + FIELD;
    out := out + [QUOTE, COLON];
    out := out + Quoted(Escape(secret));
    out := out + raw[at..];
    GrownParts(raw, at, texts == map[], secret, comma, Quoted(Escape(secret)));
    return Some(out);
  }

  lemma TrimDocument(d: Document)
    requires IsSpace(d.trail)
    ensures var raw := DocumentText(d); TrimmedLen(raw) == |raw| - |d.trail| && raw[TrimmedLen(raw) - 1] == 0x7D
    ensures var raw, at := DocumentText(d), |d.lead| + 1 + |MembersText(d.members)|;
      TrimmedLen(raw) == at + 1 && raw[..at] == d.lead + [0x7B] + MembersText(d.members) && raw[at..] == [0x7D] + d.trail
  {
    hide MembersText;
    var x := d.lead + [0x7B] + MembersText(d.members) + [0x7D];
    TrimSpace(x, d.trail);
  }

  lemma GrownDocument(d: Document, secret: bytes)
    requires IsSpace(d.trail) && WfMembers(d.members)
    ensures Grown(DocumentText(d), d.members.NoMembers?, secret) ==
      Some(DocumentText(d.(members := Appended(d.members, NewMember(secret)))))
  {
    hide MemberText, MembersText, WfMembers, Appended, TrimmedLen;
    var m := NewMember(secret);
    TrimDocument(d);
    AppendedText(d.members, m);
    var a, b, c := MembersText(d.members), MemberText(m), if d.members.NoMembers? then [] else [COMMA];
    assert d.lead + [0x7B] + a + c + b + ([0x7D] + d.trail) == d.lead + [0x7B] + (a + c + b) + [0x7D] + d.trail;
  }

  lemma ReplacedDocument(d: Document, field: bytes, v: Value)
    requires Decodes(Unescape, d.members) && Count(Unescape, d.members, field) == 1
    requires SpansIn(DocumentText(d)) == Some(SpansOf(Unescape, d.members, MembersOffset(d)))
    ensures SplicedOver(DocumentText(d), PickUnique(SpansIn(DocumentText(d)), field), ValueText(v)) ==
      Some(DocumentText(d.(members := Replaced(Unescape, d.members, field, v))))
  {
    hide Unescape, MembersText, ValueText, Replaced, SpansOf, Matching, SpansIn, Decodes, Count;
    var pre, post := d.lead + [0x7B], [0x7D] + d.trail;
    SplicedMembers(Unescape, d.members, field, v, pre, post);
    DocumentParts(d);
    var after := Replaced(Unescape, d.members, field, v);
    DocumentParts(d.(members := after));
    assert |pre| == MembersOffset(d) && DocumentText(d) == pre + (MembersText(d.members) + post);
    assert DocumentText(d.(members := after)) == pre + (MembersText(after) + post);
  }

  lemma NothingToReplace(d: Document, field: bytes, s: bytes)
    requires Decodes(Unescape, d.members) && Count(Unescape, d.members, field) != 1
    requires SpansIn(DocumentText(d)) == Some(SpansOf(Unescape, d.members, MembersOffset(d)))
    ensures SplicedOver(DocumentText(d), PickUnique(SpansIn(DocumentText(d)), field), s).None?
  {
    hide Unescape, SpansOf, Matching, SpansIn, Decodes, Count;
    CountSpans(Unescape, d.members, MembersOffset(d), field);
  }

  /** On the text of an object the bytes are spliced as its tree is changed. */
  lemma OutcomeOnDocument(d: Document, secret: bytes)
    requires WfDocument(d) && Decodes(Unescape, d.members)
    ensures Outcome(DocumentText(d), Texts(Unescape, d.members), secret) == TextOf(Inject(d, secret))
  {
    hide Unescape, Escape, DocumentText, SpansIn, SpansOf, Grown, SplicedOver;
    hide Decodes, Count, Texts, Readable, WfMembers, IsSpace;
    NoTexts(Unescape, d.members);
    GrownDocument(d, secret);
    DocumentSpans(Unescape, d);
    SpansInIs(d);
    var v := Text(Escape(secret));
    if Count(Unescape, d.members, FIELD) == 1 {
      ReplacedDocument(d, FIELD, v);
    } else {
      NothingToReplace(d, FIELD, ValueText(v));
    }
  }

  lemma SpansInIs(d: Document)
    ensures SpansIn(DocumentText(d)) == Spans(JsonReader(Unescape), DocumentText(d))
  {
    hide Unescape, JsonReader, Spans, DocumentText;
  }

  /** All syntax trees of one text have the same members. */
  lemma Unambiguous(d: Document, d': Document)
    requires WfDocument(d) && WfDocument(d') && DocumentText(d) == DocumentText(d')
    ensures Decodes(Unescape, d.members) && Decodes(Unescape, d'.members)
    ensures Texts(Unescape, d.members) == Texts(Unescape, d'.members)
  {
    hide Unescape, DocumentText, Texts, Decodes, Readable, WfMembers, IsSpace, JsonReader, Spans, SpansOf;
    ReadableDecodes(d.members);
    ReadableDecodes(d'.members);
    DocumentSpans(Unescape, d);
    DocumentSpans(Unescape, d');
    DocumentDescribes(d);
    DocumentDescribes(d');
  }

  lemma DocumentDescribes(d: Document)
    requires Decodes(Unescape, d.members)
    ensures TextsAt(DocumentText(d), SpansOf(Unescape, d.members, MembersOffset(d))) == Texts(Unescape, d.members)
  {
    hide Unescape, Texts, Decodes, SpansOf, TextsAt, MembersText;
    DocumentParts(d);
    var raw, n := DocumentText(d), MembersOffset(d);
    assert raw == d.lead + [0x7B] + (MembersText(d.members) + ([0x7D] + d.trail));
    assert raw[n..n + |MembersText(d.members)|] == MembersText(d.members);
    SpansDescribe(Unescape, d.members, raw, n);
  }

  lemma EveryDocument(raw: bytes, texts: map<bytes, bytes>, secret: bytes)
    requires Deserializes(raw, Some(texts))
    ensures forall d :: WfDocument(d) && DocumentText(d) == raw ==>
      Decodes(Unescape, d.members) && Outcome(raw, texts, secret) == TextOf(Inject(d, secret))
  {
    hide Unescape, Outcome, Inject, DocumentText, WfDocument, Decodes, Texts;
    var e :| WfDocument(e) && DocumentText(e) == raw && IsTexts(e, texts);
    forall d | WfDocument(d) && DocumentText(d) == raw
      ensures Decodes(Unescape, d.members) && Outcome(raw, texts, secret) == TextOf(Inject(d, secret))
    {
      Unambiguous(e, d);
      OutcomeOnDocument(d, secret);
    }
  }

  // ---------- what the injection means ----------

  lemma FieldIsKey()
    ensures IsBody(FIELD) && Unescape(FIELD) == Some(FIELD)
  {
    hide Replace, IsBody, Utf8.Valid;
    var field := FIELD;
    assert forall i :: 0 <= i < |field| ==> IsPlain(field[i]) && field[i] < 0x80;
    PlainKey(field);
  }

  lemma PlainKey(key: bytes)
    requires forall i :: 0 <= i < |key| ==> IsPlain(key[i]) && key[i] < 0x80
    ensures IsBody(key) && Unescape(key) == Some(key)
  {
    hide Replace, IsBody;
    UnescapePlain(key);
    Utf8.ValidAscii(key);
  }

  lemma ValidQuoted(body: bytes)
    requires Utf8.Valid(body)
    ensures Utf8.Valid(Quoted(body))
  {
    hide Utf8.Valid;
    Utf8.ValidAscii([QUOTE]);
    Utf8.ValidConcat([QUOTE], body);
    Utf8.ValidConcat([QUOTE] + body, [QUOTE]);
  }

  lemma MeaningOfQuoted(body: bytes)
    ensures Meaning(Quoted(body)) == match Unescape(body) case Some(s) => Str(s) case None => Raw(Quoted(body))
  {
    hide Unescape;
    assert Quoted(body)[1..|body| + 1] == body;
  }

  /** Decoding the string that was written gives the secret back. */
  lemma SecretWritten(secret: bytes)
    requires Utf8.Valid(secret)
    ensures IsBody(Escape(secret)) && Utf8.Valid(Quoted(Escape(secret)))
    ensures Meaning(Quoted(Escape(secret))) == Str(secret)
  {
    EscapeRoundTrip(secret);
    EscapeValid(secret);
    ValidQuoted(Escape(secret));
    MeaningOfQuoted(Escape(secret));
  }

  lemma EmptyStringMeaning(text: bytes)
    ensures Meaning(text) == Str([]) <==> text == Quoted([])
  {
    MeaningOfQuoted([]);
    UnescapeEmpty([]);
    if Meaning(text) == Str([]) { UnescapeEmpty(text[1..|text| - 1]); }
  }

  /**
   An injection changes one entry of the body and keeps the exact bytes of all
   the others, and its result is again the text of an object.
   */
  lemma InjectTexts(d: Document, secret: bytes)
    requires WfDocument(d) && Decodes(Unescape, d.members) && Utf8.Valid(secret) && Inject(d, secret).Some?
    ensures var d' := Inject(d, secret).value;
      && WfDocument(d') && Decodes(Unescape, d'.members)
      && Texts(Unescape, d'.members) == Texts(Unescape, d.members)[FIELD := Quoted(Escape(secret))]
  {
    hide Unescape, Escape, Utf8.Valid, IsBody;
    FieldIsKey();
    SecretWritten(secret);
    var v := Text(Escape(secret));
    ReplacedTexts(Unescape, d.members, FIELD, v);
    ReplacedWf(d.members, FIELD, v);
    AppendedTexts(Unescape, d.members, NewMember(secret));
    AppendedWf(d.members, NewMember(secret));
  }

  /** The body to send: the injected one, or the original when there is none. */
  function Sent(d: Document, secret: bytes): Document
    requires Decodes(Unescape, d.members)
  {
    match Inject(d, secret)
    case Some(d') => d'
    case None => d
  }

  /** The key is repeated and its last value is the empty string. */
  predicate Repeated(d: Document)
    requires Decodes(Unescape, d.members)
  {
    var texts := Texts(Unescape, d.members);
    Count(Unescape, d.members, FIELD) >= 2 && FIELD in texts && texts[FIELD] == Quoted([])
  }

  lemma MeaningsUpdated(texts: map<bytes, bytes>, key: bytes, text: bytes)
    ensures Meanings(texts[key := text]) == Meanings(texts)[key := Meaning(text)]
  {
    hide Meaning;
  }

  lemma ParsedIs(d: Document)
    requires WfDocument(d)
    ensures Decodes(Unescape, d.members) && Parsed(d) == Meanings(Texts(Unescape, d.members))
  {
    hide Unescape, Meanings, Texts, Decodes;
    ReadableDecodes(d.members);
  }

  /**
   Splicing the bytes refines inserting into the map: decoding the bytes that
   are sent gives the map with the secret inserted. This fails for one kind of
   object only, where the key is repeated and its last value is empty.
   */
  lemma SpliceRefinesInsertion(d: Document, secret: bytes)
    requires WfDocument(d) && Utf8.Valid(secret)
    ensures Decodes(Unescape, d.members) && WfDocument(Sent(d, secret))
    ensures Parsed(Sent(d, secret)) == Provisioned(Parsed(d), secret) <==> !Repeated(d) || secret == []
  {
    hide Unescape, Escape, WfDocument, Utf8.Valid, Decodes, Texts, Count, Meaning, Parsed;
    ParsedIs(d);
    var texts := Texts(Unescape, d.members);
    CountTexts(Unescape, d.members, FIELD);
    if FIELD in texts { EmptyStringMeaning(texts[FIELD]); }
    if Inject(d, secret).Some? {
      InjectTexts(d, secret);
      SecretWritten(secret);
      ParsedIs(Sent(d, secret));
      MeaningsUpdated(texts, FIELD, Quoted(Escape(secret)));
    }
  }

  /** The original bytes are sent exactly when the insertion changes nothing, or the key is repeated. */
  lemma NothingInjected(d: Document, secret: bytes)
    requires WfDocument(d) && secret != []
    ensures Decodes(Unescape, d.members)
    ensures Inject(d, secret).None? <==> Provisioned(Parsed(d), secret) == Parsed(d) || Repeated(d)
  {
    hide Unescape, WfDocument, Decodes, Texts, Count, Meaning, Parsed;
    ParsedIs(d);
    var texts := Texts(Unescape, d.members);
    CountTexts(Unescape, d.members, FIELD);
    if FIELD in texts { EmptyStringMeaning(texts[FIELD]); }
  }

  /** A request that is built again from injected bytes is not injected again. */
  lemma InjectedOnce(d: Document, secret: bytes, again: bytes)
    requires WfDocument(d) && Decodes(Unescape, d.members) && Utf8.Valid(secret) && secret != []
    requires Inject(d, secret).Some?
    ensures Decodes(Unescape, Inject(d, secret).value.members)
    ensures Inject(Inject(d, secret).value, again).None?
  {
    hide Unescape, WfDocument, Decodes, Texts, Count, Utf8.Valid;
    InjectTexts(d, secret);
    EscapedNonEmpty(secret);
  }

  lemma EscapedNonEmpty(secret: bytes)
    requires secret != []
    ensures Quoted(Escape(secret)) != Quoted([])
  {
    assert |Quoted([])| == 2;
  }

  // ---------- which bytes change ----------

  lemma {:induction false} NoMatchNoText(raw: bytes, spans: seq<Span>, field: bytes)
    requires Matching(spans, field) == []
    ensures field !in TextsAt(raw, spans)
  {
    if spans != [] { NoMatchNoText(raw, spans[1..], field); }
  }

  lemma {:induction false} OnlyMatchText(raw: bytes, spans: seq<Span>, field: bytes)
    requires |Matching(spans, field)| == 1
    requires AllWithin(Some(spans), |raw|)
    ensures var p := Matching(spans, field)[0];
      p.start <= p.end <= |raw| && field in TextsAt(raw, spans) && TextsAt(raw, spans)[field] == raw[p.start..p.end]
  {
    if spans[0].key == field {
      NoMatchNoText(raw, spans[1..], field);
    } else {
      OnlyMatchText(raw, spans[1..], field);
    }
  }

  /**
   The scanner on every object: it finds a range when exactly one member has
   the key, and the range holds the text of that member's value.
   */
  lemma ScannerExact(d: Document, field: bytes)
    requires WfDocument(d)
    ensures Decodes(Unescape, d.members)
    ensures var raw, texts := DocumentText(d), Texts(Unescape, d.members);
      var r := PickUnique(SpansIn(raw), field);
      && (r.Some? <==> Count(Unescape, d.members, field) == 1)
      && (r.Some? ==> r.value.0 <= r.value.1 <= |raw| && field in texts && raw[r.value.0..r.value.1] == texts[field])
  {
    hide Unescape, Texts, Decodes, SpansOf, TextsAt, DocumentText, JsonReader, Spans, Count, Matching, AllWithin;
    ReadableDecodes(d.members);
    DocumentSpans(Unescape, d);
    DocumentDescribes(d);
    var raw, spans := DocumentText(d), SpansOf(Unescape, d.members, MembersOffset(d));
    CountSpans(Unescape, d.members, MembersOffset(d), field);
    if |Matching(spans, field)| == 1 {
      AllSpansWithin(Unescape, raw);
      OnlyMatchText(raw, spans, field);
    }
  }

  /** `out` is `raw` around one insertion, or around one replaced empty string. */
  predicate KeepsAround(raw: bytes, out: bytes, secret: bytes, i: nat, j: nat) {
    && i <= j <= |raw|
    && (if i == j then
          || out == Spliced(raw, i, j, MemberText(NewMember(secret)))
          || out == Spliced(raw, i, j, [COMMA] + MemberText(NewMember(secret)))
        else
          raw[i..j] == Quoted([]) && out == Spliced(raw, i, j, Quoted(Escape(secret))))
  }

  lemma GrownKeeps(raw: bytes, first: bool, secret: bytes) returns (i: nat)
    requires Grown(raw, first, secret).Some?
    ensures KeepsAround(raw, Grown(raw, first, secret).value, secret, i, i)
  {
    hide MemberText, TrimmedLen;
    i := TrimmedLen(raw) - 1;
    var m := MemberText(NewMember(secret));
    assert raw[..i] + [COMMA] + m + raw[i..] == raw[..i] + ([COMMA] + m) + raw[i..];
    assert raw[..i] + [] + m + raw[i..] == raw[..i] + m + raw[i..];
  }

  /** Every byte of the request outside one place survives the injection. */
  lemma InjectKeepsBytes(d: Document, secret: bytes) returns (i: nat, j: nat)
    requires WfDocument(d) && Decodes(Unescape, d.members) && Inject(d, secret).Some?
    ensures KeepsAround(DocumentText(d), DocumentText(Inject(d, secret).value), secret, i, j)
  {
    hide Unescape, Escape, DocumentText, Inject, SpansIn, Grown, Decodes, Count, Texts, WfDocument, MemberText, PickUnique;
    OutcomeOnDocument(d, secret);
    var raw, texts := DocumentText(d), Texts(Unescape, d.members);
    if FIELD in texts {
      ScannerExact(d, FIELD);
      var range := PickUnique(SpansIn(raw), FIELD).value;
      i, j := range.0, range.1;
    } else {
      i := GrownKeeps(raw, texts == map[], secret);
      j := i;
    }
  }

  // ---------- the exception ----------

  /** `{"user_cache_secret":"","user_cache_secret":""}` */
  function TwiceEmpty(): Document {
    var m := Member([], FIELD, [], [], Text([]), []);
    Document([], MoreMembers(m, LastMember(m)), [])
  }

  /** With the key repeated the bytes go out unchanged, while the decoded body gets the secret. */
  lemma TwiceEmptyDiffers(secret: bytes)
    requires Utf8.Valid(secret) && secret != []
    ensures WfDocument(TwiceEmpty()) && Repeated(TwiceEmpty()) && Sent(TwiceEmpty(), secret) == TwiceEmpty()
    ensures Provisioned(Parsed(TwiceEmpty()), secret) != Parsed(TwiceEmpty())
  {
    hide Unescape, IsBody, Utf8.Valid, Parsed;
    FieldIsKey();
    EmptyBody();
    Utf8.ValidAscii(Quoted([]));
    var m := Member([], FIELD, [], [], Text([]), []);
    TwiceReads(m);
    assert WfDocument(TwiceEmpty());
    SpliceRefinesInsertion(TwiceEmpty(), secret);
  }

  lemma EmptyBody()
    ensures IsBody([])
  {
  }

  lemma TwiceReads(m: Member)
    requires WfMember(m) && Unescape(m.key) == Some(FIELD) && m.value == Text([]) && Utf8.Valid(ValueText(m.value))
    ensures var ms := MoreMembers(m, LastMember(m));
      && WfMembers(ms) && Readable(ms) && Decodes(Unescape, ms)
      && Count(Unescape, ms, FIELD) == 2 && FIELD in Texts(Unescape, ms) && Texts(Unescape, ms)[FIELD] == Quoted([])
  {
    hide Unescape, Utf8.Valid, WfMember;
    var last := LastMember(m);
    assert Texts(Unescape, last)[FIELD] == Quoted([]);
  }

  // ---------- spellings of the key ----------

  lemma FieldName()
    ensures FIELD == Ascii("user_cache_secret")
  {
  }

  /** The key may be spelled in any way and have any white space around it: its empty value is replaced. */
  lemma SpelledKeyInjected(lead: bytes, m: Member, trail: bytes, secret: bytes)
    requires IsSpace(lead) && WfMember(m) && IsSpace(trail)
    requires Unescape(m.key) == Some(FIELD) && m.value == Text([])
    ensures var d := Document(lead, LastMember(m), trail);
      && WfDocument(d) && Decodes(Unescape, d.members)
      && Inject(d, secret) == Some(Document(lead, LastMember(m.(value := Text(Escape(secret)))), trail))
  {
    hide Unescape, Escape, Utf8.Valid, IsSpace, WfMember;
    Utf8.ValidAscii(Quoted([]));
    assert ValueText(m.value) == Quoted([]);
  }

  const SPELLED_KEY: bytes := Ascii("user\\u005Fcache\\u005fsecret")

  lemma SpelledKeyParts()
    ensures SPELLED_KEY == Ascii("user") + (Ascii("\\u005F") + (Ascii("cache") + (Ascii("\\u005f") + Ascii("secret"))))
  {
  }

  lemma FieldParts()
    ensures var (a, b, c) := (Ascii("user"), Ascii("cache"), Ascii("secret"));
      && FIELD == a + ([0x5F] + (b + ([0x5F] + c)))
      && (forall i :: 0 <= i < |a| ==> IsPlain(a[i])) && (forall i :: 0 <= i < |b| ==> IsPlain(b[i]))
      && (forall i :: 0 <= i < |c| ==> IsPlain(c[i]))
  {
  }

  lemma SpelledKey()
    ensures Unescape(SPELLED_KEY) == Some(FIELD) && IsBody(SPELLED_KEY)
  {
    FieldIsKey();
    SpelledKeyParts();
    FieldParts();
    hide Replace, IsBody, IsPlain, Utf8.Scan, Ascii, SPELLED_KEY, FIELD;
    var a, b, c := Ascii("user"), Ascii("cache"), Ascii("secret");
    var e, f := Ascii("\\u005F"), Ascii("\\u005f");
    UnescapePlain(c);
    UnderscoreRead(f, c);
    HighBytesRead(b, f + c);
    UnderscoreRead(e, b + (f + c));
    HighBytesRead(a, e + (b + (f + c)));
    UnescapeValid(FIELD);
  }

  lemma UnescapeValid(s: bytes)
    requires Unescape(s) == Some(s)
    ensures Utf8.Valid(s)
  {
    hide Replace, Utf8.Valid;
  }

  lemma UnderscoreRead(e: bytes, rest: bytes)
    requires e == Ascii("\\u005F") || e == Ascii("\\u005f")
    ensures Replace(e + rest) == Prepend([0x5F], Replace(rest)) && IsBody(e + rest) == IsBody(rest)
  {
    hide Replace, IsBody;
    assert e[..2] == ESCAPE_U;
    var t := e[2..6];
    assert t[0] == 0x30 && t[1] == 0x30 && t[2] == 0x35 && (t[3] == 0x46 || t[3] == 0x66);
    assert SpellsHex(t, 0x5F);
    UnitRead(e, 0x5F, rest);
  }

  const SPELLED_BODY: bytes :=
    [0x09] + Ascii("{ \"") + SPELLED_KEY + Ascii("\"") + [0x0D] + Ascii(":") + [0x0A] + Ascii("\"\" }") + [0x0A]

  function SpelledResult(secret: bytes): bytes {
    [0x09] + Ascii("{ \"") + SPELLED_KEY + Ascii("\"") + [0x0D] + Ascii(":") + [0x0A] + Quoted(Escape(secret)) + Ascii(" }") + [0x0A]
  }

  lemma SpelledBodyParts(secret: bytes)
    ensures var front := [0x09] + [0x7B] + [0x20] + Quoted(SPELLED_KEY) + [0x0D] + [COLON] + [0x0A];
      && SPELLED_BODY == front + Quoted([]) + [0x20, 0x7D] + [0x0A]
      && SpelledResult(secret) == front + Quoted(Escape(secret)) + [0x20, 0x7D] + [0x0A]
  {
    BodyLiterals();
    hide Escape, Ascii, SPELLED_KEY;
    var front := [0x09] + [0x7B] + [0x20] + Quoted(SPELLED_KEY) + [0x0D] + [COLON] + [0x0A];
    assert front == [0x09] + [0x7B, 0x20, QUOTE] + SPELLED_KEY + [QUOTE] + [0x0D] + [COLON] + [0x0A];
    assert front + (Quoted([]) + [0x20, 0x7D]) + [0x0A] == front + Quoted([]) + [0x20, 0x7D] + [0x0A];
  }

  lemma BodyLiterals()
    ensures Ascii("{ \"") == [0x7B, 0x20, QUOTE] && Ascii("\"") == [QUOTE]
    ensures Ascii(":") == [COLON] && Ascii("\"\" }") == Quoted([]) + [0x20, 0x7D] && Ascii(" }") == [0x20, 0x7D]
  {
  }

  /** A concrete body with all four kinds of white space and both cases of escapes, and what becomes of it. */
  lemma SpelledBodyInjected(secret: bytes)
    ensures var d := Document([0x09], LastMember(Member([0x20], SPELLED_KEY, [0x0D], [0x0A], Text([]), [0x20])), [0x0A]);
      && DocumentText(d) == SPELLED_BODY && WfDocument(d) && Decodes(Unescape, d.members)
      && TextOf(Inject(d, secret)) == Some(SpelledResult(secret))
  {
    SpelledKey();
    EmptyBody();
    SpelledBodyParts(secret);
    hide Unescape, Escape, IsBody, SPELLED_KEY, SPELLED_BODY, SpelledResult, Inject, DocumentText, WfDocument, Quoted;
    var m := Member([0x20], SPELLED_KEY, [0x0D], [0x0A], Text([]), [0x20]);
    SpelledKeyInjected([0x09], m, [0x0A], secret);
    var front := [0x09] + [0x7B] + [0x20] + Quoted(SPELLED_KEY) + [0x0D] + [COLON] + [0x0A];
    SpelledText(front, m, Text([]));
    SpelledText(front, m, Text(Escape(secret)));
  }

  lemma SpelledText(front: bytes, m: Member, v: Value)
    requires front == [0x09] + [0x7B] + m.before + Quoted(m.key) + m.beforeColon + [COLON] + m.afterColon && m.after == [0x20]
    ensures DocumentText(Document([0x09], LastMember(m.(value := v)), [0x0A])) == front + ValueText(v) + [0x20, 0x7D] + [0x0A]
  {
    hide ValueText;
    var d := Document([0x09], LastMember(m.(value := v)), [0x0A]);
    assert DocumentText(d) == [0x09] + [0x7B] + MemberText(m.(value := v)) + [0x7D] + [0x0A];
    assert MemberText(m.(value := v)) == m.before + Quoted(m.key) + m.beforeColon + [COLON] + m.afterColon + ValueText(v) + [0x20];
  }
}
