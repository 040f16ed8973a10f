/** Signed checkpoints of a transparency log: the note, its signature lines, and their texts. */
module Checkpoints {
  import opened Bits
  import opened Common
  import opened Lines
  import opened Unicode
  import opened WhiteSpace
  import Base64
  import Decimal

  const SPACE: byte := 0x20
  const QUOTE: byte := 0x22
  const COLON_SPACE: bytes := [0x3A, 0x20]
  /** U+2014 in UTF-8. */
  const EM_DASH: bytes := [0xE2, 0x80, 0x94]

  lemma Literals()
    ensures EM_DASH == EncodeScalar(0x2014) && COLON_SPACE == Ascii(": ") && [SPACE, QUOTE] == Ascii(" \"")
  {
  }

  datatype OtherContent = KeyValue(key: bytes, value: bytes) | Line(text: bytes)

  datatype Checkpoint = Checkpoint(origin: bytes, size: nat, hash: bytes, otherContent: seq<OtherContent>)

  datatype CheckpointSignature = CheckpointSignature(keyFingerprint: bytes, raw: bytes, name: bytes)

  datatype SignedCheckpoint = SignedCheckpoint(note: Checkpoint, signatures: seq<CheckpointSignature>)

  datatype Error =
    | NoSignatureSection | NoSignatures
    | NoteFormat | EmptyOrigin | BadSize | BadHash | HashLength
    | NoEmDash | SignatureFormat | BadSignature | ShortSignature

  datatype Result<T> = Ok(value: T) | Err(error: Error)

  // ---------- the note ----------

  function Text(c: OtherContent): bytes {
    match c
    case KeyValue(k, v) => k + COLON_SPACE + v
    case Line(t) => t
  }

  function ContentText(cs: seq<OtherContent>): bytes {
    if cs == [] then [] else Text(cs[0]) + [LF] + ContentText(cs[1..])
  }

  function Marshal(n: Checkpoint): bytes {
    n.origin + [LF] + Decimal.Show(n.size) + [LF] + Base64.Encode(n.hash) + [LF] + ContentText(n.otherContent)
  }

  function ParseContent(line: bytes): OtherContent {
    match SplitOnce(line, COLON_SPACE)
    case Some((k, v)) => KeyValue(k, v)
    case None => Line(line)
  }

  function ParseContents(lines: seq<bytes>): seq<OtherContent> {
    if lines == [] then []
    else (if lines[0] == [] then [] else [ParseContent(lines[0])]) + ParseContents(lines[1..])
  }

  function Unmarshal(s: bytes): Result<Checkpoint> {
    var parts := Split(s, LF);
    if |parts| < 3 then Err(NoteFormat)
    else if Trim(parts[0]) == [] then Err(EmptyOrigin)
    else
      match Decimal.Parse(parts[1])
      case None => Err(BadSize)
      case Some(size) =>
        match Base64.Decode(parts[2])
        case None => Err(BadHash)
        case Some(hash) =>
          if |hash| != 32 then Err(HashLength) else Ok(Checkpoint(parts[0], size, hash, ParseContents(parts[3..])))
  }

  // ---------- signature lines ----------

  function EncodeSignature(sig: CheckpointSignature): bytes {
    EM_DASH + [SPACE] + sig.name + [SPACE] + Base64.Encode(sig.keyFingerprint + sig.raw) + [LF]
  }

  function TrimStartOf(s: bytes, b: byte): bytes {
    if s != [] && s[0] == b then TrimStartOf(s[1..], b) else s
  }

  function TrimEndOf(s: bytes, b: byte): bytes {
    if s != [] && s[|s| - 1] == b then TrimEndOf(s[..|s| - 1], b) else s
  }

  function TrimOf(s: bytes, b: byte): bytes {
    TrimEndOf(TrimStartOf(s, b), b)
  }

  function DecodeSignature(line: bytes): Result<CheckpointSignature> {
    var s := TrimOf(line, LF);
    if |s| < |EM_DASH| || s[..|EM_DASH|] != EM_DASH then Err(NoEmDash)
    else
      var parts := Split(s, SPACE);
      if |parts| != 3 then Err(SignatureFormat)
      else
        match Base64.Decode(TrimEnd(parts[2]))
        case None => Err(BadSignature)
        case Some(sig) =>
          if |sig| < 4 then Err(ShortSignature) else Ok(CheckpointSignature(sig[..4], sig[4..], parts[1]))
  }

  /** The signatures on the lines that are not blank; the first bad one is an error. */
  function DecodeSignatures(lines: seq<bytes>): Result<seq<CheckpointSignature>> {
    if lines == [] then Ok([])
    else if Trim(lines[0]) == [] then DecodeSignatures(lines[1..])
    else
      match DecodeSignature(lines[0])
      case Err(e) => Err(e)
      case Ok(sig) =>
        match DecodeSignatures(lines[1..])
        case Err(e) => Err(e)
        case Ok(sigs) => Ok([sig] + sigs)
  }

  // ---------- the signed checkpoint ----------

  function SignaturesText(sigs: seq<CheckpointSignature>): bytes {
    if sigs == [] then []
    else if |sigs| == 1 then EncodeSignature(sigs[0])
    else EncodeSignature(sigs[0]) + [LF] + SignaturesText(sigs[1..])
  }

  function Encode(c: SignedCheckpoint): bytes {
    Marshal(c.note) + [LF] + [LF] + SignaturesText(c.signatures)
  }

  function Decode(s: bytes): Result<SignedCheckpoint> {
    match SplitOnce(TrimOf(s, QUOTE), LF_LF)
    case None => Err(NoSignatureSection)
    case Some((note, sigs)) =>
      match DecodeSignatures(LinesOf(sigs))
      case Err(e) => Err(e)
      case Ok(signatures) =>
        if signatures == [] then Err(NoSignatures)
        else
          match Unmarshal(note)
          case Err(e) => Err(e)
          case Ok(n) => Ok(SignedCheckpoint(n, signatures))
  }

  // ---------- which values have a text of their own ----------

  predicate WellFormedContent(c: OtherContent) {
    match c
    case KeyValue(k, v) => LF !in k && LF !in v && Find(k, COLON_SPACE).None?
    case Line(t) => t != [] && LF !in t && Find(t, COLON_SPACE).None?
  }

  predicate WellFormedNote(n: Checkpoint) {
    && LF !in n.origin && Trim(n.origin) != []
    && n.size < U64_LIMIT && |n.hash| == 32
    && forall c :: c in n.otherContent ==> WellFormedContent(c)
  }

  predicate WellFormedSignature(sig: CheckpointSignature) {
    |sig.keyFingerprint| == 4 && SPACE !in sig.name && LF !in sig.name
  }

  predicate WellFormed(c: SignedCheckpoint) {
    && WellFormedNote(c.note)
    && (c.note.origin == [] || c.note.origin[0] != QUOTE)
    && c.signatures != []
    && forall sig :: sig in c.signatures ==> WellFormedSignature(sig)
  }

  // ---------- what decoding gives is well formed ----------

  lemma ParsedContent(line: bytes)
    requires line != [] && LF !in line
    ensures WellFormedContent(ParseContent(line))
  {
    hide Find;
    SplitOnceFirst(line, COLON_SPACE);
  }

  lemma {:induction false} ParsedContents(lines: seq<bytes>)
    requires forall l :: l in lines ==> LF !in l
    ensures forall c :: c in ParseContents(lines) ==> WellFormedContent(c)
  {
    if lines != [] {
      hide ParseContent, WellFormedContent;
      ParsedContents(lines[1..]);
      if lines[0] != [] { ParsedContent(lines[0]); }
    }
  }

  lemma UnmarshalledWellFormed(s: bytes)
    requires Unmarshal(s).Ok?
    ensures WellFormedNote(Unmarshal(s).value)
  {
    hide Split, ParseContents, WellFormedContent, Decimal.Parse, Base64.Decode, Trim;
    SplitPieces(s, LF);
    var parts := Split(s, LF);
    ParsedContents(parts[3..]);
  }

  lemma TrimmedKeeps(s: bytes, b: byte, c: byte)
    requires c !in s
    ensures c !in TrimOf(s, b)
  {
    TrimmedStart(s, b);
    TrimmedEnd(TrimStartOf(s, b), b);
  }

  lemma {:induction false} TrimmedStart(s: bytes, b: byte)
    ensures var t := TrimStartOf(s, b); |t| <= |s| && t == s[|s| - |t|..] && (t == [] || t[0] != b)
  {
    if s != [] && s[0] == b { TrimmedStart(s[1..], b); }
  }

  lemma {:induction false} TrimmedEnd(s: bytes, b: byte)
    ensures var t := TrimEndOf(s, b); |t| <= |s| && t == s[..|t|]
  {
    if s != [] && s[|s| - 1] == b { TrimmedEnd(s[..|s| - 1], b); }
  }

  lemma DecodedSignatureWellFormed(line: bytes)
    requires LF !in line && DecodeSignature(line).Ok?
    ensures WellFormedSignature(DecodeSignature(line).value)
  {
    hide Split, Base64.Decode, TrimOf, TrimEnd;
    TrimmedKeeps(line, LF, LF);
    var s := TrimOf(line, LF);
    SplitPieces(s, SPACE);
    PieceLacks(s, SPACE, LF, 1);
  }

  /** A piece has no byte that the whole does not have. */
  lemma {:induction false} PieceLacks(s: bytes, separator: byte, c: byte, i: nat)
    requires c !in s && i < |Split(s, separator)|
    ensures c !in Split(s, separator)[i]
    decreases i
  {
    hide Find;
    FindByte(s, separator);
    if i > 0 { PieceLacks(s[Find(s, [separator]).value + 1..], separator, c, i - 1); }
  }

  lemma {:induction false} LinesLackLf(s: bytes)
    ensures forall l :: l in LinesOf(s) ==> LF !in l
    decreases |s|
  {
    hide Find;
    FindByte(s, LF);
    if Find(s, [LF]).Some? {
      var i := Find(s, [LF]).value;
      LinesLackLf(s[i + 1..]);
    }
  }

  lemma {:induction false} DecodedSignaturesWellFormed(lines: seq<bytes>)
    requires (forall l :: l in lines ==> LF !in l) && DecodeSignatures(lines).Ok?
    ensures forall sig :: sig in DecodeSignatures(lines).value ==> WellFormedSignature(sig)
  {
    hide DecodeSignature, WellFormedSignature, Trim;
    if lines != [] {
      DecodedSignaturesWellFormed(lines[1..]);
      if Trim(lines[0]) != [] { DecodedSignatureWellFormed(lines[0]); }
    }
  }

  lemma {:induction false} OriginIsFirst(s: bytes)
    ensures Split(s, LF) != [] && Split(s, LF)[0] <= s
  {
    hide Find;
    FindByte(s, LF);
  }

  /** Decoding never gives a value that encoding could not bring back. */
  lemma DecodedWellFormed(s: bytes)
    requires Decode(s).Ok?
    ensures WellFormed(Decode(s).value)
  {
    hide LinesOf, DecodeSignatures, Unmarshal, WellFormedSignature, WellFormedNote, SplitOnce, TrimOf;
    var t := TrimOf(s, QUOTE);
    SplitOnceFirst(t, LF_LF);
    var (note, sigs) := SplitOnce(t, LF_LF).value;
    LinesLackLf(sigs);
    DecodedSignaturesWellFormed(LinesOf(sigs));
    UnmarshalledWellFormed(note);
    UnmarshalledOrigin(note);
    QuoteTrimmed(s);
  }

  lemma UnmarshalledOrigin(s: bytes)
    requires Unmarshal(s).Ok?
    ensures Unmarshal(s).value.origin <= s
  {
    hide Split, ParseContents, Decimal.Parse, Base64.Decode, Trim;
    OriginIsFirst(s);
  }

  lemma QuoteTrimmed(s: bytes)
    ensures TrimOf(s, QUOTE) == [] || TrimOf(s, QUOTE)[0] != QUOTE
  {
    TrimmedStart(s, QUOTE);
    TrimmedEnd(TrimStartOf(s, QUOTE), QUOTE);
  }

  // ---------- round trips ----------

  lemma TextOfContent(c: OtherContent)
    requires WellFormedContent(c)
    ensures Text(c) != [] && LF !in Text(c) && ParseContent(Text(c)) == c
  {
    hide Find;
    match c
    case Line(t) =>
    case KeyValue(k, v) =>
      var s := k + COLON_SPACE + v;
      FindLeftmost(k, COLON_SPACE);
      assert s[|k|..|k| + 2] == COLON_SPACE;
      forall j: nat | j < |k| ensures !Occurs(s, COLON_SPACE, j) {
        if j + 2 <= |k| {
          assert k[j..j + 2] == s[j..j + 2];
          assert !Occurs(k, COLON_SPACE, j);
        } else {
          assert s[j..j + 2][1] == s[|k|] == 0x3A;
        }
      }
      FirstOccurrence(s, COLON_SPACE, |k|);
      assert s[..|k|] == k && s[|k| + 2..] == v;
  }

  function Texts(cs: seq<OtherContent>): seq<bytes> {
    if cs == [] then [] else [Text(cs[0])] + Texts(cs[1..])
  }

  lemma OneBlank()
    ensures ParseContents([[]]) == [] && Texts([]) + [[]] == [[]]
  {
    var lines: seq<bytes> := [[]];
    assert lines[1..] == [] && ParseContents(lines[1..]) == [];
  }

  lemma {:induction false} ContentSplit(cs: seq<OtherContent>)
    requires forall c :: c in cs ==> WellFormedContent(c)
    ensures Split(ContentText(cs), LF) == Texts(cs) + [[]]
    ensures ParseContents(Texts(cs) + [[]]) == cs
  {
    hide Split, ParseContent, Text, WellFormedContent;
    if cs == [] {
      SplitWhole([], LF);
      OneBlank();
    } else {
      var rest := cs[1..];
      ContentSplit(rest);
      TextOfContent(cs[0]);
      SplitFirst(Text(cs[0]), LF, ContentText(rest));
      var lines := Texts(cs) + [[]];
      assert lines == [Text(cs[0])] + (Texts(rest) + [[]]) && lines[1..] == Texts(rest) + [[]];
      assert cs == [cs[0]] + rest;
    }
  }

  lemma MarshalSplit(n: Checkpoint)
    requires WellFormedNote(n)
    ensures Split(Marshal(n), LF) == [n.origin, Decimal.Show(n.size), Base64.Encode(n.hash)] + (Texts(n.otherContent) + [[]])
  {
    hide Split, ContentText, Texts, Trim, WellFormedContent;
    var size, hash, content := Decimal.Show(n.size), Base64.Encode(n.hash), ContentText(n.otherContent);
    Decimal.ShowParse(n.size);
    Base64.EncodeChars(n.hash);
    ContentSplit(n.otherContent);
    assert Marshal(n) == n.origin + [LF] + (size + [LF] + (hash + [LF] + content));
    SplitFirst(n.origin, LF, size + [LF] + (hash + [LF] + content));
    SplitFirst(size, LF, hash + [LF] + content);
    SplitFirst(hash, LF, content);
  }

  /** Marshalling and unmarshalling gives a note back exactly when it is well formed. */
  lemma NoteRoundTrip(n: Checkpoint)
    ensures Unmarshal(Marshal(n)) == Ok(n) <==> WellFormedNote(n)
  {
    hide Split, Trim, WellFormedContent, Marshal;
    if WellFormedNote(n) {
      MarshalSplit(n);
      Decimal.ShowParse(n.size);
      Base64.RoundTrip(n.hash);
      ContentSplit(n.otherContent);
      var parts := Split(Marshal(n), LF);
      assert parts[3..] == Texts(n.otherContent) + [[]];
    } else if Unmarshal(Marshal(n)) == Ok(n) {
      UnmarshalledWellFormed(Marshal(n));
    }
  }

  /** The message that is signed is a canonical form: reading and writing it again changes nothing more. */
  lemma SignedMessageCanonical(s: bytes)
    requires Unmarshal(s).Ok?
    ensures Unmarshal(Marshal(Unmarshal(s).value)) == Unmarshal(s)
  {
    hide Unmarshal, Marshal, WellFormedNote;
    UnmarshalledWellFormed(s);
    NoteRoundTrip(Unmarshal(s).value);
  }

  /** Two accepted notes with the same signed message are the same note. */
  lemma SignedMessageIdentifies(s: bytes, t: bytes)
    requires Unmarshal(s).Ok? && Unmarshal(t).Ok?
    ensures Marshal(Unmarshal(s).value) == Marshal(Unmarshal(t).value) ==> Unmarshal(s) == Unmarshal(t)
  {
    hide Unmarshal, Marshal;
    SignedMessageCanonical(s);
    SignedMessageCanonical(t);
  }

  // ---------- the blank line ----------

  ghost predicate NoBlankLine(s: bytes) {
    forall j: nat :: !Occurs(s, LF_LF, j)
  }

  lemma LineThenNoBlank(x: bytes, rest: bytes)
    requires x != [] && LF !in x && NoBlankLine(rest) && (rest == [] || rest[0] != LF)
    ensures NoBlankLine(x + [LF] + rest)
  {
    var s := x + [LF] + rest;
    forall j: nat ensures !Occurs(s, LF_LF, j) {
      if j + 2 <= |s| {
        assert s[j..j + 2][0] == s[j] && s[j..j + 2][1] == s[j + 1];
        if j < |x| {
          assert s[j] == x[j];
        } else if j > |x| {
          assert s[j..j + 2] == rest[j - |x| - 1..j - |x| + 1];
          assert !Occurs(rest, LF_LF, j - |x| - 1);
        } else {
          assert rest != [] ==> s[j + 1] == rest[0];
        }
      }
    }
  }

  lemma {:induction false} ContentNoBlank(cs: seq<OtherContent>)
    requires forall c :: c in cs ==> WellFormedContent(c)
    ensures var s := ContentText(cs); NoBlankLine(s) && (s == [] || s[0] != LF)
  {
    hide Text, WellFormedContent, NoBlankLine;
    if cs == [] {
      NothingNoBlank();
    } else {
      TextOfContent(cs[0]);
      ContentNoBlank(cs[1..]);
      LineThenNoBlank(Text(cs[0]), ContentText(cs[1..]));
    }
  }

  lemma NothingNoBlank()
    ensures NoBlankLine([])
  {
  }

  lemma TrimNothing()
    ensures Trim([]) == []
  {
  }

  lemma MarshalNoBlank(n: Checkpoint)
    requires WellFormedNote(n)
    ensures NoBlankLine(Marshal(n)) && n.origin != [] && Marshal(n) != [] && Marshal(n)[|Marshal(n)| - 1] == LF
  {
    hide NoBlankLine, Trim, WellFormedContent, ContentText;
    TrimNothing();
    var size, hash, content := Decimal.Show(n.size), Base64.Encode(n.hash), ContentText(n.otherContent);
    Decimal.ShowParse(n.size);
    Base64.EncodeChars(n.hash);
    ContentNoBlank(n.otherContent);
    ContentEnds(n.otherContent);
    assert Marshal(n) == n.origin + [LF] + (size + [LF] + (hash + [LF] + content));
    LineThenNoBlank(hash, content);
    LineThenNoBlank(size, hash + [LF] + content);
    LineThenNoBlank(n.origin, size + [LF] + (hash + [LF] + content));
  }

  lemma {:induction false} ContentEnds(cs: seq<OtherContent>)
    ensures ContentText(cs) == [] || ContentText(cs)[|ContentText(cs)| - 1] == LF
  {
    if cs != [] { ContentEnds(cs[1..]); }
  }

  /** The note of an encoded checkpoint ends at the first blank line. */
  lemma NoteFound(m: bytes, rest: bytes)
    requires NoBlankLine(m) && m != [] && m[|m| - 1] == LF
    ensures SplitOnce(m + [LF] + rest, LF_LF) == Some((m[..|m| - 1], rest))
  {
    hide Find;
    var s, i := m + [LF] + rest, |m| - 1;
    assert s[i..i + 2] == LF_LF;
    forall j: nat | j < i ensures !Occurs(s, LF_LF, j) {
      assert s[j..j + 2] == m[j..j + 2];
      assert !Occurs(m, LF_LF, j);
    }
    FirstOccurrence(s, LF_LF, i);
    assert s[..i] == m[..i] && s[i + 2..] == rest;
  }

  lemma {:induction false} SplitLast(s: bytes, b: byte)
    ensures Split(s + [b], b) == Split(s, b) + [[]]
    decreases |s|
  {
    hide Find;
    FindByte(s, b);
    SplitPieces([], b);
    SplitWhole([], b);
    match Find(s, [b])
    case None =>
      assert s + [b] + [] == s + [b];
      SplitFirst(s, b, []);
    case Some(i) =>
      var t := s[i + 1..];
      SplitLast(t, b);
      assert s + [b] == s[..i] + [b] + (t + [b]);
      SplitFirst(s[..i], b, t + [b]);
  }

  lemma {:induction false} BlankIgnored(lines: seq<bytes>)
    ensures ParseContents(lines + [[]]) == ParseContents(lines)
  {
    hide ParseContent;
    if lines == [] {
      OneBlank();
      assert lines + [[]] == [[]];
    } else {
      BlankIgnored(lines[1..]);
      assert (lines + [[]])[1..] == lines[1..] + [[]];
    }
  }

  /** The end of the last line makes no difference to the note. */
  lemma UnmarshalWithoutEnd(s: bytes)
    requires Unmarshal(s + [LF]).Ok?
    ensures Unmarshal(s) == Unmarshal(s + [LF])
  {
    hide Split, ParseContents, Trim, Decimal.Parse;
    SplitLast(s, LF);
    var parts := Split(s, LF);
    if |parts| >= 3 {
      assert (parts + [[]])[3..] == parts[3..] + [[]];
      BlankIgnored(parts[3..]);
    }
  }

  // ---------- the signature lines ----------

  function SignatureLine(sig: CheckpointSignature): bytes {
    EM_DASH + [SPACE] + sig.name + [SPACE] + Base64.Encode(sig.keyFingerprint + sig.raw)
  }

  lemma SignatureCode(sig: CheckpointSignature)
    requires WellFormedSignature(sig)
    ensures var code := Base64.Encode(sig.keyFingerprint + sig.raw);
      code != [] && SPACE !in code && LF !in code && IsVisible(code[|code| - 1])
  {
    hide Base64.Encode;
    var code := Base64.Encode(sig.keyFingerprint + sig.raw);
    Base64.EncodeChars(sig.keyFingerprint + sig.raw);
  }

  lemma LineStays(line: bytes)
    requires line != [] && line[0] != LF && line[|line| - 1] != LF
    ensures TrimOf(line, LF) == line
  {
  }

  lemma DashStays(line: bytes)
    requires |line| >= 4 && line[..3] == EM_DASH && IsVisible(line[|line| - 1])
    ensures Trim(line) == line
  {
    hide WhiteEnd;
    PlainEnd(line);
    assert line[..3][0] == line[0] && line[..3][1] == line[1] && line[..3][2] == line[2];
    assert WhiteLen(line) == 0;
  }

  lemma LineShape(sig: CheckpointSignature)
    requires WellFormedSignature(sig)
    ensures var line := SignatureLine(sig);
      && |line| >= 4 && line[..3] == EM_DASH && IsVisible(line[|line| - 1]) && LF !in line
      && Trim(line) == line && TrimOf(line, LF) == line && WithoutCr(line) == line
  {
    hide Base64.Encode, Trim, TrimOf;
    SignatureCode(sig);
    DashStays(SignatureLine(sig));
    LineStays(SignatureLine(sig));
  }

  lemma SignatureRoundTrip(sig: CheckpointSignature)
    requires WellFormedSignature(sig)
    ensures DecodeSignature(SignatureLine(sig)) == Ok(sig)
  {
    hide Base64.Encode, Base64.Decode, Trim, TrimOf, TrimEnd, Split;
    LineShape(sig);
    SignatureCode(sig);
    var whole := sig.keyFingerprint + sig.raw;
    var code := Base64.Encode(whole);
    Base64.RoundTrip(whole);
    PlainEnd(code);
    assert SignatureLine(sig) == EM_DASH + [SPACE] + (sig.name + [SPACE] + code);
    SplitFirst(EM_DASH, SPACE, sig.name + [SPACE] + code);
    SplitFirst(sig.name, SPACE, code);
    SplitWhole(code, SPACE);
    assert whole[..4] == sig.keyFingerprint && whole[4..] == sig.raw;
  }

  lemma DecodeFirst(line: bytes, rest: seq<bytes>)
    ensures Trim(line) == [] ==> DecodeSignatures([line] + rest) == DecodeSignatures(rest)
    ensures Trim(line) != [] && DecodeSignature(line).Ok? && DecodeSignatures(rest).Ok? ==>
      DecodeSignatures([line] + rest) == Ok([DecodeSignature(line).value] + DecodeSignatures(rest).value)
  {
    hide Trim, DecodeSignature;
    assert ([line] + rest)[1..] == rest;
  }

  lemma {:induction false} SignaturesRoundTrip(sigs: seq<CheckpointSignature>)
    requires sigs != [] && forall sig :: sig in sigs ==> WellFormedSignature(sig)
    ensures DecodeSignatures(LinesOf(SignaturesText(sigs))) == Ok(sigs)
    ensures SignaturesText(sigs) != [] && SignaturesText(sigs)[|SignaturesText(sigs)| - 1] == LF
    decreases |sigs|
  {
    hide LinesOf, DecodeSignatures, DecodeSignature, WellFormedSignature, Trim, TrimOf, Base64.Encode;
    var line := SignatureLine(sigs[0]);
    LineShape(sigs[0]);
    SignatureRoundTrip(sigs[0]);
    assert EncodeSignature(sigs[0]) == line + [LF];
    if |sigs| == 1 {
      NoLinesNoSignatures();
      assert line + [LF] + [] == line + [LF];
      LinesFirst(line, []);
      DecodeFirst(line, LinesOf([]));
      assert sigs == [sigs[0]] + [];
    } else {
      var rest := SignaturesText(sigs[1..]);
      SignaturesRoundTrip(sigs[1..]);
      var lines := LinesOf(rest);
      assert line + [LF] + [LF] + rest == line + [LF] + ([] + [LF] + rest);
      LinesFirst(line, [] + [LF] + rest);
      LinesFirst([], rest);
      TrimNothing();
      DecodeFirst([], lines);
      DecodeFirst(line, [[]] + lines);
      assert sigs == [sigs[0]] + sigs[1..];
    }
  }

  lemma NoLinesNoSignatures()
    ensures LinesOf([]) == [] && DecodeSignatures([]) == Ok([])
  {
  }

  // ---------- the whole text ----------

  lemma QuotesKept(s: bytes)
    requires s != [] && s[0] != QUOTE && s[|s| - 1] != QUOTE
    ensures TrimOf(s, QUOTE) == s
  {
  }

  lemma EncodedParts(c: SignedCheckpoint)
    requires WellFormed(c)
    ensures var m, sigs := Marshal(c.note), [LF] + SignaturesText(c.signatures);
      SplitOnce(TrimOf(Encode(c), QUOTE), LF_LF) == Some((m[..|m| - 1], sigs))
  {
    hide Marshal, SignaturesText, TrimOf, SplitOnce, DecodeSignatures, LinesOf;
    hide WellFormedNote, WellFormedSignature, NoBlankLine;
    MarshalNoBlank(c.note);
    SignaturesRoundTrip(c.signatures);
    MarshalStarts(c.note);
    var m := Marshal(c.note);
    QuotesKept(Encode(c));
    assert Encode(c) == m + [LF] + ([LF] + SignaturesText(c.signatures));
    NoteFound(m, [LF] + SignaturesText(c.signatures));
  }

  lemma MarshalStarts(n: Checkpoint)
    requires n.origin != []
    ensures Marshal(n) != [] && Marshal(n)[0] == n.origin[0]
  {
  }

  lemma EncodedDecodes(c: SignedCheckpoint)
    requires WellFormed(c)
    ensures Decode(Encode(c)) == Ok(c)
  {
    hide Marshal, Unmarshal, Encode, SignaturesText, TrimOf, SplitOnce, LinesOf, DecodeSignatures;
    hide WellFormedNote, WellFormedSignature, NoBlankLine;
    EncodedParts(c);
    var m, sigs := Marshal(c.note), SignaturesText(c.signatures);
    MarshalNoBlank(c.note);
    NoteRoundTrip(c.note);
    assert m[..|m| - 1] + [LF] == m;
    UnmarshalWithoutEnd(m[..|m| - 1]);
    SignaturesRoundTrip(c.signatures);
    assert [] + [LF] + sigs == [LF] + sigs;
    LinesFirst([], sigs);
    TrimNothing();
    DecodeFirst([], LinesOf(sigs));
  }

  /** Decoding undoes encoding exactly for the well-formed signed checkpoints. */
  lemma CheckpointRoundTrip(c: SignedCheckpoint)
    ensures Decode(Encode(c)) == Ok(c) <==> WellFormed(c)
  {
    hide Encode, Decode, WellFormed;
    if WellFormed(c) {
      EncodedDecodes(c);
    } else if Decode(Encode(c)) == Ok(c) {
      DecodedWellFormed(Encode(c));
    }
  }

  // ---------- reading any signed note ----------

  /** A line of the signature section: blank, or a signature with white space behind it. */
  datatype SectionLine = Blank(space: seq<scalar>) | Signed(sig: CheckpointSignature, space: seq<scalar>)

  function LineBytes(l: SectionLine): bytes {
    match l
    case Blank(w) => EncodeAll(w)
    case Signed(sig, w) => SignatureLine(sig) + EncodeAll(w)
  }

  /** White space on one line; behind a signature it must not start another part. */
  predicate OneLine(l: SectionLine) {
    && AllWhite(l.space) && LF !in EncodeAll(l.space)
    && (l.Signed? ==> WellFormedSignature(l.sig) && SPACE !in EncodeAll(l.space))
  }

  function SectionText(ls: seq<SectionLine>): bytes {
    if ls == [] then [] else LineBytes(ls[0]) + [LF] + SectionText(ls[1..])
  }

  function SignaturesIn(ls: seq<SectionLine>): seq<CheckpointSignature> {
    if ls == [] then []
    else (if ls[0].Signed? then [ls[0].sig] else []) + SignaturesIn(ls[1..])
  }

  /** Cutting a carriage return off the white space behind a text leaves white space. */
  lemma CrCut(x: bytes, w: seq<scalar>) returns (v: seq<scalar>)
    requires AllWhite(w) && (x == [] || x[|x| - 1] != CR)
    ensures AllWhite(v) && WithoutCr(x + EncodeAll(w)) == x + EncodeAll(v) && EncodeAll(v) <= EncodeAll(w)
  {
    NothingEncoded();
    hide EncodeScalar, EncodeAll;
    v := w;
    if w == [] {
      assert x + EncodeAll(w) == x;
    } else {
      var front, c := w[..|w| - 1], w[|w| - 1];
      assert w == front + [c];
      EncodeLast(front, c);
      LastIsCr(c);
      var e, s := EncodeScalar(c), x + EncodeAll(w);
      assert s == (x + EncodeAll(front)) + e;
      assert s[|s| - 1] == e[|e| - 1];
      if e[|e| - 1] == CR {
        v := front;
        assert s[..|s| - 1] == x + EncodeAll(front);
      }
    }
  }

  lemma LastIsCr(c: scalar)
    ensures var e := EncodeScalar(c); e[|e| - 1] == CR ==> e == [CR]
  {
  }

  /** A signature line with white space behind it decodes to its signature. */
  lemma SignedLineRead(sig: CheckpointSignature, w: seq<scalar>)
    requires WellFormedSignature(sig) && AllWhite(w) && LF !in EncodeAll(w) && SPACE !in EncodeAll(w)
    ensures DecodeSignature(SignatureLine(sig) + EncodeAll(w)) == Ok(sig)
    ensures Trim(SignatureLine(sig) + EncodeAll(w)) != []
  {
    hide Base64.Encode, Base64.Decode, TrimOf, TrimStart, TrimEnd, Split, EncodeAll;
    LineShape(sig);
    SignatureCode(sig);
    var whole := sig.keyFingerprint + sig.raw;
    var code := Base64.Encode(whole);
    var tail, line := code + EncodeAll(w), SignatureLine(sig) + EncodeAll(w);
    Base64.RoundTrip(whole);
    PlainEnd(code);
    TrimEndOver(code, w);
    NoLfStays(line);
    assert line == EM_DASH + [SPACE] + (sig.name + [SPACE] + tail);
    SplitFirst(EM_DASH, SPACE, sig.name + [SPACE] + tail);
    SplitFirst(sig.name, SPACE, tail);
    SplitWhole(tail, SPACE);
    assert whole[..4] == sig.keyFingerprint && whole[4..] == sig.raw;
    assert line[..3] == EM_DASH;
    DashVisible(line);
    DashVisible(SignatureLine(sig));
    TrimEndOver(SignatureLine(sig), w);
  }

  lemma DashVisible(line: bytes)
    requires |line| >= 3 && line[..3] == EM_DASH
    ensures TrimStart(line) == line
  {
    assert line[..3][0] == line[0] && line[..3][1] == line[1] && line[..3][2] == line[2];
    assert WhiteLen(line) == 0;
  }

  lemma NoLfStays(s: bytes)
    requires LF !in s
    ensures TrimOf(s, LF) == s
  {
    TrimOne(s, LF);
    TrimOneEnd(s, LF);
  }

  lemma TrimOne(s: bytes, b: byte)
    requires b !in s
    ensures TrimStartOf(s, b) == s
  {
  }

  lemma TrimOneEnd(s: bytes, b: byte)
    requires b !in s
    ensures TrimEndOf(s, b) == s
  {
  }

  lemma SectionLineRead(l: SectionLine, rest: seq<bytes>)
    requires OneLine(l)
    ensures LF !in LineBytes(l)
    ensures DecodeSignatures(rest).Ok? ==>
      DecodeSignatures([WithoutCr(LineBytes(l))] + rest) == Ok(SignaturesIn([l]) + DecodeSignatures(rest).value)
  {
    hide DecodeSignature, DecodeSignatures, Trim, EncodeAll, WithoutCr, WellFormedSignature, SignatureLine;
    assert [l][1..] == [];
    match l
    case Blank(w) =>
      var v := CrCut([], w);
      assert [] + EncodeAll(w) == EncodeAll(w) && [] + EncodeAll(v) == EncodeAll(v);
      BlankTrimmed(v);
      DecodeFirst(EncodeAll(v), rest);
      if DecodeSignatures(rest).Ok? { assert SignaturesIn([l]) + DecodeSignatures(rest).value == DecodeSignatures(rest).value; }
    case Signed(sig, w) =>
      LineShape(sig);
      VisibleLast(SignatureLine(sig));
      var v := CrCut(SignatureLine(sig), w);
      SignedLineRead(sig, v);
      DecodeFirst(SignatureLine(sig) + EncodeAll(v), rest);
      assert SignaturesIn([l]) == [sig];
  }

  lemma VisibleLast(s: bytes)
    requires s != [] && IsVisible(s[|s| - 1])
    ensures s[|s| - 1] != CR
  {
  }

  /** The signatures of a section, wherever its blank lines are. */
  lemma {:induction false} SectionRead(ls: seq<SectionLine>)
    requires forall i :: 0 <= i < |ls| ==> OneLine(ls[i])
    ensures DecodeSignatures(LinesOf(SectionText(ls))) == Ok(SignaturesIn(ls))
  {
    hide LinesOf, DecodeSignatures, LineBytes, OneLine;
    NoLinesNoSignatures();
    if ls != [] {
      var rest := SectionText(ls[1..]);
      SectionRead(ls[1..]);
      SectionLineRead(ls[0], LinesOf(rest));
      LinesFirst(LineBytes(ls[0]), rest);
      FirstSignature(ls);
    }
  }

  lemma FirstSignature(ls: seq<SectionLine>)
    requires ls != []
    ensures SignaturesIn(ls) == SignaturesIn([ls[0]]) + SignaturesIn(ls[1..])
  {
    assert [ls[0]][1..] == [];
  }

  function Quotes(k: nat): bytes {
    if k == 0 then [] else [QUOTE] + Quotes(k - 1)
  }

  lemma {:induction false} QuotesInFront(k: nat, s: bytes)
    ensures TrimStartOf(Quotes(k) + s, QUOTE) == TrimStartOf(s, QUOTE)
  {
    hide TrimStartOf;
    if k == 0 {
      assert Quotes(k) + s == s;
    } else {
      QuotesInFront(k - 1, s);
      assert Quotes(k) + s == [QUOTE] + (Quotes(k - 1) + s);
      TrimFirst(QUOTE, Quotes(k - 1) + s);
    }
  }

  lemma TrimFirst(b: byte, s: bytes)
    ensures TrimStartOf([b] + s, b) == TrimStartOf(s, b)
    ensures TrimEndOf(s + [b], b) == TrimEndOf(s, b)
  {
    assert ([b] + s)[1..] == s && (s + [b])[..|s|] == s;
  }

  lemma {:induction false} QuotesBehind(k: nat, s: bytes)
    ensures TrimEndOf(s + Quotes(k), QUOTE) == TrimEndOf(s, QUOTE)
  {
    hide TrimEndOf;
    if k == 0 {
      assert s + Quotes(k) == s;
    } else {
      QuotesBehind(k - 1, s);
      QuotesLast(k - 1);
      assert s + Quotes(k) == s + Quotes(k - 1) + [QUOTE];
      TrimFirst(QUOTE, s + Quotes(k - 1));
    }
  }

  lemma {:induction false} QuotesLast(k: nat)
    ensures Quotes(k + 1) == Quotes(k) + [QUOTE]
  {
    if k > 0 { QuotesLast(k - 1); }
  }

  lemma QuotesAround(j: nat, s: bytes, k: nat)
    requires s != [] && s[0] != QUOTE && s[|s| - 1] != QUOTE
    ensures TrimOf(Quotes(j) + s + Quotes(k), QUOTE) == s
  {
    hide Quotes, TrimStartOf, TrimEndOf;
    assert Quotes(j) + s + Quotes(k) == Quotes(j) + (s + Quotes(k));
    QuotesInFront(j, s + Quotes(k));
    assert (s + Quotes(k))[0] == s[0];
    NothingTrimmed(s + Quotes(k), QUOTE);
    QuotesBehind(k, s);
    NothingTrimmed(s, QUOTE);
  }

  lemma NothingTrimmed(s: bytes, b: byte)
    requires s != []
    ensures s[0] != b ==> TrimStartOf(s, b) == s
    ensures s[|s| - 1] != b ==> TrimEndOf(s, b) == s
  {
  }

  /** The note, a blank line and the signature section, with any quotes around. */
  function Envelope(j: nat, n: Checkpoint, ls: seq<SectionLine>, k: nat): bytes {
    Quotes(j) + (Marshal(n) + [LF] + SectionText(ls)) + Quotes(k)
  }

  /**
   A signed note is read as its note and all its signatures in order: directly
   behind the blank line, one behind the other or with blank lines between them.
   */
  lemma EnvelopeRead(j: nat, n: Checkpoint, ls: seq<SectionLine>, k: nat)
    requires WellFormedNote(n) && n.origin[..1] != [QUOTE] && forall i :: 0 <= i < |ls| ==> OneLine(ls[i])
    ensures Decode(Envelope(j, n, ls, k)) ==
      if SignaturesIn(ls) == [] then Err(NoSignatures) else Ok(SignedCheckpoint(n, SignaturesIn(ls)))
  {
    hide Marshal, Unmarshal, SectionText, TrimOf, SplitOnce, LinesOf, DecodeSignatures, OneLine, WellFormedNote, NoBlankLine;
    hide Quotes, SignaturesIn;
    var m, section := Marshal(n), SectionText(ls);
    MarshalNoBlank(n);
    MarshalStarts(n);
    SectionEnds(ls);
    var s := m + [LF] + section;
    assert s[|s| - 1] == LF by { if section != [] { assert s[|s| - 1] == section[|section| - 1]; } }
    assert n.origin[..1] == [n.origin[0]];
    QuotesAround(j, s, k);
    NoteFound(m, section);
    SectionRead(ls);
    NoteRoundTrip(n);
    assert m[..|m| - 1] + [LF] == m;
    UnmarshalWithoutEnd(m[..|m| - 1]);
  }

  lemma {:induction false} SectionEnds(ls: seq<SectionLine>)
    ensures var s := SectionText(ls); s == [] || s[|s| - 1] == LF
  {
    if ls != [] { SectionEnds(ls[1..]); }
  }

  // ---------- exactly what is accepted ----------

  function NonBlank(lines: seq<bytes>): seq<bytes> {
    if lines == [] then [] else (if Trim(lines[0]) == [] then [] else [lines[0]]) + NonBlank(lines[1..])
  }

  /** One signature for each line, in order. */
  predicate AreSignatures(lines: seq<bytes>, sigs: seq<CheckpointSignature>) {
    |lines| == |sigs| && forall i :: 0 <= i < |sigs| ==> DecodeSignature(lines[i]) == Ok(sigs[i])
  }

  lemma AreSignaturesFirst(line: bytes, lines: seq<bytes>, sigs: seq<CheckpointSignature>)
    ensures AreSignatures([line] + lines, sigs) <==>
      sigs != [] && DecodeSignature(line) == Ok(sigs[0]) && AreSignatures(lines, sigs[1..])
  {
    hide DecodeSignature;
    var all := [line] + lines;
    if AreSignatures(all, sigs) {
      assert all[0] == line;
      forall i | 0 <= i < |sigs| - 1 ensures DecodeSignature(lines[i]) == Ok(sigs[1..][i]) { assert all[i + 1] == lines[i]; }
    }
    if sigs != [] && DecodeSignature(line) == Ok(sigs[0]) && AreSignatures(lines, sigs[1..]) {
      forall i | 0 <= i < |sigs| ensures DecodeSignature(all[i]) == Ok(sigs[i]) {
        if i > 0 { assert all[i] == lines[i - 1] && sigs[i] == sigs[1..][i - 1]; }
      }
    }
  }

  lemma {:induction false} SignaturesExact(lines: seq<bytes>, sigs: seq<CheckpointSignature>)
    ensures DecodeSignatures(lines) == Ok(sigs) <==> AreSignatures(NonBlank(lines), sigs)
    decreases |lines|
  {
    hide Trim, DecodeSignature, AreSignatures;
    if lines == [] {
      NoSignaturesThere(sigs);
    } else if Trim(lines[0]) == [] {
      SignaturesExact(lines[1..], sigs);
      assert [] + NonBlank(lines[1..]) == NonBlank(lines[1..]);
    } else {
      AreSignaturesFirst(lines[0], NonBlank(lines[1..]), sigs);
      if sigs != [] {
        SignaturesExact(lines[1..], sigs[1..]);
        assert sigs == [sigs[0]] + sigs[1..];
      }
      if DecodeSignatures(lines) == Ok(sigs) {
        assert sigs[1..] == DecodeSignatures(lines[1..]).value;
      }
    }
  }

  lemma NoSignaturesThere(sigs: seq<CheckpointSignature>)
    ensures AreSignatures([], sigs) <==> sigs == []
  {
  }

  /** The quotes around a text are taken off, and the rest falls apart at its first blank line. */
  ghost predicate FallsApart(s: bytes, note: bytes, section: bytes) {
    exists j, k, t: bytes ::
      && s == Quotes(j) + t + Quotes(k) && (t == [] || (t[0] != QUOTE && t[|t| - 1] != QUOTE))
      && t == note + LF_LF + section && Find(note + [LF], LF_LF).None?
  }

  lemma {:induction false} QuotesTaken(s: bytes) returns (k: nat)
    ensures s == Quotes(k) + TrimStartOf(s, QUOTE)
  {
    if s != [] && s[0] == QUOTE {
      k := QuotesTaken(s[1..]);
      k := k + 1;
      assert s == [QUOTE] + s[1..];
    } else {
      k := 0;
      assert s == Quotes(0) + s;
    }
  }

  lemma {:induction false} QuotesTakenEnd(s: bytes) returns (k: nat)
    ensures s == TrimEndOf(s, QUOTE) + Quotes(k)
    ensures TrimEndOf(s, QUOTE) == [] || TrimEndOf(s, QUOTE)[|TrimEndOf(s, QUOTE)| - 1] != QUOTE
  {
    if s != [] && s[|s| - 1] == QUOTE {
      k := QuotesTakenEnd(s[..|s| - 1]);
      QuotesLast(k);
      k := k + 1;
      assert s == s[..|s| - 1] + [QUOTE];
    } else {
      k := 0;
      assert s == s + Quotes(0);
    }
  }

  lemma QuotesOff(s: bytes) returns (j: nat, k: nat)
    ensures var t := TrimOf(s, QUOTE); s == Quotes(j) + t + Quotes(k) && (t == [] || (t[0] != QUOTE && t[|t| - 1] != QUOTE))
  {
    hide Quotes;
    j := QuotesTaken(s);
    k := QuotesTakenEnd(TrimStartOf(s, QUOTE));
    TrimmedStart(s, QUOTE);
    TrimmedEnd(TrimStartOf(s, QUOTE), QUOTE);
    var t := TrimOf(s, QUOTE);
    assert s == Quotes(j) + (t + Quotes(k));
  }

  /** The split at the first blank line: none overlaps its line feeds. */
  lemma SplitBlank(t: bytes, note: bytes, section: bytes)
    ensures SplitOnce(t, LF_LF) == Some((note, section)) <==>
      t == note + LF_LF + section && Find(note + [LF], LF_LF).None?
  {
    hide Find;
    if SplitOnce(t, LF_LF) == Some((note, section)) {
      SplitOnceFirst(t, LF_LF);
      FindLeftmost(t, LF_LF);
      FindLeftmost(note + [LF], LF_LF);
      var o := Find(note + [LF], LF_LF);
      if o.Some? { OccursEarlier(note, section, o.value); }
    }
    if t == note + LF_LF + section && Find(note + [LF], LF_LF).None? {
      FindLeftmost(note + [LF], LF_LF);
      assert t[|note|..|note| + 2] == LF_LF;
      forall j: nat | j < |note| ensures !Occurs(t, LF_LF, j) { OccursEarlier(note, section, j); }
      FirstOccurrence(t, LF_LF, |note|);
      assert t[..|note|] == note && t[|note| + 2..] == section;
    }
  }

  lemma OccursEarlier(note: bytes, section: bytes, j: nat)
    ensures j < |note| ==> (Occurs(note + [LF], LF_LF, j) <==> Occurs(note + LF_LF + section, LF_LF, j))
    ensures Occurs(note + [LF], LF_LF, j) ==> j < |note|
  {
    if j < |note| { assert (note + [LF])[j..j + 2] == (note + LF_LF + section)[j..j + 2]; }
  }

  /** What `Decode` finds in front of and behind the first blank line. */
  lemma FallsApartExact(s: bytes, note: bytes, section: bytes)
    ensures SplitOnce(TrimOf(s, QUOTE), LF_LF) == Some((note, section)) <==> FallsApart(s, note, section)
  {
    hide SplitOnce, Find, Quotes, TrimOf;
    var j, k := QuotesOff(s);
    SplitBlank(TrimOf(s, QUOTE), note, section);
    if FallsApart(s, note, section) {
      var j', k', t: bytes :|
        && s == Quotes(j') + t + Quotes(k') && (t == [] || (t[0] != QUOTE && t[|t| - 1] != QUOTE))
        && t == note + LF_LF + section && Find(note + [LF], LF_LF).None?;
      assert t[|note|] == LF;
      QuotesAround(j', t, k');
    }
  }

  /**
   Exactly these texts are accepted: quotes off, a note in front of the first
   blank line, and behind it at least one line that is not blank, all of them
   signatures. What is decoded is that note and those signatures in order.
   */
  lemma DecodeExact(s: bytes, c: SignedCheckpoint)
    ensures Decode(s) == Ok(c) <==> exists note, section ::
      && FallsApart(s, note, section) && Unmarshal(note) == Ok(c.note)
      && c.signatures != [] && AreSignatures(NonBlank(LinesOf(section)), c.signatures)
  {
    hide LinesOf, Unmarshal, SplitOnce, TrimOf, FallsApart, DecodeSignatures, NonBlank, AreSignatures;
    var o := SplitOnce(TrimOf(s, QUOTE), LF_LF);
    if o.Some? {
      FallsApartExact(s, o.value.0, o.value.1);
      SignaturesExact(LinesOf(o.value.1), c.signatures);
    }
    forall note, section | FallsApart(s, note, section) ensures o == Some((note, section)) {
      FallsApartExact(s, note, section);
    }
  }

  // ---------- exactly which notes ----------

  function NonEmpty(lines: seq<bytes>): seq<bytes> {
    if lines == [] then [] else (if lines[0] == [] then [] else [lines[0]]) + NonEmpty(lines[1..])
  }

  /** The contents are those of the lines that are not empty, in order; their texts are the lines. */
  predicate AreContents(lines: seq<bytes>, cs: seq<OtherContent>) {
    |lines| == |cs| && forall i :: 0 <= i < |cs| ==> WellFormedContent(cs[i]) && Text(cs[i]) == lines[i]
  }

  lemma ContentExact(line: bytes, c: OtherContent)
    requires line != [] && LF !in line
    ensures ParseContent(line) == c <==> WellFormedContent(c) && Text(c) == line
  {
    hide Find;
    ParsedContent(line);
    SplitOnceFirst(line, COLON_SPACE);
    if WellFormedContent(c) { TextOfContent(c); }
  }

  lemma {:induction false} ContentsExact(lines: seq<bytes>, cs: seq<OtherContent>)
    requires forall l :: l in lines ==> LF !in l
    ensures ParseContents(lines) == cs <==> AreContents(NonEmpty(lines), cs)
    decreases |lines|
  {
    hide ParseContent, WellFormedContent, Text;
    if lines != [] {
      hide AreContents;
      if lines[0] == [] {
        ContentsExact(lines[1..], cs);
        assert [] + NonEmpty(lines[1..]) == NonEmpty(lines[1..]);
        assert [] + ParseContents(lines[1..]) == ParseContents(lines[1..]);
      } else {
        AreContentsFirst(lines[0], NonEmpty(lines[1..]), cs);
        if cs != [] {
          ContentsExact(lines[1..], cs[1..]);
          ContentExact(lines[0], cs[0]);
          assert cs == [cs[0]] + cs[1..];
        }
      }
    }
  }

  lemma AreContentsFirst(line: bytes, lines: seq<bytes>, cs: seq<OtherContent>)
    ensures AreContents([line] + lines, cs) <==>
      cs != [] && WellFormedContent(cs[0]) && Text(cs[0]) == line && AreContents(lines, cs[1..])
  {
    hide WellFormedContent, Text;
    var all := [line] + lines;
    if AreContents(all, cs) {
      assert all[0] == line;
      forall i | 0 <= i < |cs| - 1 ensures WellFormedContent(cs[1..][i]) && Text(cs[1..][i]) == lines[i] {
        assert all[i + 1] == lines[i];
      }
    }
    if cs != [] && WellFormedContent(cs[0]) && Text(cs[0]) == line && AreContents(lines, cs[1..]) {
      forall i | 0 <= i < |cs| ensures WellFormedContent(cs[i]) && Text(cs[i]) == all[i] {
        if i > 0 { assert all[i] == lines[i - 1] && cs[i] == cs[1..][i - 1]; }
      }
    }
  }

  /** The lines of a note: origin, size, hash, and the other contents between any empty lines. */
  ghost predicate NoteLines(lines: seq<bytes>, n: Checkpoint) {
    && |lines| >= 3 && (forall l :: l in lines ==> LF !in l)
    && lines[0] == n.origin && Trim(n.origin) != []
    && Decimal.Parse(lines[1]) == Some(n.size)
    && lines[2] == Base64.Encode(n.hash) && |n.hash| == 32
    && AreContents(NonEmpty(lines[3..]), n.otherContent)
  }

  /** Exactly these texts are notes. */
  lemma UnmarshalExact(s: bytes, n: Checkpoint)
    ensures Unmarshal(s) == Ok(n) <==> exists lines :: s == Lines.Join(lines, LF) && NoteLines(lines, n)
  {
    hide Split, Lines.Join, Trim, Base64.Encode, Base64.Decode, Decimal.Parse, ParseContents, AreContents;
    SplitPieces(s, LF);
    var parts := Split(s, LF);
    if |parts| >= 3 { NoteOfLines(parts, s, n); }
    if exists lines :: s == Lines.Join(lines, LF) && NoteLines(lines, n) {
      var lines :| s == Lines.Join(lines, LF) && NoteLines(lines, n);
      SplitJoin(lines, LF);
      NoteOfLines(lines, s, n);
    }
  }

  lemma NoteOfLines(lines: seq<bytes>, s: bytes, n: Checkpoint)
    requires lines == Split(s, LF) && |lines| >= 3 && forall l :: l in lines ==> LF !in l
    ensures Unmarshal(s) == Ok(n) <==> NoteLines(lines, n)
  {
    hide Split, Trim, Base64.Encode, Base64.Decode, Decimal.Parse, ParseContents, AreContents;
    ContentsExact(lines[3..], n.otherContent);
    Base64.RoundTrip(n.hash);
    if Base64.Decode(lines[2]) == Some(n.hash) { Base64.Canonical(lines[2]); }
  }

  // ---------- exactly which signature lines ----------

  /** The dash, anything up to a space, the name, and the code with white space behind it. */
  ghost predicate SignsAs(line: bytes, sig: CheckpointSignature, junk: bytes, w: seq<scalar>) {
    && AllWhite(w) && SPACE !in junk && SPACE !in sig.name && SPACE !in EncodeAll(w) && |sig.keyFingerprint| == 4
    && line == EM_DASH + junk + [SPACE] + sig.name + [SPACE] + Base64.Encode(sig.keyFingerprint + sig.raw) + EncodeAll(w)
  }

  /** Exactly these lines are signatures. */
  lemma SignatureExact(line: bytes, sig: CheckpointSignature)
    requires LF !in line
    ensures DecodeSignature(line) == Ok(sig) <==> exists junk, w :: SignsAs(line, sig, junk, w)
  {
    hide DecodeSignature, SignsAs;
    if DecodeSignature(line) == Ok(sig) { var junk, w := SignatureParts(line, sig); }
    if exists junk, w :: SignsAs(line, sig, junk, w) {
      var junk, w :| SignsAs(line, sig, junk, w);
      SignatureOfParts(line, sig, junk, w);
    }
  }

  lemma SignatureParts(line: bytes, sig: CheckpointSignature) returns (junk: bytes, w: seq<scalar>)
    requires LF !in line && DecodeSignature(line) == Ok(sig)
    ensures SignsAs(line, sig, junk, w)
  {
    hide Base64.Encode, Base64.Decode, TrimOf, TrimEnd, Split, Lines.Join, EncodeAll;
    NoLfStays(line);
    SplitPieces(line, SPACE);
    var parts := Split(line, SPACE);
    w := TrimmedBack(parts[2]);
    Base64.Canonical(TrimEnd(parts[2]));
    var whole := Base64.Decode(TrimEnd(parts[2])).value;
    assert whole == sig.keyFingerprint + sig.raw;
    JoinThree(parts, SPACE);
    assert parts[0] in parts && parts[1] in parts && parts[2] in parts;
    junk := DashFirst(parts, line);
    assert line == EM_DASH + junk + [SPACE] + parts[1] + [SPACE] + (TrimEnd(parts[2]) + EncodeAll(w));
    assert forall b :: b in EncodeAll(w) ==> b in parts[2];
  }

  lemma JoinThree(parts: seq<bytes>, b: byte)
    requires |parts| == 3
    ensures Lines.Join(parts, b) == parts[0] + [b] + (parts[1] + [b] + parts[2])
  {
    assert Lines.Join(parts[1..], b) == parts[1] + [b] + Lines.Join(parts[1..][1..], b);
  }

  lemma DashFirst(parts: seq<bytes>, line: bytes) returns (junk: bytes)
    requires |parts| == 3 && line == parts[0] + [SPACE] + (parts[1] + [SPACE] + parts[2])
    requires |line| >= 3 && line[..3] == EM_DASH && SPACE !in parts[0]
    ensures parts[0] == EM_DASH + junk && SPACE !in junk
  {
    var first := parts[0];
    assert line[0] == 0xE2 && line[1] == 0x80 && line[2] == 0x94 by {
      assert line[..3][0] == line[0] && line[..3][1] == line[1] && line[..3][2] == line[2];
    }
    assert |first| < |line| && line[|first|] == SPACE;
    assert first == line[..|first|];
    junk := first[3..];
    assert first == first[..3] + junk;
  }

  lemma SignatureOfParts(line: bytes, sig: CheckpointSignature, junk: bytes, w: seq<scalar>)
    requires LF !in line && SignsAs(line, sig, junk, w)
    ensures DecodeSignature(line) == Ok(sig)
  {
    hide Base64.Encode, Base64.Decode, TrimOf, TrimEnd, Split, EncodeAll;
    NoLfStays(line);
    var whole := sig.keyFingerprint + sig.raw;
    var code := Base64.Encode(whole);
    var tail := code + EncodeAll(w);
    Base64.RoundTrip(whole);
    Base64.EncodeChars(whole);
    PlainEnd(code);
    TrimEndOver(code, w);
    assert line == (EM_DASH + junk) + [SPACE] + (sig.name + [SPACE] + tail);
    SplitFirst(EM_DASH + junk, SPACE, sig.name + [SPACE] + tail);
    SplitFirst(sig.name, SPACE, tail);
    SplitWhole(tail, SPACE);
    assert line[..3] == EM_DASH;
    assert whole[..4] == sig.keyFingerprint && whole[4..] == sig.raw;
  }

  // ---------- looking for the log's signature ----------

  predicate Names(sig: CheckpointSignature, name: bytes, logId: bytes) {
    sig.name == name && |logId| >= 4 && logId[..4] == sig.keyFingerprint
  }

  /** `check` decides about a message and a signature with the key of the log. */
  method VerifySignature(c: SignedCheckpoint, check: (bytes, bytes) -> bool, name: bytes, logId: bytes) returns (ok: bool)
    ensures ok <==> exists sig ::
      && sig in c.signatures && sig.name == name && |logId| >= 4 && logId[..4] == sig.keyFingerprint
      && check(Marshal(c.note), sig.raw)
  {
    hide Marshal;
    var message := Marshal(c.note);
    for i := 0 to |c.signatures|
      invariant forall j :: 0 <= j < i ==> !(Names(c.signatures[j], name, logId) && check(message, c.signatures[j].raw))
    {
      var sig := c.signatures[i];
      if !Names(sig, name, logId) { continue; }
      if check(message, sig.raw) { return true; }
    }
    return false;
  }
}
