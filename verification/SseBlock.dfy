/** One event of a stream: a JSON payload for each of its data lines. */
module SseBlock {
  import opened Common
  import opened Lines
  import opened SseStream
  import opened Unicode
  import opened WhiteSpace

  const DATA: bytes := [0x64, 0x61, 0x74, 0x61, 0x3A]
  const DONE: bytes := [0x5B, 0x44, 0x4F, 0x4E, 0x45, 0x5D]

  lemma Literals()
    ensures DATA == Ascii("data:") && DONE == Ascii("[DONE]")
  {
  }

  // ---------- data lines ----------

  function Payload(line: bytes): Option<bytes> {
    var l := TrimStart(line);
    if |l| < |DATA| || l[..|DATA|] != DATA then None
    else
      var p := Trim(l[|DATA|..]);
      if p == [] || p == DONE then None else Some(p)
  }

  /** A data line: white space, the field name, white space, the payload, white space. */
  function DataLine(a: seq<scalar>, b: seq<scalar>, p: bytes, c: seq<scalar>): bytes {
    EncodeAll(a) + (DATA + (EncodeAll(b) + p + EncodeAll(c)))
  }

  lemma DataStarts(rest: bytes)
    ensures TrimStart(DATA + rest) == DATA + rest
  {
    PlainStart(DATA + rest);
  }

  /** The white space on every side of a data line makes no difference, nor does its absence. */
  lemma PayloadRead(a: seq<scalar>, b: seq<scalar>, p: bytes, c: seq<scalar>)
    requires AllWhite(a) && AllWhite(b) && AllWhite(c) && Trimmed(p)
    ensures Payload(DataLine(a, b, p, c)) == if p == [] || p == DONE then None else Some(p)
  {
    hide TrimStart, Trim, EncodeAll, Trimmed;
    var rest := EncodeAll(b) + p + EncodeAll(c);
    TrimStartOver(a, DATA + rest);
    DataStarts(rest);
    TrimAround(b, p, c);
    assert (DATA + rest)[..|DATA|] == DATA && (DATA + rest)[|DATA|..] == rest;
  }

  ghost predicate IsDataLine(line: bytes, p: bytes, a: seq<scalar>, b: seq<scalar>, c: seq<scalar>) {
    AllWhite(a) && AllWhite(b) && AllWhite(c) && Trimmed(p) && line == DataLine(a, b, p, c)
  }

  /** Every line that starts with the field name, after white space, is a data line. */
  lemma DataLineSplit(line: bytes) returns (a: seq<scalar>, b: seq<scalar>, p: bytes, c: seq<scalar>)
    ensures var l := TrimStart(line); |l| >= |DATA| && l[..|DATA|] == DATA ==> IsDataLine(line, p, a, b, c)
  {
    hide TrimStart, Trim, EncodeAll, Trimmed;
    a := TrimmedFront(line);
    var l := TrimStart(line);
    if |l| >= |DATA| && l[..|DATA|] == DATA {
      b, c := TrimmedBoth(l[|DATA|..]);
      p := Trim(l[|DATA|..]);
      assert l == DATA + l[|DATA|..];
    } else {
      b, p, c := [], [], [];
    }
  }

  /** Exactly the data lines whose payload is neither empty nor the end marker have one. */
  lemma PayloadExact(line: bytes, p: bytes)
    ensures Payload(line) == Some(p) <==> p != [] && p != DONE && exists a, b, c :: IsDataLine(line, p, a, b, c)
  {
    if Payload(line) == Some(p) {
      hide TrimStart, Trim, DataLine, Trimmed;
      var a, b, q, c := DataLineSplit(line);
      PayloadRead(a, b, q, c);
    }
    if p != [] && p != DONE && exists a, b, c :: IsDataLine(line, p, a, b, c) {
      hide Payload, DataLine, Trimmed;
      var a, b, c :| IsDataLine(line, p, a, b, c);
      PayloadRead(a, b, p, c);
    }
  }

  /** A line on which no field name follows the white space at its start. */
  ghost predicate NoData(line: bytes) {
    forall a :: AllWhite(a) ==> !(EncodeAll(a) + DATA <= line)
  }

  lemma NoDataNoPayload(line: bytes)
    requires NoData(line)
    ensures Payload(line).None?
  {
    hide TrimStart, Trim, EncodeAll, Trimmed;
    if Payload(line).Some? {
      var a, b, p, c := DataLineSplit(line);
      DataLineStart(line, p, a, b, c);
    }
  }

  lemma DataLineStart(line: bytes, p: bytes, a: seq<scalar>, b: seq<scalar>, c: seq<scalar>)
    requires IsDataLine(line, p, a, b, c)
    ensures EncodeAll(a) + DATA <= line
  {
    hide EncodeAll;
    assert line == EncodeAll(a) + DATA + (EncodeAll(b) + p + EncodeAll(c));
  }

  type JsonDecoder<!V> = bytes -> Option<V>

  function ParseLines<V>(decode: JsonDecoder<V>, lines: seq<bytes>): Option<seq<V>> {
    if lines == [] then Some([])
    else
      match Payload(lines[0])
      case None => ParseLines(decode, lines[1..])
      case Some(p) =>
        match decode(p)
        case None => None
        case Some(v) => Prepended(v, ParseLines(decode, lines[1..]))
  }

  function Prepended<V>(v: V, o: Option<seq<V>>): Option<seq<V>> {
    match o
    case None => None
    case Some(vs) => Some([v] + vs)
  }

  /** Parses one event. */
  function EventParser<V>(decode: JsonDecoder<V>): Parser<V> {
    (event: bytes) => ParseLines(decode, LinesOf(event))
  }

  function Extended<V>(vs: seq<V>, o: Option<seq<V>>): Option<seq<V>> {
    match o
    case None => None
    case Some(more) => Some(vs + more)
  }

  method ParseEventBlock<V>(decode: JsonDecoder<V>, event: bytes) returns (out: Option<seq<V>>)
    ensures out == EventParser(decode)(event)
  {
    hide Payload, LinesOf;
    var lines := LinesOf(event);
    var values: seq<V> := [];
    var i := 0;
    ghost var total := ParseLines(decode, lines);
    assert total.Some? ==> [] + total.value == total.value;
    while i < |lines|
      invariant i <= |lines|
      invariant total == Extended(values, ParseLines(decode, lines[i..]))
    {
      assert lines[i..][1..] == lines[i + 1..];
      ghost var rest := ParseLines(decode, lines[i + 1..]);
      var payload := Payload(lines[i]);
      if payload.Some? {
        var value := decode(payload.value);
        if value.None? { return None; }
        assert rest.Some? ==> values + ([value.value] + rest.value) == values + [value.value] + rest.value;
        values := values + [value.value];
      }
      i := i + 1;
    }
    assert lines[i..] == [] && values + [] == values;
    return Some(values);
  }
}
