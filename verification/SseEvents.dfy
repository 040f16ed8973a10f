/** Writing an event stream, and reading it back however it is cut up. */
module SseEvents {
  import opened Common
  import opened Lines
  import opened SseBlock
  import opened SseStream
  import opened Unicode
  import opened WhiteSpace
  import Utf8

  /** A line of an event: a data line, with its white space, or a line without data. */
  datatype Item = Data(before: seq<scalar>, gap: seq<scalar>, payload: bytes, after: seq<scalar>) | Other(text: bytes)

  predicate OneLine(s: bytes) {
    s != [] && LF !in s && CR !in s && Utf8.Valid(s)
  }

  ghost predicate Writable(item: Item) {
    && OneLine(LineText(item))
    && match item
       case Data(a, b, p, c) => AllWhite(a) && AllWhite(b) && AllWhite(c) && Trimmed(p)
       case Other(t) => NoData(t)
  }

  function LineText(item: Item): bytes {
    match item
    case Data(a, b, p, c) => DataLine(a, b, p, c)
    case Other(t) => t
  }

  /** What a line is decoded from, if anything: blank payloads and the end marker are skipped. */
  function Contents(item: Item): Option<bytes> {
    if item.Data? && item.payload != [] && item.payload != DONE then Some(item.payload) else None
  }

  function Eol(crlf: bool): bytes {
    if crlf then [CR, LF] else [LF]
  }

  /** The lines with line ends between them. */
  function ItemsText(items: seq<Item>, crlf: bool): bytes {
    if items == [] then []
    else if |items| == 1 then LineText(items[0])
    else LineText(items[0]) + Eol(crlf) + ItemsText(items[1..], crlf)
  }

  /** An event with either kind of line end. */
  datatype Event = Event(items: seq<Item>, crlf: bool)

  const NO_EVENT: Event := Event([], false)

  function EventText(e: Event): bytes {
    ItemsText(e.items, e.crlf)
  }

  /** Events, each with the blank line that ends it, and one that the end of the stream ends. */
  function StreamText(events: seq<Event>, last: Event): bytes {
    if events == [] then EventText(last)
    else EventText(events[0]) + (Eol(events[0].crlf) + Eol(events[0].crlf)) + StreamText(events[1..], last)
  }

  ghost predicate Sendable(e: Event) {
    && (forall item :: item in e.items ==> Writable(item))
    && |EventText(e)| + 3 <= MAX_SSE_EVENT_BYTES
  }

  /** The values of the data lines; nothing when one of them is not JSON. */
  function ValuesOf<V>(decode: JsonDecoder<V>, items: seq<Item>): Option<seq<V>> {
    if items == [] then Some([])
    else if Contents(items[0]).None? then ValuesOf(decode, items[1..])
    else
      match decode(Contents(items[0]).value)
      case None => None
      case Some(v) => Prepended(v, ValuesOf(decode, items[1..]))
  }

  /** The values of all events, up to the first that cannot be decoded. */
  function Expected<V>(decode: JsonDecoder<V>, events: seq<Event>, last: Event): Outcome<V> {
    var e := if events == [] then last else events[0];
    match ValuesOf(decode, e.items)
    case None => Outcome([], Some(BadJson))
    case Some(vs) =>
      if events == [] then Outcome(vs, None)
      else
        var o := Expected(decode, events[1..], last);
        Outcome(vs + o.values, o.error)
  }

  // ---------- lines ----------

  lemma PayloadOfItem(item: Item)
    requires Writable(item)
    ensures Payload(LineText(item)) == Contents(item)
  {
    hide Payload, DataLine, OneLine, Trimmed;
    match item
    case Data(a, b, p, c) => PayloadRead(a, b, p, c);
    case Other(t) => NoDataNoPayload(t);
  }

  lemma LineShape(item: Item)
    requires Writable(item)
    ensures OneLine(LineText(item))
  {
  }

  lemma LinesFirstEol(x: bytes, crlf: bool, rest: bytes)
    requires LF !in x && CR !in x
    ensures LinesOf(x + Eol(crlf) + rest) == [x] + LinesOf(rest)
  {
    hide LinesOf;
    if crlf {
      assert x + [CR, LF] + rest == (x + [CR]) + [LF] + rest;
      LinesFirst(x + [CR], rest);
      assert (x + [CR])[..|x|] == x;
    } else {
      LinesFirst(x, rest);
    }
  }

  function LineTexts(items: seq<Item>): seq<bytes> {
    if items == [] then [] else [LineText(items[0])] + LineTexts(items[1..])
  }

  lemma WholeLine(x: bytes)
    requires x != [] && LF !in x
    ensures LinesOf(x) == [x]
  {
    hide Find;
    NoLf(x);
  }

  lemma NoLines()
    ensures LinesOf([]) == []
  {
  }

  lemma {:induction false} ItemsLines(items: seq<Item>, crlf: bool)
    requires forall item :: item in items ==> Writable(item)
    ensures LinesOf(ItemsText(items, crlf)) == LineTexts(items)
    decreases |items|
  {
    hide LinesOf, LineText, Writable, Utf8.Valid, Eol;
    if items == [] {
      NoLines();
    } else {
      LineShape(items[0]);
      if |items| == 1 {
        WholeLine(LineText(items[0]));
      } else {
        ItemsLines(items[1..], crlf);
        LinesFirstEol(LineText(items[0]), crlf, ItemsText(items[1..], crlf));
      }
    }
  }

  lemma ParseFirst<V>(decode: JsonDecoder<V>, line: bytes, rest: seq<bytes>)
    ensures ParseLines(decode, [line] + rest) ==
      if Payload(line).None? then ParseLines(decode, rest)
      else if decode(Payload(line).value).None? then None
      else Prepended(decode(Payload(line).value).value, ParseLines(decode, rest))
  {
    hide Payload;
    assert ([line] + rest)[1..] == rest;
  }

  lemma {:induction false} LinesParsed<V>(decode: JsonDecoder<V>, items: seq<Item>)
    requires forall item :: item in items ==> Writable(item)
    ensures ParseLines(decode, LineTexts(items)) == ValuesOf(decode, items)
  {
    if items != [] {
      hide Payload, LineText, Writable, ParseLines;
      PayloadOfItem(items[0]);
      LinesParsed(decode, items[1..]);
      ParseFirst(decode, LineText(items[0]), LineTexts(items[1..]));
    }
  }

  /** Parsing an event gives the values of its data lines. */
  lemma EventParsed<V>(decode: JsonDecoder<V>, e: Event)
    requires forall item :: item in e.items ==> Writable(item)
    ensures EventParser(decode)(EventText(e)) == ValuesOf(decode, e.items)
  {
    hide LinesOf, ParseLines, ItemsText, Writable, ValuesOf;
    ItemsLines(e.items, e.crlf);
    LinesParsed(decode, e.items);
  }

  // ---------- boundaries ----------

  lemma SeparatorBytes(s: bytes, j: nat)
    ensures SeparatorAt(s, j, 2) ==> j + 2 <= |s| && s[j] == LF && s[j + 1] == LF
    ensures SeparatorAt(s, j, 4) ==> j + 4 <= |s| && s[j] == CR && s[j + 1] == LF && s[j + 2] == CR
  {
    if SeparatorAt(s, j, 2) { assert s[j..j + 2][0] == s[j] && s[j..j + 2][1] == s[j + 1]; }
    if SeparatorAt(s, j, 4) { assert s[j..j + 4][0] == s[j] && s[j..j + 4][1] == s[j + 1] && s[j..j + 4][2] == s[j + 2]; }
  }

  /** A separator behind a prefix is one of the text behind it. */
  lemma SeparatorShift(p: bytes, s: bytes, j: nat, n: nat)
    ensures SeparatorAt(p + s, |p| + j, n) <==> SeparatorAt(s, j, n)
  {
    if j + n <= |s| { assert (p + s)[|p| + j..|p| + j + n] == s[j..j + n]; }
  }

  lemma {:induction false} ItemsStart(items: seq<Item>, crlf: bool)
    requires items != [] && forall item :: item in items ==> Writable(item)
    ensures var s := ItemsText(items, crlf); s != [] && s[0] != LF && s[0] != CR
  {
    hide Utf8.Valid, LineText, Writable;
    LineShape(items[0]);
    assert LineText(items[0])[0] in LineText(items[0]);
  }

  /** No separator starts in a line or in its line end, when another line follows. */
  lemma LineThenNoSeparator(x: bytes, crlf: bool, t: bytes, j: nat)
    requires OneLine(x) && t != [] && t[0] != LF && t[0] != CR && j < |x| + |Eol(crlf)|
    ensures !AnySeparatorAt(x + Eol(crlf) + t, j)
  {
    hide Utf8.Valid, SeparatorAt;
    var s := x + Eol(crlf) + t;
    SeparatorBytes(s, j);
    if j < |x| {
      assert s[j] == x[j];
    } else {
      assert s[|x| + |Eol(crlf)|] == t[0];
      assert s[|x|] == Eol(crlf)[0] && (crlf ==> s[|x| + 1] == LF);
    }
  }

  lemma LineEndsEvent(x: bytes, crlf: bool, rest: bytes)
    requires OneLine(x)
    ensures FirstBoundary(x + (Eol(crlf) + Eol(crlf)) + rest, |x|, 2 * |Eol(crlf)|)
  {
    hide Utf8.Valid;
    var end := Eol(crlf) + Eol(crlf);
    var s := x + end + rest;
    assert end == if crlf then CRLF_CRLF else LF_LF;
    assert s[|x|..|x| + |end|] == end;
    forall j | 0 <= j < |x| ensures !AnySeparatorAt(s, j) {
      SeparatorBytes(s, j);
      assert s[j] == x[j];
    }
  }

  lemma LineBefore(x: bytes, crlf: bool, t: bytes, i: nat, n: nat)
    requires OneLine(x) && t != [] && t[0] != LF && t[0] != CR && FirstBoundary(t, i, n)
    ensures FirstBoundary(x + Eol(crlf) + t, |x| + |Eol(crlf)| + i, n)
  {
    hide Utf8.Valid, SeparatorAt;
    var p := x + Eol(crlf);
    SeparatorShift(p, t, i, n);
    forall j | 0 <= j < |p| + i ensures !AnySeparatorAt(p + t, j) {
      if j < |p| {
        LineThenNoSeparator(x, crlf, t, j);
      } else {
        SeparatorShift(p, t, j - |p|, 2);
        SeparatorShift(p, t, j - |p|, 4);
        assert !AnySeparatorAt(t, j - |p|);
      }
    }
  }

  lemma NothingEnds(crlf: bool, rest: bytes)
    ensures FirstBoundary(ItemsText([], crlf) + (Eol(crlf) + Eol(crlf)) + rest, 0, 2 * |Eol(crlf)|)
  {
    var end := Eol(crlf) + Eol(crlf);
    assert (ItemsText([], crlf) + end + rest)[0..|end|] == end;
  }

  /** An event ends at its blank line, not before. */
  lemma {:induction false} EventEnds(items: seq<Item>, crlf: bool, rest: bytes)
    requires items != [] && forall item :: item in items ==> Writable(item)
    ensures FirstBoundary(ItemsText(items, crlf) + (Eol(crlf) + Eol(crlf)) + rest, |ItemsText(items, crlf)|, 2 * |Eol(crlf)|)
    decreases |items|
  {
    hide Utf8.Valid, LineText, Writable, FirstBoundary, Eol;
    var x, end := LineText(items[0]), Eol(crlf) + Eol(crlf);
    LineShape(items[0]);
    if |items| == 1 {
      LineEndsEvent(x, crlf, rest);
    } else {
      var t := ItemsText(items[1..], crlf);
      EventEnds(items[1..], crlf, rest);
      ItemsStart(items[1..], crlf);
      LineBefore(x, crlf, t + end + rest, |t|, 2 * |Eol(crlf)|);
      assert x + Eol(crlf) + t + end + rest == x + Eol(crlf) + (t + end + rest);
    }
  }

  lemma {:induction false} NoBoundaryInEvent(items: seq<Item>, crlf: bool)
    requires forall item :: item in items ==> Writable(item)
    ensures FindEventBoundary(ItemsText(items, crlf)).None?
  {
    hide FindEventBoundary, Writable, ItemsText, FirstBoundary;
    var s := ItemsText(items, crlf);
    if items == [] {
      NoItems(crlf);
      NoBoundaryInNothing();
    } else if FindEventBoundary(s).Some? {
      var end := Eol(crlf) + Eol(crlf);
      EventEnds(items, crlf, []);
      FirstIsBoundary(s + end + [], |s|, 2 * |Eol(crlf)|);
      BoundaryStable(s, end + []);
      assert s + (end + []) == s + end + [];
      BoundaryInside(s);
    }
  }

  lemma NoItems(crlf: bool)
    ensures ItemsText([], crlf) == []
  {
  }

  // ---------- the stream ----------

  lemma {:induction false} ItemsValid(items: seq<Item>, crlf: bool)
    requires forall item :: item in items ==> Writable(item)
    ensures Utf8.Valid(ItemsText(items, crlf))
    decreases |items|
  {
    hide Utf8.Valid, LineText, Writable;
    Utf8.ValidAscii([]);
    Utf8.ValidAscii(Eol(crlf));
    if items != [] {
      LineShape(items[0]);
      if |items| > 1 {
        ItemsValid(items[1..], crlf);
        Utf8.ValidConcat(LineText(items[0]), Eol(crlf));
        Utf8.ValidConcat(LineText(items[0]) + Eol(crlf), ItemsText(items[1..], crlf));
      }
    }
  }

  lemma {:induction false} StreamValid(events: seq<Event>, last: Event)
    requires (forall e :: e in events ==> Sendable(e)) && Sendable(last)
    ensures Utf8.Valid(StreamText(events, last))
    decreases |events|
  {
    hide Utf8.Valid, ItemsText, Writable;
    ItemsValid(last.items, last.crlf);
    if events != [] {
      var e := events[0];
      assert Sendable(e);
      var end := Eol(e.crlf) + Eol(e.crlf);
      StreamValid(events[1..], last);
      ItemsValid(e.items, e.crlf);
      Utf8.ValidAscii(end);
      Utf8.ValidConcat(EventText(e), end);
      Utf8.ValidConcat(EventText(e) + end, StreamText(events[1..], last));
    }
  }

  /** What draining such a stream yields: all values, or those before the first bad event. */
  ghost predicate Drains<V>(decode: JsonDecoder<V>, d: Drained<V>, events: seq<Event>, last: Event) {
    var o := Expected(decode, events, last);
    if d.error.Some? then o == Outcome(d.values, Some(BadJson)) && d.error == Some(BadJson)
    else
      && d.rest == EventText(last)
      && match ValuesOf(decode, last.items)
         case None => o == Outcome(d.values, Some(BadJson))
         case Some(vs) => o == Outcome(d.values + vs, None)
  }

  lemma {:induction false} StreamDrained<V>(decode: JsonDecoder<V>, events: seq<Event>, last: Event)
    requires (forall e :: e in events ==> Sendable(e)) && Sendable(last)
    ensures var s := StreamText(events, last);
      Drains(decode, Drain(EventParser(decode), s), events, last) && Sturdy(EventParser(decode), s)
    ensures var d := Drain(EventParser(decode), StreamText(events, last));
      Outcome(d.values, d.error) == Expected(decode, events, NO_EVENT)
    decreases |events|
  {
    hide FindEventBoundary, Drain, Sturdy, EventParser, Writable, ItemsText, ValuesOf, FirstBoundary;
    var parse := EventParser(decode);
    if events == [] {
      NoBoundaryInEvent(last.items, last.crlf);
      DrainNoBoundary(parse, EventText(last));
      SturdyNoBoundary(parse, EventText(last));
      var vs := ValuesOf(decode, last.items);
      if vs.Some? { assert [] + vs.value == vs.value; }
      NoValues(decode);
    } else {
      var e, rest := events[0], StreamText(events[1..], last);
      assert Sendable(e);
      var x, end := EventText(e), Eol(e.crlf) + Eol(e.crlf);
      var s := x + end + rest;
      StreamDrained(decode, events[1..], last);
      EventParsed(decode, e);
      NoItems(e.crlf);
      if e.items == [] { NothingEnds(e.crlf, rest); } else { EventEnds(e.items, e.crlf, rest); }
      FirstIsBoundary(s, |x|, |end|);
      assert s[..|x|] == x && s[|x| + |end|..] == rest;
      DrainStep(parse, s, |x|, |end|, rest);
      if ValuesOf(decode, e.items).Some? {
        DrainsFirst(decode, Drain(parse, rest), ValuesOf(decode, e.items).value, events, last);
      }
    }
  }

  lemma NoValues<V>(decode: JsonDecoder<V>)
    ensures ValuesOf(decode, []) == Some([])
  {
  }

  lemma DrainsFirst<V>(decode: JsonDecoder<V>, d: Drained<V>, vs: seq<V>, events: seq<Event>, last: Event)
    requires events != [] && ValuesOf(decode, events[0].items) == Some(vs)
    requires Drains(decode, d, events[1..], last)
    ensures Drains(decode, After(vs, d), events, last)
  {
    hide ValuesOf, EventText;
    var more := ValuesOf(decode, last.items);
    if more.Some? { assert vs + (d.values + more.value) == vs + d.values + more.value; }
  }

  /**
   A written stream is read as the values of its data lines, in order and up to
   the first payload that is not JSON, however the bytes are cut up.
   */
  lemma StreamRoundTrip<V>(decode: JsonDecoder<V>, events: seq<Event>, last: Event, chunks: seq<bytes>)
    requires (forall e :: e in events ==> Sendable(e)) && Sendable(last)
    requires Concat(chunks) == StreamText(events, last)
    ensures Decode(EventParser(decode), chunks, false) == Expected(decode, events, last)
  {
    hide FindEventBoundary, Drain, Sturdy, Utf8.Scan, EventParser, Concat, Expected, StreamText, ValuesOf, EventText;
    var s := StreamText(events, last);
    var parse := EventParser(decode);
    StreamDrained(decode, events, last);
    StreamValid(events, last);
    assert TextIn(s) == s && [] + s == s;
    ChunkingInvariant(parse, chunks, false);
    FeedOne(parse, s);
    var d := Drain(parse, s);
    assert [] + d.values == d.values;
    LastParsed(decode, last);
  }

  lemma LastParsed<V>(decode: JsonDecoder<V>, last: Event)
    requires Sendable(last)
    ensures EventParser(decode)(EventText(last)) == ValuesOf(decode, last.items)
    ensures EventText(last) == [] ==> ValuesOf(decode, last.items) == Some([])
  {
    hide EventParser, Writable, LineText, Utf8.Valid;
    EventParsed(decode, last);
    if last.items != [] { ItemsStart(last.items, last.crlf); }
  }

  /**
   How any written stream ends, however it is cut up: the values of its complete
   events come first; then a transport failure, an incomplete character or the
   last event, which no blank line has ended.
   */
  lemma StreamEnds<V>(decode: JsonDecoder<V>, events: seq<Event>, last: Event, tail: bytes, chunks: seq<bytes>, broken: bool)
    requires (forall e :: e in events ==> Sendable(e)) && Sendable(last)
    requires TextIn(tail) == [] && !IsBroken(tail) && Concat(chunks) == StreamText(events, last) + tail
    ensures var o := Expected(decode, events, NO_EVENT);
      Decode(EventParser(decode), chunks, broken) ==
        if o.error.Some? then o
        else if broken then Outcome(o.values, Some(Transport))
        else if tail != [] then Outcome(o.values, Some(IncompleteUtf8))
        else Expected(decode, events, last)
  {
    hide FindEventBoundary, Drain, Sturdy, Utf8.Scan, EventParser, Concat, Expected, StreamText, ValuesOf, EventText;
    var text, parse := StreamText(events, last), EventParser(decode);
    var s := text + tail;
    StreamDrained(decode, events, last);
    StreamValid(events, last);
    Utf8.ScanCarry(text, tail);
    assert text[|text|..] + tail == tail && s[..|text|] == text && s[|text|..] == tail && [] + s == s && [] + text == text;
    ChunkingInvariant(parse, chunks, broken);
    FeedOne(parse, s);
    var d := Drain(parse, text);
    assert [] + d.values == d.values;
    LastParsed(decode, last);
  }

  // ---------- invalid bytes behind a stream ----------

  /**
   Invalid bytes behind complete events: in one chunk with them they suppress all
   values, in a chunk of their own they come after all values, or not at all.
   */
  lemma InvalidBehindEvents<V>(decode: JsonDecoder<V>, events: seq<Event>, tail: bytes, broken: bool)
    requires (forall e :: e in events ==> Sendable(e)) && IsBroken(tail) && TextIn(tail) == []
    ensures var text, o := StreamText(events, NO_EVENT), Expected(decode, events, NO_EVENT);
      && Decode(EventParser(decode), [text + tail], broken) == Outcome([], Some(InvalidUtf8))
      && Decode(EventParser(decode), [text, tail], broken) == Outcome(o.values, Some(if o.error.Some? then BadJson else InvalidUtf8))
  {
    hide FindEventBoundary, Drain, Utf8.Scan, EventParser, Expected, StreamText;
    var text, parse := StreamText(events, NO_EVENT), EventParser(decode);
    var s := text + tail;
    StreamValid(events, NO_EVENT);
    StreamDrained(decode, events, NO_EVENT);
    Utf8.ScanCarry(text, tail);
    assert text[|text|..] + tail == tail && s[..|text|] == text && s[|text|..] == tail;
    DecodeWhole(parse, s, broken);
    CutBeforeInvalid(parse, s, broken);
    var d := Drain(parse, text);
    assert ValuesOf(decode, NO_EVENT.items) == Some([]) && d.values + [] == d.values;
  }

  /** The text `data: 1`, a blank line, and a byte that is not UTF-8. */
  lemma InvalidByteDiffers<V>(decode: JsonDecoder<V>, v: V, broken: bool)
    requires decode([0x31]) == Some(v)
    ensures var text := [0x64, 0x61, 0x74, 0x61, 0x3A, 0x20, 0x31, 0x0A, 0x0A];
      && Decode(EventParser(decode), [text + [0xFF]], broken) == Outcome([], Some(InvalidUtf8))
      && Decode(EventParser(decode), [text, [0xFF]], broken) == Outcome([v], Some(InvalidUtf8))
  {
    hide FindEventBoundary, Drain, EventParser, Decode, WhiteLen, WhiteEnd, Utf8.Scan;
    var item := Data([], [0x20], [0x31], []);
    var e := Event([item], false);
    PlainStart([0x31]);
    PlainEnd([0x31]);
    EncodeOne(0x20);
    var line: bytes := [0x64, 0x61, 0x74, 0x61, 0x3A, 0x20, 0x31];
    assert LineText(item) == line;
    Utf8.ValidAscii(line);
    InvalidAlone();
    assert Writable(item);
    InvalidBehindEvents(decode, [e], [0xFF], broken);
    assert [e][1..] == [];
    assert StreamText([e], NO_EVENT) == [0x64, 0x61, 0x74, 0x61, 0x3A, 0x20, 0x31, 0x0A, 0x0A];
    assert [item][1..] == [];
    assert ValuesOf(decode, [item]) == Prepended(v, ValuesOf(decode, []));
    assert Expected(decode, [], NO_EVENT) == Outcome([], None);
    assert Expected(decode, [e], NO_EVENT) == Outcome([v], None);
  }

  lemma InvalidAlone()
    ensures Utf8.Scan([0xFF]) == (0, Utf8.Broken)
  {
  }
}
