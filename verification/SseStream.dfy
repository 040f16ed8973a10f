/**
 The incremental event-stream decoder: bytes arrive in chunks, incomplete UTF-8
 and incomplete events are carried over, and events are limited in size.
 */
module SseStream {
  import opened Common
  import opened Lines
  import Utf8

  const MAX_SSE_EVENT_BYTES: nat := 1024 * 1024
  const MAX_PENDING_UTF8_BYTES: nat := 3

  // ---------- event boundaries ----------

  const CRLF_CRLF: bytes := [CR, LF, CR, LF]

  function FindEventBoundary(s: bytes): Option<(nat, nat)> {
    match (Find(s, LF_LF), Find(s, CRLF_CRLF))
    case (Some(lf), Some(crlf)) => Some(if lf < crlf then (lf, 2) else (crlf, 4))
    case (Some(lf), None) => Some((lf, 2))
    case (None, Some(crlf)) => Some((crlf, 4))
    case (None, None) => None
  }

  predicate SeparatorAt(s: bytes, i: nat, n: nat) {
    (n == 2 && Occurs(s, LF_LF, i)) || (n == 4 && Occurs(s, CRLF_CRLF, i))
  }

  predicate AnySeparatorAt(s: bytes, i: nat) {
    SeparatorAt(s, i, 2) || SeparatorAt(s, i, 4)
  }

  /** The event in front of the first separator of either kind. */
  ghost predicate FirstBoundary(s: bytes, i: nat, n: nat) {
    SeparatorAt(s, i, n) && forall j :: 0 <= j < i ==> !AnySeparatorAt(s, j)
  }

  /** The two searches find the first separator, whichever kind it is. */
  lemma BoundaryIsFirst(s: bytes)
    ensures FindEventBoundary(s).Some? ==> FirstBoundary(s, FindEventBoundary(s).value.0, FindEventBoundary(s).value.1)
    ensures FindEventBoundary(s).None? ==> forall j :: 0 <= j ==> !AnySeparatorAt(s, j)
  {
    hide Find;
    FindLeftmost(s, LF_LF);
    FindLeftmost(s, CRLF_CRLF);
  }

  lemma FirstIsBoundary(s: bytes, i: nat, n: nat)
    requires FirstBoundary(s, i, n)
    ensures FindEventBoundary(s) == Some((i, n))
  {
    hide FindEventBoundary;
    BoundaryIsFirst(s);
    assert AnySeparatorAt(s, i);
    var (j, m) := FindEventBoundary(s).value;
    assert AnySeparatorAt(s, j);
    assert i == j;
    OneSeparator(s, i);
  }

  lemma OneSeparator(s: bytes, i: nat)
    ensures !SeparatorAt(s, i, 2) || !SeparatorAt(s, i, 4)
  {
    if SeparatorAt(s, i, 2) { assert s[i..i + 2][0] == s[i]; }
    if SeparatorAt(s, i, 4) { assert s[i..i + 4][0] == s[i]; }
  }

  lemma SeparatorKept(s: bytes, t: bytes, i: nat, n: nat)
    ensures SeparatorAt(s, i, n) ==> SeparatorAt(s + t, i, n)
    ensures SeparatorAt(s + t, i, n) && i + n <= |s| ==> SeparatorAt(s, i, n)
  {
    if i + n <= |s| { assert s[i..i + n] == (s + t)[i..i + n]; }
  }

  /** The separators do not overlap in a way that would hide one behind the other. */
  lemma SeparatorsApart(s: bytes, i: nat, j: nat)
    requires SeparatorAt(s, i, 2) && SeparatorAt(s, j, 4)
    ensures i < j || j + 3 <= i
  {
    assert s[i..i + 2][0] == s[i] && s[i..i + 2][1] == s[i + 1];
    assert s[j..j + 4][0] == s[j] && s[j..j + 4][2] == s[j + 2];
  }

  /** A boundary that has been found stays where it is when more text arrives. */
  lemma BoundaryStable(s: bytes, t: bytes)
    requires FindEventBoundary(s).Some?
    ensures FindEventBoundary(s + t) == FindEventBoundary(s)
  {
    hide FindEventBoundary, Occurs;
    BoundaryIsFirst(s);
    var (i, n) := FindEventBoundary(s).value;
    SeparatorKept(s, t, i, n);
    forall j | 0 <= j < i ensures !AnySeparatorAt(s + t, j) {
      assert !AnySeparatorAt(s, j);
      SeparatorKept(s, t, j, 2);
      SeparatorKept(s, t, j, 4);
      SeparatorInside(s, i, n);
      if SeparatorAt(s + t, j, 4) && n == 2 { SeparatorsApart(s + t, i, j); }
    }
    FirstIsBoundary(s + t, i, n);
  }

  lemma SeparatorInside(s: bytes, i: nat, n: nat)
    requires SeparatorAt(s, i, n)
    ensures i + n <= |s|
  {
  }

  /** Without a boundary in s, one in s + t ends in t. */
  lemma BoundaryAhead(s: bytes, t: bytes)
    requires FindEventBoundary(s).None? && FindEventBoundary(s + t).Some?
    ensures var (i, n) := FindEventBoundary(s + t).value; (n == 2 || n == 4) && |s| < i + n <= |s| + |t|
  {
    hide FindEventBoundary;
    BoundaryIsFirst(s);
    BoundaryIsFirst(s + t);
    var (i, n) := FindEventBoundary(s + t).value;
    SeparatorKept(s, t, i, n);
    assert !AnySeparatorAt(s, i);
  }

  lemma BoundaryInside(s: bytes)
    requires FindEventBoundary(s).Some?
    ensures var (i, n) := FindEventBoundary(s).value; (n == 2 || n == 4) && i + n <= |s|
  {
    hide FindEventBoundary;
    BoundaryIsFirst(s);
  }

  // ---------- draining a buffer ----------

  datatype Error = InvalidUtf8 | TooLarge | BadJson | Transport | IncompleteUtf8

  /** Parses the text of one event; nothing when a payload is not JSON. */
  type Parser<!V> = bytes -> Option<seq<V>>

  /** The values yielded, the text that is left, and the error that stopped the stream. */
  datatype Drained<V> = Drained(values: seq<V>, rest: bytes, error: Option<Error>)

  function Fail<V>(error: Error): Drained<V> {
    Drained([], [], Some(error))
  }

  function After<V>(values: seq<V>, d: Drained<V>): Drained<V> {
    d.(values := values + d.values)
  }

  /** Take complete events off the front, then limit what is left. */
  function Drain<V>(parse: Parser<V>, s: bytes): Drained<V>
    decreases |s|
  {
    match FindEventBoundary(s)
    case None => if |s| > MAX_SSE_EVENT_BYTES then Fail(TooLarge) else Drained([], s, None)
    case Some((i, n)) =>
      BoundaryInside(s);
      if i > MAX_SSE_EVENT_BYTES then Fail(TooLarge)
      else
        match parse(s[..i])
        case None => Fail(BadJson)
        case Some(values) => After(values, Drain(parse, s[i + n..]))
  }

  /**
   No event that decoding reaches is so close under the limit that the limit is
   passed while its separator is still incomplete.
   */
  predicate Sturdy<V>(parse: Parser<V>, s: bytes)
    decreases |s|
  {
    match FindEventBoundary(s)
    case None => true
    case Some((i, n)) =>
      BoundaryInside(s);
      i > MAX_SSE_EVENT_BYTES
      || (i + n - 1 <= MAX_SSE_EVENT_BYTES && (parse(s[..i]).Some? ==> Sturdy(parse, s[i + n..])))
  }

  lemma AfterAssoc<V>(a: seq<V>, b: seq<V>, d: Drained<V>)
    ensures After(a, After(b, d)) == After(a + b, d)
  {
    assert a + (b + d.values) == a + b + d.values;
  }

  /** What is left after draining holds no boundary and respects the limit. */
  lemma {:induction false} DrainedRest<V>(parse: Parser<V>, s: bytes)
    ensures var d := Drain(parse, s); FindEventBoundary(d.rest).None? && |d.rest| <= MAX_SSE_EVENT_BYTES
    decreases |s|
  {
    hide FindEventBoundary;
    match FindEventBoundary(s)
    case None => NoBoundaryInNothing();
    case Some((i, n)) =>
      BoundaryInside(s);
      NoBoundaryInNothing();
      if i <= MAX_SSE_EVENT_BYTES && parse(s[..i]).Some? { DrainedRest(parse, s[i + n..]); }
  }

  lemma NoBoundaryInNothing()
    ensures FindEventBoundary([]).None?
  {
  }

  lemma DrainStep<V>(parse: Parser<V>, s: bytes, i: nat, n: nat, rest: bytes)
    requires FindEventBoundary(s) == Some((i, n)) && i + n <= |s| && rest == s[i + n..]
    ensures Drain(parse, s) ==
      if i > MAX_SSE_EVENT_BYTES then Fail(TooLarge)
      else if parse(s[..i]).None? then Fail(BadJson)
      else After(parse(s[..i]).value, Drain(parse, rest))
    ensures Sturdy(parse, s) ==
      (i > MAX_SSE_EVENT_BYTES || (i + n - 1 <= MAX_SSE_EVENT_BYTES && (parse(s[..i]).Some? ==> Sturdy(parse, rest))))
  {
    hide FindEventBoundary;
  }

  /** Draining a text in two parts, the first of which did not stop the stream. */
  function Resume<V>(parse: Parser<V>, d: Drained<V>, t: bytes): Drained<V> {
    if d.error.Some? then d else After(d.values, Drain(parse, d.rest + t))
  }

  lemma SplitNoBoundary<V>(parse: Parser<V>, s: bytes, t: bytes)
    requires FindEventBoundary(s).None? && Sturdy(parse, s + t)
    ensures Drain(parse, s + t) == Resume(parse, Drain(parse, s), t)
  {
    hide FindEventBoundary;
    if |s| > MAX_SSE_EVENT_BYTES {
      if FindEventBoundary(s + t).Some? { BoundaryAhead(s, t); }
    } else {
      var d := Drain(parse, s + t);
      assert [] + d.values == d.values;
    }
  }

  /**
   Draining what has arrived, and going on when more arrives, is draining it
   all at once.
   */
  lemma {:induction false} DrainSplit<V>(parse: Parser<V>, s: bytes, t: bytes)
    requires Sturdy(parse, s + t)
    ensures Drain(parse, s + t) == Resume(parse, Drain(parse, s), t)
    ensures Drain(parse, s).error.None? ==> Sturdy(parse, Drain(parse, s).rest + t)
    decreases |s|
  {
    hide FindEventBoundary, Drain, Sturdy;
    match FindEventBoundary(s)
    case None =>
      SplitNoBoundary(parse, s, t);
      DrainNoBoundary(parse, s);
    case Some((i, n)) =>
      BoundaryInside(s);
      BoundaryStable(s, t);
      var rest := s[i + n..];
      assert (s + t)[..i] == s[..i] && (s + t)[i + n..] == rest + t;
      DrainStep(parse, s, i, n, rest);
      DrainStep(parse, s + t, i, n, rest + t);
      if i <= MAX_SSE_EVENT_BYTES && parse(s[..i]).Some? {
        DrainSplit(parse, rest, t);
        var d := Drain(parse, rest);
        AfterAssoc(parse(s[..i]).value, d.values, Drain(parse, d.rest + t));
      }
  }

  lemma DrainNoBoundary<V>(parse: Parser<V>, s: bytes)
    requires FindEventBoundary(s).None?
    ensures Drain(parse, s) == if |s| > MAX_SSE_EVENT_BYTES then Fail(TooLarge) else Drained([], s, None)
  {
  }

  // ---------- chunks ----------

  /** The decoder between chunks: text without a boundary, and the start of one character. */
  datatype Decoder<V> =
    | Running(values: seq<V>, buffer: bytes, pending: bytes)
    | Stopped(values: seq<V>, error: Error)

  function Start<V>(): Decoder<V> {
    Running([], [], [])
  }

  /** The decoder after its undecided bytes have become `bytes`. */
  function Absorb<V>(parse: Parser<V>, values: seq<V>, buffer: bytes, bytes_: bytes): Decoder<V> {
    var (n, status) := Utf8.Scan(bytes_);
    if status.Broken? then Stopped(values, InvalidUtf8)
    else Settle(values, Drain(parse, buffer + bytes_[..n]), bytes_[n..])
  }

  function Settle<V>(values: seq<V>, d: Drained<V>, pending: bytes): Decoder<V> {
    if d.error.Some? then Stopped(values + d.values, d.error.value) else Running(values + d.values, d.rest, pending)
  }

  function Feed<V>(parse: Parser<V>, st: Decoder<V>, chunk: bytes): Decoder<V> {
    if st.Stopped? then st else Absorb(parse, st.values, st.buffer, st.pending + chunk)
  }

  function FeedAll<V>(parse: Parser<V>, st: Decoder<V>, chunks: seq<bytes>): Decoder<V>
    decreases |chunks|
  {
    if chunks == [] then st else FeedAll(parse, Feed(parse, st, chunks[0]), chunks[1..])
  }

  function Concat(chunks: seq<bytes>): bytes {
    if chunks == [] then [] else chunks[0] + Concat(chunks[1..])
  }

  /** What the caller of the stream has seen when it ends. */
  datatype Outcome<V> = Outcome(values: seq<V>, error: Option<Error>)

  /** The end of the byte stream, which may be a transport failure. */
  function Finish<V>(parse: Parser<V>, st: Decoder<V>, broken: bool): Outcome<V> {
    if st.Stopped? then Outcome(st.values, Some(st.error))
    else if broken then Outcome(st.values, Some(Transport))
    else if st.pending != [] then Outcome(st.values, Some(IncompleteUtf8))
    else if st.buffer == [] then Outcome(st.values, None)
    else
      match parse(st.buffer)
      case None => Outcome(st.values, Some(BadJson))
      case Some(values) => Outcome(st.values + values, None)
  }

  function Decode<V>(parse: Parser<V>, chunks: seq<bytes>, broken: bool): Outcome<V> {
    Finish(parse, FeedAll(parse, Start(), chunks), broken)
  }

  /** The text in a byte stream, without an incomplete character at its end. */
  function TextIn(s: bytes): bytes {
    s[..Utf8.Scan(s).0]
  }

  predicate IsBroken(s: bytes) {
    Utf8.Scan(s).1.Broken?
  }

  /** Scanning the carried bytes with what follows continues the scan. */
  lemma CarriedText(p: bytes, t: bytes)
    requires !IsBroken(p + t)
    ensures !IsBroken(p)
    ensures var rest := p[Utf8.Scan(p).0..] + t;
      !IsBroken(rest) && TextIn(p + t) == TextIn(p) + TextIn(rest)
      && (p + t)[Utf8.Scan(p + t).0..] == rest[Utf8.Scan(rest).0..]
  {
    hide Utf8.Scan;
    Utf8.ScanCarry(p, t);
  }

  lemma SettleSplit<V>(parse: Parser<V>, values: seq<V>, d: Drained<V>, p: bytes, text: bytes, pending: bytes)
    requires d.error.None?
    ensures Settle(values, Resume(parse, d, text), pending) ==
      Settle(values + d.values, Drain(parse, d.rest + text), pending)
  {
    hide Drain;
    var e := Drain(parse, d.rest + text);
    assert values + (d.values + e.values) == values + d.values + e.values;
  }

  /** Two chunks are as good as one. */
  lemma FeedTwice<V>(parse: Parser<V>, st: Decoder<V>, c: bytes, t: bytes)
    requires st.Running? && !IsBroken(st.pending + c + t)
    requires Sturdy(parse, st.buffer + TextIn(st.pending + c + t))
    ensures Feed(parse, Feed(parse, st, c), t) == Feed(parse, st, c + t)
    ensures var next := Feed(parse, st, c); next.Running? ==>
      !IsBroken(next.pending + t) && Sturdy(parse, next.buffer + TextIn(next.pending + t))
  {
    hide Utf8.Scan, Drain, Sturdy;
    var p := st.pending + c;
    assert st.pending + (c + t) == p + t;
    CarriedText(p, t);
    var n := Utf8.Scan(p).0;
    var text, more := TextIn(p), TextIn(p[n..] + t);
    assert st.buffer + (text + more) == st.buffer + text + more;
    DrainSplit(parse, st.buffer + text, more);
    var d := Drain(parse, st.buffer + text);
    if d.error.None? {
      SettleSplit(parse, st.values, d, p, more, (p + t)[Utf8.Scan(p + t).0..]);
    }
  }

  lemma {:induction false} FeedAllTogether<V>(parse: Parser<V>, st: Decoder<V>, chunks: seq<bytes>)
    requires st.Running? && chunks != [] && !IsBroken(st.pending + Concat(chunks))
    requires Sturdy(parse, st.buffer + TextIn(st.pending + Concat(chunks)))
    ensures FeedAll(parse, st, chunks) == Feed(parse, st, Concat(chunks))
    decreases |chunks|
  {
    hide Feed, Sturdy, TextIn, IsBroken;
    var c, rest := chunks[0], chunks[1..];
    var t := Concat(rest);
    assert st.pending + (c + t) == st.pending + c + t;
    if rest == [] {
      assert c + t == c;
      FeedAllNone(parse, Feed(parse, st, c), rest);
    } else {
      FeedTwice(parse, st, c, t);
      var next := Feed(parse, st, c);
      if next.Running? { FeedAllTogether(parse, next, rest); } else { FeedStopped(parse, next, rest); }
    }
  }

  lemma FeedAllNone<V>(parse: Parser<V>, st: Decoder<V>, chunks: seq<bytes>)
    requires chunks == []
    ensures FeedAll(parse, st, chunks) == st
  {
  }

  lemma {:induction false} FeedStopped<V>(parse: Parser<V>, st: Decoder<V>, chunks: seq<bytes>)
    requires st.Stopped?
    ensures FeedAll(parse, st, chunks) == st && forall t :: Feed(parse, st, t) == st
  {
    if chunks != [] { FeedStopped(parse, st, chunks[1..]); }
  }

  lemma StartFed<V>(parse: Parser<V>)
    ensures Feed(parse, Start(), []) == Start()
  {
    NoBoundaryInNothing();
  }

  /**
   The values and the end of a stream depend on its bytes only, not on how they
   were cut into chunks.
   */
  lemma ChunkingInvariant<V>(parse: Parser<V>, chunks: seq<bytes>, broken: bool)
    requires !IsBroken(Concat(chunks)) && Sturdy(parse, TextIn(Concat(chunks)))
    ensures Decode(parse, chunks, broken) == Decode(parse, [Concat(chunks)], broken)
  {
    hide Feed, Sturdy, TextIn, IsBroken, Finish;
    var s := Concat(chunks);
    assert [] + s == s && [] + TextIn(s) == TextIn(s);
    FeedOne(parse, s);
    if chunks == [] {
      StartFed(parse);
    } else {
      FeedAllTogether(parse, Start(), chunks);
    }
  }

  lemma FeedOne<V>(parse: Parser<V>, s: bytes)
    ensures FeedAll(parse, Start(), [s]) == Feed(parse, Start(), s)
  {
    hide Feed;
    FeedAllNone(parse, Feed(parse, Start(), s), []);
  }

  lemma FeedAllTwo<V>(parse: Parser<V>, st: Decoder<V>, x: bytes, y: bytes)
    ensures FeedAll(parse, st, [x, y]) == Feed(parse, Feed(parse, st, x), y)
  {
    hide Feed;
    var next, chunks := Feed(parse, st, x), [x, y];
    assert chunks[1..] == [y];
    FeedAllNone(parse, Feed(parse, next, y), [y][1..]);
  }

  // ---------- every way of cutting up ----------

  /** The values that no way of cutting up can lose: those before the first event that is not sturdy. */
  function Sure<V>(parse: Parser<V>, s: bytes): seq<V>
    decreases |s|
  {
    match FindEventBoundary(s)
    case None => []
    case Some((i, n)) =>
      BoundaryInside(s);
      if i + n - 1 > MAX_SSE_EVENT_BYTES then []
      else
        match parse(s[..i])
        case None => []
        case Some(values) => values + Sure(parse, s[i + n..])
  }

  lemma SureStep<V>(parse: Parser<V>, s: bytes, i: nat, n: nat, rest: bytes)
    requires FindEventBoundary(s) == Some((i, n)) && i + n <= |s| && rest == s[i + n..]
    ensures Sure(parse, s) ==
      if i + n - 1 > MAX_SSE_EVENT_BYTES || parse(s[..i]).None? then [] else parse(s[..i]).value + Sure(parse, rest)
  {
    hide FindEventBoundary;
  }

  lemma SureNone<V>(parse: Parser<V>, s: bytes)
    requires FindEventBoundary(s).None?
    ensures Sure(parse, s) == []
  {
    hide FindEventBoundary;
  }

  lemma SureBehind<V>(parse: Parser<V>, s: bytes, t: bytes)
    requires FindEventBoundary(s).None? && |s| > MAX_SSE_EVENT_BYTES
    ensures Sure(parse, s + t) == []
  {
    hide FindEventBoundary;
    if FindEventBoundary(s + t).Some? { BoundaryAhead(s, t); }
  }

  lemma PrefixBehind<T>(a: seq<T>, x: seq<T>, y: seq<T>)
    requires x <= y
    ensures a + x <= a + y
  {
  }

  /** In a sturdy text all values are sure. */
  lemma {:induction false} SturdySure<V>(parse: Parser<V>, s: bytes)
    requires Sturdy(parse, s)
    ensures Sure(parse, s) == Drain(parse, s).values
    decreases |s|
  {
    hide FindEventBoundary, Drain, Sturdy, Sure;
    match FindEventBoundary(s)
    case None =>
      SureNone(parse, s);
      DrainNoBoundary(parse, s);
    case Some((i, n)) =>
      BoundaryInside(s);
      var rest := s[i + n..];
      DrainStep(parse, s, i, n, rest);
      SureStep(parse, s, i, n, rest);
      if i <= MAX_SSE_EVENT_BYTES && parse(s[..i]).Some? { SturdySure(parse, rest); }
  }

  /** The first part stopped the stream on the size limit, after at least the sure values. */
  ghost predicate DrainGaveUp<V>(d: Drained<V>, whole: Drained<V>, sure: seq<V>) {
    d.error == Some(TooLarge) && sure <= d.values <= whole.values
  }

  lemma GaveUpBehind<V>(values: seq<V>, d: Drained<V>, whole: Drained<V>, sure: seq<V>)
    requires DrainGaveUp(d, whole, sure)
    ensures DrainGaveUp(After(values, d), After(values, whole), values + sure)
  {
    PrefixBehind(values, sure, d.values);
    PrefixBehind(values, d.values, whole.values);
  }

  /** Cutting a text can only make the decoder give up earlier, on the size limit. */
  lemma {:induction false} DrainSplitAny<V>(parse: Parser<V>, s: bytes, t: bytes)
    ensures var d, whole, sure := Drain(parse, s), Drain(parse, s + t), Sure(parse, s + t);
      && (whole == Resume(parse, d, t) || DrainGaveUp(d, whole, sure))
      && (d.error.None? ==> sure <= d.values + Sure(parse, d.rest + t))
    decreases |s|
  {
    hide FindEventBoundary, Drain, Sure, DrainGaveUp;
    match FindEventBoundary(s)
    case None =>
      SplitAnyNoBoundary(parse, s, t);
    case Some((i, n)) =>
      BoundaryInside(s);
      BoundaryStable(s, t);
      var rest := s[i + n..];
      assert (s + t)[..i] == s[..i] && (s + t)[i + n..] == rest + t;
      DrainStep(parse, s, i, n, rest);
      DrainStep(parse, s + t, i, n, rest + t);
      SureStep(parse, s + t, i, n, rest + t);
      if i <= MAX_SSE_EVENT_BYTES && parse(s[..i]).Some? {
        var values, d := parse(s[..i]).value, Drain(parse, rest);
        DrainSplitAny(parse, rest, t);
        SplitAnyBehind(parse, values, d, Drain(parse, rest + t), Sure(parse, rest + t), t,
                       if i + n - 1 > MAX_SSE_EVENT_BYTES then [] else values + Sure(parse, rest + t));
      }
  }

  lemma SplitAnyNoBoundary<V>(parse: Parser<V>, s: bytes, t: bytes)
    requires FindEventBoundary(s).None?
    ensures var d, whole, sure := Drain(parse, s), Drain(parse, s + t), Sure(parse, s + t);
      && (whole == Resume(parse, d, t) || DrainGaveUp(d, whole, sure))
      && (d.error.None? ==> sure <= d.values + Sure(parse, d.rest + t))
  {
    hide FindEventBoundary, Drain, Sure;
    DrainNoBoundary(parse, s);
    if |s| <= MAX_SSE_EVENT_BYTES {
      var d := Drain(parse, s + t);
      assert [] + d.values == d.values;
      assert [] + Sure(parse, s + t) == Sure(parse, s + t);
    } else {
      SureBehind(parse, s, t);
    }
  }

  lemma SplitAnyBehind<V>(parse: Parser<V>, values: seq<V>, d: Drained<V>, whole: Drained<V>, sure: seq<V>, t: bytes, all: seq<V>)
    requires whole == Resume(parse, d, t) || DrainGaveUp(d, whole, sure)
    requires d.error.None? ==> sure <= d.values + Sure(parse, d.rest + t)
    requires all == [] || all == values + sure
    ensures After(values, whole) == Resume(parse, After(values, d), t) || DrainGaveUp(After(values, d), After(values, whole), all)
    ensures d.error.None? ==> all <= values + d.values + Sure(parse, d.rest + t)
  {
    hide Drain, Sure;
    if d.error.None? {
      var more := Sure(parse, d.rest + t);
      AfterAssoc(values, d.values, Drain(parse, d.rest + t));
      PrefixBehind(values, sure, d.values + more);
      assert values + (d.values + more) == values + d.values + more;
    } else if DrainGaveUp(d, whole, sure) {
      GaveUpBehind(values, d, whole, sure);
    }
  }

  ghost predicate GaveUp<V>(st: Decoder<V>, whole: Decoder<V>, sure: seq<V>) {
    st.Stopped? && st.error == TooLarge && sure <= st.values <= whole.values
  }

  /** The values that are sure when so many bytes are still to come. */
  function SureFrom<V>(parse: Parser<V>, st: Decoder<V>, t: bytes): seq<V> {
    if st.Stopped? then st.values else st.values + Sure(parse, st.buffer + TextIn(st.pending + t))
  }

  lemma FeedTwiceAny<V>(parse: Parser<V>, st: Decoder<V>, c: bytes, t: bytes)
    requires st.Running? && !IsBroken(st.pending + c + t)
    ensures
      || Feed(parse, Feed(parse, st, c), t) == Feed(parse, st, c + t)
      || GaveUp(Feed(parse, st, c), Feed(parse, st, c + t), SureFrom(parse, st, c + t))
    ensures var next := Feed(parse, st, c); next.Running? ==>
      !IsBroken(next.pending + t) && SureFrom(parse, st, c + t) <= SureFrom(parse, next, t)
  {
    hide Utf8.Scan, Drain, Sure;
    var p := st.pending + c;
    assert st.pending + (c + t) == p + t;
    CarriedText(p, t);
    var n := Utf8.Scan(p).0;
    var text, more := TextIn(p), TextIn(p[n..] + t);
    assert st.buffer + (text + more) == st.buffer + text + more;
    DrainSplitAny(parse, st.buffer + text, more);
    var d, whole := Drain(parse, st.buffer + text), Drain(parse, st.buffer + text + more);
    var sure := Sure(parse, st.buffer + text + more);
    if d.error.None? {
      SettleSplit(parse, st.values, d, p, more, (p + t)[Utf8.Scan(p + t).0..]);
      PrefixBehind(st.values, sure, d.values + Sure(parse, d.rest + more));
      assert st.values + (d.values + Sure(parse, d.rest + more)) == st.values + d.values + Sure(parse, d.rest + more);
    } else if DrainGaveUp(d, whole, sure) {
      PrefixBehind(st.values, sure, d.values);
      PrefixBehind(st.values, d.values, whole.values);
    }
  }

  lemma {:induction false} FeedAllAny<V>(parse: Parser<V>, st: Decoder<V>, chunks: seq<bytes>)
    requires st.Running? && chunks != [] && !IsBroken(st.pending + Concat(chunks))
    ensures
      || FeedAll(parse, st, chunks) == Feed(parse, st, Concat(chunks))
      || GaveUp(FeedAll(parse, st, chunks), Feed(parse, st, Concat(chunks)), SureFrom(parse, st, Concat(chunks)))
    decreases |chunks|
  {
    hide Feed, IsBroken, SureFrom;
    var c, rest := chunks[0], chunks[1..];
    var t := Concat(rest);
    assert st.pending + (c + t) == st.pending + c + t;
    var next := Feed(parse, st, c);
    if rest == [] {
      assert c + t == c;
      FeedAllNone(parse, next, rest);
    } else {
      FeedTwiceAny(parse, st, c, t);
      if next.Running? { FeedAllAny(parse, next, rest); } else { FeedStopped(parse, next, rest); }
    }
  }

  /**
   For every stream that is not invalid UTF-8, a way of cutting it up either
   changes nothing or ends the stream on the size limit, after some of the
   values and at least the sure ones.
   */
  lemma ChunkingOnlyTightens<V>(parse: Parser<V>, chunks: seq<bytes>, broken: bool)
    requires !IsBroken(Concat(chunks))
    ensures var o, whole := Decode(parse, chunks, broken), Decode(parse, [Concat(chunks)], broken);
      || o == whole
      || (o.error == Some(TooLarge) && Sure(parse, TextIn(Concat(chunks))) <= o.values <= whole.values)
  {
    hide Feed, IsBroken, Sure, TextIn;
    var s := Concat(chunks);
    assert [] + s == s && [] + TextIn(s) == TextIn(s) && [] + Sure(parse, TextIn(s)) == Sure(parse, TextIn(s));
    FeedOne(parse, s);
    if chunks == [] {
      StartFed(parse);
    } else {
      FeedAllAny(parse, Start(), chunks);
    }
  }

  /** An uncut stream: its text is drained, unless there are invalid bytes anywhere in it. */
  lemma DecodeWhole<V>(parse: Parser<V>, s: bytes, broken: bool)
    ensures var o, d := Decode(parse, [s], broken), Drain(parse, TextIn(s));
      && (IsBroken(s) ==> o == Outcome([], Some(InvalidUtf8)))
      && (!IsBroken(s) && d.error.Some? ==> o == Outcome(d.values, d.error))
      && (!IsBroken(s) && d.error.None? ==> o.error != Some(TooLarge) && o.error != Some(InvalidUtf8))
  {
    hide Drain, Utf8.Scan;
    FeedOne(parse, s);
    var d := Drain(parse, TextIn(s));
    assert [] + s == s && [] + TextIn(s) == TextIn(s) && [] + d.values == d.values;
  }

  /** An event beyond the limit, once decoding reaches it, ends every chunking. */
  lemma OversizeAlwaysFails<V>(parse: Parser<V>, chunks: seq<bytes>, broken: bool)
    requires !IsBroken(Concat(chunks)) && Drain(parse, TextIn(Concat(chunks))).error == Some(TooLarge)
    ensures Decode(parse, chunks, broken).error == Some(TooLarge)
  {
    hide Drain, Decode, IsBroken, TextIn, Sure;
    ChunkingOnlyTightens(parse, chunks, broken);
    DecodeWhole(parse, Concat(chunks), broken);
  }

  // ---------- invalid UTF-8 ----------

  /**
   How a stream with invalid bytes may end, when draining the text in front of
   them gives `d` behind the values of earlier chunks.
   */
  ghost predicate BreaksOff<V>(st: Decoder<V>, values: seq<V>, d: Drained<V>, sturdy: bool) {
    && st.Stopped? && values <= st.values <= values + d.values
    && (|| st.error == InvalidUtf8
        || (st.error == TooLarge && !sturdy)
        || (d.error == Some(st.error) && st.values == values + d.values))
  }

  lemma BreaksOffLater<V>(parse: Parser<V>, st: Decoder<V>, values: seq<V>, d: Drained<V>, t: bytes, sturdy: bool, before: bool)
    requires d.error.None? && BreaksOff(st, values + d.values, Drain(parse, d.rest + t), sturdy) && (before ==> sturdy)
    ensures BreaksOff(st, values, Resume(parse, d, t), before)
  {
    hide Drain;
    var more := Drain(parse, d.rest + t).values;
    assert values + (d.values + more) == values + d.values + more;
    assert values <= values + d.values;
  }

  lemma BrokenCarried(p: bytes, t: bytes)
    requires IsBroken(p + t) && !IsBroken(p)
    ensures var rest := p[Utf8.Scan(p).0..] + t; IsBroken(rest) && TextIn(p + t) == TextIn(p) + TextIn(rest)
  {
    hide Utf8.Scan;
    Utf8.ScanCarry(p, t);
  }

  lemma BrokenAtOnce<V>(parse: Parser<V>, st: Decoder<V>, c: bytes, d: Drained<V>, sturdy: bool)
    requires st.Running? && IsBroken(st.pending + c)
    ensures BreaksOff(Feed(parse, st, c), st.values, d, sturdy)
  {
    hide Utf8.Scan;
    assert st.values <= st.values + d.values;
  }

  lemma StoppedByDrain<V>(parse: Parser<V>, values: seq<V>, d: Drained<V>, whole: Drained<V>, sure: seq<V>, t: bytes, sturdy: bool)
    requires d.error.Some? && (whole == d || (DrainGaveUp(d, whole, sure) && !sturdy))
    ensures BreaksOff(Stopped(values + d.values, d.error.value), values, whole, sturdy)
  {
    if whole != d { PrefixBehind(values, d.values, whole.values); }
    assert values <= values + d.values;
  }

  lemma {:induction false} BrokenStops<V>(parse: Parser<V>, st: Decoder<V>, chunks: seq<bytes>)
    requires st.Running? && chunks != [] && IsBroken(st.pending + Concat(chunks))
    ensures var text := st.buffer + TextIn(st.pending + Concat(chunks));
      BreaksOff(FeedAll(parse, st, chunks), st.values, Drain(parse, text), Sturdy(parse, text))
    decreases |chunks|
  {
    hide Utf8.Scan, Drain, Sturdy, Sure, BreaksOff, DrainGaveUp;
    var c, rest := chunks[0], chunks[1..];
    var t := Concat(rest);
    var p := st.pending + c;
    assert st.pending + (c + t) == p + t;
    assert rest == [] ==> p + t == p;
    var next := Feed(parse, st, c);
    var text := st.buffer + TextIn(p + t);
    var whole, sturdy := Drain(parse, text), Sturdy(parse, text);
    if IsBroken(p) {
      BrokenAtOnce(parse, st, c, whole, sturdy);
      FeedStopped(parse, next, rest);
    } else {
      BrokenCarried(p, t);
      var more := TextIn(p[Utf8.Scan(p).0..] + t);
      var first := st.buffer + TextIn(p);
      assert text == first + more;
      DrainSplitAny(parse, first, more);
      if sturdy { DrainSplit(parse, first, more); }
      var d := Drain(parse, first);
      if d.error.Some? {
        StoppedByDrain(parse, st.values, d, whole, Sure(parse, text), more, sturdy);
        FeedStopped(parse, next, rest);
      } else {
        NotGivenUp(d, whole, Sure(parse, text));
        BrokenStops(parse, next, rest);
        BreaksOffLater(parse, FeedAll(parse, next, rest), st.values, d, more, Sturdy(parse, d.rest + more), sturdy);
      }
    }
  }

  lemma NotGivenUp<V>(d: Drained<V>, whole: Drained<V>, sure: seq<V>)
    ensures d.error.None? ==> !DrainGaveUp(d, whole, sure)
  {
  }

  /**
   Invalid UTF-8 ends every chunking in an error: that of the bytes themselves,
   the one that the text in front of them ends in, or the size limit; and after
   no more than the values of that text.
   */
  lemma BrokenAlwaysFails<V>(parse: Parser<V>, chunks: seq<bytes>, broken: bool)
    requires IsBroken(Concat(chunks))
    ensures var o, text := Decode(parse, chunks, broken), TextIn(Concat(chunks));
      var d := Drain(parse, text);
      && o.values <= d.values
      && (|| o.error == Some(InvalidUtf8)
          || (o.error == Some(TooLarge) && !Sturdy(parse, text))
          || (o.error.Some? && o == Outcome(d.values, d.error)))
  {
    hide Drain, Sturdy, FeedAll;
    var s := Concat(chunks);
    assert [] + s == s && [] + TextIn(s) == TextIn(s);
    BrokenSomewhere(chunks);
    BrokenStops(parse, Start(), chunks);
    var d := Drain(parse, TextIn(s));
    assert [] + d.values == d.values;
  }

  lemma BrokenSomewhere(chunks: seq<bytes>)
    requires IsBroken(Concat(chunks))
    ensures chunks != []
  {
  }

  // ---------- the exact condition ----------

  /** Just before the end of its separator, an event under the limit makes the buffer pass it. */
  lemma NoBoundaryYet(s: bytes, i: nat, n: nat)
    requires FindEventBoundary(s) == Some((i, n))
    ensures (n == 2 || n == 4) && i + n <= |s| && s[i + n - 1] == LF
    ensures FindEventBoundary(s[..i + n - 1]).None?
  {
    hide FindEventBoundary, Occurs;
    BoundaryInside(s);
    BoundaryIsFirst(s);
    LastIsLf(s, i, n);
    var x := s[..i + n - 1];
    assert x + s[i + n - 1..] == s;
    BoundaryIsFirst(x);
    if FindEventBoundary(x).Some? {
      var (j, m) := FindEventBoundary(x).value;
      SeparatorKept(x, s[i + n - 1..], j, m);
      assert AnySeparatorAt(s, j);
      SeparatorInside(x, j, m);
      SeparatorsApart(s, j, i);
    }
  }

  lemma LastIsLf(s: bytes, i: nat, n: nat)
    requires SeparatorAt(s, i, n)
    ensures i + n <= |s| && s[i + n - 1] == LF
  {
    assert s[i..i + n][n - 1] == s[i + n - 1];
  }

  lemma BoundaryCut(s: bytes, i: nat, n: nat, c: nat)
    requires FindEventBoundary(s) == Some((i, n)) && i + n <= c <= |s|
    ensures FindEventBoundary(s[..c]) == Some((i, n))
  {
    hide FindEventBoundary;
    BoundaryIsFirst(s);
    assert s[..c] + s[c..] == s;
    SeparatorKept(s[..c], s[c..], i, n);
    forall j | 0 <= j < i ensures !AnySeparatorAt(s[..c], j) {
      assert !AnySeparatorAt(s, j);
      SeparatorKept(s[..c], s[c..], j, 2);
      SeparatorKept(s[..c], s[c..], j, 4);
    }
    FirstIsBoundary(s[..c], i, n);
  }

  /** Where to cut a text that is not sturdy, to make the decoder give up. */
  lemma {:induction false} FragileCut<V>(parse: Parser<V>, s: bytes) returns (c: nat)
    requires !Sturdy(parse, s)
    ensures c < |s| && s[c] == LF
    ensures Drain(parse, s[..c]).error == Some(TooLarge) && Drain(parse, s[..c]).values == Sure(parse, s)
    decreases |s|
  {
    hide FindEventBoundary, Drain, Sturdy, Sure;
    SturdyNoBoundary(parse, s);
    var (i, n) := FindEventBoundary(s).value;
    NoBoundaryYet(s, i, n);
    var rest := s[i + n..];
    DrainStep(parse, s, i, n, rest);
    SureStep(parse, s, i, n, rest);
    if i + n - 1 > MAX_SSE_EVENT_BYTES {
      c := i + n - 1;
      DrainNoBoundary(parse, s[..c]);
    } else {
      var k := FragileCut(parse, rest);
      c := i + n + k;
      BoundaryCut(s, i, n, c);
      assert s[..c][i + n..] == rest[..k] && s[..c][..i] == s[..i];
      DrainStep(parse, s[..c], i, n, rest[..k]);
    }
  }

  lemma SturdyNoBoundary<V>(parse: Parser<V>, s: bytes)
    ensures FindEventBoundary(s).None? ==> Sturdy(parse, s)
  {
  }

  /** Two chunks, the first of which is text that stops the decoder. */
  lemma CutInText<V>(parse: Parser<V>, s: bytes, c: nat, broken: bool)
    requires c <= |TextIn(s)| && Utf8.Valid(TextIn(s)[..c]) && Drain(parse, s[..c]).error.Some?
    ensures Concat([s[..c], s[c..]]) == s
    ensures var d := Drain(parse, s[..c]); Decode(parse, [s[..c], s[c..]], broken) == Outcome(d.values, d.error)
  {
    hide Drain, Utf8.Scan;
    var x, y := s[..c], s[c..];
    assert TextIn(s)[..c] == x && [] + x == x && x[..|x|] == x;
    TwoChunks(x, y);
    var st := Feed(parse, Start(), x);
    FeedStopped(parse, st, [y]);
    assert [x, y][1..] == [y];
    assert [] + Drain(parse, x).values == Drain(parse, x).values;
  }

  lemma TwoChunks(x: bytes, y: bytes)
    ensures Concat([x, y]) == x + y
  {
    assert [x, y][1..] == [y] && [y][1..] == [];
    assert Concat([y]) == y + Concat([]);
  }

  lemma FragileChunks<V>(parse: Parser<V>, s: bytes, broken: bool) returns (chunks: seq<bytes>)
    requires !Sturdy(parse, TextIn(s))
    ensures Concat(chunks) == s && Decode(parse, chunks, broken) == Outcome(Sure(parse, TextIn(s)), Some(TooLarge))
  {
    hide Sturdy, Drain, Utf8.Scan, Decode, Sure;
    var text := TextIn(s);
    var c := FragileCut(parse, text);
    Utf8.ScanValidPrefix(s);
    Utf8.ValidBefore(text, c);
    assert text[..c] == s[..c];
    CutInText(parse, s, c, broken);
    chunks := [s[..c], s[c..]];
  }

  lemma {:induction false} DrainErrors<V>(parse: Parser<V>, s: bytes)
    ensures var e := Drain(parse, s).error; e == None || e == Some(TooLarge) || e == Some(BadJson)
    decreases |s|
  {
    hide FindEventBoundary;
    match FindEventBoundary(s)
    case None =>
    case Some((i, n)) =>
      BoundaryInside(s);
      if i <= MAX_SSE_EVENT_BYTES && parse(s[..i]).Some? { DrainErrors(parse, s[i + n..]); }
  }

  /** Cut in front of the invalid bytes, a stream yields the values of its text first. */
  lemma CutBeforeInvalid<V>(parse: Parser<V>, s: bytes, broken: bool)
    requires IsBroken(s)
    ensures var c, d := |TextIn(s)|, Drain(parse, TextIn(s));
      && Concat([s[..c], s[c..]]) == s
      && Decode(parse, [s[..c], s[c..]], broken) == Outcome(d.values, if d.error.Some? then d.error else Some(InvalidUtf8))
  {
    hide Drain, Utf8.Scan;
    var c := |TextIn(s)|;
    var x, y := s[..c], s[c..];
    Utf8.ScanValidPrefix(s);
    Utf8.ScanRest(s);
    TwoChunks(x, y);
    assert x[..|x|] == x && x[|x|..] == [] && [] + x == x && [] + y == y && [x, y][1..] == [y];
    var d := Drain(parse, x);
    assert [] + d.values == d.values;
    var st := Feed(parse, Start(), x);
    if d.error.Some? {
      FeedStopped(parse, st, [y]);
    } else {
      FeedAllTwo(parse, Start(), x, y);
    }
  }

  lemma TextWithin(s: bytes)
    ensures |TextIn(s)| <= |s|
  {
  }

  /** Exactly the streams that are decoded alike for all ways of cutting them up. */
  ghost predicate Indifferent<V>(parse: Parser<V>, s: bytes) {
    var text := TextIn(s);
    var d := Drain(parse, text);
    if IsBroken(s) then Sturdy(parse, text) && d.values == [] && d.error.None?
    else if d.error == Some(TooLarge) then Sure(parse, text) == d.values
    else Sturdy(parse, text)
  }

  ghost predicate AllAlike<V>(parse: Parser<V>, s: bytes, broken: bool) {
    forall chunks: seq<bytes> :: Concat(chunks) == s ==> Decode(parse, chunks, broken) == Decode(parse, [s], broken)
  }

  lemma IndifferentAlike<V>(parse: Parser<V>, chunks: seq<bytes>, broken: bool)
    requires Indifferent(parse, Concat(chunks))
    ensures Decode(parse, chunks, broken) == Decode(parse, [Concat(chunks)], broken)
  {
    hide Drain, Decode, IsBroken, TextIn, Sturdy, Sure;
    var s := Concat(chunks);
    DecodeWhole(parse, s, broken);
    if IsBroken(s) {
      BrokenAlwaysFails(parse, chunks, broken);
    } else {
      ChunkingOnlyTightens(parse, chunks, broken);
      if Sturdy(parse, TextIn(s)) { ChunkingInvariant(parse, chunks, broken); }
    }
  }

  lemma AlikeIndifferent<V>(parse: Parser<V>, s: bytes, broken: bool)
    requires AllAlike(parse, s, broken)
    ensures Indifferent(parse, s)
  {
    hide Drain, Decode, IsBroken, TextIn, Sturdy, Sure, Concat;
    DecodeWhole(parse, s, broken);
    var text := TextIn(s);
    if Sturdy(parse, text) { SturdySure(parse, text); } else { var chunks := FragileChunks(parse, s, broken); }
    if IsBroken(s) {
      CutBeforeInvalid(parse, s, broken);
      DrainErrors(parse, text);
      assert |text| <= |s| by { TextWithin(s); }
      var cut := [s[..|text|], s[|text|..]];
      assert Decode(parse, cut, broken) == Decode(parse, [s], broken);
    }
  }

  /**
   For every stream of bytes: all ways of cutting it up have the same result if
   and only if it is indifferent. Valid streams within the limit are when they
   are sturdy; streams beyond the limit are when no values follow the first
   event that is not sturdy; and streams with invalid bytes are when the text
   in front of them is sturdy and yields nothing.
   */
  lemma ChunkingExact<V>(parse: Parser<V>, s: bytes, broken: bool)
    ensures Indifferent(parse, s) <==> AllAlike(parse, s, broken)
  {
    hide Indifferent, Decode;
    if Indifferent(parse, s) {
      forall chunks: seq<bytes> | Concat(chunks) == s
        ensures Decode(parse, chunks, broken) == Decode(parse, [s], broken)
      {
        IndifferentAlike(parse, chunks, broken);
      }
    }
    if AllAlike(parse, s, broken) { AlikeIndifferent(parse, s, broken); }
  }

  /** Every event of the text is at most `limit` bytes long. */
  predicate EventsWithin(s: bytes, limit: nat)
    decreases |s|
  {
    match FindEventBoundary(s)
    case None => |s| <= limit
    case Some((i, n)) =>
      BoundaryInside(s);
      i <= limit && EventsWithin(s[i + n..], limit)
  }

  /** Decoding gives up on the size limit only when some event passes it, and cannot go past such an event. */
  lemma {:induction false} LimitExact<V>(parse: Parser<V>, s: bytes)
    ensures Drain(parse, s).error == Some(TooLarge) ==> !EventsWithin(s, MAX_SSE_EVENT_BYTES)
    ensures !EventsWithin(s, MAX_SSE_EVENT_BYTES) ==> Drain(parse, s).error.Some?
    decreases |s|
  {
    hide FindEventBoundary;
    if FindEventBoundary(s).Some? {
      BoundaryInside(s);
      var (i, n) := FindEventBoundary(s).value;
      LimitExact(parse, s[i + n..]);
    }
  }

  /** Three bytes below the limit, events are decoded however they are cut up. */
  lemma {:induction false} EventsWithinSturdy<V>(parse: Parser<V>, s: bytes)
    requires EventsWithin(s, MAX_SSE_EVENT_BYTES - 3)
    ensures Sturdy(parse, s)
    decreases |s|
  {
    hide FindEventBoundary;
    if FindEventBoundary(s).Some? {
      BoundaryInside(s);
      var (i, n) := FindEventBoundary(s).value;
      EventsWithinSturdy(parse, s[i + n..]);
    }
  }

  // ---------- the loop ----------

  /** What the decoder holds between chunks. */
  predicate Bounded<V>(st: Decoder<V>) {
    st.Running? ==>
      && |st.pending| <= MAX_PENDING_UTF8_BYTES
      && FindEventBoundary(st.buffer).None?
      && |st.buffer| <= MAX_SSE_EVENT_BYTES
  }

  lemma FedBounded<V>(parse: Parser<V>, st: Decoder<V>, chunk: bytes)
    requires Bounded(st)
    ensures Bounded(Feed(parse, st, chunk))
  {
    hide Drain, Utf8.Scan, FindEventBoundary;
    if st.Running? {
      var p := st.pending + chunk;
      DrainedRest(parse, st.buffer + p[..Utf8.Scan(p).0]);
    }
  }

  /** After every chunk that does not stop the stream. */
  lemma {:induction false} StateBounded<V>(parse: Parser<V>, st: Decoder<V>, chunks: seq<bytes>)
    requires Bounded(st)
    ensures Bounded(FeedAll(parse, st, chunks))
    decreases |chunks|
  {
    hide Feed, Bounded;
    if chunks != [] {
      FedBounded(parse, st, chunks[0]);
      StateBounded(parse, Feed(parse, st, chunks[0]), chunks[1..]);
    }
  }

  method DrainEvents<V>(parse: Parser<V>, text: bytes) returns (values: seq<V>, buffer: bytes, error: Option<Error>)
    ensures var d := Drain(parse, text);
      values == d.values && error == d.error && (error.None? ==> buffer == d.rest)
  {
    values, buffer, error := [], text, None;
    ghost var total := Drain(parse, text);
    var boundary := FindEventBoundary(buffer);
    assert [] + total.values == total.values;
    while boundary.Some?
      invariant boundary == FindEventBoundary(buffer)
      invariant total == After(values, Drain(parse, buffer))
      decreases |buffer|
    {
      hide FindEventBoundary, Drain;
      var (i, n) := boundary.value;
      BoundaryInside(buffer);
      DrainStep(parse, buffer, i, n, buffer[i + n..]);
      if i > MAX_SSE_EVENT_BYTES {
        error := Some(TooLarge);
        return;
      }
      var event := buffer[..i];
      buffer := buffer[i + n..];
      var parsed := parse(event);
      if parsed.None? {
        error := Some(BadJson);
        return;
      }
      AfterAssoc(values, parsed.value, Drain(parse, buffer));
      values := values + parsed.value;
      boundary := FindEventBoundary(buffer);
    }
    DrainNoBoundary(parse, buffer);
    if |buffer| > MAX_SSE_EVENT_BYTES { error := Some(TooLarge); }
  }

  method ParseEventStream<V>(parse: Parser<V>, chunks: seq<bytes>, broken: bool)
    returns (values: seq<V>, error: Option<Error>)
    ensures Outcome(values, error) == Decode(parse, chunks, broken)
  {
    hide Drain, Utf8.Scan, FindEventBoundary;
    var buffer: bytes, pending: bytes := [], [];
    values, error := [], None;
    NoBoundaryInNothing();
    var k := 0;
    while k < |chunks|
      invariant k <= |chunks|
      invariant FeedAll(parse, Start(), chunks) == FeedAll(parse, Running(values, buffer, pending), chunks[k..])
      invariant Bounded(Running(values, buffer, pending))
    {
      ghost var st := Running(values, buffer, pending);
      ghost var next := Feed(parse, st, chunks[k]);
      assert chunks[k..][1..] == chunks[k + 1..];
      FedBounded(parse, st, chunks[k]);
      pending := pending + chunks[k];
      var (n, status) := Utf8.Scan(pending);
      buffer := buffer + pending[..n];
      pending := pending[n..];
      if status.Broken? || |pending| > MAX_PENDING_UTF8_BYTES {
        FeedStopped(parse, next, chunks[k + 1..]);
        error := Some(InvalidUtf8);
        return;
      }
      var yielded, rest, failed := DrainEvents(parse, buffer);
      values := values + yielded;
      if failed.Some? {
        FeedStopped(parse, next, chunks[k + 1..]);
        error := failed;
        return;
      }
      buffer := rest;
      k := k + 1;
    }
    FeedAllNone(parse, Running(values, buffer, pending), chunks[k..]);
    if broken {
      error := Some(Transport);
    } else if pending != [] {
      error := Some(IncompleteUtf8);
    } else if buffer != [] {
      var parsed := parse(buffer);
      if parsed.None? {
        error := Some(BadJson);
      } else {
        values := values + parsed.value;
      }
    }
  }
}
