/** The RBRsolo memory image: a header, then a stream of 32-bit words holding readings and 8-byte event records. */
module SoloDecoder {
  import opened Basics
  import opened ClockSegments
  import opened SampleTiming

  const EVENT_MARKER: int := 0xF7
  const ERROR_MARKER: int := 0xF6

  /** The checksum stored with an event record; the laws below hold for every such function. */
  type Checksum = seq<byte> -> int

  datatype Header = Header(length: nat, loggerTime: nat, startTime: nat, periodMs: nat, features: nat)

  datatype DecodeError = BadChannelCount | TooShort | ImplausibleLength | UnsupportedFeatures | ImplausiblePeriod

  datatype Event = Event(offset: nat, kind: byte, seconds: nat, sampleIndex: nat, size: nat)

  /** `raw` holds the words of the sample sets row by row, nchan to a row. */
  datatype Decoded = Decoded(header: Header, nchan: nat, raw: seq<nat>, errorCode: seq<bool>, times: SetTimes,
                             events: seq<Event>, trailingBytes: nat, badEventWords: nat, setEndByte: seq<nat>)

  // ---- the header ----

  function U32(b: seq<byte>, at: nat): nat
    requires at + 4 <= |b|
  {
    b[at] as int + 0x100 * b[at + 1] as int + 0x1_0000 * b[at + 2] as int + 0x100_0000 * b[at + 3] as int
  }

  predicate Bit(x: nat, weight: nat)
    requires weight > 0
  {
    x / weight % 2 == 1
  }

  /** Averaging, bursts and wave bursts. */
  predicate Unsupported(features: nat) {
    Bit(features, 16) || Bit(features, 32) || Bit(features, 1024) || Bit(features, 2048)
  }

  function ParseHeader(image: seq<byte>): (r: Result<Header, DecodeError>)
    ensures r.Ok? ==> 64 <= r.value.length <= |image|
  {
    if |image| < 64 then Err(TooShort)
    else
      var length := U32(image, 0);
      if !(64 <= length <= |image|) || length % 4 != 0 then Err(ImplausibleLength)
      else Ok(Header(length, U32(image, 12), U32(image, 16), U32(image, 24), U32(image, 40)))
  }

  /** The checks made before any sample is read, in order. */
  function CheckImage(image: seq<byte>, nchan: nat): (r: Result<Header, DecodeError>)
    ensures r.Ok? ==> nchan > 0 && ParseHeader(image) == r && 64 <= r.value.length <= |image|
  {
    if nchan < 1 then Err(BadChannelCount)
    else
      match ParseHeader(image)
      case Err(e) => Err(e)
      case Ok(h) =>
        if Unsupported(h.features) then Err(UnsupportedFeatures)
        else if !(0 < h.periodMs < 86_400_000) then Err(ImplausiblePeriod)
        else Ok(h)
  }

  // ---- a word-by-word parser ----

  /** What a word (or pair of words) of the body is; `at` counts words. A Cut is a marker with no second word. */
  datatype Token = Reading(at: nat) | Record(at: nat) | Corrupt(at: nat) | Cut(at: nat)
  {
    function End(): nat {
      at + if Reading? || Cut? then 1 else 2
    }
  }

  predicate Marked(body: seq<byte>, i: nat)
    requires 4 * i + 4 <= |body|
  {
    body[4 * i + 3] == EVENT_MARKER
  }

  /** The two bytes before the record's type hold the checksum of the other six, high byte first. */
  predicate RecordOk(crc: Checksum, body: seq<byte>, i: nat)
    requires 4 * i + 8 <= |body|
  {
    0x100 * body[4 * i] as int + body[4 * i + 1] as int == crc(body[4 * i + 2..4 * i + 8])
  }

  /** The token at word i of a body of n words. */
  function TokenAt(crc: Checksum, body: seq<byte>, n: nat, i: nat): (t: Token)
    requires i < n && 4 * n <= |body|
    ensures t.at == i && t.End() <= n
  {
    if !Marked(body, i) then Reading(i)
    else if i + 1 >= n then Cut(i)
    else if RecordOk(crc, body, i) then Record(i)
    else Corrupt(i)
  }

  /** The reference parser: from word i on, one token after another. */
  function Scan(crc: Checksum, body: seq<byte>, n: nat, i: nat): seq<Token>
    requires i <= n && 4 * n <= |body|
    decreases n - i
  {
    if i == n then []
    else
      var t := TokenAt(crc, body, n, i);
      [t] + Scan(crc, body, n, t.End())
  }

  /** The word positions of the readings among some tokens. */
  function ReadingsOf(ts: seq<Token>): seq<nat> {
    if ts == [] then []
    else
      var last := ts[|ts| - 1];
      ReadingsOf(ts[..|ts| - 1]) + (if last.Reading? then [last.at] else [])
  }

  function CorruptOf(ts: seq<Token>): nat {
    if ts == [] then 0
    else CorruptOf(ts[..|ts| - 1]) + (if ts[|ts| - 1].Corrupt? then 1 else 0)
  }

  function EventAt(body: seq<byte>, base: nat, i: nat, sampleIndex: nat): Event
    requires 4 * i + 8 <= |body|
  {
    Event(base + 4 * i, body[4 * i + 2], U32(body, 4 * i + 4), sampleIndex, 8)
  }

  predicate Fit(ts: seq<Token>, body: seq<byte>) {
    forall k :: 0 <= k < |ts| ==> 4 * ts[k].End() <= |body|
  }

  /** The events among some tokens, each with the index of the sample set in progress or next. */
  function EventsOf(body: seq<byte>, base: nat, nchan: nat, ts: seq<Token>): seq<Event>
    requires nchan > 0 && Fit(ts, body)
  {
    if ts == [] then []
    else
      var init, last := ts[..|ts| - 1], ts[|ts| - 1];
      EventsOf(body, base, nchan, init) +
      (if last.Record? then [EventAt(body, base, last.at, |ReadingsOf(init)| / nchan)] else [])
  }

  /** Time sync, CPU reset, and the two restarts after a clock reset date the next sample set. */
  predicate IsAnchor(kind: byte) {
    kind in {0x01, 0x04, 0x0A, 0x0B}
  }

  function AnchorsOf(events: seq<Event>): (anchors: seq<Anchor>)
  {
    if events == [] then []
    else
      var e := events[|events| - 1];
      AnchorsOf(events[..|events| - 1]) +
      (if IsAnchor(e.kind) then [Anchor(e.sampleIndex, EPOCH2000_MS + 1000 * e.seconds, e.seconds)] else [])
  }

  /** The words at some positions. */
  function WordsAt(body: seq<byte>, p: seq<nat>): (r: seq<nat>)
    requires forall k :: 0 <= k < |p| ==> 4 * p[k] + 4 <= |body|
    ensures |r| == |p|
  {
    seq(|p|, k requires 0 <= k < |p| => U32(body, 4 * p[k]))
  }

  function ErrorCodes(body: seq<byte>, p: seq<nat>): (r: seq<bool>)
    requires forall k :: 0 <= k < |p| ==> 4 * p[k] + 4 <= |body|
    ensures |r| == |p|
  {
    seq(|p|, k requires 0 <= k < |p| => body[4 * p[k] + 3] == ERROR_MARKER)
  }

  /** Which reading, counted from 0, is the last of sample set i. */
  function LastReading(nchan: nat, i: nat): nat
    requires nchan > 0
  {
    i * nchan + nchan - 1
  }

  /** How many of n readings make up complete sample sets. */
  function Whole(n: nat, nchan: nat): (r: nat)
    requires nchan > 0
    ensures r <= n
  {
    n / nchan * nchan
  }

  /** A set is complete exactly when its last reading is there. */
  lemma CompleteSet(nchan: nat, i: nat, n: nat)
    requires nchan > 0
    ensures i < n / nchan <==> LastReading(nchan, i) < n
  {
    var q := n / nchan;
    if i < q {
      assert (i + 1) * nchan <= q * nchan;
    } else {
      assert (q + 1) * nchan <= (i + 1) * nchan;
    }
  }

  function SetEnd(base: nat, p: seq<nat>, nchan: nat, i: nat): nat
    requires nchan > 0 && i < |p| / nchan
  {
    CompleteSet(nchan, i, |p|);
    base + 4 * (p[LastReading(nchan, i)] + 1)
  }

  /** For each complete sample set, how long an image must be to hold all of it. */
  function SetEndBytes(base: nat, p: seq<nat>, nchan: nat): (r: seq<nat>)
    requires nchan > 0
    ensures |r| == |p| / nchan
  {
    seq(|p| / nchan, i requires 0 <= i < |p| / nchan => SetEnd(base, p, nchan, i))
  }

  // ---- the decoded image ----

  lemma {:induction false} ReadingsFit(ts: seq<Token>, body: seq<byte>)
    requires Fit(ts, body)
    ensures forall k :: 0 <= k < |ReadingsOf(ts)| ==> 4 * ReadingsOf(ts)[k] + 4 <= |body|
  {
    if ts != [] {
      ReadingsFit(ts[..|ts| - 1], body);
    }
  }

  lemma {:induction false} ScanFits(crc: Checksum, body: seq<byte>, n: nat, i: nat)
    requires i <= n && 4 * n <= |body|
    ensures Fit(Scan(crc, body, n, i), body)
    decreases n - i
  {
    if i < n {
      ScanFits(crc, body, n, TokenAt(crc, body, n, i).End());
    }
  }

  /** The readings and everything derived from them, from the tokens of a body. */
  function Assemble(h: Header, body: seq<byte>, nchan: nat, ts: seq<Token>): (d: Decoded)
    requires nchan > 0 && Fit(ts, body)
    ensures d.header == h && d.nchan == nchan
  {
    ReadingsFit(ts, body);
    var p := ReadingsOf(ts);
    var nsets := |p| / nchan;
    var used := p[..Whole(|p|, nchan)];
    var events := EventsOf(body, h.length, nchan, ts);
    Decoded(h, nchan, WordsAt(body, used), ErrorCodes(body, used),
            TimesOf(nsets, AnchorsOf(events), Clock(h.startTime, h.loggerTime, h.periodMs)),
            events, 4 * (|p| - Whole(|p|, nchan)) + |body| % 4, CorruptOf(ts), SetEndBytes(h.length, p, nchan))
  }

  function Tokens(crc: Checksum, body: seq<byte>): (ts: seq<Token>)
    ensures Fit(ts, body)
  {
    ScanFits(crc, body, |body| / 4, 0);
    Scan(crc, body, |body| / 4, 0)
  }

  /** The reference decoder, by the word-by-word parser. */
  function DecodeSpec(crc: Checksum, image: seq<byte>, nchan: nat): Result<Decoded, DecodeError> {
    match CheckImage(image, nchan)
    case Err(e) => Err(e)
    case Ok(h) => Ok(Assemble(h, image[h.length..], nchan, Tokens(crc, image[h.length..])))
  }
}
