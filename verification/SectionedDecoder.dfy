/** The memory image of a duet or concerto: 32-bit words that hold signed readings and event records of 8, 12 or 4*N
    bytes. A word that only looks like an event is kept as a reading. */
module SectionedDecoder {
  import opened Basics
  import opened ClockSegments
  import opened SampleTiming
  import opened SoloDecoder

  const LONG_MARKER: int := 0xF3
  const MS_MARKER: int := 0xF5

  datatype SectionedError = NoChannels | FeaturesUnsupported | PeriodImplausible | ShortLongRecord

  /** Averaging, bursts, tides and waves. */
  predicate UnsupportedHere(features: nat) {
    Bit(features, 16) || Bit(features, 32) || Bit(features, 64) || Bit(features, 128)
  }

  /** The checks made on a parsed header, in order. */
  function CheckHeader(h: Header, nstored: nat): (r: Option<SectionedError>)
    ensures r.None? ==> nstored > 0
  {
    if nstored < 1 then Some(NoChannels)
    else if UnsupportedHere(h.features) then Some(FeaturesUnsupported)
    else if !(0 < h.periodMs < 86_400_000) then Some(PeriodImplausible)
    else None
  }

  // ---- words ----

  function Top(body: seq<byte>, i: nat): byte
    requires 4 * i + 4 <= |body|
  {
    body[4 * i + 3]
  }

  predicate Candidate(body: seq<byte>, i: nat)
    requires 4 * i + 4 <= |body|
  {
    Top(body, i) == LONG_MARKER || Top(body, i) == MS_MARKER || Top(body, i) == EVENT_MARKER
  }

  /** Words of the record that word i would start; a long record says its own length in its eleventh byte. */
  function RecordWords(body: seq<byte>, i: nat): nat
    requires 4 * i + 4 <= |body|
  {
    if Top(body, i) == EVENT_MARKER then 2
    else if Top(body, i) == MS_MARKER then 3
    else if 4 * i + 10 < |body| then body[4 * i + 10]
    else 0
  }

  /** Word i starts an event record: of plausible length, whole, and with a good checksum over all but its first two
      bytes, which hold the checksum high byte first. */
  predicate Accepted(crc: Checksum, body: seq<byte>, i: nat)
    requires 4 * i + 4 <= |body|
  {
    && Candidate(body, i)
    && var size := 4 * RecordWords(body, i);
       && 8 <= size && 4 * i + size <= |body|
       && 0x100 * body[4 * i] as int + body[4 * i + 1] as int == crc(body[4 * i + 2..4 * i + size])
  }

  datatype Word = Value(at: nat) | Entry(at: nat, words: nat)
  {
    function End(): nat {
      if Value? then at + 1 else at + words
    }
  }

  function WordAt(crc: Checksum, body: seq<byte>, n: nat, i: nat): (t: Word)
    requires i < n && 4 * n <= |body| < 4 * n + 4
    ensures t.at == i && i < t.End() <= n
    ensures t.Entry? ==> t.words >= 2
  {
    if Accepted(crc, body, i) then Entry(i, RecordWords(body, i)) else Value(i)
  }

  /** The reference parser, word by word. */
  function Parse(crc: Checksum, body: seq<byte>, n: nat, i: nat): seq<Word>
    requires i <= n && 4 * n <= |body| < 4 * n + 4
    decreases n - i
  {
    if i == n then []
    else
      var t := WordAt(crc, body, n, i);
      [t] + Parse(crc, body, n, t.End())
  }

  // ---- what the parse yields ----

  function ReadingsIn(ts: seq<Word>): seq<nat> {
    if ts == [] then []
    else
      var last := ts[|ts| - 1];
      ReadingsIn(ts[..|ts| - 1]) + (if last.Value? then [last.at] else [])
  }

  /** Every token lies inside the body and every record has its at least two words. */
  predicate Within(ts: seq<Word>, body: seq<byte>) {
    forall k :: 0 <= k < |ts| ==> 4 * ts[k].End() <= |body| && (ts[k].Entry? ==> ts[k].words >= 2)
  }

  /** Readings that looked like events. */
  function BadMarkers(body: seq<byte>, ts: seq<Word>): nat
    requires Within(ts, body)
  {
    if ts == [] then 0
    else
      var last := ts[|ts| - 1];
      BadMarkers(body, ts[..|ts| - 1]) + (if last.Value? && Candidate(body, last.at) then 1 else 0)
  }

  /** A long record of two words has a good checksum but not the bytes it is read for: the decoder fails on it. */
  predicate Unreadable(body: seq<byte>, t: Word)
    requires 4 * t.End() <= |body|
  {
    t.Entry? && t.words == 2 && Top(body, t.at) == LONG_MARKER
  }

  predicate AnyUnreadable(body: seq<byte>, ts: seq<Word>)
    requires Within(ts, body)
  {
    exists k :: 0 <= k < |ts| && Unreadable(body, ts[k])
  }

  function EventOf(body: seq<byte>, base: nat, t: Word, index: nat): Event
    requires t.Entry? && t.words >= 2 && 4 * t.End() <= |body|
  {
    Event(base + 4 * t.at, body[4 * t.at + 2], U32(body, 4 * t.at + 4), index, 4 * t.words)
  }

  /** Milliseconds within the second, stored in the 12-byte and the long records. */
  function Milliseconds(body: seq<byte>, t: Word): nat
    requires t.Entry? && t.words >= 2 && 4 * t.End() <= |body|
  {
    if Top(body, t.at) != EVENT_MARKER && t.words >= 3
    then body[4 * t.at + 8] as int + 0x100 * body[4 * t.at + 9] as int
    else 0
  }

  /** Does the record date the next sample set? Long records say so in a flag bit, the others by their type. */
  predicate Anchors(body: seq<byte>, t: Word)
    requires t.Entry? && t.words >= 2 && 4 * t.End() <= |body|
  {
    if Top(body, t.at) == LONG_MARKER && t.words >= 3 then body[4 * t.at + 11] % 2 == 1
    else IsAnchor(body[4 * t.at + 2])
  }

  function AnchorFrom(body: seq<byte>, t: Word, index: nat): Anchor
    requires t.Entry? && t.words >= 2 && 4 * t.End() <= |body|
  {
    var seconds := U32(body, 4 * t.at + 4);
    Anchor(index, EPOCH2000_MS + 1000 * seconds + Milliseconds(body, t), seconds)
  }

  /** The events and the time anchors of some tokens. */
  datatype Marks = Marks(events: seq<Event>, anchors: seq<Anchor>)

  function MarksOf(body: seq<byte>, base: nat, nstored: nat, ts: seq<Word>): Marks
    requires nstored > 0 && Within(ts, body)
  {
    if ts == [] then Marks([], [])
    else
      var init, t := ts[..|ts| - 1], ts[|ts| - 1];
      var m := MarksOf(body, base, nstored, init);
      if t.Value? then m
      else
        var index := |ReadingsIn(init)| / nstored;
        Marks(m.events + [EventOf(body, base, t, index)],
              m.anchors + if Anchors(body, t) then [AnchorFrom(body, t, index)] else [])
  }

  lemma {:induction false} ReadingsInFit(ts: seq<Word>, body: seq<byte>)
    requires Within(ts, body)
    ensures forall k :: 0 <= k < |ReadingsIn(ts)| ==> 4 * ReadingsIn(ts)[k] + 4 <= |body|
  {
    if ts != [] {
      ReadingsInFit(ts[..|ts| - 1], body);
    }
  }

  lemma {:induction false} ParseWithin(crc: Checksum, body: seq<byte>, n: nat, i: nat)
    requires i <= n && 4 * n <= |body| < 4 * n + 4
    ensures Within(Parse(crc, body, n, i), body)
    decreases n - i
  {
    if i < n {
      ParseWithin(crc, body, n, WordAt(crc, body, n, i).End());
    }
  }

  function ParseAll(crc: Checksum, body: seq<byte>): (ts: seq<Word>)
    ensures Within(ts, body)
  {
    ParseWithin(crc, body, |body| / 4, 0);
    Parse(crc, body, |body| / 4, 0)
  }

  function Assembled(h: Header, body: seq<byte>, nstored: nat, ts: seq<Word>): (d: Decoded)
    requires nstored > 0 && Within(ts, body)
    ensures d.header == h && d.nchan == nstored
  {
    ReadingsInFit(ts, body);
    var p := ReadingsIn(ts);
    var nsets := |p| / nstored;
    var used := p[..Whole(|p|, nstored)];
    var marks := MarksOf(body, h.length, nstored, ts);
    Decoded(h, nstored, WordsAt(body, used), ErrorCodes(body, used),
            TimesOf(nsets, marks.anchors, Clock(h.startTime, h.loggerTime, h.periodMs)),
            marks.events, 4 * (|p| - Whole(|p|, nstored)) + |body| % 4, BadMarkers(body, ts),
            SetEndBytes(h.length, p, nstored))
  }

  /** The reference decoder, given the parsed header. */
  function DecodeSectioned(crc: Checksum, image: seq<byte>, h: Header, nstored: nat): Result<Decoded, SectionedError>
    requires h.length <= |image|
  {
    match CheckHeader(h, nstored)
    case Some(e) => Err(e)
    case None =>
      var body := image[h.length..];
      var ts := ParseAll(crc, body);
      if AnyUnreadable(body, ts) then Err(ShortLongRecord) else Ok(Assembled(h, body, nstored, ts))
  }
}
