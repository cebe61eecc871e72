/** Encoding readings and event records and decoding them back; what a garbled record costs; bytes conserved. */
module SoloRoundTrip {
  import opened Basics
  import opened ClockSegments
  import opened SampleTiming
  import opened SoloDecoder
  import opened SoloWalk
  import opened SoloLaws
  import opened DecodedTimes
  import opened Numbers

  /** What a logger appends: a reading, an event record, or eight bytes of a record gone bad. */
  datatype Item = Sample(value: word) | EventRecord(kind: byte, seconds: word) | Garbled(bytes: seq<byte>)

  ghost predicate IsCrc16(crc: Checksum) {
    forall s {:trigger crc(s)} :: 0 <= crc(s) < 0x1_0000
  }

  predicate Valid(crc: Checksum, x: Item) {
    match x
    case Sample(v) => v / 0x100_0000 != EVENT_MARKER
    case EventRecord(_, _) => true
    case Garbled(b) => |b| == 8 && b[3] == EVENT_MARKER && 0x100 * b[0] as int + b[1] as int != crc(b[2..8])
  }

  ghost predicate AllValid(crc: Checksum, items: seq<Item>) {
    forall k :: 0 <= k < |items| ==> Valid(crc, items[k])
  }

  function Words(x: Item): nat {
    if x.Sample? then 1 else 2
  }

  ghost function Encode(crc: Checksum, x: Item): (r: seq<byte>)
    requires IsCrc16(crc) && Valid(crc, x)
    ensures |r| == 4 * Words(x)
  {
    match x
    case Sample(v) => Bytes4(v)
    case EventRecord(kind, seconds) =>
      var tail := [kind, EVENT_MARKER] + Bytes4(seconds);
      [crc(tail) / 0x100, crc(tail) % 0x100] + tail
    case Garbled(b) => b
  }

  function TotalWords(items: seq<Item>): nat {
    if items == [] then 0 else TotalWords(items[..|items| - 1]) + Words(items[|items| - 1])
  }

  ghost function EncodeAll(crc: Checksum, items: seq<Item>): (r: seq<byte>)
    requires IsCrc16(crc) && AllValid(crc, items)
    ensures |r| == 4 * TotalWords(items)
  {
    if items == [] then []
    else EncodeAll(crc, items[..|items| - 1]) + Encode(crc, items[|items| - 1])
  }

  // ---- the parse of an encoded body ----

  function TokenOf(x: Item, at: nat): (t: Token)
    ensures t.at == at && t.End() == at + Words(x)
  {
    match x
    case Sample(_) => Reading(at)
    case EventRecord(_, _) => Record(at)
    case Garbled(_) => Corrupt(at)
  }

  function TokensOf(items: seq<Item>): (ts: seq<Token>)
    ensures |ts| == |items|
  {
    if items == [] then []
    else
      var init := items[..|items| - 1];
      TokensOf(init) + [TokenOf(items[|items| - 1], TotalWords(init))]
  }

  lemma {:induction false} TokensOfAt(items: seq<Item>, k: nat)
    requires k < |items|
    ensures TokensOf(items)[k] == TokenOf(items[k], TotalWords(items[..k]))
    ensures TotalWords(items[..k + 1]) == TotalWords(items[..k]) + Words(items[k]) <= TotalWords(items)
  {
    var m := |items| - 1;
    assert items[..m + 1] == items;
    if k < m {
      TokensOfAt(items[..m], k);
      assert items[..m][..k] == items[..k] && items[..m][..k + 1] == items[..k + 1];
    }
  }

  lemma EncodedPrefix(crc: Checksum, items: seq<Item>, body: seq<byte>)
    requires IsCrc16(crc) && AllValid(crc, items) && EncodeAll(crc, items) <= body && items != []
    ensures var init := items[..|items| - 1];
            && EncodeAll(crc, init) <= body && 4 * TotalWords(items) <= |body|
            && body[4 * TotalWords(init)..4 * TotalWords(items)] == Encode(crc, items[|items| - 1])
  {
    hide Encode;
    var e := EncodeAll(crc, items);
    assert body[..|e|] == e;
  }

  lemma {:induction false} EncodedSlice(crc: Checksum, items: seq<Item>, k: nat)
    requires IsCrc16(crc) && AllValid(crc, items) && k < |items|
    ensures TotalWords(items[..k]) + Words(items[k]) <= TotalWords(items)
    ensures var at := 4 * TotalWords(items[..k]);
            EncodeAll(crc, items)[at..at + 4 * Words(items[k])] == Encode(crc, items[k])
  {
    hide Encode, EncodeAll, IsCrc16;
    TokensOfAt(items, k);
    EncodedPrefix(crc, items, EncodeAll(crc, items));
    var m := |items| - 1;
    if k < m {
      EncodedSlice(crc, items[..m], k);
      assert items[..m][..k] == items[..k];
      var at := 4 * TotalWords(items[..k]);
      SliceOfPrefix(EncodeAll(crc, items[..m]), EncodeAll(crc, items), at, at + 4 * Words(items[k]));
    }
  }

  lemma RecordEncoded(crc: Checksum, x: Item)
    requires IsCrc16(crc) && Valid(crc, x)
    ensures var e := Encode(crc, x);
            match x
            case Sample(_) => e[3] != EVENT_MARKER
            case EventRecord(kind, seconds) => && e[3] == EVENT_MARKER && e[2] == kind && e[4..8] == Bytes4(seconds)
                                               && 0x100 * e[0] as int + e[1] as int == crc(e[2..8])
            case Garbled(_) => e[3] == EVENT_MARKER && 0x100 * e[0] as int + e[1] as int != crc(e[2..8])
  {
    if x.EventRecord? {
      var tail := [x.kind, EVENT_MARKER] + Bytes4(x.seconds);
      assert Encode(crc, x)[2..8] == tail;
    }
  }

  /** An encoded item is parsed as what it is. */
  lemma ItemParses(crc: Checksum, body: seq<byte>, n: nat, x: Item, at: nat)
    requires IsCrc16(crc) && Valid(crc, x) && 4 * n <= |body| && at + Words(x) <= n
    requires body[4 * at..4 * (at + Words(x))] == Encode(crc, x)
    ensures TokenAt(crc, body, n, at) == TokenOf(x, at)
  {
    hide Encode, IsCrc16;
    var e := body[4 * at..4 * (at + Words(x))];
    RecordEncoded(crc, x);
    assert body[4 * at + 3] == e[3];
    if !x.Sample? {
      assert body[4 * at] == e[0] && body[4 * at + 1] == e[1];
      SliceOfSlice(body, 4 * at, 4 * at + 8, 2, 8);
    }
  }

  lemma {:induction false} ScanEncoded(crc: Checksum, items: seq<Item>, k: nat)
    requires IsCrc16(crc) && AllValid(crc, items) && k <= |items|
    ensures TotalWords(items[..k]) <= TotalWords(items)
    ensures Scan(crc, EncodeAll(crc, items), TotalWords(items), TotalWords(items[..k])) == TokensOf(items)[k..]
    decreases |items| - k
  {
    hide Encode, EncodeAll, TokenAt;
    var body, n := EncodeAll(crc, items), TotalWords(items);
    if k == |items| {
      assert items[..k] == items;
    } else {
      var at := TotalWords(items[..k]);
      TokensOfAt(items, k);
      EncodedSlice(crc, items, k);
      ItemParses(crc, body, n, items[k], at);
      ScanEncoded(crc, items, k + 1);
      assert TokensOf(items)[k..] == [TokensOf(items)[k]] + TokensOf(items)[k + 1..];
    }
  }

  // ---- what the decoder makes of it ----

  function Values(items: seq<Item>): (values: seq<word>) {
    if items == [] then []
    else
      var x := items[|items| - 1];
      Values(items[..|items| - 1]) + (if x.Sample? then [x.value] else [])
  }

  /** How many sample sets the items complete. */
  function SetsIn(items: seq<Item>, nchan: nat): nat
    requires nchan > 0
  {
    |Values(items)| / nchan
  }

  function GarbledCount(items: seq<Item>): nat {
    if items == [] then 0
    else GarbledCount(items[..|items| - 1]) + (if items[|items| - 1].Garbled? then 1 else 0)
  }

  /** The events put in, each before the samples that follow it. */
  function ItemEvents(items: seq<Item>, base: nat, nchan: nat): seq<Event>
    requires nchan > 0
  {
    if items == [] then []
    else
      var init, x := items[..|items| - 1], items[|items| - 1];
      ItemEvents(init, base, nchan) +
      (if x.EventRecord?
       then [Event(base + 4 * TotalWords(init), x.kind, x.seconds, SetsIn(init, nchan), 8)]
       else [])
  }

  ghost predicate Reads(body: seq<byte>, p: seq<nat>, values: seq<word>) {
    && |p| == |values|
    && forall k :: 0 <= k < |p| ==> 4 * p[k] + 4 <= |body| && body[4 * p[k]..4 * p[k] + 4] == Bytes4(values[k])
  }

  lemma SampleEncoded(crc: Checksum, x: Item)
    requires IsCrc16(crc) && Valid(crc, x)
    ensures x.Sample? ==> Encode(crc, x) == Bytes4(x.value)
  {
  }

  lemma {:induction false} ReadingsEncoded(crc: Checksum, items: seq<Item>, body: seq<byte>)
    requires IsCrc16(crc) && AllValid(crc, items) && EncodeAll(crc, items) <= body
    ensures Reads(body, ReadingsOf(TokensOf(items)), Values(items))
    ensures CorruptOf(TokensOf(items)) == GarbledCount(items)
  {
    hide EncodeAll, Encode, Bytes4, IsCrc16, Reads, ReadingsOf, CorruptOf, Values, GarbledCount;
    if items == [] {
      NoReadings(body);
    } else {
      var init, x := items[..|items| - 1], items[|items| - 1];
      EncodedPrefix(crc, items, body);
      ReadingsEncoded(crc, init, body);
      SampleEncoded(crc, x);
      OneMoreReading(items, body);
      OneMoreCorrupt(items);
    }
  }

  lemma NoReadings(body: seq<byte>)
    ensures Reads(body, ReadingsOf(TokensOf([])), Values([])) && CorruptOf(TokensOf([])) == GarbledCount([])
  {
  }

  lemma OneMoreReading(items: seq<Item>, body: seq<byte>)
    requires items != []
    requires var init, x := items[..|items| - 1], items[|items| - 1];
             && Reads(body, ReadingsOf(TokensOf(init)), Values(init))
             && (x.Sample? ==> var at := 4 * TotalWords(init); at + 4 <= |body| && body[at..at + 4] == Bytes4(x.value))
    ensures Reads(body, ReadingsOf(TokensOf(items)), Values(items))
  {
    hide TotalWords, Bytes4, Reads;
    var init, x := items[..|items| - 1], items[|items| - 1];
    assert TokensOf(items)[..|items| - 1] == TokensOf(init);
    if x.Sample? {
      assert ReadingsOf(TokensOf(items)) == ReadingsOf(TokensOf(init)) + [TotalWords(init)];
      assert Values(items) == Values(init) + [x.value];
      ReadsOn(body, ReadingsOf(TokensOf(init)), Values(init), TotalWords(init), x.value);
    } else {
      assert ReadingsOf(TokensOf(items)) == ReadingsOf(TokensOf(init)) && Values(items) == Values(init);
    }
  }

  lemma ReadsOn(body: seq<byte>, p: seq<nat>, values: seq<word>, at: nat, value: word)
    requires Reads(body, p, values) && 4 * at + 4 <= |body| && body[4 * at..4 * at + 4] == Bytes4(value)
    ensures Reads(body, p + [at], values + [value])
  {
    hide Bytes4;
  }

  lemma OneMoreCorrupt(items: seq<Item>)
    requires items != [] && CorruptOf(TokensOf(items[..|items| - 1])) == GarbledCount(items[..|items| - 1])
    ensures CorruptOf(TokensOf(items)) == GarbledCount(items)
  {
    hide TotalWords;
    assert TokensOf(items)[..|items| - 1] == TokensOf(items[..|items| - 1]);
  }

  lemma {:induction false} EventsEncoded(crc: Checksum, items: seq<Item>, body: seq<byte>, base: nat, nchan: nat)
    requires IsCrc16(crc) && AllValid(crc, items) && EncodeAll(crc, items) <= body && nchan > 0
    ensures Fit(TokensOf(items), body)
    ensures EventsOf(body, base, nchan, TokensOf(items)) == ItemEvents(items, base, nchan)
  {
    hide EncodeAll, Encode, ReadingsOf, Values, Reads, U32, IsCrc16;
    if items != [] {
      var init, x := items[..|items| - 1], items[|items| - 1];
      EncodedPrefix(crc, items, body);
      EventsEncoded(crc, init, body, base, nchan);
      assert TokensOf(items)[..|items| - 1] == TokensOf(init);
      ReadingsCount(crc, init, body);
      if x.EventRecord? {
        EventDecodes(crc, items, body);
      }
    }
  }

  lemma ReadingsCount(crc: Checksum, items: seq<Item>, body: seq<byte>)
    requires IsCrc16(crc) && AllValid(crc, items) && EncodeAll(crc, items) <= body
    ensures |ReadingsOf(TokensOf(items))| == |Values(items)|
  {
    hide Values, ReadingsOf;
    ReadingsEncoded(crc, items, body);
  }

  lemma EventDecodes(crc: Checksum, items: seq<Item>, body: seq<byte>)
    requires IsCrc16(crc) && AllValid(crc, items) && EncodeAll(crc, items) <= body
    requires items != [] && items[|items| - 1].EventRecord?
    ensures var at, x := TotalWords(items[..|items| - 1]), items[|items| - 1];
            && 4 * at + 8 <= |body| && body[4 * at + 2] == x.kind && U32(body, 4 * at + 4) == x.seconds
  {
    hide EncodeAll, Encode, IsCrc16, U32, Bytes4;
    var at, x := TotalWords(items[..|items| - 1]), items[|items| - 1];
    EncodedPrefix(crc, items, body);
    RecordEncoded(crc, x);
    var e := body[4 * at..4 * at + 8];
    assert e == Encode(crc, x);
    assert body[4 * at + 4..4 * at + 8] == e[4..8] == Bytes4(x.seconds);
    ReadsBack(body, 4 * at + 4, x.seconds);
  }

  /** A reading that carries an error code instead of a value. */
  function ErrorMarks(values: seq<word>): (r: seq<bool>) {
    seq(|values|, k requires 0 <= k < |values| => values[k] / 0x100_0000 == 0xF6)
  }

  /** d holds what was put in: every reading in order as far as whole sample sets go, every event in order before the
      samples that followed it, times that follow from the events, and a count of the garbled records. */
  ghost predicate Recovers(d: Decoded, items: seq<Item>, base: nat)
    requires d.nchan > 0
  {
    var values := Values(items);
    var used := |values| - |values| % d.nchan;
    && d.raw == values[..used]
    && d.errorCode == ErrorMarks(values)[..used]
    && d.events == ItemEvents(items, base, d.nchan)
    && DatedByEvents(d.times, |values| / d.nchan, d.events,
                     Clock(d.header.startTime, d.header.loggerTime, d.header.periodMs))
    && d.badEventWords == GarbledCount(items)
    && d.trailingBytes == 4 * (|values| % d.nchan)
  }

  /** The reference decoder in terms of what was put in. */
  lemma EncodedDecodes(crc: Checksum, head: seq<byte>, items: seq<Item>, h: Header, nchan: nat)
    requires IsCrc16(crc) && AllValid(crc, items) && |head| == h.length
    requires CheckImage(head + EncodeAll(crc, items), nchan) == Ok(h)
    ensures var r := DecodeSpec(crc, head + EncodeAll(crc, items), nchan);
            && r.Ok? && r.value.header == h && r.value.nchan == nchan
            && Recovers(r.value, items, |head|)
            && r.value.times == TimesOf(|Values(items)| / nchan, AnchorsOf(r.value.events),
                                        Clock(h.startTime, h.loggerTime, h.periodMs))
  {
    hide ReadingsOf, EventsOf, CorruptOf, AnchorsOf, TimesOf, SetEndBytes, ParseHeader, Scan, EncodeAll, ItemEvents,
         Values, GarbledCount, TokensOf, WordsAt, ErrorCodes, ErrorMarks, AllValid, IsCrc16, DatedByEvents, IsDated,
         Whole, Reads;
    var image := head + EncodeAll(crc, items);
    var body := image[|head|..];
    assert body == EncodeAll(crc, items);
    ScanEncoded(crc, items, 0);
    ReadingsEncoded(crc, items, body);
    EventsEncoded(crc, items, body, |head|, nchan);
    assert items[..0] == [];
    assert TokensOf(items)[0..] == TokensOf(items) == Tokens(crc, body);
    ReadsValues(body, ReadingsOf(TokensOf(items)), Values(items));
    WholeIs(|Values(items)|, nchan);
    var n, clock := |Values(items)| / nchan, Clock(h.startTime, h.loggerTime, h.periodMs);
    EventsOrdered(body, |head|, nchan, TokensOf(items));
    var events := EventsOf(body, |head|, nchan, TokensOf(items));
    AnchorsAreOrdered(events, n);
    TimesAreDated(n, AnchorsOf(events), clock);
    EventsDateSets(TimesOf(n, AnchorsOf(events), clock), n, events, clock);
  }

  lemma WholeIs(n: nat, nchan: nat)
    requires nchan > 0
    ensures Whole(n, nchan) == n - n % nchan
  {
  }

  lemma ReadsValues(body: seq<byte>, p: seq<nat>, values: seq<word>)
    requires Reads(body, p, values)
    ensures WordsAt(body, p) == values
    ensures forall m :: 0 <= m <= |p| ==> WordsAt(body, p[..m]) == values[..m]
    ensures forall m :: 0 <= m <= |p| ==> ErrorCodes(body, p[..m]) == ErrorMarks(values)[..m]
  {
    hide U32, Bytes4;
    forall k | 0 <= k < |p|
      ensures U32(body, 4 * p[k]) == values[k] && body[4 * p[k] + 3] == values[k] / 0x100_0000
    {
      ReadsBack(body, 4 * p[k], values[k]);
    }
  }

  // ---- the header ----

  /** The header's fields are written at their places: its own length, when the logger was enabled, the programmed
      start, the sampling period and the sampling features. */
  ghost predicate Written(head: seq<byte>, h: Header) {
    && |head| >= 64
    && WrittenAt(head, 0, h.length) && WrittenAt(head, 12, h.loggerTime) && WrittenAt(head, 16, h.startTime)
    && WrittenAt(head, 24, h.periodMs) && WrittenAt(head, 40, h.features)
  }

  ghost predicate WrittenAt(head: seq<byte>, at: nat, x: nat) {
    x < 0x1_0000_0000 && at + 4 <= |head| && head[at..at + 4] == Bytes4(x)
  }

  /** A header's fields are read as they were written, wherever its length is plausible. */
  lemma HeaderReadsBack(image: seq<byte>, h: Header)
    requires Written(image, h)
    ensures ParseHeader(image) ==
            if 64 <= h.length <= |image| && h.length % 4 == 0 then Ok(h) else Err(ImplausibleLength)
  {
    hide U32, Bytes4;
    ReadsBack(image, 0, h.length);
    ReadsBack(image, 12, h.loggerTime);
    ReadsBack(image, 16, h.startTime);
    ReadsBack(image, 24, h.periodMs);
    ReadsBack(image, 40, h.features);
  }

  /** x is a sum of distinct powers of two, and `weight` is one of them. */
  ghost predicate HasBit(x: nat, weight: nat) {
    exists above: nat :: HasBitBelow(x, weight, above)
  }

  ghost predicate HasBitBelow(x: nat, weight: nat, above: nat) {
    2 * weight * above + weight <= x < 2 * weight * above + 2 * weight
  }

  /** No averaging, bursts or wave bursts. */
  ghost predicate Supported(h: Header) {
    !HasBit(h.features, 16) && !HasBit(h.features, 32) && !HasBit(h.features, 1024) && !HasBit(h.features, 2048)
  }

  lemma BitExactly(x: nat, weight: nat)
    requires weight > 0
    ensures Bit(x, weight) <==> HasBit(x, weight)
  {
    if Bit(x, weight) {
      BitSplits(x, weight);
    }
    if HasBit(x, weight) {
      var above: nat :| HasBitBelow(x, weight, above);
      assert weight * (2 * above + 1) == 2 * weight * above + weight;
      QuotientIs(x, weight, 2 * above + 1, x - weight * (2 * above + 1));
    }
  }

  lemma BitSplits(x: nat, weight: nat)
    requires weight > 0 && Bit(x, weight)
    ensures HasBit(x, weight)
  {
    var q, below := x / weight, x % weight;
    var above := q / 2;
    assert x == weight * q + below && q == 2 * above + 1;
    assert weight * q == 2 * weight * above + weight;
    assert HasBitBelow(x, weight, above);
  }

  lemma QuotientIs(x: nat, d: nat, q: nat, r: nat)
    requires x == d * q + r && r < d
    ensures x / d == q
  {
    var k := x / d - q;
    assert d * k == d * (x / d) - d * q == r - x % d;
    SmallMultiple(k, d);
  }

  lemma SmallMultiple(k: int, d: nat)
    requires 0 < d + d * k < 2 * d
    ensures k == 0
  {
  }

  /** The checks before decoding, in terms of the header written: all of them, in order. */
  lemma HeaderChecked(image: seq<byte>, h: Header, nchan: nat)
    requires Written(image, h)
    ensures CheckImage(image, nchan) ==
            if nchan == 0 then Err(BadChannelCount)
            else if !(64 <= h.length <= |image| && h.length % 4 == 0) then Err(ImplausibleLength)
            else if !Supported(h) then Err(UnsupportedFeatures)
            else if !(0 < h.periodMs < 86_400_000) then Err(ImplausiblePeriod)
            else Ok(h)
  {
    hide ParseHeader, Bit, HasBit;
    HeaderReadsBack(image, h);
    BitExactly(h.features, 16);
    BitExactly(h.features, 32);
    BitExactly(h.features, 1024);
    BitExactly(h.features, 2048);
  }

  /** A header as an RBRsolo writes it. */
  ghost predicate IsHeader(head: seq<byte>, h: Header) {
    && Written(head, h) && |head| == h.length && h.length % 4 == 0 && Supported(h) && 0 < h.periodMs < 86_400_000
  }

  lemma HeaderFirst(head: seq<byte>, rest: seq<byte>, h: Header, nchan: nat)
    requires IsHeader(head, h) && nchan > 0
    ensures CheckImage(head + rest, nchan) == Ok(h)
  {
    hide Bytes4, Supported, CheckImage;
    var image := head + rest;
    assert image[0..4] == head[0..4] && image[12..16] == head[12..16] && image[16..20] == head[16..20];
    assert image[24..28] == head[24..28] && image[40..44] == head[40..44];
    HeaderChecked(image, h, nchan);
  }

  /** Decoding returns what was written: the header's numbers, and then the readings and events. */
  lemma EncodedDecodesBack(crc: Checksum, head: seq<byte>, items: seq<Item>, h: Header, nchan: nat)
    requires IsCrc16(crc) && AllValid(crc, items) && IsHeader(head, h) && nchan > 0
    ensures var r := DecodeSpec(crc, head + EncodeAll(crc, items), nchan);
            r.Ok? && r.value.header == h && r.value.nchan == nchan && Recovers(r.value, items, |head|)
  {
    hide DecodeSpec, Recovers, EncodeAll, IsCrc16, AllValid, CheckImage, Written, Supported;
    HeaderFirst(head, EncodeAll(crc, items), h, nchan);
    EncodedDecodes(crc, head, items, h, nchan);
  }

  // ---- a corrupt record costs its own two words ----

  lemma {:induction false} GarbledAddsNoSample(xs: seq<Item>, g: Item, ys: seq<Item>)
    requires g.Garbled?
    ensures Values(xs + [g] + ys) == Values(xs + ys)
    ensures GarbledCount(xs + [g] + ys) == GarbledCount(xs + ys) + 1
    decreases |ys|
  {
    var a, b := xs + [g] + ys, xs + ys;
    assert a[..|a| - 1] == if ys == [] then xs else xs + [g] + ys[..|ys| - 1];
    if ys == [] {
      assert b == xs;
    } else {
      assert b[..|b| - 1] == xs + ys[..|ys| - 1];
      GarbledAddsNoSample(xs, g, ys[..|ys| - 1]);
    }
  }

  /** The time anchors put in. */
  function ItemAnchors(items: seq<Item>, nchan: nat): seq<Anchor>
    requires nchan > 0
  {
    if items == [] then []
    else
      var init, x := items[..|items| - 1], items[|items| - 1];
      ItemAnchors(init, nchan) +
      (if x.EventRecord? && IsAnchor(x.kind)
       then [Anchor(SetsIn(init, nchan), EPOCH2000_MS + 1000 * x.seconds, x.seconds)] else [])
  }

  lemma {:induction false} AnchorsPutIn(items: seq<Item>, base: nat, nchan: nat)
    requires nchan > 0
    ensures AnchorsOf(ItemEvents(items, base, nchan)) == ItemAnchors(items, nchan)
  {
    hide Values, SetsIn, AnchorsOf, TotalWords;
    if items != [] {
      var init, x := items[..|items| - 1], items[|items| - 1];
      AnchorsPutIn(init, base, nchan);
      var before, all := ItemEvents(init, base, nchan), ItemEvents(items, base, nchan);
      if x.EventRecord? {
        var e := Event(base + 4 * TotalWords(init), x.kind, x.seconds, SetsIn(init, nchan), 8);
        assert all == before + [e];
        OneMoreAnchor(before, e);
      } else {
        assert all == before;
      }
    } else {
      NoAnchors();
    }
  }

  lemma NoAnchors()
    ensures AnchorsOf([]) == []
  {
  }

  lemma OneMoreAnchor(events: seq<Event>, e: Event)
    ensures AnchorsOf(events + [e]) == AnchorsOf(events) +
              (if IsAnchor(e.kind) then [Anchor(e.sampleIndex, EPOCH2000_MS + 1000 * e.seconds, e.seconds)] else [])
  {
    assert (events + [e])[..|events|] == events;
  }

  lemma {:induction false} GarbledAddsNoAnchor(xs: seq<Item>, g: Item, ys: seq<Item>, nchan: nat)
    requires nchan > 0 && g.Garbled?
    ensures ItemAnchors(xs + [g] + ys, nchan) == ItemAnchors(xs + ys, nchan)
    decreases |ys|
  {
    hide Values;
    var a, b := xs + [g] + ys, xs + ys;
    assert a[..|a| - 1] == if ys == [] then xs else xs + [g] + ys[..|ys| - 1];
    if ys == [] {
      assert b == xs;
    } else {
      assert b[..|b| - 1] == xs + ys[..|ys| - 1];
      GarbledAddsNoAnchor(xs, g, ys[..|ys| - 1], nchan);
      GarbledAddsNoSample(xs, g, ys[..|ys| - 1]);
    }
  }

  /** The events, those from the m-th on eight bytes further into the image. */
  function Moved(events: seq<Event>, m: nat): (r: seq<Event>)
    ensures |r| == |events|
  {
    seq(|events|, k requires 0 <= k < |events| =>
      if k < m then events[k] else events[k].(offset := events[k].offset + 8))
  }

  lemma MovedConcat(es: seq<Event>, more: seq<Event>, m: nat)
    requires m <= |es|
    ensures Moved(es + more, m) == Moved(es, m) + Moved(more, 0)
  {
  }

  /** The events of an item that comes after n words and the items `init`. */
  function LastEvents(init: seq<Item>, x: Item, n: nat, base: nat, nchan: nat): seq<Event>
    requires nchan > 0
  {
    if x.EventRecord? then [Event(base + 4 * n, x.kind, x.seconds, SetsIn(init, nchan), 8)] else []
  }

  lemma {:induction false} GarbledMovesEvents(xs: seq<Item>, g: Item, ys: seq<Item>, base: nat, nchan: nat)
    requires nchan > 0 && g.Garbled?
    ensures |ItemEvents(xs, base, nchan)| <= |ItemEvents(xs + ys, base, nchan)|
    ensures ItemEvents(xs + [g] + ys, base, nchan) ==
            Moved(ItemEvents(xs + ys, base, nchan), |ItemEvents(xs, base, nchan)|)
    ensures TotalWords(xs + [g] + ys) == TotalWords(xs + ys) + 2
    decreases |ys|
  {
    hide Values;
    var a, b := xs + [g] + ys, xs + ys;
    if ys == [] {
      assert b == xs && a[..|a| - 1] == xs;
    } else {
      var init := ys[..|ys| - 1];
      assert b[..|b| - 1] == xs + init && a[..|a| - 1] == xs + [g] + init;
      GarbledMovesEvents(xs, g, init, base, nchan);
      GarbledAddsNoSample(xs, g, init);
      var x, n := ys[|ys| - 1], TotalWords(xs + init);
      hide Moved;
      MovedConcat(ItemEvents(xs + init, base, nchan), LastEvents(xs + init, x, n, base, nchan),
                  |ItemEvents(xs, base, nchan)|);
      LastMoved(xs, g, init, x, n, base, nchan);
    }
  }

  lemma LastMoved(xs: seq<Item>, g: Item, init: seq<Item>, x: Item, n: nat, base: nat, nchan: nat)
    requires nchan > 0
    requires Values(xs + [g] + init) == Values(xs + init)
    ensures Moved(LastEvents(xs + init, x, n, base, nchan), 0) ==
            LastEvents(xs + [g] + init, x, n + 2, base, nchan)
  {
    hide Values;
  }

  /** A record whose checksum fails removes its own two words and nothing else: the readings, their error codes, their
      times, the events and the trailing bytes are those of the same stream without it, but for the place in the image
      of the events that follow it. */
  lemma GarbledRecordVanishes(crc: Checksum, head: seq<byte>, xs: seq<Item>, g: Item, ys: seq<Item>, h: Header,
                              nchan: nat)
    requires IsCrc16(crc) && AllValid(crc, xs + ys) && AllValid(crc, xs + [g] + ys) && g.Garbled?
    requires IsHeader(head, h) && nchan > 0
    ensures DecodeSpec(crc, head + EncodeAll(crc, xs + ys), nchan).Ok?
    ensures DecodeSpec(crc, head + EncodeAll(crc, xs + [g] + ys), nchan).Ok?
    ensures var clean, bad := DecodeSpec(crc, head + EncodeAll(crc, xs + ys), nchan).value,
                              DecodeSpec(crc, head + EncodeAll(crc, xs + [g] + ys), nchan).value;
            && bad.raw == clean.raw && bad.errorCode == clean.errorCode && bad.times == clean.times
            && bad.badEventWords == clean.badEventWords + 1 && bad.trailingBytes == clean.trailingBytes
            && bad.events == Moved(clean.events, |ItemEvents(xs, |head|, nchan)|)
            && ItemEvents(xs, |head|, nchan) <= clean.events
  {
    hide EncodeAll, DecodeSpec, Values, GarbledCount, ItemEvents, AnchorsOf, TimesOf, CheckImage, Written, Supported,
         IsCrc16, ItemAnchors, AllValid, Moved, DatedByEvents;
    HeaderFirst(head, EncodeAll(crc, xs + ys), h, nchan);
    HeaderFirst(head, EncodeAll(crc, xs + [g] + ys), h, nchan);
    EncodedDecodes(crc, head, xs + ys, h, nchan);
    EncodedDecodes(crc, head, xs + [g] + ys, h, nchan);
    EventsBefore(xs, ys, |head|, nchan);
    GarbledMovesEvents(xs, g, ys, |head|, nchan);
    GarbledAddsNoSample(xs, g, ys);
    GarbledAddsNoAnchor(xs, g, ys, nchan);
    AnchorsPutIn(xs + ys, |head|, nchan);
    AnchorsPutIn(xs + [g] + ys, |head|, nchan);
  }

  lemma {:induction false} EventsBefore(xs: seq<Item>, ys: seq<Item>, base: nat, nchan: nat)
    requires nchan > 0
    ensures ItemEvents(xs, base, nchan) <= ItemEvents(xs + ys, base, nchan)
    decreases |ys|
  {
    hide Values;
    if ys == [] {
      assert xs + ys == xs;
    } else {
      assert (xs + ys)[..|xs| + |ys| - 1] == xs + ys[..|ys| - 1];
      EventsBefore(xs, ys[..|ys| - 1], base, nchan);
    }
  }

  // ---- bytes conserved ----

  function CutOf(ts: seq<Token>): nat {
    if ts == [] then 0 else CutOf(ts[..|ts| - 1]) + (if ts[|ts| - 1].Cut? then 1 else 0)
  }

  lemma {:induction false} TilesAddUp(body: seq<byte>, base: nat, nchan: nat, ts: seq<Token>, lo: nat, hi: nat)
    requires nchan > 0 && Fit(ts, body) && Tiles(ts, lo, hi)
    ensures hi - lo == |ReadingsOf(ts)| + 2 * (|EventsOf(body, base, nchan, ts)| + CorruptOf(ts)) + CutOf(ts)
  {
    if ts != [] {
      TilesAddUp(body, base, nchan, ts[..|ts| - 1], lo, ts[|ts| - 1].at);
    }
  }

  lemma {:induction false} CutIsLast(crc: Checksum, body: seq<byte>, n: nat, i: nat)
    requires i <= n && 4 * n <= |body|
    ensures var ts := Scan(crc, body, n, i);
            CutOf(ts) == if ts != [] && ts[|ts| - 1].Cut? then 1 else 0
    decreases n - i
  {
    if i < n {
      var t := TokenAt(crc, body, n, i);
      CutIsLast(crc, body, n, t.End());
      CutOfConcat(t, Scan(crc, body, n, t.End()));
    }
  }

  lemma {:induction false} CutOfConcat(t: Token, ts: seq<Token>)
    ensures CutOf([t] + ts) == (if t.Cut? then 1 else 0) + CutOf(ts)
  {
    if ts == [] {
      assert [t] + ts == [t] && [t][..0] == [];
    } else {
      assert ([t] + ts)[..|ts|] == [t] + ts[..|ts| - 1];
      CutOfConcat(t, ts[..|ts| - 1]);
    }
  }

  /** The body ends in an event marker whose second word is missing. */
  predicate EndsCut(crc: Checksum, body: seq<byte>) {
    var ts := Tokens(crc, body);
    ts != [] && ts[|ts| - 1].Cut?
  }

  /** Every byte of the image is accounted for: header, sample sets, event records, corrupt records and trailing
      bytes, exactly when the image does not end in a marker word cut off from its record; that word goes uncounted. */
  lemma BytesConserved(crc: Checksum, image: seq<byte>, nchan: nat)
    requires DecodeSpec(crc, image, nchan).Ok?
    ensures var d := DecodeSpec(crc, image, nchan).value;
            var counted := d.header.length + 4 * |d.raw| + 8 * (|d.events| + d.badEventWords) + d.trailingBytes;
            && (|image| == counted <==> !EndsCut(crc, image[d.header.length..]))
            && counted <= |image| <= counted + 4
  {
    hide ReadingsOf, EventsOf, CorruptOf, AnchorsOf, TimesOf, SetEndBytes, ParseHeader, Scan, CutOf;
    var h := CheckImage(image, nchan).value;
    var body := image[h.length..];
    var ts := Tokens(crc, body);
    ScanTiles(crc, body, |body| / 4, 0);
    TilesAddUp(body, h.length, nchan, ts, 0, |body| / 4);
    CutIsLast(crc, body, |body| / 4, 0);
  }

  /** A 64-byte header with a 1 ms period, followed by one lone marker word. */
  function LoneMarker(): (image: seq<byte>)
    ensures |image| == 68
  {
    seq(68, i => if i == 0 then 64 else if i == 24 then 1 else if i == 67 then EVENT_MARKER else 0)
  }

  /** The uncounted word does occur. */
  lemma LoneMarkerUncounted(crc: Checksum)
    ensures DecodeSpec(crc, LoneMarker(), 1).Ok?
    ensures var d := DecodeSpec(crc, LoneMarker(), 1).value;
            d.header.length == 64 && |d.raw| == 0 && d.events == [] && d.badEventWords == 0 && d.trailingBytes == 0
  {
    hide TimesOf, AnchorsOf;
    var body := LoneMarker()[64..];
    assert |body| / 4 == 1;
    assert Scan(crc, body, 1, 1) == [];
    assert Tokens(crc, body) == [Cut(0)];
    assert [Cut(0)][..0] == [];
    assert ReadingsOf([Cut(0)]) == [];
    assert EventsOf(body, 64, 1, [Cut(0)]) == [];
    assert CorruptOf([Cut(0)]) == 0;
  }
}
