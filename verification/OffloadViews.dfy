/** What each offload of a deployment had seen of the record, reconstructed from the final image alone. */
module OffloadViews {
  import opened Basics
  import opened ClockSegments
  import opened SampleTiming
  import opened SoloDecoder
  import opened SoloWalk
  import opened SoloLaws
  import opened Provenance

  const SKEW_JUMP_S: real := 2.0
  const SKEW_DRIFT_PPM: real := 50.0

  /** The part of an offload record the views are made from: bytes of image it describes, when it ended, the logger
      minus host skew it measured, and the host's offset from UTC if known. */
  datatype OffloadRecord = OffloadRecord(imageBytes: Option<nat>, finishedMs: int, skew: Skew, skewUncertainty: real,
                                         ntpOffset: Option<real>, ntpUncertainty: real)

  // ---- seen ----

  /** Sample sets and events that an image of the given size held (None: all of them). */
  function SeenBy(d: Decoded, size: Option<nat>): (nat, nat) {
    match size
    case Some(b) => (CountUpTo(d.setEndByte, b), EventsWithin(d.events, b))
    case None => (|d.times.ms|, |d.events|)
  }

  ghost predicate NonDecreasing(s: seq<nat>) {
    forall i, j :: 0 <= i < j < |s| ==> s[i] <= s[j]
  }

  /** Binary search: how many entries of a sorted sequence are at most b. */
  method SearchRight(s: seq<nat>, b: nat) returns (k: nat)
    requires NonDecreasing(s)
    ensures k == CountUpTo(s, b)
  {
    var lo, hi := 0, |s|;
    while lo < hi
      invariant 0 <= lo <= hi <= |s|
      invariant forall i :: 0 <= i < lo ==> s[i] <= b
      invariant forall i :: hi <= i < |s| ==> s[i] > b
    {
      var mid := (lo + hi) / 2;
      if s[mid] <= b {
        lo := mid + 1;
      } else {
        hi := mid;
      }
    }
    CountUpToIs(s, b, lo);
    k := lo;
  }

  method CountEvents(events: seq<Event>, b: nat) returns (k: nat)
    ensures k == EventsWithin(events, b)
  {
    k := 0;
    for i := 0 to |events|
      invariant k == EventsWithin(events[..i], b)
    {
      assert events[..i + 1][..i] == events[..i];
      if events[i].offset + events[i].size <= b {
        k := k + 1;
      }
    }
    assert events[..|events|] == events;
  }

  method Seen(records: seq<OffloadRecord>, d: Decoded) returns (seen: seq<(nat, nat)>)
    requires NonDecreasing(d.setEndByte)
    ensures |seen| == |records|
    ensures forall k :: 0 <= k < |records| ==> seen[k] == SeenBy(d, records[k].imageBytes)
  {
    seen := [];
    for k := 0 to |records|
      invariant |seen| == k
      invariant forall j :: 0 <= j < k ==> seen[j] == SeenBy(d, records[j].imageBytes)
    {
      match records[k].imageBytes {
        case None =>
          seen := seen + [(|d.times.ms|, |d.events|)];
        case Some(b) =>
          var samples := SearchRight(d.setEndByte, b);
          var events := CountEvents(d.events, b);
          seen := seen + [(samples, events)];
      }
    }
  }

  lemma ProductMonotone(i: nat, j: nat, d: nat)
    requires i <= j
    ensures i * d <= j * d
  {
    assert (j - i) * d >= 0;
    assert j * d == i * d + (j - i) * d;
  }

  /** The end bytes of a decode increase, so searching them is sound. */
  lemma EndBytesSorted(crc: Checksum, image: seq<byte>, nchan: nat)
    requires DecodeSpec(crc, image, nchan).Ok?
    ensures NonDecreasing(DecodeSpec(crc, image, nchan).value.setEndByte)
  {
    hide Scan, ReadingsOf, EventsOf, TimesOf, WordsAt, ErrorCodes, AnchorsOf, CorruptOf, ParseHeader;
    var h := CheckImage(image, nchan).value;
    var body := image[h.length..];
    var p := ReadingsOf(Tokens(crc, body));
    ScanTiles(crc, body, |body| / 4, 0);
    TiledReadings(Tokens(crc, body), 0, |body| / 4);
    var s := SetEndBytes(h.length, p, nchan);
    forall i, j | 0 <= i < j < |s|
      ensures s[i] <= s[j]
    {
      CompleteSet(nchan, i, |p|);
      CompleteSet(nchan, j, |p|);
      ProductMonotone(i, j, nchan);
      assert LastReading(nchan, i) <= LastReading(nchan, j);
      assert s[i] == SetEnd(h.length, p, nchan, i) && s[j] == SetEnd(h.length, p, nchan, j);
    }
  }

  /** An offload's counts, worked out from the final image, are those its own image would have decoded to. */
  lemma SeenIsOwnDecode(crc: Checksum, image: seq<byte>, nchan: nat, b: nat)
    requires DecodeSpec(crc, image, nchan).Ok? && DecodeSpec(crc, image, nchan).value.header.length <= b <= |image|
    ensures DecodeSpec(crc, image[..b], nchan).Ok?
    ensures var own := DecodeSpec(crc, image[..b], nchan).value;
            SeenBy(DecodeSpec(crc, image, nchan).value, Some(b)) == (|own.times.ms|, |own.events|)
  {
    hide DecodeSpec, CountUpTo, EventsWithin, IsPrefix;
    PrefixStability(crc, image, nchan, b);
  }

  lemma {:induction false} CountMonotone(s: seq<nat>, b: nat, b': nat)
    requires b <= b'
    ensures CountUpTo(s, b) <= CountUpTo(s, b')
  {
    if s != [] {
      CountMonotone(s[..|s| - 1], b, b');
    }
  }

  lemma {:induction false} WithinMonotone(events: seq<Event>, b: nat, b': nat)
    requires b <= b'
    ensures EventsWithin(events, b) <= EventsWithin(events, b') <= |events|
  {
    if events != [] {
      WithinMonotone(events[..|events| - 1], b, b');
    }
  }

  /** A bigger image has seen no fewer sample sets and events. */
  lemma SeenMonotone(d: Decoded, b: nat, b': nat)
    requires b <= b'
    ensures SeenBy(d, Some(b)).0 <= SeenBy(d, Some(b')).0 && SeenBy(d, Some(b)).1 <= SeenBy(d, Some(b')).1
  {
    CountMonotone(d.setEndByte, b, b');
    WithinMonotone(d.events, b, b');
  }

  // ---- views ----

  /** Logger minus UTC, or minus the host clock when the host was not referenced to UTC. */
  function SkewVsUtc(r: OffloadRecord): Skew {
    match r.skew
    case Seconds(s) => Seconds(s - (if r.ntpOffset.Some? then r.ntpOffset.value else 0.0))
    case other => other
  }

  function Uncertainty(r: OffloadRecord): real {
    r.skewUncertainty + if r.ntpOffset.Some? then r.ntpUncertainty else 0.0
  }

  /** Both skews were measured, against the same clock, and they are further apart than drift and uncertainty allow. */
  predicate SkewJumped(previous: OffloadRecord, record: OffloadRecord) {
    && previous.skew.Seconds? && record.skew.Seconds?
    && previous.ntpOffset.Some? == record.ntpOffset.Some?
    && var change := SkewVsUtc(record).s - SkewVsUtc(previous).s;
       var elapsed := (record.finishedMs - previous.finishedMs) as real / 1000.0;
       var dt := if elapsed < 0.0 then 0.0 else elapsed;
       var tolerance := SKEW_JUMP_S + SKEW_DRIFT_PPM * 0.000001 * dt + Uncertainty(previous) + Uncertainty(record);
       (if change < 0.0 then -change else change) > tolerance
  }

  /** The events that reset the clock: a failed restart, and the two restarts after a reset. */
  predicate IsRtcReset(kind: byte) {
    kind in {0x06, 0x0A, 0x0B}
  }

  /** One of the events from a up to b, if there are that many, reset the clock. */
  predicate ResetBetween(events: seq<Event>, a: nat, b: nat) {
    exists k :: a <= k < b && k < |events| && IsRtcReset(events[k].kind)
  }

  function ViewAt(records: seq<OffloadRecord>, d: Decoded, k: nat): OffloadView
    requires k < |records|
  {
    var (samples, events) := SeenBy(d, records[k].imageBytes);
    var clockSet := k > 0 && SkewJumped(records[k - 1], records[k]) &&
                    !ResetBetween(d.events, SeenBy(d, records[k - 1].imageBytes).1, events);
    OffloadView(samples, events, records[k].finishedMs, SkewVsUtc(records[k]), clockSet)
  }

  function ViewsOf(records: seq<OffloadRecord>, d: Decoded): (views: seq<OffloadView>)
    ensures |views| == |records|
  {
    seq(|records|, k requires 0 <= k < |records| => ViewAt(records, d, k))
  }

  /** A skew against UTC, or against the host where the host's own offset is not known: the offset, if there is one, and
      this skew make up the one measured. */
  ghost predicate IsVsUtc(r: OffloadRecord, skew: real) {
    r.skew.Seconds? && skew + (match r.ntpOffset case Some(o) => o case None => 0.0) == r.skew.s
  }

  /** Two skews on one reference, UTC or the host, are further apart than 2 s, a drift of 50 ppm over the time between
      the offloads, and the uncertainties of all that was measured. */
  ghost predicate Jump(a: OffloadRecord, b: OffloadRecord) {
    && a.skew.Seconds? && b.skew.Seconds? && (a.ntpOffset.None? <==> b.ntpOffset.None?)
    && forall x: real, y: real :: IsVsUtc(a, x) && IsVsUtc(b, y) ==>
         var drift := if b.finishedMs > a.finishedMs then (b.finishedMs - a.finishedMs) as real * 0.00000005 else 0.0;
         var allowed := 2.0 + drift + a.skewUncertainty + b.skewUncertainty
                        + (if a.ntpOffset.Some? then a.ntpUncertainty + b.ntpUncertainty else 0.0);
         y - x > allowed || x - y > allowed
  }

  /** No event from a up to b is a failed restart or a restart after a clock reset. */
  ghost predicate NoReset(events: seq<Event>, a: nat, b: nat) {
    forall j :: a <= j < b && j < |events| ==>
      events[j].kind != 0x06 && events[j].kind != 0x0A && events[j].kind != 0x0B
  }

  lemma JumpExactly(a: OffloadRecord, b: OffloadRecord)
    ensures SkewJumped(a, b) <==> Jump(a, b)
  {
    if a.skew.Seconds? && b.skew.Seconds? && (a.ntpOffset.None? <==> b.ntpOffset.None?) {
      assert IsVsUtc(a, SkewVsUtc(a).s) && IsVsUtc(b, SkewVsUtc(b).s);
    }
  }

  /** What a view says of its offload: what was seen, when it ended, the skew against UTC, and whether the clock was set
      since the offload before. */
  ghost predicate IsView(v: OffloadView, records: seq<OffloadRecord>, seen: seq<(nat, nat)>, events: seq<Event>, k: nat)
    requires k < |records| == |seen|
  {
    && (v.samplesSeen, v.eventsSeen) == seen[k] && v.unixMs == records[k].finishedMs
    && (v.skew.Seconds? ==> IsVsUtc(records[k], v.skew.s)) && (!v.skew.Seconds? ==> v.skew == records[k].skew)
    && (v.clockSetBefore <==>
          k > 0 && Jump(records[k - 1], records[k]) && NoReset(events, seen[k - 1].1, seen[k].1))
  }

  lemma ViewIs(records: seq<OffloadRecord>, seen: seq<(nat, nat)>, d: Decoded, k: nat)
    requires |seen| == |records| && k < |records|
    requires forall j :: 0 <= j < |records| ==> seen[j] == SeenBy(d, records[j].imageBytes)
    ensures IsView(ViewAt(records, d, k), records, seen, d.events, k)
  {
    hide SeenBy, SkewJumped, Jump;
    if k > 0 {
      JumpExactly(records[k - 1], records[k]);
      assert ResetBetween(d.events, seen[k - 1].1, seen[k].1) <==> !NoReset(d.events, seen[k - 1].1, seen[k].1);
    }
  }

  method MakeViews(records: seq<OffloadRecord>, seen: seq<(nat, nat)>, d: Decoded) returns (views: seq<OffloadView>)
    requires |seen| == |records|
    requires forall k :: 0 <= k < |records| ==> seen[k] == SeenBy(d, records[k].imageBytes)
    ensures views == ViewsOf(records, d)
    ensures |views| == |records| && forall k :: 0 <= k < |views| ==> IsView(views[k], records, seen, d.events, k)
  {
    hide SeenBy, SkewJumped, IsView;
    views := [];
    for k := 0 to |records|
      invariant |views| == k
      invariant forall j :: 0 <= j < k ==> views[j] == ViewAt(records, d, j)
    {
      var (samples, events) := seen[k];
      var clockSet := false;
      if k > 0 {
        clockSet := SkewJumped(records[k - 1], records[k]) && !ResetBetween(d.events, views[k - 1].eventsSeen, events);
      }
      views := views + [OffloadView(samples, events, records[k].finishedMs, SkewVsUtc(records[k]), clockSet)];
    }
    forall k | 0 <= k < |views|
      ensures IsView(views[k], records, seen, d.events, k)
    {
      ViewIs(records, seen, d, k);
    }
  }

  /** Every offload recorded how much image it held, and none held less than the one before. */
  ghost predicate SizesGrow(records: seq<OffloadRecord>) {
    && (forall k :: 0 <= k < |records| ==> records[k].imageBytes.Some?)
    && forall a, b :: 0 <= a < b < |records| ==> records[a].imageBytes.value <= records[b].imageBytes.value
  }

  /** With growing images the views grow, so the provenance table is ordered. */
  lemma GrowingSizesGiveGrowingViews(records: seq<OffloadRecord>, d: Decoded)
    requires SizesGrow(records)
    ensures ViewsGrow(ViewsOf(records, d))
  {
    hide SkewJumped, ResetBetween;
    forall a, b | 0 <= a < b < |records|
      ensures ViewsOf(records, d)[a].samplesSeen <= ViewsOf(records, d)[b].samplesSeen
      ensures ViewsOf(records, d)[a].eventsSeen <= ViewsOf(records, d)[b].eventsSeen
    {
      SeenMonotone(d, records[a].imageBytes.value, records[b].imageBytes.value);
    }
  }
}
