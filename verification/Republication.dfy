/** From memory image and offload records to published times, and what a later offload leaves unchanged. */
module Republication {
  import opened Basics
  import opened ClockSegments
  import opened TimeResolution
  import opened ResolutionLaws
  import opened AppendStability
  import opened Provenance
  import opened SampleTiming
  import opened SoloDecoder
  import opened SoloWalk
  import opened SoloLaws
  import opened OffloadViews
  import Parser = SectionedDecoder
  import Sectioned = SectionedLaws

  /** The decoder's flags, and also the reset flag on every set dated before 2001. */
  function MarkReset(t: SetTimes): (flags: seq<TimeFlag>)
    requires |t.flags| == |t.ms|
    ensures |flags| == |t.ms|
  {
    seq(|t.ms|, i requires 0 <= i < |t.ms| =>
      if t.ms[i] < RESET_CLOCK_BEFORE_MS then t.flags[i].(resetClock := true) else t.flags[i])
  }

  /** The clock-reset events, as (sample index, position in the event list). */
  function EventStarts(events: seq<Event>): seq<(nat, nat)> {
    if events == [] then []
    else
      var m := |events| - 1;
      EventStarts(events[..m]) + (if IsRtcReset(events[m].kind) then [(events[m].sampleIndex, m)] else [])
  }

  predicate Timed(d: Decoded) {
    |d.times.ms| == |d.times.flags| == |d.setEndByte|
  }

  function SegmentStarts(d: Decoded): seq<SegmentStart> {
    StartList(d.times.ms, EventStarts(d.events))
  }

  /** The record whose times are resolved and published. */
  function RecordOf(d: Decoded, records: seq<OffloadRecord>): (c: Record)
    requires Timed(d)
    ensures c.Valid()
  {
    MakeRecord(d.times.ms, MarkReset(d.times), SegmentStarts(d), ViewsOf(records, d))
  }

  lemma DecodeIsTimed(crc: Checksum, image: seq<byte>, nchan: nat)
    requires DecodeSpec(crc, image, nchan).Ok?
    ensures Timed(DecodeSpec(crc, image, nchan).value)
  {
  }

  // ---- what is published ----

  predicate ResetsClock(e: Event) {
    e.kind == 0x06 || e.kind == 0x0A || e.kind == 0x0B
  }

  /** Event k is the first clock reset before sample set i, and after set i - 1. */
  ghost predicate FirstReset(events: seq<Event>, k: nat, i: nat) {
    && k < |events| && ResetsClock(events[k]) && events[k].sampleIndex == i
    && forall j :: 0 <= j < k && ResetsClock(events[j]) ==> events[j].sampleIndex != i
  }

  lemma {:induction false} FirstStart(events: seq<Event>, i: nat)
    ensures var r := FirstAt(EventStarts(events), i);
            if r.Some? then FirstReset(events, EventStarts(events)[r.value].1, i)
            else forall k :: 0 <= k < |events| && ResetsClock(events[k]) ==> events[k].sampleIndex != i
  {
    if events != [] {
      var m := |events| - 1;
      var before, all := EventStarts(events[..m]), EventStarts(events);
      FirstStart(events[..m], i);
      FirstBeforePrefix(before, all, |before|, i);
      FirstBeforeExtend(all, |before|, |all|, i);
      hide EventStarts;
      assert forall k :: 0 <= k < m ==> events[..m][k] == events[k];
    }
  }

  /** A clock segment starts at the first clock reset before a sample set, or past the last one; and where there is
      none, at a set that is dated before the one before it. */
  lemma SegmentStartsExactly(d: Decoded, s: SegmentStart)
    ensures s in SegmentStarts(d) <==>
            && 0 < s.sampleIndex <= |d.times.ms|
            && match s.eventIndex
               case Some(k) => FirstReset(d.events, k, s.sampleIndex)
               case None =>
                 && (forall k :: 0 <= k < |d.events| && ResetsClock(d.events[k]) ==>
                       d.events[k].sampleIndex != s.sampleIndex)
                 && s.sampleIndex < |d.times.ms|
                 && d.times.ms[s.sampleIndex] < d.times.ms[s.sampleIndex - 1]
  {
    hide StartList, EventStarts, AreStarts, FirstBefore;
    StartMember(d.times.ms, EventStarts(d.events), SegmentStarts(d), s);
    FirstStart(d.events, s.sampleIndex);
    var r := FirstAt(EventStarts(d.events), s.sampleIndex);
    if r.Some? && s.eventIndex.Some? && FirstReset(d.events, s.eventIndex.value, s.sampleIndex) {
      OneFirstReset(d.events, s.eventIndex.value, EventStarts(d.events)[r.value].1, s.sampleIndex);
    }
  }

  lemma OneFirstReset(events: seq<Event>, j: nat, k: nat, i: nat)
    requires FirstReset(events, j, i) && FirstReset(events, k, i)
    ensures j == k
  {
  }

  /** A sample set on a set clock is published as it was decoded. Of the others, those kept have been moved by the skew
      of one of the offloads, and lie in or after 2001. */
  lemma PublishedTimes(d: Decoded, records: seq<OffloadRecord>, i: nat)
    requires Timed(d) && i < |d.times.ms|
    ensures var r, ms, flag := Resolve(RecordOf(d, records)), d.times.ms[i], d.times.flags[i];
            && (!flag.resetClock && ms >= 978_307_200_000 ==> r.keep[i] && r.t[i] == ms && r.tf[i] == flag)
            && ((flag.resetClock || ms < 978_307_200_000) && r.keep[i] ==>
                  && r.t[i] >= 978_307_200_000 && r.tf[i].skewCorrected && r.tf[i].resetClock
                  && exists k :: 0 <= k < |records| && TimedBy(records[k], ms, r.t[i]))
  {
    hide StartList, StartsInForce, Resolve, ViewAt, Fix, Choose, MovedBy, AreStarts;
    var c := RecordOf(d, records);
    if c.Reset(i) {
      if Resolve(c).keep[i] {
        StartsLeaveNoBackwardStep(d.times.ms, MarkReset(d.times), EventStarts(d.events), SegmentStarts(d),
                                  ViewsOf(records, d));
        var s := SegmentOf(c, i);
        CorrectedToNearest(c, s, i);
        CorrectionsBounded(c, s, i);
        SampleFate(c, s, i);
        ViewSkew(records, d, Choose(c, Resolve(c).t, Resolve(c).keep, s).value);
      }
    } else {
      UnflaggedUntouched(c, i);
    }
  }

  /** The offload's skew, against UTC or else the host, moves one time to the other. */
  ghost predicate TimedBy(r: OffloadRecord, before: int, after: int) {
    r.skew.Seconds? &&
    MovedBy(before, after, r.skew.s - (match r.ntpOffset case Some(o) => o case None => 0.0))
  }

  lemma ViewSkew(records: seq<OffloadRecord>, d: Decoded, k: nat)
    requires k < |records| && ViewAt(records, d, k).skew.Seconds?
    ensures records[k].skew.Seconds?
    ensures ViewAt(records, d, k).skew.s ==
            records[k].skew.s - (match records[k].ntpOffset case Some(o) => o case None => 0.0)
  {
    hide SeenBy, SkewJumped, ResetBetween;
  }

  // ---- starts of a grown record ----

  lemma {:induction false} EventStartsPrefix(ev: seq<Event>, all: seq<Event>, n: nat)
    requires ev <= all && forall k :: |ev| <= k < |all| ==> all[k].sampleIndex >= n
    ensures EventStarts(ev) <= EventStarts(all)
    ensures forall j :: |EventStarts(ev)| <= j < |EventStarts(all)| ==>
              EventStarts(all)[j].0 >= n && EventStarts(all)[j].1 >= |ev|
    decreases |all|
  {
    if |ev| == |all| {
      assert ev == all;
    } else {
      EventStartsPrefix(ev, all[..|all| - 1], n);
    }
  }

  lemma {:induction false} FirstBeforePrefix(a: seq<(nat, nat)>, b: seq<(nat, nat)>, j: nat, i: nat)
    requires a <= b && j <= |a|
    ensures FirstBefore(a, j, i) == FirstBefore(b, j, i)
  {
    if j > 0 {
      FirstBeforePrefix(a, b, j - 1, i);
    }
  }

  lemma {:induction false} FirstBeforeExtend(b: seq<(nat, nat)>, j: nat, k: nat, i: nat)
    requires j <= k <= |b|
    ensures FirstBefore(b, j, i).Some? ==> FirstBefore(b, k, i) == FirstBefore(b, j, i)
    ensures FirstBefore(b, j, i).None? && FirstBefore(b, k, i).Some? ==> FirstBefore(b, k, i).value >= j
    decreases k
  {
    if j < k {
      FirstBeforeExtend(b, j, k - 1, i);
    }
  }

  /** What an index contributes to the starts once the record has grown past n samples. */
  lemma StartAtGrown(time: seq<int>, time': seq<int>, ev: seq<(nat, nat)>, ev': seq<(nat, nat)>, i: nat)
    requires time <= time' && ev <= ev' && 0 < i
    requires forall j :: |ev| <= j < |ev'| ==> ev'[j].0 >= |time|
    ensures i < |time| ==> StartAt(time', ev', i) == StartAt(time, ev, i)
    ensures i == |time| && StartAt(time, ev, i).Some? ==> StartAt(time', ev', i) == StartAt(time, ev, i)
    ensures i == |time| && StartAt(time, ev, i).None? && StartAt(time', ev', i).Some? ==>
              IsNewStart(ev, ev', StartAt(time', ev', i).value)
  {
    FirstBeforePrefix(ev, ev', |ev|, i);
    FirstBeforeExtend(ev', |ev|, |ev'|, i);
  }

  /** A start that comes from a backward step, or from an event past the old ones. */
  ghost predicate IsNewStart(ev: seq<(nat, nat)>, ev': seq<(nat, nat)>, s: SegmentStart) {
    s.eventIndex.None? || exists j :: |ev| <= j < |ev'| && s.eventIndex == Some(ev'[j].1)
  }

  lemma {:induction false} OrderedPrefix(g: seq<SegmentStart>, g': seq<SegmentStart>, n: nat, n': nat)
    requires Ordered(g, n) && Ordered(g', n')
    requires forall a :: 0 <= a < |g| ==> g[a] in g'
    requires forall s, a :: s in g' && 0 <= a < |g| && s.sampleIndex < g[a].sampleIndex ==> s in g
    ensures g <= g'
  {
    if g != [] {
      var m := |g| - 1;
      forall s, a | s in g' && 0 <= a < m && s.sampleIndex < g[..m][a].sampleIndex
        ensures s in g[..m]
      {
        assert g[..m][a] == g[a] && s in g;
        var b :| 0 <= b < |g| && g[b] == s;
        assert b < m;
        assert g[..m][b] == s;
      }
      OrderedPrefix(g[..m], g', n, n');
      assert g[m] in g';
      var j :| 0 <= j < |g'| && g'[j] == g[m];
      LandsNext(g, g', m, j, n, n');
    }
  }

  lemma NotBelow(g: seq<SegmentStart>, g': seq<SegmentStart>, m: nat)
    requires m + 1 == |g| && m < |g'| && forall b :: 0 <= b < m ==> g[b] == g'[b]
    requires forall a, b :: 0 <= a < b < |g'| ==> g'[a].sampleIndex < g'[b].sampleIndex
    ensures g'[m] in g ==> g'[m] == g[m]
  {
    assert forall b :: 0 <= b < m ==> g[b] != g'[m];
  }

  lemma LandsNext(g: seq<SegmentStart>, g': seq<SegmentStart>, m: nat, j: nat, n: nat, n': nat)
    requires Ordered(g, n) && Ordered(g', n') && m + 1 == |g| && g[..m] <= g' && j < |g'| && g'[j] == g[m]
    requires forall s, a :: s in g' && 0 <= a < |g| && s.sampleIndex < g[a].sampleIndex ==> s in g
    ensures g <= g'
  {
    assert forall b :: 0 <= b < m ==> g[..m][b] == g[b] == g'[b];
    assert j >= m;
    NotBelow(g, g', m);
    assert g'[m] in g';
    assert g == g[..m] + [g[m]];
  }

  /** The starts of the old record are the first of the grown record's; the rest lie at or past the old end and come
      from new events or new backward steps. */
  lemma StartsGrow(time: seq<int>, time': seq<int>, ev: seq<(nat, nat)>, ev': seq<(nat, nat)>)
    requires time <= time' && ev <= ev' && forall j :: |ev| <= j < |ev'| ==> ev'[j].0 >= |time|
    requires forall j :: 0 <= j < |ev| ==> ev[j].0 <= |time|
    ensures StartList(time, ev) <= StartList(time', ev')
    ensures forall a :: |StartList(time, ev)| <= a < |StartList(time', ev')| ==>
              StartList(time', ev')[a].sampleIndex >= |time| && IsNewStart(ev, ev', StartList(time', ev')[a])
  {
    hide StartAt, AreStarts, IsNewStart, StartList;
    var g, g' := StartList(time, ev), StartList(time', ev');
    AreStartsOrdered(time, ev, g);
    AreStartsOrdered(time', ev', g');
    forall a | 0 <= a < |g|
      ensures g[a] in g'
    {
      StartMember(time, ev, g, g[a]);
      StartMember(time', ev', g', g[a]);
      StartAtGrown(time, time', ev, ev', g[a].sampleIndex);
    }
    forall s, a | s in g' && 0 <= a < |g| && s.sampleIndex < g[a].sampleIndex
      ensures s in g
    {
      StartMember(time, ev, g, s);
      StartMember(time', ev', g', s);
      StartAtGrown(time, time', ev, ev', s.sampleIndex);
    }
    OrderedPrefix(g, g', |time|, |time'|);
    forall a | |g| <= a < |g'|
      ensures g'[a].sampleIndex >= |time| && IsNewStart(ev, ev', g'[a])
    {
      NewStartIsNew(time, time', ev, ev', g, g', a);
    }
  }

  lemma AreStartsOrdered(time: seq<int>, ev: seq<(nat, nat)>, g: seq<SegmentStart>)
    requires AreStarts(time, ev, g)
    ensures Ordered(g, |time|)
  {
  }

  lemma NewStartIsNew(time: seq<int>, time': seq<int>, ev: seq<(nat, nat)>, ev': seq<(nat, nat)>,
                      g: seq<SegmentStart>, g': seq<SegmentStart>, a: nat)
    requires time <= time' && ev <= ev' && forall j :: |ev| <= j < |ev'| ==> ev'[j].0 >= |time|
    requires forall j :: 0 <= j < |ev| ==> ev[j].0 <= |time|
    requires AreStarts(time, ev, g) && AreStarts(time', ev', g') && g <= g' && |g| <= a < |g'|
    ensures g'[a].sampleIndex >= |time| && IsNewStart(ev, ev', g'[a])
  {
    hide StartAt, AreStarts, IsNewStart;
    var s := g'[a];
    AreStartsOrdered(time', ev', g');
    StartMember(time, ev, g, s);
    StartMember(time', ev', g', s);
    NotInPrefix(g, g', a, |time'|);
    StartAtGrown(time, time', ev, ev', s.sampleIndex);
    if s.sampleIndex > |time| {
      StartPastEnd(time, time', ev, ev', s.sampleIndex);
    }
  }

  lemma NotInPrefix(g: seq<SegmentStart>, g': seq<SegmentStart>, a: nat, n: nat)
    requires g <= g' && Ordered(g', n) && |g| <= a < |g'|
    ensures g'[a] !in g
  {
    assert forall b :: 0 <= b < |g| ==> g[b] == g'[b];
  }

  lemma StartPastEnd(time: seq<int>, time': seq<int>, ev: seq<(nat, nat)>, ev': seq<(nat, nat)>, i: nat)
    requires time <= time' && ev <= ev' && i > |time| && StartAt(time', ev', i).Some?
    requires forall j :: 0 <= j < |ev| ==> ev[j].0 <= |time|
    ensures IsNewStart(ev, ev', StartAt(time', ev', i).value)
  {
    FirstBeforePrefix(ev, ev', |ev|, i);
    FirstBeforeExtend(ev', |ev|, |ev'|, i);
  }

  // ---- the decodes of a grown image ----

  lemma {:induction false} EventStartsBound(ev: seq<Event>, n: nat)
    requires forall k :: 0 <= k < |ev| ==> ev[k].sampleIndex <= n
    ensures forall j :: 0 <= j < |EventStarts(ev)| ==> EventStarts(ev)[j].0 <= n
  {
    if ev != [] {
      EventStartsBound(ev[..|ev| - 1], n);
    }
  }

  /** own decodes a part of the image that d decodes; the events past it date sets past it. */
  ghost predicate Grown(own: Decoded, d: Decoded, b: nat) {
    && Timed(own) && Timed(d) && IsPrefix(own, d)
    && |own.times.ms| == CountUpTo(d.setEndByte, b) && |own.events| == EventsWithin(d.events, b)
    && (forall k :: 0 <= k < |own.events| ==> own.events[k].sampleIndex <= |own.times.ms|)
    && (forall k :: |own.events| <= k < |d.events| ==>
          d.events[k].sampleIndex >= |own.times.ms| && d.events[k].offset + d.events[k].size > b)
  }

  lemma EventBounds(crc: Checksum, image: seq<byte>, nchan: nat)
    requires DecodeSpec(crc, image, nchan).Ok?
    ensures var d := DecodeSpec(crc, image, nchan).value;
            forall k :: 0 <= k < |d.events| ==> d.events[k].sampleIndex <= |d.times.ms|
  {
    hide Scan, ReadingsOf, EventsOf, WordsAt, ErrorCodes, AnchorsOf, CorruptOf, ParseHeader, SetEndBytes;
    var h := CheckImage(image, nchan).value;
    EventsOrdered(image[h.length..], h.length, nchan, Tokens(crc, image[h.length..]));
  }

  lemma EventsPastCut(crc: Checksum, image: seq<byte>, nchan: nat, b: nat)
    requires DecodeSpec(crc, image, nchan).Ok? && DecodeSpec(crc, image, nchan).value.header.length <= b <= |image|
    requires DecodeSpec(crc, image[..b], nchan).Ok?
    requires IsPrefix(DecodeSpec(crc, image[..b], nchan).value, DecodeSpec(crc, image, nchan).value)
    ensures var own, d := DecodeSpec(crc, image[..b], nchan).value, DecodeSpec(crc, image, nchan).value;
            forall k :: |own.events| <= k < |d.events| ==>
              d.events[k].sampleIndex >= |own.times.ms| && d.events[k].offset + d.events[k].size > b
  {
    hide ReadingsOf, EventsOf, CorruptOf, AnchorsOf, SetEndBytes, ParseHeader, Scan, WordsAt, ErrorCodes, Fit, EndBy,
         EndPast;
    var h := CheckImage(image, nchan).value;
    SameHeader(image, nchan, b);
    var body', body := image[..b][h.length..], image[h.length..];
    assert body' == body[..b - h.length];
    var a, rest := ScanCut(crc, body, |body| / 4, body', |body'| / 4, 0);
    CutAddsNothing(body', h.length, nchan, a, Tokens(crc, body'));
    EventsConcat(body, h.length, nchan, a, rest, |body'| / 4);
    EventsSameBody(body, body', h.length, nchan, a);
  }

  lemma DecodesGrow(crc: Checksum, image: seq<byte>, nchan: nat, b: nat)
    requires DecodeSpec(crc, image, nchan).Ok? && DecodeSpec(crc, image, nchan).value.header.length <= b <= |image|
    ensures DecodeSpec(crc, image[..b], nchan).Ok?
    ensures Grown(DecodeSpec(crc, image[..b], nchan).value, DecodeSpec(crc, image, nchan).value, b)
  {
    hide DecodeSpec, CountUpTo, EventsWithin, IsPrefix;
    PrefixStability(crc, image, nchan, b);
    DecodeIsTimed(crc, image, nchan);
    DecodeIsTimed(crc, image[..b], nchan);
    EventBounds(crc, image[..b], nchan);
    EventsPastCut(crc, image, nchan, b);
  }

  lemma {:induction false} CountOfPrefix(s: seq<nat>, m: nat, b: nat, x: nat)
    requires m == CountUpTo(s, b) && x <= b
    ensures CountUpTo(s, x) == CountUpTo(s[..m], x)
    decreases |s|
  {
    if m == |s| {
      assert s[..m] == s;
    } else {
      CountOfPrefix(s[..|s| - 1], m, b, x);
      assert s[..|s| - 1][..m] == s[..m];
    }
  }

  lemma {:induction false} WithinOfPrefix(all: seq<Event>, m: nat, x: nat)
    requires m <= |all| && forall k :: m <= k < |all| ==> all[k].offset + all[k].size > x
    ensures EventsWithin(all, x) == EventsWithin(all[..m], x)
    decreases |all|
  {
    if m == |all| {
      assert all[..m] == all;
    } else {
      WithinOfPrefix(all[..|all| - 1], m, x);
      assert all[..|all| - 1][..m] == all[..m];
    }
  }

  /** An offload no later than the cut has seen as much of the one decode as of the other. */
  lemma SameSeen(own: Decoded, d: Decoded, b: nat, x: nat)
    requires Grown(own, d, b) && x <= b
    ensures SeenBy(own, Some(x)) == SeenBy(d, Some(x))
    ensures SeenBy(own, Some(x)).0 <= |own.times.ms| && SeenBy(own, Some(x)).1 <= |own.events|
  {
    hide CountUpTo, EventsWithin;
    CountOfPrefix(d.setEndByte, |own.times.ms|, b, x);
    WithinOfPrefix(d.events, |own.events|, x);
    assert d.events[..|own.events|] == own.events && d.setEndByte[..|own.times.ms|] == own.setEndByte;
    WithinMonotone(own.events, x, x);
  }

  lemma SameView(own: Decoded, d: Decoded, b: nat, earlier: seq<OffloadRecord>, records: seq<OffloadRecord>, k: nat)
    requires Grown(own, d, b) && earlier <= records && k < |earlier|
    requires earlier[k].imageBytes.Some? && earlier[k].imageBytes.value <= b
    requires k > 0 ==> earlier[k - 1].imageBytes.Some? && earlier[k - 1].imageBytes.value <= b
    ensures ViewAt(records, d, k) == ViewAt(earlier, own, k)
    ensures ViewAt(earlier, own, k).samplesSeen <= |own.times.ms| && ViewAt(earlier, own, k).eventsSeen <= |own.events|
  {
    hide SeenBy, SkewJumped;
    SameSeen(own, d, b, earlier[k].imageBytes.value);
    if k > 0 {
      assert records[k - 1] == earlier[k - 1];
      SameSeen(own, d, b, earlier[k - 1].imageBytes.value);
      var from, to := SeenBy(own, earlier[k - 1].imageBytes).1, SeenBy(own, earlier[k].imageBytes).1;
      assert forall j :: 0 <= j < |own.events| ==> own.events[j] == d.events[j];
      assert ResetBetween(own.events, from, to) == ResetBetween(d.events, from, to);
    }
  }

  /** A new offload has a new clock segment to see, and sees it. */
  ghost predicate RestartSeen(own: Decoded, d: Decoded, earlier: seq<OffloadRecord>, records: seq<OffloadRecord>)
    requires Timed(own) && Timed(d)
  {
    && |SegmentStarts(own)| < |SegmentStarts(d)|
    && forall k :: |earlier| <= k < |records| ==> ViewAt(records, d, k).Saw(SegmentStarts(d)[|SegmentStarts(own)|])
  }

  lemma OldViewsMissNewStarts(own: Decoded, d: Decoded, b: nat, v: OffloadView, s: SegmentStart)
    requires Grown(own, d, b) && v.samplesSeen <= |own.times.ms| && v.eventsSeen <= |own.events|
    requires s.sampleIndex >= |own.times.ms| && IsNewStart(EventStarts(own.events), EventStarts(d.events), s)
    ensures !v.Saw(s)
  {
    EventStartsPrefix(own.events, d.events, |own.times.ms|);
  }

  lemma OldViews(own: Decoded, d: Decoded, b: nat, earlier: seq<OffloadRecord>, records: seq<OffloadRecord>)
    requires Grown(own, d, b) && earlier <= records && SizesGrow(records) && earlier != []
    requires earlier[|earlier| - 1].imageBytes == Some(b)
    ensures ViewsOf(earlier, own) <= ViewsOf(records, d)
    ensures ViewsOf(earlier, own)[|earlier| - 1].samplesSeen == |own.times.ms|
    ensures forall k :: 0 <= k < |earlier| ==>
              ViewsOf(earlier, own)[k].samplesSeen <= |own.times.ms|
              && ViewsOf(earlier, own)[k].eventsSeen <= |own.events|
  {
    hide SeenBy, SkewJumped, ViewAt, Grown;
    var m := |earlier| - 1;
    assert records[m] == earlier[m];
    forall k | 0 <= k < |earlier|
      ensures ViewsOf(records, d)[k] == ViewsOf(earlier, own)[k]
      ensures ViewsOf(earlier, own)[k].samplesSeen <= |own.times.ms|
              && ViewsOf(earlier, own)[k].eventsSeen <= |own.events|
    {
      assert records[k] == earlier[k] && (k > 0 ==> records[k - 1] == earlier[k - 1]);
      SameView(own, d, b, earlier, records, k);
    }
    LastOldView(own, d, b, earlier);
  }

  lemma LastOldView(own: Decoded, d: Decoded, b: nat, earlier: seq<OffloadRecord>)
    requires Grown(own, d, b) && earlier != [] && earlier[|earlier| - 1].imageBytes == Some(b)
    ensures ViewAt(earlier, own, |earlier| - 1).samplesSeen == |own.times.ms|
  {
    hide SkewJumped, ResetBetween;
    SameSeen(own, d, b, b);
  }

  /** The deployment of a grown image has grown in the sense of append stability. */
  lemma DeploymentGrowsOn(own: Decoded, d: Decoded, b: nat, earlier: seq<OffloadRecord>, records: seq<OffloadRecord>)
    requires Grown(own, d, b) && earlier <= records && SizesGrow(records) && earlier != []
    requires earlier[|earlier| - 1].imageBytes == Some(b)
    ensures GrowsOn(|own.times.ms|, SegmentStarts(own), ViewsOf(earlier, own), |d.times.ms|, SegmentStarts(d),
                    ViewsOf(records, d))
    ensures EventsGrow(ViewsOf(records, d))
  {
    hide SeenBy, SkewJumped, ViewAt, EventStarts, StartList, IsNewStart;
    var n := |own.times.ms|;
    EventStartsPrefix(own.events, d.events, n);
    EventStartsBound(own.events, n);
    StartsGrow(own.times.ms, d.times.ms, EventStarts(own.events), EventStarts(d.events));
    AreStartsOrdered(own.times.ms, EventStarts(own.events), SegmentStarts(own));
    AreStartsOrdered(d.times.ms, EventStarts(d.events), SegmentStarts(d));
    OldViews(own, d, b, earlier, records);
    GrowingSizesGiveGrowingViews(records, d);
    forall k, a | 0 <= k < |earlier| && |SegmentStarts(own)| <= a < |SegmentStarts(d)|
      ensures !ViewsOf(earlier, own)[k].Saw(SegmentStarts(d)[a])
    {
      OldViewsMissNewStarts(own, d, b, ViewsOf(earlier, own)[k], SegmentStarts(d)[a]);
    }
  }

  lemma FlagsGrow(own: Decoded, d: Decoded, b: nat)
    requires Grown(own, d, b)
    ensures MarkReset(own.times) <= MarkReset(d.times)
  {
  }

  /** Times, flags and keep bits of the first n sample sets are the same. */
  ghost predicate SamePast(r: State, r': State, n: nat) {
    && n <= |r.t| && n <= |r.tf| && n <= |r.keep| && n <= |r'.t| && n <= |r'.tf| && n <= |r'.keep|
    && r.t[..n] == r'.t[..n] && r.tf[..n] == r'.tf[..n] && r.keep[..n] == r'.keep[..n]
  }

  /** The sample sets before the clock segment that the last of these offloads was on. */
  function Settled(d: Decoded, records: seq<OffloadRecord>): (n: nat)
    requires Timed(d) && records != []
  {
    var c := RecordOf(d, records);
    c.Low(Current(c.views[|c.views| - 1], c.starts))
  }

  /** Publishing again leaves the past alone, whatever the later offloads found: always what is settled, and all of it
      if the logger restarted on a new clock segment that every later offload saw. */
  lemma GrownKeepsThePast(own: Decoded, d: Decoded, b: nat, earlier: seq<OffloadRecord>, records: seq<OffloadRecord>)
    requires Grown(own, d, b) && earlier <= records && SizesGrow(records) && earlier != []
    requires earlier[|earlier| - 1].imageBytes == Some(b)
    ensures SamePast(Resolve(RecordOf(own, earlier)), Resolve(RecordOf(d, records)), Settled(own, earlier))
    ensures RestartSeen(own, d, earlier, records) ==>
              SamePast(Resolve(RecordOf(own, earlier)), Resolve(RecordOf(d, records)), |own.times.ms|)
  {
    hide ViewAt, StartList, StartsInForce, Current, Resolve, MarkReset, GrowsOn, RestartSeen;
    DeploymentGrowsOn(own, d, b, earlier, records);
    FlagsGrow(own, d, b);
    SettledPastIsStable(own.times.ms, MarkReset(own.times), SegmentStarts(own), ViewsOf(earlier, own),
                        d.times.ms, MarkReset(d.times), SegmentStarts(d), ViewsOf(records, d));
    if RestartSeen(own, d, earlier, records) {
      RestartGrows(own, d, b, earlier, records);
      PublishedPastIsStable(own.times.ms, MarkReset(own.times), SegmentStarts(own), ViewsOf(earlier, own),
                            d.times.ms, MarkReset(d.times), SegmentStarts(d), ViewsOf(records, d));
      var r := Resolve(RecordOf(own, earlier));
      assert r.t[..|r.t|] == r.t && r.tf[..|r.t|] == r.tf && r.keep[..|r.t|] == r.keep;
    }
  }

  lemma RestartGrows(own: Decoded, d: Decoded, b: nat, earlier: seq<OffloadRecord>, records: seq<OffloadRecord>)
    requires Grown(own, d, b) && earlier != [] && RestartSeen(own, d, earlier, records)
    requires GrowsOn(|own.times.ms|, SegmentStarts(own), ViewsOf(earlier, own), |d.times.ms|, SegmentStarts(d),
                     ViewsOf(records, d))
    ensures Grows(|own.times.ms|, SegmentStarts(own), ViewsOf(earlier, own), |d.times.ms|, SegmentStarts(d),
                  ViewsOf(records, d))
  {
    hide ViewAt, StartList, GrowsOn;
  }

  /** Let the image and the records of an RBRsolo deployment grow. Each sample set published before, from the image as
      it was then, is published with the same time, flag and keep bit from the image as it is now, if it lies before
      the clock segment of the last offload then, or if the logger has since restarted and every later offload saw
      that. */
  lemma RepublishingKeepsThePast(crc: Checksum, image: seq<byte>, nchan: nat, b: nat, earlier: seq<OffloadRecord>,
                                 records: seq<OffloadRecord>)
    requires DecodeSpec(crc, image, nchan).Ok? && DecodeSpec(crc, image, nchan).value.header.length <= b <= |image|
    requires earlier <= records && SizesGrow(records) && earlier != [] && earlier[|earlier| - 1].imageBytes == Some(b)
    ensures DecodeSpec(crc, image[..b], nchan).Ok?
    ensures var own, d := DecodeSpec(crc, image[..b], nchan).value, DecodeSpec(crc, image, nchan).value;
            Timed(own) && Timed(d) &&
            var r, r' := Resolve(RecordOf(own, earlier)), Resolve(RecordOf(d, records));
            && SamePast(r, r', Settled(own, earlier))
            && (RestartSeen(own, d, earlier, records) ==> SamePast(r, r', |own.times.ms|))
  {
    hide DecodeSpec, ViewAt, StartList, Resolve, MarkReset, RestartSeen, SamePast, Settled;
    DecodesGrow(crc, image, nchan, b);
    GrownKeepsThePast(DecodeSpec(crc, image[..b], nchan).value, DecodeSpec(crc, image, nchan).value, b, earlier,
                      records);
  }

  // ---- duets and concertos ----

  lemma SectionedEventBounds(crc: Checksum, image: seq<byte>, h: Header, nstored: nat)
    requires h.length <= |image| && Parser.DecodeSectioned(crc, image, h, nstored).Ok?
    ensures var d := Parser.DecodeSectioned(crc, image, h, nstored).value;
            Timed(d) && forall k :: 0 <= k < |d.events| ==> d.events[k].sampleIndex <= |d.times.ms|
  {
    hide Parser.Parse, Parser.MarksOf, Parser.BadMarkers, Parser.ReadingsIn, WordsAt, ErrorCodes;
    var body := image[h.length..];
    Sectioned.MarksOrdered(body, h.length, nstored, Parser.ParseAll(crc, body));
  }

  /** The same of a duet's or concerto's image, if the earlier one ended between event records. */
  lemma SectionedDecodesGrow(crc: Checksum, image: seq<byte>, h: Header, nstored: nat, b: nat)
    requires h.length <= b <= |image| && Parser.DecodeSectioned(crc, image, h, nstored).Ok?
    requires Sectioned.CleanCut(Parser.DecodeSectioned(crc, image, h, nstored).value.events, b)
    ensures Parser.DecodeSectioned(crc, image[..b], h, nstored).Ok?
    ensures Grown(Parser.DecodeSectioned(crc, image[..b], h, nstored).value,
                  Parser.DecodeSectioned(crc, image, h, nstored).value, b)
  {
    hide Parser.DecodeSectioned, CountUpTo, EventsWithin, IsPrefix, Sectioned.CleanCut;
    Sectioned.PrefixStability(crc, image, h, nstored, b);
    SectionedEventBounds(crc, image, h, nstored);
    SectionedEventBounds(crc, image[..b], h, nstored);
  }

  /** And so publishing a duet's or concerto's deployment again keeps its past. */
  lemma SectionedKeepsThePast(crc: Checksum, image: seq<byte>, h: Header, nstored: nat, b: nat,
                              earlier: seq<OffloadRecord>, records: seq<OffloadRecord>)
    requires h.length <= b <= |image| && Parser.DecodeSectioned(crc, image, h, nstored).Ok?
    requires Sectioned.CleanCut(Parser.DecodeSectioned(crc, image, h, nstored).value.events, b)
    requires earlier <= records && SizesGrow(records) && earlier != [] && earlier[|earlier| - 1].imageBytes == Some(b)
    ensures Parser.DecodeSectioned(crc, image[..b], h, nstored).Ok?
    ensures var own := Parser.DecodeSectioned(crc, image[..b], h, nstored).value;
            var d := Parser.DecodeSectioned(crc, image, h, nstored).value;
            Timed(own) && Timed(d) &&
            var r, r' := Resolve(RecordOf(own, earlier)), Resolve(RecordOf(d, records));
            && SamePast(r, r', Settled(own, earlier))
            && (RestartSeen(own, d, earlier, records) ==> SamePast(r, r', |own.times.ms|))
  {
    hide Parser.DecodeSectioned, ViewAt, StartList, Resolve, MarkReset, RestartSeen, SamePast, Settled;
    SectionedDecodesGrow(crc, image, h, nstored, b);
    GrownKeepsThePast(Parser.DecodeSectioned(crc, image[..b], h, nstored).value,
                      Parser.DecodeSectioned(crc, image, h, nstored).value, b, earlier, records);
  }
}
