/** Clock sets between offloads: a clock set while the logger was stopped ends the clock runs at what the offload before
    it had seen, as far as later offloads can tell. */
module ClockSets {
  import opened Basics
  import opened ClockSegments
  import opened TimeResolution
  import opened ResolutionLaws
  import opened AppendStability
  import opened SoloDecoder
  import opened SoloWalk
  import opened SoloLaws
  import opened OffloadViews
  import opened Republication

  /** The clock was set after offload k, which had seen a part of the record that is not empty. */
  predicate SetAfter(n: nat, views: seq<OffloadView>, k: nat) {
    k + 1 < |views| && views[k + 1].clockSetBefore && 0 < views[k].samplesSeen <= n
  }

  /** Whoever has seen the sample at a restart has seen the restart. */
  ghost predicate Coherent(v: OffloadView, given: seq<SegmentStart>) {
    forall a :: 0 <= a < |given| && given[a].sampleIndex < v.samplesSeen ==> v.Saw(given[a])
  }

  /** The offload saw a sample past the boundary, or a restart at or past it. */
  ghost predicate SawBeyond(v: OffloadView, given: seq<SegmentStart>, at: nat) {
    v.samplesSeen > at || exists a :: 0 <= a < |given| && given[a].sampleIndex >= at && v.Saw(given[a])
  }

  /** A clock set is a start in force. */
  lemma BoundaryInForce(n: nat, given: seq<SegmentStart>, views: seq<OffloadView>, k: nat) returns (b: nat)
    requires Ordered(given, n) && SetAfter(n, views, k)
    ensures b < |StartsInForce(n, given, views)|
    ensures StartsInForce(n, given, views)[b].sampleIndex == views[k].samplesSeen
  {
    hide Table, WithClockSets;
    var at := views[k].samplesSeen;
    var t := WithClockSets(Table(given), views, n, Pairs(views));
    ClockSetEntries(Table(given), views, n, Pairs(views), at);
    assert ClockSetAt(views, Pairs(views), at);
    assert t[at] in StartsInForce(n, given, views);
    b :| 0 <= b < |StartsInForce(n, given, views)| && StartsInForce(n, given, views)[b] == t[at];
  }

  lemma SeenIsCurrent(v: OffloadView, f: seq<SegmentStart>, n: nat, b: nat)
    requires Ordered(f, n) && b < |f| && v.Saw(f[b])
    ensures Current(v, f) > 0 && f[Current(v, f) - 1].sampleIndex >= f[b].sampleIndex
  {
  }

  /** An offload's current clock segment starts at or past a clock set exactly when it saw a sample past the boundary or
      a restart at or past it. */
  lemma ClockSetEndsRunsExactly(time: seq<int>, flags: seq<TimeFlag>, given: seq<SegmentStart>, views: seq<OffloadView>,
                                k: nat, j: nat)
    requires |flags| == |time| && Ordered(given, |time|) && SetAfter(|time|, views, k)
    requires j < |views| && Coherent(views[j], given)
    ensures var c, at := MakeRecord(time, flags, given, views), views[k].samplesSeen;
            c.Low(Current(views[j], c.starts)) >= at <==> SawBeyond(views[j], given, at)
  {
    hide StartsInForce, Current;
    var n, v, at := |time|, views[j], views[k].samplesSeen;
    var f := StartsInForce(n, given, views);
    var cur := Current(v, f);
    var b := BoundaryInForce(n, given, views, k);
    if v.samplesSeen > at {
      InForceEntry(n, given, views, b);
      SeenIsCurrent(v, f, n, b);
    }
    forall a | 0 <= a < |given| && given[a].sampleIndex >= at && v.Saw(given[a])
      ensures cur > 0 && f[cur - 1].sampleIndex >= at
    {
      GivenInForce(n, given, views, a);
      var x :| 0 <= x < |f| && f[x] == given[a];
      SeenIsCurrent(v, f, n, x);
    }
    if cur > 0 && f[cur - 1].sampleIndex >= at {
      InForceEntry(n, given, views, cur - 1);
    }
  }

  /** So an offload that saw past a clock set times nothing before it. */
  lemma ClockSetProtects(time: seq<int>, flags: seq<TimeFlag>, given: seq<SegmentStart>, views: seq<OffloadView>,
                         k: nat, s: nat, t: seq<int>, keep: seq<bool>, i: nat)
    requires |flags| == |time| == |t| == |keep| && Ordered(given, |time|) && SetAfter(|time|, views, k)
    requires s <= |StartsInForce(|time|, given, views)| && i < |time|
    requires forall j :: 0 <= j < |views| ==> Coherent(views[j], given)
    ensures var c := MakeRecord(time, flags, given, views);
            InFix(c, s, i) && Fix(c, s) != [] && Choose(c, t, keep, s).Some? && i < views[k].samplesSeen ==>
              !SawBeyond(views[Choose(c, t, keep, s).value], given, views[k].samplesSeen)
  {
    hide StartsInForce, Current, Fix, SawBeyond, Coherent, Consistent, LastSet;
    var c := MakeRecord(time, flags, given, views);
    if InFix(c, s, i) && Fix(c, s) != [] && Choose(c, t, keep, s).Some? {
      ClockSetEndsRunsExactly(time, flags, given, views, k, Choose(c, t, keep, s).value);
    }
  }

  // ---- a clock set that nothing has been logged since ----

  /** One sample on a clock restarted in 2000, offloaded, and offloaded again after the clock was set. */
  function SetWhileStopped(): (views: seq<OffloadView>)
    ensures |views| == 2
  {
    [OffloadView(1, 0, 1_600_000_000_000, Seconds(-600_000_000.0), false),
     OffloadView(1, 0, 1_600_000_100_000, Seconds(-100_000_000.0), true)]
  }

  function OneSample(): (c: Record)
    ensures c.Valid() && c.views == SetWhileStopped() && |c.time| == 1
  {
    MakeRecord([946_684_800_000], [TimeFlag(false, true, false)], [], SetWhileStopped())
  }

  lemma OneClockSet()
    ensures OneSample().starts == [SegmentStart(1, None)]
  {
    assert WithClockSets(map[], SetWhileStopped(), 1, 1) == map[1 := SegmentStart(1, None)];
    assert InOrder(map[1 := SegmentStart(1, None)], 1) == [SegmentStart(1, None)];
  }

  lemma OneToFix()
    ensures Fix(OneSample(), 0) == [0]
  {
    hide StartsInForce;
    OneClockSet();
    assert Positions(ResetMask(OneSample().flags), 0, 0) == [];
  }

  lemma NeitherSawIt(k: nat)
    requires k < 2
    ensures Current(SetWhileStopped()[k], OneSample().starts) == 0
  {
    hide StartsInForce;
    OneClockSet();
  }

  lemma EitherConsistent(k: nat)
    requires k < 2
    ensures Consistent([946_684_800_000], [946_684_800_000], [true], [0], SetWhileStopped()[k])
  {
    assert ShiftMs(-600_000_000.0) == -600_000_000_000;
    assert ShiftMs(-100_000_000.0) == -100_000_000_000;
    assert LastBelow([0], 1) == Some(0);
    assert LastSet([true], 0) == None;
  }

  /** The second offload has logged nothing since the clock was set, so its skew, measured on the clock as set, is what
      times the sample; the first offload's skew was measured on the clock the sample was taken on. */
  lemma ClockSetMissed()
    ensures SetAfter(1, SetWhileStopped(), 0) && Coherent(SetWhileStopped()[1], [])
    ensures !SawBeyond(SetWhileStopped()[1], [], 1)
    ensures var c := OneSample();
            Fix(c, 0) == [0] && Choose(c, c.time, [true], 0) == Some(1)
            && Admissible(c, c.time, [true], 0, 0) && Resolve(c).t == [1_046_684_800_000]
  {
    hide StartsInForce, Fix, Consistent, Current, Resolve;
    var c := OneSample();
    OneToFix();
    NeitherSawIt(0);
    NeitherSawIt(1);
    EitherConsistent(0);
    EitherConsistent(1);
    assert Candidates(c, c.time, [true], 0)[1];
    var r := Resolve(c);
    OneClockSet();
    SampleFate(c, 0, 0);
    ChooseLocal(c, 0, c.time, [true], r.t, r.keep);
    InFixIsMember(c, 0, 0);
    assert ShiftMs(-100_000_000.0) == -100_000_000_000;
  }

  // ---- from images ----

  /** What an offload had seen, counted in the decode of a later image, is coherent with that decode's starts. */
  lemma SeenIsCoherent(own: Decoded, d: Decoded, b: nat, v: OffloadView)
    requires Grown(own, d, b) && (v.samplesSeen, v.eventsSeen) == SeenBy(d, Some(b))
    ensures Coherent(v, SegmentStarts(d))
  {
    hide CountUpTo, EventsWithin, StartAt, EventStarts, StartList, AreStarts, IsPrefix;
    var g, ev := SegmentStarts(d), EventStarts(d.events);
    forall a | 0 <= a < |g| && g[a].sampleIndex < v.samplesSeen
      ensures v.Saw(g[a])
    {
      StartMember(d.times.ms, ev, g, g[a]);
      if g[a].eventIndex.Some? {
        StartIsEvent(d, g[a]);
      }
    }
  }

  lemma StartIsEvent(d: Decoded, s: SegmentStart)
    requires StartAt(d.times.ms, EventStarts(d.events), s.sampleIndex) == Some(s) && s.eventIndex.Some?
    ensures s.eventIndex.value < |d.events| && d.events[s.eventIndex.value].sampleIndex == s.sampleIndex
  {
    EventStartsMember(d.events, FirstAt(EventStarts(d.events), s.sampleIndex).value);
  }

  lemma {:induction false} EventStartsMember(events: seq<Event>, j: nat)
    requires j < |EventStarts(events)|
    ensures var (at, k) := EventStarts(events)[j]; k < |events| && events[k].sampleIndex == at
  {
    var m := |events| - 1;
    assert events == events[..m] + [events[m]];
    if j < |EventStarts(events[..m])| {
      EventStartsMember(events[..m], j);
    }
  }

  /** Each offload recorded a size that its own image can have had. */
  ghost predicate SizesFit(records: seq<OffloadRecord>, lo: nat, hi: nat) {
    forall k :: 0 <= k < |records| && records[k].imageBytes.Some? ==> lo <= records[k].imageBytes.value <= hi
  }

  /** Of any image and its records: an offload's current clock segment starts at or past a clock set exactly when it saw
      a sample past the boundary or a restart at or past it. */
  lemma ClockSetEndsRunsOfImages(crc: Checksum, image: seq<byte>, nchan: nat, records: seq<OffloadRecord>, k: nat,
                                 j: nat)
    requires DecodeSpec(crc, image, nchan).Ok?
    requires var d := DecodeSpec(crc, image, nchan).value;
             && SizesFit(records, d.header.length, |image|) && j < |records|
             && SetAfter(|d.times.ms|, ViewsOf(records, d), k)
    ensures var d := DecodeSpec(crc, image, nchan).value;
            Timed(d) &&
            var c, v, at := RecordOf(d, records), ViewAt(records, d, j), ViewAt(records, d, k).samplesSeen;
            c.Low(Current(v, c.starts)) >= at <==> SawBeyond(v, SegmentStarts(d), at)
  {
    hide DecodeSpec, StartList, StartsInForce, SawBeyond, Coherent, Current, SkewJumped, MarkReset;
    var d := DecodeSpec(crc, image, nchan).value;
    DecodeIsTimed(crc, image, nchan);
    AreStartsOrdered(d.times.ms, EventStarts(d.events), SegmentStarts(d));
    ViewIsCoherent(crc, image, nchan, records, j);
    ClockSetEndsRunsExactly(d.times.ms, MarkReset(d.times), SegmentStarts(d), ViewsOf(records, d), k, j);
  }

  lemma ViewIsCoherent(crc: Checksum, image: seq<byte>, nchan: nat, records: seq<OffloadRecord>, j: nat)
    requires DecodeSpec(crc, image, nchan).Ok? && j < |records|
    requires SizesFit(records, DecodeSpec(crc, image, nchan).value.header.length, |image|)
    ensures var d := DecodeSpec(crc, image, nchan).value; Coherent(ViewAt(records, d, j), SegmentStarts(d))
  {
    hide DecodeSpec, Grown, StartList, SkewJumped, ResetBetween, Coherent, CountUpTo, EventsWithin;
    var d, v := DecodeSpec(crc, image, nchan).value, ViewAt(records, DecodeSpec(crc, image, nchan).value, j);
    match records[j].imageBytes {
      case Some(b) =>
        DecodesGrow(crc, image, nchan, b);
        SeenIsCoherent(DecodeSpec(crc, image[..b], nchan).value, d, b, v);
      case None =>
        EverythingSeen(d, v);
    }
  }

  lemma EverythingSeen(d: Decoded, v: OffloadView)
    requires v.samplesSeen == |d.times.ms| && v.eventsSeen == |d.events|
    ensures Coherent(v, SegmentStarts(d))
  {
    hide StartAt, EventStarts, StartList, AreStarts;
    var g, ev := SegmentStarts(d), EventStarts(d.events);
    forall a | 0 <= a < |g| && g[a].sampleIndex < v.samplesSeen
      ensures v.Saw(g[a])
    {
      StartMember(d.times.ms, ev, g, g[a]);
      if g[a].eventIndex.Some? {
        StartIsEvent(d, g[a]);
      }
    }
  }
}
