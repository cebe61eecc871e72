/** Laws of the duet and concerto decoder: the decode method, bytes conserved, and exactly which cuts decode to a
    prefix. */
module SectionedLaws {
  import opened Basics
  import opened ClockSegments
  import opened SampleTiming
  import opened SoloDecoder
  import opened SectionedDecoder
  import opened SectionedWalk
  import Solo = SoloLaws
  import SoloWalk

  // ---- the decode method ----

  lemma {:induction false} MarksOrdered(body: seq<byte>, base: nat, nstored: nat, ts: seq<Word>)
    requires nstored > 0 && Within(ts, body)
    ensures AnchorsOrdered(MarksOf(body, base, nstored, ts).anchors, |ReadingsIn(ts)| / nstored)
    ensures forall k :: 0 <= k < |MarksOf(body, base, nstored, ts).events| ==>
              MarksOf(body, base, nstored, ts).events[k].sampleIndex <= |ReadingsIn(ts)| / nstored
  {
    if ts != [] {
      var init := ts[..|ts| - 1];
      var before, all := MarksOf(body, base, nstored, init), MarksOf(body, base, nstored, ts);
      MarksOrdered(body, base, nstored, init);
      SoloWalk.DivMonotone(|ReadingsIn(init)|, |ReadingsIn(ts)|, nstored);
      assert forall k :: 0 <= k < |before.anchors| ==> all.anchors[k] == before.anchors[k];
      assert forall k :: 0 <= k < |before.events| ==> all.events[k] == before.events[k];
    }
  }

  lemma MaskSelectsValues(crc: Checksum, body: seq<byte>, mask: seq<bool>)
    requires |mask| == |body| / 4
    requires forall w :: 0 <= w < |mask| ==> (mask[w] <==> w in ReadingsIn(ParseAll(crc, body)))
    ensures Positions(mask, 0, |mask|) == ReadingsIn(ParseAll(crc, body))
  {
    hide Parse, ReadingsIn, Positions;
    var ts := ParseAll(crc, body);
    ParseCovers(crc, body, |body| / 4, 0);
    CoveredValues(ts, 0, |body| / 4);
    SortedUnique(Positions(mask, 0, |mask|), ReadingsIn(ts));
  }

  /** The decoder agrees with the reference decoder on every image, and its times are those of its anchors. */
  method Decode(crc: Checksum, image: seq<byte>, h: Header, nstored: nat) returns (r: Result<Decoded, SectionedError>)
    requires h.length <= |image|
    ensures r == DecodeSectioned(crc, image, h, nstored)
    ensures r.Ok? ==> var body := image[h.length..];
                      var anchors := MarksOf(body, h.length, nstored, ParseAll(crc, body)).anchors;
                      && |r.value.raw| == |r.value.errorCode| == nstored * |r.value.times.ms|
                      && IsDated(r.value.times, |r.value.times.ms|, anchors,
                                 Clock(h.startTime, h.loggerTime, h.periodMs))
  {
    hide Parse, MarksOf, BadMarkers, ReadingsIn, Positions, Unreadable, IsDated;
    var checked := CheckHeader(h, nstored);
    if checked.Some? {
      return Err(checked.value);
    }
    var body := image[h.length..];
    ghost var ts := ParseAll(crc, body);
    var w := Walk(crc, body, h.length, nstored);
    if w.FailedAt? {
      return Err(ShortLongRecord);
    }
    MaskSelectsValues(crc, body, w.isReading);
    ReadingsInFit(ts, body);
    var p := Positions(w.isReading, 0, |w.isReading|);
    var nsets := |p| / nstored;
    var used := p[..Whole(|p|, nstored)];
    MarksOrdered(body, h.length, nstored, ts);
    var times := AssignTimes(nsets, w.marks.anchors, Clock(h.startTime, h.loggerTime, h.periodMs));
    r := Ok(Decoded(h, nstored, WordsAt(body, used), ErrorCodes(body, used), times, w.marks.events,
                    4 * (|p| - Whole(|p|, nstored)) + |body| % 4, w.bad, SetEndBytes(h.length, p, nstored)));
  }

  // ---- bytes conserved ----

  function TotalSize(events: seq<Event>): nat {
    if events == [] then 0 else TotalSize(events[..|events| - 1]) + events[|events| - 1].size
  }

  lemma {:induction false} CoverageAddsUp(body: seq<byte>, base: nat, nstored: nat, ts: seq<Word>, lo: nat, hi: nat)
    requires nstored > 0 && Within(ts, body) && Covers(ts, lo, hi)
    ensures 4 * (hi - lo) == 4 * |ReadingsIn(ts)| + TotalSize(MarksOf(body, base, nstored, ts).events)
  {
    if ts != [] {
      var init := ts[..|ts| - 1];
      CoverageAddsUp(body, base, nstored, init, lo, ts[|ts| - 1].at);
      var before, all := MarksOf(body, base, nstored, init).events, MarksOf(body, base, nstored, ts).events;
      assert ts[|ts| - 1].Entry? ==> all[..|all| - 1] == before;
    }
  }

  /** Header, sample sets, event records and trailing bytes make up the image, with nothing lost or counted twice. */
  lemma BytesConserved(crc: Checksum, image: seq<byte>, h: Header, nstored: nat)
    requires h.length <= |image|
    ensures match DecodeSectioned(crc, image, h, nstored)
            case Ok(d) => |image| == h.length + 4 * |d.raw| + TotalSize(d.events) + d.trailingBytes
            case Err(_) => true
  {
    hide Parse, MarksOf, BadMarkers, ReadingsIn, TimesOf, SetEndBytes, Unreadable, TotalSize;
    if DecodeSectioned(crc, image, h, nstored).Ok? {
      var body := image[h.length..];
      ParseCovers(crc, body, |body| / 4, 0);
      CoverageAddsUp(body, h.length, nstored, ParseAll(crc, body), 0, |body| / 4);
    }
  }

  // ---- cutting an image ----

  /** A cut after m words splits token t. */
  predicate Splits(t: Word, m: nat) {
    t.at < m < t.End()
  }

  ghost predicate NoSplit(ts: seq<Word>, m: nat) {
    forall k :: 0 <= k < |ts| ==> !Splits(ts[k], m)
  }

  /** In a body cut after n' words a token is the same unless the cut splits it or a long record of two words is
      involved; a split record's first word turns into a reading. */
  lemma WordCut(crc: Checksum, body: seq<byte>, n: nat, body': seq<byte>, n': nat, i: nat)
    requires 4 * n <= |body| < 4 * n + 4 && 4 * n' <= |body'| < 4 * n' + 4 && body' <= body && i < n' <= n
    requires !Unreadable(body, WordAt(crc, body, n, i))
    ensures WordAt(crc, body', n', i) ==
            if Splits(WordAt(crc, body, n, i), n') then Value(i) else WordAt(crc, body, n, i)
  {
    assert Top(body, i) == Top(body', i);
    var size := 4 * RecordWords(body', i);
    if Candidate(body, i) && 8 <= size && 4 * i + size <= |body'| {
      SliceOfPrefix(body', body, 4 * i + 2, 4 * i + size);
    }
  }

  lemma {:induction false} ParsesPast(crc: Checksum, body: seq<byte>, n: nat, i: nat)
    requires i <= n && 4 * n <= |body| < 4 * n + 4
    ensures forall k :: 0 <= k < |Parse(crc, body, n, i)| ==> i <= Parse(crc, body, n, i)[k].at < n
    decreases n - i
  {
    hide Accepted, RecordWords;
    if i < n {
      ParsesPast(crc, body, n, WordAt(crc, body, n, i).End());
    }
  }

  /** A cut that splits no record gives the parse up to the cut. */
  lemma {:induction false} ParseCut(crc: Checksum, body: seq<byte>, n: nat, body': seq<byte>, n': nat, i: nat)
    returns (rest: seq<Word>)
    requires 4 * n <= |body| < 4 * n + 4 && 4 * n' <= |body'| < 4 * n' + 4 && body' <= body && i <= n' <= n
    requires NoSplit(Parse(crc, body, n, i), n')
    requires forall k :: 0 <= k < |Parse(crc, body, n, i)| ==>
               4 * Parse(crc, body, n, i)[k].End() <= |body| && !Unreadable(body, Parse(crc, body, n, i)[k])
    ensures Parse(crc, body, n, i) == Parse(crc, body', n', i) + rest
    ensures forall k :: 0 <= k < |rest| ==> rest[k].at >= n'
    decreases n' - i
  {
    hide WordAt, Unreadable;
    var ts := Parse(crc, body, n, i);
    if i == n' {
      rest := ts;
      ParsesPast(crc, body, n, i);
      assert Parse(crc, body', n', i) == [];
    } else {
      var t := WordAt(crc, body, n, i);
      assert ts == [t] + Parse(crc, body, n, t.End());
      assert ts[0] == t;
      WordCut(crc, body, n, body', n', i);
      assert forall k :: 0 <= k < |ts| - 1 ==> Parse(crc, body, n, t.End())[k] == ts[k + 1];
      rest := ParseCut(crc, body, n, body', n', t.End());
    }
  }

  lemma {:induction false} ReadingsInConcat(a: seq<Word>, b: seq<Word>)
    ensures ReadingsIn(a + b) == ReadingsIn(a) + ReadingsIn(b)
    decreases |b|
  {
    if b == [] {
      assert a + b == a;
    } else {
      assert (a + b)[..|a| + |b| - 1] == a + b[..|b| - 1];
      ReadingsInConcat(a, b[..|b| - 1]);
    }
  }

  lemma {:induction false} ReadingsFrom(ts: seq<Word>, m: nat)
    requires forall k :: 0 <= k < |ts| ==> ts[k].at >= m
    ensures forall k :: 0 <= k < |ReadingsIn(ts)| ==> ReadingsIn(ts)[k] >= m
  {
    if ts != [] {
      ReadingsFrom(ts[..|ts| - 1], m);
    }
  }

  /** Tokens past a cut add events that end past it and date nothing before it. */
  lemma {:induction false} MarksConcat(body: seq<byte>, base: nat, nstored: nat, a: seq<Word>, rest: seq<Word>, m: nat)
    requires nstored > 0 && Within(a + rest, body) && Within(a, body)
    requires forall k :: 0 <= k < |rest| ==> rest[k].at >= m
    ensures var x, all := MarksOf(body, base, nstored, a), MarksOf(body, base, nstored, a + rest);
            var floor := |ReadingsIn(a)| / nstored;
            && x.events <= all.events && x.anchors <= all.anchors
            && (forall k :: |x.events| <= k < |all.events| ==>
                  all.events[k].offset >= base + 4 * m && all.events[k].size >= 8 && all.events[k].sampleIndex >= floor)
            && (forall k :: |x.anchors| <= k < |all.anchors| ==> all.anchors[k].index >= floor)
    decreases |rest|
  {
    hide EventOf, AnchorFrom, Anchors, MarksOf, BadMarkers, ReadingsIn;
    if rest == [] {
      assert a + rest == a;
    } else {
      var r := |rest| - 1;
      var init, t := a + rest[..r], rest[r];
      assert a + rest == init + [t];
      assert (a + rest)[|a| + r] == t;
      WithinInit(init, t, body);
      MarksConcat(body, base, nstored, a, rest[..r], m);
      ReadingsInConcat(a, rest[..r]);
      SoloWalk.DivMonotone(|ReadingsIn(a)|, |ReadingsIn(init)|, nstored);
      AppendWord(body, base, nstored, init, t);
      EntryShape(body, base, nstored, t, |ReadingsIn(init)| / nstored);
    }
  }

  lemma WithinInit(init: seq<Word>, t: Word, body: seq<byte>)
    requires Within(init + [t], body)
    ensures Within(init, body) && 4 * t.End() <= |body| && (t.Entry? ==> t.words >= 2)
  {
    assert (init + [t])[|init|] == t;
    assert forall k :: 0 <= k < |init| ==> (init + [t])[k] == init[k];
  }

  lemma EntryShape(body: seq<byte>, base: nat, nstored: nat, t: Word, index: nat)
    requires 4 * t.End() <= |body| && (t.Entry? ==> t.words >= 2)
    ensures t.Entry? ==> EventOf(body, base, t, index).offset == base + 4 * t.at
                         && EventOf(body, base, t, index).size == 4 * t.words
                         && EventOf(body, base, t, index).sampleIndex == index
    ensures t.Entry? ==> AnchorFrom(body, t, index).index == index
  {
  }

  lemma {:induction false} MarksEndBy(body: seq<byte>, base: nat, nstored: nat, a: seq<Word>, m: nat)
    requires nstored > 0 && Within(a, body) && forall k :: 0 <= k < |a| ==> a[k].End() <= m
    ensures forall k :: 0 <= k < |MarksOf(body, base, nstored, a).events| ==>
              MarksOf(body, base, nstored, a).events[k].offset
              + MarksOf(body, base, nstored, a).events[k].size <= base + 4 * m
  {
    if a != [] {
      MarksEndBy(body, base, nstored, a[..|a| - 1], m);
    }
  }

  lemma {:induction false} MarksSameBody(body: seq<byte>, body': seq<byte>, base: nat, nstored: nat, a: seq<Word>)
    requires nstored > 0 && body' <= body && Within(a, body')
    ensures Within(a, body) && MarksOf(body', base, nstored, a) == MarksOf(body, base, nstored, a)
  {
    if a != [] {
      MarksSameBody(body, body', base, nstored, a[..|a| - 1]);
    }
  }

  /** Sample sets before the first anchor past the cut keep their time, flag and segment. */
  lemma TimesKept(x: seq<Anchor>, all: seq<Anchor>, n': nat, n: nat, clock: Clock)
    requires x <= all && n' <= n && forall k :: |x| <= k < |all| ==> all[k].index >= n'
    ensures var a, b := TimesOf(n', x, clock), TimesOf(n, all, clock);
            a.ms <= b.ms && a.flags <= b.flags && a.segment <= b.segment
  {
    hide AnchorOf;
    forall i | 0 <= i < n'
      ensures AnchorOf(x, i) == AnchorOf(all, i) && MsAt(x, clock, i) == MsAt(all, clock, i)
              && FlagAt(x, clock, i) == FlagAt(all, clock, i)
    {
      AnchorOfPrefix(all, |x|, i);
      assert all[..|x|] == x;
    }
  }

  // ---- prefix stability ----

  /** A cut after b bytes is clean when it splits no event record: each has ended, or has no whole word in the cut. */
  ghost predicate CleanCut(events: seq<Event>, b: nat) {
    forall k :: 0 <= k < |events| ==> events[k].offset + events[k].size <= b || events[k].offset + 4 > b
  }

  /** A clean cut splits no token of the parse. */
  lemma {:induction false} CleanCutSplitsNone(body: seq<byte>, base: nat, nstored: nat, ts: seq<Word>, m: nat, b: nat)
    requires nstored > 0 && Within(ts, body) && base + 4 * m <= b < base + 4 * m + 4
    ensures CleanCut(MarksOf(body, base, nstored, ts).events, b) <==> NoSplit(ts, m)
  {
    if ts != [] {
      var init, t := ts[..|ts| - 1], ts[|ts| - 1];
      CleanCutSplitsNone(body, base, nstored, init, m, b);
      var before, all := MarksOf(body, base, nstored, init).events, MarksOf(body, base, nstored, ts).events;
      assert forall k :: 0 <= k < |init| ==> ts[k] == init[k];
      assert forall k :: 0 <= k < |before| ==> all[k] == before[k];
      assert NoSplit(ts, m) <==> NoSplit(init, m) && !Splits(t, m);
      if t.Entry? {
        assert all == before + [all[|before|]];
        assert all[|before|].offset == base + 4 * t.at && all[|before|].size == 4 * t.words;
        assert CleanCut(all, b) <==>
                 && CleanCut(before, b)
                 && (all[|before|].offset + all[|before|].size <= b || all[|before|].offset + 4 > b);
      }
    }
  }

  lemma {:induction false} ReadingsEndBy(a: seq<Word>, m: nat)
    requires forall k :: 0 <= k < |a| ==> a[k].End() <= m
    ensures forall k :: 0 <= k < |ReadingsIn(a)| ==> ReadingsIn(a)[k] + 1 <= m
  {
    if a != [] {
      ReadingsEndBy(a[..|a| - 1], m);
    }
  }

  /** The readings side of a clean cut. */
  lemma ReadingsKept(base: nat, body': seq<byte>, body: seq<byte>, nstored: nat, a: seq<Word>, rest: seq<Word>, b: nat)
    requires nstored > 0 && body' <= body && b == base + |body'| && Within(a + rest, body) && Within(a, body')
    requires forall k :: 0 <= k < |a| ==> a[k].End() <= |body'| / 4
    requires forall k :: 0 <= k < |rest| ==> rest[k].at >= |body'| / 4
    ensures forall k :: 0 <= k < |ReadingsIn(a)| ==> 4 * ReadingsIn(a)[k] + 4 <= |body'|
    ensures forall k :: 0 <= k < |ReadingsIn(a + rest)| ==> 4 * ReadingsIn(a + rest)[k] + 4 <= |body|
    ensures var p', p := ReadingsIn(a), ReadingsIn(a + rest);
            var u', u := Whole(|p'|, nstored), Whole(|p|, nstored);
            && |p'| / nstored <= |p| / nstored
            && WordsAt(body', p'[..u']) <= WordsAt(body, p[..u])
               && ErrorCodes(body', p'[..u']) <= ErrorCodes(body, p[..u])
            && SetEndBytes(base, p', nstored) <= SetEndBytes(base, p, nstored)
            && Solo.CountUpTo(SetEndBytes(base, p, nstored), b) == |p'| / nstored
  {
    hide ReadingsIn, Solo.CountUpTo, SetEndBytes, Within, WordsAt, ErrorCodes;
    var m, p', p := |body'| / 4, ReadingsIn(a), ReadingsIn(a + rest);
    ReadingsInConcat(a, rest);
    ReadingsEndBy(a, m);
    ReadingsFrom(rest, m);
    Solo.SetsCut(base, p', p, nstored, m, b);
    Solo.UsedMonotone(|p'|, |p|, nstored);
    ReadingsInFit(a, body');
    ReadingsInFit(a + rest, body);
    Solo.WordsCut(body', body, p'[..Whole(|p'|, nstored)], p[..Whole(|p|, nstored)]);
  }

  /** Events from the given position on end past byte b and date no set before the given one. */
  ghost predicate EventsPast(events: seq<Event>, from: nat, nsets: nat, b: nat) {
    forall k :: from <= k < |events| ==> events[k].sampleIndex >= nsets && events[k].offset + events[k].size > b
  }

  lemma ArePast(events: seq<Event>, from: nat, nsets: nat, start: nat, b: nat)
    requires forall k :: from <= k < |events| ==>
               events[k].offset >= start && events[k].size >= 8 && events[k].sampleIndex >= nsets
    requires b < start + 8
    ensures EventsPast(events, from, nsets, b)
  {
  }

  /** The events side of a clean cut. */
  lemma MarksKept(base: nat, body': seq<byte>, body: seq<byte>, nstored: nat, a: seq<Word>, rest: seq<Word>, b: nat,
                  clock: Clock)
    requires nstored > 0 && body' <= body && b == base + |body'| && Within(a + rest, body) && Within(a, body')
    requires forall k :: 0 <= k < |a| ==> a[k].End() <= |body'| / 4
    requires forall k :: 0 <= k < |rest| ==> rest[k].at >= |body'| / 4
    requires |ReadingsIn(a)| / nstored <= |ReadingsIn(a + rest)| / nstored
    ensures var x, all := MarksOf(body', base, nstored, a), MarksOf(body, base, nstored, a + rest);
            && x.events <= all.events && Solo.EventsWithin(all.events, b) == |x.events|
            && EventsPast(all.events, |x.events|, |ReadingsIn(a)| / nstored, b)
            && var s, t := TimesOf(|ReadingsIn(a)| / nstored, x.anchors, clock),
                           TimesOf(|ReadingsIn(a + rest)| / nstored, all.anchors, clock);
               s.ms <= t.ms && s.flags <= t.flags && s.segment <= t.segment
  {
    hide ReadingsIn, MarksOf, Solo.EventsWithin, TimesOf, Within;
    var m := |body'| / 4;
    MarksSameBody(body, body', base, nstored, a);
    MarksConcat(body, base, nstored, a, rest, m);
    MarksEndBy(body, base, nstored, a, m);
    var x, all := MarksOf(body, base, nstored, a), MarksOf(body, base, nstored, a + rest);
    Solo.EventsWithinIs(all.events, b, |x.events|);
    ArePast(all.events, |x.events|, |ReadingsIn(a)| / nstored, base + 4 * m, b);
    hide EventsPast;
    TimesKept(x.anchors, all.anchors, |ReadingsIn(a)| / nstored, |ReadingsIn(a + rest)| / nstored, clock);
  }

  lemma NoneUnreadableInPrefix(body: seq<byte>, body': seq<byte>, a: seq<Word>, rest: seq<Word>)
    requires body' <= body && Within(a + rest, body) && Within(a, body') && !AnyUnreadable(body, a + rest)
    ensures !AnyUnreadable(body', a)
  {
    assert forall k :: 0 <= k < |a| ==> (a + rest)[k] == a[k];
    forall k | 0 <= k < |a|
      ensures !Unreadable(body', a[k])
    {
      assert !Unreadable(body, (a + rest)[k]);
    }
  }

  lemma AssembledCut(h: Header, body': seq<byte>, body: seq<byte>, nstored: nat, a: seq<Word>, rest: seq<Word>, b: nat)
    requires nstored > 0 && body' <= body && b == h.length + |body'| && Within(a + rest, body) && Within(a, body')
    requires forall k :: 0 <= k < |a| ==> a[k].End() <= |body'| / 4
    requires forall k :: 0 <= k < |rest| ==> rest[k].at >= |body'| / 4
    ensures var d', d := Assembled(h, body', nstored, a), Assembled(h, body, nstored, a + rest);
            && Solo.IsPrefix(d', d)
            && |d'.times.ms| == Solo.CountUpTo(d.setEndByte, b)
            && |d'.events| == Solo.EventsWithin(d.events, b)
            && EventsPast(d.events, |d'.events|, |d'.times.ms|, b)
  {
    hide ReadingsIn, MarksOf, BadMarkers, Solo.CountUpTo, Solo.EventsWithin, TimesOf, SetEndBytes, Within, WordsAt,
         ErrorCodes;
    ReadingsKept(h.length, body', body, nstored, a, rest, b);
    MarksKept(h.length, body', body, nstored, a, rest, b, Clock(h.startTime, h.loggerTime, h.periodMs));
  }

  /** Cutting an image where no accepted event is split gives a prefix of the decode, with the sample sets and events
      the full decode counts by end byte. The events past the cut date sets past it. */
  lemma PrefixStability(crc: Checksum, image: seq<byte>, h: Header, nstored: nat, b: nat)
    requires h.length <= b <= |image| && DecodeSectioned(crc, image, h, nstored).Ok?
    requires CleanCut(DecodeSectioned(crc, image, h, nstored).value.events, b)
    ensures DecodeSectioned(crc, image[..b], h, nstored).Ok?
    ensures var d', d := DecodeSectioned(crc, image[..b], h, nstored).value,
            DecodeSectioned(crc, image, h, nstored).value;
            && Solo.IsPrefix(d', d)
            && |d'.times.ms| == Solo.CountUpTo(d.setEndByte, b)
            && |d'.events| == Solo.EventsWithin(d.events, b)
            && EventsPast(d.events, |d'.events|, |d'.times.ms|, b)
  {
    hide Parse, MarksOf, BadMarkers, ReadingsIn, TimesOf, SetEndBytes, Unreadable, CleanCut, NoSplit, Solo.IsPrefix,
         Solo.CountUpTo, Solo.EventsWithin, Assembled;
    var body', body := image[..b][h.length..], image[h.length..];
    assert body' == body[..b - h.length];
    var ts, n' := ParseAll(crc, body), |body'| / 4;
    AssembledEvents(h, body, nstored, ts);
    CleanCutSplitsNone(body, h.length, nstored, ts, n', b);
    ReadableAll(body, ts);
    var rest := ParseCut(crc, body, |body| / 4, body', n', 0);
    var a := ParseAll(crc, body');
    assert ts == a + rest;
    ParseCovers(crc, body', n', 0);
    EndsBefore(a, 0, n');
    NoneUnreadableInPrefix(body, body', a, rest);
    AssembledCut(h, body', body, nstored, a, rest, b);
  }

  lemma AssembledEvents(h: Header, body: seq<byte>, nstored: nat, ts: seq<Word>)
    requires nstored > 0 && Within(ts, body)
    ensures Assembled(h, body, nstored, ts).events == MarksOf(body, h.length, nstored, ts).events
  {
    hide MarksOf;
  }

  lemma ReadableAll(body: seq<byte>, ts: seq<Word>)
    requires Within(ts, body) && !AnyUnreadable(body, ts)
    ensures forall k :: 0 <= k < |ts| ==> 4 * ts[k].End() <= |body| && !Unreadable(body, ts[k])
  {
  }

  /** When a record is split, its first word is parsed as a reading of the cut body. */
  lemma {:induction false} SplitWordIsRead(crc: Checksum, body: seq<byte>, n: nat, body': seq<byte>, n': nat, i: nat,
                                           k: nat)
    requires 4 * n <= |body| < 4 * n + 4 && 4 * n' <= |body'| < 4 * n' + 4 && body' <= body && i <= n' <= n
    requires forall k :: 0 <= k < |Parse(crc, body, n, i)| ==>
               4 * Parse(crc, body, n, i)[k].End() <= |body| && !Unreadable(body, Parse(crc, body, n, i)[k])
    requires k < |Parse(crc, body, n, i)| && Splits(Parse(crc, body, n, i)[k], n')
    ensures Value(Parse(crc, body, n, i)[k].at) in Parse(crc, body', n', i)
    decreases n' - i
  {
    hide WordAt, Unreadable;
    var ts := Parse(crc, body, n, i);
    ParsesPast(crc, body, n, i);
    assert i < n';
    var t := WordAt(crc, body, n, i);
    assert ts == [t] + Parse(crc, body, n, t.End());
    assert ts[0] == t;
    WordCut(crc, body, n, body', n', i);
    if k > 0 {
      ParsesPast(crc, body, n, t.End());
      assert Parse(crc, body, n, t.End())[k - 1] == ts[k];
      assert forall j :: 0 <= j < |ts| - 1 ==> Parse(crc, body, n, t.End())[j] == ts[j + 1];
      SplitWordIsRead(crc, body, n, body', n', t.End(), k - 1);
    }
  }

  lemma {:induction false} ValueIsRead(ts: seq<Word>, w: nat)
    requires Value(w) in ts
    ensures w in ReadingsIn(ts)
  {
    var m := |ts| - 1;
    if ts[m] != Value(w) {
      assert Value(w) in ts[..m];
      ValueIsRead(ts[..m], w);
    }
  }

  /** The clean cuts are exactly those whose readings are a prefix of the full readings: a split record would put its
      own first word among them. */
  lemma CleanCutExactly(crc: Checksum, image: seq<byte>, h: Header, nstored: nat, b: nat)
    requires h.length <= b <= |image| && DecodeSectioned(crc, image, h, nstored).Ok?
    ensures CleanCut(DecodeSectioned(crc, image, h, nstored).value.events, b) <==>
            ReadingsIn(ParseAll(crc, image[..b][h.length..])) <= ReadingsIn(ParseAll(crc, image[h.length..]))
  {
    hide Parse, MarksOf, BadMarkers, ReadingsIn, TimesOf, SetEndBytes, Unreadable, CleanCut, Assembled, Splits;
    var body', body := image[..b][h.length..], image[h.length..];
    assert body' == body[..b - h.length];
    var ts, n', n := ParseAll(crc, body), |body'| / 4, |body| / 4;
    AssembledEvents(h, body, nstored, ts);
    CleanCutSplitsNone(body, h.length, nstored, ts, n', b);
    ReadableAll(body, ts);
    if NoSplit(ts, n') {
      var rest := ParseCut(crc, body, n, body', n', 0);
      ReadingsInConcat(ParseAll(crc, body'), rest);
    } else {
      var k :| 0 <= k < |ts| && Splits(ts[k], n');
      SplitWordIsRead(crc, body, n, body', n', 0, k);
      ValueIsRead(ParseAll(crc, body'), ts[k].at);
      ParseCovers(crc, body, n, 0);
      SplitIsEntry(ts, k, n');
      ValuesAreOutsideRecords(ts, 0, n, ts[k].at);
    }
  }

  lemma SplitIsEntry(ts: seq<Word>, k: nat, m: nat)
    requires k < |ts| && Splits(ts[k], m)
    ensures ts[k].Entry? && ts[k].at <= ts[k].at < ts[k].End()
  {
  }
}
