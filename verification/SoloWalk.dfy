/** The fast walk over a solo image: it visits only the words that carry the event marker, and agrees with the
    word-by-word parser. */
module SoloWalk {
  import opened Basics
  import opened ClockSegments
  import opened SampleTiming
  import opened SoloDecoder
  import opened DecodedTimes

  // ---- tokens tile the body ----

  /** Each token starts where the one before it ends; together they cover the words [lo, hi) once. */
  ghost predicate Tiles(ts: seq<Token>, lo: nat, hi: nat) {
    if ts == [] then lo == hi
    else
      var m := |ts| - 1;
      ts[m].End() == hi && Tiles(ts[..m], lo, ts[m].at)
  }

  lemma {:induction false} TilesPrepend(t: Token, ts: seq<Token>, hi: nat)
    requires Tiles(ts, t.End(), hi)
    ensures Tiles([t] + ts, t.at, hi)
    decreases |ts|
  {
    if ts == [] {
      assert [t] + ts == [t];
      assert [t][..0] == [];
    } else {
      var m := |ts| - 1;
      TilesPrepend(t, ts[..m], ts[m].at);
      assert ([t] + ts)[..m + 1] == [t] + ts[..m];
    }
  }

  /** Every word of the body belongs to exactly one token of the parse. */
  lemma {:induction false} ScanTiles(crc: Checksum, body: seq<byte>, n: nat, i: nat)
    requires i <= n && 4 * n <= |body|
    ensures Tiles(Scan(crc, body, n, i), i, n)
    decreases n - i
  {
    if i < n {
      var t := TokenAt(crc, body, n, i);
      ScanTiles(crc, body, n, t.End());
      TilesPrepend(t, Scan(crc, body, n, t.End()), n);
    }
  }

  lemma {:induction false} TiledReadings(ts: seq<Token>, lo: nat, hi: nat)
    requires Tiles(ts, lo, hi)
    ensures lo <= hi
    ensures forall k :: 0 <= k < |ReadingsOf(ts)| ==> lo <= ReadingsOf(ts)[k] < hi
    ensures forall a, b :: 0 <= a < b < |ReadingsOf(ts)| ==> ReadingsOf(ts)[a] < ReadingsOf(ts)[b]
  {
    if ts != [] {
      TiledReadings(ts[..|ts| - 1], lo, ts[|ts| - 1].at);
    }
  }

  // ---- runs of readings ----

  function ReadingRun(lo: nat, hi: nat): (r: seq<Token>)
    requires lo <= hi
    ensures |r| == hi - lo && forall k :: 0 <= k < |r| ==> r[k] == Reading(lo + k)
  {
    seq(hi - lo, k requires 0 <= k < hi - lo => Reading(lo + k))
  }

  predicate Unmarked(body: seq<byte>, lo: nat, hi: nat)
    requires 4 * hi <= |body|
  {
    forall w :: lo <= w < hi ==> !Marked(body, w)
  }

  lemma {:induction false} ScanOverRun(crc: Checksum, body: seq<byte>, n: nat, lo: nat, hi: nat)
    requires lo <= hi <= n && 4 * n <= |body| && Unmarked(body, lo, hi)
    ensures Scan(crc, body, n, lo) == ReadingRun(lo, hi) + Scan(crc, body, n, hi)
    decreases hi - lo
  {
    if lo < hi {
      ScanOverRun(crc, body, n, lo + 1, hi);
      assert ReadingRun(lo, hi) == [Reading(lo)] + ReadingRun(lo + 1, hi);
    } else {
      assert ReadingRun(lo, hi) == [];
    }
  }

  /** A run adds its own words to the readings, and nothing to the events or the corrupt records. */
  lemma {:induction false} AppendRun(body: seq<byte>, base: nat, nchan: nat, ts: seq<Token>, lo: nat, hi: nat)
    requires nchan > 0 && Fit(ts, body) && lo <= hi && 4 * hi <= |body|
    ensures var all := ts + ReadingRun(lo, hi);
            && Fit(all, body)
            && |ReadingsOf(all)| == |ReadingsOf(ts)| + (hi - lo)
            && (forall w :: w in ReadingsOf(all) <==> w in ReadingsOf(ts) || lo <= w < hi)
            && EventsOf(body, base, nchan, all) == EventsOf(body, base, nchan, ts)
            && CorruptOf(all) == CorruptOf(ts)
    decreases hi
  {
    if lo < hi {
      AppendRun(body, base, nchan, ts, lo, hi - 1);
      assert (ts + ReadingRun(lo, hi))[..|ts| + (hi - lo) - 1] == ts + ReadingRun(lo, hi - 1);
    } else {
      assert ts + ReadingRun(lo, hi) == ts;
    }
  }

  lemma AppendToken(body: seq<byte>, base: nat, nchan: nat, ts: seq<Token>, t: Token)
    requires nchan > 0 && Fit(ts, body) && 4 * t.End() <= |body|
    ensures var all := ts + [t];
            && Fit(all, body)
            && ReadingsOf(all) == ReadingsOf(ts) + (if t.Reading? then [t.at] else [])
            && EventsOf(body, base, nchan, all) == EventsOf(body, base, nchan, ts) +
               (if t.Record? then [EventAt(body, base, t.at, |ReadingsOf(ts)| / nchan)] else [])
            && CorruptOf(all) == CorruptOf(ts) + (if t.Corrupt? then 1 else 0)
  {
    assert (ts + [t])[..|ts|] == ts;
  }

  // ---- the walk ----

  /** The state of the walk after the tokens `done`, which end at word `prev`. */
  ghost predicate WalkInv(crc: Checksum, body: seq<byte>, n: nat, base: nat, nchan: nat, done: seq<Token>, prev: nat,
                          isReading: seq<bool>, events: seq<Event>, readingsBefore: nat, bad: nat)
    requires nchan > 0 && 4 * n <= |body|
  {
    && prev <= n == |isReading| && Fit(done, body)
    && Scan(crc, body, n, 0) == done + Scan(crc, body, n, prev)
    && (forall w :: 0 <= w < prev ==> (isReading[w] <==> w in ReadingsOf(done)))
    && (forall w :: prev <= w < n ==> isReading[w])
    && events == EventsOf(body, base, nchan, done)
    && readingsBefore == |ReadingsOf(done)|
    && bad == CorruptOf(done)
  }

  /** Everything the walk has settled when it stands at marked word i, past the run of readings before it. */
  lemma WalkRun(crc: Checksum, body: seq<byte>, n: nat, base: nat, nchan: nat, done: seq<Token>, prev: nat,
                isReading: seq<bool>, events: seq<Event>, readingsBefore: nat, bad: nat, i: nat)
    requires nchan > 0 && 4 * n <= |body|
    requires WalkInv(crc, body, n, base, nchan, done, prev, isReading, events, readingsBefore, bad)
    requires prev <= i <= n && Unmarked(body, prev, i)
    ensures |Positions(isReading, prev, i)| == i - prev
    ensures WalkInv(crc, body, n, base, nchan, done + ReadingRun(prev, i), i, isReading, events,
                    readingsBefore + (i - prev), bad)
  {
    hide Scan, EventsOf, CorruptOf, ReadingsOf, Positions;
    AllSetCount(isReading, prev, i);
    ScanOverRun(crc, body, n, prev, i);
    AppendRun(body, base, nchan, done, prev, i);
    assert done + (ReadingRun(prev, i) + Scan(crc, body, n, i)) == (done + ReadingRun(prev, i)) + Scan(crc, body, n, i);
  }

  /** The two words of a record, or the one of a cut marker, are no readings. */
  lemma WalkToken(crc: Checksum, body: seq<byte>, n: nat, base: nat, nchan: nat, done: seq<Token>, i: nat,
                  isReading: seq<bool>, events: seq<Event>, readingsBefore: nat, bad: nat, t: Token,
                  isReading': seq<bool>)
    requires nchan > 0 && 4 * n <= |body| && i < n
    requires WalkInv(crc, body, n, base, nchan, done, i, isReading, events, readingsBefore, bad)
    requires t == TokenAt(crc, body, n, i) && !t.Reading?
    requires |isReading'| == n && forall w :: 0 <= w < n ==> isReading'[w] == (isReading[w] && !(i <= w < t.End()))
    ensures WalkInv(crc, body, n, base, nchan, done + [t], t.End(), isReading',
                    events + (if t.Record? then [EventAt(body, base, i, readingsBefore / nchan)] else []),
                    readingsBefore, bad + if t.Corrupt? then 1 else 0)
  {
    hide EventsOf, CorruptOf, ReadingsOf;
    AppendToken(body, base, nchan, done, t);
    assert Scan(crc, body, n, i) == [t] + Scan(crc, body, n, t.End());
    assert done + ([t] + Scan(crc, body, n, t.End())) == (done + [t]) + Scan(crc, body, n, t.End());
    DoneBelow(crc, body, n, done, i);
  }

  /** Words already parsed lie before the word the parse stands at. */
  lemma DoneBelow(crc: Checksum, body: seq<byte>, n: nat, done: seq<Token>, prev: nat)
    requires prev <= n && 4 * n <= |body| && Scan(crc, body, n, 0) == done + Scan(crc, body, n, prev)
    ensures forall k :: 0 <= k < |ReadingsOf(done)| ==> ReadingsOf(done)[k] < prev
  {
    hide Scan, ReadingsOf;
    ScanTiles(crc, body, n, 0);
    ScanTiles(crc, body, n, prev);
    TilesCut(done, Scan(crc, body, n, prev), 0, prev, n);
    TiledReadings(done, 0, prev);
  }

  lemma {:induction false} TilesCut(a: seq<Token>, b: seq<Token>, lo: nat, mid: nat, hi: nat)
    requires Tiles(a + b, lo, hi) && Tiles(b, mid, hi)
    ensures Tiles(a, lo, mid)
    decreases |b|
  {
    if b == [] {
      assert a + b == a;
    } else {
      var m := |b| - 1;
      assert (a + b)[..|a| + m] == a + b[..m];
      TilesCut(a, b[..m], lo, mid, b[m].at);
    }
  }

  function MarkedMask(body: seq<byte>, n: nat): (r: seq<bool>)
    requires 4 * n <= |body|
    ensures |r| == n && forall i :: 0 <= i < n ==> r[i] == Marked(body, i)
  {
    seq(n, i requires 0 <= i < n => Marked(body, i))
  }

  /** Take the marked word i, past the run of readings before it: an event record, a corrupt one, or one cut off. */
  method TakeMarked(crc: Checksum, body: seq<byte>, n: nat, base: nat, nchan: nat, ghost done: seq<Token>, prev: nat,
                    i: nat, mask: array<bool>, events: seq<Event>, readingsBefore: nat, bad: nat)
    returns (events': seq<Event>, counted: nat, bad': nat, ghost done': seq<Token>)
    requires nchan > 0 && 4 * n <= |body| && prev <= i < n && Unmarked(body, prev, i) && Marked(body, i)
    requires WalkInv(crc, body, n, base, nchan, done, prev, mask[..], events, readingsBefore, bad)
    modifies mask
    ensures WalkInv(crc, body, n, base, nchan, done', if i + 1 >= n then n else i + 2, mask[..], events', counted, bad')
  {
    hide Scan, EventsOf, CorruptOf, ReadingsOf, Positions, U32, RecordOk;
    ghost var before := mask[..];
    WalkRun(crc, body, n, base, nchan, done, prev, before, events, readingsBefore, bad, i);
    counted := readingsBefore + |Positions(mask[..], prev, i)|;
    ghost var t := TokenAt(crc, body, n, i);
    forall w | i <= w < n && w < i + 2 {
      mask[w] := false;
    }
    done' := done + ReadingRun(prev, i) + [t];
    WalkToken(crc, body, n, base, nchan, done + ReadingRun(prev, i), i, before, events, counted, bad, t, mask[..]);
    events', bad' := events, bad;
    if i + 1 < n {
      if RecordOk(crc, body, i) {
        events' := events + [EventAt(body, base, i, counted / nchan)];
      } else {
        bad' := bad + 1;
      }
    }
  }

  /** The walk over marked words finds the readings, the events and the corrupt records of the parse. */
  method Walk(crc: Checksum, body: seq<byte>, base: nat, nchan: nat)
    returns (isReading: seq<bool>, events: seq<Event>, bad: nat)
    requires nchan > 0
    ensures var n, ts := |body| / 4, Scan(crc, body, |body| / 4, 0);
            WalkInv(crc, body, n, base, nchan, ts, n, isReading, events, |ReadingsOf(ts)|, bad)
  {
    hide Scan, EventsOf, CorruptOf, ReadingsOf, Positions, Marked, U32, RecordOk;
    var n := |body| / 4;
    var mask := new bool[n](_ => true);
    events, bad := [], 0;
    var prev, readingsBefore := 0, 0;
    ghost var done: seq<Token> := [];
    StartWalk(crc, body, n, base, nchan, mask[..]);
    var candidates := Positions(MarkedMask(body, n), 0, n);
    BetweenCandidates(body, n, candidates, -1);
    var c := 0;
    while c < |candidates|
      invariant 0 <= c <= |candidates| && 0 <= prev && 0 <= readingsBefore
      invariant WalkInv(crc, body, n, base, nchan, done, prev, mask[..], events, readingsBefore, bad)
      invariant Unmarked(body, prev, if c < |candidates| then candidates[c] else n)
    {
      var i := candidates[c];
      BetweenCandidates(body, n, candidates, c);
      if i >= prev {
        events, readingsBefore, bad, done :=
          TakeMarked(crc, body, n, base, nchan, done, prev, i, mask, events, readingsBefore, bad);
        if i + 1 >= n {
          prev := n;
          break;
        }
        prev := i + 2;
      }
      c := c + 1;
    }
    isReading := mask[..];
    WalkRun(crc, body, n, base, nchan, done, prev, isReading, events, readingsBefore, bad, n);
    EndWalk(crc, body, n, done + ReadingRun(prev, n));
  }

  lemma StartWalk(crc: Checksum, body: seq<byte>, n: nat, base: nat, nchan: nat, mask: seq<bool>)
    requires nchan > 0 && 4 * n <= |body| && |mask| == n && forall w :: 0 <= w < n ==> mask[w]
    ensures WalkInv(crc, body, n, base, nchan, [], 0, mask, [], 0, 0)
  {
    hide Scan;
  }

  lemma EndWalk(crc: Checksum, body: seq<byte>, n: nat, ts: seq<Token>)
    requires 4 * n <= |body| && Scan(crc, body, n, 0) == ts + Scan(crc, body, n, n)
    ensures ts == Scan(crc, body, n, 0)
  {
  }

  /** Before the first candidate, and between two consecutive ones, no word carries the marker. */
  lemma BetweenCandidates(body: seq<byte>, n: nat, candidates: seq<nat>, c: int)
    requires 4 * n <= |body| && candidates == Positions(MarkedMask(body, n), 0, n) && -1 <= c < |candidates|
    ensures c >= 0 ==> candidates[c] < n && Marked(body, candidates[c])
    ensures c + 1 < |candidates| ==> candidates[c + 1] <= n
    ensures Unmarked(body, if c < 0 then 0 else candidates[c] + 1, if c + 1 < |candidates| then candidates[c + 1]
                     else n)
  {
    hide Positions;
    forall w: nat | (if c < 0 then 0 else candidates[c] + 1) <= w < (if c + 1 < |candidates| then candidates[c + 1]
                                                                     else n)
      ensures !Marked(body, w)
    {
      PositionsGap(MarkedMask(body, n), 0, n, c, w);
    }
  }

  /** The mask the walk leaves selects exactly the reading words of the reference parse, in order. */
  lemma MaskSelectsReadings(crc: Checksum, body: seq<byte>, n: nat, mask: seq<bool>)
    requires 4 * n <= |body| && |mask| == n
    requires forall w :: 0 <= w < n ==> (mask[w] <==> w in ReadingsOf(Scan(crc, body, n, 0)))
    ensures Positions(mask, 0, n) == ReadingsOf(Scan(crc, body, n, 0))
  {
    hide Scan, ReadingsOf, Positions;
    var r := ReadingsOf(Scan(crc, body, n, 0));
    ScanTiles(crc, body, n, 0);
    TiledReadings(Scan(crc, body, n, 0), 0, n);
    SortedUnique(Positions(mask, 0, n), r);
  }

  lemma {:induction false} AnchorsAreOrdered(events: seq<Event>, n: nat)
    requires forall a, b :: 0 <= a < b < |events| ==> events[a].sampleIndex <= events[b].sampleIndex
    requires forall a :: 0 <= a < |events| ==> events[a].sampleIndex <= n
    ensures AnchorsOrdered(AnchorsOf(events), n)
    ensures events != [] ==>
              forall a :: 0 <= a < |AnchorsOf(events)| ==>
                        AnchorsOf(events)[a].index <= events[|events| - 1].sampleIndex
  {
    if events != [] {
      var m := |events| - 1;
      AnchorsAreOrdered(events[..m], n);
    }
  }

  lemma NegativeFactor(k: int, d: nat)
    requires d > 0 && k * d < 0
    ensures k < 0
  {
  }

  lemma DivMonotone(a: nat, b: nat, d: nat)
    requires d > 0 && a <= b
    ensures a / d <= b / d
  {
    var x, y := a / d, b / d;
    assert x * d <= a && b < y * d + d;
    assert (x - y - 1) * d == x * d - y * d - d;
    NegativeFactor(x - y - 1, d);
  }

  /** Event indices never go back, and none lies past the last complete sample set. */
  lemma {:induction false} EventsOrdered(body: seq<byte>, base: nat, nchan: nat, ts: seq<Token>)
    requires nchan > 0 && Fit(ts, body)
    ensures forall a :: 0 <= a < |EventsOf(body, base, nchan, ts)| ==>
              EventsOf(body, base, nchan, ts)[a].sampleIndex <= |ReadingsOf(ts)| / nchan
    ensures forall a, b :: 0 <= a < b < |EventsOf(body, base, nchan, ts)| ==>
              EventsOf(body, base, nchan, ts)[a].sampleIndex <= EventsOf(body, base, nchan, ts)[b].sampleIndex
  {
    if ts != [] {
      var init := ts[..|ts| - 1];
      var before, ev := EventsOf(body, base, nchan, init), EventsOf(body, base, nchan, ts);
      EventsOrdered(body, base, nchan, init);
      DivMonotone(|ReadingsOf(init)|, |ReadingsOf(ts)|, nchan);
      assert forall a :: 0 <= a < |before| ==> ev[a] == before[a];
      assert |ev| > |before| ==> ev[|before|].sampleIndex == |ReadingsOf(init)| / nchan;
    }
  }

  /** The decoder itself agrees with the reference decoder on every image, and its times are those of its events. */
  method Decode(crc: Checksum, image: seq<byte>, nchan: nat) returns (r: Result<Decoded, DecodeError>)
    ensures r == DecodeSpec(crc, image, nchan)
    ensures r.Ok? ==> var d := r.value;
                      && d.nchan == nchan && |d.raw| == |d.errorCode| == nchan * |d.times.ms|
                      && DatedByEvents(d.times, |d.times.ms|, d.events,
                                       Clock(d.header.startTime, d.header.loggerTime, d.header.periodMs))
  {
    hide Scan, EventsOf, CorruptOf, ReadingsOf, Positions, ParseHeader, IsDated, DatedByEvents, AnchorsOf;
    var checked := CheckImage(image, nchan);
    if checked.Err? {
      return Err(checked.error);
    }
    var h := checked.value;
    var body := image[h.length..];
    var isReading, events, bad := Walk(crc, body, h.length, nchan);
    ghost var ts := Scan(crc, body, |body| / 4, 0);
    MaskSelectsReadings(crc, body, |body| / 4, isReading);
    ReadingsFit(ts, body);
    var p := Positions(isReading, 0, |isReading|);
    var nsets := |p| / nchan;
    var used := p[..Whole(|p|, nchan)];
    var setEndByte := SetEndBytes(h.length, p, nchan);
    var anchors := AnchorsOf(events);
    EventsOrdered(body, h.length, nchan, ts);
    AnchorsAreOrdered(events, nsets);
    var times := AssignTimes(nsets, anchors, Clock(h.startTime, h.loggerTime, h.periodMs));
    EventsDateSets(times, nsets, events, Clock(h.startTime, h.loggerTime, h.periodMs));
    r := Ok(Decoded(h, nchan, WordsAt(body, used), ErrorCodes(body, used), times, events,
                    4 * (|p| - Whole(|p|, nchan)) + |body| % 4, bad, setEndByte));
  }
}
