/** The walk over a duet or concerto image visits candidate words only and agrees with the word-by-word parse. */
module SectionedWalk {
  import opened Basics
  import opened ClockSegments
  import opened SampleTiming
  import opened SoloDecoder
  import opened SectionedDecoder
  import Solo = SoloWalk

  // ---- tokens tile the body ----

  /** Consecutive tokens meet: records are disjoint and in order, and the values are the words outside them. */
  ghost predicate Covers(ts: seq<Word>, lo: nat, hi: nat) {
    if ts == [] then lo == hi
    else
      var m := |ts| - 1;
      ts[m].at < ts[m].End() == hi && Covers(ts[..m], lo, ts[m].at)
  }

  lemma {:induction false} CoversPrepend(t: Word, ts: seq<Word>, hi: nat)
    requires t.at < t.End() && Covers(ts, t.End(), hi)
    ensures Covers([t] + ts, t.at, hi)
    decreases |ts|
  {
    if ts == [] {
      assert [t] + ts == [t] && [t][..0] == [];
    } else {
      var m := |ts| - 1;
      CoversPrepend(t, ts[..m], ts[m].at);
      assert ([t] + ts)[..m + 1] == [t] + ts[..m];
    }
  }

  lemma {:induction false} ParseCovers(crc: Checksum, body: seq<byte>, n: nat, i: nat)
    requires i <= n && 4 * n <= |body| < 4 * n + 4
    ensures Covers(Parse(crc, body, n, i), i, n)
    decreases n - i
  {
    hide Accepted, RecordWords;
    if i < n {
      var t := WordAt(crc, body, n, i);
      ParseCovers(crc, body, n, t.End());
      CoversPrepend(t, Parse(crc, body, n, t.End()), n);
    }
  }

  lemma {:induction false} CoversCut(a: seq<Word>, b: seq<Word>, lo: nat, mid: nat, hi: nat)
    requires Covers(a + b, lo, hi) && Covers(b, mid, hi)
    ensures Covers(a, lo, mid)
    decreases |b|
  {
    if b == [] {
      assert a + b == a;
    } else {
      var m := |b| - 1;
      assert (a + b)[..|a| + m] == a + b[..m];
      CoversCut(a, b[..m], lo, mid, b[m].at);
    }
  }

  lemma {:induction false} CoveredValues(ts: seq<Word>, lo: nat, hi: nat)
    requires Covers(ts, lo, hi)
    ensures lo <= hi
    ensures forall k :: 0 <= k < |ReadingsIn(ts)| ==> lo <= ReadingsIn(ts)[k] < hi
    ensures forall a, b :: 0 <= a < b < |ReadingsIn(ts)| ==> ReadingsIn(ts)[a] < ReadingsIn(ts)[b]
  {
    if ts != [] {
      CoveredValues(ts[..|ts| - 1], lo, ts[|ts| - 1].at);
    }
  }

  /** A word is a reading exactly when no accepted record holds it. */
  lemma {:induction false} ValuesAreOutsideRecords(ts: seq<Word>, lo: nat, hi: nat, w: nat)
    requires Covers(ts, lo, hi) && lo <= w < hi
    ensures w in ReadingsIn(ts) <==> !exists k :: 0 <= k < |ts| && ts[k].Entry? && ts[k].at <= w < ts[k].End()
  {
    var m := |ts| - 1;
    var init := ts[..m];
    CoveredValues(init, lo, ts[m].at);
    if w < ts[m].at {
      ValuesAreOutsideRecords(init, lo, ts[m].at, w);
      assert forall k :: 0 <= k < m ==> ts[k] == init[k];
    } else {
      assert w in ReadingsIn(ts) <==> ts[m].Value?;
      EndsBefore(init, lo, ts[m].at);
      assert forall k :: 0 <= k < m ==> ts[k] == init[k];
    }
  }

  lemma {:induction false} EndsBefore(ts: seq<Word>, lo: nat, hi: nat)
    requires Covers(ts, lo, hi)
    ensures forall k :: 0 <= k < |ts| ==> ts[k].End() <= hi
  {
    if ts != [] {
      EndsBefore(ts[..|ts| - 1], lo, ts[|ts| - 1].at);
    }
  }

  // ---- appending tokens ----

  lemma AppendWord(body: seq<byte>, base: nat, nstored: nat, ts: seq<Word>, t: Word)
    requires nstored > 0 && Within(ts, body) && 4 * t.End() <= |body| && (t.Entry? ==> t.words >= 2)
    ensures var all, m := ts + [t], MarksOf(body, base, nstored, ts);
            var index := |ReadingsIn(ts)| / nstored;
            && Within(all, body)
            && ReadingsIn(all) == ReadingsIn(ts) + (if t.Value? then [t.at] else [])
            && BadMarkers(body, all) == BadMarkers(body, ts) + (if t.Value? && Candidate(body, t.at) then 1 else 0)
            && MarksOf(body, base, nstored, all) ==
               (if t.Value? then m
                else Marks(m.events + [EventOf(body, base, t, index)],
                           m.anchors + if Anchors(body, t) then [AnchorFrom(body, t, index)] else []))
  {
    assert (ts + [t])[..|ts|] == ts;
  }

  // ---- the walk ----

  /** The walk after the tokens `done`, which end at word `at`; its own last record ended at word `prev`. Readings
      since then have not been counted in `readingsBefore` yet. */
  ghost predicate WalkInv(crc: Checksum, body: seq<byte>, n: nat, base: nat, nstored: nat, done: seq<Word>, prev: nat,
                          at: nat,
                          isReading: seq<bool>, marks: Marks, readingsBefore: nat, bad: nat)
    requires nstored > 0 && 4 * n <= |body| < 4 * n + 4
  {
    && prev <= at <= n == |isReading| && Within(done, body)
    && Parse(crc, body, n, 0) == done + Parse(crc, body, n, at)
    && (forall w :: 0 <= w < at ==> (isReading[w] <==> w in ReadingsIn(done)))
    && (forall w :: prev <= w < n ==> isReading[w])
    && marks == MarksOf(body, base, nstored, done)
    && readingsBefore + (at - prev) == |ReadingsIn(done)|
    && bad == BadMarkers(body, done)
    && !AnyUnreadable(body, done)
  }

  /** A word that starts no record is one more reading, counted as a bad marker if it looked like an event. */
  lemma WalkValue(crc: Checksum, body: seq<byte>, n: nat, base: nat, nstored: nat, done: seq<Word>, prev: nat, at: nat,
                  isReading: seq<bool>, marks: Marks, readingsBefore: nat, bad: nat)
    requires 4 * n <= |body| < 4 * n + 4
    requires nstored > 0 && at < n && !Accepted(crc, body, at)
    requires WalkInv(crc, body, n, base, nstored, done, prev, at, isReading, marks, readingsBefore, bad)
    ensures WalkInv(crc, body, n, base, nstored, done + [Value(at)], prev, at + 1, isReading, marks, readingsBefore,
                    bad + if Candidate(body, at) then 1 else 0)
  {
    hide Accepted, Candidate, MarksOf, ReadingsIn, BadMarkers;
    AppendWord(body, base, nstored, done, Value(at));
    assert Parse(crc, body, n, at) == [Value(at)] + Parse(crc, body, n, at + 1);
    assert done + ([Value(at)] + Parse(crc, body, n, at + 1)) == (done + [Value(at)]) + Parse(crc, body, n, at + 1);
    NoneUnreadable(body, done, Value(at));
  }

  lemma NoneUnreadable(body: seq<byte>, done: seq<Word>, t: Word)
    requires Within(done, body) && Within(done + [t], body) && 4 * t.End() <= |body| && !AnyUnreadable(body, done)
    ensures AnyUnreadable(body, done + [t]) <==> Unreadable(body, t)
  {
    assert (done + [t])[|done|] == t;
    assert forall k :: 0 <= k < |done| ==> (done + [t])[k] == done[k];
  }

  lemma {:induction false} WalkUnmarked(crc: Checksum, body: seq<byte>, n: nat, base: nat, nstored: nat,
                                        done: seq<Word>, prev: nat,
                                        at: nat, isReading: seq<bool>, marks: Marks, readingsBefore: nat, bad: nat,
                                        until: nat)
    returns (more: seq<Word>)
    requires 4 * n <= |body| < 4 * n + 4
    requires nstored > 0 && at <= until <= n && forall w :: at <= w < until ==> !Candidate(body, w)
    requires WalkInv(crc, body, n, base, nstored, done, prev, at, isReading, marks, readingsBefore, bad)
    ensures WalkInv(crc, body, n, base, nstored, done + more, prev, until, isReading, marks, readingsBefore, bad)
    decreases until - at
  {
    hide WalkInv, Candidate;
    more := [];
    if at < until {
      NotAccepted(crc, body, at);
      WalkValue(crc, body, n, base, nstored, done, prev, at, isReading, marks, readingsBefore, bad);
      var rest := WalkUnmarked(crc, body, n, base, nstored, done + [Value(at)], prev, at + 1, isReading, marks,
                               readingsBefore,
                               bad, until);
      more := [Value(at)] + rest;
      assert done + more == done + [Value(at)] + rest;
    } else {
      assert done + more == done;
    }
  }

  lemma NotAccepted(crc: Checksum, body: seq<byte>, at: nat)
    requires 4 * at + 4 <= |body| && !Candidate(body, at)
    ensures !Accepted(crc, body, at)
  {
  }

  lemma DoneBefore(crc: Checksum, body: seq<byte>, n: nat, done: seq<Word>, at: nat)
    requires 4 * n <= |body| < 4 * n + 4
    requires at <= n && Parse(crc, body, n, 0) == done + Parse(crc, body, n, at)
    ensures forall k :: 0 <= k < |ReadingsIn(done)| ==> ReadingsIn(done)[k] < at
  {
    hide Parse, ReadingsIn;
    ParseCovers(crc, body, n, 0);
    ParseCovers(crc, body, n, at);
    CoversCut(done, Parse(crc, body, n, at), 0, at, n);
    CoveredValues(done, 0, at);
  }

  /** An accepted record: its words are no readings, and it marks the set in progress or next. `counted` is the number
      of readings before it. */
  lemma WalkRecord(crc: Checksum, body: seq<byte>, n: nat, base: nat, nstored: nat, done: seq<Word>, prev: nat, at: nat,
                   isReading: seq<bool>, marks: Marks, readingsBefore: nat, bad: nat, isReading': seq<bool>, t: Word,
                   counted: nat)
    requires 4 * n <= |body| < 4 * n + 4 && nstored > 0 && at < n
    requires t.Entry? && t.words >= 2 && 4 * t.End() <= |body| && t.End() <= n
    requires t == WordAt(crc, body, n, at) && !Unreadable(body, t)
    requires WalkInv(crc, body, n, base, nstored, done, prev, at, isReading, marks, readingsBefore, bad)
    requires counted == readingsBefore + at - prev
    requires |isReading'| == |isReading|
    requires forall w :: 0 <= w < |isReading| ==> isReading'[w] == (isReading[w] && !(at <= w < t.End()))
    ensures var index := counted / nstored;
            WalkInv(crc, body, n, base, nstored, done + [t], t.End(), t.End(), isReading',
                    Marks(marks.events + [EventOf(body, base, t, index)],
                          marks.anchors + if Anchors(body, t) then [AnchorFrom(body, t, index)] else []), counted, bad)
  {
    hide MarksOf, ReadingsIn, BadMarkers, Unreadable, Accepted, RecordWords, Anchors, AnchorFrom, EventOf;
    AppendWord(body, base, nstored, done, t);
    assert Parse(crc, body, n, at) == [t] + Parse(crc, body, n, t.End());
    assert done + ([t] + Parse(crc, body, n, t.End())) == (done + [t]) + Parse(crc, body, n, t.End());
    NoneUnreadable(body, done, t);
    DoneBefore(crc, body, n, done, at);
  }

  function CandidateMask(body: seq<byte>, n: nat): (r: seq<bool>)
    requires 4 * n <= |body|
    ensures |r| == n && forall i :: 0 <= i < |r| ==> r[i] == Candidate(body, i)
  {
    seq(n, i requires 0 <= i < n => Candidate(body, i))
  }

  /** No word before the first candidate, nor between one candidate and the next, looks like an event. */
  lemma BetweenCandidates(body: seq<byte>, n: nat, candidates: seq<nat>, c: int)
    requires 4 * n <= |body| && candidates == Positions(CandidateMask(body, n), 0, n) && -1 <= c < |candidates|
    ensures c >= 0 ==> candidates[c] < n && Candidate(body, candidates[c])
    ensures var lo, hi := if c < 0 then 0 else candidates[c] + 1, if c + 1 < |candidates| then candidates[c + 1] else n;
            forall w :: lo <= w < hi ==> w < n && !Candidate(body, w)
  {
    hide Positions, Candidate;
    var mask := CandidateMask(body, n);
    forall w: nat | (if c < 0 then 0 else candidates[c] + 1) <= w < (if c + 1 < |candidates| then candidates[c + 1]
                                                                     else n)
      ensures w < n && !Candidate(body, w)
    {
      PositionsGap(mask, 0, n, c, w);
    }
  }

  lemma StartWalk(crc: Checksum, body: seq<byte>, n: nat, base: nat, nstored: nat, mask: seq<bool>)
    requires 4 * n <= |body| < 4 * n + 4
    requires nstored > 0 && |mask| == n && forall w :: 0 <= w < |mask| ==> mask[w]
    ensures WalkInv(crc, body, n, base, nstored, [], 0, 0, mask, Marks([], []), 0, 0)
  {
    hide Parse;
  }

  /** What the walk has found, or that it failed on a long record of two words. */
  datatype Walked = Walked(isReading: seq<bool>, marks: Marks, bad: nat) | FailedAt(word: nat)

  ghost predicate WalkOk(crc: Checksum, body: seq<byte>, base: nat, nstored: nat, w: Walked)
    requires nstored > 0
  {
    var ts := ParseAll(crc, body);
    match w
    case Walked(isReading, marks, bad) =>
      && !AnyUnreadable(body, ts)
      && |isReading| == |body| / 4 && (forall i :: 0 <= i < |isReading| ==> (isReading[i] <==> i in ReadingsIn(ts)))
      && marks == MarksOf(body, base, nstored, ts) && bad == BadMarkers(body, ts)
    case FailedAt(_) => AnyUnreadable(body, ts)
  }

  lemma WalkFails(crc: Checksum, body: seq<byte>, n: nat, base: nat, nstored: nat, done: seq<Word>, at: nat)
    requires nstored > 0
    requires 4 * n <= |body| < 4 * n + 4 && at < n && Unreadable(body, WordAt(crc, body, n, at))
    requires Parse(crc, body, n, 0) == done + Parse(crc, body, n, at)
    ensures WalkOk(crc, body, base, nstored, FailedAt(at))
  {
    hide Unreadable, Accepted, RecordWords;
    assert ParseAll(crc, body)[|done|] == WordAt(crc, body, n, at);
  }

  /** Take the accepted record t at word i: clear its words from the readings and add its event and anchor. */
  method TakeRecord(crc: Checksum, body: seq<byte>, n: nat, base: nat, nstored: nat, ghost done: seq<Word>, prev: nat,
                    i: nat,
                    mask: array<bool>, marks: Marks, readingsBefore: nat, ghost bad: nat, t: Word)
    returns (marks': Marks, counted: nat)
    requires 4 * n <= |body| < 4 * n + 4 && nstored > 0 && i < n
    requires t == WordAt(crc, body, n, i) && t.Entry? && !Unreadable(body, t)
    requires WalkInv(crc, body, n, base, nstored, done, prev, i, mask[..], marks, readingsBefore, bad)
    modifies mask
    ensures WalkInv(crc, body, n, base, nstored, done + [t], t.End(), t.End(), mask[..], marks', counted, bad)
  {
    hide Parse, WalkInv, Accepted, MarksOf, ReadingsIn, BadMarkers, Unreadable, RecordWords, Positions, U32, Anchors;
    CountRun(crc, body, n, base, nstored, done, prev, i, mask[..], marks, readingsBefore, bad);
    ghost var before := mask[..];
    counted := readingsBefore + |Positions(mask[..], prev, i)|;
    forall w | i <= w < t.End() {
      mask[w] := false;
    }
    WalkRecord(crc, body, n, base, nstored, done, prev, i, before, marks, readingsBefore, bad, mask[..], t, counted);
    var index := counted / nstored;
    marks' := Marks(marks.events + [EventOf(body, base, t, index)],
                    marks.anchors + if Anchors(body, t) then [AnchorFrom(body, t, index)] else []);
  }

  method Walk(crc: Checksum, body: seq<byte>, base: nat, nstored: nat) returns (r: Walked)
    requires nstored > 0
    ensures WalkOk(crc, body, base, nstored, r)
  {
    hide Parse, WalkInv, Accepted, Candidate, WordAt, MarksOf, ReadingsIn, BadMarkers, Unreadable, RecordWords,
         Positions, WalkOk;
    var n := |body| / 4;
    var mask := new bool[n](_ => true);
    var marks, bad := Marks([], []), 0;
    var prev, readingsBefore := 0, 0;
    ghost var done: seq<Word>, at: nat := [], 0;
    StartWalk(crc, body, n, base, nstored, mask[..]);
    var candidates := Positions(CandidateMask(body, n), 0, n);
    BetweenCandidates(body, n, candidates, -1);
    for c := 0 to |candidates|
      invariant 0 <= prev <= n && 0 <= at <= n && 0 <= readingsBefore && 0 <= bad
      invariant WalkInv(crc, body, n, base, nstored, done, prev, at, mask[..], marks, readingsBefore, bad)
      invariant at == prev || (c > 0 && at == candidates[c - 1] + 1)
      invariant forall w :: at <= w < (if c < |candidates| then candidates[c] else n) ==> !Candidate(body, w)
    {
      var i := candidates[c];
      BetweenCandidates(body, n, candidates, c);
      if i < prev {
        AtIsPast(crc, body, n, base, nstored, done, prev, at, mask[..], marks, readingsBefore, bad);
        continue;
      }
      ghost var more := WalkUnmarked(crc, body, n, base, nstored, done, prev, at, mask[..], marks, readingsBefore, bad,
                                     i);
      done, at := done + more, i;
      if !Accepted(crc, body, i) {
        WalkValue(crc, body, n, base, nstored, done, prev, i, mask[..], marks, readingsBefore, bad);
        done, at, bad := done + [Value(i)], i + 1, bad + 1;
        continue;
      }
      var t := WordAt(crc, body, n, i);
      AcceptedIsEntry(crc, body, n, i);
      if Unreadable(body, t) {
        UnpackParse(crc, body, n, base, nstored, done, prev, i, mask[..], marks, readingsBefore, bad);
        WalkFails(crc, body, n, base, nstored, done, i);
        return FailedAt(i);
      }
      marks, readingsBefore := TakeRecord(crc, body, n, base, nstored, done, prev, i, mask, marks, readingsBefore, bad,
                                          t);
      done, prev, at := done + [t], t.End(), t.End();
    }
    ghost var more := WalkUnmarked(crc, body, n, base, nstored, done, prev, at, mask[..], marks, readingsBefore, bad,
                                   n);
    EndWalk(crc, body, n, base, nstored, done + more, prev, mask[..], marks, readingsBefore, bad);
    r := Walked(mask[..], marks, bad);
  }

  lemma AtIsPast(crc: Checksum, body: seq<byte>, n: nat, base: nat, nstored: nat, done: seq<Word>, prev: nat, at: nat,
                 isReading: seq<bool>, marks: Marks, readingsBefore: nat, bad: nat)
    requires 4 * n <= |body| < 4 * n + 4
    requires nstored > 0 && WalkInv(crc, body, n, base, nstored, done, prev, at, isReading, marks, readingsBefore, bad)
    ensures prev <= at <= n
  {
  }

  lemma UnpackParse(crc: Checksum, body: seq<byte>, n: nat, base: nat, nstored: nat, done: seq<Word>, prev: nat,
                    at: nat,
                    isReading: seq<bool>, marks: Marks, readingsBefore: nat, bad: nat)
    requires 4 * n <= |body| < 4 * n + 4
    requires nstored > 0 && WalkInv(crc, body, n, base, nstored, done, prev, at, isReading, marks, readingsBefore, bad)
    ensures at <= n && Parse(crc, body, n, 0) == done + Parse(crc, body, n, at)
  {
    hide Parse;
  }

  lemma AcceptedIsEntry(crc: Checksum, body: seq<byte>, n: nat, i: nat)
    requires 4 * n <= |body| < 4 * n + 4 && i < n
    ensures Accepted(crc, body, i) <==> WordAt(crc, body, n, i).Entry?
  {
  }

  lemma CountRun(crc: Checksum, body: seq<byte>, n: nat, base: nat, nstored: nat, done: seq<Word>, prev: nat, at: nat,
                 isReading: seq<bool>, marks: Marks, readingsBefore: nat, bad: nat)
    requires 4 * n <= |body| < 4 * n + 4
    requires nstored > 0 && WalkInv(crc, body, n, base, nstored, done, prev, at, isReading, marks, readingsBefore, bad)
    ensures prev <= at <= |isReading| == n && |Positions(isReading, prev, at)| == at - prev
  {
    hide Parse, Positions;
    AllSetCount(isReading, prev, at);
  }

  lemma EndWalk(crc: Checksum, body: seq<byte>, n: nat, base: nat, nstored: nat, done: seq<Word>, prev: nat,
                isReading: seq<bool>, marks: Marks, readingsBefore: nat, bad: nat)
    requires 4 * n <= |body| < 4 * n + 4
    requires nstored > 0
    requires WalkInv(crc, body, n, base, nstored, done, prev, n, isReading, marks, readingsBefore, bad)
    ensures WalkOk(crc, body, base, nstored, Walked(isReading, marks, bad))
  {
    hide MarksOf, ReadingsIn, BadMarkers, AnyUnreadable;
    assert Parse(crc, body, n, n) == [];
    assert done + [] == done;
  }
}
