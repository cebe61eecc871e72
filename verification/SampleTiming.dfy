/** Sample times of a decoded memory image: each time anchor dates the sample sets that follow it. */
module SampleTiming {
  import opened Basics
  import opened ClockSegments

  /** 2000-01-01T00:00:00Z in Unix ms. */
  const EPOCH2000_MS: int := 946_684_800_000

  /** The sample set an anchor dates, the time it gives it (Unix ms), and its whole seconds since 2000. */
  datatype Anchor = Anchor(index: nat, ms: int, seconds: nat)

  datatype Clock = Clock(startTime: nat, loggerTime: nat, periodMs: nat)
  {
    /** The fallback for sample sets before any anchor: the programmed start, or the enable time if later. */
    function FallbackMs(): int {
      EPOCH2000_MS + 1000 * (if startTime > loggerTime then startTime else loggerTime)
    }
  }

  datatype SetTimes = SetTimes(ms: seq<int>, flags: seq<TimeFlag>, segment: seq<int>)

  predicate AnchorsOrdered(anchors: seq<Anchor>, n: nat) {
    && (forall a, b :: 0 <= a < b < |anchors| ==> anchors[a].index <= anchors[b].index)
    && (forall a :: 0 <= a < |anchors| ==> anchors[a].index <= n)
  }

  /** The last anchor at or before sample set i. */
  function AnchorOf(anchors: seq<Anchor>, i: nat): (r: Option<nat>)
    ensures r.Some? ==> r.value < |anchors| && anchors[r.value].index <= i &&
                        forall k :: r.value < k < |anchors| ==> anchors[k].index > i
    ensures r.None? ==> forall k :: 0 <= k < |anchors| ==> anchors[k].index > i
  {
    if anchors == [] then None
    else if anchors[|anchors| - 1].index <= i then Some(|anchors| - 1)
    else AnchorOf(anchors[..|anchors| - 1], i)
  }

  function MsAt(anchors: seq<Anchor>, clock: Clock, i: nat): int {
    match AnchorOf(anchors, i)
    case Some(k) => anchors[k].ms + clock.periodMs * (i - anchors[k].index)
    case None => clock.FallbackMs() + clock.periodMs * i
  }

  /** A clock that was not reset shows no time before the logger was enabled. */
  function FlagAt(anchors: seq<Anchor>, clock: Clock, i: nat): TimeFlag {
    match AnchorOf(anchors, i)
    case Some(k) => TimeFlag(false, anchors[k].seconds < clock.loggerTime, false)
    case None => TimeFlag(true, false, false)
  }

  function SegmentAt(anchors: seq<Anchor>, i: nat): int {
    match AnchorOf(anchors, i)
    case Some(k) => k
    case None => -1
  }

  /** Times, flags and anchor numbers of n sample sets. */
  function TimesOf(n: nat, anchors: seq<Anchor>, clock: Clock): (r: SetTimes)
    ensures |r.ms| == |r.flags| == |r.segment| == n
  {
    SetTimes(seq(n, i requires 0 <= i < n => MsAt(anchors, clock, i)),
             seq(n, i requires 0 <= i < n => FlagAt(anchors, clock, i)),
             seq(n, i requires 0 <= i < n => SegmentAt(anchors, i)))
  }

  /** Anchors that lie past sample set i do not touch it. */
  lemma {:induction false} AnchorOfPrefix(anchors: seq<Anchor>, m: nat, i: nat)
    requires m <= |anchors| && forall k :: m <= k < |anchors| ==> anchors[k].index > i
    ensures AnchorOf(anchors, i) == AnchorOf(anchors[..m], i)
    decreases |anchors|
  {
    if m < |anchors| {
      AnchorOfPrefix(anchors[..|anchors| - 1], m, i);
      assert anchors[..|anchors| - 1][..m] == anchors[..m];
    } else {
      assert anchors[..m] == anchors;
    }
  }

  /** Anchor k dates exactly the sample sets from its own index up to the next anchor's. */
  lemma AnchorRange(anchors: seq<Anchor>, n: nat, k: nat, i: nat)
    requires AnchorsOrdered(anchors, n) && k < |anchors| && i < n
    ensures AnchorOf(anchors, i) == Some(k) <==>
            anchors[k].index <= i < (if k + 1 < |anchors| then anchors[k + 1].index else n)
  {
  }

  // ---- what the times mean ----

  /** Anchor k is the last one at or before sample set i. */
  ghost predicate Governs(anchors: seq<Anchor>, k: nat, i: nat) {
    && k < |anchors| && anchors[k].index <= i
    && forall j :: k < j < |anchors| ==> anchors[j].index > i
  }

  ghost predicate Unanchored(anchors: seq<Anchor>, i: nat) {
    forall j :: 0 <= j < |anchors| ==> anchors[j].index > i
  }

  /** Milliseconds from 1970 to the later of the programmed start and the time the logger was enabled. */
  ghost predicate IsFallback(ms: int, clock: Clock) {
    && ms >= 946_684_800_000 + 1000 * clock.startTime && ms >= 946_684_800_000 + 1000 * clock.loggerTime
    && (ms == 946_684_800_000 + 1000 * clock.startTime || ms == 946_684_800_000 + 1000 * clock.loggerTime)
  }

  /** A set that has an anchor of its own shows that anchor's time; every other set comes one period after the set
      before it; and the first of them all, if it has no anchor, is at the start. A set's flags are those of the last
      anchor. */
  ghost predicate IsDated(r: SetTimes, n: nat, anchors: seq<Anchor>, clock: Clock) {
    && |r.ms| == |r.flags| == |r.segment| == n
    && (forall k: nat, i: nat :: i < n && Governs(anchors, k, i) ==>
          && r.segment[i] == k
          && r.flags[i] == TimeFlag(false, anchors[k].seconds < clock.loggerTime, false)
          && (anchors[k].index == i ==> r.ms[i] == anchors[k].ms)
          && (anchors[k].index < i ==> r.ms[i] == r.ms[i - 1] + clock.periodMs))
    && (forall i: nat :: i < n && Unanchored(anchors, i) ==>
          && r.segment[i] == -1
          && r.flags[i] == TimeFlag(true, false, false)
          && (i == 0 ==> IsFallback(r.ms[i], clock))
          && (i > 0 ==> r.ms[i] == r.ms[i - 1] + clock.periodMs))
  }

  lemma AnchorOfExactly(anchors: seq<Anchor>, i: nat)
    ensures forall k: nat :: Governs(anchors, k, i) <==> AnchorOf(anchors, i) == Some(k)
    ensures Unanchored(anchors, i) <==> AnchorOf(anchors, i) == None
  {
    hide AnchorOf;
    if AnchorOf(anchors, i).Some? {
      assert Governs(anchors, AnchorOf(anchors, i).value, i);
    }
  }

  lemma OnePeriod(anchors: seq<Anchor>, n: nat, clock: Clock, k: nat, i: nat)
    requires AnchorsOrdered(anchors, n) && Governs(anchors, k, i) && anchors[k].index < i
    ensures MsAt(anchors, clock, i) == MsAt(anchors, clock, i - 1) + clock.periodMs
  {
    hide AnchorOf;
    AnchorOfExactly(anchors, i);
    AnchorOfExactly(anchors, i - 1);
    assert Governs(anchors, k, i - 1);
    var d := i - anchors[k].index;
    assert clock.periodMs * d == clock.periodMs * (d - 1) + clock.periodMs;
  }

  lemma OnePeriodUnanchored(anchors: seq<Anchor>, clock: Clock, i: nat)
    requires Unanchored(anchors, i) && 0 < i
    ensures MsAt(anchors, clock, i) == MsAt(anchors, clock, i - 1) + clock.periodMs
  {
    hide AnchorOf;
    AnchorOfExactly(anchors, i);
    AnchorOfExactly(anchors, i - 1);
    assert clock.periodMs * i == clock.periodMs * (i - 1) + clock.periodMs;
  }

  /** The times of the specification are such times. */
  lemma TimesAreDated(n: nat, anchors: seq<Anchor>, clock: Clock)
    requires AnchorsOrdered(anchors, n)
    ensures IsDated(TimesOf(n, anchors, clock), n, anchors, clock)
  {
    hide AnchorOf, MsAt;
    var r := TimesOf(n, anchors, clock);
    forall k: nat, i: nat | i < n && Governs(anchors, k, i)
      ensures r.segment[i] == k && r.flags[i] == TimeFlag(false, anchors[k].seconds < clock.loggerTime, false)
      ensures anchors[k].index == i ==> r.ms[i] == anchors[k].ms
      ensures anchors[k].index < i ==> r.ms[i] == r.ms[i - 1] + clock.periodMs
    {
      AnchorOfExactly(anchors, i);
      if anchors[k].index == i {
        AtAnchor(anchors, clock, k, i);
      } else {
        OnePeriod(anchors, n, clock, k, i);
      }
    }
    forall i: nat | i < n && Unanchored(anchors, i)
      ensures r.segment[i] == -1 && r.flags[i] == TimeFlag(true, false, false)
      ensures i == 0 ==> IsFallback(r.ms[i], clock)
      ensures i > 0 ==> r.ms[i] == r.ms[i - 1] + clock.periodMs
    {
      AnchorOfExactly(anchors, i);
      if i == 0 {
        AtStart(anchors, clock);
      } else {
        OnePeriodUnanchored(anchors, clock, i);
      }
    }
  }

  lemma AtAnchor(anchors: seq<Anchor>, clock: Clock, k: nat, i: nat)
    requires AnchorOf(anchors, i) == Some(k) && anchors[k].index == i
    ensures MsAt(anchors, clock, i) == anchors[k].ms
  {
  }

  lemma AtStart(anchors: seq<Anchor>, clock: Clock)
    requires AnchorOf(anchors, 0) == None
    ensures IsFallback(MsAt(anchors, clock, 0), clock)
  {
  }

  /** And no others are. */
  lemma {:induction false} DatedUnique(r: SetTimes, r': SetTimes, n: nat, anchors: seq<Anchor>, clock: Clock, i: nat)
    requires IsDated(r, n, anchors, clock) && IsDated(r', n, anchors, clock) && i < n
    ensures r.ms[i] == r'.ms[i] && r.flags[i] == r'.flags[i] && r.segment[i] == r'.segment[i]
  {
    hide IsDated;
    AnchorOfExactly(anchors, i);
    if i > 0 {
      DatedUnique(r, r', n, anchors, clock, i - 1);
    }
    DatedNext(r, r', n, anchors, clock, i);
  }

  lemma DatedNext(r: SetTimes, r': SetTimes, n: nat, anchors: seq<Anchor>, clock: Clock, i: nat)
    requires IsDated(r, n, anchors, clock) && IsDated(r', n, anchors, clock) && i < n
    requires i > 0 ==> r.ms[i - 1] == r'.ms[i - 1]
    ensures r.ms[i] == r'.ms[i] && r.flags[i] == r'.flags[i] && r.segment[i] == r'.segment[i]
  {
    hide AnchorOf;
    AnchorOfExactly(anchors, i);
    if AnchorOf(anchors, i).Some? {
      assert Governs(anchors, AnchorOf(anchors, i).value, i);
    } else {
      assert Unanchored(anchors, i);
    }
  }

  /** Fill the arrays anchor by anchor: first the sets before any anchor, then each anchor's range. */
  method AssignTimes(n: nat, anchors: seq<Anchor>, clock: Clock) returns (r: SetTimes)
    requires AnchorsOrdered(anchors, n)
    ensures IsDated(r, n, anchors, clock)
    ensures r == TimesOf(n, anchors, clock)
  {
    hide AnchorOf, IsDated;
    var ms := new int[n];
    var flags := new TimeFlag[n](_ => TimeFlag(false, false, false));
    var segment := new int[n](_ => -1);
    var first := if anchors == [] then n else anchors[0].index;
    forall i | 0 <= i < first {
      ms[i] := clock.FallbackMs() + clock.periodMs * i;
    }
    forall i | 0 <= i < first {
      flags[i] := flags[i].(noAnchor := true);
    }
    ghost var done := first;
    assert forall i :: 0 <= i < first ==> AnchorOf(anchors, i) == None;
    for k := 0 to |anchors|
      invariant done == if k < |anchors| then anchors[k].index else n
      invariant forall i :: 0 <= i < done ==> ms[i] == MsAt(anchors, clock, i)
      invariant forall i :: 0 <= i < done ==> flags[i] == FlagAt(anchors, clock, i)
      invariant forall i :: 0 <= i < done ==> segment[i] == SegmentAt(anchors, i)
      invariant forall i :: done <= i < n ==> flags[i] == TimeFlag(false, false, false)
    {
      var e := anchors[k];
      var end := if k + 1 < |anchors| then anchors[k + 1].index else n;
      FillRange(ms, flags, segment, anchors, clock, k, end);
      done := end;
    }
    r := SetTimes(ms[..], flags[..], segment[..]);
    assert r.ms == TimesOf(n, anchors, clock).ms;
    assert r.flags == TimesOf(n, anchors, clock).flags;
    assert r.segment == TimesOf(n, anchors, clock).segment;
    TimesAreDated(n, anchors, clock);
  }

  method FillRange(ms: array<int>, flags: array<TimeFlag>, segment: array<int>, anchors: seq<Anchor>, clock: Clock,
                   k: nat, end: nat)
    requires ms.Length == flags.Length == segment.Length && AnchorsOrdered(anchors, ms.Length) && ms != segment
    requires k < |anchors| && end == if k + 1 < |anchors| then anchors[k + 1].index else ms.Length
    requires forall i :: anchors[k].index <= i < ms.Length ==> flags[i] == TimeFlag(false, false, false)
    modifies ms, flags, segment
    ensures forall i :: 0 <= i < ms.Length && !(anchors[k].index <= i < end) ==>
              ms[i] == old(ms[i]) && flags[i] == old(flags[i]) && segment[i] == old(segment[i])
    ensures forall i :: anchors[k].index <= i < end ==>
              ms[i] == MsAt(anchors, clock, i) && flags[i] == FlagAt(anchors, clock, i)
              && segment[i] == SegmentAt(anchors, i)
  {
    hide AnchorOf;
    var e := anchors[k];
    forall i | e.index <= i < end {
      ms[i] := e.ms + clock.periodMs * (i - e.index);
    }
    forall i | e.index <= i < end {
      segment[i] := k;
    }
    if e.seconds < clock.loggerTime {
      forall i | e.index <= i < end {
        flags[i] := flags[i].(resetClock := true);
      }
    }
    forall i | e.index <= i < end
      ensures AnchorOf(anchors, i) == Some(k)
    {
      AnchorRange(anchors, ms.Length, k, i);
    }
  }
}
