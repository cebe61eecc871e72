/** Placing events among the samples of a record whose clock may have restarted: each event precedes one sample. */
module EventPlacement {
  import opened Basics
  import opened ClockSegments

  const EVENT_JITTER_MS: int := 60_000

  // ---- runs ----

  function Restarts(time: seq<int>): (mask: seq<bool>)
    ensures |mask| == |time|
  {
    seq(|time|, i requires 0 <= i < |time| => BackwardStep(time, i))
  }

  /** Run boundaries: from the first sample to the end of the record, one after the other. */
  predicate Divides(b: seq<nat>, n: nat) {
    && |b| >= 2 && b[0] == 0 && b[|b| - 1] == n
    && forall j, k :: 0 <= j < k < |b| ==> b[j] < b[k]
  }

  /** The indices at which the clock steps back, with 0 before them and the number of samples after them. */
  function Bounds(time: seq<int>): (b: seq<nat>)
    requires time != []
    ensures Divides(b, |time|)
  {
    [0] + Positions(Restarts(time), 1, |time|) + [|time|]
  }

  ghost predicate Rising(time: seq<int>, lo: nat, hi: nat) {
    hi <= |time| && forall i, j :: lo <= i <= j < hi ==> time[i] <= time[j]
  }

  /** Between the first sample and the end, the boundaries are the samples at which the clock stepped back. */
  lemma BoundsExactly(time: seq<int>, i: nat)
    requires time != [] && 0 < i < |time|
    ensures i in Bounds(time) <==> time[i] < time[i - 1]
  {
    var p := Positions(Restarts(time), 1, |time|);
    assert i in Bounds(time) <==> i in p;
  }

  /** Within a run the clock never steps back. */
  lemma RunRises(time: seq<int>, r: nat)
    requires time != [] && r + 1 < |Bounds(time)|
    ensures Rising(time, Bounds(time)[r], Bounds(time)[r + 1])
  {
    var b := Bounds(time);
    forall w | b[r] < w < b[r + 1]
      ensures !BackwardStep(time, w)
    {
      PositionsGap(Restarts(time), 1, |time|, r - 1, w);
    }
    RisesBetween(time, b[r], b[r + 1]);
  }

  lemma {:induction false} RisesBetween(time: seq<int>, lo: nat, hi: nat)
    requires lo <= hi <= |time| && forall w :: lo < w < hi ==> !BackwardStep(time, w)
    ensures Rising(time, lo, hi)
    decreases hi
  {
    if lo < hi {
      RisesBetween(time, lo, hi - 1);
      assert hi - 1 > lo ==> !BackwardStep(time, hi - 1);
    }
  }

  // ---- the run an event belongs to ----

  /** The clock restarted: the event steps back, to the reset clock, by more than events jitter. */
  predicate StepsBack(prev: Option<int>, e: int) {
    prev.Some? && e < prev.value - EVENT_JITTER_MS && e < RESET_CLOCK_BEFORE_MS
  }

  /** A run that starts on a set clock, for an event on the reset clock, with a run after it. */
  predicate TooEarly(time: seq<int>, b: seq<nat>, e: int, r: nat)
    requires Divides(b, |time|) && r + 1 < |b|
  {
    e < RESET_CLOCK_BEFORE_MS <= time[b[r]] && r + 2 < |b|
  }

  /** On from runs that are too early for the event. */
  function PastEarly(time: seq<int>, b: seq<nat>, e: int, r: nat): (q: nat)
    requires Divides(b, |time|) && r + 1 < |b|
    ensures r <= q && q + 1 < |b|
    ensures !TooEarly(time, b, e, q)
    ensures e >= RESET_CLOCK_BEFORE_MS ==> q == r
    decreases |b| - r
  {
    if TooEarly(time, b, e, r) then PastEarly(time, b, e, r + 1) else r
  }

  /** The run an event moves on to from run r. */
  function NextRun(time: seq<int>, b: seq<nat>, prev: Option<int>, e: int, r: nat): (q: nat)
    requires Divides(b, |time|) && r + 1 < |b|
    ensures r <= q && q + 1 < |b|
    ensures !TooEarly(time, b, e, q)
    ensures e >= RESET_CLOCK_BEFORE_MS ==> q == r
  {
    PastEarly(time, b, e, if StepsBack(prev, e) && r + 2 < |b| then r + 1 else r)
  }

  function Before(events: seq<int>, k: nat): Option<int>
    requires k <= |events|
  {
    if k > 0 then Some(events[k - 1]) else None
  }

  /** The run the first k events have moved on to. */
  function RunAfter(time: seq<int>, b: seq<nat>, events: seq<int>, k: nat): (r: nat)
    requires Divides(b, |time|) && k <= |events|
    ensures r + 1 < |b|
  {
    if k == 0 then 0 else NextRun(time, b, Before(events, k - 1), events[k - 1], RunAfter(time, b, events, k - 1))
  }

  /** The first sample in lo..hi not before the event. */
  function FirstNotBefore(time: seq<int>, lo: nat, hi: nat, e: int): (i: nat)
    requires lo <= hi <= |time|
    ensures lo <= i <= hi && (forall j :: lo <= j < i ==> time[j] < e) && (i < hi ==> time[i] >= e)
    decreases hi - lo
  {
    if lo == hi || time[lo] >= e then lo else FirstNotBefore(time, lo + 1, hi, e)
  }

  /** The sample an event of a run precedes. */
  function PlacedIn(time: seq<int>, lo: nat, hi: nat, e: int): (i: nat)
    requires lo < hi <= |time|
  {
    if time[lo] < RESET_CLOCK_BEFORE_MS <= e then lo
    else if e < RESET_CLOCK_BEFORE_MS <= time[lo] then hi
    else FirstNotBefore(time, lo, hi, e)
  }

  function Placed(time: seq<int>, events: seq<int>, k: nat): (i: nat)
    requires time != [] && k < |events|
  {
    var b := Bounds(time);
    var r := RunAfter(time, b, events, k + 1);
    PlacedIn(time, b[r], b[r + 1], events[k])
  }

  /** Binary search for the first sample not before the event. */
  method SearchLeft(time: seq<int>, lo: nat, hi: nat, e: int) returns (i: nat)
    requires lo <= hi && Rising(time, lo, hi)
    ensures i == FirstNotBefore(time, lo, hi, e)
  {
    var a, b := lo, hi;
    while a < b
      invariant lo <= a <= b <= hi
      invariant forall j :: lo <= j < a ==> time[j] < e
      invariant b < hi ==> time[b] >= e
    {
      var m := (a + b) / 2;
      if time[m] < e {
        a := m + 1;
      } else {
        b := m;
      }
    }
    i := a;
    OnlyOne(time, lo, hi, e, i);
  }

  lemma OnlyOne(time: seq<int>, lo: nat, hi: nat, e: int, i: nat)
    requires lo <= i <= hi <= |time| && (forall j :: lo <= j < i ==> time[j] < e) && (i < hi ==> time[i] >= e)
    ensures i == FirstNotBefore(time, lo, hi, e)
  {
  }

  /** The sample in lo..hi that the event precedes. */
  method PlaceIn(time: seq<int>, lo: nat, hi: nat, e: int) returns (i: nat)
    requires lo < hi && Rising(time, lo, hi)
    ensures i == PlacedIn(time, lo, hi, e)
  {
    if time[lo] < RESET_CLOCK_BEFORE_MS <= e {
      i := lo;
    } else if e < RESET_CLOCK_BEFORE_MS <= time[lo] {
      i := hi;
    } else {
      i := SearchLeft(time, lo, hi, e);
    }
  }

  /** The run an event belongs to, from the run of the event before it. */
  method MoveOn(time: seq<int>, b: seq<nat>, prev: Option<int>, e: int, r: nat) returns (q: nat)
    requires Divides(b, |time|) && r + 1 < |b|
    ensures q == NextRun(time, b, prev, e, r)
  {
    q := r;
    if StepsBack(prev, e) && q + 2 < |b| {
      q := q + 1;
    }
    while TooEarly(time, b, e, q)
      invariant q + 1 < |b| && PastEarly(time, b, e, q) == NextRun(time, b, prev, e, r)
      decreases |b| - q
    {
      q := q + 1;
    }
  }

  /** The places of all events, which are given in the order in which they happened. */
  method EventIndices(time: seq<int>, events: seq<int>) returns (out: seq<nat>)
    ensures |out| == |events|
    ensures forall k :: 0 <= k < |events| ==> out[k] == if time == [] then 0 else Placed(time, events, k)
  {
    hide Bounds, PlacedIn, Rising, NextRun;
    if time == [] {
      return seq(|events|, i => 0);
    }
    var b, r := Bounds(time), 0;
    var prev: Option<int> := None;
    out := [];
    for k := 0 to |events|
      invariant |out| == k && r == RunAfter(time, b, events, k) && prev == Before(events, k)
      invariant forall j :: 0 <= j < k ==> out[j] == Placed(time, events, j)
    {
      var e := events[k];
      r := MoveOn(time, b, prev, e, r);
      RunRises(time, r);
      var i := PlaceIn(time, b[r], b[r + 1], e);
      out := out + [i];
      prev := Some(e);
    }
  }

  // ---- what the placement means ----

  /** Events go from run to run as the clock restarts, never back. */
  lemma {:induction false} RunsOnlyAdvance(time: seq<int>, b: seq<nat>, events: seq<int>, j: nat, k: nat)
    requires Divides(b, |time|) && j <= k <= |events|
    ensures RunAfter(time, b, events, j) <= RunAfter(time, b, events, k)
  {
    hide NextRun;
    if j < k {
      RunsOnlyAdvance(time, b, events, j, k - 1);
    }
  }

  /** An event on a set clock stays with the run before it; one on the reset clock goes to a run that starts on the
      reset clock, unless there is none left. */
  lemma RunFits(time: seq<int>, b: seq<nat>, events: seq<int>, k: nat)
    requires Divides(b, |time|) && k < |events|
    ensures var r := RunAfter(time, b, events, k + 1);
            && (events[k] >= RESET_CLOCK_BEFORE_MS ==> r == RunAfter(time, b, events, k))
            && (events[k] < RESET_CLOCK_BEFORE_MS && r + 2 < |b| ==> time[b[r]] < RESET_CLOCK_BEFORE_MS)
  {
    hide NextRun;
  }

  lemma {:induction false} PassedOver(time: seq<int>, b: seq<nat>, e: int, r: nat, q: nat)
    requires Divides(b, |time|) && r + 1 < |b| && r <= q < PastEarly(time, b, e, r)
    ensures TooEarly(time, b, e, q)
    decreases |b| - r
  {
    if r < q {
      PassedOver(time, b, e, r + 1, q);
    }
  }

  /** When an event moves on to a later run: if it is on the reset clock, and either its run is not or it steps back by
      more than a minute, and a run is left. A run that it passes over starts on a set clock. */
  lemma MovesOnExactly(time: seq<int>, b: seq<nat>, events: seq<int>, k: nat)
    requires Divides(b, |time|) && k < |events|
    ensures var r, q, e := RunAfter(time, b, events, k), RunAfter(time, b, events, k + 1), events[k];
            && r <= q
            && (q > r <==>
                  && r + 2 < |b| && e < 978_307_200_000
                  && (time[b[r]] >= 978_307_200_000 || (k > 0 && e < events[k - 1] - 60_000)))
            && (forall x :: r < x < q ==> time[b[x]] >= 978_307_200_000)
            && (q > r && q + 2 < |b| ==> time[b[q]] < 978_307_200_000)
  {
    var r, q, e := RunAfter(time, b, events, k), RunAfter(time, b, events, k + 1), events[k];
    var from := if StepsBack(Before(events, k), e) && r + 2 < |b| then r + 1 else r;
    forall x | from <= x < q
      ensures time[b[x]] >= 978_307_200_000
    {
      PassedOver(time, b, e, from, x);
    }
  }

  /** Event k, of a record whose event j is of run at[j], is the restart at which the next run begins: the run before is
      on a set clock, or the event before was more than a minute later. */
  ghost predicate Restarted(time: seq<int>, b: seq<nat>, events: seq<int>, at: seq<nat>, k: nat)
    requires Divides(b, |time|) && |at| == |events| && k < |events|
  {
    var r := if k == 0 then 0 else at[k - 1];
    && r + 2 < |b| && at[k] == r + 1 && events[k] == time[b[at[k]]] < 978_307_200_000
    && (time[b[r]] >= 978_307_200_000 || (k > 0 && events[k] < events[k - 1] - 60_000))
  }

  /** Event k is of the same run as the event before it. */
  ghost predicate Stayed(time: seq<int>, b: seq<nat>, events: seq<int>, at: seq<nat>, k: nat)
    requires Divides(b, |time|) && |at| == |events| && k < |events|
  {
    var r := if k == 0 then 0 else at[k - 1];
    && r + 1 < |b| && at[k] == r
    && (r + 2 < |b| && events[k] < 978_307_200_000 ==>
          time[b[r]] < 978_307_200_000 && (k > 0 ==> events[k] >= events[k - 1] - 60_000))
  }

  /** In a record whose runs begin with their restart events, each restart is placed at the first sample of its run, and
      the events between two restarts are in the run of the first. */
  lemma {:induction false} RestartsPlaced(time: seq<int>, events: seq<int>, at: seq<nat>, k: nat)
    requires time != [] && |at| == |events| && k < |events|
    requires forall j :: 0 <= j <= k ==>
               Restarted(time, Bounds(time), events, at, j) || Stayed(time, Bounds(time), events, at, j)
    ensures RunAfter(time, Bounds(time), events, k + 1) == at[k]
    ensures Restarted(time, Bounds(time), events, at, k) ==> Placed(time, events, k) == Bounds(time)[at[k]]
  {
    hide Bounds, RunAfter, Placed;
    var b := Bounds(time);
    if k > 0 {
      RestartsPlaced(time, events, at, k - 1);
    } else {
      FirstRun(time, b, events);
    }
    MovesOnExactly(time, b, events, k);
    assert Restarted(time, b, events, at, k) || Stayed(time, b, events, at, k);
    if Restarted(time, b, events, at, k) {
      NextOnly(time, b, events, at, k);
      PlacedInRun(time, events, k);
    }
  }

  lemma FirstRun(time: seq<int>, b: seq<nat>, events: seq<int>)
    requires Divides(b, |time|)
    ensures RunAfter(time, b, events, 0) == 0
  {
  }

  /** A restart that is the first sample of the next run moves no further. */
  lemma NextOnly(time: seq<int>, b: seq<nat>, events: seq<int>, at: seq<nat>, k: nat)
    requires Divides(b, |time|) && |at| == |events| && k < |events| && Restarted(time, b, events, at, k)
    requires RunAfter(time, b, events, k) == (if k == 0 then 0 else at[k - 1])
    ensures RunAfter(time, b, events, k + 1) == at[k]
  {
    MovesOnExactly(time, b, events, k);
    hide RunAfter, Divides;
  }

  /** An event is placed in its run, or right after it; and where the event and the run are on the same clock, every
      sample of the run before the place is before the event and every one from there on is not. An event on a set clock
      comes before a run on the reset clock, and the other way round after it. */
  lemma PlacedInRun(time: seq<int>, events: seq<int>, k: nat)
    requires time != [] && k < |events|
    ensures var b := Bounds(time);
            var r := RunAfter(time, b, events, k + 1);
            var (lo, hi, i) := (b[r], b[r + 1], Placed(time, events, k));
            && lo <= i <= hi
            && ((time[lo] < RESET_CLOCK_BEFORE_MS <==> events[k] < RESET_CLOCK_BEFORE_MS) ==>
                  forall j :: lo <= j < hi ==> (time[j] < events[k] <==> j < i))
            && (time[lo] < RESET_CLOCK_BEFORE_MS <= events[k] ==> i == lo)
            && (events[k] < RESET_CLOCK_BEFORE_MS <= time[lo] ==> i == hi)
  {
    var b := Bounds(time);
    var r := RunAfter(time, b, events, k + 1);
    RunRises(time, r);
    hide Bounds, RunAfter;
    SplitsRun(time, b[r], b[r + 1], events[k]);
  }

  lemma SplitsRun(time: seq<int>, lo: nat, hi: nat, e: int)
    requires lo < hi && Rising(time, lo, hi)
    ensures lo <= PlacedIn(time, lo, hi, e) <= hi
    ensures (time[lo] < RESET_CLOCK_BEFORE_MS <==> e < RESET_CLOCK_BEFORE_MS) ==>
              forall j :: lo <= j < hi ==> (time[j] < e <==> j < PlacedIn(time, lo, hi, e))
  {
    var i := FirstNotBefore(time, lo, hi, e);
    forall j | i <= j < hi
      ensures time[j] >= e
    {
      assert time[i] <= time[j];
    }
  }

  /** The place in the whole record that a binary search would give. */
  ghost predicate SplitsRecord(time: seq<int>, e: int, i: nat) {
    i <= |time| && forall j :: 0 <= j < |time| ==> (time[j] < e <==> j < i)
  }

  /** On a record whose clock never steps back, an event is placed where a search of the whole record would put it
      exactly when it is on the same side of 2001 as the first sample. */
  lemma WholeRecordExactly(time: seq<int>, events: seq<int>, k: nat)
    requires time != [] && k < |events| && Rising(time, 0, |time|)
    ensures SplitsRecord(time, events[k], Placed(time, events, k)) <==>
              (time[0] < RESET_CLOCK_BEFORE_MS <==> events[k] < RESET_CLOCK_BEFORE_MS)
  {
    OneRun(time);
    PlacedInRun(time, events, k);
    hide Bounds;
    var i := Placed(time, events, k);
    assert SplitsRecord(time, events[k], i) ==> (time[0] < events[k] <==> 0 < i);
  }

  lemma OneRun(time: seq<int>)
    requires time != [] && Rising(time, 0, |time|)
    ensures Bounds(time) == [0, |time|]
  {
    NoneSet(Restarts(time), 1, |time|);
  }

  lemma {:induction false} NoneSet(mask: seq<bool>, lo: nat, hi: nat)
    requires hi <= |mask| && forall w :: lo <= w < hi ==> !mask[w]
    ensures Positions(mask, lo, hi) == []
    decreases hi
  {
    if lo < hi {
      NoneSet(mask, lo, hi - 1);
    }
  }
}
