/** Clock segments of a logger record: where its clock restarted, and which restart each offload had seen. */
module ClockSegments {
  import opened Basics

  /** The start of 2001 in Unix ms. A clock that lost its power counts from the start of 2000, so it shows less. */
  const RESET_CLOCK_BEFORE_MS: int := 978_307_200_000

  /** The three time-flag bits of a sample set. */
  datatype TimeFlag = TimeFlag(noAnchor: bool, resetClock: bool, skewCorrected: bool)

  datatype SegmentStart = SegmentStart(sampleIndex: nat, eventIndex: Option<nat>)

  /** Logger minus UTC as an offload measured it; the two other cases time nothing. */
  datatype Skew = NotMeasured | NotFinite | Seconds(s: real)

  datatype OffloadView = OffloadView(samplesSeen: nat, eventsSeen: nat, unixMs: int, skew: Skew, clockSetBefore: bool)
  {
    predicate Saw(start: SegmentStart) {
      match start.eventIndex
      case Some(k) => k < eventsSeen
      case None => start.sampleIndex < samplesSeen
    }
  }

  /** A table of starts, each under its own sample index. */
  predicate Keyed(m: map<nat, SegmentStart>) {
    forall i <- m :: m[i].sampleIndex == i
  }

  /** Starts in increasing order of sample index, all inside (0, n]. */
  predicate Ordered(starts: seq<SegmentStart>, n: nat) {
    && (forall a :: 0 <= a < |starts| ==> 0 < starts[a].sampleIndex <= n)
    && (forall a, b :: 0 <= a < b < |starts| ==> starts[a].sampleIndex < starts[b].sampleIndex)
  }

  /** The entries of a table at indices in (0, hi], sorted. */
  function InOrder(m: map<nat, SegmentStart>, hi: nat): (starts: seq<SegmentStart>)
    requires Keyed(m)
    ensures Ordered(starts, hi)
    ensures forall s :: s in starts <==> 0 < s.sampleIndex <= hi && s.sampleIndex in m && m[s.sampleIndex] == s
  {
    if hi == 0 then []
    else InOrder(m, hi - 1) + (if hi in m then [m[hi]] else [])
  }

  predicate BackwardStep(time: seq<int>, i: nat) {
    0 < i < |time| && time[i] < time[i - 1]
  }

  /** Position of the first of the first j restart events that is at sample index `i`, if there is one. */
  function FirstBefore(events: seq<(nat, nat)>, j: nat, i: nat): (r: Option<nat>)
    requires j <= |events|
    ensures r.Some? ==> r.value < j && events[r.value].0 == i && forall k :: 0 <= k < r.value ==> events[k].0 != i
    ensures r.None? ==> forall k :: 0 <= k < j ==> events[k].0 != i
  {
    if j == 0 then None
    else
      match FirstBefore(events, j - 1, i)
      case Some(k) => Some(k)
      case None => if events[j - 1].0 == i then Some(j - 1) else None
  }

  function FirstAt(events: seq<(nat, nat)>, i: nat): (r: Option<nat>)
    ensures r.Some? ==> r.value < |events| && events[r.value].0 == i
  {
    FirstBefore(events, |events|, i)
  }

  /** What `i` contributes to the starts of a record: the first restart event there, else a backward step. */
  function StartAt(time: seq<int>, events: seq<(nat, nat)>, i: nat): Option<SegmentStart> {
    match FirstAt(events, i)
    case Some(k) => Some(SegmentStart(i, Some(events[k].1)))
    case None => if BackwardStep(time, i) then Some(SegmentStart(i, None)) else None
  }

  /** The specification of Starts: an ordered list that holds exactly what each index in (0, n] contributes. */
  ghost predicate AreStarts(time: seq<int>, events: seq<(nat, nat)>, starts: seq<SegmentStart>) {
    && Ordered(starts, |time|)
    && forall i :: 0 < i <= |time| ==>
         match StartAt(time, events, i)
         case Some(s) => s in starts
         case None => forall s <- starts :: s.sampleIndex != i
  }

  /** The starts of a record, as one expression. */
  function StartList(time: seq<int>, events: seq<(nat, nat)>): (starts: seq<SegmentStart>)
    ensures AreStarts(time, events, starts)
  {
    var table := map i: nat | 0 < i <= |time| && StartAt(time, events, i).Some? :: StartAt(time, events, i).value;
    InOrder(table, |time|)
  }

  /** The table of the first j restart events: at each sample index, the first event listed there. */
  ghost predicate IsEventTable(n: nat, events: seq<(nat, nat)>, j: nat, table: map<nat, SegmentStart>)
    requires j <= |events|
  {
    && (forall i :: i in table <==> 0 < i <= n && FirstBefore(events, j, i).Some?)
    && (forall i <- table :: FirstBefore(events, j, i).Some? &&
                             table[i] == SegmentStart(i, Some(events[FirstBefore(events, j, i).value].1)))
  }

  method EventTable(n: nat, events: seq<(nat, nat)>) returns (table: map<nat, SegmentStart>)
    ensures IsEventTable(n, events, |events|, table)
  {
    table := map[];
    for j := 0 to |events|
      invariant IsEventTable(n, events, j, table)
    {
      var (index, k) := events[j];
      if 0 < index <= n && index !in table {
        table := table[index := SegmentStart(index, Some(k))];
      }
    }
  }

  /** The starts of a record. Each index is looked up twice: among the restart events, which win, and then as a place
      where the clock steps back. The index past the last sample counts, since an event can be there. */
  method Starts(time: seq<int>, events: seq<(nat, nat)>) returns (starts: seq<SegmentStart>)
    ensures AreStarts(time, events, starts)
  {
    hide FirstBefore;
    var n := |time|;
    var table := EventTable(n, events);
    for i := 1 to n + 1
      invariant forall x :: x in table <==>
                  0 < x <= n && (FirstAt(events, x).Some? || (x < i && BackwardStep(time, x)))
      invariant forall x <- table :: StartAt(time, events, x) == Some(table[x])
    {
      if BackwardStep(time, i) && i !in table {
        table := table[i := SegmentStart(i, None)];
      }
    }
    starts := InOrder(table, n);
  }

  /** The starts of a record are determined: the specification has at most one answer. */
  lemma StartsUnique(time: seq<int>, events: seq<(nat, nat)>, a: seq<SegmentStart>, b: seq<SegmentStart>)
    requires AreStarts(time, events, a) && AreStarts(time, events, b)
    ensures a == b
  {
    forall s
      ensures s in a <==> s in b
    {
      StartMember(time, events, a, s);
      StartMember(time, events, b, s);
    }
    OrderedUnique(a, b, |time|);
  }

  lemma StartMember(time: seq<int>, events: seq<(nat, nat)>, starts: seq<SegmentStart>, s: SegmentStart)
    requires AreStarts(time, events, starts)
    ensures s in starts <==>
            0 < s.sampleIndex <= |time| && StartAt(time, events, s.sampleIndex) == Some(s)
  {
    if s in starts && StartAt(time, events, s.sampleIndex).Some? {
      var other := StartAt(time, events, s.sampleIndex).value;
      assert other in starts;
      var a :| 0 <= a < |starts| && starts[a] == s;
      var b :| 0 <= b < |starts| && starts[b] == other;
    }
  }

  lemma {:induction false} OrderedUnique(a: seq<SegmentStart>, b: seq<SegmentStart>, n: nat)
    requires Ordered(a, n) && Ordered(b, n)
    requires forall s :: s in a <==> s in b
    ensures a == b
  {
    assert a != [] ==> a[0] in a;
    assert b != [] ==> b[0] in b;
    if a != [] {
      var i, j := |a| - 1, |b| - 1;
      assert a[i] in a && b[j] in b;
      assert a[i] == b[j];
      forall s
        ensures s in a[..i] <==> s in b[..j]
      {
        if s in a[..i] {
          assert s in a && s != a[i];
        }
        if s in b[..j] {
          assert s in b && s != b[j];
        }
      }
      OrderedUnique(a[..i], b[..j], n);
      assert a == a[..i] + [a[i]] && b == b[..j] + [b[j]];
    }
  }

  /** Segment starts are complete: between two consecutive ones, and before the first and after the last, the
      logger clock never steps back. */
  lemma NoBackwardStepInside(time: seq<int>, events: seq<(nat, nat)>, starts: seq<SegmentStart>, i: nat, j: nat)
    requires AreStarts(time, events, starts)
    requires i <= j < |time|
    requires forall s <- starts :: !(i < s.sampleIndex <= j)
    ensures time[i] <= time[j]
    decreases j - i
  {
    if i < j {
      NoBackwardStepInside(time, events, starts, i, j - 1);
      assert StartAt(time, events, j).Some? ==> StartAt(time, events, j).value.sampleIndex == j;
    }
  }
}
