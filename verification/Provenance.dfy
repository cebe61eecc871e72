/** The provenance table of a published record: the runs that were corrected, by whose skew, and where they lie on the
    output axis. */
module Provenance {
  import opened Basics
  import opened ClockSegments
  import opened TimeResolution
  import opened ResolutionLaws

  /** Later offloads have seen at least as many sample sets and events as earlier ones. */
  ghost predicate ViewsGrow(views: seq<OffloadView>) {
    forall a, b :: 0 <= a < b < |views| ==>
      views[a].samplesSeen <= views[b].samplesSeen && views[a].eventsSeen <= views[b].eventsSeen
  }

  /** An offload that saw no less is on no earlier a clock segment. */
  lemma CurrentMonotone(v: OffloadView, w: OffloadView, starts: seq<SegmentStart>)
    requires v.samplesSeen <= w.samplesSeen && v.eventsSeen <= w.eventsSeen
    ensures Current(v, starts) <= Current(w, starts)
  {
    var j := Current(v, starts);
    if j > 0 {
      assert v.Saw(starts[j - 1]) && w.Saw(starts[j - 1]);
    }
  }

  ghost predicate FreshFlags(c: Record)
    requires c.Valid()
  {
    forall i :: 0 <= i < |c.time| ==> !c.flags[i].skewCorrected
  }

  /** The end of what the first s segments cover. */
  function Covered(c: Record, s: nat): nat
    requires c.Valid() && s <= |c.starts| + 1
  {
    if s == 0 then 0 else c.High(s - 1)
  }

  ghost predicate InRange(x: TimeCorrection, i: nat) {
    x.start <= i < x.end
  }

  /** One row: a run of reset-clock samples of a segment already resolved, timed by an offload on that segment. */
  ghost predicate RowOk(c: Record, x: TimeCorrection, s: nat)
    requires c.Valid() && s <= |c.starts| + 1
  {
    && x.start < x.end <= Covered(c, s) && c.Reset(x.start) && c.Reset(x.end - 1)
    && x.offload < |c.views| && c.views[x.offload].skew == Seconds(x.skew)
    && Current(c.views[x.offload], c.starts) < s
  }

  /** Rows are ordered along the record, disjoint, and name strictly later and later offloads. */
  ghost predicate RowsOrdered(cs: seq<TimeCorrection>) {
    forall a, b :: 0 <= a < b < |cs| ==> cs[a].end <= cs[b].start && cs[a].offload < cs[b].offload
  }

  /** Sample i is marked corrected exactly when it is a reset-clock sample inside a row, and is then shifted by that
      row's skew. */
  ghost predicate Explained(c: Record, st: State, i: nat)
    requires c.Valid() && |st.t| == |st.tf| == |st.keep| == |c.time| && i < |c.time|
  {
    && (st.tf[i].skewCorrected <==>
          c.Reset(i) && exists a :: 0 <= a < |st.corrections| && InRange(st.corrections[a], i))
    && (forall a :: 0 <= a < |st.corrections| && InRange(st.corrections[a], i) && c.Reset(i) ==>
          st.keep[i] && st.t[i] == c.time[i] - ShiftMs(st.corrections[a].skew))
  }

  ghost predicate TableOk(c: Record, st: State, s: nat)
    requires c.Valid() && s <= |c.starts| + 1 && |st.t| == |st.tf| == |st.keep| == |c.time|
  {
    && (forall a :: 0 <= a < |st.corrections| ==> RowOk(c, st.corrections[a], s))
    && RowsOrdered(st.corrections)
    && (forall i :: 0 <= i < Covered(c, s) ==> Explained(c, st, i))
  }

  lemma RowLater(c: Record, x: TimeCorrection, s: nat)
    requires c.Valid() && s <= |c.starts| && RowOk(c, x, s)
    ensures RowOk(c, x, s + 1)
  {
    LowMonotone(c, s, s);
  }

  lemma NewRow(c: Record, s: nat, k: nat)
    requires c.Valid() && s <= |c.starts| && Fix(c, s) != [] && k < |c.views| && c.views[k].skew.Seconds?
    requires Current(c.views[k], c.starts) == s
    ensures var idx := Fix(c, s);
            var x := TimeCorrection(idx[0], idx[|idx| - 1] + 1, k, c.views[k].skew.s);
            RowOk(c, x, s + 1) && c.Low(s) <= x.start &&
            forall i :: 0 <= i < |c.time| && c.Reset(i) ==> (InRange(x, i) <==> InFix(c, s, i))
  {
    hide Current;
    var idx := Fix(c, s);
    forall i | 0 <= i < |c.time| && InFix(c, s, i)
      ensures idx[0] <= i <= idx[|idx| - 1]
    {
      InFixIsMember(c, s, i);
    }
  }

  lemma RowsExtend(c: Record, cs: seq<TimeCorrection>, x: TimeCorrection, s: nat)
    requires c.Valid() && s <= |c.starts| && ViewsGrow(c.views)
    requires forall a :: 0 <= a < |cs| ==> RowOk(c, cs[a], s)
    requires RowsOrdered(cs) && RowOk(c, x, s + 1) && c.Low(s) <= x.start
    requires Current(c.views[x.offload], c.starts) == s
    ensures RowsOrdered(cs + [x])
  {
    forall a | 0 <= a < |cs|
      ensures cs[a].end <= x.start && cs[a].offload < x.offload
    {
      assert RowOk(c, cs[a], s);
      if cs[a].offload > x.offload {
        CurrentMonotone(c.views[x.offload], c.views[cs[a].offload], c.starts);
      }
    }
  }

  /** A row added for segment s, if any, covers none of the samples before it and, of the reset-clock samples, exactly
      those of the segment. */
  lemma AddedRow(c: Record, s: nat, st: State)
    requires c.Valid() && s <= |c.starts| && |st.t| == |st.tf| == |st.keep| == |c.time|
    ensures var r := Step(c, s, st);
            && |st.corrections| <= |r.corrections| <= |st.corrections| + 1
            && r.corrections[..|st.corrections|] == st.corrections
            && (|r.corrections| > |st.corrections| ==>
                  var x := r.corrections[|st.corrections|];
                  && c.Low(s) <= x.start
                  && (forall i :: 0 <= i < |c.time| && c.Reset(i) ==> (InRange(x, i) <==> InFix(c, s, i)))
                  && forall i :: 0 <= i < |c.time| && InFix(c, s, i) ==>
                       r.tf[i].skewCorrected && r.keep[i] == st.keep[i] && r.t[i] == st.t[i] - ShiftMs(x.skew))
            && (|r.corrections| == |st.corrections| ==>
                  r.tf == st.tf && forall i :: 0 <= i < |c.time| && InFix(c, s, i) ==> r.t[i] == st.t[i])
  {
    hide Fix, Candidates, LastSet, RoundHalfEven, Current;
    if Fix(c, s) != [] && Choose(c, st.t, st.keep, s).Some? {
      NewRow(c, s, Choose(c, st.t, st.keep, s).value);
    }
  }

  lemma ExplainedBefore(c: Record, s: nat, st: State, i: nat)
    requires c.Valid() && s <= |c.starts| && |st.t| == |st.tf| == |st.keep| == |c.time|
    requires i < c.Low(s) && i < |c.time| && Explained(c, st, i)
    ensures Explained(c, Step(c, s, st), i)
  {
    hide Step, Current, RoundHalfEven, Fix, Choose;
    AddedRow(c, s, st);
    StepUntouchedAt(c, s, st, i);
    var r := Step(c, s, st);
    assert forall a :: 0 <= a < |st.corrections| ==> r.corrections[a] == st.corrections[a];
  }

  lemma ExplainedInside(c: Record, s: nat, st: State, i: nat)
    requires c.Valid() && s <= |c.starts| && |st.t| == |st.tf| == |st.keep| == |c.time|
    requires FreshFlags(c) && Untouched(c, c.Low(s), st) && c.Low(s) <= i < c.High(s) <= |c.time|
    requires forall a :: 0 <= a < |st.corrections| ==> RowOk(c, st.corrections[a], s)
    ensures Explained(c, Step(c, s, st), i)
  {
    hide Step, Current, RoundHalfEven, Fix, Choose;
    AddedRow(c, s, st);
    StepUntouchedAt(c, s, st, i);
    var r, m := Step(c, s, st), |st.corrections|;
    assert forall a :: 0 <= a < m ==> r.corrections[a] == st.corrections[a] && !InRange(st.corrections[a], i);
    if |r.corrections| > m && InFix(c, s, i) {
      assert InRange(r.corrections[m], i);
    }
  }

  lemma ExplainedAfter(c: Record, s: nat, st: State, i: nat)
    requires c.Valid() && s <= |c.starts| && |st.t| == |st.tf| == |st.keep| == |c.time|
    requires FreshFlags(c) && Untouched(c, c.Low(s), st) && i < c.High(s)
    requires forall a :: 0 <= a < |st.corrections| ==> RowOk(c, st.corrections[a], s)
    requires i < c.Low(s) ==> Explained(c, st, i)
    ensures Explained(c, Step(c, s, st), i)
  {
    hide Step, Explained, RowOk, Untouched, FreshFlags;
    LowMonotone(c, s, s);
    if i < c.Low(s) {
      ExplainedBefore(c, s, st, i);
    } else {
      ExplainedInside(c, s, st, i);
    }
  }

  lemma StepUntouchedAt(c: Record, s: nat, st: State, i: nat)
    requires c.Valid() && s <= |c.starts| && |st.t| == |st.tf| == |st.keep| == |c.time| && i < |c.time|
    ensures !InFix(c, s, i) ==> SameAt(st, Step(c, s, st), i)
  {
    if !InFix(c, s, i) {
      StepTouches(c, s, st, i);
    }
  }

  lemma StepTable(c: Record, s: nat, st: State)
    requires c.Valid() && s <= |c.starts| && |st.t| == |st.tf| == |st.keep| == |c.time|
    requires ViewsGrow(c.views) && FreshFlags(c) && Untouched(c, c.Low(s), st) && TableOk(c, st, s)
    ensures TableOk(c, Step(c, s, st), s + 1)
  {
    hide Fix, Candidates, LastSet, RoundHalfEven, Explained, Untouched, Current, RowOk, RowsOrdered, ViewsGrow,
         FreshFlags;
    var r := Step(c, s, st);
    assert Covered(c, s) == c.Low(s);
    forall i | 0 <= i < c.High(s)
      ensures Explained(c, r, i)
    {
      ExplainedAfter(c, s, st, i);
    }
    forall a | 0 <= a < |st.corrections|
      ensures RowOk(c, st.corrections[a], s + 1)
    {
      RowLater(c, st.corrections[a], s);
    }
    if Fix(c, s) != [] && Choose(c, st.t, st.keep, s).Some? {
      var k := Choose(c, st.t, st.keep, s).value;
      NewRow(c, s, k);
      RowsExtend(c, st.corrections, r.corrections[|st.corrections|], s);
    }
  }

  lemma {:induction false} RunTable(c: Record, s: nat)
    requires c.Valid() && s <= |c.starts| + 1 && ViewsGrow(c.views) && FreshFlags(c)
    ensures TableOk(c, Run(c, s), s)
  {
    hide Step, TableOk, ViewsGrow, FreshFlags;
    if s == 0 {
      EmptyTable(c);
    } else {
      RunTable(c, s - 1);
      RunUntouched(c, s - 1);
      StepTable(c, s - 1, Run(c, s - 1));
    }
  }

  lemma EmptyTable(c: Record)
    requires c.Valid()
    ensures TableOk(c, Run(c, 0), 0)
  {
  }

  /** The provenance table of the resolved record: rows in order along the record and disjoint, each offload used for
      at most one run and later rows by later offloads; the samples marked corrected are exactly the reset-clock
      samples the rows cover, kept, and shifted by the skew the row states. */
  lemma ProvenanceTable(c: Record)
    requires c.Valid() && ViewsGrow(c.views) && FreshFlags(c)
    ensures var r := Resolve(c);
            && RowsOrdered(r.corrections)
            && (forall a :: 0 <= a < |r.corrections| ==> RowOk(c, r.corrections[a], |c.starts| + 1))
            && (forall i :: 0 <= i < |c.time| ==> Explained(c, r, i))
            && (forall i, a :: 0 <= i < |c.time| && c.Reset(i) && 0 <= a < |r.corrections|
                               && InRange(r.corrections[a], i) ==>
                  r.keep[i] && MovedBy(c.time[i], r.t[i], r.corrections[a].skew))
  {
    hide Run, Explained, RowOk, RowsOrdered, ViewsGrow, FreshFlags, MovedBy;
    RunTable(c, |c.starts| + 1);
    var r := Resolve(c);
    forall i, a | 0 <= i < |c.time| && c.Reset(i) && 0 <= a < |r.corrections| && InRange(r.corrections[a], i)
      ensures r.keep[i] && MovedBy(c.time[i], r.t[i], r.corrections[a].skew)
    {
      RowMoves(c, r, i, a);
    }
  }

  lemma RowMoves(c: Record, st: State, i: nat, a: nat)
    requires c.Valid() && |st.t| == |st.tf| == |st.keep| == |c.time| && i < |c.time| && Explained(c, st, i)
    requires c.Reset(i) && a < |st.corrections| && InRange(st.corrections[a], i)
    ensures st.keep[i] && MovedBy(c.time[i], st.t[i], st.corrections[a].skew)
  {
    hide MovedBy, ShiftMs;
    MovedExactly(c.time[i], st.t[i], st.corrections[a].skew);
  }

  // ---- the kept axis ----

  function KeptBefore(keep: seq<bool>, i: nat): nat
    requires i <= |keep|
  {
    |Positions(keep, 0, i)|
  }

  function Clamp(i: int, n: nat): nat {
    if i < 0 then 0 else if i > n then n else i
  }

  /** How many of the samples before index i were kept, also where i is not an index of the record. */
  ghost predicate Counts(keep: seq<bool>, i: int, count: nat) {
    && (i <= 0 ==> count == 0)
    && (0 <= i <= |keep| ==> count == |Positions(keep, 0, i)|)
    && (i >= |keep| ==> count == |Positions(keep, 0, |keep|)|)
  }

  /** For each index asked for, how many samples before it were kept. One pass counts them all. */
  method KeptIndex(keep: seq<bool>, sampleIndex: seq<int>) returns (out: seq<nat>)
    ensures |out| == |sampleIndex|
    ensures forall k :: 0 <= k < |out| ==> Counts(keep, sampleIndex[k], out[k])
    ensures forall k :: 0 <= k < |out| ==> out[k] == KeptBefore(keep, Clamp(sampleIndex[k], |keep|))
  {
    var keptBefore := [0];
    for i := 0 to |keep|
      invariant |keptBefore| == i + 1
      invariant forall j :: 0 <= j <= i ==> keptBefore[j] == KeptBefore(keep, j)
    {
      keptBefore := keptBefore + [keptBefore[i] + if keep[i] then 1 else 0];
    }
    out := seq(|sampleIndex|, k requires 0 <= k < |sampleIndex| => keptBefore[Clamp(sampleIndex[k], |keep|)]);
  }

  /** A kept sample is found on the output axis at its own kept index. */
  lemma KeptPosition(t: seq<int>, keep: seq<bool>, i: nat)
    requires |t| == |keep| && i < |keep| && keep[i]
    ensures KeptBefore(keep, i) < |KeptTimes(t, keep)| && KeptTimes(t, keep)[KeptBefore(keep, i)] == t[i]
  {
    PositionsSplit(keep, 0, i, |keep|);
    PositionsSplit(keep, i, i + 1, |keep|);
    assert Positions(keep, i, i + 1) == [i] by {
      assert Positions(keep, i, i) == [];
    }
  }

  lemma KeptBeforeMonotone(keep: seq<bool>, i: nat, j: nat)
    requires i <= j <= |keep|
    ensures KeptBefore(keep, i) <= KeptBefore(keep, j)
    ensures i < j && keep[i] ==> KeptBefore(keep, i) < KeptBefore(keep, j)
  {
    PositionsSplit(keep, 0, i, j);
    if i < j {
      assert keep[i] ==> i in Positions(keep, i, j);
    }
  }

  /** A range of samples, mapped to the output axis, covers exactly the kept samples of the range. */
  lemma RangeOnAxis(keep: seq<bool>, start: nat, end: nat, i: nat)
    requires start <= end <= |keep| && i < |keep| && keep[i]
    ensures KeptBefore(keep, start) <= KeptBefore(keep, i) < KeptBefore(keep, end) <==> start <= i < end
  {
    hide KeptBefore;
    if i < start {
      KeptBeforeMonotone(keep, i, start);
    } else {
      KeptBeforeMonotone(keep, start, i);
    }
    if i < end {
      KeptBeforeMonotone(keep, i, end);
    } else {
      KeptBeforeMonotone(keep, end, i);
    }
  }
}
