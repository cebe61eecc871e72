/** What time resolution guarantees: its declarative meaning, conservation, monotone times and bounded corrections. */
module ResolutionLaws {
  import opened Basics
  import opened ClockSegments
  import opened TimeResolution

  // ---- segments tile the record ----

  lemma LowMonotone(c: Record, s: nat, r: nat)
    requires c.Valid() && s <= r <= |c.starts|
    ensures c.Low(s) <= c.Low(r) <= c.High(r) <= |c.time|
    ensures s < r ==> c.High(s) <= c.Low(r)
  {
  }

  lemma SegmentOf(c: Record, i: nat) returns (s: nat)
    requires c.Valid() && i < |c.time|
    ensures s <= |c.starts| && c.Low(s) <= i < c.High(s)
  {
    s := 0;
    while c.High(s) <= i
      invariant s <= |c.starts| && c.Low(s) <= i
      decreases |c.starts| - s
    {
      s := s + 1;
    }
  }

  lemma InFixIsMember(c: Record, s: nat, i: nat)
    requires c.Valid() && s <= |c.starts| && i < |c.time|
    ensures InFix(c, s, i) <==> i in Fix(c, s)
  {
  }

  // ---- the state settles segment by segment ----

  predicate SameAt(a: State, b: State, i: nat)
    requires |a.t| == |a.tf| == |a.keep| == |b.t| == |b.tf| == |b.keep| && i < |a.t|
  {
    a.t[i] == b.t[i] && a.tf[i] == b.tf[i] && a.keep[i] == b.keep[i]
  }

  /** Samples below segment s are settled once s - 1 is resolved. */
  lemma {:induction false} RunSettled(c: Record, s: nat, r: nat, i: nat)
    requires c.Valid() && s <= r <= |c.starts| + 1
    requires i < |c.time| && (s <= |c.starts| ==> i < c.Low(s))
    ensures SameAt(Run(c, s), Run(c, r), i)
    decreases r
  {
    hide Step;
    if s < r {
      LowMonotone(c, s, r - 1);
      RunSettled(c, s, r - 1, i);
      StepTouches(c, r - 1, Run(c, r - 1), i);
    }
  }

  /** The choice for a segment depends on nothing at or past its first reset-clock sample. */
  lemma ChooseLocal(c: Record, s: nat, t: seq<int>, keep: seq<bool>, t': seq<int>, keep': seq<bool>)
    requires c.Valid() && s <= |c.starts| && Fix(c, s) != [] && |t| == |keep| == |t'| == |keep'| == |c.time|
    requires forall i :: 0 <= i < Fix(c, s)[0] ==> t[i] == t'[i] && keep[i] == keep'[i]
    ensures Choose(c, t, keep, s) == Choose(c, t', keep', s)
  {
    hide Positions, ResetMask, Current, RoundHalfEven;
    var j0 := Fix(c, s)[0];
    LastSetLocal(keep, keep', j0);
    assert Candidates(c, t, keep, s) == Candidates(c, t', keep', s);
  }

  lemma {:induction false} LastSetLocal(a: seq<bool>, b: seq<bool>, j: nat)
    requires j <= |a| && j <= |b|
    requires forall i :: 0 <= i < j ==> a[i] == b[i]
    ensures LastSet(a, j) == LastSet(b, j)
  {
    if j > 0 {
      LastSetLocal(a, b, j - 1);
    }
  }

  // ---- the declarative meaning ----

  /** What becomes of sample i of segment s when offload `fate` times the segment (None: its reset samples go). */
  predicate Fated(c: Record, s: nat, fate: Option<nat>, t: seq<int>, tf: seq<TimeFlag>, keep: seq<bool>, i: nat)
    requires c.Valid() && s <= |c.starts| && |t| == |tf| == |keep| == |c.time| && i < |c.time|
  {
    if !InFix(c, s, i) then t[i] == c.time[i] && tf[i] == c.flags[i] && keep[i]
    else
      match fate
      case Some(k) => && k < |c.views| && c.views[k].skew.Seconds?
                      && t[i] == c.time[i] - ShiftMs(c.views[k].skew.s)
                      && tf[i] == c.flags[i].(skewCorrected := true) && keep[i]
      case None => t[i] == c.time[i] && tf[i] == c.flags[i] && !keep[i]
  }

  function FateOf(c: Record, s: nat, t: seq<int>, keep: seq<bool>): Option<nat>
    requires c.Valid() && s <= |c.starts| && |t| == |keep| == |c.time|
  {
    if Fix(c, s) == [] then None else Choose(c, t, keep, s)
  }

  /** The published arrays, described without the loop: every segment's reset-clock samples share the fate that the
      latest admissible offload, judged against the published arrays themselves, gives them. */
  ghost predicate IsOutcome(c: Record, t: seq<int>, tf: seq<TimeFlag>, keep: seq<bool>)
    requires c.Valid() && |t| == |tf| == |keep| == |c.time|
  {
    forall s, i :: 0 <= s <= |c.starts| && c.Low(s) <= i < c.High(s) ==>
              Fated(c, s, FateOf(c, s, t, keep), t, tf, keep, i)
  }

  lemma StepFates(c: Record, s: nat, i: nat)
    requires c.Valid() && s <= |c.starts| && c.Low(s) <= i < c.High(s)
    ensures var st, r := Run(c, s), Run(c, s + 1);
            Fated(c, s, FateOf(c, s, st.t, st.keep), r.t, r.tf, r.keep, i)
  {
    hide Choose, Run;
    RunUntouchedAt(c, s, i);
    InFixIsMember(c, s, i);
    RunStep(c, s);
  }

  lemma RunStep(c: Record, s: nat)
    requires c.Valid() && s <= |c.starts|
    ensures Run(c, s + 1) == Step(c, s, Run(c, s))
  {
    hide Step;
  }

  /** The fate of a segment, judged when the loop reaches it, is the one judged against the final arrays. */
  lemma FateSettled(c: Record, s: nat)
    requires c.Valid() && s <= |c.starts|
    ensures var st, r := Run(c, s), Resolve(c);
            FateOf(c, s, st.t, st.keep) == FateOf(c, s, r.t, r.keep)
  {
    hide Step, Choose, Run;
    var st, r := Run(c, s), Resolve(c);
    if Fix(c, s) != [] {
      var j0 := Fix(c, s)[0];
      forall i | 0 <= i < j0
        ensures st.t[i] == r.t[i] && st.keep[i] == r.keep[i]
      {
        if i < c.Low(s) {
          RunSettled(c, s, |c.starts| + 1, i);
        } else {
          BelowFirst(c, s, i);
          RunUntouchedAt(c, s, i);
          RunStep(c, s);
          StepTouches(c, s, st, i);
          LowMonotone(c, s, s);
          if s < |c.starts| {
            RunSettled(c, s + 1, |c.starts| + 1, i);
          }
        }
      }
      ChooseLocal(c, s, st.t, st.keep, r.t, r.keep);
    }
  }

  lemma BelowFirst(c: Record, s: nat, i: nat)
    requires c.Valid() && s <= |c.starts| && Fix(c, s) != [] && c.Low(s) <= i < Fix(c, s)[0]
    ensures !InFix(c, s, i)
  {
    InFixIsMember(c, s, i);
  }

  /** The loop computes the declared outcome. */
  lemma ResolveIsOutcome(c: Record)
    requires c.Valid()
    ensures var r := Resolve(c); IsOutcome(c, r.t, r.tf, r.keep)
  {
    hide Step, Choose, Run, Fix;
    var r := Resolve(c);
    forall s, i | 0 <= s <= |c.starts| && c.Low(s) <= i < c.High(s)
      ensures Fated(c, s, FateOf(c, s, r.t, r.keep), r.t, r.tf, r.keep, i)
    {
      StepFates(c, s, i);
      FateSettled(c, s);
      LowMonotone(c, s, s);
      RunSettled(c, s + 1, |c.starts| + 1, i);
    }
  }

  /** Nothing else meets the declaration: it determines every published time, flag and keep bit. */
  lemma {:induction false} OutcomeUniqueBelow(c: Record, t: seq<int>, tf: seq<TimeFlag>, keep: seq<bool>,
                                              t': seq<int>, tf': seq<TimeFlag>, keep': seq<bool>, s: nat)
    requires c.Valid() && |t| == |tf| == |keep| == |t'| == |tf'| == |keep'| == |c.time| && s <= |c.starts| + 1
    requires IsOutcome(c, t, tf, keep) && IsOutcome(c, t', tf', keep')
    ensures forall i :: 0 <= i < (if s == 0 then 0 else c.High(s - 1)) ==>
              t[i] == t'[i] && tf[i] == tf'[i] && keep[i] == keep'[i]
  {
    hide Choose, Fix;
    if s > 0 {
      var p := s - 1;
      OutcomeUniqueBelow(c, t, tf, keep, t', tf', keep', p);
      assert forall i :: 0 <= i < c.Low(p) ==> t[i] == t'[i] && tf[i] == tf'[i] && keep[i] == keep'[i];
      if Fix(c, p) != [] {
        forall i | c.Low(p) <= i < Fix(c, p)[0]
          ensures t[i] == t'[i] && keep[i] == keep'[i]
        {
          BelowFirst(c, p, i);
          assert Fated(c, p, FateOf(c, p, t, keep), t, tf, keep, i);
          assert Fated(c, p, FateOf(c, p, t', keep'), t', tf', keep', i);
        }
        ChooseLocal(c, p, t, keep, t', keep');
      }
      assert FateOf(c, p, t, keep) == FateOf(c, p, t', keep');
      forall i | c.Low(p) <= i < c.High(p)
        ensures t[i] == t'[i] && tf[i] == tf'[i] && keep[i] == keep'[i]
      {
        assert Fated(c, p, FateOf(c, p, t, keep), t, tf, keep, i);
        assert Fated(c, p, FateOf(c, p, t', keep'), t', tf', keep', i);
      }
    }
  }

  lemma OutcomeUnique(c: Record, t: seq<int>, tf: seq<TimeFlag>, keep: seq<bool>)
    requires c.Valid() && |t| == |tf| == |keep| == |c.time|
    ensures IsOutcome(c, t, tf, keep) <==> t == Resolve(c).t && tf == Resolve(c).tf && keep == Resolve(c).keep
  {
    hide Choose, Step, Run, Fix, Fated;
    ResolveIsOutcome(c);
    if IsOutcome(c, t, tf, keep) {
      var r := Resolve(c);
      OutcomeUniqueBelow(c, t, tf, keep, r.t, r.tf, r.keep, |c.starts| + 1);
      assert c.High(|c.starts|) == |c.time|;
    }
  }

  // ---- conservation ----

  lemma {:induction false} ComplementCount(a: seq<bool>, b: seq<bool>, lo: nat, hi: nat)
    requires lo <= hi <= |a| && hi <= |b|
    requires forall i :: lo <= i < hi ==> a[i] == !b[i]
    ensures |Positions(a, lo, hi)| + |Positions(b, lo, hi)| == hi - lo
    decreases hi
  {
    if lo < hi {
      ComplementCount(a, b, lo, hi - 1);
    }
  }

  /** Dropping a segment's reset-clock samples lowers the number kept by exactly their number. */
  lemma WithoutCount(c: Record, s: nat, keep: seq<bool>)
    requires c.Valid() && s <= |c.starts| && |keep| == |c.time|
    requires forall i :: c.Low(s) <= i < |c.time| ==> keep[i]
    ensures |Positions(Without(c, s, keep), 0, |keep|)| + |Fix(c, s)| == |Positions(keep, 0, |keep|)|
  {
    hide Positions;
    var n, a, b := |keep|, c.Low(s), c.High(s);
    LowMonotone(c, s, s);
    var less := Without(c, s, keep);
    PositionsSplit(keep, 0, a, n);
    PositionsSplit(keep, a, b, n);
    PositionsSplit(less, 0, a, n);
    PositionsSplit(less, a, b, n);
    PositionsAgree(keep, less, 0, a);
    PositionsAgree(keep, less, b, n);
    AllSetCount(keep, a, b);
    ComplementCount(less, ResetMask(c.flags), a, b);
  }

  lemma StepConserves(c: Record, s: nat, st: State)
    requires c.Valid() && s <= |c.starts| && |st.t| == |st.tf| == |st.keep| == |c.time|
    requires forall i :: c.Low(s) <= i < |c.time| ==> st.keep[i]
    ensures |Positions(Step(c, s, st).keep, 0, |c.time|)| + Step(c, s, st).dropped ==
            |Positions(st.keep, 0, |c.time|)| + st.dropped
  {
    hide Positions, Choose, Fix;
    WithoutCount(c, s, st.keep);
  }

  lemma {:induction false} RunConserves(c: Record, s: nat)
    requires c.Valid() && s <= |c.starts| + 1
    ensures |Positions(Run(c, s).keep, 0, |c.time|)| + Run(c, s).dropped == |c.time|
  {
    hide Positions, Step;
    if s == 0 {
      AllSetCount(Run(c, 0).keep, 0, |c.time|);
    } else {
      RunConserves(c, s - 1);
      RunUntouched(c, s - 1);
      StepConserves(c, s - 1, Run(c, s - 1));
    }
  }

  /** Every sample is kept or counted as dropped, and none both. */
  lemma SamplesConserved(c: Record)
    requires c.Valid()
    ensures |KeptTimes(Resolve(c).t, Resolve(c).keep)| + Resolve(c).dropped == |c.time|
  {
    hide Run;
    RunConserves(c, |c.starts| + 1);
  }

  // ---- the fate of one sample ----

  /** The published values of sample i of segment s, in terms of the segment's final fate. */
  lemma SampleFate(c: Record, s: nat, i: nat)
    requires c.Valid() && s <= |c.starts| && c.Low(s) <= i < c.High(s)
    ensures var r := Resolve(c); Fated(c, s, FateOf(c, s, r.t, r.keep), r.t, r.tf, r.keep, i)
  {
    hide Run, Choose, Fix, Fated;
    ResolveIsOutcome(c);
  }

  /** A sample on a clock that was never reset is published as recorded. */
  lemma UnflaggedUntouched(c: Record, i: nat)
    requires c.Valid() && i < |c.time| && !c.Reset(i)
    ensures Resolve(c).t[i] == c.time[i] && Resolve(c).tf[i] == c.flags[i] && Resolve(c).keep[i]
  {
    hide Run, Choose, Fix;
    var s := SegmentOf(c, i);
    SampleFate(c, s, i);
  }

  /** The reset-clock samples of one segment share one fate: all shifted by the skew of the latest admissible
      offload, or all dropped because no offload is admissible. */
  lemma OneFatePerSegment(c: Record, s: nat)
    requires c.Valid() && s <= |c.starts| && Fix(c, s) != []
    ensures var r := Resolve(c);
            || (exists k :: 0 <= k < |c.views| && Admissible(c, r.t, r.keep, s, k)
                            && (forall j :: k < j < |c.views| ==> !Admissible(c, r.t, r.keep, s, j))
                            && forall i :: 0 <= i < |c.time| && InFix(c, s, i) ==>
                                 r.keep[i] && r.tf[i].skewCorrected && r.t[i] == c.time[i] - ShiftMs(c.views[k].skew.s))
            || ((forall j :: 0 <= j < |c.views| ==> !Admissible(c, r.t, r.keep, s, j))
                && forall i :: 0 <= i < |c.time| && InFix(c, s, i) ==> !r.keep[i])
  {
    hide Run, Consistent, Current;
    var r := Resolve(c);
    var fate := FateOf(c, s, r.t, r.keep);
    var mask := Candidates(c, r.t, r.keep, s);
    assert fate == LastSet(mask, |c.views|);
    assert forall j :: 0 <= j < |c.views| ==> mask[j] == Admissible(c, r.t, r.keep, s, j);
    forall i | 0 <= i < |c.time| && InFix(c, s, i)
      ensures Fated(c, s, fate, r.t, r.tf, r.keep, i)
    {
      SampleFate(c, s, i);
    }
    if fate.Some? {
      assert Admissible(c, r.t, r.keep, s, fate.value);
    }
  }

  // ---- how far a sample is moved ----

  /** A time is moved back by the skew, to the nearest millisecond; halfway, by an even number of them. */
  ghost predicate MovedBy(before: int, after: int, skew: real) {
    var off := (before - after) as real - 1000.0 * skew;
    && -0.5 <= off <= 0.5
    && (off == 0.5 || off == -0.5 ==> (before - after) % 2 == 0)
  }

  /** There is one such time, and it is the one computed. */
  lemma MovedExactly(before: int, after: int, skew: real)
    ensures MovedBy(before, after, skew) <==> after == before - ShiftMs(skew)
  {
    var x := 1000.0 * skew;
    Nearest(x, before - after);
  }

  lemma Nearest(x: real, n: int)
    ensures n == RoundHalfEven(x) <==>
            -0.5 <= n as real - x <= 0.5 && (n as real - x == 0.5 || n as real - x == -0.5 ==> n % 2 == 0)
  {
    var f := x.Floor;
    assert f as real <= x < f as real + 1.0;
  }

  /** A kept reset-clock sample is moved by the skew, in milliseconds, of the offload that times its segment. */
  lemma CorrectedToNearest(c: Record, s: nat, i: nat)
    requires c.Valid() && s <= |c.starts| && i < |c.time| && InFix(c, s, i) && Resolve(c).keep[i]
    ensures var r := Resolve(c);
            Fix(c, s) != [] &&
            match Choose(c, r.t, r.keep, s)
            case None => false
            case Some(k) => c.views[k].skew.Seconds? && MovedBy(c.time[i], r.t[i], c.views[k].skew.s)
  {
    hide Run, Choose, Fix, MovedBy, ShiftMs;
    var r := Resolve(c);
    SampleFate(c, s, i);
    InFixIsMember(c, s, i);
    var k := Choose(c, r.t, r.keep, s);
    if k.Some? && c.views[k.value].skew.Seconds? {
      MovedExactly(c.time[i], r.t[i], c.views[k.value].skew.s);
    }
  }

  // ---- monotone times ----

  ghost predicate FlaggedLast(c: Record)
    requires c.Valid()
  {
    forall i, j :: 0 <= i < j < |c.time| && c.Reset(i) ==> c.Reset(j)
  }

  ghost predicate UnflaggedIncrease(c: Record)
    requires c.Valid()
  {
    forall i, j :: 0 <= i < j < |c.time| && !c.Reset(i) && !c.Reset(j) ==> c.time[i] < c.time[j]
  }

  /** Within one segment, the recorded times of the kept reset-clock samples increase. */
  ghost predicate KeptRunsIncrease(c: Record, keep: seq<bool>)
    requires c.Valid() && |keep| == |c.time|
  {
    forall s, i, j :: 0 <= s <= |c.starts| && 0 <= i < j < |c.time| && InFix(c, s, i) && InFix(c, s, j) && keep[j] ==>
      c.time[i] < c.time[j]
  }

  ghost predicate PairwiseKept(t: seq<int>, keep: seq<bool>)
    requires |t| == |keep|
  {
    forall i, j :: 0 <= i < j < |t| && keep[i] && keep[j] ==> t[i] < t[j]
  }

  lemma KeptIncreasing(t: seq<int>, keep: seq<bool>)
    requires |t| == |keep|
    ensures StrictlyIncreasing(KeptTimes(t, keep)) <==> PairwiseKept(t, keep)
  {
    hide Positions;
    var p, tk := Positions(keep, 0, |keep|), KeptTimes(t, keep);
    if StrictlyIncreasing(tk) {
      forall i, j | 0 <= i < j < |t| && keep[i] && keep[j]
        ensures t[i] < t[j]
      {
        assert i in p && j in p;
        var a :| 0 <= a < |p| && p[a] == i;
        var b :| 0 <= b < |p| && p[b] == j;
        assert tk[a] < tk[b];
      }
    }
    if PairwiseKept(t, keep) {
      forall a, b | 0 <= a < b < |tk|
        ensures tk[a] < tk[b]
      {
        assert p[a] < p[b];
      }
    }
  }

  /** Two kept samples of one segment, both on the reset clock, keep their recorded distance. */
  lemma SameRunDistance(c: Record, s: nat, i: nat, j: nat)
    requires c.Valid() && s <= |c.starts| && i < |c.time| && j < |c.time| && InFix(c, s, i) && InFix(c, s, j)
    ensures var r := Resolve(c); r.keep[i] == r.keep[j] && r.t[j] - r.t[i] == c.time[j] - c.time[i]
  {
    hide Run, Choose, Fix;
    SampleFate(c, s, i);
    SampleFate(c, s, j);
  }

  /** A kept reset-clock sample is published after everything kept before its run. */
  lemma AfterLastKept(c: Record, s: nat, j: nat)
    requires c.Valid() && s <= |c.starts| && j < |c.time| && InFix(c, s, j) && Resolve(c).keep[j]
    ensures Fix(c, s) != [] && Fix(c, s)[0] <= j
    ensures var r := Resolve(c);
            var j0 := Fix(c, s)[0];
            InFix(c, s, j0) &&
            match LastSet(r.keep, j0)
            case Some(p) => r.t[p] < r.t[j0]
            case None => true
  {
    hide Run, Positions, ResetMask, LastSet, Current;
    var r := Resolve(c);
    InFixIsMember(c, s, j);
    FirstIsLeast(c, s, j);
    SampleFate(c, s, j);
    SampleFate(c, s, Fix(c, s)[0]);
  }

  lemma FirstIsLeast(c: Record, s: nat, j: nat)
    requires c.Valid() && s <= |c.starts| && j in Fix(c, s)
    ensures Fix(c, s)[0] <= j && InFix(c, s, Fix(c, s)[0])
  {
  }

  lemma {:induction false} KeptPairIncreases(c: Record, i: nat, j: nat)
    requires c.Valid() && FlaggedLast(c) && UnflaggedIncrease(c) && KeptRunsIncrease(c, Resolve(c).keep)
    requires i < j < |c.time| && Resolve(c).keep[i] && Resolve(c).keep[j]
    ensures Resolve(c).t[i] < Resolve(c).t[j]
    decreases j
  {
    hide Resolve, Fix, LastSet;
    if !c.Reset(j) {
      UnflaggedUntouched(c, i);
      UnflaggedUntouched(c, j);
    } else {
      var s := SegmentOf(c, j);
      AfterLastKept(c, s, j);
      var j0 := Fix(c, s)[0];
      SameRunDistance(c, s, j0, j);
      if i >= j0 {
        assert InFix(c, s, i);
        SameRunDistance(c, s, i, j);
      } else {
        var p := LastSet(Resolve(c).keep, j0);
        LastSetFound(Resolve(c).keep, j0, i);
        if i < p.value {
          KeptPairIncreases(c, i, p.value);
        }
      }
    }
  }

  lemma LastSetFound(mask: seq<bool>, hi: nat, i: nat)
    requires i < hi <= |mask| && mask[i]
    ensures LastSet(mask, hi).Some? && i <= LastSet(mask, hi).value < hi && mask[LastSet(mask, hi).value]
  {
  }

  /** When no unflagged sample follows a flagged one, the refusal "not strictly increasing" is reached exactly when
      the recorded times already fail: among the unflagged samples, or inside one kept run. The corrections never
      cause it, whatever the views and skews, even where adjacent runs are timed by different offloads. */
  lemma CorrectionsKeepTimeMonotone(c: Record)
    requires c.Valid() && FlaggedLast(c)
    ensures var r := Resolve(c);
            StrictlyIncreasing(KeptTimes(r.t, r.keep)) <==> UnflaggedIncrease(c) && KeptRunsIncrease(c, r.keep)
  {
    hide Run, Fix;
    var r := Resolve(c);
    KeptIncreasing(r.t, r.keep);
    if PairwiseKept(r.t, r.keep) {
      forall i, j | 0 <= i < j < |c.time| && !c.Reset(i) && !c.Reset(j)
        ensures c.time[i] < c.time[j]
      {
        UnflaggedUntouched(c, i);
        UnflaggedUntouched(c, j);
      }
      forall s, i, j | 0 <= s <= |c.starts| && 0 <= i < j < |c.time| && InFix(c, s, i) && InFix(c, s, j) && r.keep[j]
        ensures c.time[i] < c.time[j]
      {
        SameRunDistance(c, s, i, j);
      }
    }
    if UnflaggedIncrease(c) && KeptRunsIncrease(c, r.keep) {
      forall i, j | 0 <= i < j < |c.time| && r.keep[i] && r.keep[j]
        ensures r.t[i] < r.t[j]
      {
        KeptPairIncreases(c, i, j);
      }
    }
  }

  // ---- bounded corrections ----

  /** No recorded time steps back inside a segment. */
  ghost predicate SegmentsNonDecreasing(c: Record)
    requires c.Valid()
  {
    forall s, i, j :: 0 <= s <= |c.starts| && c.Low(s) <= i <= j < c.High(s) ==> c.time[i] <= c.time[j]
  }

  lemma {:induction false} TableHas(starts: seq<SegmentStart>, a: nat)
    requires a < |starts|
    ensures starts[a].sampleIndex in Table(starts)
  {
    if a < |starts| - 1 {
      TableHas(starts[..|starts| - 1], a);
    }
  }

  lemma {:induction false} ClockSetsExtend(m: map<nat, SegmentStart>, views: seq<OffloadView>, n: nat, k: nat, i: nat)
    requires Keyed(m) && (k < |views| || k == 0) && i in m
    ensures i in WithClockSets(m, views, n, k) && WithClockSets(m, views, n, k)[i] == m[i]
  {
    if k > 0 {
      ClockSetsExtend(m, views, n, k - 1, i);
    }
  }

  /** Every given start inside (0, n] begins a segment in force. */
  lemma GivenStartInForce(n: nat, given: seq<SegmentStart>, views: seq<OffloadView>, a: nat) returns (b: nat)
    requires a < |given| && 0 < given[a].sampleIndex <= n
    ensures b < |StartsInForce(n, given, views)|
    ensures StartsInForce(n, given, views)[b].sampleIndex == given[a].sampleIndex
  {
    hide Table, WithClockSets;
    var i := given[a].sampleIndex;
    TableHas(given, a);
    ClockSetsExtend(Table(given), views, n, Pairs(views), i);
    var s := WithClockSets(Table(given), views, n, Pairs(views))[i];
    assert s in StartsInForce(n, given, views);
    b :| 0 <= b < |StartsInForce(n, given, views)| && StartsInForce(n, given, views)[b] == s;
  }

  /** No segment starts strictly inside another. */
  lemma OutsideSegment(c: Record, s: nat, b: nat)
    requires c.Valid() && s <= |c.starts| && b < |c.starts|
    ensures c.starts[b].sampleIndex <= c.Low(s) || c.starts[b].sampleIndex >= c.High(s)
  {
    if b < s {
      LowMonotone(c, b + 1, s);
    }
  }

  /** Completeness of the segment starts carries over to the record that is resolved. */
  lemma StartsLeaveNoBackwardStep(time: seq<int>, flags: seq<TimeFlag>, events: seq<(nat, nat)>,
                                  given: seq<SegmentStart>,
                                  views: seq<OffloadView>)
    requires |flags| == |time| && AreStarts(time, events, given)
    ensures SegmentsNonDecreasing(MakeRecord(time, flags, given, views))
  {
    hide StartsInForce, AreStarts;
    var c := MakeRecord(time, flags, given, views);
    forall s, i, j | 0 <= s <= |c.starts| && c.Low(s) <= i <= j < c.High(s)
      ensures c.time[i] <= c.time[j]
    {
      forall a | 0 <= a < |given|
        ensures !(i < given[a].sampleIndex <= j)
      {
        if 0 < given[a].sampleIndex <= |time| {
          var b := GivenStartInForce(|time|, given, views, a);
          assert b < |c.starts| && c.starts[b].sampleIndex == given[a].sampleIndex;
          OutsideSegment(c, s, b);
        }
      }
      NoBackwardStepInside(time, events, given, i, j);
    }
  }

  /** A corrected sample lands at or after 2001, and no later than 5 s past the offload that timed it when that
      offload had seen it. */
  lemma CorrectionsBounded(c: Record, s: nat, i: nat)
    requires c.Valid() && SegmentsNonDecreasing(c) && s <= |c.starts| && i < |c.time| && InFix(c, s, i)
    requires Resolve(c).keep[i]
    ensures var r := Resolve(c);
            Fix(c, s) != [] &&
            match Choose(c, r.t, r.keep, s)
            case None => false
            case Some(k) => && r.t[i] >= RESET_CLOCK_BEFORE_MS
                            && (i < c.views[k].samplesSeen ==> r.t[i] <= c.views[k].unixMs + SEEN_SLACK_MS)
  {
    hide Run, Positions, ResetMask, Current, LastSet, LastBelow, RoundHalfEven;
    var r := Resolve(c);
    SampleFate(c, s, i);
    InFixIsMember(c, s, i);
    FirstIsLeast(c, s, i);
    var k := Choose(c, r.t, r.keep, s).value;
    var seen := LastBelow(Fix(c, s), c.views[k].samplesSeen);
    if i < c.views[k].samplesSeen {
      LastBelowIsGreatest(Fix(c, s), c.views[k].samplesSeen, i);
      assert i <= seen.value && c.time[i] <= c.time[seen.value];
    }
  }

  lemma {:induction false} LastBelowIsGreatest(idx: seq<nat>, seen: nat, i: nat)
    requires i in idx && i < seen
    requires forall a, b :: 0 <= a < b < |idx| ==> idx[a] < idx[b]
    ensures LastBelow(idx, seen).Some? && i <= LastBelow(idx, seen).value
  {
    var m := |idx| - 1;
    if idx[m] >= seen {
      LastBelowIsGreatest(idx[..m], seen, i);
    }
  }

  /** Shifted, sample i lies in or after 2001 and after the last sample kept before index `first`, and, if the offload
      had seen it, no later than the offload, with 5 s of slack. */
  ghost predicate Plausible(time: seq<int>, t: seq<int>, keep: seq<bool>, first: nat, v: OffloadView, shift: int,
                            i: nat)
    requires |t| == |keep| == |time| && first <= |time| && i < |time|
  {
    && time[i] - shift >= 978_307_200_000
    && (LastSet(keep, first).Some? ==> time[i] - shift > t[LastSet(keep, first).value])
    && (i < v.samplesSeen ==> time[i] - shift <= v.unixMs + 5_000)
  }

  /** Looking at two samples of a run is enough: an offload's checks pass exactly when its skew was measured and puts
      every reset-clock sample of the segment at a plausible time. */
  lemma ChecksCoverRun(c: Record, s: nat, t: seq<int>, keep: seq<bool>, v: OffloadView)
    requires c.Valid() && SegmentsNonDecreasing(c) && s <= |c.starts| && |t| == |keep| == |c.time|
    requires Fix(c, s) != []
    ensures Consistent(c.time, t, keep, Fix(c, s), v) <==>
            v.skew.Seconds? && forall i :: 0 <= i < |c.time| && InFix(c, s, i) ==>
                                 Plausible(c.time, t, keep, Fix(c, s)[0], v, ShiftMs(v.skew.s), i)
  {
    hide Positions, ResetMask, LastSet, LastBelow, RoundHalfEven;
    var idx := Fix(c, s);
    var seen := LastBelow(idx, v.samplesSeen);
    assert InFix(c, s, idx[0]);
    if v.skew.Seconds? {
      var shift := ShiftMs(v.skew.s);
      if Consistent(c.time, t, keep, idx, v) {
        forall i | 0 <= i < |c.time| && InFix(c, s, i)
          ensures Plausible(c.time, t, keep, idx[0], v, shift, i)
        {
          InFixIsMember(c, s, i);
          FirstIsLeast(c, s, i);
          assert c.time[idx[0]] <= c.time[i];
          if i < v.samplesSeen {
            LastBelowIsGreatest(idx, v.samplesSeen, i);
            assert c.time[i] <= c.time[seen.value];
          }
        }
      }
      if forall i :: 0 <= i < |c.time| && InFix(c, s, i) ==> Plausible(c.time, t, keep, idx[0], v, shift, i) {
        assert Plausible(c.time, t, keep, idx[0], v, shift, idx[0]);
        if seen.Some? {
          InFixIsMember(c, s, seen.value);
          assert Plausible(c.time, t, keep, idx[0], v, shift, seen.value);
        }
      }
    }
  }
}
