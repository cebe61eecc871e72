/** Best-estimate UTC sample times: each run of samples on a restarted clock is shifted by the skew of the latest
    offload that can time it, or dropped whole. */
module TimeResolution {
  import opened Basics
  import opened ClockSegments

  const SEEN_SLACK_MS: int := 5000

  datatype TimeCorrection = TimeCorrection(start: nat, end: nat, offload: nat, skew: real)

  /** A record to resolve: logger-clock times, their flags, the segment starts in force, and one view per offload. */
  datatype Record = Record(time: seq<int>, flags: seq<TimeFlag>, starts: seq<SegmentStart>, views: seq<OffloadView>) {
    predicate Valid() {
      |flags| == |time| && Ordered(starts, |time|)
    }

    /** The samples of segment s are [Low(s), High(s)). */
    function Low(s: nat): nat
      requires s <= |starts|
    {
      if s == 0 then 0 else starts[s - 1].sampleIndex
    }

    function High(s: nat): nat
      requires s <= |starts|
    {
      if s == |starts| then |time| else starts[s].sampleIndex
    }

    predicate Reset(i: nat)
      requires i < |flags|
    {
      flags[i].resetClock
    }
  }

  /** The working state: times, flags and keep mask so far, corrections applied and number of samples dropped. */
  datatype State = State(t: seq<int>, tf: seq<TimeFlag>, keep: seq<bool>, corrections: seq<TimeCorrection>,
                         dropped: nat)

  datatype Outcome = Resolved(state: State) | NotIncreasing(after: nat)

  // ---- rounding ----

  /** Round to the nearest integer, ties to even. */
  function RoundHalfEven(x: real): int {
    var f := x.Floor;
    var d := x - f as real;
    if d < 0.5 then f else if d > 0.5 then f + 1 else if f % 2 == 0 then f else f + 1
  }

  function ShiftMs(skew: real): int {
    RoundHalfEven(1000.0 * skew)
  }

  // ---- the starts in force ----

  /** Starts by their index, a later one replacing an earlier one at the same index. */
  function Table(starts: seq<SegmentStart>): (m: map<nat, SegmentStart>)
    ensures Keyed(m)
  {
    if starts == [] then map[]
    else
      var last := starts[|starts| - 1];
      Table(starts[..|starts| - 1])[last.sampleIndex := last]
  }

  /** The table with a boundary at what each of the first k offloads saw, where the clock was set before the next. */
  function WithClockSets(m: map<nat, SegmentStart>, views: seq<OffloadView>, n: nat, k: nat)
    : (r: map<nat, SegmentStart>)
    requires Keyed(m) && (k < |views| || k == 0)
    ensures Keyed(r)
  {
    if k == 0 then m
    else
      var r := WithClockSets(m, views, n, k - 1);
      var at := views[k - 1].samplesSeen;
      if views[k].clockSetBefore && 0 < at <= n && at !in r then r[at := SegmentStart(at, None)] else r
  }

  function Pairs(views: seq<OffloadView>): nat {
    if |views| == 0 then 0 else |views| - 1
  }

  function StartsInForce(n: nat, starts: seq<SegmentStart>, views: seq<OffloadView>): (r: seq<SegmentStart>)
    ensures Ordered(r, n)
  {
    InOrder(WithClockSets(Table(starts), views, n, Pairs(views)), n)
  }

  function MakeRecord(time: seq<int>, flags: seq<TimeFlag>, starts: seq<SegmentStart>,
                      views: seq<OffloadView>): (r: Record)
    requires |flags| == |time|
    ensures r.Valid()
  {
    Record(time, flags, StartsInForce(|time|, starts, views), views)
  }

  /** The segment an offload's skew belongs to: it has seen that segment's start and none after it. */
  function Current(v: OffloadView, starts: seq<SegmentStart>): (j: nat)
    ensures j <= |starts|
    ensures j > 0 ==> v.Saw(starts[j - 1])
    ensures forall i :: j <= i < |starts| ==> !v.Saw(starts[i])
  {
    if starts == [] then 0
    else if v.Saw(starts[|starts| - 1]) then |starts|
    else Current(v, starts[..|starts| - 1])
  }

  predicate IsCurrent(c: Record, current: seq<nat>) {
    |current| == |c.views| && forall k :: 0 <= k < |current| ==> current[k] == Current(c.views[k], c.starts)
  }

  // ---- one segment ----

  function ResetMask(flags: seq<TimeFlag>): (m: seq<bool>)
    ensures |m| == |flags| && forall i :: 0 <= i < |m| ==> m[i] == flags[i].resetClock
  {
    seq(|flags|, i requires 0 <= i < |flags| => flags[i].resetClock)
  }

  /** The reset-clock samples of segment s. */
  function Fix(c: Record, s: nat): (idx: seq<nat>)
    requires c.Valid() && s <= |c.starts|
    ensures forall k :: 0 <= k < |idx| ==> c.Low(s) <= idx[k] < c.High(s) && c.Reset(idx[k])
  {
    Positions(ResetMask(c.flags), c.Low(s), c.High(s))
  }

  function InFix(c: Record, s: nat, i: nat): bool
    requires c.Valid() && s <= |c.starts| && i < |c.time|
  {
    c.Low(s) <= i < c.High(s) && c.Reset(i)
  }

  /** The last of idx that is below `seen`. */
  function LastBelow(idx: seq<nat>, seen: nat): (r: Option<nat>)
    ensures r.Some? ==> r.value in idx && r.value < seen
    ensures r.None? ==> forall k :: 0 <= k < |idx| ==> idx[k] >= seen
  {
    if idx == [] then None
    else if idx[|idx| - 1] < seen then Some(idx[|idx| - 1])
    else LastBelow(idx[..|idx| - 1], seen)
  }

  /** Can offload view v time the reset-clock samples idx, given what is kept so far? The first must land after the
      last sample kept before the run and not before 2001, and the last that offload saw must land no later than the
      offload itself, with 5 s of slack. */
  predicate Consistent(time: seq<int>, t: seq<int>, keep: seq<bool>, idx: seq<nat>, v: OffloadView)
    requires |t| == |keep| == |time| && idx != [] && forall k :: 0 <= k < |idx| ==> idx[k] < |time|
  {
    && v.skew.Seconds?
    && var shift := ShiftMs(v.skew.s);
       && (match LastBelow(idx, v.samplesSeen)
           case Some(i) => time[i] - shift <= v.unixMs + SEEN_SLACK_MS
           case None => true)
       && (match LastSet(keep, idx[0])
           case Some(p) => time[idx[0]] - shift > t[p]
           case None => true)
       && time[idx[0]] - shift >= RESET_CLOCK_BEFORE_MS
  }

  /** Offload k can time segment s: its skew belongs to s, and passes the checks. */
  predicate Admissible(c: Record, t: seq<int>, keep: seq<bool>, s: nat, k: nat)
    requires c.Valid() && s <= |c.starts| && Fix(c, s) != [] && |t| == |keep| == |c.time| && k < |c.views|
  {
    Current(c.views[k], c.starts) == s && Consistent(c.time, t, keep, Fix(c, s), c.views[k])
  }

  function Candidates(c: Record, t: seq<int>, keep: seq<bool>, s: nat): (mask: seq<bool>)
    requires c.Valid() && s <= |c.starts| && Fix(c, s) != [] && |t| == |keep| == |c.time|
    ensures |mask| == |c.views| && forall k :: 0 <= k < |mask| ==> mask[k] == Admissible(c, t, keep, s, k)
  {
    seq(|c.views|, k requires 0 <= k < |c.views| => Admissible(c, t, keep, s, k))
  }

  /** The latest admissible offload. */
  function Choose(c: Record, t: seq<int>, keep: seq<bool>, s: nat): (r: Option<nat>)
    requires c.Valid() && s <= |c.starts| && Fix(c, s) != [] && |t| == |keep| == |c.time|
    ensures r.Some? ==> r.value < |c.views| && Admissible(c, t, keep, s, r.value)
  {
    LastSet(Candidates(c, t, keep, s), |c.views|)
  }

  function Shifted(c: Record, s: nat, t: seq<int>, shift: int): (r: seq<int>)
    requires c.Valid() && s <= |c.starts| && |t| == |c.time|
    ensures |r| == |t| && forall i :: 0 <= i < |r| ==> r[i] == if InFix(c, s, i) then t[i] - shift else t[i]
  {
    seq(|t|, i requires 0 <= i < |t| => if InFix(c, s, i) then t[i] - shift else t[i])
  }

  function Marked(c: Record, s: nat, tf: seq<TimeFlag>): (r: seq<TimeFlag>)
    requires c.Valid() && s <= |c.starts| && |tf| == |c.time|
    ensures |r| == |tf| && forall i :: 0 <= i < |r| ==>
              r[i] == if InFix(c, s, i) then tf[i].(skewCorrected := true) else tf[i]
  {
    seq(|tf|, i requires 0 <= i < |tf| => if InFix(c, s, i) then tf[i].(skewCorrected := true) else tf[i])
  }

  function Without(c: Record, s: nat, keep: seq<bool>): (r: seq<bool>)
    requires c.Valid() && s <= |c.starts| && |keep| == |c.time|
    ensures |r| == |keep| && forall i :: 0 <= i < |r| ==> r[i] == (keep[i] && !InFix(c, s, i))
  {
    seq(|keep|, i requires 0 <= i < |keep| => keep[i] && !InFix(c, s, i))
  }

  /** What resolving segment s does to the state. */
  function Step(c: Record, s: nat, st: State): (r: State)
    requires c.Valid() && s <= |c.starts| && |st.t| == |st.tf| == |st.keep| == |c.time|
    ensures |r.t| == |r.tf| == |r.keep| == |c.time|
  {
    var idx := Fix(c, s);
    if idx == [] then st
    else
      match Choose(c, st.t, st.keep, s)
      case Some(k) =>
        var skew := c.views[k].skew.s;
        State(Shifted(c, s, st.t, ShiftMs(skew)), Marked(c, s, st.tf), st.keep,
              st.corrections + [TimeCorrection(idx[0], idx[|idx| - 1] + 1, k, skew)], st.dropped)
      case None =>
        State(st.t, st.tf, Without(c, s, st.keep), st.corrections, st.dropped + |idx|)
  }

  /** The state after the first s segments. */
  function Run(c: Record, s: nat): (st: State)
    requires c.Valid() && s <= |c.starts| + 1
    ensures |st.t| == |st.tf| == |st.keep| == |c.time|
  {
    if s == 0 then State(c.time, c.flags, seq(|c.time|, _ => true), [], 0)
    else Step(c, s - 1, Run(c, s - 1))
  }

  function Resolve(c: Record): (st: State)
    requires c.Valid()
    ensures |st.t| == |st.tf| == |st.keep| == |c.time|
  {
    Run(c, |c.starts| + 1)
  }

  /** The times of the kept samples, in order. */
  function KeptTimes(t: seq<int>, keep: seq<bool>): seq<int>
    requires |t| == |keep|
  {
    var p := Positions(keep, 0, |keep|);
    seq(|p|, k requires 0 <= k < |p| => t[p[k]])
  }

  predicate StrictlyIncreasing(s: seq<int>) {
    forall i, j :: 0 <= i < j < |s| ==> s[i] < s[j]
  }

  // ---- the loop ----

  /** What segment s has not touched yet: everything from its first sample on. */
  ghost predicate Untouched(c: Record, lo: nat, st: State)
    requires c.Valid() && lo <= |c.time| && |st.t| == |st.tf| == |st.keep| == |c.time|
  {
    forall i :: lo <= i < |c.time| ==> st.t[i] == c.time[i] && st.tf[i] == c.flags[i] && st.keep[i]
  }

  /** Resolving segment s changes its reset-clock samples only. */
  lemma StepTouches(c: Record, s: nat, st: State, i: nat)
    requires c.Valid() && s <= |c.starts| && |st.t| == |st.tf| == |st.keep| == |c.time|
    requires i < |c.time| && !InFix(c, s, i)
    ensures Step(c, s, st).t[i] == st.t[i] && Step(c, s, st).tf[i] == st.tf[i] && Step(c, s, st).keep[i] == st.keep[i]
  {
  }

  lemma {:induction false} RunUntouchedAt(c: Record, s: nat, i: nat)
    requires c.Valid() && s <= |c.starts| && c.Low(s) <= i < |c.time|
    ensures Run(c, s).t[i] == c.time[i] && Run(c, s).tf[i] == c.flags[i] && Run(c, s).keep[i]
  {
    hide Step;
    if s > 0 {
      assert c.Low(s - 1) <= c.Low(s) == c.High(s - 1);
      RunUntouchedAt(c, s - 1, i);
      StepTouches(c, s - 1, Run(c, s - 1), i);
    }
  }

  lemma RunUntouched(c: Record, s: nat)
    requires c.Valid() && s <= |c.starts|
    ensures Untouched(c, c.Low(s), Run(c, s))
  {
    forall i | c.Low(s) <= i < |c.time|
      ensures Run(c, s).t[i] == c.time[i] && Run(c, s).tf[i] == c.flags[i] && Run(c, s).keep[i]
    {
      RunUntouchedAt(c, s, i);
    }
  }

  /** Would view v's skew put the reset-clock samples idx at consistent times? `lastKept` is the last sample kept
      before them. */
  method CheckOffload(time: seq<int>, t: seq<int>, keep: seq<bool>, idx: seq<nat>, lastKept: Option<nat>,
                      v: OffloadView)
    returns (ok: bool)
    requires |t| == |keep| == |time| && idx != [] && forall k :: 0 <= k < |idx| ==> idx[k] < |time|
    requires forall k :: 0 <= k < |idx| ==> t[idx[k]] == time[idx[k]]
    requires lastKept == LastSet(keep, idx[0])
    ensures ok == Consistent(time, t, keep, idx, v)
  {
    hide LastSet, LastBelow;
    if !v.skew.Seconds? {
      return false;
    }
    var shift := ShiftMs(v.skew.s);
    var first := t[idx[0]] - shift;
    var prevOk := lastKept.None? || first > t[lastKept.value];
    var seen := LastBelow(idx, v.samplesSeen);
    var seenOk := seen.None? || t[seen.value] - shift <= v.unixMs + SEEN_SLACK_MS;
    ok := seenOk && prevOk && first >= RESET_CLOCK_BEFORE_MS;
  }

  /** Is offload k's current segment s, and does its skew time the segment's samples idx consistently? */
  method TryOffload(c: Record, current: seq<nat>, idx: seq<nat>, lastKept: Option<nat>, t: seq<int>, keep: seq<bool>,
                    s: nat, k: nat)
    returns (ok: bool)
    requires c.Valid() && s <= |c.starts| && |t| == |keep| == |c.time| && k < |c.views|
    requires IsCurrent(c, current) && idx == Fix(c, s) && idx != [] && lastKept == LastSet(keep, idx[0])
    requires forall k :: 0 <= k < |idx| ==> t[idx[k]] == c.time[idx[k]]
    ensures ok == Admissible(c, t, keep, s, k)
  {
    hide Fix, Current, Consistent, LastSet;
    ok := false;
    if current[k] == s {
      ok := CheckOffload(c.time, t, keep, idx, lastKept, c.views[k]);
    }
  }

  /** The candidates of segment s, latest offload first: the first whose correction is consistent. */
  method FindOffload(c: Record, current: seq<nat>, idx: seq<nat>, t: seq<int>, keep: seq<bool>, s: nat)
    returns (r: Option<nat>)
    requires c.Valid() && s <= |c.starts| && |t| == |keep| == |c.time|
    requires IsCurrent(c, current) && idx == Fix(c, s) && idx != []
    requires forall k :: 0 <= k < |idx| ==> t[idx[k]] == c.time[idx[k]]
    ensures r == Choose(c, t, keep, s)
  {
    hide Fix, IsCurrent, Admissible;
    var lastKept := LastSet(keep, idx[0]);
    ghost var mask := Candidates(c, t, keep, s);
    r := None;
    var k := |c.views|;
    while k > 0
      invariant 0 <= k <= |c.views| == |mask|
      invariant LastSet(mask, |c.views|) == LastSet(mask, k)
    {
      k := k - 1;
      var ok := TryOffload(c, current, idx, lastKept, t, keep, s, k);
      assert ok == mask[k];
      if ok {
        return Some(k);
      }
    }
  }

  method Retime(c: Record, s: nat, t: array<int>, tf: array<TimeFlag>, shift: int)
    requires c.Valid() && s <= |c.starts| && t.Length == tf.Length == |c.time|
    modifies t, tf
    ensures t[..] == Shifted(c, s, old(t[..]), shift)
    ensures tf[..] == Marked(c, s, old(tf[..]))
  {
    forall i | 0 <= i < t.Length && InFix(c, s, i) {
      t[i] := t[i] - shift;
    }
    forall i | 0 <= i < tf.Length && InFix(c, s, i) {
      tf[i] := tf[i].(skewCorrected := true);
    }
  }

  method Drop(c: Record, s: nat, keep: array<bool>)
    requires c.Valid() && s <= |c.starts| && keep.Length == |c.time|
    modifies keep
    ensures keep[..] == Without(c, s, old(keep[..]))
  {
    forall i | 0 <= i < keep.Length && InFix(c, s, i) {
      keep[i] := false;
    }
  }

  /** Resolve segment s in place; `applied` and `omitted` are the corrections and dropped samples so far. */
  method ResolveSegment(c: Record, s: nat, current: seq<nat>, t: array<int>, tf: array<TimeFlag>, keep: array<bool>,
                        applied: seq<TimeCorrection>, omitted: nat)
    returns (corrections: seq<TimeCorrection>, dropped: nat)
    requires c.Valid() && s <= |c.starts| && t.Length == tf.Length == keep.Length == |c.time|
    requires IsCurrent(c, current)
    requires forall i :: c.Low(s) <= i < |c.time| ==> t[i] == c.time[i]
    modifies t, tf, keep
    ensures State(t[..], tf[..], keep[..], corrections, dropped) ==
            Step(c, s, State(old(t[..]), old(tf[..]), old(keep[..]), applied, omitted))
  {
    hide Current, Choose;
    corrections, dropped := applied, omitted;
    var idx := Fix(c, s);
    if idx != [] {
      var found := FindOffload(c, current, idx, t[..], keep[..], s);
      match found {
        case Some(k) =>
          var skew := c.views[k].skew.s;
          Retime(c, s, t, tf, ShiftMs(skew));
          corrections := applied + [TimeCorrection(idx[0], idx[|idx| - 1] + 1, k, skew)];
        case None =>
          Drop(c, s, keep);
          dropped := omitted + |idx|;
      }
    }
  }

  method ResolveSegments(c: Record) returns (st: State)
    requires c.Valid()
    ensures st == Resolve(c)
  {
    hide Step;
    var n := |c.time|;
    var t := new int[n](i requires 0 <= i < n => c.time[i]);
    var tf := new TimeFlag[n](i requires 0 <= i < n && n == |c.flags| => c.flags[i]);
    var keep := new bool[n](_ => true);
    var current := seq(|c.views|, k requires 0 <= k < |c.views| => Current(c.views[k], c.starts));
    var corrections, dropped := [], 0;
    assert t[..] == c.time && tf[..] == c.flags && keep[..] == seq(n, _ => true);
    for s := 0 to |c.starts| + 1
      invariant State(t[..], tf[..], keep[..], corrections, dropped) == Run(c, s)
    {
      RunUntouched(c, s);
      assert forall i :: 0 <= i < n ==> t[..][i] == t[i];
      corrections, dropped := ResolveSegment(c, s, current, t, tf, keep, corrections, dropped);
    }
    st := State(t[..], tf[..], keep[..], corrections, dropped);
  }

  /** A resolved state is published exactly when its kept times increase; otherwise the first bad step is named. */
  ghost predicate IsChecked(st: State, r: Outcome)
    requires |st.t| == |st.keep|
  {
    var tk := KeptTimes(st.t, st.keep);
    match r
    case Resolved(out) => out == st && StrictlyIncreasing(tk)
    case NotIncreasing(i) => i + 1 < |tk| && tk[i] >= tk[i + 1] && StrictlyIncreasing(tk[..i + 1])
  }

  /** Refuse to publish duplicate or reversed times: report the first step that does not increase. */
  method CheckIncreasing(st: State) returns (r: Outcome)
    requires |st.t| == |st.keep|
    ensures IsChecked(st, r)
  {
    var tk := KeptTimes(st.t, st.keep);
    var i := 0;
    while i + 1 < |tk|
      invariant 0 <= i
      invariant i < |tk| ==> StrictlyIncreasing(tk[..i + 1])
      invariant i >= |tk| ==> tk == []
    {
      if tk[i] >= tk[i + 1] {
        return NotIncreasing(i);
      }
      i := i + 1;
    }
    assert tk != [] ==> tk[..i + 1] == tk;
    r := Resolved(st);
  }
}
