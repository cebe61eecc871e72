/** How far a logger's clock is from the host's: its ticks bracketed by polls, and what that says of UTC. Times are
    seconds; the logger decides what is read. */
module ClockSkew {
  import opened Basics
  import Sorting
  import opened ClockSegments
  import opened HostClock
  import opened OffloadViews

  // ---- the logger's clock ----

  /** One poll of the logger's clock: host times around it, and the whole seconds it reported. */
  datatype Poll = Poll(sent: real, received: real, reported: int)

  /** A tick found between two polls: the skew at the middle of its bracket, and half the bracket's width. */
  datatype Sample = Sample(skew: real, half: real)

  datatype Measured = Measured(n: nat, polls: nat, skew: real, uncertainty: real, spread: real)

  function Floor(x: real): int {
    x.Floor
  }

  ghost predicate ReadAt(p: Poll, skew: real, at: real) {
    p.sent <= at <= p.received && p.reported == Floor(at + skew)
  }

  /** The logger read its clock, `skew` ahead of the host's, at some time during the poll. */
  ghost predicate TruePoll(p: Poll, skew: real) {
    exists at: real :: ReadAt(p, skew, at)
  }

  /** The sample a new poll completes, if the logger's second went up by one since the one before. */
  function TickBetween(prev: Option<Poll>, p: Poll): (r: Option<Sample>) {
    if prev.Some? && p.reported == prev.value.reported + 1
    then Some(Sample(p.reported as real - (prev.value.sent + p.received) / 2.0, (p.received - prev.value.sent) / 2.0))
    else None
  }

  /** Samples of the first n polls, and the poll the next one is compared with; after a tick it starts over. */
  function Collected(polls: seq<Poll>, n: nat): (seq<Sample>, Option<Poll>)
    requires n <= |polls|
  {
    if n == 0 then ([], None)
    else
      var (samples, prev) := Collected(polls, n - 1);
      var tick := TickBetween(prev, polls[n - 1]);
      if tick.Some? then (samples + [tick.value], None) else (samples, Some(polls[n - 1]))
  }

  /** The half bracket bounds how far a sample is from the logger's true skew. */
  lemma TickBracketed(prev: Poll, p: Poll, skew: real)
    requires TruePoll(prev, skew) && TruePoll(p, skew) && p.reported == prev.reported + 1
    ensures var s := TickBetween(Some(prev), p).value; Abs(s.skew - skew) <= s.half
  {
    var a :| ReadAt(prev, skew, a);
    var b :| ReadAt(p, skew, b);
    var tick := p.reported as real - skew;
    assert prev.sent <= a < tick <= b <= p.received;
  }

  /** And it can be that far, where the polls are less than a second apart. */
  lemma BracketIsTight(prev: Poll, p: Poll)
    requires prev.sent <= prev.received && prev.sent < p.received <= prev.sent + 1.0 && p.sent <= p.received
    requires p.reported == prev.reported + 1
    ensures var skew := p.reported as real - p.received;
            && TruePoll(prev, skew) && TruePoll(p, skew)
            && Abs(TickBetween(Some(prev), p).value.skew - skew) == TickBetween(Some(prev), p).value.half
  {
    var skew := p.reported as real - p.received;
    assert ReadAt(prev, skew, prev.sent);
    assert ReadAt(p, skew, p.received);
  }

  /** The poll a new one is compared with is the one before it, unless that one already completed a tick. */
  lemma ComparedWithLast(polls: seq<Poll>, n: nat)
    requires 0 < n <= |polls|
    ensures Collected(polls, n).1 == None || Collected(polls, n).1 == Some(polls[n - 1])
    ensures Collected(polls, n).1 == None <==> |Collected(polls, n).0| == |Collected(polls, n - 1).0| + 1
  {
  }

  /** No tick is overlooked: where the logger's second went up between two polls, one of them completed a sample. */
  lemma EveryTickCounts(polls: seq<Poll>, n: nat)
    requires 0 < n < |polls| && polls[n].reported == polls[n - 1].reported + 1
    ensures |Collected(polls, n + 1).0| > |Collected(polls, n - 1).0|
  {
    ComparedWithLast(polls, n);
    ComparedWithLast(polls, n + 1);
  }

  /** And no poll is used for two samples. */
  lemma {:induction false} PollsUsedOnce(polls: seq<Poll>, n: nat)
    requires n <= |polls|
    ensures 2 * |Collected(polls, n).0| + (if Collected(polls, n).1.Some? then 1 else 0) <= n
  {
    if n > 0 {
      PollsUsedOnce(polls, n - 1);
    }
  }

  /** Every sample's own bracket bounds its error. */
  ghost predicate Bracketed(samples: seq<Sample>, skew: real) {
    forall i :: 0 <= i < |samples| ==> Abs(samples[i].skew - skew) <= samples[i].half
  }

  lemma {:induction false} CollectedBracketed(polls: seq<Poll>, n: nat, skew: real)
    requires n <= |polls| && forall i :: 0 <= i < n ==> TruePoll(polls[i], skew)
    ensures Bracketed(Collected(polls, n).0, skew)
    ensures Collected(polls, n).1.Some? ==> TruePoll(Collected(polls, n).1.value, skew)
  {
    if n > 0 {
      CollectedBracketed(polls, n - 1, skew);
      var prev := Collected(polls, n - 1).1;
      hide Collected;
      if TickBetween(prev, polls[n - 1]).Some? {
        TickBracketed(prev.value, polls[n - 1], skew);
      }
    }
  }

  // ---- the middle of the samples ----

  ghost predicate Ascending(s: seq<real>) {
    forall i, j :: 0 <= i < j < |s| ==> s[i] <= s[j]
  }

  predicate AtMost(x: real, y: real) {
    x <= y
  }

  function Skews(samples: seq<Sample>): (r: seq<real>)
    ensures |r| == |samples|
  {
    seq(|samples|, i requires 0 <= i < |samples| => samples[i].skew)
  }

  function SortedSkews(skews: seq<real>): (r: seq<real>)
    ensures |r| == |skews| && multiset(r) == multiset(skews)
    ensures Ascending(r)
  {
    Sorting.SortedInOrder(skews, AtMost);
    Sorting.SortedKeeps(skews, AtMost);
    assert Sorting.InOrder(Sorting.Sorted(skews, AtMost), AtMost);
    Sorting.Sorted(skews, AtMost)
  }

  /** The middle one in order, or the mean of the middle two. */
  function Median(samples: seq<Sample>): real
    requires samples != []
  {
    var s, n := SortedSkews(Skews(samples)), |samples|;
    if n % 2 == 1 then s[n / 2] else (s[n / 2 - 1] + s[n / 2]) / 2.0
  }

  /** The samples' skews put in order, in whatever way, have the median in the middle. */
  lemma MedianIsMiddle(samples: seq<Sample>, s: seq<real>)
    requires samples != [] && Ascending(s) && multiset(s) == multiset(Skews(samples))
    ensures |s| == |samples|
    ensures Median(samples) == (s[(|s| - 1) / 2] + s[|s| / 2]) / 2.0
  {
    var r := SortedSkews(Skews(samples));
    assert |s| == |multiset(s)| == |multiset(r)| == |r|;
    Sorting.OneOrder(s, r, AtMost);
  }

  /** The median is as near the true skew as the worst bracket. */
  lemma MedianBounded(samples: seq<Sample>, skew: real, worst: real)
    requires samples != [] && Bracketed(samples, skew)
    requires forall i :: 0 <= i < |samples| ==> samples[i].half <= worst
    ensures Abs(Median(samples) - skew) <= worst
  {
    var s, n := SortedSkews(Skews(samples)), |samples|;
    forall k | 0 <= k < n
      ensures Abs(s[k] - skew) <= worst
    {
      assert s[k] in multiset(s);
      assert s[k] in Skews(samples);
      var i :| 0 <= i < n && Skews(samples)[i] == s[k];
    }
  }

  /** How far apart the samples are: the largest skew less the smallest. */
  ghost predicate Spans(samples: seq<Sample>, spread: real) {
    exists a, b :: IsSpread(samples, a, b, spread)
  }

  ghost predicate IsSpread(samples: seq<Sample>, a: nat, b: nat, spread: real) {
    && a < |samples| && b < |samples| && spread == samples[b].skew - samples[a].skew
    && forall i :: 0 <= i < |samples| ==> samples[a].skew <= samples[i].skew <= samples[b].skew
  }

  /** Poll until enough ticks have been found or time is up. */
  method MeasureClockSkew(polls: seq<Poll>, reps: nat) returns (r: Measured)
    ensures r.polls <= |polls| && r.n == |Collected(polls, r.polls).0| <= reps
    ensures r.n == reps || r.polls == |polls|
    ensures r.n > 0 ==> var samples := Collected(polls, r.polls).0;
                        && r.skew == Median(samples)
                        && (forall i :: 0 <= i < |samples| ==> samples[i].half <= r.uncertainty)
                        && (exists i :: 0 <= i < |samples| && samples[i].half == r.uncertainty)
                        && Spans(samples, r.spread)
  {
    hide SortedSkews, Median;
    var samples: seq<Sample>, prev: Option<Poll>, k := [], None, 0;
    while |samples| < reps && k < |polls|
      invariant k <= |polls| && |samples| <= reps
      invariant (samples, prev) == Collected(polls, k)
    {
      var tick := TickBetween(prev, polls[k]);
      if tick.Some? {
        samples := samples + [tick.value];
        prev := None;
      } else {
        prev := Some(polls[k]);
      }
      k := k + 1;
    }
    if samples == [] {
      return Measured(0, k, 0.0, 0.0, 0.0);
    }
    var worst := samples[0].half;
    for i := 1 to |samples|
      invariant forall j :: 0 <= j < i ==> samples[j].half <= worst
      invariant exists j :: 0 <= j < i && samples[j].half == worst
    {
      if worst < samples[i].half {
        worst := samples[i].half;
      }
    }
    var least, most := 0, 0;
    for i := 1 to |samples|
      invariant least < |samples| && most < |samples|
      invariant forall j :: 0 <= j < i ==> samples[least].skew <= samples[j].skew <= samples[most].skew
    {
      if samples[i].skew < samples[least].skew {
        least := i;
      }
      if samples[most].skew < samples[i].skew {
        most := i;
      }
    }
    r := Measured(|samples|, k, Median(samples), worst, samples[most].skew - samples[least].skew);
    assert IsSpread(samples, least, most, r.spread);
  }

  // ---- the skew in the record ----

  /** An offload record that holds what the two measurements gave. */
  predicate Holds(record: OffloadRecord, m: Measured, best: Reply) {
    && record.skew == Seconds(m.skew) && record.skewUncertainty == m.uncertainty
    && record.ntpOffset == Some(best.Offset()) && record.ntpUncertainty == best.Uncertainty()
  }

  /** The skew in the record is as near the logger's true distance from UTC as the record says. */
  lemma SkewBounded(record: OffloadRecord, polls: seq<Poll>, m: Measured, best: Reply, skew: real, utc: real)
    requires m.n > 0 && m.polls <= |polls| && m.n == |Collected(polls, m.polls).0|
    requires forall i :: 0 <= i < |polls| ==> TruePoll(polls[i], skew)
    requires var samples := Collected(polls, m.polls).0;
             m.skew == Median(samples) && forall i :: 0 <= i < |samples| ==> samples[i].half <= m.uncertainty
    requires TrueReply(best, utc) && Holds(record, m, best)
    ensures SkewVsUtc(record).Seconds?
    ensures Abs(SkewVsUtc(record).s - (skew - utc)) <= Uncertainty(record)
  {
    hide Collected, Median, SortedSkews, TruePoll, TrueReply;
    CollectedBracketed(polls, m.polls, skew);
    MedianBounded(Collected(polls, m.polls).0, skew, m.uncertainty);
    OffsetBounded(best, utc);
  }

  /** A true change of the clock beyond the drift allowance and both measurements' errors twice over is always taken for
      a clock set, and one within the allowance never is. */
  lemma JumpsAreTrue(a: OffloadRecord, b: OffloadRecord, trueA: real, trueB: real, allowed: real)
    requires a.skew.Seconds? && b.skew.Seconds? && a.ntpOffset.Some? == b.ntpOffset.Some?
    requires Abs(SkewVsUtc(a).s - trueA) <= Uncertainty(a) && Abs(SkewVsUtc(b).s - trueB) <= Uncertainty(b)
    requires var elapsed := (b.finishedMs - a.finishedMs) as real / 1000.0;
             allowed == SKEW_JUMP_S + SKEW_DRIFT_PPM * 0.000001 * (if elapsed < 0.0 then 0.0 else elapsed)
    ensures Abs(trueB - trueA) <= allowed ==> !SkewJumped(a, b)
    ensures Abs(trueB - trueA) > allowed + 2.0 * (Uncertainty(a) + Uncertainty(b)) ==> SkewJumped(a, b)
  {
  }
}
