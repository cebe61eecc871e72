/** Growing a record leaves the published past alone: always what lies before the last old offload's clock segment, and
    all of it once a new segment begins at or past the old end and every new offload has seen that. */
module AppendStability {
  import opened Basics
  import opened ClockSegments
  import opened TimeResolution
  import opened ResolutionLaws

  /** c' extends c: old samples, flags and views are a prefix, and the first p starts, those before the old end,
      agree. */
  ghost predicate Extends(c: Record, c': Record, p: nat)
    requires c.Valid() && c'.Valid()
  {
    && c.time <= c'.time && c.flags <= c'.flags && c.views <= c'.views
    && p <= |c.starts| && p < |c'.starts| && c.starts[..p] == c'.starts[..p]
    && (forall a :: p <= a < |c.starts| ==> c.starts[a].sampleIndex == |c.time|)
    && (forall a :: p <= a < |c'.starts| ==> c'.starts[a].sampleIndex >= |c.time|)
  }

  /** Old offloads saw no more than the old samples, unless segment p has not grown; they keep their clock segment; and
      new ones are on one past p. */
  ghost predicate ViewsSettled(c: Record, c': Record, p: nat)
    requires c.Valid() && c'.Valid() && Extends(c, c', p)
  {
    && (c'.High(p) == |c.time| || forall k :: 0 <= k < |c.views| ==> c.views[k].samplesSeen <= |c.time|)
    && (forall k :: 0 <= k < |c.views| ==>
          || Current(c.views[k], c.starts) == Current(c.views[k], c'.starts)
          || (Current(c.views[k], c.starts) > p && Current(c.views[k], c'.starts) > p))
    && (forall k :: |c.views| <= k < |c'.views| ==> Current(c'.views[k], c'.starts) > p)
  }

  lemma SameBounds(c: Record, c': Record, p: nat, s: nat)
    requires c.Valid() && c'.Valid() && Extends(c, c', p) && s <= p
    ensures c.Low(s) == c'.Low(s)
    ensures s < p ==> c.High(s) == c'.High(s)
    ensures s == p ==> c.High(s) == |c.time| <= c'.High(s)
  {
    if s > 0 {
      assert c.starts[..p][s - 1] == c'.starts[..p][s - 1];
    }
    if s < p {
      assert c.starts[..p][s] == c'.starts[..p][s];
    }
  }

  lemma LaterSegmentsEmpty(c: Record, c': Record, p: nat, s: nat)
    requires c.Valid() && c'.Valid() && Extends(c, c', p) && p < s <= |c.starts|
    ensures c.Low(s) == c.High(s) == |c.time|
  {
  }

  /** The old reset-clock samples of a segment come first among the new ones; the rest lie past the old end. */
  lemma FixExtends(c: Record, c': Record, p: nat, s: nat)
    requires c.Valid() && c'.Valid() && Extends(c, c', p) && s <= p
    ensures Fix(c, s) <= Fix(c', s)
    ensures forall a :: |Fix(c, s)| <= a < |Fix(c', s)| ==> Fix(c', s)[a] >= |c.time|
    ensures c'.High(p) == |c.time| ==> Fix(c, s) == Fix(c', s)
  {
    hide Positions;
    var m, m' := ResetMask(c.flags), ResetMask(c'.flags);
    SameBounds(c, c', p, s);
    PositionsAgree(m, m', c.Low(s), c.High(s));
    if s == p {
      PositionsSplit(m', c'.Low(s), |c.time|, c'.High(s));
    }
  }

  lemma {:induction false} LastBelowExtends(idx: seq<nat>, idx': seq<nat>, seen: nat)
    requires idx <= idx' && forall a :: |idx| <= a < |idx'| ==> idx'[a] >= seen
    ensures LastBelow(idx, seen) == LastBelow(idx', seen)
    decreases |idx'|
  {
    if |idx| == |idx'| {
      assert idx == idx';
    } else {
      LastBelowExtends(idx, idx'[..|idx'| - 1], seen);
    }
  }

  /** An old offload finds a segment consistent in the grown record exactly when it did in the old one. */
  lemma SameConsistency(c: Record, c': Record, p: nat, s: nat, t: seq<int>, keep: seq<bool>, t': seq<int>,
                        keep': seq<bool>,
                        v: OffloadView)
    requires c.Valid() && c'.Valid() && Extends(c, c', p) && s <= p && Fix(c, s) != []
    requires |t| == |keep| == |c.time| && |t'| == |keep'| == |c'.time| && t <= t' && keep <= keep'
    requires v.samplesSeen <= |c.time| || c'.High(p) == |c.time|
    ensures Fix(c', s) != []
    ensures Consistent(c.time, t, keep, Fix(c, s), v) == Consistent(c'.time, t', keep', Fix(c', s), v)
  {
    hide Positions, ResetMask, RoundHalfEven, LastSet, LastBelow, Fix;
    FixExtends(c, c', p, s);
    var idx, idx' := Fix(c, s), Fix(c', s);
    if v.samplesSeen <= |c.time| {
      LastBelowExtends(idx, idx', v.samplesSeen);
    }
    LastSetLocal(keep, keep', idx[0]);
  }

  lemma {:induction false} LastSetAppend(a: seq<bool>, b: seq<bool>, m: nat, n: nat)
    requires m <= n && m <= |a| && n <= |b|
    requires forall i :: 0 <= i < m ==> a[i] == b[i]
    requires forall i :: m <= i < n ==> !b[i]
    ensures LastSet(a, m) == LastSet(b, n)
    decreases n
  {
    if m < n {
      LastSetAppend(a, b, m, n - 1);
    } else {
      LastSetLocal(a, b, m);
    }
  }

  lemma SameChoice(c: Record, c': Record, p: nat, s: nat, t: seq<int>, keep: seq<bool>, t': seq<int>, keep': seq<bool>)
    requires c.Valid() && c'.Valid() && Extends(c, c', p) && ViewsSettled(c, c', p) && s <= p && Fix(c, s) != []
    requires |t| == |keep| == |c.time| && |t'| == |keep'| == |c'.time| && t <= t' && keep <= keep'
    ensures Fix(c', s) != []
    ensures Choose(c, t, keep, s) == Choose(c', t', keep', s)
  {
    hide Consistent, Current, Fix, LastSet;
    FixExtends(c, c', p, s);
    var a, b := Candidates(c, t, keep, s), Candidates(c', t', keep', s);
    forall k | 0 <= k < |a|
      ensures a[k] == b[k]
    {
      assert c'.views[k] == c.views[k];
      SameConsistency(c, c', p, s, t, keep, t', keep', c.views[k]);
      assert a[k] == Admissible(c, t, keep, s, k);
      assert b[k] == Admissible(c', t', keep', s, k);
    }
    forall k | |a| <= k < |b|
      ensures !b[k]
    {
      assert b[k] == Admissible(c', t', keep', s, k);
    }
    LastSetAppend(a, b, |a|, |b|);
  }

  /** The grown record's arrays, cut at the old end, are the old record's outcome. */
  lemma OldSamplesUnchanged(c: Record, c': Record, p: nat)
    requires c.Valid() && c'.Valid() && Extends(c, c', p) && ViewsSettled(c, c', p)
    ensures var r, r', n := Resolve(c), Resolve(c'), |c.time|;
            r.t == r'.t[..n] && r.tf == r'.tf[..n] && r.keep == r'.keep[..n]
  {
    hide Resolve, Choose, Fix, Fated, ViewsSettled;
    var n, r' := |c.time|, Resolve(c');
    var t, tf, keep := r'.t[..n], r'.tf[..n], r'.keep[..n];
    ResolveIsOutcome(c');
    forall s, i | 0 <= s <= |c.starts| && c.Low(s) <= i < c.High(s)
      ensures Fated(c, s, FateOf(c, s, t, keep), t, tf, keep, i)
    {
      OneSampleUnchanged(c, c', p, s, i);
    }
    assert IsOutcome(c, t, tf, keep);
    OutcomeUnique(c, t, tf, keep);
  }

  lemma OneSampleUnchanged(c: Record, c': Record, p: nat, s: nat, i: nat)
    requires c.Valid() && c'.Valid() && Extends(c, c', p) && ViewsSettled(c, c', p)
    requires s <= |c.starts| && c.Low(s) <= i < c.High(s)
    ensures var n, r' := |c.time|, Resolve(c');
            var t, tf, keep := r'.t[..n], r'.tf[..n], r'.keep[..n];
            Fated(c, s, FateOf(c, s, t, keep), t, tf, keep, i)
  {
    hide Resolve, Choose, Fix, ViewsSettled;
    var n, r' := |c.time|, Resolve(c');
    LowMonotone(c, s, s);
    if s > p {
      LaterSegmentsEmpty(c, c', p, s);
      assert false;
    }
    SameBounds(c, c', p, s);
    SampleFate(c', s, i);
    assert c.time[i] == c'.time[i] && c.flags[i] == c'.flags[i];
    if Fix(c, s) != [] {
      SameChoice(c, c', p, s, r'.t[..n], r'.keep[..n], r'.t, r'.keep);
      assert forall k :: 0 <= k < |c.views| ==> c.views[k] == c'.views[k];
    } else {
      InFixIsMember(c, s, i);
    }
  }

  // ---- from given starts and views to the records they make ----

  /** The clock was set after what one of the first k offloads saw, namely i samples. */
  ghost predicate ClockSetAt(views: seq<OffloadView>, k: nat, i: nat)
    requires k < |views| || k == 0
  {
    exists j :: 0 <= j < k && views[j].samplesSeen == i && views[j + 1].clockSetBefore
  }

  lemma {:induction false} ClockSetEntries(m: map<nat, SegmentStart>, views: seq<OffloadView>, n: nat, k: nat, i: nat)
    requires Keyed(m) && (k < |views| || k == 0)
    ensures var r := WithClockSets(m, views, n, k);
            && (i in r <==> i in m || (0 < i <= n && ClockSetAt(views, k, i)))
            && (i in r ==> r[i] == if i in m then m[i] else SegmentStart(i, None))
  {
    if k > 0 {
      ClockSetEntries(m, views, n, k - 1, i);
      if ClockSetAt(views, k, i) && !ClockSetAt(views, k - 1, i) {
        assert views[k - 1].samplesSeen == i && views[k].clockSetBefore;
      }
    }
  }

  lemma {:induction false} TableOfOrdered(given: seq<SegmentStart>, n: nat, i: nat)
    requires Ordered(given, n)
    ensures i in Table(given) <==> exists a :: 0 <= a < |given| && given[a].sampleIndex == i
    ensures i in Table(given) ==> Table(given)[i] in given
    ensures forall a :: 0 <= a < |given| && given[a].sampleIndex == i ==> Table(given)[i] == given[a]
  {
    if given != [] {
      var m := |given| - 1;
      TableOfOrdered(given[..m], n, i);
      assert forall a :: 0 <= a < m ==> given[..m][a] == given[a];
    }
  }

  /** Of several given starts at one index the last is in the table. */
  lemma {:induction false} TableHasLast(given: seq<SegmentStart>, a: nat)
    requires a < |given| && forall b :: a < b < |given| ==> given[b].sampleIndex != given[a].sampleIndex
    ensures given[a].sampleIndex in Table(given) && Table(given)[given[a].sampleIndex] == given[a]
  {
    var m := |given| - 1;
    if a < m {
      TableHasLast(given[..m], a);
    }
  }

  lemma {:induction false} InOrderAgree(m: map<nat, SegmentStart>, m': map<nat, SegmentStart>, hi: nat)
    requires Keyed(m) && Keyed(m')
    requires forall i :: 0 < i <= hi ==> (i in m <==> i in m') && (i in m ==> m[i] == m'[i])
    ensures InOrder(m, hi) == InOrder(m', hi)
  {
    if hi > 0 {
      InOrderAgree(m, m', hi - 1);
    }
  }

  lemma {:induction false} InOrderSplit(m: map<nat, SegmentStart>, lo: nat, hi: nat)
    requires Keyed(m) && lo <= hi
    ensures InOrder(m, lo) <= InOrder(m, hi)
    ensures forall a :: |InOrder(m, lo)| <= a < |InOrder(m, hi)| ==> InOrder(m, hi)[a].sampleIndex > lo
    decreases hi
  {
    if lo < hi {
      InOrderSplit(m, lo, hi - 1);
    }
  }

  lemma {:induction false} CurrentOfPrefix(v: OffloadView, starts: seq<SegmentStart>, p: nat)
    requires p <= |starts| && forall a :: p <= a < |starts| ==> !v.Saw(starts[a])
    ensures Current(v, starts) == Current(v, starts[..p])
    decreases |starts|
  {
    if p < |starts| {
      var m := |starts| - 1;
      CurrentOfPrefix(v, starts[..m], p);
      assert starts[..m][..p] == starts[..p];
    } else {
      assert starts[..p] == starts;
    }
  }

  /** How a deployment grows between offloads: new samples, new clock-segment starts at or past the old end that no
      earlier offload had seen, and new offloads that have seen no less. */
  ghost predicate GrowsOn(n: nat, given: seq<SegmentStart>, views: seq<OffloadView>,
                          n': nat, given': seq<SegmentStart>, views': seq<OffloadView>)
  {
    && n <= n' && Ordered(given, n) && Ordered(given', n') && given <= given'
    && (forall a :: |given| <= a < |given'| ==> given'[a].sampleIndex >= n)
    && 0 < |views| && views <= views' && views[|views| - 1].samplesSeen == n
    && (forall a, b :: 0 <= a < b < |views'| ==> views'[a].samplesSeen <= views'[b].samplesSeen)
    && (forall k, a :: 0 <= k < |views| && |given| <= a < |given'| ==> !views[k].Saw(given'[a]))
  }

  /** The logger restarted in between, and every new offload has seen the first new start. */
  ghost predicate Grows(n: nat, given: seq<SegmentStart>, views: seq<OffloadView>,
                        n': nat, given': seq<SegmentStart>, views': seq<OffloadView>)
  {
    && GrowsOn(n, given, views, n', given', views') && |given| < |given'|
    && (forall k :: |views| <= k < |views'| ==> views'[k].Saw(given'[|given|]))
  }

  lemma GrownTables(n: nat, given: seq<SegmentStart>, views: seq<OffloadView>,
                    n': nat, given': seq<SegmentStart>, views': seq<OffloadView>, i: nat)
    requires GrowsOn(n, given, views, n', given', views') && 0 < i < n
    ensures var t := WithClockSets(Table(given), views, n, Pairs(views));
            var t' := WithClockSets(Table(given'), views', n', Pairs(views'));
            (i in t <==> i in t') && (i in t ==> t[i] == t'[i])
  {
    hide Table, WithClockSets, ClockSetAt;
    ClockSetEntries(Table(given), views, n, Pairs(views), i);
    ClockSetEntries(Table(given'), views', n', Pairs(views'), i);
    TableOfOrdered(given, n, i);
    TableOfOrdered(given', n', i);
    SameGivenBelow(n, given, views, n', given', views', i);
    SameClockSets(n, views, views', i);
  }

  lemma SameGivenBelow(n: nat, given: seq<SegmentStart>, views: seq<OffloadView>,
                       n': nat, given': seq<SegmentStart>, views': seq<OffloadView>, i: nat)
    requires GrowsOn(n, given, views, n', given', views') && 0 < i < n
    ensures (exists a :: 0 <= a < |given| && given[a].sampleIndex == i) <==>
            (exists a :: 0 <= a < |given'| && given'[a].sampleIndex == i)
    ensures forall a :: 0 <= a < |given'| && given'[a].sampleIndex == i ==> a < |given| && given[a] == given'[a]
  {
    assert forall a :: 0 <= a < |given| ==> given[a] == given'[a];
    forall a | 0 <= a < |given| && given[a].sampleIndex == i
      ensures given'[a].sampleIndex == i
    {
      assert given'[a] == given[a];
    }
  }

  lemma SameClockSets(n: nat, views: seq<OffloadView>, views': seq<OffloadView>, i: nat)
    requires 0 < i < n && 0 < |views| && views <= views' && views[|views| - 1].samplesSeen == n
    requires forall a, b :: 0 <= a < b < |views'| ==> views'[a].samplesSeen <= views'[b].samplesSeen
    ensures ClockSetAt(views, Pairs(views), i) <==> ClockSetAt(views', Pairs(views'), i)
  {
    if ClockSetAt(views, Pairs(views), i) {
      var j :| 0 <= j < Pairs(views) && views[j].samplesSeen == i && views[j + 1].clockSetBefore;
      assert views'[j] == views[j] && views'[j + 1] == views[j + 1];
    }
    if ClockSetAt(views', Pairs(views'), i) {
      var j :| 0 <= j < Pairs(views') && views'[j].samplesSeen == i && views'[j + 1].clockSetBefore;
      var m := |views| - 1;
      assert views'[m] == views[m];
      forall x | m <= x < |views'|
        ensures views'[x].samplesSeen >= n
      {
        assert x > m ==> views'[m].samplesSeen <= views'[x].samplesSeen;
      }
      assert views'[j] == views[j] && views'[j + 1] == views[j + 1];
    }
  }

  /** The number of starts in force strictly before the old end. */
  function StartsBefore(n: nat, given: seq<SegmentStart>, views: seq<OffloadView>): nat {
    if n == 0 then 0 else |InOrder(WithClockSets(Table(given), views, n, Pairs(views)), n - 1)|
  }

  lemma StartsExtend(n: nat, given: seq<SegmentStart>, views: seq<OffloadView>,
                     n': nat, given': seq<SegmentStart>, views': seq<OffloadView>)
    requires GrowsOn(n, given, views, n', given', views')
    ensures var f, f', p := StartsInForce(n, given, views), StartsInForce(n', given', views'),
            StartsBefore(n, given, views);
            && p <= |f| && p <= |f'| && f[..p] == f'[..p]
            && (forall a :: p <= a < |f| ==> f[a].sampleIndex == n)
            && (forall a :: p <= a < |f'| ==> f'[a].sampleIndex >= n)
  {
    hide Table, WithClockSets, GrowsOn, InOrder;
    var t := WithClockSets(Table(given), views, n, Pairs(views));
    var t' := WithClockSets(Table(given'), views', n', Pairs(views'));
    if n > 0 {
      forall i | 0 < i <= n - 1
        ensures (i in t <==> i in t') && (i in t ==> t[i] == t'[i])
      {
        GrownTables(n, given, views, n', given', views', i);
      }
      assert n <= n' by {
        NoShrink(n, given, views, n', given', views');
      }
      InOrderAgree(t, t', n - 1);
      InOrderSplit(t, n - 1, n);
      InOrderSplit(t', n - 1, n');
    }
  }

  lemma NoShrink(n: nat, given: seq<SegmentStart>, views: seq<OffloadView>,
                 n': nat, given': seq<SegmentStart>, views': seq<OffloadView>)
    requires GrowsOn(n, given, views, n', given', views')
    ensures n <= n'
  {
  }

  /** A start in force is a given one, or a boundary with no event. */
  lemma InForceEntry(n: nat, given: seq<SegmentStart>, views: seq<OffloadView>, a: nat)
    requires Ordered(given, n) && a < |StartsInForce(n, given, views)|
    ensures var x := StartsInForce(n, given, views)[a]; x in given || x == SegmentStart(x.sampleIndex, None)
  {
    hide Table, WithClockSets, ClockSetAt;
    var x := StartsInForce(n, given, views)[a];
    assert x in StartsInForce(n, given, views);
    ClockSetEntries(Table(given), views, n, Pairs(views), x.sampleIndex);
    TableOfOrdered(given, n, x.sampleIndex);
  }

  /** An ordered given start is in force as it is. */
  lemma GivenInForce(n: nat, given: seq<SegmentStart>, views: seq<OffloadView>, a: nat)
    requires Ordered(given, n) && a < |given|
    ensures given[a] in StartsInForce(n, given, views)
  {
    hide Table, WithClockSets, ClockSetAt;
    ClockSetEntries(Table(given), views, n, Pairs(views), given[a].sampleIndex);
    TableOfOrdered(given, n, given[a].sampleIndex);
  }

  /** Among the starts at or past the old end, an old offload has seen none, or sees one in both records. */
  lemma OldViewSettled(n: nat, given: seq<SegmentStart>, views: seq<OffloadView>,
                       n': nat, given': seq<SegmentStart>, views': seq<OffloadView>, k: nat)
    requires GrowsOn(n, given, views, n', given', views') && k < |views|
    ensures var f, f', p := StartsInForce(n, given, views), StartsInForce(n', given', views'),
            StartsBefore(n, given, views);
            var v := views[k];
            Current(v, f) == Current(v, f') || (Current(v, f) > p && Current(v, f') > p)
  {
    hide StartsInForce, StartsBefore, Current;
    var f, f', p := StartsInForce(n, given, views), StartsInForce(n', given', views'), StartsBefore(n, given, views);
    var v := views[k];
    StartsExtend(n, given, views, n', given', views');
    if exists a :: p <= a < |f| && v.Saw(f[a]) {
      var a :| p <= a < |f| && v.Saw(f[a]);
      SeenInOld(n, given, views, n', given', views', k, a);
    } else if exists a :: p <= a < |f'| && v.Saw(f'[a]) {
      var a :| p <= a < |f'| && v.Saw(f'[a]);
      SeenInNew(n, given, views, n', given', views', k, a);
      assert false;
    } else {
      CurrentOfPrefix(v, f, p);
      CurrentOfPrefix(v, f', p);
    }
  }

  lemma OldViewSaw(n: nat, given: seq<SegmentStart>, views: seq<OffloadView>,
                   n': nat, given': seq<SegmentStart>, views': seq<OffloadView>, k: nat)
    requires GrowsOn(n, given, views, n', given', views') && k < |views|
    ensures views[k].samplesSeen <= n
  {
    var m := |views| - 1;
    assert views'[k] == views[k] && views'[m] == views[m];
  }

  lemma SeenInOld(n: nat, given: seq<SegmentStart>, views: seq<OffloadView>,
                  n': nat, given': seq<SegmentStart>, views': seq<OffloadView>, k: nat, a: nat)
    requires GrowsOn(n, given, views, n', given', views') && k < |views|
    requires StartsBefore(n, given, views) <= a < |StartsInForce(n, given, views)|
    requires views[k].Saw(StartsInForce(n, given, views)[a])
    ensures Current(views[k], StartsInForce(n, given, views)) > StartsBefore(n, given, views)
    ensures Current(views[k], StartsInForce(n', given', views')) > StartsBefore(n, given, views)
  {
    hide StartsInForce, StartsBefore, Current;
    var f, f', p := StartsInForce(n, given, views), StartsInForce(n', given', views'), StartsBefore(n, given, views);
    var x := f[a];
    StartsExtend(n, given, views, n', given', views');
    OldViewSaw(n, given, views, n', given', views', k);
    InForceEntry(n, given, views, a);
    assert x.sampleIndex == n;
    assert x in given;
    var g :| 0 <= g < |given| && given[g] == x;
    assert given'[g] == x;
    GivenInForce(n', given', views', g);
    var b :| 0 <= b < |f'| && f'[b] == x;
    OrderedBelow(f, f', p, n, b);
  }

  lemma OrderedBelow(f: seq<SegmentStart>, f': seq<SegmentStart>, p: nat, n: nat, b: nat)
    requires p < |f| && p <= |f'| && f[..p] == f'[..p] && b < |f'|
    requires forall i, j :: 0 <= i < j < |f| ==> f[i].sampleIndex < f[j].sampleIndex
    requires f[p].sampleIndex == n && f'[b].sampleIndex >= n
    ensures b >= p
  {
    SamePrefix(f, f', p);
    assert forall j :: 0 <= j < p ==> f[j].sampleIndex < f[p].sampleIndex;
  }

  lemma SeenInNew(n: nat, given: seq<SegmentStart>, views: seq<OffloadView>,
                  n': nat, given': seq<SegmentStart>, views': seq<OffloadView>, k: nat, a: nat)
    requires GrowsOn(n, given, views, n', given', views') && k < |views|
    requires StartsBefore(n, given, views) <= a < |StartsInForce(n', given', views')|
    requires views[k].Saw(StartsInForce(n', given', views')[a])
    ensures exists b :: StartsBefore(n, given, views) <= b < |StartsInForce(n, given, views)| &&
                        views[k].Saw(StartsInForce(n, given, views)[b])
  {
    hide StartsInForce, StartsBefore, Current;
    var f, f', p := StartsInForce(n, given, views), StartsInForce(n', given', views'), StartsBefore(n, given, views);
    var x := f'[a];
    StartsExtend(n, given, views, n', given', views');
    OldViewSaw(n, given, views, n', given', views', k);
    InForceEntry(n', given', views', a);
    assert x in given';
    var g :| 0 <= g < |given'| && given'[g] == x;
    assert g < |given|;
    assert given[g] == x;
    GivenInForce(n, given, views, g);
    var b :| 0 <= b < |f| && f[b] == x;
    SamePrefix(f, f', p);
  }

  lemma NewViewSettled(n: nat, given: seq<SegmentStart>, views: seq<OffloadView>,
                       n': nat, given': seq<SegmentStart>, views': seq<OffloadView>, k: nat)
    requires Grows(n, given, views, n', given', views') && |views| <= k < |views'|
    ensures Current(views'[k], StartsInForce(n', given', views')) > StartsBefore(n, given, views)
  {
    hide StartsInForce, StartsBefore, Current;
    NewStartInForce(n, given, views, n', given', views');
  }

  /** The first new start is in force, past the starts before the old end. */
  lemma NewStartInForce(n: nat, given: seq<SegmentStart>, views: seq<OffloadView>,
                        n': nat, given': seq<SegmentStart>, views': seq<OffloadView>)
    requires Grows(n, given, views, n', given', views')
    ensures exists b :: StartsBefore(n, given, views) <= b < |StartsInForce(n', given', views')| &&
                        StartsInForce(n', given', views')[b] == given'[|given|]
  {
    hide StartsInForce;
    var f', p := StartsInForce(n', given', views'), StartsBefore(n, given, views);
    var x := given'[|given|];
    StartsExtend(n, given, views, n', given', views');
    GivenInForce(n', given', views', |given|);
    var b :| 0 <= b < |f'| && f'[b] == x;
    SamePrefix(StartsInForce(n, given, views), f', p);
    forall j | 0 <= j < p
      ensures f'[j].sampleIndex < n
    {
      StartsBeforeEnd(n, given, views, j);
    }
  }

  lemma SamePrefix(f: seq<SegmentStart>, f': seq<SegmentStart>, p: nat)
    requires p <= |f| && p <= |f'| && f[..p] == f'[..p]
    ensures forall j :: 0 <= j < p ==> f[j] == f'[j]
  {
    assert forall j :: 0 <= j < p ==> f[..p][j] == f'[..p][j];
  }

  lemma StartsBeforeEnd(n: nat, given: seq<SegmentStart>, views: seq<OffloadView>, b: nat)
    requires b < StartsBefore(n, given, views)
    ensures b < |StartsInForce(n, given, views)| && StartsInForce(n, given, views)[b].sampleIndex < n
  {
    hide Table, WithClockSets;
    InOrderSplit(WithClockSets(Table(given), views, n, Pairs(views)), n - 1, n);
  }

  /** Append stability: after the deployment has grown into a new clock segment, every old sample is published with
      the time, the flag and the keep bit it had before. */
  lemma PublishedPastIsStable(time: seq<int>, flags: seq<TimeFlag>, given: seq<SegmentStart>, views: seq<OffloadView>,
                              time': seq<int>, flags': seq<TimeFlag>, given': seq<SegmentStart>,
                              views': seq<OffloadView>)
    requires |flags| == |time| && |flags'| == |time'| && time <= time' && flags <= flags'
    requires Grows(|time|, given, views, |time'|, given', views')
    ensures var n := |time|;
            var r, r' := Resolve(MakeRecord(time, flags, given, views)),
            Resolve(MakeRecord(time', flags', given', views'));
            r.t == r'.t[..n] && r.tf == r'.tf[..n] && r.keep == r'.keep[..n]
  {
    hide Resolve, StartsInForce, StartsBefore, Grows, GrowsOn, Current;
    var n, n', p := |time|, |time'|, StartsBefore(|time|, given, views);
    var c, c' := MakeRecord(time, flags, given, views), MakeRecord(time', flags', given', views');
    RestartGrowsOn(n, given, views, n', given', views');
    StartsExtend(n, given, views, n', given', views');
    NewStartInForce(n, given, views, n', given', views');
    ViewsPrefix(n, given, views, n', given', views');
    forall k | 0 <= k < |views|
      ensures views[k].samplesSeen <= n
      ensures Current(views[k], c.starts) == Current(views[k], c'.starts) ||
              (Current(views[k], c.starts) > p && Current(views[k], c'.starts) > p)
    {
      OldViewSaw(n, given, views, n', given', views', k);
      OldViewSettled(n, given, views, n', given', views', k);
    }
    forall k | |views| <= k < |views'|
      ensures Current(views'[k], c'.starts) > p
    {
      NewViewSettled(n, given, views, n', given', views', k);
    }
    OldSamplesUnchanged(c, c', p);
  }

  lemma RestartGrowsOn(n: nat, given: seq<SegmentStart>, views: seq<OffloadView>,
                       n': nat, given': seq<SegmentStart>, views': seq<OffloadView>)
    requires Grows(n, given, views, n', given', views')
    ensures GrowsOn(n, given, views, n', given', views')
  {
  }

  lemma ViewsPrefix(n: nat, given: seq<SegmentStart>, views: seq<OffloadView>,
                    n': nat, given': seq<SegmentStart>, views': seq<OffloadView>)
    requires GrowsOn(n, given, views, n', given', views')
    ensures views <= views'
  {
  }

  // ---- the past that nothing can change ----

  /** Segments before the q-th start are the same in both records, no new offload is on one of them, and an old one that
      is stays on it. */
  ghost predicate SettledBefore(c: Record, c': Record, q: nat)
    requires c.Valid() && c'.Valid()
  {
    && c.time <= c'.time && c.flags <= c'.flags && c.views <= c'.views
    && 0 < q <= |c.starts| && q <= |c'.starts| && c.starts[..q] == c'.starts[..q]
    && (forall k :: 0 <= k < |c.views| ==>
          || c.views[k].Saw(c.starts[q - 1])
          || Current(c.views[k], c.starts) == Current(c.views[k], c'.starts) < q)
    && (forall k :: |c.views| <= k < |c'.views| ==> c'.views[k].Saw(c.starts[q - 1]))
  }

  /** A record up to the start of segment q, with the start itself. */
  function UpTo(c: Record, q: nat): (e: Record)
    requires c.Valid() && 0 < q <= |c.starts|
    ensures e.Valid() && |e.time| == c.Low(q)
  {
    Record(c.time[..c.Low(q)], c.flags[..c.Low(q)], c.starts[..q], c.views)
  }

  /** What is published before the start of segment q is what the record up to there gives on its own. */
  lemma UpToUnchanged(c: Record, c': Record, q: nat)
    requires c.Valid() && c'.Valid() && SettledBefore(c, c', q)
    ensures var r, r', n := Resolve(UpTo(c, q)), Resolve(c'), c.Low(q);
            n <= |r'.t| && r.t == r'.t[..n] && r.tf == r'.tf[..n] && r.keep == r'.keep[..n]
  {
    hide Resolve, Current;
    var e := UpTo(c, q);
    assert c'.starts[..q][q - 1] == c.starts[..q][q - 1];
    assert c'.starts[..q - 1] == c'.starts[..q][..q - 1] == e.starts[..q - 1];
    assert Extends(e, c', q - 1);
    forall k | 0 <= k < |e.views|
      ensures Current(e.views[k], e.starts) == Current(e.views[k], c'.starts)
              || (Current(e.views[k], e.starts) > q - 1 && Current(e.views[k], c'.starts) > q - 1)
    {
      if !c.views[k].Saw(c.starts[q - 1]) {
        CurrentOfPrefix(c.views[k], c'.starts, q);
      }
    }
    OldSamplesUnchanged(e, c', q - 1);
  }

  lemma SettledSamplesUnchanged(c: Record, c': Record, q: nat)
    requires c.Valid() && c'.Valid() && SettledBefore(c, c', q)
    ensures var r, r', n := Resolve(c), Resolve(c'), c.Low(q);
            n <= |c.time| && r.t[..n] == r'.t[..n] && r.tf[..n] == r'.tf[..n] && r.keep[..n] == r'.keep[..n]
  {
    hide Resolve, Current;
    UpToUnchanged(c, c', q);
    UpToUnchanged(c, c, q);
  }

  ghost predicate EventsGrow(views: seq<OffloadView>) {
    forall a, b :: 0 <= a < b < |views| ==> views[a].eventsSeen <= views[b].eventsSeen
  }

  /** The start of the last old offload's segment and all before it are in force in both records. */
  lemma SameStartsUpTo(n: nat, given: seq<SegmentStart>, views: seq<OffloadView>,
                       n': nat, given': seq<SegmentStart>, views': seq<OffloadView>, q: nat)
    requires GrowsOn(n, given, views, n', given', views')
    requires q == Current(views[|views| - 1], StartsInForce(n, given, views))
    ensures q <= |StartsInForce(n', given', views')|
    ensures StartsInForce(n, given, views)[..q] == StartsInForce(n', given', views')[..q]
  {
    hide StartsInForce, StartsBefore, Current;
    var f, f', p := StartsInForce(n, given, views), StartsInForce(n', given', views'), StartsBefore(n, given, views);
    StartsExtend(n, given, views, n', given', views');
    SamePrefix(f, f', p);
    if q > p {
      assert f[p].sampleIndex == n && f[q - 1].sampleIndex == n;
      SameStartAtEnd(n, given, views, n', given', views', p);
    }
  }

  lemma SameStartAtEnd(n: nat, given: seq<SegmentStart>, views: seq<OffloadView>,
                       n': nat, given': seq<SegmentStart>, views': seq<OffloadView>, p: nat)
    requires GrowsOn(n, given, views, n', given', views') && p == StartsBefore(n, given, views)
    requires p < |StartsInForce(n, given, views)|
    requires views[|views| - 1].Saw(StartsInForce(n, given, views)[p])
    ensures p < |StartsInForce(n', given', views')|
    ensures StartsInForce(n', given', views')[p] == StartsInForce(n, given, views)[p]
  {
    hide StartsInForce, StartsBefore, Current;
    var f, f' := StartsInForce(n, given, views), StartsInForce(n', given', views');
    var x := f[p];
    StartsExtend(n, given, views, n', given', views');
    InForceEntry(n, given, views, p);
    assert x.sampleIndex == n && x in given;
    var g :| 0 <= g < |given| && given[g] == x;
    assert given'[g] == x;
    GivenInForce(n', given', views', g);
    var b :| 0 <= b < |f'| && f'[b] == x;
    OrderedBelow(f, f', p, n, b);
  }

  lemma SeesMore(v: OffloadView, v': OffloadView, s: SegmentStart)
    requires v.samplesSeen <= v'.samplesSeen && v.eventsSeen <= v'.eventsSeen
    ensures v.Saw(s) ==> v'.Saw(s)
  {
  }

  lemma OldViewStays(n: nat, given: seq<SegmentStart>, views: seq<OffloadView>,
                     n': nat, given': seq<SegmentStart>, views': seq<OffloadView>, k: nat, q: nat)
    requires GrowsOn(n, given, views, n', given', views') && EventsGrow(views') && k < |views|
    requires 0 < q == Current(views[|views| - 1], StartsInForce(n, given, views))
    ensures var f, f' := StartsInForce(n, given, views), StartsInForce(n', given', views');
            views[k].Saw(f[q - 1]) || Current(views[k], f) == Current(views[k], f') < q
  {
    hide StartsInForce, StartsBefore, Current;
    var f, v, last := StartsInForce(n, given, views), views[k], views[|views| - 1];
    assert views'[k] == v && views'[|views| - 1] == last;
    forall a | 0 <= a < |f|
      ensures v.Saw(f[a]) ==> last.Saw(f[a])
    {
      SeesMore(v, last, f[a]);
    }
    if !v.Saw(f[q - 1]) {
      assert Current(v, f) < q;
      OldViewSettled(n, given, views, n', given', views', k);
      StartsExtend(n, given, views, n', given', views');
    }
  }

  /** Whatever later offloads find, no sample before the last old offload's clock segment is published otherwise than it
      was. */
  lemma SettledPastIsStable(time: seq<int>, flags: seq<TimeFlag>, given: seq<SegmentStart>, views: seq<OffloadView>,
                            time': seq<int>, flags': seq<TimeFlag>, given': seq<SegmentStart>, views': seq<OffloadView>)
    requires |flags| == |time| && |flags'| == |time'| && time <= time' && flags <= flags'
    requires GrowsOn(|time|, given, views, |time'|, given', views') && EventsGrow(views')
    ensures var c, c' := MakeRecord(time, flags, given, views), MakeRecord(time', flags', given', views');
            var r, r', n := Resolve(c), Resolve(c'), c.Low(Current(views[|views| - 1], c.starts));
            n <= |time| && r.t[..n] == r'.t[..n] && r.tf[..n] == r'.tf[..n] && r.keep[..n] == r'.keep[..n]
  {
    hide Resolve, StartsInForce, Current;
    var n, n', last := |time|, |time'|, views[|views| - 1];
    var c, c' := MakeRecord(time, flags, given, views), MakeRecord(time', flags', given', views');
    var q := Current(last, c.starts);
    if q > 0 {
      SameStartsUpTo(n, given, views, n', given', views', q);
      forall k | 0 <= k < |views|
        ensures views[k].Saw(c.starts[q - 1]) || Current(views[k], c.starts) == Current(views[k], c'.starts) < q
      {
        OldViewStays(n, given, views, n', given', views', k, q);
      }
      forall k | |views| <= k < |views'|
        ensures views'[k].Saw(c.starts[q - 1])
      {
        assert views'[|views| - 1] == last;
        SeesMore(last, views'[k], c.starts[q - 1]);
      }
      SettledSamplesUnchanged(c, c', q);
    }
  }
}
