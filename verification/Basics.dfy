/** Shared vocabulary: optional values, results, bytes, and the positions at which a mask is set. */
module Basics {

  datatype Option<+T> = None | Some(value: T)

  datatype Result<+T, +E> = Ok(value: T) | Err(error: E)

  type byte = x: int | 0 <= x < 256

  lemma SliceOfSlice<T>(s: seq<T>, a: nat, b: nat, i: nat, j: nat)
    requires a <= b <= |s| && i <= j <= b - a
    ensures s[a..b][i..j] == s[a + i..a + j]
  {
    var t, u := s[a..b][i..j], s[a + i..a + j];
    forall k | 0 <= k < j - i
      ensures t[k] == u[k]
    {
      assert t[k] == s[a..b][i + k];
      assert u[k] == s[a + i + k];
    }
    assert t == u;
  }

  lemma SliceOfPrefix<T>(p: seq<T>, s: seq<T>, i: nat, j: nat)
    requires p <= s && i <= j <= |p|
    ensures p[i..j] == s[i..j]
  {
  }

  /** The positions in [lo, hi) at which `mask` is set, in increasing order (numpy's flatnonzero). */
  function Positions(mask: seq<bool>, lo: nat, hi: nat): (p: seq<nat>)
    requires hi <= |mask|
    ensures forall k :: 0 <= k < |p| ==> lo <= p[k] < hi && mask[p[k]]
    ensures forall i :: lo <= i < hi && mask[i] ==> i in p
    ensures forall a, b :: 0 <= a < b < |p| ==> p[a] < p[b]
    ensures |p| <= (if lo <= hi then hi - lo else 0)
    decreases hi
  {
    if hi <= lo then []
    else Positions(mask, lo, hi - 1) + (if mask[hi - 1] then [hi - 1] else [])
  }

  /** Nothing is set before the first position, nor between one position and the next. */
  lemma PositionsGap(mask: seq<bool>, lo: nat, hi: nat, k: int, w: nat)
    requires hi <= |mask| && -1 <= k < |Positions(mask, lo, hi)|
    requires var p := Positions(mask, lo, hi);
             (if k < 0 then lo - 1 else p[k]) < w < (if k + 1 < |p| then p[k + 1] else hi)
    ensures !mask[w]
  {
    hide Positions;
    var p := Positions(mask, lo, hi);
    assert k >= 0 ==> p[k] in p;
    assert mask[w] ==> w in p;
  }

  lemma {:induction false} PositionsSplit(mask: seq<bool>, lo: nat, mid: nat, hi: nat)
    requires lo <= mid <= hi <= |mask|
    ensures Positions(mask, lo, hi) == Positions(mask, lo, mid) + Positions(mask, mid, hi)
    decreases hi
  {
    if mid < hi {
      PositionsSplit(mask, lo, mid, hi - 1);
    }
  }

  lemma {:induction false} AllSetCount(a: seq<bool>, lo: nat, hi: nat)
    requires lo <= hi <= |a|
    requires forall i :: lo <= i < hi ==> a[i]
    ensures |Positions(a, lo, hi)| == hi - lo
    decreases hi
  {
    if lo < hi {
      AllSetCount(a, lo, hi - 1);
    }
  }

  /** The last position below `hi` at which `mask` is set. */
  function LastSet(mask: seq<bool>, hi: nat): (r: Option<nat>)
    requires hi <= |mask|
    ensures r.Some? ==> r.value < hi && mask[r.value] && forall i :: r.value < i < hi ==> !mask[i]
    ensures r.None? ==> forall i :: 0 <= i < hi ==> !mask[i]
  {
    if hi == 0 then None else if mask[hi - 1] then Some(hi - 1) else LastSet(mask, hi - 1)
  }

  /** Two masks that agree on [lo, hi) have the same positions there. */
  lemma {:induction false} PositionsAgree(a: seq<bool>, b: seq<bool>, lo: nat, hi: nat)
    requires hi <= |a| && hi <= |b|
    requires forall i :: lo <= i < hi ==> a[i] == b[i]
    ensures Positions(a, lo, hi) == Positions(b, lo, hi)
    decreases hi
  {
    if lo < hi {
      PositionsAgree(a, b, lo, hi - 1);
    }
  }

  /** The strictly increasing sequences with the same members are equal. */
  lemma {:induction false} SortedUnique(p: seq<nat>, q: seq<nat>)
    requires forall a, b :: 0 <= a < b < |p| ==> p[a] < p[b]
    requires forall a, b :: 0 <= a < b < |q| ==> q[a] < q[b]
    requires forall x :: x in p <==> x in q
    ensures p == q
  {
    assert p != [] ==> p[0] in p;
    assert q != [] ==> q[0] in q;
    if p != [] {
      var m, n := |p| - 1, |q| - 1;
      assert p[m] in p && q[n] in q;
      assert p[m] == q[n];
      forall x
        ensures x in p[..m] <==> x in q[..n]
      {
        if x in p[..m] {
          assert x in p && x < p[m];
        }
        if x in q[..n] {
          assert x in q && x < q[n];
        }
      }
      SortedUnique(p[..m], q[..n]);
      assert p == p[..m] + [p[m]] && q == q[..n] + [q[n]];
    }
  }
}
