/** Engineering values of a logger's stored channels, whose equations may refer to one another. */
module Evaluate {
  import opened Basics

  /** What an equation asks for, in order: something missing or not implemented, a value of its own or a default, or
      the values of another channel. */
  datatype Term<V> =
    | Defect(reason: nat)
    | Known(value: V)
    | Channel(index: nat)

  /** A stored channel: what its equation asks for, and the arithmetic on what it gets. */
  datatype Equation<!V> = Equation(terms: seq<Term<V>>, combine: seq<V> -> V)

  type Channels<!V> = map<nat, Equation<V>>

  datatype Problem =
    | Lacking(reason: nat)
    | NotStored(index: nat)
    | Circular(index: nat)

  // ---- plain recursion ----

  /** A channel's values, without a memory of those already computed. `active` are the channels being evaluated. */
  function Plain<V>(cs: Channels<V>, index: nat, active: set<nat>): Result<V, Problem>
    requires index in cs
    decreases |cs.Keys - active|, 0
  {
    if index in active then Err(Circular(index))
    else
      assert cs.Keys - (active + {index}) == (cs.Keys - active) - {index};
      match Args(cs, cs[index].terms, |cs[index].terms|, active + {index})
      case Err(p) => Err(p)
      case Ok(args) => Ok(cs[index].combine(args))
  }

  /** What the first n terms give, or the first problem among them. */
  function Args<V>(cs: Channels<V>, terms: seq<Term<V>>, n: nat, active: set<nat>): (r: Result<seq<V>, Problem>)
    requires n <= |terms|
    decreases |cs.Keys - active|, n + 1
  {
    if n == 0 then Ok([])
    else
      match Args(cs, terms, n - 1, active)
      case Err(p) => Err(p)
      case Ok(args) =>
        match One(cs, terms[n - 1], active)
        case Err(p) => Err(p)
        case Ok(v) => Ok(args + [v])
  }

  function One<V>(cs: Channels<V>, term: Term<V>, active: set<nat>): Result<V, Problem>
    decreases |cs.Keys - active|, 1
  {
    match term
    case Defect(reason) => Err(Lacking(reason))
    case Known(v) => Ok(v)
    case Channel(i) => if i in cs then Plain(cs, i, active) else Err(NotStored(i))
  }

  // ---- which channels have values ----

  predicate Refers<V(==)>(cs: Channels<V>, a: nat, b: nat) {
    a in cs && exists k :: 0 <= k < |cs[a].terms| && cs[a].terms[k] == Channel(b)
  }

  /** A path from channel to channel along their references. */
  ghost predicate Walk<V>(cs: Channels<V>, w: seq<nat>) {
    && w != [] && (forall i :: 0 <= i < |w| ==> w[i] in cs)
    && forall i :: 0 <= i < |w| - 1 ==> Refers(cs, w[i], w[i + 1])
  }

  /** The channel's own equation cannot be evaluated, whatever the others give. */
  ghost predicate Lacks<V>(cs: Channels<V>, index: nat)
    requires index in cs
  {
    exists k :: 0 <= k < |cs[index].terms| && Unusable(cs, cs[index].terms[k])
  }

  ghost predicate Unusable<V>(cs: Channels<V>, term: Term<V>) {
    term.Defect? || (term.Channel? && term.index !in cs)
  }

  /** The walk ends at a channel that lacks something, that is being evaluated, or that the walk has been to. */
  ghost predicate EndsBadly<V>(cs: Channels<V>, w: seq<nat>, active: set<nat>)
    requires Walk(cs, w)
  {
    var last := w[|w| - 1];
    Lacks(cs, last) || last in active || last in w[..|w| - 1]
  }

  ghost predicate Faulty<V>(cs: Channels<V>, index: nat, active: set<nat>) {
    exists w :: Walk(cs, w) && w[0] == index && EndsBadly(cs, w, active)
  }

  // ---- when plain recursion fails ----

  /** A term that gives no value: it cannot be used, or its channel fails. */
  lemma {:induction false} FailingTerm<V>(cs: Channels<V>, terms: seq<Term<V>>, n: nat, active: set<nat>)
    requires n <= |terms|
    ensures Args(cs, terms, n, active).Err? <==> exists k :: 0 <= k < n && One(cs, terms[k], active).Err?
    ensures Args(cs, terms, n, active).Ok? ==> |Args(cs, terms, n, active).value| == n
    ensures Args(cs, terms, n, active).Ok? ==>
              forall k :: 0 <= k < n ==> One(cs, terms[k], active) == Ok(Args(cs, terms, n, active).value[k])
  {
    hide One;
    if n > 0 {
      FailingTerm(cs, terms, n - 1, active);
    }
  }

  /** A problem has a walk to what is wrong. */
  lemma {:induction false} ProblemHasWalk<V>(cs: Channels<V>, index: nat, active: set<nat>) returns (w: seq<nat>)
    requires index in cs && Plain(cs, index, active).Err?
    ensures Walk(cs, w) && w[0] == index && EndsBadly(cs, w, active)
    decreases |cs.Keys - active|
  {
    w := [index];
    if index !in active {
      var terms, active' := cs[index].terms, active + {index};
      assert cs.Keys - active' == (cs.Keys - active) - {index};
      FailingTerm(cs, terms, |terms|, active');
      var k :| 0 <= k < |terms| && One(cs, terms[k], active').Err?;
      if Unusable(cs, terms[k]) {
        assert Lacks(cs, index);
      } else {
        var rest := ProblemHasWalk(cs, terms[k].index, active');
        w := [index] + rest;
        WalkLonger(cs, index, rest, k);
        assert w[..|w| - 1] == [index] + rest[..|rest| - 1];
      }
    }
  }

  /** What a problem says: the walk ends at a channel that asks for something missing, or for one that is not stored, or
      at one that is being evaluated already. */
  ghost predicate Says<V>(cs: Channels<V>, w: seq<nat>, active: set<nat>, p: Problem)
    requires Walk(cs, w)
  {
    var last := w[|w| - 1];
    match p
    case Lacking(reason) => Defect(reason) in cs[last].terms
    case NotStored(i) => i !in cs && Channel(i) in cs[last].terms
    case Circular(i) => i == last && (i in active || i in w[..|w| - 1])
  }

  /** The problem found is there. */
  lemma {:induction false} ProblemIsTrue<V>(cs: Channels<V>, index: nat, active: set<nat>) returns (w: seq<nat>)
    requires index in cs && Plain(cs, index, active).Err?
    ensures Walk(cs, w) && w[0] == index && Says(cs, w, active, Plain(cs, index, active).error)
    decreases |cs.Keys - active|
  {
    w := [index];
    if index !in active {
      var terms, active' := cs[index].terms, active + {index};
      assert cs.Keys - active' == (cs.Keys - active) - {index};
      var k := FailsAt(cs, terms, |terms|, active');
      if terms[k].Channel? && terms[k].index in cs {
        var rest := ProblemIsTrue(cs, terms[k].index, active');
        w := [index] + rest;
        WalkLonger(cs, index, rest, k);
        assert w[..|w| - 1] == [index] + rest[..|rest| - 1];
      }
    }
  }

  /** The first term that gives no value gives the problem. */
  lemma {:induction false} FailsAt<V>(cs: Channels<V>, terms: seq<Term<V>>, n: nat, active: set<nat>) returns (k: nat)
    requires n <= |terms| && Args(cs, terms, n, active).Err?
    ensures k < n && One(cs, terms[k], active) == Err(Args(cs, terms, n, active).error)
    ensures forall j :: 0 <= j < k ==> One(cs, terms[j], active).Ok?
  {
    hide One;
    if Args(cs, terms, n - 1, active).Err? {
      k := FailsAt(cs, terms, n - 1, active);
    } else {
      k := n - 1;
      FailingTerm(cs, terms, n - 1, active);
    }
  }

  lemma WalkLonger<V>(cs: Channels<V>, index: nat, rest: seq<nat>, k: nat)
    requires Walk(cs, rest) && index in cs && k < |cs[index].terms| && cs[index].terms[k] == Channel(rest[0])
    ensures Walk(cs, [index] + rest)
  {
    var w := [index] + rest;
    forall i | 0 <= i < |w| - 1
      ensures Refers(cs, w[i], w[i + 1])
    {
      assert i > 0 ==> w[i] == rest[i - 1] && w[i + 1] == rest[i];
    }
  }

  /** A channel with values has no walk to anything wrong. */
  lemma {:induction false} ValueHasNone<V>(cs: Channels<V>, index: nat, active: set<nat>, w: seq<nat>)
    requires index in cs && Plain(cs, index, active).Ok?
    requires Walk(cs, w) && w[0] == index
    ensures !EndsBadly(cs, w, active)
    decreases |cs.Keys - active|
  {
    var terms, active' := cs[index].terms, active + {index};
    assert cs.Keys - active' == (cs.Keys - active) - {index};
    FailingTerm(cs, terms, |terms|, active');
    assert forall k :: 0 <= k < |terms| ==> One(cs, terms[k], active').Ok?;
    assert !Lacks(cs, index);
    if |w| > 1 {
      assert Refers(cs, w[0], w[1]);
      var k :| 0 <= k < |terms| && terms[k] == Channel(w[1]);
      assert One(cs, terms[k], active').Ok?;
      RestOfWalk(cs, w, 1, |w|);
      ValueHasNone(cs, w[1], active', w[1..]);
      var last := w[|w| - 1];
      assert w[1..][|w| - 2] == last && w[1..][..|w| - 2] == w[1..|w| - 1];
      assert w[..|w| - 1] == [index] + w[1..|w| - 1];
    }
  }

  lemma RestOfWalk<V>(cs: Channels<V>, w: seq<nat>, lo: nat, hi: nat)
    requires Walk(cs, w) && lo < hi <= |w|
    ensures Walk(cs, w[lo..hi])
  {
    var v := w[lo..hi];
    forall i | 0 <= i < |v| - 1
      ensures Refers(cs, v[i], v[i + 1])
    {
      assert v[i] == w[lo + i] && v[i + 1] == w[lo + i + 1];
    }
  }

  /** A channel has a problem exactly when its references lead to a channel that lacks something, or in a circle. */
  lemma ProblemExactly<V>(cs: Channels<V>, index: nat, active: set<nat>)
    requires index in cs
    ensures Plain(cs, index, active).Err? <==> Faulty(cs, index, active)
  {
    hide Plain, EndsBadly;
    if Plain(cs, index, active).Err? {
      var w := ProblemHasWalk(cs, index, active);
    } else {
      forall w | Walk(cs, w) && w[0] == index
        ensures !EndsBadly(cs, w, active)
      {
        ValueHasNone(cs, index, active, w);
      }
    }
  }

  /** The values do not depend on which channels are being evaluated. */
  lemma {:induction false} SameValue<V>(cs: Channels<V>, index: nat, a: set<nat>, b: set<nat>)
    requires index in cs && Plain(cs, index, a).Ok? && Plain(cs, index, b).Ok?
    ensures Plain(cs, index, a) == Plain(cs, index, b)
    decreases |cs.Keys - a|
  {
    var terms, a', b' := cs[index].terms, a + {index}, b + {index};
    assert cs.Keys - a' == (cs.Keys - a) - {index};
    FailingTerm(cs, terms, |terms|, a');
    FailingTerm(cs, terms, |terms|, b');
    var p, q := Args(cs, terms, |terms|, a').value, Args(cs, terms, |terms|, b').value;
    forall k | 0 <= k < |terms|
      ensures p[k] == q[k]
    {
      assert One(cs, terms[k], a').Ok? && One(cs, terms[k], b').Ok?;
      if terms[k].Channel? {
        SameValue(cs, terms[k].index, a', b');
      }
    }
    assert p == q;
  }

  // ---- remembering values ----

  /** Every channel being evaluated leads to this one. */
  ghost predicate Lead<V>(cs: Channels<V>, active: set<nat>, index: nat) {
    forall a :: a in active ==> exists w :: Leads(cs, w, a, index)
  }

  ghost predicate Leads<V>(cs: Channels<V>, w: seq<nat>, a: nat, b: nat) {
    Walk(cs, w) && |w| > 1 && w[0] == a && w[|w| - 1] == b
  }

  lemma LeadsOn<V>(cs: Channels<V>, active: set<nat>, index: nat, k: nat, next: nat)
    requires Lead(cs, active, index) && index in cs && next in cs
    requires k < |cs[index].terms| && cs[index].terms[k] == Channel(next)
    ensures Lead(cs, active + {index}, next)
  {
    assert Refers(cs, index, next);
    forall a | a in active + {index}
      ensures exists w :: Leads(cs, w, a, next)
    {
      var w := [index];
      if a != index {
        w :| Leads(cs, w, a, index);
      }
      WalkOn(cs, w, next);
      assert Leads(cs, w + [next], a, next);
    }
  }

  lemma WalkOn<V>(cs: Channels<V>, w: seq<nat>, next: nat)
    requires Walk(cs, w) && next in cs && Refers(cs, w[|w| - 1], next)
    ensures Walk(cs, w + [next])
  {
    var v := w + [next];
    forall i | 0 <= i < |v| - 1
      ensures Refers(cs, v[i], v[i + 1])
    {
      assert v[i] == w[i];
    }
  }

  lemma WalkJoin<V>(cs: Channels<V>, v: seq<nat>, w: seq<nat>)
    requires Walk(cs, v) && Walk(cs, w) && v[|v| - 1] == w[0]
    ensures Walk(cs, v[..|v| - 1] + w)
  {
    var u := v[..|v| - 1] + w;
    forall i | 0 <= i < |u| - 1
      ensures Refers(cs, u[i], u[i + 1])
    {
      if i < |v| - 1 {
        assert u[i] == v[i] && u[i + 1] == v[i + 1];
      } else {
        assert u[i] == w[i - (|v| - 1)] && u[i + 1] == w[i + 1 - (|v| - 1)];
      }
    }
  }

  /** Going on to a channel that leads back here is a circle of its own. */
  lemma FaultyOnItsOwn<V>(cs: Channels<V>, index: nat, active: set<nat>)
    requires Lead(cs, active, index)
    ensures Faulty(cs, index, active) ==> Faulty(cs, index, {})
  {
    forall w | Walk(cs, w) && w[0] == index && EndsBadly(cs, w, active)
      ensures Faulty(cs, index, {})
    {
      var last := w[|w| - 1];
      if last in active {
        var v :| Leads(cs, v, last, index);
        WalkJoin(cs, w, v);
        var u := w[..|w| - 1] + v;
        assert index in u[..|u| - 1] by { assert u[..|u| - 1][0] == index; }
        assert EndsBadly(cs, u, {});
      } else {
        assert EndsBadly(cs, w, {});
      }
    }
  }

  lemma FaultyAnyway<V>(cs: Channels<V>, index: nat, active: set<nat>)
    ensures Faulty(cs, index, {}) ==> Faulty(cs, index, active)
  {
    forall w | Walk(cs, w) && w[0] == index && EndsBadly(cs, w, {})
      ensures Faulty(cs, index, active)
    {
      assert EndsBadly(cs, w, active);
    }
  }

  /** A channel has values on its own exactly when it has them for those that lead to it, and the same ones. */
  lemma RememberedIsPlain<V>(cs: Channels<V>, index: nat, active: set<nat>)
    requires index in cs && Lead(cs, active, index)
    ensures Plain(cs, index, active).Ok? <==> Plain(cs, index, {}).Ok?
    ensures Plain(cs, index, active).Ok? ==> Plain(cs, index, active) == Plain(cs, index, {})
  {
    hide Plain, Faulty;
    ProblemExactly(cs, index, {});
    ProblemExactly(cs, index, active);
    FaultyOnItsOwn(cs, index, active);
    FaultyAnyway(cs, index, active);
    if Plain(cs, index, active).Ok? {
      SameValue(cs, index, active, {});
    }
  }

  /** The first problem among the terms is what evaluating all of them gives. */
  lemma {:induction false} FirstProblem<V>(cs: Channels<V>, terms: seq<Term<V>>, m: nat, n: nat, active: set<nat>)
    requires m <= n <= |terms| && Args(cs, terms, m, active).Err?
    ensures Args(cs, terms, n, active) == Args(cs, terms, m, active)
  {
    if m < n {
      FirstProblem(cs, terms, m, n - 1, active);
    }
  }

  class Evaluator<!V> {
    const cs: Channels<V>
    var cache: map<nat, V>
    var active: set<nat>

    constructor (cs: Channels<V>)
      ensures this.cs == cs && Valid() && active == {} && cache == map[]
    {
      this.cs := cs;
      cache := map[];
      active := {};
    }

    /** Every remembered value is what plain recursion gives. */
    ghost predicate Valid()
      reads this
    {
      forall x :: x in cache ==> x in cs && Plain(cs, x, {}) == Ok(cache[x])
    }

    method Forget(index: nat)
      requires Valid()
      modifies this`cache
      ensures Valid() && cache == old(cache) - {index}
    {
      cache := cache - {index};
    }

    /** A channel's values, remembered or computed; a channel that leads back to itself is a problem. */
    method Value(index: nat) returns (r: Result<V, Problem>)
      requires Valid() && index in cs && Lead(cs, active, index)
      modifies this
      ensures Valid() && active == old(active)
      ensures r == Plain(cs, index, active)
      decreases |cs.Keys - active|, 0
    {
      hide Lead, Plain, Args;
      if index in cache {
        RememberedIsPlain(cs, index, active);
        return Ok(cache[index]);
      }
      if index in active {
        BeingEvaluated(cs, index, active);
        return Err(Circular(index));
      }
      ghost var before := active;
      assert cs.Keys - (active + {index}) == (cs.Keys - active) - {index};
      active := active + {index};
      var args := EvaluateTerms(index, before);
      active := active - {index};
      assert active == before;
      OwnTerms(cs, index, active);
      if args.Err? {
        return Err(args.error);
      }
      var v := cs[index].combine(args.value);
      RememberedIsPlain(cs, index, active);
      cache := cache[index := v];
      r := Ok(v);
    }

    /** What the channel's equation asks for, in order, up to the first problem. */
    method EvaluateTerms(index: nat, ghost before: set<nat>) returns (r: Result<seq<V>, Problem>)
      requires Valid() && index in cs && Lead(cs, before, index) && active == before + {index}
      modifies this
      ensures Valid() && active == old(active)
      ensures r == Args(cs, cs[index].terms, |cs[index].terms|, active)
      decreases |cs.Keys - active|, |cs[index].terms| + 1
    {
      hide Lead, Plain;
      var terms := cs[index].terms;
      var args := [];
      for k := 0 to |terms|
        invariant Valid() && active == old(active)
        invariant Args(cs, terms, k, active) == Ok(args)
      {
        var v: Result<V, Problem>;
        match terms[k] {
          case Defect(reason) => v := Err(Lacking(reason));
          case Known(known) => v := Ok(known);
          case Channel(i) =>
            if i in cs {
              LeadsOn(cs, before, index, k, i);
              v := Value(i);
            } else {
              v := Err(NotStored(i));
            }
        }
        assert v == One(cs, terms[k], active);
        if v.Err? {
          FirstProblem(cs, terms, k + 1, |terms|, active);
          return Err(v.error);
        }
        args := args + [v.value];
      }
      r := Ok(args);
    }
  }

  lemma BeingEvaluated<V>(cs: Channels<V>, index: nat, active: set<nat>)
    requires index in cs && index in active
    ensures Plain(cs, index, active) == Err(Circular(index))
  {
  }

  lemma OwnTerms<V>(cs: Channels<V>, index: nat, active: set<nat>)
    requires index in cs && index !in active
    ensures var args := Args(cs, cs[index].terms, |cs[index].terms|, active + {index});
            Plain(cs, index, active) == if args.Err? then Err(args.error) else Ok(cs[index].combine(args.value))
  {
  }

  /** Every stored column in turn: its values, or the problem that keeps it from having any. The order of the columns
      makes no difference, and a column has a problem exactly when its references lead to one. */
  method EvaluateAll<V>(cs: Channels<V>, columns: seq<nat>) returns (results: seq<Result<V, Problem>>)
    requires forall k :: 0 <= k < |columns| ==> columns[k] in cs
    ensures |results| == |columns|
    ensures forall k :: 0 <= k < |columns| ==> results[k] == Plain(cs, columns[k], {})
    ensures forall k :: 0 <= k < |columns| ==> (results[k].Err? <==> Faulty(cs, columns[k], {}))
  {
    hide Plain, Faulty;
    var e := new Evaluator(cs);
    results := [];
    for k := 0 to |columns|
      invariant |results| == k && e.Valid() && e.active == {} && e.cs == cs
      invariant forall j :: 0 <= j < k ==> results[j] == Plain(cs, columns[j], {})
      invariant forall j :: 0 <= j < k ==> (results[j].Err? <==> Faulty(cs, columns[j], {}))
    {
      var r := e.Value(columns[k]);
      ProblemExactly(cs, columns[k], {});
      if r.Err? {
        e.Forget(columns[k]);
      }
      results := results + [r];
    }
  }
}
