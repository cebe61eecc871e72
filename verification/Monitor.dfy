/** Bulk transfers and timing-critical steps on several loggers at once: any number of threads, each in one of the two
    kinds of region, over one lock, one condition variable, a flag and a counter. */
module Monitor {

  /** Where a thread is. Each block under the condition variable's lock is one step, since only waiting releases it. */
  datatype Place =
    | Idle
    // a block transfer
    | TransferEnter
    | TransferAsleep
    | TransferWoken
    | Transferring
    | TransferLeave
    // a timing-critical step
    | TimingEnter
    | TimingRaise
    | TimingCheck
    | TimingAsleep
    | TimingWoken
    | Timing
    | TimingLower
    | TimingRelease

  /** The threads, the count of transfers, the flag, and who holds the timing lock (-1: no one). */
  datatype State = State(at: seq<Place>, transfers: int, timing: bool, holder: int)

  function Wake(p: Place): Place {
    match p
    case TransferAsleep => TransferWoken
    case TimingAsleep => TimingWoken
    case _ => p
  }

  function NotifyAll(at: seq<Place>): seq<Place> {
    seq(|at|, i requires 0 <= i < |at| => Wake(at[i]))
  }

  /** What thread i can do next: go on, or, where `fails`, leave because its body or its wait was interrupted. */
  function Next(s: State, i: nat, fails: bool): (r: State)
    requires i < |s.at| && Enabled(s, i, fails)
  {
    match s.at[i]
    case TransferEnter | TransferWoken =>
      if fails then s.(at := s.at[i := Idle])
      else if s.timing then s.(at := s.at[i := TransferAsleep])
      else s.(at := s.at[i := Transferring], transfers := s.transfers + 1)
    case TransferAsleep => s.(at := s.at[i := Idle])
    case Transferring => s.(at := s.at[i := TransferLeave])
    case TransferLeave => s.(at := NotifyAll(s.at)[i := Idle], transfers := s.transfers - 1)
    case TimingEnter => s.(at := s.at[i := TimingRaise], holder := i)
    case TimingRaise => s.(at := s.at[i := TimingCheck], timing := true)
    case TimingCheck | TimingWoken =>
      if fails then s.(at := s.at[i := TimingLower])
      else if s.transfers != 0 then s.(at := s.at[i := TimingAsleep])
      else s.(at := s.at[i := Timing])
    case TimingAsleep => s.(at := s.at[i := TimingLower])
    case Timing => s.(at := s.at[i := TimingLower])
    case TimingLower => s.(at := NotifyAll(s.at)[i := TimingRelease], timing := false)
    case TimingRelease => s.(at := s.at[i := Idle], holder := -1)
    case Idle => s
  }

  predicate Enabled(s: State, i: nat, fails: bool)
    requires i < |s.at|
  {
    match s.at[i]
    case Idle => false
    case TimingEnter => s.holder < 0 && !fails
    case TransferAsleep | TimingAsleep => fails
    case TransferEnter | TransferWoken | TimingCheck | TimingWoken | Transferring | Timing => true
    case _ => !fails
  }

  /** One step of thread i: it goes on, leaves, or, when idle, starts a transfer or a timing-critical step. */
  ghost predicate Step(s: State, s': State, i: nat) {
    && i < |s.at|
    && if s.at[i].Idle? then s' == s.(at := s.at[i := TransferEnter]) || s' == s.(at := s.at[i := TimingEnter])
       else exists fails :: Enabled(s, i, fails) && s' == Next(s, i, fails)
  }

  ghost predicate Init(s: State) {
    (forall i :: 0 <= i < |s.at| ==> s.at[i].Idle?) && s.transfers == 0 && !s.timing && s.holder == -1
  }

  // ---- counting threads ----

  function Sum(at: seq<Place>, weight: Place -> nat): nat {
    if at == [] then 0 else Sum(at[..|at| - 1], weight) + weight(at[|at| - 1])
  }

  lemma {:induction false} SumUpdate(at: seq<Place>, i: nat, p: Place, weight: Place -> nat)
    requires i < |at|
    ensures Sum(at[i := p], weight) == Sum(at, weight) - weight(at[i]) + weight(p)
  {
    var m := |at| - 1;
    if i == m {
      assert at[i := p][..m] == at[..m];
    } else {
      SumUpdate(at[..m], i, p, weight);
      assert at[i := p][..m] == at[..m][i := p];
    }
  }

  lemma {:induction false} SumSame(at: seq<Place>, at': seq<Place>, weight: Place -> nat)
    requires |at| == |at'| && forall i :: 0 <= i < |at| ==> weight(at[i]) == weight(at'[i])
    ensures Sum(at, weight) == Sum(at', weight)
  {
    if at != [] {
      SumSame(at[..|at| - 1], at'[..|at| - 1], weight);
    }
  }

  lemma {:induction false} SumPositive(at: seq<Place>, weight: Place -> nat)
    ensures Sum(at, weight) > 0 <==> exists i :: 0 <= i < |at| && weight(at[i]) > 0
  {
    if at != [] {
      var m := |at| - 1;
      SumPositive(at[..m], weight);
      if Sum(at[..m], weight) > 0 {
        var i :| 0 <= i < m && weight(at[..m][i]) > 0;
        assert weight(at[i]) > 0;
      }
      assert weight(at[m]) > 0 ==> exists i :: 0 <= i < |at| && weight(at[i]) > 0;
      forall i | 0 <= i < m && weight(at[i]) > 0
        ensures weight(at[..m][i]) > 0
      {
      }
    }
  }

  /** A transfer has been counted and not yet uncounted. */
  function InFlight(p: Place): nat {
    if p.Transferring? || p.TransferLeave? then 1 else 0
  }

  /** How many steps a transfer in flight still takes. */
  function StepsLeft(p: Place): nat {
    if p.Transferring? then 2 else if p.TransferLeave? then 1 else 0
  }

  /** The thread is between taking and releasing the timing lock. */
  predicate HoldsLock(p: Place) {
    HasFlag(p) || p.TimingRaise? || p.TimingRelease?
  }

  /** The thread is between raising and lowering the flag. */
  predicate HasFlag(p: Place) {
    p.TimingCheck? || p.TimingAsleep? || p.TimingWoken? || p.Timing? || p.TimingLower?
  }

  // ---- what every step keeps ----

  ghost predicate Locked(s: State) {
    && -1 <= s.holder < |s.at|
    && (forall i :: 0 <= i < |s.at| ==> (HoldsLock(s.at[i]) <==> i == s.holder))
    && Flagged(s)
  }

  ghost predicate Flagged(s: State) {
    -1 <= s.holder < |s.at| && (s.timing <==> s.holder >= 0 && HasFlag(s.at[s.holder]))
  }

  ghost predicate Waits(s: State) {
    forall i :: 0 <= i < |s.at| ==>
      && (s.at[i].TransferAsleep? ==> s.timing)
      && (s.at[i].TimingAsleep? ==> s.transfers > 0)
      && (s.at[i].Timing? ==> s.transfers == 0)
  }

  /** The counter is the number of transfers in flight; a raised flag has its one owner, who holds the lock; no one
      sleeps without a cause to wait for; and a timing-critical body has no transfer beside it. */
  ghost predicate Inv(s: State) {
    s.transfers == Sum(s.at, InFlight) && Locked(s) && Waits(s)
  }

  lemma InitInv(s: State)
    requires Init(s)
    ensures Inv(s)
  {
    SumPositive(s.at, InFlight);
  }

  /** A step moves one thread, perhaps waking the others, and counts that thread in or out. */
  lemma StepMovesOne(s: State, s': State, i: nat)
    requires Step(s, s', i)
    ensures |s'.at| == |s.at|
    ensures s'.at == (if s.at[i].TransferLeave? || s.at[i].TimingLower? then NotifyAll(s.at) else s.at)[i := s'.at[i]]
    ensures s'.transfers == s.transfers - InFlight(s.at[i]) + InFlight(s'.at[i])
  {
    if !s.at[i].Idle? {
      var fails :| Enabled(s, i, fails) && s' == Next(s, i, fails);
    }
  }

  lemma CountKept(s: State, s': State, i: nat)
    requires Step(s, s', i) && s.transfers == Sum(s.at, InFlight)
    ensures s'.transfers == Sum(s'.at, InFlight)
  {
    StepMovesOne(s, s', i);
    hide Step, Sum;
    var woken := if s.at[i].TransferLeave? || s.at[i].TimingLower? then NotifyAll(s.at) else s.at;
    assert woken[i].TransferLeave? == s.at[i].TransferLeave? && woken[i].Transferring? == s.at[i].Transferring?;
    SumSame(s.at, woken, InFlight);
    SumUpdate(woken, i, s'.at[i], InFlight);
  }

  lemma LockKept(s: State, s': State, i: nat)
    requires Step(s, s', i) && Locked(s)
    ensures Locked(s')
  {
    if !s.at[i].Idle? {
      var fails :| Enabled(s, i, fails) && s' == Next(s, i, fails);
    }
    forall k | 0 <= k < |s'.at|
      ensures HoldsLock(s'.at[k]) <==> k == s'.holder
    {
      assert k != i ==> s'.at[k] == s.at[k] || s'.at[k] == Wake(s.at[k]);
      assert HoldsLock(s.at[k]) <==> k == s.holder;
    }
  }

  /** While a step has the flag no transfer starts, and whoever sleeps is woken when the cause of it goes. */
  lemma WaitsKept(s: State, s': State, i: nat)
    requires Step(s, s', i) && Inv(s)
    ensures Waits(s')
  {
    StepMovesOne(s, s', i);
    LockKept(s, s', i);
    SumPositive(s.at, InFlight);
    hide Sum;
    if !s.at[i].Idle? {
      var fails :| Enabled(s, i, fails) && s' == Next(s, i, fails);
    }
    assert InFlight(s.at[i]) > 0 ==> s.transfers > 0;
  }

  lemma StepKeepsInv(s: State, s': State, i: nat)
    requires Step(s, s', i) && Inv(s)
    ensures Inv(s')
  {
    hide Step;
    CountKept(s, s', i);
    LockKept(s, s', i);
    WaitsKept(s, s', i);
  }

  // ---- safety and progress ----

  /** While a timing-critical body runs no transfer is in flight, and no other body runs. */
  lemma BodyRunsAlone(s: State, i: nat, j: nat)
    requires Inv(s) && i < |s.at| && j < |s.at| && i != j && s.at[i].Timing?
    ensures !s.at[j].Timing? && InFlight(s.at[j]) == 0
    ensures s.timing && s.holder == i
  {
    hide Sum;
    SumPositive(s.at, InFlight);
    assert HoldsLock(s.at[i]);
  }

  /** Unless every thread is idle, one of them can go on without anything failing. */
  lemma NoDeadlock(s: State)
    requires Inv(s) && exists i :: 0 <= i < |s.at| && !s.at[i].Idle?
    ensures exists j :: 0 <= j < |s.at| && Enabled(s, j, false)
  {
    hide Sum;
    SumPositive(s.at, InFlight);
    var i :| 0 <= i < |s.at| && !s.at[i].Idle?;
    if !Enabled(s, i, false) {
      assert s.holder >= 0;
      if !Enabled(s, s.holder, false) {
        assert s.at[s.holder].TimingAsleep?;
        var j :| 0 <= j < |s.at| && InFlight(s.at[j]) > 0;
        assert Enabled(s, j, false);
      }
    }
  }

  /** While the flag is up the transfers in flight only become fewer. */
  lemma InFlightOnlyFalls(s: State, s': State, i: nat, k: nat)
    requires Step(s, s', i) && s.timing && k < |s.at|
    ensures |s'.at| == |s.at| && InFlight(s'.at[k]) <= InFlight(s.at[k])
  {
  }

  /** Each step of a transfer in flight brings it nearer its end, and nothing else takes it back. */
  lemma StepsLeftFall(s: State, s': State, i: nat)
    requires Step(s, s', i) && s.timing
    ensures Sum(s'.at, StepsLeft) == Sum(s.at, StepsLeft) - InFlight(s.at[i])
  {
    StepMovesOne(s, s', i);
    if !s.at[i].Idle? {
      var fails :| Enabled(s, i, fails) && s' == Next(s, i, fails);
    }
    assert StepsLeft(s'.at[i]) == StepsLeft(s.at[i]) - InFlight(s.at[i]);
    hide Step, Sum;
    var woken := if s.at[i].TransferLeave? || s.at[i].TimingLower? then NotifyAll(s.at) else s.at;
    SumSame(s.at, woken, StepsLeft);
    SumUpdate(woken, i, s'.at[i], StepsLeft);
  }

  /** Once they have all ended, the thread that waits for them is awake, and its next step is its body. */
  lemma WaiterEnters(s: State, i: nat)
    requires Inv(s) && s.transfers == 0
    requires i < |s.at| && (s.at[i].TimingCheck? || s.at[i].TimingAsleep? || s.at[i].TimingWoken?)
    ensures Enabled(s, i, false) && Next(s, i, false).at[i].Timing?
  {
  }

  // ---- whole runs ----

  /** Any interleaving of the threads' steps, from all of them idle. */
  ghost predicate Run(states: seq<State>, movers: seq<nat>) {
    && |states| == |movers| + 1 && Init(states[0])
    && forall k :: 0 <= k < |movers| ==> Step(states[k], states[k + 1], movers[k])
  }

  lemma {:induction false} RunKeepsInv(states: seq<State>, movers: seq<nat>, n: nat)
    requires Run(states, movers) && n <= |movers|
    ensures Inv(states[n]) && |states[n].at| == |states[0].at|
  {
    hide Step, Inv;
    if n == 0 {
      InitInv(states[0]);
    } else {
      RunKeepsInv(states, movers, n - 1);
      StepKeepsInv(states[n - 1], states[n], movers[n - 1]);
      StepMovesOne(states[n - 1], states[n], movers[n - 1]);
    }
  }

  /** How many of the run's steps m..n were steps of transfers in flight. */
  ghost function TransferSteps(states: seq<State>, movers: seq<nat>, m: nat, n: nat): nat
    requires Run(states, movers) && m <= n <= |movers|
  {
    if m == n then 0
    else
      assert Step(states[n - 1], states[n], movers[n - 1]);
      TransferSteps(states, movers, m, n - 1) + InFlight(states[n - 1].at[movers[n - 1]])
  }

  /** A timing-critical step waits for at most two steps of each transfer that was in flight when it raised the flag,
      whatever the other threads do meanwhile. */
  lemma {:induction false} WaitIsBounded(states: seq<State>, movers: seq<nat>, m: nat, n: nat)
    requires Run(states, movers) && m <= n <= |movers|
    requires forall k :: m <= k < n ==> states[k].timing
    ensures TransferSteps(states, movers, m, n) + Sum(states[n].at, StepsLeft) == Sum(states[m].at, StepsLeft)
    ensures TransferSteps(states, movers, m, n) <= 2 * states[m].transfers
    ensures TransferSteps(states, movers, m, n) == Sum(states[m].at, StepsLeft) ==> states[n].transfers == 0
  {
    hide Inv, Step, Sum;
    if m < n {
      WaitIsBounded(states, movers, m, n - 1);
      StepsLeftFall(states[n - 1], states[n], movers[n - 1]);
    }
    RunKeepsInv(states, movers, m);
    RunKeepsInv(states, movers, n);
    TwoStepsEach(states[m]);
    TwoStepsEach(states[n]);
  }

  lemma TwoStepsEach(s: State)
    requires Inv(s)
    ensures s.transfers <= Sum(s.at, StepsLeft) <= 2 * s.transfers
  {
    hide Sum;
    SumBetween(s.at);
  }

  lemma {:induction false} SumBetween(at: seq<Place>)
    ensures Sum(at, InFlight) <= Sum(at, StepsLeft) <= 2 * Sum(at, InFlight)
  {
    if at != [] {
      SumBetween(at[..|at| - 1]);
    }
  }
}
