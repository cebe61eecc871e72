/** Sample times of an RBRsolo image in terms of its events: which event dates a sample set, and what the others
    show. */
module DecodedTimes {
  import opened Basics
  import opened ClockSegments
  import opened SampleTiming
  import opened SoloDecoder

  /** A time sync, a reset of the processor, or one of the two restarts after the clock was reset. */
  predicate Dating(e: Event) {
    e.kind == 0x01 || e.kind == 0x04 || e.kind == 0x0A || e.kind == 0x0B
  }

  /** Of the dating events that come before sample set i, event k is the last. */
  ghost predicate LastDating(events: seq<Event>, k: nat, i: nat) {
    && k < |events| && Dating(events[k]) && events[k].sampleIndex <= i
    && forall j :: k < j < |events| && Dating(events[j]) ==> events[j].sampleIndex > i
  }

  ghost predicate Undated(events: seq<Event>, i: nat) {
    forall j :: 0 <= j < |events| && Dating(events[j]) ==> events[j].sampleIndex > i
  }

  /** The set a dating event comes right before has the event's time, and every other set comes one period after the set
      before it. Sets on a clock that shows less than when the logger was enabled are flagged, and so are those before
      any dating event, which count from the start. */
  ghost predicate DatedByEvents(r: SetTimes, n: nat, events: seq<Event>, clock: Clock) {
    && |r.ms| == |r.flags| == n
    && (forall k: nat, i: nat :: i < n && LastDating(events, k, i) ==>
          && r.flags[i] == TimeFlag(false, events[k].seconds < clock.loggerTime, false)
          && (events[k].sampleIndex == i ==> r.ms[i] == 946_684_800_000 + 1000 * events[k].seconds)
          && (events[k].sampleIndex < i ==> r.ms[i] == r.ms[i - 1] + clock.periodMs))
    && (forall i: nat :: i < n && Undated(events, i) ==>
          && r.flags[i] == TimeFlag(true, false, false)
          && (i == 0 ==> IsFallback(r.ms[i], clock))
          && (i > 0 ==> r.ms[i] == r.ms[i - 1] + clock.periodMs))
  }

  lemma {:induction false} LastAnchor(events: seq<Event>, k: nat, i: nat) returns (a: nat)
    requires LastDating(events, k, i)
    ensures Governs(AnchorsOf(events), a, i)
    ensures AnchorsOf(events)[a] ==
            Anchor(events[k].sampleIndex, 946_684_800_000 + 1000 * events[k].seconds, events[k].seconds)
  {
    var m := |events| - 1;
    if k == m {
      a := |AnchorsOf(events[..m])|;
    } else {
      a := LastAnchor(events[..m], k, i);
    }
  }

  lemma {:induction false} NoAnchor(events: seq<Event>, i: nat)
    requires Undated(events, i)
    ensures Unanchored(AnchorsOf(events), i)
  {
    if events != [] {
      NoAnchor(events[..|events| - 1], i);
    }
  }

  /** Times that follow the anchors follow the events the anchors were made from. */
  lemma EventsDateSets(r: SetTimes, n: nat, events: seq<Event>, clock: Clock)
    requires IsDated(r, n, AnchorsOf(events), clock)
    ensures DatedByEvents(r, n, events, clock)
  {
    hide AnchorsOf, LastDating, Undated, Governs, Unanchored;
    forall k: nat, i: nat | i < n && LastDating(events, k, i)
      ensures k < |events| && r.flags[i] == TimeFlag(false, events[k].seconds < clock.loggerTime, false)
      ensures events[k].sampleIndex == i ==> r.ms[i] == 946_684_800_000 + 1000 * events[k].seconds
      ensures events[k].sampleIndex < i ==> r.ms[i] == r.ms[i - 1] + clock.periodMs
    {
      DatedBefore(events, k, i);
      var a := LastAnchor(events, k, i);
    }
    forall i: nat | i < n && Undated(events, i)
      ensures Unanchored(AnchorsOf(events), i)
    {
      NoAnchor(events, i);
    }
  }

  lemma DatedBefore(events: seq<Event>, k: nat, i: nat)
    requires LastDating(events, k, i)
    ensures k < |events| && events[k].sampleIndex <= i
  {
  }
}
