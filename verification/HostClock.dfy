/** The host clock's offset from UTC by SNTP (section 5 of RFC 4330). Times are seconds; the network decides what is
    read. */
module HostClock {
  import opened Basics

  function Abs(x: real): real {
    if x < 0.0 then -x else x
  }

  /** A server's reply: the host's send and receive times, the server's, and what the server says of itself. */
  datatype Reply = Reply(t1: real, t2: real, t3: real, t4: real, rootDelay: real, rootDispersion: real) {
    function Offset(): real { ((t2 - t1) + (t3 - t4)) / 2.0 }

    function Delay(): real { (t4 - t1) - (t3 - t2) }

    function Uncertainty(): real { Delay() / 2.0 + rootDelay / 2.0 + rootDispersion }
  }

  /** Neither way took negative time, the server's clock being `ahead` of the host's; and the server is as near UTC as
      it says. */
  ghost predicate TrueReply(r: Reply, utc: real) {
    exists ahead: real :: ServerAhead(r, ahead, utc)
  }

  ghost predicate ServerAhead(r: Reply, ahead: real, utc: real) {
    && r.t1 + ahead <= r.t2 && r.t3 <= r.t4 + ahead
    && Abs(ahead - utc) <= r.rootDelay / 2.0 + r.rootDispersion
  }

  /** What became of one query. */
  datatype Query = Replied(reply: Reply) | Failed | Unresolved | OutOfTime

  /** How many of the queries are made. */
  function Asked(queries: seq<Query>): (n: nat)
    ensures n <= |queries|
    ensures forall i :: 0 <= i < n ==> queries[i].Replied? || queries[i].Failed?
    ensures n < |queries| ==> queries[n].Unresolved? || queries[n].OutOfTime?
  {
    if queries == [] then 0
    else
      var m := |queries| - 1;
      var n := Asked(queries[..m]);
      if n == m && (queries[m].Replied? || queries[m].Failed?) then m + 1 else n
  }

  lemma AskedUpTo(queries: seq<Query>, i: nat)
    requires i < |queries| && i <= Asked(queries)
    ensures i < Asked(queries) <==> queries[i].Replied? || queries[i].Failed?
  {
  }

  /** The lowest-delay reply; a name that does not resolve, or no time left, ends the queries. */
  method NtpOffset(queries: seq<Query>) returns (best: Option<Reply>)
    ensures best.None? <==> forall i :: 0 <= i < Asked(queries) ==> !queries[i].Replied?
    ensures best.Some? ==> exists i :: 0 <= i < Asked(queries) && queries[i] == Replied(best.value)
    ensures best.Some? ==> forall i :: 0 <= i < Asked(queries) && queries[i].Replied? ==>
                                         best.value.Delay() <= queries[i].reply.Delay()
  {
    best := None;
    for i := 0 to |queries|
      invariant i <= Asked(queries)
      invariant best.None? <==> forall k :: 0 <= k < i ==> !queries[k].Replied?
      invariant best.Some? ==> exists k :: 0 <= k < i && queries[k] == Replied(best.value)
      invariant best.Some? ==> forall k :: 0 <= k < i && queries[k].Replied? ==>
                best.value.Delay() <= queries[k].reply.Delay()
    {
      AskedUpTo(queries, i);
      match queries[i] {
        case Replied(reply) =>
          if best.None? || reply.Delay() < best.value.Delay() {
            best := Some(reply);
          }
        case Failed =>
        case _ => return;
      }
    }
  }

  /** The offset is off by at most half the delay, and by what the server itself may be off. */
  lemma OffsetBounded(r: Reply, utc: real)
    requires TrueReply(r, utc)
    ensures Abs(r.Offset() - utc) <= r.Uncertainty()
  {
    var ahead :| ServerAhead(r, ahead, utc);
    var d1, d2 := r.t2 - r.t1 - ahead, r.t4 - r.t3 + ahead;
    assert r.Offset() - ahead == (d1 - d2) / 2.0 && r.Delay() == d1 + d2;
  }

  /** And it can be off by as much, so no smaller uncertainty would do. */
  lemma OffsetBoundIsTight(r: Reply) returns (utc: real)
    requires r.rootDelay >= 0.0 && r.rootDispersion >= 0.0 && r.t3 - r.t2 <= r.t4 - r.t1
    ensures TrueReply(r, utc) && Abs(r.Offset() - utc) == r.Uncertainty()
  {
    var ahead := r.t2 - r.t1;
    utc := ahead + r.rootDelay / 2.0 + r.rootDispersion;
    assert ServerAhead(r, ahead, utc);
  }

  // ---- NTP seconds ----

  const NTP_TO_UNIX: int := 2_208_988_800
  const ERA: int := 0x1_0000_0000

  function ToNtp(seconds: int): int {
    (seconds + NTP_TO_UNIX) % ERA
  }

  /** Timestamps with the top bit clear are of the era that starts in 2036 (section 3 of RFC 4330). */
  function FromNtp(stamp: int): int {
    (if stamp < 0x8000_0000 then stamp + ERA else stamp) - NTP_TO_UNIX
  }

  /** A time survives the 32-bit stamp exactly from 1968 to 2104. */
  lemma StampRoundTrip(seconds: int)
    ensures FromNtp(ToNtp(seconds)) == seconds <==>
              -61_505_152 <= seconds < 4_233_462_144
    ensures ToNtp(0) == 2_208_988_800
  {
    var x := seconds + NTP_TO_UNIX;
    assert x == (x / ERA) * ERA + x % ERA;
  }
}
