/** Runs of one logger that logs, is erased and enabled again, and is offloaded, each offload stopped anywhere: every
    record on disk holds the memory of its time, and no deployment mixes two enablings. */
module OffloadRuns {
  import opened Basics
  import opened Download
  import opened IncrementalDownload
  import opened Store
  import opened StoreLaws
  import opened Offloading

  /** The disk, the part files, the logger's memory and how often the logger was enabled; `clock` is past the start of
      every offload so far. */
  datatype World = World(disk: Disk, parts: map<PartName, seq<byte>>, memory: seq<byte>, enabled: nat, clock: nat)

  /** A memory that grows keeps what it has past its header. The header itself may be rewritten. */
  ghost predicate LogsOn(memory: seq<byte>, memory': seq<byte>) {
    |memory| <= |memory'| && forall i :: HEAD <= i < |memory| ==> memory[i] == memory'[i]
  }

  ghost predicate Logged(w: World, w': World) {
    LogsOn(w.memory, w'.memory) && w' == w.(memory := w'.memory)
  }

  /** The logger was erased and enabled, and may have logged already. */
  ghost predicate Enabled(w: World, w': World) {
    w' == w.(memory := w'.memory, enabled := w.enabled + 1)
  }

  ghost predicate Offloaded(w: World, w': World, tag: nat, full: bool, parsed: seq<byte> -> Option<nat>, recorded: bool)
  {
    && w.clock <= tag && w' == w.(disk := w'.disk, parts := w'.parts, clock := tag + 1)
    && Outcome(w.disk, w.parts, w'.disk, w'.parts, w.memory, tag, full, parsed, recorded)
  }

  ghost predicate Step(w: World, w': World, parsed: seq<byte> -> Option<nat>) {
    || Logged(w, w') || Enabled(w, w')
    || exists tag, full, recorded :: Offloaded(w, w', tag, full, parsed, recorded)
  }

  /** From an empty disk. A memory that is not empty holds a whole header. */
  ghost predicate Run(ws: seq<World>, parsed: seq<byte> -> Option<nat>) {
    && ws != [] && ws[0].disk == Disk(map[], []) && ws[0].parts == map[]
    && (forall i :: 0 <= i < |ws| ==> ws[i].memory == [] || HEAD <= |ws[i].memory|)
    && (forall i :: 0 <= i < |ws| - 1 ==> Step(ws[i], ws[i + 1], parsed))
  }

  /** Two memories have other headers, and the later does not repeat all the data of the earlier. */
  ghost predicate Apart(a: seq<byte>, b: seq<byte>)
    requires HEAD <= |a| && HEAD <= |b|
  {
    && (exists x :: 0 <= x < HEAD && a[x] != b[x])
    && (HEAD < |a| <= |b| ==> exists x :: HEAD <= x < |a| && a[x] != b[x])
  }

  /** Memories of different enablings can be told apart. */
  ghost predicate TellApart(ws: seq<World>) {
    forall i, j :: 0 <= i < j < |ws| && ws[i].enabled != ws[j].enabled
                   && HEAD <= |ws[i].memory| && HEAD <= |ws[j].memory| ==>
      Apart(ws[i].memory, ws[j].memory)
  }

  // ---- earlier memories and the present one ----

  /** b is what the logger holds later than a, on the same enabling or on another. */
  ghost predicate Later(a: seq<byte>, b: seq<byte>, same: bool) {
    HEAD <= |a| && HEAD <= |b| && if same then LogsOn(a, b) else Apart(a, b)
  }

  lemma {:induction false} EarlierMemory(ws: seq<World>, parsed: seq<byte> -> Option<nat>, i: nat, j: nat)
    requires Run(ws, parsed) && i <= j < |ws|
    ensures ws[i].enabled <= ws[j].enabled
    ensures ws[i].enabled == ws[j].enabled ==> LogsOn(ws[i].memory, ws[j].memory)
  {
    hide Outcome;
    if i < j {
      EarlierMemory(ws, parsed, i, j - 1);
      assert Step(ws[j - 1], ws[j], parsed);
    }
  }

  lemma IsLater(ws: seq<World>, parsed: seq<byte> -> Option<nat>, i: nat, j: nat)
    requires Run(ws, parsed) && TellApart(ws) && i <= j < |ws| && ws[i].memory != [] && ws[j].memory != []
    ensures Later(ws[i].memory, ws[j].memory, ws[i].enabled == ws[j].enabled)
  {
    hide Step, Apart, LogsOn;
    EarlierMemory(ws, parsed, i, j);
  }

  /** A part file of a new deployment that an earlier offload left is not used on another enabling, and is what the
      memory begins with on the same. */
  lemma NewPartSound(part: seq<byte>, a: seq<byte>, b: seq<byte>, same: bool)
    requires Later(a, b, same) && part <= a
    ensures Sound(Some(part), b, |b|, 0)
  {
    assert b[0..|b|] == b;
    if Reused(Some(part), b, |b|, 0) {
      forall i | 0 <= i < |part|
        ensures i < |b| && part[i] == b[i]
      {
        assert i < HEAD ==> part[i] == b[..HEAD][i];
      }
    }
  }

  lemma SegmentSound(part: seq<byte>, a: seq<byte>, b: seq<byte>, n: nat)
    requires LogsOn(a, b) && HEAD <= n <= |a| && part <= a[n..]
    ensures n <= |b| && part <= b[n..|b|]
    ensures Sound(Some(part), b, |b|, n)
  {
    forall i | 0 <= i < |part|
      ensures part[i] == b[n..|b|][i]
    {
      assert part[i] == a[n..][i] == a[n + i];
    }
  }

  // ---- a record and the memory it was made from ----

  /** The record stands for the memory: its image past the header, and the header with it. */
  ghost predicate Faithful(c: Dep, memory: seq<byte>) {
    && HEAD <= |memory| == |c.image|
    && Previous(AsHeld(c)) == memory[..HEAD] && c.image[HEAD..] == memory[HEAD..]
    && (IsSectioned(c.image) ==> c.header == None)
  }

  lemma FaithfulRestores(c: Dep, memory: seq<byte>)
    requires Faithful(c, memory)
    ensures Restored(c) == memory
  {
    assert memory == memory[..HEAD] + memory[HEAD..];
    assert c.image == c.image[..HEAD] + c.image[HEAD..];
  }

  /** A header unlike the record's is seen by the header check. */
  lemma HeaderTells(c: Dep, a: seq<byte>, b: seq<byte>, now: seq<byte>)
    requires Faithful(c, a) && HEAD <= |now| && now <= b
    requires HeaderChanges(AsHeld(c), now) == []
    ensures a[..HEAD] == b[..HEAD]
  {
    var previous := Previous(AsHeld(c));
    forall x | 0 <= x < HEAD
      ensures a[..HEAD][x] == b[..HEAD][x]
    {
      assert x !in HeaderChanges(AsHeld(c), now);
      assert previous[x] == a[..HEAD][x];
    }
  }

  lemma SameHeader(a: seq<byte>, b: seq<byte>, same: bool)
    requires Later(a, b, same) && a[..HEAD] == b[..HEAD]
    ensures same
  {
    forall x | 0 <= x < HEAD
      ensures a[x] == b[x]
    {
      assert a[..HEAD][x] == b[..HEAD][x];
    }
  }

  /** Where the ends of a deployment are found to be those of the memory, the enabling is the deployment's. */
  lemma SegmentReadTells(c: Dep, a: seq<byte>, b: seq<byte>, same: bool)
    requires Faithful(c, a) && Later(a, b, same) && SegmentRead(c, b)
    ensures same && |c.image| < |b|
  {
    hide BothEnds, HeaderChanges, Apart, LogsOn, Previous, IsSectioned;
    assert b[..|b|] == b;
    assert CHUNK >= HEAD;
    HeaderTells(c, a, b, b[..Min(CHUNK, |c.image|)]);
    SameHeader(a, b, same);
  }

  /** The record of an image that follows the candidate stands for the memory, which is of the candidate's enabling. */
  lemma FollowingIsFaithful(e: Downloaded, c: Dep, dep: Dep, a: seq<byte>, b: seq<byte>, same: bool, full: bool,
                            parsed: seq<byte> -> Option<nat>)
    requires Faithful(c, a) && Later(a, b, same) && Follows(e, AsHeld(c), full, b, parsed)
    requires e.image == dep.image && e.headerNow == dep.header
    ensures same && Faithful(dep, b)
  {
    hide Verified, Appended, Later, Previous, IsSectioned, Identity, Faithful;
    if IsSectioned(c.image) {
      SectionedIsFaithful(c, dep, a, b, same);
    } else if Verified(e, AsHeld(c), b, |b|) {
      VerifiedIsFaithful(e, c, dep, a, b, same);
    } else {
      AppendedIsFaithful(e, c, dep, a, b, same);
    }
  }

  lemma SectionedIsFaithful(c: Dep, dep: Dep, a: seq<byte>, b: seq<byte>, same: bool)
    requires Faithful(c, a) && Later(a, b, same) && IsSectioned(c.image)
    requires c.image <= b && dep.image == b && dep.header == None
    ensures same && Faithful(dep, b)
  {
    hide Apart, LogsOn, IsSectioned;
    assert c.image[..HEAD] == b[..HEAD];
    SameHeader(a, b, same);
  }

  lemma VerifiedIsFaithful(e: Downloaded, c: Dep, dep: Dep, a: seq<byte>, b: seq<byte>, same: bool)
    requires Faithful(c, a) && Later(a, b, same) && !IsSectioned(c.image) && Verified(e, AsHeld(c), b, |b|)
    requires e.image == dep.image && e.headerNow == dep.header
    ensures same && Faithful(dep, b)
  {
    hide HeaderChanges;
    var held := AsHeld(c);
    assert b[..|b|] == b;
    if |c.image| == HEAD {
      HeaderTells(c, a, b, b);
      SameHeader(a, b, same);
    } else {
      SameData(e, c, a, b);
    }
    KeepsHeader(e, c, dep, b);
  }

  lemma SameData(e: Downloaded, c: Dep, a: seq<byte>, b: seq<byte>)
    requires Faithful(c, a) && Extends(e, AsHeld(c), b, |b|, HEAD)
    ensures |a| <= |b| && forall x :: HEAD <= x < |a| ==> a[x] == b[x]
  {
    forall x | HEAD <= x < |a|
      ensures a[x] == b[x]
    {
      assert a[x] == a[HEAD..][x - HEAD] == c.image[HEAD..][x - HEAD] == c.image[x];
      assert e.image[x] == b[HEAD..][x - HEAD];
    }
  }

  lemma KeepsHeader(e: Downloaded, c: Dep, dep: Dep, b: seq<byte>)
    requires HEAD <= |c.image| && HEAD <= |b| && !IsSectioned(c.image) && Extends(e, AsHeld(c), b, |b|, HEAD)
    requires e.headerNow == HeaderNow(AsHeld(c), b)
             || e.headerNow == HeaderNow(AsHeld(c), b[..Min(CHUNK, |c.image|)])
    requires e.image == dep.image && e.headerNow == dep.header
    ensures Faithful(dep, b)
  {
    assert CHUNK >= HEAD;
    assert b[..Min(CHUNK, |c.image|)][..HEAD] == b[..HEAD];
    assert b[HEAD..|b|] == b[HEAD..];
    assert e.image[HEAD..] == b[HEAD..];
    assert e.image[..HEAD] == c.image[..HEAD];
    assert forall i :: 0 <= i < 3 ==> e.image[i] == c.image[i];
  }

  lemma AppendedIsFaithful(e: Downloaded, c: Dep, dep: Dep, a: seq<byte>, b: seq<byte>, same: bool)
    requires Faithful(c, a) && Later(a, b, same) && !IsSectioned(c.image) && Appended(e, AsHeld(c), b, |b|)
    requires e.image == dep.image && e.headerNow == dep.header
    ensures same && Faithful(dep, b)
  {
    hide HeaderChanges, BothEnds;
    var n := |c.image|;
    assert CHUNK >= HEAD;
    HeaderTells(c, a, b, b[..Min(CHUNK, n)]);
    SameHeader(a, b, same);
    forall x | HEAD <= x < n
      ensures c.image[x] == b[x]
    {
      assert c.image[HEAD..][x - HEAD] == a[HEAD..][x - HEAD] == a[x];
    }
    ExtendsExactly(e, AsHeld(c), b, HEAD);
    KeepsHeader(e, c, dep, b);
  }

  // ---- what every run keeps ----

  /** The record that step k of a run wrote. */
  function NewRecord(ws: seq<World>, k: nat): Option<Rec>
    requires k + 1 < |ws|
  {
    var before, after := ws[k].disk.records, ws[k + 1].disk.records;
    if |before| < |after| then Some(after[|after| - 1]) else None
  }

  function NewDep(ws: seq<World>, k: nat): Option<Dep>
    requires k + 1 < |ws|
  {
    var r := NewRecord(ws, k);
    if r.Some? then r.value.dep else None
  }

  ghost predicate NewPartFrom(ws: seq<World>, m: nat)
    requires m < |ws|
  {
    NewPart in ws[m].parts ==>
      exists k :: 0 <= k <= m && ws[k].memory != [] && ws[m].parts[NewPart] <= ws[k].memory
  }

  /** A part file of what follows n bytes of a deployment was read on the enabling that world k is of. */
  ghost predicate SegmentFrom(ws: seq<World>, m: nat, stem: nat, n: nat, k: nat)
    requires k <= m < |ws|
  {
    SegmentPart(stem, n) in ws[m].parts ==>
      exists j :: 0 <= j <= m && ws[j].enabled == ws[k].enabled && HEAD <= n <= |ws[j].memory|
                  && ws[m].parts[SegmentPart(stem, n)] <= ws[j].memory[n..]
  }

  /** Step k wrote the last record of any deployment before world m, and that record stands for the memory of its
      time. */
  ghost predicate CandidateFrom(ws: seq<World>, m: nat, k: nat, c: Dep)
    requires k < m < |ws|
  {
    && NewDep(ws, k) == Some(c) && ws[k].memory != [] && Faithful(c, ws[k].memory)
    && (forall i :: k < i < m ==> NewDep(ws, i) == None)
    && (forall n :: SegmentFrom(ws, m, c.stem, n, k))
  }

  ghost predicate RunInv(ws: seq<World>, m: nat)
    requires m < |ws|
  {
    && Inv(ws[m].disk, ws[m].clock) && NewPartFrom(ws, m)
    && (forall s: nat, n: nat :: SegmentPart(s, n) in ws[m].parts ==> s < ws[m].clock)
    && (CandidateDep(ws[m].disk).Some? ==>
          exists k :: 0 <= k < m && CandidateFrom(ws, m, k, CandidateDep(ws[m].disk).value))
    && (CandidateDep(ws[m].disk).None? ==> forall i :: 0 <= i < m ==> NewDep(ws, i) == None)
  }

  /** On every world of a run, the part files an offload would use hold what the memory holds. */
  lemma PartsSound(ws: seq<World>, parsed: seq<byte> -> Option<nat>, m: nat)
    requires Run(ws, parsed) && TellApart(ws) && m < |ws| && RunInv(ws, m)
    ensures SoundFor(CandidateDep(ws[m].disk), ws[m].parts, ws[m].memory)
  {
    hide Run, TellApart, Inv, Candidate, Sound, SegmentRead, Faithful;
    var w := ws[m];
    if w.memory != [] {
      NewPartOfRun(ws, parsed, m);
      if CandidateDep(w.disk).Some? && SegmentRead(CandidateDep(w.disk).value, w.memory) {
        SegmentOfRun(ws, parsed, m, CandidateDep(w.disk).value);
      }
    }
  }

  lemma NewPartOfRun(ws: seq<World>, parsed: seq<byte> -> Option<nat>, m: nat)
    requires Run(ws, parsed) && TellApart(ws) && m < |ws| && NewPartFrom(ws, m) && ws[m].memory != []
    ensures Sound(Get(ws[m].parts, NewPart), ws[m].memory, |ws[m].memory|, 0)
  {
    hide Run, TellApart, Later;
    var w := ws[m];
    if NewPart in w.parts {
      var k :| 0 <= k <= m && ws[k].memory != [] && w.parts[NewPart] <= ws[k].memory;
      IsLater(ws, parsed, k, m);
      NewPartSound(w.parts[NewPart], ws[k].memory, w.memory, ws[k].enabled == w.enabled);
    }
  }

  lemma SegmentOfRun(ws: seq<World>, parsed: seq<byte> -> Option<nat>, m: nat, c: Dep)
    requires Run(ws, parsed) && TellApart(ws) && m < |ws| && ws[m].memory != [] && SegmentRead(c, ws[m].memory)
    requires exists k :: 0 <= k < m && CandidateFrom(ws, m, k, c)
    ensures |c.image| < |ws[m].memory|
    ensures Sound(Get(ws[m].parts, SegmentOf(c)), ws[m].memory, |ws[m].memory|, |c.image|)
  {
    hide Run, TellApart, Later, SegmentRead, Faithful, LogsOn;
    var w, n := ws[m], |c.image|;
    var k :| 0 <= k < m && CandidateFrom(ws, m, k, c);
    IsLater(ws, parsed, k, m);
    SegmentReadTells(c, ws[k].memory, w.memory, ws[k].enabled == w.enabled);
    if SegmentOf(c) in w.parts {
      assert SegmentFrom(ws, m, c.stem, n, k);
      var j :| 0 <= j <= m && ws[j].enabled == ws[k].enabled && HEAD <= n <= |ws[j].memory|
               && w.parts[SegmentPart(c.stem, n)] <= ws[j].memory[n..];
      EarlierMemory(ws, parsed, j, m);
      SegmentSound(w.parts[SegmentOf(c)], ws[j].memory, w.memory, n);
    }
  }

  // ---- one step ----

  lemma LeavesRecords(d: Disk, tag: nat, p: Progress)
    requires Possible(d, p)
    ensures var d' := Leaves(d, tag, p);
            && (p.Recorded() ==> |d'.records| == |d.records| + 1 && d'.records[..|d.records|] == d.records
                                 && d'.records[|d.records|].tag == tag)
            && (!p.Recorded() ==> d'.records == d.records)
    ensures CandidateDep(Leaves(d, tag, p)) ==
            if p.Recorded() && Leaves(d, tag, p).records[|d.records|].dep.Some?
            then Leaves(d, tag, p).records[|d.records|].dep else CandidateDep(d)
  {
    var d' := Leaves(d, tag, p);
    if p.Recorded() {
      assert d'.records[..|d.records|] == d.records;
      CandidateOfPrefix(d.records, d'.records, |d.records|);
    }
  }

  lemma {:induction false} CandidateOfPrefix(a: seq<Rec>, b: seq<Rec>, n: nat)
    requires n <= |a| <= |b| && a == b[..|a|]
    ensures Candidate(a, n) == Candidate(b, n)
  {
    if n > 0 {
      CandidateOfPrefix(a, b, n - 1);
    }
  }

  /** The record an offload of the run writes stands for the memory, and if it extends the candidate the enabling is the
      candidate's. */
  lemma RecordIsFaithful(ws: seq<World>, parsed: seq<byte> -> Option<nat>, m: nat, r: Rec, full: bool, dep: Dep)
    requires Run(ws, parsed) && TellApart(ws) && m + 1 < |ws| && RunInv(ws, m)
    requires Recorded(ws[m].disk, r, ws[m].memory, full, parsed) && r.dep == Some(dep)
    ensures ws[m].memory != [] && Faithful(dep, ws[m].memory)
    ensures dep.stem != r.tag ==>
              && CandidateDep(ws[m].disk).Some? && CandidateDep(ws[m].disk).value.stem == dep.stem
              && forall k :: 0 <= k < m && CandidateFrom(ws, m, k, CandidateDep(ws[m].disk).value) ==>
                   ws[k].enabled == ws[m].enabled
    ensures dep.stem == r.tag ==> dep.header == None
  {
    hide TellApart, Candidate, Inv, Later, Step, SegmentFrom, Follows, Refused;
    var memory := ws[m].memory;
    if dep.stem == r.tag {
      assert HEAD <= |memory|;
    } else {
      var c := CandidateDep(ws[m].disk).value;
      var e: Downloaded :| e.image == dep.image && e.headerNow == dep.header
                           && Follows(e, AsHeld(c), full, memory, parsed);
      forall k | 0 <= k < m && CandidateFrom(ws, m, k, c)
        ensures ws[k].enabled == ws[m].enabled && Faithful(dep, memory)
      {
        hide Faithful;
        IsLater(ws, parsed, k, m);
        FollowingIsFaithful(e, c, dep, ws[k].memory, memory, ws[k].enabled == ws[m].enabled, full, parsed);
      }
    }
  }

  /** A step that touches neither disk nor part files. */
  lemma IdleKeepsInv(ws: seq<World>, m: nat)
    requires m + 1 < |ws| && RunInv(ws, m)
    requires ws[m + 1].disk == ws[m].disk && ws[m + 1].parts == ws[m].parts && ws[m + 1].clock == ws[m].clock
    ensures RunInv(ws, m + 1)
  {
    hide Inv, Candidate, Faithful;
    assert NewDep(ws, m) == None;
    if CandidateDep(ws[m].disk).Some? {
      var c := CandidateDep(ws[m].disk).value;
      var k :| 0 <= k < m && CandidateFrom(ws, m, k, c);
      var m' := m + 1;
      forall n: nat
        ensures SegmentFrom(ws, m', c.stem, n, k)
      {
        assert SegmentFrom(ws, m, c.stem, n, k);
      }
      assert CandidateFrom(ws, m', k, c);
    }
  }

  /** What an offload leaves of a part file is what was there, or what the memory it read begins with. */
  lemma PartLeft(ws: seq<World>, m: nat, recorded: bool, name: PartName)
    requires m + 1 < |ws| && name in ws[m + 1].parts
    requires var w := ws[m];
             && SoundFor(CandidateDep(w.disk), w.parts, w.memory)
             && PartsLeft(CandidateDep(w.disk), w.parts, ws[m + 1].parts, w.memory, recorded)
    ensures var w, bytes := ws[m], ws[m + 1].parts[name];
            || Get(w.parts, name) == Some(bytes)
            || (w.memory != []
                && match name
                   case NewPart => bytes <= w.memory
                   case SegmentPart(s, n) =>
                     && CandidateDep(w.disk).Some? && name == SegmentOf(CandidateDep(w.disk).value)
                     && SegmentRead(CandidateDep(w.disk).value, w.memory)
                     && n <= |w.memory| && bytes <= w.memory[n..])
  {
    hide Candidate, Attempt, Sound, IsSectioned, BothEnds, HeaderChanges;
    var w, c := ws[m], CandidateDep(ws[m].disk);
    var mid :| PartsRead(c, w.parts, mid, w.memory) && Fewer(ws[m + 1].parts, mid)
               && (recorded || ws[m + 1].parts == mid);
    assert Get(mid, name) == Some(ws[m + 1].parts[name]);
    if Get(mid, name) != Get(w.parts, name) {
      assert w.memory[0..|w.memory|] == w.memory;
      var n := if name.NewPart? then 0 else |c.value.image|;
      assert w.memory[n..|w.memory|] == w.memory[n..];
      AttemptLeaves(Get(w.parts, name), Get(mid, name), w.memory, |w.memory|, n);
    }
  }

  /** Step m of the run is an offload. */
  ghost predicate StepOffloads(ws: seq<World>, parsed: seq<byte> -> Option<nat>, m: nat, tag: nat, full: bool,
                               recorded: bool)
  {
    && Run(ws, parsed) && TellApart(ws) && m + 1 < |ws| && RunInv(ws, m)
    && Offloaded(ws[m], ws[m + 1], tag, full, parsed, recorded)
  }

  lemma NewPartKept(ws: seq<World>, parsed: seq<byte> -> Option<nat>, m: nat, tag: nat, full: bool, recorded: bool)
    requires StepOffloads(ws, parsed, m, tag, full, recorded)
    ensures NewPartFrom(ws, m + 1)
  {
    hide Run, TellApart, Inv, Candidate, SoundFor, PartsLeft, Recorded, CandidateFrom;
    PartsSound(ws, parsed, m);
    if NewPart in ws[m + 1].parts {
      PartLeft(ws, m, recorded, NewPart);
    }
  }

  lemma StemsKept(ws: seq<World>, parsed: seq<byte> -> Option<nat>, m: nat, tag: nat, full: bool, recorded: bool,
                  s: nat, n: nat)
    requires StepOffloads(ws, parsed, m, tag, full, recorded) && SegmentPart(s, n) in ws[m + 1].parts
    ensures s < ws[m].clock
  {
    hide Run, TellApart, Inv, Candidate, SoundFor, PartsLeft, Recorded, CandidateFrom, SegmentRead;
    PartsSound(ws, parsed, m);
    PartLeft(ws, m, recorded, SegmentPart(s, n));
    if CandidateDep(ws[m].disk).Some? {
      CandidateIsOld(ws[m].disk, ws[m].clock);
    }
  }

  lemma CandidateIsOld(d: Disk, clock: nat)
    requires Inv(d, clock) && CandidateDep(d).Some?
    ensures CandidateDep(d).value.stem < clock
  {
    hide Candidate;
    var k := CandidateIsLast(d.records, |d.records|);
    StemsAreOld(d, clock, k);
  }

  lemma SegmentKept(ws: seq<World>, parsed: seq<byte> -> Option<nat>, m: nat, tag: nat, full: bool, recorded: bool,
                    k: nat, n: nat)
    requires StepOffloads(ws, parsed, m, tag, full, recorded) && CandidateDep(ws[m].disk).Some?
    requires k < m && CandidateFrom(ws, m, k, CandidateDep(ws[m].disk).value)
    ensures SegmentFrom(ws, m + 1, CandidateDep(ws[m].disk).value.stem, n, k)
  {
    hide Run, TellApart, Inv, Candidate, SoundFor, PartsLeft, Recorded, SegmentRead, Later;
    var c, w := CandidateDep(ws[m].disk).value, ws[m];
    var name := SegmentPart(c.stem, n);
    if name in ws[m + 1].parts {
      PartsSound(ws, parsed, m);
      PartLeft(ws, m, recorded, name);
      if Get(w.parts, name) == Some(ws[m + 1].parts[name]) {
        assert SegmentFrom(ws, m, c.stem, n, k);
      } else {
        IsLater(ws, parsed, k, m);
        SegmentReadTells(c, ws[k].memory, w.memory, ws[k].enabled == w.enabled);
      }
    }
  }

  /** An offload that records nothing of a deployment leaves the candidate. */
  lemma CandidateKept(ws: seq<World>, parsed: seq<byte> -> Option<nat>, m: nat, tag: nat, full: bool, recorded: bool)
    returns (k: nat)
    requires StepOffloads(ws, parsed, m, tag, full, recorded) && NewDep(ws, m) == None
    requires CandidateDep(ws[m + 1].disk) == CandidateDep(ws[m].disk) && CandidateDep(ws[m].disk).Some?
    ensures k < m && CandidateFrom(ws, m + 1, k, CandidateDep(ws[m].disk).value)
  {
    hide Run, TellApart, Inv, Candidate, Offloaded, Recorded, SegmentFrom, Faithful;
    var c, m' := CandidateDep(ws[m].disk).value, m + 1;
    k :| 0 <= k < m && CandidateFrom(ws, m, k, c);
    forall n: nat
      ensures SegmentFrom(ws, m', c.stem, n, k)
    {
      SegmentKept(ws, parsed, m, tag, full, recorded, k, n);
    }
  }

  /** The deployment an offload has recorded is the candidate from then on. */
  lemma CandidateMade(ws: seq<World>, parsed: seq<byte> -> Option<nat>, m: nat, tag: nat, full: bool, r: Rec, dep: Dep)
    requires StepOffloads(ws, parsed, m, tag, full, true) && NewRecord(ws, m) == Some(r) && r == Rec(tag, Some(dep))
    requires Recorded(ws[m].disk, r, ws[m].memory, full, parsed)
    ensures CandidateFrom(ws, m + 1, m, dep)
  {
    hide Run, TellApart, Inv, Candidate, Offloaded, Recorded, Faithful, SegmentFrom;
    var m' := m + 1;
    RecordIsFaithful(ws, parsed, m, r, full, dep);
    forall n: nat
      ensures SegmentFrom(ws, m', dep.stem, n, m)
    {
      if dep.stem == tag {
        NoSegmentYet(ws, parsed, m, tag, full, n);
      } else {
        var c := CandidateDep(ws[m].disk).value;
        var k :| 0 <= k < m && CandidateFrom(ws, m, k, c);
        SegmentKept(ws, parsed, m, tag, full, true, k, n);
        SameSegment(ws, m', dep.stem, n, k, m);
      }
    }
  }

  lemma SameSegment(ws: seq<World>, m: nat, stem: nat, n: nat, k: nat, k': nat)
    requires k <= m < |ws| && k' <= m && ws[k].enabled == ws[k'].enabled && SegmentFrom(ws, m, stem, n, k)
    ensures SegmentFrom(ws, m, stem, n, k')
  {
  }

  lemma NoSegmentYet(ws: seq<World>, parsed: seq<byte> -> Option<nat>, m: nat, tag: nat, full: bool, n: nat)
    requires StepOffloads(ws, parsed, m, tag, full, true)
    ensures SegmentFrom(ws, m + 1, tag, n, m)
  {
    hide Run, TellApart, RunInv, Outcome;
    if SegmentPart(tag, n) in ws[m + 1].parts {
      StemsKept(ws, parsed, m, tag, full, true, tag, n);
    }
  }

  lemma OffloadKeepsInv(ws: seq<World>, parsed: seq<byte> -> Option<nat>, m: nat, tag: nat, full: bool, recorded: bool)
    requires StepOffloads(ws, parsed, m, tag, full, recorded)
    ensures RunInv(ws, m + 1)
    ensures NewRecord(ws, m).Some? ==>
              NewRecord(ws, m).value.tag == tag
              && Recorded(ws[m].disk, NewRecord(ws, m).value, ws[m].memory, full, parsed)
  {
    hide Run, TellApart, Inv, Candidate, Recorded, SoundFor, PartsLeft, Leaves, Possible, NewPartFrom, CandidateFrom;
    var d, d' := ws[m].disk, ws[m + 1].disk;
    var p :| Possible(d, p) && d' == Leaves(d, tag, p) && recorded == p.Recorded();
    StepKeepsInv(d, ws[m].clock, tag, p);
    LeavesRecords(d, tag, p);
    PartsSound(ws, parsed, m);
    NewPartKept(ws, parsed, m, tag, full, recorded);
    forall s: nat, n: nat | SegmentPart(s, n) in ws[m + 1].parts
      ensures s < ws[m + 1].clock
    {
      StemsKept(ws, parsed, m, tag, full, recorded, s, n);
    }
    if NewDep(ws, m).Some? {
      CandidateMade(ws, parsed, m, tag, full, NewRecord(ws, m).value, NewDep(ws, m).value);
    } else if CandidateDep(d).Some? {
      var k := CandidateKept(ws, parsed, m, tag, full, recorded);
    }
  }

  lemma {:induction false} RunKeeps(ws: seq<World>, parsed: seq<byte> -> Option<nat>, m: nat)
    requires Run(ws, parsed) && TellApart(ws) && m < |ws|
    ensures RunInv(ws, m)
  {
    hide TellApart, Inv, Outcome, NewPartFrom, CandidateFrom, LogsOn;
    if m == 0 {
      Beginning(ws, parsed);
    } else {
      var k := m - 1;
      var w, w' := ws[k], ws[m];
      RunKeeps(ws, parsed, k);
      assert Step(ws[k], ws[k + 1], parsed);
      if tag, full, recorded :| Offloaded(w, w', tag, full, parsed, recorded) {
        OffloadKeepsInv(ws, parsed, k, tag, full, recorded);
      } else {
        IdleKeepsInv(ws, k);
      }
    }
  }

  lemma Beginning(ws: seq<World>, parsed: seq<byte> -> Option<nat>)
    requires Run(ws, parsed)
    ensures RunInv(ws, 0)
  {
    hide Step;
  }

  /** The step that wrote a record was an offload of what the logger held. */
  lemma RecordingStep(ws: seq<World>, parsed: seq<byte> -> Option<nat>, m: nat) returns (full: bool)
    requires Run(ws, parsed) && TellApart(ws) && m + 1 < |ws| && NewRecord(ws, m).Some?
    ensures RunInv(ws, m) && Inv(ws[m].disk, ws[m].clock) && ws[m].clock <= NewRecord(ws, m).value.tag
    ensures Recorded(ws[m].disk, NewRecord(ws, m).value, ws[m].memory, full, parsed)
  {
    hide TellApart, Inv, Outcome, NewPartFrom, CandidateFrom, LogsOn, Recorded;
    RunKeeps(ws, parsed, m);
    assert Step(ws[m], ws[m + 1], parsed);
    var tag, full', recorded :| Offloaded(ws[m], ws[m + 1], tag, full', parsed, recorded);
    OffloadKeepsInv(ws, parsed, m, tag, full', recorded);
    full := full';
  }

  // ---- what a run promises ----

  /** Whatever was interrupted before, an offload that nothing interrupts can complete: the part files it would use are
      sound, and the disk is in order. */
  lemma OffloadsCanComplete(ws: seq<World>, parsed: seq<byte> -> Option<nat>, m: nat)
    requires Run(ws, parsed) && TellApart(ws) && m < |ws|
    ensures Inv(ws[m].disk, ws[m].clock)
    ensures SoundFor(CandidateDep(ws[m].disk), ws[m].parts, ws[m].memory)
  {
    hide Run, TellApart, Inv, NewPartFrom, CandidateFrom, SoundFor;
    RunKeeps(ws, parsed, m);
    PartsSound(ws, parsed, m);
  }

  /** A record holds the memory of the time it was made, byte for byte, or says that it was empty. */
  lemma RecordIsTrue(ws: seq<World>, parsed: seq<byte> -> Option<nat>, k: nat)
    requires Run(ws, parsed) && TellApart(ws) && k + 1 < |ws| && NewRecord(ws, k).Some?
    ensures ws[k].memory == if NewDep(ws, k).Some? then Restored(NewDep(ws, k).value) else []
  {
    hide Run, TellApart, Inv, RunInv, CandidateDep;
    var full := RecordingStep(ws, parsed, k);
    if NewDep(ws, k).Some? {
      hide Recorded, Faithful, Restored;
      RecordIsFaithful(ws, parsed, k, NewRecord(ws, k).value, full, NewDep(ws, k).value);
      FaithfulRestores(NewDep(ws, k).value, ws[k].memory);
    }
  }

  /** So every record on disk holds the memory of the time it was made. */
  lemma {:induction false} EveryRecordIsTrue(ws: seq<World>, parsed: seq<byte> -> Option<nat>, m: nat, i: nat)
    returns (k: nat)
    requires Run(ws, parsed) && TellApart(ws) && m < |ws| && i < |ws[m].disk.records|
    ensures k < m && |ws[k].disk.records| == i && NewRecord(ws, k) == Some(ws[m].disk.records[i])
    ensures var r := ws[m].disk.records[i];
            ws[k].memory == if r.dep.Some? then Restored(r.dep.value) else []
  {
    hide TellApart, Restored, Outcome, LogsOn;
    assert m > 0;
    var p := m - 1;
    RecordsGrow(ws, parsed, p);
    if i < |ws[p].disk.records| {
      k := EveryRecordIsTrue(ws, parsed, p, i);
      assert ws[m].disk.records[..|ws[p].disk.records|][i] == ws[p].disk.records[i];
    } else {
      k := p;
      RecordIsTrue(ws, parsed, k);
    }
  }

  lemma RecordsGrow(ws: seq<World>, parsed: seq<byte> -> Option<nat>, k: nat)
    requires Run(ws, parsed) && k + 1 < |ws|
    ensures var n, records := |ws[k].disk.records|, ws[k + 1].disk.records;
            n <= |records| <= n + 1 && records[..n] == ws[k].disk.records
  {
    hide Possible, Leaves, PartsLeft, SoundFor, Recorded, LogsOn;
    var w, w' := ws[k], ws[k + 1];
    assert Step(w, w', parsed);
    if tag, full, recorded :| Offloaded(w, w', tag, full, parsed, recorded) {
      var p :| Possible(w.disk, p) && w'.disk == Leaves(w.disk, tag, p) && recorded == p.Recorded();
      LeavesRecords(w.disk, tag, p);
    } else {
      assert w'.disk == w.disk;
    }
  }

  /** No deployment mixes two enablings of the logger. */
  lemma {:induction false} OneEnablingPerDeployment(ws: seq<World>, parsed: seq<byte> -> Option<nat>, k: nat, m: nat)
    requires Run(ws, parsed) && TellApart(ws) && k < m && m + 1 < |ws|
    requires NewDep(ws, k).Some? && NewDep(ws, m).Some? && NewDep(ws, k).value.stem == NewDep(ws, m).value.stem
    ensures ws[k].enabled == ws[m].enabled
    decreases m
  {
    hide Run, TellApart, Inv, NewPartFrom, Recorded, Faithful, CandidateDep, SegmentFrom;
    var full := RecordingStep(ws, parsed, m);
    var r, dep := NewRecord(ws, m).value, NewDep(ws, m).value;
    RecordIsFaithful(ws, parsed, m, r, full, dep);
    if dep.stem == r.tag {
      MadeBefore(ws, parsed, k, m);
    } else {
      var c := CandidateDep(ws[m].disk).value;
      var j :| 0 <= j < m && CandidateFrom(ws, m, j, c);
      if k < j {
        OneEnablingPerDeployment(ws, parsed, k, j);
      }
    }
  }

  lemma MadeBefore(ws: seq<World>, parsed: seq<byte> -> Option<nat>, k: nat, m: nat)
    requires Run(ws, parsed) && TellApart(ws) && k < m < |ws| && NewDep(ws, k).Some?
    ensures NewDep(ws, k).value.stem < ws[m].clock
  {
    hide TellApart, Inv, Recorded, Outcome, LogsOn;
    RunKeeps(ws, parsed, k + 1);
    LastIsCandidate(ws[k + 1].disk, NewDep(ws, k).value);
    CandidateIsOld(ws[k + 1].disk, ws[k + 1].clock);
    ClockAdvances(ws, parsed, k + 1, m);
  }

  lemma LastIsCandidate(d: Disk, dep: Dep)
    requires |d.records| > 0 && d.records[|d.records| - 1].dep == Some(dep)
    ensures CandidateDep(d) == Some(dep)
  {
  }

  lemma {:induction false} ClockAdvances(ws: seq<World>, parsed: seq<byte> -> Option<nat>, i: nat, j: nat)
    requires Run(ws, parsed) && i <= j < |ws|
    ensures ws[i].clock <= ws[j].clock
  {
    hide Outcome, LogsOn;
    if i < j {
      ClockAdvances(ws, parsed, i, j - 1);
      assert Step(ws[j - 1], ws[j], parsed);
    }
  }

  /** And no enabling of an RBRsolo is split: from an offload that recorded data on, every one of the same enabling
      extends its deployment. */
  lemma {:induction false} OneDeploymentPerEnabling(ws: seq<World>, parsed: seq<byte> -> Option<nat>, k: nat, m: nat)
    requires Run(ws, parsed) && TellApart(ws) && k < m && m + 1 < |ws| && ws[k].enabled == ws[m].enabled
    requires NewDep(ws, k).Some? && NewDep(ws, m).Some?
    requires !IsSectioned(NewDep(ws, k).value.image) && HEAD < |NewDep(ws, k).value.image|
    ensures NewDep(ws, k).value.stem == NewDep(ws, m).value.stem
    ensures NewDep(ws, k).value.image <= NewDep(ws, m).value.image
    decreases m
  {
    hide Run, TellApart, Inv, NewPartFrom, Recorded, Faithful, CandidateDep, SegmentFrom, LogsOn;
    RunKeeps(ws, parsed, m);
    var full := RecordingStep(ws, parsed, m);
    var c := CandidateDep(ws[m].disk).value;
    var j :| 0 <= j < m && CandidateFrom(ws, m, j, c);
    EarlierMemory(ws, parsed, k, j);
    EarlierMemory(ws, parsed, j, m);
    if k < j {
      OneDeploymentPerEnabling(ws, parsed, k, j);
      assert !IsSectioned(c.image);
    }
    hide IsSectioned;
    StillHeld(c, ws[j].memory, ws[m].memory, parsed);
    DeploymentIsRecognised(ws[m].disk, NewRecord(ws, m).value, ws[m].memory, full, parsed);
    Extended(ws[m].disk, NewRecord(ws, m).value, ws[m].memory, full, parsed);
  }

  lemma StillHeld(c: Dep, a: seq<byte>, b: seq<byte>, parsed: seq<byte> -> Option<nat>)
    requires Faithful(c, a) && LogsOn(a, b) && HEAD < |c.image| && !IsSectioned(c.image)
    ensures StillHolds(AsHeld(c), b, parsed)
  {
    hide HeaderChanges;
    forall i | HEAD <= i < |c.image|
      ensures c.image[i] == b[i]
    {
      assert c.image[HEAD..][i - HEAD] == a[HEAD..][i - HEAD] == a[i];
    }
  }

  /** A record that follows the candidate has an image that begins with the candidate's. */
  lemma Extended(d: Disk, r: Rec, memory: seq<byte>, full: bool, parsed: seq<byte> -> Option<nat>)
    requires Recorded(d, r, memory, full, parsed) && r.dep.Some? && CandidateDep(d).Some?
    requires StillHolds(AsHeld(CandidateDep(d).value), memory, parsed)
    ensures CandidateDep(d).value.image <= r.dep.value.image
  {
    hide Candidate, StillHolds, Refused, HeaderChanges, HeaderNow, Identity, BothEnds;
    RefusedExactly(AsHeld(CandidateDep(d).value), memory, parsed);
  }

  // ---- a run ----

  function Header(b: byte): (h: seq<byte>)
    ensures |h| == HEAD && forall i :: 0 <= i < |h| ==> h[i] == b
  {
    seq(HEAD, _ => b)
  }

  /** A logger that is enabled, offloaded, and enabled again. */
  function ShortRun(): (ws: seq<World>)
    ensures |ws| == 4
  {
    var recorded := Disk(map[0 := Header(1)], [Rec(0, Some(Dep(0, 0, Header(1), None)))]);
    [World(Disk(map[], []), map[], [], 0, 0),
     World(Disk(map[], []), map[], Header(1), 0, 0),
     World(recorded, map[], Header(1), 0, 1),
     World(recorded, map[], Header(2), 1, 1)]
  }

  lemma FirstOffload(parsed: seq<byte> -> Option<nat>)
    ensures Offloaded(ShortRun()[1], ShortRun()[2], 0, false, parsed, true)
  {
    hide Sound, Attempt, IsSectioned, BothEnds, HeaderChanges;
    var w, w' := ShortRun()[1], ShortRun()[2];
    var p := Starting(false, w.memory, true, None);
    assert CandidateDep(w.disk) == None;
    assert Possible(w.disk, p) && w'.disk == Leaves(w.disk, 0, p);
    NothingRead(None, w.parts, w.memory);
    NoneFewer(w.parts);
    assert Recorded(w.disk, w'.disk.records[0], w.memory, false, parsed);
  }

  /** Such runs exist. */
  lemma RunsExist(parsed: seq<byte> -> Option<nat>)
    ensures Run(ShortRun(), parsed) && TellApart(ShortRun())
    ensures NewDep(ShortRun(), 1).Some?
  {
    hide Outcome;
    var ws := ShortRun();
    assert Logged(ws[0], ws[1]);
    FirstOffload(parsed);
    assert Offloaded(ws[1], ws[2], 0, false, parsed, true);
    assert Enabled(ws[2], ws[3]);
    assert Header(1)[0] != Header(2)[0];
  }
}
