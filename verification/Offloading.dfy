/** Offloading a logger into the files and records on disk. Any step can fail or be interrupted, and the next offload
    starts from whatever the last one left. */
module Offloading {
  import opened Basics
  import opened Download
  import opened IncrementalDownload
  import opened Store
  import opened StoreLaws

  /** The partial downloads of a logger: of a new deployment, or of what follows the first `from` bytes of one. */
  datatype PartName = NewPart | SegmentPart(stem: nat, from: nat)

  /** A deployment found on disk: its records in order, and its image, checked against the latest of them. */
  datatype Deployment = Deployment(stem: nat, records: seq<Entry>, data: seq<byte>) {
    predicate Sane() {
      && records != [] && data == records[|records| - 1].dep.image
      && stem == records[|records| - 1].dep.stem
    }

    function Latest(): Dep
      requires Sane()
    {
      records[|records| - 1].dep
    }
  }

  /** What a download is compared with: the image a record describes, and the header it keeps. */
  function AsHeld(c: Dep): Held {
    Held(c.image, c.header)
  }

  /** The last record of any deployment, which is the one an offload tries to extend. */
  function CandidateDep(d: Disk): Option<Dep> {
    var c := Candidate(d.records, |d.records|);
    if c.Some? then Some(c.value.dep) else None
  }

  /** A download, and whether it extends the deployment on disk or starts a new one. */
  datatype Fetched = Fetched(d: Downloaded, follows: bool)

  function Get(parts: map<PartName, seq<byte>>, name: PartName): Option<seq<byte>> {
    if name in parts then Some(parts[name]) else None
  }

  function Put(parts: map<PartName, seq<byte>>, name: PartName, bytes: Option<seq<byte>>): map<PartName, seq<byte>> {
    if bytes.Some? then parts[name := bytes.value] else parts - {name}
  }

  /** An image that a download found to follow the one on disk. */
  ghost predicate Follows(d: Downloaded, held: Held, full: bool, seen: seq<byte>, parsed: seq<byte> -> Option<nat>) {
    if IsSectioned(held.data)
    then && Continues(held, seen, parsed)
         && d == Downloaded(seen, |held.data|, |seen| - |held.data|, FullVerified, |seen|, [], None)
    else Delivered(d, Some(held), full, seen)
  }

  /** The memory does not hold the deployment on disk, for a reason that is true of it. */
  ghost predicate Refused(held: Held, seen: seq<byte>, parsed: seq<byte> -> Option<nat>) {
    exists reason :: RefusedFor(reason, held, seen, parsed)
  }

  ghost predicate RefusedFor(reason: Reason, held: Held, seen: seq<byte>, parsed: seq<byte> -> Option<nat>) {
    if IsSectioned(held.data) then Breaks(reason, held, seen, parsed) else Justified(reason, held, seen, |seen|)
  }

  // ---- part files ----

  /** The part file for what follows a deployment's image. */
  function SegmentOf(c: Dep): PartName {
    SegmentPart(c.stem, |c.image|)
  }

  /** An offload of this memory would use that part file. */
  ghost predicate SegmentRead(c: Dep, memory: seq<byte>) {
    !IsSectioned(c.image) && SegmentUsed(AsHeld(c), memory, |memory|)
  }

  /** Of the part files, those that an offload would use hold what the memory holds. */
  ghost predicate SoundFor(c: Option<Dep>, parts: map<PartName, seq<byte>>, memory: seq<byte>) {
    memory != [] ==>
      && Sound(Get(parts, NewPart), memory, |memory|, 0)
      && (c.Some? && SegmentRead(c.value, memory) ==>
            Sound(Get(parts, SegmentOf(c.value)), memory, |memory|, |c.value.image|))
  }

  /** What reading the logger leaves of the part files: it may add to the one of a new deployment, and, where the
      candidate passes the check of its ends, to the one of what follows the candidate. */
  ghost predicate PartsRead(c: Option<Dep>, parts: map<PartName, seq<byte>>, parts': map<PartName, seq<byte>>,
                            memory: seq<byte>)
  {
    && (memory == [] ==> parts' == parts)
    && Attempt(Get(parts, NewPart), Get(parts', NewPart), memory, |memory|, 0)
    && forall name ::
         name != NewPart && Get(parts', name) != Get(parts, name) ==>
           && c.Some? && name == SegmentOf(c.value) && SegmentRead(c.value, memory)
           && Attempt(Get(parts, name), Get(parts', name), memory, |memory|, |c.value.image|)
  }

  ghost predicate Fewer(parts': map<PartName, seq<byte>>, parts: map<PartName, seq<byte>>) {
    forall name :: name in parts' ==> name in parts && parts'[name] == parts[name]
  }

  /** What an offload leaves of the part files: what reading left, and fewer of them once its record is written. */
  ghost predicate PartsLeft(c: Option<Dep>, parts: map<PartName, seq<byte>>, parts': map<PartName, seq<byte>>,
                            memory: seq<byte>, recorded: bool)
  {
    exists mid :: PartsRead(c, parts, mid, memory) && Fewer(parts', mid) && (recorded || parts' == mid)
  }

  lemma NothingRead(c: Option<Dep>, parts: map<PartName, seq<byte>>, memory: seq<byte>)
    ensures PartsRead(c, parts, parts, memory)
  {
  }

  lemma SegmentPut(c: Dep, parts: map<PartName, seq<byte>>, whole: Option<seq<byte>>, segment: Option<seq<byte>>,
                   memory: seq<byte>)
    requires !IsSectioned(c.image) && memory != []
    requires PartsAfter(Get(parts, NewPart), whole, Get(parts, SegmentOf(c)), segment, Some(AsHeld(c)), memory,
                        |memory|)
    ensures PartsRead(Some(c), parts, Put(Put(parts, NewPart, whole), SegmentOf(c), segment), memory)
  {
    hide Attempt, IsSectioned, SegmentUsed;
  }

  lemma WholePut(c: Option<Dep>, parts: map<PartName, seq<byte>>, whole: Option<seq<byte>>, memory: seq<byte>)
    requires memory != [] && Attempt(Get(parts, NewPart), whole, memory, |memory|, 0)
    ensures PartsRead(c, parts, Put(parts, NewPart, whole), memory)
  {
    hide Attempt, IsSectioned, SegmentUsed;
  }

  /** A second read of the same memory, as of a new deployment. */
  lemma ReadAgain(c: Option<Dep>, parts: map<PartName, seq<byte>>, mid: map<PartName, seq<byte>>,
                  parts': map<PartName, seq<byte>>, memory: seq<byte>)
    requires memory != [] && PartsRead(c, parts, mid, memory) && PartsRead(None, mid, parts', memory)
    ensures PartsRead(c, parts, parts', memory)
    ensures Sound(Get(parts, NewPart), memory, |memory|, 0) ==> Sound(Get(mid, NewPart), memory, |memory|, 0)
  {
    hide Attempt, Sound, SegmentRead;
    AttemptTwice(Get(parts, NewPart), Get(mid, NewPart), Get(parts', NewPart), memory, |memory|, 0);
    if Sound(Get(parts, NewPart), memory, |memory|, 0) {
      AttemptKeepsSound(Get(parts, NewPart), Get(mid, NewPart), memory, |memory|, memory, |memory|, 0);
    }
  }

  // ---- the disk ----

  lemma {:induction false} NewestIsOfStem(records: seq<Rec>, n: nat, stem: nat)
    requires n <= |records| && exists i :: 0 <= i < n && In(records[i], stem)
    ensures OfStem(records, n, stem) != []
  {
    if !In(records[n - 1], stem) {
      NewestIsOfStem(records, n - 1, stem);
    }
  }

  /** One logger's directory on a machine that, if steady, nothing interrupts. */
  class Station {
    const steady: bool
    var files: map<nat, seq<byte>>
    var records: seq<Rec>
    var parts: map<PartName, seq<byte>>

    constructor (steady: bool)
      ensures this.steady == steady && Contents() == Disk(map[], []) && parts == map[]
    {
      this.steady := steady;
      files, records, parts := map[], [], map[];
    }

    ghost function Contents(): Disk
      reads this
    {
      Disk(files, records)
    }

    /** The records of the deployment offloaded last, in order. */
    method Choose() returns (found: bool, stem: nat, es: seq<Entry>)
      ensures found <==> Newest(records, |records|).Some?
      ensures found ==> stem == Newest(records, |records|).value.dep.stem
      ensures found ==> es == Sorted(OfStem(records, |records|, stem)) != []
    {
      var newest: Option<Entry> := None;
      for i := 0 to |records|
        invariant newest == Newest(records, i)
      {
        var x := records[i];
        if x.dep.Some? && (newest.None? || newest.value.tag < x.tag
                           || (newest.value.tag == x.tag && newest.value.dep.stem <= x.dep.value.stem)) {
          newest := Some(Entry(x.tag, x.dep.value));
        }
      }
      if newest.None? {
        return false, 0, [];
      }
      stem := newest.value.dep.stem;
      var entries := [];
      for i := 0 to |records|
        invariant entries == OfStem(records, i, stem)
      {
        if In(records[i], stem) {
          entries := entries + [Entry(records[i].tag, records[i].dep.value)];
        }
      }
      NewestIsOfStem(records, |records|, stem);
      found, es := true, Sorted(entries);
    }

    /** The latest deployment on disk, its file checked against its latest record and cut back to it. None if there is
        none or the file cannot be trusted, and then nothing on disk is touched. */
    method FindDeployment() returns (r: Option<Deployment>)
      modifies this`files
      ensures Newest(records, |records|).None? ==> r.None?
      ensures r.None? ==> files == old(files)
      ensures Newest(records, |records|).Some? ==>
                var stem := Newest(records, |records|).value.dep.stem;
                var es := Sorted(OfStem(records, |records|, stem));
                && es != []
                && (r.Some? <==> stem in old(files) && es[|es| - 1].dep.image <= old(files)[stem])
                && (r.Some? ==> r.value == Deployment(stem, es, es[|es| - 1].dep.image)
                                && files == old(files)[stem := es[|es| - 1].dep.image])
    {
      hide Newest, OfStem, Sorted;
      var found, stem, es := Choose();
      if !found {
        return None;
      }
      r := CheckFile(es, stem);
    }

    /** The chosen deployment's file must start with what its latest record describes; anything past that is cut. */
    method CheckFile(es: seq<Entry>, stem: nat) returns (r: Option<Deployment>)
      requires es != []
      modifies this`files
      ensures r.None? ==> files == old(files)
      ensures r.Some? <==> stem in old(files) && es[|es| - 1].dep.image <= old(files)[stem]
      ensures r.Some? ==> r.value == Deployment(stem, es, es[|es| - 1].dep.image)
                          && files == old(files)[stem := es[|es| - 1].dep.image]
    {
      var want := es[|es| - 1].dep.image;
      if stem !in files {
        return None;
      }
      var blob := files[stem];
      if blob != want {
        if |blob| > |want| && blob[..|want|] == want {
          blob := blob[..|want|];
          files := files[stem := blob];
        } else {
          return None;
        }
      }
      assert files == old(files)[stem := want];
      r := Some(Deployment(stem, es, blob));
    }

    /** Save an image: whole and all at once for a new file, otherwise by appending what follows `offset`, of which an
        interruption can leave any prefix. */
    method StoreDataset(stem: nat, blob: seq<byte>, offset: nat) returns (whole: bool)
      requires offset <= |blob|
      modifies this`files
      ensures steady ==> whole
      ensures offset == 0 || stem !in old(files) || |old(files)[stem]| != offset ==>
                files == (if whole then old(files)[stem := blob] else old(files))
      ensures offset != 0 && stem in old(files) && |old(files)[stem]| == offset ==>
                exists k: nat :: k <= |blob| - offset && (whole ==> k == |blob| - offset)
                                 && files == old(files)[stem := old(files)[stem] + blob[offset..][..k]]
    {
      if offset == 0 || stem !in files || |files[stem]| != offset {
        whole := *;
        whole := whole || steady;
        if whole {
          files := files[stem := blob];
        }
        return;
      }
      var k: nat :| k <= |blob| - offset;
      if steady {
        k := |blob| - offset;
      }
      files := files[stem := files[stem] + blob[offset..][..k]];
      whole := k == |blob| - offset;
    }

    // ---- reading the logger ----

    /** Read the logger against the deployment on disk. */
    method FetchHeld(link: Link, held: Deployment, full: bool, parsed: seq<byte> -> Option<nat>)
      returns (r: Result<Downloaded, Failure>, ghost seen: seq<byte>)
      requires held.Sane() && link.memory != []
      modifies this`parts
      ensures r.Ok? ==> |seen| == |link.memory| && Follows(r.value, AsHeld(held.Latest()), full, seen, parsed)
      ensures r.Err? && r.error.Mismatch? && r.error.reading.Some? ==>
                r.error.reading.value == seen && |seen| == |link.memory|
      ensures r.Err? && r.error.Mismatch? ==> Refused(AsHeld(held.Latest()), seen, parsed)
      ensures SoundFor(Some(held.Latest()), old(parts), link.memory) ==>
                seen == link.memory && (steady && link.steady ==> r.Ok? || r.error.Mismatch?)
      ensures PartsRead(Some(held.Latest()), old(parts), parts, link.memory)
    {
      hide Attempt, Sound, Verified, Appended, Justified, Breaks, Continues, IsSectioned, SegmentUsed, PartsRead;
      var c := held.Latest();
      var whole := new PartFile(Get(parts, NewPart), steady);
      var segment := new PartFile(Get(parts, SegmentOf(c)), steady);
      assert link.memory[..|link.memory|] == link.memory;
      if IsSectioned(held.data) {
        r, seen := DownloadSectioned(link, |link.memory|, AsHeld(c), whole, parsed);
        WholePut(Some(c), parts, whole.bytes, link.memory);
        parts := Put(parts, NewPart, whole.bytes);
      } else {
        r, seen := DownloadPlain(link, |link.memory|, Some(AsHeld(c)), full, whole, segment);
        SegmentPut(c, parts, whole.bytes, segment.bytes, link.memory);
        parts := Put(Put(parts, NewPart, whole.bytes), SegmentOf(c), segment.bytes);
      }
      assert r.Err? && r.error.Mismatch? ==> RefusedFor(r.error.reason, AsHeld(c), seen, parsed);
    }

    /** Read the logger as a new deployment. */
    method FetchNew(link: Link, full: bool) returns (r: Option<Downloaded>, ghost seen: seq<byte>)
      requires link.memory != []
      modifies this`parts
      ensures r.Some? ==> |seen| == |link.memory| && Delivered(r.value, None, full, seen)
      ensures SoundFor(None, old(parts), link.memory) ==>
                seen == link.memory && (steady && link.steady ==> r.Some?)
      ensures PartsRead(None, old(parts), parts, link.memory)
    {
      hide Attempt, Sound, Justified, PartsRead;
      var whole := new PartFile(Get(parts, NewPart), steady);
      var segment := new PartFile(None, steady);
      assert link.memory[..|link.memory|] == link.memory;
      var got;
      got, seen := DownloadPlain(link, |link.memory|, None, full, whole, segment);
      WholePut(None, parts, whole.bytes, link.memory);
      parts := Put(parts, NewPart, whole.bytes);
      r := if got.Ok? then Some(got.value) else None;
    }

    /** What an offload has read: an image that follows the deployment on disk, or, where the logger does not hold that
        deployment, a new one. None if a read failed or was stopped. */
    method Fetch(link: Link, held: Option<Deployment>, full: bool, parsed: seq<byte> -> Option<nat>)
      returns (r: Option<Fetched>, ghost seen: seq<byte>)
      requires (held.Some? ==> held.value.Sane()) && link.memory != []
      modifies this`parts
      ensures r.Some? ==> |seen| == |link.memory|
      ensures r.Some? && r.value.follows ==>
                held.Some? && Follows(r.value.d, AsHeld(held.value.Latest()), full, seen, parsed)
      ensures r.Some? && !r.value.follows ==> Delivered(r.value.d, None, full, seen)
      ensures SoundFor(LatestOf(held), old(parts), link.memory) ==>
                && seen == link.memory && (steady && link.steady ==> r.Some?)
                && (r.Some? && !r.value.follows && held.Some? ==>
                      Refused(AsHeld(held.value.Latest()), link.memory, parsed))
      ensures PartsRead(LatestOf(held), old(parts), parts, link.memory)
    {
      hide Attempt, Sound, SegmentRead, PartsRead, Follows, Refused;
      NothingRead(LatestOf(held), parts, link.memory);
      if held.Some? {
        var got;
        got, seen := FetchHeld(link, held.value, full, parsed);
        if got.Ok? {
          return Some(Fetched(got.value, true)), seen;
        }
        if got.error.ReadFailed? {
          return None, seen;
        }
        if got.error.reading.Some? {
          var image := got.error.reading.value;
          return Some(Fetched(Downloaded(image, 0, |image|, Full, |image|, [], None), false)), seen;
        }
      }
      ghost var mid := parts;
      var got;
      got, seen := FetchNew(link, full);
      ReadAgain(LatestOf(held), old(parts), mid, parts, link.memory);
      r := if got.Some? then Some(Fetched(got.value, false)) else None;
    }

    // ---- the offload ----

    /** Save what was read and record it; only then are the part files removed. */
    method Save(tag: nat, f: Fetched, held: Option<Deployment>) returns (recorded: bool)
      requires Savable(f, held, files)
      modifies this
      ensures Saved(old(Contents()), Contents(), tag, f, held, recorded)
      ensures Fewer(parts, old(parts)) && (recorded || parts == old(parts))
      ensures steady ==> recorded && parts == map[]
    {
      var stem := if f.follows then held.value.stem else tag;
      var whole := StoreDataset(stem, f.d.image, f.d.offset);
      if !whole {
        return false;
      }
      recorded := *;
      recorded := recorded || steady;
      if recorded {
        var index := if f.follows then held.value.Latest().index + 1 else 0;
        WriteRecord(Rec(tag, Some(Dep(stem, index, f.d.image, f.d.headerNow))));
      }
    }

    /** Add a record, then remove the part files one after the other. */
    method WriteRecord(r: Rec)
      modifies this`records, this`parts
      ensures records == old(records) + [r]
      ensures Fewer(parts, old(parts))
      ensures steady ==> parts == map[]
    {
      records := records + [r];
      while parts != map[]
        invariant Fewer(parts, old(parts)) && records == old(records) + [r]
        decreases |parts.Keys|
      {
        var stopped: bool := *;
        if stopped && !steady {
          return;
        }
        var name :| name in parts;
        ghost var left := parts.Keys - {name};
        assert parts.Keys == left + {name};
        parts := parts - {name};
        assert parts.Keys == left;
      }
    }

    /** Find the deployment, read the logger against it, and save what was read. */
    method OffloadData(link: Link, tag: nat, full: bool, parsed: seq<byte> -> Option<nat>, ghost clock: nat)
      returns (recorded: bool, ghost p: Progress)
      requires Inv(Contents(), clock) && clock <= tag && link.memory != []
      modifies this
      ensures Possible(old(Contents()), p) && Contents() == Leaves(old(Contents()), tag, p)
              && recorded == p.Recorded()
      ensures PartsLeft(CandidateDep(old(Contents())), old(parts), parts, link.memory, recorded)
      ensures recorded && SoundFor(CandidateDep(old(Contents())), old(parts), link.memory) ==>
                |records| > 0 && Recorded(old(Contents()), records[|records| - 1], link.memory, full, parsed)
      ensures steady && link.steady && SoundFor(CandidateDep(old(Contents())), old(parts), link.memory) ==>
                recorded && parts == map[]
    {
      hide Inv, Candidate, Newest, OfStem, Sorted, PartsRead, SoundFor, Fewer, Follows, Refused, Recorded, Saved,
           Leaves, Possible, Delivered, Found;
      ghost var d, c := Contents(), CandidateDep(Contents());
      var held := FindDeployment();
      FoundCandidate(d, clock, held, files);
      ghost var found := Contents();
      FoundLeaves(d, found, held, tag);
      p := Nothing(held.Some?);
      ghost var seen;
      var f;
      f, seen := Fetch(link, held, full, parsed);
      if f.None? {
        NoneFewer(parts);
        return false, p;
      }
      FollowsHeld(f.value, held, full, seen, parsed);
      recorded := Save(tag, f.value, held);
      p := SavedLeaves(d, clock, found, Contents(), tag, f.value, held, recorded);
      if recorded && (f.value.follows || held.None? || Refused(AsHeld(held.value.Latest()), seen, parsed)) {
        SavedRecord(d, clock, found, Contents(), tag, f.value, held, full, seen, parsed);
      }
    }

    /** One offload of a logger, which may end at any point: by a failure of the link, or with the machine. */
    method Offload(link: Link, tag: nat, full: bool, parsed: seq<byte> -> Option<nat>, ghost clock: nat)
      returns (recorded: bool, ghost p: Progress)
      requires Inv(Contents(), clock) && clock <= tag
      modifies this
      ensures Possible(old(Contents()), p) && Contents() == Leaves(old(Contents()), tag, p)
      ensures Inv(Contents(), tag + 1)
      ensures Outcome(old(Contents()), old(parts), Contents(), parts, link.memory, tag, full, parsed, recorded)
      ensures steady && link.steady && SoundFor(CandidateDep(old(Contents())), old(parts), link.memory) ==>
                recorded && parts == map[]
    {
      hide Inv, Candidate, SoundFor, PartsRead, Fewer, Recorded;
      p := Nothing(false);
      recorded := false;
      ghost var d := Contents();
      NothingRead(CandidateDep(d), parts, link.memory);
      NoneFewer(parts);
      var stops: bool := *;
      if stops && !steady {
      } else if |link.memory| == 0 {
        p := EmptyMemory;
        WriteRecord(Rec(tag, None));
        recorded := true;
        NothingRecorded(d, tag, link.memory, full, parsed);
      } else {
        recorded, p := OffloadData(link, tag, full, parsed, clock);
      }
      StepKeepsInv(d, clock, tag, p);
    }
  }

  function LatestOf(held: Option<Deployment>): Option<Dep>
    requires held.Some? ==> held.value.Sane()
  {
    if held.Some? then Some(held.value.Latest()) else None
  }

  lemma NoneFewer(parts: map<PartName, seq<byte>>)
    ensures Fewer(parts, parts)
  {
  }

  /** One offload of a logger that holds `memory`: what it leaves of the disk and of the part files, and, provided the
      part files it used were sound, what its record says. */
  ghost predicate Outcome(d: Disk, parts: map<PartName, seq<byte>>, d': Disk, parts': map<PartName, seq<byte>>,
                          memory: seq<byte>, tag: nat, full: bool, parsed: seq<byte> -> Option<nat>, recorded: bool)
  {
    && (exists p :: Possible(d, p) && d' == Leaves(d, tag, p) && recorded == p.Recorded())
    && PartsLeft(CandidateDep(d), parts, parts', memory, recorded)
    && (recorded && SoundFor(CandidateDep(d), parts, memory) ==>
          |d'.records| > 0 && Recorded(d, d'.records[|d'.records| - 1], memory, full, parsed))
  }

  // ---- what an offload leaves ----

  ghost predicate Savable(f: Fetched, held: Option<Deployment>, files: map<nat, seq<byte>>) {
    if f.follows
    then && held.Some? && held.value.Sane() && held.value.data <= f.d.image && f.d.offset == |held.value.data| > 0
         && held.value.stem in files && files[held.value.stem] == held.value.data
    else f.d.offset == 0
  }

  /** The disk after saving: the new bytes appended to the file, or a prefix of them; or a new file, all of it or not
      there; and the record only after all of that. */
  ghost predicate Saved(d: Disk, d': Disk, tag: nat, f: Fetched, held: Option<Deployment>, recorded: bool)
    requires Savable(f, held, d.files)
  {
    if f.follows then
      var h := held.value;
      var segment := f.d.image[f.d.offset..];
      && (exists k: nat :: k <= |segment| && (recorded ==> k == |segment|)
                           && d'.files == d.files[h.stem := h.data + segment[..k]])
      && d'.records ==
           if recorded
           then d.records + [Rec(tag, Some(Dep(h.stem, h.Latest().index + 1, f.d.image, f.d.headerNow)))]
                       else d.records
    else
      && (d'.files == d.files[tag := f.d.image] || (d'.files == d.files && !recorded))
      && d'.records ==
           if recorded then d.records + [Rec(tag, Some(Dep(tag, 0, f.d.image, f.d.headerNow)))] else d.records
  }

  /** The deployment the search returned is the candidate, and its file has been cut back to its latest record. */
  ghost predicate Found(d: Disk, found: Disk, held: Option<Deployment>) {
    var c := Candidate(d.records, |d.records|);
    && (held.Some? <==> c.Some?)
    && (held.Some? ==> held.value.Sane() && held.value.Latest() == c.value.dep && held.value.data != [])
    && found == Cut(d, held.Some?)
  }

  lemma FoundLeaves(d: Disk, found: Disk, held: Option<Deployment>, tag: nat)
    requires Found(d, found, held)
    ensures Possible(d, Nothing(held.Some?)) && found == Leaves(d, tag, Nothing(held.Some?))
    ensures held.Some? ==> held.value.Sane() && held.value.data != []
    ensures LatestOf(held) == CandidateDep(d)
  {
  }

  lemma SavedLeaves(d: Disk, clock: nat, found: Disk, d': Disk, tag: nat, f: Fetched, held: Option<Deployment>,
                    recorded: bool)
    returns (p: Progress)
    requires Inv(d, clock) && Found(d, found, held) && Savable(f, held, found.files) && f.d.image != []
    requires Saved(found, d', tag, f, held, recorded)
    ensures Possible(d, p) && d' == Leaves(d, tag, p) && recorded == p.Recorded()
  {
    hide Inv, Candidate;
    var cut := held.Some?;
    if f.follows {
      var h := held.value;
      var segment := f.d.image[f.d.offset..];
      var k: nat :| k <= |segment| && (recorded ==> k == |segment|)
                    && d'.files == found.files[h.stem := h.data + segment[..k]];
      assert h.data + segment == f.d.image;
      p := Extending(segment, k, recorded, f.d.headerNow);
      assert found.files[h.stem := h.data + segment[..k]] == d.files[h.stem := h.data + segment[..k]];
    } else if d'.files == found.files[tag := f.d.image] {
      p := Starting(cut, f.d.image, recorded, f.d.headerNow);
    } else {
      p := Nothing(cut);
    }
  }

  /** What a completed offload's record says: an image that follows the deployment on disk, or a new one that is the
      logger's memory, if there was no deployment or the memory does not hold it. */
  ghost predicate Recorded(d: Disk, r: Rec, memory: seq<byte>, full: bool, parsed: seq<byte> -> Option<nat>) {
    match r.dep
    case None => memory == []
    case Some(dep) =>
      var c := CandidateDep(d);
      && memory != []
      && if dep.stem == r.tag then
           dep.image == memory && dep.header == None && (c.Some? ==> Refused(AsHeld(c.value), memory, parsed))
         else
           && c.Some? && dep.stem == c.value.stem
           && exists e: Downloaded :: e.image == dep.image && e.headerNow == dep.header
                                      && Follows(e, AsHeld(c.value), full, memory, parsed)
  }

  lemma NothingRecorded(d: Disk, tag: nat, memory: seq<byte>, full: bool, parsed: seq<byte> -> Option<nat>)
    requires memory == []
    ensures Recorded(d, Rec(tag, None), memory, full, parsed)
  {
  }

  lemma SavedRecord(d: Disk, clock: nat, found: Disk, d': Disk, tag: nat, f: Fetched, held: Option<Deployment>,
                    full: bool,
                    seen: seq<byte>, parsed: seq<byte> -> Option<nat>)
    requires Inv(d, clock) && clock <= tag && Found(d, found, held) && Savable(f, held, found.files)
    requires Saved(found, d', tag, f, held, true)
    requires f.follows ==> held.Some? && Follows(f.d, AsHeld(held.value.Latest()), full, seen, parsed)
    requires !f.follows ==> f.d.image == seen && f.d.headerNow == None
    requires seen != []
    requires !f.follows && held.Some? ==> Refused(AsHeld(held.value.Latest()), seen, parsed)
    ensures |d'.records| > 0 && Recorded(d, d'.records[|d'.records| - 1], seen, full, parsed)
  {
    hide Candidate, Follows, Refused, Numbered, Growing;
    if f.follows {
      var k := CandidateIsLast(d.records, |d.records|);
      StemsAreOld(d, clock, k);
    }
  }

  lemma FoundCandidate(d: Disk, clock: nat, held: Option<Deployment>, files: map<nat, seq<byte>>)
    requires Inv(d, clock)
    requires Newest(d.records, |d.records|).None? ==> held.None?
    requires Newest(d.records, |d.records|).Some? ==>
               var stem := Newest(d.records, |d.records|).value.dep.stem;
               var es := Sorted(OfStem(d.records, |d.records|, stem));
               && es != []
               && (held.Some? <==> stem in d.files && es[|es| - 1].dep.image <= d.files[stem])
               && (held.Some? ==> && held.value == Deployment(stem, es, es[|es| - 1].dep.image)
                                  && files == d.files[stem := es[|es| - 1].dep.image])
    requires held.None? ==> files == d.files
    ensures Found(d, Disk(files, d.records), held)
    ensures held.Some? ==> held.value.stem in files && files[held.value.stem] == held.value.data
  {
    hide OfStem, Sorted, Candidate, Newest;
    if Newest(d.records, |d.records|).Some? {
      FindNeverRefuses(d, clock);
    }
  }

  lemma FollowsHeld(f: Fetched, held: Option<Deployment>, full: bool, seen: seq<byte>, parsed: seq<byte> -> Option<nat>)
    requires held.Some? ==> held.value.Sane()
    requires f.follows ==> held.Some? && Follows(f.d, AsHeld(held.value.Latest()), full, seen, parsed)
    requires !f.follows ==> Delivered(f.d, None, full, seen)
    ensures f.follows ==> held.value.data <= f.d.image && f.d.offset == |held.value.data| && |f.d.image| == |seen|
    ensures !f.follows ==> f.d.offset == 0 && f.d.image == seen && f.d.headerNow == None
  {
    hide HeaderChanges, HeaderNow, BothEnds, Identity;
  }

  // ---- what the logger still holds ----

  /** The image a record stands for: its own, under the header it keeps. */
  function Restored(dep: Dep): seq<byte> {
    match dep.header
    case None => dep.image
    case Some(h) => if |h| <= |dep.image| then h + dep.image[|h|..] else h
  }

  /** The memory holds the deployment on disk: everything past its header, and something past its header or the header
      itself. With a sectioned header, all of it. */
  ghost predicate StillHolds(held: Held, memory: seq<byte>, parsed: seq<byte> -> Option<nat>) {
    if IsSectioned(held.data) then Continues(held, memory, parsed)
    else Holds(held, memory) && (|held.data| <= Limit(held) ==> HeaderChanges(held, memory) == [])
  }

  /** A deployment is refused exactly when the memory does not hold it. */
  lemma RefusedExactly(held: Held, memory: seq<byte>, parsed: seq<byte> -> Option<nat>)
    ensures Refused(held, memory, parsed) <==> !StillHolds(held, memory, parsed)
  {
    hide Identity, HeaderChanges, Limit;
    assert memory[..|memory|] == memory;
    if IsSectioned(held.data) {
      SectionedExactly(held, memory, parsed);
    } else if !StillHolds(held, memory, parsed) {
      var n, h := |held.data|, HeaderEnd(held.data);
      if n > |memory| {
        assert RefusedFor(Shrunk, held, memory, parsed);
      } else if Holds(held, memory) {
        assert RefusedFor(HeaderUnchecked, held, memory, parsed);
      } else {
        var i :| h <= i < n && held.data[i] != memory[i];
        assert RefusedFor(DiffersAt(i), held, memory, parsed);
      }
    }
  }

  lemma SectionedExactly(held: Held, memory: seq<byte>, parsed: seq<byte> -> Option<nat>)
    requires IsSectioned(held.data)
    ensures Refused(held, memory, parsed) <==> !Continues(held, memory, parsed)
  {
    hide Identity, IsSectioned;
    if Refused(held, memory, parsed) {
      var reason :| RefusedFor(reason, held, memory, parsed);
      if reason.DiffersAt? {
        assert reason.at < |memory| ==> held.data[reason.at] != memory[reason.at];
      }
    }
    if !Continues(held, memory, parsed) {
      if Identity(held.data, parsed) != Identity(memory, parsed) {
        assert RefusedFor(HeaderDiffers, held, memory, parsed);
      } else {
        var i := FirstBreak(held.data, memory, |held.data|);
        assert RefusedFor(DiffersAt(i), held, memory, parsed);
      }
    }
  }

  lemma {:induction false} FirstBreak(a: seq<byte>, b: seq<byte>, n: nat) returns (i: nat)
    requires n <= |a| && !(a[..n] <= b)
    ensures i < n && i <= |b| && a[..i] == b[..i] && (i < |b| ==> a[i] != b[i])
  {
    if a[..n - 1] <= b {
      i := n - 1;
      assert i < |b| ==> a[..n] == a[..i] + [a[i]] && b[..n] == b[..i] + [b[i]];
    } else {
      i := FirstBreak(a, b, n - 1);
    }
  }

  /** An offload that follows a deployment whose bytes past the header are still there has read the memory. */
  lemma FollowedIsMemory(e: Downloaded, c: Dep, dep: Dep, memory: seq<byte>, full: bool,
                         parsed: seq<byte> -> Option<nat>)
    requires c.image != [] && Follows(e, AsHeld(c), full, memory, parsed)
    requires e.image == dep.image && e.headerNow == dep.header
    requires IsSectioned(c.image) || Holds(AsHeld(c), memory)
    ensures Restored(dep) == memory
  {
    hide HeaderChanges, BothEnds, Identity, IsSectioned, Agree;
    if !IsSectioned(c.image) {
      var held, h := AsHeld(c), HeaderEnd(c.image);
      assert memory[..|memory|] == memory;
      if !Verified(e, held, memory, |memory|) {
        ExtendsExactly(e, held, memory, h);
      }
      assert Extends(e, held, memory, |memory|, h);
      HeaderRestored(e, held, memory);
    }
  }

  lemma HeaderRestored(e: Downloaded, held: Held, memory: seq<byte>)
    requires held.data != [] && Extends(e, held, memory, |memory|, HeaderEnd(held.data))
    requires e.headerNow == HeaderNow(held, memory)
             || e.headerNow == HeaderNow(held, memory[..Min(CHUNK, |held.data|)])
    ensures match e.headerNow
            case None => e.image == memory
            case Some(h) => |h| <= |e.image| && h + e.image[|h|..] == memory
  {
    var h := HeaderEnd(held.data);
    assert memory[..Min(CHUNK, |held.data|)][..h] == memory[..h];
    assert memory[..h] + memory[h..] == memory;
    assert memory[h..|memory|] == memory[h..];
    assert e.image[h..] == memory[h..];
  }

  /** An offload that completes has recorded every byte the logger held: for a new deployment always, and for one on
      disk if what was saved of it past its header is still there. */
  lemma NothingIsLost(d: Disk, r: Rec, memory: seq<byte>, full: bool, parsed: seq<byte> -> Option<nat>)
    requires Recorded(d, r, memory, full, parsed)
    requires r.dep.Some? && r.dep.value.stem != r.tag ==>
               var c := CandidateDep(d).value;
               c.image != [] && (IsSectioned(c.image) || Holds(AsHeld(c), memory))
    ensures memory == (if r.dep.Some? then Restored(r.dep.value) else [])
  {
    hide Candidate, Follows, Refused, Holds;
    if r.dep.Some? && r.dep.value.stem != r.tag {
      var c := CandidateDep(d).value;
      var e: Downloaded :| e.image == r.dep.value.image && e.headerNow == r.dep.value.header
                           && Follows(e, AsHeld(c), full, memory, parsed);
      FollowedIsMemory(e, c, r.dep.value, memory, full, parsed);
    }
  }

  /** A logger that still holds the deployment on disk is recognised, also if its header has changed: a recorded offload
      extends that deployment and starts no other. */
  lemma DeploymentIsRecognised(d: Disk, r: Rec, memory: seq<byte>, full: bool, parsed: seq<byte> -> Option<nat>)
    requires Recorded(d, r, memory, full, parsed) && r.dep.Some? && CandidateDep(d).Some?
    requires CandidateDep(d).value.image != [] && StillHolds(AsHeld(CandidateDep(d).value), memory, parsed)
    ensures r.dep.value.stem == CandidateDep(d).value.stem && Restored(r.dep.value) == memory
  {
    hide Candidate, Refused, Restored, Follows;
    RefusedExactly(AsHeld(CandidateDep(d).value), memory, parsed);
    hide StillHolds;
    HoldsPastHeader(AsHeld(CandidateDep(d).value), memory, parsed);
    NothingIsLost(d, r, memory, full, parsed);
  }

  lemma HoldsPastHeader(held: Held, memory: seq<byte>, parsed: seq<byte> -> Option<nat>)
    requires StillHolds(held, memory, parsed)
    ensures IsSectioned(held.data) || Holds(held, memory)
  {
  }
}
