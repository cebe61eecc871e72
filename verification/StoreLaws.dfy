/** Whatever an offload does and wherever it stops, the records on disk stay true of the files. */
module StoreLaws {
  import opened Basics
  import opened Store

  // ---- the candidate ----

  /** Every image of the candidate's deployment is a prefix of the candidate's, which is numbered last. */
  lemma CandidateIsLatest(d: Disk, clock: nat) returns (k: nat)
    requires Inv(d, clock) && Candidate(d.records, |d.records|).Some?
    ensures var c := Candidate(d.records, |d.records|).value;
            && k < |d.records| && d.records[k] == Rec(c.tag, Some(c.dep)) && IsPrefix(c.dep, d.files)
            && (forall i :: 0 <= i < |d.records| && In(d.records[i], c.dep.stem) ==>
                  d.records[i].dep.value.image <= c.dep.image)
            && c.dep.index + 1 == |OfStem(d.records, |d.records|, c.dep.stem)|
            && OfStem(d.records, |d.records|, c.dep.stem) == OfStem(d.records, k, c.dep.stem) + [c]
            && forall i :: k < i < |d.records| ==> d.records[i].dep.None?
  {
    hide OfStem, Candidate;
    k := CandidateIsLast(d.records, |d.records|);
    var c := Candidate(d.records, |d.records|).value;
    assert d.records[k].dep.value == c.dep;
    LastOfStem(d.records, k, c);
    forall i | 0 <= i < |d.records| && In(d.records[i], c.dep.stem)
      ensures d.records[i].dep.value.image <= c.dep.image
    {
      assert i <= k;
      assert i < k ==> In(d.records[k], d.records[i].dep.value.stem);
    }
  }

  lemma LastOfStem(records: seq<Rec>, k: nat, c: Entry)
    requires k < |records| && records[k] == Rec(c.tag, Some(c.dep))
    ensures OfStem(records, k + 1, c.dep.stem) == OfStem(records, k, c.dep.stem) + [c]
  {
  }

  // ---- one step ----

  /** Adding a record that is numbered next in its deployment and extends every image of it. */
  lemma RecordAdded(d: Disk, r: Rec)
    requires Inv(d, r.tag + 1) && InOrder(d.records, r.tag)
    requires r.dep.Some? ==>
               && IsPrefix(r.dep.value, d.files)
               && r.dep.value.index == |OfStem(d.records, |d.records|, r.dep.value.stem)|
               && forall i :: 0 <= i < |d.records| && In(d.records[i], r.dep.value.stem) ==>
                                d.records[i].dep.value.image <= r.dep.value.image
    ensures Inv(d.(records := d.records + [r]), r.tag + 1)
  {
    hide OfStem;
    var d' := d.(records := d.records + [r]);
    assert d.records == d'.records[..|d.records|];
    forall i | 0 <= i < |d'.records| && d'.records[i].dep.Some?
      ensures d'.records[i].dep.value.index == |OfStem(d'.records, i, d'.records[i].dep.value.stem)|
    {
      OfStemPrefix(d.records, d'.records, i, d'.records[i].dep.value.stem);
    }
  }

  /** Changing a file in a way that leaves every recorded image of it a prefix. */
  lemma FileChanged(d: Disk, clock: nat, stem: nat, content: seq<byte>, clock': nat)
    requires Inv(d, clock) && clock <= clock' && stem < clock'
    requires forall i :: 0 <= i < |d.records| && In(d.records[i], stem) ==> d.records[i].dep.value.image <= content
    ensures Inv(d.(files := d.files[stem := content]), clock')
  {
    hide OfStem, Numbered, Growing;
    var d' := d.(files := d.files[stem := content]);
    forall i | 0 <= i < |d.records| && d.records[i].dep.Some?
      ensures IsPrefix(d.records[i].dep.value, d'.files)
    {
      assert IsPrefix(d.records[i].dep.value, d.files);
      assert d.records[i].dep.value.stem == stem ==> In(d.records[i], stem);
    }
  }

  lemma CutKeepsInv(d: Disk, clock: nat, cut: bool)
    requires Inv(d, clock) && (cut ==> Candidate(d.records, |d.records|).Some?)
    ensures Inv(Cut(d, cut), clock)
  {
    hide Inv, Candidate, OfStem;
    if cut {
      var k := CandidateIsLatest(d, clock);
      var c := Candidate(d.records, |d.records|).value.dep;
      assert c.stem < clock by { assert Inv(d, clock); StemsAreOld(d, clock, k); }
      FileChanged(d, clock, c.stem, c.image, clock);
    }
  }

  lemma StemsAreOld(d: Disk, clock: nat, i: nat)
    requires Inv(d, clock) && i < |d.records| && d.records[i].dep.Some?
    ensures d.records[i].dep.value.stem < clock
  {
    assert IsPrefix(d.records[i].dep.value, d.files);
  }

  lemma Widen(d: Disk, clock: nat, clock': nat)
    requires Inv(d, clock) && clock <= clock'
    ensures Inv(d, clock')
  {
  }

  lemma RecordIsNew(d: Disk, clock: nat, tag: nat)
    requires Inv(d, clock) && clock <= tag
    ensures Inv(d, tag + 1) && InOrder(d.records, tag)
  {
  }

  /** Wherever an offload ends or is cut short, the records stay true of the files. */
  lemma StepKeepsInv(d: Disk, clock: nat, tag: nat, p: Progress)
    requires Inv(d, clock) && clock <= tag && Possible(d, p)
    ensures Inv(Leaves(d, tag, p), tag + 1)
  {
    hide Inv, Candidate, OfStem;
    match p {
      case Nothing(cut) =>
        CutKeepsInv(d, clock, cut);
        Widen(Cut(d, cut), clock, tag + 1);
      case EmptyMemory =>
        RecordIsNew(d, clock, tag);
        RecordAdded(d, Rec(tag, None));
      case Extending(segment, written, recorded, header) =>
        ExtendingKeepsInv(d, clock, tag, segment, written, recorded, header);
      case Starting(cut, image, recorded, header) =>
        StartingKeepsInv(d, clock, tag, cut, image, recorded, header);
    }
  }

  lemma ExtendingKeepsInv(d: Disk, clock: nat, tag: nat, segment: seq<byte>, written: nat, recorded: bool,
                          header: Option<seq<byte>>)
    requires Inv(d, clock) && clock <= tag && Possible(d, Extending(segment, written, recorded, header))
    ensures Inv(Leaves(d, tag, Extending(segment, written, recorded, header)), tag + 1)
  {
    hide Inv, Candidate, OfStem;
    var k := CandidateIsLatest(d, clock);
    var c := Candidate(d.records, |d.records|).value.dep;
    StemsAreOld(d, clock, k);
    var content := c.image + segment[..written];
    FileChanged(d, clock, c.stem, content, clock);
    var e := d.(files := d.files[c.stem := content]);
    if recorded {
      assert content == c.image + segment;
      RecordIsNew(e, clock, tag);
      RecordAdded(e, Rec(tag, Some(Dep(c.stem, c.index + 1, content, header))));
    } else {
      Widen(e, clock, tag + 1);
    }
  }

  lemma StartingKeepsInv(d: Disk, clock: nat, tag: nat, cut: bool, image: seq<byte>, recorded: bool,
                         header: Option<seq<byte>>)
    requires Inv(d, clock) && clock <= tag && Possible(d, Starting(cut, image, recorded, header))
    ensures Inv(Leaves(d, tag, Starting(cut, image, recorded, header)), tag + 1)
  {
    hide Candidate, OfStem, Inv, Cut;
    CutKeepsInv(d, clock, cut);
    var e := Cut(d, cut);
    assert e.records == d.records by { CutKeepsRecords(d, cut); }
    TagIsNew(e, clock, tag);
    NoneOfNewStem(e.records, |e.records|, tag);
    FileChanged(e, clock, tag, image, tag + 1);
    RecordIsNew(e, clock, tag);
    if recorded {
      RecordAdded(e.(files := e.files[tag := image]), Rec(tag, Some(Dep(tag, 0, image, header))));
    }
  }

  lemma TagIsNew(d: Disk, clock: nat, tag: nat)
    requires Inv(d, clock) && clock <= tag
    ensures forall i :: 0 <= i < |d.records| ==> !In(d.records[i], tag)
  {
    forall i | 0 <= i < |d.records|
      ensures !In(d.records[i], tag)
    {
      if In(d.records[i], tag) {
        StemsAreOld(d, clock, i);
      }
    }
  }

  lemma CutKeepsRecords(d: Disk, cut: bool)
    requires cut ==> Candidate(d.records, |d.records|).Some?
    ensures Cut(d, cut).records == d.records
  {
  }

  // ---- what one offload leaves alone ----

  /** Records are only added, at most one of them; no file goes away; and a file that was there before is as it was, or
      is the candidate's, which still starts with everything its latest record describes. */
  lemma OthersUntouched(d: Disk, clock: nat, tag: nat, p: Progress, stem: nat)
    requires Inv(d, clock) && clock <= tag && Possible(d, p) && stem in d.files
    ensures var d' := Leaves(d, tag, p);
            && d.records <= d'.records && |d'.records| <= |d.records| + 1
            && stem in d'.files
            && (d'.files[stem] == d.files[stem]
                || (Candidate(d.records, |d.records|).Some? && Candidate(d.records, |d.records|).value.dep.stem == stem
                    && Candidate(d.records, |d.records|).value.dep.image <= d'.files[stem]))
    ensures !p.Extending? ==> Leaves(d, tag, p).files[stem] <= d.files[stem]
  {
    hide Candidate, OfStem, Numbered, Growing;
    if Candidate(d.records, |d.records|).Some? {
      var k := CandidateIsLatest(d, clock);
    }
  }

  // ---- whole runs ----

  /** A logger's offloads, one after the other, each stopped anywhere: the disk before each, and when each started. */
  ghost predicate Run(disks: seq<Disk>, tags: seq<nat>) {
    && |disks| == |tags| + 1 && disks[0] == Disk(map[], [])
    && (forall i :: 0 <= i < |tags| ==> Step(disks[i], disks[i + 1], tags[i]))
    && (forall i :: 0 <= i < |tags| - 1 ==> tags[i] < tags[i + 1])
  }

  function Clock(tags: seq<nat>, n: nat): nat
    requires n <= |tags|
  {
    if n == 0 then 0 else tags[n - 1] + 1
  }

  /** After any number of offloads, each stopped anywhere, every record describes a prefix of its file, a deployment's
      images only grow, and its offloads are numbered without a gap. */
  lemma {:induction false} RunKeepsInv(disks: seq<Disk>, tags: seq<nat>, n: nat)
    requires Run(disks, tags) && n <= |tags|
    ensures Inv(disks[n], Clock(tags, n))
  {
    hide Inv, Leaves, Possible;
    if n == 0 {
      NothingYet();
    } else {
      RunKeepsInv(disks, tags, n - 1);
      var d, d', tag := disks[n - 1], disks[n], tags[n - 1];
      assert Step(d, d', tag);
      var p :| Possible(d, p) && d' == Leaves(d, tag, p);
      StepKeepsInv(d, Clock(tags, n - 1), tag, p);
    }
  }

  lemma NothingYet()
    ensures Inv(Disk(map[], []), 0)
  {
  }

  /** A record once written stays, and stays true of its file for the rest of the run. */
  lemma {:induction false} RecordsStay(disks: seq<Disk>, tags: seq<nat>, m: nat, n: nat, i: nat)
    requires Run(disks, tags) && m <= n <= |tags| && i < |disks[m].records|
    ensures disks[m].records <= disks[n].records
    ensures disks[m].records[i].dep.Some? ==> IsPrefix(disks[m].records[i].dep.value, disks[n].files)
  {
    RunKeepsInv(disks, tags, n);
    if m < n {
      RecordsStay(disks, tags, m, n - 1, i);
      assert Step(disks[n - 1], disks[n], tags[n - 1]);
    }
    assert disks[n].records[i] == disks[m].records[i];
  }

  // ---- finding the deployment ----

  lemma {:induction false} NewestIsCandidate(records: seq<Rec>, clock: nat, n: nat)
    requires n <= |records| && InOrder(records, clock)
    ensures Newest(records, n) == Candidate(records, n)
  {
    if n > 0 {
      NewestIsCandidate(records, clock, n - 1);
    }
  }

  /** On any disk a run can leave, the search finds the deployment offloaded last, with its records in the order of the
      offloads; its latest record is the last one of any deployment; and its file passes the check. */
  lemma FindNeverRefuses(d: Disk, clock: nat)
    requires Inv(d, clock) && Newest(d.records, |d.records|).Some?
    ensures var c := Newest(d.records, |d.records|).value;
            var es := Sorted(OfStem(d.records, |d.records|, c.dep.stem));
            && Some(c) == Candidate(d.records, |d.records|)
            && es == OfStem(d.records, |d.records|, c.dep.stem)
            && es != [] && es[|es| - 1] == c && c.dep.index == |es| - 1
            && IsPrefix(c.dep, d.files)
  {
    hide OfStem, Candidate, Newest, Sorted;
    NewestIsCandidate(d.records, clock, |d.records|);
    var k := CandidateIsLatest(d, clock);
    InOffloadOrder(d.records, clock, Candidate(d.records, |d.records|).value.dep.stem);
  }

  lemma InOffloadOrder(records: seq<Rec>, clock: nat, stem: nat)
    requires InOrder(records, clock) && Numbered(records)
    ensures Sorted(OfStem(records, |records|, stem)) == OfStem(records, |records|, stem)
  {
    OfStemInOrder(records, clock, |records|, stem);
    assert InKeyOrder(OfStem(records, |records|, stem));
    SortedAlready(OfStem(records, |records|, stem));
  }

  // ---- rebuilding ----

  /** The file a record names, cut to the size it gives, if that matches its checksum. */
  function RawFile(dep: Dep, files: map<nat, seq<byte>>): Option<seq<byte>> {
    if dep.stem !in files then None
    else
      var file := files[dep.stem];
      var blob := if |file| > |dep.image| then file[..|dep.image|] else file;
      if blob == dep.image then Some(blob) else None
  }

  /** A record's file is read back exactly when it starts with the record's image, and then that image is read. */
  lemma RawFileExactly(dep: Dep, files: map<nat, seq<byte>>)
    ensures RawFile(dep, files) == if dep.stem in files && dep.image <= files[dep.stem] then Some(dep.image) else None
  {
  }

  /** Every record of every deployment can be rebuilt, on any disk a run can leave, and any one of a deployment's
      records leads to the same ones in the same order. */
  lemma EveryRecordRebuilds(d: Disk, clock: nat, i: nat)
    requires Inv(d, clock) && i < |d.records| && d.records[i].dep.Some?
    ensures var dep := d.records[i].dep.value;
            && RawFile(dep, d.files) == Some(dep.image)
            && var es := Sorted(OfStem(d.records, |d.records|, dep.stem));
               && (forall j :: 0 <= j < |es| ==>
                     es[j].dep.index == j && RawFile(es[j].dep, d.files) == Some(es[j].dep.image))
               && dep.index < |es| && es[dep.index] == Entry(d.records[i].tag, dep)
  {
    hide Sorted, OfStem;
    var dep := d.records[i].dep.value;
    assert IsPrefix(dep, d.files);
    var es := OfStem(d.records, |d.records|, dep.stem);
    InOffloadOrder(d.records, clock, dep.stem);
    OfStemInOrder(d.records, clock, |d.records|, dep.stem);
    forall j | 0 <= j < |es|
      ensures RawFile(es[j].dep, d.files) == Some(es[j].dep.image)
    {
      var k: nat :| k < |d.records| && d.records[k] == Rec(es[j].tag, Some(es[j].dep));
      assert IsPrefix(d.records[k].dep.value, d.files);
    }
    LastOfStem(d.records, i, Entry(d.records[i].tag, dep));
    OfStemGrows(d.records, i + 1, |d.records|, dep.stem);
  }
}
