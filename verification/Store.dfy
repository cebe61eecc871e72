/** The files and records of one logger's offloads, and what an offload that may stop anywhere leaves of them. */
module Store {
  import opened Basics
  import Sorting

  /** What a record says of its deployment: the offload's place in it, the image as it was (for its size and checksum),
      and the header the logger reported where it differed. */
  datatype Dep = Dep(stem: nat, index: nat, image: seq<byte>, header: Option<seq<byte>>)

  /** An offload record, named by the time the offload started; no deployment if the memory was empty. */
  datatype Rec = Rec(tag: nat, dep: Option<Dep>)

  /** A record of a deployment. */
  datatype Entry = Entry(tag: nat, dep: Dep)

  /** The image files by stem, and the records in file-name order. */
  datatype Disk = Disk(files: map<nat, seq<byte>>, records: seq<Rec>)

  // ---- choosing a deployment's records ----

  predicate In(r: Rec, stem: nat) {
    r.dep.Some? && r.dep.value.stem == stem
  }

  /** The deployment's records among the first n, in file-name order. */
  function OfStem(records: seq<Rec>, n: nat, stem: nat): (es: seq<Entry>)
    requires n <= |records|
  {
    if n == 0 then []
    else OfStem(records, n - 1, stem) +
         (if In(records[n - 1], stem) then [Entry(records[n - 1].tag, records[n - 1].dep.value)] else [])
  }

  /** The order records are taken in: by offload index, then by start time. */
  predicate NotAfter(a: Entry, b: Entry) {
    a.dep.index < b.dep.index || (a.dep.index == b.dep.index && a.tag <= b.tag)
  }

  ghost predicate InKeyOrder(s: seq<Entry>) {
    forall i, j :: 0 <= i < j < |s| ==> NotAfter(s[i], s[j])
  }

  function Sorted(s: seq<Entry>): (r: seq<Entry>)
    ensures multiset(r) == multiset(s) && |r| == |s|
    ensures InKeyOrder(r)
  {
    Sorting.SortedInOrder(s, NotAfter);
    Sorting.SortedKeeps(s, NotAfter);
    Sorting.Sorted(s, NotAfter)
  }

  /** By offload index, and where that is the same by start time; no record is lost. */
  lemma SortedByIndex(s: seq<Entry>, i: nat, j: nat)
    requires i < j < |s|
    ensures multiset(Sorted(s)) == multiset(s)
    ensures Sorted(s)[i].dep.index <= Sorted(s)[j].dep.index
    ensures Sorted(s)[i].dep.index == Sorted(s)[j].dep.index ==> Sorted(s)[i].tag <= Sorted(s)[j].tag
  {
    hide Sorted;
  }

  lemma SortedAlready(s: seq<Entry>)
    requires InKeyOrder(s)
    ensures Sorted(s) == s
  {
    Sorting.SortedAlready(s, NotAfter);
  }

  /** The deployment offloaded most recently: of the records of deployments, the one started last. */
  function Newest(records: seq<Rec>, n: nat): (r: Option<Entry>)
    requires n <= |records|
    ensures r.None? <==> forall i :: 0 <= i < n ==> records[i].dep.None?
    ensures r.Some? ==> exists i :: 0 <= i < n && records[i] == Rec(r.value.tag, Some(r.value.dep))
    ensures r.Some? ==> forall i :: 0 <= i < n && records[i].dep.Some? ==>
                          records[i].tag < r.value.tag
                          || (records[i].tag == r.value.tag && records[i].dep.value.stem <= r.value.dep.stem)
  {
    if n == 0 then None
    else
      var best, x := Newest(records, n - 1), records[n - 1];
      if x.dep.Some? && (best.None? || best.value.tag < x.tag
                         || (best.value.tag == x.tag && best.value.dep.stem <= x.dep.value.stem))
      then Some(Entry(x.tag, x.dep.value)) else best
  }

  // ---- what every offload keeps ----

  /** Offloads start one after the other, so that a record's name also orders it. */
  ghost predicate InOrder(records: seq<Rec>, clock: nat) {
    && (forall i, j :: 0 <= i < j < |records| ==> records[i].tag < records[j].tag)
    && (forall i :: 0 <= i < |records| ==> records[i].tag < clock)
  }

  /** A record of a deployment describes a prefix of the deployment's file. */
  ghost predicate Described(d: Disk, clock: nat) {
    && (forall s :: s in d.files ==> s < clock)
    && (forall i :: 0 <= i < |d.records| && d.records[i].dep.Some? ==> IsPrefix(d.records[i].dep.value, d.files))
  }

  predicate IsPrefix(dep: Dep, files: map<nat, seq<byte>>) {
    dep.stem in files && dep.image != [] && dep.image <= files[dep.stem]
  }

  /** A deployment's offloads are numbered 0, 1, 2, ... and its image only grows. */
  ghost predicate Numbered(records: seq<Rec>) {
    forall i :: 0 <= i < |records| && records[i].dep.Some? ==>
                  records[i].dep.value.index == |OfStem(records, i, records[i].dep.value.stem)|
  }

  ghost predicate Growing(records: seq<Rec>) {
    forall i, j :: 0 <= i < j < |records| && records[i].dep.Some? && In(records[j], records[i].dep.value.stem) ==>
                     records[i].dep.value.image <= records[j].dep.value.image
  }

  ghost predicate Inv(d: Disk, clock: nat) {
    InOrder(d.records, clock) && Described(d, clock) && Numbered(d.records) && Growing(d.records)
  }

  // ---- the steps of an offload ----

  /** The last record of a deployment. */
  function Candidate(records: seq<Rec>, n: nat): (r: Option<Entry>)
    requires n <= |records|
    ensures r.None? <==> forall i :: 0 <= i < n ==> records[i].dep.None?
  {
    if n == 0 then None
    else if records[n - 1].dep.Some? then Some(Entry(records[n - 1].tag, records[n - 1].dep.value))
    else Candidate(records, n - 1)
  }

  /** How far an offload got before it ended or was cut short. */
  datatype Progress =
    | Nothing(cut: bool)
    | EmptyMemory
    | Extending(segment: seq<byte>, written: nat, recorded: bool, header: Option<seq<byte>>)
    | Starting(cut: bool, image: seq<byte>, recorded: bool, header: Option<seq<byte>>)
  {
    /** Did it write its record? */
    predicate Recorded() {
      EmptyMemory? || (Extending? && recorded) || (Starting? && recorded)
    }
  }

  predicate Possible(d: Disk, p: Progress) {
    var c := Candidate(d.records, |d.records|);
    match p
    case Nothing(cut) => cut ==> c.Some?
    case EmptyMemory => true
    case Extending(segment, written, recorded, _) =>
      c.Some? && written <= |segment| && (recorded ==> written == |segment|)
    case Starting(cut, image, _, _) => image != [] && (cut ==> c.Some?)
  }

  /** The candidate's file, cut back to what its latest record describes. */
  function Cut(d: Disk, cut: bool): Disk
    requires cut ==> Candidate(d.records, |d.records|).Some?
  {
    if !cut then d
    else var c := Candidate(d.records, |d.records|).value.dep;
         d.(files := d.files[c.stem := c.image])
  }

  /** The disk an offload started at `tag` leaves behind. */
  function Leaves(d: Disk, tag: nat, p: Progress): Disk
    requires Possible(d, p)
  {
    match p
    case Nothing(cut) => Cut(d, cut)
    case EmptyMemory => d.(records := d.records + [Rec(tag, None)])
    case Extending(segment, written, recorded, header) =>
      var c := Candidate(d.records, |d.records|).value.dep;
      Disk(d.files[c.stem := c.image + segment[..written]],
           if recorded then d.records + [Rec(tag, Some(Dep(c.stem, c.index + 1, c.image + segment, header)))]
           else d.records)
    case Starting(cut, image, recorded, header) =>
      var e := Cut(d, cut);
      Disk(e.files[tag := image], if recorded then e.records + [Rec(tag, Some(Dep(tag, 0, image, header)))]
           else e.records)
  }

  ghost predicate Step(d: Disk, d': Disk, tag: nat) {
    exists p :: Possible(d, p) && d' == Leaves(d, tag, p)
  }

  // ---- lemmas about records ----

  lemma {:induction false} OfStemPrefix(a: seq<Rec>, b: seq<Rec>, n: nat, stem: nat)
    requires n <= |a| <= |b| && a == b[..|a|]
    ensures OfStem(a, n, stem) == OfStem(b, n, stem)
  {
    if n > 0 {
      OfStemPrefix(a, b, n - 1, stem);
    }
  }

  lemma {:induction false} OfStemGrows(records: seq<Rec>, m: nat, n: nat, stem: nat)
    requires m <= n <= |records|
    ensures OfStem(records, m, stem) <= OfStem(records, n, stem)
    ensures m < n && In(records[m], stem) ==> |OfStem(records, m, stem)| < |OfStem(records, n, stem)|
  {
    if m < n {
      OfStemGrows(records, m, n - 1, stem);
    }
  }

  /** The candidate is the last of its deployment's records, and nothing after it is of any deployment. */
  lemma {:induction false} CandidateIsLast(records: seq<Rec>, n: nat) returns (k: nat)
    requires n <= |records| && Candidate(records, n).Some?
    ensures k < n && records[k] == Rec(Candidate(records, n).value.tag, Some(Candidate(records, n).value.dep))
    ensures forall i :: k < i < n ==> records[i].dep.None?
    ensures forall stem :: OfStem(records, n, stem) == OfStem(records, k + 1, stem)
  {
    if records[n - 1].dep.Some? {
      k := n - 1;
    } else {
      k := CandidateIsLast(records, n - 1);
    }
  }

  /** No record is of a deployment that has not started. */
  lemma {:induction false} NoneOfNewStem(records: seq<Rec>, n: nat, stem: nat)
    requires n <= |records| && forall i :: 0 <= i < n ==> !In(records[i], stem)
    ensures OfStem(records, n, stem) == []
  {
    if n > 0 {
      NoneOfNewStem(records, n - 1, stem);
    }
  }

  /** The entries are numbered 0, 1, 2, ... and each is one of the first n records. */
  ghost predicate Listed(records: seq<Rec>, n: nat, stem: nat, es: seq<Entry>)
    requires n <= |records|
  {
    && (forall i :: 0 <= i < |es| ==> es[i].dep.index == i && es[i].dep.stem == stem)
    && (forall i :: 0 <= i < |es| ==> exists k :: 0 <= k < n && records[k] == Rec(es[i].tag, Some(es[i].dep)))
  }

  lemma ListedMore(records: seq<Rec>, n: nat, stem: nat, es: seq<Entry>)
    requires n < |records| && Listed(records, n, stem, es)
    ensures Listed(records, n + 1, stem, es)
    ensures In(records[n], stem) && records[n].dep.value.index == |es| ==>
              Listed(records, n + 1, stem, es + [Entry(records[n].tag, records[n].dep.value)])
  {
    var x := records[n];
    assert x.dep.Some? ==> x == Rec(x.tag, Some(x.dep.value));
  }

  /** Records of a deployment in file-name order are in offload order, without gaps. */
  lemma {:induction false} OfStemInOrder(records: seq<Rec>, clock: nat, n: nat, stem: nat)
    requires n <= |records| && InOrder(records, clock) && Numbered(records)
    ensures Listed(records, n, stem, OfStem(records, n, stem))
  {
    hide Listed, InOrder, Numbered;
    if n == 0 {
      NoneListed(records, stem);
    } else {
      OfStemInOrder(records, clock, n - 1, stem);
      ListedMore(records, n - 1, stem, OfStem(records, n - 1, stem));
      if In(records[n - 1], stem) {
        NumberedAt(records, n - 1);
      } else {
        assert OfStem(records, n, stem) == OfStem(records, n - 1, stem);
      }
    }
  }

  lemma NumberedAt(records: seq<Rec>, i: nat)
    requires Numbered(records) && i < |records| && records[i].dep.Some?
    ensures records[i].dep.value.index == |OfStem(records, i, records[i].dep.value.stem)|
  {
    hide OfStem;
  }

  lemma NoneListed(records: seq<Rec>, stem: nat)
    ensures Listed(records, 0, stem, [])
  {
  }
}
