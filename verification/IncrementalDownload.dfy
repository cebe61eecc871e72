/** Offloading a deployment of which a part is already on disk: only the bytes past it are read, once its first and
    last blocks have been read back and compared. */
module IncrementalDownload {
  import opened Basics
  import opened Download

  /** A deployment's image on disk, and, if the logger has since come to report another header, that header. */
  datatype Held = Held(data: seq<byte>, header: Option<seq<byte>>)

  datatype Kind = Full | Incremental | FullVerified

  datatype Downloaded = Downloaded(
    image: seq<byte>,
    offset: nat,
    appended: nat,
    kind: Kind,
    bytesRead: nat,
    headerChanged: seq<nat>,
    headerNow: Option<seq<byte>>)

  datatype Reason =
    | Shrunk
    | DiffersAt(at: nat)
    | HeaderUnchecked
    | HeaderDiffers

  datatype Failure =
    | ReadFailed(trouble: Trouble)
    | Mismatch(reason: Reason, reading: Option<seq<byte>>)

  // ---- headers ----

  predicate IsSectioned(image: seq<byte>) {
    |image| >= 11 && image[0] == 1 && image[1] == 9 && image[2] == 0
  }

  /** `parsed` is the length a sectioned header gives itself, where it can be parsed. */
  function HeaderLength(image: seq<byte>, parsed: seq<byte> -> Option<nat>): nat {
    if |image| < 64 then |image|
    else if IsSectioned(image) then (if parsed(image).Some? then parsed(image).value else |image|)
    else Min(HEAD, |image|)
  }

  /** The first bytes of an image, which name its deployment. */
  function Identity(image: seq<byte>, parsed: seq<byte> -> Option<nat>): seq<byte> {
    image[..Min(HeaderLength(image, parsed), |image|)]
  }

  /** How much of a held image is header: the part of it that a full read does not compare. */
  function HeaderEnd(data: seq<byte>): nat {
    Min(HEAD, |data|)
  }

  function Past(at: nat, header: nat): nat {
    if at < header then header else at
  }

  function Previous(held: Held): seq<byte> {
    if held.header.Some? then held.header.value else held.data[..HeaderEnd(held.data)]
  }

  /** The positions below `hi` at which two byte strings differ. */
  function Differences(a: seq<byte>, b: seq<byte>, hi: nat): (p: seq<nat>)
    requires hi <= |a| && hi <= |b|
    ensures forall i :: i in p <==> 0 <= i < hi && a[i] != b[i]
    ensures forall j, k :: 0 <= j < k < |p| ==> p[j] < p[k]
  {
    Positions(seq(hi, i requires 0 <= i < hi => a[i] != b[i]), 0, hi)
  }

  function Limit(held: Held): nat {
    if held.data == [] then HEAD else HeaderEnd(held.data)
  }

  function HeaderChanges(held: Held, now: seq<byte>): seq<nat> {
    Differences(now, Previous(held), Min(Limit(held), Min(|now|, |Previous(held)|)))
  }

  /** The logger's header, where it is not the saved image's. */
  function HeaderNow(held: Held, now: seq<byte>): Option<seq<byte>> {
    var h := now[..Min(Limit(held), |now|)];
    if h != held.data[..HeaderEnd(held.data)] then Some(h) else None
  }

  /** What the logger reports as its header is compared with the one reported last, where both have it: 512 bytes, or as
      many as the held image has if that is not empty. It is kept where it is not how the held image begins. */
  lemma HeaderCompared(held: Held, now: seq<byte>)
    ensures var n := if held.data == [] || |held.data| > 512 then 512 else |held.data|;
            var first := if |held.data| > 512 then held.data[..512] else held.data;
            var last := match held.header case Some(h) => h case None => first;
            && (forall i :: i in HeaderChanges(held, now) <==>
                  0 <= i < n && i < |now| && i < |last| && now[i] != last[i])
            && var reported := if |now| > n then now[..n] else now;
               HeaderNow(held, now) == if reported == first then None else Some(reported)
  {
    hide Differences;
    assert held.data[..|held.data|] == held.data && now[..|now|] == now;
    assert Previous(held) == if held.header.Some? then held.header.value else held.data[..HeaderEnd(held.data)];
  }

  // ---- what a download promises ----

  /** Bytes lo..hi of the memory are those of the held image. */
  ghost predicate Agree(data: seq<byte>, memory: seq<byte>, lo: nat, hi: nat) {
    hi <= |data| && hi <= |memory| && forall i :: lo <= i < hi ==> data[i] == memory[i]
  }

  /** An image extends the held one, and has the memory's bytes from `lo` on. */
  ghost predicate Extends(d: Downloaded, held: Held, memory: seq<byte>, total: nat, lo: nat) {
    && lo <= |held.data| <= total <= |memory|
    && d.image == held.data[..lo] + memory[lo..total]
    && held.data <= d.image
    && d.offset == |held.data| && d.appended == total - |held.data|
  }

  /** A whole read of a deployment on disk: every byte after its header was compared. */
  ghost predicate Verified(d: Downloaded, held: Held, memory: seq<byte>, total: nat) {
    && d.kind == FullVerified
    && Extends(d, held, memory, total, HeaderEnd(held.data))
    && d.headerChanged == HeaderChanges(held, memory[..total])
    && (|held.data| <= Limit(held) ==> d.headerChanged == [])
    && d.headerNow == HeaderNow(held, memory[..total])
  }

  /** An incremental read: both ends of the held image were compared, and the header had not changed. */
  ghost predicate Appended(d: Downloaded, held: Held, memory: seq<byte>, total: nat) {
    && d.kind == Incremental
    && Extends(d, held, memory, total, |held.data|)
    && BothEnds(held, memory)
    && d.headerChanged == [] == HeaderChanges(held, memory[..Min(CHUNK, |held.data|)])
    && d.headerNow == HeaderNow(held, memory[..Min(CHUNK, |held.data|)])
    && d.bytesRead == Min(2 * CHUNK, |held.data|) + d.appended
  }

  ghost predicate BothEnds(held: Held, memory: seq<byte>) {
    var n := |held.data|;
    && Agree(held.data, memory, HeaderEnd(held.data), Min(CHUNK, n))
    && Agree(held.data, memory, if n <= 2 * CHUNK then Min(CHUNK, n) else n - CHUNK, n)
  }

  /** A reason given for starting a new deployment is a fact about the memory. */
  ghost predicate Justified(reason: Reason, held: Held, memory: seq<byte>, total: nat) {
    && total <= |memory|
    && match reason {
         case Shrunk => total < |held.data|
         case DiffersAt(i) => HeaderEnd(held.data) <= i < |held.data| <= total && memory[i] != held.data[i]
         case HeaderUnchecked =>
           |held.data| <= total && |held.data| <= Limit(held) && HeaderChanges(held, memory[..total]) != []
         case HeaderDiffers => false
       }
  }

  // ---- the download ----

  /** The first place in lo..hi at which a block of memory read from `at` differs from the held image. */
  method FirstDifference(block: seq<byte>, at: nat, data: seq<byte>, lo: nat, hi: nat) returns (first: nat)
    requires at <= lo <= hi <= at + |block| && hi <= |data|
    requires block[lo - at..hi - at] != data[lo..hi]
    ensures lo <= first < hi && block[first - at] != data[first]
    ensures block[lo - at..first - at] == data[lo..first]
  {
    first := lo;
    while block[first - at] == data[first]
      invariant lo <= first < hi
      invariant forall k :: lo <= k < first ==> block[k - at] == data[k]
      decreases hi - first
    {
      if first == hi - 1 {
        SameSlices(block, at, data, lo, hi);
      }
      first := first + 1;
    }
    SameSlices(block, at, data, lo, first);
  }

  lemma SameSlices(block: seq<byte>, at: nat, data: seq<byte>, lo: nat, hi: nat)
    requires at <= lo <= hi <= at + |block| && hi <= |data|
    requires forall k :: lo <= k < hi ==> block[k - at] == data[k]
    ensures block[lo - at..hi - at] == data[lo..hi]
  {
    var a, b := block[lo - at..hi - at], data[lo..hi];
    forall i | 0 <= i < hi - lo
      ensures a[i] == b[i]
    {
      assert a[i] == block[lo + i - at];
    }
  }

  /** Read the whole memory. */
  method ReadWhole(link: Link, total: nat, whole: PartFile) returns (r: Result<seq<byte>, Failure>)
    requires total <= |link.memory|
    modifies whole
    ensures Attempt(old(whole.bytes), whole.bytes, link.memory, total, 0)
    ensures r.Ok? ==> |r.value| == total && (Sound(old(whole.bytes), link.memory, total, 0) ==>
                                               r.value == link.memory[..total])
    ensures r.Err? ==> r.error.ReadFailed?
    ensures link.steady && whole.steady && Sound(old(whole.bytes), link.memory, total, 0) ==> r.Ok?
  {
    hide Attempt, Sound, MoreOf;
    SoundFits(whole.bytes, link.memory, total, 0);
    if total == 0 {
      Untouched(whole.bytes, link.memory, total, 0);
      return Ok([]);
    }
    var got := ReadMemory(link, total, whole, 0);
    if got.Err? {
      return Err(ReadFailed(got.error));
    }
    CompleteExactly(old(whole.bytes), link.memory, total, 0, got.value);
    r := Ok(got.value);
  }

  lemma SoundFits(part: Option<seq<byte>>, memory: seq<byte>, total: nat, start: nat)
    requires start <= total <= |memory|
    ensures Sound(part, memory, total, start) ==> start + |Base(part, memory, total, start)| <= total
  {
  }

  lemma Untouched(part: Option<seq<byte>>, memory: seq<byte>, total: nat, start: nat)
    requires total <= |memory|
    ensures Attempt(part, part, memory, total, start)
  {
  }

  /** A whole read, checked against the deployment on disk. */
  method VerifyWhole(image: seq<byte>, held: Held) returns (r: Result<Downloaded, Failure>)
    ensures r.Ok? ==> Verified(r.value, held, image, |image|) && r.value.bytesRead == |image|
    ensures r.Err? ==> r.error.Mismatch? && r.error.reading == Some(image)
                       && Justified(r.error.reason, held, image, |image|)
  {
    hide HeaderChanges, HeaderNow, Differences;
    var data, n, h := held.data, |held.data|, HeaderEnd(held.data);
    if |image| < n {
      return Err(Mismatch(Shrunk, Some(image)));
    }
    if image[h..n] != data[h..n] {
      var first := FirstDifference(image, 0, data, h, n);
      return Err(Mismatch(DiffersAt(first), Some(image)));
    }
    var changed := HeaderChanges(held, image);
    assert image[..|image|] == image;
    if changed != [] && n <= Limit(held) {
      return Err(Mismatch(HeaderUnchecked, Some(image)));
    }
    TakesOver(data, image, h);
    r := Ok(Downloaded(data + image[n..], n, |image| - n, FullVerified, |image|, changed, HeaderNow(held, image)));
  }

  lemma TakesOver(data: seq<byte>, image: seq<byte>, h: nat)
    requires h <= |data| <= |image| && image[h..|data|] == data[h..]
    ensures data + image[|data|..] == data[..h] + image[h..|image|]
  {
    assert data == data[..h] + data[h..];
    assert image[h..|image|] == image[h..|data|] + image[|data|..];
  }

  /** Read the held image's first and last block back, and compare what of them is not header. */
  method CheckEnds(link: Link, total: nat, held: Held) returns (r: Result<seq<byte>, Failure>)
    requires |held.data| <= total <= |link.memory|
    ensures r.Ok? ==> BothEnds(held, link.memory[..total]) && r.value == link.memory[..total][..Min(CHUNK, |held.data|)]
    ensures r.Err? && r.error.Mismatch? ==>
              && r.error.reading == None && Justified(r.error.reason, held, link.memory[..total], total)
              && !BothEnds(held, link.memory[..total])
    ensures link.steady ==> r.Ok? || r.error.Mismatch?
  {
    hide Justified, Agree;
    var n := |held.data|;
    var headLen := Min(CHUNK, n);
    var head := ReadBlock(link, headLen, 0);
    if head.Err? {
      return head;
    }
    var tailLen := Min(CHUNK, n - headLen);
    var tail: Result<seq<byte>, Failure> := Ok([]);
    if tailLen > 0 {
      tail := ReadBlock(link, tailLen, n - tailLen);
    }
    if tail.Err? {
      return tail;
    }
    r := CompareBlock(head.value, 0, link.memory[..total], held);
    if r.Ok? {
      r := CompareBlock(tail.value, n - tailLen, link.memory[..total], held);
    }
    SliceOfSlice(link.memory, 0, total, 0, headLen);
    if r.Ok? {
      r := head;
    }
  }

  method ReadBlock(link: Link, count: nat, offset: nat) returns (r: Result<seq<byte>, Failure>)
    requires offset + count <= |link.memory|
    ensures r.Ok? ==> r.value == link.memory[offset..offset + count]
    ensures r.Err? ==> r.error.ReadFailed?
    ensures link.steady ==> r.Ok?
  {
    var block := link.ReadData(count, offset);
    if block.Err? {
      return Err(ReadFailed(block.error));
    }
    if |block.value| != count {
      return Err(ReadFailed(ShortRead));
    }
    r := Ok(block.value);
  }

  /** Compare one block with the held image, from the end of its header on. */
  method CompareBlock(block: seq<byte>, at: nat, ghost memory: seq<byte>, held: Held)
    returns (r: Result<seq<byte>, Failure>)
    requires at + |block| <= |held.data| <= |memory| && block == memory[at..at + |block|]
    ensures r.Ok? <==> Agree(held.data, memory, Past(at, HeaderEnd(held.data)), at + |block|)
    ensures r.Err? ==> r.error.Mismatch? && r.error.reading == None && Justified(r.error.reason, held, memory, |memory|)
  {
    hide HeaderChanges;
    var lo := Past(at, HeaderEnd(held.data));
    var end := at + |block|;
    if lo < end {
      if block[lo - at..] != held.data[lo..end] {
        assert block[lo - at..] == block[lo - at..end - at];
        var first := FirstDifference(block, at, held.data, lo, end);
        assert memory[first] == block[first - at];
        return Err(Mismatch(DiffersAt(first), None));
      }
      forall i | lo <= i < end
        ensures held.data[i] == memory[i]
      {
        assert held.data[lo..end][i - lo] == block[lo - at..][i - lo] == block[i - at];
      }
    }
    r := Ok(block);
  }

  /** The memory passes for the held image grown: something follows it, both its ends agree and the header is as it
      was. Only then is the part file of what follows used. */
  ghost predicate SegmentUsed(held: Held, memory: seq<byte>, total: nat)
    requires total <= |memory|
  {
    && |held.data| < total && BothEnds(held, memory[..total])
    && HeaderChanges(held, memory[..total][..Min(CHUNK, |held.data|)]) == []
  }

  /** The part files that a download would use again hold what the memory holds. */
  ghost predicate SoundParts(whole: Option<seq<byte>>, segment: Option<seq<byte>>, held: Option<Held>,
                             memory: seq<byte>,
                             total: nat)
    requires total <= |memory|
  {
    && Sound(whole, memory, total, 0)
    && (held.Some? && SegmentUsed(held.value, memory, total) ==> Sound(segment, memory, total, |held.value.data|))
  }

  /** What a download leaves of the part files, whether it completes or not. */
  ghost predicate PartsAfter(whole: Option<seq<byte>>, whole': Option<seq<byte>>, segment: Option<seq<byte>>,
                             segment': Option<seq<byte>>, held: Option<Held>, memory: seq<byte>, total: nat)
    requires total <= |memory|
  {
    && Attempt(whole, whole', memory, total, 0)
    && (segment' == segment
        || (held.Some? && SegmentUsed(held.value, memory, total)
            && Attempt(segment, segment', memory, total, |held.value.data|)))
  }

  /** What a download that succeeds has made of the memory it saw. */
  ghost predicate Delivered(d: Downloaded, held: Option<Held>, full: bool, seen: seq<byte>) {
    match held
    case None => d == Downloaded(seen, 0, |seen|, Full, |seen|, [], None)
    case Some(h) => Verified(d, h, seen, |seen|) || (!full && Appended(d, h, seen, |seen|))
  }

  /** All of the memory, as a new deployment or checked against the held one. */
  method DownloadWhole(link: Link, total: nat, held: Option<Held>, whole: PartFile)
    returns (r: Result<Downloaded, Failure>, ghost seen: seq<byte>)
    requires total <= |link.memory|
    modifies whole
    ensures r.Ok? ==> |seen| == total && Delivered(r.value, held, true, seen)
    ensures r.Err? && r.error.Mismatch? ==> held.Some? && |seen| == total && r.error.reading == Some(seen) &&
                                            Justified(r.error.reason, held.value, seen, total)
    ensures Sound(old(whole.bytes), link.memory, total, 0) ==> seen == link.memory[..total]
    ensures link.steady && whole.steady && Sound(old(whole.bytes), link.memory, total, 0) ==> r.Ok? || r.error.Mismatch?
    ensures Attempt(old(whole.bytes), whole.bytes, link.memory, total, 0)
  {
    hide Sound, Attempt, Verified, Appended, Justified;
    var got := ReadWhole(link, total, whole);
    if got.Err? {
      return Err(got.error), link.memory[..total];
    }
    seen := got.value;
    if held.None? {
      r := Ok(Downloaded(got.value, 0, |got.value|, Full, |got.value|, [], None));
    } else {
      r := VerifyWhole(got.value, held.value);
    }
  }

  /** The incremental read, once the two ends of the held image have been compared: it starts where that image ends. */
  method DownloadSegment(link: Link, total: nat, held: Held, head: seq<byte>, segment: PartFile)
    returns (r: Result<Downloaded, Failure>, ghost seen: seq<byte>)
    requires |held.data| <= total <= |link.memory|
    requires BothEnds(held, link.memory[..total])
    requires head == link.memory[..total][..Min(CHUNK, |held.data|)] && HeaderChanges(held, head) == []
    modifies segment
    ensures r.Ok? ==> |seen| == total && Appended(r.value, held, seen, total)
    ensures r.Err? ==> r.error.ReadFailed?
    ensures |held.data| == total || Sound(old(segment.bytes), link.memory, total, |held.data|) ==>
              seen == link.memory[..total] && (link.steady && segment.steady ==> r.Ok?)
    ensures segment.bytes == old(segment.bytes)
            || (|held.data| < total && Attempt(old(segment.bytes), segment.bytes, link.memory, total, |held.data|))
  {
    hide Sound, Attempt, Appended, BothEnds, MoreOf, HeaderChanges, HeaderNow;
    SoundFits(segment.bytes, link.memory, total, |held.data|);
    var data := held.data;
    seen := link.memory[..total];
    var more: seq<byte> := [];
    if total > |data| {
      var got := ReadMemory(link, total, segment, |data|);
      if got.Err? {
        return Err(ReadFailed(got.error)), seen;
      }
      CompleteExactly(old(segment.bytes), link.memory, total, |data|, got.value);
      more := got.value;
    }
    assert link.memory[..total][..|data|] + link.memory[|data|..total] == link.memory[..total];
    seen := link.memory[..total][..|data|] + more;
    r := Ok(Downloaded(data + more, |data|, |more|, Incremental, Min(2 * CHUNK, |data|) + |more|, [],
                       HeaderNow(held, head)));
    AppendedSays(r.value, held, link.memory[..total], seen, more);
  }

  /** The download of a plain image. It reads everything if nothing is held or `full` asks for it, and else compares the
      ends and reads on. A header that is not as it was makes the call start over with `full`, so that its result is a
      verified one. */
  method DownloadPlain(link: Link, total: nat, held: Option<Held>, full: bool, whole: PartFile, segment: PartFile)
    returns (r: Result<Downloaded, Failure>, ghost seen: seq<byte>)
    requires total <= |link.memory| && whole != segment
    modifies whole, segment
    ensures r.Ok? ==> |seen| == total && Delivered(r.value, held, full, seen)
    ensures r.Err? && r.error.Mismatch? ==> |seen| == total && held.Some?
                                            && Justified(r.error.reason, held.value, seen, total)
    ensures r.Err? && r.error.Mismatch? && r.error.reading.Some? ==> r.error.reading.value == seen
    ensures r.Err? && r.error.Mismatch? && full ==> r.error.reading.Some?
    ensures SoundParts(old(whole.bytes), old(segment.bytes), held, link.memory, total) ==>
              && seen == link.memory[..total]
              && (link.steady && whole.steady && segment.steady ==> r.Ok? || r.error.Mismatch?)
    ensures PartsAfter(old(whole.bytes), whole.bytes, old(segment.bytes), segment.bytes, held, link.memory, total)
    decreases !full
  {
    hide Sound, Attempt, Verified, Appended, Justified, BothEnds, HeaderChanges, HeaderNow;
    Untouched(whole.bytes, link.memory, total, 0);
    if held.None? || full {
      r, seen := DownloadWhole(link, total, held, whole);
      return;
    }
    seen := link.memory[..total];
    var data := held.value.data;
    if total < |data| {
      TooShort(held.value, seen, total);
      return Err(Mismatch(Shrunk, None)), seen;
    }
    var head := CheckEnds(link, total, held.value);
    if head.Err? {
      return Err(head.error), seen;
    }
    if HeaderChanges(held.value, head.value) != [] {
      if |data| <= Limit(held.value) {
        OnlyAHeader(held.value, seen, total, head.value);
        return Err(Mismatch(HeaderUnchecked, None)), seen;
      }
      r, seen := DownloadPlain(link, total, held, true, whole, segment);
      if r.Ok? {
        r := Ok(CountRead(r.value, Min(2 * CHUNK, |data|), held.value, seen));
      }
      return;
    }
    r, seen := DownloadSegment(link, total, held.value, head.value, segment);
  }

  function CountRead(d: Downloaded, n: nat, ghost held: Held, ghost memory: seq<byte>): (d': Downloaded)
    requires Verified(d, held, memory, |memory|)
    ensures Verified(d', held, memory, |memory|) && d'.bytesRead == d.bytesRead + n
  {
    d.(bytesRead := d.bytesRead + n)
  }

  lemma TooShort(held: Held, memory: seq<byte>, total: nat)
    requires total < |held.data| && total == |memory|
    ensures Justified(Shrunk, held, memory, total)
  {
  }

  /** The header is all there is, and it changed: the first block shows what the whole memory would. */
  lemma OnlyAHeader(held: Held, memory: seq<byte>, total: nat, head: seq<byte>)
    requires |held.data| <= total == |memory| && |held.data| <= Limit(held)
    requires head == memory[..Min(CHUNK, |held.data|)] && HeaderChanges(held, head) != []
    ensures Justified(HeaderUnchecked, held, memory, total)
  {
    assert memory[..total] == memory;
    var i := HeaderChanges(held, head)[0];
    assert i in HeaderChanges(held, head);
    assert i in HeaderChanges(held, memory);
  }

  lemma AppendedSays(d: Downloaded, held: Held, memory: seq<byte>, seen: seq<byte>, more: seq<byte>)
    requires |held.data| <= |memory| && BothEnds(held, memory)
    requires seen == memory[..|held.data|] + more
    requires var head := memory[..Min(CHUNK, |held.data|)];
             && HeaderChanges(held, head) == []
             && d == Downloaded(held.data + more, |held.data|, |more|, Incremental,
                                Min(2 * CHUNK, |held.data|) + |more|, [], HeaderNow(held, head))
    ensures Appended(d, held, seen, |seen|)
  {
    hide HeaderChanges, HeaderNow;
    var n := |held.data|;
    assert held.data[..n] == held.data;
    assert seen[n..] == more;
    assert seen[..Min(CHUNK, n)] == memory[..Min(CHUNK, n)];
  }

  // ---- sectioned headers ----

  /** A whole read of a deployment with a sectioned header: it must start with every byte held, and its own header must
      end where the held one does. */
  ghost predicate Continues(held: Held, seen: seq<byte>, parsed: seq<byte> -> Option<nat>) {
    Identity(held.data, parsed) == Identity(seen, parsed) && held.data <= seen
  }

  /** Of an image that grew, a whole read continues it exactly when its header, as far as it can be parsed, has not
      grown; an image whose header cannot be parsed is all header. */
  lemma ContinuesExactly(held: Held, seen: seq<byte>, parsed: seq<byte> -> Option<nat>)
    requires |held.data| >= 64 && held.data[..3] == [1, 9, 0] && held.data <= seen
    ensures IsSectioned(held.data) && IsSectioned(seen)
    ensures var n := match parsed(held.data)
                     case Some(x) => Min(x, |held.data|)
                     case None => |held.data|;
            var m := match parsed(seen)
                     case Some(x) => Min(x, |seen|)
                     case None => |seen|;
            Continues(held, seen, parsed) <==> n == m
  {
    assert held.data[0] == held.data[..3][0] && held.data[1] == held.data[..3][1] && held.data[2] == held.data[..3][2];
  }

  /** Why a whole read does not continue the held image, and the first byte at which it does not. */
  ghost predicate Breaks(reason: Reason, held: Held, seen: seq<byte>, parsed: seq<byte> -> Option<nat>) {
    match reason
    case HeaderDiffers => Identity(held.data, parsed) != Identity(seen, parsed)
    case DiffersAt(i) =>
      && Identity(held.data, parsed) == Identity(seen, parsed)
      && i < |held.data| && i <= |seen| && held.data[..i] == seen[..i]
      && (i < |seen| ==> held.data[i] != seen[i])
    case _ => false
  }

  /** The download of an image with a sectioned header: every byte is read and every byte held is compared. */
  method DownloadSectioned(link: Link, total: nat, held: Held, whole: PartFile, parsed: seq<byte> -> Option<nat>)
    returns (r: Result<Downloaded, Failure>, ghost seen: seq<byte>)
    requires total <= |link.memory|
    modifies whole
    ensures Sound(old(whole.bytes), link.memory, total, 0) ==> seen == link.memory[..total]
    ensures link.steady && whole.steady && Sound(old(whole.bytes), link.memory, total, 0) ==> r.Ok? || r.error.Mismatch?
    ensures Attempt(old(whole.bytes), whole.bytes, link.memory, total, 0)
    ensures |seen| == total
    ensures r.Ok? ==> Continues(held, seen, parsed) &&
                      r.value == Downloaded(seen, |held.data|, total - |held.data|, FullVerified, total, [], None)
    ensures r.Err? && r.error.Mismatch? ==> r.error.reading == Some(seen) && Breaks(r.error.reason, held, seen, parsed)
  {
    hide Attempt, Sound, Identity;
    seen := link.memory[..total];
    var got := ReadWhole(link, total, whole);
    if got.Err? {
      return Err(got.error), seen;
    }
    var image := got.value;
    seen := image;
    if Identity(held.data, parsed) != Identity(image, parsed) {
      return Err(Mismatch(HeaderDiffers, Some(image))), seen;
    }
    var n := Min(|held.data|, |image|);
    if held.data[..n] != image[..n] {
      var first := FirstDifference(image, 0, held.data, 0, n);
      return Err(Mismatch(DiffersAt(first), Some(image))), seen;
    }
    if n < |held.data| {
      return Err(Mismatch(DiffersAt(n), Some(image))), seen;
    }
    r := Ok(Downloaded(image, n, |image| - n, FullVerified, |image|, [], None));
  }

  // ---- what follows ----

  /** Everything the held image has past its header is in the memory. */
  ghost predicate Holds(held: Held, memory: seq<byte>) {
    Agree(held.data, memory, HeaderEnd(held.data), |held.data|)
  }

  /** The image is the memory, from the header on, exactly when the memory still holds what no one read back: nothing
      for a held image of two blocks or less, and otherwise the bytes between its first and last block. */
  lemma IncrementalEqualsFull(d: Downloaded, held: Held, memory: seq<byte>)
    ensures Appended(d, held, memory, |memory|) ==>
              (Extends(d, held, memory, |memory|, HeaderEnd(held.data))
               <==> |held.data| <= 136_000 || Agree(held.data, memory, 68_000, |held.data| - 68_000))
  {
    hide HeaderChanges, HeaderNow, Extends;
    if Appended(d, held, memory, |memory|) {
      ExtendsExactly(d, held, memory, HeaderEnd(held.data));
    }
  }

  /** An image that has the memory's bytes past the held one has them from `lo` on exactly when the two agree there. */
  lemma ExtendsExactly(d: Downloaded, held: Held, memory: seq<byte>, lo: nat)
    requires lo <= |held.data| && Extends(d, held, memory, |memory|, |held.data|)
    ensures Extends(d, held, memory, |memory|, lo) <==> Agree(held.data, memory, lo, |held.data|)
  {
    var data, n := held.data, |held.data|;
    assert data[..n] == data;
    var other := data[..lo] + memory[lo..];
    forall i | lo <= i < n
      ensures d.image[i] == data[i] && other[i] == memory[i]
    {
      assert memory[lo..][i - lo] == memory[i];
    }
    if Agree(data, memory, lo, n) {
      assert forall i :: 0 <= i < |other| ==> d.image[i] == other[i];
    } else {
      assert d.image != other;
    }
  }

  /** A logger that only appended to what was held gives its own memory, incrementally or not. */
  lemma AppendOnlyGivesMemory(d: Downloaded, held: Held, full: bool, memory: seq<byte>)
    requires held.data <= memory
    ensures Delivered(d, Some(held), full, memory) ==> d.image == memory
  {
    hide HeaderChanges, HeaderNow, BothEnds;
    if Delivered(d, Some(held), full, memory) {
      var n := |held.data|;
      var lo := if Verified(d, held, memory, |memory|) then HeaderEnd(held.data) else n;
      assert Extends(d, held, memory, |memory|, lo);
      assert held.data[..lo] == memory[..lo];
      assert memory[lo..|memory|] == memory[lo..];
    }
  }

  /** Of a read that was not cut short, a whole one is accepted exactly when the memory holds every byte past the
      header, and a held image that is nothing but a header is accepted only if that header is as it was. */
  lemma AcceptedExactly(r: Result<Downloaded, Failure>, held: Held, seen: seq<byte>)
    requires r.Err? ==> r.error.Mismatch? && Justified(r.error.reason, held, seen, |seen|)
    requires r.Ok? ==> Verified(r.value, held, seen, |seen|)
    ensures r.Ok? <==> Holds(held, seen) && (|held.data| <= Limit(held) ==> HeaderChanges(held, seen) == [])
  {
    hide HeaderChanges, HeaderNow;
    assert seen[..|seen|] == seen;
    if r.Ok? {
      VerifiedHolds(r.value, held, seen);
    }
  }

  lemma VerifiedHolds(d: Downloaded, held: Held, memory: seq<byte>)
    requires Extends(d, held, memory, |memory|, HeaderEnd(held.data))
    ensures Holds(held, memory)
  {
    var h := HeaderEnd(held.data);
    forall i | h <= i < |held.data|
      ensures held.data[i] == memory[i]
    {
      assert d.image[i] == held.data[i];
      assert d.image[i] == memory[h..][i - h];
    }
  }
}
