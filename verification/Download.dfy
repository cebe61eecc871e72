/** Reading a logger's memory: the resumable block loop, and the incremental offload of an RBRsolo deployment. */
module Download {
  import opened Basics

  const CHUNK: nat := 68000
  const HEAD: nat := 512

  datatype Trouble =
    | LinkFailed
    | ShortRead
    | PartTooLong
    | Interrupted

  /** The serial link: reads of the logger's memory that return its bytes, or fail, or stop short. A steady link does
      neither of the last two. */
  class Link {
    const steady: bool
    var memory: seq<byte>

    constructor (memory: seq<byte>, steady: bool)
      ensures this.memory == memory && this.steady == steady
    {
      this.memory := memory;
      this.steady := steady;
    }

    method ReadData(count: nat, offset: nat) returns (r: Result<seq<byte>, Trouble>)
      requires offset <= |memory|
      ensures r.Ok? ==> |r.value| <= count && offset + |r.value| <= |memory| &&
                        r.value == memory[offset..offset + |r.value|]
      ensures r.Err? ==> r.error == LinkFailed
      ensures steady && offset + count <= |memory| ==> r.Ok? && |r.value| == count
    {
      var fails: bool := *;
      var n: nat := if offset + count <= |memory| then count else |memory| - offset;
      var short: nat :| short <= n;
      if steady {
        fails, short := false, n;
      }
      r := if fails then Err(LinkFailed) else Ok(memory[offset..offset + short]);
    }
  }

  /** A file on disk that holds the part of a download read so far. If it is steady, nothing interrupts the download. */
  class PartFile {
    const steady: bool
    var bytes: Option<seq<byte>>

    constructor (bytes: Option<seq<byte>>, steady: bool)
      ensures this.bytes == bytes && this.steady == steady
    {
      this.bytes := bytes;
      this.steady := steady;
    }

    function Content(): seq<byte>
      reads this
    {
      if bytes.Some? then bytes.value else []
    }

    /** Append a block. A crash can leave any prefix of it behind. */
    method Append(block: seq<byte>) returns (whole: bool)
      modifies this
      ensures bytes.Some?
      ensures exists k: nat :: k <= |block| && bytes.value == old(Content()) + block[..k]
      ensures whole ==> bytes.value == old(Content()) + block
      ensures steady ==> whole
    {
      var k: nat :| k <= |block|;
      if steady {
        k := |block|;
      }
      bytes := Some(Content() + block[..k]);
      whole := k == |block|;
      assert block[..|block|] == block;
    }
  }

  function Min(a: nat, b: nat): nat {
    if a < b then a else b
  }

  // ---- the block loop ----

  /** From byte 0 a part file is used again only if it starts with the logger's header. */
  predicate Reused(part: Option<seq<byte>>, memory: seq<byte>, total: nat, start: nat)
    requires total <= |memory|
  {
    part.Some? && (start == 0 ==> memory[..Min(HEAD, total)] <= part.value)
  }

  /** What a download starts from: the part file it uses again, or nothing. */
  function Base(part: Option<seq<byte>>, memory: seq<byte>, total: nat, start: nat): seq<byte>
    requires total <= |memory|
  {
    if Reused(part, memory, total, start) then part.value else []
  }

  /** `content` is base with more of the memory that follows it. */
  ghost predicate MoreOf(base: seq<byte>, content: seq<byte>, memory: seq<byte>, total: nat, start: nat)
    requires total <= |memory|
  {
    && start + |base| <= start + |content| <= total
    && content == base + memory[start + |base|..start + |content|]
  }

  /** part' is what an attempt may leave of part: untouched, dropped if it is another deployment's, or its base with
      more of the memory that follows it. */
  ghost predicate Attempt(part: Option<seq<byte>>, part': Option<seq<byte>>, memory: seq<byte>, total: nat, start: nat)
    requires total <= |memory|
  {
    var base := Base(part, memory, total, start);
    || part' == part
    || (part' == None && !Reused(part, memory, total, start))
    || part' == Some(base)
    || (part'.Some? && MoreOf(base, part'.value, memory, total, start))
  }

  /** From byte 0: read the header, and drop the part file if it does not start with it. */
  method CheckHeader(link: Link, total: nat, part: PartFile) returns (r: Result<seq<byte>, Trouble>)
    requires total <= |link.memory|
    modifies part
    ensures r.Err? ==> part.bytes == old(part.bytes) && r.error != PartTooLong
    ensures link.steady ==> r.Ok?
    ensures r.Ok? ==> r.value == link.memory[..Min(HEAD, total)]
    ensures r.Ok? ==> part.bytes == if Reused(old(part.bytes), link.memory, total, 0) then old(part.bytes) else None
  {
    var headLen := Min(HEAD, total);
    r := link.ReadData(headLen, 0);
    if r.Ok? {
      if |r.value| != headLen {
        return Err(ShortRead);
      }
      if part.bytes.Some? && part.bytes.value[..Min(headLen, |part.bytes.value|)] != r.value {
        part.bytes := None;
      }
    }
  }

  /** Append the blocks of memory from `offset` to `total`, one after the other. */
  method ReadBlocks(link: Link, total: nat, part: PartFile, start: nat, offset: nat, ghost base: seq<byte>)
    returns (r: Result<seq<byte>, Trouble>)
    requires total <= |link.memory|
    requires offset == start + |part.Content()| && part.bytes.Some?
             && MoreOf(base, part.Content(), link.memory, total, start)
    modifies part
    ensures part.bytes.Some? && MoreOf(base, part.Content(), link.memory, total, start)
    ensures r.Ok? ==> start + |part.Content()| == total && part.bytes == Some(r.value)
    ensures r.Err? ==> r.error != PartTooLong
    ensures link.steady && part.steady ==> r.Ok?
  {
    var at := offset;
    while at < total
      invariant at == start + |part.Content()| && part.bytes.Some?
      invariant MoreOf(base, part.Content(), link.memory, total, start)
      decreases total - at
    {
      var n := Min(CHUNK, total - at);
      var block := link.ReadData(n, at);
      if block.Err? {
        return block;
      }
      if |block.value| != n {
        return Err(ShortRead);
      }
      ghost var content := part.Content();
      var whole := part.Append(block.value);
      AppendedMore(base, content, link.memory, total, start, block.value, part.Content());
      var stopped: bool := *;
      if !whole || (stopped && !part.steady) {
        return Err(Interrupted);
      }
      at := at + n;
    }
    r := Ok(part.bytes.value);
  }

  /** Read bytes start..total of the memory, appending to the part file, so that an interrupted download resumes where
      it stopped. */
  method ReadMemory(link: Link, total: nat, part: PartFile, start: nat) returns (r: Result<seq<byte>, Trouble>)
    requires start <= total <= |link.memory|
    modifies part
    ensures Attempt(old(part.bytes), part.bytes, link.memory, total, start)
    ensures r.Ok? ==> part.bytes == Some(r.value) && start + |r.value| == total
                      && MoreOf(Base(old(part.bytes), link.memory, total, start), r.value, link.memory, total, start)
    ensures link.steady && part.steady && start + |Base(old(part.bytes), link.memory, total, start)| <= total ==> r.Ok?
    ensures r == Err(PartTooLong) ==> start + |Base(old(part.bytes), link.memory, total, start)| > total
  {
    hide MoreOf;
    var head: seq<byte> := [];
    if start == 0 {
      var got := CheckHeader(link, total, part);
      if got.Err? {
        return got;
      }
      head := got.value;
    }
    ghost var base := Base(old(part.bytes), link.memory, total, start);
    part.bytes := Some(part.Content());
    var offset := start + |part.Content()|;
    if offset > total {
      return Err(PartTooLong);
    }
    NothingYet(base, link.memory, total, start);
    if start == 0 && offset == 0 {
      var whole := part.Append(head);
      AppendedMore(base, base, link.memory, total, 0, head, part.Content());
      if !whole {
        return Err(Interrupted);
      }
      offset := |head|;
    }
    r := ReadBlocks(link, total, part, start, offset, base);
  }

  /** What of a part file is used: all of it, if it is of a segment or starts with the logger's header, and otherwise
      nothing. So what has been read is not read again, and what is another deployment's does not get in. */
  lemma BaseExactly(part: seq<byte>, memory: seq<byte>, total: nat, start: nat)
    requires start <= total <= |memory|
    ensures Base(None, memory, total, start) == []
    ensures var n := if total < 512 then total else 512;
            Base(Some(part), memory, total, start) ==
              if start > 0 || (n <= |part| && part[..n] == memory[..n]) then part else []
  {
  }

  lemma NothingYet(base: seq<byte>, memory: seq<byte>, total: nat, start: nat)
    requires start + |base| <= total <= |memory|
    ensures MoreOf(base, base, memory, total, start)
  {
    assert base == base + memory[start + |base|..start + |base|];
  }

  /** Appending any prefix of the next block of memory leaves base and more of the memory after it. */
  lemma AppendedMore(base: seq<byte>, content: seq<byte>, memory: seq<byte>, total: nat, start: nat, block: seq<byte>,
                     content': seq<byte>)
    requires total <= |memory| && MoreOf(base, content, memory, total, start)
    requires var at := start + |content|; at + |block| <= total && block == memory[at..at + |block|]
    requires exists k: nat :: k <= |block| && content' == content + block[..k]
    ensures MoreOf(base, content', memory, total, start)
  {
    var k: nat :| k <= |block| && content' == content + block[..k];
    var lo, at := start + |base|, start + |content|;
    SliceOfSlice(memory, at, at + |block|, 0, k);
    assert memory[lo..at] + memory[at..at + k] == memory[lo..at + k];
    assert content' == base + (memory[lo..at] + memory[at..at + k]);
  }

  // ---- resuming ----

  /** A part file is sound when what would be used of it is what the memory holds. */
  ghost predicate Sound(part: Option<seq<byte>>, memory: seq<byte>, total: nat, start: nat)
    requires start <= total <= |memory|
  {
    Base(part, memory, total, start) <= memory[start..total]
  }

  /** A completed download is the memory, byte for byte, exactly when its part file was sound. */
  lemma CompleteExactly(part: Option<seq<byte>>, memory: seq<byte>, total: nat, start: nat, got: seq<byte>)
    requires start <= total <= |memory|
    requires start + |got| == total && MoreOf(Base(part, memory, total, start), got, memory, total, start)
    ensures got == memory[start..total] <==> Sound(part, memory, total, start)
  {
    var base := Base(part, memory, total, start);
    var m := memory[start..total];
    assert m == m[..|base|] + m[|base|..];
    SliceOfSlice(memory, start, total, |base|, total - start);
    assert got[..|base|] == base;
    if got == m {
      assert base == m[..|base|];
    }
  }

  /** Two attempts on the same memory leave what one could have left. */
  lemma AttemptTwice(part: Option<seq<byte>>, mid: Option<seq<byte>>, part': Option<seq<byte>>, memory: seq<byte>,
                     total: nat, start: nat)
    requires start <= total <= |memory|
    requires Attempt(part, mid, memory, total, start) && Attempt(mid, part', memory, total, start)
    ensures Attempt(part, part', memory, total, start)
  {
    var base, between := Base(part, memory, total, start), Base(mid, memory, total, start);
    if mid.Some? && mid != part && mid != Some(base) && Reused(mid, memory, total, start)
       && part'.Some? && MoreOf(between, part'.value, memory, total, start) {
      var lo, at, hi := start + |base|, start + |between|, start + |part'.value|;
      assert memory[lo..at] + memory[at..hi] == memory[lo..hi];
      assert part'.value == base + (memory[lo..at] + memory[at..hi]);
    }
  }

  /** An attempt on a sound part file leaves it, removes it, or leaves the beginning of what is to be read. */
  lemma AttemptLeaves(part: Option<seq<byte>>, part': Option<seq<byte>>, memory: seq<byte>, total: nat, start: nat)
    requires start <= total <= |memory|
    requires Attempt(part, part', memory, total, start) && Sound(part, memory, total, start)
    ensures part' == part || part' == None || part'.value <= memory[start..total]
  {
    var base, m := Base(part, memory, total, start), memory[start..total];
    if part'.Some? && part' != part && part' != Some(base) {
      var n := |part'.value|;
      assert m[..|base|] == base;
      SliceOfSlice(memory, start, total, |base|, n);
      assert m[..|base|] + m[|base|..n] == m[..n];
    }
  }

  /** A growing logger and the attempts to read it: what the memory held, how much of it was wanted, and the part file
      before each attempt. */
  ghost predicate Attempts(memories: seq<seq<byte>>, totals: seq<nat>, parts: seq<Option<seq<byte>>>, start: nat) {
    && |memories| == |totals| && |parts| == |memories| + 1
    && (forall i :: 0 <= i < |totals| ==> start < totals[i] <= |memories[i]|)
    && (forall i :: 0 <= i < |totals| - 1 ==> memories[i] <= memories[i + 1] && totals[i] <= totals[i + 1])
    && (forall i :: 0 <= i < |totals| ==> Attempt(parts[i], parts[i + 1], memories[i], totals[i], start))
  }

  lemma AttemptKeepsSound(part: Option<seq<byte>>, part': Option<seq<byte>>, memory: seq<byte>, total: nat,
                          memory': seq<byte>, total': nat, start: nat)
    requires start < total <= |memory| && total <= total' <= |memory'| && memory <= memory'
    requires Attempt(part, part', memory, total, start) && Sound(part, memory, total, start)
    ensures Sound(part', memory', total', start)
  {
    var base, base' := Base(part, memory, total, start), Base(part', memory', total', start);
    assert memory[start..total] == memory'[start..total];
    assert memory'[start..total] <= memory'[start..total'] by {
      assert memory'[start..total'][..total - start] == memory'[start..total];
    }
    if Reused(part', memory', total', start) {
      if part' == part {
        HeaderGrows(part.value, memory, total, memory', total', start);
      } else if part' != Some(base) {
        assert base == memory[start..start + |base|];
        var lo, hi := start + |base|, start + |part'.value|;
        assert memory[start..lo] + memory[lo..hi] == memory[start..hi];
        assert memory[start..total][..|part'.value|] == memory[start..start + |part'.value|];
      }
    }
  }

  lemma HeaderGrows(part: seq<byte>, memory: seq<byte>, total: nat, memory': seq<byte>, total': nat, start: nat)
    requires start < total <= |memory| && total <= total' <= |memory'| && memory <= memory'
    requires Reused(Some(part), memory', total', start)
    ensures Reused(Some(part), memory, total, start)
  {
    assert memory[..Min(HEAD, total)] == memory'[..Min(HEAD, total)];
    assert memory'[..Min(HEAD, total')][..Min(HEAD, total)] == memory'[..Min(HEAD, total)];
  }

  /** After any sequence of interrupted attempts on a logger that only grew, from a sound part file, the part file is
      still sound, so the attempt that completes returns exactly the memory. */
  lemma {:induction false} ResumesSoundly(memories: seq<seq<byte>>, totals: seq<nat>, parts: seq<Option<seq<byte>>>,
                                          start: nat,
                                          i: nat)
    requires Attempts(memories, totals, parts, start) && i < |totals|
    requires Sound(parts[0], memories[0], totals[0], start)
    ensures Sound(parts[i], memories[i], totals[i], start)
  {
    hide Attempt, Sound;
    if i > 0 {
      ResumesSoundly(memories, totals, parts, start, i - 1);
      AttemptKeepsSound(parts[i - 1], parts[i], memories[i - 1], totals[i - 1], memories[i], totals[i], start);
    }
  }
}
