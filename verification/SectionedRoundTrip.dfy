/** Encoding the readings and event records of a duet or concerto and decoding them back. */
module SectionedRoundTrip {
  import opened Basics
  import opened ClockSegments
  import opened SampleTiming
  import opened SoloDecoder
  import opened SectionedDecoder
  import Solo = SoloRoundTrip
  import Laws = SectionedLaws
  import opened Numbers

  type half = x: int | 0 <= x < 0x1_0000

  /** What a logger appends: a reading, an event record of two words, one of three words with milliseconds, or a long
      one, which also says whether it dates the next sample set. */
  datatype Item =
    | Plain(value: word)
    | Short(kind: byte, seconds: word)
    | Timed(kind: byte, seconds: word, ms: half, pad: seq<byte>)
    | Long(kind: byte, seconds: word, ms: half, dates: bool, flags: nat, rest: seq<byte>)

  /** A long record holds its own length in words in one byte, and seven more flags beside the one that dates. */
  predicate Valid(x: Item) {
    match x
    case Plain(_) => true
    case Short(_, _) => true
    case Timed(_, _, _, pad) => |pad| == 2
    case Long(_, _, _, _, flags, rest) => flags < 0x80 && |rest| % 4 == 0 && 3 + |rest| / 4 < 0x100
  }

  function Marker(x: Item): byte
    requires !x.Plain?
  {
    if x.Short? then 0xF7 else if x.Timed? then 0xF5 else 0xF3
  }

  /** What follows the seconds of a record. */
  function Tail(x: Item): (tail: seq<byte>)
    requires !x.Plain?
    ensures Valid(x) ==> |tail| % 4 == 0 && 2 + |tail| / 4 < 0x100
    ensures x.Short? <==> tail == []
    ensures Valid(x) && x.Timed? ==> |tail| == 4
    ensures Valid(x) && x.Long? ==> |tail| >= 4 && tail[2] as int == 2 + |tail| / 4
  {
    match x
    case Short(_, _) => []
    case Timed(_, _, ms, pad) => [ms % 0x100, ms / 0x100] + pad
    case Long(_, _, ms, dates, flags, rest) =>
      [ms % 0x100, ms / 0x100, (3 + |rest| / 4) % 0x100, (2 * flags + if dates then 1 else 0) % 0x100] + rest
  }

  predicate AllValid(items: seq<Item>) {
    forall k :: 0 <= k < |items| ==> Valid(items[k])
  }

  function Words(x: Item): nat {
    if x.Plain? then 1 else 2 + |Tail(x)| / 4
  }

  ghost function Encode(crc: Checksum, x: Item): (r: seq<byte>)
    requires Solo.IsCrc16(crc) && Valid(x)
    ensures |r| == 4 * Words(x)
  {
    match x
    case Plain(v) => Bytes4(v)
    case _ =>
      var rest := [x.kind, Marker(x)] + Bytes4(x.seconds) + Tail(x);
      [crc(rest) / 0x100, crc(rest) % 0x100] + rest
  }

  function TotalWords(items: seq<Item>): nat {
    if items == [] then 0 else TotalWords(items[..|items| - 1]) + Words(items[|items| - 1])
  }

  ghost function EncodeAll(crc: Checksum, items: seq<Item>): (r: seq<byte>)
    requires Solo.IsCrc16(crc) && AllValid(items)
    ensures |r| == 4 * TotalWords(items)
  {
    if items == [] then []
    else EncodeAll(crc, items[..|items| - 1]) + Encode(crc, items[|items| - 1])
  }

  // ---- the parse of an encoded body ----

  function TokenOf(x: Item, at: nat): (t: Word)
    ensures t.at == at && t.End() == at + Words(x)
  {
    if x.Plain? then Value(at) else Entry(at, Words(x))
  }

  /** Each item becomes one token, where the items before it end. */
  function TokensOf(items: seq<Item>): (ts: seq<Word>)
    ensures |ts| == |items|
  {
    seq(|items|, k requires 0 <= k < |items| => TokenOf(items[k], TotalWords(items[..k])))
  }

  lemma TokensOfInit(items: seq<Item>)
    requires items != []
    ensures var init := items[..|items| - 1];
            TokensOf(items) == TokensOf(init) + [TokenOf(items[|items| - 1], TotalWords(init))]
    ensures TokensOf(items)[..|items| - 1] == TokensOf(items[..|items| - 1])
  {
    hide TotalWords;
    var init := items[..|items| - 1];
    forall k | 0 <= k < |init|
      ensures init[..k] == items[..k]
    {
    }
  }

  /** Each item starts where the one before it ends, and none ends past the last. */
  lemma {:induction false} WordsUpTo(items: seq<Item>, k: nat)
    requires k < |items|
    ensures TotalWords(items[..k + 1]) == TotalWords(items[..k]) + Words(items[k]) <= TotalWords(items)
  {
    hide Words;
    var m := |items| - 1;
    assert items[..m + 1] == items;
    if k < m {
      WordsUpTo(items[..m], k);
      assert items[..m][..k] == items[..k] && items[..m][..k + 1] == items[..k + 1];
    }
  }

  lemma EncodedPrefix(crc: Checksum, items: seq<Item>, body: seq<byte>)
    requires Solo.IsCrc16(crc) && AllValid(items) && EncodeAll(crc, items) <= body && items != []
    ensures var init := items[..|items| - 1];
            && EncodeAll(crc, init) <= body && 4 * TotalWords(items) <= |body|
            && body[4 * TotalWords(init)..4 * TotalWords(items)] == Encode(crc, items[|items| - 1])
  {
    hide Encode;
    var e := EncodeAll(crc, items);
    assert body[..|e|] == e;
  }

  lemma {:induction false} EncodedSlice(crc: Checksum, items: seq<Item>, body: seq<byte>, k: nat)
    requires Solo.IsCrc16(crc) && AllValid(items) && EncodeAll(crc, items) <= body && k < |items|
    ensures var at := TotalWords(items[..k]);
            4 * (at + Words(items[k])) <= |body| && body[4 * at..4 * (at + Words(items[k]))] == Encode(crc, items[k])
  {
    hide Encode, EncodeAll, Tail, Words, Solo.IsCrc16;
    EncodedPrefix(crc, items, body);
    var m := |items| - 1;
    if k < m {
      EncodedSlice(crc, items[..m], body, k);
      assert items[..m][..k] == items[..k];
    }
  }

  /** Where an encoded record's fields are. */
  lemma RecordEncoded(crc: Checksum, x: Item, e: seq<byte>)
    requires Solo.IsCrc16(crc) && Valid(x) && !x.Plain? && e == Encode(crc, x)
    ensures |e| == 8 + |Tail(x)| && e[2] == x.kind && e[3] == Marker(x)
    ensures e[4..8] == Bytes4(x.seconds) && e[8..] == Tail(x)
    ensures 0x100 * e[0] as int + e[1] as int == crc(e[2..])
  {
    var rest := [x.kind, Marker(x)] + Bytes4(x.seconds) + Tail(x);
    assert e[2..] == rest;
    assert e[4..8] == rest[2..6] && e[8..] == rest[6..];
  }

  /** An encoded record is accepted, with its own length. */
  lemma RecordParses(crc: Checksum, body: seq<byte>, n: nat, x: Item, at: nat)
    requires Solo.IsCrc16(crc) && Valid(x) && !x.Plain? && 4 * n <= |body| < 4 * n + 4 && at + Words(x) <= n
    requires body[4 * at..4 * (at + Words(x))] == Encode(crc, x)
    ensures WordAt(crc, body, n, at) == TokenOf(x, at)
  {
    hide Encode, Tail, Bytes4, Solo.IsCrc16;
    var e := body[4 * at..4 * (at + Words(x))];
    RecordEncoded(crc, x, e);
    assert body[4 * at] == e[0] && body[4 * at + 1] == e[1] && body[4 * at + 3] == e[3];
    SliceOfSlice(body, 4 * at, 4 * (at + Words(x)), 2, |e|);
    if x.Long? {
      assert body[4 * at + 10] == e[10] == e[8..][2] == Tail(x)[2];
    }
  }

  /** No reading, with the words after it, happens to form an event record. */
  ghost predicate NoFalseRecords(crc: Checksum, items: seq<Item>, body: seq<byte>)
    requires 4 * TotalWords(items) <= |body|
  {
    forall k :: 0 <= k < |items| && items[k].Plain? ==> !FalseRecord(crc, items, body, k)
  }

  ghost predicate FalseRecord(crc: Checksum, items: seq<Item>, body: seq<byte>, k: nat)
    requires k < |items| && 4 * TotalWords(items) <= |body|
  {
    WordsUpTo(items, k);
    items[k].Plain? && Accepted(crc, body, TotalWords(items[..k]))
  }

  lemma {:induction false} ParseEncoded(crc: Checksum, items: seq<Item>, k: nat)
    requires Solo.IsCrc16(crc) && AllValid(items) && k <= |items|
    requires NoFalseRecords(crc, items, EncodeAll(crc, items))
    ensures TotalWords(items[..k]) <= TotalWords(items)
    ensures Parse(crc, EncodeAll(crc, items), TotalWords(items), TotalWords(items[..k])) == TokensOf(items)[k..]
    decreases |items| - k
  {
    hide Encode, EncodeAll, Accepted, TotalWords, Solo.IsCrc16, RecordWords;
    var body, n := EncodeAll(crc, items), TotalWords(items);
    if k == |items| {
      assert items[..k] == items;
    } else {
      var at := TotalWords(items[..k]);
      WordsUpTo(items, k);
      EncodedSlice(crc, items, body, k);
      if !items[k].Plain? {
        RecordParses(crc, body, n, items[k], at);
      } else {
        assert !FalseRecord(crc, items, body, k);
      }
      ParseEncoded(crc, items, k + 1);
      assert TokensOf(items)[k..] == [TokensOf(items)[k]] + TokensOf(items)[k + 1..];
    }
  }

  /** A token of a parse is what its word is. */
  lemma {:induction false} TokensAreWords(crc: Checksum, body: seq<byte>, n: nat, i: nat, k: nat)
    requires i <= n && 4 * n <= |body| < 4 * n + 4 && k < |Parse(crc, body, n, i)|
    ensures var t := Parse(crc, body, n, i)[k]; t.at < n && t == WordAt(crc, body, n, t.at)
    decreases n - i
  {
    hide Accepted;
    if k > 0 {
      TokensAreWords(crc, body, n, WordAt(crc, body, n, i).End(), k - 1);
    }
  }

  /** What is put in is parsed back, item by item, exactly when no reading happens to form an event record. */
  lemma ParsesBackExactly(crc: Checksum, items: seq<Item>)
    requires Solo.IsCrc16(crc) && AllValid(items)
    ensures Parse(crc, EncodeAll(crc, items), TotalWords(items), 0) == TokensOf(items)
            <==> NoFalseRecords(crc, items, EncodeAll(crc, items))
  {
    hide EncodeAll, Accepted, Parse;
    var body, n := EncodeAll(crc, items), TotalWords(items);
    if NoFalseRecords(crc, items, body) {
      ParseEncoded(crc, items, 0);
      assert items[..0] == [];
    } else if Parse(crc, body, n, 0) == TokensOf(items) {
      var k :| 0 <= k < |items| && items[k].Plain? && FalseRecord(crc, items, body, k);
      WordsUpTo(items, k);
      TokensAreWords(crc, body, n, 0, k);
      assert false;
    }
  }

  // ---- what the decoder makes of it ----

  function Values(items: seq<Item>): (values: seq<word>) {
    if items == [] then []
    else
      var x := items[|items| - 1];
      Values(items[..|items| - 1]) + (if x.Plain? then [x.value] else [])
  }

  /** Readings that look like the start of an event. */
  function Lookalikes(items: seq<Item>): nat {
    if items == [] then 0
    else
      var x := items[|items| - 1];
      Lookalikes(items[..|items| - 1]) + (if x.Plain? && 0xF3 <= x.value / 0x100_0000 <= 0xF7
                                             && x.value / 0x100_0000 % 2 == 1 then 1 else 0)
  }

  /** The event a record is decoded to: the set in progress or next is the one after `sets` complete ones. */
  function EventPut(x: Item, offset: nat, sets: nat): Event
    requires Valid(x) && !x.Plain?
  {
    Event(offset, x.kind, x.seconds, sets, 8 + |Tail(x)|)
  }

  function Dates(x: Item): bool
    requires !x.Plain?
  {
    if x.Long? then x.dates else x.kind == 0x01 || x.kind == 0x04 || x.kind == 0x0A || x.kind == 0x0B
  }

  function AnchorPut(x: Item, sets: nat): Anchor
    requires !x.Plain?
  {
    Anchor(sets, 946_684_800_000 + 1000 * x.seconds + (if x.Short? then 0 else x.ms), x.seconds)
  }

  /** The events and time anchors put in, each before the samples that follow it. */
  function ItemMarks(items: seq<Item>, base: nat, nstored: nat): Marks
    requires nstored > 0 && AllValid(items)
  {
    if items == [] then Marks([], [])
    else
      var init, x := items[..|items| - 1], items[|items| - 1];
      var m := ItemMarks(init, base, nstored);
      if x.Plain? then m
      else
        var sets := |Values(init)| / nstored;
        Marks(m.events + [EventPut(x, base + 4 * TotalWords(init), sets)],
              m.anchors + if Dates(x) then [AnchorPut(x, sets)] else [])
  }

  lemma PlainEncoded(crc: Checksum, x: Item)
    requires Solo.IsCrc16(crc) && Valid(x) && x.Plain?
    ensures Encode(crc, x) == Bytes4(x.value)
  {
  }

  lemma {:induction false} TokensWithin(crc: Checksum, items: seq<Item>, body: seq<byte>)
    requires Solo.IsCrc16(crc) && AllValid(items) && EncodeAll(crc, items) <= body
    ensures Within(TokensOf(items), body)
  {
    hide EncodeAll, Encode, Solo.IsCrc16;
    if items != [] {
      var init, x := items[..|items| - 1], items[|items| - 1];
      EncodedPrefix(crc, items, body);
      TokensWithin(crc, init, body);
      TokensOfInit(items);
      assert Valid(x);
    }
  }

  lemma {:induction false} ReadingsEncoded(crc: Checksum, items: seq<Item>, body: seq<byte>)
    requires Solo.IsCrc16(crc) && AllValid(items) && EncodeAll(crc, items) <= body
    ensures Solo.Reads(body, ReadingsIn(TokensOf(items)), Values(items))
  {
    hide EncodeAll, Encode, Solo.IsCrc16, Valid;
    if items != [] {
      var init, x := items[..|items| - 1], items[|items| - 1];
      EncodedPrefix(crc, items, body);
      ReadingsEncoded(crc, init, body);
      TokensOfInit(items);
      if x.Plain? {
        PlainEncoded(crc, x);
      }
    }
  }

  lemma {:induction false} MarkersEncoded(crc: Checksum, items: seq<Item>, body: seq<byte>)
    requires Solo.IsCrc16(crc) && AllValid(items) && EncodeAll(crc, items) <= body
    ensures Within(TokensOf(items), body) && BadMarkers(body, TokensOf(items)) == Lookalikes(items)
  {
    hide EncodeAll, Solo.IsCrc16, Within, BadMarkers, Lookalikes;
    TokensWithin(crc, items, body);
    if items == [] {
      NoMarkers(body);
    } else {
      var init, x := items[..|items| - 1], items[|items| - 1];
      EncodedPrefix(crc, items, body);
      MarkersEncoded(crc, init, body);
      if x.Plain? {
        PlainInBody(crc, x, body, 4 * TotalWords(init));
      }
      OneMoreMarker(items, body);
    }
  }

  lemma NoMarkers(body: seq<byte>)
    ensures Within(TokensOf([]), body) && BadMarkers(body, TokensOf([])) == Lookalikes([])
  {
  }

  lemma PlainInBody(crc: Checksum, x: Item, body: seq<byte>, at: nat)
    requires Solo.IsCrc16(crc) && Valid(x) && x.Plain? && at + 4 <= |body| && body[at..at + 4] == Encode(crc, x)
    ensures body[at + 3] == x.value / 0x100_0000
  {
    ReadsBack(body, at, x.value);
  }

  lemma OneMoreMarker(items: seq<Item>, body: seq<byte>)
    requires AllValid(items) && items != []
    requires var init, x := items[..|items| - 1], items[|items| - 1];
             && Within(TokensOf(init), body) && Within(TokensOf(items), body)
             && BadMarkers(body, TokensOf(init)) == Lookalikes(init)
             && (x.Plain? ==> 4 * TotalWords(init) + 4 <= |body|
                              && body[4 * TotalWords(init) + 3] == x.value / 0x100_0000)
    ensures BadMarkers(body, TokensOf(items)) == Lookalikes(items)
  {
    hide TotalWords;
    TokensOfInit(items);
    assert Valid(items[|items| - 1]);
  }

  /** The fields of a record are in the body, from byte b on. */
  ghost predicate HasFields(body: seq<byte>, b: nat, x: Item)
    requires Valid(x) && !x.Plain?
  {
    && b + 8 + |Tail(x)| <= |body|
    && body[b + 2] == x.kind && body[b + 3] == Marker(x) && U32(body, b + 4) == x.seconds
    && (Tail(x) != [] ==> body[b + 8] as int + 0x100 * body[b + 9] as int == x.ms)
    && (x.Long? ==> (body[b + 11] % 2 == 1 <==> x.dates))
  }

  lemma TailFields(x: Item)
    requires Valid(x) && !x.Plain? && !x.Short?
    ensures |Tail(x)| >= 4 && Tail(x)[0] as int + 0x100 * Tail(x)[1] as int == x.ms
    ensures x.Long? ==> (Tail(x)[3] % 2 == 1 <==> x.dates)
  {
  }

  lemma FieldsEncoded(crc: Checksum, x: Item, body: seq<byte>, b: nat)
    requires Solo.IsCrc16(crc) && Valid(x) && !x.Plain? && b + 8 + |Tail(x)| <= |body|
    requires body[b..b + 8 + |Tail(x)|] == Encode(crc, x)
    ensures HasFields(body, b, x)
  {
    hide Encode, U32, Solo.IsCrc16, Tail, Bytes4, Marker, Valid;
    var e := body[b..b + 8 + |Tail(x)|];
    RecordEncoded(crc, x, e);
    assert body[b + 2] == e[2] && body[b + 3] == e[3];
    SliceOfSlice(body, b, b + 8 + |Tail(x)|, 4, 8);
    ReadsBack(body, b + 4, x.seconds);
    if !x.Short? {
      TailFields(x);
      assert body[b + 8] == e[8] == e[8..][0] && body[b + 9] == e[9] == e[8..][1];
      assert body[b + 11] == e[11] == e[8..][3];
    }
  }

  /** The token of an item: not a record that fails, and, if a record, decoded to the event and anchor put in. */
  ghost predicate DecodesTo(body: seq<byte>, base: nat, x: Item, at: nat, sets: nat)
    requires Valid(x)
  {
    var t := TokenOf(x, at);
    && 4 * t.End() <= |body| && !Unreadable(body, t)
    && (!x.Plain? ==>
          && Words(x) >= 2 && EventOf(body, base, t, sets) == EventPut(x, base + 4 * at, sets)
          && Anchors(body, t) == Dates(x) && AnchorFrom(body, t, sets) == AnchorPut(x, sets))
  }

  lemma FieldsDecode(body: seq<byte>, base: nat, x: Item, at: nat, sets: nat)
    requires Valid(x) && (!x.Plain? ==> HasFields(body, 4 * at, x)) && 4 * (at + Words(x)) <= |body|
    ensures DecodesTo(body, base, x, at, sets)
  {
    hide U32, Tail;
  }

  lemma LastDecodes(crc: Checksum, items: seq<Item>, body: seq<byte>, base: nat, sets: nat)
    requires Solo.IsCrc16(crc) && AllValid(items) && EncodeAll(crc, items) <= body && items != []
    ensures DecodesTo(body, base, items[|items| - 1], TotalWords(items[..|items| - 1]), sets)
  {
    hide EncodeAll, Encode, Solo.IsCrc16, HasFields, DecodesTo;
    EncodedPrefix(crc, items, body);
    var x, at := items[|items| - 1], TotalWords(items[..|items| - 1]);
    assert Valid(x);
    if !x.Plain? {
      FieldsEncoded(crc, x, body, 4 * at);
    }
    FieldsDecode(body, base, x, at, sets);
  }

  /** The tokens of the items yield the marks put in, and no record among them fails. */
  ghost predicate MarksAgree(items: seq<Item>, body: seq<byte>, base: nat, nstored: nat)
    requires AllValid(items) && nstored > 0
  {
    && Within(TokensOf(items), body) && |ReadingsIn(TokensOf(items))| == |Values(items)|
    && MarksOf(body, base, nstored, TokensOf(items)) == ItemMarks(items, base, nstored)
    && !AnyUnreadable(body, TokensOf(items))
  }

  lemma {:induction false} MarksEncoded(crc: Checksum, items: seq<Item>, body: seq<byte>, base: nat, nstored: nat)
    requires Solo.IsCrc16(crc) && AllValid(items) && EncodeAll(crc, items) <= body && nstored > 0
    ensures MarksAgree(items, body, base, nstored)
  {
    hide EncodeAll, Encode, Solo.IsCrc16, DecodesTo, MarksOf, ItemMarks, AnyUnreadable, Within, TokensOf, ReadingsIn,
         Values, TotalWords, AllValid, Valid, MarksAgree;
    TokensWithin(crc, items, body);
    ReadingsCount(crc, items, body);
    if items == [] {
      NoMarks(body, base, nstored);
    } else {
      var init := items[..|items| - 1];
      InitValid(items);
      EncodedPrefix(crc, items, body);
      MarksEncoded(crc, init, body, base, nstored);
      LastDecodes(crc, items, body, base, |Values(init)| / nstored);
      OneMoreMark(items, body, base, nstored);
    }
  }

  lemma InitValid(items: seq<Item>)
    requires AllValid(items) && items != []
    ensures AllValid(items[..|items| - 1]) && Valid(items[|items| - 1])
  {
  }

  lemma NoMarks(body: seq<byte>, base: nat, nstored: nat)
    requires nstored > 0
    ensures MarksAgree([], body, base, nstored)
  {
  }

  ghost predicate NextDecodes(items: seq<Item>, body: seq<byte>, base: nat, nstored: nat)
    requires AllValid(items) && items != [] && nstored > 0
  {
    var init, x := items[..|items| - 1], items[|items| - 1];
    DecodesTo(body, base, x, TotalWords(init), |Values(init)| / nstored)
  }

  lemma OneMoreMark(items: seq<Item>, body: seq<byte>, base: nat, nstored: nat)
    requires AllValid(items) && items != [] && nstored > 0
    requires MarksAgree(items[..|items| - 1], body, base, nstored)
    requires Within(TokensOf(items), body) && |ReadingsIn(TokensOf(items))| == |Values(items)|
    requires NextDecodes(items, body, base, nstored)
    ensures MarksAgree(items, body, base, nstored)
  {
    hide ReadingsIn, Values, EventOf, EventPut, Anchors, Dates, AnchorFrom, AnchorPut, Unreadable, TotalWords;
    assert Valid(items[|items| - 1]);
    TokensOfInit(items);
    LastUnreadable(body, TokensOf(items));
  }

  lemma ReadingsCount(crc: Checksum, items: seq<Item>, body: seq<byte>)
    requires Solo.IsCrc16(crc) && AllValid(items) && EncodeAll(crc, items) <= body
    ensures |ReadingsIn(TokensOf(items))| == |Values(items)|
  {
    hide ReadingsIn, Values;
    ReadingsEncoded(crc, items, body);
  }

  lemma LastUnreadable(body: seq<byte>, ts: seq<Word>)
    requires ts != [] && Within(ts, body)
    ensures var m := |ts| - 1;
            AnyUnreadable(body, ts) <==> AnyUnreadable(body, ts[..m]) || Unreadable(body, ts[m])
  {
    var m := |ts| - 1;
    assert forall k :: 0 <= k < m ==> ts[k] == ts[..m][k];
  }

  /** d holds what was put in: every reading in order as far as whole sample sets go, every event before the samples
      that followed it, times that follow from the anchors put in, and a count of the readings that looked like
      events. */
  ghost predicate Recovers(d: Decoded, items: seq<Item>, base: nat)
    requires d.nchan > 0 && AllValid(items)
  {
    var values := Values(items);
    var used := |values| - |values| % d.nchan;
    && d.raw == values[..used]
    && d.errorCode == Solo.ErrorMarks(values)[..used]
    && d.events == ItemMarks(items, base, d.nchan).events
    && IsDated(d.times, |values| / d.nchan, ItemMarks(items, base, d.nchan).anchors,
               Clock(d.header.startTime, d.header.loggerTime, d.header.periodMs))
    && d.badEventWords == Lookalikes(items)
    && d.trailingBytes == 4 * (|values| % d.nchan)
  }

  /** The checks before decoding: averaging, bursts, tides and waves are refused. */
  lemma HeaderChecked(h: Header, nstored: nat)
    ensures CheckHeader(h, nstored) ==
            if nstored == 0 then Some(NoChannels)
            else if Solo.HasBit(h.features, 16) || Solo.HasBit(h.features, 32) || Solo.HasBit(h.features, 64)
                    || Solo.HasBit(h.features, 128) then Some(FeaturesUnsupported)
            else if !(0 < h.periodMs < 86_400_000) then Some(PeriodImplausible)
            else None
  {
    hide Bit, Solo.HasBit;
    Solo.BitExactly(h.features, 16);
    Solo.BitExactly(h.features, 32);
    Solo.BitExactly(h.features, 64);
    Solo.BitExactly(h.features, 128);
  }

  /** Decoding returns what was encoded, as long as no reading happens to form an event record. */
  lemma EncodedDecodesBack(crc: Checksum, head: seq<byte>, items: seq<Item>, h: Header, nstored: nat)
    requires Solo.IsCrc16(crc) && AllValid(items) && |head| == h.length && CheckHeader(h, nstored).None?
    requires NoFalseRecords(crc, items, EncodeAll(crc, items))
    ensures var r := DecodeSectioned(crc, head + EncodeAll(crc, items), h, nstored);
            r.Ok? && r.value.header == h && r.value.nchan == nstored && Recovers(r.value, items, |head|)
  {
    hide EncodeAll, ReadingsIn, MarksOf, BadMarkers, TimesOf, SetEndBytes, Parse, ItemMarks, Values, Lookalikes,
         TokensOf, WordsAt, ErrorCodes, Solo.ErrorMarks, Solo.IsCrc16, AllValid,
         AnyUnreadable, Within, IsDated, Whole, NoFalseRecords, Solo.Reads, AnchorsOrdered;
    var image := head + EncodeAll(crc, items);
    var body := image[|head|..];
    assert body == EncodeAll(crc, items);
    ParsesBackExactly(crc, items);
    ReadingsEncoded(crc, items, body);
    MarkersEncoded(crc, items, body);
    MarksEncoded(crc, items, body, |head|, nstored);
    assert ParseAll(crc, body) == TokensOf(items);
    Solo.WholeIs(|Values(items)|, nstored);
    Laws.MarksOrdered(body, |head|, nstored, TokensOf(items));
    TimesAreDated(|Values(items)| / nstored, ItemMarks(items, |head|, nstored).anchors,
                  Clock(h.startTime, h.loggerTime, h.periodMs));
    Solo.ReadsValues(body, ReadingsIn(TokensOf(items)), Values(items));
  }

  // ---- a record that cannot be read ----

  /** A long record that gives its own length as two words, its checksum good, and one more word. */
  ghost function ShortLongRecord(crc: Checksum): (body: seq<byte>)
    requires Solo.IsCrc16(crc)
    ensures |body| == 12
  {
    var rest := [0, LONG_MARKER as byte, 0, 0, 0, 0];
    [crc(rest) / 0x100, crc(rest) % 0x100] + rest + [0, 0, 2, 0]
  }

  /** The decoder accepts it and then fails on the bytes it does not have. */
  lemma ShortLongRecordFails(crc: Checksum, head: seq<byte>, h: Header, nstored: nat)
    requires Solo.IsCrc16(crc) && |head| == h.length && CheckHeader(h, nstored).None?
    ensures DecodeSectioned(crc, head + ShortLongRecord(crc), h, nstored) == Err(SectionedError.ShortLongRecord)
  {
    var body := (head + ShortLongRecord(crc))[h.length..];
    assert body == ShortLongRecord(crc);
    assert body[2..8] == [0, LONG_MARKER as byte, 0, 0, 0, 0];
    assert WordAt(crc, body, 3, 0) == Entry(0, 2);
    assert Unreadable(body, ParseAll(crc, body)[0]);
  }
}
