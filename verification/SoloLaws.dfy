/** Cutting an RBRsolo image: the tokens, readings, events and times of a prefix, and what the full decode says of them
    by end byte. */
module SoloLaws {
  import opened Basics
  import opened ClockSegments
  import opened SampleTiming
  import opened SoloDecoder
  import opened SoloWalk

  // ---- tokens of a cut body ----

  lemma {:induction false} ReadingsConcat(a: seq<Token>, b: seq<Token>)
    ensures ReadingsOf(a + b) == ReadingsOf(a) + ReadingsOf(b)
    decreases |b|
  {
    if b == [] {
      assert a + b == a;
    } else {
      var m := |b| - 1;
      assert (a + b)[..|a| + m] == a + b[..m];
      ReadingsConcat(a, b[..m]);
    }
  }

  ghost predicate EndBy(ts: seq<Token>, m: nat) {
    forall k :: 0 <= k < |ts| ==> ts[k].End() <= m
  }

  /** Tokens that a cut after m words does not leave whole. */
  ghost predicate EndPast(ts: seq<Token>, m: nat) {
    forall k :: 0 <= k < |ts| ==> ts[k].End() > m
  }

  lemma {:induction false} ScanEndsPast(crc: Checksum, body: seq<byte>, n: nat, i: nat, m: nat)
    requires m <= i <= n && 4 * n <= |body|
    ensures EndPast(Scan(crc, body, n, i), m)
    decreases n - i
  {
    if i < n {
      ScanEndsPast(crc, body, n, TokenAt(crc, body, n, i).End(), m);
    }
  }

  lemma {:induction false} ScanEndsBy(crc: Checksum, body: seq<byte>, n: nat, i: nat)
    requires i <= n && 4 * n <= |body|
    ensures EndBy(Scan(crc, body, n, i), n)
    decreases n - i
  {
    if i < n {
      ScanEndsBy(crc, body, n, TokenAt(crc, body, n, i).End());
    }
  }

  /** A token is the same in the cut body, except a marker whose second word is cut off. */
  lemma TokenCut(crc: Checksum, body: seq<byte>, n: nat, body': seq<byte>, n': nat, i: nat)
    requires 4 * n <= |body| && 4 * n' <= |body'| && body' <= body && i < n' < n
    ensures var t, t' := TokenAt(crc, body, n, i), TokenAt(crc, body', n', i);
            if i + 1 == n' && t.End() > n' then t' == Cut(i) else t' == t && t.End() <= n'
  {
    if i + 1 < n' {
      SliceOfPrefix(body', body, 4 * i + 2, 4 * i + 8);
    }
  }

  /** The parse of a body cut after n' words: the tokens that end within it, then at most one marker whose second
      word is cut off. */
  lemma {:induction false} ScanCut(crc: Checksum, body: seq<byte>, n: nat, body': seq<byte>, n': nat, i: nat)
    returns (a: seq<Token>, rest: seq<Token>)
    requires 4 * n <= |body| && 4 * n' <= |body'| && body' <= body && i <= n' <= n
    ensures Scan(crc, body, n, i) == a + rest
    ensures Scan(crc, body', n', i) == a || (n' > 0 && Scan(crc, body', n', i) == a + [Cut(n' - 1)])
    ensures EndBy(a, n') && EndPast(rest, n')
    decreases n' - i
  {
    hide TokenAt;
    if n == n' {
      a, rest := Scan(crc, body, n, i), [];
      SameScan(crc, body, body', n, i);
      ScanEndsBy(crc, body, n, i);
      assert a + rest == a;
    } else if i == n' {
      a, rest := [], Scan(crc, body, n, i);
      ScanEndsPast(crc, body, n, i, n');
    } else {
      var t := TokenAt(crc, body, n, i);
      TokenCut(crc, body, n, body', n', i);
      if i + 1 == n' && t.End() > n' {
        a, rest := [], Scan(crc, body, n, i);
        assert Scan(crc, body', n', n') == [];
        assert Scan(crc, body', n', i) == [] + [Cut(n' - 1)];
        ScanEndsPast(crc, body, n, t.End(), n');
      } else {
        a, rest := ScanCut(crc, body, n, body', n', t.End());
        assert [t] + (a + rest) == ([t] + a) + rest;
        assert [t] + (a + [Cut(n' - 1)]) == ([t] + a) + [Cut(n' - 1)];
        a := [t] + a;
      }
    }
  }

  lemma {:induction false} SameScan(crc: Checksum, body: seq<byte>, body': seq<byte>, n: nat, i: nat)
    requires i <= n && 4 * n <= |body'| && body' <= body
    ensures Scan(crc, body, n, i) == Scan(crc, body', n, i)
    decreases n - i
  {
    if i < n {
      assert i + 1 < n ==> body[4 * i + 2..4 * i + 8] == body'[4 * i + 2..4 * i + 8];
      SameScan(crc, body, body', n, TokenAt(crc, body, n, i).End());
    }
  }

  // ---- events and anchors of a cut body ----

  lemma {:induction false} EventsConcat(body: seq<byte>, base: nat, nchan: nat, a: seq<Token>, rest: seq<Token>, m: nat)
    requires nchan > 0 && Fit(a + rest, body) && EndPast(rest, m)
    ensures Fit(a, body)
    ensures var ev, all := EventsOf(body, base, nchan, a), EventsOf(body, base, nchan, a + rest);
            && ev <= all
            && forall k :: |ev| <= k < |all| ==>
                 all[k].sampleIndex >= |ReadingsOf(a)| / nchan && all[k].offset + all[k].size >= base + 4 * m + 4
    decreases |rest|
  {
    assert forall k :: 0 <= k < |a| ==> (a + rest)[k] == a[k];
    if rest == [] {
      assert a + rest == a;
    } else {
      var r := |rest| - 1;
      assert (a + rest)[..|a| + r] == a + rest[..r];
      EventsConcat(body, base, nchan, a, rest[..r], m);
      ReadingsConcat(a, rest[..r]);
      DivMonotone(|ReadingsOf(a)|, |ReadingsOf(a + rest[..r])|, nchan);
    }
  }

  /** Events whose tokens end within m words end within the cut. */
  lemma {:induction false} EventsEndBy(body: seq<byte>, base: nat, nchan: nat, a: seq<Token>, m: nat)
    requires nchan > 0 && Fit(a, body) && EndBy(a, m)
    ensures forall k :: 0 <= k < |EventsOf(body, base, nchan, a)| ==>
              EventsOf(body, base, nchan, a)[k].offset + EventsOf(body, base, nchan, a)[k].size <= base + 4 * m
  {
    if a != [] {
      EventsEndBy(body, base, nchan, a[..|a| - 1], m);
    }
  }

  lemma {:induction false} EventsSameBody(body: seq<byte>, body': seq<byte>, base: nat, nchan: nat, a: seq<Token>)
    requires nchan > 0 && body' <= body && Fit(a, body')
    ensures Fit(a, body) && EventsOf(body', base, nchan, a) == EventsOf(body, base, nchan, a)
  {
    if a != [] {
      EventsSameBody(body, body', base, nchan, a[..|a| - 1]);
    }
  }

  lemma {:induction false} AnchorsConcat(ev: seq<Event>, all: seq<Event>, i: nat)
    requires ev <= all && forall k :: |ev| <= k < |all| ==> all[k].sampleIndex > i
    ensures AnchorsOf(ev) <= AnchorsOf(all)
    ensures forall k :: |AnchorsOf(ev)| <= k < |AnchorsOf(all)| ==> AnchorsOf(all)[k].index > i
    decreases |all|
  {
    if |ev| == |all| {
      assert ev == all;
    } else {
      AnchorsConcat(ev, all[..|all| - 1], i);
    }
  }

  /** Sample sets before the first unseen event keep their time, flag and segment. */
  lemma TimesCut(ev: seq<Event>, all: seq<Event>, n': nat, n: nat, clock: Clock)
    requires ev <= all && n' <= n && forall k :: |ev| <= k < |all| ==> all[k].sampleIndex >= n'
    ensures var a, b := TimesOf(n', AnchorsOf(ev), clock), TimesOf(n, AnchorsOf(all), clock);
            a.ms <= b.ms && a.flags <= b.flags && a.segment <= b.segment
  {
    hide AnchorOf, AnchorsOf;
    forall i | 0 <= i < n'
      ensures AnchorOf(AnchorsOf(ev), i) == AnchorOf(AnchorsOf(all), i) &&
              MsAt(AnchorsOf(ev), clock, i) == MsAt(AnchorsOf(all), clock, i) &&
              FlagAt(AnchorsOf(ev), clock, i) == FlagAt(AnchorsOf(all), clock, i)
    {
      AnchorsConcat(ev, all, i);
      var m := |AnchorsOf(ev)|;
      AnchorOfPrefix(AnchorsOf(all), m, i);
      assert AnchorsOf(all)[..m] == AnchorsOf(ev);
    }
  }

  // ---- prefix stability ----

  /** The entries of `s`, a sorted sequence, that are at most b. */
  function CountUpTo(s: seq<nat>, b: nat): (r: nat)
    ensures r <= |s|
  {
    if s == [] then 0
    else if s[|s| - 1] <= b then |s|
    else CountUpTo(s[..|s| - 1], b)
  }

  /** The events that end within the first b bytes of the image. */
  function EventsWithin(events: seq<Event>, b: nat): nat {
    if events == [] then 0
    else
      var e := events[|events| - 1];
      EventsWithin(events[..|events| - 1], b) + if e.offset + e.size <= b then 1 else 0
  }

  lemma {:induction false} CountUpToIs(s: seq<nat>, b: nat, k: nat)
    requires k <= |s| && (k > 0 ==> s[k - 1] <= b) && forall i :: k <= i < |s| ==> s[i] > b
    ensures CountUpTo(s, b) == k
    decreases |s|
  {
    if k < |s| {
      CountUpToIs(s[..|s| - 1], b, k);
    }
  }

  lemma {:induction false} EventsWithinIs(events: seq<Event>, b: nat, k: nat)
    requires k <= |events|
    requires forall i :: 0 <= i < k ==> events[i].offset + events[i].size <= b
    requires forall i :: k <= i < |events| ==> events[i].offset + events[i].size > b
    ensures EventsWithin(events, b) == k
  {
    if events != [] {
      var m := |events| - 1;
      EventsWithinIs(events[..m], b, if k == |events| then m else k);
    }
  }

  lemma SameHeader(image: seq<byte>, nchan: nat, b: nat)
    requires ParseHeader(image).Ok? && ParseHeader(image).value.length <= b <= |image|
    ensures CheckImage(image[..b], nchan) == CheckImage(image, nchan)
  {
    assert forall at: nat {:trigger U32(image, at)} :: at + 4 <= 64 ==> U32(image[..b], at) == U32(image, at);
  }

  /** d' is the decode of a part of what d decodes. */
  ghost predicate IsPrefix(d': Decoded, d: Decoded) {
    && d'.header == d.header && d'.nchan == d.nchan && d'.raw <= d.raw && d'.errorCode <= d.errorCode
    && d'.times.ms <= d.times.ms && d'.times.flags <= d.times.flags && d'.times.segment <= d.times.segment
    && d'.events <= d.events && d'.setEndByte <= d.setEndByte
  }

  lemma {:induction false} ReadingsBelow(a: seq<Token>, m: nat)
    requires EndBy(a, m)
    ensures forall k :: 0 <= k < |ReadingsOf(a)| ==> ReadingsOf(a)[k] + 1 <= m
  {
    if a != [] {
      ReadingsBelow(a[..|a| - 1], m);
    }
  }

  lemma {:induction false} ReadingsAtLeast(rest: seq<Token>, m: nat)
    requires EndPast(rest, m)
    ensures forall k :: 0 <= k < |ReadingsOf(rest)| ==> ReadingsOf(rest)[k] >= m
  {
    if rest != [] {
      ReadingsAtLeast(rest[..|rest| - 1], m);
    }
  }

  /** The sample sets of a cut image: the readings that are left, and the end byte of each set in the full image. */
  lemma SetsCut(base: nat, p': seq<nat>, p: seq<nat>, nchan: nat, m: nat, b: nat)
    requires nchan > 0 && p' <= p && base + 4 * m <= b < base + 4 * m + 4
    requires forall k :: 0 <= k < |p'| ==> p'[k] + 1 <= m
    requires forall k :: |p'| <= k < |p| ==> p[k] >= m
    ensures |p'| / nchan <= |p| / nchan
    ensures SetEndBytes(base, p', nchan) <= SetEndBytes(base, p, nchan)
    ensures CountUpTo(SetEndBytes(base, p, nchan), b) == |p'| / nchan
  {
    var s', s := SetEndBytes(base, p', nchan), SetEndBytes(base, p, nchan);
    DivMonotone(|p'|, |p|, nchan);
    forall i | 0 <= i < |s'|
      ensures s[i] == s'[i] && s[i] <= b
    {
      CompleteSet(nchan, i, |p'|);
    }
    forall i | |s'| <= i < |s|
      ensures s[i] > b
    {
      CompleteSet(nchan, i, |p'|);
      CompleteSet(nchan, i, |p|);
    }
    CountUpToIs(s, b, |s'|);
  }

  lemma UsedMonotone(a: nat, b: nat, nchan: nat)
    requires nchan > 0 && a <= b
    ensures Whole(a, nchan) <= Whole(b, nchan)
  {
    DivMonotone(a, b, nchan);
  }

  /** The readings side of a cut: words, error codes and end bytes. */
  lemma ReadingsCut(base: nat, body': seq<byte>, body: seq<byte>, nchan: nat, a: seq<Token>, rest: seq<Token>, b: nat)
    requires nchan > 0 && body' <= body && b == base + |body'| && Fit(a + rest, body) && Fit(a, body')
    requires EndBy(a, |body'| / 4) && EndPast(rest, |body'| / 4)
    ensures forall k :: 0 <= k < |ReadingsOf(a)| ==> 4 * ReadingsOf(a)[k] + 4 <= |body'|
    ensures forall k :: 0 <= k < |ReadingsOf(a + rest)| ==> 4 * ReadingsOf(a + rest)[k] + 4 <= |body|
    ensures var p', p := ReadingsOf(a), ReadingsOf(a + rest);
            var u', u := Whole(|p'|, nchan), Whole(|p|, nchan);
            && |p'| / nchan <= |p| / nchan
            && WordsAt(body', p'[..u']) <= WordsAt(body, p[..u])
               && ErrorCodes(body', p'[..u']) <= ErrorCodes(body, p[..u])
            && SetEndBytes(base, p', nchan) <= SetEndBytes(base, p, nchan)
            && CountUpTo(SetEndBytes(base, p, nchan), b) == |p'| / nchan
  {
    hide ReadingsOf, CountUpTo, SetEndBytes, Fit, EndBy, EndPast, WordsAt, ErrorCodes;
    var m, p', p := |body'| / 4, ReadingsOf(a), ReadingsOf(a + rest);
    ReadingsConcat(a, rest);
    ReadingsBelow(a, m);
    ReadingsAtLeast(rest, m);
    SetsCut(base, p', p, nchan, m, b);
    UsedMonotone(|p'|, |p|, nchan);
    ReadingsFit(a, body');
    ReadingsFit(a + rest, body);
    WordsCut(body', body, p'[..Whole(|p'|, nchan)], p[..Whole(|p|, nchan)]);
  }

  /** The events side of a cut: the events that are left, and the times of the sets that are left. */
  lemma EventsCut(base: nat, body': seq<byte>, body: seq<byte>, nchan: nat, a: seq<Token>, rest: seq<Token>, b: nat,
                  clock: Clock)
    requires nchan > 0 && body' <= body && b == base + |body'| && Fit(a + rest, body) && Fit(a, body')
    requires EndBy(a, |body'| / 4) && EndPast(rest, |body'| / 4)
             && |ReadingsOf(a)| / nchan <= |ReadingsOf(a + rest)| / nchan
    ensures var ev, all := EventsOf(body', base, nchan, a), EventsOf(body, base, nchan, a + rest);
            && ev <= all && EventsWithin(all, b) == |ev|
            && var s, t := TimesOf(|ReadingsOf(a)| / nchan, AnchorsOf(ev), clock),
                           TimesOf(|ReadingsOf(a + rest)| / nchan, AnchorsOf(all), clock);
               s.ms <= t.ms && s.flags <= t.flags && s.segment <= t.segment
  {
    hide ReadingsOf, EventsOf, AnchorsOf, EventsWithin, TimesOf, Fit, EndBy, EndPast;
    var m := |body'| / 4;
    EventsConcat(body, base, nchan, a, rest, m);
    EventsSameBody(body, body', base, nchan, a);
    EventsEndBy(body, base, nchan, a, m);
    var ev, all := EventsOf(body, base, nchan, a), EventsOf(body, base, nchan, a + rest);
    EventsWithinIs(all, b, |ev|);
    TimesCut(ev, all, |ReadingsOf(a)| / nchan, |ReadingsOf(a + rest)| / nchan, clock);
  }

  /** Assembling the tokens of a cut body gives a prefix of assembling them all. */
  lemma AssembleCut(h: Header, body': seq<byte>, body: seq<byte>, nchan: nat, ts': seq<Token>, a: seq<Token>,
                    rest: seq<Token>, b: nat)
    requires nchan > 0 && body' <= body && b == h.length + |body'| && Fit(a + rest, body) && Fit(ts', body')
    requires EndBy(a, |body'| / 4) && EndPast(rest, |body'| / 4)
    requires ts' == a || (|body'| / 4 > 0 && ts' == a + [Cut(|body'| / 4 - 1)])
    ensures var d', d := Assemble(h, body', nchan, ts'), Assemble(h, body, nchan, a + rest);
            && IsPrefix(d', d)
            && |d'.times.ms| == CountUpTo(d.setEndByte, b)
            && |d'.events| == EventsWithin(d.events, b)
  {
    hide ReadingsOf, EventsOf, CorruptOf, AnchorsOf, CountUpTo, EventsWithin, TimesOf, SetEndBytes, Fit, EndBy, EndPast,
         WordsAt, ErrorCodes;
    CutAddsNothing(body', h.length, nchan, a, ts');
    ReadingsCut(h.length, body', body, nchan, a, rest, b);
    EventsCut(h.length, body', body, nchan, a, rest, b, Clock(h.startTime, h.loggerTime, h.periodMs));
  }

  lemma CutAddsNothing(body': seq<byte>, base: nat, nchan: nat, a: seq<Token>, ts': seq<Token>)
    requires nchan > 0 && Fit(ts', body') && (ts' == a || (|body'| / 4 > 0 && ts' == a + [Cut(|body'| / 4 - 1)]))
    ensures Fit(a, body') && ReadingsOf(ts') == ReadingsOf(a)
    ensures EventsOf(body', base, nchan, ts') == EventsOf(body', base, nchan, a)
  {
    assert forall k :: 0 <= k < |a| ==> ts'[k] == a[k];
    if ts' != a {
      AppendToken(body', base, nchan, a, Cut(|body'| / 4 - 1));
    }
  }

  lemma WordsCut(body': seq<byte>, body: seq<byte>, p': seq<nat>, p: seq<nat>)
    requires body' <= body && p' <= p
    requires forall k :: 0 <= k < |p'| ==> 4 * p'[k] + 4 <= |body'|
    requires forall k :: 0 <= k < |p| ==> 4 * p[k] + 4 <= |body|
    ensures WordsAt(body', p') <= WordsAt(body, p) && ErrorCodes(body', p') <= ErrorCodes(body, p)
  {
  }

  /** Decoding a prefix of an image that reaches past the header gives a prefix of the decode, and the sample sets
      and events it holds are those the full decode counts by end byte. So every earlier offload can be
      reconstructed from the final image alone. */
  lemma PrefixStability(crc: Checksum, image: seq<byte>, nchan: nat, b: nat)
    requires DecodeSpec(crc, image, nchan).Ok? && DecodeSpec(crc, image, nchan).value.header.length <= b <= |image|
    ensures DecodeSpec(crc, image[..b], nchan).Ok?
    ensures var d', d := DecodeSpec(crc, image[..b], nchan).value, DecodeSpec(crc, image, nchan).value;
            && IsPrefix(d', d)
            && |d'.times.ms| == CountUpTo(d.setEndByte, b)
            && |d'.events| == EventsWithin(d.events, b)
  {
    hide ReadingsOf, EventsOf, CorruptOf, AnchorsOf, CountUpTo, EventsWithin, TimesOf, SetEndBytes, Assemble,
         ParseHeader,
         IsPrefix, Scan;
    var h := CheckImage(image, nchan).value;
    SameHeader(image, nchan, b);
    var body', body := image[..b][h.length..], image[h.length..];
    assert body' == body[..b - h.length];
    var a, rest := ScanCut(crc, body, |body| / 4, body', |body'| / 4, 0);
    AssembleCut(h, body', body, nchan, Tokens(crc, body'), a, rest, b);
  }
}
