/** The two readings of the transfer checksum: CRC-16 with the CCITT polynomial, most or least significant bit first. */
module Crc {
  import opened Basics

  const SEED: bv16 := 0xFFFF

  // ---- most significant bit first ----

  function Shift(c: bv16): bv16 {
    if c & 0x8000 != 0 then (c << 1) ^ 0x1021 else c << 1
  }

  function Shifts(c: bv16, n: nat): bv16 {
    if n == 0 then c else Shift(Shifts(c, n - 1))
  }

  function High(b: bv8): bv16 {
    (b as bv16) << 8
  }

  function Xor(a: bv16, b: bv16): bv16 {
    a ^ b
  }

  function AddHigh(c: bv16, b: bv8): bv16 {
    Xor(c, High(b))
  }

  /** One byte, fed in from the top. */
  function Feed(c: bv16, b: bv8): bv16 {
    Shifts(AddHigh(c, b), 8)
  }

  /** CRC-16/CCITT, polynomial 0x1021. */
  function Ccitt(data: seq<bv8>, seed: bv16): bv16 {
    if data == [] then seed
    else Feed(Ccitt(data[..|data| - 1], seed), data[|data| - 1])
  }

  // ---- least significant bit first ----

  function ShiftDown(c: bv16): bv16 {
    if c & 1 != 0 then (c >> 1) ^ 0x8408 else c >> 1
  }

  function ShiftsDown(c: bv16, n: nat): bv16 {
    if n == 0 then c else ShiftDown(ShiftsDown(c, n - 1))
  }

  function Low(b: bv8): bv16 {
    b as bv16
  }

  function AddLow(c: bv16, b: bv8): bv16 {
    Xor(c, Low(b))
  }

  /** One byte, fed in from the bottom. */
  function FeedDown(c: bv16, b: bv8): bv16 {
    ShiftsDown(AddLow(c, b), 8)
  }

  /** The reflected CRC, polynomial 0x8408. */
  function Reflected(data: seq<bv8>, seed: bv16): bv16 {
    if data == [] then seed
    else FeedDown(Reflected(data[..|data| - 1], seed), data[|data| - 1])
  }

  method ReflectedCrc(data: seq<bv8>, seed: bv16) returns (crc: bv16)
    ensures crc == Reflected(data, seed)
  {
    hide ShiftDown;
    crc := seed;
    for i := 0 to |data|
      invariant crc == Reflected(data[..i], seed)
    {
      assert data[..i + 1][..i] == data[..i];
      crc := crc ^ (data[i] as bv16);
      ghost var fed := crc;
      for k := 0 to 8
        invariant crc == ShiftsDown(fed, k)
      {
        crc := NextDown(crc);
      }
    }
    assert data[..|data|] == data;
  }

  method NextDown(c: bv16) returns (r: bv16)
    ensures r == ShiftDown(c)
  {
    if c & 1 != 0 {
      r := (c >> 1) ^ 0x8408;
    } else {
      r := c >> 1;
    }
  }

  // ---- each step can be undone ----

  lemma ShiftInjective(a: bv16, b: bv16)
    requires Shift(a) == Shift(b)
    ensures a == b
  {
    TopBit(a);
    TopBit(b);
    hide Shift;
    if a & 0x8000 != 0 {
      XorTwice(a << 1, b << 1, 0x1021);
    }
  }

  /** What a shift leaves in the lowest bit is the bit it pushed out. */
  lemma TopBit(c: bv16)
    ensures Shift(c) & 1 != 0 <==> c & 0x8000 != 0
    ensures c == ((c << 1) >> 1) | (c & 0x8000)
    ensures c & 0x8000 != 0 ==> c & 0x8000 == 0x8000
    ensures Shift(c) == if c & 0x8000 != 0 then (c << 1) ^ 0x1021 else c << 1
  {
  }

  lemma XorTwice(a: bv16, b: bv16, p: bv16)
    ensures a ^ p == b ^ p <==> a == b
  {
  }

  lemma XorCancels(a: bv16, b: bv16, p: bv16)
    ensures Xor(a, p) == Xor(b, p) <==> a == b
    ensures Xor(p, a) == Xor(p, b) <==> a == b
  {
  }

  lemma {:induction false} ShiftsInjective(a: bv16, b: bv16, n: nat)
    requires Shifts(a, n) == Shifts(b, n)
    ensures a == b
  {
    hide Shift;
    if n > 0 {
      ShiftInjective(Shifts(a, n - 1), Shifts(b, n - 1));
      ShiftsInjective(a, b, n - 1);
    }
  }

  lemma ShiftDownInjective(a: bv16, b: bv16)
    requires ShiftDown(a) == ShiftDown(b)
    ensures a == b
  {
    LowBit(a);
    LowBit(b);
    hide ShiftDown;
    if a & 1 != 0 {
      XorTwice(a >> 1, b >> 1, 0x8408);
    }
  }

  lemma LowBit(c: bv16)
    ensures ShiftDown(c) & 0x8000 != 0 <==> c & 1 != 0
    ensures c == ((c >> 1) << 1) | (c & 1)
    ensures c & 1 != 0 ==> c & 1 == 1
    ensures ShiftDown(c) == if c & 1 != 0 then (c >> 1) ^ 0x8408 else c >> 1
  {
  }

  lemma {:induction false} ShiftsDownInjective(a: bv16, b: bv16, n: nat)
    requires ShiftsDown(a, n) == ShiftsDown(b, n)
    ensures a == b
  {
    hide ShiftDown;
    if n > 0 {
      ShiftDownInjective(ShiftsDown(a, n - 1), ShiftsDown(b, n - 1));
      ShiftsDownInjective(a, b, n - 1);
    }
  }

  /** A byte at the bottom moves to the top, no bit of it meeting the polynomial. */
  lemma ByteMovesUp(b: bv8)
    ensures Shifts(Low(b), 8) == High(b)
  {
    var c := Low(b);
    assert Shifts(c, 1) == c << 1;
    assert Shifts(c, 2) == c << 2;
    assert Shifts(c, 3) == c << 3;
    assert Shifts(c, 4) == c << 4;
    assert Shifts(c, 5) == c << 5;
    assert Shifts(c, 6) == c << 6;
    assert Shifts(c, 7) == c << 7;
  }

  lemma ByteMovesDown(b: bv8)
    ensures ShiftsDown(High(b), 8) == Low(b)
  {
    var c := High(b);
    assert ShiftsDown(c, 1) == c >> 1;
    assert ShiftsDown(c, 2) == c >> 2;
    assert ShiftsDown(c, 3) == c >> 3;
    assert ShiftsDown(c, 4) == c >> 4;
    assert ShiftsDown(c, 5) == c >> 5;
    assert ShiftsDown(c, 6) == c >> 6;
    assert ShiftsDown(c, 7) == c >> 7;
  }

  // ---- appended checksums ----

  function TopByte(c: bv16): bv8 {
    (c >> 8) as bv8
  }

  function BottomByte(c: bv16): bv8 {
    (c & 0xFF) as bv8
  }

  function Big(c: bv16): seq<bv8> {
    [TopByte(c), BottomByte(c)]
  }

  function Little(c: bv16): seq<bv8> {
    [BottomByte(c), TopByte(c)]
  }

  predicate CheckAppended(block: seq<bv8>) {
    |block| >= 2 && Ccitt(block, SEED) == 0
  }

  lemma TwoMore(data: seq<bv8>, x: bv8, y: bv8, seed: bv16)
    ensures Ccitt(data + [x, y], seed) == Feed(Feed(Ccitt(data, seed), x), y)
    ensures Reflected(data + [x, y], seed) == FeedDown(FeedDown(Reflected(data, seed), x), y)
  {
    hide Feed, FeedDown;
    var b := data + [x, y];
    assert b[..|b| - 1] == data + [x];
    assert (data + [x])[..|data|] == data;
  }

  lemma {:induction false} ZeroOnlyFromZero(c: bv16, n: nat)
    ensures Shifts(c, n) == 0 <==> c == 0
    ensures ShiftsDown(c, n) == 0 <==> c == 0
  {
    if n > 0 {
      ZeroOnlyFromZero(c, n - 1);
    }
  }

  /** Adding a byte to a word leaves the other byte exactly when the word is made of the two. */
  lemma SplitWord(c: bv16, x: bv8, y: bv8)
    ensures AddHigh(c, x) == Low(y) <==> x == TopByte(c) && y == BottomByte(c)
  {
  }

  lemma SplitWordDown(c: bv16, x: bv8, y: bv8)
    ensures AddLow(c, x) == High(y) <==> x == BottomByte(c) && y == TopByte(c)
  {
  }

  lemma AddsToZero(c: bv16, b: bv8)
    ensures AddHigh(c, b) == 0 <==> c == High(b)
    ensures AddLow(c, b) == 0 <==> c == Low(b)
  {
  }

  /** Two more bytes leave nothing exactly when they are the checksum so far, high byte first. */
  lemma ResidueExactly(c: bv16, x: bv8, y: bv8)
    ensures Feed(Feed(c, x), y) == 0 <==> [x, y] == Big(c)
  {
    hide Shifts, AddHigh, High, Low, TopByte, BottomByte;
    var d := AddHigh(c, x);
    ZeroOnlyFromZero(AddHigh(Shifts(d, 8), y), 8);
    AddsToZero(Shifts(d, 8), y);
    ByteMovesUp(y);
    if Shifts(d, 8) == High(y) {
      ShiftsInjective(d, Low(y), 8);
    }
    SplitWord(c, x, y);
  }

  lemma ResidueDownExactly(c: bv16, x: bv8, y: bv8)
    ensures FeedDown(FeedDown(c, x), y) == 0 <==> [x, y] == Little(c)
  {
    hide ShiftsDown, AddLow, High, Low, TopByte, BottomByte;
    var d := AddLow(c, x);
    ZeroOnlyFromZero(AddLow(ShiftsDown(d, 8), y), 8);
    AddsToZero(ShiftsDown(d, 8), y);
    ByteMovesDown(y);
    if ShiftsDown(d, 8) == Low(y) {
      ShiftsDownInjective(d, High(y), 8);
    }
    SplitWordDown(c, x, y);
  }

  /** A block checks exactly when its last two bytes are the checksum of what precedes them, high byte first. */
  lemma ChecksExactly(block: seq<bv8>)
    requires |block| >= 2
    ensures var data := block[..|block| - 2];
            CheckAppended(block) <==> block[|block| - 2..] == Big(Ccitt(data, SEED))
    ensures var data := block[..|block| - 2];
            Reflected(block, SEED) == 0 <==> block[|block| - 2..] == Little(Reflected(data, SEED))
  {
    hide Ccitt, Reflected, Feed, FeedDown, Big, Little;
    var n := |block|;
    var data, x, y := block[..n - 2], block[n - 2], block[n - 1];
    assert block == data + [x, y] && block[n - 2..] == [x, y];
    TwoMore(data, x, y, SEED);
    ResidueExactly(Ccitt(data, SEED), x, y);
    ResidueDownExactly(Reflected(data, SEED), x, y);
  }

  datatype Variant = BigEndian | ReflectedLittleEndian

  /** Which reading of the checksum a block bears out. */
  function CrcVariant(block: seq<bv8>): Option<Variant> {
    if |block| < 2 then None
    else if Ccitt(block, SEED) == 0 then Some(BigEndian)
    else if Reflected(block, SEED) == 0 then Some(ReflectedLittleEndian)
    else None
  }

  /** Data with either checksum appended is told apart, or, where both are right, taken for the first. */
  lemma VariantOfAppended(data: seq<bv8>)
    ensures CrcVariant(data + Big(Ccitt(data, SEED))) == Some(BigEndian)
    ensures CrcVariant(data + Little(Reflected(data, SEED))) ==
              Some(if Little(Reflected(data, SEED)) == Big(Ccitt(data, SEED)) then BigEndian else ReflectedLittleEndian)
  {
    hide Ccitt, Reflected, Big, Little;
    var a, b := data + Big(Ccitt(data, SEED)), data + Little(Reflected(data, SEED));
    BothTwo(Ccitt(data, SEED));
    BothTwo(Reflected(data, SEED));
    assert a[..|a| - 2] == data && b[..|b| - 2] == data;
    ChecksExactly(a);
    ChecksExactly(b);
  }

  /** A block is taken for one that ends in a checksum exactly when it does. */
  lemma VariantExactly(block: seq<bv8>)
    ensures |block| < 2 ==> CrcVariant(block) == None
    ensures |block| >= 2 ==>
              var data, end := block[..|block| - 2], block[|block| - 2..];
              CrcVariant(block) ==
                if end == Big(Ccitt(data, SEED)) then Some(BigEndian)
                else if end == Little(Reflected(data, SEED)) then Some(ReflectedLittleEndian)
                else None
  {
    hide Ccitt, Reflected, Big, Little;
    if |block| >= 2 {
      ChecksExactly(block);
    }
  }

  lemma BothTwo(c: bv16)
    ensures |Big(c)| == |Little(c)| == 2
  {
  }

  // ---- corruption ----

  /** Changing any one byte of a block changes its checksum, so a block that checked no longer does. */
  lemma OneByteChanges(data: seq<bv8>, i: nat, b: bv8, seed: bv16)
    requires i < |data| && b != data[i]
    ensures Ccitt(data[i := b], seed) != Ccitt(data, seed)
    ensures CheckAppended(data) ==> !CheckAppended(data[i := b])
  {
    hide Ccitt;
    DifferentFrom(data, i, b, seed);
    DifferentFrom(data, i, b, SEED);
  }

  lemma {:induction false} DifferentFrom(data: seq<bv8>, i: nat, b: bv8, seed: bv16)
    requires i < |data| && b != data[i]
    ensures Ccitt(data[i := b], seed) != Ccitt(data, seed)
    decreases |data|
  {
    hide Feed;
    var m := |data| - 1;
    var data' := data[i := b];
    var c, c' := Ccitt(data[..m], seed), Ccitt(data'[..m], seed);
    if i < m {
      assert data'[..m] == data[..m][i := b];
      DifferentFrom(data[..m], i, b, seed);
      FedDifferently(c, c', data[m], data[m]);
    } else {
      assert data'[..m] == data[..m];
      FedDifferently(c, c, data[m], b);
    }
  }

  lemma FedDifferently(c: bv16, c': bv16, x: bv8, x': bv8)
    requires (c != c' && x == x') || (c == c' && x != x')
    ensures Feed(c, x) != Feed(c', x')
  {
    AddDiffers(c, c', x, x');
    hide Shifts, AddHigh;
    if Feed(c, x) == Feed(c', x') {
      ShiftsInjective(AddHigh(c, x), AddHigh(c', x'), 8);
    }
  }

  lemma AddDiffers(c: bv16, c': bv16, x: bv8, x': bv8)
    requires (c != c' && x == x') || (c == c' && x != x')
    ensures AddHigh(c, x) != AddHigh(c', x')
  {
    HighDiffers(x, x');
    hide High, Xor;
    XorCancels(c, c', High(x));
    XorCancels(High(x), High(x'), c);
  }

  lemma HighDiffers(x: bv8, x': bv8)
    ensures High(x) == High(x') <==> x == x'
  {
  }

  // ---- known values ----

  /** One byte more. */
  lemma Fed(data: seq<bv8>, n: nat, seed: bv16)
    requires n < |data|
    ensures Ccitt(data[..n + 1], seed) == Feed(Ccitt(data[..n], seed), data[n])
    ensures Reflected(data[..n + 1], seed) == FeedDown(Reflected(data[..n], seed), data[n])
  {
    hide Feed, FeedDown;
    assert data[..n + 1][..n] == data[..n];
  }

  lemma EightShifts(c: bv16, b: bv8)
    ensures Feed(c, b) == Shift(Shift(Shift(Shift(Shift(Shift(Shift(Shift(AddHigh(c, b)))))))))
    ensures FeedDown(c, b) ==
            ShiftDown(ShiftDown(ShiftDown(ShiftDown(ShiftDown(ShiftDown(ShiftDown(ShiftDown(AddLow(c, b)))))))))
  {
    hide Shift, ShiftDown, AddHigh, AddLow;
    var u, d := AddHigh(c, b), AddLow(c, b);
    assert Shifts(u, 1) == Shift(u);
    assert Shifts(u, 2) == Shift(Shifts(u, 1));
    assert Shifts(u, 3) == Shift(Shifts(u, 2));
    assert Shifts(u, 4) == Shift(Shifts(u, 3));
    assert Shifts(u, 5) == Shift(Shifts(u, 4));
    assert Shifts(u, 6) == Shift(Shifts(u, 5));
    assert Shifts(u, 7) == Shift(Shifts(u, 6));
    assert ShiftsDown(d, 1) == ShiftDown(d);
    assert ShiftsDown(d, 2) == ShiftDown(ShiftsDown(d, 1));
    assert ShiftsDown(d, 3) == ShiftDown(ShiftsDown(d, 2));
    assert ShiftsDown(d, 4) == ShiftDown(ShiftsDown(d, 3));
    assert ShiftsDown(d, 5) == ShiftDown(ShiftsDown(d, 4));
    assert ShiftsDown(d, 6) == ShiftDown(ShiftsDown(d, 5));
    assert ShiftsDown(d, 7) == ShiftDown(ShiftsDown(d, 6));
  }

  /** The digits 1 to 9, and both checksums after each of them. */
  const DIGITS: seq<bv8> := [0x31, 0x32, 0x33, 0x34, 0x35, 0x36, 0x37, 0x38, 0x39]
  const UP: seq<bv16> := [0xFFFF, 0xC782, 0x3DBA, 0x5BCE, 0x5349, 0x4560, 0x2EF4, 0x7718, 0xA12B, 0x29B1]
  const DOWN: seq<bv16> := [0xFFFF, 0x2F8D, 0x4D53, 0x634B, 0x8B13, 0x44BF, 0x198D, 0x1AC8, 0xF795, 0x6F91]

  lemma DigitFed(n: nat)
    requires n < 9
    ensures Feed(UP[n], DIGITS[n]) == UP[n + 1]
  {
    EightShifts(UP[n], DIGITS[n]);
    hide Feed, FeedDown;
  }

  lemma DigitFedDown(n: nat)
    requires n < 9
    ensures FeedDown(DOWN[n], DIGITS[n]) == DOWN[n + 1]
  {
    EightShifts(DOWN[n], DIGITS[n]);
    hide Feed, FeedDown;
  }

  lemma {:induction false} DigitsFed(n: nat)
    requires n <= 9
    ensures Ccitt(DIGITS[..n], SEED) == UP[n] && Reflected(DIGITS[..n], SEED) == DOWN[n]
  {
    hide Ccitt, Reflected, Feed, FeedDown;
    if n > 0 {
      DigitsFed(n - 1);
      DigitFed(n - 1);
      DigitFedDown(n - 1);
      Fed(DIGITS, n - 1, SEED);
    } else {
      NoBytes();
    }
  }

  lemma NoBytes()
    ensures Ccitt([], SEED) == 0xFFFF && Reflected([], SEED) == 0xFFFF
  {
  }

  /** The two checksums have their published check values. */
  lemma CheckValues()
    ensures Ccitt([0x31, 0x32, 0x33, 0x34, 0x35, 0x36, 0x37, 0x38, 0x39], SEED) == 0x29B1
    ensures Reflected([0x31, 0x32, 0x33, 0x34, 0x35, 0x36, 0x37, 0x38, 0x39], SEED) == 0x6F91
  {
    hide Ccitt, Reflected;
    DigitsFed(9);
    assert DIGITS[..9] == DIGITS;
  }

  // ---- the two readings are mirror images ----

  function Mirror8(b: bv8): bv8 {
    var p := ((b & 0x55) << 1) | ((b >> 1) & 0x55);
    var q := ((p & 0x33) << 2) | ((p >> 2) & 0x33);
    (q << 4) | (q >> 4)
  }

  function Mirror16(c: bv16): bv16 {
    var p := ((c & 0x5555) << 1) | ((c >> 1) & 0x5555);
    var q := ((p & 0x3333) << 2) | ((p >> 2) & 0x3333);
    var r := ((q & 0x0F0F) << 4) | ((q >> 4) & 0x0F0F);
    (r << 8) | (r >> 8)
  }

  function MirrorBytes(data: seq<bv8>): (r: seq<bv8>)
    ensures |r| == |data|
  {
    seq(|data|, i requires 0 <= i < |data| => Mirror8(data[i]))
  }

  lemma ShiftMirrored(c: bv16)
    ensures ShiftDown(Mirror16(c)) == Mirror16(Shift(c))
  {
    MirrorShift(c);
    if c & 0x8000 != 0 {
      MirrorXor(c << 1, 0x1021);
    }
    hide Mirror16;
  }

  lemma MirrorShift(c: bv16)
    ensures Mirror16(c << 1) == Mirror16(c) >> 1
    ensures Mirror16(c) & 1 != 0 <==> c & 0x8000 != 0
    ensures Mirror16(0x1021) == 0x8408
  {
  }

  lemma MirrorXor(a: bv16, b: bv16)
    ensures Mirror16(Xor(a, b)) == Xor(Mirror16(a), Mirror16(b))
  {
  }

  lemma MirrorAdd(c: bv16, b: bv8)
    ensures Mirror16(AddHigh(c, Mirror8(b))) == AddLow(Mirror16(c), b)
  {
    MirrorXor(c, High(Mirror8(b)));
    MirrorByte(b);
    hide Mirror16, Mirror8, High, Low, Xor;
  }

  lemma MirrorByte(b: bv8)
    ensures Mirror16(High(Mirror8(b))) == Low(b)
  {
  }

  lemma {:induction false} ShiftsMirrored(c: bv16, n: nat)
    ensures ShiftsDown(Mirror16(c), n) == Mirror16(Shifts(c, n))
  {
    hide Shift, ShiftDown, Mirror16;
    if n > 0 {
      ShiftsMirrored(c, n - 1);
      ShiftMirrored(Shifts(c, n - 1));
    }
  }

  lemma FedMirrored(c: bv16, b: bv8)
    ensures FeedDown(Mirror16(c), b) == Mirror16(Feed(c, Mirror8(b)))
  {
    hide Shifts, ShiftsDown, Mirror16, Mirror8, AddHigh, AddLow;
    MirrorAdd(c, b);
    ShiftsMirrored(AddHigh(c, Mirror8(b)), 8);
  }

  /** The reflected checksum is the other one of the bytes mirrored, itself mirrored, whatever the length. */
  lemma {:induction false} ReflectedIsMirrored(data: seq<bv8>, seed: bv16)
    ensures Reflected(data, Mirror16(seed)) == Mirror16(Ccitt(MirrorBytes(data), seed))
  {
    hide Feed, FeedDown, Mirror16, Mirror8;
    if data != [] {
      var m := |data| - 1;
      ReflectedIsMirrored(data[..m], seed);
      assert MirrorBytes(data)[..m] == MirrorBytes(data[..m]);
      FedMirrored(Ccitt(MirrorBytes(data[..m]), seed), data[m]);
    }
  }

  lemma ReflectedFromSeed(data: seq<bv8>)
    ensures Reflected(data, SEED) == Mirror16(Ccitt(MirrorBytes(data), SEED))
  {
    hide Ccitt, Reflected, MirrorBytes;
    assert Mirror16(SEED) == SEED;
    ReflectedIsMirrored(data, SEED);
  }
}
