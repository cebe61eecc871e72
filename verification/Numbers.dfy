/** Numbers as a logger writes them. */
module Numbers {
  import opened Basics
  import opened SoloDecoder

  /** A number of 32 bits. */
  type word = x: int | 0 <= x < 0x1_0000_0000

  /** Its four bytes, the lowest first. */
  function Bytes4(x: word): (b: seq<byte>)
    ensures |b| == 4
  {
    [x % 0x100, x / 0x100 % 0x100, x / 0x1_0000 % 0x100, x / 0x100_0000]
  }

  /** Four bytes are read as the number they were written from. */
  lemma ReadsBack(b: seq<byte>, at: nat, x: word)
    requires at + 4 <= |b| && b[at..at + 4] == Bytes4(x)
    ensures U32(b, at) == x && b[at + 3] == x / 0x100_0000
  {
    var w := b[at..at + 4];
    assert w[0] == b[at] && w[1] == b[at + 1] && w[2] == b[at + 2] && w[3] == b[at + 3];
    ByteSum(x);
  }

  lemma ByteSum(x: word)
    ensures x == x % 0x100 + 0x100 * (x / 0x100 % 0x100) + 0x1_0000 * (x / 0x1_0000 % 0x100)
                 + 0x100_0000 * (x / 0x100_0000)
  {
    var y, z := x / 0x100, x / 0x1_0000;
    assert y / 0x100 == z && z / 0x100 == x / 0x100_0000;
  }
}
