// Counter blocks and tag-engine feeds of fmsh_aes_sm4.c: what the engine consumes when a tag is computed
// over data in memory or on the boot device. The GHASH multiply is hardware: the engine is the string of
// bytes it was fed.
module AesSm4 {
  import opened Bytes

  const IV_SIZE: nat := 12
  const TAG_SIZE: nat := 16
  const KEY_IV_SIZE: nat := 48

  /** Counter blocks: section 7.1 of NIST SP 800-38D for a 96-bit IV. */

  function J0(iv: seq<byte>): seq<byte> {
    iv + [0, 0, 0, 1]
  }

  function Inc32(y: seq<byte>): seq<byte>
    requires |y| >= 4
  {
    y[..|y| - 4] + BigEndian((FromBigEndian(y[|y| - 4..]) + 1) % 0x1_0000_0000, 4)
  }

  function Reversed(s: seq<byte>): (r: seq<byte>)
    ensures |r| == |s|
    ensures forall i :: 0 <= i < |s| ==> r[i] == s[|s| - 1 - i]
  {
    seq(|s|, i requires 0 <= i < |s| => s[|s| - 1 - i])
  }

  lemma Inc32OfJ0(iv: seq<byte>)
    ensures Inc32(J0(iv)) == iv + [0, 0, 0, 2]
  {
    var low := J0(iv)[|iv|..];
    assert low == [0, 0, 0, 1];
    assert FromBigEndian(low[..1]) == 0 && FromBigEndian(low[..2]) == 0 by {
      assert low[..1][..0] == [] && low[..2][..1] == low[..1];
    }
    assert low[..3][..2] == low[..2] && FromBigEndian(low[..3]) == 0;
    assert FromBigEndian(low) == 1;
    BigEndian4(2);
  }

  method IvToY0(iv: seq<byte>) returns (y0: seq<byte>)
    requires |iv| == IV_SIZE
    ensures y0 == J0(iv)
  {
    var y := new byte[16](_ => 0);
    for cnt := 0 to IV_SIZE
      invariant y[..cnt] == iv[..cnt]
    {
      y[cnt] := iv[cnt];
    }
    y[12], y[13], y[14], y[15] := 0, 0, 0, 1;
    assert y[..12] == iv;
    y0 := y[..];
  }

  // The register order of the engine is the reverse of the counter block.
  method IvToY1(iv: seq<byte>) returns (y1: seq<byte>)
    requires |iv| == IV_SIZE
    ensures Reversed(y1) == Inc32(J0(iv))
  {
    var y := new byte[16](_ => 0);
    for cnt := 0 to IV_SIZE
      invariant forall k :: 0 <= k < cnt ==> y[15 - k] == iv[k]
    {
      y[15 - cnt] := iv[cnt];
    }
    y[0], y[1], y[2], y[3] := 2, 0, 0, 0;
    y1 := y[..];
    Inc32OfJ0(iv);
    assert Reversed(y1) == iv + [0, 0, 0, 2];
  }

  /** The GHASH input of section 7.1 of NIST SP 800-38D for empty additional data. */

  // The least number of zero bytes that completes the last block.
  function BlockFill(n: nat): nat {
    (0 - n) % 16
  }

  function GhashInput(c: seq<byte>): seq<byte> {
    c + Zeros(BlockFill(|c|)) + BigEndian(0, 8) + BigEndian(8 * |c|, 8)
  }

  /** What the code feeds. */

  function PaddingByteLen(n: nat): (p: nat)
    ensures p < 16
  {
    if n % 16 != 0 then 16 - n % 16 else 0
  }

  function LengthTail(pad: nat, bits: u32): (t: seq<byte>)
    ensures |t| == pad + 16
  {
    Zeros(pad + 12) + BigEndian(bits, 4)
  }

  function TagTail(n: nat): (t: seq<byte>)
    ensures |t| == PaddingByteLen(n) + 16
  {
    LengthTail(PaddingByteLen(n), 8 * n % 0x1_0000_0000)
  }

  function LinearTagFeed(c: seq<byte>): seq<byte> {
    c + TagTail(|c|)
  }

  function DeviceTagFeed(c: seq<byte>): seq<byte> {
    WholeWords(c) + WholeWords(TagTail(|c|))
  }

  function PaddedBlocks(n: nat): (blocks: nat)
    ensures n + PaddingByteLen(n) == 16 * blocks
  {
    if n % 16 != 0 then n / 16 + 1 else n / 16
  }

  lemma FillIsPad(n: int, pad: int, blocks: int)
    requires 0 <= pad < 16 && n + pad == 16 * blocks
    ensures (0 - n) % 16 == pad
    ensures n % 4 == 0 <==> (pad + 16) % 4 == 0
  {
    Remainder16(0 - n, 0 - blocks, pad);
    assert n == 4 * (4 * blocks) - pad;
  }

  lemma Remainder16(x: int, q: int, r: int)
    requires x == 16 * q + r && 0 <= r < 16
    ensures x % 16 == r
  {
  }

  lemma PaddingFacts(n: nat)
    ensures PaddingByteLen(n) == BlockFill(n)
    ensures n % 4 == 0 <==> (PaddingByteLen(n) + 16) % 4 == 0
  {
    FillIsPad(n, PaddingByteLen(n), PaddedBlocks(n));
  }

  lemma LinearTagFeedIsGhashInput(c: seq<byte>)
    requires |c| < 0x1_0000_0000
    ensures |LinearTagFeed(c)| == |GhashInput(c)|
    ensures LinearTagFeed(c) == GhashInput(c) <==> |c| < 0x2000_0000
  {
    var n := |c|;
    PaddingFacts(n);
    var w := 8 * n % 0x1_0000_0000;
    var h := 8 * n / 0x1_0000_0000;
    LengthField(0, 0);
    BigEndian4(0);
    assert BigEndian(0, 8) == Zeros(8);
    var head := c + Zeros(BlockFill(n)) + BigEndian(0, 8);
    var short := Zeros(4) + BigEndian(w, 4);
    assert Zeros(PaddingByteLen(n) + 12) == Zeros(BlockFill(n)) + BigEndian(0, 8) + Zeros(4);
    assert LinearTagFeed(c) == head + short;
    LengthField(h, w);
    assert (head + short)[|head|..] == short;
    assert (head + BigEndian(8 * n, 8))[|head|..] == BigEndian(8 * n, 8);
  }

  // The GHASH input, but for a bit length cut to 32 bits.
  function ShortGhashInput(c: seq<byte>): seq<byte> {
    c + Zeros(BlockFill(|c|)) + BigEndian(0, 8) + BigEndian(8 * |c| % 0x1_0000_0000, 8)
  }

  /** For every length the in-place feed is the GHASH input with the low 32 bits of the length. */
  lemma LinearTagFeedIs(c: seq<byte>)
    ensures LinearTagFeed(c) == ShortGhashInput(c)
    ensures |c| < 0x2000_0000 ==> ShortGhashInput(c) == GhashInput(c)
  {
    hide BigEndian, FromBigEndian;
    var n := |c|;
    var w := 8 * n % 0x1_0000_0000;
    PaddingFacts(n);
    LengthField(0, 0);
    LengthField(0, w);
    BigEndian4(0);
    assert BigEndian(0, 8) == Zeros(8);
    assert BigEndian(w, 8) == Zeros(4) + BigEndian(w, 4);
    assert Zeros(PaddingByteLen(n) + 12) == Zeros(BlockFill(n)) + Zeros(8) + Zeros(4);
  }

  lemma DeviceTagFeedIsGhashInput(c: seq<byte>)
    requires |c| < 0x1_0000_0000
    ensures DeviceTagFeed(c) == GhashInput(c) <==> |c| % 4 == 0 && |c| < 0x2000_0000
  {
    LinearTagFeedIsGhashInput(c);
    PaddingFacts(|c|);
    WholeWordsLength(c);
    WholeWordsLength(TagTail(|c|));
  }

  // AesSm4GenTag: the tail is written behind the data, fed with it, and the old bytes put back.
  method FeedInPlace(ram: Ram, at: nat, n: nat, pad: nat, bits: u32) returns (fed: seq<byte>)
    requires pad < 16 && at + n + pad + 16 <= |ram.bytes|
    modifies ram
    ensures ram.bytes == old(ram.bytes)
    ensures fed == old(ram.bytes)[at..at + n] + LengthTail(pad, bits)
  {
    hide Splice;
    ghost var was, tail := ram.bytes, LengthTail(pad, bits);
    var backUp := ram.bytes[at + n..at + n + pad + 16];
    assert |backUp| <= 32; // BackUpBuff
    WriteLengthTail(ram, at + n, pad, bits);
    SpliceRead(was, at, n, tail);
    fed := ram.bytes[at..at + n + pad + 16];
    SpliceBack(was, at + n, tail, backUp);
    ram.Store(at + n, backUp);
  }

  method WriteLengthTail(ram: Ram, to: nat, pad: nat, bits: u32)
    requires to + pad + 16 <= |ram.bytes|
    modifies ram
    ensures ram.bytes == Splice(old(ram.bytes), to, LengthTail(pad, bits))
  {
    ram.Store(to, Zeros(pad + 16));
    ram.StoreWordThenSwap(to + pad + 12, bits);
  }

  // PlCalcTagNoLinear: chunks copied from the boot device, then the tail from a local buffer.
  method FeedFromDevice(c: seq<byte>, buffer: array<byte>, words: nat) returns (fed: seq<byte>)
    requires |c| < 0x1_0000_0000
    requires buffer.Length == 4 * words && words > 0
    modifies buffer
    ensures fed == DeviceTagFeed(c)
  {
    var pad := PaddingByteLen(|c|);
    var padData := new byte[32](_ => 0);
    FillPadData(padData, pad, 8 * |c| % 0x1_0000_0000);
    var tail := padData[..pad + 16];
    fed := FeedChunks(c, buffer, words);
    fed := fed + tail[..(pad + 16) / 4 * 4];
  }

  method FillPadData(padData: array<byte>, pad: nat, bits: u32)
    requires pad < 16 && padData.Length == 32
    modifies padData
    ensures padData[..pad + 16] == LengthTail(pad, bits)
  {
    BigEndian4(bits);
    var i := 0;
    while i < pad + 12
      invariant 0 <= i <= pad + 12
      invariant forall k :: 0 <= k < i ==> padData[k] == 0
    {
      padData[i] := 0;
      i := i + 1;
    }
    padData[i], padData[i + 1], padData[i + 2], padData[i + 3] :=
      bits / 256 / 256 / 256 % 256, bits / 256 / 256 % 256, bits / 256 % 256, bits % 256;
    assert padData[..pad + 16] == Zeros(pad + 12) + BigEndian(bits, 4);
  }

  // Full buffers, then what is left of them.
  method FeedChunks(c: seq<byte>, buffer: array<byte>, words: nat) returns (fed: seq<byte>)
    requires buffer.Length == 4 * words && words > 0
    modifies buffer
    ensures fed == WholeWords(c)
  {
    fed := [];
    var sent := 0;
    ghost var j: nat := 0;
    while sent + buffer.Length <= |c|
      invariant 0 <= sent <= |c| && sent == 4 * j
      invariant fed == c[..sent]
    {
      WholeWordsExact(c[sent..sent + buffer.Length], words);
      var part := SendChunk(buffer, c[sent..sent + buffer.Length]);
      fed := fed + part;
      sent := sent + buffer.Length;
      j := j + words;
    }
    WholeWordsSplit(c, j);
    if sent != |c| {
      var part := SendChunk(buffer, c[sent..]);
      fed := fed + part;
    }
  }

  // DeviceCopy into the buffer, and a DMA of the whole words in it.
  method SendChunk(buffer: array<byte>, chunk: seq<byte>) returns (part: seq<byte>)
    requires |chunk| <= buffer.Length
    modifies buffer
    ensures part == WholeWords(chunk)
  {
    CopyIn(buffer, 0, chunk);
    part := buffer[..|chunk| / 4 * 4];
    assert part == buffer[..][..|chunk| / 4 * 4];
  }
}
