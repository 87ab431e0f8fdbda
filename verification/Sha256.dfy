// The byte streams that fmsh_sha256.c feeds to the SHA-256 engine.
// The compression function is hardware: the engine is the log of the bytes it consumed.
module Sha256 {
  import opened Bytes

  const FILL_DATA: byte := 0x80

  /** The reference: the padded message of FIPS 180-4, section 5.1.1. */

  // The least number of zero bytes that leaves room for exactly the 64-bit length.
  function ZeroFill(n: nat): nat {
    (55 - n) % 64
  }

  function Padded(m: seq<byte>): seq<byte> {
    m + [FILL_DATA] + Zeros(ZeroFill(|m|)) + BigEndian(8 * |m|, 8)
  }

  lemma PaddedIsLeastWholeBlocks(m: seq<byte>, k: nat)
    ensures |Padded(m)| % 64 == 0
    ensures (|m| + 1 + k) % 64 == 56 ==> ZeroFill(|m|) <= k
    ensures |Padded(m)| == |m| + 1 + ZeroFill(|m|) + 8
  {
    FillIsLeast(|m|, k);
  }

  /** The message, a one bit and zeros, and the length in bits as a 64-bit number. */
  lemma PaddedIs(m: seq<byte>, i: nat)
    requires i < |Padded(m)|
    ensures i < |m| ==> Padded(m)[i] == m[i]
    ensures i == |m| ==> Padded(m)[i] == 0x80
    ensures |m| < i < |Padded(m)| - 8 ==> Padded(m)[i] == 0
    ensures |m| < 0x2000_0000_0000_0000 ==> FromBigEndian(Padded(m)[|Padded(m)| - 8..]) == 8 * |m|
  {
    assert Padded(m)[|Padded(m)| - 8..] == BigEndian(8 * |m|, 8);
    if |m| < 0x2000_0000_0000_0000 {
      ValueOfLength(|m|);
    }
  }

  lemma FillIsLeast(n: nat, k: nat)
    ensures (n + 1 + ZeroFill(n) + 8) % 64 == 0
    ensures (n + 1 + k) % 64 == 56 ==> ZeroFill(n) <= k
  {
    var q := Quotient64(55 - n);
    Remainder64(n + 1 + ZeroFill(n) + 8, 1 - q, 0);
    var t := Quotient64(n + 1 + k);
  }

  lemma Quotient64(x: int) returns (q: int)
    ensures x == 64 * q + x % 64
  {
    q := x / 64;
  }

  lemma Remainder64(x: int, q: int, r: int)
    requires x == 64 * q + r && 0 <= r < 64
    ensures x % 64 == r
  {
  }

  // Two messages below 2^61 bytes have the same padded form only if they are the same message.
  lemma PaddedInjective(a: seq<byte>, b: seq<byte>)
    requires |a| < 0x2000_0000_0000_0000 && |b| < 0x2000_0000_0000_0000
    requires Padded(a) == Padded(b)
    ensures a == b
  {
    var p := Padded(a);
    assert p[|p| - 8..] == BigEndian(8 * |a|, 8);
    assert p[|p| - 8..] == BigEndian(8 * |b|, 8) by {
      assert Padded(b)[|Padded(b)| - 8..] == BigEndian(8 * |b|, 8);
    }
    ValueOfLength(|a|);
    ValueOfLength(|b|);
    assert a == p[..|a|] && b == p[..|b|];
  }

  lemma ValueOfLength(n: nat)
    requires n < 0x2000_0000_0000_0000
    ensures FromBigEndian(BigEndian(8 * n, 8)) == 8 * n
  {
    assert Pow256(8) == 0x1_0000_0000_0000_0000;
    BigEndianValue(8 * n, 8);
  }

  /** What the code appends: PaddingByteLen bytes ending in the 32-bit product MessageByteLen * 8U. */

  function PaddingByteLen(n: nat): (p: nat)
    ensures 9 <= p <= 72
  {
    if n % 64 < 56 then 64 - n % 64 else 64 * 2 - n % 64
  }

  function BitLength(n: nat): u32 {
    8 * n % 0x1_0000_0000
  }

  function PaddingBytes(pad: nat, bits: u32): (p: seq<byte>)
    requires pad >= 9
    ensures |p| == pad
  {
    [FILL_DATA] + Zeros(pad - 5) + BigEndian(bits, 4)
  }

  function CodePadding(n: nat): (p: seq<byte>)
    ensures |p| == PaddingByteLen(n)
  {
    PaddingBytes(PaddingByteLen(n), BitLength(n))
  }

  // The three feeds, as functions of the message.

  function InPlaceFeed(m: seq<byte>): seq<byte> {
    m + CodePadding(|m|)
  }

  function LinearFeed(m: seq<byte>): seq<byte> {
    WholeWords(m) + WholeWords(CodePadding(|m|))
  }

  predicate TailSplits(n: nat) {
    n % 1024 + PaddingByteLen(n) > 1024
  }

  function DeviceFeed(m: seq<byte>): seq<byte> {
    var all := m + CodePadding(|m|);
    if TailSplits(|m|) then all[..|all| - 64] else all
  }

  // What follows the whole chunks: the remaining message bytes and the padding.
  function TailSent(rest: seq<byte>, pad: nat, bits: u32): seq<byte>
    requires 9 <= pad <= 72
  {
    var all := rest + PaddingBytes(pad, bits);
    if |rest| + pad > 1024 then all[..1024] else all
  }

  // The two-block tail arises for 8 of the 1024 remainders, and then it is 64 bytes too long.
  lemma SplitTailLength(n: nat, q: nat, r: nat) returns (words: nat)
    requires n == 1024 * q + r && r < 1024
    ensures TailSplits(n) <==> r + PaddingByteLen(n) > 1024
    ensures TailSplits(n) <==> r >= 1016
    ensures TailSplits(n) ==> r + PaddingByteLen(n) == 1024 + 64
    ensures r + PaddingByteLen(n) == 4 * words
  {
    var k, s := r / 64, r % 64;
    Remainder64(n, 16 * q + k, s);
    assert n % 1024 == r;
    words := if s < 56 then 16 * (k + 1) else 16 * (k + 2);
  }

  lemma DeviceFeedParts(m: seq<byte>, q: nat, r: nat)
    requires |m| == 1024 * q + r && r < 1024
    ensures DeviceFeed(m) == m[..1024 * q] + TailSent(m[1024 * q..], PaddingByteLen(|m|), BitLength(|m|))
  {
    var cut, pad := 1024 * q, CodePadding(|m|);
    var all := m[cut..] + pad;
    assert m + pad == m[..cut] + all;
    var _ := SplitTailLength(|m|, q, r);
    if TailSplits(|m|) {
      assert (m[..cut] + all)[..cut + 1024] == m[..cut] + all[..1024];
    }
  }

  lemma TailJoins(head: seq<byte>, rest: seq<byte>, block: nat, pad: seq<byte>, sent: nat)
    requires block <= |rest| <= block + sent <= |rest| + |pad|
    ensures head + rest[..block] + (rest[block..] + pad)[..sent] == head + (rest + pad)[..block + sent]
  {
  }

  class ShaEngine {
    var fed: seq<byte>
    const tmpMessage: array<byte>
    const padMessage: array<byte>

    ghost predicate Valid()
      reads this
    {
      tmpMessage != padMessage && tmpMessage.Length == 1024 && padMessage.Length == 128
    }

    constructor ()
      ensures Valid() && fed == [] && fresh(tmpMessage) && fresh(padMessage)
    {
      tmpMessage := new byte[1024](_ => 0);
      padMessage := new byte[128](_ => 0);
      fed := [];
    }

    // FmshFsbl_part_sha256: the DMA moves whole words, and nothing is started for fewer than four bytes.
    method PartSha256(message: array<byte>, from: nat, n: nat)
      requires from + n <= message.Length
      modifies this`fed
      ensures fed == old(fed) + WholeWords(message[from..from + n])
    {
      assert WholeWords(message[from..from + n]) == message[from..from + n / 4 * 4];
      if n > 3 {
        fed := fed + message[from..from + n / 4 * 4];
      }
    }

    // FmshFsbl_sha256: pad behind the message, feed, put the overwritten bytes back.
    method Sha256(ram: Ram, at: nat, n: u32, dmaDone: bool) returns (ok: bool)
      requires at + n + PaddingByteLen(n) <= |ram.bytes|
      modifies this`fed, ram
      ensures ok == dmaDone
      ensures ok ==> fed == InPlaceFeed(old(ram.bytes)[at..at + n])
      ensures ram.bytes == if ok then old(ram.bytes) else Splice(old(ram.bytes), at + n, CodePadding(n))
    {
      ok := PadFeedRestore(ram, at, n, PaddingByteLen(n), BitLength(n), dmaDone);
    }

    method PadFeedRestore(ram: Ram, at: nat, n: nat, pad: nat, bits: u32, dmaDone: bool) returns (ok: bool)
      requires 9 <= pad <= 72 && at + n + pad <= |ram.bytes|
      modifies this`fed, ram
      ensures ok == dmaDone
      ensures ok ==> fed == old(ram.bytes)[at..at + n] + PaddingBytes(pad, bits)
      ensures ram.bytes == if ok then old(ram.bytes) else Splice(old(ram.bytes), at + n, PaddingBytes(pad, bits))
    {
      hide Splice;
      ghost var was, tail := ram.bytes, PaddingBytes(pad, bits);
      var backUp := ram.bytes[at + n..at + n + pad];
      assert |backUp| <= 72; // BackUpBuff
      PadBehind(ram, at + n, pad, bits);
      SpliceRead(was, at, n, tail);
      fed := ram.bytes[at..at + n + pad];
      ok := dmaDone;
      if ok {
        SpliceBack(was, at + n, tail, backUp);
        ram.Store(at + n, backUp);
      }
    }

    static method PadBehind(ram: Ram, to: nat, pad: nat, bits: u32)
      requires 9 <= pad && to + pad <= |ram.bytes|
      modifies ram
      ensures ram.bytes == Splice(old(ram.bytes), to, PaddingBytes(pad, bits))
    {
      ram.Store(to, Zeros(pad));
      ram.Store(to, [FILL_DATA]);
      ram.StoreWordThenSwap(to + pad - 4, bits);
    }

    // The padding as the chunked paths write it, byte by byte.
    static method WritePadding(buf: array<byte>, to: nat, pad: nat, bits: u32)
      requires 9 <= pad && to + pad <= buf.Length
      modifies buf
      ensures buf[..] == Splice(old(buf[..]), to, PaddingBytes(pad, bits))
    {
      BigEndian4(bits);
      buf[to] := FILL_DATA;
      var indx := 1;
      while indx < pad - 4
        invariant 1 <= indx <= pad - 4
        invariant forall k :: 0 <= k < buf.Length ==>
          buf[k] == if to <= k < to + indx then PaddingBytes(pad, bits)[k - to] else old(buf[k])
      {
        buf[to + indx] := 0;
        indx := indx + 1;
      }
      buf[to + indx] := bits / 0x100_0000 % 256;
      buf[to + indx + 1] := bits / 0x1_0000 % 256;
      buf[to + indx + 2] := bits / 0x100 % 256;
      buf[to + indx + 3] := bits % 256;
      assert PaddingBytes(pad, bits)[pad - 4..] == BigEndian(bits, 4);
    }

    // FmshFsbl_LinearBurstSha256: byte by byte through a 1024-byte buffer.
    method LinearBurstSha256(message: seq<byte>)
      requires Valid() && |message| < 0x1_0000_0000
      modifies this`fed, tmpMessage, padMessage
      ensures fed == LinearFeed(message)
    {
      FeedBytes(message);
      var n := |message|;
      var pad := PaddingByteLen(n);
      WritePadding(padMessage, 0, pad, BitLength(n));
      assert padMessage[0..pad] == padMessage[..][0..pad] == CodePadding(n);
      PartSha256(padMessage, 0, pad);
    }

    method FeedBytes(message: seq<byte>)
      requires Valid()
      modifies this`fed, tmpMessage
      ensures fed == WholeWords(message)
    {
      fed := [];
      var i, indx := 0, 0;
      ghost var chunks: nat := 0;
      while i < |message|
        invariant 0 <= i <= |message| && 0 <= indx < 1024 && i == 1024 * chunks + indx
        invariant fed == message[..1024 * chunks]
        invariant forall k :: 0 <= k < indx ==> tmpMessage[k] == message[1024 * chunks + k]
      {
        tmpMessage[indx] := message[i];
        indx := indx + 1;
        i := i + 1;
        if indx == 1024 {
          indx := 0;
          FlushChunk(message, chunks);
          chunks := chunks + 1;
        }
      }
      WholeWordsSplit(message, 256 * chunks);
      assert tmpMessage[0..indx] == message[1024 * chunks..];
      PartSha256(tmpMessage, 0, indx);
    }

    method FlushChunk(message: seq<byte>, ghost chunks: nat)
      requires Valid() && 1024 * chunks + 1024 <= |message|
      requires forall k :: 0 <= k < 1024 ==> tmpMessage[k] == message[1024 * chunks + k]
      requires fed == message[..1024 * chunks]
      modifies this`fed
      ensures fed == message[..1024 * (chunks + 1)]
    {
      ghost var chunk := message[1024 * chunks..1024 * (chunks + 1)];
      assert tmpMessage[0..1024] == chunk;
      WholeWordsExact(chunk, 256);
      PartSha256(tmpMessage, 0, 1024);
    }

    // FmshFsbl_NoneLinearBurstSha256: 1024-byte chunks copied from the boot device.
    method NoneLinearBurstSha256(device: seq<byte>)
      requires Valid() && |device| < 0x1_0000_0000
      modifies this`fed, tmpMessage, padMessage
      ensures fed == DeviceFeed(device)
    {
      var n := |device|;
      var q, r, pad := n / 1024, n % 1024, PaddingByteLen(n);
      DeviceFeedParts(device, q, r);
      ghost var words := SplitTailLength(n, q, r);
      FeedChunks(device, q);
      FeedRemainder(device[1024 * q..], pad, BitLength(n), words);
    }

    method FeedChunks(device: seq<byte>, q: nat)
      requires Valid() && 1024 * q <= |device|
      modifies this`fed, tmpMessage
      ensures fed == device[..1024 * q]
    {
      fed := [];
      for i := 0 to q
        invariant fed == device[..1024 * i]
      {
        WholeWordsExact(device[1024 * i..1024 * (i + 1)], 256);
        CopyAndFeed(device[1024 * i..1024 * (i + 1)]);
      }
    }

    // DeviceCopy into tmpMessage, then FmshFsbl_part_sha256.
    method CopyAndFeed(chunk: seq<byte>)
      requires Valid() && |chunk| <= 1024
      modifies this`fed, tmpMessage
      ensures fed == old(fed) + WholeWords(chunk)
    {
      CopyIn(tmpMessage, 0, chunk);
      assert tmpMessage[0..|chunk|] == tmpMessage[..][0..|chunk|] == chunk;
      PartSha256(tmpMessage, 0, |chunk|);
    }

    method FeedRemainder(rest: seq<byte>, pad: nat, bits: u32, ghost words: nat)
      requires Valid() && |rest| < 1024
      requires 9 <= pad <= 72 && |rest| + pad == 4 * words
      requires |rest| + pad > 1024 ==> |rest| + pad == 1024 + 64
      modifies this`fed, tmpMessage, padMessage
      ensures fed == old(fed) + TailSent(rest, pad, bits)
    {
      ghost var tail := PaddingBytes(pad, bits);
      if |rest| != 0 {
        if |rest| + pad <= 1024 {
          FeedTail(rest, pad, bits, |rest| + pad, words);
          assert (rest + tail)[..|rest| + pad] == rest + tail;
        } else {
          WholeWordsExact(rest[..960], 240);
          CopyAndFeed(rest[..960]);
          FeedTail(rest[960..], pad, bits, 64, 16);
          TailJoins(old(fed), rest, 960, tail, 64);
        }
      } else {
        WritePadding(padMessage, 0, pad, bits);
        assert padMessage[0..pad] == padMessage[..][0..pad] == tail;
        WholeWordsExact(tail, words);
        PartSha256(padMessage, 0, pad);
        assert rest + tail == tail;
      }
    }

    // The last message bytes and the padding behind them, of which `sent` bytes are fed.
    method FeedTail(rest: seq<byte>, pad: nat, bits: u32, sent: nat, ghost words: nat)
      requires Valid() && 9 <= pad && |rest| + pad <= 1024
      requires sent == 4 * words && sent <= |rest| + pad
      modifies this`fed, tmpMessage
      ensures fed == old(fed) + (rest + PaddingBytes(pad, bits))[..sent]
    {
      ghost var all := rest + PaddingBytes(pad, bits);
      CopyIn(tmpMessage, 0, rest);
      WritePadding(tmpMessage, |rest|, pad, bits);
      assert tmpMessage[0..sent] == tmpMessage[..][0..sent] == all[..sent];
      WholeWordsExact(all[..sent], words);
      PartSha256(tmpMessage, 0, sent);
    }
  }

  /** When the feeds are the standard's padded message. */

  lemma CodePaddingIsStandard(m: seq<byte>)
    requires |m| < 0x1_0000_0000
    ensures |InPlaceFeed(m)| == |Padded(m)|
    ensures InPlaceFeed(m) == Padded(m) <==> |m| < 0x2000_0000
  {
    hide BigEndian, ZeroFill, PaddingByteLen, BitLength;
    var n := |m|;
    var head := m + [FILL_DATA] + Zeros(ZeroFill(n));
    var short := Zeros(4) + BigEndian(BitLength(n), 4);
    PaddingByteLenIsStandard(n);
    assert InPlaceFeed(m) == head + short by {
      assert Zeros(PaddingByteLen(n) - 5) == Zeros(ZeroFill(n)) + Zeros(4);
    }
    SameTail(head, short, BigEndian(8 * n, 8));
    var h := BitLengthHigh(n);
    LengthField(h, BitLength(n));
  }

  lemma PaddingByteLenIsStandard(n: nat)
    ensures PaddingByteLen(n) == ZeroFill(n) + 9
  {
  }

  lemma BitLengthHigh(n: u32) returns (h: u32)
    ensures 8 * n == 0x1_0000_0000 * h + BitLength(n)
    ensures h == 0 <==> n < 0x2000_0000
  {
    h := 8 * n / 0x1_0000_0000;
  }

  lemma SameTail(head: seq<byte>, a: seq<byte>, b: seq<byte>)
    requires |a| == |b|
    ensures head + a == head + b <==> a == b
  {
    assert (head + a)[|head|..] == a && (head + b)[|head|..] == b;
  }

  lemma LinearFeedIsStandard(m: seq<byte>)
    requires |m| < 0x1_0000_0000
    ensures LinearFeed(m) == Padded(m) <==> |m| % 4 == 0 && |m| < 0x2000_0000
  {
    CodePaddingIsStandard(m);
    WholeWordsLength(m);
    WholeWordsLength(CodePadding(|m|));
    PaddingAligned(|m|);
  }

  lemma PaddingAligned(n: nat)
    ensures n % 4 == 0 <==> PaddingByteLen(n) % 4 == 0
  {
    var words := SplitTailLength(n, n / 1024, n % 1024);
    assert PaddingByteLen(n) == 4 * (words + 256 * (n / 1024)) - n;
  }

  lemma DeviceFeedIsStandard(m: seq<byte>)
    requires |m| < 0x1_0000_0000
    ensures DeviceFeed(m) == Padded(m) <==> |m| % 1024 < 1016 && |m| < 0x2000_0000
    ensures |m| % 1024 >= 1016 && |m| < 0x2000_0000 ==> DeviceFeed(m) == Padded(m)[..|Padded(m)| - 64]
  {
    CodePaddingIsStandard(m);
    var _ := SplitTailLength(|m|, |m| / 1024, |m| % 1024);
  }
}
