// The Ethernet test pattern of fmsh_gmac_example.c: the functions that build a frame and the one that
// checks it on its return.
module Gmac {
  import opened Bytes

  const HDR_SIZE: nat := 14

  // Byte i of the payload: 0, 1, ... 255, then the 16-bit numbers from 256 on, high byte first.
  function PatternAt(i: nat): byte
    requires i < 0x1_0000
  {
    if i < 256 then i
    else if i % 2 == 0 then (i / 2 + 128) / 256
    else (i / 2 + 128) % 256
  }

  function EndianSwap16(x: u16): u16 {
    x % 256 * 256 + x / 256
  }

  // The 16-bit load of the type field on a little-endian core, swapped.
  function TypeField(frame: seq<byte>): u16
    requires |frame| >= HDR_SIZE
  {
    var low: int, high: int := frame[12], frame[13];
    EndianSwap16(low + 256 * high)
  }

  predicate HasPattern(frame: seq<byte>, size: u16) {
    HDR_SIZE + size <= |frame| && forall k :: 14 <= k < 14 + size ==> frame[k] == PatternAt(k - 14)
  }

  // FGmacPs_FrameFormatMAC.
  method FrameFormatMac(frame: array<byte>, dest: seq<byte>, source: seq<byte>)
    requires frame.Length >= HDR_SIZE && |dest| == |source| == 6
    modifies frame
    ensures frame[..6] == dest && frame[6..12] == source
    ensures forall k :: 12 <= k < frame.Length ==> frame[k] == old(frame[k])
  {
    for index := 0 to 6
      invariant frame[..index] == dest[..index]
      invariant forall k :: 12 <= k < frame.Length ==> frame[k] == old(frame[k])
    {
      frame[index] := dest[index];
    }
    for index := 0 to 6
      invariant frame[..6] == dest && frame[6..6 + index] == source[..index]
      invariant forall k :: 12 <= k < frame.Length ==> frame[k] == old(frame[k])
    {
      frame[6 + index] := source[index];
    }
  }

  // FGmacPs_FrameFormatType: a little-endian store of the swapped value.
  method FrameFormatType(frame: array<byte>, frameType: u16)
    requires frame.Length >= HDR_SIZE
    modifies frame
    ensures TypeField(frame[..]) == frameType
    ensures frame[12] == frameType / 256 && frame[13] == frameType % 256
    ensures forall k :: 0 <= k < frame.Length && k != 12 && k != 13 ==> frame[k] == old(frame[k])
  {
    var swapped := EndianSwap16(frameType);
    frame[12] := swapped % 256;
    frame[13] := swapped / 256;
    SwapTwice(frameType);
  }

  // The type field is big-endian on the wire.
  lemma TypeOnTheWire(frame: seq<byte>)
    requires |frame| >= HDR_SIZE
    ensures BigEndian(TypeField(frame), 2) == [frame[12], frame[13]]
  {
    var low: int, high: int := frame[12], frame[13];
    assert (low + 256 * high) % 256 == low && (low + 256 * high) / 256 == high;
    assert (256 * low + high) / 256 == low && (256 * low + high) % 256 == high;
    assert BigEndian(256 * low + high, 2) == BigEndian(low, 1) + [high];
    assert BigEndian(low, 1) == [low];
  }

  lemma SwapTwice(x: u16)
    ensures EndianSwap16(x) % 256 == x / 256 && EndianSwap16(x) / 256 == x % 256
    ensures EndianSwap16(EndianSwap16(x)) == x
    ensures EndianSwap16(x) == EndianSwap16(x) % 256 + 256 * (EndianSwap16(x) / 256)
  {
    var lo, hi := x % 256, x / 256;
    assert (lo * 256 + hi) % 256 == hi && (lo * 256 + hi) / 256 == lo;
  }

  // The two bytes at position i of the 16-bit part.
  lemma PairAt(i: nat, counter: nat)
    requires 256 <= i < 0x1_0000 && i == 2 * (counter - 128)
    ensures PatternAt(i) == counter / 256
    ensures i + 1 < 0x1_0000 ==> PatternAt(i + 1) == counter % 256
  {
    assert (i + 1) / 2 == i / 2 == counter - 128;
  }

  lemma LowAt(i: nat)
    requires i < 256
    ensures PatternAt(i) == i % 256
  {
  }

  // FGmacPs_FrameSetPayloadData. The 16-bit counter stays below 2^16.
  method FrameSetPayloadData(frame: array<byte>, payloadSize: u16)
    requires HDR_SIZE + payloadSize <= frame.Length
    modifies frame
    ensures HasPattern(frame[..], payloadSize)
    ensures forall k :: 0 <= k < frame.Length && !(14 <= k < 14 + payloadSize) ==> frame[k] == old(frame[k])
  {
    hide PatternAt;
    var bytesLeft: u16, at, counter: u16 := payloadSize, 14, 0;
    while bytesLeft != 0 && counter < 256
      invariant counter <= 256 && at == 14 + counter && bytesLeft + counter == payloadSize
      invariant forall k :: 14 <= k < at ==> frame[k] == PatternAt(k - 14)
      invariant forall k :: 0 <= k < frame.Length && !(14 <= k < at) ==> frame[k] == old(frame[k])
    {
      LowAt(counter);
      frame[at] := counter % 256;
      at, counter := at + 1, counter + 1;
      bytesLeft := bytesLeft - 1;
    }
    while bytesLeft != 0
      invariant 14 <= at && at - 14 + bytesLeft == payloadSize
      invariant bytesLeft != 0 ==> counter >= 256 && at - 14 == 2 * (counter - 128)
      invariant forall k :: 14 <= k < at ==> frame[k] == PatternAt(k - 14)
      invariant forall k :: 0 <= k < frame.Length && !(14 <= k < at) ==> frame[k] == old(frame[k])
    {
      PairAt(at - 14, counter);
      frame[at] := counter / 256;
      at := at + 1;
      bytesLeft := bytesLeft - 1;
      if bytesLeft == 0 { break; }
      frame[at] := counter % 256;
      at, counter := at + 1, counter + 1;
      bytesLeft := bytesLeft - 1;
    }
  }

  // fmsh_gmac_verify_FrameVerify: the length is the type field of the frame that came back.
  method FrameVerify(check: seq<byte>, actual: seq<byte>) returns (ok: bool)
    requires |check| >= HDR_SIZE && |actual| >= HDR_SIZE && HDR_SIZE + TypeField(actual) <= |actual|
    ensures ok <==> check[..14] == actual[..14] && HasPattern(actual, TypeField(actual))
  {
    hide TypeField;
    var index := 0;
    while index < 14
      invariant index <= 14 && check[..index] == actual[..index]
    {
      if check[index] != actual[index] {
        HeadersDiffer(check, actual, index);
        return false;
      }
      index := index + 1;
    }
    ok := PayloadVerify(actual, TypeField(actual));
  }

  lemma HeadersDiffer(a: seq<byte>, b: seq<byte>, k: nat)
    requires |a| >= 14 && |b| >= 14 && k < 14 && a[k] != b[k]
    ensures a[..14] != b[..14]
  {
    assert a[..14][k] != b[..14][k];
  }

  method PayloadVerify(actual: seq<byte>, size: u16) returns (ok: bool)
    requires HDR_SIZE + size <= |actual|
    ensures ok <==> HasPattern(actual, size)
  {
    hide PatternAt, HasPattern;
    var bytesLeft: u16, at, counter: u16 := size, 14, 0;
    while bytesLeft != 0 && counter < 256
      invariant counter <= 256 && at == 14 + counter && bytesLeft + counter == size
      invariant forall k :: 14 <= k < at ==> actual[k] == PatternAt(k - 14)
    {
      LowAt(counter);
      if actual[at] != counter % 256 {
        Mismatch(actual, size, at);
        return false;
      }
      at, counter := at + 1, counter + 1;
      bytesLeft := bytesLeft - 1;
    }
    while bytesLeft != 0
      invariant 14 <= at && at - 14 + bytesLeft == size
      invariant bytesLeft != 0 ==> counter >= 256 && at - 14 == 2 * (counter - 128)
      invariant forall k :: 14 <= k < at ==> actual[k] == PatternAt(k - 14)
    {
      PairAt(at - 14, counter);
      if actual[at] != counter / 256 {
        Mismatch(actual, size, at);
        return false;
      }
      at := at + 1;
      bytesLeft := bytesLeft - 1;
      if bytesLeft == 0 { break; }
      if actual[at] != counter % 256 {
        Mismatch(actual, size, at);
        return false;
      }
      at, counter := at + 1, counter + 1;
      bytesLeft := bytesLeft - 1;
    }
    ok := true;
    Match(actual, size);
  }

  lemma Match(actual: seq<byte>, size: u16)
    requires HDR_SIZE + size <= |actual| && forall k :: 14 <= k < 14 + size ==> actual[k] == PatternAt(k - 14)
    ensures HasPattern(actual, size)
  {
  }

  lemma Mismatch(actual: seq<byte>, size: u16, k: nat)
    requires HDR_SIZE + size <= |actual| && 14 <= k < 14 + size && actual[k] != PatternAt(k - 14)
    ensures !HasPattern(actual, size)
  {
  }

  /** A frame that the three functions built is accepted when checked against itself, for every size. */
  method RoundTrip(dest: seq<byte>, source: seq<byte>, payloadSize: u16) returns (frame: seq<byte>, ok: bool)
    requires |dest| == |source| == 6
    ensures |frame| == HDR_SIZE + payloadSize
    ensures frame[..6] == dest && frame[6..12] == source && TypeField(frame) == payloadSize
    ensures ok
  {
    hide TypeField, HasPattern;
    var buffer := new byte[14 + payloadSize](_ => 0);
    FrameFormatMac(buffer, dest, source);
    FrameFormatType(buffer, payloadSize);
    ghost var header := buffer[..];
    FrameSetPayloadData(buffer, payloadSize);
    frame := buffer[..];
    SameType(header, frame);
    ok := FrameVerify(frame, frame);
  }

  lemma SameType(a: seq<byte>, b: seq<byte>)
    requires |a| >= HDR_SIZE && |b| >= HDR_SIZE && a[12] == b[12] && a[13] == b[13]
    ensures TypeField(a) == TypeField(b)
  {
  }

  /** The pattern is what the loops count: bytes up to 255, then big-endian 16-bit numbers from 256 on. */
  lemma PatternCounts(k: u16)
    ensures k < 256 ==> PatternAt(k) == k
    ensures 256 <= k && 2 * (k - 128) + 1 < 0x1_0000 ==>
      [PatternAt(2 * (k - 128)), PatternAt(2 * (k - 128) + 1)] == BigEndian(k, 2)
  {
    if 256 <= k && 2 * (k - 128) + 1 < 0x1_0000 {
      PairAt(2 * (k - 128), k);
      assert BigEndian(k, 2) == BigEndian(k / 256, 1) + [k % 256];
      assert BigEndian(k / 256, 1) == [k / 256];
    }
  }
}
