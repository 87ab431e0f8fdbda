// The RSA result and the signature check of fmsh_secure_rsa.c and fmsh_authentication.c: word order
// and byte order of the number the engine leaves in its RAM, and the PKCS#1 v1.5 comparison.
module Rsa {
  import opened Bytes

  /** Numbers in the engine's RAM: 32-bit digits, least significant first. */

  function Value(ram: seq<u32>): nat {
    if ram == [] then 0 else 0x1_0000_0000 * Value(ram[1..]) + ram[0]
  }

  // Exchange the bytes in each half word, then the half words.
  function EndianSwap32(data: u32): u32 {
    var lo, hi := data % 0x1_0000, data / 0x1_0000;
    var lo1, hi1 := lo / 256 + lo % 256 * 256, hi / 256 + hi % 256 * 256;
    lo1 * 0x1_0000 + hi1
  }

  // A word as a little-endian core stores it.
  function LittleEndian4(w: u32): (s: seq<byte>)
    ensures |s| == 4
  {
    var b := BigEndian(w, 4);
    [b[3], b[2], b[1], b[0]]
  }

  function InMemory(words: seq<u32>): (s: seq<byte>)
    ensures |s| == 4 * |words|
  {
    if words == [] then [] else InMemory(words[..|words| - 1]) + LittleEndian4(words[|words| - 1])
  }

  function Word(d3: byte, d2: byte, d1: byte, d0: byte): u32 {
    256 * (256 * (256 * d3 + d2) + d1) + d0
  }

  lemma SwapDigits(d3: byte, d2: byte, d1: byte, d0: byte)
    ensures EndianSwap32(Word(d3, d2, d1, d0)) == Word(d0, d1, d2, d3)
  {
    var lo, hi := 256 * d1 + d0, 256 * d3 + d2;
    assert Word(d3, d2, d1, d0) == 0x1_0000 * hi + lo;
    Halves(hi, lo);
    assert lo / 256 == d1 && lo % 256 == d0;
    assert hi / 256 == d3 && hi % 256 == d2;
  }

  lemma Halves(hi: nat, lo: nat)
    requires lo < 0x1_0000
    ensures (0x1_0000 * hi + lo) / 0x1_0000 == hi && (0x1_0000 * hi + lo) % 0x1_0000 == lo
  {
  }

  lemma WordDigits(d3: byte, d2: byte, d1: byte, d0: byte)
    ensures BigEndian(Word(d3, d2, d1, d0), 4) == [d3, d2, d1, d0]
  {
    PushDigits4(0, d3, d2, d1, d0, 0);
  }

  lemma Digits(w: u32) returns (d3: byte, d2: byte, d1: byte, d0: byte)
    ensures w == Word(d3, d2, d1, d0)
  {
    var w1 := w / 256;
    var w2 := w1 / 256;
    d3, d2, d1, d0 := w2 / 256, w2 % 256, w1 % 256, w % 256;
  }

  /** Swapped and stored, a word reads as a big-endian number; swapped again it is what it was. */
  lemma SwappedWord(w: u32)
    ensures LittleEndian4(EndianSwap32(w)) == BigEndian(w, 4)
    ensures EndianSwap32(EndianSwap32(w)) == w
  {
    hide EndianSwap32, BigEndian, Word;
    var d3, d2, d1, d0 := Digits(w);
    SwapDigits(d3, d2, d1, d0);
    SwapDigits(d0, d1, d2, d3);
    WordDigits(d3, d2, d1, d0);
    WordDigits(d0, d1, d2, d3);
  }

  // What FSecure_RsaGetData leaves in its buffer.
  function Result(ram: seq<u32>): (r: seq<u32>)
    ensures |r| == |ram|
    ensures forall i :: 0 <= i < |ram| ==> r[|ram| - 1 - i] == EndianSwap32(ram[i])
  {
    if ram == [] then [] else Result(ram[1..]) + [EndianSwap32(ram[0])]
  }

  /** For any key size the buffer holds the number in the octet order of RFC 8017, section 4.1. */
  lemma {:induction false} ResultIsI2osp(ram: seq<u32>)
    ensures InMemory(Result(ram)) == BigEndian(Value(ram), 4 * |ram|)
  {
    hide EndianSwap32, LittleEndian4, BigEndian, InMemory;
    if ram == [] {
      NoDigits();
    } else {
      var rest, n := ram[1..], 4 * |ram[1..]|;
      ResultIsI2osp(rest);
      SwappedWord(ram[0]);
      BigEndianSplit4(Value(rest), ram[0], n);
      InMemoryAppend(Result(rest), EndianSwap32(ram[0]));
      assert 4 * |ram| == n + 4;
    }
  }

  lemma InMemoryAppend(words: seq<u32>, w: u32)
    ensures InMemory(words + [w]) == InMemory(words) + LittleEndian4(w)
  {
  }

  lemma NoDigits()
    ensures BigEndian(0, 0) == InMemory([]) == []
  {
  }

  lemma {:induction false} ValueBound(ram: seq<u32>)
    ensures Value(ram) < Pow256(4 * |ram|)
  {
    if ram != [] {
      ValueBound(ram[1..]);
      var n := 4 * |ram[1..]|;
      assert Pow256(n + 4) == 0x1_0000_0000 * Pow256(n) by {
        assert Pow256(n + 4) == 256 * Pow256(n + 3) == 256 * (256 * Pow256(n + 2)) == 256 * (256 * (256 * Pow256(n + 1)));
      }
    }
  }

  // FSecure_RsaGetData.
  method RsaGetData(ram: seq<u32>) returns (rdData: seq<u32>)
    ensures rdData == Result(ram)
    ensures InMemory(rdData) == BigEndian(Value(ram), 4 * |ram|)
  {
    hide EndianSwap32;
    var size := |ram|;
    var out := new u32[size];
    var index := 0;
    while index < size
      invariant index <= size
      invariant forall k :: 0 <= k < index ==> out[size - 1 - k] == EndianSwap32(ram[k])
    {
      out[size - index - 1] := EndianSwap32(ram[index]);
      index := index + 1;
    }
    rdData := out[..];
    SameResult(ram, rdData);
    ResultIsI2osp(ram);
  }

  lemma SameResult(ram: seq<u32>, r: seq<u32>)
    requires |r| == |ram| && forall k :: 0 <= k < |ram| ==> r[|ram| - 1 - k] == EndianSwap32(ram[k])
    ensures r == Result(ram)
  {
    hide EndianSwap32;
    var s := Result(ram);
    forall j | 0 <= j < |ram|
      ensures r[j] == s[j]
    {
      var k := |ram| - 1 - j;
      assert r[|ram| - 1 - k] == EndianSwap32(ram[k]) == s[|ram| - 1 - k];
    }
  }

  /** The reference: EMSA-PKCS1-v1_5 of RFC 8017, section 9.2, for the NIST hash algorithms. */

  // The arc 2.16.840.1.101.3.4.2 of hash algorithms, and the last component of two of them.
  const HASH_ALGORITHMS: seq<byte> := [0x60, 0x86, 0x48, 0x01, 0x65, 0x03, 0x04, 0x02]
  const SHA_256: byte := 0x01
  const SHA3_384: byte := 0x09

  // DER of DigestInfo: a sequence of the algorithm (with NULL parameters) and the hash.
  function DigestInfo(algorithm: byte, hash: seq<byte>): seq<byte>
    requires |hash| < 0x80 - 17
  {
    [0x30, 17 + |hash|] + [0x30, 13, 0x06, 9] + HASH_ALGORITHMS + [algorithm] + [0x05, 0x00] + [0x04, |hash|] + hash
  }

  function EncodedMessage(t: seq<byte>, length: nat): (em: seq<byte>)
    requires |t| + 3 <= length
    ensures |em| == length
  {
    [0x00, 0x01] + seq(length - |t| - 3, _ => 0xFF) + [0x00] + t
  }

  /** The check. */

  const T_PAD_SHA3: seq<byte> :=
    [0x30, 0x41, 0x30, 0x0D, 0x06, 0x09, 0x60, 0x86, 0x48, 0x01, 0x65, 0x03, 0x04, 0x02, 0x09, 0x05, 0x00, 0x04, 0x30]
  const T_PAD_SHA2: seq<byte> :=
    [0x30, 0x31, 0x30, 0x0D, 0x06, 0x09, 0x60, 0x86, 0x48, 0x01, 0x65, 0x03, 0x04, 0x02, 0x01, 0x05, 0x00, 0x04, 0x20]

  function TPadding(hashLen: nat): (t: seq<byte>)
    ensures |t| == 19
  {
    if hashLen == 48 then T_PAD_SHA3 else T_PAD_SHA2
  }

  // What the check compares with.
  function Expected(hash: seq<byte>): (em: seq<byte>)
    requires |hash| <= 490
    ensures |em| == 512
  {
    EncodedMessage(TPadding(|hash|) + hash, 512)
  }

  // The bytes of DigestInfo before the hash.
  function DigestPrefix(algorithm: byte, hashLen: nat): (t: seq<byte>)
    requires hashLen < 0x80 - 17
    ensures |t| == 19
  {
    [0x30, 17 + hashLen, 0x30, 13, 0x06, 9, 0x60, 0x86, 0x48, 0x01, 0x65, 0x03, 0x04, 0x02, algorithm, 0x05, 0x00,
     0x04, hashLen]
  }

  lemma DigestInfoIs(algorithm: byte, hash: seq<byte>)
    requires |hash| < 0x80 - 17
    ensures DigestInfo(algorithm, hash) == DigestPrefix(algorithm, |hash|) + hash
  {
  }

  lemma PaddingIsPrefix(n: nat)
    requires n < 0x80 - 17
    ensures TPadding(n) == DigestPrefix(if n == 48 then SHA3_384 else SHA_256, n) <==> n == 32 || n == 48
  {
    assert TPadding(n)[1] == if n == 48 then 0x41 else 0x31;
    assert DigestPrefix(if n == 48 then SHA3_384 else SHA_256, n)[1] == 17 + n;
  }

  lemma EncodedInjective(a: seq<byte>, b: seq<byte>, length: nat)
    requires |a| == |b| && |a| + 3 <= length
    ensures EncodedMessage(a, length) == EncodedMessage(b, length) <==> a == b
  {
    var n := length - |a|;
    assert EncodedMessage(a, length)[n..] == a;
    assert EncodedMessage(b, length)[n..] == b;
  }

  lemma SamePrefix(a: seq<byte>, b: seq<byte>, hash: seq<byte>)
    requires |a| == |b|
    ensures a + hash == b + hash <==> a == b
  {
    assert (a + hash)[..|a|] == a && (b + hash)[..|a|] == b;
  }

  /** It is the standard's encoding for the two hash sizes in use, and for no other below 111 bytes. */
  lemma ExpectedIsStandard(hash: seq<byte>)
    requires |hash| < 0x80 - 17
    ensures Expected(hash) == EncodedMessage(DigestInfo(if |hash| == 48 then SHA3_384 else SHA_256, hash), 512)
       <==> |hash| == 32 || |hash| == 48
  {
    hide TPadding, DigestPrefix, DigestInfo, EncodedMessage;
    var algorithm := if |hash| == 48 then SHA3_384 else SHA_256;
    var prefix := DigestPrefix(algorithm, |hash|);
    DigestInfoIs(algorithm, hash);
    EncodedInjective(TPadding(|hash|) + hash, prefix + hash, 512);
    SamePrefix(TPadding(|hash|), prefix, hash);
    PaddingIsPrefix(|hash|);
  }

  // RecreatePaddingAndCheck, and line for line FSecure_RsaSignVerification.
  method RecreatePaddingAndCheck(signature: seq<byte>, hash: seq<byte>) returns (ok: bool)
    requires |signature| == 512 && |hash| <= 490
    ensures ok <==> signature == Expected(hash)
  {
    hide Expected, TPadding, Agree;
    ghost var em := Expected(hash);
    var pad: nat := 512 - 3 - 19 - |hash|;
    var padPtr := 0;
    ok := true;
    AgreeNone(signature, em);
    PaddingAt(hash, pad, 0);
    Compare(signature, em, padPtr, 0x00);
    if 0x00 != signature[padPtr] { ok := false; }
    padPtr := padPtr + 1;
    PaddingAt(hash, pad, 1);
    Compare(signature, em, padPtr, 0x01);
    if 0x01 != signature[padPtr] { ok := false; }
    padPtr := padPtr + 1;
    ok := CheckFill(signature, hash, pad, ok);
    padPtr := padPtr + pad;
    PaddingAt(hash, pad, padPtr);
    Compare(signature, em, padPtr, 0x00);
    if 0x00 != signature[padPtr] { ok := false; }
    ok := CheckAlgorithm(signature, hash, pad, ok);
    ok := CheckHash(signature, hash, pad, ok);
    AgreeAll(signature, em);
  }

  // The three loops of it.
  method CheckFill(signature: seq<byte>, hash: seq<byte>, pad: nat, before: bool) returns (ok: bool)
    requires |signature| == 512 && pad + 22 + |hash| == 512
    requires before <==> Agree(signature, Expected(hash), 2)
    ensures ok <==> Agree(signature, Expected(hash), 2 + pad)
  {
    hide Expected, Agree;
    ok := before;
    var signIndex := 0;
    while signIndex < pad
      invariant signIndex <= pad
      invariant ok <==> Agree(signature, Expected(hash), 2 + signIndex)
    {
      PaddingAt(hash, pad, 2 + signIndex);
      Compare(signature, Expected(hash), 2 + signIndex, 0xFF);
      if 0xFF != signature[2 + signIndex] { ok := false; }
      signIndex := signIndex + 1;
    }
  }

  method CheckAlgorithm(signature: seq<byte>, hash: seq<byte>, pad: nat, before: bool) returns (ok: bool)
    requires |signature| == 512 && pad + 22 + |hash| == 512
    requires before <==> Agree(signature, Expected(hash), pad + 3)
    ensures ok <==> Agree(signature, Expected(hash), pad + 22)
  {
    hide Expected, TPadding, Agree;
    var tPadding := TPadding(|hash|);
    ok := before;
    var signIndex := 0;
    while signIndex < 19
      invariant signIndex <= 19
      invariant ok <==> Agree(signature, Expected(hash), pad + 3 + signIndex)
    {
      AlgorithmAt(hash, pad, signIndex);
      Compare(signature, Expected(hash), pad + 3 + signIndex, tPadding[signIndex]);
      if signature[pad + 3 + signIndex] != tPadding[signIndex] { ok := false; }
      signIndex := signIndex + 1;
    }
  }

  method CheckHash(signature: seq<byte>, hash: seq<byte>, pad: nat, before: bool) returns (ok: bool)
    requires |signature| == 512 && pad + 22 + |hash| == 512
    requires before <==> Agree(signature, Expected(hash), pad + 22)
    ensures ok <==> Agree(signature, Expected(hash), 512)
  {
    hide Expected, Agree;
    ok := before;
    var signIndex := 0;
    while signIndex < |hash|
      invariant signIndex <= |hash|
      invariant ok <==> Agree(signature, Expected(hash), pad + 22 + signIndex)
    {
      HashAt(hash, pad, signIndex);
      Compare(signature, Expected(hash), pad + 22 + signIndex, hash[signIndex]);
      if signature[pad + 22 + signIndex] != hash[signIndex] { ok := false; }
      signIndex := signIndex + 1;
    }
  }

  lemma PaddingAt(hash: seq<byte>, pad: nat, i: nat)
    requires pad + 22 + |hash| == 512 && i < pad + 3
    ensures Expected(hash)[i] == if i == 0 || i == pad + 2 then 0 else if i == 1 then 1 else 0xFF
  {
  }

  lemma AlgorithmAt(hash: seq<byte>, pad: nat, i: nat)
    requires pad + 22 + |hash| == 512 && i < 19
    ensures Expected(hash)[pad + 3 + i] == TPadding(|hash|)[i]
  {
  }

  lemma HashAt(hash: seq<byte>, pad: nat, i: nat)
    requires pad + 22 + |hash| == 512 && i < |hash|
    ensures Expected(hash)[pad + 22 + i] == hash[i]
  {
  }

  ghost predicate Agree(a: seq<byte>, b: seq<byte>, p: nat) {
    p <= |a| == |b| && a[..p] == b[..p]
  }

  lemma AgreeNone(a: seq<byte>, b: seq<byte>)
    requires |a| == |b|
    ensures Agree(a, b, 0)
  {
  }

  lemma AgreeAll(a: seq<byte>, b: seq<byte>)
    requires |a| == |b|
    ensures Agree(a, b, |a|) <==> a == b
  {
  }

  // One more byte compared.
  lemma Compare(a: seq<byte>, b: seq<byte>, p: nat, x: byte)
    requires p < |a| == |b| && b[p] == x
    ensures Agree(a, b, p + 1) <==> Agree(a, b, p) && a[p] == x
  {
  }

  /** A signature is accepted exactly if the number in the engine's RAM is the encoded message. */
  lemma AcceptedNumber(ram: seq<u32>, em: seq<byte>)
    requires |em| == 4 * |ram|
    ensures BigEndian(Value(ram), |em|) == em <==> Value(ram) == FromBigEndian(em)
  {
    FromThenToBigEndian(em);
    ValueBound(ram);
    BigEndianValue(Value(ram), |em|);
  }

  method CheckSignature(ram: seq<u32>, hash: seq<byte>) returns (ok: bool)
    requires |ram| == 128 && |hash| <= 490
    ensures ok <==> Value(ram) == FromBigEndian(Expected(hash))
  {
    hide Expected, BigEndian, FromBigEndian, Value;
    var result := RsaGetData(ram);
    AcceptedNumber(ram, Expected(hash));
    ok := RecreatePaddingAndCheck(InMemory(result), hash);
  }
}
