// Byte strings, the big-endian codec shared by the hash feeds and the RSA result, and the
// memory primitives the boot loader is written with.
module Bytes {

  type byte = x: int | 0 <= x < 256

  type u16 = x: int | 0 <= x < 0x1_0000

  type u32 = x: int | 0 <= x < 0x1_0000_0000

  datatype Option<+T> = None | Some(value: T)

  // Unsigned 32-bit addition.
  function Add32(a: u32, b: u32): u32 {
    if a + b < 0x1_0000_0000 then a + b else a + b - 0x1_0000_0000
  }

  function Zeros(n: nat): (z: seq<byte>)
    ensures |z| == n
    ensures forall i :: 0 <= i < n ==> z[i] == 0
  {
    seq(n, _ => 0)
  }

  // Everything except the part of a transfer that does not fill a 32-bit word.
  function WholeWords(s: seq<byte>): (w: seq<byte>) {
    s[..|s| / 4 * 4]
  }

  lemma WholeWordsLength(s: seq<byte>)
    ensures |WholeWords(s)| <= |s|
    ensures WholeWords(s) == s <==> |s| % 4 == 0
    ensures |WholeWords(s)| == |s| <==> |s| % 4 == 0
  {
    if |s| % 4 == 0 {
      assert s[..|s| / 4 * 4] == s;
    }
  }

  lemma WholeWordsExact(s: seq<byte>, w: nat)
    requires |s| == 4 * w
    ensures WholeWords(s) == s
  {
    assert |s| / 4 == w;
    assert s[..4 * w] == s;
  }

  lemma WholeWordsSplit(s: seq<byte>, w: nat)
    requires 4 * w <= |s|
    ensures WholeWords(s) == s[..4 * w] + WholeWords(s[4 * w..])
  {
    assert (|s| - 4 * w) / 4 == |s| / 4 - w;
  }

  /** Big-endian integers: I2OSP and OS2IP of RFC 8017, section 4. */

  // The n low-order base-256 digits of x, most significant first.
  function BigEndian(x: nat, n: nat): (s: seq<byte>)
    ensures |s| == n
  {
    if n == 0 then [] else BigEndian(x / 256, n - 1) + [x % 256]
  }

  function FromBigEndian(s: seq<byte>): nat {
    if s == [] then 0 else 256 * FromBigEndian(s[..|s| - 1]) + s[|s| - 1]
  }

  lemma {:induction false} FromThenToBigEndian(s: seq<byte>)
    ensures BigEndian(FromBigEndian(s), |s|) == s
  {
    if s != [] {
      var front := s[..|s| - 1];
      FromThenToBigEndian(front);
      assert FromBigEndian(s) / 256 == FromBigEndian(front);
      assert FromBigEndian(s) % 256 == s[|s| - 1];
      assert s == front + [s[|s| - 1]];
    }
  }

  lemma {:induction false} BigEndianValue(x: nat, n: nat)
    requires x < Pow256(n)
    ensures FromBigEndian(BigEndian(x, n)) == x
  {
    if n > 0 {
      BigEndianValue(x / 256, n - 1);
      assert BigEndian(x, n)[..n - 1] == BigEndian(x / 256, n - 1);
    }
  }

  function Pow256(n: nat): nat {
    if n == 0 then 1 else 256 * Pow256(n - 1)
  }

  lemma LastDigit(x: nat, n: nat)
    ensures BigEndian(x, n + 1) == BigEndian(x / 256, n) + [x % 256]
  {
  }

  lemma Quotients(x: nat)
    ensures x / 256 / 256 == x / 0x1_0000 && x / 256 / 256 / 256 == x / 0x100_0000
  {
  }

  lemma BigEndian4(x: nat)
    ensures BigEndian(x, 4) == [x / 0x100_0000 % 256, x / 0x1_0000 % 256, x / 0x100 % 256, x % 256]
  {
    NoDigit(x / 256 / 256 / 256 / 256);
    hide BigEndian;
    LastDigit(x, 3);
    LastDigit(x / 256, 2);
    LastDigit(x / 256 / 256, 1);
    LastDigit(x / 256 / 256 / 256, 0);
    Quotients(x);
  }

  lemma NoDigit(x: nat)
    ensures BigEndian(x, 0) == []
  {
  }

  // Appending a digit to the number appends it to its digit string.
  lemma PushDigit(h: nat, d: byte, n: nat)
    ensures BigEndian(256 * h + d, n + 1) == BigEndian(h, n) + [d]
  {
    assert (256 * h + d) / 256 == h && (256 * h + d) % 256 == d;
  }

  lemma PushDigits4(h: nat, d3: byte, d2: byte, d1: byte, d0: byte, n: nat)
    ensures BigEndian(256 * (256 * (256 * (256 * h + d3) + d2) + d1) + d0, n + 4) == BigEndian(h, n) + [d3, d2, d1, d0]
  {
    hide BigEndian;
    var h1 := 256 * h + d3;
    var h2 := 256 * h1 + d2;
    var h3 := 256 * h2 + d1;
    PushDigit(h, d3, n);
    PushDigit(h1, d2, n + 1);
    PushDigit(h2, d1, n + 2);
    PushDigit(h3, d0, n + 3);
  }

  lemma BigEndianSplit4(h: nat, w: u32, n: nat)
    ensures BigEndian(0x1_0000_0000 * h + w, n + 4) == BigEndian(h, n) + BigEndian(w, 4)
  {
    var w1 := w / 256;
    var w2 := w1 / 256;
    var d3, d2, d1, d0 := w2 / 256, w2 % 256, w1 % 256, w % 256;
    PushDigits4(h, d3, d2, d1, d0, n);
    PushDigits4(0, d3, d2, d1, d0, 0);
  }

  lemma {:induction false} ZerosValue(n: nat)
    ensures FromBigEndian(Zeros(n)) == 0
  {
    if n > 0 {
      ZerosValue(n - 1);
      assert Zeros(n)[..n - 1] == Zeros(n - 1);
    }
  }

  lemma NonzeroWord(h: u32)
    requires h != 0
    ensures BigEndian(h, 4) != Zeros(4)
  {
    assert Pow256(4) == 0x1_0000_0000;
    BigEndianValue(h, 4);
    assert FromBigEndian(Zeros(4)) == 0 by { ZerosValue(4); }
  }

  // A 64-bit length field has a zero upper half exactly when the length fits 32 bits.
  lemma LengthField(h: u32, w: u32)
    ensures BigEndian(0x1_0000_0000 * h + w, 8) == Zeros(4) + BigEndian(w, 4) <==> h == 0
  {
    BigEndianSplit4(h, w, 4);
    assert BigEndian(0x1_0000_0000 * h + w, 8)[..4] == BigEndian(h, 4);
    assert (Zeros(4) + BigEndian(w, 4))[..4] == Zeros(4);
    if h != 0 {
      NonzeroWord(h);
    } else {
      BigEndian4(0);
      assert BigEndian(0, 4) == Zeros(4);
    }
  }

  /** Memory: writes through a pointer, seen as the splice of a byte string. */

  function Splice(m: seq<byte>, at: nat, d: seq<byte>): (r: seq<byte>)
    requires at + |d| <= |m|
    ensures |r| == |m|
    ensures forall i :: 0 <= i < |m| ==> r[i] == if at <= i < at + |d| then d[i - at] else m[i]
  {
    m[..at] + d + m[at + |d|..]
  }

  // Writing back what a splice overwrote undoes it.
  lemma SpliceBack(m: seq<byte>, at: nat, d: seq<byte>, saved: seq<byte>)
    requires at + |d| <= |m| && saved == m[at..at + |d|]
    ensures Splice(Splice(m, at, d), at, saved) == m
  {
  }

  // A splice continued where the previous one ended.
  lemma SpliceAppend(m: seq<byte>, at: nat, a: seq<byte>, b: seq<byte>)
    requires at + |a| + |b| <= |m|
    ensures Splice(Splice(m, at, a), at + |a|, b) == Splice(m, at, a + b)
  {
  }

  // Bytes put aside while another region is written come back unharmed.
  lemma SpliceAround(m: seq<byte>, p: nat, z: seq<byte>, d: nat, b: seq<byte>, saved: seq<byte>)
    requires d + |b| <= p && p + |z| <= |m| && saved == m[p..p + |z|]
    ensures Splice(Splice(Splice(m, p, z), d, b), p, saved) == Splice(m, d, b)
  {
  }

  lemma SpliceSuffix(m: seq<byte>, at: nat, d: seq<byte>, from: nat)
    requires at + |d| <= from <= |m|
    ensures Splice(m, at, d)[from..] == m[from..]
  {
  }

  lemma SpliceRead(m: seq<byte>, at: nat, n: nat, d: seq<byte>)
    requires at + n + |d| <= |m|
    ensures Splice(m, at + n, d)[at..at + n + |d|] == m[at..at + n] + d
  {
  }

  // memcpy or DeviceCopy into a buffer.
  method CopyIn(dst: array<byte>, to: nat, src: seq<byte>)
    requires to + |src| <= dst.Length
    modifies dst
    ensures dst[..] == Splice(old(dst[..]), to, src)
  {
    for i := 0 to |src|
      invariant forall k :: 0 <= k < dst.Length ==>
        dst[k] == if to <= k < to + i then src[k - to] else old(dst[k])
    {
      dst[to + i] := src[i];
    }
  }

  // Random-access memory, addressed from zero. Every store replaces the bytes it covers.
  class Ram {
    var bytes: seq<byte>

    constructor (contents: seq<byte>)
      ensures bytes == contents
    {
      bytes := contents;
    }

    // memcpy, memset and DMA writes.
    method Store(at: nat, d: seq<byte>)
      requires at + |d| <= |bytes|
      modifies this
      ensures bytes == Splice(old(bytes), at, d)
    {
      bytes := Splice(bytes, at, d);
    }

    // A 32-bit store on a little-endian core followed by FmshFsbl_ByteSwap on the same four bytes.
    method StoreWordThenSwap(at: nat, w: u32)
      requires at + 4 <= |bytes|
      modifies this
      ensures bytes == Splice(old(bytes), at, BigEndian(w, 4))
    {
      BigEndian4(w);
      Store(at, [w % 256, w / 0x100 % 256, w / 0x1_0000 % 256, w / 0x100_0000 % 256]);
      var temp1 := bytes[at];
      bytes := bytes[at := bytes[at + 3]];
      bytes := bytes[at + 3 := temp1];
      temp1 := bytes[at + 1];
      bytes := bytes[at + 1 := bytes[at + 2]];
      bytes := bytes[at + 2 := temp1];
    }
  }
}
