// keyRolling_download of fmsh_sac.c: the walk over an encrypted bitstream, block by block, and the
// two ways of sending a block to the configuration port, straight from memory or through a buffer.
module Sac {
  import opened Bytes

  // The engine: whether a tag is right, and the word count of the next block, both from what has been
  // sent so far. Block 0 is the secure header.
  datatype Engine = Engine(
    tagOk: (seq<u32>, nat, seq<u32>, seq<u32>) -> bool,
    nextLen: seq<u32> -> u32)

  datatype Status = Success | TagMismatch | OutsideImage

  // A block: its first word, and its length without key, IV and tag.
  datatype Block = Block(at: nat, len: nat)

  predicate Inside(b: Block, image: seq<u32>) { b.at + b.len + 16 <= |image| }

  // What is sent of a block, the tag behind it, and both.
  function Payload(b: Block, image: seq<u32>): seq<u32>
    requires Inside(b, image)
  {
    image[b.at..b.at + b.len + 12]
  }

  function TagOf(b: Block, image: seq<u32>): seq<u32>
    requires Inside(b, image)
  {
    image[b.at + b.len + 12..b.at + b.len + 16]
  }

  /** The walk, as a value: the status, the blocks that were sent, and the words. */

  datatype Walked = Walked(status: Status, blocks: seq<Block>, sent: seq<u32>)

  function Walk(e: Engine, image: seq<u32>, bitlen: nat, at: nat, len: nat, no: nat, sent: seq<u32>): Walked
    requires at <= |image|
    decreases |image| - at
  {
    var b := Block(at, len);
    if at >= bitlen || len == 0 then Walked(Success, [], sent)
    else if !Inside(b, image) then Walked(OutsideImage, [], sent)
    else if !e.tagOk(sent, no, Payload(b, image), TagOf(b, image)) then Walked(TagMismatch, [], sent)
    else
      var more := sent + Payload(b, image);
      var rest := Walk(e, image, bitlen, at + len + 16, e.nextLen(more), no + 1, more);
      Walked(rest.status, [b] + rest.blocks, rest.sent)
  }

  const HEADER: Block := Block(0, 0)

  function Download(e: Engine, image: seq<u32>, bitlen: nat): Walked {
    if !Inside(HEADER, image) then Walked(OutsideImage, [], [])
    else if !e.tagOk([], 0, Payload(HEADER, image), TagOf(HEADER, image)) then Walked(TagMismatch, [], [])
    else
      var sent := Payload(HEADER, image);
      var rest := Walk(e, image, bitlen, 16, e.nextLen(sent), 1, sent);
      Walked(rest.status, [HEADER] + rest.blocks, rest.sent)
  }

  /** Blocks lie back to back, and every word up to the end of the last one is either sent or a tag. */

  predicate BackToBack(blocks: seq<Block>, image: seq<u32>, from: nat) {
    blocks == []
    || (blocks[0].at == from && Inside(blocks[0], image)
        && BackToBack(blocks[1..], image, from + blocks[0].len + 16))
  }

  function EndOf(blocks: seq<Block>, from: nat): nat {
    if blocks == [] then from else EndOf(blocks[1..], from + blocks[0].len + 16)
  }

  predicate StartBelow(blocks: seq<Block>, bitlen: nat) {
    forall k :: 0 <= k < |blocks| ==> blocks[k].at < bitlen && blocks[k].len > 0
  }

  function Payloads(blocks: seq<Block>, image: seq<u32>, from: nat): seq<u32>
    requires BackToBack(blocks, image, from)
  {
    if blocks == [] then [] else
      Payload(blocks[0], image) + Payloads(blocks[1..], image, from + blocks[0].len + 16)
  }

  function Whole(blocks: seq<Block>, image: seq<u32>, from: nat): seq<u32>
    requires BackToBack(blocks, image, from)
  {
    if blocks == [] then [] else
      Payload(blocks[0], image) + TagOf(blocks[0], image) + Whole(blocks[1..], image, from + blocks[0].len + 16)
  }

  lemma {:induction false} WholeIsSlice(blocks: seq<Block>, image: seq<u32>, from: nat)
    requires BackToBack(blocks, image, from) && from <= |image|
    ensures from <= EndOf(blocks, from) <= |image|
    ensures Whole(blocks, image, from) == image[from..EndOf(blocks, from)]
  {
    if blocks != [] {
      var b := blocks[0];
      var next := from + b.len + 16;
      WholeIsSlice(blocks[1..], image, next);
      assert Payload(b, image) + TagOf(b, image) == image[from..next];
      assert image[from..next] + image[next..EndOf(blocks, from)] == image[from..EndOf(blocks, from)];
    }
  }

  lemma OneMoreBlock(b: Block, rest: seq<Block>, image: seq<u32>, bitlen: nat)
    requires Inside(b, image) && b.at < bitlen && b.len > 0
    requires BackToBack(rest, image, b.at + b.len + 16) && StartBelow(rest, bitlen)
    ensures var all := [b] + rest;
      && BackToBack(all, image, b.at) && StartBelow(all, bitlen)
      && Payloads(all, image, b.at) == Payload(b, image) + Payloads(rest, image, b.at + b.len + 16)
      && EndOf(all, b.at) == EndOf(rest, b.at + b.len + 16)
  {
    hide Payload, TagOf, Inside;
    assert ([b] + rest)[1..] == rest;
  }

  lemma {:induction false} WalkBlocks(e: Engine, image: seq<u32>, bitlen: nat, at: nat, len: nat, no: nat, sent: seq<u32>)
    requires at <= |image|
    ensures var r := Walk(e, image, bitlen, at, len, no, sent);
      && BackToBack(r.blocks, image, at) && StartBelow(r.blocks, bitlen)
      && r.sent == sent + Payloads(r.blocks, image, at)
      && (r.status == Success ==> EndOf(r.blocks, at) >= bitlen || (if r.blocks == [] then len else e.nextLen(r.sent)) == 0)
    decreases |image| - at
  {
    hide Payload, TagOf, Walk, Payloads, BackToBack, EndOf;
    var b := Block(at, len);
    if GoesOn(e, image, bitlen, b, no, sent) {
      var more, next := sent + Payload(b, image), at + len + 16;
      WalkBlocks(e, image, bitlen, next, e.nextLen(more), no + 1, more);
      var rest := Walk(e, image, bitlen, next, e.nextLen(more), no + 1, more);
      WalkGoesOn(e, image, bitlen, b, no, sent);
      OneMoreBlock(b, rest.blocks, image, bitlen);
      var tail := Payloads(rest.blocks, image, next);
      assert sent + (Payload(b, image) + tail) == more + tail;
      LastLength(e, rest.blocks, more, rest.sent, image, next);
    } else {
      WalkHalts(e, image, bitlen, b, no, sent);
      NoBlocks(image, at);
      assert sent + [] == sent;
    }
  }

  lemma LastLength(e: Engine, blocks: seq<Block>, more: seq<u32>, sent: seq<u32>, image: seq<u32>, from: nat)
    requires BackToBack(blocks, image, from) && sent == more + Payloads(blocks, image, from)
    ensures blocks == [] ==> sent == more
  {
    assert more + [] == more;
  }

  /** The words sent are the image up to some block boundary without its tags; a successful download
      stops at the first boundary at or beyond the given length, or at a block of no words. */
  lemma DownloadCoversPrefix(e: Engine, image: seq<u32>, bitlen: nat)
    ensures var r := Download(e, image, bitlen);
      && BackToBack(r.blocks, image, 0)
      && r.sent == Payloads(r.blocks, image, 0)
      && EndOf(r.blocks, 0) <= |image| && Whole(r.blocks, image, 0) == image[..EndOf(r.blocks, 0)]
      && (r.blocks != [] ==> r.blocks[0] == HEADER && StartBelow(r.blocks[1..], bitlen))
      && (r.status == Success ==> r.blocks != [] && (EndOf(r.blocks, 0) >= bitlen || e.nextLen(r.sent) == 0))
  {
    hide Payload, TagOf, Walk, Payloads, Whole, EndOf, BackToBack;
    var r := Download(e, image, bitlen);
    if r.blocks != [] {
      var sent := Payload(HEADER, image);
      WalkBlocks(e, image, bitlen, 16, e.nextLen(sent), 1, sent);
      var rest := Walk(e, image, bitlen, 16, e.nextLen(sent), 1, sent);
      HeaderThen(rest.blocks, image);
      assert sent + [] == sent;
    } else {
      NoBlocks(image, 0);
    }
    WholeIsSlice(r.blocks, image, 0);
  }

  lemma HeaderThen(rest: seq<Block>, image: seq<u32>)
    requires Inside(HEADER, image) && BackToBack(rest, image, 16)
    ensures var all := [HEADER] + rest;
      && all[1..] == rest && BackToBack(all, image, 0)
      && Payloads(all, image, 0) == Payload(HEADER, image) + Payloads(rest, image, 16)
      && EndOf(all, 0) == EndOf(rest, 16)
      && (rest == [] ==> EndOf(all, 0) == 16 && Payloads(rest, image, 16) == [])
  {
  }

  lemma NoBlocks(image: seq<u32>, from: nat)
    ensures BackToBack([], image, from) && Payloads([], image, from) == [] && EndOf([], from) == from
  {
  }

  /** Tags: what decides whether a block is sent, and how the download ends. */

  // The tag in the image behind the block is right, for the words sent before it and its number.
  predicate Verified(e: Engine, image: seq<u32>, before: seq<u32>, no: nat, at: nat, len: nat)
    requires at + len + 16 <= |image|
  {
    e.tagOk(before, no, image[at..at + len + 12], image[at + len + 12..at + len + 16])
  }

  // Block n was announced by the words sent before it, and its tag was right then. Of the words in front of
  // it, four for each block are tags and not sent.
  predicate BlockVerified(e: Engine, image: seq<u32>, b: Block, sent: seq<u32>, n: nat) {
    && b.at + b.len + 16 <= |image| && 4 * n <= b.at <= 4 * n + |sent|
    && Verified(e, image, sent[..b.at - 4 * n], n, b.at, b.len)
    && b.len == if n == 0 then 0 else e.nextLen(sent[..b.at - 4 * n])
  }

  predicate AllVerified(e: Engine, image: seq<u32>, blocks: seq<Block>, sent: seq<u32>, no: nat) {
    forall k :: 0 <= k < |blocks| ==> BlockVerified(e, image, blocks[k], sent, no + k)
  }

  // How it ends at a block that is not sent.
  function StatusAt(e: Engine, image: seq<u32>, sent: seq<u32>, no: nat, at: nat, len: nat): Status {
    if at + len + 16 > |image| then OutsideImage
    else if !Verified(e, image, sent, no, at, len) then TagMismatch
    else Success
  }

  // What is left to say where the walk stands: it ends well, or at a block that it does not send.
  predicate Stops(e: Engine, image: seq<u32>, bitlen: nat, status: Status, sent: seq<u32>, no: nat, at: nat) {
    var len := if no == 0 then 0 else e.nextLen(sent);
    if no > 0 && (at >= bitlen || len == 0) then status == Success
    else status == StatusAt(e, image, sent, no, at, len) != Success
  }

  lemma OneMoreVerified(e: Engine, image: seq<u32>, b: Block, rest: seq<Block>, sent: seq<u32>, no: nat)
    requires BlockVerified(e, image, b, sent, no) && AllVerified(e, image, rest, sent, no + 1)
    ensures AllVerified(e, image, [b] + rest, sent, no)
  {
    hide BlockVerified;
    var all := [b] + rest;
    forall k | 0 <= k < |all|
      ensures BlockVerified(e, image, all[k], sent, no + k)
    {
      if k > 0 {
        assert BlockVerified(e, image, rest[k - 1], sent, no + 1 + (k - 1));
      }
    }
  }

  lemma HeadVerified(e: Engine, image: seq<u32>, b: Block, before: seq<u32>, sent: seq<u32>, no: nat)
    requires Inside(b, image) && before <= sent && b.at == |before| + 4 * no
    requires e.tagOk(before, no, Payload(b, image), TagOf(b, image))
    requires b.len == if no == 0 then 0 else e.nextLen(before)
    ensures BlockVerified(e, image, b, sent, no)
  {
    assert sent[..b.at - 4 * no] == before;
  }

  predicate GoesOn(e: Engine, image: seq<u32>, bitlen: nat, b: Block, no: nat, sent: seq<u32>) {
    b.at < bitlen && b.len != 0 && Inside(b, image) && e.tagOk(sent, no, Payload(b, image), TagOf(b, image))
  }

  lemma WalkEnds(e: Engine, image: seq<u32>, bitlen: nat, at: nat, no: nat, sent: seq<u32>)
    requires at <= |image| && no > 0 && !GoesOn(e, image, bitlen, Block(at, e.nextLen(sent)), no, sent)
    ensures var r := Walk(e, image, bitlen, at, e.nextLen(sent), no, sent);
      r.blocks == [] && r.sent == sent && Stops(e, image, bitlen, r.status, sent, no, at)
  {
  }

  lemma WalkGoesOn(e: Engine, image: seq<u32>, bitlen: nat, b: Block, no: nat, sent: seq<u32>)
    requires b.at <= |image| && GoesOn(e, image, bitlen, b, no, sent)
    ensures var more := sent + Payload(b, image);
      var rest := Walk(e, image, bitlen, b.at + b.len + 16, e.nextLen(more), no + 1, more);
      Walk(e, image, bitlen, b.at, b.len, no, sent) == Walked(rest.status, [b] + rest.blocks, rest.sent)
  {
  }

  lemma WalkHalts(e: Engine, image: seq<u32>, bitlen: nat, b: Block, no: nat, sent: seq<u32>)
    requires b.at <= |image| && !GoesOn(e, image, bitlen, b, no, sent)
    ensures Walk(e, image, bitlen, b.at, b.len, no, sent) ==
      Walked(if b.at >= bitlen || b.len == 0 then Success else if !Inside(b, image) then OutsideImage else TagMismatch,
             [], sent)
  {
  }

  lemma {:induction false} WalkVerified(e: Engine, image: seq<u32>, bitlen: nat, at: nat, no: nat, sent: seq<u32>)
    requires at <= |image| && no > 0 && at == |sent| + 4 * no
    ensures var r := Walk(e, image, bitlen, at, e.nextLen(sent), no, sent);
      && sent <= r.sent && AllVerified(e, image, r.blocks, r.sent, no)
      && Stops(e, image, bitlen, r.status, r.sent, no + |r.blocks|, EndOf(r.blocks, at))
    decreases |image| - at
  {
    hide Walk, Stops, BlockVerified, Payload, TagOf;
    var b := Block(at, e.nextLen(sent));
    if GoesOn(e, image, bitlen, b, no, sent) {
      PayloadParts(b, image);
      var more := sent + Payload(b, image);
      WalkVerified(e, image, bitlen, at + b.len + 16, no + 1, more);
      WalkGoesOn(e, image, bitlen, b, no, sent);
      hide AllVerified;
      var r := Walk(e, image, bitlen, at, b.len, no, sent);
      HeadVerified(e, image, b, sent, r.sent, no);
      OneMoreVerified(e, image, b, r.blocks[1..], r.sent, no);
    } else {
      WalkEnds(e, image, bitlen, at, no, sent);
    }
  }

  /** Only blocks whose tag was right are sent, each as long as what was sent before it says. The download ends
      well at a boundary at or beyond the length, or at an announced length of zero; otherwise the next block is
      outside the image, or its tag is wrong. */
  lemma DownloadIsVerified(e: Engine, image: seq<u32>, bitlen: nat)
    ensures var r := Download(e, image, bitlen);
      && AllVerified(e, image, r.blocks, r.sent, 0)
      && Stops(e, image, bitlen, r.status, r.sent, |r.blocks|, EndOf(r.blocks, 0))
  {
    hide Walk, Stops, BlockVerified, AllVerified;
    var r := Download(e, image, bitlen);
    if r.blocks != [] {
      var sent := Payload(HEADER, image);
      WalkVerified(e, image, bitlen, 16, 1, sent);
      HeadVerified(e, image, HEADER, [], r.sent, 0);
      OneMoreVerified(e, image, HEADER, r.blocks[1..], r.sent, 0);
    } else {
      NothingSent(e, image, bitlen);
    }
  }

  lemma NothingSent(e: Engine, image: seq<u32>, bitlen: nat)
    requires Download(e, image, bitlen).blocks == []
    ensures var r := Download(e, image, bitlen);
      AllVerified(e, image, [], r.sent, 0) && Stops(e, image, bitlen, r.status, r.sent, 0, 0)
  {
  }

  class Port {
    var sent: seq<u32>   // the words the configuration port took, in order

    constructor ()
      ensures sent == []
    {
      sent := [];
    }

    // FDevcPs_initiateDma.
    method Dma(words: seq<u32>)
      modifies this
      ensures sent == old(sent) + words
    {
      sent := sent + words;
    }

    // DeviceCopy into the buffer, and a DMA from it.
    method CopyAndSend(words: seq<u32>, buffer: array<u32>)
      requires |words| <= buffer.Length
      modifies this, buffer
      ensures sent == old(sent) + words
    {
      FillBuffer(words, buffer);
      Dma(buffer[..|words|]);
    }

    method FillBuffer(words: seq<u32>, buffer: array<u32>)
      requires |words| <= buffer.Length
      modifies buffer
      ensures buffer[..|words|] == words
    {
      var i := 0;
      while i < |words|
        invariant i <= |words| && buffer[..i] == words[..i]
      {
        buffer[i] := words[i];
        i := i + 1;
      }
    }

    // Words through the buffer, a full buffer at a time; tmp is its size in bytes. The words that fill
    // it only in part are left to the caller.
    method SendFullBuffers(image: seq<u32>, at: nat, len: nat, buffer: array<u32>, tmp: nat, ghost q: nat, ghost whole: nat)
      returns (done: nat)
      requires at + len <= |image| && tmp == 4 * buffer.Length && buffer.Length >= 12
      requires q == 4 * len / tmp && whole == buffer.Length * q <= len
      modifies this, buffer
      ensures done == whole && sent == old(sent) + image[at..at + done]
    {
      ghost var before := sent;
      var n := buffer.Length;
      var i := 0;
      while i < 4 * len / tmp
        invariant i <= q && n * i <= len
        invariant sent == before + image[at..at + n * i]
      {
        Multiples(n, i, q);
        CopyAndSend(image[at + n * i..at + n * i + n], buffer);
        i := i + 1;
        SliceJoin(before, image, at, at + n * (i - 1), at + n * i);
      }
      done := n * i;
    }

    // One block through the buffer: full buffers, the remainder, then key and IV.
    method SendBuffered(image: seq<u32>, b: Block, buffer: array<u32>, tmp: nat)
      requires Inside(b, image) && tmp == 4 * buffer.Length && buffer.Length >= 12
      modifies this, buffer
      ensures sent == old(sent) + Payload(b, image)
    {
      ghost var before := sent;
      var n := buffer.Length;
      ghost var q, r, whole := ByteCounts(b.len, n);
      hide Payload;
      PayloadParts(b, image);
      var done := SendFullBuffers(image, b.at, b.len, buffer, tmp, q, whole);
      if 4 * b.len % tmp != 0 {
        CopyAndSend(image[b.at + done..b.at + done + b.len % n], buffer);
      }
      SliceJoin(before, image, b.at, b.at + done, b.at + b.len);
      CopyAndSend(image[b.at + b.len..b.at + b.len + 12], buffer);
      SliceJoin(before, image, b.at, b.at + b.len, b.at + b.len + 12);
    }

    // FDevcPs_noneSecureDownload through the buffer: a last copy of part of a buffer fills all of it, with
    // whatever lies behind the bitstream, and only what belongs to it is sent.
    method NoneSecureDownload(image: seq<u32>, at: nat, len: nat, buffer: array<u32>, tmp: nat)
      requires at + len <= |image| < 0x4000_0000 && tmp == 4 * buffer.Length && buffer.Length >= 12
      requires len % buffer.Length != 0 ==> at + len - len % buffer.Length + buffer.Length <= |image|
      modifies this, buffer
      ensures sent == old(sent) + image[at..at + len]
    {
      ghost var before := sent;
      var n := buffer.Length;
      ghost var q, r, whole := ByteCounts(len, n);
      var done := SendFullBuffers(image, at, len, buffer, tmp, q, whole);
      if 4 * len % tmp != 0 {
        FillBuffer(image[at + done..at + done + n], buffer);
        SlicePrefix(image, at + done, n, len % n);
        assert buffer[..len % n] == buffer[..n][..len % n];
        Dma(buffer[..len % n]);
      }
      SliceJoin(before, image, at, at + done, at + len);
    }

    // keyRolling_download: from memory when buffered is false.
    method KeyRollingDownload(e: Engine, image: seq<u32>, bitlen: u32, buffered: bool, buffer: array<u32>)
      returns (status: Status, ghost blocks: seq<Block>)
      requires |image| < 0x4000_0000 && buffer.Length >= 12 && sent == []
      modifies this, buffer
      ensures Walked(status, blocks, sent) == Download(e, image, bitlen)
      ensures AllVerified(e, image, blocks, sent, 0)
      ensures Stops(e, image, bitlen, status, sent, |blocks|, EndOf(blocks, 0))
    {
      hide Payload, TagOf, AllVerified, Stops, Walk, EndOf;
      DownloadIsVerified(e, image, bitlen);
      HeaderParts(image);
      blocks := [];
      if |image| < 16 { return OutsideImage, []; }
      if !e.tagOk(sent, 0, image[0..12], image[12..16]) { return TagMismatch, []; }
      SendBlock(image, HEADER, buffered, buffer);
      assert sent == image[0..12];
      blocks := [HEADER];
      var blockNo, head: u32, total: u32 := 0, 16 * 4, 16;
      var nextLen := e.nextLen(sent);
      while total < bitlen && nextLen != 0
        invariant head == 4 * total && total <= |image|
        invariant nextLen == e.nextLen(sent)
        invariant var rest := Walk(e, image, bitlen, total, nextLen, blockNo + 1, sent);
          Download(e, image, bitlen) == Walked(rest.status, blocks + rest.blocks, rest.sent)
        decreases |image| - total
      {
        var b := Block(head / 4, nextLen);
        if !GoesOn(e, image, bitlen, b, blockNo + 1, sent) {
          WalkHalts(e, image, bitlen, b, blockNo + 1, sent);
        }
        if !Inside(b, image) { return OutsideImage, blocks; }
        if !e.tagOk(sent, blockNo + 1, Payload(b, image), TagOf(b, image)) { return TagMismatch, blocks; }
        WalkGoesOn(e, image, bitlen, b, blockNo + 1, sent);
        ghost var more := sent + Payload(b, image);
        ghost var rest := Walk(e, image, bitlen, total + nextLen + 16, e.nextLen(more), blockNo + 2, more);
        assert blocks + ([b] + rest.blocks) == (blocks + [b]) + rest.blocks;
        SendBlock(image, b, buffered, buffer);
        blockNo := blockNo + 1;
        head := Add32(head, 4 * (nextLen + 16));
        total := Add32(total, nextLen + 16);
        blocks := blocks + [b];
        nextLen := e.nextLen(sent);
      }
      WalkHalts(e, image, bitlen, Block(total, nextLen), blockNo + 1, sent);
      status := Success;
    }

    method SendBlock(image: seq<u32>, b: Block, buffered: bool, buffer: array<u32>)
      requires Inside(b, image) && buffer.Length >= 12
      modifies this, buffer
      ensures sent == old(sent) + Payload(b, image)
    {
      if buffered {
        SendBuffered(image, b, buffer, 4 * buffer.Length);
      } else {
        Dma(image[b.at..b.at + b.len + 12]);
      }
    }
  }

  lemma HeaderParts(image: seq<u32>)
    ensures |image| >= 16 ==> Payload(HEADER, image) == image[0..12] && TagOf(HEADER, image) == image[12..16]
  {
  }

  lemma PayloadParts(b: Block, image: seq<u32>)
    requires Inside(b, image)
    ensures Payload(b, image) == image[b.at..b.at + b.len + 12]
  {
  }

  // The byte counts of the source, in words.
  lemma ByteCounts(len: nat, n: nat) returns (q: nat, r: nat, whole: nat)
    requires n > 0
    ensures whole == n * q && len == whole + r && r == len % n
    ensures 4 * len / (4 * n) == q
    ensures 4 * len % (4 * n) == 4 * r
  {
    q, r := len / n, len % n;
    whole := n * q;
    Quotient(4 * len, 4 * n, q, 4 * r);
  }

  lemma Quotient(x: nat, d: nat, q: nat, r: nat)
    requires d > 0 && x == d * q + r && r < d
    ensures x / d == q && x % d == r
  {
    var q1 := x / d;
    assert x == d * q1 + x % d;
    if q1 < q {
      Steps(d, q1, q);
    } else if q < q1 {
      Steps(d, q, q1);
    }
  }

  lemma {:induction false} Steps(d: nat, a: nat, b: nat)
    requires a < b
    ensures d * a + d <= d * b
  {
    assert d * b == d * (b - 1) + d;
    if a < b - 1 {
      Steps(d, a, b - 1);
    }
  }

  lemma Multiples(n: nat, i: nat, q: nat)
    requires i < q
    ensures n * i + n == n * (i + 1) <= n * q
  {
  }

  lemma SlicePrefix(image: seq<u32>, at: nat, n: nat, r: nat)
    requires at + n <= |image| && r <= n
    ensures image[at..at + n][..r] == image[at..at + r]
  {
  }

  lemma SliceJoin(s: seq<u32>, image: seq<u32>, a: nat, b: nat, c: nat)
    requires a <= b <= c <= |image|
    ensures s + image[a..b] + image[b..c] == s + image[a..c]
  {
  }
}
