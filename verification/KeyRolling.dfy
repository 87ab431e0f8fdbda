// FmshFsbl_Secure_AesDecrypt: the chain of encrypted blocks, decrypted over itself in memory.
// Each block holds its data, then 48 bytes of key, IV and length for the next block, then a tag.
module KeyRolling {
  import opened Bytes
  import opened AesSm4

  type Block16 = s: seq<byte> | |s| == 16 witness [0, 0, 0, 0, 0, 0, 0, 0, 0, 0, 0, 0, 0, 0, 0, 0]

  datatype KeySource = DeviceKey | KeyUpdate

  // The key-update, IV and length registers of the engine; nextWords is IVR0 after the byte swap.
  datatype Regs = Regs(key: seq<byte>, iv: seq<byte>, nextWords: u32)

  // The hardware: the tag of the bytes fed, the output for the i-th 16-byte block, and the
  // registers after the decrypted stream of a block has gone through.
  datatype Cipher = Cipher(
    tag: (KeySource, Regs, seq<byte>, seq<byte>) -> Block16,
    ctr: (KeySource, Regs, seq<byte>, nat, seq<byte>) -> Block16,
    load: (nat, Regs, seq<byte>) -> Regs)

  datatype Job = Job(
    cipher: Cipher,
    headerIv: seq<byte>,        // copied from the boot header
    opKeyUsing: bool,
    unencryptedLength: u32,
    dmaDone: nat -> bool)       // whether the transfer of the n-th block finishes in time
  {
    function Key(cnt: nat): KeySource {
      if cnt <= 1 then DeviceKey else KeyUpdate
    }

    function Iv(cnt: nat, regs: Regs): seq<byte> {
      if cnt == 0 then headerIv else regs.iv
    }

    function DecFlag(cnt: nat): nat {
      if cnt != 0 then 0x3 else if opKeyUsing then 0xE else 0xA
    }

    function TagOf(cnt: nat, regs: Regs, fed: seq<byte>): Block16 {
      cipher.tag(Key(cnt), regs, Iv(cnt, regs), fed)
    }

    function CtrBlock(cnt: nat, regs: Regs, i: nat, b: seq<byte>): Block16 {
      cipher.ctr(Key(cnt), regs, Iv(cnt, regs), i, b)
    }

    // The engine's output for the first n blocks of s.
    function CtrStream(cnt: nat, regs: Regs, s: seq<byte>, n: nat): (r: seq<byte>)
      requires 16 * n <= |s|
      ensures |r| == 16 * n
    {
      if n == 0 then [] else
        CtrStream(cnt, regs, s, n - 1) + CtrBlock(cnt, regs, n - 1, s[16 * (n - 1)..16 * n])
    }
  }

  datatype Status = Success | TagMismatch | DmaFailure | OutsideMemory

  /** Out of place: one block, read from an image that nothing writes. */

  datatype BlockResult = Plain(data: seq<byte>, keyArea: seq<byte>, spill: seq<byte>, regs: Regs) | Refused(status: Status)

  // The transfer of a block is rounded up to 16 bytes: spill is what it writes beyond the data, the start
  // of the decrypted key area.
  predicate SpillsKeyArea(r: BlockResult)
    requires r.Plain?
  {
    |r.keyArea| == 48 && r.spill == r.keyArea[..PaddingByteLen(|r.data| + KEY_IV_SIZE)]
  }

  lemma StartOfSlice(s: seq<byte>, at: nat, n: nat, k: nat)
    requires at + n <= |s|
    ensures k <= n ==> s[at..at + k] == s[at..at + n][..k]
  {
  }

  // A verified block whose data and key bytes are s.
  function PlainBlock(job: Job, s: seq<byte>, len: nat, pad: nat, blocks: nat, cnt: nat, regs: Regs): (r: BlockResult)
    requires |s| == len + KEY_IV_SIZE && |s| + pad == 16 * blocks
    ensures r.Plain? ==> |r.data| == len && |r.spill| == pad
    ensures r.Plain? ==> |r.keyArea| == 48 && (pad <= 48 ==> r.spill == r.keyArea[..pad])
    ensures r.Refused? ==> r.status == DmaFailure
  {
    if !job.dmaDone(cnt) then Refused(DmaFailure)
    else
      var stream := job.CtrStream(cnt, regs, s + Zeros(pad), blocks);
      StartOfSlice(stream, len, KEY_IV_SIZE, pad);
      Plain(stream[..len], stream[len..len + KEY_IV_SIZE], stream[len..len + pad],
            job.cipher.load(job.DecFlag(cnt), regs, stream))
  }

  // The block of len data bytes at src.
  function DecryptBlock(job: Job, img: seq<byte>, src: nat, len: nat, cnt: nat, regs: Regs): (r: BlockResult)
    ensures r.Plain? ==> |r.data| == len && src + len + KEY_IV_SIZE + TAG_SIZE <= |img|
    ensures r.Plain? ==> SpillsKeyArea(r)
    ensures r.Refused? ==> r.status != Success
  {
    var n := len + KEY_IV_SIZE;
    var pad := PaddingByteLen(n);
    if src + n + pad + TAG_SIZE > |img| then Refused(OutsideMemory)
    else if job.TagOf(cnt, regs, LinearTagFeed(img[src..src + n])) != img[src + n..src + n + TAG_SIZE] then
      Refused(TagMismatch)
    else PlainBlock(job, img[src..src + n], len, pad, PaddedBlocks(n), cnt, regs)
  }

  /** What the tag decides, and what the plaintext is, in terms of the cipher alone. */

  // The key and the IV of block cnt: the device key for the secure header and the first block, the IV of the
  // boot header for the former, and what the block before it left in the registers otherwise.
  predicate Genuine(job: Job, img: seq<byte>, src: nat, len: nat, cnt: nat, regs: Regs)
    requires src + len + 64 <= |img|
  {
    img[src + len + 48..src + len + 64] ==
    job.cipher.tag(if cnt == 0 || cnt == 1 then DeviceKey else KeyUpdate, regs, if cnt == 0 then job.headerIv else regs.iv,
                   ShortGhashInput(img[src..src + len + 48]))
  }

  // The engine's output for the bytes c, filled up with zeros to whole blocks.
  ghost predicate IsStream(job: Job, c: seq<byte>, cnt: nat, regs: Regs, stream: seq<byte>) {
    var input := c + Zeros(BlockFill(|c|));
    && |stream| == |input|
    && forall i :: 0 <= i && 16 * i + 16 <= |input| ==> StreamAt(job, input, cnt, regs, stream, i)
  }

  predicate StreamAt(job: Job, input: seq<byte>, cnt: nat, regs: Regs, stream: seq<byte>, i: nat)
    requires 16 * i + 16 <= |input| == |stream|
  {
    stream[16 * i..16 * i + 16] ==
    job.cipher.ctr(if cnt == 0 || cnt == 1 then DeviceKey else KeyUpdate, regs, if cnt == 0 then job.headerIv else regs.iv,
                   i, input[16 * i..16 * i + 16])
  }

  // The data, the key area behind it, and the registers loaded from them.
  ghost predicate Decrypted(job: Job, c: seq<byte>, cnt: nat, regs: Regs, r: BlockResult) {
    && r.Plain? && |c| == |r.data| + |r.keyArea| && |r.keyArea| == 48
    && exists stream :: IsStream(job, c, cnt, regs, stream) && stream[..|c|] == r.data + r.keyArea
         && r.regs == job.cipher.load(if cnt != 0 then 0x3 else if job.opKeyUsing then 0xE else 0xA, regs, stream)
  }

  // The result of the block of len data bytes at src.
  ghost predicate BlockIs(job: Job, img: seq<byte>, src: nat, len: nat, cnt: nat, regs: Regs, r: BlockResult) {
    if src + len + 64 + BlockFill(len + 48) > |img| then r == Refused(OutsideMemory)
    else if !Genuine(job, img, src, len, cnt, regs) then r == Refused(TagMismatch)
    else if !job.dmaDone(cnt) then r == Refused(DmaFailure)
    else Decrypted(job, img[src..src + len + 48], cnt, regs, r)
  }

  lemma {:induction false} StreamBlocks(job: Job, cnt: nat, regs: Regs, s: seq<byte>, n: nat, i: nat)
    requires 16 * n <= |s| && i < n
    ensures job.CtrStream(cnt, regs, s, n)[16 * i..16 * i + 16] == job.CtrBlock(cnt, regs, i, s[16 * i..16 * i + 16])
  {
    if i < n - 1 {
      StreamBlocks(job, cnt, regs, s, n - 1, i);
      assert job.CtrStream(cnt, regs, s, n)[..16 * (n - 1)] == job.CtrStream(cnt, regs, s, n - 1);
    }
  }

  lemma StreamOf(job: Job, c: seq<byte>, cnt: nat, regs: Regs, pad: nat, blocks: nat)
    requires pad == BlockFill(|c|) && |c| + pad == 16 * blocks
    ensures IsStream(job, c, cnt, regs, job.CtrStream(cnt, regs, c + Zeros(pad), blocks))
  {
    hide Job.CtrStream;
    var input := c + Zeros(pad);
    var stream := job.CtrStream(cnt, regs, input, blocks);
    forall i | 0 <= i && 16 * i + 16 <= |input|
      ensures StreamAt(job, input, cnt, regs, stream, i)
    {
      StreamBlocks(job, cnt, regs, input, blocks, i);
    }
  }

  /** A block is refused exactly if it does not lie in memory, its tag is not that of its bytes under its key,
      or its transfer does not finish; otherwise the cipher's output for it is the result. */
  lemma BlockMeans(job: Job, img: seq<byte>, src: nat, len: nat, cnt: nat, regs: Regs)
    ensures BlockIs(job, img, src, len, cnt, regs, DecryptBlock(job, img, src, len, cnt, regs))
  {
    hide LinearTagFeed, ShortGhashInput, Job.CtrStream, IsStream, PaddingByteLen, BlockFill, PaddedBlocks, SpillsKeyArea;
    var n := len + KEY_IV_SIZE;
    PaddingFacts(n);
    if src + n + PaddingByteLen(n) + TAG_SIZE <= |img| {
      var c := img[src..src + n];
      LinearTagFeedIs(c);
      StreamOf(job, c, cnt, regs, PaddingByteLen(n), PaddedBlocks(n));
    }
  }

  function NextLen(regs: Regs): u32 {
    4 * regs.nextWords % 0x1_0000_0000
  }

  /** The walk along the chain, over any way of decrypting one block. */

  // The result for the block of the given length at the given address, number and registers.
  type BlockStep = (nat, nat, nat, Regs) -> BlockResult

  ghost predicate Sound(step: BlockStep, size: nat) {
    forall src: nat, len: nat, cnt: nat, regs: Regs :: SoundAt(step(src, len, cnt, regs), src, len, size)
  }

  predicate SoundAt(r: BlockResult, src: nat, len: nat, size: nat) {
    if r.Plain? then |r.data| == len && SpillsKeyArea(r) && src + len + 64 <= size else r.status != Success
  }

  datatype Outcome = Outcome(status: Status, plain: seq<byte>, spill: seq<byte>)

  // The variables of the loop, and the plaintext so far.
  datatype Cursor = Cursor(src: nat, len: nat, cnt: nat, cur: u32, regs: Regs, done: seq<byte>, spill: seq<byte>)

  function Advance(c: Cursor, r: BlockResult): Cursor
    requires r.Plain?
  {
    var next := NextLen(r.regs);
    Cursor(c.src + c.len + 64, next, c.cnt + 1, Add32(c.cur, next), r.regs, c.done + r.data, r.spill)
  }

  // The loop, with the plaintext going elsewhere.
  ghost function Walk(step: BlockStep, size: nat, limit: u32, c: Cursor): Outcome
    requires Sound(step, size) && c.src <= size
    decreases size - c.src
  {
    var r := step(c.src, c.len, c.cnt, c.regs);
    assert SoundAt(r, c.src, c.len, size);
    if c.cur > limit then Outcome(Success, c.done, c.spill)
    else if r.Refused? then Outcome(r.status, c.done, c.spill)
    else if NextLen(r.regs) == 0 then Outcome(Success, c.done + r.data, r.spill)
    else Walk(step, size, limit, Advance(c, r))
  }

  lemma WalkStep(step: BlockStep, size: nat, limit: u32, c: Cursor, r: BlockResult)
    requires Sound(step, size) && c.src <= size && c.cur <= limit
    requires r == step(c.src, c.len, c.cnt, c.regs)
    ensures SoundAt(r, c.src, c.len, size)
    ensures r.Plain? ==> Advance(c, r).src <= size
    ensures Walk(step, size, limit, c) ==
      if r.Refused? then Outcome(r.status, c.done, c.spill)
      else if NextLen(r.regs) == 0 then Outcome(Success, c.done + r.data, r.spill)
      else Walk(step, size, limit, Advance(c, r))
  {
  }

  function StepOf(job: Job, img: seq<byte>): BlockStep {
    (src: nat, len: nat, cnt: nat, regs: Regs) => DecryptBlock(job, img, src, len, cnt, regs)
  }

  lemma StepOfSound(job: Job, img: seq<byte>)
    ensures Sound(StepOf(job, img), |img|)
  {
  }

  // Out-of-place decryption of the image at src, from the secure header on.
  ghost function DecryptImage(job: Job, img: seq<byte>, src: nat, regs: Regs): Outcome
    requires src <= |img|
  {
    StepOfSound(job, img);
    Walk(StepOf(job, img), |img|, job.unencryptedLength, Cursor(src, 0, 0, 0, regs, [], []))
  }

  /** In place. */

  // The DMA through the engine: block after block is read, decrypted and, up to the destination
  // length, written. It may write below what it reads.
  method CtrTransfer(ram: Ram, job: Job, cnt: nat, regs: Regs, src: nat, n: nat, dst: nat, out: nat)
    returns (stream: seq<byte>)
    requires out <= n && dst <= src && src + 16 * n <= |ram.bytes|
    modifies ram
    ensures stream == job.CtrStream(cnt, regs, old(ram.bytes)[src..src + 16 * n], n)
    ensures ram.bytes == Splice(old(ram.bytes), dst, stream[..16 * out])
  {
    hide Splice, Job.CtrBlock;
    ghost var img := ram.bytes;
    ghost var input := img[src..src + 16 * n];
    ghost var written := [];
    stream := [];
    for i := 0 to n
      invariant |stream| == 16 * i && stream == job.CtrStream(cnt, regs, input, i)
      invariant written == if i <= out then stream else stream[..16 * out]
      invariant ram.bytes == Splice(img, dst, written)
    {
      UnreadInput(img, dst, written, src, n, i);
      var output := job.CtrBlock(cnt, regs, i, ram.bytes[src + 16 * i..src + 16 * i + 16]);
      CtrStreamStep(job, cnt, regs, input, i);
      stream := stream + output;
      if i < out {
        SpliceAppend(img, dst, written, output);
        ram.Store(dst + 16 * i, output);
        written := written + output;
      }
    }
    assert written == stream[..16 * out];
  }

  // The writer has not reached the block that is read next.
  lemma UnreadInput(img: seq<byte>, dst: nat, written: seq<byte>, src: nat, n: nat, i: nat)
    requires src + 16 * n <= |img| && i < n && dst + |written| <= src + 16 * i
    ensures Splice(img, dst, written)[src + 16 * i..src + 16 * i + 16] == img[src..src + 16 * n][16 * i..16 * i + 16]
  {
  }

  lemma CtrStreamStep(job: Job, cnt: nat, regs: Regs, s: seq<byte>, i: nat)
    requires 16 * i + 16 <= |s|
    ensures job.CtrStream(cnt, regs, s, i + 1)
      == job.CtrStream(cnt, regs, s, i) + job.CtrBlock(cnt, regs, i, s[16 * i..16 * i + 16])
  {
  }

  // AesSm4Cnt: the input is padded over the tag behind it, and the tag is put back afterwards.
  method CtrInPlace(ram: Ram, job: Job, cnt: nat, regs: Regs, src: nat, n: nat, pad: nat, blocks: nat, dst: nat)
    returns (ok: bool, stream: seq<byte>)
    requires n >= KEY_IV_SIZE && pad < 16 && n + pad == 16 * blocks
    requires dst <= src && src + n + pad <= |ram.bytes|
    modifies ram
    ensures ok == job.dmaDone(cnt)
    ensures stream == job.CtrStream(cnt, regs, old(ram.bytes)[src..src + n] + Zeros(pad), blocks)
    ensures ok ==> ram.bytes == Splice(old(ram.bytes), dst, stream[..16 * (blocks - 3)])
    ensures |ram.bytes| == |old(ram.bytes)| && ram.bytes[..dst] == old(ram.bytes)[..dst]
  {
    hide Splice, Job.CtrStream, Zeros;
    ghost var img := ram.bytes;
    var backUp := ram.bytes[src + n..src + n + pad];
    assert |backUp| <= 16; // BackUpBuff
    stream := PadAndTransfer(ram, job, cnt, regs, src, n, pad, blocks, dst);
    ghost var out := stream[..16 * (blocks - 3)];
    BelowSplices(img, src + n, Zeros(pad), dst, out);
    ok := job.dmaDone(cnt);
    if ok {
      SpliceAround(img, src + n, Zeros(pad), dst, out, backUp);
      ram.Store(src + n, backUp);
    }
  }

  method PadAndTransfer(ram: Ram, job: Job, cnt: nat, regs: Regs, src: nat, n: nat, pad: nat, blocks: nat, dst: nat)
    returns (stream: seq<byte>)
    requires n >= KEY_IV_SIZE && pad < 16 && n + pad == 16 * blocks
    requires dst <= src && src + n + pad <= |ram.bytes|
    modifies ram
    ensures stream == job.CtrStream(cnt, regs, old(ram.bytes)[src..src + n] + Zeros(pad), blocks)
    ensures ram.bytes == Splice(Splice(old(ram.bytes), src + n, Zeros(pad)), dst, stream[..16 * (blocks - 3)])
  {
    SpliceRead(ram.bytes, src, n, Zeros(pad));
    ram.Store(src + n, Zeros(pad));
    stream := CtrTransfer(ram, job, cnt, regs, src, blocks, dst, blocks - 3);
  }

  lemma BelowSplices(img: seq<byte>, p: nat, z: seq<byte>, dst: nat, out: seq<byte>)
    requires dst + |out| <= p && p + |z| <= |img|
    ensures Splice(Splice(img, p, z), dst, out)[..dst] == img[..dst]
    ensures Splice(img, dst, out)[..dst] == img[..dst]
  {
  }

  // Secure_AesDecryptBlk: verify the tag, then decrypt block cnt from src to dst.
  method DecryptBlk(ram: Ram, job: Job, src: nat, len: nat, cnt: nat, regs: Regs, dst: nat)
    returns (r: BlockResult)
    requires dst <= src <= |ram.bytes|
    modifies ram
    ensures r == DecryptBlock(job, old(ram.bytes), src, len, cnt, regs)
    ensures BlockIs(job, old(ram.bytes), src, len, cnt, regs, r)
    ensures r.Refused? && r.status != DmaFailure ==> ram.bytes == old(ram.bytes)
    ensures r.Plain? ==> ram.bytes == Splice(old(ram.bytes), dst, r.data + r.spill)
    ensures |ram.bytes| == |old(ram.bytes)| && ram.bytes[..dst] == old(ram.bytes)[..dst]
  {
    hide PlainBlock, SpillsKeyArea, Job.TagOf, BlockIs;
    BlockMeans(job, ram.bytes, src, len, cnt, regs);
    var n := len + KEY_IV_SIZE;
    var pad := PaddingByteLen(n);
    if src + n + pad + TAG_SIZE > |ram.bytes| {
      return Refused(OutsideMemory);
    }
    var fed := FeedInPlace(ram, src, n, pad, 8 * n % 0x1_0000_0000);
    if job.TagOf(cnt, regs, fed) != ram.bytes[src + n..src + n + TAG_SIZE] {
      return Refused(TagMismatch);
    }
    var blocks := PaddedBlocks(n);
    r := DecryptVerified(ram, job, src, len, pad, blocks, cnt, regs, dst);
    BelowSplices(old(ram.bytes), |ram.bytes|, [], dst, if r.Plain? then r.data + r.spill else []);
  }

  method DecryptVerified(ram: Ram, job: Job, src: nat, len: nat, pad: nat, blocks: nat, cnt: nat, regs: Regs, dst: nat)
    returns (r: BlockResult)
    requires pad < 16 && len + KEY_IV_SIZE + pad == 16 * blocks
    requires dst <= src && src + len + KEY_IV_SIZE + pad <= |ram.bytes|
    modifies ram
    ensures r == PlainBlock(job, old(ram.bytes)[src..src + len + KEY_IV_SIZE], len, pad, blocks, cnt, regs)
    ensures r.Plain? ==> ram.bytes == Splice(old(ram.bytes), dst, r.data + r.spill)
    ensures |ram.bytes| == |old(ram.bytes)| && ram.bytes[..dst] == old(ram.bytes)[..dst]
  {
    var ok, stream := CtrInPlace(ram, job, cnt, regs, src, len + KEY_IV_SIZE, pad, blocks, dst);
    if ok {
      assert stream[..16 * (blocks - 3)] == stream[..len] + stream[len..len + pad];
      r := Plain(stream[..len], stream[len..len + KEY_IV_SIZE], stream[len..len + pad],
                 job.cipher.load(job.DecFlag(cnt), regs, stream));
    } else {
      r := Refused(DmaFailure);
    }
  }

  // Nothing below src decides how the block at src decrypts.
  lemma DecryptBlockLocal(job: Job, a: seq<byte>, b: seq<byte>, src: nat, len: nat, cnt: nat, regs: Regs)
    requires |a| == |b| && src <= |a| && a[src..] == b[src..]
    ensures DecryptBlock(job, a, src, len, cnt, regs) == DecryptBlock(job, b, src, len, cnt, regs)
  {
    hide LinearTagFeed, PaddingByteLen, PaddedBlocks, PlainBlock, Job.TagOf, SpillsKeyArea;
    var n := len + KEY_IV_SIZE;
    if src + n + PaddingByteLen(n) + TAG_SIZE <= |a| {
      SliceOfSuffix(a, b, src, src, src + n);
      SliceOfSuffix(a, b, src, src + n, src + n + TAG_SIZE);
    }
  }

  lemma SliceOfSuffix(a: seq<byte>, b: seq<byte>, from: nat, lo: nat, hi: nat)
    requires |a| == |b| && from <= lo <= hi <= |a| && a[from..] == b[from..]
    ensures a[lo..hi] == b[lo..hi]
  {
  }

  // The memory m holds the result r over the image img, from load on. A block whose transfer timed
  // out may have been written in part; what precedes it is in place.
  ghost predicate Placed(m: seq<byte>, img: seq<byte>, load: nat, r: Outcome) {
    && |m| == |img| && load + |r.plain| + |r.spill| <= |img|
    && (r.status != DmaFailure ==> m == Splice(img, load, r.plain + r.spill))
    && m[..load + |r.plain|] == img[..load] + r.plain
  }

  lemma SplicePlaced(m: seq<byte>, img: seq<byte>, load: nat, r: Outcome)
    requires load + |r.plain| + |r.spill| <= |img| && m == Splice(img, load, r.plain + r.spill)
    ensures Placed(m, img, load, r)
  {
  }

  // One iteration: the block decrypts as it would from the untouched image.
  method DecryptNext(ram: Ram, job: Job, src: nat, len: nat, cnt: nat, regs: Regs, dst: nat,
                     ghost img: seq<byte>, ghost load: nat, ghost done: seq<byte>, ghost spill: seq<byte>)
    returns (r: BlockResult)
    requires dst == load + |done| && dst + |spill| <= src <= |img|
    requires |spill| <= len + PaddingByteLen(len + KEY_IV_SIZE)
    requires Placed(ram.bytes, img, load, Outcome(Success, done, spill))
    modifies ram
    ensures r == DecryptBlock(job, img, src, len, cnt, regs) && |ram.bytes| == |img|
    ensures r.Refused? ==> Placed(ram.bytes, img, load, Outcome(r.status, done, spill))
    ensures r.Plain? ==> Placed(ram.bytes, img, load, Outcome(Success, done + r.data, r.spill))
  {
    BlockUnharmed(job, ram.bytes, img, load, done, spill, src, len, cnt, regs);
    ghost var before := ram.bytes;
    r := DecryptBlk(ram, job, src, len, cnt, regs, dst);
    PlacedNext(before, ram.bytes, img, load, done, spill, r, dst);
  }

  lemma BlockUnharmed(job: Job, m: seq<byte>, img: seq<byte>, load: nat, done: seq<byte>, spill: seq<byte>,
                      src: nat, len: nat, cnt: nat, regs: Regs)
    requires load + |done| + |spill| <= src <= |img|
    requires Placed(m, img, load, Outcome(Success, done, spill))
    ensures DecryptBlock(job, m, src, len, cnt, regs) == DecryptBlock(job, img, src, len, cnt, regs)
  {
    SpliceSuffix(img, load, done + spill, src);
    DecryptBlockLocal(job, m, img, src, len, cnt, regs);
  }

  // What decrypting one more block does to the memory that held the blocks before it.
  lemma PlacedNext(before: seq<byte>, after: seq<byte>, img: seq<byte>, load: nat,
                   done: seq<byte>, spill: seq<byte>, r: BlockResult, dst: nat)
    requires dst == load + |done|
    requires Placed(before, img, load, Outcome(Success, done, spill)) && |after| == |before|
    requires dst <= |before| && after[..dst] == before[..dst]
    requires r.Refused? && r.status != DmaFailure ==> after == before
    requires r.Plain? ==> |spill| <= |r.data| + |r.spill| && dst + |r.data| + |r.spill| <= |img|
    requires r.Plain? ==> after == Splice(before, dst, r.data + r.spill)
    ensures r.Refused? ==> Placed(after, img, load, Outcome(r.status, done, spill))
    ensures r.Plain? ==> Placed(after, img, load, Outcome(Success, done + r.data, r.spill))
  {
  }

  // FmshFsbl_Secure_AesDecrypt. The loader calls it with load == src.
  method SecureAesDecrypt(ram: Ram, job: Job, src0: nat, load: nat, regs0: Regs) returns (status: Status)
    requires load <= src0 <= |ram.bytes|
    modifies ram
    ensures var r := DecryptImage(job, old(ram.bytes), src0, regs0);
      status == r.status && Placed(ram.bytes, old(ram.bytes), load, r)
  {
    hide DecryptBlock, Placed, Sound;
    ghost var img, step := ram.bytes, StepOf(job, ram.bytes);
    StepOfSound(job, img);
    var src, dst, tagAddr := src0, load, src0 + KEY_IV_SIZE;
    var regs := regs0;
    var current, nextLen, prevLen, cnt := 0, 0, 0, 0;
    ghost var done, spill := [], [];
    status := Success;
    SplicePlaced(img, img, load, Outcome(Success, done, spill));
    while current <= job.unencryptedLength
      invariant 0 <= current < 0x1_0000_0000 && 0 <= nextLen < 0x1_0000_0000
      invariant tagAddr == src + nextLen + KEY_IV_SIZE
      invariant src <= |ram.bytes| == |img| && dst == load + |done| && |spill| < 16
      invariant if cnt == 0 then nextLen == 0 && done == spill == [] && dst <= src
                else nextLen > 0 && dst + 64 <= src
      invariant Placed(ram.bytes, img, load, Outcome(Success, done, spill))
      invariant status == Success
      invariant DecryptImage(job, img, src0, regs0)
             == Walk(step, |img|, job.unencryptedLength, Cursor(src, nextLen, cnt, current, regs, done, spill))
      decreases |ram.bytes| - src
    {
      prevLen := nextLen;
      PaddedLength(nextLen);
      ghost var c := Cursor(src, nextLen, cnt, current, regs, done, spill);
      var r := DecryptNext(ram, job, src, nextLen, cnt, regs, dst, img, load, done, spill);
      WalkStep(step, |img|, job.unencryptedLength, c, r);
      if r.Refused? {
        status := r.status;
        return;
      }
      regs := r.regs;
      nextLen := NextLen(regs);
      done, spill := done + r.data, r.spill;
      if nextLen == 0 {
        break;
      }
      current := Add32(current, nextLen);
      if cnt > 0 {
        dst := dst + prevLen;
        src := tagAddr + TAG_SIZE;
      } else {
        src := src + KEY_IV_SIZE + TAG_SIZE;
      }
      tagAddr := src + nextLen + KEY_IV_SIZE;
      cnt := cnt + 1;
      assert Advance(c, r) == Cursor(src, nextLen, cnt, current, regs, done, spill);
    }
  }

  lemma PaddedLength(len: nat)
    ensures len > 0 ==> len + PaddingByteLen(len + KEY_IV_SIZE) >= 16
  {
  }
}
