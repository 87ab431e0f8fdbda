// What key-rolling decryption yields: the chain of encrypted blocks, defined without the length limit,
// and the part of it that the limit lets through.
module BlockChain {
  import opened Bytes
  import opened AesSm4
  import opened KeyRolling

  /** What is decrypted: the chain of blocks, defined without a limit. */

  // Every block up to the first that is refused or names no successor.
  ghost function Chain(step: BlockStep, size: nat, src: nat, len: nat, cnt: nat, regs: Regs): (bs: seq<BlockResult>)
    requires Sound(step, size) && src <= size
    ensures |bs| > 0
    decreases size - src
  {
    var r := step(src, len, cnt, regs);
    assert SoundAt(r, src, len, size);
    if r.Refused? || NextLen(r.regs) == 0 then [r]
    else [r] + Chain(step, size, src + len + 64, NextLen(r.regs), cnt + 1, r.regs)
  }

  ghost function ChainOf(job: Job, img: seq<byte>, src: nat, regs: Regs): seq<BlockResult>
    requires src <= |img|
  {
    StepOfSound(job, img);
    Chain(StepOf(job, img), |img|, src, 0, 0, regs)
  }

  function Concat(bs: seq<BlockResult>): seq<byte> {
    if bs == [] then [] else (if bs[0].Plain? then bs[0].data else []) + Concat(bs[1..])
  }

  ghost predicate Fits(bs: seq<BlockResult>, k: nat, budget: int) {
    k <= |bs| && (forall i :: 0 <= i < k ==> bs[i].Plain?) && |Concat(bs[..k])| <= budget
  }

  ghost predicate LargestFit(bs: seq<BlockResult>, k: nat, budget: int) {
    Fits(bs, k, budget) && forall j: nat :: Fits(bs, j, budget) ==> j <= k
  }

  // The length of block k, from its predecessor or, for the first one, as given.
  function Announced(bs: seq<BlockResult>, k: nat, first: nat): nat
    requires k <= |bs| && (k > 0 ==> bs[k - 1].Plain?)
  {
    if k == 0 then first else NextLen(bs[k - 1].regs)
  }

  // The walk ends well when the chain ends, or when the next block would exceed the limit.
  ghost predicate EndsWell(bs: seq<BlockResult>, k: nat, before: nat, first: nat, limit: u32)
    requires k <= |bs| && (k > 0 ==> bs[k - 1].Plain?)
  {
    k == |bs| || limit < before + |Concat(bs[..k])| + Announced(bs, k, first) < 0x1_0000_0000
  }

  lemma FitsTail(r: BlockResult, rest: seq<BlockResult>, k: nat, budget: int)
    requires r.Plain?
    ensures Fits([r] + rest, k + 1, budget) <==> Fits(rest, k, budget - |r.data|)
    ensures k <= |rest| ==> Concat(([r] + rest)[..k + 1]) == r.data + Concat(rest[..k])
  {
    var bs := [r] + rest;
    if k <= |rest| {
      assert bs[..k + 1][1..] == rest[..k];
      assert forall i :: 0 <= i < k ==> bs[i + 1] == rest[i];
    }
  }

  // One more block at the head of the chain moves the largest fit by one.
  lemma LargestFitTail(r: BlockResult, rest: seq<BlockResult>, k: nat, budget: int)
    requires r.Plain? && LargestFit(rest, k, budget - |r.data|)
    ensures LargestFit([r] + rest, k + 1, budget)
  {
    FitsTail(r, rest, k, budget);
    forall j: nat | Fits([r] + rest, j, budget)
      ensures j <= k + 1
    {
      if j > 0 {
        FitsTail(r, rest, j - 1, budget);
      }
    }
  }

  // A first block that is refused or too long leaves nothing to take.
  lemma NoFit(bs: seq<BlockResult>, budget: nat)
    requires |bs| > 0 && (bs[0].Plain? ==> |bs[0].data| > budget)
    ensures LargestFit(bs, 0, budget) && Concat(bs[..0]) == []
  {
  }

  // The outcome o of a walk is that of the k blocks that fit, behind what was done before.
  ghost predicate Takes(bs: seq<BlockResult>, o: Outcome, k: nat, done: seq<byte>, spill: seq<byte>, len: nat, limit: u32) {
    && k <= |bs| && (k > 0 ==> bs[k - 1].Plain?) && LargestFit(bs, k, limit - |done|)
    && o.plain == done + Concat(bs[..k]) && o.spill == (if k == 0 then spill else bs[k - 1].spill)
    && (o.status == Success <==> EndsWell(bs, k, |done|, len, limit))
    && (o.status != Success ==> bs[k] == Refused(o.status))
  }

  lemma TakesNoMore(bs: seq<BlockResult>, o: Outcome, done: seq<byte>, len: nat, limit: u32)
    requires |bs| > 0 && |done| <= limit && o.plain == done
    requires bs[0].Plain? ==> |bs[0].data| == len && limit < |done| + len < 0x1_0000_0000 && o.status == Success
    requires bs[0].Refused? ==> bs[0].status != Success
    requires bs[0].Refused? ==> o.status == if limit < |done| + len < 0x1_0000_0000 then Success else bs[0].status
    ensures Takes(bs, o, 0, done, o.spill, len, limit)
  {
    NoFit(bs, limit - |done|);
    assert done + [] == done;
  }

  lemma TakesOneMore(r: BlockResult, rest: seq<BlockResult>, o: Outcome, k: nat, done: seq<byte>, spill: seq<byte>,
                     len: nat, limit: u32)
    requires r.Plain? && Takes(rest, o, k, done + r.data, r.spill, NextLen(r.regs), limit)
    ensures Takes([r] + rest, o, k + 1, done, spill, len, limit)
  {
    hide LargestFit, Concat;
    FitsTail(r, rest, k, limit - |done|);
    LargestFitTail(r, rest, k, limit - |done|);
    assert (done + r.data) + Concat(rest[..k]) == done + (r.data + Concat(rest[..k]));
  }

  lemma TakesLast(r: BlockResult, o: Outcome, done: seq<byte>, spill: seq<byte>, len: nat, limit: u32)
    requires r.Plain? && |done| + |r.data| <= limit && o.status == Success
    requires o.plain == done + r.data && o.spill == r.spill
    ensures Takes([r], o, 1, done, spill, len, limit)
  {
    LastFits(r, limit - |done|);
  }

  // From any point of the loop on: the largest fitting prefix of the rest of the chain.
  lemma {:induction false} WalkTakesLargestFit(step: BlockStep, size: nat, limit: u32, c: Cursor) returns (k: nat)
    requires Sound(step, size) && |c.done| <= c.src <= size < 0x1_0000_0000
    requires |c.done| <= limit && c.len < 0x1_0000_0000 && c.cur == Add32(|c.done|, c.len)
    ensures Takes(Chain(step, size, c.src, c.len, c.cnt, c.regs), Walk(step, size, limit, c), k, c.done, c.spill, c.len, limit)
    decreases size - c.src
  {
    hide Takes;
    var bs := Chain(step, size, c.src, c.len, c.cnt, c.regs);
    var r := step(c.src, c.len, c.cnt, c.regs);
    assert SoundAt(r, c.src, c.len, size);
    assert bs[0] == r;
    if c.cur > limit || r.Refused? {
      k := 0;
      TakesNoMore(bs, Walk(step, size, limit, c), c.done, c.len, limit);
    } else if NextLen(r.regs) == 0 {
      k := 1;
      TakesLast(r, Walk(step, size, limit, c), c.done, c.spill, c.len, limit);
    } else {
      var next := Advance(c, r);
      var rest := Chain(step, size, next.src, next.len, next.cnt, next.regs);
      var j := WalkTakesLargestFit(step, size, limit, next);
      k := j + 1;
      TakesOneMore(r, rest, Walk(step, size, limit, c), j, c.done, c.spill, c.len, limit);
    }
  }

  lemma LastFits(r: BlockResult, budget: nat)
    requires r.Plain? && |r.data| <= budget
    ensures LargestFit([r], 1, budget) && Concat([r][..1]) == r.data
  {
  }

  lemma {:induction false} ChainSpills(step: BlockStep, size: nat, src: nat, len: nat, cnt: nat, regs: Regs, k: nat)
    requires Sound(step, size) && src <= size
    requires k < |Chain(step, size, src, len, cnt, regs)|
    ensures var r := Chain(step, size, src, len, cnt, regs)[k]; r.Plain? ==> SpillsKeyArea(r)
    decreases k
  {
    var r := step(src, len, cnt, regs);
    assert SoundAt(r, src, len, size);
    if k > 0 {
      ChainSpills(step, size, src + len + 64, NextLen(r.regs), cnt + 1, r.regs, k - 1);
    }
  }

  lemma NothingSpilled(r: BlockResult)
    requires r.Plain? && SpillsKeyArea(r)
    ensures r.spill == [] <==> |r.data| % 16 == 0
  {
  }

  // What a decryption leaves behind the plaintext of its k blocks.
  ghost predicate EndsInKeyArea(bs: seq<BlockResult>, k: nat, spill: seq<byte>)
    requires k <= |bs| && (k > 0 ==> bs[k - 1].Plain?)
  {
    if k == 0 then spill == []
    else
      var last := bs[k - 1];
      && |last.keyArea| == 48 && spill == last.keyArea[..PaddingByteLen(|last.data| + 48)]
      && (spill == [] <==> |last.data| % 16 == 0)
  }

  /** The decrypted image is the longest run of blocks whose total length the header allows. Behind it are
      the first bytes of the last block's decrypted key area, none if that block is a multiple of 16 bytes. */
  lemma DecryptsLargestFit(job: Job, img: seq<byte>, src: nat, regs: Regs) returns (k: nat)
    requires src <= |img| < 0x1_0000_0000
    ensures var bs := ChainOf(job, img, src, regs); var r := DecryptImage(job, img, src, regs);
      && k <= |bs| && (k > 0 ==> bs[k - 1].Plain?) && LargestFit(bs, k, job.unencryptedLength)
      && r.plain == Concat(bs[..k]) && |r.plain| <= job.unencryptedLength
      && EndsInKeyArea(bs, k, r.spill)
      && (r.status == Success <==> EndsWell(bs, k, 0, 0, job.unencryptedLength))
      && (r.status != Success ==> bs[k] == Refused(r.status))
  {
    hide DecryptBlock, Chain, Walk, Concat;
    StepOfSound(job, img);
    k := WalkTakesLargestFit(StepOf(job, img), |img|, job.unencryptedLength, Cursor(src, 0, 0, 0, regs, [], []));
    if k > 0 {
      ChainSpills(StepOf(job, img), |img|, src, 0, 0, regs, k - 1);
      NothingSpilled(ChainOf(job, img, src, regs)[k - 1]);
    }
  }

  // The step that block k of a chain should be, from what its predecessors add up to.
  ghost function StepAt(step: BlockStep, bs: seq<BlockResult>, src: nat, len: nat, cnt: nat, regs: Regs, k: nat): BlockResult
    requires k <= |bs| && (k > 0 ==> bs[k - 1].Plain?)
  {
    step(src + 64 * k + |Concat(bs[..k])|, Announced(bs, k, len),
         cnt + k, if k == 0 then regs else bs[k - 1].regs)
  }

  lemma StepAtTail(step: BlockStep, r: BlockResult, rest: seq<BlockResult>, src: nat, cnt: nat, regs: Regs, k: nat)
    requires r.Plain? && k <= |rest| && (k > 0 ==> rest[k - 1].Plain?)
    ensures StepAt(step, [r] + rest, src, |r.data|, cnt, regs, k + 1)
         == StepAt(step, rest, src + |r.data| + 64, NextLen(r.regs), cnt + 1, r.regs, k)
  {
    FitsTail(r, rest, k, 0);
    assert ([r] + rest)[k] == if k == 0 then r else rest[k - 1];
  }

  lemma {:induction false} ChainStep(step: BlockStep, size: nat, src: nat, len: nat, cnt: nat, regs: Regs, k: nat)
    requires Sound(step, size) && src <= size
    requires k < |Chain(step, size, src, len, cnt, regs)|
    ensures var bs := Chain(step, size, src, len, cnt, regs);
      && (forall j :: 0 <= j < k ==> bs[j].Plain?)
      && bs[k] == StepAt(step, bs, src, len, cnt, regs, k)
    decreases k
  {
    var bs := Chain(step, size, src, len, cnt, regs);
    var r := step(src, len, cnt, regs);
    assert SoundAt(r, src, len, size);
    assert bs[0] == r;
    if k == 0 {
      assert bs[..0] == [];
    } else {
      hide StepAt;
      var rest := Chain(step, size, src + len + 64, NextLen(r.regs), cnt + 1, r.regs);
      assert bs == [r] + rest;
      ChainStep(step, size, src + len + 64, NextLen(r.regs), cnt + 1, r.regs, k - 1);
      StepAtTail(step, r, rest, src, cnt, regs, k - 1);
    }
  }

  /** Block k is read behind k tags and key areas and the data of its predecessors. */
  lemma BlockAddress(job: Job, img: seq<byte>, src: nat, regs: Regs, k: nat)
    requires src <= |img| && k < |ChainOf(job, img, src, regs)|
    ensures var bs := ChainOf(job, img, src, regs);
      && (forall j :: 0 <= j < k ==> bs[j].Plain?)
      && bs[k] == DecryptBlock(job, img, src + 64 * k + |Concat(bs[..k])|, Announced(bs, k, 0),
                               k, if k == 0 then regs else bs[k - 1].regs)
  {
    hide DecryptBlock, Chain;
    StepOfSound(job, img);
    ChainStep(StepOf(job, img), |img|, src, 0, 0, regs, k);
  }

  /** The whole decryption, in terms of the cipher alone. */

  // The registers and the length of block k, as its predecessor left them.
  function RegsFor(taken: seq<BlockResult>, k: nat, first: Regs): Regs
    requires k <= |taken| && (k > 0 ==> taken[k - 1].Plain?)
  {
    if k == 0 then first else taken[k - 1].regs
  }

  function LengthFor(taken: seq<BlockResult>, k: nat): nat
    requires k <= |taken| && (k > 0 ==> taken[k - 1].Plain?)
  {
    if k == 0 then 0 else 4 * taken[k - 1].regs.nextWords % 0x1_0000_0000
  }

  // Block k of those that are taken is what lies behind its predecessors.
  ghost predicate TakenIs(job: Job, img: seq<byte>, src: nat, first: Regs, taken: seq<BlockResult>, k: nat, r: BlockResult)
    requires k <= |taken| && (k > 0 ==> taken[k - 1].Plain?)
  {
    BlockIs(job, img, src + 64 * k + |Concat(taken[..k])|, LengthFor(taken, k), k, RegsFor(taken, k, first), r)
  }

  ghost predicate AllTaken(job: Job, img: seq<byte>, src: nat, first: Regs, taken: seq<BlockResult>) {
    && (forall k :: 0 <= k < |taken| ==> taken[k].Plain?)
    && forall k :: 0 <= k < |taken| ==> TakenIs(job, img, src, first, taken, k, taken[k])
  }

  // The decryption ends well behind a block that names no successor, or before one that the image length does
  // not allow for (unless the sum of the lengths leaves 32 bits); otherwise the next block is refused.
  ghost predicate EndsAs(job: Job, img: seq<byte>, src: nat, first: Regs, taken: seq<BlockResult>, status: Status)
    requires forall k :: 0 <= k < |taken| ==> taken[k].Plain?
  {
    var n := |taken|;
    if (n > 0 && LengthFor(taken, n) == 0)
       || job.unencryptedLength < |Concat(taken)| + LengthFor(taken, n) < 0x1_0000_0000
    then status == Success
    else status != Success && TakenIs(job, img, src, first, taken, n, Refused(status))
  }

  lemma {:induction false} ChainEnds(step: BlockStep, size: nat, src: nat, len: nat, cnt: nat, regs: Regs, k: nat)
    requires Sound(step, size) && src <= size
    requires 0 < k <= |Chain(step, size, src, len, cnt, regs)|
    ensures var bs := Chain(step, size, src, len, cnt, regs);
      bs[k - 1].Plain? ==> (k == |bs| <==> NextLen(bs[k - 1].regs) == 0)
    decreases k
  {
    var r := step(src, len, cnt, regs);
    assert SoundAt(r, src, len, size);
    if k > 1 {
      ChainEnds(step, size, src + len + 64, NextLen(r.regs), cnt + 1, r.regs, k - 1);
    }
  }

  lemma BlockOfChain(job: Job, img: seq<byte>, src: nat, regs: Regs, taken: seq<BlockResult>, k: nat)
    requires src <= |img| && k < |ChainOf(job, img, src, regs)| && k <= |taken|
    requires taken <= ChainOf(job, img, src, regs)
    ensures k > 0 ==> taken[k - 1].Plain?
    ensures TakenIs(job, img, src, regs, taken, k, ChainOf(job, img, src, regs)[k])
  {
    hide DecryptBlock, Chain, BlockIs, Concat;
    var bs := ChainOf(job, img, src, regs);
    BlockAddress(job, img, src, regs, k);
    assert bs[..k] == taken[..k];
    BlockMeans(job, img, src + 64 * k + |Concat(bs[..k])|, LengthFor(taken, k), k, RegsFor(taken, k, regs));
  }

  /** Every block that is decrypted carries the tag of its bytes under its key, and the decrypted image is the
      cipher's output for the blocks in turn; it fails at a block that is not in memory, has another tag or does not
      come through, and at no other. */
  lemma DecryptionMeans(job: Job, img: seq<byte>, src: nat, regs: Regs) returns (taken: seq<BlockResult>)
    requires src <= |img| < 0x1_0000_0000
    ensures AllTaken(job, img, src, regs, taken)
    ensures var r := DecryptImage(job, img, src, regs);
      r.plain == Concat(taken) && EndsAs(job, img, src, regs, taken, r.status)
  {
    hide DecryptBlock, Chain, Walk, Concat, TakenIs, LargestFit, DecryptImage, EndsInKeyArea;
    StepOfSound(job, img);
    var bs := ChainOf(job, img, src, regs);
    var k := DecryptsLargestFit(job, img, src, regs);
    taken := bs[..k];
    forall j | 0 <= j < k
      ensures taken[j].Plain?
    {
      ChainPlain(job, img, src, regs, k, j);
    }
    forall j | 0 <= j < k
      ensures TakenIs(job, img, src, regs, taken, j, taken[j])
    {
      BlockOfChain(job, img, src, regs, taken, j);
    }
    if k > 0 {
      ChainEnds(StepOf(job, img), |img|, src, 0, 0, regs, k);
    }
    if k < |bs| {
      BlockOfChain(job, img, src, regs, taken, k);
    }
  }

  // Up to a block that was decrypted all were.
  lemma ChainPlain(job: Job, img: seq<byte>, src: nat, regs: Regs, k: nat, j: nat)
    requires src <= |img| && j < k <= |ChainOf(job, img, src, regs)| && ChainOf(job, img, src, regs)[k - 1].Plain?
    ensures ChainOf(job, img, src, regs)[j].Plain?
  {
    hide DecryptBlock, Chain;
    BlockAddress(job, img, src, regs, k - 1);
  }
}
