/** Address blocks in prefix notation (RFC 4632, section 3.1) and the one merge pass that
    `Sum` repeats: walking a run of touching blocks, replace an even-aligned block and its
    same-prefix successor with their parent. The record types of the three copies carry a
    Block each, and their passes are proved against this one. */
module Blocks {
  import opened IPv4

  /** The first address of a block and its prefix length. */
  datatype Block = Block(start: nat, prefix: int)

  /** A well-formed IPv4 block: a prefix length 0..32 and a start aligned to it. */
  predicate ValidBlock(b: Block)
  {
    0 <= b.prefix <= 32 && b.start < AddrSpace && b.start % BlockSize(b.prefix) == 0
  }

  /** One past the last address of the block; a prefix outside 0..32 gives no block. */
  function End(b: Block): nat
  {
    b.start + if 0 <= b.prefix <= 32 then BlockSize(b.prefix) else 0
  }

  predicate InBlock(b: Block, a: nat)
  {
    b.start <= a < End(b)
  }

  /** A run of valid blocks each of which starts where the one before it ends. */
  predicate Chain(bs: seq<Block>)
  {
    (forall i :: 0 <= i < |bs| ==> ValidBlock(bs[i]))
    && (forall i :: 0 < i < |bs| ==> End(bs[i - 1]) == bs[i].start)
  }

  function First(bs: seq<Block>): nat
    requires |bs| > 0
  {
    bs[0].start
  }

  function Last(bs: seq<Block>): nat
    requires |bs| > 0
  {
    End(bs[|bs| - 1])
  }

  /** Some block of the run holds address `a`. */
  predicate Covered(bs: seq<Block>, a: nat)
  {
    exists i :: 0 <= i < |bs| && InBlock(bs[i], a)
  }

  /** Sum's merge test: the bits of the start above the block are even, which makes the
      block the lower half of its parent, and the successor has the same prefix. */
  predicate Mergeable(a: Block, b: Block)
  {
    HighBits(a.start, a.prefix) % 2 == 0 && a.prefix == b.prefix
  }

  /** The block one prefix shorter that holds `a`: what newParent computes. */
  function Parent(a: Block): (p: Block)
    requires 1 <= a.prefix <= 32
    ensures p.prefix == a.prefix - 1 && p.start <= a.start
  {
    Block(Mask(a.start, a.prefix - 1), a.prefix - 1)
  }

  // ---------------------------------------------------------------------------
  // Chains

  lemma ChainSuffix(bs: seq<Block>, k: nat)
    requires Chain(bs) && k <= |bs|
    ensures Chain(bs[k..])
  {
    var t := bs[k..];
    assert forall i :: 0 <= i < |t| ==> t[i] == bs[k + i];
  }

  lemma ChainCons(b: Block, bs: seq<Block>)
    requires ValidBlock(b) && Chain(bs) && (|bs| > 0 ==> End(b) == bs[0].start)
    ensures Chain([b] + bs)
  {
    var t := [b] + bs;
    assert forall i :: 0 < i < |t| ==> t[i] == bs[i - 1];
  }

  lemma ChainSnoc(bs: seq<Block>, b: Block)
    requires Chain(bs) && ValidBlock(b) && (|bs| > 0 ==> Last(bs) == b.start)
    ensures Chain(bs + [b])
  {
    var t := bs + [b];
    assert forall i :: 0 <= i < |bs| ==> t[i] == bs[i];
  }

  lemma AlignedBelow(start: nat, size: int, k: int)
    requires size > 0 && k > 0 && start % size == 0 && start < size * k
    ensures start + size <= size * k
  {
    var q := start / size;
    assert start == q * size;
    if q >= k {
      MulMonotone(k, q, size);
    }
    MulMonotone(q + 1, k, size);
  }

  /** A valid block ends inside the address space, and only the /0 block is as large as
      the whole space. */
  lemma ValidBlockEnd(b: Block)
    requires ValidBlock(b)
    ensures End(b) <= AddrSpace
    ensures b.prefix >= 1 ==> BlockSize(b.prefix) < AddrSpace
  {
    var size, k := BlockSize(b.prefix), Pow2(b.prefix);
    Pow2Add(32 - b.prefix, b.prefix);
    Pow2Constants();
    assert AddrSpace == size * k;
    AlignedBelow(b.start, size, k);
    if b.prefix >= 1 {
      Pow2Monotone(1, b.prefix);
      MulMonotone(2, k, size);
    }
  }

  /** A valid block at prefix 0 is the whole address space. */
  lemma WholeSpace(b: Block)
    requires ValidBlock(b) && b.prefix == 0
    ensures b.start == 0 && End(b) == AddrSpace
  {
    Pow2Constants();
  }

  /** In a chain the only block that may have prefix 0 is the last one, because a block
      that follows it would have to start at 2^32. */
  lemma ZeroPrefixOnlyLast(bs: seq<Block>, i: nat)
    requires Chain(bs) && i + 1 < |bs|
    ensures bs[i].prefix >= 1
  {
    assert End(bs[(i + 1) - 1]) == bs[i + 1].start && ValidBlock(bs[i + 1]);
    if bs[i].prefix == 0 {
      WholeSpace(bs[i]);
    }
  }

  /** Two touching, mergeable blocks make up their parent exactly: it starts where the
      first starts and ends where the second ends. */
  lemma ParentOfPair(a: Block, b: Block)
    requires ValidBlock(a) && ValidBlock(b) && End(a) == b.start && Mergeable(a, b)
    ensures a.prefix >= 1
    ensures ValidBlock(Parent(a)) && Parent(a).start == a.start && End(Parent(a)) == End(b)
  {
    ZeroPrefixOnlyLast([a, b], 0);
    AlignedParentIffEven(a.start, a.prefix);
    MaskOfAligned(a.start, a.prefix - 1);
    BlockSizeParent(a.prefix);
  }

  /** Blocks further along a chain start and end no earlier. */
  lemma {:induction false} ChainOrdered(bs: seq<Block>, i: nat)
    requires Chain(bs) && i < |bs|
    ensures First(bs) <= bs[i].start && End(bs[i]) <= Last(bs)
    decreases |bs|
  {
    if |bs| > 1 {
      ChainSuffix(bs, 1);
      if i > 0 {
        ChainOrdered(bs[1..], i - 1);
        assert bs[1..][0] == bs[1] && bs[1..][i - 1] == bs[i];
      } else {
        ChainOrdered(bs[1..], 0);
        assert bs[1..][0] == bs[1];
      }
    }
  }

  lemma {:induction false} ChainFind(bs: seq<Block>, a: nat)
    requires Chain(bs) && |bs| > 0 && First(bs) <= a < Last(bs)
    ensures Covered(bs, a)
    decreases |bs|
  {
    if !InBlock(bs[0], a) {
      ChainSuffix(bs, 1);
      ChainFind(bs[1..], a);
      var i :| 0 <= i < |bs[1..]| && InBlock(bs[1..][i], a);
      assert InBlock(bs[i + 1], a);
    }
  }

  /** A chain covers exactly the addresses from its first start to its last end. */
  lemma ChainCovers(bs: seq<Block>, a: nat)
    requires Chain(bs) && |bs| > 0
    ensures Covered(bs, a) <==> First(bs) <= a < Last(bs)
  {
    if Covered(bs, a) {
      var i :| 0 <= i < |bs| && InBlock(bs[i], a);
      ChainOrdered(bs, i);
    } else if First(bs) <= a < Last(bs) {
      ChainFind(bs, a);
    }
  }

  // ---------------------------------------------------------------------------
  // One merge pass

  /** One pass of Sum over a chain: from the front, a mergeable pair becomes its parent
      and the walk skips past both; any other block is kept. The pass keeps the run a chain
      from the same first start to the same last end and never lengthens it. */
  function PassBlocks(bs: seq<Block>): (r: seq<Block>)
    requires Chain(bs)
    ensures Chain(r) && |r| <= |bs|
    ensures |bs| > 0 ==> |r| > 0 && First(r) == First(bs) && Last(r) == Last(bs)
    decreases |bs|
  {
    if |bs| <= 1 then bs
    else if Mergeable(bs[0], bs[1]) then
      ChainSuffix(bs, 2);
      ParentOfPair(bs[0], bs[1]);
      var rest := PassBlocks(bs[2..]);
      ChainCons(Parent(bs[0]), rest);
      if |bs| > 2 then
        assert Last(bs[2..]) == Last(bs);
        [Parent(bs[0])] + rest
      else
        [Parent(bs[0])] + rest
    else
      ChainSuffix(bs, 1);
      var rest := PassBlocks(bs[1..]);
      ChainCons(bs[0], rest);
      assert Last(bs[1..]) == Last(bs);
      [bs[0]] + rest
  }

  /** No pair of neighbours passes the merge test. */
  predicate NoMergeable(bs: seq<Block>)
  {
    forall i :: 0 < i < |bs| ==> !Mergeable(bs[i - 1], bs[i])
  }

  lemma NoMergeableCons(bs: seq<Block>)
    requires |bs| > 1
    ensures NoMergeable(bs) <==> !Mergeable(bs[0], bs[1]) && NoMergeable(bs[1..])
  {
    var t := bs[1..];
    if !Mergeable(bs[0], bs[1]) && NoMergeable(t) {
      forall i | 1 < i < |bs|
        ensures !Mergeable(bs[i - 1], bs[i])
      {
        assert bs[i - 1] == t[i - 2] && bs[i] == t[i - 1];
      }
    }
    if NoMergeable(bs) {
      forall i | 0 < i < |t|
        ensures !Mergeable(t[i - 1], t[i])
      {
        assert t[i - 1] == bs[i] && t[i] == bs[i + 1];
      }
    }
  }

  /** A pass keeps the length exactly when it finds nothing to merge, and then it changes
      nothing. */
  lemma {:induction false} PassKeepsLengthIff(bs: seq<Block>)
    requires Chain(bs)
    ensures |PassBlocks(bs)| == |bs| <==> NoMergeable(bs)
    ensures NoMergeable(bs) ==> PassBlocks(bs) == bs
    decreases |bs|
  {
    if |bs| > 1 {
      NoMergeableCons(bs);
      if !Mergeable(bs[0], bs[1]) {
        ChainSuffix(bs, 1);
        PassKeepsLengthIff(bs[1..]);
        assert [bs[0]] + bs[1..] == bs;
      }
    }
  }

  /** A pass covers the same addresses as the run it is given. */
  lemma PassCovers(bs: seq<Block>, a: nat)
    requires Chain(bs)
    ensures Covered(PassBlocks(bs), a) <==> Covered(bs, a)
  {
    if |bs| > 0 {
      ChainCovers(bs, a);
      ChainCovers(PassBlocks(bs), a);
    }
  }
}
