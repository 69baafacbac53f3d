/** The skip list over the block index, and the active chain (src/chain.cpp:21-124, 158-175; src/chain.h). */
module Chains {
  import opened Integers
  import opened SkipHeights

  // ---------- blocks ----------

  class BlockIndex {
    const pprev: BlockIndex?
    const nHeight: int
    var pskip: BlockIndex?

    constructor (pprev: BlockIndex?, nHeight: int)
      ensures this.pprev == pprev && this.nHeight == nHeight && pskip == null
    {
      this.pprev := pprev;
      this.nHeight := nHeight;
      pskip := null;
    }
  }

  /** The blocks form a tree: each one is one higher than its predecessor, and only blocks of height zero have none. */
  ghost predicate Tree(all: set<BlockIndex>) {
    forall b :: b in all ==>
      && b.nHeight >= 0 && (b.pprev == null <==> b.nHeight == 0)
      && (b.pprev != null ==> b.pprev in all && b.pprev.nHeight == b.nHeight - 1)
  }

  /** Walking back by single steps. */
  ghost function Ancestor(all: set<BlockIndex>, b: BlockIndex, height: int): (r: BlockIndex)
    requires Tree(all) && b in all && 0 <= height <= b.nHeight
    ensures r in all && r.nHeight == height
    decreases b.nHeight
  {
    if b.nHeight == height then b else Ancestor(all, b.pprev, height)
  }

  /** Skipping part of the way does not change where a walk ends. */
  lemma {:induction false} AncestorOfAncestor(all: set<BlockIndex>, b: BlockIndex, mid: int, height: int)
    requires Tree(all) && b in all && 0 <= height <= mid <= b.nHeight
    ensures Ancestor(all, Ancestor(all, b, mid), height) == Ancestor(all, b, height)
    decreases b.nHeight
  {
    if b.nHeight > mid {
      AncestorOfAncestor(all, b.pprev, mid, height);
    }
  }

  /** A skip pointer, where there is one, points to the ancestor at the skip height. */
  ghost predicate SkipOk(all: set<BlockIndex>, b: BlockIndex)
    requires Tree(all) && b in all
    reads b
  {
    b.pskip != null ==> b.pskip == Ancestor(all, b, GetSkipHeight(b.nHeight))
  }

  ghost predicate Skips(all: set<BlockIndex>)
    requires Tree(all)
    reads all
  {
    forall b :: b in all ==> SkipOk(all, b)
  }

  /** Every block but those of height zero has its skip pointer. */
  ghost predicate AllSkips(all: set<BlockIndex>)
    reads all
  {
    forall b :: b in all && b.nHeight > 0 ==> b.pskip != null
  }

  lemma JumpBack(all: set<BlockIndex>, b: BlockIndex, height: int)
    requires Tree(all) && Skips(all) && b in all && b.pskip != null && 0 <= height <= GetSkipHeight(b.nHeight)
    ensures b.pskip in all && b.pskip.nHeight == GetSkipHeight(b.nHeight) <= b.nHeight
    ensures Ancestor(all, b.pskip, height) == Ancestor(all, b, height)
  {
    assert SkipOk(all, b);
    AncestorOfAncestor(all, b, GetSkipHeight(b.nHeight), height);
  }

  lemma OneBack(all: set<BlockIndex>, b: BlockIndex, height: int)
    requires Tree(all) && b in all && 0 <= height < b.nHeight
    ensures b.pprev != null && b.pprev in all && b.pprev.nHeight == b.nHeight - 1
    ensures Ancestor(all, b.pprev, height) == Ancestor(all, b, height)
  {
  }

  /** The ancestor at a height, jumping where it helps; it is where single steps lead to, in few steps once all skip pointers are set. */
  method GetAncestor(ghost all: set<BlockIndex>, b: BlockIndex, height: int) returns (r: BlockIndex?, ghost steps: nat)
    requires Tree(all) && Skips(all) && b in all
    ensures r == null <==> height > b.nHeight || height < 0
    ensures r != null ==> r == Ancestor(all, b, height)
    ensures AllSkips(all) ==> Few(b.nHeight, steps)
  {
    hide Steps, GetSkipHeight, Pow2, Few, Tree, Ancestor, Skips, SkipOk;
    TopIs(all, b);
    steps := 0;
    if height > b.nHeight || height < 0 {
      NoneIsFew(b.nHeight);
      return null, 0;
    }
    var walk, heightWalk := b, b.nHeight;
    while heightWalk > height
      invariant walk in all && walk.nHeight == heightWalk && height <= heightWalk
      invariant Ancestor(all, walk, height) == Ancestor(all, b, height)
      invariant AllSkips(all) ==> steps + Steps(heightWalk, height) == Steps(b.nHeight, height)
    {
      steps := steps + 1;
      FirstStep(heightWalk, height);
      var heightSkip := GetSkipHeight(heightWalk);
      var heightSkipPrev := GetSkipHeight(heightWalk - 1);
      if walk.pskip != null &&
         (heightSkip == height ||
          (heightSkip > height && !(heightSkipPrev < heightSkip - 2 && heightSkipPrev >= height))) {
        JumpBack(all, walk, height);
        walk := walk.pskip;
        heightWalk := heightSkip;
      } else {
        OneBack(all, walk, height);
        walk := walk.pprev;
        heightWalk := heightWalk - 1;
      }
    }
    TopIs(all, walk);
    NoSteps(height);
    WalkSteps(b.nHeight, height);
    return walk, steps;
  }

  /** Sets the skip pointer of a block whose predecessors have theirs. */
  method BuildSkip(ghost all: set<BlockIndex>, b: BlockIndex)
    requires Tree(all) && Skips(all) && b in all
    modifies b`pskip
    ensures Skips(all) && b.pskip == if b.pprev == null then old(b.pskip) else Ancestor(all, b, GetSkipHeight(b.nHeight))
  {
    if b.pprev != null {
      var r, _ := GetAncestor(all, b.pprev, GetSkipHeight(b.nHeight));
      assert r == Ancestor(all, b, GetSkipHeight(b.nHeight));
      b.pskip := r;
      forall x | x in all
        ensures SkipOk(all, x)
      {
      }
    }
  }

  /** Adds a block on top of a known one, or a first block, with its skip pointer. */
  method AddBlock(ghost all: set<BlockIndex>, pprev: BlockIndex?) returns (b: BlockIndex, ghost all': set<BlockIndex>)
    requires Tree(all) && Skips(all) && (pprev != null ==> pprev in all)
    ensures fresh(b) && all' == all + {b} && Tree(all') && Skips(all') && b.pprev == pprev
    ensures b.nHeight == if pprev == null then 0 else pprev.nHeight + 1
    ensures AllSkips(all) ==> AllSkips(all')
  {
    b := new BlockIndex(pprev, if pprev == null then 0 else pprev.nHeight + 1);
    all' := all + {b};
    forall x | x in all'
      ensures SkipOk(all', x)
    {
      if x in all && x.pskip != null {
        assert SkipOk(all, x);
        LargerTree(all, all', x, GetSkipHeight(x.nHeight));
      }
    }
    BuildSkip(all', b);
  }

  lemma {:induction false} LargerTree(all: set<BlockIndex>, all': set<BlockIndex>, b: BlockIndex, height: int)
    requires Tree(all) && Tree(all') && all <= all' && b in all && 0 <= height <= b.nHeight
    ensures Ancestor(all', b, height) == Ancestor(all, b, height)
    decreases b.nHeight
  {
    if b.nHeight > height {
      LargerTree(all, all', b.pprev, height);
    }
  }

  // ---------- the active chain ----------

  /** The vector holds, at every height, the ancestor of its last block. */
  ghost predicate IsChain(all: set<BlockIndex>, v: seq<BlockIndex?>)
    requires Tree(all)
  {
    forall i :: 0 <= i < |v| ==>
      v[i] != null && v[i] in all && v[i].nHeight == i && (i > 0 ==> v[i].pprev == v[i - 1])
  }

  lemma {:induction false} ChainAncestors(all: set<BlockIndex>, v: seq<BlockIndex?>, i: nat, j: nat)
    requires Tree(all) && IsChain(all, v) && i <= j < |v|
    ensures v[j] != null && v[j] in all && v[j].nHeight == j && v[i] == Ancestor(all, v[j], i)
    decreases j
  {
    if i < j {
      ChainAncestors(all, v, i, j - 1);
    }
  }

  class Chain {
    var vChain: seq<BlockIndex?>

    constructor ()
      ensures vChain == []
    {
      vChain := [];
    }

    function Height(): int
      reads this
    {
      |vChain| - 1
    }

    predicate Contains(b: BlockIndex)
      reads this
    {
      0 <= b.nHeight < |vChain| && vChain[b.nHeight] == b
    }

    /** Makes a block the tip: stops as soon as the vector already agrees, and holds all ancestors of the tip afterwards. */
    method SetTip(ghost all: set<BlockIndex>, block: BlockIndex)
      requires Tree(all) && block in all && IsChain(all, vChain)
      modifies this
      ensures |vChain| == block.nHeight + 1 && IsChain(all, vChain)
      ensures forall i :: 0 <= i <= block.nHeight ==> vChain[i] == Ancestor(all, block, i)
    {
      hide Tree, Ancestor, IsChain;
      TopIs(all, block);
      ghost var was := vChain;
      var n := block.nHeight + 1;
      vChain := if n <= |vChain| then vChain[..n] else vChain + seq(n - |vChain|, _ => null);
      var pindex: BlockIndex? := block;
      ghost var at := block.nHeight;
      while pindex != null && vChain[pindex.nHeight] != pindex
        invariant |vChain| == n && -1 <= at < n
        invariant pindex == null <==> at == -1
        invariant pindex != null ==> pindex == Ancestor(all, block, at)
        invariant forall i :: at < i < n ==> vChain[i] == Ancestor(all, block, i)
        invariant forall i :: 0 <= i <= at ==> vChain[i] == if i < |was| then was[i] else null
        decreases at + 1
      {
        StepBack(all, block, at);
        vChain := vChain[pindex.nHeight := pindex];
        pindex := pindex.pprev;
        at := at - 1;
      }
      forall i | 0 <= i <= at
        ensures vChain[i] == Ancestor(all, block, i)
      {
        ChainAncestors(all, was, i, at);
        AncestorOfAncestor(all, block, at, i);
      }
      AncestorsChain(all, block, vChain);
    }

    /** The highest block of the chain that is the given block or an ancestor of it. */
    method FindFork(ghost all: set<BlockIndex>, block: BlockIndex?) returns (r: BlockIndex?)
      requires Tree(all) && Skips(all) && IsChain(all, vChain) && (block != null ==> block in all)
      ensures block == null ==> r == null
      ensures block != null && r != null ==> r in all && r.nHeight <= block.nHeight && r == Ancestor(all, block, r.nHeight) && Contains(r)
      ensures block != null ==> forall h :: (if r == null then 0 else r.nHeight + 1) <= h <= block.nHeight ==> !Contains(Ancestor(all, block, h))
    {
      hide Tree, Ancestor, IsChain, Skips;
      if block == null {
        return null;
      }
      TopIs(all, block);
      r := block;
      if block.nHeight > Height() {
        ghost var steps;
        r, steps := GetAncestor(all, block, Height());
      }
      while r != null && !Contains(r)
        invariant r != null ==> r in all && 0 <= r.nHeight <= block.nHeight && r == Ancestor(all, block, r.nHeight)
        invariant forall h :: (if r == null then 0 else r.nHeight + 1) <= h <= block.nHeight ==> !Contains(Ancestor(all, block, h))
        decreases if r == null then 0 else r.nHeight + 1
      {
        StepBack(all, block, r.nHeight);
        r := r.pprev;
      }
    }
  }

  lemma TopIs(all: set<BlockIndex>, b: BlockIndex)
    requires Tree(all) && b in all
    ensures b.nHeight >= 0 && Ancestor(all, b, b.nHeight) == b
  {
  }

  /** The predecessor of an ancestor is the ancestor one lower. */
  lemma StepBack(all: set<BlockIndex>, b: BlockIndex, h: int)
    requires Tree(all) && b in all && 0 <= h <= b.nHeight
    ensures var a := Ancestor(all, b, h);
            (a.pprev == null <==> h == 0) && (h > 0 ==> a.pprev == Ancestor(all, b, h - 1))
  {
    if h > 0 {
      AncestorOfAncestor(all, b, h, h - 1);
    }
  }

  lemma AncestorsChain(all: set<BlockIndex>, b: BlockIndex, v: seq<BlockIndex?>)
    requires Tree(all) && b in all && |v| == b.nHeight + 1
    requires forall i :: 0 <= i <= b.nHeight ==> v[i] == Ancestor(all, b, i)
    ensures IsChain(all, v)
  {
    forall i | 0 <= i < |v|
      ensures v[i] != null && v[i] in all && v[i].nHeight == i && (i > 0 ==> v[i].pprev == v[i - 1])
    {
      StepBack(all, b, i);
    }
  }

  /** The highest block that is an ancestor of both, or null if they share none. */
  method LastCommonAncestor(ghost all: set<BlockIndex>, a: BlockIndex, b: BlockIndex) returns (r: BlockIndex?)
    requires Tree(all) && Skips(all) && a in all && b in all
    ensures r != null ==> r in all && r.nHeight <= a.nHeight && r.nHeight <= b.nHeight
                          && r == Ancestor(all, a, r.nHeight) && r == Ancestor(all, b, r.nHeight)
    ensures forall h :: (if r == null then 0 else r.nHeight + 1) <= h <= a.nHeight && h <= b.nHeight ==> Ancestor(all, a, h) != Ancestor(all, b, h)
    ensures a.nHeight >= 0 && b.nHeight >= 0 && Ancestor(all, a, 0) == Ancestor(all, b, 0) ==> r != null
  {
    hide Tree, Ancestor, Skips;
    TopIs(all, a);
    TopIs(all, b);
    var pa: BlockIndex?, pb: BlockIndex? := a, b;
    ghost var steps;
    if a.nHeight > b.nHeight {
      pa, steps := GetAncestor(all, a, b.nHeight);
    } else if b.nHeight > a.nHeight {
      pb, steps := GetAncestor(all, b, a.nHeight);
    }
    ghost var at := if a.nHeight < b.nHeight then a.nHeight else b.nHeight;
    while pa != pb && pa != null && pb != null
      invariant -1 <= at <= a.nHeight && at <= b.nHeight
      invariant if at == -1 then pa == null && pb == null else pa == Ancestor(all, a, at) && pb == Ancestor(all, b, at)
      invariant forall h :: at < h <= a.nHeight && h <= b.nHeight ==> Ancestor(all, a, h) != Ancestor(all, b, h)
      decreases at + 1
    {
      StepBack(all, a, at);
      StepBack(all, b, at);
      pa := pa.pprev;
      pb := pb.pprev;
      at := at - 1;
    }
    assert pa == pb;
    return pa;
  }
}
