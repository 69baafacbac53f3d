/** Merkle branches (src/auxpow.cpp:139-155), and the trees of hashes that they are branches of. */
module MerkleTrees {
  import opened Integers

  type Bytes = seq<int>

  const HASH_SIZE := 32

  // ---------- merkle branches ----------

  /** The root that a hash has at a position, given the other sides on the path. */
  ghost function MerkleRoot(pair: (Bytes, Bytes) -> Bytes, hash: Bytes, branch: seq<Bytes>, index: int): Bytes
    decreases |branch|
  {
    if branch == [] then hash
    else MerkleRoot(pair, Join(pair, hash, branch[0], index), branch[1..], index / 2)
  }

  function Join(pair: (Bytes, Bytes) -> Bytes, hash: Bytes, otherSide: Bytes, index: int): Bytes {
    if index % 2 == 1 then pair(otherSide, hash) else pair(hash, otherSide)
  }

  ghost function Zeros(): Bytes {
    seq(HASH_SIZE, _ => 0)
  }

  /** An index of -1 gives the null hash. */
  ghost function BranchRoot(pair: (Bytes, Bytes) -> Bytes, hash: Bytes, branch: seq<Bytes>, index: int): Bytes {
    if index == -1 then Zeros() else MerkleRoot(pair, hash, branch, index)
  }

  /** What is hashed to join a hash with the other side. */
  ghost function Sides(hash: Bytes, otherSide: Bytes, index: int): (Bytes, Bytes) {
    if index % 2 == 1 then (otherSide, hash) else (hash, otherSide)
  }

  /** The pairs hashed on the path from a hash to the root. */
  ghost function Path(pair: (Bytes, Bytes) -> Bytes, hash: Bytes, branch: seq<Bytes>, index: int): seq<(Bytes, Bytes)>
    decreases |branch|
  {
    if branch == [] then []
    else [Sides(hash, branch[0], index)] + Path(pair, Join(pair, hash, branch[0], index), branch[1..], index / 2)
  }

  /** Two different pairs, one of each path, have the same hash. */
  ghost predicate Collision(pair: (Bytes, Bytes) -> Bytes, xs: seq<(Bytes, Bytes)>, ys: seq<(Bytes, Bytes)>) {
    exists x, y :: x in xs && y in ys && x != y && pair(x.0, x.1) == pair(y.0, y.1)
  }

  /** The position and the root determine the hash and its path, unless there is a collision on the two paths. */
  lemma {:induction false} SameRoot(pair: (Bytes, Bytes) -> Bytes, h1: Bytes, b1: seq<Bytes>, h2: Bytes, b2: seq<Bytes>, index: int)
    requires |b1| == |b2|
    requires MerkleRoot(pair, h1, b1, index) == MerkleRoot(pair, h2, b2, index)
    ensures (h1 == h2 && b1 == b2) || Collision(pair, Path(pair, h1, b1, index), Path(pair, h2, b2, index))
    decreases |b1|
  {
    if b1 != [] {
      var j1, j2 := Join(pair, h1, b1[0], index), Join(pair, h2, b2[0], index);
      var x, y := Sides(h1, b1[0], index), Sides(h2, b2[0], index);
      var xs, ys := Path(pair, j1, b1[1..], index / 2), Path(pair, j2, b2[1..], index / 2);
      SameRoot(pair, j1, b1[1..], j2, b2[1..], index / 2);
      if Collision(pair, xs, ys) {
        var u, v :| u in xs && v in ys && u != v && pair(u.0, u.1) == pair(v.0, v.1);
        assert u in [x] + xs && v in [y] + ys;
      } else if x != y {
        assert x in [x] + xs && y in [y] + ys;
      } else {
        assert b1 == [b1[0]] + b1[1..] && b2 == [b2[0]] + b2[1..];
      }
    }
  }

  /** Hashes have a fixed size. */
  ghost predicate HashSized(pair: (Bytes, Bytes) -> Bytes) {
    forall a, b :: |pair(a, b)| == HASH_SIZE
  }

  lemma {:induction false} RootSize(pair: (Bytes, Bytes) -> Bytes, hash: Bytes, branch: seq<Bytes>, index: int)
    requires HashSized(pair) && |hash| == HASH_SIZE
    ensures |MerkleRoot(pair, hash, branch, index)| == HASH_SIZE && |BranchRoot(pair, hash, branch, index)| == HASH_SIZE
    decreases |branch|
  {
    if branch != [] {
      RootSize(pair, Join(pair, hash, branch[0], index), branch[1..], index / 2);
    }
  }

  // ---------- trees ----------

  /** The level above: neighbours are hashed together, the left one first. */
  ghost function PairUp(pair: (Bytes, Bytes) -> Bytes, level: seq<Bytes>): (up: seq<Bytes>)
    requires |level| % 2 == 0
    ensures |up| == |level| / 2
  {
    seq(|level| / 2, i requires 0 <= i < |level| / 2 => pair(level[2 * i], level[2 * i + 1]))
  }

  /** The root of a tree of height h, level by level. */
  ghost function TreeRoot(pair: (Bytes, Bytes) -> Bytes, leaves: seq<Bytes>, h: nat): Bytes
    requires |leaves| == Pow2(h)
    decreases h
  {
    if h == 0 then leaves[0] else TreeRoot(pair, PairUp(pair, leaves), h - 1)
  }

  function Beside(i: nat): nat {
    if i % 2 == 1 then i - 1 else i + 1
  }

  /** On each level, what leaf i is hashed together with. */
  ghost function Siblings(pair: (Bytes, Bytes) -> Bytes, leaves: seq<Bytes>, h: nat, i: nat): (r: seq<Bytes>)
    requires |leaves| == Pow2(h) && i < |leaves|
    ensures |r| == h
    decreases h
  {
    if h == 0 then [] else [leaves[Beside(i)]] + Siblings(pair, PairUp(pair, leaves), h - 1, i / 2)
  }

  /** The branch of a leaf leads to the root of its tree. */
  lemma {:induction false} BranchOfTree(pair: (Bytes, Bytes) -> Bytes, leaves: seq<Bytes>, h: nat, i: nat)
    requires |leaves| == Pow2(h) && i < |leaves|
    ensures MerkleRoot(pair, leaves[i], Siblings(pair, leaves, h, i), i) == TreeRoot(pair, leaves, h)
    decreases h
  {
    hide PairUp, Join, Beside;
    if h > 0 {
      Pow2Next(h - 1);
      UpAt(pair, leaves, i);
      var up := PairUp(pair, leaves);
      var rest := Siblings(pair, up, h - 1, i / 2);
      BranchOfTree(pair, up, h - 1, i / 2);
      BranchStep(pair, leaves[i], leaves[Beside(i)], rest, i);
    }
  }

  lemma UpAt(pair: (Bytes, Bytes) -> Bytes, level: seq<Bytes>, i: nat)
    requires |level| % 2 == 0 && i < |level|
    ensures Beside(i) < |level| && Join(pair, level[i], level[Beside(i)], i) == PairUp(pair, level)[i / 2]
  {
    assert i == 2 * (i / 2) + i % 2;
  }

  lemma BranchStep(pair: (Bytes, Bytes) -> Bytes, hash: Bytes, side: Bytes, rest: seq<Bytes>, i: int)
    ensures MerkleRoot(pair, hash, [side] + rest, i) == MerkleRoot(pair, Join(pair, hash, side, i), rest, i / 2)
  {
    hide Join;
    assert ([side] + rest)[1..] == rest;
  }

  ghost predicate IsBranchOf(pair: (Bytes, Bytes) -> Bytes, hash: Bytes, branch: seq<Bytes>, leaves: seq<Bytes>, i: int) {
    |leaves| == Pow2(|branch|) && 0 <= i < |leaves| && hash == leaves[i] && branch == Siblings(pair, leaves, |branch|, i)
  }

  ghost predicate IsRootOf(pair: (Bytes, Bytes) -> Bytes, root: Bytes, leaves: seq<Bytes>, h: nat) {
    |leaves| == Pow2(h) && root == TreeRoot(pair, leaves, h)
  }

  /** The hash is leaf i, or the branch gives a collision with the branch of leaf i. */
  ghost predicate InTree(pair: (Bytes, Bytes) -> Bytes, hash: Bytes, branch: seq<Bytes>, leaves: seq<Bytes>, i: nat)
    requires |leaves| == Pow2(|branch|) && i < |leaves|
  {
    || (hash == leaves[i] && branch == Siblings(pair, leaves, |branch|, i))
    || Collision(pair, Path(pair, hash, branch, i), Path(pair, leaves[i], Siblings(pair, leaves, |branch|, i), i))
  }

  /** A branch that leads to the root of a tree is that of a leaf, unless there is a collision. */
  lemma RootInTree(pair: (Bytes, Bytes) -> Bytes, hash: Bytes, branch: seq<Bytes>, leaves: seq<Bytes>, i: nat)
    requires |leaves| == Pow2(|branch|) && i < |leaves| && MerkleRoot(pair, hash, branch, i) == TreeRoot(pair, leaves, |branch|)
    ensures InTree(pair, hash, branch, leaves, i)
  {
    BranchOfTree(pair, leaves, |branch|, i);
    SameRoot(pair, hash, branch, leaves[i], Siblings(pair, leaves, |branch|, i), i);
  }

  // ---------- computing the root ----------

  /**
    The branch of a leaf gives the root of its tree; and what gives the root of a tree is the
    branch of the leaf at that position, unless there is a collision.
  */
  method CheckMerkleBranch(pair: (Bytes, Bytes) -> Bytes, hash: Bytes, branch: seq<Bytes>, index: int) returns (root: Bytes)
    ensures root == BranchRoot(pair, hash, branch, index)
    ensures forall leaves :: IsBranchOf(pair, hash, branch, leaves, index) ==> IsRootOf(pair, root, leaves, |branch|)
    ensures forall leaves :: IsRootOf(pair, root, leaves, |branch|) && 0 <= index < |leaves| ==> InTree(pair, hash, branch, leaves, index)
  {
    if index == -1 {
      return seq(HASH_SIZE, _ => 0);
    }
    root := hash;
    var nIndex := index;
    assert branch[0..] == branch;
    for i := 0 to |branch|
      invariant MerkleRoot(pair, root, branch[i..], nIndex) == MerkleRoot(pair, hash, branch, index)
    {
      assert branch[i..][1..] == branch[i + 1..];
      root := Join(pair, root, branch[i], nIndex);
      nIndex := nIndex / 2;
    }
    assert branch[|branch|..] == [];
    BranchInTrees(pair, hash, branch, index);
  }

  lemma BranchInTrees(pair: (Bytes, Bytes) -> Bytes, hash: Bytes, branch: seq<Bytes>, index: int)
    ensures forall leaves :: IsBranchOf(pair, hash, branch, leaves, index) ==> IsRootOf(pair, MerkleRoot(pair, hash, branch, index), leaves, |branch|)
    ensures forall leaves :: IsRootOf(pair, MerkleRoot(pair, hash, branch, index), leaves, |branch|) && 0 <= index < |leaves|
              ==> InTree(pair, hash, branch, leaves, index)
  {
    hide Pow2, MerkleRoot, TreeRoot, Siblings, InTree;
    var root := MerkleRoot(pair, hash, branch, index);
    forall leaves | IsBranchOf(pair, hash, branch, leaves, index)
      ensures IsRootOf(pair, root, leaves, |branch|)
    {
      BranchOfTree(pair, leaves, |branch|, index);
    }
    forall leaves | IsRootOf(pair, root, leaves, |branch|) && 0 <= index < |leaves|
      ensures InTree(pair, hash, branch, leaves, index)
    {
      RootInTree(pair, hash, branch, leaves, index);
    }
  }
}
