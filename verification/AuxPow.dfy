/** The check of a merge-mining proof (src/auxpow.cpp:32-155). */
module AuxPows {
  import opened Integers
  import opened Limbs
  import opened MerkleTrees

  const MERGED_MINING_HEADER: Bytes := [0xfa, 0xbe, 0x6d, 0x6d]
  const MAX_BRANCH := 30

  // ---------- the expected position ----------

  const WORD: nat := 0x1_0000_0000

  /** One step of the generator, in 32 bits. */
  function Scramble(x: int): int {
    (x * 1103515245 + 12345) % WORD
  }

  /** The slot of a chain in a tree of height h, computed in 32-bit arithmetic. */
  method GetExpectedIndex(nonce: int, chainId: int, h: nat) returns (index: int)
    requires h <= MAX_BRANCH
    ensures index == ExpectedIndex(nonce, chainId, h)
  {
    var rand := nonce;
    rand := Scramble(rand);
    rand := (rand + chainId) % WORD;
    rand := Scramble(rand);
    WrapsAway(nonce, chainId, h);
    index := rand % ShiftOne(h);
  }

  /** The same computed without any wrap-around. */
  ghost function ExpectedIndex(nonce: int, chainId: int, h: nat): int {
    ((nonce * 1103515245 + 12345 + chainId) * 1103515245 + 12345) % Pow2(h)
  }

  lemma NonNegativeIndex(nonce: int, chainId: int, h: nat)
    ensures 0 <= ExpectedIndex(nonce, chainId, h) < Pow2(h)
  {
  }

  /** For one nonce, two chains clash for a slot exactly if their ids agree modulo the size of the tree. */
  lemma SlotClash(nonce: int, c1: int, c2: int, h: nat)
    ensures ExpectedIndex(nonce, c1, h) == ExpectedIndex(nonce, c2, h) <==> (c1 - c2) % Pow2(h) == 0
  {
    var a, n := 1103515245, Pow2(h);
    var x1, x2 := (nonce * a + 12345 + c1) * a + 12345, (nonce * a + 12345 + c2) * a + 12345;
    assert x1 - x2 == a * (c1 - c2);
    RemaindersAgree(x1, x2, n);
    OddFactor(a, c1 - c2, h);
  }

  lemma RemaindersAgree(x: int, y: int, n: int)
    requires n > 0
    ensures x % n == y % n <==> (x - y) % n == 0
  {
    var p, q, r := x / n, y / n, x % n - y % n;
    assert x == n * p + x % n && y == n * q + y % n;
    assert x - y == (p - q) * n + r;
    if r >= 0 {
      DivModUnique(x - y, n, p - q, r);
    } else {
      assert x - y == (p - q - 1) * n + (n + r);
      DivModUnique(x - y, n, p - q - 1, n + r);
    }
  }

  /** An odd factor does not change whether a number is divisible by a power of two. */
  lemma {:induction false} OddFactor(a: int, x: int, h: nat)
    requires a % 2 == 1
    ensures (a * x) % Pow2(h) == 0 <==> x % Pow2(h) == 0
    decreases h
  {
    if h > 0 {
      var n := Pow2(h - 1);
      Pow2Next(h - 1);
      hide Pow2;
      if x % 2 == 0 {
        var y := x / 2;
        OddFactor(a, y, h - 1);
        Doubled(y, n);
        Doubled(a * y, n);
        assert a * x == 2 * (a * y);
      } else {
        OddProduct(a, x);
        OddIndivisible(x, n);
        OddIndivisible(a * x, n);
      }
    }
  }

  lemma Doubled(y: int, n: int)
    requires n > 0
    ensures (2 * y) % (2 * n) == 0 <==> y % n == 0
  {
    var q := y / n;
    assert y == n * q + y % n;
    assert 2 * y == q * (2 * n) + 2 * (y % n);
    DivModUnique(2 * y, 2 * n, q, 2 * (y % n));
  }

  lemma OddProduct(a: int, x: int)
    requires a % 2 == 1 && x % 2 == 1
    ensures (a * x) % 2 == 1
  {
    var b, y := a / 2, x / 2;
    assert a * x == 2 * (b * x + y) + 1;
  }

  lemma OddIndivisible(x: int, n: int)
    requires n > 0 && x % 2 == 1
    ensures x % (2 * n) != 0
  {
    var q := x / (2 * n);
    assert x == (2 * n) * q + x % (2 * n) && (2 * n) * q == 2 * (n * q);
  }

  function ShiftOne(h: nat): (r: nat)
    ensures r == Pow2(h) && r > 0
  {
    if h == 0 then 1 else 2 * ShiftOne(h - 1)
  }

  /** Reducing modulo 2^32 does not matter for a final result modulo a smaller power of two. */
  lemma WrapsAway(nonce: int, chainId: int, h: nat)
    requires h <= MAX_BRANCH
    ensures Scramble((Scramble(nonce) + chainId) % WORD) % Pow2(h) == ExpectedIndex(nonce, chainId, h)
  {
    hide Pow2;
    Pow2Split(h);
    var d, k := Pow2(h), Pow2(32 - h);
    var a := nonce * 1103515245 + 12345;
    var q1 := a / WORD;
    var x1 := a % WORD;
    assert a == WORD * q1 + x1;
    var b := x1 + chainId;
    var q2 := b / WORD;
    var x2 := b % WORD;
    assert b == WORD * q2 + x2;
    var c := x2 * 1103515245 + 12345;
    var q3 := c / WORD;
    assert c == WORD * q3 + c % WORD;
    var full := (a + chainId) * 1103515245 + 12345;
    assert full == c % WORD + WORD * ((q1 + q2) * 1103515245 + q3);
    SameRemainder(full, c % WORD, (q1 + q2) * 1103515245 + q3, d, k);
  }

  lemma SameRemainder(x: int, y: int, q: int, d: nat, k: nat)
    requires d > 0 && d * k == WORD && x == y + WORD * q
    ensures y % d == x % d
  {
    var r := y / d;
    assert y == d * r + y % d;
    assert WORD * q == d * (k * q) by {
      Associate(d, k, q);
    }
    assert (r + k * q) * d == d * r + d * (k * q);
    DivModUnique(x, d, r + k * q, y % d);
  }

  lemma Associate(d: int, k: int, q: int)
    ensures (d * k) * q == d * (k * q)
  {
  }

  // ---------- searching ----------

  ghost predicate At(script: Bytes, pattern: Bytes, pos: int) {
    0 <= pos && pos + |pattern| <= |script| && script[pos..pos + |pattern|] == pattern
  }

  /** The first occurrence from `start` on, or the end of the script if there is none. */
  ghost predicate IsFirst(script: Bytes, pattern: Bytes, start: nat, pos: int) {
    && (forall i :: start <= i < pos ==> !At(script, pattern, i))
    && (pos == |script| || (start <= pos < |script| && At(script, pattern, pos)))
  }

  lemma FirstUnique(script: Bytes, pattern: Bytes, start: nat, p: int, q: int)
    requires IsFirst(script, pattern, start, p) && IsFirst(script, pattern, start, q) && pattern != []
    ensures p == q
  {
    assert p < q ==> !At(script, pattern, p);
    assert q < p ==> !At(script, pattern, q);
  }

  method Search(script: Bytes, pattern: Bytes, start: nat) returns (pos: nat)
    requires pattern != [] && start <= |script|
    ensures IsFirst(script, pattern, start, pos) && pos <= |script|
  {
    pos := start;
    while pos < |script|
      invariant start <= pos <= |script| && forall i :: start <= i < pos ==> !At(script, pattern, i)
    {
      if pos + |pattern| <= |script| && script[pos..pos + |pattern|] == pattern {
        return;
      }
      pos := pos + 1;
    }
  }

  /** A 32-bit little-endian number. */
  function Word(script: Bytes, pos: nat): int
    requires pos + 4 <= |script|
  {
    script[pos] + 0x100 * (script[pos + 1] + 0x100 * (script[pos + 2] + 0x100 * script[pos + 3]))
  }

  /** Its four bytes are the digits in base 256, the lowest first. */
  lemma WordDigits(script: Bytes, pos: nat)
    requires pos + 4 <= |script| && forall i :: pos <= i < pos + 4 ==> 0 <= script[i] < 256
    ensures var w := Word(script, pos);
            && 0 <= w < 0x1_0000_0000 && script[pos] == w % 256 && script[pos + 1] == w / 256 % 256
            && script[pos + 2] == w / 65536 % 256 && script[pos + 3] == w / 16777216
  {
    var a, b, c, d := script[pos], script[pos + 1], script[pos + 2], script[pos + 3];
    var w := Word(script, pos);
    assert w == a + 256 * b + 65536 * c + 16777216 * d;
    assert w / 256 == b + 256 * c + 65536 * d;
    assert w / 65536 == c + 256 * d;
    assert w / 16777216 == d;
  }

  // ---------- the check ----------

  /** The parts of a proof that the check looks at; `script` is that of the first input, if there is one. */
  datatype AuxPow = AuxPow(
    index: int, txHash: Bytes, merkleBranch: seq<Bytes>, chainMerkleBranch: seq<Bytes>, chainIndex: int,
    parentMerkleRoot: Bytes, parentChainId: int, hasInput: bool, script: Bytes)

  function Reversed(s: Bytes): (r: Bytes)
    ensures |r| == |s|
  {
    seq(|s|, i requires 0 <= i < |s| => s[|s| - 1 - i])
  }

  lemma ReversedInjective(a: Bytes, b: Bytes)
    requires Reversed(a) == Reversed(b)
    ensures a == b
  {
    assert |a| == |b|;
    forall i | 0 <= i < |a|
      ensures a[i] == b[i]
    {
      assert Reversed(a)[|a| - 1 - i] == a[i] && Reversed(b)[|a| - 1 - i] == b[i];
    }
  }

  /** Where the chain merkle root may start: right after the only header, or early if there is no header. */
  ghost predicate WellPlaced(script: Bytes, head: int, pc: int) {
    if head != |script|
    then (forall i :: head < i ==> !At(script, MERGED_MINING_HEADER, i)) && head + |MERGED_MINING_HEADER| == pc
    else pc <= 20
  }

  /** The proof commits the script to this aux block hash, for this chain. */
  ghost predicate Commits(pair: (Bytes, Bytes) -> Bytes, aux: AuxPow, hash: Bytes, chainId: int, head: int, pc: int) {
    var root := Reversed(BranchRoot(pair, hash, aux.chainMerkleBranch, aux.chainIndex));
    && IsFirst(aux.script, MERGED_MINING_HEADER, 0, head)
    && IsFirst(aux.script, root, 0, pc) && pc != |aux.script| && WellPlaced(aux.script, head, pc)
    && 0 <= pc && pc + |root| + 8 <= |aux.script|
    && Word(aux.script, pc + |root|) == Pow2(|aux.chainMerkleBranch|)
    && aux.chainIndex == ExpectedIndex(Word(aux.script, pc + |root| + 4), chainId, |aux.chainMerkleBranch|)
  }

  /** The proof passes the check. */
  ghost predicate Passes(pair: (Bytes, Bytes) -> Bytes, aux: AuxPow, hash: Bytes, chainId: int, strictChainId: bool) {
    && aux.index == 0
    && !(strictChainId && aux.parentChainId == chainId)
    && |aux.chainMerkleBranch| <= MAX_BRANCH
    && BranchRoot(pair, aux.txHash, aux.merkleBranch, aux.index) == aux.parentMerkleRoot
    && aux.hasInput
    && exists head: int, pc: int :: Commits(pair, aux, hash, chainId, head, pc)
  }

  lemma OnlyPlaces(pair: (Bytes, Bytes) -> Bytes, aux: AuxPow, hash: Bytes, chainId: int, head: int, pc: int)
    requires IsFirst(aux.script, MERGED_MINING_HEADER, 0, head)
    requires var root := Reversed(BranchRoot(pair, hash, aux.chainMerkleBranch, aux.chainIndex));
             root != [] && IsFirst(aux.script, root, 0, pc)
    ensures (exists h: int, p: int :: Commits(pair, aux, hash, chainId, h, p)) <==> Commits(pair, aux, hash, chainId, head, pc)
  {
    hide Pow2, ExpectedIndex, Word, MerkleRoot;
    var root := Reversed(BranchRoot(pair, hash, aux.chainMerkleBranch, aux.chainIndex));
    forall h: int, p: int | Commits(pair, aux, hash, chainId, h, p)
      ensures h == head && p == pc
    {
      FirstUnique(aux.script, MERGED_MINING_HEADER, 0, h, head);
      FirstUnique(aux.script, root, 0, p, pc);
    }
  }

  /** The coinbase transaction is the first of the parent's transactions, whatever tree its root is of, unless there is a collision. */
  ghost predicate FirstInParent(pair: (Bytes, Bytes) -> Bytes, aux: AuxPow) {
    forall leaves :: IsRootOf(pair, aux.parentMerkleRoot, leaves, |aux.merkleBranch|) ==> InTree(pair, aux.txHash, aux.merkleBranch, leaves, 0)
  }

  /** The bytes at pc are the root of the chain tree, with its size and the nonce behind; the hash is the leaf of this chain, unless there is a collision. */
  ghost predicate LeafOfChain(pair: (Bytes, Bytes) -> Bytes, aux: AuxPow, hash: Bytes, chainId: int, pc: int) {
    && 0 <= pc && pc + HASH_SIZE + 8 <= |aux.script|
    && var h := |aux.chainMerkleBranch|;
       var slot := ExpectedIndex(Word(aux.script, pc + HASH_SIZE + 4), chainId, h);
       && Word(aux.script, pc + HASH_SIZE) == Pow2(h) && 0 <= slot < Pow2(h)
       && forall leaves: seq<Bytes> :: |leaves| == Pow2(h) && aux.script[pc..pc + HASH_SIZE] == Reversed(TreeRoot(pair, leaves, h))
            ==> InTree(pair, hash, aux.chainMerkleBranch, leaves, slot)
  }

  /** The bytes at pc follow the four bytes of the header, or start within the first 21 bytes of a script without it. */
  ghost predicate Marked(script: Bytes, pc: int) {
    var header := [0xfa, 0xbe, 0x6d, 0x6d];
    At(script, header, pc - 4) || (pc <= 20 && forall i :: !At(script, header, i))
  }

  lemma PassesParent(pair: (Bytes, Bytes) -> Bytes, aux: AuxPow, hash: Bytes, chainId: int, strictChainId: bool)
    requires Passes(pair, aux, hash, chainId, strictChainId)
    ensures FirstInParent(pair, aux)
  {
    hide Commits, InTree;
    BranchInTrees(pair, aux.txHash, aux.merkleBranch, 0);
  }

  lemma PassesChain(pair: (Bytes, Bytes) -> Bytes, aux: AuxPow, hash: Bytes, chainId: int, strictChainId: bool)
    requires HashSized(pair) && |hash| == HASH_SIZE && Passes(pair, aux, hash, chainId, strictChainId)
    ensures exists pc :: LeafOfChain(pair, aux, hash, chainId, pc) && Marked(aux.script, pc)
    ensures forall i, j :: At(aux.script, MERGED_MINING_HEADER, i) && At(aux.script, MERGED_MINING_HEADER, j) ==> i == j
  {
    var head: int, pc: int :| Commits(pair, aux, hash, chainId, head, pc);
    CommitsLeaf(pair, aux, hash, chainId, head, pc);
    CommitsHeader(pair, aux, hash, chainId, head, pc);
  }

  lemma CommitsHeader(pair: (Bytes, Bytes) -> Bytes, aux: AuxPow, hash: Bytes, chainId: int, head: int, pc: int)
    requires Commits(pair, aux, hash, chainId, head, pc)
    ensures Marked(aux.script, pc)
    ensures forall i, j :: At(aux.script, MERGED_MINING_HEADER, i) && At(aux.script, MERGED_MINING_HEADER, j) ==> i == j
  {
    hide Pow2, ExpectedIndex, Word, MerkleRoot;
    forall i | At(aux.script, MERGED_MINING_HEADER, i)
      ensures i == head
    {
      assert i < |aux.script|;
    }
  }

  lemma CommitsLeaf(pair: (Bytes, Bytes) -> Bytes, aux: AuxPow, hash: Bytes, chainId: int, head: int, pc: int)
    requires HashSized(pair) && |hash| == HASH_SIZE && Commits(pair, aux, hash, chainId, head, pc)
    ensures LeafOfChain(pair, aux, hash, chainId, pc)
  {
    hide Pow2, Word, MerkleRoot, IsFirst, WellPlaced;
    var h, root := |aux.chainMerkleBranch|, BranchRoot(pair, hash, aux.chainMerkleBranch, aux.chainIndex);
    RootSize(pair, hash, aux.chainMerkleBranch, aux.chainIndex);
    NonNegativeIndex(Word(aux.script, pc + HASH_SIZE + 4), chainId, h);
    RootPlaced(aux.script, Reversed(root), pc);
    hide ExpectedIndex;
    forall leaves: seq<Bytes> | |leaves| == Pow2(h) && aux.script[pc..pc + HASH_SIZE] == Reversed(TreeRoot(pair, leaves, h))
      ensures InTree(pair, hash, aux.chainMerkleBranch, leaves, aux.chainIndex)
    {
      ReversedInjective(root, TreeRoot(pair, leaves, h));
      RootInTree(pair, hash, aux.chainMerkleBranch, leaves, aux.chainIndex);
    }
  }

  lemma RootPlaced(script: Bytes, root: Bytes, pc: int)
    requires IsFirst(script, root, 0, pc) && pc != |script| && 0 <= pc && pc + |root| <= |script|
    ensures script[pc..pc + |root|] == root
  {
  }

  /** All conditions of the check, one after the other. */
  method CheckConditions(pair: (Bytes, Bytes) -> Bytes, aux: AuxPow, hash: Bytes, chainId: int, strictChainId: bool) returns (ok: bool)
    requires HashSized(pair) && |hash| == HASH_SIZE
    ensures ok <==> Passes(pair, aux, hash, chainId, strictChainId)
  {
    hide IsBranchOf, IsRootOf, InTree, Word, Reversed;
    hide Pow2, ExpectedIndex, MerkleRoot, IsFirst, At;
    if aux.index != 0 {
      return false;
    }
    if strictChainId && aux.parentChainId == chainId {
      return false;
    }
    if |aux.chainMerkleBranch| > MAX_BRANCH {
      return false;
    }
    var rootHash := CheckMerkleBranch(pair, hash, aux.chainMerkleBranch, aux.chainIndex);
    var root := Reversed(rootHash);
    RootSize(pair, hash, aux.chainMerkleBranch, aux.chainIndex);
    var parentRoot := CheckMerkleBranch(pair, aux.txHash, aux.merkleBranch, aux.index);
    if parentRoot != aux.parentMerkleRoot {
      return false;
    }
    if !aux.hasInput {
      return false;
    }
    var script := aux.script;
    var head := Search(script, MERGED_MINING_HEADER, 0);
    var pc := Search(script, root, 0);
    OnlyPlaces(pair, aux, hash, chainId, head, pc);
    if pc == |script| {
      return false;
    }
    if head != |script| {
      var second := Search(script, MERGED_MINING_HEADER, head + 1);
      OneHeader(script, head, second);
      if second != |script| {
        return false;
      }
      if head + |MERGED_MINING_HEADER| != pc {
        return false;
      }
    } else if pc > 20 {
      return false;
    }
    pc := pc + |root|;
    if |script| - pc < 8 {
      return false;
    }
    var size := Word(script, pc);
    var height := |aux.chainMerkleBranch|;
    if size != ShiftOne(height) {
      return false;
    }
    var nonce := Word(script, pc + 4);
    var expected := GetExpectedIndex(nonce, chainId, height);
    return aux.chainIndex == expected;
  }

  /**
    Checks the proof for an aux block hash and a chain id. An accepted proof is for a parent of
    another chain, if that is asked for, whose first transaction is the coinbase; its script has
    at most one header, and commits to a tree in which the hash is the leaf of this chain.
  */
  method CheckProof(pair: (Bytes, Bytes) -> Bytes, aux: AuxPow, hash: Bytes, chainId: int, strictChainId: bool) returns (ok: bool)
    requires HashSized(pair) && |hash| == HASH_SIZE
    ensures ok <==> Passes(pair, aux, hash, chainId, strictChainId)
    ensures ok ==> aux.hasInput && |aux.chainMerkleBranch| <= 30 && (strictChainId ==> aux.parentChainId != chainId) && FirstInParent(pair, aux)
    ensures ok ==> forall i, j :: At(aux.script, MERGED_MINING_HEADER, i) && At(aux.script, MERGED_MINING_HEADER, j) ==> i == j
    ensures ok ==> exists pc :: LeafOfChain(pair, aux, hash, chainId, pc) && Marked(aux.script, pc)
  {
    hide Commits, FirstInParent, LeafOfChain, Marked;
    ok := CheckConditions(pair, aux, hash, chainId, strictChainId);
    if ok {
      PassesParent(pair, aux, hash, chainId, strictChainId);
      PassesChain(pair, aux, hash, chainId, strictChainId);
    }
  }

  lemma OneHeader(script: Bytes, head: nat, second: nat)
    requires head < |script| && IsFirst(script, MERGED_MINING_HEADER, head + 1, second)
    ensures second == |script| <==> forall i :: head < i ==> !At(script, MERGED_MINING_HEADER, i)
  {
  }

  // ---------- honest proofs ----------

  /** The proof made from a tree of parent transactions, a tree of chain hashes, and a coinbase script. */
  ghost function Proof(pair: (Bytes, Bytes) -> Bytes, leaves: seq<Bytes>, h: nat, chainLeaves: seq<Bytes>, height: nat, slot: nat, script: Bytes, parentChainId: int): AuxPow
    requires |leaves| == Pow2(h) && |chainLeaves| == Pow2(height) && slot < |chainLeaves|
  {
    AuxPow(0, leaves[0], Siblings(pair, leaves, h, 0), Siblings(pair, chainLeaves, height, slot), slot,
           TreeRoot(pair, leaves, h), parentChainId, true, script)
  }

  /** The script has the header once, directly followed by the root, which does not occur before, the size and the nonce. */
  ghost predicate Announces(script: Bytes, head: nat, root: Bytes, height: nat) {
    && head + 4 + |root| + 8 <= |script|
    && At(script, MERGED_MINING_HEADER, head) && (forall i :: i != head ==> !At(script, MERGED_MINING_HEADER, i))
    && At(script, root, head + 4) && (forall i :: 0 <= i < head + 4 ==> !At(script, root, i))
    && Word(script, head + 4 + |root|) == Pow2(height)
  }

  /** A proof made as intended passes: for the coinbase of a parent of another chain, whose script announces the tree that has the hash in the slot of this chain. */
  lemma HonestPasses(pair: (Bytes, Bytes) -> Bytes, leaves: seq<Bytes>, h: nat, chainLeaves: seq<Bytes>, height: nat, script: Bytes, head: nat,
                     chainId: int, parentChainId: int)
    requires |leaves| == Pow2(h) && |chainLeaves| == Pow2(height) && height <= MAX_BRANCH && parentChainId != chainId
    requires var root := Reversed(TreeRoot(pair, chainLeaves, height)); |root| == HASH_SIZE && Announces(script, head, root, height)
    ensures var slot := ExpectedIndex(Word(script, head + 4 + HASH_SIZE + 4), chainId, height);
            && 0 <= slot < |chainLeaves|
            && Passes(pair, Proof(pair, leaves, h, chainLeaves, height, slot, script, parentChainId), chainLeaves[slot], chainId, true)
  {
    hide Pow2, ExpectedIndex, Word, MerkleRoot, TreeRoot, Siblings;
    var slot := ExpectedIndex(Word(script, head + 4 + HASH_SIZE + 4), chainId, height);
    NonNegativeIndex(Word(script, head + 4 + HASH_SIZE + 4), chainId, height);
    var aux := Proof(pair, leaves, h, chainLeaves, height, slot, script, parentChainId);
    BranchOfTree(pair, leaves, h, 0);
    BranchOfTree(pair, chainLeaves, height, slot);
    assert Commits(pair, aux, chainLeaves[slot], chainId, head, head + 4);
  }

  // ---------- uniqueness ----------

  ghost predicate HasHeader(script: Bytes) {
    exists pos :: At(script, MERGED_MINING_HEADER, pos)
  }

  /** A place where the check may find a root: 32 bytes that do not occur earlier, before the size of a tree and a nonce. */
  ghost predicate Place(script: Bytes, p: int) {
    && 0 <= p && p + HASH_SIZE + 8 <= |script| && IsFirst(script, script[p..p + HASH_SIZE], 0, p)
    && exists h: nat :: h <= MAX_BRANCH && Word(script, p + HASH_SIZE) == Pow2(h)
  }

  /** The script fixes the place of the root: it has the header, or only one place early enough. */
  ghost predicate OnePlace(script: Bytes) {
    HasHeader(script) || forall p, q :: Place(script, p) && Place(script, q) && p <= 20 && q <= 20 ==> p == q
  }

  /** The root committed to is at such a place. */
  lemma AtPlace(pair: (Bytes, Bytes) -> Bytes, aux: AuxPow, hash: Bytes, chainId: int, head: int, pc: int)
    requires HashSized(pair) && |hash| == HASH_SIZE && |aux.chainMerkleBranch| <= MAX_BRANCH
    requires Commits(pair, aux, hash, chainId, head, pc)
    ensures Place(aux.script, pc) && HashSized(pair)
    ensures aux.script[pc..pc + HASH_SIZE] == Reversed(BranchRoot(pair, hash, aux.chainMerkleBranch, aux.chainIndex))
    ensures head == |aux.script| <==> !HasHeader(aux.script)
    ensures head == |aux.script| ==> pc <= 20
  {
    hide Pow2, ExpectedIndex, Word, MerkleRoot;
    RootSize(pair, hash, aux.chainMerkleBranch, aux.chainIndex);
    var root := Reversed(BranchRoot(pair, hash, aux.chainMerkleBranch, aux.chainIndex));
    assert At(aux.script, root, pc);
    HeaderFound(aux.script, head);
  }

  lemma HeaderFound(script: Bytes, head: int)
    requires IsFirst(script, MERGED_MINING_HEADER, 0, head)
    ensures head == |script| <==> !HasHeader(script)
  {
    if pos :| At(script, MERGED_MINING_HEADER, pos) {
      assert head <= pos;
    }
  }

  /** Two proofs for one script commit at the same place. */
  lemma SamePlace(pair: (Bytes, Bytes) -> Bytes, a: AuxPow, h1: Bytes, b: AuxPow, h2: Bytes, chainId: int, p1: int, head1: int, p2: int, head2: int)
    requires HashSized(pair) && |h1| == |h2| == HASH_SIZE && |a.chainMerkleBranch| <= MAX_BRANCH && |b.chainMerkleBranch| <= MAX_BRANCH
    requires a.script == b.script && OnePlace(a.script)
    requires Commits(pair, a, h1, chainId, head1, p1) && Commits(pair, b, h2, chainId, head2, p2)
    ensures p1 == p2
  {
    AtPlace(pair, a, h1, chainId, head1, p1);
    AtPlace(pair, b, h2, chainId, head2, p2);
    hide Pow2, ExpectedIndex, Word, MerkleRoot, Place;
    FirstUnique(a.script, MERGED_MINING_HEADER, 0, head1, head2);
  }

  lemma {:induction false} SameHeight(a: nat, b: nat)
    requires Pow2(a) == Pow2(b)
    ensures a == b
  {
    if a < b {
      Pow2Monotone(a + 1, b);
    } else if b < a {
      Pow2Monotone(b + 1, a);
    }
  }

  /** Both proofs are for the same hash, by the same path to the same position. */
  ghost predicate SameProof(a: AuxPow, h1: Bytes, b: AuxPow, h2: Bytes) {
    h1 == h2 && a.chainMerkleBranch == b.chainMerkleBranch && a.chainIndex == b.chainIndex
  }

  ghost predicate PathsCollide(pair: (Bytes, Bytes) -> Bytes, a: AuxPow, h1: Bytes, b: AuxPow, h2: Bytes) {
    Collision(pair, Path(pair, h1, a.chainMerkleBranch, a.chainIndex), Path(pair, h2, b.chainMerkleBranch, b.chainIndex))
  }

  /** For a script that fixes the place of the root, and one chain id, at most one aux block hash can pass, unless there is a collision. */
  lemma Unique(pair: (Bytes, Bytes) -> Bytes, a: AuxPow, h1: Bytes, b: AuxPow, h2: Bytes, chainId: int, strict1: bool, strict2: bool)
    requires HashSized(pair) && |h1| == |h2| == HASH_SIZE && a.script == b.script && OnePlace(a.script)
    requires Passes(pair, a, h1, chainId, strict1) && Passes(pair, b, h2, chainId, strict2)
    ensures SameProof(a, h1, b, h2) || PathsCollide(pair, a, h1, b, h2)
  {
    hide Pow2, ExpectedIndex, Word, MerkleRoot, OnePlace, Path, Collision, IsFirst;
    var head1: int, p1: int :| Commits(pair, a, h1, chainId, head1, p1);
    var head2: int, p2: int :| Commits(pair, b, h2, chainId, head2, p2);
    SamePlace(pair, a, h1, b, h2, chainId, p1, head1, p2, head2);
    AtPlace(pair, a, h1, chainId, head1, p1);
    AtPlace(pair, b, h2, chainId, head2, p2);
    RootSize(pair, h1, a.chainMerkleBranch, a.chainIndex);
    RootSize(pair, h2, b.chainMerkleBranch, b.chainIndex);
    var r1 := BranchRoot(pair, h1, a.chainMerkleBranch, a.chainIndex);
    var r2 := BranchRoot(pair, h2, b.chainMerkleBranch, b.chainIndex);
    ReversedInjective(r1, r2);
    SameHeight(|a.chainMerkleBranch|, |b.chainMerkleBranch|);
    NonNegativeIndex(Word(a.script, p1 + HASH_SIZE + 4), chainId, |a.chainMerkleBranch|);
    SameRoot(pair, h1, a.chainMerkleBranch, h2, b.chainMerkleBranch, a.chainIndex);
  }

  // ---------- scripts with several places ----------

  /** A pair hash that keeps the left side. */
  function Left(a: Bytes, b: Bytes): (r: Bytes)
    ensures |r| == HASH_SIZE
  {
    if |a| == HASH_SIZE then a else seq(HASH_SIZE, _ => 0)
  }

  ghost function Repeated(root: Bytes, h: nat): seq<Bytes> {
    seq(h, _ => root)
  }

  /** A path of equal hashes leads to that hash. */
  lemma {:induction false} RepeatedRoot(root: Bytes, h: nat, index: int)
    requires |root| == HASH_SIZE
    ensures MerkleRoot(Left, root, Repeated(root, h), index) == root
    ensures forall x :: x in Path(Left, root, Repeated(root, h), index) ==> x == (root, root)
  {
    if h > 0 {
      RepeatedRoot(root, h - 1, index / 2);
      assert Repeated(root, h)[1..] == Repeated(root, h - 1);
    }
  }

  /** The root found at a place. */
  ghost function RootAt(script: Bytes, p: int): (r: Bytes)
    requires 0 <= p && p + HASH_SIZE + 8 <= |script|
    ensures |r| == HASH_SIZE
  {
    Reversed(script[p..p + HASH_SIZE])
  }

  /** A proof that uses the root at place p. */
  ghost function ProofAt(script: Bytes, p: int, h: nat, chainId: int): AuxPow
    requires 0 <= p && p + HASH_SIZE + 8 <= |script|
  {
    var index := ExpectedIndex(Word(script, p + HASH_SIZE + 4), chainId, h);
    AuxPow(0, Zeros(), [], Repeated(RootAt(script, p), h), index, Zeros(), chainId + 1, true, script)
  }

  lemma ReversedTwice(s: Bytes)
    ensures Reversed(Reversed(s)) == s
  {
  }

  lemma PlacePasses(script: Bytes, p: int, h: nat, chainId: int)
    requires !HasHeader(script) && Place(script, p) && p <= 20 && h <= MAX_BRANCH && Word(script, p + HASH_SIZE) == Pow2(h)
    ensures Passes(Left, ProofAt(script, p, h, chainId), RootAt(script, p), chainId, true)
  {
    hide Pow2, ExpectedIndex, Word, MerkleRoot, Path;
    var aux, root := ProofAt(script, p, h, chainId), RootAt(script, p);
    NonNegativeIndex(Word(script, p + HASH_SIZE + 4), chainId, h);
    RepeatedRoot(root, h, aux.chainIndex);
    ReversedTwice(script[p..p + HASH_SIZE]);
    assert IsFirst(script, MERGED_MINING_HEADER, 0, |script|);
    assert Commits(Left, aux, root, chainId, |script|, p);
    EmptyRoot(Zeros());
  }

  lemma EmptyRoot(hash: Bytes)
    ensures BranchRoot(Left, hash, [], 0) == hash
  {
  }

  lemma SamePlaceOfRoot(script: Bytes, p: int, q: int)
    requires Place(script, p) && Place(script, q) && RootAt(script, p) == RootAt(script, q)
    ensures p == q
  {
    hide Pow2, Word;
    ReversedInjective(script[p..p + HASH_SIZE], script[q..q + HASH_SIZE]);
    FirstUnique(script, script[p..p + HASH_SIZE], 0, p, q);
  }

  /** A script with two early places and no header lets two different hashes pass, without any collision. */
  lemma TwoPlaces(script: Bytes, p: int, q: int, chainId: int) returns (a: AuxPow, h1: Bytes, b: AuxPow, h2: Bytes)
    requires !HasHeader(script) && Place(script, p) && Place(script, q) && p <= 20 && q <= 20 && p != q
    ensures a.script == b.script == script && |h1| == |h2| == HASH_SIZE && HashSized(Left)
    ensures Passes(Left, a, h1, chainId, true) && Passes(Left, b, h2, chainId, true)
    ensures h1 != h2 && !PathsCollide(Left, a, h1, b, h2)
  {
    var i: nat :| i <= MAX_BRANCH && Word(script, p + HASH_SIZE) == Pow2(i);
    var j: nat :| j <= MAX_BRANCH && Word(script, q + HASH_SIZE) == Pow2(j);
    hide Pow2, ExpectedIndex, Word, MerkleRoot, Path, Passes;
    PlacePasses(script, p, i, chainId);
    PlacePasses(script, q, j, chainId);
    a, h1, b, h2 := ProofAt(script, p, i, chainId), RootAt(script, p), ProofAt(script, q, j, chainId), RootAt(script, q);
    if h1 == h2 {
      SamePlaceOfRoot(script, p, q);
    }
    RepeatedRoot(h1, i, a.chainIndex);
    RepeatedRoot(h2, j, b.chainIndex);
  }

  /** Two proofs for a script that both pass are the same, or there is a collision. */
  ghost predicate Agree(pair: (Bytes, Bytes) -> Bytes, script: Bytes, chainId: int, a: AuxPow, h1: Bytes, b: AuxPow, h2: Bytes, strict1: bool, strict2: bool) {
    HashSized(pair) && |h1| == |h2| == HASH_SIZE && a.script == b.script == script
    && Passes(pair, a, h1, chainId, strict1) && Passes(pair, b, h2, chainId, strict2)
    ==> SameProof(a, h1, b, h2) || PathsCollide(pair, a, h1, b, h2)
  }

  /** The check lets at most one aux block hash pass for a script exactly if the script fixes the place of the root. */
  lemma UniqueExactly(script: Bytes, chainId: int)
    ensures OnePlace(script) <==>
            forall pair: (Bytes, Bytes) -> Bytes, a: AuxPow, h1: Bytes, b: AuxPow, h2: Bytes, strict1: bool, strict2: bool ::
              Agree(pair, script, chainId, a, h1, b, h2, strict1, strict2)
  {
    hide Passes, PathsCollide, HashSized, Place;
    if OnePlace(script) {
      forall pair: (Bytes, Bytes) -> Bytes, a: AuxPow, h1: Bytes, b: AuxPow, h2: Bytes, strict1: bool, strict2: bool
        ensures Agree(pair, script, chainId, a, h1, b, h2, strict1, strict2)
      {
        if HashSized(pair) && |h1| == |h2| == HASH_SIZE && a.script == b.script == script
           && Passes(pair, a, h1, chainId, strict1) && Passes(pair, b, h2, chainId, strict2) {
          Unique(pair, a, h1, b, h2, chainId, strict1, strict2);
        }
      }
    } else {
      var p, q :| Place(script, p) && Place(script, q) && p <= 20 && q <= 20 && p != q;
      var a, h1, b, h2 := TwoPlaces(script, p, q, chainId);
      assert !Agree(Left, script, chainId, a, h1, b, h2, true, true);
    }
  }

  /** A script without the header, with a tree of size 1 after the bytes at 0 and after those at 20. */
  function TwoRoots(): (s: Bytes)
    ensures |s| == 60 && s[32..36] == s[52..56] == [1, 0, 0, 0]
  {
    seq(60, i => if i == 32 || i == 52 then 1 else if 32 < i < 36 || 52 < i < 56 then 0 else i + 2)
  }

  /** One proof with that script passes for two different hashes, whatever the pair hash. */
  lemma TwoHashes(pair: (Bytes, Bytes) -> Bytes, chainId: int)
    ensures var aux := ProofAt(TwoRoots(), 0, 0, chainId);
            var h1, h2 := RootAt(TwoRoots(), 0), RootAt(TwoRoots(), 20);
            h1 != h2 && Passes(pair, aux, h1, chainId, true) && Passes(pair, aux, h2, chainId, true)
  {
    var s := TwoRoots();
    TwoRootsPlace(0);
    TwoRootsPlace(20);
    RootPasses(pair, s, 0, 0, chainId);
    RootPasses(pair, s, 0, 20, chainId);
    assert Reversed(s[0..32])[31] == s[0] && Reversed(s[20..52])[31] == s[20];
  }

  lemma NotAt(script: Bytes, pattern: Bytes, i: nat)
    requires i < |script| && pattern != [] && script[i] != pattern[0]
    ensures !At(script, pattern, i)
  {
    assert i + |pattern| <= |script| ==> script[i..i + |pattern|][0] == script[i];
  }

  lemma TwoRootsPlace(p: int)
    requires p == 0 || p == 20
    ensures var s := TwoRoots(); IsFirst(s, MERGED_MINING_HEADER, 0, 60) && IsFirst(s, s[p..p + 32], 0, p) && Word(s, p + 32) == 1
  {
    var s := TwoRoots();
    var bytes := s[p..p + 32];
    forall i | 0 <= i < p
      ensures !At(s, bytes, i)
    {
      NotAt(s, bytes, i);
    }
    forall i | 0 <= i < 60
      ensures !At(s, MERGED_MINING_HEADER, i)
    {
      NotAt(s, MERGED_MINING_HEADER, i);
    }
  }

  /** A proof for a tree of size 1 passes for every root at an early place before that size. */
  lemma RootPasses(pair: (Bytes, Bytes) -> Bytes, script: Bytes, q: int, p: int, chainId: int)
    requires IsFirst(script, MERGED_MINING_HEADER, 0, |script|) && 0 <= p <= 20 && 0 <= q <= 20 && |script| >= 60
    requires IsFirst(script, script[p..p + HASH_SIZE], 0, p) && Word(script, p + HASH_SIZE) == 1
    ensures Passes(pair, ProofAt(script, q, 0, chainId), RootAt(script, p), chainId, true)
  {
    hide Word, IsFirst;
    var aux, root := ProofAt(script, q, 0, chainId), RootAt(script, p);
    ReversedTwice(script[p..p + HASH_SIZE]);
    assert aux.chainIndex == 0 && aux.chainMerkleBranch == [] && Pow2(0) == 1;
    assert Commits(pair, aux, root, chainId, |script|, p);
  }
}
