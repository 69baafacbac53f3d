/** Chunking a linearization, and removing transactions from it (src/cluster_linearize.h). */
module Chunkings {
  import opened FeeRates
  import opened Graphs
  import opened Diagrams
  import opened Compare

  /** A set and its aggregate, carried along so that it need not be summed again. */
  datatype SetInfo = SetInfo(transactions: set<nat>, feerate: FeeFrac)

  ghost predicate Accurate(g: Graph, info: SetInfo) {
    info.feerate == FeeRate(g, info.transactions)
  }

  /** The elements of `s` that lie in `keep`, in order. */
  function Restrict(s: seq<nat>, keep: set<nat>): seq<nat> {
    if s == [] then []
    else
      var rest := Restrict(s[..|s| - 1], keep);
      if s[|s| - 1] in keep then rest + [s[|s| - 1]] else rest
  }

  lemma {:induction false} RestrictConcat(a: seq<nat>, b: seq<nat>, keep: set<nat>)
    ensures Restrict(a + b, keep) == Restrict(a, keep) + Restrict(b, keep)
  {
    if b == [] {
      assert a + b == a;
    } else {
      assert (a + b)[..|a + b| - 1] == a + b[..|b| - 1];
      RestrictConcat(a, b[..|b| - 1], keep);
    }
  }

  lemma {:induction false} RestrictElems(s: seq<nat>, keep: set<nat>)
    ensures Elems(Restrict(s, keep)) == Elems(s) * keep
    ensures |Restrict(s, keep)| <= |s|
  {
    if s != [] {
      var init, last := s[..|s| - 1], s[|s| - 1];
      RestrictElems(init, keep);
      assert Elems(s) == Elems(init) + {last};
      if last in keep {
        assert Elems(Restrict(s, keep)) == Elems(Restrict(init, keep)) + {last};
      }
    }
  }

  lemma {:induction false} RestrictKeeps(g: Graph, s: seq<nat>, keep: set<nat>)
    ensures Distinct(s) ==> Distinct(Restrict(s, keep))
    ensures Topo(g, s) ==> Topo(g, Restrict(s, keep))
    ensures Sized(g, s) ==> Sized(g, Restrict(s, keep))
  {
    if s != [] {
      var init, last := s[..|s| - 1], s[|s| - 1];
      RestrictKeeps(g, init, keep);
      RestrictFrom(init, keep);
    }
  }

  lemma RestrictFrom(s: seq<nat>, keep: set<nat>)
    ensures forall i :: 0 <= i < |Restrict(s, keep)| ==> exists j :: 0 <= j < |s| && s[j] == Restrict(s, keep)[i]
  {
    RestrictElems(s, keep);
    forall i | 0 <= i < |Restrict(s, keep)|
      ensures exists j :: 0 <= j < |s| && s[j] == Restrict(s, keep)[i]
    {
      assert Restrict(s, keep)[i] in Elems(Restrict(s, keep));
    }
  }

  lemma {:induction false} RestrictTwice(s: seq<nat>, a: set<nat>, b: set<nat>)
    ensures Restrict(Restrict(s, a), b) == Restrict(s, a * b)
  {
    if s != [] {
      var init, last := s[..|s| - 1], s[|s| - 1];
      RestrictTwice(init, a, b);
      if last in a {
        RestrictConcat(Restrict(init, a), [last], b);
        assert [last][..0] == [];
        assert Restrict([last], b) == if last in b then [last] else [];
      }
    }
  }

  lemma {:induction false} RestrictAll(s: seq<nat>, keep: set<nat>)
    ensures Elems(s) <= keep ==> Restrict(s, keep) == s
    ensures Elems(s) !! keep ==> Restrict(s, keep) == []
  {
    if s != [] {
      var init, last := s[..|s| - 1], s[|s| - 1];
      RestrictAll(init, keep);
      assert last in Elems(s);
      assert Elems(init) <= Elems(s);
    }
  }

  lemma {:induction false} ElemsCount(s: seq<nat>)
    requires Distinct(s)
    ensures |Elems(s)| == |s|
  {
    if s != [] {
      ElemsCount(s[..|s| - 1]);
      assert Elems(s) == Elems(s[..|s| - 1]) + {s[|s| - 1]};
    }
  }

  lemma AbsorbMore(g: Graph, blocks: seq<seq<nat>>, b: seq<nat>)
    requires blocks != [] && Higher(Sum(g, b), Sum(g, blocks[|blocks| - 1]))
    ensures Absorb(g, blocks, b) == Absorb(g, blocks[..|blocks| - 1], blocks[|blocks| - 1] + b)
    ensures Sum(g, blocks[|blocks| - 1] + b) == Sum(g, b).Plus(Sum(g, blocks[|blocks| - 1]))
  {
    SumConcat(g, blocks[|blocks| - 1], b);
  }

  lemma AbsorbNoMore(g: Graph, blocks: seq<seq<nat>>, b: seq<nat>)
    requires blocks == [] || !Higher(Sum(g, b), Sum(g, blocks[|blocks| - 1]))
    ensures Absorb(g, blocks, b) == blocks + [b]
    ensures Feerates(g, blocks + [b]) == Feerates(g, blocks) + [Sum(g, b)]
  {
  }

  lemma ChunksStep(g: Graph, s: seq<nat>, x: nat)
    ensures Chunks(g, s + [x]) == Absorb(g, Chunks(g, s), [x])
    ensures Sum(g, [x]) == g.Fee(x)
  {
    assert (s + [x])[..|s|] == s;
    assert [x][..0] == [];
  }

  /** The absorbing loop returns the aggregates of the unique chunking. */
  method ChunkLinearization(g: Graph, linearization: seq<nat>) returns (ret: seq<FeeFrac>)
    ensures ret == ChunkFeerates(g, linearization)
  {
    hide Sum, Chunks, Absorb;
    NoChunks(g);
    ret := [];
    for i := 0 to |linearization|
      invariant ret == ChunkFeerates(g, linearization[..i])
    {
      var newChunk := g.Fee(linearization[i]);
      ghost var blocks, b := Chunks(g, linearization[..i]), [linearization[i]];
      assert linearization[..i + 1] == linearization[..i] + b;
      ChunksStep(g, linearization[..i], linearization[i]);
      while ret != [] && Higher(newChunk, ret[|ret| - 1])
        invariant ret == Feerates(g, blocks) && newChunk == Sum(g, b)
        invariant Absorb(g, blocks, b) == Chunks(g, linearization[..i + 1])
        decreases |ret|
      {
        newChunk := newChunk.Plus(ret[|ret| - 1]);
        ret := ret[..|ret| - 1];
        AbsorbMore(g, blocks, b);
        blocks, b := blocks[..|blocks| - 1], blocks[|blocks| - 1] + b;
      }
      AbsorbNoMore(g, blocks, b);
      ret := ret + [newChunk];
    }
    assert linearization[..|linearization|] == linearization;
  }

  /** Blocks as sets with their aggregate feerates. */
  function Infos(g: Graph, blocks: seq<seq<nat>>): (r: seq<SetInfo>)
    ensures |r| == |blocks|
    ensures forall i :: 0 <= i < |r| ==> r[i] == SetInfo(Elems(blocks[i]), Sum(g, blocks[i]))
  {
    seq(|blocks|, i requires 0 <= i < |blocks| => SetInfo(Elems(blocks[i]), Sum(g, blocks[i])))
  }

  /** Dropping the first chunk of an ordering leaves the chunking of the rest. */
  lemma ChunksTail(g: Graph, s: seq<nat>)
    requires Sized(g, s) && s != []
    ensures Chunks(g, s) != []
    ensures var b := Chunks(g, s)[0];
            |b| <= |s| && s[..|b|] == b && Chunks(g, s[|b|..]) == Chunks(g, s)[1..]
  {
    hide Higher, Sum, Absorb, Chunks;
    ChunksIsChunking(g, s);
    var blocks := Chunks(g, s);
    ConcatCons(blocks);
    var rest := s[|blocks[0]|..];
    ChunksIsChunking(g, rest);
    var tail := blocks[1..];
    forall i | 0 <= i < |tail| - 1
      ensures !Higher(Sum(g, tail[i + 1]), Sum(g, tail[i]))
    {
      var j := i + 1;
      assert !Higher(Sum(g, blocks[j + 1]), Sum(g, blocks[j]));
    }
    assert IsChunking(g, tail);
    ChunkingUnique(g, Chunks(g, rest), tail);
  }

  /** The transactions of the first m chunks. */
  ghost function PrefixSet(blocks: seq<seq<nat>>, m: nat): set<nat>
    requires m <= |blocks|
  {
    Elems(Concat(blocks[..m]))
  }

  /**
    `t` is what `subset` shares with a prefix of the chunks: with the first prefix for which the
    shared part is not empty and no poorer than all of `subset`, or with all of them.
  */
  ghost predicate IsIntersection(g: Graph, blocks: seq<seq<nat>>, subset: set<nat>, t: set<nat>) {
    exists m :: 0 <= m <= |blocks| && IsIntersectionAt(g, blocks, subset, t, m)
  }

  ghost predicate IsIntersectionAt(g: Graph, blocks: seq<seq<nat>>, subset: set<nat>, t: set<nat>, m: nat)
    requires m <= |blocks|
  {
    && t == subset * PrefixSet(blocks, m)
    && (t == subset || (t != {} && !Lower(FeeRate(g, t), FeeRate(g, subset))))
    && forall j :: 0 <= j < m ==> Misses(g, blocks, subset, j)
  }

  /** The intersection with the first j chunks is empty or has a lower feerate than subset. */
  ghost predicate Misses(g: Graph, blocks: seq<seq<nat>>, subset: set<nat>, j: nat)
    requires j <= |blocks|
  {
    var x := subset * PrefixSet(blocks, j);
    x == {} || (x != subset && Lower(FeeRate(g, x), FeeRate(g, subset)))
  }

  lemma PrefixSetStep(blocks: seq<seq<nat>>, m: nat)
    requires m < |blocks|
    ensures PrefixSet(blocks, m + 1) == PrefixSet(blocks, m) + Elems(blocks[m])
  {
    assert blocks[..m + 1][..m] == blocks[..m];
  }

  lemma PrefixSetAll(blocks: seq<seq<nat>>)
    ensures PrefixSet(blocks, 0) == {}
    ensures PrefixSet(blocks, |blocks|) == Elems(Concat(blocks))
  {
    assert blocks[..|blocks|] == blocks;
  }

  /** A linearization whose transactions are taken out in portions; its chunks stay those of what is left. */
  class LinearizationChunking {
    const g: Graph
    ghost const original: seq<nat>
    var linearization: seq<nat>
    var chunks: seq<SetInfo>
    var chunksSkip: nat
    var todo: set<nat>

    /** What remains of the original ordering. */
    ghost function Remaining(): seq<nat>
      reads this
    {
      Restrict(original, todo)
    }

    /** The chunks kept are those of a fresh chunking of what remains of the original ordering. */
    ghost predicate Valid()
      reads this
    {
      && Distinct(original) && Sized(g, original)
      && todo <= Elems(original)
      && Restrict(linearization, todo) == Remaining()
      && chunksSkip <= |chunks|
      && chunks[chunksSkip..] == Infos(g, Chunks(g, Remaining()))
    }

    constructor (g: Graph, lin: seq<nat>)
      requires Distinct(lin) && Sized(g, lin)
      ensures Valid() && this.g == g && original == lin && todo == Elems(lin)
    {
      this.g, original, linearization := g, lin, lin;
      todo := Elems(lin);
      chunks := [];
      chunksSkip := 0;
      new;
      BuildChunks();
      assert chunks[0..] == chunks;
    }

    /** Recomputes the chunks of what is left, and forgets the transactions in front of the first one left. */
    method BuildChunks()
      requires chunks == [] && chunksSkip == 0
      modifies this
      ensures todo == old(todo) && chunksSkip == 0
      ensures Restrict(linearization, todo) == Restrict(old(linearization), todo)
      ensures chunks == Infos(g, Chunks(g, Restrict(linearization, todo)))
    {
      hide Sum, Absorb, Chunks;
      while linearization != [] && linearization[0] !in todo
        invariant todo == old(todo) && chunks == [] && chunksSkip == 0
        invariant Restrict(linearization, todo) == Restrict(old(linearization), todo)
        decreases |linearization|
      {
        assert linearization == linearization[..1] + linearization[1..];
        RestrictConcat(linearization[..1], linearization[1..], todo);
        RestrictAll(linearization[..1], todo);
        linearization := linearization[1..];
      }
      ghost var lin := linearization;
      NoChunks(g);
      for n := 0 to |linearization|
        invariant todo == old(todo) && chunksSkip == 0 && linearization == lin
        invariant chunks == Infos(g, Chunks(g, Restrict(linearization[..n], todo)))
      {
        assert linearization[..n + 1][..n] == linearization[..n];
        if linearization[n] !in todo {
          continue;
        }
        AddSingleton(linearization[n], Restrict(linearization[..n], todo));
      }
      assert linearization[..|linearization|] == linearization;
    }

    /** Loop body of BuildChunks: a new singleton chunk absorbs final chunks of lower feerate. */
    method AddSingleton(idx: nat, ghost before: seq<nat>)
      requires chunks == Infos(g, Chunks(g, before))
      modifies this`chunks
      ensures chunks == Infos(g, Chunks(g, before + [idx]))
    {
      hide Sum, Chunks, Absorb;
      var add := SetInfo({idx}, g.Fee(idx));
      ghost var blocks, b := Chunks(g, before), [idx];
      ChunksStep(g, before, idx);
      assert Elems(b) == {idx};
      while chunks != [] && Higher(add.feerate, chunks[|chunks| - 1].feerate)
        invariant chunks == Infos(g, blocks) && add == SetInfo(Elems(b), Sum(g, b))
        invariant Absorb(g, blocks, b) == Chunks(g, before + [idx])
        decreases |chunks|
      {
        var back := chunks[|chunks| - 1];
        add := SetInfo(add.transactions + back.transactions, add.feerate.Plus(back.feerate));
        chunks := chunks[..|chunks| - 1];
        AbsorbMore(g, blocks, b);
        blocks, b := blocks[..|blocks| - 1], blocks[|blocks| - 1] + b;
      }
      AbsorbNoMore(g, blocks, b);
      chunks := chunks + [add];
    }

    function NumChunksLeft(): (n: nat)
      requires Valid()
      reads this
      ensures n == |Chunks(g, Remaining())|
      ensures n == 0 <==> todo == {}
    {
      ChunksLeft(g, original, todo);
      |chunks| - chunksSkip
    }

    function GetChunk(n: nat): (r: SetInfo)
      requires Valid() && n < NumChunksLeft()
      reads this
      ensures n < |Chunks(g, Remaining())|
      ensures var b := Chunks(g, Remaining())[n]; r == SetInfo(Elems(b), Sum(g, b))
    {
      assert chunks[n + chunksSkip] == chunks[chunksSkip..][n];
      chunks[n + chunksSkip]
    }

    /** What is left afterwards is the old order without `subset`, chunked anew. */
    method MarkDone(subset: set<nat>)
      requires Valid() && subset != {} && subset <= todo
      modifies this
      ensures Valid() && todo == old(todo) - subset
    {
      hide Higher, Sum, Absorb, Chunks, Restrict;
      todo := todo - subset;
      ghost var rem := Restrict(original, old(todo));
      RestrictTwice(original, old(todo), todo);
      RestrictTwice(linearization, old(todo), todo);
      assert old(todo) * todo == todo;
      RestrictKeeps(g, original, old(todo));
      RestrictElems(original, old(todo));
      assert rem != [] by {
        assert Elems(rem) == old(todo);
      }
      ChunksTail(g, rem);
      assert chunks[chunksSkip..][0] == chunks[chunksSkip];
      if chunks[chunksSkip].transactions == subset {
        ghost var b := Chunks(g, rem)[0];
        assert todo == Elems(rem) - Elems(b) && old(todo) == Elems(rem);
        FirstChunkRemoved(g, rem);
        assert |b| == |subset| by {
          ElemsCount(b);
        }
        SpanDone(linearization, old(todo), b);
        chunksSkip := chunksSkip + 1;
        assert chunks[chunksSkip..] == chunks[chunksSkip - 1..][1..] == Infos(g, Chunks(g, rem)[1..]);
        linearization := linearization[|subset|..];
      } else {
        chunks := [];
        chunksSkip := 0;
        BuildChunks();
        assert chunks[0..] == chunks;
      }
    }

    /**
      The part of `subset` within the chunks up to the first one where it is rich enough, and
      its aggregate.
    */
    method IntersectPrefixes(subset: SetInfo) returns (r: SetInfo)
      requires Valid() && subset.transactions <= todo && Accurate(g, subset)
      ensures Accurate(g, r)
      ensures IsIntersection(g, Chunks(g, Remaining()), subset.transactions, r.transactions)
    {
      hide Sum, Absorb, Chunks, Restrict, Lower, SumTo, Concat;
      ghost var blocks := Chunks(g, Remaining());
      RestrictKeeps(g, original, todo);
      RestrictElems(original, todo);
      ChunksIsChunking(g, Remaining());
      PrefixSetAll(blocks);
      FeeRateSingleton(g, 0);
      var acc := SetInfo({}, EMPTY);
      for i := 0 to NumChunksLeft()
        invariant acc.transactions == subset.transactions * PrefixSet(blocks, i)
        invariant Accurate(g, acc) && (subset.transactions != {} ==> acc.transactions != subset.transactions)
        invariant forall j :: 0 <= j <= i ==> Misses(g, blocks, subset.transactions, j)
      {
        var toAdd := GetChunk(i).transactions * subset.transactions;
        IntersectStep(g, Remaining(), subset.transactions, i);
        if toAdd != {} {
          acc := acc.(transactions := acc.transactions + toAdd);
          assert acc.transactions == subset.transactions * PrefixSet(blocks, i + 1);
          if acc.transactions == subset.transactions {
            assert IsIntersectionAt(g, blocks, subset.transactions, subset.transactions, i + 1);
            return subset;
          }
          acc := acc.(feerate := acc.feerate.Plus(FeeRate(g, toAdd)));
          if !Lower(acc.feerate, subset.feerate) {
            assert IsIntersectionAt(g, blocks, subset.transactions, acc.transactions, i + 1);
            return acc;
          }
        } else {
          assert acc.transactions == subset.transactions * PrefixSet(blocks, i + 1);
          assert Misses(g, blocks, subset.transactions, i);
        }
        assert Misses(g, blocks, subset.transactions, i + 1);
      }
      // The prefix of all chunks covers subset, so that it is empty here.
      assert subset.transactions == {};
      assert IsIntersectionAt(g, blocks, subset.transactions, subset.transactions, 0);
      r := subset;
    }
  }

  lemma ChunksLeft(g: Graph, original: seq<nat>, todo: set<nat>)
    requires Sized(g, original) && todo <= Elems(original)
    ensures Chunks(g, Restrict(original, todo)) == [] <==> todo == {}
  {
    hide Chunks, Absorb, Sum, Restrict;
    var s := Restrict(original, todo);
    RestrictKeeps(g, original, todo);
    RestrictElems(original, todo);
    assert Elems(s) == todo;
    NoChunks(g);
    if s != [] {
      assert s[0] in Elems(s);
      ChunksTail(g, s);
    }
  }

  lemma IntersectStep(g: Graph, s: seq<nat>, subset: set<nat>, i: nat)
    requires Distinct(s) && Sized(g, s) && i < |Chunks(g, s)|
    ensures var blocks := Chunks(g, s);
            var x, y := subset * PrefixSet(blocks, i), Elems(blocks[i]) * subset;
            && subset * PrefixSet(blocks, i + 1) == x + y
            && FeeRate(g, x + y) == FeeRate(g, x).Plus(FeeRate(g, y))
  {
    var blocks := Chunks(g, s);
    PrefixSetStep(blocks, i);
    BlocksDisjoint(g, s, i);
    FeeRateUnion(g, subset * PrefixSet(blocks, i), Elems(blocks[i]) * subset);
    assert subset * PrefixSet(blocks, i + 1) == subset * PrefixSet(blocks, i) + Elems(blocks[i]) * subset;
  }

  lemma BlocksDisjoint(g: Graph, s: seq<nat>, i: nat)
    requires Distinct(s) && Sized(g, s) && i < |Chunks(g, s)|
    ensures PrefixSet(Chunks(g, s), i) !! Elems(Chunks(g, s)[i])
  {
    hide Higher, Sum, Absorb, Chunks;
    ChunksIsChunking(g, s);
    var blocks := Chunks(g, s);
    ConcatBounds(blocks, i + 1);
    assert blocks[..i + 1][..i] == blocks[..i];
    var p := Concat(blocks[..i]);
    assert Distinct(p + blocks[i]);
    DistinctSplit(p, blocks[i]);
  }

  lemma DistinctSplit(a: seq<nat>, b: seq<nat>)
    ensures Distinct(a + b) <==> Distinct(a) && Distinct(b) && Elems(a) !! Elems(b)
  {
    var s := a + b;
    if Distinct(s) {
      assert forall i :: 0 <= i < |a| ==> s[i] == a[i];
      assert forall i :: 0 <= i < |b| ==> s[|a| + i] == b[i];
    }
    if Distinct(a) && Distinct(b) && Elems(a) !! Elems(b) {
      forall i, j | 0 <= i < j < |s|
        ensures s[i] != s[j]
      {
        if i < |a| <= j {
          assert a[i] in Elems(a) && b[j - |a|] in Elems(b);
        }
      }
    }
  }

  /** When exactly the first chunk is done, the leading part of the stored span of its size is done. */
  lemma SpanDone(lin: seq<nat>, todo: set<nat>, b: seq<nat>)
    requires Distinct(b) && |b| <= |Restrict(lin, todo)| && Restrict(lin, todo)[..|b|] == b
    ensures |b| <= |lin|
    ensures Restrict(lin[|b|..], todo - Elems(b)) == Restrict(lin, todo - Elems(b))
  {
    var n, left := |b|, todo - Elems(b);
    RestrictElems(lin, todo);
    // The remaining part of the first n elements of lin is a prefix of b.
    assert lin == lin[..n] + lin[n..];
    RestrictConcat(lin[..n], lin[n..], todo);
    RestrictElems(lin[..n], todo);
    var p := Restrict(lin[..n], todo);
    assert p == Restrict(lin, todo)[..|p|] == b[..|p|];
    assert Elems(p) <= Elems(b);
    RestrictConcat(lin[..n], lin[n..], left);
    RestrictAll(lin[..n], left);
  }

  /** Removing the first chunk from an ordering drops it from the chunking. */
  lemma FirstChunkRemoved(g: Graph, rem: seq<nat>)
    requires Distinct(rem) && Sized(g, rem) && rem != []
    ensures Chunks(g, rem) != []
    ensures Chunks(g, Restrict(rem, Elems(rem) - Elems(Chunks(g, rem)[0]))) == Chunks(g, rem)[1..]
  {
    hide Higher, Sum, Absorb, Chunks;
    ChunksTail(g, rem);
    var b := Chunks(g, rem)[0];
    var rest := rem[|b|..];
    assert rem == b + rest;
    DistinctSplit(b, rest);
    var left := Elems(rem) - Elems(b);
    assert Restrict(b, left) == [] by {
      RestrictAll(b, left);
    }
    assert Restrict(rest, left) == rest by {
      assert Elems(rest) <= left;
      RestrictAll(rest, left);
    }
    assert Restrict(rem, left) == rest by {
      RestrictConcat(b, rest, left);
    }
  }
}
