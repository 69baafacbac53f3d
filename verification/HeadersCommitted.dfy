/** How densely a released header is covered by commitments (src/headerssync.cpp:11-25, 194-206, 254-275). */
module HeadersCommitted {
  import opened HeadersSyncs

  /** One of any 632 heights in a row. */
  function CommitHeight(offset: nat, from: int): int {
    from + (offset - from) % 632
  }

  /** Any 632 heights in a row contain exactly one at which a commitment is stored. */
  lemma OneInPeriod(p: Params, from: int, height: int)
    requires p.commitOffset < 632 && from <= height < from + 632
    ensures from <= CommitHeight(p.commitOffset, from) < from + 632
    ensures IsCommitHeight(p, height) <==> height == CommitHeight(p.commitOffset, from)
  {
    var d := (p.commitOffset - from) % 632;
    var q := (p.commitOffset - from) / 632;
    assert p.commitOffset - from == 632 * q + d;
    var e := height % 632;
    var r := height / 632;
    assert height == 632 * r + e;
    if e == p.commitOffset {
      assert height - from - d == 632 * (r + q);
    }
    if height == from + d {
      assert e - p.commitOffset == -632 * (q + r);
    }
  }

  /** The number of commitment heights up to a height, from a fixed origin. */
  function Periods(offset: nat, height: int): int {
    (height - offset) / 632
  }

  lemma PeriodsNext(p: Params, height: int)
    requires p.commitOffset < 632
    ensures Periods(p.commitOffset, height + 1) == Periods(p.commitOffset, height) + if IsCommitHeight(p, height + 1) then 1 else 0
  {
    var x := height - p.commitOffset;
    var q, r := x / 632, x % 632;
    assert x == 632 * q + r;
    if r == 631 {
      assert height + 1 == 632 * (q + 1) + p.commitOffset;
    } else {
      assert x + 1 == 632 * q + (r + 1);
      OneInPeriod(p, height + 1 - (r + 1), height + 1);
    }
  }

  lemma {:induction false} CommitmentsExact(p: Params, hs: seq<Header>)
    requires p.commitOffset < 632
    ensures |Commitments(p, hs)| == Periods(p.commitOffset, p.startHeight + |hs|) - Periods(p.commitOffset, p.startHeight)
  {
    hide IsCommitHeight, Periods, BitOf;
    if hs != [] {
      CommitmentsExact(p, hs[..|hs| - 1]);
      LastFacts(p, hs);
      PeriodsNext(p, p.startHeight + |hs| - 1);
    }
  }

  /** A chain has one commitment for every 632 headers, and at most one more. */
  lemma CommitmentsDense(p: Params, hs: seq<Header>)
    requires p.commitOffset < 632
    ensures |hs| / 632 <= |Commitments(p, hs)| <= |hs| / 632 + 1
  {
    CommitmentsExact(p, hs);
  }

  // ---------- over every run ----------

  /** The second phase has a header at a commitment height here, with the bit that the first phase saw at this height. */
  ghost predicate Committed(p: Params, v: View, i: int) {
    && 0 <= i < |v.redown| && (p.startHeight + i + 1) % 632 == p.commitOffset
    && i < |v.presync| && BitOf(p, v.redown[i]) == BitOf(p, v.presync[i])
  }

  ghost function CommittedIn(p: Params, v: View, from: int, to: int): set<int> {
    set i | from <= i < to && Committed(p, v, i)
  }

  /** Before the work is reached, every commitment height is matched. */
  lemma MatchedBelow(p: Params, v: View, i: nat)
    requires Matched(p, v.presync, v.redown) && !Reached(p, v.redown, |v.redown|) && i < |v.redown|
    requires IsCommitHeight(p, p.startHeight + i + 1)
    ensures Committed(p, v, i)
  {
    hide Work, BitOf, Reached;
    assert MatchedAt(p, v.presync, v.redown, i);
    if Reached(p, v.redown, i + 1) {
      ReachedLater(p, v.redown, i + 1);
    }
  }

  lemma ReachedLater(p: Params, hs: seq<Header>, k: nat)
    requires k <= |hs| && Reached(p, hs, k)
    ensures Reached(p, hs, |hs|)
  {
    hide Work;
    assert hs[..k][..k] == hs[..k];
    StillReached(p, hs[..k], hs[k..]);
    assert hs[..k] + hs[k..] == hs;
  }

  lemma {:induction false} PerWindow(p: Params, v: View, from: nat, n: nat)
    requires p.commitOffset < 632 && Matched(p, v.presync, v.redown) && !Reached(p, v.redown, |v.redown|)
    requires from + 632 * n <= |v.redown|
    ensures |CommittedIn(p, v, from, from + 632 * n)| >= n
  {
    hide Matched, Reached, IsCommitHeight, Committed;
    if n > 0 {
      var mid := from + 632 * (n - 1);
      PerWindow(p, v, from, n - 1);
      var c := CommitHeight(p.commitOffset, p.startHeight + mid + 1);
      OneInPeriod(p, p.startHeight + mid + 1, c);
      var i := c - p.startHeight - 1;
      MatchedBelow(p, v, i);
      var a, b := CommittedIn(p, v, from, mid), CommittedIn(p, v, from, from + 632 * n);
      assert a <= b && i in b && i !in a;
      Larger(a, b, i);
    }
  }

  lemma Larger(a: set<int>, b: set<int>, i: int)
    requires a <= b && i in b && i !in a
    ensures |a| < |b|
  {
    var rest := b - a - {i};
    assert b == a + {i} + rest;
  }

  /**
    Over every run: as long as the work is not reached, each released header has at least 15009
    redownloaded ones above it, with at least 23 commitments, and each of them is the bit that
    the first phase saw at the same height.
  */
  lemma ReleasedCommitted(p: Params, messages: seq<Message>, k: nat)
    requires p.commitOffset < 632
    requires var v := After(p, messages); k < |v.released| && !Reached(p, v.redown, |v.redown|)
    ensures var v := After(p, messages);
            v.released <= v.redown && |v.redown| - |v.released| >= 15009 && |CommittedIn(p, v, k + 1, |v.redown|)| >= 23
  {
    hide Matched, Reached, Linked, AllPermitted, After, Committed;
    AfterOk(p, messages);
    var v := After(p, messages);
    PerWindow(p, v, |v.released|, 23);
    var a, b := CommittedIn(p, v, |v.released|, |v.released| + 632 * 23), CommittedIn(p, v, k + 1, |v.redown|);
    assert a <= b;
    Within(a, b);
  }

  lemma Within(a: set<int>, b: set<int>)
    requires a <= b
    ensures |a| <= |b|
  {
    assert b == a + (b - a);
  }
}
