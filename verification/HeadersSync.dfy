/** Two-phase headers synchronisation (src/headerssync.cpp:72-299, src/headerssync.h:20-71). */
module HeadersSyncs {

  const HEADER_COMMITMENT_PERIOD := 632
  const REDOWNLOAD_BUFFER_SIZE := 15009

  datatype Header = Header(
    version: nat, prev: nat, merkleRoot: nat, time: nat, bits: nat, nonce: nat,
    height: nat, nonce64: nat, mixHash: nat, auxpow: nat)

  /** A header without the hash of its predecessor. */
  datatype CompressedHeader = CompressedHeader(
    version: nat, merkleRoot: nat, time: nat, bits: nat, nonce: nat,
    height: nat, nonce64: nat, mixHash: nat, auxpow: nat)
  {
    function GetFullHeader(prev: nat): Header {
      Header(version, prev, merkleRoot, time, bits, nonce, height, nonce64, mixHash, auxpow)
    }
  }

  function Compress(h: Header): CompressedHeader {
    CompressedHeader(h.version, h.merkleRoot, h.time, h.bits, h.nonce, h.height, h.nonce64, h.mixHash, h.auxpow)
  }

  /** Compression loses only the hash of the predecessor. */
  lemma CompressRoundTrip(h: Header, prev: nat)
    ensures Compress(h).GetFullHeader(prev) == h.(prev := prev)
    ensures Compress(h).GetFullHeader(h.prev) == h
  {
  }

  /** The block the sync starts from, and what the sync depends on: hashes, the salted bit, work and difficulty rules. */
  datatype Params = Params(
    startHeight: nat, startHash: nat, startBits: nat, startWork: nat,
    minimumWork: nat, commitOffset: nat, maxCommitments: nat,
    hash: Header -> nat, bit: nat -> bool, permitted: (int, nat, nat) -> bool, proof: nat -> nat)

  function HashOf(p: Params, h: Header): nat {
    p.hash(h)
  }

  predicate BitOf(p: Params, h: Header) {
    p.bit(p.hash(h))
  }

  function ProofOf(p: Params, h: Header): nat {
    p.proof(h.bits)
  }

  predicate Permitted(p: Params, height: int, before: nat, bits: nat) {
    p.permitted(height, before, bits)
  }

  // ---------- chains of headers on top of the start ----------

  ghost function HashBefore(p: Params, hs: seq<Header>, i: nat): nat
    requires i <= |hs|
  {
    if i == 0 then p.startHash else HashOf(p, hs[i - 1])
  }

  ghost function BitsBefore(p: Params, hs: seq<Header>, i: nat): nat
    requires i <= |hs|
  {
    if i == 0 then p.startBits else hs[i - 1].bits
  }

  /** Each header names its predecessor, the first one the start. */
  ghost predicate Linked(p: Params, hs: seq<Header>) {
    forall i :: 0 <= i < |hs| ==> hs[i].prev == HashBefore(p, hs, i)
  }

  /** Each change of difficulty is permitted at its height. */
  ghost predicate AllPermitted(p: Params, hs: seq<Header>) {
    forall i :: 0 <= i < |hs| ==> Permitted(p, p.startHeight + i + 1, BitsBefore(p, hs, i), hs[i].bits)
  }

  ghost function Work(p: Params, hs: seq<Header>): nat {
    if hs == [] then p.startWork else Work(p, hs[..|hs| - 1]) + ProofOf(p, hs[|hs| - 1])
  }

  predicate IsCommitHeight(p: Params, height: int) {
    height % HEADER_COMMITMENT_PERIOD == p.commitOffset
  }

  /** The commitment bits of a chain, one for each commitment height. */
  ghost function Commitments(p: Params, hs: seq<Header>): seq<bool> {
    if hs == [] then [] else
      var n := |hs| - 1;
      Commitments(p, hs[..n]) + if IsCommitHeight(p, p.startHeight + n + 1) then [BitOf(p, hs[n])] else []
  }

  lemma LinkedAppend(p: Params, hs: seq<Header>, h: Header)
    requires Linked(p, hs) && h.prev == HashBefore(p, hs, |hs|)
    ensures Linked(p, hs + [h])
  {
    hide HashOf, BitOf, ProofOf, Permitted, IsCommitHeight;
  }

  lemma PermittedAppend(p: Params, hs: seq<Header>, h: Header)
    requires AllPermitted(p, hs) && Permitted(p, p.startHeight + |hs| + 1, BitsBefore(p, hs, |hs|), h.bits)
    ensures AllPermitted(p, hs + [h])
  {
    hide HashOf, BitOf, ProofOf, Permitted, IsCommitHeight;
    var r := hs + [h];
    forall i | 0 <= i < |r|
      ensures Permitted(p, p.startHeight + i + 1, BitsBefore(p, r, i), r[i].bits)
    {
      assert i < |hs| ==> Permitted(p, p.startHeight + i + 1, BitsBefore(p, hs, i), hs[i].bits);
    }
  }

  lemma LastFacts(p: Params, hs: seq<Header>)
    requires hs != []
    ensures Work(p, hs) == Work(p, hs[..|hs| - 1]) + ProofOf(p, hs[|hs| - 1])
    ensures Commitments(p, hs) == Commitments(p, hs[..|hs| - 1]) + if IsCommitHeight(p, p.startHeight + |hs|) then [BitOf(p, hs[|hs| - 1])] else []
  {
    hide HashOf, BitOf, ProofOf, Permitted, IsCommitHeight;
  }

  lemma AppendFacts(p: Params, hs: seq<Header>, h: Header)
    ensures Work(p, hs + [h]) == Work(p, hs) + ProofOf(p, h)
    ensures Commitments(p, hs + [h]) == Commitments(p, hs) + if IsCommitHeight(p, p.startHeight + |hs| + 1) then [BitOf(p, h)] else []
  {
    hide *;
    var r := hs + [h];
    assert r[..|r| - 1] == hs && r[|r| - 1] == h;
    LastFacts(p, r);
  }

  /** The number of commitments depends only on the length of the chain. */
  lemma {:induction false} SameCount(p: Params, a: seq<Header>, b: seq<Header>)
    requires |a| == |b|
    ensures |Commitments(p, a)| == |Commitments(p, b)|
  {
    hide HashOf, BitOf, ProofOf, Permitted, IsCommitHeight;
    if a != [] {
      SameCount(p, a[..|a| - 1], b[..|b| - 1]);
    }
  }

  lemma {:induction false} CommitmentsPrefix(p: Params, hs: seq<Header>, k: nat)
    requires k <= |hs|
    ensures Commitments(p, hs[..k]) <= Commitments(p, hs)
  {
    hide HashOf, BitOf, ProofOf, Permitted, IsCommitHeight;
    if k < |hs| {
      CommitmentsPrefix(p, hs[..|hs| - 1], k);
      assert hs[..|hs| - 1][..k] == hs[..k];
    } else {
      assert hs[..k] == hs;
    }
  }

  /**
    Aligning the two phases: if a commitment is left after those of the first |b| headers of
    one chain, then at the next commitment height it is the bit of the header at that height.
  */
  lemma Aligned(p: Params, a: seq<Header>, b: seq<Header>)
    requires |Commitments(p, b)| < |Commitments(p, a)| && IsCommitHeight(p, p.startHeight + |b| + 1)
    ensures |b| < |a| && Commitments(p, a)[|Commitments(p, b)|] == BitOf(p, a[|b|])
  {
    hide *;
    Longer(p, a, b);
    AlignedAt(p, a, b);
  }

  lemma AlignedAt(p: Params, a: seq<Header>, b: seq<Header>)
    requires |b| < |a| && IsCommitHeight(p, p.startHeight + |b| + 1)
    ensures |Commitments(p, b)| < |Commitments(p, a)| && Commitments(p, a)[|Commitments(p, b)|] == BitOf(p, a[|b|])
  {
    hide *;
    var n := |b|;
    SameCount(p, a[..n], b);
    CommitmentAt(p, a, n);
  }

  lemma CommitmentAt(p: Params, a: seq<Header>, n: nat)
    requires n < |a| && IsCommitHeight(p, p.startHeight + n + 1)
    ensures |Commitments(p, a[..n])| < |Commitments(p, a)| && Commitments(p, a)[|Commitments(p, a[..n])|] == BitOf(p, a[n])
  {
    hide *;
    assert a[..n + 1] == a[..n] + [a[n]];
    AppendFacts(p, a[..n], a[n]);
    CommitmentsPrefix(p, a, n + 1);
    PrefixAt(Commitments(p, a), Commitments(p, a[..n]), BitOf(p, a[n]));
  }

  lemma PrefixAt(c: seq<bool>, e: seq<bool>, x: bool)
    requires e + [x] <= c
    ensures |e| < |c| && c[|e|] == x
  {
    assert (e + [x])[|e|] == x;
  }

  /** Without a commitment left, the second chain has outgrown the first. */
  lemma Overrun(p: Params, a: seq<Header>, b: seq<Header>)
    requires |Commitments(p, b)| >= |Commitments(p, a)| && IsCommitHeight(p, p.startHeight + |b| + 1)
    ensures |b| >= |a|
  {
    hide *;
    if |b| < |a| {
      CommitmentAt(p, a, |b|);
      SameCount(p, a[..|b|], b);
      assert false;
    }
  }

  /** More commitments need more headers. */
  lemma Longer(p: Params, a: seq<Header>, b: seq<Header>)
    requires |Commitments(p, b)| < |Commitments(p, a)|
    ensures |b| < |a|
  {
    hide *;
    if |a| <= |b| {
      SameCount(p, a, b[..|a|]);
      CommitmentsPrefix(p, b, |a|);
      assert false;
    }
  }

  // ---------- what has been released ----------

  /** The work threshold is reached with the first k headers. */
  ghost predicate Reached(p: Params, hs: seq<Header>, k: nat)
    requires k <= |hs|
  {
    k > 0 && Work(p, hs[..k]) >= p.minimumWork
  }

  /** Every commitment height before the threshold has the bit that the first phase saw at the same height. */
  ghost predicate Matched(p: Params, presync: seq<Header>, redown: seq<Header>) {
    forall i :: 0 <= i < |redown| ==> MatchedAt(p, presync, redown, i)
  }

  ghost predicate MatchedAt(p: Params, presync: seq<Header>, redown: seq<Header>, i: nat)
    requires i < |redown|
  {
    IsCommitHeight(p, p.startHeight + i + 1) && !Reached(p, redown, i + 1) ==>
      i < |presync| && BitOf(p, redown[i]) == BitOf(p, presync[i])
  }

  /**
    What holds over every run: the redownloaded headers form a permitted chain on the start
    that matches the commitments; the released ones are an unchanged prefix of it, with
    enough headers on top unless the work threshold has been reached.
  */
  ghost predicate History(p: Params, presync: seq<Header>, redown: seq<Header>, released: seq<Header>) {
    && Linked(p, presync) && AllPermitted(p, presync)
    && Linked(p, redown) && AllPermitted(p, redown) && Matched(p, presync, redown)
    && released <= redown
    && (released != [] ==> |released| + REDOWNLOAD_BUFFER_SIZE <= |redown| || Reached(p, redown, |redown|))
    && (redown != [] ==> presync != [] && Work(p, presync) >= p.minimumWork)
  }

  /** The chains that the first phase accepts. */
  ghost predicate Presyncable(p: Params, hs: seq<Header>) {
    Linked(p, hs) && AllPermitted(p, hs) && |Commitments(p, hs)| <= p.maxCommitments
  }

  /** The chains that the second phase accepts after the first has seen presync. */
  ghost predicate Redownloadable(p: Params, presync: seq<Header>, hs: seq<Header>) {
    Linked(p, hs) && AllPermitted(p, hs) && Matched(p, presync, hs)
  }

  lemma PresyncablePrefix(p: Params, hs: seq<Header>, k: nat)
    requires k <= |hs| && Presyncable(p, hs)
    ensures Presyncable(p, hs[..k])
  {
    hide HashOf, BitOf, ProofOf, Permitted, IsCommitHeight, Commitments;
    CommitmentsPrefix(p, hs, k);
    ChainPrefix(p, hs, k);
  }

  lemma RedownloadablePrefix(p: Params, presync: seq<Header>, hs: seq<Header>, k: nat)
    requires k <= |hs| && Redownloadable(p, presync, hs)
    ensures Redownloadable(p, presync, hs[..k])
  {
    hide HashOf, BitOf, ProofOf, Permitted, IsCommitHeight, Work;
    ChainPrefix(p, hs, k);
    forall i | 0 <= i < k
      ensures MatchedAt(p, presync, hs[..k], i)
    {
      assert MatchedAt(p, presync, hs, i);
      assert hs[..k][..i + 1] == hs[..i + 1];
    }
  }

  lemma ChainPrefix(p: Params, hs: seq<Header>, k: nat)
    requires k <= |hs| && Linked(p, hs) && AllPermitted(p, hs)
    ensures Linked(p, hs[..k]) && AllPermitted(p, hs[..k])
  {
    hide HashOf, BitOf, ProofOf, Permitted;
    forall i | 0 <= i < k
      ensures Permitted(p, p.startHeight + i + 1, BitsBefore(p, hs[..k], i), hs[..k][i].bits)
    {
      assert Permitted(p, p.startHeight + i + 1, BitsBefore(p, hs, i), hs[i].bits);
    }
  }

  lemma PresyncableNext(p: Params, hs: seq<Header>, more: seq<Header>, i: nat)
    requires i < |more| && Presyncable(p, hs + more)
    ensures Presyncable(p, hs + more[..i] + [more[i]]) && more[0].prev == HashBefore(p, hs, |hs|)
  {
    hide HashOf, BitOf, ProofOf, Permitted, IsCommitHeight, Commitments;
    PresyncablePrefix(p, hs + more, |hs| + i + 1);
    assert (hs + more)[..|hs| + i + 1] == hs + more[..i] + [more[i]];
    PresyncablePrefix(p, hs + more, |hs| + 1);
    assert (hs + more)[..|hs| + 1] == hs + [more[0]];
    ChainNext(p, hs, more[0]);
  }

  lemma PresyncableIs(p: Params, hs: seq<Header>)
    requires Linked(p, hs) && AllPermitted(p, hs) && |Commitments(p, hs)| <= p.maxCommitments
    ensures Presyncable(p, hs)
  {
  }

  lemma RedownloadableNext(p: Params, presync: seq<Header>, hs: seq<Header>, more: seq<Header>, i: nat)
    requires i < |more| && Redownloadable(p, presync, hs + more)
    ensures Redownloadable(p, presync, hs + more[..i] + [more[i]])
  {
    hide Redownloadable;
    RedownloadablePrefix(p, presync, hs + more, |hs| + i + 1);
    assert (hs + more)[..|hs| + i + 1] == hs + more[..i] + [more[i]];
  }

  /** What the next header of a chain has to satisfy. */
  lemma ChainNext(p: Params, hs: seq<Header>, h: Header)
    requires Linked(p, hs + [h]) && AllPermitted(p, hs + [h])
    ensures h.prev == HashBefore(p, hs, |hs|)
    ensures Permitted(p, p.startHeight + |hs| + 1, BitsBefore(p, hs, |hs|), h.bits)
  {
    hide HashOf, BitOf, ProofOf, Permitted;
    var r := hs + [h];
    assert r[|hs|] == h && Permitted(p, p.startHeight + |hs| + 1, BitsBefore(p, r, |hs|), r[|hs|].bits);
  }

  /** A commitment that is missing or different makes the chain differ from what the first phase saw. */
  lemma MatchedNext(p: Params, presync: seq<Header>, redown: seq<Header>, h: Header)
    requires Matched(p, presync, redown + [h])
    requires IsCommitHeight(p, p.startHeight + |redown| + 1) && Work(p, redown) + ProofOf(p, h) < p.minimumWork
    ensures |redown| < |presync| && BitOf(p, h) == BitOf(p, presync[|redown|])
  {
    hide HashOf, BitOf, ProofOf, Permitted, IsCommitHeight, Work, Reached;
    var r := redown + [h];
    assert MatchedAt(p, presync, r, |redown|);
    ReachedLast(p, redown, h);
  }

  lemma MatchedAppend(p: Params, presync: seq<Header>, redown: seq<Header>, h: Header)
    requires Matched(p, presync, redown)
    requires IsCommitHeight(p, p.startHeight + |redown| + 1) && Work(p, redown) + ProofOf(p, h) < p.minimumWork ==>
               |redown| < |presync| && BitOf(p, h) == BitOf(p, presync[|redown|])
    ensures Matched(p, presync, redown + [h])
  {
    hide HashOf, BitOf, ProofOf, Permitted, IsCommitHeight, Work, Reached;
    var r := redown + [h];
    forall i | 0 <= i < |r|
      ensures MatchedAt(p, presync, r, i)
    {
      if i < |redown| {
        assert MatchedAt(p, presync, redown, i);
        ReachedPrefix(p, redown, h, i + 1);
      } else {
        ReachedLast(p, redown, h);
      }
    }
  }

  lemma ReachedPrefix(p: Params, hs: seq<Header>, h: Header, k: nat)
    requires k <= |hs|
    ensures Reached(p, hs + [h], k) <==> Reached(p, hs, k)
  {
    hide Work;
    assert (hs + [h])[..k] == hs[..k];
  }

  lemma ReachedLast(p: Params, hs: seq<Header>, h: Header)
    ensures Reached(p, hs + [h], |hs| + 1) <==> Work(p, hs) + ProofOf(p, h) >= p.minimumWork
  {
    hide Work, ProofOf;
    AppendFacts(p, hs, h);
    assert (hs + [h])[..|hs| + 1] == hs + [h];
  }

  datatype Phase = PRESYNC | REDOWNLOAD | FINAL

  /** Headers in one message follow each other; the first phase relies on the caller for that, the second checks it. */
  ghost predicate Continuous(p: Params, hs: seq<Header>) {
    forall i :: 0 < i < |hs| ==> hs[i].prev == HashOf(p, hs[i - 1])
  }

  ghost function CompressAll(hs: seq<Header>): seq<CompressedHeader> {
    seq(|hs|, i requires 0 <= i < |hs| => Compress(hs[i]))
  }

  /** The commitments still to be checked, while there are any. */
  ghost predicate Remaining(p: Params, presync: seq<Header>, redown: seq<Header>, processAll: bool, commitments: seq<bool>) {
    !processAll ==>
      && |Commitments(p, redown)| <= |Commitments(p, presync)|
      && commitments == Commitments(p, presync)[|Commitments(p, redown)|..]
  }

  class HeadersSyncState {
    const p: Params
    var state: Phase
    // first phase
    var currentWork: nat
    var commitments: seq<bool>
    var lastBits: nat
    var lastHash: nat
    var currentHeight: int
    // second phase
    var buffer: seq<CompressedHeader>
    var bufferLastHeight: int
    var bufferLastHash: nat
    var bufferFirstPrevHash: nat
    var redownloadWork: nat
    var processAll: bool
    // all headers accepted in the first phase, accepted in the second, and released
    ghost var presync: seq<Header>
    ghost var redown: seq<Header>
    ghost var released: seq<Header>

    ghost predicate Presyncing()
      reads this
    {
      && redown == [] && released == [] && !processAll
      && commitments == Commitments(p, presync) && |commitments| <= p.maxCommitments
      && currentWork == Work(p, presync) && currentHeight == p.startHeight + |presync|
      && lastHash == HashBefore(p, presync, |presync|) && lastBits == BitsBefore(p, presync, |presync|)
    }

    ghost predicate Redownloading()
      reads this
    {
      && |released| <= |redown| && presync != [] && Work(p, presync) >= p.minimumWork
      && buffer == CompressAll(redown[|released|..])
      && bufferLastHeight == p.startHeight + |redown|
      && bufferLastHash == HashBefore(p, redown, |redown|) && bufferFirstPrevHash == HashBefore(p, redown, |released|)
      && redownloadWork == Work(p, redown) && processAll == Reached(p, redown, |redown|)
      && Remaining(p, presync, redown, processAll, commitments)
    }

    ghost predicate Valid()
      reads this
    {
      && History(p, presync, redown, released)
      && (state == PRESYNC ==> Presyncing())
      && (state == REDOWNLOAD ==> Redownloading() && (buffer == [] ==> redown == []))
    }

    constructor (p: Params)
      ensures Valid() && state == PRESYNC && this.p == p && presync == [] && redown == [] && released == []
    {
      this.p := p;
      state, currentWork, commitments, lastBits := PRESYNC, p.startWork, [], p.startBits;
      lastHash, currentHeight := p.startHash, p.startHeight;
      buffer, bufferLastHeight, bufferLastHash, bufferFirstPrevHash := [], 0, 0, 0;
      redownloadWork, processAll := 0, false;
      presync, redown, released := [], [], [];
    }

    method Finalize()
      modifies this
      ensures state == FINAL && presync == old(presync) && redown == old(redown) && released == old(released)
    {
      commitments, lastHash, lastBits := [], 0, 0;
      buffer, bufferLastHash, bufferFirstPrevHash := [], 0, 0;
      processAll, currentHeight := false, 0;
      state := FINAL;
    }

    // ---------- first phase ----------

    method ValidateAndProcessSingleHeader(current: Header) returns (ok: bool)
      requires Presyncing() && Linked(p, presync) && AllPermitted(p, presync) && current.prev == lastHash
      modifies this
      ensures state == old(state) && redown == old(redown) && released == old(released)
      ensures presync == if ok then old(presync) + [current] else old(presync)
      ensures ok ==> Presyncing() && Linked(p, presync) && AllPermitted(p, presync)
      ensures ok <==> Presyncable(p, old(presync) + [current])
    {
      hide HashOf, BitOf, ProofOf, Permitted, IsCommitHeight, Work, Commitments, Linked, AllPermitted;
      var nextHeight := currentHeight + 1;
      if !Permitted(p, nextHeight, lastBits, current.bits) {
        if Presyncable(p, presync + [current]) {
          ChainNext(p, presync, current);
        }
        return false;
      }
      AppendFacts(p, presync, current);
      LinkedAppend(p, presync, current);
      PermittedAppend(p, presync, current);
      if IsCommitHeight(p, nextHeight) {
        commitments := commitments + [BitOf(p, current)];
        if |commitments| > p.maxCommitments {
          return false;
        }
      }
      currentWork := currentWork + ProofOf(p, current);
      lastBits := current.bits;
      lastHash := HashOf(p, current);
      currentHeight := nextHeight;
      presync := presync + [current];
      return true;
    }

    method ValidateAndStoreHeadersCommitments(headers: seq<Header>) returns (ok: bool)
      requires Valid() && state == PRESYNC && headers != [] && Continuous(p, headers)
      modifies this
      ensures redown == old(redown) && released == old(released) && old(presync) <= presync <= old(presync) + headers
      ensures History(p, presync, redown, released)
      ensures ok ==> Valid() && state != FINAL && presync == old(presync) + headers
      ensures ok ==> (state == REDOWNLOAD <==> Work(p, presync) >= p.minimumWork)
      ensures ok <==> Presyncable(p, old(presync) + headers)
    {
      hide HashOf, BitOf, ProofOf, Permitted, IsCommitHeight, Work, Commitments, Linked, AllPermitted, Matched, Presyncable;
      ghost var was := presync;
      if headers[0].prev != lastHash {
        if Presyncable(p, was + headers) {
          PresyncableNext(p, was, headers, 0);
        }
        return false;
      }
      for i := 0 to |headers|
        invariant state == PRESYNC && redown == [] && released == []
        invariant Presyncing() && Linked(p, presync) && AllPermitted(p, presync)
        invariant presync == was + headers[..i]
        invariant i < |headers| ==> headers[i].prev == lastHash
      {
        assert headers[..i + 1] == headers[..i] + [headers[i]];
        ok := ValidateAndProcessSingleHeader(headers[i]);
        if !ok {
          if Presyncable(p, was + headers) {
            PresyncableNext(p, was, headers, i);
          }
          EarlyHistory(p, presync);
          return false;
        }
      }
      assert headers[..|headers|] == headers;
      PresyncableIs(p, was + headers);
      EarlyHistory(p, presync);
      if currentWork >= p.minimumWork {
        StartRedownload();
      }
      return true;
    }

    method StartRedownload()
      requires Presyncing() && presync != [] && Work(p, presync) >= p.minimumWork
      modifies this
      ensures state == REDOWNLOAD && Redownloading()
      ensures presync == old(presync) && redown == old(redown) && released == old(released)
    {
      hide Work, Commitments;
      buffer := [];
      bufferLastHeight := p.startHeight;
      bufferFirstPrevHash := p.startHash;
      bufferLastHash := p.startHash;
      redownloadWork := p.startWork;
      state := REDOWNLOAD;
      NothingYet(p);
    }

    // ---------- second phase ----------

    method ValidateAndStoreRedownloadedHeader(header: Header) returns (ok: bool)
      requires Valid() && state == REDOWNLOAD
      modifies this
      ensures presync == old(presync) && released == old(released)
      ensures redown == if ok then old(redown) + [header] else old(redown)
      ensures ok ==> Valid() && state == REDOWNLOAD && !(buffer == [])
      ensures ok <==> Redownloadable(p, presync, old(redown) + [header])
    {
      hide *;
      Parts();
      ghost var hs := redown;
      var nextHeight := bufferLastHeight + 1;
      NextAccepted(p, presync, hs, released, header);
      if header.prev != bufferLastHash {
        return false;
      }
      var previousBits := if buffer != [] then buffer[|buffer| - 1].bits else p.startBits;
      PreviousBits(p, hs, |released|, buffer);
      if !Permitted(p, nextHeight, previousBits, header.bits) {
        return false;
      }
      redownloadWork := redownloadWork + ProofOf(p, header);
      AppendFacts(p, hs, header);
      ReachedLast(p, hs, header);
      StaysReached(p, hs, header);
      if redownloadWork >= p.minimumWork {
        processAll := true;
      }
      ok := CheckCommitment(header, nextHeight);
      if !ok {
        return false;
      }
      StoredHistory(p, presync, hs, released, header);
      Store(header, nextHeight);
      return true;
    }

    /** Appends an accepted header to the buffer. */
    method Store(header: Header, nextHeight: int)
      requires History(p, presync, redown + [header], released) && state == REDOWNLOAD
      requires |released| <= |redown| && presync != [] && Work(p, presync) >= p.minimumWork
      requires buffer == CompressAll(redown[|released|..]) && nextHeight == p.startHeight + |redown| + 1
      requires bufferFirstPrevHash == HashBefore(p, redown, |released|)
      requires redownloadWork == Work(p, redown + [header]) && processAll == Reached(p, redown + [header], |redown| + 1)
      requires Remaining(p, presync, redown + [header], processAll, commitments)
      modifies this
      ensures Valid() && state == REDOWNLOAD && buffer != []
      ensures presync == old(presync) && released == old(released) && redown == old(redown) + [header]
    {
      hide *;
      ghost var hs := redown;
      CompressAppend(hs, |released|, header);
      buffer := buffer + [Compress(header)];
      bufferLastHeight := nextHeight;
      bufferLastHash := HashOf(p, header);
      redown := redown + [header];
      LastHash(p, hs, header, |released|);
      Assemble();
    }

    /** Before the work threshold is reached, a header at a commitment height has to have the expected bit. */
    method CheckCommitment(header: Header, nextHeight: int) returns (ok: bool)
      requires nextHeight == p.startHeight + |redown| + 1
      requires !processAll ==> Remaining(p, presync, redown, false, commitments)
      modifies `commitments
      ensures ok <==> (!processAll && IsCommitHeight(p, nextHeight) ==> |redown| < |presync| && BitOf(p, header) == BitOf(p, presync[|redown|]))
      ensures ok ==> Remaining(p, presync, redown + [header], processAll, commitments)
    {
      hide HashOf, BitOf, ProofOf, Permitted, IsCommitHeight, Commitments;
      AppendFacts(p, redown, header);
      if !processAll && IsCommitHeight(p, nextHeight) {
        if |commitments| == 0 {
          Overrun(p, presync, redown);
          return false;
        }
        Aligned(p, presync, redown);
        var commitment := BitOf(p, header);
        var expected := commitments[0];
        commitments := commitments[1..];
        if commitment != expected {
          return false;
        }
      }
      return true;
    }

    /** Releases the first buffered header. */
    method PopFront() returns (full: Header)
      requires Redownloading() && History(p, presync, redown, released)
      requires |buffer| > REDOWNLOAD_BUFFER_SIZE || (|buffer| > 0 && processAll)
      modifies `buffer, `bufferFirstPrevHash, `released
      ensures Redownloading() && History(p, presync, redown, released)
      ensures released == old(released) + [full] && |buffer| == old(|buffer|) - 1
    {
      hide HashOf, BitOf, ProofOf, Permitted, IsCommitHeight, Work, Commitments, Linked, AllPermitted, Matched, Reached, Remaining;
      ghost var n := |released|;
      full := buffer[0].GetFullHeader(bufferFirstPrevHash);
      ReleaseNext(p, redown, released, full, buffer[0]);
      buffer := buffer[1..];
      bufferFirstPrevHash := HashOf(p, full);
      released := released + [full];
      assert redown[n..][1..] == redown[n + 1..];
    }

    /** Releases the headers that have enough others on top of them, or all once the work threshold is reached. */
    method PopHeadersReadyForAcceptance() returns (ret: seq<Header>)
      requires Valid() && state == REDOWNLOAD
      modifies `buffer, `bufferFirstPrevHash, `released
      ensures released == old(released) + ret
      ensures Redownloading() && History(p, presync, redown, released)
      ensures processAll == Reached(p, redown, |redown|) && (processAll ==> released == redown && buffer == [])
      ensures !processAll ==> (buffer == [] ==> redown == [])
      ensures |old(released)| <= |redown| && released == Due(p, redown, |old(released)|)
    {
      hide *;
      Opened();
      BufferLength();
      ret := [];
      while |buffer| > REDOWNLOAD_BUFFER_SIZE || (|buffer| > 0 && processAll)
        invariant released == old(released) + ret
        invariant Redownloading() && History(p, presync, redown, released)
        invariant !processAll && buffer == [] ==> redown == []
        invariant !processAll ==> |released| == |old(released)| || |buffer| >= REDOWNLOAD_BUFFER_SIZE
        invariant |old(released)| <= |redown| && |buffer| == |redown| - |released|
        decreases |buffer|
      {
        var full := PopFront();
        ret := ret + [full];
        BufferLength();
      }
      BufferLength();
      DueIs(p, redown, |old(released)|, released);
    }

    lemma Opened()
      requires Valid() && state == REDOWNLOAD
      ensures Redownloading() && History(p, presync, redown, released) && (buffer == [] ==> redown == [])
      ensures REDOWNLOAD_BUFFER_SIZE > 0
    {
      hide History, HeadersSyncState.Redownloading;
    }

    lemma HistoryHolds()
      requires Valid()
      ensures History(p, presync, redown, released)
    {
      hide History;
    }

    lemma ReleasedWithin()
      requires Valid()
      ensures released <= redown
    {
      hide Linked, AllPermitted, Matched, Reached, Work;
    }

    lemma BufferLength()
      requires Redownloading() && History(p, presync, redown, released)
      ensures |buffer| == |redown| - |released| && released <= redown && (|buffer| == 0 ==> released == redown)
      ensures processAll == Reached(p, redown, |redown|)
    {
      hide Linked, AllPermitted, Matched, Reached, Remaining, Work;
    }

    /** Processes a batch of headers from the peer. */
    method ProcessNextHeaders(received: seq<Header>, fullMessage: bool) returns (powValidated: seq<Header>, success: bool, requestMore: bool)
      requires Valid() && (state == PRESYNC ==> Continuous(p, received))
      modifies this
      ensures Valid() && released == old(released) + powValidated
      ensures old(presync) <= presync && presync <= if old(state) == PRESYNC then old(presync) + received else old(presync)
      ensures old(redown) <= redown && redown <= if old(state) == REDOWNLOAD then old(redown) + received else old(redown)
      ensures received == [] || old(state) == FINAL ==> !success && !requestMore && state == old(state) && powValidated == [] && redown == old(redown)
      ensures received != [] ==> (state == FINAL <==> !(success && requestMore))
      ensures (old(state) == REDOWNLOAD ==> state != PRESYNC) && (!success ==> powValidated == [])
      ensures received != [] && old(state) == PRESYNC ==>
        && (success <==> Presyncable(p, old(presync) + received))
        && (requestMore <==> success && (fullMessage || Work(p, presync) >= p.minimumWork))
      ensures received != [] && old(state) == REDOWNLOAD ==>
        && (success <==> Redownloadable(p, old(presync), old(redown) + received))
        && (requestMore <==> success && fullMessage && !Reached(p, redown, |redown|))
      ensures success && old(state) == PRESYNC ==> presync == old(presync) + received && powValidated == []
      ensures success && old(state) == PRESYNC ==> (state == REDOWNLOAD <==> Work(p, presync) >= p.minimumWork)
      ensures success && old(state) == REDOWNLOAD ==> redown == old(redown) + received && released == Due(p, redown, |old(released)|)
    {
      hide HashOf, BitOf, ProofOf, Permitted, IsCommitHeight, Work, Commitments, History, Remaining, Continuous, Reached;
      hide Presyncable, Redownloadable;
      hide HeadersSyncState.Presyncing, HeadersSyncState.Redownloading;
      powValidated, success, requestMore := [], false, false;
      if received == [] || state == FINAL {
        return;
      }
      if state == PRESYNC {
        success := ValidateAndStoreHeadersCommitments(received);
        if success && (fullMessage || state == REDOWNLOAD) {
          requestMore := true;
        }
      } else {
        success := StoreAll(received);
        if success {
          powValidated := PopHeadersReadyForAcceptance();
          if buffer == [] && processAll {
            // complete
          } else if fullMessage {
            requestMore := true;
          }
        }
      }
      if !(success && requestMore) {
        Finalize();
      }
    }

    method StoreAll(received: seq<Header>) returns (ok: bool)
      requires Valid() && state == REDOWNLOAD
      modifies this
      ensures presync == old(presync) && released == old(released) && old(redown) <= redown <= old(redown) + received
      ensures History(p, presync, redown, released)
      ensures ok ==> Valid() && state == REDOWNLOAD && redown == old(redown) + received
      ensures ok <==> Redownloadable(p, presync, old(redown) + received)
    {
      hide HashOf, BitOf, ProofOf, Permitted, IsCommitHeight, Work, Commitments, History, Remaining, Redownloadable;
      hide HeadersSyncState.Redownloading, HeadersSyncState.Presyncing;
      ok := true;
      for i := 0 to |received|
        invariant Valid() && state == REDOWNLOAD && presync == old(presync) && released == old(released)
        invariant redown == old(redown) + received[..i]
      {
        ok := ValidateAndStoreRedownloadedHeader(received[i]);
        if !ok {
          if Redownloadable(p, presync, old(redown) + received) {
            RedownloadableNext(p, presync, old(redown), received, i);
          }
          return;
        }
        assert received[..i + 1] == received[..i] + [received[i]];
      }
      assert received[..|received|] == received;
      HistoryHolds();
      HistoryRedownloadable(p, presync, redown, released);
    }

    lemma Parts()
      requires Valid() && state == REDOWNLOAD
      ensures History(p, presync, redown, released) && (buffer == [] ==> redown == [])
      ensures |released| <= |redown| && presync != [] && Work(p, presync) >= p.minimumWork
      ensures buffer == CompressAll(redown[|released|..])
      ensures bufferLastHeight == p.startHeight + |redown|
      ensures bufferLastHash == HashBefore(p, redown, |redown|) && bufferFirstPrevHash == HashBefore(p, redown, |released|)
      ensures redownloadWork == Work(p, redown) && processAll == Reached(p, redown, |redown|)
      ensures Remaining(p, presync, redown, processAll, commitments)
    {
      hide History, Work, Commitments, Reached;
    }

    lemma Assemble()
      requires History(p, presync, redown, released) && state == REDOWNLOAD && |released| <= |redown|
      requires presync != [] && Work(p, presync) >= p.minimumWork
      requires buffer == CompressAll(redown[|released|..])
      requires bufferLastHeight == p.startHeight + |redown|
      requires bufferLastHash == HashBefore(p, redown, |redown|) && bufferFirstPrevHash == HashBefore(p, redown, |released|)
      requires redownloadWork == Work(p, redown) && processAll == Reached(p, redown, |redown|)
      requires Remaining(p, presync, redown, processAll, commitments)
      ensures Redownloading() && ((buffer == [] ==> redown == []) ==> Valid())
    {
      hide History, Work, Commitments, Reached;
    }
  }

  /** The last buffered header is the last accepted one. */
  lemma PreviousBits(p: Params, hs: seq<Header>, n: nat, buffer: seq<CompressedHeader>)
    requires n <= |hs| && buffer == CompressAll(hs[n..]) && (buffer == [] ==> hs == [])
    ensures (if buffer != [] then buffer[|buffer| - 1].bits else p.startBits) == BitsBefore(p, hs, |hs|)
  {
    hide HashOf, BitOf, ProofOf, Permitted;
    if buffer != [] {
      assert buffer[|buffer| - 1] == Compress(hs[n..][|hs| - n - 1]);
    }
  }

  lemma StaysReached(p: Params, hs: seq<Header>, h: Header)
    ensures Reached(p, hs, |hs|) ==> Reached(p, hs + [h], |hs| + 1)
  {
    hide Work, ProofOf;
    ReachedLast(p, hs, h);
    assert hs[..|hs|] == hs;
  }

  lemma HistoryRedownloadable(p: Params, presync: seq<Header>, redown: seq<Header>, released: seq<Header>)
    requires History(p, presync, redown, released)
    ensures Redownloadable(p, presync, redown)
  {
    hide Linked, AllPermitted, Matched;
  }

  /** What makes the second phase accept one more header. */
  lemma NextAccepted(p: Params, presync: seq<Header>, redown: seq<Header>, released: seq<Header>, h: Header)
    requires History(p, presync, redown, released)
    ensures Redownloadable(p, presync, redown + [h]) <==>
      && h.prev == HashBefore(p, redown, |redown|)
      && Permitted(p, p.startHeight + |redown| + 1, BitsBefore(p, redown, |redown|), h.bits)
      && (IsCommitHeight(p, p.startHeight + |redown| + 1) && Work(p, redown) + ProofOf(p, h) < p.minimumWork ==>
            |redown| < |presync| && BitOf(p, h) == BitOf(p, presync[|redown|]))
  {
    hide HashOf, BitOf, ProofOf, Permitted, IsCommitHeight, Work, Matched, Linked, AllPermitted, Reached;
    if Redownloadable(p, presync, redown + [h]) {
      ChainNext(p, redown, h);
      if IsCommitHeight(p, p.startHeight + |redown| + 1) && Work(p, redown) + ProofOf(p, h) < p.minimumWork {
        MatchedNext(p, presync, redown, h);
      }
    } else if h.prev == HashBefore(p, redown, |redown|) && Permitted(p, p.startHeight + |redown| + 1, BitsBefore(p, redown, |redown|), h.bits) {
      LinkedAppend(p, redown, h);
      PermittedAppend(p, redown, h);
      if Matched(p, presync, redown + [h]) {
        assert false;
      }
      if IsCommitHeight(p, p.startHeight + |redown| + 1) && Work(p, redown) + ProofOf(p, h) < p.minimumWork ==>
            |redown| < |presync| && BitOf(p, h) == BitOf(p, presync[|redown|]) {
        MatchedAppend(p, presync, redown, h);
        assert false;
      }
    }
  }

  lemma StoredHistory(p: Params, presync: seq<Header>, redown: seq<Header>, released: seq<Header>, h: Header)
    requires History(p, presync, redown, released) && h.prev == HashBefore(p, redown, |redown|)
    requires Permitted(p, p.startHeight + |redown| + 1, BitsBefore(p, redown, |redown|), h.bits)
    requires presync != [] && Work(p, presync) >= p.minimumWork
    requires IsCommitHeight(p, p.startHeight + |redown| + 1) && Work(p, redown) + ProofOf(p, h) < p.minimumWork ==>
               |redown| < |presync| && BitOf(p, h) == BitOf(p, presync[|redown|])
    ensures History(p, presync, redown + [h], released)
  {
    hide HashOf, BitOf, ProofOf, Permitted, IsCommitHeight, Work, Matched, Linked, AllPermitted, Reached;
    LinkedAppend(p, redown, h);
    PermittedAppend(p, redown, h);
    MatchedAppend(p, presync, redown, h);
    StaysReached(p, redown, h);
    assert released <= redown <= redown + [h];
  }

  /** The rebuilt header is the next of the redownloaded ones. */
  lemma ReleaseNext(p: Params, redown: seq<Header>, released: seq<Header>, full: Header, first: CompressedHeader)
    requires Linked(p, redown) && released <= redown && |released| < |redown|
    requires first == Compress(redown[|released|]) && full == first.GetFullHeader(HashBefore(p, redown, |released|))
    ensures full == redown[|released|] && released + [full] <= redown && HashBefore(p, redown, |released| + 1) == HashOf(p, full)
  {
    hide HashOf;
    CompressRoundTrip(redown[|released|], redown[|released|].prev);
  }

  /** What has to be released: everything once the work is reached, and otherwise what has enough headers on top. */
  ghost function Due(p: Params, redown: seq<Header>, released: nat): seq<Header>
    requires released <= |redown|
  {
    if Reached(p, redown, |redown|) then redown
    else if |redown| - REDOWNLOAD_BUFFER_SIZE > released then redown[..|redown| - REDOWNLOAD_BUFFER_SIZE]
    else redown[..released]
  }

  lemma DueIs(p: Params, redown: seq<Header>, was: nat, released: seq<Header>)
    requires was <= |redown| && released <= redown
    requires Reached(p, redown, |redown|) ==> released == redown
    requires !Reached(p, redown, |redown|) ==>
      (|released| == was && |redown| - was <= REDOWNLOAD_BUFFER_SIZE) || |released| == |redown| - REDOWNLOAD_BUFFER_SIZE >= was
    ensures released == Due(p, redown, was)
  {
    hide Reached;
    assert released == redown[..|released|];
  }

  lemma CompressAppend(hs: seq<Header>, n: nat, h: Header)
    requires n <= |hs|
    ensures CompressAll((hs + [h])[n..]) == CompressAll(hs[n..]) + [Compress(h)]
  {
    assert (hs + [h])[n..] == hs[n..] + [h];
  }

  lemma LastHash(p: Params, hs: seq<Header>, h: Header, n: nat)
    requires n <= |hs|
    ensures HashBefore(p, hs + [h], |hs| + 1) == HashOf(p, h) && HashBefore(p, hs + [h], n) == HashBefore(p, hs, n)
    ensures h.prev == HashBefore(p, hs, |hs|) ==> h.prev == HashBefore(p, hs + [h], |hs|)
  {
    hide HashOf;
  }

  lemma EarlyHistory(p: Params, presync: seq<Header>)
    requires Linked(p, presync) && AllPermitted(p, presync)
    ensures History(p, presync, [], [])
  {
  }

  lemma NothingYet(p: Params)
    ensures Work(p, []) == p.startWork && Commitments(p, []) == []
  {
  }

  // ---------- whole runs ----------

  datatype Message = Message(headers: seq<Header>, isFull: bool)

  /** The headers of all messages, in order. */
  ghost function AllHeaders(messages: seq<Message>): seq<Header> {
    if messages == [] then [] else AllHeaders(messages[..|messages| - 1]) + messages[|messages| - 1].headers
  }

  lemma AllHeadersNext(messages: seq<Message>, k: nat, i: nat)
    requires k <= i < |messages|
    ensures AllHeaders(messages[k..i + 1]) == AllHeaders(messages[k..i]) + messages[i].headers
  {
    var next := messages[k..i + 1];
    assert next[..|next| - 1] == messages[k..i] && next[|next| - 1] == messages[i];
  }

  /** What a sync has accepted and released. Once it has ended, only what was released matters. */
  datatype View = View(state: Phase, presync: seq<Header>, redown: seq<Header>, released: seq<Header>)

  /** What one message does. */
  ghost function Next(p: Params, v: View, m: Message): View {
    var first, second := v.presync + m.headers, v.redown + m.headers;
    if m.headers == [] || v.state == FINAL then v
    else if v.state == PRESYNC then
      if !Presyncable(p, first) then v.(state := FINAL)
      else v.(presync := first, state := if Work(p, first) >= p.minimumWork then REDOWNLOAD else if m.isFull then PRESYNC else FINAL)
    else if !Redownloadable(p, v.presync, second) || |v.released| > |second| then v.(state := FINAL)
    else v.(redown := second, released := Due(p, second, |v.released|),
            state := if m.isFull && !Reached(p, second, |second|) then REDOWNLOAD else FINAL)
  }

  /** What a run of messages does. */
  ghost function After(p: Params, messages: seq<Message>): View {
    if messages == [] then View(PRESYNC, [], [], [])
    else Next(p, After(p, messages[..|messages| - 1]), messages[|messages| - 1])
  }

  /** The messages of the first phase are continuous. */
  ghost predicate ContinuousFirst(p: Params, messages: seq<Message>) {
    forall i :: 0 <= i < |messages| ==> After(p, messages[..i]).state == PRESYNC ==> Continuous(p, messages[i].headers)
  }

  lemma AfterNext(p: Params, messages: seq<Message>, i: nat)
    requires i < |messages|
    ensures After(p, messages[..i + 1]) == Next(p, After(p, messages[..i]), messages[i])
  {
    var next := messages[..i + 1];
    assert next[..|next| - 1] == messages[..i] && next[|next| - 1] == messages[i];
  }

  ghost predicate ViewOk(p: Params, v: View) {
    && History(p, v.presync, v.redown, v.released)
    && (v.state == PRESYNC ==> v.redown == [] && v.released == [])
    && (v.state == REDOWNLOAD ==> v.presync != [] && Work(p, v.presync) >= p.minimumWork)
  }

  /** One message keeps what History demands. */
  lemma NextOk(p: Params, v: View, m: Message)
    requires ViewOk(p, v)
    ensures ViewOk(p, Next(p, v, m))
  {
    hide Linked, AllPermitted, Matched, Work, Commitments, Reached;
    if m.headers != [] && v.state == PRESYNC {
      NothingMatched(p, v.presync + m.headers);
    } else if m.headers != [] && v.state == REDOWNLOAD {
      var second := v.redown + m.headers;
      if Redownloadable(p, v.presync, second) && |v.released| <= |second| {
        assert v.released <= v.redown <= second;
        assert v.released == second[..|v.released|];
        if Reached(p, v.redown, |v.redown|) {
          StillReached(p, v.redown, m.headers);
        }
      }
    }
  }

  lemma NothingMatched(p: Params, presync: seq<Header>)
    ensures Linked(p, []) && AllPermitted(p, []) && Matched(p, presync, [])
  {
  }

  lemma {:induction false} StillReached(p: Params, hs: seq<Header>, more: seq<Header>)
    requires Reached(p, hs, |hs|)
    ensures Reached(p, hs + more, |hs + more|)
    decreases |more|
  {
    hide Reached;
    if more == [] {
      assert hs + more == hs;
    } else {
      var r, x := more[..|more| - 1], more[|more| - 1];
      StillReached(p, hs, r);
      StaysReached(p, hs + r, x);
      assert hs + more == (hs + r) + [x];
    }
  }

  /**
    What a run of messages releases is an unchanged prefix of the headers accepted in the
    second phase, which link from the start, match every commitment before the work is
    reached, and have enough headers on top unless it is reached.
  */
  lemma {:induction false} AfterOk(p: Params, messages: seq<Message>)
    ensures ViewOk(p, After(p, messages))
    decreases |messages|
  {
    hide ViewOk, Next;
    if messages == [] {
      StartOk(p);
    } else {
      AfterOk(p, messages[..|messages| - 1]);
      NextOk(p, After(p, messages[..|messages| - 1]), messages[|messages| - 1]);
    }
  }

  lemma StartOk(p: Params)
    ensures ViewOk(p, View(PRESYNC, [], [], []))
  {
  }

  /** What comes from where: the headers of the first phase from the first messages, those of the second from the later ones. */
  ghost predicate Fed(first: seq<Header>, second: seq<Header>, v: View) {
    && v.presync <= first && v.redown <= second
    && (v.state == PRESYNC ==> second == [])
    && (v.state != FINAL ==> v.presync == first && v.redown == second)
  }

  /** The headers accepted in the two phases are those of the messages of these phases, from the first on. */
  lemma {:induction false} AfterFed(p: Params, messages: seq<Message>) returns (split: nat)
    ensures split <= |messages| && Fed(AllHeaders(messages[..split]), AllHeaders(messages[split..]), After(p, messages))
    ensures After(p, messages).state == PRESYNC ==> split == |messages|
    decreases |messages|
  {
    hide AllHeaders, Next, Fed;
    NoHeaders(messages, |messages|);
    if messages == [] {
      split := 0;
      FedStart(p);
    } else {
      var n := |messages| - 1;
      var was, m := messages[..n], messages[n];
      var k := AfterFed(p, was);
      var v := After(p, was);
      assert was[..k] == messages[..k] && was[k..] == messages[k..n];
      var first, second := AllHeaders(messages[..k]), AllHeaders(messages[k..n]);
      FedNext(p, first, second, v, m);
      if v.state == PRESYNC {
        split := |messages|;
        AllHeadersNext(messages, 0, n);
        NoHeaders(messages, n);
        assert messages[0..n] == messages[..k] && messages[0..n + 1] == messages[..split] && messages[split..] == messages[split..split];
      } else {
        split := k;
        AllHeadersNext(messages, k, n);
        assert messages[k..n + 1] == messages[split..];
        NotPresync(p, v, m);
      }
    }
  }

  lemma NotPresync(p: Params, v: View, m: Message)
    requires v.state != PRESYNC
    ensures Next(p, v, m).state != PRESYNC
  {
  }

  lemma FedStart(p: Params)
    ensures Fed(AllHeaders([]), AllHeaders([]), After(p, []))
  {
  }

  lemma FedNext(p: Params, first: seq<Header>, second: seq<Header>, v: View, m: Message)
    requires Fed(first, second, v)
    ensures v.state == PRESYNC ==> Fed(first + m.headers, second, Next(p, v, m)) && second == []
    ensures v.state != PRESYNC ==> Fed(first, second + m.headers, Next(p, v, m))
  {
    hide Presyncable, Redownloadable, Reached, Work, Due;
  }

  lemma NoHeaders(messages: seq<Message>, i: nat)
    requires i <= |messages|
    ensures AllHeaders(messages[i..i]) == [] && messages[0..i] == messages[..i]
  {
  }

  /** The sync hands out exactly the headers that are due over the whole run. */
  method Run(p: Params, messages: seq<Message>) returns (accepted: seq<Header>)
    requires ContinuousFirst(p, messages)
    ensures accepted == After(p, messages).released
  {
    hide *;
    var sync := new HeadersSyncState(p);
    accepted := [];
    ghost var v := View(PRESYNC, [], [], []);
    NoMessages(p, messages);
    ShowsIs(sync, v);
    for i := 0 to |messages|
      invariant sync.Valid() && sync.p == p && accepted == sync.released && fresh(sync)
      invariant v == After(p, messages[..i]) && Shows(sync, v)
    {
      ContinuousAt(p, messages, i);
      sync.ReleasedWithin();
      NextParts(p, v, messages[i]);
      AfterNext(p, messages, i);
      ShowsParts(sync, v);
      var powValidated, success, requestMore := sync.ProcessNextHeaders(messages[i].headers, messages[i].isFull);
      accepted := accepted + powValidated;
      v := Next(p, v, messages[i]);
      ShowsIs(sync, v);
    }
    assert messages[..|messages|] == messages;
    ShowsParts(sync, v);
  }

  ghost predicate Shows(sync: HeadersSyncState, v: View)
    reads sync
  {
    sync.state == v.state && sync.released == v.released && (v.state != FINAL ==> sync.presync == v.presync && sync.redown == v.redown)
  }

  lemma ShowsParts(sync: HeadersSyncState, v: View)
    requires Shows(sync, v)
    ensures sync.state == v.state && sync.released == v.released && (v.state != FINAL ==> sync.presync == v.presync && sync.redown == v.redown)
  {
  }

  lemma ShowsIs(sync: HeadersSyncState, v: View)
    requires sync.state == v.state && sync.released == v.released && (v.state != FINAL ==> sync.presync == v.presync && sync.redown == v.redown)
    ensures Shows(sync, v)
  {
  }

  lemma NoMessages(p: Params, messages: seq<Message>)
    ensures After(p, messages[..0]) == View(PRESYNC, [], [], [])
  {
  }

  lemma NextParts(p: Params, v: View, m: Message)
    ensures m.headers == [] || v.state == FINAL ==> Next(p, v, m) == v
    ensures m.headers != [] && v.state == PRESYNC ==>
      Next(p, v, m) == if !Presyncable(p, v.presync + m.headers) then v.(state := FINAL)
                       else v.(presync := v.presync + m.headers,
                               state := if Work(p, v.presync + m.headers) >= p.minimumWork then REDOWNLOAD else if m.isFull then PRESYNC else FINAL)
    ensures m.headers != [] && v.state == REDOWNLOAD && |v.released| <= |v.redown| ==>
      Next(p, v, m) == if !Redownloadable(p, v.presync, v.redown + m.headers) then v.(state := FINAL)
                       else v.(redown := v.redown + m.headers, released := Due(p, v.redown + m.headers, |v.released|),
                               state := if m.isFull && !Reached(p, v.redown + m.headers, |v.redown + m.headers|) then REDOWNLOAD else FINAL)
  {
    hide Presyncable, Redownloadable, Reached, Work, Due;
  }

  lemma ContinuousAt(p: Params, messages: seq<Message>, i: nat)
    requires ContinuousFirst(p, messages) && i < |messages|
    ensures After(p, messages[..i]).state == PRESYNC ==> Continuous(p, messages[i].headers)
  {
    hide Continuous, After;
  }

  // ---------- an honest peer ----------

  /** Non-empty messages with the headers of a chain, of which the last need not be full. */
  ghost predicate Serves(messages: seq<Message>, chain: seq<Header>) {
    && AllHeaders(messages) == chain
    && forall i :: 0 <= i < |messages| ==> messages[i].headers != [] && (i + 1 < |messages| ==> messages[i].isFull)
  }

  lemma Beginning(messages: seq<Message>)
    ensures AllHeaders(messages[..0]) == [] && messages[..|messages|] == messages
  {
  }

  lemma {:induction false} AllHeadersPrefix(messages: seq<Message>, k: nat)
    requires k <= |messages|
    ensures AllHeaders(messages[..k]) <= AllHeaders(messages)
  {
    if k < |messages| {
      AllHeadersPrefix(messages[..|messages| - 1], k);
      assert messages[..|messages| - 1][..k] == messages[..k];
    } else {
      assert messages[..k] == messages;
    }
  }

  lemma ServedNext(p: Params, messages: seq<Message>, chain: seq<Header>, i: nat)
    requires Serves(messages, chain) && i < |messages| && Linked(p, chain)
    ensures Continuous(p, messages[i].headers) && messages[i].headers != [] && (i + 1 < |messages| ==> messages[i].isFull)
    ensures AllHeaders(messages[..i + 1]) == AllHeaders(messages[..i]) + messages[i].headers
    ensures AllHeaders(messages[..i + 1]) <= chain && chain[..|AllHeaders(messages[..i + 1])|] == AllHeaders(messages[..i + 1])
    ensures chain != [] && (i + 1 == |messages| ==> AllHeaders(messages[..i + 1]) == chain)
  {
    hide Continuous, AllHeaders, Linked;
    AllHeadersNext(messages, 0, i);
    assert messages[0..i] == messages[..i] && messages[0..i + 1] == messages[..i + 1];
    AllHeadersPrefix(messages, i + 1);
    Beginning(messages);
    PartContinuous(p, chain, AllHeaders(messages[..i]), messages[i].headers);
  }

  lemma PartContinuous(p: Params, chain: seq<Header>, before: seq<Header>, part: seq<Header>)
    requires Linked(p, chain) && before + part <= chain
    ensures Continuous(p, part)
  {
    hide HashOf;
    forall i | 0 < i < |part|
      ensures part[i].prev == HashOf(p, part[i - 1])
    {
      var k := |before| + i;
      assert chain[k] == (before + part)[k] && chain[k - 1] == (before + part)[k - 1];
      assert chain[k].prev == HashBefore(p, chain, k);
    }
  }

  /** A chain matches the commitments taken from a part of it that has enough work. */
  lemma ExtensionMatched(p: Params, chain: seq<Header>, longer: seq<Header>)
    requires chain <= longer && Reached(p, chain, |chain|) && Linked(p, longer) && AllPermitted(p, longer)
    ensures Redownloadable(p, chain, longer)
  {
    hide Linked, AllPermitted, Commitments, IsCommitHeight, Work, HashOf, BitOf, Reached;
    forall i | 0 <= i < |longer|
      ensures MatchedAt(p, chain, longer, i)
    {
      if i >= |chain| {
        StillReached(p, chain, longer[|chain|..i + 1]);
        assert chain + longer[|chain|..i + 1] == longer[..i + 1];
        ReachedWithin(p, longer, i + 1);
      }
    }
  }

  lemma ReachedWithin(p: Params, hs: seq<Header>, k: nat)
    requires k <= |hs| && Reached(p, hs[..k], k)
    ensures Reached(p, hs, k)
  {
    hide Work;
    assert hs[..k][..k] == hs[..k];
  }

  lemma NothingReached(p: Params)
    ensures !Reached(p, [], 0)
  {
  }

  lemma ReachedAll(p: Params, chain: seq<Header>)
    requires chain != [] && Work(p, chain) >= p.minimumWork
    ensures Reached(p, chain, |chain|)
  {
    assert chain[..|chain|] == chain;
  }

  lemma DueParts(p: Params, redown: seq<Header>, was: nat)
    requires was <= |redown| && Reached(p, redown, |redown|)
    ensures Due(p, redown, was) == redown
  {
  }

  /** The first phase ends with the message that brings enough work. */
  method ServeFirst(sync: HeadersSyncState, messages: seq<Message>, ghost chain: seq<Header>)
    requires sync.Valid() && sync.state == PRESYNC && sync.presync == [] && sync.redown == [] && sync.released == []
    requires Serves(messages, chain) && messages != []
    requires Presyncable(sync.p, chain) && Work(sync.p, chain) >= sync.p.minimumWork
    requires forall k :: 0 < k < |messages| ==> Work(sync.p, AllHeaders(messages[..k])) < sync.p.minimumWork
    modifies sync
    ensures sync.Valid() && sync.state == REDOWNLOAD && sync.presync == chain && sync.redown == [] && sync.released == []
  {
    hide *;
    Beginning(messages);
    for i := 0 to |messages|
      invariant sync.Valid() && sync.released == [] && sync.redown == []
      invariant sync.presync == AllHeaders(messages[..i]) && sync.state == if i < |messages| then PRESYNC else REDOWNLOAD
    {
      PresyncableParts(sync.p, chain);
      ServedNext(sync.p, messages, chain, i);
      PresyncablePrefix(sync.p, chain, |AllHeaders(messages[..i + 1])|);
      var powValidated, success, requestMore := sync.ProcessNextHeaders(messages[i].headers, messages[i].isFull);
    }
    PresyncableParts(sync.p, chain);
    ServedNext(sync.p, messages, chain, |messages| - 1);
  }

  lemma PresyncableParts(p: Params, chain: seq<Header>)
    requires Presyncable(p, chain)
    ensures Linked(p, chain)
  {
  }

  /** Where the second phase is after some messages: still short of the work, or done. */
  ghost predicate Serving(sync: HeadersSyncState, presync: seq<Header>, longer: seq<Header>, sofar: seq<Header>, accepted: seq<Header>)
    reads sync
  {
    && sync.Valid() && accepted == sync.released && sync.presync == presync
    && (sync.state == REDOWNLOAD ==> sync.redown == sofar && !Reached(sync.p, sofar, |sofar|))
    && (sync.state != REDOWNLOAD ==> sync.state == FINAL && accepted <= longer && Reached(sync.p, accepted, |accepted|))
  }

  /** One message of the second phase; it need not be full if it completes a chain with enough work. */
  method ServeAgain(sync: HeadersSyncState, message: Message, ghost presync: seq<Header>, ghost longer: seq<Header>, ghost sofar: seq<Header>, accepted: seq<Header>)
    returns (accepted': seq<Header>)
    requires Serving(sync, presync, longer, sofar, accepted) && Redownloadable(sync.p, presync, longer)
    requires message.headers != [] && sofar + message.headers <= longer
    requires message.isFull || Reached(sync.p, sofar + message.headers, |sofar + message.headers|)
    modifies sync
    ensures Serving(sync, presync, longer, sofar + message.headers, accepted')
  {
    hide *;
    ServingParts(sync, presync, longer, sofar, accepted);
    sync.ReleasedWithin();
    ghost var s0, next := sync.state, sofar + message.headers;
    RedownloadablePrefix(sync.p, presync, longer, |next|);
    assert longer[..|next|] == next;
    var powValidated, success, requestMore := sync.ProcessNextHeaders(message.headers, message.isFull);
    accepted' := accepted + powValidated;
    assert powValidated == [] ==> accepted' == accepted;
    if s0 == REDOWNLOAD && Reached(sync.p, sync.redown, |sync.redown|) {
      DueParts(sync.p, sync.redown, |accepted|);
    }
    ServingIs(sync, presync, longer, next, accepted');
  }

  lemma ServingParts(sync: HeadersSyncState, presync: seq<Header>, longer: seq<Header>, sofar: seq<Header>, accepted: seq<Header>)
    requires Serving(sync, presync, longer, sofar, accepted)
    ensures sync.Valid() && accepted == sync.released && sync.presync == presync
    ensures sync.state == REDOWNLOAD ==> sync.redown == sofar && !Reached(sync.p, sofar, |sofar|)
    ensures sync.state != REDOWNLOAD ==> sync.state == FINAL && accepted <= longer && Reached(sync.p, accepted, |accepted|)
  {
    hide Reached, HeadersSyncState.Valid;
  }

  lemma ServingIs(sync: HeadersSyncState, presync: seq<Header>, longer: seq<Header>, sofar: seq<Header>, accepted: seq<Header>)
    requires sync.Valid() && accepted == sync.released && sync.presync == presync
    requires sync.state == REDOWNLOAD ==> sync.redown == sofar && !Reached(sync.p, sofar, |sofar|)
    requires sync.state != REDOWNLOAD ==> sync.state == FINAL && accepted <= longer && Reached(sync.p, accepted, |accepted|)
    ensures Serving(sync, presync, longer, sofar, accepted)
  {
    hide Reached, HeadersSyncState.Valid;
  }

  /**
    A peer that serves an acceptable chain until it has enough work, and then the same chain
    again, possibly grown in the meantime, has a part of it with enough work accepted. The
    portions do not matter, and the last of each phase need not be full.
  */
  method HonestRun(p: Params, first: seq<Message>, second: seq<Message>, ghost chain: seq<Header>, ghost longer: seq<Header>)
    returns (accepted: seq<Header>)
    requires Serves(first, chain) && first != [] && Presyncable(p, chain) && Work(p, chain) >= p.minimumWork
    requires forall k :: 0 < k < |first| ==> Work(p, AllHeaders(first[..k])) < p.minimumWork
    requires Serves(second, longer) && chain <= longer && Linked(p, longer) && AllPermitted(p, longer)
    ensures accepted <= longer && Reached(p, accepted, |accepted|)
  {
    hide *;
    var sync := new HeadersSyncState(p);
    ServeFirst(sync, first, chain);
    accepted := [];
    NothingReached(p);
    Beginning(second);
    PresyncableParts(p, chain);
    ServedNext(p, first, chain, 0);
    ReachedAll(p, chain);
    ExtensionMatched(p, chain, longer);
    StillReached(p, chain, longer[|chain|..]);
    assert chain + longer[|chain|..] == longer;
    ServingIs(sync, chain, longer, [], []);
    for i := 0 to |second|
      invariant sync.p == p && fresh(sync) && Serving(sync, chain, longer, AllHeaders(second[..i]), accepted)
    {
      ServedNext(p, second, longer, i);
      accepted := ServeAgain(sync, second[i], chain, longer, AllHeaders(second[..i]), accepted);
    }
    ServedAll(second, longer);
    ServingParts(sync, chain, longer, longer, accepted);
  }

  lemma ServedAll(messages: seq<Message>, chain: seq<Header>)
    requires Serves(messages, chain)
    ensures AllHeaders(messages[..|messages|]) == chain
  {
    hide AllHeaders;
    assert messages[..|messages|] == messages;
  }
}
