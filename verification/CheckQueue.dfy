/**
  The check queue (src/checkqueue.h:33-189) as a state machine over its critical sections.

  Thread 0 is the master; the others are the workers. A thread that runs checks does so
  outside the lock, one check per step, so that any interleaving is a sequence of steps. A
  waiting thread may wake up at any time; that the master was notified is recorded, since it
  is the only notification that work being finished gives.
*/
module CheckQueues {
  import opened Options

  type Check = nat
  type Error = nat

  datatype Thread =
    | Outside                                    // the master, not in Complete
    | Starting                                   // about to enter the loop for the first time
    | Inside(local: Option<Error>)               // in the critical section, past the clean-up
    | Waiting(local: Option<Error>, notified: bool)
    | Working(batch: seq<Check>, doWork: bool, next: nat, local: Option<Error>)

  /** A call of Complete: the checks of its round, those that ran, and what it returned. */
  datatype Completion = Completion(round: multiset<Check>, ran: multiset<Check>, result: Option<Error>)

  /**
    The fields of the queue and its threads. The last four record history: the checks added
    in this round, those in finished batches, those of them that ran, and all completions.
  */
  datatype State = State(
    queue: seq<Check>, nIdle: int, nTotal: int, result: Option<Error>, nTodo: int, threads: seq<Thread>,
    round: multiset<Check>, finished: multiset<Check>, finishedRan: multiset<Check>, completions: seq<Completion>)

  // ---------- the critical sections ----------

  /** Adding a batch of checks. */
  function Add(s: State, checks: seq<Check>): State {
    s.(queue := s.queue + checks, nTodo := s.nTodo + |checks|, round := s.round + multiset(checks))
  }

  /** The clean-up of the previous batch, or the first iteration. */
  function CleanUp(s: State, t: nat): (s': State)
    requires t < |s.threads| && (s.threads[t].Working? || s.threads[t].Starting?)
    ensures |s'.threads| == |s.threads| && s'.threads[t].Inside?
  {
    match s.threads[t]
    case Starting => s.(nTotal := s.nTotal + 1, threads := s.threads[t := Inside(None)])
    case Working(batch, _, next, local) =>
      var swaps := local.Some? && s.result.None?;
      var nTodo := s.nTodo - |batch|;
      var threads := s.threads[t := Inside(if swaps then None else local)];
      s.(result := if swaps then local else s.result,
         nTodo := nTodo,
         threads := if nTodo == 0 && t != 0 then NotifyMaster(threads) else threads,
         finished := s.finished + multiset(batch),
         finishedRan := s.finishedRan + multiset(batch[..if next <= |batch| then next else 0]))
  }

  function NotifyMaster(threads: seq<Thread>): seq<Thread> {
    if threads != [] && threads[0].Waiting? then threads[0 := threads[0].(notified := true)] else threads
  }

  /** How many checks to take: smaller batches when many threads share the work, at least one. */
  function BatchSize(s: State, maxBatch: nat): (n: nat)
    requires s.queue != []
    ensures 1 <= n <= |s.queue|
  {
    var sharers := s.nTotal + s.nIdle + 1;
    var share := if sharers > 0 then ShareBound(|s.queue|, sharers); |s.queue| / sharers else 0;
    var n := if maxBatch < share then maxBatch else share;
    if n < 1 then 1 else n
  }

  lemma ShareBound(n: nat, d: int)
    requires d > 0
    ensures 0 <= n / d <= n
  {
    var q := n / d;
    assert n == d * q + n % d;
    if q > n {
      Product(d, q);
      assert false;
    }
  }

  /** A batch of more than one check is at most the maximum and an equal share of the queue, and cannot be larger by one. */
  lemma BatchShare(s: State, maxBatch: nat)
    requires s.queue != [] && s.nTotal + s.nIdle >= 0
    ensures var n, sharers := BatchSize(s, maxBatch), s.nTotal + s.nIdle + 1;
            (n == 1 || (n <= maxBatch && n * sharers <= |s.queue|)) && (n < maxBatch ==> |s.queue| < (n + 1) * sharers)
  {
    var sharers := s.nTotal + s.nIdle + 1;
    ShareBound(|s.queue|, sharers);
    ShareExact(|s.queue|, sharers, if maxBatch < |s.queue| / sharers then maxBatch else |s.queue| / sharers);
  }

  /** The share n / d, or any m below it, fits d times, and no more than the share does. */
  lemma ShareExact(n: nat, d: int, m: nat)
    requires d > 0 && m <= n / d
    ensures m * d <= n < (n / d + 1) * d
  {
    var q := n / d;
    assert n == d * q + n % d;
    assert (q - m) * d >= 0;
    assert (q + 1) * d == d * q + d;
  }

  lemma Product(a: int, b: int)
    requires a >= 1 && b >= 0
    ensures a * b >= b
  {
  }

  /** The rest of the critical section: return, wait, or take a batch. */
  function Proceed(s: State, t: nat, maxBatch: nat): State
    requires t < |s.threads| && s.threads[t].Inside?
  {
    var local := s.threads[t].local;
    if s.queue == [] then
      if t == 0 && s.nTodo == 0 then
        s.(nTotal := s.nTotal - 1, result := None, threads := s.threads[t := Outside],
           round := multiset{}, finished := multiset{}, finishedRan := multiset{},
           completions := s.completions + [Completion(s.round, s.finishedRan, s.result)])
      else
        s.(nIdle := s.nIdle + 1, threads := s.threads[t := Waiting(local, false)])
    else
      var n := BatchSize(s, maxBatch);
      var start := |s.queue| - n;
      s.(queue := s.queue[..start], threads := s.threads[t := Working(s.queue[start..], s.result.None?, 0, local)])
  }

  /** Waking up in the critical section. */
  function WakeUp(s: State, t: nat): (s': State)
    requires t < |s.threads| && s.threads[t].Waiting?
    ensures |s'.threads| == |s.threads| && s'.threads[t].Inside?
  {
    s.(nIdle := s.nIdle - 1, threads := s.threads[t := Inside(s.threads[t].local)])
  }

  /** Running the next check of a batch, outside the lock. */
  function RunCheck(f: Check -> Option<Error>, s: State, t: nat): State
    requires t < |s.threads| && s.threads[t].Working? && s.threads[t].next < |s.threads[t].batch|
  {
    var w := s.threads[t];
    s.(threads := s.threads[t := w.(next := w.next + 1, local := f(w.batch[w.next]))])
  }

  /** The batch is over: it was skipped, or all its checks ran, or one of them failed. */
  predicate BatchOver(w: Thread) {
    w.Working? && (!w.doWork || w.next == |w.batch| || (w.next > 0 && w.local.Some?))
  }

  // ---------- steps ----------

  datatype Step =
    | AddStep(checks: seq<Check>)
    | BeginStep
    | RunStep(t: nat)
    | EnterStep(t: nat)
    | WakeStep(t: nat)

  /** When a step can be taken. Only the master adds checks, and only outside of Complete. */
  ghost predicate Enabled(s: State, step: Step) {
    match step
    case AddStep(checks) => checks != [] && |s.threads| > 0 && s.threads[0].Outside?
    case BeginStep => |s.threads| > 0 && s.threads[0].Outside?
    case RunStep(t) => t < |s.threads| && s.threads[t].Working? && s.threads[t].next < |s.threads[t].batch| && !BatchOver(s.threads[t])
    case EnterStep(t) => t < |s.threads| && (BatchOver(s.threads[t]) || s.threads[t].Starting?)
    case WakeStep(t) => t < |s.threads| && s.threads[t].Waiting?
  }

  ghost function Apply(f: Check -> Option<Error>, maxBatch: nat, s: State, step: Step): State
    requires Enabled(s, step)
  {
    match step
    case AddStep(checks) => Add(s, checks)
    case BeginStep => s.(threads := s.threads[0 := Starting])
    case RunStep(t) => RunCheck(f, s, t)
    case EnterStep(t) => Proceed(CleanUp(s, t), t, maxBatch)
    case WakeStep(t) => Proceed(WakeUp(s, t), t, maxBatch)
  }

  // ---------- sums over threads ----------

  datatype Kind = Idle | InLoop | InFlight | Effort | Holding(c: Check) | Ran(c: Check)

  function Weight(k: Kind, t: Thread): nat {
    match k
    case Idle => if t.Waiting? then 1 else 0
    case InLoop => if t.Outside? || t.Starting? then 0 else 1
    case InFlight => if t.Working? then |t.batch| else 0
    case Effort => if t.Starting? then 1 else if t.Working? then 1 + (if t.next <= |t.batch| then |t.batch| - t.next else 0) else 0
    case Holding(c) => if t.Working? then multiset(t.batch)[c] else 0
    case Ran(c) => if t.Working? && t.next <= |t.batch| then multiset(t.batch[..t.next])[c] else 0
  }

  ghost function Count(k: Kind, threads: seq<Thread>): nat {
    if threads == [] then 0 else Count(k, threads[..|threads| - 1]) + Weight(k, threads[|threads| - 1])
  }

  lemma {:induction false} CountUpdate(k: Kind, threads: seq<Thread>, i: nat, t: Thread)
    requires i < |threads|
    ensures Count(k, threads[i := t]) == Count(k, threads) - Weight(k, threads[i]) + Weight(k, t)
  {
    hide Weight;
    var n := |threads| - 1;
    if i == n {
      assert threads[i := t][..n] == threads[..n];
    } else {
      assert threads[i := t][..n] == threads[..n][i := t];
      CountUpdate(k, threads[..n], i, t);
    }
  }

  /** A sum is zero if all its terms are, and positive only if one of them is. */
  lemma {:induction false} CountZero(k: Kind, threads: seq<Thread>)
    ensures Count(k, threads) == 0 <==> forall t :: 0 <= t < |threads| ==> Weight(k, threads[t]) == 0
  {
    hide Weight;
    if threads != [] {
      var n := |threads| - 1;
      CountZero(k, threads[..n]);
      if Count(k, threads) == 0 {
        forall t | 0 <= t < |threads|
          ensures Weight(k, threads[t]) == 0
        {
          assert t < n ==> threads[..n][t] == threads[t];
        }
      } else {
        assert Weight(k, threads[n]) != 0 || exists t :: 0 <= t < n && Weight(k, threads[..n][t]) != 0;
      }
    }
  }

  // ---------- the invariant ----------

  ghost predicate AllPass(f: Check -> Option<Error>, checks: multiset<Check>) {
    forall c :: c in checks ==> f(c).None?
  }

  ghost predicate Produced(f: Check -> Option<Error>, checks: multiset<Check>, e: Error) {
    exists c :: c in checks && f(c) == Some(e)
  }

  /** What Complete promises: no error only if every check ran and passed, and otherwise an error of this round. */
  ghost predicate Sound(f: Check -> Option<Error>, c: Completion) {
    match c.result
    case None => c.ran == c.round && AllPass(f, c.round)
    case Some(e) => c.ran <= c.round && Produced(f, c.ran, e)
  }

  /** A working thread: its batch is skipped only when an error is known, and otherwise all but the last check it ran passed. */
  ghost predicate WorkerOk(f: Check -> Option<Error>, result: Option<Error>, w: Thread) {
    w.Working? ==>
      && w.batch != [] && w.next <= |w.batch|
      && (!w.doWork ==> w.next == 0 && result.Some?)
      && (forall j :: 0 <= j < w.next - 1 ==> f(w.batch[j]).None?)
      && (w.next > 0 ==> w.local == f(w.batch[w.next - 1]))
  }

  ghost predicate WorkersOk(f: Check -> Option<Error>, s: State) {
    && (forall t :: 0 <= t < |s.threads| ==> WorkerOk(f, s.result, s.threads[t]))
    && (forall t :: 0 < t < |s.threads| ==> !s.threads[t].Outside?)
  }

  ghost predicate ResultOk(f: Check -> Option<Error>, result: Option<Error>, finished: multiset<Check>, ran: multiset<Check>) {
    && ran <= finished
    && (result.None? ==> ran == finished && AllPass(f, finished))
    && (result.Some? ==> Produced(f, ran, result.value))
  }

  /** The counters are exact. */
  ghost predicate CountersOk(s: State) {
    && s.nTodo == |s.queue| + Count(InFlight, s.threads)
    && s.nIdle == Count(Idle, s.threads) && s.nTotal == Count(InLoop, s.threads)
  }

  /** No check of the round is lost or done twice. */
  ghost predicate Conserved(s: State) {
    forall c :: s.round[c] == multiset(s.queue)[c] + Count(Holding(c), s.threads) + s.finished[c]
  }

  /** A master that waits without having been notified has work outstanding, none of it queued. */
  ghost predicate MasterOk(s: State) {
    |s.threads| > 0 && (s.threads[0].Waiting? && !s.threads[0].notified ==> s.queue == [] && s.nTodo > 0)
  }

  ghost predicate CompletionsOk(f: Check -> Option<Error>, s: State) {
    forall i :: 0 <= i < |s.completions| ==> Sound(f, s.completions[i])
  }

  ghost predicate Inv(f: Check -> Option<Error>, s: State) {
    && CountersOk(s) && Conserved(s) && MasterOk(s)
    && ResultOk(f, s.result, s.finished, s.finishedRan) && WorkersOk(f, s) && CompletionsOk(f, s)
  }

  // ---------- every step keeps it ----------

  lemma AddKeeps(f: Check -> Option<Error>, s: State, checks: seq<Check>)
    requires Inv(f, s) && s.threads[0].Outside?
    ensures Inv(f, Add(s, checks))
  {
    hide Count, Sound, ResultOk, WorkerOk;
    var s' := Add(s, checks);
    forall c
      ensures s'.round[c] == multiset(s'.queue)[c] + Count(Holding(c), s'.threads) + s'.finished[c]
    {
      assert s.round[c] == multiset(s.queue)[c] + Count(Holding(c), s.threads) + s.finished[c];
    }
  }

  /** The sums after one thread changes. */
  lemma Sums(s: State, t: nat, w: Thread)
    requires t < |s.threads|
    ensures forall k :: Count(k, s.threads[t := w]) == Count(k, s.threads) - Weight(k, s.threads[t]) + Weight(k, w)
  {
    hide Count, Weight;
    forall k
      ensures Count(k, s.threads[t := w]) == Count(k, s.threads) - Weight(k, s.threads[t]) + Weight(k, w)
    {
      CountUpdate(k, s.threads, t, w);
    }
  }

  lemma WorkersChange(f: Check -> Option<Error>, s: State, t: nat, w: Thread, result: Option<Error>)
    requires WorkersOk(f, s) && t < |s.threads| && (w.Outside? ==> t == 0) && WorkerOk(f, result, w)
    requires s.result.Some? ==> result.Some?
    ensures WorkersOk(f, s.(threads := s.threads[t := w], result := result))
  {
    var s' := s.(threads := s.threads[t := w], result := result);
    forall q | 0 <= q < |s.threads|
      ensures WorkerOk(f, result, s'.threads[q])
    {
      assert WorkerOk(f, s.result, s.threads[q]);
    }
  }

  /** A thread changes without taking or finishing checks. */
  lemma QuietChange(f: Check -> Option<Error>, s: State, t: nat, w: Thread, s': State)
    requires Inv(f, s) && t < |s.threads| && (w.Outside? ==> t == 0) && WorkerOk(f, s.result, w)
    requires forall c :: Weight(Holding(c), w) == Weight(Holding(c), s.threads[t])
    requires Weight(InFlight, w) == Weight(InFlight, s.threads[t])
    requires s' == s.(threads := s.threads[t := w], nIdle := s.nIdle - Weight(Idle, s.threads[t]) + Weight(Idle, w),
                      nTotal := s.nTotal - Weight(InLoop, s.threads[t]) + Weight(InLoop, w))
    requires t == 0 && w.Waiting? && !w.notified ==> s.queue == [] && s.nTodo > 0
    ensures Inv(f, s')
  {
    hide Count, Weight, Sound, ResultOk, WorkerOk;
    Sums(s, t, w);
    WorkersChange(f, s, t, w, s.result);
    assert Conserved(s') by {
      forall c
        ensures s'.round[c] == multiset(s'.queue)[c] + Count(Holding(c), s'.threads) + s'.finished[c]
      {
        assert s.round[c] == multiset(s.queue)[c] + Count(Holding(c), s.threads) + s.finished[c];
      }
    }
  }

  lemma RunKeeps(f: Check -> Option<Error>, s: State, t: nat)
    requires Inv(f, s) && Enabled(s, RunStep(t))
    ensures Inv(f, RunCheck(f, s, t))
  {
    var s' := RunCheck(f, s, t);
    assert WorkerOk(f, s.result, s.threads[t]) by {
      hide CountersOk, Conserved, MasterOk, ResultOk, CompletionsOk;
    }
    hide Inv;
    QuietChange(f, s, t, s'.threads[t], s');
  }

  lemma WakeUpKeeps(f: Check -> Option<Error>, s: State, t: nat)
    requires Inv(f, s) && t < |s.threads| && s.threads[t].Waiting?
    ensures Inv(f, WakeUp(s, t))
  {
    var s' := WakeUp(s, t);
    hide Inv;
    QuietChange(f, s, t, s'.threads[t], s');
  }

  lemma StartKeeps(f: Check -> Option<Error>, s: State, t: nat)
    requires Inv(f, s) && t < |s.threads| && s.threads[t].Starting?
    ensures Inv(f, CleanUp(s, t))
  {
    var s' := CleanUp(s, t);
    hide Inv;
    QuietChange(f, s, t, s'.threads[t], s');
  }

  /** The result after the clean-up: a stale local result is never mistaken for one of this batch. */
  lemma CleanUpResult(f: Check -> Option<Error>, result: Option<Error>, finished: multiset<Check>, ran: multiset<Check>, w: Thread)
    requires ResultOk(f, result, finished, ran) && WorkerOk(f, result, w) && BatchOver(w)
    ensures ResultOk(f, if w.local.Some? && result.None? then w.local else result,
                     finished + multiset(w.batch), ran + multiset(w.batch[..w.next]))
  {
    var part := w.batch[..w.next];
    assert w.batch == part + w.batch[w.next..];
    assert multiset(part) <= multiset(w.batch);
    if !w.doWork {
      StillProduced(f, ran, multiset(part), result.value);
    } else {
      assert w.next > 0 && part[w.next - 1] == w.batch[w.next - 1];
      if w.local.None? {
        PassedBatch(f, w);
        if result.Some? {
          StillProduced(f, ran, multiset(part), result.value);
        }
      } else if result.None? {
        assert w.batch[w.next - 1] in ran + multiset(part);
      } else {
        StillProduced(f, ran, multiset(part), result.value);
      }
    }
  }

  lemma StillProduced(f: Check -> Option<Error>, ran: multiset<Check>, more: multiset<Check>, e: Error)
    requires Produced(f, ran, e)
    ensures Produced(f, ran + more, e)
  {
    var c :| c in ran && f(c) == Some(e);
    assert c in ran + more;
  }

  lemma PassedBatch(f: Check -> Option<Error>, w: Thread)
    requires w.Working? && w.batch != [] && w.next == |w.batch| && w.local == f(w.batch[w.next - 1]) && w.local.None?
    requires forall j :: 0 <= j < w.next - 1 ==> f(w.batch[j]).None?
    ensures w.batch[..w.next] == w.batch && AllPass(f, multiset(w.batch))
  {
    forall c | c in multiset(w.batch)
      ensures f(c).None?
    {
      var j :| 0 <= j < |w.batch| && w.batch[j] == c;
    }
  }

  lemma Notified(threads: seq<Thread>)
    requires threads != []
    ensures forall k :: Count(k, NotifyMaster(threads)) == Count(k, threads)
    ensures |NotifyMaster(threads)| == |threads| && forall t :: 0 < t < |threads| ==> NotifyMaster(threads)[t] == threads[t]
    ensures NotifyMaster(threads)[0] == if threads[0].Waiting? then threads[0].(notified := true) else threads[0]
  {
    hide Count;
    if threads[0].Waiting? {
      var m := threads[0].(notified := true);
      forall k
        ensures Count(k, threads[0 := m]) == Count(k, threads)
      {
        CountUpdate(k, threads, 0, m);
      }
    }
  }

  lemma NotifyKeeps(f: Check -> Option<Error>, s: State)
    requires s.threads != [] && CountersOk(s) && Conserved(s) && WorkersOk(f, s)
    ensures var s' := s.(threads := NotifyMaster(s.threads));
            CountersOk(s') && Conserved(s') && WorkersOk(f, s') && MasterOk(s')
  {
    hide Count, NotifyMaster;
    Notified(s.threads);
    var s' := s.(threads := NotifyMaster(s.threads));
    forall c
      ensures s'.round[c] == multiset(s'.queue)[c] + Count(Holding(c), s'.threads) + s'.finished[c]
    {
      assert s.round[c] == multiset(s.queue)[c] + Count(Holding(c), s.threads) + s.finished[c];
    }
    forall t | 0 <= t < |s'.threads|
      ensures WorkerOk(f, s'.result, s'.threads[t])
    {
      assert WorkerOk(f, s.result, s.threads[t]);
    }
  }

  /** The clean-up before a possible notification. */
  ghost function Finish(s: State, t: nat): State
    requires t < |s.threads| && s.threads[t].Working? && s.threads[t].next <= |s.threads[t].batch|
  {
    var w := s.threads[t];
    var swaps := w.local.Some? && s.result.None?;
    s.(result := if swaps then w.local else s.result, nTodo := s.nTodo - |w.batch|,
       threads := s.threads[t := Inside(if swaps then None else w.local)],
       finished := s.finished + multiset(w.batch), finishedRan := s.finishedRan + multiset(w.batch[..w.next]))
  }

  lemma FinishKeeps(f: Check -> Option<Error>, s: State, t: nat)
    requires Inv(f, s) && t < |s.threads| && s.threads[t].Working? && s.threads[t].next <= |s.threads[t].batch|
    ensures var s' := Finish(s, t);
            CountersOk(s') && Conserved(s') && WorkersOk(f, s') && CompletionsOk(f, s')
  {
    hide Count, Sound, ResultOk, WorkerOk, MasterOk;
    var s', w := Finish(s, t), s.threads[t];
    Sums(s, t, s'.threads[t]);
    FinishWorkers(f, s, t);
    assert CountersOk(s');
    forall c
      ensures s'.round[c] == multiset(s'.queue)[c] + Count(Holding(c), s'.threads) + s'.finished[c]
    {
      assert s.round[c] == multiset(s.queue)[c] + Count(Holding(c), s.threads) + s.finished[c];
    }
  }

  lemma FinishWorkers(f: Check -> Option<Error>, s: State, t: nat)
    requires WorkersOk(f, s) && t < |s.threads| && s.threads[t].Working? && s.threads[t].next <= |s.threads[t].batch|
    ensures WorkersOk(f, Finish(s, t))
  {
    var s' := Finish(s, t);
    WorkersChange(f, s, t, s'.threads[t], s'.result);
  }

  lemma CleanUpIs(s: State, t: nat)
    requires t < |s.threads| && s.threads[t].Working? && s.threads[t].next <= |s.threads[t].batch|
    ensures var s1 := Finish(s, t);
            CleanUp(s, t) == if s1.nTodo == 0 && t != 0 then s1.(threads := NotifyMaster(s1.threads)) else s1
  {
  }

  lemma CleanUpKeeps(f: Check -> Option<Error>, s: State, t: nat)
    requires Inv(f, s) && t < |s.threads| && (BatchOver(s.threads[t]) || s.threads[t].Starting?)
    ensures Inv(f, CleanUp(s, t))
  {
    if s.threads[t].Starting? {
      hide Inv;
      StartKeeps(f, s, t);
    } else {
      OverKeeps(f, s, t);
    }
  }

  lemma WorkerAt(f: Check -> Option<Error>, s: State, t: nat)
    requires Inv(f, s) && t < |s.threads|
    ensures WorkerOk(f, s.result, s.threads[t])
  {
    hide CountersOk, Conserved, MasterOk, ResultOk, CompletionsOk, WorkerOk;
  }

  lemma OverKeeps(f: Check -> Option<Error>, s: State, t: nat)
    requires Inv(f, s) && t < |s.threads| && BatchOver(s.threads[t])
    ensures Inv(f, CleanUp(s, t))
  {
    hide Count, CountersOk, Conserved, WorkersOk, ResultOk, CompletionsOk, CleanUp, Sound, BatchOver;
    WorkerAt(f, s, t);
    OverIs(s.threads[t]);
    FinishKeeps(f, s, t);
    CleanUpIs(s, t);
    var s1 := Finish(s, t);
    CleanUpResult(f, s.result, s.finished, s.finishedRan, s.threads[t]);
    if s1.nTodo == 0 && t != 0 {
      NotifyKeeps(f, s1);
      Notified(s1.threads);
      SameCompletions(f, s1, CleanUp(s, t));
    } else {
      assert t != 0 ==> s1.threads[0] == s.threads[0];
      NonNegative(s1);
    }
  }

  lemma OverIs(w: Thread)
    requires BatchOver(w)
    ensures w.Working?
  {
  }

  lemma SameCompletions(f: Check -> Option<Error>, s: State, s': State)
    requires CompletionsOk(f, s) && s'.completions == s.completions
    ensures CompletionsOk(f, s')
  {
  }

  lemma NonNegative(s: State)
    requires CountersOk(s)
    ensures s.nTodo >= 0
  {
  }

  lemma NobodyWorks(f: Check -> Option<Error>, s: State)
    requires Inv(f, s) && s.queue == [] && s.nTodo == 0
    ensures s.round == s.finished && forall t :: 0 <= t < |s.threads| ==> !s.threads[t].Working?
  {
    hide Count, Sound, ResultOk, CompletionsOk, MasterOk;
    CountZero(InFlight, s.threads);
    forall t | 0 <= t < |s.threads|
      ensures !s.threads[t].Working?
    {
      assert WorkerOk(f, s.result, s.threads[t]);
      assert Weight(InFlight, s.threads[t]) == 0;
    }
    forall c
      ensures s.round[c] == s.finished[c]
    {
      CountZero(Holding(c), s.threads);
      assert s.round[c] == multiset(s.queue)[c] + Count(Holding(c), s.threads) + s.finished[c];
    }
  }

  lemma ReturnKeeps(f: Check -> Option<Error>, s: State, maxBatch: nat)
    requires Inv(f, s) && s.threads[0].Inside? && s.queue == [] && s.nTodo == 0
    ensures Inv(f, Proceed(s, 0, maxBatch))
  {
    hide Count;
    var s' := Proceed(s, 0, maxBatch);
    NobodyWorks(f, s);
    Sums(s, 0, Outside);
    ReturnSound(f, s);
    forall c
      ensures s'.round[c] == multiset(s'.queue)[c] + Count(Holding(c), s'.threads) + s'.finished[c]
    {
      assert s.round[c] == multiset(s.queue)[c] + Count(Holding(c), s.threads) + s.finished[c];
    }
    forall q | 0 <= q < |s.threads|
      ensures WorkerOk(f, s'.result, s'.threads[q])
    {
      assert !s'.threads[q].Working?;
    }
  }

  lemma ReturnSound(f: Check -> Option<Error>, s: State)
    requires ResultOk(f, s.result, s.finished, s.finishedRan) && s.round == s.finished && CompletionsOk(f, s)
    ensures CompletionsOk(f, s.(completions := s.completions + [Completion(s.round, s.finishedRan, s.result)]))
    ensures ResultOk(f, None, multiset{}, multiset{})
  {
    assert Sound(f, Completion(s.round, s.finishedRan, s.result));
  }

  lemma WaitKeeps(f: Check -> Option<Error>, s: State, t: nat, maxBatch: nat)
    requires Inv(f, s) && t < |s.threads| && s.threads[t].Inside? && s.queue == []
    requires t == 0 ==> s.nTodo != 0
    ensures Inv(f, Proceed(s, t, maxBatch))
  {
    var s' := Proceed(s, t, maxBatch);
    TodoNonNegative(f, s);
    hide Inv;
    QuietChange(f, s, t, s'.threads[t], s');
  }

  lemma TodoNonNegative(f: Check -> Option<Error>, s: State)
    requires Inv(f, s)
    ensures s.nTodo >= 0
  {
    hide Conserved, MasterOk, ResultOk, WorkersOk, CompletionsOk;
  }

  lemma TakeKeeps(f: Check -> Option<Error>, s: State, t: nat, maxBatch: nat)
    requires Inv(f, s) && t < |s.threads| && s.threads[t].Inside? && s.queue != []
    ensures Inv(f, Proceed(s, t, maxBatch))
  {
    var s' := Proceed(s, t, maxBatch);
    hide Count, Sound, ResultOk, WorkersOk, Conserved, CompletionsOk;
    Sums(s, t, s'.threads[t]);
    TakeConserved(s, t, maxBatch);
    WorkersChange(f, s, t, s'.threads[t], s.result);
    SameWorkers(f, s.(threads := s'.threads), s');
    SameCompletions(f, s, s');
  }

  lemma TakeConserved(s: State, t: nat, maxBatch: nat)
    requires Conserved(s) && t < |s.threads| && s.threads[t].Inside? && s.queue != []
    ensures Conserved(Proceed(s, t, maxBatch))
  {
    hide Count, BatchSize, Weight;
    var s' := Proceed(s, t, maxBatch);
    var start, w := |s.queue| - BatchSize(s, maxBatch), s'.threads[t];
    forall c
      ensures s'.round[c] == multiset(s'.queue)[c] + Count(Holding(c), s'.threads) + s'.finished[c]
    {
      assert s.round[c] == multiset(s.queue)[c] + Count(Holding(c), s.threads) + s.finished[c];
      CountUpdate(Holding(c), s.threads, t, w);
      HeldBy(s.threads[t], c);
      HeldBy(w, c);
      SplitCount(s.queue, start, c);
    }
  }

  lemma HeldBy(w: Thread, c: Check)
    ensures Weight(Holding(c), w) == if w.Working? then multiset(w.batch)[c] else 0
  {
  }

  lemma SplitCount(q: seq<Check>, start: nat, c: Check)
    requires start <= |q|
    ensures multiset(q)[c] == multiset(q[..start])[c] + multiset(q[start..])[c]
  {
    assert q == q[..start] + q[start..];
  }

  lemma SameWorkers(f: Check -> Option<Error>, s: State, s': State)
    requires WorkersOk(f, s) && s'.threads == s.threads && s'.result == s.result
    ensures WorkersOk(f, s')
  {
  }

  lemma ProceedKeeps(f: Check -> Option<Error>, s: State, t: nat, maxBatch: nat)
    requires Inv(f, s) && t < |s.threads| && s.threads[t].Inside?
    ensures Inv(f, Proceed(s, t, maxBatch))
  {
    hide Inv, Proceed;
    if s.queue != [] {
      TakeKeeps(f, s, t, maxBatch);
    } else if t == 0 && s.nTodo == 0 {
      ReturnKeeps(f, s, maxBatch);
    } else {
      WaitKeeps(f, s, t, maxBatch);
    }
  }

  lemma BeginKeeps(f: Check -> Option<Error>, s: State)
    requires Inv(f, s) && |s.threads| > 0 && s.threads[0].Outside?
    ensures Inv(f, s.(threads := s.threads[0 := Starting]))
  {
    var s' := s.(threads := s.threads[0 := Starting]);
    hide Inv;
    QuietChange(f, s, 0, Starting, s');
  }

  /** Every step of every thread keeps the invariant. */
  lemma StepKeeps(f: Check -> Option<Error>, maxBatch: nat, s: State, step: Step)
    requires Inv(f, s) && Enabled(s, step)
    ensures Inv(f, Apply(f, maxBatch, s, step))
  {
    hide Inv, Proceed, CleanUp, WakeUp, Add, RunCheck;
    match step
    case AddStep(checks) => AddKeeps(f, s, checks);
    case BeginStep => BeginKeeps(f, s);
    case RunStep(t) => RunKeeps(f, s, t);
    case EnterStep(t) =>
      CleanUpKeeps(f, s, t);
      ProceedKeeps(f, CleanUp(s, t), t, maxBatch);
    case WakeStep(t) =>
      WakeUpKeeps(f, s, t);
      ProceedKeeps(f, WakeUp(s, t), t, maxBatch);
  }

  // ---------- whole runs ----------

  /** The initial state with a number of workers, none of which has started yet. */
  function Initial(workers: nat): State {
    State([], 0, 0, None, 0, [Outside] + seq(workers, _ => Starting), multiset{}, multiset{}, multiset{}, [])
  }

  lemma InitialOk(f: Check -> Option<Error>, workers: nat)
    ensures Inv(f, Initial(workers))
  {
    hide Count;
    var s := Initial(workers);
    forall k | k != Effort
      ensures Count(k, s.threads) == 0
    {
      CountZero(k, s.threads);
    }
  }

  /** A run: the first state is the initial one, and each step is enabled and leads to the next state. */
  ghost predicate IsRun(f: Check -> Option<Error>, maxBatch: nat, workers: nat, run: seq<State>, steps: seq<Step>) {
    && |run| == |steps| + 1 && run[0] == Initial(workers)
    && forall i :: 0 <= i < |steps| ==> Follows(f, maxBatch, run[i], steps[i], run[i + 1])
  }

  ghost predicate Follows(f: Check -> Option<Error>, maxBatch: nat, s: State, step: Step, s': State) {
    Enabled(s, step) && s' == Apply(f, maxBatch, s, step)
  }

  lemma {:induction false} RunKeepsInv(f: Check -> Option<Error>, maxBatch: nat, workers: nat, run: seq<State>, steps: seq<Step>, i: nat)
    requires IsRun(f, maxBatch, workers, run, steps) && i < |run|
    ensures Inv(f, run[i])
  {
    hide Inv, Apply, Enabled;
    if i == 0 {
      InitialOk(f, workers);
    } else {
      RunKeepsInv(f, maxBatch, workers, run, steps, i - 1);
      var j := i - 1;
      assert Follows(f, maxBatch, run[j], steps[j], run[j + 1]);
      StepKeeps(f, maxBatch, run[j], steps[j]);
    }
  }

  // ---------- rounds, as the caller sees them ----------

  /** The master is in Complete. */
  predicate InComplete(s: State) {
    s.threads != [] && !s.threads[0].Outside?
  }

  /** A call of Complete returns. */
  predicate Returns(s: State, s': State) {
    InComplete(s) && !InComplete(s')
  }

  /** The checks handed to Add since Complete returned last. */
  ghost function AddedChecks(run: seq<State>, steps: seq<Step>, i: nat): multiset<Check>
    requires |run| == |steps| + 1 && i < |run|
  {
    if i == 0 || Returns(run[i - 1], run[i]) then multiset{}
    else AddedChecks(run, steps, i - 1) + if steps[i - 1].AddStep? then multiset(steps[i - 1].checks) else multiset{}
  }

  /** The check that a step runs. */
  ghost function RunBy(s: State, step: Step): multiset<Check> {
    if step.RunStep? && Enabled(s, step) then multiset{s.threads[step.t].batch[s.threads[step.t].next]} else multiset{}
  }

  /** The checks run since Complete returned last. */
  ghost function RunChecks(run: seq<State>, steps: seq<Step>, i: nat): multiset<Check>
    requires |run| == |steps| + 1 && i < |run|
  {
    if i == 0 || Returns(run[i - 1], run[i]) then multiset{}
    else RunChecks(run, steps, i - 1) + RunBy(run[i - 1], steps[i - 1])
  }

  /** How often a check has been run: in finished batches, and in those underway. */
  ghost function TimesRun(s: State, c: Check): nat {
    s.finishedRan[c] + Count(Ran(c), s.threads)
  }

  /** What a step does to what has been added and run in this round. */
  ghost predicate Accounted(s: State, step: Step, s': State) {
    if Returns(s, s') then
      && s'.round == multiset{} && (forall c :: TimesRun(s', c) == 0)
      && |s'.completions| == |s.completions| + 1
      && var last := s'.completions[|s.completions|]; last.round == s.round && forall c :: last.ran[c] == TimesRun(s, c)
    else
      && s'.round == s.round + (if step.AddStep? then multiset(step.checks) else multiset{})
      && forall c :: TimesRun(s', c) == TimesRun(s, c) + RunBy(s, step)[c]
  }

  ghost predicate SameAccounts(s: State, s': State) {
    s'.round == s.round && s'.completions == s.completions && forall c :: TimesRun(s', c) == TimesRun(s, c)
  }

  /** A thread that has not run anything that was not accounted for changes to another such one. */
  lemma QuietAccounts(s: State, t: nat, w: Thread, s': State)
    requires t < |s.threads| && s'.threads == s.threads[t := w]
    requires forall c :: s'.finishedRan[c] + Weight(Ran(c), w) == s.finishedRan[c] + Weight(Ran(c), s.threads[t])
    ensures forall c :: TimesRun(s', c) == TimesRun(s, c)
  {
    hide Count, Weight;
    Sums(s, t, w);
  }

  /** The clean-up moves what a thread has run into the account of finished batches. */
  lemma CleanUpAccounts(f: Check -> Option<Error>, s: State, t: nat)
    requires Inv(f, s) && t < |s.threads| && (BatchOver(s.threads[t]) || s.threads[t].Starting?)
    ensures SameAccounts(s, CleanUp(s, t))
    ensures t != 0 ==> (InComplete(s) <==> InComplete(CleanUp(s, t)))
  {
    if s.threads[t].Starting? {
      StartAccounts(s, t);
    } else {
      WorkerAt(f, s, t);
      hide Inv, CleanUp, SameAccounts, InComplete;
      OverAccounts(s, t);
    }
  }

  lemma StartAccounts(s: State, t: nat)
    requires t < |s.threads| && s.threads[t].Starting?
    ensures SameAccounts(s, CleanUp(s, t)) && (t != 0 ==> (InComplete(s) <==> InComplete(CleanUp(s, t))))
  {
    hide TimesRun, NotifyMaster;
    QuietAccounts(s, t, Inside(None), CleanUp(s, t));
  }

  lemma OverAccounts(s: State, t: nat)
    requires t < |s.threads| && s.threads[t].Working? && s.threads[t].next <= |s.threads[t].batch|
    ensures SameAccounts(s, CleanUp(s, t)) && (t != 0 ==> (InComplete(s) <==> InComplete(CleanUp(s, t))))
  {
    hide TimesRun;
    CleanUpIs(s, t);
    hide CleanUp;
    FinishAccounts(s, t);
    NotifiedAccounts(Finish(s, t));
  }

  lemma FinishAccounts(s: State, t: nat)
    requires t < |s.threads| && s.threads[t].Working? && s.threads[t].next <= |s.threads[t].batch|
    ensures SameAccounts(s, Finish(s, t))
  {
    hide TimesRun;
    var s' := Finish(s, t);
    QuietAccounts(s, t, s'.threads[t], s');
  }

  lemma NotifiedAccounts(s: State)
    requires s.threads != []
    ensures SameAccounts(s, s.(threads := NotifyMaster(s.threads)))
  {
    hide Count, NotifyMaster;
    Notified(s.threads);
  }

  lemma WakeUpAccounts(s: State, t: nat)
    requires t < |s.threads| && s.threads[t].Waiting?
    ensures SameAccounts(s, WakeUp(s, t)) && (InComplete(s) <==> InComplete(WakeUp(s, t)))
  {
    hide Count, TimesRun;
    QuietAccounts(s, t, Inside(s.threads[t].local), WakeUp(s, t));
  }

  /** The rest of the critical section closes the accounts if Complete returns, and otherwise leaves them alone. */
  lemma ProceedAccounts(f: Check -> Option<Error>, s: State, t: nat, maxBatch: nat)
    requires Inv(f, s) && t < |s.threads| && s.threads[t].Inside?
    ensures var s' := Proceed(s, t, maxBatch);
            if t == 0 && !InComplete(s') then
              && s'.round == multiset{} && (forall c :: TimesRun(s', c) == 0)
              && |s'.completions| == |s.completions| + 1
              && var last := s'.completions[|s.completions|]; last.round == s.round && forall c :: last.ran[c] == TimesRun(s, c)
            else
              SameAccounts(s, s') && (InComplete(s) <==> InComplete(s'))
  {
    hide Count, Inv;
    var s' := Proceed(s, t, maxBatch);
    if s.queue == [] && t == 0 && s.nTodo == 0 {
      NobodyWorks(f, s);
      NothingRun(s);
      NothingRun(s');
    } else {
      assert s'.threads[t].Working? ==> s'.threads[t].batch[..0] == [];
      hide TimesRun;
      QuietAccounts(s, t, s'.threads[t], s');
    }
  }

  lemma NothingRun(s: State)
    requires forall t :: 0 <= t < |s.threads| ==> !s.threads[t].Working?
    ensures forall c :: TimesRun(s, c) == s.finishedRan[c]
  {
    hide Count;
    forall c
      ensures Count(Ran(c), s.threads) == 0
    {
      CountZero(Ran(c), s.threads);
    }
  }

  /** What a step does to the accounts of its round. */
  lemma StepAccounts(f: Check -> Option<Error>, maxBatch: nat, s: State, step: Step)
    requires Inv(f, s) && Enabled(s, step)
    ensures Accounted(s, step, Apply(f, maxBatch, s, step))
  {
    hide Inv, Count, Proceed, CleanUp, WakeUp;
    match step
    case AddStep(checks) =>
    case BeginStep =>
      QuietAccounts(s, 0, Starting, s.(threads := s.threads[0 := Starting]));
    case RunStep(t) => RunAccounts(f, s, t);
    case EnterStep(t) =>
      CleanUpAccounts(f, s, t);
      CleanUpKeeps(f, s, t);
      hide TimesRun;
      ProceedAccounts(f, CleanUp(s, t), t, maxBatch);
    case WakeStep(t) =>
      WakeUpAccounts(s, t);
      WakeUpKeeps(f, s, t);
      hide TimesRun;
      ProceedAccounts(f, WakeUp(s, t), t, maxBatch);
  }

  lemma RunAccounts(f: Check -> Option<Error>, s: State, t: nat)
    requires Enabled(s, RunStep(t))
    ensures Accounted(s, RunStep(t), RunCheck(f, s, t))
  {
    hide Count;
    var w, s' := s.threads[t], RunCheck(f, s, t);
    Sums(s, t, s'.threads[t]);
    assert w.batch[..w.next + 1] == w.batch[..w.next] + [w.batch[w.next]];
  }

  /** In every state of every run, the accounts are those of the steps taken since Complete returned last. */
  lemma {:induction false} RoundExact(f: Check -> Option<Error>, maxBatch: nat, workers: nat, run: seq<State>, steps: seq<Step>, i: nat)
    requires IsRun(f, maxBatch, workers, run, steps) && i < |run|
    ensures run[i].round == AddedChecks(run, steps, i)
    ensures forall c :: TimesRun(run[i], c) == RunChecks(run, steps, i)[c]
  {
    hide Inv, Apply, Enabled, TimesRun;
    if i == 0 {
      NothingRun(run[0]);
    } else {
      var j := i - 1;
      RoundExact(f, maxBatch, workers, run, steps, j);
      RunKeepsInv(f, maxBatch, workers, run, steps, j);
      assert Follows(f, maxBatch, run[j], steps[j], run[j + 1]);
      StepAccounts(f, maxBatch, run[j], steps[j]);
    }
  }

  /** In every state of every run, nTodo counts the queued checks and those in batches, and no check that was added is lost. */
  lemma TodoExact(f: Check -> Option<Error>, maxBatch: nat, workers: nat, run: seq<State>, steps: seq<Step>, i: nat)
    requires IsRun(f, maxBatch, workers, run, steps) && i < |run|
    ensures run[i].nTodo == |run[i].queue| + Count(InFlight, run[i].threads)
    ensures forall c :: AddedChecks(run, steps, i)[c] == multiset(run[i].queue)[c] + Count(Holding(c), run[i].threads) + run[i].finished[c]
  {
    hide Count;
    RunKeepsInv(f, maxBatch, workers, run, steps, i);
    RoundExact(f, maxBatch, workers, run, steps, i);
  }

  /**
    Every call of Complete in every run: it returns no error only if every check added since
    the previous one returned has been run, once, and passed; and otherwise an error that one
    of these checks gave when it was run. None is run more often than it was added.
  */
  lemma CompleteSound(f: Check -> Option<Error>, maxBatch: nat, workers: nat, run: seq<State>, steps: seq<Step>, i: nat)
    requires IsRun(f, maxBatch, workers, run, steps) && i < |steps| && Returns(run[i], run[i + 1])
    ensures |run[i + 1].completions| == |run[i].completions| + 1
    ensures match run[i + 1].completions[|run[i].completions|].result
            case None => RunChecks(run, steps, i) == AddedChecks(run, steps, i) && AllPass(f, AddedChecks(run, steps, i))
            case Some(e) => RunChecks(run, steps, i) <= AddedChecks(run, steps, i) && Produced(f, RunChecks(run, steps, i), e)
  {
    hide Apply, Enabled, Inv, TimesRun, AddedChecks, RunChecks;
    RunKeepsInv(f, maxBatch, workers, run, steps, i);
    RunKeepsInv(f, maxBatch, workers, run, steps, i + 1);
    RoundExact(f, maxBatch, workers, run, steps, i);
    assert Follows(f, maxBatch, run[i], steps[i], run[i + 1]);
    StepAccounts(f, maxBatch, run[i], steps[i]);
    ReturnedSound(f, run[i + 1], |run[i].completions|);
    SameMultiset(run[i + 1].completions[|run[i].completions|].ran, RunChecks(run, steps, i));
  }

  lemma SameMultiset(a: multiset<Check>, b: multiset<Check>)
    requires forall c :: a[c] == b[c]
    ensures a == b
  {
  }

  lemma ReturnedSound(f: Check -> Option<Error>, s: State, k: nat)
    requires Inv(f, s) && k < |s.completions|
    ensures Sound(f, s.completions[k])
  {
    hide Sound;
  }

  /** A master that waits without having been notified can rely on a worker that still holds a batch. */
  lemma MasterIsAwaited(f: Check -> Option<Error>, s: State) returns (t: nat)
    requires Inv(f, s) && s.threads[0].Waiting? && !s.threads[0].notified
    ensures 0 < t < |s.threads| && s.threads[t].Working? && s.threads[t].batch != []
  {
    hide Count, Sound, ResultOk;
    CountZero(InFlight, s.threads);
    t :| 0 <= t < |s.threads| && Weight(InFlight, s.threads[t]) != 0;
  }

  // ---------- Complete returns ----------

  /** Between steps no thread is in the critical section, and a notified master has nothing left to wait for. */
  ghost predicate Settled(s: State) {
    && (forall t :: 0 <= t < |s.threads| ==> !s.threads[t].Inside?)
    && (s.threads != [] && s.threads[0].Waiting? && s.threads[0].notified ==> s.nTodo == 0)
  }

  /** While thread t is in the critical section, this holds of all others. */
  ghost predicate SettledBut(s: State, t: nat) {
    && (forall q :: 0 <= q < |s.threads| && q != t ==> !s.threads[q].Inside?)
    && (s.threads != [] && s.threads[0].Waiting? && s.threads[0].notified ==> s.nTodo == 0)
  }

  lemma ProceedSettled(s: State, t: nat, maxBatch: nat)
    requires t < |s.threads| && s.threads[t].Inside? && SettledBut(s, t)
    ensures Settled(Proceed(s, t, maxBatch))
  {
  }

  lemma CleanUpSettled(f: Check -> Option<Error>, s: State, t: nat)
    requires Inv(f, s) && Settled(s) && t < |s.threads| && (BatchOver(s.threads[t]) || s.threads[t].Starting?)
    ensures SettledBut(CleanUp(s, t), t)
  {
    if s.threads[t].Working? {
      WorkedOn(f, s, t);
    }
  }

  /** A thread that holds a batch is counted. */
  lemma WorkedOn(f: Check -> Option<Error>, s: State, t: nat)
    requires Inv(f, s) && t < |s.threads| && s.threads[t].Working?
    ensures s.nTodo > 0 && s.threads[t].batch != [] && s.threads[t].next <= |s.threads[t].batch|
  {
    hide Count, Conserved, ResultOk, CompletionsOk, MasterOk;
    CountZero(InFlight, s.threads);
    assert WorkerOk(f, s.result, s.threads[t]);
    assert Weight(InFlight, s.threads[t]) != 0;
  }

  lemma StepSettled(f: Check -> Option<Error>, maxBatch: nat, s: State, step: Step)
    requires Inv(f, s) && Settled(s) && Enabled(s, step)
    ensures Settled(Apply(f, maxBatch, s, step))
  {
    hide Inv, Proceed, CleanUp;
    match step
    case AddStep(checks) =>
    case BeginStep =>
    case RunStep(t) =>
    case EnterStep(t) =>
      CleanUpSettled(f, s, t);
      ProceedSettled(CleanUp(s, t), t, maxBatch);
    case WakeStep(t) =>
      ProceedSettled(WakeUp(s, t), t, maxBatch);
  }

  lemma {:induction false} RunSettled(f: Check -> Option<Error>, maxBatch: nat, workers: nat, run: seq<State>, steps: seq<Step>, i: nat)
    requires IsRun(f, maxBatch, workers, run, steps) && i < |run|
    ensures Settled(run[i])
  {
    hide Inv, Apply, Enabled;
    if i > 0 {
      var j := i - 1;
      RunSettled(f, maxBatch, workers, run, steps, j);
      RunKeepsInv(f, maxBatch, workers, run, steps, j);
      hide Settled;
      assert Follows(f, maxBatch, run[j], steps[j], run[j + 1]);
      StepSettled(f, maxBatch, run[j], steps[j]);
    }
  }

  /** A step that brings a call of Complete nearer to its end: all but waking up for nothing. */
  predicate Useful(s: State, step: Step) {
    match step
    case AddStep(_) => false
    case BeginStep => false
    case RunStep(_) => true
    case EnterStep(_) => true
    case WakeStep(t) => s.queue != [] || (t == 0 && s.nTodo == 0)
  }

  /** How much there is to do: for each queued check, for each thread, and for the return of Complete. */
  ghost function Potential(s: State): nat {
    3 * |s.queue| + Count(Effort, s.threads) + if InComplete(s) then 1 else 0
  }

  /** While Complete runs, a useful step can always be taken, without relying on a master that wakes up unasked. */
  lemma SomeUseful(f: Check -> Option<Error>, maxBatch: nat, workers: nat, run: seq<State>, steps: seq<Step>, i: nat) returns (step: Step)
    requires IsRun(f, maxBatch, workers, run, steps) && i < |run| && InComplete(run[i])
    ensures Enabled(run[i], step) && Useful(run[i], step)
    ensures step.WakeStep? ==> step.t == 0 && run[i].threads[0].Waiting? && run[i].threads[0].notified
  {
    RunKeepsInv(f, maxBatch, workers, run, steps, i);
    RunSettled(f, maxBatch, workers, run, steps, i);
    hide Inv, IsRun;
    var s, t := run[i], 0;
    if s.threads[0].Waiting? && !s.threads[0].notified {
      t := MasterIsAwaited(f, s);
    }
    match s.threads[t]
    case Starting => step := EnterStep(t);
    case Waiting(_, _) => step := WakeStep(t);
    case Working(_, _, _, _) =>
      WorkedOn(f, s, t);
      step := if BatchOver(s.threads[t]) then EnterStep(t) else RunStep(t);
  }

  lemma EffortOf(s: State, t: nat, w: Thread, s': State)
    requires t < |s.threads| && s'.threads == s.threads[t := w]
    ensures Count(Effort, s'.threads) == Count(Effort, s.threads) - Weight(Effort, s.threads[t]) + Weight(Effort, w)
  {
    hide Count, Weight;
    Sums(s, t, w);
  }

  /** The rest of the critical section takes no effort, and if it takes a batch or returns it gains. */
  lemma ProceedEffort(s: State, t: nat, maxBatch: nat)
    requires t < |s.threads| && s.threads[t].Inside?
    ensures Potential(Proceed(s, t, maxBatch)) <= Potential(s)
    ensures s.queue != [] || (t == 0 && s.nTodo == 0) ==> Potential(Proceed(s, t, maxBatch)) < Potential(s)
  {
    hide Count, BatchSize;
    var s' := Proceed(s, t, maxBatch);
    EffortOf(s, t, s'.threads[t], s');
  }

  lemma CleanUpEffort(f: Check -> Option<Error>, s: State, t: nat)
    requires Inv(f, s) && t < |s.threads| && (BatchOver(s.threads[t]) || s.threads[t].Starting?)
    ensures Potential(CleanUp(s, t)) < Potential(s)
  {
    WorkerAt(f, s, t);
    hide Inv, Potential;
    if s.threads[t].Starting? {
      StartEffort(s, t);
    } else {
      CleanUpIs(s, t);
      FinishEffort(s, t);
      hide CleanUp;
      NotifiedEffort(Finish(s, t));
    }
  }

  lemma StartEffort(s: State, t: nat)
    requires t < |s.threads| && s.threads[t].Starting?
    ensures Potential(CleanUp(s, t)) < Potential(s)
  {
    hide Count;
    EffortOf(s, t, Inside(None), CleanUp(s, t));
  }

  lemma FinishEffort(s: State, t: nat)
    requires t < |s.threads| && s.threads[t].Working? && s.threads[t].next <= |s.threads[t].batch|
    ensures Potential(Finish(s, t)) < Potential(s)
  {
    hide Count;
    var s' := Finish(s, t);
    EffortOf(s, t, s'.threads[t], s');
  }

  lemma NotifiedEffort(s: State)
    requires s.threads != []
    ensures Potential(s.(threads := NotifyMaster(s.threads))) == Potential(s)
  {
    hide Count;
    Notified(s.threads);
  }

  /** Every useful step leaves less to do, and no step of Complete more. */
  lemma StepEffort(f: Check -> Option<Error>, maxBatch: nat, s: State, step: Step)
    requires Inv(f, s) && Enabled(s, step) && InComplete(s)
    ensures Potential(Apply(f, maxBatch, s, step)) + (if Useful(s, step) then 1 else 0) <= Potential(s)
  {
    hide Inv, Count, Proceed, CleanUp, Potential;
    match step
    case RunStep(t) => RunEffort(f, s, t);
    case EnterStep(t) =>
      CleanUpEffort(f, s, t);
      ProceedEffort(CleanUp(s, t), t, maxBatch);
    case WakeStep(t) =>
      WakeUpEffort(s, t);
      ProceedEffort(WakeUp(s, t), t, maxBatch);
  }

  lemma RunEffort(f: Check -> Option<Error>, s: State, t: nat)
    requires Enabled(s, RunStep(t))
    ensures Potential(RunCheck(f, s, t)) < Potential(s)
  {
    hide Count;
    var s' := RunCheck(f, s, t);
    EffortOf(s, t, s'.threads[t], s');
  }

  lemma WakeUpEffort(s: State, t: nat)
    requires t < |s.threads| && s.threads[t].Waiting?
    ensures Potential(WakeUp(s, t)) == Potential(s)
  {
    hide Count;
    var s' := WakeUp(s, t);
    EffortOf(s, t, s'.threads[t], s');
  }

  /** How many of the steps from i to j are useful. */
  ghost function UsefulSteps(run: seq<State>, steps: seq<Step>, i: nat, j: nat): nat
    requires |run| == |steps| + 1 && i <= j < |run|
  {
    if i == j then 0 else UsefulSteps(run, steps, i, j - 1) + if Useful(run[j - 1], steps[j - 1]) then 1 else 0
  }

  /**
    A call of Complete returns: as long as it has not, the number of useful steps taken since
    any of its states is bounded by what there was to do then. In this time nothing is added.
  */
  lemma {:induction false} CompleteReturns(f: Check -> Option<Error>, maxBatch: nat, workers: nat, run: seq<State>, steps: seq<Step>, i: nat, j: nat)
    requires IsRun(f, maxBatch, workers, run, steps) && i <= j < |run|
    requires forall k :: i <= k <= j ==> InComplete(run[k])
    ensures UsefulSteps(run, steps, i, j) + Potential(run[j]) <= Potential(run[i])
    ensures forall k :: i <= k < j ==> !steps[k].AddStep? && !steps[k].BeginStep?
    decreases j - i
  {
    hide Inv, Apply, Potential, Useful;
    if i < j {
      var k := j - 1;
      CompleteReturns(f, maxBatch, workers, run, steps, i, k);
      RunKeepsInv(f, maxBatch, workers, run, steps, k);
      assert Follows(f, maxBatch, run[k], steps[k], run[k + 1]);
      StepEffort(f, maxBatch, run[k], steps[k]);
    }
  }
}
