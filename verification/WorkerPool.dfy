/**
 The worker pool: workers take jobs from one queue and run them. Jobs are numbered in the order
 in which they entered the queue.
 */
module WorkerPool {
  import opened QueueMonitor

  /** `busy` maps a worker to the job it runs, `finished` lists the jobs that have run. */
  datatype Pool<J> = Pool(jobs: Monitor<J>, busy: map<Tid, nat>, finished: seq<nat>)

  datatype PoolStep<J> = QueueStep(s: Step<J>) | Finish(t: Tid)

  /** A worker that runs a job does not get another one. */
  predicate PoolEnabled<J>(p: Pool<J>, s: PoolStep<J>) {
    match s
    case QueueStep(q) => Enabled(p.jobs, q) && (q.CallGet? || q.ResumeGet? ==> q.t !in p.busy)
    case Finish(t) => t in p.busy
  }

  function PoolApply<J>(p: Pool<J>, s: PoolStep<J>): Pool<J>
    requires PoolEnabled(p, s)
  {
    match s
    case QueueStep(q) =>
      var jobs := Apply(p.jobs, q);
      if |jobs.got| > |p.jobs.got| then p.(jobs := jobs, busy := p.busy[q.t := |p.jobs.got|])
      else p.(jobs := jobs)
    case Finish(t) =>
      p.(busy := p.busy - {t}, finished := p.finished + [p.busy[t]])
  }

  ghost predicate Handed(j: nat, busy: map<Tid, nat>, finished: seq<nat>) {
    j in finished || exists t :: t in busy && busy[t] == j
  }

  /** Each of the first `n` jobs is with exactly one worker or has run exactly once. */
  ghost predicate ExactlyOnce(n: nat, busy: map<Tid, nat>, finished: seq<nat>) {
    && (forall i, j :: 0 <= i < j < |finished| ==> finished[i] != finished[j])
    && (forall i :: 0 <= i < |finished| ==> finished[i] < n)
    && (forall t :: t in busy ==> busy[t] !in finished && busy[t] < n)
    && (forall t, u :: t in busy && u in busy && t != u ==> busy[t] != busy[u])
    && (forall j: nat :: j < n ==> Handed(j, busy, finished))
  }

  ghost predicate PoolInv<J>(p: Pool<J>) {
    Inv(p.jobs) && ExactlyOnce(|p.jobs.got|, p.busy, p.finished)
  }

  lemma TakeKeeps(n: nat, busy: map<Tid, nat>, finished: seq<nat>, t: Tid)
    requires ExactlyOnce(n, busy, finished) && t !in busy
    ensures ExactlyOnce(n + 1, busy[t := n], finished)
  {
    var busy' := busy[t := n];
    forall j: nat | j < n + 1
      ensures Handed(j, busy', finished)
    {
      if j == n {
        assert busy'[t] == j;
      } else if j !in finished {
        assert Handed(j, busy, finished);
        var u :| u in busy && busy[u] == j;
        assert busy'[u] == j;
      }
    }
  }

  lemma FinishKeeps(n: nat, busy: map<Tid, nat>, finished: seq<nat>, t: Tid)
    requires ExactlyOnce(n, busy, finished) && t in busy
    ensures ExactlyOnce(n, busy - {t}, finished + [busy[t]])
  {
    var busy' := busy - {t};
    forall j: nat | j < n
      ensures Handed(j, busy', finished + [busy[t]])
    {
      if j !in finished && j != busy[t] {
        assert Handed(j, busy, finished);
        var u :| u in busy && busy[u] == j;
        assert busy'[u] == j;
      }
    }
  }

  /** Only a get delivers, and it delivers one message. */
  lemma OneDeliveryAtATime<J>(q: Monitor<J>, s: Step<J>)
    requires Enabled(q, s)
    ensures |q.got| <= |Apply(q, s).got| <= |q.got| + 1
    ensures |Apply(q, s).got| > |q.got| ==> s.CallGet? || s.ResumeGet?
  {
  }

  lemma PoolStepKeeps<J>(p: Pool<J>, s: PoolStep<J>)
    requires PoolInv(p) && PoolEnabled(p, s)
    ensures PoolInv(PoolApply(p, s))
  {
    match s
    case QueueStep(q) =>
      StepKeepsInv(p.jobs, q);
      OneDeliveryAtATime(p.jobs, q);
      if |Apply(p.jobs, q).got| > |p.jobs.got| {
        TakeKeeps(|p.jobs.got|, p.busy, p.finished, q.t);
      }
    case Finish(t) =>
      FinishKeeps(|p.jobs.got|, p.busy, p.finished, t);
  }

  function PoolInit<J>(length: nat): Pool<J> {
    Pool(Init(length), map[], [])
  }

  predicate PoolReaches<J(==)>(p: Pool<J>, steps: seq<PoolStep<J>>, p': Pool<J>)
    decreases |steps|
  {
    if steps == [] then p' == p
    else PoolEnabled(p, steps[0]) && PoolReaches(PoolApply(p, steps[0]), steps[1..], p')
  }

  lemma {:induction false} PoolRunKeeps<J>(p: Pool<J>, steps: seq<PoolStep<J>>, p': Pool<J>)
    requires PoolInv(p) && PoolReaches(p, steps, p')
    ensures PoolInv(p')
    decreases |steps|
  {
    if steps != [] {
      PoolStepKeeps(p, steps[0]);
      PoolRunKeeps(PoolApply(p, steps[0]), steps[1..], p');
    }
  }

  lemma IdleMeansFinished(n: nat, finished: seq<nat>)
    requires ExactlyOnce(n, map[], finished)
    ensures forall j: nat :: j in finished <==> j < n
  {
    forall j: nat | j < n
      ensures j in finished
    {
      assert Handed(j, map[], finished);
    }
  }

  /**
   In every run, with any number of workers: no job runs twice or is run by two workers, and once
   the queue is empty and all workers are idle every spawned job has run.
   */
  lemma JobsRunExactlyOnce<J>(length: nat, steps: seq<PoolStep<J>>, p: Pool<J>)
    requires PoolReaches(PoolInit(length), steps, p)
    ensures ExactlyOnce(|p.jobs.got|, p.busy, p.finished)
    ensures p.jobs.contents == [] && p.busy == map[] ==>
      forall j: nat :: j in p.finished <==> j < |p.jobs.put|
  {
    PoolRunKeeps(PoolInit(length), steps, p);
    if p.jobs.contents == [] && p.busy == map[] {
      assert p.jobs.put == p.jobs.got;
      IdleMeansFinished(|p.jobs.got|, p.finished);
    }
  }

  // ---------------------------------------------------------------- the jobs themselves

  /** The queue's part of a run. */
  function QueueSteps<J>(steps: seq<PoolStep<J>>): seq<Step<J>> {
    if steps == [] then []
    else (if steps[0].QueueStep? then [steps[0].s] else []) + QueueSteps(steps[1..])
  }

  lemma {:induction false} PoolRunsQueue<J>(p: Pool<J>, steps: seq<PoolStep<J>>, p': Pool<J>)
    requires PoolReaches(p, steps, p')
    ensures Reaches(p.jobs, QueueSteps(steps), p'.jobs)
    decreases |steps|
  {
    if steps != [] {
      var next := PoolApply(p, steps[0]);
      PoolRunsQueue(next, steps[1..], p');
      if steps[0].QueueStep? {
        assert ([steps[0].s] + QueueSteps(steps[1..]))[1..] == QueueSteps(steps[1..]);
      } else {
        assert QueueSteps(steps) == QueueSteps(steps[1..]);
      }
    }
  }

  predicate Below(s: seq<nat>, n: nat) {
    forall i :: 0 <= i < |s| ==> s[i] < n
  }

  /** The jobs that have run, in the order in which they finished. */
  function Ran<J>(got: seq<J>, finished: seq<nat>): seq<J>
    requires Below(finished, |got|)
  {
    if finished == [] then []
    else Ran(got, finished[..|finished| - 1]) + [got[finished[|finished| - 1]]]
  }

  function Without(s: seq<nat>, k: nat): (r: seq<nat>)
    requires k < |s|
    ensures |r| == |s| - 1 && forall i :: 0 <= i < |r| ==> r[i] == s[if i < k then i else i + 1]
  {
    s[..k] + s[k + 1..]
  }

  lemma WithoutShorter(s: seq<nat>, k: nat)
    requires k < |s| - 1
    ensures Without(s, k)[..|s| - 2] == Without(s[..|s| - 1], k) && Without(s, k)[|s| - 2] == s[|s| - 1]
  {
  }

  function RanBag<J>(got: seq<J>, finished: seq<nat>): multiset<J>
    requires Below(finished, |got|)
  {
    if finished == [] then multiset{}
    else RanBag(got, finished[..|finished| - 1]) + multiset{got[finished[|finished| - 1]]}
  }

  lemma {:induction false} RanIsBag<J>(got: seq<J>, finished: seq<nat>)
    requires Below(finished, |got|)
    ensures multiset(Ran(got, finished)) == RanBag(got, finished)
  {
    if finished != [] {
      RanIsBag(got, finished[..|finished| - 1]);
    }
  }

  lemma WithoutBelow(s: seq<nat>, k: nat, n: nat)
    requires k < |s| && Below(s, n)
    ensures Below(Without(s, k), n)
  {
  }

  lemma {:induction false} RanWithout<J>(got: seq<J>, finished: seq<nat>, k: nat)
    requires k < |finished| && Below(finished, |got|) && Below(Without(finished, k), |got|)
    ensures RanBag(got, finished) == RanBag(got, Without(finished, k)) + multiset{got[finished[k]]}
    decreases |finished|
  {
    var n := |finished| - 1;
    var before := finished[..n];
    if k == n {
      assert Without(finished, k) == before;
    } else {
      WithoutBelow(before, k, |got|);
      RanWithout(got, before, k);
      WithoutShorter(finished, k);
    }
  }

  lemma {:induction false} RanFewer<J>(got: seq<J>, n: nat, finished: seq<nat>)
    requires n <= |got| && Below(finished, n)
    ensures RanBag(got, finished) == RanBag(got[..n], finished)
  {
    if finished != [] {
      RanFewer(got, n, finished[..|finished| - 1]);
    }
  }

  /** When every job taken has run once, the jobs that have run are the jobs taken. */
  lemma {:induction false} AllRan<J>(got: seq<J>, finished: seq<nat>)
    requires ExactlyOnce(|got|, map[], finished)
    ensures RanBag(got, finished) == multiset(got)
    decreases |got|
  {
    if got == [] {
      assert Below(finished, 0);
    } else {
      var n := |got| - 1;
      var k := LastRan(n, finished);
      var rest := Without(finished, k);
      WithoutLast(n, finished, k);
      WithoutBelow(finished, k, |got|);
      RanWithout(got, finished, k);
      RanFewer(got, n, rest);
      AllRan(got[..n], rest);
      assert got == got[..n] + [got[n]];
    }
  }

  lemma LastRan(n: nat, finished: seq<nat>) returns (k: nat)
    requires ExactlyOnce(n + 1, map[], finished)
    ensures k < |finished| && finished[k] == n
  {
    assert Handed(n, map[], finished);
    k :| 0 <= k < |finished| && finished[k] == n;
  }

  lemma WithoutLast(n: nat, finished: seq<nat>, k: nat)
    requires ExactlyOnce(n + 1, map[], finished) && k < |finished| && finished[k] == n
    ensures ExactlyOnce(n, map[], Without(finished, k))
  {
    var rest := Without(finished, k);
    forall j: nat | j < n
      ensures Handed(j, map[], rest)
    {
      assert Handed(j, map[], finished);
      var i :| 0 <= i < |finished| && finished[i] == j;
      assert rest[if i < k then i else i - 1] == j;
    }
  }

  /**
   Once the queue is empty, all workers are idle and no spawn is blocked, the jobs that have run are
   exactly the jobs that were spawned, each as often as it was spawned.
   */
  lemma SpawnedJobsRun<J>(length: nat, steps: seq<PoolStep<J>>, p: Pool<J>)
    requires PoolReaches(PoolInit(length), steps, p)
    requires p.jobs.contents == [] && p.busy == map[] && p.jobs.waitPut + p.jobs.wokenPut == {}
    ensures Below(p.finished, |p.jobs.got|)
    ensures multiset(Ran(p.jobs.got, p.finished)) == multiset(Calls(QueueSteps(steps)))
  {
    JobsRunExactlyOnce(length, steps, p);
    PoolRunsQueue(PoolInit(length), steps, p);
    EveryCallAccounted(length, QueueSteps(steps), p.jobs);
    RunKeepsInv(Init(length), QueueSteps(steps), p.jobs);
    assert p.jobs.put == p.jobs.got;
    AllRan(p.jobs.got, p.finished);
    RanIsBag(p.jobs.got, p.finished);
  }
}
