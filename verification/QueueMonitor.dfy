/**
 The bounded message queue as a monitor: one mutex and two condition variables. A step is
 one critical section of a get or a put, from taking the mutex to waiting or leaving. A
 thread waiting on a condition variable is woken by a signal or spuriously; a woken thread
 has to take the mutex again, and any other thread may be faster.
 */
module QueueMonitor {

  type Tid = nat

  /**
   `pending` holds the message of every thread blocked in a put. `put` and `got` record every
   message ever pushed and popped, in order.
   */
  datatype Monitor<M> = Monitor(
    capacity: nat,
    contents: seq<M>,
    waitGet: set<Tid>,
    wokenGet: set<Tid>,
    waitPut: set<Tid>,
    wokenPut: set<Tid>,
    pending: map<Tid, M>,
    put: seq<M>,
    got: seq<M>)

  /** `woken` is the set of threads that the signal at the end of the section unblocks. */
  datatype Step<M> =
    | CallGet(t: Tid, woken: set<Tid>)
    | ResumeGet(t: Tid, woken: set<Tid>)
    | CallPut(t: Tid, m: M, woken: set<Tid>)
    | ResumePut(t: Tid, woken: set<Tid>)
    | SpuriousGet(t: Tid)
    | SpuriousPut(t: Tid)

  function Init<M>(capacity: nat): Monitor<M> {
    Monitor(capacity, [], {}, {}, {}, {}, map[], [], [])
  }

  predicate Idle<M>(q: Monitor<M>, t: Tid) {
    t !in q.waitGet && t !in q.wokenGet && t !in q.waitPut && t !in q.wokenPut
  }

  /** A signal unblocks at least one of the threads that wait, if there are any. */
  predicate Signals(waiting: set<Tid>, woken: set<Tid>) {
    woken <= waiting && (waiting != {} ==> woken != {})
  }

  predicate Enabled<M>(q: Monitor<M>, s: Step<M>) {
    match s
    case CallGet(t, woken) => Idle(q, t) && Signals(q.waitPut, woken)
    case ResumeGet(t, woken) => t in q.wokenGet && Signals(q.waitPut, woken)
    case CallPut(t, _, woken) => Idle(q, t) && Signals(q.waitGet, woken)
    case ResumePut(t, woken) => t in q.wokenPut && t in q.pending && Signals(q.waitGet, woken)
    case SpuriousGet(t) => t in q.waitGet
    case SpuriousPut(t) => t in q.waitPut
  }

  /** The rest of a get once it has the mutex. */
  function Getting<M>(q: Monitor<M>, t: Tid, woken: set<Tid>): Monitor<M>
    requires Signals(q.waitPut, woken)
  {
    if q.contents == [] then
      q.(waitGet := q.waitGet + {t})
    else
      q.(contents := q.contents[1..],
         got := q.got + [q.contents[0]],
         waitPut := q.waitPut - woken,
         wokenPut := q.wokenPut + woken)
  }

  /** The rest of a put once it has the mutex. */
  function Putting<M>(q: Monitor<M>, t: Tid, m: M, woken: set<Tid>): Monitor<M>
    requires Signals(q.waitGet, woken)
  {
    if |q.contents| == q.capacity then
      q.(waitPut := q.waitPut + {t}, pending := q.pending[t := m])
    else
      q.(contents := q.contents + [m],
         put := q.put + [m],
         pending := q.pending - {t},
         waitGet := q.waitGet - woken,
         wokenGet := q.wokenGet + woken)
  }

  function Apply<M>(q: Monitor<M>, s: Step<M>): Monitor<M>
    requires Enabled(q, s)
  {
    match s
    case CallGet(t, woken) => Getting(q, t, woken)
    case ResumeGet(t, woken) => Getting(q.(wokenGet := q.wokenGet - {t}), t, woken)
    case CallPut(t, m, woken) => Putting(q, t, m, woken)
    case ResumePut(t, woken) =>
      Putting(q.(wokenPut := q.wokenPut - {t}), t, q.pending[t], woken)
    case SpuriousGet(t) => q.(waitGet := q.waitGet - {t}, wokenGet := q.wokenGet + {t})
    case SpuriousPut(t) =>
      q.(waitPut := q.waitPut - {t}, wokenPut := q.wokenPut + {t})
  }

  // ---------------------------------------------------------------- what every step keeps

  predicate Fifo<M(==)>(q: Monitor<M>) {
    |q.contents| <= q.capacity && q.put == q.got + q.contents
  }

  /** A thread is in at most one of the four sets, and the message of a blocked put is known. */
  predicate Apart<M>(q: Monitor<M>) {
    && q.waitGet !! q.wokenGet && q.waitPut !! q.wokenPut
    && (q.waitGet + q.wokenGet) !! (q.waitPut + q.wokenPut)
    && q.waitPut + q.wokenPut <= q.pending.Keys
  }

  /** A message nobody was woken for means nobody waits for one; likewise for a free slot. */
  predicate NoLostWakeup<M>(q: Monitor<M>) {
    && (q.waitGet != {} ==> |q.contents| <= |q.wokenGet|)
    && (q.waitPut != {} ==> q.capacity - |q.contents| <= |q.wokenPut|)
  }

  predicate Inv<M(==)>(q: Monitor<M>) {
    Fifo(q) && Apart(q) && NoLostWakeup(q)
  }

  lemma DisjointUnion(a: set<Tid>, b: set<Tid>)
    requires a !! b
    ensures |a + b| == |a| + |b|
  {
  }

  lemma OneFewer(a: set<Tid>, t: Tid)
    requires t in a
    ensures |a - {t}| == |a| - 1
  {
  }

  lemma SignalWakesOne(woken: set<Tid>)
    requires woken != {}
    ensures 1 <= |woken|
  {
  }

  lemma GettingKeeps<M>(q: Monitor<M>, t: Tid, woken: set<Tid>)
    requires Fifo(q) && Apart(q) && Idle(q, t) && Signals(q.waitPut, woken)
    requires q.waitGet != {} && q.contents != [] ==> |q.contents| - 1 <= |q.wokenGet|
    requires q.waitPut != {} ==> q.capacity - |q.contents| <= |q.wokenPut|
    ensures Inv(Getting(q, t, woken))
  {
    GettingKeepsFifo(q, t, woken);
    GettingKeepsApart(q, t, woken);
    if q.contents != [] {
      DisjointUnion(q.wokenPut, woken);
      if woken != {} {
        SignalWakesOne(woken);
      }
    }
  }

  lemma GettingKeepsFifo<M>(q: Monitor<M>, t: Tid, woken: set<Tid>)
    requires Fifo(q) && Signals(q.waitPut, woken)
    ensures Fifo(Getting(q, t, woken))
  {
    if q.contents != [] {
      assert q.contents == [q.contents[0]] + q.contents[1..];
    }
  }

  lemma GettingKeepsApart<M>(q: Monitor<M>, t: Tid, woken: set<Tid>)
    requires Apart(q) && Idle(q, t) && Signals(q.waitPut, woken)
    ensures Apart(Getting(q, t, woken))
  {
  }

  lemma PuttingKeeps<M>(q: Monitor<M>, t: Tid, m: M, woken: set<Tid>)
    requires Fifo(q) && Apart(q) && Idle(q, t) && Signals(q.waitGet, woken)
    requires q.waitGet != {} ==> |q.contents| <= |q.wokenGet|
    requires q.waitPut != {} && |q.contents| < q.capacity ==>
      q.capacity - |q.contents| - 1 <= |q.wokenPut|
    ensures Inv(Putting(q, t, m, woken))
  {
    PuttingKeepsFifo(q, t, m, woken);
    PuttingKeepsApart(q, t, m, woken);
    if |q.contents| < q.capacity {
      DisjointUnion(q.wokenGet, woken);
      if woken != {} {
        SignalWakesOne(woken);
      }
    }
  }

  lemma PuttingKeepsFifo<M>(q: Monitor<M>, t: Tid, m: M, woken: set<Tid>)
    requires Fifo(q) && Signals(q.waitGet, woken)
    ensures Fifo(Putting(q, t, m, woken))
  {
    assert q.got + q.contents + [m] == q.got + (q.contents + [m]);
  }

  lemma PuttingKeepsApart<M>(q: Monitor<M>, t: Tid, m: M, woken: set<Tid>)
    requires Apart(q) && Idle(q, t) && Signals(q.waitGet, woken)
    ensures Apart(Putting(q, t, m, woken))
  {
  }

  lemma ResumeGetKeeps<M>(q: Monitor<M>, t: Tid, woken: set<Tid>)
    requires Inv(q) && Enabled(q, ResumeGet(t, woken))
    ensures Inv(Apply(q, ResumeGet(t, woken)))
  {
    OneFewer(q.wokenGet, t);
    GettingKeeps(q.(wokenGet := q.wokenGet - {t}), t, woken);
  }

  lemma ResumePutKeeps<M>(q: Monitor<M>, t: Tid, woken: set<Tid>)
    requires Inv(q) && Enabled(q, ResumePut(t, woken))
    ensures Inv(Apply(q, ResumePut(t, woken)))
  {
    OneFewer(q.wokenPut, t);
    PuttingKeeps(q.(wokenPut := q.wokenPut - {t}), t, q.pending[t], woken);
  }

  lemma SpuriousKeeps<M>(q: Monitor<M>, t: Tid)
    requires Inv(q)
    ensures t in q.waitGet ==> Inv(Apply(q, SpuriousGet(t)))
    ensures t in q.waitPut ==> Inv(Apply(q, SpuriousPut(t)))
  {
    if t in q.waitGet {
      DisjointUnion(q.wokenGet, {t});
    }
    if t in q.waitPut {
      DisjointUnion(q.wokenPut, {t});
    }
  }

  lemma StepKeepsInv<M>(q: Monitor<M>, s: Step<M>)
    requires Inv(q) && Enabled(q, s)
    ensures Inv(Apply(q, s))
  {
    match s
    case CallGet(t, woken) => GettingKeeps(q, t, woken);
    case ResumeGet(t, woken) => ResumeGetKeeps(q, t, woken);
    case CallPut(t, m, woken) => PuttingKeeps(q, t, m, woken);
    case ResumePut(t, woken) => ResumePutKeeps(q, t, woken);
    case SpuriousGet(t) => SpuriousKeeps(q, t);
    case SpuriousPut(t) => SpuriousKeeps(q, t);
  }

  // ---------------------------------------------------------------- whole runs

  predicate Reaches<M(==)>(q: Monitor<M>, steps: seq<Step<M>>, q': Monitor<M>)
    decreases |steps|
  {
    if steps == [] then q' == q
    else Enabled(q, steps[0]) && Reaches(Apply(q, steps[0]), steps[1..], q')
  }

  ghost predicate Reachable<M(!new)>(q: Monitor<M>) {
    exists steps :: Reaches(Init(q.capacity), steps, q)
  }

  lemma {:induction false} RunKeepsInv<M>(q: Monitor<M>, steps: seq<Step<M>>, q': Monitor<M>)
    requires Inv(q) && Reaches(q, steps, q')
    ensures Inv(q') && q'.capacity == q.capacity
    decreases |steps|
  {
    if steps != [] {
      StepKeepsInv(q, steps[0]);
      RunKeepsInv(Apply(q, steps[0]), steps[1..], q');
    }
  }

  lemma ReachableInv<M(!new)>(q: Monitor<M>)
    requires Reachable(q)
    ensures Inv(q)
  {
    var steps :| Reaches(Init(q.capacity), steps, q);
    RunKeepsInv(Init(q.capacity), steps, q);
  }

  /**
   A blocked thread that could proceed always has a woken peer that will proceed instead: a
   woken getter takes the oldest message, a woken putter finds room for its own.
   */
  lemma BlockedHasRunnablePeer<M(!new)>(q: Monitor<M>)
    requires Reachable(q)
    ensures q.waitGet != {} && q.contents != [] ==>
      exists t :: t in q.wokenGet && forall woken :: Enabled(q, ResumeGet(t, woken)) ==>
        Apply(q, ResumeGet(t, woken)).got == q.got + [q.contents[0]]
    ensures q.waitPut != {} && |q.contents| < q.capacity ==>
      exists t :: t in q.wokenPut && t in q.pending && forall woken :: Enabled(q, ResumePut(t, woken)) ==>
        Apply(q, ResumePut(t, woken)).put == q.put + [q.pending[t]]
  {
    ReachableInv(q);
    if q.waitGet != {} && q.contents != [] {
      assert q.wokenGet != {};
      var t :| t in q.wokenGet;
    }
    if q.waitPut != {} && |q.contents| < q.capacity {
      assert q.wokenPut != {};
      var t :| t in q.wokenPut;
    }
  }

  /** Every thread is blocked and nothing but a spurious wakeup could change that. */
  predicate Deadlocked<M>(q: Monitor<M>) {
    q.waitGet != {} && q.waitPut != {} && q.wokenGet == {} && q.wokenPut == {}
  }

  /** Getters and putters cannot block each other for good, except on a queue of length 0. */
  lemma DeadlockExactlyOnLengthZero(capacity: nat)
    ensures (exists q: Monitor<int> :: q.capacity == capacity && Reachable(q) && Deadlocked(q))
      <==> capacity == 0
  {
    if capacity == 0 {
      var steps := [CallGet(0, {}), CallPut(1, 7, {0})];
      var q0 := Init<int>(0);
      var q1 := Apply(q0, CallGet(0, {}));
      var q2 := Apply(q1, CallPut(1, 7, {0}));
      assert steps[1..] == [CallPut(1, 7, {0})] && steps[1..][1..] == [];
      assert Reaches(q2, [], q2);
      assert Reaches(q1, steps[1..], q2);
      assert Reaches(q0, steps, q2);
      assert Deadlocked(q2);
    } else {
      forall q: Monitor<int> | q.capacity == capacity && Reachable(q)
        ensures !Deadlocked(q)
      {
        ReachableInv(q);
      }
    }
  }

  /** The `i`th message delivered is the `i`th message put, for any number of threads. */
  lemma DeliveredInOrderOnce<M(!new)>(q: Monitor<M>)
    requires Reachable(q)
    ensures |q.put| == |q.got| + |q.contents| <= |q.got| + q.capacity
    ensures forall i :: 0 <= i < |q.got| ==> q.got[i] == q.put[i]
    ensures forall i :: 0 <= i < |q.contents| ==> q.contents[i] == q.put[|q.got| + i]
  {
    ReachableInv(q);
  }

  /**
   While a getter is blocked, the getters already woken suffice to empty the queue: no further
   call has to be made.
   */
  lemma {:induction false} WokenGettersDrain<M(!new)>(q: Monitor<M>)
    returns (steps: seq<Step<M>>, q': Monitor<M>)
    requires Inv(q) && q.waitGet != {}
    ensures Reaches(q, steps, q') && |steps| == |q.contents| && q'.contents == []
    ensures forall i :: 0 <= i < |steps| ==> steps[i].ResumeGet? && steps[i].t in q.wokenGet
    decreases |q.contents|
  {
    if q.contents == [] {
      steps, q' := [], q;
    } else {
      assert q.wokenGet != {};
      var t :| t in q.wokenGet;
      var s := ResumeGet(t, q.waitPut);
      StepKeepsInv(q, s);
      var rest;
      rest, q' := WokenGettersDrain(Apply(q, s));
      steps := [s] + rest;
    }
  }

  /** While a putter is blocked, the putters already woken suffice to fill the queue. */
  lemma {:induction false} WokenPuttersFill<M(!new)>(q: Monitor<M>)
    returns (steps: seq<Step<M>>, q': Monitor<M>)
    requires Inv(q) && q.waitPut != {}
    ensures Reaches(q, steps, q') && |steps| == q.capacity - |q.contents|
    ensures |q'.contents| == q.capacity
    ensures forall i :: 0 <= i < |steps| ==> steps[i].ResumePut? && steps[i].t in q.wokenPut
    decreases q.capacity - |q.contents|
  {
    if |q.contents| == q.capacity {
      steps, q' := [], q;
    } else {
      assert q.wokenPut != {};
      var t :| t in q.wokenPut;
      var s := ResumePut(t, q.waitGet);
      StepKeepsInv(q, s);
      var rest;
      rest, q' := WokenPuttersFill(Apply(q, s));
      steps := [s] + rest;
    }
  }

  // ---------------------------------------------------------------- calls and what they put

  /** The messages of all calls to put in a run. */
  function Calls<M>(steps: seq<Step<M>>): seq<M> {
    if steps == [] then []
    else
      var n := |steps| - 1;
      Calls(steps[..n]) + if steps[n].CallPut? then [steps[n].m] else []
  }

  /** The messages of the calls of one thread, in order. */
  function CallsBy<M>(steps: seq<Step<M>>, t: Tid): seq<M> {
    if steps == [] then []
    else
      CalledBy(steps[0], t) + CallsBy(steps[1..], t)
  }

  function CalledBy<M>(s: Step<M>, t: Tid): seq<M> {
    if s.CallPut? && s.t == t then [s.m] else []
  }

  /** What one step pushes. */
  function Pushed<M>(q: Monitor<M>, s: Step<M>): seq<M>
    requires Enabled(q, s)
  {
    if |q.put| <= |Apply(q, s).put| then Apply(q, s).put[|q.put|..] else []
  }

  /** What the steps of one thread push in a run, in order. */
  function PushedBy<M>(q: Monitor<M>, steps: seq<Step<M>>, t: Tid): seq<M>
    decreases |steps|
  {
    if steps == [] || !Enabled(q, steps[0]) then []
    else
      (if steps[0].t == t then Pushed(q, steps[0]) else []) + PushedBy(Apply(q, steps[0]), steps[1..], t)
  }

  /** The message that a thread is blocked with, if it is blocked in a put. */
  function Held<M>(q: Monitor<M>, t: Tid): seq<M> {
    if t in q.waitPut + q.wokenPut && t in q.pending then [q.pending[t]] else []
  }

  /** One step of a thread: what it has and is called with, it pushes or is blocked with afterwards. */
  lemma StepPushesOwn<M>(q: Monitor<M>, s: Step<M>)
    requires Apart(q) && Enabled(q, s)
    ensures Held(q, s.t) + (if s.CallPut? then [s.m] else []) == Pushed(q, s) + Held(Apply(q, s), s.t)
    ensures Apply(q, s).put == q.put + Pushed(q, s)
  {
  }

  /** A get takes the oldest message and leaves, or waits and takes none. */
  lemma GetTakesOrWaits<M>(q: Monitor<M>, s: Step<M>)
    requires Apart(q) && Enabled(q, s) && (s.CallGet? || s.ResumeGet?)
    ensures var r := Apply(q, s);
      if q.contents == [] then s.t in r.waitGet && r.got == q.got && r.contents == []
      else Idle(r, s.t) && r.got == q.got + [q.contents[0]] && r.contents == q.contents[1..]
  {
  }

  /** The message of a blocked thread is left alone by all other threads. */
  lemma StepLeavesOthers<M>(q: Monitor<M>, s: Step<M>, t: Tid)
    requires Apart(q) && Enabled(q, s) && s.t != t
    ensures Held(Apply(q, s), t) == Held(q, t)
  {
  }

  lemma StepOfThread<M>(q: Monitor<M>, s: Step<M>, t: Tid)
    requires Apart(q) && Enabled(q, s)
    ensures Held(q, t) + CalledBy(s, t)
      == (if s.t == t then Pushed(q, s) else []) + Held(Apply(q, s), t)
  {
    if s.t == t {
      StepPushesOwn(q, s);
    } else {
      StepLeavesOthers(q, s, t);
    }
  }

  lemma Regrouped<M>(held: seq<M>, called: seq<M>, pushed: seq<M>, after: seq<M>, calls: seq<M>,
                     puts: seq<M>, last: seq<M>)
    requires held + called == pushed + after && after + calls == puts + last
    ensures held + (called + calls) == (pushed + puts) + last
  {
    assert held + (called + calls) == (held + called) + calls == pushed + (after + calls);
    assert (pushed + puts) + last == pushed + (puts + last);
  }

  /**
   Over every run, however often a thread blocks and whoever is faster: the messages that a thread
   pushes are those it was called with, in the order of its calls, and the one it may still be blocked
   with is that of its latest call.
   */
  lemma {:induction false} ThreadPutsItsOwn<M>(q: Monitor<M>, steps: seq<Step<M>>, q': Monitor<M>, t: Tid)
    requires Inv(q) && Reaches(q, steps, q')
    ensures Held(q, t) + CallsBy(steps, t) == PushedBy(q, steps, t) + Held(q', t)
    decreases |steps|
  {
    if steps != [] {
      var next := Apply(q, steps[0]);
      StepKeepsInv(q, steps[0]);
      ThreadPutsItsOwn(next, steps[1..], q', t);
      StepOfThread(q, steps[0], t);
      Regrouped(Held(q, t), CalledBy(steps[0], t), if steps[0].t == t then Pushed(q, steps[0]) else [],
                Held(next, t), CallsBy(steps[1..], t), PushedBy(next, steps[1..], t), Held(q', t));
    }
  }

  /** The threads blocked in a put of a given message. */
  function Holders<M(==)>(q: Monitor<M>, m: M): set<Tid> {
    set t | t in q.waitPut + q.wokenPut && t in q.pending && q.pending[t] == m
  }

  /** How many of these messages are `m`. */
  function Times<M(==)>(s: seq<M>, m: M): nat {
    multiset(s)[m]
  }

  lemma HoldersHold<M>(q: Monitor<M>, m: M, t: Tid)
    ensures t in Holders(q, m) <==> Held(q, t) == [m]
  {
  }

  lemma OthersHold<M>(q: Monitor<M>, s: Step<M>, m: M)
    requires Apart(q) && Enabled(q, s)
    ensures Holders(q, m) - {s.t} == Holders(Apply(q, s), m) - {s.t}
  {
    forall t | t != s.t
      ensures t in Holders(q, m) <==> t in Holders(Apply(q, s), m)
    {
      StepLeavesOthers(q, s, t);
      HoldersHold(q, m, t);
      HoldersHold(Apply(q, s), m, t);
    }
  }

  lemma StepAccounts<M>(q: Monitor<M>, s: Step<M>, m: M)
    requires Apart(q) && Enabled(q, s)
    ensures Times(Apply(q, s).put, m) + |Holders(Apply(q, s), m)|
      == Times(q.put, m) + |Holders(q, m)| + if s.CallPut? && s.m == m then 1 else 0
  {
    var q' := Apply(q, s);
    StepPushesOwn(q, s);
    OthersHold(q, s, m);
    WithOrWithout(Holders(q, m), s.t);
    WithOrWithout(Holders(q', m), s.t);
    HoldersHold(q, m, s.t);
    HoldersHold(q', m, s.t);
    TimesAdd(q.put, Pushed(q, s), m);
    OwnAccounts(Held(q, s.t), if s.CallPut? then [s.m] else [], Pushed(q, s), Held(q', s.t), m);
  }

  lemma TimesAdd<M>(a: seq<M>, b: seq<M>, m: M)
    ensures Times(a + b, m) == Times(a, m) + Times(b, m)
  {
  }

  /** A thread's messages before and after one of its steps, counted. */
  lemma OwnAccounts<M>(held: seq<M>, called: seq<M>, pushed: seq<M>, after: seq<M>, m: M)
    requires held + called == pushed + after && |held| <= 1 && |called| <= 1 && |after| <= 1
    ensures (if held == [m] then 1 else 0) + (if called == [m] then 1 else 0)
      == Times(pushed, m) + if after == [m] then 1 else 0
  {
    TimesAdd(held, called, m);
    TimesAdd(pushed, after, m);
    TimesOne(held, m);
    TimesOne(called, m);
    TimesOne(after, m);
  }

  lemma TimesOne<M>(a: seq<M>, m: M)
    requires |a| <= 1
    ensures Times(a, m) == if a == [m] then 1 else 0
  {
    assert a == [] || a == [a[0]];
  }

  lemma WithOrWithout(a: set<Tid>, t: Tid)
    ensures |a| == |a - {t}| + if t in a then 1 else 0
  {
    if t in a {
      OneFewer(a, t);
    } else {
      assert a - {t} == a;
    }
  }

  lemma {:induction false} RunAccounts<M>(q: Monitor<M>, steps: seq<Step<M>>, q': Monitor<M>, m: M)
    requires Inv(q) && Reaches(q, steps, q')
    ensures Times(q'.put, m) + |Holders(q', m)| == Times(q.put, m) + |Holders(q, m)| + Times(Calls(steps), m)
    decreases |steps|
  {
    if steps != [] {
      StepKeepsInv(q, steps[0]);
      StepAccounts(q, steps[0], m);
      RunAccounts(Apply(q, steps[0]), steps[1..], q', m);
      CallsFirst(steps);
    }
  }

  lemma {:induction false} CallsFirst<M>(steps: seq<Step<M>>)
    requires steps != []
    ensures Calls(steps) == (if steps[0].CallPut? then [steps[0].m] else []) + Calls(steps[1..])
  {
    var n := |steps| - 1;
    if n > 0 {
      CallsFirst(steps[..n]);
      assert steps[..n][1..] == steps[1..][..n - 1];
    }
  }

  /**
   In every run each message has been put exactly as often as it was given to a call, less the calls
   that are still blocked with it. Without blocked putters all calls have put their message.
   */
  lemma EveryCallAccounted<M>(capacity: nat, steps: seq<Step<M>>, q: Monitor<M>)
    requires Reaches(Init(capacity), steps, q)
    ensures forall m :: Times(Calls(steps), m) == Times(q.put, m) + |Holders(q, m)|
    ensures q.waitPut + q.wokenPut == {} ==> multiset(Calls(steps)) == multiset(q.put)
  {
    forall m
      ensures Times(Calls(steps), m) == Times(q.put, m) + |Holders(q, m)|
    {
      RunAccounts(Init(capacity), steps, q, m);
      assert Holders(Init(capacity), m) == {};
    }
    if q.waitPut + q.wokenPut == {} {
      forall m
        ensures Times(Calls(steps), m) == Times(q.put, m)
      {
        NobodyHolds(q, m);
      }
      SameBags(Calls(steps), q.put);
    }
  }

  lemma NobodyHolds<M>(q: Monitor<M>, m: M)
    requires q.waitPut + q.wokenPut == {}
    ensures Holders(q, m) == {}
  {
  }

  lemma SameBags<M>(a: seq<M>, b: seq<M>)
    requires forall m :: Times(a, m) == Times(b, m)
    ensures multiset(a) == multiset(b)
  {
    forall m
      ensures multiset(a)[m] == multiset(b)[m]
    {
      assert Times(a, m) == Times(b, m);
    }
  }
}
