/**
 Reference-counted messages. A reference is held by a thread, sits in a queue slot, or is still to
 be delivered by a broadcast that is under way; the count in the message header has to follow.
 Any number of threads interleave at the level of single allocs, puts, gets, frees, shares and
 subscriptions. A broadcast loop keeps a pointer to the bus element of its identifier and reads the
 list of queues there anew in every round. A subscription to a new identifier reallocates and sorts
 the elements, and a broadcast whose element is elsewhere afterwards is lost.
 */
module Messages {
  import opened Bus

  type MsgId = nat

  /**
   A broadcast under way has put its message on the first `done` queues of an identifier. A lost one
   no longer points to the element of its identifier, and what it does next is not modelled.
   */
  datatype Cast = Running(msg: MsgId, uid: Uid, done: nat) | Over | Lost

  /**
   `counts` maps each live message to its count, `uids` every message ever allocated to its
   identifier. `held` are the references that threads hold. `released` records the messages whose
   `on_free` was called and memory given back, in order.
   */
  datatype State = State(
    counts: map<MsgId, int>,
    uids: map<MsgId, Uid>,
    subs: seq<Subscription>,
    queues: seq<seq<MsgId>>,
    held: multiset<MsgId>,
    casts: seq<Cast>,
    released: seq<MsgId>)

  /** `moved` tells whether the element array, if it has to grow, gets a new place. */
  datatype Step =
    | Alloc(m: MsgId, uid: Uid)
    | Put(q: QueueId, m: MsgId)
    | Get(q: QueueId)
    | Free(m: MsgId)
    | Subscribe(q: QueueId, uid: Uid, moved: bool)
    | Broadcast(m: MsgId)
    | Deliver(i: nat)
    | Finish(i: nat)

  /** The queues a broadcast still has to serve. */
  function Todo(subs: seq<Subscription>, c: Cast): seq<QueueId> {
    if !c.Running? || c.done > |QueuesOf(subs, c.uid)| then [] else QueuesOf(subs, c.uid)[c.done..]
  }

  /** What the calling thread needs: a reference of its own, or something to get or deliver. */
  predicate Enabled(s: State, step: Step) {
    match step
    case Alloc(m, _) => m !in s.uids
    case Put(q, m) => q < |s.queues| && m in s.held
    case Get(q) => q < |s.queues| && s.queues[q] != []
    case Free(m) => m in s.held
    case Subscribe(q, _, _) => q < |s.queues|
    case Broadcast(m) => m in s.held && m in s.uids
    case Deliver(i) =>
      i < |s.casts| && Todo(s.subs, s.casts[i]) != [] && Todo(s.subs, s.casts[i])[0] < |s.queues|
    case Finish(i) => i < |s.casts| && s.casts[i].Running? && Todo(s.subs, s.casts[i]) == []
  }

  function Count(s: State, m: MsgId): int {
    if m in s.counts then s.counts[m] else 0
  }

  /** Drops one held reference; the message goes when the count reaches zero. */
  function Freed(s: State, m: MsgId): State {
    var count := Count(s, m) - 1;
    var s' := s.(held := s.held - multiset{m});
    if count == 0 then s'.(counts := s.counts - {m}, released := s.released + [m])
    else s'.(counts := s.counts[m := count])
  }

  /** Adds references for all queues but one, whose reference is the caller's own. */
  function Shared(s: State, m: MsgId, uid: Uid): State {
    s.(counts := s.counts[m := Count(s, m) + (|QueuesOf(s.subs, uid)| - 1)],
       held := s.held - multiset{m},
       casts := s.casts + [Running(m, uid, 0)])
  }

  /**
   Whether a subscription takes away the element a broadcast points to: with the array, or, in a new
   identifier's place in the order, by moving it up (see Bus.NewElementShiftsExactly).
   */
  predicate Displaced(c: Cast, uid: Uid, moved: bool) {
    c.Running? && (moved || uid <= c.uid)
  }

  function Displace(casts: seq<Cast>, uid: Uid, moved: bool): (r: seq<Cast>)
    ensures |r| == |casts|
    ensures forall i :: 0 <= i < |r| ==>
      r[i] == if Displaced(casts[i], uid, moved) then Lost else casts[i]
  {
    if casts == [] then []
    else [if Displaced(casts[0], uid, moved) then Lost else casts[0]] + Displace(casts[1..], uid, moved)
  }

  /** The broadcasts after a subscription; only an identifier without an element adds one. */
  function CastsAfter(s: State, uid: Uid, moved: bool): seq<Cast> {
    if QueuesOf(s.subs, uid) != [] then s.casts else Displace(s.casts, uid, moved)
  }

  function Apply(s: State, step: Step): State
    requires Enabled(s, step)
  {
    match step
    case Alloc(m, uid) =>
      s.(counts := s.counts[m := 1], uids := s.uids[m := uid], held := s.held + multiset{m})
    case Put(q, m) =>
      s.(queues := s.queues[q := s.queues[q] + [m]], held := s.held - multiset{m})
    case Get(q) =>
      s.(queues := s.queues[q := s.queues[q][1..]], held := s.held + multiset{s.queues[q][0]})
    case Free(m) =>
      Freed(s, m)
    case Subscribe(q, uid, moved) =>
      s.(subs := s.subs + [Subscription(q, uid)], casts := CastsAfter(s, uid, moved))
    case Broadcast(m) =>
      if QueuesOf(s.subs, s.uids[m]) != [] then Shared(s, m, s.uids[m]) else Freed(s, m)
    case Deliver(i) =>
      var Running(m, uid, done) := s.casts[i];
      var q := Todo(s.subs, s.casts[i])[0];
      s.(queues := s.queues[q := s.queues[q] + [m]], casts := s.casts[i := Running(m, uid, done + 1)])
    case Finish(i) =>
      s.(casts := s.casts[i := Over])
  }

  // ---------------------------------------------------------------- counting references

  function InQueues(queues: seq<seq<MsgId>>, m: MsgId): nat {
    if queues == [] then 0 else multiset(queues[0])[m] + InQueues(queues[1..], m)
  }

  function InCast(subs: seq<Subscription>, c: Cast, m: MsgId): nat {
    if c.Running? && c.msg == m then |Todo(subs, c)| else 0
  }

  function InCasts(subs: seq<Subscription>, casts: seq<Cast>, m: MsgId): nat {
    if casts == [] then 0 else InCast(subs, casts[0], m) + InCasts(subs, casts[1..], m)
  }

  function References(s: State, m: MsgId): nat {
    s.held[m] + InQueues(s.queues, m) + InCasts(s.subs, s.casts, m)
  }

  lemma {:induction false} InQueuesUpdate(queues: seq<seq<MsgId>>, q: nat, c: seq<MsgId>, m: MsgId)
    requires q < |queues|
    ensures InQueues(queues[q := c], m)
      == InQueues(queues, m) - multiset(queues[q])[m] + multiset(c)[m]
  {
    if q > 0 {
      InQueuesUpdate(queues[1..], q - 1, c, m);
      assert queues[q := c][1..] == queues[1..][q - 1 := c];
    } else {
      assert queues[q := c][1..] == queues[1..];
    }
  }

  lemma {:induction false} InCastsUpdate(subs: seq<Subscription>, casts: seq<Cast>, i: nat, c: Cast, m: MsgId)
    requires i < |casts|
    ensures InCasts(subs, casts[i := c], m)
      == InCasts(subs, casts, m) - InCast(subs, casts[i], m) + InCast(subs, c, m)
  {
    if i > 0 {
      InCastsUpdate(subs, casts[1..], i - 1, c, m);
      assert casts[i := c][1..] == casts[1..][i - 1 := c];
    } else {
      assert casts[i := c][1..] == casts[1..];
    }
  }

  lemma {:induction false} InCastsAppend(subs: seq<Subscription>, casts: seq<Cast>, c: Cast, m: MsgId)
    ensures InCasts(subs, casts + [c], m) == InCasts(subs, casts, m) + InCast(subs, c, m)
  {
    if casts != [] {
      InCastsAppend(subs, casts[1..], c, m);
      assert (casts + [c])[1..] == casts[1..] + [c];
    } else {
      assert casts + [c] == [c];
    }
  }

  lemma {:induction false} QueuedIsCounted(queues: seq<seq<MsgId>>, q: nat, m: MsgId)
    requires q < |queues| && m in queues[q]
    ensures InQueues(queues, m) > 0
  {
    if q == 0 {
      assert m in multiset(queues[0]);
    } else {
      QueuedIsCounted(queues[1..], q - 1, m);
    }
  }

  /** The references a step adds: all steps except alloc, share, free and subscribe only move one. */
  function Added(s: State, step: Step, m: MsgId): int
    requires Enabled(s, step)
  {
    match step
    case Alloc(a, _) => if a == m then 1 else 0
    case Free(a) => if a == m then -1 else 0
    case Broadcast(a) => if a == m then |QueuesOf(s.subs, s.uids[a])| - 1 else 0
    case _ => 0
  }

  lemma PutReferences(s: State, q: QueueId, a: MsgId, m: MsgId)
    requires Enabled(s, Put(q, a))
    ensures References(Apply(s, Put(q, a)), m) == References(s, m)
  {
    InQueuesUpdate(s.queues, q, s.queues[q] + [a], m);
  }

  lemma GetReferences(s: State, q: QueueId, m: MsgId)
    requires Enabled(s, Get(q))
    ensures References(Apply(s, Get(q)), m) == References(s, m)
  {
    InQueuesUpdate(s.queues, q, s.queues[q][1..], m);
    assert s.queues[q] == [s.queues[q][0]] + s.queues[q][1..];
  }

  lemma DeliverReferences(s: State, i: nat, m: MsgId)
    requires Enabled(s, Deliver(i))
    ensures References(Apply(s, Deliver(i)), m) == References(s, m)
  {
    var Running(a, uid, done) := s.casts[i];
    var q := Todo(s.subs, s.casts[i])[0];
    InQueuesUpdate(s.queues, q, s.queues[q] + [a], m);
    InCastsUpdate(s.subs, s.casts, i, Running(a, uid, done + 1), m);
  }

  lemma AllocReferences(s: State, a: MsgId, uid: Uid, m: MsgId)
    requires Enabled(s, Alloc(a, uid))
    ensures References(Apply(s, Alloc(a, uid)), m) == References(s, m) + if a == m then 1 else 0
  {
  }

  lemma FreeReferences(s: State, a: MsgId, m: MsgId)
    requires Enabled(s, Free(a))
    ensures References(Apply(s, Free(a)), m) == References(s, m) - if a == m then 1 else 0
  {
  }

  lemma BroadcastReferences(s: State, a: MsgId, m: MsgId)
    requires Enabled(s, Broadcast(a))
    ensures References(Apply(s, Broadcast(a)), m)
      == References(s, m) + if a == m then |QueuesOf(s.subs, s.uids[a])| - 1 else 0
  {
    InCastsAppend(s.subs, s.casts, Running(a, s.uids[a], 0), m);
  }

  lemma StepReferences(s: State, step: Step, m: MsgId)
    requires Enabled(s, step) && !step.Subscribe?
    ensures References(Apply(s, step), m) == References(s, m) + Added(s, step, m)
  {
    match step
    case Alloc(a, uid) => AllocReferences(s, a, uid, m);
    case Free(a) => FreeReferences(s, a, m);
    case Put(q, a) => PutReferences(s, q, a, m);
    case Get(q) => GetReferences(s, q, m);
    case Deliver(i) => DeliverReferences(s, i, m);
    case Finish(i) => InCastsUpdate(s.subs, s.casts, i, Over, m);
    case Broadcast(a) => BroadcastReferences(s, a, m);
  }

  // ---------------------------------------------------------------- the invariant

  /** No broadcast of an identifier is under way. */
  predicate NoCastOf(s: State, uid: Uid) {
    forall i :: 0 <= i < |s.casts| ==> !s.casts[i].Running? || s.casts[i].uid != uid
  }

  predicate NoneLost(s: State) {
    forall i :: 0 <= i < |s.casts| ==> !s.casts[i].Lost?
  }

  predicate CastsInRange(s: State) {
    forall i :: 0 <= i < |s.casts| && s.casts[i].Running? ==>
      s.casts[i].done <= |QueuesOf(s.subs, s.casts[i].uid)|
  }

  /** A message is live with a positive count or released, once, from its allocation on. */
  ghost predicate Lifetimes(s: State) {
    && (forall m :: m in s.counts ==> s.counts[m] > 0)
    && (forall m :: m in s.uids <==> m in s.counts || m in s.released)
    && (forall m :: m in s.released ==> m !in s.counts)
    && (forall i, j :: 0 <= i < j < |s.released| ==> s.released[i] != s.released[j])
  }

  /**
   Counts equal references, a message is gone exactly when it has none left, and every broadcast under
   way still points to the element of its identifier.
   */
  ghost predicate Conserved(s: State) {
    && (forall m: MsgId :: Count(s, m) == References(s, m))
    && CastsInRange(s) && NoneLost(s) && Lifetimes(s)
  }

  lemma StepCounts(s: State, step: Step, m: MsgId)
    requires Conserved(s) && Enabled(s, step) && !step.Subscribe?
    ensures Count(Apply(s, step), m) == References(Apply(s, step), m)
  {
    StepReferences(s, step, m);
    if step.Free? || step.Broadcast? {
      assert Count(s, step.m) == References(s, step.m) >= 1;
    }
  }

  lemma StepLifetimes(s: State, step: Step)
    requires Lifetimes(s) && Enabled(s, step)
    requires step.Free? || step.Broadcast? ==> Count(s, step.m) >= 1
    ensures Lifetimes(Apply(s, step))
  {
  }

  /** Every step but a subscription keeps counts and references equal. */
  lemma StepKeepsConserved(s: State, step: Step)
    requires Conserved(s) && Enabled(s, step) && !step.Subscribe?
    ensures Conserved(Apply(s, step))
  {
    forall m: MsgId
      ensures Count(Apply(s, step), m) == References(Apply(s, step), m)
    {
      StepCounts(s, step, m);
    }
    if step.Free? || step.Broadcast? {
      assert Count(s, step.m) == References(s, step.m) >= 1;
    }
    StepLifetimes(s, step);
  }

  /** A subscription leaves one more queue to serve for each running broadcast of its identifier. */
  lemma {:induction false} InCastsSubscribed(subs: seq<Subscription>, sub: Subscription, casts: seq<Cast>, m: MsgId)
    requires forall i :: 0 <= i < |casts| && casts[i].Running? ==>
      casts[i].done <= |QueuesOf(subs, casts[i].uid)|
    ensures InCasts(subs, casts, m) <= InCasts(subs + [sub], casts, m)
    ensures InCasts(subs + [sub], casts, m) == InCasts(subs, casts, m)
      <==> forall i :: 0 <= i < |casts| && casts[i].Running? && casts[i].msg == m ==> casts[i].uid != sub.uid
  {
    if casts != [] {
      if casts[0].Running? {
        QueuesOfAppend(subs, sub, casts[0].uid);
      }
      InCastsSubscribed(subs, sub, casts[1..], m);
      assert forall i :: 0 < i < |casts| ==> casts[i] == casts[1..][i - 1];
    }
  }

  /** No broadcast would be displaced, and none of the identifier itself is under way. */
  predicate Undisturbing(s: State, uid: Uid, moved: bool) {
    if QueuesOf(s.subs, uid) == [] then
      forall i :: 0 <= i < |s.casts| ==> !Displaced(s.casts[i], uid, moved)
    else NoCastOf(s, uid)
  }

  lemma MoreQueues(subs: seq<Subscription>, sub: Subscription, uid: Uid)
    ensures |QueuesOf(subs, uid)| <= |QueuesOf(subs + [sub], uid)|
  {
    QueuesOfAppend(subs, sub, uid);
  }

  lemma SubscribedInRange(s: State, q: QueueId, uid: Uid, moved: bool)
    requires CastsInRange(s) && Enabled(s, Subscribe(q, uid, moved))
    ensures CastsInRange(Apply(s, Subscribe(q, uid, moved)))
  {
    var casts := CastsAfter(s, uid, moved);
    var subs := s.subs + [Subscription(q, uid)];
    forall i | 0 <= i < |casts| && casts[i].Running?
      ensures casts[i].done <= |QueuesOf(subs, casts[i].uid)|
    {
      assert casts[i] == s.casts[i];
      MoreQueues(s.subs, Subscription(q, uid), casts[i].uid);
    }
  }

  /** A broadcast of the identifier itself has one more queue to serve, without a reference for it. */
  lemma SubscribedCastBreaks(s: State, q: QueueId, uid: Uid, moved: bool, i: nat)
    requires Conserved(s) && Enabled(s, Subscribe(q, uid, moved)) && QueuesOf(s.subs, uid) != []
    requires i < |s.casts| && s.casts[i].Running? && s.casts[i].uid == uid
    ensures var s' := Apply(s, Subscribe(q, uid, moved)); var m := s.casts[i].msg;
      Count(s', m) < References(s', m)
  {
    var m := s.casts[i].msg;
    InCastsSubscribed(s.subs, Subscription(q, uid), s.casts, m);
    assert Count(s, m) == References(s, m);
  }

  lemma UndisturbedKeeps(s: State, q: QueueId, uid: Uid, moved: bool)
    requires Conserved(s) && Enabled(s, Subscribe(q, uid, moved)) && Undisturbing(s, uid, moved)
    ensures Conserved(Apply(s, Subscribe(q, uid, moved)))
    ensures Apply(s, Subscribe(q, uid, moved)).casts == s.casts
  {
    var s' := Apply(s, Subscribe(q, uid, moved));
    assert s'.casts == s.casts;
    forall m: MsgId
      ensures Count(s', m) == References(s', m)
    {
      InCastsSubscribed(s.subs, Subscription(q, uid), s.casts, m);
      assert Count(s', m) == Count(s, m) == References(s, m);
    }
    SubscribedInRange(s, q, uid, moved);
  }

  /**
   A subscription to an identifier that has an element keeps everything exactly when no broadcast of it
   is under way. A subscription to a new identifier does so exactly when no broadcast is under way whose
   element moves: any one when the array gets a new place, otherwise one of a greater identifier.
   */
  lemma SubscribeKeepsExactly(s: State, q: QueueId, uid: Uid, moved: bool)
    requires Conserved(s) && Enabled(s, Subscribe(q, uid, moved))
    ensures Conserved(Apply(s, Subscribe(q, uid, moved))) <==> Undisturbing(s, uid, moved)
  {
    var s' := Apply(s, Subscribe(q, uid, moved));
    if Undisturbing(s, uid, moved) {
      UndisturbedKeeps(s, q, uid, moved);
    } else if QueuesOf(s.subs, uid) == [] {
      var i :| 0 <= i < |s.casts| && Displaced(s.casts[i], uid, moved);
      assert s'.casts[i].Lost?;
    } else {
      var i :| 0 <= i < |s.casts| && s.casts[i].Running? && s.casts[i].uid == uid;
      SubscribedCastBreaks(s, q, uid, moved, i);
    }
  }

  /** What a caller can see to: no broadcast under way of this identifier, none at all if it is new. */
  predicate Quiet(s: State, uid: Uid) {
    if QueuesOf(s.subs, uid) == [] then forall i :: 0 <= i < |s.casts| ==> !s.casts[i].Running?
    else NoCastOf(s, uid)
  }

  /** Wherever the array ends up, a subscription keeps everything exactly when the bus is quiet. */
  lemma SubscribeSafeExactly(s: State, q: QueueId, uid: Uid)
    requires Conserved(s) && q < |s.queues|
    ensures Quiet(s, uid) <==>
      Conserved(Apply(s, Subscribe(q, uid, false))) && Conserved(Apply(s, Subscribe(q, uid, true)))
  {
    SubscribeKeepsExactly(s, q, uid, false);
    SubscribeKeepsExactly(s, q, uid, true);
  }

  // ---------------------------------------------------------------- whole runs

  function Init(n: nat): State {
    State(map[], map[], [], seq(n, _ => []), multiset{}, [], [])
  }

  predicate Reaches(s: State, steps: seq<Step>, s': State)
    decreases |steps|
  {
    if steps == [] then s' == s
    else Enabled(s, steps[0]) && Reaches(Apply(s, steps[0]), steps[1..], s')
  }

  /**
   No subscription is made to an identifier while a broadcast of it is under way, and none to a new
   identifier while any broadcast is.
   */
  predicate Orderly(s: State, steps: seq<Step>)
    decreases |steps|
  {
    steps != [] && Enabled(s, steps[0]) ==>
      && (steps[0].Subscribe? ==> Quiet(s, steps[0].uid))
      && Orderly(Apply(s, steps[0]), steps[1..])
  }

  lemma {:induction false} EmptyQueues(queues: seq<seq<MsgId>>, m: MsgId)
    requires forall i :: 0 <= i < |queues| ==> queues[i] == []
    ensures InQueues(queues, m) == 0
  {
    if queues != [] {
      EmptyQueues(queues[1..], m);
    }
  }

  lemma InitConserved(n: nat)
    ensures Conserved(Init(n))
  {
    forall m: MsgId
      ensures References(Init(n), m) == 0
    {
      EmptyQueues(Init(n).queues, m);
    }
  }

  lemma {:induction false} RunConserves(s: State, steps: seq<Step>, s': State)
    requires Conserved(s) && Reaches(s, steps, s') && Orderly(s, steps)
    ensures Conserved(s')
    decreases |steps|
  {
    if steps != [] {
      if steps[0].Subscribe? {
        SubscribeKeepsExactly(s, steps[0].q, steps[0].uid, steps[0].moved);
      } else {
        StepKeepsConserved(s, steps[0]);
      }
      RunConserves(Apply(s, steps[0]), steps[1..], s');
    }
  }

  /**
   In every run with subscriptions only while the bus is quiet, a live message's count is the number of
   references to it, wherever they are. An allocated message is released exactly when no reference is
   left, and only once. No queue ever has a released message.
   */
  lemma ReferencesConserved(n: nat, steps: seq<Step>, s: State)
    requires Reaches(Init(n), steps, s) && Orderly(Init(n), steps)
    ensures forall m :: m in s.counts ==> s.counts[m] == References(s, m) > 0
    ensures forall m :: m in s.uids ==> (m in s.released <==> References(s, m) == 0)
    ensures forall i, j :: 0 <= i < j < |s.released| ==> s.released[i] != s.released[j]
    ensures forall q, i :: 0 <= q < |s.queues| && 0 <= i < |s.queues[q]| ==>
      s.queues[q][i] in s.counts && s.queues[q][i] !in s.released
  {
    InitConserved(n);
    RunConserves(Init(n), steps, s);
    forall m: MsgId
      ensures Count(s, m) == References(s, m)
    {
    }
    forall q, i | 0 <= q < |s.queues| && 0 <= i < |s.queues[q]|
      ensures s.queues[q][i] in s.counts && s.queues[q][i] !in s.released
    {
      QueuedIsCounted(s.queues, q, s.queues[q][i]);
      assert Count(s, s.queues[q][i]) > 0;
    }
  }

  // ---------------------------------------------------------------- broadcast delivers

  /** The queues that broadcast `c` puts its message on in the course of a run, in order. */
  function DeliveriesOf(s: State, steps: seq<Step>, c: nat): seq<QueueId>
    decreases |steps|
  {
    if steps == [] || !Enabled(s, steps[0]) then []
    else
      (if steps[0] == Deliver(c) then [Todo(s.subs, s.casts[c])[0]] else [])
      + DeliveriesOf(Apply(s, steps[0]), steps[1..], c)
  }

  /** A delivery is a put of the broadcast's message on that queue, and changes no other queue. */
  lemma DeliveryAppends(s: State, c: nat)
    requires Enabled(s, Deliver(c))
    ensures s.casts[c].Running?
    ensures var q := Todo(s.subs, s.casts[c])[0];
      Apply(s, Deliver(c)).queues == s.queues[q := s.queues[q] + [s.casts[c].msg]]
  {
  }

  lemma SubscriptionsGrow(s: State, step: Step, uid: Uid)
    requires Enabled(s, step)
    ensures QueuesOf(s.subs, uid) <= QueuesOf(Apply(s, step).subs, uid)
    ensures !step.Subscribe? ==> Apply(s, step).subs == s.subs
    ensures step.Subscribe? && step.uid != uid ==>
      QueuesOf(Apply(s, step).subs, uid) == QueuesOf(s.subs, uid)
  {
    if step.Subscribe? {
      QueuesOfAppend(s.subs, Subscription(step.q, step.uid), uid);
    }
  }

  /** Where a broadcast stands after a run, given how many queues it had served before. */
  predicate Served(s': State, c: nat, m: MsgId, uid: Uid, from: nat, least: nat, served: seq<QueueId>) {
    && c < |s'.casts|
    && (s'.casts[c].Running? ==> s'.casts[c] == Running(m, uid, from + |served|))
    && from + |served| <= |QueuesOf(s'.subs, uid)|
    && served == QueuesOf(s'.subs, uid)[from..from + |served|]
    && (s'.casts[c].Over? ==> least <= from + |served|)
  }

  lemma ServedOneMore(s': State, c: nat, m: MsgId, uid: Uid, from: nat, least: nat, served: seq<QueueId>)
    requires Served(s', c, m, uid, from + 1, least, served)
    ensures Served(s', c, m, uid, from, least, [QueuesOf(s'.subs, uid)[from]] + served)
  {
  }

  lemma ServesAfterDelivery(s: State, steps: seq<Step>, s': State, c: nat)
    requires Reaches(s, steps, s') && steps != [] && steps[0] == Deliver(c)
    requires c < |s.casts| && s.casts[c].Running?
    requires Served(s', c, s.casts[c].msg, s.casts[c].uid, s.casts[c].done + 1,
                    |QueuesOf(s.subs, s.casts[c].uid)|, DeliveriesOf(Apply(s, steps[0]), steps[1..], c))
    ensures Served(s', c, s.casts[c].msg, s.casts[c].uid, s.casts[c].done,
                   |QueuesOf(s.subs, s.casts[c].uid)|, DeliveriesOf(s, steps, c))
  {
    var next := Apply(s, steps[0]);
    RunKeepsPrefix(next, steps[1..], s', s.casts[c].uid);
    ServedOneMore(s', c, s.casts[c].msg, s.casts[c].uid, s.casts[c].done,
                  |QueuesOf(s.subs, s.casts[c].uid)|, DeliveriesOf(next, steps[1..], c));
  }

  /** A subscription to a new identifier that takes away the element of a broadcast. */
  predicate Loses(s: State, step: Step, c: nat)
    requires c < |s.casts|
  {
    step.Subscribe? && QueuesOf(s.subs, step.uid) == [] && Displaced(s.casts[c], step.uid, step.moved)
  }

  /** What one step does to a running broadcast. */
  lemma CastAfterStep(s: State, step: Step, c: nat)
    requires Enabled(s, step) && c < |s.casts| && s.casts[c].Running?
    requires s.casts[c].done <= |QueuesOf(s.subs, s.casts[c].uid)|
    ensures var next := Apply(s, step);
      && c < |next.casts|
      && |QueuesOf(s.subs, s.casts[c].uid)| <= |QueuesOf(next.subs, s.casts[c].uid)|
      && (if step == Finish(c) then next.casts[c].Over? && s.casts[c].done == |QueuesOf(s.subs, s.casts[c].uid)|
          else if Loses(s, step, c) then next.casts[c].Lost?
          else next.casts[c] == Running(s.casts[c].msg, s.casts[c].uid,
                                        if step == Deliver(c) then s.casts[c].done + 1 else s.casts[c].done))
      && (step == Deliver(c) ==> s.casts[c].done < |QueuesOf(s.subs, s.casts[c].uid)|)
  {
    if step.Subscribe? {
      MoreQueues(s.subs, Subscription(step.q, step.uid), s.casts[c].uid);
    } else {
      TodoLeft(s.subs, s.casts[c]);
      assert Apply(s, step).subs == s.subs;
    }
  }

  lemma TodoLeft(subs: seq<Subscription>, c: Cast)
    requires c.Running? && c.done <= |QueuesOf(subs, c.uid)|
    ensures |Todo(subs, c)| == |QueuesOf(subs, c.uid)| - c.done
  {
  }

  lemma ServedWeaken(s': State, c: nat, m: MsgId, uid: Uid, from: nat, least: nat, served: seq<QueueId>, less: nat)
    requires Served(s', c, m, uid, from, least, served) && less <= least
    ensures Served(s', c, m, uid, from, less, served)
  {
  }

  /**
   In every run a broadcast serves, until it is over or lost, the queues of its identifier in the order
   of their subscription, each once, and is not over before it has served all that were subscribed
   when it started.
   */
  lemma {:induction false} BroadcastServesInOrder(s: State, steps: seq<Step>, s': State, c: nat)
    requires Reaches(s, steps, s') && c < |s.casts| && s.casts[c].Running?
    requires s.casts[c].done <= |QueuesOf(s.subs, s.casts[c].uid)|
    ensures Served(s', c, s.casts[c].msg, s.casts[c].uid, s.casts[c].done,
                   |QueuesOf(s.subs, s.casts[c].uid)|, DeliveriesOf(s, steps, c))
    decreases |steps|
  {
    if steps != [] {
      var next := Apply(s, steps[0]);
      CastAfterStep(s, steps[0], c);
      if steps[0] == Finish(c) || Loses(s, steps[0], c) {
        EndedStays(next, steps[1..], s', c);
        RunKeepsPrefix(s, steps, s', s.casts[c].uid);
      } else {
        BroadcastServesInOrder(next, steps[1..], s', c);
        ServedWeaken(s', c, next.casts[c].msg, next.casts[c].uid, next.casts[c].done,
                     |QueuesOf(next.subs, next.casts[c].uid)|, DeliveriesOf(next, steps[1..], c),
                     |QueuesOf(s.subs, s.casts[c].uid)|);
        if steps[0] == Deliver(c) {
          ServesAfterDelivery(s, steps, s', c);
        }
      }
    }
  }

  lemma {:induction false} RunKeepsPrefix(s: State, steps: seq<Step>, s': State, uid: Uid)
    requires Reaches(s, steps, s')
    ensures QueuesOf(s.subs, uid) <= QueuesOf(s'.subs, uid)
    decreases |steps|
  {
    if steps != [] {
      SubscriptionsGrow(s, steps[0], uid);
      RunKeepsPrefix(Apply(s, steps[0]), steps[1..], s', uid);
    }
  }

  lemma {:induction false} EndedStays(s: State, steps: seq<Step>, s': State, c: nat)
    requires Reaches(s, steps, s') && c < |s.casts| && !s.casts[c].Running?
    ensures c < |s'.casts| && s'.casts[c] == s.casts[c] && DeliveriesOf(s, steps, c) == []
    decreases |steps|
  {
    if steps != [] {
      EndedStays(Apply(s, steps[0]), steps[1..], s', c);
    }
  }

  /** Without subscriptions to its identifier meanwhile, the queues to serve stay the same. */
  lemma {:induction false} RunningKeepsQueues(s: State, steps: seq<Step>, s': State, c: nat)
    requires Reaches(s, steps, s') && Orderly(s, steps) && c < |s.casts| && s.casts[c].Running?
    requires s.casts[c].done <= |QueuesOf(s.subs, s.casts[c].uid)|
    requires QueuesOf(s.subs, s.casts[c].uid) != []
    ensures |DeliveriesOf(s, steps, c)| <= |QueuesOf(s.subs, s.casts[c].uid)| - s.casts[c].done
    ensures c < |s'.casts| && !s'.casts[c].Lost?
    decreases |steps|
  {
    if steps != [] {
      var next := Apply(s, steps[0]);
      SubscriptionsGrow(s, steps[0], s.casts[c].uid);
      if steps[0] == Finish(c) {
        EndedStays(next, steps[1..], s', c);
      } else {
        RunningKeepsQueues(next, steps[1..], s', c);
      }
    }
  }

  /**
   Every subscription receives a broadcast exactly once, in every interleaving with subscriptions only
   while the bus is quiet: the broadcast is not lost, and when the broadcast that starts in `s` is over, its puts
   were on the queues subscribed, one each per subscription and in their order.
   */
  lemma EverySubscriptionServedOnce(s: State, m: MsgId, steps: seq<Step>, s': State)
    requires Enabled(s, Broadcast(m)) && QueuesOf(s.subs, s.uids[m]) != []
    requires Reaches(Apply(s, Broadcast(m)), steps, s') && Orderly(Apply(s, Broadcast(m)), steps)
    ensures var served := DeliveriesOf(Apply(s, Broadcast(m)), steps, |s.casts|);
      && |s.casts| < |s'.casts| && !s'.casts[|s.casts|].Lost?
      && served <= QueuesOf(s.subs, s.uids[m])
      && (s'.casts[|s.casts|].Over? ==> served == QueuesOf(s.subs, s.uids[m]))
  {
    var start := Apply(s, Broadcast(m));
    BroadcastServesInOrder(start, steps, s', |s.casts|);
    RunningKeepsQueues(start, steps, s', |s.casts|);
    RunKeepsPrefix(start, steps, s', s.uids[m]);
    var all, queues := QueuesOf(s'.subs, s.uids[m]), QueuesOf(s.subs, s.uids[m]);
    var n := |DeliveriesOf(start, steps, |s.casts|)|;
    assert all[..n] == queues[..n];
  }

  /** The queues that subscriptions and broadcasts name exist. */
  predicate InRange(s: State) {
    CastsInRange(s) && forall i :: 0 <= i < |s.subs| ==> s.subs[i].queue < |s.queues|
  }

  lemma StepInRange(s: State, step: Step)
    requires InRange(s) && Enabled(s, step)
    ensures InRange(Apply(s, step)) && |Apply(s, step).queues| == |s.queues|
  {
    if step.Subscribe? {
      SubscribedInRange(s, step.q, step.uid, step.moved);
    }
  }

  lemma {:induction false} RunInRange(s: State, steps: seq<Step>, s': State)
    requires InRange(s) && Reaches(s, steps, s')
    ensures InRange(s') && |s'.queues| == |s.queues|
    decreases |steps|
  {
    if steps != [] {
      StepInRange(s, steps[0]);
      RunInRange(Apply(s, steps[0]), steps[1..], s');
    }
  }

  /** In every reachable state a running broadcast can go on: it has a queue to serve or is done. */
  lemma BroadcastGoesOn(n: nat, steps: seq<Step>, s: State, c: nat)
    requires Reaches(Init(n), steps, s) && c < |s.casts| && s.casts[c].Running?
    ensures Enabled(s, Deliver(c)) || Enabled(s, Finish(c))
  {
    RunInRange(Init(n), steps, s);
    QueuesOfInRange(s.subs, s.casts[c].uid, |s.queues|);
    var todo := Todo(s.subs, s.casts[c]);
    if todo != [] {
      assert todo[0] == QueuesOf(s.subs, s.casts[c].uid)[s.casts[c].done];
      assert todo[0] in QueuesOf(s.subs, s.casts[c].uid);
    }
  }

  lemma {:induction false} QueuesOfInRange(subs: seq<Subscription>, uid: Uid, n: nat)
    requires forall i :: 0 <= i < |subs| ==> subs[i].queue < n
    ensures forall q :: q in QueuesOf(subs, uid) ==> q < n
  {
    if subs != [] {
      QueuesOfInRange(subs[..|subs| - 1], uid, n);
    }
  }

  // ---------------------------------------------------------------- what the queues get

  /** What a step puts on a queue, and what it takes off. */
  function PutOn(s: State, step: Step, q: QueueId): seq<MsgId>
    requires Enabled(s, step)
  {
    if step.Put? && step.q == q then [step.m]
    else if step.Deliver? && Todo(s.subs, s.casts[step.i])[0] == q then [s.casts[step.i].msg]
    else []
  }

  function TakenOff(s: State, step: Step, q: QueueId): seq<MsgId>
    requires Enabled(s, step)
  {
    if step.Get? && step.q == q then [s.queues[q][0]] else []
  }

  function Arrivals(s: State, steps: seq<Step>, q: QueueId): seq<MsgId>
    decreases |steps|
  {
    if steps == [] || !Enabled(s, steps[0]) then []
    else PutOn(s, steps[0], q) + Arrivals(Apply(s, steps[0]), steps[1..], q)
  }

  function Departures(s: State, steps: seq<Step>, q: QueueId): seq<MsgId>
    decreases |steps|
  {
    if steps == [] || !Enabled(s, steps[0]) then []
    else TakenOff(s, steps[0], q) + Departures(Apply(s, steps[0]), steps[1..], q)
  }

  lemma StepMovesQueue(s: State, step: Step, q: QueueId)
    requires Enabled(s, step) && q < |s.queues|
    ensures |Apply(s, step).queues| == |s.queues|
    ensures s.queues[q] + PutOn(s, step, q) == TakenOff(s, step, q) + Apply(s, step).queues[q]
    ensures PutOn(s, step, q) == [] || TakenOff(s, step, q) == []
  {
    if step.Deliver? {
      DeliveryAppends(s, step.i);
    }
  }

  lemma Chained(was: seq<MsgId>, put: seq<MsgId>, off: seq<MsgId>, mid: seq<MsgId>, puts: seq<MsgId>,
                offs: seq<MsgId>, end: seq<MsgId>)
    requires was + put == off + mid && mid + puts == offs + end
    ensures was + (put + puts) == (off + offs) + end
  {
    assert was + (put + puts) == (was + put) + puts == off + (mid + puts);
    assert (off + offs) + end == off + (offs + end);
  }

  /** Over every run a queue is first in, first out: what it had and got is what it gave and has. */
  lemma {:induction false} QueueHistory(s: State, steps: seq<Step>, s': State, q: QueueId)
    requires Reaches(s, steps, s') && q < |s.queues|
    ensures |s'.queues| == |s.queues|
    ensures s.queues[q] + Arrivals(s, steps, q) == Departures(s, steps, q) + s'.queues[q]
    decreases |steps|
  {
    if steps != [] {
      var next := Apply(s, steps[0]);
      StepMovesQueue(s, steps[0], q);
      QueueHistory(next, steps[1..], s', q);
      Chained(s.queues[q], PutOn(s, steps[0], q), TakenOff(s, steps[0], q), next.queues[q],
              Arrivals(next, steps[1..], q), Departures(next, steps[1..], q), s'.queues[q]);
    }
  }

  lemma CountConcat<T>(a: seq<T>, b: seq<T>, x: T)
    ensures multiset(a + b)[x] == multiset(a)[x] + multiset(b)[x]
  {
  }

  lemma DeliveryArrives(s: State, step: Step, c: nat, q: QueueId)
    requires Enabled(s, step) && c < |s.casts| && s.casts[c].Running?
    ensures c < |Apply(s, step).casts|
    ensures Apply(s, step).casts[c].Running? ==> Apply(s, step).casts[c].msg == s.casts[c].msg
    ensures step == Deliver(c) && Todo(s.subs, s.casts[c])[0] == q ==> PutOn(s, step, q) == [s.casts[c].msg]
    ensures step == Deliver(c) ==> Apply(s, step).casts[c].Running?
  {
  }

  /** Each delivery of a broadcast to a queue is an arrival of its message there. */
  lemma {:induction false} DeliveriesArrive(s: State, steps: seq<Step>, s': State, c: nat, q: QueueId)
    requires Reaches(s, steps, s') && c < |s.casts| && s.casts[c].Running?
    ensures multiset(DeliveriesOf(s, steps, c))[q] <= multiset(Arrivals(s, steps, q))[s.casts[c].msg]
    decreases |steps|
  {
    if steps != [] {
      var next, m := Apply(s, steps[0]), s.casts[c].msg;
      DeliveryArrives(s, steps[0], c, q);
      if next.casts[c].Running? {
        DeliveriesArrive(next, steps[1..], s', c, q);
      } else {
        EndedStays(next, steps[1..], s', c);
      }
      var served := if steps[0] == Deliver(c) then [Todo(s.subs, s.casts[c])[0]] else [];
      CountConcat(served, DeliveriesOf(next, steps[1..], c), q);
      CountConcat(PutOn(s, steps[0], q), Arrivals(next, steps[1..], q), m);
    }
  }

  /**
   When a broadcast is over, its message has been taken from, or is in, each queue once more for each
   time that queue is subscribed.
   */
  lemma EverySubscriptionReceives(s: State, m: MsgId, steps: seq<Step>, s': State, q: QueueId)
    requires Enabled(s, Broadcast(m)) && QueuesOf(s.subs, s.uids[m]) != [] && q < |s.queues|
    requires Reaches(Apply(s, Broadcast(m)), steps, s') && Orderly(Apply(s, Broadcast(m)), steps)
    requires |s.casts| < |s'.casts| && s'.casts[|s.casts|].Over?
    ensures |s'.queues| == |s.queues|
    ensures multiset(Departures(Apply(s, Broadcast(m)), steps, q))[m] + multiset(s'.queues[q])[m]
      >= multiset(s.queues[q])[m] + multiset(QueuesOf(s.subs, s.uids[m]))[q]
  {
    var start := Apply(s, Broadcast(m));
    EverySubscriptionServedOnce(s, m, steps, s');
    DeliveriesArrive(start, steps, s', |s.casts|, q);
    QueueHistory(start, steps, s', q);
    CountConcat(start.queues[q], Arrivals(start, steps, q), m);
    CountConcat(Departures(start, steps, q), s'.queues[q], m);
  }

  // ---------------------------------------------------------------- from the calls made

  /** Identifiers are given by alloc, and never change. */
  lemma {:induction false} RunKeepsUids(s: State, steps: seq<Step>, s': State, m: MsgId)
    requires Reaches(s, steps, s')
    ensures m in s.uids ==> m in s'.uids && s'.uids[m] == s.uids[m]
    ensures m in s'.uids && m !in s.uids ==> Alloc(m, s'.uids[m]) in steps
    ensures forall uid :: Alloc(m, uid) in steps ==> m !in s.uids && m in s'.uids && s'.uids[m] == uid
    decreases |steps|
  {
    if steps != [] {
      RunKeepsUids(Apply(s, steps[0]), steps[1..], s', m);
      assert steps == [steps[0]] + steps[1..];
    }
  }

  /** Over every run the identifier of a message is the one that alloc was called with. */
  lemma UidIsAllocated(n: nat, steps: seq<Step>, s: State, m: MsgId)
    requires Reaches(Init(n), steps, s)
    ensures m in s.uids ==> Alloc(m, s.uids[m]) in steps
    ensures forall uid :: Alloc(m, uid) in steps <==> m in s.uids && s.uids[m] == uid
  {
    RunKeepsUids(Init(n), steps, s, m);
  }

  /** The subscriptions that a run makes. */
  function SubscribedBy(steps: seq<Step>): seq<Subscription> {
    if steps == [] then []
    else
      SubscriptionOf(steps[0]) + SubscribedBy(steps[1..])
  }

  function SubscriptionOf(step: Step): seq<Subscription> {
    if step.Subscribe? then [Subscription(step.q, step.uid)] else []
  }

  lemma Joined<T>(a: seq<T>, b: seq<T>, c: seq<T>)
    ensures a + (b + c) == (a + b) + c
  {
  }

  lemma {:induction false} RunSubscribes(s: State, steps: seq<Step>, s': State)
    requires Reaches(s, steps, s')
    ensures s'.subs == s.subs + SubscribedBy(steps)
    decreases |steps|
  {
    if steps != [] {
      var next := Apply(s, steps[0]);
      assert next.subs == s.subs + SubscriptionOf(steps[0]);
      RunSubscribes(next, steps[1..], s');
      Joined(s.subs, SubscriptionOf(steps[0]), SubscribedBy(steps[1..]));
    } else {
      assert s.subs + [] == s.subs;
    }
  }

  /** How often a queue was subscribed to an identifier. */
  function TimesSubscribed(steps: seq<Step>, q: QueueId, uid: Uid): nat {
    if steps == [] then 0
    else
      (if steps[0].Subscribe? && steps[0].q == q && steps[0].uid == uid then 1 else 0)
      + TimesSubscribed(steps[1..], q, uid)
  }

  lemma OneMoreCounted(before: seq<Subscription>, step: Step, q: QueueId, uid: Uid)
    ensures multiset(QueuesOf(before + SubscriptionOf(step), uid))[q]
      == multiset(QueuesOf(before, uid))[q]
         + if step.Subscribe? && step.q == q && step.uid == uid then 1 else 0
  {
    if step.Subscribe? {
      QueuesOfAppend(before, Subscription(step.q, step.uid), uid);
    } else {
      assert before + [] == before;
    }
  }

  lemma {:induction false} SubscribersCounted(before: seq<Subscription>, steps: seq<Step>, q: QueueId, uid: Uid)
    ensures multiset(QueuesOf(before + SubscribedBy(steps), uid))[q]
      == multiset(QueuesOf(before, uid))[q] + TimesSubscribed(steps, q, uid)
    decreases |steps|
  {
    if steps == [] {
      assert before + [] == before;
    } else {
      var sub := SubscriptionOf(steps[0]);
      OneMoreCounted(before, steps[0], q, uid);
      SubscribersCounted(before + sub, steps[1..], q, uid);
      Joined(before, sub, SubscribedBy(steps[1..]));
    }
  }

  lemma SubscribersOf(n: nat, before: seq<Step>, s: State, q: QueueId, uid: Uid)
    requires Reaches(Init(n), before, s)
    ensures |s.queues| == n
    ensures multiset(QueuesOf(s.subs, uid))[q] == TimesSubscribed(before, q, uid)
  {
    RunSubscribes(Init(n), before, s);
    assert [] + SubscribedBy(before) == SubscribedBy(before);
    SubscribersCounted([], before, q, uid);
    RunInRange(Init(n), before, s);
  }

  /**
   From calls to queues, in every interleaving with subscriptions only while the bus is quiet: when the
   broadcast of a message allocated with an identifier is over, it was put on a queue once for each
   time that queue had been subscribed to that identifier, and the queue has given it or has it.
   */
  lemma SubscribersReceive(n: nat, before: seq<Step>, s: State, m: MsgId, uid: Uid,
                           steps: seq<Step>, s': State, q: QueueId)
    requires Reaches(Init(n), before, s) && Alloc(m, uid) in before && Enabled(s, Broadcast(m))
    requires QueuesOf(s.subs, s.uids[m]) != [] && q < n
    requires Reaches(Apply(s, Broadcast(m)), steps, s') && Orderly(Apply(s, Broadcast(m)), steps)
    requires |s.casts| < |s'.casts| && s'.casts[|s.casts|].Over?
    ensures |s.queues| == |s'.queues| == n
    ensures var start := Apply(s, Broadcast(m)); var times := TimesSubscribed(before, q, uid);
      && multiset(DeliveriesOf(start, steps, |s.casts|))[q] == times
      && multiset(Departures(start, steps, q))[m] + multiset(s'.queues[q])[m]
           >= multiset(s.queues[q])[m] + times
  {
    UidIsAllocated(n, before, s, m);
    SubscribersOf(n, before, s, q, uid);
    EverySubscriptionServedOnce(s, m, steps, s');
    EverySubscriptionReceives(s, m, steps, s', q);
  }

  /** An identifier has queues to serve exactly when a subscription to it was made. */
  lemma HeardExactly(n: nat, before: seq<Step>, s: State, uid: Uid)
    requires Reaches(Init(n), before, s)
    ensures QueuesOf(s.subs, uid) != [] <==> exists q :: TimesSubscribed(before, q, uid) > 0
  {
    var queues := QueuesOf(s.subs, uid);
    forall q
      ensures multiset(queues)[q] == TimesSubscribed(before, q, uid)
    {
      SubscribersOf(n, before, s, q, uid);
    }
    if queues != [] {
      assert queues[0] in multiset(queues);
      assert TimesSubscribed(before, queues[0], uid) > 0;
    }
  }

  // ---------------------------------------------------------------- a lost broadcast

  /** No message has more references than its count says. */
  ghost predicate Covered(s: State) {
    && (forall m: MsgId :: References(s, m) <= Count(s, m))
    && CastsInRange(s) && Lifetimes(s)
  }

  lemma StepCovers(s: State, step: Step, m: MsgId)
    requires Covered(s) && Enabled(s, step) && (step.Subscribe? ==> Quiet(s, step.uid))
    ensures Count(Apply(s, step), m) - References(Apply(s, step), m) == Count(s, m) - References(s, m)
  {
    if step.Subscribe? {
      QuietMoves(s, step.q, step.uid, step.moved, m);
    } else {
      StepReferences(s, step, m);
      if step.Free? || step.Broadcast? {
        HeldIsCounted(s, step.m);
      }
    }
  }

  lemma HeldIsCounted(s: State, m: MsgId)
    requires Covered(s) && m in s.held
    ensures Count(s, m) >= 1
  {
    assert References(s, m) <= Count(s, m);
  }

  lemma QuietMoves(s: State, q: QueueId, uid: Uid, moved: bool, m: MsgId)
    requires CastsInRange(s) && Enabled(s, Subscribe(q, uid, moved)) && Quiet(s, uid)
    ensures var s' := Apply(s, Subscribe(q, uid, moved));
      References(s', m) == References(s, m) && Count(s', m) == Count(s, m)
  {
    assert Apply(s, Subscribe(q, uid, moved)).casts == s.casts;
    InCastsSubscribed(s.subs, Subscription(q, uid), s.casts, m);
  }

  lemma StepKeepsCovered(s: State, step: Step)
    requires Covered(s) && Enabled(s, step) && (step.Subscribe? ==> Quiet(s, step.uid))
    ensures Covered(Apply(s, step))
  {
    forall m: MsgId
      ensures References(Apply(s, step), m) <= Count(Apply(s, step), m)
    {
      StepCovers(s, step, m);
      assert References(s, m) <= Count(s, m);
    }
    if step.Free? || step.Broadcast? {
      HeldIsCounted(s, step.m);
    }
    StepLifetimes(s, step);
    if step.Subscribe? {
      SubscribedInRange(s, step.q, step.uid, step.moved);
    }
  }

  /** A count that is too high stays too high by as much, and its message is never released. */
  lemma {:induction false} LeakStays(s: State, steps: seq<Step>, s': State, m: MsgId)
    requires Covered(s) && Reaches(s, steps, s') && Orderly(s, steps)
    requires References(s, m) < Count(s, m)
    ensures Count(s', m) - References(s', m) == Count(s, m) - References(s, m)
    ensures m !in s'.released
    decreases |steps|
  {
    if steps != [] {
      StepKeepsCovered(s, steps[0]);
      StepCovers(s, steps[0], m);
      LeakStays(Apply(s, steps[0]), steps[1..], s', m);
    }
  }

  /** Two queues subscribe to identifier 2, a broadcast has served one, and 1 gets its first queue. */
  function DisplacingRun(moved: bool): seq<Step> {
    [Subscribe(0, 2, false)] + ([Subscribe(1, 2, false)] + ([Alloc(0, 2)] + ([Broadcast(0)] +
      ([Deliver(0)] + ([Subscribe(2, 1, moved)] + [])))))
  }

  const DISPLACED: State :=
    State(map[0 := 2], map[0 := 2], [Subscription(0, 2), Subscription(1, 2), Subscription(2, 1)],
          [[0], [], []], multiset{}, [Lost], [])

  lemma ReachesOneMore(s: State, step: Step, rest: seq<Step>, s': State)
    requires Enabled(s, step) && Reaches(Apply(s, step), rest, s')
    ensures Reaches(s, [step] + rest, s')
  {
    assert ([step] + rest)[1..] == rest;
  }

  const ONE_SUBSCRIBED: State := Init(3).(subs := [Subscription(0, 2)])
  const TWO_SUBSCRIBED: State := Init(3).(subs := [Subscription(0, 2), Subscription(1, 2)])
  const ALLOCATED: State :=
    TWO_SUBSCRIBED.(counts := map[0 := 1], uids := map[0 := 2], held := multiset{0})
  const SHARED: State :=
    ALLOCATED.(counts := map[0 := 2], held := multiset{}, casts := [Running(0, 2, 0)])
  const DELIVERED: State := SHARED.(queues := [[0], [], []], casts := [Running(0, 2, 1)])

  lemma SubscribesTwice()
    ensures Enabled(Init(3), Subscribe(0, 2, false))
    ensures Apply(Init(3), Subscribe(0, 2, false)) == ONE_SUBSCRIBED
    ensures Enabled(ONE_SUBSCRIBED, Subscribe(1, 2, false))
    ensures Apply(ONE_SUBSCRIBED, Subscribe(1, 2, false)) == TWO_SUBSCRIBED
  {
    assert [] + [Subscription(0, 2)] == [Subscription(0, 2)];
    assert [Subscription(0, 2)] + [Subscription(1, 2)] == TWO_SUBSCRIBED.subs;
    assert CastsAfter(ONE_SUBSCRIBED, 2, false) == [];
  }

  lemma SharesTwice()
    ensures Enabled(TWO_SUBSCRIBED, Alloc(0, 2)) && Apply(TWO_SUBSCRIBED, Alloc(0, 2)) == ALLOCATED
    ensures Enabled(ALLOCATED, Broadcast(0)) && Apply(ALLOCATED, Broadcast(0)) == SHARED
  {
    TwoQueues(TWO_SUBSCRIBED.subs);
    assert ALLOCATED.casts + [Running(0, 2, 0)] == [Running(0, 2, 0)];
  }

  lemma DeliversOnce()
    ensures Enabled(SHARED, Deliver(0)) && Apply(SHARED, Deliver(0)) == DELIVERED
  {
    TwoQueues(SHARED.subs);
    assert Todo(SHARED.subs, SHARED.casts[0]) == [0, 1];
    assert SHARED.queues == [[], [], []];
    assert SHARED.queues[0] + [0] == [0];
  }

  lemma IsDisplaced(moved: bool)
    ensures Enabled(DELIVERED, Subscribe(2, 1, moved))
    ensures Apply(DELIVERED, Subscribe(2, 1, moved)) == DISPLACED
  {
    TwoQueues(DELIVERED.subs);
    assert DELIVERED.subs + [Subscription(2, 1)] == DISPLACED.subs;
    assert CastsAfter(DELIVERED, 1, moved) == [Lost];
  }

  lemma DisplacingRunReaches(moved: bool)
    ensures Reaches(Init(3), DisplacingRun(moved), DISPLACED)
  {
    SubscribesTwice();
    SharesTwice();
    DeliversOnce();
    IsDisplaced(moved);
    var last := [Subscribe(2, 1, moved)] + [];
    var third := [Broadcast(0)] + ([Deliver(0)] + last);
    ReachesOneMore(DELIVERED, Subscribe(2, 1, moved), [], DISPLACED);
    ReachesOneMore(SHARED, Deliver(0), last, DISPLACED);
    ReachesOneMore(ALLOCATED, Broadcast(0), [Deliver(0)] + last, DISPLACED);
    ReachesOneMore(TWO_SUBSCRIBED, Alloc(0, 2), third, DISPLACED);
    ReachesOneMore(ONE_SUBSCRIBED, Subscribe(1, 2, false), [Alloc(0, 2)] + third, DISPLACED);
    ReachesOneMore(Init(3), Subscribe(0, 2, false),
                   [Subscribe(1, 2, false)] + ([Alloc(0, 2)] + third), DISPLACED);
  }

  lemma {:induction false} NoQueues(subs: seq<Subscription>, uid: Uid)
    requires forall i :: 0 <= i < |subs| ==> subs[i].uid != uid
    ensures QueuesOf(subs, uid) == []
  {
    if subs != [] {
      NoQueues(subs[..|subs| - 1], uid);
    }
  }

  lemma TwoQueues(subs: seq<Subscription>)
    requires subs == [Subscription(0, 2), Subscription(1, 2)]
    ensures QueuesOf(subs, 2) == [0, 1]
    ensures forall u: Uid :: u != 2 ==> QueuesOf(subs, u) == []
  {
    QueuesOfAppend([], subs[0], 2);
    QueuesOfAppend([] + [subs[0]], subs[1], 2);
    assert [] + [subs[0]] + [subs[1]] == subs;
    forall u: Uid | u != 2 ensures QueuesOf(subs, u) == [] {
      NoQueues(subs, u);
    }
  }

  /**
   In that run the element of 1 comes first. If the array stays where it is, the broadcast now reads one
   queue there, of which it has served one, and ends: queue 1 gets nothing. The count stays one too high
   whatever follows, so that the message is never released.
   */
  lemma DisplacedBroadcastLeaks(moved: bool, later: seq<Step>, s': State)
    requires Reaches(DISPLACED, later, s') && Orderly(DISPLACED, later)
    ensures Reaches(Init(3), DisplacingRun(moved), DISPLACED)
    ensures Represents([Elem(2, [0, 1])], DISPLACED.subs[..2])
    ensures Represents([Elem(1, [2]), Elem(2, [0, 1])], DISPLACED.subs)
    ensures Count(s', 0) == References(s', 0) + 1 && 0 !in s'.released
  {
    DisplacingRunReaches(moved);
    DisplacedIndex();
    DisplacedReferences();
    LeakStays(DISPLACED, later, s', 0);
  }

  lemma DisplacedIndex()
    ensures Represents([Elem(2, [0, 1])], DISPLACED.subs[..2])
    ensures Represents([Elem(1, [2]), Elem(2, [0, 1])], DISPLACED.subs)
  {
    var a := [Elem(2, [0, 1])];
    TwoQueues(DISPLACED.subs[..2]);
    assert a[0].uid == 2;
    NewElementRepresents(a, DISPLACED.subs[..2], DISPLACED.subs[2]);
    assert DISPLACED.subs[..2] + [DISPLACED.subs[2]] == DISPLACED.subs;
    assert a[..0] + [Elem(1, [2])] + a[0..] == [Elem(1, [2]), Elem(2, [0, 1])];
  }

  lemma DisplacedReferences()
    ensures Covered(DISPLACED) && References(DISPLACED, 0) == 1
  {
    forall m: MsgId
      ensures References(DISPLACED, m) == if m == 0 then 1 else 0
    {
      EmptyQueues(DISPLACED.queues[1..], m);
      assert InCasts(DISPLACED.subs, DISPLACED.casts[1..], m) == 0;
      assert DISPLACED.queues[0] == [0];
    }
  }
}
