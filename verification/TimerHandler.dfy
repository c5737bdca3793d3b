/**
 The timer handler: active timers in a singly linked list sorted by expiry, each holding
 only the ticks to add to its predecessor's timeout, closed by a sentinel whose delta is
 UINT_MAX. Each public method is one section that the handler's mutex protects, so any
 interleaving of callers is a sequence of these calls, as long as two starts of one timer do not
 overlap: `Arm` is correct exactly for an inactive timer, and `ArmActive` shows what the same code
 does to the list otherwise.
 */
module TimerHandler {
  import opened Countdown
  import opened Splice

  class Timer {
    var next: Timer?
    var delta: nat
    var initialTicks: nat
    var repeatTicks: nat
    var outstanding: int
    var toIgnore: int
    ghost var epoch: nat
    ghost var inFlight: seq<nat>

    constructor ()
      ensures outstanding == toIgnore == 0 && inFlight == [] && epoch == 0
      ensures delta == initialTicks == repeatTicks == 0 && next == null
    {
      next, delta, initialTicks, repeatTicks := null, 0, 0, 0;
      outstanding, toIgnore := 0, 0;
      epoch, inFlight := 0, [];
    }

    /** This timer as a countdown with `left` ticks to go. */
    ghost function Value(left: nat): Countdown
      reads this`repeatTicks, this`epoch, this`inFlight
    {
      Countdown(left, repeatTicks, epoch, inFlight)
    }

    ghost predicate CountersValid()
      reads this`repeatTicks, this`epoch, this`inFlight, this`outstanding, this`toIgnore
    {
      && CountersMatch(Counters(outstanding, toIgnore), Value(0))
      && repeatTicks <= MAX_TICKS
    }

    method SetTicks(initial: nat, repeat: nat)
      requires CountersValid()
      modifies this`initialTicks, this`repeatTicks, this`delta
      ensures CountersValid() && repeatTicks == DivCeil(repeat) && delta == DivCeil(initial) + 1
    {
      initialTicks := DivCeil(initial);
      repeatTicks := DivCeil(repeat);
      delta := initialTicks;
      delta := delta + 1;
    }

    /** Every message in flight now precedes the latest stop. */
    method Disown()
      requires CountersValid()
      modifies this`toIgnore, this`epoch
      ensures CountersValid() && epoch == old(epoch) + 1
    {
      toIgnore := outstanding;
      epoch := epoch + 1;
    }

    /** One more message is in flight. */
    method Note()
      requires CountersValid()
      modifies this`outstanding, this`inFlight
      ensures CountersValid() && inFlight == old(inFlight) + [epoch]
    {
      outstanding := outstanding + 1;
      inFlight := inFlight + [epoch];
    }

    /** Whether the oldest message in flight, which is taken now, was posted since the latest stop. */
    method TakeOldest() returns (valid: bool)
      requires CountersValid() && inFlight != []
      modifies this`outstanding, this`toIgnore, this`inFlight
      ensures CountersValid() && inFlight == old(inFlight[1..])
      ensures valid <==> old(inFlight[0]) == epoch
    {
      outstanding := outstanding - 1;
      inFlight := inFlight[1..];
      if toIgnore > 0 {
        toIgnore := toIgnore - 1;
        valid := false;
      } else {
        valid := true;
      }
    }
  }

  /** Remaining ticks in list order: never decreasing, and far from the 32-bit limit. */
  predicate Sorted(rem: seq<nat>) {
    forall i, j :: 0 <= i <= j < |rem| ==> rem[i] <= rem[j] <= MAX_TICKS
  }

  /** What the deltas before position `i` add up to. */
  function Before(rem: seq<nat>, i: nat): nat
    requires i <= |rem|
  {
    if i == 0 then 0 else rem[i - 1]
  }

  ghost predicate NextOf(s: seq<Timer>, last: Timer)
    reads s`next
  {
    forall i {:trigger s[i].next} :: 0 <= i < |s| ==>
      s[i].next == if i + 1 < |s| then s[i + 1] else last
  }

  ghost predicate DeltaOf(s: seq<Timer>, rem: seq<nat>)
    reads s`delta
  {
    && |s| == |rem|
    && forall i {:trigger s[i].delta} :: 0 <= i < |s| ==> s[i].delta == rem[i] - Before(rem, i)
  }

  /** Position `k` is where a timeout of `d` ticks belongs: a tie goes in front. */
  predicate InsertPoint(rem: seq<nat>, k: nat, d: nat) {
    && k <= |rem|
    && (forall i :: 0 <= i < k ==> rem[i] < d)
    && (forall i :: k <= i < |rem| ==> d <= rem[i])
  }

  lemma InsSorted(rem: seq<nat>, k: nat, d: nat)
    requires Sorted(rem) && InsertPoint(rem, k, d) && d <= MAX_TICKS
    ensures Sorted(Ins(rem, k, d))
  {
  }

  /** Number of timers at the front with no ticks left. */
  function Zeros(rem: seq<nat>): (z: nat)
    ensures z <= |rem|
    ensures forall i :: 0 <= i < z ==> rem[i] == 0
    ensures z < |rem| ==> rem[z] > 0
  {
    if rem == [] || rem[0] > 0 then 0 else 1 + Zeros(rem[1..])
  }

  lemma ZerosUnique(rem: seq<nat>, z: nat)
    requires z <= |rem| && (forall i :: 0 <= i < z ==> rem[i] == 0) && (z < |rem| ==> rem[z] > 0)
    ensures Zeros(rem) == z
  {
  }

  /** A positive timeout goes behind all timers that are at zero. */
  lemma InsBehindZeros(rem: seq<nat>, k: nat, d: nat)
    requires InsertPoint(rem, k, d) && 0 < d
    ensures Zeros(rem) <= k && Zeros(Ins(rem, k, d)) == Zeros(rem)
  {
    assert k < |rem| ==> 0 < rem[k];
    ZerosUnique(Ins(rem, k, d), Zeros(rem));
  }

  /** Taking an expired head off changes nothing but itself: all others keep their time. */
  lemma PopFront<T>(s: seq<T>, rem: seq<nat>)
    requires |s| == |rem| && NoDup(s) && rem != [] && rem[0] == 0
    ensures NoDup(s[1..]) && s[0] !in s[1..]
    ensures Zeros(rem[1..]) == Zeros(rem) - 1
    ensures s[1..][..Zeros(rem[1..])] == s[..Zeros(rem)][1..]
    ensures forall x :: Lookup(s[1..], rem[1..], x) == Lookup(s, rem, x)
  {
    LookupAt(s, rem, 0);
    assert Del(s, 0) == s[1..] && Del(rem, 0) == rem[1..];
    forall x ensures Lookup(s[1..], rem[1..], x) == Lookup(s, rem, x) {
      LookupDel(s, rem, 0, x);
    }
  }

  /** An expired countdown that has posted and has not been put back. */
  function Fired(c: Countdown): Countdown {
    c.(left := 0, inFlight := c.inFlight + [c.epoch])
  }

  lemma InactiveIsZero<T>(s: seq<T>, rem: seq<nat>, x: T)
    requires |s| == |rem| && x !in s
    ensures Lookup(s, rem, x) == 0
  {
  }

  function Dec(rem: seq<nat>): (r: seq<nat>)
    requires forall i :: 0 <= i < |rem| ==> 0 < rem[i]
    ensures |r| == |rem| && forall i :: 0 <= i < |rem| ==> r[i] == rem[i] - 1
  {
    seq(|rem|, i requires 0 <= i < |rem| => rem[i] - 1)
  }

  /** Counting down leaves exactly those at zero that had one tick left. */
  lemma LookupDec<T>(s: seq<T>, rem: seq<nat>, x: T)
    requires |s| == |rem| && NoDup(s) && Sorted(rem) && (rem != [] ==> 0 < rem[0])
    ensures Lookup(s, Dec(rem), x) == if x in s then Lookup(s, rem, x) - 1 else 0
    ensures x in s[..Zeros(Dec(rem))] <==> Lookup(s, rem, x) == 1
    ensures x in s ==> 0 < Lookup(s, rem, x)
  {
    var z := Zeros(Dec(rem));
    if x in s {
      var i :| 0 <= i < |s| && s[i] == x;
      LookupAt(s, rem, i);
      LookupAt(s, Dec(rem), i);
      if i < z {
        assert s[..z][i] == x;
      }
    }
  }

  lemma LookupDecAll<T>(s: seq<T>, rem: seq<nat>)
    requires |s| == |rem| && NoDup(s) && Sorted(rem) && (rem != [] ==> 0 < rem[0])
    ensures forall x ::
      Lookup(s, Dec(rem), x) == if 0 < Lookup(s, rem, x) then Lookup(s, rem, x) - 1 else 0
    ensures forall x :: x in s[..Zeros(Dec(rem))] <==> Lookup(s, rem, x) == 1
  {
    forall x
      ensures Lookup(s, Dec(rem), x) == if 0 < Lookup(s, rem, x) then Lookup(s, rem, x) - 1 else 0
      ensures x in s[..Zeros(Dec(rem))] <==> Lookup(s, rem, x) == 1
    {
      LookupDec(s, rem, x);
    }
  }

  lemma TailMembers<T>(s: seq<T>)
    requires NoDup(s)
    ensures s != [] ==> forall x :: x in s[1..] <==> x in s && x != s[0]
  {
  }

  lemma InactiveIsUnlisted<T>(s: seq<T>, rem: seq<nat>, x: T)
    requires |s| == |rem| && NoDup(s) && Sorted(rem) && (rem != [] ==> 0 < rem[0])
    requires Lookup(s, rem, x) == 0
    ensures x !in s
  {
    LookupDec(s, rem, x);
  }

  /** Following a list from a timer along nodes that lead back to it. */
  lemma {:induction false} FollowNodes(s: seq<Timer>, last: Timer, p: nat, nodes: seq<Timer>, k: nat, i: nat)
    requires p < |s| && k <= i < |nodes| && NextOf(s, last) && last !in nodes
    requires s[p].next == nodes[k]
    requires forall n :: k <= n < i ==> nodes[n].next == nodes[n + 1]
    ensures p + 1 + (i - k) < |s| && s[p + 1 + (i - k)] == nodes[i]
    decreases i - k
  {
    if k < i {
      FollowNodes(s, last, p, nodes, k, i - 1);
      assert s[p + (i - k)].next == nodes[i];
    }
  }

  lemma CycleNeverEnds(s: seq<Timer>, last: Timer, nodes: seq<Timer>, k: nat, j: nat)
    requires k <= j < |nodes| && NoDup(s) && nodes[j] in s && last !in nodes
    requires nodes[j].next == nodes[k]
    requires forall n :: k <= n < j ==> nodes[n].next == nodes[n + 1]
    ensures !NextOf(s, last)
  {
    if NextOf(s, last) {
      var p :| 0 <= p < |s| && s[p] == nodes[j];
      FollowNodes(s, last, p, nodes, k, j);
      assert false;
    }
  }

  lemma MoveFirst<T>(s: seq<T>, r: seq<T>)
    ensures r != [] ==> s + [r[0]] + r[1..] == s + r
  {
  }

  class Handler {
    var head: Timer
    const tail: Timer
    /** The timers whose message was put on their queue, in order. */
    var posted: seq<Timer>

    /** All initialized timers, and the active ones in list order with their remaining ticks. */
    ghost var timers: set<Timer>
    ghost var active: seq<Timer>
    ghost var rem: seq<nat>

    /** The `i`th list node; the sentinel follows the last timer. */
    ghost function Node(i: nat): Timer
      reads this`active
    {
      if i < |active| then active[i] else tail
    }

    /** The list is well formed; timers at zero may be waiting at the front, mid-tick. */
    ghost predicate Linked()
      reads this`head, this`active, this`rem, this`timers
      reads tail`next, tail`delta, timers`next, timers`delta
    {
      && tail !in timers && tail.next == null && tail.delta == UINT_MAX
      && (forall i :: 0 <= i < |active| ==> active[i] in timers)
      && NoDup(active) && Sorted(rem)
      && head == Node(0) && NextOf(active, tail) && DeltaOf(active, rem)
    }

    ghost predicate Counted()
      reads this`timers, timers
    {
      forall t :: t in timers ==> t.CountersValid()
    }

    ghost predicate Valid()
      reads this, tail, timers
    {
      Linked() && Counted() && Running()
    }

    ghost function Left(t: Timer): nat
      requires |active| == |rem|
      reads this`active, this`rem
    {
      Lookup(active, rem, t)
    }

    /** What the handler means: every timer is a countdown of its own. */
    ghost function View(t: Timer): Countdown
      requires |active| == |rem|
      reads this`active, this`rem, t`repeatTicks, t`epoch, t`inFlight
    {
      t.Value(Left(t))
    }

    /** No timer is left at zero between two operations. */
    ghost predicate Running()
      reads this
    {
      rem != [] ==> 0 < rem[0]
    }

    constructor ()
      ensures Valid() && fresh(tail) && timers == {} && active == [] && posted == []
    {
      var sentinel := new Timer();
      sentinel.next := null;
      sentinel.delta := UINT_MAX;
      tail, head := sentinel, sentinel;
      posted := [];
      timers, active, rem := {}, [], [];
    }

    method InitTimer() returns (t: Timer)
      requires Valid()
      modifies this`timers
      ensures Valid() && fresh(t) && timers == old(timers) + {t}
      ensures View(t) == Countdown(0, 0, 0, [])
      ensures forall u :: u in old(timers) ==> View(u) == old(View(u))
    {
      t := new Timer();
      timers := timers + {t};
    }

    /**
     Finds the place of a timer whose delta holds its whole timeout. The search always ends:
     no timeout exceeds the sentinel's delta.
     */
    method Search(t: Timer) returns (prev: Timer?, elem: Timer, ghost k: nat)
      requires Linked() && t in timers && t !in active && t.delta <= MAX_TICKS
      modifies t`delta
      ensures Linked() && InsertPoint(rem, k, old(t.delta))
      ensures elem == Node(k) && prev == if k == 0 then null else active[k - 1]
      ensures t.delta == old(t.delta) - Before(rem, k)
    {
      k := 0;
      elem := head;
      prev := null;
      while elem.delta < t.delta
        invariant Linked() && t.delta <= MAX_TICKS
        invariant k <= |active| && elem == Node(k)
        invariant prev == if k == 0 then null else active[k - 1]
        invariant t.delta == old(t.delta) - Before(rem, k)
        invariant forall i :: 0 <= i < k ==> rem[i] < old(t.delta)
        decreases |active| - k
      {
        t.delta := t.delta - elem.delta;
        prev := elem;
        elem := elem.next;
        k := k + 1;
      }
    }

    /** Takes the new timer's delta off the node it goes in front of, unless that is the tail. */
    method AdjustNext(t: Timer, elem: Timer, ghost k: nat, ghost d: nat)
      requires NoDup(active) && t !in active && tail !in active && DeltaOf(active, rem)
      requires InsertPoint(rem, k, d) && elem == Node(k)
      requires t.delta == d - Before(rem, k)
      modifies active`delta
      ensures DeltaOf(Ins(active, k, t), Ins(rem, k, d))
    {
      if elem != tail {
        elem.delta := elem.delta - t.delta;
      }
    }

    method Link(t: Timer, prev: Timer?, elem: Timer, ghost k: nat)
      requires NoDup(active) && t !in active && tail !in active && t != tail
      requires head == Node(0) && NextOf(active, tail)
      requires k <= |active| && elem == Node(k)
      requires prev == if k == 0 then null else active[k - 1]
      modifies this`head, this`active, t`next, active`next
      ensures head == Node(0) && NextOf(active, tail)
      ensures active == Ins(old(active), k, t)
    {
      t.next := elem;
      if prev == null {
        head := t;
      } else {
        prev.next := t;
      }
      active := Ins(active, k, t);
    }

    /** Inserts a timer; every other timer keeps its remaining ticks and its place. */
    method Insert(t: Timer) returns (ghost k: nat)
      requires Linked() && t in timers && t !in active && t.delta <= MAX_TICKS
      modifies this`head, this`active, this`rem, timers`delta, timers`next
      ensures Linked() && InsertPoint(old(rem), k, old(t.delta))
      ensures forall i :: 0 <= i < |old(rem)| ==> (i < k <==> old(rem)[i] < old(t.delta))
      ensures active == Ins(old(active), k, t) && rem == Ins(old(rem), k, old(t.delta))
    {
      ghost var d := t.delta;
      var prev, elem;
      prev, elem, k := Search(t);
      AdjustNext(t, elem, k, d);
      Link(t, prev, elem, k);
      InsNoDup(old(active), k, t);
      InsSorted(rem, k, d);
      rem := Ins(rem, k, d);
    }

    method Unlink(t: Timer, prev: Timer?, ghost k: nat)
      requires NoDup(active) && k < |active| && active[k] == t
      requires head == Node(0) && NextOf(active, tail)
      requires prev == if k == 0 then null else active[k - 1]
      modifies this`head, this`active, active`next
      ensures head == Node(0) && NextOf(active, tail)
      ensures active == Del(old(active), k) && t.next == old(t.next)
    {
      if prev != null {
        prev.next := t.next;
      } else {
        head := t.next;
      }
      active := Del(active, k);
    }

    /** Gives a removed timer's delta to its successor, unless that is the tail. */
    method MergeNext(t: Timer, elem: Timer, ghost s: seq<Timer>, ghost k: nat)
      requires NoDup(s) && tail !in s && DeltaOf(s, rem) && k < |s| && s[k] == t
      requires elem == if k + 1 < |s| then s[k + 1] else tail
      modifies s`delta
      ensures DeltaOf(Del(s, k), Del(rem, k))
    {
      if elem != tail {
        elem.delta := elem.delta + t.delta;
      }
    }

    /** Takes the timer at a place out of the list. */
    method Cut(t: Timer, prev: Timer?, ghost k: nat)
      requires Linked() && k < |active| && active[k] == t
      requires prev == if k == 0 then null else active[k - 1]
      modifies this`head, this`active, this`rem, timers`delta, timers`next
      ensures Linked()
      ensures active == Del(old(active), k) && rem == Del(old(rem), k)
    {
      ghost var was := active;
      var next := t.next;
      Unlink(t, prev, k);
      MergeNext(t, next, was, k);
      LookupDel(was, rem, k, t);
      rem := Del(rem, k);
    }

    /** Removes a timer from the list; a timer that is not in it is left alone. */
    method Remove(t: Timer)
      requires Linked() && t in timers
      modifies this`head, this`active, this`rem, timers`delta, timers`next
      ensures Linked()
      ensures t !in old(active) ==> active == old(active) && rem == old(rem)
      ensures t in old(active) ==> exists k ::
        0 <= k < |old(active)| && old(active)[k] == t && active == Del(old(active), k)
        && rem == Del(old(rem), k)
    {
      var elem: Timer? := head;
      var prev: Timer? := null;
      ghost var k := 0;
      while elem != null && elem != t
        invariant k <= |active| + 1
        invariant elem == if k <= |active| then Node(k) else null
        invariant prev == if k == 0 then null else Node(k - 1)
        invariant forall i :: 0 <= i < k && i < |active| ==> active[i] != t
        decreases |active| + 1 - k
      {
        prev := elem;
        elem := elem.next;
        k := k + 1;
      }
      if elem != null {
        Cut(t, prev, k);
      }
    }

    method Drop(t: Timer)
      requires Linked() && t in timers
      modifies this`head, this`active, this`rem, timers`delta, timers`next
      ensures Linked() && t !in active && (old(Running()) ==> Running())
      ensures forall u :: u in timers ==> Left(u) == if u == t then 0 else old(Left(u))
    {
      Remove(t);
      if t in old(active) {
        ghost var k :| 0 <= k < |old(active)| && old(active)[k] == t
          && active == Del(old(active), k) && rem == Del(old(rem), k);
        forall u | u in timers
          ensures Left(u) == if u == t then 0 else old(Left(u))
        {
          LookupDel(old(active), old(rem), k, u);
        }
      }
    }

    method Put(t: Timer)
      requires Linked() && t in timers && t !in active && t.delta <= MAX_TICKS
      modifies this`head, this`active, this`rem, timers`delta, timers`next
      ensures Linked() && (old(Running()) && 0 < old(t.delta) ==> Running())
      ensures forall u :: u in timers ==> Left(u) == if u == t then old(t.delta) else old(Left(u))
    {
      ghost var k := Insert(t);
      LookupInsAll(old(active), old(rem), k, t, old(t.delta));
    }

    /** Stopping discards the timeout and disowns every message already in flight. */
    method Stop(t: Timer)
      requires Valid() && t in timers
      modifies this`head, this`active, this`rem, timers
      ensures Valid() && timers == old(timers) && t !in active
      ensures forall u :: u in timers ==>
        View(u) == if u == t then Stopped(old(View(t))) else old(View(u))
    {
      t.Disown();
      Drop(t);
    }

    /** The second half of a start: sets the timeout of an inactive timer and inserts it. */
    method Arm(t: Timer, initial: nat, repeat: nat)
      requires Valid() && t in timers && View(t).left == 0
      modifies this`head, this`active, this`rem, timers
      ensures Valid() && timers == old(timers)
      ensures forall u :: u in timers ==>
        View(u) == if u == t then Armed(old(View(t)), initial, repeat) else old(View(u))
    {
      InactiveIsUnlisted(active, rem, t);
      t.SetTicks(initial, repeat);
      Put(t);
    }

    /**
     The same code on a timer that is active already, as when two starts of it overlap. It stops at
     the timer's own node at the latest and links the timer in front of a node from which the list
     leads back to it, so no list of timers ends at the sentinel and contains this one any more. A
     timer alone in the list becomes its own successor with delta zero, which the next tick wraps.
     */
    method ArmActive(t: Timer, initial: nat, repeat: nat) returns (ghost k: nat)
      requires Valid() && t in active
      modifies this`head, timers
      ensures !Valid()
      ensures |old(active)| == 1 ==> head == t && t.next == t && t.delta == 0
      ensures forall s: seq<Timer> :: t in s && NoDup(s) ==> !NextOf(s, tail)
    {
      ghost var j: nat :| j < |active| && active[j] == t;
      t.SetTicks(initial, repeat);
      var prev, elem;
      prev, elem, k := SearchActive(t, j);
      if elem != tail {
        elem.delta := elem.delta - t.delta;
      }
      t.next := elem;
      if prev == null {
        head := t;
      } else {
        prev.next := t;
      }
      forall s: seq<Timer> | t in s && NoDup(s)
        ensures !NextOf(s, tail)
      {
        CycleNeverEnds(s, tail, active, k, j);
      }
    }

    /** The search loop when the timer is in the list: it does not get past the timer itself. */
    method SearchActive(t: Timer, ghost j: nat) returns (prev: Timer?, elem: Timer, ghost k: nat)
      requires j < |active| && active[j] == t && t in timers && NoDup(active)
      requires head == Node(0) && NextOf(active, tail)
      modifies t`delta
      ensures k <= j && elem == active[k] && t.delta <= elem.delta
      ensures prev == if k == 0 then null else active[k - 1]
    {
      k := 0;
      elem := head;
      prev := null;
      while elem.delta < t.delta
        invariant k <= j && elem == active[k]
        invariant prev == if k == 0 then null else active[k - 1]
        decreases j - k
      {
        t.delta := t.delta - elem.delta;
        prev := elem;
        elem := elem.next;
        k := k + 1;
      }
    }

    method Start(t: Timer, initial: nat, repeat: nat)
      requires Valid() && t in timers
      modifies this`head, this`active, this`rem, timers
      ensures Valid() && timers == old(timers)
      ensures forall u :: u in timers ==>
        View(u) == if u == t then Armed(Stopped(old(View(t))), initial, repeat) else old(View(u))
    {
      Stop(t);
      Arm(t, initial, repeat);
    }

    /**
     Called once for each received message, oldest first. The answer is whether that very
     message was posted after the latest stop or start.
     */
    method IsMessageValid(t: Timer) returns (valid: bool)
      requires Valid() && t in timers && t.inFlight != []
      modifies timers`outstanding, timers`toIgnore, timers`inFlight
      ensures Valid()
      ensures forall u :: u in timers ==>
        View(u) == if u == t then Taken(old(View(t))) else old(View(u))
      ensures valid <==> old(t.inFlight[0]) == t.epoch
    {
      valid := t.TakeOldest();
    }

    /** One tick passes for all active timers by decrementing the head alone. */
    method CountDown()
      requires Linked() && Running() && active != []
      modifies this`rem, timers`delta
      ensures Linked() && rem == Dec(old(rem))
      ensures forall u :: u in timers ==>
        Left(u) == if 0 < old(Left(u)) then old(Left(u)) - 1 else 0
      ensures NoDup(Due()) && forall u :: u in timers ==> (u in Due() <==> old(Left(u)) == 1)
    {
      head.delta := head.delta - 1;
      rem := Dec(rem);
      LookupDecAll(active, old(rem));
    }

    /** Takes the expired head off the list. */
    method PopHead() returns (t: Timer)
      requires Linked() && rem != [] && rem[0] == 0
      modifies this`head, this`active, this`rem
      ensures Linked() && t == old(active)[0] && t in timers && t !in active && Left(t) == 0
      ensures Zeros(rem) == old(Zeros(rem)) - 1
      ensures Due() == old(Due())[1..]
      ensures forall u :: u in timers ==> Left(u) == old(Left(u))
    {
      t := head;
      head := t.next;
      PopFront(active, rem);
      active, rem := active[1..], rem[1..];
    }

    /** Puts the timer's message on its queue. */
    method Post(t: Timer)
      requires Counted() && t in timers && |active| == |rem|
      modifies this`posted, t`outstanding, t`inFlight
      ensures Counted() && posted == old(posted) + [t]
      ensures t.inFlight == old(t.inFlight) + [t.epoch]
    {
      t.Note();
      posted := posted + [t];
    }

    /** Puts a fired timer back, if it is periodic, behind all timers that are at zero. */
    method Rearm(t: Timer)
      requires Linked() && t in timers && t !in active && t.repeatTicks <= MAX_TICKS
      modifies this`head, this`active, this`rem, timers`delta, timers`next
      ensures Linked() && Zeros(rem) == old(Zeros(rem)) && Due() == old(Due())
      ensures forall u :: u in timers ==>
        View(u) == if u == t then old(View(t)).(left := t.repeatTicks) else old(View(u))
    {
      InactiveIsZero(active, rem, t);
      if t.repeatTicks > 0 {
        t.delta := t.repeatTicks;
        ghost var k := Insert(t);
        InsBehindZeros(old(rem), k, t.repeatTicks);
        LookupInsAll(old(active), old(rem), k, t, t.repeatTicks);
      }
    }

    /** Fires the head: posts its message and puts it back when it is periodic. */
    method FireHead()
      requires Linked() && Counted() && rem != [] && rem[0] == 0
      modifies this`head, this`active, this`rem, this`posted
      modifies timers`delta, timers`next, timers`outstanding, timers`inFlight
      ensures Linked() && Counted()
      ensures Zeros(rem) == old(Zeros(rem)) - 1
      ensures Due() == old(Due())[1..]
      ensures posted == old(posted) + [old(active)[0]]
      ensures forall u :: u in timers ==>
        View(u) == if u == old(active)[0] then Ticked(old(View(u)).(left := 1)) else old(View(u))
    {
      var t := TakeHead();
      Rearm(t);
    }

    /** Takes the expired head off the list and posts its message. */
    method TakeHead() returns (t: Timer)
      requires Linked() && Counted() && rem != [] && rem[0] == 0
      modifies this`head, this`active, this`rem, this`posted
      modifies timers`outstanding, timers`inFlight
      ensures Linked() && Counted() && t == old(active)[0] && t in timers && t !in active
      ensures Zeros(rem) == old(Zeros(rem)) - 1 && Due() == old(Due())[1..]
      ensures posted == old(posted) + [t]
      ensures forall u :: u in timers ==>
        View(u) == if u == t then Fired(old(View(u))) else old(View(u))
    {
      t := PopHead();
      Post(t);
    }

    /** The timers that a tick still has to fire. */
    ghost function Due(): seq<Timer>
      requires |active| == |rem|
      reads this`active, this`rem
    {
      active[..Zeros(rem)]
    }

    /** Every timer is past the tick, except that those still due wait at zero. */
    ghost predicate MidTick(was: map<Timer, Countdown>)
      requires |active| == |rem|
      reads this, timers
    {
      forall u :: u in timers ==>
        && u in was
        && (u in Due() ==> was[u].left == 1)
        && View(u) == if u in Due() then was[u].(left := 0) else Ticked(was[u])
    }

    method FireNext(ghost was: map<Timer, Countdown>)
      requires Linked() && Counted() && MidTick(was) && rem != [] && rem[0] == 0
      modifies this`head, this`active, this`rem, this`posted
      modifies timers`delta, timers`next, timers`outstanding, timers`inFlight
      ensures Linked() && Counted() && MidTick(was)
      ensures posted + Due() == old(posted) + old(Due())
      ensures Zeros(rem) == old(Zeros(rem)) - 1
    {
      ghost var due := Due();
      FireHead();
      TailMembers(due);
      MoveFirst(old(posted), due);
    }

    /** The sentinel at the front is never taken for an expired timer. */
    method HeadExpired() returns (expired: bool)
      requires Linked()
      ensures expired <==> 0 < Zeros(rem)
      ensures expired ==> rem != [] && rem[0] == 0
    {
      expired := head.delta == 0;
    }

    /** Fires timers until none is left at zero; each round leaves one fewer. */
    method FireExpired(ghost was: map<Timer, Countdown>)
      requires Linked() && Counted() && MidTick(was)
      modifies this`head, this`active, this`rem, this`posted
      modifies timers`delta, timers`next, timers`outstanding, timers`inFlight
      ensures Valid() && posted == old(posted) + old(Due())
      ensures forall u :: u in timers ==> u in was && View(u) == Ticked(was[u])
    {
      var expired := HeadExpired();
      while expired
        invariant Linked() && Counted() && MidTick(was)
        invariant posted + Due() == old(posted) + old(Due())
        invariant expired <==> 0 < Zeros(rem)
        invariant expired ==> rem != [] && rem[0] == 0
        decreases Zeros(rem)
      {
        FireNext(was);
        expired := HeadExpired();
      }
    }

    /** Counts down and notes where every timer came from. */
    method BeginTick() returns (ghost was: map<Timer, Countdown>)
      requires Valid() && active != []
      modifies this`rem, timers`delta
      ensures Linked() && Counted() && MidTick(was)
      ensures forall u :: u in timers ==> u in was && was[u] == old(View(u))
      ensures NoDup(Due()) && forall u :: u in timers ==> (u in Due() <==> was[u].left == 1)
    {
      was := map u | u in timers :: View(u);
      CountDown();
    }

    /**
     A tick advances every timer's countdown by one: exactly the timers with one tick left
     post a message, once each and in list order, and start over when they are periodic.
     */
    method Tick() returns (ghost fired: seq<Timer>)
      requires Valid()
      modifies this`head, this`active, this`rem, this`posted
      modifies timers`delta, timers`next, timers`outstanding, timers`inFlight
      ensures Valid() && timers == old(timers)
      ensures forall u :: u in timers ==> View(u) == Ticked(old(View(u)))
      ensures posted == old(posted) + fired && NoDup(fired)
      ensures forall u :: u in timers ==> (u in fired <==> old(View(u)).left == 1)
    {
      fired := [];
      if head != tail {
        ghost var was := BeginTick();
        fired := Due();
        FireExpired(was);
      }
    }
  }
}
