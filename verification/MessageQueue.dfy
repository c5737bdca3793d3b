/** The queue object: a ring with one unused slot, changed in place under the mutex. */
module MessageQueue {
  import opened QueueMonitor
  import opened Wrappers

  /** Advancing a position that is in range by one wraps to the start exactly at the end. */
  lemma WrapAround(pos: nat, length: nat)
    requires 0 < length && pos <= length
    ensures pos % length == if pos == length then 0 else pos
  {
  }

  /** The messages in a ring with these positions. */
  function RingContents<M>(slots: seq<M>, rd: nat, wr: nat): seq<M>
    requires rd < |slots| && wr < |slots|
  {
    if rd <= wr then slots[rd..wr] else slots[rd..] + slots[..wr]
  }

  lemma Regroup<M>(a: seq<M>, b: seq<M>, c: seq<M>)
    ensures (a + b) + c == a + (b + c)
  {
  }

  lemma RingFront<M>(slots: seq<M>, rd: nat, wr: nat)
    requires rd < |slots| && wr < |slots| && rd != wr
    ensures RingContents(slots, rd, wr)
      == [slots[rd]] + RingContents(slots, if rd + 1 == |slots| then 0 else rd + 1, wr)
  {
    if rd < wr {
      assert slots[rd..wr] == [slots[rd]] + slots[rd + 1..wr];
    } else {
      var x, tail, wrapped := slots[rd], slots[rd + 1..], slots[..wr];
      assert slots[rd..] == [x] + tail;
      Regroup([x], tail, wrapped);
      assert rd + 1 == |slots| ==> tail + wrapped == slots[0..wr];
    }
  }

  lemma RingBack<M>(slots: seq<M>, rd: nat, wr: nat, m: M)
    requires rd < |slots| && wr < |slots| && (wr + 1) % |slots| != rd
    ensures RingContents(slots[wr := m], rd, if wr + 1 == |slots| then 0 else wr + 1)
      == RingContents(slots, rd, wr) + [m]
  {
    WrapAround(wr + 1, |slots|);
  }

  /** What a critical section does to the messages in the queue. */
  lemma SectionEffect<M>(q: Monitor<M>, s: Step<M>)
    requires Fifo(q) && Enabled(q, s)
    ensures Apply(q, s).capacity == q.capacity
    ensures s.CallGet? || s.ResumeGet? ==>
      Apply(q, s).contents == if q.contents == [] then [] else q.contents[1..]
    ensures s.CallPut? || s.ResumePut? ==>
      var m := if s.CallPut? then s.m else q.pending[s.t];
      Apply(q, s).contents == if |q.contents| == q.capacity then q.contents else q.contents + [m]
  {
  }

  class Queue<M(0)> {
    var slots: array<M>
    var rd: nat
    var wr: nat
    /** Whether an `on_put` callback is set, and how often it was called. */
    var onPut: bool
    var notified: nat
    /** What the monitor's threads have done so far. */
    ghost var monitor: Monitor<M>

    ghost predicate InRange()
      reads this`slots, this`rd, this`wr
    {
      rd < slots.Length && wr < slots.Length
    }

    ghost function Contents(): seq<M>
      requires InRange()
      reads this`slots, this`rd, this`wr, slots
    {
      RingContents(slots[..], rd, wr)
    }

    ghost predicate Valid()
      reads this`slots, this`rd, this`wr, this`monitor, slots
    {
      && InRange() && Inv(monitor)
      && slots.Length == monitor.capacity + 1
      && Contents() == monitor.contents
    }

    constructor (length: nat)
      ensures Valid() && fresh(slots) && monitor == Init(length) && !onPut && notified == 0
    {
      onPut, notified := false, 0;
      slots := new M[length + 1];
      rd, wr := 0, 0;
      monitor := Init(length);
    }

    method IsEmpty() returns (empty: bool)
      requires InRange()
      ensures empty <==> Contents() == []
    {
      empty := rd == wr;
    }

    method IsFull() returns (full: bool)
      requires InRange()
      ensures full <==> |Contents()| == slots.Length - 1
    {
      WrapAround(wr + 1, slots.Length);
      full := (wr + 1) % slots.Length == rd;
    }

    method PushMessage(m: M)
      requires InRange() && |Contents()| < slots.Length - 1
      modifies this`wr, slots
      ensures InRange() && Contents() == old(Contents()) + [m]
    {
      WrapAround(wr + 1, slots.Length);
      RingBack(slots[..], rd, wr, m);
      slots[wr] := m;
      wr := wr + 1;
      wr := wr % slots.Length;
    }

    method PopMessage() returns (m: M)
      requires InRange() && Contents() != []
      modifies this`rd
      ensures InRange() && old(Contents()) == [m] + Contents()
    {
      WrapAround(rd + 1, slots.Length);
      RingFront(slots[..], rd, wr);
      m := slots[rd];
      rd := rd + 1;
      rd := rd % slots.Length;
    }

    method TryPop() returns (m: Option<M>)
      requires InRange()
      modifies this`rd
      ensures InRange()
      ensures m == if old(Contents()) == [] then None else Some(old(Contents())[0])
      ensures Contents() == if m == None then [] else old(Contents())[1..]
    {
      var empty := IsEmpty();
      if empty {
        m := None;
      } else {
        var message := PopMessage();
        m := Some(message);
      }
    }

    method TryPush(m: M) returns (done: bool)
      requires InRange()
      modifies this`wr, slots
      ensures InRange() && (done <==> |old(Contents())| < slots.Length - 1)
      ensures Contents() == if done then old(Contents()) + [m] else old(Contents())
    {
      var full := IsFull();
      if full {
        done := false;
      } else {
        PushMessage(m);
        done := true;
      }
    }

    /**
     A get from taking the mutex, first or again after a wakeup, to leaving with a message or
     blocking on the empty condition.
     */
    method Get(ghost s: Step<M>) returns (m: Option<M>)
      requires Valid() && (s.CallGet? || s.ResumeGet?) && Enabled(monitor, s)
      modifies this`rd, this`monitor
      ensures Valid() && monitor == Apply(old(monitor), s)
      ensures m == if old(Contents()) == [] then None else Some(old(Contents())[0])
    {
      SectionEffect(monitor, s);
      m := TryPop();
      Advance(s);
    }

    /** The contents have changed as a step says; the monitor takes it. */
    ghost method Advance(s: Step<M>)
      requires InRange() && Inv(monitor) && Enabled(monitor, s)
      requires slots.Length == monitor.capacity + 1
      requires Apply(monitor, s).capacity == monitor.capacity && Contents() == Apply(monitor, s).contents
      modifies this`monitor
      ensures Valid() && monitor == Apply(old(monitor), s)
    {
      StepKeepsInv(monitor, s);
      monitor := Apply(monitor, s);
    }

    /** A put from taking the mutex to leaving with the message queued or blocking. */
    method PutSection(message: M, ghost s: Step<M>) returns (done: bool)
      requires Valid() && (s.CallPut? || s.ResumePut?) && Enabled(monitor, s)
      requires message == if s.CallPut? then s.m else monitor.pending[s.t]
      modifies this`wr, this`monitor, slots
      ensures Valid() && monitor == Apply(old(monitor), s)
      ensures done <==> |old(Contents())| < monitor.capacity
      ensures Contents() == if done then old(Contents()) + [message] else old(Contents())
    {
      SectionEffect(monitor, s);
      done := TryPush(message);
      Advance(s);
    }

    /** A put that is done calls back once, after it has given up the mutex; one that blocks does not. */
    method Put(message: M, ghost s: Step<M>) returns (done: bool)
      requires Valid() && (s.CallPut? || s.ResumePut?) && Enabled(monitor, s)
      requires message == if s.CallPut? then s.m else monitor.pending[s.t]
      modifies this`wr, this`monitor, this`notified, slots
      ensures Valid() && monitor == Apply(old(monitor), s)
      ensures done <==> |old(Contents())| < monitor.capacity
      ensures Contents() == if done then old(Contents()) + [message] else old(Contents())
      ensures notified == if done && onPut then old(notified) + 1 else old(notified)
    {
      done := PutSection(message, s);
      if done && onPut {
        notified := notified + 1;
      }
    }
  }
}
