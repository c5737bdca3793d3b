/**
 The subscription index of the bus: an array of elements sorted by message identifier, each with
 the queues subscribed to that identifier, found by binary search.
 */
module Bus {

  type Uid = nat
  type QueueId = nat

  datatype Elem = Elem(uid: Uid, queues: seq<QueueId>)
  datatype Subscription = Subscription(queue: QueueId, uid: Uid)

  /** The queues subscribed to `uid`, in the order of the subscriptions. */
  function QueuesOf(subs: seq<Subscription>, uid: Uid): seq<QueueId> {
    if subs == [] then []
    else
      var n := |subs| - 1;
      QueuesOf(subs[..n], uid) + if subs[n].uid == uid then [subs[n].queue] else []
  }

  predicate StrictlySorted(elems: seq<Elem>) {
    forall i, j :: 0 <= i < j < |elems| ==> elems[i].uid < elems[j].uid
  }

  predicate DistinctUids(elems: seq<Elem>) {
    forall i, j :: 0 <= i < j < |elems| ==> elems[i].uid != elems[j].uid
  }

  /** The array says, of every identifier, exactly what the subscriptions say. */
  ghost predicate Represents(elems: seq<Elem>, subs: seq<Subscription>) {
    && StrictlySorted(elems)
    && (forall i {:trigger elems[i].queues} :: 0 <= i < |elems| ==>
          elems[i].queues == QueuesOf(subs, elems[i].uid) && elems[i].queues != [])
    && (forall uid {:trigger Listed(elems, uid)} :: QueuesOf(subs, uid) != [] ==> Listed(elems, uid))
  }

  ghost predicate Listed(elems: seq<Elem>, uid: Uid) {
    exists i :: 0 <= i < |elems| && elems[i].uid == uid
  }

  // ---------------------------------------------------------------- sorting

  predicate Sorted(elems: seq<Elem>) {
    forall i, j :: 0 <= i < j < |elems| ==> elems[i].uid <= elems[j].uid
  }

  function InsertSorted(e: Elem, s: seq<Elem>): seq<Elem> {
    if s == [] then [e]
    else if e.uid <= s[0].uid then [e] + s
    else [s[0]] + InsertSorted(e, s[1..])
  }

  lemma {:induction false} InsertSortedPermutes(e: Elem, s: seq<Elem>)
    ensures multiset(InsertSorted(e, s)) == multiset(s) + multiset{e}
  {
    if s != [] && s[0].uid < e.uid {
      InsertSortedPermutes(e, s[1..]);
      assert s == [s[0]] + s[1..];
    }
  }

  lemma {:induction false} InsertSortedKeeps(e: Elem, s: seq<Elem>)
    requires Sorted(s)
    ensures Sorted(InsertSorted(e, s))
  {
    if s != [] && s[0].uid < e.uid {
      InsertSortedKeeps(e, s[1..]);
      InsertSortedBound(e, s[1..], s[0].uid);
    }
  }

  lemma {:induction false} InsertSortedBound(e: Elem, s: seq<Elem>, least: Uid)
    requires least <= e.uid && forall i :: 0 <= i < |s| ==> least <= s[i].uid
    ensures forall i :: 0 <= i < |InsertSorted(e, s)| ==> least <= InsertSorted(e, s)[i].uid
  {
    if s != [] && s[0].uid < e.uid {
      InsertSortedBound(e, s[1..], least);
    }
  }

  /** Stands for the C library's qsort: some permutation in order of identifier. */
  function Sort(s: seq<Elem>): (r: seq<Elem>)
    ensures Sorted(r) && multiset(r) == multiset(s)
  {
    if s == [] then []
    else
      assert s == [s[0]] + s[1..];
      InsertSortedKeeps(s[0], Sort(s[1..]));
      InsertSortedPermutes(s[0], Sort(s[1..]));
      InsertSorted(s[0], Sort(s[1..]))
  }

  lemma SameMembers(a: seq<Elem>, b: seq<Elem>, x: Elem)
    requires multiset(a) == multiset(b)
    ensures x in a <==> x in b
  {
    assert x in a <==> x in multiset(a);
    assert x in b <==> x in multiset(b);
  }

  lemma TwicePresent(s: seq<Elem>, i: nat, j: nat)
    requires i < j < |s| && s[i] == s[j]
    ensures multiset(s)[s[i]] >= 2
  {
    assert s == s[..j] + s[j..];
    assert s[..j][i] == s[i] && s[j..][0] == s[i];
    assert s[i] in multiset(s[..j]) && s[i] in multiset(s[j..]);
  }

  lemma {:induction false} OncePresent(s: seq<Elem>, x: Elem)
    requires DistinctUids(s)
    ensures multiset(s)[x] <= 1
  {
    if s != [] {
      var n := |s| - 1;
      assert s == s[..n] + [s[n]];
      OncePresent(s[..n], x);
      assert x in multiset(s[..n]) <==> x in s[..n];
    }
  }

  /** Sorting elements with distinct identifiers leaves no two equal neighbours. */
  lemma SortIsStrict(s: seq<Elem>)
    requires DistinctUids(s)
    ensures StrictlySorted(Sort(s))
  {
    var r := Sort(s);
    forall i, j | 0 <= i < j < |r|
      ensures r[i].uid < r[j].uid
    {
      if r[i].uid == r[j].uid {
        SameMembers(s, r, r[i]);
        SameMembers(s, r, r[j]);
        assert r[i] == r[j];
        TwicePresent(r, i, j);
        OncePresent(s, r[i]);
      }
    }
  }

  /** The next element of one index bounds that of another with the same elements before. */
  lemma NotSmaller(a: seq<Elem>, b: seq<Elem>, subs: seq<Subscription>, i: nat)
    requires Represents(a, subs) && Represents(b, subs) && i < |a|
    requires i <= |b| && forall k :: 0 <= k < i ==> a[k] == b[k]
    ensures i < |b| && b[i].uid <= a[i].uid
    ensures a[i].queues == QueuesOf(subs, a[i].uid)
  {
    assert Listed(b, a[i].uid);
    var j :| 0 <= j < |b| && b[j].uid == a[i].uid;
    assert i <= j;
  }

  lemma {:induction false} SamePrefix(a: seq<Elem>, b: seq<Elem>, subs: seq<Subscription>, n: nat)
    requires Represents(a, subs) && Represents(b, subs) && n <= |a|
    ensures n <= |b| && forall k :: 0 <= k < n ==> a[k] == b[k]
  {
    if n > 0 {
      var i := n - 1;
      SamePrefix(a, b, subs, i);
      NotSmaller(a, b, subs, i);
      NotSmaller(b, a, subs, i);
      assert a[i].uid == b[i].uid && a[i].queues == b[i].queues;
    }
  }

  /** The index does not depend on how the sorting is done: the subscriptions determine it. */
  lemma IndexIsDetermined(a: seq<Elem>, b: seq<Elem>, subs: seq<Subscription>)
    requires Represents(a, subs) && Represents(b, subs)
    ensures a == b
  {
    SamePrefix(a, b, subs, |a|);
    SamePrefix(b, a, subs, |b|);
  }

  // ---------------------------------------------------------------- the bus object

  lemma QueuesOfAppend(subs: seq<Subscription>, s: Subscription, uid: Uid)
    ensures QueuesOf(subs + [s], uid) == QueuesOf(subs, uid) + if s.uid == uid then [s.queue] else []
  {
    assert (subs + [s])[..|subs|] == subs;
  }

  /** Appending a queue to the element of an identifier accounts for one more subscription. */
  lemma AppendedRepresents(elems: seq<Elem>, i: nat, queue: QueueId, subs: seq<Subscription>)
    requires i < |elems| && StrictlySorted(elems)
    requires forall k :: 0 <= k < |elems| ==> elems[k].queues == QueuesOf(subs, elems[k].uid)
    requires forall k :: 0 <= k < |elems| && k != i ==> elems[k].queues != []
    requires forall u :: QueuesOf(subs, u) != [] ==> Listed(elems, u)
    ensures Represents(elems[i := elems[i].(queues := elems[i].queues + [queue])],
                       subs + [Subscription(queue, elems[i].uid)])
  {
    var s := Subscription(queue, elems[i].uid);
    var e := elems[i].(queues := elems[i].queues + [queue]);
    var after := elems[i := e];
    forall k | 0 <= k < |after|
      ensures after[k].queues == QueuesOf(subs + [s], after[k].uid) && after[k].queues != []
    {
      QueuesOfAppend(subs, s, after[k].uid);
    }
    forall u | QueuesOf(subs + [s], u) != []
      ensures Listed(after, u)
    {
      QueuesOfAppend(subs, s, u);
      StillListed(elems, i, e, u);
    }
  }

  lemma StillListed(elems: seq<Elem>, i: nat, e: Elem, uid: Uid)
    requires i < |elems| && e.uid == elems[i].uid && (Listed(elems, uid) || uid == e.uid)
    ensures Listed(elems[i := e], uid)
  {
    var k :| 0 <= k < |elems| && elems[k].uid == uid;
    assert elems[i := e][k].uid == uid;
  }

  /** Where an identifier belongs in the order. */
  function Place(elems: seq<Elem>, uid: Uid): (p: nat)
    ensures p <= |elems|
  {
    if elems == [] || uid <= elems[0].uid then 0 else 1 + Place(elems[1..], uid)
  }

  lemma {:induction false} PlaceSplits(elems: seq<Elem>, uid: Uid)
    requires StrictlySorted(elems)
    ensures forall i :: 0 <= i < |elems| ==> (elems[i].uid < uid <==> i < Place(elems, uid))
  {
    if elems != [] && elems[0].uid < uid {
      PlaceSplits(elems[1..], uid);
      assert forall i :: 0 < i < |elems| ==> elems[i] == elems[1..][i - 1];
    }
  }

  /** The elements with that of a new identifier in its place; those behind it have moved up. */
  function WithNew(elems: seq<Elem>, e: Elem): (r: seq<Elem>)
    ensures |r| == |elems| + 1
    ensures forall i :: 0 <= i < |r| ==>
      r[i] == if i < Place(elems, e.uid) then elems[i]
              else if i == Place(elems, e.uid) then e else elems[i - 1]
  {
    elems[..Place(elems, e.uid)] + [e] + elems[Place(elems, e.uid)..]
  }

  lemma WithNewStrict(elems: seq<Elem>, e: Elem)
    requires StrictlySorted(elems) && forall i :: 0 <= i < |elems| ==> elems[i].uid != e.uid
    ensures StrictlySorted(WithNew(elems, e))
  {
    PlaceSplits(elems, e.uid);
  }

  lemma WithNewLists(elems: seq<Elem>, e: Elem, uid: Uid)
    requires uid == e.uid || Listed(elems, uid)
    ensures Listed(WithNew(elems, e), uid)
  {
    var p, r := Place(elems, e.uid), WithNew(elems, e);
    if uid == e.uid {
      assert r[p].uid == uid;
    } else {
      var i :| 0 <= i < |elems| && elems[i].uid == uid;
      assert r[if i < p then i else i + 1].uid == uid;
    }
  }

  lemma WithNewMember(elems: seq<Elem>, e: Elem, i: nat)
    requires i < |WithNew(elems, e)|
    ensures WithNew(elems, e)[i] == e || WithNew(elems, e)[i] in elems
  {
  }

  lemma NewElementRepresents(a: seq<Elem>, subs: seq<Subscription>, s: Subscription)
    requires Represents(a, subs) && QueuesOf(subs, s.uid) == []
    ensures Represents(WithNew(a, Elem(s.uid, [s.queue])), subs + [s])
  {
    var e := Elem(s.uid, [s.queue]);
    var b := WithNew(a, e);
    forall i | 0 <= i < |a|
      ensures a[i].uid != s.uid
    {
      assert QueuesOf(subs, a[i].uid) == a[i].queues;
    }
    WithNewStrict(a, e);
    forall i | 0 <= i < |b|
      ensures b[i].queues == QueuesOf(subs + [s], b[i].uid) && b[i].queues != []
    {
      WithNewMember(a, e, i);
      QueuesOfAppend(subs, s, b[i].uid);
    }
    forall u | QueuesOf(subs + [s], u) != []
      ensures Listed(b, u)
    {
      QueuesOfAppend(subs, s, u);
      WithNewLists(a, e, u);
    }
  }

  /**
   What a pointer to an element reads after a subscription to a new identifier, if the array stays
   where it is: the same element exactly when its identifier is the smaller one, otherwise the
   element of another identifier.
   */
  lemma NewElementShiftsExactly(a: seq<Elem>, b: seq<Elem>, subs: seq<Subscription>, s: Subscription, i: nat)
    requires Represents(a, subs) && Represents(b, subs + [s]) && QueuesOf(subs, s.uid) == []
    requires i < |a|
    ensures |b| == |a| + 1
    ensures b[i] == a[i] <==> a[i].uid < s.uid
    ensures b[i] == a[i] || (b[i].uid < a[i].uid && b[i + 1] == a[i])
  {
    var e := Elem(s.uid, [s.queue]);
    PlaceSplits(a, s.uid);
    NewElementRepresents(a, subs, s);
    IndexIsDetermined(b, WithNew(a, e), subs + [s]);
    WithNewStrict(a, e);
  }

  /** A subscription to an identifier that has an element leaves all elements where they are. */
  lemma OldElementsStay(a: seq<Elem>, b: seq<Elem>, subs: seq<Subscription>, s: Subscription, i: nat)
    requires Represents(a, subs) && Represents(b, subs + [s]) && QueuesOf(subs, s.uid) != []
    requires i < |a|
    ensures |b| == |a| && b[i].uid == a[i].uid
  {
    assert Listed(a, s.uid);
    var k :| 0 <= k < |a| && a[k].uid == s.uid;
    AppendedRepresents(a, k, s.queue, subs);
    IndexIsDetermined(b, a[k := a[k].(queues := a[k].queues + [s.queue])], subs + [s]);
  }

  class BusObject {
    var elems: seq<Elem>
    ghost var subs: seq<Subscription>

    ghost predicate Valid()
      reads this
    {
      Represents(elems, subs)
    }

    constructor ()
      ensures Valid() && subs == []
    {
      elems, subs := [], [];
    }

    /** Binary search; -1 when there is no such element. */
    method FindElement(uid: Uid) returns (index: int)
      requires StrictlySorted(elems)
      ensures -1 <= index < |elems|
      ensures 0 <= index ==> elems[index].uid == uid
      ensures index == -1 <==> !Listed(elems, uid)
    {
      var lo, hi := 0, |elems|;
      while lo < hi
        invariant 0 <= lo <= hi <= |elems|
        invariant forall i :: 0 <= i < lo ==> elems[i].uid < uid
        invariant forall i :: hi <= i < |elems| ==> uid < elems[i].uid
      {
        var mid := (lo + hi) / 2;
        if uid < elems[mid].uid {
          hi := mid;
        } else if uid == elems[mid].uid {
          return mid;
        } else {
          lo := mid + 1;
        }
      }
      index := -1;
    }

    /** Adds an element without queues for an identifier that has none, and sorts. */
    method InsertElement(uid: Uid)
      requires StrictlySorted(elems) && !Listed(elems, uid)
      modifies this`elems
      ensures StrictlySorted(elems)
      ensures forall e :: e in elems <==> e in old(elems) || e == Elem(uid, [])
    {
      elems := elems + [Elem(uid, [])];
      SortIsStrict(elems);
      forall e
        ensures e in Sort(elems) <==> e in elems
      {
        SameMembers(elems, Sort(elems), e);
      }
      elems := Sort(elems);
    }

    /** The element of `uid`, created when there is none. */
    method Ensure(uid: Uid) returns (index: nat)
      requires Valid()
      modifies this`elems
      ensures index < |elems| && elems[index].uid == uid && StrictlySorted(elems)
      ensures forall i :: 0 <= i < |elems| ==> elems[i].queues == QueuesOf(subs, elems[i].uid)
      ensures forall i :: 0 <= i < |elems| && i != index ==> elems[i].queues != []
      ensures forall u :: QueuesOf(subs, u) != [] ==> Listed(elems, u)
    {
      var found := FindElement(uid);
      if found == -1 {
        InsertElement(uid);
        assert Elem(uid, []) in elems;
        found := FindElement(uid);
        assert QueuesOf(subs, uid) == [];
        forall i | 0 <= i < |elems|
          ensures elems[i].queues == QueuesOf(subs, elems[i].uid)
          ensures i != found ==> elems[i].queues != []
        {
          assert elems[i] in elems;
        }
        forall u | QueuesOf(subs, u) != []
          ensures Listed(elems, u)
        {
          assert Listed(old(elems), u);
          var i :| 0 <= i < |old(elems)| && old(elems)[i].uid == u;
          assert old(elems)[i] in elems;
        }
      }
      index := found;
    }

    /** Afterwards the array represents one more subscription, whatever was there before. */
    method Subscribe(queue: QueueId, uid: Uid)
      requires Valid()
      modifies this
      ensures Valid() && subs == old(subs) + [Subscription(queue, uid)]
    {
      var i := Ensure(uid);
      AppendedRepresents(elems, i, queue, subs);
      elems := elems[i := elems[i].(queues := elems[i].queues + [queue])];
      subs := subs + [Subscription(queue, uid)];
    }

    /**
     The queues a broadcast of `uid` puts the message on, one put per subscription and in order,
     and the number of extra references it asks for first, which is never negative. No queue
     means that the message is freed instead.
     */
    method Route(uid: Uid) returns (queues: seq<QueueId>, share: int)
      requires Valid()
      ensures queues == QueuesOf(subs, uid)
      ensures queues != [] ==> share == |queues| - 1 && 0 <= share
    {
      var i := FindElement(uid);
      if i != -1 {
        queues := elems[i].queues;
        share := |elems[i].queues| - 1;
      } else {
        queues, share := [], 0;
      }
    }
  }
}
