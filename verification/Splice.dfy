/** Insertion into and removal from parallel sequences of distinct keys and their values. */
module Splice {

  predicate NoDup<T(==)>(s: seq<T>) {
    forall i, j :: 0 <= i < j < |s| ==> s[i] != s[j]
  }

  function Ins<T>(s: seq<T>, k: nat, x: T): (r: seq<T>)
    requires k <= |s|
    ensures |r| == |s| + 1 && r[k] == x
    ensures forall i :: 0 <= i < k ==> r[i] == s[i]
    ensures forall i :: k < i < |r| ==> r[i] == s[i - 1]
  {
    s[..k] + [x] + s[k..]
  }

  function Del<T>(s: seq<T>, k: nat): (r: seq<T>)
    requires k < |s|
    ensures |r| == |s| - 1
    ensures forall i :: 0 <= i < k ==> r[i] == s[i]
    ensures forall i :: k <= i < |r| ==> r[i] == s[i + 1]
  {
    s[..k] + s[k + 1..]
  }

  /** The value beside key `x`, 0 when there is no such key. */
  ghost function Lookup<T>(s: seq<T>, v: seq<nat>, x: T): nat
    requires |s| == |v|
  {
    if x in s then
      var i: nat :| i < |s| && s[i] == x;
      v[i]
    else 0
  }

  lemma LookupAt<T>(s: seq<T>, v: seq<nat>, i: nat)
    requires |s| == |v| && NoDup(s) && i < |s|
    ensures Lookup(s, v, s[i]) == v[i]
  {
  }

  lemma InsNoDup<T>(s: seq<T>, k: nat, x: T)
    requires k <= |s| && NoDup(s) && x !in s
    ensures NoDup(Ins(s, k, x))
  {
  }

  lemma LookupIns<T>(s: seq<T>, v: seq<nat>, k: nat, x: T, d: nat, y: T)
    requires |s| == |v| && k <= |s| && NoDup(s) && x !in s
    ensures Lookup(Ins(s, k, x), Ins(v, k, d), y) == if y == x then d else Lookup(s, v, y)
  {
    var s', v' := Ins(s, k, x), Ins(v, k, d);
    InsNoDup(s, k, x);
    LookupAt(s', v', k);
    if y != x && y in s {
      var i :| 0 <= i < |s| && s[i] == y;
      LookupAt(s, v, i);
      LookupAt(s', v', if i < k then i else i + 1);
    }
  }

  lemma LookupInsAll<T>(s: seq<T>, v: seq<nat>, k: nat, x: T, d: nat)
    requires |s| == |v| && k <= |s| && NoDup(s) && x !in s
    ensures forall y :: Lookup(Ins(s, k, x), Ins(v, k, d), y) == if y == x then d else Lookup(s, v, y)
  {
    forall y ensures Lookup(Ins(s, k, x), Ins(v, k, d), y) == if y == x then d else Lookup(s, v, y) {
      LookupIns(s, v, k, x, d, y);
    }
  }

  lemma LookupDel<T>(s: seq<T>, v: seq<nat>, k: nat, y: T)
    requires |s| == |v| && k < |s| && NoDup(s)
    ensures NoDup(Del(s, k))
    ensures Lookup(Del(s, k), Del(v, k), y) == if y == s[k] then 0 else Lookup(s, v, y)
  {
    var s', v' := Del(s, k), Del(v, k);
    if y != s[k] && y in s {
      var i :| 0 <= i < |s| && s[i] == y;
      LookupAt(s, v, i);
      var j := if i < k then i else i - 1;
      assert s'[j] == y;
      LookupAt(s', v', j);
    }
  }
}
