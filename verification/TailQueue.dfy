/** Tail queues as the queue macros keep them: linked elements, and a head that also knows the address
    of the last next-field. */
module TailQueue {
  import opened Sequences
  import opened Links

  /** The second field of the pair that starts at an address: a head and the link fields of an
      element are both an element followed by an address. */
  function SecondField<T>(l: Loc<T>): Loc<T>
    requires !l.Nowhere?
    reads Target(l)
  {
    if l.HeadField? then l.head.last else l.node.prev
  }

  // --------------------------------------------------------------- what a queue represents

  ghost predicate Apart<T>(s: seq<Node<T>>, t: seq<Node<T>>) {
    forall i, j :: 0 <= i < |s| && 0 <= j < |t| ==> s[i] != t[j]
  }

  /** The head and the link fields represent the sequence `s`. */
  ghost predicate IsQueue<T>(h: Head<T>, s: seq<Node<T>>)
    reads h, s
  {
    Linked(h, s) && h.last == LocOf(h, s, |s|)
  }

  /** Every element is held by the field it points back at, and the head's last address holds the
      final null. */
  lemma EveryAddressHolds<T>(h: Head<T>, s: seq<Node<T>>)
    requires IsQueue(h, s)
    ensures forall i :: 0 <= i < |s| ==> !s[i].prev.Nowhere? && Load(s[i].prev) == s[i]
    ensures !h.last.Nowhere? && Load(h.last) == null
  {
    forall i | 0 <= i < |s|
      ensures !s[i].prev.Nowhere? && Load(s[i].prev) == s[i]
    {
      if i > 0 {
        assert s[i - 1].next == s[i];
      }
    }
    if s != [] {
      assert s[|s| - 1].next == null;
    }
  }

  /** A head represents only one sequence. */
  lemma {:induction false} RepresentsOne<T>(h: Head<T>, s: seq<Node<T>>, t: seq<Node<T>>)
    requires Linked(h, s) && Linked(h, t)
    ensures s == t
  {
    var i := 0;
    while i < |s| && i < |t|
      invariant i <= |s| && i <= |t|
      invariant s[..i] == t[..i]
      invariant ElementAt(s, i) == ElementAt(t, i)
    {
      assert s[i] == t[i] && s[i].next == ElementAt(s, i + 1) == ElementAt(t, i + 1);
      i := i + 1;
    }
    assert s == s[..i] && t == t[..i];
  }

  // ------------------------------------------------- neighbours that changed, and no others

  /** Only the two fields around place `k` of the queue `s` have changed, to pass through `elm`. */
  ghost predicate Passes<T>(h: Head<T>, s: seq<Node<T>>, elm: Node<T>, k: nat)
    requires k <= |s|
    reads h, s, elm
  {
    && Distinct(s) && elm !in s
    && elm.next == ElementAt(s, k) && elm.prev == LocOf(h, s, k)
    && h.first == (if k == 0 then elm else s[0])
    && h.last == (if k == |s| then NextField(elm) else LocOf(h, s, |s|))
    && (forall i {:trigger s[i].next} :: 0 <= i < |s| ==>
          s[i].next == if i + 1 == k then elm else ElementAt(s, i + 1))
    && (forall i {:trigger s[i].prev} :: 0 <= i < |s| ==>
          s[i].prev == if i == k then NextField(elm) else LocOf(h, s, i))
  }

  lemma PassedIsQueue<T>(h: Head<T>, s: seq<Node<T>>, elm: Node<T>, k: nat)
    requires k <= |s| && Passes(h, s, elm, k)
    ensures IsQueue(h, s[..k] + [elm] + s[k..])
  {
    var t := s[..k] + [elm] + s[k..];
    assert forall i :: 0 <= i < |t| ==> t[i] == if i < k then s[i] else if i == k then elm else s[i - 1];
  }

  /** The fields around element `k`, and the fields of `elm`, have changed to put `elm` in its
      place. */
  ghost predicate Stands<T>(h: Head<T>, s: seq<Node<T>>, elm: Node<T>, k: nat)
    requires k < |s|
    reads h, s, elm
  {
    && Distinct(s) && elm !in s
    && elm.next == ElementAt(s, k + 1) && elm.prev == LocOf(h, s, k)
    && h.first == (if k == 0 then elm else s[0])
    && h.last == (if k + 1 == |s| then NextField(elm) else LocOf(h, s, |s|))
    && (forall i {:trigger s[i].next} :: 0 <= i < |s| && i != k ==>
          s[i].next == if i + 1 == k then elm else ElementAt(s, i + 1))
    && (forall i {:trigger s[i].prev} :: 0 <= i < |s| && i != k ==>
          s[i].prev == if i == k + 1 then NextField(elm) else LocOf(h, s, i))
  }

  lemma StandingIsQueue<T>(h: Head<T>, s: seq<Node<T>>, elm: Node<T>, k: nat)
    requires k < |s| && Stands(h, s, elm, k)
    ensures IsQueue(h, s[k := elm])
  {
  }

  /** The end of one queue and the start of another have changed to join them at head `h`. */
  ghost predicate Joins<T>(h: Head<T>, s: seq<Node<T>>, t: seq<Node<T>>)
    reads h, s, t
  {
    && Distinct(s) && Distinct(t) && Apart(s, t) && t != []
    && h.first == ElementAt(s + t, 0)
    && h.last == NextField(t[|t| - 1])
    && (forall i {:trigger s[i].next} :: 0 <= i < |s| ==> s[i].next == if i + 1 == |s| then t[0] else s[i + 1])
    && (forall i {:trigger s[i].prev} :: 0 <= i < |s| ==> s[i].prev == LocOf(h, s, i))
    && (forall i {:trigger t[i].next} :: 0 <= i < |t| ==> t[i].next == ElementAt(t, i + 1))
    && (forall i {:trigger t[i].prev} :: 0 <= i < |t| ==>
          t[i].prev == if i == 0 then LocOf(h, s, |s|) else NextField(t[i - 1]))
  }

  lemma JoinedIsQueue<T>(h: Head<T>, s: seq<Node<T>>, t: seq<Node<T>>)
    requires Joins(h, s, t)
    ensures IsQueue(h, s + t)
  {
    var u := s + t;
    assert forall i :: 0 <= i < |u| ==> u[i] == if i < |s| then s[i] else t[i - |s|];
  }

  // -------------------------------------------------------------------- the update macros

  /** TAILQ_INIT */
  method Init<T>(h: Head<T>)
    modifies h
    ensures IsQueue(h, [])
  {
    h.first := null;
    h.last := HeadField(h);
  }

  /** TAILQ_INSERT_HEAD */
  method InsertHead<T>(h: Head<T>, elm: Node<T>, ghost s: seq<Node<T>>)
    requires IsQueue(h, s) && elm !in s
    modifies h, elm, s[..if s == [] then 0 else 1]
    ensures IsQueue(h, [elm] + s)
  {
    elm.next := h.first;
    if elm.next != null {
      h.first.prev := NextField(elm);
    } else {
      h.last := NextField(elm);
    }
    h.first := elm;
    elm.prev := HeadField(h);
  }

  /** TAILQ_INSERT_BEFORE */
  method InsertBefore<T>(listelm: Node<T>, elm: Node<T>, ghost h: Head<T>, ghost s: seq<Node<T>>, ghost k: nat)
    requires IsQueue(h, s) && elm !in s && k < |s| && s[k] == listelm
    modifies h, elm, s[..k + 1]
    ensures IsQueue(h, s[..k] + [elm] + s[k..])
  {
    elm.prev := listelm.prev;
    elm.next := listelm;
    Store(listelm.prev, elm);
    listelm.prev := NextField(elm);
    PassedIsQueue(h, s, elm, k);
  }

  /** TAILQ_INSERT_AFTER */
  method InsertAfter<T>(h: Head<T>, listelm: Node<T>, elm: Node<T>, ghost s: seq<Node<T>>, ghost k: nat)
    requires IsQueue(h, s) && elm !in s && k < |s| && s[k] == listelm
    modifies h, elm, s[k..]
    ensures IsQueue(h, s[..k + 1] + [elm] + s[k + 1..])
  {
    elm.next := listelm.next;
    if elm.next != null {
      elm.next.prev := NextField(elm);
    } else {
      h.last := NextField(elm);
    }
    listelm.next := elm;
    elm.prev := NextField(listelm);
    PassedIsQueue(h, s, elm, k + 1);
  }

  /** TAILQ_INSERT_TAIL */
  method InsertTail<T>(h: Head<T>, elm: Node<T>, ghost s: seq<Node<T>>)
    requires IsQueue(h, s) && elm !in s
    modifies h, elm, s[if s == [] then 0 else |s| - 1..]
    ensures IsQueue(h, s + [elm])
  {
    elm.next := null;
    elm.prev := h.last;
    Store(h.last, elm);
    h.last := NextField(elm);
  }

  /** TAILQ_REMOVE */
  method Remove<T>(h: Head<T>, elm: Node<T>, ghost s: seq<Node<T>>, ghost k: nat)
    requires IsQueue(h, s) && k < |s| && s[k] == elm
    modifies h, s
    ensures IsQueue(h, s[..k] + s[k + 1..])
    ensures elm.next == old(elm.next) && elm.prev == old(elm.prev)
  {
    if elm.next != null {
      elm.next.prev := elm.prev;
    } else {
      h.last := elm.prev;
    }
    Store(elm.prev, elm.next);
    SkippedIsLinked(h, s, k);
  }

  /** TAILQ_REPLACE */
  method Replace<T>(h: Head<T>, elm: Node<T>, elm2: Node<T>, ghost s: seq<Node<T>>, ghost k: nat)
    requires IsQueue(h, s) && elm2 !in s && k < |s| && s[k] == elm
    modifies h, elm2, s
    ensures IsQueue(h, s[k := elm2])
  {
    elm2.next := elm.next;
    if elm2.next != null {
      elm2.next.prev := NextField(elm2);
    } else {
      h.last := NextField(elm2);
    }
    elm2.prev := elm.prev;
    Store(elm2.prev, elm2);
    StandingIsQueue(h, s, elm2, k);
  }

  /** TAILQ_CONCAT */
  method Concat<T>(h1: Head<T>, h2: Head<T>, ghost s1: seq<Node<T>>, ghost s2: seq<Node<T>>)
    requires h1 != h2 && IsQueue(h1, s1) && IsQueue(h2, s2)
    requires Apart(s1, s2)
    modifies h1, h2, s1, s2
    ensures IsQueue(h1, s1 + s2) && IsQueue(h2, [])
  {
    if h2.first != null {
      Store(h1.last, h2.first);
      h2.first.prev := h1.last;
      h1.last := h2.last;
      Init(h2);
      JoinedIsQueue(h1, s1, s2);
    } else {
      assert s1 + s2 == s1;
    }
  }

  /** TAILQ_SWAP: only the heads and the two first elements change. */
  method Swap<T>(h1: Head<T>, h2: Head<T>, ghost s1: seq<Node<T>>, ghost s2: seq<Node<T>>)
    requires h1 != h2 && IsQueue(h1, s1) && IsQueue(h2, s2)
    requires Apart(s1, s2)
    modifies h1, h2, s1[..if s1 == [] then 0 else 1], s2[..if s2 == [] then 0 else 1]
    ensures IsQueue(h1, s2) && IsQueue(h2, s1)
  {
    var swapFirst, swapLast := h1.first, h1.last;
    h1.first := h2.first;
    h1.last := h2.last;
    h2.first := swapFirst;
    h2.last := swapLast;
    swapFirst := h1.first;
    if swapFirst != null {
      swapFirst.prev := HeadField(h1);
    } else {
      h1.last := HeadField(h1);
    }
    swapFirst := h2.first;
    if swapFirst != null {
      swapFirst.prev := HeadField(h2);
    } else {
      h2.last := HeadField(h2);
    }
  }

  // ---------------------------------------------------------------------- the access macros

  /** TAILQ_LAST: two address hops from the head. */
  method LastElement<T>(h: Head<T>, ghost s: seq<Node<T>>) returns (e: Node?<T>)
    requires IsQueue(h, s)
    ensures e == if s == [] then null else s[|s| - 1]
  {
    EveryAddressHolds(h, s);
    e := Load(SecondField(h.last));
  }

  /** TAILQ_PREV: two address hops from an element. */
  method Previous<T>(elm: Node<T>, ghost h: Head<T>, ghost s: seq<Node<T>>, ghost k: nat) returns (e: Node?<T>)
    requires IsQueue(h, s) && k < |s| && s[k] == elm
    ensures e == if k == 0 then null else s[k - 1]
  {
    EveryAddressHolds(h, s);
    e := Load(SecondField(elm.prev));
  }

  /** TAILQ_FOREACH_REVERSE visits every element once, last first. */
  method ForeachReverse<T>(h: Head<T>, ghost s: seq<Node<T>>) returns (visited: seq<Node<T>>)
    requires IsQueue(h, s)
    ensures |visited| == |s| && forall i :: 0 <= i < |s| ==> visited[i] == s[|s| - 1 - i]
  {
    visited := [];
    var v := LastElement(h, s);
    while v != null
      invariant |visited| <= |s|
      invariant v == if |visited| == |s| then null else s[|s| - 1 - |visited|]
      invariant forall i :: 0 <= i < |visited| ==> visited[i] == s[|s| - 1 - i]
      decreases |s| - |visited|
    {
      var k := |s| - 1 - |visited|;
      visited := visited + [v];
      v := Previous(v, h, s, k);
    }
  }
}
