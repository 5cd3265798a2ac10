/** Singly-linked tail queues: removing a member walks from the head to the element before it. */
module SimpleTailQueue {
  import Sequences

  class Node {
    var next: Node?
  }

  datatype Loc = Nowhere | HeadField(head: Head) | NextField(node: Node)

  class Head {
    var first: Node?
    var last: Loc
  }

  function ElementAt(s: seq<Node>, i: nat): Node? {
    if i < |s| then s[i] else null
  }

  /** The head and the next fields represent `s`, and the head knows the last next-field. */
  ghost predicate IsQueue(h: Head, s: seq<Node>)
    reads h, s
  {
    && Sequences.Distinct(s)
    && h.first == ElementAt(s, 0)
    && (forall i {:trigger s[i].next} :: 0 <= i < |s| ==> s[i].next == ElementAt(s, i + 1))
    && h.last == (if s == [] then HeadField(h) else NextField(s[|s| - 1]))
  }

  /** STAILQ_REMOVE_HEAD */
  method RemoveHead(h: Head, ghost s: seq<Node>)
    requires IsQueue(h, s) && s != []
    modifies h
    ensures IsQueue(h, s[1..])
  {
    h.first := h.first.next;
    if h.first == null {
      h.last := HeadField(h);
    }
  }

  /** STAILQ_REMOVE of the k-th element: the walk stops before it, and only the link before it and
      the head change. */
  method Remove(h: Head, elm: Node, ghost s: seq<Node>, ghost k: nat)
    requires IsQueue(h, s) && k < |s| && s[k] == elm
    modifies h, s[..k]
    ensures IsQueue(h, s[..k] + s[k + 1..])
  {
    if h.first == elm {
      RemoveHead(h, s);
    } else {
      var curelm := h.first;
      ghost var i := 0;
      while curelm.next != elm
        invariant i < k && curelm == s[i]
        invariant IsQueue(h, s)
        decreases k - i
      {
        curelm := curelm.next;
        i := i + 1;
      }
      assert i + 1 == k;
      curelm.next := curelm.next.next;
      if curelm.next == null {
        h.last := NextField(curelm);
      }
    }
  }
}
