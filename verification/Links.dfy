/** The doubly linked elements of the queue macros. An element holds the next element and the address
    of the field that holds it; an address is a value that says which field it points at. */
module Links {
  import Sequences

  class Node<T> {
    const data: T
    var next: Node?<T>
    var prev: Loc<T>

    constructor (data: T)
      ensures this.data == data
    {
      this.data := data;
      next, prev := null, Nowhere;
    }
  }

  /** The head of a tail queue. The head of a plain list is its first field alone. */
  class Head<T> {
    var first: Node?<T>
    var last: Loc<T>
  }

  /** The address of a field that holds an element; an uninitialised one points nowhere. */
  datatype Loc<T> = Nowhere | HeadField(head: Head<T>) | NextField(node: Node<T>)

  function Target<T>(l: Loc<T>): set<object> {
    match l
    case Nowhere => {}
    case HeadField(h) => {h}
    case NextField(n) => {n}
  }

  function Load<T>(l: Loc<T>): Node?<T>
    requires !l.Nowhere?
    reads Target(l)
  {
    if l.HeadField? then l.head.first else l.node.next
  }

  method Store<T>(l: Loc<T>, n: Node?<T>)
    requires !l.Nowhere?
    modifies Target(l)
    ensures Load(l) == n
    ensures l.HeadField? ==> l.head.last == old(l.head.last)
    ensures l.NextField? ==> l.node.prev == old(l.node.prev)
  {
    match l {
      case HeadField(h) => h.first := n;
      case NextField(e) => e.next := n;
    }
  }

  function ElementAt<T>(s: seq<Node<T>>, i: nat): Node?<T> {
    if i < |s| then s[i] else null
  }

  /** The address of the field that holds element `i`, or the final null. */
  function LocOf<T>(h: Head<T>, s: seq<Node<T>>, i: nat): Loc<T>
    requires i <= |s|
  {
    if i == 0 then HeadField(h) else NextField(s[i - 1])
  }

  /** The first field of the head and the link fields represent the sequence `s`. */
  ghost predicate Linked<T>(h: Head<T>, s: seq<Node<T>>)
    reads h, s
  {
    && Sequences.Distinct(s)
    && h.first == ElementAt(s, 0)
    && (forall i {:trigger s[i].next} :: 0 <= i < |s| ==> s[i].next == ElementAt(s, i + 1))
    && (forall i {:trigger s[i].prev} :: 0 <= i < |s| ==> s[i].prev == LocOf(h, s, i))
  }

  /** Only the two fields around element `k` of the linked `s` have changed, to skip it. */
  ghost predicate Skips<T>(h: Head<T>, s: seq<Node<T>>, k: nat)
    requires k < |s|
    reads h, s
  {
    && Sequences.Distinct(s)
    && h.first == (if k == 0 then ElementAt(s, 1) else s[0])
    && (forall i {:trigger s[i].next} :: 0 <= i < |s| && i != k ==>
          s[i].next == if i + 1 == k then ElementAt(s, k + 1) else ElementAt(s, i + 1))
    && (forall i {:trigger s[i].prev} :: 0 <= i < |s| && i != k ==>
          s[i].prev == if i == k + 1 then LocOf(h, s, k) else LocOf(h, s, i))
  }

  lemma SkippedIsLinked<T>(h: Head<T>, s: seq<Node<T>>, k: nat)
    requires k < |s| && Skips(h, s, k)
    ensures Linked(h, s[..k] + s[k + 1..])
  {
    var rest := s[..k] + s[k + 1..];
    assert forall i :: 0 <= i < |rest| ==> rest[i] == s[if i < k then i else i + 1];
  }
}
