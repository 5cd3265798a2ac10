/** The server's list of thread records, and the loop that joins and frees finished threads while it
    walks the list. Every read and write of a list element or a thread record goes through the memory,
    which allows it only while the element or record is allocated. */
module ThreadList {
  import opened Sequences
  import opened Links

  /** The record of a thread, shared with the thread itself. */
  class ThreadInfo {
  }

  /** A list element with its record. */
  type Element = Node<ThreadInfo>

  /** What is allocated, and which threads were joined, in order. */
  class Memory {
    ghost var elements: set<Element>
    ghost var infos: set<ThreadInfo>
    ghost var joined: seq<ThreadInfo>

    method LoadNext(n: Element) returns (next: Node?<ThreadInfo>)
      requires n in elements
      ensures next == n.next
    {
      next := n.next;
    }

    method LoadPrev(n: Element) returns (prev: Loc<ThreadInfo>)
      requires n in elements
      ensures prev == n.prev
    {
      prev := n.prev;
    }

    method LoadInfo(n: Element) returns (tinfo: ThreadInfo)
      requires n in elements
      ensures tinfo == n.data
    {
      tinfo := n.data;
    }

    method StoreNext(n: Element, next: Node?<ThreadInfo>)
      requires n in elements
      modifies n`next
      ensures n.next == next
    {
      n.next := next;
    }

    method StorePrev(n: Element, prev: Loc<ThreadInfo>)
      requires n in elements
      modifies n`prev
      ensures n.prev == prev
    {
      n.prev := prev;
    }

    /** Store through the address of a next-field; the field of the head is always there. */
    method StoreAt(l: Loc<ThreadInfo>, n: Node?<ThreadInfo>)
      requires !l.Nowhere? && (l.NextField? ==> l.node in elements)
      modifies Target(l)
      ensures Load(l) == n
      ensures l.HeadField? ==> l.head.last == old(l.head.last)
      ensures l.NextField? ==> l.node.prev == old(l.node.prev)
    {
      Store(l, n);
    }

    /** The finished flag of a record: `now` is what the thread has made of it by now. */
    method LoadFinished(tinfo: ThreadInfo, now: bool) returns (finished: bool)
      requires tinfo in infos
      ensures finished == now
    {
      finished := now;
    }

    /** Wait for a thread, which is named in its record and may be waited for once. */
    method Join(tinfo: ThreadInfo)
      requires tinfo in infos && tinfo !in joined
      modifies this`joined
      ensures joined == old(joined) + [tinfo]
    {
      joined := joined + [tinfo];
    }

    /** Free a record: the thread that uses it must have been joined. */
    method FreeInfo(tinfo: ThreadInfo)
      requires tinfo in infos && tinfo in joined
      modifies this`infos
      ensures infos == old(infos) - {tinfo}
    {
      infos := infos - {tinfo};
    }

    method FreeElement(n: Element)
      requires n in elements
      modifies this`elements
      ensures elements == old(elements) - {n}
    {
      elements := elements - {n};
    }
  }

  // ------------------------------------------------------------------------ the list macros

  /** LIST_INSERT_HEAD */
  method InsertHead(m: Memory, h: Head<ThreadInfo>, elm: Element, ghost s: seq<Element>)
    requires Linked(h, s) && elm !in s
    requires elm in m.elements && forall n :: n in s ==> n in m.elements
    modifies h, elm, s[..if s == [] then 0 else 1]
    ensures Linked(h, [elm] + s)
  {
    m.StoreNext(elm, h.first);
    if h.first != null {
      m.StorePrev(h.first, NextField(elm));
    }
    h.first := elm;
    m.StorePrev(elm, HeadField(h));
  }

  ghost function Neighbours(s: seq<Element>, k: nat): set<Element>
    requires k < |s|
  {
    (if k > 0 then {s[k - 1]} else {}) + if k + 1 < |s| then {s[k + 1]} else {}
  }

  /** LIST_REMOVE: the element's own links stay. */
  method Remove(m: Memory, elm: Element, ghost h: Head<ThreadInfo>, ghost s: seq<Element>, ghost k: nat)
    requires Linked(h, s) && k < |s| && s[k] == elm
    requires elm in m.elements && Neighbours(s, k) <= m.elements
    modifies h, Neighbours(s, k)
    ensures Linked(h, s[..k] + s[k + 1..])
    ensures elm.next == old(elm.next) && elm.prev == old(elm.prev)
  {
    var next := m.LoadNext(elm);
    var prev := m.LoadPrev(elm);
    if next != null {
      assert next == s[k + 1];
      m.StorePrev(next, prev);
    }
    assert prev.NextField? ==> prev.node == s[k - 1];
    m.StoreAt(prev, next);
    SkippedIsLinked(h, s, k);
  }

  /** LIST_SWAP: only the heads and the two first elements change. */
  method Swap(m: Memory, h1: Head<ThreadInfo>, h2: Head<ThreadInfo>, ghost s1: seq<Element>, ghost s2: seq<Element>)
    requires h1 != h2 && Linked(h1, s1) && Linked(h2, s2)
    requires forall i, j :: 0 <= i < |s1| && 0 <= j < |s2| ==> s1[i] != s2[j]
    requires forall n :: n in s1 || n in s2 ==> n in m.elements
    modifies h1, h2, s1[..if s1 == [] then 0 else 1], s2[..if s2 == [] then 0 else 1]
    ensures Linked(h1, s2) && Linked(h2, s1)
  {
    var swapTmp := h1.first;
    h1.first := h2.first;
    h2.first := swapTmp;
    swapTmp := h1.first;
    if swapTmp != null {
      m.StorePrev(swapTmp, HeadField(h1));
    }
    swapTmp := h2.first;
    if swapTmp != null {
      m.StorePrev(swapTmp, HeadField(h2));
    }
  }

  // ------------------------------------------------------------------------- clean_threads

  /** Which elements a walk removes: `finished[j]` is the flag it reads when it visits element
      `j`, which a thread may have set since the walk began. */
  function Removals(finished: seq<bool>, wait: bool): (marks: seq<bool>)
    ensures |marks| == |finished|
  {
    seq(|finished|, i requires 0 <= i < |finished| => finished[i] || wait)
  }

  /** Of the first `i` elements, those marked `m`, in order. */
  function Marked(s: seq<Element>, marks: seq<bool>, m: bool, i: nat): (picked: seq<Element>)
    requires i <= |s| == |marks|
  {
    if i == 0 then []
    else Marked(s, marks, m, i - 1) + if marks[i - 1] == m then [s[i - 1]] else []
  }

  /** The places of the first `i` marks that are `m`. */
  function Places(marks: seq<bool>, m: bool, i: nat): (places: seq<nat>)
    requires i <= |marks|
    ensures forall j :: 0 <= j < |places| ==> places[j] < i
  {
    if i == 0 then []
    else Places(marks, m, i - 1) + if marks[i - 1] == m then [i - 1] else []
  }

  /** The places are increasing, and all those marked. */
  lemma {:induction false} PlacesExact(marks: seq<bool>, m: bool, i: nat)
    requires i <= |marks|
    ensures forall j, k :: 0 <= j < k < |Places(marks, m, i)| ==> Places(marks, m, i)[j] < Places(marks, m, i)[k]
    ensures forall p :: p in Places(marks, m, i) <==> 0 <= p < i && marks[p] == m
  {
    if i > 0 {
      PlacesExact(marks, m, i - 1);
      var before := Places(marks, m, i - 1);
      assert Places(marks, m, i) == if marks[i - 1] == m then before + [i - 1] else before;
    }
  }

  lemma {:induction false} MarkedAtPlaces(s: seq<Element>, marks: seq<bool>, m: bool, i: nat)
    requires i <= |s| == |marks|
    ensures |Marked(s, marks, m, i)| == |Places(marks, m, i)|
    ensures forall j :: 0 <= j < |Places(marks, m, i)| ==> Marked(s, marks, m, i)[j] == s[Places(marks, m, i)[j]]
  {
    if i > 0 {
      MarkedAtPlaces(s, marks, m, i - 1);
    }
  }

  /** The elements picked are all those marked, each once and in the order of the list. */
  lemma MarkedInOrder(s: seq<Element>, marks: seq<bool>, m: bool, i: nat)
    requires i <= |s| == |marks|
    ensures var picked, places := Marked(s, marks, m, i), Places(marks, m, i);
            && |picked| == |places|
            && (forall j :: 0 <= j < |places| ==> picked[j] == s[places[j]])
            && (forall j, k :: 0 <= j < k < |places| ==> places[j] < places[k])
            && (forall p :: p in places <==> 0 <= p < i && marks[p] == m)
  {
    hide Marked, Places;
    PlacesExact(marks, m, i);
    MarkedAtPlaces(s, marks, m, i);
  }

  /** A walk that waits leaves an empty list. */
  lemma {:induction false} WaitingLeavesNone(s: seq<Element>, finished: seq<bool>, i: nat)
    requires i <= |s| == |finished|
    ensures Marked(s, Removals(finished, true), false, i) == []
  {
    if i > 0 {
      WaitingLeavesNone(s, finished, i - 1);
    }
  }

  function Infos(s: seq<Element>): seq<ThreadInfo> {
    seq(|s|, i requires 0 <= i < |s| => s[i].data)
  }

  /** Before a walk: every element and its record is allocated, no two elements share a record, and no
      thread was joined yet. */
  ghost predicate Walkable(elements: set<Element>, infos: set<ThreadInfo>, joined: seq<ThreadInfo>, s: seq<Element>)
  {
    && (forall i :: 0 <= i < |s| ==> s[i] in elements && s[i].data in infos && s[i].data !in joined)
    && Distinct(Infos(s))
  }

  /** The list during a walk: the elements kept, and those from the current one on. */
  function Ahead(kept: seq<Element>, s: seq<Element>, i: nat): (current: seq<Element>)
    requires i <= |s|
    ensures |current| == |kept| + |s| - i
  {
    kept + s[i..]
  }

  /** Walk the list; join and free every thread that has finished, or every thread when waiting. The
      next element is fetched before the current one can be freed. */
  method CleanThreads(m: Memory, h: Head<ThreadInfo>, wait: bool, finished: seq<bool>, ghost s: seq<Element>)
    returns (ghost gone: seq<Element>)
    requires Linked(h, s) && |finished| == |s| && Walkable(m.elements, m.infos, m.joined, s)
    modifies m, h, Members(s)
    ensures gone == Marked(s, Removals(finished, wait), true, |s|)
    ensures forall j :: 0 <= j < |s| ==> (s[j] in gone <==> finished[j] || wait)
    ensures Linked(h, Marked(s, Removals(finished, wait), false, |s|))
    ensures m.elements == old(m.elements) - Members(gone)
    ensures m.infos == old(m.infos) - Members(Infos(gone))
    ensures m.joined == old(m.joined) + Infos(gone) && Distinct(Infos(gone))
  {
    hide Linked, Marked, Infos, Distinct, Removals, Members, Neighbours, Ahead, Walkable, ElementAt;
    ghost var marks, kept := Removals(finished, wait), [];
    ghost var elements, infos, joined := m.elements, m.infos, m.joined;
    gone := [];
    ListFacts(h, s);
    NothingYet(s, marks, elements, infos, joined);
    var datap := h.first;
    var i := 0;
    EndOfWalk(s, i);
    while datap != null
      invariant i <= |s| && (datap == null <==> i == |s|) && datap == ElementAt(s, i)
      invariant kept == Marked(s, marks, false, i) && gone == Marked(s, marks, true, i)
      invariant Linked(h, Ahead(kept, s, i))
      invariant m.elements == elements - Members(gone)
      invariant m.infos == infos - Members(Infos(gone))
      invariant m.joined == joined + Infos(gone)
      decreases |s| - i
    {
      ghost var current := Ahead(kept, s, i);
      WalkStep(s, kept, i);
      EndOfWalk(s, i);
      EndOfWalk(s, i + 1);
      NextOf(h, current, |kept|);
      MarkedStep(s, marks, true, i);
      MarkedStep(s, marks, false, i);
      RemovalAt(finished, wait, i);
      InfosStep(gone, s[i]);
      MembersSnoc(gone, s[i], elements);
      MembersSnoc(Infos(gone), s[i].data, infos);
      StillAllocated(s, marks, i, elements, infos, joined);
      assert Linked(h, current);
      var tmp := m.LoadNext(datap);
      assert Linked(h, current);
      var tinfo := m.LoadInfo(datap);
      var now := m.LoadFinished(tinfo, finished[i]);
      if now || wait {
        Remove(m, datap, h, current, |kept|);
        m.Join(tinfo);
        m.FreeInfo(tinfo);
        m.FreeElement(datap);
        gone := gone + [datap];
      } else {
        kept := kept + [datap];
      }
      i := i + 1;
      datap := tmp;
    }
    NothingAhead(kept, s);
    AllInfosDistinct(s, marks, elements, infos, joined);
    GoneIff(s, finished, wait);
  }

  // ---------------------------------------------------------------------------- for the walk

  lemma ListFacts(h: Head<ThreadInfo>, s: seq<Element>)
    requires Linked(h, s)
    ensures Distinct(s) && h.first == ElementAt(s, 0)
  {
  }

  lemma GoneIff(s: seq<Element>, finished: seq<bool>, wait: bool)
    requires Distinct(s) && |finished| == |s|
    ensures var gone := Marked(s, Removals(finished, wait), true, |s|);
            forall j :: 0 <= j < |s| ==> (s[j] in gone <==> finished[j] || wait)
  {
    hide Marked, Places;
    var marks := Removals(finished, wait);
    var gone, places := Marked(s, marks, true, |s|), Places(marks, true, |s|);
    MarkedInOrder(s, marks, true, |s|);
    forall j | 0 <= j < |s|
      ensures s[j] in gone <==> marks[j]
    {
      if marks[j] {
        var q :| 0 <= q < |places| && places[q] == j;
        assert gone[q] == s[j];
      }
      if s[j] in gone {
        var q :| 0 <= q < |gone| && gone[q] == s[j];
        assert places[q] in places;
      }
    }
  }

  lemma EndOfWalk(s: seq<Element>, i: nat)
    requires i <= |s|
    ensures ElementAt(s, i) == null <==> i == |s|
    ensures i < |s| ==> ElementAt(s, i) == s[i]
  {
  }

  lemma NextOf(h: Head<ThreadInfo>, s: seq<Element>, k: nat)
    requires Linked(h, s) && k < |s|
    ensures s[k].next == ElementAt(s, k + 1)
  {
  }

  lemma NothingYet(s: seq<Element>, marks: seq<bool>, elements: set<Element>, infos: set<ThreadInfo>,
                   joined: seq<ThreadInfo>)
    requires |s| == |marks|
    ensures Marked(s, marks, true, 0) == Marked(s, marks, false, 0) == [] && Ahead([], s, 0) == s
    ensures elements == elements - Members([]) && infos == infos - Members(Infos([])) && joined == joined + Infos([])
  {
  }

  /** Taking out the current element, or passing it, leaves the elements kept and those ahead. */
  lemma WalkStep(s: seq<Element>, kept: seq<Element>, i: nat)
    requires i < |s|
    ensures var current, k := Ahead(kept, s, i), |kept|;
            && current[k] == s[i]
            && ElementAt(current, k + 1) == ElementAt(s, i + 1)
            && current[..k] + current[k + 1..] == Ahead(kept, s, i + 1)
            && current == Ahead(kept + [s[i]], s, i + 1)
  {
  }

  lemma NothingAhead(kept: seq<Element>, s: seq<Element>)
    ensures Ahead(kept, s, |s|) == kept
  {
  }

  lemma MarkedStep(s: seq<Element>, marks: seq<bool>, m: bool, i: nat)
    requires i < |s| == |marks|
    ensures Marked(s, marks, m, i + 1)
         == if marks[i] == m then Marked(s, marks, m, i) + [s[i]] else Marked(s, marks, m, i)
  {
    assert Marked(s, marks, m, i) + [] == Marked(s, marks, m, i);
  }

  lemma RemovalAt(finished: seq<bool>, wait: bool, i: nat)
    requires i < |finished|
    ensures Removals(finished, wait)[i] == (finished[i] || wait)
  {
  }

  lemma InfosStep(s: seq<Element>, n: Element)
    ensures Infos(s + [n]) == Infos(s) + [n.data]
  {
  }

  lemma {:induction false} MarkedBefore(s: seq<Element>, marks: seq<bool>, m: bool, i: nat)
    requires i <= |s| == |marks|
    ensures forall n :: n in Marked(s, marks, m, i) ==> n in s[..i]
  {
    if i > 0 {
      MarkedBefore(s, marks, m, i - 1);
    }
  }

  lemma {:induction false} KeptIsNotGone(s: seq<Element>, marks: seq<bool>, i: nat)
    requires Distinct(s) && i <= |s| == |marks|
    ensures forall n :: n in Marked(s, marks, true, i) ==> n !in Marked(s, marks, false, i)
  {
    if i > 0 {
      KeptIsNotGone(s, marks, i - 1);
      MarkedBefore(s, marks, true, i - 1);
      MarkedBefore(s, marks, false, i - 1);
      assert s[i - 1] !in s[..i - 1];
    }
  }

  /** The elements still in the list, and the record of the next one, are not among those freed. */
  lemma StillAllocated(s: seq<Element>, marks: seq<bool>, i: nat, elements: set<Element>, infos: set<ThreadInfo>,
                       joined: seq<ThreadInfo>)
    requires i < |s| == |marks| && Distinct(s) && Walkable(elements, infos, joined, s)
    ensures var kept, gone := Marked(s, marks, false, i), Marked(s, marks, true, i);
            && s[i] in elements - Members(gone)
            && Neighbours(Ahead(kept, s, i), |kept|) <= elements - Members(gone)
            && Neighbours(Ahead(kept, s, i), |kept|) <= Members(s)
            && s[i].data in infos - Members(Infos(gone)) && s[i].data !in joined + Infos(gone)
  {
    var kept, gone := Marked(s, marks, false, i), Marked(s, marks, true, i);
    KeptIsNotGone(s, marks, i);
    MarkedBefore(s, marks, true, i);
    MarkedBefore(s, marks, false, i);
    var current := kept + s[i..];
    forall n | n in current
      ensures n in s && n !in gone
    {
      if n !in kept {
        var j :| i <= j < |s| && s[j] == n;
        assert n !in s[..i];
      }
    }
    InfoIsNew(s, marks, i);
  }

  lemma {:induction false} GoneInfosDistinct(s: seq<Element>, marks: seq<bool>, i: nat)
    requires i <= |s| == |marks| && Distinct(Infos(s))
    ensures Distinct(Infos(Marked(s, marks, true, i)))
  {
    if i > 0 {
      GoneInfosDistinct(s, marks, i - 1);
      var before := Marked(s, marks, true, i - 1);
      MarkedStep(s, marks, true, i - 1);
      if marks[i - 1] {
        InfosStep(before, s[i - 1]);
        InfoIsNew(s, marks, i - 1);
        DistinctSnoc(Infos(before), s[i - 1].data);
      }
    }
  }

  lemma AllInfosDistinct(s: seq<Element>, marks: seq<bool>, elements: set<Element>, infos: set<ThreadInfo>,
                         joined: seq<ThreadInfo>)
    requires |s| == |marks| && Walkable(elements, infos, joined, s)
    ensures Distinct(Infos(Marked(s, marks, true, |s|)))
  {
    GoneInfosDistinct(s, marks, |s|);
  }

  lemma InfoIsNew(s: seq<Element>, marks: seq<bool>, i: nat)
    requires i < |s| == |marks| && Distinct(Infos(s))
    ensures s[i].data !in Infos(Marked(s, marks, true, i))
  {
    var gone := Marked(s, marks, true, i);
    MarkedBefore(s, marks, true, i);
    forall g | 0 <= g < |gone|
      ensures Infos(gone)[g] != s[i].data
    {
      assert gone[g] in s[..i];
      var j :| 0 <= j < i && s[j] == gone[g];
      assert Infos(s)[j] == Infos(gone)[g] && Infos(s)[i] == s[i].data;
    }
  }
}
