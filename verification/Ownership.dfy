/** Who owns which heap buffer. The live buffers are a map from addresses to bytes; the owners
    are a list of entry records, null records owning nothing. */
module Ownership {
  import Machine
  import opened EntryRing
  import opened DeviceLog

  type Heap = map<Ptr, Bytes>

  /** The record owns nothing, or a live buffer of the recorded size. */
  ghost predicate EntryOk(h: Heap, e: Entry) {
    if e.buffptr == NULL then e.size == 0 else e.buffptr in h && |h[e.buffptr]| == e.size
  }

  function Content(h: Heap, e: Entry): Bytes {
    if e.buffptr in h then h[e.buffptr] else []
  }

  /** Every owner is right, no buffer has two owners, and every live buffer has one. */
  ghost predicate Owned(h: Heap, owners: seq<Entry>): (b: bool)
    ensures b ==> NULL !in h
  {
    && NULL !in h
    && (forall i :: 0 <= i < |owners| ==> EntryOk(h, owners[i]))
    && (forall i, j :: 0 <= i < j < |owners| && owners[i].buffptr != NULL ==>
          owners[i].buffptr != owners[j].buffptr)
    && (forall p :: p in h ==> exists i :: 0 <= i < |owners| && owners[i].buffptr == p)
  }

  lemma OwnAllocated(h: Heap, owners: seq<Entry>, k: nat, p: Ptr, b: Bytes)
    requires Owned(h, owners) && k < |owners| && owners[k] == ZERO
    requires p != NULL && p !in h && |b| < Machine.TWO_64
    ensures Owned(h[p := b], owners[k := Entry(p, |b|)])
  {
    var h', owners' := h[p := b], owners[k := Entry(p, |b|)];
    forall q | q in h'
      ensures exists i :: 0 <= i < |owners'| && owners'[i].buffptr == q
    {
      if q == p {
        assert owners'[k].buffptr == q;
      } else {
        var i :| 0 <= i < |owners| && owners[i].buffptr == q;
        assert owners'[i].buffptr == q;
      }
    }
  }

  lemma OwnOverwritten(h: Heap, owners: seq<Entry>, p: Ptr, b: Bytes)
    requires Owned(h, owners) && p in h && |b| == |h[p]|
    ensures Owned(h[p := b], owners)
  {
  }

  lemma OwnSwapped(h: Heap, owners: seq<Entry>, i: nat, j: nat)
    requires Owned(h, owners) && i < |owners| && j < |owners|
    ensures Owned(h, owners[i := owners[j]][j := owners[i]])
  {
    var owners' := owners[i := owners[j]][j := owners[i]];
    forall q | q in h
      ensures exists k :: 0 <= k < |owners'| && owners'[k].buffptr == q
    {
      var k :| 0 <= k < |owners| && owners[k].buffptr == q;
      assert owners'[if k == i then j else if k == j then i else k].buffptr == q;
    }
  }

  lemma OwnFreed(h: Heap, owners: seq<Entry>, k: nat)
    requires Owned(h, owners) && k < |owners|
    ensures Owned(h - {owners[k].buffptr}, owners[k := ZERO])
  {
    var h', owners' := h - {owners[k].buffptr}, owners[k := ZERO];
    forall q | q in h'
      ensures exists i :: 0 <= i < |owners'| && owners'[i].buffptr == q
    {
      var i :| 0 <= i < |owners| && owners[i].buffptr == q;
      assert owners'[i].buffptr == q;
    }
  }

  // ----------------------------------------------------------------------------- live bytes

  ghost function HeapBytes(h: Heap): nat {
    if h == map[] then 0 else var p :| p in h; |h[p]| + HeapBytes(h - {p})
  }

  lemma {:induction false} HeapBytesWithout(h: Heap, p: Ptr)
    requires p in h
    ensures HeapBytes(h) == |h[p]| + HeapBytes(h - {p})
    decreases |h|
  {
    var q :| q in h && HeapBytes(h) == |h[q]| + HeapBytes(h - {q});
    if q != p {
      HeapBytesWithout(h - {q}, p);
      HeapBytesWithout(h - {p}, q);
      assert h - {q} - {p} == h - {p} - {q};
    }
  }

  lemma OwnedWithoutFirst(h: Heap, owners: seq<Entry>)
    requires Owned(h, owners) && owners != []
    ensures Owned(h - {owners[0].buffptr}, owners[1..])
  {
    var h', rest := h - {owners[0].buffptr}, owners[1..];
    forall q | q in h'
      ensures exists i :: 0 <= i < |rest| && rest[i].buffptr == q
    {
      var i :| 0 <= i < |owners| && owners[i].buffptr == q;
      assert rest[i - 1].buffptr == q;
    }
  }

  lemma WithoutOne(h: Heap, e: Entry)
    requires EntryOk(h, e) && NULL !in h
    ensures HeapBytes(h) == e.size + HeapBytes(h - {e.buffptr})
    ensures |h| <= 1 + |h - {e.buffptr}|
  {
    if e.buffptr == NULL {
      assert h - {NULL} == h;
    } else {
      HeapBytesWithout(h, e.buffptr);
      assert h.Keys == (h - {e.buffptr}).Keys + {e.buffptr};
    }
  }

  /** No more live buffers than owners, and the live bytes are the recorded sizes. */
  lemma {:induction false} LiveBytes(h: Heap, owners: seq<Entry>)
    requires Owned(h, owners)
    ensures |h| <= |owners| && HeapBytes(h) == TotalSize(owners)
    decreases |owners|
  {
    if owners == [] {
      assert forall p :: p !in h;
      assert h == map[];
    } else {
      OwnedWithoutFirst(h, owners);
      LiveBytes(h - {owners[0].buffptr}, owners[1..]);
      WithoutOne(h, owners[0]);
    }
  }
}
