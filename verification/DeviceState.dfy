/** The state of the device as a value - heap, ring, partial record and a record for the buffer
    in the hands of the running call - and what it stores: a log. One lemma per memory step of a
    write; the sequential methods and the interleaved steps both use them. */
module DeviceState {
  import opened Machine
  import opened EntryRing
  import opened DeviceLog
  import opened Ownership

  /** The owners of heap buffers: the slots, the partial record, and the running call. */
  function Owners(r: Ring, partial: Entry, hand: Entry): seq<Entry> {
    r.entry + [partial, hand]
  }

  ghost predicate SlotHolds(h: Heap, r: Ring, s: Log, j: nat)
    requires j < |r.entry|
  {
    var k := LogIndex(|s.entries|, |r.entry|, j);
    k >= 0 ==> k < |s.entries| && Content(h, r.entry[j]) == s.entries[k]
  }

  /** The concrete state stores the log `s`: the ring holds its last entries, the partial record
      its unfinished bytes, and every live buffer has exactly one owner. */
  ghost predicate Stores(h: Heap, r: Ring, partial: Entry, hand: Entry, s: Log): (b: bool)
    ensures b ==> r.InRange() && WellFormed(s)
  {
    && Positioned(r, |s.entries|)
    && Owned(h, Owners(r, partial, hand))
    && HeapBytes(h) < TWO_63
    && (forall j :: 0 <= j < |r.entry| ==> SlotHolds(h, r, s, j))
    && Content(h, partial) == s.partial
    && (partial.buffptr == NULL <==> s.partial == [])
    && WellFormed(s)
  }

  lemma InitStores(capacity: nat)
    requires 0 < capacity <= 255
    ensures Stores(map[], Init(capacity), ZERO, ZERO, EMPTY)
  {
    InitPositioned(capacity);
  }

  /** What the running call may ask of the allocator: a free address, within the address space. */
  ghost predicate Allocatable(h: Heap, p: Ptr, n: nat) {
    p != NULL && p !in h && HeapBytes(h) + n < TWO_63
  }

  lemma AllocateStores(h: Heap, r: Ring, partial: Entry, s: Log, p: Ptr, b: Bytes)
    requires Stores(h, r, partial, ZERO, s) && Allocatable(h, p, |b|)
    ensures Stores(h[p := b], r, partial, Entry(p, |b|), s)
  {
    hide Owned, Positioned, SlotHolds;
    AllocateOwners(h, r, partial, p, b);
    AllocateBytes(h, p, b);
    FreshHasNoOwner(h, r, partial, ZERO, p);
    OthersUnchanged(h, h[p := b], r, partial, s, p);
  }

  lemma AllocateOwners(h: Heap, r: Ring, partial: Entry, p: Ptr, b: Bytes)
    requires Owned(h, Owners(r, partial, ZERO)) && p != NULL && p !in h && |b| < TWO_64
    ensures Owned(h[p := b], Owners(r, partial, Entry(p, |b|)))
  {
    hide Owned;
    var k := |r.entry| + 1;
    OwnAllocated(h, Owners(r, partial, ZERO), k, p, b);
    assert Owners(r, partial, ZERO)[k := Entry(p, |b|)] == Owners(r, partial, Entry(p, |b|));
  }

  lemma AllocateBytes(h: Heap, p: Ptr, b: Bytes)
    requires p !in h
    ensures HeapBytes(h[p := b]) == HeapBytes(h) + |b|
  {
    HeapBytesWithout(h[p := b], p);
    assert h[p := b] - {p} == h;
  }

  lemma FillStores(h: Heap, r: Ring, partial: Entry, hand: Entry, s: Log, b: Bytes)
    requires Stores(h, r, partial, hand, s) && hand.buffptr != NULL && |b| == hand.size
    ensures Stores(h[hand.buffptr := b], r, partial, hand, s)
  {
    hide Owned, Positioned, SlotHolds;
    var p, h' := hand.buffptr, h[hand.buffptr := b];
    HandIsOwned(h, r, partial, hand);
    OwnOverwritten(h, Owners(r, partial, hand), p, b);
    HeapBytesWithout(h, p);
    HeapBytesWithout(h', p);
    assert h' - {p} == h - {p};
    OnlyOwner(h, r, partial, hand, |r.entry| + 1);
    OthersUnchanged(h, h', r, partial, s, p);
  }

  lemma HandIsOwned(h: Heap, r: Ring, partial: Entry, hand: Entry)
    requires Owned(h, Owners(r, partial, hand)) && hand.buffptr != NULL
    ensures hand.buffptr in h && |h[hand.buffptr]| == hand.size
    ensures Owners(r, partial, hand)[|r.entry| + 1] == hand
  {
    assert Owners(r, partial, hand)[|r.entry| + 1] == hand;
  }

  lemma FreeHandStores(h: Heap, r: Ring, partial: Entry, hand: Entry, s: Log)
    requires Stores(h, r, partial, hand, s)
    ensures Stores(h - {hand.buffptr}, r, partial, ZERO, s)
  {
    hide Owned;
    var N, h' := |r.entry|, h - {hand.buffptr};
    var owners := Owners(r, partial, hand);
    assert owners[N + 1] == hand;
    OwnFreed(h, owners, N + 1);
    assert owners[N + 1 := ZERO] == Owners(r, partial, ZERO);
    FreeBytes(h, owners, N + 1);
    if hand.buffptr != NULL {
      OnlyOwner(h, r, partial, hand, N + 1);
      OthersUnchanged(h, h', r, partial, s, hand.buffptr);
    }
  }

  /** The partial record gives up its buffer; its bytes are now in the hands of the call. */
  lemma FreePartialStores(h: Heap, r: Ring, partial: Entry, hand: Entry, s: Log)
    requires Stores(h, r, partial, hand, s)
    ensures Stores(h - {partial.buffptr}, r, ZERO, hand, Log(s.entries, []))
    ensures Content(h - {partial.buffptr}, hand) == Content(h, hand)
  {
    hide Owned;
    var N, h', s' := |r.entry|, h - {partial.buffptr}, Log(s.entries, []);
    var owners := Owners(r, partial, hand);
    assert owners[N] == partial && owners[N + 1] == hand;
    OwnFreed(h, owners, N);
    assert owners[N := ZERO] == Owners(r, ZERO, hand);
    FreeBytes(h, owners, N);
    if partial.buffptr != NULL {
      OnlyOwner(h, r, partial, hand, N);
    }
    forall j | 0 <= j < N
      ensures SlotHolds(h', r, s', j)
    {
      assert SlotHolds(h, r, s, j);
    }
  }

  /** Adding the buffer in hand commits it; the call now holds the overwritten record. */
  lemma CommitStores(h: Heap, r: Ring, hand: Entry, s: Log)
    requires Stores(h, r, ZERO, hand, s) && EndsLine(Content(h, hand))
    ensures Stores(h, Add(r, hand), ZERO, Overwritten(r), Log(s.entries + [Content(h, hand)], []))
  {
    hide Owned, Positioned;
    AddPositioned(r, |s.entries|, hand);
    CommitOwners(h, r, hand);
    forall j: nat | j < |r.entry|
      ensures SlotHolds(h, Add(r, hand), Log(s.entries + [Content(h, hand)], []), j)
    {
      CommitSlot(h, r, hand, s, j);
    }
  }

  lemma CommitOwners(h: Heap, r: Ring, hand: Entry)
    requires r.InRange() && Owned(h, Owners(r, ZERO, hand))
    ensures Owned(h, Owners(Add(r, hand), ZERO, Overwritten(r)))
  {
    var owners, w, k := Owners(r, ZERO, hand), r.inOffs, |r.entry| + 1;
    OwnSwapped(h, owners, w, k);
    assert owners[w := owners[k]][k := owners[w]] == r.entry[w := hand] + [ZERO, Overwritten(r)];
    assert Add(r, hand).entry == r.entry[w := hand];
  }

  lemma CommitSlot(h: Heap, r: Ring, hand: Entry, s: Log, j: nat)
    requires Positioned(r, |s.entries|) && j < |r.entry| && SlotHolds(h, r, s, j)
    ensures SlotHolds(h, Add(r, hand), Log(s.entries + [Content(h, hand)], []), j)
  {
    LogIndexStep(|s.entries|, |r.entry|, j);
    assert Add(r, hand).entry == r.entry[r.inOffs := hand];
  }

  lemma OnlyHandIsNotNull(h: Heap, r: Ring, hand: Entry)
    requires Owned(h, Owners(r, ZERO, hand)) && hand.size > 0
    ensures hand.buffptr != NULL && |Content(h, hand)| == hand.size
  {
    assert Owners(r, ZERO, hand)[|r.entry| + 1] == hand;
  }

  /** The buffer in hand becomes the partial record. */
  lemma KeepPartialStores(h: Heap, r: Ring, hand: Entry, s: Log)
    requires Stores(h, r, ZERO, hand, s)
    requires hand.size > 0 && !EndsLine(Content(h, hand))
    ensures Stores(h, r, hand, ZERO, Log(s.entries, Content(h, hand)))
  {
    hide Owned;
    var N, s' := |r.entry|, Log(s.entries, Content(h, hand));
    OnlyHandIsNotNull(h, r, hand);
    var owners := Owners(r, ZERO, hand);
    assert owners[N] == ZERO && owners[N + 1] == hand;
    OwnSwapped(h, owners, N, N + 1);
    assert owners[N := owners[N + 1]][N + 1 := owners[N]] == Owners(r, hand, ZERO);
    forall j: nat | j < N
      ensures SlotHolds(h, r, s', j)
    {
      assert SlotHolds(h, r, s, j);
    }
  }

  /** Between calls the owners are the slots and the partial record: at most one more live buffer
      than slots, and as many live bytes as the cached size and the partial size say. */
  lemma LiveBuffers(h: Heap, r: Ring, partial: Entry, s: Log)
    requires Stores(h, r, partial, ZERO, s)
    ensures Owned(h, r.entry + [partial])
    ensures |h| <= |r.entry| + 1
    ensures HeapBytes(h) == r.size + partial.size
  {
    var owners := r.entry + [partial];
    assert Owners(r, partial, ZERO) == owners + [ZERO];
    OwnedWithoutLast(h, owners);
    LiveBytes(h, owners);
    TotalSizeConcat(r.entry, [partial]);
    assert TotalSize([partial]) == partial.size;
  }

  lemma OwnedWithoutLast(h: Heap, owners: seq<Entry>)
    requires Owned(h, owners + [ZERO])
    ensures Owned(h, owners)
  {
    var all := owners + [ZERO];
    forall i | 0 <= i < |owners|
      ensures owners[i] == all[i]
    {
    }
    forall p | p in h
      ensures exists i :: 0 <= i < |owners| && owners[i].buffptr == p
    {
      var i :| 0 <= i < |all| && all[i].buffptr == p;
      assert owners[i].buffptr == p;
    }
  }

  // ---------------------------------------------------------------------------- for the above

  /** A buffer with an owner has no other. */
  lemma OnlyOwner(h: Heap, r: Ring, partial: Entry, hand: Entry, k: nat)
    requires Owned(h, Owners(r, partial, hand))
    requires |r.entry| <= k < |r.entry| + 2 && Owners(r, partial, hand)[k].buffptr != NULL
    ensures forall j :: 0 <= j < |r.entry| ==> r.entry[j].buffptr != Owners(r, partial, hand)[k].buffptr
    ensures partial.buffptr == NULL || partial.buffptr != hand.buffptr
  {
    var owners := Owners(r, partial, hand);
    forall j | 0 <= j < |r.entry|
      ensures r.entry[j].buffptr != owners[k].buffptr
    {
      assert owners[j] == r.entry[j];
    }
    assert owners[|r.entry|] == partial && owners[|r.entry| + 1] == hand;
  }

  /** An owner's buffer is live, so a free address has no owner. */
  lemma FreshHasNoOwner(h: Heap, r: Ring, partial: Entry, hand: Entry, p: Ptr)
    requires Owned(h, Owners(r, partial, hand)) && p != NULL && p !in h
    ensures partial.buffptr != p && forall j :: 0 <= j < |r.entry| ==> r.entry[j].buffptr != p
  {
    var owners := Owners(r, partial, hand);
    assert owners[|r.entry|] == partial;
    forall j | 0 <= j < |r.entry|
      ensures r.entry[j].buffptr != p
    {
      assert owners[j] == r.entry[j];
    }
  }

  /** A change at one address that is neither in a slot nor partial changes nothing stored. */
  lemma OthersUnchanged(h: Heap, h': Heap, r: Ring, partial: Entry, s: Log, p: Ptr)
    requires forall q :: q != p ==> (q in h <==> q in h') && (q in h ==> h[q] == h'[q])
    requires partial.buffptr != p && forall j :: 0 <= j < |r.entry| ==> r.entry[j].buffptr != p
    requires forall j :: 0 <= j < |r.entry| ==> SlotHolds(h, r, s, j)
    ensures forall j :: 0 <= j < |r.entry| ==> SlotHolds(h', r, s, j)
    ensures Content(h', partial) == Content(h, partial)
  {
    forall j: nat | j < |r.entry|
      ensures SlotHolds(h', r, s, j)
    {
      assert SlotHolds(h, r, s, j);
    }
  }

  lemma FreeBytes(h: Heap, owners: seq<Entry>, k: nat)
    requires Owned(h, owners) && k < |owners|
    ensures HeapBytes(h - {owners[k].buffptr}) <= HeapBytes(h)
    ensures owners[k].buffptr == NULL ==> h - {owners[k].buffptr} == h
  {
    assert EntryOk(h, owners[k]);
    if owners[k].buffptr == NULL {
      assert h - {NULL} == h;
    } else {
      HeapBytesWithout(h, owners[k].buffptr);
    }
  }
}
