/** The ring of entries as a value: what the circular buffer of the driver computes, and why
    it holds exactly the last entries of an append-only log. */
module EntryRing {
  import opened Machine
  import opened Sequences

  /** An address handed out by the allocator; 0 is the null pointer. */
  type Ptr = nat
  const NULL: Ptr := 0

  datatype Entry = Entry(buffptr: Ptr, size: SizeT)

  const ZERO: Entry := Entry(NULL, 0)

  datatype Ring = Ring(entry: seq<Entry>, inOffs: nat, outOffs: nat, full: bool, size: SizeT) {

    /** Offsets are indices, and an 8-bit index can count past the last slot. */
    predicate InRange() {
      0 < |entry| <= 255 && inOffs < |entry| && outOffs < |entry|
    }

    /** The slots in the order a reader walks them, unused slots last. */
    function Walk(): seq<Entry>
      requires InRange()
    {
      entry[outOffs..] + entry[..outOffs]
    }

    /** The slot of the i-th step of the walk. */
    function SlotAt(i: nat): (slot: nat)
      requires InRange() && i < |entry|
      ensures slot < |entry| && Walk()[i] == entry[slot]
    {
      if outOffs + i < |entry| then outOffs + i else outOffs + i - |entry|
    }
  }

  function Init(capacity: nat): Ring {
    Ring(seq(capacity, _ => ZERO), 0, 0, false, 0)
  }

  /** The ring after one entry is added. */
  function Add(r: Ring, e: Entry): Ring
    requires r.InRange()
  {
    var inOffs := (r.inOffs + 1) % |r.entry|;
    var entry := r.entry[r.inOffs := e];
    var size := ToSize(r.size + e.size);
    if r.full then
      Ring(entry, inOffs, (r.outOffs + 1) % |r.entry|, true, ToSize(size - r.entry[r.inOffs].size))
    else
      Ring(entry, inOffs, r.outOffs, inOffs == r.outOffs, size)
  }

  /** The record that adding an entry overwrites. */
  function Overwritten(r: Ring): Entry
    requires r.InRange()
  {
    r.entry[r.inOffs]
  }

  /** The ring after adding a whole log of entries to an empty ring. */
  function AddAll(capacity: nat, log: seq<Entry>): (r: Ring)
    requires 0 < capacity <= 255
    ensures r.InRange() && |r.entry| == capacity
  {
    if log == [] then Init(capacity) else Add(AddAll(capacity, log[..|log| - 1]), Last(log))
  }

  function TotalSize(es: seq<Entry>): nat {
    if es == [] then 0 else es[0].size + TotalSize(es[1..])
  }

  lemma {:induction false} TotalSizeConcat(a: seq<Entry>, b: seq<Entry>)
    ensures TotalSize(a + b) == TotalSize(a) + TotalSize(b)
  {
    if a == [] {
      assert a + b == b;
    } else {
      assert (a + b)[1..] == a[1..] + b;
      TotalSizeConcat(a[1..], b);
    }
  }

  lemma TotalSizeUpdate(es: seq<Entry>, i: nat, e: Entry)
    requires i < |es|
    ensures TotalSize(es[i := e]) == TotalSize(es) - es[i].size + e.size
  {
    assert es[i := e] == es[..i] + ([e] + es[i + 1..]);
    assert es == es[..i] + ([es[i]] + es[i + 1..]);
    TotalSizeConcat(es[..i], [e] + es[i + 1..]);
    TotalSizeConcat(es[..i], [es[i]] + es[i + 1..]);
  }

  lemma {:induction false} TotalSizeZero(es: seq<Entry>)
    requires forall i :: 0 <= i < |es| ==> es[i] == ZERO
    ensures TotalSize(es) == 0
  {
    if es != [] {
      TotalSizeZero(es[1..]);
    }
  }

  // ------------------------------------------------------------ which log entry a slot holds

  /** The slot the next addition fills after `n` additions, counted around the ring. */
  function NextSlot(n: nat, capacity: nat): (slot: nat)
    requires 0 < capacity
    ensures slot < capacity
  {
    if n == 0 then 0
    else if NextSlot(n - 1, capacity) + 1 == capacity then 0
    else NextSlot(n - 1, capacity) + 1
  }

  /** Counted around the ring means modulo its capacity. */
  lemma {:induction false} NextSlotIsModulus(n: nat, capacity: nat)
    requires 0 < capacity
    ensures NextSlot(n, capacity) == n % capacity
    ensures n < capacity ==> NextSlot(n, capacity) == n
  {
    if n > 0 {
      NextSlotIsModulus(n - 1, capacity);
      ModSuccessor(n - 1, capacity);
    }
  }

  /** After `n` additions, the index in the log of the entry in slot `j`; negative if the slot
      was never written. */
  function LogIndex(n: nat, capacity: nat, j: nat): int
    requires j < capacity
  {
    var w := NextSlot(n, capacity);
    if j < w then n - w + j else n - w - capacity + j
  }

  lemma ModSuccessor(n: nat, m: nat)
    requires 0 < m
    ensures (n + 1) % m == if n % m + 1 == m then 0 else n % m + 1
  {
    var q, w := n / m, n % m;
    assert n == q * m + w;
    if w + 1 == m {
      assert n + 1 == (q + 1) * m;
      ModOfSum(q + 1, 0, m);
    } else {
      ModOfSum(q, w + 1, m);
    }
  }

  lemma MultipleOutside(d: int, m: int)
    requires m > 0
    ensures d >= 1 ==> d * m >= m
    ensures d <= -1 ==> d * m <= -m
  {
  }

  lemma ModOfSum(q: nat, w: nat, m: nat)
    requires w < m
    ensures (q * m + w) % m == w
  {
    var x := q * m + w;
    assert (x / m - q) * m == w - x % m;
    MultipleOutside(x / m - q, m);
  }

  /** One more addition fills the next slot and moves no other entry. */
  lemma LogIndexStep(n: nat, capacity: nat, j: nat)
    requires j < capacity
    ensures LogIndex(n + 1, capacity, j) == if j == NextSlot(n, capacity) then n else LogIndex(n, capacity, j)
  {
  }

  /** The offsets and the flag after `n` additions. */
  ghost predicate Positioned(r: Ring, n: nat) {
    && r.InRange()
    && r.inOffs == NextSlot(n, |r.entry|)
    && r.outOffs == (if n < |r.entry| then 0 else r.inOffs)
    && (r.full <==> n >= |r.entry|)
    && r.size == ToSize(TotalSize(r.entry))
    && (forall j :: 0 <= j < |r.entry| && LogIndex(n, |r.entry|, j) < 0 ==> r.entry[j] == ZERO)
  }

  lemma SmallMod(n: nat, m: nat)
    requires n < m
    ensures n % m == n
  {
  }

  lemma InitPositioned(capacity: nat)
    requires 0 < capacity <= 255
    ensures Positioned(Init(capacity), 0)
  {
    TotalSizeZero(Init(capacity).entry);
  }

  /** The slots never written stay zero. */
  lemma AddKeepsUnusedZero(r: Ring, n: nat, e: Entry, j: nat)
    requires Positioned(r, n) && j < |r.entry|
    requires LogIndex(n + 1, |r.entry|, j) < 0
    ensures Add(r, e).entry[j] == ZERO
  {
    LogIndexStep(n, |r.entry|, j);
  }

  lemma WrapAddSubtract(total: int, added: int, removed: int)
    ensures ToSize(ToSize(total) + added) == ToSize(total + added)
    ensures ToSize(ToSize(ToSize(total) + added) - removed) == ToSize(total + added - removed)
  {
  }

  /** The cached size stays congruent to the true sum even when the addition wraps before the
      subtraction. */
  lemma AddCachedSize(r: Ring, e: Entry)
    requires r.InRange() && r.size == ToSize(TotalSize(r.entry))
    requires !r.full ==> Overwritten(r) == ZERO
    ensures Add(r, e).size == ToSize(TotalSize(Add(r, e).entry))
  {
    TotalSizeUpdate(r.entry, r.inOffs, e);
    WrapAddSubtract(TotalSize(r.entry), e.size, Overwritten(r).size);
    assert Add(r, e).entry == r.entry[r.inOffs := e];
  }

  lemma {:induction false} AddOffsets(r: Ring, n: nat, e: Entry)
    requires Positioned(r, n)
    ensures var r' := Add(r, e); var N := |r.entry|;
            && r'.InRange()
            && r'.inOffs == NextSlot(n + 1, N)
            && r'.outOffs == (if n + 1 < N then 0 else r'.inOffs)
            && (r'.full <==> n + 1 >= N)
  {
    StepMod(r.inOffs, |r.entry|);
    StepMod(r.outOffs, |r.entry|);
    NextSlotIsModulus(n, |r.entry|);
    NextSlotIsModulus(n + 1, |r.entry|);
  }

  lemma StepMod(i: nat, m: nat)
    requires i < m
    ensures (i + 1) % m == if i + 1 == m then 0 else i + 1
  {
    if i + 1 < m {
      SmallMod(i + 1, m);
    }
  }

  /** The slot an addition overwrites is still unused until the ring is full. */
  lemma OverwrittenUnused(r: Ring, n: nat)
    requires Positioned(r, n) && !r.full
    ensures Overwritten(r) == ZERO
  {
    NextSlotIsModulus(n, |r.entry|);
    assert LogIndex(n, |r.entry|, n) < 0;
  }

  /** The arithmetic of one addition: the offsets, the flag and the cached size stay right. */
  lemma {:induction false} AddPositioned(r: Ring, n: nat, e: Entry)
    requires Positioned(r, n)
    ensures Positioned(Add(r, e), n + 1)
  {
    AddOffsets(r, n, e);
    if !r.full {
      OverwrittenUnused(r, n);
    }
    AddCachedSize(r, e);
    forall j: nat | j < |r.entry| && LogIndex(n + 1, |r.entry|, j) < 0
      ensures Add(r, e).entry[j] == ZERO
    {
      AddKeepsUnusedZero(r, n, e, j);
    }
  }

  /** Slot by slot, the ring holds the log entry that `LogIndex` names. */
  ghost predicate Holds(r: Ring, log: seq<Entry>) {
    && Positioned(r, |log|)
    && forall j :: 0 <= j < |r.entry| ==>
         var k := LogIndex(|log|, |r.entry|, j);
         k >= 0 ==> k < |log| && r.entry[j] == log[k]
  }

  lemma {:induction false} AddAllHolds(capacity: nat, log: seq<Entry>)
    requires 0 < capacity <= 255
    ensures Holds(AddAll(capacity, log), log)
  {
    if log == [] {
      InitPositioned(capacity);
    } else {
      var before, n := log[..|log| - 1], |log| - 1;
      AddAllHolds(capacity, before);
      AddPositioned(AddAll(capacity, before), n, Last(log));
      forall j | 0 <= j < capacity
        ensures LogIndex(n + 1, capacity, j) == if j == NextSlot(n, capacity) then n else LogIndex(n, capacity, j)
      {
        LogIndexStep(n, capacity, j);
      }
    }
  }

  /** The modulus the code computes gives the slots of the walk. */
  lemma SlotAtIsModulus(r: Ring, i: nat)
    requires r.InRange() && i < |r.entry|
    ensures Remainder(r.outOffs + i, |r.entry|) == r.SlotAt(i)
  {
    var N, x := |r.entry|, r.outOffs + i;
    if x < N {
      SmallMod(x, N);
    } else {
      ModOfSum(1, x - N, N);
    }
  }

  /** Walking from `outOffs` visits the last entries of the log in order, then unused slots. */
  lemma WalkLogIndex(r: Ring, n: nat, i: nat)
    requires Positioned(r, n) && i < |r.entry|
    ensures var k := LogIndex(n, |r.entry|, r.SlotAt(i));
            if n >= |r.entry| then k == n - |r.entry| + i else if i < n then k == i else k < 0
  {
    NextSlotIsModulus(n, |r.entry|);
  }

  /** The offsets are the number of additions around the ring. */
  lemma {:induction false} RingOffsets(capacity: nat, log: seq<Entry>)
    requires 0 < capacity <= 255
    ensures var r, n := AddAll(capacity, log), |log|;
            && r.inOffs == n % capacity
            && r.outOffs == (if n < capacity then 0 else n % capacity)
  {
    AddAllHolds(capacity, log);
    NextSlotIsModulus(|log|, capacity);
  }

  /** The ring refines the last `capacity` entries of an unbounded log. */
  lemma {:induction false} RingRefinesLog(capacity: nat, log: seq<Entry>)
    requires 0 < capacity <= 255
    ensures var r, n := AddAll(capacity, log), |log|;
            && (r.full <==> n >= capacity)
            && r.Walk() == LastN(log, capacity) + seq(capacity - |LastN(log, capacity)|, _ => ZERO)
            && Overwritten(r) == (if n < capacity then ZERO else log[n - capacity])
  {
    var r, n := AddAll(capacity, log), |log|;
    AddAllHolds(capacity, log);
    var expected := LastN(log, capacity) + seq(capacity - |LastN(log, capacity)|, _ => ZERO);
    forall i | 0 <= i < capacity
      ensures r.Walk()[i] == expected[i]
    {
      WalkLogIndex(r, n, i);
    }
    assert r.Walk() == expected;
    NextSlotIsModulus(n, capacity);
    if n < capacity {
      OverwrittenUnused(r, n);
    } else {
      WalkLogIndex(r, n, 0);
    }
  }

  lemma WalkTotal(r: Ring)
    requires r.InRange()
    ensures TotalSize(r.Walk()) == TotalSize(r.entry)
  {
    TotalSizeConcat(r.entry[r.outOffs..], r.entry[..r.outOffs]);
    TotalSizeConcat(r.entry[..r.outOffs], r.entry[r.outOffs..]);
    assert r.entry[..r.outOffs] + r.entry[r.outOffs..] == r.entry;
  }

  /** The cached size is the sum of all slot sizes modulo 2^64, and the sum itself whenever that
      fits a size_t. */
  lemma {:induction false} CachedSize(capacity: nat, log: seq<Entry>)
    requires 0 < capacity <= 255
    ensures var r := AddAll(capacity, log);
            && r.size == TotalSize(r.entry) % TWO_64
            && TotalSize(r.entry) == TotalSize(LastN(log, capacity))
            && (r.size == TotalSize(r.entry) <==> TotalSize(LastN(log, capacity)) < TWO_64)
  {
    var r, recent := AddAll(capacity, log), LastN(log, capacity);
    var unused := seq(capacity - |recent|, _ => ZERO);
    AddAllHolds(capacity, log);
    RingRefinesLog(capacity, log);
    WalkTotal(r);
    TotalSizeConcat(recent, unused);
    TotalSizeZero(unused);
  }
}
