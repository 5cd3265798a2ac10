/** Translating a flat position into an entry and an offset, with the 64-bit sums of the code,
    against flat indexing into the concatenated entries. */
module Find {
  import opened Machine
  import opened EntryRing

  datatype Position = NotFound | Found(index: nat, offset: SizeT)

  /** The search loop from slot `i` on: the slot where it stops and the wrapped running total
      there. `total` is the running total of the slots before `i`. */
  function Scan(es: seq<Entry>, i: nat, total: SizeT, off: SizeT): (stop: (nat, SizeT))
    requires i < |es|
    ensures i <= stop.0 < |es|
    decreases |es| - i
  {
    var total' := ToSize(total + es[i].size);
    if total' > off || i + 1 == |es| then (i, total') else Scan(es, i + 1, total', off)
  }

  /** What the search answers over slots in walk order. */
  function FindIn(es: seq<Entry>, off: SizeT): (p: Position)
    requires es != []
    ensures p.Found? ==> p.index < |es|
  {
    var (k, total) := Scan(es, 0, 0, off);
    if off >= total then NotFound else Found(k, ToSize(off - ToSize(total - es[k].size)))
  }

  /** The same answer as a physical slot of the ring. */
  function Locate(r: Ring, off: SizeT): (p: Position)
    requires r.InRange()
    ensures p.Found? ==> p.index < |r.entry|
  {
    match FindIn(r.Walk(), off)
    case NotFound => NotFound
    case Found(k, o) => Found(r.SlotAt(k), o)
  }

  lemma PrefixSplit(es: seq<Entry>, k: nat)
    requires k < |es|
    ensures TotalSize(es[..k + 1]) == TotalSize(es[..k]) + es[k].size
    ensures TotalSize(es[..k + 1]) <= TotalSize(es)
  {
    assert es[..k + 1] == es[..k] + [es[k]];
    TotalSizeConcat(es[..k], [es[k]]);
    assert es == es[..k + 1] + es[k + 1..];
    TotalSizeConcat(es[..k + 1], es[k + 1..]);
  }

  lemma PrefixMonotone(es: seq<Entry>, i: nat, j: nat)
    requires i <= j <= |es|
    ensures TotalSize(es[..i]) <= TotalSize(es[..j])
  {
    assert es[..j] == es[..i] + es[i..j];
    TotalSizeConcat(es[..i], es[i..j]);
  }

  lemma {:induction false} ScanIsFlat(es: seq<Entry>, i: nat, total: SizeT, off: SizeT)
    requires i < |es| && total == TotalSize(es[..i]) <= off && TotalSize(es) < TWO_64
    ensures var (k, t) := Scan(es, i, total, off);
            && t == TotalSize(es[..k + 1])
            && TotalSize(es[..k]) <= off
            && (off >= t ==> k + 1 == |es|)
    decreases |es| - i
  {
    PrefixSplit(es, i);
    var total' := total + es[i].size;
    if !(total' > off || i + 1 == |es|) {
      ScanIsFlat(es, i + 1, total', off);
    }
  }

  /** Flat indexing: position `off` of the concatenation lies `o` bytes into entry `k`. */
  ghost predicate LiesAt(es: seq<Entry>, off: nat, k: nat, o: nat) {
    k < |es| && o < es[k].size && TotalSize(es[..k]) + o == off
  }

  /** At most one entry and offset name a flat position. */
  lemma LiesAtUnique(es: seq<Entry>, off: nat, k: nat, o: nat, k': nat, o': nat)
    requires LiesAt(es, off, k, o) && LiesAt(es, off, k', o')
    ensures k == k' && o == o'
  {
    PrefixSplit(es, k);
    PrefixSplit(es, k');
    if k < k' {
      PrefixMonotone(es, k + 1, k');
    } else if k' < k {
      PrefixMonotone(es, k' + 1, k);
    }
  }

  /** What `aesd_circular_buffer_find_entry_offset_for_fpos` promises for one position. */
  ghost predicate Agrees(es: seq<Entry>, off: SizeT)
    requires es != []
  {
    match FindIn(es, off)
    case NotFound => off >= TotalSize(es)
    case Found(k, o) => LiesAt(es, off, k, o)
  }

  /** As long as the sum of the sizes fits a size_t, the search is flat indexing. */
  lemma FindIsFlat(es: seq<Entry>, off: SizeT)
    requires es != [] && TotalSize(es) < TWO_64
    ensures Agrees(es, off)
  {
    ScanIsFlat(es, 0, 0, off);
    var (k, t) := Scan(es, 0, 0, off);
    PrefixSplit(es, k);
    if off >= t {
      assert es[..k + 1] == es;
    } else {
      assert t - es[k].size == TotalSize(es[..k]);
    }
  }

  /** The search agrees with flat indexing at every position exactly when the sum of the sizes
      fits a size_t. */
  lemma FindIsFlatIff(es: seq<Entry>)
    requires es != []
    ensures (forall off: SizeT :: Agrees(es, off)) <==> TotalSize(es) < TWO_64
  {
    if TotalSize(es) < TWO_64 {
      forall off: SizeT
        ensures Agrees(es, off)
      {
        FindIsFlat(es, off);
      }
    } else {
      // the wrapped total never exceeds the largest offset
      assert !Agrees(es, TWO_64 - 1);
    }
  }
}
