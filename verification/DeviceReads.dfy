/** Reading and seeking over a state that stores a log: the offset search delivers the bytes of
    the flat contents, and the ioctl seek lands where its caller means only in some states. */
module DeviceReads {
  import opened Machine
  import opened Sequences
  import opened EntryRing
  import opened Find
  import opened DeviceLog
  import opened Ownership
  import opened DeviceState

  function Contents(h: Heap, es: seq<Entry>): seq<Bytes> {
    seq(|es|, i requires 0 <= i < |es| => Content(h, es[i]))
  }

  lemma {:induction false} ContentsSize(h: Heap, es: seq<Entry>)
    requires forall i :: 0 <= i < |es| ==> |Content(h, es[i])| == es[i].size
    ensures |Flatten(Contents(h, es))| == TotalSize(es)
  {
    if es != [] {
      assert Contents(h, es)[1..] == Contents(h, es[1..]);
      ContentsSize(h, es[1..]);
    }
  }

  /** The entries a reader can see. */
  function Visible(r: Ring, s: Log): seq<Bytes> {
    LastN(s.entries, |r.entry|)
  }

  /** In walk order the slots hold the visible entries, then nothing. */
  lemma WalkIsVisible(h: Heap, r: Ring, partial: Entry, hand: Entry, s: Log)
    requires Stores(h, r, partial, hand, s)
    ensures var m := |Visible(r, s)|;
            && m <= |r.Walk()| == |r.entry|
            && Contents(h, r.Walk()[..m]) == Visible(r, s)
            && (forall i :: m <= i < |r.Walk()| ==> r.Walk()[i] == ZERO)
            && (forall i :: 0 <= i < |r.Walk()| ==> |Content(h, r.Walk()[i])| == r.Walk()[i].size)
  {
    var m := |Visible(r, s)|;
    forall i: nat | i < |r.entry|
      ensures if i < m then Content(h, r.Walk()[i]) == Visible(r, s)[i] else r.Walk()[i] == ZERO
      ensures |Content(h, r.Walk()[i])| == r.Walk()[i].size
    {
      WalkSlot(h, r, partial, hand, s, i);
    }
    hide Stores;
  }

  lemma WalkSlot(h: Heap, r: Ring, partial: Entry, hand: Entry, s: Log, i: nat)
    requires Stores(h, r, partial, hand, s) && i < |r.entry|
    ensures |r.Walk()| == |r.entry|
    ensures if i < |Visible(r, s)| then Content(h, r.Walk()[i]) == Visible(r, s)[i] else r.Walk()[i] == ZERO
    ensures |Content(h, r.Walk()[i])| == r.Walk()[i].size
  {
    WalkLogIndex(r, |s.entries|, i);
    assert SlotHolds(h, r, s, r.SlotAt(i));
    assert Owners(r, partial, hand)[r.SlotAt(i)] == r.Walk()[i];
  }

  lemma VisibleAt(h: Heap, r: Ring, partial: Entry, hand: Entry, s: Log, k: nat)
    requires Stores(h, r, partial, hand, s) && k < |Visible(r, s)|
    ensures k < |r.entry|
    ensures r.Walk()[k].buffptr in h && h[r.Walk()[k].buffptr] == Visible(r, s)[k]
    ensures r.Walk()[k].size == |Visible(r, s)[k]|
  {
    WalkIsVisible(h, r, partial, hand, s);
    assert Contents(h, r.Walk()[..|Visible(r, s)|])[k] == Content(h, r.Walk()[k]);
    assert EndsLine(Visible(r, s)[k]);
  }

  lemma UnusedAt(h: Heap, r: Ring, partial: Entry, hand: Entry, s: Log, k: nat)
    requires Stores(h, r, partial, hand, s) && |Visible(r, s)| <= k < |r.entry|
    ensures r.Walk()[k].size == 0
  {
    WalkIsVisible(h, r, partial, hand, s);
  }

  lemma WalkSizes(h: Heap, r: Ring, partial: Entry, hand: Entry, s: Log, k: nat)
    requires Stores(h, r, partial, hand, s) && k <= |Visible(r, s)|
    ensures k <= |r.Walk()| && TotalSize(r.Walk()[..k]) == |Flatten(Visible(r, s)[..k])|
  {
    WalkIsVisible(h, r, partial, hand, s);
    assert Contents(h, r.Walk()[..k]) == Visible(r, s)[..k];
    ContentsSize(h, r.Walk()[..k]);
  }

  /** The slots hold fewer than 2^63 bytes, all of them in visible entries. */
  lemma VisibleTotal(h: Heap, r: Ring, partial: Entry, hand: Entry, s: Log)
    requires Stores(h, r, partial, hand, s)
    ensures TotalSize(r.Walk()) == TotalSize(r.entry) == |Flatten(Visible(r, s))| < TWO_63
    ensures r.size == |Flatten(Visible(r, s))|
  {
    var m, walk := |Visible(r, s)|, r.Walk();
    WalkIsVisible(h, r, partial, hand, s);
    WalkSizes(h, r, partial, hand, s, m);
    assert Visible(r, s)[..m] == Visible(r, s);
    assert walk == walk[..m] + walk[m..];
    TotalSizeConcat(walk[..m], walk[m..]);
    TotalSizeZero(walk[m..]);
    WalkTotal(r);
    LiveBytes(h, Owners(r, partial, hand));
    TotalSizeConcat(r.entry, [partial, hand]);
  }

  /** The search followed by the copy delivers exactly the next read of the flat contents. */
  lemma LocateReads(h: Heap, r: Ring, partial: Entry, hand: Entry, s: Log, off: SizeT)
    requires Stores(h, r, partial, hand, s)
    ensures match Locate(r, off)
            case NotFound => ReadAt(Visible(r, s), off) == []
            case Found(slot, o) =>
              && r.entry[slot].buffptr in h
              && o < r.entry[slot].size == |h[r.entry[slot].buffptr]|
              && h[r.entry[slot].buffptr][o..] == ReadAt(Visible(r, s), off) != []
  {
    hide Stores;
    VisibleTotal(h, r, partial, hand, s);
    FindIsFlat(r.Walk(), off);
    match FindIn(r.Walk(), off) {
      case NotFound =>
        ReadAtIsFlat(Visible(r, s), off);
      case Found(k, o) =>
        FoundReads(h, r, partial, hand, s, off, k, o);
    }
  }

  lemma FoundReads(h: Heap, r: Ring, partial: Entry, hand: Entry, s: Log, off: nat, k: nat, o: nat)
    requires Stores(h, r, partial, hand, s) && LiesAt(r.Walk(), off, k, o)
    ensures var e := r.Walk()[k];
            && e.buffptr in h && o < e.size == |h[e.buffptr]|
            && h[e.buffptr][o..] == ReadAt(Visible(r, s), off) != []
  {
    hide Stores;
    if k >= |Visible(r, s)| {
      UnusedAt(h, r, partial, hand, s, k);
    } else {
      VisibleAt(h, r, partial, hand, s, k);
      WalkSizes(h, r, partial, hand, s, k);
      ReadAtInside(Visible(r, s), k, o);
    }
  }

  // ------------------------------------------------------------- slots, seen from the log

  /** The size of physical slot `j` when a log with these entries is stored. */
  function SlotSize(entries: seq<Bytes>, capacity: nat, j: nat): nat
    requires j < capacity
  {
    var k := LogIndex(|entries|, capacity, j);
    if 0 <= k < |entries| then |entries[k]| else 0
  }

  /** The sizes of the first `m` physical slots together. */
  function SlotSum(entries: seq<Bytes>, capacity: nat, m: nat): nat
    requires m <= capacity
  {
    if m == 0 then 0 else SlotSum(entries, capacity, m - 1) + SlotSize(entries, capacity, m - 1)
  }

  lemma SlotSizeStored(h: Heap, r: Ring, partial: Entry, hand: Entry, s: Log, j: nat)
    requires Stores(h, r, partial, hand, s) && j < |r.entry|
    ensures r.entry[j].size == SlotSize(s.entries, |r.entry|, j)
  {
    assert SlotHolds(h, r, s, j);
    assert Owners(r, partial, hand)[j] == r.entry[j];
  }

  lemma {:induction false} SlotSumStored(h: Heap, r: Ring, partial: Entry, hand: Entry, s: Log, m: nat)
    requires Stores(h, r, partial, hand, s) && m <= |r.entry|
    ensures TotalSize(r.entry[..m]) == SlotSum(s.entries, |r.entry|, m)
  {
    hide Stores, SlotSize;
    if m > 0 {
      SlotSumStored(h, r, partial, hand, s, m - 1);
      SlotSizeStored(h, r, partial, hand, s, m - 1);
      PrefixSplit(r.entry, m - 1);
    }
  }

  // ----------------------------------------------------------------------- the ioctl seek

  function Min(a: nat, b: nat): nat {
    if a < b then a else b
  }

  /** The offset the ioctl adds up, over slots in physical order. */
  function SeekOffset(r: Ring, cmd: UInt32, off: UInt32): Loff {
    ToLoff(TotalSize(r.entry[..Min(cmd, |r.entry|)]) + off)
  }

  /** The position it asks for, relative to the position before. */
  function SeekTarget(fPos: Loff, r: Ring, cmd: UInt32, off: UInt32): Loff {
    ToLoff(fPos + SeekOffset(r, cmd, off))
  }

  /** A request that names a byte of a visible entry. */
  ghost predicate InRequest(r: Ring, s: Log, cmd: UInt32, off: UInt32) {
    cmd < |Visible(r, s)| && off < |Visible(r, s)[cmd]|
  }

  /** The seek lands on the byte that the request names. */
  ghost predicate Lands(fPos: Loff, r: Ring, s: Log, cmd: UInt32, off: UInt32)
    requires InRequest(r, s, cmd, off)
  {
    SeekTarget(fPos, r, cmd, off) == |Flatten(Visible(r, s)[..cmd])| + off
  }

  lemma {:induction false} SamePrefixes(a: seq<Entry>, b: seq<Entry>, k: nat)
    requires k <= |a| && k <= |b|
    requires forall i :: 0 <= i < k ==> a[i].size == b[i].size
    ensures TotalSize(a[..k]) == TotalSize(b[..k])
  {
    if k > 0 {
      SamePrefixes(a, b, k - 1);
      PrefixSplit(a, k - 1);
      PrefixSplit(b, k - 1);
    }
  }

  lemma SeekArithmetic(f: int, p: int, o: int, l: int)
    requires 0 <= f < TWO_63 && 0 <= p < TWO_63 && 0 <= l && 0 <= o && l + o < TWO_63
    ensures ToLoff(f + ToLoff(p + o)) == l + o <==> f + p == l
  {
  }

  lemma PhysicalPrefixFits(h: Heap, r: Ring, partial: Entry, hand: Entry, s: Log, k: nat)
    requires Stores(h, r, partial, hand, s) && k <= |r.entry|
    ensures TotalSize(r.entry[..k]) < TWO_63
  {
    hide Stores;
    VisibleTotal(h, r, partial, hand, s);
    PrefixMonotone(r.entry, k, |r.entry|);
    assert r.entry[..|r.entry|] == r.entry;
  }

  lemma LandsWhen(h: Heap, r: Ring, partial: Entry, s: Log, fPos: Loff, cmd: UInt32, off: UInt32)
    requires Stores(h, r, partial, ZERO, s) && InRequest(r, s, cmd, off) && fPos >= 0
    ensures cmd < |r.entry|
    ensures Lands(fPos, r, s, cmd, off) <==>
              fPos + TotalSize(r.entry[..cmd]) == TotalSize(r.Walk()[..cmd])
  {
    hide Stores;
    VisibleAt(h, r, partial, ZERO, s, cmd);
    VisibleTotal(h, r, partial, ZERO, s);
    WalkSizes(h, r, partial, ZERO, s, cmd);
    PhysicalPrefixFits(h, r, partial, ZERO, s, cmd);
    PrefixSplit(r.Walk(), cmd);
    SeekArithmetic(fPos, TotalSize(r.entry[..cmd]), off, |Flatten(Visible(r, s)[..cmd])|);
  }

  /** Every request for a visible byte lands on it. */
  ghost predicate AllLand(fPos: Loff, r: Ring, s: Log) {
    forall cmd: UInt32, off: UInt32 | InRequest(r, s, cmd, off) :: Lands(fPos, r, s, cmd, off)
  }

  /** Among the visible entries but the last, each slot has the size of the entry it is
      mistaken for. */
  predicate SameSizesInPlace(r: Ring, m: nat)
    requires r.InRange()
  {
    m <= |r.entry| && forall k :: 0 <= k < m - 1 ==> r.entry[k].size == r.Walk()[k].size
  }

  /** The ioctl seek is right for every request exactly when there is nothing to seek in, or the
      position before is 0 and walking slots in physical order passes the same sizes. */
  lemma SeekLandsIff(h: Heap, r: Ring, partial: Entry, s: Log, fPos: Loff)
    requires Stores(h, r, partial, ZERO, s) && fPos >= 0
    ensures AllLand(fPos, r, s) <==>
              |Visible(r, s)| == 0 || (fPos == 0 && SameSizesInPlace(r, |Visible(r, s)|))
  {
    hide Stores;
    var m := |Visible(r, s)|;
    WalkIsVisible(h, r, partial, ZERO, s);
    if m > 0 {
      if AllLand(fPos, r, s) {
        forall k: nat | k < m
          ensures fPos == 0 && TotalSize(r.entry[..k]) == TotalSize(r.Walk()[..k])
        {
          FirstBytesLand(h, r, partial, s, fPos, 0);
          FirstBytesLand(h, r, partial, s, fPos, k);
        }
        forall k: nat | k < m - 1
          ensures r.entry[k].size == r.Walk()[k].size
        {
          PrefixSplit(r.entry, k);
          PrefixSplit(r.Walk(), k);
          assert TotalSize(r.entry[..k + 1]) == TotalSize(r.Walk()[..k + 1]);
        }
        assert TotalSize(r.entry[..0]) == TotalSize(r.Walk()[..0]) && fPos == 0;
        assert SameSizesInPlace(r, m);
      }
      if fPos == 0 && SameSizesInPlace(r, m) {
        forall cmd: UInt32, off: UInt32 | InRequest(r, s, cmd, off)
          ensures Lands(fPos, r, s, cmd, off)
        {
          LandsWhen(h, r, partial, s, fPos, cmd, off);
          SamePrefixes(r.entry, r.Walk(), cmd);
        }
        assert AllLand(fPos, r, s);
      }
    }
  }

  lemma FirstBytesLand(h: Heap, r: Ring, partial: Entry, s: Log, fPos: Loff, k: nat)
    requires Stores(h, r, partial, ZERO, s) && fPos >= 0
    requires AllLand(fPos, r, s) && k < |Visible(r, s)|
    ensures k < |r.entry| && fPos + TotalSize(r.entry[..k]) == TotalSize(r.Walk()[..k])
  {
    hide Stores;
    WalkIsVisible(h, r, partial, ZERO, s);
    assert EndsLine(Visible(r, s)[k]);
    assert InRequest(r, s, k, 0);
    LandsWhen(h, r, partial, s, fPos, k, 0);
  }

  /** From position 0, with the oldest entry in slot 0, the seek followed by a search finds the
      requested byte of the requested entry. */
  lemma SeekFindRoundTrip(h: Heap, r: Ring, partial: Entry, s: Log, cmd: UInt32, off: UInt32)
    requires Stores(h, r, partial, ZERO, s) && r.outOffs == 0 && InRequest(r, s, cmd, off)
    ensures SeekTarget(0, r, cmd, off) >= 0
    ensures Locate(r, SeekTarget(0, r, cmd, off)) == Found(cmd, off)
    ensures cmd < |r.entry| && Content(h, r.entry[cmd]) == Visible(r, s)[cmd]
  {
    hide Stores;
    assert r.Walk() == r.entry;
    VisibleAt(h, r, partial, ZERO, s, cmd);
    VisibleTotal(h, r, partial, ZERO, s);
    WalkSizes(h, r, partial, ZERO, s, cmd);
    LandsWhen(h, r, partial, s, 0, cmd, off);
    var target := SeekTarget(0, r, cmd, off);
    FindIsFlat(r.entry, target);
    assert LiesAt(r.entry, target, cmd, off);
    match FindIn(r.entry, target) {
      case NotFound =>
        PrefixSplit(r.entry, cmd);
      case Found(k, o) =>
        LiesAtUnique(r.entry, target, k, o, cmd, off);
    }
  }

  /** Eleven entries in ten slots: the oldest visible entry has one byte, the newest, in slot 0,
      has two. A seek to entry 1 passes slot 0 and lands one byte too far. */
  lemma SeekMissesAfterWrap()
    ensures var log := seq(11, i requires 0 <= i < 11 => Entry(i + 1, if i == 10 then 2 else 1));
            var r := AddAll(10, log);
            && r.Walk()[0] == log[1] && r.entry[0] == log[10]
            && SeekTarget(0, r, 1, 0) == 2 && TotalSize(r.Walk()[..1]) == 1
  {
    var log := seq(11, i requires 0 <= i < 11 => Entry(i + 1, if i == 10 then 2 else 1));
    EleventhInFront(log);
    SumsPastSlotZero(AddAll(10, log), AddAll(10, log).Walk());
  }

  lemma EleventhInFront(log: seq<Entry>)
    requires |log| == 11
    ensures var r := AddAll(10, log); r.Walk()[0] == log[1] && r.entry[0] == log[10] && |r.entry| == |r.Walk()| == 10
  {
    hide AddAll;
    RingRefinesLog(10, log);
    AddAllHolds(10, log);
    assert LogIndex(11, 10, 0) == 10;
    assert LastN(log, 10)[0] == log[1];
  }

  lemma SumsPastSlotZero(r: Ring, walk: seq<Entry>)
    requires |r.entry| > 1 && |walk| > 0 && r.entry[0].size == 2
    ensures SeekTarget(0, r, 1, 0) == 2 && TotalSize(walk[..1]) == walk[0].size
  {
    PrefixSplit(r.entry, 0);
    PrefixSplit(walk, 0);
  }
}
