/** The character device: its methods update the ring, the partial record and the heap in place,
    and are specified by the log they store. The outcome of taking the lock, of the allocator and
    of the copies from and to user memory are parameters. */
module AesdDevice {
  import opened Machine
  import opened Wrappers
  import opened EntryRing
  import Find
  import opened AesdCircularBuffer
  import opened DeviceLog
  import opened Ownership
  import opened DeviceState
  import opened DeviceReads

  const EINTR := 4
  const ENOMEM := 12
  const EFAULT := 14
  const EINVAL := 22
  const ENOTTY := 25

  const SEEK_SET := 0
  const SEEK_CUR := 1
  const SEEK_END := 2

  /** The kernel allocator, as far as the device uses it. Using or freeing a buffer that is not
      live is not allowed. */
  class KernelHeap {
    var live: Heap

    constructor ()
      ensures live == map[]
    {
      live := map[];
    }

    /** `address` is what the allocator finds, NULL when it finds nothing. */
    method Kmalloc(n: SizeT, address: Ptr) returns (p: Ptr)
      requires address == NULL || Allocatable(live, address, n)
      modifies this
      ensures p == address
      ensures p == NULL ==> live == old(live)
      ensures p != NULL ==> p in live && |live[p]| == n && live == old(live)[p := live[p]]
    {
      p := address;
      if p != NULL {
        live := live[p := seq(n, _ => 0)];
      }
    }

    method Kfree(p: Ptr)
      requires p == NULL || p in live
      modifies this
      ensures live == old(live) - {p}
    {
      live := live - {p};
    }

    /** Copy bytes into a live buffer, within its bounds. */
    method Store(p: Ptr, at: nat, b: Bytes)
      requires p in live && at + |b| <= |live[p]|
      modifies this
      ensures live == old(live)[p := old(live)[p][..at] + b + old(live)[p][at + |b|..]]
    {
      live := live[p := live[p][..at] + b + live[p][at + |b|..]];
    }
  }

  class OpenFile {
    var fPos: Loff

    constructor ()
      ensures fPos == 0
    {
      fPos := 0;
    }
  }

  datatype SeekTo = SeekTo(writeCmd: UInt32, writeCmdOffset: UInt32)

  class AesdDevice {
    const buffer: CircularBuffer
    const heap: KernelHeap
    var partialEntry: Entry
    var locked: bool
    ghost var stored: Log
    ghost var written: seq<Bytes>  // the payloads of the successful writes

    ghost predicate Valid()
      reads this, heap, buffer, buffer.entry
    {
      !locked && Stores(heap.live, buffer.Value(), partialEntry, ZERO, stored) && stored == Run(written)
    }

    /** The position a file has after all the writes, if it was at 0 before the first. */
    ghost predicate CountsWrites(filp: OpenFile)
      reads this, filp
    {
      filp.fPos == ToLoff(Advance(written))
    }

    /** What a reader can see. */
    ghost function Seen(): seq<Bytes>
      reads this, buffer, buffer.entry
    {
      Visible(buffer.Value(), stored)
    }

    constructor (capacity: nat := AESDCHAR_MAX_WRITE_OPERATIONS_SUPPORTED)
      requires 0 < capacity <= 255
      ensures Valid() && stored == EMPTY && written == [] && buffer.entry.Length == capacity
      ensures fresh(heap) && fresh(buffer) && fresh(buffer.entry)
    {
      buffer := new CircularBuffer(capacity);
      heap := new KernelHeap();
      partialEntry, locked, stored, written := ZERO, false, EMPTY, [];
      new;
      InitStores(capacity);
    }

    /** The first half of a write: a new buffer takes the partial bytes and the payload, and the
        partial buffer is freed. */
    method Assemble(payload: Bytes, address: Ptr, faults: bool) returns (err: int, entry: Entry)
      requires NULL !in heap.live && EntryOk(heap.live, partialEntry) && |payload| < TWO_63
      requires address == NULL || Allocatable(heap.live, address, |payload| + partialEntry.size)
      modifies heap, this`partialEntry
      ensures err == if address == NULL then -ENOMEM else if faults then -EFAULT else 0
      ensures err != 0 ==> heap.live == old(heap.live) && partialEntry == old(partialEntry)
      ensures err == 0 ==>
                var b := Content(old(heap.live), old(partialEntry)) + payload;
                && entry == Entry(address, |b|)
                && partialEntry == ZERO
                && heap.live == Glued(old(heap.live), old(partialEntry), address, b)
    {
      entry := ZERO;
      var bufferSize := ToSize(|payload| + partialEntry.size);
      var buffptr := heap.Kmalloc(bufferSize, address);
      if buffptr == NULL {
        return -ENOMEM, ZERO;
      }
      if faults {
        heap.Kfree(buffptr);
        assert heap.live == old(heap.live);
        return -EFAULT, ZERO;
      }
      heap.Store(buffptr, partialEntry.size, payload);
      if partialEntry.buffptr != NULL {
        heap.Store(buffptr, 0, heap.live[partialEntry.buffptr]);
        heap.Kfree(partialEntry.buffptr);
        partialEntry := ZERO;
      }
      assert heap.live[buffptr] == Content(old(heap.live), old(partialEntry)) + payload;
      assert heap.live == Glued(old(heap.live), old(partialEntry), buffptr, heap.live[buffptr]);
      return 0, Entry(buffptr, bufferSize);
    }

    /** The second half of a write: the new buffer is committed to the ring, or kept as partial. */
    method Push(entry: Entry)
      requires Stores(heap.live, buffer.Value(), ZERO, entry, stored) && partialEntry == ZERO
      requires entry.size > 0
      modifies this, heap, buffer, buffer.entry
      ensures locked == old(locked) && written == old(written)
      ensures Stores(heap.live, buffer.Value(), partialEntry, ZERO, stored)
      ensures stored == Settle(old(stored).entries, Content(old(heap.live), entry))
      ensures var b := Content(old(heap.live), entry);
              && |b| > 0
              && (b[|b| - 1] == 10 ==> stored == Log(old(stored).entries + [b], []) && partialEntry == ZERO)
              && (b[|b| - 1] != 10 ==> stored == Log(old(stored).entries, b) && partialEntry == entry)
    {
      hide Stores;
      ghost var h, r, b := heap.live, buffer.Value(), Content(heap.live, entry);
      HandIsLive(h, r, entry, stored);
      if heap.live[entry.buffptr][entry.size - 1] == NEWLINE {
        EvictedStores(h, r, entry, stored);
        var oldEntry := buffer.AddEntry(entry);
        if oldEntry.buffptr != NULL {
          heap.Kfree(oldEntry.buffptr);
        }
        assert heap.live == h - {oldEntry.buffptr};
      } else {
        KeepPartialStores(h, r, entry, stored);
        partialEntry := entry;
      }
      stored := Settle(stored.entries, b);
    }

    /** Write a payload. */
    method Write(filp: OpenFile, payload: Bytes, interrupted: bool, address: Ptr, faults: bool) returns (ret: int)
      requires Valid() && 0 < |payload| + |stored.partial| && |payload| < TWO_63
      requires address == NULL || Allocatable(heap.live, address, |payload| + partialEntry.size)
      modifies this, heap, buffer, buffer.entry, filp
      ensures Valid()
      ensures ret == if interrupted then -EINTR else if address == NULL then -ENOMEM
                     else if faults then -EFAULT else |payload|
      ensures ret < 0 ==> stored == old(stored) && written == old(written)
      ensures ret < 0 ==> heap.live == old(heap.live) && filp.fPos == old(filp.fPos)
                          && buffer.Value() == old(buffer.Value()) && partialEntry == old(partialEntry)
      ensures ret >= 0 ==> stored == Append(old(stored), payload) && written == old(written) + [payload]
      ensures var b := old(stored).partial + payload;
              && (ret >= 0 && b[|b| - 1] == 10 ==> stored == Log(old(stored).entries + [b], []))
              && (ret >= 0 && b[|b| - 1] != 10 ==> stored == Log(old(stored).entries, b))
      ensures old(CountsWrites(filp)) ==> CountsWrites(filp)
      ensures ret >= 0 ==> filp.fPos == ToLoff(old(filp.fPos) + |old(stored).partial + payload|)
    {
      hide Stores, ToLoff, Run, Advance;
      if interrupted {
        return -EINTR;
      }
      locked := true;
      PartialSize(heap.live, buffer.Value(), partialEntry, stored);
      var err, entry := Assemble(payload, address, faults);
      if err != 0 {
        locked := false;
        return err;
      }
      GluedStores(old(heap.live), buffer.Value(), old(partialEntry), stored, address, stored.partial + payload);
      ghost var b := old(stored).partial + payload;
      assert entry == Entry(address, |b|) && Content(heap.live, entry) == b;
      stored := Log(stored.entries, []);
      Push(entry);
      assert stored == Append(old(stored), payload) && filp.fPos == old(filp.fPos);
      RunSnoc(written, payload);
      AdvanceSnoc(written, payload);
      WrapAdd(Advance(written), entry.size);
      written := written + [payload];
      filp.fPos := ToLoff(filp.fPos + entry.size);
      locked := false;
      ret := |payload|;
    }

    /** One read into a user buffer of `count` bytes: the rest of the entry at the file position is
        copied there, whatever the count is. */
    method Read(filp: OpenFile, count: SizeT, interrupted: bool, faults: bool) returns (ret: int, delivered: Bytes)
      requires Valid()
      modifies this`locked, filp
      ensures Valid()
      ensures var got := ReadAt(Seen(), ToSize(old(filp.fPos)));
              if interrupted then ret == -EINTR && delivered == [] && filp.fPos == old(filp.fPos)
              else if got == [] then ret == 0 && delivered == [] && filp.fPos == old(filp.fPos)
              else if faults then ret == -EFAULT && delivered == [] && filp.fPos == old(filp.fPos)
              else ret == |got| && delivered == got && filp.fPos == ToLoff(old(filp.fPos) + ret)
      ensures |delivered| <= count
              <==> interrupted || faults || |ReadAt(Seen(), ToSize(old(filp.fPos)))| <= count
    {
      hide Stores, ToLoff, ToSize, ReadAt;
      delivered := [];
      if interrupted {
        return -EINTR, [];
      }
      locked := true;
      var off := ToSize(filp.fPos);
      LocateReads(heap.live, buffer.Value(), partialEntry, ZERO, stored, off);
      var found := buffer.FindEntryOffsetForFpos(off);
      ret := 0;
      if found.Found? {
        var entry := buffer.entry[found.index];
        var rest := entry.size - found.offset;
        if faults {
          ret := -EFAULT;
        } else {
          delivered := heap.live[entry.buffptr][found.offset..];
          filp.fPos := ToLoff(filp.fPos + rest);
          ret := rest;
        }
      }
      locked := false;
    }

    /** Reposition a file. Seeking from the end always fails. */
    method LlSeek(filp: OpenFile, off: Loff, whence: int) returns (ret: Loff)
      modifies filp
      ensures ret == Repositioned(old(filp.fPos), off, whence)
      ensures filp.fPos == if ret < 0 then old(filp.fPos) else ret
      ensures whence == SEEK_END ==> ret == -EINVAL
      ensures whence == 0 && off >= 0 ==> ret == off == filp.fPos
      ensures whence == 1 && 0 <= old(filp.fPos) + off < TWO_63 ==> ret == old(filp.fPos) + off == filp.fPos
      ensures (whence == 0 && off < 0) || (whence == 1 && -TWO_63 <= old(filp.fPos) + off < 0) || whence !in {0, 1} ==>
                ret == -EINVAL && filp.fPos == old(filp.fPos)
      ensures old(filp.fPos) >= 0 ==> filp.fPos >= 0
    {
      var newpos: Loff;
      if whence == SEEK_SET {
        newpos := off;
      } else if whence == SEEK_CUR {
        newpos := ToLoff(filp.fPos + off);
      } else {
        return -EINVAL;
      }
      if newpos < 0 {
        return -EINVAL;
      }
      filp.fPos := newpos;
      return newpos;
    }

    /** The seek command. `arg` is None when the copy from user memory fails; the kernel then
        leaves zeros. The slots are walked in physical order, and without the lock. */
    method Ioctl(filp: OpenFile, cmd: nat, arg: Option<SeekTo>) returns (ret: CInt)
      requires Valid()
      modifies filp
      ensures var request := if arg.Some? then arg.value else SeekTo(0, 0);
              var target := SeekTarget(old(filp.fPos), buffer.Value(), request.writeCmd, request.writeCmdOffset);
              if cmd != AESDCHAR_IOCSEEKTO then ret == -ENOTTY && filp.fPos == old(filp.fPos)
              else if target < 0 then ret == -EINVAL && filp.fPos == old(filp.fPos)
              else ret == ToInt(target) && filp.fPos == target && (target - ret) % 0x1_0000_0000 == 0
    {
      hide Stores, ToLoff, ToInt, TotalSize;
      if cmd != AESDCHAR_IOCSEEKTO {
        return -ENOTTY;
      }
      var request := if arg.Some? then arg.value else SeekTo(0, 0);
      var offset: Loff := 0;
      var index: UInt8 := 0;
      TotalSizeZero([]);
      ghost var es := buffer.entry[..];
      while index as nat < buffer.entry.Length
        invariant index as nat <= Min(request.writeCmd, buffer.entry.Length)
        invariant offset == ToLoff(TotalSize(es[..index])) && filp.fPos == old(filp.fPos)
      {
        if index as nat == request.writeCmd {
          break;
        }
        Find.PrefixSplit(es, index as nat);
        WrapAdd(TotalSize(es[..index]), es[index].size);
        offset := ToLoff(offset + buffer.entry[index].size);
        index := index + 1;
      }
      assert index as nat == Min(request.writeCmd, buffer.entry.Length);
      WrapAdd(TotalSize(es[..index]), request.writeCmdOffset);
      offset := ToLoff(offset + request.writeCmdOffset);
      assert offset == SeekOffset(buffer.Value(), request.writeCmd, request.writeCmdOffset);
      var newpos := LlSeek(filp, offset, SEEK_CUR);
      assert buffer.Value() == old(buffer.Value());
      ConversionsKeepLowBits(newpos);
      ret := ToInt(newpos);
    }

    /** Unloading the module frees the buffer of every slot, and only those. */
    method Cleanup()
      requires Valid()
      modifies heap
      ensures heap.live == map p | p in old(heap.live) && p == partialEntry.buffptr :: old(heap.live)[p]
      ensures heap.live == map[] <==> stored.partial == []
    {
      hide Stores, Owned;
      ghost var h := heap.live;
      SlotOwners(h, buffer.Value(), partialEntry, stored);
      var index: UInt8 := 0;
      while index as nat < buffer.entry.Length
        invariant index as nat <= buffer.entry.Length
        invariant heap.live == h - Buffers(buffer.entry[..index])
      {
        BuffersStep(h, buffer.entry[..], index as nat);
        heap.Kfree(buffer.entry[index as nat].buffptr);
        index := index + 1;
      }
      assert buffer.entry[..] == buffer.entry[..index];
      OnlyPartialLeft(h, buffer.Value(), partialEntry, stored);
    }
  }

  /** The buffers that records point to. */
  function Buffers(es: seq<Entry>): set<Ptr> {
    set e | e in es :: e.buffptr
  }

  /** Freeing one record after another never frees a buffer twice. */
  lemma BuffersStep(h: Heap, es: seq<Entry>, n: nat)
    requires n < |es| && NULL !in h && (es[n].buffptr != NULL ==> es[n].buffptr in h)
    requires forall i, j :: 0 <= i < j < |es| && es[i].buffptr != NULL ==> es[i].buffptr != es[j].buffptr
    ensures es[n].buffptr == NULL || es[n].buffptr in h - Buffers(es[..n])
    ensures h - Buffers(es[..n]) - {es[n].buffptr} == h - Buffers(es[..n + 1])
  {
    assert es[..n + 1] == es[..n] + [es[n]];
  }

  lemma OnlyPartialLeft(h: Heap, r: Ring, partial: Entry, s: Log)
    requires Stores(h, r, partial, ZERO, s)
    ensures h - Buffers(r.entry) == map p | p in h && p == partial.buffptr :: h[p]
    ensures h - Buffers(r.entry) == map[] <==> s.partial == []
  {
    hide Stores;
    SlotOwners(h, r, partial, s);
    var left := map p | p in h && p == partial.buffptr :: h[p];
    assert forall p :: p in h && p in Buffers(r.entry) ==> p != partial.buffptr;
    assert partial.buffptr in h ==> partial.buffptr in left;
    assert left.Keys == if partial.buffptr in h then {partial.buffptr} else {};
    assert left == map[] <==> left.Keys == {};
  }

  lemma SlotOwners(h: Heap, r: Ring, partial: Entry, s: Log)
    requires Stores(h, r, partial, ZERO, s)
    ensures NULL !in h
    ensures forall j :: 0 <= j < |r.entry| && r.entry[j].buffptr != NULL ==>
              r.entry[j].buffptr in h && r.entry[j].buffptr != partial.buffptr
    ensures forall i, j :: 0 <= i < j < |r.entry| && r.entry[i].buffptr != NULL ==>
              r.entry[i].buffptr != r.entry[j].buffptr
    ensures forall p :: p in h ==> p == partial.buffptr || exists j :: 0 <= j < |r.entry| && r.entry[j].buffptr == p
    ensures partial.buffptr in h <==> s.partial != []
  {
    var owners := Owners(r, partial, ZERO);
    assert owners[|r.entry|] == partial;
    assert forall j :: 0 <= j < |r.entry| ==> owners[j] == r.entry[j];
    forall p | p in h
      ensures p == partial.buffptr || exists j :: 0 <= j < |r.entry| && r.entry[j].buffptr == p
    {
      var i :| 0 <= i < |owners| && owners[i].buffptr == p;
    }
  }

  const AESDCHAR_IOCSEEKTO: nat := 0xC008_1601

  /** The answer of a reposition, negative when it is refused. */
  function Repositioned(fPos: Loff, off: Loff, whence: int): Loff {
    var newpos := if whence == SEEK_SET then off else ToLoff(fPos + off);
    if (whence == SEEK_SET || whence == SEEK_CUR) && newpos >= 0 then newpos else -EINVAL
  }

  lemma WrapAdd(a: int, b: int)
    ensures ToLoff(ToLoff(a) + b) == ToLoff(a + b)
  {
  }

  /** The heap after the payload is glued to the unfinished bytes in a new buffer. */
  function Glued(h: Heap, partial: Entry, p: Ptr, b: Bytes): Heap {
    h[p := b] - {partial.buffptr}
  }

  lemma GluedStores(h: Heap, r: Ring, partial: Entry, s: Log, p: Ptr, b: Bytes)
    requires Stores(h, r, partial, ZERO, s) && Allocatable(h, p, |b|)
    ensures Stores(Glued(h, partial, p, b), r, ZERO, Entry(p, |b|), Log(s.entries, []))
    ensures Content(Glued(h, partial, p, b), Entry(p, |b|)) == b
  {
    AllocateStores(h, r, partial, s, p, b);
    FreePartialStores(h[p := b], r, partial, Entry(p, |b|), s);
  }

  /** Committing the buffer in hand and freeing the overwritten one. */
  lemma EvictedStores(h: Heap, r: Ring, hand: Entry, s: Log)
    requires Stores(h, r, ZERO, hand, s) && EndsLine(Content(h, hand))
    ensures Stores(h - {Overwritten(r).buffptr}, Add(r, hand), ZERO, ZERO,
                   Log(s.entries + [Content(h, hand)], []))
    ensures Overwritten(r).buffptr in h || Overwritten(r).buffptr == NULL
  {
    CommitStores(h, r, hand, s);
    FreeHandStores(h, Add(r, hand), ZERO, Overwritten(r), Log(s.entries + [Content(h, hand)], []));
    assert Owners(r, ZERO, hand)[r.inOffs] == Overwritten(r);
  }

  lemma HandIsLive(h: Heap, r: Ring, hand: Entry, s: Log)
    requires Stores(h, r, ZERO, hand, s) && hand.size > 0
    ensures hand.buffptr in h && |h[hand.buffptr]| == hand.size && NULL !in h && s.partial == []
  {
    assert Owners(r, ZERO, hand)[|r.entry| + 1] == hand;
  }

  /** The partial record is the unfinished bytes, and the whole sum of sizes stays in range. */
  lemma PartialSize(h: Heap, r: Ring, partial: Entry, s: Log)
    requires Stores(h, r, partial, ZERO, s)
    ensures partial.size == |s.partial| && partial.size <= HeapBytes(h) < TWO_63
    ensures NULL !in h && EntryOk(h, partial) && Content(h, partial) == s.partial
  {
    var owners := Owners(r, partial, ZERO);
    assert owners[|r.entry|] == partial;
    assert EntryOk(h, partial);
    if partial.buffptr != NULL {
      HeapBytesWithout(h, partial.buffptr);
    }
  }
}
