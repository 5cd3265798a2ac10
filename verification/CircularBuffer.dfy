/** The circular buffer as the driver keeps it: an array of entries and 8-bit offsets, updated
    in place. Each method is specified by the value ring of module `EntryRing`. */
module AesdCircularBuffer {
  import opened Machine
  import opened EntryRing
  import opened Find

  const AESDCHAR_MAX_WRITE_OPERATIONS_SUPPORTED: nat := 10

  class CircularBuffer {
    const entry: array<Entry>
    var inOffs: UInt8
    var outOffs: UInt8
    var full: bool
    var size: SizeT

    function Value(): Ring
      reads this, entry
    {
      Ring(entry[..], inOffs as nat, outOffs as nat, full, size)
    }

    /** An empty buffer of a given capacity. */
    constructor (capacity: nat)
      requires 0 < capacity <= 255
      ensures fresh(entry) && Value() == Init(capacity)
    {
      entry := new Entry[capacity](_ => ZERO);
      inOffs, outOffs, full, size := 0, 0, false, 0;
      new;
      assert entry[..] == Init(capacity).entry;
    }

    method AddEntry(e: Entry) returns (overwritten: Entry)
      requires Value().InRange()
      modifies this, entry
      ensures Value() == Add(old(Value()), e)
      ensures overwritten == Overwritten(old(Value()))
    {
      overwritten := entry[inOffs];
      entry[inOffs] := e;
      inOffs := inOffs + 1;
      inOffs := inOffs % (entry.Length as UInt8);
      size := ToSize(size + e.size);
      if full {
        outOffs := outOffs + 1;
        outOffs := outOffs % (entry.Length as UInt8);
        size := ToSize(size - overwritten.size);
      } else {
        if inOffs == outOffs {
          full := true;
        }
      }
    }

    /** The physical slot and the offset in it for a flat position. */
    method FindEntryOffsetForFpos(off: SizeT) returns (r: Position)
      requires Value().InRange()
      ensures r == Locate(Value(), off)
    {
      hide Remainder, ToSize;
      var total: SizeT := 0;
      var index := outOffs;
      ghost var ring := Value();
      ghost var walk := ring.Walk();
      ghost var stop := Scan(walk, 0, 0, off);
      ghost var last: nat := 0;
      for i := 0 to entry.Length
        invariant i < entry.Length ==> stop == Scan(walk, i, total, off)
        invariant i == entry.Length ==> stop == (last, total)
        invariant last < entry.Length
        invariant i > 0 ==> index as nat == ring.SlotAt(last)
      {
        var slot := Remainder(outOffs as nat + i, entry.Length);
        SlotAtIsModulus(ring, i);
        index := slot as UInt8;
        assert entry[index] == walk[i];
        total := ToSize(total + entry[index].size);
        last := i;
        if total > off {
          break;
        }
      }
      assert entry[index] == walk[last] && stop == (last, total);
      if off >= total {
        return NotFound;
      }
      var begin := ToSize(total - entry[index].size);
      r := Found(index as nat, ToSize(off - begin));
    }
  }
}
