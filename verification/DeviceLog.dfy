/** What the device stores, said simply: an append-only log of committed entries, and the
    unfinished bytes after it. */
module DeviceLog {
  import opened Machine
  import opened Sequences

  type Bytes = seq<Byte>

  datatype Log = Log(entries: seq<Bytes>, partial: Bytes)

  const EMPTY: Log := Log([], [])

  predicate EndsLine(b: Bytes) {
    b != [] && Last(b) == NEWLINE
  }

  /** Bytes after the committed entries are committed themselves when they end a line. */
  function Settle(entries: seq<Bytes>, b: Bytes): Log {
    if EndsLine(b) then Log(entries + [b], []) else Log(entries, b)
  }

  /** One successful write: the payload joins the unfinished bytes. */
  function Append(s: Log, payload: Bytes): Log {
    Settle(s.entries, s.partial + payload)
  }

  /** A run of successful writes. */
  function Run(writes: seq<Bytes>): Log {
    if writes == [] then EMPTY else Append(Run(writes[..|writes| - 1]), Last(writes))
  }

  lemma RunSnoc(writes: seq<Bytes>, payload: Bytes)
    ensures Run(writes + [payload]) == Append(Run(writes), payload)
  {
    assert (writes + [payload])[..|writes|] == writes;
  }

  ghost predicate WellFormed(s: Log) {
    && (forall i :: 0 <= i < |s.entries| ==> EndsLine(s.entries[i]))
    && !EndsLine(s.partial)
  }

  lemma AppendWellFormed(s: Log, payload: Bytes)
    requires WellFormed(s)
    ensures WellFormed(Append(s, payload))
  {
  }

  /** All bytes of a log, in the order they were written. */
  function Stream(s: Log): Bytes {
    Flatten(s.entries) + s.partial
  }

  lemma AppendStream(s: Log, payload: Bytes)
    ensures Stream(Append(s, payload)) == Stream(s) + payload
  {
    FlattenSnoc(s.entries, s.partial + payload);
  }

  /** Conservation over every run: the committed entries and the unfinished bytes are exactly
      the bytes written; every committed entry is a nonempty piece that ends in a newline. */
  lemma {:induction false} Conservation(writes: seq<Bytes>)
    ensures Stream(Run(writes)) == Flatten(writes)
    ensures WellFormed(Run(writes))
  {
    if writes != [] {
      var front, payload := writes[..|writes| - 1], Last(writes);
      Conservation(front);
      AppendStream(Run(front), payload);
      AppendWellFormed(Run(front), payload);
      FlattenSnoc(front, payload);
      assert writes == front + [payload];
    }
  }

  /** Byte 10 ends a line, and no other byte does: in every run each committed entry ends in a 10, and
      the unfinished bytes do not. */
  lemma EntriesEndInTen(writes: seq<Bytes>)
    ensures var s := Run(writes);
            && (forall i :: 0 <= i < |s.entries| ==> |s.entries[i]| > 0 && s.entries[i][|s.entries[i]| - 1] == 10)
            && (|s.partial| > 0 ==> s.partial[|s.partial| - 1] != 10)
  {
    Conservation(writes);
    var s := Run(writes);
    forall i | 0 <= i < |s.entries|
      ensures |s.entries[i]| > 0 && s.entries[i][|s.entries[i]| - 1] == 10
    {
      assert EndsLine(s.entries[i]);
    }
  }

  // --------------------------------------------------------------------- how writes are cut

  /** The positions in the stream where a write ended right after a newline. */
  function Cuts(writes: seq<Bytes>): seq<nat> {
    if writes == [] then []
    else
      Cuts(writes[..|writes| - 1]) + if EndsLine(Last(writes)) then [|Flatten(writes)|] else []
  }

  /** The positions in the stream where committed entries end. */
  function Ends(entries: seq<Bytes>): seq<nat> {
    if entries == [] then [] else Ends(entries[..|entries| - 1]) + [|Flatten(entries)|]
  }

  lemma {:induction false} EndsAreCuts(writes: seq<Bytes>)
    ensures Ends(Run(writes).entries) == Cuts(writes)
  {
    if writes != [] {
      var front, payload := writes[..|writes| - 1], Last(writes);
      var before, after := Run(front), Run(writes);
      EndsAreCuts(front);
      Conservation(front);
      Conservation(writes);
      if EndsLine(payload) {
        assert after.entries[..|before.entries|] == before.entries;
      }
    }
  }

  /** A log is determined by its bytes and the ends of its entries. */
  lemma {:induction false} EndsDetermine(a: Log, b: Log)
    requires Ends(a.entries) == Ends(b.entries) && Stream(a) == Stream(b)
    ensures a == b
    decreases |a.entries|
  {
    EndsCount(a.entries);
    EndsCount(b.entries);
    if a.entries == [] {
      assert Stream(a) == a.partial && Stream(b) == b.partial;
    } else {
      assert Last(Ends(a.entries)) == Last(Ends(b.entries));
      assert Flatten(a.entries) == Stream(a)[..|Flatten(a.entries)|] == Flatten(b.entries);
      assert a.partial == Stream(a)[|Flatten(a.entries)|..] == b.partial;
      var x, y := DropLast(a.entries), DropLast(b.entries);
      assert Ends(a.entries)[..|Ends(x.entries)|] == Ends(x.entries);
      EndsCount(x.entries);
      EndsCount(y.entries);
      assert Ends(b.entries)[..|Ends(y.entries)|] == Ends(y.entries);
      EndsDetermine(x, y);
      assert a.entries == x.entries + [x.partial];
      assert b.entries == y.entries + [y.partial];
    }
  }

  /** The log whose last entry is still unfinished. */
  ghost function DropLast(entries: seq<Bytes>): (s: Log)
    requires entries != []
    ensures Stream(s) == Flatten(entries)
  {
    var front, x := entries[..|entries| - 1], Last(entries);
    FlattenSnoc(front, x);
    assert entries == front + [x];
    Log(front, x)
  }

  lemma {:induction false} EndsCount(entries: seq<Bytes>)
    ensures |Ends(entries)| == |entries|
  {
    if entries != [] {
      EndsCount(entries[..|entries| - 1]);
    }
  }

  /** How a stream is cut into writes matters only through the cuts right after a newline: two
      runs of writes reach the same log exactly when they write the same bytes and have the same
      such cuts. */
  lemma {:induction false} ChunkingInvariance(a: seq<Bytes>, b: seq<Bytes>)
    ensures Run(a) == Run(b) <==> Flatten(a) == Flatten(b) && Cuts(a) == Cuts(b)
  {
    Conservation(a);
    Conservation(b);
    EndsAreCuts(a);
    EndsAreCuts(b);
    if Flatten(a) == Flatten(b) && Cuts(a) == Cuts(b) {
      EndsDetermine(Run(a), Run(b));
    }
  }

  // ------------------------------------------------------------------------------- reading

  /** One read at a position of the concatenated entries: the rest of the entry there. */
  function ReadAt(entries: seq<Bytes>, pos: nat): Bytes {
    if entries == [] then []
    else if pos < |entries[0]| then entries[0][pos..]
    else ReadAt(entries[1..], pos - |entries[0]|)
  }

  /** A read delivers the next bytes of the flat contents, and none only at the end. */
  lemma {:induction false} ReadAtIsFlat(entries: seq<Bytes>, pos: nat)
    ensures var got, flat := ReadAt(entries, pos), Flatten(entries);
            if pos < |flat| then 0 < |got| <= |flat| - pos && flat[pos..pos + |got|] == got
            else got == []
  {
    if entries != [] && pos >= |entries[0]| {
      var rest := pos - |entries[0]|;
      ReadAtIsFlat(entries[1..], rest);
      var got, flat := ReadAt(entries, pos), Flatten(entries[1..]);
      if rest < |flat| {
        assert Flatten(entries)[pos..pos + |got|] == flat[rest..rest + |got|];
      }
    }
  }

  /** Reading inside entry `k` at offset `o`. */
  lemma {:induction false} ReadAtInside(entries: seq<Bytes>, k: nat, o: nat)
    requires k < |entries| && o < |entries[k]|
    ensures ReadAt(entries, |Flatten(entries[..k])| + o) == entries[k][o..]
  {
    if k > 0 {
      assert entries[..k][1..] == entries[1..][..k - 1];
      ReadAtInside(entries[1..], k - 1, o);
    }
  }

  /** Reads answer with the rest of an entry, whatever count they are asked for: all of them stay
      within `count` exactly when no entry is longer. */
  lemma ReadFitsIff(entries: seq<Bytes>, count: nat)
    ensures (forall pos :: |ReadAt(entries, pos)| <= count)
            <==> (forall i :: 0 <= i < |entries| ==> |entries[i]| <= count)
  {
    if forall i :: 0 <= i < |entries| ==> |entries[i]| <= count {
      forall pos
        ensures |ReadAt(entries, pos)| <= count
      {
        ReadWithinEntry(entries, count, pos);
      }
    } else {
      var i :| 0 <= i < |entries| && |entries[i]| > count;
      ReadAtInside(entries, i, 0);
      assert |ReadAt(entries, |Flatten(entries[..i])| + 0)| > count;
    }
  }

  lemma {:induction false} ReadWithinEntry(entries: seq<Bytes>, count: nat, pos: nat)
    requires forall i :: 0 <= i < |entries| ==> |entries[i]| <= count
    ensures |ReadAt(entries, pos)| <= count
  {
    if entries != [] && pos >= |entries[0]| {
      ReadWithinEntry(entries[1..], count, pos - |entries[0]|);
    }
  }

  /** Every read of a loop that starts at `pos` stays within `count`: the rest of the entry there
      fits, and so does every later entry. */
  ghost predicate LoopFits(entries: seq<Bytes>, pos: nat, count: nat) {
    if entries == [] then true
    else if pos < |entries[0]| then
      |entries[0]| - pos <= count && forall i :: 0 < i < |entries| ==> |entries[i]| <= count
    else LoopFits(entries[1..], pos - |entries[0]|, count)
  }

  lemma {:induction false} LoopFitsFromStart(entries: seq<Bytes>, count: nat)
    ensures LoopFits(entries, 0, count) <==> forall i :: 0 <= i < |entries| ==> |entries[i]| <= count
  {
    if entries != [] {
      LoopFitsFromStart(entries[1..], count);
      assert entries == [entries[0]] + entries[1..];
    }
  }

  /** One turn of the loop: this read fits, and so does the loop from where it ends. */
  lemma {:induction false} LoopFitsStep(entries: seq<Bytes>, pos: nat, count: nat)
    ensures var got := ReadAt(entries, pos);
            LoopFits(entries, pos, count) <==> got == [] || (|got| <= count && LoopFits(entries, pos + |got|, count))
  {
    if entries != [] {
      if pos < |entries[0]| {
        LoopFitsFromStart(entries[1..], count);
        assert forall i :: 0 < i < |entries| ==> entries[i] == entries[1..][i - 1];
      } else {
        LoopFitsStep(entries[1..], pos - |entries[0]|, count);
      }
    }
  }

  // ---------------------------------------------------------------- the position after writes

  /** How far a run of writes moves the file position: each adds the size of the glued buffer. */
  function Advance(writes: seq<Bytes>): nat {
    if writes == [] then 0
    else
      var front := writes[..|writes| - 1];
      Advance(front) + |Run(front).partial + Last(writes)|
  }

  lemma AdvanceSnoc(writes: seq<Bytes>, payload: Bytes)
    ensures Advance(writes + [payload]) == Advance(writes) + |Run(writes).partial + payload|
  {
    assert (writes + [payload])[..|writes|] == writes;
  }

  /** What was written so far is nothing, or ends a line. */
  predicate Settled(writes: seq<Bytes>) {
    Flatten(writes) == [] || EndsLine(Flatten(writes))
  }

  lemma SettledIff(writes: seq<Bytes>)
    ensures Settled(writes) <==> Run(writes).partial == []
  {
    hide Run;
    Conservation(writes);
    var s := Run(writes);
    if s.partial == [] && s.entries != [] {
      FlattenSnoc(s.entries[..|s.entries| - 1], Last(s.entries));
      assert s.entries == s.entries[..|s.entries| - 1] + [Last(s.entries)];
    }
  }

  /** The position counts the bytes written exactly when before every write but the first, what was
      written so far ends a line; otherwise unfinished bytes are counted again. */
  lemma {:induction false} AdvanceCountsBytesIff(writes: seq<Bytes>)
    ensures Advance(writes) >= |Flatten(writes)|
    ensures Advance(writes) == |Flatten(writes)| <==> forall i :: 0 < i < |writes| ==> Settled(writes[..i])
  {
    hide Run;
    if writes != [] {
      var front, payload := writes[..|writes| - 1], Last(writes);
      AdvanceCountsBytesIff(front);
      SettledIff(front);
      assert writes == front + [payload];
      FlattenSnoc(front, payload);
      assert forall i :: 0 < i < |front| ==> front[..i] == writes[..i];
      assert front == [] ==> Settled(front);
    }
  }

  /** Two one-byte writes move the position by three: the first byte counts again with the second. */
  lemma AdvanceCountsTwice()
    ensures Advance([[65], [NEWLINE]]) == 3
  {
    assert [[65], [NEWLINE]][..1] == [[65]] && [[65]][..0] == [];
    assert Run([[65]]).partial == [65];
    assert Advance([[65]]) == 1;
  }
}
