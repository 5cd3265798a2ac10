/** The ioctl walks the slots without taking the mutex, while other calls go on: it reads the size of
    slot k in some state, and that of slot k + 1 in the same or a later one. */
module UnlockedSeek {
  import opened Machine
  import Sequences
  import opened EntryRing
  import opened Find
  import opened DeviceLog
  import Ownership
  import opened DeviceReads
  import opened DeviceSteps
  import opened DeviceRuns

  /** The rings a run goes through. */
  function Rings(tr: seq<State>): seq<Ring> {
    seq(|tr|, i requires 0 <= i < |tr| => tr[i].ring)
  }

  /** A walk over the first slots of rings of one capacity: slot k is read in ring `times[k]`. */
  ghost predicate Walks(rings: seq<Ring>, times: seq<nat>, capacity: nat) {
    && |times| <= capacity
    && (forall i :: 0 <= i < |rings| ==> |rings[i].entry| == capacity)
    && (forall k :: 0 <= k < |times| ==> times[k] < |rings|)
  }

  /** The sum of the sizes a walk reads. */
  function Observed(rings: seq<Ring>, times: seq<nat>): nat
    requires forall k :: 0 <= k < |times| ==> times[k] < |rings| && k < |rings[times[k]].entry|
  {
    if times == [] then 0
    else
      var k := |times| - 1;
      Observed(rings, times[..k]) + rings[times[k]].entry[k].size
  }

  /** The walk adds up what it would have added up in ring `r`, after every slot. */
  ghost predicate SumsAsIn(rings: seq<Ring>, times: seq<nat>, capacity: nat, r: Ring)
    requires Walks(rings, times, capacity) && |r.entry| == capacity
  {
    forall n :: 0 <= n <= |times| ==> Observed(rings, times[..n]) == TotalSize(r.entry[..n])
  }

  /** Every slot had, when it was read, the size it has in ring `r`. */
  ghost predicate SizesAsIn(rings: seq<Ring>, times: seq<nat>, capacity: nat, r: Ring)
    requires Walks(rings, times, capacity) && |r.entry| == capacity
  {
    forall k :: 0 <= k < |times| ==> rings[times[k]].entry[k].size == r.entry[k].size
  }

  lemma ObservedStep(rings: seq<Ring>, times: seq<nat>, capacity: nat, n: nat)
    requires Walks(rings, times, capacity) && n < |times|
    ensures Observed(rings, times[..n + 1]) == Observed(rings, times[..n]) + rings[times[n]].entry[n].size
  {
    assert times[..n + 1][..n] == times[..n];
  }

  /** A walk sums as in one ring, for every slot it may be asked to stop at, exactly when every slot
      had the size it has in that ring. */
  lemma SumsAsInIff(rings: seq<Ring>, times: seq<nat>, capacity: nat, r: Ring)
    requires Walks(rings, times, capacity) && |r.entry| == capacity
    ensures SumsAsIn(rings, times, capacity, r) <==> SizesAsIn(rings, times, capacity, r)
  {
    if SumsAsIn(rings, times, capacity, r) {
      forall k: nat | k < |times|
        ensures rings[times[k]].entry[k].size == r.entry[k].size
      {
        ObservedStep(rings, times, capacity, k);
        PrefixSplit(r.entry, k);
        assert Observed(rings, times[..k + 1]) == TotalSize(r.entry[..k + 1]);
      }
    }
    if SizesAsIn(rings, times, capacity, r) {
      forall n: nat | n <= |times|
        ensures Observed(rings, times[..n]) == TotalSize(r.entry[..n])
      {
        SizesSum(rings, times, capacity, r, n);
      }
    }
  }

  lemma {:induction false} SizesSum(rings: seq<Ring>, times: seq<nat>, capacity: nat, r: Ring, n: nat)
    requires Walks(rings, times, capacity) && |r.entry| == capacity && n <= |times|
    requires SizesAsIn(rings, times, capacity, r)
    ensures Observed(rings, times[..n]) == TotalSize(r.entry[..n])
  {
    if n > 0 {
      SizesSum(rings, times, capacity, r, n - 1);
      ObservedStep(rings, times, capacity, n - 1);
      PrefixSplit(r.entry, n - 1);
    }
  }

  // ------------------------------------------------------------------------ rings over runs

  /** A step leaves the ring, or it is the commit of the write that holds the mutex: one addition. */
  lemma StepRing(s: State, s': State)
    requires Next(s, s')
    ensures s'.ring == s.ring
            || (&& s.ring.InRange() && s.holder.Some? && s.holder.value in s.calls
                && s.calls[s.holder.value].pc.Merged? && s'.ring == Add(s.ring, s.calls[s.holder.value].pc.entry))
  {
  }

  ghost predicate RingStep(r: Ring, r': Ring) {
    r' == r || (r.InRange() && exists e :: r' == Add(r, e))
  }

  /** Each ring is the one before it, or one addition later. */
  ghost predicate RingSteps(rings: seq<Ring>) {
    forall k {:trigger rings[k]} :: 0 < k < |rings| ==> RingStep(rings[k - 1], rings[k])
  }

  lemma RunRings(capacity: nat, tr: seq<State>)
    requires Behaviour(capacity, tr)
    ensures RingSteps(Rings(tr)) && forall i :: 0 <= i < |tr| ==> |tr[i].ring.entry| == capacity
  {
    hide Inv, Next;
    var rings := Rings(tr);
    forall k | 0 < k < |rings|
      ensures RingStep(rings[k - 1], rings[k])
    {
      assert Next(tr[k - 1], tr[k - 1 + 1]);
      StepRing(tr[k - 1], tr[k]);
    }
    forall i | 0 <= i < |tr|
      ensures |tr[i].ring.entry| == capacity
    {
      CapacityKept(capacity, tr, i);
    }
  }

  lemma CapacityKept(capacity: nat, tr: seq<State>, i: nat)
    requires Behaviour(capacity, tr) && i < |tr|
    ensures |tr[i].ring.entry| == capacity
  {
    ReachableInv(capacity, tr, i);
  }

  /** How many commits fall between two moments. Reads, failed writes and unfinished writes are none. */
  function Commits(rings: seq<Ring>, i: nat, j: nat): nat
    requires i <= j < |rings|
  {
    if i == j then 0 else Commits(rings, i, j - 1) + if rings[j - 1] == rings[j] then 0 else 1
  }

  /** With at most one commit there is a moment up to which the ring is the first and after which it is
      the last. */
  lemma {:induction false} OneTurn(rings: seq<Ring>, i: nat, j: nat) returns (c: nat)
    requires i <= j < |rings| && Commits(rings, i, j) <= 1
    ensures i <= c <= j
    ensures forall k :: i <= k <= c ==> rings[k] == rings[i]
    ensures forall k :: c < k <= j ==> rings[k] == rings[j]
    ensures Commits(rings, i, j) == 0 ==> c == j
    decreases j
  {
    if i == j {
      c := i;
    } else if rings[j - 1] == rings[j] {
      c := OneTurn(rings, i, j - 1);
      if c == j - 1 {
        c := j;
      }
    } else {
      c := OneTurn(rings, i, j - 1);
      c := j - 1;
    }
  }

  /** With at most one commit during the walk, every slot has the size it has in the ring before, or
      every slot the size it has in the ring after. */
  lemma OneCommitSizes(rings: seq<Ring>, times: seq<nat>, capacity: nat, i: nat, j: nat)
    requires Walks(rings, times, capacity) && RingSteps(rings)
    requires i <= j < |rings| && Commits(rings, i, j) <= 1
    requires forall k :: 0 <= k < |times| ==> i <= times[k] <= j
    ensures SizesAsIn(rings, times, capacity, rings[i]) || SizesAsIn(rings, times, capacity, rings[j])
  {
    var c := OneTurn(rings, i, j);
    if c < j && rings[c + 1] != rings[c] {
      assert RingStep(rings[c + 1 - 1], rings[c + 1]);
      var e :| rings[c + 1] == Add(rings[c], e);
      var w := rings[c].inOffs;
      assert forall k :: 0 <= k < capacity && k != w ==> rings[j].entry[k] == rings[i].entry[k];
      if w < |times| && times[w] > c {
        assert SizesAsIn(rings, times, capacity, rings[j]);
      } else {
        assert SizesAsIn(rings, times, capacity, rings[i]);
      }
    }
  }

  /** When the walk of an ioctl does not see two commits, it asks for a position it could have asked for
      with the ring standing still, as it was when the walk began or as it is when the walk ends. */
  lemma OneCommitSeek(capacity: nat, tr: seq<State>, times: seq<nat>, i: nat, j: nat,
                      fPos: Loff, cmd: UInt32, off: UInt32)
    requires Behaviour(capacity, tr) && i <= j < |tr| && Commits(Rings(tr), i, j) <= 1
    requires |times| == Min(cmd, capacity) && forall k :: 0 <= k < |times| ==> i <= times[k] <= j
    ensures Walks(Rings(tr), times, capacity)
    ensures ToLoff(fPos + ToLoff(Observed(Rings(tr), times) + off))
            in {SeekTarget(fPos, tr[i].ring, cmd, off), SeekTarget(fPos, tr[j].ring, cmd, off)}
  {
    hide Behaviour, RingSteps, SizesAsIn, Observed, SeekTarget, ToLoff;
    var rings := Rings(tr);
    RunRings(capacity, tr);
    OneCommitSizes(rings, times, capacity, i, j);
    if SizesAsIn(rings, times, capacity, rings[i]) {
      SameTarget(rings, times, capacity, rings[i], fPos, cmd, off);
    } else {
      SameTarget(rings, times, capacity, rings[j], fPos, cmd, off);
    }
  }

  lemma SameTarget(rings: seq<Ring>, times: seq<nat>, capacity: nat, r: Ring, fPos: Loff, cmd: UInt32, off: UInt32)
    requires Walks(rings, times, capacity) && |r.entry| == capacity && |times| == Min(cmd, capacity)
    requires SizesAsIn(rings, times, capacity, r)
    ensures ToLoff(fPos + ToLoff(Observed(rings, times) + off)) == SeekTarget(fPos, r, cmd, off)
  {
    hide SizesAsIn, Observed, ToLoff;
    SizesSum(rings, times, capacity, r, |times|);
    assert times[..|times|] == times;
  }

  // --------------------------------------------------------------------------- two commits

  lemma {:induction false} NoCommits(rings: seq<Ring>, i: nat, j: nat)
    requires i <= j < |rings| && forall k :: i <= k <= j ==> rings[k] == rings[i]
    ensures Commits(rings, i, j) == 0
    decreases j
  {
    if i < j {
      NoCommits(rings, i, j - 1);
    }
  }

  lemma {:induction false} CommitsAdd(rings: seq<Ring>, i: nat, j: nat, k: nat)
    requires i <= j <= k < |rings|
    ensures Commits(rings, i, k) == Commits(rings, i, j) + Commits(rings, j, k)
    decreases k
  {
    if j < k {
      CommitsAdd(rings, i, j, k - 1);
    }
  }

  /** The ring of a run that changes twice, in the steps to states `a` and `b`. */
  ghost predicate ChangesTwice(rings: seq<Ring>, a: nat, b: nat) {
    && 0 < a < b < |rings|
    && (forall k :: 0 <= k < a ==> rings[k] == rings[0])
    && (forall k :: a <= k < b ==> rings[k] == rings[a])
    && (forall k :: b <= k < |rings| ==> rings[k] == rings[b])
    && rings[0] != rings[a] && rings[a] != rings[b]
  }

  lemma TwoCommits(rings: seq<Ring>, a: nat, b: nat)
    requires ChangesTwice(rings, a, b)
    ensures Commits(rings, 0, |rings| - 1) == 2
  {
    NoCommits(rings, 0, a - 1);
    NoCommits(rings, a, b - 1);
    NoCommits(rings, b, |rings| - 1);
    CommitsAdd(rings, 0, a, b);
    CommitsAdd(rings, 0, b, |rings| - 1);
  }

  lemma TwoSlots(es: seq<Entry>)
    requires |es| >= 2
    ensures TotalSize(es[..2]) == es[0].size + es[1].size
  {
    PrefixSplit(es, 0);
    PrefixSplit(es, 1);
  }

  /** Two writes run while an ioctl walks: slot 0 is read before the first and slot 1 after the second,
      and the sum is that of no ring of the run. */
  lemma TornWalk(capacity: nat) returns (tr: seq<State>, times: seq<nat>)
    requires 2 <= capacity <= 255
    ensures Behaviour(capacity, tr) && times == [0, |tr| - 1] && Walks(Rings(tr), times, capacity)
    ensures Commits(Rings(tr), 0, |tr| - 1) == 2
    ensures forall i :: 0 <= i < |tr| ==>
              |tr[i].ring.entry| == capacity && TotalSize(tr[i].ring.entry[..2]) != Observed(Rings(tr), times)
  {
    hide Behaviour, RingSteps, Observed, Commits, WriteState, Add;
    var first, second: Bytes := [NEWLINE], [65, NEWLINE];
    StartBehaves(capacity);
    var tr1 := SoloWrite(capacity, [Start(capacity)], 0, first, 1);
    assert tr1[8] == WriteState(Start(capacity), 0, first, 1, 8);
    AfterFirst(capacity, first, second);
    tr := SoloWrite(capacity, tr1, 1, second, 2);
    times := [0, |tr| - 1];
    RunRings(capacity, tr);
    var rings := Rings(tr);
    var r1 := Add(Init(capacity), Entry(1, 1));
    var r2 := Add(r1, Entry(2, 2));
    forall k | 0 <= k < 17
      ensures rings[k] == if k < 6 then Init(capacity) else if k < 14 then r1 else r2
    {
      if 1 <= k < 9 {
        assert tr1[k] == tr[k] == WriteState(Start(capacity), 0, first, 1, k);
        WriteRing(Start(capacity), 0, first, 1, k);
      } else if 9 <= k {
        assert tr[k] == WriteState(Sequences.Last(tr1), 1, second, 2, k - 8);
        WriteRing(Sequences.Last(tr1), 1, second, 2, k - 8);
      }
    }
    TornRings(capacity, rings, times);
    assert forall i :: 0 <= i < |tr| ==> tr[i].ring == rings[i];
  }

  /** The first write leaves its buffer live and the device ready for the second. */
  lemma AfterFirst(capacity: nat, first: Bytes, second: Bytes)
    requires 2 <= capacity <= 255 && |first| == 1 && |second| == 2 && EndsLine(first) && EndsLine(second)
    ensures CanWrite(Start(capacity), 0, first, 1)
    ensures CanWrite(WriteState(Start(capacity), 0, first, 1, 8), 1, second, 2)
    ensures WriteState(Start(capacity), 0, first, 1, 8).ring == Add(Init(capacity), Entry(1, 1))
  {
    assert Ownership.HeapBytes(map[]) == 0;
    OneByteHeap(first);
    assert map[1 := first] - {NULL} == map[1 := first];
    assert WriteState(Start(capacity), 0, first, 1, 8).heap == map[1 := first];
  }

  lemma WriteRing(s: State, id: Id, payload: Bytes, p: Ptr, k: nat)
    requires s.ring.InRange() && |payload| < TWO_63 && k <= 8
    ensures WriteState(s, id, payload, p, k).ring == if k < 6 then s.ring else Add(s.ring, Entry(p, |payload|))
  {
    hide Add;
  }

  lemma TornRings(capacity: nat, rings: seq<Ring>, times: seq<nat>)
    requires 2 <= capacity <= 255 && |rings| == 17 && times == [0, 16] && Walks(rings, times, capacity)
    requires var r1 := Add(Init(capacity), Entry(1, 1));
             forall k :: 0 <= k < 17 ==>
               rings[k] == if k < 6 then Init(capacity) else if k < 14 then r1 else Add(r1, Entry(2, 2))
    ensures Commits(rings, 0, 16) == 2
    ensures forall k :: 0 <= k < 17 ==> TotalSize(rings[k].entry[..2]) != Observed(rings, times)
  {
    hide Observed, Commits;
    var r1 := Add(Init(capacity), Entry(1, 1));
    assert r1.entry == Init(capacity).entry[0 := Entry(1, 1)] && r1.inOffs == 1;
    assert Add(r1, Entry(2, 2)).entry == r1.entry[1 := Entry(2, 2)];
    assert ChangesTwice(rings, 6, 14);
    TwoCommits(rings, 6, 14);
    TornSum(rings, times, capacity);
    forall k | 0 <= k < 17
      ensures TotalSize(rings[k].entry[..2]) != Observed(rings, times)
    {
      TwoSlots(rings[k].entry);
    }
  }

  lemma TornSum(rings: seq<Ring>, times: seq<nat>, capacity: nat)
    requires Walks(rings, times, capacity) && |times| == 2
    ensures Observed(rings, times) == rings[times[0]].entry[0].size + rings[times[1]].entry[1].size
  {
    ObservedStep(rings, times, capacity, 0);
    ObservedStep(rings, times, capacity, 1);
    assert times[..2] == times && times[..0] == [];
  }

  lemma OneByteHeap(b: Bytes)
    ensures Ownership.HeapBytes(map[1 := b]) == |b|
  {
    Ownership.HeapBytesWithout(map[1 := b], 1);
    assert map[1 := b] - {1} == map[];
  }
}
