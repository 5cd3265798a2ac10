/** Concrete runs of the interleaved device: a write or a read that nobody disturbs runs to its end.
    With them the lemmas below exhibit what the code really does to a caller. */
module DeviceRuns {
  import opened Machine
  import opened Sequences
  import opened Wrappers
  import opened EntryRing
  import Find
  import opened DeviceLog
  import Ownership
  import opened DeviceState
  import DeviceReads
  import opened DeviceSteps

  lemma Extend(capacity: nat, tr: seq<State>, s': State, id: Id)
    requires Behaviour(capacity, tr) && StepOf(Last(tr), s', id)
    ensures Behaviour(capacity, tr + [s'])
  {
    hide StepOf;
    var tr' := tr + [s'];
    assert Next(Last(tr), s');
    forall i | 0 <= i < |tr'| - 1
      ensures Next(tr'[i], tr'[i + 1])
    {
      assert tr'[i] == tr[i];
      if i + 1 < |tr| {
        assert Next(tr[i], tr[i + 1]);
      }
    }
  }

  /** The consecutive steps of one call. */
  ghost predicate Path(path: seq<State>, id: Id) {
    path != [] && forall k {:trigger path[k]} :: 0 < k < |path| ==> StepOf(path[k - 1], path[k], id)
  }

  lemma {:induction false} ExtendAll(capacity: nat, tr: seq<State>, path: seq<State>, id: Id)
    requires Behaviour(capacity, tr) && Path(path, id) && path[0] == Last(tr)
    ensures Behaviour(capacity, tr + path[1..])
  {
    hide Behaviour, StepOf;
    if |path| == 1 {
      assert tr + path[1..] == tr;
    } else {
      var front := path[..|path| - 1];
      ExtendAll(capacity, tr, front, id);
      assert Last(tr + front[1..]) == path[|path| - 2];
      Extend(capacity, tr + front[1..], Last(path), id);
      assert tr + front[1..] + [Last(path)] == tr + path[1..];
    }
  }

  /** The states of an undisturbed write of a whole line, with nothing unfinished before it. */
  function WriteState(s: State, id: Id, payload: Bytes, p: Ptr, k: nat): State
    requires s.ring.InRange() && |payload| < TWO_63 && k <= 8
  {
    var e, evicted, op := Entry(p, |payload|), Overwritten(s.ring), WriteOp(payload);
    var held := s.(holder := Some(id), order := s.order + [id], heap := s.heap[p := payload]);
    match k
    case 0 => s
    case 1 => s.(calls := s.calls[id := Call(op, Waiting)])
    case 2 => s.(calls := s.calls[id := Call(op, Locked)], holder := Some(id), order := s.order + [id])
    case 3 => held.(calls := s.calls[id := Call(op, Allocated(e))])
    case 4 => held.(calls := s.calls[id := Call(op, Copied(e))])
    case 5 => held.(calls := s.calls[id := Call(op, Merged(e))])
    case 6 => held.(calls := s.calls[id := Call(op, Added(evicted))], ring := Add(s.ring, e))
    case 7 => held.(calls := s.calls[id := Call(op, Done(|payload|, []))], ring := Add(s.ring, e),
                    heap := s.heap[p := payload] - {evicted.buffptr})
    case 8 => held.(calls := s.calls[id := Call(op, Returned(|payload|, []))], ring := Add(s.ring, e),
                    heap := s.heap[p := payload] - {evicted.buffptr}, holder := None,
                    history := s.history + [Event(id, op, |payload|, [])])
  }

  ghost predicate CanWrite(s: State, id: Id, payload: Bytes, p: Ptr): (b: bool)
    ensures b ==> s.ring.InRange() && |payload| < TWO_63
  {
    && s.ring.InRange() && s.holder == None && s.partial == ZERO && id !in s.calls
    && EndsLine(payload) && Allocatable(s.heap, p, |payload|) && |payload| < TWO_63
  }

  lemma WriteSteps(s: State, id: Id, payload: Bytes, p: Ptr, k: nat)
    requires CanWrite(s, id, payload, p) && k < 8
    ensures StepOf(WriteState(s, id, payload, p, k), WriteState(s, id, payload, p, k + 1), id)
  {
    match k {
      case 0 => CallStep(s, id, payload, p);
      case 1 => CallStep(s, id, payload, p);
      case 2 => AllocateStep(s, id, payload, p);
      case 3 => CopyStep(s, id, payload, p);
      case 4 => MergeStep(s, id, payload, p);
      case 5 => CommitSteps(s, id, payload, p);
      case 6 => CommitSteps(s, id, payload, p);
      case 7 => ReleaseStep(s, id, payload, p);
    }
  }

  lemma CallStep(s: State, id: Id, payload: Bytes, p: Ptr)
    requires CanWrite(s, id, payload, p)
    ensures StepOf(WriteState(s, id, payload, p, 0), WriteState(s, id, payload, p, 1), id)
    ensures StepOf(WriteState(s, id, payload, p, 1), WriteState(s, id, payload, p, 2), id)
  {
    assert Invoke(s, WriteState(s, id, payload, p, 1), id);
    assert Lock(WriteState(s, id, payload, p, 1), WriteState(s, id, payload, p, 2), id);
  }

  lemma CopyStep(s: State, id: Id, payload: Bytes, p: Ptr)
    requires CanWrite(s, id, payload, p)
    ensures StepOf(WriteState(s, id, payload, p, 3), WriteState(s, id, payload, p, 4), id)
  {
    hide Add, EndsLine, Allocatable;
    var t, t' := WriteState(s, id, payload, p, 3), WriteState(s, id, payload, p, 4);
    assert t.heap[p][..0] + payload == payload;
    assert t.heap == t.heap[p := t.heap[p][..0] + payload];
    assert WriteStep(t, t', id);
  }

  lemma MergeStep(s: State, id: Id, payload: Bytes, p: Ptr)
    requires CanWrite(s, id, payload, p)
    ensures StepOf(WriteState(s, id, payload, p, 4), WriteState(s, id, payload, p, 5), id)
  {
    hide Add, EndsLine, Allocatable;
    assert WriteStep(WriteState(s, id, payload, p, 4), WriteState(s, id, payload, p, 5), id);
  }

  lemma CommitSteps(s: State, id: Id, payload: Bytes, p: Ptr)
    requires CanWrite(s, id, payload, p)
    ensures StepOf(WriteState(s, id, payload, p, 5), WriteState(s, id, payload, p, 6), id)
    ensures StepOf(WriteState(s, id, payload, p, 6), WriteState(s, id, payload, p, 7), id)
  {
    hide Add;
    assert WriteStep(WriteState(s, id, payload, p, 5), WriteState(s, id, payload, p, 6), id);
    assert WriteStep(WriteState(s, id, payload, p, 6), WriteState(s, id, payload, p, 7), id);
  }

  lemma ReleaseStep(s: State, id: Id, payload: Bytes, p: Ptr)
    requires CanWrite(s, id, payload, p)
    ensures StepOf(WriteState(s, id, payload, p, 7), WriteState(s, id, payload, p, 8), id)
  {
    hide Add;
    assert Unlock(WriteState(s, id, payload, p, 7), WriteState(s, id, payload, p, 8), id);
  }

  lemma AllocateStep(s: State, id: Id, payload: Bytes, p: Ptr)
    requires CanWrite(s, id, payload, p)
    ensures StepOf(WriteState(s, id, payload, p, 2), WriteState(s, id, payload, p, 3), id)
  {
    var t, t' := WriteState(s, id, payload, p, 2), WriteState(s, id, payload, p, 3);
    assert t' == At(t, id, Allocated(Entry(p, |payload|))).(heap := t.heap[p := payload]);
    assert WriteStep(t, t', id);
  }

  /** A write of a whole line can run to its end; the ring changes in one of its eight steps. */
  lemma SoloWrite(capacity: nat, tr: seq<State>, id: Id, payload: Bytes, p: Ptr) returns (tr': seq<State>)
    requires Behaviour(capacity, tr) && CanWrite(Last(tr), id, payload, p)
    ensures Behaviour(capacity, tr') && tr <= tr' && |tr'| == |tr| + 8
    ensures forall k {:trigger tr'[k]} :: |tr| <= k < |tr'| ==>
              tr'[k] == WriteState(Last(tr), id, payload, p, k + 1 - |tr|)
  {
    hide Behaviour, StepOf, WriteState, CanWrite;
    var s := Last(tr);
    var path := seq(9, k requires 0 <= k < 9 => WriteState(s, id, payload, p, k));
    forall k | 0 < k < 9
      ensures StepOf(path[k - 1], path[k], id)
    {
      WriteSteps(s, id, payload, p, k - 1);
    }
    StateZero(s, id, payload, p);
    ExtendAll(capacity, tr, path, id);
    tr' := tr + path[1..];
  }

  lemma StateZero(s: State, id: Id, payload: Bytes, p: Ptr)
    requires CanWrite(s, id, payload, p)
    ensures WriteState(s, id, payload, p, 0) == s
  {
  }

  lemma InRangeAtEnd(capacity: nat, tr: seq<State>)
    requires Behaviour(capacity, tr)
    ensures var s := Last(tr);
            && |s.ring.entry| == capacity && Legal(capacity, s.history)
            && (s.holder == None ==> Stores(s.heap, s.ring, s.partial, ZERO, After(s.history)) && s.ring.InRange())
  {
    hide Stores, HolderInv, Legal;
    ReachableInv(capacity, tr, |tr| - 1);
  }

  /** A read can run to its end, and delivers what is there. */
  lemma SoloRead(capacity: nat, tr: seq<State>, id: Id, pos: SizeT, count: SizeT) returns (tr': seq<State>)
    requires Behaviour(capacity, tr) && Last(tr).holder == None && id !in Last(tr).calls
    ensures Behaviour(capacity, tr') && tr <= tr' && |tr'| == |tr| + 5 && Last(tr').holder == None
    ensures var got := ReadAt(LastN(After(Last(tr).history).entries, capacity), pos);
            Last(tr').history == Last(tr).history + [Event(id, ReadOp(pos, count), |got|, got)]
  {
    hide Stores, Behaviour, ReadAt, Find.Locate, After;
    var s, op := Last(tr), ReadOp(pos, count);
    InRangeAtEnd(capacity, tr);
    DeviceReads.LocateReads(s.heap, s.ring, s.partial, ZERO, After(s.history), pos);
    var got := ReadAt(LastN(After(s.history).entries, capacity), pos);
    var s1 := s.(calls := s.calls[id := Call(op, Waiting)]);
    var s2 := At(s1, id, Locked).(holder := Some(id), order := s1.order + [id]);
    var s3 := At(s2, id, Searched(Find.Locate(s.ring, pos)));
    var s4 := At(s3, id, Done(|got|, got));
    var s5 := At(s4, id, Returned(|got|, got)).(holder := None, history := s4.history + [Event(id, op, |got|, got)]);
    assert Invoke(s, s1, id) && Lock(s1, s2, id) && ReadStep(s2, s3, id) && ReadStep(s3, s4, id) && Unlock(s4, s5, id);
    var path := [s, s1, s2, s3, s4, s5];
    assert Path(path, id) by {
      SixStates(path, id);
    }
    ExtendAll(capacity, tr, path, id);
    tr' := tr + path[1..];
  }

  lemma SixStates(path: seq<State>, id: Id)
    requires |path| == 6
    requires StepOf(path[0], path[1], id) && StepOf(path[1], path[2], id) && StepOf(path[2], path[3], id)
    requires StepOf(path[3], path[4], id) && StepOf(path[4], path[5], id)
    ensures Path(path, id)
  {
    hide StepOf;
    forall k | 0 < k < |path|
      ensures StepOf(path[k - 1], path[k], id)
    {
      assert k in {1, 2, 3, 4, 5};
    }
  }

  lemma StartBehaves(capacity: nat)
    requires 0 < capacity <= 255
    ensures Behaviour(capacity, [Start(capacity)]) && Ownership.HeapBytes(map[]) == 0
  {
  }

  /** On a device that stores one line of two bytes, a read with a buffer of one byte is answered with
      two: the second byte was copied behind the buffer. */
  lemma ReadOverruns(capacity: nat) returns (tr: seq<State>)
    requires 0 < capacity <= 255
    ensures Behaviour(capacity, tr)
    ensures var h := Last(tr).history; |h| == 2 && h[1].op == ReadOp(0, 1) && h[1].ret == |h[1].bytes| == 2
  {
    hide Behaviour, ReadAt, Run;
    var line: Bytes := [65, NEWLINE];
    StartBehaves(capacity);
    var tr1 := SoloWrite(capacity, [Start(capacity)], 0, line, 1);
    assert tr1[8] == WriteState(Start(capacity), 0, line, 1, 8);
    tr := SoloRead(capacity, tr1, 1, 0, 1);
    OneLine(Last(tr1).history, line);
    ReadAtInside([line], 0, 0);
    assert [line][..0] == [] && line[0..] == line;
  }

  lemma OneLine(history: seq<Event>, line: Bytes)
    requires history == [Event(0, WriteOp(line), |line|, [])] && EndsLine(line)
    ensures After(history) == Log([line], [])
  {
    AfterSnoc([], history[0]);
    assert [] + history == history && [] + line == line;
  }
}
