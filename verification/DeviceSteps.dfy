/** Any number of read and write calls on one device, interleaved step by step under the buffer
    mutex. Every reachable state is explained by the finished calls taken one at a time, in the
    order in which they got the mutex. */
module DeviceSteps {
  import opened Machine
  import opened Sequences
  import opened Wrappers
  import opened EntryRing
  import opened Find
  import opened DeviceLog
  import opened Ownership
  import opened DeviceState
  import opened DeviceReads
  import opened AesdDevice

  /** Every call has its own number. */
  type Id = nat

  /** A read names the position and the size of the user's buffer. */
  datatype Op = WriteOp(payload: Bytes) | ReadOp(pos: SizeT, count: SizeT)

  datatype Pc =
    | Waiting                           // called, mutex not yet taken
    | Locked
    | Allocated(entry: Entry)           // write: the new buffer exists
    | Copied(entry: Entry)              // write: the payload is in place
    | Merged(entry: Entry)              // write: the partial bytes are in place, their buffer freed
    | Added(evicted: Entry)             // write: committed, the overwritten buffer not yet freed
    | Searched(found: Position)         // read: the offset search is done
    | Done(ret: int, bytes: Bytes)      // mutex still held
    | Returned(ret: int, bytes: Bytes)

  datatype Call = Call(op: Op, pc: Pc)

  datatype Event = Event(id: Id, op: Op, ret: int, bytes: Bytes)

  /** `order` lists the calls in the order they got the mutex, `history` those that released it. */
  datatype State = State(
    heap: Heap, ring: Ring, partial: Entry,
    holder: Option<Id>, calls: map<Id, Call>,
    order: seq<Id>, history: seq<Event>)

  // ------------------------------------------------------------------------------- the steps

  function At(s: State, id: Id, pc: Pc): State
    requires id in s.calls
  {
    s.(calls := s.calls[id := s.calls[id].(pc := pc)])
  }

  ghost predicate Invoke(s: State, s': State, id: Id) {
    && id !in s.calls
    && exists op: Op ::
         && (op.WriteOp? ==> |op.payload| < TWO_63)
         && s' == s.(calls := s.calls[id := Call(op, Waiting)])
  }

  ghost predicate Interrupt(s: State, s': State, id: Id)
    requires id in s.calls
  {
    s.calls[id].pc == Waiting && s' == At(s, id, Returned(-EINTR, []))
  }

  ghost predicate Lock(s: State, s': State, id: Id)
    requires id in s.calls
  {
    && s.calls[id].pc == Waiting && s.holder == None
    && s' == At(s, id, Locked).(holder := Some(id), order := s.order + [id])
  }

  ghost predicate Unlock(s: State, s': State, id: Id)
    requires id in s.calls
  {
    && s.calls[id].pc.Done? && s.holder == Some(id)
    && var pc := s.calls[id].pc;
       s' == At(s, id, Returned(pc.ret, pc.bytes)).(
         holder := None, history := s.history + [Event(id, s.calls[id].op, pc.ret, pc.bytes)])
  }

  /** The steps of a write that holds the mutex. */
  ghost predicate WriteStep(s: State, s': State, id: Id)
    requires id in s.calls && s.calls[id].op.WriteOp?
  {
    var payload := s.calls[id].op.payload;
    match s.calls[id].pc
    case Locked =>
      || s' == At(s, id, Done(-ENOMEM, []))
      || exists p, b ::
           && |b| == |payload| + s.partial.size && Allocatable(s.heap, p, |b|)
           && s' == At(s, id, Allocated(Entry(p, |b|))).(heap := s.heap[p := b])
    case Allocated(e) =>
      || s' == At(s, id, Done(-EFAULT, [])).(heap := s.heap - {e.buffptr})
      || (&& e.buffptr in s.heap && s.partial.size <= |s.heap[e.buffptr]|
          && s' == At(s, id, Copied(e)).(
               heap := s.heap[e.buffptr := s.heap[e.buffptr][..s.partial.size] + payload]))
    case Copied(e) =>
      if s.partial.buffptr == NULL then s' == At(s, id, Merged(e))
      else
        && e.buffptr in s.heap && s.partial.buffptr in s.heap && s.partial.size <= |s.heap[e.buffptr]|
        && s' == At(s, id, Merged(e)).(
             heap := s.heap[e.buffptr := s.heap[s.partial.buffptr] + s.heap[e.buffptr][s.partial.size..]]
                     - {s.partial.buffptr},
             partial := ZERO)
    case Merged(e) =>
      // the code looks at the last byte; without one it goes on undefined, and here there is no step
      && e.size > 0 && e.buffptr in s.heap && s.ring.InRange()
      && if EndsLine(s.heap[e.buffptr]) then
           s' == At(s, id, Added(Overwritten(s.ring))).(ring := Add(s.ring, e))
         else
           s' == At(s, id, Done(|payload|, [])).(partial := e)
    case Added(evicted) =>
      s' == At(s, id, Done(|payload|, [])).(heap := s.heap - {evicted.buffptr})
    case _ => false
  }

  /** The steps of a read that holds the mutex. */
  ghost predicate ReadStep(s: State, s': State, id: Id)
    requires id in s.calls && s.calls[id].op.ReadOp?
  {
    match s.calls[id].pc
    case Locked => s.ring.InRange() && s' == At(s, id, Searched(Locate(s.ring, s.calls[id].op.pos)))
    case Searched(NotFound) => s' == At(s, id, Done(0, []))
    case Searched(Found(slot, o)) =>
      || s' == At(s, id, Done(-EFAULT, []))
      || (&& slot < |s.ring.entry| && s.ring.entry[slot].buffptr in s.heap
          && o <= |s.heap[s.ring.entry[slot].buffptr]|
          && var got := s.heap[s.ring.entry[slot].buffptr][o..];
             s' == At(s, id, Done(|got|, got)))
    case _ => false
  }

  ghost predicate StepOf(s: State, s': State, id: Id) {
    || Invoke(s, s', id)
    || (&& id in s.calls
        && (|| Interrupt(s, s', id) || Lock(s, s', id) || Unlock(s, s', id)
            || (s.holder == Some(id) && if s.calls[id].op.WriteOp? then WriteStep(s, s', id)
                                        else ReadStep(s, s', id))))
  }

  ghost predicate Next(s: State, s': State) {
    exists id :: StepOf(s, s', id)
  }

  function Start(capacity: nat): State {
    State(map[], Init(capacity), ZERO, None, map[], [], [])
  }

  // ------------------------------------------------------------------ the atomic specification

  /** The payloads of the successful writes of a history. */
  function Payloads(history: seq<Event>): seq<Bytes> {
    if history == [] then []
    else
      var e := Last(history);
      Payloads(history[..|history| - 1]) + if e.op.WriteOp? && e.ret >= 0 then [e.op.payload] else []
  }

  /** What the device stores after a history: failed calls contribute nothing. */
  function After(history: seq<Event>): Log {
    Run(Payloads(history))
  }

  /** The answers an atomic device that stores `log` may give. */
  ghost predicate Allowed(capacity: nat, log: Log, e: Event) {
    match e.op
    case WriteOp(payload) => e.bytes == [] && e.ret in {-ENOMEM, -EFAULT, |payload|}
    case ReadOp(pos, _) =>
      var got := ReadAt(LastN(log.entries, capacity), pos);
      if got == [] then e.ret == 0 && e.bytes == []
      else (e.ret == -EFAULT && e.bytes == []) || (e.ret == |got| && e.bytes == got)
  }

  /** Every event of the history is an atomic device's answer at its place. */
  ghost predicate Legal(capacity: nat, history: seq<Event>) {
    forall i :: 0 <= i < |history| ==> Allowed(capacity, After(history[..i]), history[i])
  }

  function Ids(history: seq<Event>): seq<Id> {
    seq(|history|, i requires 0 <= i < |history| => history[i].id)
  }

  // --------------------------------------------------------------------------- the invariant

  /** What the call that holds the mutex has done to the device so far. */
  ghost predicate HolderInv(s: State, id: Id)
    requires id in s.calls
  {
    var log, op := After(s.history), s.calls[id].op;
    match s.calls[id].pc
    case Locked => Stores(s.heap, s.ring, s.partial, ZERO, log)
    case Allocated(e) =>
      && op.WriteOp? && Stores(s.heap, s.ring, s.partial, e, log)
      && e.buffptr != NULL && e.size == |op.payload| + s.partial.size
    case Copied(e) =>
      && op.WriteOp? && Stores(s.heap, s.ring, s.partial, e, log)
      && e.buffptr in s.heap && e.size == |s.heap[e.buffptr]| == |op.payload| + s.partial.size
      && s.heap[e.buffptr][s.partial.size..] == op.payload
    case Merged(e) =>
      && op.WriteOp? && s.partial == ZERO && Stores(s.heap, s.ring, ZERO, e, Log(log.entries, []))
      && e.buffptr in s.heap && s.heap[e.buffptr] == log.partial + op.payload
    case Added(evicted) =>
      op.WriteOp? && s.partial == ZERO && Stores(s.heap, s.ring, ZERO, evicted, Append(log, op.payload))
    case Searched(found) =>
      && op.ReadOp? && Stores(s.heap, s.ring, s.partial, ZERO, log)
      && s.ring.InRange() && found == Locate(s.ring, op.pos)
    case Done(ret, bytes) =>
      var e := Event(id, op, ret, bytes);
      && Allowed(|s.ring.entry|, log, e)
      && Stores(s.heap, s.ring, s.partial, ZERO, After(s.history + [e]))
    case _ => false
  }

  ghost predicate Inv(capacity: nat, s: State) {
    && |s.ring.entry| == capacity
    && Legal(capacity, s.history)
    && s.order == Ids(s.history) + (if s.holder.Some? then [s.holder.value] else [])
    && Distinct(s.order)
    && (s.holder == None ==> Stores(s.heap, s.ring, s.partial, ZERO, After(s.history)))
    && (s.holder.Some? ==> s.holder.value in s.calls && HolderInv(s, s.holder.value))
    && (forall c :: c in s.calls && s.holder != Some(c) ==> s.calls[c].pc.Waiting? || s.calls[c].pc.Returned?)
    && (forall i :: 0 <= i < |s.order| ==> s.order[i] in s.calls && !s.calls[s.order[i]].pc.Waiting?)
    && (forall c :: c in s.calls && s.calls[c].pc.Returned? ==> Answered(s, c))
  }

  /** A returned call was interrupted before the mutex, or is in the history with its answer. */
  ghost predicate Answered(s: State, c: Id)
    requires c in s.calls && s.calls[c].pc.Returned?
  {
    var call := s.calls[c];
    if call.pc.ret == -EINTR then call.pc.bytes == [] && c !in s.order
    else Event(c, call.op, call.pc.ret, call.pc.bytes) in s.history
  }

  // --------------------------------------------------------- every step keeps the invariant

  lemma AfterSnoc(history: seq<Event>, e: Event)
    ensures After(history + [e]) ==
              if e.op.WriteOp? && e.ret >= 0 then Append(After(history), e.op.payload) else After(history)
  {
    assert (history + [e])[..|history|] == history;
    if e.op.WriteOp? && e.ret >= 0 {
      RunSnoc(Payloads(history), e.op.payload);
    } else {
      assert Payloads(history) + [] == Payloads(history);
    }
  }

  lemma InitInv(capacity: nat)
    requires 0 < capacity <= 255
    ensures Inv(capacity, Start(capacity))
  {
    InitStores(capacity);
  }

  /** A step inside the critical section touches no other call. */
  lemma CriticalKeeps(capacity: nat, s: State, s': State, id: Id, pc: Pc)
    requires Inv(capacity, s) && s.holder == Some(id)
    requires !pc.Waiting? && !pc.Returned?
    requires s' == At(s, id, pc).(heap := s'.heap, ring := s'.ring, partial := s'.partial)
    requires |s'.ring.entry| == capacity && HolderInv(s', id)
    ensures Inv(capacity, s')
  {
    hide HolderInv;
    forall c | c in s'.calls && s'.calls[c].pc.Returned?
      ensures Answered(s', c)
    {
      assert Answered(s, c);
    }
  }

  lemma AllocateKeeps(s: State, s': State, id: Id, p: Ptr, b: Bytes)
    requires id in s.calls && s.calls[id].op.WriteOp? && s.calls[id].pc == Locked && HolderInv(s, id)
    requires |b| == |s.calls[id].op.payload| + s.partial.size && Allocatable(s.heap, p, |b|)
    requires s' == At(s, id, Allocated(Entry(p, |b|))).(heap := s.heap[p := b])
    ensures HolderInv(s', id)
  {
    hide Stores, After;
    AllocateStores(s.heap, s.ring, s.partial, After(s.history), p, b);
  }

  lemma FailKeeps(s: State, s': State, id: Id, ret: int)
    requires id in s.calls && ret in {-ENOMEM, -EFAULT} && s.calls[id].op.WriteOp?
    requires s' == At(s, id, Done(ret, [])).(heap := s'.heap)
    requires Stores(s'.heap, s.ring, s.partial, ZERO, After(s.history))
    ensures HolderInv(s', id)
  {
    hide Stores, After;
    AfterSnoc(s.history, Event(id, s.calls[id].op, ret, []));
  }

  lemma CopyKeeps(s: State, s': State, id: Id)
    requires id in s.calls && s.calls[id].op.WriteOp? && s.calls[id].pc.Allocated? && HolderInv(s, id)
    requires var e := s.calls[id].pc.entry;
             && e.buffptr in s.heap && s.partial.size <= |s.heap[e.buffptr]|
             && s' == At(s, id, Copied(e)).(
                  heap := s.heap[e.buffptr := s.heap[e.buffptr][..s.partial.size] + s.calls[id].op.payload])
    ensures HolderInv(s', id)
  {
    hide Stores, After;
    var e := s.calls[id].pc.entry;
    FillStores(s.heap, s.ring, s.partial, e, After(s.history), s'.heap[e.buffptr]);
    assert s'.heap[e.buffptr][s.partial.size..] == s.calls[id].op.payload;
  }

  lemma MergeKeeps(s: State, s': State, id: Id)
    requires id in s.calls && s.calls[id].op.WriteOp? && s.calls[id].pc.Copied? && HolderInv(s, id)
    requires WriteStep(s, s', id)
    ensures HolderInv(s', id)
  {
    hide Stores, After;
    var e, log, payload := s.calls[id].pc.entry, After(s.history), s.calls[id].op.payload;
    HandFacts(s.heap, s.ring, s.partial, e, log);
    if s.partial.buffptr == NULL {
      assert s.partial == ZERO && log == Log(log.entries, []);
      assert s.heap[e.buffptr] == log.partial + payload;
    } else {
      var b := s.heap[s.partial.buffptr] + s.heap[e.buffptr][s.partial.size..];
      var h := s.heap[e.buffptr := b];
      FillStores(s.heap, s.ring, s.partial, e, log, b);
      FreePartialStores(h, s.ring, s.partial, e, log);
      assert b == log.partial + payload;
    }
  }

  /** What a write knows of its own buffer and of the partial record. */
  lemma HandFacts(h: Heap, r: Ring, partial: Entry, hand: Entry, s: Log)
    requires Stores(h, r, partial, hand, s)
    ensures NULL !in h && EntryOk(h, partial) && Content(h, partial) == s.partial
    ensures EntryOk(h, hand) && (partial.buffptr != NULL ==> partial.buffptr != hand.buffptr)
    ensures partial.buffptr == NULL <==> s.partial == []
  {
    var owners := Owners(r, partial, hand);
    assert owners[|r.entry|] == partial && owners[|r.entry| + 1] == hand;
  }

  lemma PushKeeps(s: State, s': State, id: Id)
    requires id in s.calls && s.calls[id].op.WriteOp? && s.calls[id].pc.Merged? && HolderInv(s, id)
    requires WriteStep(s, s', id)
    ensures HolderInv(s', id) && |s'.ring.entry| == |s.ring.entry|
  {
    hide Stores, After, EndsLine;
    var e, log, payload := s.calls[id].pc.entry, After(s.history), s.calls[id].op.payload;
    var b := log.partial + payload;
    assert Content(s.heap, e) == b;
    if EndsLine(b) {
      CommitStores(s.heap, s.ring, e, Log(log.entries, []));
      assert Append(log, payload) == Log(log.entries + [b], []);
    } else {
      KeepPartialStores(s.heap, s.ring, e, Log(log.entries, []));
      assert Append(log, payload) == Log(log.entries, b);
      AfterSnoc(s.history, Event(id, s.calls[id].op, |payload|, []));
    }
  }

  lemma EvictKeeps(s: State, s': State, id: Id)
    requires id in s.calls && s.calls[id].op.WriteOp? && s.calls[id].pc.Added? && HolderInv(s, id)
    requires WriteStep(s, s', id)
    ensures HolderInv(s', id)
  {
    hide Stores, After, EndsLine;
    var log, payload := After(s.history), s.calls[id].op.payload;
    FreeHandStores(s.heap, s.ring, ZERO, s.calls[id].pc.evicted, Append(log, payload));
    AfterSnoc(s.history, Event(id, s.calls[id].op, |payload|, []));
  }

  lemma ReadKeeps(s: State, s': State, id: Id)
    requires id in s.calls && s.calls[id].op.ReadOp? && HolderInv(s, id)
    requires ReadStep(s, s', id)
    ensures HolderInv(s', id)
  {
    hide Stores, ReadAt, Locate, After;
    LocateReads(s.heap, s.ring, s.partial, ZERO, After(s.history), s.calls[id].op.pos);
    if s'.calls[id].pc.Done? {
      AfterSnoc(s.history, Event(id, s.calls[id].op, s'.calls[id].pc.ret, s'.calls[id].pc.bytes));
    }
  }

  lemma WriteKeeps(s: State, s': State, id: Id)
    requires id in s.calls && s.calls[id].op.WriteOp? && HolderInv(s, id) && WriteStep(s, s', id)
    ensures HolderInv(s', id) && |s'.ring.entry| == |s.ring.entry|
    ensures s' == At(s, id, s'.calls[id].pc).(heap := s'.heap, ring := s'.ring, partial := s'.partial)
    ensures !s'.calls[id].pc.Waiting? && !s'.calls[id].pc.Returned?
  {
    hide Stores, After;
    match s.calls[id].pc {
      case Locked =>
        if s' == At(s, id, Done(-ENOMEM, [])) {
          FailKeeps(s, s', id, -ENOMEM);
        } else {
          var p, b :| |b| == |s.calls[id].op.payload| + s.partial.size && Allocatable(s.heap, p, |b|)
                      && s' == At(s, id, Allocated(Entry(p, |b|))).(heap := s.heap[p := b]);
          AllocateKeeps(s, s', id, p, b);
        }
      case Allocated(e) =>
        if s' == At(s, id, Done(-EFAULT, [])).(heap := s.heap - {e.buffptr}) {
          FreeHandStores(s.heap, s.ring, s.partial, e, After(s.history));
          FailKeeps(s, s', id, -EFAULT);
        } else {
          CopyKeeps(s, s', id);
        }
      case Copied(_) => MergeKeeps(s, s', id);
      case Merged(_) => PushKeeps(s, s', id);
      case Added(_) => EvictKeeps(s, s', id);
    }
  }

  /** Every step inside the critical section keeps the invariant. */
  lemma HolderStepKeeps(capacity: nat, s: State, s': State, id: Id)
    requires Inv(capacity, s) && s.holder == Some(id) && id in s.calls
    requires if s.calls[id].op.WriteOp? then WriteStep(s, s', id) else ReadStep(s, s', id)
    ensures Inv(capacity, s')
  {
    hide Stores, HolderInv, WriteStep;
    if s.calls[id].op.WriteOp? {
      WriteKeeps(s, s', id);
    } else {
      ReadKeeps(s, s', id);
    }
    CriticalKeeps(capacity, s, s', id, s'.calls[id].pc);
  }

  /** What other calls do outside the mutex is nothing to the one that holds it. */
  lemma OthersLeaveHolder(s: State, s': State, id: Id)
    requires id in s.calls && HolderInv(s, id) && id in s'.calls && s'.calls[id] == s.calls[id]
    requires s'.heap == s.heap && s'.ring == s.ring && s'.partial == s.partial && s'.history == s.history
    ensures HolderInv(s', id)
  {
    hide Stores, After, Allowed;
  }

  lemma InvokeKeeps(capacity: nat, s: State, s': State, id: Id)
    requires Inv(capacity, s) && Invoke(s, s', id)
    ensures Inv(capacity, s')
  {
    hide Stores, HolderInv, Legal, After;
    if s.holder.Some? {
      OthersLeaveHolder(s, s', s.holder.value);
    }
    forall c | c in s'.calls && s'.calls[c].pc.Returned?
      ensures Answered(s', c)
    {
      assert Answered(s, c);
    }
  }

  lemma InterruptKeeps(capacity: nat, s: State, s': State, id: Id)
    requires Inv(capacity, s) && id in s.calls && Interrupt(s, s', id)
    ensures Inv(capacity, s')
  {
    hide Stores, HolderInv, Legal, After;
    if s.holder.Some? {
      assert s.order[|s.order| - 1] == s.holder.value;
      OthersLeaveHolder(s, s', s.holder.value);
    }
    forall c | c in s'.calls && s'.calls[c].pc.Returned?
      ensures Answered(s', c)
    {
      assert c != id ==> Answered(s, c);
    }
  }

  lemma LockKeeps(capacity: nat, s: State, s': State, id: Id)
    requires Inv(capacity, s) && id in s.calls && Lock(s, s', id)
    ensures Inv(capacity, s')
  {
    hide Stores, Legal, After, Distinct;
    assert id !in s.order;
    DistinctSnoc(s.order, id);
    forall c | c in s'.calls && s'.calls[c].pc.Returned?
      ensures Answered(s', c)
    {
      assert Answered(s, c);
    }
  }

  lemma LegalSnoc(capacity: nat, history: seq<Event>, e: Event)
    requires Legal(capacity, history) && Allowed(capacity, After(history), e)
    ensures Legal(capacity, history + [e])
  {
    hide Allowed, After;
    forall i | 0 <= i <= |history|
      ensures Allowed(capacity, After((history + [e])[..i]), (history + [e])[i])
    {
      assert (history + [e])[..i] == history[..i];
      assert history[..|history|] == history;
    }
  }

  lemma UnlockKeeps(capacity: nat, s: State, s': State, id: Id)
    requires Inv(capacity, s) && id in s.calls && Unlock(s, s', id)
    ensures Inv(capacity, s')
  {
    hide Stores, After, Allowed, Legal;
    var e := Event(id, s.calls[id].op, s.calls[id].pc.ret, s.calls[id].pc.bytes);
    LegalSnoc(capacity, s.history, e);
    assert s'.history == s.history + [e];
    assert Ids(s'.history) == Ids(s.history) + [id];
    assert e.ret != -EINTR by {
      assert Allowed(capacity, After(s.history), e);
      NotInterrupted(capacity, After(s.history), e);
    }
    forall c | c in s'.calls && s'.calls[c].pc.Returned?
      ensures Answered(s', c)
    {
      if c == id {
        assert e in s'.history;
      } else {
        assert Answered(s, c);
      }
    }
  }

  lemma NotInterrupted(capacity: nat, log: Log, e: Event)
    requires Allowed(capacity, log, e)
    ensures e.ret != -EINTR
  {
  }

  lemma NextKeeps(capacity: nat, s: State, s': State)
    requires Inv(capacity, s) && Next(s, s')
    ensures Inv(capacity, s')
  {
    hide Inv, Stores, HolderInv;
    var id :| StepOf(s, s', id);
    if Invoke(s, s', id) {
      InvokeKeeps(capacity, s, s', id);
    } else if Interrupt(s, s', id) {
      InterruptKeeps(capacity, s, s', id);
    } else if Lock(s, s', id) {
      LockKeeps(capacity, s, s', id);
    } else if Unlock(s, s', id) {
      UnlockKeeps(capacity, s, s', id);
    } else {
      HolderStepKeeps(capacity, s, s', id);
    }
  }

  // -------------------------------------------------------------------------------- all runs

  ghost predicate Behaviour(capacity: nat, tr: seq<State>): (b: bool)
    ensures b ==> tr != [] && 0 < capacity <= 255
  {
    && 0 < capacity <= 255
    && tr != [] && tr[0] == Start(capacity)
    && forall i :: 0 <= i < |tr| - 1 ==> Next(tr[i], tr[i + 1])
  }

  lemma {:induction false} ReachableInv(capacity: nat, tr: seq<State>, i: nat)
    requires Behaviour(capacity, tr) && i < |tr|
    ensures Inv(capacity, tr[i])
  {
    hide Inv, Next;
    if i == 0 {
      InitInv(capacity);
    } else {
      ReachableInv(capacity, tr, i - 1);
      assert Next(tr[i - 1], tr[i - 1 + 1]);
      NextKeeps(capacity, tr[i - 1], tr[i]);
    }
  }

  /** In every state of every run: the calls got the mutex one after another, each at most once;
      the answers of those that released it are the answers of an atomic device that serves them
      in that order; a returned call was interrupted, leaving no trace, or is one of them; and
      while the mutex is free the device stores exactly what the successful writes make of it. */
  lemma Linearizable(capacity: nat, tr: seq<State>, i: nat)
    requires Behaviour(capacity, tr) && i < |tr|
    ensures var s := tr[i];
            && Distinct(s.order)
            && s.order == Ids(s.history) + (if s.holder.Some? then [s.holder.value] else [])
            && Legal(capacity, s.history)
            && (forall c :: c in s.calls && s.calls[c].pc.Returned? ==> Answered(s, c))
            && (s.holder == None ==> Stores(s.heap, s.ring, s.partial, ZERO, Run(Payloads(s.history))))
  {
    hide Stores;
    ReachableInv(capacity, tr, i);
  }

  /** In every run, a write that was served returned the length of its payload, out of memory or fault. */
  lemma WriteAnswers(capacity: nat, tr: seq<State>, i: nat, k: nat)
    requires Behaviour(capacity, tr) && i < |tr| && k < |tr[i].history| && tr[i].history[k].op.WriteOp?
    ensures var e := tr[i].history[k]; e.bytes == [] && e.ret in {-12, -14, |e.op.payload|}
  {
    hide Stores, HolderInv, After;
    ReachableInv(capacity, tr, i);
    assert Allowed(capacity, After(tr[i].history[..k]), tr[i].history[k]);
  }

  /** In every run, a read that was served faulted with something to read, or got the next bytes of the last
      entries of the writes before it, laid end to end: some unless it began at the end or behind it. */
  lemma ReadAnswers(capacity: nat, tr: seq<State>, i: nat, k: nat)
    requires Behaviour(capacity, tr) && i < |tr| && k < |tr[i].history| && tr[i].history[k].op.ReadOp?
    ensures var e := tr[i].history[k];
            var flat := Flatten(LastN(Run(Payloads(tr[i].history[..k])).entries, capacity));
            if e.op.pos >= |flat| then e.ret == 0 && e.bytes == []
            else (e.ret == -14 && e.bytes == [])
                 || (0 < e.ret == |e.bytes| <= |flat| - e.op.pos && flat[e.op.pos..e.op.pos + e.ret] == e.bytes)
  {
    hide Stores, HolderInv, Run, Payloads, ReadAt;
    ReachableInv(capacity, tr, i);
    assert Allowed(capacity, After(tr[i].history[..k]), tr[i].history[k]);
    ReadAtIsFlat(LastN(After(tr[i].history[..k]).entries, capacity), tr[i].history[k].op.pos);
  }

  /** While the mutex is free, what can be read followed by what was evicted before it accounts
      for every byte of every successful write. */
  lemma RunConserves(capacity: nat, tr: seq<State>, i: nat)
    requires Behaviour(capacity, tr) && i < |tr| && tr[i].holder == None
    ensures var s := tr[i]; var log := After(s.history);
            && Flatten(log.entries) + Content(s.heap, s.partial) == Flatten(Payloads(s.history))
            && |s.ring.entry| == capacity && s.ring.InRange()
            && var m := |LastN(log.entries, capacity)|;
               && m <= |s.ring.Walk()|
               && Contents(s.heap, s.ring.Walk()[..m]) == LastN(log.entries, capacity)
               && forall k :: m <= k < |s.ring.Walk()| ==> s.ring.Walk()[k] == ZERO
  {
    var s := tr[i];
    ReachableInv(capacity, tr, i);
    Conservation(Payloads(s.history));
    WalkIsVisible(s.heap, s.ring, s.partial, ZERO, After(s.history));
  }

  /** While the mutex is free, the live buffers are those of the slots and the partial record:
      at most one more than the capacity, and as many bytes as the two recorded sizes. */
  lemma RunOwnsItsBuffers(capacity: nat, tr: seq<State>, i: nat)
    requires Behaviour(capacity, tr) && i < |tr| && tr[i].holder == None
    ensures var s := tr[i]; var owners := s.ring.entry + [s.partial];
            && Owned(s.heap, owners)
            && |s.heap| <= capacity + 1
            && HeapBytes(s.heap) == s.ring.size + s.partial.size
  {
    var s := tr[i];
    ReachableInv(capacity, tr, i);
    LiveBuffers(s.heap, s.ring, s.partial, After(s.history));
  }

  /** What the step of the call that holds the mutex reads, writes or frees is live, and its
      copies stay inside the buffers. */
  ghost predicate UsesLiveBuffers(s: State, id: Id)
    requires id in s.calls
  {
    match s.calls[id].pc
    case Allocated(e) =>
      && s.calls[id].op.WriteOp? && e.buffptr in s.heap
      && s.partial.size + |s.calls[id].op.payload| <= |s.heap[e.buffptr]|
    case Copied(e) =>
      && e.buffptr in s.heap && e.buffptr != s.partial.buffptr
      && (s.partial.buffptr != NULL ==>
            s.partial.buffptr in s.heap && |s.heap[s.partial.buffptr]| == s.partial.size <= |s.heap[e.buffptr]|)
    case Merged(e) => e.buffptr in s.heap && |s.heap[e.buffptr]| == e.size
    case Added(evicted) =>
      evicted.buffptr != NULL ==>
        evicted.buffptr in s.heap && forall j :: 0 <= j < |s.ring.entry| ==> s.ring.entry[j].buffptr != evicted.buffptr
    case Searched(Found(slot, o)) =>
      && slot < |s.ring.entry| && s.ring.entry[slot].buffptr in s.heap
      && o < |s.heap[s.ring.entry[slot].buffptr]|
    case _ => true
  }

  lemma NoDanglingUse(capacity: nat, tr: seq<State>, i: nat)
    requires Behaviour(capacity, tr) && i < |tr| && tr[i].holder.Some?
    ensures tr[i].holder.value in tr[i].calls && UsesLiveBuffers(tr[i], tr[i].holder.value)
  {
    hide Stores, Locate, ReadAt, Legal;
    var s, id := tr[i], tr[i].holder.value;
    ReachableInv(capacity, tr, i);
    match s.calls[id].pc {
      case Allocated(e) =>
        HandFacts(s.heap, s.ring, s.partial, e, After(s.history));
      case Copied(e) =>
        HandFacts(s.heap, s.ring, s.partial, e, After(s.history));
      case Merged(e) =>
        HandFacts(s.heap, s.ring, ZERO, e, Log(After(s.history).entries, []));
      case Added(evicted) =>
        if evicted.buffptr != NULL {
          EvictedOnce(s.heap, s.ring, evicted, Append(After(s.history), s.calls[id].op.payload));
        }
      case Searched(found) =>
        LocateReads(s.heap, s.ring, s.partial, ZERO, After(s.history), s.calls[id].op.pos);
      case _ =>
    }
  }

  /** The byte that decides whether a write is committed lies in the new buffer exactly when the
      payload and the unfinished bytes are not both empty. */
  lemma TestedByteInsideIff(capacity: nat, tr: seq<State>, i: nat, id: Id)
    requires Behaviour(capacity, tr) && i < |tr| && tr[i].holder == Some(id)
    requires id in tr[i].calls && tr[i].calls[id].pc.Merged?
    ensures var e := tr[i].calls[id].pc.entry;
            && e.buffptr in tr[i].heap && tr[i].calls[id].op.WriteOp?
            && (0 <= e.size - 1 < |tr[i].heap[e.buffptr]|
                <==> |After(tr[i].history).partial| + |tr[i].calls[id].op.payload| > 0)
  {
    hide Stores, Legal, After;
    ReachableInv(capacity, tr, i);
    var s, e := tr[i], tr[i].calls[id].pc.entry;
    HandFacts(s.heap, s.ring, ZERO, e, Log(After(s.history).entries, []));
  }

  /** A read that was answered stays within the user's buffer exactly when it faulted or the rest of
      the entry at its position fits. */
  lemma ReadWithinIff(capacity: nat, tr: seq<State>, i: nat, k: nat)
    requires Behaviour(capacity, tr) && i < |tr| && k < |tr[i].history| && tr[i].history[k].op.ReadOp?
    ensures var e := tr[i].history[k];
            var got := ReadAt(LastN(After(tr[i].history[..k]).entries, capacity), e.op.pos);
            |e.bytes| <= e.op.count <==> e.ret == -EFAULT || |got| <= e.op.count
  {
    hide Stores, HolderInv, After, ReadAt;
    ReachableInv(capacity, tr, i);
    assert Allowed(capacity, After(tr[i].history[..k]), tr[i].history[k]);
  }

  lemma EvictedOnce(h: Heap, r: Ring, evicted: Entry, s: Log)
    requires Stores(h, r, ZERO, evicted, s) && evicted.buffptr != NULL
    ensures evicted.buffptr in h
    ensures forall j :: 0 <= j < |r.entry| ==> r.entry[j].buffptr != evicted.buffptr
  {
    assert Owners(r, ZERO, evicted)[|r.entry| + 1] == evicted;
    OnlyOwner(h, r, ZERO, evicted, |r.entry| + 1);
  }

  // ------------------------------------------------------------------------- real-time order

  lemma {:induction false} HistoryGrows(capacity: nat, tr: seq<State>, i: nat, j: nat)
    requires Behaviour(capacity, tr) && i <= j < |tr|
    ensures tr[i].history <= tr[j].history
    decreases j
  {
    hide Next;
    if i < j {
      HistoryGrows(capacity, tr, i, j - 1);
      assert Next(tr[j - 1], tr[j - 1 + 1]);
      StepGrows(tr[j - 1], tr[j]);
    }
  }

  lemma StepGrows(s: State, s': State)
    requires Next(s, s')
    ensures s.history <= s'.history
  {
  }

  /** A call that returned, other than interrupted, before another began is served before it. */
  lemma RealTimeOrder(capacity: nat, tr: seq<State>, i: nat, j: nat, a: Id, b: Id, kb: nat)
    requires Behaviour(capacity, tr) && i <= j < |tr|
    requires a in tr[i].calls && tr[i].calls[a].pc.Returned? && tr[i].calls[a].pc.ret != -EINTR
    requires b !in tr[i].calls && kb < |tr[j].history| && tr[j].history[kb].id == b
    ensures exists ka :: 0 <= ka < kb && tr[j].history[ka].id == a
  {
    hide Stores, HolderInv, Legal, Next;
    ReachableInv(capacity, tr, i);
    HistoryGrows(capacity, tr, i, j);
    assert Answered(tr[i], a);
    var ka :| 0 <= ka < |tr[i].history| && tr[i].history[ka].id == a;
    assert tr[j].history[ka].id == a;
    ServedHaveBegun(capacity, tr[i], b);
  }

  lemma ServedHaveBegun(capacity: nat, s: State, b: Id)
    requires Inv(capacity, s) && b !in s.calls
    ensures forall k :: 0 <= k < |s.history| ==> s.history[k].id != b
  {
    hide Stores, HolderInv, Legal;
    forall k | 0 <= k < |s.history|
      ensures s.history[k].id != b
    {
      assert s.order[k] == s.history[k].id;
    }
  }
}
