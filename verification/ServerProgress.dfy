/** Progress of the interleaved server: exactly when no thread can make a step, and that any client that asks
    can be served. */
module ServerProgress {
  import opened Wrappers
  import opened Sequences
  import opened DeviceLog
  import opened SeekCommand
  import opened ServerFile
  import opened ServerSteps

  /** Some thread of the program can make a step; signals do not count. */
  ghost predicate CanStep(w: World, s: State) {
    || (exists s' :: MainStep(s, s'))
    || (exists id, s' :: id in s.workers && WorkerStep(w, s, s', id))
  }

  /** The worker would have the device copy past the standard library's buffer. */
  ghost predicate Overruns(w: World, s: State, id: Id) {
    && id in s.workers && s.workers[id].Sending? && w.mode.Device?
    && !LoopFits(LastN(s.file.entries, w.mode.capacity), s.workers[id].start, STDIO_SIZE)
  }

  // ----------------------------------------------------------------------------- single steps

  lemma MainCanStep(s: State)
    requires !s.main.Exited? && (s.main.Joining? ==> s.main.id in s.workers && s.workers[s.main.id].Terminated?)
    ensures exists s' :: MainStep(s, s')
  {
    hide Without;
    match s.main {
      case LoopTop => assert MainStep(s, s.(main := if s.stop then Cleaning(true, s.list) else Polling));
      case Polling => assert MainStep(s, s.(main := LoopTop));
      case Accepted(id) => assert MainStep(s, s.(main := Created(id), workers := s.workers[id := Starting]));
      case Created(id) => assert MainStep(s, s.(main := Cleaning(false, [id] + s.list), list := [id] + s.list));
      case Cleaning(wait, todo) =>
        var s' := if todo == [] then s.(main := if wait then Exited else LoopTop)
                  else if todo[0] in s.finished || wait then
                    s.(main := Joining(wait, todo[0], todo[1..]), list := Without(s.list, todo[0]))
                  else s.(main := Cleaning(wait, todo[1..]));
        assert MainStep(s, s');
      case Joining(wait, id, rest) =>
        assert MainStep(s, s.(main := Cleaning(wait, rest), joined := s.joined + [id], infos := s.infos - {id}));
    }
  }

  /** Whether a worker can go on. */
  ghost predicate Goes(w: World, s: State, id: Id)
    requires id in s.workers
  {
    match s.workers[id]
    case Starting => s.holder == None
    case Terminated(_) => false
    case _ => !Overruns(w, s, id)
  }

  /** A step of a worker that can go on; what waits to be written is written at once. */
  ghost function Onward(w: World, s: State, id: Id): State
    requires id in s.workers && Goes(w, s, id) && (s.workers[id].Seeking? ==> s.turns != [])
  {
    var c, shown := w.clients(id), Shown(w.mode, s.file);
    match s.workers[id]
    case Starting =>
      At(s, id, Receiving(0)).(holder := Some(id), open := true, order := s.order + [id], turns := s.turns + [[]])
    case Receiving(n) =>
      if n > 0 && |ChunkAt(c.chunks, n - 1)| != MAXDATASIZE then At(s, id, Seeking)
      else Receive(c, s, id, n)
    case Seeking =>
      if s.unwritten != [] then Flushed(s, s.unwritten)
      else
        var start := StartOf(w.mode, s.file, s.seekto);
        At(s, id, Sending(start, start, [])).(
          seekto := None, seekFrees := s.seekFrees + if s.seekto == None then 0 else 1)
    case Sending(start, pos, sent) =>
      if pos < |shown| then
        var b := if pos + SEND_SIZE <= |shown| then SEND_SIZE else |shown| - pos;
        At(s, id, Sending(start, pos + b, sent + shown[pos..pos + b]))
      else At(s, id, Closed(sent)).(open := false)
    case Closed(reply) => At(s, id, Unlocked(reply)).(holder := None)
    case Unlocked(reply) => At(s, id, Finished(reply)).(finished := s.finished + {id})
    case Finished(reply) => At(s, id, Terminated(reply))
  }

  ghost function Receive(c: Client, s: State, id: Id, n: nat): State {
    var buffer := Buffer(c.raw, c.chunks, n + 1);
    if IsCommand(buffer) then
      At(s, id, Receiving(n + 1)).(
        seekto := Some(ParseSeek(buffer)), seekAllocs := s.seekAllocs + if s.seekto == None then 1 else 0)
    else At(s, id, Receiving(n + 1)).(unwritten := s.unwritten + ChunkAt(c.chunks, n))
  }

  lemma OnwardSteps(w: World, s: State, id: Id)
    requires id in s.workers && Goes(w, s, id) && (s.workers[id].Seeking? ==> s.turns != [])
    ensures WorkerStep(w, s, Onward(w, s, id), id)
  {
    hide IsCommand, ParseSeek, ChunkAt, Buffer, Append, Shown, StartOf, LoopFits;
    if s.workers[id].Seeking? && s.unwritten != [] {
      assert FlushStep(s, Flushed(s, s.unwritten));
    }
  }

  // -------------------------------------------------------------------------- being served

  /** How much of its turn is still before a worker: the phase, and the steps in it. */
  ghost function Phase(pc: Pc): nat {
    match pc
    case Receiving(_) => 4
    case Seeking => 3
    case Sending(_, _, _) => 2
    case Closed(_) => 1
    case _ => 0
  }

  ghost function Ahead(w: World, s: State, id: Id): nat
    requires id in s.workers
  {
    match s.workers[id]
    case Receiving(n) => if n <= |w.clients(id).chunks| then |w.clients(id).chunks| + 1 - n else 0
    case Seeking => if s.unwritten == [] then 0 else 1
    case Sending(_, pos, _) => if pos < |Shown(w.mode, s.file)| then |Shown(w.mode, s.file)| - pos else 0
    case _ => 0
  }

  ghost predicate IsLess(w: World, s: State, s': State, id: Id)
    requires id in s.workers
  {
    && id in s'.workers && s'.order == s.order && (Critical(s'.workers[id]) || s'.workers[id].Unlocked?)
    && (Phase(s'.workers[id]) < Phase(s.workers[id])
        || (Phase(s'.workers[id]) == Phase(s.workers[id]) && Ahead(w, s', id) < Ahead(w, s, id)))
  }

  lemma OnwardIsLess(w: World, s: State, id: Id)
    requires id in s.workers && Critical(s.workers[id]) && Goes(w, s, id) && s.turns != []
    ensures IsLess(w, s, Onward(w, s, id), id)
  {
    hide IsCommand, ParseSeek, Buffer, Append, Shown, StartOf, LoopFits, IsLess;
    match s.workers[id] {
      case Receiving(n) => ReceivingIsLess(w, s, id, n);
      case Seeking => SeekingIsLess(w, s, id);
      case Sending(_, _, _) => SendingIsLess(w, s, id);
      case Closed(_) => ClosedIsLess(w, s, id);
    }
  }

  lemma ReceivingIsLess(w: World, s: State, id: Id, n: nat)
    requires id in s.workers && s.workers[id] == Receiving(n) && Goes(w, s, id)
    ensures IsLess(w, s, Onward(w, s, id), id)
  {
    hide IsCommand, ParseSeek, Buffer;
  }

  lemma SeekingIsLess(w: World, s: State, id: Id)
    requires id in s.workers && s.workers[id].Seeking? && Goes(w, s, id) && s.turns != []
    ensures IsLess(w, s, Onward(w, s, id), id)
  {
    hide Append, Shown, StartOf;
  }

  lemma SendingIsLess(w: World, s: State, id: Id)
    requires id in s.workers && s.workers[id].Sending? && Goes(w, s, id)
    ensures IsLess(w, s, Onward(w, s, id), id)
  {
    hide Shown, LoopFits;
  }

  lemma ClosedIsLess(w: World, s: State, id: Id)
    requires id in s.workers && s.workers[id].Closed? && Goes(w, s, id)
    ensures IsLess(w, s, Onward(w, s, id), id)
  {
  }

  lemma OneMore(w: World, tr: seq<State>, s': State)
    requires Behaviour(w, tr) && Next(w, Last(tr), s')
    ensures Behaviour(w, tr + [s'])
  {
    hide Next;
    var tr' := tr + [s'];
    forall i | 0 <= i < |tr'| - 1
      ensures Next(w, tr'[i], tr'[i + 1])
    {
      assert tr'[i] == tr[i];
      if i + 1 < |tr| {
        assert Next(w, tr[i], tr[i + 1]);
      }
    }
  }

  lemma HolderAtEnd(w: World, tr: seq<State>, id: Id)
    requires Behaviour(w, tr) && id in Last(tr).workers && Critical(Last(tr).workers[id])
    ensures Last(tr).holder == Some(id) && Last(tr).turns != []
  {
    hide Lifetimes, TurnsOk, RepliesOk, HolderOk;
    Reachable(w, tr, |tr| - 1);
  }

  /** A worker that holds the mutex can run to the end of its turn, unless the device would overrun a buffer. */
  lemma {:induction false} RunsToEnd(w: World, tr: seq<State>, id: Id) returns (tr': seq<State>)
    requires Behaviour(w, tr) && id in Last(tr).workers && Critical(Last(tr).workers[id])
    ensures Behaviour(w, tr') && tr <= tr' && Last(tr').order == Last(tr).order && id in Last(tr').workers
    ensures Last(tr').workers[id].Unlocked? || Overruns(w, Last(tr'), id)
    decreases Phase(Last(tr).workers[id]), Ahead(w, Last(tr), id)
  {
    var s := Last(tr);
    hide Behaviour, WorkerStep, Overruns, Onward, Phase, Ahead;
    HolderAtEnd(w, tr, id);
    if Overruns(w, s, id) {
      return tr;
    }
    var s' := Onward(w, s, id);
    OnwardSteps(w, s, id);
    OnwardIsLess(w, s, id);
    OneMore(w, tr, s');
    if s'.workers[id].Unlocked? {
      return tr + [s'];
    }
    tr' := RunsToEnd(w, tr + [s'], id);
  }

  /** Whenever the main thread polls and the mutex is free, a new client can be accepted and served next. Then
      it has its reply, which `RepliesFollowTurns` describes, unless the device would overrun a buffer. */
  lemma ClientCanBeServed(w: World, tr: seq<State>, id: Id) returns (tr': seq<State>)
    requires Behaviour(w, tr) && Last(tr).main == Polling && Last(tr).holder == None
    requires id !in Last(tr).workers && id !in Last(tr).infos
    ensures Behaviour(w, tr') && tr <= tr' && Last(tr').order == Last(tr).order + [id] && id in Last(tr').workers
    ensures Last(tr').workers[id].Unlocked? || Overruns(w, Last(tr'), id)
  {
    var s := Last(tr);
    hide Behaviour, Overruns;
    var s1 := s.(main := Accepted(id), infos := s.infos + {id});
    var s2 := s1.(main := Created(id), workers := s1.workers[id := Starting]);
    var s3 := At(s2, id, Receiving(0)).(holder := Some(id), open := true, order := s2.order + [id],
                                        turns := s2.turns + [[]]);
    assert MainStep(s, s1) && MainStep(s1, s2) && WorkerStep(w, s2, s3, id);
    hide MainStep, WorkerStep;
    OneMore(w, tr, s1);
    OneMore(w, tr + [s1], s2);
    OneMore(w, tr + [s1] + [s2], s3);
    tr' := RunsToEnd(w, tr + [s1] + [s2] + [s3], id);
    assert tr <= tr + [s1] + [s2] + [s3];
  }

  // -------------------------------------------------------------------------- being stuck

  lemma MainStuckIff(s: State)
    requires Lifetimes(s)
    ensures (exists s' :: MainStep(s, s'))
            <==> !s.main.Exited? && (s.main.Joining? ==> s.main.id in s.workers && s.workers[s.main.id].Terminated?)
  {
    if !s.main.Exited? && (s.main.Joining? ==> s.main.id in s.workers && s.workers[s.main.id].Terminated?) {
      MainCanStep(s);
    }
  }

  lemma WorkerStuckIff(w: World, s: State, id: Id)
    requires FileOk(w, s) && id in s.workers
    ensures (exists s' :: WorkerStep(w, s, s', id)) <==> Goes(w, s, id)
  {
    if Goes(w, s, id) {
      SeekingHasTurn(w, s, id);
      OnwardSteps(w, s, id);
    } else {
      NoStep(w, s, id);
    }
  }

  lemma SeekingHasTurn(w: World, s: State, id: Id)
    requires FileOk(w, s) && id in s.workers
    ensures s.workers[id].Seeking? ==> s.turns != []
  {
    hide TurnsOk, RepliesOk, HolderOk;
  }

  lemma NoStep(w: World, s: State, id: Id)
    requires id in s.workers && !Goes(w, s, id)
    ensures !exists s' :: WorkerStep(w, s, s', id)
  {
    hide LoopFits, Shown;
  }

  lemma HolderIsCritical(w: World, s: State)
    requires FileOk(w, s) && s.holder.Some?
    ensures s.holder.value in s.workers && Critical(s.workers[s.holder.value])
  {
    hide TurnsOk, RepliesOk, HolderOk;
  }

  /** The server stands still exactly when the main thread is done and every thread has terminated, or when a worker
      would have the device overrun a buffer, every other thread waits for it or has terminated, and the main thread
      is done or waits to join one that has not. So a regular file never stops it before its end. */
  lemma StuckIff(w: World, tr: seq<State>, i: nat)
    requires Behaviour(w, tr) && i < |tr|
    ensures var s := tr[i];
            !CanStep(w, s) <==>
              && (s.main.Exited? || (s.main.Joining? && s.main.id in s.workers && !s.workers[s.main.id].Terminated?))
              && (forall id :: id in s.workers ==>
                    s.workers[id].Terminated? || Overruns(w, s, id) || (s.workers[id] == Starting && s.holder != None))
    ensures !CanStep(w, tr[i]) && w.mode.Regular? ==>
              tr[i].main.Exited? && forall id :: id in tr[i].workers ==> tr[i].workers[id].Terminated?
  {
    hide Next, Lifetimes, FileOk, MainStep, WorkerStep;
    var s := tr[i];
    Reachable(w, tr, i);
    MainStuckIff(s);
    forall id | id in s.workers
      ensures (exists s' :: WorkerStep(w, s, s', id)) <==> Goes(w, s, id)
    {
      WorkerStuckIff(w, s, id);
    }
    JoinsAWorker(s);
    if s.holder.Some? {
      HolderIsCritical(w, s);
    }
  }

  lemma JoinsAWorker(s: State)
    requires Lifetimes(s)
    ensures s.main.Joining? ==> s.main.id in s.workers
  {
  }
}
