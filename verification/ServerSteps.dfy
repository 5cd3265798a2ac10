/** The server: the main thread and one worker per client, interleaved step by step. Thread records
    live until their threads have been joined; the open file and the pending seek request belong to the
    worker that holds the mutex; and every reply is decided by what the clients so far wrote, in the order
    in which they got the mutex. The file is a regular one or the character device. */
module ServerSteps {
  import opened Wrappers
  import opened Sequences
  import opened DeviceLog
  import AesdDevice
  import opened SeekCommand
  import opened ServerFile

  /** Every accepted client has its own number. */
  type Id = nat

  datatype Mode = Regular | Device(capacity: nat)

  /** What a client sends, and the bytes in the buffer that is allocated for it. */
  datatype Client = Client(raw: RecvBuffer, chunks: seq<Chunk>)

  datatype World = World(mode: Mode, clients: Id -> Client)

  /** The size of the buffer through which the standard library reads the device. */
  const STDIO_SIZE: nat := 4096

  datatype Pc =
    | Starting
    | Receiving(n: nat)                            // mutex held, file open, n chunks taken
    | Seeking
    | Sending(start: nat, pos: nat, sent: Bytes)
    | Closed(reply: Bytes)                         // file closed, mutex still held
    | Unlocked(reply: Bytes)
    | Finished(reply: Bytes)                       // is_finished is set
    | Terminated(reply: Bytes)

  datatype Main =
    | LoopTop
    | Polling
    | Accepted(id: Id)                             // thread record allocated
    | Created(id: Id)                              // thread runs, not yet in the list
    | Cleaning(wait: bool, todo: seq<Id>)          // the rest of the walk over the list
    | Joining(wait: bool, id: Id, rest: seq<Id>)
    | Exited

  /** `file` is what the file stores; `unwritten` waits in the buffer of the open file; `turns` are the
      writes each client's turn was flushed in, in the order of `order`. */
  datatype State = State(
    main: Main, stop: bool,
    list: seq<Id>, infos: set<Id>, finished: set<Id>, joined: seq<Id>,
    workers: map<Id, Pc>,
    holder: Option<Id>, open: bool, file: Log, unwritten: Bytes,
    seekto: Option<AesdDevice.SeekTo>, seekAllocs: nat, seekFrees: nat,
    order: seq<Id>, turns: seq<seq<Bytes>>)

  const START: State :=
    State(LoopTop, false, [], {}, {}, [], map[], None, false, EMPTY, [], None, 0, 0, [], [])

  // ------------------------------------------------------------------ what a turn does, at once

  /** What reading the file shows: all of a regular file, the visible entries of the device. */
  function Shown(m: Mode, file: Log): Bytes {
    match m
    case Regular => Stream(file)
    case Device(capacity) => Flatten(LastN(file.entries, capacity))
  }

  /** Where a reply starts: the seek command has no effect on a regular file. */
  function StartOf(m: Mode, file: Log, request: Option<AesdDevice.SeekTo>): (start: nat)
    ensures start <= |Shown(m, file)|
  {
    match m
    case Regular => 0
    case Device(capacity) => ReplyStart(capacity, file, request)
  }

  function ReplyOf(m: Mode, file: Log, request: Option<AesdDevice.SeekTo>): Bytes {
    Shown(m, file)[StartOf(m, file, request)..]
  }

  function ClientData(c: Client): Bytes {
    Data(c.raw, c.chunks, Taken(c.chunks, 0))
  }

  function ClientRequest(c: Client): Option<AesdDevice.SeekTo> {
    Request(c.raw, c.chunks, Taken(c.chunks, 0), None)
  }

  // ------------------------------------------------------------------------------- the steps

  ghost predicate MainStep(s: State, s': State) {
    match s.main
    case LoopTop =>
      s' == s.(main := if s.stop then Cleaning(true, s.list) else Polling)
    case Polling =>
      || s' == s.(main := LoopTop)                      // accept failed
      || s' == s.(main := Cleaning(false, s.list))      // nobody came
      || exists id :: id !in s.workers && id !in s.infos && s' == s.(main := Accepted(id), infos := s.infos + {id})
    case Accepted(id) =>
      s' == s.(main := Created(id), workers := s.workers[id := Starting])
    case Created(id) =>
      s' == s.(main := Cleaning(false, [id] + s.list), list := [id] + s.list)
    case Cleaning(wait, todo) =>
      if todo == [] then s' == s.(main := if wait then Exited else LoopTop)
      else if todo[0] in s.finished || wait then
        s' == s.(main := Joining(wait, todo[0], todo[1..]), list := Without(s.list, todo[0]))
      else s' == s.(main := Cleaning(wait, todo[1..]))
    case Joining(wait, id, rest) =>
      && id in s.workers && s.workers[id].Terminated?
      && s' == s.(main := Cleaning(wait, rest), joined := s.joined + [id], infos := s.infos - {id})
    case Exited => false
  }

  /** A list without one element. */
  function Without(s: seq<Id>, id: Id): seq<Id> {
    if s == [] then [] else if s[0] == id then s[1..] else [s[0]] + Without(s[1..], id)
  }

  function At(s: State, id: Id, pc: Pc): State {
    s.(workers := s.workers[id := pc])
  }

  /** One turn of the receive loop, or its end after a chunk that did not fill the buffer. */
  ghost predicate ReceiveStep(c: Client, s: State, s': State, id: Id, n: nat) {
    if n > 0 && |ChunkAt(c.chunks, n - 1)| != MAXDATASIZE then s' == At(s, id, Seeking)
    else
      var buffer := Buffer(c.raw, c.chunks, n + 1);
      if IsCommand(buffer) then
        s' == At(s, id, Receiving(n + 1)).(
          seekto := Some(ParseSeek(buffer)), seekAllocs := s.seekAllocs + if s.seekto == None then 1 else 0)
      else
        s' == At(s, id, Receiving(n + 1)).(unwritten := s.unwritten + ChunkAt(c.chunks, n))
  }

  /** What one flush of the bytes b makes of the file, the last turn and what waits. */
  function Flushed(s: State, b: Bytes): State
    requires s.turns != [] && b <= s.unwritten
  {
    s.(file := Append(s.file, b), unwritten := s.unwritten[|b|..],
       turns := s.turns[..|s.turns| - 1] + [Last(s.turns) + [b]])
  }

  /** The standard library writes some of what waits, as one write, whenever it likes. */
  ghost predicate FlushStep(s: State, s': State) {
    && s.turns != []
    && exists b :: b != [] && b <= s.unwritten && s' == Flushed(s, b)
  }

  /** The seek to the start, which leaves nothing unwritten, and the ioctl; the request is freed. */
  ghost predicate SeekStep(m: Mode, s: State, s': State, id: Id) {
    && s.unwritten == []
    && var start := StartOf(m, s.file, s.seekto);
       s' == At(s, id, Sending(start, start, [])).(
         seekto := None, seekFrees := s.seekFrees + if s.seekto == None then 0 else 1)
  }

  /** One turn of the send loop, or its end, where the file is closed. Reading a device entry longer than
      the library's buffer is undefined; there is no step for it. */
  ghost predicate SendStep(m: Mode, s: State, s': State, id: Id, start: nat, pos: nat, sent: Bytes) {
    && (m.Device? ==> LoopFits(LastN(s.file.entries, m.capacity), start, STDIO_SIZE))
    && var shown := Shown(m, s.file);
       if pos < |shown| then
         var b := if pos + SEND_SIZE <= |shown| then SEND_SIZE else |shown| - pos;
         s' == At(s, id, Sending(start, pos + b, sent + shown[pos..pos + b]))
       else s' == At(s, id, Closed(sent)).(open := false)
  }

  ghost predicate WorkerStep(w: World, s: State, s': State, id: Id)
    requires id in s.workers
  {
    match s.workers[id]
    case Starting =>
      && s.holder == None
      && s' == At(s, id, Receiving(0)).(
           holder := Some(id), open := true, order := s.order + [id], turns := s.turns + [[]])
    case Receiving(n) => FlushStep(s, s') || ReceiveStep(w.clients(id), s, s', id, n)
    case Seeking => FlushStep(s, s') || SeekStep(w.mode, s, s', id)
    case Sending(start, pos, sent) => SendStep(w.mode, s, s', id, start, pos, sent)
    case Closed(reply) => s' == At(s, id, Unlocked(reply)).(holder := None)
    case Unlocked(reply) => s' == At(s, id, Finished(reply)).(finished := s.finished + {id})
    case Finished(reply) => s' == At(s, id, Terminated(reply))
    case Terminated(_) => false
  }

  ghost predicate Next(w: World, s: State, s': State) {
    || MainStep(s, s')
    || s' == s.(stop := true)
    || exists id :: id in s.workers && WorkerStep(w, s, s', id)
  }

  ghost predicate Behaviour(w: World, tr: seq<State>) {
    tr != [] && tr[0] == START && forall i :: 0 <= i < |tr| - 1 ==> Next(w, tr[i], tr[i + 1])
  }

  // ---------------------------------------------------------------------- thread lifetimes

  /** The client the main thread holds outside the list. */
  function Pending(m: Main): set<Id> {
    match m
    case Accepted(id) => {id}
    case Created(id) => {id}
    case Joining(_, id, _) => {id}
    case _ => {}
  }

  ghost predicate Lifetimes(s: State) {
    // every record is in the list or in the main thread's hands, and is there once
    && Distinct(s.list) && Distinct(s.joined)
    && (forall id :: id in s.list ==> id in s.workers && id !in Pending(s.main) && id !in s.joined)
    && (forall id :: id in s.infos <==> id in s.list || id in Pending(s.main))
    && (forall id :: id in s.joined ==> id in s.workers && id !in Pending(s.main))
    // a thread whose record is gone was joined after it terminated
    && (forall id :: id in s.workers ==> id in s.infos || id in s.joined)
    && (forall id :: id in s.joined ==> s.workers[id].Terminated?)
    && (s.main.Accepted? ==> s.main.id !in s.workers)
    && (s.main.Created? || s.main.Joining? ==> s.main.id in s.workers)
    // the walk: what is ahead is still in the list, and a waiting walk leaves nothing behind
    && (s.main.Cleaning? ==> WalkOk(s.main.wait, s.main.todo, s.list))
    && (s.main.Joining? ==> WalkOk(s.main.wait, s.main.rest, s.list))
    && (s.main.Exited? ==> s.list == [])
  }

  ghost predicate WalkOk(wait: bool, todo: seq<Id>, list: seq<Id>) {
    && Distinct(todo) && (forall id :: id in todo ==> id in list)
    && (wait ==> todo == list)
  }

  lemma {:induction false} WithoutOne(s: seq<Id>, id: Id)
    requires Distinct(s) && id in s
    ensures Distinct(Without(s, id)) && forall x :: x in Without(s, id) <==> x in s && x != id
    ensures s[0] == id ==> Without(s, id) == s[1..]
  {
    if s[0] == id {
      assert forall x :: x in s <==> x == id || x in s[1..];
    } else {
      assert id in s[1..];
      WithoutOne(s[1..], id);
      assert forall x :: x in s <==> x == s[0] || x in s[1..];
      var rest := Without(s[1..], id);
      assert forall j :: 0 <= j < |rest| ==> rest[j] in rest;
    }
  }

  lemma InsertKeeps(s: State, s': State)
    requires Lifetimes(s) && s.main.Created? && MainStep(s, s')
    ensures Lifetimes(s')
  {
    assert forall x :: x in s'.list <==> x == s.main.id || x in s.list;
  }

  lemma WalkRest(wait: bool, todo: seq<Id>, list: seq<Id>)
    requires WalkOk(wait, todo, list) && Distinct(list) && todo != []
    ensures todo[0] in list && Distinct(Without(list, todo[0]))
    ensures forall x :: x in Without(list, todo[0]) <==> x in list && x != todo[0]
    ensures WalkOk(wait, todo[1..], Without(list, todo[0]))
    ensures WalkOk(false, todo[1..], list)
  {
    assert todo[0] in todo;
    WithoutOne(list, todo[0]);
    forall x | x in todo[1..]
      ensures x in list && x != todo[0]
    {
      var i :| 0 <= i < |todo| - 1 && todo[i + 1] == x;
      assert todo[i + 1] in todo;
    }
  }

  lemma RemoveKeeps(s: State, s': State)
    requires Lifetimes(s) && s.main.Cleaning? && MainStep(s, s')
    ensures Lifetimes(s')
  {
    var wait, todo := s.main.wait, s.main.todo;
    if todo == [] {
      WalkEnds(wait, s.list);
    } else if todo[0] in s.finished || wait {
      TakeOutKeeps(s, s', todo[0]);
    } else {
      WalkRest(wait, todo, s.list);
    }
  }

  lemma TakeOutKeeps(s: State, s': State, id: Id)
    requires Lifetimes(s) && s.main.Cleaning? && s.main.todo != [] && s.main.todo[0] == id
    requires s' == s.(main := Joining(s.main.wait, id, s.main.todo[1..]), list := Without(s.list, id))
    ensures Lifetimes(s')
  {
    hide WalkOk, Distinct, Without;
    WalkRest(s.main.wait, s.main.todo, s.list);
    assert Pending(s.main) == {} && Pending(s'.main) == {id};
  }

  lemma WalkEnds(wait: bool, list: seq<Id>)
    requires WalkOk(wait, [], list)
    ensures wait ==> list == []
  {
  }

  lemma JoinKeeps(s: State, s': State)
    requires Lifetimes(s) && s.main.Joining? && MainStep(s, s')
    ensures Lifetimes(s')
  {
    assert forall x :: x in s'.joined <==> x == s.main.id || x in s.joined;
  }

  lemma PollKeeps(s: State, s': State)
    requires Lifetimes(s) && MainStep(s, s') && (s.main.LoopTop? || s.main.Polling?)
    ensures Lifetimes(s')
  {
    hide Without, Distinct, WalkOk;
    assert Pending(s.main) == {};
    WalkStarts(s.list);
    if s'.main.Accepted? {
      AcceptKeeps(s, s', s'.main.id);
    }
  }

  lemma AcceptKeeps(s: State, s': State, id: Id)
    requires Lifetimes(s) && s.main == Polling && id !in s.workers && id !in s.infos
    requires s' == s.(main := Accepted(id), infos := s.infos + {id})
    ensures Lifetimes(s')
  {
    hide Distinct;
  }

  lemma WalkStarts(list: seq<Id>)
    requires Distinct(list)
    ensures WalkOk(true, list, list) && WalkOk(false, list, list)
  {
  }

  lemma StartKeeps(s: State, s': State)
    requires Lifetimes(s) && MainStep(s, s') && s.main.Accepted?
    ensures Lifetimes(s')
  {
    hide Without, Distinct;
  }

  lemma MainKeepsLifetimes(s: State, s': State)
    requires Lifetimes(s) && MainStep(s, s')
    ensures Lifetimes(s')
  {
    hide Lifetimes, Without;
    match s.main {
      case LoopTop => PollKeeps(s, s');
      case Polling => PollKeeps(s, s');
      case Accepted(_) => StartKeeps(s, s');
      case Created(_) => InsertKeeps(s, s');
      case Cleaning(_, _) => RemoveKeeps(s, s');
      case Joining(_, _, _) => JoinKeeps(s, s');
    }
  }

  /** The fields that only the worker with the mutex changes, in the steps of its two loops. */
  ghost predicate LoopStep(w: World, s: State, s': State, id: Id)
    requires id in s.workers
  {
    match s.workers[id]
    case Receiving(n) => FlushStep(s, s') || ReceiveStep(w.clients(id), s, s', id, n)
    case Seeking => FlushStep(s, s') || SeekStep(w.mode, s, s', id)
    case Sending(start, pos, sent) => SendStep(w.mode, s, s', id, start, pos, sent)
    case _ => false
  }

  ghost predicate Touches(s: State, s': State, id: Id) {
    && id in s'.workers && Critical(s'.workers[id]) && |s'.turns| == |s.turns|
    && s' == At(s, id, s'.workers[id]).(
               open := s'.open, file := s'.file, unwritten := s'.unwritten, turns := s'.turns,
               seekto := s'.seekto, seekAllocs := s'.seekAllocs, seekFrees := s'.seekFrees)
  }

  lemma FlushTouches(s: State, s': State, id: Id)
    requires id in s.workers && Critical(s.workers[id]) && FlushStep(s, s')
    ensures Touches(s, s', id)
  {
    hide Append;
    assert s.workers == s.workers[id := s.workers[id]];
  }

  lemma ReceiveTouches(c: Client, s: State, s': State, id: Id, n: nat)
    requires ReceiveStep(c, s, s', id, n)
    ensures Touches(s, s', id)
  {
    hide IsCommand, ParseSeek, ChunkAt, Buffer;
  }

  lemma SendTouches(m: Mode, s: State, s': State, id: Id, start: nat, pos: nat, sent: Bytes)
    requires SendStep(m, s, s', id, start, pos, sent)
    ensures Touches(s, s', id)
  {
    hide Shown, LoopFits;
  }

  lemma LoopTouches(w: World, s: State, s': State, id: Id)
    requires id in s.workers && LoopStep(w, s, s', id)
    ensures Touches(s, s', id)
  {
    hide FlushStep, ReceiveStep, SendStep, StartOf, Touches;
    var pc := s.workers[id];
    if pc.Sending? {
      SendTouches(w.mode, s, s', id, pc.start, pc.pos, pc.sent);
    } else if FlushStep(s, s') {
      FlushTouches(s, s', id);
    } else if pc.Receiving? {
      ReceiveTouches(w.clients(id), s, s', id, pc.n);
    } else {
      SeekTouches(w.mode, s, s', id);
    }
  }

  lemma SeekTouches(m: Mode, s: State, s': State, id: Id)
    requires SeekStep(m, s, s', id)
    ensures Touches(s, s', id)
  {
    hide StartOf;
  }

  lemma WorkerTouches(w: World, s: State, s': State, id: Id)
    requires id in s.workers && WorkerStep(w, s, s', id)
    ensures s'.main == s.main && s'.list == s.list && s'.infos == s.infos && s'.joined == s.joined
    ensures id in s'.workers && s'.workers == s.workers[id := s'.workers[id]]
    ensures !s.workers[id].Terminated?
  {
    hide ReceiveStep, SendStep, FlushStep, SeekStep;
    if LoopStep(w, s, s', id) {
      LoopTouches(w, s, s', id);
    }
  }

  lemma WorkerKeepsLifetimes(w: World, s: State, s': State, id: Id)
    requires Lifetimes(s) && id in s.workers && WorkerStep(w, s, s', id)
    ensures Lifetimes(s')
  {
    hide WorkerStep, Distinct, WalkOk;
    WorkerTouches(w, s, s', id);
  }

  // ------------------------------------------------------- the file, the request, the replies

  /** The data of all clients served so far, in the order they got the mutex. */
  function AllData(w: World, order: seq<Id>): Bytes {
    if order == [] then [] else AllData(w, order[..|order| - 1]) + ClientData(w.clients(Last(order)))
  }

  /** Between taking and releasing the mutex. */
  predicate Critical(pc: Pc) {
    pc.Receiving? || pc.Seeking? || pc.Sending? || pc.Closed?
  }

  predicate Replied(pc: Pc) {
    pc.Closed? || pc.Unlocked? || pc.Finished? || pc.Terminated?
  }

  /** The file after the first `k` turns. */
  function FileAfter(turns: seq<seq<Bytes>>, k: nat): Log
    requires k <= |turns|
  {
    Run(Flatten(turns[..k]))
  }

  /** The reply of a client is what the file shows after the turns up to and including its own, from
      where its own request asks. */
  ghost predicate ReplyOk(w: World, s: State, id: Id, reply: Bytes) {
    && |s.turns| == |s.order|
    && exists k :: 0 <= k < |s.order| && s.order[k] == id
         && reply == ReplyOf(w.mode, FileAfter(s.turns, k + 1), ClientRequest(w.clients(id)))
  }

  /** The turn of every client but the one that holds the mutex was flushed completely. */
  ghost predicate TurnsOk(w: World, s: State) {
    && |s.turns| == |s.order|
    && s.file == Run(Flatten(s.turns))
    && forall j :: 0 <= j < |s.order| && s.holder != Some(s.order[j]) ==>
         Flatten(s.turns[j]) == ClientData(w.clients(s.order[j]))
  }

  /** What the worker that holds the mutex, last in the order, has done so far. */
  ghost predicate HolderOk(w: World, s: State, id: Id)
    requires id in s.workers && s.turns != []
  {
    var c, turn := w.clients(id), Flatten(Last(s.turns));
    match s.workers[id]
    case Receiving(n) =>
      && s.open && (n > 0 ==> Taken(c.chunks, 0) == Taken(c.chunks, n - 1))
      && turn + s.unwritten == Data(c.raw, c.chunks, n)
      && s.seekto == Request(c.raw, c.chunks, n, None)
    case Seeking => s.open && turn + s.unwritten == ClientData(c) && s.seekto == ClientRequest(c)
    case Sending(start, pos, sent) =>
      && s.open && turn == ClientData(c) && s.unwritten == [] && s.seekto == None
      && start == StartOf(w.mode, s.file, ClientRequest(c))
      && start <= pos <= |Shown(w.mode, s.file)| && sent == Shown(w.mode, s.file)[start..pos]
    case Closed(reply) =>
      && !s.open && turn == ClientData(c) && s.unwritten == [] && s.seekto == None
      && reply == ReplyOf(w.mode, s.file, ClientRequest(c))
    case _ => false
  }

  /** The mutex, and the pending request that each allocation is freed from exactly once. */
  ghost predicate MutexOk(s: State) {
    && (forall id :: id in s.workers ==> (Critical(s.workers[id]) <==> s.holder == Some(id)))
    && (s.holder.Some? ==> s.holder.value in s.workers && s.order != [] && Last(s.order) == s.holder.value)
    && Distinct(s.order)
    && (forall id :: id in s.order ==> id in s.workers && s.workers[id] != Starting)
    && s.seekAllocs == s.seekFrees + (if s.seekto == None then 0 else 1)
  }

  ghost predicate RepliesOk(w: World, s: State) {
    forall id :: id in s.workers && Replied(s.workers[id]) ==> ReplyOk(w, s, id, s.workers[id].reply)
  }

  ghost predicate ContentOk(w: World, s: State) {
    match s.holder
    case None => !s.open && s.unwritten == [] && s.seekto == None
    case Some(id) => id in s.workers && s.turns != [] && HolderOk(w, s, id)
  }

  ghost predicate FileOk(w: World, s: State) {
    MutexOk(s) && TurnsOk(w, s) && RepliesOk(w, s) && ContentOk(w, s)
  }

  // ---------------------------------------------------------------------- replies stay right

  /** Later turns, and more of the last turn, do not change the reply of an earlier one. */
  lemma ReplyStays(w: World, s: State, s': State, id: Id, reply: Bytes, last: nat)
    requires ReplyOk(w, s, id, reply) && last <= |s.order| <= |s'.order| == |s'.turns|
    requires s'.order[..|s.order|] == s.order && s'.turns[..last] == s.turns[..last]
    requires last == |s.order| || (Distinct(s.order) && last == |s.order| - 1 && s.order[last] != id)
    ensures ReplyOk(w, s', id, reply)
  {
    hide ReplyOf;
    var k :| 0 <= k < |s.order| && s.order[k] == id
             && reply == ReplyOf(w.mode, FileAfter(s.turns, k + 1), ClientRequest(w.clients(id)));
    assert s'.turns[..k + 1] == s'.turns[..last][..k + 1] == s.turns[..last][..k + 1] == s.turns[..k + 1];
    assert s'.order[k] == s'.order[..|s.order|][k];
  }

  /** The reply of the last client is that of the whole file. */
  lemma LastReplyOk(w: World, s: State, id: Id)
    requires TurnsOk(w, s) && s.order != [] && Last(s.order) == id
    ensures ReplyOk(w, s, id, ReplyOf(w.mode, s.file, ClientRequest(w.clients(id))))
  {
    hide ReplyOf;
    assert s.turns[..|s.order| - 1 + 1] == s.turns && s.order[|s.order| - 1] == id;
  }

  lemma RepliesStay(w: World, s: State, s': State)
    requires RepliesOk(w, s) && s'.order == s.order && s'.turns == s.turns
    requires forall id :: id in s'.workers && Replied(s'.workers[id]) ==>
               (id in s.workers && Replied(s.workers[id]) && s.workers[id].reply == s'.workers[id].reply)
               || ReplyOk(w, s, id, s'.workers[id].reply)
    ensures RepliesOk(w, s')
  {
    forall id | id in s'.workers && Replied(s'.workers[id])
      ensures ReplyOk(w, s', id, s'.workers[id].reply)
    {
      assert ReplyOk(w, s, id, s'.workers[id].reply);
    }
  }

  // ----------------------------------------------------------------- every step keeps it all

  lemma LockKeeps(w: World, s: State, s': State, id: Id)
    requires FileOk(w, s) && id in s.workers && s.workers[id] == Starting && WorkerStep(w, s, s', id)
    ensures FileOk(w, s')
  {
    hide ReplyOk, HolderOk, TurnsOk, Distinct, Run, WorkerStep;
    LockFacts(w, s, s', id);
    DistinctSnoc(s.order, id);
    assert s'.order[..|s.order|] == s.order;
    forall x | x in s'.workers && Replied(s'.workers[x])
      ensures ReplyOk(w, s', x, s'.workers[x].reply)
    {
      ReplyStays(w, s, s', x, s.workers[x].reply, |s.order|);
    }
  }

  lemma LockFacts(w: World, s: State, s': State, id: Id)
    requires FileOk(w, s) && id in s.workers && s.workers[id] == Starting && WorkerStep(w, s, s', id)
    ensures s.holder == None && s' == At(s, id, Receiving(0)).(
              holder := Some(id), open := true, order := s.order + [id], turns := s.turns + [[]])
    ensures id !in s.order && s'.turns != [] && |s'.turns| == |s'.order| && TurnsOk(w, s') && HolderOk(w, s', id)
    ensures s'.turns[..|s.order|] == s.turns
    ensures forall x :: x in s'.order <==> x == id || x in s.order
  {
    hide RepliesOk, Data, Taken, Request, Run;
    var c := w.clients(id);
    TakeStep(c.raw, c.chunks, 0, None);
    FlattenSnoc(s.turns, []);
    assert Flatten(s.turns) + [] == Flatten(s.turns);
  }

  lemma FlushFile(turns: seq<seq<Bytes>>, b: Bytes)
    requires turns != []
    ensures var turns' := turns[..|turns| - 1] + [Last(turns) + [b]];
            Run(Flatten(turns')) == Append(Run(Flatten(turns)), b)
  {
    hide Run, Append;
    var front, turn := turns[..|turns| - 1], Last(turns);
    assert turns == front + [turn];
    FlattenSnoc(front, turn);
    FlattenSnoc(front, turn + [b]);
    assert Flatten(front) + (turn + [b]) == Flatten(turns) + [b];
    RunSnoc(Flatten(turns), b);
  }

  lemma FlushBytes(turn: seq<Bytes>, b: Bytes, unwritten: Bytes)
    requires b <= unwritten
    ensures Flatten(turn + [b]) + unwritten[|b|..] == Flatten(turn) + unwritten
  {
    FlattenSnoc(turn, b);
    hide Flatten;
    assert b + unwritten[|b|..] == unwritten;
    assert Flatten(turn) + b + unwritten[|b|..] == Flatten(turn) + (b + unwritten[|b|..]);
  }

  lemma FlushTurns(w: World, s: State, b: Bytes)
    requires TurnsOk(w, s) && s.turns != [] && s.holder == Some(Last(s.order)) && b <= s.unwritten
    ensures TurnsOk(w, Flushed(s, b))
  {
    hide Run, Append, ClientData, Flatten;
    FlushFile(s.turns, b);
    var s' := Flushed(s, b);
    forall j | 0 <= j < |s.order| && s'.holder != Some(s.order[j])
      ensures Flatten(s'.turns[j]) == ClientData(w.clients(s.order[j]))
    {
      assert j < |s.order| - 1;
      assert s'.turns[j] == s.turns[j];
    }
  }

  lemma FlushFacts(w: World, s: State, s': State)
    requires TurnsOk(w, s) && FlushStep(s, s') && s.holder == Some(Last(s.order))
    ensures TurnsOk(w, s') && s'.turns != [] && |s'.turns| == |s.turns|
    ensures s' == s.(file := s'.file, unwritten := s'.unwritten, turns := s'.turns)
    ensures s'.turns[..|s.turns| - 1] == s.turns[..|s.turns| - 1]
    ensures Flatten(Last(s'.turns)) + s'.unwritten == Flatten(Last(s.turns)) + s.unwritten
  {
    hide Append, Flatten, TurnsOk;
    var b :| b != [] && b <= s.unwritten && s' == Flushed(s, b);
    FlushTurns(w, s, b);
    FlushBytes(Last(s.turns), b, s.unwritten);
  }

  lemma FlushKeeps(w: World, s: State, s': State, id: Id)
    requires FileOk(w, s) && s.holder == Some(id) && FlushStep(s, s')
    requires id in s.workers && (s.workers[id].Receiving? || s.workers[id].Seeking?)
    ensures FileOk(w, s')
  {
    hide TurnsOk, ReplyOk, FlushStep, Distinct;
    FlushFacts(w, s, s');
    FlushHolder(w, s, s', id);
    SameLength(w, s);
    forall x | x in s'.workers && Replied(s'.workers[x])
      ensures ReplyOk(w, s', x, s'.workers[x].reply)
    {
      ReplyStays(w, s, s', x, s.workers[x].reply, |s.order| - 1);
    }
  }

  lemma SameLength(w: World, s: State)
    requires TurnsOk(w, s)
    ensures |s.turns| == |s.order|
  {
  }

  lemma FlushHolder(w: World, s: State, s': State, id: Id)
    requires id in s.workers && (s.workers[id].Receiving? || s.workers[id].Seeking?)
    requires s.turns != [] && s'.turns != [] && HolderOk(w, s, id)
    requires s' == s.(file := s'.file, unwritten := s'.unwritten, turns := s'.turns)
    requires Flatten(Last(s'.turns)) + s'.unwritten == Flatten(Last(s.turns)) + s.unwritten
    ensures HolderOk(w, s', id)
  {
    hide Data, Taken, Request, Flatten, ClientData, ClientRequest;
  }

  /** A step of the holder that is no flush keeps the turns, and leaves it right. */
  ghost predicate Serves(w: World, s: State, s': State, id: Id)
    requires id in s.workers
  {
    && s.turns != [] && id in s'.workers && s'.turns == s.turns && s'.file == s.file && s'.order == s.order
    && s'.workers == s.workers[id := s'.workers[id]] && s'.holder == s.holder && HolderOk(w, s', id)
    && s'.seekAllocs - s'.seekFrees - (if s'.seekto == None then 0 else 1)
       == s.seekAllocs - s.seekFrees - (if s.seekto == None then 0 else 1)
  }

  lemma TakeChunkServes(w: World, s: State, s': State, id: Id)
    requires id in s.workers && s.workers[id].Receiving? && s.turns != [] && HolderOk(w, s, id)
    requires ReceiveStep(w.clients(id), s, s', id, s.workers[id].n)
    requires s.workers[id].n == 0 || |ChunkAt(w.clients(id).chunks, s.workers[id].n - 1)| == MAXDATASIZE
    ensures Serves(w, s, s', id)
  {
    hide IsCommand, ParseSeek, Data, Taken, Request, ChunkAt, Buffer, Flatten, Serves, ReceiveStep;
    var n, c, turn := s.workers[id].n, w.clients(id), Flatten(Last(s.turns));
    TakeStep(c.raw, c.chunks, n, None);
    if n > 0 {
      TakeStep(c.raw, c.chunks, n - 1, None);
    }
    assert Taken(c.chunks, 0) == Taken(c.chunks, n);
    if IsCommand(Buffer(c.raw, c.chunks, n + 1)) {
      TakeCommandServes(w, s, s', id, n);
    } else {
      assert turn + (s.unwritten + ChunkAt(c.chunks, n)) == turn + s.unwritten + ChunkAt(c.chunks, n);
      TakeDataServes(w, s, s', id, n);
    }
  }

  lemma TakeCommandServes(w: World, s: State, s': State, id: Id, n: nat)
    requires id in s.workers && s.workers[id] == Receiving(n) && s.turns != [] && s.open
    requires ReceiveStep(w.clients(id), s, s', id, n)
    requires IsCommand(Buffer(w.clients(id).raw, w.clients(id).chunks, n + 1))
    requires n == 0 || |ChunkAt(w.clients(id).chunks, n - 1)| == MAXDATASIZE
    requires var c := w.clients(id);
             && Taken(c.chunks, 0) == Taken(c.chunks, n)
             && Flatten(Last(s.turns)) + s.unwritten == Data(c.raw, c.chunks, n + 1)
             && Some(ParseSeek(Buffer(c.raw, c.chunks, n + 1))) == Request(c.raw, c.chunks, n + 1, None)
    ensures Serves(w, s, s', id)
  {
    hide IsCommand, ParseSeek, Data, Taken, Request, ChunkAt, Buffer, Flatten;
  }

  lemma TakeDataServes(w: World, s: State, s': State, id: Id, n: nat)
    requires id in s.workers && s.workers[id] == Receiving(n) && s.turns != [] && s.open
    requires ReceiveStep(w.clients(id), s, s', id, n)
    requires !IsCommand(Buffer(w.clients(id).raw, w.clients(id).chunks, n + 1))
    requires n == 0 || |ChunkAt(w.clients(id).chunks, n - 1)| == MAXDATASIZE
    requires var c := w.clients(id);
             && Taken(c.chunks, 0) == Taken(c.chunks, n)
             && Flatten(Last(s.turns)) + (s.unwritten + ChunkAt(c.chunks, n)) == Data(c.raw, c.chunks, n + 1)
             && s.seekto == Request(c.raw, c.chunks, n + 1, None)
    ensures Serves(w, s, s', id)
  {
    hide IsCommand, ParseSeek, Data, Taken, Request, ChunkAt, Buffer, Flatten;
  }

  lemma ReceivedServes(w: World, s: State, s': State, id: Id)
    requires id in s.workers && s.workers[id].Receiving? && s.turns != [] && HolderOk(w, s, id)
    requires ReceiveStep(w.clients(id), s, s', id, s.workers[id].n)
    requires s.workers[id].n > 0 && |ChunkAt(w.clients(id).chunks, s.workers[id].n - 1)| != MAXDATASIZE
    ensures Serves(w, s, s', id)
  {
    hide IsCommand, ParseSeek, Data, Taken, Request, ChunkAt, Buffer, Flatten;
    var n, c := s.workers[id].n, w.clients(id);
    TakeStep(c.raw, c.chunks, n - 1, None);
  }

  lemma SeekServes(w: World, s: State, s': State, id: Id)
    requires id in s.workers && s.workers[id].Seeking? && s.turns != [] && HolderOk(w, s, id)
    requires SeekStep(w.mode, s, s', id)
    ensures Serves(w, s, s', id)
  {
    hide ClientData, ClientRequest, Flatten, Shown, StartOf;
    assert Flatten(Last(s.turns)) + [] == Flatten(Last(s.turns));
  }

  lemma SendServes(w: World, s: State, s': State, id: Id)
    requires id in s.workers && s.workers[id].Sending? && s.turns != [] && HolderOk(w, s, id)
    requires var pc := s.workers[id]; SendStep(w.mode, s, s', id, pc.start, pc.pos, pc.sent)
    ensures Serves(w, s, s', id)
  {
    hide ClientData, ClientRequest, Flatten, Shown, StartOf, LoopFits;
    var shown, pc := Shown(w.mode, s.file), s.workers[id];
    if pc.pos < |shown| {
      var b := if pc.pos + SEND_SIZE <= |shown| then SEND_SIZE else |shown| - pc.pos;
      assert shown[pc.start..pc.pos] + shown[pc.pos..pc.pos + b] == shown[pc.start..pc.pos + b];
    } else {
      assert shown[pc.start..pc.pos] == shown[pc.start..];
    }
  }

  lemma ServesKeeps(w: World, s: State, s': State, id: Id)
    requires FileOk(w, s) && s.holder == Some(id) && id in s.workers && Serves(w, s, s', id)
    requires Critical(s.workers[id]) && !s.workers[id].Closed? && Critical(s'.workers[id])
    ensures FileOk(w, s')
  {
    hide HolderOk, ReplyOk, Distinct, Run;
    if s'.workers[id].Closed? {
      ClosedReply(w, s', id);
      LastReplyOk(w, s', id);
      assert ReplyOk(w, s', id, s'.workers[id].reply);
      SameReply(w, s, s', id, s'.workers[id].reply);
    }
    RepliesStay(w, s, s');
  }

  lemma ClosedReply(w: World, s: State, id: Id)
    requires id in s.workers && s.turns != [] && s.workers[id].Closed? && HolderOk(w, s, id)
    ensures s.workers[id].reply == ReplyOf(w.mode, s.file, ClientRequest(w.clients(id)))
  {
  }

  lemma SameReply(w: World, s: State, s': State, id: Id, reply: Bytes)
    requires ReplyOk(w, s', id, reply) && s'.order == s.order && s'.turns == s.turns
    ensures ReplyOk(w, s, id, reply)
  {
  }

  lemma ReleaseKeeps(w: World, s: State, s': State, id: Id)
    requires FileOk(w, s) && s.holder == Some(id) && id in s.workers && s.workers[id].Closed?
    requires s' == At(s, id, Unlocked(s.workers[id].reply)).(holder := None)
    ensures FileOk(w, s')
  {
    hide ReplyOk, Run, ClientRequest, ReplyOf, Flatten;
    RepliesStay(w, s, s');
  }

  lemma HolderKeeps(w: World, s: State, s': State, id: Id)
    requires FileOk(w, s) && s.holder == Some(id) && id in s.workers && WorkerStep(w, s, s', id)
    ensures FileOk(w, s')
  {
    hide FileOk, ReceiveStep, SendStep, FlushStep, SeekStep, Serves, HolderOk;
    HolderFacts(w, s, id);
    match s.workers[id] {
      case Receiving(n) =>
        if FlushStep(s, s') {
          FlushKeeps(w, s, s', id);
        } else {
          LoopTouches(w, s, s', id);
          if n > 0 && |ChunkAt(w.clients(id).chunks, n - 1)| != MAXDATASIZE {
            ReceivedServes(w, s, s', id);
          } else {
            TakeChunkServes(w, s, s', id);
          }
          ServesKeeps(w, s, s', id);
        }
      case Seeking =>
        if FlushStep(s, s') {
          FlushKeeps(w, s, s', id);
        } else {
          LoopTouches(w, s, s', id);
          SeekServes(w, s, s', id);
          ServesKeeps(w, s, s', id);
        }
      case Sending(start, pos, sent) =>
        LoopTouches(w, s, s', id);
        SendServes(w, s, s', id);
        ServesKeeps(w, s, s', id);
      case Closed(_) =>
        ReleaseKeeps(w, s, s', id);
      case _ =>
    }
  }

  lemma HolderFacts(w: World, s: State, id: Id)
    requires FileOk(w, s) && s.holder == Some(id) && id in s.workers
    ensures Critical(s.workers[id]) && s.turns != [] && HolderOk(w, s, id)
  {
    hide HolderOk, TurnsOk, RepliesOk;
  }

  /** Steps outside the mutex, of a worker before or after its turn or of the main thread, touch
      neither the file nor the worker that holds it. */
  lemma OthersKeep(w: World, s: State, s': State)
    requires FileOk(w, s)
    requires s'.holder == s.holder && s'.open == s.open && s'.file == s.file && s'.unwritten == s.unwritten
    requires s'.order == s.order && s'.turns == s.turns
    requires s'.seekto == s.seekto && s'.seekAllocs == s.seekAllocs && s'.seekFrees == s.seekFrees
    requires forall x :: x in s.workers ==> x in s'.workers
    requires forall x :: x in s'.workers && x !in s.workers ==> s'.workers[x] == Starting
    requires forall x :: x in s.workers && s'.workers[x] != s.workers[x] ==>
               && !Critical(s.workers[x]) && !Critical(s'.workers[x]) && s'.workers[x] != Starting
               && (Replied(s'.workers[x]) ==> Replied(s.workers[x]) && s'.workers[x].reply == s.workers[x].reply)
    ensures FileOk(w, s')
  {
    hide ReplyOk, Distinct, Run, Data, Taken, Request, ReplyOf, Flatten, ClientData, ClientRequest, Shown, StartOf;
    RepliesStay(w, s, s');
  }

  lemma OutsideTouches(w: World, s: State, s': State, id: Id)
    requires id in s.workers && WorkerStep(w, s, s', id) && (s.workers[id].Unlocked? || s.workers[id].Finished?)
    ensures s' == At(s, id, s'.workers[id]).(finished := s'.finished)
    ensures Replied(s'.workers[id]) && !Critical(s'.workers[id]) && s'.workers[id].reply == s.workers[id].reply
  {
  }

  lemma MainTouches(s: State, s': State)
    requires Lifetimes(s) && MainStep(s, s')
    ensures s'.holder == s.holder && s'.open == s.open && s'.file == s.file && s'.unwritten == s.unwritten
    ensures s'.order == s.order && s'.turns == s.turns
    ensures s'.seekto == s.seekto && s'.seekAllocs == s.seekAllocs && s'.seekFrees == s.seekFrees
    ensures s'.workers == s.workers
         || (s.main.Accepted? && s.main.id !in s.workers && s'.workers == s.workers[s.main.id := Starting])
  {
  }

  lemma WorkerKeepsFile(w: World, s: State, s': State, id: Id)
    requires FileOk(w, s) && id in s.workers && WorkerStep(w, s, s', id)
    ensures FileOk(w, s')
  {
    hide WorkerStep, TurnsOk, RepliesOk, ContentOk;
    if s.workers[id] == Starting {
      LockKeeps(w, s, s', id);
    } else if s.holder == Some(id) {
      HolderKeeps(w, s, s', id);
    } else {
      NotTerminated(w, s, s', id);
      OutsideTouches(w, s, s', id);
      OthersKeep(w, s, s');
    }
  }

  lemma NotTerminated(w: World, s: State, s': State, id: Id)
    requires id in s.workers && WorkerStep(w, s, s', id)
    ensures !s.workers[id].Terminated?
  {
    hide ReceiveStep, SendStep, FlushStep, SeekStep;
  }

  lemma NextKeeps(w: World, s: State, s': State)
    requires Lifetimes(s) && FileOk(w, s) && Next(w, s, s')
    ensures Lifetimes(s') && FileOk(w, s')
  {
    hide Lifetimes, FileOk, MainStep, WorkerStep;
    if MainStep(s, s') {
      MainKeepsLifetimes(s, s');
      MainTouches(s, s');
      OthersKeep(w, s, s');
    } else if exists id :: id in s.workers && WorkerStep(w, s, s', id) {
      var id :| id in s.workers && WorkerStep(w, s, s', id);
      WorkerKeepsLifetimes(w, s, s', id);
      WorkerKeepsFile(w, s, s', id);
    } else {
      StopKeepsLifetimes(s, s');
      OthersKeep(w, s, s');
    }
  }

  lemma StopKeepsLifetimes(s: State, s': State)
    requires Lifetimes(s) && s' == s.(stop := true)
    ensures Lifetimes(s')
  {
  }

  lemma {:induction false} Reachable(w: World, tr: seq<State>, i: nat)
    requires Behaviour(w, tr) && i < |tr|
    ensures Lifetimes(tr[i]) && FileOk(w, tr[i])
  {
    hide Next;
    if i > 0 {
      Reachable(w, tr, i - 1);
      assert Next(w, tr[i - 1], tr[i - 1 + 1]);
      NextKeeps(w, tr[i - 1], tr[i]);
    }
  }

  // -------------------------------------------------------------------------------- all runs

  /** In every state of every run: a thread that has not terminated still has its record; when the
      main thread walks the list, every thread started is in the list or was joined; and when the
      main thread is done, every thread has terminated and was joined, once, and no record is left. */
  lemma ThreadsOutliveNothing(w: World, tr: seq<State>, i: nat)
    requires Behaviour(w, tr) && i < |tr|
    ensures var s := tr[i];
            && (forall id :: id in s.workers && !s.workers[id].Terminated? ==> id in s.infos)
            && (s.main.Cleaning? ==> forall id :: id in s.workers ==> id in s.list || id in s.joined)
            && Distinct(s.joined) && (forall id :: id in s.joined ==> id in s.workers && s.workers[id].Terminated?)
            && (s.main.Exited? ==> s.list == [] && s.infos == {} && forall id :: id in s.workers ==> id in s.joined)
  {
    hide FileOk;
    Reachable(w, tr, i);
  }

  /** In every state of every run: at most one worker is between taking and releasing the mutex; while
      it is free the file is closed, nothing waits to be written and no request is pending; and every
      pending request allocated was freed once, but for the one that is pending. */
  lemma GlobalsBelongToHolder(w: World, tr: seq<State>, i: nat)
    requires Behaviour(w, tr) && i < |tr|
    ensures var s := tr[i];
            && (forall a, b | a in s.workers && b in s.workers && Critical(s.workers[a]) && Critical(s.workers[b]) ::
                  a == b)
            && (forall id :: id in s.workers ==>
                  (s.holder == Some(id) <==> s.workers[id].Receiving? || s.workers[id].Seeking?
                                             || s.workers[id].Sending? || s.workers[id].Closed?))
            && (s.holder == None ==> !s.open && s.unwritten == [] && s.seekto == None && s.seekAllocs == s.seekFrees)
            && s.seekAllocs == s.seekFrees + (if s.seekto == None then 0 else 1)
  {
    hide Lifetimes, RepliesOk, HolderOk, TurnsOk;
    Reachable(w, tr, i);
  }

  /** In every state of every run, on either kind of file: the file is what the flushed turns make of it
      in lock order, each turn contiguous; every turn but that of the holder is the whole data of its
      client; and each reply is what the file shows after the turns up to and including the client's own,
      from where its own request asks. */
  lemma RepliesFollowTurns(w: World, tr: seq<State>, i: nat)
    requires Behaviour(w, tr) && i < |tr|
    ensures var s := tr[i];
            && Distinct(s.order) && |s.turns| == |s.order|
            && s.file == Run(Flatten(s.turns))
            && (forall j :: 0 <= j < |s.order| && s.holder != Some(s.order[j]) ==>
                  Flatten(s.turns[j]) == ClientData(w.clients(s.order[j])))
            && (forall id :: id in s.workers && Replied(s.workers[id]) ==> ReplyOk(w, s, id, s.workers[id].reply))
  {
    hide Lifetimes, HolderOk, ReplyOk, Run;
    Reachable(w, tr, i);
  }

  lemma {:induction false} TurnsAreData(w: World, order: seq<Id>, turns: seq<seq<Bytes>>)
    requires |turns| == |order| && forall j :: 0 <= j < |order| ==> Flatten(turns[j]) == ClientData(w.clients(order[j]))
    ensures Flatten(Flatten(turns)) == AllData(w, order)
  {
    hide ClientData;
    if order != [] {
      var n := |order| - 1;
      TurnsAreData(w, order[..n], turns[..n]);
      assert turns == turns[..n] + [turns[n]];
      FlattenSnoc(turns[..n], turns[n]);
      FlattenConcat(Flatten(turns[..n]), turns[n]);
    }
  }

  /** On either kind of file no byte is lost or reordered: while the mutex is free, what the file stores,
      evicted entries and unfinished bytes included, is the data of the clients in lock order. */
  lemma FileIsAllData(w: World, tr: seq<State>, i: nat)
    requires Behaviour(w, tr) && i < |tr| && tr[i].holder == None
    ensures Stream(tr[i].file) == AllData(w, tr[i].order)
  {
    hide Run, ClientData;
    var s := tr[i];
    RepliesFollowTurns(w, tr, i);
    TurnsAreData(w, s.order, s.turns);
    Conservation(Flatten(s.turns));
  }

  /** The place of a reply's client in the order. */
  lemma PlaceOf(w: World, s: State, id: Id, reply: Bytes) returns (k: nat)
    requires ReplyOk(w, s, id, reply)
    ensures k < |s.order| == |s.turns| && s.order[k] == id
    ensures reply == ReplyOf(w.mode, FileAfter(s.turns, k + 1), ClientRequest(w.clients(id)))
  {
    hide ReplyOf, FileAfter, ClientRequest;
    k :| 0 <= k < |s.order| && s.order[k] == id
         && reply == ReplyOf(w.mode, FileAfter(s.turns, k + 1), ClientRequest(w.clients(id)));
  }

  lemma RegularShows(w: World, order: seq<Id>, turns: seq<seq<Bytes>>, k: nat, request: Option<AesdDevice.SeekTo>)
    requires k <= |order| == |turns|
    requires forall j :: 0 <= j < |order| ==> Flatten(turns[j]) == ClientData(w.clients(order[j]))
    ensures ReplyOf(Regular, FileAfter(turns, k), request) == AllData(w, order[..k])
  {
    hide Run, ClientData, AllData;
    TurnsAreData(w, order[..k], turns[..k]);
    Conservation(Flatten(turns[..k]));
  }

  /** On a regular file a reply is the data of all clients up to and including the client's own. */
  lemma RegularReplies(w: World, tr: seq<State>, i: nat, id: Id)
    requires Behaviour(w, tr) && i < |tr| && w.mode.Regular? && tr[i].holder == None
    requires id in tr[i].workers && Replied(tr[i].workers[id])
    ensures exists k :: 0 <= k < |tr[i].order| && tr[i].order[k] == id
              && tr[i].workers[id].reply == AllData(w, tr[i].order[..k + 1])
  {
    hide Run, ClientData, ClientRequest, Behaviour, ReplyOf, FileAfter, AllData;
    var s := tr[i];
    RepliesFollowTurns(w, tr, i);
    hide ReplyOk;
    var k := PlaceOf(w, s, id, s.workers[id].reply);
    RegularShows(w, s.order, s.turns, k + 1, ClientRequest(w.clients(id)));
  }
}
