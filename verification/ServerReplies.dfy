/** What a client of the interleaved server gets back from the device: the visible contents from where the
    ioctl lands with the client's own request, or with none. */
module ServerReplies {
  import opened Machine
  import opened Wrappers
  import opened Sequences
  import opened EntryRing
  import opened DeviceLog
  import Ownership
  import opened DeviceState
  import opened DeviceReads
  import opened AesdDevice
  import opened SeekCommand
  import opened ServerFile
  import opened ServerSteps

  /** The k-th client to get the mutex, in a state in which it is past its turn on a device whose memory is that
      of `h`, `r` and `partial` after that turn. */
  ghost predicate Answered(w: World, tr: seq<State>, i: nat, k: nat, h: Ownership.Heap, r: Ring, partial: Entry) {
    && Behaviour(w, tr) && i < |tr| && w.mode == Device(|r.entry|)
    && k < |tr[i].order| && k < |tr[i].turns|
    && tr[i].order[k] in tr[i].workers && Replied(tr[i].workers[tr[i].order[k]])
    && Stores(h, r, partial, ZERO, FileAfter(tr[i].turns, k + 1))
  }

  lemma ReplyIs(w: World, tr: seq<State>, i: nat, k: nat, h: Ownership.Heap, r: Ring, partial: Entry)
    requires Answered(w, tr, i, k, h, r, partial)
    ensures tr[i].workers[tr[i].order[k]].reply
         == ReplyOf(w.mode, FileAfter(tr[i].turns, k + 1), ClientRequest(w.clients(tr[i].order[k])))
  {
    hide Stores, ReplyOf, FileAfter, ClientRequest, Behaviour;
    var s, id := tr[i], tr[i].order[k];
    RepliesFollowTurns(w, tr, i);
    var j := PlaceOf(w, s, id, s.workers[id].reply);
    assert j == k;
  }

  /** What is sent from a position on: everything when the position is before the start, which the ioctl
      refuses, and nothing when it is behind the end. */
  function SentFrom(shown: Bytes, target: int): Bytes {
    if target < 0 then shown else if target >= |shown| then [] else shown[target..]
  }

  /** In every state of every run on the device, a reply is the visible contents after the client's own turn, from
      where the ioctl lands with its last command, or with zeros when it sent none. */
  lemma DeviceReplies(w: World, tr: seq<State>, i: nat, k: nat, h: Ownership.Heap, r: Ring, partial: Entry)
    requires Answered(w, tr, i, k, h, r, partial)
    ensures var c := w.clients(tr[i].order[k]);
            var arg := Request(c.raw, c.chunks, Taken(c.chunks, 0), None);
            var request := if arg.Some? then arg.value else SeekTo(0, 0);
            tr[i].workers[tr[i].order[k]].reply
            == SentFrom(Flatten(Visible(r, FileAfter(tr[i].turns, k + 1))),
                        SeekTarget(0, r, request.writeCmd, request.writeCmdOffset))
  {
    hide Stores, FileAfter, Request, Taken, Behaviour, ReplyStart, SeekTarget;
    ReplyIs(w, tr, i, k, h, r, partial);
    StartIsTarget(h, r, partial, FileAfter(tr[i].turns, k + 1), ClientRequest(w.clients(tr[i].order[k])));
  }

  /** A client whose last command names `x` and `y`: when that seek lands, its reply is visible entry `x` from byte
      `y` on, and the later entries; in any case it is what lies behind the position the slots add up to. */
  lemma SeekingClient(w: World, tr: seq<State>, i: nat, k: nat, h: Ownership.Heap, r: Ring, partial: Entry,
                      m: nat, x: UInt32, y: UInt32)
    requires Answered(w, tr, i, k, h, r, partial)
    requires var c := w.clients(tr[i].order[k]); LastCommandIs(c.raw, c.chunks, Taken(c.chunks, 0), m, x, y)
    ensures var reply, file := tr[i].workers[tr[i].order[k]].reply, FileAfter(tr[i].turns, k + 1);
            var v := Visible(r, file);
            && reply == SentFrom(Flatten(v), SeekTarget(0, r, x, y))
            && (InRequest(r, file, x, y) && Lands(0, r, file, x, y) ==> reply == v[x][y..] + Flatten(v[x + 1..]))
  {
    hide Stores, FileAfter, Taken, Behaviour, LastCommandIs, ReplyStart, SeekTarget, Lands, Visible, Flatten;
    var c, file := w.clients(tr[i].order[k]), FileAfter(tr[i].turns, k + 1);
    CommandReceived(c.raw, c.chunks, Taken(c.chunks, 0), m, None, x, y);
    DeviceReplies(w, tr, i, k, h, r, partial);
    StartIsTarget(h, r, partial, file, Some(SeekTo(x, y)));
    LandedTurn(h, r, partial, file, x, y);
  }

  /** A client that sends no command gets everything that is visible after its turn, and all it sent up to the first
      short chunk was written in it. */
  lemma PlainClient(w: World, tr: seq<State>, i: nat, k: nat, h: Ownership.Heap, r: Ring, partial: Entry)
    requires Answered(w, tr, i, k, h, r, partial)
    requires var c := w.clients(tr[i].order[k]);
             forall j :: 0 < j <= Taken(c.chunks, 0) ==> !IsCommand(Buffer(c.raw, c.chunks, j))
    ensures tr[i].workers[tr[i].order[k]].reply == Flatten(Visible(r, FileAfter(tr[i].turns, k + 1)))
    ensures var c := w.clients(tr[i].order[k]);
            tr[i].holder == None ==> Flatten(tr[i].turns[k]) == Flatten(c.chunks[..Min(Taken(c.chunks, 0), |c.chunks|)])
  {
    var c := w.clients(tr[i].order[k]);
    NoCommand(c.raw, c.chunks, None);
    hide Stores, FileAfter, Taken, Behaviour, Visible, SeekTarget, Flatten, Request, Data, IsCommand, Buffer;
    DeviceReplies(w, tr, i, k, h, r, partial);
    FromZero(r);
    if tr[i].holder == None {
      TurnIsData(w, tr, i, k);
    }
  }

  lemma TurnIsData(w: World, tr: seq<State>, i: nat, k: nat)
    requires Behaviour(w, tr) && i < |tr| && k < |tr[i].order| && k < |tr[i].turns| && tr[i].holder == None
    ensures var c := w.clients(tr[i].order[k]);
            Flatten(tr[i].turns[k]) == Data(c.raw, c.chunks, Taken(c.chunks, 0))
  {
    hide Behaviour, Taken, Data, Run, ReplyOk, Flatten;
    RepliesFollowTurns(w, tr, i);
  }

  lemma FromZero(r: Ring)
    ensures SeekTarget(0, r, 0, 0) == 0
  {
    assert r.entry[..0] == [];
  }
}
