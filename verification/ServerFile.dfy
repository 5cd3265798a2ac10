/** What one client's turn does: received chunks go to the file, except seek commands, and the file
    is sent back. The file is a regular one or the character device. */
module ServerFile {
  import opened Machine
  import opened Wrappers
  import opened Sequences
  import opened EntryRing
  import opened DeviceLog
  import Ownership
  import opened DeviceState
  import opened DeviceReads
  import opened AesdDevice
  import opened SeekCommand

  const MAXDATASIZE: nat := 1024
  const SEND_SIZE: nat := 124

  /** The receive buffer of a turn, allocated with whatever bytes are there. */
  type RecvBuffer = b: Bytes | |b| == MAXDATASIZE witness seq(MAXDATASIZE, _ => 0)

  /** What one receive delivers. */
  type Chunk = b: Bytes | |b| <= MAXDATASIZE

  /** The i-th chunk that receiving delivers; after the last one the peer has closed. */
  function ChunkAt(chunks: seq<Chunk>, i: nat): Chunk {
    if i < |chunks| then chunks[i] else []
  }

  /** A receive overwrites the front of the buffer. */
  function Filled(buffer: RecvBuffer, chunk: Chunk): RecvBuffer {
    chunk + buffer[|chunk|..]
  }

  /** The buffer after `n` receives. */
  function Buffer(raw: RecvBuffer, chunks: seq<Chunk>, n: nat): RecvBuffer {
    if n == 0 then raw else Filled(Buffer(raw, chunks, n - 1), ChunkAt(chunks, n - 1))
  }

  /** How many chunks the receive loop takes: up to the first that does not fill the buffer. */
  function Taken(chunks: seq<Chunk>, i: nat): (n: nat)
    ensures n > i
    decreases |chunks| - i
  {
    if |ChunkAt(chunks, i)| == MAXDATASIZE then Taken(chunks, i + 1) else i + 1
  }

  /** The data among the first `n` chunks, in order. */
  function Data(raw: RecvBuffer, chunks: seq<Chunk>, n: nat): Bytes {
    if n == 0 then []
    else Data(raw, chunks, n - 1) + if IsCommand(Buffer(raw, chunks, n)) then [] else ChunkAt(chunks, n - 1)
  }

  /** The last request among the first `n` chunks, or the one pending before. */
  function Request(raw: RecvBuffer, chunks: seq<Chunk>, n: nat, pending: Option<SeekTo>): Option<SeekTo> {
    if n == 0 then pending
    else if IsCommand(Buffer(raw, chunks, n)) then Some(ParseSeek(Buffer(raw, chunks, n)))
    else Request(raw, chunks, n - 1, pending)
  }

  /** What taking one more chunk does. */
  lemma TakeStep(raw: RecvBuffer, chunks: seq<Chunk>, n: nat, pending: Option<SeekTo>)
    ensures Buffer(raw, chunks, n + 1) == Filled(Buffer(raw, chunks, n), ChunkAt(chunks, n))
    ensures Data(raw, chunks, n + 1)
         == if IsCommand(Buffer(raw, chunks, n + 1)) then Data(raw, chunks, n)
            else Data(raw, chunks, n) + ChunkAt(chunks, n)
    ensures Request(raw, chunks, n + 1, pending)
         == if IsCommand(Buffer(raw, chunks, n + 1)) then Some(ParseSeek(Buffer(raw, chunks, n + 1)))
            else Request(raw, chunks, n, pending)
    ensures Taken(chunks, n) == if |ChunkAt(chunks, n)| == MAXDATASIZE then Taken(chunks, n + 1) else n + 1
    ensures Buffer(raw, chunks, 0) == raw
    ensures Data(raw, chunks, 0) == [] && Request(raw, chunks, 0, pending) == pending
  {
    hide IsCommand, ParseSeek, ChunkAt, Filled;
    assert Data(raw, chunks, n) + [] == Data(raw, chunks, n);
  }

  lemma FullMeansMore(chunks: seq<Chunk>, n: nat)
    requires |ChunkAt(chunks, n)| == MAXDATASIZE
    ensures n < |chunks|
  {
  }

  /** A chunk is taken for a command exactly when it starts with one, or is the beginning of one
      that bytes left in the buffer complete. */
  lemma CommandIff(buffer: RecvBuffer, chunk: Chunk)
    ensures |COMMAND| < MAXDATASIZE
    ensures IsCommand(Filled(buffer, chunk))
            <==> COMMAND <= chunk
                 || (chunk < COMMAND && buffer[|chunk|..|COMMAND|] == COMMAND[|chunk|..])
  {
    var b, n := Filled(buffer, chunk), |COMMAND|;
    if IsCommand(b) && |chunk| < n {
      assert chunk == b[..|chunk|] == COMMAND[..|chunk|];
      assert buffer[|chunk|..n] == b[|chunk|..n] == COMMAND[|chunk|..];
    }
    if IsCommand(b) && |chunk| >= n {
      assert chunk[..n] == b[..n] == COMMAND;
    }
    if chunk < COMMAND && buffer[|chunk|..n] == COMMAND[|chunk|..] {
      assert b[..n] == chunk + buffer[|chunk|..n] == COMMAND;
    }
  }

  /** A one-byte chunk behind a full chunk with a command is swallowed: the bytes left in the buffer
      make it a command again. */
  lemma StaleBytesSwallow(raw: RecvBuffer)
    ensures |COMMAND| < MAXDATASIZE && COMMAND[0] == 65
    ensures var full: Chunk := COMMAND + seq(MAXDATASIZE - |COMMAND|, _ => NEWLINE);
            Taken([full, [65]], 0) == 2 && Data(raw, [full, [65]], 2) == []
  {
    var full: Chunk := COMMAND + seq(MAXDATASIZE - |COMMAND|, _ => NEWLINE);
    var chunks: seq<Chunk> := [full, [65]];
    TakeStep(raw, chunks, 0, None);
    TakeStep(raw, chunks, 1, None);
    CommandIff(raw, full);
    assert Buffer(raw, chunks, 1) == full;
    assert [65] == COMMAND[..1];
    CommandIff(full, [65]);
  }

  // ------------------------------------------------------------------- what a client's turn takes

  /** The loop takes chunks up to and including the first that is not full, or all of them and then
      notices that the peer has closed. */
  lemma {:induction false} TakenExact(chunks: seq<Chunk>, i: nat)
    requires i <= |chunks|
    ensures var n := Taken(chunks, i);
            && n <= |chunks| + 1
            && (forall k :: i <= k < n - 1 ==> |chunks[k]| == 1024)
            && (n <= |chunks| ==> |chunks[n - 1]| != 1024)
    decreases |chunks| - i
  {
    if |ChunkAt(chunks, i)| == MAXDATASIZE {
      TakenExact(chunks, i + 1);
    }
  }

  /** When none of the buffers is a command, the data is all that was received. */
  lemma {:induction false} DataIsAll(raw: RecvBuffer, chunks: seq<Chunk>, n: nat)
    requires forall k :: 0 < k <= n ==> !IsCommand(Buffer(raw, chunks, k))
    ensures Data(raw, chunks, n) == Flatten(chunks[..Min(n, |chunks|)])
  {
    if n > 0 {
      DataIsAll(raw, chunks, n - 1);
      if n <= |chunks| {
        assert chunks[..n] == chunks[..n - 1] + [chunks[n - 1]];
        FlattenSnoc(chunks[..n - 1], chunks[n - 1]);
      }
    }
  }

  /** A client that sends no command: everything up to and including the first short chunk is data,
      and a request that was pending stays. */
  lemma NoCommand(raw: RecvBuffer, chunks: seq<Chunk>, pending: Option<SeekTo>)
    requires forall k :: 0 < k <= Taken(chunks, 0) ==> !IsCommand(Buffer(raw, chunks, k))
    ensures Data(raw, chunks, Taken(chunks, 0)) == Flatten(chunks[..Min(Taken(chunks, 0), |chunks|)])
    ensures Request(raw, chunks, Taken(chunks, 0), pending) == pending
  {
    DataIsAll(raw, chunks, Taken(chunks, 0));
    RequestStays(raw, chunks, 0, Taken(chunks, 0), pending);
  }

  lemma {:induction false} RequestStays(raw: RecvBuffer, chunks: seq<Chunk>, m: nat, n: nat, pending: Option<SeekTo>)
    requires m <= n && forall k :: m < k <= n ==> !IsCommand(Buffer(raw, chunks, k))
    ensures Request(raw, chunks, n, pending) == Request(raw, chunks, m, pending)
    decreases n
  {
    hide IsCommand, ParseSeek, Buffer;
    if m < n {
      RequestStays(raw, chunks, m, n - 1, pending);
    }
  }

  /** The last command among the first `n` chunks is chunk `m`, which starts with the command for `x`
      and `y`. */
  ghost predicate LastCommandIs(raw: RecvBuffer, chunks: seq<Chunk>, n: nat, m: nat, x: UInt32, y: UInt32) {
    && m < n && m < |chunks| && FormatSeek(x, y) <= chunks[m]
    && forall k :: m + 1 < k <= n ==> !IsCommand(Buffer(raw, chunks, k))
  }

  /** The numbers of the last command received are the pending request, whatever the buffer held before
      and whatever was pending. */
  lemma CommandReceived(raw: RecvBuffer, chunks: seq<Chunk>, n: nat, m: nat, pending: Option<SeekTo>,
                        x: UInt32, y: UInt32)
    requires LastCommandIs(raw, chunks, n, m, x, y)
    ensures Request(raw, chunks, n, pending) == Some(SeekTo(x, y))
    ensures Data(raw, chunks, m + 1) == Data(raw, chunks, m)
  {
    hide IsCommand, ParseSeek, FormatSeek;
    var buffer, command := Buffer(raw, chunks, m + 1), FormatSeek(x, y);
    assert buffer == chunks[m] + Buffer(raw, chunks, m)[|chunks[m]|..];
    var tail := buffer[|command|..];
    assert buffer == command + tail;
    SeekRoundTrip(x, y, tail);
    RequestStays(raw, chunks, m + 1, n, pending);
  }

  lemma {:induction false} FullAreTaken(full: seq<Chunk>, chunk: Chunk, later: seq<Chunk>, i: nat)
    requires i <= |full| && |chunk| < MAXDATASIZE && forall k :: 0 <= k < |full| ==> |full[k]| == MAXDATASIZE
    ensures Taken(full + [chunk] + later, i) == |full| + 1
    decreases |full| - i
  {
    var chunks := full + [chunk] + later;
    if i < |full| {
      assert ChunkAt(chunks, i) == full[i];
      FullAreTaken(full, chunk, later, i + 1);
    } else {
      assert ChunkAt(chunks, i) == chunk;
    }
  }

  lemma {:induction false} SameChunks(raw: RecvBuffer, a: seq<Chunk>, b: seq<Chunk>, n: nat)
    requires n <= |a| && n <= |b| && a[..n] == b[..n]
    ensures Buffer(raw, a, n) == Buffer(raw, b, n) && Data(raw, a, n) == Data(raw, b, n)
  {
    hide IsCommand, Filled;
    if n > 0 {
      assert a[..n][..n - 1] == b[..n][..n - 1] && a[..n][n - 1] == b[..n][n - 1];
      SameChunks(raw, a, b, n - 1);
    }
  }

  /** A command that comes alone, or last behind full chunks: its numbers become the request, and the data is
      that of the chunks before it. What the client sends later is not taken. */
  lemma CommandComesLast(raw: RecvBuffer, full: seq<Chunk>, later: seq<Chunk>, pending: Option<SeekTo>,
                         x: UInt32, y: UInt32)
    requires forall k :: 0 <= k < |full| ==> |full[k]| == 1024
    ensures |FormatSeek(x, y)| < 1024
    ensures var chunks: seq<Chunk> := full + [FormatSeek(x, y)] + later;
            && Taken(chunks, 0) == |full| + 1
            && Request(raw, chunks, Taken(chunks, 0), pending) == Some(SeekTo(x, y))
            && Data(raw, chunks, Taken(chunks, 0)) == Data(raw, full, |full|)
  {
    hide IsCommand, FormatSeek, Request, Data, Buffer, Taken;
    FormatIsShort(x, y);
    var chunk: Chunk := FormatSeek(x, y);
    var chunks := full + [chunk] + later;
    FullAreTaken(full, chunk, later, 0);
    assert chunks[|full|] == chunk;
    CommandReceived(raw, chunks, |full| + 1, |full|, pending, x, y);
    assert chunks[..|full|] == full[..|full|];
    SameChunks(raw, chunks, full, |full|);
  }

  // --------------------------------------------------------------------------- the replies

  /** Where a reply from the device starts when it stores `s`. A request before the start is refused
      and the reply is everything; a request behind the end leaves nothing to send. */
  function ReplyStart(capacity: nat, s: Log, arg: Option<SeekTo>): (start: nat)
    ensures start <= |Flatten(LastN(s.entries, capacity))|
  {
    var request := if arg.Some? then arg.value else SeekTo(0, 0);
    var sum := SlotSum(s.entries, capacity, Min(request.writeCmd, capacity)) + request.writeCmdOffset;
    var target := ToLoff(sum);
    if target < 0 then 0 else Min(target, |Flatten(LastN(s.entries, capacity))|)
  }

  lemma StartIsTarget(h: Ownership.Heap, r: Ring, partial: Entry, s: Log, arg: Option<SeekTo>)
    requires Stores(h, r, partial, ZERO, s)
    ensures var request := if arg.Some? then arg.value else SeekTo(0, 0);
            var target := SeekTarget(0, r, request.writeCmd, request.writeCmdOffset);
            ReplyStart(|r.entry|, s, arg) == if target < 0 then 0 else Min(target, |Flatten(Visible(r, s))|)
  {
    hide Stores, ToLoff;
    var request := if arg.Some? then arg.value else SeekTo(0, 0);
    SlotSumStored(h, r, partial, ZERO, s, Min(request.writeCmd, |r.entry|));
  }

  /** When a seek lands, the reply to a client whose last command names byte `y` of visible entry `x` is that
      entry from the byte on, and the later entries. */
  lemma SeekReply(h: Ownership.Heap, r: Ring, partial: Entry, s: Log, raw: RecvBuffer, chunks: seq<Chunk>, n: nat,
                  m: nat, pending: Option<SeekTo>, x: UInt32, y: UInt32)
    requires Stores(h, r, partial, ZERO, s) && InRequest(r, s, x, y) && Lands(0, r, s, x, y)
    requires LastCommandIs(raw, chunks, n, m, x, y)
    ensures var v := Visible(r, s);
            Flatten(v)[ReplyStart(|r.entry|, s, Request(raw, chunks, n, pending))..] == v[x][y..] + Flatten(v[x + 1..])
  {
    hide LastCommandIs, Stores;
    CommandReceived(raw, chunks, n, m, pending, x, y);
    LandedReply(h, r, partial, s, x, y);
  }

  lemma LandedReply(h: Ownership.Heap, r: Ring, partial: Entry, s: Log, x: UInt32, y: UInt32)
    requires Stores(h, r, partial, ZERO, s) && InRequest(r, s, x, y) && Lands(0, r, s, x, y)
    ensures var v := Visible(r, s);
            Flatten(v)[ReplyStart(|r.entry|, s, Some(SeekTo(x, y)))..] == v[x][y..] + Flatten(v[x + 1..])
  {
    hide Stores, Visible, SeekTarget, ReplyStart;
    var v := Visible(r, s);
    StartIsTarget(h, r, partial, s, Some(SeekTo(x, y)));
    assert v == v[..x] + ([v[x]] + v[x + 1..]);
    FlattenConcat(v[..x], [v[x]] + v[x + 1..]);
    assert Flatten(v) == Flatten(v[..x]) + (v[x] + Flatten(v[x + 1..]));
  }

  // --------------------------------------------------------------------------- the methods

  /** The globals of the server that a client's turn changes. */
  class Globals {
    var file: Bytes
    var seektoArg: Option<SeekTo>

    /** recv_to_file, on a regular file opened for appending; `raw` is the buffer as allocated. */
    method RecvToFile(raw: RecvBuffer, chunks: seq<Chunk>)
      modifies this
      ensures file == old(file) + Data(raw, chunks, Taken(chunks, 0))
      ensures seektoArg == Request(raw, chunks, Taken(chunks, 0), old(seektoArg))
    {
      hide *;
      ghost var before, pending := file, seektoArg;
      TakeStep(raw, chunks, 0, pending);
      var bytesRecv := ChunkAt(chunks, 0);
      var recvBuf := Filled(raw, bytesRecv);
      var n := 1;
      if IsCommand(recvBuf) {
        seektoArg := Some(ParseSeek(recvBuf));
      } else {
        file := file + bytesRecv;
      }
      while |bytesRecv| == MAXDATASIZE
        invariant n > 0 && bytesRecv == ChunkAt(chunks, n - 1) && recvBuf == Buffer(raw, chunks, n)
        invariant file == before + Data(raw, chunks, n)
        invariant seektoArg == Request(raw, chunks, n, pending)
        invariant Taken(chunks, 0) == Taken(chunks, n - 1)
        decreases |chunks| + 1 - n
      {
        TakeStep(raw, chunks, n - 1, pending);
        TakeStep(raw, chunks, n, pending);
        FullMeansMore(chunks, n - 1);
        bytesRecv := ChunkAt(chunks, n);
        recvBuf := Filled(recvBuf, bytesRecv);
        n := n + 1;
        if IsCommand(recvBuf) {
          seektoArg := Some(ParseSeek(recvBuf));
        } else {
          file := file + bytesRecv;
        }
      }
      TakeStep(raw, chunks, n - 1, pending);
    }

    /** send_file on a regular file: the seek command has no effect there. */
    method SendFile() returns (reply: Bytes)
      modifies this`seektoArg
      ensures reply == file && seektoArg == None
    {
      seektoArg := None;
      reply := [];
      var pos := 0;
      while pos < |file|
        invariant pos <= |file| && reply == file[..pos]
      {
        var b := if pos + SEND_SIZE <= |file| then SEND_SIZE else |file| - pos;
        reply := reply + file[pos..pos + b];
        pos := pos + b;
      }
    }

    /** send_file on the device: seek to the start, send the pending request or none to the ioctl,
        and read until nothing is left, `count` bytes asked for at a time. */
    method SendDevice(dev: AesdDevice, filp: OpenFile, count: SizeT) returns (reply: Bytes, within: bool)
      requires dev.Valid()
      modifies this`seektoArg, dev`locked, filp
      ensures dev.Valid() && seektoArg == None
      ensures var start := ReplyStart(dev.buffer.entry.Length, dev.stored, old(seektoArg));
              && (within <==> LoopFits(dev.Seen(), start, count))
              && (within ==> reply == Flatten(dev.Seen())[start..])
    {
      hide Stores, ToInt, Visible, Flatten, SeekTarget, ReplyStart, LoopFits;
      StartIsTarget(dev.heap.live, dev.buffer.Value(), dev.partialEntry, dev.stored, seektoArg);
      var rc := dev.LlSeek(filp, 0, SEEK_SET);
      var rc' := dev.Ioctl(filp, AESDCHAR_IOCSEEKTO, seektoArg);
      seektoArg := None;
      PastTheEndFits(dev.Seen(), filp.fPos, count);
      reply, within := ReadToEnd(dev, filp, count);
    }
  }

  /** The turn of a client that sends the command for `x` and `y` and nothing else, on the device. */
  method CommandTurn(g: Globals, dev: AesdDevice, filp: OpenFile, raw: RecvBuffer, x: UInt32, y: UInt32, count: SizeT)
    returns (reply: Bytes, within: bool)
    requires dev.Valid()
    modifies g, dev`locked, filp
    ensures dev.Valid() && g.file == old(g.file) && g.seektoArg == None
    ensures var v, r := dev.Seen(), dev.buffer.Value();
            within && InRequest(r, dev.stored, x, y) && Lands(0, r, dev.stored, x, y) ==>
              reply == v[x][y..] + Flatten(v[x + 1..])
    ensures var flat, target := Flatten(dev.Seen()), SeekTarget(0, dev.buffer.Value(), x, y);
            && (within <==> LoopFits(dev.Seen(), if target < 0 then 0 else target, count))
            && (within ==> reply == if target < 0 then flat else if target >= |flat| then [] else flat[target..])
  {
    hide Stores, IsCommand, FormatSeek, Request, Data, Buffer, Taken, Visible, Flatten, SeekTarget, ReplyStart;
    hide LoopFits, Lands;
    AloneTaken(raw, g.seektoArg, x, y);
    g.RecvToFile(raw, [FormatSeek(x, y)]);
    StartIsTarget(dev.heap.live, dev.buffer.Value(), dev.partialEntry, dev.stored, g.seektoArg);
    LandedTurn(dev.heap.live, dev.buffer.Value(), dev.partialEntry, dev.stored, x, y);
    ghost var target := SeekTarget(0, dev.buffer.Value(), x, y);
    PastTheEndFits(dev.Seen(), if target < 0 then 0 else target, count);
    reply, within := g.SendDevice(dev, filp, count);
  }

  lemma AloneTaken(raw: RecvBuffer, pending: Option<SeekTo>, x: UInt32, y: UInt32)
    ensures |FormatSeek(x, y)| < 1024
    ensures var chunks: seq<Chunk> := [FormatSeek(x, y)];
            && Request(raw, chunks, Taken(chunks, 0), pending) == Some(SeekTo(x, y))
            && Data(raw, chunks, Taken(chunks, 0)) == []
  {
    hide IsCommand, FormatSeek, Request, Data, Buffer, Taken;
    CommandComesLast(raw, [], [], pending, x, y);
    var chunks: seq<Chunk> := [FormatSeek(x, y)];
    assert [] + chunks + [] == chunks;
    TakeStep(raw, [], 0, None);
  }

  lemma LandedTurn(h: Ownership.Heap, r: Ring, partial: Entry, s: Log, x: UInt32, y: UInt32)
    requires Stores(h, r, partial, ZERO, s)
    ensures var v := Visible(r, s);
            InRequest(r, s, x, y) && Lands(0, r, s, x, y) ==>
              Flatten(v)[ReplyStart(|r.entry|, s, Some(SeekTo(x, y)))..] == v[x][y..] + Flatten(v[x + 1..])
  {
    hide Stores, Visible, Lands, ReplyStart, Flatten;
    if InRequest(r, s, x, y) && Lands(0, r, s, x, y) {
      LandedReply(h, r, partial, s, x, y);
    }
  }

  /** Seek to a position and read on from there until nothing is left. */
  method ReadAllFrom(dev: AesdDevice, filp: OpenFile, pos: Loff, count: SizeT) returns (out: Bytes, within: bool)
    requires dev.Valid() && pos >= 0
    modifies dev`locked, filp
    ensures dev.Valid() && (within <==> LoopFits(dev.Seen(), pos, count))
    ensures var flat := Flatten(dev.Seen());
            within ==> out == if pos < |flat| then flat[pos..] else []
  {
    hide Stores, Visible, Flatten, LoopFits;
    var rc := dev.LlSeek(filp, pos, SEEK_SET);
    out, within := ReadToEnd(dev, filp, count);
  }

  /** Every position at or past the end fits as well as the end itself. */
  lemma PastTheEndFits(entries: seq<Bytes>, pos: nat, count: nat)
    ensures LoopFits(entries, Min(pos, |Flatten(entries)|), count) == LoopFits(entries, pos, count)
  {
    ReadAtIsFlat(entries, pos);
    ReadAtIsFlat(entries, |Flatten(entries)|);
    LoopFitsStep(entries, pos, count);
    LoopFitsStep(entries, |Flatten(entries)|, count);
  }

  /** Read from a position, `count` bytes asked for at a time, until nothing is left, with no write in
      between. Either every read stays within the count, which is so exactly when the rest of the first
      entry and every later one do, and the result is the suffix of the flat contents; or the driver
      writes past the buffer, and the loop stops there. Every read that is not the last makes progress. */
  method ReadToEnd(dev: AesdDevice, filp: OpenFile, count: SizeT) returns (out: Bytes, within: bool)
    requires dev.Valid() && filp.fPos >= 0
    modifies dev`locked, filp
    ensures dev.Valid() && dev.stored == old(dev.stored)
    ensures within <==> LoopFits(dev.Seen(), old(filp.fPos), count)
    ensures var flat := Flatten(dev.Seen());
            within ==> out == flat[Min(old(filp.fPos), |flat|)..]
                       && filp.fPos == if old(filp.fPos) < |flat| then |flat| else old(filp.fPos)
  {
    hide Stores, ReadAt, Visible, Flatten, ToSize, ToLoff, LoopFits;
    VisibleTotal(dev.heap.live, dev.buffer.Value(), dev.partialEntry, ZERO, dev.stored);
    ghost var flat, seen := Flatten(dev.Seen()), dev.Seen();
    ghost var start := Min(filp.fPos, |flat|);
    out := [];
    var more := true;
    while more
      invariant dev.Valid() && dev.Seen() == seen && dev.stored == old(dev.stored)
      invariant if old(filp.fPos) < |flat| then start <= filp.fPos <= |flat| && out == flat[start..filp.fPos]
                else filp.fPos == old(filp.fPos) && out == []
      invariant LoopFits(seen, old(filp.fPos), count) == if more then LoopFits(seen, filp.fPos, count) else true
      invariant !more ==> filp.fPos >= |flat|
      decreases more, |flat| - filp.fPos
    {
      ReadAtIsFlat(seen, filp.fPos);
      LoopFitsStep(seen, filp.fPos, count);
      var before := filp.fPos;
      var ret, got := dev.Read(filp, count, false, false);
      if ret > count {
        return out, false;
      }
      out := out + got;
      more := ret > 0;
      if more {
        SliceGrows(flat, start, before, got);
      }
    }
    within := true;
  }

  lemma SliceGrows(flat: Bytes, start: nat, pos: nat, got: Bytes)
    requires start <= pos && pos + |got| <= |flat| && flat[pos..pos + |got|] == got
    ensures flat[start..pos] + got == flat[start..pos + |got|]
  {
  }
}
