/** The streaming downloader of src/downloader/downloader.c together with the reads that feed it.

    One thread runs `DownloadMain`.  Reads arrive from other threads: they touch the heap only, and
    the downloader touches the heap only under the same mutex, so it is enough to let any number of
    them arrive wherever the downloader takes that mutex (`ReadsArrive`).  Everything the environment
    decides - arrivals, time-outs, buffer sizes, disconnects, errors - is given in advance and may be
    anything, so each contract below speaks of every run. */
module Downloaders {
  import opened BinaryHeaps
  import opened DownloadLedger
  import opened DownloadSchedule
  import opened ReadRequests
  import opened Sequences
  import opened Wrappers

  const EBUSY := 16

  datatype Exit = StillRunning | Finished | Aborted

  // The chunk is for that read.
  ghost predicate IsFor(c: Chunk, r: Request) {
    c.ctxt.req == r.req && c.ctxt.off == r.off && c.ctxt.requested == r.size
  }

  class Downloader {
    // What the peer serves; its length is the size the directory entry states.
    const file: seq<Byte>
    const chunks: BinaryHeap<Chunk>
    var downloadOffset: nat
    var current: Chunk?
    var seek: bool
    var timedOut: bool
    // How the waits for a chunk will go, in order, and how many there have been.
    const script: seq<Wait>
    var waited: nat
    // For each of those, whether it found the heap empty.
    ghost var waits: seq<bool>
    // Where each fetch started.
    ghost var starts: seq<nat>
    ghost var h: History
    // The chunks and their buffers.
    ghost var bodies: set<object>

    // The filled prefix of the buffer is the file from where the read began.
    ghost predicate ChunkOk(c: Chunk)
      reads c, c.ctxt.buf
    {
      && RequestOk(file, c.ctxt)
      && c.pos == c.bytesUsed && c.start == c.ctxt.off + c.bytesUsed
      && c.start <= c.end == c.ctxt.off + c.ctxt.size
      && c.ctxt.buf[..c.bytesUsed] == file[c.ctxt.off..c.start]
    }

    // Nothing has been done to the chunk yet.
    ghost predicate Untouched(c: Chunk)
      reads c
    {
      && RequestOk(file, c.ctxt)
      && c.pos == c.bytesUsed == 0 && c.start == c.ctxt.off && c.end == c.ctxt.off + c.ctxt.size
    }

    // What the history says about a chunk is true of the chunk.
    ghost predicate Kept(c: Chunk, h: History)
      reads c
    {
      c in h.used && h.used[c] == c.bytesUsed && (c in h.place && h.place[c].Queued? ==> Untouched(c))
    }

    // `bodies` are the chunks and their buffers.
    ghost predicate ChunksOk(h: History, bodies: set<object>, hand: Chunk?)
      reads bodies
    {
      && (forall c :: c in h.place ==> c in bodies && c.ctxt.buf in bodies && Kept(c, h))
      && (hand != null ==> hand in h.place && h.place[hand].InHand? && ChunkOk(hand))
    }

    lemma ChunksOkArrived(h: History, bodies: set<object>, hand: Chunk?, c: Chunk)
      requires ChunksOk(h, bodies, hand) && c !in h.place && Untouched(c)
      ensures ChunksOk(h.Arrived(c), bodies + {c, c.ctxt.buf}, hand)
    {
    }

    lemma ChunksOkTaken(h: History, bodies: set<object>, c: Chunk)
      requires ChunksOk(h, bodies, null) && c in h.place && h.place[c].Queued?
      ensures ChunksOk(h.Moved(c, InHand), bodies, c) && c.start == c.ctxt.off
    {
    }

    lemma ChunksOkMoved(h: History, bodies: set<object>, chunk: Chunk, to: Place)
      requires ChunksOk(h, bodies, chunk) && !to.Queued?
      ensures ChunksOk(h.Moved(chunk, to), bodies, null)
    {
    }

    lemma ChunksOkDropped(h: History, bodies: set<object>, chunk: Chunk)
      requires ChunksOk(h, bodies, chunk)
      ensures ChunksOk(h.Dropped(chunk), bodies, null)
    {
    }

    lemma HandIsKept(h: History, bodies: set<object>, chunk: Chunk)
      requires ChunksOk(h, bodies, chunk)
      ensures chunk in bodies && chunk.ctxt.buf in bodies && ChunkOk(chunk)
      ensures chunk in h.place && h.place[chunk].InHand? && chunk in h.used && h.used[chunk] == chunk.bytesUsed
    {
    }

    // Chunks have been thrown away by late time-outs, and in no other way.
    ghost predicate LossesOk(h: History, waits: seq<bool>) {
      |h.lost| == Lates(|file|, script, waits)
    }

    // The invariant, with `hand` as the chunk in hand.
    ghost predicate ValidHolding(hand: Chunk?)
      reads `h, `bodies, `waited, `waits, bodies, chunks, chunks.slots
    {
      && this !in bodies && chunks !in bodies && chunks.slots !in bodies
      && |waits| == waited && LossesOk(h, waits)
      && chunks.Valid() && Conserved(file, chunks.live, hand, h) && ChunksOk(h, bodies, hand)
    }

    ghost predicate Valid()
      reads this, bodies, chunks, chunks.slots
    {
      ValidHolding(current) && (seek ==> current != null)
    }

    // The chunks queued and those that may yet be.
    ghost function Room(): nat
      reads `waited, chunks
    {
      |chunks.live| + Coming(script, waited)
    }

    constructor (file: seq<Byte>, script: seq<Wait>)
      ensures Valid() && bodies == {} && fresh(chunks) && fresh(chunks.slots)
      ensures current == null && !seek && this.file == file && this.script == script
      ensures h == EmptyHistory && chunks.live == [] && waited == 0 && waits == [] && starts == []
    {
      this.file := file;
      var heap := new BinaryHeap<Chunk>();
      chunks := heap;
      downloadOffset, current, seek, timedOut := 0, null, false, false;
      h := EmptyHistory;
      this.script, waited, waits, starts := script, 0, [], [];
      bodies := {};
    }

    // The part of downloader_chunk_add that runs under the mutex.
    method Enqueue(c: Chunk, ghost hand: Chunk?)
      requires ValidHolding(hand)
      requires c !in h.place && Untouched(c)
      modifies this`h, this`bodies, chunks, chunks.slots
      ensures ValidHolding(hand) && h == old(h).Arrived(c)
      ensures bodies == old(bodies) + {c, c.ctxt.buf}
      ensures chunks.slots == old(chunks.slots) || fresh(chunks.slots)
      ensures |chunks.live| == |old(chunks.live)| + 1
    {
      hide Conserved, IsHeap, ChunksOk;
      chunks.Add(Int32(c.start), c);
      ConservedArrived(file, old(chunks.live), chunks.live, hand, h, c);
      ChunksOkArrived(h, bodies, hand, c);
      h, bodies := h.Arrived(c), bodies + {c, c.ctxt.buf};
    }

    method ChunkAdd(start: nat, end: nat, ctxt: ReadContext, ghost hand: Chunk?) returns (ghost c: Chunk)
      requires ValidHolding(hand)
      requires start <= end && start <= |file| && end <= |file|
      requires RequestOk(file, ctxt) && ctxt.off == start && ctxt.off + ctxt.size == end
      modifies this`h, this`bodies, chunks, chunks.slots
      ensures ValidHolding(hand)
      ensures fresh(c) && c.ctxt == ctxt && h == old(h).Arrived(c)
      ensures fresh(bodies - old(bodies) - {ctxt.buf})
      ensures chunks.slots == old(chunks.slots) || fresh(chunks.slots)
      ensures |chunks.live| == |old(chunks.live)| + 1
    {
      hide Conserved, IsHeap;
      var chunk := new Chunk(start, end, ctxt);
      c := chunk;
      Enqueue(chunk, hand);
    }

    // read.c: clamp the request, allocate its buffer, queue the chunk.
    method FsfuseRead(req: nat, size: nat, off: nat, ghost hand: Chunk?) returns (ghost c: Chunk)
      requires ValidHolding(hand)
      requires Accepted(off, size, |file|)
      modifies this`h, this`bodies, chunks, chunks.slots
      ensures ValidHolding(hand) && fresh(bodies - old(bodies))
      ensures fresh(c) && c !in old(h).place && h == old(h).Arrived(c)
      ensures c.ctxt.req == req && c.ctxt.off == off && c.ctxt.requested == size
      ensures chunks.slots == old(chunks.slots) || fresh(chunks.slots)
      ensures |chunks.live| == |old(chunks.live)| + 1
    {
      hide Conserved, IsHeap;
      var n := Clamped(off, size, |file|);
      var buf := new Byte[n];
      c := ChunkAdd(off, off + n, ReadContext(req, off, size, n, buf), hand);
    }

    /** Other threads: each read that gets past the asserts is queued, in order, and nothing else happens. */
    method ReadsArrive(arrivals: seq<Request>, ghost hand: Chunk?)
      requires ValidHolding(hand)
      modifies this`h, this`bodies, chunks, chunks.slots
      ensures ValidHolding(hand) && fresh(bodies - old(bodies))
      ensures OnlyArrivals(old(h), h)
      ensures chunks.slots == old(chunks.slots) || fresh(chunks.slots)
      ensures |chunks.live| == |old(chunks.live)| + |Accepting(|file|, arrivals)|
      ensures AddedFor(old(h), h, Accepting(|file|, arrivals))
    {
      hide ValidHolding, OnlyArrivals, AddedFor, Accepting, Accepted;
      ArrivalsRefl(h);
      AddedForNone(h);
      var i := 0;
      assert arrivals[..0] == [];
      while i < |arrivals|
        invariant 0 <= i <= |arrivals|
        invariant ValidHolding(hand) && fresh(bodies - old(bodies))
        invariant chunks.slots == old(chunks.slots) || fresh(chunks.slots)
        invariant OnlyArrivals(old(h), h)
        invariant |chunks.live| == |old(chunks.live)| + |Accepting(|file|, arrivals[..i])|
        invariant AddedFor(old(h), h, Accepting(|file|, arrivals[..i]))
      {
        var r := arrivals[i];
        AcceptingSnoc(|file|, arrivals, i);
        if Accepted(r.off, r.size, |file|) {
          ghost var before := h;
          ghost var c := FsfuseRead(r.req, r.size, r.off, hand);
          ArrivalsThenOne(old(h), before, c);
          AddedForOne(old(h), before, Accepting(|file|, arrivals[..i]), r, c);
        }
        i := i + 1;
      }
      assert arrivals[..i] == arrivals;
    }

    // A pop by the downloader's own thread, with the mutex held.
    method PopChunk() returns (chunk: Chunk?)
      requires ValidHolding(null)
      modifies this`h, chunks, chunks.slots
      ensures ValidHolding(chunk) && chunks.slots == old(chunks.slots)
      ensures chunk == null <==> old(chunks.live) == []
      ensures chunk == null ==> h == old(h) && chunks.live == []
      ensures chunk != null ==> old(h).Outstanding(chunk) && old(h).place[chunk].Queued? && h == old(h).Moved(chunk, InHand)
      ensures chunk != null ==> |chunks.live| == |old(chunks.live)| - 1
      ensures chunk != null ==> chunk.start == chunk.ctxt.off && Foremost(h, chunk) && LeastOffset(h, chunk)
    {
      hide Conserved, IsHeap, ChunksOk, LeastOffset;
      var popped := chunks.TryPop();
      if popped.None? {
        return null;
      }
      chunk := popped.value.value;
      ConservedTaken(file, old(chunks.live), chunks.live, h, popped.value);
      ChunksOkTaken(h, bodies, chunk);
      h := h.Moved(chunk, InHand);
      ForemostIsLeast(h, chunk);
    }

    // A look at the heap, after these reads have come in.
    method Look(arrivals: seq<Request>) returns (chunk: Chunk?, ghost arrived: History)
      requires ValidHolding(null)
      modifies this`h, this`bodies, chunks, chunks.slots
      ensures ValidHolding(chunk) && fresh(bodies - old(bodies))
      ensures chunks.slots == old(chunks.slots) || fresh(chunks.slots)
      ensures chunk == null <==> old(chunks.live) == [] && !Brings(|file|, arrivals)
      ensures OnlyArrivals(old(h), arrived)
      ensures chunk == null ==> h == arrived && chunks.live == []
      ensures chunk != null ==> h == arrived.Moved(chunk, InHand) && chunk in arrived.place && arrived.place[chunk].Queued?
      ensures chunk != null ==> chunk.start == chunk.ctxt.off && Foremost(h, chunk)
      ensures |chunks.live| + (if chunk == null then 0 else 1) <= |old(chunks.live)| + |arrivals|
    {
      hide ValidHolding, OnlyArrivals, AddedFor, Brings, Accepting, Foremost;
      BringsIsAccepting(|file|, arrivals);
      ReadsArrive(arrivals, null);
      arrived := h;
      chunk := PopChunk();
    }

    // The loop around pthread_cond_timedwait.  After a time-out the heap is tried once more.
    method TimedWait(w: Wait) returns (chunk: Chunk?, timedOut: bool)
      requires ValidHolding(null)
      modifies this`h, this`bodies, chunks, chunks.slots
      ensures ValidHolding(chunk) && fresh(bodies - old(bodies))
      ensures chunks.slots == old(chunks.slots) || fresh(chunks.slots)
      ensures Outcome(timedOut, chunk != null) == EndOf(|file|, old(chunks.live) == [], w)
      ensures old(chunks.live) != [] || Brings(|file|, w.early) ==> chunk != null && !timedOut
      ensures Waited(old(h), h, chunk, null)
      ensures chunk != null ==> chunk.start == chunk.ctxt.off && Foremost(h, chunk)
      ensures |chunks.live| + (if chunk == null then 0 else 1) <= |old(chunks.live)| + |w.early| + InWakes(w.wakes)
    {
      hide ValidHolding, Waited, OnlyArrivals, Scan, Brings, InWakes, Foremost;
      timedOut := false;
      ghost var arrived;
      chunk, arrived := Look(w.early);
      var i := 0;
      assert w.wakes[0..] == w.wakes;
      while chunk == null && !timedOut
        invariant 0 <= i <= |w.wakes| + 1 && (i > |w.wakes| ==> timedOut)
        invariant ValidHolding(chunk) && fresh(bodies - old(bodies))
        invariant chunks.slots == old(chunks.slots) || fresh(chunks.slots)
        invariant OnlyArrivals(old(h), arrived)
        invariant chunk == null ==> h == arrived && chunks.live == []
        invariant chunk != null ==> h == arrived.Moved(chunk, InHand) && chunk in arrived.place && arrived.place[chunk].Queued?
        invariant chunk != null ==> chunk.start == chunk.ctxt.off && Foremost(h, chunk)
        invariant EndOf(|file|, old(chunks.live) == [], w) ==
            if chunk == null && !timedOut then Scan(|file|, w.wakes[i..]) else Outcome(timedOut, chunk != null)
        invariant |chunks.live| + (if chunk == null then 0 else 1) + (if i <= |w.wakes| then InWakes(w.wakes[i..]) else 0)
            <= |old(chunks.live)| + |w.early| + InWakes(w.wakes)
        decreases |w.wakes| + 1 - i
      {
        var wake := if i < |w.wakes| then w.wakes[i] else Wake(true, []);
        ScanStep(|file|, w.wakes, i);
        ghost var before := arrived;
        chunk, arrived := Look(wake.arrivals);
        ArrivalsCompose(old(h), before, arrived);
        timedOut := wake.timedOut;
        i := i + 1;
      }
      if chunk == null {
        ArrivalsAreWait(old(h), h);
      } else {
        ArrivalsThenPop(old(h), arrived, chunk);
      }
    }

    // After the loop: a time-out makes the chunk NULL, whatever was popped.
    method EndWait(chunk: Chunk?, timedOut: bool, ghost empty: bool)
      requires ValidHolding(chunk)
      requires Outcome(timedOut, chunk != null) == EndOf(|file|, empty, WaitAt(script, waited))
      modifies this`h, this`waited, this`waits
      ensures ValidHolding(if timedOut then null else chunk)
      ensures waited == old(waited) + 1 && waits == old(waits) + [empty]
      ensures h == if timedOut && chunk != null then old(h).Dropped(chunk) else old(h)
    {
      hide Conserved, IsHeap, ChunksOk, EndOf;
      LatesSnoc(|file|, script, waits, empty);
      waited, waits := waited + 1, waits + [empty];
      if timedOut && chunk != null {
        ConservedDropped(file, chunks.live, chunk, h);
        ChunksOkDropped(h, bodies, chunk);
        h := h.Dropped(chunk);
      }
    }

    /** The wait for a chunk.  What the last look at the heap after a time-out finds is thrown away, as in the
        source: `dropped` is that chunk, and there is one exactly when the time-out is late. */
    method ChunkGetNext() returns (chunk: Chunk?, timedOut: bool, ghost dropped: Chunk?)
      requires ValidHolding(null)
      modifies this`h, this`bodies, this`waited, this`waits, chunks, chunks.slots
      ensures ValidHolding(chunk) && fresh(bodies - old(bodies))
      ensures chunks.slots == old(chunks.slots) || fresh(chunks.slots)
      ensures waits == old(waits) + [old(chunks.live) == []]
      ensures var w := WaitAt(script, old(waited));
              && (dropped != null <==> Late(|file|, old(chunks.live) == [], w))
              && (chunk != null <==> EndOf(|file|, old(chunks.live) == [], w) == Outcome(false, true))
              && (timedOut <==> EndOf(|file|, old(chunks.live) == [], w).timedOut)
      ensures old(chunks.live) != [] || Brings(|file|, WaitAt(script, old(waited)).early) ==> chunk != null && !timedOut
      ensures Waited(old(h), h, chunk, dropped)
      ensures chunk != null ==> chunk.start == chunk.ctxt.off && Foremost(h, chunk) && LeastOffset(h, chunk)
      ensures Room() + (if chunk == null then 0 else 1) <= old(Room())
    {
      hide ValidHolding, Waited, EndOf, Foremost, LeastOffset, Brings;
      ghost var empty := chunks.live == [];
      var w := WaitAt(script, waited);
      ComingAt(script, waited);
      chunk, timedOut := TimedWait(w);
      dropped := if timedOut then chunk else null;
      ghost var popped := h;
      EndWait(chunk, timedOut, empty);
      if timedOut {
        if chunk != null {
          PopThenDrop(old(h), popped, chunk);
        }
        chunk := null;
      } else if chunk != null {
        ForemostIsLeast(h, chunk);
      }
    }

    // signal_read_thread, and chunk_done at the other end of it.
    method SignalRead(chunk: Chunk, rc: int, size: nat)
      requires ValidHolding(chunk)
      requires rc == 0 ==> chunk.start == chunk.end && size == chunk.bytesUsed
      requires rc != 0 ==> size == 0
      modifies this`h
      ensures ValidHolding(null)
      ensures h == old(h).Replied(Answer(chunk, rc, if rc == 0 then chunk.ctxt.buf[..] else []))
    {
      hide Conserved, IsHeap;
      ChunksOkMoved(h, bodies, chunk, Answered(|h.answers|));
      var x := chunk.ctxt;
      AcceptedIsClamped(x.off, x.requested, |file|);
      ghost var answer := Answer(chunk, rc, if rc == 0 then x.buf[..size] else []);
      assert rc == 0 ==> x.buf[..size] == x.buf[..];
      ConservedReplied(file, chunks.live, h, answer);
      h := h.Replied(answer);
    }

    // memcpy(chunk->buf, part, |part|)
    method CopyIn(chunk: Chunk, part: seq<Byte>)
      requires chunk.pos + |part| <= chunk.ctxt.buf.Length
      modifies chunk.ctxt.buf
      ensures chunk.ctxt.buf[..chunk.pos + |part|] == old(chunk.ctxt.buf[..chunk.pos]) + part
    {
      forall i | 0 <= i < |part| {
        chunk.ctxt.buf[chunk.pos + i] := part[i];
      }
    }

    // The copy and the counters beside it: the filled prefix grows by `part`.
    method Extend(chunk: Chunk, part: seq<Byte>)
      requires ChunkOk(chunk)
      requires chunk.start + |part| <= chunk.end && part == file[chunk.start..chunk.start + |part|]
      modifies chunk, chunk.ctxt.buf
      ensures ChunkOk(chunk)
      ensures chunk.start == old(chunk.start) + |part| && chunk.end == old(chunk.end)
      ensures chunk.bytesUsed == old(chunk.bytesUsed) + |part|
    {
      assert file[chunk.ctxt.off..chunk.start] + part == file[chunk.ctxt.off..chunk.start + |part|];
      CopyIn(chunk, part);
      chunk.bytesUsed := chunk.bytesUsed + |part|;
      chunk.start := chunk.start + |part|;
      chunk.pos := chunk.pos + |part|;
    }

    // What buf_consumer does to the chunk in hand when the buffer continues it.
    method Fill(chunk: Chunk, part: seq<Byte>)
      requires ValidHolding(chunk)
      requires chunk.start + |part| <= chunk.end && part == file[chunk.start..chunk.start + |part|]
      modifies this`h, chunk, chunk.ctxt.buf
      ensures ValidHolding(chunk)
      ensures h == old(h).Filled(chunk, old(chunk.bytesUsed) + |part|)
      ensures chunk.start == old(chunk.start) + |part| && chunk.end == old(chunk.end)
    {
      hide Conserved, IsHeap, Untouched;
      Extend(chunk, part);
      ChunksOkFilled(h, bodies, chunk);
      ConservedFilled(file, chunks.live, chunk, h, chunk.bytesUsed);
      h := h.Filled(chunk, chunk.bytesUsed);
    }

    lemma ChunksOkFilled(h: History, bodies: set<object>, chunk: Chunk)
      requires chunk in h.place && h.place[chunk].InHand? && ChunkOk(chunk)
      requires forall c :: c in h.place ==> c in bodies && c.ctxt.buf in bodies
      requires forall c :: c in h.place && c != chunk ==> Kept(c, h)
      ensures ChunksOk(h.Filled(chunk, chunk.bytesUsed), bodies, chunk)
    {
    }

    /** One turn of buf_consumer's loop, up to the point where it may need another chunk: take `part`,
        and answer the read, with success, if that was the last of it. */
    method TakePart(chunk: Chunk, part: seq<Byte>) returns (complete: bool)
      requires ValidHolding(chunk)
      requires chunk.start + |part| <= chunk.end && part == file[chunk.start..chunk.start + |part|]
      modifies this`h, chunk, chunk.ctxt.buf
      ensures complete <==> old(chunk.start) + |part| == old(chunk.end)
      ensures ValidHolding(if complete then null else chunk)
      ensures chunk.start == old(chunk.start) + |part| && chunk.end == old(chunk.end)
      ensures var filled := old(h).Filled(chunk, old(chunk.bytesUsed) + |part|);
              h == if complete then filled.Replied(Answer(chunk, 0, chunk.ctxt.buf[..])) else filled
      ensures complete ==> h.AnsweredWith(chunk, 0)
      ensures TotalBytes(h) == TotalBytes(old(h)) + |part|
      ensures Advanced(old(h), h, 0)
      ensures part != [] || complete ==> old(h).Done(chunk) < h.Done(chunk)
      ensures old(h).Outstanding(chunk)
    {
      hide Conserved, IsHeap, Advanced, ChunksOk, TotalBytes, LossesOk;
      HandIsKept(h, bodies, chunk);
      FillAdvances(h, chunk, chunk.bytesUsed + |part|);
      FillBytes(file, chunks.live, h, chunk, chunk.bytesUsed + |part|);
      Fill(chunk, part);
      complete := chunk.start == chunk.end;
      if complete {
        ghost var filled := h;
        SignalRead(chunk, 0, chunk.bytesUsed);
        ReplyBytes(filled, h.answers[|filled.answers|]);
        ReplyAdvances(filled, h.answers[|filled.answers|]);
        AdvancedCompose(old(h), filled, h, 0);
      }
    }

    lemma HandFacts(chunk: Chunk)
      requires ValidHolding(chunk)
      ensures chunk in bodies && chunk.ctxt.buf in bodies && chunk.start <= chunk.end <= |file|
      ensures h.Bytes(chunk) == chunk.bytesUsed && chunk.end - chunk.start == Left(h, chunk)
      ensures chunk.start == chunk.ctxt.off + h.Bytes(chunk)
    {
      HandIsKept(h, bodies, chunk);
    }

    lemma Apart(hand: Chunk?)
      requires ValidHolding(hand)
      ensures this !in bodies
    {
    }

    // What the chunk in hand gets of the buffer: all of it that is left, or up to the end of the chunk.
    method TakeNext(chunk: Chunk, data: seq<Byte>, copied: nat) returns (copyLen: nat, complete: bool)
      requires ValidHolding(chunk) && copied <= |data| && chunk.start == downloadOffset + copied
      requires downloadOffset + |data| <= |file| && data == file[downloadOffset..downloadOffset + |data|]
      modifies this`h, chunk, chunk.ctxt.buf
      ensures copyLen == Min(|data| - copied, old(chunk.end) - old(chunk.start)) && copied + copyLen <= |data|
      ensures complete <==> chunk.start == chunk.end
      ensures ValidHolding(if complete then null else chunk)
      ensures chunk.start == old(chunk.start) + copyLen && (copied + copyLen < |data| ==> complete)
      ensures TotalBytes(h) == TotalBytes(old(h)) + copyLen
      ensures Served(old(h), h, chunk, |data| - copied) && (complete <==> copyLen == Left(old(h), chunk))
      ensures Advanced(old(h), h, 0)
      ensures copyLen > 0 || complete ==> old(h).Done(chunk) < h.Done(chunk)
    {
      hide ValidHolding, Advanced, TotalBytes;
      HandFacts(chunk);
      copyLen := if |data| - copied < chunk.end - chunk.start then |data| - copied else chunk.end - chunk.start;
      var part := data[copied..copied + copyLen];
      SliceOfSlice(file, downloadOffset, |data|, copied, copyLen);
      complete := TakePart(chunk, part);
    }

    // Waiting for the next chunk from inside buf_consumer.
    method NextChunk()
      requires ValidHolding(null)
      modifies this, chunks, chunks.slots
      ensures ValidHolding(current) && fresh(bodies - old(bodies))
      ensures chunks.slots == old(chunks.slots) || fresh(chunks.slots)
      ensures current == null ==> timedOut && LastWaitFailed(waits)
      ensures old(waits) <= waits
      ensures current != null <==> EndOf(|file|, old(chunks.live) == [], WaitAt(script, old(waited))) == Outcome(false, true)
      ensures seek == old(seek) && downloadOffset == old(downloadOffset) && starts == old(starts)
      ensures Advanced(old(h), h, 0) && TotalBytes(h) == TotalBytes(old(h))
      ensures Room() + (if current == null then 0 else 1) <= old(Room())
    {
      hide ValidHolding, Waited, Advanced, TotalBytes, EndOf, Room;
      ghost var dropped;
      var chunk, late;
      Holds(null);
      WaitsCounted(null);
      ghost var live0, h0 := chunks.live, h;
      chunk, late, dropped := ChunkGetNext();
      Apart(chunk);
      WaitedAdvances(h0, h, chunk, dropped, 0);
      SameBytes(live0, h0, chunk, dropped);
      current := chunk;
      if current == null {
        timedOut := true;
      }
    }

    lemma SameBytes(live: seq<Kvp<Chunk>>, before: History, chunk: Chunk?, dropped: Chunk?)
      requires ValidHolding(chunk) && Conserved(file, live, null, before) && Waited(before, h, chunk, dropped)
      ensures TotalBytes(h) == TotalBytes(before)
    {
      hide Conserved;
      WaitedBytes(file, live, null, before, chunks.live, chunk, h, chunk, dropped);
    }

    /** One turn of buf_consumer's loop: the chunk takes what it can of the buffer, and unless that was the end of the
        buffer (`done`) the next chunk is waited for. */
    method Pass(chunk: Chunk, data: seq<Byte>, copied: nat) returns (copyLen: nat, done: bool)
      requires current == chunk && ValidHolding(chunk) && copied <= |data| && chunk.start == downloadOffset + copied
      requires downloadOffset + |data| <= |file| && data == file[downloadOffset..downloadOffset + |data|]
      modifies this, bodies, chunks, chunks.slots
      ensures ValidHolding(current) && fresh(bodies - old(bodies)) && (chunks.slots == old(chunks.slots) || fresh(chunks.slots))
      ensures downloadOffset == old(downloadOffset) && starts == old(starts) && seek == old(seek)
      ensures copied + copyLen <= |data| && (done <==> copied + copyLen == |data|)
      ensures done && current != null ==> current.start == downloadOffset + |data|
      ensures !done && current == null ==> timedOut && LastWaitFailed(waits)
      ensures TotalBytes(h) == TotalBytes(old(h)) + copyLen
      ensures old(waits) <= waits && Advanced(old(h), h, 0)
      ensures Served(old(h), h, chunk, copyLen) && 0 <= old(Left(h, chunk))
      ensures copyLen < old(Left(h, chunk)) ==> done && current == chunk
      ensures !done && current != null ==> Room() < old(Room())
    {
      hide *;
      HandFacts(chunk);
      Apart(chunk);
      ghost var h0 := h;
      var complete;
      copyLen, complete := TakeNext(chunk, data, copied);
      ghost var hand := if complete then null else chunk;
      if copied + copyLen < |data| {
        ServedLess(h0, h, chunk, |data| - copied, copyLen);
      }
      Apart(hand);
      done := copied + copyLen == |data|;
      if done {
        // At the end of the chunk too the next one is not waited for, because this may be the end of the file.
        if complete {
          current := null;
        }
      } else {
        ghost var before := h;
        NextChunk();
        AdvancedStep(h0, before, h, 0, chunk);
        StillServed(h0, before, current, chunk, copyLen, 0);
      }
    }

    /** The loop of buf_consumer.  It returns 0 exactly when the whole buffer went into chunks; otherwise
        it stopped because the next chunk starts elsewhere (`seek`) or none came in time. */
    method ConsumeLoop(first: Chunk, data: seq<Byte>) returns (rc: int, ghost copied: nat)
      requires current == first && ValidHolding(first) && (seek ==> first.start != downloadOffset)
      requires downloadOffset + |data| <= |file| && data == file[downloadOffset..downloadOffset + |data|]
      modifies this, bodies, chunks, chunks.slots
      ensures ValidHolding(current) && fresh(bodies - old(bodies)) && (chunks.slots == old(chunks.slots) || fresh(chunks.slots))
      ensures downloadOffset == old(downloadOffset) && starts == old(starts) && (rc == 0 || rc == 1)
      ensures TotalBytes(h) == TotalBytes(old(h)) + copied
      ensures rc == 0 ==> copied == |data| && !seek && (current != null ==> current.start == downloadOffset + |data|)
      ensures rc == 1 ==> copied <= |data| && (data != [] ==> copied < |data|)
      ensures rc == 1 ==> if current == null then timedOut && !seek else seek && current.start != downloadOffset + copied
      ensures old(waits) <= waits && (rc == 1 && current == null ==> LastWaitFailed(waits))
      ensures Advanced(old(h), h, 0)
      ensures old(first.start) == downloadOffset ==> Served(old(h), h, first, copied)
      ensures old(first.start) == downloadOffset && copied < old(Left(h, first)) ==>
          rc == 0 && current == first && first.start == downloadOffset + |data|
    {
      hide *;
      copied := 0;
      var chunk: Chunk := first;
      var bufStart := downloadOffset;
      ghost var ours, begun := first.start == downloadOffset, false;
      AdvancedRefl(h, 0);
      HandFacts(first);
      while true
        invariant ValidHolding(chunk) && chunk == current && fresh(bodies - old(bodies))
        invariant chunks.slots == old(chunks.slots) || fresh(chunks.slots)
        invariant bufStart == downloadOffset + copied && copied <= |data| && (data != [] ==> copied < |data|)
        invariant downloadOffset == old(downloadOffset) && starts == old(starts)
        invariant seek ==> copied == 0 && chunk.start != bufStart
        invariant TotalBytes(h) == TotalBytes(old(h)) + copied
        invariant Advanced(old(h), h, 0) && old(waits) <= waits
        invariant !begun ==> chunk == first && copied == 0 && h == old(h) && first.start == old(first.start)
        invariant ours && begun ==> Served(old(h), h, first, copied) && Left(old(h), first) <= copied
        decreases |data| - copied, Room()
      {
        Apart(chunk);
        if chunk.start != bufStart {
          seek := true;
          return 1, copied;
        }
        ghost var before := h;
        var copyLen, done := Pass(chunk, data, bufStart - downloadOffset);
        AdvancedStep(old(h), before, h, 0, first);
        if begun && ours {
          StillServed(old(h), before, current, first, copied, copyLen);
        }
        begun, bufStart, copied := true, bufStart + copyLen, copied + copyLen;
        if done {
          return 0, copied;
        }
        if current == null {
          return 1, copied;
        }
        chunk := current;
      }
    }

    lemma StillServed(h0: History, h1: History, hand: Chunk?, c: Chunk, bytes: nat, more: nat)
      requires ValidHolding(hand) && Served(h0, h1, c, bytes) && 0 <= Left(h0, c) <= bytes && Advanced(h1, h, 0)
      ensures Served(h0, h, c, bytes + more)
    {
      hide Conserved, Advanced, Served;
      ServedStays(file, chunks.live, hand, h0, h1, h, c, bytes, more);
    }

    // The body callback.
    method BufConsumer(data: seq<Byte>) returns (rc: int, ghost copied: nat)
      requires Valid() && (seek ==> current.start != downloadOffset)
      requires downloadOffset + |data| <= |file| && data == file[downloadOffset..downloadOffset + |data|]
      modifies this, bodies, chunks, chunks.slots
      ensures Valid() && fresh(bodies - old(bodies)) && (chunks.slots == old(chunks.slots) || fresh(chunks.slots))
      ensures (rc == 0 || rc == 1) && starts == old(starts)
      ensures TotalBytes(h) == TotalBytes(old(h)) + copied
      ensures rc == 0 ==> copied == |data| && downloadOffset == old(downloadOffset) + |data| && !seek
      ensures rc == 0 && current != null ==> current.start == downloadOffset
      ensures rc == 1 ==> downloadOffset == old(downloadOffset) && copied <= |data| && (data != [] ==> copied < |data|)
      ensures rc == 1 ==> if current == null then timedOut else seek && current.start != downloadOffset + copied
      ensures old(waits) <= waits && (rc == 1 && current == null ==> LastWaitFailed(waits))
      ensures Advanced(old(h), h, 0)
      ensures var c := old(current);
        c != null && old(c.start) == old(downloadOffset) ==>
          && Served(old(h), h, c, copied) && 0 <= old(Left(h, c))
          && (copied < old(Left(h, c)) ==> rc == 0 && current == c && c.start == downloadOffset)
    {
      hide ValidHolding, Advanced, TotalBytes, EndOf, LastWaitFailed, Served, Left;
      ghost var before := h;
      if current == null {
        NextChunk();
        before := h;
        if current == null {
          return 1, 0;
        }
      } else {
        AdvancedRefl(h, 0);
        HandFacts(current);
      }
      rc, copied := ConsumeLoop(current, data);
      AdvancedStep(old(h), before, h, 0, null);
      Apart(current);
      if rc == 0 {
        downloadOffset := downloadOffset + |data|;
      }
    }

    /** One pass of fetcher_fetch_body with the range `start-`: the peer sends the file from there in
        buffers of any size, the connection may end early, and the transfer may fail with any code.
        A buffer that is not consumed makes libcurl abort, which counts as success: then the fetch is `cut`, by a seek
        or because no chunk came in time.  Otherwise all that is sent goes into chunks, first into the chunk in hand. */
    method Fetch(t: Transfer) returns (rc: int, ghost got: nat, ghost cut: bool)
      requires Valid() && !seek && current != null && current.start == downloadOffset
      modifies this, bodies, chunks, chunks.slots
      ensures Valid() && fresh(bodies - old(bodies)) && (chunks.slots == old(chunks.slots) || fresh(chunks.slots))
      ensures starts == old(starts) + [old(downloadOffset)]
      ensures !t.found ==> rc == 16 && h == old(h) && got == 0 && !cut
      ensures t.found && cut ==>
                && rc == 0 && old(Left(h, current)) <= got < Sent(|file|, old(downloadOffset), t)
                && (if current == null then timedOut && LastWaitFailed(waits)
                    else seek && current.start != old(downloadOffset) + got)
      ensures t.found && !cut ==>
                && rc == t.rc && got == Sent(|file|, old(downloadOffset), t)
                && downloadOffset == old(downloadOffset) + got
                && (current != null && !seek ==> current.start == downloadOffset)
      ensures TotalBytes(h) == TotalBytes(old(h)) + got
      ensures Calls(|file|, old(downloadOffset), t) ==> Served(old(h), h, old(current), got)
      ensures 0 <= old(Left(h, current))
      ensures old(waits) <= waits
      ensures Advanced(old(h), h, 0)
    {
      hide ValidHolding, Advanced, TotalBytes, Served, LastWaitFailed, Sent, Left, Fed, CallsBy, SentSoFar;
      ghost var first: Chunk := current;
      HandFacts(current);
      Apart(current);
      starts := starts + [downloadOffset];
      got, cut := 0, false;
      NotFed(first);
      FedFacts(h, first, 0, false);
      if !t.found {
        return EBUSY, got, cut;
      }
      rc := t.rc;
      var i := 0;
      ghost var from := downloadOffset;
      NothingSent(|file|, from, t);
      while i < |t.buffers|
        invariant 0 <= i <= |t.buffers| && got == SentSoFar(|file|, from, t, i)
        invariant Valid() && fresh(bodies - old(bodies)) && (chunks.slots == old(chunks.slots) || fresh(chunks.slots))
        invariant downloadOffset == from + got <= |file| && old(waits) <= waits
        invariant starts == old(starts) + [from] && TotalBytes(h) == TotalBytes(old(h)) + got
        invariant if seek then current != null && current.start != downloadOffset
                  else current != null ==> current.start == downloadOffset
        invariant Fed(old(h), first, got, CallsBy(|file|, from, t, i))
      {
        var stop;
        ghost var copied;
        stop, copied := FeedNext(t, i, from, old(h), first, got);
        got := got + copied;
        if stop {
          FedFacts(old(h), first, got, true);
          cut := true;
          return 0, got, cut;
        }
        i := i + 1;
      }
      FedFacts(old(h), first, got, CallsBy(|file|, from, t, i));
      SentAll(|file|, from, t);
    }

    // The next buffer, up to the end of the file.
    method FeedNext(t: Transfer, i: nat, ghost from: nat, ghost h0: History, ghost first: Chunk, ghost got: nat)
        returns (stop: bool, ghost copied: nat)
      requires Valid() && i < |t.buffers| && got == SentSoFar(|file|, from, t, i) && downloadOffset == from + got <= |file|
      requires if seek then current != null && current.start != downloadOffset
               else current != null ==> current.start == downloadOffset
      requires Fed(h0, first, got, CallsBy(|file|, from, t, i))
      modifies this, bodies, chunks, chunks.slots
      ensures Valid() && fresh(bodies - old(bodies)) && (chunks.slots == old(chunks.slots) || fresh(chunks.slots))
      ensures starts == old(starts) && old(waits) <= waits && TotalBytes(h) == TotalBytes(old(h)) + copied
      ensures !stop ==>
                && got + copied == SentSoFar(|file|, from, t, i + 1) && downloadOffset == from + got + copied <= |file|
                && (if seek then current != null && current.start != downloadOffset
                    else current != null ==> current.start == downloadOffset)
                && Fed(h0, first, got + copied, CallsBy(|file|, from, t, i + 1))
      ensures stop ==>
                && Left(h0, first) <= got + copied < Sent(|file|, from, t) && Fed(h0, first, got + copied, true)
                && (if current == null then timedOut && LastWaitFailed(waits)
                    else seek && current.start != from + got + copied)
    {
      hide ValidHolding, Advanced, TotalBytes, Served, LastWaitFailed, Sent, Left, Fed, CallsBy, SentSoFar;
      stop, copied := false, 0;
      NothingSent(|file|, from, t);
      SentStep(|file|, from, t, i);
      CallsByStep(|file|, from, t, i);
      SentGrows(|file|, from, t, i + 1);
      var len := if t.buffers[i] > |file| - downloadOffset then |file| - downloadOffset else t.buffers[i];
      Apart(current);
      if len == t.buffers[i] || len > 0 {
        var bad;
        bad, copied := FeedBuffer(len, h0, first, got, CallsBy(|file|, from, t, i));
        stop := len > 0 && bad != 0;
      }
    }

    lemma NotFed(first: Chunk)
      requires ValidHolding(first) && current == first && !seek
      ensures Fed(h, first, 0, false)
    {
      HandFacts(first);
      AdvancedRefl(h, 0);
    }

    lemma FedFacts(h0: History, first: Chunk, got: nat, called: bool)
      requires Fed(h0, first, got, called)
      ensures 0 <= Left(h0, first) && Advanced(h0, h, 0) && (called ==> Served(h0, h, first, got))
    {}

    // How the chunk that was in hand first has fared; until the callback is called, nothing happens.
    ghost predicate Fed(h0: History, first: Chunk, got: nat, called: bool)
      reads this
    {
      && 0 <= Left(h0, first) && Advanced(h0, h, 0)
      && (if called then Served(h0, h, first, got) else h == h0 && got == 0)
      && (!called || got < Left(h0, first) ==> current == first && !seek)
    }

    // One call of the callback.
    method FeedBuffer(len: nat, ghost h0: History, ghost first: Chunk, ghost got: nat, ghost called: bool)
        returns (bad: int, ghost copied: nat)
      requires Valid() && downloadOffset + len <= |file| && Fed(h0, first, got, called)
      requires if seek then current != null && current.start != downloadOffset
               else current != null ==> current.start == downloadOffset
      modifies this, bodies, chunks, chunks.slots
      ensures Valid() && fresh(bodies - old(bodies)) && (chunks.slots == old(chunks.slots) || fresh(chunks.slots))
      ensures (bad == 0 || bad == 1) && starts == old(starts) && old(waits) <= waits
      ensures TotalBytes(h) == TotalBytes(old(h)) + copied
      ensures bad == 0 ==> copied == len && downloadOffset == old(downloadOffset) + len && !seek
      ensures bad == 0 && current != null ==> current.start == downloadOffset
      ensures bad == 1 ==> downloadOffset == old(downloadOffset) && copied <= len && (len > 0 ==> copied < len)
      ensures bad == 1 ==> if current == null then timedOut && LastWaitFailed(waits)
                           else seek && current.start != downloadOffset + copied
      ensures bad == 1 && current == null ==> !seek
      ensures Fed(h0, first, got + copied, true) && (bad == 1 ==> Left(h0, first) <= got + copied)
    {
      hide ValidHolding, Advanced, TotalBytes, LastWaitFailed, Served, Left;
      ghost var before := h;
      Apart(current);
      bad, copied := BufConsumer(file[downloadOffset..downloadOffset + len]);
      AdvancedStep(h0, before, h, 0, first);
      FedMore(h0, before, current, first, got, copied, called);
    }

    lemma FedMore(h0: History, h1: History, hand: Chunk?, first: Chunk, got: nat, more: nat, called: bool)
      requires ValidHolding(hand) && Advanced(h1, h, 0) && 0 <= Left(h0, first)
      requires if called then Served(h0, h1, first, got) else h1 == h0 && got == 0
      requires !called || got < Left(h0, first) ==> Served(h1, h, first, more) && 0 <= Left(h1, first)
      ensures Served(h0, h, first, got + more)
      ensures got + more < Left(h0, first) ==> more < Left(h1, first)
    {
      hide Advanced;
      if called && Left(h0, first) <= got {
        StillServed(h0, h1, hand, first, got, more);
      } else if called {
        ServedThen(h0, h1, h, first, got, more);
      }
    }

    // signal_read_thread with an error, for the chunk in hand.
    method FailHand(chunk: Chunk, rc: int)
      requires ValidHolding(chunk) && rc != 0
      modifies this`h
      ensures ValidHolding(null)
      ensures h == old(h).Replied(Answer(chunk, rc, [])) && Advanced(old(h), h, rc)
    {
      hide Conserved, IsHeap, Advanced, ChunksOk;
      HandIsKept(h, bodies, chunk);
      SignalRead(chunk, rc, 0);
      ReplyAdvances(old(h), Answer(chunk, rc, []));
    }

    // Every queued chunk is answered with the error; none is thrown away.
    method ChunksEmpty(rc: int)
      requires ValidHolding(null) && rc != 0
      modifies this`h, chunks, chunks.slots
      ensures ValidHolding(null) && chunks.live == [] && chunks.slots == old(chunks.slots)
      ensures Advanced(old(h), h, rc) && h.lost == old(h).lost && h.added == old(h).added
      ensures AllSettled(h) && AnsweredAll(old(h), h, rc)
    {
      hide IsHeap, Conserved, Advanced, ChunksOk, AllSettled, LossesOk;
      ghost var live0, h0 := chunks.live, h;
      assert Conserved(file, live0, null, h0);
      var chunk := PopChunk();
      PopAdvances(old(h), h, chunk, rc);
      while chunk != null
        invariant ValidHolding(chunk) && chunks.slots == old(chunks.slots)
        invariant chunk == null ==> chunks.live == []
        invariant Advanced(old(h), h, rc) && h.lost == old(h).lost && h.added == old(h).added
        decreases |chunks.live|, chunk != null
      {
        ghost var before := h;
        FailHand(chunk, rc);
        AdvancedStep(old(h), before, h, rc, null);
        before := h;
        chunk := PopChunk();
        PopAdvances(before, h, chunk, rc);
        AdvancedStep(old(h), before, h, rc, null);
      }
      EmptyIsSettled(file, chunks.live, h);
      AllAnsweredSince(live0, null, h0, null, rc);
    }

    // All that was outstanding at an earlier time, and all that has come since, has been answered since.
    lemma AllAnsweredSince(live: seq<Kvp<Chunk>>, hand: Chunk?, before: History, hand': Chunk?, rc: int)
      requires Conserved(file, live, hand, before) && ValidHolding(hand')
      requires Advanced(before, h, rc) && h.lost == before.lost && AllSettled(h)
      ensures AnsweredAll(before, h, rc)
    {
      hide Conserved;
      forall c | c in h.place && (c in before.place ==> before.Outstanding(c))
        ensures h.AnsweredWith(c, rc) && |before.answers| <= h.place[c].at
      {
        AnsweredSince(file, live, hand, before, chunks.live, hand', h, rc, c);
      }
      assert forall c :: c in before.place ==> c in h.place;
    }

    /** The end of downloaderead_main, with the reads that arrive before it has the mutex.  It ends in order
        exactly when a fetch failed while a chunk was in hand, or there is no chunk left; otherwise the thread's
        asserts fail, with nothing answered.  Where it ends in order every read that had no answer yet has been
        answered with the error. */
    method FinishThread(rc: int, arrivals: seq<Request>) returns (exit: Exit)
      requires ValidHolding(current) && (rc == 0 ==> current == null)
      modifies this, chunks, chunks.slots
      ensures ValidHolding(current) && fresh(bodies - old(bodies))
      ensures exit.Finished? || exit.Aborted?
      ensures exit.Finished? <==> (rc != 0 && Held(old(h))) || (AllSettled(old(h)) && !Brings(|file|, arrivals))
      ensures exit.Finished? <==> AllSettled(h)
      ensures h.lost == old(h).lost && waits == old(waits) && starts == old(starts)
      ensures AddedFor(old(h), h, Accepting(|file|, arrivals))
      ensures exit.Finished? ==> AnsweredAll(old(h), h, rc)
      ensures exit.Aborted? ==> h.answers == old(h).answers
      ensures Advanced(old(h), h, rc)
    {
      hide ValidHolding, Conserved, Advanced, AllSettled, AddedFor, Brings, Accepting, AnsweredAll, Held;
      ghost var live0, h0, hand := chunks.live, h, current;
      Holds(current);
      HeldIsCurrent(current);
      if rc != 0 && current != null {
        exit := EndFailed(rc, arrivals);
      } else if rc == 0 {
        HeapUsed();
        exit := EndIdle(rc, arrivals);
      } else {
        HeapUsed();
        LastArrivals(rc, arrivals);
        HeapUsed();
        exit := if chunks.used == 0 then Finished else Aborted;
      }
      if exit.Finished? {
        AllAnsweredSince(live0, hand, h0, current, rc);
      }
    }

    // The wait for the mutex at the end.
    method LastArrivals(rc: int, arrivals: seq<Request>)
      requires ValidHolding(current)
      modifies this`h, this`bodies, chunks, chunks.slots
      ensures ValidHolding(current) && fresh(bodies - old(bodies)) && this !in bodies
      ensures chunks.slots == old(chunks.slots) || fresh(chunks.slots)
      ensures chunks.live == [] <==> old(chunks.live) == [] && !Brings(|file|, arrivals)
      ensures h.lost == old(h).lost && h.answers == old(h).answers
      ensures AddedFor(old(h), h, Accepting(|file|, arrivals))
      ensures Advanced(old(h), h, rc)
    {
      hide ValidHolding, Advanced, AddedFor, OnlyArrivals, Brings, Accepting, Waited;
      BringsIsAccepting(|file|, arrivals);
      ReadsArrive(arrivals, current);
      Apart(current);
      ArrivalsAreWait(old(h), h);
      WaitKeepsLost(old(h), h, null);
      WaitedAdvances(old(h), h, null, null, rc);
    }

    // The branch for rc 0, which asserts that no chunk is left.
    method EndIdle(rc: int, arrivals: seq<Request>) returns (exit: Exit)
      requires current == null && ValidHolding(null) && rc == 0
      modifies this`h, this`bodies, this`current, chunks, chunks.slots
      ensures ValidHolding(current) && fresh(bodies - old(bodies))
      ensures exit == if old(chunks.live) == [] && !Brings(|file|, arrivals) then Finished else Aborted
      ensures exit.Finished? <==> AllSettled(h)
      ensures h.lost == old(h).lost && h.answers == old(h).answers
      ensures AddedFor(old(h), h, Accepting(|file|, arrivals))
      ensures Advanced(old(h), h, rc)
    {
      hide ValidHolding, Advanced, AllSettled, AddedFor, Brings, Accepting, Foremost;
      LastArrivals(rc, arrivals);
      ghost var before := h;
      var chunk := PopChunk();
      AddedForThen(old(h), before, h, Accepting(|file|, arrivals));
      PopAdvances(before, h, chunk, rc);
      AdvancedStep(old(h), before, h, rc, null);
      Apart(chunk);
      current := chunk;
      if chunk != null {
        InHandUnsettled(chunk);
        return Aborted;
      }
      HeapUsed();
      exit := if chunks.used == 0 then Finished else Aborted;
    }

    // The branch for an error with a chunk in hand.
    method EndFailed(rc: int, arrivals: seq<Request>) returns (exit: Exit)
      requires current != null && ValidHolding(current) && rc != 0
      modifies this`h, this`bodies, this`current, chunks, chunks.slots
      ensures current == null && ValidHolding(null) && fresh(bodies - old(bodies)) && exit == Finished
      ensures AllSettled(h) && h.lost == old(h).lost
      ensures AddedFor(old(h), h, Accepting(|file|, arrivals))
      ensures Advanced(old(h), h, rc)
    {
      hide ValidHolding, Advanced, AllSettled, AddedFor, Brings, Accepting;
      ghost var h0 := h;
      LastArrivals(rc, arrivals);
      ghost var before := h;
      FailAll(rc);
      AdvancedStep(h0, before, h, rc, null);
      AddedForThen(h0, before, h, Accepting(|file|, arrivals));
      HeapUsed();
      exit := if chunks.used == 0 then Finished else Aborted;
    }

    // The chunk in hand and every queued one are answered with the error.
    method FailAll(rc: int)
      requires current != null && ValidHolding(current) && rc != 0
      modifies this`h, this`current, chunks, chunks.slots
      ensures current == null && ValidHolding(null) && AllSettled(h) && chunks.live == []
      ensures Advanced(old(h), h, rc) && h.lost == old(h).lost && h.added == old(h).added
    {
      hide ValidHolding, Advanced, AllSettled;
      FailHand(current, rc);
      ghost var failed := h;
      Apart(null);
      current := null;
      ChunksEmpty(rc);
      AdvancedStep(old(h), failed, h, rc, null);
    }

    lemma Holds(hand: Chunk?)
      requires ValidHolding(hand)
      ensures Conserved(file, chunks.live, hand, h)
    {}

    lemma HeapUsed()
      requires ValidHolding(null)
      ensures chunks.used == 0 <==> AllSettled(h)
      ensures chunks.used == |chunks.live|
    {
      EmptyIsSettled(file, chunks.live, h);
    }

    lemma HeldIsCurrent(hand: Chunk?)
      requires ValidHolding(hand)
      ensures Held(h) <==> hand != null
      ensures Held(h) ==> !AllSettled(h)
    {
      hide Linked;
      if c :| c in h.place && h.place[c].InHand? {
        assert h.Outstanding(c);
      }
    }

    lemma InHandUnsettled(chunk: Chunk)
      requires ValidHolding(chunk)
      ensures !AllSettled(h)
    {
      HandIsKept(h, bodies, chunk);
      assert h.Outstanding(chunk);
    }

    /** A turn of the loop that fetches.  The fetch starts where the chunk in hand has got to, and without one at the
        first chunk that the wait brings, whose key no queued chunk is below. */
    ghost predicate Turn(p: Point, p': Point, f: Fetched, start: nat, t: Transfer) {
      && Advanced(p.h, p'.h, 0) && p.waits <= p'.waits
      && f.first in p'.h.added && start == f.first.ctxt.off + p.h.Bytes(f.first)
      && (if Held(p.h) then f.first in p.h.place && p.h.place[f.first].InHand?
          else Foremost(p.h, f.first) && (f.first in p.h.place ==> p.h.place[f.first].Queued?) && Waits(p, p', true))
      && (Delivers(|file|, start, t) ==> p.h.Done(f.first) < p'.h.Done(f.first))
      && Brought(p, p', f, start, t)
    }

    /** What a fetch brings.  All that is sent goes into chunks, and the code is that of the transfer, unless it is cut
        short, where the next chunk is elsewhere or none came in time; then it counts as a success.  The first chunk
        gets what it has room for, and if that is all it lacked its read is answered. */
    ghost predicate Brought(p: Point, p': Point, f: Fetched, start: nat, t: Transfer) {
      && TotalBytes(p'.h) == TotalBytes(p.h) + f.got
      && (Calls(|file|, start, t) ==> Served(p.h, p'.h, f.first, f.got))
      && (if !t.found then f.rc == 16 && f.got == 0
          else if f.cut then
            && f.rc == 0 && Left(p.h, f.first) <= f.got < Sent(|file|, start, t)
            && (Elsewhere(p'.h, start + f.got) || (!Held(p'.h) && LastWaitFailed(p'.waits)))
          else f.rc == t.rc && f.got == Sent(|file|, start, t))
    }

    // A turn of the loop that ends it: no chunk comes in time, and nothing is answered.
    ghost predicate Missed(p: Point, p': Point) {
      && Advanced(p.h, p'.h, 0) && p'.h.answers == p.h.answers && !Held(p.h) && !Held(p'.h)
      && Waits(p, p', false) && |p'.waits| == |p.waits| + 1
    }

    // From p on there is a wait, and it brings a chunk in time or not.
    ghost predicate Waits(p: Point, p': Point, chunk: bool) {
      && p.waits + [AllSettled(p.h)] <= p'.waits
      && (chunk <==> EndOf(|file|, AllSettled(p.h), WaitAt(script, |p.waits|)) == Outcome(false, true))
    }

    // One turn of the loop of downloaderead_main; None when no chunk came in time.
    method FetchTurn(t: Transfer) returns (rc: Option<int>, ghost f: Option<Fetched>)
      requires Valid()
      modifies this, bodies, chunks, chunks.slots
      ensures Valid() && fresh(bodies - old(bodies)) && (chunks.slots == old(chunks.slots) || fresh(chunks.slots))
      ensures rc.None? <==> (old(current) == null
                && EndOf(|file|, old(chunks.live) == [], WaitAt(script, old(waited))) != Outcome(false, true))
      ensures rc.None? ==> current == null && starts == old(starts)
      ensures rc.None? ==> Missed(Point(old(h), old(waits)), Point(h, waits))
      ensures rc.Some? ==> f.Some? && rc.value == f.value.rc && (old(current) != null ==> f.value.first == old(current))
      ensures rc.Some? ==> starts == old(starts) + [if old(current) != null then old(current.start) else f.value.first.ctxt.off]
      ensures rc.Some? ==>
                Turn(Point(old(h), old(waits)), Point(h, waits), f.value, starts[|old(starts)|], t)
      ensures rc.Some? && rc.value == 0 && t.rc != 0 ==> seek || (current == null && timedOut)
      ensures Progress(old(h), old(h).added)
              + (if rc.Some? && Delivers(|file|, starts[|old(starts)|], t) then 1 else 0) <= Progress(h, h.added)
    {
      hide ValidHolding, Waited, Advanced, Progress, EndOf, Delivers, TotalBytes, Foremost, Held, AllSettled, LastWaitFailed,
        Brought;
      Apart(current);
      HeldIsCurrent(current);
      WaitsCounted(current);
      if seek {
        assert current != null;
        seek := false;
      }
      if current == null {
        HeapUsed();
        NextForTurn();
        HeldIsCurrent(current);
        TotalGrows(old(h), h, 0, null);
        if current == null {
          return None, None;
        }
        HandHasGotTo(current);
        BytesGrow(old(h), h, current);
      }
      ghost var mid := Point(h, waits);
      var code;
      ghost var fetched;
      code, fetched := FetchHeld(t);
      rc, f := Some(code), Some(fetched);
      if old(current) == null {
        TurnAfterWait(Point(old(h), old(waits)), mid, Point(h, waits), fetched, starts[|old(starts)|], t);
      }
    }

    // The fetch for the chunk in hand.
    method FetchHeld(t: Transfer) returns (rc: int, ghost f: Fetched)
      requires Valid() && current != null && !seek
      modifies this, bodies, chunks, chunks.slots
      ensures Valid() && fresh(bodies - old(bodies)) && (chunks.slots == old(chunks.slots) || fresh(chunks.slots))
      ensures starts == old(starts) + [old(current.start)] && rc == f.rc && f.first == old(current)
      ensures Held(old(h)) && Turn(Point(old(h), old(waits)), Point(h, waits), f, old(current.start), t)
      ensures rc == 0 && t.rc != 0 ==> seek || (current == null && timedOut)
      ensures Progress(old(h), old(h).added)
              + (if Delivers(|file|, old(current.start), t) then 1 else 0) <= Progress(h, h.added)
    {
      hide ValidHolding, Advanced, Progress, Delivers, TotalBytes, Held, LastWaitFailed, Served, Sent, Calls, Elsewhere, Left;
      ghost var before, first := h, current;
      Apart(current);
      HeldIsCurrent(current);
      HandIsAdded(current);
      HandHasGotTo(current);
      downloadOffset := current.start;
      ghost var got, cut;
      rc, got, cut := Fetch(t);
      f := Fetched(first, rc, got, cut);
      HeldIsCurrent(current);
      if current != null {
        HandIsElsewhere(current, old(current.start) + got);
      }
      AddedGrow(before, h);
      if Delivers(|file|, starts[|old(starts)|], t) {
        DeliversExactly(|file|, starts[|old(starts)|], t);
        ServedDone(before, h, first, got);
      }
      TotalGrows(before, h, 0, if Delivers(|file|, starts[|old(starts)|], t) then first else null);
    }

    lemma HandIsElsewhere(chunk: Chunk, pos: nat)
      requires ValidHolding(chunk)
      ensures chunk.start != pos ==> Elsewhere(h, pos)
    {
      HandHasGotTo(chunk);
    }

    lemma TurnAfterWait(p: Point, mid: Point, p': Point, f: Fetched, start: nat, t: Transfer)
      requires Advanced(p.h, mid.h, 0) && Waits(p, mid, true) && !Held(p.h) && Held(mid.h)
      requires Foremost(p.h, f.first) && (f.first in p.h.place ==> p.h.place[f.first].Queued?)
      requires p.h.Bytes(f.first) == mid.h.Bytes(f.first) && TotalBytes(p.h) == TotalBytes(mid.h)
      requires Turn(mid, p', f, start, t)
      ensures Turn(p, p', f, start, t)
    {
      hide Held, Foremost, EndOf, Delivers, LastWaitFailed, Advanced, TotalBytes, Sent, Calls, Elsewhere;
      AdvancedStep(p.h, mid.h, p'.h, 0, f.first);
    }

    lemma HandHasGotTo(chunk: Chunk)
      requires ValidHolding(chunk)
      ensures chunk.start == chunk.ctxt.off + h.Bytes(chunk)
      ensures chunk in h.place && h.place[chunk].InHand?
    {
      HandIsKept(h, bodies, chunk);
    }

    // The wait at the top of the loop of downloaderead_main.
    method NextForTurn()
      requires ValidHolding(null) && current == null && !seek
      modifies this`current, this`h, this`bodies, this`waited, this`waits, chunks, chunks.slots
      ensures Valid() && fresh(bodies - old(bodies)) && (chunks.slots == old(chunks.slots) || fresh(chunks.slots))
      ensures current != null <==> EndOf(|file|, old(chunks.live) == [], WaitAt(script, old(waited))) == Outcome(false, true)
      ensures waits == old(waits) + [old(chunks.live) == []] && h.answers == old(h).answers
      ensures current != null ==> current.start == current.ctxt.off && Foremost(old(h), current)
      ensures current != null && current in old(h).place ==> old(h).place[current].Queued?
      ensures Advanced(old(h), h, 0) && TotalBytes(h) == TotalBytes(old(h))
    {
      hide ValidHolding, Waited, Advanced, EndOf, Foremost, TotalBytes;
      ghost var dropped;
      var chunk, late;
      Holds(null);
      ghost var live0, h0 := chunks.live, h;
      chunk, late, dropped := ChunkGetNext();
      Apart(chunk);
      WaitedAdvances(old(h), h, chunk, dropped, 0);
      WaitLoses(old(h), h, chunk, dropped);
      SameBytes(live0, h0, chunk, dropped);
      if chunk != null {
        PoppedInWait(old(h), h, chunk);
        ForemostBefore(old(h), h, chunk);
      }
      current := chunk;
    }

    /** The turns of the loop so far: from each point to the next there is one fetch, and only the last of them may
        have failed. */
    ghost predicate Turns(trace: seq<Point>, fetches: seq<Fetched>, starts: seq<nat>, transfers: seq<Transfer>) {
      && |trace| == |starts| + 1 && |fetches| == |starts| <= |transfers|
      && (forall k :: 0 <= k < |starts| ==>
            Turn(trace[k], trace[k + 1], fetches[k], starts[k], transfers[k]))
      && forall k :: 0 <= k < |starts| - 1 ==> fetches[k].rc == 0
    }

    lemma TurnsGrow(trace: seq<Point>, fetches: seq<Fetched>, starts: seq<nat>, transfers: seq<Transfer>,
                    p: Point, f: Fetched, start: nat)
      requires Turns(trace, fetches, starts, transfers) && |starts| < |transfers|
      requires starts != [] ==> fetches[|starts| - 1].rc == 0
      requires Turn(trace[|starts|], p, f, start, transfers[|starts|])
      ensures Turns(trace + [p], fetches + [f], starts + [start], transfers)
    {
      hide Turn;
    }

    /** A run of the download thread with these transfers, up to where they run out or the thread ends; `after`
        are the reads that arrive before it ends, `trace` is the account before and after each fetch, and `before`
        the account when the loop is left.

        Every answer is right and no chunk has two; the chunks that have been thrown away are as many as there were
        late time-outs; each fetch is a turn of the loop, and those that brought anything are no more than the work
        the chunks ask for.  Up to `before` every answer is a success.  The loop is left when a chunk did not come in
        time, and when a fetch failed, and for no other reason.  Then the thread ends in order exactly when the fetch
        failed with a chunk in hand, or nothing is left; each read without an answer has been answered with the error
        in the one case, and in the other there is none; and where the thread aborts, none of them is answered. */
    method DownloadMain(transfers: seq<Transfer>, after: seq<Request>)
        returns (exit: Exit, rc: int, ghost before: History, ghost trace: seq<Point>, ghost fetches: seq<Fetched>)
      requires Valid() && current == null && !seek && starts == [] && waits == []
      modifies this, bodies, chunks, chunks.slots
      ensures ValidHolding(current)
      ensures forall k :: 0 <= k < |h.answers| ==> AnswerOk(file, h.answers[k])
      ensures Distinct(h.added) && forall i, j :: 0 <= i < j < |h.answers| ==> h.answers[i].chunk != h.answers[j].chunk
      ensures |h.lost| == Lates(|file|, script, waits)
      ensures NeverLate(|file|, script) ==> forall c :: c in h.added ==> c in h.place && (h.Outstanding(c) || h.place[c].Answered?)
      ensures |starts| <= |transfers| && (exit.StillRunning? ==> |starts| == |transfers| && h == before)
      ensures starts != [] <==> (transfers != []
                && EndOf(|file|, old(chunks.live) == [], WaitAt(script, old(waited))) == Outcome(false, true))
      ensures Productive(|file|, transfers, starts) <= Progress(h, h.added) <= Offered(h.added)
      ensures Turns(trace, fetches, starts, transfers) && trace[0] == Point(old(h), [])
      ensures starts != [] ==> rc == fetches[|starts| - 1].rc
      ensures Advanced(old(h), before, 0) && (starts == [] ==> before.answers == old(h).answers)
      ensures exit.StillRunning? ==> trace[|starts|] == Point(h, waits) && (starts != [] ==> rc == 0)
      ensures !exit.StillRunning? ==>
                || (Missed(trace[|starts|], Point(before, waits)) && (starts != [] ==> rc == 0))
                || (starts != [] && trace[|starts|] == Point(before, waits) && rc == CodeOf(transfers[|starts| - 1]) != 0)
      ensures !exit.StillRunning? ==>
                (exit.Finished? <==> (rc != 0 && Held(before)) || (AllSettled(before) && !Brings(|file|, after)))
      ensures !exit.StillRunning? ==> AddedFor(before, h, Accepting(|file|, after)) && h.lost == before.lost
      ensures exit.Finished? ==> AllAnswered(h) && AnsweredAll(before, h, rc)
      ensures exit.Aborted? ==> !AllSettled(h) && h.answers == before.answers
    {
      hide ValidHolding, Advanced, AllSettled, Progress, Offered, Productive, Delivers, EndOf, NeverLate, AllAnswered, Lates;
      hide Held, Brings, Accepting, AddedFor, AnsweredAll, Foremost, LastWaitFailed, Turns, Turn, Waits;
      // The C variable is not initialised.
      rc := *;
      var i := 0;
      ProductiveNone(|file|, transfers);
      AdvancedRefl(h, 0);
      before, trace, fetches := h, [Point(h, waits)], [];
      NoTurns(Point(h, waits), transfers);
      while i < |transfers|
        invariant 0 <= i <= |transfers| && |starts| == |fetches| == i && |trace| == i + 1 && before == h
        invariant Valid() && fresh(bodies - old(bodies)) && (chunks.slots == old(chunks.slots) || fresh(chunks.slots))
        invariant Productive(|file|, transfers, starts) <= Progress(h, h.added)
        invariant Advanced(old(h), h, 0)
        invariant Turns(trace, fetches, starts, transfers) && trace[0] == Point(old(h), []) && trace[i] == Point(h, waits)
        invariant i == 0 ==> h == old(h) && current == null && waited == old(waited) && chunks.live == old(chunks.live)
        invariant i > 0 ==> rc == 0 == fetches[i - 1].rc
        invariant i > 0 ==> EndOf(|file|, old(chunks.live) == [], WaitAt(script, old(waited))) == Outcome(false, true)
      {
        ghost var starts0 := starts;
        var turn;
        ghost var f;
        turn, f := FetchTurn(transfers[i]);
        TurnFacts(trace[i], Point(h, waits), if turn.Some? then f else None, if turn.Some? then starts[i] else 0, transfers[i]);
        AdvancedStep(old(h), before, h, 0, null);
        before := h;
        if turn.Some? {
          ProductiveSnoc(|file|, transfers, starts0, starts[i]);
          TurnsGrow(trace, fetches, starts0, transfers, Point(h, waits), f.value, starts[i]);
          trace, fetches := trace + [Point(h, waits)], fetches + [f.value];
          rc := turn.value;
          i := i + 1;
        }
        if turn.None? || rc != 0 {
          HeldIsCurrent(current);
          exit := FinishThread(rc, after);
          TotalGrows(before, h, rc, null);
          RunFacts();
          return;
        }
      }
      RunFacts();
      exit := StillRunning;
    }

    lemma NothingHeldAfter(p: Point, p': Point)
      requires Missed(p, p')
      ensures !Held(p'.h)
    {}

    lemma NoTurns(p: Point, transfers: seq<Transfer>)
      ensures Turns([p], [], [], transfers)
    {}

    lemma TurnFacts(p: Point, p': Point, f: Option<Fetched>, start: nat, t: Transfer)
      requires f.None? ==> Missed(p, p')
      requires f.Some? ==> Turn(p, p', f.value, start, t)
      ensures Advanced(p.h, p'.h, 0) && (f.Some? && f.value.rc != 0 ==> f.value.rc == CodeOf(t))
      ensures f.None? ==> p'.h.answers == p.h.answers
    {}

    // The last wait brought no chunk in time.
    ghost predicate LastWaitFailed(waits: seq<bool>) {
      waits != [] && EndOf(|file|, waits[|waits| - 1], WaitAt(script, |waits| - 1)) != Outcome(false, true)
    }

    lemma WaitsCounted(hand: Chunk?)
      requires ValidHolding(hand)
      ensures |waits| == waited
    {}

    lemma LostIsAdded()
      requires ValidHolding(null)
      ensures forall c :: c in h.lost ==> c in h.added
    {}

    lemma HandIsAdded(chunk: Chunk)
      requires ValidHolding(chunk)
      ensures chunk in h.added
    {
    }

    // What the invariant means to whoever made the reads.
    lemma RunFacts()
      requires ValidHolding(current)
      ensures forall k :: 0 <= k < |h.answers| ==> AnswerOk(file, h.answers[k])
      ensures Distinct(h.added) && forall i, j :: 0 <= i < j < |h.answers| ==> h.answers[i].chunk != h.answers[j].chunk
      ensures |h.lost| == Lates(|file|, script, waits)
      ensures NeverLate(|file|, script) ==> forall c :: c in h.added ==> c in h.place && (h.Outstanding(c) || h.place[c].Answered?)
      ensures Progress(h, h.added) <= Offered(h.added)
      ensures AllSettled(h) ==> AllAnswered(h)
    {
      hide NeverLate, Lates, Linked;
      ProgressBounded(file, chunks.live, current, h, h.added);
      if NeverLate(|file|, script) {
        NeverLateIsNoLates(|file|, script, waits);
        NoneLost(file, chunks.live, current, h);
      }
      if AllSettled(h) {
        SettledIsAnswered(file, chunks.live, current, h);
      }
    }
  }

  // Some chunk is in hand.
  ghost predicate Held(h: History) {
    exists c :: c in h.place && h.place[c].InHand?
  }

  // What a fetch ends with unless it is cut short.
  function CodeOf(t: Transfer): int {
    if t.found then t.rc else EBUSY
  }

  // The account and the waits, as they are between two turns of the loop.
  datatype Point = Point(h: History, waits: seq<bool>)

  // The chunk that a fetch was for, its code, how many bytes it brought, and whether it was cut short.
  datatype Fetched = Fetched(first: Chunk, rc: int, got: nat, cut: bool)

  // The chunk in hand goes on somewhere else.
  ghost predicate Elsewhere(h: History, pos: nat) {
    exists c :: c in h.place && h.place[c].InHand? && c.ctxt.off + h.Bytes(c) != pos
  }

  lemma BytesGrow(h: History, h': History, c: Chunk)
    requires Advanced(h, h', 0)
    ensures h.Bytes(c) <= h'.Bytes(c)
  {}

  lemma AddedGrow(h: History, h': History)
    requires Advanced(h, h', 0)
    ensures forall c :: c in h.added ==> c in h'.added
  {}

  // No queued chunk has a lower key.
  ghost predicate Foremost(h: History, chunk: Chunk) {
    forall c :: c in h.place && h.place[c].Queued? ==> Int32(chunk.ctxt.off) <= Int32(c.ctxt.off)
  }

  // As long as all offsets are below 2^31, no queued chunk is for an earlier part of the file.
  ghost predicate LeastOffset(h: History, chunk: Chunk) {
    chunk.ctxt.off < 0x8000_0000 && (forall c :: c in h.place && h.place[c].Queued? ==> c.ctxt.off < 0x8000_0000) ==>
      forall c :: c in h.place && h.place[c].Queued? ==> chunk.ctxt.off <= c.ctxt.off
  }

  lemma ForemostIsLeast(h: History, chunk: Chunk)
    requires Foremost(h, chunk)
    ensures LeastOffset(h, chunk)
  {
    forall c | c in h.place && h.place[c].Queued? && c.ctxt.off < 0x8000_0000 && chunk.ctxt.off < 0x8000_0000
      ensures chunk.ctxt.off <= c.ctxt.off
    {
      Int32Exactly(c.ctxt.off);
      Int32Exactly(chunk.ctxt.off);
    }
  }

  lemma ForemostBefore(h: History, h': History, chunk: Chunk)
    requires Waited(h, h', chunk, null) && Foremost(h', chunk)
    ensures Foremost(h, chunk)
  {}

  lemma PoppedInWait(h: History, h': History, chunk: Chunk)
    requires Waited(h, h', chunk, null)
    ensures chunk in h.place ==> h.place[chunk].Queued?
  {}

  // The chunks added between the two are for these reads, in order.
  ghost predicate AddedFor(h: History, h': History, rs: seq<Request>) {
    && |h'.added| == |h.added| + |rs|
    && forall k :: 0 <= k < |rs| ==> IsFor(h'.added[|h.added| + k], rs[k])
  }

  // What had no answer before, or has come since, has been answered since then, with this code.
  ghost predicate AnsweredAll(before: History, h: History, rc: int) {
    && (forall c :: c in before.place ==> c in h.place)
    && (forall c :: c in h.place && (c in before.place ==> before.Outstanding(c)) ==>
          h.AnsweredWith(c, rc) && |before.answers| <= h.place[c].at)
  }

  lemma AddedForNone(h: History)
    ensures AddedFor(h, h, [])
  {}

  lemma AddedForOne(h: History, h': History, rs: seq<Request>, r: Request, c: Chunk)
    requires AddedFor(h, h', rs) && IsFor(c, r)
    ensures AddedFor(h, h'.Arrived(c), rs + [r])
  {}

  lemma AddedForThen(h: History, h': History, h'': History, rs: seq<Request>)
    requires AddedFor(h, h', rs) && h''.added == h'.added
    ensures AddedFor(h, h'', rs)
  {}

  lemma AcceptingSnoc(length: nat, rs: seq<Request>, i: nat)
    requires i < |rs|
    ensures Accepting(length, rs[..i + 1])
         == if Accepted(rs[i].off, rs[i].size, length) then Accepting(length, rs[..i]) + [rs[i]] else Accepting(length, rs[..i])
  {
    assert rs[..i + 1][..i] == rs[..i];
  }

  lemma WaitLoses(h: History, h': History, chunk: Chunk?, dropped: Chunk?)
    requires Waited(h, h', chunk, dropped)
    ensures h'.lost == h.lost + (if dropped == null then [] else [dropped]) && h'.answers == h.answers
  {}

  lemma WaitKeepsLost(h: History, h': History, chunk: Chunk?)
    requires Waited(h, h', chunk, null)
    ensures h'.lost == h.lost && h'.answers == h.answers
  {}

  // One more wake-up of a wait; past the last it is a time-out.
  lemma ScanStep(length: nat, wakes: seq<Wake>, i: nat)
    requires i <= |wakes|
    ensures var wake := if i < |wakes| then wakes[i] else Wake(true, []);
            && InWakes(wakes[i..]) == |wake.arrivals| + (if i < |wakes| then InWakes(wakes[i + 1..]) else 0)
            && Scan(length, wakes[i..]) ==
                 if Brings(length, wake.arrivals) then Outcome(wake.timedOut, true)
                 else if wake.timedOut then Outcome(true, false)
                 else if i < |wakes| then Scan(length, wakes[i + 1..]) else Outcome(true, false)
  {
    if i < |wakes| {
      assert wakes[i..][1..] == wakes[i + 1..];
    }
  }

  /** A run that loses a read: the first wait times out, and a read comes in before the thread has the mutex
      again.  It is thrown away, and nobody will answer it. */
  method LateTimeOutLosesARead() returns (d: Downloader)
    ensures |d.h.lost| == 1 && d.h.lost[0] in d.h.added && d.h.answers == []
  {
    hide Conserved, Waited, Downloader.ValidHolding, IsHeap;
    var r := Request(7, 1, 0);
    d := new Downloader([0], [Wait([], [Wake(true, [r])])]);
    assert Brings(1, [r]) by {
      assert Accepted([r][0].off, [r][0].size, 1);
    }
    assert Late(1, true, WaitAt(d.script, 0));
    var chunk, timedOut;
    ghost var dropped;
    chunk, timedOut, dropped := d.ChunkGetNext();
    assert dropped != null && d.h.lost == [dropped] by {
      WaitLoses(EmptyHistory, d.h, chunk, dropped);
    }
    d.LostIsAdded();
    WaitLoses(EmptyHistory, d.h, chunk, dropped);
  }

  /** A run that aborts with a read unanswered: the first wait times out, and a read is queued before the thread
      has the mutex at its end, whatever code that end is entered with. */
  method LastReadIsNotAnswered() returns (d: Downloader, exit: Exit)
    ensures exit.Aborted? && d.h.added != [] && IsFor(d.h.added[|d.h.added| - 1], Request(7, 1, 0))
    ensures d.h.answers == [] && d.h.lost == []
  {
    hide Conserved, Downloader.Valid, Downloader.ValidHolding, Lates, Progress, Offered, Productive, Advanced, AnsweredAll,
      AllAnswered, AnswerOk, Distinct, Held, Downloader.Turns, Downloader.Missed;
    var r := Request(7, 1, 0);
    d := new Downloader([0], []);
    ghost var before, trace, fetches;
    var rc;
    exit, rc, before, trace, fetches := d.DownloadMain([Transfer(false, [], 0)], [r]);
    assert Brings(1, [r]) && Accepting(1, [r]) == [r] by {
      assert Accepted([r][0].off, [r][0].size, 1);
      assert [r][..0] == [];
    }
    assert EndOf(1, true, WaitAt([], 0)) == Outcome(true, false);
    assert d.starts == [];
    d.NothingHeldAfter(Point(EmptyHistory, []), Point(before, d.waits));
    assert exit.Aborted?;
    NeverLateIsNoLates(1, [], d.waits);
  }
}
