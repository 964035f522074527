/** The chunks of src/downloader/downloader.c and an account of where each one is. */
module DownloadLedger {
  import opened BinaryHeaps
  import opened ReadRequests
  import opened Sequences

  type Byte = b: int | 0 <= b < 256

  // read_context_t: the request as it came in, and what chunk_done needs to answer it.
  datatype ReadContext = ReadContext(req: nat, off: nat, requested: nat, size: nat, buf: array<Byte>)

  /** chunk_t.  The C pointer chunk->buf is ctxt.buf advanced by `pos`. */
  class Chunk {
    var start: nat
    var end: nat
    var bytesUsed: nat
    var pos: nat
    const ctxt: ReadContext

    constructor (start: nat, end: nat, ctxt: ReadContext)
      ensures this.start == start && this.end == end && this.bytesUsed == 0 && this.pos == 0
      ensures this.ctxt == ctxt
    {
      this.start, this.end, this.bytesUsed, this.pos := start, end, 0, 0;
      this.ctxt := ctxt;
    }
  }

  // A reply to a read: the bytes when rc is 0, otherwise the error.
  datatype Answer = Answer(chunk: Chunk, rc: int, bytes: seq<Byte>)

  // Where a chunk is.  `at` is the position of its answer among all answers, or its own among the lost.
  datatype Place = Queued | InHand | Answered(at: nat) | Lost(at: nat)

  type Ledger = map<Chunk, Place>

  /** The history of a downloader: every chunk ever added, where it is now and how much of it has been
      filled, every answer given, and every chunk thrown away unanswered. */
  datatype History = History(added: seq<Chunk>, place: Ledger, used: map<Chunk, nat>, answers: seq<Answer>,
                             lost: seq<Chunk>) {

    function Arrived(c: Chunk): History {
      this.(added := added + [c], place := place[c := Queued], used := used[c := 0])
    }

    function Moved(c: Chunk, to: Place): History {
      this.(place := place[c := to])
    }

    function Filled(c: Chunk, bytes: nat): History {
      this.(used := used[c := bytes])
    }

    function Replied(a: Answer): History {
      this.(place := place[a.chunk := Answered(|answers|)], answers := answers + [a])
    }

    function Dropped(c: Chunk): History {
      this.(place := place[c := Lost(|lost|)], lost := lost + [c])
    }

    predicate Outstanding(c: Chunk) {
      c in place && (place[c].Queued? || place[c].InHand?)
    }

    predicate AnsweredWith(c: Chunk, rc: int) {
      c in place && place[c].Answered? && place[c].at < |answers| && answers[place[c].at].rc == rc
    }

    function Bytes(c: Chunk): nat {
      if c in used then used[c] else 0
    }

    // Work done on a chunk: the bytes filled, and one for having been answered.
    function Done(c: Chunk): nat {
      Bytes(c) + if c in place && place[c].Answered? then 1 else 0
    }
  }

  const EmptyHistory := History([], map[], map[], [], [])

  ghost predicate RequestOk(file: seq<Byte>, x: ReadContext) {
    && Accepted(x.off, x.requested, |file|)
    && x.size == Clamped(x.off, x.requested, |file|) == x.buf.Length
  }

  // A read answered with success gets exactly the bytes of its range that exist.
  ghost predicate AnswerOk(file: seq<Byte>, a: Answer) {
    var x := a.chunk.ctxt;
    && RequestOk(file, x)
    && (a.rc == 0 ==> a.bytes == file[x.off..Min(x.off + x.requested, |file|)])
    && (a.rc != 0 ==> a.bytes == [])
  }

  ghost predicate AllSettled(h: History) {
    forall c :: c in h.place ==> !h.Outstanding(c)
  }

  // Every chunk has an answer, except those thrown away.
  ghost predicate AllAnswered(h: History) {
    forall c :: c in h.added ==> c in h.place && (h.place[c].Answered? || c in h.lost)
  }

  // The heap holds each queued chunk once, keyed by its start, and nothing else.
  ghost predicate Linked(live: seq<Kvp<Chunk>>, place: Ledger) {
    && (forall n :: n in live ==> n.value in place && n.key == Int32(n.value.ctxt.off))
    && (forall c :: c in place ==> multiset(Values(live))[c] == if place[c].Queued? then 1 else 0)
  }

  ghost predicate Distinct(cs: seq<Chunk>) {
    forall i, j :: 0 <= i < j < |cs| ==> cs[i] != cs[j]
  }

  /** Every chunk that was ever added is in exactly one place: in the heap, in hand, among the answers
      at one position, or among the lost at one. */
  ghost predicate Conserved(file: seq<Byte>, live: seq<Kvp<Chunk>>, hand: Chunk?, h: History) {
    && Linked(live, h.place) && Distinct(h.added) && LostOk(h)
    && h.place.Keys == h.used.Keys == (set c | c in h.added)
    && (forall c :: c in h.used ==> h.used[c] <= c.ctxt.size)
    && (hand != null ==> hand in h.place && h.place[hand].InHand?)
    && (forall c :: c in h.place && h.place[c].InHand? ==> c == hand)
    && (forall k :: 0 <= k < |h.answers| ==>
          && AnswerOk(file, h.answers[k])
          && h.answers[k].chunk in h.place && h.place[h.answers[k].chunk] == Answered(k))
    && (forall c :: c in h.place && h.place[c].Answered? ==>
          h.place[c].at < |h.answers| && h.answers[h.place[c].at].chunk == c)
  }

  ghost predicate LostOk(h: History) {
    && (forall k :: 0 <= k < |h.lost| ==> h.lost[k] in h.place && h.place[h.lost[k]] == Lost(k))
    && (forall c :: c in h.place && h.place[c].Lost? ==> h.place[c].at < |h.lost| && h.lost[h.place[c].at] == c)
  }

  // ---------- What the steps of the downloader do to the account ----------

  // One pair more in the heap is one value more.
  lemma ValuesGrow(live: seq<Kvp<Chunk>>, live': seq<Kvp<Chunk>>, n: Kvp<Chunk>)
    requires multiset(live') == multiset(live) + multiset{n}
    ensures multiset(Values(live')) == multiset(Values(live)) + multiset{n.value}
    ensures forall m :: m in live' <==> m == n || m in live
  {
    ValuesPermute(live', live + [n]);
    assert Values(live + [n]) == Values(live) + [n.value];
    assert forall m :: m in live' <==> m in multiset(live');
    assert forall m :: m in live <==> m in multiset(live);
  }

  lemma NotQueued(live: seq<Kvp<Chunk>>, place: Ledger, c: Chunk)
    requires Linked(live, place) && c !in place
    ensures multiset(Values(live))[c] == 0
  {
    assert c !in Values(live);
  }

  lemma LinkedAdd(live: seq<Kvp<Chunk>>, live': seq<Kvp<Chunk>>, place: Ledger, c: Chunk)
    requires Linked(live, place) && c !in place
    requires multiset(live') == multiset(live) + multiset{Kvp(Int32(c.ctxt.off), c)}
    ensures Linked(live', place[c := Queued])
  {
    hide Values;
    NotQueued(live, place, c);
    ValuesGrow(live, live', Kvp(Int32(c.ctxt.off), c));
  }

  lemma LinkedPop(live: seq<Kvp<Chunk>>, live': seq<Kvp<Chunk>>, place: Ledger, n: Kvp<Chunk>)
    requires Linked(live, place)
    requires multiset(live') + multiset{n} == multiset(live)
    ensures n.value in place && place[n.value].Queued?
    ensures Linked(live', place[n.value := InHand])
  {
    hide Values;
    ValuesGrow(live', live, n);
  }

  // A chunk that is not in the heap goes where the heap is not.
  lemma LinkedElsewhere(live: seq<Kvp<Chunk>>, place: Ledger, c: Chunk, to: Place)
    requires Linked(live, place) && c in place && !place[c].Queued? && !to.Queued?
    ensures Linked(live, place[c := to])
  {}

  lemma LinkedLeast(live: seq<Kvp<Chunk>>, place: Ledger, key: int, c: Chunk)
    requires Linked(live, place) && c in place && place[c].Queued?
    requires forall m :: m in live ==> key <= m.key
    ensures key <= Int32(c.ctxt.off)
  {
    assert c in multiset(Values(live));
    var i :| 0 <= i < |live| && Values(live)[i] == c;
    assert live[i] in live;
  }

  lemma ConservedArrived(file: seq<Byte>, live: seq<Kvp<Chunk>>, live': seq<Kvp<Chunk>>, hand: Chunk?, h: History, c: Chunk)
    requires Conserved(file, live, hand, h) && c !in h.place
    requires multiset(live') == multiset(live) + multiset{Kvp(Int32(c.ctxt.off), c)}
    ensures Conserved(file, live', hand, h.Arrived(c))
  {
    hide Linked, AnswerOk;
    LinkedAdd(live, live', h.place, c);
  }

  lemma ConservedTaken(file: seq<Byte>, live: seq<Kvp<Chunk>>, live': seq<Kvp<Chunk>>, h: History, n: Kvp<Chunk>)
    requires Conserved(file, live, null, h)
    requires multiset(live') + multiset{n} == multiset(live)
    requires forall m :: m in live ==> n.key <= m.key
    ensures n.value in h.place && h.place[n.value].Queued?
    ensures Conserved(file, live', n.value, h.Moved(n.value, InHand))
    ensures forall c :: c in h.place && h.place[c].Queued? ==> Int32(n.value.ctxt.off) <= Int32(c.ctxt.off)
  {
    LinkedPop(live, live', h.place, n);
    assert n in multiset(live);
    forall c | c in h.place && h.place[c].Queued?
      ensures Int32(n.value.ctxt.off) <= Int32(c.ctxt.off)
    {
      LinkedLeast(live, h.place, n.key, c);
    }
  }

  lemma ConservedFilled(file: seq<Byte>, live: seq<Kvp<Chunk>>, hand: Chunk, h: History, bytes: nat)
    requires Conserved(file, live, hand, h) && bytes <= hand.ctxt.size
    ensures Conserved(file, live, hand, h.Filled(hand, bytes))
  {
  }

  lemma ConservedDropped(file: seq<Byte>, live: seq<Kvp<Chunk>>, hand: Chunk, h: History)
    requires Conserved(file, live, hand, h)
    ensures Conserved(file, live, null, h.Dropped(hand))
  {
    hide Linked, AnswerOk;
    LinkedElsewhere(live, h.place, hand, Lost(|h.lost|));
  }

  lemma ConservedReplied(file: seq<Byte>, live: seq<Kvp<Chunk>>, h: History, a: Answer)
    requires Conserved(file, live, a.chunk, h) && AnswerOk(file, a)
    ensures Conserved(file, live, null, h.Replied(a))
  {
    hide Linked, AnswerOk;
    LinkedElsewhere(live, h.place, a.chunk, Answered(|h.answers|));
  }

  // With nothing in hand, the heap is empty exactly when every chunk has been settled.
  lemma EmptyIsSettled(file: seq<Byte>, live: seq<Kvp<Chunk>>, h: History)
    requires Conserved(file, live, null, h)
    ensures live == [] <==> AllSettled(h)
  {
    if live != [] {
      assert Values(live)[0] in multiset(Values(live));
      assert live[0] in live;
      assert h.Outstanding(live[0].value);
    }
  }

  // No two answers are for the same chunk.
  lemma AnsweredOnce(file: seq<Byte>, live: seq<Kvp<Chunk>>, hand: Chunk?, h: History, i: nat, j: nat)
    requires Conserved(file, live, hand, h) && i < j < |h.answers|
    ensures h.answers[i].chunk != h.answers[j].chunk
  {
  }

  // Once nothing is outstanding, every chunk has been answered or thrown away.
  lemma SettledIsAnswered(file: seq<Byte>, live: seq<Kvp<Chunk>>, hand: Chunk?, h: History)
    requires Conserved(file, live, hand, h) && AllSettled(h)
    ensures AllAnswered(h)
  {
    hide Linked, AnswerOk;
  }

  // If no chunk has been thrown away, every one is queued, in hand or answered.
  lemma NoneLost(file: seq<Byte>, live: seq<Kvp<Chunk>>, hand: Chunk?, h: History)
    requires Conserved(file, live, hand, h) && h.lost == []
    ensures forall c :: c in h.added ==> c in h.place && (h.Outstanding(c) || h.place[c].Answered?)
  {
    hide Linked, AnswerOk;
  }

  /** Where nothing was thrown away, a chunk that was outstanding, or not there yet, and is settled now has been
      answered since, and with the code of that stretch. */
  lemma AnsweredSince(file: seq<Byte>, live: seq<Kvp<Chunk>>, hand: Chunk?, h: History,
                      live': seq<Kvp<Chunk>>, hand': Chunk?, h': History, rc: int, c: Chunk)
    requires Conserved(file, live, hand, h) && Conserved(file, live', hand', h')
    requires Advanced(h, h', rc) && h'.lost == h.lost
    requires c in h'.place && !h'.Outstanding(c) && (c in h.place ==> h.Outstanding(c))
    ensures h'.AnsweredWith(c, rc) && |h.answers| <= h'.place[c].at
  {
    hide Linked, AnswerOk;
    assert forall k :: 0 <= k < |h.lost| ==> h.lost[k] != c;
    assert forall k :: 0 <= k < |h.answers| ==> h.answers[k].chunk != c;
  }

  // ---------- Relations between an earlier and a later history ----------

  ghost predicate OnlyArrivals(h: History, h': History) {
    && h.added <= h'.added && h'.answers == h.answers && h'.lost == h.lost
    && (forall c :: c in h.place ==> c in h'.place && h'.place[c] == h.place[c])
    && (forall c :: c in h.used ==> c in h'.used && h'.used[c] == h.used[c])
    && (forall c :: c in h'.place && c !in h.place ==> h'.place[c].Queued?)
    && (forall c :: c in h'.used && c !in h.used ==> h'.used[c] == 0)
  }

  // During a wait reads arrive, `chunk` is popped or `dropped` is lost, and nothing else happens.
  ghost predicate Waited(h: History, h': History, chunk: Chunk?, dropped: Chunk?) {
    && h.added <= h'.added && h'.answers == h.answers
    && h'.lost == h.lost + (if dropped == null then [] else [dropped])
    && (forall c :: c in h.place && c != chunk && c != dropped ==> c in h'.place && h'.place[c] == h.place[c])
    && (forall c :: c in h.used ==> c in h'.used && h'.used[c] == h.used[c])
    && (forall c :: c in h'.used && c !in h.used ==> h'.used[c] == 0)
    && (forall c :: c in h'.place && c !in h.place && c != chunk && c != dropped ==> h'.place[c].Queued?)
    && (forall c :: c in h.place && (c == chunk || c == dropped) ==> c in h'.place && h.place[c].Queued?)
    && (chunk != null ==> dropped == null && chunk in h'.place && h'.place[chunk].InHand?)
    && (dropped != null ==> dropped in h'.place && h'.place[dropped].Lost?)
  }

  // Answers are only appended, all with this code, and no work is undone.
  ghost predicate Advanced(h: History, h': History, rc: int) {
    && h.answers <= h'.answers && h.added <= h'.added && h.lost <= h'.lost
    && (forall k :: |h.answers| <= k < |h'.answers| ==> h'.answers[k].rc == rc)
    && (forall c :: c in h.place ==> c in h'.place && (!h.Outstanding(c) ==> h'.place[c] == h.place[c]))
    && (forall c :: c in h.used ==> c in h'.used && h.used[c] <= h'.used[c])
  }

  lemma ArrivalsRefl(h: History)
    ensures OnlyArrivals(h, h)
  {
  }

  lemma ArrivalsThenOne(h: History, h': History, c: Chunk)
    requires OnlyArrivals(h, h') && c !in h'.place && c !in h'.used
    ensures OnlyArrivals(h, h'.Arrived(c))
  {
  }

  lemma ArrivalsCompose(h: History, h': History, h'': History)
    requires OnlyArrivals(h, h') && OnlyArrivals(h', h'')
    ensures OnlyArrivals(h, h'')
  {
  }

  lemma ArrivalsAreWait(h: History, h': History)
    requires OnlyArrivals(h, h')
    ensures Waited(h, h', null, null)
  {
  }

  lemma ArrivalsThenPop(h: History, h': History, chunk: Chunk)
    requires OnlyArrivals(h, h') && chunk in h'.place && h'.place[chunk].Queued?
    ensures Waited(h, h'.Moved(chunk, InHand), chunk, null)
  {
  }

  lemma PopThenDrop(h: History, h': History, chunk: Chunk)
    requires Waited(h, h', chunk, null)
    ensures Waited(h, h'.Dropped(chunk), null, chunk)
  {
  }

  lemma AdvancedRefl(h: History, rc: int)
    ensures Advanced(h, h, rc)
  {
  }

  lemma WaitedAdvances(h: History, h': History, chunk: Chunk?, dropped: Chunk?, rc: int)
    requires Waited(h, h', chunk, dropped)
    ensures Advanced(h, h', rc)
  {
  }

  lemma PopAdvances(h: History, h': History, chunk: Chunk?, rc: int)
    requires chunk == null ==> h' == h
    requires chunk != null ==> chunk in h.place && h.place[chunk].Queued? && h' == h.Moved(chunk, InHand)
    ensures Advanced(h, h', rc)
  {
  }

  lemma AdvancedCompose(h: History, h': History, h'': History, rc: int)
    requires Advanced(h, h', rc) && Advanced(h', h'', rc)
    ensures Advanced(h, h'', rc)
  {
    forall c | c in h.place
      ensures c in h''.place && (!h.Outstanding(c) ==> h''.place[c] == h.place[c])
    {
      assert c in h'.place;
    }
    forall c | c in h.used
      ensures c in h''.used && h.used[c] <= h''.used[c]
    {
      assert c in h'.used;
    }
  }

  lemma FillAdvances(h: History, c: Chunk, bytes: nat)
    requires c in h.used && h.used[c] <= bytes
    ensures Advanced(h, h.Filled(c, bytes), 0)
    ensures h.Filled(c, bytes).Done(c) == h.Done(c) + bytes - h.used[c]
  {
  }

  lemma ReplyAdvances(h: History, a: Answer)
    requires h.Outstanding(a.chunk)
    ensures Advanced(h, h.Replied(a), a.rc)
    ensures h.Replied(a).Done(a.chunk) == h.Done(a.chunk) + 1
  {
  }

  lemma DoneGrows(h: History, h': History, rc: int, c: Chunk)
    requires Advanced(h, h', rc)
    ensures h.Done(c) <= h'.Done(c)
  {
  }

  lemma AdvancedStep(h: History, h': History, h'': History, rc: int, c: Chunk?)
    requires Advanced(h, h', rc) && Advanced(h', h'', rc)
    ensures Advanced(h, h'', rc)
    ensures c != null ==> h.Done(c) <= h'.Done(c) <= h''.Done(c)
  {
    AdvancedCompose(h, h', h'', rc);
    if c != null {
      DoneGrows(h, h', rc, c);
      DoneGrows(h', h'', rc, c);
    }
  }

  // ---------- Bytes ----------

  ghost function BytesIn(h: History, cs: seq<Chunk>): nat {
    if cs == [] then 0 else h.Bytes(cs[0]) + BytesIn(h, cs[1..])
  }

  // All the bytes that chunks have been filled with.
  ghost function TotalBytes(h: History): nat {
    BytesIn(h, h.added)
  }

  lemma {:induction false} BytesSame(h: History, h': History, cs: seq<Chunk>)
    requires forall c :: c in cs ==> h'.Bytes(c) == h.Bytes(c)
    ensures BytesIn(h', cs) == BytesIn(h, cs)
  {
    if cs != [] {
      BytesSame(h, h', cs[1..]);
    }
  }

  lemma {:induction false} BytesConcat(h: History, cs: seq<Chunk>, ds: seq<Chunk>)
    ensures BytesIn(h, cs + ds) == BytesIn(h, cs) + BytesIn(h, ds)
  {
    if cs == [] {
      assert cs + ds == ds;
    } else {
      assert (cs + ds)[1..] == cs[1..] + ds;
      BytesConcat(h, cs[1..], ds);
    }
  }

  lemma {:induction false} BytesNone(h: History, cs: seq<Chunk>)
    requires forall c :: c in cs ==> h.Bytes(c) == 0
    ensures BytesIn(h, cs) == 0
  {
    if cs != [] {
      BytesNone(h, cs[1..]);
    }
  }

  lemma {:induction false} BytesFilled(h: History, cs: seq<Chunk>, c: Chunk, bytes: nat)
    requires Distinct(cs) && c in cs
    ensures BytesIn(h.Filled(c, bytes), cs) + h.Bytes(c) == BytesIn(h, cs) + bytes
  {
    var h' := h.Filled(c, bytes);
    if c == cs[0] {
      assert forall d :: d in cs[1..] ==> d != c;
      BytesSame(h, h', cs[1..]);
    } else {
      BytesFilled(h, cs[1..], c, bytes);
    }
  }

  lemma FillBytes(file: seq<Byte>, live: seq<Kvp<Chunk>>, h: History, c: Chunk, bytes: nat)
    requires Conserved(file, live, c, h)
    ensures TotalBytes(h.Filled(c, bytes)) + h.Bytes(c) == TotalBytes(h) + bytes
  {
    BytesFilled(h, h.added, c, bytes);
  }

  lemma ReplyBytes(h: History, a: Answer)
    ensures TotalBytes(h.Replied(a)) == TotalBytes(h)
  {
    BytesSame(h, h.Replied(a), h.added);
  }

  lemma AddedLater(cs: seq<Chunk>, cs': seq<Chunk>)
    requires cs <= cs' && Distinct(cs')
    ensures forall c :: c in cs'[|cs|..] ==> c !in cs
  {
    forall i, j | 0 <= i < |cs| && 0 <= j < |cs'| - |cs|
      ensures cs[i] != cs'[|cs|..][j]
    {
      assert cs[i] == cs'[i] && cs'[|cs|..][j] == cs'[|cs| + j];
    }
  }

  lemma WaitedBytesOf(h: History, h': History, chunk: Chunk?, dropped: Chunk?, c: Chunk)
    requires Waited(h, h', chunk, dropped)
    ensures h'.Bytes(c) == h.Bytes(c)
  {}

  // No byte comes in while the thread waits.
  lemma WaitedBytes(file: seq<Byte>, live: seq<Kvp<Chunk>>, hand: Chunk?, h: History,
                    live': seq<Kvp<Chunk>>, hand': Chunk?, h': History, chunk: Chunk?, dropped: Chunk?)
    requires Conserved(file, live, hand, h) && Conserved(file, live', hand', h') && Waited(h, h', chunk, dropped)
    ensures TotalBytes(h') == TotalBytes(h)
  {
    hide Conserved, Waited, BytesIn, Distinct;
    UsedIsAdded(file, live, hand, h);
    UsedIsAdded(file, live', hand', h');
    WaitedAdds(h, h', chunk, dropped);
    var later := h'.added[|h.added|..];
    assert h'.added == h.added + later;
    AddedLater(h.added, h'.added);
    BytesConcat(h', h.added, later);
    forall c
      ensures h'.Bytes(c) == h.Bytes(c)
    {
      WaitedBytesOf(h, h', chunk, dropped, c);
    }
    BytesSame(h, h', h.added);
    BytesNone(h', later);
  }

  lemma WaitedAdds(h: History, h': History, chunk: Chunk?, dropped: Chunk?)
    requires Waited(h, h', chunk, dropped)
    ensures h.added <= h'.added
  {}

  lemma UsedIsAdded(file: seq<Byte>, live: seq<Kvp<Chunk>>, hand: Chunk?, h: History)
    requires Conserved(file, live, hand, h)
    ensures Distinct(h.added) && forall c :: c in h.used <==> c in h.added
  {
    hide Linked, AnswerOk, LostOk;
  }

  // ---------- One chunk among the others ----------

  // What the chunk still has room for.
  function Left(h: History, c: Chunk): int {
    c.ctxt.size - h.Bytes(c)
  }

  /** Of the bytes consumed, the chunk that was in hand first got all it still had room for; and when that was no more
      than there were, its read has been answered with success. */
  ghost predicate Served(h: History, h': History, c: Chunk, bytes: nat) {
    && h'.Bytes(c) == h.Bytes(c) + Min(bytes, Left(h, c))
    && (Left(h, c) <= bytes ==> h'.AnsweredWith(c, 0))
  }

  // Once the chunk has been answered nothing more happens to it.
  lemma ServedStays(file: seq<Byte>, live: seq<Kvp<Chunk>>, hand: Chunk?, h: History, h': History, h'': History,
                    c: Chunk, bytes: nat, more: nat)
    requires Served(h, h', c, bytes) && 0 <= Left(h, c) <= bytes
    requires Conserved(file, live, hand, h'') && Advanced(h', h'', 0)
    ensures Served(h, h'', c, bytes + more)
  {
    hide Linked, AnswerOk, LostOk;
    assert h''.Bytes(c) <= c.ctxt.size;
  }

  lemma ServedLess(h: History, h': History, c: Chunk, bytes: nat, fewer: nat)
    requires Served(h, h', c, bytes) && Left(h, c) <= fewer <= bytes
    ensures Served(h, h', c, fewer)
  {
  }

  lemma ServedDone(h: History, h': History, c: Chunk, bytes: nat)
    requires Served(h, h', c, bytes) && 0 <= Left(h, c) && (bytes > 0 || Left(h, c) <= bytes) && c in h.place && h.place[c].InHand?
    ensures h.Done(c) < h'.Done(c)
  {
  }

  // What is consumed in two goes, the chunk in hand for both.
  lemma ServedThen(h: History, h': History, h'': History, c: Chunk, bytes: nat, more: nat)
    requires h'.Bytes(c) == h.Bytes(c) + bytes && h'.Bytes(c) <= c.ctxt.size && Served(h', h'', c, more)
    ensures Served(h, h'', c, bytes + more)
  {
  }

  // ---------- Progress ----------

  // All the work done so far on these chunks, and all that was ever asked for.
  ghost function Progress(h: History, cs: seq<Chunk>): nat {
    if cs == [] then 0 else h.Done(cs[0]) + Progress(h, cs[1..])
  }

  ghost function Offered(cs: seq<Chunk>): nat {
    if cs == [] then 0 else cs[0].ctxt.size + 1 + Offered(cs[1..])
  }

  // For each chunk its size and one more is asked for, and its bytes and one more for the answer are done.
  lemma {:induction false} WorkByChunks(h: History, cs: seq<Chunk>, ds: seq<Chunk>, c: Chunk)
    ensures Offered([c]) == c.ctxt.size + 1 && Offered(cs + ds) == Offered(cs) + Offered(ds)
    ensures c in h.used && c in h.place ==> Progress(h, [c]) == h.used[c] + if h.place[c].Answered? then 1 else 0
    ensures c in h.used ==> BytesIn(h, [c]) == h.used[c]
  {
    assert [c][1..] == [];
    if cs == [] {
      assert cs + ds == ds;
    } else {
      assert (cs + ds)[1..] == cs[1..] + ds;
      WorkByChunks(h, cs[1..], ds, c);
    }
  }

  lemma {:induction false} ProgressGrows(h: History, h': History, rc: int, cs: seq<Chunk>)
    requires Advanced(h, h', rc)
    ensures Progress(h, cs) <= Progress(h', cs)
  {
    if cs != [] {
      DoneGrows(h, h', rc, cs[0]);
      ProgressGrows(h, h', rc, cs[1..]);
    }
  }

  lemma {:induction false} ProgressGrowsStrictly(h: History, h': History, rc: int, cs: seq<Chunk>, c: Chunk)
    requires Advanced(h, h', rc) && c in cs && h.Done(c) < h'.Done(c)
    ensures Progress(h, cs) < Progress(h', cs)
  {
    DoneGrows(h, h', rc, cs[0]);
    ProgressGrows(h, h', rc, cs[1..]);
    if c != cs[0] {
      ProgressGrowsStrictly(h, h', rc, cs[1..], c);
    }
  }

  lemma {:induction false} ProgressConcat(h: History, cs: seq<Chunk>, ds: seq<Chunk>)
    ensures Progress(h, cs + ds) == Progress(h, cs) + Progress(h, ds)
  {
    if cs == [] {
      assert cs + ds == ds;
    } else {
      assert (cs + ds)[1..] == cs[1..] + ds;
      ProgressConcat(h, cs[1..], ds);
    }
  }

  // Over a stretch of a run the total never falls, and it rises if some chunk was worked on.
  lemma TotalGrows(h: History, h': History, rc: int, c: Chunk?)
    requires Advanced(h, h', rc)
    requires c != null ==> c in h.added && h.Done(c) < h'.Done(c)
    ensures Progress(h, h.added) + (if c == null then 0 else 1) <= Progress(h', h'.added)
  {
    assert h'.added == h.added + h'.added[|h.added|..];
    ProgressConcat(h', h.added, h'.added[|h.added|..]);
    if c == null {
      ProgressGrows(h, h', rc, h.added);
    } else {
      ProgressGrowsStrictly(h, h', rc, h.added, c);
    }
  }

  // Never more than was asked for: so only finitely many steps can make progress.
  lemma {:induction false} ProgressBounded(file: seq<Byte>, live: seq<Kvp<Chunk>>, hand: Chunk?, h: History, cs: seq<Chunk>)
    requires Conserved(file, live, hand, h)
    ensures Progress(h, cs) <= Offered(cs)
  {
    if cs != [] {
      ProgressBounded(file, live, hand, h, cs[1..]);
    }
  }
}
