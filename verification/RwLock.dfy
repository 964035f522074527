/** The reader/writer lock of src/locks.c as a step protocol.

    The code between taking the mutex and releasing it, or waiting, is one step.  A thread inside
    pthread_cond_wait is `asleep`; once signalled, broadcast to, or woken for no reason, it is `woken`
    and will test its loop condition again in a `Resume` step of its own.  The unsynchronised test at
    the top of rlock and wlock can be part of the step.  Only the calling thread ever stores its own
    name, so a test that failed would still fail when the mutex is had; and a call whose test succeeds
    takes no mutex and does nothing further, so it is over at the test, whatever is stored later. */
module RwLocks {
  import opened Wrappers

  type Thread = nat

  datatype Kind = Reader | Writer

  // `last` is locking_thread, None when it is 0.
  datatype Lock = Lock(readers: nat, writer: nat, last: Option<Thread>,
                       asleep: map<Thread, Kind>, woken: map<Thread, Kind>)

  const Unlocked := Lock(0, 0, None, map[], map[])

  /** `woke` is the thread that pthread_cond_signal picks, if any is asleep. */
  datatype Event =
    | Acquire(t: Thread, kind: Kind)
    | RUnlock(t: Thread, woke: Option<Thread>)
    | WUnlock(t: Thread)
    | WakeUp(t: Thread)
    | Resume(t: Thread)

  predicate Enabled(l: Lock, e: Event) {
    match e
    case Acquire(t, _) => t !in l.asleep && t !in l.woken
    case RUnlock(t, woke) =>
      && t !in l.asleep && t !in l.woken
      && (woke.Some? ==> woke.value in l.asleep) && (woke.None? ==> l.readers != 1 || l.asleep == map[])
    case WUnlock(t) => t !in l.asleep && t !in l.woken
    case WakeUp(t) => t in l.asleep
    case Resume(t) => t in l.woken
  }

  // Whether the loop in rlock or wlock goes round to wait.
  predicate Blocked(l: Lock, kind: Kind) {
    l.writer > 0 || (kind.Writer? && l.readers > 0)
  }

  predicate TakesFastPath(l: Lock, e: Event) {
    e.Acquire? && l.last == Some(e.t)
  }

  function Enter(l: Lock, t: Thread, kind: Kind): Lock {
    if Blocked(l, kind) then l.(asleep := l.asleep[t := kind])
    else if kind.Reader? then l.(readers := l.readers + 1, last := Some(t))
    else l.(writer := l.writer + 1, last := Some(t))
  }

  function Woken(l: Lock, t: Thread): Lock
    requires t in l.asleep
  {
    l.(asleep := l.asleep - {t}, woken := l.woken[t := l.asleep[t]])
  }

  function Step(l: Lock, e: Event): Lock
    requires Enabled(l, e)
  {
    match e
    case Acquire(t, kind) => if TakesFastPath(l, e) then l else Enter(l, t, kind)
    case RUnlock(_, woke) =>
      if l.readers == 0 then l
      else
        var l' := l.(readers := l.readers - 1);
        if l'.readers > 0 then l'
        else (if woke.None? then l' else Woken(l', woke.value)).(last := None)
    case WUnlock(_) =>
      if l.writer == 0 then l
      else l.(writer := 0, asleep := map[], woken := l.woken + l.asleep, last := None)
    case WakeUp(t) => Woken(l, t)
    case Resume(t) => Enter(l.(woken := l.woken - {t}), t, l.woken[t])
  }

  // What the unlock calls return.
  function ReturnCode(l: Lock, e: Event): int {
    if (e.RUnlock? && l.readers == 0) || (e.WUnlock? && l.writer == 0) then -1 else 0
  }

  // ---------- Counter-level safety and wake-ups, for all clients whatever they do ----------

  predicate Free(l: Lock) { l.readers == 0 && l.writer == 0 }

  ghost predicate Inv(l: Lock) {
    // Never a writer with readers, never two writers.
    && l.writer <= 1 && (l.writer == 1 ==> l.readers == 0)
    // locking_thread is set exactly while the lock is held.
    && (l.last.None? <==> Free(l))
    // Readers sleep only while a writer holds the lock.
    && (forall t :: t in l.asleep && l.asleep[t].Reader? ==> l.writer == 1)
    // Nobody sleeps beside a free lock unless somebody has been woken.
    && (Free(l) && l.asleep != map[] ==> l.woken != map[])
    && l.asleep.Keys !! l.woken.Keys
  }

  lemma StepKeepsInv(l: Lock, e: Event)
    requires Inv(l) && Enabled(l, e)
    ensures Inv(Step(l, e))
  {
    var l' := Step(l, e);
    match e
    case RUnlock(_, woke) =>
      if l.readers == 1 && woke.Some? {
        assert woke.value in l'.woken;
      }
    case WakeUp(t) =>
      assert t in l'.woken;
    case _ =>
  }

  ghost predicate Run(ls: seq<Lock>, es: seq<Event>) {
    && |ls| == |es| + 1 && ls[0] == Unlocked
    && forall i :: 0 <= i < |es| ==> Enabled(ls[i], es[i]) && ls[i + 1] == Step(ls[i], es[i])
  }

  lemma {:induction false} RunKeepsInv(ls: seq<Lock>, es: seq<Event>, i: nat)
    requires Run(ls, es) && i < |ls|
    ensures Inv(ls[i])
    decreases i
  {
    if i > 0 {
      RunKeepsInv(ls, es, i - 1);
      StepKeepsInv(ls[i - 1], es[i - 1]);
    }
  }

  // No wake-up is lost: whenever somebody waits beside a free lock, somebody can run and will take it.
  lemma NoLostWakeup(ls: seq<Lock>, es: seq<Event>, i: nat)
    requires Run(ls, es) && i < |ls|
    requires Free(ls[i]) && (ls[i].asleep != map[] || ls[i].woken != map[])
    ensures exists t :: t in ls[i].woken && Enabled(ls[i], Resume(t)) && !Free(Step(ls[i], Resume(t)))
  {
    RunKeepsInv(ls, es, i);
    var t :| t in ls[i].woken;
    assert !Free(Step(ls[i], Resume(t)));
  }

  // One signal is enough when the last reader leaves: only writers can be asleep then.
  lemma OnlyWritersAtLastReaderExit(ls: seq<Lock>, es: seq<Event>, i: nat)
    requires Run(ls, es) && i < |es| && es[i].RUnlock? && ls[i].readers == 1
    ensures forall t :: t in ls[i].asleep ==> ls[i].asleep[t].Writer?
  {
    RunKeepsInv(ls, es, i);
  }

  // ---------- What clients may rely on ----------

  // The lock, and the threads that have been told they hold it.
  datatype World = World(l: Lock, reading: set<Thread>, writing: set<Thread>)

  /** Clients take the lock only when they do not hold it, and release only what they hold. */
  predicate Disciplined(w: World, e: Event) {
    match e
    case Acquire(t, _) => t !in w.reading && t !in w.writing
    case RUnlock(t, _) => t in w.reading
    case WUnlock(t) => t in w.writing
    case _ => true
  }

  function Told(w: World, t: Thread, kind: Kind): World {
    if kind.Reader? then w.(reading := w.reading + {t}) else w.(writing := w.writing + {t})
  }

  // An acquiring call returns unless it goes to sleep.
  function Next(w: World, e: Event): World
    requires Enabled(w.l, e)
  {
    var w' := w.(l := Step(w.l, e));
    match e
    case Acquire(t, kind) => if t in w'.l.asleep then w' else Told(w', t, kind)
    case Resume(t) => if t in w'.l.asleep then w' else Told(w', t, w.l.woken[t])
    case RUnlock(t, _) => w'.(reading := w.reading - {t})
    case WUnlock(t) => w'.(writing := w.writing - {t})
    case WakeUp(_) => w'
  }

  // A writer is alone.
  ghost predicate Exclusive(w: World) {
    forall a, b :: a in w.writing && b in w.reading + w.writing ==> a == b && b !in w.reading
  }

  // The counters count the holders, and holders do not wait.
  ghost predicate Accurate(w: World) {
    && w.l.readers == |w.reading| && w.l.writer == |w.writing|
    && (forall t :: t in w.reading + w.writing ==> t !in w.l.asleep && t !in w.l.woken)
    && (forall t :: t in w.l.woken ==> t !in w.l.asleep)
    && (w.l.writer == 1 ==> w.l.last.Some? && w.l.last.value in w.writing)
  }

  lemma AccurateIsExclusive(w: World)
    requires Inv(w.l) && Accurate(w)
    ensures Exclusive(w)
  {
    forall a, b | a in w.writing && b in w.reading + w.writing
      ensures a == b && b !in w.reading
    {
      assert w.writing >= {a};
      assert |w.writing - {a}| == |w.writing| - 1;
      if b in w.writing && b != a {
        assert false;
      }
    }
  }

  // A thread that is neither holding nor waiting passes the test of the loop, or goes to sleep.
  lemma EnterKeepsAccurate(w: World, t: Thread, kind: Kind)
    requires Inv(w.l) && Accurate(w)
    requires t !in w.reading && t !in w.writing && t !in w.l.asleep && t !in w.l.woken
    ensures var l := Enter(w.l, t, kind);
            Accurate(if Blocked(w.l, kind) then w.(l := l) else Told(w.(l := l), t, kind))
  {
  }

  lemma ResumeKeepsAccurate(w: World, t: Thread)
    requires Inv(w.l) && Accurate(w) && t in w.l.woken
    ensures Accurate(Next(w, Resume(t)))
  {
    var l, kind := w.l.(woken := w.l.woken - {t}), w.l.woken[t];
    if Blocked(l, kind) {
      assert Next(w, Resume(t)) == w.(l := Enter(l, t, kind));
    } else {
      assert Next(w, Resume(t)) == Told(w.(l := Enter(l, t, kind)), t, kind);
    }
  }

  lemma ReleaseKeepsAccurate(w: World, e: Event)
    requires Inv(w.l) && Accurate(w) && Enabled(w.l, e) && Disciplined(w, e)
    requires e.RUnlock? || e.WUnlock?
    ensures Accurate(Next(w, e))
  {
    AccurateIsExclusive(w);
    match e
    case RUnlock(t, woke) =>
      assert |w.reading - {t}| == |w.reading| - 1;
    case WUnlock(t) =>
      assert |w.writing - {t}| == |w.writing| - 1;
  }

  /** From an accurate state a disciplined step leads to an accurate state if and only if it does not
      take the fast path. */
  lemma AccurateUnlessFastPath(w: World, e: Event)
    requires Inv(w.l) && Accurate(w) && Enabled(w.l, e) && Disciplined(w, e)
    ensures Accurate(Next(w, e)) <==> !TakesFastPath(w.l, e)
  {
    match e
    case Acquire(t, kind) =>
      if !TakesFastPath(w.l, e) {
        EnterKeepsAccurate(w, t, kind);
      }
    case RUnlock(_, _) =>
      ReleaseKeepsAccurate(w, e);
    case WUnlock(_) =>
      ReleaseKeepsAccurate(w, e);
    case WakeUp(t) =>
    case Resume(t) =>
      ResumeKeepsAccurate(w, t);
  }

  // A write lock handed out on the fast path is shared at once.
  lemma FastWriteBreaksExclusion(w: World, e: Event)
    requires Inv(w.l) && Accurate(w) && Enabled(w.l, e) && Disciplined(w, e)
    requires e.Acquire? && e.kind.Writer?
    ensures Exclusive(Next(w, e)) <==> !TakesFastPath(w.l, e)
  {
    var w' := Next(w, e);
    if TakesFastPath(w.l, e) {
      var others := w.reading + w.writing;
      assert others != {} by {
        assert w.l.readers > 0 || w.l.writer > 0;
      }
      var b :| b in others;
      assert e.t in w'.writing && b in w'.reading + w'.writing && b != e.t;
    } else {
      AccurateUnlessFastPath(w, e);
      StepKeepsInv(w.l, e);
      AccurateIsExclusive(w');
    }
  }

  ghost predicate ClientRun(ws: seq<World>, es: seq<Event>) {
    && |ws| == |es| + 1 && ws[0] == World(Unlocked, {}, {})
    && forall i :: 0 <= i < |es| ==>
         Enabled(ws[i].l, es[i]) && Disciplined(ws[i], es[i]) && ws[i + 1] == Next(ws[i], es[i])
  }

  ghost predicate NeverFast(ws: seq<World>, es: seq<Event>) {
    forall i :: 0 <= i < |es| && i < |ws| ==> !TakesFastPath(ws[i].l, es[i])
  }

  lemma {:induction false} ClientExclusion(ws: seq<World>, es: seq<Event>, i: nat)
    requires ClientRun(ws, es) && NeverFast(ws, es) && i < |ws|
    ensures Inv(ws[i].l) && Accurate(ws[i]) && Exclusive(ws[i])
    decreases i
  {
    if i > 0 {
      ClientExclusion(ws, es, i - 1);
      StepKeepsInv(ws[i - 1].l, es[i - 1]);
      AccurateUnlessFastPath(ws[i - 1], es[i - 1]);
    }
    AccurateIsExclusive(ws[i]);
  }

  lemma ExtendRun(ws: seq<World>, es: seq<Event>, e: Event, w: World)
    requires ClientRun(ws, es) && Enabled(ws[|es|].l, e) && Disciplined(ws[|es|], e) && w == Next(ws[|es|], e)
    ensures ClientRun(ws + [w], es + [e])
  {
  }

  // ---------- What a step on the fast path leads to ----------

  // Steps that can be taken one after the other, by disciplined clients and off the fast path.
  predicate Legal(w: World, es: seq<Event>)
    decreases |es|
  {
    es == []
    || (Enabled(w.l, es[0]) && Disciplined(w, es[0]) && !TakesFastPath(w.l, es[0]) && Legal(Next(w, es[0]), es[1..]))
  }

  function After(w: World, es: seq<Event>): World
    requires Legal(w, es)
    decreases |es|
  {
    if es == [] then w else After(Next(w, es[0]), es[1..])
  }

  lemma {:induction false} LegalThen(w: World, es: seq<Event>, e: Event)
    requires Legal(w, es)
    requires var w' := After(w, es); Enabled(w'.l, e) && Disciplined(w', e) && !TakesFastPath(w'.l, e)
    ensures Legal(w, es + [e]) && After(w, es + [e]) == Next(After(w, es), e)
    decreases |es|
  {
    if es == [] {
      assert es + [e] == [e] && [e][1..] == [];
    } else {
      assert (es + [e])[0] == es[0] && (es + [e])[1..] == es[1..] + [e];
      LegalThen(Next(w, es[0]), es[1..], e);
    }
  }

  lemma {:induction false} LegalKeepsAccurate(w: World, es: seq<Event>)
    requires Inv(w.l) && Accurate(w) && Legal(w, es)
    ensures Exclusive(After(w, es))
    decreases |es|
  {
    if es == [] {
      AccurateIsExclusive(w);
    } else {
      StepKeepsInv(w.l, es[0]);
      AccurateUnlessFastPath(w, es[0]);
      LegalKeepsAccurate(Next(w, es[0]), es[1..]);
    }
  }

  predicate Idle(l: Lock, t: Thread) { t !in l.asleep && t !in l.woken }

  // The threads that are counted leave; the lock is free whoever else believes to be reading.
  lemma {:induction false} ReadersLeave(w: World, counted: set<Thread>) returns (es: seq<Event>)
    requires counted <= w.reading && w.l.readers == |counted| > 0 && w.l.writer == 0
    requires forall t :: t in counted ==> Idle(w.l, t)
    ensures Legal(w, es)
    ensures var w' := After(w, es);
            && w'.l.readers == w'.l.writer == 0 && w'.l.last == None
            && w'.reading == w.reading - counted && w'.writing == w.writing
            && forall t :: Idle(w'.l, t) <==> Idle(w.l, t)
    decreases |counted|
  {
    var r :| r in counted;
    var woke := None;
    if w.l.readers == 1 && w.l.asleep != map[] {
      var s :| s in w.l.asleep;
      woke := Some(s);
    }
    var e := RUnlock(r, woke);
    var w' := Next(w, e);
    assert |counted - {r}| == |counted| - 1;
    assert forall t :: Idle(w'.l, t) <==> Idle(w.l, t);
    if w.l.readers == 1 {
      assert counted - {r} == {};
      assert [e][1..] == [];
      es := [e];
    } else {
      var rest := ReadersLeave(w', counted - {r});
      es := [e] + rest;
      assert es[1..] == rest;
      assert w'.reading - (counted - {r}) == w.reading - counted;
    }
  }

  lemma {:induction false} Fresh(ts: set<Thread>) returns (t: Thread)
    ensures t !in ts && forall u :: u in ts ==> u < t
    decreases |ts|
  {
    if ts == {} {
      t := 0;
    } else {
      var u :| u in ts;
      var v := Fresh(ts - {u});
      t := if v > u then v else u + 1;
      assert forall x :: x in ts ==> x == u || x in ts - {u};
    }
  }

  /** A reader on the fast path is not counted.  Wherever that happens, the readers that are counted can
      leave and another thread then be given the lock to write, beside the reader. */
  lemma FastReadLosesExclusion(w: World, t: Thread) returns (es: seq<Event>)
    requires Inv(w.l) && Accurate(w)
    requires var e := Acquire(t, Reader); Enabled(w.l, e) && Disciplined(w, e) && TakesFastPath(w.l, e)
    ensures var w' := Next(w, Acquire(t, Reader)); Legal(w', es) && !Exclusive(After(w', es))
  {
    var w' := Next(w, Acquire(t, Reader));
    assert w'.l == w.l && w'.reading == w.reading + {t};
    es := ReadersLeave(w', w.reading);
    var free := After(w', es);
    var u := Fresh({t} + free.l.asleep.Keys + free.l.woken.Keys + free.writing);
    assert free.reading == {t};
    var e := Acquire(u, Writer);
    LegalThen(w', es, e);
    es := es + [e];
    assert u in After(w', es).writing && t in After(w', es).reading;
  }

  ghost predicate Loses(w: World, e: Event, es: seq<Event>)
    requires Enabled(w.l, e)
  {
    Legal(Next(w, e), es) && !Exclusive(After(Next(w, e), es))
  }

  /** A disciplined step from an accurate state can lead to a writer that is not alone, with no further use of
      the fast path, if and only if it is on the fast path itself. */
  lemma ExclusionIsLostExactly(w: World, e: Event)
    requires Inv(w.l) && Accurate(w) && Enabled(w.l, e) && Disciplined(w, e)
    ensures (exists es :: Loses(w, e, es)) <==> TakesFastPath(w.l, e)
  {
    if TakesFastPath(w.l, e) {
      if e.kind.Reader? {
        var es := FastReadLosesExclusion(w, e.t);
        assert Loses(w, e, es);
      } else {
        FastWriteBreaksExclusion(w, e);
        assert Loses(w, e, []);
      }
    } else {
      StepKeepsInv(w.l, e);
      AccurateUnlessFastPath(w, e);
      forall es | Legal(Next(w, e), es)
        ensures !Loses(w, e, es)
      {
        LegalKeepsAccurate(Next(w, e), es);
      }
    }
  }

  /** Such states are reached: in this run, where every client is disciplined, thread 2 still reads when
      thread 3 is given the lock to write. */
  lemma DisciplinedRunLosesExclusion() returns (ws: seq<World>, es: seq<Event>)
    ensures ClientRun(ws, es) && 2 in ws[|es|].reading && 3 in ws[|es|].writing
  {
    ws, es := [World(Unlocked, {}, {})], [];
    ws, es := Extended(ws, es, Acquire(1, Reader), World(Lock(1, 0, Some(1), map[], map[]), {1}, {}));
    ws, es := Extended(ws, es, Acquire(2, Reader), World(Lock(2, 0, Some(2), map[], map[]), {1, 2}, {}));
    ws, es := Extended(ws, es, RUnlock(2, None), World(Lock(1, 0, Some(2), map[], map[]), {1}, {}));
    ws, es := Extended(ws, es, Acquire(2, Reader), World(Lock(1, 0, Some(2), map[], map[]), {1, 2}, {}));
    ws, es := Extended(ws, es, RUnlock(1, None), World(Unlocked, {2}, {}));
    ws, es := Extended(ws, es, Acquire(3, Writer), World(Lock(0, 1, Some(3), map[], map[]), {2}, {3}));
  }

  lemma Extended(ws: seq<World>, es: seq<Event>, e: Event, w: World) returns (ws': seq<World>, es': seq<Event>)
    requires ClientRun(ws, es) && Enabled(ws[|es|].l, e) && Disciplined(ws[|es|], e) && w == Next(ws[|es|], e)
    ensures ClientRun(ws', es') && |es'| == |es| + 1 && ws'[|es'|] == w
  {
    ws', es' := ws + [w], es + [e];
    ExtendRun(ws, es, e, w);
  }

  // The fast path does not nest: one unlock releases what a holder took twice.
  lemma NestedLockIsReleasedOnce(l: Lock, t: Thread, kind: Kind, woke: Option<Thread>)
    requires Inv(l) && l.last == Some(t) && l.readers <= 1
    requires Enabled(l, Acquire(t, kind)) && Enabled(l, RUnlock(t, woke))
    ensures var l' := Step(l, Acquire(t, kind));
            l' == l && Free(if l.readers == 1 then Step(l', RUnlock(t, woke)) else Step(l', WUnlock(t)))
  {
  }

  // ---------- The C code ----------

  /** Each method is one step; `asleep` and `woken` are the condition variable's. */
  class RwLock {
    var readersReading: nat
    var writerWriting: nat
    var lockingThread: Option<Thread>
    ghost var asleep: map<Thread, Kind>
    ghost var woken: map<Thread, Kind>

    ghost function State(): Lock
      reads this
    {
      Lock(readersReading, writerWriting, lockingThread, asleep, woken)
    }

    constructor ()
      ensures State() == Unlocked
    {
      readersReading, writerWriting, lockingThread, asleep, woken := 0, 0, None, map[], map[];
    }

    // Up to the return, or to the first pthread_cond_wait.
    method RLock(self: Thread) returns (waits: bool)
      requires Enabled(State(), Acquire(self, Reader))
      modifies this
      ensures State() == Step(old(State()), Acquire(self, Reader))
      ensures waits <==> self in asleep
      ensures waits <==> old(lockingThread) != Some(self) && old(writerWriting) != 0
      ensures readersReading == old(readersReading) + if waits || old(lockingThread) == Some(self) then 0 else 1
      ensures writerWriting == old(writerWriting) && lockingThread == if waits then old(lockingThread) else Some(self)
    {
      if lockingThread.Some? && lockingThread.value == self {
        return false;
      }
      waits := RLockTest(self);
    }

    // The loop condition and what follows the loop; after a wait this is the Resume step.
    method RLockTest(self: Thread) returns (waits: bool)
      requires self !in asleep && self !in woken
      modifies this
      ensures State() == Enter(old(State()), self, Reader)
      ensures waits <==> self in asleep
    {
      if writerWriting != 0 {
        asleep := asleep[self := Reader];
        return true;
      }
      readersReading := readersReading + 1;
      lockingThread := Some(self);
      waits := false;
    }

    method RUnlock(self: Thread, ghost woke: Option<Thread>) returns (rc: int)
      requires Enabled(State(), Event.RUnlock(self, woke))
      modifies this
      ensures State() == Step(old(State()), Event.RUnlock(self, woke))
      ensures rc == ReturnCode(old(State()), Event.RUnlock(self, woke))
      ensures rc == -1 <==> old(readersReading) == 0
      ensures rc == -1 ==> State() == old(State())
      ensures rc != -1 ==> rc == 0 && readersReading == old(readersReading) - 1 && writerWriting == old(writerWriting)
      ensures rc == 0 && readersReading > 0 ==>
                lockingThread == old(lockingThread) && asleep == old(asleep) && woken == old(woken)
      ensures rc == 0 && readersReading == 0 ==> lockingThread == None && |asleep| == |old(asleep)| - if old(asleep) == map[] then 0 else 1
    {
      if readersReading == 0 {
        rc := -1;
      } else {
        readersReading := readersReading - 1;
        if readersReading == 0 {
          if woke.Some? {
            asleep, woken := asleep - {woke.value}, woken[woke.value := asleep[woke.value]];
          }
          lockingThread := None;
        }
        rc := 0;
      }
    }

    method WLock(self: Thread) returns (waits: bool)
      requires Enabled(State(), Acquire(self, Writer))
      modifies this
      ensures State() == Step(old(State()), Acquire(self, Writer))
      ensures waits <==> self in asleep
      ensures waits <==> old(lockingThread) != Some(self) && (old(writerWriting) != 0 || old(readersReading) != 0)
      ensures writerWriting == old(writerWriting) + if waits || old(lockingThread) == Some(self) then 0 else 1
      ensures readersReading == old(readersReading) && lockingThread == if waits then old(lockingThread) else Some(self)
    {
      if lockingThread.Some? && lockingThread.value == self {
        return false;
      }
      waits := WLockTest(self);
    }

    method WLockTest(self: Thread) returns (waits: bool)
      requires self !in asleep && self !in woken
      modifies this
      ensures State() == Enter(old(State()), self, Writer)
      ensures waits <==> self in asleep
    {
      if writerWriting != 0 || readersReading != 0 {
        asleep := asleep[self := Writer];
        return true;
      }
      writerWriting := writerWriting + 1;
      lockingThread := Some(self);
      waits := false;
    }

    method WUnlock(self: Thread) returns (rc: int)
      requires Enabled(State(), Event.WUnlock(self))
      modifies this
      ensures State() == Step(old(State()), Event.WUnlock(self))
      ensures rc == ReturnCode(old(State()), Event.WUnlock(self))
      ensures rc == -1 <==> old(writerWriting) == 0
      ensures rc == -1 ==> State() == old(State())
      ensures rc != -1 ==> rc == 0 && writerWriting == 0 && readersReading == old(readersReading) && lockingThread == None
      ensures rc != -1 ==> asleep == map[] && woken == old(woken) + old(asleep)
    {
      if writerWriting == 0 {
        rc := -1;
      } else {
        writerWriting := 0;
        asleep, woken := map[], woken + asleep;
        rc := 0;
        lockingThread := None;
      }
    }

    // pthread_cond_wait returns to `self` in rlock, or in wlock, which then goes round its loop.
    method RLockResumes(self: Thread) returns (waits: bool)
      requires Enabled(State(), Resume(self)) && woken[self].Reader? && self !in asleep
      modifies this
      ensures State() == Step(old(State()), Resume(self))
    {
      woken := woken - {self};
      waits := RLockTest(self);
    }

    method WLockResumes(self: Thread) returns (waits: bool)
      requires Enabled(State(), Resume(self)) && woken[self].Writer? && self !in asleep
      modifies this
      ensures State() == Step(old(State()), Resume(self))
    {
      woken := woken - {self};
      waits := WLockTest(self);
    }
  }
}
