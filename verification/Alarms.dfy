/** The alarm multiplexer of scrap/alarms_old.c: many alarms over the one timer of the process.

    Callbacks do not schedule alarms, and signals arrive between calls. */
module Alarms {
  import opened Wrappers

  // ---------- struct timeval and its macros ----------

  const MILLION := 1_000_000

  datatype Timeval = Timeval(sec: int, usec: int)

  predicate Normal(t: Timeval) { 0 <= t.usec < MILLION }

  // timercmp(a, b, <)
  predicate Before(a: Timeval, b: Timeval) {
    a.sec < b.sec || (a.sec == b.sec && a.usec < b.usec)
  }

  // timeradd carries once
  function TimerAdd(a: Timeval, b: Timeval): Timeval {
    var t := Timeval(a.sec + b.sec, a.usec + b.usec);
    if t.usec >= MILLION then Timeval(t.sec + 1, t.usec - MILLION) else t
  }

  function TimerSub(a: Timeval, b: Timeval): Timeval {
    var t := Timeval(a.sec - b.sec, a.usec - b.usec);
    if t.usec < 0 then Timeval(t.sec - 1, t.usec + MILLION) else t
  }

  lemma TimerAddIsNormal(a: Timeval, b: Timeval)
    requires Normal(a) && b.usec >= 0
    ensures Normal(TimerAdd(a, b)) <==> a.usec + b.usec < 2 * MILLION
    ensures b.sec >= 0 ==> !Before(TimerAdd(a, b), a)
  {}

  function Micros(t: Timeval): int { t.sec * MILLION + t.usec }

  /** timercmp compares times by their fields.  It takes a time for past before it is exactly if that has more
      than a million microseconds, which is what one carry leaves from two million on. */
  lemma EarlyExactly(a: Timeval)
    requires a.usec >= 0
    ensures (exists now :: Normal(now) && Before(a, now) && Micros(now) < Micros(a)) <==> a.usec > MILLION
  {
    if a.usec > MILLION {
      var now := Timeval(a.sec + 1, 0);
      assert Normal(now) && Before(a, now) && Micros(now) < Micros(a);
    }
  }

  // What the macros compute, in microseconds.
  lemma TimersInMicros(a: Timeval, b: Timeval)
    ensures Micros(TimerAdd(a, b)) == Micros(a) + Micros(b)
    ensures Micros(TimerSub(a, b)) == Micros(a) - Micros(b)
    ensures Normal(a) && Normal(b) ==> (Before(a, b) <==> Micros(a) < Micros(b))
    ensures Normal(a) && Normal(b) ==> Normal(TimerSub(a, b))
    ensures Micros(a) == a.sec * 1000000 + a.usec
  {}

  // Taking a time apart and putting it together again.
  lemma TimerSubAdd(a: Timeval, b: Timeval)
    requires Normal(a) && Normal(b)
    ensures Normal(TimerSub(a, b)) && TimerAdd(b, TimerSub(a, b)) == a
    ensures TimerSub(a, b) == Timeval(0, 0) <==> a == b
    ensures !Before(a, b) <==> TimerSub(a, b).sec >= 0
  {}

  // ---------- Sorted alarms, first come first served among equals ----------

  datatype Alarm = Alarm(expiry: Timeval, cb: int)

  // The list with the alarm before the first that expires after it.
  function Inserted(list: seq<Alarm>, a: Alarm): (r: seq<Alarm>)
    ensures |r| == |list| + 1
    decreases |list|
  {
    if list == [] || Before(a.expiry, list[0].expiry) then [a] + list
    else [list[0]] + Inserted(list[1..], a)
  }

  ghost predicate Sorted(list: seq<Alarm>) {
    forall i, j :: 0 <= i < j < |list| ==> !Before(list[j].expiry, list[i].expiry)
  }

  // The alarms of one expiry, in order.
  function At(list: seq<Alarm>, e: Timeval): seq<Alarm>
    decreases |list|
  {
    if list == [] then [] else (if list[0].expiry == e then [list[0]] else []) + At(list[1..], e)
  }

  // What the list becomes if the alarms are scheduled in turn and none has fired.
  function StableSorted(scheduled: seq<Alarm>): (r: seq<Alarm>)
    ensures |r| == |scheduled|
    decreases |scheduled|
  {
    if scheduled == [] then []
    else Inserted(StableSorted(scheduled[..|scheduled| - 1]), scheduled[|scheduled| - 1])
  }

  lemma {:induction false} InsertedHas(list: seq<Alarm>, a: Alarm)
    ensures multiset(Inserted(list, a)) == multiset(list) + multiset{a}
    decreases |list|
  {
    if list != [] {
      InsertedHas(list[1..], a);
      assert list == [list[0]] + list[1..];
    }
  }

  lemma {:induction false} InsertedSorted(list: seq<Alarm>, a: Alarm)
    requires Sorted(list)
    ensures Sorted(Inserted(list, a))
    decreases |list|
  {
    if list != [] && !Before(a.expiry, list[0].expiry) {
      InsertedSorted(list[1..], a);
      InsertedHas(list[1..], a);
      var rest := Inserted(list[1..], a);
      assert forall k :: 0 <= k < |rest| ==> rest[k] in multiset(rest);
    }
  }

  lemma {:induction false} InsertedAt(list: seq<Alarm>, a: Alarm, e: Timeval)
    requires Sorted(list)
    ensures At(Inserted(list, a), e) == At(list, e) + if a.expiry == e then [a] else []
    decreases |list|
  {
    if list == [] || Before(a.expiry, list[0].expiry) {
      assert ([a] + list)[1..] == list;
      if a.expiry == e {
        LaterNotAt(list, e);
      }
    } else {
      var rest := Inserted(list[1..], a);
      assert ([list[0]] + rest)[1..] == rest;
      InsertedAt(list[1..], a, e);
    }
  }

  lemma {:induction false} LaterNotAt(list: seq<Alarm>, e: Timeval)
    requires forall i :: 0 <= i < |list| ==> Before(e, list[i].expiry)
    ensures At(list, e) == []
    decreases |list|
  {
    if list != [] {
      LaterNotAt(list[1..], e);
    }
  }

  lemma {:induction false} AtSnoc(list: seq<Alarm>, a: Alarm, e: Timeval)
    ensures At(list + [a], e) == At(list, e) + if a.expiry == e then [a] else []
    decreases |list|
  {
    if list == [] {
      assert list + [a] == [a] && [a][1..] == [];
    } else {
      assert (list + [a])[0] == list[0] && (list + [a])[1..] == list[1..] + [a];
      AtSnoc(list[1..], a, e);
    }
  }

  // A sorted permutation that keeps the order of scheduling among alarms of one expiry.
  lemma {:induction false} StableSortedIsStable(scheduled: seq<Alarm>, e: Timeval)
    ensures Sorted(StableSorted(scheduled))
    ensures multiset(StableSorted(scheduled)) == multiset(scheduled)
    ensures At(StableSorted(scheduled), e) == At(scheduled, e)
    decreases |scheduled|
  {
    if scheduled != [] {
      var n := |scheduled| - 1;
      var some, last := scheduled[..n], scheduled[n];
      StableSortedIsStable(some, e);
      InsertedSorted(StableSorted(some), last);
      InsertedHas(StableSorted(some), last);
      InsertedAt(StableSorted(some), last, e);
      AtSnoc(some, last, e);
      assert scheduled == some + [last];
    }
  }

  // Alarms that are not due after the new one stay in front of it.
  lemma {:induction false} InsertedBehind(front: seq<Alarm>, list: seq<Alarm>, a: Alarm)
    requires forall i :: 0 <= i < |front| ==> !Before(a.expiry, front[i].expiry)
    ensures Inserted(front + list, a) == front + Inserted(list, a)
    decreases |front|
  {
    if front == [] {
      assert front + list == list && front + Inserted(list, a) == Inserted(list, a);
    } else {
      assert (front + list)[0] == front[0] && (front + list)[1..] == front[1..] + list;
      InsertedBehind(front[1..], list, a);
      assert [front[0]] + (front[1..] + Inserted(list, a)) == front + Inserted(list, a);
    }
  }

  // ---------- The clock ----------

  // The clock as it will be read, in order.  It does not go back; past the last reading it stands still.
  function Tick(now: Timeval, ticks: seq<Timeval>): (t: Timeval)
    requires Normal(now)
    ensures Normal(t) && !Before(t, now)
  {
    if ticks != [] && Normal(ticks[0]) && !Before(ticks[0], now) then ticks[0] else now
  }

  function Later(ticks: seq<Timeval>): seq<Timeval> {
    if ticks == [] then [] else ticks[1..]
  }

  // ---------- The multiplexer ----------

  class Multiplexer {
    var list: seq<Alarm>
    var now: Timeval               // the last reading of the clock
    var ticks: seq<Timeval>        // the readings to come
    var timer: Option<Timeval>     // when the process's timer goes off
    var fired: seq<Alarm>          // the callbacks made
    ghost var scheduled: seq<Alarm>

    /** What fired and what is to fire are, together, all that was scheduled, by expiry and then in the order
        of scheduling; and nothing fired before its time. */
    ghost predicate Ordered()
      reads this
    {
      && fired + list == StableSorted(scheduled) && Sorted(fired + list)
      && (forall i :: 0 <= i < |fired| ==> !Before(now, fired[i].expiry))
      && Normal(now) && (forall i :: 0 <= i < |list| ==> Normal(list[i].expiry))
    }

    // A timer that is set is set for the first alarm of the list.
    ghost predicate Valid()
      reads this
    {
      Ordered() && (list != [] && timer.Some? ==> timer.value == list[0].expiry)
    }

    constructor (now: Timeval, ticks: seq<Timeval>)
      requires Normal(now)
      ensures Valid() && list == [] && fired == [] && scheduled == [] && timer == None
      ensures this.now == now && this.ticks == ticks
    {
      list, timer, fired, scheduled, this.now, this.ticks := [], None, [], [], now, ticks;
    }

    // gettimeofday
    method GetTimeOfDay()
      requires Normal(now)
      modifies this`now, this`ticks
      ensures now == Tick(old(now), old(ticks)) && ticks == Later(old(ticks))
    {
      now, ticks := Tick(now, ticks), Later(ticks);
    }

    // setitimer: a zero value disarms
    method SetITimer(delay: Timeval)
      requires Normal(delay)
      modifies this`timer
      ensures timer == if delay == Timeval(0, 0) then None else Some(TimerAdd(now, delay))
    {
      timer := if delay == Timeval(0, 0) then None else Some(TimerAdd(now, delay));
    }

    // The alarm takes its place in the list.
    method Enlist(a: Alarm) returns (first: bool)
      requires Ordered() && Normal(a.expiry) && !Before(a.expiry, now)
      modifies this`list, this`scheduled
      ensures Ordered() && scheduled == old(scheduled) + [a] && list == Inserted(old(list), a)
      ensures first <==> old(list) == [] || Before(a.expiry, old(list[0].expiry))
    {
      hide Sorted, StableSorted, Inserted;
      EnlistFacts(fired, list, a, scheduled);
      InsertedNormal(list, a);
      if list == [] || Before(a.expiry, list[0].expiry) {
        InsertedFirst(list, a);
        list := [a] + list;
        first := true;
      } else {
        var i := 0;
        InsertedFrom(list, a, 0);
        assert Inserted(list, a) == list[..0] + Inserted(list[0..], a);
        while i < |list| && !Before(a.expiry, list[i].expiry)
          invariant 0 <= i <= |list|
          invariant Inserted(list, a) == list[..i] + Inserted(list[i..], a)
          modifies {}
        {
          InsertedFrom(list, a, i);
          i := i + 1;
        }
        InsertedFrom(list, a, i);
        assert Inserted(list, a) == list[..i] + [a] + list[i..];
        list := list[..i] + [a] + list[i..];
        first := false;
      }
      scheduled := scheduled + [a];
    }

    /** Schedules, and fires what is overdue when the alarm comes first.  The timer is then set for the first
        alarm left, unless the clock reads its very expiry: a delay of zero turns the timer off. */
    method AlarmSchedule(seconds: nat, useconds: nat, cb: int) returns (a: Alarm, ghost called: Timeval)
      requires Valid() && useconds <= MILLION
      modifies this
      ensures Valid() && scheduled == old(scheduled) + [a] && a.cb == cb
      ensures called == Tick(old(now), old(ticks)) && !Before(now, called)
      ensures a.expiry == TimerAdd(called, Timeval(seconds, useconds))
      ensures old(list) == [] || Before(a.expiry, old(list[0].expiry)) ==>
                && Fired([a] + old(list), list, now) && fired + list == old(fired) + ([a] + old(list))
                && (list == [] ==> timer == old(timer))
                && (list != [] ==> timer == if list[0].expiry == now then None else Some(list[0].expiry))
                && var read := Tick(called, Later(old(ticks)));
                   if Before(a.expiry, read) then !Before(now, read)
                   else list == [a] + old(list) && now == read && ticks == Later(Later(old(ticks)))
      ensures Stray() <==> list == [] && old(timer).Some?
      ensures old(list) != [] && !Before(a.expiry, old(list[0].expiry)) ==>
                fired == old(fired) && list == Inserted(old(list), a) && timer == old(timer) && list[0] == old(list[0])
                && now == called && ticks == Later(old(ticks))
    {
      hide Sorted, StableSorted, Fired;
      GetTimeOfDay();
      var expiry := TimerAdd(now, Timeval(seconds, useconds));
      TimerAddIsNormal(now, Timeval(seconds, useconds));
      called := now;
      a := Alarm(expiry, cb);
      var first := Enlist(a);
      if first {
        ScheduleNext();
      }
    }

    // The timer is still set though nothing is left for it.
    ghost predicate Stray()
      reads this
    {
      list == [] && timer.Some?
    }

    /** SIGALRM, when its time has come.  The handler takes the first alarm without looking whether there is one:
        `crashed` is the null pointer it then follows, exactly when the timer has outlived the list. */
    method Signal() returns (crashed: bool)
      requires Valid() && timer.Some? && !Before(now, timer.value)
      modifies this
      ensures crashed <==> old(Stray())
      ensures crashed ==> fired == old(fired) && list == [] && scheduled == old(scheduled)
      ensures Valid() && !Stray() && scheduled == old(scheduled)
      ensures !crashed ==> Fired(old(list), list, now) && fired + list == old(fired + list) && |list| < |old(list)|
      ensures list == [] ==> timer == None
      ensures list != [] ==> timer == if list[0].expiry == now then None else Some(list[0].expiry)
    {
      timer := None;
      if list == [] {
        return true;
      }
      SigalrmH();
      crashed := false;
    }

    // The head's callback is made while it is still on the list.
    method SigalrmH()
      requires Ordered() && list != [] && !Before(now, list[0].expiry)
      modifies this
      ensures Ordered() && scheduled == old(scheduled) && !Before(now, old(now))
      ensures Fired(old(list), list, now) && fired + list == old(fired + list) && |list| < |old(list)|
      ensures list == [] ==> timer == old(timer)
      ensures list != [] ==> timer == if list[0].expiry == now then None else Some(list[0].expiry)
      decreases |list|, 0
    {
      hide Sorted, StableSorted;
      var alarm := list[0];
      assert fired + [alarm] + list[1..] == fired + list;
      fired := fired + [alarm];
      list := list[1..];
      if list != [] {
        ScheduleNext();
      }
    }

    // Fires all that is overdue and sets the timer for the first that is not.
    method ScheduleNext()
      requires Ordered() && list != []
      modifies this
      ensures Ordered() && scheduled == old(scheduled) && !Before(now, old(now))
      ensures Fired(old(list), list, now) && fired + list == old(fired + list)
      ensures list == [] ==> timer == old(timer)
      ensures list != [] ==> timer == if list[0].expiry == now then None else Some(list[0].expiry)
      ensures var read := Tick(old(now), old(ticks));
              if Before(old(list)[0].expiry, read) then !Before(now, read)
              else list == old(list) && now == read && ticks == Later(old(ticks))
      decreases |list|, 1
    {
      hide StableSorted;
      var expiry := list[0].expiry;
      GetTimeOfDay();
      if Before(expiry, now) {
        SigalrmH();
        return;
      }
      TimerSubAdd(expiry, now);
      SetITimer(TimerSub(expiry, now));
      assert forall i :: 0 <= i < |list| ==> (fired + list)[|fired| + i] == list[i];
    }
  }

  lemma EnlistFacts(fired: seq<Alarm>, list: seq<Alarm>, a: Alarm, scheduled: seq<Alarm>)
    requires fired + list == StableSorted(scheduled) && Sorted(fired + list)
    requires forall i :: 0 <= i < |fired| ==> !Before(a.expiry, fired[i].expiry)
    ensures fired + Inserted(list, a) == StableSorted(scheduled + [a]) && Sorted(fired + Inserted(list, a))
  {
    InsertedBehind(fired, list, a);
    InsertedSorted(fired + list, a);
    assert (scheduled + [a])[..|scheduled|] == scheduled;
  }

  lemma InsertedFirst(list: seq<Alarm>, a: Alarm)
    requires list == [] || Before(a.expiry, list[0].expiry)
    ensures Inserted(list, a) == [a] + list
  {}

  lemma InsertedFrom(list: seq<Alarm>, a: Alarm, i: nat)
    requires i <= |list|
    ensures i == 0 ==> Inserted(list, a) == list[..i] + Inserted(list[i..], a)
    ensures i == |list| || Before(a.expiry, list[i].expiry) ==>
              list[..i] + Inserted(list[i..], a) == list[..i] + [a] + list[i..]
    ensures i < |list| && !Before(a.expiry, list[i].expiry) ==>
              list[..i] + Inserted(list[i..], a) == list[..i + 1] + Inserted(list[i + 1..], a)
  {
    if i == 0 {
      assert list[0..] == list;
    }
    if i < |list| {
      assert list[i..][1..] == list[i + 1..];
    }
  }

  lemma InsertedNormal(list: seq<Alarm>, a: Alarm)
    requires Normal(a.expiry) && forall i :: 0 <= i < |list| ==> Normal(list[i].expiry)
    ensures forall i :: 0 <= i < |Inserted(list, a)| ==> Normal(Inserted(list, a)[i].expiry)
  {
    InsertedHas(list, a);
    forall i | 0 <= i < |Inserted(list, a)| ensures Normal(Inserted(list, a)[i].expiry) {
      assert Inserted(list, a)[i] in multiset(Inserted(list, a));
    }
  }

  // A first part of the list is gone, and what is left is not overdue.
  ghost predicate Fired(before: seq<Alarm>, after: seq<Alarm>, now: Timeval) {
    && |after| <= |before| && after == before[|before| - |after|..]
    && (forall i :: 0 <= i < |after| ==> !Before(after[i].expiry, now))
    && (forall i :: 0 <= i < |before| - |after| ==> !Before(now, before[i].expiry))
  }

  // The first alarm of a process, with the timer set for one second on.
  method OneSecondOn(ticks: seq<Timeval>) returns (m: Multiplexer, a: Alarm)
    ensures fresh(m) && m.Valid() && m.now == Timeval(0, 0) && m.ticks == ticks && m.list == [a] && m.fired == []
    ensures a.expiry == Timeval(1, 0) && m.timer == Some(Timeval(1, 0))
  {
    hide Multiplexer.Valid, Multiplexer.Ordered, Inserted, Multiplexer.Stray, Fired, Tick, Later;
    var zero := Timeval(0, 0);
    TwoZeros(ticks);
    m := new Multiplexer(zero, [zero, zero] + ticks);
    ghost var called;
    a, called := m.AlarmSchedule(1, 0, 1);
  }

  lemma TwoZeros(ticks: seq<Timeval>)
    ensures var zero := Timeval(0, 0);
            var all := [zero, zero] + ticks;
            Tick(zero, all) == zero && Tick(zero, Later(all)) == zero && Later(Later(all)) == ticks
  {
    var zero := Timeval(0, 0);
    assert ([zero, zero] + ticks)[1..] == [zero] + ticks;
    assert ([zero] + ticks)[1..] == ticks;
  }

  /** A run to the null pointer: the first alarm sets the timer for one second on; a second alarm, due at once, comes
      so late that both fire from the call that schedules it, and the timer that is left goes off for no alarm. */
  method TimerOutlivesItsAlarm() returns (m: Multiplexer, crashed: bool)
    ensures crashed && |m.fired| == 2
  {
    hide Multiplexer.Valid, Multiplexer.Ordered, Inserted;
    var first, second;
    m, first := OneSecondOn([Timeval(0, 0), Timeval(2, 0)]);
    ghost var called;
    second, called := m.AlarmSchedule(0, 0, 2);
    assert second.expiry == Timeval(0, 0);
    assert [second] + [first] == [second, first];
    assert m.list == [];
    crashed := m.Signal();
  }
}
