/** What the surroundings of a downloader do: the reads that other threads make, how the waits of
    src/downloader/downloader.c for a chunk go, and what the peer sends.  All of it is given in
    advance, so that a contract can say what follows from it; and any of it may be given. */
module DownloadSchedule {
  import opened ReadRequests

  // fsfuse_read as another thread calls it
  datatype Request = Request(req: nat, size: nat, off: nat)

  // One return of pthread_cond_timedwait, and the reads queued before the mutex was had again.
  datatype Wake = Wake(timedOut: bool, arrivals: seq<Request>)

  /** One wait of chunk_get_next: the reads queued before it had the mutex, and the wake-ups as far as
      they are needed.  When they run out the wait times out, with nothing queued meanwhile. */
  datatype Wait = Wait(early: seq<Request>, wakes: seq<Wake>)

  /** One call of fetcher_fetch_body: whether there was a peer to ask, the sizes of the buffers that it
      sends as far as the file goes, and the code the transfer ends with unless it is cut short. */
  datatype Transfer = Transfer(found: bool, buffers: seq<nat>, rc: int)

  function WaitAt(script: seq<Wait>, i: nat): Wait {
    if i < |script| then script[i] else Wait([], [])
  }

  // ---------- Arrivals ----------

  // The reads that get past the asserts; the others end the process.
  function Accepting(length: nat, rs: seq<Request>): (r: seq<Request>)
    ensures |r| <= |rs|
    decreases |rs|
  {
    if rs == [] then []
    else
      var last := rs[|rs| - 1];
      Accepting(length, rs[..|rs| - 1]) + if Accepted(last.off, last.size, length) then [last] else []
  }

  predicate Brings(length: nat, rs: seq<Request>) {
    exists i :: 0 <= i < |rs| && Accepted(rs[i].off, rs[i].size, length)
  }

  lemma {:induction false} BringsIsAccepting(length: nat, rs: seq<Request>)
    ensures Brings(length, rs) <==> Accepting(length, rs) != []
    decreases |rs|
  {
    if rs != [] {
      var n := |rs| - 1;
      BringsIsAccepting(length, rs[..n]);
      if Brings(length, rs[..n]) {
        var i :| 0 <= i < n && Accepted(rs[..n][i].off, rs[..n][i].size, length);
        assert Accepted(rs[i].off, rs[i].size, length);
      }
      if Brings(length, rs) && !Accepted(rs[n].off, rs[n].size, length) {
        var i :| 0 <= i < |rs| && Accepted(rs[i].off, rs[i].size, length);
        assert rs[..n][i] == rs[i];
      }
    }
  }

  // Those of one read, and those of more.
  lemma {:induction false} AcceptingParts(length: nat, rs: seq<Request>, ss: seq<Request>, r: Request)
    ensures Accepting(length, [r]) == if Accepted(r.off, r.size, length) then [r] else []
    ensures Accepting(length, rs + ss) == Accepting(length, rs) + Accepting(length, ss)
    decreases |ss|
  {
    assert [r][..0] == [];
    if ss == [] {
      assert rs + ss == rs;
    } else {
      var n := |ss| - 1;
      assert (rs + ss)[..|rs + ss| - 1] == rs + ss[..n];
      AcceptingParts(length, rs, ss[..n], r);
    }
  }

  // How many reads are still to come, in waits i and later.
  function InWakes(wakes: seq<Wake>): nat
    decreases |wakes|
  {
    if wakes == [] then 0 else |wakes[0].arrivals| + InWakes(wakes[1..])
  }

  function Coming(script: seq<Wait>, i: nat): nat
    decreases |script| - i
  {
    if i >= |script| then 0 else |script[i].early| + InWakes(script[i].wakes) + Coming(script, i + 1)
  }

  lemma ComingAt(script: seq<Wait>, i: nat)
    ensures Coming(script, i) == |WaitAt(script, i).early| + InWakes(WaitAt(script, i).wakes) + Coming(script, i + 1)
  {}

  // ---------- How a wait ends ----------

  // Whether it timed out, and whether the last look at the heap found a chunk.
  datatype Outcome = Outcome(timedOut: bool, found: bool)

  // From a look at an empty heap on.
  function Scan(length: nat, wakes: seq<Wake>): Outcome
    decreases |wakes|
  {
    if wakes == [] then Outcome(true, false)
    else if Brings(length, wakes[0].arrivals) then Outcome(wakes[0].timedOut, true)
    else if wakes[0].timedOut then Outcome(true, false)
    else Scan(length, wakes[1..])
  }

  function EndOf(length: nat, empty: bool, w: Wait): Outcome {
    if !empty || Brings(length, w.early) then Outcome(false, true) else Scan(length, w.wakes)
  }

  // The wait times out, and the look at the heap after the time-out finds a chunk all the same.
  predicate Late(length: nat, empty: bool, w: Wait) {
    EndOf(length, empty, w) == Outcome(true, true)
  }

  predicate LateWake(length: nat, wake: Wake) {
    wake.timedOut && Brings(length, wake.arrivals)
  }

  predicate InTimeWake(length: nat, wake: Wake) {
    !wake.timedOut && Brings(length, wake.arrivals)
  }

  predicate Idle(length: nat, wake: Wake) {
    !wake.timedOut && !Brings(length, wake.arrivals)
  }

  lemma {:induction false} ScanIsLate(length: nat, wakes: seq<Wake>)
    ensures Scan(length, wakes) == Outcome(true, true) <==>
              exists j :: 0 <= j < |wakes| && LateWake(length, wakes[j]) && forall i :: 0 <= i < j ==> Idle(length, wakes[i])
    decreases |wakes|
  {
    if wakes != [] {
      var rest := wakes[1..];
      ScanIsLate(length, rest);
      if Idle(length, wakes[0]) {
        if j :| 0 <= j < |rest| && LateWake(length, rest[j]) && forall i :: 0 <= i < j ==> Idle(length, rest[i]) {
          assert LateWake(length, wakes[j + 1]) && forall i :: 0 <= i < j + 1 ==> Idle(length, wakes[i]) by {
            assert forall i :: 0 < i < j + 1 ==> wakes[i] == rest[i - 1];
          }
        }
        if j :| 0 <= j < |wakes| && LateWake(length, wakes[j]) && forall i :: 0 <= i < j ==> Idle(length, wakes[i]) {
          assert LateWake(length, rest[j - 1]) && forall i :: 0 <= i < j - 1 ==> Idle(length, rest[i]) by {
            assert forall i :: 0 <= i < j - 1 ==> rest[i] == wakes[i + 1];
          }
        }
      } else if LateWake(length, wakes[0]) {
        assert Scan(length, wakes) == Outcome(true, true);
      }
    }
  }

  /** A chunk is thrown away exactly when the wait found the heap empty, nothing came of the wake-ups up to
      one that was a time-out, and a read was queued before the mutex was had again after that. */
  lemma LateExactly(length: nat, empty: bool, w: Wait)
    ensures Late(length, empty, w) <==>
              && empty && !Brings(length, w.early)
              && exists j :: 0 <= j < |w.wakes| && LateWake(length, w.wakes[j])
                          && forall i :: 0 <= i < j ==> Idle(length, w.wakes[i])
  {
    ScanIsLate(length, w.wakes);
  }

  lemma {:induction false} ScanIsInTime(length: nat, wakes: seq<Wake>)
    ensures Scan(length, wakes) == Outcome(false, true) <==>
              exists j :: 0 <= j < |wakes| && InTimeWake(length, wakes[j]) && forall i :: 0 <= i < j ==> Idle(length, wakes[i])
    ensures Scan(length, wakes).timedOut || Scan(length, wakes).found
    decreases |wakes|
  {
    if wakes != [] {
      var rest := wakes[1..];
      ScanIsInTime(length, rest);
      if Idle(length, wakes[0]) {
        if j :| 0 <= j < |rest| && InTimeWake(length, rest[j]) && forall i :: 0 <= i < j ==> Idle(length, rest[i]) {
          assert InTimeWake(length, wakes[j + 1]) && forall i :: 0 <= i < j + 1 ==> Idle(length, wakes[i]) by {
            assert forall i :: 0 < i < j + 1 ==> wakes[i] == rest[i - 1];
          }
        }
        if j :| 0 <= j < |wakes| && InTimeWake(length, wakes[j]) && forall i :: 0 <= i < j ==> Idle(length, wakes[i]) {
          assert InTimeWake(length, rest[j - 1]) && forall i :: 0 <= i < j - 1 ==> Idle(length, rest[i]) by {
            assert forall i :: 0 <= i < j - 1 ==> rest[i] == wakes[i + 1];
          }
        }
      } else if InTimeWake(length, wakes[0]) {
        assert Scan(length, wakes) == Outcome(false, true);
      }
    }
  }

  /** A chunk is had in time exactly when there was one at the first look, or when nothing came of the wake-ups up to
      one that was no time-out, and a read was queued before the mutex was had again after that.  Every other wait
      times out. */
  lemma InTimeExactly(length: nat, empty: bool, w: Wait)
    ensures EndOf(length, empty, w) == Outcome(false, true) <==>
              || !empty || Brings(length, w.early)
              || exists j :: 0 <= j < |w.wakes| && !w.wakes[j].timedOut && Brings(length, w.wakes[j].arrivals)
                          && forall i :: 0 <= i < j ==> Idle(length, w.wakes[i])
    ensures EndOf(length, empty, w) != Outcome(false, true) ==> EndOf(length, empty, w).timedOut
  {
    ScanIsInTime(length, w.wakes);
    assert forall j :: 0 <= j < |w.wakes| ==>
      (InTimeWake(length, w.wakes[j]) <==> !w.wakes[j].timedOut && Brings(length, w.wakes[j].arrivals));
  }

  // Of the waits made, given for each whether it found the heap empty, how many threw a chunk away.
  function Lates(length: nat, script: seq<Wait>, waits: seq<bool>): nat
    decreases |waits|
  {
    if waits == [] then 0
    else
      var n := |waits| - 1;
      Lates(length, script, waits[..n]) + if Late(length, waits[n], WaitAt(script, n)) then 1 else 0
  }

  lemma LatesSnoc(length: nat, script: seq<Wait>, waits: seq<bool>, empty: bool)
    ensures Lates(length, script, waits + [empty])
         == Lates(length, script, waits) + if Late(length, empty, WaitAt(script, |waits|)) then 1 else 0
  {
    assert (waits + [empty])[..|waits|] == waits;
  }

  predicate NeverLate(length: nat, script: seq<Wait>) {
    forall i, j :: 0 <= i < |script| && 0 <= j < |script[i].wakes| ==> !LateWake(length, script[i].wakes[j])
  }

  lemma {:induction false} NeverLateIsNoLates(length: nat, script: seq<Wait>, waits: seq<bool>)
    requires NeverLate(length, script)
    ensures Lates(length, script, waits) == 0
    decreases |waits|
  {
    if waits != [] {
      var n := |waits| - 1;
      NeverLateIsNoLates(length, script, waits[..n]);
      LateExactly(length, waits[n], WaitAt(script, n));
    }
  }

  // ---------- Fetches ----------

  // How much the peer sends in all, if the file goes on for so long.
  function Sum(buffers: seq<nat>): nat
    decreases |buffers|
  {
    if buffers == [] then 0 else Sum(buffers[..|buffers| - 1]) + buffers[|buffers| - 1]
  }

  // How much a fetch from `start` brings if it is not cut short.
  function Sent(length: nat, start: nat, t: Transfer): (n: nat)
    ensures start <= length ==> n <= length - start && n <= Sum(t.buffers) && (n == length - start || n == Sum(t.buffers))
  {
    if start >= length then 0 else Min(Sum(t.buffers), length - start)
  }

  // That is the whole of what the buffers hold.
  lemma {:induction false} SumParts(a: seq<nat>, b: seq<nat>, n: nat)
    ensures Sum([n]) == n && Sum(a + b) == Sum(a) + Sum(b)
    decreases |b|
  {
    assert [n][..0] == [];
    if b == [] {
      assert a + b == a;
    } else {
      assert (a + b)[..|a + b| - 1] == a + b[..|b| - 1];
      SumParts(a, b[..|b| - 1], n);
    }
  }

  // By the first i buffers.
  ghost function SentSoFar(length: nat, start: nat, t: Transfer, i: nat): nat
    requires i <= |t.buffers|
  {
    if start >= length then 0 else Min(Sum(t.buffers[..i]), length - start)
  }

  lemma NothingSent(length: nat, start: nat, t: Transfer)
    ensures SentSoFar(length, start, t, 0) == 0 && !CallsBy(length, start, t, 0)
  {}

  lemma SentStep(length: nat, start: nat, t: Transfer, i: nat)
    requires i < |t.buffers| && start <= length
    ensures var sofar := SentSoFar(length, start, t, i);
            && start + sofar <= length
            && SentSoFar(length, start, t, i + 1) == sofar + Min(t.buffers[i], length - start - sofar)
  {
    SumSnoc(t.buffers, i);
  }

  lemma SentGrows(length: nat, start: nat, t: Transfer, i: nat)
    requires i <= |t.buffers|
    ensures SentSoFar(length, start, t, i) <= Sent(length, start, t)
  {
    SumGrows(t.buffers, i);
  }

  lemma SentAll(length: nat, start: nat, t: Transfer)
    ensures SentSoFar(length, start, t, |t.buffers|) == Sent(length, start, t)
  {
    assert t.buffers[..|t.buffers|] == t.buffers;
  }

  // The callback is called at all: past the end of the file it is so for empty buffers only.
  predicate Calls(length: nat, start: nat, t: Transfer) {
    t.found && CallsBy(length, start, t, |t.buffers|)
  }

  predicate CallsBy(length: nat, start: nat, t: Transfer, i: nat)
    requires i <= |t.buffers|
  {
    exists j :: 0 <= j < i && (t.buffers[j] == 0 || start < length)
  }

  lemma CallsByStep(length: nat, start: nat, t: Transfer, i: nat)
    requires i < |t.buffers|
    ensures CallsBy(length, start, t, i + 1) <==> (CallsBy(length, start, t, i) || t.buffers[i] == 0 || start < length)
    ensures i > 0 && start < length ==> CallsBy(length, start, t, i)
  {
    if CallsBy(length, start, t, i) {
      var j :| 0 <= j < i && (t.buffers[j] == 0 || start < length);
      assert t.buffers[j] == 0 || start < length;
    }
    assert i > 0 && start < length ==> t.buffers[0] == 0 || start < length;
    assert t.buffers[i] == t.buffers[i];
  }

  lemma SumSnoc(buffers: seq<nat>, i: nat)
    requires i < |buffers|
    ensures Sum(buffers[..i + 1]) == Sum(buffers[..i]) + buffers[i]
  {
    assert buffers[..i + 1][..i] == buffers[..i];
  }

  lemma {:induction false} SumGrows(buffers: seq<nat>, i: nat)
    requires i <= |buffers|
    ensures Sum(buffers[..i]) <= Sum(buffers)
    decreases |buffers| - i
  {
    if i < |buffers| {
      SumSnoc(buffers, i);
      SumGrows(buffers, i + 1);
    } else {
      assert buffers[..i] == buffers;
    }
  }

  // A fetch from `start` brings at least one byte.
  predicate Delivers(length: nat, start: nat, t: Transfer) {
    t.found && start < length && exists i :: 0 <= i < |t.buffers| && t.buffers[i] > 0
  }

  lemma {:induction false} SumOfSome(buffers: seq<nat>)
    ensures Sum(buffers) > 0 <==> exists i :: 0 <= i < |buffers| && buffers[i] > 0
    decreases |buffers|
  {
    if buffers != [] {
      var n := |buffers| - 1;
      SumOfSome(buffers[..n]);
      if i :| 0 <= i < |buffers| && buffers[i] > 0 {
        assert i < n ==> buffers[..n][i] > 0;
      }
      if i :| 0 <= i < n && buffers[..n][i] > 0 {
        assert buffers[i] > 0;
      }
    }
  }

  // It does exactly if it would bring something when it is not cut short.
  lemma DeliversExactly(length: nat, start: nat, t: Transfer)
    ensures Delivers(length, start, t) <==> t.found && Sent(length, start, t) > 0
    ensures Delivers(length, start, t) ==> Calls(length, start, t)
  {
    SumOfSome(t.buffers);
    if Delivers(length, start, t) {
      var i :| 0 <= i < |t.buffers| && t.buffers[i] > 0;
      assert t.buffers[i] == 0 || start < length;
    }
  }

  // Of the fetches made, given where each started, how many delivered.
  function Productive(length: nat, transfers: seq<Transfer>, starts: seq<nat>): nat
    requires |starts| <= |transfers|
    decreases |starts|
  {
    if starts == [] then 0
    else
      var n := |starts| - 1;
      Productive(length, transfers, starts[..n]) + if Delivers(length, starts[n], transfers[n]) then 1 else 0
  }

  lemma ProductiveNone(length: nat, transfers: seq<Transfer>)
    ensures Productive(length, transfers, []) == 0
  {}

  lemma ProductiveSnoc(length: nat, transfers: seq<Transfer>, starts: seq<nat>, start: nat)
    requires |starts| < |transfers|
    ensures Productive(length, transfers, starts + [start])
         == Productive(length, transfers, starts) + if Delivers(length, start, transfers[|starts|]) then 1 else 0
  {
    assert (starts + [start])[..|starts|] == starts;
  }
}
