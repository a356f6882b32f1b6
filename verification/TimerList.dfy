/** The dispatcher's timers: a list kept in order of expiry. */
module TimerList {

  /** Nanoseconds in a millisecond. */
  const MS := 1_000_000

  /** A timer; serial is its place in the order of all timers ever created, period is in
      milliseconds and may be any int, expiry is a reading of the steady clock. */
  datatype TimerInfo = TimerInfo(serial: nat, period: int, expiry: int)
  {
    /** The identifier handed out: a 32-bit counter that starts at 1 and wraps around. */
    function Id(): int {
      IdOf(serial)
    }

    function Rearmed(now: int): TimerInfo {
      this.(expiry := now + period * MS)
    }
  }

  function IdOf(serial: nat): int {
    (serial + 1 + 0x8000_0000) % 0x1_0000_0000 - 0x8000_0000
  }

  /** Identifiers count up from 1, and after the greatest 32-bit number comes the least. */
  lemma IdsCountUp(serial: nat)
    ensures IdOf(0) == 1
    ensures IdOf(serial + 1) == if IdOf(serial) == 0x7FFF_FFFF then -0x8000_0000 else IdOf(serial) + 1
  {
  }

  /** A timer re-armed at a reading is due from one period later on, and otherwise as before. */
  lemma RearmedIsDue(t: TimerInfo, reading: int, now: int)
    ensures var u := t.Rearmed(reading);
      && u.serial == t.serial && u.period == t.period
      && (u.expiry <= now <==> now >= reading + t.period * 1_000_000)
  {
  }

  /** Two timers share an identifier exactly when a multiple of 2^32 timers lies between them. */
  lemma SameId(a: nat, b: nat)
    ensures IdOf(a) == IdOf(b) <==> (a - b) % 0x1_0000_0000 == 0
  {
  }

  ghost predicate Sorted(timers: seq<TimerInfo>) {
    forall i, j :: 0 <= i < j < |timers| ==> timers[i].expiry <= timers[j].expiry
  }

  ghost predicate Distinct(timers: seq<TimerInfo>) {
    forall i, j :: 0 <= i < j < |timers| ==> timers[i].serial != timers[j].serial
  }

  ghost predicate DistinctIds(timers: seq<TimerInfo>) {
    forall i, j :: 0 <= i < j < |timers| ==> timers[i].Id() != timers[j].Id()
  }

  /** Different timers share an identifier only when a multiple of 2^32 lies between them, so
      none do among the first 2^32 ever created. */
  lemma IdsDistinct(timers: seq<TimerInfo>)
    requires Distinct(timers)
    ensures DistinctIds(timers) <==>
            forall i, j :: 0 <= i < j < |timers| ==> (timers[i].serial - timers[j].serial) % 0x1_0000_0000 != 0
    ensures (forall t :: t in timers ==> t.serial < 0x1_0000_0000) ==> DistinctIds(timers)
  {
    hide IdOf;
    forall i, j | 0 <= i < j < |timers|
      ensures timers[i].Id() == timers[j].Id() <==> (timers[i].serial - timers[j].serial) % 0x1_0000_0000 == 0
      ensures timers[i] in timers && timers[j] in timers
    {
      SameId(timers[i].serial, timers[j].serial);
    }
  }

  function Insert(t: TimerInfo, timers: seq<TimerInfo>): seq<TimerInfo> {
    if timers == [] || t.expiry <= timers[0].expiry then [t] + timers
    else [timers[0]] + Insert(t, timers[1..])
  }

  /** list::sort: stable, by expiry. */
  function Sort(timers: seq<TimerInfo>): seq<TimerInfo> {
    if timers == [] then [] else Insert(timers[0], Sort(timers[1..]))
  }

  /** The timers that expire at time e, in list order. */
  ghost function ExpiringAt(timers: seq<TimerInfo>, e: int): seq<TimerInfo> {
    if timers == [] then []
    else (if timers[0].expiry == e then [timers[0]] else []) + ExpiringAt(timers[1..], e)
  }

  lemma {:induction false} InsertKeeps(t: TimerInfo, timers: seq<TimerInfo>)
    ensures forall u :: u in Insert(t, timers) <==> u == t || u in timers
    ensures |Insert(t, timers)| == |timers| + 1
  {
    if timers != [] {
      InsertKeeps(t, timers[1..]);
      assert timers == [timers[0]] + timers[1..];
    }
  }

  lemma {:induction false} InsertSorts(t: TimerInfo, timers: seq<TimerInfo>)
    requires Sorted(timers)
    ensures Sorted(Insert(t, timers))
  {
    if timers != [] && t.expiry > timers[0].expiry {
      var head, tail := timers[0], timers[1..];
      InsertSorts(t, tail);
      InsertKeeps(t, tail);
      HeadFirst(head, Insert(t, tail));
    }
  }

  lemma HeadFirst(head: TimerInfo, tail: seq<TimerInfo>)
    requires Sorted(tail) && forall u :: u in tail ==> head.expiry <= u.expiry
    ensures Sorted([head] + tail)
  {
  }

  lemma {:induction false} InsertStable(t: TimerInfo, timers: seq<TimerInfo>, e: int)
    requires Sorted(timers)
    ensures ExpiringAt(Insert(t, timers), e) == ExpiringAt([t] + timers, e)
  {
    assert ([t] + timers)[1..] == timers;
    if timers != [] && t.expiry > timers[0].expiry {
      var head, tail := timers[0], timers[1..];
      InsertStable(t, tail, e);
      assert ([head] + Insert(t, tail))[1..] == Insert(t, tail) && ([t] + tail)[1..] == tail;
    }
  }

  /** Sorting gives a sorted list of the same timers that keeps the order of equals. */
  lemma {:induction false} SortCorrect(timers: seq<TimerInfo>)
    ensures Sorted(Sort(timers))
    ensures forall u :: u in Sort(timers) <==> u in timers
    ensures forall e :: ExpiringAt(Sort(timers), e) == ExpiringAt(timers, e)
    ensures |Sort(timers)| == |timers|
  {
    hide Sorted;
    hide Insert;
    if timers != [] {
      var head, tail := timers[0], timers[1..];
      assert timers == [head] + tail;
      SortCorrect(tail);
      InsertSorts(head, Sort(tail));
      InsertKeeps(head, Sort(tail));
      forall e
        ensures ExpiringAt(Sort(timers), e) == ExpiringAt(timers, e)
      {
        InsertStable(head, Sort(tail), e);
        assert ([head] + Sort(tail))[1..] == Sort(tail);
      }
    } else {
      EmptySorted();
    }
  }

  lemma EmptySorted()
    ensures Sorted([])
  {
  }

  lemma {:induction false} ExpiringMembers(timers: seq<TimerInfo>, e: int)
    ensures ExpiringAt(timers, e) != [] <==> exists i :: 0 <= i < |timers| && timers[i].expiry == e
  {
    if timers != [] {
      ExpiringMembers(timers[1..], e);
      if ExpiringAt(timers[1..], e) != [] {
        var i :| 0 <= i < |timers[1..]| && timers[1..][i].expiry == e;
        assert timers[i + 1].expiry == e;
      }
      if i :| 0 <= i < |timers| && timers[i].expiry == e {
        assert i > 0 ==> timers[1..][i - 1].expiry == e;
      }
    }
  }

  // The first timer of one list bounds that of another with the same timers.
  lemma FirstNotLater(a: seq<TimerInfo>, b: seq<TimerInfo>)
    requires a != [] && Sorted(b) && ExpiringAt(b, a[0].expiry) == ExpiringAt(a, a[0].expiry)
    ensures b != [] && b[0].expiry <= a[0].expiry
  {
    ExpiringMembers(b, a[0].expiry);
  }

  lemma SameFirst(a: seq<TimerInfo>, b: seq<TimerInfo>)
    requires a != [] && Sorted(a) && Sorted(b) && forall e :: ExpiringAt(a, e) == ExpiringAt(b, e)
    ensures b != [] && a[0] == b[0]
  {
    hide Sorted;
    FirstNotLater(a, b);
    FirstNotLater(b, a);
    var e := a[0].expiry;
    assert ExpiringAt(a, e)[0] == a[0] && ExpiringAt(b, e)[0] == b[0];
  }

  lemma SameRest(a: seq<TimerInfo>, b: seq<TimerInfo>, e: int)
    requires a != [] && b != [] && a[0] == b[0] && ExpiringAt(a, e) == ExpiringAt(b, e)
    ensures ExpiringAt(a[1..], e) == ExpiringAt(b[1..], e)
  {
    var n := if a[0].expiry == e then 1 else 0;
    assert ExpiringAt(a[1..], e) == ExpiringAt(a, e)[n..];
    assert ExpiringAt(b[1..], e) == ExpiringAt(b, e)[n..];
  }

  /** Those two facts fix the result, so it does not matter how the library sorts. */
  lemma {:induction false} SortUnique(a: seq<TimerInfo>, b: seq<TimerInfo>)
    requires Sorted(a) && Sorted(b)
    requires forall e :: ExpiringAt(a, e) == ExpiringAt(b, e)
    ensures a == b
    decreases |a|
  {
    if a == [] {
      if b != [] {
        SameFirst(b, a);
      }
    } else {
      SameFirst(a, b);
      hide ExpiringAt;
      forall e
        ensures ExpiringAt(a[1..], e) == ExpiringAt(b[1..], e)
      {
        SameRest(a, b, e);
      }
      SortUnique(a[1..], b[1..]);
      assert a == [a[0]] + a[1..] && b == [b[0]] + b[1..];
    }
  }

  ghost predicate Fresh(serial: nat, timers: seq<TimerInfo>) {
    forall t :: t in timers ==> t.serial != serial
  }

  lemma {:induction false} InsertDistinct(t: TimerInfo, timers: seq<TimerInfo>)
    requires Sorted(timers) && Distinct(timers) && Fresh(t.serial, timers)
    ensures Distinct(Insert(t, timers))
  {
    if timers != [] && t.expiry > timers[0].expiry {
      var head, tail := timers[0], timers[1..];
      InsertDistinct(t, tail);
      InsertKeeps(t, tail);
      var inserted := Insert(t, tail);
      forall i, j | 0 <= i < j < |inserted| + 1
        ensures ([head] + inserted)[i].serial != ([head] + inserted)[j].serial
      {
        assert inserted[j - 1] in inserted;
        if i == 0 && inserted[j - 1] in tail {
          var k :| 0 <= k < |tail| && tail[k] == inserted[j - 1];
          assert timers[k + 1] == inserted[j - 1];
        }
      }
    }
  }

  lemma {:induction false} SortDistinct(timers: seq<TimerInfo>)
    requires Distinct(timers)
    ensures Distinct(Sort(timers))
  {
    if timers != [] {
      SortDistinct(timers[1..]);
      SortCorrect(timers[1..]);
      InsertDistinct(timers[0], Sort(timers[1..]));
    }
  }

  /** list::remove_if on an identifier. */
  function Without(timers: seq<TimerInfo>, id: int): seq<TimerInfo> {
    if timers == [] then []
    else (if timers[0].Id() == id then [] else [timers[0]]) + Without(timers[1..], id)
  }

  /** Exactly the timers with that identifier go, and the others keep their order. */
  lemma {:induction false} WithoutKeeps(timers: seq<TimerInfo>, id: int)
    ensures forall t :: t in Without(timers, id) <==> t in timers && t.Id() != id
    ensures |Without(timers, id)| <= |timers|
    ensures |Without(timers, id)| == |timers| <==> forall t :: t in timers ==> t.Id() != id
  {
    if timers != [] {
      var head, tail := timers[0], timers[1..];
      assert timers == [head] + tail;
      WithoutKeeps(tail, id);
    }
  }

  /** Removal looks at one timer after the other, so those that stay keep their order. */
  lemma {:induction false} WithoutConcat(a: seq<TimerInfo>, b: seq<TimerInfo>, id: int)
    ensures Without(a + b, id) == Without(a, id) + Without(b, id)
  {
    if a == [] {
      assert a + b == b;
    } else {
      assert (a + b)[1..] == a[1..] + b;
      WithoutConcat(a[1..], b, id);
    }
  }

  lemma WithoutOne(t: TimerInfo, id: int)
    ensures Without([t], id) == if t.Id() == id then [] else [t]
  {
  }

  lemma {:induction false} WithoutDistinct(timers: seq<TimerInfo>, id: int)
    requires Distinct(timers)
    ensures Distinct(Without(timers, id))
  {
    if timers != [] {
      var head, rest := timers[0], Without(timers[1..], id);
      WithoutDistinct(timers[1..], id);
      WithoutKeeps(timers[1..], id);
      forall j | 0 <= j < |rest|
        ensures rest[j].serial != head.serial
      {
        assert rest[j] in rest;
        var k :| 0 <= k < |timers[1..]| && timers[1..][k] == rest[j];
        assert timers[k + 1] == rest[j];
      }
    }
  }

  lemma {:induction false} WithoutSorted(timers: seq<TimerInfo>, id: int)
    requires Sorted(timers)
    ensures Sorted(Without(timers, id))
  {
    if timers != [] {
      var head, rest := timers[0], Without(timers[1..], id);
      WithoutSorted(timers[1..], id);
      WithoutKeeps(timers[1..], id);
      forall j | 0 <= j < |rest|
        ensures head.expiry <= rest[j].expiry
      {
        assert rest[j] in rest;
      }
    }
  }

  // ---- One pass over the timers ----

  /** The steady clock never runs backwards. */
  ghost predicate Monotone(at: nat -> int) {
    forall i: nat, j: nat :: i <= j ==> at(i) <= at(j)
  }

  /** A pass that starts at clock reading k has fired the first n timers: each was checked
      with one reading, found due, and re-armed from the next. */
  ghost predicate PassedOver(before: seq<TimerInfo>, after: seq<TimerInfo>, at: nat -> int, k: nat, n: nat) {
    && n <= |before| == |after|
    && (forall i :: 0 <= i < n ==>
        before[i].expiry <= at(k + 2 * i) && after[i] == before[i].Rearmed(at(k + 2 * i + 1)))
    && (forall i :: n <= i < |before| ==> after[i] == before[i])
  }

  /** The pass is over: at the end of the list, or at the first timer that was not due. */
  ghost predicate IsPass(before: seq<TimerInfo>, after: seq<TimerInfo>, at: nat -> int, k: nat, n: nat) {
    && PassedOver(before, after, at, k, n)
    && (n < |before| ==> at(k + 2 * n) < before[n].expiry)
  }

  lemma PassBegins(before: seq<TimerInfo>, at: nat -> int, k: nat)
    ensures PassedOver(before, before, at, k, 0)
  {
  }

  lemma PassReaches(before: seq<TimerInfo>, middle: seq<TimerInfo>, at: nat -> int, k: nat, i: nat)
    requires PassedOver(before, middle, at, k, i) && i < |before|
    ensures |middle| == |before| && middle[i] == before[i]
  {
  }

  lemma PassEnds(before: seq<TimerInfo>, after: seq<TimerInfo>, at: nat -> int, k: nat, n: nat)
    requires PassedOver(before, after, at, k, n) && (n < |before| ==> at(k + 2 * n) < before[n].expiry)
    ensures IsPass(before, after, at, k, n)
  {
  }

  lemma PassOne(before: seq<TimerInfo>, middle: seq<TimerInfo>, at: nat -> int, k: nat, i: nat)
    requires PassedOver(before, middle, at, k, i) && i < |before| && middle[i].expiry <= at(k + 2 * i)
    ensures PassedOver(before, middle[i := middle[i].Rearmed(at(k + 2 * i + 1))], at, k, i + 1)
  {
  }

  /** From a sorted list every timer that was due when the pass started fires, exactly once
      and none early, and what did not fire is left sorted. */
  lemma PassFiresDue(before: seq<TimerInfo>, after: seq<TimerInfo>, at: nat -> int, k: nat, n: nat)
    requires IsPass(before, after, at, k, n) && Monotone(at) && Sorted(before)
    ensures forall i :: 0 <= i < |before| && before[i].expiry <= at(k) ==> i < n
    ensures Sorted(after[n..])
  {
    if n < |before| {
      assert at(k) <= at(k + 2 * n);
    }
    assert after[n..] == before[n..];
  }

  /** A timer that was re-armed at a reading fires in a pass over a sorted list that begins one
      period later or after that, and in no pass that checks it earlier. */
  lemma FiresAgain(t: TimerInfo, reading: int, before: seq<TimerInfo>, after: seq<TimerInfo>, at: nat -> int,
                   k: nat, n: nat, j: nat)
    requires IsPass(before, after, at, k, n) && Monotone(at) && j < |before| && before[j] == t.Rearmed(reading)
    ensures Sorted(before) && at(k) >= reading + t.period * 1_000_000 ==> j < n
    ensures j < n ==> at(k + 2 * j) >= reading + t.period * 1_000_000
  {
    if Sorted(before) {
      PassFiresDue(before, after, at, k, n);
    }
  }

  ghost predicate DueFirst(timers: seq<TimerInfo>, now: int) {
    forall i, j :: 0 <= i < j < |timers| && timers[j].expiry <= now ==> timers[i].expiry <= now
  }

  /** Whatever the order, all due timers fire exactly when every timer in front of one has
      expired by the time the loop comes to it. It is enough that the due timers stand in
      front; and when no time passes during the pass, that is also needed. */
  lemma PassFiresDueIff(before: seq<TimerInfo>, after: seq<TimerInfo>, at: nat -> int, k: nat, n: nat)
    requires IsPass(before, after, at, k, n) && Monotone(at)
    ensures (forall i :: 0 <= i < |before| && before[i].expiry <= at(k) ==> i < n) <==>
            forall i, j :: 0 <= i < j < |before| && before[j].expiry <= at(k) ==> before[i].expiry <= at(k + 2 * i)
    ensures DueFirst(before, at(k)) ==> forall i :: 0 <= i < |before| && before[i].expiry <= at(k) ==> i < n
    ensures at(k + 2 * |before|) == at(k) ==>
      (DueFirst(before, at(k)) <==> forall i :: 0 <= i < |before| && before[i].expiry <= at(k) ==> i < n)
  {
    if n < |before| {
      assert at(k) <= at(k + 2 * n);
    }
    if at(k + 2 * |before|) == at(k) {
      forall i | 0 <= i < n
        ensures before[i].expiry <= at(k)
      {
        assert at(k + 2 * i) <= at(k + 2 * |before|);
      }
    }
  }

  lemma PassStarts(before: seq<TimerInfo>, after: seq<TimerInfo>, at: nat -> int, k: nat, n: nat)
    requires IsPass(before, after, at, k, n) && before != [] && before[0].expiry <= at(k)
    ensures n > 0
  {
  }

  lemma PassStops(before: seq<TimerInfo>, after: seq<TimerInfo>, at: nat -> int, k: nat, n: nat, i: nat)
    requires IsPass(before, after, at, k, n) && i < |before| && at(k + 2 * i) < before[i].expiry
    ensures n <= i
  {
  }

  /** Firing re-arms in place and does not sort again, so the next pass can miss a due timer,
      even from a list that was sorted: while the first of two timers is not due, the second
      does not fire however late it is. */
  lemma SecondPassStarves(a: TimerInfo, b: TimerInfo, middle: seq<TimerInfo>, after: seq<TimerInfo>,
                          first: nat -> int, second: nat -> int, n: nat, m: nat)
    requires Monotone(first) && Monotone(second)
    requires IsPass([a, b], middle, first, 0, n) && IsPass(middle, after, second, 0, m)
    requires a.expiry <= first(0) && first(2) < b.expiry
    requires second(0) < first(1) + a.period * 1_000_000
    ensures Sorted([a, b]) && n == 1 && m == 0
    ensures after == middle == [TimerInfo(a.serial, a.period, first(1) + a.period * 1_000_000), b]
  {
    PassStarts([a, b], middle, first, 0, n);
    PassStops([a, b], middle, first, 0, n, 1);
    assert middle[0] == [a, b][0].Rearmed(first(0 + 2 * 0 + 1));
    PassStops(middle, after, second, 0, m, 0);
    assert first(0) <= first(2);
  }

  /** A timer 40 ns overdue that is missed: the pass at 5 ns re-arms the one in front of it far
      into the future, and the pass at 50 ns stops there. */
  lemma MissedTimer()
    ensures var a, b := TimerInfo(0, 100, 0), TimerInfo(1, 100, 10);
      var first, second := (_: nat) => 5, (_: nat) => 50;
      var middle := [TimerInfo(0, 100, 100_000_005), b];
      && Monotone(first) && Monotone(second) && Sorted([a, b])
      && IsPass([a, b], middle, first, 0, 1)
      && IsPass(middle, middle, second, 0, 0) && b.expiry + 40 == second(0)
  {
    var a, b := TimerInfo(0, 100, 0), TimerInfo(1, 100, 10);
    assert [a, b][0] == a && [a, b][1] == b;
    assert [a.Rearmed(5), b][0] == a.Rearmed(5);
  }

  // ---- How long to wait ----

  /** chrono::ceil to milliseconds. */
  function CeilMs(ns: int): int {
    -((-ns) / MS)
  }

  /** The wait reaches the expiry and overshoots by less than a millisecond, unless the timer
      is overdue by a millisecond or more: then the timeout is negative, which for epoll_wait
      means no timeout at all. */
  lemma WaitReachesExpiry(now: int, expiry: int)
    ensures var t := CeilMs(expiry - now);
      && (t < 0 <==> now >= expiry + 1_000_000)
      && expiry <= now + t * 1_000_000 < expiry + 1_000_000
  {
  }

  /** A timer overdue by exactly a millisecond: the timeout is -1, wait without limit. */
  lemma EndlessWait(expiry: int)
    ensures CeilMs(expiry - (expiry + 1_000_000)) == -1
  {
  }

  /** Waiting out the timeout and then passing over the list fires at least the first timer, and
      if the list is sorted, every timer that is due by then. */
  lemma WaitThenPass(before: seq<TimerInfo>, after: seq<TimerInfo>, at: nat -> int, w: nat, k: nat, n: nat)
    requires IsPass(before, after, at, k, n) && Monotone(at)
    ensures before != [] && at(k) >= at(w) + CeilMs(before[0].expiry - at(w)) * 1_000_000 ==> n > 0
    ensures Sorted(before) ==> forall i :: 0 <= i < |before| && before[i].expiry <= at(k) ==> i < n
  {
    if before != [] && at(k) >= at(w) + CeilMs(before[0].expiry - at(w)) * 1_000_000 {
      WaitReachesExpiry(at(w), before[0].expiry);
      PassStarts(before, after, at, k, n);
    }
    if Sorted(before) {
      PassFiresDue(before, after, at, k, n);
    }
  }
}
