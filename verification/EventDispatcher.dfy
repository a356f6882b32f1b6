/** The event dispatcher: adding, removing and firing timers. */
module EventDispatcher {
  import opened TimerList

  /** A steady clock: each call of Now takes the next of an arbitrary non-decreasing
      sequence of readings. */
  class SteadyClock {
    const at: nat -> int
    var ticks: nat

    constructor (at: nat -> int)
      requires Monotone(at)
      ensures this.at == at && ticks == 0
    {
      this.at := at;
      ticks := 0;
    }

    method Now() returns (now: int)
      modifies this
      ensures now == at(old(ticks)) && ticks == old(ticks) + 1
    {
      now := at(ticks);
      ticks := ticks + 1;
    }
  }

  /** The counter behind timer identifiers; all dispatchers of the process share it. */
  class TimerIds {
    var next: nat

    constructor ()
      ensures next == 0
    {
      next := 0;
    }
  }

  /** When a timer was created, as the index of the clock reading, and with which period. */
  datatype Birth = Birth(tick: nat, period: int)

  /** One firing: the index of the reading with which its pass began, and of the one that found
      the timer due. The next reading re-arms it. */
  datatype Firing = Firing(pass: nat, due: nat)

  /** The index of the reading that armed the timer for its firing i. */
  ghost function Armed(b: Birth, fired: seq<Firing>, i: nat): nat
    requires i <= |fired|
  {
    if i == 0 then b.tick else fired[i - 1].due + 1
  }

  /** One period after that, in nanoseconds. */
  ghost function DueTime(b: Birth, fired: seq<Firing>, i: nat, at: nat -> int): int
    requires i <= |fired|
  {
    at(Armed(b, fired, i)) + b.period * 1_000_000
  }

  /** No pass over a sorted list that began after the timer was armed for firing i, and before
      reading end, began when it was due. */
  ghost predicate NotMissed(b: Birth, fired: seq<Firing>, i: nat, end: nat, passes: set<nat>, at: nat -> int)
    requires i <= |fired|
  {
    forall k :: k in passes && Armed(b, fired, i) < k < end ==> at(k) < DueTime(b, fired, i, at)
  }

  /** Firing i came no earlier than one period after the timer was armed, and in the first pass
      over a sorted list that began from then on, if not earlier. */
  ghost predicate Punctual(b: Birth, fired: seq<Firing>, i: nat, passes: set<nat>, at: nat -> int)
    requires i < |fired|
  {
    at(fired[i].due) >= DueTime(b, fired, i, at) && NotMissed(b, fired, i, fired[i].pass, passes, at)
  }

  // The record of one timer, with readings below ticks.
  ghost predicate Chronicle(b: Birth, fired: seq<Firing>, passes: set<nat>, at: nat -> int, ticks: nat) {
    && b.tick < ticks
    && forall i :: 0 <= i < |fired| ==>
        fired[i].pass <= fired[i].due && fired[i].due + 1 < ticks && Punctual(b, fired, i, passes, at)
  }

  /** The timer in the list: it expires exactly one period after it was last armed, and no pass
      over a sorted list since then began when it was due. */
  ghost predicate Recorded(t: TimerInfo, b: Birth, fired: seq<Firing>, passes: set<nat>, at: nat -> int, ticks: nat) {
    && t.period == b.period
    && t.expiry == DueTime(b, fired, |fired|, at)
    && NotMissed(b, fired, |fired|, ticks + 1, passes, at)
  }

  /** Everything on record: for every timer ever created, by serial, its birth and its firings;
      and the passes over sorted lists, by their first reading. */
  datatype Records = Records(births: map<nat, Birth>, firings: map<nat, seq<Firing>>, passes: set<nat>)
  {
    ghost predicate Knows(s: nat) {
      s in births && s in firings
    }

    ghost function Fired(s: nat, f: Firing): Records
      requires Knows(s)
    {
      this.(firings := firings[s := firings[s] + [f]])
    }
  }

  ghost predicate Ledger(timers: seq<TimerInfo>, r: Records, at: nat -> int, ticks: nat) {
    && Distinct(timers)
    && r.births.Keys == r.firings.Keys
    && (forall k :: k in r.passes ==> k <= ticks)
    && (forall s :: s in r.births ==> Chronicle(r.births[s], r.firings[s], r.passes, at, ticks))
    && (forall t :: t in timers ==>
        r.Knows(t.serial) && Recorded(t, r.births[t.serial], r.firings[t.serial], r.passes, at, ticks))
  }

  lemma LedgerLater(timers: seq<TimerInfo>, r: Records, at: nat -> int, ticks: nat, later: nat)
    requires Ledger(timers, r, at, ticks) && ticks <= later
    ensures Ledger(timers, r, at, later)
  {
    hide Punctual;
    forall t | t in timers
      ensures Recorded(t, r.births[t.serial], r.firings[t.serial], r.passes, at, later)
    {
      StillRecorded(t, r.births[t.serial], r.firings[t.serial], r.passes, at, ticks, later);
    }
    hide Recorded;
  }

  lemma StillRecorded(t: TimerInfo, b: Birth, fired: seq<Firing>, passes: set<nat>, at: nat -> int, ticks: nat,
                      later: nat)
    requires Recorded(t, b, fired, passes, at, ticks) && forall k :: k in passes ==> k <= ticks
    ensures Recorded(t, b, fired, passes, at, later)
  {
  }

  lemma LedgerAdd(timers: seq<TimerInfo>, r: Records, at: nat -> int, ticks: nat, t: TimerInfo)
    requires Ledger(timers, r, at, ticks) && t.serial !in r.births
    requires t.expiry == at(ticks) + t.period * 1_000_000
    ensures Ledger(Sort(timers + [t]),
                   r.(births := r.births[t.serial := Birth(ticks, t.period)], firings := r.firings[t.serial := []]),
                   at, ticks + 1)
  {
    hide Sort;
    var added := timers + [t];
    SortDistinct(added) by {
      assert forall i :: 0 <= i < |timers| ==> timers[i] in timers;
    }
    SortCorrect(added);
    LedgerLater(timers, r, at, ticks, ticks + 1);
    NewRecord(t, r.passes, at, ticks);
    hide Chronicle;
    hide Recorded;
    hide Distinct;
    hide Sorted;
  }

  lemma NewRecord(t: TimerInfo, passes: set<nat>, at: nat -> int, ticks: nat)
    requires t.expiry == at(ticks) + t.period * 1_000_000 && forall k :: k in passes ==> k <= ticks
    ensures Chronicle(Birth(ticks, t.period), [], passes, at, ticks + 1)
    ensures Recorded(t, Birth(ticks, t.period), [], passes, at, ticks + 1)
  {
  }

  lemma LedgerRemove(timers: seq<TimerInfo>, r: Records, at: nat -> int, ticks: nat, id: int)
    requires Ledger(timers, r, at, ticks)
    ensures Ledger(Without(timers, id), r, at, ticks)
  {
    hide Without;
    hide Chronicle;
    hide Recorded;
    WithoutKeeps(timers, id);
    WithoutDistinct(timers, id);
  }

  // One more firing, of the pass that began with reading pass.
  lemma FiringRecorded(t: TimerInfo, b: Birth, fired: seq<Firing>, passes: set<nat>, at: nat -> int, ticks: nat,
                       pass: nat)
    requires Chronicle(b, fired, passes, at, ticks) && Recorded(t, b, fired, passes, at, ticks)
    requires ticks > 0 && pass < ticks && t.expiry <= at(ticks - 1)
    requires forall k :: k in passes ==> k <= pass
    ensures var more := fired + [Firing(pass, ticks - 1)];
      && Chronicle(b, more, passes, at, ticks + 1)
      && Recorded(t.(expiry := at(ticks) + t.period * 1_000_000), b, more, passes, at, ticks + 1)
  {
    LastPunctual(b, fired, passes, at, t.expiry, pass, ticks);
    ArmedAgain(t, b, fired, passes, at, ticks, pass);
    hide Recorded;
    ChronicleGrows(b, fired, passes, at, ticks, Firing(pass, ticks - 1));
  }

  lemma ChronicleGrows(b: Birth, fired: seq<Firing>, passes: set<nat>, at: nat -> int, ticks: nat, f: Firing)
    requires Chronicle(b, fired, passes, at, ticks)
    requires f.pass <= f.due < ticks && Punctual(b, fired + [f], |fired|, passes, at)
    ensures Chronicle(b, fired + [f], passes, at, ticks + 1)
  {
    hide Punctual;
    var more := fired + [f];
    forall i | 0 <= i < |more|
      ensures more[i].pass <= more[i].due && more[i].due + 1 < ticks + 1 && Punctual(b, more, i, passes, at)
    {
      if i < |fired| {
        assert more[i] == fired[i];
        StillPunctual(b, fired, i, more, passes, at);
      }
    }
  }

  lemma ArmedAgain(t: TimerInfo, b: Birth, fired: seq<Firing>, passes: set<nat>, at: nat -> int, ticks: nat, pass: nat)
    requires t.period == b.period && pass < ticks && forall k :: k in passes ==> k <= pass
    ensures Recorded(t.(expiry := at(ticks) + t.period * 1_000_000), b, fired + [Firing(pass, ticks - 1)], passes, at,
                     ticks + 1)
  {
  }

  lemma LastPunctual(b: Birth, fired: seq<Firing>, passes: set<nat>, at: nat -> int, expiry: int, pass: nat, ticks: nat)
    requires expiry == DueTime(b, fired, |fired|, at) && NotMissed(b, fired, |fired|, ticks + 1, passes, at)
    requires 0 < ticks && pass < ticks && expiry <= at(ticks - 1)
    ensures Punctual(b, fired + [Firing(pass, ticks - 1)], |fired|, passes, at)
  {
    assert Armed(b, fired + [Firing(pass, ticks - 1)], |fired|) == Armed(b, fired, |fired|);
  }

  lemma StillPunctual(b: Birth, fired: seq<Firing>, i: nat, more: seq<Firing>, passes: set<nat>, at: nat -> int)
    requires i < |fired| && fired <= more && Punctual(b, fired, i, passes, at)
    ensures Punctual(b, more, i, passes, at)
  {
    assert Armed(b, more, i) == Armed(b, fired, i);
  }

  ghost predicate PassesUpTo(r: Records, k: nat) {
    && (forall p :: p in r.passes ==> p <= k)
    && forall s :: s in r.firings ==> forall f :: f in r.firings[s] ==> f.pass <= k
  }

  lemma EarlierPasses(timers: seq<TimerInfo>, r: Records, at: nat -> int, ticks: nat)
    requires Ledger(timers, r, at, ticks)
    ensures PassesUpTo(r, ticks)
  {
    hide Punctual;
    hide Recorded;
  }

  /** A timer found due by the reading before the next, and re-armed from the next, keeps all
      records straight. */
  lemma LedgerFire(timers: seq<TimerInfo>, r: Records, at: nat -> int, ticks: nat, i: nat, pass: nat)
    requires Ledger(timers, r, at, ticks) && i < |timers|
    requires ticks > 0 && pass < ticks && timers[i].expiry <= at(ticks - 1) && PassesUpTo(r, pass)
    ensures r.Knows(timers[i].serial)
    ensures Ledger(timers[i := timers[i].Rearmed(at(ticks))],
                   r.Fired(timers[i].serial, Firing(pass, ticks - 1)), at, ticks + 1)
  {
    var t, s := timers[i], timers[i].serial;
    assert t in timers;
    var f := Firing(pass, ticks - 1);
    FiringRecorded(t, r.births[s], r.firings[s], r.passes, at, ticks, pass);
    LedgerLater(timers, r, at, ticks, ticks + 1);
    var t' := t.Rearmed(at(ticks));
    assert t' == t.(expiry := at(ticks) + t.period * 1_000_000);
    hide Chronicle;
    hide Recorded;
    OthersKept(timers, r, at, ticks + 1, i, t', f);
  }

  // Timer i and its record have changed, everything else stays.
  lemma OthersKept(timers: seq<TimerInfo>, r: Records, at: nat -> int, ticks: nat, i: nat, t: TimerInfo, f: Firing)
    requires Ledger(timers, r, at, ticks) && i < |timers| && t.serial == timers[i].serial && r.Knows(t.serial)
    requires Chronicle(r.births[t.serial], r.firings[t.serial] + [f], r.passes, at, ticks)
    requires Recorded(t, r.births[t.serial], r.firings[t.serial] + [f], r.passes, at, ticks)
    ensures Ledger(timers[i := t], r.Fired(t.serial, f), at, ticks)
  {
    hide Chronicle;
    hide Recorded;
    forall u | u in timers[i := t] && u != t
      ensures u in timers && u.serial != t.serial
    {
      var j :| 0 <= j < |timers| && timers[i := t][j] == u;
      assert j != i && timers[j] == u;
    }
  }

  // One more firing was recorded, of timer i.
  ghost predicate Appended(timers: seq<TimerInfo>, was: Records, r: Records, i: nat, f: Firing) {
    r.births == was.births && r.passes == was.passes && r.firings.Keys == was.firings.Keys &&
    forall j :: 0 <= j < |timers| ==> var s := timers[j].serial;
      s in was.firings && r.firings[s] == was.firings[s] + if j == i then [f] else []
  }

  /** Exactly the first n timers of the list have one more firing on record, of the pass that
      began with reading k, at the reading that found them due. */
  ghost predicate Logged(timers: seq<TimerInfo>, r: Records, was: Records, k: nat, n: nat) {
    r.births == was.births && r.passes == was.passes && r.firings.Keys == was.firings.Keys &&
    forall j :: 0 <= j < |timers| ==> var s := timers[j].serial;
      s in was.firings && r.firings[s] == was.firings[s] + if j < n then [Firing(k, k + 2 * j)] else []
  }

  // The pass that began with reading k is over.
  lemma LedgerPass(before: seq<TimerInfo>, timers: seq<TimerInfo>, r: Records, was: Records, at: nat -> int,
                   ticks: nat, k: nat, n: nat)
    requires Ledger(timers, r, at, ticks) && k <= ticks
    requires IsPass(before, timers, at, k, n) && Monotone(at) && Sorted(before)
    requires Logged(timers, r, was, k, n) && PassesUpTo(r, k)
    ensures Ledger(timers, r.(passes := r.passes + {k}), at, ticks)
  {
    hide Monotone;
    hide Sorted;
    hide IsPass;
    hide Logged;
    hide Recorded;
    hide Chronicle;
    hide Distinct;
    NoneMissed(before, timers, r, was, at, ticks, k, n);
    ChroniclesKept(timers, r, at, ticks, k);
    hide PassesUpTo;
  }

  lemma ChroniclesKept(timers: seq<TimerInfo>, r: Records, at: nat -> int, ticks: nat, k: nat)
    requires Ledger(timers, r, at, ticks) && PassesUpTo(r, k)
    ensures forall s :: s in r.births ==>
      s in r.firings && Chronicle(r.births[s], r.firings[s], r.passes + {k}, at, ticks)
  {
    hide Recorded;
    hide Chronicle;
    hide Distinct;
    forall s | s in r.births
      ensures s in r.firings && Chronicle(r.births[s], r.firings[s], r.passes + {k}, at, ticks)
    {
      PassAfter(r.births[s], r.firings[s], r.passes, at, ticks, k);
    }
  }

  lemma NoneMissed(before: seq<TimerInfo>, timers: seq<TimerInfo>, r: Records, was: Records, at: nat -> int,
                   ticks: nat, k: nat, n: nat)
    requires Ledger(timers, r, at, ticks) && Logged(timers, r, was, k, n)
    requires IsPass(before, timers, at, k, n) && Monotone(at) && Sorted(before)
    ensures forall t :: t in timers ==>
      r.Knows(t.serial) && Recorded(t, r.births[t.serial], r.firings[t.serial], r.passes + {k}, at, ticks)
  {
    PassFiresDue(before, timers, at, k, n);
    hide Monotone;
    hide Sorted;
    hide Chronicle;
    hide NotMissed;
    forall t | t in timers
      ensures r.Knows(t.serial) && Recorded(t, r.births[t.serial], r.firings[t.serial], r.passes + {k}, at, ticks)
    {
      var j :| 0 <= j < |timers| && timers[j] == t;
      var s := t.serial;
      if j >= n {
        assert t == before[j] && before[j].expiry > at(k);
      } else {
        assert Armed(r.births[s], r.firings[s], |r.firings[s]|) == k + 2 * j + 1;
      }
      PassSeen(t, r.births[s], r.firings[s], r.passes, at, ticks, k);
    }
  }

  lemma PassSeen(t: TimerInfo, b: Birth, fired: seq<Firing>, passes: set<nat>, at: nat -> int, ticks: nat, k: nat)
    requires Recorded(t, b, fired, passes, at, ticks)
    requires at(k) < t.expiry || k <= Armed(b, fired, |fired|)
    ensures Recorded(t, b, fired, passes + {k}, at, ticks)
  {
  }

  lemma PassAfter(b: Birth, fired: seq<Firing>, passes: set<nat>, at: nat -> int, ticks: nat, k: nat)
    requires Chronicle(b, fired, passes, at, ticks) && forall f :: f in fired ==> f.pass <= k
    ensures Chronicle(b, fired, passes + {k}, at, ticks)
  {
    forall i | 0 <= i < |fired|
      ensures Punctual(b, fired, i, passes + {k}, at)
    {
      assert Punctual(b, fired, i, passes, at) && fired[i] in fired;
    }
    hide Punctual;
  }

  lemma LedgerAppends(timers: seq<TimerInfo>, r: Records, at: nat -> int, ticks: nat, i: nat, f: Firing)
    requires Ledger(timers, r, at, ticks) && i < |timers|
    ensures r.Knows(timers[i].serial)
    ensures Appended(timers[i := timers[i].Rearmed(at(ticks))], r, r.Fired(timers[i].serial, f), i, f)
  {
    hide Recorded;
    hide Chronicle;
    assert forall j :: 0 <= j < |timers| ==> timers[j] in timers;
  }

  lemma LogOne(timers: seq<TimerInfo>, before: Records, r: Records, was: Records, k: nat, i: nat)
    requires Logged(timers, before, was, k, i) && Appended(timers, before, r, i, Firing(k, k + 2 * i))
    ensures Logged(timers, r, was, k, i + 1)
  {
  }

  lemma SameSerials(timers: seq<TimerInfo>, fired: seq<TimerInfo>, r: Records, was: Records, k: nat, i: nat)
    requires Logged(timers, r, was, k, i) && |fired| == |timers|
    requires forall j :: 0 <= j < |timers| ==> fired[j].serial == timers[j].serial
    ensures Logged(fired, r, was, k, i)
  {
  }

  lemma AppendedUpTo(timers: seq<TimerInfo>, was: Records, i: nat, f: Firing)
    requires i < |timers| && was.Knows(timers[i].serial) && PassesUpTo(was, f.pass)
    ensures PassesUpTo(was.Fired(timers[i].serial, f), f.pass)
  {
  }

  lemma FireRecords(timers: seq<TimerInfo>, r: Records, at: nat -> int, ticks: nat, i: nat, pass: nat)
    requires Ledger(timers, r, at, ticks) && i < |timers|
    requires ticks > 0 && pass < ticks && timers[i].expiry <= at(ticks - 1) && PassesUpTo(r, pass)
    ensures r.Knows(timers[i].serial)
    ensures var t, f := timers[i], Firing(pass, ticks - 1);
      var more, fired := r.Fired(t.serial, f), timers[i := t.Rearmed(at(ticks))];
      && t.Rearmed(at(ticks)) == TimerInfo(t.serial, t.period, at(ticks) + t.period * 1_000_000)
      && Ledger(fired, more, at, ticks + 1) && Appended(fired, r, more, i, f) && PassesUpTo(more, pass)
      && more.births == r.births && more.passes == r.passes
  {
    var f := Firing(pass, ticks - 1);
    LedgerFire(timers, r, at, ticks, i, pass);
    LedgerAppends(timers, r, at, ticks, i, f);
    AppendedUpTo(timers, r, i, f);
    hide Ledger;
    hide Appended;
    hide PassesUpTo;
  }

  // One more timer of the pass has fired.
  lemma Advance(before: seq<TimerInfo>, timers: seq<TimerInfo>, fired: seq<TimerInfo>,
                log: Records, logged: Records, was: Records, at: nat -> int, k: nat, i: nat)
    requires PassedOver(before, timers, at, k, i) && Logged(timers, log, was, k, i)
    requires i < |timers| && timers[i].expiry <= at(k + 2 * i)
    requires var t := timers[i];
      fired == timers[i := TimerInfo(t.serial, t.period, at(k + 2 * i + 1) + t.period * 1_000_000)]
    requires Appended(fired, log, logged, i, Firing(k, k + 2 * i))
    ensures PassedOver(before, fired, at, k, i + 1) && Logged(fired, logged, was, k, i + 1)
  {
    hide Logged;
    hide Appended;
    PassOne(before, timers, at, k, i);
    SameSerials(timers, fired, log, was, k, i);
    LogOne(fired, log, logged, was, k, i);
  }

  class EventDispatcher {
    const clock: SteadyClock
    const ids: TimerIds
    var timers: seq<TimerInfo>

    // Every timer ever created here, with all its firings.
    ghost var records: Records

    /** No timer has ever fired ahead of its rate, whatever was added, removed and processed in
        between, and none was missed by a pass over a sorted list. */
    ghost predicate Valid()
      reads this, clock, ids
    {
      && Monotone(clock.at)
      && Ledger(timers, records, clock.at, clock.ticks)
      && forall s :: s in records.births ==> s < ids.next
    }

    constructor (clock: SteadyClock, ids: TimerIds)
      requires Monotone(clock.at)
      ensures Valid() && timers == [] && records == Records(map[], map[], {})
      ensures this.clock == clock && this.ids == ids
    {
      this.clock := clock;
      this.ids := ids;
      timers, records := [], Records(map[], map[], {});
    }

    method AddTimer(periodMs: int) returns (id: int)
      requires Valid()
      modifies this, clock, ids
      ensures Valid() && clock.ticks == old(clock.ticks) + 1
      ensures var t := TimerInfo(old(ids.next), periodMs, clock.at(old(clock.ticks)) + periodMs * 1_000_000);
        && id == t.Id() && ids.next == old(ids.next) + 1
        && timers == Sort(old(timers) + [t])
        && records == old(records).(births := old(records).births[t.serial := Birth(old(clock.ticks), periodMs)],
                                    firings := old(records).firings[t.serial := []])
        && Sorted(timers) && (forall u :: u in timers <==> u in old(timers) || u == t)
    {
      hide Sort;
      hide Sorted;
      hide ExpiringAt;
      hide IdOf;
      hide Ledger;
      hide Monotone;
      var serial := ids.next;
      ids.next := ids.next + 1;
      ghost var k := clock.ticks;
      var now := clock.Now();
      var t := TimerInfo(serial, periodMs, now + periodMs * MS);
      LedgerAdd(timers, records, clock.at, k, t);
      SortCorrect(timers + [t]);
      timers := Sort(timers + [t]);
      records := records.(births := records.births[serial := Birth(k, periodMs)],
                          firings := records.firings[serial := []]);
      id := t.Id();
    }

    method RemoveTimer(id: int) returns (removed: bool)
      requires Valid()
      modifies this`timers
      ensures Valid()
      ensures timers == Without(old(timers), id)
      ensures Sorted(old(timers)) ==> Sorted(timers)
      ensures !removed
      ensures removed == (exists t :: t in old(timers) && t.Id() == id) <==>
              forall t :: t in old(timers) ==> t.Id() != id
    {
      hide Ledger;
      if Sorted(timers) {
        WithoutSorted(timers, id);
      }
      WithoutKeeps(timers, id);
      LedgerRemove(timers, records, clock.at, clock.ticks, id);
      var countBefore := |timers|;
      timers := Without(timers, id);
      var countAfter := |timers|;
      removed := countAfter - countBefore > 0;
    }

    /** The timeout processEvents passes to epoll_wait. */
    method WaitTimeout() returns (timeoutMs: int)
      requires Valid()
      modifies clock
      ensures Valid()
      ensures clock.ticks == old(clock.ticks) + if timers == [] then 0 else 1
      ensures timeoutMs == if timers == [] then -1 else CeilMs(timers[0].expiry - clock.at(old(clock.ticks)))
    {
      hide Ledger;
      timeoutMs := -1;
      LedgerLater(timers, records, clock.at, clock.ticks, clock.ticks + 1);
      if |timers| > 0 {
        var now := clock.Now();
        var remaining := timers[0].expiry - now;
        timeoutMs := CeilMs(remaining);
      }
    }

    /** The timer loop of processEvents: the first n timers of the list fire. */
    method FireTimers() returns (fired: bool, ghost n: nat)
      requires Valid()
      modifies this, clock
      ensures Valid() && records.births == old(records).births
      ensures IsPass(old(timers), timers, clock.at, old(clock.ticks), n)
      ensures Logged(timers, records, old(records), old(clock.ticks), n)
      ensures records.passes == old(records).passes && PassesUpTo(records, old(clock.ticks))
      ensures clock.ticks >= old(clock.ticks)
      ensures fired == (n > 0)
    {
      ghost var k, before, was := clock.ticks, timers, records;
      LogBegins(k);
      PassBegins(timers, clock.at, k);
      EarlierPasses(timers, records, clock.at, k);
      hide Valid;
      hide PassedOver;
      hide Logged;
      hide IsPass;
      hide Appended;
      hide Monotone;
      hide Ledger;
      hide PassesUpTo;
      hide Sorted;
      var count, i := 0, 0;
      while i < |timers|
        invariant count == i <= |timers| == |before|
        invariant clock.ticks == k + 2 * i
        invariant Valid() && records.births == was.births && records.passes == was.passes
        invariant PassedOver(before, timers, clock.at, k, i)
        invariant Logged(timers, records, was, k, i) && PassesUpTo(records, k)
        decreases |timers| - i
      {
        var due := FireIfExpired(i, k, before, was);
        if !due {
          break;
        }
        count := count + 1;
        i := i + 1;
      }
      PassEnds(before, timers, clock.at, k, i);
      return count > 0, i;
    }

    // The body of the loop, for timer i.
    method FireIfExpired(i: nat, ghost k: nat, ghost before: seq<TimerInfo>, ghost was: Records) returns (due: bool)
      requires Valid() && i < |timers| == |before| && clock.ticks == k + 2 * i
      requires PassedOver(before, timers, clock.at, k, i)
      requires Logged(timers, records, was, k, i) && PassesUpTo(records, k)
      modifies this`timers, this`records, clock
      ensures Valid() && |timers| == |before|
      ensures records.births == old(records).births && records.passes == old(records).passes && PassesUpTo(records, k)
      ensures due ==>
        && clock.ticks == k + 2 * (i + 1)
        && PassedOver(before, timers, clock.at, k, i + 1) && Logged(timers, records, was, k, i + 1)
      ensures !due ==>
        && timers == old(timers) && records == old(records)
        && clock.ticks == k + 2 * i + 1 && clock.at(k + 2 * i) < before[i].expiry
    {
      hide Valid;
      hide PassedOver;
      hide Logged;
      hide Appended;
      hide PassesUpTo;
      PassReaches(before, timers, clock.at, k, i);
      due := Expired(i);
      if due {
        ghost var timers0, records0 := timers, records;
        Fire(i, k);
        Advance(before, timers0, timers, records0, records, was, clock.at, k, i);
      }
    }

    // Put a pass over a sorted list on record.
    ghost method EndPass(before: seq<TimerInfo>, was: Records, k: nat, n: nat)
      requires Valid() && k <= clock.ticks
      requires IsPass(before, timers, clock.at, k, n) && Sorted(before)
      requires Logged(timers, records, was, k, n) && PassesUpTo(records, k)
      modifies this`records
      ensures Valid() && records == old(records).(passes := old(records).passes + {k})
    {
      LedgerPass(before, timers, records, was, clock.at, clock.ticks, k, n);
      hide Ledger;
      records := records.(passes := records.passes + {k});
    }

    /** The timer part of processEvents. epoll_wait takes time and no reading; when it waited
        its timeout out, which is what a later reading shows, the first timer fires. */
    method ProcessEvents() returns (fired: bool, ghost n: nat)
      requires Valid()
      modifies this, clock
      ensures Valid() && records.births == old(records).births && fired == (n > 0)
      ensures var w, k := old(clock.ticks), old(clock.ticks) + if old(timers) == [] then 0 else 1;
        && IsPass(old(timers), timers, clock.at, k, n)
        && Logged(timers, records.(passes := old(records).passes), old(records), k, n)
        && records.passes == old(records).passes + (if Sorted(old(timers)) then {k} else {})
        && (old(timers) != [] && clock.at(k) >= clock.at(w) + CeilMs(old(timers)[0].expiry - clock.at(w)) * 1_000_000
            ==> fired)
        && (Sorted(old(timers)) ==>
            forall i :: 0 <= i < |old(timers)| && old(timers)[i].expiry <= clock.at(k) ==> i < n)
    {
      hide Ledger;
      hide Logged;
      hide IsPass;
      hide CeilMs;
      hide Sorted;
      hide Monotone;
      hide PassesUpTo;
      ghost var w, before, was := clock.ticks, timers, records;
      var timeoutMs := WaitTimeout();
      ghost var k := clock.ticks;
      fired, n := FireTimers();
      WaitThenPass(before, timers, clock.at, w, k, n);
      if Sorted(before) {
        EndPass(before, was, k, n);
      }
    }

    lemma LogBegins(k: nat)
      requires Valid()
      ensures Logged(timers, records, records, k, 0)
    {
      assert forall j :: 0 <= j < |timers| ==> timers[j] in timers && records.Knows(timers[j].serial);
    }

    /** The timer's check against a new reading of the clock. */
    method Expired(i: nat) returns (due: bool)
      requires Valid() && i < |timers|
      modifies clock
      ensures Valid() && clock.ticks == old(clock.ticks) + 1
      ensures due <==> clock.at(old(clock.ticks)) >= timers[i].expiry
    {
      LedgerLater(timers, records, clock.at, clock.ticks, clock.ticks + 1);
      hide Ledger;
      var now := clock.Now();
      return now >= timers[i].expiry;
    }

    // Timer i was found due by the last reading: its callback takes time until the next
    // reading, from which it is re-armed.
    method Fire(i: nat, ghost pass: nat)
      requires Valid() && i < |timers|
      requires clock.ticks > 0 && pass < clock.ticks && timers[i].expiry <= clock.at(clock.ticks - 1)
      requires PassesUpTo(records, pass)
      modifies this`timers, this`records, clock
      ensures Valid() && clock.ticks == old(clock.ticks) + 1
      ensures var t := old(timers)[i];
        timers == old(timers)[i := TimerInfo(t.serial, t.period, clock.at(old(clock.ticks)) + t.period * 1_000_000)]
      ensures Appended(timers, old(records), records, i, Firing(pass, old(clock.ticks) - 1))
      ensures PassesUpTo(records, pass)
      ensures records.births == old(records).births && records.passes == old(records).passes
    {
      hide Ledger;
      hide Appended;
      hide PassesUpTo;
      hide Monotone;
      ghost var k, t := clock.ticks, timers[i];
      FireRecords(timers, records, clock.at, k, i, pass);
      var rearmedAt := clock.Now();
      timers := timers[i := timers[i].Rearmed(rearmedAt)];
      records := records.Fired(t.serial, Firing(pass, k - 1));
    }
  }

  lemma OnePeriod(b: Birth, fired: seq<Firing>, passes: set<nat>, at: nat -> int, ticks: nat, i: nat)
    requires Chronicle(b, fired, passes, at, ticks) && i < |fired|
    ensures at(fired[i].due) >= at(Armed(b, fired, i)) + b.period * 1_000_000
  {
    assert Punctual(b, fired, i, passes, at);
  }

  lemma NextReading(at: nat -> int, k: nat)
    requires Monotone(at)
    ensures at(k) <= at(k + 1)
  {
  }

  lemma {:induction false} Rate(b: Birth, fired: seq<Firing>, passes: set<nat>, at: nat -> int, ticks: nat, i: nat)
    requires Chronicle(b, fired, passes, at, ticks) && Monotone(at) && i < |fired|
    ensures at(fired[i].due) >= at(b.tick) + (i + 1) * (b.period * 1_000_000)
    decreases i
  {
    hide Chronicle;
    hide Monotone;
    OnePeriod(b, fired, passes, at, ticks, i);
    if i > 0 {
      Rate(b, fired, passes, at, ticks, i - 1);
      NextReading(at, fired[i - 1].due);
    }
    var p := b.period * 1_000_000;
    assert (i + 1) * p == i * p + p;
  }

  /** The n-th firing of a timer never comes before its creation plus n periods. */
  lemma FiringRate(d: EventDispatcher, serial: nat, i: nat)
    requires d.Valid() && serial in d.records.births && i < |d.records.firings[serial]|
    ensures var b := d.records.births[serial];
      d.clock.at(d.records.firings[serial][i].due) >= d.clock.at(b.tick) + (i + 1) * (b.period * 1_000_000)
  {
    Rate(d.records.births[serial], d.records.firings[serial], d.records.passes, d.clock.at, d.clock.ticks, i);
  }

  /** No firing comes late by more than the wait for a pass: the first pass over a sorted list
      that begins a period or more after the reading that armed the timer fires it. Passes that
      began in between, after that reading, began before it was due. */
  lemma FiringPunctual(d: EventDispatcher, serial: nat, i: nat, k: nat)
    requires d.Valid() && serial in d.records.births && i < |d.records.firings[serial]| && k in d.records.passes
    ensures var b, fired, at := d.records.births[serial], d.records.firings[serial], d.clock.at;
      var armed := if i == 0 then b.tick else fired[i - 1].due + 1;
      && fired[i].pass <= fired[i].due
      && at(armed) + b.period * 1_000_000 <= at(fired[i].due)
      && (armed < k < fired[i].pass ==> at(k) < at(armed) + b.period * 1_000_000)
  {
    assert Punctual(d.records.births[serial], d.records.firings[serial], i, d.records.passes, d.clock.at);
  }

  /** Nor has any live timer been missed: it expires exactly a period after the reading that
      armed it, and no pass over a sorted list since began at or after that. */
  lemma LivePunctual(d: EventDispatcher, t: TimerInfo, k: nat)
    requires d.Valid() && t in d.timers && k in d.records.passes
    ensures t.serial in d.records.births && t.serial in d.records.firings
    ensures var b, fired, at := d.records.births[t.serial], d.records.firings[t.serial], d.clock.at;
      var armed := if fired == [] then b.tick else fired[|fired| - 1].due + 1;
      && t.expiry == at(armed) + t.period * 1_000_000
      && (armed < k ==> at(k) < at(armed) + t.period * 1_000_000)
  {
  }

  lemma SerialsBelow(d: EventDispatcher)
    requires d.Valid()
    ensures Distinct(d.timers) && forall t :: t in d.timers ==> t.serial < d.ids.next
  {
    hide Chronicle;
    hide Recorded;
    hide Monotone;
    assert forall t :: t in d.timers ==> d.records.Knows(t.serial);
  }

  /** No two live timers share an identifier while fewer than 2^32 were created in the process;
      later, two do exactly when a multiple of 2^32 timers was created between them. */
  lemma LiveIdsDistinct(d: EventDispatcher)
    requires d.Valid()
    ensures d.ids.next <= 0x1_0000_0000 ==> DistinctIds(d.timers)
    ensures DistinctIds(d.timers) <==> forall i, j :: 0 <= i < j < |d.timers| ==>
            (d.timers[i].serial - d.timers[j].serial) % 0x1_0000_0000 != 0
  {
    hide Ledger;
    hide Monotone;
    hide IdOf;
    SerialsBelow(d);
    IdsDistinct(d.timers);
  }
}
