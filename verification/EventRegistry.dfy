/** Allocation of user event types: a hint is honoured if it is free, otherwise the highest
    free number is taken. */
module EventRegistry {

  const USER := 10000
  const MAX_USER := 65535

  ghost predicate InRange(id: int) {
    USER <= id <= MAX_USER
  }

  ghost function From(low: int): set<int> {
    set id | low <= id <= MAX_USER && InRange(id)
  }

  /** The numbers user events can have. */
  ghost function Range(): set<int> {
    From(USER)
  }

  /** What one call returns and which numbers are taken afterwards. */
  ghost predicate Registers(before: set<int>, hint: int, id: int, after: set<int>) {
    if InRange(hint) && hint !in before then id == hint && after == before + {id}
    else if Range() <= before then id == -1 && after == before
    else
      && InRange(id) && id !in before && after == before + {id}
      && forall free :: InRange(free) && free !in before ==> free <= id
  }

  class UserEventRegistry {
    var taken: set<int>

    ghost predicate Valid()
      reads this
    {
      taken <= Range()
    }

    constructor ()
      ensures Valid() && taken == {}
    {
      taken := {};
    }

    method RegisterEventType(hint: int) returns (result: int)
      requires Valid()
      modifies this
      ensures Valid() && Registers(old(taken), hint, result, taken)
      ensures 10000 <= hint <= 65535 && hint !in old(taken) ==> result == hint
      ensures result == -1 || (10000 <= result <= 65535 && result !in old(taken))
    {
      if hint >= USER && hint <= MAX_USER && hint !in taken {
        taken := taken + {hint};
        return hint;
      }
      var id := MAX_USER;
      while id in taken && id >= USER
        invariant USER - 1 <= id <= MAX_USER
        invariant forall higher :: id < higher <= MAX_USER ==> higher in taken
        decreases id
      {
        id := id - 1;
      }
      if id >= USER {
        assert id in Range();
        taken := taken + {id};
        return id;
      }
      return -1;
    }
  }

  // ---- Whole runs ----

  /** Any sequence of calls: the hints, the results, and the taken numbers in between. */
  ghost predicate History(hints: seq<int>, results: seq<int>, states: seq<set<int>>) {
    && |hints| == |results| && |states| == |hints| + 1
    && states[0] == {}
    && forall i :: 0 <= i < |hints| ==> Registers(states[i], hints[i], results[i], states[i + 1])
  }

  /** The results of the successful calls. */
  ghost function Successes(results: seq<int>): seq<int> {
    if results == [] then []
    else Successes(results[..|results| - 1]) + if results[|results| - 1] == -1 then [] else [results[|results| - 1]]
  }

  lemma {:induction false} FromSize(low: int)
    requires USER <= low <= MAX_USER + 1
    ensures |From(low)| == MAX_USER + 1 - low
    decreases MAX_USER + 1 - low
  {
    if low == MAX_USER + 1 {
      assert From(low) == {};
    } else {
      FromSize(low + 1);
      assert InRange(low);
      assert From(low) == From(low + 1) + {low};
    }
  }

  lemma SubsetSize(a: set<int>, b: set<int>)
    requires a <= b
    ensures |a| <= |b| && (|a| == |b| ==> a == b)
  {
    assert b == a + (b - a);
  }

  /** A call fails exactly when every number is taken; otherwise it takes a new one. */
  lemma OneCall(before: set<int>, hint: int, id: int, after: set<int>)
    requires before <= Range() && Registers(before, hint, id, after)
    ensures after <= Range() && |after| <= 55536
    ensures id == -1 <==> |before| == 55536
    ensures id == -1 ==> after == before
    ensures id != -1 ==> InRange(id) && id !in before && after == before + {id}
  {
    FromSize(USER);
    SubsetSize(before, Range());
    assert InRange(hint) ==> hint in Range();
    if Range() <= before {
      assert before == Range();
    } else {
      assert InRange(id);
      assert id in Range();
    }
    SubsetSize(after, Range());
  }

  ghost predicate NoRepeats(ids: seq<int>) {
    forall i, j :: 0 <= i < j < |ids| ==> ids[i] != ids[j]
  }

  lemma Prefix(hints: seq<int>, results: seq<int>, states: seq<set<int>>)
    requires History(hints, results, states) && hints != []
    ensures var n := |hints| - 1;
      History(hints[..n], results[..n], states[..n + 1]) && Registers(states[n], hints[n], results[n], states[n + 1])
  {
  }

  /** Over any sequence of calls: the numbers handed out are in range and pairwise distinct,
      and they are exactly what is taken. */
  lemma {:induction false} Runs(hints: seq<int>, results: seq<int>, states: seq<set<int>>)
    requires History(hints, results, states)
    ensures var ids := Successes(results); var taken := states[|hints|];
      && NoRepeats(ids) && (forall id :: id in ids <==> id in taken)
      && taken <= Range() && |taken| == |ids| <= 55536
      && forall id :: id in ids ==> 10000 <= id <= 65535
    decreases |hints|
  {
    if hints != [] {
      var n := |hints| - 1;
      Prefix(hints, results, states);
      hide Registers;
      hide Range;
      Runs(hints[..n], results[..n], states[..n + 1]);
      OneCall(states[n], hints[n], results[n], states[n + 1]);
    }
  }

  // The last call fails exactly when all numbers were handed out before it.
  lemma LastCall(hints: seq<int>, results: seq<int>, states: seq<set<int>>)
    requires History(hints, results, states) && hints != []
    ensures var n := |hints| - 1;
      && |results| == n + 1 && |states| == n + 2
      && History(hints[..n], results[..n], states[..n + 1])
      && (results[n] == -1 <==> |Successes(results[..n])| == 55536)
      && |Successes(results)| == |Successes(results[..n])| + if results[n] == -1 then 0 else 1
  {
    var n := |hints| - 1;
    Prefix(hints, results, states);
    hide History;
    hide Registers;
    hide Range;
    Runs(hints[..n], results[..n], states[..n + 1]);
    OneCall(states[n], hints[n], results[n], states[n + 1]);
  }

  /** A call fails exactly when all 55536 numbers have been handed out before it, so of any
      sequence of calls exactly the first 55536 succeed. */
  lemma {:induction false} SuccessCount(hints: seq<int>, results: seq<int>, states: seq<set<int>>)
    requires History(hints, results, states)
    ensures |hints| == |results|
    ensures |Successes(results)| == if |hints| <= 55536 then |hints| else 55536
    ensures forall i :: 0 <= i < |hints| ==> (results[i] == -1 <==> i >= 55536)
    decreases |hints|
  {
    if hints != [] {
      var n := |hints| - 1;
      LastCall(hints, results, states);
      hide History;
      hide Successes;
      SuccessCount(hints[..n], results[..n], states[..n + 1]);
      assert forall i :: 0 <= i < n ==> results[..n][i] == results[i];
    }
  }
}
