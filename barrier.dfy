/**
 * The call-count barrier: `getNextKeyIds` derives three fresh store keys per
 * barrier session from a process-wide counter, and `syncCallCount` adds this
 * participant's active calls, counts it in, lets the last arrival raise the ready
 * flag, and reads back the total.
 */
module CallCountBarrier {
  import opened Decimal
  import opened KvStore

  const BarrierIdTag: string := "_ID_"
  const ProcessCountTag: string := "PROCESS_COUNT"
  const ActiveCallsTag: string := "ACTIVE_CALLS"
  const ReadyTag: string := "READY"

  datatype SessionKeys = SessionKeys(processCount: string, activeCalls: string, ready: string)

  /**
   * The keys of barrier session `n`: a tag, then `_ID_`, then the decimal text of `n`.
   * The tags start with different letters, so the three keys are pairwise distinct.
   */
  function KeysFor(n: int): (keys: SessionKeys)
    ensures keys.processCount != keys.activeCalls && keys.activeCalls != keys.ready
    ensures keys.processCount != keys.ready
  {
    SessionKeys(ProcessCountTag + BarrierIdTag + IntToString(n),
                ActiveCallsTag + BarrierIdTag + IntToString(n),
                ReadyTag + BarrierIdTag + IntToString(n))
  }

  function KeySet(n: int): set<string> {
    {KeysFor(n).processCount, KeysFor(n).activeCalls, KeysFor(n).ready}
  }

  /** A session's three keys are pairwise distinct, and two sessions share no key. */
  lemma SessionKeysDistinct(n: int, m: int)
    ensures |KeySet(n)| == 3
    ensures n != m ==> KeySet(n) !! KeySet(m)
  {
    var kn, km := KeysFor(n), KeysFor(m);
    assert kn.processCount[0] == 'P' && kn.activeCalls[0] == 'A' && kn.ready[0] == 'R';
    assert km.processCount[0] == 'P' && km.activeCalls[0] == 'A' && km.ready[0] == 'R';
    if n != m {
      IntToStringInjective(n, m);
      PrefixCancel(ProcessCountTag + BarrierIdTag, IntToString(n), IntToString(m));
      PrefixCancel(ActiveCallsTag + BarrierIdTag, IntToString(n), IntToString(m));
      PrefixCancel(ReadyTag + BarrierIdTag, IntToString(n), IntToString(m));
    }
  }

  lemma PrefixCancel(p: string, x: string, y: string)
    ensures p + x == p + y ==> x == y
  {
    if p + x == p + y {
      assert x == (p + x)[|p|..];
      assert y == (p + y)[|p|..];
    }
  }

  /** The process-wide session counter (`barrierId`), starting at 0. */
  class BarrierCounter {
    var barrierId: int
    /** Every key handed out so far. */
    ghost var issued: set<string>

    ghost predicate Valid()
      reads this
    {
      barrierId >= 0 &&
      forall k :: k in issued ==> exists m :: 1 <= m <= barrierId && k in KeySet(m)
    }

    constructor ()
      ensures Valid() && barrierId == 0 && issued == {}
    {
      barrierId := 0;
      issued := {};
    }

    /** Increment the counter, then derive the three keys of the new session. */
    method GetNextKeyIds() returns (keys: SessionKeys)
      requires Valid()
      modifies this
      ensures Valid() && barrierId == old(barrierId) + 1
      ensures keys == KeysFor(barrierId)
      ensures |KeySet(barrierId)| == 3 && KeySet(barrierId) !! old(issued)
      ensures issued == old(issued) + KeySet(barrierId)
    {
      barrierId := barrierId + 1;
      var processCountKey := ProcessCountTag + BarrierIdTag + IntToString(barrierId);
      var activeCallCountKey := ActiveCallsTag + BarrierIdTag + IntToString(barrierId);
      var readyKey := ReadyTag + BarrierIdTag + IntToString(barrierId);
      keys := SessionKeys(processCountKey, activeCallCountKey, readyKey);
      SessionKeysDistinct(barrierId, barrierId);
      forall k | k in issued ensures k !in KeySet(barrierId) {
        var m :| 1 <= m <= barrierId - 1 && k in KeySet(m);
        SessionKeysDistinct(m, barrierId);
      }
      issued := issued + KeySet(barrierId);
    }
  }

  /** Both counter keys of session `n` can be added to. */
  predicate Counters(data: map<string, string>, n: int) {
    HoldsCounter(data, KeysFor(n).activeCalls) && HoldsCounter(data, KeysFor(n).processCount)
  }

  /**
   * The store updates one participant of session `n` makes before it waits: add
   * its active calls, count itself in, and raise the ready flag if it made the
   * count reach `worldSize`.
   */
  function Arrive(data: map<string, string>, n: int, worldSize: int, activeCalls: int): (d: map<string, string>)
    requires Counters(data, n)
    ensures Counters(d, n)
  {
    var keys := KeysFor(n);
    SessionKeysDistinct(n, n);
    var calls := CounterValue(data, keys.activeCalls) + activeCalls;
    var count := CounterValue(data, keys.processCount) + 1;
    IntRoundTrip(calls);
    IntRoundTrip(count);
    Written(data, keys, IntToString(calls), IntToString(count), count == worldSize)
  }

  /** `data` with both counters of `keys` written, and the ready flag set when `raise`. */
  function Written(data: map<string, string>, keys: SessionKeys, calls: string, count: string, raise: bool)
    : map<string, string>
  {
    var counted := data[keys.activeCalls := calls][keys.processCount := count];
    if raise then counted[keys.ready := ""] else counted
  }

  /**
   * One arrival adds its calls to the active-calls counter and one to the process
   * count; the ready flag is up afterwards exactly when it was up before or this
   * arrival is the `worldSize`-th, which sets it to the empty marker, and any other
   * arrival leaves it as it was; no key outside the session changes.
   */
  lemma ArriveEffect(data: map<string, string>, n: int, worldSize: int, activeCalls: int)
    requires Counters(data, n)
    ensures var d := Arrive(data, n, worldSize, activeCalls);
      && CounterValue(d, KeysFor(n).activeCalls) == CounterValue(data, KeysFor(n).activeCalls) + activeCalls
      && CounterValue(d, KeysFor(n).processCount) == CounterValue(data, KeysFor(n).processCount) + 1
      && (KeysFor(n).ready in d <==>
            KeysFor(n).ready in data || CounterValue(data, KeysFor(n).processCount) + 1 == worldSize)
      && (CounterValue(data, KeysFor(n).processCount) + 1 == worldSize ==> d[KeysFor(n).ready] == "")
      && (CounterValue(data, KeysFor(n).processCount) + 1 != worldSize && KeysFor(n).ready in data ==>
            d[KeysFor(n).ready] == data[KeysFor(n).ready])
      && forall k :: k !in KeySet(n) ==> (k in d <==> k in data) && (k in data ==> d[k] == data[k])
  {
    ArriveCounts(data, n, worldSize, activeCalls);
    ArriveReady(data, n, worldSize, activeCalls);
    ArriveFrame(data, n, worldSize, activeCalls);
  }

  lemma ArriveCounts(data: map<string, string>, n: int, worldSize: int, activeCalls: int)
    requires Counters(data, n)
    ensures var d := Arrive(data, n, worldSize, activeCalls);
      && CounterValue(d, KeysFor(n).activeCalls) == CounterValue(data, KeysFor(n).activeCalls) + activeCalls
      && CounterValue(d, KeysFor(n).processCount) == CounterValue(data, KeysFor(n).processCount) + 1
  {
    var keys := KeysFor(n);
    var calls := CounterValue(data, keys.activeCalls) + activeCalls;
    var count := CounterValue(data, keys.processCount) + 1;
    var d := Arrive(data, n, worldSize, activeCalls);
    ReadBack(data, keys, IntToString(calls), IntToString(count), count == worldSize);
    CounterHolds(d, keys.activeCalls, calls);
    CounterHolds(d, keys.processCount, count);
  }

  /** The two counters read back as written, whether or not the flag goes up. */
  lemma ReadBack(data: map<string, string>, keys: SessionKeys, calls: string, count: string, raise: bool)
    requires keys.processCount != keys.activeCalls && keys.activeCalls != keys.ready
    requires keys.processCount != keys.ready
    ensures var d := Written(data, keys, calls, count, raise);
      keys.activeCalls in d && d[keys.activeCalls] == calls && keys.processCount in d && d[keys.processCount] == count
  {
  }

  /** A key holding the decimal text of `v` counts `v`. */
  lemma CounterHolds(d: map<string, string>, key: string, v: int)
    requires key in d && d[key] == IntToString(v)
    ensures HoldsCounter(d, key) && CounterValue(d, key) == v
  {
    IntRoundTrip(v);
  }

  lemma ArriveReady(data: map<string, string>, n: int, worldSize: int, activeCalls: int)
    requires Counters(data, n)
    ensures var d := Arrive(data, n, worldSize, activeCalls);
      && (KeysFor(n).ready in d <==>
            KeysFor(n).ready in data || CounterValue(data, KeysFor(n).processCount) + 1 == worldSize)
      && (CounterValue(data, KeysFor(n).processCount) + 1 == worldSize ==> d[KeysFor(n).ready] == "")
      && (CounterValue(data, KeysFor(n).processCount) + 1 != worldSize && KeysFor(n).ready in data ==>
            d[KeysFor(n).ready] == data[KeysFor(n).ready])
  {
    SessionKeysDistinct(n, n);
  }

  lemma ArriveFrame(data: map<string, string>, n: int, worldSize: int, activeCalls: int)
    requires Counters(data, n)
    ensures var d := Arrive(data, n, worldSize, activeCalls);
      forall k :: k !in KeySet(n) ==> (k in d <==> k in data) && (k in data ==> d[k] == data[k])
  {
    SessionKeysDistinct(n, n);
  }

  /**
   * The arrival half of `syncCallCount`: take the next session's keys, add this
   * caller's active calls and count it in, and raise the ready flag when it is
   * the `worldSize`-th arrival. It does not wait.
   */
  method ArriveAtBarrier(store: Store, counter: BarrierCounter, worldSize: int, activeCalls: int)
    returns (keys: SessionKeys)
    requires counter.Valid()
    requires Counters(store.data, counter.barrierId + 1)
    modifies store, counter
    ensures counter.Valid() && counter.barrierId == old(counter.barrierId) + 1
    ensures counter.issued == old(counter.issued) + KeySet(counter.barrierId)
    ensures keys == KeysFor(counter.barrierId)
    ensures store.data == Arrive(old(store.data), counter.barrierId, worldSize, activeCalls)
  {
    ghost var before := store.data;
    keys := counter.GetNextKeyIds();
    ghost var n := counter.barrierId;
    var totalCallCount := store.Add(keys.activeCalls, activeCalls);
    CounterUntouched(before, keys.activeCalls, keys.processCount, IntToString(totalCallCount));
    var totalProcessCount := store.Add(keys.processCount, 1);
    if totalProcessCount == worldSize {
      store.Set(keys.ready, "");
    }
    ArriveSteps(before, n, worldSize, activeCalls, totalCallCount, totalProcessCount);
  }

  /**
   * The read-back half: once the ready flag is up, read the active-calls total.
   * The wait on the ready key becomes the precondition that it is present.
   */
  method ReadTotal(store: Store, keys: SessionKeys) returns (total: int)
    requires keys.ready in store.data
    requires keys.activeCalls in store.data && HoldsCounter(store.data, keys.activeCalls)
    ensures total == CounterValue(store.data, keys.activeCalls)
  {
    var activeCallCountData := store.Get(keys.activeCalls);
    total := ParseInt(activeCallCountData).value;
  }

  /**
   * The whole of `syncCallCount` for a caller whose wait returns at once: the
   * ready flag is already up, or this caller raises it.
   */
  method SyncCallCount(store: Store, counter: BarrierCounter, worldSize: int, activeCalls: int)
    returns (total: int)
    requires counter.Valid()
    requires Counters(store.data, counter.barrierId + 1)
    requires KeysFor(counter.barrierId + 1).ready in store.data ||
             CounterValue(store.data, KeysFor(counter.barrierId + 1).processCount) + 1 == worldSize
    modifies store, counter
    ensures counter.Valid() && counter.barrierId == old(counter.barrierId) + 1
    ensures counter.issued == old(counter.issued) + KeySet(counter.barrierId)
    ensures store.data == Arrive(old(store.data), counter.barrierId, worldSize, activeCalls)
    ensures total == CounterValue(store.data, KeysFor(counter.barrierId).activeCalls)
    ensures total == CounterValue(old(store.data), KeysFor(counter.barrierId).activeCalls) + activeCalls
  {
    ghost var before := store.data;
    ghost var n := counter.barrierId + 1;
    var keys := ArriveAtBarrier(store, counter, worldSize, activeCalls);
    ArriveEffect(before, n, worldSize, activeCalls);
    ArriveWrites(before, n, worldSize, activeCalls);
    total := ReadTotal(store, keys);
  }

  /** An arrival leaves both counters of its session present. */
  lemma ArriveWrites(data: map<string, string>, n: int, worldSize: int, activeCalls: int)
    requires Counters(data, n)
    ensures KeysFor(n).activeCalls in Arrive(data, n, worldSize, activeCalls)
    ensures KeysFor(n).processCount in Arrive(data, n, worldSize, activeCalls)
  {
    var keys := KeysFor(n);
    var calls := CounterValue(data, keys.activeCalls) + activeCalls;
    var count := CounterValue(data, keys.processCount) + 1;
    ArriveSteps(data, n, worldSize, activeCalls, calls, count);
    ReadBack(data, keys, IntToString(calls), IntToString(count), count == worldSize);
  }

  /**
   * A session of exactly `worldSize >= 1` participants on fresh keys: before the
   * last one arrives the ready flag is down, so nobody's read-back starts early;
   * once all have arrived the flag is up, and every participant's read-back
   * (`ReadTotal`) can proceed and answers the sum of all contributions.
   */
  lemma SessionReadsSum(data: map<string, string>, n: int, worldSize: int, contributions: seq<int>)
    requires Unused(data, n) && |contributions| == worldSize >= 1
    ensures forall k :: 0 <= k < |contributions| ==>
      KeysFor(n).ready !in ArriveAll(data, n, worldSize, contributions[..k])
    ensures var d := ArriveAll(data, n, worldSize, contributions);
      && KeysFor(n).ready in d
      && KeysFor(n).activeCalls in d && HoldsCounter(d, KeysFor(n).activeCalls)
      && CounterValue(d, KeysFor(n).activeCalls) == Sum(contributions)
  {
    forall k | 0 <= k < |contributions|
      ensures KeysFor(n).ready !in ArriveAll(data, n, worldSize, contributions[..k])
    {
      BarrierTotals(data, n, worldSize, contributions[..k]);
    }
    BarrierTotals(data, n, worldSize, contributions);
    var earlier := contributions[..|contributions| - 1];
    ArriveWrites(ArriveAll(data, n, worldSize, earlier), n, worldSize, contributions[|contributions| - 1]);
  }

  /** The adds and the conditional set of `ArriveAtBarrier`, written out, are `Arrive`. */
  lemma ArriveSteps(data: map<string, string>, n: int, worldSize: int, activeCalls: int, calls: int, count: int)
    requires Counters(data, n)
    requires calls == CounterValue(data, KeysFor(n).activeCalls) + activeCalls
    requires count == CounterValue(data, KeysFor(n).processCount) + 1
    ensures Arrive(data, n, worldSize, activeCalls) ==
            Written(data, KeysFor(n), IntToString(calls), IntToString(count), count == worldSize)
  {
  }

  /** Writing one key leaves the counter at another key as it was. */
  lemma CounterUntouched(data: map<string, string>, written: string, key: string, v: string)
    requires written != key && HoldsCounter(data, key)
    ensures HoldsCounter(data[written := v], key) && CounterValue(data[written := v], key) == CounterValue(data, key)
  {
    if key in data {
      assert data[written := v][key] == data[key];
    }
  }

  function Sum(contributions: seq<int>): int {
    if contributions == [] then 0
    else Sum(contributions[..|contributions| - 1]) + contributions[|contributions| - 1]
  }

  /** The store after participants with these contributions arrived at session `n`, in order. */
  function ArriveAll(data: map<string, string>, n: int, worldSize: int, contributions: seq<int>): (d: map<string, string>)
    requires Counters(data, n)
    ensures Counters(d, n)
    decreases |contributions|
  {
    if contributions == [] then data
    else
      var earlier := contributions[..|contributions| - 1];
      Arrive(ArriveAll(data, n, worldSize, earlier), n, worldSize, contributions[|contributions| - 1])
  }

  /** The keys of session `n` are not yet in the store. */
  predicate Unused(data: map<string, string>, n: int) {
    KeysFor(n).processCount !in data && KeysFor(n).activeCalls !in data && KeysFor(n).ready !in data
  }

  /**
   * On fresh keys, after participants arrive one by one the active-calls key holds
   * the sum of their contributions and the process count their number; the ready
   * flag is up exactly once `worldSize` of them have arrived, so none proceeds early.
   */
  lemma {:induction false} BarrierTotals(data: map<string, string>, n: int, worldSize: int, contributions: seq<int>)
    requires Unused(data, n)
    ensures var d := ArriveAll(data, n, worldSize, contributions);
      && CounterValue(d, KeysFor(n).activeCalls) == Sum(contributions)
      && CounterValue(d, KeysFor(n).processCount) == |contributions|
      && (KeysFor(n).ready in d <==> 1 <= worldSize <= |contributions|)
    decreases |contributions|
  {
    if contributions != [] {
      var earlier := contributions[..|contributions| - 1];
      BarrierTotals(data, n, worldSize, earlier);
      ArriveEffect(ArriveAll(data, n, worldSize, earlier), n, worldSize, contributions[|contributions| - 1]);
    }
  }

  /** Arrivals at session `m` leave the keys of every other session alone. */
  lemma {:induction false} ArriveAllFrame(data: map<string, string>, n: int, m: int, worldSize: int, contributions: seq<int>)
    requires n != m && Counters(data, m)
    ensures var d := ArriveAll(data, m, worldSize, contributions);
      forall k :: k in KeySet(n) ==> (k in d <==> k in data) && (k in data ==> d[k] == data[k])
    decreases |contributions|
  {
    SessionKeysDistinct(n, m);
    if contributions != [] {
      var earlier := contributions[..|contributions| - 1];
      ArriveAllFrame(data, n, m, worldSize, earlier);
      ArriveEffect(ArriveAll(data, m, worldSize, earlier), m, worldSize, contributions[|contributions| - 1]);
    }
  }

  /**
   * Two sessions run back to back on fresh keys each end with their own totals:
   * the second does not disturb the first.
   */
  lemma BackToBackSessions(data: map<string, string>, n: int, m: int, worldSize: int,
                           first: seq<int>, second: seq<int>)
    requires n != m && Unused(data, n) && Unused(data, m)
    ensures Unused(ArriveAll(data, n, worldSize, first), m)
    ensures var d2 := ArriveAll(ArriveAll(data, n, worldSize, first), m, worldSize, second);
      && Counters(d2, n)
      && CounterValue(d2, KeysFor(n).activeCalls) == Sum(first)
      && CounterValue(d2, KeysFor(m).activeCalls) == Sum(second)
  {
    var d1 := ArriveAll(data, n, worldSize, first);
    SessionKeysDistinct(n, m);
    ArriveAllFrame(data, m, n, worldSize, first);
    assert Unused(d1, m);
    var d2 := ArriveAll(d1, m, worldSize, second);
    BarrierTotals(data, n, worldSize, first);
    BarrierTotals(d1, m, worldSize, second);
    ArriveAllFrame(d1, n, m, worldSize, second);
    var key := KeysFor(n).activeCalls;
    assert key in KeySet(n);
    assert (key in d2 <==> key in d1) && (key in d1 ==> d2[key] == d1[key]);
    assert CounterValue(d2, key) == CounterValue(d1, key);
  }
}
