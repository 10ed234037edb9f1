/** The indicator throttle that prunes itself (internal/handlers/indicators.go). */
module Throttle {

  type Key = string

  /** indicatorMinInterval, in microseconds. */
  const INTERVAL := 1_000_000
  /** How many entries are kept before stale ones are dropped. */
  const PRUNE_ABOVE := 10000

  predicate TooSoon(last: map<Key, int>, key: Key, now: int) {
    key in last && now - last[key] < INTERVAL
  }

  /** The entries that still matter at now. */
  function Prune(last: map<Key, int>, now: int): (r: map<Key, int>) {
    map k | k in last && now - last[k] < INTERVAL :: last[k]
  }

  /** The entries after one call, and its answer. */
  function Allow(last: map<Key, int>, key: Key, now: int): (r: (map<Key, int>, bool)) {
    if TooSoon(last, key, now) then (last, false)
    else ((if |last| > PRUNE_ABOVE then Prune(last, now) else last)[key := now], true)
  }

  /** The same without ever forgetting. */
  function AllowUnpruned(last: map<Key, int>, key: Key, now: int): (r: (map<Key, int>, bool)) {
    if TooSoon(last, key, now) then (last, false) else (last[key := now], true)
  }

  class IndicatorThrottle {
    var last: map<Key, int>

    constructor ()
      ensures last == map[]
    {
      last := map[];
    }

    method Call(key: Key, now: int) returns (allowed: bool)
      modifies this
      ensures (last, allowed) == Allow(old(last), key, now)
    {
      if key in last && now - last[key] < INTERVAL {
        return false;
      }
      if |last| > PRUNE_ABOVE {
        var rest := last.Keys;
        while rest != {}
          invariant rest <= old(last).Keys
          invariant last == map k | k in old(last) && (k in rest || now - old(last)[k] < INTERVAL) :: old(last)[k]
        {
          var k :| k in rest;
          rest := rest - {k};
          if now - last[k] >= INTERVAL {
            last := last - {k};
          }
        }
        assert last == Prune(old(last), now);
      }
      last := last[key := now];
      allowed := true;
    }
  }

  // ---- Runs ----

  datatype Request = Request(key: Key, time: int)

  predicate InOrder(calls: seq<Request>) {
    forall i, j :: 0 <= i < j < |calls| ==> calls[i].time <= calls[j].time
  }

  function Answers(last: map<Key, int>, calls: seq<Request>): (answers: seq<bool>)
    ensures |answers| == |calls|
    decreases |calls|
  {
    if calls == [] then []
    else
      var (next, ok) := Allow(last, calls[0].key, calls[0].time);
      [ok] + Answers(next, calls[1..])
  }

  function UnprunedAnswers(last: map<Key, int>, calls: seq<Request>): (answers: seq<bool>)
    ensures |answers| == |calls|
    decreases |calls|
  {
    if calls == [] then []
    else
      var (next, ok) := AllowUnpruned(last, calls[0].key, calls[0].time);
      [ok] + UnprunedAnswers(next, calls[1..])
  }

  /** pruned is all minus entries that can no longer refuse a call at now or later. */
  predicate PrunedAt(pruned: map<Key, int>, all: map<Key, int>, now: int) {
    && (forall k :: k in pruned ==> k in all && pruned[k] == all[k])
    && (forall k :: k in all && k !in pruned ==> now - all[k] >= INTERVAL)
  }

  lemma {:induction false} PruningChangesNothingFrom(pruned: map<Key, int>, all: map<Key, int>, now: int,
                                                     calls: seq<Request>)
    requires PrunedAt(pruned, all, now) && InOrder(calls) && (calls != [] ==> now <= calls[0].time)
    ensures Answers(pruned, calls) == UnprunedAnswers(all, calls)
    decreases |calls|
  {
    if calls != [] {
      var Request(key, time) := calls[0];
      var next, rest := Allow(pruned, key, time).0, AllowUnpruned(all, key, time).0;
      assert TooSoon(pruned, key, time) <==> TooSoon(all, key, time);
      assert PrunedAt(next, rest, time);
      PruningChangesNothingFrom(next, rest, time, calls[1..]);
    }
  }

  /** When times do not go back, dropping stale entries changes no answer. */
  lemma PruningChangesNothing(calls: seq<Request>)
    requires InOrder(calls)
    ensures Answers(map[], calls) == UnprunedAnswers(map[], calls)
  {
    if calls != [] {
      PruningChangesNothingFrom(map[], map[], calls[0].time, calls);
    }
  }

  /** The times at which a key's calls got the answer yes. */
  function AllowedTimes(calls: seq<Request>, answers: seq<bool>, key: Key): (r: seq<int>)
    requires |answers| == |calls|
    decreases |calls|
  {
    if calls == [] then []
    else (if answers[0] && calls[0].key == key then [calls[0].time] else [])
         + AllowedTimes(calls[1..], answers[1..], key)
  }

  lemma {:induction false} AllowedAreApart(last: map<Key, int>, calls: seq<Request>, key: Key)
    ensures var times := AllowedTimes(calls, UnprunedAnswers(last, calls), key);
            && (forall i :: 0 <= i < |times| - 1 ==> times[i + 1] - times[i] >= INTERVAL)
            && (times != [] && key in last ==> times[0] - last[key] >= INTERVAL)
    decreases |calls|
  {
    if calls != [] {
      var (next, ok) := AllowUnpruned(last, calls[0].key, calls[0].time);
      AllowedAreApart(next, calls[1..], key);
      assert UnprunedAnswers(last, calls)[1..] == UnprunedAnswers(next, calls[1..]);
    }
  }

  lemma {:induction false} ApartOver(times: seq<int>, i: nat, j: nat)
    requires i <= j < |times|
    requires forall k :: 0 <= k < |times| - 1 ==> times[k + 1] - times[k] >= INTERVAL
    ensures times[j] - times[i] >= (j - i) * INTERVAL
    decreases j - i
  {
    if i < j {
      ApartOver(times, i, j - 1);
    }
  }

  /** So a key's allowed calls are an interval apart, and any window admits at
      most one per interval, plus one: from start to start + window, the i-th to
      the j-th allowed call, there are at most window / INTERVAL + 1. */
  lemma AllowedInWindow(calls: seq<Request>, key: Key, start: int, window: nat, i: nat, j: nat)
    requires InOrder(calls)
    requires var times := AllowedTimes(calls, Answers(map[], calls), key);
             i <= j < |times| && start <= times[i] && times[j] <= start + window
    ensures j - i + 1 <= window / INTERVAL + 1
    ensures var times := AllowedTimes(calls, Answers(map[], calls), key);
            i < j ==> times[j] - times[i] >= INTERVAL
  {
    PruningChangesNothing(calls);
    var times := AllowedTimes(calls, Answers(map[], calls), key);
    AllowedAreApart(map[], calls, key);
    ApartOver(times, i, j);
    assert (j - i) * INTERVAL <= window;
  }

  /** key's last allowed call before the i-th of calls, which began from last, was
      a second or more before it. */
  predicate LongSince(last: map<Key, int>, calls: seq<Request>, answers: seq<bool>, i: nat)
    requires i < |calls| == |answers|
  {
    && (calls[i].key in last ==> calls[i].time - last[calls[i].key] >= 1_000_000)
    && forall j :: 0 <= j < i && calls[j].key == calls[i].key && answers[j] ==> calls[i].time - calls[j].time >= 1_000_000
  }

  /** The first call's answer told, the rest are as from the entries it left. */
  lemma LongSinceNext(last: map<Key, int>, calls: seq<Request>, answers: seq<bool>, i: nat)
    requires InOrder(calls) && 0 < i < |calls| == |answers|
    requires answers[0] <==> !TooSoon(last, calls[0].key, calls[0].time)
    ensures LongSince(last, calls, answers, i)
            <==> LongSince(AllowUnpruned(last, calls[0].key, calls[0].time).0, calls[1..], answers[1..], i - 1)
  {
    var next := AllowUnpruned(last, calls[0].key, calls[0].time).0;
    if LongSince(last, calls, answers, i) {
      forall j | 0 <= j < i - 1 && calls[1..][j].key == calls[i].key && answers[1..][j]
        ensures calls[i].time - calls[1..][j].time >= 1_000_000
      {
        assert calls[1..][j] == calls[j + 1] && answers[1..][j] == answers[j + 1];
      }
    }
    if LongSince(next, calls[1..], answers[1..], i - 1) {
      forall j | 0 <= j < i && calls[j].key == calls[i].key && answers[j]
        ensures calls[i].time - calls[j].time >= 1_000_000
      {
        if j > 0 {
          assert calls[j] == calls[1..][j - 1] && answers[j] == answers[1..][j - 1];
        }
      }
    }
  }

  lemma {:induction false} AnswerIsFrom(last: map<Key, int>, calls: seq<Request>, i: nat)
    requires InOrder(calls) && i < |calls|
    ensures UnprunedAnswers(last, calls)[i] <==> LongSince(last, calls, UnprunedAnswers(last, calls), i)
    decreases |calls|
  {
    if i > 0 {
      var next := AllowUnpruned(last, calls[0].key, calls[0].time).0;
      AnswerIsFrom(next, calls[1..], i - 1);
      LongSinceNext(last, calls, UnprunedAnswers(last, calls), i);
      assert UnprunedAnswers(last, calls)[1..] == UnprunedAnswers(next, calls[1..]);
    }
  }

  /** When times do not go back, a call is allowed exactly when no earlier call of
      its key was allowed less than a second before it. */
  lemma AllowedIff(calls: seq<Request>, i: nat)
    requires InOrder(calls) && i < |calls|
    ensures var answers := Answers(map[], calls);
            answers[i] <==> forall j :: 0 <= j < i && calls[j].key == calls[i].key && answers[j] ==>
                                          calls[i].time - calls[j].time >= 1_000_000
  {
    PruningChangesNothing(calls);
    AnswerIsFrom(map[], calls, i);
  }

  /** An allowed call notes its time. Of more than 10000 entries only those noted
      less than a second before are left beside it; otherwise all are. */
  lemma StaleEntriesGo(last: map<Key, int>, key: Key, now: int, k: Key)
    requires Allow(last, key, now).1
    ensures var after := Allow(last, key, now).0;
            && key in after && after[key] == now
            && (k != key ==> (k in after <==> k in last && (|last| > 10000 ==> now - last[k] < 1_000_000)))
            && (k != key && k in after ==> after[k] == last[k])
  {
  }
}
