/** backend/app/services/quotas.py: the Redis sliding-window script and the Python around it. */
module SlidingWindow {
  import opened Collections
  import opened Wrappers

  // ------------------------------------------------------------------ sequences of timestamps

  /** The timestamps later than `bound`, in order. */
  function Newer(times: seq<int>, bound: int): (r: seq<int>)
    ensures |r| <= |times|
  {
    if times == [] then []
    else if times[0] > bound then [times[0]] + Newer(times[1..], bound)
    else Newer(times[1..], bound)
  }

  /** ZADD of a fresh member: a sorted set keeps its members in score order. */
  function Inserted(scores: seq<int>, time: int): (r: seq<int>)
    ensures |r| == |scores| + 1
  {
    if scores == [] || time < scores[0] then [time] + scores else [scores[0]] + Inserted(scores[1..], time)
  }

  function InsertedTimes(scores: seq<int>, time: int, n: nat): seq<int> {
    if n == 0 then scores else Inserted(InsertedTimes(scores, time, n - 1), time)
  }

  function Repeated(time: int, n: nat): (r: seq<int>)
    ensures |r| == n && forall i | 0 <= i < n :: r[i] == time
  {
    if n == 0 then [] else Repeated(time, n - 1) + [time]
  }

  ghost predicate Sorted(times: seq<int>) {
    forall i, j | 0 <= i < j < |times| :: times[i] <= times[j]
  }

  ghost function Least(times: seq<int>, default: int): int {
    if times == [] then default
    else if |times| == 1 then times[0]
    else if times[0] <= Least(times[1..], default) then times[0] else Least(times[1..], default)
  }

  lemma {:induction false} NewerMembers(times: seq<int>, bound: int, x: int)
    ensures x in Newer(times, bound) <==> x in times && x > bound
  {
    if times != [] {
      NewerMembers(times[1..], bound, x);
      assert times == [times[0]] + times[1..];
    }
  }

  lemma NewerCons(x: int, rest: seq<int>, bound: int)
    ensures Newer([x] + rest, bound) == (if x > bound then [x] else []) + Newer(rest, bound)
  {
    assert ([x] + rest)[1..] == rest;
  }

  lemma {:induction false} NewerConcat(a: seq<int>, b: seq<int>, bound: int)
    ensures Newer(a + b, bound) == Newer(a, bound) + Newer(b, bound)
  {
    if a == [] {
      assert a + b == b;
    } else {
      var x, rest := a[0], a[1..];
      NewerConcat(rest, b, bound);
      assert a == [x] + rest;
      Associates([x], rest, b);
      NewerCons(x, rest, bound);
      NewerCons(x, rest + b, bound);
      Associates(if x > bound then [x] else [], Newer(rest, bound), Newer(b, bound));
    }
  }

  lemma {:induction false} NewerAgain(times: seq<int>, low: int, high: int)
    requires low <= high
    ensures Newer(Newer(times, low), high) == Newer(times, high)
  {
    if times != [] {
      NewerAgain(times[1..], low, high);
      if times[0] > low {
        assert Newer(times, low)[1..] == Newer(times[1..], low);
      }
    }
  }

  lemma {:induction false} NewerSorted(times: seq<int>, bound: int)
    requires Sorted(times)
    ensures Sorted(Newer(times, bound))
  {
    if times != [] {
      NewerSorted(times[1..], bound);
      var rest := Newer(times[1..], bound);
      forall i | 0 <= i < |rest|
        ensures times[0] <= rest[i]
      {
        NewerMembers(times[1..], bound, rest[i]);
      }
    }
  }

  lemma {:induction false} InsertedMembers(scores: seq<int>, time: int)
    ensures multiset(Inserted(scores, time)) == multiset(scores) + multiset{time}
  {
    if scores != [] && time >= scores[0] {
      InsertedMembers(scores[1..], time);
      assert scores == [scores[0]] + scores[1..];
    }
  }

  lemma {:induction false} InsertedSorted(scores: seq<int>, time: int)
    requires Sorted(scores)
    ensures Sorted(Inserted(scores, time))
  {
    if scores != [] && time >= scores[0] {
      InsertedSorted(scores[1..], time);
      InsertedMembers(scores[1..], time);
      var rest := Inserted(scores[1..], time);
      forall i | 0 <= i < |rest|
        ensures scores[0] <= rest[i]
      {
        assert rest[i] in multiset(rest);
      }
    }
  }

  lemma InsertedAppends(before: seq<int>, listed: seq<int>, time: int)
    requires multiset(before) == multiset(listed)
    ensures multiset(Inserted(before, time)) == multiset(listed + [time])
  {
    InsertedMembers(before, time);
  }

  lemma {:induction false} InsertedTimesMembers(scores: seq<int>, time: int, n: nat)
    ensures multiset(InsertedTimes(scores, time, n)) == multiset(scores + Repeated(time, n))
  {
    if n == 0 {
      assert scores + [] == scores;
    } else {
      InsertedTimesMembers(scores, time, n - 1);
      var before, listed := InsertedTimes(scores, time, n - 1), scores + Repeated(time, n - 1);
      InsertedAppends(before, listed, time);
      assert scores + Repeated(time, n) == listed + [time];
    }
  }

  lemma {:induction false} InsertedTimesSorted(scores: seq<int>, time: int, n: nat)
    ensures |InsertedTimes(scores, time, n)| == |scores| + n
    ensures Sorted(scores) ==> Sorted(InsertedTimes(scores, time, n))
  {
    if n > 0 {
      InsertedTimesSorted(scores, time, n - 1);
      if Sorted(scores) {
        InsertedSorted(InsertedTimes(scores, time, n - 1), time);
      }
    }
  }

  /** Filtering commutes with reordering. */
  lemma {:induction false} NewerCount(times: seq<int>, bound: int, x: int)
    ensures multiset(Newer(times, bound))[x] == if x > bound then multiset(times)[x] else 0
  {
    if times != [] {
      NewerCount(times[1..], bound, x);
      assert times == [times[0]] + times[1..];
    }
  }

  lemma NewerPermuted(a: seq<int>, b: seq<int>, bound: int)
    requires multiset(a) == multiset(b)
    ensures multiset(Newer(a, bound)) == multiset(Newer(b, bound))
    ensures |Newer(a, bound)| == |Newer(b, bound)|
  {
    forall x: int
      ensures multiset(Newer(a, bound))[x] == multiset(Newer(b, bound))[x]
    {
      NewerCount(a, bound, x);
      NewerCount(b, bound, x);
    }
    assert |Newer(a, bound)| == |multiset(Newer(a, bound))|;
    assert |Newer(b, bound)| == |multiset(Newer(b, bound))|;
  }

  lemma {:induction false} LeastIsLeast(times: seq<int>, default: int)
    requires times != []
    ensures Least(times, default) in times
    ensures forall x | x in times :: Least(times, default) <= x
  {
    if |times| > 1 {
      LeastIsLeast(times[1..], default);
      assert times == [times[0]] + times[1..];
    }
  }

  lemma SortedStartsWithLeast(scores: seq<int>, times: seq<int>, default: int)
    requires Sorted(scores) && multiset(scores) == multiset(times) && scores != []
    ensures times != [] && scores[0] == Least(times, default)
  {
    assert |scores| == |multiset(scores)| == |multiset(times)| == |times|;
    LeastIsLeast(times, default);
    assert scores[0] in multiset(scores) && Least(times, default) in multiset(times);
    assert scores[0] in times && Least(times, default) in scores;
  }

  lemma {:induction false} NewerAll(times: seq<int>, bound: int)
    requires forall x | x in times :: x > bound
    ensures Newer(times, bound) == times
  {
    if times != [] {
      assert times[0] in times && forall x | x in times[1..] :: x in times;
      NewerAll(times[1..], bound);
    }
  }

  lemma SameMember(a: seq<int>, b: seq<int>, x: int)
    requires multiset(a) == multiset(b)
    ensures x in a <==> x in b
  {
    assert x in a <==> x in multiset(a);
    assert x in b <==> x in multiset(b);
  }

  lemma SameSize(a: seq<int>, b: seq<int>)
    requires multiset(a) == multiset(b)
    ensures |a| == |b|
  {
    assert |a| == |multiset(a)| && |b| == |multiset(b)|;
  }

  lemma NewerAbove(times: seq<int>, bound: int)
    ensures forall x | x in Newer(times, bound) :: x > bound
  {
    forall x | x in Newer(times, bound)
      ensures x > bound
    {
      NewerMembers(times, bound, x);
    }
  }

  lemma InsertedTimesAbove(scores: seq<int>, time: int, n: nat, bound: int)
    requires time > bound && forall x | x in scores :: x > bound
    ensures forall x | x in InsertedTimes(scores, time, n) :: x > bound
  {
    InsertedTimesMembers(scores, time, n);
    forall x | x in InsertedTimes(scores, time, n)
      ensures x > bound
    {
      SameMember(InsertedTimes(scores, time, n), scores + Repeated(time, n), x);
    }
  }

  /** Inserting into one sequence what is appended to another keeps them alike past `bound`. */
  lemma InsertAlike(kept: seq<int>, log: seq<int>, time: int, n: nat, bound: int)
    requires multiset(Newer(kept, bound)) == multiset(Newer(log, bound))
    ensures multiset(Newer(InsertedTimes(kept, time, n), bound)) == multiset(Newer(log + Repeated(time, n), bound))
  {
    InsertedTimesMembers(kept, time, n);
    NewerPermuted(InsertedTimes(kept, time, n), kept + Repeated(time, n), bound);
    AppendAlike(kept, log, Repeated(time, n), bound);
  }

  lemma AppendAlike(a: seq<int>, b: seq<int>, added: seq<int>, bound: int)
    requires multiset(Newer(a, bound)) == multiset(Newer(b, bound))
    ensures multiset(Newer(a + added, bound)) == multiset(Newer(b + added, bound))
  {
    NewerConcat(a, added, bound);
    NewerConcat(b, added, bound);
  }

  // ------------------------------------------------------------------ the script

  /** The key's sorted set, as its scores in order (members are unique, so every ZADD adds one),
      and the expiry set by PEXPIRE. No scores: the key does not exist. */
  datatype Key = Key(scores: seq<int>, expireAt: nat)

  /** One script call. `server` is Redis's clock when it runs and `now` the caller's timestamp;
      `expired` says that Redis has dropped the key before this call. */
  datatype Call = Call(server: nat, now: nat, cost: nat, expired: bool)

  datatype Answer = Answer(allowed: bool, count: nat, oldest: int)

  function Kept(key: Key, window: nat, call: Call): seq<int> {
    Newer(if call.expired then [] else key.scores, call.now - window)
  }

  predicate Admits(count: nat, limit: int, cost: nat) {
    if cost == 0 then count < limit else count + cost <= limit
  }

  function ScoresAfter(kept: seq<int>, limit: int, now: nat, cost: nat): seq<int> {
    if Admits(|kept|, limit, cost) then InsertedTimes(kept, now, cost) else kept
  }

  function AnswerFor(kept: seq<int>, limit: int, now: nat, cost: nat): Answer {
    var scores := ScoresAfter(kept, limit, now, cost);
    Answer(Admits(|kept|, limit, cost), |scores|, if scores == [] then now else scores[0])
  }

  function StepKey(key: Key, limit: int, window: nat, call: Call): Key {
    var scores := ScoresAfter(Kept(key, window, call), limit, call.now, call.cost);
    Key(scores, if scores == [] then key.expireAt else call.server + window)
  }

  function StepAnswer(key: Key, limit: int, window: nat, call: Call): Answer {
    AnswerFor(Kept(key, window, call), limit, call.now, call.cost)
  }

  // ------------------------------------------------------------------ runs

  /** The key after a run of calls from the empty key, all with one limit. */
  ghost function KeyAfter(calls: seq<Call>, limit: int, window: nat): Key {
    if calls == [] then Key([], 0)
    else StepKey(KeyAfter(calls[..|calls| - 1], limit, window), limit, window, calls[|calls| - 1])
  }

  ghost function AnswerAt(calls: seq<Call>, k: nat, limit: int, window: nat): Answer
    requires k < |calls|
  {
    StepAnswer(KeyAfter(calls[..k], limit, window), limit, window, calls[k])
  }

  /** The event log: the timestamp of every admitted event, in the order of admission. */
  ghost function Log(calls: seq<Call>, limit: int, window: nat): seq<int> {
    if calls == [] then [] else
      var last := calls[|calls| - 1];
      Logged(Log(calls[..|calls| - 1], limit, window), AnswerAt(calls, |calls| - 1, limit, window).allowed, last.now, last.cost)
  }

  function Logged(log: seq<int>, allowed: bool, now: nat, cost: nat): seq<int> {
    if allowed then log + Repeated(now, cost) else log
  }

  /** Redis drops a key no earlier than its expiry. It may do so at any time after. */
  ghost predicate Expires(calls: seq<Call>, limit: int, window: nat) {
    forall k {:trigger ExpiredAt(calls, k, limit, window)} | 0 <= k < |calls| :: ExpiredAt(calls, k, limit, window)
  }

  ghost predicate ExpiredAt(calls: seq<Call>, k: nat, limit: int, window: nat)
    requires k < |calls|
  {
    calls[k].expired ==> calls[k].server >= KeyAfter(calls[..k], limit, window).expireAt
  }

  /** `later` follows `earlier` on Redis's clock, and the callers' timestamps lose at most
      `skew` against it. With skew 0 and both clocks equal this is one nondecreasing clock. */
  predicate Follows(earlier: Call, later: Call, skew: nat) {
    earlier.server <= later.server && later.now - earlier.now >= later.server - earlier.server - skew
  }

  ghost predicate Clocked(calls: seq<Call>, skew: nat) {
    forall i, j {:trigger Follows(calls[i], calls[j], skew)} | 0 <= i < j < |calls| :: Follows(calls[i], calls[j], skew)
  }

  ghost predicate Stamped(calls: seq<Call>, time: int) {
    exists h :: 0 <= h < |calls| && calls[h].now == time
  }

  /** Everything in the key was stamped by a call of the run, and the expiry is that of the last call. */
  ghost predicate Tracked(calls: seq<Call>, key: Key, window: nat) {
    && Sorted(key.scores)
    && (forall s | s in key.scores :: Stamped(calls, s))
    && (key.scores != [] ==> calls != [] && key.expireAt == calls[|calls| - 1].server + window)
  }

  lemma StampedLonger(calls: seq<Call>, call: Call, time: int)
    requires Stamped(calls, time) || time == call.now
    ensures Stamped(calls + [call], time)
  {
    var all := calls + [call];
    if Stamped(calls, time) {
      var h :| 0 <= h < |calls| && calls[h].now == time;
      assert all[h].now == time;
    } else {
      assert all[|calls|].now == time;
    }
  }

  lemma InsertedTimesWhence(kept: seq<int>, time: int, n: nat, x: int)
    requires x in InsertedTimes(kept, time, n)
    ensures x in kept || x == time
  {
    InsertedTimesMembers(kept, time, n);
    SameMember(InsertedTimes(kept, time, n), kept + Repeated(time, n), x);
  }

  lemma KeptTracked(calls: seq<Call>, key: Key, window: nat, call: Call)
    requires Tracked(calls, key, window)
    ensures Sorted(Kept(key, window, call))
    ensures forall s | s in Kept(key, window, call) :: Stamped(calls, s)
  {
    var live := if call.expired then [] else key.scores;
    NewerSorted(live, call.now - window);
    forall s | s in Newer(live, call.now - window)
      ensures Stamped(calls, s)
    {
      NewerMembers(live, call.now - window, s);
    }
  }

  lemma StepTracked(calls: seq<Call>, key: Key, limit: int, window: nat, call: Call)
    requires Tracked(calls, key, window)
    ensures Tracked(calls + [call], StepKey(key, limit, window, call), window)
  {
    var kept := Kept(key, window, call);
    KeptTracked(calls, key, window, call);
    InsertedTimesSorted(kept, call.now, call.cost);
    forall s | s in StepKey(key, limit, window, call).scores
      ensures Stamped(calls + [call], s)
    {
      if s !in kept {
        InsertedTimesWhence(kept, call.now, call.cost, s);
      }
      StampedLonger(calls, call, s);
    }
  }

  lemma {:induction false} KeyTracked(calls: seq<Call>, limit: int, window: nat)
    ensures Tracked(calls, KeyAfter(calls, limit, window), window)
  {
    if calls != [] {
      var earlier, last := calls[..|calls| - 1], calls[|calls| - 1];
      KeyTracked(earlier, limit, window);
      StepTracked(earlier, KeyAfter(earlier, limit, window), limit, window, last);
      assert earlier + [last] == calls;
    }
  }

  /** One call moves the events later than `bound` of key and log alike. */
  lemma StepLosesNothing(key: Key, log: seq<int>, limit: int, window: nat, call: Call, bound: int)
    requires multiset(Newer(key.scores, bound)) == multiset(Newer(log, bound))
    requires call.now - window <= bound
    requires call.expired ==> Newer(key.scores, bound) == []
    ensures multiset(Newer(StepKey(key, limit, window, call).scores, bound)) ==
              multiset(Newer(Logged(log, StepAnswer(key, limit, window, call).allowed, call.now, call.cost), bound))
  {
    KeptLosesNothing(key, log, window, call, bound);
    ScoresLoseNothing(Kept(key, window, call), log, limit, call.now, call.cost, bound);
  }

  lemma KeptLosesNothing(key: Key, log: seq<int>, window: nat, call: Call, bound: int)
    requires multiset(Newer(key.scores, bound)) == multiset(Newer(log, bound))
    requires call.now - window <= bound
    requires call.expired ==> Newer(key.scores, bound) == []
    ensures multiset(Newer(Kept(key, window, call), bound)) == multiset(Newer(log, bound))
  {
    NewerAgain(if call.expired then [] else key.scores, call.now - window, bound);
  }

  lemma ScoresLoseNothing(kept: seq<int>, log: seq<int>, limit: int, now: nat, cost: nat, bound: int)
    requires multiset(Newer(kept, bound)) == multiset(Newer(log, bound))
    ensures multiset(Newer(ScoresAfter(kept, limit, now, cost), bound)) ==
              multiset(Newer(Logged(log, Admits(|kept|, limit, cost), now, cost), bound))
  {
    if Admits(|kept|, limit, cost) {
      InsertAlike(kept, log, now, cost, bound);
    }
  }

  /** No event is lost while it still matters: whatever call `next` could follow, the key and the
      log hold the same events later than `next.now - window + skew`. */
  lemma {:induction false} NothingLost(calls: seq<Call>, limit: int, window: nat, skew: nat, next: Call, bound: int)
    requires Expires(calls, limit, window) && Clocked(calls + [next], skew)
    requires bound >= next.now - window + skew
    ensures multiset(Newer(KeyAfter(calls, limit, window).scores, bound)) == multiset(Newer(Log(calls, limit, window), bound))
    decreases |calls|
  {
    if calls != [] {
      var earlier, last := calls[..|calls| - 1], calls[|calls| - 1];
      var key := KeyAfter(earlier, limit, window);
      ShorterRun(calls, limit, window, skew, next);
      NothingLost(earlier, limit, window, skew, next, bound);
      assert (calls + [next])[|calls| - 1] == last && (calls + [next])[|calls|] == next;
      assert Follows(last, next, skew) && ExpiredAt(calls, |calls| - 1, limit, window);
      if last.expired {
        Outdated(earlier, limit, window, skew, next, bound);
      }
      assert calls[..|calls| - 1] == earlier;
      StepLosesNothing(key, Log(earlier, limit, window), limit, window, last, bound);
    }
  }

  lemma ShorterRun(calls: seq<Call>, limit: int, window: nat, skew: nat, next: Call)
    requires calls != [] && Expires(calls, limit, window) && Clocked(calls + [next], skew)
    ensures var earlier := calls[..|calls| - 1];
      Expires(earlier, limit, window) && Clocked(earlier + [next], skew) && Clocked(calls, skew)
  {
    var earlier := calls[..|calls| - 1];
    forall k | 0 <= k < |earlier|
      ensures ExpiredAt(earlier, k, limit, window)
    {
      assert ExpiredAt(calls, k, limit, window) && earlier[..k] == calls[..k];
    }
    forall i, j | 0 <= i < j < |earlier + [next]|
      ensures Follows((earlier + [next])[i], (earlier + [next])[j], skew)
    {
      var all := calls + [next];
      assert all[i] == (earlier + [next])[i];
      assert (earlier + [next])[j] == if j < |earlier| then all[j] else all[|calls|];
      assert Follows(all[i], all[if j < |earlier| then j else |calls|], skew);
    }
    forall i, j | 0 <= i < j < |calls|
      ensures Follows(calls[i], calls[j], skew)
    {
      assert (calls + [next])[i] == calls[i] && (calls + [next])[j] == calls[j];
    }
  }

  lemma StampIsOld(calls: seq<Call>, window: nat, skew: nat, later: Call, h: nat)
    requires Clocked(calls + [later], skew) && h < |calls|
    requires later.server >= calls[|calls| - 1].server + window
    ensures calls[h].now <= later.now - window + skew
  {
    var all, n := calls + [later], |calls|;
    assert all[h] == calls[h] && all[n - 1] == calls[n - 1] && all[n] == later;
    assert Follows(all[h], all[n], skew) && (h < n - 1 ==> Follows(all[h], all[n - 1], skew));
  }

  /** A key past its expiry holds only entries that no window of a later call reaches. */
  lemma Outdated(calls: seq<Call>, limit: int, window: nat, skew: nat, later: Call, bound: int)
    requires Clocked(calls + [later], skew)
    requires later.server >= KeyAfter(calls, limit, window).expireAt
    requires bound >= later.now - window + skew
    ensures Newer(KeyAfter(calls, limit, window).scores, bound) == []
  {
    var key := KeyAfter(calls, limit, window);
    KeyTracked(calls, limit, window);
    if Newer(key.scores, bound) != [] {
      var s := Newer(key.scores, bound)[0];
      assert s in Newer(key.scores, bound);
      NewerMembers(key.scores, bound, s);
      var h :| 0 <= h < |calls| && calls[h].now == s;
      StampIsOld(calls, window, skew, later, h);
    }
  }

  // ------------------------------------------------------------------ no window over-admits

  /** The events in the half-open interval (low, high]. */
  ghost function CountWithin(times: seq<int>, low: int, high: int): nat {
    if times == [] then 0
    else CountWithin(times[..|times| - 1], low, high) + if low < times[|times| - 1] <= high then 1 else 0
  }

  lemma {:induction false} CountWithinRepeated(times: seq<int>, time: int, n: nat, low: int, high: int)
    ensures CountWithin(times + Repeated(time, n), low, high) ==
              CountWithin(times, low, high) + if low < time <= high then n else 0
  {
    if n == 0 {
      assert times + [] == times;
    } else {
      CountWithinRepeated(times, time, n - 1, low, high);
      var longer := times + Repeated(time, n);
      assert longer[..|longer| - 1] == times + Repeated(time, n - 1);
    }
  }

  /** Counting an interval never counts more than everything later than its start, and counts
      exactly that when nothing is later than its end. */
  lemma {:induction false} CountWithinNewer(times: seq<int>, low: int, high: int)
    ensures CountWithin(times, low, high) <= |Newer(times, low)|
    ensures (forall x | x in times :: x <= high) ==> CountWithin(times, low, high) == |Newer(times, low)|
  {
    if times != [] {
      var earlier, last := times[..|times| - 1], times[|times| - 1];
      CountWithinNewer(earlier, low, high);
      NewerConcat(earlier, [last], low);
      assert earlier + [last] == times;
      assert Newer([last], low) == if last > low then [last] else [];
      assert last in times && forall x | x in earlier :: x in times;
    }
  }

  /** The guarantee of the limiter, over every run with one limit: any interval of window length
      less the clock skew holds at most `limit` admitted events. */
  lemma {:induction false} NoWindowOverAdmits(calls: seq<Call>, limit: int, window: nat, skew: nat, end: int)
    requires Expires(calls, limit, window) && Clocked(calls, skew)
    ensures CountWithin(Log(calls, limit, window), end - window + skew, end) <= if limit < 0 then 0 else limit
    decreases |calls|
  {
    if calls != [] {
      var earlier, last := calls[..|calls| - 1], calls[|calls| - 1];
      assert earlier + [last] == calls;
      EarlierRun(calls, limit, window, skew);
      NoWindowOverAdmits(earlier, limit, window, skew, end);
      assert ExpiredAt(calls, |calls| - 1, limit, window);
      OneMoreFits(earlier, last, limit, window, skew, end);
    }
  }

  lemma OneMoreFits(calls: seq<Call>, next: Call, limit: int, window: nat, skew: nat, end: int)
    requires Expires(calls, limit, window) && Clocked(calls + [next], skew)
    requires next.expired ==> next.server >= KeyAfter(calls, limit, window).expireAt
    requires CountWithin(Log(calls, limit, window), end - window + skew, end) <= if limit < 0 then 0 else limit
    ensures var allowed := StepAnswer(KeyAfter(calls, limit, window), limit, window, next).allowed;
      CountWithin(Logged(Log(calls, limit, window), allowed, next.now, next.cost), end - window + skew, end)
        <= if limit < 0 then 0 else limit
  {
    var key, log, low := KeyAfter(calls, limit, window), Log(calls, limit, window), end - window + skew;
    var allowed := StepAnswer(key, limit, window, next).allowed;
    LoggedCount(log, allowed, next.now, next.cost, low, end);
    if low < next.now <= end {
      NothingLost(calls, limit, window, skew, next, low);
      SameSize(Newer(key.scores, low), Newer(log, low));
      if next.expired {
        Outdated(calls, limit, window, skew, next, low);
      }
      AdmittedFits(key, log, limit, window, next, low, end);
    }
  }

  lemma LoggedCount(log: seq<int>, allowed: bool, now: nat, cost: nat, low: int, end: int)
    ensures CountWithin(Logged(log, allowed, now, cost), low, end) ==
              CountWithin(log, low, end) + if allowed && low < now <= end then cost else 0
  {
    CountWithinRepeated(log, now, cost, low, end);
  }

  lemma AdmittedFits(key: Key, log: seq<int>, limit: int, window: nat, call: Call, low: int, end: int)
    requires |Newer(key.scores, low)| == |Newer(log, low)|
    requires call.expired ==> Newer(key.scores, low) == []
    requires call.now - window <= low
    ensures StepAnswer(key, limit, window, call).allowed && call.cost > 0 ==>
              CountWithin(log, low, end) + call.cost <= limit
  {
    NewerAgain(if call.expired then [] else key.scores, call.now - window, low);
    assert |Newer(Kept(key, window, call), low)| == |Newer(log, low)|;
    CountWithinNewer(log, low, end);
  }

  lemma EarlierRun(calls: seq<Call>, limit: int, window: nat, skew: nat)
    requires calls != [] && Expires(calls, limit, window) && Clocked(calls, skew)
    ensures Expires(calls[..|calls| - 1], limit, window) && Clocked(calls[..|calls| - 1], skew)
  {
    var earlier := calls[..|calls| - 1];
    forall k | 0 <= k < |earlier|
      ensures ExpiredAt(earlier, k, limit, window)
    {
      assert ExpiredAt(calls, k, limit, window) && earlier[..k] == calls[..k];
    }
  }

  // ------------------------------------------------------------------ the event log decides everything

  /** What the limiter promises, said of the event log alone: no key, no purge, no expiry. */
  ghost function LogAnswer(log: seq<int>, limit: int, window: nat, now: nat, cost: nat): Answer {
    var used := |Newer(log, now - window)|;
    var allowed := Admits(used, limit, cost);
    var counted := Newer(Logged(log, allowed, now, cost), now - window);
    Answer(allowed, |counted|, Least(counted, now))
  }

  ghost function LogStep(log: seq<int>, limit: int, window: nat, now: nat, cost: nat): seq<int> {
    Logged(log, LogAnswer(log, limit, window, now, cost).allowed, now, cost)
  }

  ghost function SpecLog(calls: seq<Call>, limit: int, window: nat): seq<int> {
    if calls == [] then [] else
      var last := calls[|calls| - 1];
      LogStep(SpecLog(calls[..|calls| - 1], limit, window), limit, window, last.now, last.cost)
  }

  /** On one nondecreasing clock the script answers every call as the event log says. */
  lemma AnswersFollowLog(calls: seq<Call>, limit: int, window: nat, k: nat)
    requires window > 0 && k < |calls|
    requires Expires(calls, limit, window) && Clocked(calls, 0)
    ensures AnswerAt(calls, k, limit, window) == LogAnswer(Log(calls[..k], limit, window), limit, window, calls[k].now, calls[k].cost)
  {
    var run, call := calls[..k], calls[k];
    var key, log, bound := KeyAfter(run, limit, window), Log(run, limit, window), call.now - window;
    PrefixRun(calls, limit, window, 0, k);
    KeyTracked(run, limit, window);
    NothingLost(run, limit, window, 0, call, bound);
    assert ExpiredAt(calls, k, limit, window);
    if call.expired {
      Outdated(run, limit, window, 0, call, bound);
    }
    StepFollowsLog(key, log, limit, window, call);
  }

  /** In order, what the log has later than `bound`. */
  ghost predicate Mirrors(kept: seq<int>, log: seq<int>, bound: int) {
    Sorted(kept) && (forall x | x in kept :: x > bound) && multiset(kept) == multiset(Newer(log, bound))
  }

  /** What the purge leaves is, in order, what the log has in the window. */
  lemma KeptMatchesLog(key: Key, log: seq<int>, window: nat, call: Call)
    requires Sorted(key.scores)
    requires multiset(Newer(key.scores, call.now - window)) == multiset(Newer(log, call.now - window))
    requires call.expired ==> Newer(key.scores, call.now - window) == []
    ensures Mirrors(Kept(key, window, call), log, call.now - window)
  {
    NewerAbove(key.scores, call.now - window);
    NewerSorted(key.scores, call.now - window);
  }

  /** A call is admitted exactly if what it costs, at least 1, fits on top of the admitted events
      in (now - window, now]. */
  lemma AdmittedIffRoom(calls: seq<Call>, limit: int, window: nat, k: nat)
    requires window > 0 && k < |calls| && Expires(calls, limit, window) && Clocked(calls, 0)
    ensures AnswerAt(calls, k, limit, window).allowed <==>
              |Newer(Log(calls[..k], limit, window), calls[k].now - window)| + AtLeastOne(calls[k].cost) <= limit
  {
    AnswersFollowLog(calls, limit, window, k);
  }

  function AtLeastOne(cost: nat): nat {
    if cost == 0 then 1 else cost
  }

  lemma StepFollowsLog(key: Key, log: seq<int>, limit: int, window: nat, call: Call)
    requires window > 0 && Sorted(key.scores)
    requires multiset(Newer(key.scores, call.now - window)) == multiset(Newer(log, call.now - window))
    requires call.expired ==> Newer(key.scores, call.now - window) == []
    ensures StepAnswer(key, limit, window, call) == LogAnswer(log, limit, window, call.now, call.cost)
  {
    KeptMatchesLog(key, log, window, call);
    MirroredStep(key, Kept(key, window, call), log, limit, window, call);
  }

  lemma MirroredStep(key: Key, kept: seq<int>, log: seq<int>, limit: int, window: nat, call: Call)
    requires window > 0 && kept == Kept(key, window, call) && Mirrors(kept, log, call.now - window)
    ensures StepAnswer(key, limit, window, call) == LogAnswer(log, limit, window, call.now, call.cost)
  {
    KeptFollowsLog(kept, log, limit, window, call.now, call.cost);
  }

  lemma InsertedFollowLog(kept: seq<int>, log: seq<int>, now: nat, cost: nat, bound: int)
    requires Mirrors(kept, log, bound) && now > bound
    ensures Mirrors(InsertedTimes(kept, now, cost), log + Repeated(now, cost), bound)
  {
    NewerAll(kept, bound);
    InsertAlike(kept, log, now, cost, bound);
    InsertedTimesSorted(kept, now, cost);
    InsertedTimesAbove(kept, now, cost, bound);
    NewerAll(InsertedTimes(kept, now, cost), bound);
  }

  lemma ScoresFollowLog(kept: seq<int>, log: seq<int>, limit: int, window: nat, now: nat, cost: nat)
    requires window > 0 && Mirrors(kept, log, now - window)
    ensures Mirrors(ScoresAfter(kept, limit, now, cost), Logged(log, Admits(|kept|, limit, cost), now, cost), now - window)
  {
    if Admits(|kept|, limit, cost) {
      InsertedFollowLog(kept, log, now, cost, now - window);
    }
  }

  lemma KeptFollowsLog(kept: seq<int>, log: seq<int>, limit: int, window: nat, now: nat, cost: nat)
    requires window > 0 && Mirrors(kept, log, now - window)
    ensures AnswerFor(kept, limit, now, cost) == LogAnswer(log, limit, window, now, cost)
  {
    SameSize(kept, Newer(log, now - window));
    ScoresFollowLog(kept, log, limit, window, now, cost);
    SameOldest(ScoresAfter(kept, limit, now, cost),
               Newer(Logged(log, Admits(|kept|, limit, cost), now, cost), now - window), now);
  }

  lemma SameOldest(scores: seq<int>, times: seq<int>, default: int)
    requires Sorted(scores) && multiset(scores) == multiset(times)
    ensures |scores| == |times|
    ensures Least(times, default) == if scores == [] then default else scores[0]
  {
    SameSize(scores, times);
    if scores != [] {
      SortedStartsWithLeast(scores, times, default);
    }
  }

  lemma {:induction false} PrefixRun(calls: seq<Call>, limit: int, window: nat, skew: nat, k: nat)
    requires k <= |calls| && Expires(calls, limit, window) && Clocked(calls, skew)
    ensures Expires(calls[..k], limit, window) && Clocked(calls[..k], skew)
    ensures k < |calls| ==> Clocked(calls[..k] + [calls[k]], skew)
    decreases |calls| - k
  {
    if k < |calls| {
      PrefixRun(calls, limit, window, skew, k + 1);
      EarlierRun(calls[..k + 1], limit, window, skew);
      assert calls[..k + 1][..k] == calls[..k] && calls[..k] + [calls[k]] == calls[..k + 1];
    } else {
      assert calls[..k] == calls;
    }
  }

  lemma {:induction false} LogIsSpecLog(calls: seq<Call>, limit: int, window: nat)
    requires window > 0 && Expires(calls, limit, window) && Clocked(calls, 0)
    ensures Log(calls, limit, window) == SpecLog(calls, limit, window)
    decreases |calls|
  {
    if calls != [] {
      EarlierRun(calls, limit, window, 0);
      LogIsSpecLog(calls[..|calls| - 1], limit, window);
      AnswersFollowLog(calls, limit, window, |calls| - 1);
    }
  }

  datatype Request = Request(now: nat, cost: nat)

  /** The requests of a run that count events: no peeks, and nothing of what Redis did to the key. */
  ghost function Consuming(calls: seq<Call>): seq<Request> {
    if calls == [] then [] else
      var earlier, last := Consuming(calls[..|calls| - 1]), calls[|calls| - 1];
      if last.cost == 0 then earlier else earlier + [Request(last.now, last.cost)]
  }

  ghost function RequestLog(requests: seq<Request>, limit: int, window: nat): seq<int> {
    if requests == [] then [] else
      var last := requests[|requests| - 1];
      LogStep(RequestLog(requests[..|requests| - 1], limit, window), limit, window, last.now, last.cost)
  }

  lemma {:induction false} LogOfRequests(calls: seq<Call>, limit: int, window: nat)
    ensures SpecLog(calls, limit, window) == RequestLog(Consuming(calls), limit, window)
  {
    if calls != [] {
      var earlier, last := calls[..|calls| - 1], calls[|calls| - 1];
      LogOfRequests(earlier, limit, window);
      if last.cost > 0 {
        var requests := Consuming(earlier);
        assert Consuming(calls) == requests + [Request(last.now, last.cost)];
        assert (requests + [Request(last.now, last.cost)])[..|requests|] == requests;
      }
    }
  }

  /** Peeks and key expiry are invisible: after any two runs with the same consuming requests, however
      many peeks they made and whenever Redis dropped the key, the same request gets the same answer. */
  lemma PeeksAndExpiryAreInvisible(left: seq<Call>, i: nat, right: seq<Call>, j: nat, limit: int, window: nat)
    requires window > 0 && i < |left| && j < |right|
    requires Expires(left, limit, window) && Clocked(left, 0)
    requires Expires(right, limit, window) && Clocked(right, 0)
    requires Consuming(left[..i]) == Consuming(right[..j])
    requires left[i].now == right[j].now && left[i].cost == right[j].cost
    ensures AnswerAt(left, i, limit, window) == AnswerAt(right, j, limit, window)
  {
    LogOfRequests(left[..i], limit, window);
    LogOfRequests(right[..j], limit, window);
    LogAnswers(left, limit, window, i);
    LogAnswers(right, limit, window, j);
  }

  lemma LogAnswers(calls: seq<Call>, limit: int, window: nat, k: nat)
    requires window > 0 && k < |calls|
    requires Expires(calls, limit, window) && Clocked(calls, 0)
    ensures AnswerAt(calls, k, limit, window) == LogAnswer(SpecLog(calls[..k], limit, window), limit, window, calls[k].now, calls[k].cost)
  {
    AnswersFollowLog(calls, limit, window, k);
    PrefixRun(calls, limit, window, 0, k);
    LogIsSpecLog(calls[..k], limit, window);
  }

  // ------------------------------------------------------------------ what callers are told

  /** Python's `int(x / d)`: division rounded towards zero. */
  function Truncated(x: int, d: nat): int
    requires d > 0
  {
    if x >= 0 then x / d else -(-x / d)
  }

  /** `reset_seconds`, from an answer to a call at `now`; the window is given in seconds. */
  function ResetSeconds(answer: Answer, windowSeconds: nat, now: nat): int {
    if answer.count == 0 then 0 else
      var seconds := Truncated(answer.oldest + windowSeconds * 1000 - now, 1000) + 1;
      if seconds > 1 then seconds else 1
  }

  function Remaining(limit: int, used: int): int {
    if limit - used > 0 then limit - used else 0
  }

  lemma {:induction false} LogStamped(calls: seq<Call>, limit: int, window: nat)
    ensures forall s | s in Log(calls, limit, window) :: Stamped(calls, s)
  {
    if calls != [] {
      var earlier, last := calls[..|calls| - 1], calls[|calls| - 1];
      LogStamped(earlier, limit, window);
      assert earlier + [last] == calls;
      forall s | s in Log(calls, limit, window)
        ensures Stamped(calls, s)
      {
        StampedLonger(earlier, last, s);
      }
    }
  }

  lemma LogNotAhead(calls: seq<Call>, limit: int, window: nat, k: nat)
    requires k < |calls| && Clocked(calls, 0)
    ensures forall s | s in Log(calls[..k], limit, window) :: s <= calls[k].now
  {
    LogStamped(calls[..k], limit, window);
    forall s | s in Log(calls[..k], limit, window)
      ensures s <= calls[k].now
    {
      var h :| 0 <= h < k && calls[..k][h].now == s;
      assert Follows(calls[h], calls[k], 0);
    }
  }

  /** With something counted, the oldest counted event lies in (now - window, now]. */
  lemma OldestInWindow(calls: seq<Call>, limit: int, window: nat, k: nat)
    requires window > 0 && k < |calls| && Expires(calls, limit, window) && Clocked(calls, 0)
    ensures var answer := AnswerAt(calls, k, limit, window);
      answer.count > 0 ==> calls[k].now - window < answer.oldest <= calls[k].now
  {
    AnswersFollowLog(calls, limit, window, k);
    LogNotAhead(calls, limit, window, k);
    LeastInWindow(Log(calls[..k], limit, window), limit, window, calls[k].now, calls[k].cost);
  }

  lemma LoggedMembers(log: seq<int>, allowed: bool, now: nat, cost: nat)
    requires forall s | s in log :: s <= now
    ensures forall s | s in Logged(log, allowed, now, cost) :: s <= now
  {
  }

  lemma LeastInWindow(log: seq<int>, limit: int, window: nat, now: nat, cost: nat)
    requires window > 0 && forall s | s in log :: s <= now
    ensures var answer := LogAnswer(log, limit, window, now, cost);
      answer.count > 0 ==> now - window < answer.oldest <= now
  {
    var logged := Logged(log, LogAnswer(log, limit, window, now, cost).allowed, now, cost);
    var counted := Newer(logged, now - window);
    LoggedMembers(log, LogAnswer(log, limit, window, now, cost).allowed, now, cost);
    if counted != [] {
      LeastIsLeast(counted, now);
      NewerMembers(logged, now - window, Least(counted, now));
    }
  }

  /** `Retry-After` is between one second and one second more than the window. */
  lemma ResetInRange(calls: seq<Call>, limit: int, windowSeconds: nat, k: nat)
    requires windowSeconds > 0 && k < |calls|
    requires Expires(calls, limit, windowSeconds * 1000) && Clocked(calls, 0)
    ensures var answer := AnswerAt(calls, k, limit, windowSeconds * 1000);
      var reset := ResetSeconds(answer, windowSeconds, calls[k].now);
      if answer.count == 0 then reset == 0 else 1 <= reset <= windowSeconds + 1
  {
    OldestInWindow(calls, limit, windowSeconds * 1000, k);
  }

  lemma ResetBrackets(answer: Answer, windowSeconds: nat, now: nat)
    requires answer.count > 0 && now - windowSeconds * 1000 < answer.oldest
    ensures var reset := ResetSeconds(answer, windowSeconds, now);
      1000 * (reset - 1) <= answer.oldest + 1000 * windowSeconds - now < 1000 * reset
  {
  }

  /** The reset is tight: with something counted it is the first whole second strictly after the
      oldest counted event leaves the window, and at most one second late. */
  lemma ResetIsTight(calls: seq<Call>, limit: int, windowSeconds: nat, k: nat)
    requires windowSeconds > 0 && k < |calls|
    requires Expires(calls, limit, windowSeconds * 1000) && Clocked(calls, 0)
    ensures var answer, now := AnswerAt(calls, k, limit, windowSeconds * 1000), calls[k].now;
      var reset := ResetSeconds(answer, windowSeconds, now);
      if answer.count == 0 then reset == 0
      else 1000 * (reset - 1) <= answer.oldest + 1000 * windowSeconds - now < 1000 * reset
  {
    OldestInWindow(calls, limit, windowSeconds * 1000, k);
    var answer := AnswerAt(calls, k, limit, windowSeconds * 1000);
    if answer.count > 0 {
      ResetBrackets(answer, windowSeconds, calls[k].now);
    }
  }

  lemma {:induction false} NewerShorter(times: seq<int>, bound: int, x: int)
    requires x in times && x <= bound
    ensures |Newer(times, bound)| < |times|
  {
    if times[0] != x {
      assert x in times[1..];
      NewerShorter(times[1..], bound, x);
    }
  }

  /** A refused cost-1 call that comes back after its `Retry-After`, with no call in between, is
      admitted: the window was exactly full, and its oldest event has left. */
  lemma RetryAfterIsEnough(calls: seq<Call>, limit: int, windowSeconds: nat, k: nat, refusal: Answer)
    requires windowSeconds > 0 && limit >= 1 && k + 1 < |calls|
    requires Expires(calls, limit, windowSeconds * 1000) && Clocked(calls, 0)
    requires calls[k].cost == 1 && calls[k + 1].cost == 1
    requires refusal == AnswerAt(calls, k, limit, windowSeconds * 1000) && !refusal.allowed
    requires calls[k + 1].now >= calls[k].now + 1000 * ResetSeconds(refusal, windowSeconds, calls[k].now)
    ensures AnswerAt(calls, k + 1, limit, windowSeconds * 1000).allowed
  {
    ResetIsTight(calls, limit, windowSeconds, k);
    AdmittedOnceOldestLeft(calls, limit, windowSeconds * 1000, k, refusal);
  }

  /** The log holds exactly `limit` events in the window, and this is the oldest of them. */
  ghost predicate FullSince(log: seq<int>, limit: int, window: nat, now: nat, count: nat, oldest: int) {
    var counted := Newer(log, now - window);
    |counted| == count == limit && oldest == Least(counted, now)
  }

  lemma RefusedByLog(log: seq<int>, limit: int, window: nat, now: nat, refusal: Answer)
    requires refusal == LogAnswer(log, limit, window, now, 1) && !refusal.allowed && |Newer(log, now - window)| == limit
    ensures FullSince(log, limit, window, now, refusal.count, refusal.oldest)
  {
  }

  /** A refusal is what the log says of a full window, and leaves the log as it was. */
  lemma LogAtRefusal(calls: seq<Call>, limit: int, window: nat, k: nat, refusal: Answer) returns (log: seq<int>)
    requires window > 0 && limit >= 1 && k < |calls| && calls[k].cost == 1
    requires Expires(calls, limit, window) && Clocked(calls, 0)
    requires refusal == AnswerAt(calls, k, limit, window) && !refusal.allowed
    ensures log == Log(calls[..k + 1], limit, window)
    ensures FullSince(log, limit, window, calls[k].now, refusal.count, refusal.oldest)
  {
    log := Log(calls[..k], limit, window);
    FullAtRefusal(calls, limit, window, k, refusal, log);
    RefusalKeepsLog(calls, limit, window, k);
  }

  lemma FullAtRefusal(calls: seq<Call>, limit: int, window: nat, k: nat, refusal: Answer, log: seq<int>)
    requires window > 0 && limit >= 1 && k < |calls| && calls[k].cost == 1
    requires Expires(calls, limit, window) && Clocked(calls, 0) && log == Log(calls[..k], limit, window)
    requires refusal == AnswerAt(calls, k, limit, window) && !refusal.allowed
    ensures FullSince(log, limit, window, calls[k].now, refusal.count, refusal.oldest)
  {
    AnswersFollowLog(calls, limit, window, k);
    WindowIsFull(calls, limit, window, k);
    RefusedByLog(log, limit, window, calls[k].now, refusal);
  }

  lemma RefusalKeepsLog(calls: seq<Call>, limit: int, window: nat, k: nat)
    requires k < |calls| && !AnswerAt(calls, k, limit, window).allowed
    ensures Log(calls[..k + 1], limit, window) == Log(calls[..k], limit, window)
  {
    assert calls[..k + 1][..k] == calls[..k];
  }

  /** There is room exactly once the oldest event has left. */
  lemma RoomExactly(log: seq<int>, limit: int, window: nat, now: nat, count: nat, oldest: int, later: nat)
    requires limit >= 1 && FullSince(log, limit, window, now, count, oldest) && now <= later
    ensures |Newer(log, later - window)| < limit <==> oldest <= later - window
    ensures |Newer(log, later - window)| <= limit
  {
    var counted := Newer(log, now - window);
    NewerAgain(log, now - window, later - window);
    if oldest <= later - window {
      OldestLeaves(counted, now, later - window);
    } else {
      LeastIsLeast(counted, now);
      NewerAll(counted, later - window);
    }
  }

  lemma ClockRises(calls: seq<Call>, k: nat)
    requires k + 1 < |calls| && Clocked(calls, 0)
    ensures calls[k].now <= calls[k + 1].now
  {
    assert Follows(calls[k], calls[k + 1], 0);
  }

  /** After a refusal, what the next call at `later` finds in its window. */
  lemma UsedNext(calls: seq<Call>, limit: int, window: nat, k: nat, refusal: Answer, later: nat) returns (used: int)
    requires window > 0 && limit >= 1 && k < |calls| && calls[k].cost == 1 && calls[k].now <= later
    requires Expires(calls, limit, window) && Clocked(calls, 0)
    requires refusal == AnswerAt(calls, k, limit, window) && !refusal.allowed
    ensures used == |Newer(Log(calls[..k + 1], limit, window), later - window)|
    ensures refusal.count > 0 && (used < limit <==> refusal.oldest <= later - window)
  {
    var log := LogAtRefusal(calls, limit, window, k, refusal);
    RoomExactly(log, limit, window, calls[k].now, refusal.count, refusal.oldest, later);
    used := |Newer(log, later - window)|;
  }

  lemma AdmittedByUsed(calls: seq<Call>, limit: int, window: nat, k: nat, used: int)
    requires window > 0 && k < |calls| && calls[k].cost == 1 && Expires(calls, limit, window) && Clocked(calls, 0)
    requires used == |Newer(Log(calls[..k], limit, window), calls[k].now - window)|
    ensures AnswerAt(calls, k, limit, window).allowed <==> used < limit
  {
    AdmittedIffRoom(calls, limit, window, k);
  }

  /** After a refusal of cost 1, with no call in between, the next call of cost 1 is admitted exactly
      once the oldest counted event is a whole window old. */
  lemma AdmittedOnceOldestLeft(calls: seq<Call>, limit: int, window: nat, k: nat, refusal: Answer)
    requires window > 0 && limit >= 1 && k + 1 < |calls| && Expires(calls, limit, window) && Clocked(calls, 0)
    requires calls[k].cost == 1 && calls[k + 1].cost == 1
    requires refusal == AnswerAt(calls, k, limit, window) && !refusal.allowed
    ensures AnswerAt(calls, k + 1, limit, window).allowed <==> calls[k + 1].now >= refusal.oldest + window
    ensures refusal.count > 0
  {
    ClockRises(calls, k);
    var used := UsedNext(calls, limit, window, k, refusal, calls[k + 1].now);
    AdmittedByUsed(calls, limit, window, k + 1, used);
  }

  /** Nor is the reset too long: whoever comes back a whole second or more before it, with no call in
      between, is refused again. */
  lemma RetryTooEarly(calls: seq<Call>, limit: int, windowSeconds: nat, k: nat, refusal: Answer)
    requires windowSeconds > 0 && limit >= 1 && k + 1 < |calls|
    requires Expires(calls, limit, windowSeconds * 1000) && Clocked(calls, 0)
    requires calls[k].cost == 1 && calls[k + 1].cost == 1
    requires refusal == AnswerAt(calls, k, limit, windowSeconds * 1000) && !refusal.allowed
    requires calls[k + 1].now < calls[k].now + 1000 * (ResetSeconds(refusal, windowSeconds, calls[k].now) - 1)
    ensures !AnswerAt(calls, k + 1, limit, windowSeconds * 1000).allowed
  {
    ResetIsTight(calls, limit, windowSeconds, k);
    AdmittedOnceOldestLeft(calls, limit, windowSeconds * 1000, k, refusal);
  }

  lemma OldestLeaves(counted: seq<int>, default: int, bound: int)
    requires counted != [] && Least(counted, default) <= bound
    ensures |Newer(counted, bound)| < |counted|
  {
    LeastIsLeast(counted, default);
    NewerShorter(counted, bound, Least(counted, default));
  }

  lemma NotOverFull(calls: seq<Call>, limit: int, window: nat, k: nat)
    requires window > 0 && limit >= 1 && k < |calls| && Expires(calls, limit, window) && Clocked(calls, 0)
    ensures |Newer(Log(calls[..k], limit, window), calls[k].now - window)| <= limit
  {
    PrefixRun(calls, limit, window, 0, k);
    NoWindowOverAdmits(calls[..k], limit, window, 0, calls[k].now);
    LogNotAhead(calls, limit, window, k);
    CountWithinNewer(Log(calls[..k], limit, window), calls[k].now - window, calls[k].now);
  }

  lemma RefusedIsFull(log: seq<int>, limit: int, window: nat, now: nat)
    requires !LogAnswer(log, limit, window, now, 1).allowed
    ensures |Newer(log, now - window)| >= limit
  {
  }

  lemma WindowIsFull(calls: seq<Call>, limit: int, window: nat, k: nat)
    requires window > 0 && limit >= 1 && k < |calls| && calls[k].cost == 1
    requires Expires(calls, limit, window) && Clocked(calls, 0)
    requires !LogAnswer(Log(calls[..k], limit, window), limit, window, calls[k].now, 1).allowed
    ensures |Newer(Log(calls[..k], limit, window), calls[k].now - window)| == limit
  {
    NotOverFull(calls, limit, window, k);
    RefusedIsFull(Log(calls[..k], limit, window), limit, window, calls[k].now);
  }

  /** `remaining` is exact: at the same instant a further request of `cost` events is admitted
      exactly if it costs no more than what the previous answer left. */
  lemma RemainingIsExact(calls: seq<Call>, limit: int, window: nat, k: nat)
    requires window > 0 && k + 1 < |calls| && Expires(calls, limit, window) && Clocked(calls, 0)
    requires calls[k + 1].now == calls[k].now && calls[k + 1].cost > 0
    ensures AnswerAt(calls, k + 1, limit, window).allowed <==>
              calls[k + 1].cost <= Remaining(limit, AnswerAt(calls, k, limit, window).count)
  {
    AnswersFollowLog(calls, limit, window, k);
    AnswersFollowLog(calls, limit, window, k + 1);
    assert calls[..k + 1][..k] == calls[..k];
  }

  // ------------------------------------------------------------------ the imperative shell

  datatype LimitState = LimitState(limit: int, used: int, resetSeconds: int, allowed: bool)
  datatype Refusal = Refusal(limit: int, retryAfterSeconds: int)

  /** One Redis key with the script run against it. */
  class RedisKey {
    var scores: seq<int>
    var expireAt: nat

    ghost function Value(): Key
      reads this
    {
      Key(scores, expireAt)
    }

    constructor ()
      ensures Value() == KeyAfter([], 0, 0)
    {
      scores, expireAt := [], 0;
    }

    method Eval(limit: int, window: nat, call: Call) returns (answer: Answer)
      modifies this
      ensures Value() == StepKey(old(Value()), limit, window, call)
      ensures answer == StepAnswer(old(Value()), limit, window, call)
    {
      if call.expired {
        scores := [];
      }
      scores := Newer(scores, call.now - window);
      var count, allowed := |scores|, false;
      ghost var kept := scores;
      if call.cost == 0 {
        allowed := count < limit;
      } else if count + call.cost <= limit {
        for i := 0 to call.cost
          invariant scores == InsertedTimes(kept, call.now, i)
          invariant expireAt == old(expireAt)
        {
          scores := Inserted(scores, call.now);
        }
        InsertedTimesSorted(kept, call.now, call.cost);
        count := count + call.cost;
        allowed := true;
      }
      if scores != [] {
        expireAt := call.server + window;
      }
      answer := Answer(allowed, count, if scores == [] then call.now else scores[0]);
    }
  }

  /** The list a request collects its limit states in; None outside a request. */
  class RequestContext {
    var consumed: Option<seq<LimitState>>

    constructor (listed: bool)
      ensures consumed == if listed then Some([]) else None
    {
      consumed := if listed then Some([]) else None;
    }
  }

  ghost function StateFor(key: Key, limit: int, windowSeconds: nat, call: Call): LimitState {
    var answer := StepAnswer(key, limit, windowSeconds * 1000, call);
    LimitState(limit, answer.count, ResetSeconds(answer, windowSeconds, call.now), answer.allowed)
  }

  /** `_window`: run the script and work out the reset time. */
  method Window(key: RedisKey, limit: int, windowSeconds: nat, call: Call) returns (state: LimitState)
    modifies key
    ensures key.Value() == StepKey(old(key.Value()), limit, windowSeconds * 1000, call)
    ensures state == StateFor(old(key.Value()), limit, windowSeconds, call)
  {
    var answer := key.Eval(limit, windowSeconds * 1000, call);
    state := LimitState(limit, answer.count, ResetSeconds(answer, windowSeconds, call.now), answer.allowed);
  }

  /** `consume`: every state is listed, refused or not, before the refusal is raised. */
  method Consume(key: RedisKey, context: RequestContext, limit: int, windowSeconds: nat, call: Call)
    returns (r: Result<LimitState, Refusal>)
    modifies key, context
    ensures key.Value() == StepKey(old(key.Value()), limit, windowSeconds * 1000, call)
    ensures var state := StateFor(old(key.Value()), limit, windowSeconds, call);
      && r == (if state.allowed then Ok(state) else Err(Refusal(limit, state.resetSeconds)))
      && context.consumed == (match old(context.consumed) case None => None case Some(states) => Some(states + [state]))
  {
    var state := Window(key, limit, windowSeconds, call);
    if context.consumed.Some? {
      context.consumed := Some(context.consumed.value + [state]);
    }
    if state.allowed {
      r := Ok(state);
    } else {
      r := Err(Refusal(limit, state.resetSeconds));
    }
  }

  /** `peek`: the script with cost 0. It stores nothing. */
  method Peek(key: RedisKey, limit: int, windowSeconds: nat, call: Call) returns (state: LimitState)
    requires call.cost == 0
    modifies key
    ensures key.Value() == StepKey(old(key.Value()), limit, windowSeconds * 1000, call)
    ensures state == StateFor(old(key.Value()), limit, windowSeconds, call)
    ensures key.scores == Kept(old(key.Value()), windowSeconds * 1000, call)
  {
    state := Window(key, limit, windowSeconds, call);
  }
}
