/** The sliding-window limiter (backend/app/core/ratelimit.py). Times are real
    numbers read from a clock that never goes back. */
module RateLimit {

  /** The entries that are still within the window, oldest first. */
  function Purge(q: seq<real>, now: real, window: real): seq<real> {
    if q != [] && now - q[0] > window then Purge(q[1..], now, window) else q
  }

  predicate Accepts(q: seq<real>, now: real, limit: int, window: real) {
    |Purge(q, now, window)| < limit
  }

  function NextQueue(q: seq<real>, now: real, limit: int, window: real): seq<real> {
    Purge(q, now, window) + (if Accepts(q, now, limit, window) then [now] else [])
  }

  class Limiter {
    var buckets: map<string, seq<real>>

    constructor ()
      ensures buckets == map[]
    {
      buckets := map[];
    }

    function Queue(name: string): seq<real>
      reads this
    {
      if name in buckets then buckets[name] else []
    }

    /** `_check`: accepts or refuses a request of one client and leaves all others alone. */
    method Check(bucket: string, key: string, limit: int, window: real, now: real) returns (accepted: bool)
      modifies this
      ensures var name := bucket + ":" + key;
              && accepted == Accepts(old(Queue(name)), now, limit, window)
              && Queue(name) == NextQueue(old(Queue(name)), now, limit, window)
              && forall other :: other != name ==> Queue(other) == old(Queue(other))
    {
      var name := bucket + ":" + key;
      var q := Queue(name);
      while q != [] && now - q[0] > window
        invariant Purge(q, now, window) == Purge(old(Queue(name)), now, window)
      {
        q := q[1..];
      }
      accepted := |q| < limit;
      if accepted {
        q := q + [now];
      }
      buckets := buckets[name := q];
    }
  }

  // ---------- all requests of one client ----------

  /** The queue, and the times of all accepted requests. */
  datatype State = State(queue: seq<real>, log: seq<real>)

  function Next(s: State, now: real, limit: int, window: real): State {
    State(NextQueue(s.queue, now, limit, window),
          if Accepts(s.queue, now, limit, window) then s.log + [now] else s.log)
  }

  function After(calls: seq<real>, n: nat, limit: int, window: real): State
    requires n <= |calls|
  {
    if n == 0 then State([], []) else Next(After(calls, n - 1, limit, window), calls[n - 1], limit, window)
  }

  predicate Sorted(q: seq<real>) {
    forall i, j :: 0 <= i <= j < |q| ==> q[i] <= q[j]
  }

  /** How many accepted requests are at most `window` old. */
  function Recent(log: seq<real>, now: real, window: real): nat {
    if log == [] then 0 else (if now - log[0] <= window then 1 else 0) + Recent(log[1..], now, window)
  }

  predicate OldUpTo(log: seq<real>, k: nat, now: real, window: real)
    requires k <= |log|
  {
    forall i :: 0 <= i < k ==> now - log[i] > window
  }

  predicate RecentFrom(log: seq<real>, k: nat, now: real, window: real)
    requires k <= |log|
  {
    forall i :: k <= i < |log| ==> now - log[i] <= window
  }

  /** The queue is the end of the log; everything before it has left the window. */
  predicate Consistent(s: State, now: real, window: real) {
    && |s.queue| <= |s.log| && s.queue == s.log[|s.log| - |s.queue|..]
    && OldUpTo(s.log, |s.log| - |s.queue|, now, window)
  }

  predicate Before(log: seq<real>, now: real) {
    Sorted(log) && forall i :: 0 <= i < |log| ==> log[i] <= now
  }

  /** Purging a sorted log splits it into what is old and what is recent. */
  lemma {:induction false} PurgeSplits(log: seq<real>, m: nat, now: real, window: real)
    requires Sorted(log) && m <= |log| && OldUpTo(log, m, now, window)
    ensures var p := Purge(log[m..], now, window);
            && |p| <= |log| && p == log[|log| - |p|..]
            && OldUpTo(log, |log| - |p|, now, window) && RecentFrom(log, |log| - |p|, now, window)
    decreases |log| - m
  {
    if m < |log| && now - log[m] > window {
      assert log[m..][1..] == log[m + 1..];
      PurgeSplits(log, m + 1, now, window);
    } else if m < |log| {
      assert forall i :: m <= i < |log| ==> log[m] <= log[i];
    }
  }

  /** With the old entries in front, the recent ones are the rest. */
  lemma {:induction false} RecentIsRest(log: seq<real>, k: nat, now: real, window: real)
    requires k <= |log| && OldUpTo(log, k, now, window) && RecentFrom(log, k, now, window)
    ensures Recent(log, now, window) == |log| - k
  {
    if log != [] {
      var rest := if k > 0 then k - 1 else 0;
      assert forall i :: 0 <= i < |log| - 1 ==> log[1..][i] == log[i + 1];
      assert OldUpTo(log[1..], rest, now, window) && RecentFrom(log[1..], rest, now, window);
      RecentIsRest(log[1..], rest, now, window);
    }
  }

  lemma OldStaysOld(log: seq<real>, k: nat, before: real, now: real, window: real)
    requires k <= |log| && before <= now && OldUpTo(log, k, before, window)
    ensures OldUpTo(log, k, now, window)
  {
  }

  /** At a call: what is left of the queue is exactly what is still recent. */
  lemma PurgedIsRecent(s: State, before: real, now: real, window: real)
    requires Sorted(s.log) && Consistent(s, before, window) && before <= now
    ensures var p := Purge(s.queue, now, window);
            |p| == Recent(s.log, now, window) && Consistent(State(p, s.log), now, window)
  {
    var m := |s.log| - |s.queue|;
    OldStaysOld(s.log, m, before, now, window);
    PurgeSplits(s.log, m, now, window);
    RecentIsRest(s.log, |s.log| - |Purge(s.queue, now, window)|, now, window);
  }

  /** Accepting a request keeps the queue the end of the log. */
  lemma AppendConsistent(queue: seq<real>, log: seq<real>, now: real, window: real)
    requires Consistent(State(queue, log), now, window)
    ensures Consistent(State(queue + [now], log + [now]), now, window)
  {
    var m := |log| - |queue|;
    assert (log + [now])[m..] == log[m..] + [now];
  }

  function Last(calls: seq<real>, n: nat): real
    requires n <= |calls|
  {
    if n == 0 then (if calls == [] then 0.0 else calls[0]) else calls[n - 1]
  }

  lemma NextPast(s: State, before: real, now: real, limit: int, window: real)
    requires Before(s.log, before) && before <= now
    ensures Before(Next(s, now, limit, window).log, now)
  {
    if Accepts(s.queue, now, limit, window) {
      AppendPast(s.log, before, now);
      assert Next(s, now, limit, window).log == s.log + [now];
    } else {
      assert Next(s, now, limit, window).log == s.log;
    }
  }

  lemma AppendPast(log: seq<real>, before: real, now: real)
    requires Before(log, before) && before <= now
    ensures Before(log + [now], now)
  {
  }

  /** The clock has not passed what the log holds. */
  lemma {:induction false} LogIsPast(calls: seq<real>, n: nat, limit: int, window: real)
    requires n <= |calls| && Sorted(calls)
    ensures Before(After(calls, n, limit, window).log, Last(calls, n))
  {
    if n > 0 {
      var s, now := After(calls, n - 1, limit, window), calls[n - 1];
      LogIsPast(calls, n - 1, limit, window);
      assert Last(calls, n - 1) <= now;
      NextPast(s, Last(calls, n - 1), now, limit, window);
    }
  }

  lemma NextConsistent(s: State, before: real, now: real, limit: int, window: real)
    requires Sorted(s.log) && Consistent(s, before, window) && before <= now
    ensures Consistent(Next(s, now, limit, window), now, window)
  {
    var p := Purge(s.queue, now, window);
    PurgedIsRecent(s, before, now, window);
    if Accepts(s.queue, now, limit, window) {
      AppendConsistent(p, s.log, now, window);
      assert Next(s, now, limit, window) == State(p + [now], s.log + [now]);
    } else {
      assert Next(s, now, limit, window) == State(p, s.log);
    }
  }

  /** The queue is always the end of the log, and what it dropped is out of the window. */
  lemma {:induction false} QueueIsSuffix(calls: seq<real>, n: nat, limit: int, window: real)
    requires n <= |calls| && Sorted(calls)
    ensures Consistent(After(calls, n, limit, window), Last(calls, n), window)
  {
    if n > 0 {
      QueueIsSuffix(calls, n - 1, limit, window);
      LogIsPast(calls, n - 1, limit, window);
      NextConsistent(After(calls, n - 1, limit, window), Last(calls, n - 1), calls[n - 1], limit, window);
    }
  }

  /** A request is refused exactly when at least `limit` accepted ones are still recent. */
  lemma RefusedIff(calls: seq<real>, n: nat, limit: int, window: real)
    requires n < |calls| && Sorted(calls)
    ensures var s := After(calls, n, limit, window);
            !Accepts(s.queue, calls[n], limit, window) <==> Recent(s.log, calls[n], window) >= limit
  {
    QueueIsSuffix(calls, n, limit, window);
    LogIsPast(calls, n, limit, window);
    PurgedIsRecent(After(calls, n, limit, window), Last(calls, n), calls[n], window);
  }

  /** Over every run, accepted requests `limit` apart are more than `window` apart. */
  lemma {:induction false} AcceptedFarApart(calls: seq<real>, n: nat, limit: int, window: real, i: nat)
    requires n <= |calls| && Sorted(calls) && limit > 0
    requires i + limit < |After(calls, n, limit, window).log|
    ensures var log := After(calls, n, limit, window).log; log[i + limit] - log[i] > window
  {
    if n > 0 {
      var s, now := After(calls, n - 1, limit, window), calls[n - 1];
      if i + limit < |s.log| {
        AcceptedFarApart(calls, n - 1, limit, window, i);
      } else {
        QueueIsSuffix(calls, n - 1, limit, window);
        LogIsPast(calls, n - 1, limit, window);
        PurgedIsRecent(s, Last(calls, n - 1), now, window);
      }
    }
  }
}
