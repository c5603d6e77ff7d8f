/** The count of executions that share one Appium server: `_ensure_appium` and
    `_release_appium` (agent/main.py). Both hold one lock, so each is one step. */
module AppiumRefs {
  import opened Common

  /** A task acquired the server; its wait for readiness failed after counting; it
      gave up before counting (an error or cancellation, which leaves the server
      as `up` says if it was just being started); a task released the server. */
  datatype Event = Acquired(task: int) | ReadyFailed(task: int) | Aborted(task: int, nowUp: bool) | Released(task: int)

  /** `holders` are the tasks that acquired and have not released since. */
  datatype State = State(refs: int, up: bool, holders: set<int>)

  const Fresh := State(0, false, {})

  function Step(s: State, e: Event): State {
    match e
    case Acquired(t) => State(s.refs + 1, s.up || s.refs == 0, s.holders + {t})
    case ReadyFailed(t) => State(Max(0, s.refs + 1 - 1), s.up || s.refs == 0, s.holders)
    case Aborted(t, nowUp) => State(s.refs, if s.refs == 0 then nowUp else s.up, s.holders)
    case Released(t) =>
      var refs := Max(0, s.refs - 1);
      State(refs, s.up && refs != 0, s.holders - {t})
  }

  /** The event brings the server up. */
  predicate Starts(s: State, e: Event) {
    !s.up && Step(s, e).up
  }

  /** The event takes the server down. */
  predicate Stops(s: State, e: Event) {
    s.up && !Step(s, e).up
  }

  function After(run: seq<Event>, n: nat): State
    requires n <= |run|
  {
    if n == 0 then Fresh else Step(After(run, n - 1), run[n - 1])
  }

  /** No task acquires what it already holds. */
  predicate OnceEach(run: seq<Event>) {
    forall k :: 0 <= k < |run| ==> OnceAt(run, k)
  }

  predicate OnceAt(run: seq<Event>, k: nat)
    requires k < |run|
  {
    MayAcquire(After(run, k), run[k])
  }

  predicate MayAcquire(s: State, e: Event) {
    e.Acquired? ==> e.task !in s.holders
  }

  /** A release by a task that holds nothing. */
  predicate Extra(s: State, e: Event) {
    e.Released? && e.task !in s.holders
  }

  predicate Exact(s: State) {
    s.refs == |s.holders|
  }

  lemma RemoveOne(t: set<int>, x: int)
    requires x in t
    ensures |t - {x}| == |t| - 1
  {
  }

  lemma RemoveNone(t: set<int>, x: int)
    requires x !in t
    ensures t - {x} == t
  {
  }

  /** One step keeps the count exact if and only if it is not an extra release while
      somebody holds the server. */
  lemma StepExactIff(s: State, e: Event)
    requires Exact(s) && MayAcquire(s, e)
    ensures Exact(Step(s, e)) <==> !(Extra(s, e) && s.holders != {})
  {
    if e.Released? {
      if e.task in s.holders {
        RemoveOne(s.holders, e.task);
      } else {
        RemoveNone(s.holders, e.task);
      }
    }
  }

  lemma StepNotTooHigh(s: State, e: Event)
    requires 0 <= s.refs <= |s.holders| && MayAcquire(s, e)
    ensures 0 <= Step(s, e).refs <= |Step(s, e).holders|
  {
    if e.Released? {
      if e.task in s.holders {
        RemoveOne(s.holders, e.task);
      } else {
        RemoveNone(s.holders, e.task);
      }
    }
  }

  /** The count never exceeds the holders. */
  lemma {:induction false} NeverTooHigh(run: seq<Event>, n: nat)
    requires OnceEach(run) && n <= |run|
    ensures 0 <= After(run, n).refs <= |After(run, n).holders|
  {
    if n > 0 {
      NeverTooHigh(run, n - 1);
      assert OnceAt(run, n - 1);
      StepNotTooHigh(After(run, n - 1), run[n - 1]);
    }
  }

  predicate ExactAt(run: seq<Event>, k: nat)
    requires k <= |run|
  {
    Exact(After(run, k))
  }

  /** No release by a task that holds nothing while another one holds the server. */
  predicate HarmlessAt(run: seq<Event>, k: nat)
    requires k < |run|
  {
    !(Extra(After(run, k), run[k]) && After(run, k).holders != {})
  }

  predicate AllTo(p: nat -> bool, n: nat) {
    forall k: nat :: k <= n ==> p(k)
  }

  predicate AllBelow(p: nat -> bool, n: nat) {
    forall k: nat :: k < n ==> p(k)
  }

  /** If `p` starts true and is passed on exactly where `q` holds, it holds throughout
      exactly if `q` does. */
  lemma {:induction false} PassedOn(p: nat -> bool, q: nat -> bool, n: nat)
    requires p(0) && forall k: nat :: k < n && p(k) ==> (p(k + 1) <==> q(k))
    ensures AllTo(p, n) <==> AllBelow(q, n)
  {
    if n > 0 {
      PassedOn(p, q, n - 1);
      assert AllTo(p, n) <==> AllTo(p, n - 1) && p(n - 1 + 1);
      assert AllBelow(q, n) <==> AllBelow(q, n - 1) && q(n - 1);
      assert AllTo(p, n - 1) ==> p(n - 1);
    }
  }

  function ExactOf(run: seq<Event>): nat -> bool {
    (k: nat) => k <= |run| && ExactAt(run, k)
  }

  function HarmlessOf(run: seq<Event>): nat -> bool {
    (k: nat) => k < |run| && HarmlessAt(run, k)
  }

  /** Over a whole run the count is the number of holders at every point if and only
      if no task that holds nothing releases while another one holds the server. */
  lemma CountExactIff(run: seq<Event>, n: nat)
    requires OnceEach(run) && n <= |run|
    ensures (forall k :: 0 <= k <= n ==> ExactAt(run, k)) <==> (forall k :: 0 <= k < n ==> HarmlessAt(run, k))
  {
    var p, q := ExactOf(run), HarmlessOf(run);
    forall k: nat | k < n && p(k)
      ensures p(k + 1) <==> q(k)
    {
      NextExactIff(run, k);
    }
    PassedOn(p, q, n);
    assert AllTo(p, n) <==> forall k :: 0 <= k <= n ==> ExactAt(run, k) by {
      assert forall k :: 0 <= k <= n ==> (p(k) <==> ExactAt(run, k));
    }
    assert AllBelow(q, n) <==> forall k :: 0 <= k < n ==> HarmlessAt(run, k) by {
      assert forall k :: 0 <= k < n ==> (q(k) <==> HarmlessAt(run, k));
    }
  }

  lemma NextExactIff(run: seq<Event>, n: nat)
    requires OnceEach(run) && n < |run| && ExactAt(run, n)
    ensures ExactAt(run, n + 1) <==> HarmlessAt(run, n)
  {
    assert OnceAt(run, n);
    StepExactIff(After(run, n), run[n]);
  }

  /** While the count is exact, the server is started only when nobody holds it and
      stopped only when nobody is left, and a release that leaves nobody leaves it down. */
  lemma StartsAndStops(run: seq<Event>, n: nat)
    requires OnceEach(run) && n < |run|
    requires forall k :: 0 <= k <= n ==> HarmlessAt(run, k)
    ensures var s := After(run, n);
            && (Starts(s, run[n]) ==> s.holders == {})
            && (Stops(s, run[n]) ==> Step(s, run[n]).holders == {})
            && (run[n].Released? && Step(s, run[n]).holders == {} ==> !Step(s, run[n]).up)
  {
    CountExactIff(run, n + 1);
    assert ExactAt(run, n) && ExactAt(run, n + 1);
    HoldersHaveServer(run, n);
    ServerChanges(After(run, n), run[n]);
  }

  lemma ServerChanges(s: State, e: Event)
    requires Exact(s) && Exact(Step(s, e)) && (s.holders != {} ==> s.up)
    ensures Starts(s, e) ==> s.holders == {}
    ensures Stops(s, e) ==> Step(s, e).holders == {}
    ensures e.Released? && Step(s, e).holders == {} ==> !Step(s, e).up
  {
  }

  lemma StepHasServer(s: State, e: Event)
    requires Exact(s) && Exact(Step(s, e)) && (s.holders != {} ==> s.up)
    ensures Step(s, e).holders != {} ==> Step(s, e).up
  {
  }

  /** While the count is exact, the server is up for every holder. */
  lemma {:induction false} HoldersHaveServer(run: seq<Event>, n: nat)
    requires OnceEach(run) && n <= |run|
    requires forall k :: 0 <= k < n ==> HarmlessAt(run, k)
    ensures After(run, n).holders != {} ==> After(run, n).up
  {
    if n > 0 {
      HoldersHaveServer(run, n - 1);
      CountExactIff(run, n);
      assert ExactAt(run, n - 1) && ExactAt(run, n);
      StepHasServer(After(run, n - 1), run[n - 1]);
    }
  }

  // ---------- what the tasks do ----------

  predicate AcquiredBefore(run: seq<Event>, n: nat, task: int)
    requires n <= |run|
  {
    Acquired(task) in run[..n]
  }

  predicate ReleasedBefore(run: seq<Event>, n: nat, task: int)
    requires n <= |run|
  {
    Released(task) in run[..n]
  }

  /** The task acquires once, and releases once and only after that. */
  predicate ProperAt(run: seq<Event>, k: nat)
    requires k < |run|
  {
    match run[k]
    case Acquired(t) => !AcquiredBefore(run, k, t)
    case Released(t) => AcquiredBefore(run, k, t) && !ReleasedBefore(run, k, t)
    case _ => true
  }

  lemma PrefixGrows(run: seq<Event>, n: nat, e: Event)
    requires n < |run|
    ensures e in run[..n + 1] <==> e in run[..n] || e == run[n]
  {
    assert run[..n + 1] == run[..n] + [run[n]];
  }

  /** The holders are the tasks that have acquired and not released. */
  lemma {:induction false} HoldersAre(run: seq<Event>, n: nat, task: int)
    requires n <= |run| && forall k :: 0 <= k < n ==> ProperAt(run, k)
    ensures task in After(run, n).holders <==> AcquiredBefore(run, n, task) && !ReleasedBefore(run, n, task)
    ensures ReleasedBefore(run, n, task) ==> AcquiredBefore(run, n, task)
  {
    if n > 0 {
      HoldersAre(run, n - 1, task);
      PrefixGrows(run, n - 1, Acquired(task));
      PrefixGrows(run, n - 1, Released(task));
      assert ProperAt(run, n - 1);
    }
  }

  /** If every task acquires before its one release, the count is the number of
      holders throughout. */
  lemma ProperTasksKeepCount(run: seq<Event>)
    requires forall k :: 0 <= k < |run| ==> ProperAt(run, k)
    ensures OnceEach(run) && forall k :: 0 <= k <= |run| ==> ExactAt(run, k)
  {
    forall k | 0 <= k < |run|
      ensures OnceAt(run, k) && HarmlessAt(run, k)
    {
      assert ProperAt(run, k);
      HoldersAre(run, k, run[k].task);
    }
    CountExactIff(run, |run|);
  }

  /** A task that holds nothing and does not acquire keeps holding nothing. */
  lemma {:induction false} StaysOut(run: seq<Event>, m: nat, n: nat, task: int)
    requires m <= n <= |run| && task !in After(run, m).holders
    requires forall k :: m <= k < n ==> run[k] != Acquired(task)
    ensures task !in After(run, n).holders
    decreases n
  {
    if m < n {
      StaysOut(run, m, n - 1, task);
      assert run[n - 1] != Acquired(task);
    }
  }

  predicate GivesUp(e: Event, task: int) {
    (e.ReadyFailed? || e.Aborted?) && e.task == task
  }

  /** An acquire that fails is undone once where it fails and once more by the task's
      own release, whatever other tasks do in between: that release keeps the count
      exact if and only if nobody holds the server then. */
  lemma FailedAcquireExactIff(run: seq<Event>, m: nat, n: nat, task: int)
    requires OnceEach(run) && m < n < |run| && ExactAt(run, n)
    requires GivesUp(run[m], task) && run[n] == Released(task)
    requires task !in After(run, m).holders && forall k :: m < k < n ==> run[k] != Acquired(task)
    ensures ExactAt(run, n + 1) <==> After(run, n).holders == {}
  {
    StaysOut(run, m, n, task);
    assert OnceAt(run, n);
    StepExactIff(After(run, n), run[n]);
  }

  /** With a single holder, such a failure stops the server under it. */
  lemma FailedAcquireStopsServer(s: State, task: int)
    requires Exact(s) && task !in s.holders && |s.holders| == 1
    ensures var failed := Step(s, ReadyFailed(task));
            && (s.up ==> Stops(failed, Released(task)))
            && !Step(failed, Released(task)).up && Step(failed, Released(task)).holders == s.holders
  {
    RemoveNone(s.holders, task);
  }
}
