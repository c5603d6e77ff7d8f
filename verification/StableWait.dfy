/** Waiting for an element to hold still: `WaitElementStableAction.execute`
    (agent/executor/actions.py). Every look at the element, every stop request and
    every clock reading is decided by the environment. */
module StableWait {
  import opened Common
  import opened Text

  datatype Rect = Rect(x: real, y: real, width: real, height: real)

  /** One look: what was read, an error that may be retried, or any other error.
      A state that is neither true nor false is `None`, and so is a rectangle that
      is missing or not made of finite numbers. */
  datatype Look = Sample(displayed: Option<bool>, enabled: Option<bool>, rect: Option<Rect>) | Retryable | Fatal

  datatype Needs = Needs(samples: nat, millis: real, displayed: bool, enabled: bool, timeout: real)

  /** The environment's answer to the n-th question put to it. */
  datatype Environment = Environment(look: nat -> Look, stop: nat -> bool, clock: nat -> real)

  /** A look and the number of the question it answered. */
  datatype Seen = Seen(look: Look, at: nat)

  datatype Outcome = Passed | TimedOut | Raised

  /** A valid rectangle, and the element in the states that are required. */
  predicate Acceptable(l: Look, n: Needs) {
    && l.Sample? && l.rect.Some? && l.rect.value.width > 0.0 && l.rect.value.height > 0.0
    && (n.displayed ==> l.displayed == Some(true)) && (n.enabled ==> l.enabled == Some(true))
  }

  predicate Near(a: real, b: real) {
    -1.0 <= a - b <= 1.0
  }

  predicate Close(a: Rect, b: Rect) {
    Near(a.x, b.x) && Near(a.y, b.y) && Near(a.width, b.width) && Near(a.height, b.height)
  }

  /** `_same_sample`. */
  predicate Same(a: Look, b: Look)
    requires a.Sample? && a.rect.Some? && b.Sample? && b.rect.Some?
  {
    a.displayed == b.displayed && a.enabled == b.enabled && Close(a.rect.value, b.rect.value)
  }

  /** How many looks at the end form one run of acceptable, unmoved samples. */
  function RunLength(seen: seq<Seen>, n: Needs): (r: nat)
    ensures r <= |seen| && (r > 0 <==> seen != [] && Acceptable(seen[|seen| - 1].look, n))
  {
    if seen == [] || !Acceptable(seen[|seen| - 1].look, n) then 0
    else
      var before := seen[..|seen| - 1];
      var r := RunLength(before, n);
      if r > 0 && Same(before[|before| - 1].look, seen[|seen| - 1].look) then r + 1 else 1
  }

  /** The run is long enough in samples and in time, and the deadline is not over. */
  predicate Ready(env: Environment, seen: seq<Seen>, n: Needs, deadline: real) {
    var r := RunLength(seen, n);
    && r >= n.samples && r > 0
    && (env.clock(seen[|seen| - 1].at + 2) - env.clock(seen[|seen| - r].at + 1)) * 1000.0 >= n.millis
    && (n.timeout == 0.0 || env.clock(seen[|seen| - 1].at + 3) < deadline)
  }

  predicate ReadyAt(env: Environment, seen: seq<Seen>, k: nat, n: Needs, deadline: real)
    requires k <= |seen|
  {
    Ready(env, seen[..k], n, deadline)
  }

  /** No history up to this one was ready. */
  predicate NeverReady(env: Environment, seen: seq<Seen>, n: Needs, deadline: real) {
    forall k :: 0 <= k <= |seen| ==> !ReadyAt(env, seen, k, n, deadline)
  }

  predicate NotReadyBefore(env: Environment, seen: seq<Seen>, n: Needs, deadline: real) {
    forall k :: 0 <= k < |seen| ==> !ReadyAt(env, seen, k, n, deadline)
  }

  /** What the loop keeps: the length of the run, when it started, and its last look. */
  datatype Progress = Progress(stable: nat, started: real, previous: Option<Look>)

  predicate Tracks(env: Environment, seen: seq<Seen>, n: Needs, p: Progress) {
    && p.stable == RunLength(seen, n)
    && p.previous == (if p.stable > 0 then Some(seen[|seen| - 1].look) else None)
    && (p.stable > 0 ==> p.started == env.clock(seen[|seen| - p.stable].at + 1))
  }

  /** What one more look makes of it. */
  lemma ProgressGrows(env: Environment, seen: seq<Seen>, s: Seen, n: Needs, p: Progress)
    requires Tracks(env, seen, n, p)
    ensures var next := if !Acceptable(s.look, n) then Progress(0, p.started, None)
                        else if p.previous.Some? && Same(p.previous.value, s.look)
                        then Progress(p.stable + 1, p.started, Some(s.look))
                        else Progress(1, env.clock(s.at + 1), Some(s.look));
            Tracks(env, seen + [s], n, next)
  {
    assert (seen + [s])[..|seen|] == seen;
  }

  /** The test the loop makes is that the run is ready. */
  lemma TestIsReady(env: Environment, seen: seq<Seen>, n: Needs, p: Progress, deadline: real)
    requires Tracks(env, seen, n, p) && n.samples >= 1
    ensures Ready(env, seen, n, deadline)
            <==> p.stable >= n.samples && seen != []
                 && (env.clock(seen[|seen| - 1].at + 2) - p.started) * 1000.0 >= n.millis
                 && (n.timeout == 0.0 || env.clock(seen[|seen| - 1].at + 3) < deadline)
  {
  }

  /** What one more look does to the waiting. */
  lemma WaitGrows(env: Environment, seen: seq<Seen>, s: Seen, n: Needs, deadline: real)
    requires NeverReady(env, seen, n, deadline)
    ensures NotReadyBefore(env, seen + [s], n, deadline)
  {
    var all := seen + [s];
    forall k | 0 <= k <= |seen|
      ensures !ReadyAt(env, all, k, n, deadline)
    {
      assert all[..k] == seen[..k] && !ReadyAt(env, seen, k, n, deadline);
    }
  }

  /** Where the test fails the waiting goes on. */
  lemma StillWaiting(env: Environment, seen: seq<Seen>, s: Seen, n: Needs, deadline: real)
    requires NeverReady(env, seen, n, deadline) && !Ready(env, seen + [s], n, deadline)
    ensures NeverReady(env, seen + [s], n, deadline)
  {
    var all := seen + [s];
    WaitGrows(env, seen, s, n, deadline);
    assert all[..|all|] == all;
  }

  lemma NotReadyYet(env: Environment, seen: seq<Seen>, n: Needs, deadline: real)
    requires NeverReady(env, seen, n, deadline)
    ensures !Ready(env, seen, n, deadline)
  {
    assert seen[..|seen|] == seen && !ReadyAt(env, seen, |seen|, n, deadline);
  }

  /** What the i-th look saw, at its place among the questions. */
  function LookAt(env: Environment, i: nat): Seen {
    Seen(env.look(3 + 8 * i), 3 + 8 * i)
  }

  predicate Genuine(env: Environment, seen: seq<Seen>) {
    forall i :: 0 <= i < |seen| ==> seen[i] == LookAt(env, i)
  }

  lemma OneMoreGenuine(env: Environment, seen: seq<Seen>)
    requires Genuine(env, seen)
    ensures Genuine(env, seen + [LookAt(env, |seen|)])
  {
  }

  /** Round `i` gets as far as its look: no stop is requested, and there is time,
      which the first round does not ask. */
  predicate Looks(env: Environment, i: nat, deadline: real) {
    !env.stop(8 * i + 1) && (i > 0 ==> env.clock(8 * i + 2) < deadline)
  }

  /** Nothing but a ready run can end round `i`: the look did not fail for good, time
      is left after it, and no stop is requested during the pause. */
  predicate GoesOn(env: Environment, i: nat, deadline: real) {
    && Looks(env, i, deadline) && !env.look(8 * i + 3).Fatal?
    && env.clock(8 * i + 7) < deadline && !env.stop(8 * i + 8)
  }

  predicate GoOn(env: Environment, k: nat, deadline: real) {
    forall i :: 0 <= i < k ==> GoesOn(env, i, deadline)
  }

  /** Why the waiting ends. All rounds before the last go on. Either a round starts
      with a stop request or without time left; or the last look was taken, and the
      run is ready, or that look failed for good, or the time is up after it, or a stop
      is requested in the pause. `t` is the last question asked. */
  predicate Ends(env: Environment, o: Outcome, seen: seq<Seen>, t: nat, deadline: real) {
    var k := |seen|;
    if GoOn(env, k, deadline) && !o.Passed? then StopsBeforeLook(env, o, k, t, deadline)
    else
      k > 0 && GoOn(env, k - 1, deadline) && Looks(env, k - 1, deadline) && EndsAfterLook(env, o, k, t, deadline)
  }

  /** How the waiting ends at the start of round `k`. */
  predicate StopsBeforeLook(env: Environment, o: Outcome, k: nat, t: nat, deadline: real) {
    if env.stop(8 * k + 1) then o.Raised? && t == 8 * k + 1
    else k > 0 && env.clock(8 * k + 2) >= deadline && o.TimedOut? && t == 8 * k + 2
  }

  /** How the waiting ends after look number `k`, counted from 1. */
  predicate EndsAfterLook(env: Environment, o: Outcome, k: nat, t: nat, deadline: real)
    requires k > 0
  {
    if o.Passed? then t == 8 * k - 2 && !env.look(8 * k - 5).Fatal?
    else if env.look(8 * k - 5).Fatal? then o.Raised? && t == 8 * k - 5
    else if env.clock(8 * k - 1) >= deadline then o.TimedOut? && t == 8 * k - 1
    else env.stop(8 * k) && o.Raised? && t == 8 * k
  }

  lemma AfterLookEnds(env: Environment, o: Outcome, seen: seq<Seen>, t: nat, deadline: real)
    requires var k := |seen|;
             k > 0 && GoOn(env, k - 1, deadline) && Looks(env, k - 1, deadline) && EndsAfterLook(env, o, k, t, deadline)
    ensures Ends(env, o, seen, t, deadline)
  {
    assert !o.Passed? ==> !GoesOn(env, |seen| - 1, deadline);
  }

  lemma RoundGoesOn(env: Environment, k: nat, deadline: real)
    requires GoOn(env, k, deadline) && GoesOn(env, k, deadline)
    ensures GoOn(env, k + 1, deadline)
  {
  }

  /** Whatever stop question was asked before the last question was answered with no,
      and a stop request that was met is the end. */
  lemma StopEndsWait(env: Environment, o: Outcome, seen: seq<Seen>, t: nat, deadline: real, q: nat)
    requires Ends(env, o, seen, t, deadline) && q <= t && (q % 8 == 1 || q % 8 == 0) && q > 0 && env.stop(q)
    ensures q == t && o.Raised?
  {
    var i := (q - 1) / 8;
    assert q == 8 * i + 1 || q == 8 * i + 8;
    assert !GoesOn(env, i, deadline);
  }

  /** Only the last look can have failed for good, and then it is the end. */
  lemma FatalEndsWait(env: Environment, o: Outcome, seen: seq<Seen>, t: nat, deadline: real, i: nat)
    requires Ends(env, o, seen, t, deadline) && Genuine(env, seen) && i < |seen| && seen[i].look.Fatal?
    ensures i == |seen| - 1 && o.Raised?
  {
    assert seen[i] == LookAt(env, i) && !GoesOn(env, i, deadline);
  }

  function Deadline(env: Environment, n: Needs): real {
    env.clock(0) + n.timeout
  }

  /** What is known before round `|seen|`. */
  ghost predicate Waiting(env: Environment, seen: seq<Seen>, n: Needs, p: Progress) {
    && Genuine(env, seen) && Tracks(env, seen, n, p) && NeverReady(env, seen, n, Deadline(env, n))
    && GoOn(env, |seen|, Deadline(env, n))
  }

  /** What is known after one more look. */
  ghost predicate Looked(env: Environment, seen: seq<Seen>, n: Needs, passed: bool, p: Progress) {
    && seen != [] && seen[|seen| - 1] == LookAt(env, |seen| - 1) && Genuine(env, seen) && Tracks(env, seen, n, p)
    && NotReadyBefore(env, seen, n, Deadline(env, n))
    && (passed <==> Ready(env, seen, n, Deadline(env, n)))
    && (!passed ==> NeverReady(env, seen, n, Deadline(env, n)))
    && GoOn(env, |seen| - 1, Deadline(env, n))
  }

  /** The result of the action: it passes exactly when the run is ready, which it was
      not before, and otherwise ends for its reason. */
  ghost predicate Result(env: Environment, n: Needs, o: Outcome, seen: seq<Seen>, t: nat) {
    && (o.Passed? <==> Ready(env, seen, n, Deadline(env, n))) && NotReadyBefore(env, seen, n, Deadline(env, n))
    && Genuine(env, seen) && Ends(env, o, seen, t, Deadline(env, n))
  }

  lemma EndsBeforeLook(env: Environment, n: Needs, p: Progress, o: Outcome, seen: seq<Seen>, t: nat)
    requires Waiting(env, seen, n, p)
    requires StopsBeforeLook(env, o, |seen|, t, Deadline(env, n))
    ensures Result(env, n, o, seen, t)
  {
    NotReadyYet(env, seen, n, Deadline(env, n));
  }

  lemma EndsWithLook(env: Environment, n: Needs, p: Progress, o: Outcome, seen: seq<Seen>, t: nat)
    requires Looked(env, seen, n, o.Passed?, p) && Looks(env, |seen| - 1, Deadline(env, n))
    requires EndsAfterLook(env, o, |seen|, t, Deadline(env, n))
    ensures Result(env, n, o, seen, t)
  {
    AfterLookEnds(env, o, seen, t, Deadline(env, n));
  }

  lemma WaitsOn(env: Environment, n: Needs, p: Progress, seen: seq<Seen>)
    requires Looked(env, seen, n, false, p) && GoesOn(env, |seen| - 1, Deadline(env, n))
    ensures Waiting(env, seen, n, p)
  {
    RoundGoesOn(env, |seen| - 1, Deadline(env, n));
  }

  lemma PassedLookIsFine(env: Environment, n: Needs, p: Progress, seen: seq<Seen>, passed: bool)
    requires Looked(env, seen, n, passed, p)
    ensures passed ==> !seen[|seen| - 1].look.Fatal?
    ensures seen[|seen| - 1].look == env.look(8 * |seen| - 5)
  {
  }

  /** One look and the test after it, at question `t + 2` to `t + 5`. */
  method LookOnce(env: Environment, n: Needs, t: nat, seen: seq<Seen>, p: Progress)
    returns (passed: bool, after: seq<Seen>, next: Progress)
    requires n.samples >= 1 && t == 8 * |seen| + 1
    requires Waiting(env, seen, n, p)
    ensures after == seen + [LookAt(env, |seen|)] && Looked(env, after, n, passed, next)
  {
    var l := env.look(t + 2);
    var s := Seen(l, t + 2);
    OneMoreGenuine(env, seen);
    ProgressGrows(env, seen, s, n, p);
    after := seen + [s];
    if !Acceptable(l, n) {
      next := Progress(0, p.started, None);
    } else if p.previous.Some? && Same(p.previous.value, l) {
      next := Progress(p.stable + 1, p.started, Some(l));
    } else {
      next := Progress(1, env.clock(t + 3), Some(l));
    }
    passed := && next.stable >= n.samples && (env.clock(t + 4) - next.started) * 1000.0 >= n.millis
              && (n.timeout == 0.0 || env.clock(t + 5) < Deadline(env, n));
    TestIsReady(env, after, n, next, Deadline(env, n));
    WaitGrows(env, seen, s, n, Deadline(env, n));
    if !passed {
      StillWaiting(env, seen, s, n, Deadline(env, n));
    }
  }

  /** Before a look: a stop request, and from the second round on the deadline. */
  method BeforeLook(env: Environment, t: nat, deadline: real, k: nat) returns (end: Option<Outcome>, last: nat)
    requires t == 8 * k + 1
    ensures match end
            case None => Looks(env, k, deadline)
            case Some(o) => StopsBeforeLook(env, o, k, last, deadline)
  {
    if env.stop(t) {
      return Some(Raised), t;
    }
    if k > 0 && env.clock(t + 1) >= deadline {
      return Some(TimedOut), t + 1;
    }
    return None, t + 1;
  }

  /** After a look: the action passed, the look failed for good, the deadline, or a pause. */
  method AfterLook(env: Environment, passed: bool, fatal: bool, t: nat, deadline: real, ghost k: nat)
    returns (end: Option<Outcome>, last: nat)
    requires t == 8 * k + 1 && fatal == env.look(t + 2).Fatal? && !(passed && fatal)
    ensures match end
            case None => !passed && (Looks(env, k, deadline) ==> GoesOn(env, k, deadline))
            case Some(o) => (o.Passed? <==> passed) && EndsAfterLook(env, o, k + 1, last, deadline)
  {
    if passed {
      return Some(Passed), t + 5;
    }
    if fatal {
      return Some(Raised), t + 2;
    }
    if deadline - env.clock(t + 6) <= 0.0 {
      return Some(TimedOut), t + 6;
    }
    if env.stop(t + 7) {
      return Some(Raised), t + 7;
    }
    return None, t + 7;
  }

  /** One round, from the question for a stop to the pause: it ends the action or not. */
  method Round(env: Environment, n: Needs, t: nat, seen0: seq<Seen>, p0: Progress)
    returns (end: Option<Outcome>, last: nat, seen: seq<Seen>, p: Progress)
    requires n.samples >= 1 && t == 8 * |seen0| + 1 && Waiting(env, seen0, n, p0)
    ensures if end.Some? then Result(env, n, end.value, seen, last) && |seen| <= |seen0| + 1
            else Waiting(env, seen, n, p) && |seen| == |seen0| + 1 && env.clock(t + 6) < Deadline(env, n)
  {
    seen, p := seen0, p0;
    end, last := BeforeLook(env, t, Deadline(env, n), |seen|);
    if end.Some? {
      EndsBeforeLook(env, n, p, end.value, seen, last);
      return;
    }
    var passed;
    passed, seen, p := LookOnce(env, n, t, seen, p);
    ghost var k := |seen| - 1;
    PassedLookIsFine(env, n, p, seen, passed);
    end, last := AfterLook(env, passed, seen[|seen| - 1].look.Fatal?, t, Deadline(env, n), k);
    RoundDone(env, n, p, seen, end, last, passed, k);
  }

  lemma RoundDone(env: Environment, n: Needs, p: Progress, seen: seq<Seen>, end: Option<Outcome>, last: nat, passed: bool, k: nat)
    requires |seen| == k + 1 && Looked(env, seen, n, passed, p) && Looks(env, k, Deadline(env, n))
    requires match end
             case None => !passed && GoesOn(env, k, Deadline(env, n))
             case Some(o) => (o.Passed? <==> passed) && EndsAfterLook(env, o, k + 1, last, Deadline(env, n))
    ensures if end.Some? then Result(env, n, end.value, seen, last)
            else Waiting(env, seen, n, p) && env.clock(8 * k + 7) < Deadline(env, n)
  {
    if end.Some? {
      EndsWithLook(env, n, p, end.value, seen, last);
    } else {
      WaitsOn(env, n, p, seen);
    }
  }

  /** The action passes at the first look after which the run is ready, and only then. */
  method Execute(env: Environment, n: Needs, horizon: nat) returns (o: Outcome, seen: seq<Seen>, t: nat)
    requires n.samples >= 1 && n.millis >= 0.0 && n.timeout >= 0.0
    requires forall k :: k >= horizon ==> env.clock(k) >= Deadline(env, n)
    requires forall k :: env.clock(k) >= env.clock(0)
    ensures Result(env, n, o, seen, t)
    ensures n.timeout == 0.0 ==> |seen| <= 1
  {
    var p, end := Progress(0, 0.0, None), None;
    seen, t := [], 0;
    var at := 1;
    while end.None?
      invariant if end.Some? then Result(env, n, end.value, seen, t) else Waiting(env, seen, n, p) && at == 8 * |seen| + 1
      invariant n.timeout == 0.0 ==> |seen| <= 1 && (end.None? ==> seen == [])
      decreases end.None?, horizon - at
    {
      end, t, seen, p := Round(env, n, at, seen, p);
      at := at + 8;
    }
    o := end.value;
  }

  /** How far two rectangles are apart at most, over position and size. */
  predicate Within(a: Rect, b: Rect, d: real) {
    Abs(a.x - b.x) <= d && Abs(a.y - b.y) <= d && Abs(a.width - b.width) <= d && Abs(a.height - b.height) <= d
  }

  /** Over a run of `r` samples everything is acceptable, the states never change,
      and the rectangle drifts by at most one unit a sample: `r - 1` in all. */
  lemma {:induction false} RunDrift(seen: seq<Seen>, n: Needs, i: nat)
    requires var r := RunLength(seen, n); r > 0 && |seen| - r <= i < |seen|
    ensures Acceptable(seen[i].look, n) && Acceptable(seen[|seen| - 1].look, n)
    ensures var a, b := seen[i].look, seen[|seen| - 1].look;
            a.displayed == b.displayed && a.enabled == b.enabled
            && Within(a.rect.value, b.rect.value, (|seen| - 1 - i) as real)
  {
    if i < |seen| - 1 {
      var before := seen[..|seen| - 1];
      RunDrift(before, n, i);
      assert Same(before[|before| - 1].look, seen[|seen| - 1].look);
    }
  }

  /** The last `r` looks are acceptable and each is the same sample as the one before. */
  predicate IsRun(seen: seq<Seen>, n: Needs, r: nat)
    requires r <= |seen|
  {
    && (forall i :: |seen| - r <= i < |seen| ==> Acceptable(seen[i].look, n))
    && forall i :: |seen| - r < i < |seen| ==> Same(seen[i - 1].look, seen[i].look)
  }

  /** The run counted is one, and no longer one ends at the last look. */
  lemma {:induction false} RunIsLongest(seen: seq<Seen>, n: Needs, r: nat)
    requires r <= |seen|
    ensures IsRun(seen, n, r) <==> r <= RunLength(seen, n)
  {
    if r > 0 {
      var before := seen[..|seen| - 1];
      RunIsLongest(before, n, r - 1);
      if r > 1 {
        assert seen[|seen| - 2] == before[|before| - 1];
        RunStep(seen, n, r);
      }
    }
  }

  lemma RunStep(seen: seq<Seen>, n: Needs, r: nat)
    requires 1 < r <= |seen|
    ensures IsRun(seen, n, r)
       <==> IsRun(seen[..|seen| - 1], n, r - 1) && Acceptable(seen[|seen| - 1].look, n)
            && Same(seen[|seen| - 2].look, seen[|seen| - 1].look)
  {
    var before := seen[..|seen| - 1];
    if IsRun(before, n, r - 1) && Acceptable(seen[|seen| - 1].look, n) && Same(seen[|seen| - 2].look, seen[|seen| - 1].look) {
      forall i | |seen| - r < i < |seen|
        ensures Same(seen[i - 1].look, seen[i].look)
      {
        if i < |seen| - 1 {
          assert Same(before[i - 1].look, before[i].look);
        }
      }
    }
    if IsRun(seen, n, r) {
      forall i | |before| - (r - 1) < i < |before|
        ensures Same(before[i - 1].look, before[i].look)
      {
        assert Same(seen[i - 1].look, seen[i].look);
      }
    }
  }

  /** The sample shows a rectangle with an area, and the states asked for. */
  predicate InState(l: Look, n: Needs) {
    match l
    case Sample(displayed, enabled, Some(r)) =>
      r.width > 0.0 && r.height > 0.0 && (displayed == Some(true) || !n.displayed) && (enabled == Some(true) || !n.enabled)
    case _ => false
  }

  /** A look is acceptable exactly in the states asked for, and two are the same sample
      exactly if the states agree and nothing moved by more than one unit. */
  lemma SampleMeans(a: Look, b: Look, n: Needs)
    ensures Acceptable(a, n) <==> InState(a, n)
    ensures InState(a, n) && InState(b, n) ==>
              (Same(a, b) <==> a.displayed == b.displayed && a.enabled == b.enabled && Within(a.rect.value, b.rect.value, 1.0))
  {
  }

  /** When the action passes, the looks end in a run of at least the required
      number of samples, spanning the required time, that never left the required
      states and drifted by less than one unit for each sample. */
  lemma PassedMeansStill(env: Environment, seen: seq<Seen>, n: Needs, deadline: real)
    requires Ready(env, seen, n, deadline)
    ensures var r := RunLength(seen, n);
            && r >= n.samples && r <= |seen|
            && (env.clock(seen[|seen| - 1].at + 2) - env.clock(seen[|seen| - r].at + 1)) * 1000.0 >= n.millis
            && forall i :: |seen| - r <= i < |seen| ==>
                 InState(seen[i].look, n) && InState(seen[|seen| - 1].look, n)
                 && Within(seen[i].look.rect.value, seen[|seen| - 1].look.rect.value, (r - 1) as real)
  {
    var r := RunLength(seen, n);
    forall i | |seen| - r <= i < |seen|
      ensures InState(seen[i].look, n) && InState(seen[|seen| - 1].look, n)
              && Within(seen[i].look.rect.value, seen[|seen| - 1].look.rect.value, (r - 1) as real)
    {
      RunDrift(seen, n, i);
    }
  }

  /** A look that failed or was not acceptable is followed by a run that starts after it. */
  lemma {:induction false} BadLookEmptiesRun(seen: seq<Seen>, n: Needs, i: nat)
    requires i < |seen| && !Acceptable(seen[i].look, n)
    ensures RunLength(seen, n) < |seen| - i
  {
    if i < |seen| - 1 {
      BadLookEmptiesRun(seen[..|seen| - 1], n, i);
    }
  }
}
