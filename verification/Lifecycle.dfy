/** The lifecycle of executions in the agent (agent/main.py): which executions run,
    which are remembered as finished, and which results await confirmation. One
    event is what happens between two awaits; a run is any sequence of events. */
module Lifecycle {
  import opened Common
  import opened Text

  const MEMORY := 500

  /** A terminal result as it is sent. */
  datatype Payload = Payload(token: Option<string>, status: string, error: Option<string>)

  /** A message received, a result recorded by a task, a task leaving `runtimes`, a
      shutdown, or any send, failure, reconnection or replay. A `start_test` of
      another protocol version carries the text of the error it causes. */
  datatype Event =
    | Start(id: int, token: Option<string>, mismatch: Option<string>)
    | Stop(id: int)
    | Ack(id: int, ackToken: Option<string>)
    | Result(id: int, payload: Payload)
    | Leave(id: int)
    | Shutdown
    | Transport

  /** `running` maps an execution to whether it was asked to stop. */
  datatype State = State(running: map<int, bool>, finished: seq<int>, ids: set<int>, pending: map<int, Payload>)

  const Fresh := State(map[], [], {}, map[])

  /** `_remember_finished_execution`. */
  function Remember(s: State, id: int): State {
    if id in s.ids then s
    else if |s.finished| >= MEMORY then
      s.(finished := s.finished[1..] + [id], ids := s.ids - {s.finished[0]} + {id})
    else s.(finished := s.finished + [id], ids := s.ids + {id})
  }

  /** The state changes of `_send_execution_result_safe`. */
  function Record(s: State, id: int, p: Payload): State {
    Remember(s.(pending := s.pending[id := p]), id)
  }

  function Launch(s: State, id: int): State {
    s.(running := s.running[id := false])
  }

  function Step(s: State, e: Event): State {
    match e
    case Start(id, token, mismatch) =>
      if mismatch.Some? then Record(s, id, Payload(token, "error", mismatch))
      else if id in s.running || id in s.ids then s
      else Launch(s, id)
    case Stop(id) => if id in s.running then s.(running := s.running[id := true]) else s
    case Ack(id, token) =>
      if id in s.pending && s.pending[id].token == token then s.(pending := s.pending - {id}) else s
    case Result(id, payload) => Record(s, id, payload)
    case Leave(id) => s.(running := s.running - {id})
    case Shutdown => s.(running := map[])
    case Transport => s
  }

  function After(run: seq<Event>, n: nat): State
    requires n <= |run|
  {
    if n == 0 then Fresh else Step(After(run, n - 1), run[n - 1])
  }

  // ---------- the bounded memory ----------

  /** The deque has no duplicates, is bounded, and has exactly the ids of the set. */
  ghost predicate Valid(s: State) {
    NoDuplicates(s.finished) && |s.finished| <= MEMORY && forall id :: id in s.ids <==> id in s.finished
  }

  lemma RememberValid(s: State, id: int)
    requires Valid(s)
    ensures Valid(Remember(s, id)) && id in Remember(s, id).ids
    ensures Remember(s, id).running == s.running && Remember(s, id).pending == s.pending
  {
  }

  lemma StepValid(s: State, e: Event)
    requires Valid(s)
    ensures Valid(Step(s, e))
  {
    if e.Result? {
      RememberValid(s.(pending := s.pending[e.id := e.payload]), e.id);
    } else if e.Start? && e.mismatch.Some? {
      RememberValid(s.(pending := s.pending[e.id := Payload(e.token, "error", e.mismatch)]), e.id);
    }
  }

  /** The memory is well-formed after any sequence of events. */
  lemma {:induction false} MemoryValid(run: seq<Event>, n: nat)
    requires n <= |run|
    ensures Valid(After(run, n))
  {
    if n > 0 {
      MemoryValid(run, n - 1);
      StepValid(After(run, n - 1), run[n - 1]);
    }
  }

  // ---------- launches of the same execution are far apart ----------

  /** The execution whose result an event records. */
  function Recorded(e: Event): Option<(int, Payload)> {
    if e.Result? then Some((e.id, e.payload))
    else if e.Start? && e.mismatch.Some? then Some((e.id, Payload(e.token, "error", e.mismatch)))
    else None
  }

  /** The event puts the execution into the table of running ones. */
  predicate Launches(s: State, e: Event, id: int) {
    id !in s.running && id in Step(s, e).running
  }

  /** The event takes the execution out of the table of running ones. */
  predicate Leaves(s: State, e: Event, id: int) {
    id in s.running && id !in Step(s, e).running
  }

  /** Only a `start_test` launches, and only an execution that is neither running nor
      remembered; only the execution's own end or a shutdown takes it out again. */
  lemma TableChanges(s: State, e: Event, id: int)
    ensures Launches(s, e, id)
       <==> e.Start? && e.id == id && e.mismatch.None? && id !in s.running && id !in s.ids
    ensures Leaves(s, e, id) <==> id in s.running && (e == Leave(id) || e.Shutdown?)
  {
  }

  function NextUnrecorded(s: State, unrecorded: set<int>, e: Event): set<int> {
    match Recorded(e)
    case Some(r) => unrecorded - {r.0}
    case None => if e.Start? && Launches(s, e, e.id) then unrecorded + {e.id} else unrecorded
  }

  /** Launched executions that have not recorded a result since. */
  function Unrecorded(run: seq<Event>, n: nat): set<int>
    requires n <= |run|
  {
    if n == 0 then {} else NextUnrecorded(After(run, n - 1), Unrecorded(run, n - 1), run[n - 1])
  }

  /** The execution leaves the table before its result was recorded. */
  predicate LeavesEarly(run: seq<Event>, k: nat, id: int)
    requires k < |run|
  {
    Leaves(After(run, k), run[k], id) && id in Unrecorded(run, k)
  }

  function NextOthers(others: set<int>, e: Event, id: int): set<int> {
    match Recorded(e)
    case Some(r) => if r.0 != id then others + {r.0} else others
    case None => others
  }

  /** The other executions that recorded a result from event `i` up to event `n`. */
  function Others(run: seq<Event>, i: nat, n: nat, id: int): set<int>
    requires i <= n <= |run|
    decreases n
  {
    if n == i then {} else NextOthers(Others(run, i, n - 1, id), run[n - 1], id)
  }

  /** `id` is remembered, and everything remembered after it is in `others`. */
  ghost predicate Followed(q: seq<int>, id: int, others: set<int>) {
    exists y :: 0 <= y < |q| && q[y] == id && forall m :: y < m < |q| ==> q[m] in others
  }

  lemma {:induction false} DistinctCount(q: seq<int>, t: set<int>)
    requires NoDuplicates(q) && forall i :: 0 <= i < |q| ==> q[i] in t
    ensures |q| <= |t|
  {
    if q != [] {
      DistinctCount(q[1..], t - {q[0]});
    }
  }

  lemma FollowedAppend(q: seq<int>, id: int, others: set<int>, x: int)
    requires Followed(q, id, others)
    ensures Followed(q, id, others + {x}) && Followed(q + [x], id, others + {x})
  {
    var y :| 0 <= y < |q| && q[y] == id && forall m :: y < m < |q| ==> q[m] in others;
    assert (q + [x])[y] == id;
  }

  lemma FollowedShift(q: seq<int>, id: int, others: set<int>)
    requires q != [] && Followed(q, id, others) && q[0] != id
    ensures Followed(q[1..], id, others)
  {
    var y :| 0 <= y < |q| && q[y] == id && forall m :: y < m < |q| ==> q[m] in others;
    assert q[1..][y - 1] == id;
    assert forall m :: y - 1 < m < |q| - 1 ==> q[1..][m] == q[m + 1];
  }

  lemma PushedOut(q: seq<int>, id: int, others: set<int>, x: int)
    requires NoDuplicates(q) && q != [] && q[0] == id && Followed(q, id, others) && x !in q
    ensures |q| <= |others + {x}|
  {
    var y :| 0 <= y < |q| && q[y] == id && forall m :: y < m < |q| ==> q[m] in others;
    assert y == 0;
    DistinctCount(q[1..] + [x], others + {x});
  }

  /** Remembering one more keeps `id` followed, or pushes it out after 500 others. */
  lemma RememberFollows(s: State, x: int, id: int, others: set<int>)
    requires Valid(s) && Followed(s.finished, id, others) && x != id
    ensures Followed(Remember(s, x).finished, id, others + {x}) || |others + {x}| >= MEMORY
  {
    var q := s.finished;
    FollowedAppend(q, id, others, x);
    if x !in s.ids && |q| >= MEMORY {
      if q[0] == id {
        PushedOut(q, id, others, x);
      } else {
        FollowedShift(q, id, others);
        FollowedAppend(q[1..], id, others, x);
      }
    }
  }

  /** What every event keeps after a launch: no result was recorded yet, or the
      execution is remembered with only others after it, or enough others have
      recorded results. */
  ghost predicate Kept(s: State, unrecorded: set<int>, id: int, others: set<int>) {
    || (id in unrecorded && id !in s.ids)
    || Followed(s.finished, id, others)
    || |others| >= MEMORY
  }

  lemma RememberedLast(s: State, id: int, others: set<int>)
    requires Valid(s) && id !in s.ids
    ensures Followed(Remember(s, id).finished, id, others)
  {
    var q := Remember(s, id).finished;
    assert q[|q| - 1] == id;
  }

  lemma RecordKeeps(s: State, unrecorded: set<int>, id: int, others: set<int>, x: int, p: Payload)
    requires Valid(s) && Kept(s, unrecorded, id, others)
    ensures Kept(Record(s, x, p), unrecorded - {x}, id, if x != id then others + {x} else others)
  {
    var t := s.(pending := s.pending[x := p]);
    if |others| >= MEMORY {
      GrowsBy(others, x);
    } else if Followed(s.finished, id, others) {
      if x != id {
        RememberFollows(t, x, id, others);
      } else {
        assert id in t.ids;
      }
    } else if x == id {
      RememberedLast(t, id, others);
    } else {
      OnlyAdds(t, x, id);
    }
  }

  lemma OnlyAdds(s: State, x: int, id: int)
    requires Valid(s) && id !in s.ids && x != id
    ensures id !in Remember(s, x).ids
  {
  }

  lemma GrowsBy(t: set<int>, x: int)
    ensures |t + {x}| >= |t|
  {
    if x in t {
      assert t + {x} == t;
    }
  }

  lemma StepKeeps(s: State, unrecorded: set<int>, id: int, others: set<int>, e: Event)
    requires Valid(s) && Kept(s, unrecorded, id, others)
    ensures Kept(Step(s, e), NextUnrecorded(s, unrecorded, e), id, NextOthers(others, e, id))
  {
    match Recorded(e)
    case Some(r) => RecordKeeps(s, unrecorded, id, others, r.0, r.1);
    case None =>
      assert Step(s, e).finished == s.finished && Step(s, e).ids == s.ids;
  }

  lemma LaunchKept(s: State, unrecorded: set<int>, e: Event, id: int)
    requires Launches(s, e, id)
    ensures Kept(Step(s, e), NextUnrecorded(s, unrecorded, e), id, NextOthers({}, e, id))
  {
  }

  ghost predicate KeptSince(run: seq<Event>, i: nat, n: nat, id: int)
    requires i < n <= |run|
  {
    Kept(After(run, n), Unrecorded(run, n), id, Others(run, i, n, id))
  }

  lemma KeptAtLaunch(run: seq<Event>, i: nat, id: int)
    requires i < |run| && Launches(After(run, i), run[i], id)
    ensures KeptSince(run, i, i + 1, id)
  {
    assert Others(run, i, i, id) == {};
    assert After(run, i + 1) == Step(After(run, i), run[i]);
    LaunchKept(After(run, i), Unrecorded(run, i), run[i], id);
  }

  lemma KeptNext(run: seq<Event>, i: nat, n: nat, id: int)
    requires i < n < |run| && KeptSince(run, i, n, id)
    ensures KeptSince(run, i, n + 1, id)
  {
    MemoryValid(run, n);
    StepKeeps(After(run, n), Unrecorded(run, n), id, Others(run, i, n, id), run[n]);
  }

  lemma {:induction false} KeptFrom(run: seq<Event>, i: nat, n: nat, id: int)
    requires i < n <= |run| && KeptSince(run, i, i + 1, id)
    ensures KeptSince(run, i, n, id)
    decreases n
  {
    if n > i + 1 {
      KeptFrom(run, i, n - 1, id);
      KeptNext(run, i, n - 1, id);
    }
  }

  /** In every run: while fewer than 500 other executions have recorded a result
      since a launch, a `start_test` launches the execution again if and only if it
      is no longer running and has not recorded its own result. */
  lemma RelaunchIff(run: seq<Event>, i: nat, j: nat, id: int)
    requires i < j < |run| && Launches(After(run, i), run[i], id)
    requires run[j].Start? && run[j].id == id && run[j].mismatch.None?
    requires |Others(run, i, j, id)| < MEMORY
    ensures Launches(After(run, j), run[j], id) <==> id in Unrecorded(run, j) && id !in After(run, j).running
  {
    KeptAtLaunch(run, i, id);
    KeptFrom(run, i, j, id);
    MemoryValid(run, j);
    UnrecordedNotRemembered(run, j);
  }

  /** An execution without a recorded result is running, unless it left early. */
  lemma {:induction false} UnrecordedRuns(run: seq<Event>, i: nat, n: nat, id: int)
    requires i < n <= |run| && Launches(After(run, i), run[i], id) && id in Unrecorded(run, n)
    requires forall k: nat :: i < k < n ==> !LeavesEarly(run, k, id)
    ensures id in After(run, n).running
    decreases n
  {
    var s, e := After(run, n - 1), run[n - 1];
    if n - 1 > i {
      if id in Unrecorded(run, n - 1) {
        UnrecordedRuns(run, i, n - 1, id);
        assert !LeavesEarly(run, n - 1, id);
      }
      RunningStays(s, Unrecorded(run, n - 1), e, id);
    }
  }

  lemma RunningStays(s: State, unrecorded: set<int>, e: Event, id: int)
    requires id in NextUnrecorded(s, unrecorded, e)
    requires id in unrecorded ==> id in s.running && !Leaves(s, e, id)
    ensures id in Step(s, e).running
  {
  }

  /** Two launches of an execution are separated by recorded results of at least 500
      different others, whatever the others do, unless it left early in between. */
  lemma LaunchesAreFarApart(run: seq<Event>, i: nat, j: nat, id: int)
    requires i < j < |run|
    requires Launches(After(run, i), run[i], id) && Launches(After(run, j), run[j], id)
    ensures |Others(run, i, j, id)| >= MEMORY || exists k: nat :: i < k < j && LeavesEarly(run, k, id)
  {
    if |Others(run, i, j, id)| < MEMORY {
      RelaunchIff(run, i, j, id);
      if forall k: nat :: i < k < j ==> !LeavesEarly(run, k, id) {
        UnrecordedRuns(run, i, j, id);
      }
    }
  }

  lemma {:induction false} UnrecordedNotRemembered(run: seq<Event>, n: nat)
    requires n <= |run|
    ensures Unrecorded(run, n) !! After(run, n).ids
  {
    if n > 0 {
      UnrecordedNotRemembered(run, n - 1);
      MemoryValid(run, n - 1);
      StepDisjoint(After(run, n - 1), Unrecorded(run, n - 1), run[n - 1]);
    }
  }

  lemma StepDisjoint(s: State, unrecorded: set<int>, e: Event)
    requires Valid(s) && unrecorded !! s.ids
    ensures NextUnrecorded(s, unrecorded, e) !! Step(s, e).ids
  {
    match Recorded(e)
    case Some(r) =>
      forall x | x in unrecorded && x != r.0
        ensures x !in Step(s, e).ids
      {
        OnlyAdds(s.(pending := s.pending[r.0 := r.1]), r.0, x);
      }
    case None =>
  }

  /** The exception is real in every run: an execution that leaves early, alone or at a
      shutdown, is launched again by a `start_test` that follows. */
  lemma EarlyLeaveRelaunches(run: seq<Event>, n: nat, id: int, token: Option<string>)
    requires n < |run| && LeavesEarly(run, n, id)
    ensures Launches(After(run, n + 1), Start(id, token, None), id)
  {
    UnrecordedNotRemembered(run, n);
  }

  /** A task cancelled before its first step: two launches with nothing in between. */
  lemma LaunchedTwice()
    ensures var run := [Start(1, None, None), Leave(1), Start(1, None, None)];
            && Launches(After(run, 0), run[0], 1) && LeavesEarly(run, 1, 1)
            && Launches(After(run, 2), run[2], 1) && Others(run, 0, 2, 1) == {}
  {
    var run := [Start(1, None, None), Leave(1), Start(1, None, None)];
    assert After(run, 1) == Launch(Fresh, 1);
    assert After(run, 2) == Fresh;
    assert Unrecorded(run, 1) == {1};
    EarlyLeaveRelaunches(run, 1, 1, None);
    assert Others(run, 0, 1, 1) == {};
  }

  // ---------- stop requests ----------

  /** Before `n` a stop came, and no launch after it. */
  ghost predicate StopLast(stops: nat -> bool, launches: nat -> bool, n: nat) {
    exists k: nat :: k < n && stops(k) && NoneBetween(launches, k, n)
  }

  predicate NoneBetween(launches: nat -> bool, k: nat, n: nat) {
    forall m: nat :: k < m < n ==> !launches(m)
  }

  lemma StopLastStep(stops: nat -> bool, launches: nat -> bool, n: nat)
    ensures StopLast(stops, launches, n + 1) <==> stops(n) || (!launches(n) && StopLast(stops, launches, n))
  {
    if StopLast(stops, launches, n + 1) {
      var k: nat :| k < n + 1 && stops(k) && NoneBetween(launches, k, n + 1);
      assert k < n ==> NoneBetween(launches, k, n);
    }
    if stops(n) {
      assert NoneBetween(launches, n, n + 1);
    } else if !launches(n) && StopLast(stops, launches, n) {
      var k: nat :| k < n && stops(k) && NoneBetween(launches, k, n);
      assert NoneBetween(launches, k, n + 1);
    }
  }

  function StopsOf(run: seq<Event>, id: int): nat -> bool {
    (k: nat) => k < |run| && run[k] == Stop(id)
  }

  function LaunchesOf(run: seq<Event>, id: int): nat -> bool {
    (k: nat) => k < |run| && Launches(After(run, k), run[k], id)
  }

  lemma EventsOf(run: seq<Event>, k: nat, id: int)
    requires k < |run|
    ensures StopsOf(run, id)(k) <==> run[k] == Stop(id)
    ensures LaunchesOf(run, id)(k) <==> Launches(After(run, k), run[k], id)
  {
  }

  lemma MarkStep(s: State, e: Event, id: int)
    requires id in Step(s, e).running
    ensures Step(s, e).running[id] <==> e == Stop(id) || (!Launches(s, e, id) && s.running[id])
  {
  }

  lemma MarkNext(run: seq<Event>, n: nat, id: int, stops: nat -> bool, launches: nat -> bool)
    requires n < |run| && id in After(run, n + 1).running
    requires stops(n) <==> run[n] == Stop(id)
    requires launches(n) <==> Launches(After(run, n), run[n], id)
    requires id in After(run, n).running ==> (After(run, n).running[id] <==> StopLast(stops, launches, n))
    ensures After(run, n + 1).running[id] <==> StopLast(stops, launches, n + 1)
  {
    StopLastStep(stops, launches, n);
    MarkStep(After(run, n), run[n], id);
  }

  /** A running execution is marked if and only if a stop came since its last launch. */
  lemma {:induction false} MarkedIff(run: seq<Event>, n: nat, id: int)
    requires n <= |run| && id in After(run, n).running
    ensures After(run, n).running[id] <==> StopLast(StopsOf(run, id), LaunchesOf(run, id), n)
  {
    if n > 0 {
      if id in After(run, n - 1).running {
        MarkedIff(run, n - 1, id);
      }
      EventsOf(run, n - 1, id);
      MarkNext(run, n - 1, id, StopsOf(run, id), LaunchesOf(run, id));
    }
  }

  // ---------- the ledger of unconfirmed results ----------

  /** `p` is the latest result recorded for `id`, and no acknowledgement with its
      token was processed since. */
  ghost predicate Unconfirmed(run: seq<Event>, n: nat, id: int, p: Payload)
    requires n <= |run|
  {
    exists r :: 0 <= r < n && LatestAt(run, n, id, p, r)
  }

  predicate LatestAt(run: seq<Event>, n: nat, id: int, p: Payload, r: nat)
    requires r < n <= |run|
  {
    Recorded(run[r]) == Some((id, p)) && forall k :: r < k < n ==> !Settles(run[k], id, p)
  }

  /** The event records a later result or acknowledges this one. */
  predicate Settles(e: Event, id: int, p: Payload) {
    (Recorded(e).Some? && Recorded(e).value.0 == id) || e == Ack(id, p.token)
  }

  /** What one event does to one entry. */
  lemma PendingStep(s: State, e: Event, id: int)
    ensures var t := Step(s, e).pending;
            if Recorded(e).Some? && Recorded(e).value.0 == id then id in t && t[id] == Recorded(e).value.1
            else if id in s.pending && e == Ack(id, s.pending[id].token) then id !in t
            else (id in t <==> id in s.pending) && (id in t ==> t[id] == s.pending[id])
  {
  }

  /** The ledger holds for every execution exactly its latest result, unless that
      result was acknowledged since: acknowledgements with another token, failed
      sends, reconnections and replays change nothing. */
  lemma {:induction false} LedgerExact(run: seq<Event>, n: nat, id: int, p: Payload)
    requires n <= |run|
    ensures (id in After(run, n).pending && After(run, n).pending[id] == p) <==> Unconfirmed(run, n, id, p)
  {
    if n > 0 {
      var s, e := After(run, n - 1), run[n - 1];
      LedgerExact(run, n - 1, id, p);
      PendingStep(s, e, id);
      if Recorded(e) == Some((id, p)) {
        assert LatestAt(run, n, id, p, n - 1);
      } else if Unconfirmed(run, n - 1, id, p) && !Settles(e, id, p) {
        var r :| 0 <= r < n - 1 && LatestAt(run, n - 1, id, p, r);
        assert LatestAt(run, n, id, p, r);
      }
      if Unconfirmed(run, n, id, p) && Recorded(e) != Some((id, p)) {
        var r :| 0 <= r < n && LatestAt(run, n, id, p, r);
        assert LatestAt(run, n - 1, id, p, r);
      }
    }
  }
}
