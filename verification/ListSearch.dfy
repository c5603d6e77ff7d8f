/** The two-phase list search of `SwipeInElementFindTextClickAction.execute`
    (agent/executor/actions.py): a fixed number of swipes in the preferred
    direction, then twice as many back. */
module ListSearch {

  datatype Direction = Preferred | Opposite

  /** One attempt to find and click the target. */
  datatype Attempt = Clicked | Missed | Raised

  datatype Event = Tried(a: Attempt) | Swiped(d: Direction)

  datatype Outcome = Found | NotFound | Failed

  datatype Run = Run(outcome: Outcome, trace: seq<Event>)

  /** The environment decides every attempt, and whether a swipe goes through, by
      everything that happened before. */
  datatype Environment = Environment(attempt: seq<Event> -> Attempt, swipes: (seq<Event>, Direction) -> bool)

  /** Try, swipe, try: one round. `NotFound` goes on. */
  function Round(env: Environment, d: Direction, trace: seq<Event>): Run {
    var first := env.attempt(trace);
    var tried := trace + [Tried(first)];
    if first.Clicked? then Run(Found, tried)
    else if first.Raised? || !env.swipes(tried, d) then Run(Failed, tried)
    else
      var swiped := tried + [Swiped(d)];
      var second := env.attempt(swiped);
      var all := swiped + [Tried(second)];
      Run(match second case Clicked => Found case Missed => NotFound case Raised => Failed, all)
  }

  /** `n` rounds in one direction, or fewer if one of them ends the search. */
  function Phase(env: Environment, d: Direction, n: int, trace: seq<Event>): Run
    decreases n
  {
    if n <= 0 then Run(NotFound, trace)
    else
      var r := Round(env, d, trace);
      if r.outcome.NotFound? then Phase(env, d, n - 1, r.trace) else r
  }

  function Search(env: Environment, max: int): Run {
    var r := Phase(env, Preferred, max, []);
    if r.outcome.NotFound? then Phase(env, Opposite, 2 * max, r.trace) else r
  }

  /** One of the two loops. */
  method RunPhase(env: Environment, d: Direction, budget: int, before: seq<Event>) returns (o: Outcome, trace: seq<Event>)
    ensures Run(o, trace) == Phase(env, d, budget, before)
  {
    var done := 0;
    trace := before;
    while done < budget
      invariant 0 <= done && (done <= budget || done == 0)
      invariant Phase(env, d, budget, before) == Phase(env, d, budget - done, trace)
    {
      var first := env.attempt(trace);
      trace := trace + [Tried(first)];
      if first.Clicked? {
        return Found, trace;
      }
      if first.Raised? || !env.swipes(trace, d) {
        return Failed, trace;
      }
      trace := trace + [Swiped(d)];
      done := done + 1;
      var second := env.attempt(trace);
      trace := trace + [Tried(second)];
      if second.Clicked? {
        return Found, trace;
      }
      if second.Raised? {
        return Failed, trace;
      }
    }
    o := NotFound;
  }

  method Execute(env: Environment, max: int) returns (o: Outcome, trace: seq<Event>)
    ensures Run(o, trace) == Search(env, max)
  {
    o, trace := RunPhase(env, Preferred, max, []);
    if o.NotFound? {
      o, trace := RunPhase(env, Opposite, 2 * max, trace);
    }
  }

  // ---------- how a search ends ----------

  /** Every attempt gave what the environment answered, and every swipe went through. */
  ghost predicate Honest(env: Environment, trace: seq<Event>) {
    forall j :: 0 <= j < |trace| ==> HonestAt(env, trace[..j], trace[j])
  }

  predicate HonestAt(env: Environment, before: seq<Event>, e: Event) {
    match e
    case Tried(a) => a == env.attempt(before)
    case Swiped(d) => env.swipes(before, d)
  }

  /** No attempt clicked or raised. */
  predicate NothingYet(trace: seq<Event>) {
    forall j :: 0 <= j < |trace| && trace[j].Tried? ==> trace[j].a.Missed?
  }

  lemma HonestMore(env: Environment, trace: seq<Event>, e: Event)
    requires Honest(env, trace) && HonestAt(env, trace, e)
    ensures Honest(env, trace + [e])
  {
    forall j | 0 <= j <= |trace|
      ensures HonestAt(env, (trace + [e])[..j], (trace + [e])[j])
    {
      assert (trace + [e])[..j] == trace[..j];
      assert trace[..|trace|] == trace;
    }
  }

  lemma NothingMore(trace: seq<Event>, e: Event)
    requires NothingYet(trace)
    ensures NothingYet(trace + [e]) <==> e.Swiped? || e.a.Missed?
  {
    assert (trace + [e])[|trace|] == e;
  }

  /** The outcome can be seen from the last event: a click, an attempt that raised or a
      swipe that was refused, and nothing of the kind before. */
  ghost predicate EndsAs(env: Environment, o: Outcome, trace: seq<Event>) {
    && Honest(env, trace)
    && if o.NotFound? then NothingYet(trace)
       else
         trace != [] &&
         var last, front := trace[|trace| - 1], trace[..|trace| - 1];
         && NothingYet(front) && last.Tried?
         && match last.a
            case Clicked => o.Found?
            case Raised => o.Failed?
            case Missed => o.Failed? && exists d :: !env.swipes(trace, d)
  }

  lemma AttemptEnds(env: Environment, trace: seq<Event>, o: Outcome)
    requires Honest(env, trace) && NothingYet(trace)
    requires var a, tried := env.attempt(trace), trace + [Tried(env.attempt(trace))];
             match a
             case Clicked => o.Found?
             case Raised => o.Failed?
             case Missed => o.NotFound? || (o.Failed? && exists d :: !env.swipes(tried, d))
    ensures EndsAs(env, o, trace + [Tried(env.attempt(trace))])
  {
    HonestMore(env, trace, Tried(env.attempt(trace)));
    NothingMore(trace, Tried(env.attempt(trace)));
    assert (trace + [Tried(env.attempt(trace))])[..|trace|] == trace;
  }

  lemma RoundEnds(env: Environment, d: Direction, trace: seq<Event>)
    requires Honest(env, trace) && NothingYet(trace)
    ensures EndsAs(env, Round(env, d, trace).outcome, Round(env, d, trace).trace)
  {
    var first := env.attempt(trace);
    var tried := trace + [Tried(first)];
    if first.Missed? && env.swipes(tried, d) {
      HonestMore(env, trace, Tried(first));
      NothingMore(trace, Tried(first));
      HonestMore(env, tried, Swiped(d));
      NothingMore(tried, Swiped(d));
      AttemptEnds(env, tried + [Swiped(d)], Round(env, d, trace).outcome);
    } else {
      AttemptEnds(env, trace, Round(env, d, trace).outcome);
    }
  }

  lemma {:induction false} PhaseEnds(env: Environment, d: Direction, n: int, trace: seq<Event>)
    requires Honest(env, trace) && NothingYet(trace)
    ensures EndsAs(env, Phase(env, d, n, trace).outcome, Phase(env, d, n, trace).trace)
    decreases n
  {
    if n > 0 {
      RoundEnds(env, d, trace);
      var r := Round(env, d, trace);
      if r.outcome.NotFound? {
        PhaseEnds(env, d, n - 1, r.trace);
      }
    }
  }

  /** In every environment: the target is found exactly if the last event is the
      attempt that clicked it, and an attempt that raised is a failure. */
  lemma SearchEnds(env: Environment, max: int)
    ensures var r := Search(env, max);
            && EndsAs(env, r.outcome, r.trace)
            && (r.outcome.Found? <==> r.trace != [] && r.trace[|r.trace| - 1] == Tried(Clicked))
            && (Tried(Raised) in r.trace ==> r.outcome.Failed?)
  {
    PhaseEnds(env, Preferred, max, []);
    var r := Phase(env, Preferred, max, []);
    if r.outcome.NotFound? {
      PhaseEnds(env, Opposite, 2 * max, r.trace);
    }
  }

  // ---------- how many swipes, in which order ----------

  function Swipes(trace: seq<Event>): seq<Direction> {
    if trace == [] then []
    else
      var last := trace[|trace| - 1];
      Swipes(trace[..|trace| - 1]) + (if last.Swiped? then [last.d] else [])
  }

  lemma SwipesAppend(trace: seq<Event>, e: Event)
    ensures Swipes(trace + [e]) == Swipes(trace) + (if e.Swiped? then [e.d] else [])
  {
  }

  lemma SwipesOfRound(trace: seq<Event>, a: Attempt, d: Direction, b: Attempt)
    ensures Swipes(trace + [Tried(a)] + [Swiped(d)] + [Tried(b)]) == Swipes(trace) + [d]
  {
    var tried := trace + [Tried(a)];
    SwipesAppend(trace, Tried(a));
    SwipesAppend(tried, Swiped(d));
    SwipesAppend(tried + [Swiped(d)], Tried(b));
  }

  /** A round that goes on swiped exactly once; one that ends swiped at most once. */
  lemma RoundSwipes(env: Environment, d: Direction, trace: seq<Event>)
    ensures var r := Round(env, d, trace);
            && (r.outcome.NotFound? ==> Swipes(r.trace) == Swipes(trace) + [d])
            && (Swipes(r.trace) == Swipes(trace) || Swipes(r.trace) == Swipes(trace) + [d])
  {
    var first := env.attempt(trace);
    var tried := trace + [Tried(first)];
    if first.Missed? && env.swipes(tried, d) {
      SwipesOfRound(trace, first, d, env.attempt(tried + [Swiped(d)]));
    } else {
      SwipesAppend(trace, Tried(first));
    }
  }

  function Repeat(d: Direction, n: nat): (r: seq<Direction>)
    ensures |r| == n && forall i :: 0 <= i < n ==> r[i] == d
  {
    seq(n, _ => d)
  }

  lemma RepeatMore(s: seq<Direction>, d: Direction, n: nat)
    ensures (s + [d]) + Repeat(d, n) == s + Repeat(d, n + 1)
  {
  }

  lemma RepeatNone(s: seq<Direction>, d: Direction)
    ensures s == s + Repeat(d, 0)
    ensures s + [d] == s + Repeat(d, 1)
  {
  }

  lemma {:induction false} PhaseSwipes(env: Environment, d: Direction, n: int, trace: seq<Event>) returns (k: nat)
    ensures var r := Phase(env, d, n, trace); Swipes(r.trace) == Swipes(trace) + Repeat(d, k)
    ensures k <= (if n > 0 then n else 0)
    ensures Phase(env, d, n, trace).outcome.NotFound? ==> k == if n > 0 then n else 0
    decreases n
  {
    if n <= 0 {
      RepeatNone(Swipes(trace), d);
      k := 0;
    } else {
      RoundSwipes(env, d, trace);
      var r := Round(env, d, trace);
      if r.outcome.NotFound? {
        var rest := PhaseSwipes(env, d, n - 1, r.trace);
        assert Phase(env, d, n, trace) == Phase(env, d, n - 1, r.trace);
        RepeatMore(Swipes(trace), d, rest);
        k := rest + 1;
      } else {
        assert Phase(env, d, n, trace) == r;
        RepeatNone(Swipes(trace), d);
        k := if Swipes(r.trace) == Swipes(trace) then 0 else 1;
      }
    }
  }

  /** The swipes are always a beginning of `max` in the preferred direction followed
      by twice as many back, and exactly all of them when the target is not found. */
  lemma SwipeBudget(env: Environment, max: nat)
    ensures var plan := Repeat(Preferred, max) + Repeat(Opposite, 2 * max);
            && Swipes(Search(env, max).trace) <= plan
            && (Search(env, max).outcome.NotFound? ==> Swipes(Search(env, max).trace) == plan && |plan| == 3 * max)
  {
    var k := PhaseSwipes(env, Preferred, max, []);
    var r := Phase(env, Preferred, max, []);
    if r.outcome.NotFound? {
      var m := PhaseSwipes(env, Opposite, 2 * max, r.trace);
    }
  }

  // ---------- a list whose position is clamped ----------

  function Step(p: int, d: Direction, length: int): int {
    if d.Preferred? then (if p < length then p + 1 else p) else (if p > 0 then p - 1 else p)
  }

  /** Where the list stands after the swipes made, counted in the preferred direction. */
  function Position(trace: seq<Event>, start: int, length: int): int {
    if trace == [] then start
    else
      var p := Position(trace[..|trace| - 1], start, length);
      var last := trace[|trace| - 1];
      if last.Swiped? then Step(p, last.d, length) else p
  }

  /** Every swipe moves the list one step unless it is at its end, and an attempt
      succeeds exactly where the target can be clicked. */
  ghost predicate Clamped(env: Environment, start: int, length: int, hits: int -> bool) {
    && (forall trace :: env.attempt(trace) == if hits(Position(trace, start, length)) then Clicked else Missed)
    && (forall trace, d :: env.swipes(trace, d))
  }

  lemma PositionAppend(trace: seq<Event>, e: Event, start: int, length: int)
    ensures var p := Position(trace, start, length);
            Position(trace + [e], start, length) == if e.Swiped? then Step(p, e.d, length) else p
  {
  }

  lemma PositionOfRound(trace: seq<Event>, a: Attempt, d: Direction, b: Attempt, start: int, length: int)
    ensures var p, tried := Position(trace, start, length), trace + [Tried(a)];
            && Position(tried + [Swiped(d)], start, length) == Step(p, d, length)
            && Position(tried + [Swiped(d)] + [Tried(b)], start, length) == Step(p, d, length)
  {
    var tried := trace + [Tried(a)];
    PositionAppend(trace, Tried(a), start, length);
    PositionAppend(tried, Swiped(d), start, length);
    PositionAppend(tried + [Swiped(d)], Tried(b), start, length);
  }

  lemma ClampedRound(env: Environment, d: Direction, trace: seq<Event>, start: int, length: int, hits: int -> bool)
    requires Clamped(env, start, length, hits)
    ensures var r, p := Round(env, d, trace), Position(trace, start, length);
            && r.outcome == (if hits(p) || hits(Step(p, d, length)) then Found else NotFound)
            && (r.outcome.NotFound? ==> Position(r.trace, start, length) == Step(p, d, length))
  {
    var first := env.attempt(trace);
    var tried := trace + [Tried(first)];
    PositionOfRound(trace, first, d, env.attempt(tried + [Swiped(d)]), start, length);
    assert env.swipes(tried, d);
  }

  /** Where `n` steps lead. */
  function Steps(p: int, d: Direction, n: nat, length: int): int {
    if d.Preferred? then (if p + n <= length then p + n else length) else (if p - n >= 0 then p - n else 0)
  }

  predicate Between(x: int, a: int, b: int) {
    a <= x <= b || b <= x <= a
  }

  ghost predicate Meets(a: int, b: int, hits: int -> bool) {
    exists x :: Between(x, a, b) && hits(x)
  }

  /** The first of `n` steps leaves `n - 1` that end in the same place. */
  lemma FirstStep(p: int, d: Direction, n: nat, length: int, hits: int -> bool)
    requires n > 0 && 0 <= p <= length
    ensures var next := Step(p, d, length);
            && 0 <= next <= length && Steps(next, d, n - 1, length) == Steps(p, d, n, length)
            && (Meets(p, Steps(p, d, n, length), hits) <==> hits(p) || Meets(next, Steps(p, d, n, length), hits))
  {
  }

  lemma MeetsHere(p: int, hits: int -> bool)
    ensures Meets(p, p, hits) <==> hits(p)
  {
  }

  lemma MeetsStart(p: int, q: int, hits: int -> bool)
    ensures hits(p) ==> Meets(p, q, hits)
  {
  }

  /** A phase of at least one round looks at every position from where it starts to
      where it would end. */
  lemma {:induction false} ClampedPhase(env: Environment, d: Direction, n: nat, trace: seq<Event>, start: int, length: int, hits: int -> bool)
    requires Clamped(env, start, length, hits) && n > 0 && 0 <= Position(trace, start, length) <= length
    ensures var r, p := Phase(env, d, n, trace), Position(trace, start, length);
            && r.outcome == (if Meets(p, Steps(p, d, n, length), hits) then Found else NotFound)
            && (r.outcome.NotFound? ==> Position(r.trace, start, length) == Steps(p, d, n, length))
    decreases n
  {
    ClampedRound(env, d, trace, start, length, hits);
    var r, p := Round(env, d, trace), Position(trace, start, length);
    var next, end := Step(p, d, length), Steps(p, d, n, length);
    FirstStep(p, d, n, length, hits);
    if n > 1 {
      MeetsStart(next, end, hits);
      if r.outcome.NotFound? {
        ClampedPhase(env, d, n - 1, r.trace, start, length, hits);
      }
    } else {
      MeetsHere(next, hits);
    }
  }

  /** The target is found if and only if it can be clicked at a position the plan
      reaches: up to `max` steps on, and from there up to `2 * max` steps back. */
  lemma FoundIff(env: Environment, max: nat, start: int, length: int, hits: int -> bool)
    requires Clamped(env, start, length, hits) && max > 0 && 0 <= start <= length
    ensures var end := Steps(start, Preferred, max, length);
            && !Search(env, max).outcome.Failed?
            && (Search(env, max).outcome.Found?
                <==> exists x :: Steps(end, Opposite, 2 * max, length) <= x <= end && hits(x))
  {
    ClampedPhase(env, Preferred, max, [], start, length, hits);
    var r := Phase(env, Preferred, max, []);
    var end := Steps(start, Preferred, max, length);
    if r.outcome.NotFound? {
      ClampedPhase(env, Opposite, 2 * max, r.trace, start, length, hits);
    } else {
      var x :| Between(x, start, end) && hits(x);
      assert Steps(end, Opposite, 2 * max, length) <= x <= end && hits(x);
    }
  }

  /** Even when the list stops at either end, nothing within `max` steps of the start
      is missed in either direction. */
  lemma NothingNearIsMissed(env: Environment, max: nat, start: int, length: int, hits: int -> bool, x: int)
    requires Clamped(env, start, length, hits) && max > 0 && 0 <= start <= length
    requires 0 <= x <= length && start - max <= x <= start + max && hits(x)
    ensures Search(env, max).outcome.Found?
  {
    FoundIff(env, max, start, length, hits);
  }

  /** Without a swipe to spend the list is not even looked at. */
  lemma NoBudgetNoLook(env: Environment, max: int)
    ensures max <= 0 <==> Search(env, max).trace == []
  {
    if max > 0 {
      var r := Round(env, Preferred, []);
      PhaseKeeps(env, Preferred, max - 1, r.trace);
      PhaseKeeps(env, Opposite, 2 * max, Phase(env, Preferred, max, []).trace);
    }
  }

  lemma {:induction false} PhaseKeeps(env: Environment, d: Direction, n: int, trace: seq<Event>)
    ensures |trace| <= |Phase(env, d, n, trace).trace|
    decreases n
  {
    if n > 0 {
      PhaseKeeps(env, d, n - 1, Round(env, d, trace).trace);
    }
  }
}
